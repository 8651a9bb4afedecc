/**
 * The file-name string operations of the older com.jalutils.FileManager.
 * They are guarded by StringUtils.isValid, whose code is not part of this
 * model: it is the parameter isValid, about which nothing is assumed. When
 * isValid accepts null, the next dereference throws NullPointerException.
 */
module FileManager {
  import opened JavaLang
  import StringUtils
  import FileUtils

  /**
   * addExtension(fileName, extension): rejects a name isValid refuses, then
   * appends the extension verbatim (no dot is added) unless the name already
   * ends with it. The result starts with the name and ends with the
   * extension, and it is the name itself exactly when the name already
   * ended so.
   */
  function AddExtension(isValid: Nullable<string> -> bool, fileName: Nullable<string>, extension: Nullable<string>)
    : (r: Result<string>)
    ensures r == Threw(IllegalArgumentException) <==> !isValid(fileName)
    ensures r == Threw(NullPointerException) <==> isValid(fileName) && (fileName.Null? || extension.Null?)
    ensures r.Returned? ==>
      && StartsWith(r.value, fileName.value)
      && EndsWith(r.value, extension.value)
      && (r.value == fileName.value <==> EndsWith(fileName.value, extension.value))
      && (r.value == fileName.value || |r.value| == |fileName.value| + |extension.value|)
  {
    if !isValid(fileName) then Threw(IllegalArgumentException)
    else if fileName.Null? || extension.Null? then Threw(NullPointerException)
    else if !EndsWith(fileName.value, extension.value) then
      var fixed := fileName.value + extension.value;
      assert fixed[|fixed| - |extension.value|..] == extension.value;
      Returned(fixed)
    else Returned(fileName.value)
  }

  /**
   * Adding the same extension a second time changes nothing, provided
   * isValid accepts the first result (a name that already carried the
   * extension needs no such proviso).
   */
  lemma AddExtensionIdempotent(isValid: Nullable<string> -> bool, fileName: Nullable<string>, extension: Nullable<string>)
    requires AddExtension(isValid, fileName, extension).Returned?
    requires isValid(Present(AddExtension(isValid, fileName, extension).value))
    ensures AddExtension(isValid, Present(AddExtension(isValid, fileName, extension).value), extension)
         == AddExtension(isValid, fileName, extension)
  {
  }

  /**
   * With the blankness check as isValid, FileManager's addExtension given the
   * dotted extension is FileUtils' addExtension; the two differ only in
   * FileUtils adding the dot.
   */
  lemma AddExtensionAgreesWithFileUtils(isValid: Nullable<string> -> bool, fileName: Nullable<string>, extension: string)
    requires forall text :: isValid(text) == !StringUtils.IsBlank(text)
    ensures AddExtension(isValid, fileName, Present(FileUtils.NormalizeExtension(extension)))
         == FileUtils.AddExtension(fileName, Present(extension))
  {
  }

  /** No dot is added: a bare extension is glued to the name as it is. */
  lemma AddExtensionAddsNoDot(isValid: Nullable<string> -> bool)
    requires isValid(Present("GenericName"))
    ensures AddExtension(isValid, Present("GenericName"), Present("docx")) == Returned("GenericNamedocx")
  {
    assert !EndsWith("GenericName", "docx") by { assert "GenericName"[7..][0] != "docx"[0]; }
    assert "GenericName" + "docx" == "GenericNamedocx";
  }

  /**
   * getFileExtension(filePath): rejects a path isValid refuses and a path
   * with no dot; otherwise returns the text after the last dot, which holds
   * no dot and is preceded in the path by a dot.
   */
  function GetFileExtension(isValid: Nullable<string> -> bool, filePath: Nullable<string>): (r: Result<string>)
    ensures r == Threw(NullPointerException) <==> isValid(filePath) && filePath.Null?
    ensures r.Returned? <==> isValid(filePath) && filePath.Present? && '.' in filePath.value
    ensures r.Returned? ==>
      var p := filePath.value;
      && '.' !in r.value
      && |r.value| < |p|
      && p == p[..|p| - |r.value| - 1] + ['.'] + r.value
  {
    if !isValid(filePath) then Threw(IllegalArgumentException)
    else if filePath.Null? then Threw(NullPointerException)
    // indexOf(".") < 0
    else if '.' !in filePath.value then Threw(IllegalArgumentException)
    else Returned(SubstringAfterLast(filePath.value, '.'))
  }

  /** With the blankness check as isValid, both getFileExtension operations agree on every path. */
  lemma GetFileExtensionAgreesWithFileUtils(isValid: Nullable<string> -> bool, filePath: Nullable<string>)
    requires forall text :: isValid(text) == !StringUtils.IsBlank(text)
    ensures GetFileExtension(isValid, filePath) == FileUtils.GetFileExtension(filePath)
  {
  }
}
