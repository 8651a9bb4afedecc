/**
 * The file-name string operations of io.github.cainlara.jalutils.FileUtils:
 * appending an extension and extracting it. Both are guarded by the
 * blankness check and touch no file.
 */
module FileUtils {
  import opened JavaLang
  import opened StringUtils

  /** The extension as addExtension appends it: always with one leading dot, added only when missing. */
  function NormalizeExtension(extension: string): (r: string)
    ensures StartsWith(r, ".")
    ensures r == extension <==> StartsWith(extension, ".")
    ensures r != extension ==> r == "." + extension
  {
    if StartsWith(extension, ".") then extension else "." + extension
  }

  /** Normalising twice is normalising once. */
  lemma NormalizeExtensionIdempotent(extension: string)
    ensures NormalizeExtension(NormalizeExtension(extension)) == NormalizeExtension(extension)
  {
  }

  /**
   * addExtension(fileName, extension): rejects a blank file name, then
   * appends the dotted extension unless the name already ends with it.
   * The result starts with the name and ends with the dotted extension, and
   * it is the name itself exactly when the name already ended so.
   */
  function AddExtension(fileName: Nullable<string>, extension: Nullable<string>): (r: Result<string>)
    ensures r == Threw(IllegalArgumentException) <==> IsBlank(fileName)
    ensures r == Threw(NullPointerException) <==> !IsBlank(fileName) && extension.Null?
    ensures r.Returned? ==>
      var dotted := NormalizeExtension(extension.value);
      && StartsWith(r.value, fileName.value)
      && EndsWith(r.value, dotted)
      && (r.value == fileName.value <==> EndsWith(fileName.value, dotted))
      && (r.value == fileName.value || |r.value| == |fileName.value| + |dotted|)
  {
    if IsBlank(fileName) then Threw(IllegalArgumentException)
    else if extension.Null? then Threw(NullPointerException)
    else
      var fixedExtension := NormalizeExtension(extension.value);
      if !EndsWith(fileName.value, fixedExtension) then
        var fixed := fileName.value + fixedExtension;
        assert fixed[|fixed| - |fixedExtension|..] == fixedExtension;
        Returned(fixed)
      else Returned(fileName.value)
  }

  /** Adding the same extension a second time changes nothing. */
  lemma AddExtensionIdempotent(fileName: Nullable<string>, extension: Nullable<string>)
    requires AddExtension(fileName, extension).Returned?
    ensures AddExtension(Present(AddExtension(fileName, extension).value), extension)
         == AddExtension(fileName, extension)
  {
    var r := AddExtension(fileName, extension).value;
    assert r == fileName.value + r[|fileName.value|..];
    NonBlankPrefix(fileName.value, r[|fileName.value|..]);
  }

  /** The test suite's case: a bare extension gets its dot before it is appended. */
  lemma AddExtensionAppendsDottedExtension()
    ensures AddExtension(Present("GenericName"), Present("docx")) == Returned("GenericName.docx")
  {
    assert "GenericName"[0] == 'G';
    assert !StartsWith("docx", ".") by { assert "docx"[0] != "."[0]; }
    assert NormalizeExtension("docx") == ".docx";
    assert !EndsWith("GenericName", ".docx") by { assert "GenericName"[6..][0] != ".docx"[0]; }
    assert "GenericName" + ".docx" == "GenericName.docx";
  }

  /** A name that already carries the extension is returned as it is. */
  lemma AddExtensionKeepsPresentExtension()
    ensures AddExtension(Present("GenericName.docx"), Present("docx")) == Returned("GenericName.docx")
  {
  }

  /** An extension that already has its dot gets no second one. */
  lemma AddExtensionKeepsLeadingDot()
    ensures AddExtension(Present("a"), Present(".txt")) == Returned("a.txt")
  {
    assert "a"[0] == 'a';
    assert StartsWith(".txt", ".") by { assert ".txt"[..1] == "."; }
    assert !EndsWith("a", ".txt");
    assert "a" + ".txt" == "a.txt";
  }

  /** The two exceptional outcomes: a blank name, then a null extension. */
  lemma AddExtensionFailures()
    ensures AddExtension(Present("  "), Present("txt")) == Threw(IllegalArgumentException)
    ensures AddExtension(Present("a"), Null) == Threw(NullPointerException)
  {
  }

  /**
   * getFileExtension(filePath): rejects a blank path and a path with no
   * dot; otherwise returns the text after the last dot, which holds no dot
   * and is preceded in the path by a dot.
   */
  function GetFileExtension(filePath: Nullable<string>): (r: Result<string>)
    ensures r.Returned? <==> !IsBlank(filePath) && '.' in filePath.value
    ensures r.Threw? ==> r.exception == IllegalArgumentException
    ensures r.Returned? ==>
      var p := filePath.value;
      && '.' !in r.value
      && |r.value| < |p|
      && p == p[..|p| - |r.value| - 1] + ['.'] + r.value
  {
    if IsBlank(filePath) then Threw(IllegalArgumentException)
    // indexOf('.') < 0
    else if '.' !in filePath.value then Threw(IllegalArgumentException)
    else
      var p := filePath.value;
      var extension := SubstringAfterLast(p, '.');
      assert p == p[..|p| - |extension| - 1] + ['.'] + extension;
      Returned(extension)
  }

  /** A dot-free extension joined to any stem by a dot is recovered exactly. */
  lemma GetFileExtensionRoundTrip(stem: string, extension: string)
    requires '.' !in extension
    ensures GetFileExtension(Present(stem + "." + extension)) == Returned(extension)
  {
    var p := stem + "." + extension;
    assert p[|stem|] == '.';
    assert p[|stem| + 1..] == extension;
  }

  /** The last dot decides: a path with several dots yields the final segment only. */
  lemma GetFileExtensionOfDottedPath()
    ensures GetFileExtension(Present("a/b/report.final.pdf")) == Returned("pdf")
  {
    assert "a/b/report.final" + "." + "pdf" == "a/b/report.final.pdf";
    GetFileExtensionRoundTrip("a/b/report.final", "pdf");
  }

  /** A dot is required, and a null path is rejected like a blank one. */
  lemma GetFileExtensionFailures()
    ensures GetFileExtension(Present("noext")) == Threw(IllegalArgumentException)
    ensures GetFileExtension(Null) == Threw(IllegalArgumentException)
  {
    assert GetFileExtension(Present("noext")) == Threw(IllegalArgumentException) by {
      var p := "noext";
      assert p[0] == 'n' && p[1] == 'o' && p[2] == 'e' && p[3] == 'x' && p[4] == 't';
      assert '.' !in p;
    }
  }
}
