/** The blankness check that guards every file-name operation. */
module StringUtils {
  import opened JavaLang

  /**
   * isBlank(text): null, or empty once trimmed. Since trim() strips every
   * character at or below U+0020, a text is blank exactly when it has no
   * character above U+0020. Total: it never throws.
   */
  predicate IsBlank(text: Nullable<string>): (b: bool)
    ensures text.Null? ==> b
    ensures text.Present? ==> (b <==> forall i :: 0 <= i < |text.value| ==> text.value[i] <= ' ')
  {
    text.Null? || Trim(text.value) == []
  }

  /** Padding a text with a space on either side does not change its trimmed form, nor so its blankness. */
  lemma TrimIgnoresSurroundingSpaces(s: string)
    ensures Trim([' '] + s + [' ']) == Trim(s)
    ensures IsBlank(Present([' '] + s + [' '])) == IsBlank(Present(s))
  {
    var padded := [' '] + s + [' '];
    assert padded[1..] == s + [' '];
    assert TrimStart(padded) == TrimStart(s + [' ']);
    if forall i :: 0 <= i < |s| ==> s[i] <= ' ' {
      assert forall i :: 0 <= i < |padded| ==> padded[i] <= ' ';
    } else {
      var k :| 0 <= k < |s| && s[k] > ' ';
      TrimStartAppend(s, [' '], k);
      TrimEndAppendBlank(TrimStart(s), ' ');
    }
  }

  /** A text that begins with a non-blank text is not blank. */
  lemma NonBlankPrefix(s: string, t: string)
    requires !IsBlank(Present(s))
    ensures !IsBlank(Present(s + t))
  {
    var k :| 0 <= k < |s| && s[k] > ' ';
    assert (s + t)[k] == s[k];
  }

  /** The cases the test suite exercises, and a text of spaces only. */
  lemma IsBlankExamples()
    ensures IsBlank(Null)
    ensures IsBlank(Present(""))
    ensures IsBlank(Present("  "))
    ensures !IsBlank(Present("ABCD"))
  {
  }
}
