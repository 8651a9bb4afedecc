/**
 * The parts of the Java language and of java.lang.String that the utilities
 * rely on: null references, the unchecked exceptions they throw, the 32-bit
 * int of hashCode(), and the String queries startsWith, endsWith,
 * lastIndexOf and trim.
 */
module JavaLang {

  /** A Java reference that may be null. */
  datatype Nullable<+T> = Null | Present(value: T)

  /** The unchecked exceptions the modelled operations can raise. */
  datatype Exception = IllegalArgumentException | NullPointerException

  /** The outcome of a Java call: the value it returned or the exception it threw. */
  datatype Result<+T> = Returned(value: T) | Threw(exception: Exception)

  /** Java's 32-bit int, the type of Object.hashCode(). */
  newtype Int32 = x: int | -0x8000_0000 <= x < 0x8000_0000

  /** String.startsWith(prefix): s is prefix followed by the rest of s. */
  predicate StartsWith(s: string, prefix: string): (b: bool)
    ensures b <==> |prefix| <= |s| && s == prefix + s[|prefix|..]
  {
    prefix <= s
  }

  /** String.endsWith(suffix): s is the rest of s followed by suffix; the empty suffix ends every string. */
  predicate EndsWith(s: string, suffix: string): (b: bool)
    ensures b <==> |suffix| <= |s| && s == s[..|s| - |suffix|] + suffix
  {
    |suffix| <= |s| && s[|s| - |suffix|..] == suffix
  }

  /** String.lastIndexOf(c): the index of the last occurrence of c in s, or -1 when there is none. */
  function LastIndexOf(s: string, c: char): (i: int)
    ensures -1 <= i < |s|
    ensures i == -1 <==> c !in s
    ensures 0 <= i ==> s[i] == c && c !in s[i + 1..]
  {
    if s == [] then -1
    else if s[|s| - 1] == c then |s| - 1
    else
      var i := LastIndexOf(s[..|s| - 1], c);
      assert s == s[..|s| - 1] + [s[|s| - 1]];
      assert 0 <= i ==> s[i + 1..] == s[..|s| - 1][i + 1..] + [s[|s| - 1]];
      i
  }

  /**
   * s.substring(s.lastIndexOf(c) + 1) for an s that holds c: the text after
   * the last c, which holds no c and is preceded in s by a c.
   */
  function SubstringAfterLast(s: string, c: char): (r: string)
    requires c in s
    ensures c !in r
    ensures |r| < |s| && s == s[..|s| - |r| - 1] + [c] + r
  {
    var last := LastIndexOf(s, c);
    var r := s[last + 1..];
    assert s[last..] == [s[last]] + r;
    assert s == s[..last] + s[last..];
    r
  }

  /** How many leading characters are at or below U+0020: the index where String.trim() starts its result. */
  function LeadingBlanks(s: string): (n: nat)
    ensures n <= |s|
    ensures forall i :: 0 <= i < n ==> s[i] <= ' '
    ensures n < |s| ==> s[n] > ' '
  {
    if s != [] && s[0] <= ' ' then
      var n := 1 + LeadingBlanks(s[1..]);
      assert forall i :: 1 <= i < n ==> s[i] == s[1..][i - 1];
      n
    else 0
  }

  /** How many trailing characters are at or below U+0020: how far String.trim() pulls back its end. */
  function TrailingBlanks(s: string): (n: nat)
    ensures n <= |s|
    ensures forall i :: |s| - n <= i < |s| ==> s[i] <= ' '
    ensures n < |s| ==> s[|s| - n - 1] > ' '
  {
    if s != [] && s[|s| - 1] <= ' ' then 1 + TrailingBlanks(s[..|s| - 1]) else 0
  }

  /** The leading half of String.trim(): drops every leading character at or below U+0020. */
  function TrimStart(s: string): (r: string)
    ensures |r| <= |s| && r == s[|s| - |r|..]
    ensures forall i :: 0 <= i < |s| - |r| ==> s[i] <= ' '
    ensures r != [] ==> r[0] > ' '
  {
    s[LeadingBlanks(s)..]
  }

  /** The trailing half of String.trim(): drops every trailing character at or below U+0020. */
  function TrimEnd(s: string): (r: string)
    ensures |r| <= |s| && r == s[..|r|]
    ensures forall i :: |r| <= i < |s| ==> s[i] <= ' '
    ensures r != [] ==> r[|r| - 1] > ' '
  {
    s[..|s| - TrailingBlanks(s)]
  }

  /**
   * String.trim(): the slice of s that starts after its leading characters
   * at or below U+0020 and ends before its trailing ones. Everything around
   * the slice is at or below U+0020, so the result is empty exactly when
   * every character is.
   */
  function Trim(s: string): (r: string)
    ensures |r| <= |s|
    ensures var a := LeadingBlanks(s);
      && a + |r| <= |s|
      && r == s[a..a + |r|]
      && (forall i :: 0 <= i < a ==> s[i] <= ' ')
      && (forall i :: a + |r| <= i < |s| ==> s[i] <= ' ')
    ensures r == [] <==> forall i :: 0 <= i < |s| ==> s[i] <= ' '
    ensures r != [] ==> r[0] > ' ' && r[|r| - 1] > ' '
  {
    var t := TrimStart(s);
    var r := TrimEnd(t);
    TrimmedSlice(s, LeadingBlanks(s), t, r);
    assert r != [] ==> r[0] == t[0];
    r
  }

  /**
   * A piece r cut from the front of the suffix t of s that starts at a is
   * the slice of s that starts at a, and what t has after r is what s has
   * after that slice.
   */
  lemma TrimmedSlice(s: string, a: nat, t: string, r: string)
    requires a <= |s| && t == s[a..]
    requires |r| <= |t| && r == t[..|r|]
    requires forall i :: |r| <= i < |t| ==> t[i] <= ' '
    ensures a + |r| <= |s| && r == s[a..a + |r|]
    ensures forall i :: a + |r| <= i < |s| ==> s[i] <= ' '
  {
  }

  /** A text with a character above U+0020 keeps its leading run when anything is appended. */
  lemma LeadingBlanksAppend(s: string, t: string, k: nat)
    requires k < |s| && s[k] > ' '
    ensures LeadingBlanks(s + t) == LeadingBlanks(s)
  {
    var n := LeadingBlanks(s);
    assert n < |s|;
    assert (s + t)[n] == s[n];
  }

  /** Trimming a text that has a visible character commutes with appending to it. */
  lemma TrimStartAppend(s: string, t: string, k: nat)
    requires k < |s| && s[k] > ' '
    ensures TrimStart(s + t) == TrimStart(s) + t
  {
    LeadingBlanksAppend(s, t, k);
    assert (s + t)[LeadingBlanks(s)..] == s[LeadingBlanks(s)..] + t;
  }

  /** Appending a character at or below U+0020 does not change what trimming the end leaves. */
  lemma TrimEndAppendBlank(s: string, c: char)
    requires c <= ' '
    ensures TrimEnd(s + [c]) == TrimEnd(s)
  {
  }
}
