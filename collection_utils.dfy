/**
 * io.github.cainlara.jalutils.CollectionUtils: splitting a string into
 * one-character strings, positional list equality, and the hash-based
 * order-insensitive list equality. List elements are never null here; the
 * element's equals, toString and hashCode are parameters.
 */
module CollectionUtils {
  import opened JavaLang

  // ---------------------------------------------------------------------------
  // toList
  // ---------------------------------------------------------------------------

  /** The text with every space character removed; every other character, tabs and newlines included, stays in order. */
  function RemoveSpaces(s: string): (r: string)
    ensures ' ' !in r
    ensures forall c :: c != ' ' ==> multiset(r)[c] == multiset(s)[c]
  {
    if s == [] then []
    else
      var init, last := s[..|s| - 1], s[|s| - 1];
      assert s == init + [last];
      RemoveSpaces(init) + (if last == ' ' then [] else [last])
  }

  /** Removing spaces works piece by piece, so the characters it keeps stay in their order. */
  lemma {:induction false} RemoveSpacesAppend(a: string, b: string)
    ensures RemoveSpaces(a + b) == RemoveSpaces(a) + RemoveSpaces(b)
  {
    if b == [] {
      assert a + b == a;
    } else {
      var init := b[..|b| - 1];
      assert (a + b)[..|a + b| - 1] == a + init;
      RemoveSpacesAppend(a, init);
    }
  }

  /** A text without spaces is left exactly as it is. */
  lemma {:induction false} RemoveSpacesKeepsSpaceFreeText(s: string)
    requires ' ' !in s
    ensures RemoveSpaces(s) == s
  {
    if s != [] {
      RemoveSpacesKeepsSpaceFreeText(s[..|s| - 1]);
      assert s == s[..|s| - 1] + [s[|s| - 1]];
    }
  }

  /**
   * toList(str, includeBlanks): null for null; otherwise one single-character
   * string per character of str, in order, skipping the space character
   * when includeBlanks is false.
   */
  method ToList(str: Nullable<string>, includeBlanks: bool) returns (list: Nullable<seq<string>>)
    ensures list.Null? <==> str.Null?
    ensures str.Present? ==>
      var kept := if includeBlanks then str.value else RemoveSpaces(str.value);
      && |list.value| == |kept|
      && forall i :: 0 <= i < |kept| ==> list.value[i] == [kept[i]]
  {
    list := Null;
    if str.Present? {
      var s := str.value;
      var chars: seq<string> := [];
      ghost var kept: string := [];
      for i := 0 to |s|
        invariant kept == if includeBlanks then s[..i] else RemoveSpaces(s[..i])
        invariant |chars| == |kept|
        invariant forall k :: 0 <= k < |kept| ==> chars[k] == [kept[k]]
      {
        var c := s[i];
        assert s[..i + 1] == s[..i] + [c];
        if [c] != " " || ([c] == " " && includeBlanks) {
          chars := chars + [[c]];
          kept := kept + [c];
        }
      }
      assert s[..|s|] == s;
      list := Present(chars);
    }
  }

  /** toList(str): toList(str, true), one single-character string for every character of str. */
  method ToListKeepingBlanks(str: Nullable<string>) returns (list: Nullable<seq<string>>)
    ensures list.Null? <==> str.Null?
    ensures str.Present? ==>
      && |list.value| == |str.value|
      && forall i :: 0 <= i < |str.value| ==> list.value[i] == [str.value[i]]
  {
    list := ToList(str, true);
  }

  // ---------------------------------------------------------------------------
  // sortedListsAreEqual
  // ---------------------------------------------------------------------------

  /** Positional equality: both lists null, or both present with the same length and pairwise equal elements. */
  predicate PositionallyEqual<T>(l1: Nullable<seq<T>>, l2: Nullable<seq<T>>, equals: (T, T) -> bool)
  {
    if l1.Null? || l2.Null? then l1.Null? && l2.Null?
    else |l1.value| == |l2.value| && forall i :: 0 <= i < |l1.value| ==> equals(l1.value[i], l2.value[i])
  }

  /**
   * sortedListsAreEqual(l1, l2): short-circuits on null, on empty and on
   * different sizes, then compares position by position, stopping at the
   * first pair that is not equal.
   */
  method SortedListsAreEqual<T>(l1: Nullable<seq<T>>, l2: Nullable<seq<T>>, equals: (T, T) -> bool)
    returns (equal: bool)
    ensures equal == PositionallyEqual(l1, l2, equals)
  {
    if l1.Null? || l2.Null? {
      return l1.Null? && l2.Null?;
    }
    var a, b := l1.value, l2.value;
    if |a| == 0 || |b| == 0 {
      return |a| == 0 && |b| == 0;
    }
    if |a| != |b| {
      return false;
    }
    for index := 0 to |a|
      invariant forall k :: 0 <= k < index ==> equals(a[k], b[k])
    {
      if !equals(a[index], b[index]) {
        return false;
      }
    }
    return true;
  }

  /** With value equality as equals, positional equality is equality of the two lists. */
  lemma PositionallyEqualIsListEquality<T>(l1: Nullable<seq<T>>, l2: Nullable<seq<T>>, equals: (T, T) -> bool)
    requires forall x, y :: equals(x, y) <==> x == y
    ensures PositionallyEqual(l1, l2, equals) <==> l1 == l2
  {
    if PositionallyEqual(l1, l2, equals) && l1.Present? {
      assert l1.value == l2.value;
    }
  }

  /** Positional equality inherits reflexivity and symmetry from equals. */
  lemma PositionallyEqualReflexiveSymmetric<T>(l1: Nullable<seq<T>>, l2: Nullable<seq<T>>, equals: (T, T) -> bool)
    requires forall x :: equals(x, x)
    requires forall x, y :: equals(x, y) ==> equals(y, x)
    ensures PositionallyEqual(l1, l1, equals)
    ensures PositionallyEqual(l1, l2, equals) ==> PositionallyEqual(l2, l1, equals)
  {
  }

  /** The cases of the test suite, with String.equals. */
  lemma SortedListsAreEqualExamples(equals: (string, string) -> bool)
    requires forall x, y :: equals(x, y) <==> x == y
    ensures PositionallyEqual(Null, Null, equals)
    ensures PositionallyEqual(Present([]), Present([]), equals)
    ensures !PositionallyEqual(Present([]), Null, equals)
    ensures PositionallyEqual(Present(["Larry", "Curly", "Moe"]), Present(["Larry", "Curly", "Moe"]), equals)
    ensures !PositionallyEqual(Present(["Larry", "Curly", "Moe"]), Present(["Car", "Boat", "Plane"]), equals)
  {
    var stooges, vehicles := ["Larry", "Curly", "Moe"], ["Car", "Boat", "Plane"];
    assert stooges[0] != vehicles[0] by { assert stooges[0][0] != vehicles[0][0]; }
    assert !equals(stooges[0], vehicles[0]);
  }

  // ---------------------------------------------------------------------------
  // getHashedValues and listsAreEqual, as written
  // ---------------------------------------------------------------------------

  /**
   * The map getHashedValues fills: each element's string to the element's
   * hash code, where a later element with the same string overwrites an
   * earlier one.
   */
  function HashedValues<T>(l: seq<T>, toString: T -> string, hashCode: T -> Int32): (m: map<string, Int32>)
  {
    if l == [] then map[]
    else HashedValues(l[..|l| - 1], toString, hashCode)[toString(l[|l| - 1]) := hashCode(l[|l| - 1])]
  }

  /** The keys of the map are exactly the strings of the list's elements. */
  lemma {:induction false} HashedValuesKeys<T>(l: seq<T>, toString: T -> string, hashCode: T -> Int32)
    ensures HashedValues(l, toString, hashCode).Keys == set i | 0 <= i < |l| :: toString(l[i])
  {
    if l != [] {
      var init := l[..|l| - 1];
      HashedValuesKeys(init, toString, hashCode);
      assert (set i | 0 <= i < |l| :: toString(l[i]))
          == (set i | 0 <= i < |init| :: toString(init[i])) + {toString(l[|l| - 1])};
    }
  }

  /** The hash stored under a string is that of the last element with that string. */
  lemma {:induction false} HashedValuesLastWins<T>(l: seq<T>, toString: T -> string, hashCode: T -> Int32, i: nat)
    requires i < |l|
    requires forall j :: i < j < |l| ==> toString(l[j]) != toString(l[i])
    ensures toString(l[i]) in HashedValues(l, toString, hashCode)
    ensures HashedValues(l, toString, hashCode)[toString(l[i])] == hashCode(l[i])
  {
    if i < |l| - 1 {
      HashedValuesLastWins(l[..|l| - 1], toString, hashCode, i);
    }
  }

  /** When an element's hash is a function of its string, every stored hash is that function of its key. */
  lemma {:induction false} HashedValuesOfStringHash<T>(l: seq<T>, toString: T -> string, hashCode: T -> Int32, h: string -> Int32)
    requires forall x :: hashCode(x) == h(toString(x))
    ensures forall k :: k in HashedValues(l, toString, hashCode) ==> HashedValues(l, toString, hashCode)[k] == h(k)
  {
    if l != [] {
      HashedValuesOfStringHash(l[..|l| - 1], toString, hashCode, h);
    }
  }

  /** getHashedValues(list): null for null; otherwise the map above, filled by one put per element in list order. */
  method GetHashedValues<T>(list: Nullable<seq<T>>, toString: T -> string, hashCode: T -> Int32)
    returns (hashedValues: Nullable<map<string, Int32>>)
    ensures hashedValues.Null? <==> list.Null?
    ensures list.Present? ==> hashedValues.value == HashedValues(list.value, toString, hashCode)
  {
    hashedValues := Null;
    if list.Present? {
      var l := list.value;
      var m: map<string, Int32> := map[];
      if |l| != 0 {
        for i := 0 to |l|
          invariant m == HashedValues(l[..i], toString, hashCode)
        {
          assert l[..i + 1][..i] == l[..i];
          m := m[toString(l[i]) := hashCode(l[i])];
        }
        assert l[..|l|] == l;
      }
      hashedValues := Present(m);
    }
  }

  /**
   * The test listsAreEqual applies once its short-circuits have passed: the
   * string of every element of l1 is a key of both maps, and the two maps
   * store the same hash under it. (Its being a key of l1's own map always
   * holds, by HashedValuesKeys.)
   */
  predicate HashesAgree<T>(l1: seq<T>, l2: seq<T>, toString: T -> string, hashCode: T -> Int32)
  {
    var h1 := HashedValues(l1, toString, hashCode);
    var h2 := HashedValues(l2, toString, hashCode);
    forall i :: 0 <= i < |l1| ==>
      var k := toString(l1[i]);
      k in h1 && k in h2 && h1[k] == h2[k]
  }

  /**
   * The verdict of listsAreEqual: both null; or both present and both
   * empty; or both present, non-empty, of one size and agreeing on hashes.
   */
  predicate MatchesByHash<T>(l1: Nullable<seq<T>>, l2: Nullable<seq<T>>, toString: T -> string, hashCode: T -> Int32)
  {
    if l1.Null? || l2.Null? then l1.Null? && l2.Null?
    else if |l1.value| == 0 || |l2.value| == 0 then |l1.value| == 0 && |l2.value| == 0
    else |l1.value| == |l2.value| && HashesAgree(l1.value, l2.value, toString, hashCode)
  }

  /**
   * listsAreEqual(l1, l2): the short-circuits of sortedListsAreEqual, then
   * both hash maps, then a walk over l1 that stops at the first string that
   * is missing from l2's map or stored there with another hash.
   */
  method ListsAreEqual<T>(l1: Nullable<seq<T>>, l2: Nullable<seq<T>>, toString: T -> string, hashCode: T -> Int32)
    returns (equal: bool)
    ensures equal == MatchesByHash(l1, l2, toString, hashCode)
  {
    if l1.Null? || l2.Null? {
      return l1.Null? && l2.Null?;
    }
    var a, b := l1.value, l2.value;
    if |a| == 0 || |b| == 0 {
      return |a| == 0 && |b| == 0;
    }
    if |a| != |b| {
      return false;
    }
    var l1Hashed := GetHashedValues(l1, toString, hashCode);
    var l2Hashed := GetHashedValues(l2, toString, hashCode);
    var h1, h2 := l1Hashed.value, l2Hashed.value;
    HashedValuesKeys(a, toString, hashCode);
    for i := 0 to |a|
      invariant forall k :: 0 <= k < i ==>
        toString(a[k]) in h1 && toString(a[k]) in h2 && h1[toString(a[k])] == h2[toString(a[k])]
    {
      var o1Str := toString(a[i]);
      var o1Hash := h1[o1Str];
      if o1Str in h2 {
        var o2Hash := h2[o1Str];
        if o1Hash != o2Hash {
          return false;
        }
      } else {
        return false;
      }
    }
    return true;
  }

  /** A true verdict means equal sizes and that every string of l1 is the string of some element of l2. */
  lemma MatchesByHashCoversStrings<T>(l1: seq<T>, l2: seq<T>, toString: T -> string, hashCode: T -> Int32)
    requires MatchesByHash(Present(l1), Present(l2), toString, hashCode)
    ensures |l1| == |l2|
    ensures forall i :: 0 <= i < |l1| ==> exists j :: 0 <= j < |l2| && toString(l2[j]) == toString(l1[i])
  {
    HashedValuesKeys(l2, toString, hashCode);
    forall i | 0 <= i < |l1|
      ensures exists j :: 0 <= j < |l2| && toString(l2[j]) == toString(l1[i])
    {
      assert toString(l1[i]) in HashedValues(l2, toString, hashCode);
    }
  }

  /**
   * When the hash is a function of the string, as for String, every
   * permutation of a list compares equal to it.
   */
  lemma PermutationsMatchByHash<T>(l1: seq<T>, l2: seq<T>, toString: T -> string, hashCode: T -> Int32, h: string -> Int32)
    requires forall x :: hashCode(x) == h(toString(x))
    requires multiset(l1) == multiset(l2)
    ensures MatchesByHash(Present(l1), Present(l2), toString, hashCode)
  {
    assert |l1| == |multiset(l1)| == |multiset(l2)| == |l2|;
    var h1 := HashedValues(l1, toString, hashCode);
    var h2 := HashedValues(l2, toString, hashCode);
    HashedValuesKeys(l1, toString, hashCode);
    HashedValuesKeys(l2, toString, hashCode);
    HashedValuesOfStringHash(l1, toString, hashCode, h);
    HashedValuesOfStringHash(l2, toString, hashCode, h);
    forall i | 0 <= i < |l1|
      ensures toString(l1[i]) in h2
    {
      assert l1[i] in multiset(l2);
      var j :| 0 <= j < |l2| && l2[j] == l1[i];
    }
  }

  /** The cases of the test suite, with String's toString and a hash that is a function of the string. */
  lemma ListsAreEqualExamples(h: string -> Int32)
    ensures MatchesByHash(Present(["Larry", "Curly", "Moe"]), Present(["Moe", "Larry", "Curly"]), s => s, h)
    ensures !MatchesByHash(Present(["Larry", "Curly", "Moe"]), Present(["Moe", "Larry", "Curly", "Larry"]), s => s, h)
  {
  }

  /**
   * listsAreEqual does not match elements one to one: [A, A, B] compares
   * equal to [A, B, C] although the two hold different elements, and the
   * relation is not symmetric. This holds whatever String's hash is.
   */
  lemma DuplicatesHideMissingElement(h: string -> Int32)
    ensures multiset(["A", "A", "B"]) != multiset(["A", "B", "C"])
    ensures MatchesByHash(Present(["A", "A", "B"]), Present(["A", "B", "C"]), s => s, h)
    ensures !MatchesByHash(Present(["A", "B", "C"]), Present(["A", "A", "B"]), s => s, h)
  {
    var l1, l2 := ["A", "A", "B"], ["A", "B", "C"];
    var id := (s: string) => s;
    assert "A" != "B" && "B" != "C" && "A" != "C";
    assert multiset(l2)["C"] == 1 && multiset(l1)["C"] == 0;
    HashedValuesKeys(l1, id, h);
    HashedValuesKeys(l2, id, h);
    HashedValuesOfStringHash(l1, id, h, h);
    HashedValuesOfStringHash(l2, id, h, h);
    assert "C" !in HashedValues(l1, id, h) by {
      assert forall i :: 0 <= i < |l1| ==> l1[i] != "C";
    }
    assert l2[2] == "C";
  }

  /**
   * listsAreEqual can also reject a permutation: two elements with one
   * string and different hash codes leave, in each map, the hash of the one
   * that comes last.
   */
  lemma SharedStringRejectsPermutation()
    ensures multiset([("s", 1 as Int32), ("s", 2)]) == multiset([("s", 2 as Int32), ("s", 1)])
    ensures !MatchesByHash(Present([("s", 1 as Int32), ("s", 2)]), Present([("s", 2 as Int32), ("s", 1)]),
                           (p: (string, Int32)) => p.0, (p: (string, Int32)) => p.1)
  {
  }

  // ---------------------------------------------------------------------------
  // listsAreEqual as its documentation describes it
  // ---------------------------------------------------------------------------

  /** The (string, hash code) pair each element is matched by. */
  function KeysOf<T>(l: seq<T>, toString: T -> string, hashCode: T -> Int32): (keys: seq<(string, Int32)>)
  {
    seq(|l|, i requires 0 <= i < |l| => (toString(l[i]), hashCode(l[i])))
  }

  /** Both null, or both present with every (string, hash code) pair occurring equally often in each. */
  predicate SameOccurrences<T>(l1: Nullable<seq<T>>, l2: Nullable<seq<T>>, toString: T -> string, hashCode: T -> Int32)
  {
    if l1.Null? || l2.Null? then l1.Null? && l2.Null?
    else multiset(KeysOf(l1.value, toString, hashCode)) == multiset(KeysOf(l2.value, toString, hashCode))
  }

  /** Counts how often each (string, hash code) pair occurs: the keys are the pairs present, the values their counts. */
  method CountOccurrences<T>(l: seq<T>, toString: T -> string, hashCode: T -> Int32)
    returns (counts: map<(string, Int32), nat>)
    ensures forall k :: k in counts <==> k in multiset(KeysOf(l, toString, hashCode))
    ensures forall k :: k in counts ==> counts[k] == multiset(KeysOf(l, toString, hashCode))[k]
  {
    counts := map[];
    ghost var keys := KeysOf(l, toString, hashCode);
    for i := 0 to |l|
      invariant forall k :: k in counts <==> k in multiset(keys[..i])
      invariant forall k :: k in counts ==> counts[k] == multiset(keys[..i])[k]
    {
      var key := (toString(l[i]), hashCode(l[i]));
      assert keys[..i + 1] == keys[..i] + [key];
      if key in counts {
        counts := counts[key := counts[key] + 1];
      } else {
        counts := counts[key := 1];
      }
    }
    assert keys[..|l|] == keys;
  }

  /** Two count maps of that shape are equal exactly when the multisets they count are. */
  lemma CountsEqualIffMultisetsEqual<K>(c1: map<K, nat>, c2: map<K, nat>, m1: multiset<K>, m2: multiset<K>)
    requires forall k :: k in c1 <==> k in m1
    requires forall k :: k in c1 ==> c1[k] == m1[k]
    requires forall k :: k in c2 <==> k in m2
    requires forall k :: k in c2 ==> c2[k] == m2[k]
    ensures c1 == c2 <==> m1 == m2
  {
  }

  /**
   * The order-insensitive comparison the documentation promises: the same
   * short-circuits, then equal occurrence counts of (string, hash code)
   * pairs, so that each element has one and only one counterpart.
   */
  method ListsAreEqualCounted<T>(l1: Nullable<seq<T>>, l2: Nullable<seq<T>>, toString: T -> string, hashCode: T -> Int32)
    returns (equal: bool)
    ensures equal == SameOccurrences(l1, l2, toString, hashCode)
  {
    if l1.Null? || l2.Null? {
      return l1.Null? && l2.Null?;
    }
    var a, b := l1.value, l2.value;
    ghost var m1 := multiset(KeysOf(a, toString, hashCode));
    ghost var m2 := multiset(KeysOf(b, toString, hashCode));
    assert |m1| == |a| && |m2| == |b|;
    if |a| == 0 || |b| == 0 {
      return |a| == 0 && |b| == 0;
    }
    if |a| != |b| {
      return false;
    }
    var counts1 := CountOccurrences(a, toString, hashCode);
    var counts2 := CountOccurrences(b, toString, hashCode);
    CountsEqualIffMultisetsEqual(counts1, counts2, m1, m2);
    return counts1 == counts2;
  }

  /** Taking one element out of a sequence takes one occurrence out of its multiset. */
  lemma MultisetWithout<U>(s: seq<U>, j: nat)
    requires j < |s|
    ensures multiset(s) == multiset(s[..j] + s[j + 1..]) + multiset{s[j]}
  {
    assert s == s[..j] + [s[j]] + s[j + 1..];
  }

  /** One occurrence of the same element can be cancelled from both sides. */
  lemma MultisetCancel<U>(a: multiset<U>, b: multiset<U>, x: U)
    requires a + multiset{x} == b + multiset{x}
    ensures a == b
  {
    assert a == (a + multiset{x}) - multiset{x};
  }

  /** Taking one element out of a list takes its pair out of the multiset of pairs. */
  lemma KeysOfWithout<T>(l: seq<T>, j: nat, toString: T -> string, hashCode: T -> Int32)
    requires j < |l|
    ensures multiset(KeysOf(l, toString, hashCode))
         == multiset(KeysOf(l[..j] + l[j + 1..], toString, hashCode)) + multiset{(toString(l[j]), hashCode(l[j]))}
  {
    var keys := KeysOf(l, toString, hashCode);
    assert KeysOf(l[..j] + l[j + 1..], toString, hashCode) == keys[..j] + keys[j + 1..];
    MultisetWithout(keys, j);
  }

  /** Matching the first element of l1 with an equal element of l2 reduces the claim to the rest of both. */
  lemma KeysOfMatchFirst<T>(l1: seq<T>, l2: seq<T>, j: nat, toString: T -> string, hashCode: T -> Int32)
    requires l1 != [] && j < |l2| && l2[j] == l1[0]
    requires multiset(KeysOf(l1[1..], toString, hashCode)) == multiset(KeysOf(l2[..j] + l2[j + 1..], toString, hashCode))
    ensures multiset(KeysOf(l1, toString, hashCode)) == multiset(KeysOf(l2, toString, hashCode))
  {
    KeysOfWithout(l1, 0, toString, hashCode);
    KeysOfWithout(l2, j, toString, hashCode);
    assert l1[..0] + l1[1..] == l1[1..];
  }

  /** Counting ignores order: permuting a list permutes its pairs. */
  lemma {:induction false} KeysOfPermutation<T>(l1: seq<T>, l2: seq<T>, toString: T -> string, hashCode: T -> Int32)
    requires multiset(l1) == multiset(l2)
    ensures multiset(KeysOf(l1, toString, hashCode)) == multiset(KeysOf(l2, toString, hashCode))
    decreases |l1|
  {
    if l1 != [] {
      var x := l1[0];
      assert x in multiset(l2);
      var j :| 0 <= j < |l2| && l2[j] == x;
      var rest1, rest2 := l1[1..], l2[..j] + l2[j + 1..];
      MultisetWithout(l1, 0);
      MultisetWithout(l2, j);
      assert l1[..0] + l1[1..] == rest1;
      MultisetCancel(multiset(rest1), multiset(rest2), x);
      KeysOfPermutation(rest1, rest2, toString, hashCode);
      KeysOfMatchFirst(l1, l2, j, toString, hashCode);
    }
  }

  /** The corrected comparison accepts every permutation, whatever toString and hashCode are. */
  lemma PermutationsHaveSameOccurrences<T>(l1: seq<T>, l2: seq<T>, toString: T -> string, hashCode: T -> Int32)
    requires multiset(l1) == multiset(l2)
    ensures SameOccurrences(Present(l1), Present(l2), toString, hashCode)
  {
    KeysOfPermutation(l1, l2, toString, hashCode);
  }

  /** The corrected comparison is symmetric and reflexive, whatever toString and hashCode are. */
  lemma SameOccurrencesSymmetric<T>(l1: Nullable<seq<T>>, l2: Nullable<seq<T>>, toString: T -> string, hashCode: T -> Int32)
    ensures SameOccurrences(l1, l1, toString, hashCode)
    ensures SameOccurrences(l1, l2, toString, hashCode) <==> SameOccurrences(l2, l1, toString, hashCode)
  {
  }

  /** When the hash is a function of the string, a match under the corrected comparison is one under the written test. */
  lemma SameOccurrencesSound<T>(l1: seq<T>, l2: seq<T>, toString: T -> string, hashCode: T -> Int32, h: string -> Int32)
    requires forall x :: hashCode(x) == h(toString(x))
    requires SameOccurrences(Present(l1), Present(l2), toString, hashCode)
    ensures MatchesByHash(Present(l1), Present(l2), toString, hashCode)
  {
    var k1, k2 := KeysOf(l1, toString, hashCode), KeysOf(l2, toString, hashCode);
    assert |l1| == |k1| == |multiset(k1)| == |multiset(k2)| == |k2| == |l2|;
    var h2 := HashedValues(l2, toString, hashCode);
    HashedValuesKeys(l1, toString, hashCode);
    HashedValuesKeys(l2, toString, hashCode);
    HashedValuesOfStringHash(l1, toString, hashCode, h);
    HashedValuesOfStringHash(l2, toString, hashCode, h);
    forall i | 0 <= i < |l1|
      ensures toString(l1[i]) in h2
    {
      assert k1[i] in multiset(k2);
      var j :| 0 <= j < |k2| && k2[j] == k1[i];
      assert toString(l2[j]) == toString(l1[i]);
    }
  }

  /** The corrected comparison tells apart the lists the written one confuses. */
  lemma CountedComparisonExamples(h: string -> Int32)
    ensures !SameOccurrences(Present(["A", "A", "B"]), Present(["A", "B", "C"]), s => s, h)
    ensures SameOccurrences(Present([("s", 1 as Int32), ("s", 2)]), Present([("s", 2 as Int32), ("s", 1)]),
                            (p: (string, Int32)) => p.0, (p: (string, Int32)) => p.1)
  {
    var id := (s: string) => s;
    var k1 := KeysOf(["A", "A", "B"], id, h);
    var k2 := KeysOf(["A", "B", "C"], id, h);
    assert k2[2] == ("C", h("C"));
    assert "A" != "C" && "B" != "C";
    assert forall i :: 0 <= i < |k1| ==> k1[i] != ("C", h("C"));
    assert ("C", h("C")) !in multiset(k1);
    var l1: seq<(string, Int32)> := [("s", 1), ("s", 2)];
    var l2: seq<(string, Int32)> := [("s", 2), ("s", 1)];
    assert l2 == [l1[1], l1[0]];
    assert multiset(l1) == multiset(l2);
    PermutationsHaveSameOccurrences(l1, l2, (p: (string, Int32)) => p.0, (p: (string, Int32)) => p.1);
  }
}
