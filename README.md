# jal-utils string and list helpers in Dafny

A model of the pure helpers of the jal-utils Java library.

- `StringUtils.isBlank` (package `com.jalutils`): the blankness check.
- `CollectionUtils` (package `io.github.cainlara.jalutils`):
  - `toList`, which splits a string into one-character strings;
  - `sortedListsAreEqual`, positional list equality;
  - `listsAreEqual` with its helper `getHashedValues`, the hash-based, order-insensitive list equality.
- `addExtension` and `getFileExtension(String)`, both in `FileUtils` (package `io.github.cainlara.jalutils`) and in the older `FileManager` (package `com.jalutils`).

Modules, one per source class plus one for the Java runtime:

- `JavaLang` (`java_lang.dfy`) holds the Java facts the helpers rely on:
  - null references, as `Nullable<T>`;
  - the thrown `IllegalArgumentException` and `NullPointerException`, as `Result<T>`;
  - the 32-bit `int` returned by `hashCode()`, as `Int32`;
  - the `String` operations `startsWith`, `endsWith`, `lastIndexOf` and `trim()`.
- `StringUtils` (`string_utils.dfy`): `isBlank`, a pure predicate.
- `FileUtils` (`file_utils.dfy`) and `FileManager` (`file_manager.dfy`) are pure functions. Each returns either the value the Java method returns or the exception it throws. Null arguments are handled as Java handles them, not excluded by preconditions.
- `CollectionUtils` (`collection_utils.dfy`) keeps the source's imperative form:
  - each Java method is a Dafny method with the same loop, early returns and short-circuits;
  - each method is proved against a specification function (`PositionallyEqual`, `HashedValues`, `MatchesByHash`, `RemoveSpaces`);
  - lemmas about those functions state what the source promises.

Element operations are parameters of the list methods: `equals: (T, T) -> bool`, `toString: T -> string` and `hashCode: T -> Int32`. Nothing is assumed about them unless a lemma's precondition says so.

`FileUtils` calls a `StringUtils` class in its own package. That class is not part of this model. Its `isBlank` is taken to be the one in `com/jalutils/StringUtils.java`.

`FileManager` guards with `StringUtils.isValid`, which is not part of this model either. It is the parameter `isValid: Nullable<string> -> bool`. If `isValid` accepts null, the next dereference throws `NullPointerException`, as it would in Java.

## Model

| member | source | states |
|---|---|---|
| `JavaLang.LastIndexOf` | src/main/java/io/github/cainlara/jalutils/FileUtils.java:254 | returns -1 exactly when the character is absent; otherwise it returns an index holding the character, with no occurrence after it |
| `JavaLang.SubstringAfterLast` | src/main/java/io/github/cainlara/jalutils/FileUtils.java:254 | the text after the last occurrence contains no occurrence, and the string is (text before it) + the character + that text |
| `JavaLang.StartsWith` | src/main/java/io/github/cainlara/jalutils/FileUtils.java:58 | `startsWith(prefix)` holds exactly when the text is the prefix followed by the rest of the text |
| `JavaLang.EndsWith` | src/main/java/com/jalutils/FileManager.java:98 | `endsWith(suffix)` holds exactly when the text is its own beginning followed by the suffix; the empty suffix ends every text. FileUtils.java:64 makes the same call |
| `JavaLang.LeadingBlanks` | src/main/java/com/jalutils/StringUtils.java:47 | where `trim()` starts its result: every character before that index is at or below U+0020, and the character at it, if any, is above U+0020 |
| `JavaLang.TrailingBlanks` | src/main/java/com/jalutils/StringUtils.java:47 | how far `trim()` pulls back its end: every character in that trailing run is at or below U+0020, and the character just before it, if any, is above U+0020 |
| `JavaLang.TrimStart` | src/main/java/com/jalutils/StringUtils.java:47 | the leading half of `trim()`: the result is a suffix of the text, every dropped character is at or below U+0020, and a non-empty result begins with a character above U+0020 |
| `JavaLang.TrimEnd` | src/main/java/com/jalutils/StringUtils.java:47 | the trailing half of `trim()`: the result is a prefix of the text, every dropped character is at or below U+0020, and a non-empty result ends with a character above U+0020 |
| `JavaLang.Trim` | src/main/java/com/jalutils/StringUtils.java:47 | `trim()` returns the contiguous middle piece of the text. Everything before it and everything after it is at or below U+0020, and a non-empty result begins and ends with a character above U+0020. So it is empty exactly when every character is at or below U+0020 |
| `StringUtils.IsBlank` | src/main/java/com/jalutils/StringUtils.java:46-48 | null is blank; a non-null text is blank exactly when every character is at or below U+0020; total, never throws |
| `StringUtils.TrimIgnoresSurroundingSpaces` | src/main/java/com/jalutils/StringUtils.java:47 | a space on each side changes neither the trimmed text nor its blankness |
| `StringUtils.NonBlankPrefix` | src/main/java/com/jalutils/StringUtils.java:47 | a text that starts with a non-blank text is not blank |
| `StringUtils.IsBlankExamples` | src/test/java/io/github/cainlara/jalutils/StringUtilsTest.java:10-18 | null, `""` and `"  "` are blank; `"ABCD"` is not |
| `FileUtils.NormalizeExtension` | src/main/java/io/github/cainlara/jalutils/FileUtils.java:55-62 | the result starts with a dot; it is the extension itself exactly when the extension already started with a dot, and `"." + extension` otherwise |
| `FileUtils.NormalizeExtensionIdempotent` | src/main/java/io/github/cainlara/jalutils/FileUtils.java:58-62 | normalising twice equals normalising once |
| `FileUtils.AddExtension` | src/main/java/io/github/cainlara/jalutils/FileUtils.java:50-69 | `IllegalArgumentException` exactly for a blank name; then `NullPointerException` exactly for a null extension. Otherwise the result has the name as prefix and ends with the dotted extension. It equals the name exactly when the name already ended with it, and is longer by the dotted extension otherwise |
| `FileUtils.AddExtensionIdempotent` | src/main/java/io/github/cainlara/jalutils/FileUtils.java:55-68 | applying addExtension to its own result with the same extension returns that result unchanged |
| `FileUtils.AddExtensionAppendsDottedExtension` | src/test/java/io/github/cainlara/jalutils/FileUtilsTest.java:9-15 | `addExtension("GenericName", "docx") == "GenericName.docx"` |
| `FileUtils.AddExtensionKeepsPresentExtension` | src/main/java/io/github/cainlara/jalutils/FileUtils.java:64-66 | `"GenericName.docx"` with `"docx"` is returned as it is |
| `FileUtils.AddExtensionKeepsLeadingDot` | src/main/java/io/github/cainlara/jalutils/FileUtils.java:58-59 | `"a"` with `".txt"` becomes `"a.txt"`, with no second dot |
| `FileUtils.AddExtensionFailures` | src/main/java/io/github/cainlara/jalutils/FileUtils.java:51-58 | a blank name throws `IllegalArgumentException`; a null extension throws `NullPointerException` |
| `FileUtils.GetFileExtension` | src/main/java/io/github/cainlara/jalutils/FileUtils.java:242-257 | returns a value exactly when the path is not blank and contains a dot, and throws only `IllegalArgumentException`. The result has no dot, and the path is (text before the last dot) + `"."` + result |
| `FileUtils.GetFileExtensionRoundTrip` | src/main/java/io/github/cainlara/jalutils/FileUtils.java:249-256 | `getFileExtension(stem + "." + ext) == ext` for every dot-free `ext` and every stem |
| `FileUtils.GetFileExtensionOfDottedPath` | src/main/java/io/github/cainlara/jalutils/FileUtils.java:254 | `getFileExtension("a/b/report.final.pdf") == "pdf"` |
| `FileUtils.GetFileExtensionFailures` | src/main/java/io/github/cainlara/jalutils/FileUtils.java:245-252 | `"noext"` and null both throw `IllegalArgumentException` |
| `FileManager.AddExtension` | src/main/java/com/jalutils/FileManager.java:91-103 | `IllegalArgumentException` exactly when `isValid` refuses the name; then `NullPointerException` for a null name or extension. Otherwise the extension is used verbatim: the result has the name as prefix and ends with the extension. It equals the name exactly when the name already ended with it, and is longer by the extension otherwise |
| `FileManager.AddExtensionIdempotent` | src/main/java/com/jalutils/FileManager.java:96-102 | a second call with the same extension returns the first result unchanged, if `isValid` accepts that result |
| `FileManager.AddExtensionAgreesWithFileUtils` | src/main/java/com/jalutils/FileManager.java:96-102 | with blankness as `isValid`, FileManager's addExtension given the dotted extension equals FileUtils' addExtension on every input |
| `FileManager.AddExtensionAddsNoDot` | src/main/java/com/jalutils/FileManager.java:98-100 | `addExtension("GenericName", "docx") == "GenericNamedocx"` when `isValid` accepts the name |
| `FileManager.GetFileExtension` | src/main/java/com/jalutils/FileManager.java:215-229 | returns a value exactly when `isValid` accepts a non-null path that contains a dot; `NullPointerException` exactly when `isValid` accepts null. The result has no dot, and the path is (text before the last dot) + `"."` + result |
| `FileManager.GetFileExtensionAgreesWithFileUtils` | src/main/java/com/jalutils/FileManager.java:218-228 | with blankness as `isValid`, both getFileExtension operations agree on every path, null included |
| `CollectionUtils.RemoveSpaces` | src/main/java/io/github/cainlara/jalutils/CollectionUtils.java:68-72 | the result has no space; every other character occurs in it as often as in the input |
| `CollectionUtils.RemoveSpacesAppend` | src/main/java/io/github/cainlara/jalutils/CollectionUtils.java:68-72 | removing spaces distributes over concatenation, so the kept characters stay in order |
| `CollectionUtils.RemoveSpacesKeepsSpaceFreeText` | src/main/java/io/github/cainlara/jalutils/CollectionUtils.java:69 | a text without the space character, e.g. one with only tabs and newlines, is kept whole |
| `CollectionUtils.ToList` | src/main/java/io/github/cainlara/jalutils/CollectionUtils.java:62-76 | null exactly for null. With includeBlanks, element i is the one-character string of the i-th character and the length is the input's. Without it, the same holds for the text with its spaces removed |
| `CollectionUtils.ToListKeepingBlanks` | src/main/java/io/github/cainlara/jalutils/CollectionUtils.java:42-44 | the one-argument `toList` gives the result of `toList(str, true)`: null for null, otherwise one one-character string per character, in order |
| `CollectionUtils.SortedListsAreEqual` | src/main/java/io/github/cainlara/jalutils/CollectionUtils.java:102-125 | true exactly when both lists are null, or both are non-null with equal length and `equals` holding at every position |
| `CollectionUtils.PositionallyEqualIsListEquality` | src/main/java/io/github/cainlara/jalutils/CollectionUtils.java:115-124 | with value equality as `equals`, the verdict is true exactly when the two lists are equal |
| `CollectionUtils.PositionallyEqualReflexiveSymmetric` | src/main/java/io/github/cainlara/jalutils/CollectionUtils.java:102-124 | reflexive, and symmetric, whenever `equals` is |
| `CollectionUtils.SortedListsAreEqualExamples` | src/test/java/io/github/cainlara/jalutils/CollectionUtilsTest.java:14-44 | null/null and empty/empty are equal; empty/null is not; equal stooge lists are equal; stooges and vehicles are not |
| `CollectionUtils.GetHashedValues` | src/main/java/io/github/cainlara/jalutils/CollectionUtils.java:185-199 | null exactly for null; otherwise the map of one `put(toString, hashCode)` per element in list order |
| `CollectionUtils.HashedValuesKeys` | src/main/java/io/github/cainlara/jalutils/CollectionUtils.java:192-194 | the key set is exactly the set of the elements' strings |
| `CollectionUtils.HashedValuesLastWins` | src/main/java/io/github/cainlara/jalutils/CollectionUtils.java:192-194 | the hash stored under a string is the hash of the last element with that string |
| `CollectionUtils.HashedValuesOfStringHash` | src/main/java/io/github/cainlara/jalutils/CollectionUtils.java:192-194 | when the hash is a function h of the string, every stored value is h of its key |
| `CollectionUtils.ListsAreEqual` | src/main/java/io/github/cainlara/jalutils/CollectionUtils.java:151-183 | the verdict is `MatchesByHash`. It short-circuits like sortedListsAreEqual on null, on empty and on different sizes (false). Otherwise every string of l1 must be a key of l2's map with the same stored hash |
| `CollectionUtils.MatchesByHashCoversStrings` | src/main/java/io/github/cainlara/jalutils/CollectionUtils.java:164-182 | a true verdict implies equal sizes and that every l1 element's string is the string of some l2 element |
| `CollectionUtils.PermutationsMatchByHash` | src/main/java/io/github/cainlara/jalutils/CollectionUtils.java:164-182 | when the hash is a function of the string, as for `String`, every permutation of a list compares equal to it |
| `CollectionUtils.ListsAreEqualExamples` | src/test/java/io/github/cainlara/jalutils/CollectionUtilsTest.java:46-60 | the permuted stooges compare equal; a four-element list does not |
| `CollectionUtils.DuplicatesHideMissingElement` | src/main/java/io/github/cainlara/jalutils/CollectionUtils.java:164-182 | `[A, A, B]` compares equal to `[A, B, C]` although the multisets differ, and not the other way round, for any string hash |
| `CollectionUtils.SharedStringRejectsPermutation` | src/main/java/io/github/cainlara/jalutils/CollectionUtils.java:185-199 | two elements with one string and hashes 1 and 2, listed in opposite orders, compare unequal although one list is a permutation of the other |
| `CollectionUtils.CountOccurrences` | src/main/java/io/github/cainlara/jalutils/CollectionUtils.java:140-142 | the count map's keys are the (string, hash) pairs present, and each value is that pair's number of occurrences |
| `CollectionUtils.ListsAreEqualCounted` | src/main/java/io/github/cainlara/jalutils/CollectionUtils.java:127-150 | corrected comparison: both null, or both non-null with every (string, hash) pair occurring equally often in each |
| `CollectionUtils.PermutationsHaveSameOccurrences` | src/main/java/io/github/cainlara/jalutils/CollectionUtils.java:140-142 | the corrected comparison accepts every permutation, for any `toString` and `hashCode` |
| `CollectionUtils.SameOccurrencesSymmetric` | src/main/java/io/github/cainlara/jalutils/CollectionUtils.java:140-142 | the corrected comparison is reflexive and symmetric for every `toString` and `hashCode`, including elements that share a string but not a hash |
| `CollectionUtils.SameOccurrencesSound` | src/main/java/io/github/cainlara/jalutils/CollectionUtils.java:140-142 | when the hash is a function of the string, a match under the corrected comparison is also a match under the written test |
| `CollectionUtils.CountedComparisonExamples` | src/main/java/io/github/cainlara/jalutils/CollectionUtils.java:140-142 | the corrected comparison rejects `[A, A, B]` against `[A, B, C]` and accepts the shared-string permutation |

## Findings

| source | as written | input that shows it | evidently intended | confidence | as-written member | corrected member |
|---|---|---|---|---|---|---|
| src/main/java/io/github/cainlara/jalutils/CollectionUtils.java:164-182 | after the size check, only asks that each l1 string be a key of l2's map with the same stored hash | `listsAreEqual([A, A, B], [A, B, C])` is true; swapped, it is false | each element has "one and only one" counterpart, as the comment at lines 140-142 says | high (not executed) | `CollectionUtils.DuplicatesHideMissingElement` | `CollectionUtils.ListsAreEqualCounted` |
| src/main/java/io/github/cainlara/jalutils/CollectionUtils.java:185-199 | each map keeps only the hash of the last element with a given string | elements `("s", 1)` and `("s", 2)` (string, hash) in opposite orders compare unequal | order does not matter, as lines 127-150 promise | medium: it needs two objects with one `toString` and different `hashCode`s (not executed) | `CollectionUtils.SharedStringRejectsPermutation` | `CollectionUtils.ListsAreEqualCounted` |

The corrected comparison keeps the written null, empty and size short-circuits. It then counts occurrences of (string, hash code) pairs, and `PermutationsHaveSameOccurrences` proves it order-insensitive. `ListsAreEqual` itself stays as written.

## Left out

- File-system operations are left out because their effect lives in the operating system:
  - `copyFile`, `deleteFile`, `deleteFolder`, `getParentFolder` and `exists` of both `FileUtils` and `FileManager`;
  - the `File` overloads of `getFileExtension`;
  - `saveSourceCodeFile` and `openSourceCodeFile` of `FileManager`.
- Image and message lookup (`ImageManager`, `MessageManager`, `AbstractImageProvider`, `AbstractMessageProvider`) is left out: it consists of thin wrappers over resource bundles and Swing.
- `UIUtils` is left out: it is Swing code and floating-point screen arithmetic.
- The singleton `getInstance` methods are left out: they have no observable behaviour beyond returning an instance.
- `StringUtils.isValid` is not part of this model. It is the uninterpreted parameter `isValid`.
- The package-local `io.github.cainlara.jalutils.StringUtils` is not part of this model. `com/jalutils/StringUtils.java` stands in for it.
- Null list elements are excluded. In `listsAreEqual`, once the null, empty and size short-circuits have passed, any null element throws `NullPointerException` at `o.toString()` while `getHashedValues` builds its map. In `sortedListsAreEqual` a null element of l1 that the loop reaches throws at `o1.equals(o2)`. A null element of l2 there is only the argument of `equals`, so for `String` elements Java returns false without throwing, e.g. `sortedListsAreEqual(["a"], [null])`. That false verdict is not modelled, because a list here cannot hold null.
- `toString`, `hashCode` and `equals` are parameters, not computed. In particular `String.hashCode` is not modelled: the lemmas about strings hold for every hash that is a function of the string.
- Java strings are sequences of UTF-16 code units; here they are sequences of Dafny characters, which are Unicode scalar values. `trim()`, `isBlank` and the dot and space tests look only at characters at or below U+0020, the space and the dot, which are single code units. A surrogate pair never contains any of them, so those operations give the same result either way. `lastIndexOf('.')` finds the same dot, but its index counts characters rather than UTF-16 code units: for `"😀.a"` Java returns 2 and the model 1. The text after that dot, which is all `getFileExtension` uses, is the same. `startsWith` and `endsWith` compare whole texts, so they agree as long as both texts are converted the same way.
- CollectionUtils.ToList: splits the text per Unicode scalar value, not per UTF-16 code unit as `toCharArray()` does. For a character outside the Basic Multilingual Plane, Java returns two one-element strings, each holding a lone surrogate. The model returns one string holding the whole character, because a Dafny string cannot hold a lone surrogate.
- The `ArrayList` and `HashMap` that `toList` and `getHashedValues` fill are local `seq` and `map` values. Nothing outside the method observes them before they are returned.
- FileManager.AddExtensionIdempotent: requires that `isValid` accept the first result. Nothing is known about `isValid`, and the second call runs it again.
