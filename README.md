# LocaleList in Dafny

A verified model of `android.util.LocaleList`: an immutable, ordered list of
`java.util.Locale` values with no two entries equal, together with the string
of their language tags joined by commas, computed once at construction.

- `java_lang.dfy` (module `JavaLang`): nullable references (`Option`), the
  exceptions the class throws (`Result` = `Ok` or `Throws`), Java's 32-bit
  `int` with two's complement wrap-around (`int32`, `Wrap`), and
  `String.split(",")` with its limit-0 rule (pieces between commas are kept,
  trailing empty pieces are dropped, a string without a comma comes back
  whole).
- `java_locale.dfy` (module `JavaLocale`): `Locale` as an opaque type whose
  `equals` is Dafny's `==`, with `toLanguageTag`, `forLanguageTag`,
  `hashCode` and `toString` as uninterpreted total functions (constants of
  arrow type without a definition). `clone` is the identity on values.
- `locale_list.dfy` (module `LocaleLists`): the value type `LocaleList`
  (`entries` = `mList`, `representation` = `mStringRepresentation`) with its
  invariant `Valid()`; the three constructors; the accessors; `equals`,
  `hashCode` and `toString` as methods with the source's loops; `forLanguageTags`
  as a method that fills an array and calls the array constructor; the default
  list cache as the class `DefaultCache`. The array constructor,
  `forLanguageTags`, `hashCode` and `toString` are each proved equal to a
  specification function (`Build`, `ParseList`, `ListHash`, `Join`); `equals`
  is proved equivalent to the pairwise comparison `EntriesMatch`.
- `locale_list_properties.dfy` (module `LocaleListProperties`): the
  properties of those specification functions.

The array constructor is `FromArray(list: array?<Option<Locale>>)`: a null
array, a null element and a thrown exception are all explicit. Its loop checks
each element in index order, null first and then membership in `seenLocales`,
and the first failing element decides the exception (`FirstFault`,
`FirstBadDecides`). `Locale.getDefault()` is the parameter `defaultLocale` of
`DefaultCache.GetDefault`.

Where the documentation and the code of `LocaleList.java` differ, the model
follows the code:
- the single-locale constructor is documented (lines 117-120) to throw on
  null, but its body (121-130) returns the empty list; `OfLocale` never fails;
- an array that holds a null before its first repeated locale throws
  `NullPointerException`, not `IllegalArgumentException`: a duplicate fails
  with `IllegalArgumentException` only when no null comes before it.

Consequences of the code worth knowing:
- `get` checks only `location < size()` (line 49), so a negative index reaches
  the array access and throws `ArrayIndexOutOfBoundsException`; `Get` returns
  `Throws(ArrayIndexOutOfBoundsException)` for it, not null;
- `Locale.forLanguageTag` never returns null, so `forLanguageTags` cannot
  throw `NullPointerException` (`ParseListNeverNull`), and a non-empty string
  made only of commas splits into no pieces and gives the empty list
  (`OnlyCommasIsEmpty`).

## Model

| member | source | states |
|---|---|---|
| `JavaLang.Wrap` | core/java/android/util/LocaleList.java:84 | the truncated value agrees with the exact value modulo 2^32 and is the value itself when it fits in an `int` |
| `JavaLang.WrapShift` | core/java/android/util/LocaleList.java:84 | adding a multiple of 2^32 does not change the truncated `int` |
| `JavaLang.WrapStep` | core/java/android/util/LocaleList.java:84 | truncating `31 * h + e` after truncating `h` gives the same `int` as truncating once |
| `JavaLang.SplitAll` | core/java/android/util/LocaleList.java:173 | the pieces between commas, empty ones included: there is at least one and none contains a comma (with `JoinSplitAll`, re-joining them gives the string back) |
| `JavaLang.DropTrailingEmpty` | core/java/android/util/LocaleList.java:173 | the result is a prefix of the pieces that does not end in an empty piece, and every piece removed is empty |
| `JavaLang.Split` | core/java/android/util/LocaleList.java:173 | `split(",")`: a string without a comma comes back as its single piece; otherwise the result is the pieces between commas with the trailing empty ones removed and no empty piece left at the end; no piece holds a comma |
| `JavaLang.SplitAllAtComma` | core/java/android/util/LocaleList.java:173 | splitting `a + "," + b` gives the pieces of `a` followed by the pieces of `b` |
| `JavaLang.SplitAllNoComma` | core/java/android/util/LocaleList.java:173 | a comma-free string is one piece |
| `LocaleLists.LocaleList.Get` | core/java/android/util/LocaleList.java:48-50 | throws iff the index is negative; in range it is the entry at that index; at or past the size it is null |
| `LocaleLists.LocaleList.Primary` | core/java/android/util/LocaleList.java:52-54 | null iff the list has no entries; otherwise the first entry, the same as `get(0)` |
| `LocaleLists.LocaleList.IsEmpty` | core/java/android/util/LocaleList.java:56-58 | true iff `getPrimary()` is null, iff `get(0)` is null |
| `LocaleLists.LocaleList.Size` | core/java/android/util/LocaleList.java:60-62 | `get(i)` is a locale for every index below the size and null at the size |
| `LocaleLists.LocaleList.ToLanguageTags` | core/java/android/util/LocaleList.java:104-106 | for a constructed list, the entries' language tags joined by single commas |
| `LocaleLists.LocaleList.Equals` | core/java/android/util/LocaleList.java:65-78 | true iff the other object is a LocaleList whose entries match position by position (`EntriesMatch`: same length, equal entries in order) |
| `LocaleLists.LocaleList.HashCode` | core/java/android/util/LocaleList.java:81-87 | returns the 32-bit left fold `h = 31 * h + hash(e)` from `h = 1` over the entries |
| `LocaleLists.LocaleList.ToString` | core/java/android/util/LocaleList.java:90-101 | returns `[`, the entries' display strings separated by single commas, then `]` |
| `LocaleLists.ListHash` | core/java/android/util/LocaleList.java:81-87 | the hash of entries `e_0 .. e_(n-1)` is `31^n + sum of 31^(n-1-i) * hash(e_i)` truncated to 32 bits: wrapping after every step changes nothing |
| `LocaleLists.WeightedSumSnoc` | core/java/android/util/LocaleList.java:83-85 | the weighted sum of the hashes grows by `31 * sum + hash(e)` per appended entry |
| `LocaleLists.Join` | core/java/android/util/LocaleList.java:40-43 | the parts joined by single commas, built as lines 153-156 append them; two or more parts always produce a comma |
| `LocaleLists.JoinSnoc` | core/java/android/util/LocaleList.java:153-156 | appending a part to the joined string adds a comma before it unless it is the first part |
| `LocaleLists.Empty` | core/java/android/util/LocaleList.java:112-115 | the no-argument constructor gives a valid empty list whose tag string is `""` |
| `LocaleLists.OfLocale` | core/java/android/util/LocaleList.java:121-130 | null gives the empty list; a locale gives a valid one-entry list whose primary is that locale and whose tag string is its tag; it never throws |
| `LocaleLists.EmptyLocaleList` | core/java/android/util/LocaleList.java:165-167 | `getEmptyLocaleList` is a valid empty list whose tag string is `""` |
| `LocaleLists.FirstFault` | core/java/android/util/LocaleList.java:144-150 | the outcome of the element loop: never `ArrayIndexOutOfBoundsException`; NullPointerException only when some element is null, IllegalArgumentException only when two elements are equal (with `FirstBadDecides` and `FirstFaultNoneIff`: the exception of the first null or repeated element, None when every element passes) |
| `LocaleLists.NoFaultMeansPresent` | core/java/android/util/LocaleList.java:144-150 | an array the loop accepts holds no null and no two equal elements |
| `LocaleLists.FaultPersists` | core/java/android/util/LocaleList.java:144-150 | once a prefix throws, the whole array throws the same exception |
| `LocaleLists.FaultStep` | core/java/android/util/LocaleList.java:144-150 | after an accepted prefix, the next element throws NullPointerException if null, IllegalArgumentException if equal to an earlier one, and is accepted otherwise |
| `LocaleLists.SeenMeansEarlier` | core/java/android/util/LocaleList.java:142-157 | a locale is in `seenLocales` iff it occurs among the elements already checked |
| `LocaleLists.JoinTagsSnoc` | core/java/android/util/LocaleList.java:153-156 | appending a locale appends its tag to the string, after a comma unless it is the first |
| `LocaleLists.Build` | core/java/android/util/LocaleList.java:136-163 | a null or empty array gives the empty list; the constructor throws iff the element loop faults, and then with the exception of the first failing element; otherwise it gives a valid list holding exactly the array's elements in order |
| `LocaleLists.FromArray` | core/java/android/util/LocaleList.java:136-163 | the array constructor returns exactly `Build` of its argument: the empty list for a null or empty array, the first element's exception, or the list of the elements with their joined tags |
| `LocaleLists.ParseTags` | core/java/android/util/LocaleList.java:174-177 | `localeArray`: one element per tag, and none is null, since `forLanguageTag` never returns null |
| `LocaleLists.ParseList` | core/java/android/util/LocaleList.java:169-180 | null or `""` gives `getEmptyLocaleList()`; every list it returns is valid; a successful parse of a non-empty string holds, in order, the locale of each piece of `split(",")` |
| `LocaleLists.ForLanguageTags` | core/java/android/util/LocaleList.java:169-180 | returns exactly `ParseList`: the empty list for null or `""`, otherwise the array constructor applied to the parsed comma-separated pieces |
| `LocaleLists.DefaultCache.constructor` | core/java/android/util/LocaleList.java:184-185 | the static cache starts out null |
| `LocaleLists.DefaultCache.GetDefault` | core/java/android/util/LocaleList.java:189-198 | afterwards the cache holds the returned valid one-entry list whose primary is the current default; a cache that already matched is left unchanged, otherwise it is rebuilt by the single-locale constructor |
| `LocaleLists.GetDefaultTwice` | core/java/android/util/LocaleList.java:189-198 | two calls with the same current default return the same list |
| `LocaleListProperties.BadInPrefix` | core/java/android/util/LocaleList.java:144-150 | whether an element fails the check depends only on the elements before it |
| `LocaleListProperties.NoFaultIffNoBad` | core/java/android/util/LocaleList.java:144-159 | the loop runs to the end iff no element is null or equal to an earlier one |
| `LocaleListProperties.NoBadIffNullFreeDistinct` | core/java/android/util/LocaleList.java:144-150 | having no failing element is the same as being null-free with no two elements equal |
| `LocaleListProperties.FirstFaultNoneIff` | core/java/android/util/LocaleList.java:144-159 | the loop completes iff the array is null-free and duplicate-free |
| `LocaleListProperties.FirstBadDecides` | core/java/android/util/LocaleList.java:144-150 | the first failing element decides the exception: NullPointerException if it is null, IllegalArgumentException if it repeats an earlier element |
| `LocaleListProperties.BuildSucceeds` | core/java/android/util/LocaleList.java:141-161 | a null-free duplicate-free array gives a valid list of the same size whose `get(i)` is the i-th element |
| `LocaleListProperties.BuildFails` | core/java/android/util/LocaleList.java:144-150 | an array with a null or a repeated element throws, wherever it is |
| `LocaleListProperties.DuplicateThrowsIllegalArgument` | core/java/android/util/LocaleList.java:148-149 | a null-free array is either accepted or rejected with IllegalArgumentException |
| `LocaleListProperties.ConstructorsAgree` | core/java/android/util/LocaleList.java:112-139 | the no-argument constructor, a null array, an empty array and `getEmptyLocaleList` give the same empty list; a non-null locale gives the same list as a one-element array holding it, and a null locale the same list as a null array (an array holding a null throws instead) |
| `LocaleListProperties.AccessorsAgree` | core/java/android/util/LocaleList.java:48-62 | `get(i)` is the i-th entry in range, null at or past the size and throws below zero; `getPrimary` is null iff the list is empty and otherwise `get(0)`; `isEmpty` iff `size() == 0` |
| `LocaleListProperties.JoinCons` | core/java/android/util/LocaleList.java:40-43 | the joined string is the first part, then a comma and the join of the rest when there is a rest |
| `LocaleListProperties.SplitAllJoin` | core/java/android/util/LocaleList.java:40-43 | the pieces between the commas of the joined string are the parts, when no part holds a comma |
| `LocaleListProperties.JoinSplitAll` | core/java/android/util/LocaleList.java:173 | re-joining the comma-separated pieces of a string gives the string back |
| `LocaleListProperties.SplitJoin` | core/java/android/util/LocaleList.java:173 | `split(",")` recovers comma-free parts from their join when the last part is non-empty |
| `LocaleListProperties.LanguageTagsShape` | core/java/android/util/LocaleList.java:104-106 | for a constructed list whose tags are non-empty and comma-free, `toLanguageTags()` split at its commas gives the entries' tags, is `""` iff the list is empty, and is the one tag of a one-entry list |
| `LocaleListProperties.ParseListNeverNull` | core/java/android/util/LocaleList.java:174-178 | `forLanguageTags` never throws NullPointerException |
| `LocaleListProperties.RepeatedPieceThrows` | core/java/android/util/LocaleList.java:173-178 | any two pieces of `split(",")` that name the same locale, wherever they stand, make `forLanguageTags` throw IllegalArgumentException |
| `LocaleListProperties.RepeatedTagThrows` | core/java/android/util/LocaleList.java:173-178 | the smallest instance: `"t,t"` for a non-empty comma-free tag `t` throws IllegalArgumentException |
| `LocaleListProperties.SplitAllOnlyCommas` | core/java/android/util/LocaleList.java:173 | a string of commas alone has only empty pieces |
| `LocaleListProperties.OnlyCommasIsEmpty` | core/java/android/util/LocaleList.java:173-178 | any non-empty string made only of commas gives the empty list instead of throwing |
| `LocaleListProperties.LanguageTagsRoundTrip` | core/java/android/util/LocaleList.java:104-105 | `forLanguageTags(l.toLanguageTags())` rebuilds `l` when every tag is non-empty, comma-free and parses back to its locale |
| `LocaleListProperties.EqualsReflexiveSymmetric` | core/java/android/util/LocaleList.java:65-78 | the comparison `equals` makes is reflexive and symmetric |
| `LocaleListProperties.EqualsIsValueEquality` | core/java/android/util/LocaleList.java:65-78 | for constructed lists, `equals` holds iff the two values are identical, tag string included |
| `LocaleListProperties.EqualsOrderSensitive` | core/java/android/util/LocaleList.java:71-76 | two distinct locales in opposite orders give two lists that `equals` does not relate |
| `LocaleListProperties.EqualListsHashEqually` | core/java/android/util/LocaleList.java:81-87 | lists related by `equals` have the same `hashCode` |

## Left out

- Locale internals: BCP 47 parsing and canonicalisation. `toLanguageTag`, `forLanguageTag`, `hashCode` and `toString` of `java.util.Locale` are uninterpreted functions, and `forLanguageTag` is total.
- `Locale.clone` and defensive copying: a copy is the same value, so aliasing of caller-owned locales is not modelled.
- Object identity: the `other == this` shortcut in `equals` (it gives the same answer as the loop) and the sharing of the single `sEmptyLocaleList` instance; `getEmptyLocaleList` returns an equal value.
- `equals(Object)` on an object of another class is modelled as `Equals(None)`, the same case as null.
- The synchronisation on `sLock` and the read of `sDefaultLocaleList` after leaving the lock: the cache update is one sequential method.
- `Locale.getDefault()`: an external system source, passed to `GetDefault` as a parameter.
- The regular-expression machinery of `String.split`: only a split on the single character `,` is modelled.
- `HashSet` hashing: `seenLocales` is a mathematical set.
- The inner locale array of the constructor is built as a sequence rather than a `Locale[]` of fixed length; the value is the same.
- `size()` returns a `nat`; Java array lengths never exceed the `int` range, so nothing is lost.
- The native-pointer TODO at the head of the file describes code that does not exist.
