/** What LocaleList promises, stated about the model in LocaleLists and proved. */
module LocaleListProperties {
  import opened JavaLang
  import opened JavaLocale
  import opened LocaleLists

  // ---------------------------------------------------------------------------
  // The validating constructor

  /** Element `k` fails the constructor's check: it is null, or it equals an
      element before it. */
  predicate Bad(xs: seq<Option<Locale>>, k: nat)
    requires k < |xs|
  {
    xs[k].None? || xs[k] in xs[..k]
  }

  lemma BadInPrefix(xs: seq<Option<Locale>>, m: nat, k: nat)
    requires k < m <= |xs|
    ensures Bad(xs[..m], k) == Bad(xs, k)
  {
    assert xs[..m][..k] == xs[..k];
  }

  /** The loop runs to the end exactly when no element is bad. */
  lemma {:induction false} NoFaultIffNoBad(xs: seq<Option<Locale>>)
    ensures FirstFault(xs) == None <==> forall k :: 0 <= k < |xs| ==> !Bad(xs, k)
    decreases |xs|
  {
    if xs != [] {
      var n := |xs| - 1;
      var earlier := xs[..n];
      NoFaultIffNoBad(earlier);
      forall k | 0 <= k < n ensures Bad(earlier, k) == Bad(xs, k) {
        BadInPrefix(xs, n, k);
      }
      if FirstFault(earlier) == None {
        assert FirstFault(xs) == None <==> !Bad(xs, n);
      } else {
        var k :| 0 <= k < n && Bad(earlier, k);
        assert Bad(xs, k);
      }
    }
  }

  /** Having no bad element is the same as being null-free and duplicate-free. */
  lemma NoBadIffNullFreeDistinct(xs: seq<Option<Locale>>)
    ensures (forall k :: 0 <= k < |xs| ==> !Bad(xs, k)) <==> NullFreeDistinct(xs)
  {
    if forall k :: 0 <= k < |xs| ==> !Bad(xs, k) {
      forall i | 0 <= i < |xs| ensures xs[i].Some? {
        assert !Bad(xs, i);
      }
      forall i, j | 0 <= i < j < |xs| ensures xs[i] != xs[j] {
        assert xs[..j][i] == xs[i];
        assert !Bad(xs, j);
      }
    }
    if NullFreeDistinct(xs) {
      forall k | 0 <= k < |xs| ensures !Bad(xs, k) {
        forall i | 0 <= i < k ensures xs[..k][i] != xs[k] {
          assert xs[..k][i] == xs[i];
        }
      }
    }
  }

  /** The constructor's loop completes iff the array is null-free and
      duplicate-free. */
  lemma FirstFaultNoneIff(xs: seq<Option<Locale>>)
    ensures FirstFault(xs) == None <==> NullFreeDistinct(xs)
  {
    NoFaultIffNoBad(xs);
    NoBadIffNullFreeDistinct(xs);
  }

  /** The first bad element decides the outcome: NullPointerException if it is
      null, IllegalArgumentException if it repeats an earlier element. */
  lemma FirstBadDecides(xs: seq<Option<Locale>>, k: nat)
    requires k < |xs| && Bad(xs, k)
    requires forall j :: 0 <= j < k ==> !Bad(xs, j)
    ensures FirstFault(xs) ==
              Some(if xs[k].None? then NullPointerException else IllegalArgumentException)
  {
    forall j | 0 <= j < k ensures !Bad(xs[..k], j) {
      BadInPrefix(xs, k, j);
    }
    NoFaultIffNoBad(xs[..k]);
    FaultStep(xs, k);
    FaultPersists(xs, k + 1);
  }

  /** A null-free, duplicate-free array builds a valid list holding exactly its
      elements, in order. */
  lemma BuildSucceeds(xs: seq<Option<Locale>>)
    requires NullFreeDistinct(xs)
    ensures Build(Some(xs)).Ok?
    ensures Build(Some(xs)).value.Valid()
    ensures Build(Some(xs)).value.Size() == |xs|
    ensures forall i :: 0 <= i < |xs| ==> Build(Some(xs)).value.Get(i) == Ok(xs[i])
  {
    FirstFaultNoneIff(xs);
  }

  /** A null or a repeated element makes the constructor throw, wherever it is. */
  lemma BuildFails(xs: seq<Option<Locale>>)
    requires !NullFreeDistinct(xs)
    ensures Build(Some(xs)).Throws?
  {
    FirstFaultNoneIff(xs);
  }

  /** With no null present, a repeated element throws IllegalArgumentException. */
  lemma {:induction false} DuplicateThrowsIllegalArgument(xs: seq<Option<Locale>>)
    requires forall i :: 0 <= i < |xs| ==> xs[i].Some?
    ensures FirstFault(xs) == None || FirstFault(xs) == Some(IllegalArgumentException)
    decreases |xs|
  {
    if xs != [] {
      DuplicateThrowsIllegalArgument(xs[..|xs| - 1]);
    }
  }

  /** The no-argument constructor agrees with an empty or null array, and the
      single-locale constructor with a one-element array holding that locale;
      a null locale builds the empty list, as a null array does (whereas an
      array holding null throws, see `FirstBadDecides`). */
  lemma ConstructorsAgree(locale: Option<Locale>)
    ensures Build(None) == Build(Some([])) == Ok(Empty()) == Ok(EmptyLocaleList())
    ensures Build(if locale.None? then None else Some([locale])) == Ok(OfLocale(locale))
  {
    if locale.Some? {
      var xs := [locale];
      assert xs[..0] == [];
      assert FirstFault(xs) == None;
      assert Present(xs) == [locale.value];
      assert Tags([locale.value]) == [LanguageTag(locale.value)];
    }
  }

  // ---------------------------------------------------------------------------
  // Accessors

  /** `get`, `getPrimary`, `isEmpty` and `size` agree with one another. */
  lemma AccessorsAgree(l: LocaleList, location: int)
    ensures l.IsEmpty() <==> l.Size() == 0
    ensures l.Primary() == None <==> l.IsEmpty()
    ensures !l.IsEmpty() ==> l.Get(0) == Ok(l.Primary())
    ensures 0 <= location < l.Size() ==> l.Get(location) == Ok(Some(l.entries[location]))
    ensures location >= l.Size() ==> l.Get(location) == Ok(None)
    ensures location < 0 <==> l.Get(location) == Throws(ArrayIndexOutOfBoundsException)
  {
  }

  // ---------------------------------------------------------------------------
  // The comma-joined representation

  /** Prepending one part to a join adds a comma only before a non-empty rest. */
  lemma {:induction false} JoinCons(p: string, rest: seq<string>)
    ensures Join([p] + rest) == if rest == [] then p else p + "," + Join(rest)
    decreases |rest|
  {
    if |rest| > 1 {
      var init := rest[..|rest| - 1];
      assert ([p] + rest)[..|rest|] == [p] + init;
      JoinCons(p, init);
    } else if |rest| == 1 {
      assert ([p] + rest)[..1] == [p];
    }
  }

  /** The pieces between the commas of a join are the parts, provided no part
      holds a comma. */
  lemma {:induction false} SplitAllJoin(parts: seq<string>)
    requires |parts| >= 1
    requires forall i :: 0 <= i < |parts| ==> ',' !in parts[i]
    ensures SplitAll(Join(parts)) == parts
    decreases |parts|
  {
    if |parts| == 1 {
      SplitAllNoComma(parts[0]);
    } else {
      var init, last := parts[..|parts| - 1], parts[|parts| - 1];
      SplitAllJoin(init);
      SplitAllNoComma(last);
      SplitAllAtComma(Join(init), last);
      assert Join(init) + "," + last == Join(init) + [','] + last;
      assert init + [last] == parts;
    }
  }

  /** Joining the comma-separated pieces of a string gives the string back. */
  lemma {:induction false} JoinSplitAll(s: string)
    ensures Join(SplitAll(s)) == s
    decreases |s|
  {
    if s != [] {
      var rest := SplitAll(s[1..]);
      JoinSplitAll(s[1..]);
      assert rest == [rest[0]] + rest[1..];
      JoinCons(rest[0], rest[1..]);
      if s[0] == ',' {
        JoinCons("", rest);
      } else {
        JoinCons([s[0]] + rest[0], rest[1..]);
      }
      assert [s[0]] + s[1..] == s;
    }
  }

  /** `String.split(",")` undoes the join when every part is comma-free and the
      last is non-empty. */
  lemma SplitJoin(parts: seq<string>)
    requires |parts| >= 1 && parts[|parts| - 1] != ""
    requires forall i :: 0 <= i < |parts| ==> ',' !in parts[i]
    ensures Split(Join(parts)) == parts
  {
    SplitAllJoin(parts);
  }

  /** No tag of the list is empty or holds a comma. */
  predicate TagsPlain(l: LocaleList)
  {
    forall i :: 0 <= i < |l.entries| ==>
      LanguageTag(l.entries[i]) != "" && ',' !in LanguageTag(l.entries[i])
  }

  /** The tags are plain and each parses back to its own locale. */
  predicate TagsParseBack(l: LocaleList)
  {
    TagsPlain(l) &&
    forall i :: 0 <= i < |l.entries| ==> ForLanguageTag(LanguageTag(l.entries[i])) == l.entries[i]
  }

  /** `toLanguageTags()` is exactly the entries' tags with single commas in
      between: split at its commas it gives the tags back, and it is empty iff
      the list is. */
  lemma LanguageTagsShape(l: LocaleList)
    requires l.Valid() && TagsPlain(l)
    ensures l.ToLanguageTags() == "" <==> l.IsEmpty()
    ensures !l.IsEmpty() ==> SplitAll(l.ToLanguageTags()) == Tags(l.entries)
    ensures |l.entries| == 1 ==> l.ToLanguageTags() == LanguageTag(l.entries[0])
  {
    var tags := Tags(l.entries);
    if |tags| >= 1 {
      SplitAllJoin(tags);
    }
  }

  // ---------------------------------------------------------------------------
  // forLanguageTags

  /** Parsing never meets a null, so it can only fail on a repeated locale. */
  lemma ParseListNeverNull(list: Option<string>)
    ensures ParseList(list) != Throws(NullPointerException)
  {
    if list.Some? && list.value != "" {
      DuplicateThrowsIllegalArgument(ParseTags(Split(list.value)));
    }
  }

  /** Any two pieces that name the same locale make the parse throw, wherever
      they stand in the string. */
  lemma RepeatedPieceThrows(s: string, i: nat, j: nat)
    requires s != "" && i < j < |Split(s)|
    requires ForLanguageTag(Split(s)[i]) == ForLanguageTag(Split(s)[j])
    ensures ParseList(Some(s)) == Throws(IllegalArgumentException)
  {
    var xs := ParseTags(Split(s));
    assert xs[i] == xs[j];
    BuildFails(xs);
    DuplicateThrowsIllegalArgument(xs);
  }

  /** The smallest instance: one tag written twice, `"t,t"`. */
  lemma RepeatedTagThrows(t: string)
    requires t != "" && ',' !in t
    ensures ParseList(Some(t + "," + t)) == Throws(IllegalArgumentException)
  {
    SplitAllJoin([t, t]);
    SplitJoin([t, t]);
    assert Join([t, t]) == t + "," + t by {
      assert [t, t][..1] == [t];
    }
    assert Split(t + "," + t) == [t, t];
    var xs := ParseTags([t, t]);
    assert xs[..1][..0] == [];
    assert xs[..1] == [xs[0]];
    assert FirstFault(xs[..1]) == None;
    assert xs[1] in xs[..1];
    assert FirstFault(xs) == Some(IllegalArgumentException);
  }

  /** A string of commas alone has only empty pieces. */
  lemma {:induction false} SplitAllOnlyCommas(s: string)
    requires forall k :: 0 <= k < |s| ==> s[k] == ','
    ensures forall i :: 0 <= i < |SplitAll(s)| ==> SplitAll(s)[i] == ""
    decreases |s|
  {
    if s != [] {
      SplitAllOnlyCommas(s[1..]);
    }
  }

  /** A non-empty string made only of commas splits into no pieces at all, so
      it parses as the empty list rather than failing. */
  lemma OnlyCommasIsEmpty(s: string)
    requires s != "" && forall k :: 0 <= k < |s| ==> s[k] == ','
    ensures ParseList(Some(s)) == Ok(Empty())
  {
    SplitAllOnlyCommas(s);
    assert s[0] in s;
  }

  /** `forLanguageTags(l.toLanguageTags())` rebuilds `l` whenever every tag is
      non-empty, comma-free and parses back to its locale. */
  lemma LanguageTagsRoundTrip(l: LocaleList)
    requires l.Valid() && TagsParseBack(l)
    ensures ParseList(Some(l.ToLanguageTags())) == Ok(l)
  {
    var tags := Tags(l.entries);
    if |tags| >= 1 {
      SplitJoin(tags);
      LanguageTagsShape(l);
      var xs := ParseTags(tags);
      forall i | 0 <= i < |xs| ensures xs[i] == Some(l.entries[i]) {
      }
      forall i, j | 0 <= i < j < |xs| ensures xs[i] != xs[j] {
        assert l.entries[i] != l.entries[j];
      }
      BuildSucceeds(xs);
      FirstFaultNoneIff(xs);
      assert Present(xs) == l.entries;
    }
  }

  // ---------------------------------------------------------------------------
  // equals and hashCode

  /** `equals` is reflexive and symmetric. */
  lemma EqualsReflexiveSymmetric(a: LocaleList, b: LocaleList)
    ensures EntriesMatch(a, a)
    ensures EntriesMatch(a, b) ==> EntriesMatch(b, a)
  {
  }

  /** For lists built by the constructors, `equals` (same length, entries equal
      in order) is exactly equality of the whole value, string included. */
  lemma EqualsIsValueEquality(a: LocaleList, b: LocaleList)
    requires a.Valid() && b.Valid()
    ensures EntriesMatch(a, b) <==> a == b
  {
    if EntriesMatch(a, b) {
      assert a.entries == b.entries;
    }
  }

  /** `equals` respects order: two distinct locales listed both ways give
      lists that are not equal. */
  lemma EqualsOrderSensitive(x: Locale, y: Locale)
    requires x != y
    ensures Build(Some([Some(x), Some(y)])).Ok? && Build(Some([Some(y), Some(x)])).Ok?
    ensures !EntriesMatch(Build(Some([Some(x), Some(y)])).value, Build(Some([Some(y), Some(x)])).value)
  {
    BuildSucceeds([Some(x), Some(y)]);
    BuildSucceeds([Some(y), Some(x)]);
  }

  /** Lists that `equals` relates have the same `hashCode`. */
  lemma EqualListsHashEqually(a: LocaleList, b: LocaleList)
    requires EntriesMatch(a, b)
    ensures ListHash(a.entries) == ListHash(b.entries)
  {
    assert a.entries == b.entries;
  }
}
