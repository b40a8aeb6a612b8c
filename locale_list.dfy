/** `android.util.LocaleList`: an immutable, ordered, duplicate-free list of
    locales together with the comma-joined string of their language tags,
    computed once when the list is built. */
module LocaleLists {
  import opened JavaLang
  import opened JavaLocale

  /** No element occurs twice. */
  predicate Distinct<T(==)>(s: seq<T>)
  {
    forall i, j :: 0 <= i < j < |s| ==> s[i] != s[j]
  }

  /** No element is null and no two are equal: what the array constructor
      accepts. */
  predicate NullFreeDistinct(xs: seq<Option<Locale>>)
  {
    (forall i :: 0 <= i < |xs| ==> xs[i].Some?) && Distinct(xs)
  }

  /** The language tag of each locale, in order. */
  function Tags(s: seq<Locale>): (tags: seq<string>)
    ensures |tags| == |s|
  {
    seq(|s|, i requires 0 <= i < |s| => LanguageTag(s[i]))
  }

  /** The display string of each locale, in order. */
  function DisplayStrings(s: seq<Locale>): (names: seq<string>)
    ensures |names| == |s|
  {
    seq(|s|, i requires 0 <= i < |s| => LocaleString(s[i]))
  }

  /** The parts joined by single commas, built left to right the way a
      `StringBuilder` appends them. */
  function Join(parts: seq<string>): (joined: string)
    ensures |parts| >= 2 ==> ',' in joined
  {
    if |parts| == 0 then ""
    else if |parts| == 1 then parts[0]
    else
      var init := Join(parts[..|parts| - 1]);
      assert (init + "," + parts[|parts| - 1])[|init|] == ',';
      init + "," + parts[|parts| - 1]
  }

  /** mList and mStringRepresentation. */
  datatype LocaleList = LocaleList(entries: seq<Locale>, representation: string)
  {
    /** What every constructor establishes: no duplicates, and the stored
        string is the entries' tags joined by commas. */
    predicate Valid()
    {
      Distinct(entries) && representation == Join(Tags(entries))
    }

    /** `get(location)`: only `location < size()` is checked, so a negative
        index reaches the array access and throws. */
    function Get(location: int): (r: Result<Option<Locale>>)
      ensures r.Throws? <==> location < 0
      ensures 0 <= location < |entries| ==> r == Ok(Some(entries[location]))
      ensures location >= |entries| ==> r == Ok(None)
    {
      if location < |entries| then
        if location < 0 then Throws(ArrayIndexOutOfBoundsException)
        else Ok(Some(entries[location]))
      else Ok(None)
    }

    function Primary(): (r: Option<Locale>)
      ensures r.None? <==> |entries| == 0
      ensures r.Some? ==> Get(0) == Ok(r) && r.value == entries[0]
    {
      if |entries| == 0 then None else Get(0).value
    }

    function IsEmpty(): (empty: bool)
      ensures empty <==> Primary().None?
      ensures empty <==> Get(0) == Ok(None)
    {
      |entries| == 0
    }

    /** The first index at which `get` returns null. */
    function Size(): (n: nat)
      ensures forall i :: 0 <= i < n ==> Get(i).Ok? && Get(i).value.Some?
      ensures Get(n) == Ok(None)
    {
      |entries|
    }

    function ToLanguageTags(): (tags: string)
      ensures Valid() ==> tags == Join(Tags(entries))
    {
      representation
    }

    /** `equals(Object)`; `None` stands for null or an object of another class. */
    method Equals(other: Option<LocaleList>) returns (eq: bool)
      ensures eq <==> other.Some? && EntriesMatch(this, other.value)
    {
      if other.None? {
        return false;
      }
      var otherList := other.value.entries;
      if |entries| != |otherList| {
        return false;
      }
      for i := 0 to |entries|
        invariant forall j :: 0 <= j < i ==> entries[j] == otherList[j]
      {
        if entries[i] != otherList[i] {
          return false;
        }
      }
      return true;
    }

    method HashCode() returns (result: int32)
      ensures result == ListHash(entries)
    {
      result := 1;
      for i := 0 to |entries|
        invariant result == ListHash(entries[..i])
      {
        assert entries[..i + 1][..i] == entries[..i];
        result := Wrap(31 * result as int + LocaleHash(entries[i]) as int);
      }
      assert entries[..|entries|] == entries;
    }

    /** `toString()`: the display strings between brackets, comma-separated. */
    method ToString() returns (s: string)
      ensures s == "[" + Join(DisplayStrings(entries)) + "]"
    {
      var sb := "[";
      for i := 0 to |entries|
        invariant sb == "[" + Join(DisplayStrings(entries[..i])) + (if 0 < i < |entries| then "," else "")
      {
        JoinSnoc(DisplayStrings(entries[..i]), LocaleString(entries[i]));
        assert DisplayStrings(entries[..i + 1]) == DisplayStrings(entries[..i]) + [LocaleString(entries[i])];
        sb := sb + LocaleString(entries[i]);
        if i < |entries| - 1 {
          sb := sb + ",";
        }
      }
      assert entries[..|entries|] == entries;
      sb := sb + "]";
      return sb;
    }
  }

  /** `hashCode()` of a list with these entries: starting from 1, the left fold
      `h = 31 * h + e.hashCode()` in 32-bit arithmetic. */
  function ListHash(s: seq<Locale>): (h: int32)
    ensures h == Wrap(Pow31(|s|) + WeightedSum(s))
  {
    if s == [] then 1
    else
      var init, last := s[..|s| - 1], s[|s| - 1];
      var h := ListHash(init);
      assert init + [last] == s;
      WeightedSumSnoc(init, last);
      WrapStep(Pow31(|init|) + WeightedSum(init), LocaleHash(last) as int);
      assert 31 * (Pow31(|init|) + WeightedSum(init)) + LocaleHash(last) as int ==
             Pow31(|s|) + WeightedSum(s);
      Wrap(31 * h as int + LocaleHash(last) as int)
  }

  function Pow31(n: nat): int
  {
    if n == 0 then 1 else 31 * Pow31(n - 1)
  }

  /** The sum of `31^(n-1-i) * hash(s[i])` over the `n` entries: together with
      `31^n` for the initial 1, the exact value `hashCode()` truncates. */
  function WeightedSum(s: seq<Locale>): int
  {
    if s == [] then 0
    else Pow31(|s| - 1) * (LocaleHash(s[0]) as int) + WeightedSum(s[1..])
  }

  lemma {:induction false} WeightedSumSnoc(s: seq<Locale>, l: Locale)
    ensures WeightedSum(s + [l]) == 31 * WeightedSum(s) + LocaleHash(l) as int
    decreases |s|
  {
    if s == [] {
      assert [l][1..] == [];
    } else {
      assert (s + [l])[1..] == s[1..] + [l];
      WeightedSumSnoc(s[1..], l);
      var h := LocaleHash(s[0]) as int;
      assert Pow31(|s|) * h == 31 * (Pow31(|s| - 1) * h);
    }
  }

  /** What `equals` compares: the same length and equal entries in order. */
  predicate EntriesMatch(a: LocaleList, b: LocaleList)
  {
    |a.entries| == |b.entries| &&
    forall i :: 0 <= i < |a.entries| ==> a.entries[i] == b.entries[i]
  }

  /** Appending one part to a join adds a comma only after the first part. */
  lemma JoinSnoc(parts: seq<string>, p: string)
    ensures Join(parts + [p]) == if parts == [] then p else Join(parts) + "," + p
  {
    assert (parts + [p])[..|parts|] == parts;
  }

  /** `new LocaleList()`. */
  function Empty(): (r: LocaleList)
    ensures r.Valid() && r.IsEmpty() && r.ToLanguageTags() == ""
  {
    LocaleList([], "")
  }

  /** `getEmptyLocaleList()`: the shared empty instance. */
  function EmptyLocaleList(): (r: LocaleList)
    ensures r.Valid() && r.IsEmpty() && r.ToLanguageTags() == ""
  {
    Empty()
  }

  /** `new LocaleList(Locale)`: null gives the empty list; it never throws. */
  function OfLocale(locale: Option<Locale>): (r: LocaleList)
    ensures r.Valid()
    ensures locale.None? ==> r == Empty()
    ensures locale.Some? ==> r.Size() == 1 && r.Primary() == locale &&
                             r.ToLanguageTags() == LanguageTag(locale.value)
  {
    if locale.None? then LocaleList([], "")
    else LocaleList([locale.value], LanguageTag(locale.value))
  }

  /** The exception the array constructor's loop raises, if any. Elements are
      checked in index order, each first for null and then against the
      elements before it; the first failure ends the loop. */
  function FirstFault(xs: seq<Option<Locale>>): (fault: Option<Exception>)
    ensures fault == Some(NullPointerException) ==> exists i :: 0 <= i < |xs| && xs[i].None?
    ensures fault == Some(IllegalArgumentException) ==>
              exists i, j :: 0 <= i < j < |xs| && xs[i] == xs[j]
    ensures fault != Some(ArrayIndexOutOfBoundsException)
    decreases |xs|
  {
    if xs == [] then None
    else
      var earlier := xs[..|xs| - 1];
      match FirstFault(earlier)
      case Some(e) => Some(e)
      case None =>
        if xs[|xs| - 1].None? then Some(NullPointerException)
        else if xs[|xs| - 1] in earlier then Some(IllegalArgumentException)
        else None
  }

  /** The locales of a null-free array. */
  function Present(xs: seq<Option<Locale>>): (s: seq<Locale>)
    requires forall i :: 0 <= i < |xs| ==> xs[i].Some?
    ensures |s| == |xs|
  {
    seq(|xs|, i requires 0 <= i < |xs| && xs[i].Some? => xs[i].value)
  }

  /** What `new LocaleList(Locale[])` produces; `None` is a null array. */
  function Build(list: Option<seq<Option<Locale>>>): (r: Result<LocaleList>)
    ensures list.None? || |list.value| == 0 ==> r == Ok(Empty())
    ensures r.Throws? <==> list.Some? && FirstFault(list.value).Some?
    ensures r.Throws? ==> FirstFault(list.value) == Some(r.exception)
    ensures r.Ok? ==> r.value.Valid()
    ensures r.Ok? && list.Some? ==>
              |r.value.entries| == |list.value| &&
              forall i :: 0 <= i < |list.value| ==> list.value[i] == Some(r.value.entries[i])
  {
    if list.None? || |list.value| == 0 then Ok(Empty())
    else
      match FirstFault(list.value)
      case Some(e) => Throws(e)
      case None =>
        NoFaultMeansPresent(list.value);
        Ok(LocaleList(Present(list.value), Join(Tags(Present(list.value)))))
  }

  /** A fault-free array holds no null and no two equal elements. */
  lemma {:induction false} NoFaultMeansPresent(xs: seq<Option<Locale>>)
    requires FirstFault(xs) == None
    ensures NullFreeDistinct(xs)
    decreases |xs|
  {
    if xs != [] {
      var n := |xs| - 1;
      var earlier := xs[..n];
      NoFaultMeansPresent(earlier);
      forall i | 0 <= i < |xs| ensures xs[i].Some? {
        if i < n {
          assert xs[i] == earlier[i];
        }
      }
      forall i, j | 0 <= i < j < |xs| ensures xs[i] != xs[j] {
        assert xs[i] == earlier[i];
        if j < n {
          assert xs[j] == earlier[j];
        } else {
          assert earlier[i] in earlier;
        }
      }
    }
  }

  /** Once a prefix has failed, the whole array fails the same way. */
  lemma {:induction false} FaultPersists(xs: seq<Option<Locale>>, k: nat)
    requires k <= |xs| && FirstFault(xs[..k]).Some?
    ensures FirstFault(xs) == FirstFault(xs[..k])
    decreases |xs| - k
  {
    if k < |xs| {
      var ys := xs[..k + 1];
      assert ys[..|ys| - 1] == xs[..k];
      FaultPersists(xs, k + 1);
    } else {
      assert xs[..k] == xs;
    }
  }

  /** One more step of the constructor's loop over a fault-free prefix. */
  lemma FaultStep(xs: seq<Option<Locale>>, i: nat)
    requires i < |xs| && FirstFault(xs[..i]) == None
    ensures FirstFault(xs[..i + 1]) ==
              if xs[i].None? then Some(NullPointerException)
              else if xs[i] in xs[..i] then Some(IllegalArgumentException)
              else None
  {
    assert xs[..i + 1][..i] == xs[..i];
  }

  /** `seenLocales` holds exactly the elements already checked. */
  lemma SeenMeansEarlier(prefix: seq<Option<Locale>>, locales: seq<Locale>, l: Locale)
    requires |prefix| == |locales|
    requires forall j :: 0 <= j < |prefix| ==> prefix[j] == Some(locales[j])
    ensures Some(l) in prefix <==> l in locales
  {
    if Some(l) in prefix {
      var j :| 0 <= j < |prefix| && prefix[j] == Some(l);
      assert locales[j] == l;
    }
    if l in locales {
      var j :| 0 <= j < |locales| && locales[j] == l;
      assert prefix[j] == Some(l);
    }
  }

  /** Appending a locale appends its tag to the joined string. */
  lemma JoinTagsSnoc(locales: seq<Locale>, l: Locale)
    ensures Join(Tags(locales + [l])) ==
              if locales == [] then LanguageTag(l) else Join(Tags(locales)) + "," + LanguageTag(l)
  {
    assert Tags(locales + [l]) == Tags(locales) + [LanguageTag(l)];
    JoinSnoc(Tags(locales), LanguageTag(l));
  }

  /** `new LocaleList(Locale[])`. The loop copies each locale, records it in
      `seenLocales` and appends its tag to `sb`, with a comma after every tag
      but the last. */
  method FromArray(list: array?<Option<Locale>>) returns (r: Result<LocaleList>)
    ensures r == Build(if list == null then None else Some(list[..]))
  {
    if list == null || list.Length == 0 {
      return Ok(Empty());
    }
    ghost var xs := list[..];
    var localeList: seq<Locale> := [];
    var seenLocales: set<Locale> := {};
    var sb := "";
    for i := 0 to list.Length
      invariant FirstFault(xs[..i]) == None
      invariant |localeList| == i
      invariant forall j :: 0 <= j < i ==> xs[j] == Some(localeList[j])
      invariant forall l :: l in seenLocales <==> l in localeList
      invariant sb == Join(Tags(localeList)) + (if 0 < i < list.Length then "," else "")
    {
      var l := list[i];
      FaultStep(xs, i);
      if l.None? {
        FaultPersists(xs, i + 1);
        return Throws(NullPointerException);
      } else if l.value in seenLocales {
        SeenMeansEarlier(xs[..i], localeList, l.value);
        FaultPersists(xs, i + 1);
        return Throws(IllegalArgumentException);
      } else {
        SeenMeansEarlier(xs[..i], localeList, l.value);
        var localeClone := l.value;
        JoinTagsSnoc(localeList, localeClone);
        localeList := localeList + [localeClone];
        sb := sb + LanguageTag(localeClone);
        if i < list.Length - 1 {
          sb := sb + ",";
        }
        seenLocales := seenLocales + {localeClone};
      }
    }
    assert xs[..list.Length] == xs;
    NoFaultMeansPresent(xs);
    assert localeList == Present(xs);
    assert sb == Join(Tags(localeList));
    assert Build(Some(xs)) == Ok(LocaleList(localeList, sb));
    r := Ok(LocaleList(localeList, sb));
  }

  /** Each tag parsed by `Locale.forLanguageTag`, which never yields null. */
  function ParseTags(tags: seq<string>): (xs: seq<Option<Locale>>)
    ensures |xs| == |tags|
    ensures forall i :: 0 <= i < |xs| ==> xs[i].Some?
  {
    seq(|tags|, i requires 0 <= i < |tags| => Some(ForLanguageTag(tags[i])))
  }

  /** What `forLanguageTags(list)` produces; `None` is a null string. */
  function ParseList(list: Option<string>): (r: Result<LocaleList>)
    ensures list.None? || list.value == "" ==> r == Ok(EmptyLocaleList())
    ensures r.Ok? ==> r.value.Valid()
    ensures r.Ok? && list.Some? && list.value != "" ==>
              |r.value.entries| == |Split(list.value)| &&
              forall i :: 0 <= i < |Split(list.value)| ==>
                r.value.entries[i] == ForLanguageTag(Split(list.value)[i])
  {
    if list.None? || list.value == "" then Ok(EmptyLocaleList())
    else Build(Some(ParseTags(Split(list.value))))
  }

  /** `forLanguageTags(String)`: split on commas, parse each piece into
      `localeArray`, then hand the array to the validating constructor. */
  method ForLanguageTags(list: Option<string>) returns (r: Result<LocaleList>)
    ensures r == ParseList(list)
  {
    if list.None? || list.value == "" {
      return Ok(EmptyLocaleList());
    }
    var tags := Split(list.value);
    var localeArray := new Option<Locale>[|tags|];
    for i := 0 to localeArray.Length
      invariant forall j :: 0 <= j < i ==> localeArray[j] == Some(ForLanguageTag(tags[j]))
    {
      localeArray[i] := Some(ForLanguageTag(tags[i]));
    }
    assert localeArray[..] == ParseTags(tags);
    r := FromArray(localeArray);
  }

  /** The cache behind `getDefault()`: the static field `sDefaultLocaleList`,
      null until the first call. */
  class DefaultCache {
    var defaultLocaleList: Option<LocaleList>

    ghost predicate Valid()
      reads this
    {
      defaultLocaleList.Some? ==> defaultLocaleList.value.Valid()
    }

    /** The cached list is the one-entry list of `locale`. */
    predicate Matches(locale: Locale)
      reads this
    {
      defaultLocaleList.Some? && defaultLocaleList.value.Size() == 1 &&
      defaultLocaleList.value.Primary() == Some(locale)
    }

    constructor ()
      ensures Valid() && defaultLocaleList == None
    {
      defaultLocaleList := None;
    }

    /** `getDefault()`, with `Locale.getDefault()` passed in as `defaultLocale`.
        The list is rebuilt only when it no longer matches. */
    method GetDefault(defaultLocale: Locale) returns (r: LocaleList)
      requires Valid()
      modifies this
      ensures Valid() && r.Valid()
      ensures defaultLocaleList == Some(r) && Matches(defaultLocale)
      ensures r.Size() == 1 && r.Primary() == Some(defaultLocale)
      ensures old(Matches(defaultLocale)) ==> defaultLocaleList == old(defaultLocaleList)
      ensures !old(Matches(defaultLocale)) ==> r == OfLocale(Some(defaultLocale))
    {
      if defaultLocaleList.None? || defaultLocaleList.value.Size() != 1
         || Some(defaultLocale) != defaultLocaleList.value.Primary()
      {
        defaultLocaleList := Some(OfLocale(Some(defaultLocale)));
      }
      r := defaultLocaleList.value;
    }
  }

  /** Two calls with the same default locale return the same list and the
      second leaves the cache as the first left it. */
  method GetDefaultTwice(cache: DefaultCache, defaultLocale: Locale) returns (first: LocaleList, second: LocaleList)
    requires cache.Valid()
    modifies cache
    ensures first == second && cache.defaultLocaleList == Some(first)
    ensures first.Size() == 1 && first.Primary() == Some(defaultLocale)
  {
    first := cache.GetDefault(defaultLocale);
    second := cache.GetDefault(defaultLocale);
  }
}
