/** The few pieces of the Java platform that LocaleList leans on: nullable
    references, thrown exceptions, 32-bit `int` arithmetic and
    `String.split(",")`. */
module JavaLang {

  /** A nullable reference: `None` is Java's `null`. */
  datatype Option<+T> = None | Some(value: T)

  /** The unchecked exceptions LocaleList can raise. */
  datatype Exception =
    | NullPointerException
    | IllegalArgumentException
    | ArrayIndexOutOfBoundsException

  /** The outcome of a Java call that either returns a value or throws. */
  datatype Result<+T> = Ok(value: T) | Throws(exception: Exception)

  const INT32_MODULUS: int := 0x1_0000_0000

  /** Java's `int`. */
  newtype int32 = x: int | -0x8000_0000 <= x < 0x8000_0000

  /** Two's complement truncation of an unbounded integer to an `int`, which is
      what Java's `int` multiplication and addition do on overflow. */
  function Wrap(x: int): (r: int32)
    ensures (x - r as int) % INT32_MODULUS == 0
    ensures -0x8000_0000 <= x < 0x8000_0000 ==> r as int == x
  {
    var shifted := x + 0x8000_0000;
    assert shifted == (shifted / INT32_MODULUS) * INT32_MODULUS + shifted % INT32_MODULUS;
    (shifted % INT32_MODULUS - 0x8000_0000) as int32
  }

  lemma ModuloShift(a: int, k: int)
    ensures (a + k * INT32_MODULUS) % INT32_MODULUS == a % INT32_MODULUS
  {
    var q, r := a / INT32_MODULUS, a % INT32_MODULUS;
    assert a == q * INT32_MODULUS + r;
    assert a + k * INT32_MODULUS == (q + k) * INT32_MODULUS + r;
  }

  /** Adding a multiple of 2^32 does not change the truncated `int`. */
  lemma WrapShift(x: int, k: int)
    ensures Wrap(x + k * INT32_MODULUS) == Wrap(x)
  {
    ModuloShift(x + 0x8000_0000, k);
    assert x + k * INT32_MODULUS + 0x8000_0000 == (x + 0x8000_0000) + k * INT32_MODULUS;
  }

  /** Truncating after every step of `31 * h + e` is the same as truncating
      once at the end. */
  lemma {:induction false} WrapStep(h: int, e: int)
    ensures Wrap(31 * (Wrap(h) as int) + e) == Wrap(31 * h + e)
  {
    var w := Wrap(h) as int;
    var k := (h - w) / INT32_MODULUS;
    assert h - w == k * INT32_MODULUS + (h - w) % INT32_MODULUS;
    assert h == w + k * INT32_MODULUS;
    assert 31 * h + e == (31 * w + e) + (31 * k) * INT32_MODULUS;
    WrapShift(31 * w + e, 31 * k);
  }

  /** Every piece of `s` between commas, empty pieces included, so that `n`
      commas give `n + 1` pieces. */
  function SplitAll(s: string): (pieces: seq<string>)
    ensures |pieces| >= 1
    ensures forall i :: 0 <= i < |pieces| ==> ',' !in pieces[i]
    decreases |s|
  {
    if s == [] then [""]
    else
      var rest := SplitAll(s[1..]);
      if s[0] == ',' then [""] + rest
      else [[s[0]] + rest[0]] + rest[1..]
  }

  /** Removes the empty strings at the end of `pieces`. */
  function DropTrailingEmpty(pieces: seq<string>): (r: seq<string>)
    ensures |r| <= |pieces| && r == pieces[..|r|]
    ensures r == [] || r[|r| - 1] != ""
    ensures forall i :: |r| <= i < |pieces| ==> pieces[i] == ""
  {
    if pieces != [] && pieces[|pieces| - 1] == "" then DropTrailingEmpty(pieces[..|pieces| - 1])
    else pieces
  }

  /** `s.split(",")` with Java's limit-0 semantics: a string without a comma
      is returned whole (so `"".split(",")` is `[""]`); otherwise all pieces
      are kept except the trailing empty ones. */
  function Split(s: string): (r: seq<string>)
    ensures ',' !in s ==> r == [s]
    ensures ',' in s ==> |r| <= |SplitAll(s)| && r == SplitAll(s)[..|r|] &&
                         (r == [] || r[|r| - 1] != "") &&
                         forall i :: |r| <= i < |SplitAll(s)| ==> SplitAll(s)[i] == ""
    ensures forall i :: 0 <= i < |r| ==> ',' !in r[i]
  {
    if ',' !in s then [s] else DropTrailingEmpty(SplitAll(s))
  }

  /** Splitting at a comma splits the two sides independently. */
  lemma {:induction false} SplitAllAtComma(a: string, b: string)
    ensures SplitAll(a + [','] + b) == SplitAll(a) + SplitAll(b)
    decreases |a|
  {
    if a == [] {
      assert a + [','] + b == [','] + b;
      assert ([','] + b)[1..] == b;
    } else {
      assert (a + [','] + b)[1..] == a[1..] + [','] + b;
      SplitAllAtComma(a[1..], b);
    }
  }

  /** A comma-free string is a single piece. */
  lemma {:induction false} SplitAllNoComma(s: string)
    requires ',' !in s
    ensures SplitAll(s) == [s]
    decreases |s|
  {
    if s != [] {
      assert ',' !in s[1..];
      SplitAllNoComma(s[1..]);
      assert [s[0]] + s[1..] == s;
    }
  }
}
