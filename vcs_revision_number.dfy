/**
 * Revision numbers of a version-control history
 * (com.intellij.openapi.vcs.history.VcsRevisionNumber): the NULL revision, an
 * `int` revision and a `long` revision. Java's fixed-width arithmetic is
 * written out: `int` subtraction wraps modulo 2^32, `long` subtraction modulo
 * 2^64, and the `(int)` cast keeps the low 32 bits.
 */
module VcsRevisionNumber {

  const TwoTo32: int := 0x1_0000_0000
  const TwoTo64: int := 0x1_0000_0000_0000_0000

  newtype Int32 = x: int | -0x8000_0000 <= x < 0x8000_0000
  newtype Int64 = x: int | -0x8000_0000_0000_0000 <= x < 0x8000_0000_0000_0000

  datatype RevisionNumber = Null | Int(intValue: Int32) | Long(longValue: Int64)

  /** Two's-complement narrowing to 32 bits, as Java's `int` arithmetic and `(int)` cast do it. */
  function WrapToInt(x: int): (r: Int32)
    ensures (r as int - x) % TwoTo32 == 0
    ensures -0x8000_0000 <= x < 0x8000_0000 ==> r as int == x
  {
    var m := x % TwoTo32;
    (if m >= 0x8000_0000 then m - TwoTo32 else m) as Int32
  }

  /** Two's-complement narrowing to 64 bits, as Java's `long` arithmetic does it. */
  function WrapToLong(x: int): (r: Int64)
    ensures (r as int - x) % TwoTo64 == 0
    ensures -0x8000_0000_0000_0000 <= x < 0x8000_0000_0000_0000 ==> r as int == x
  {
    var m := x % TwoTo64;
    (if m >= 0x8000_0000_0000_0000 then m - TwoTo64 else m) as Int64
  }

  /**
   * `compareTo` as written: NULL is equal to everything; an `Int` answers the
   * wrapped difference of the two values when the other is an `Int` too; a
   * `Long` answers the 64-bit difference cast to `int`, which is the low 32
   * bits of the exact difference; kinds that differ compare as 0.
   */
  function CompareTo(a: RevisionNumber, b: RevisionNumber): (r: Int32)
    ensures a.Null? || (a.Int? && !b.Int?) || (a.Long? && !b.Long?) ==> r == 0
    ensures a.Int? && b.Int? ==> (r as int - (a.intValue as int - b.intValue as int)) % TwoTo32 == 0
    ensures a.Long? && b.Long? ==> (r as int - (a.longValue as int - b.longValue as int)) % TwoTo32 == 0
  {
    match a
    case Null => 0
    case Int(x) => if b.Int? then WrapToInt(x as int - b.intValue as int) else 0
    case Long(x) =>
      if b.Long? then
        LongNarrowing(x as int - b.longValue as int);
        WrapToInt(WrapToLong(x as int - b.longValue as int) as int)
      else 0
  }

  /** Narrowing to 64 bits and then to 32 bits keeps the residue modulo 2^32. */
  lemma LongNarrowing(d: int)
    ensures (WrapToInt(WrapToLong(d) as int) as int - d) % TwoTo32 == 0
  {
    var w := WrapToLong(d) as int;
    var r := WrapToInt(w) as int;
    ModuloOfMultiple(w - d);
    SumOfMultiples(r - w, w - d);
    assert (r - w) + (w - d) == r - d;
  }

  lemma SumOfMultiples(a: int, b: int)
    requires a % TwoTo32 == 0 && b % TwoTo32 == 0
    ensures (a + b) % TwoTo32 == 0
  {
    var j, k := a / TwoTo32, b / TwoTo32;
    assert a + b == (j + k) * TwoTo32;
  }

  /**
   * Two `Int` revisions compare by their difference modulo 2^32; when that
   * difference fits in an `int` the sign is the true order of the values.
   */
  lemma IntCompareIsWrappedDifference(x: Int32, y: Int32)
    ensures -0x8000_0000 <= x as int - y as int < 0x8000_0000 ==>
              (CompareTo(Int(x), Int(y)) < 0 <==> x < y) &&
              (CompareTo(Int(x), Int(y)) == 0 <==> x == y)
  {
  }

  /** The result of the `Long` comparison is determined by the low 32 bits of the exact difference. */
  lemma LongCompareIsLow32Bits(x: Int64, y: Int64)
    ensures CompareTo(Long(x), Long(y)) == WrapToInt(x as int - y as int)
  {
    SameResidueSameWrap(CompareTo(Long(x), Long(y)) as int, x as int - y as int);
  }

  lemma ModuloOfMultiple(v: int)
    requires v % TwoTo64 == 0
    ensures v % TwoTo32 == 0
  {
    var q := v / TwoTo64;
    assert v == (q * TwoTo32) * TwoTo32;
  }

  lemma SameResidueSameWrap(a: int, b: int)
    requires (a - b) % TwoTo32 == 0
    ensures WrapToInt(a) == WrapToInt(b)
  {
    var q := (a - b) / TwoTo32;
    assert a == b + q * TwoTo32;
    assert a % TwoTo32 == b % TwoTo32;
  }

  /**
   * The `Int` comparison can report the wrong order: the smallest `int`
   * compared with 1 answers a positive number.
   */
  lemma IntCompareOverflow()
    ensures CompareTo(Int(-0x8000_0000), Int(1)) > 0
  {
  }

  /**
   * The `Long` comparison can report two different revisions as equal:
   * 0 and 2^32 differ only above the low 32 bits.
   */
  lemma LongCompareTruncation()
    ensures CompareTo(Long(0), Long(0x1_0000_0000)) == 0
  {
  }

  /**
   * The comparison the two kinds evidently intend: the sign of the true
   * difference (what `Integer.compare` and `Long.compare` answer), with the
   * same treatment of NULL and of mismatched kinds.
   */
  function CompareCorrected(a: RevisionNumber, b: RevisionNumber): (r: Int32)
    ensures -1 <= r <= 1
    ensures a.Int? && b.Int? ==> (r < 0 <==> a.intValue < b.intValue) && (r == 0 <==> a.intValue == b.intValue)
    ensures a.Long? && b.Long? ==> (r < 0 <==> a.longValue < b.longValue) && (r == 0 <==> a.longValue == b.longValue)
    ensures !(a.Int? && b.Int?) && !(a.Long? && b.Long?) ==> r == 0
  {
    match a
    case Null => 0
    case Int(x) => if b.Int? then Sign(x as int - b.intValue as int) else 0
    case Long(x) => if b.Long? then Sign(x as int - b.longValue as int) else 0
  }

  function Sign(d: int): Int32
  {
    if d < 0 then -1 else if d > 0 then 1 else 0
  }

  /** The corrected comparison is antisymmetric and transitive within a kind. */
  lemma CompareCorrectedIsOrder(a: RevisionNumber, b: RevisionNumber, c: RevisionNumber)
    ensures CompareCorrected(a, b) == -CompareCorrected(b, a)
    ensures (a.Int? && b.Int? && c.Int?) || (a.Long? && b.Long? && c.Long?) ==>
              CompareCorrected(a, b) <= 0 && CompareCorrected(b, c) <= 0 ==> CompareCorrected(a, c) <= 0
  {
  }

  /** `getLongValue` answers the constructor argument. */
  function GetLongValue(r: RevisionNumber): (v: Int64)
    requires r.Long?
    ensures Long(v) == r
  {
    r.longValue
  }

  /**
   * `asString`: the empty string for NULL, otherwise the decimal form of the
   * value that `String.valueOf` writes, so NULL is the only revision shown as
   * the empty string and the value of an `Int` or `Long` revision is the value
   * of its text.
   */
  function AsString(r: RevisionNumber): (s: string)
    ensures s == "" <==> r.Null?
    ensures !r.Null? ==> Canonical(s)
    ensures r.Int? ==> ParseDecimal(s) == r.intValue as int
    ensures r.Long? ==> ParseDecimal(s) == r.longValue as int
  {
    match r
    case Null => ""
    case Int(x) => DecimalStringRoundTrip(x as int); DecimalString(x as int)
    case Long(x) => DecimalStringRoundTrip(x as int); DecimalString(x as int)
  }

  /** A canonical decimal text is the only one `asString` can show for its value. */
  lemma AsStringIsTheCanonicalText(r: RevisionNumber, s: string)
    requires !r.Null? && Canonical(s)
    requires ParseDecimal(s) == if r.Int? then r.intValue as int else r.longValue as int
    ensures s == AsString(r)
  {
    CanonicalIsDecimalString(s);
  }

  /** Digits only, and no leading zero unless the number is 0 itself. */
  predicate DigitRun(d: string)
  {
    && |d| > 0 && (forall k :: 0 <= k < |d| ==> IsDigit(d[k]))
    && (d[0] == '0' ==> |d| == 1)
  }

  /** The text `String.valueOf` writes for an integer: a digit run, or a minus sign and a digit run of a positive number. */
  predicate Canonical(s: string)
  {
    DigitRun(s) || (|s| > 1 && s[0] == '-' && DigitRun(s[1..]) && s[1] != '0')
  }

  /** `String.valueOf` of an integer: an optional minus sign, then the digits without leading zeros. */
  function DecimalString(n: int): (s: string)
    ensures Canonical(s)
    ensures n < 0 <==> s[0] == '-'
  {
    if n < 0 then
      var s := "-" + Digits(-n);
      assert s[1..] == Digits(-n);
      s
    else Digits(n)
  }

  function Digits(n: nat): (s: string)
    ensures DigitRun(s)
    ensures n > 0 ==> s[0] != '0'
  {
    if n < 10 then [DigitChar(n)] else Digits(n / 10) + [DigitChar(n % 10)]
  }

  predicate IsDigit(c: char)
  {
    '0' <= c <= '9'
  }

  function DigitChar(d: nat): (c: char)
    requires d < 10
    ensures IsDigit(c)
  {
    ('0' as int + d) as char
  }

  /** Reads back a decimal string: the inverse of `DecimalString`. */
  function ParseDecimal(s: string): int
  {
    if |s| > 0 && s[0] == '-' then -(ParseDigits(s[1..]) as int) else ParseDigits(s)
  }

  function ParseDigits(s: string): nat
  {
    if s == [] then 0
    else
      var c := s[|s| - 1];
      ParseDigits(s[..|s| - 1]) * 10 + (if IsDigit(c) then c as int - '0' as int else 0)
  }

  lemma {:induction false} ParseDigitsOfDigits(n: nat)
    ensures ParseDigits(Digits(n)) == n
  {
    var s := Digits(n);
    if n >= 10 {
      ParseDigitsOfDigits(n / 10);
      assert s[..|s| - 1] == Digits(n / 10);
    }
  }

  /** The decimal form of a number reads back as that number. */
  lemma {:induction false} DecimalStringRoundTrip(n: int)
    ensures ParseDecimal(DecimalString(n)) == n
  {
    if n < 0 {
      ParseDigitsOfDigits(-n);
      assert DecimalString(n)[1..] == Digits(-n);
    } else {
      ParseDigitsOfDigits(n);
    }
  }

  /** A run of digits that does not start with 0 has a positive value. */
  lemma {:induction false} PositiveLead(d: string)
    requires |d| > 0 && (forall k :: 0 <= k < |d| ==> IsDigit(d[k])) && d[0] != '0'
    ensures ParseDigits(d) > 0
  {
    if |d| > 1 {
      PositiveLead(d[..|d| - 1]);
    }
  }

  /** Writing back the value of a digit run gives the run itself. */
  lemma {:induction false} DigitsOfParse(d: string)
    requires DigitRun(d)
    ensures Digits(ParseDigits(d)) == d
  {
    if |d| > 1 {
      var e := d[..|d| - 1];
      assert e[0] == d[0];
      DigitsOfParse(e);
      PositiveLead(e);
      var c := d[|d| - 1];
      var v := ParseDigits(d);
      assert v == ParseDigits(e) * 10 + (c as int - '0' as int);
      assert v / 10 == ParseDigits(e) && v % 10 == c as int - '0' as int;
      assert d == e + [c];
    }
  }

  /** A canonical text is the decimal string of its own value: the text is fixed by the value. */
  lemma CanonicalIsDecimalString(s: string)
    requires Canonical(s)
    ensures DecimalString(ParseDecimal(s)) == s
  {
    if DigitRun(s) {
      DigitsOfParse(s);
    } else {
      DigitsOfParse(s[1..]);
      PositiveLead(s[1..]);
      assert s == "-" + s[1..];
    }
  }
}
