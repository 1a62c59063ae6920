/** Java `int` text conversions: `String.valueOf(int)` and `Integer.parseInt`. */
module JavaInt {
  import opened Wrappers

  const MinInt: int := -0x8000_0000
  const MaxInt: int := 0x7fff_ffff

  /** The values of a Java `int`. */
  type Int32 = n: int | MinInt <= n <= MaxInt

  predicate IsDigit(c: char) {
    '0' <= c <= '9'
  }

  predicate AllDigits(s: string) {
    forall i :: 0 <= i < |s| ==> IsDigit(s[i])
  }

  function DigitValue(c: char): nat
    requires IsDigit(c)
  {
    c as int - '0' as int
  }

  function DigitChar(d: int): (c: char)
    requires 0 <= d < 10
    ensures IsDigit(c) && DigitValue(c) == d
  {
    ('0' as int + d) as char
  }

  /** The number a string of decimal digits denotes. */
  function Value(s: string): nat
    requires AllDigits(s)
  {
    if s == [] then 0 else Value(s[..|s| - 1]) * 10 + DigitValue(s[|s| - 1])
  }

  /** The decimal digits of `n`, with no leading zero. */
  function Decimal(n: nat): (r: string)
    ensures r != [] && AllDigits(r)
    ensures r[0] == '0' ==> n == 0
  {
    if n < 10 then [DigitChar(n)] else Decimal(n / 10) + [DigitChar(n % 10)]
  }

  /** `String.valueOf(n)`: a minus sign for negative values, then the decimal digits. */
  function ValueOf(n: Int32): (r: string)
    ensures r != []
    ensures forall i :: 0 <= i < |r| ==> r[i] == '-' || IsDigit(r[i])
  {
    if n < 0 then "-" + Decimal(-(n as int)) else Decimal(n)
  }

  /** The text after an optional leading `+` or `-`. */
  function Unsigned(s: string): string
  {
    if s != [] && (s[0] == '-' || s[0] == '+') then s[1..] else s
  }

  /** An optional sign followed by at least one ASCII digit. */
  predicate IsNumeral(s: string) {
    Unsigned(s) != [] && AllDigits(Unsigned(s))
  }

  /** The number a numeral denotes, of any size. */
  function NumeralValue(s: string): int
    requires IsNumeral(s)
  {
    if s[0] == '-' then -(Value(Unsigned(s)) as int) else Value(Unsigned(s))
  }

  /**
   * `Integer.parseInt(s)`: an optional `+` or `-`, then at least one ASCII digit,
   * and a value inside the `int` range; anything else is a `NumberFormatException`,
   * here `None`.
   */
  function ParseInt(s: string): (r: Option<Int32>)
    ensures r.Some? <==> IsNumeral(s) && MinInt <= NumeralValue(s) <= MaxInt
    ensures r.Some? ==> r.value == NumeralValue(s)
    ensures r.Some? ==> s != [] && AllDigits(s[1..]) && (IsDigit(s[0]) || s[0] == '-' || s[0] == '+')
    ensures s != [] && AllDigits(s) && Value(s) <= MaxInt ==> r == Some(Value(s))
  {
    if s == [] then None
    else
      var digits := if s[0] == '-' || s[0] == '+' then s[1..] else s;
      if digits == [] || !AllDigits(digits) then None
      else
        var v: int := if s[0] == '-' then -(Value(digits) as int) else Value(digits);
        if MinInt <= v <= MaxInt then Some(v) else None
  }

  /**
   * The decimal text of a number past the `int` range is rejected, however well
   * formed: above `MaxInt` unsigned, below `MinInt` with a minus sign.
   */
  lemma ParseIntOverflow(n: nat)
    requires n > MaxInt
    ensures ParseInt(Decimal(n)).None?
    ensures n > -MinInt ==> ParseInt("-" + Decimal(n)).None?
  {
    var d := Decimal(n);
    ValueOfDecimal(n);
    assert Unsigned(d) == d;
    assert Unsigned("-" + d) == d;
  }

  lemma {:induction false} ValueOfDecimal(n: nat)
    ensures Value(Decimal(n)) == n
  {
    if n >= 10 {
      var d := Decimal(n);
      assert d[..|d| - 1] == Decimal(n / 10);
      ValueOfDecimal(n / 10);
    }
  }

  /** `Integer.parseInt(String.valueOf(n)) == n` for every `int`. */
  lemma ParseIntValueOf(n: Int32)
    ensures ParseInt(ValueOf(n)) == Some(n)
  {
    if n < 0 {
      var d := Decimal(-(n as int));
      ValueOfDecimal(-(n as int));
      assert ("-" + d)[1..] == d;
    } else {
      ValueOfDecimal(n);
    }
  }
}
