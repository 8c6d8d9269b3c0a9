/** Decimal numerals as strconv and fmt print and read them. */
module Numerals {
  import opened Common

  predicate IsDigit(c: char) {
    '0' <= c <= '9'
  }

  lemma Digits(c: char)
    ensures IsDigit(c) <==> 48 <= c as int <= 57
  {
  }

  predicate AllDigits(s: string) {
    forall i :: 0 <= i < |s| ==> IsDigit(s[i])
  }

  function Digit(d: int): char
    requires 0 <= d < 10
  {
    '0' + d as char
  }

  /** strconv.Itoa, and fmt's %d. */
  function Decimal(n: int): (s: string)
    ensures s != "" && (n >= 0 ==> AllDigits(s))
    decreases if n < 0 then 1 else 0, if n < 0 then 0 else n
  {
    if n < 0 then "-" + Decimal(-n)
    else if n < 10 then [Digit(n)]
    else Decimal(n / 10) + [Digit(n % 10)]
  }

  /** The number a decimal numeral stands for. */
  function Value(s: string): int {
    if s == "" then 0
    else if s[0] == '-' then -Value(s[1..])
    else Value(s[..|s| - 1]) * 10 + (s[|s| - 1] as int - '0' as int)
  }

  lemma FirstDigit(n: int)
    ensures n >= 0 ==> Decimal(n)[0] != '-'
  {
  }

  lemma {:induction false} DecimalReadsBack(n: int)
    ensures Value(Decimal(n)) == n
    decreases if n < 0 then 1 else 0, if n < 0 then 0 else n
  {
    hide AllDigits;
    FirstDigit(n);
    if n < 0 {
      DecimalReadsBack(-n);
      assert Decimal(n)[1..] == Decimal(-n);
    } else if n >= 10 {
      DecimalReadsBack(n / 10);
      var s := Decimal(n);
      assert s[..|s| - 1] == Decimal(n / 10);
    } else {
      assert Decimal(n)[..0] == "";
    }
  }

  lemma DecimalHasNoBar(n: int)
    ensures '|' !in Decimal(n)
  {
    assert AllDigits(Decimal(if n < 0 then -n else n));
  }

  const MAX_INT64: int := 0x7fff_ffff_ffff_ffff

  /** strconv.ParseInt in base 10 and 64 bits: an optional sign, then digits only. */
  function ParseInt(s: string): Option<int> {
    var digits := if s != "" && s[0] in {'+', '-'} then s[1..] else s;
    if digits == "" || !AllDigits(digits) then None
    else
      var v := if s[0] == '-' then -Value(digits) else Value(digits);
      if -MAX_INT64 - 1 <= v <= MAX_INT64 then Some(v) else None
  }

  lemma {:induction false} NumeralIsNatural(s: string)
    requires AllDigits(s)
    ensures Value(s) >= 0
  {
    if s != "" {
      assert IsDigit(s[0]) && IsDigit(s[|s| - 1]);
      NumeralIsNatural(s[..|s| - 1]);
    }
  }

  lemma UnsignedNumeral(s: string)
    requires s != "" && AllDigits(s)
    ensures ParseInt(s) == if Value(s) <= 0x7fff_ffff_ffff_ffff then Some(Value(s)) else None
  {
    hide Value;
    NumeralIsNatural(s);
    assert IsDigit(s[0]);
  }

  lemma SignedNumeral(s: string)
    requires |s| > 1 && AllDigits(s[1..])
    ensures s[0] == '+' ==> ParseInt(s) == if Value(s[1..]) <= 0x7fff_ffff_ffff_ffff then Some(Value(s[1..])) else None
    ensures s[0] == '-' ==> ParseInt(s) == if Value(s[1..]) <= 0x8000_0000_0000_0000 then Some(-Value(s[1..])) else None
  {
    hide Value;
    NumeralIsNatural(s[1..]);
  }

  /** Nothing is an integer but digits, alone or after one sign. */
  lemma NotANumeral(s: string)
    requires s == "" || (if s[0] in {'+', '-'} then |s| == 1 || !AllDigits(s[1..]) else !AllDigits(s))
    ensures ParseInt(s) == None
  {
    hide Value;
  }

  /** A printed id is read back as that id. */
  lemma PrintedIsRead(n: int)
    requires 0 <= n <= MAX_INT64
    ensures ParseInt(Decimal(n)) == Some(n)
  {
    DecimalReadsBack(n);
    assert IsDigit(Decimal(n)[0]);
  }
}
