/** Decimal numerals of signed 64-bit integers: strconv.FormatInt and strconv.ParseInt. */
module Numerals {
  import opened Options
  import opened Int64

  predicate IsDigit(c: char) { '0' <= c <= '9' }

  function DigitChar(d: nat): (c: char)
    requires d < 10
    ensures IsDigit(c) && (c as int) - ('0' as int) == d
  {
    ('0' as int + d) as char
  }

  function DigitValue(c: char): nat
    requires IsDigit(c)
  {
    (c as int) - ('0' as int)
  }

  function FormatNat(n: nat): (s: string)
    ensures s != "" && forall c :: c in s ==> IsDigit(c)
  {
    if n < 10 then [DigitChar(n)] else FormatNat(n / 10) + [DigitChar(n % 10)]
  }

  function FormatInt(n: int): string { if n < 0 then "-" + FormatNat(-n) else FormatNat(n) }

  /** The value of a run of digits, if it is one. */
  function DigitsValue(s: string): Option<nat> {
    if s == "" then None
    else
      var last := s[|s| - 1];
      if !IsDigit(last) then None
      else if |s| == 1 then Some(DigitValue(last))
      else match DigitsValue(s[..|s| - 1])
        case None => None
        case Some(v) => Some(10 * v + DigitValue(last))
  }

  /** An optional sign, then digits, within 64 bits. */
  function ParseInt(s: string): (r: Option<int>)
    ensures r.Some? ==> Representable(r.value)
  {
    var sign := if s != "" && s[0] == '-' then -1 else 1;
    var digits := if s != "" && (s[0] == '-' || s[0] == '+') then s[1..] else s;
    match DigitsValue(digits)
    case None => None
    case Some(v) => if Representable(sign * v) then Some(sign * v) else None
  }

  lemma {:induction false} DigitsRoundTrip(n: nat)
    ensures DigitsValue(FormatNat(n)) == Some(n)
  {
    if n >= 10 {
      DigitsRoundTrip(n / 10);
      var s := FormatNat(n);
      assert s[..|s| - 1] == FormatNat(n / 10);
    }
  }

  /** Printing a 64-bit integer and parsing it back gives the integer. */
  lemma IntRoundTrip(n: int)
    requires Representable(n)
    ensures ParseInt(FormatInt(n)) == Some(n)
  {
    DigitsRoundTrip(if n < 0 then -n else n);
    var s := FormatInt(n);
    if n < 0 {
      assert s[1..] == FormatNat(-n);
    } else {
      assert s[0] in s;
    }
  }

  predicate Digits(d: string) { d != "" && forall i :: 0 <= i < |d| ==> '0' <= d[i] <= '9' }

  /** A run of digits has a value, the next digit weighs one, those before it ten times as much, and leading zeros
      nothing; other text has none. */
  lemma {:induction false} DigitsValueExactly(d: string, c: char)
    ensures DigitsValue(d).Some? <==> Digits(d)
    ensures '0' <= c <= '9' ==> DigitsValue([c]) == Some((c as int) - 48)
    ensures Digits(d) && '0' <= c <= '9' ==> DigitsValue(d + [c]) == Some(10 * DigitsValue(d).value + (c as int) - 48)
    ensures Digits(d) ==> DigitsValue("0" + d) == DigitsValue(d)
  {
    assert (d + [c])[..|d|] == d;
    if |d| > 1 {
      DigitsValueExactly(d[..|d| - 1], c);
      assert ("0" + d)[..|d|] == "0" + d[..|d| - 1];
    } else if |d| == 1 {
      assert d == [d[0]] && ("0" + d)[..1] == "0";
    }
  }

  lemma SignsRead(d: string)
    requires Digits(d)
    ensures ParseInt("+" + d) == ParseInt(d)
    ensures DigitsValue(d).Some? ==> ParseInt("-" + d) == Signed(0 - DigitsValue(d).value)
  {
    var plus, minus := "+" + d, "-" + d;
    assert plus[1..] == d && minus[1..] == d && plus[0] == '+' && minus[0] == '-' && '0' <= d[0];
  }

  /** What is read as an integer: digits, with or without a sign in front, whose value is within 64 bits. */
  lemma ParseIntExactly(d: string)
    requires Digits(d)
    ensures DigitsValue(d).Some?
    ensures ParseInt(d) == Signed(DigitsValue(d).value) && ParseInt("+" + d) == Signed(DigitsValue(d).value)
    ensures ParseInt("-" + d) == Signed(0 - DigitsValue(d).value)
  {
    DigitsValueExactly(d, '0');
    SignsRead(d);
    assert '0' <= d[0];
  }

  function Signed(v: int): Option<int> {
    if -0x8000_0000_0000_0000 <= v <= 0x7FFF_FFFF_FFFF_FFFF then Some(v) else None
  }

  lemma OnlyNumerals(s: string)
    requires ParseInt(s).Some?
    ensures Digits(s) || (s != "" && (s[0] == '-' || s[0] == '+') && Digits(s[1..]))
  {
    DigitsValueExactly(if s != "" && (s[0] == '-' || s[0] == '+') then s[1..] else s, '0');
  }
}
