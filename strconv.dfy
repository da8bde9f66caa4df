/** A model of Go's `strconv.Atoi` for a 64-bit `int`, and decimal rendering of naturals. */
module StrConv {
  import opened Options

  const MaxInt: int := 0x7fff_ffff_ffff_ffff
  const MinInt: int := -0x8000_0000_0000_0000

  predicate IsDigit(c: char) { '0' <= c <= '9' }

  predicate AllDigits(s: string) { forall i | 0 <= i < |s| :: IsDigit(s[i]) }

  function DigitValue(c: char): (d: nat)
    requires IsDigit(c)
    ensures d < 10
  {
    (c as int) - ('0' as int)
  }

  function DigitChar(d: nat): (c: char)
    requires d < 10
    ensures IsDigit(c) && DigitValue(c) == d
  {
    (d + '0' as int) as char
  }

  /** The value of a string of decimal digits, most significant first ("" reads as 0). */
  function DigitsValue(s: string): nat
    requires AllDigits(s)
  {
    if s == [] then 0 else DigitsValue(s[..|s| - 1]) * 10 + DigitValue(s[|s| - 1])
  }

  /** `strconv.Atoi`: an optional sign, then one or more ASCII digits, and the value must fit
      a 64-bit signed integer; anything else is an error (`None`). */
  function Atoi(s: string): (r: Option<int>)
    ensures r.Some? ==> MinInt <= r.value <= MaxInt
    ensures r.Some? ==> |s| > 0 && (IsDigit(s[0]) || (|s| > 1 && (s[0] == '+' || s[0] == '-')))
    ensures r.Some? ==> forall i | 0 < i < |s| :: IsDigit(s[i])
    ensures r.Some? && IsDigit(s[0]) ==> AllDigits(s) && r.value == DigitsValue(s)
    ensures r.Some? && s[0] == '+' ==> AllDigits(s[1..]) && r.value == DigitsValue(s[1..])
    ensures r.Some? && s[0] == '-' ==> AllDigits(s[1..]) && r.value == 0 - DigitsValue(s[1..])
    ensures r.Some? && s[0] != '-' ==> 0 <= r.value
  {
    var signed := |s| > 0 && (s[0] == '+' || s[0] == '-');
    var body := if signed then s[1..] else s;
    if body == [] || !AllDigits(body) then None
    else
      var n: int := if signed && s[0] == '-' then 0 - (DigitsValue(body) as int) else DigitsValue(body);
      if MinInt <= n <= MaxInt then Some(n) else None
  }

  /** A non-empty string of digits whose value fits converts to that value. */
  lemma AtoiOfDigits(s: string)
    requires s != [] && AllDigits(s) && DigitsValue(s) <= MaxInt
    ensures Atoi(s) == Some(DigitsValue(s))
  {
    assert IsDigit(s[0]);
  }

  /** A leading '+' changes nothing. */
  lemma AtoiPlusSign(d: string)
    requires d != [] && AllDigits(d)
    ensures Atoi("+" + d) == Atoi(d)
  {
    assert ("+" + d)[1..] == d;
    AtoiOfDigitsOrRange(d);
  }

  /** A leading '-' negates, and the range reaches one further below zero than above. */
  lemma AtoiMinusSign(d: string)
    requires d != [] && AllDigits(d)
    ensures Atoi("-" + d) == if DigitsValue(d) <= -MinInt then Some(0 - DigitsValue(d)) else None
  {
    assert ("-" + d)[1..] == d;
  }

  /** An unsigned digit string converts exactly when its value fits. */
  lemma AtoiOfDigitsOrRange(s: string)
    requires s != [] && AllDigits(s)
    ensures Atoi(s) == if DigitsValue(s) <= MaxInt then Some(DigitsValue(s)) else None
  {
    assert IsDigit(s[0]);
  }

  /** The shortest decimal rendering of `n`. */
  function NatToDigits(n: nat): (s: string)
    ensures s != [] && AllDigits(s) && DigitsValue(s) == n
  {
    if n < 10 then [DigitChar(n)]
    else
      var prefix := NatToDigits(n / 10);
      var s := prefix + [DigitChar(n % 10)];
      assert s[..|s| - 1] == prefix;
      s
  }

  /** Rendering then converting gives the number back, for every `n` that fits. */
  lemma AtoiOfNatToDigits(n: nat)
    requires n <= MaxInt
    ensures Atoi(NatToDigits(n)) == Some(n)
  {
    AtoiOfDigits(NatToDigits(n));
  }
}
