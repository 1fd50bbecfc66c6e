/** Decimal text for integers, as Rust's `i32::to_string` writes it and
    `str::parse::<i32>` reads it back: an optional sign, then ASCII digits;
    parsing fails on empty text, a lone sign, any other character, and on a
    value outside the 32-bit signed range. */
module Decimal {
  import opened Common

  predicate IsDigit(c: char) { '0' <= c <= '9' }

  predicate AllDigits(s: string)
  {
    forall i | 0 <= i < |s| :: IsDigit(s[i])
  }

  function DigitValue(c: char): nat
    requires IsDigit(c)
  {
    (c as int - '0' as int) as nat
  }

  function DigitChar(d: nat): (c: char)
    requires d < 10
    ensures IsDigit(c) && DigitValue(c) == d
  {
    ('0' as int + d) as char
  }

  /** The value of a digit string, most significant digit first. */
  function DigitsValue(s: string): nat
    requires AllDigits(s)
  {
    if |s| == 0 then 0 else DigitsValue(s[..|s| - 1]) * 10 + DigitValue(s[|s| - 1])
  }

  /** Shortest decimal digits of a natural number: no leading zero except
      in "0" itself. */
  function NatDigits(n: nat): (s: string)
    ensures |s| > 0 && AllDigits(s)
    ensures s[0] == '0' <==> n == 0
    ensures n == 0 ==> s == "0"
  {
    if n < 10 then [DigitChar(n)] else NatDigits(n / 10) + [DigitChar(n % 10)]
  }

  /** `to_string` of a signed integer: a minus sign exactly for a negative
      value, then the shortest digits of its magnitude. */
  function Show(n: int): (s: string)
    ensures |s| > 0
    ensures s[0] == '-' <==> n < 0
    ensures var d := if n < 0 then s[1..] else s;
      |d| > 0 && AllDigits(d) && DigitsValue(d) == (if n < 0 then -n else n)
      && (d[0] == '0' ==> d == "0")
  {
    NatDigitsValue(if n < 0 then -n else n);
    if n < 0 then "-" + NatDigits(-n) else NatDigits(n)
  }

  /** The text `parse` accepts as an integer: an optional sign, then at
      least one ASCII digit. */
  predicate SignedDecimal(s: string)
  {
    |s| > 0 && (AllDigits(s) || ((s[0] == '+' || s[0] == '-') && |s| > 1 && AllDigits(s[1..])))
  }

  /** `parse` for an unbounded signed integer: `[+-]?[0-9]+`. */
  function ParseInt(s: string): (r: Option<int>)
    ensures r.Some? <==> SignedDecimal(s)
    ensures r.Some? && AllDigits(s) ==> r.value == DigitsValue(s)
    ensures r.Some? && s[0] == '+' ==> r.value == DigitsValue(s[1..])
    ensures r.Some? && s[0] == '-' ==> r.value == -(DigitsValue(s[1..]) as int)
  {
    if |s| == 0 then None
    else if s[0] == '+' || s[0] == '-' then
      if |s| == 1 || !AllDigits(s[1..]) then None
      else if s[0] == '-' then Some(-(DigitsValue(s[1..]) as int))
      else Some(DigitsValue(s[1..]))
    else if AllDigits(s) then Some(DigitsValue(s))
    else None
  }

  /** `parse::<i32>`: the text must denote a value that fits in 32 bits. */
  function ParseI32(s: string): (r: Option<int32>)
    ensures r.Some? <==> SignedDecimal(s) && I32Min <= ParseInt(s).value <= I32Max
    ensures r.Some? ==> r.value == ParseInt(s).value
  {
    match ParseInt(s)
    case Some(v) => if I32Min <= v <= I32Max then Some(v) else None
    case None => None
  }

  lemma {:induction false} NatDigitsValue(n: nat)
    ensures DigitsValue(NatDigits(n)) == n
    decreases n
  {
    var s := NatDigits(n);
    if n >= 10 {
      NatDigitsValue(n / 10);
      assert s[..|s| - 1] == NatDigits(n / 10);
    }
  }

  /** Reading back what `to_string` wrote gives the same integer. */
  lemma ShowParse(n: int)
    ensures ParseInt(Show(n)) == Some(n)
  {
    var s := Show(n);
    if n < 0 {
      assert s[1..] == NatDigits(-n);
      NatDigitsValue(-n);
    } else {
      NatDigitsValue(n);
      assert s[0] != '-' && s[0] != '+';
    }
  }

  lemma ShowParseI32(n: int32)
    ensures ParseI32(Show(n)) == Some(n)
  {
    ShowParse(n);
  }

  /** Decimal text never contains a colon. */
  lemma ShowHasNoColon(n: int)
    ensures ':' !in Show(n)
  {
    var s := Show(n);
    if n < 0 {
      assert s == "-" + NatDigits(-n);
    }
  }

  /** A non-empty digit string parses, as an unbounded integer, to its value. */
  lemma ParseDigits(s: string)
    requires |s| > 0 && AllDigits(s)
    ensures ParseInt(s) == Some(DigitsValue(s))
  {
    assert IsDigit(s[0]);
  }

  lemma {:induction false} DigitsValueAppend(s: string, c: char)
    requires AllDigits(s) && IsDigit(c)
    ensures AllDigits(s + [c])
    ensures DigitsValue(s + [c]) == DigitsValue(s) * 10 + DigitValue(c)
  {
    assert (s + [c])[..|s + [c]| - 1] == s;
  }

  /** Appending digits never lowers the value of a digit string. */
  lemma {:induction false} DigitsValueAtLeastPrefix(s: string, k: nat)
    requires AllDigits(s) && k <= |s|
    ensures DigitsValue(s[..k]) <= DigitsValue(s)
    decreases |s|
  {
    if k < |s| {
      var init := s[..|s| - 1];
      assert init[..k] == s[..k];
      DigitsValueAtLeastPrefix(init, k);
    } else {
      assert s[..k] == s;
    }
  }
}
