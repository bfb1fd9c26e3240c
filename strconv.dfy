/**
 * Decimal formatting and parsing as Go's `strconv.Itoa` and `strconv.Atoi` (and
 * `fmt`'s `%d`) do them, on unbounded integers.
 */
module Strconv {
  import opened Options

  predicate IsDigit(c: char) {
    '0' <= c <= '9'
  }

  predicate AllDigits(s: seq<char>) {
    forall i :: 0 <= i < |s| ==> IsDigit(s[i])
  }

  function DigitChar(d: nat): (c: char)
    requires d < 10
    ensures IsDigit(c) && c as int - '0' as int == d
  {
    ('0' as int + d) as char
  }

  /** The decimal digits of n, most significant first, with no leading zero. */
  function NatToDecimal(n: nat): (r: seq<char>)
    ensures |r| >= 1 && AllDigits(r)
    ensures |r| > 1 ==> r[0] != '0'
  {
    if n < 10 then [DigitChar(n)] else NatToDecimal(n / 10) + [DigitChar(n % 10)]
  }

  /** strconv.Itoa(n), also what fmt prints for %d. */
  function Itoa(n: int): (r: seq<char>)
    ensures |r| >= 1
    ensures r[0] == '-' <==> n < 0
    ensures var digits := if n < 0 then r[1..] else r;
      |digits| >= 1 && AllDigits(digits) && (|digits| > 1 ==> digits[0] != '0')
  {
    if n < 0 then "-" + NatToDecimal(-n) else NatToDecimal(n)
  }

  /** The value of a run of decimal digits. */
  function DigitsValue(s: seq<char>): nat
    requires AllDigits(s)
  {
    if |s| == 0 then 0 else DigitsValue(s[..|s| - 1]) * 10 + (s[|s| - 1] as int - '0' as int)
  }

  /**
   * strconv.Atoi(s) for results that fit: an optional '+' or '-', then one or
   * more decimal digits; anything else is an error (None).
   */
  function Atoi(s: seq<char>): (r: Option<int>)
    ensures r.Some? ==> AllDigits(s) || (|s| >= 2 && (s[0] == '+' || s[0] == '-') && AllDigits(s[1..]))
    ensures r.Some? && r.value < 0 ==> |s| > 0 && s[0] == '-'
    ensures AllDigits(s) && |s| >= 1 ==> r == Some(DigitsValue(s))
  {
    var digits := if |s| > 0 && (s[0] == '-' || s[0] == '+') then s[1..] else s;
    if |digits| == 0 || !AllDigits(digits) then None
    else
      var magnitude: int := DigitsValue(digits);
      Some(if s[0] == '-' then -magnitude else magnitude)
  }

  /**
   * Which texts Atoi accepts and what it reads: one or more digits after an
   * optional '+' or '-', read as their decimal value, negated after '-'.
   */
  lemma {:induction false} AtoiSpec(s: seq<char>)
    ensures Atoi(s).Some? <==>
      (|s| >= 1 && AllDigits(s)) || (|s| >= 2 && (s[0] == '+' || s[0] == '-') && AllDigits(s[1..]))
    ensures |s| >= 2 && s[0] == '+' && AllDigits(s[1..]) ==> Atoi(s) == Some(DigitsValue(s[1..]))
    ensures |s| >= 2 && s[0] == '-' && AllDigits(s[1..]) ==> Atoi(s).Some? && Atoi(s).value == -(DigitsValue(s[1..]) as int)
  {
  }

  /** Reading back the digits NatToDecimal writes gives the number. */
  lemma {:induction false} DigitsValueOfDecimal(n: nat)
    ensures DigitsValue(NatToDecimal(n)) == n
  {
    if n >= 10 {
      DigitsValueOfDecimal(n / 10);
      var s := NatToDecimal(n);
      assert s[..|s| - 1] == NatToDecimal(n / 10);
    }
  }

  /** Atoi inverts Itoa: a number printed in decimal parses back to itself. */
  lemma {:induction false} AtoiItoa(n: int)
    ensures Atoi(Itoa(n)) == Some(n)
  {
    if n < 0 {
      DigitsValueOfDecimal(-n);
      assert Itoa(n)[1..] == NatToDecimal(-n);
    } else {
      DigitsValueOfDecimal(n);
    }
  }
}
