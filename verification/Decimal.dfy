/** Decimal numerals as printf("%ld") writes them and atol() reads them. */
module Decimal {
  import opened Text

  function Digit(d: nat): Byte
    requires d < 10
  {
    (48 + d) as char
  }

  predicate IsDigit(c: Byte) {
    48 <= c as int <= 57
  }

  function DecNat(n: nat): (s: Str)
    ensures s != [] && forall i :: 0 <= i < |s| ==> IsDigit(s[i])
  {
    if n < 10 then [Digit(n)] else DecNat(n / 10) + [Digit(n % 10)]
  }

  function Dec(n: int): (s: Str)
    ensures s != [] && (IsDigit(s[0]) || (s[0] == '-' && |s| > 1))
    ensures forall i :: 0 <= i < |s| ==> IsDigit(s[i]) || s[i] == '-'
  {
    if n < 0 then ['-'] + DecNat(-n) else DecNat(n)
  }

  /** The value of the digits at the front of a text, on top of those read before. */
  function DigitsFrom(acc: nat, s: Str): nat
    decreases |s|
  {
    if s == [] || !IsDigit(s[0]) then acc else DigitsFrom(10 * acc + (s[0] as int - 48), s[1..])
  }

  predicate IsSpace(c: Byte) {
    c == ' ' || 9 <= c as int <= 13
  }

  function Atol(s: Str): int
    decreases |s|
  {
    if s == [] then 0
    else if IsSpace(s[0]) then Atol(s[1..])
    else if s[0] == '-' then 0 - DigitsFrom(0, s[1..])
    else if s[0] == '+' then DigitsFrom(0, s[1..])
    else DigitsFrom(0, s)
  }

  lemma {:induction false} DigitsSplit(acc: nat, s: Str, t: Str)
    requires forall i :: 0 <= i < |s| ==> IsDigit(s[i])
    ensures DigitsFrom(acc, s + t) == DigitsFrom(DigitsFrom(acc, s), t)
    decreases |s|
  {
    if s == [] {
      assert s + t == t;
    } else {
      assert (s + t)[1..] == s[1..] + t;
      DigitsSplit(10 * acc + (s[0] as int - 48), s[1..], t);
    }
  }

  lemma {:induction false} DigitsOfDec(n: nat, rest: Str)
    requires rest == [] || !IsDigit(rest[0])
    ensures DigitsFrom(0, DecNat(n) + rest) == n
  {
    DigitsSplit(0, DecNat(n), rest);
    DecDigits(n);
  }

  lemma {:induction false} DecDigits(n: nat)
    ensures DigitsFrom(0, DecNat(n)) == n
  {
    if n >= 10 {
      DecDigits(n / 10);
      DigitsSplit(0, DecNat(n / 10), [Digit(n % 10)]);
    }
  }

  /** Reading back what was printed, whatever follows the numeral. */
  lemma AtolOfDec(n: int, rest: Str, s: Str)
    requires rest == [] || !IsDigit(rest[0])
    requires s == Dec(n) + rest
    ensures Atol(s) == n
  {
    if n < 0 {
      var d := DecNat(-n);
      assert Dec(n) == ['-'] + d;
      assert s[0] == '-' && s[1..] == d + rest;
      AtolOfMinus(s);
      DigitsOfDec(-n, rest);
    } else {
      AtolOfDigits(s);
      DigitsOfDec(n, rest);
    }
  }

  lemma AtolOfMinus(s: Str)
    requires s != [] && s[0] == '-'
    ensures Atol(s) == 0 - DigitsFrom(0, s[1..])
  {}

  lemma AtolOfDigits(s: Str)
    requires s != [] && IsDigit(s[0])
    ensures Atol(s) == DigitsFrom(0, s)
  {}

  /** A long has at most twenty characters. */
  lemma {:induction false} DecLength(n: nat, k: nat, bound: nat)
    requires k > 0 && bound == Pow10(k) && n < bound
    ensures |DecNat(n)| <= k
    decreases k
  {
    if n >= 10 {
      assert bound == 10 * Pow10(k - 1);
      DecLength(n / 10, k - 1, Pow10(k - 1));
    }
  }

  function Pow10(k: nat): (p: nat)
    ensures p > 0
  {
    if k == 0 then 1 else 10 * Pow10(k - 1)
  }

  lemma LongLength(n: int)
    requires -0x8000_0000_0000_0000 <= n < 0x8000_0000_0000_0000
    ensures |Dec(n)| <= 20
  {
    assert Pow10(10) == 10_000_000_000;
    assert Pow10(19) == 10_000_000_000_000_000_000;
    DecLength(if n < 0 then -n else n, 19, Pow10(19));
  }
}
