/** Decimal numbers as text: the digits of a number, what digits are worth, and how many there are. */
module Decimals {
  import opened Bytes

  const PLUS: byte := 0x2b
  const MINUS: byte := 0x2d
  const DOT: byte := 0x2e
  const ZERO: byte := 0x30

  predicate IsDigit(b: byte) {
    ZERO <= b <= ZERO + 9
  }

  function Digits(n: nat): (r: bytes)
    ensures |r| >= 1
    ensures forall i :: 0 <= i < |r| ==> IsDigit(r[i])
  {
    if n < 10 then [ZERO + n] else Digits(n / 10) + [ZERO + n % 10]
  }

  function DigitValue(b: byte): nat {
    if IsDigit(b) then b - ZERO else 0
  }

  function DigitsValue(s: bytes): nat {
    if s == [] then 0 else DigitsValue(s[..|s| - 1]) * 10 + DigitValue(s[|s| - 1])
  }

  lemma {:induction false} ValueOfDigits(n: nat)
    ensures DigitsValue(Digits(n)) == n
    decreases n
  {
    if n < 10 {
      assert Digits(n)[..0] == [];
    } else {
      ValueOfDigits(n / 10);
      assert Digits(n)[..|Digits(n)| - 1] == Digits(n / 10);
    }
  }

  function Pow10(k: nat): (r: nat)
    ensures r > 0
  {
    if k == 0 then 1 else 10 * Pow10(k - 1)
  }

  lemma {:induction false} DigitsLength(n: nat, k: nat)
    requires k > 0 && n < Pow10(k)
    ensures |Digits(n)| <= k
    decreases k
  {
    if n < 10 {
    } else {
      DigitsLength(n / 10, k - 1);
    }
  }

  // ---- decimal notation, without the functions above ----

  /** The byte is the digit `d` of the text "0123456789". */
  predicate DigitIs(b: byte, d: nat) {
    d < 10 && b == "0123456789"[d] as int
  }

  /** The text is `n` in decimal notation: the digit at every place is that of `n` at its power of ten. */
  ghost predicate Numeral(t: bytes, n: nat) {
    n < Pow10(|t|) && forall k :: 0 <= k < |t| ==> DigitIs(t[k], n / Pow10(|t| - 1 - k) % 10)
  }

  /** The usual notation: no zero in front of another digit. */
  ghost predicate Notation(t: bytes, n: nat) {
    Numeral(t, n) && t != [] && (t[0] == '0' as int ==> |t| == 1)
  }

  lemma Powers(m: nat)
    ensures Pow10(0) == 1 && Pow10(m + 1) == 10 * Pow10(m)
  {}

  lemma SmallMultiple(x: int, b: int)
    requires -b < x * b < b
    ensures x == 0
  {}

  lemma DropDigit(n: nat, d: nat, p: nat)
    requires d < 10 && p > 0
    ensures (n * 10 + d) / (10 * p) == n / p
  {
    var q, r, e := n / p, n % p, (n * 10 + d) / (10 * p);
    assert n * 10 + d == q * (10 * p) + (r * 10 + d);
    assert (e - q) * (10 * p) == r * 10 + d - (n * 10 + d) % (10 * p);
    SmallMultiple(e - q, 10 * p);
  }

  lemma OneMoreDigit(u: bytes, n: nat, b: byte, d: nat)
    requires Numeral(u, n) && DigitIs(b, d)
    ensures Numeral(u + [b], n * 10 + d)
  {
    assert d < 10;
    hide Pow10, DigitIs;
    var t := u + [b];
    Powers(|u|);
    forall k | 0 <= k < |t| ensures DigitIs(t[k], (n * 10 + d) / Pow10(|t| - 1 - k) % 10) {
      if k < |u| {
        Powers(|u| - 1 - k);
        DropDigit(n, d, Pow10(|u| - 1 - k));
        assert t[k] == u[k];
      }
    }
  }

  lemma DigitOf(b: byte)
    requires IsDigit(b)
    ensures DigitIs(b, DigitValue(b)) && DigitValue(b) < 10
  {}

  /** What digits are worth is the number that they denote. */
  lemma {:induction false} ValueIsNumeral(t: bytes)
    requires forall k :: 0 <= k < |t| ==> IsDigit(t[k])
    ensures Numeral(t, DigitsValue(t))
    decreases |t|
  {
    hide Numeral, IsDigit, DigitIs, DigitValue;
    if t == [] {
      assert Numeral([], 0) by { NoDigits(); }
    } else {
      var u := t[..|t| - 1];
      ValueIsNumeral(u);
      DigitOf(t[|u|]);
      assert t == u + [t[|u|]];
      OneMoreDigit(u, DigitsValue(u), t[|u|], DigitValue(t[|u|]));
    }
  }

  lemma NoDigits()
    ensures Numeral([], 0)
  {}

  /** The digits of a number are its decimal notation, with no zero in front of another digit, and the shortest one. */
  lemma {:induction false} DigitsNotation(n: nat)
    ensures Notation(Digits(n), n)
    ensures Digits(n)[0] == '0' as int ==> n == 0 && Digits(n) == ['0' as int]
    ensures forall t :: Numeral(t, n) && t != [] ==> |Digits(n)| <= |t|
    decreases n
  {
    ValueOfDigits(n);
    ValueIsNumeral(Digits(n));
    forall t | Numeral(t, n) && t != [] ensures |Digits(n)| <= |t| {
      DigitsLength(n, |t|);
    }
    if n >= 10 {
      DigitsNotation(n / 10);
    }
  }
}
