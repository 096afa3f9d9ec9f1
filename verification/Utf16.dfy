/**
  The \uXXXX literals of JSON strings (section 7 of RFC 8259), their UTF-8 form, and an independent
  UTF-8 decoder (section 3 of RFC 3629) against which the encoder is proved.
 */
module Utf16 {
  import opened Bytes
  import opened Decimals
  import opened JsonText

  function HexValue(b: byte): (r: Option<nat>)
    ensures r.Some? ==> r.value < 16
  {
    if ZERO <= b <= ZERO + 9 then Some(b - ZERO)
    else if 0x41 <= b <= 0x46 then Some(10 + (b - 0x41))
    else if 0x61 <= b <= 0x66 then Some(10 + (b - 0x61))
    else None
  }

  /** Four hexadecimal digits; like parse_hex4, a malformed digit makes the whole result 0. */
  function Hex4(c: bytes, i: nat): (r: nat)
    requires i + 4 <= |c|
    ensures r < 0x1_0000
  {
    match (HexValue(c[i]), HexValue(c[i + 1]), HexValue(c[i + 2]), HexValue(c[i + 3]))
    case (Some(a), Some(b), Some(d), Some(e)) => a * 0x1000 + b * 0x100 + d * 0x10 + e
    case _ => 0
  }

  predicate IsHighSurrogate(u: nat) { 0xD800 <= u <= 0xDBFF }

  predicate IsLowSurrogate(u: nat) { 0xDC00 <= u <= 0xDFFF }

  /** The Unicode scalar values: code points that are not surrogates. */
  predicate IsScalar(cp: nat) {
    cp <= 0x10FFFF && !IsHighSurrogate(cp) && !IsLowSurrogate(cp)
  }

  /** What one literal stands for: a code point and the number of input bytes it takes. */
  datatype Literal = BadLiteral | Literal(codepoint: nat, consumed: nat)

  /** The code point of a surrogate pair: the low ten bits of each unit, above the basic plane. */
  function FromSurrogates(first: nat, second: nat): (r: nat)
    ensures 0x1_0000 <= r <= 0x10FFFF
  {
    0x1_0000 + (first % 0x400) * 0x400 + second % 0x400
  }

  /** The literal whose backslash is at `i`, in text that ends before `end`. */
  function ReadLiteral(c: bytes, i: nat, end: nat): (r: Literal)
    requires end <= |c|
    ensures r.Literal? ==> (r.consumed == 6 || r.consumed == 12) && i + r.consumed <= end
    ensures r.Literal? ==> IsScalar(r.codepoint) && (r.consumed == 12 <==> r.codepoint >= 0x1_0000)
  {
    if i + 6 > end then BadLiteral
    else
      var first := Hex4(c, i + 2);
      if IsLowSurrogate(first) then BadLiteral
      else if IsHighSurrogate(first) then
        if i + 12 > end || c[i + 6] != BACKSLASH || c[i + 7] != LOWER_U then BadLiteral
        else
          var second := Hex4(c, i + 8);
          if !IsLowSurrogate(second) then BadLiteral
          else Literal(FromSurrogates(first, second), 12)
      else Literal(first, 6)
  }

  function Utf8(cp: nat): (r: bytes)
    requires cp <= 0x10FFFF
    ensures 1 <= |r| <= 4
  {
    if cp < 0x80 then [cp]
    else if cp < 0x800 then [0xC0 + cp / 0x40, 0x80 + cp % 0x40]
    else if cp < 0x1_0000 then [0xE0 + cp / 0x1000, 0x80 + cp / 0x40 % 0x40, 0x80 + cp % 0x40]
    else [0xF0 + cp / 0x4_0000, 0x80 + cp / 0x1000 % 0x40, 0x80 + cp / 0x40 % 0x40, 0x80 + cp % 0x40]
  }

  predicate IsTail(b: byte) { 0x80 <= b <= 0xBF }

  /**
    The UTF8-char grammar of section 4 of RFC 3629: a whole byte string that is one character.
    Overlong forms and surrogates are excluded by the ranges of the second byte.
   */
  function DecodeUtf8(s: bytes): (r: Option<nat>)
    ensures r.Some? ==> IsScalar(r.value)
  {
    if |s| == 1 && s[0] <= 0x7F then Some(s[0])
    else if |s| == 2 && 0xC2 <= s[0] <= 0xDF && IsTail(s[1]) then
      var a: int, b: int := s[0], s[1];
      Some((a - 0xC0) * 0x40 + (b - 0x80))
    else if |s| == 3 && 0xE0 <= s[0] <= 0xEF && IsTail(s[1]) && IsTail(s[2])
            && (s[0] == 0xE0 ==> 0xA0 <= s[1]) && (s[0] == 0xED ==> s[1] <= 0x9F) then
      var a: int, b: int, d: int := s[0], s[1], s[2];
      Some((a - 0xE0) * 0x1000 + (b - 0x80) * 0x40 + (d - 0x80))
    else if |s| == 4 && 0xF0 <= s[0] <= 0xF4 && IsTail(s[1]) && IsTail(s[2]) && IsTail(s[3])
            && (s[0] == 0xF0 ==> 0x90 <= s[1]) && (s[0] == 0xF4 ==> s[1] <= 0x8F) then
      var a: int, b: int, d: int, e: int := s[0], s[1], s[2], s[3];
      Some((a - 0xF0) * 0x4_0000 + (b - 0x80) * 0x1000 + (d - 0x80) * 0x40 + (e - 0x80))
    else None
  }

  /** The encoder's bytes decode back, for every scalar value. */
  lemma Utf8RoundTrip(cp: nat)
    requires IsScalar(cp)
    ensures DecodeUtf8(Utf8(cp)) == Some(cp)
  {
    hide DecodeUtf8;
    if cp >= 0x1_0000 {
      FourByteDigits(cp);
      FourBytesBack(cp / 0x4_0000, cp / 0x1000 % 0x40, cp / 0x40 % 0x40, cp % 0x40);
    } else if cp >= 0x800 {
      ThreeByteDigits(cp);
      ThreeBytesBack(cp / 0x1000, cp / 0x40 % 0x40, cp % 0x40);
    } else if cp >= 0x80 {
      TwoBytesBack(cp / 0x40, cp % 0x40);
    } else {
      OneByteBack(cp);
    }
  }

  lemma ThreeByteDigits(cp: nat)
    requires 0x800 <= cp < 0x1_0000 && IsScalar(cp)
    ensures var a, b, c := cp / 0x1000, cp / 0x40 % 0x40, cp % 0x40;
            cp == a * 0x1000 + b * 0x40 + c && a < 0x10 && (a == 0 ==> b >= 0x20) && (a == 0xD ==> b < 0x20)
  {
    assert cp / 0x40 == cp / 0x1000 * 0x40 + cp / 0x40 % 0x40;
  }

  lemma FourByteDigits(cp: nat)
    requires 0x1_0000 <= cp <= 0x10FFFF
    ensures var a, b, c, d := cp / 0x4_0000, cp / 0x1000 % 0x40, cp / 0x40 % 0x40, cp % 0x40;
            && cp == a * 0x4_0000 + b * 0x1000 + c * 0x40 + d && a <= 4
            && (a == 0 ==> b >= 0x10) && (a == 4 ==> b < 0x10)
  {
    assert cp / 0x1000 == cp / 0x4_0000 * 0x40 + cp / 0x1000 % 0x40;
    assert cp / 0x40 == cp / 0x1000 * 0x40 + cp / 0x40 % 0x40;
  }

  lemma OneByteBack(cp: nat)
    requires cp < 0x80
    ensures DecodeUtf8([cp]) == Some(cp)
  {}

  lemma TwoBytesBack(a: nat, b: nat)
    requires 2 <= a < 0x20 && b < 0x40
    ensures DecodeUtf8([0xC0 + a, 0x80 + b]) == Some(a * 0x40 + b)
  {}

  lemma ThreeBytesBack(a: nat, b: nat, c: nat)
    requires a < 0x10 && b < 0x40 && c < 0x40 && (a == 0 ==> b >= 0x20) && (a == 0xD ==> b < 0x20)
    ensures DecodeUtf8([0xE0 + a, 0x80 + b, 0x80 + c]) == Some(a * 0x1000 + b * 0x40 + c)
  {}

  lemma FourBytesBack(a: nat, b: nat, c: nat, d: nat)
    requires a <= 4 && b < 0x40 && c < 0x40 && d < 0x40 && (a == 0 ==> b >= 0x10) && (a == 4 ==> b < 0x10)
    ensures DecodeUtf8([0xF0 + a, 0x80 + b, 0x80 + c, 0x80 + d]) == Some(a * 0x4_0000 + b * 0x1000 + c * 0x40 + d)
  {}

  /** No other byte string decodes to the same value: the encoding is unique, hence shortest. */
  lemma Utf8Unique(s: bytes)
    requires DecodeUtf8(s).Some?
    ensures s == Utf8(DecodeUtf8(s).value)
  {
    if |s| == 3 {
      ThreeByteParts(s[0] - 0xE0, s[1] - 0x80, s[2] - 0x80);
    } else if |s| == 4 {
      FourByteParts(s[0] - 0xF0, s[1] - 0x80, s[2] - 0x80, s[3] - 0x80);
    }
  }

  lemma ThreeByteParts(a: nat, b: nat, c: nat)
    requires b < 0x40 && c < 0x40
    ensures var cp := a * 0x1000 + b * 0x40 + c;
            cp / 0x1000 == a && cp / 0x40 % 0x40 == b && cp % 0x40 == c
  {
    var cp := a * 0x1000 + b * 0x40 + c;
    assert cp / 0x40 == a * 0x40 + b;
  }

  lemma FourByteParts(a: nat, b: nat, c: nat, d: nat)
    requires b < 0x40 && c < 0x40 && d < 0x40
    ensures var cp := a * 0x4_0000 + b * 0x1000 + c * 0x40 + d;
            cp / 0x4_0000 == a && cp / 0x1000 % 0x40 == b && cp / 0x40 % 0x40 == c && cp % 0x40 == d
  {
    var cp := a * 0x4_0000 + b * 0x1000 + c * 0x40 + d;
    assert cp / 0x40 == a * 0x1000 + b * 0x40 + c;
    assert cp / 0x1000 == a * 0x40 + b;
  }

  // ---- what a literal spells ----

  /** The UTF-16 code units of a code point. */
  function Units(cp: nat): (r: seq<nat>)
    requires IsScalar(cp)
    ensures 1 <= |r| <= 2
  {
    if cp < 0x1_0000 then [cp]
    else [0xD800 + (cp - 0x1_0000) / 0x400, 0xDC00 + (cp - 0x1_0000) % 0x400]
  }

  /** The byte is the hexadecimal numeral of `d`, in lower or upper case. */
  predicate IsNumeral(b: byte, d: nat)
    requires d < 16
  {
    b == "0123456789abcdef"[d] as int || b == "0123456789ABCDEF"[d] as int
  }

  predicate IsHexDigit(b: byte) {
    exists d :: 0 <= d < 16 && IsNumeral(b, d)
  }

  predicate HexDigits(c: bytes, i: nat) {
    i + 4 <= |c| && forall k :: i <= k < i + 4 ==> IsHexDigit(c[k])
  }

  /** Four hexadecimal places, the highest first. */
  function Places(u: nat): seq<nat> {
    [u / 0x1000 % 16, u / 0x100 % 16, u / 0x10 % 16, u % 16]
  }

  /** The four bytes at `i` are the numerals of the places of `u`, each in either case. */
  predicate NumeralsOf(c: bytes, i: nat, u: nat) {
    i + 4 <= |c| && u < 0x1_0000 && forall k :: 0 <= k < 4 ==> IsNumeral(c[i + k], Places(u)[k])
  }

  /** The text at `i` is one \uXXXX with well-formed digits, for the code unit `u`. */
  predicate SpellsUnit(c: bytes, i: nat, u: nat) {
    i + 6 <= |c| && c[i] == BACKSLASH && c[i + 1] == LOWER_U && NumeralsOf(c, i + 2, u)
  }

  predicate Spells(c: bytes, i: nat, end: nat, us: seq<nat>) {
    i + 6 * |us| <= end && forall k :: 0 <= k < |us| ==> SpellsUnit(c, i + 6 * k, us[k])
  }

  lemma SurrogatesOf(cp: nat)
    requires 0x1_0000 <= cp <= 0x10FFFF
    ensures var hi, lo := 0xD800 + (cp - 0x1_0000) / 0x400, 0xDC00 + (cp - 0x1_0000) % 0x400;
            IsHighSurrogate(hi) && IsLowSurrogate(lo) && FromSurrogates(hi, lo) == cp
  {
    var h := (cp - 0x1_0000) / 0x400;
    assert 0xD800 == 54 * 0x400 && 0xDC00 == 55 * 0x400;
    assert (h + 54 * 0x400) % 0x400 == h;
  }

  lemma UnitsOfSurrogates(hi: nat, lo: nat)
    requires IsHighSurrogate(hi) && IsLowSurrogate(lo)
    ensures Units(FromSurrogates(hi, lo)) == [hi, lo]
  {
    assert hi % 0x400 == hi - 54 * 0x400;
    assert lo % 0x400 == lo - 55 * 0x400;
  }

  /** A byte has a value exactly if it is a numeral, and then that of the numeral. */
  lemma ValueOfNumeral(b: byte, d: nat)
    requires d < 16
    ensures IsNumeral(b, d) <==> HexValue(b) == Some(d)
  {
    var lower, upper := "0123456789abcdef", "0123456789ABCDEF";
    assert lower[d] as int == (if d < 10 then 0x30 + d else 0x61 + (d - 10));
    assert upper[d] as int == (if d < 10 then 0x30 + d else 0x41 + (d - 10));
  }

  lemma HexDigitHasValue(b: byte)
    ensures IsHexDigit(b) <==> HexValue(b).Some?
  {
    hide HexValue, IsNumeral;
    if HexValue(b).Some? {
      ValueOfNumeral(b, HexValue(b).value);
    }
    if d :| 0 <= d < 16 && IsNumeral(b, d) {
      ValueOfNumeral(b, d);
    }
  }

  /** parse_hex4 reads every unit from its four numerals, whatever their case. */
  lemma Hex4Reads(c: bytes, i: nat, u: nat)
    requires NumeralsOf(c, i, u)
    ensures Hex4(c, i) == u
  {
    hide HexValue, IsNumeral;
    var p := Places(u);
    assert IsNumeral(c[i + 0], p[0]);
    ValueOfNumeral(c[i], p[0]);
    ValueOfNumeral(c[i + 1], p[1]);
    ValueOfNumeral(c[i + 2], p[2]);
    ValueOfNumeral(c[i + 3], p[3]);
    SumOfPlaces(u);
  }

  lemma SumOfPlaces(u: nat)
    requires u < 0x1_0000
    ensures u == u / 0x1000 % 16 * 0x1000 + u / 0x100 % 16 * 0x100 + u / 0x10 % 16 * 0x10 + u % 16
  {
    assert u / 0x10 == u / 0x100 * 16 + u / 0x10 % 16;
    assert u / 0x100 == u / 0x1000 * 16 + u / 0x100 % 16;
  }

  /** Well-formed digits are the numerals of what is read. */
  lemma Hex4Spells(c: bytes, i: nat)
    requires HexDigits(c, i)
    ensures NumeralsOf(c, i, Hex4(c, i))
  {
    hide HexValue, IsNumeral, IsHexDigit;
    HexDigitHasValue(c[i]);
    HexDigitHasValue(c[i + 1]);
    HexDigitHasValue(c[i + 2]);
    HexDigitHasValue(c[i + 3]);
    var p := [HexValue(c[i]).value, HexValue(c[i + 1]).value, HexValue(c[i + 2]).value, HexValue(c[i + 3]).value];
    PlacesOfSum(p[0], p[1], p[2], p[3]);
    forall k | 0 <= k < 4 ensures IsNumeral(c[i + k], Places(Hex4(c, i))[k]) {
      assert k == 0 || k == 1 || k == 2 || k == 3;
      ValueOfNumeral(c[i + k], p[k]);
    }
  }

  lemma PlacesOfSum(a: nat, b: nat, d: nat, e: nat)
    requires a < 16 && b < 16 && d < 16 && e < 16
    ensures Places(a * 0x1000 + b * 0x100 + d * 0x10 + e) == [a, b, d, e]
  {
    var u := a * 0x1000 + b * 0x100 + d * 0x10 + e;
    assert u / 0x10 == a * 0x100 + b * 0x10 + d;
    assert u / 0x100 == a * 0x10 + b;
    assert u / 0x1000 == a;
  }

  /** Every spelling of a scalar value is read as that value, whole and nothing more. */
  lemma LiteralReadsUnits(c: bytes, i: nat, end: nat, cp: nat)
    requires end <= |c| && IsScalar(cp) && Spells(c, i, end, Units(cp))
    ensures ReadLiteral(c, i, end) == Literal(cp, 6 * |Units(cp)|)
  {
    hide Hex4, NumeralsOf, FromSurrogates;
    var us := Units(cp);
    assert SpellsUnit(c, i + 6 * 0, us[0]);
    Hex4Reads(c, i + 2, us[0]);
    if cp >= 0x1_0000 {
      SurrogatesOf(cp);
      assert SpellsUnit(c, i + 6 * 1, us[1]);
      Hex4Reads(c, i + 8, us[1]);
    }
  }

  lemma MalformedIsZero(c: bytes, i: nat)
    requires i + 4 <= |c| && !HexDigits(c, i)
    ensures Hex4(c, i) == 0
  {
    hide HexValue, IsHexDigit;
    HexDigitHasValue(c[i]);
    HexDigitHasValue(c[i + 1]);
    HexDigitHasValue(c[i + 2]);
    HexDigitHasValue(c[i + 3]);
  }

  lemma SpelledDigits(c: bytes, i: nat, u: nat)
    requires NumeralsOf(c, i, u)
    ensures HexDigits(c, i)
  {
    forall k | i <= k < i + 4 ensures IsHexDigit(c[k]) {
      assert IsNumeral(c[i + (k - i)], Places(u)[k - i]);
    }
  }

  /**
    Conversely, a literal that is read is a spelling of the code point it is read as if and only if its
    first four digits are well-formed, whatever follows it. If they are malformed it is read as 0.
   */
  lemma LiteralIsSpelling(c: bytes, i: nat, end: nat)
    requires end <= |c| && i + 6 <= end && c[i] == BACKSLASH && c[i + 1] == LOWER_U
    ensures var r := ReadLiteral(c, i, end);
            && (r.Literal? ==> (Spells(c, i, end, Units(r.codepoint)) <==> HexDigits(c, i + 2)))
            && (!HexDigits(c, i + 2) ==> r == Literal(0, 6))
  {
    hide HexValue, Hex4, HexDigits, NumeralsOf, FromSurrogates;
    var first := Hex4(c, i + 2);
    var r := ReadLiteral(c, i, end);
    if !HexDigits(c, i + 2) {
      MalformedIsZero(c, i + 2);
      var us := Units(0);
      if NumeralsOf(c, i + 2, 0) {
        SpelledDigits(c, i + 2, 0);
      }
      assert !SpellsUnit(c, i + 6 * 0, us[0]);
    } else if r.Literal? {
      Hex4Spells(c, i + 2);
      assert SpellsUnit(c, i, first);
      if IsHighSurrogate(first) {
        var second := Hex4(c, i + 8);
        if !HexDigits(c, i + 8) {
          MalformedIsZero(c, i + 8);
        }
        Hex4Spells(c, i + 8);
        UnitsOfSurrogates(first, second);
        assert SpellsUnit(c, i + 6, second);
      }
    }
  }

  /**
    What is accepted: the spellings of scalar values and the literals with malformed digits. A lone or
    mismatched surrogate spells nothing and is refused.
   */
  lemma LiteralAccepted(c: bytes, i: nat, end: nat)
    requires end <= |c| && i + 6 <= end && c[i] == BACKSLASH && c[i + 1] == LOWER_U
    ensures ReadLiteral(c, i, end).Literal? <==>
            !HexDigits(c, i + 2) || exists cp :: IsScalar(cp) && Spells(c, i, end, Units(cp))
  {
    LiteralIsSpelling(c, i, end);
    if cp :| IsScalar(cp) && Spells(c, i, end, Units(cp)) {
      LiteralReadsUnits(c, i, end, cp);
    }
  }
}
