/** The parser and the grammar, one way: cJSON reads every text of the grammar whole, and as what it means. */
module SyntaxParse {
  import opened Bytes
  import opened Decimals
  import opened JsonText
  import opened Utf16
  import opened JsonParser
  import opened JsonSyntax
  import opened ParserSteps

  // ---- strings ----

  /** A literal is read the same where it stands in a longer text. */
  lemma SpellsAt(c: bytes, o: nat, text: bytes, us: seq<nat>, end: nat)
    requires At(c, o, text) && |text| == 6 * |us| && Spells(text, 0, |text|, us) && o + |text| <= end
    ensures Spells(c, o, end, us)
  {
    forall k | 0 <= k < |us| ensures SpellsUnit(c, o + 6 * k, us[k]) {
      assert SpellsUnit(text, 0 + 6 * k, us[k]);
      UnitAt(c, o, text, 6 * k, us[k]);
    }
  }

  lemma AtFits(c: bytes, o: nat, t: bytes)
    requires At(c, o, t)
    ensures o + |t| <= |c|
  {}

  lemma UnitAt(c: bytes, o: nat, text: bytes, i: nat, u: nat)
    requires At(c, o, text) && SpellsUnit(text, i, u)
    ensures SpellsUnit(c, o + i, u)
  {
    hide At, IsNumeral;
    forall k | i <= k < i + 6 ensures o + k < |c| && c[o + k] == text[k] {
      AtIndex(c, o, text, k);
    }
    AtFits(c, o, text);
    assert c[o + i] == text[i] && c[o + (i + 1)] == text[i + 1];
    forall k | 0 <= k < 4 ensures o + i + 2 + k < |c| && IsNumeral(c[o + i + 2 + k], Places(u)[k]) {
      assert c[o + (i + 2 + k)] == text[i + 2 + k] && IsNumeral(text[i + 2 + k], Places(u)[k]);
    }
  }

  /** The scan for the closing quote passes a character of the grammar. */
  lemma ScanOverChr(c: bytes, o: nat, x: Chr)
    requires ChrOk(false, x) && At(c, o, ChrText(x))
    ensures ScanEnd(c, o) == ScanEnd(c, o + |ChrText(x)|)
  {
    hide At, ScanEnd, Spells;
    var t := ChrText(x);
    match x
    case Plain(b) =>
      AtIndex(c, o, t, 0);
      ScanPlain(c, o);
    case Short(letter) =>
      AtIndex(c, o, t, 0);
      AtIndex(c, o, t, 1);
      ScanPair(c, o);
    case Coded(cp, text) =>
      AtFits(c, o, text);
      SpellsAt(c, o, text, Units(cp), |c|);
      ScanUnits(c, o, Units(cp));
  }

  lemma ScanPlain(c: bytes, o: nat)
    requires o < |c| && c[o] != QUOTE && c[o] != BACKSLASH
    ensures ScanEnd(c, o) == ScanEnd(c, o + 1)
  {}

  lemma ScanPair(c: bytes, o: nat)
    requires o + 1 < |c| && c[o] == BACKSLASH
    ensures ScanEnd(c, o) == ScanEnd(c, o + 2)
  {}

  lemma {:induction false} ScanUnits(c: bytes, o: nat, us: seq<nat>)
    requires Spells(c, o, |c|, us)
    ensures ScanEnd(c, o) == ScanEnd(c, o + 6 * |us|)
    decreases |us|
  {
    hide ScanEnd;
    if us == [] {
    } else {
      assert SpellsUnit(c, o + 6 * 0, us[0]);
      NumeralsAreDigits(c, o + 2, us[0]);
      ScanPair(c, o);
      ScanPlain(c, o + 2);
      ScanPlain(c, o + 3);
      ScanPlain(c, o + 4);
      ScanPlain(c, o + 5);
      SpellsRest(c, o, us);
      ScanUnits(c, o + 6, us[1..]);
    }
  }

  lemma SpellsRest(c: bytes, o: nat, us: seq<nat>)
    requires us != [] && Spells(c, o, |c|, us)
    ensures Spells(c, o + 6, |c|, us[1..])
  {
    hide SpellsUnit;
    forall k | 0 <= k < |us| - 1 ensures SpellsUnit(c, o + 6 + 6 * k, us[1..][k]) {
      assert SpellsUnit(c, o + 6 * (k + 1), us[k + 1]);
    }
  }

  lemma NumeralsAreDigits(c: bytes, i: nat, u: nat)
    requires NumeralsOf(c, i, u)
    ensures forall k :: i <= k < i + 4 ==> c[k] != QUOTE && c[k] != BACKSLASH
  {
    SpelledDigits(c, i, u);
    forall k | i <= k < i + 4 ensures c[k] != QUOTE && c[k] != BACKSLASH {
      HexDigitHasValue(c[k]);
    }
  }

  lemma {:induction false} ScanOverChrs(c: bytes, o: nat, xs: seq<Chr>)
    requires ChrsOk(false, xs) && At(c, o, ChrsText(xs))
    ensures ScanEnd(c, o) == ScanEnd(c, o + |ChrsText(xs)|)
    decreases |xs|
  {
    hide At, ScanEnd, ChrOk, ChrText;
    if xs == [] {
    } else {
      AtConcat(c, o, ChrText(xs[0]), ChrsText(xs[1..]));
      ScanOverChr(c, o, xs[0]);
      ScanOverChrs(c, o + |ChrText(xs[0])|, xs[1..]);
    }
  }

  /** The second loop reads a character of the grammar as what it means. */
  lemma ReadChr(c: bytes, o: nat, x: Chr, end: nat)
    requires ChrOk(false, x) && At(c, o, ChrText(x)) && o + |ChrText(x)| <= end < |c|
    ensures o < end && ReadPiece(c, o, end) == Piece(ChrMeaning(x), |ChrText(x)|)
  {
    hide At, Spells, ReadLiteral, Utf8;
    var t := ChrText(x);
    match x
    case Plain(b) => AtIndex(c, o, t, 0);
    case Short(letter) =>
      AtIndex(c, o, t, 0);
      AtIndex(c, o, t, 1);
    case Coded(cp, text) =>
      SpellsAt(c, o, text, Units(cp), end);
      LiteralReadsUnits(c, o, end, cp);
      FirstUnit(c, o, end, Units(cp));
  }

  lemma FirstUnit(c: bytes, o: nat, end: nat, us: seq<nat>)
    requires us != [] && Spells(c, o, end, us)
    ensures o + 1 < |c| && c[o] == BACKSLASH && c[o + 1] == LOWER_U && o < end
  {
    assert SpellsUnit(c, o + 6 * 0, us[0]);
  }

  lemma {:induction false} UnescapeChrs(c: bytes, o: nat, xs: seq<Chr>, end: nat)
    requires ChrsOk(false, xs) && At(c, o, ChrsText(xs)) && end == o + |ChrsText(xs)| < |c|
    ensures Unescape(c, o, end) == Unescaped(ChrsMeaning(xs))
    decreases |xs|
  {
    hide At, ReadPiece, ChrOk, ChrText, ChrMeaning;
    if xs == [] {
    } else {
      AtConcat(c, o, ChrText(xs[0]), ChrsText(xs[1..]));
      ReadChr(c, o, xs[0], end);
      UnescapeChrs(c, o + |ChrText(xs[0])|, xs[1..], end);
    }
  }

  /** A string of the grammar is read as its characters, wherever it stands. */
  lemma StringReads(c: bytes, o: nat, xs: seq<Chr>)
    requires ChrsOk(false, xs) && At(c, o, StringText(xs))
    ensures o < |c| && c[o] == QUOTE && ParseString(c, o) == Ok(CString(ChrsMeaning(xs)), o + |StringText(xs)|)
  {
    hide At, Unescape, ScanEnd, ChrsOk, ChrsText, ChrsMeaning, CString;
    var e := o + 1 + |ChrsText(xs)|;
    AtConcat(c, o, Ascii("\"") + ChrsText(xs), Ascii("\""));
    AtConcat(c, o, Ascii("\""), ChrsText(xs));
    AtIndex(c, o, Ascii("\""), 0);
    AtIndex(c, e, Ascii("\""), 0);
    ScanOverChrs(c, o + 1, xs);
    ScanQuote(c, e);
    UnescapeChrs(c, o + 1, xs, e);
  }

  lemma ScanQuote(c: bytes, e: nat)
    requires e < |c| && c[e] == QUOTE
    ensures ScanEnd(c, e) == Some(e)
  {}

  // ---- numbers ----

  lemma {:induction false} DigitsEndAt(s: bytes, i: nat, e: nat)
    requires i <= e <= |s| && (forall k :: i <= k < e ==> IsDigit(s[k])) && (e < |s| ==> !IsDigit(s[e]))
    ensures DigitsEnd(s, i) == e
    decreases e - i
  {
    if i == e {
    } else {
      DigitsEndAt(s, i + 1, e);
    }
  }

  lemma DigitsEndIs(s: bytes, i: nat, t: bytes)
    requires At(s, i, t) && AllDigits(t) && (i + |t| < |s| ==> !IsDigit(s[i + |t|]))
    ensures DigitsEnd(s, i) == i + |t|
  {
    hide DigitsEnd;
    AtFits(s, i, t);
    forall k | i <= k < i + |t| ensures IsDigit(s[k]) {
      AtIndex(s, i, t, k - i);
    }
    DigitsEndAt(s, i, i + |t|);
  }

  /** Where the parts of a number begin. */
  function WholeStart(n: Numeric): nat {
    if n.minus then 1 else 0
  }

  function FractionStart(n: Numeric): nat {
    WholeStart(n) + |n.whole|
  }

  function ExponentStart(n: Numeric): nat {
    FractionStart(n) + |FractionText(n.fraction)|
  }

  lemma NumericParts(n: Numeric)
    ensures var s := NumericText(n);
            && At(s, 0, if n.minus then Ascii("-") else []) && At(s, WholeStart(n), n.whole)
            && At(s, FractionStart(n), FractionText(n.fraction)) && At(s, ExponentStart(n), ExponentText(n.exponent))
            && |s| == ExponentStart(n) + |ExponentText(n.exponent)| && FractionStart(n) == WholeStart(n) + |n.whole|
  {
    hide At, FractionText, ExponentText;
    var s := NumericText(n);
    var sign := if n.minus then Ascii("-") else [];
    Whole(s);
    AtConcat(s, 0, sign + n.whole + FractionText(n.fraction), ExponentText(n.exponent));
    AtConcat(s, 0, sign + n.whole, FractionText(n.fraction));
    AtConcat(s, 0, sign, n.whole);
  }

  lemma Whole(s: bytes)
    ensures At(s, 0, s)
  {}

  /** The first byte of an exponent, if there is one; then strtod takes it whole. */
  lemma ExponentReads(s: bytes, k: nat, e: Option<ExponentPart>)
    requires (e.Some? ==> ExponentOk(e.value)) && At(s, k, ExponentText(e)) && |s| == k + |ExponentText(e)|
    ensures Exponent(s, k) == NumberRead(|s|, Power(e))
    ensures e.Some? ==> k < |s| && !IsDigit(s[k]) && s[k] != DOT
  {
    hide At, Pow10, DigitsValue;
    if e.Some? {
      var x := e.value;
      var sign := if x.sign.Some? then [x.sign.value] else [];
      AtConcat(s, k, [x.mark] + sign, x.digits);
      AtConcat(s, k, [x.mark], sign);
      AtIndex(s, k, [x.mark], 0);
      if x.sign.Some? {
        AtIndex(s, k + 1, sign, 0);
      }
      var m := k + 1 + |sign|;
      AtIndex(s, m, x.digits, 0);
      DigitsEndIs(s, m, x.digits);
      SliceOf(s, m, x.digits);
    }
  }

  lemma SliceOf(s: bytes, i: nat, t: bytes)
    requires At(s, i, t)
    ensures i + |t| <= |s| && s[i..i + |t|] == t
  {}

  /** The value from where the parts are. */
  lemma StrtodBy(s: bytes, i: nat, j: nat, k: nat, fraction: bytes)
    requires s != [] && i == SignEnd(s, 0) && j == DigitsEnd(s, i)
    requires k == if j < |s| && s[j] == DOT then DigitsEnd(s, j + 1) else j
    requires fraction == (if k == j then [] else s[j + 1..k])
    ensures Strtod(s) ==
            if s[i..j] + fraction == [] then NumberRead(0, 0.0)
            else
              var m := DigitsValue(s[i..j] + fraction) as real / Pow10(|fraction|) as real;
              NumberRead(Exponent(s, k).consumed, (if s[0] == MINUS then -m else m) * Exponent(s, k).value)
  {
    hide DigitsEnd, SignEnd, Exponent, DigitsValue, Pow10;
  }

  /** strtod takes the whole text of a number, and gives its value. */
  lemma StrtodReads(n: Numeric)
    requires NumberOk(false, n)
    ensures Strtod(NumericText(n)) == NumberRead(|NumericText(n)|, NumericValue(n))
  {
    hide *;
    var s := NumericText(n);
    var i, j, k := WholeStart(n), FractionStart(n), ExponentStart(n);
    NumericParts(n);
    NumberParts(n);
    ExponentReads(s, k, n.exponent);
    SignReads(n);
    FractionReads(n);
    SliceOf(s, i, n.whole);
    StrtodBy(s, i, j, k, n.fraction.GetOr([]));
    SameProduct(n);
  }

  lemma NumberParts(n: Numeric)
    requires NumberOk(false, n)
    ensures n.whole + n.fraction.GetOr([]) != [] && (n.exponent.Some? ==> ExponentOk(n.exponent.value))
    ensures AllDigits(n.whole) && (n.fraction.Some? ==> AllDigits(n.fraction.value))
  {}

  lemma SameProduct(n: Numeric)
    ensures var fraction := n.fraction.GetOr([]);
            var m := DigitsValue(n.whole + fraction) as real / Pow10(|fraction|) as real;
            NumericValue(n) == (if n.minus then -m else m) * Power(n.exponent)
  {
    hide DigitsValue, Pow10, Power;
    var fraction := n.fraction.GetOr([]);
    var m, p := DigitsValue(n.whole + fraction) as real / Pow10(|fraction|) as real, Power(n.exponent);
    assert -(m * p) == (-m) * p;
  }

  /** The digits of the whole part end at the dot or the exponent, those of the fraction at the exponent. */
  lemma FractionReads(n: Numeric)
    requires NumberOk(false, n)
    ensures var s := NumericText(n);
            var j := FractionStart(n);
            && DigitsEnd(s, WholeStart(n)) == j <= |s|
            && ExponentStart(n) == (if j < |s| && s[j] == DOT then DigitsEnd(s, j + 1) else j) <= |s|
            && n.fraction.GetOr([]) == if ExponentStart(n) == j then [] else s[j + 1..ExponentStart(n)]
  {
    hide *;
    var s := NumericText(n);
    var j, k := FractionStart(n), ExponentStart(n);
    NumericParts(n);
    NumberParts(n);
    ExponentReads(s, k, n.exponent);
    NoExponent(n.exponent);
    FractionIs(n);
    AtFits(s, j, FractionText(n.fraction));
    if n.fraction.Some? {
      AtConcat(s, j, [DOT], n.fraction.value);
      AtIndex(s, j, [DOT], 0);
      DigitsEndIs(s, j + 1, n.fraction.value);
      SliceOf(s, j + 1, n.fraction.value);
    }
    DigitsEndIs(s, WholeStart(n), n.whole);
  }

  lemma FractionIs(n: Numeric)
    ensures n.fraction.None? ==> FractionText(n.fraction) == [] && n.fraction.GetOr([]) == []
    ensures n.fraction.Some? ==> FractionText(n.fraction) == [DOT] + n.fraction.value && n.fraction.GetOr([]) == n.fraction.value
    ensures !IsDigit(DOT) && ExponentStart(n) == FractionStart(n) + |FractionText(n.fraction)|
  {}

  lemma NoExponent(e: Option<ExponentPart>)
    ensures e.None? ==> ExponentText(e) == []
  {}

  lemma SignReads(n: Numeric)
    requires NumberOk(false, n)
    ensures var s := NumericText(n);
            |s| > 0 && SignEnd(s, 0) == WholeStart(n) && (s[0] == MINUS <==> n.minus) && (s[0] == MINUS || IsDigit(s[0]))
  {
    hide At, NumericText;
    var s := NumericText(n);
    NumericParts(n);
    if n.minus {
      AtIndex(s, 0, Ascii("-"), 0);
    } else {
      AtIndex(s, 0, n.whole, 0);
    }
  }

  lemma NumericBytes(n: Numeric)
    requires NumberOk(false, n)
    ensures forall k :: 0 <= k < |NumericText(n)| ==> IsNumberByte(NumericText(n)[k])
  {
    var fraction, exponent := FractionText(n.fraction), ExponentText(n.exponent);
    assert forall k :: 0 <= k < |fraction| ==> IsNumberByte(fraction[k]);
    assert forall k :: 0 <= k < |exponent| ==> IsNumberByte(exponent[k]);
  }

  /** A number of the grammar is read as its value, if no byte follows that could belong to a number. */
  lemma NumericReads(c: bytes, o: nat, n: Numeric)
    requires NumberOk(false, n) && At(c, o, NumericText(n)) && NumberStops(c, o + |NumericText(n)|)
    ensures o < |c| && (c[o] == MINUS || IsDigit(c[o])) && ParseNumber(c, o) == Ok(Number(NumericValue(n)), o + |NumericText(n)|)
  {
    hide At, NumericText, Strtod, NumberOk, NumericValue;
    var t := NumericText(n);
    SignReads(n);
    NumericBytes(n);
    AtFits(c, o, t);
    AtIndex(c, o, t, 0);
    forall k | o <= k < o + |t| ensures IsNumberByte(c[k]) {
      AtIndex(c, o, t, k - o);
    }
    NumberEndAt(c, o, o + |t|);
    SliceOf(c, o, t);
    StrtodReads(n);
  }

  // ---- and back: what strtod takes is a number of the grammar ----

  /** The exponent that strtod takes from `k` on. */
  lemma ExponentFound(s: bytes, k: nat) returns (e: Option<ExponentPart>)
    requires k <= |s|
    ensures var r := Exponent(s, k);
            (e.Some? ==> ExponentOk(e.value)) && ExponentText(e) == s[k..r.consumed] && Power(e) == r.value
  {
    hide Pow10, DigitsValue, AllDigits, DigitsEnd, IsDigit;
    var r := Exponent(s, k);
    if r.consumed == k {
      e := None;
    } else {
      var m := SignEnd(s, k + 1);
      AllDigitsTo(s, m, r.consumed);
      e := Some(ExponentPart(s[k], if m == k + 1 then None else Some(s[k + 1]), s[m..r.consumed]));
      ExponentSlices(s, k, m, r.consumed);
    }
  }

  lemma ExponentSlices(s: bytes, k: nat, m: nat, e: nat)
    requires k < m <= e <= |s| && m <= k + 2
    ensures s[k..e] == [s[k]] + (if m == k + 1 then [] else [s[k + 1]]) + s[m..e]
  {}

  lemma AllDigitsTo(s: bytes, i: nat, j: nat)
    requires i <= j <= |s| && forall k :: i <= k < j ==> IsDigit(s[k])
    ensures AllDigits(s[i..j])
  {}

  /** The number at the front of `s`, as strtod cuts it: sign, whole part, fraction, exponent. */
  lemma NumericFound(s: bytes) returns (n: Numeric)
    requires s != [] && (s[0] == MINUS || IsDigit(s[0])) && Strtod(s).consumed > 0
    ensures NumberOk(false, n) && NumericText(n) == s[..Strtod(s).consumed] && NumericValue(n) == Strtod(s).value
  {
    hide *;
    var i := SignEnd(s, 0);
    var j := DigitsEnd(s, i);
    var k := FractionEnd(s, j);
    SignShape(s);
    var fraction := FractionShape(s, j);
    var exponent := ExponentFound(s, k);
    n := Numeric(s[0] == MINUS, s[i..j], fraction, exponent);
    NoFraction(fraction);
    StrtodBy(s, i, j, k, fraction.GetOr([]));
    SameProduct(n);
    FourSlices(s, i, j, k, Strtod(s).consumed);
    NumericTextIs(n);
    AllDigitsTo(s, i, j);
    NumericLoose(n);
  }

  lemma NumericTextIs(n: Numeric)
    ensures NumericText(n) == (if n.minus then Ascii("-") else []) + n.whole + FractionText(n.fraction) + ExponentText(n.exponent)
  {}

  /** Where whole part and fraction end. */
  function FractionEnd(s: bytes, j: nat): (k: nat)
    requires j <= |s|
    ensures j <= k <= |s| && k == if j < |s| && s[j] == DOT then DigitsEnd(s, j + 1) else j
  {
    if j < |s| && s[j] == DOT then DigitsEnd(s, j + 1) else j
  }

  lemma SignShape(s: bytes)
    requires s != [] && (s[0] == MINUS || IsDigit(s[0]))
    ensures SignEnd(s, 0) == (if s[0] == MINUS then 1 else 0) && s[..SignEnd(s, 0)] == if s[0] == MINUS then Ascii("-") else []
    ensures s[0] != MINUS ==> DigitsEnd(s, 0) > 0
  {}

  lemma FractionShape(s: bytes, j: nat) returns (f: Option<bytes>)
    requires j <= |s|
    ensures var k := FractionEnd(s, j);
            && s[j..k] == FractionText(f) && (f.Some? ==> AllDigits(f.value))
            && f == if k == j then None else Some(s[j + 1..k])
  {
    hide DigitsEnd, IsDigit, AllDigits, FractionText;
    var k := FractionEnd(s, j);
    f := if k == j then None else Some(s[j + 1..k]);
    if k > j {
      AllDigitsTo(s, j + 1, k);
      DotSlice(s, j, k);
    } else {
      NoDot(s, j);
    }
  }

  lemma DotSlice(s: bytes, j: nat, k: nat)
    requires j < k <= |s| && s[j] == DOT
    ensures s[j..k] == FractionText(Some(s[j + 1..k]))
  {}

  lemma NoDot(s: bytes, j: nat)
    requires j <= |s|
    ensures s[j..j] == FractionText(None)
  {}

  lemma NoFraction(f: Option<bytes>)
    ensures f.GetOr([]) == if f.None? then [] else f.value
  {}

  lemma NumericLoose(n: Numeric)
    requires AllDigits(n.whole) && (n.fraction.Some? ==> AllDigits(n.fraction.value)) && (n.whole != [] || n.minus)
    requires n.whole + n.fraction.GetOr([]) != [] && (n.exponent.Some? ==> ExponentOk(n.exponent.value))
    ensures NumberOk(false, n)
  {}

  lemma FourSlices(s: bytes, i: nat, j: nat, k: nat, e: nat)
    requires i <= j <= k <= e <= |s|
    ensures s[..e] == s[..i] + s[i..j] + s[j..k] + s[k..e]
  {}

  // ---- values, elements, members ----

  lemma WordTexts()
    ensures WordText(Null) == TEXT_NULL && WordText(Bool(true)) == TEXT_TRUE && WordText(Bool(false)) == TEXT_FALSE
  {}

  /** No value begins with a blank or a closing bracket. */
  lemma FirstByte(x: Syntax)
    requires Grammatical(false, x)
    ensures var t := Spelling(x); t != [] && 32 < t[0] < 0x80 && t[0] != RBRACKET && t[0] != RBRACE
  {
    if x.Num? {
      hide NumberOk, NumericText, IsDigit;
      SignReads(x.n);
      DigitBytes(Spelling(x)[0]);
    }
  }

  lemma DigitBytes(b: byte)
    requires b == MINUS || IsDigit(b)
    ensures 32 < b < 0x80 && b != RBRACKET && b != RBRACE
  {}

  /** What follows a value in a list: blanks, and then a comma or a closing bracket. */
  lemma ListEnds(es: seq<Elem>)
    requires es != []
    ensures var t := ElemsEnd(es); t != [] && t[0] > 32 && t[0] == (if |es| == 1 then RBRACKET else COMMA) && !IsNumberByte(t[0])
    ensures |es| == 1 ==> |ElemsEnd(es)| == 1
    ensures |es| > 1 ==> ElemsEnd(es) == [COMMA] + (es[1].before + ElemSpelling(es[1..]))
  {
    hide ElemSpelling;
  }

  lemma BracesEnd(ms: seq<Mem>)
    requires ms != []
    ensures var t := MembersEnd(ms); t != [] && t[0] > 32 && t[0] == (if |ms| == 1 then RBRACE else COMMA) && !IsNumberByte(t[0])
    ensures |ms| == 1 ==> |MembersEnd(ms)| == 1
    ensures |ms| > 1 ==> MembersEnd(ms) == [COMMA] + (ms[1].before + MemberSpelling(ms[1..]))
  {
    hide MemberSpelling;
  }

  /** Neither a blank nor the end of a list can belong to a number. */
  lemma StopsBehind(c: bytes, o: nat, after: bytes, end: bytes)
    requires At(c, o, after + end) && Blanks(false, after) && end != [] && !IsNumberByte(end[0])
    ensures NumberStops(c, o)
  {
    AtIndex(c, o, after + end, 0);
  }

  /** Every text of the grammar is read whole as its meaning, unless it nests too deep. */
  lemma {:induction false} ValueReads(x: Syntax, c: bytes, o: nat, depth: nat)
    requires Grammatical(false, x) && depth <= NESTING_LIMIT
    requires At(c, o, Spelling(x)) && (x.Num? ==> NumberStops(c, o + |Spelling(x)|))
    ensures Reads(ParseValue(c, o, depth), depth + Nesting(Meaning(x)), Meaning(x), o + |Spelling(x)|)
    decreases x, 0
  {
    hide At, ParseValue, ParseNumber, ParseString, ParseArray, ParseObject, WordText, NumericText, NumberOk, NumericValue;
    hide StringText, ChrsOk, ChrsMeaning, CString, IsDigit;
    FirstByte(x);
    AtIndex(c, o, Spelling(x), 0);
    ValueStep(c, o, depth);
    match x
    case Word(v) => WordTexts();
    case Num(n) => NumericReads(c, o, n);
    case Str(cs) => StringReads(c, o, cs);
    case Arr(gap, es) =>
      OpeningByte(x);
      ArrayReads(x, gap, es, c, o, depth);
    case Obj(gap, ms) =>
      OpeningByte(x);
      ObjectReads(x, gap, ms, c, o, depth);
  }

  lemma OpeningByte(x: Syntax)
    requires x.Arr? || x.Obj?
    ensures Spelling(x) != [] && Spelling(x)[0] == if x.Arr? then LBRACKET else LBRACE
  {}

  lemma ArrayText(x: Syntax, gap: bytes, es: seq<Elem>)
    requires x == Arr(gap, es) && Grammatical(false, x)
    ensures Spelling(x) == [LBRACKET] + if es == [] then gap + [RBRACKET] else es[0].before + ElemSpelling(es)
    ensures Blanks(false, gap) && forall k :: 0 <= k < |es| ==> ElemOk(false, es[k])
    ensures Meaning(x) == Array(ElemsMeaning(es))
  {
    hide ElemSpelling, ElemOk;
  }

  lemma {:induction false} ArrayReads(x: Syntax, gap: bytes, es: seq<Elem>, c: bytes, o: nat, depth: nat)
    requires x == Arr(gap, es) && Grammatical(false, x) && At(c, o, Spelling(x))
    ensures Reads(ParseArray(c, o, depth), depth + 1 + ElemsNesting(ElemsMeaning(es)), Meaning(x), o + |Spelling(x)|)
    decreases es, 1
  {
    hide *;
    ArrayText(x, gap, es);
    if es == [] {
      Closing();
      SkipBehind(c, o, LBRACKET, gap, [RBRACKET]);
      ArrayStep(c, o, o + 1 + |gap|, depth);
      NothingMeans();
      WrappedEmpty(ParseArray(c, o, depth), depth, Meaning(x), o + |Spelling(x)|);
    } else {
      var p := o + 1 + |es[0].before|;
      ElemStarts(es);
      SkipBehind(c, o, LBRACKET, es[0].before, ElemSpelling(es));
      ArrayStep(c, o, p, depth);
      if depth < NESTING_LIMIT {
        SkipAgain(c, p);
        ElemsReads(es, c, p, p, depth + 1);
      }
      Wrapped(ParseElems(c, p, depth + 1), ParseArray(c, o, depth), depth, ElemsNesting(ElemsMeaning(es)),
              ElemsMeaning(es), Meaning(x), p + |ElemSpelling(es)|);
    }
  }

  lemma Closing()
    ensures RBRACKET > 32 && RBRACE > 32 && COMMA > 32 && COLON > 32
    ensures QUOTE > 32 && QUOTE != RBRACE
  {}

  lemma NothingMeans()
    ensures ElemsMeaning([]) == [] && MembersMeaning([]) == [] && ElemsNesting([]) == 0 && MembersNesting([]) == 0
  {}

  lemma SkipAgain(c: bytes, p: nat)
    requires p < |c| && c[p] > 32
    ensures SkipBlanks(c, p) == p
  {}

  lemma ElemStarts(es: seq<Elem>)
    requires es != [] && ElemOk(false, es[0])
    ensures Grammatical(false, es[0].value) && Blanks(false, es[0].before) && Blanks(false, es[0].after)
    ensures ElemSpelling(es) == Spelling(es[0].value) + (es[0].after + ElemsEnd(es))
    ensures ElemSpelling(es) != [] && ElemSpelling(es)[0] > 32 && ElemSpelling(es)[0] != RBRACKET
  {
    hide Spelling, Grammatical, ElemsEnd;
    FirstByte(es[0].value);
  }

  lemma {:induction false} ElemsReads(es: seq<Elem>, c: bytes, o: nat, p: nat, depth: nat)
    requires es != [] && (forall k :: 0 <= k < |es| ==> ElemOk(false, es[k])) && depth <= NESTING_LIMIT
    requires o <= |c| && SkipBlanks(c, o) == p && At(c, p, ElemSpelling(es))
    ensures Reads(ParseElems(c, o, depth), depth + ElemsNesting(ElemsMeaning(es)), ElemsMeaning(es), p + |ElemSpelling(es)|)
    decreases es, 0
  {
    hide *;
    var x, after, end := es[0].value, es[0].after, ElemsEnd(es);
    ElemStarts(es);
    ListEnds(es);
    AtConcat(c, p, Spelling(x), after + end);
    var e := p + |Spelling(x)|;
    StopsBehind(c, e, after, end);
    ValueReads(x, c, p, depth);
    SkipTo(c, e, after, end);
    var q := e + |after|;
    AtIndex(c, q, end, 0);
    ElemsStep(c, o, p, depth, Meaning(x), e, q);
    var r, n := ParseValue(c, p, depth), Nesting(Meaning(x));
    FirstMeans(es);
    if |es| == 1 {
      JoinLast(r, ParseElems(c, o, depth), depth + n, Meaning(x), e, q + 1);
    } else {
      var rest := es[1..];
      AtConcat(c, q, [COMMA], rest[0].before + ElemSpelling(rest));
      ElemStarts(rest);
      SkipTo(c, q + 1, rest[0].before, ElemSpelling(rest));
      ElemsReads(rest, c, q + 1, q + 1 + |rest[0].before|, depth);
      Join(r, ParseElems(c, q + 1, depth), ParseElems(c, o, depth), depth, n, ElemsNesting(ElemsMeaning(rest)),
           Meaning(x), ElemsMeaning(rest), e, p + |ElemSpelling(es)|);
    }
  }

  lemma FirstMeans(es: seq<Elem>)
    requires es != []
    ensures var v, vs := Meaning(es[0].value), ElemsMeaning(es[1..]);
            && ElemsMeaning(es) == [v] + vs && ElemsNesting(ElemsMeaning(es)) == Max(Nesting(v), ElemsNesting(vs))
            && (|es| == 1 ==> ElemsMeaning(es) == [v] && ElemsNesting(ElemsMeaning(es)) == Nesting(v))
  {
    hide Meaning, Nesting;
    var v, vs := Meaning(es[0].value), ElemsMeaning(es[1..]);
    assert ([v] + vs)[1..] == vs;
    NothingMeans();
  }

  lemma ObjectText(x: Syntax, gap: bytes, ms: seq<Mem>)
    requires x == Obj(gap, ms) && Grammatical(false, x)
    ensures Spelling(x) == [LBRACE] + if ms == [] then gap + [RBRACE] else ms[0].before + MemberSpelling(ms)
    ensures Blanks(false, gap) && forall k :: 0 <= k < |ms| ==> MemOk(false, ms[k])
    ensures Meaning(x) == Object(MembersMeaning(ms))
  {
    hide MemberSpelling, MemOk;
  }

  lemma {:induction false} ObjectReads(x: Syntax, gap: bytes, ms: seq<Mem>, c: bytes, o: nat, depth: nat)
    requires x == Obj(gap, ms) && Grammatical(false, x) && At(c, o, Spelling(x))
    ensures Reads(ParseObject(c, o, depth), depth + 1 + MembersNesting(MembersMeaning(ms)), Meaning(x), o + |Spelling(x)|)
    decreases ms, 2
  {
    hide *;
    ObjectText(x, gap, ms);
    Closing();
    if ms == [] {
      SkipBehind(c, o, LBRACE, gap, [RBRACE]);
      ObjectStep(c, o, o + 1 + |gap|, depth);
      NothingMeans();
      WrappedEmpty(ParseObject(c, o, depth), depth, Meaning(x), o + |Spelling(x)|);
    } else {
      var p := o + 1 + |ms[0].before|;
      MemberStarts(ms);
      SkipBehind(c, o, LBRACE, ms[0].before, MemberSpelling(ms));
      ObjectStep(c, o, p, depth);
      if depth < NESTING_LIMIT {
        SkipAgain(c, p);
        MembersReads(ms, c, p, p, depth + 1);
      }
      Wrapped(ParseMembers(c, p, depth + 1), ParseObject(c, o, depth), depth, MembersNesting(MembersMeaning(ms)),
              MembersMeaning(ms), Meaning(x), p + |MemberSpelling(ms)|);
    }
  }

  lemma MemberStarts(ms: seq<Mem>)
    requires ms != [] && MemOk(false, ms[0])
    ensures Grammatical(false, ms[0].value) && Blanks(false, ms[0].before) && Blanks(false, ms[0].after)
    ensures ChrsOk(false, ms[0].key) && Blanks(false, ms[0].colon) && Blanks(false, ms[0].gap)
    ensures MemberSpelling(ms) == StringText(ms[0].key) + (ms[0].colon + ([COLON] + (ms[0].gap + MemberRest(ms))))
    ensures MemberRest(ms) == Spelling(ms[0].value) + (ms[0].after + MembersEnd(ms))
    ensures MemberRest(ms) != [] && MemberRest(ms)[0] > 32
    ensures MemberSpelling(ms) != [] && MemberSpelling(ms)[0] == QUOTE
  {
    hide Spelling, Grammatical, MembersEnd;
    FirstByte(ms[0].value);
  }

  /** The member that a key and a value mean. */
  function MemberMeaning(m: Mem): Member {
    Member(CString(ChrsMeaning(m.key)), Meaning(m.value))
  }

  /** Key, colon and value of the first member, read from `o` behind blanks. */
  lemma {:induction false} MemberReads(ms: seq<Mem>, c: bytes, o: nat, p: nat, depth: nat) returns (e: nat)
    requires ms != [] && MemOk(false, ms[0]) && depth <= NESTING_LIMIT
    requires o < |c| && SkipBlanks(c, o) == p && At(c, p, MemberSpelling(ms))
    ensures Reads(ParseMember(c, o, depth), depth + Nesting(Meaning(ms[0].value)), MemberMeaning(ms[0]), e)
    ensures At(c, e, ms[0].after + MembersEnd(ms)) && e + |ms[0].after + MembersEnd(ms)| == p + |MemberSpelling(ms)|
    decreases ms, 0
  {
    hide *;
    var m := ms[0];
    MemberStarts(ms);
    BracesEnd(ms);
    Closing();
    AtConcat(c, p, StringText(m.key), m.colon + ([COLON] + (m.gap + MemberRest(ms))));
    StringReads(c, p, m.key);
    var q := p + |StringText(m.key)|;
    var colon := q + |m.colon|;
    SkipTo(c, q, m.colon, [COLON] + (m.gap + MemberRest(ms)));
    SkipBehind(c, colon, COLON, m.gap, MemberRest(ms));
    var v := colon + 1 + |m.gap|;
    AtConcat(c, v, Spelling(m.value), m.after + MembersEnd(ms));
    e := v + |Spelling(m.value)|;
    StopsBehind(c, e, m.after, MembersEnd(ms));
    ValueReads(m.value, c, v, depth);
    MemberStep(c, o, p, q, colon, v, depth);
    MemberIs(ms[0]);
    MemberWhole(ParseValue(c, v, depth), ParseMember(c, o, depth), depth + Nesting(Meaning(m.value)), CString(ChrsMeaning(m.key)), Meaning(m.value), e);
  }

  lemma MemberIs(m: Mem)
    ensures MemberMeaning(m) == Member(CString(ChrsMeaning(m.key)), Meaning(m.value))
  {}

  lemma MemberWhole(r: Parsed<Json>, whole: Parsed<Member>, nesting: nat, key: bytes, v: Json, e: nat)
    requires Reads(r, nesting, v, e)
    requires whole == match r { case Ok(w, s) => Ok(Member(key, w), s) case Err(s) => Err(s) }
    ensures Reads(whole, nesting, Member(key, v), e)
  {}

  lemma MemberStep(c: bytes, o: nat, p: nat, q: nat, colon: nat, v: nat, depth: nat)
    requires o < |c| && SkipBlanks(c, o) == p < |c| && q <= |c| && SkipBlanks(c, q) == colon < |c| && c[colon] == COLON
    requires SkipBlanks(c, colon + 1) == v
    ensures match ParseString(c, p)
            case Err(_) => true
            case Ok(key, end) => end == q ==>
              ParseMember(c, o, depth) == match ParseValue(c, v, depth) { case Ok(w, s) => Ok(Member(key, w), s) case Err(s) => Err(s) }
  {
    hide SkipBlanks, ParseString, ParseValue;
  }

  lemma {:induction false} MembersReads(ms: seq<Mem>, c: bytes, o: nat, p: nat, depth: nat)
    requires ms != [] && (forall k :: 0 <= k < |ms| ==> MemOk(false, ms[k])) && depth <= NESTING_LIMIT
    requires 0 < o < |c| && SkipBlanks(c, o) == p && At(c, p, MemberSpelling(ms))
    ensures Reads(ParseMembers(c, o, depth), depth + MembersNesting(MembersMeaning(ms)), MembersMeaning(ms), p + |MemberSpelling(ms)|)
    decreases ms, 1
  {
    hide *;
    var m, end := ms[0], MembersEnd(ms);
    MemberStarts(ms);
    BracesEnd(ms);
    var e := MemberReads(ms, c, o, p, depth);
    SkipTo(c, e, m.after, end);
    var q := e + |m.after|;
    AtIndex(c, q, end, 0);
    AtFits(c, e, m.after + end);
    MembersStep(c, o, depth, MemberMeaning(m), e, q);
    var r, n := ParseMember(c, o, depth), Nesting(Meaning(m.value));
    FirstMember(ms);
    if |ms| == 1 {
      JoinLast(r, ParseMembers(c, o, depth), depth + n, MemberMeaning(m), e, q + 1);
    } else {
      var rest := ms[1..];
      AtConcat(c, q, [COMMA], rest[0].before + MemberSpelling(rest));
      MemberStarts(rest);
      Closing();
      AtIndex(c, q + 1, rest[0].before + MemberSpelling(rest), 0);
      SkipTo(c, q + 1, rest[0].before, MemberSpelling(rest));
      MembersReads(rest, c, q + 1, q + 1 + |rest[0].before|, depth);
      Join(r, ParseMembers(c, q + 1, depth), ParseMembers(c, o, depth), depth, n, MembersNesting(MembersMeaning(rest)),
           MemberMeaning(m), MembersMeaning(rest), e, p + |MemberSpelling(ms)|);
    }
  }

  lemma FirstMember(ms: seq<Mem>)
    requires ms != []
    ensures var m, rest := MemberMeaning(ms[0]), MembersMeaning(ms[1..]);
            && MembersMeaning(ms) == [m] + rest
            && MembersNesting(MembersMeaning(ms)) == Max(Nesting(Meaning(ms[0].value)), MembersNesting(rest))
            && (|ms| == 1 ==> MembersMeaning(ms) == [m] && MembersNesting(MembersMeaning(ms)) == Nesting(Meaning(ms[0].value)))
  {
    hide Meaning, Nesting, CString, ChrsMeaning;
    var m, rest := MemberMeaning(ms[0]), MembersMeaning(ms[1..]);
    assert ([m] + rest)[1..] == rest;
    NothingMeans();
  }
}
