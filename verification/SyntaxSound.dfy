/** The converse of SyntaxParse: what the parser accepts is a text of the grammar, and is read as what it means. */
module SyntaxSound {
  import opened Bytes
  import opened Decimals
  import opened JsonText
  import opened Utf16
  import opened JsonParser
  import opened JsonSyntax
  import opened ParserSteps
  import opened SyntaxParse

  // ---- malformed escapes ----

  /**
    From `i` to `e`, every \u has its four digits: the texts that parse_hex4 reads right. (Others are read as
    the character 0 and are no texts of the grammar.)
   */
  predicate Clean(c: bytes, i: nat, e: nat)
    requires e <= |c|
    decreases |c| - i
  {
    i >= e || if c[i] == BACKSLASH then (i + 1 < |c| && c[i + 1] == LOWER_U ==> HexDigits(c, i + 2)) && Clean(c, i + 2, e)
              else Clean(c, i + 1, e)
  }

  lemma {:induction false} CleanFrom(c: bytes, i: nat, p: nat, e: nat)
    requires i <= p <= e <= |c| && Clean(c, i, e) && forall k :: i <= k < p ==> c[k] != BACKSLASH
    ensures Clean(c, p, e)
    decreases p - i
  {
    if i == p {
    } else {
      CleanFrom(c, i + 1, p, e);
    }
  }

  /** Behind a string the text is as clean as before it. */
  lemma {:induction false} CleanBehind(c: bytes, i: nat, e: nat)
    requires e <= |c| && Clean(c, i, e) && ScanEnd(c, i).Some? && ScanEnd(c, i).value < e
    ensures Clean(c, ScanEnd(c, i).value + 1, e)
    decreases |c| - i
  {
    hide HexDigits;
    if c[i] == QUOTE {
      assert Clean(c, i + 1, e);
    } else {
      CleanBehind(c, if c[i] == BACKSLASH then i + 2 else i + 1, e);
    }
  }

  lemma {:induction false} CleanOverUnits(c: bytes, i: nat, us: seq<nat>, e: nat)
    requires e <= |c| && i + 6 * |us| <= e && Clean(c, i, e) && Spells(c, i, |c|, us)
    ensures Clean(c, i + 6 * |us|, e)
    decreases |us|
  {
    hide HexDigits, NumeralsOf;
    if us == [] {
    } else {
      assert SpellsUnit(c, i + 6 * 0, us[0]);
      NumeralsAreDigits(c, i + 2, us[0]);
      CleanFrom(c, i + 2, i + 6, e);
      SpellsRest(c, i, us);
      CleanOverUnits(c, i + 6, us[1..], e);
    }
  }

  // ---- strings ----

  lemma UnitsCut(c: bytes, o: nat, us: seq<nat>)
    requires Spells(c, o, |c|, us)
    ensures o + 6 * |us| <= |c| && Spells(c[o..o + 6 * |us|], 0, 6 * |us|, us)
  {
    var t := c[o..o + 6 * |us|];
    forall k | 0 <= k < |us| ensures SpellsUnit(t, 0 + 6 * k, us[k]) {
      assert SpellsUnit(c, o + 6 * k, us[k]);
      UnitCut(c, o, t, 6 * k, us[k]);
    }
  }

  lemma UnitCut(c: bytes, o: nat, t: bytes, i: nat, u: nat)
    requires o + |t| <= |c| && t == c[o..o + |t|] && i + 6 <= |t| && SpellsUnit(c, o + i, u)
    ensures SpellsUnit(t, i, u)
  {
    hide IsNumeral;
    forall k | 0 <= k < 4 ensures IsNumeral(t[i + 2 + k], Places(u)[k]) {
      assert IsNumeral(c[o + i + 2 + k], Places(u)[k]) && t[i + 2 + k] == c[o + i + 2 + k];
    }
  }

  /** `x` is the character that the second loop reads at `i`, and scan and text go on behind it. */
  ghost predicate ChrStands(x: Chr, c: bytes, i: nat, end: nat, r: Piece) {
    && r.Piece? && i + r.consumed <= end < |c| && ChrOk(false, x) && ChrText(x) == c[i..i + r.consumed] && ChrMeaning(x) == r.out
    && ScanEnd(c, i + r.consumed) == Some(end) && Clean(c, i + r.consumed, end)
  }

  lemma PlainFound(c: bytes, i: nat, end: nat)
    requires i < end < |c| && ScanEnd(c, i) == Some(end) && Clean(c, i, end) && c[i] != BACKSLASH
    ensures ChrStands(Plain(c[i]), c, i, end, ReadPiece(c, i, end))
  {}

  lemma ShortFound(c: bytes, i: nat, end: nat)
    requires i < end < |c| && ScanEnd(c, i) == Some(end) && Clean(c, i, end) && c[i] == BACKSLASH && c[i + 1] != LOWER_U
    requires ReadPiece(c, i, end).Piece?
    ensures ChrStands(Short(c[i + 1]), c, i, end, ReadPiece(c, i, end))
  {
    hide HexDigits, ReadLiteral;
    ScanPair(c, i);
    assert c[i..i + 2] == Ascii("\\") + [c[i + 1]];
  }

  lemma CodedFound(c: bytes, i: nat, end: nat) returns (x: Chr)
    requires i < end < |c| && ScanEnd(c, i) == Some(end) && Clean(c, i, end) && c[i] == BACKSLASH && c[i + 1] == LOWER_U
    requires ReadPiece(c, i, end).Piece?
    ensures ChrStands(x, c, i, end, ReadPiece(c, i, end))
  {
    hide ScanEnd, Clean, HexDigits, Spells, ReadLiteral, Utf8;
    CleanHere(c, i, end);
    LiteralIsSpelling(c, i, end);
    var cp := ReadLiteral(c, i, end).codepoint;
    UnitsFit(c, i, end, cp);
    UnitsCut(c, i, Units(cp));
    x := Coded(cp, c[i..i + 6 * |Units(cp)|]);
    ScanUnits(c, i, Units(cp));
    CleanOverUnits(c, i, Units(cp), end);
  }

  lemma ChrFound(c: bytes, i: nat, end: nat) returns (x: Chr)
    requires i < end < |c| && ScanEnd(c, i) == Some(end) && Clean(c, i, end) && ReadPiece(c, i, end).Piece?
    ensures ChrStands(x, c, i, end, ReadPiece(c, i, end))
  {
    hide *;
    if c[i] != BACKSLASH {
      PlainFound(c, i, end);
      x := Plain(c[i]);
    } else if c[i + 1] == LOWER_U {
      x := CodedFound(c, i, end);
    } else {
      ShortFound(c, i, end);
      x := Short(c[i + 1]);
    }
  }

  lemma CleanHere(c: bytes, i: nat, e: nat)
    requires i < e <= |c| && Clean(c, i, e) && i + 1 < |c| && c[i] == BACKSLASH && c[i + 1] == LOWER_U
    ensures HexDigits(c, i + 2)
  {}

  lemma UnitsFit(c: bytes, i: nat, end: nat, cp: nat)
    requires i < end < |c| && ReadLiteral(c, i, end).Literal? && cp == ReadLiteral(c, i, end).codepoint
    requires Spells(c, i, end, Units(cp))
    ensures ReadLiteral(c, i, end).consumed == 6 * |Units(cp)| && Spells(c, i, |c|, Units(cp))
  {
    hide ReadLiteral, SpellsUnit;
  }

  lemma {:induction false} ChrsFound(c: bytes, i: nat, end: nat) returns (xs: seq<Chr>)
    requires i <= end < |c| && ScanEnd(c, i) == Some(end) && Clean(c, i, end) && Unescape(c, i, end).Unescaped?
    ensures ChrsOk(false, xs) && ChrsText(xs) == c[i..end] && ChrsMeaning(xs) == Unescape(c, i, end).out
    decreases end - i
  {
    hide Clean, ReadPiece, ChrOk, ChrText, ChrMeaning;
    if i == end {
      xs := [];
    } else {
      hide ScanEnd;
      var x := ChrFound(c, i, end);
      var n := ReadPiece(c, i, end).consumed;
      var rest := ChrsFound(c, i + n, end);
      xs := [x] + rest;
      assert c[i..end] == c[i..i + n] + c[i + n..end];
    }
  }

  lemma {:induction false} CleanTo(c: bytes, i: nat, p: nat, e: nat)
    requires p <= e <= |c| && Clean(c, i, e)
    ensures Clean(c, i, p)
    decreases |c| - i
  {
    hide HexDigits;
    if i >= p {
    } else {
      CleanTo(c, if c[i] == BACKSLASH then i + 2 else i + 1, p, e);
    }
  }

  lemma QuotedText(c: bytes, o: nat, end: nat, xs: seq<Chr>)
    requires o < end < |c| && c[o] == QUOTE && c[end] == QUOTE && ChrsText(xs) == c[o + 1..end]
    ensures StringText(xs) == c[o..end + 1]
  {
    hide ChrsText;
  }

  /** A string that is accepted is a string of the grammar. */
  lemma StringFound(c: bytes, o: nat, e: nat) returns (xs: seq<Chr>)
    requires o < |c| && ParseString(c, o).Ok? && ParseString(c, o).offset <= e <= |c| && Clean(c, o, e)
    ensures var r := ParseString(c, o);
            ChrsOk(false, xs) && StringText(xs) == c[o..r.offset] && CString(ChrsMeaning(xs)) == r.value && Clean(c, r.offset, e)
  {
    hide Clean, Unescape, ScanEnd, ChrsOk, ChrsText, ChrsMeaning, CString;
    var end := ScanEnd(c, o + 1).value;
    CleanFrom(c, o, o + 1, e);
    CleanBehind(c, o + 1, e);
    CleanTo(c, o + 1, end, e);
    xs := ChrsFound(c, o + 1, end);
    QuotedText(c, o, end, xs);
  }

  // ---- values ----

  lemma SkipGap(c: bytes, o: nat)
    requires o <= |c|
    ensures var p := SkipBlanks(c, o);
            o <= p <= |c| && Blanks(false, c[o..p]) && forall k :: o <= k < p ==> c[k] != BACKSLASH
  {
    hide BlankEnd;
  }

  lemma CleanBlanks(c: bytes, o: nat, e: nat)
    requires o <= |c| && SkipBlanks(c, o) <= e <= |c| && Clean(c, o, e)
    ensures Clean(c, SkipBlanks(c, o), e)
  {
    hide SkipBlanks, Clean;
    SkipGap(c, o);
    CleanFrom(c, o, SkipBlanks(c, o), e);
  }

  lemma CleanByte(c: bytes, o: nat, e: nat)
    requires o < e <= |c| && c[o] != BACKSLASH && Clean(c, o, e)
    ensures Clean(c, o + 1, e)
  {}

  lemma NumberFound(c: bytes, o: nat, e: nat) returns (n: Numeric)
    requires o < |c| && (c[o] == MINUS || IsDigit(c[o])) && ParseNumber(c, o).Ok? && ParseNumber(c, o).offset <= e <= |c| && Clean(c, o, e)
    ensures var r := ParseNumber(c, o);
            NumberOk(false, n) && NumericText(n) == c[o..r.offset] && r.value == Number(NumericValue(n)) && Clean(c, r.offset, e)
  {
    hide Clean, Strtod, NumberOk, NumericText, NumericValue, NumberEnd;
    var run := c[o..NumberEnd(c, o)];
    assert run[0] == c[o];
    n := NumericFound(run);
    assert run[..Strtod(run).consumed] == c[o..o + Strtod(run).consumed];
    NoBackslash();
    CleanFrom(c, o, ParseNumber(c, o).offset, e);
  }

  lemma NoBackslash()
    ensures !IsNumberByte(BACKSLASH) && BACKSLASH !in TEXT_NULL && BACKSLASH !in TEXT_TRUE && BACKSLASH !in TEXT_FALSE
  {}

  lemma WordFound(c: bytes, o: nat, t: bytes, e: nat)
    requires At(c, o, t) && BACKSLASH !in t && o + |t| <= e <= |c| && Clean(c, o, e)
    ensures c[o..o + |t|] == t && Clean(c, o + |t|, e)
  {
    forall k | o <= k < o + |t| ensures c[k] != BACKSLASH {
      AtIndex(c, o, t, k - o);
    }
    CleanFrom(c, o, o + |t|, e);
  }

  /** `x` stands for what was read from `o`, and the text behind it is clean up to `e`. */
  ghost predicate Stands(x: Syntax, c: bytes, o: nat, r: Parsed<Json>, e: nat) {
    && r.Ok? && o <= r.offset <= e <= |c| && Grammatical(false, x) && Spelling(x) == c[o..r.offset] && Meaning(x) == r.value
    && Clean(c, r.offset, e)
  }

  lemma WordStands(v: Json, t: bytes, c: bytes, o: nat, e: nat)
    requires (v.Null? || v.Bool?) && WordText(v) == t && At(c, o, t) && BACKSLASH !in t && o + |t| <= e <= |c| && Clean(c, o, e)
    ensures Stands(Word(v), c, o, Ok(v, o + |t|), e)
  {
    hide Clean, WordText;
    WordFound(c, o, t, e);
  }

  lemma NumStands(c: bytes, o: nat, e: nat) returns (x: Syntax)
    requires o < |c| && (c[o] == MINUS || IsDigit(c[o])) && ParseNumber(c, o).Ok? && ParseNumber(c, o).offset <= e <= |c| && Clean(c, o, e)
    ensures Stands(x, c, o, ParseNumber(c, o), e)
  {
    hide Clean, ParseNumber, NumberOk, NumericText, NumericValue;
    var n := NumberFound(c, o, e);
    x := Num(n);
  }

  lemma StrStands(c: bytes, o: nat, e: nat) returns (x: Syntax)
    requires o < |c| && ParseString(c, o).Ok? && ParseString(c, o).offset <= e <= |c| && Clean(c, o, e)
    ensures Stands(x, c, o, Ok(String(ParseString(c, o).value), ParseString(c, o).offset), e)
  {
    hide Clean, ParseString, ChrsOk, StringText, CString, ChrsMeaning;
    var xs := StringFound(c, o, e);
    x := Str(xs);
  }

  /** Whatever ParseValue accepts at `o` is a value of the grammar. */
  lemma {:induction false} ValueFound(c: bytes, o: nat, depth: nat, e: nat) returns (x: Syntax)
    requires o <= |c| && ParseValue(c, o, depth).Ok? && ParseValue(c, o, depth).offset <= e <= |c| && Clean(c, o, e)
    ensures Stands(x, c, o, ParseValue(c, o, depth), e)
    decreases |c| - o, 3
  {
    hide At, Clean, ParseNumber, ParseString, ParseArray, ParseObject, Stands, IsDigit;
    WordTexts();
    NoBackslash();
    if At(c, o, TEXT_NULL) {
      x := Word(Null);
      WordStands(Null, TEXT_NULL, c, o, e);
    } else if At(c, o, TEXT_FALSE) {
      x := Word(Bool(false));
      WordStands(Bool(false), TEXT_FALSE, c, o, e);
    } else if At(c, o, TEXT_TRUE) {
      x := Word(Bool(true));
      WordStands(Bool(true), TEXT_TRUE, c, o, e);
    } else if c[o] == QUOTE {
      x := StrStands(c, o, e);
    } else if c[o] == MINUS || IsDigit(c[o]) {
      x := NumStands(c, o, e);
    } else if c[o] == LBRACKET {
      x := ArrayFound(c, o, depth, e);
    } else {
      x := ObjectFound(c, o, depth, e);
    }
  }

  lemma {:induction false} ArrayFound(c: bytes, o: nat, depth: nat, e: nat) returns (x: Syntax)
    requires o < |c| && c[o] == LBRACKET && ParseArray(c, o, depth).Ok? && ParseArray(c, o, depth).offset <= e <= |c| && Clean(c, o, e)
    ensures Stands(x, c, o, ParseArray(c, o, depth), e)
    decreases |c| - o, 2
  {
    hide Clean, ParseElems, SkipBlanks, Stands, Blanks, ElemsOk;
    var p := SkipBlanks(c, o + 1);
    SkipGap(c, o + 1);
    CleanByte(c, o, e);
    CleanBlanks(c, o + 1, e);
    var gap := c[o + 1..p];
    if c[p] == RBRACKET {
      CleanByte(c, p, e);
      x := Arr(gap, []);
      Bracketed(c, o, p);
      EmptyArray(gap, c, o, p, e);
    } else {
      var es := ElemsFound(c, o + 1, p, depth + 1, e);
      x := Arr([], es);
      Cut(c, o, o + 1, ParseElems(c, p, depth + 1).offset);
      One(c, o);
      ArrayStands(es, c, o, ParseElems(c, p, depth + 1).value, ParseElems(c, p, depth + 1).offset, e);
    }
  }

  ghost predicate ElemsOk(es: seq<Elem>) {
    es != [] && forall k :: 0 <= k < |es| ==> ElemOk(false, es[k])
  }

  ghost predicate MemsOk(ms: seq<Mem>) {
    ms != [] && forall k :: 0 <= k < |ms| ==> MemOk(false, ms[k])
  }

  lemma EmptyArray(gap: bytes, c: bytes, o: nat, p: nat, e: nat)
    requires Blanks(false, gap) && o <= p < e <= |c| && c[o..p + 1] == [LBRACKET] + (gap + [RBRACKET]) && Clean(c, p + 1, e)
    ensures Stands(Arr(gap, []), c, o, Ok(Array([]), p + 1), e)
  {
    hide Clean, Blanks;
    NothingMeans();
  }

  lemma EmptyObject(gap: bytes, c: bytes, o: nat, p: nat, e: nat)
    requires Blanks(false, gap) && o <= p < e <= |c| && c[o..p + 1] == [LBRACE] + (gap + [RBRACE]) && Clean(c, p + 1, e)
    ensures Stands(Obj(gap, []), c, o, Ok(Object([]), p + 1), e)
  {
    hide Clean, Blanks;
    NothingMeans();
  }

  lemma ArrayStands(es: seq<Elem>, c: bytes, o: nat, vs: seq<Json>, q: nat, e: nat)
    requires ElemsOk(es) && o <= q <= e <= |c| && Clean(c, q, e)
    requires c[o..q] == [LBRACKET] + ElemsSpelling(es) && ElemsMeaning(es) == vs
    ensures Stands(Arr([], es), c, o, Ok(Array(vs), q), e)
  {
    hide Clean, ElemsSpelling, ElemsMeaning, ElemOk;
  }

  lemma ObjectStands(ms: seq<Mem>, c: bytes, o: nat, vs: seq<Member>, q: nat, e: nat)
    requires MemsOk(ms) && o <= q <= e <= |c| && Clean(c, q, e)
    requires c[o..q] == [LBRACE] + MembersSpelling(ms) && MembersMeaning(ms) == vs
    ensures Stands(Obj([], ms), c, o, Ok(Object(vs), q), e)
  {
    hide Clean, MembersSpelling, MembersMeaning, MemOk;
  }

  lemma Cut(c: bytes, a: nat, b: nat, d: nat)
    requires a <= b <= d <= |c|
    ensures c[a..d] == c[a..b] + c[b..d]
  {}

  lemma One(c: bytes, a: nat)
    requires a < |c|
    ensures c[a..a + 1] == [c[a]]
  {}

  lemma Bracketed(c: bytes, o: nat, p: nat)
    requires o < p < |c|
    ensures c[o..p + 1] == [c[o]] + (c[o + 1..p] + [c[p]])
  {}

  lemma WiderBlanks(a: bytes, b: bytes)
    requires Blanks(false, a) && Blanks(false, b)
    ensures Blanks(false, a + b)
  {}

  /** The elements from `o`, with blanks in front of them from `g` on, to the closing bracket. */
  lemma {:induction false} ElemsFound(c: bytes, g: nat, o: nat, depth: nat, e: nat) returns (es: seq<Elem>)
    requires g <= o <= |c| && Blanks(false, c[g..o])
    requires ParseElems(c, o, depth).Ok? && ParseElems(c, o, depth).offset <= e <= |c| && Clean(c, o, e)
    ensures var r := ParseElems(c, o, depth);
            && ElemsOk(es) && g <= r.offset && ElemsSpelling(es) == c[g..r.offset] && ElemsMeaning(es) == r.value
            && Clean(c, r.offset, e)
    decreases |c| - o, 4
  {
    hide Clean, ParseValue, SkipBlanks, Stands, Blanks, ElemsOk, ElemsSpelling, ElemsMeaning;
    var p := SkipBlanks(c, o);
    var r := ParseValue(c, p, depth);
    var s := r.offset;
    var q := SkipBlanks(c, s);
    SkipGap(c, o);
    SkipGap(c, s);
    Cut(c, g, o, p);
    WiderBlanks(c[g..o], c[o..p]);
    CleanBlanks(c, o, e);
    var x := ValueFound(c, p, depth, e);
    CleanAfter(x, c, p, r, e);
    CleanBlanks(c, s, e);
    CleanByte(c, q, e);
    if c[q] == COMMA {
      EmptyBlanks(c, q + 1);
      var rest := ElemsFound(c, q + 1, q + 1, depth, e);
      es := [Elem(c[g..p], x, c[s..q])] + rest;
      ElemsJoin(x, rest, c, g, p, r, q, ParseElems(c, q + 1, depth).offset, e);
    } else {
      es := [Elem(c[g..p], x, c[s..q])];
      ElemsLast(x, c, g, p, r, q, e);
    }
  }

  lemma EmptyBlanks(c: bytes, o: nat)
    requires o <= |c|
    ensures Blanks(false, c[o..o])
  {}

  lemma CleanAfter(x: Syntax, c: bytes, p: nat, r: Parsed<Json>, e: nat)
    requires Stands(x, c, p, r, e)
    ensures r.Ok? && p <= r.offset <= e <= |c| && Clean(c, r.offset, e)
  {}

  lemma ElemsLast(x: Syntax, c: bytes, o: nat, p: nat, r: Parsed<Json>, q: nat, e: nat)
    requires Stands(x, c, p, r, e) && o <= p && r.offset <= q < |c| && c[q] == RBRACKET
    requires Blanks(false, c[o..p]) && Blanks(false, c[r.offset..q])
    ensures var es := [Elem(c[o..p], x, c[r.offset..q])];
            ElemsOk(es) && ElemsSpelling(es) == c[o..q + 1] && ElemsMeaning(es) == [r.value]
  {
    hide Clean, Blanks, Spelling, Meaning, Grammatical;
    var es := [Elem(c[o..p], x, c[r.offset..q])];
    FourPieces(c, o, p, r.offset, q, q + 1);
    NoTail(c[q], c, q + 1);
    assert es[1..] == [];
    assert ElemsEnd(es) == [RBRACKET];
  }

  lemma ElemsJoin(x: Syntax, rest: seq<Elem>, c: bytes, o: nat, p: nat, r: Parsed<Json>, q: nat, end: nat, e: nat)
    requires Stands(x, c, p, r, e) && o <= p && r.offset <= q < end <= |c| && c[q] == COMMA
    requires Blanks(false, c[o..p]) && Blanks(false, c[r.offset..q]) && ElemsOk(rest) && ElemsSpelling(rest) == c[q + 1..end]
    ensures var es := [Elem(c[o..p], x, c[r.offset..q])] + rest;
            ElemsOk(es) && ElemsSpelling(es) == c[o..end] && ElemsMeaning(es) == [r.value] + ElemsMeaning(rest)
  {
    hide Clean, Blanks, Spelling, Meaning, Grammatical;
    var es := [Elem(c[o..p], x, c[r.offset..q])] + rest;
    FourPieces(c, o, p, r.offset, q, end);
    assert es[1..] == rest;
    assert forall k :: 1 <= k < |es| ==> es[k] == rest[k - 1];
    assert ElemSpelling(es) == Spelling(x) + (c[r.offset..q] + ([COMMA] + ElemsSpelling(rest)));
  }

  lemma FourPieces(c: bytes, o: nat, p: nat, s: nat, q: nat, end: nat)
    requires o <= p <= s <= q < end <= |c|
    ensures c[o..end] == c[o..p] + (c[p..s] + (c[s..q] + ([c[q]] + c[q + 1..end])))
  {
    Cut(c, o, p, end);
    Cut(c, p, s, end);
    Cut(c, s, q, end);
    Cut(c, q, q + 1, end);
    One(c, q);
    Nest(c[o..end], c[o..p], c[p..end], c[p..s], c[s..end], c[s..q], c[q..end], c[q..q + 1], c[q + 1..end]);
  }

  lemma Nest(w: bytes, a: bytes, r1: bytes, b: bytes, r2: bytes, d: bytes, r3: bytes, e: bytes, r4: bytes)
    requires w == a + r1 && r1 == b + r2 && r2 == d + r3 && r3 == e + r4
    ensures w == a + (b + (d + (e + r4)))
  {}

  lemma NoTail(b: byte, c: bytes, e: nat)
    requires e <= |c|
    ensures [b] + c[e..e] == [b]
  {}

  lemma {:induction false} ObjectFound(c: bytes, o: nat, depth: nat, e: nat) returns (x: Syntax)
    requires o < |c| && c[o] == LBRACE && ParseObject(c, o, depth).Ok? && ParseObject(c, o, depth).offset <= e <= |c| && Clean(c, o, e)
    ensures Stands(x, c, o, ParseObject(c, o, depth), e)
    decreases |c| - o, 2
  {
    hide Clean, ParseMembers, SkipBlanks, Stands, Blanks, MemsOk;
    var p := SkipBlanks(c, o + 1);
    SkipGap(c, o + 1);
    CleanByte(c, o, e);
    CleanBlanks(c, o + 1, e);
    var gap := c[o + 1..p];
    if c[p] == RBRACE {
      CleanByte(c, p, e);
      x := Obj(gap, []);
      Bracketed(c, o, p);
      EmptyObject(gap, c, o, p, e);
    } else {
      var ms := MembersFound(c, o + 1, p, depth + 1, e);
      x := Obj([], ms);
      Cut(c, o, o + 1, ParseMembers(c, p, depth + 1).offset);
      One(c, o);
      ObjectStands(ms, c, o, ParseMembers(c, p, depth + 1).value, ParseMembers(c, p, depth + 1).offset, e);
    }
  }

  /** One member, from the blanks in front of its key to the end of its value. */
  lemma {:induction false} MemberFound(c: bytes, g: nat, o: nat, depth: nat, e: nat) returns (m: Mem)
    requires g <= o < |c| && Blanks(false, c[g..o])
    requires ParseMember(c, o, depth).Ok? && ParseMember(c, o, depth).offset <= e <= |c| && Clean(c, o, e)
    ensures var r := ParseMember(c, o, depth);
            && (forall after :: Blanks(false, after) ==> MemOk(false, m.(after := after)))
            && g <= r.offset && m.before + (StringText(m.key) + (m.colon + ([COLON] + (m.gap + Spelling(m.value))))) == c[g..r.offset]
            && MemberMeaning(m) == r.value && Clean(c, r.offset, e)
    decreases |c| - o, 4
  {
    hide Clean, ParseString, ParseValue, SkipBlanks, Stands, Blanks, MemOk, StringText, Spelling, ChrsOk, ChrsMeaning, CString, Meaning;
    var p := SkipBlanks(c, o);
    var s := ParseString(c, p).offset;
    var q := SkipBlanks(c, s);
    var v := SkipBlanks(c, q + 1);
    SkipGap(c, o);
    SkipGap(c, s);
    SkipGap(c, q + 1);
    Cut(c, g, o, p);
    WiderBlanks(c[g..o], c[o..p]);
    CleanBlanks(c, o, e);
    var key := StringFound(c, p, e);
    CleanBlanks(c, s, e);
    CleanByte(c, q, e);
    CleanBlanks(c, q + 1, e);
    var x := ValueFound(c, v, depth, e);
    CleanAfter(x, c, v, ParseValue(c, v, depth), e);
    m := Mem(c[g..p], key, c[s..q], c[q + 1..v], x, []);
    MemberPieces(m, c, g, p, s, q, v, ParseValue(c, v, depth), e);
  }

  lemma MemberPieces(m: Mem, c: bytes, o: nat, p: nat, s: nat, q: nat, v: nat, r: Parsed<Json>, e: nat)
    requires o <= p <= s <= q < v <= |c| && c[q] == COLON && Stands(m.value, c, v, r, e)
    requires ChrsOk(false, m.key) && StringText(m.key) == c[p..s]
    requires m.before == c[o..p] && m.colon == c[s..q] && m.gap == c[q + 1..v]
    requires Blanks(false, m.before) && Blanks(false, m.colon) && Blanks(false, m.gap)
    ensures forall after :: Blanks(false, after) ==> MemOk(false, m.(after := after))
    ensures m.before + (StringText(m.key) + (m.colon + ([COLON] + (m.gap + Spelling(m.value))))) == c[o..r.offset]
    ensures Meaning(m.value) == r.value
  {
    hide Clean, Blanks, Spelling, Meaning, Grammatical, ChrsOk, StringText;
    FourPieces(c, o, p, s, q, r.offset);
    assert c[q + 1..r.offset] == c[q + 1..v] + c[v..r.offset];
  }

  lemma {:induction false} MembersFound(c: bytes, g: nat, o: nat, depth: nat, e: nat) returns (ms: seq<Mem>)
    requires 0 < o && g <= o <= |c| && Blanks(false, c[g..o])
    requires ParseMembers(c, o, depth).Ok? && ParseMembers(c, o, depth).offset <= e <= |c| && Clean(c, o, e)
    ensures var r := ParseMembers(c, o, depth);
            && ms != [] && MemsOk(ms) && g <= r.offset && MembersSpelling(ms) == c[g..r.offset] && MembersMeaning(ms) == r.value
            && Clean(c, r.offset, e)
    decreases |c| - o, 5
  {
    hide Clean, ParseMember, SkipBlanks, Blanks, MemOk, MemsOk, MembersSpelling, MembersMeaning, StringText, Spelling, MemberMeaning;
    var r := ParseMember(c, o, depth);
    var s := r.offset;
    var q := SkipBlanks(c, s);
    SkipGap(c, s);
    var m0 := MemberFound(c, g, o, depth, e);
    var m := m0.(after := c[s..q]);
    MeansSame(m, m0);
    CleanBlanks(c, s, e);
    CleanByte(c, q, e);
    if c[q] == COMMA {
      EmptyBlanks(c, q + 1);
      var rest := MembersFound(c, q + 1, q + 1, depth, e);
      ms := [m] + rest;
      MembersJoin(m, rest, c, g, s, q, ParseMembers(c, q + 1, depth).offset);
    } else {
      ms := [m];
      MembersLast(m, c, g, s, q);
    }
  }

  lemma MembersLast(m: Mem, c: bytes, o: nat, s: nat, q: nat)
    requires o <= s <= q < |c| && c[q] == RBRACE && MemOk(false, m) && m.after == c[s..q]
    requires m.before + (StringText(m.key) + (m.colon + ([COLON] + (m.gap + Spelling(m.value))))) == c[o..s]
    ensures MemsOk([m]) && MembersSpelling([m]) == c[o..q + 1] && MembersMeaning([m]) == [MemberMeaning(m)]
  {
    hide MemOk, StringText, Spelling, CString, ChrsMeaning, Meaning;
    Regroup(m.before, StringText(m.key), m.colon, [COLON], m.gap, Spelling(m.value), m.after + [RBRACE]);
    Cut(c, o, s, q + 1);
    Cut(c, s, q, q + 1);
    One(c, q);
    assert [m][1..] == [];
    assert MembersEnd([m]) == [RBRACE];
    MembersSpellingIs([m]);
  }

  lemma MembersJoin(m: Mem, rest: seq<Mem>, c: bytes, o: nat, s: nat, q: nat, end: nat)
    requires o <= s <= q < end <= |c| && c[q] == COMMA && MemOk(false, m) && m.after == c[s..q]
    requires m.before + (StringText(m.key) + (m.colon + ([COLON] + (m.gap + Spelling(m.value))))) == c[o..s]
    requires MemsOk(rest) && rest != [] && MembersSpelling(rest) == c[q + 1..end]
    ensures var ms := [m] + rest;
            MemsOk(ms) && MembersSpelling(ms) == c[o..end] && MembersMeaning(ms) == [MemberMeaning(m)] + MembersMeaning(rest)
  {
    hide *;
    var ms := [m] + rest;
    MembersCons(m, rest);
    MembersSpellingIs(ms);
    var tail := m.after + ([COMMA] + MembersSpelling(rest));
    Regroup(m.before, StringText(m.key), m.colon, [COLON], m.gap, Spelling(m.value), tail);
    Cut(c, o, s, end);
    Cut(c, s, q, end);
    Cut(c, q, q + 1, end);
    One(c, q);
    assert c[s..end] == tail;
  }

  lemma MembersCons(m: Mem, rest: seq<Mem>)
    requires MemOk(false, m) && rest != [] && MemsOk(rest)
    ensures var ms := [m] + rest;
            MemsOk(ms) && ms[0] == m && MembersEnd(ms) == [COMMA] + MembersSpelling(rest)
            && MembersMeaning(ms) == [MemberMeaning(m)] + MembersMeaning(rest)
  {
    hide MemOk, CString, ChrsMeaning, Meaning, MembersSpelling;
    var ms := [m] + rest;
    assert ms[1..] == rest;
    assert forall k :: 1 <= k < |ms| ==> ms[k] == rest[k - 1];
  }

  lemma MembersSpellingIs(ms: seq<Mem>)
    requires ms != []
    ensures var m := ms[0];
            MembersSpelling(ms) ==
            m.before + (StringText(m.key) + (m.colon + ([COLON] + (m.gap + (Spelling(m.value) + (m.after + MembersEnd(ms)))))))
  {
    hide StringText, Spelling, MembersEnd;
    assert MemberRest(ms) == Spelling(ms[0].value) + (ms[0].after + MembersEnd(ms));
    assert MemberSpelling(ms) == StringText(ms[0].key) + (ms[0].colon + ([COLON] + (ms[0].gap + MemberRest(ms))));
  }

  lemma Regroup(a: bytes, b: bytes, c: bytes, d: bytes, e: bytes, f: bytes, g: bytes)
    ensures a + (b + (c + (d + (e + (f + g))))) == (a + (b + (c + (d + (e + f))))) + g
  {}

  lemma MeansSame(m: Mem, n: Mem)
    requires m.key == n.key && m.value == n.value
    ensures MemberMeaning(m) == MemberMeaning(n)
  {}

  // ---- documents ----

  /** The text is a value with blanks around it, behind a byte order mark or not, that nests at most 1000 deep. */
  ghost predicate IsDocument(s: bytes, mark: bytes, before: bytes, x: Syntax, after: bytes) {
    && s == mark + (before + (Spelling(x) + after)) && (mark == [] || mark == [0xEF, 0xBB, 0xBF])
    && Blanks(false, before) && Blanks(false, after) && Grammatical(false, x) && Nesting(Meaning(x)) <= 1000
  }

  /** What ParseValue accepts nests within the limit. */
  lemma NestsWithin(x: Syntax, c: bytes, o: nat, e: nat)
    requires o <= |c| && Stands(x, c, o, ParseValue(c, o, 0), e)
    ensures Nesting(Meaning(x)) <= NESTING_LIMIT
  {
    hide Clean, ParseValue, Spelling, Grammatical;
    if !x.Num? {
      ValueReads(x, c, o, 0);
    }
  }

  lemma MarkSkipped(s: bytes, mark: bytes, before: bytes, x: Syntax, after: bytes)
    requires IsDocument(s, mark, before, x, after)
    ensures SkipBom(s + [NUL]) == |mark|
  {
    hide Spelling, Grammatical, Meaning, Nesting;
    var c := s + [NUL];
    FirstByte(x);
    if mark == [] {
      assert s[0] < 0x80 by {
        if before == [] {
          assert s[0] == Spelling(x)[0];
        } else {
          assert s[0] == before[0];
        }
      }
      assert c[0] == s[0];
      if At(c, 0, BOM) {
        AtIndex(c, 0, BOM, 0);
      }
    } else {
      assert c[0..3] == mark;
    }
  }

  lemma DocumentRead(s: bytes, mark: bytes, before: bytes, x: Syntax, after: bytes)
    requires IsDocument(s, mark, before, x, after)
    ensures Parse(s, true) == Ok(Meaning(x), |s|)
  {
    hide *;
    var c, o := s + [NUL], |mark| + |before|;
    DocumentParts(s, mark, before, x, after);
    MarkSkipped(s, mark, before, x, after);
    FirstByte(x);
    Whole(c);
    AtConcat(c, 0, mark, before + (Spelling(x) + (after + [NUL])));
    SkipTo(c, |mark|, before, Spelling(x) + (after + [NUL]));
    AtConcat(c, o, Spelling(x), after + [NUL]);
    var p := o + |Spelling(x)|;
    NulStops();
    StopsBehind(c, p, after, [NUL]);
    ValueReads(x, c, o, 0);
    WithinLimit(ParseValue(c, o, 0), x, p);
    BlanksToEnd(c, p, after);
    ParseBy(s, c, |mark|, o, Meaning(x), p, |s|);
  }

  lemma DocumentParts(s: bytes, mark: bytes, before: bytes, x: Syntax, after: bytes)
    requires IsDocument(s, mark, before, x, after)
    ensures s + [NUL] == mark + (before + (Spelling(x) + (after + [NUL]))) && |s| == |mark| + |before| + |Spelling(x)| + |after|
    ensures Blanks(false, before) && Blanks(false, after) && Grammatical(false, x) && Nesting(Meaning(x)) <= NESTING_LIMIT
    ensures 0 <= NESTING_LIMIT
  {
    hide Spelling, Grammatical, Meaning, Nesting, Blanks;
  }

  lemma WithinLimit(r: Parsed<Json>, x: Syntax, p: nat)
    requires Reads(r, 0 + Nesting(Meaning(x)), Meaning(x), p) && Nesting(Meaning(x)) <= NESTING_LIMIT
    ensures r == Ok(Meaning(x), p)
  {}

  lemma ParseBy(s: bytes, c: bytes, b: nat, o: nat, v: Json, p: nat, q: nat)
    requires c == s + [NUL] && b == SkipBom(c) && o == SkipBlanks(c, b) && ParseValue(c, o, 0) == Ok(v, p)
    requires SkipBlanks(c, p) == q < |c| && c[q] == NUL
    ensures Parse(s, true) == Ok(v, q)
  {
    hide SkipBom, SkipBlanks, ParseValue;
  }

  lemma OnlyNul(s: bytes, q: nat)
    requires NulFree(s) && q <= |s| && (s + [NUL])[q] == NUL
    ensures q == |s|
  {}

  lemma NulStops()
    ensures !IsNumberByte(NUL)
  {}

  lemma {:induction false} AllBlank(c: bytes, p: nat)
    requires p <= |c| && forall k :: p <= k < |c| ==> c[k] <= 32
    ensures BlankEnd(c, p) == |c|
    decreases |c| - p
  {
    if p == |c| {
    } else {
      AllBlank(c, p + 1);
    }
  }

  lemma BlanksToEnd(c: bytes, p: nat, after: bytes)
    requires At(c, p, after + [NUL]) && |c| == p + |after| + 1 && Blanks(false, after)
    ensures SkipBlanks(c, p) == |c| - 1 && c[|c| - 1] == NUL
  {
    hide At;
    forall k | p <= k < |c| ensures c[k] <= 32 {
      AtIndex(c, p, after + [NUL], k - p);
    }
    AtIndex(c, p, after + [NUL], |after|);
    AllBlank(c, p);
  }

  lemma DocumentFound(s: bytes, v: Json, end: nat) returns (mark: bytes, before: bytes, x: Syntax, after: bytes)
    requires NulFree(s) && Clean(s + [NUL], 0, |s|) && Parse(s, true) == Ok(v, end)
    ensures IsDocument(s, mark, before, x, after) && Meaning(x) == v && end == |s|
  {
    hide Clean, Spelling, Grammatical, Meaning, Nesting, ParseValue, SkipBlanks, At, Blanks, BlankEnd;
    var c := s + [NUL];
    var b := SkipBom(c);
    var o := SkipBlanks(c, b);
    var r := ParseValue(c, o, 0);
    var q := SkipBlanks(c, r.offset);
    OnlyNul(s, q);
    SkipGap(c, b);
    SkipGap(c, r.offset);
    MarkBytes(c);
    CleanFrom(c, 0, b, |s|);
    CleanBlanks(c, b, |s|);
    x := ValueFound(c, o, 0, |s|);
    NestsWithin(x, c, o, |s|);
    mark, before, after := c[..b], c[b..o], c[r.offset..q];
    Cut(c, 0, b, |s|);
    Cut(c, b, o, |s|);
    Cut(c, o, r.offset, |s|);
    assert s == c[0..|s|];
  }

  lemma MarkBytes(c: bytes)
    ensures var b := SkipBom(c);
            && b <= |c| && (c[..b] == [] || c[..b] == [0xEF, 0xBB, 0xBF]) && forall k :: 0 <= k < b ==> c[k] != BACKSLASH
  {
    var b := SkipBom(c);
    if b == 3 {
      assert c[..3] == BOM;
      assert forall k :: 0 <= k < b ==> c[k] == c[..3][k];
    }
  }

  /**
    The language of the parser, for every C string whose \u escapes have their four digits: with a required NUL
    it accepts exactly the documents of the grammar that nest at most 1000 deep, and reads them as what they mean.
   */
  lemma AcceptedDocuments(s: bytes, v: Json)
    requires NulFree(s) && Clean(s + [NUL], 0, |s|)
    ensures (exists end :: Parse(s, true) == Ok(v, end)) <==>
            exists mark, before, x, after :: IsDocument(s, mark, before, x, after) && Meaning(x) == v
  {
    hide Clean, IsDocument, Meaning, Parse;
    if end :| Parse(s, true) == Ok(v, end) {
      var mark, before, x, after := DocumentFound(s, v, end);
    }
    if mark, before, x, after :| IsDocument(s, mark, before, x, after) && Meaning(x) == v {
      DocumentRead(s, mark, before, x, after);
    }
  }

  // ---- the grammar of the standard ----

  lemma {:induction false} StrictIsLoose(x: Syntax)
    requires Grammatical(true, x)
    ensures Grammatical(false, x)
    decreases x, 0
  {
    match x
    case Word(_) =>
    case Num(_) =>
    case Str(cs) => assert forall k :: 0 <= k < |cs| ==> ChrOk(true, cs[k]);
    case Arr(_, es) =>
      forall k | 0 <= k < |es| ensures ElemOk(false, es[k]) {
        assert ElemOk(true, es[k]);
        StrictIsLoose(es[k].value);
      }
    case Obj(_, ms) =>
      forall k | 0 <= k < |ms| ensures MemOk(false, ms[k]) {
        assert MemOk(true, ms[k]);
        assert forall j :: 0 <= j < |ms[k].key| ==> ChrOk(true, ms[k].key[j]);
        StrictIsLoose(ms[k].value);
      }
  }

  /** Every JSON text of RFC 8259 that nests at most 1000 deep is accepted, and read as what it means. */
  lemma StandardAccepted(before: bytes, x: Syntax, after: bytes)
    requires Blanks(true, before) && Blanks(true, after) && Grammatical(true, x) && Nesting(Meaning(x)) <= 1000
    ensures var s := before + (Spelling(x) + after); Parse(s, true) == Ok(Meaning(x), |s|)
  {
    hide Spelling, Grammatical, Meaning, Nesting, Parse;
    StrictIsLoose(x);
    var s := before + (Spelling(x) + after);
    assert [] + s == s;
    DocumentRead(s, [], before, x, after);
  }
}
