/** Minifying a JSON text: exactly the blanks go. So minifying what is printed formatted gives what is printed unformatted. */
module MinifySyntax {
  import opened Bytes
  import opened Decimals
  import opened JsonText
  import opened JsonSyntax
  import opened Utf16
  import JsonParser
  import opened Minify
  import opened MinifyPieces
  import opened RoundTrip
  import opened SyntaxParse
  import SyntaxSound

  /** The last character of the string is no escaped backslash, which the minifier takes for an escape of the quote. */
  predicate TidyString(cs: seq<Chr>) {
    cs == [] || cs[|cs| - 1] != Short('\\' as int)
  }

  predicate Tidy(x: Syntax)
    decreases x, 0
  {
    match x
    case Str(cs) => TidyString(cs)
    case Arr(_, es) => forall k :: 0 <= k < |es| ==> Tidy(es[k].value)
    case Obj(_, ms) => forall k :: 0 <= k < |ms| ==> TidyString(ms[k].key) && Tidy(ms[k].value)
    case _ => true
  }

  /** The same value without blanks. */
  function Stripped(x: Syntax): Syntax
    decreases x, 0
  {
    match x
    case Arr(_, es) => Arr([], StrippedElems(es))
    case Obj(_, ms) => Obj([], StrippedMems(ms))
    case _ => x
  }

  function StrippedElems(es: seq<Elem>): (r: seq<Elem>)
    ensures |r| == |es|
    decreases es, 0
  {
    if es == [] then [] else [Elem([], Stripped(es[0].value), [])] + StrippedElems(es[1..])
  }

  function StrippedMems(ms: seq<Mem>): (r: seq<Mem>)
    ensures |r| == |ms|
    decreases ms, 0
  {
    if ms == [] then [] else [Mem([], ms[0].key, [], [], Stripped(ms[0].value), [])] + StrippedMems(ms[1..])
  }

  // ---- the parts of a text ----

  lemma {:induction false} BlanksGo(gap: bytes, rest: bytes)
    requires Blanks(true, gap)
    ensures Minified(gap + rest) == Minified(rest)
    decreases |gap|
  {
    hide Minified;
    if gap == [] {
      assert gap + rest == rest;
    } else {
      assert gap + rest == [gap[0]] + (gap[1..] + rest);
      PieceMinified(Piece.Gap(gap[0]), gap[1..] + rest);
      BlanksGo(gap[1..], rest);
    }
  }

  predicate Ordinary(t: bytes) {
    forall k :: 0 <= k < |t| ==> PieceOk(Other(t[k]))
  }

  lemma {:induction false} OrdinaryStays(t: bytes, rest: bytes)
    requires Ordinary(t)
    ensures Minified(t + rest) == t + Minified(rest)
    decreases |t|
  {
    hide Minified, PieceOk;
    if t == [] {
      assert t + rest == rest;
    } else {
      assert t + rest == [t[0]] + (t[1..] + rest);
      PieceMinified(Other(t[0]), t[1..] + rest);
      OrdinaryStays(t[1..], rest);
      assert t + Minified(rest) == [t[0]] + (t[1..] + Minified(rest));
    }
  }

  lemma ByteStays(b: byte, rest: bytes)
    requires PieceOk(Other(b))
    ensures Minified([b] + rest) == [b] + Minified(rest)
  {
    hide Minified;
    PieceMinified(Other(b), rest);
  }

  // ---- strings ----

  lemma {:induction false} QuotesInside(cs: seq<Chr>)
    requires ChrsOk(true, cs)
    ensures QuotesEscaped(ChrsText(cs))
    ensures ChrsText(cs) != [] ==> ChrsText(cs)[0] != QUOTE
    decreases |cs|
  {
    hide ChrOk, ChrText;
    if cs == [] {
    } else {
      QuotesInside(cs[1..]);
      QuotesInChr(cs[0]);
      var a, b := ChrText(cs[0]), ChrsText(cs[1..]);
      forall k | 0 <= k < |a + b| && (a + b)[k] == QUOTE ensures k > 0 && (a + b)[k - 1] == BACKSLASH {
        if k >= |a| {
          assert b[k - |a|] == QUOTE;
        }
      }
    }
  }

  lemma QuotesInChr(c: Chr)
    requires ChrOk(true, c)
    ensures ChrText(c) != [] && ChrText(c)[0] != QUOTE && QuotesEscaped(ChrText(c))
    ensures c != Short('\\' as int) ==> ChrText(c)[|ChrText(c)| - 1] != BACKSLASH
  {
    if c.Coded? {
      CodedBytes(c);
    }
  }

  lemma CodedBytes(c: Chr)
    requires c.Coded? && ChrOk(true, c)
    ensures var t := c.text; t != [] && (forall k :: 0 <= k < |t| ==> t[k] != QUOTE) && t[|t| - 1] != BACKSLASH
  {
    hide SpellsUnit;
    var t, us := c.text, Units(c.cp);
    forall k | 0 <= k < |t| ensures t[k] != QUOTE && (k % 6 != 0 ==> t[k] != BACKSLASH) {
      assert SpellsUnit(t, 0 + 6 * (k / 6), us[k / 6]);
      UnitBytes(t, 6 * (k / 6), us[k / 6], k % 6);
    }
    assert (|t| - 1) % 6 == 5;
  }

  lemma UnitBytes(t: bytes, i: nat, u: nat, d: nat)
    requires SpellsUnit(t, i, u) && d < 6
    ensures t[i + d] != QUOTE && (d != 0 ==> t[i + d] != BACKSLASH)
  {
    hide NumeralsOf;
    NumeralsAreDigits(t, i + 2, u);
  }

  lemma {:induction false} LastByte(cs: seq<Chr>)
    requires ChrsOk(true, cs) && TidyString(cs)
    ensures ChrsText(cs) != [] ==> ChrsText(cs)[|ChrsText(cs)| - 1] != BACKSLASH
    decreases |cs|
  {
    hide ChrOk, ChrText;
    if cs == [] {
    } else {
      QuotesInChr(cs[0]);
      LastByte(cs[1..]);
      if |cs| > 1 {
        QuotesInChr(cs[1]);
      }
    }
  }

  lemma StringStays(cs: seq<Chr>, rest: bytes)
    requires ChrsOk(true, cs) && TidyString(cs)
    ensures Minified(StringText(cs) + rest) == StringText(cs) + Minified(rest)
  {
    hide Minified, ChrsOk, ChrsText, TidyString;
    QuotesInside(cs);
    LastByte(cs);
    PieceMinified(MinifyPieces.Literal(ChrsText(cs)), rest);
  }

  // ---- values ----

  lemma NumberBytesOrdinary(t: bytes)
    requires forall k :: 0 <= k < |t| ==> JsonParser.IsNumberByte(t[k])
    ensures Ordinary(t)
  {}

  lemma WordsOrdinary()
    ensures Ordinary(TEXT_NULL) && Ordinary(TEXT_TRUE) && Ordinary(TEXT_FALSE)
  {}

  lemma OrdinaryBytes(x: Syntax)
    requires Grammatical(true, x) && (x.Word? || x.Num?)
    ensures Ordinary(Spelling(x))
  {
    hide Ordinary, WordText, NumericText, NumberOk;
    if x.Num? {
      NumberLoose(x.n);
      NumericBytes(x.n);
      NumberBytesOrdinary(NumericText(x.n));
    } else {
      WordTexts();
      WordsOrdinary();
    }
  }

  /** The same as a continuation: what is in front of any text is minified on its own. */
  lemma {:induction false} ValueStripped(x: Syntax, rest: bytes)
    requires Grammatical(true, x) && Tidy(x)
    ensures Minified(Spelling(x) + rest) == Spelling(Stripped(x)) + Minified(rest)
    decreases x, 0
  {
    hide Minified, Ordinary, StringText, ChrsOk, TidyString, NumericText, NumberOk, WordText, ElemsSpelling, MembersSpelling;
    match x
    case Word(_) =>
      OrdinaryBytes(x);
      OrdinaryStays(Spelling(x), rest);
    case Num(_) =>
      OrdinaryBytes(x);
      OrdinaryStays(Spelling(x), rest);
    case Str(cs) => StringStays(cs, rest);
    case Arr(gap, es) => ArrayStripped(gap, es, rest);
    case Obj(gap, ms) => ObjectStripped(gap, ms, rest);
  }

  lemma Brackets()
    ensures PieceOk(Other(LBRACKET)) && PieceOk(Other(RBRACKET)) && PieceOk(Other(LBRACE)) && PieceOk(Other(RBRACE))
    ensures PieceOk(Other(COMMA)) && PieceOk(Other(COLON))
  {}

  lemma ArraySpelling(gap: bytes, es: seq<Elem>)
    ensures Spelling(Arr(gap, es)) == [LBRACKET] + if es == [] then gap + [RBRACKET] else ElemsSpelling(es)
  {
    hide ElemsSpelling;
  }

  lemma ObjectSpelling(gap: bytes, ms: seq<Mem>)
    ensures Spelling(Obj(gap, ms)) == [LBRACE] + if ms == [] then gap + [RBRACE] else MembersSpelling(ms)
  {
    hide MembersSpelling;
  }

  lemma Strips(gap: bytes, es: seq<Elem>, ms: seq<Mem>)
    ensures Stripped(Arr(gap, es)) == Arr([], StrippedElems(es)) && Stripped(Obj(gap, ms)) == Obj([], StrippedMems(ms))
  {
    hide StrippedElems, StrippedMems;
  }

  lemma ArrayTidy(gap: bytes, es: seq<Elem>)
    requires Grammatical(true, Arr(gap, es)) && Tidy(Arr(gap, es))
    ensures Blanks(true, gap) && forall k :: 0 <= k < |es| ==> ElemOk(true, es[k]) && Tidy(es[k].value)
  {
    hide ElemOk, Blanks;
  }

  lemma ObjectTidy(gap: bytes, ms: seq<Mem>)
    requires Grammatical(true, Obj(gap, ms)) && Tidy(Obj(gap, ms))
    ensures Blanks(true, gap) && forall k :: 0 <= k < |ms| ==> MemOk(true, ms[k]) && TidyString(ms[k].key) && Tidy(ms[k].value)
  {
    hide MemOk, Blanks, TidyString;
  }

  lemma ArrayTexts(gap: bytes, es: seq<Elem>)
    requires Grammatical(true, Arr(gap, es)) && Tidy(Arr(gap, es))
    ensures Spelling(Arr(gap, es)) == [LBRACKET] + if es == [] then gap + [RBRACKET] else ElemsSpelling(es)
    ensures Spelling(Stripped(Arr(gap, es))) == [LBRACKET] + if es == [] then [RBRACKET] else ElemsSpelling(StrippedElems(es))
    ensures Blanks(true, gap) && forall k :: 0 <= k < |es| ==> ElemOk(true, es[k]) && Tidy(es[k].value)
  {
    hide *;
    ArraySpelling(gap, es);
    ArraySpelling([], StrippedElems(es));
    Strips(gap, es, []);
    ArrayTidy(gap, es);
    assert [] + [RBRACKET] == [RBRACKET];
  }

  lemma {:induction false} ArrayStripped(gap: bytes, es: seq<Elem>, rest: bytes)
    requires Grammatical(true, Arr(gap, es)) && Tidy(Arr(gap, es))
    ensures Minified(Spelling(Arr(gap, es)) + rest) == Spelling(Stripped(Arr(gap, es))) + Minified(rest)
    decreases es, 1
  {
    hide *;
    Brackets();
    ArrayTexts(gap, es);
    if es == [] {
      Apart3([LBRACKET], gap, [RBRACKET], rest);
      ByteStays(LBRACKET, gap + ([RBRACKET] + rest));
      BlanksGo(gap, [RBRACKET] + rest);
      ByteStays(RBRACKET, rest);
      Apart2([LBRACKET], [RBRACKET], Minified(rest));
    } else {
      Apart2([LBRACKET], ElemsSpelling(es), rest);
      ByteStays(LBRACKET, ElemsSpelling(es) + rest);
      ElemsStripped(es, rest);
      Apart2([LBRACKET], ElemsSpelling(StrippedElems(es)), Minified(rest));
    }
  }

  lemma Apart2(a: bytes, b: bytes, rest: bytes)
    ensures (a + b) + rest == a + (b + rest)
  {}

  lemma Apart3(a: bytes, b: bytes, c: bytes, rest: bytes)
    ensures (a + (b + c)) + rest == a + (b + (c + rest))
  {}

  lemma Apart4(a: bytes, b: bytes, c: bytes, d: bytes, rest: bytes)
    ensures (a + (b + (c + d))) + rest == a + (b + (c + (d + rest)))
  {}

  lemma MembersEndIs(ms: seq<Mem>)
    requires ms != []
    ensures MembersEnd(ms) == if |ms| == 1 then [RBRACE] else [COMMA] + MembersSpelling(ms[1..])
  {
    hide MembersSpelling;
  }

  lemma StrippedFirst(es: seq<Elem>)
    requires es != []
    ensures var xs := StrippedElems(es);
            |xs| == |es| && xs[0] == Elem([], Stripped(es[0].value), []) && xs[1..] == StrippedElems(es[1..])
  {
    hide Stripped;
  }

  lemma ElemParts(e: Elem)
    requires ElemOk(true, e)
    ensures Grammatical(true, e.value) && Blanks(true, e.before) && Blanks(true, e.after)
  {}

  lemma {:induction false} ElemsStripped(es: seq<Elem>, rest: bytes)
    requires es != [] && forall k :: 0 <= k < |es| ==> ElemOk(true, es[k]) && Tidy(es[k].value)
    ensures Minified(ElemsSpelling(es) + rest) == ElemsSpelling(StrippedElems(es)) + Minified(rest)
    decreases es, 0
  {
    hide *;
    var e, end, xs := es[0], ElemsEnd(es), StrippedElems(es);
    var tail := e.after + (end + rest);
    ElemParts(e);
    ElemsGoOn(es);
    StrippedFirst(es);
    ElemsGoOn(xs);
    Apart4(e.before, Spelling(e.value), e.after, end, rest);
    BlanksGo(e.before, Spelling(e.value) + tail);
    ValueStripped(e.value, tail);
    BlanksGo(e.after, end + rest);
    Brackets();
    if |es| == 1 {
      ByteStays(RBRACKET, rest);
    } else {
      Apart2([COMMA], ElemsSpelling(es[1..]), rest);
      ByteStays(COMMA, ElemsSpelling(es[1..]) + rest);
      ElemsStripped(es[1..], rest);
      Apart2([COMMA], ElemsSpelling(xs[1..]), Minified(rest));
    }
    NoBlanks(Spelling(xs[0].value), ElemsEnd(xs), Minified(rest));
  }

  lemma NoBlanks(a: bytes, b: bytes, rest: bytes)
    ensures ([] + (a + ([] + b))) + rest == a + (b + rest)
  {}

  lemma ObjectTexts(gap: bytes, ms: seq<Mem>)
    requires Grammatical(true, Obj(gap, ms)) && Tidy(Obj(gap, ms))
    ensures Spelling(Obj(gap, ms)) == [LBRACE] + if ms == [] then gap + [RBRACE] else MembersSpelling(ms)
    ensures Spelling(Stripped(Obj(gap, ms))) == [LBRACE] + if ms == [] then [RBRACE] else MembersSpelling(StrippedMems(ms))
    ensures Blanks(true, gap) && forall k :: 0 <= k < |ms| ==> MemOk(true, ms[k]) && TidyString(ms[k].key) && Tidy(ms[k].value)
  {
    hide *;
    ObjectSpelling(gap, ms);
    ObjectSpelling([], StrippedMems(ms));
    Strips(gap, [], ms);
    ObjectTidy(gap, ms);
    assert [] + [RBRACE] == [RBRACE];
  }

  lemma {:induction false} ObjectStripped(gap: bytes, ms: seq<Mem>, rest: bytes)
    requires Grammatical(true, Obj(gap, ms)) && Tidy(Obj(gap, ms))
    ensures Minified(Spelling(Obj(gap, ms)) + rest) == Spelling(Stripped(Obj(gap, ms))) + Minified(rest)
    decreases ms, 1
  {
    hide *;
    Brackets();
    ObjectTexts(gap, ms);
    if ms == [] {
      Apart3([LBRACE], gap, [RBRACE], rest);
      ByteStays(LBRACE, gap + ([RBRACE] + rest));
      BlanksGo(gap, [RBRACE] + rest);
      ByteStays(RBRACE, rest);
      Apart2([LBRACE], [RBRACE], Minified(rest));
    } else {
      Apart2([LBRACE], MembersSpelling(ms), rest);
      ByteStays(LBRACE, MembersSpelling(ms) + rest);
      MembersStripped(ms, rest);
      Apart2([LBRACE], MembersSpelling(StrippedMems(ms)), Minified(rest));
    }
  }

  lemma MembersTexts(ms: seq<Mem>)
    requires ms != []
    ensures var m := ms[0];
            MembersSpelling(ms) ==
            m.before + (StringText(m.key) + (m.colon + ([COLON] + (m.gap + (Spelling(m.value) + (m.after + MembersEnd(ms)))))))
    ensures MembersEnd(ms) == if |ms| == 1 then [RBRACE] else [COMMA] + MembersSpelling(ms[1..])
  {
    hide *;
    SyntaxSound.MembersSpellingIs(ms);
    MembersEndIs(ms);
  }

  lemma StrippedMem(ms: seq<Mem>)
    requires ms != []
    ensures var xs := StrippedMems(ms);
            |xs| == |ms| && xs[0] == Mem([], ms[0].key, [], [], Stripped(ms[0].value), []) && xs[1..] == StrippedMems(ms[1..])
  {
    hide Stripped;
  }

  lemma MemParts(m: Mem)
    requires MemOk(true, m)
    ensures Grammatical(true, m.value) && ChrsOk(true, m.key) && Blanks(true, m.before) && Blanks(true, m.after)
    ensures Blanks(true, m.colon) && Blanks(true, m.gap)
  {}

  lemma {:induction false} MembersStripped(ms: seq<Mem>, rest: bytes)
    requires ms != [] && forall k :: 0 <= k < |ms| ==> MemOk(true, ms[k]) && TidyString(ms[k].key) && Tidy(ms[k].value)
    ensures Minified(MembersSpelling(ms) + rest) == MembersSpelling(StrippedMems(ms)) + Minified(rest)
    decreases ms, 0
  {
    hide *;
    var m, end, xs := ms[0], MembersEnd(ms), StrippedMems(ms);
    var t4 := m.after + (end + rest);
    var t3 := m.gap + (Spelling(m.value) + t4);
    var t2 := m.colon + ([COLON] + t3);
    MemParts(m);
    MembersTexts(ms);
    StrippedMem(ms);
    MembersTexts(xs);
    Apart7(m.before, StringText(m.key), m.colon, [COLON], m.gap, Spelling(m.value), m.after, end, rest);
    BlanksGo(m.before, StringText(m.key) + t2);
    StringStays(m.key, t2);
    BlanksGo(m.colon, [COLON] + t3);
    Brackets();
    ByteStays(COLON, t3);
    BlanksGo(m.gap, Spelling(m.value) + t4);
    ValueStripped(m.value, t4);
    BlanksGo(m.after, end + rest);
    if |ms| == 1 {
      ByteStays(RBRACE, rest);
    } else {
      Apart2([COMMA], MembersSpelling(ms[1..]), rest);
      ByteStays(COMMA, MembersSpelling(ms[1..]) + rest);
      MembersStripped(ms[1..], rest);
      Apart2([COMMA], MembersSpelling(xs[1..]), Minified(rest));
    }
    NoGaps(StringText(m.key), [COLON], Spelling(xs[0].value), MembersEnd(xs), Minified(rest));
  }

  lemma Apart7(a: bytes, b: bytes, c: bytes, d: bytes, e: bytes, f: bytes, g: bytes, h: bytes, rest: bytes)
    ensures (a + (b + (c + (d + (e + (f + (g + h))))))) + rest == a + (b + (c + (d + (e + (f + (g + (h + rest)))))))
  {
    Apart4(a, b, c, d + (e + (f + (g + h))), rest);
    Apart4(d, e, f, g + h, rest);
    Apart2(g, h, rest);
  }

  lemma NoGaps(a: bytes, b: bytes, c: bytes, d: bytes, rest: bytes)
    ensures ([] + (a + ([] + (b + ([] + (c + ([] + d))))))) + rest == a + (b + (c + (d + rest)))
  {
    assert [] + d == d;
    assert [] + (c + d) == c + d;
    assert [] + (b + (c + d)) == b + (c + d);
    assert [] + (a + (b + (c + d))) == a + (b + (c + d));
    Apart4(a, b, c, d, rest);
  }

  // ---- whole texts ----

  lemma {:induction false} StrippedRight(x: Syntax)
    requires Grammatical(true, x)
    ensures Grammatical(true, Stripped(x)) && Compact(Stripped(x)) && Meaning(Stripped(x)) == Meaning(x)
    decreases x, 0
  {
    hide ChrsOk, NumberOk, CString, ChrsMeaning, NumericValue, ElemsMeaning, MembersMeaning, StrippedElems, StrippedMems;
    match x
    case Arr(_, es) =>
      forall k | 0 <= k < |es| ensures ElemOk(true, es[k]) {}
      ElemsStrippedRight(es);
    case Obj(_, ms) =>
      forall k | 0 <= k < |ms| ensures MemOk(true, ms[k]) {}
      MemsStrippedRight(ms);
    case _ =>
  }

  lemma {:induction false} ElemsStrippedRight(es: seq<Elem>)
    requires forall k :: 0 <= k < |es| ==> ElemOk(true, es[k])
    ensures var xs := StrippedElems(es);
            && (forall k :: 0 <= k < |xs| ==> ElemOk(true, xs[k]) && xs[k].before == [] && xs[k].after == [] && Compact(xs[k].value))
            && ElemsMeaning(xs) == ElemsMeaning(es)
    decreases es, 0
  {
    hide Grammatical, Compact, Meaning, Stripped;
    if es == [] {
    } else {
      StrippedRight(es[0].value);
      ElemsStrippedRight(es[1..]);
      StrippedFirst(es);
      var xs := StrippedElems(es);
      assert forall k :: 1 <= k < |xs| ==> xs[k] == xs[1..][k - 1];
    }
  }

  lemma {:induction false} MemsStrippedRight(ms: seq<Mem>)
    requires forall k :: 0 <= k < |ms| ==> MemOk(true, ms[k])
    ensures var xs := StrippedMems(ms);
            && (forall k :: 0 <= k < |xs| ==> && MemOk(true, xs[k]) && xs[k].before == [] && xs[k].colon == [] && xs[k].gap == []
                                              && xs[k].after == [] && Compact(xs[k].value))
            && MembersMeaning(xs) == MembersMeaning(ms)
    decreases ms, 0
  {
    hide Grammatical, Compact, Meaning, Stripped, ChrsOk, CString, ChrsMeaning;
    if ms == [] {
    } else {
      StrippedRight(ms[0].value);
      MemsStrippedRight(ms[1..]);
      StrippedMem(ms);
      var xs := StrippedMems(ms);
      assert forall k :: 1 <= k < |xs| ==> xs[k] == xs[1..][k - 1];
    }
  }

  /**
    Minifying a JSON text of RFC 8259, none of whose strings ends in an escaped backslash, takes out exactly the
    blanks: what is left is the compact text of the same value.
   */
  lemma MinifyStrips(before: bytes, x: Syntax, after: bytes)
    requires Grammatical(true, x) && Tidy(x) && Blanks(true, before) && Blanks(true, after)
    ensures Minified(before + (Spelling(x) + after)) == Spelling(Stripped(x))
    ensures Grammatical(true, Stripped(x)) && Compact(Stripped(x)) && Meaning(Stripped(x)) == Meaning(x)
  {
    hide *;
    StrippedRight(x);
    BlanksGo(before, Spelling(x) + after);
    ValueStripped(x, after);
    BlanksGo(after, []);
    assert after + [] == after;
    NothingMinified();
    assert Spelling(Stripped(x)) + [] == Spelling(Stripped(x));
  }

  // ---- what is printed ----

  predicate TidyBytes(s: bytes) {
    s == [] || s[|s| - 1] != '\\' as int
  }

  /** No string and no key of the tree ends in a backslash. */
  predicate TidyTree(v: Json) {
    match v
    case String(s) => TidyBytes(s)
    case Array(es) => forall e :: e in es ==> TidyTree(e)
    case Object(ms) => forall m :: m in ms ==> TidyBytes(m.key) && TidyTree(m.value)
    case _ => true
  }

  lemma TidyWritten(s: bytes)
    requires TidyBytes(s)
    ensures TidyString(EscapedChrs(s))
  {}

  /** The syntax of what is printed formatted is, without its blanks, that of what is printed unformatted. */
  lemma {:induction false} SameStripped(v: Json, depth: nat)
    requires RawFree(v) && TidyTree(v)
    ensures Tidy(SyntaxOf(v, true, depth)) && Stripped(SyntaxOf(v, true, depth)) == SyntaxOf(v, false, depth)
    decreases v, 0
  {
    hide EscapedChrs, NumericOf, TidyString, TidyBytes, ElemsOf, MemsOf, StrippedElems, StrippedMems, RawFree;
    match v
    case String(s) => TidyWritten(s);
    case Array(es) => SameElems(es, depth + 1, []);
    case Object(ms) =>
      var close := Newline(true) + Indent(true, depth);
      NoLayout(depth);
      SameMems(ms, depth + 1, close);
    case _ =>
  }

  lemma NoLayout(depth: nat)
    ensures Newline(false) + Indent(false, depth) == []
  {}

  lemma {:induction false} SameElems(es: seq<Json>, depth: nat, before: bytes)
    requires RawFree(Array(es)) && TidyTree(Array(es))
    ensures var xs := ElemsOf(es, true, depth, before);
            (forall k :: 0 <= k < |xs| ==> Tidy(xs[k].value)) && StrippedElems(xs) == ElemsOf(es, false, depth, [])
    decreases es, 0
  {
    hide SyntaxOf, Tidy, Stripped, RawFree;
    if es == [] {
    } else {
      RawFreeParts(es);
      SameStripped(es[0], depth);
      SameElems(es[1..], depth, [SPACE]);
      var xs := ElemsOf(es, true, depth, before);
      assert xs[1..] == ElemsOf(es[1..], true, depth, [SPACE]);
      assert forall k :: 1 <= k < |xs| ==> xs[k] == xs[1..][k - 1];
    }
  }

  lemma {:induction false} SameMems(ms: seq<Member>, depth: nat, close: bytes)
    requires RawFree(Object(ms)) && TidyTree(Object(ms))
    ensures var xs := MemsOf(ms, true, depth, close);
            && (forall k :: 0 <= k < |xs| ==> TidyString(xs[k].key) && Tidy(xs[k].value))
            && StrippedMems(xs) == MemsOf(ms, false, depth, [])
    decreases ms, 0
  {
    hide SyntaxOf, Tidy, Stripped, RawFree, TidyString, TidyBytes, EscapedChrs, Newline, Indent;
    if ms == [] {
    } else {
      RawFreeMembers(ms);
      SameStripped(ms[0].value, depth);
      TidyWritten(ms[0].key);
      SameMems(ms[1..], depth, close);
      NoLayout(depth);
      FirstMem(ms, true, depth, close);
      FirstMem(ms, false, depth, []);
      hide MemsOf;
      var xs := MemsOf(ms, true, depth, close);
      assert forall k :: 1 <= k < |xs| ==> xs[k] == xs[1..][k - 1];
    }
  }

  /** Minifying what the printer writes formatted gives what it writes unformatted, if no string ends in a backslash. */
  lemma MinifiedIsUnformatted(v: Json, depth: nat)
    requires Printable(v) && RawFree(v) && TidyTree(v)
    ensures Minified(Text(v, true, depth)) == Text(v, false, depth)
  {
    hide *;
    var x := SyntaxOf(v, true, depth);
    ValueWritten(v, true, depth);
    ValueWritten(v, false, depth);
    SyntaxRight(v, true, depth);
    RightParts(x, v, true, depth);
    SameStripped(v, depth);
    NoBlanksAround();
    MinifyStrips([], x, []);
    assert [] + (Spelling(x) + []) == Spelling(x);
  }

  lemma NoBlanksAround()
    ensures Blanks(true, [])
  {}
}
