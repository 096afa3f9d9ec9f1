/**
  What the printer writes is a JSON text of RFC 8259 that means the tree, laid out as cJSON lays it out; so the
  parser gives the tree back.
 */
module RoundTrip {
  import opened Bytes
  import opened Decimals
  import opened JsonText
  import opened Utf16
  import opened JsonParser
  import opened JsonSyntax
  import opened ParserSteps
  import opened SyntaxParse
  import SyntaxSound

  // ---- strings ----

  /** What a byte is written as. */
  function EscapedChr(b: byte): Chr {
    if IsShortEscape(b) then Short(ShortEscape(b))
    else if b < 32 then Coded(b, EscapeByte(b))
    else Plain(b)
  }

  function EscapedChrs(s: bytes): (xs: seq<Chr>)
    ensures |xs| == |s|
  {
    seq(|s|, i requires 0 <= i < |s| => EscapedChr(s[i]))
  }

  lemma EscapedByte(b: byte)
    ensures ChrOk(true, EscapedChr(b)) && ChrText(EscapedChr(b)) == EscapeByte(b) && ChrMeaning(EscapedChr(b)) == [b]
  {
    if !IsShortEscape(b) && b < 32 {
      ControlSpelled(b);
    }
  }

  lemma ControlSpelled(b: byte)
    requires b < 32 && !IsShortEscape(b)
    ensures IsScalar(b) && Units(b) == [b] && Spells(EscapeByte(b), 0, 6, [b])
  {
    var t := EscapeByte(b);
    assert Places(b) == [0, 0, b / 16, b % 16];
    assert IsNumeral(t[2 + 0], 0) && IsNumeral(t[2 + 1], 0);
    NumeralWritten(b / 16);
    NumeralWritten(b % 16);
    assert SpellsUnit(t, 0, b);
  }

  lemma NumeralWritten(d: nat)
    requires d < 16
    ensures IsNumeral(HexDigit(d), d)
  {
    ValueOfNumeral(HexDigit(d), d);
  }

  lemma {:induction false} EscapedString(s: bytes)
    ensures ChrsOk(true, EscapedChrs(s)) && ChrsText(EscapedChrs(s)) == Escape(s) && ChrsMeaning(EscapedChrs(s)) == s
    decreases |s|
  {
    hide ChrOk, EscapedChr, ChrText, ChrMeaning, EscapeByte;
    if s == [] {
    } else {
      EscapedByte(s[0]);
      EscapedString(s[1..]);
      assert EscapedChrs(s) == [EscapedChr(s[0])] + EscapedChrs(s[1..]);
      FirstChr(EscapedChr(s[0]), EscapedChrs(s[1..]));
      assert s == [s[0]] + s[1..];
    }
  }

  lemma FirstChr(x: Chr, xs: seq<Chr>)
    requires ChrOk(true, x) && ChrsOk(true, xs)
    ensures var all := [x] + xs;
            ChrsOk(true, all) && ChrsText(all) == ChrText(x) + ChrsText(xs) && ChrsMeaning(all) == ChrMeaning(x) + ChrsMeaning(xs)
  {
    hide ChrOk, ChrText, ChrMeaning;
    assert ([x] + xs)[1..] == xs;
  }

  /** A NUL-free string is written as a string of the grammar that means it. */
  lemma StringWritten(s: bytes)
    requires NulFree(s)
    ensures ChrsOk(true, EscapedChrs(s)) && StringText(EscapedChrs(s)) == Quoted(s) && CString(ChrsMeaning(EscapedChrs(s))) == s
  {
    hide ChrsOk, ChrsText, ChrsMeaning, CString, Escape;
    EscapedString(s);
    CStringOfNulFree(s);
  }

  lemma ChrsLoose(xs: seq<Chr>)
    requires ChrsOk(true, xs)
    ensures ChrsOk(false, xs)
  {
    assert forall k :: 0 <= k < |xs| ==> ChrOk(true, xs[k]);
  }

  /** Printing a NUL-free string and parsing the text gives the string back, wherever it stands. */
  lemma StringRoundTrip(c: bytes, o: nat, s: bytes)
    requires NulFree(s) && At(c, o, Quoted(s))
    ensures ParseString(c, o) == Ok(s, o + |Quoted(s)|)
  {
    hide *;
    StringWritten(s);
    ChrsLoose(EscapedChrs(s));
    StringReads(c, o, EscapedChrs(s));
  }

  // ---- numbers ----

  function NumericOf(n: int): Numeric {
    Numeric(n < 0, Digits(if n < 0 then -n else n), None, None)
  }

  /** An integer is written in decimal notation, without a zero in front of another digit. */
  lemma NumberWritten(n: int)
    ensures NumberOk(true, NumericOf(n)) && NumericText(NumericOf(n)) == Decimal(n) && NumericValue(NumericOf(n)) == n as real
  {
    hide *;
    var m := if n < 0 then -n else n;
    DigitsNotation(m);
    ValueOfDigits(m);
    DigitsAreDigits(m);
    IntegerIs(n < 0, Digits(m), m);
    NumericIs(n);
  }

  lemma DigitsAreDigits(m: nat)
    ensures AllDigits(Digits(m)) && Digits(m) != []
  {
    assert forall k :: 0 <= k < |Digits(m)| ==> Decimals.IsDigit(Digits(m)[k]);
  }

  lemma NumericIs(n: int)
    ensures NumericOf(n) == Numeric(n < 0, Digits(if n < 0 then -n else n), None, None)
    ensures Decimal(n) == (if n < 0 then Ascii("-") else []) + Digits(if n < 0 then -n else n)
  {
    hide Digits;
    assert n >= 0 ==> [] + Digits(n) == Digits(n);
  }

  lemma IntegerIs(minus: bool, t: bytes, m: nat)
    requires AllDigits(t) && t != [] && (t[0] == '0' as int ==> t == ['0' as int]) && DigitsValue(t) == m
    ensures var n := Numeric(minus, t, None, None);
            && NumberOk(true, n) && NumericText(n) == (if minus then Ascii("-") else []) + t
            && NumericValue(n) == if minus then -(m as real) else m as real
  {
    hide DigitsValue;
    assert t + [] == t;
    assert Pow10(0) == 1;
    assert (m as real / 1.0) * 1.0 == m as real;
  }

  lemma NumberLoose(n: Numeric)
    requires NumberOk(true, n)
    ensures NumberOk(false, n)
  {}

  lemma NumberRoundTrip(c: bytes, o: nat, n: int)
    requires At(c, o, Decimal(n)) && NumberStops(c, o + |Decimal(n)|)
    ensures ParseNumber(c, o) == Ok(Number(n as real), o + |Decimal(n)|)
  {
    hide *;
    NumberWritten(n);
    NumberLoose(NumericOf(n));
    NumericReads(c, o, NumericOf(n));
  }

  // ---- trees as they are written ----

  function SyntaxOf(v: Json, format: bool, depth: nat): Syntax
    decreases v, 0
  {
    match v
    case Null => Word(v)
    case Bool(_) => Word(v)
    case Number(d) => Num(NumericOf(d.Floor))
    case Raw(_) => Word(Null)
    case String(s) => Str(EscapedChrs(s))
    case Array(es) => Arr([], ElemsOf(es, format, depth + 1, []))
    case Object(ms) => Obj(Newline(format) + Indent(format, depth), MemsOf(ms, format, depth + 1, Newline(format) + Indent(format, depth)))
  }

  function ElemsOf(es: seq<Json>, format: bool, depth: nat, before: bytes): (xs: seq<Elem>)
    ensures |xs| == |es|
    decreases es, 0
  {
    if es == [] then []
    else [Elem(before, SyntaxOf(es[0], format, depth), [])] + ElemsOf(es[1..], format, depth, if format then [SPACE] else [])
  }

  /** `close` is what stands in front of the closing brace. */
  function MemsOf(ms: seq<Member>, format: bool, depth: nat, close: bytes): (xs: seq<Mem>)
    ensures |xs| == |ms|
    decreases ms, 0
  {
    if ms == [] then []
    else [Mem(Newline(format) + Indent(format, depth), EscapedChrs(ms[0].key), [], if format then [TAB] else [],
              SyntaxOf(ms[0].value, format, depth), if |ms| == 1 then close else [])]
         + MemsOf(ms[1..], format, depth, close)
  }

  // ---- the text of lists, from the front ----

  lemma EmptyTexts(format: bool, depth: nat)
    ensures ElemsText([], format, depth) == [] && MembersText([], format, depth) == []
  {}

  lemma ElemsTextSplit(es: seq<Json>, format: bool, depth: nat)
    requires es != []
    ensures ElemsText(es, format, depth) ==
            Text(es[0], format, depth)
            + (if |es| == 1 then [] else Separator(format) + ElemsText(es[1..], format, depth))
  {
    if |es| == 1 {
      assert Text(es[0], format, depth) + [] == Text(es[0], format, depth);
    }
  }

  function Newline(format: bool): bytes {
    if format then [NEWLINE] else []
  }

  /** What follows the indentation of the first member, up to and including the closing brace. */
  function MembersRest(ms: seq<Member>, format: bool, depth: nat, indent: bytes): bytes
    requires ms != [] && Blanks(false, indent)
    decreases ms, 1
  {
    Quoted(ms[0].key) + (KeySeparator(format) + (Text(ms[0].value, format, depth) + MembersTail(ms, format, depth, indent)))
  }

  /** What follows the value of the first member. */
  function MembersTail(ms: seq<Member>, format: bool, depth: nat, indent: bytes): (r: bytes)
    requires ms != [] && Blanks(false, indent)
    ensures r != [] && !IsNumberByte(r[0])
    decreases ms, 0
  {
    if |ms| == 1 then (Newline(format) + indent) + [RBRACE]
    else [COMMA] + ((Newline(format) + Indent(format, depth)) + MembersRest(ms[1..], format, depth, indent))
  }

  lemma Regroup(a: bytes, b: bytes, c: bytes, d: bytes, e: bytes, f: bytes, g: bytes)
    ensures (a + b + c + d + e) + f + g == a + (b + (c + (d + (e + (f + g)))))
  {}

  lemma {:induction false} MembersTextParts(ms: seq<Member>, format: bool, depth: nat, indent: bytes)
    requires ms != [] && Blanks(false, indent)
    ensures MembersText(ms, format, depth) + (indent + [RBRACE])
         == Indent(format, depth) + MembersRest(ms, format, depth, indent)
  {
    hide *;
    var m := ms[0];
    var lead, key, sep, value := Indent(format, depth), Quoted(m.key), KeySeparator(format), Text(m.value, format, depth);
    var end := MemberEnd(format, |ms| == 1);
    var close := indent + [RBRACE];
    var rest := MembersText(ms[1..], format, depth);
    MembersTextFirst(ms, format, depth);
    RestParts(ms, format, depth, indent);
    if |ms| == 1 {
      EndIsTail(format, indent, [RBRACE]);
      EmptyTexts(format, depth);
      assert ms[1..] == [] && [] + close == close;
    } else {
      MembersTextParts(ms[1..], format, depth, indent);
      EndIsTail(format, lead, MembersRest(ms[1..], format, depth, indent));
    }
    Regroup(lead, key, sep, value, end, rest, close);
  }

  lemma MembersTextFirst(ms: seq<Member>, format: bool, depth: nat)
    requires ms != []
    ensures var m := ms[0];
            MembersText(ms, format, depth)
            == (Indent(format, depth) + Quoted(m.key) + KeySeparator(format) + Text(m.value, format, depth) + MemberEnd(format, |ms| == 1))
               + MembersText(ms[1..], format, depth)
  {
    hide Quoted, Text, Indent, KeySeparator, MemberEnd;
  }

  /** The end of a member and what follows it. */
  lemma EndIsTail(format: bool, a: bytes, b: bytes)
    ensures MemberEnd(format, true) + (a + b) == (Newline(format) + a) + b
    ensures MemberEnd(format, false) + (a + b) == [COMMA] + ((Newline(format) + a) + b)
  {}

  lemma ObjectTextParts(ms: seq<Member>, format: bool, depth: nat)
    ensures Text(Object(ms), format, depth) == [LBRACE] + (
              if ms == [] then (Newline(format) + Indent(format, depth)) + [RBRACE]
              else (Newline(format) + Indent(format, depth + 1)) + MembersRest(ms, format, depth + 1, Indent(format, depth)))
  {
    hide *;
    var body, indent := MembersText(ms, format, depth + 1), Indent(format, depth);
    ObjectText(ms, format, depth);
    Regroup4([LBRACE], Newline(format), body, indent, [RBRACE]);
    if ms == [] {
      EmptyTexts(format, depth + 1);
      assert body + (indent + [RBRACE]) == indent + [RBRACE];
      assert Newline(format) + (indent + [RBRACE]) == (Newline(format) + indent) + [RBRACE];
    } else {
      IndentIsBlank(format, depth);
      MembersTextParts(ms, format, depth + 1, indent);
      assert Newline(format) + (Indent(format, depth + 1) + MembersRest(ms, format, depth + 1, indent))
          == (Newline(format) + Indent(format, depth + 1)) + MembersRest(ms, format, depth + 1, indent);
    }
  }

  lemma ObjectText(ms: seq<Member>, format: bool, depth: nat)
    ensures Text(Object(ms), format, depth)
         == ([LBRACE] + Newline(format)) + MembersText(ms, format, depth + 1) + (Indent(format, depth) + [RBRACE])
  {
    hide MembersText, Tabs;
  }

  lemma Regroup4(a: bytes, b: bytes, c: bytes, d: bytes, e: bytes)
    ensures (a + b) + c + (d + e) == a + (b + (c + (d + e)))
  {}

  lemma ArrayText(es: seq<Json>, format: bool, depth: nat)
    ensures Text(Array(es), format, depth) == [LBRACKET] + (ElemsText(es, format, depth + 1) + [RBRACKET])
  {
    hide ElemsText;
  }

  /** What follows the text of the first element, up to the closing bracket. */
  lemma ElemsParts(es: seq<Json>, format: bool, depth: nat) returns (tail: bytes)
    requires es != []
    ensures ElemsText(es, format, depth) + [RBRACKET] == Text(es[0], format, depth) + tail
    ensures |ElemsText(es, format, depth)| + 1 == |Text(es[0], format, depth)| + |tail|
    ensures tail == if |es| == 1 then [RBRACKET]
                    else [COMMA] + ((if format then [SPACE] else []) + (ElemsText(es[1..], format, depth) + [RBRACKET]))
  {
    hide Text, ElemsText;
    ElemsTextSplit(es, format, depth);
    tail := if |es| == 1 then [RBRACKET]
            else [COMMA] + ((if format then [SPACE] else []) + (ElemsText(es[1..], format, depth) + [RBRACKET]));
  }

  lemma RestParts(ms: seq<Member>, format: bool, depth: nat, indent: bytes)
    requires ms != [] && Blanks(false, indent)
    ensures var rest, tail := MembersRest(ms, format, depth, indent), MembersTail(ms, format, depth, indent);
            var key, sep, value := Quoted(ms[0].key), KeySeparator(format), Text(ms[0].value, format, depth);
            && rest == key + (sep + (value + tail)) && |rest| == |key| + |sep| + |value| + |tail|
            && tail != [] && !IsNumberByte(tail[0])
            && tail == if |ms| == 1 then (Newline(format) + indent) + [RBRACE]
                       else [COMMA] + ((Newline(format) + Indent(format, depth)) + MembersRest(ms[1..], format, depth, indent))
  {
    hide Quoted, KeySeparator, Text, Newline, Indent;
  }

  lemma IndentIsBlank(format: bool, depth: nat)
    ensures Blanks(false, Indent(format, depth)) && Blanks(false, Newline(format) + Indent(format, depth))
  {}

  lemma PrintableParts(es: seq<Json>)
    requires es != [] && Printable(Array(es))
    ensures Printable(es[0]) && Printable(Array(es[1..]))
  {}

  lemma RawFreeParts(es: seq<Json>)
    requires es != [] && RawFree(Array(es))
    ensures RawFree(es[0]) && RawFree(Array(es[1..]))
  {}

  lemma PrintableMembers(ms: seq<Member>)
    requires ms != [] && Printable(Object(ms))
    ensures NulFree(ms[0].key) && Printable(ms[0].value) && Printable(Object(ms[1..]))
  {}

  lemma RawFreeMembers(ms: seq<Member>)
    requires ms != [] && RawFree(Object(ms))
    ensures RawFree(ms[0].value) && RawFree(Object(ms[1..]))
  {}

  // ---- what is written is the text of the syntax ----

  lemma {:induction false} ValueWritten(v: Json, format: bool, depth: nat)
    requires Printable(v) && RawFree(v)
    ensures Spelling(SyntaxOf(v, format, depth)) == Text(v, format, depth)
    decreases v, 0
  {
    hide Printable, RawFree, Decimal, NumericText, NumericOf, StringText, Quoted, Escape, CString, ChrsMeaning, ElemsText, MembersText;
    hide ElemsSpelling, MembersSpelling, WordText, ElemsOf, MemsOf;
    match v
    case Null => WordTexts();
    case Bool(_) => WordTexts();
    case Number(d) => NumberWritten(d.Floor);
    case String(s) =>
      PrintableString(v);
      StringWritten(s);
    case Array(es) => ArrayWritten(es, format, depth);
    case Object(ms) => ObjectWritten(ms, format, depth);
    case Raw(_) => assert false by { NotRaw(v); }
  }

  lemma PrintableString(v: Json)
    requires v.String? && Printable(v)
    ensures NulFree(v.s)
  {}

  lemma NotRaw(v: Json)
    requires RawFree(v)
    ensures !v.Raw?
  {}

  lemma {:induction false} ArrayWritten(es: seq<Json>, format: bool, depth: nat)
    requires Printable(Array(es)) && RawFree(Array(es))
    ensures Spelling(SyntaxOf(Array(es), format, depth)) == Text(Array(es), format, depth)
    decreases es, 1
  {
    hide *;
    var xs := ElemsOf(es, format, depth + 1, []);
    ArrayText(es, format, depth);
    ArraySyntax(es, format, depth);
    if es == [] {
      EmptyTexts(format, depth + 1);
    } else {
      ElemsWritten(es, format, depth + 1, []);
    }
  }

  lemma ArraySyntax(es: seq<Json>, format: bool, depth: nat)
    ensures var xs := ElemsOf(es, format, depth + 1, []);
            Spelling(SyntaxOf(Array(es), format, depth)) == [LBRACKET] + (if es == [] then [RBRACKET] else ElemsSpelling(xs))
  {
    hide ElemsOf, ElemsSpelling;
    assert [] + [RBRACKET] == [RBRACKET];
  }

  lemma {:induction false} ElemsWritten(es: seq<Json>, format: bool, depth: nat, before: bytes)
    requires es != [] && Printable(Array(es)) && RawFree(Array(es))
    ensures ElemsSpelling(ElemsOf(es, format, depth, before)) == before + (ElemsText(es, format, depth) + [RBRACKET])
    decreases es, 0
  {
    hide *;
    PrintableParts(es);
    RawFreeParts(es);
    ValueWritten(es[0], format, depth);
    var tail := ElemsParts(es, format, depth);
    if |es| > 1 {
      ElemsWritten(es[1..], format, depth, if format then [SPACE] else []);
    }
    ElemsSyntax(es, format, depth, before);
  }

  lemma ElemsSyntax(es: seq<Json>, format: bool, depth: nat, before: bytes)
    requires es != []
    ensures var sp := if format then [SPACE] else [];
            ElemsSpelling(ElemsOf(es, format, depth, before)) ==
            before + (Spelling(SyntaxOf(es[0], format, depth))
                      + (if |es| == 1 then [RBRACKET] else [COMMA] + ElemsSpelling(ElemsOf(es[1..], format, depth, sp))))
  {
    hide *;
    var xs := ElemsOf(es, format, depth, before);
    FirstElem(es, format, depth, before);
    ElemsGoOn(xs);
    assert [] + ElemsEnd(xs) == ElemsEnd(xs);
  }

  lemma ElemsGoOn(xs: seq<Elem>)
    requires xs != []
    ensures ElemsSpelling(xs) == xs[0].before + (Spelling(xs[0].value) + (xs[0].after + ElemsEnd(xs)))
    ensures ElemsEnd(xs) == if |xs| == 1 then [RBRACKET] else [COMMA] + ElemsSpelling(xs[1..])
  {
    ElemsEndIs(xs);
    hide Spelling, ElemsEnd;
    assert ElemSpelling(xs) == Spelling(xs[0].value) + (xs[0].after + ElemsEnd(xs));
  }

  lemma ElemsEndIs(xs: seq<Elem>)
    requires xs != []
    ensures ElemsEnd(xs) == if |xs| == 1 then [RBRACKET] else [COMMA] + ElemsSpelling(xs[1..])
  {
    hide ElemsSpelling;
  }

  lemma {:induction false} ObjectWritten(ms: seq<Member>, format: bool, depth: nat)
    requires Printable(Object(ms)) && RawFree(Object(ms))
    ensures Spelling(SyntaxOf(Object(ms), format, depth)) == Text(Object(ms), format, depth)
    decreases ms, 2
  {
    hide *;
    var indent := Indent(format, depth);
    IndentIsBlank(format, depth);
    ObjectTextParts(ms, format, depth);
    ObjectSyntax(ms, format, depth);
    if ms != [] {
      MembersWritten(ms, format, depth + 1, indent);
    }
  }

  lemma ObjectSyntax(ms: seq<Member>, format: bool, depth: nat)
    ensures var gap := Newline(format) + Indent(format, depth);
            Spelling(SyntaxOf(Object(ms), format, depth)) ==
            [LBRACE] + (if ms == [] then gap + [RBRACE]
                        else (Newline(format) + Indent(format, depth + 1)) + MemberSpelling(MemsOf(ms, format, depth + 1, gap)))
  {
    hide Indent, Newline, MemberSpelling, SyntaxOf;
    var gap := Newline(format) + Indent(format, depth);
    ObjectParts(ms, format, depth);
    if ms != [] {
      assert MemsOf(ms, format, depth + 1, gap)[0].before == Newline(format) + Indent(format, depth + 1);
    }
  }

  lemma ObjectParts(ms: seq<Member>, format: bool, depth: nat)
    ensures var gap := Newline(format) + Indent(format, depth);
            SyntaxOf(Object(ms), format, depth) == Obj(gap, MemsOf(ms, format, depth + 1, gap))
  {
    hide Indent, Newline, MemsOf;
  }

  lemma {:induction false} MembersWritten(ms: seq<Member>, format: bool, depth: nat, indent: bytes)
    requires ms != [] && Printable(Object(ms)) && RawFree(Object(ms)) && Blanks(false, indent)
    ensures MemberSpelling(MemsOf(ms, format, depth, Newline(format) + indent)) == MembersRest(ms, format, depth, indent)
    decreases ms, 1
  {
    hide *;
    PrintableMembers(ms);
    RawFreeMembers(ms);
    StringWritten(ms[0].key);
    ValueWritten(ms[0].value, format, depth);
    RestParts(ms, format, depth, indent);
    if |ms| > 1 {
      MembersWritten(ms[1..], format, depth, indent);
    }
    MembersSyntax(ms, format, depth, Newline(format) + indent);
  }

  lemma MembersSyntax(ms: seq<Member>, format: bool, depth: nat, close: bytes)
    requires ms != []
    ensures MemberSpelling(MemsOf(ms, format, depth, close)) ==
            StringText(EscapedChrs(ms[0].key)) + (KeySeparator(format) + (Spelling(SyntaxOf(ms[0].value, format, depth)) + (
              if |ms| == 1 then close + [RBRACE]
              else [COMMA] + ((Newline(format) + Indent(format, depth)) + MemberSpelling(MemsOf(ms[1..], format, depth, close))))))
  {
    hide *;
    var xs, rest := MemsOf(ms, format, depth, close), MemsOf(ms[1..], format, depth, close);
    FirstMem(ms, format, depth, close);
    if |ms| > 1 {
      FirstMem(ms[1..], format, depth, close);
    }
    ListGoesOn(xs, rest);
    MemberParts(xs, KeySeparator(format));
  }

  lemma FirstMem(ms: seq<Member>, format: bool, depth: nat, close: bytes)
    requires ms != []
    ensures var xs := MemsOf(ms, format, depth, close);
            && |xs| == |ms| && xs[1..] == MemsOf(ms[1..], format, depth, close)
            && xs[0] == Mem(Newline(format) + Indent(format, depth), EscapedChrs(ms[0].key), [], if format then [TAB] else [],
                            SyntaxOf(ms[0].value, format, depth), if |ms| == 1 then close else [])
    ensures KeySeparator(format) == [COLON] + if format then [TAB] else []
  {
    hide SyntaxOf, EscapedChrs, Newline, Indent;
  }

  lemma ListGoesOn(xs: seq<Mem>, rest: seq<Mem>)
    requires xs != [] && xs[1..] == rest && (rest != [] ==> xs[0].after == [])
    ensures xs[0].after + MembersEnd(xs) ==
            if rest == [] then xs[0].after + [RBRACE] else [COMMA] + (rest[0].before + MemberSpelling(rest))
  {
    hide MemberSpelling;
    assert [] + MembersEnd(xs) == MembersEnd(xs);
  }

  lemma MemberParts(xs: seq<Mem>, separator: bytes)
    requires xs != [] && xs[0].colon == [] && separator == [COLON] + xs[0].gap
    ensures MemberSpelling(xs) == StringText(xs[0].key) + (separator + (Spelling(xs[0].value) + (xs[0].after + MembersEnd(xs))))
  {
    hide StringText, Spelling, MembersEnd;
    var rest := Spelling(xs[0].value) + (xs[0].after + MembersEnd(xs));
    assert MemberRest(xs) == rest;
    assert [] + ([COLON] + (xs[0].gap + rest)) == separator + rest;
  }

  // ---- and the syntax is right ----

  /** The blanks of the layout. */
  ghost predicate Laid(x: Syntax, format: bool, depth: nat) {
    if format then LaidOut(x, depth) else Compact(x)
  }

  /** The syntax is that of the standard, in the layout of cJSON, and means the tree. */
  ghost predicate Right(x: Syntax, v: Json, format: bool, depth: nat) {
    Grammatical(true, x) && Meaning(x) == v && Laid(x, format, depth)
  }

  lemma {:induction false} SyntaxRight(v: Json, format: bool, depth: nat)
    requires Printable(v) && RawFree(v)
    ensures Right(SyntaxOf(v, format, depth), v, format, depth)
    decreases v, 0
  {
    hide Printable, RawFree, Decimal, NumericText, NumericOf, NumericValue, NumberOk, Quoted, CString, ChrsMeaning, EscapedChrs, ChrsOk;
    hide ElemsOf, MemsOf;
    match v
    case Number(d) =>
      IntValued(v);
      NumberWritten(d.Floor);
    case String(s) =>
      PrintableString(v);
      StringWritten(s);
    case Array(es) =>
      ElemsRight(es, format, depth + 1, []);
      ArrayRight(ElemsOf(es, format, depth + 1, []), es, format, depth);
    case Object(ms) =>
      var close := Newline(format) + Indent(format, depth);
      MemsRight(ms, format, depth + 1, close);
      CloseIsBlank(format, depth);
      ObjectRight(MemsOf(ms, format, depth + 1, close), ms, format, depth, close);
    case Raw(_) => assert false by { NotRaw(v); }
    case _ =>
  }

  lemma IntValued(v: Json)
    requires v.Number? && Printable(v)
    ensures v.d == v.d.Floor as real
  {}

  lemma CloseIsBlank(format: bool, depth: nat)
    ensures Blanks(true, Newline(format) + Indent(format, depth))
    ensures Newline(format) + Indent(format, depth) == if format then NewLine(depth) else []
  {}

  ghost predicate ElemsAre(xs: seq<Elem>, es: seq<Json>, format: bool, depth: nat, before: bytes) {
    && |xs| == |es|
    && forall k :: 0 <= k < |xs| ==>
         && xs[k].before == (if k == 0 then before else if format then Ascii(" ") else []) && xs[k].after == []
         && Right(xs[k].value, es[k], format, depth)
  }

  lemma {:induction false} ElemsRight(es: seq<Json>, format: bool, depth: nat, before: bytes)
    requires Printable(Array(es)) && RawFree(Array(es))
    ensures ElemsAre(ElemsOf(es, format, depth, before), es, format, depth, before)
    decreases es, 0
  {
    hide *;
    if es == [] {
      NoElems(format, depth, before);
    } else {
      PrintableParts(es);
      RawFreeParts(es);
      SyntaxRight(es[0], format, depth);
      ElemsRight(es[1..], format, depth, if format then [SPACE] else []);
      FirstElem(es, format, depth, before);
      ElemsCons(ElemsOf(es, format, depth, before), es, format, depth, before);
    }
  }

  lemma NoElems(format: bool, depth: nat, before: bytes)
    ensures ElemsAre(ElemsOf([], format, depth, before), [], format, depth, before)
  {}

  lemma FirstElem(es: seq<Json>, format: bool, depth: nat, before: bytes)
    requires es != []
    ensures var xs := ElemsOf(es, format, depth, before);
            && |xs| == |es| && xs[0] == Elem(before, SyntaxOf(es[0], format, depth), [])
            && xs[1..] == ElemsOf(es[1..], format, depth, if format then [SPACE] else [])
  {
    hide SyntaxOf;
  }

  lemma ElemsCons(xs: seq<Elem>, es: seq<Json>, format: bool, depth: nat, before: bytes)
    requires |xs| == |es| > 0 && xs[0].before == before && xs[0].after == [] && Right(xs[0].value, es[0], format, depth)
    requires ElemsAre(xs[1..], es[1..], format, depth, if format then [SPACE] else [])
    ensures ElemsAre(xs, es, format, depth, before)
  {
    hide Right;
    assert Ascii(" ") == [SPACE];
    assert forall k :: 1 <= k < |xs| ==> xs[k] == xs[1..][k - 1] && es[k] == es[1..][k - 1];
  }

  lemma {:induction false} ElemsMean(xs: seq<Elem>, es: seq<Json>)
    requires |xs| == |es| && forall k :: 0 <= k < |xs| ==> Meaning(xs[k].value) == es[k]
    ensures ElemsMeaning(xs) == es
    decreases |xs|
  {
    hide Meaning;
    if xs == [] {
    } else {
      ElemsMean(xs[1..], es[1..]);
      assert es == [es[0]] + es[1..];
    }
  }

  lemma ArrayRight(xs: seq<Elem>, es: seq<Json>, format: bool, depth: nat)
    requires ElemsAre(xs, es, format, depth + 1, [])
    ensures Right(Arr([], xs), Array(es), format, depth)
  {
    forall k | 0 <= k < |xs|
      ensures ElemOk(true, xs[k]) && Meaning(xs[k].value) == es[k] && Laid(xs[k].value, format, depth + 1) {
      assert Right(xs[k].value, es[k], format, depth + 1);
    }
    ElemsMean(xs, es);
  }

  ghost predicate MemsAre(xs: seq<Mem>, ms: seq<Member>, format: bool, depth: nat, close: bytes) {
    && |xs| == |ms|
    && forall k :: 0 <= k < |xs| ==>
         && xs[k].before == (if format then NewLine(depth) else []) && xs[k].colon == []
         && xs[k].gap == (if format then Ascii("\t") else []) && xs[k].after == (if k == |xs| - 1 then close else [])
         && ChrsOk(true, xs[k].key) && CString(ChrsMeaning(xs[k].key)) == ms[k].key && Right(xs[k].value, ms[k].value, format, depth)
  }

  lemma {:induction false} MemsRight(ms: seq<Member>, format: bool, depth: nat, close: bytes)
    requires Printable(Object(ms)) && RawFree(Object(ms))
    ensures MemsAre(MemsOf(ms, format, depth, close), ms, format, depth, close)
    decreases ms, 0
  {
    hide *;
    if ms == [] {
      NoMems(format, depth, close);
    } else {
      PrintableMembers(ms);
      RawFreeMembers(ms);
      CloseIsBlank(format, depth);
      StringWritten(ms[0].key);
      SyntaxRight(ms[0].value, format, depth);
      MemsRight(ms[1..], format, depth, close);
      FirstMem(ms, format, depth, close);
      MemsCons(MemsOf(ms, format, depth, close), ms, format, depth, close);
    }
  }

  lemma NoMems(format: bool, depth: nat, close: bytes)
    ensures MemsAre(MemsOf([], format, depth, close), [], format, depth, close)
  {}

  lemma MemsCons(xs: seq<Mem>, ms: seq<Member>, format: bool, depth: nat, close: bytes)
    requires |xs| == |ms| > 0 && MemsAre(xs[1..], ms[1..], format, depth, close)
    requires xs[0].before == (if format then NewLine(depth) else []) && xs[0].colon == []
    requires xs[0].gap == (if format then [TAB] else []) && xs[0].after == (if |ms| == 1 then close else [])
    requires ChrsOk(true, xs[0].key) && CString(ChrsMeaning(xs[0].key)) == ms[0].key && Right(xs[0].value, ms[0].value, format, depth)
    ensures MemsAre(xs, ms, format, depth, close)
  {
    hide Right, ChrsOk, ChrsMeaning, CString, NewLine;
    assert forall k :: 1 <= k < |xs| ==> xs[k] == xs[1..][k - 1] && ms[k] == ms[1..][k - 1];
  }

  lemma {:induction false} MemsMean(xs: seq<Mem>, ms: seq<Member>)
    requires |xs| == |ms|
    requires forall k :: 0 <= k < |xs| ==> CString(ChrsMeaning(xs[k].key)) == ms[k].key && Meaning(xs[k].value) == ms[k].value
    ensures MembersMeaning(xs) == ms
    decreases |xs|
  {
    hide Meaning, CString, ChrsMeaning;
    if xs == [] {
    } else {
      MemsMean(xs[1..], ms[1..]);
      assert ms == [ms[0]] + ms[1..];
    }
  }

  lemma ObjectRight(xs: seq<Mem>, ms: seq<Member>, format: bool, depth: nat, close: bytes)
    requires MemsAre(xs, ms, format, depth + 1, close) && Blanks(true, close) && close == if format then NewLine(depth) else []
    ensures Right(Obj(close, xs), Object(ms), format, depth)
  {
    hide ChrsOk, ChrsMeaning, CString;
    forall k | 0 <= k < |xs|
      ensures MemOk(true, xs[k]) && Meaning(xs[k].value) == ms[k].value && Laid(xs[k].value, format, depth + 1) {
      assert Right(xs[k].value, ms[k].value, format, depth + 1);
    }
    MemsMean(xs, ms);
  }

  /**
    What the printer writes for a tree is a JSON text of RFC 8259 that means the tree. Unformatted it has no
    blanks, formatted the ones of the layout.
   */
  lemma TextIsStandard(v: Json, format: bool, depth: nat)
    requires Printable(v) && RawFree(v)
    ensures exists x :: Spelling(x) == Text(v, format, depth) && Right(x, v, format, depth)
  {
    hide Right, Spelling, SyntaxOf;
    ValueWritten(v, format, depth);
    SyntaxRight(v, format, depth);
    assert Spelling(SyntaxOf(v, format, depth)) == Text(v, format, depth);
  }

  // ---- so it is read back ----

  lemma ValueRoundTrip(v: Json, format: bool, printDepth: nat, c: bytes, o: nat, depth: nat)
    requires Printable(v) && RawFree(v) && depth <= NESTING_LIMIT
    requires At(c, o, Text(v, format, printDepth)) && (v.Number? ==> NumberStops(c, o + |Text(v, format, printDepth)|))
    ensures Reads(ParseValue(c, o, depth), depth + Nesting(v), v, o + |Text(v, format, printDepth)|)
  {
    hide *;
    var x := SyntaxOf(v, format, printDepth);
    ValueWritten(v, format, printDepth);
    SyntaxRight(v, format, printDepth);
    RightParts(x, v, format, printDepth);
    SyntaxSound.StrictIsLoose(x);
    ValueReads(x, c, o, depth);
  }

  lemma RightParts(x: Syntax, v: Json, format: bool, depth: nat)
    requires Right(x, v, format, depth)
    ensures Grammatical(true, x) && Meaning(x) == v && (x.Num? ==> v.Number?)
  {
    hide Grammatical;
  }

  /** The text of an array is read back as the array, unless it nests too deep. */
  lemma ArrayRoundTrip(es: seq<Json>, format: bool, printDepth: nat, c: bytes, o: nat, depth: nat)
    requires Printable(Array(es)) && RawFree(Array(es))
    requires At(c, o, Text(Array(es), format, printDepth))
    ensures Reads(ParseArray(c, o, depth), depth + 1 + ElemsNesting(es), Array(es), o + |Text(Array(es), format, printDepth)|)
  {
    hide *;
    ArrayText(es, format, printDepth);
    AtIndex(c, o, Text(Array(es), format, printDepth), 0);
    OneDeeper(es, []);
    TooDeep(c, o, depth);
    if depth <= NESTING_LIMIT {
      ValueRoundTrip(Array(es), format, printDepth, c, o, depth);
      ValueStep(c, o, depth);
    } else {
      Refused(ParseArray(c, o, depth), depth + 1 + ElemsNesting(es), Array(es), o + |Text(Array(es), format, printDepth)|);
    }
  }

  lemma TooDeep(c: bytes, o: nat, depth: nat)
    requires o < |c|
    ensures depth > NESTING_LIMIT ==> ParseArray(c, o, depth).Err? && ParseObject(c, o, depth).Err?
  {}

  lemma Refused(r: Parsed<Json>, nesting: nat, v: Json, end: nat)
    requires r.Err? && nesting > NESTING_LIMIT
    ensures Reads(r, nesting, v, end)
  {}

  lemma OneDeeper(es: seq<Json>, ms: seq<Member>)
    ensures Nesting(Array(es)) == 1 + ElemsNesting(es) && Nesting(Object(ms)) == 1 + MembersNesting(ms)
  {}

  /** The same for objects, key order kept. */
  lemma ObjectRoundTrip(ms: seq<Member>, format: bool, printDepth: nat, c: bytes, o: nat, depth: nat)
    requires Printable(Object(ms)) && RawFree(Object(ms))
    requires At(c, o, Text(Object(ms), format, printDepth))
    ensures Reads(ParseObject(c, o, depth), depth + 1 + MembersNesting(ms), Object(ms), o + |Text(Object(ms), format, printDepth)|)
  {
    hide *;
    ObjectTextParts(ms, format, printDepth);
    AtIndex(c, o, Text(Object(ms), format, printDepth), 0);
    OneDeeper([], ms);
    TooDeep(c, o, depth);
    if depth <= NESTING_LIMIT {
      ValueRoundTrip(Object(ms), format, printDepth, c, o, depth);
      ValueStep(c, o, depth);
    } else {
      Refused(ParseObject(c, o, depth), depth + 1 + MembersNesting(ms), Object(ms), o + |Text(Object(ms), format, printDepth)|);
    }
  }

  // ---- documents ----

  lemma TextStart(v: Json, format: bool)
    requires Printable(v) && RawFree(v)
    ensures var t := Text(v, format, 0); t != [] && 32 < t[0] < 0x80
  {
    hide *;
    ValueWritten(v, format, 0);
    SyntaxRight(v, format, 0);
    RightParts(SyntaxOf(v, format, 0), v, format, 0);
    SyntaxSound.StrictIsLoose(SyntaxOf(v, format, 0));
    FirstByte(SyntaxOf(v, format, 0));
  }

  /** Root level: a buffer that starts with the text, followed by nothing or by a NUL. */
  lemma BufferRoundTrip(v: Json, format: bool, c: bytes, requireNul: bool)
    requires Printable(v) && RawFree(v)
    requires c == Text(v, format, 0) + [NUL] || (c == Text(v, format, 0) && !requireNul)
    ensures Reads(ParseWithLength(c, requireNul), Nesting(v), v, |Text(v, format, 0)|)
  {
    hide *;
    var t := Text(v, format, 0);
    TextStart(v, format);
    TextAtStart(c, t);
    ValueRoundTrip(v, format, 0, c, 0, 0);
    RootStep(c, ParseValue(c, 0, 0), t, requireNul, Nesting(v), v);
  }

  /** The text stands at the front, behind no byte order mark and no blank. */
  lemma TextAtStart(c: bytes, t: bytes)
    requires (c == t || c == t + [NUL]) && t != [] && 32 < t[0] < 0x80
    ensures c != [] && At(c, 0, t) && SkipBlanks(c, SkipBom(c)) == 0 && NumberStops(c, 0 + |t|)
    ensures 0 <= NESTING_LIMIT
  {
    hide NumberStops;
    assert c[..|t|] == t;
    assert c[0] == t[0];
    if At(c, 0, BOM) {
      AtIndex(c, 0, BOM, 0);
    }
    BlankEndAt(c, 0, 0);
    assert NumberStops(c, |t|) by {
      SyntaxSound.NulStops();
      assert |t| < |c| ==> c[|t|] == NUL;
      StopsAt(c, |t|);
    }
  }

  lemma StopsAt(c: bytes, p: nat)
    requires p < |c| ==> !IsNumberByte(c[p])
    ensures NumberStops(c, p)
  {}

  /** Behind the text there are only blanks, so the skip steps back to the NUL. */
  lemma RootStep(c: bytes, r: Parsed<Json>, t: bytes, requireNul: bool, nesting: nat, v: Json)
    requires c == t + [NUL] || (c == t && !requireNul)
    requires c != [] && SkipBlanks(c, SkipBom(c)) == 0 && r == ParseValue(c, 0, 0) && Reads(r, 0 + nesting, v, 0 + |t|)
    ensures Reads(ParseWithLength(c, requireNul), nesting, v, |t|)
  {
    hide SkipBom, ParseValue;
    if requireNul {
      assert c[|t|] == NUL;
      SyntaxSound.AllBlank(c, |t|);
    }
  }

  /**
    For every tree of nulls, booleans, int-valued numbers, NUL-free strings, arrays and objects, the
    printed text, formatted or not, parses back to the same tree exactly when the tree nests at most
    as deep as the parser allows; otherwise the text is refused.
   */
  lemma DocumentRoundTrip(v: Json, format: bool, requireNul: bool)
    requires Printable(v) && RawFree(v)
    ensures Reads(Parse(Text(v, format, 0), requireNul), Nesting(v), v, |Text(v, format, 0)|)
  {
    BufferRoundTrip(v, format, Text(v, format, 0) + [NUL], requireNul);
  }
}
