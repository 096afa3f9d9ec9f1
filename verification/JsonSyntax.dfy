/**
  The JSON grammar of RFC 8259, written down without printer and parser: what a JSON text is made of, how it is
  spelled, and what it means. `strict` is the grammar of the standard; without it, the texts that cJSON takes.
 */
module JsonSyntax {
  import opened Bytes
  import opened Decimals
  import opened JsonText
  import opened Utf16

  /** A character of a string: itself, a two-character escape, or a code point as one or two \uXXXX. */
  datatype Chr = Plain(b: byte) | Short(letter: byte) | Coded(cp: nat, text: bytes)

  datatype ExponentPart = ExponentPart(mark: byte, sign: Option<byte>, digits: bytes)

  datatype Numeric = Numeric(minus: bool, whole: bytes, fraction: Option<bytes>, exponent: Option<ExponentPart>)

  /** A value as it is written; `gap`, `before` and `after` are the blanks around its parts. */
  datatype Syntax =
    | Word(value: Json)
    | Num(n: Numeric)
    | Str(chars: seq<Chr>)
    | Arr(gap: bytes, elems: seq<Elem>)
    | Obj(gap: bytes, mems: seq<Mem>)

  datatype Elem = Elem(before: bytes, value: Syntax, after: bytes)

  datatype Mem = Mem(before: bytes, key: seq<Chr>, colon: bytes, gap: bytes, value: Syntax, after: bytes)

  // ---- spelling ----

  function Ascii(t: string): (r: bytes)
    requires forall i :: 0 <= i < |t| ==> t[i] < 0x80 as char
    ensures |r| == |t| && forall i :: 0 <= i < |t| ==> r[i] == t[i] as int
  {
    seq(|t|, i requires 0 <= i < |t| => t[i] as int as byte)
  }

  function WordText(v: Json): bytes {
    match v
    case Null => Ascii("null")
    case Bool(b) => if b then Ascii("true") else Ascii("false")
    case _ => []
  }

  function FractionText(f: Option<bytes>): bytes {
    if f.Some? then Ascii(".") + f.value else []
  }

  function ExponentText(e: Option<ExponentPart>): bytes {
    if e.None? then []
    else [e.value.mark] + (if e.value.sign.Some? then [e.value.sign.value] else []) + e.value.digits
  }

  function NumericText(n: Numeric): bytes {
    (if n.minus then Ascii("-") else []) + n.whole + FractionText(n.fraction) + ExponentText(n.exponent)
  }

  function ChrText(c: Chr): bytes {
    match c
    case Plain(b) => [b]
    case Short(letter) => Ascii("\\") + [letter]
    case Coded(_, text) => text
  }

  function ChrsText(cs: seq<Chr>): bytes {
    if cs == [] then [] else ChrText(cs[0]) + ChrsText(cs[1..])
  }

  function StringText(cs: seq<Chr>): bytes {
    Ascii("\"") + ChrsText(cs) + Ascii("\"")
  }

  function Spelling(x: Syntax): bytes
    decreases x, 0
  {
    match x
    case Word(v) => WordText(v)
    case Num(n) => NumericText(n)
    case Str(cs) => StringText(cs)
    case Arr(gap, es) => Ascii("[") + if es == [] then gap + Ascii("]") else ElemsSpelling(es)
    case Obj(gap, ms) => Ascii("{") + if ms == [] then gap + Ascii("}") else MembersSpelling(ms)
  }

  /** The elements, separated by commas, and the bracket that closes them. */
  function ElemsSpelling(es: seq<Elem>): bytes
    requires es != []
    decreases es, 2
  {
    es[0].before + ElemSpelling(es)
  }

  /** The same without the blanks at the front. */
  function ElemSpelling(es: seq<Elem>): bytes
    requires es != []
    decreases es, 1
  {
    Spelling(es[0].value) + (es[0].after + ElemsEnd(es))
  }

  function ElemsEnd(es: seq<Elem>): bytes
    requires es != []
    decreases es, 0
  {
    if |es| == 1 then Ascii("]") else Ascii(",") + ElemsSpelling(es[1..])
  }

  /** The members, separated by commas, and the brace that closes them. */
  function MembersSpelling(ms: seq<Mem>): bytes
    requires ms != []
    decreases ms, 3
  {
    ms[0].before + MemberSpelling(ms)
  }

  function MemberSpelling(ms: seq<Mem>): bytes
    requires ms != []
    decreases ms, 2
  {
    StringText(ms[0].key) + (ms[0].colon + (Ascii(":") + (ms[0].gap + MemberRest(ms))))
  }

  /** From the value of the first member on. */
  function MemberRest(ms: seq<Mem>): bytes
    requires ms != []
    decreases ms, 1
  {
    Spelling(ms[0].value) + (ms[0].after + MembersEnd(ms))
  }

  function MembersEnd(ms: seq<Mem>): bytes
    requires ms != []
    decreases ms, 0
  {
    if |ms| == 1 then Ascii("}") else Ascii(",") + MembersSpelling(ms[1..])
  }

  // ---- the grammar ----

  /** The four blanks of section 2; cJSON takes every byte up to the space. */
  predicate IsBlank(strict: bool, b: byte) {
    if strict then b == ' ' as int || b == '\t' as int || b == '\n' as int || b == '\r' as int else b <= ' ' as int
  }

  predicate Blanks(strict: bool, s: bytes) {
    forall k :: 0 <= k < |s| ==> IsBlank(strict, s[k])
  }

  predicate AllDigits(s: bytes) {
    forall k :: 0 <= k < |s| ==> '0' as int <= s[k] <= '9' as int
  }

  /** Section 6: zero or digits that start with another one, then fraction and exponent with at least a digit each. */
  predicate StrictNumber(n: Numeric) {
    && n.whole != [] && (n.whole[0] == '0' as int ==> |n.whole| == 1)
    && (n.fraction.Some? ==> n.fraction.value != [])
  }

  /** cJSON takes leading zeros, no digits behind the dot, and none before it behind a minus sign. */
  predicate LooseNumber(n: Numeric) {
    && (n.whole != [] || n.minus) && n.whole + n.fraction.GetOr([]) != []
  }

  predicate ExponentOk(e: ExponentPart) {
    && (e.mark == 'e' as int || e.mark == 'E' as int)
    && (e.sign.Some? ==> e.sign.value == '+' as int || e.sign.value == '-' as int)
    && e.digits != [] && AllDigits(e.digits)
  }

  predicate NumberOk(strict: bool, n: Numeric) {
    && AllDigits(n.whole) && (n.fraction.Some? ==> AllDigits(n.fraction.value))
    && (n.exponent.Some? ==> ExponentOk(n.exponent.value))
    && if strict then StrictNumber(n) else LooseNumber(n)
  }

  /** The two-character escapes of section 7. */
  function ShortMeaning(letter: byte): Option<byte> {
    match letter as char
    case '"' => Some(0x22)
    case '\\' => Some(0x5C)
    case '/' => Some(0x2F)
    case 'b' => Some(0x08)
    case 'f' => Some(0x0C)
    case 'n' => Some(0x0A)
    case 'r' => Some(0x0D)
    case 't' => Some(0x09)
    case _ => None
  }

  /** Section 7: a character that stands for itself is no quote and no backslash, nor a control character, which cJSON takes. */
  predicate ChrOk(strict: bool, c: Chr) {
    match c
    case Plain(b) => b != '"' as int && b != '\\' as int && (strict ==> b >= 0x20)
    case Short(letter) => ShortMeaning(letter).Some?
    case Coded(cp, text) => IsScalar(cp) && |text| == 6 * |Units(cp)| && Spells(text, 0, |text|, Units(cp))
  }

  predicate ChrsOk(strict: bool, cs: seq<Chr>) {
    forall k :: 0 <= k < |cs| ==> ChrOk(strict, cs[k])
  }

  predicate Grammatical(strict: bool, x: Syntax)
    decreases x, 0
  {
    match x
    case Word(v) => v.Null? || v.Bool?
    case Num(n) => NumberOk(strict, n)
    case Str(cs) => ChrsOk(strict, cs)
    case Arr(gap, es) => Blanks(strict, gap) && forall k :: 0 <= k < |es| ==> ElemOk(strict, es[k])
    case Obj(gap, ms) => Blanks(strict, gap) && forall k :: 0 <= k < |ms| ==> MemOk(strict, ms[k])
  }

  predicate ElemOk(strict: bool, e: Elem)
    decreases e, 1
  {
    Blanks(strict, e.before) && Grammatical(strict, e.value) && Blanks(strict, e.after)
  }

  predicate MemOk(strict: bool, m: Mem)
    decreases m, 1
  {
    && Blanks(strict, m.before) && ChrsOk(strict, m.key) && Blanks(strict, m.colon) && Blanks(strict, m.gap)
    && Grammatical(strict, m.value) && Blanks(strict, m.after)
  }

  // ---- layout ----

  /** No blanks between the parts. */
  predicate Compact(x: Syntax)
    decreases x, 0
  {
    match x
    case Arr(gap, es) => gap == [] && forall k :: 0 <= k < |es| ==> es[k].before == [] && es[k].after == [] && Compact(es[k].value)
    case Obj(gap, ms) => gap == [] && forall k :: 0 <= k < |ms| ==>
      ms[k].before == [] && ms[k].colon == [] && ms[k].gap == [] && ms[k].after == [] && Compact(ms[k].value)
    case _ => true
  }

  /** A line feed, and `depth` tabs on the next line. */
  function NewLine(depth: nat): (r: bytes)
    ensures |r| == 1 + depth
  {
    ['\n' as int as byte] + seq(depth, _ => '\t' as int as byte)
  }

  /**
    Elements on one line, a space behind each comma; every member on a line of its own with one more tab than the
    braces, and a tab behind the colon.
   */
  predicate LaidOut(x: Syntax, depth: nat)
    decreases x, 0
  {
    match x
    case Arr(gap, es) => gap == [] && forall k :: 0 <= k < |es| ==>
      es[k].before == (if k == 0 then [] else Ascii(" ")) && es[k].after == [] && LaidOut(es[k].value, depth + 1)
    case Obj(gap, ms) => gap == NewLine(depth) && forall k :: 0 <= k < |ms| ==>
      && ms[k].before == NewLine(depth + 1) && ms[k].colon == [] && ms[k].gap == Ascii("\t")
      && ms[k].after == (if k == |ms| - 1 then NewLine(depth) else []) && LaidOut(ms[k].value, depth + 1)
    case _ => true
  }

  // ---- meaning ----

  /** The number in decimal notation: its digits as a whole, divided by a power of ten, times a power of ten. */
  function NumericValue(n: Numeric): real {
    var fraction := n.fraction.GetOr([]);
    var size := DigitsValue(n.whole + fraction) as real / Pow10(|fraction|) as real * Power(n.exponent);
    if n.minus then -size else size
  }

  function Power(e: Option<ExponentPart>): real {
    if e.None? then 1.0
    else
      var p := Pow10(DigitsValue(e.value.digits)) as real;
      if e.value.sign == Some('-' as int as byte) then 1.0 / p else p
  }

  function ChrMeaning(c: Chr): bytes {
    match c
    case Plain(b) => [b]
    case Short(letter) => if ShortMeaning(letter).Some? then [ShortMeaning(letter).value] else []
    case Coded(cp, _) => if cp <= 0x10FFFF then Utf8(cp) else []
  }

  function ChrsMeaning(cs: seq<Chr>): bytes {
    if cs == [] then [] else ChrMeaning(cs[0]) + ChrsMeaning(cs[1..])
  }

  /** The value of a text. A string is kept as a C string, so only up to a character 0. */
  function Meaning(x: Syntax): Json
    decreases x, 0
  {
    match x
    case Word(v) => v
    case Num(n) => Number(NumericValue(n))
    case Str(cs) => String(CString(ChrsMeaning(cs)))
    case Arr(_, es) => Array(ElemsMeaning(es))
    case Obj(_, ms) => Object(MembersMeaning(ms))
  }

  function ElemsMeaning(es: seq<Elem>): seq<Json>
    decreases es, 0
  {
    if es == [] then [] else [Meaning(es[0].value)] + ElemsMeaning(es[1..])
  }

  function MembersMeaning(ms: seq<Mem>): seq<Member>
    decreases ms, 0
  {
    if ms == [] then [] else [Member(CString(ChrsMeaning(ms[0].key)), Meaning(ms[0].value))] + MembersMeaning(ms[1..])
  }
}
