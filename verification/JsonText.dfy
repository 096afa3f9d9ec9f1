/** The JSON trees cJSON works on, and the text that its printer is to produce for them. */
module JsonText {
  import opened Bytes
  import opened Decimals

  /**
    A cJSON item without its list pointers: the type tag, the value, and the children in sibling
    order. An object member keeps its key; keys are not required to be distinct.
   */
  datatype Json =
    | Null
    | Bool(b: bool)
    | Number(d: real)
    | Raw(text: bytes)
    | String(s: bytes)
    | Array(elems: seq<Json>)
    | Object(members: seq<Member>)

  datatype Member = Member(key: bytes, value: Json)

  const QUOTE: byte := 0x22
  const BACKSLASH: byte := 0x5c
  const COMMA: byte := 0x2c
  const COLON: byte := 0x3a
  const LBRACKET: byte := 0x5b
  const RBRACKET: byte := 0x5d
  const LBRACE: byte := 0x7b
  const RBRACE: byte := 0x7d
  const SPACE: byte := 0x20
  const TAB: byte := 0x09
  const NEWLINE: byte := 0x0a
  const LOWER_U: byte := 0x75

  const TEXT_NULL: bytes := [0x6e, 0x75, 0x6c, 0x6c]
  const TEXT_TRUE: bytes := [0x74, 0x72, 0x75, 0x65]
  const TEXT_FALSE: bytes := [0x66, 0x61, 0x6c, 0x73, 0x65]

  const INT_MAX := 0x7fff_ffff
  const INT_MIN := -0x8000_0000

  predicate IsInt32(n: int) {
    INT_MIN <= n <= INT_MAX
  }

  /** Conversion of a double to an int, where it is defined: towards zero. */
  function Truncated(d: real): int {
    if d >= 0.0 then d.Floor else -(-d).Floor
  }

  /** The integer field beside the number: truncated, and saturated where an int overflows. */
  function ValueInt(d: real): (n: int)
    ensures IsInt32(n)
  {
    if d >= INT_MAX as real then INT_MAX
    else if d <= INT_MIN as real then INT_MIN
    else Truncated(d)
  }

  predicate IsIntValued(d: real) {
    d == d.Floor as real && IsInt32(d.Floor)
  }

  /**
    The numbers that equal their own integer field, which are printed as integers, are the 32-bit integers. No
    32-bit integer on the same side of zero lies between a number and its field.
   */
  lemma ValueIntExact(d: real)
    ensures d == ValueInt(d) as real <==> IsIntValued(d)
    ensures IsIntValued(d) ==> ValueInt(d) == d.Floor
    ensures forall n {:trigger IsInt32(n)} :: IsInt32(n) && 0.0 <= n as real <= d ==> 0 <= n <= ValueInt(d) && ValueInt(d) as real <= d
    ensures forall n {:trigger IsInt32(n)} :: IsInt32(n) && d <= n as real <= 0.0 ==> ValueInt(d) <= n <= 0 && d <= ValueInt(d) as real
  {}

  predicate Printable(v: Json) {
    match v
    case Null => true
    case Bool(_) => true
    case Number(d) => IsIntValued(d)
    case Raw(t) => NulFree(t)
    case String(s) => NulFree(s)
    case Array(es) => forall e :: e in es ==> Printable(e)
    case Object(ms) => forall m :: m in ms ==> NulFree(m.key) && Printable(m.value)
  }

  /** Trees without raw text: the ones the parser can build. */
  predicate RawFree(v: Json) {
    match v
    case Raw(_) => false
    case Array(es) => forall e :: e in es ==> RawFree(e)
    case Object(ms) => forall m :: m in ms ==> RawFree(m.value)
    case _ => true
  }

  // ---- numbers ----

  /** sprintf "%d" */
  function Decimal(n: int): (r: bytes)
    ensures |r| >= 1
    ensures forall i :: 0 <= i < |r| ==> IsDigit(r[i]) || (i == 0 && n < 0 && r[0] == MINUS)
  {
    if n < 0 then [MINUS] + Digits(-n) else Digits(n)
  }

  // ---- strings ----

  function HexDigit(n: nat): byte
    requires n < 16
  {
    if n < 10 then ZERO + n else 0x61 + (n - 10)
  }

  predicate IsShortEscape(b: byte) {
    b == QUOTE || b == BACKSLASH || b == 0x08 || b == 0x0c || b == NEWLINE || b == 0x0d || b == TAB
  }

  /** The letter written after the backslash. */
  function ShortEscape(b: byte): byte
    requires IsShortEscape(b)
  {
    if b == 0x08 then 0x62
    else if b == 0x0c then 0x66
    else if b == NEWLINE then 0x6e
    else if b == 0x0d then 0x72
    else if b == TAB then 0x74
    else b
  }

  function EscapeByte(b: byte): (r: bytes)
    ensures 1 <= |r| <= 6
    ensures NulFree(r)
  {
    if IsShortEscape(b) then [BACKSLASH, ShortEscape(b)]
    else if b < 32 then [BACKSLASH, LOWER_U, ZERO, ZERO, HexDigit(b / 16), HexDigit(b % 16)]
    else [b]
  }

  function Escape(s: bytes): (r: bytes)
    ensures NulFree(r)
  {
    if s == [] then [] else EscapeByte(s[0]) + Escape(s[1..])
  }

  function Quoted(s: bytes): (r: bytes)
    ensures NulFree(r)
  {
    [QUOTE] + Escape(s) + [QUOTE]
  }

  // ---- values ----

  function Tabs(n: nat): (r: bytes)
    ensures |r| == n && forall i :: 0 <= i < n ==> r[i] == TAB
  {
    seq(n, _ => TAB)
  }

  /** The text of a value; `depth` is the number of enclosing arrays and objects. */
  function Text(v: Json, format: bool, depth: nat): (r: bytes)
    decreases v, 0
  {
    match v
    case Null => TEXT_NULL
    case Bool(b) => if b then TEXT_TRUE else TEXT_FALSE
    case Number(d) => Decimal(d.Floor)
    case Raw(t) => t
    case String(s) => Quoted(s)
    case Array(es) => [LBRACKET] + ElemsText(es, format, depth + 1) + [RBRACKET]
    case Object(ms) =>
      ObjectOpen(format) + MembersText(ms, format, depth + 1) + ObjectClose(format, depth)
  }

  function Separator(format: bool): bytes {
    if format then [COMMA, SPACE] else [COMMA]
  }

  function ElemsText(es: seq<Json>, format: bool, depth: nat): bytes
    decreases es, 0
  {
    if es == [] then []
    else if |es| == 1 then Text(es[0], format, depth)
    else Text(es[0], format, depth) + Separator(format) + ElemsText(es[1..], format, depth)
  }

  function ObjectOpen(format: bool): bytes {
    if format then [LBRACE, NEWLINE] else [LBRACE]
  }

  function ObjectClose(format: bool, depth: nat): bytes {
    (if format then Tabs(depth) else []) + [RBRACE]
  }

  function Indent(format: bool, depth: nat): bytes {
    if format then Tabs(depth) else []
  }

  function KeySeparator(format: bool): bytes {
    if format then [COLON, TAB] else [COLON]
  }

  function MemberEnd(format: bool, last: bool): bytes {
    (if last then [] else [COMMA]) + (if format then [NEWLINE] else [])
  }

  function MemberText(m: Member, format: bool, depth: nat, last: bool): bytes
    decreases m, 1
  {
    Indent(format, depth) + Quoted(m.key) + KeySeparator(format) + Text(m.value, format, depth) + MemberEnd(format, last)
  }

  function MembersText(ms: seq<Member>, format: bool, depth: nat): bytes
    decreases ms, 0
  {
    if ms == [] then []
    else MemberText(ms[0], format, depth, |ms| == 1) + MembersText(ms[1..], format, depth)
  }

  // ---- nesting ----

  function Max(a: nat, b: nat): nat {
    if a >= b then a else b
  }

  /** How many arrays and objects are open at the deepest point of the text. */
  function Nesting(v: Json): nat
    decreases v, 0
  {
    match v
    case Array(es) => 1 + ElemsNesting(es)
    case Object(ms) => 1 + MembersNesting(ms)
    case _ => 0
  }

  function ElemsNesting(es: seq<Json>): nat
    decreases es, 0
  {
    if es == [] then 0 else Max(Nesting(es[0]), ElemsNesting(es[1..]))
  }

  function MembersNesting(ms: seq<Member>): nat
    decreases ms, 0
  {
    if ms == [] then 0 else Max(Nesting(ms[0].value), MembersNesting(ms[1..]))
  }
}
