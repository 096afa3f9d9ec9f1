/**
  What the cJSON parser computes, as functions of the input bytes and the read position. The
  methods of ParseBuffer are proved equal to these; the theorems of RoundTrip are about them.
 */
module JsonParser {
  import opened Bytes
  import opened Decimals
  import opened JsonText
  import opened Utf16

  const NESTING_LIMIT := 1000

  /** The outcome of one parse step and the read position it leaves behind. */
  datatype Parsed<+T> = Ok(value: T, offset: nat) | Err(offset: nat)

  // ---- white space ----

  /** First position from `o` on that does not hold a byte up to 32. */
  function BlankEnd(c: bytes, o: nat): (r: nat)
    requires o <= |c|
    ensures o <= r <= |c|
    ensures forall k :: o <= k < r ==> c[k] <= 32
    ensures r < |c| ==> c[r] > 32
    decreases |c| - o
  {
    if o < |c| && c[o] <= 32 then BlankEnd(c, o + 1) else o
  }

  /** Skips blanks, but steps back to the last byte when only blanks are left. */
  function SkipBlanks(c: bytes, o: nat): (r: nat)
    requires o <= |c|
    ensures o <= r <= |c|
    ensures o < |c| ==> r < |c|
  {
    if o == |c| then o
    else
      var e := BlankEnd(c, o);
      if e == |c| then e - 1 else e
  }

  // ---- numbers ----

  predicate IsNumberByte(b: byte) {
    IsDigit(b) || b == PLUS || b == MINUS || b == 0x65 || b == 0x45 || b == DOT
  }

  function NumberEnd(c: bytes, o: nat): (r: nat)
    requires o <= |c|
    ensures o <= r <= |c|
    ensures forall k :: o <= k < r ==> IsNumberByte(c[k])
    ensures r < |c| ==> !IsNumberByte(c[r])
    decreases |c| - o
  {
    if o < |c| && IsNumberByte(c[o]) then NumberEnd(c, o + 1) else o
  }

  function DigitsEnd(s: bytes, i: nat): (r: nat)
    requires i <= |s|
    ensures i <= r <= |s|
    ensures forall k :: i <= k < r ==> IsDigit(s[k])
    ensures r < |s| ==> !IsDigit(s[r])
    decreases |s| - i
  {
    if i < |s| && IsDigit(s[i]) then DigitsEnd(s, i + 1) else i
  }

  function SignEnd(s: bytes, i: nat): (r: nat)
    requires i <= |s|
    ensures i <= r <= |s|
  {
    if i < |s| && (s[i] == PLUS || s[i] == MINUS) then i + 1 else i
  }

  /** How much of the text strtod takes, and its exact value. */
  datatype NumberRead = NumberRead(consumed: nat, value: real)

  function Exponent(s: bytes, k: nat): (r: NumberRead)
    requires k <= |s|
    ensures k <= r.consumed <= |s|
  {
    if k == |s| || (s[k] != 0x65 && s[k] != 0x45) then NumberRead(k, 1.0)
    else
      var m := SignEnd(s, k + 1);
      var n := DigitsEnd(s, m);
      if n == m then NumberRead(k, 1.0)
      else
        var p := Pow10(DigitsValue(s[m..n])) as real;
        NumberRead(n, if s[k + 1] == MINUS then 1.0 / p else p)
  }

  /** The decimal subject sequence of strtod; consumes nothing when there is no digit. */
  function Strtod(s: bytes): (r: NumberRead)
    ensures r.consumed <= |s|
  {
    var i := SignEnd(s, 0);
    var j := DigitsEnd(s, i);
    var k := if j < |s| && s[j] == DOT then DigitsEnd(s, j + 1) else j;
    var fraction := if k == j then [] else s[j + 1..k];
    if i == j && fraction == [] then NumberRead(0, 0.0)
    else
      var e := Exponent(s, k);
      var mantissa := DigitsValue(s[i..j] + fraction) as real / Pow10(|fraction|) as real;
      NumberRead(e.consumed, (if s[0] == MINUS then -mantissa else mantissa) * e.value)
  }

  function ParseNumber(c: bytes, o: nat): (r: Parsed<Json>)
    requires o <= |c|
    ensures r.Ok? ==> o < r.offset <= |c|
    ensures r.Err? ==> r.offset == o
  {
    var n := Strtod(c[o..NumberEnd(c, o)]);
    if n.consumed == 0 then Err(o) else Ok(Number(n.value), o + n.consumed)
  }

  // ---- strings ----

  /** The first scan: where the closing quote is, skipping a byte after every backslash. */
  function ScanEnd(c: bytes, i: nat): (r: Option<nat>)
    ensures r.Some? ==> i <= r.value < |c| && c[r.value] == QUOTE
    decreases |c| - i
  {
    if i >= |c| then None
    else if c[i] == QUOTE then Some(i)
    else if c[i] == BACKSLASH then (if i + 1 >= |c| then None else ScanEnd(c, i + 2))
    else ScanEnd(c, i + 1)
  }

  /** The second loop's result: the bytes written, or the escape it cannot read. */
  datatype Unescaped = Unescaped(out: bytes) | BadEscape(at: nat)

  function Prepend(s: bytes, u: Unescaped): Unescaped {
    if u.Unescaped? then Unescaped(s + u.out) else u
  }

  function SimpleEscape(b: byte): Option<byte> {
    if b == 0x62 then Some(0x08)
    else if b == 0x66 then Some(0x0c)
    else if b == 0x6e then Some(NEWLINE)
    else if b == 0x72 then Some(0x0d)
    else if b == 0x74 then Some(TAB)
    else if b == QUOTE || b == BACKSLASH || b == 0x2f then Some(b)
    else None
  }

  /** One escape: the bytes it stands for and the input bytes it takes. */
  datatype Piece = Piece(out: bytes, consumed: nat) | BadPiece

  function ReadPiece(c: bytes, i: nat, end: nat): (r: Piece)
    requires i < end < |c|
    ensures r.Piece? ==> 1 <= |r.out| <= 4 && 1 <= r.consumed <= 12
    ensures r.Piece? && r.consumed <= 2 ==> |r.out| == 1
    ensures r.Piece? && r.consumed > 2 ==> 2 * |r.out| <= r.consumed && i + r.consumed <= end
  {
    if c[i] != BACKSLASH then Piece([c[i]], 1)
    else if c[i + 1] == LOWER_U then
      match ReadLiteral(c, i, end)
      case BadLiteral => BadPiece
      case Literal(cp, n) => Piece(Utf8(cp), n)
    else
      match SimpleEscape(c[i + 1])
      case Some(b) => Piece([b], 2)
      case None => BadPiece
  }

  function Unescape(c: bytes, i: nat, end: nat): Unescaped
    requires end < |c|
    decreases end - i
  {
    if i >= end then Unescaped([])
    else
      match ReadPiece(c, i, end)
      case BadPiece => BadEscape(i)
      case Piece(out, n) => Prepend(out, Unescape(c, i + n, end))
  }

  /** The string at `o`; its value is what C string functions see of the bytes written. */
  function ParseString(c: bytes, o: nat): (r: Parsed<bytes>)
    requires o < |c|
    ensures r.Ok? ==> o < r.offset <= |c|
  {
    if c[o] != QUOTE then Err(o + 1)
    else
      match ScanEnd(c, o + 1)
      case None => Err(o + 1)
      case Some(end) =>
        match Unescape(c, o + 1, end)
        case BadEscape(at) => Err(at)
        case Unescaped(out) => Ok(CString(out), end + 1)
  }

  // ---- values ----

  function ParseValue(c: bytes, o: nat, depth: nat): (r: Parsed<Json>)
    requires o <= |c|
    ensures r.Ok? ==> o < r.offset <= |c|
    decreases |c| - o, 3
  {
    if At(c, o, TEXT_NULL) then Ok(Null, o + 4)
    else if At(c, o, TEXT_FALSE) then Ok(Bool(false), o + 5)
    else if At(c, o, TEXT_TRUE) then Ok(Bool(true), o + 4)
    else if o == |c| then Err(o)
    else if c[o] == QUOTE then
      match ParseString(c, o)
      case Ok(s, p) => Ok(String(s), p)
      case Err(p) => Err(p)
    else if c[o] == MINUS || IsDigit(c[o]) then ParseNumber(c, o)
    else if c[o] == LBRACKET then ParseArray(c, o, depth)
    else if c[o] == LBRACE then ParseObject(c, o, depth)
    else Err(o)
  }

  function ParseArray(c: bytes, o: nat, depth: nat): (r: Parsed<Json>)
    requires o < |c|
    ensures r.Ok? ==> o < r.offset <= |c|
    decreases |c| - o, 2
  {
    if depth >= NESTING_LIMIT then Err(o)
    else
      var p := SkipBlanks(c, o + 1);
      if p == |c| then Err(p - 1)
      else if c[p] == RBRACKET then Ok(Array([]), p + 1)
      else
        match ParseElems(c, p, depth + 1)
        case Ok(es, q) => Ok(Array(es), q)
        case Err(q) => Err(q)
  }

  /** The elements from `o`, which is behind the bracket or a comma, to the closing bracket. */
  function ParseElems(c: bytes, o: nat, depth: nat): (r: Parsed<seq<Json>>)
    requires o <= |c|
    ensures r.Ok? ==> o < r.offset <= |c|
    decreases |c| - o, 4
  {
    match ParseValue(c, SkipBlanks(c, o), depth)
    case Err(p) => Err(p)
    case Ok(v, p) =>
      var q := SkipBlanks(c, p);
      if q < |c| && c[q] == COMMA then
        match ParseElems(c, q + 1, depth)
        case Err(s) => Err(s)
        case Ok(vs, s) => Ok([v] + vs, s)
      else if q < |c| && c[q] == RBRACKET then Ok([v], q + 1)
      else Err(q)
  }

  function ParseObject(c: bytes, o: nat, depth: nat): (r: Parsed<Json>)
    requires o < |c|
    ensures r.Ok? ==> o < r.offset <= |c|
    decreases |c| - o, 2
  {
    if depth >= NESTING_LIMIT then Err(o)
    else
      var p := SkipBlanks(c, o + 1);
      if p == |c| then Err(p - 1)
      else if c[p] == RBRACE then Ok(Object([]), p + 1)
      else
        match ParseMembers(c, p, depth + 1)
        case Ok(ms, q) => Ok(Object(ms), q)
        case Err(q) => Err(q)
  }

  /** A key, its colon, and the value behind it. */
  function ParseMember(c: bytes, o: nat, depth: nat): (r: Parsed<Member>)
    requires o < |c|
    ensures r.Ok? ==> o < r.offset <= |c|
    decreases |c| - o, 4
  {
    match ParseString(c, SkipBlanks(c, o))
    case Err(p) => Err(p)
    case Ok(key, p) =>
      var q := SkipBlanks(c, p);
      if q == |c| || c[q] != COLON then Err(q)
      else
        match ParseValue(c, SkipBlanks(c, q + 1), depth)
        case Err(s) => Err(s)
        case Ok(v, s) => Ok(Member(key, v), s)
  }

  function ParseMembers(c: bytes, o: nat, depth: nat): (r: Parsed<seq<Member>>)
    requires 0 < o <= |c|
    ensures r.Ok? ==> o < r.offset <= |c|
    decreases |c| - o, 5
  {
    if o == |c| then Err(o - 1)
    else
      match ParseMember(c, o, depth)
      case Err(p) => Err(p)
      case Ok(m, p) =>
        var q := SkipBlanks(c, p);
        if q < |c| && c[q] == COMMA then
          match ParseMembers(c, q + 1, depth)
          case Err(s) => Err(s)
          case Ok(ms, s) => Ok([m] + ms, s)
        else if q < |c| && c[q] == RBRACE then Ok([m], q + 1)
        else Err(q)
  }

  // ---- documents ----

  const BOM: bytes := [0xEF, 0xBB, 0xBF]

  function SkipBom(c: bytes): (r: nat)
    ensures r <= |c|
  {
    if |c| > 4 && At(c, 0, BOM) then 3 else 0
  }

  /** cJSON_ParseWithLengthOpts: `c` is the whole buffer, with any terminator that belongs to it. */
  function ParseWithLength(c: bytes, requireNul: bool): (r: Parsed<Json>)
    ensures r.Ok? ==> r.offset <= |c|
  {
    if c == [] then Err(0)
    else
      match ParseValue(c, SkipBlanks(c, SkipBom(c)), 0)
      case Err(p) => Err(p)
      case Ok(v, p) =>
        if requireNul then
          var q := SkipBlanks(c, p);
          if q < |c| && c[q] == NUL then Ok(v, q) else Err(q)
        else Ok(v, p)
  }

  /** cJSON_ParseWithOpts on the C string `s`: the buffer includes the terminating NUL. */
  function Parse(s: bytes, requireNul: bool): Parsed<Json> {
    ParseWithLength(s + [NUL], requireNul)
  }
}
