/** The cJSON parser itself: loops and recursion over a buffer with a read position and a depth. */
module ParseBuffer {
  import opened Bytes
  import opened Decimals
  import opened JsonText
  import opened Utf16
  import opened JsonParser

  // ---- the room a string needs ----

  /** The steps the first scan makes from `i` to `end`: one for an escape pair, one for another byte. */
  function ScanSteps(c: bytes, i: nat, end: nat): nat
    requires end <= |c|
    decreases end - i
  {
    if i >= end then 0
    else if c[i] == BACKSLASH then 1 + ScanSteps(c, i + 2, end)
    else 1 + ScanSteps(c, i + 1, end)
  }

  /** Starting one byte later, perhaps inside an escape pair, costs at most one step. */
  lemma {:induction false} ScanStepsShift(c: bytes, i: nat, end: nat)
    requires end <= |c|
    ensures ScanSteps(c, i + 1, end) <= ScanSteps(c, i, end) <= ScanSteps(c, i + 1, end) + 1
    decreases end - i
  {
    if i >= end {
    } else {
      ScanStepsShift(c, i + 1, end);
    }
  }

  /** However the second loop splits the text, two bytes of it hold at least one step. */
  lemma {:induction false} ScanStepsPerTwoBytes(c: bytes, i: nat, end: nat, n: nat)
    requires i + 2 * n <= end <= |c|
    ensures ScanSteps(c, i, end) >= n + ScanSteps(c, i + 2 * n, end)
    decreases n
  {
    if n == 0 {
    } else {
      ScanStepsShift(c, i + 1, end);
      ScanStepsPerTwoBytes(c, i + 2, end, n - 1);
    }
  }

  /** A piece never writes more bytes than the steps it uses up. */
  lemma PieceFits(c: bytes, i: nat, end: nat)
    requires i < end < |c| && ReadPiece(c, i, end).Piece?
    ensures var r := ReadPiece(c, i, end); |r.out| + ScanSteps(c, i + r.consumed, end) <= ScanSteps(c, i, end)
  {
    var r := ReadPiece(c, i, end);
    if r.consumed > 2 {
      ScanStepsPerTwoBytes(c, i, end, r.consumed / 2);
    }
  }

  /**
    For every text, malformed escapes included: what the second loop writes is no longer than the
    number of steps of the first scan.
   */
  lemma {:induction false} UnescapedFits(c: bytes, i: nat, end: nat)
    requires end < |c| && Unescape(c, i, end).Unescaped?
    ensures |Unescape(c, i, end).out| <= ScanSteps(c, i, end)
    decreases end - i
  {
    if i >= end {
    } else {
      PieceFits(c, i, end);
      UnescapedFits(c, i + ReadPiece(c, i, end).consumed, end);
    }
  }

  // ---- UTF-16 literals ----

  /** parse_hex4 */
  method ParseHex4(input: bytes, at: nat) returns (h: nat)
    requires at + 4 <= |input|
    ensures h == Hex4(input, at)
  {
    h := 0;
    for i := 0 to 4
      invariant forall k :: at <= k < at + i ==> HexValue(input[k]).Some?
      invariant i == 0 ==> h == 0
      invariant i == 1 ==> h == HexValue(input[at]).value * 0x10
      invariant i == 2 ==> h == HexValue(input[at]).value * 0x100 + HexValue(input[at + 1]).value * 0x10
      invariant i == 3 ==> h == HexValue(input[at]).value * 0x1000 + HexValue(input[at + 1]).value * 0x100 + HexValue(input[at + 2]).value * 0x10
      invariant i == 4 ==> h == Hex4(input, at)
    {
      var digit := input[at + i];
      assert HexValue(digit).None? ==> Hex4(input, at) == 0 by {
        assert i == 0 || i == 1 || i == 2 || i == 3;
      }
      if ZERO <= digit <= ZERO + 9 {
        h := h + (digit - ZERO);
      } else if 0x41 <= digit <= 0x46 {
        h := h + (10 + (digit - 0x41));
      } else if 0x61 <= digit <= 0x66 {
        h := h + (10 + (digit - 0x61));
      } else {
        return 0;
      }
      if i < 3 {
        h := h * 16;
      }
    }
  }

  /** utf16_literal_to_utf8: writes at `o`; a result of 0 means the literal cannot be converted. */
  method Utf16LiteralToUtf8(input: bytes, at: nat, end: nat, output: array<byte>, o: nat)
    returns (sequenceLength: nat, next: nat)
    requires end <= |input|
    requires ReadLiteral(input, at, end).Literal? ==> o + |Utf8(ReadLiteral(input, at, end).codepoint)| <= output.Length
    modifies output
    ensures var r := ReadLiteral(input, at, end);
            if r.Literal? then
              && sequenceLength == r.consumed && next == o + |Utf8(r.codepoint)| <= output.Length
              && output[o..next] == Utf8(r.codepoint)
              && forall k :: 0 <= k < output.Length && !(o <= k < next) ==> output[k] == old(output[k])
            else sequenceLength == 0 && next == o && output[..] == old(output[..])
  {
    next := o;
    if end - at < 6 {
      return 0, o;
    }
    var firstCode := ParseHex4(input, at + 2);
    if 0xDC00 <= firstCode <= 0xDFFF {
      return 0, o;
    }
    var codepoint: nat;
    if 0xD800 <= firstCode <= 0xDBFF {
      var second := at + 6;
      sequenceLength := 12;
      if end - second < 6 {
        return 0, o;
      }
      if input[second] != BACKSLASH || input[second + 1] != LOWER_U {
        return 0, o;
      }
      var secondCode := ParseHex4(input, second + 2);
      if secondCode < 0xDC00 || secondCode > 0xDFFF {
        return 0, o;
      }
      codepoint := FromSurrogates(firstCode, secondCode);
    } else {
      sequenceLength := 6;
      codepoint := firstCode;
    }
    next := WriteUtf8(codepoint, output, o);
  }

  /** The encoding loop: continuation bytes from the last to the second, then the marked first byte. */
  method WriteUtf8(codepoint: nat, output: array<byte>, o: nat) returns (next: nat)
    requires codepoint <= 0x10FFFF && o + |Utf8(codepoint)| <= output.Length
    modifies output
    ensures next == o + |Utf8(codepoint)| && output[o..next] == Utf8(codepoint)
    ensures forall k :: 0 <= k < output.Length && !(o <= k < next) ==> output[k] == old(output[k])
  {
    var length: nat, mark: nat;
    if codepoint < 0x80 {
      length, mark := 1, 0;
    } else if codepoint < 0x800 {
      length, mark := 2, 0xC0;
    } else if codepoint < 0x1_0000 {
      length, mark := 3, 0xE0;
    } else {
      length, mark := 4, 0xF0;
    }
    var rest, position := codepoint, length - 1;
    while position > 0
      invariant 0 <= position < length == |Utf8(codepoint)|
      invariant position == length - 1 ==> rest == codepoint
      invariant position == length - 2 ==> rest == codepoint / 0x40
      invariant position == length - 3 ==> rest == codepoint / 0x1000
      invariant position == length - 4 ==> rest == codepoint / 0x4_0000
      invariant forall k :: position < k < length ==> output[o + k] == Utf8(codepoint)[k]
      invariant forall k :: 0 <= k < output.Length && !(o <= k < o + length) ==> output[k] == old(output[k])
    {
      output[o + position] := 0x80 + rest % 0x40;
      rest := rest / 0x40;
      position := position - 1;
    }
    output[o] := if length > 1 then mark + rest else rest;
    next := o + length;
    assert forall k :: 0 <= k < length ==> output[o..next][k] == Utf8(codepoint)[k];
  }

  /**
    One turn of the copying loop of parse_string: one byte or one escape, written at `o`. A length
    of 0 means that the escape cannot be read.
   */
  method CopyPiece(input: bytes, at: nat, end: nat, output: array<byte>, o: nat) returns (length: nat, next: nat)
    requires at < end < |input| && o <= output.Length
    requires ReadPiece(input, at, end).Piece? ==> o + |ReadPiece(input, at, end).out| <= output.Length
    modifies output
    ensures var r := ReadPiece(input, at, end);
            if r.Piece? then
              length == r.consumed && next == o + |r.out| <= output.Length && output[..next] == old(output[..o]) + r.out
            else length == 0 && next == o
  {
    next := o;
    if input[at] != BACKSLASH {
      output[o] := input[at];
      return 1, o + 1;
    }
    var escape := input[at + 1];
    if escape == LOWER_U {
      length, next := Utf16LiteralToUtf8(input, at, end, output, o);
      assert length > 0 ==> output[..next] == output[..o] + output[o..next];
    } else {
      var b := SimpleEscape(escape);
      if b.None? {
        return 0, o;
      }
      output[o] := b.value;
      return 2, o + 1;
    }
  }

  // ---- the buffer ----

  /**
    The second loop of parse_string: copies, converting escapes. Every write is within the allocation,
    with a byte to spare, even when the text splits into other pieces than the scan saw.
   */
  method ConvertEscapes(content: bytes, start: nat, end: nat, output: array<byte>) returns (ok: bool, input: nat, o: nat)
    requires start <= end < |content| && ScanSteps(content, start, end) + 2 <= output.Length
    modifies output
    ensures ok ==> o + 2 <= output.Length && Unescape(content, start, end) == Unescaped(output[..o])
    ensures !ok ==> Unescape(content, start, end) == BadEscape(input)
  {
    hide ReadPiece, Unescape, ScanSteps, Prepend;
    input, o := start, 0;
    PrependNone(output[..0], Unescape(content, start, end));
    while input < end
      invariant start <= input && 0 <= o <= output.Length
      invariant Unescape(content, start, end) == Prepend(output[..o], Unescape(content, input, end))
      invariant o + ScanSteps(content, input, end) + 2 <= output.Length
      decreases end - input
    {
      ghost var before, piece := output[..o], ReadPiece(content, input, end);
      if piece.Piece? {
        PieceFits(content, input, end);
      }
      UnescapeStep(content, input, end, before);
      var length;
      length, o := CopyPiece(content, input, end, output, o);
      if length == 0 {
        return false, input, o;
      }
      input := input + length;
    }
    UnescapeEnd(content, input, end, output[..o]);
    ok := true;
  }

  lemma PrependNone(s: bytes, u: Unescaped)
    requires s == []
    ensures Prepend(s, u) == u
  {
    assert u.Unescaped? ==> [] + u.out == u.out;
  }

  lemma UnescapeStep(c: bytes, i: nat, end: nat, before: bytes)
    requires i < end < |c|
    ensures var r := ReadPiece(c, i, end);
            Prepend(before, Unescape(c, i, end)) ==
              if r.Piece? then Prepend(before + r.out, Unescape(c, i + r.consumed, end)) else BadEscape(i)
  {
    hide ReadPiece;
    var r := ReadPiece(c, i, end);
    if r.Piece? {
      PrependTwice(before, r.out, Unescape(c, i + r.consumed, end));
    }
  }

  lemma UnescapeEnd(c: bytes, i: nat, end: nat, s: bytes)
    requires i >= end && end < |c|
    ensures Prepend(s, Unescape(c, i, end)) == Unescaped(s)
  {
    assert s + [] == s;
  }

  function PrependElems(vs: seq<Json>, r: Parsed<seq<Json>>): Parsed<seq<Json>> {
    if r.Ok? then Ok(vs + r.value, r.offset) else r
  }

  function PrependMembers(ms: seq<Member>, r: Parsed<seq<Member>>): Parsed<seq<Member>> {
    if r.Ok? then Ok(ms + r.value, r.offset) else r
  }

  lemma PrependNothing(r: Parsed<seq<Json>>, q: Parsed<seq<Member>>)
    ensures PrependElems([], r) == r && PrependMembers([], q) == q
  {
    assert r.Ok? ==> [] + r.value == r.value;
    assert q.Ok? ==> [] + q.value == q.value;
  }

  lemma ElemsLoopStep(c: bytes, o: nat, depth: nat, vs: seq<Json>)
    requires o <= |c|
    ensures PrependElems(vs, JsonParser.ParseElems(c, o, depth)) ==
            match JsonParser.ParseValue(c, SkipBlanks(c, o), depth)
            case Err(p) => Err(p)
            case Ok(v, p) =>
              var q := SkipBlanks(c, p);
              if q < |c| && c[q] == COMMA then PrependElems(vs + [v], JsonParser.ParseElems(c, q + 1, depth))
              else if q < |c| && c[q] == RBRACKET then Ok(vs + [v], q + 1)
              else Err(q)
  {
    hide JsonParser.ParseValue, SkipBlanks;
    var r := JsonParser.ParseValue(c, SkipBlanks(c, o), depth);
    if r.Ok? {
      var q := SkipBlanks(c, r.offset);
      if q < |c| && c[q] == COMMA && JsonParser.ParseElems(c, q + 1, depth).Ok? {
        var rest := JsonParser.ParseElems(c, q + 1, depth).value;
        assert vs + ([r.value] + rest) == vs + [r.value] + rest;
      }
    }
  }

  lemma MembersLoopStep(c: bytes, o: nat, depth: nat, ms: seq<Member>)
    requires 0 < o <= |c|
    ensures o == |c| ==> PrependMembers(ms, JsonParser.ParseMembers(c, o, depth)) == Err(o - 1)
    ensures o < |c| ==>
              var whole := PrependMembers(ms, JsonParser.ParseMembers(c, o, depth));
              match JsonParser.ParseMember(c, o, depth)
              case Err(p) => whole == Err(p)
              case Ok(m, p) =>
                var q := SkipBlanks(c, p);
                if q < |c| && c[q] == COMMA then whole == PrependMembers(ms + [m], JsonParser.ParseMembers(c, q + 1, depth))
                else if q < |c| && c[q] == RBRACE then whole == Ok(ms + [m], q + 1)
                else whole == Err(q)
  {
    hide JsonParser.ParseMember, SkipBlanks;
    if o < |c| && JsonParser.ParseMember(c, o, depth).Ok? {
      var r := JsonParser.ParseMember(c, o, depth);
      var q := SkipBlanks(c, r.offset);
      if q < |c| && c[q] == COMMA && JsonParser.ParseMembers(c, q + 1, depth).Ok? {
        var rest := JsonParser.ParseMembers(c, q + 1, depth).value;
        assert ms + ([r.value] + rest) == ms + [r.value] + rest;
      }
    }
  }

  class ParseBuffer {
    const content: bytes
    var offset: nat
    var depth: nat

    constructor (content: bytes)
      ensures this.content == content && offset == 0 && depth == 0
    {
      this.content := content;
      offset, depth := 0, 0;
    }

    /** What a parse method reports agrees with `r`: outcome, value, read position, depth. */
    twostate predicate Yields<T>(r: Parsed<T>, ok: bool, v: T)
      reads this
    {
      && ok == r.Ok? && offset == r.offset
      && (ok ==> v == r.value && offset <= |content| && depth == old(depth))
    }

    method SkipWhitespace()
      requires offset <= |content|
      modifies this
      ensures offset == SkipBlanks(content, old(offset)) && depth == old(depth)
    {
      if offset >= |content| {
        return;
      }
      while offset < |content| && content[offset] <= 32
        invariant old(offset) <= offset <= |content| && depth == old(depth)
        invariant BlankEnd(content, offset) == BlankEnd(content, old(offset))
      {
        offset := offset + 1;
      }
      if offset == |content| {
        offset := offset - 1;
      }
    }

    method ParseNumber() returns (ok: bool, v: Json, valueInt: int)
      requires offset <= |content|
      modifies this
      ensures Yields(JsonParser.ParseNumber(content, old(offset)), ok, v)
      ensures ok ==> v.Number? && valueInt == ValueInt(v.d)
    {
      v, valueInt := Null, 0;
      var length := 0;
      while offset + length < |content| && IsNumberByte(content[offset + length])
        invariant offset + length <= |content|
        invariant NumberEnd(content, offset + length) == NumberEnd(content, offset)
      {
        length := length + 1;
      }
      var number := Strtod(content[offset..offset + length]);
      if number.consumed == 0 {
        return false, v, 0;
      }
      v := Number(number.value);
      valueInt := if number.value >= INT_MAX as real then INT_MAX
                  else if number.value <= INT_MIN as real then INT_MIN
                  else Truncated(number.value);
      offset := offset + number.consumed;
      return true, v, valueInt;
    }

    /** The first scan of parse_string, which also counts the backslashes that start a pair. */
    method FindClosingQuote(start: nat) returns (found: bool, end: nat, skipped: nat)
      requires start <= |content|
      ensures found == ScanEnd(content, start).Some?
      ensures found ==> ScanEnd(content, start) == Some(end) && ScanSteps(content, start, end) == end - start - skipped
    {
      end, skipped := start, 0;
      ghost var scan := ScanEnd(content, start);
      while end < |content| && content[end] != QUOTE
        invariant start <= end <= |content| && ScanEnd(content, end) == scan
        invariant scan.Some? ==> ScanSteps(content, start, scan.value) == end - start - skipped + ScanSteps(content, end, scan.value)
      {
        if content[end] == BACKSLASH {
          if end + 1 >= |content| {
            return false, end, skipped;
          }
          skipped := skipped + 1;
          end := end + 1;
        }
        end := end + 1;
      }
      found := end < |content|;
    }

    method ParseString() returns (ok: bool, s: bytes)
      requires offset < |content|
      modifies this
      ensures Yields(JsonParser.ParseString(content, old(offset)), ok, s)
      ensures ok ==> offset > old(offset)
    {
      hide ScanEnd, ReadPiece, Unescape, ScanSteps, CString;
      s := [];
      var start := offset + 1;
      if content[offset] != QUOTE {
        offset := start;
        return false, s;
      }
      var found, end, skipped := FindClosingQuote(start);
      if !found {
        offset := start;
        return false, s;
      }
      var allocationLength := end - offset - skipped;
      var output := new byte[allocationLength + 1];
      var at, o;
      ok, at, o := ConvertEscapes(content, start, end, output);
      if !ok {
        offset := at;
        return false, s;
      }
      output[o] := NUL;
      s := CString(output[..o]);
      offset := end + 1;
    }

    method ParseValue() returns (ok: bool, v: Json)
      requires offset <= |content|
      modifies this
      ensures Yields(JsonParser.ParseValue(content, old(offset), old(depth)), ok, v)
      decreases |content| - offset, 3
    {
      if At(content, offset, TEXT_NULL) {
        offset := offset + 4;
        return true, Null;
      }
      if At(content, offset, TEXT_FALSE) {
        offset := offset + 5;
        return true, Bool(false);
      }
      if At(content, offset, TEXT_TRUE) {
        offset := offset + 4;
        return true, Bool(true);
      }
      if offset < |content| && content[offset] == QUOTE {
        var s;
        ok, s := ParseString();
        return ok, String(s);
      }
      if offset < |content| && (content[offset] == MINUS || IsDigit(content[offset])) {
        var valueInt;
        ok, v, valueInt := ParseNumber();
        return;
      }
      if offset < |content| && content[offset] == LBRACKET {
        ok, v := ParseArray();
        return;
      }
      if offset < |content| && content[offset] == LBRACE {
        ok, v := ParseObject();
        return;
      }
      return false, Null;
    }

    method ParseArray() returns (ok: bool, v: Json)
      requires offset < |content| && content[offset] == LBRACKET
      modifies this
      ensures Yields(JsonParser.ParseArray(content, old(offset), old(depth)), ok, v)
      decreases |content| - offset, 2
    {
      hide JsonParser.ParseElems, SkipBlanks;
      if depth >= NESTING_LIMIT {
        return false, Null;
      }
      depth := depth + 1;
      offset := offset + 1;
      SkipWhitespace();
      if offset < |content| && content[offset] == RBRACKET {
        depth := depth - 1;
        offset := offset + 1;
        return true, Array([]);
      }
      if offset >= |content| {
        offset := offset - 1;
        return false, Null;
      }
      offset := offset - 1;
      var elems;
      ok, elems := ParseElems();
      return ok, Array(elems);
    }

    /** The loop of parse_array, from the byte in front of the first element. */
    method ParseElems() returns (ok: bool, elems: seq<Json>)
      requires offset < |content| && depth > 0
      modifies this
      ensures var r := JsonParser.ParseElems(content, old(offset) + 1, old(depth));
              && ok == r.Ok? && offset == r.offset
              && (ok ==> elems == r.value && offset <= |content| && depth == old(depth) - 1)
      decreases |content| - offset, 1
    {
      hide JsonParser.ParseElems, JsonParser.ParseValue, SkipBlanks;
      ghost var whole := JsonParser.ParseElems(content, offset + 1, depth);
      PrependNothing(whole, Err(0));
      var more := true;
      elems := [];
      while more
        invariant old(offset) <= offset <= |content| && depth == old(depth)
        invariant if more then
                    offset < |content| && whole == PrependElems(elems, JsonParser.ParseElems(content, offset + 1, depth))
                  else
                    whole == if offset < |content| && content[offset] == RBRACKET then Ok(elems, offset + 1) else Err(offset)
        decreases more, |content| - offset
      {
        ElemsLoopStep(content, offset + 1, depth, elems);
        offset := offset + 1;
        SkipWhitespace();
        var value;
        ok, value := ParseValue();
        if !ok {
          return;
        }
        SkipWhitespace();
        more := offset < |content| && content[offset] == COMMA;
        elems := elems + [value];
      }
      if offset >= |content| || content[offset] != RBRACKET {
        return false, elems;
      }
      depth := depth - 1;
      offset := offset + 1;
      return true, elems;
    }

    method ParseObject() returns (ok: bool, v: Json)
      requires offset < |content| && content[offset] == LBRACE
      modifies this
      ensures Yields(JsonParser.ParseObject(content, old(offset), old(depth)), ok, v)
      decreases |content| - offset, 2
    {
      hide JsonParser.ParseMembers, SkipBlanks;
      if depth >= NESTING_LIMIT {
        return false, Null;
      }
      depth := depth + 1;
      offset := offset + 1;
      SkipWhitespace();
      if offset < |content| && content[offset] == RBRACE {
        depth := depth - 1;
        offset := offset + 1;
        return true, Object([]);
      }
      if offset >= |content| {
        offset := offset - 1;
        return false, Null;
      }
      offset := offset - 1;
      var members;
      ok, members := ParseMembers();
      return ok, Object(members);
    }

    /** The loop of parse_object, from the byte in front of the first member. */
    method ParseMembers() returns (ok: bool, members: seq<Member>)
      requires offset < |content| && depth > 0
      modifies this
      ensures var r := JsonParser.ParseMembers(content, old(offset) + 1, old(depth));
              && ok == r.Ok? && offset == r.offset
              && (ok ==> members == r.value && offset <= |content| && depth == old(depth) - 1)
      decreases |content| - offset, 1
    {
      hide JsonParser.ParseMembers, JsonParser.ParseMember, SkipBlanks;
      ghost var whole := JsonParser.ParseMembers(content, offset + 1, depth);
      PrependNothing(Err(0), whole);
      var more := true;
      members := [];
      while more
        invariant old(offset) <= offset <= |content| && depth == old(depth)
        invariant if more then
                    offset < |content| && whole == PrependMembers(members, JsonParser.ParseMembers(content, offset + 1, depth))
                  else
                    whole == if offset < |content| && content[offset] == RBRACE then Ok(members, offset + 1) else Err(offset)
        decreases more, |content| - offset
      {
        MembersLoopStep(content, offset + 1, depth, members);
        if offset + 1 >= |content| {
          return false, members;
        }
        var member;
        ok, member := ParseMember();
        if !ok {
          return;
        }
        SkipWhitespace();
        more := offset < |content| && content[offset] == COMMA;
        members := members + [member];
      }
      if offset >= |content| || content[offset] != RBRACE {
        return false, members;
      }
      depth := depth - 1;
      offset := offset + 1;
      return true, members;
    }

    /** The part of the member loop from the comma or brace at the read position to the value's end. */
    method ParseMember() returns (ok: bool, m: Member)
      requires offset + 1 < |content|
      modifies this
      ensures Yields(JsonParser.ParseMember(content, old(offset) + 1, old(depth)), ok, m)
      decreases |content| - offset, 0
    {
      hide JsonParser.ParseString, JsonParser.ParseValue, SkipBlanks;
      m := Member([], Null);
      offset := offset + 1;
      SkipWhitespace();
      var key;
      ok, key := ParseString();
      if !ok {
        return false, m;
      }
      SkipWhitespace();
      if offset >= |content| || content[offset] != COLON {
        return false, m;
      }
      offset := offset + 1;
      SkipWhitespace();
      var value;
      ok, value := ParseValue();
      return ok, Member(key, value);
    }

    /** skip_utf8_bom */
    method SkipUtf8Bom()
      requires offset == 0
      modifies this`offset
      ensures offset == SkipBom(content)
    {
      if |content| > 4 && At(content, 0, BOM) {
        offset := offset + 3;
      }
    }
  }

  /** cJSON_ParseWithLengthOpts; `position` is where parsing ended, or the place of the error. */
  method ParseWithLengthOpts(value: bytes, requireNulTerminated: bool) returns (ok: bool, item: Json, position: nat)
    ensures var r := JsonParser.ParseWithLength(value, requireNulTerminated);
            && ok == r.Ok?
            && (ok ==> item == r.value && position == r.offset)
            && (!ok && value != [] ==> position == if r.offset < |value| then r.offset else |value| - 1)
  {
    if value == [] {
      return false, Null, 0;
    }
    var buffer := new ParseBuffer(value);
    buffer.SkipUtf8Bom();
    buffer.SkipWhitespace();
    ok, item := buffer.ParseValue();
    if ok && requireNulTerminated {
      buffer.SkipWhitespace();
      ok := buffer.offset < |value| && value[buffer.offset] == NUL;
    }
    if ok {
      return true, item, buffer.offset;
    }
    position := if buffer.offset < |value| then buffer.offset else |value| - 1;
    return false, Null, position;
  }

  lemma PrependTwice(a: bytes, b: bytes, u: Unescaped)
    ensures Prepend(a, Prepend(b, u)) == Prepend(a + b, u)
  {
    if u.Unescaped? {
      assert a + (b + u.out) == a + b + u.out;
    }
  }
}
