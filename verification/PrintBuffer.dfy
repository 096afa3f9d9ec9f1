/** The cJSON printer: a growing or preallocated output buffer, filled reservation by reservation. */
module PrintBuffer {
  import opened Bytes
  import opened Decimals
  import opened JsonText

  // ---- facts about the text ----

  lemma NulFreeConcat(a: bytes, b: bytes)
    requires NulFree(a) && NulFree(b)
    ensures NulFree(a + b)
  {}

  lemma NothingNulFree()
    ensures NulFree([])
  {}

  lemma NulFreeMember(m: Member, format: bool, depth: nat, last: bool)
    requires NulFree(Text(m.value, format, depth))
    ensures NulFree(MemberText(m, format, depth, last))
  {
    hide NulFree, Quoted, Text, Indent, KeySeparator, MemberEnd;
    var a, b, c := Indent(format, depth), Quoted(m.key), KeySeparator(format);
    var d, e := Text(m.value, format, depth), MemberEnd(format, last);
    NulFreeMarks(format, depth, last);
    NulFreeConcat(a, b);
    NulFreeConcat(a + b, c);
    NulFreeConcat(a + b + c, d);
    NulFreeConcat(a + b + c + d, e);
  }

  lemma NulFreeMarks(format: bool, depth: nat, last: bool)
    ensures NulFree(Indent(format, depth)) && NulFree(KeySeparator(format)) && NulFree(MemberEnd(format, last))
  {}

  lemma {:induction false} TextNulFree(v: Json, format: bool, depth: nat)
    requires Printable(v)
    ensures NulFree(Text(v, format, depth))
    decreases v, 0
  {
    hide NulFree, ElemsText, MembersText, ObjectOpen, ObjectClose, Quoted;
    match v
    case Array(es) =>
      ElemsTextNulFree(es, format, depth + 1);
      BracketsNulFree();
      NulFreeConcat([LBRACKET], ElemsText(es, format, depth + 1));
      NulFreeConcat([LBRACKET] + ElemsText(es, format, depth + 1), [RBRACKET]);
    case Object(ms) =>
      var body := MembersText(ms, format, depth + 1);
      MembersTextNulFree(ms, format, depth + 1);
      BracesNulFree(format, depth);
      NulFreeConcat(ObjectOpen(format), body);
      NulFreeConcat(ObjectOpen(format) + body, ObjectClose(format, depth));
    case Number(d) => DecimalNulFree(d.Floor);
    case _ => WordsNulFree();
  }

  lemma BracketsNulFree()
    ensures NulFree([LBRACKET]) && NulFree([RBRACKET])
  {}

  lemma BracesNulFree(format: bool, depth: nat)
    ensures NulFree(ObjectOpen(format)) && NulFree(ObjectClose(format, depth))
  {}

  lemma WordsNulFree()
    ensures NulFree(TEXT_NULL) && NulFree(TEXT_TRUE) && NulFree(TEXT_FALSE)
  {}

  lemma DecimalNulFree(n: int)
    ensures NulFree(Decimal(n))
  {
    hide Decimal;
  }

  lemma {:induction false} ElemsTextNulFree(es: seq<Json>, format: bool, depth: nat)
    requires forall e :: e in es ==> Printable(e)
    ensures NulFree(ElemsText(es, format, depth))
    decreases es, 0
  {
    if es == [] {
    } else {
      TextNulFree(es[0], format, depth);
      ElemsTextNulFree(es[1..], format, depth);
    }
  }

  lemma {:induction false} MembersTextNulFree(ms: seq<Member>, format: bool, depth: nat)
    requires forall m :: m in ms ==> NulFree(m.key) && Printable(m.value)
    ensures NulFree(MembersText(ms, format, depth))
    decreases ms, 0
  {
    hide NulFree, MemberText, Text, Printable;
    if ms == [] {
      assert NulFree([]) by { NothingNulFree(); }
    } else {
      assert ms[0] in ms;
      TextNulFree(ms[0].value, format, depth);
      NulFreeMember(ms[0], format, depth, |ms| == 1);
      MembersTextNulFree(ms[1..], format, depth);
      NulFreeConcat(MemberText(ms[0], format, depth, |ms| == 1), MembersText(ms[1..], format, depth));
    }
  }

  lemma {:induction false} EscapeConcat(a: bytes, b: bytes)
    ensures Escape(a + b) == Escape(a) + Escape(b)
    decreases a
  {
    if a == [] {
      assert a + b == b;
    } else {
      assert (a + b)[0] == a[0] && (a + b)[1..] == a[1..] + b;
      EscapeConcat(a[1..], b);
      assert EscapeByte(a[0]) + (Escape(a[1..]) + Escape(b)) == EscapeByte(a[0]) + Escape(a[1..]) + Escape(b);
    }
  }

  lemma EscapePrefix(s: bytes, i: nat)
    requires i < |s|
    ensures Escape(s[..i + 1]) == Escape(s[..i]) + EscapeByte(s[i])
  {
    assert s[..i + 1] == s[..i] + [s[i]];
    EscapeConcat(s[..i], [s[i]]);
    assert Escape([s[i]]) == EscapeByte(s[i]) + [];
  }

  lemma EscapePrefix0(s: bytes)
    ensures s[..0] == [] && Escape(s[..0]) == []
  {}

  lemma EscapeGrows(s: bytes, i: nat)
    requires i <= |s|
    ensures |Escape(s[..i])| <= |Escape(s)|
  {
    EscapeConcat(s[..i], s[i..]);
    assert s[..i] + s[i..] == s;
  }

  /** Nothing to escape: the text is the string itself. */
  lemma {:induction false} EscapeOfPlain(s: bytes)
    ensures |Escape(s)| >= |s|
    ensures |Escape(s)| == |s| ==> Escape(s) == s
  {
    if s == [] {
    } else {
      EscapeOfPlain(s[1..]);
      assert s == [s[0]] + s[1..];
    }
  }

  /** Every int fits print_number's local buffer. */
  lemma DecimalLength(n: int)
    requires IsInt32(n)
    ensures |Decimal(n)| <= 11
  {
    assert Pow10(5) == 100_000;
    assert Pow10(10) == 10_000_000_000;
    DigitsLength(if n < 0 then -n else n, 10);
  }

  lemma TextOfArray(es: seq<Json>, format: bool, depth: nat)
    ensures Text(Array(es), format, depth) == [LBRACKET] + (ElemsText(es, format, depth + 1) + [RBRACKET])
  {}

  lemma ElemsTextFrom(es: seq<Json>, i: nat, format: bool, depth: nat)
    requires i <= |es|
    ensures i == |es| ==> ElemsText(es[i..], format, depth) == []
    ensures i + 1 == |es| ==> ElemsText(es[i..], format, depth) == Text(es[i], format, depth)
    ensures i + 1 < |es| ==>
              var rest := Separator(format) + ElemsText(es[i + 1..], format, depth);
              ElemsText(es[i..], format, depth) == Text(es[i], format, depth) + rest
  {
    if i < |es| {
      assert es[i..][1..] == es[i + 1..];
    }
  }

  /** The first loop of print_string_ptr: how many characters escaping adds. */
  method CountEscapes(s: bytes) returns (escapeCharacters: nat)
    ensures |Escape(s)| == |s| + escapeCharacters
  {
    escapeCharacters := 0;
    for i := 0 to |s|
      invariant |Escape(s[..i])| == i + escapeCharacters
    {
      EscapePrefix(s, i);
      if IsShortEscape(s[i]) {
        escapeCharacters := escapeCharacters + 1;
      } else if s[i] < 32 {
        escapeCharacters := escapeCharacters + 5;
      }
    }
    assert s[..|s|] == s;
  }

  lemma Regroup(a: bytes, b: bytes, c: bytes, d: bytes)
    ensures a + b + c + d == a + (b + (c + d))
  {}

  lemma TextOfObject(ms: seq<Member>, format: bool, depth: nat)
    ensures Text(Object(ms), format, depth)
         == ObjectOpen(format) + (MembersText(ms, format, depth + 1) + ObjectClose(format, depth))
  {}

  lemma MembersTextFrom(ms: seq<Member>, i: nat, format: bool, depth: nat)
    requires i <= |ms|
    ensures i == |ms| ==> MembersText(ms[i..], format, depth) == []
    ensures i < |ms| ==>
              var rest := MembersText(ms[i + 1..], format, depth);
              MembersText(ms[i..], format, depth) == MemberText(ms[i], format, depth, i + 1 == |ms|) + rest
  {
    if i < |ms| {
      assert ms[i..][1..] == ms[i + 1..];
    }
  }

  lemma RegroupMember(a: bytes, b: bytes, c: bytes, d: bytes, e: bytes, f: bytes)
    ensures a + b + c + d + e + f == a + (b + c + d + e + f)
  {}

  function ElemText(e: Json, format: bool, depth: nat, last: bool): bytes {
    Text(e, format, depth) + (if last then [] else Separator(format))
  }

  // ---- the buffer ----

  class PrintBuffer {
    var buffer: array<byte>
    var length: nat
    var offset: nat
    var depth: nat
    const noalloc: bool
    const format: bool

    constructor (buffer: array<byte>, length: nat, noalloc: bool, format: bool)
      requires length <= buffer.Length && length <= INT_MAX
      ensures this.buffer == buffer && this.length == length && offset == 0 && depth == 0
      ensures this.noalloc == noalloc && this.format == format && Valid()
    {
      this.buffer, this.length, this.noalloc, this.format := buffer, length, noalloc, format;
      offset, depth := 0, 0;
    }

    ghost predicate Valid()
      reads this
    {
      length <= buffer.Length && length <= INT_MAX && (offset < length || offset == length == 0)
    }

    /** How far the buffer can ever reach: its length, or INT_MAX when it can be reallocated. */
    ghost function Cap(): nat
      reads this
    {
      if noalloc then length else INT_MAX
    }

    /** The text written so far. */
    ghost function Out(): bytes
      requires Valid()
      reads this, buffer
    {
      buffer[..offset]
    }

    /** What every operation keeps: a preallocated buffer stays in place, with the rest untouched. */
    twostate predicate Kept()
      reads this, buffer
    {
      && Valid() && Cap() == old(Cap())
      && (buffer == old(buffer) || fresh(buffer))
      && (noalloc ==> buffer == old(buffer) && length == old(length))
      && (buffer == old(buffer) ==>
            && length == old(length)
            && buffer[length..] == old(buffer[length..]))
    }

    /** The bytes `t` and a NUL follow the text that was there; the offset is somewhere before the NUL. */
    twostate predicate Appended(t: bytes)
      requires old(Valid()) && Valid()
      reads this, buffer
    {
      var end := old(offset) + |t|;
      && old(offset) <= offset <= end < length
      && buffer[..end] == old(Out()) + t && buffer[end] == NUL
      && depth == old(depth)
    }

    /** ensure: room for `needed` bytes and one more at the offset. */
    method Ensure(needed: nat) returns (ok: bool)
      requires Valid()
      modifies this
      ensures Kept() && offset == old(offset) && depth == old(depth)
      ensures Out() == old(Out())
      ensures ok <==> offset + needed + 1 <= Cap()
      ensures ok ==> offset + needed + 1 <= length
    {
      if length > 0 && offset >= length {
        return false;
      }
      if needed > INT_MAX {
        return false;
      }
      var total := needed + offset + 1;
      if total <= length {
        return true;
      }
      if noalloc {
        return false;
      }
      var newSize;
      if total > INT_MAX / 2 {
        if total <= INT_MAX {
          newSize := INT_MAX;
        } else {
          return false;
        }
      } else {
        newSize := total * 2;
      }
      var newBuffer := new byte[newSize];
      forall i | 0 <= i < length {
        newBuffer[i] := buffer[i];
      }
      length := newSize;
      buffer := newBuffer;
      return true;
    }

    /** update_offset: moves the offset to the terminating NUL. */
    method UpdateOffset(ghost end: nat)
      requires Valid() && offset <= end < length && buffer[end] == NUL
      requires forall k :: offset <= k < end ==> buffer[k] != NUL
      modifies this`offset
      ensures offset == end && Valid()
    {
      var n := 0;
      while buffer[offset + n] != NUL
        invariant offset + n <= end
        decreases end - n
      {
        n := n + 1;
      }
      offset := offset + n;
    }

    /** Writes `t` at `offset + at`, inside a reservation. */
    method Write(at: nat, t: bytes)
      requires Valid() && offset + at + |t| <= length
      modifies buffer
      ensures Valid() && buffer[..offset + at + |t|] == old(buffer[..offset + at]) + t
      ensures buffer[length..] == old(buffer[length..])
    {
      for i := 0 to |t|
        invariant forall k :: 0 <= k < buffer.Length && !(offset + at <= k < offset + at + i) ==> buffer[k] == old(buffer[k])
        invariant forall k :: 0 <= k < i ==> buffer[offset + at + k] == t[k]
      {
        buffer[offset + at + i] := t[i];
      }
      assert buffer[..offset + at + |t|] == old(buffer[..offset + at]) + t by {
        forall k | 0 <= k < offset + at + |t|
          ensures buffer[k] == (old(buffer[..offset + at]) + t)[k]
        {
          if k >= offset + at {
            assert buffer[offset + at + (k - (offset + at))] == t[k - (offset + at)];
          }
        }
      }
    }

    /** strcpy of a literal behind a reservation for it and its NUL. */
    method PrintLiteral(t: bytes) returns (ok: bool)
      requires Valid()
      modifies this, buffer
      ensures Kept()
      ensures ok <==> old(offset) + |t| + 2 <= old(Cap())
      ensures offset == old(offset) && (ok ==> Appended(t))
    {
      ok := Ensure(|t| + 1);
      if ok {
        Write(0, t + [NUL]);
        CutNul(t);
      }
    }

    /** Behind a text and its NUL, the text alone. */
    twostate lemma CutNul(t: bytes)
      requires old(Valid()) && Valid() && offset == old(offset) && old(offset) + |t| < length
      requires buffer[..offset + |t| + 1] == old(buffer[..offset]) + (t + [NUL])
      ensures buffer[..offset + |t|] == old(Out()) + t && buffer[offset + |t|] == NUL
    {
      var all := old(buffer[..offset]) + (t + [NUL]);
      assert buffer[..offset + |t| + 1][..offset + |t|] == all[..offset + |t|];
      assert buffer[..offset + |t| + 1][offset + |t|] == all[offset + |t|];
    }

    /** print_number, for a number that is an int. */
    method PrintNumber(d: real) returns (ok: bool)
      requires Valid() && IsIntValued(d)
      modifies this, buffer
      ensures Kept()
      ensures ok <==> old(offset) + |Decimal(d.Floor)| + 2 <= old(Cap())
      ensures ok ==> Appended(Decimal(d.Floor))
    {
      ValueIntExact(d);
      var number := Decimal(ValueInt(d));
      DecimalLength(d.Floor);
      if |number| > 25 {
        return false;
      }
      ok := Ensure(|number| + 1);
      if ok {
        Write(0, number + [NUL]);
        CutNul(number);
        offset := offset + |number|;
      }
    }

    /** One turn of the escaping loop, writing at `offset + o`. */
    method WriteEscaped(o: nat, b: byte) returns (next: nat)
      requires Valid() && offset + o + |EscapeByte(b)| <= length
      modifies buffer
      ensures Valid() && next == o + |EscapeByte(b)|
      ensures buffer[..offset + next] == old(buffer[..offset + o]) + EscapeByte(b)
      ensures buffer[length..] == old(buffer[length..])
    {
      if b > 31 && b != QUOTE && b != BACKSLASH {
        Write(o, [b]);
        return o + 1;
      }
      if b == BACKSLASH {
        Write(o, [BACKSLASH, BACKSLASH]);
      } else if b == QUOTE {
        Write(o, [BACKSLASH, QUOTE]);
      } else if b == 0x08 {
        Write(o, [BACKSLASH, 0x62]);
      } else if b == 0x0c {
        Write(o, [BACKSLASH, 0x66]);
      } else if b == NEWLINE {
        Write(o, [BACKSLASH, 0x6e]);
      } else if b == 0x0d {
        Write(o, [BACKSLASH, 0x72]);
      } else if b == TAB {
        Write(o, [BACKSLASH, 0x74]);
      } else {
        Write(o, [BACKSLASH, LOWER_U, ZERO, ZERO, HexDigit(b / 16), HexDigit(b % 16)]);
        return o + 6;
      }
      return o + 2;
    }

    /** The escaping loop, from `offset + start`. */
    method WriteAllEscaped(start: nat, s: bytes) returns (o: nat)
      requires Valid() && offset + start + |Escape(s)| <= length
      modifies buffer
      ensures Valid() && o == start + |Escape(s)|
      ensures buffer[..offset + o] == old(buffer[..offset + start]) + Escape(s)
      ensures buffer[length..] == old(buffer[length..])
    {
      hide Escape, EscapeByte;
      o := start;
      EscapePrefix0(s);
      for i := 0 to |s|
        invariant o == start + |Escape(s[..i])| <= start + |Escape(s)|
        invariant buffer[..offset + o] == old(buffer[..offset + start]) + Escape(s[..i])
        invariant buffer[length..] == old(buffer[length..])
      {
        EscapePrefix(s, i);
        EscapeGrows(s, i + 1);
        o := WriteEscaped(o, s[i]);
      }
      assert s[..|s|] == s;
    }

    /** The quoted string and its NUL, inside a reservation. */
    method WriteQuoted(s: bytes, escapeCharacters: nat)
      requires Valid() && |Escape(s)| == |s| + escapeCharacters && offset + |Escape(s)| + 3 <= length
      modifies buffer
      ensures Valid() && buffer[..offset + |Quoted(s)| + 1] == old(buffer[..offset]) + (Quoted(s) + [NUL])
      ensures buffer[length..] == old(buffer[length..])
    {
      hide Escape;
      if escapeCharacters == 0 {
        EscapeOfPlain(s);
        Write(0, [QUOTE] + s + [QUOTE, NUL]);
        assert [QUOTE] + s + [QUOTE, NUL] == Quoted(s) + [NUL];
      } else {
        Write(0, [QUOTE]);
        var o := WriteAllEscaped(1, s);
        Write(o, [QUOTE, NUL]);
        var text := old(buffer[..offset]);
        assert text + [QUOTE] + Escape(s) + [QUOTE, NUL] == text + (Quoted(s) + [NUL]);
      }
    }

    /** print_string_ptr */
    method PrintStringPtr(s: bytes) returns (ok: bool)
      requires Valid() && NulFree(s)
      modifies this, buffer
      ensures Kept() && offset == old(offset)
      ensures ok <==> old(offset) + |Quoted(s)| + 2 <= old(Cap())
      ensures ok ==> Appended(Quoted(s))
      ensures depth == old(depth)
    {
      hide Escape;
      var escapeCharacters := CountEscapes(s);
      ok := Ensure(|s| + escapeCharacters + 3);
      if ok {
        WriteQuoted(s, escapeCharacters);
        CutNul(Quoted(s));
      }
    }

    /** print_value */
    method PrintValue(v: Json) returns (ok: bool)
      requires Valid() && Printable(v)
      modifies this, buffer
      ensures Kept()
      ensures ok <==> old(offset) + |Text(v, format, old(depth))| + 2 <= old(Cap())
      ensures ok ==> Appended(Text(v, format, old(depth)))
      decreases v, 1
    {
      match v
      case Null => ok := PrintLiteral(TEXT_NULL);
      case Bool(b) =>
        if b {
          ok := PrintLiteral(TEXT_TRUE);
        } else {
          ok := PrintLiteral(TEXT_FALSE);
        }
      case Number(d) => ok := PrintNumber(d);
      case Raw(t) => ok := PrintLiteral(t);
      case String(s) => ok := PrintStringPtr(s);
      case Array(es) => ok := PrintArray(es);
      case Object(ms) => ok := PrintObject(ms);
    }

    /** Printing a child and moving the offset behind its text, as every caller of print_value does. */
    method PrintChild(v: Json) returns (ok: bool)
      requires Valid() && Printable(v)
      modifies this, buffer
      ensures Kept()
      ensures ok <==> old(offset) + |Text(v, format, old(depth))| + 2 <= old(Cap())
      ensures ok ==> depth == old(depth) && Out() == old(Out()) + Text(v, format, old(depth))
      ensures ok ==> offset < length && buffer[offset] == NUL
      decreases v, 2
    {
      hide Text;
      ghost var t := Text(v, format, depth);
      ghost var before := Out();
      TextNulFree(v, format, depth);
      ok := PrintValue(v);
      if ok {
        ghost var end := |before| + |t|;
        forall k | offset <= k < end ensures buffer[k] != NUL {
          assert buffer[k] == buffer[..end][k] == (before + t)[k] == t[k - |before|];
        }
        UpdateOffset(end);
      }
    }

    /** print_array */
    method PrintArray(es: seq<Json>) returns (ok: bool)
      requires Valid() && Printable(Array(es))
      modifies this, buffer
      ensures Kept()
      ensures ok <==> old(offset) + |Text(Array(es), format, old(depth))| + 2 <= old(Cap())
      ensures ok ==> Appended(Text(Array(es), format, old(depth)))
      decreases es, 3
    {
      hide Text, ElemsText, Printable;
      TextOfArray(es, format, depth);
      ghost var start, body := Out(), ElemsText(es, format, depth + 1);
      ok := Put([LBRACKET], 1);
      if ok {
        ok := PrintDeeper(es);
        if ok {
          Regroup(start, [LBRACKET], body, [RBRACKET]);
          ok := PrintClosing([RBRACKET], start + [LBRACKET] + body);
        }
      }
    }

    /** One level deeper, the elements. */
    method PrintDeeper(es: seq<Json>) returns (ok: bool)
      requires Valid() && Printable(Array(es))
      modifies this, buffer
      ensures Kept()
      ensures ok ==> depth == old(depth) + 1 && Out() == old(Out()) + ElemsText(es, format, old(depth) + 1)
      ensures !ok ==> old(offset) + |ElemsText(es, format, old(depth) + 1)| + 2 > old(Cap())
      decreases es, 2
    {
      hide ElemsText, Printable;
      depth := depth + 1;
      ok := PrintElems(es);
    }

    /** The closing bracket or brace, behind the text `before`; the offset stays in front of it. */
    method PrintClosing(closing: bytes, ghost before: bytes) returns (ok: bool)
      requires Valid() && depth > 0 && Out() == before
      modifies this, buffer
      ensures Kept() && old(offset) <= offset
      ensures ok <==> |before| + |closing| + 2 <= old(Cap())
      ensures ok ==> depth == old(depth) - 1 && offset <= |before| + |closing| < length
      ensures ok ==> buffer[..|before| + |closing|] == before + closing && buffer[|before| + |closing|] == NUL
    {
      ok := PrintLiteral(closing);
      if ok {
        depth := depth - 1;
      }
    }

    /** The loop of print_array. */
    method PrintElems(es: seq<Json>) returns (ok: bool)
      requires Valid() && Printable(Array(es))
      modifies this, buffer
      ensures Kept()
      ensures ok ==> depth == old(depth) && Out() == old(Out()) + ElemsText(es, format, old(depth))
      ensures !ok ==> old(offset) + |ElemsText(es, format, old(depth))| + 2 > old(Cap())
      decreases es, 1
    {
      hide Text, ElemsText;
      ghost var all := Out() + ElemsText(es, format, depth);
      var i := 0;
      assert es[0..] == es;
      while i < |es|
        invariant 0 <= i <= |es| && Kept() && depth == old(depth)
        invariant Out() + ElemsText(es[i..], format, depth) == all
      {
        ElemsTextFrom(es, i, format, depth);
        ghost var rest := ElemsText(es[i + 1..], format, depth);
        assert Out() + ElemsText(es[i..], format, depth) == Out() + ElemText(es[i], format, depth, i + 1 == |es|) + rest by {
          ElemsTextFrom(es, i + 1, format, depth);
        }
        ok := PrintElem(es[i], i + 1 == |es|);
        if !ok {
          return;
        }
        i := i + 1;
      }
      ElemsTextFrom(es, |es|, format, depth);
      return true;
    }

    /** One turn of that loop: an element, and the separator unless it is the last. */
    method PrintElem(e: Json, last: bool) returns (ok: bool)
      requires Valid() && Printable(e)
      modifies this, buffer
      ensures Kept()
      ensures ok <==> old(offset) + |ElemText(e, format, old(depth), last)| + 2 <= old(Cap())
      ensures ok ==> depth == old(depth) && Out() == old(Out()) + ElemText(e, format, old(depth), last)
      decreases e, 3
    {
      hide Text;
      ghost var before, t := Out(), Text(e, format, depth);
      ok := PrintChild(e);
      if !ok || last {
        return;
      }
      ok := PutTerminated(Separator(format));
    }

    /** print_object */
    method PrintObject(ms: seq<Member>) returns (ok: bool)
      requires Valid() && Printable(Object(ms))
      modifies this, buffer
      ensures Kept()
      ensures ok <==> old(offset) + |Text(Object(ms), format, old(depth))| + 2 <= old(Cap())
      ensures ok ==> Appended(Text(Object(ms), format, old(depth)))
      decreases ms, 3
    {
      hide Text, MembersText, Printable, ObjectOpen, ObjectClose, NulFree;
      TextOfObject(ms, format, depth);
      ghost var start, body := Out(), MembersText(ms, format, depth + 1);
      var opening := ObjectOpen(format);
      ok := Put(opening, |opening| + 1);
      if ok {
        ok := PrintInside(ms);
        if ok {
          var closing := ObjectClose(format, depth - 1);
          Regroup(start, opening, body, closing);
          ok := PrintClosing(closing, start + opening + body);
        }
      }
    }

    /** One level deeper, the members. */
    method PrintInside(ms: seq<Member>) returns (ok: bool)
      requires Valid() && Printable(Object(ms))
      modifies this, buffer
      ensures Kept()
      ensures ok ==> depth == old(depth) + 1 && Out() == old(Out()) + MembersText(ms, format, old(depth) + 1)
      ensures !ok ==> old(offset) + |MembersText(ms, format, old(depth) + 1)| + 2 > old(Cap())
      decreases ms, 2
    {
      hide MembersText, Printable;
      depth := depth + 1;
      ok := PrintMembers(ms);
    }

    /** The loop of print_object. */
    method PrintMembers(ms: seq<Member>) returns (ok: bool)
      requires Valid() && Printable(Object(ms))
      modifies this, buffer
      ensures Kept()
      ensures ok ==> depth == old(depth) && Out() == old(Out()) + MembersText(ms, format, old(depth))
      ensures !ok ==> old(offset) + |MembersText(ms, format, old(depth))| + 2 > old(Cap())
      decreases ms, 1
    {
      hide MemberText, MembersText;
      ghost var all := Out() + MembersText(ms, format, depth);
      var i := 0;
      assert ms[0..] == ms;
      while i < |ms|
        invariant 0 <= i <= |ms| && Kept() && depth == old(depth)
        invariant Out() + MembersText(ms[i..], format, depth) == all
      {
        MembersTextFrom(ms, i, format, depth);
        ghost var m, rest := MemberText(ms[i], format, depth, i + 1 == |ms|), MembersText(ms[i + 1..], format, depth);
        assert Out() + (m + rest) == Out() + m + rest;
        ok := PrintMember(ms[i], i + 1 == |ms|);
        if !ok {
          return;
        }
        i := i + 1;
      }
      MembersTextFrom(ms, |ms|, format, depth);
      return true;
    }

    /** One turn of that loop. */
    method PrintMember(m: Member, last: bool) returns (ok: bool)
      requires Valid() && NulFree(m.key) && Printable(m.value)
      modifies this, buffer
      ensures Kept()
      ensures ok <==> old(offset) + |MemberText(m, format, old(depth), last)| + 2 <= old(Cap())
      ensures ok ==> depth == old(depth) && Out() == old(Out()) + MemberText(m, format, old(depth), last)
      decreases m, 3
    {
      hide Text, Quoted, Printable, Indent, KeySeparator, MemberEnd;
      ghost var start := Out();
      ghost var indent, key, value := Indent(format, depth), Quoted(m.key), Text(m.value, format, depth);
      ok := PrintLead(m.key);
      if !ok {
        return;
      }
      ok := PrintChild(m.value);
      if !ok {
        return;
      }
      ok := PutTerminated(MemberEnd(format, last));
      if ok {
        RegroupMember(start, indent, key, KeySeparator(format), value, MemberEnd(format, last));
      }
    }

    /** The tabs, the key and the colon. */
    method PrintLead(key: bytes) returns (ok: bool)
      requires Valid() && NulFree(key)
      modifies this, buffer
      ensures Kept() && depth == old(depth)
      ensures ok <==> old(offset) + |Indent(format, depth)| + |Quoted(key)| + |KeySeparator(format)| + 1 <= old(Cap())
      ensures ok ==> Out() == old(Out()) + Indent(format, depth) + Quoted(key) + KeySeparator(format)
    {
      hide Quoted, Tabs;
      ghost var start := Out();
      assert Out() == start + [];
      if format {
        ok := Put(Tabs(depth), depth);
        if !ok {
          return;
        }
      }
      assert Out() == start + Indent(format, depth);
      ok := PrintKey(key);
      if !ok {
        return;
      }
      ok := Put(KeySeparator(format), if format then 2 else 1);
    }

    /** Printing a key and moving the offset behind it. */
    method PrintKey(s: bytes) returns (ok: bool)
      requires Valid() && NulFree(s)
      modifies this, buffer
      ensures Kept() && depth == old(depth)
      ensures ok <==> old(offset) + |Quoted(s)| + 2 <= old(Cap())
      ensures ok ==> Out() == old(Out()) + Quoted(s)
    {
      ghost var t, before := Quoted(s), Out();
      hide Quoted;
      ok := PrintStringPtr(s);
      if ok {
        ghost var end := |before| + |t|;
        forall k | offset <= k < end ensures buffer[k] != NUL {
          assert buffer[k] == buffer[..end][k] == (before + t)[k] == t[k - |before|];
        }
        UpdateOffset(end);
      }
    }

    /** Reserves `needed` bytes, writes `t`, and moves behind it. */
    method Put(t: bytes, needed: nat) returns (ok: bool)
      requires Valid() && |t| <= needed
      modifies this, buffer
      ensures Kept() && depth == old(depth)
      ensures ok <==> old(offset) + needed + 1 <= old(Cap())
      ensures ok ==> Out() == old(Out()) + t
    {
      ok := Ensure(needed);
      if ok {
        Write(0, t);
        offset := offset + |t|;
      }
    }

    /** The same for a text with its NUL; the offset ends on the NUL. */
    method PutTerminated(t: bytes) returns (ok: bool)
      requires Valid()
      modifies this, buffer
      ensures Kept() && depth == old(depth)
      ensures ok <==> old(offset) + |t| + 2 <= old(Cap())
      ensures ok ==> Out() == old(Out()) + t
    {
      ok := Ensure(|t| + 1);
      if ok {
        Write(0, t + [NUL]);
        CutNul(t);
        offset := offset + |t|;
      }
    }
  }

  function Min(a: nat, b: nat): nat {
    if a < b then a else b
  }

  /**
    print: into a fresh buffer of 256 bytes, which is then cut to the text and its NUL, or copied where
    nothing can be reallocated; fails only beyond INT_MAX.
   */
  method Print(item: Json, format: bool, canReallocate: bool) returns (ok: bool, printed: array<byte>)
    requires Printable(item)
    ensures ok <==> |Text(item, format, 0)| + 2 <= INT_MAX
    ensures ok ==> printed[..] == Text(item, format, 0) + [NUL]
  {
    hide Text;
    var data := new byte[256];
    var p := new PrintBuffer(data, 256, false, format);
    ok := p.PrintChild(item);
    if !ok {
      printed := new byte[0];
    } else {
      ghost var text := p.buffer[..p.offset];
      var size := p.offset + 1;
      var from := p.buffer;
      if canReallocate {
        printed := new byte[size](i requires 0 <= i < size <= from.Length reads from => from[i]);
      } else {
        printed := new byte[size];
        for i := 0 to Min(p.length, size)
          invariant forall j :: 0 <= j < i ==> printed[j] == from[j]
          modifies printed
        {
          printed[i] := from[i];
        }
        printed[p.offset] := NUL;
      }
      assert printed[..] == text + [NUL];
    }
  }

  /** cJSON_PrintBuffered: the same from a buffer of the caller's size, left as a C string. */
  method PrintBuffered(item: Json, prebuffer: int, format: bool) returns (ok: bool, printed: array<byte>)
    requires Printable(item) && prebuffer <= INT_MAX
    ensures ok <==> prebuffer >= 0 && |Text(item, format, 0)| + 2 <= INT_MAX
    ensures ok ==> printed[..] != [] && CString(printed[..]) == Text(item, format, 0)
  {
    hide Text;
    printed := new byte[0];
    if prebuffer < 0 {
      return false, printed;
    }
    var data := new byte[prebuffer];
    var p := new PrintBuffer(data, prebuffer, false, format);
    ok := p.PrintValue(item);
    printed := p.buffer;
    if ok {
      TextNulFree(item, format, 0);
      CStringOf(printed[..], Text(item, format, 0));
    }
  }

  /**
    cJSON_PrintPreallocated: true exactly when the length is at least the text's plus two; then the
    buffer holds the text and its NUL. In any case nothing is written beyond the length.
   */
  method PrintPreallocated(item: Json, buffer: array<byte>, length: int, format: bool) returns (ok: bool)
    requires Printable(item) && length <= buffer.Length && length <= INT_MAX
    modifies buffer
    ensures ok <==> length >= |Text(item, format, 0)| + 2
    ensures ok ==> CString(buffer[..length]) == Text(item, format, 0)
    ensures if length < 0 then buffer[..] == old(buffer[..]) else buffer[length..] == old(buffer[length..])
  {
    hide Text;
    if length < 0 {
      return false;
    }
    var p := new PrintBuffer(buffer, length, true, format);
    ok := p.PrintValue(item);
    if ok {
      TextNulFree(item, format, 0);
      ghost var t := Text(item, format, 0);
      assert buffer[..length][..|t|] == buffer[..|t|] == t;
      CStringOf(buffer[..length], t);
    }
  }

  lemma {:induction false} CStringOf(s: bytes, t: bytes)
    requires |t| < |s| && s[..|t|] == t && NulFree(t) && s[|t|] == NUL
    ensures CString(s) == t
    decreases t
  {
    if t == [] {
    } else {
      assert s[0] == t[0];
      assert s[1..][..|t| - 1] == s[..|t|][1..];
      CStringOf(s[1..], t[1..]);
    }
  }
}
