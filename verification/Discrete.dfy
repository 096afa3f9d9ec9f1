/**
  Discrete packets of libpack: written by sprintf, read back with strtoul, and sent through the
  framing in any number of pieces.
 */
module Discrete {
  import opened Bytes
  import opened Decimals
  import opened Framing

  const SEMICOLON: byte := 0x3b

  /** struct discrete_struct: a struct timeval, an unsigned char and an unsigned int. */
  datatype Record = Record(sec: int, usec: int, channel: nat, value: nat)

  predicate InRange(d: Record) {
    d.channel < 0x100 && d.value < 0x1_0000_0000
  }

  /** What %u prints of a 64-bit argument: its low 32 bits. */
  function Low32(n: int): (r: nat)
    ensures r < 0x1_0000_0000
  {
    n % 0x1_0000_0000
  }

  function Zeros(n: nat): bytes {
    if n == 0 then [] else Zeros(n - 1) + [ZERO]
  }

  /** sprintf "%06u" */
  function Padded(n: nat): bytes {
    var d := Digits(n);
    if |d| < 6 then Zeros(6 - |d|) + d else d
  }

  /** sprintf "DI;%u.%06u;%u;%u" */
  function Text(d: Record): bytes {
    [0x44, 0x49, SEMICOLON] + Digits(Low32(d.sec)) + [DOT] + Padded(Low32(d.usec)) + [SEMICOLON]
    + Digits(d.channel) + [SEMICOLON] + Digits(d.value)
  }

  /** pack_discrete */
  function Pack(d: Record): bytes {
    Frame(Text(d))
  }

  // ---- reading numbers ----

  predicate IsSpace(b: byte) {
    b == 0x20 || 0x09 <= b <= 0x0d
  }

  function SpaceRun(s: bytes): (n: nat)
    ensures n <= |s|
  {
    if s == [] || !IsSpace(s[0]) then 0 else 1 + SpaceRun(s[1..])
  }

  function DigitRun(s: bytes): (n: nat)
    ensures n <= |s|
  {
    if s == [] || !IsDigit(s[0]) then 0 else 1 + DigitRun(s[1..])
  }

  const ULONG_MAX: nat := 0xffff_ffff_ffff_ffff

  /** strtoul, base ten: the value, and how far it read. */
  function Strtoul(s: bytes): (r: (nat, nat))
    ensures r.1 <= |s| && r.0 <= ULONG_MAX
  {
    var b := SpaceRun(s);
    var sign := if b < |s| && (s[b] == MINUS || s[b] == PLUS) then 1 else 0;
    var n := DigitRun(s[b + sign..]);
    var v := DigitsValue(s[b + sign..b + sign + n]);
    if n == 0 then (0, 0)
    else if v > ULONG_MAX then (ULONG_MAX, b + sign + n)
    else if sign == 1 && s[b] == MINUS && v > 0 then (ULONG_MAX + 1 - v, b + sign + n)
    else (v, b + sign + n)
  }

  /** An unsigned long stored in a long. */
  function Signed(n: nat): int {
    if n > 0x7fff_ffff_ffff_ffff then n - (ULONG_MAX + 1) else n
  }

  /** strstr for one character. */
  function Find(s: bytes, c: byte): (r: Option<nat>)
    ensures r.Some? ==> r.value < |s|
  {
    if s == [] then None
    else if s[0] == c then Some(0)
    else
      match Find(s[1..], c)
      case None => None
      case Some(i) => Some(i + 1)
  }

  /** A number and the character after it: the value and what follows; nothing at the end of the data. */
  function Field(s: bytes): Option<(nat, bytes)> {
    var r := Strtoul(s);
    if r.1 < |s| then Some((r.0, s[r.1 + 1..])) else None
  }

  /** The four numbers behind the first semicolon. */
  function UnpackFields(s: bytes): Option<Record> {
    match Field(s)
    case None => None
    case Some(sec) =>
      match Field(sec.1)
      case None => None
      case Some(usec) =>
        match Field(usec.1)
        case None => None
        case Some(channel) =>
          Some(Record(Signed(sec.0), Signed(usec.0), channel.0 % 0x100, Strtoul(channel.1).0 % 0x1_0000_0000))
  }

  /** unpack_discrete; nothing when it would run past the data. */
  function Unpack(s: bytes): Option<Record> {
    match Find(s, SEMICOLON)
    case None => None
    case Some(i) => UnpackFields(s[i + 1..])
  }

  // ---- round trip ----

  predicate AllDigits(s: bytes) {
    forall i :: 0 <= i < |s| ==> IsDigit(s[i])
  }

  lemma {:induction false} DigitRunOf(s: bytes, t: bytes)
    requires AllDigits(s) && t != [] && !IsDigit(t[0])
    ensures DigitRun(s + t) == |s|
    decreases |s|
  {
    if s == [] {
      assert s + t == t;
    } else {
      assert (s + t)[1..] == s[1..] + t;
      DigitRunOf(s[1..], t);
    }
  }

  lemma {:induction false} ValueOfZeros(k: nat, s: bytes)
    requires AllDigits(s)
    ensures DigitsValue(Zeros(k) + s) == DigitsValue(s) && AllDigits(Zeros(k) + s)
    decreases k, |s|
  {
    var z := Zeros(k) + s;
    if s == [] {
      assert z == Zeros(k);
      if k > 0 {
        ValueOfZeros(k - 1, []);
        assert Zeros(k - 1) + [] == Zeros(k - 1) && z[..|z| - 1] == Zeros(k - 1);
      }
    } else {
      assert z[..|z| - 1] == Zeros(k) + s[..|s| - 1];
      ValueOfZeros(k, s[..|s| - 1]);
      assert AllDigits(Zeros(k)) by {
        ValueOfZeros(k, []);
        assert Zeros(k) + [] == Zeros(k);
      }
    }
  }

  lemma ValueOfPadded(n: nat)
    ensures DigitsValue(Padded(n)) == n && AllDigits(Padded(n)) && |Padded(n)| >= 1
  {
    ValueOfDigits(n);
    if |Digits(n)| < 6 {
      ValueOfZeros(6 - |Digits(n)|, Digits(n));
    }
  }

  lemma StrtoulReads(s: bytes, t: bytes)
    requires AllDigits(s) && s != [] && t != [] && !IsDigit(t[0]) && DigitsValue(s) <= ULONG_MAX
    ensures Strtoul(s + t) == (DigitsValue(s), |s|)
  {
    assert (s + t)[0] == s[0] && (s + t)[0..] == s + t;
    assert SpaceRun(s + t) == 0;
    DigitRunOf(s, t);
    assert (s + t)[0..|s|] == s;
  }

  /** Unpacking reads the low 32 bits of the time, and all of the rest. */
  lemma UnpackReads(d: Record)
    requires InRange(d)
    ensures Unpack(Pack(d)) == Some(Record(Low32(d.sec), Low32(d.usec), d.channel, d.value))
  {
    var s1, s2, s3, s4 := Digits(Low32(d.sec)), Padded(Low32(d.usec)), Digits(d.channel), Digits(d.value);
    ValueOfDigits(Low32(d.sec));
    ValueOfPadded(Low32(d.usec));
    ValueOfDigits(d.channel);
    ValueOfDigits(d.value);
    FieldsRead(s1, s2, s3, s4);
  }

  lemma FieldReads(s: bytes, c: byte, t: bytes)
    requires AllDigits(s) && s != [] && !IsDigit(c) && DigitsValue(s) <= ULONG_MAX
    ensures Field(s + ([c] + t)) == Some((DigitsValue(s), t))
  {
    hide Strtoul, DigitsValue, AllDigits;
    StrtoulReads(s, [c] + t);
    assert (s + ([c] + t))[|s| + 1..] == t;
  }

  lemma FindSkip(x: byte, s: bytes, c: byte)
    requires x != c && Find(s, c).Some?
    ensures Find([x] + s, c) == Some(Find(s, c).value + 1)
  {
    assert ([x] + s)[1..] == s;
  }

  lemma FieldsRead(s1: bytes, s2: bytes, s3: bytes, s4: bytes)
    requires AllDigits(s1) && AllDigits(s2) && AllDigits(s3) && AllDigits(s4)
    requires s1 != [] && s2 != [] && s3 != [] && s4 != []
    requires DigitsValue(s1) < 0x1_0000_0000 && DigitsValue(s2) < 0x1_0000_0000
    requires DigitsValue(s3) < 0x100 && DigitsValue(s4) < 0x1_0000_0000
    ensures var text := [0x44, 0x49, SEMICOLON] + s1 + [DOT] + s2 + [SEMICOLON] + s3 + [SEMICOLON] + s4;
            Unpack(Frame(text)) == Some(Record(DigitsValue(s1), DigitsValue(s2), DigitsValue(s3), DigitsValue(s4)))
  {
    hide DigitsValue, Strtoul, AllDigits, IsDigit, Field, Find, Unpack, UnpackFields, Frame;
    var r3 := s4 + [STOP];
    var r2 := s3 + ([SEMICOLON] + r3);
    var r1 := s2 + ([SEMICOLON] + r2);
    Regrouped(s1, s2, s3, s4);
    HeaderSkipped(s1 + ([DOT] + r1));
    Separators();
    FieldReads(s1, DOT, r1);
    FieldReads(s2, SEMICOLON, r2);
    FieldReads(s3, SEMICOLON, r3);
    StrtoulReads(s4, [STOP]);
    FieldsChained(s1 + ([DOT] + r1), r1, r2, r3, DigitsValue(s1), DigitsValue(s2), DigitsValue(s3), DigitsValue(s4));
  }

  lemma Separators()
    ensures !IsDigit(DOT) && !IsDigit(SEMICOLON) && !IsDigit(STOP)
  {}

  /** Each field leaves what the next one reads. */
  lemma FieldsChained(r0: bytes, r1: bytes, r2: bytes, r3: bytes, v1: nat, v2: nat, v3: nat, v4: nat)
    requires Field(r0) == Some((v1, r1)) && Field(r1) == Some((v2, r2)) && Field(r2) == Some((v3, r3)) && Strtoul(r3).0 == v4
    requires v1 < 0x1_0000_0000 && v2 < 0x1_0000_0000 && v3 < 0x100 && v4 < 0x1_0000_0000
    ensures UnpackFields(r0) == Some(Record(v1, v2, v3, v4))
  {
    hide Field, Strtoul;
  }

  /** The semicolon behind the start character and the two letters is the first. */
  lemma HeaderSkipped(t: bytes)
    ensures Unpack([START] + ([0x44] + ([0x49] + ([SEMICOLON] + t)))) == UnpackFields(t)
  {
    hide Find, UnpackFields;
    var q := [SEMICOLON] + t;
    FindHere(SEMICOLON, t);
    FindSkip(0x49, q, SEMICOLON);
    FindSkip(0x44, [0x49] + q, SEMICOLON);
    FindSkip(START, [0x44] + ([0x49] + q), SEMICOLON);
    assert ([START] + ([0x44] + ([0x49] + q)))[4..] == t;
  }

  lemma FindHere(c: byte, s: bytes)
    ensures Find([c] + s, c) == Some(0)
  {}

  lemma Regrouped(s1: bytes, s2: bytes, s3: bytes, s4: bytes)
    ensures Frame([0x44, 0x49, SEMICOLON] + s1 + [DOT] + s2 + [SEMICOLON] + s3 + [SEMICOLON] + s4)
         == [START] + ([0x44] + ([0x49] + ([SEMICOLON]
            + (s1 + ([DOT] + (s2 + ([SEMICOLON] + (s3 + ([SEMICOLON] + (s4 + [STOP]))))))))))
  {}

  /** Zeros in front do not change what a text denotes. */
  lemma {:induction false} PaddedNumeral(n: nat)
    ensures Numeral(Padded(n), n) && |Padded(n)| >= 6 && (|Padded(n)| > 6 ==> Notation(Padded(n), n))
  {
    hide Numeral, DigitsValue;
    ValueOfPadded(n);
    ValueIsNumeral(Padded(n));
    DigitsNotation(n);
    if |Digits(n)| < 6 {
      ZerosLength(6 - |Digits(n)|);
    }
  }

  /** The bytes between the marks are four decimal numbers, those of the microseconds at least six digits. */
  ghost predicate Holds(p: bytes, d: Record, sec: bytes, usec: bytes, channel: bytes, value: bytes) {
    && p == [0x02, 'D' as int, 'I' as int, ';' as int] + sec + ['.' as int] + usec + [';' as int] + channel
            + [';' as int] + value + [0x0d]
    && Notation(sec, d.sec % 0x1_0000_0000) && Notation(channel, d.channel) && Notation(value, d.value)
    && Numeral(usec, d.usec % 0x1_0000_0000) && |usec| >= 6 && (|usec| > 6 ==> Notation(usec, d.usec % 0x1_0000_0000))
  }

  /** A packed record, byte by byte. */
  lemma PackedText(d: Record)
    requires InRange(d)
    ensures exists sec, usec, channel, value :: Holds(Pack(d), d, sec, usec, channel, value)
  {
    hide *;
    var s1, s2, s3, s4 := Digits(Low32(d.sec)), Padded(Low32(d.usec)), Digits(d.channel), Digits(d.value);
    DigitsNotation(Low32(d.sec));
    PaddedNumeral(Low32(d.usec));
    DigitsNotation(d.channel);
    DigitsNotation(d.value);
    PackIs(d, s1, s2, s3, s4);
    Low32Is(d.sec);
    Low32Is(d.usec);
    HoldsBy(d, s1, s2, s3, s4);
  }

  lemma Low32Is(n: int)
    ensures Low32(n) == n % 0x1_0000_0000
  {}

  lemma HoldsBy(d: Record, s1: bytes, s2: bytes, s3: bytes, s4: bytes)
    requires Pack(d) == [0x02, 'D' as int, 'I' as int, ';' as int] + s1 + ['.' as int] + s2 + [';' as int] + s3
                        + [';' as int] + s4 + [0x0d]
    requires Notation(s1, d.sec % 0x1_0000_0000) && Notation(s3, d.channel) && Notation(s4, d.value)
    requires Numeral(s2, d.usec % 0x1_0000_0000) && |s2| >= 6 && (|s2| > 6 ==> Notation(s2, d.usec % 0x1_0000_0000))
    ensures Holds(Pack(d), d, s1, s2, s3, s4)
  {
    hide Pack, Notation, Numeral;
  }

  lemma PackIs(d: Record, s1: bytes, s2: bytes, s3: bytes, s4: bytes)
    requires s1 == Digits(Low32(d.sec)) && s2 == Padded(Low32(d.usec)) && s3 == Digits(d.channel) && s4 == Digits(d.value)
    ensures Pack(d) == [0x02, 'D' as int, 'I' as int, ';' as int] + s1 + ['.' as int] + s2 + [';' as int] + s3
                       + [';' as int] + s4 + [0x0d]
  {
    hide Digits, Padded, Low32;
    var t := [0x44, 0x49, SEMICOLON] + s1;
    assert [START] + ([0x44, 0x49, SEMICOLON] + s1) == [0x02, 'D' as int, 'I' as int, ';' as int] + s1;
  }

  lemma Low32Keeps(n: int)
    ensures Low32(n) == n <==> 0 <= n < 0x1_0000_0000
  {}

  /** A record survives packing if and only if its time fits unsigned 32-bit numbers. */
  lemma DiscreteRoundTrip(d: Record)
    requires InRange(d)
    ensures Unpack(Pack(d)) == Some(d) <==> 0 <= d.sec < 0x1_0000_0000 && 0 <= d.usec < 0x1_0000_0000
  {
    hide Low32, Unpack, Pack;
    UnpackReads(d);
    Low32Keeps(d.sec);
    Low32Keeps(d.usec);
  }

  // ---- end to end ----

  function PackAll(ds: seq<Record>): bytes {
    if ds == [] then [] else Pack(ds[0]) + PackAll(ds[1..])
  }

  function PackEach(ds: seq<Record>): seq<bytes> {
    if ds == [] then [] else [Pack(ds[0])] + PackEach(ds[1..])
  }

  /** The text holds neither delimiter and is short. */
  lemma TextPlain(d: Record)
    requires InRange(d)
    ensures Plain(Text(d)) && |Text(d)| <= 39
  {
    hide Low32, Digits, Padded, Plain, AllDigits;
    var s1, s2, s3, s4 := Digits(Low32(d.sec)), Padded(Low32(d.usec)), Digits(d.channel), Digits(d.value);
    NumbersPlain(d);
    MarksPlain();
    var a := [0x44, 0x49, SEMICOLON] + s1;
    PlainConcat([0x44, 0x49, SEMICOLON], s1);
    PlainConcat(a, [DOT]);
    PlainConcat(a + [DOT], s2);
    var b := a + [DOT] + s2;
    PlainConcat(b, [SEMICOLON]);
    PlainConcat(b + [SEMICOLON], s3);
    var e := b + [SEMICOLON] + s3;
    PlainConcat(e, [SEMICOLON]);
    PlainConcat(e + [SEMICOLON], s4);
    assert Text(d) == e + [SEMICOLON] + s4;
  }

  /** Without a delimiter. */
  ghost predicate Plain(s: bytes) {
    StopFree(s) && forall i :: 0 <= i < |s| ==> s[i] != START
  }

  lemma PlainConcat(a: bytes, b: bytes)
    requires Plain(a) && Plain(b)
    ensures Plain(a + b)
  {}

  lemma MarksPlain()
    ensures Plain([0x44, 0x49, SEMICOLON]) && Plain([SEMICOLON]) && Plain([DOT])
  {}

  lemma PlainDigits(s: bytes)
    requires AllDigits(s)
    ensures Plain(s)
  {}

  /** The four numbers of a record are digits, and not too many. */
  lemma NumbersPlain(d: Record)
    requires InRange(d)
    ensures Plain(Digits(Low32(d.sec))) && Plain(Padded(Low32(d.usec))) && Plain(Digits(d.channel)) && Plain(Digits(d.value))
    ensures |Digits(Low32(d.sec))| <= 10 && |Padded(Low32(d.usec))| <= 10 && |Digits(d.channel)| <= 3 && |Digits(d.value)| <= 10
  {
    hide Plain, DigitsValue;
    PlainDigits(Digits(Low32(d.sec)));
    PlainDigits(Digits(d.channel));
    PlainDigits(Digits(d.value));
    ValueOfPadded(Low32(d.usec));
    PlainDigits(Padded(Low32(d.usec)));
    TenDigits();
    DigitsLength(Low32(d.sec), 10);
    DigitsLength(Low32(d.usec), 10);
    DigitsLength(d.channel, 3);
    DigitsLength(d.value, 10);
    ZerosLength(6 - |Digits(Low32(d.usec))|);
  }

  lemma TenDigits()
    ensures 0x1_0000_0000 <= Pow10(10) && 0x100 <= Pow10(3)
  {
    assert Pow10(5) == 100_000;
  }

  lemma ZerosLength(n: int)
    ensures n >= 0 ==> |Zeros(n)| == n
    decreases n
  {
    if n <= 0 {
    } else {
      ZerosLength(n - 1);
    }
  }

  lemma {:induction false} OnlyStart(s: bytes)
    requires forall i :: 0 <= i < |s| ==> s[i] != START
    ensures Body([START] + s) == s && Starts([START] + s) == 1
    decreases |s|
  {
    var t := [START] + s;
    if s == [] {
      assert t[..0] == [];
    } else {
      assert t[..|t| - 1] == [START] + s[..|s| - 1];
      OnlyStart(s[..|s| - 1]);
    }
  }

  /** One packed record between packets: it fits, it comes out as it went in, and the state is as before. */
  lemma FrameThrough(rx: Rx, d: Record)
    requires Between(rx) && InRange(d)
    ensures FitsAll(rx, Pack(d)) && Packets(rx, Pack(d)) == [Pack(d)] && Between(Feed(rx, Pack(d)))
    ensures var r := Feed(rx, Pack(d)); r.good == rx.good + 1 && r.average == rx.average + 1 && r.bad == rx.bad
  {
    hide Text, FitsAll, Feed, Packets;
    TextPlain(d);
    var s := [START] + Text(d);
    OnlyStart(Text(d));
    ShortFits(rx, s);
    PacketAtStop(rx, s);
    PacketExact(rx, s);
    assert Pack(d) == s + [STOP];
  }

  lemma {:induction false} StreamThrough(rx: Rx, ds: seq<Record>)
    requires Between(rx) && forall d :: d in ds ==> InRange(d)
    ensures FitsAll(rx, PackAll(ds)) && Packets(rx, PackAll(ds)) == PackEach(ds) && Between(Feed(rx, PackAll(ds)))
    ensures var r := Feed(rx, PackAll(ds)); r.good == rx.good + |ds| && r.bad == rx.bad
    decreases |ds|
  {
    hide Pack, Between;
    if ds == [] {
    } else {
      FrameThrough(rx, ds[0]);
      StreamThrough(Feed(rx, Pack(ds[0])), ds[1..]);
      FeedConcat(rx, Pack(ds[0]), PackAll(ds[1..]));
    }
  }

  lemma {:induction false} PackEachAt(ds: seq<Record>, i: nat)
    requires i < |ds|
    ensures |PackEach(ds)| == |ds| && PackEach(ds)[i] == Pack(ds[i])
    decreases |ds|
  {
    if i > 0 {
      PackEachAt(ds[1..], i - 1);
    } else if |ds| > 1 {
      PackEachAt(ds[1..], 0);
    }
  }

  /**
    From a state between packets, the packed records, sent in any pieces, come out as the same packets
    in the same order, none lost and none bad; each unpacks to its record, the time modulo two to the power of 32.
   */
  lemma EndToEnd(rx: Rx, ds: seq<Record>, chunks: seq<bytes>)
    requires Between(rx) && (forall d :: d in ds ==> InRange(d)) && Flatten(chunks) == PackAll(ds)
    ensures FitsAll(rx, Flatten(chunks))
    ensures var r := FeedChunks(rx, chunks);
            && r.1 == PackEach(ds) && |r.1| == |ds| && Between(r.0) && r.0.good == rx.good + |ds| && r.0.bad == rx.bad
            && forall i :: 0 <= i < |ds| ==>
                 Unpack(r.1[i]) == Some(Record(Low32(ds[i].sec), Low32(ds[i].usec), ds[i].channel, ds[i].value))
  {
    hide Pack, Unpack, Between, Low32;
    StreamThrough(rx, ds);
    ChunkIndependence(rx, chunks);
    forall i | 0 <= i < |ds|
      ensures i < |PackEach(ds)| && Unpack(PackEach(ds)[i]) == Some(Record(Low32(ds[i].sec), Low32(ds[i].usec), ds[i].channel, ds[i].value))
    {
      PackEachAt(ds, i);
      UnpackReads(ds[i]);
    }
    if ds != [] {
      PackEachAt(ds, 0);
    }
  }
}
