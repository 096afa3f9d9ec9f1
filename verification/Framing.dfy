/**
  The wire framing of libpack: parse_buffer cuts a byte stream into packets with static state that
  survives from call to call; pack_discrete and unpack_discrete write and read one kind of packet.
 */
module Framing {
  import opened Bytes

  const START: byte := 0x02
  const STOP: byte := 0x0d
  const RECBUF_SIZE := 512

  // ---- the state machine on values ----

  /** rec_buf, pckt_cur_pos, pckt_cur_len, term, and the counters avrg_pckts, good_pckts, bad_pckts. */
  datatype Rx = Rx(rec: bytes, pos: nat, len: nat, term: bool, average: nat, good: nat, bad: nat)

  /** The byte is stored, and a packet is copied, within rec_buf. */
  predicate Fits(rx: Rx, b: byte) {
    |rx.rec| == RECBUF_SIZE && rx.pos < RECBUF_SIZE && (b == STOP ==> rx.len < RECBUF_SIZE)
  }

  function Step(rx: Rx, b: byte): (r: Rx)
    requires Fits(rx, b)
    ensures |r.rec| == RECBUF_SIZE
  {
    var rec := rx.rec[rx.pos := b];
    if b == START then
      if rx.term then rx.(rec := rec[0 := b], pos := 1, len := 0, bad := rx.bad + 1)
      else rx.(rec := rec, pos := rx.pos + 1, len := rx.len + 1, term := true, average := rx.average + 1)
    else if b == STOP then rx.(rec := rec, pos := 0, len := 0, term := false, good := rx.good + 1)
    else rx.(rec := rec, pos := if rx.term then rx.pos + 1 else rx.pos, len := rx.len + 1)
  }

  /** The packets that the byte completes: one at STOP, of pckt_cur_len bytes from rec_buf. */
  function Emitted(rx: Rx, b: byte): seq<bytes>
    requires Fits(rx, b)
  {
    if b == STOP then [rx.rec[rx.pos := b][..rx.len + 1]] else []
  }

  predicate FitsAll(rx: Rx, s: bytes)
    decreases |s|
  {
    s != [] ==> Fits(rx, s[0]) && FitsAll(Step(rx, s[0]), s[1..])
  }

  function Feed(rx: Rx, s: bytes): Rx
    requires FitsAll(rx, s)
    decreases |s|
  {
    if s == [] then rx else Feed(Step(rx, s[0]), s[1..])
  }

  function Packets(rx: Rx, s: bytes): seq<bytes>
    requires FitsAll(rx, s)
    decreases |s|
  {
    if s == [] then [] else Emitted(rx, s[0]) + Packets(Step(rx, s[0]), s[1..])
  }

  // ---- chunks ----

  /** Cutting the stream in two changes neither the packets nor the final state. */
  lemma {:induction false} FeedConcat(rx: Rx, a: bytes, b: bytes)
    ensures FitsAll(rx, a + b) <==> FitsAll(rx, a) && FitsAll(Feed(rx, a), b)
    ensures FitsAll(rx, a + b) ==> Feed(rx, a + b) == Feed(Feed(rx, a), b)
    ensures FitsAll(rx, a + b) ==> Packets(rx, a + b) == Packets(rx, a) + Packets(Feed(rx, a), b)
    decreases |a|
  {
    if a == [] {
      assert a + b == b;
    } else {
      assert (a + b)[0] == a[0] && (a + b)[1..] == a[1..] + b;
      if Fits(rx, a[0]) {
        FeedConcat(Step(rx, a[0]), a[1..], b);
      }
    }
  }

  function Flatten(chunks: seq<bytes>): bytes {
    if chunks == [] then [] else chunks[0] + Flatten(chunks[1..])
  }

  /** One call of parse_buffer per chunk. */
  function FeedChunks(rx: Rx, chunks: seq<bytes>): (r: (Rx, seq<bytes>))
    requires FitsAll(rx, Flatten(chunks))
    decreases |chunks|
  {
    if chunks == [] then (rx, [])
    else
      FeedConcat(rx, chunks[0], Flatten(chunks[1..]));
      var r := FeedChunks(Feed(rx, chunks[0]), chunks[1..]);
      (r.0, Packets(rx, chunks[0]) + r.1)
  }

  /** However the stream is cut into chunks, the packets and the final state are the same. */
  lemma {:induction false} ChunkIndependence(rx: Rx, chunks: seq<bytes>)
    requires FitsAll(rx, Flatten(chunks))
    ensures FeedChunks(rx, chunks) == (Feed(rx, Flatten(chunks)), Packets(rx, Flatten(chunks)))
    decreases |chunks|
  {
    if chunks == [] {
    } else {
      FeedConcat(rx, chunks[0], Flatten(chunks[1..]));
      ChunkIndependence(Feed(rx, chunks[0]), chunks[1..]);
    }
  }

  // ---- one packet ----

  /** Between packets: nothing is open and nothing has been counted. */
  predicate Between(rx: Rx) {
    |rx.rec| == RECBUF_SIZE && rx.pos == 0 && rx.len == 0 && !rx.term
  }

  predicate StopFree(s: bytes) {
    forall i :: 0 <= i < |s| ==> s[i] != STOP
  }

  /** The bytes after the last START. */
  function Body(s: bytes): bytes {
    if s == [] then []
    else if s[|s| - 1] == START then []
    else Body(s[..|s| - 1]) + [s[|s| - 1]]
  }

  function Starts(s: bytes): nat {
    if s == [] then 0 else Starts(s[..|s| - 1]) + if s[|s| - 1] == START then 1 else 0
  }

  /** The state after the bytes `s` without a STOP. */
  predicate Open(rx0: Rx, s: bytes, rx: Rx) {
    && |rx.rec| == RECBUF_SIZE && rx.term == (Starts(s) > 0) && rx.good == rx0.good
    && (Starts(s) == 0 ==> rx.pos == 0 && rx.bad == rx0.bad && rx.average == rx0.average)
    && (Starts(s) > 0 ==> rx.bad == rx0.bad + Starts(s) - 1 && rx.average == rx0.average + 1)
    && (Starts(s) > 0 ==> rx.pos == |Body(s)| + 1 <= RECBUF_SIZE && rx.rec[..rx.pos] == [START] + Body(s))
    && rx.len == if Starts(s) > 1 then |Body(s)| else |s|
  }

  lemma {:induction false} FeedOpen(rx0: Rx, s: bytes)
    requires Between(rx0) && StopFree(s) && FitsAll(rx0, s)
    ensures Open(rx0, s, Feed(rx0, s))
    decreases |s|
  {
    if s == [] {
    } else {
      var last := |s| - 1;
      var t, b := s[..last], s[last];
      assert s == t + [b];
      FeedConcat(rx0, t, [b]);
      FeedOpen(rx0, t);
      var rx := Feed(rx0, t);
      assert Feed(rx, [b]) == Step(rx, b);
      OpenStep(rx0, t, rx, b);
    }
  }

  lemma OpenStep(rx0: Rx, t: bytes, rx: Rx, b: byte)
    requires Open(rx0, t, rx) && Fits(rx, b) && b != STOP
    ensures Open(rx0, t + [b], Step(rx, b))
  {
    var s := t + [b];
    assert s[..|s| - 1] == t;
    assert Starts(s) == Starts(t) + (if b == START then 1 else 0) && Body(s) == if b == START then [] else Body(t) + [b];
    var rx' := Step(rx, b);
    if b == START {
      assert rx'.rec[..1] == [START];
    } else if Starts(t) > 0 {
      assert rx'.rec[..rx'.pos] == rx.rec[..rx.pos] + [b];
    }
  }

  /** What stands between the last START and the STOP, delimiters included. */
  function Frame(body: bytes): bytes {
    [START] + body + [STOP]
  }

  /** The packet cut at a STOP, for every stretch of bytes since the last packet. */
  lemma {:induction false} PacketAtStop(rx0: Rx, s: bytes)
    requires Between(rx0) && StopFree(s) && FitsAll(rx0, s + [STOP])
    ensures |Packets(rx0, s + [STOP])| == 1 && Between(Feed(rx0, s + [STOP]))
    ensures var p := Packets(rx0, s + [STOP])[0];
            && |p| == (if Starts(s) > 1 then |Body(s)| else |s|) + 1
            && (Starts(s) > 0 && |p| <= |Body(s)| + 2 ==> p == Frame(Body(s))[..|p|])
            && (Starts(s) > 0 && |p| > |Body(s)| + 2 ==> p[..|Body(s)| + 2] == Frame(Body(s)))
    ensures var rx := Feed(rx0, s + [STOP]);
            && rx.good == rx0.good + 1 && rx.average == rx0.average + (if Starts(s) > 0 then 1 else 0)
            && rx.bad == rx0.bad + if Starts(s) > 1 then Starts(s) - 1 else 0
  {
    FeedConcat(rx0, s, [STOP]);
    FeedOpen(rx0, s);
    NoPackets(rx0, s);
    var rx := Feed(rx0, s);
    assert Packets(rx, [STOP]) == [rx.rec[rx.pos := STOP][..rx.len + 1]] + [];
    assert Feed(rx, [STOP]) == Step(rx, STOP);
    var p := rx.rec[rx.pos := STOP][..rx.len + 1];
    BodyLength(s);
    if Starts(s) > 0 {
      assert rx.rec[rx.pos := STOP][..rx.pos + 1] == Frame(Body(s));
      if |p| <= |Body(s)| + 2 {
        assert p == rx.rec[rx.pos := STOP][..rx.pos + 1][..|p|];
      } else {
        assert p[..rx.pos + 1] == rx.rec[rx.pos := STOP][..rx.pos + 1];
      }
    }
  }

  lemma {:induction false} NoPackets(rx: Rx, s: bytes)
    requires StopFree(s) && FitsAll(rx, s)
    ensures Packets(rx, s) == []
    decreases |s|
  {
    if s == [] {
    } else {
      NoPackets(Step(rx, s[0]), s[1..]);
    }
  }

  lemma {:induction false} BodyLength(s: bytes)
    ensures |Body(s)| + Starts(s) <= |s|
    ensures Starts(s) == 1 && |s| == |Body(s)| + 1 <==> s == [START] + Body(s)
    decreases |s|
  {
    if s == [] {
    } else {
      var t := s[..|s| - 1];
      BodyLength(t);
      assert s == t + [s[|s| - 1]];
      if s == [START] + Body(s) && s[|s| - 1] != START {
        assert t == ([START] + Body(s))[..|s| - 1] == [START] + Body(t);
      }
      if s[|s| - 1] == START && |s| == 1 {
        assert s == [START] + Body(s);
      }
    }
  }

  /** The packet is exactly the frame if and only if the bytes begin with their only START. */
  lemma PacketExact(rx0: Rx, s: bytes)
    requires Between(rx0) && StopFree(s) && FitsAll(rx0, s + [STOP])
    ensures Starts(s) > 0 && Packets(rx0, s + [STOP]) == [Frame(Body(s))] <==> s == [START] + Body(s)
  {
    PacketAtStop(rx0, s);
    BodyLength(s);
    var p := Packets(rx0, s + [STOP])[0];
    if s == [START] + Body(s) {
      assert p == Frame(Body(s))[..|p|] == Frame(Body(s));
    }
  }

  /** Bytes fewer than the receive buffer holds always fit, whatever they are. */
  lemma {:induction false} ShortFits(rx: Rx, s: bytes)
    requires |rx.rec| == RECBUF_SIZE && StopFree(s) && rx.pos + |s| < RECBUF_SIZE && rx.len + |s| < RECBUF_SIZE && 1 + |s| < RECBUF_SIZE
    ensures FitsAll(rx, s + [STOP])
    decreases |s|
  {
    if s == [] {
      assert [] + [STOP] == [STOP];
      assert FitsAll(Step(rx, STOP), [STOP][1..]);
    } else {
      assert (s + [STOP])[1..] == s[1..] + [STOP];
      ShortFits(Step(rx, s[0]), s[1..]);
    }
  }

  // ---- the class ----

  /** The static variables of parse_buffer. */
  class Receiver {
    const recBuf: array<byte>
    var curPos: nat
    var curLen: nat
    var term: bool
    var avrgPckts: nat
    var goodPckts: nat
    var badPckts: nat

    constructor ()
      ensures Between(State()) && fresh(recBuf)
    {
      recBuf := new byte[RECBUF_SIZE](_ => 0);
      curPos, curLen, term, avrgPckts, goodPckts, badPckts := 0, 0, false, 0, 0, 0;
    }

    ghost function State(): Rx
      reads this, recBuf
    {
      Rx(recBuf[..], curPos, curLen, term, avrgPckts, goodPckts, badPckts)
    }

    /** One round of the loop: the packet that the byte completes, if it does. */
    method Take(b: byte) returns (cut: seq<bytes>)
      requires Fits(State(), b)
      modifies this, recBuf
      ensures cut == Emitted(old(State()), b) && State() == Step(old(State()), b)
    {
      cut := [];
      recBuf[curPos] := b;
      curLen := curLen + 1;
      if recBuf[curPos] == START {
        if term {
          badPckts := badPckts + 1;
          curPos := 0;
          recBuf[curPos] := b;
          curLen := 0;
        } else {
          term := true;
          avrgPckts := avrgPckts + 1;
        }
        curPos := curPos + 1;
      } else if recBuf[curPos] == STOP {
        term := false;
        cut := [recBuf[..curLen]];
        goodPckts := goodPckts + 1;
        curPos, curLen := 0, 0;
      } else if term {
        curPos := curPos + 1;
      }
    }

    /** parse_buffer: the packets completed by this buffer, in order. */
    method ParseBuffer(buf: bytes) returns (ret: seq<bytes>)
      requires FitsAll(State(), buf)
      modifies this, recBuf
      ensures ret == Packets(old(State()), buf) && State() == Feed(old(State()), buf)
    {
      hide Emitted, Step;
      ret := [];
      assert buf[0..] == buf;
      for i := 0 to |buf|
        invariant FitsAll(State(), buf[i..])
        invariant Feed(State(), buf[i..]) == Feed(old(State()), buf)
        invariant ret + Packets(State(), buf[i..]) == Packets(old(State()), buf)
      {
        FeedHead(State(), buf, i);
        var cut := Take(buf[i]);
        assert ret + (cut + Packets(State(), buf[i + 1..])) == ret + cut + Packets(State(), buf[i + 1..]);
        ret := ret + cut;
      }
    }
  }

  lemma FeedHead(rx: Rx, buf: bytes, i: nat)
    requires i < |buf| && FitsAll(rx, buf[i..])
    ensures Fits(rx, buf[i]) && FitsAll(Step(rx, buf[i]), buf[i + 1..])
    ensures Feed(rx, buf[i..]) == Feed(Step(rx, buf[i]), buf[i + 1..])
    ensures Packets(rx, buf[i..]) == Emitted(rx, buf[i]) + Packets(Step(rx, buf[i]), buf[i + 1..])
  {
    assert buf[i..][1..] == buf[i + 1..];
  }
}
