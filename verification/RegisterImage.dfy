/**
  The Modbus register image of the weighing data: serialize_db lays the database out in 16-bit registers
  of a little-endian host, and function 0x04 of proc_mdb answers reads of any stretch of it.
 */
module RegisterImage {
  import opened Bytes

  type register = n: int | 0 <= n < 0x1_0000

  type registers = seq<register>

  datatype Seal = Seal(num: register, quality: register, id: bytes)

  /** wgt, car and seal[0..seals_count] of the database. */
  datatype Db = Db(weights: registers, carQuality: register, carId: bytes, seals: seq<Seal>)

  const WEIGHTS := 5
  const ID_SIZE := 32
  const RT_DB_SIZE := 120

  /** A NUL-terminated string in a char[32]. */
  predicate IdOk(id: bytes) {
    |id| < ID_SIZE && NulFree(id)
  }

  predicate DbOk(db: Db) {
    |db.weights| == WEIGHTS && IdOk(db.carId) && (forall s :: s in db.seals ==> IdOk(s.id)) && |db.seals| < 0x1_0000
  }

  // ---- the image ----

  /** Bytes as they lie in registers: two each, the first in the low half; an odd one is padded with zero. */
  function Pairs(s: bytes): registers {
    if s == [] then []
    else if |s| == 1 then [s[0]]
    else
      var lo: int, hi: int := s[0], s[1];
      [lo + 0x100 * hi] + Pairs(s[2..])
  }

  /** pack_str: how many registers follow, and the registers. */
  function PackedStr(s: bytes): registers
    requires |s| < ID_SIZE
  {
    PairsLength(s);
    [|Pairs(s)|] + Pairs(s)
  }

  lemma PairsLength(s: bytes)
    ensures |Pairs(s)| == (|s| + 1) / 2
    decreases |s|
  {
    if |s| <= 1 {
    } else {
      PairsLength(s[2..]);
    }
  }

  function SealImage(s: Seal): registers
    requires IdOk(s.id)
  {
    [s.num, s.quality] + PackedStr(s.id)
  }

  function SealsImage(ss: seq<Seal>): registers
    requires forall s :: s in ss ==> IdOk(s.id)
  {
    if ss == [] then [] else SealImage(ss[0]) + SealsImage(ss[1..])
  }

  function Image(db: Db): registers
    requires DbOk(db)
  {
    db.weights + [db.carQuality] + PackedStr(db.carId) + [|db.seals|] + SealsImage(db.seals)
  }

  // ---- reading the image ----

  /** The bytes of the registers, low half first, without a zero at the end. */
  function Unpaired(r: registers): bytes {
    if r == [] then []
    else if |r| == 1 && r[0] / 0x100 == 0 then [r[0] % 0x100]
    else [r[0] % 0x100, r[0] / 0x100] + Unpaired(r[1..])
  }

  function ReadStr(r: registers): Option<(bytes, registers)> {
    if r == [] then None
    else
      var n: int := r[0];
      if |r| < n + 1 then None else Some((Unpaired(r[1..n + 1]), r[n + 1..]))
  }

  function ReadSeal(r: registers): Option<(Seal, registers)> {
    if |r| < 2 then None
    else
      match ReadStr(r[2..])
      case None => None
      case Some(x) => Some((Seal(r[0], r[1], x.0), x.1))
  }

  function ReadSeals(r: registers, n: nat): Option<(seq<Seal>, registers)>
    decreases n
  {
    if n == 0 then Some(([], r))
    else
      match ReadSeal(r)
      case None => None
      case Some(x) =>
        match ReadSeals(x.1, n - 1)
        case None => None
        case Some(y) => Some(([x.0] + y.0, y.1))
  }

  /** The database at the front of the registers, and what follows it: the image tells its own length. */
  function ReadDb(r: registers): Option<(Db, registers)> {
    if |r| < WEIGHTS + 1 then None
    else
      match ReadStr(r[WEIGHTS + 1..])
      case None => None
      case Some(car) =>
        if car.1 == [] then None
        else
          match ReadSeals(car.1[1..], car.1[0])
          case None => None
          case Some(x) => Some((Db(r[..WEIGHTS], r[WEIGHTS], car.0, x.0), x.1))
  }

  // ---- the image is recoverable ----

  lemma {:induction false} UnpairedPairs(s: bytes)
    requires NulFree(s)
    ensures Unpaired(Pairs(s)) == s
    decreases |s|
  {
    if |s| <= 1 {
    } else {
      var lo: int, hi: int := s[0], s[1];
      UnpairedPairs(s[2..]);
      assert Pairs(s)[1..] == Pairs(s[2..]);
      assert (lo + 0x100 * hi) % 0x100 == lo && (lo + 0x100 * hi) / 0x100 == hi;
      assert s == [s[0], s[1]] + s[2..];
    }
  }

  lemma ReadPackedStr(s: bytes, rest: registers)
    requires IdOk(s)
    ensures ReadStr(PackedStr(s) + rest) == Some((s, rest))
  {
    PairsLength(s);
    UnpairedPairs(s);
    var r := PackedStr(s) + rest;
    var n := |Pairs(s)|;
    assert r[1..n + 1] == Pairs(s) && r[n + 1..] == rest;
  }

  lemma ReadSealImage(s: Seal, rest: registers)
    requires IdOk(s.id)
    ensures ReadSeal(SealImage(s) + rest) == Some((s, rest))
  {
    hide ReadStr, PackedStr;
    ReadPackedStr(s.id, rest);
    assert (SealImage(s) + rest)[2..] == PackedStr(s.id) + rest;
  }

  lemma {:induction false} ReadSealsImage(ss: seq<Seal>, rest: registers)
    requires forall s :: s in ss ==> IdOk(s.id)
    ensures ReadSeals(SealsImage(ss) + rest, |ss|) == Some((ss, rest))
    decreases |ss|
  {
    hide ReadSeal, SealImage;
    if ss == [] {
      assert SealsImage(ss) + rest == rest;
    } else {
      ReadSealImage(ss[0], SealsImage(ss[1..]) + rest);
      ReadSealsImage(ss[1..], rest);
      assert SealsImage(ss) + rest == SealImage(ss[0]) + (SealsImage(ss[1..]) + rest);
      assert ss == [ss[0]] + ss[1..];
    }
  }

  /** Whatever follows the image in memory, the database is read back from it. */
  lemma ImageReadsBack(db: Db, rest: registers)
    requires DbOk(db)
    ensures ReadDb(Image(db) + rest) == Some((db, rest))
  {
    hide ReadStr, PackedStr, ReadSeals, SealsImage;
    var r := Image(db) + rest;
    var tail := SealsImage(db.seals) + rest;
    ReadPackedStr(db.carId, [|db.seals|] + tail);
    ReadSealsImage(db.seals, rest);
    assert r == db.weights + ([db.carQuality] + (PackedStr(db.carId) + ([|db.seals|] + tail)));
    assert r[WEIGHTS + 1..] == PackedStr(db.carId) + ([|db.seals|] + tail);
    assert ([|db.seals|] + tail)[1..] == tail;
    assert r[..WEIGHTS] == db.weights;
  }

  // ---- where everything stands in the image ----

  /** From register `p` on: how many registers follow, and the bytes in them, low half first, the odd half zero. */
  ghost predicate StringAt(r: registers, p: nat, s: bytes) {
    && p + 1 + (|s| + 1) / 2 <= |r| && r[p] == (|s| + 1) / 2
    && (forall k :: 0 <= k < |s| ==> s[k] == if k % 2 == 0 then r[p + 1 + k / 2] % 0x100 else r[p + 1 + k / 2] / 0x100)
    && (|s| % 2 == 1 ==> r[p + 1 + |s| / 2] / 0x100 == 0)
  }

  function SealSize(s: Seal): nat {
    3 + (|s.id| + 1) / 2
  }

  function SealsSize(ss: seq<Seal>): nat {
    if ss == [] then 0 else SealSize(ss[0]) + SealsSize(ss[1..])
  }

  ghost predicate SealAt(r: registers, p: nat, s: Seal) {
    p + 2 <= |r| && r[p] == s.num && r[p + 1] == s.quality && StringAt(r, p + 2, s.id)
  }

  lemma StringShift(a: registers, r: registers, b: registers, s: bytes, p: nat)
    requires StringAt(r, p, s)
    ensures StringAt(a + r + b, |a| + p, s)
  {
    var t := a + r + b;
    forall k | p <= k < |r| ensures t[|a| + k] == r[k] {}
  }

  lemma PackedAt(s: bytes)
    requires IdOk(s)
    ensures StringAt(PackedStr(s), 0, s) && |PackedStr(s)| == 1 + (|s| + 1) / 2
  {
    hide Pairs;
    PairsLength(s);
    var r := PackedStr(s);
    forall k | 0 <= k < |s| ensures s[k] == if k % 2 == 0 then r[1 + k / 2] % 0x100 else r[1 + k / 2] / 0x100 {
      PairAt(s, k / 2);
      assert r[1 + k / 2] == Pairs(s)[k / 2];
    }
    if |s| % 2 == 1 {
      PairAt(s, |s| / 2);
      assert r[1 + |s| / 2] == Pairs(s)[|s| / 2];
    }
  }

  lemma SealImageAt(s: Seal)
    requires IdOk(s.id)
    ensures |SealImage(s)| == SealSize(s) && SealAt(SealImage(s), 0, s)
  {
    hide StringAt, PackedStr;
    PackedAt(s.id);
    StringShift([s.num, s.quality], PackedStr(s.id), [], s.id, 0);
    assert [s.num, s.quality] + PackedStr(s.id) + [] == SealImage(s);
  }

  lemma SealShift(a: registers, r: registers, b: registers, s: Seal, p: nat)
    requires SealAt(r, p, s)
    ensures SealAt(a + r + b, |a| + p, s)
  {
    hide StringAt;
    StringShift(a, r, b, s.id, p + 2);
    var t := a + r + b;
    assert t[|a| + p] == r[p] && t[|a| + p + 1] == r[p + 1];
  }

  lemma {:induction false} SealsImageAt(ss: seq<Seal>)
    requires forall s :: s in ss ==> IdOk(s.id)
    ensures |SealsImage(ss)| == SealsSize(ss)
    ensures forall j :: 0 <= j < |ss| ==> SealAt(SealsImage(ss), SealsSize(ss[..j]), ss[j])
    decreases |ss|
  {
    hide SealAt, SealImage, SealSize, IdOk;
    if ss == [] {
    } else {
      var rest := ss[1..];
      SealImageAt(ss[0]);
      SealsImageAt(rest);
      forall j | 0 <= j < |ss| ensures SealAt(SealsImage(ss), SealsSize(ss[..j]), ss[j]) {
        if j == 0 {
          SealShift([], SealImage(ss[0]), SealsImage(rest), ss[0], 0);
          assert [] + SealImage(ss[0]) + SealsImage(rest) == SealsImage(ss);
        } else {
          SealShift(SealImage(ss[0]), SealsImage(rest), [], rest[j - 1], SealsSize(rest[..j - 1]));
          assert SealImage(ss[0]) + SealsImage(rest) + [] == SealsImage(ss);
          assert ss[..j][0] == ss[0] && ss[..j][1..] == rest[..j - 1];
        }
      }
    }
  }

  /** The place of every field of the database in the image, and the length of the image. */
  lemma ImageLayout(db: Db)
    requires DbOk(db)
    ensures var r := Image(db);
            var c := 7 + (|db.carId| + 1) / 2;
            && |r| == c + 1 + SealsSize(db.seals)
            && (forall i :: 0 <= i < 5 ==> r[i] == db.weights[i])
            && r[5] == db.carQuality && StringAt(r, 6, db.carId) && r[c] == |db.seals|
            && forall j :: 0 <= j < |db.seals| ==> SealAt(r, c + 1 + SealsSize(db.seals[..j]), db.seals[j])
  {
    hide StringAt, SealAt, PackedStr, SealsImage, SealsSize;
    PackedAt(db.carId);
    SealsImageAt(db.seals);
    var r, head := Image(db), db.weights + [db.carQuality];
    StringShift(head, PackedStr(db.carId), [|db.seals|] + SealsImage(db.seals), db.carId, 0);
    assert r == head + PackedStr(db.carId) + ([|db.seals|] + SealsImage(db.seals));
    var front := head + PackedStr(db.carId) + [|db.seals|];
    assert r == front + SealsImage(db.seals) + [];
    forall j | 0 <= j < |db.seals| ensures SealAt(r, |front| + SealsSize(db.seals[..j]), db.seals[j]) {
      SealShift(front, SealsImage(db.seals), [], db.seals[j], SealsSize(db.seals[..j]));
    }
  }

  // ---- writing the image in place ----

  /** The memory with `r` written over it from `pos` on. */
  function Put(m: registers, pos: nat, r: registers): registers
    requires pos + |r| <= |m|
  {
    m[..pos] + r + m[pos + |r|..]
  }

  lemma PutPut(m: registers, pos: nat, a: registers, b: registers)
    requires pos + |a| + |b| <= |m|
    ensures Put(Put(m, pos, a), pos + |a|, b) == Put(m, pos, a + b)
  {}

  /** One byte into the low or the high half of a register, as memcpy does it. */
  function SetByte(r: register, high: bool, b: byte): register {
    var v: int := b;
    if high then r % 0x100 + 0x100 * v else r / 0x100 * 0x100 + v
  }

  /** memcpy of the first `j` bytes of `s` over registers. */
  function Copied(m: registers, pos: nat, s: bytes, j: nat): (r: registers)
    requires j <= |s| && pos + (|s| + 1) / 2 <= |m|
    ensures |r| == |m|
    decreases j
  {
    if j == 0 then m
    else
      var c := Copied(m, pos, s, j - 1);
      c[pos + (j - 1) / 2 := SetByte(c[pos + (j - 1) / 2], (j - 1) % 2 == 1, s[j - 1])]
  }

  lemma {:induction false} PairAt(s: bytes, i: nat)
    requires i < |Pairs(s)|
    ensures 2 * i < |s|
    ensures 2 * i + 1 < |s| ==> var lo: int, hi: int := s[2 * i], s[2 * i + 1]; Pairs(s)[i] == lo + 0x100 * hi
    ensures 2 * i + 1 == |s| ==> Pairs(s)[i] == s[2 * i]
    decreases i
  {
    PairsLength(s);
    if i == 0 {
    } else {
      PairAt(s[2..], i - 1);
      assert s[2..][2 * (i - 1)] == s[2 * i];
    }
  }

  /** After copying all bytes over memory whose last register is zero, the registers hold the pairs. */
  lemma {:induction false} CopiedAt(m: registers, pos: nat, s: bytes, j: nat, i: nat)
    requires j <= |s| && pos + (|s| + 1) / 2 <= |m| && i < |m|
    ensures var r: int := Copied(m, pos, s, j)[i];
            && (i < pos || i >= pos + (j + 1) / 2 ==> r == m[i])
            && (pos <= i && 2 * (i - pos) + 1 < j ==>
                  var lo: int, hi: int := s[2 * (i - pos)], s[2 * (i - pos) + 1]; r == lo + 0x100 * hi)
            && (pos <= i && 2 * (i - pos) + 1 == j ==> var lo: int := s[2 * (i - pos)]; r == m[i] / 0x100 * 0x100 + lo)
    decreases j
  {
    if j == 0 {
    } else {
      CopiedAt(m, pos, s, j - 1, i);
    }
  }

  method CopyBytes(msg: array<register>, pos: nat, s: bytes)
    requires pos + (|s| + 1) / 2 <= msg.Length
    modifies msg
    ensures msg[..] == Copied(old(msg[..]), pos, s, |s|)
  {
    ghost var m := msg[..];
    for j := 0 to |s|
      invariant msg[..] == Copied(m, pos, s, j)
    {
      msg[pos + j / 2] := SetByte(msg[pos + j / 2], j % 2 == 1, s[j]);
    }
  }

  /** pack_str */
  method PackStr(msg: array<register>, pos: nat, src: bytes) returns (n: nat)
    requires IdOk(src) && pos + |PackedStr(src)| <= msg.Length
    modifies msg
    ensures n == |PackedStr(src)| && msg[..] == Put(old(msg[..]), pos, PackedStr(src))
  {
    ghost var m := msg[..];
    PairsLength(src);
    var len := |src|;
    if len == 0 {
      msg[pos] := 0;
      return 1;
    }
    var regs := len / 2;
    if 2 * regs < len {
      regs := regs + 1;
    }
    msg[pos] := regs;
    msg[pos + regs] := 0;
    ghost var start := msg[..];
    CopyBytes(msg, pos + 1, src);
    PackedInPlace(m, start, pos, src);
    return regs + 1;
  }

  lemma PackedInPlace(m: registers, start: registers, pos: nat, s: bytes)
    requires IdOk(s) && s != [] && pos + 1 + (|s| + 1) / 2 <= |m|
    requires start == m[pos := (|s| + 1) / 2][pos + (|s| + 1) / 2 := 0]
    ensures |PackedStr(s)| == 1 + (|s| + 1) / 2 && Copied(start, pos + 1, s, |s|) == Put(m, pos, PackedStr(s))
  {
    hide Copied, Pairs, Put;
    PairsLength(s);
    var r := Copied(start, pos + 1, s, |s|);
    var t := Put(m, pos, PackedStr(s));
    PutLength(t, m, PackedStr(s), pos);
    forall i | 0 <= i < |m| ensures r[i] == t[i] {
      PutAt(m, pos, PackedStr(s), i);
      CopiedAt(start, pos + 1, s, |s|, i);
      if pos + 1 <= i < pos + 1 + |Pairs(s)| {
        PairAt(s, i - pos - 1);
      }
    }
  }

  lemma PutLength(rt: registers, m: registers, r: registers, pos: nat)
    requires pos + |r| <= |m| && rt == Put(m, pos, r)
    ensures |rt| == |m|
  {}

  lemma PutAt(m: registers, pos: nat, r: registers, i: nat)
    requires pos + |r| <= |m| && i < |m|
    ensures |Put(m, pos, r)| == |m| && Put(m, pos, r)[i] == if pos <= i < pos + |r| then r[i - pos] else m[i]
  {}

  method PutRegister(msg: array<register>, pos: nat, v: register)
    requires pos < msg.Length
    modifies msg
    ensures msg[..] == Put(old(msg[..]), pos, [v])
  {
    msg[pos] := v;
  }

  /** serialize_db: exactly the image, and how many registers it takes. */
  method SerializeDb(msg: array<register>, db: Db) returns (pos: nat)
    requires DbOk(db) && |Image(db)| <= msg.Length
    modifies msg
    ensures pos == |Image(db)| && msg[..] == Put(old(msg[..]), 0, Image(db))
  {
    hide PackedStr, SealImage, Put;
    ghost var m := msg[..];
    Weights(msg, db);
    pos := WEIGHTS;
    PutRegister(msg, pos, db.carQuality);
    pos := pos + 1;
    PutPut(m, 0, db.weights, [db.carQuality]);
    var n := PackStr(msg, pos, db.carId);
    pos := pos + n;
    ghost var a := db.weights + [db.carQuality];
    PutPut(m, 0, a, PackedStr(db.carId));
    a := a + PackedStr(db.carId);
    PutRegister(msg, pos, |db.seals|);
    pos := pos + 1;
    PutPut(m, 0, a, [|db.seals|]);
    a := a + [|db.seals|];
    pos := Seals(msg, pos, db.seals, m, a);
  }

  method Weights(msg: array<register>, db: Db)
    requires DbOk(db) && WEIGHTS <= msg.Length
    modifies msg
    ensures msg[..] == Put(old(msg[..]), 0, db.weights)
  {
    ghost var m := msg[..];
    for i := 0 to WEIGHTS
      invariant forall j :: 0 <= j < i ==> msg[j] == db.weights[j]
      invariant forall j :: i <= j < msg.Length ==> msg[j] == m[j]
    {
      msg[i] := db.weights[i];
    }
    assert msg[..] == db.weights + m[WEIGHTS..];
  }

  method Seals(msg: array<register>, pos0: nat, seals: seq<Seal>, ghost m: registers, ghost a: registers) returns (pos: nat)
    requires forall s :: s in seals ==> IdOk(s.id)
    requires pos0 == |a| && |m| == msg.Length && |a| + |SealsImage(seals)| <= |m| && msg[..] == Put(m, 0, a)
    modifies msg
    ensures pos == |a| + |SealsImage(seals)| && msg[..] == Put(m, 0, a + SealsImage(seals))
  {
    hide PackedStr, Put;
    pos := pos0;
    ghost var b: registers := a;
    assert seals[0..] == seals;
    for i := 0 to |seals|
      invariant pos == |b| <= |m| && msg[..] == Put(m, 0, b)
      invariant b + SealsImage(seals[i..]) == a + SealsImage(seals)
    {
      var se := seals[i];
      assert seals[i..][1..] == seals[i + 1..];
      assert b + (SealImage(se) + SealsImage(seals[i + 1..])) == b + SealImage(se) + SealsImage(seals[i + 1..]);
      PutRegister(msg, pos, se.num);
      pos := pos + 1;
      PutPut(m, 0, b, [se.num]);
      PutRegister(msg, pos, se.quality);
      pos := pos + 1;
      PutPut(m, 0, b + [se.num], [se.quality]);
      var n := PackStr(msg, pos, se.id);
      pos := pos + n;
      PutPut(m, 0, b + [se.num] + [se.quality], PackedStr(se.id));
      assert b + [se.num] + [se.quality] + PackedStr(se.id) == b + SealImage(se);
      b := b + SealImage(se);
    }
    assert seals[|seals|..] == [];
    assert b == a + SealsImage(seals);
  }

  // ---- function 0x04 ----

  const FUNC_READ: byte := 0x04
  const MDB_BUF_SIZE := 256
  const BYTES_POS := 5
  const REP04_BYTES := 8
  const REP04_REG0 := 9

  /** A read request: the first register and how many. */
  datatype Query = Query(reg0: nat, n: nat)

  predicate Within(q: Query) {
    q.n == 0 || q.reg0 + q.n <= RT_DB_SIZE
  }

  /** The registers that the request asks for. */
  function Stretch(rt: registers, q: Query): (r: registers)
    requires |rt| == RT_DB_SIZE && Within(q)
    ensures |r| == q.n
  {
    if q.n == 0 then [] else rt[q.reg0..q.reg0 + q.n]
  }

  /** What the request in the buffer asks for: only the low byte of the number of registers is looked at. */
  predicate Asks(buf: bytes, q: Query) {
    |buf| == MDB_BUF_SIZE && buf[7] == FUNC_READ && q.n == buf[11]
    && (var hi: int, lo: int := buf[8], buf[9]; q.reg0 == 0x100 * hi + lo)
  }

  /** The reply data: every register with its high byte first. */
  function Wire(r: registers): bytes {
    if r == [] then [] else [r[0] / 0x100, r[0] % 0x100] + Wire(r[1..])
  }

  /** The buffer after the reply to `q` from the registers `rt` has been written over the request. */
  function Reply(buf: bytes, rt: registers, q: Query): bytes
    requires |buf| == MDB_BUF_SIZE && |rt| == RT_DB_SIZE && Within(q)
  {
    WireLength(Stretch(rt, q));
    buf[..BYTES_POS] + [2 * q.n + 3] + buf[BYTES_POS + 1..REP04_BYTES] + [2 * q.n]
    + Wire(Stretch(rt, q)) + buf[REP04_REG0 + 2 * q.n..]
  }

  lemma {:induction false} WireLength(r: registers)
    ensures |Wire(r)| == 2 * |r|
    decreases |r|
  {
    if r == [] {
    } else {
      WireLength(r[1..]);
    }
  }

  lemma {:induction false} WireAppend(r: registers, v: register)
    ensures Wire(r + [v]) == Wire(r) + [v / 0x100, v % 0x100]
    decreases |r|
  {
    if r == [] {
      assert [] + [v] == [v];
    } else {
      assert (r + [v])[1..] == r[1..] + [v];
      WireAppend(r[1..], v);
    }
  }

  /** proc_mdb, function 0x04; `rtDb` is its local array, uninitialised beyond the image. */
  method ProcRead(buf: array<byte>, rtDb: array<register>, db: Db, q: Query) returns (size: nat)
    requires DbOk(db) && rtDb.Length == RT_DB_SIZE && |Image(db)| <= RT_DB_SIZE
    requires buf.Length == MDB_BUF_SIZE && Asks(buf[..], q) && Within(q)
    modifies buf, rtDb
    ensures size == 2 * q.n + 9
    ensures |Put(old(rtDb[..]), 0, Image(db))| == RT_DB_SIZE
    ensures buf[..] == Reply(old(buf[..]), Put(old(rtDb[..]), 0, Image(db)), q)
  {
    hide Image, Put, Wire;
    ghost var buf0 := buf[..];
    var hi: int, lo: int := buf[8], buf[9];
    var reg0 := lo + 0x100 * hi;
    var numRegs: nat := buf[11];
    var len := SerializeDb(rtDb, db);
    ghost var rt := rtDb[..];
    PutLength(rt, old(rtDb[..]), Image(db), 0);
    CopyOut(buf, rtDb, q);
    size := 2 * numRegs;
    buf[REP04_BYTES] := size;
    size := size + 3;
    buf[BYTES_POS] := size;
    size := size + 6;
    WireLength(Stretch(rt, q));
  }

  lemma StretchAt(rt: registers, q: Query, i: nat)
    requires |rt| == RT_DB_SIZE && Within(q) && i < q.n
    ensures q.reg0 + i < RT_DB_SIZE && Stretch(rt, q)[i] == rt[q.reg0 + i]
  {}

  method PutSwapped(buf: array<byte>, b: nat, v: register) returns (hi: byte, lo: byte)
    requires b + 2 <= buf.Length
    modifies buf
    ensures hi == v / 0x100 && lo == v % 0x100
    ensures buf[..] == old(buf[..b]) + [hi, lo] + old(buf[b + 2..])
  {
    hi, lo := v / 0x100, v % 0x100;
    buf[b] := hi;
    buf[b + 1] := lo;
  }

  /** The loop that swaps the bytes of every register into the reply. */
  method CopyOut(buf: array<byte>, rtDb: array<register>, q: Query)
    requires buf.Length == MDB_BUF_SIZE && rtDb.Length == RT_DB_SIZE && Within(q)
    modifies buf
    ensures REP04_REG0 + 2 * q.n <= MDB_BUF_SIZE
    ensures buf[..] == old(buf[..REP04_REG0]) + Wire(Stretch(rtDb[..], q)) + old(buf[REP04_REG0 + 2 * q.n..])
  {
    hide Wire, Stretch;
    ghost var buf0 := buf[..];
    ghost var r := Stretch(rtDb[..], q);
    var b := REP04_REG0;
    assert r[..0] == [];
    WireEmpty();
    for i := 0 to q.n
      invariant b == REP04_REG0 + 2 * i
      invariant buf[..] == buf0[..REP04_REG0] + Wire(r[..i]) + buf0[b..]
    {
      StretchAt(rtDb[..], q, i);
      ghost var before := buf[..];
      var hi, lo := PutSwapped(buf, b, rtDb[q.reg0 + i]);
      WiredOne(before, buf0, r, i, hi, lo);
      b := b + 2;
    }
    assert r[..q.n] == r;
  }

  /** One register, high byte first, behind those that are in the reply already. */
  lemma WiredOne(before: bytes, buf0: bytes, r: registers, i: nat, hi: byte, lo: byte)
    requires i < |r| && hi == r[i] / 0x100 && lo == r[i] % 0x100 && REP04_REG0 + 2 * i + 2 <= |buf0|
    requires before == buf0[..REP04_REG0] + Wire(r[..i]) + buf0[REP04_REG0 + 2 * i..]
    ensures var b := REP04_REG0 + 2 * i;
            && b + 2 <= |before|
            && before[..b] + [hi, lo] + before[b + 2..] == buf0[..REP04_REG0] + Wire(r[..i + 1]) + buf0[b + 2..]
  {
    hide Wire;
    WireLength(r[..i]);
    WireAppend(r[..i], r[i]);
    assert r[..i + 1] == r[..i] + [r[i]];
  }

  lemma WireEmpty()
    ensures Wire([]) == []
  {}

  // ---- the master ----

  /** The registers in a reply, as the master reads them. */
  function FromWire(w: bytes): registers {
    if |w| < 2 then []
    else
      var hi: int, lo: int := w[0], w[1];
      [0x100 * hi + lo] + FromWire(w[2..])
  }

  lemma {:induction false} FromWireBack(r: registers)
    ensures FromWire(Wire(r)) == r
    decreases |r|
  {
    if r == [] {
    } else {
      FromWireBack(r[1..]);
      assert Wire(r)[2..] == Wire(r[1..]);
      assert r == [r[0]] + r[1..];
    }
  }

  function Answer(reply: bytes): registers
    requires |reply| == MDB_BUF_SIZE && REP04_REG0 + (var n: int := reply[REP04_BYTES]; n) <= MDB_BUF_SIZE
  {
    var n: int := reply[REP04_BYTES];
    FromWire(reply[REP04_REG0..REP04_REG0 + n])
  }

  /** The length fields are right, and the answer is the registers that were asked for. */
  lemma ReplyAnswers(buf: bytes, rt: registers, q: Query)
    requires |buf| == MDB_BUF_SIZE && |rt| == RT_DB_SIZE && Within(q)
    ensures var reply := Reply(buf, rt, q);
            && |reply| == MDB_BUF_SIZE && reply[REP04_BYTES] == 2 * q.n && reply[BYTES_POS] == 2 * q.n + 3
            && REP04_REG0 + 2 * q.n <= MDB_BUF_SIZE && Answer(reply) == Stretch(rt, q)
  {
    hide Wire, FromWire, Stretch;
    var r := Stretch(rt, q);
    WireLength(r);
    FromWireBack(r);
    var reply := Reply(buf, rt, q);
    assert reply[REP04_REG0..REP04_REG0 + 2 * q.n] == Wire(r);
  }

  lemma {:induction false} WireAt(r: registers, i: nat)
    requires i < |r|
    ensures |Wire(r)| == 2 * |r| && Wire(r)[2 * i] == r[i] / 0x100 && Wire(r)[2 * i + 1] == r[i] % 0x100
    decreases |r|
  {
    WireLength(r[1..]);
    if i > 0 {
      WireAt(r[1..], i - 1);
    }
  }

  /**
    Byte by byte: length field and byte count, the registers with their high byte first, and everything else
    as the request left it, so transaction, protocol, unit and function code are those of the request.
   */
  lemma ReplyBytes(buf: bytes, rt: registers, q: Query)
    requires |buf| == 256 && |rt| == 120 && Within(q)
    ensures var reply := Reply(buf, rt, q);
            && |reply| == 256 && 9 + 2 * q.n <= 256 && reply[5] == 2 * q.n + 3 && reply[8] == 2 * q.n
            && (forall i :: 0 <= i < q.n ==> reply[9 + 2 * i] == rt[q.reg0 + i] / 0x100 && reply[10 + 2 * i] == rt[q.reg0 + i] % 0x100)
            && (forall i :: 0 <= i < 256 && i != 5 && i != 8 && !(9 <= i < 9 + 2 * q.n) ==> reply[i] == buf[i])
  {
    hide Wire, Stretch;
    var r := Stretch(rt, q);
    WireLength(r);
    var reply := Reply(buf, rt, q);
    forall i | 0 <= i < q.n ensures reply[9 + 2 * i] == rt[q.reg0 + i] / 0x100 && reply[10 + 2 * i] == rt[q.reg0 + i] % 0x100 {
      StretchAt(rt, q, i);
      WireAt(r, i);
      assert reply[9 + 2 * i] == Wire(r)[2 * i] && reply[10 + 2 * i] == Wire(r)[2 * i + 1];
    }
  }

  /** A read request as section 6.4 of MODBUS Application Protocol and its TCP header have it. */
  function Request(transaction: register, unit: byte, reg0: register, n: byte): bytes {
    [transaction / 0x100, transaction % 0x100, 0, 0, 0, 6, unit, 4, reg0 / 0x100, reg0 % 0x100, 0, n]
  }

  /** What a request asks for is what was put into it, and the reply repeats transaction, unit and function. */
  lemma RequestAnswered(transaction: register, unit: byte, reg0: register, n: byte, rest: bytes, rt: registers)
    requires |rest| == 244 && |rt| == 120 && Within(Query(reg0, n))
    ensures var buf := Request(transaction, unit, reg0, n) + rest;
            && (forall q :: Asks(buf, q) <==> q == Query(reg0, n))
            && Reply(buf, rt, Query(reg0, n))[..9] ==
               [transaction / 0x100, transaction % 0x100, 0, 0, 0, 2 * n + 3, unit, 4, 2 * n]
  {
    hide Reply;
    var buf := Request(transaction, unit, reg0, n) + rest;
    ReplyBytes(buf, rt, Query(reg0, n));
    var reply := Reply(buf, rt, Query(reg0, n));
    assert forall i :: 0 <= i < 12 ==> buf[i] == Request(transaction, unit, reg0, n)[i];
    assert reply[..9] == [reply[0], reply[1], reply[2], reply[3], reply[4], reply[5], reply[6], reply[7], reply[8]];
  }

  /** Register `i` from the first answer that covers it. */
  function Gathered(qs: seq<Query>, answers: seq<registers>, i: nat): Option<register>
    requires |qs| == |answers|
  {
    if qs == [] then None
    else if qs[0].reg0 <= i < qs[0].reg0 + qs[0].n && i - qs[0].reg0 < |answers[0]| then Some(answers[0][i - qs[0].reg0])
    else Gathered(qs[1..], answers[1..], i)
  }

  /** The first `len` registers, if every one of them is covered. */
  function Collected(qs: seq<Query>, answers: seq<registers>, len: nat): Option<registers>
    requires |qs| == |answers|
  {
    if len == 0 then Some([])
    else
      match Collected(qs, answers, len - 1)
      case None => None
      case Some(r) =>
        match Gathered(qs, answers, len - 1)
        case None => None
        case Some(v) => Some(r + [v])
  }

  ghost predicate Covered(qs: seq<Query>, i: nat) {
    exists q :: q in qs && q.reg0 <= i < q.reg0 + q.n
  }

  /** The answer agrees with the image wherever it overlaps it. */
  ghost predicate Agrees(image: registers, q: Query, answer: registers) {
    |answer| == q.n && forall i :: q.reg0 <= i < q.reg0 + q.n && i < |image| ==> answer[i - q.reg0] == image[i]
  }

  /**
    What the master gets for one read, whatever the message buffer and the uninitialised memory of proc_mdb
    held: it agrees with the image.
   */
  function Exchange(db: Db, garbage: registers, buf: bytes, q: Query): (answer: registers)
    requires DbOk(db) && |garbage| == RT_DB_SIZE && |Image(db)| <= RT_DB_SIZE && |buf| == MDB_BUF_SIZE && Within(q)
    ensures Agrees(Image(db), q, answer)
  {
    var rt := Put(garbage, 0, Image(db));
    ReplyAnswers(buf, rt, q);
    Answer(Reply(buf, rt, q))
  }

  /** Exactly the covered registers are gathered, those of the image with their value. */
  lemma {:induction false} GatheredRight(qs: seq<Query>, answers: seq<registers>, image: registers, i: nat)
    requires |qs| == |answers| && forall j :: 0 <= j < |qs| ==> Agrees(image, qs[j], answers[j])
    ensures Gathered(qs, answers, i).Some? <==> Covered(qs, i)
    ensures Gathered(qs, answers, i).Some? && i < |image| ==> Gathered(qs, answers, i) == Some(image[i])
    decreases |qs|
  {
    if qs == [] {
    } else {
      assert Agrees(image, qs[0], answers[0]);
      if !(qs[0].reg0 <= i < qs[0].reg0 + qs[0].n) {
        GatheredRight(qs[1..], answers[1..], image, i);
        assert forall q :: q in qs <==> q == qs[0] || q in qs[1..];
      }
    }
  }

  ghost predicate AllCovered(qs: seq<Query>, len: nat) {
    forall i :: 0 <= i < len ==> Covered(qs, i)
  }

  lemma {:induction false} CollectedRight(qs: seq<Query>, answers: seq<registers>, image: registers, len: nat)
    requires |qs| == |answers| && forall j :: 0 <= j < |qs| ==> Agrees(image, qs[j], answers[j])
    ensures var c := Collected(qs, answers, len);
            && (c.Some? <==> AllCovered(qs, len))
            && (c.Some? ==> |c.value| == len && forall i :: 0 <= i < len && i < |image| ==> c.value[i] == image[i])
    decreases len
  {
    hide Gathered, Agrees, Covered;
    if len == 0 {
    } else {
      CollectedRight(qs, answers, image, len - 1);
      GatheredRight(qs, answers, image, len - 1);
      assert AllCovered(qs, len) <==> AllCovered(qs, len - 1) && Covered(qs, len - 1);
    }
  }

  /**
    Any reads, in any order and overlap, give the first registers exactly if they cover them; once these
    are at least as many as the image has, which the master need not know, they read back as the database.
   */
  lemma CoverRebuilds(db: Db, qs: seq<Query>, bufs: seq<bytes>, garbage: seq<registers>, answers: seq<registers>, len: nat)
    requires DbOk(db) && |Image(db)| <= RT_DB_SIZE && |qs| == |bufs| == |garbage| == |answers|
    requires forall j :: 0 <= j < |qs| ==> Within(qs[j]) && |bufs[j]| == MDB_BUF_SIZE && |garbage[j]| == RT_DB_SIZE
    requires forall j :: 0 <= j < |qs| ==> answers[j] == Exchange(db, garbage[j], bufs[j], qs[j])
    ensures var c := Collected(qs, answers, len);
            && (c.Some? <==> AllCovered(qs, len))
            && (c.Some? && |Image(db)| <= len ==>
                  |c.value| == len && ReadDb(c.value) == Some((db, c.value[|Image(db)|..])))
  {
    hide Image, ReadDb, Agrees, AllCovered, DbOk, Exchange, Collected;
    var image := Image(db);
    CollectedRight(qs, answers, image, len);
    var c := Collected(qs, answers, len);
    if c.Some? && |image| <= len {
      assert c.value == image + c.value[|image|..];
      ImageReadsBack(db, c.value[|image|..]);
    }
  }
}
