/**
  Burst errors: the checksum seen as a register that takes one bit after the other, in the order in which
  the bits of a byte are divided out, the lowest first.
 */
module CrcBursts {
  import opened Crc16

  function BitOf(b: bool): bv16 {
    if b then 1 else 0
  }

  function FeedBits(c: bv16, bits: seq<bool>): bv16
    decreases |bits|
  {
    if bits == [] then c else FeedBits(Divide(Xor(c, BitOf(bits[0]))), bits[1..])
  }

  /** The low `n` bits, the lowest first. */
  function LowBits(x: bv16, n: nat): (r: seq<bool>)
    ensures |r| == n
    decreases n
  {
    if n == 0 then [] else [LowBit(x)] + LowBits(Half(x), n - 1)
  }

  function Bits(s: seq<bv8>): (r: seq<bool>)
    ensures |r| == 8 * |s|
  {
    if s == [] then [] else LowBits(Wide(s[0]), 8) + Bits(s[1..])
  }

  // ---- a byte is eight bits ----

  function Times(c: bv16, n: nat): bv16
    decreases n
  {
    if n == 0 then c else Times(Divide(c), n - 1)
  }

  function Halved(x: bv16, n: nat): bv16
    decreases n
  {
    if n == 0 then x else Halved(Half(x), n - 1)
  }

  /** Bits above the lowest one only move down. */
  lemma DivideAdd(c: bv16, x: bv16)
    ensures Divide(Xor(c, x)) == Xor(Divide(Xor(c, BitOf(LowBit(x)))), Half(x))
  {
    var b := BitOf(LowBit(x));
    LowBitIs(x);
    MaskAdd(c, x, b);
    hide Divide, Mask, Xor, Half;
    MaskDivides(Xor(c, x));
    MaskDivides(Xor(c, b));
  }

  lemma LowBitIs(x: bv16)
    ensures BitOf(LowBit(x)) == x & 1
  {
    assert x & 1 == 0 || x & 1 == 1;
  }

  lemma MaskAdd(c: bv16, x: bv16, b: bv16)
    requires b == x & 1
    ensures Mask(Xor(c, x)) == Xor(Mask(Xor(c, b)), Half(x))
  {}

  /** A number of `n` bits that is added at once is added bit by bit. */
  lemma {:induction false} AddedAtOnce(c: bv16, x: bv16, n: nat)
    requires Halved(x, n) == 0
    ensures Times(Xor(c, x), n) == FeedBits(c, LowBits(x, n))
    decreases n
  {
    if n == 0 {
      NothingAdded(c);
    } else {
      hide Divide, Xor, Half, LowBit, BitOf;
      var bits := LowBits(x, n);
      DivideAdd(c, x);
      AddedAtOnce(Divide(Xor(c, BitOf(LowBit(x)))), Half(x), n - 1);
      assert bits[0] == LowBit(x) && bits[1..] == LowBits(Half(x), n - 1);
    }
  }

  lemma NothingAdded(c: bv16)
    ensures Xor(c, 0) == c
  {}

  lemma ByteHalved(x: bv8)
    ensures Halved(Wide(x), 8) == 0
  {
    var w := Wide(x);
    var w2, w4, w6 := w >> 2, w >> 4, w >> 6;
    HalvedTwice(w, 6);
    HalvedTwice(w2, 4);
    HalvedTwice(w4, 2);
    HalvedTwice(w6, 0);
    ByteShifts(x);
  }

  lemma ByteShifts(x: bv8)
    ensures var w := Wide(x);
            (w >> 2) >> 2 == w >> 4 && (w >> 4) >> 2 == w >> 6 && (w >> 6) >> 2 == 0
  {}

  lemma HalvedTwice(w: bv16, n: nat)
    ensures Halved(w, n + 2) == Halved(w >> 2, n)
  {
    assert Half(Half(w)) == w >> 2;
    hide Half;
    assert Halved(w, n + 2) == Halved(Half(w), n + 1);
  }

  lemma EightTimes(c: bv16)
    ensures Times(c, 8) == DivideByte(c)
  {
    hide Divide;
    var c1 := Divide(c);
    var c2 := Divide(c1);
    var c3 := Divide(c2);
    var c4 := Divide(c3);
    var c5 := Divide(c4);
    var c6 := Divide(c5);
    var c7 := Divide(c6);
    assert Times(c, 8) == Times(c1, 7) == Times(c2, 6) == Times(c3, 5) == Times(c4, 4);
    assert Times(c4, 4) == Times(c5, 3) == Times(c6, 2) == Times(c7, 1) == Divide(c7);
  }

  lemma StepIsBits(c: bv16, x: bv8)
    ensures BitStep(c, x) == FeedBits(c, LowBits(Wide(x), 8))
  {
    hide Xor, Wide, DivideByte, Times, Halved, FeedBits, LowBits;
    ByteHalved(x);
    AddedAtOnce(c, Wide(x), 8);
    EightTimes(Xor(c, Wide(x)));
  }

  lemma {:induction false} FeedConcat(c: bv16, a: seq<bool>, b: seq<bool>)
    ensures FeedBits(c, a + b) == FeedBits(FeedBits(c, a), b)
    decreases |a|
  {
    hide Divide, Xor, BitOf;
    if a == [] {
      assert a + b == b;
    } else {
      assert (a + b)[1..] == a[1..] + b;
      FeedConcat(Divide(Xor(c, BitOf(a[0]))), a[1..], b);
    }
  }

  /** The checksum of the bytes is what the register holds after their bits. */
  lemma {:induction false} CrcIsBits(c: bv16, s: seq<bv8>)
    ensures BitCrc(c, s) == FeedBits(c, Bits(s))
    decreases |s|
  {
    hide BitStep, FeedBits, LowBits, Wide;
    if s == [] {
      NothingFed(c);
    } else {
      StepIsBits(c, s[0]);
      CrcIsBits(BitStep(c, s[0]), s[1..]);
      FeedConcat(c, LowBits(Wide(s[0]), 8), Bits(s[1..]));
    }
  }

  lemma NothingFed(c: bv16)
    ensures FeedBits(c, []) == c
  {}

  // ---- differences ----

  function XorBits(a: seq<bool>, b: seq<bool>): (r: seq<bool>)
    requires |a| == |b|
    ensures |r| == |a| && forall i :: 0 <= i < |a| ==> r[i] == (a[i] != b[i])
  {
    seq(|a|, i requires 0 <= i < |a| => a[i] != b[i])
  }

  lemma BitStepXor(c: bv16, d: bv16, x: bool, y: bool)
    ensures Divide(Xor(Xor(c, d), BitOf(x != y))) == Xor(Divide(Xor(c, BitOf(x))), Divide(Xor(d, BitOf(y))))
  {
    var u, v := Xor(c, BitOf(x)), Xor(d, BitOf(y));
    BitsMixed(c, d, x, y);
    hide Divide, Mask, Xor, BitOf;
    MaskXor(u, v);
    MaskDivides(u);
    MaskDivides(v);
    MaskDivides(Xor(u, v));
  }

  lemma BitsMixed(c: bv16, d: bv16, x: bool, y: bool)
    ensures Xor(Xor(c, d), BitOf(x != y)) == Xor(Xor(c, BitOf(x)), Xor(d, BitOf(y)))
  {
    BitOfXor(x, y);
    hide BitOf;
    FourMixed(c, d, BitOf(x), BitOf(y));
  }

  lemma BitOfXor(x: bool, y: bool)
    ensures BitOf(x != y) == Xor(BitOf(x), BitOf(y))
  {}

  lemma FourMixed(c: bv16, d: bv16, p: bv16, q: bv16)
    ensures Xor(Xor(c, d), Xor(p, q)) == Xor(Xor(c, p), Xor(d, q))
  {
    hide Xor;
    XorAssociates(c, d, Xor(p, q));
    XorAssociates(d, p, q);
    XorCommutes(d, p);
    XorAssociates(p, d, q);
    XorAssociates(c, p, Xor(d, q));
  }

  lemma XorAssociates(a: bv16, b: bv16, c: bv16)
    ensures Xor(Xor(a, b), c) == Xor(a, Xor(b, c))
  {}

  lemma XorCommutes(a: bv16, b: bv16)
    ensures Xor(a, b) == Xor(b, a)
  {}

  /** Two registers differ, after two texts, by what their difference becomes after the difference of the texts. */
  lemma {:induction false} FeedXor(c: bv16, d: bv16, a: seq<bool>, b: seq<bool>)
    requires |a| == |b|
    ensures FeedBits(Xor(c, d), XorBits(a, b)) == Xor(FeedBits(c, a), FeedBits(d, b))
    decreases |a|
  {
    hide Divide, Xor, BitOf;
    if a == [] {
    } else {
      BitStepXor(c, d, a[0], b[0]);
      assert XorBits(a, b)[1..] == XorBits(a[1..], b[1..]);
      FeedXor(Divide(Xor(c, BitOf(a[0]))), Divide(Xor(d, BitOf(b[0]))), a[1..], b[1..]);
    }
  }

  lemma SelfXor(c: bv16)
    ensures Xor(c, c) == 0
  {}

  lemma {:induction false} FeedInjective(c: bv16, d: bv16, a: seq<bool>)
    requires FeedBits(c, a) == FeedBits(d, a)
    ensures c == d
    decreases |a|
  {
    hide Divide, Xor, BitOf;
    if a == [] {
    } else {
      var b := BitOf(a[0]);
      FeedInjective(Divide(Xor(c, b)), Divide(Xor(d, b)), a[1..]);
      DivideInjective(Xor(c, b), Xor(d, b));
      XorInjective(c, d, b);
    }
  }

  // ---- bursts ----

  /** Two to the power of `m`. */
  function Unit(m: nat): bv16
    requires m < 16
  {
    match m
    case 0 => 0x0001 case 1 => 0x0002 case 2 => 0x0004 case 3 => 0x0008
    case 4 => 0x0010 case 5 => 0x0020 case 6 => 0x0040 case 7 => 0x0080
    case 8 => 0x0100 case 9 => 0x0200 case 10 => 0x0400 case 11 => 0x0800
    case 12 => 0x1000 case 13 => 0x2000 case 14 => 0x4000 case _ => 0x8000
  }

  /** Less than two to the power of `m`. */
  predicate Below(c: bv16, m: nat)
    requires m < 16
  {
    c < Unit(m)
  }

  /** The polynomial sets the highest bit; without it the register only moves down. */
  lemma HighBitSet(x: bv16)
    ensures Divide(x) < 0x8000 ==> Divide(x) == Half(x)
  {
    assert x & 1 == 1 ==> (x >> 1) ^ 0xa001 >= 0x8000;
  }

  lemma HalfIgnoresBit(c: bv16, b: bool)
    ensures Half(Xor(c, BitOf(b))) == Half(c)
  {}

  lemma UnitBelowTop(m: nat)
    requires m < 15
    ensures Unit(m) <= 0x8000
  {}

  lemma Doubled(c: bv16, m: nat)
    requires 0 < m < 16 && Half(c) < Unit(m - 1)
    ensures c < Unit(m)
  {}

  /** A small register after a step was at most twice as large before. */
  lemma SmallBefore(c: bv16, b: bool, m: nat)
    requires 0 < m < 16 && Below(Divide(Xor(c, BitOf(b))), m - 1)
    ensures Below(c, m)
  {
    hide Divide, Xor, BitOf, Half, Unit;
    UnitBelowTop(m - 1);
    HighBitSet(Xor(c, BitOf(b)));
    HalfIgnoresBit(c, b);
    Doubled(c, m);
  }

  /** A register that at most fifteen bits can bring back to zero is small. */
  lemma {:induction false} SmallIfCleared(c: bv16, bits: seq<bool>)
    requires |bits| < 16 && FeedBits(c, bits) == 0
    ensures Below(c, |bits|)
    decreases |bits|
  {
    hide Divide, Xor, BitOf, Below;
    if bits == [] {
      ZeroBelow(c);
    } else {
      SmallIfCleared(Divide(Xor(c, BitOf(bits[0]))), bits[1..]);
      SmallBefore(c, bits[0], |bits|);
    }
  }

  lemma ZeroBelow(c: bv16)
    ensures c == 0 ==> Below(c, 0)
  {}

  lemma FirstBit()
    ensures Divide(Xor(0, BitOf(true))) == 0xa001 && Divide(Xor(0, BitOf(false))) == 0
  {}

  lemma UnitBound(m: nat)
    requires m < 16
    ensures !Below(0xa001, m)
  {}

  /** From zero, at most sixteen bits that are not all clear leave something in the register. */
  lemma {:induction false} BurstStays(bits: seq<bool>)
    requires |bits| <= 16 && true in bits
    ensures FeedBits(0, bits) != 0
    decreases |bits|
  {
    hide Divide, Xor, BitOf, Below;
    FirstBit();
    var rest := bits[1..];
    if bits[0] {
      if FeedBits(0xa001, rest) == 0 {
        SmallIfCleared(0xa001, rest);
        UnitBound(|rest|);
      }
    } else {
      assert bits == [false] + rest;
      BurstStays(rest);
    }
  }

  /** Messages of bits that differ only within sixteen bits in a row never have the same checksum. */
  lemma BurstDetected(c: bv16, u: seq<bool>, e: seq<bool>, e': seq<bool>, v: seq<bool>)
    requires |e| == |e'| <= 16 && e != e'
    ensures FeedBits(c, u + e + v) != FeedBits(c, u + e' + v)
  {
    hide FeedBits;
    var r := FeedBits(c, u);
    FeedConcat(c, u + e, v);
    FeedConcat(c, u, e);
    FeedConcat(c, u + e', v);
    FeedConcat(c, u, e');
    if FeedBits(c, u + e + v) == FeedBits(c, u + e' + v) {
      FeedInjective(FeedBits(r, e), FeedBits(r, e'), v);
      FeedXor(r, r, e, e');
      SelfXor(r);
      SelfXor(FeedBits(r, e));
      var i :| 0 <= i < |e| && e[i] != e'[i];
      assert XorBits(e, e')[i];
      BurstStays(XorBits(e, e'));
    }
  }

  /** The two messages differ at most in the sixteen bits from bit `i` on, whatever byte they are in. */
  ghost predicate DifferWithin(s: seq<bv8>, t: seq<bv8>, i: nat)
    requires |s| == |t|
  {
    forall k :: 0 <= k < |Bits(s)| && !(i <= k < i + 16) ==> Bits(s)[k] == Bits(t)[k]
  }

  /** Every burst of at most sixteen bits, also one that spans three bytes, changes the checksum. */
  lemma BurstErrorsDetected(c: bv16, s: seq<bv8>, t: seq<bv8>, i: nat)
    requires |s| == |t| && s != t && DifferWithin(s, t, i)
    ensures BitCrc(c, s) != BitCrc(c, t)
  {
    hide FeedBits, Bits;
    var a, b := Bits(s), Bits(t);
    if a == b {
      BitsInjective(s, t);
    }
    var n := |a|;
    var f := if i < n then i else n;
    var g := if i + 16 < n then i + 16 else n;
    assert a == a[..f] + a[f..g] + a[g..] && b == b[..f] + b[f..g] + b[g..];
    assert a[..f] == b[..f] && a[g..] == b[g..];
    CrcIsBits(c, s);
    CrcIsBits(c, t);
    BurstDetected(c, a[..f], a[f..g], b[f..g], a[g..]);
  }

  /** Seventeen bits can cancel: these two messages differ in a burst of that length and have the same checksum. */
  lemma LongerBurstMissed(c: bv16)
    ensures BitCrc(c, [0x03, 0x40, 0x01]) == BitCrc(c, [0, 0, 0])
  {
    var s: seq<bv8>, t: seq<bv8> := [0, 0, 0], [0x03, 0x40, 0x01];
    PolynomialCancels(t);
    assert XorAll(s, t) == t by {
      assert s[1..] == [0, 0] && t[1..] == [0x40, 0x01] && s[1..][1..] == [0] && t[1..][1..] == [0x01];
      assert XorAll([0], [0x01]) == [0x01];
      assert XorAll([0, 0], [0x40, 0x01]) == [0x40, 0x01];
    }
    CrcXor(c, 0, s, t);
    ZeroAdded(c, BitCrc(c, s));
  }

  lemma ZeroAdded(c: bv16, d: bv16)
    ensures Xor(c, 0) == c && Xor(d, 0) == d
  {}

  lemma PolynomialCancels(t: seq<bv8>)
    requires t == [0x03, 0x40, 0x01]
    ensures BitCrc(0, t) == 0
  {
    ByteIsBits(0, 0x03);
    ByteIsBits(0x0140, 0x40);
    ByteIsBits(0x0001, 0x01);
    assert CrcByte(0, 0x03) == 0x0140 && CrcByte(0x0140, 0x40) == 0x0001 && CrcByte(0x0001, 0x01) == 0;
    hide BitStep, CrcByte;
    assert t[1..] == [0x40, 0x01] && t[1..][1..] == [0x01] && t[1..][1..][1..] == [];
    assert BitCrc(0x0001, [0x01]) == 0;
    assert BitCrc(0x0140, [0x40, 0x01]) == 0;
  }

  lemma {:induction false} BitsInjective(s: seq<bv8>, t: seq<bv8>)
    requires |s| == |t| && Bits(s) == Bits(t)
    ensures s == t
    decreases |s|
  {
    if s == [] {
    } else {
      hide LowBits, Wide;
      var a, b := LowBits(Wide(s[0]), 8), LowBits(Wide(t[0]), 8);
      assert a == Bits(s)[..8] && b == Bits(t)[..8];
      assert Bits(s)[8..] == Bits(s[1..]) && Bits(t)[8..] == Bits(t[1..]);
      ByteOfBits(s[0], t[0]);
      BitsInjective(s[1..], t[1..]);
    }
  }

  lemma ByteOfBits(x: bv8, y: bv8)
    requires LowBits(Wide(x), 8) == LowBits(Wide(y), 8)
    ensures x == y
  {
    hide Wide, LowBits, Half;
    forall k | 0 <= k < 8 ensures LowBit(Halved(Wide(x), k)) == LowBit(Halved(Wide(y), k)) {
      LowBitsAt(Wide(x), 8, k);
      LowBitsAt(Wide(y), 8, k);
    }
    ByteHalved(x);
    ByteHalved(y);
    SameBits(Wide(x), Wide(y), 8);
    WideInjective(x, y);
  }

  lemma WideInjective(x: bv8, y: bv8)
    requires Wide(x) == Wide(y)
    ensures x == y
  {}

  lemma {:induction false} LowBitsAt(x: bv16, n: nat, k: nat)
    requires k < n
    ensures LowBits(x, n)[k] == LowBit(Halved(x, k))
    decreases k
  {
    hide LowBit, Half;
    if k == 0 {
    } else {
      LowBitsAt(Half(x), n - 1, k - 1);
    }
  }

  /** Numbers of `n` bits with the same bits are the same. */
  lemma {:induction false} SameBits(x: bv16, y: bv16, n: nat)
    requires Halved(x, n) == 0 && Halved(y, n) == 0
    requires forall k :: 0 <= k < n ==> LowBit(Halved(x, k)) == LowBit(Halved(y, k))
    ensures x == y
    decreases n
  {
    hide LowBit, Half;
    if n == 0 {
    } else {
      forall k | 0 <= k < n - 1 ensures LowBit(Halved(Half(x), k)) == LowBit(Halved(Half(y), k)) {
        assert LowBit(Halved(x, k + 1)) == LowBit(Halved(y, k + 1));
      }
      SameBits(Half(x), Half(y), n - 1);
      assert LowBit(Halved(x, 0)) == LowBit(Halved(y, 0));
      HalfAndBit(x, y);
    }
  }

  lemma HalfAndBit(x: bv16, y: bv16)
    requires Half(x) == Half(y) && LowBit(x) == LowBit(y)
    ensures x == y
  {
    LowBitIs(x);
    LowBitIs(y);
    assert x == (x >> 1 << 1) | (x & 1);
    assert y == (y >> 1 << 1) | (y & 1);
  }
}
