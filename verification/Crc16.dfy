/** The CRC-16 of libpack: a table-driven loop over the bytes, and what it means bit by bit. */
module Crc16 {

  // ---- the definition: reflected division, one bit at a time ----

  /** One division step: the low bit leaves, and the reflected polynomial 0x8005 is subtracted if it was set. */
  function Divide(c: bv16): bv16 {
    if c & 1 == 1 then (c >> 1) ^ 0xa001 else c >> 1
  }

  function DivideByte(c: bv16): bv16 {
    Divide(Divide(Divide(Divide(Divide(Divide(Divide(Divide(c))))))))
  }

  function Xor(a: bv16, b: bv16): bv16 {
    a ^ b
  }

  function Wide(data: bv8): bv16 {
    data as bv16
  }

  /** A byte is added at the low end, and eight bits are divided out. */
  function BitStep(c: bv16, data: bv8): bv16 {
    DivideByte(Xor(c, Wide(data)))
  }

  function BitCrc(c: bv16, s: seq<bv8>): bv16
    decreases |s|
  {
    if s == [] then c else BitCrc(BitStep(c, s[0]), s[1..])
  }

  // ---- the code: a table lookup per byte ----

  function Table00(i: bv8): bv16 {
    match i
    case 0x00 => 0x0000 case 0x01 => 0xc0c1 case 0x02 => 0xc181 case 0x03 => 0x0140
    case 0x04 => 0xc301 case 0x05 => 0x03c0 case 0x06 => 0x0280 case 0x07 => 0xc241
    case 0x08 => 0xc601 case 0x09 => 0x06c0 case 0x0a => 0x0780 case 0x0b => 0xc741
    case 0x0c => 0x0500 case 0x0d => 0xc5c1 case 0x0e => 0xc481 case 0x0f => 0x0440
    case 0x10 => 0xcc01 case 0x11 => 0x0cc0 case 0x12 => 0x0d80 case 0x13 => 0xcd41
    case 0x14 => 0x0f00 case 0x15 => 0xcfc1 case 0x16 => 0xce81 case 0x17 => 0x0e40
    case 0x18 => 0x0a00 case 0x19 => 0xcac1 case 0x1a => 0xcb81 case 0x1b => 0x0b40
    case 0x1c => 0xc901 case 0x1d => 0x09c0 case 0x1e => 0x0880 case _ => 0xc841
  }

  function Table20(i: bv8): bv16 {
    match i
    case 0x20 => 0xd801 case 0x21 => 0x18c0 case 0x22 => 0x1980 case 0x23 => 0xd941
    case 0x24 => 0x1b00 case 0x25 => 0xdbc1 case 0x26 => 0xda81 case 0x27 => 0x1a40
    case 0x28 => 0x1e00 case 0x29 => 0xdec1 case 0x2a => 0xdf81 case 0x2b => 0x1f40
    case 0x2c => 0xdd01 case 0x2d => 0x1dc0 case 0x2e => 0x1c80 case 0x2f => 0xdc41
    case 0x30 => 0x1400 case 0x31 => 0xd4c1 case 0x32 => 0xd581 case 0x33 => 0x1540
    case 0x34 => 0xd701 case 0x35 => 0x17c0 case 0x36 => 0x1680 case 0x37 => 0xd641
    case 0x38 => 0xd201 case 0x39 => 0x12c0 case 0x3a => 0x1380 case 0x3b => 0xd341
    case 0x3c => 0x1100 case 0x3d => 0xd1c1 case 0x3e => 0xd081 case _ => 0x1040
  }

  function Table40(i: bv8): bv16 {
    match i
    case 0x40 => 0xf001 case 0x41 => 0x30c0 case 0x42 => 0x3180 case 0x43 => 0xf141
    case 0x44 => 0x3300 case 0x45 => 0xf3c1 case 0x46 => 0xf281 case 0x47 => 0x3240
    case 0x48 => 0x3600 case 0x49 => 0xf6c1 case 0x4a => 0xf781 case 0x4b => 0x3740
    case 0x4c => 0xf501 case 0x4d => 0x35c0 case 0x4e => 0x3480 case 0x4f => 0xf441
    case 0x50 => 0x3c00 case 0x51 => 0xfcc1 case 0x52 => 0xfd81 case 0x53 => 0x3d40
    case 0x54 => 0xff01 case 0x55 => 0x3fc0 case 0x56 => 0x3e80 case 0x57 => 0xfe41
    case 0x58 => 0xfa01 case 0x59 => 0x3ac0 case 0x5a => 0x3b80 case 0x5b => 0xfb41
    case 0x5c => 0x3900 case 0x5d => 0xf9c1 case 0x5e => 0xf881 case _ => 0x3840
  }

  function Table60(i: bv8): bv16 {
    match i
    case 0x60 => 0x2800 case 0x61 => 0xe8c1 case 0x62 => 0xe981 case 0x63 => 0x2940
    case 0x64 => 0xeb01 case 0x65 => 0x2bc0 case 0x66 => 0x2a80 case 0x67 => 0xea41
    case 0x68 => 0xee01 case 0x69 => 0x2ec0 case 0x6a => 0x2f80 case 0x6b => 0xef41
    case 0x6c => 0x2d00 case 0x6d => 0xedc1 case 0x6e => 0xec81 case 0x6f => 0x2c40
    case 0x70 => 0xe401 case 0x71 => 0x24c0 case 0x72 => 0x2580 case 0x73 => 0xe541
    case 0x74 => 0x2700 case 0x75 => 0xe7c1 case 0x76 => 0xe681 case 0x77 => 0x2640
    case 0x78 => 0x2200 case 0x79 => 0xe2c1 case 0x7a => 0xe381 case 0x7b => 0x2340
    case 0x7c => 0xe101 case 0x7d => 0x21c0 case 0x7e => 0x2080 case _ => 0xe041
  }

  function Table80(i: bv8): bv16 {
    match i
    case 0x80 => 0xa001 case 0x81 => 0x60c0 case 0x82 => 0x6180 case 0x83 => 0xa141
    case 0x84 => 0x6300 case 0x85 => 0xa3c1 case 0x86 => 0xa281 case 0x87 => 0x6240
    case 0x88 => 0x6600 case 0x89 => 0xa6c1 case 0x8a => 0xa781 case 0x8b => 0x6740
    case 0x8c => 0xa501 case 0x8d => 0x65c0 case 0x8e => 0x6480 case 0x8f => 0xa441
    case 0x90 => 0x6c00 case 0x91 => 0xacc1 case 0x92 => 0xad81 case 0x93 => 0x6d40
    case 0x94 => 0xaf01 case 0x95 => 0x6fc0 case 0x96 => 0x6e80 case 0x97 => 0xae41
    case 0x98 => 0xaa01 case 0x99 => 0x6ac0 case 0x9a => 0x6b80 case 0x9b => 0xab41
    case 0x9c => 0x6900 case 0x9d => 0xa9c1 case 0x9e => 0xa881 case _ => 0x6840
  }

  function TableA0(i: bv8): bv16 {
    match i
    case 0xa0 => 0x7800 case 0xa1 => 0xb8c1 case 0xa2 => 0xb981 case 0xa3 => 0x7940
    case 0xa4 => 0xbb01 case 0xa5 => 0x7bc0 case 0xa6 => 0x7a80 case 0xa7 => 0xba41
    case 0xa8 => 0xbe01 case 0xa9 => 0x7ec0 case 0xaa => 0x7f80 case 0xab => 0xbf41
    case 0xac => 0x7d00 case 0xad => 0xbdc1 case 0xae => 0xbc81 case 0xaf => 0x7c40
    case 0xb0 => 0xb401 case 0xb1 => 0x74c0 case 0xb2 => 0x7580 case 0xb3 => 0xb541
    case 0xb4 => 0x7700 case 0xb5 => 0xb7c1 case 0xb6 => 0xb681 case 0xb7 => 0x7640
    case 0xb8 => 0x7200 case 0xb9 => 0xb2c1 case 0xba => 0xb381 case 0xbb => 0x7340
    case 0xbc => 0xb101 case 0xbd => 0x71c0 case 0xbe => 0x7080 case _ => 0xb041
  }

  function TableC0(i: bv8): bv16 {
    match i
    case 0xc0 => 0x5000 case 0xc1 => 0x90c1 case 0xc2 => 0x9181 case 0xc3 => 0x5140
    case 0xc4 => 0x9301 case 0xc5 => 0x53c0 case 0xc6 => 0x5280 case 0xc7 => 0x9241
    case 0xc8 => 0x9601 case 0xc9 => 0x56c0 case 0xca => 0x5780 case 0xcb => 0x9741
    case 0xcc => 0x5500 case 0xcd => 0x95c1 case 0xce => 0x9481 case 0xcf => 0x5440
    case 0xd0 => 0x9c01 case 0xd1 => 0x5cc0 case 0xd2 => 0x5d80 case 0xd3 => 0x9d41
    case 0xd4 => 0x5f00 case 0xd5 => 0x9fc1 case 0xd6 => 0x9e81 case 0xd7 => 0x5e40
    case 0xd8 => 0x5a00 case 0xd9 => 0x9ac1 case 0xda => 0x9b81 case 0xdb => 0x5b40
    case 0xdc => 0x9901 case 0xdd => 0x59c0 case 0xde => 0x5880 case _ => 0x9841
  }

  function TableE0(i: bv8): bv16 {
    match i
    case 0xe0 => 0x8801 case 0xe1 => 0x48c0 case 0xe2 => 0x4980 case 0xe3 => 0x8941
    case 0xe4 => 0x4b00 case 0xe5 => 0x8bc1 case 0xe6 => 0x8a81 case 0xe7 => 0x4a40
    case 0xe8 => 0x4e00 case 0xe9 => 0x8ec1 case 0xea => 0x8f81 case 0xeb => 0x4f40
    case 0xec => 0x8d01 case 0xed => 0x4dc0 case 0xee => 0x4c80 case 0xef => 0x8c41
    case 0xf0 => 0x4400 case 0xf1 => 0x84c1 case 0xf2 => 0x8581 case 0xf3 => 0x4540
    case 0xf4 => 0x8701 case 0xf5 => 0x47c0 case 0xf6 => 0x4680 case 0xf7 => 0x8641
    case 0xf8 => 0x8201 case 0xf9 => 0x42c0 case 0xfa => 0x4380 case 0xfb => 0x8341
    case 0xfc => 0x4100 case 0xfd => 0x81c1 case 0xfe => 0x8081 case _ => 0x4040
  }

  /** crc16_table */
  function Table(i: bv8): bv16 {
    if i < 0x20 then Table00(i)
    else if i < 0x40 then Table20(i)
    else if i < 0x60 then Table40(i)
    else if i < 0x80 then Table60(i)
    else if i < 0xa0 then Table80(i)
    else if i < 0xc0 then TableA0(i)
    else if i < 0xe0 then TableC0(i)
    else TableE0(i)
  }

  function High(c: bv16): bv16 {
    c >> 8
  }

  function Low(c: bv16): bv8 {
    (c & 0xff) as bv8
  }

  /** crc16_byte */
  function CrcByte(crc: bv16, data: bv8): bv16 {
    Xor(High(crc), Table(Low(Xor(crc, Wide(data)))))
  }

  // ---- the table is the division of its index ----

  /** The division step without a branch. */
  function Mask(c: bv16): bv16 {
    (c >> 1) ^ ((c & 1) << 15) ^ ((c & 1) << 13) ^ (c & 1)
  }

  function MaskTwice(c: bv16): bv16 {
    Mask(Mask(c))
  }

  function MaskFour(c: bv16): bv16 {
    MaskTwice(MaskTwice(c))
  }

  function MaskByte(c: bv16): bv16 {
    MaskFour(MaskFour(c))
  }

  lemma MaskDivides(c: bv16)
    ensures Mask(c) == Divide(c)
  {
    if c & 1 != 1 {
      assert c & 1 == 0;
    }
  }

  lemma MaskByteDivides(c: bv16)
    ensures MaskByte(c) == DivideByte(c)
  {
    hide Mask, Divide;
    var c1 := Mask(c);
    var c2 := Mask(c1);
    var c3 := Mask(c2);
    var c4 := Mask(c3);
    var c5 := Mask(c4);
    var c6 := Mask(c5);
    var c7 := Mask(c6);
    MaskDivides(c);
    MaskDivides(c1);
    MaskDivides(c2);
    MaskDivides(c3);
    MaskDivides(c4);
    MaskDivides(c5);
    MaskDivides(c6);
    MaskDivides(c7);
  }

  lemma Divides00(i: bv8)
    requires i < 0x20
    ensures Table00(i) == MaskByte(Wide(i))
  {}

  lemma Divides20(i: bv8)
    requires 0x20 <= i < 0x40
    ensures Table20(i) == MaskByte(Wide(i))
  {}

  lemma Divides40(i: bv8)
    requires 0x40 <= i < 0x60
    ensures Table40(i) == MaskByte(Wide(i))
  {}

  lemma Divides60(i: bv8)
    requires 0x60 <= i < 0x80
    ensures Table60(i) == MaskByte(Wide(i))
  {}

  lemma Divides80(i: bv8)
    requires 0x80 <= i < 0xa0
    ensures Table80(i) == MaskByte(Wide(i))
  {}

  lemma DividesA0(i: bv8)
    requires 0xa0 <= i < 0xc0
    ensures TableA0(i) == MaskByte(Wide(i))
  {}

  lemma DividesC0(i: bv8)
    requires 0xc0 <= i < 0xe0
    ensures TableC0(i) == MaskByte(Wide(i))
  {}

  lemma DividesE0(i: bv8)
    requires 0xe0 <= i
    ensures TableE0(i) == MaskByte(Wide(i))
  {}

  lemma TableDivides(i: bv8)
    ensures Table(i) == DivideByte(Wide(i))
  {
    hide DivideByte, MaskByte, Table00, Table20, Table40, Table60, Table80, TableA0, TableC0, TableE0;
    MaskByteDivides(Wide(i));
    if i < 0x20 {
      Divides00(i);
    } else if i < 0x40 {
      Divides20(i);
    } else if i < 0x60 {
      Divides40(i);
    } else if i < 0x80 {
      Divides60(i);
    } else if i < 0xa0 {
      Divides80(i);
    } else if i < 0xc0 {
      DividesA0(i);
    } else if i < 0xe0 {
      DividesC0(i);
    } else {
      DividesE0(i);
    }
  }

  // ---- linearity ----

  lemma MaskXor(a: bv16, b: bv16)
    ensures Mask(Xor(a, b)) == Xor(Mask(a), Mask(b))
  {}

  lemma MaskTwiceXor(a: bv16, b: bv16)
    ensures MaskTwice(Xor(a, b)) == Xor(MaskTwice(a), MaskTwice(b))
  {
    hide Mask, Xor;
    MaskXor(a, b);
    MaskXor(Mask(a), Mask(b));
  }

  lemma MaskFourXor(a: bv16, b: bv16)
    ensures MaskFour(Xor(a, b)) == Xor(MaskFour(a), MaskFour(b))
  {
    hide MaskTwice, Xor;
    MaskTwiceXor(a, b);
    MaskTwiceXor(MaskTwice(a), MaskTwice(b));
  }

  /** Division is linear over exclusive or. */
  lemma DivideByteXor(a: bv16, b: bv16)
    ensures DivideByte(Xor(a, b)) == Xor(DivideByte(a), DivideByte(b))
  {
    hide DivideByte, MaskFour, Xor;
    MaskFourXor(a, b);
    MaskFourXor(MaskFour(a), MaskFour(b));
    MaskByteDivides(a);
    MaskByteDivides(b);
    MaskByteDivides(Xor(a, b));
  }

  /** Sixteen bits from two bytes. */
  function Word(high: bv8, low: bv8): bv16 {
    ((high as bv16) << 8) ^ (low as bv16)
  }

  lemma MaskTwiceShifts(c: bv16)
    requires c & 3 == 0
    ensures MaskTwice(c) == c >> 2
  {}

  /** Nothing is subtracted while the low bits are clear. */
  lemma DivideByteShifts(high: bv8)
    ensures DivideByte(Word(high, 0)) == Wide(high)
  {
    var c := Word(high, 0);
    var c2, c4, c6 := c >> 2, c >> 4, c >> 6;
    Clear(high);
    MaskTwiceShifts(c);
    MaskTwiceShifts(c2);
    MaskTwiceShifts(c4);
    MaskTwiceShifts(c6);
    hide MaskTwice, DivideByte, Word, Wide;
    MaskByteDivides(c);
  }

  lemma Clear(high: bv8)
    ensures var c := Word(high, 0);
            && c & 3 == 0 && (c >> 2) & 3 == 0 && (c >> 4) & 3 == 0 && (c >> 6) & 3 == 0
            && (c >> 2) >> 2 == c >> 4 && (c >> 4) >> 2 == c >> 6 && (c >> 6) >> 2 == Wide(high)
  {}

  lemma Split(x: bv16)
    ensures Xor(Word(Low(High(x)), 0), Wide(Low(x))) == x
  {}

  lemma HighKept(crc: bv16, data: bv8)
    ensures High(Xor(crc, Wide(data))) == High(crc)
  {}

  lemma WideLow(x: bv16)
    ensures Wide(Low(High(x))) == High(x)
  {}

  /** The table lookup does eight division steps. */
  lemma ByteIsBits(crc: bv16, data: bv8)
    ensures CrcByte(crc, data) == BitStep(crc, data)
  {
    hide Table, DivideByte, Xor, Low, High, Wide, Word;
    var x := Xor(crc, Wide(data));
    var h := Low(High(x));
    Split(x);
    TableDivides(Low(x));
    DivideByteXor(Word(h, 0), Wide(Low(x)));
    DivideByteShifts(h);
    WideLow(x);
    HighKept(crc, data);
  }

  // ---- the loop ----

  /** crc16: byte by byte over the buffer. */
  method Crc(crc0: bv16, buffer: array<bv8>, len0: nat) returns (crc: bv16)
    requires len0 <= buffer.Length
    ensures crc == BitCrc(crc0, buffer[..len0])
  {
    hide BitStep, CrcByte;
    crc := crc0;
    var len, at := len0, 0;
    assert buffer[0..len0] == buffer[..len0];
    while len != 0
      invariant at + len == len0 && BitCrc(crc, buffer[at..len0]) == BitCrc(crc0, buffer[..len0])
      decreases len
    {
      len := len - 1;
      ByteIsBits(crc, buffer[at]);
      assert buffer[at..len0][1..] == buffer[at + 1..len0];
      crc := CrcByte(crc, buffer[at]);
      at := at + 1;
    }
  }

  // ---- what the checksum means ----

  /** The checksum of a message in two parts: the second part continues from the first. */
  lemma {:induction false} CrcConcat(c: bv16, s: seq<bv8>, t: seq<bv8>)
    ensures BitCrc(c, s + t) == BitCrc(BitCrc(c, s), t)
    decreases |s|
  {
    hide BitStep;
    if s == [] {
      assert s + t == t;
    } else {
      assert (s + t)[1..] == s[1..] + t;
      CrcConcat(BitStep(c, s[0]), s[1..], t);
    }
  }

  function Xor8(a: bv8, b: bv8): bv8 {
    a ^ b
  }

  function XorAll(s: seq<bv8>, t: seq<bv8>): seq<bv8>
    requires |s| == |t|
  {
    if s == [] then [] else [Xor8(s[0], t[0])] + XorAll(s[1..], t[1..])
  }

  lemma XorMixed(a: bv16, b: bv16, x: bv8, y: bv8)
    ensures Xor(Xor(a, b), Wide(Xor8(x, y))) == Xor(Xor(a, Wide(x)), Xor(b, Wide(y)))
  {}

  lemma StepXor(a: bv16, b: bv16, x: bv8, y: bv8)
    ensures BitStep(Xor(a, b), Xor8(x, y)) == Xor(BitStep(a, x), BitStep(b, y))
  {
    hide Xor, Xor8, Wide, DivideByte;
    XorMixed(a, b, x, y);
    DivideByteXor(Xor(a, Wide(x)), Xor(b, Wide(y)));
  }

  /** From register zero, the checksum is linear: the difference of two messages has the difference of their checksums. */
  lemma {:induction false} CrcXor(a: bv16, b: bv16, s: seq<bv8>, t: seq<bv8>)
    requires |s| == |t|
    ensures BitCrc(Xor(a, b), XorAll(s, t)) == Xor(BitCrc(a, s), BitCrc(b, t))
    decreases |s|
  {
    hide Xor, Xor8, BitStep;
    if s == [] {
    } else {
      StepXor(a, b, s[0], t[0]);
      CrcXor(BitStep(a, s[0]), BitStep(b, t[0]), s[1..], t[1..]);
      assert XorAll(s, t)[1..] == XorAll(s[1..], t[1..]);
    }
  }

  // ---- nothing is lost in the register ----

  /** The division step backwards. */
  function Unmask(c: bv16): bv16 {
    ((c ^ ((c >> 15) << 13) ^ (c >> 15)) << 1) | (c >> 15)
  }

  lemma UnmaskMask(c: bv16)
    ensures Unmask(Mask(c)) == c
  {}

  lemma DivideInjective(a: bv16, b: bv16)
    requires Divide(a) == Divide(b)
    ensures a == b
  {
    hide Divide, Mask, Unmask;
    MaskDivides(a);
    MaskDivides(b);
    UnmaskMask(a);
    UnmaskMask(b);
  }

  lemma DivideByteInjective(a: bv16, b: bv16)
    requires DivideByte(a) == DivideByte(b)
    ensures a == b
  {
    hide Divide;
    var a1, b1 := Divide(a), Divide(b);
    var a2, b2 := Divide(a1), Divide(b1);
    var a3, b3 := Divide(a2), Divide(b2);
    var a4, b4 := Divide(a3), Divide(b3);
    var a5, b5 := Divide(a4), Divide(b4);
    var a6, b6 := Divide(a5), Divide(b5);
    var a7, b7 := Divide(a6), Divide(b6);
    DivideInjective(a7, b7);
    DivideInjective(a6, b6);
    DivideInjective(a5, b5);
    DivideInjective(a4, b4);
    DivideInjective(a3, b3);
    DivideInjective(a2, b2);
    DivideInjective(a1, b1);
    DivideInjective(a, b);
  }

  lemma XorInjective(a: bv16, b: bv16, x: bv16)
    requires Xor(a, x) == Xor(b, x)
    ensures a == b
  {
    assert (a ^ x) ^ x == a;
    assert (b ^ x) ^ x == b;
  }

  /** The same bytes after different registers give different checksums. */
  lemma {:induction false} CrcInjective(a: bv16, b: bv16, s: seq<bv8>)
    requires BitCrc(a, s) == BitCrc(b, s)
    ensures a == b
    decreases |s|
  {
    hide DivideByte, Xor, Wide;
    if s == [] {
    } else {
      CrcInjective(BitStep(a, s[0]), BitStep(b, s[0]), s[1..]);
      DivideByteInjective(Xor(a, Wide(s[0])), Xor(b, Wide(s[0])));
      XorInjective(a, b, Wide(s[0]));
    }
  }

  /** Two steps are one exclusive or with both bytes, divided sixteen times. */
  lemma TwoSteps(c: bv16, x: bv8, y: bv8)
    ensures BitStep(BitStep(c, x), y) == DivideByte(DivideByte(Xor(c, Word(y, x))))
  {
    hide DivideByte, Xor, Word, Wide;
    DivideByteShifts(y);
    DivideByteXor(Xor(c, Wide(x)), Word(y, 0));
    WordParts(c, x, y);
  }

  lemma WordParts(c: bv16, x: bv8, y: bv8)
    ensures Xor(Xor(c, Wide(x)), Word(y, 0)) == Xor(c, Word(y, x))
  {}

  lemma XorCancel(c: bv16, u: bv16, v: bv16)
    requires Xor(c, u) == Xor(c, v)
    ensures u == v
  {
    assert c ^ (c ^ u) == u;
    assert c ^ (c ^ v) == v;
  }

  lemma WordBytes(high: bv8, low: bv8)
    ensures Low(Word(high, low)) == low && Low(High(Word(high, low))) == high
  {}

  /** Messages that differ only within two adjacent bytes never have the same checksum. */
  lemma TwoByteErrorsDetected(c: bv16, p: seq<bv8>, x: bv8, y: bv8, x': bv8, y': bv8, q: seq<bv8>)
    requires (x, y) != (x', y')
    ensures BitCrc(c, p + [x, y] + q) != BitCrc(c, p + [x', y'] + q)
  {
    hide DivideByte, Xor, Word, BitStep, Low, High;
    var r := BitCrc(c, p);
    CrcConcat(c, p + [x, y], q);
    CrcConcat(c, p, [x, y]);
    CrcConcat(c, p + [x', y'], q);
    CrcConcat(c, p, [x', y']);
    PairSteps(r, x, y);
    PairSteps(r, x', y');
    var u, v := Xor(r, Word(y, x)), Xor(r, Word(y', x'));
    if BitCrc(c, p + [x, y] + q) == BitCrc(c, p + [x', y'] + q) {
      CrcInjective(BitCrc(r, [x, y]), BitCrc(r, [x', y']), q);
      DivideByteInjective(DivideByte(u), DivideByte(v));
      DivideByteInjective(u, v);
      XorCancel(r, Word(y, x), Word(y', x'));
      WordBytes(y, x);
      WordBytes(y', x');
    }
  }

  lemma PairSteps(r: bv16, x: bv8, y: bv8)
    ensures BitCrc(r, [x, y]) == DivideByte(DivideByte(Xor(r, Word(y, x))))
  {
    hide DivideByte, Xor, Word, BitStep;
    assert [x, y][1..] == [y] && [y][1..] == [];
    assert BitCrc(BitStep(r, x), [y]) == BitCrc(BitStep(BitStep(r, x), y), []);
    TwoSteps(r, x, y);
  }

  // ---- parity ----

  predicate LowBit(c: bv16) {
    c & 1 == 1
  }

  function Half(c: bv16): bv16 {
    c >> 1
  }

  /** An odd number of the low `n` bits is set. */
  predicate OddOf(c: bv16, n: nat) {
    if n == 0 then false else LowBit(c) != OddOf(Half(c), n - 1)
  }

  predicate Odd(c: bv16) {
    OddOf(c, 16)
  }

  predicate OddAll(s: seq<bv8>) {
    if s == [] then false else Odd(Wide(s[0])) != OddAll(s[1..])
  }

  lemma LowBitXor(a: bv16, b: bv16)
    ensures LowBit(Xor(a, b)) <==> LowBit(a) != LowBit(b)
  {
    assert (a ^ b) & 1 == (a & 1) ^ (b & 1);
    assert a & 1 == 0 || a & 1 == 1;
    assert b & 1 == 0 || b & 1 == 1;
  }

  lemma HalfXor(a: bv16, b: bv16)
    ensures Half(Xor(a, b)) == Xor(Half(a), Half(b))
  {}

  lemma {:induction false} OddXor(a: bv16, b: bv16, n: nat)
    ensures OddOf(Xor(a, b), n) <==> OddOf(a, n) != OddOf(b, n)
    decreases n
  {
    hide Xor, LowBit, Half;
    if n == 0 {
    } else {
      LowBitXor(a, b);
      HalfXor(a, b);
      OddXor(Half(a), Half(b), n - 1);
    }
  }

  lemma OddFour(c: bv16, n: nat)
    ensures OddOf(c, n + 4) <==> LowBit(c) != (LowBit(c >> 1) != (LowBit(c >> 2) != (LowBit(c >> 3) != OddOf(c >> 4, n))))
  {
    assert Half(c) == c >> 1 && Half(c >> 1) == c >> 2 && Half(c >> 2) == c >> 3 && Half(c >> 3) == c >> 4;
    hide Half, LowBit;
    assert OddOf(c, n + 4) == (LowBit(c) != OddOf(c >> 1, n + 3));
    assert OddOf(c >> 1, n + 3) == (LowBit(c >> 1) != OddOf(c >> 2, n + 2));
    assert OddOf(c >> 2, n + 2) == (LowBit(c >> 2) != OddOf(c >> 3, n + 1));
    assert OddOf(c >> 3, n + 1) == (LowBit(c >> 3) != OddOf(c >> 4, n));
  }

  /** The bit that leaves, and the polynomial subtracted for it: three bits, so the parity of one. */
  lemma SpreadOdd()
    ensures Odd(0xa001) && !Odd(0)
  {
    OddFour(0xa001, 12);
    OddFour(0x0a00, 8);
    OddFour(0x00a0, 4);
    OddFour(0x000a, 0);
    OddFour(0, 12);
    OddFour(0, 8);
    OddFour(0, 4);
    OddFour(0, 0);
  }

  /** A bit that is clear does not count. */
  lemma TopClear(c: bv16)
    requires c <= 7
    ensures OddOf(c, 4) == OddOf(c, 3)
  {
    assert Half(c) == c >> 1 && Half(c >> 1) == c >> 2 && Half(c >> 2) == c >> 3 == 0 && !LowBit(0);
    hide Half, LowBit;
    assert OddOf(c, 4) == (LowBit(c) != OddOf(c >> 1, 3));
    assert OddOf(c >> 1, 3) == (LowBit(c >> 1) != OddOf(c >> 2, 2));
    assert OddOf(c >> 2, 2) == (LowBit(c >> 2) != OddOf(0, 1));
    assert OddOf(c, 3) == (LowBit(c) != OddOf(c >> 1, 2));
    assert OddOf(c >> 1, 2) == (LowBit(c >> 1) != OddOf(c >> 2, 1));
    assert OddOf(c >> 2, 1) == (LowBit(c >> 2) != OddOf(0, 0));
    assert OddOf(0, 1) == (LowBit(0) != OddOf(Half(0), 0));
  }

  lemma SameFour(c: bv16, d: bv16, m: nat, n: nat)
    requires d == c >> 4 && OddOf(d, m) == OddOf(d, n)
    ensures OddOf(c, m + 4) == OddOf(c, n + 4)
  {
    hide LowBit, OddOf;
    OddFour(c, m);
    OddFour(c, n);
  }

  lemma HalfShifts(h: bv16)
    ensures (h >> 4) >> 4 == h >> 8 && (h >> 8) >> 4 == h >> 12
  {}

  lemma HalfTop(c: bv16)
    ensures Half(c) >> 12 <= 7
  {}

  /** Dropping the low bit drops its parity. */
  lemma HalfOdd(c: bv16)
    ensures Odd(Half(c)) <==> Odd(c) != LowBit(c)
  {
    var h := Half(c);
    HalfShifts(h);
    HalfTop(c);
    var h4, h8, h12 := h >> 4, h >> 8, h >> 12;
    TopClear(h12);
    SameFour(h8, h12, 4, 3);
    SameFour(h4, h8, 8, 7);
    SameFour(h, h4, 12, 11);
    hide LowBit, Half;
    assert OddOf(c, 16) == (LowBit(c) != OddOf(h, 15));
  }

  lemma MaskOdd(c: bv16)
    ensures Odd(Mask(c)) <==> Odd(c)
  {
    var spread: bv16 := if LowBit(c) then 0xa001 else 0;
    MaskSplits(c, spread);
    hide Mask, Half, LowBit, Xor;
    OddXor(Half(c), spread, 16);
    HalfOdd(c);
    SpreadOdd();
  }

  lemma MaskSplits(c: bv16, spread: bv16)
    requires spread == if LowBit(c) then 0xa001 else 0
    ensures Mask(c) == Xor(Half(c), spread)
  {
    hide Mask;
    MaskDivides(c);
    if LowBit(c) {
      assert Divide(c) == (c >> 1) ^ 0xa001;
    } else {
      assert (c >> 1) ^ 0 == c >> 1;
    }
  }

  lemma StepOdd(c: bv16, x: bv8)
    ensures Odd(BitStep(c, x)) <==> Odd(c) != Odd(Wide(x))
  {
    hide Xor, Wide, Mask, Odd;
    var d := Xor(c, Wide(x));
    MaskByteDivides(d);
    MaskTwiceOdd(d);
    MaskTwiceOdd(MaskTwice(d));
    MaskTwiceOdd(MaskTwice(MaskTwice(d)));
    MaskTwiceOdd(MaskTwice(MaskTwice(MaskTwice(d))));
    assert Odd(d) <==> Odd(c) != Odd(Wide(x)) by {
      OddSum(c, Wide(x));
    }
  }

  lemma OddSum(a: bv16, b: bv16)
    ensures Odd(Xor(a, b)) <==> Odd(a) != Odd(b)
  {
    hide Xor;
    OddXor(a, b, 16);
  }

  lemma MaskTwiceOdd(c: bv16)
    ensures Odd(MaskTwice(c)) <==> Odd(c)
  {
    hide Mask, Odd;
    MaskOdd(c);
    MaskOdd(Mask(c));
  }

  /** The checksum has the parity of the register and the message together. */
  lemma {:induction false} CrcParity(c: bv16, s: seq<bv8>)
    ensures Odd(BitCrc(c, s)) <==> Odd(c) != OddAll(s)
    decreases |s|
  {
    hide BitStep, Odd, Wide;
    if s == [] {
    } else {
      StepOdd(c, s[0]);
      CrcParity(BitStep(c, s[0]), s[1..]);
    }
  }

  /** Messages of different parity, as after any odd number of flipped bits, have different checksums. */
  lemma OddErrorsDetected(c: bv16, s: seq<bv8>, t: seq<bv8>)
    requires OddAll(s) != OddAll(t)
    ensures BitCrc(c, s) != BitCrc(c, t)
  {
    hide Odd;
    CrcParity(c, s);
    CrcParity(c, t);
  }
}
