/** The POSIX `cksum` checksum (protocol/build.rs): the table-driven loop is polynomial division. */
module Crc {
  import opened CrcTable
  import opened Polynomials

  // ----- bit strings, most significant bit first

  function Shift(w: bv32, n: nat): bv32
    decreases n
  {
    if n == 0 then w else Shift(Double(w), n - 1)
  }

  /** The n most significant bits of w. */
  function TopBits(w: bv32, n: nat): (bits: seq<bool>)
    ensures |bits| == n
    decreases n
  {
    if n == 0 then [] else [Top(w)] + TopBits(Double(w), n - 1)
  }

  function ByteWord(x: bv8): bv32 {
    (x as bv32) << 24
  }

  function ByteBits(x: bv8): (bits: seq<bool>)
    ensures |bits| == 8
  {
    TopBits(ByteWord(x), 8)
  }

  function Bits(data: seq<bv8>): (bits: seq<bool>)
    ensures |bits| == 8 * |data|
  {
    if data == [] then [] else ByteBits(data[0]) + Bits(data[1..])
  }

  lemma {:induction false} BitsAppend(a: seq<bv8>, b: seq<bv8>)
    ensures Bits(a + b) == Bits(a) + Bits(b)
  {
    hide ByteBits;
    if a == [] {
      assert a + b == b;
    } else {
      assert (a + b)[1..] == a[1..] + b;
      BitsAppend(a[1..], b);
    }
  }

  lemma BitsOne(x: bv8)
    ensures Bits([x]) == ByteBits(x)
  {
    hide ByteBits;
    assert [x][1..] == [];
  }

  function Zeros(n: nat): (bits: seq<bool>)
    ensures |bits| == n
  {
    seq(n, i => false)
  }

  function Xor(a: seq<bool>, b: seq<bool>): (c: seq<bool>)
    requires |a| == |b|
    ensures |c| == |a|
  {
    seq(|a|, i requires 0 <= i < |a| => a[i] != b[i])
  }

  // ----- the register fed one bit at a time

  /** A message bit enters at the top of the register. */
  function FeedBit(v: bv32, bit: bool): bv32 {
    TimesX(Plus(v, BitWord(bit, X31)))
  }

  function FeedBits(v: bv32, bits: seq<bool>): bv32
    decreases |bits|
  {
    if bits == [] then v else FeedBits(FeedBit(v, bits[0]), bits[1..])
  }

  lemma {:induction false} FeedAppend(v: bv32, a: seq<bool>, b: seq<bool>)
    ensures FeedBits(v, a + b) == FeedBits(FeedBits(v, a), b)
    decreases |a|
  {
    hide FeedBit;
    if a == [] {
      assert a + b == b;
    } else {
      assert (a + b)[1..] == a[1..] + b;
      FeedAppend(FeedBit(v, a[0]), a[1..], b);
    }
  }

  function BelowTop(w: bv32): bv32 {
    w & 0x7fff_ffff
  }

  lemma XorSplitTop(w: bv32)
    ensures w == (w & 0x8000_0000) ^ (w & 0x7fff_ffff)
    ensures (w & 0x7fff_ffff) & 0x8000_0000 == 0 && (w & 0x7fff_ffff) << 1 == w << 1
  {
  }

  lemma TopWord(w: bv32)
    ensures BitWord(Top(w), X31) == w & 0x8000_0000
  {
    XorTop(w, w);
  }

  lemma SplitTop(w: bv32)
    ensures w == Plus(BitWord(Top(w), X31), BelowTop(w))
  {
    hide Top;
    hide BitWord;
    TopWord(w);
    XorSplitTop(w);
  }

  lemma BelowTopFacts(w: bv32)
    ensures !Top(BelowTop(w)) && Double(BelowTop(w)) == Double(w)
  {
    XorSplitTop(w);
  }

  /** Multiplying v + w by x is feeding the top bit of w and keeping the others for later. */
  lemma FeedOneTopBit(v: bv32, w: bv32)
    ensures TimesX(Plus(v, w)) == Plus(FeedBit(v, Top(w)), Double(w))
  {
    hide Plus;
    hide Double;
    hide Top;
    hide TimesX;
    hide BelowTop;
    var t := BitWord(Top(w), X31);
    SplitTop(w);
    BelowTopFacts(w);
    PlusLaws(v, t, BelowTop(w));
    TimesXLinear(Plus(v, t), BelowTop(w));
    TimesXCases(BelowTop(w));
    PlusLaws(Double(w), 0, 0);
  }

  lemma {:induction false} FeedTopBits(v: bv32, w: bv32, n: nat)
    ensures Plus(FeedBits(v, TopBits(w, n)), Shift(w, n)) == Times(Plus(v, w), n)
    decreases n
  {
    hide Plus;
    hide Double;
    hide Top;
    hide TimesX;
    hide FeedBit;
    if n == 0 {
    } else {
      FeedOneTopBit(v, w);
      FeedTopBits(FeedBit(v, Top(w)), Double(w), n - 1);
      assert TopBits(w, n)[1..] == TopBits(Double(w), n - 1);
    }
  }

  // ----- one table step is eight bits

  function TableIndex(v: bv32, x: bv8): bv32 {
    (x as bv32) ^ (v >> 24)
  }

  lemma TableIndexInRange(v: bv32, x: bv8)
    ensures TableIndex(v, x) < 256
  {
  }

  lemma XorSplitByte(v: bv32, x: bv8)
    ensures v ^ ((x as bv32) << 24) == (v & 0x00ff_ffff) ^ (((x as bv32) ^ (v >> 24)) << 24)
    ensures (v & 0x00ff_ffff) & 0xff00_0000 == 0 && (v & 0x00ff_ffff) << 8 == v << 8
  {
  }

  lemma SplitByte(v: bv32, x: bv8)
    ensures Plus(v, ByteWord(x)) == Plus(v & 0x00ff_ffff, TableIndex(v, x) << 24)
  {
    calc {
      Plus(v, ByteWord(x));
      v ^ ((x as bv32) << 24);
      { XorSplitByte(v, x); }
      (v & 0x00ff_ffff) ^ (((x as bv32) ^ (v >> 24)) << 24);
      Plus(v & 0x00ff_ffff, TableIndex(v, x) << 24);
    }
  }

  function Double8(w: bv32): bv32 {
    Double(Double(Double(Double(Double(Double(Double(Double(w))))))))
  }

  lemma Double8Shifts(w: bv32)
    ensures Double8(w) == w << 8
  {
  }

  lemma LowBytesStayBelowTop(u: bv32)
    requires u & 0xff00_0000 == 0
    ensures u & 0x8000_0000 == 0 && (u << 1) & 0x8000_0000 == 0 && (u << 1 << 1) & 0x8000_0000 == 0
    ensures (u << 1 << 1 << 1) & 0x8000_0000 == 0 && (u << 1 << 1 << 1 << 1) & 0x8000_0000 == 0
    ensures (u << 1 << 1 << 1 << 1 << 1) & 0x8000_0000 == 0
    ensures (u << 1 << 1 << 1 << 1 << 1 << 1) & 0x8000_0000 == 0
    ensures (u << 1 << 1 << 1 << 1 << 1 << 1 << 1) & 0x8000_0000 == 0
  {
  }

  lemma TimesXBelowTop(u: bv32)
    requires u & 0x8000_0000 == 0
    ensures TimesX(u) == u << 1
  {
  }

  lemma TimesX8Low(u: bv32)
    requires u & 0xff00_0000 == 0
    ensures TimesX8(u) == u << 8
  {
    LowBytesStayBelowTop(u);
    TimesXBelowTop(u);
    TimesXBelowTop(u << 1);
    TimesXBelowTop(u << 1 << 1);
    TimesXBelowTop(u << 1 << 1 << 1);
    TimesXBelowTop(u << 1 << 1 << 1 << 1);
    TimesXBelowTop(u << 1 << 1 << 1 << 1 << 1);
    TimesXBelowTop(u << 1 << 1 << 1 << 1 << 1 << 1);
    TimesXBelowTop(u << 1 << 1 << 1 << 1 << 1 << 1 << 1);
    hide TimesX;
    Double8Shifts(u);
  }

  lemma Shift8(w: bv32)
    ensures Shift(w, 8) == w << 8
  {
    hide Double;
    Double8Shifts(w);
  }

  lemma ByteWordShiftsOut(x: bv8)
    ensures ByteWord(x) << 8 == 0
  {
  }

  /** Feeding the eight bits of a byte is adding it at the top and multiplying by x^8. */
  lemma FeedByte(v: bv32, x: bv8)
    ensures FeedBits(v, ByteBits(x)) == TimesX8(Plus(v, ByteWord(x)))
  {
    hide Plus;
    hide ByteWord;
    FeedTopBits(v, ByteWord(x), 8);
    Shift8(ByteWord(x));
    ByteWordShiftsOut(x);
    PlusLaws(FeedBits(v, ByteBits(x)), 0, 0);
    Times8(Plus(v, ByteWord(x)));
  }

  /** The table form of a step is the division of the eight bits of a byte. */
  lemma TableStepIsDivision(v: bv32, x: bv8)
    ensures TableIndex(v, x) as int < |CRC_LOOKUP_ARRAY|
    ensures Plus(v << 8, CRC_LOOKUP_ARRAY[TableIndex(v, x) as int]) == FeedBits(v, ByteBits(x))
  {
    hide Plus;
    hide ByteBits;
    hide TimesX8;
    hide TableIndex;
    hide ByteWord;
    var k := TableIndex(v, x);
    TableIndexInRange(v, x);
    TableEntry(k);
    FeedByte(v, x);
    SplitByte(v, x);
    XorSplitByte(v, x);
    TimesX8Linear(v & 0x00ff_ffff, k << 24);
    TimesX8Low(v & 0x00ff_ffff);
  }

  // ----- the reference: long division of the message times x^32

  /** The next dividend bit comes down at the low end of the remainder. */
  function BringDown(r: bv32, bit: bool): bv32 {
    Plus(TimesX(r), BitWord(bit, 1))
  }

  function Divide(r: bv32, bits: seq<bool>): bv32
    decreases |bits|
  {
    if bits == [] then r else Divide(BringDown(r, bits[0]), bits[1..])
  }

  function Remainder(bits: seq<bool>): bv32 {
    Divide(0, bits)
  }

  lemma {:induction false} DivideAppend(r: bv32, a: seq<bool>, b: seq<bool>)
    ensures Divide(r, a + b) == Divide(Divide(r, a), b)
    decreases |a|
  {
    hide BringDown;
    if a == [] {
      assert a + b == b;
    } else {
      assert (a + b)[1..] == a[1..] + b;
      DivideAppend(BringDown(r, a[0]), a[1..], b);
    }
  }

  lemma BringDownZero(r: bv32)
    ensures BringDown(r, false) == TimesX(r)
  {
    hide Plus;
    hide TimesX;
    PlusLaws(TimesX(r), 0, 0);
  }

  lemma {:induction false} DivideZeros(r: bv32, n: nat)
    ensures Divide(r, Zeros(n)) == Times(r, n)
    decreases n
  {
    hide TimesX;
    hide BringDown;
    if n == 0 {
    } else {
      BringDownZero(r);
      assert Zeros(n)[1..] == Zeros(n - 1);
      DivideZeros(TimesX(r), n - 1);
    }
  }

  lemma TimesX8Literals()
    ensures TimesX8(1) == 0x100 && TimesX8(0x100) == 0x1_0000 && TimesX8(0x1_0000) == 0x100_0000
  {
    TimesX8Low(1);
    TimesX8Low(0x100);
    TimesX8Low(0x1_0000);
  }

  lemma TimesX8TopByte()
    ensures TimesX8(0x100_0000) == TimesX(X31)
  {
  }

  /** x^32 is what feeding a single bit leaves. */
  lemma X32()
    ensures Times(1, 32) == TimesX(X31)
  {
    hide TimesX8;
    TimesX8Literals();
    TimesX8TopByte();
    TimesAdd(1, 8, 24);
    TimesAdd(0x100, 8, 16);
    TimesAdd(0x1_0000, 8, 8);
    Times8(1);
    Times8(0x100);
    Times8(0x1_0000);
    Times8(0x100_0000);
  }

  lemma TimesZero(n: nat)
    ensures Times(0, n) == 0
    decreases n
  {
    hide Plus;
    hide TimesX;
    TimesLinear(0, 0, n);
    PlusLaws(0, 0, 0);
    PlusLaws(Times(0, n), 0, 0);
  }

  lemma FeedIsDelayedBringDown(r: bv32, bit: bool)
    ensures Times(BringDown(r, bit), 32) == FeedBit(Times(r, 32), bit)
  {
    hide Plus;
    hide TimesX;
    var b := BitWord(bit, 1);
    TimesLinear(TimesX(r), b, 32);
    TimesAdd(r, 32, 1);
    TimesAdd(r, 1, 32);
    assert Times(TimesX(r), 32) == TimesX(Times(r, 32));
    TimesXLinear(Times(r, 32), BitWord(bit, X31));
    X32();
    TimesZero(32);
    TimesZero(1);
  }

  lemma {:induction false} FeedIsDelayedDivide(r: bv32, bits: seq<bool>)
    ensures Times(Divide(r, bits), 32) == FeedBits(Times(r, 32), bits)
    decreases |bits|
  {
    hide BringDown;
    hide FeedBit;
    if bits == [] {
    } else {
      FeedIsDelayedBringDown(r, bits[0]);
      FeedIsDelayedDivide(BringDown(r, bits[0]), bits[1..]);
    }
  }

  /** Feeding bits at the top divides the message followed by thirty-two zeros. */
  lemma FeedIsRemainder(bits: seq<bool>)
    ensures FeedBits(0, bits) == Remainder(bits + Zeros(32))
  {
    hide BringDown;
    hide FeedBit;
    TimesZero(32);
    FeedIsDelayedDivide(0, bits);
    DivideZeros(Divide(0, bits), 32);
    DivideAppend(0, bits, Zeros(32));
  }

  // ----- the checksum

  /** The length of the input, least significant octet first, as many octets as it needs. */
  function LengthOctets(n: nat): seq<bv8> {
    if n == 0 then [] else [(n % 256) as bv8] + LengthOctets(n / 256)
  }

  function Complement(v: bv32): bv32 {
    !v
  }

  function Checksum(data: seq<bv8>): bv32 {
    Complement(Remainder(Bits(data + LengthOctets(|data|)) + Zeros(32)))
  }

  method Cksum(data: seq<bv8>) returns (checksum: bv32)
    ensures checksum == Checksum(data)
  {
    hide FeedBit;
    hide Plus;
    hide ByteBits;
    var value: bv32 := 0;
    for i := 0 to |data|
      invariant value == FeedBits(0, Bits(data[..i]))
    {
      TableStepIsDivision(value, data[i]);
      FeedSnoc(data[..i], data[i]);
      assert data[..i + 1] == data[..i] + [data[i]];
      value := Plus(value << 8, CRC_LOOKUP_ARRAY[TableIndex(value, data[i]) as int]);
    }
    assert data[..|data|] == data;

    ghost var message := FeedBits(0, Bits(data + LengthOctets(|data|)));
    BitsAppend(data, LengthOctets(|data|));
    FeedAppend(0, Bits(data), Bits(LengthOctets(|data|)));
    var n: nat := |data|;
    while n != 0
      invariant FeedBits(value, Bits(LengthOctets(n))) == message
    {
      var x := (n % 256) as bv8;
      TableStepIsDivision(value, x);
      assert LengthOctets(n)[1..] == LengthOctets(n / 256);
      FeedAppend(value, ByteBits(x), Bits(LengthOctets(n / 256)));
      value := Plus(value << 8, CRC_LOOKUP_ARRAY[TableIndex(value, x) as int]);
      n := n / 256;
    }

    FeedIsRemainder(Bits(data + LengthOctets(|data|)));
    return Complement(value);
  }

  lemma FeedSnoc(data: seq<bv8>, x: bv8)
    ensures FeedBits(0, Bits(data + [x])) == FeedBits(FeedBits(0, Bits(data)), ByteBits(x))
  {
    hide FeedBit;
    hide ByteBits;
    BitsAppend(data, [x]);
    BitsOne(x);
    FeedAppend(0, Bits(data), ByteBits(x));
  }
}
