/** What the checksum of protocol/build.rs means: it is the POSIX polynomial remainder, and it catches every burst. */
module CrcTheory {
  import opened Bytes
  import opened Crc
  import opened Polynomials

  // ----- shifting words out

  lemma {:induction false} ShiftAdd(w: bv32, m: nat, n: nat)
    ensures Shift(w, m + n) == Shift(Shift(w, m), n)
    decreases m
  {
    hide Double;
    if m == 0 {
    } else {
      ShiftAdd(Double(w), m - 1, n);
    }
  }

  lemma Shift24(w: bv32)
    ensures Shift(w, 24) == w << 8 << 8 << 8
  {
    hide Double;
    Shift8(w);
    Shift8(w << 8);
    Shift8(w << 8 << 8);
    ShiftAdd(w, 8, 16);
    ShiftAdd(w << 8, 8, 8);
  }

  lemma EverythingShiftsOut(w: bv32)
    ensures w << 8 << 8 << 8 << 8 == 0
  {
  }

  lemma Shift32(w: bv32)
    ensures Shift(w, 32) == 0
  {
    ShiftAdd(w, 24, 8);
    Shift24(w);
    Shift8(w << 8 << 8 << 8);
    EverythingShiftsOut(w);
  }

  lemma {:induction false} ShiftZero(n: nat)
    ensures Shift(0, n) == 0
    decreases n
  {
    if n == 0 {
    } else {
      assert Double(0) == 0;
      ShiftZero(n - 1);
    }
  }

  lemma OddReachesTop(w: bv32)
    requires Low(w)
    ensures Double(Double(Double(Double(Double(Double(Double(w << 8 << 8 << 8))))))) != 0
  {
  }

  lemma Shift7(w: bv32)
    ensures Shift(w, 7) == Double(Double(Double(Double(Double(Double(Double(w)))))))
  {
    hide Double;
    assert Shift(w, 7) == Shift(Double(Double(Double(w))), 4);
    assert Shift(Double(Double(Double(w))), 4) == Shift(Double(Double(Double(Double(Double(w))))), 2);
  }

  /** An odd word is not shifted out in fewer than thirty-two steps. */
  lemma OddSurvives(w: bv32, n: nat)
    requires Low(w) && n <= 31
    ensures Shift(w, n) != 0
  {
    hide Double;
    hide Low;
    hide Shift;
    ShiftAdd(w, n, 31 - n);
    ShiftZero(31 - n);
    ShiftAdd(w, 24, 7);
    Shift24(w);
    Shift7(w << 8 << 8 << 8);
    OddReachesTop(w);
  }

  lemma DoubleInjective(u: bv32, w: bv32)
    requires Top(u) == Top(w) && Double(u) == Double(w)
    ensures u == w
  {
  }

  lemma {:induction false} TopBitsInjective(u: bv32, w: bv32, n: nat)
    requires TopBits(u, n) == TopBits(w, n) && Shift(u, n) == Shift(w, n)
    ensures u == w
    decreases n
  {
    hide Double;
    hide Top;
    if n == 0 {
    } else {
      assert TopBits(u, n)[0] == Top(u) && TopBits(w, n)[0] == Top(w);
      assert TopBits(u, n)[1..] == TopBits(Double(u), n - 1) && TopBits(w, n)[1..] == TopBits(Double(w), n - 1);
      TopBitsInjective(Double(u), Double(w), n - 1);
      DoubleInjective(u, w);
    }
  }

  // ----- bursts

  lemma PolynomialOdd(bit: bool)
    ensures Low(BitWord(bit, POLYNOMIAL)) == bit
    ensures Double(BitWord(bit, X31)) == 0
  {
  }

  /** A multiple of x that lost its top term would be odd. */
  lemma EvenMultiple(d: bv32)
    requires !Low(TimesX(d))
    ensures !Top(d) && TimesX(d) == Double(d)
  {
    hide TimesX;
    hide Plus;
    hide Low;
    hide Top;
    hide Double;
    TimesXCases(d);
    LowPlus(Double(d), BitWord(Top(d), POLYNOMIAL));
    DoubleEven(d);
    PolynomialOdd(Top(d));
    PlusLaws(Double(d), 0, 0);
  }

  lemma FeedDifference(v: bv32, w: bv32, a: bool, b: bool)
    ensures Plus(FeedBit(v, a), FeedBit(w, b)) == TimesX(Plus(Plus(v, w), BitWord(a != b, X31)))
  {
    hide Plus;
    hide TimesX;
    hide BitWord;
    TimesXLinear(Plus(v, BitWord(a, X31)), Plus(w, BitWord(b, X31)));
    PlusSwap(v, BitWord(a, X31), w, BitWord(b, X31));
    BitWordPlus(a, b, X31);
  }

  lemma EvenFeed(v: bv32, w: bv32, a: bool, b: bool)
    requires !Low(Plus(FeedBit(v, a), FeedBit(w, b)))
    ensures Plus(FeedBit(v, a), FeedBit(w, b)) == Double(Plus(v, w))
  {
    hide Plus;
    hide TimesX;
    hide BitWord;
    hide FeedBit;
    hide Low;
    hide Double;
    var t := BitWord(a != b, X31);
    FeedDifference(v, w, a, b);
    EvenMultiple(Plus(Plus(v, w), t));
    DoublePlus(Plus(v, w), t);
    PolynomialOdd(a != b);
    PlusLaws(Double(Plus(v, w)), 0, 0);
  }

  /** Registers that n more bits can bring together differ in their n top bits only. */
  lemma {:induction false} MeetingRegisters(v: bv32, w: bv32, a: seq<bool>, b: seq<bool>)
    requires |a| == |b| <= 32 && FeedBits(v, a) == FeedBits(w, b)
    ensures Shift(Plus(v, w), |a|) == 0
    decreases |a|
  {
    hide Plus;
    hide FeedBit;
    hide Low;
    hide Double;
    if a == [] {
      PlusLaws(v, v, 0);
    } else {
      var d := Plus(FeedBit(v, a[0]), FeedBit(w, b[0]));
      MeetingRegisters(FeedBit(v, a[0]), FeedBit(w, b[0]), a[1..], b[1..]);
      if Low(d) {
        OddSurvives(d, |a| - 1);
      }
      EvenFeed(v, w, a[0], b[0]);
    }
  }

  lemma SplitIsOdd(v: bv32, a: bool, b: bool)
    requires a != b
    ensures Low(Plus(FeedBit(v, a), FeedBit(v, b)))
  {
    hide Plus;
    hide TimesX;
    hide FeedBit;
    FeedDifference(v, v, a, b);
    PlusLaws(v, v, 0);
    PlusLaws(X31, 0, 0);
    TopOverflows();
  }

  lemma TopOverflows()
    ensures Low(TimesX(X31))
  {
  }

  /** Up to thirty-two bits fed into one register leave different registers unless they are the same bits. */
  lemma {:induction false} BurstInjective(v: bv32, a: seq<bool>, b: seq<bool>)
    requires |a| == |b| <= 32 && FeedBits(v, a) == FeedBits(v, b)
    ensures a == b
    decreases |a|
  {
    hide Plus;
    hide FeedBit;
    hide Low;
    if a == [] {
    } else {
      if a[0] == b[0] {
        BurstInjective(FeedBit(v, a[0]), a[1..], b[1..]);
        assert a == [a[0]] + a[1..] && b == [b[0]] + b[1..];
      } else {
        MeetingRegisters(FeedBit(v, a[0]), FeedBit(v, b[0]), a[1..], b[1..]);
        SplitIsOdd(v, a[0], b[0]);
        OddSurvives(Plus(FeedBit(v, a[0]), FeedBit(v, b[0])), |a| - 1);
        assert false;
      }
    }
  }

  lemma PlusZero(v: bv32, w: bv32)
    requires Plus(v, w) == 0
    ensures v == w
  {
    hide Plus;
    PlusLaws(v, w, w);
    PlusLaws(w, w, v);
    PlusLaws(v, 0, 0);
    PlusLaws(w, 0, 0);
  }

  lemma FeedBitInjective(v: bv32, w: bv32, bit: bool)
    requires FeedBit(v, bit) == FeedBit(w, bit)
    ensures v == w
  {
    hide Plus;
    hide FeedBit;
    hide TimesX;
    PlusLaws(FeedBit(v, bit), 0, 0);
    FeedDifference(v, w, bit, bit);
    PlusLaws(Plus(v, w), 0, 0);
    EvenMultiple(Plus(v, w));
    DoubleInjective(Plus(v, w), 0);
    PlusZero(v, w);
  }

  /** The same bits keep different registers different, however many follow. */
  lemma {:induction false} FeedInjective(v: bv32, w: bv32, bits: seq<bool>)
    requires FeedBits(v, bits) == FeedBits(w, bits)
    ensures v == w
    decreases |bits|
  {
    hide FeedBit;
    if bits == [] {
    } else {
      FeedInjective(FeedBit(v, bits[0]), FeedBit(w, bits[0]), bits[1..]);
      FeedBitInjective(v, w, bits[0]);
    }
  }

  lemma ByteWordInjective(x: bv8, y: bv8)
    requires ByteWord(x) == ByteWord(y)
    ensures x == y
  {
  }

  lemma {:induction false} BitsInjective(a: seq<bv8>, b: seq<bv8>)
    requires |a| == |b| && Bits(a) == Bits(b)
    ensures a == b
  {
    hide ByteWord;
    hide TopBits;
    if a == [] {
    } else {
      assert Bits(a)[..8] == ByteBits(a[0]) && Bits(b)[..8] == ByteBits(b[0]);
      assert Bits(a)[8..] == Bits(a[1..]) && Bits(b)[8..] == Bits(b[1..]);
      Shift8(ByteWord(a[0]));
      Shift8(ByteWord(b[0]));
      ByteWordShiftsOut(a[0]);
      ByteWordShiftsOut(b[0]);
      TopBitsInjective(ByteWord(a[0]), ByteWord(b[0]), 8);
      ByteWordInjective(a[0], b[0]);
      BitsInjective(a[1..], b[1..]);
    }
  }

  lemma BurstsSeparate(pre: seq<bool>, a: seq<bool>, b: seq<bool>, post: seq<bool>)
    requires |a| == |b| <= 32 && FeedBits(0, pre + a + post) == FeedBits(0, pre + b + post)
    ensures a == b
  {
    hide FeedBit;
    FeedAppend(0, pre + a, post);
    FeedAppend(0, pre + b, post);
    FeedAppend(0, pre, a);
    FeedAppend(0, pre, b);
    FeedInjective(FeedBits(0, pre + a), FeedBits(0, pre + b), post);
    BurstInjective(FeedBits(0, pre), a, b);
  }

  lemma ComplementInjective(v: bv32, w: bv32)
    requires Complement(v) == Complement(w)
    ensures v == w
  {
  }

  lemma ChecksumOfFeed(data: seq<bv8>)
    ensures Checksum(data) == Complement(FeedBits(0, Bits(data) + Bits(LengthOctets(|data|))))
  {
    hide FeedBits;
    hide Remainder;
    hide ByteBits;
    hide Complement;
    FeedIsRemainder(Bits(data + LengthOctets(|data|)));
    BitsAppend(data, LengthOctets(|data|));
  }

  lemma EqualChecksums(a: seq<bv8>, b: seq<bv8>)
    requires |a| == |b| && Checksum(a) == Checksum(b)
    ensures var length := Bits(LengthOctets(|a|)); FeedBits(0, Bits(a) + length) == FeedBits(0, Bits(b) + length)
  {
    hide FeedBits;
    hide Bits;
    hide Checksum;
    hide Complement;
    ChecksumOfFeed(a);
    ChecksumOfFeed(b);
    var length := Bits(LengthOctets(|a|));
    ComplementInjective(FeedBits(0, Bits(a) + length), FeedBits(0, Bits(b) + length));
  }

  lemma CutWindow(x: seq<bool>, length: seq<bool>, lo: nat, hi: nat)
    requires lo <= hi <= |x|
    ensures x == x[..lo] + x[lo..hi] + x[hi..]
    ensures x + length == x[..lo] + x[lo..hi] + (x[hi..] + length)
  {
  }

  lemma WindowDecides(x: seq<bool>, y: seq<bool>, length: seq<bool>, at: nat)
    requires |x| == |y| && FeedBits(0, x + length) == FeedBits(0, y + length)
    requires forall k :: 0 <= k < |x| && !(at <= k < at + 32) ==> x[k] == y[k]
    ensures x == y
  {
    hide FeedBits;
    var lo := if at < |x| then at else |x|;
    var hi := if at + 32 < |x| then at + 32 else |x|;
    CutWindow(x, length, lo, hi);
    CutWindow(y, length, lo, hi);
    assert y[..lo] == x[..lo];
    assert y[hi..] == x[hi..];
    BurstsSeparate(x[..lo], x[lo..hi], y[lo..hi], x[hi..] + length);
  }

  /** Inputs of equal length that differ only inside thirty-two consecutive bits have different checksums. */
  lemma BurstsDetected(a: seq<bv8>, b: seq<bv8>, at: nat)
    requires |a| == |b| && a != b
    requires forall k :: 0 <= k < 8 * |a| && !(at <= k < at + 32) ==> Bits(a)[k] == Bits(b)[k]
    ensures Checksum(a) != Checksum(b)
  {
    hide Checksum;
    hide ByteBits;
    hide FeedBits;
    if Checksum(a) == Checksum(b) {
      EqualChecksums(a, b);
      WindowDecides(Bits(a), Bits(b), Bits(LengthOctets(|a|)), at);
      BitsInjective(a, b);
    }
  }

  /** In particular inputs that differ only inside four consecutive bytes. */
  lemma FourByteChangesDetected(pre: seq<bv8>, a: seq<bv8>, b: seq<bv8>, post: seq<bv8>)
    requires |a| == |b| <= 4 && a != b
    ensures Checksum(pre + a + post) != Checksum(pre + b + post)
  {
    hide ByteBits;
    hide Checksum;
    var x, y := pre + a + post, pre + b + post;
    BitsAppend(pre + a, post);
    BitsAppend(pre + b, post);
    BitsAppend(pre, a);
    BitsAppend(pre, b);
    assert x[|pre|..|pre| + |a|] == a && y[|pre|..|pre| + |a|] == b;
    BurstsDetected(x, y, 8 * |pre|);
  }

  // ----- the POSIX definition: division of polynomials over the two-element field

  /** x^32 + x^26 + x^23 + x^22 + x^16 + x^12 + x^11 + x^10 + x^8 + x^7 + x^5 + x^4 + x^2 + x + 1. */
  function Generator(): (g: seq<bool>)
    ensures |g| == 33
  {
    [true] + TopBits(POLYNOMIAL, 32)
  }

  function Scaled(bit: bool): (g: seq<bool>)
    ensures |g| == 33
  {
    if bit then Generator() else Zeros(33)
  }

  /** The polynomial product of q and the generator, coefficients of the highest powers first. */
  function Product(q: seq<bool>): (p: seq<bool>)
    ensures |p| == |q| + 32
  {
    if q == [] then Zeros(32)
    else
      var k := |q| - 1;
      Xor(Product(q[..k]) + [false], Zeros(k) + Scaled(q[k]))
  }

  /** bits = q * generator + r, the remainder having degree below 32. */
  ghost predicate IsDivision(bits: seq<bool>, q: seq<bool>, r: bv32) {
    |q| == |bits| && Zeros(32) + bits == Xor(Product(q), Zeros(|bits|) + TopBits(r, 32))
  }

  ghost predicate IsRemainder(bits: seq<bool>, r: bv32) {
    exists q :: IsDivision(bits, q, r)
  }

  lemma {:induction false} TopBitsPlus(v: bv32, w: bv32, n: nat)
    ensures TopBits(Plus(v, w), n) == Xor(TopBits(v, n), TopBits(w, n))
    decreases n
  {
    hide Plus;
    hide Double;
    hide Top;
    if n == 0 {
    } else {
      TopPlus(v, w);
      DoublePlus(v, w);
      TopBitsPlus(Double(v), Double(w), n - 1);
    }
  }

  lemma PrependAppend(bit: bool, a: seq<bool>, b: seq<bool>)
    ensures [bit] + (a + b) == ([bit] + a) + b
  {
  }

  lemma {:induction false} TopBitsSplit(w: bv32, m: nat, n: nat)
    ensures TopBits(w, m + n) == TopBits(w, m) + TopBits(Shift(w, m), n)
    decreases m
  {
    hide Double;
    hide Top;
    if m == 0 {
      assert TopBits(w, 0) == [];
    } else {
      TopBitsSplit(Double(w), m - 1, n);
      PrependAppend(Top(w), TopBits(Double(w), m - 1), TopBits(Shift(w, m), n));
    }
  }

  lemma {:induction false} TopBitsZero(n: nat)
    ensures TopBits(0, n) == Zeros(n)
    decreases n
  {
    if n == 0 {
    } else {
      assert !Top(0) && Double(0) == 0;
      TopBitsZero(n - 1);
    }
  }

  lemma FourBits(w: bv32)
    ensures TopBits(w, 4) == [Top(w), Top(Double(w)), Top(Double(Double(w))), Top(Double(Double(Double(w))))]
    ensures Shift(w, 4) == Double(Double(Double(Double(w))))
  {
    hide Top;
    hide Double;
    assert TopBits(w, 4) == [Top(w)] + TopBits(Double(w), 3);
    assert TopBits(Double(w), 3) == [Top(Double(w))] + TopBits(Double(Double(w)), 2);
    assert Shift(w, 4) == Shift(Double(Double(w)), 2);
  }

  predicate Has(w: bv32, mask: bv32) {
    w & mask != 0
  }

  lemma Nibble(w: bv32)
    ensures TopBits(w, 4) == [Has(w, 0x8000_0000), Has(w, 0x4000_0000), Has(w, 0x2000_0000), Has(w, 0x1000_0000)]
    ensures Shift(w, 4) == w << 4
  {
    FourBits(w);
  }

  lemma EightBits(w: bv32)
    ensures TopBits(w, 8) == [Has(w, 0x8000_0000), Has(w, 0x4000_0000), Has(w, 0x2000_0000), Has(w, 0x1000_0000),
                              Has(w << 4, 0x8000_0000), Has(w << 4, 0x4000_0000), Has(w << 4, 0x2000_0000),
                              Has(w << 4, 0x1000_0000)]
  {
    hide TopBits;
    hide Has;
    hide Shift;
    var u := Shift(w, 4);
    Nibble(w);
    Nibble(u);
    TopBitsSplit(w, 4, 4);
  }

  lemma OneIsLastBit()
    ensures TopBits(1, 32) == Zeros(31) + [true]
  {
    hide TopBits;
    hide Shift;
    EightBits(1);
    EightBits(0x100);
    EightBits(0x1_0000);
    EightBits(0x100_0000);
    Shift8(1);
    Shift8(0x100);
    Shift8(0x1_0000);
    TopBitsSplit(1, 8, 24);
    TopBitsSplit(0x100, 8, 16);
    TopBitsSplit(0x1_0000, 8, 8);
    assert TopBits(0x100_0000, 8) == Zeros(7) + [true];
    assert TopBits(1, 8) == TopBits(0x100, 8) == TopBits(0x1_0000, 8) == Zeros(8);
  }

  lemma DoubledBits(r: bv32)
    ensures [Top(r)] + TopBits(Double(r), 32) == TopBits(r, 32) + [false]
  {
    hide Double;
    hide Top;
    hide Shift;
    assert [Top(r)] + TopBits(Double(r), 32) == TopBits(r, 33);
    TopBitsSplit(r, 32, 1);
    Shift32(r);
    TopBitsZero(1);
    assert Zeros(1) == [false];
  }

  lemma BitWordBits(bit: bool)
    ensures TopBits(BitWord(bit, 1), 32) == Zeros(31) + [bit]
    ensures [bit] + TopBits(BitWord(bit, POLYNOMIAL), 32) == Scaled(bit)
  {
    hide TopBits;
    OneIsLastBit();
    TopBitsZero(32);
  }

  lemma BroughtDownBits(r: bv32, bit: bool)
    ensures TopBits(BringDown(r, bit), 32) ==
            Xor(Xor(TopBits(Double(r), 32), TopBits(BitWord(Top(r), POLYNOMIAL), 32)), TopBits(BitWord(bit, 1), 32))
  {
    hide TopBits;
    hide Plus;
    hide Top;
    hide Double;
    hide BitWord;
    hide TimesX;
    TimesXCases(r);
    TopBitsPlus(TimesX(r), BitWord(bit, 1), 32);
    TopBitsPlus(Double(r), BitWord(Top(r), POLYNOMIAL), 32);
  }

  lemma CarryAt(top: bool, bit: bool, word: seq<bool>, doubled: seq<bool>, taken: seq<bool>)
    requires |word| == |doubled| == |taken| == 32 && [top] + doubled == word + [false]
    ensures word + [bit] == Xor([top] + taken, [false] + Xor(Xor(doubled, taken), Zeros(31) + [bit]))
  {
    var down := Zeros(31) + [bit];
    var sum := Xor(Xor(doubled, taken), down);
    assert word[0] == (word + [false])[0] == top;
    forall j | 0 <= j < 32 ensures (word + [bit])[j + 1] == (taken[j] != sum[j]) {
      assert (word + [false])[j + 1] == doubled[j];
      assert sum[j] == ((doubled[j] != taken[j]) != down[j]);
    }
    forall i | 0 <= i < 33 ensures (word + [bit])[i] == (([top] + taken)[i] != ([false] + sum)[i]) {
      if i > 0 {
        assert (word + [bit])[(i - 1) + 1] == (taken[i - 1] != sum[i - 1]);
      }
    }
  }

  /** One division step: bringing a bit down either leaves the generator in or takes it out. */
  lemma CarryBits(r: bv32, bit: bool)
    ensures TopBits(r, 32) + [bit] == Xor(Scaled(Top(r)), [false] + TopBits(BringDown(r, bit), 32))
  {
    hide TopBits;
    hide BringDown;
    hide Top;
    hide Double;
    hide BitWord;
    hide Scaled;
    BroughtDownBits(r, bit);
    DoubledBits(r);
    BitWordBits(Top(r));
    BitWordBits(bit);
    CarryAt(Top(r), bit, TopBits(r, 32), TopBits(Double(r), 32), TopBits(BitWord(Top(r), POLYNOMIAL), 32));
  }

  lemma ProductSnoc(q: seq<bool>, bit: bool)
    ensures Product(q + [bit]) == Xor(Product(q) + [false], Zeros(|q|) + Scaled(bit))
  {
    hide Scaled;
    assert (q + [bit])[..|q|] == q;
  }

  lemma DivisionStep(bits: seq<bool>, q: seq<bool>, r: bv32, bit: bool)
    requires IsDivision(bits, q, r)
    ensures IsDivision(bits + [bit], q + [Top(r)], BringDown(r, bit))
  {
    hide TopBits;
    hide BringDown;
    hide Top;
    hide Scaled;
    var k := |q|;
    var t := Top(r);
    var r' := TopBits(BringDown(r, bit), 32);
    CarryBits(r, bit);
    ProductSnoc(q, t);
    hide Product;
    forall i | 0 <= i < k + 33
      ensures (Zeros(32) + (bits + [bit]))[i] == (Product(q + [t])[i] != (Zeros(k + 1) + r')[i])
    {
      if i >= k {
        var j := i - k;
        assert (TopBits(r, 32) + [bit])[j] == (Scaled(t)[j] != ([false] + r')[j]);
        if j < 32 {
          assert (Zeros(32) + bits)[i] == (Product(q)[i] != TopBits(r, 32)[j]);
        }
      } else {
        assert (Zeros(32) + bits)[i] == (Product(q)[i] != (Zeros(k) + TopBits(r, 32))[i]);
      }
    }
  }

  lemma NothingToDivide()
    ensures IsDivision([], [], 0)
  {
    TopBitsZero(32);
    assert Zeros(32) + [] == Xor(Product([]), Zeros(0) + TopBits(0, 32));
  }

  lemma {:induction false} DivideIsDivision(bits: seq<bool>)
    ensures IsRemainder(bits, Remainder(bits))
  {
    hide BringDown;
    hide IsDivision;
    if bits == [] {
      NothingToDivide();
    } else {
      var k := |bits| - 1;
      DivideIsDivision(bits[..k]);
      var q :| IsDivision(bits[..k], q, Remainder(bits[..k]));
      DivisionStep(bits[..k], q, Remainder(bits[..k]), bits[k]);
      assert bits == bits[..k] + [bits[k]];
      DivideAppend(0, bits[..k], [bits[k]]);
    }
  }

  lemma ScaledBits(a: bool, b: bool)
    ensures Scaled(a != b) == Xor(Scaled(a), Scaled(b)) && Scaled(a)[0] == a
  {
    hide TopBits;
  }

  lemma {:induction false} ProductPlus(p: seq<bool>, q: seq<bool>)
    requires |p| == |q|
    ensures Product(Xor(p, q)) == Xor(Product(p), Product(q))
  {
    hide Scaled;
    if p == [] {
    } else {
      var k := |p| - 1;
      ProductPlus(p[..k], q[..k]);
      ScaledBits(p[k], q[k]);
      assert Xor(p, q)[..k] == Xor(p[..k], q[..k]);
      XorRegroup(Product(p[..k]), Product(q[..k]), Scaled(p[k]), Scaled(q[k]), k);
    }
  }

  lemma XorRegroup(a: seq<bool>, b: seq<bool>, s: seq<bool>, t: seq<bool>, k: nat)
    requires |a| == |b| == k + 32 && |s| == |t| == 33
    ensures Xor(Xor(a, b) + [false], Zeros(k) + Xor(s, t)) ==
            Xor(Xor(a + [false], Zeros(k) + s), Xor(b + [false], Zeros(k) + t))
  {
  }

  /** A product whose degree is below 32 is zero. */
  lemma {:induction false} SmallProductIsZero(q: seq<bool>)
    requires forall i :: 0 <= i < |q| ==> !Product(q)[i]
    ensures q == Zeros(|q|) && Product(q) == Zeros(|q| + 32)
  {
    hide Generator;
    if q == [] {
    } else {
      var k := |q| - 1;
      var high := q[..k];
      forall i | 0 <= i < k ensures !Product(high)[i] {
        assert !Product(q)[i];
      }
      SmallProductIsZero(high);
      ScaledBits(q[k], q[k]);
      assert !Product(q)[k];
    }
  }

  lemma RemainderUnique(bits: seq<bool>, q1: seq<bool>, r1: bv32, q2: seq<bool>, r2: bv32)
    requires IsDivision(bits, q1, r1) && IsDivision(bits, q2, r2)
    ensures r1 == r2
  {
    hide TopBits;
    hide Product;
    var k := |bits|;
    var x, y := TopBits(r1, 32), TopBits(r2, 32);
    ProductPlus(q1, q2);
    var d := Xor(q1, q2);
    forall i | 0 <= i < k + 32 ensures Product(d)[i] == ((Zeros(k) + x)[i] != (Zeros(k) + y)[i]) {
      assert (Zeros(32) + bits)[i] == (Product(q1)[i] != (Zeros(k) + x)[i]);
      assert (Zeros(32) + bits)[i] == (Product(q2)[i] != (Zeros(k) + y)[i]);
    }
    SmallProductIsZero(d);
    forall j | 0 <= j < 32 ensures x[j] == y[j] {
      assert Product(d)[k + j] == (x[j] != y[j]);
    }
    Shift32(r1);
    Shift32(r2);
    TopBitsInjective(r1, r2, 32);
  }

  lemma RemainderExact(bits: seq<bool>, r: bv32)
    ensures IsRemainder(bits, r) <==> r == Remainder(bits)
  {
    hide TopBits;
    hide Product;
    hide Remainder;
    hide Xor;
    DivideIsDivision(bits);
    if IsRemainder(bits, r) {
      var q :| IsDivision(bits, q, r);
      var q' :| IsDivision(bits, q', Remainder(bits));
      RemainderUnique(bits, q, r, q', Remainder(bits));
    }
  }

  lemma ComplementIsXor(v: bv32)
    ensures Complement(v) == v ^ 0xffff_ffff
  {
  }

  /** The checksum is the complement of the one word that is a remainder, on division by the generator polynomial,
      of the message followed by its length octets, times x^32. */
  lemma ChecksumIsPosix(data: seq<bv8>, r: bv32)
    ensures IsRemainder(Bits(data + LengthOctets(|data|)) + Zeros(32), r) <==> Checksum(data) == r ^ 0xffff_ffff
  {
    ComplementIsXor(r);
    hide IsRemainder;
    hide Complement;
    hide Remainder;
    hide Bits;
    var bits := Bits(data + LengthOctets(|data|)) + Zeros(32);
    RemainderExact(bits, r);
    if Checksum(data) == Complement(r) {
      ComplementInjective(Remainder(bits), r);
    }
  }

  // ----- the bits, the length and the generator, written out

  predicate HasBit(x: bv8, mask: bv8) {
    x & mask != 0
  }

  lemma BitsOfByte(x: bv8)
    ensures var w := ByteWord(x);
            && Has(w, 0x8000_0000) == HasBit(x, 0x80) && Has(w, 0x4000_0000) == HasBit(x, 0x40)
            && Has(w, 0x2000_0000) == HasBit(x, 0x20) && Has(w, 0x1000_0000) == HasBit(x, 0x10)
            && Has(w << 4, 0x8000_0000) == HasBit(x, 8) && Has(w << 4, 0x4000_0000) == HasBit(x, 4)
            && Has(w << 4, 0x2000_0000) == HasBit(x, 2) && Has(w << 4, 0x1000_0000) == HasBit(x, 1)
  {
  }

  lemma ByteBitsAre(x: bv8)
    ensures ByteBits(x) == [HasBit(x, 0x80), HasBit(x, 0x40), HasBit(x, 0x20), HasBit(x, 0x10),
                            HasBit(x, 8), HasBit(x, 4), HasBit(x, 2), HasBit(x, 1)]
  {
    hide Has;
    hide HasBit;
    hide ByteWord;
    BitsOfByte(x);
    EightBits(ByteWord(x));
  }

  lemma ByteBitsExactly(x: bv8)
    ensures ByteBits(x) == [x & 0x80 != 0, x & 0x40 != 0, x & 0x20 != 0, x & 0x10 != 0,
                            x & 8 != 0, x & 4 != 0, x & 2 != 0, x & 1 != 0]
  {
    hide ByteBits;
    ByteBitsAre(x);
  }

  /** The bits of the input are those of its bytes in order, the most significant of each byte first. */
  lemma {:induction false} BitsExactly(data: seq<bv8>, i: nat)
    requires i < |data|
    ensures var x := data[i];
            Bits(data)[8 * i..8 * i + 8] == [x & 0x80 != 0, x & 0x40 != 0, x & 0x20 != 0, x & 0x10 != 0,
                                             x & 8 != 0, x & 4 != 0, x & 2 != 0, x & 1 != 0]
    decreases data
  {
    hide ByteBits;
    if i == 0 {
      ByteBitsExactly(data[0]);
      assert Bits(data)[..8] == ByteBits(data[0]);
    } else {
      var rest := data[1..];
      BitsExactly(rest, i - 1);
      assert Bits(data)[8 * i..8 * i + 8] == Bits(rest)[8 * (i - 1)..8 * (i - 1) + 8];
    }
  }

  lemma DivideTwice(n: nat, p: nat)
    requires p > 0
    ensures n / 256 / p == n / (256 * p)
  {
    var q, r := n / 256 / p, n / 256 % p;
    assert n / 256 == q * p + r;
    assert n == 256 * (n / 256) + n % 256;
    assert n == q * (256 * p) + (256 * r + n % 256) by {
      assert q * (256 * p) == 256 * (q * p);
    }
    QuotientOf(n, 256 * p, q, 256 * r + n % 256);
  }

  lemma QuotientOf(n: int, d: int, q: int, r: int)
    requires n == q * d + r && 0 <= r < d
    ensures n / d == q
  {
    var q', r' := n / d, n % d;
    assert n == q' * d + r';
    assert (q - q') * d == r' - r;
    assert q - q' >= 1 ==> (q - q') * d >= d;
    assert q - q' <= -1 ==> (q - q') * d <= -d;
  }

  lemma {:induction false} LengthOctetAt(n: nat, i: nat)
    requires i < |LengthOctets(n)|
    ensures LengthOctets(n)[i] as nat == n / Pow256(i) % 256
    decreases n
  {
    if i == 0 {
      BitVectorValue(n % 256);
    } else {
      LengthOctetAt(n / 256, i - 1);
      DivideTwice(n, Pow256(i - 1));
      hide Pow256;
    }
  }

  lemma {:induction false} LengthOctetsFit(n: nat)
    ensures n < Pow256(|LengthOctets(n)|)
  {
    if n == 0 {
    } else {
      LengthOctetsFit(n / 256);
    }
  }

  lemma {:induction false} LengthOctetsMinimal(n: nat)
    requires n > 0
    ensures LengthOctets(n) != [] && LengthOctets(n)[|LengthOctets(n)| - 1] != 0
  {
    if n < 256 {
      BitVectorValue(n);
      assert LengthOctets(0) == [] && n % 256 == n;
    } else {
      LengthOctetsMinimal(n / 256);
    }
  }

  /** The length follows in base 256, the least significant octet first, in as few octets as it needs. */
  lemma LengthOctetsExactly(n: nat, i: nat)
    ensures var octets := LengthOctets(n);
            && n < Pow256(|octets|) && (octets != [] ==> octets[|octets| - 1] != 0)
            && (i < |octets| ==> octets[i] as nat == n / Pow256(i) % 256)
  {
    LengthOctetsFit(n);
    assert LengthOctets(0) == [];
    if n > 0 {
      LengthOctetsMinimal(n);
    }
    if i < |LengthOctets(n)| {
      LengthOctetAt(n, i);
    }
  }

  lemma GeneratorHigh()
    ensures TopBits(POLYNOMIAL, 16) ==
            [false, false, false, false, false, true, false, false, true, true, false, false, false, false, false, true]
    ensures Shift(POLYNOMIAL, 16) == 0x1db7_0000
  {
    hide TopBits;
    hide Shift;
    Nibble(POLYNOMIAL);
    Nibble(0x4c11_db70);
    Nibble(0xc11d_b700);
    Nibble(0x11db_7000);
    TopBitsSplit(POLYNOMIAL, 4, 12);
    TopBitsSplit(0x4c11_db70, 4, 8);
    TopBitsSplit(0xc11d_b700, 4, 4);
    ShiftAdd(POLYNOMIAL, 4, 12);
    ShiftAdd(0x4c11_db70, 4, 8);
    ShiftAdd(0xc11d_b700, 4, 4);
  }

  lemma GeneratorLow()
    ensures TopBits(0x1db7_0000, 16) ==
            [false, false, false, true, true, true, false, true, true, false, true, true, false, true, true, true]
  {
    hide TopBits;
    hide Shift;
    Nibble(0x1db7_0000);
    Nibble(0xdb70_0000);
    Nibble(0xb700_0000);
    Nibble(0x7000_0000);
    TopBitsSplit(0x1db7_0000, 4, 12);
    TopBitsSplit(0xdb70_0000, 4, 8);
    TopBitsSplit(0xb700_0000, 4, 4);
  }

  /** x^32 + x^26 + x^23 + x^22 + x^16 + x^12 + x^11 + x^10 + x^8 + x^7 + x^5 + x^4 + x^2 + x + 1. */
  lemma GeneratorExactly()
    ensures Generator() ==
            [true,
             false, false, false, false, false, true, false, false, true, true, false, false, false, false, false, true,
             false, false, false, true, true, true, false, true, true, false, true, true, false, true, true, true]
  {
    hide TopBits;
    hide Shift;
    GeneratorHigh();
    GeneratorLow();
    TopBitsSplit(POLYNOMIAL, 16, 16);
  }

  // ----- which changes go undetected

  /** Feeding is linear: registers and bits may be added before or after. */
  lemma {:induction false} FeedLinear(v: bv32, w: bv32, a: seq<bool>, b: seq<bool>)
    requires |a| == |b|
    ensures Plus(FeedBits(v, a), FeedBits(w, b)) == FeedBits(Plus(v, w), Xor(a, b))
    decreases |a|
  {
    hide Plus;
    hide FeedBit;
    if a == [] {
    } else {
      OneBitLinear(v, w, a[0], b[0]);
      FeedLinear(FeedBit(v, a[0]), FeedBit(w, b[0]), a[1..], b[1..]);
      assert Xor(a, b)[0] == (a[0] != b[0]) && Xor(a, b)[1..] == Xor(a[1..], b[1..]);
    }
  }

  lemma OneBitLinear(v: bv32, w: bv32, a: bool, b: bool)
    ensures Plus(FeedBit(v, a), FeedBit(w, b)) == FeedBit(Plus(v, w), a != b)
  {
    hide Plus;
    hide TimesX;
    FeedDifference(v, w, a, b);
  }

  lemma FeedZeros(v: bv32, n: nat)
    ensures FeedBits(v, Zeros(n)) == Times(v, n)
  {
    hide Plus;
    hide FeedBits;
    hide Times;
    FeedTopBits(v, 0, n);
    TopBitsZero(n);
    ShiftZero(n);
    PlusLaws(v, 0, 0);
    PlusLaws(FeedBits(v, Zeros(n)), 0, 0);
  }

  /** The register is empty exactly after a multiple of the generator. */
  lemma EmptyRegister(bits: seq<bool>)
    ensures FeedBits(0, bits) == 0 <==> IsRemainder(bits, 0)
  {
    hide FeedBits;
    hide Times;
    hide IsRemainder;
    var r := Remainder(bits);
    RemainderExact(bits, 0);
    TimesZero(32);
    FeedIsDelayedDivide(0, bits);
    FeedZeros(r, 32);
    FeedZeros(0, 32);
    if FeedBits(0, bits) == 0 {
      FeedInjective(r, 0, Zeros(32));
    }
  }

  lemma EqualRegisters(a: seq<bool>, b: seq<bool>, after: seq<bool>)
    requires |a| == |b|
    ensures FeedBits(0, a + after) == FeedBits(0, b + after) <==> IsRemainder(Xor(a, b), 0)
  {
    hide FeedBits;
    hide IsRemainder;
    hide Plus;
    var v, w := FeedBits(0, a), FeedBits(0, b);
    FeedAppend(0, a, after);
    FeedAppend(0, b, after);
    if FeedBits(v, after) == FeedBits(w, after) {
      FeedInjective(v, w, after);
    }
    FeedLinear(0, 0, a, b);
    PlusLaws(0, 0, 0);
    PlusLaws(v, v, v);
    if Plus(v, w) == 0 {
      PlusZero(v, w);
    }
    EmptyRegister(Xor(a, b));
  }

  /** A change that keeps the length goes undetected if and only if it is a multiple of the generator. */
  lemma UndetectedExactly(a: seq<bv8>, b: seq<bv8>)
    requires |a| == |b|
    ensures Checksum(a) == Checksum(b) <==> IsRemainder(Xor(Bits(a), Bits(b)), 0)
  {
    hide FeedBits;
    hide Bits;
    hide Checksum;
    hide Complement;
    hide IsRemainder;
    var length := Bits(LengthOctets(|a|));
    ChecksumOfFeed(a);
    ChecksumOfFeed(b);
    EqualRegisters(Bits(a), Bits(b), length);
    if Checksum(a) == Checksum(b) {
      EqualChecksums(a, b);
    }
  }
}
