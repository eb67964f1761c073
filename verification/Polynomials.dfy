/** Words of 32 bits as polynomials of degree at most 31, reduced by the generator of the checksum. */
module Polynomials {
  const POLYNOMIAL: bv32 := 0x04c1_1db7
  const X31: bv32 := 0x8000_0000

  function Plus(v: bv32, w: bv32): bv32 {
    v ^ w
  }

  function Double(v: bv32): bv32 {
    v << 1
  }

  predicate Top(v: bv32) {
    v & 0x8000_0000 != 0
  }

  predicate Low(v: bv32) {
    v & 1 != 0
  }

  function BitWord(bit: bool, word: bv32): bv32 {
    if bit then word else 0
  }

  /** One step of long division by x^32 + x^26 + ... + 1: multiply by x, subtract the divisor if it fits. */
  function TimesX(v: bv32): bv32 {
    if v & 0x8000_0000 != 0 then (v << 1) ^ 0x04c1_1db7 else v << 1
  }

  function TimesX8(v: bv32): bv32 {
    TimesX(TimesX(TimesX(TimesX(TimesX(TimesX(TimesX(TimesX(v))))))))
  }

  lemma PlusLaws(a: bv32, b: bv32, c: bv32)
    ensures Plus(Plus(a, b), c) == Plus(a, Plus(b, c))
    ensures Plus(a, b) == Plus(b, a)
    ensures Plus(a, 0) == a && Plus(a, a) == 0
  {
  }

  lemma XorTop(v: bv32, w: bv32)
    ensures (v ^ w) & 0x8000_0000 == (v & 0x8000_0000) ^ (w & 0x8000_0000)
    ensures v & 0x8000_0000 == 0 || v & 0x8000_0000 == 0x8000_0000
    ensures w & 0x8000_0000 == 0 || w & 0x8000_0000 == 0x8000_0000
  {
  }

  lemma XorLow(v: bv32, w: bv32)
    ensures (v ^ w) & 1 == (v & 1) ^ (w & 1)
    ensures v & 1 == 0 || v & 1 == 1
    ensures w & 1 == 0 || w & 1 == 1
  {
  }

  lemma TopPlus(v: bv32, w: bv32)
    ensures Top(Plus(v, w)) == (Top(v) != Top(w))
  {
    XorTop(v, w);
    if v & 0x8000_0000 == 0 {
    } else if w & 0x8000_0000 == 0 {
    }
  }

  lemma LowPlus(v: bv32, w: bv32)
    ensures Low(Plus(v, w)) == (Low(v) != Low(w))
  {
    XorLow(v, w);
    if v & 1 == 0 {
    } else if w & 1 == 0 {
    }
  }

  lemma DoublePlus(v: bv32, w: bv32)
    ensures Double(Plus(v, w)) == Plus(Double(v), Double(w))
  {
  }

  lemma DoubleEven(v: bv32)
    ensures !Low(Double(v))
  {
  }

  lemma TimesXCases(v: bv32)
    ensures TimesX(v) == Plus(Double(v), BitWord(Top(v), POLYNOMIAL))
  {
    PlusLaws(Double(v), 0, 0);
  }

  lemma BitWordPlus(a: bool, b: bool, word: bv32)
    ensures BitWord(a != b, word) == Plus(BitWord(a, word), BitWord(b, word))
  {
    hide Plus;
    PlusLaws(word, word, 0);
    PlusLaws(0, word, 0);
  }

  lemma TimesXLinear(v: bv32, w: bv32)
    ensures TimesX(Plus(v, w)) == Plus(TimesX(v), TimesX(w))
  {
    hide Plus;
    hide Double;
    hide Top;
    hide Low;
    hide TimesX;
    hide BitWord;
    TimesXCases(v);
    TimesXCases(w);
    TimesXCases(Plus(v, w));
    DoublePlus(v, w);
    TopPlus(v, w);
    BitWordPlus(Top(v), Top(w), POLYNOMIAL);
    PlusSwap(Double(v), Double(w), BitWord(Top(v), POLYNOMIAL), BitWord(Top(w), POLYNOMIAL));
  }

  lemma PlusSwap(a: bv32, b: bv32, c: bv32, d: bv32)
    ensures Plus(Plus(a, b), Plus(c, d)) == Plus(Plus(a, c), Plus(b, d))
  {
    hide Plus;
    PlusLaws(a, b, Plus(c, d));
    PlusLaws(b, c, d);
    PlusLaws(c, b, d);
    PlusLaws(a, c, Plus(b, d));
  }

  function Times(v: bv32, n: nat): bv32
    decreases n
  {
    if n == 0 then v else Times(TimesX(v), n - 1)
  }

  lemma {:induction false} TimesLinear(v: bv32, w: bv32, n: nat)
    ensures Times(Plus(v, w), n) == Plus(Times(v, n), Times(w, n))
    decreases n
  {
    hide Plus;
    hide TimesX;
    if n == 0 {
    } else {
      TimesXLinear(v, w);
      TimesLinear(TimesX(v), TimesX(w), n - 1);
    }
  }

  lemma {:induction false} TimesAdd(v: bv32, m: nat, n: nat)
    ensures Times(v, m + n) == Times(Times(v, m), n)
    decreases m
  {
    hide TimesX;
    if m == 0 {
    } else {
      TimesAdd(TimesX(v), m - 1, n);
    }
  }

  lemma Times8(v: bv32)
    ensures Times(v, 8) == TimesX8(v)
  {
    hide TimesX;
  }

  lemma TimesX8Linear(v: bv32, w: bv32)
    ensures TimesX8(Plus(v, w)) == Plus(TimesX8(v), TimesX8(w))
  {
    hide Plus;
    hide TimesX8;
    TimesLinear(v, w, 8);
    Times8(v);
    Times8(w);
    Times8(Plus(v, w));
  }
}
