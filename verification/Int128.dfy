/** The hand-written 128-bit integer (core/src/util/int128.rs), as the release build runs it: `+` wraps. */
module Int128 {
  import opened Bytes
  import opened Wrappers

  const B96 := 0x1_0000_0000_0000_0000_0000_0000
  const B128 := 0x1_0000_0000_0000_0000_0000_0000_0000_0000

  type u64 = n: int | 0 <= n < U64_RANGE

  datatype U128 = U128(high: u64, low: u64)

  const ZERO := U128(0, 0)

  function FromU8(n: byte): U128 {
    U128(0, n)
  }

  function Value(x: U128): (n: nat)
    ensures n < B128
  {
    x.high * U64_RANGE + x.low
  }

  lemma ValueInjective(x: U128, y: U128)
    requires Value(x) == Value(y)
    ensures x == y
  {
  }

  /** The word of a value. */
  function FromValue(n: nat): (x: U128)
    requires n < B128
    ensures Value(x) == n
  {
    U128(n / U64_RANGE, n % U64_RANGE)
  }

  function Add(x: U128, y: U128): U128 {
    var low := (x.low as int + y.low as int) % U64_RANGE;
    var carry := if low < x.low then 1 else 0;
    U128((x.high as int + y.high as int + carry) % U64_RANGE, low)
  }

  lemma HighWraps(high: nat, low: nat)
    requires high < 2 * U64_RANGE && low < U64_RANGE
    ensures (high * U64_RANGE + low) % B128 == high % U64_RANGE * U64_RANGE + low
  {
    if high >= U64_RANGE {
      assert high % U64_RANGE == high - U64_RANGE;
      assert (high * U64_RANGE + low) % B128 == high * U64_RANGE + low - B128;
    }
  }

  /** The carry test is right: addition is addition modulo 2^128. */
  lemma AddWraps(x: U128, y: U128)
    ensures Value(Add(x, y)) == (Value(x) + Value(y)) % B128
  {
    var low: int := x.low as int + y.low as int;
    var carry := if low >= U64_RANGE then 1 else 0;
    var high: int := x.high as int + y.high as int + carry;
    assert low % U64_RANGE == low - carry * U64_RANGE;
    assert Value(x) + Value(y) == high * U64_RANGE + low % U64_RANGE;
    HighWraps(high, low % U64_RANGE);
  }

  // ----- the limbs and the sixteen rows

  /** Thirty-two-bit limbs, least significant first; the source's array holds them the other way round. */
  function Limb(x: U128, i: nat): (d: nat)
    requires i < 4
    ensures d < U32_RANGE
  {
    match i
    case 0 => x.low % U32_RANGE
    case 1 => x.low / U32_RANGE
    case 2 => x.high % U32_RANGE
    case _ => x.high / U32_RANGE
  }

  function Product(x: U128, y: U128, i: nat, j: nat): (p: nat)
    requires i < 4 && j < 4
    ensures p < U64_RANGE
  {
    LimbProductBound(Limb(x, i), Limb(y, j));
    Limb(x, i) * Limb(y, j)
  }

  lemma LimbProductBound(a: nat, b: nat)
    requires a < U32_RANGE && b < U32_RANGE
    ensures a * b < U64_RANGE
  {
    Monotone(a, b, U32_RANGE - 1);
    Monotone(U32_RANGE - 1, a, U32_RANGE - 1);
  }

  lemma Monotone(a: nat, b: nat, c: nat)
    requires b <= c
    ensures a * b <= a * c && a * b == b * a
  {
  }

  /** The condition under which a limb product has no place in 128 bits and the source panics. */
  predicate OutOfRange(x: U128, y: U128, i: nat, j: nat)
    requires i < 4 && j < 4
  {
    i + j >= 4 && Product(x, y, i, j) != 0
  }

  function Row(x: U128, y: U128, i: nat, j: nat): U128
    requires i < 4 && j < 4
  {
    RowOf(Product(x, y, i, j), i + j)
  }

  /** A limb product moved into place; shifted-out bits are dropped. */
  function RowOf(product: nat, shift: nat): U128
    requires product < U64_RANGE
  {
    match shift
    case 0 => U128(0, product)
    case 1 => U128(product / U32_RANGE, product * U32_RANGE % U64_RANGE)
    case 2 => U128(product, 0)
    case 3 => U128(product * U32_RANGE % U64_RANGE, 0)
    case _ => ZERO
  }

  ghost predicate NoPanic(x: U128, y: U128) {
    forall i, j :: 0 <= i < 4 && 0 <= j < 4 ==> !OutOfRange(x, y, i, j)
  }

  function Scale(i: nat): nat
    requires i < 4
  {
    match i
    case 0 => 1
    case 1 => U32_RANGE
    case 2 => U64_RANGE
    case _ => B96
  }

  /** A limb with its weight. */
  function Placed(x: U128, i: nat): nat
    requires i < 4
  {
    Limb(x, i) * Scale(i)
  }

  lemma LimbsMakeValue(x: U128)
    ensures Value(x) == Placed(x, 0) + Placed(x, 1) + Placed(x, 2) + Placed(x, 3)
  {
  }

  lemma HighDropped(p: nat)
    ensures p * U32_RANGE % U64_RANGE == p % U32_RANGE * U32_RANGE
  {
    var q, r := p / U32_RANGE, p % U32_RANGE;
    assert p == q * U32_RANGE + r;
    assert p * U32_RANGE == q * U64_RANGE + r * U32_RANGE;
  }

  /** A row holds its product in place, up to a multiple of 2^128. */
  lemma RowValue(x: U128, y: U128, i: nat, j: nat) returns (lost: nat)
    requires i < 4 && j < 4 && !OutOfRange(x, y, i, j)
    ensures Value(Row(x, y, i, j)) + lost * B128 == Product(x, y, i, j) * Scale(i) * Scale(j)
  {
    hide Product;
    var p := Product(x, y, i, j);
    HighDropped(p);
    lost := if i + j == 3 then p / U32_RANGE else 0;
  }

  lemma InPlace(a: nat, b: nat, s: nat, t: nat)
    ensures a * b * s * t == (a * s) * (b * t)
  {
  }

  lemma PlacedRow(x: U128, y: U128, i: nat, j: nat) returns (lost: nat)
    requires i < 4 && j < 4 && !OutOfRange(x, y, i, j)
    ensures Value(Row(x, y, i, j)) + lost * B128 == Placed(x, i) * Placed(y, j)
  {
    hide Row;
    hide Limb;
    hide Scale;
    hide Value;
    lost := RowValue(x, y, i, j);
    InPlace(Limb(x, i), Limb(y, j), Scale(i), Scale(j));
  }

  function ColumnTotal(x: U128, y: U128, j: nat): nat
    requires j < 4
  {
    Value(Row(x, y, 0, j)) + Value(Row(x, y, 1, j)) + Value(Row(x, y, 2, j)) + Value(Row(x, y, 3, j))
  }

  /** What limb j of y contributes to the product. */
  function Share(x: U128, y: U128, j: nat): nat
    requires j < 4
  {
    Value(x) * Placed(y, j)
  }

  lemma Distribute(a: nat, b: nat, c: nat, d: nat, t: nat)
    ensures (a + b + c + d) * t == a * t + b * t + c * t + d * t
    ensures t * (a + b + c + d) == t * a + t * b + t * c + t * d
  {
  }

  lemma SharesAddUp(x: U128, y: U128)
    ensures Share(x, y, 0) + Share(x, y, 1) + Share(x, y, 2) + Share(x, y, 3) == Value(x) * Value(y)
  {
    hide Placed;
    hide Value;
    LimbsMakeValue(y);
    Distribute(Placed(y, 0), Placed(y, 1), Placed(y, 2), Placed(y, 3), Value(x));
  }

  /** The rows of one limb of y add up to x times that limb in place, up to a multiple of 2^128. */
  lemma ColumnValue(x: U128, y: U128, j: nat) returns (lost: nat)
    requires j < 4 && NoPanic(x, y)
    ensures ColumnTotal(x, y, j) + lost * B128 == Share(x, y, j)
  {
    hide Row;
    hide Placed;
    hide Product;
    hide Value;
    var l0 := PlacedRow(x, y, 0, j);
    var l1 := PlacedRow(x, y, 1, j);
    var l2 := PlacedRow(x, y, 2, j);
    var l3 := PlacedRow(x, y, 3, j);
    lost := l0 + l1 + l2 + l3;
    LimbsMakeValue(x);
    Distribute(Placed(x, 0), Placed(x, 1), Placed(x, 2), Placed(x, 3), Placed(y, j));
  }

  function RowAt(x: U128, y: U128, k: nat): U128
    requires k < 16
  {
    Row(x, y, k % 4, k / 4)
  }

  function RowSum(x: U128, y: U128, k: nat): nat
    requires k <= 16
  {
    if k == 0 then 0 else RowSum(x, y, k - 1) + Value(RowAt(x, y, k - 1))
  }

  lemma RowSumStep(x: U128, y: U128, i: nat, j: nat)
    requires i < 4 && j < 4
    ensures RowSum(x, y, 4 * j + i + 1) == RowSum(x, y, 4 * j + i) + Value(Row(x, y, i, j))
  {
    hide Value;
    hide Row;
    assert (4 * j + i) % 4 == i && (4 * j + i) / 4 == j;
  }

  lemma ColumnSum(x: U128, y: U128, j: nat)
    requires j < 4
    ensures RowSum(x, y, 4 * j + 4) == RowSum(x, y, 4 * j) + ColumnTotal(x, y, j)
  {
    hide Value;
    hide Row;
    hide RowSum;
    RowSumStep(x, y, 0, j);
    RowSumStep(x, y, 1, j);
    RowSumStep(x, y, 2, j);
    RowSumStep(x, y, 3, j);
  }

  /** The sixteen rows sum to the product, up to a multiple of 2^128. */
  lemma RowsSumToProduct(x: U128, y: U128) returns (lost: nat)
    requires NoPanic(x, y)
    ensures RowSum(x, y, 16) + lost * B128 == Value(x) * Value(y)
  {
    hide ColumnTotal;
    hide Share;
    hide Value;
    var l0 := ColumnValue(x, y, 0);
    var l1 := ColumnValue(x, y, 1);
    var l2 := ColumnValue(x, y, 2);
    var l3 := ColumnValue(x, y, 3);
    lost := l0 + l1 + l2 + l3;
    ColumnSum(x, y, 0);
    ColumnSum(x, y, 1);
    ColumnSum(x, y, 2);
    ColumnSum(x, y, 3);
    assert RowSum(x, y, 0) == 0;
    SharesAddUp(x, y);
  }

  // ----- multiplication

  /** The source's arrays of limbs, most significant first. */
  function Limbs(x: U128): (limbs: seq<nat>)
    ensures |limbs| == 4 && forall i {:trigger Limb(x, i)} :: 0 <= i < 4 ==> limbs[3 - i] == Limb(x, i)
  {
    [x.high / U32_RANGE, x.high % U32_RANGE, x.low / U32_RANGE, x.low % U32_RANGE]
  }

  /** Folding the rows with wrapping addition. */
  function Fold(rows: seq<U128>): U128 {
    if rows == [] then ZERO else Add(Fold(rows[..|rows| - 1]), rows[|rows| - 1])
  }

  lemma {:induction false} FoldValue(x: U128, y: U128, rows: seq<U128>)
    requires |rows| <= 16 && forall k :: 0 <= k < |rows| ==> rows[k] == RowAt(x, y, k)
    ensures Value(Fold(rows)) == RowSum(x, y, |rows|) % B128
  {
    hide RowAt;
    hide Add;
    if rows == [] {
    } else {
      var n := |rows| - 1;
      var sum := Fold(rows[..n]);
      FoldValue(x, y, rows[..n]);
      AddWraps(sum, rows[n]);
      ModOfSum(RowSum(x, y, n), Value(rows[n]));
    }
  }

  lemma ModOfSum(a: nat, b: nat)
    ensures (a % B128 + b) % B128 == (a + b) % B128
  {
  }

  lemma WholeMultiples(n: nat, k: nat)
    ensures (n + k * B128) % B128 == n % B128
  {
  }

  lemma LimbsMultiply(x: U128, y: U128, i: nat, j: nat)
    requires i < 4 && j < 4
    ensures Limbs(x)[3 - i] * Limbs(y)[3 - j] == Product(x, y, i, j)
  {
    assert Limbs(x)[3 - i] == Limb(x, i) && Limbs(y)[3 - j] == Limb(y, j);
  }

  lemma FoldIsProduct(x: U128, y: U128, rows: seq<U128>)
    requires NoPanic(x, y) && |rows| == 16
    requires forall i, j :: 0 <= i < 4 && 0 <= j < 4 ==> rows[j * 4 + i] == Row(x, y, i, j)
    ensures Value(Fold(rows)) == Value(x) * Value(y) % B128
  {
    hide Row;
    hide Value;
    forall k | 0 <= k < 16 ensures rows[k] == RowAt(x, y, k) {
      var i, j := k % 4, k / 4;
      assert rows[j * 4 + i] == Row(x, y, i, j);
    }
    FoldValue(x, y, rows);
    var lost := RowsSumToProduct(x, y);
    WholeMultiples(RowSum(x, y, 16), lost);
  }

  /** `None` stands for the overflow panic. It is raised exactly when some limb product lies beyond bit 128;
      otherwise the result is the product modulo 2^128. */
  method Mul(x: U128, y: U128) returns (product: Option<U128>)
    ensures product.Some? <==> NoPanic(x, y)
    ensures product.Some? ==> Value(product.value) == Value(x) * Value(y) % B128
  {
    hide Limbs;
    hide Product;
    hide RowOf;
    hide Value;
    var top := Limbs(x);
    var bottom := Limbs(y);

    var rows := new U128[16](_ => ZERO);
    for i := 0 to 4
      invariant forall a, b :: 0 <= a < i && 0 <= b < 4 ==>
                  rows[b * 4 + a] == Row(x, y, a, b) && !OutOfRange(x, y, a, b)
    {
      for j := 0 to 4
        invariant forall a, b :: 0 <= a < i && 0 <= b < 4 ==>
                    rows[b * 4 + a] == Row(x, y, a, b) && !OutOfRange(x, y, a, b)
        invariant forall b :: 0 <= b < j ==> rows[b * 4 + i] == Row(x, y, i, b) && !OutOfRange(x, y, i, b)
      {
        var shift := i + j;
        LimbsMultiply(x, y, i, j);
        var limbProduct := top[3 - i] * bottom[3 - j];
        if shift >= 4 && limbProduct != 0 {
          assert OutOfRange(x, y, i, j);
          return None;
        }
        rows[j * 4 + i] := RowOf(limbProduct, shift);
      }
    }

    product := Some(Fold(rows[..]));
    FoldIsProduct(x, y, rows[..]);
  }

  // ----- when the panic does and does not come

  lemma LimbBelowValue(x: U128, i: nat)
    requires i < 4
    ensures Limb(x, i) * Scale(i) <= Value(x)
  {
  }

  lemma ProductMonotone(a: nat, b: nat, c: nat, d: nat)
    requires a <= c && b <= d
    ensures a * b <= c * d
  {
    Monotone(a, b, d);
    Monotone(d, a, c);
  }

  lemma ScalesOverflow(i: nat, j: nat)
    requires i < 4 && j < 4 && i + j >= 4
    ensures Scale(i) * Scale(j) >= B128
  {
  }

  /** A product that fits 128 bits never panics, so it is then exact. */
  lemma FittingProductsReturn(x: U128, y: U128)
    requires Value(x) * Value(y) < B128
    ensures NoPanic(x, y)
  {
    forall i, j | 0 <= i < 4 && 0 <= j < 4 ensures !OutOfRange(x, y, i, j) {
      if OutOfRange(x, y, i, j) {
        hide Limb;
        hide Scale;
        hide Value;
        var a, b := Limb(x, i), Limb(y, j);
        assert a > 0 && b > 0 by {
          NonzeroFactors(a, b);
        }
        LimbBelowValue(x, i);
        LimbBelowValue(y, j);
        ScalesOverflow(i, j);
        ProductMonotone(1, Scale(i), a, Scale(i));
        ProductMonotone(1, Scale(j), b, Scale(j));
        ProductMonotone(Scale(i), Scale(j), Value(x), Value(y));
        assert false;
      }
    }
  }

  lemma NonzeroFactors(a: nat, b: nat)
    requires a * b != 0
    ensures a > 0 && b > 0
  {
  }

  lemma LimbsBelow(x: U128)
    ensures Value(x) < 0x1_0000_0000 <==> Limb(x, 1) == 0 && Limb(x, 2) == 0 && Limb(x, 3) == 0
    ensures Value(x) < 0x1_0000_0000_0000_0000 <==> Limb(x, 2) == 0 && Limb(x, 3) == 0
    ensures Value(x) < 0x1_0000_0000_0000_0000_0000_0000 <==> Limb(x, 3) == 0
  {
  }

  lemma NonzeroProduct(x: U128, y: U128, i: nat, j: nat)
    requires i < 4 && j < 4
    ensures OutOfRange(x, y, i, j) <==> i + j >= 4 && Limb(x, i) != 0 && Limb(y, j) != 0
  {
    hide Limb;
    var a, b := Limb(x, i), Limb(y, j);
    if a != 0 && b != 0 {
      ProductMonotone(1, 1, a, b);
    }
  }

  /** When the panic comes, in terms of the values: it stays away exactly if a factor of more than 32, 64 or 96 bits
      meets a factor of at most 96, 64 or 32. */
  lemma PanicExactly(x: U128, y: U128)
    ensures NoPanic(x, y) <==>
            && (Value(x) >= 0x1_0000_0000 ==> Value(y) < 0x1_0000_0000_0000_0000_0000_0000)
            && (Value(x) >= 0x1_0000_0000_0000_0000 ==> Value(y) < 0x1_0000_0000_0000_0000)
            && (Value(x) >= 0x1_0000_0000_0000_0000_0000_0000 ==> Value(y) < 0x1_0000_0000)
  {
    hide Limb;
    hide Value;
    hide OutOfRange;
    LimbsBelow(x);
    LimbsBelow(y);
    forall i, j | 0 <= i < 4 && 0 <= j < 4
      ensures OutOfRange(x, y, i, j) <==> i + j >= 4 && Limb(x, i) != 0 && Limb(y, j) != 0
    {
      NonzeroProduct(x, y, i, j);
    }
    assert OutOfRange(x, y, 1, 3) || OutOfRange(x, y, 2, 3) || OutOfRange(x, y, 3, 3) <==>
           (Limb(x, 1) != 0 || Limb(x, 2) != 0 || Limb(x, 3) != 0) && Limb(y, 3) != 0;
    assert OutOfRange(x, y, 2, 2) || OutOfRange(x, y, 3, 2) <==> (Limb(x, 2) != 0 || Limb(x, 3) != 0) && Limb(y, 2) != 0;
    assert OutOfRange(x, y, 3, 1) <==> Limb(x, 3) != 0 && Limb(y, 1) != 0;
  }

  /** A multiplication gives the product itself if and only if the product fits 128 bits. */
  lemma ExactExactly(x: U128, y: U128)
    ensures NoPanic(x, y) && Value(x) * Value(y) % B128 == Value(x) * Value(y) <==> Value(x) * Value(y) < B128
  {
    if Value(x) * Value(y) < B128 {
      FittingProductsReturn(x, y);
    }
  }

  /** Not every product that is too large panics. Here the top half of a limb product at shift 3 is dropped. */
  lemma SilentOverflow()
    ensures var x, y := U128(0x8000_0000_0000_0000, 0), U128(0, 2);
            NoPanic(x, y) && Value(x) * Value(y) == B128
  {
    var x, y := U128(0x8000_0000_0000_0000, 0), U128(0, 2);
    assert Limb(y, 1) == 0 && Limb(y, 2) == 0 && Limb(y, 3) == 0;
    assert Limb(x, 0) == 0 && Limb(x, 1) == 0 && Limb(x, 2) == 0;
  }

  /** Here nothing straddles bit 128: the wrapping sum of the rows drops a carry. */
  lemma SilentCarry()
    ensures var x, y := U128(0, 0x1_FFFF_FFFF), U128(0xFFFF_FFFF, 0xFFFF_FFFF_0000_0000);
            && NoPanic(x, y) && Value(x) * Value(y) >= B128
            && forall i, j :: 0 <= i < 4 && 0 <= j < 4 && i + j == 3 ==> Product(x, y, i, j) < U32_RANGE
  {
    var x, y := U128(0, 0x1_FFFF_FFFF), U128(0xFFFF_FFFF, 0xFFFF_FFFF_0000_0000);
    assert Limb(x, 2) == 0 && Limb(x, 3) == 0 && Limb(y, 0) == 0 && Limb(y, 3) == 0;
    assert Limb(x, 1) == 1 && Limb(y, 2) == U32_RANGE - 1;
    assert Value(x) * Value(y) >= B128 by {
      assert Value(x) == 0x1_FFFF_FFFF && Value(y) == 0xFFFF_FFFF_FFFF_FFFF_0000_0000;
    }
  }

  /** Multiplying by a single limb never panics. */
  lemma SmallFactorsReturn(x: U128, n: byte)
    ensures NoPanic(x, FromU8(n))
  {
    var y := FromU8(n);
    assert Limb(y, 1) == 0 && Limb(y, 2) == 0 && Limb(y, 3) == 0;
  }
}
