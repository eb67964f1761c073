/** Track identifiers and their textual forms (core/src/util/spotify_id.rs). */
module SpotifyIds {
  import opened Bytes
  import opened Wrappers
  import opened Int128

  const BASE62_DIGITS: string := "0123456789" + "abcdefghijklmnopqrstuvwxyz" + "ABCDEFGHIJKLMNOPQRSTUVWXYZ"
  const BASE16_DIGITS: string := "0123456789abcdef"

  datatype SpotifyId = SpotifyId(n: U128)

  // ----- positional notation, without any limit on size

  /** `iter().position(..)`: where a digit first stands in an alphabet. */
  function Position(digits: string, c: char): (p: Option<nat>)
    ensures p.Some? ==> p.value < |digits| && digits[p.value] == c
    ensures p.None? ==> c !in digits
  {
    if digits == [] then None
    else if digits[0] == c then Some(0)
    else
      match Position(digits[1..], c)
      case None => None
      case Some(p) => Some(p + 1)
  }

  predicate Valid(digits: string, s: string) {
    forall k :: 0 <= k < |s| ==> s[k] in digits
  }

  function Digit(digits: string, c: char): (d: nat)
    requires c in digits
    ensures d < |digits| && digits[d] == c
  {
    Position(digits, c).value
  }

  function Positional(digits: string, s: string): nat
    requires Valid(digits, s)
  {
    if s == [] then 0 else Positional(digits, s[..|s| - 1]) * |digits| + Digit(digits, s[|s| - 1])
  }

  lemma PositionalSnoc(digits: string, s: string, c: char)
    requires Valid(digits, s) && c in digits
    ensures Valid(digits, s + [c])
    ensures Positional(digits, s + [c]) == Positional(digits, s) * |digits| + Digit(digits, c)
  {
    hide Digit;
    assert (s + [c])[..|s|] == s;
  }

  /** The identifier a numeral of any length stands for. */
  function Parsed(digits: string, s: string): (id: SpotifyId)
    requires Valid(digits, s)
    ensures Value(id.n) == Positional(digits, s) % B128
  {
    SpotifyId(FromValue(Positional(digits, s) % B128))
  }

  lemma ShiftInDigit(n: nat, base: nat, d: nat)
    ensures ((n % B128 * base) % B128 + d) % B128 == (n * base + d) % B128
  {
    var q := n / B128;
    assert n == q * B128 + n % B128;
    assert n * base == n % B128 * base + (q * base) * B128 by {
      assert n * base == (q * B128 + n % B128) * base;
    }
    WholeMultiples(n % B128 * base, q * base);
    WholeMultiples((n * base) % B128 + d, n * base / B128);
  }

  /** Consecutive characters. */
  function CharRun(first: int, n: nat): (s: string)
    requires 0 <= first && first + n <= 0x80
    ensures |s| == n
  {
    seq(n, i requires 0 <= i < n => (first + i) as char)
  }

  lemma {:induction false} RunPosition(first: int, n: nat, c: char)
    requires 0 <= first && first + n <= 0x80
    ensures Position(CharRun(first, n), c) ==
            if first <= c as int < first + n then Some(c as int - first) else None
    decreases n
  {
    if n == 0 {
    } else {
      assert CharRun(first, n)[1..] == CharRun(first + 1, n - 1);
      RunPosition(first + 1, n - 1, c);
    }
  }

  lemma {:induction false} PositionAppend(a: string, b: string, c: char)
    ensures Position(a + b, c) ==
            if Position(a, c).Some? then Position(a, c)
            else if Position(b, c).Some? then Some(|a| + Position(b, c).value)
            else None
  {
    if a == [] {
      assert a + b == b;
    } else {
      assert (a + b)[1..] == a[1..] + b;
      PositionAppend(a[1..], b, c);
    }
  }

  lemma DecimalRun()
    ensures "0123456789" == CharRun('0' as int, 10)
  {
  }

  lemma HexRun()
    ensures "abcdef" == CharRun('a' as int, 6)
  {
  }

  lemma LowerRun()
    ensures "abcdefghijklmnopqrstuvwxyz" == CharRun('a' as int, 26)
  {
  }

  lemma UpperRun()
    ensures "ABCDEFGHIJKLMNOPQRSTUVWXYZ" == CharRun('A' as int, 26)
  {
  }

  lemma Associate(a: string, b: string, c: string)
    ensures a + b + c == a + (b + c)
  {
  }

  lemma DigitRuns()
    ensures BASE16_DIGITS == CharRun('0' as int, 10) + CharRun('a' as int, 6)
    ensures BASE62_DIGITS == CharRun('0' as int, 10) + (CharRun('a' as int, 26) + CharRun('A' as int, 26))
  {
    hide CharRun;
    DecimalRun();
    HexRun();
    LowerRun();
    UpperRun();
    assert BASE16_DIGITS == "0123456789" + "abcdef";
    Associate("0123456789", "abcdefghijklmnopqrstuvwxyz", "ABCDEFGHIJKLMNOPQRSTUVWXYZ");
  }

  lemma PositionIn(digits: string, c: char)
    ensures c in digits <==> Position(digits, c).Some?
  {
  }

  /** The value of a hexadecimal digit: only lower-case letters are digits. */
  lemma Base16Digit(c: char)
    ensures |BASE16_DIGITS| == 16
    ensures c in BASE16_DIGITS <==> '0' <= c <= '9' || 'a' <= c <= 'f'
    ensures '0' <= c <= '9' ==> Digit(BASE16_DIGITS, c) == c as int - '0' as int
    ensures 'a' <= c <= 'f' ==> Digit(BASE16_DIGITS, c) == c as int - 'a' as int + 10
  {
    hide Position;
    hide CharRun;
    DigitRuns();
    PositionIn(BASE16_DIGITS, c);
    PositionAppend(CharRun('0' as int, 10), CharRun('a' as int, 6), c);
    RunPosition('0' as int, 10, c);
    RunPosition('a' as int, 6, c);
  }

  /** The value of a base-62 digit: the lower-case letters follow the decimal digits, then come the upper-case ones. */
  lemma Base62Digit(c: char)
    ensures |BASE62_DIGITS| == 62
    ensures c in BASE62_DIGITS <==> '0' <= c <= '9' || 'a' <= c <= 'z' || 'A' <= c <= 'Z'
    ensures '0' <= c <= '9' ==> Digit(BASE62_DIGITS, c) == c as int - '0' as int
    ensures 'a' <= c <= 'z' ==> Digit(BASE62_DIGITS, c) == c as int - 'a' as int + 10
    ensures 'A' <= c <= 'Z' ==> Digit(BASE62_DIGITS, c) == c as int - 'A' as int + 36
  {
    hide Position;
    hide CharRun;
    DigitRuns();
    PositionIn(BASE62_DIGITS, c);
    PositionAppend(CharRun('0' as int, 10), CharRun('a' as int, 26) + CharRun('A' as int, 26), c);
    PositionAppend(CharRun('a' as int, 26), CharRun('A' as int, 26), c);
    RunPosition('0' as int, 10, c);
    RunPosition('a' as int, 26, c);
    RunPosition('A' as int, 26, c);
  }

  /** With no digit a numeral stands for zero. */
  lemma NoNumeral(digits: string)
    ensures Positional(digits, []) == 0
  {
  }

  // ----- parsing

  lemma ValueOfU8(n: byte)
    ensures Value(FromU8(n)) == n
  {
  }

  lemma EmptyNumeral(digits: string, s: string)
    ensures Value(ZERO) == Positional(digits, s[..0]) % B128
  {
  }

  lemma AppendValue(numeral: nat, base: nat, d: nat, n: nat, product: nat, sum: nat)
    requires n == numeral % B128 && product == n * base % B128 && sum == (product + d) % B128
    ensures sum == (numeral * base + d) % B128
  {
    ShiftInDigit(numeral, base, d);
  }

  /** One round of either parsing loop. */
  lemma AppendDigit(digits: string, s: string, i: nat, n: U128, product: U128)
    requires i < |s| && |digits| < 256 && Valid(digits, s[..i]) && s[i] in digits
    requires Value(n) == Positional(digits, s[..i]) % B128
    requires Value(product) == Value(n) * Value(FromU8(|digits|)) % B128
    ensures Valid(digits, s[..i + 1])
    ensures Value(Add(product, FromU8(Digit(digits, s[i])))) == Positional(digits, s[..i + 1]) % B128
  {
    hide Value;
    hide Add;
    hide FromU8;
    hide Digit;
    hide Positional;
    assert s[..i + 1] == s[..i] + [s[i]];
    PositionalSnoc(digits, s[..i], s[i]);
    var d := Digit(digits, s[i]);
    ValueOfU8(|digits|);
    ValueOfU8(d);
    AddWraps(product, FromU8(d));
    AppendValue(Positional(digits, s[..i]), |digits|, d, Value(n), Value(product), Value(Add(product, FromU8(d))));
  }

  /** `None` stands for the panic on a character that is no digit. The loop itself never reaches the overflow panic:
      a numeral of any length stands for its positional value modulo 2^128. */
  method FromBase16(id: string) returns (r: Option<SpotifyId>)
    ensures r.Some? <==> Valid(BASE16_DIGITS, id)
    ensures r.Some? ==> r.value == Parsed(BASE16_DIGITS, id)
  {
    hide Value;
    hide Positional;
    hide Add;
    hide NoPanic;
    var n := ZERO;
    EmptyNumeral(BASE16_DIGITS, id);
    for i := 0 to |id|
      invariant Valid(BASE16_DIGITS, id[..i])
      invariant Value(n) == Positional(BASE16_DIGITS, id[..i]) % B128
    {
      var d := Position(BASE16_DIGITS, id[i]);
      if d.None? {
        return None;
      }
      SmallFactorsReturn(n, 16);
      var product := Mul(n, FromU8(16));
      AppendDigit(BASE16_DIGITS, id, i, n, product.value);
      n := Add(product.value, FromU8(d.value));
    }
    assert id[..|id|] == id;
    ValueInjective(n, Parsed(BASE16_DIGITS, id).n);
    return Some(SpotifyId(n));
  }

  method FromBase62(id: string) returns (r: Option<SpotifyId>)
    ensures r.Some? <==> Valid(BASE62_DIGITS, id)
    ensures r.Some? ==> r.value == Parsed(BASE62_DIGITS, id)
  {
    hide Value;
    hide Positional;
    hide Add;
    hide NoPanic;
    var n := ZERO;
    EmptyNumeral(BASE62_DIGITS, id);
    for i := 0 to |id|
      invariant Valid(BASE62_DIGITS, id[..i])
      invariant Value(n) == Positional(BASE62_DIGITS, id[..i]) % B128
    {
      var d := Position(BASE62_DIGITS, id[i]);
      if d.None? {
        return None;
      }
      SmallFactorsReturn(n, 62);
      var product := Mul(n, FromU8(62));
      AppendDigit(BASE62_DIGITS, id, i, n, product.value);
      n := Add(product.value, FromU8(d.value));
    }
    assert id[..|id|] == id;
    ValueInjective(n, Parsed(BASE62_DIGITS, id).n);
    return Some(SpotifyId(n));
  }

  // ----- hexadecimal output

  function Pow16(k: nat): (p: nat)
    ensures p > 0
  {
    if k == 0 then 1 else 16 * Pow16(k - 1)
  }

  function HexDigit(d: nat): char
    requires d < 16
  {
    BASE16_DIGITS[d]
  }

  /** The low `width` hexadecimal digits of n, most significant first. */
  function Hex(n: nat, width: nat): (s: string)
    ensures |s| == width
  {
    if width == 0 then [] else Hex(n / 16, width - 1) + [HexDigit(n % 16)]
  }

  lemma {:induction false} HexAt(n: nat, width: nat, k: nat)
    requires k < width
    ensures Hex(n, width)[width - 1 - k] == HexDigit(n / Pow16(k) % 16)
  {
    if k == 0 {
    } else {
      HexAt(n / 16, width - 1, k - 1);
      DivDiv(n, Pow16(k - 1));
    }
  }

  lemma DivDiv(n: nat, p: nat)
    requires p > 0
    ensures n / 16 / p == n / (16 * p)
  {
    var q, r := n / (16 * p), n % (16 * p);
    assert n == q * (16 * p) + r && 0 <= r < 16 * p;
    assert n == (q * p) * 16 + r;
    assert n / 16 == q * p + r / 16;
    QuotientIs(n / 16, p, q, r / 16);
  }

  lemma QuotientIs(n: int, p: int, q: int, r: int)
    requires n == q * p + r && 0 <= r < p
    ensures n / p == q
  {
    var q', r' := n / p, n % p;
    assert n == q' * p + r';
    assert (q - q') * p == r' - r;
    assert q - q' >= 1 ==> (q - q') * p >= p;
    assert q - q' <= -1 ==> (q - q') * p <= -p;
  }

  lemma {:induction false} HexSplit(high: nat, low: nat, width: nat, k: nat)
    requires low < Pow16(k)
    ensures Hex(high * Pow16(k) + low, width + k) == Hex(high, width) + Hex(low, k)
    decreases k
  {
    hide HexDigit;
    if k == 0 {
    } else {
      LastDigit(high, Pow16(k - 1), low);
      HexSplit(high, low / 16, width, k - 1);
    }
  }

  lemma LastDigit(high: nat, p: nat, low: nat)
    ensures (high * (16 * p) + low) % 16 == low % 16 && (high * (16 * p) + low) / 16 == high * p + low / 16
  {
    var m := high * p;
    assert high * (16 * p) == 16 * m;
  }

  lemma Pow16Of16()
    ensures Pow16(16) == U64_RANGE
  {
    assert Pow16(4) == 0x1_0000;
    assert Pow16(8) == 0x1_0000_0000;
    assert Pow16(12) == 0x1_0000_0000_0000;
  }

  /** The digits of an identifier: those of the upper half, then those of the lower. */
  lemma HexOfHalves(n: U128)
    ensures Hex(Value(n), 32) == Hex(n.high, 16) + Hex(n.low, 16)
  {
    Pow16Of16();
    HexSplit(n.high, n.low, 16, 16);
  }

  /** The thirty-two digits of an identifier. */
  function Printed(id: SpotifyId): string {
    Hex(Value(id.n), 32)
  }

  method ToBase16(id: SpotifyId) returns (s: string)
    ensures s == Printed(id)
  {
    hide HexDigit;
    hide Hex;
    hide Value;
    var high, low := id.n.high as nat, id.n.low as nat;
    ghost var highHex, lowHex := Hex(high, 16), Hex(low, 16);
    var data := new char[32](_ => '0');
    for i := 0 to 16
      invariant data[32 - i..] == lowHex[16 - i..]
    {
      HexAt(low, 16, i);
      data[31 - i] := HexDigit(low / Pow16(i) % 16);
      assert data[31 - i..] == [data[31 - i]] + data[32 - i..];
      assert lowHex[15 - i..] == [lowHex[15 - i]] + lowHex[16 - i..];
    }
    for i := 0 to 16
      invariant data[16..] == lowHex
      invariant data[16 - i..16] == highHex[16 - i..]
    {
      HexAt(high, 16, i);
      data[15 - i] := HexDigit(high / Pow16(i) % 16);
      assert data[15 - i..16] == [data[15 - i]] + data[16 - i..16];
      assert highHex[15 - i..] == [highHex[15 - i]] + highHex[16 - i..];
    }
    HexOfHalves(id.n);
    s := data[..];
    assert s == data[..16] + data[16..];
  }

  // ----- reading hexadecimal back

  lemma DigitsDistinct(d: nat)
    requires d < 16
    ensures HexDigit(d) in BASE16_DIGITS && Digit(BASE16_DIGITS, HexDigit(d)) == d
  {
    hide Position;
    var e := Digit(BASE16_DIGITS, HexDigit(d));
    assert BASE16_DIGITS[e] == BASE16_DIGITS[d];
  }

  lemma HexDigitOfDigit(c: char)
    requires c in BASE16_DIGITS
    ensures HexDigit(Digit(BASE16_DIGITS, c)) == c
  {
  }

  lemma {:induction false} HexRoundTrip(n: nat, width: nat)
    requires n < Pow16(width)
    ensures Valid(BASE16_DIGITS, Hex(n, width)) && Positional(BASE16_DIGITS, Hex(n, width)) == n
    decreases width
  {
    hide HexDigit;
    hide Digit;
    hide Valid;
    hide Positional;
    if width == 0 {
      NoDigits();
    } else {
      HexRoundTrip(n / 16, width - 1);
      DigitsDistinct(n % 16);
      PositionalSnoc(BASE16_DIGITS, Hex(n / 16, width - 1), HexDigit(n % 16));
    }
  }

  lemma HexSnoc(n: nat, width: nat, d: nat)
    requires d < 16
    ensures Hex(16 * n + d, width + 1) == Hex(n, width) + [HexDigit(d)]
  {
    hide HexDigit;
    assert (16 * n + d) / 16 == n && (16 * n + d) % 16 == d;
  }

  lemma NoDigits()
    ensures Valid(BASE16_DIGITS, []) && Positional(BASE16_DIGITS, []) == 0
  {
  }

  lemma {:induction false} HexCanonical(s: string)
    requires Valid(BASE16_DIGITS, s)
    ensures Positional(BASE16_DIGITS, s) < Pow16(|s|)
    ensures Hex(Positional(BASE16_DIGITS, s), |s|) == s
    decreases |s|
  {
    hide HexDigit;
    hide Digit;
    hide Positional;
    hide Hex;
    if s == [] {
      NoDigits();
      assert |Hex(0, 0)| == 0;
    } else {
      var init, c := s[..|s| - 1], s[|s| - 1];
      assert s == init + [c];
      HexCanonical(init);
      HexDigitOfDigit(c);
      PositionalSnoc(BASE16_DIGITS, init, c);
      HexSnoc(Positional(BASE16_DIGITS, init), |init|, Digit(BASE16_DIGITS, c));
    }
  }

  lemma Pow16Of32()
    ensures Pow16(32) == B128
  {
    Pow16Of16();
    assert Pow16(20) == 0x1_0000 * U64_RANGE;
    assert Pow16(24) == 0x1_0000_0000 * U64_RANGE;
    assert Pow16(28) == 0x1_0000_0000_0000 * U64_RANGE;
  }

  /** Printing and parsing: the numeral printed for an identifier reads back as that identifier, and a string is
      what is printed for the identifier it stands for exactly when it is thirty-two lower-case digits. */
  lemma Base16RoundTrip(id: SpotifyId, s: string)
    ensures Valid(BASE16_DIGITS, Printed(id)) && Parsed(BASE16_DIGITS, Printed(id)) == id
    ensures Valid(BASE16_DIGITS, s) ==> (Printed(Parsed(BASE16_DIGITS, s)) == s <==> |s| == 32)
  {
    hide Hex;
    hide Value;
    hide Positional;
    hide Valid;
    Pow16Of32();
    HexRoundTrip(Value(id.n), 32);
    ValueInjective(Parsed(BASE16_DIGITS, Printed(id)).n, id.n);
    if Valid(BASE16_DIGITS, s) && |s| == 32 {
      HexCanonical(s);
    }
  }

  // ----- raw bytes

  /** The identifier of sixteen bytes, most significant first. */
  function RawId(data: seq<byte>): (id: SpotifyId)
    requires |data| == 16
    ensures Value(id.n) == FromBytesBE(data)
  {
    Pow256Of16();
    BytesCanonical(data);
    SpotifyId(FromValue(FromBytesBE(data)))
  }

  lemma Pow256Of16()
    ensures Pow256(16) == B128
  {
    U64Fits();
    assert Pow256(12) == 0x1_0000_0000 * U64_RANGE;
  }

  method FromRaw(data: seq<byte>) returns (id: SpotifyId)
    requires |data| == 16
    ensures id == RawId(data)
  {
    hide FromBytesBE;
    RawHalves(data);
    id := SpotifyId(U128(FromBytesBE(data[..8]), FromBytesBE(data[8..])));
    ValueInjective(id.n, RawId(data).n);
  }

  method ToRaw(id: SpotifyId) returns (data: seq<byte>)
    ensures data == ToBytesBE(Value(id.n), 16)
  {
    hide ToBytesBE;
    hide FromBytesBE;
    data := ToBytesBE(id.n.high, 8) + ToBytesBE(id.n.low, 8);
    U64Fits();
    BytesRoundTrip(id.n.high, 8);
    BytesRoundTrip(id.n.low, 8);
    assert data[..8] == ToBytesBE(id.n.high, 8) && data[8..] == ToBytesBE(id.n.low, 8);
    RawHalves(data);
    BytesCanonical(data);
  }

  lemma RawHalves(data: seq<byte>)
    requires |data| == 16
    ensures FromBytesBE(data[..8]) < U64_RANGE && FromBytesBE(data[8..]) < U64_RANGE
    ensures FromBytesBE(data) == FromBytesBE(data[..8]) * U64_RANGE + FromBytesBE(data[8..])
  {
    U64Fits();
    BytesCanonical(data[..8]);
    BytesCanonical(data[8..]);
    BytesSplit(data[..8], data[8..]);
    assert data == data[..8] + data[8..];
  }

  /** `from_raw` and `to_raw` undo each other, in both directions. */
  lemma RawRoundTrip(id: SpotifyId, data: seq<byte>)
    requires |data| == 16
    ensures RawId(ToBytesBE(Value(id.n), 16)) == id
    ensures ToBytesBE(Value(RawId(data).n), 16) == data
  {
    hide Value;
    hide FromBytesBE;
    hide ToBytesBE;
    Pow256Of16();
    BytesRoundTrip(Value(id.n), 16);
    ValueInjective(RawId(ToBytesBE(Value(id.n), 16)).n, id.n);
    BytesCanonical(data);
  }

  /** `{:02x}` of every byte, one after the other: what `FileId::to_base16` prints. */
  function BytesHex(data: seq<byte>): (s: string)
    ensures |s| == 2 * |data|
  {
    if data == [] then []
    else
      var b := data[0];
      [HexDigit(b / 16), HexDigit(b % 16)] + BytesHex(data[1..])
  }

  lemma {:induction false} BytesHexAppend(a: seq<byte>, b: seq<byte>)
    ensures BytesHex(a + b) == BytesHex(a) + BytesHex(b)
  {
    if a == [] {
      assert a + b == b;
    } else {
      assert (a + b)[1..] == a[1..] + b;
      BytesHexAppend(a[1..], b);
    }
  }

  lemma ByteHex(m: nat, width: nat, b: byte)
    ensures Hex(256 * m + b, width + 2) == Hex(m, width) + BytesHex([b])
  {
    hide HexDigit;
    assert BytesHex([b]) == [HexDigit(b / 16), HexDigit(b % 16)];
    hide Hex;
    hide BytesHex;
    var high, low := b / 16, b % 16;
    assert 256 * m + b == 16 * (16 * m + high) + low;
    HexSnoc(m, width, high);
    HexSnoc(16 * m + high, width + 1, low);
  }

  /** An identifier read from raw bytes prints as those bytes do, two digits each; so do file identifiers. */
  lemma {:induction false} RawPrintsBytewise(data: seq<byte>)
    ensures Hex(FromBytesBE(data), 2 * |data|) == BytesHex(data)
    decreases |data|
  {
    hide HexDigit;
    if data == [] {
      assert |Hex(0, 0)| == 0;
    } else {
      var n := |data| - 1;
      var b := data[n];
      RawPrintsBytewise(data[..n]);
      assert data == data[..n] + [b];
      BytesHexAppend(data[..n], [b]);
      ByteHex(FromBytesBE(data[..n]), 2 * n, b);
    }
  }
}
