/** Bytes, big-endian integers and the draining buffer that every packet reader of the source uses. */
module Bytes {

  type byte = b: int | 0 <= b < 256

  const U16_RANGE := 0x1_0000
  const U32_RANGE := 0x1_0000_0000
  const U64_RANGE := 0x1_0000_0000_0000_0000

  function Concat<T>(parts: seq<seq<T>>): seq<T> {
    if parts == [] then [] else parts[0] + Concat(parts[1..])
  }

  lemma {:induction false} ConcatAppend<T>(a: seq<seq<T>>, b: seq<seq<T>>)
    ensures Concat(a + b) == Concat(a) + Concat(b)
  {
    if a == [] {
      assert a + b == b;
    } else {
      assert (a + b)[1..] == a[1..] + b;
      ConcatAppend(a[1..], b);
    }
  }

  lemma ConcatOne<T>(a: seq<T>)
    ensures Concat([a]) == a
  {
    assert [a][1..] == [];
  }

  /** `write_u16::<BigEndian>(n as u16)`: the cast keeps the low sixteen bits. */
  function U16Bytes(n: nat): (s: seq<byte>)
    ensures |s| == 2
  {
    [n / 256 % 256, n % 256]
  }

  function ReadU16(s: seq<byte>): (n: nat)
    requires |s| == 2
    ensures n < U16_RANGE
  {
    (s[0] as int) * 256 + s[1] as int
  }

  lemma LowSixteen(k: nat, r: nat)
    requires r < U16_RANGE
    ensures (U16_RANGE * k + r) % U16_RANGE == r
  {
  }

  lemma U16RoundTrip(n: nat)
    ensures ReadU16(U16Bytes(n)) == n % U16_RANGE
  {
    var q, r := n / 256, n % 256;
    LowSixteen(q / 256, 256 * (q % 256) + r);
  }

  lemma U16Canonical(s: seq<byte>)
    requires |s| == 2
    ensures U16Bytes(ReadU16(s)) == s
  {
    var n := ReadU16(s);
    assert n / 256 == s[0] && n % 256 == s[1];
  }

  /** The value of a big-endian byte string, as `BigUint::from_bytes_be` and `read_u64` compute it. */
  function FromBytesBE(s: seq<byte>): nat {
    if s == [] then 0 else 256 * FromBytesBE(s[..|s| - 1]) + s[|s| - 1]
  }

  /** The low `width` bytes of n, most significant first, as `write_u64` stores them. */
  function ToBytesBE(n: nat, width: nat): (s: seq<byte>)
    ensures |s| == width
  {
    if width == 0 then [] else ToBytesBE(n / 256, width - 1) + [n % 256]
  }

  function Pow256(n: nat): (p: nat)
    ensures p > 0
  {
    if n == 0 then 1 else 256 * Pow256(n - 1)
  }

  lemma U64Fits()
    ensures Pow256(8) == U64_RANGE
  {
    assert Pow256(4) == U32_RANGE;
  }

  lemma {:induction false} BytesRoundTrip(n: nat, width: nat)
    requires n < Pow256(width)
    ensures FromBytesBE(ToBytesBE(n, width)) == n
  {
    if width == 0 {
    } else {
      BytesRoundTrip(n / 256, width - 1);
      assert ToBytesBE(n, width)[..width - 1] == ToBytesBE(n / 256, width - 1);
    }
  }

  lemma LowByte(n: nat, q: nat, p: nat)
    ensures (n + q * (256 * p)) / 256 == n / 256 + q * p && (n + q * (256 * p)) % 256 == n % 256
  {
    var m := q * p;
    assert q * (256 * p) == 256 * m;
  }

  /** Only the low bytes are written. */
  lemma {:induction false} BytesWrap(n: nat, q: nat, width: nat)
    ensures ToBytesBE(n + q * Pow256(width), width) == ToBytesBE(n, width)
  {
    if width == 0 {
    } else {
      LowByte(n, q, Pow256(width - 1));
      BytesWrap(n / 256, q, width - 1);
    }
  }

  lemma {:induction false} BytesCanonical(s: seq<byte>)
    ensures FromBytesBE(s) < Pow256(|s|)
    ensures ToBytesBE(FromBytesBE(s), |s|) == s
  {
    if s == [] {
    } else {
      BytesCanonical(s[..|s| - 1]);
    }
  }

  lemma Regroup(a: nat, p: nat, b: nat, last: nat)
    ensures 256 * (a * p + b) + last == a * (256 * p) + (256 * b + last)
  {
    var m := a * p;
    assert a * (256 * p) == 256 * m;
  }

  /** The bytes that come first weigh more. */
  lemma {:induction false} BytesSplit(a: seq<byte>, b: seq<byte>)
    ensures FromBytesBE(a + b) == FromBytesBE(a) * Pow256(|b|) + FromBytesBE(b)
    decreases |b|
  {
    if b == [] {
      assert a + b == a;
    } else {
      var n := |b| - 1;
      BytesSplit(a, b[..n]);
      Regroup(FromBytesBE(a), Pow256(n), FromBytesBE(b[..n]), b[n]);
      calc {
        FromBytesBE(a + b);
        { assert (a + b)[..|a| + n] == a + b[..n]; }
        256 * FromBytesBE(a + b[..n]) + b[n];
        FromBytesBE(a) * Pow256(n + 1) + FromBytesBE(b);
      }
    }
  }

  /** One byte stands for itself, and one place is worth 256. */
  lemma OneByte(b: byte)
    ensures FromBytesBE([b]) == b && Pow256(0) == 1 && Pow256(1) == 256
  {
    assert [b][..0] == [];
  }

  /** The sixteen-bit fields of every packet are big-endian: the byte that weighs 256 comes first. */
  lemma U16BigEndian(n: nat, hi: byte, lo: byte)
    ensures ReadU16([hi, lo]) == 256 * hi + lo == FromBytesBE([hi, lo])
    ensures U16Bytes(n) == [hi, lo] <==> n % 0x1_0000 == 256 * hi + lo
  {
    assert [hi, lo] == [hi] + [lo];
    OneByte(hi);
    OneByte(lo);
    BytesSplit([hi], [lo]);
    U16RoundTrip(n);
    U16Canonical([hi, lo]);
    if n % 0x1_0000 == 256 * hi + lo {
      U16Canonical(U16Bytes(n));
      U16Same(n, 256 * hi + lo);
    }
  }

  lemma U16Same(m: nat, n: nat)
    requires m % 0x1_0000 == n
    ensures U16Bytes(m) == U16Bytes(n)
  {
    U16RoundTrip(m);
    U16RoundTrip(n);
    U16Canonical(U16Bytes(m));
    U16Canonical(U16Bytes(n));
  }

  // ----- bytes as bit vectors

  lemma ShiftInBit(b: bv8)
    requires b as nat < 0x80
    ensures (b << 1) as nat == 2 * (b as nat) && ((b << 1) | 1) as nat == 2 * (b as nat) + 1
  {
  }

  /** The byte with a given value, put together bit by bit. */
  function Byte(n: nat): (b: bv8)
    requires n < 0x100
    ensures b as nat == n
  {
    if n == 0 then 0
    else
      var half := Byte(n / 2);
      ShiftInBit(half);
      if n % 2 == 0 then half << 1 else (half << 1) | 1
  }

  lemma ThereAndBack(b: bv8)
    ensures (b as nat) as bv8 == b
  {
  }

  lemma BitVectorValue(n: nat)
    requires n < 256
    ensures n as bv8 as nat == n && (n as bv8 == 0 ==> n == 0)
  {
    ThereAndBack(Byte(n));
  }

  // ----- the buffer

  /** `tokio_core::io::EasyBuf`: bytes are appended at the back and drained from the front. */
  class EasyBuf {
    var contents: seq<byte>

    constructor (contents: seq<byte>)
      ensures this.contents == contents
    {
      this.contents := contents;
    }

    /** Panics in the source when fewer than n bytes are buffered. */
    method DrainTo(n: nat) returns (front: seq<byte>)
      requires n <= |contents|
      modifies this
      ensures front == old(contents)[..n] && contents == old(contents)[n..]
    {
      front := contents[..n];
      contents := contents[n..];
    }

    method Append(more: seq<byte>)
      modifies this
      ensures contents == old(contents) + more
    {
      contents := contents + more;
    }
  }
}
