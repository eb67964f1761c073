/** Square-and-multiply exponentiation (core/src/util/mod.rs) and the key agreement built on it. */
module DiffieHellman {
  import opened Bytes

  function Pow(b: nat, e: nat): nat
    decreases e
  {
    if e == 0 then 1 else b * Pow(b, e - 1)
  }

  lemma PowLaws(b: nat, d: nat, e: nat)
    ensures Pow(b, 0) == 1 && Pow(b, 1) == b && Pow(b, d + e) == Pow(b, d) * Pow(b, e)
  {
    PowAdd(b, d, e);
    assert Pow(b, 1) == b * Pow(b, 0);
  }

  // ----- arithmetic of remainders

  lemma ModOfMultiple(x: int, k: int, m: nat)
    requires m > 0
    ensures (x + k * m) % m == x % m
  {
    var q := (x + k * m) / m;
    var p := x / m;
    assert x + k * m == q * m + (x + k * m) % m;
    assert x == p * m + x % m;
    assert (q - k - p) * m == x % m - (x + k * m) % m;
    MultipleInRange(q - k - p, m, x % m - (x + k * m) % m);
  }

  lemma MultipleInRange(k: int, m: int, d: int)
    requires k * m == d && -m < d < m
    ensures d == 0
  {
    assert k >= 1 ==> k * m >= m;
    assert k <= -1 ==> k * m <= -m;
  }

  lemma MulModLeft(a: nat, b: nat, m: nat)
    requires m > 0
    ensures ((a % m) * b) % m == (a * b) % m
  {
    var q := a / m;
    assert a == q * m + a % m;
    assert a * b == (a % m) * b + (q * b) * m by {
      assert a * b == (q * m + a % m) * b;
    }
    ModOfMultiple((a % m) * b, q * b, m);
  }

  lemma {:induction false} PowMod(a: nat, e: nat, m: nat)
    requires m > 0
    ensures Pow(a % m, e) % m == Pow(a, e) % m
    decreases e
  {
    if e == 0 {
    } else {
      PowMod(a, e - 1, m);
      var r := a % m;
      var p := Pow(r, e - 1);
      assert Pow(r, e) == r * p;
      MulModLeft(a, p, m);
      MulModLeft(p, a, m);
      MulModLeft(Pow(a, e - 1), a, m);
      Commute(a, p);
      Commute(p % m, a);
      Commute(Pow(a, e - 1), a);
    }
  }

  lemma Commute(a: int, b: int)
    ensures a * b == b * a
  {
  }

  lemma {:induction false} PowAdd(b: nat, d: nat, e: nat)
    ensures Pow(b, d + e) == Pow(b, d) * Pow(b, e)
    decreases d
  {
    if d == 0 {
    } else {
      PowAdd(b, d - 1, e);
      Associate(b, Pow(b, d - 1), Pow(b, e));
    }
  }

  lemma Associate(a: int, b: int, c: int)
    ensures a * (b * c) == (a * b) * c
  {
  }

  lemma {:induction false} PowPow(b: nat, d: nat, e: nat)
    ensures Pow(Pow(b, d), e) == Pow(b, d * e)
    decreases e
  {
    if e == 0 {
    } else {
      PowPow(b, d, e - 1);
      assert d * e == d + d * (e - 1);
      PowAdd(b, d, d * (e - 1));
    }
  }

  /** One round of the loop: halving the exponent and squaring the base keeps base^exp, up to the odd factor. */
  lemma Halve(b: nat, e: nat, m: nat)
    requires m > 0 && e > 0
    ensures Pow(b, e) % m == (Pow(b * b % m, e / 2) * (if e % 2 == 1 then b else 1)) % m
  {
    var h := e / 2;
    var square := Pow(b * b, h);
    PowAdd(b, 1, 1);
    assert Pow(b, 1) == b * Pow(b, 0);
    assert Pow(b, 2) == b * b;
    PowPow(b, 2, h);
    PowMod(b * b, h, m);
    if e % 2 == 1 {
      assert e == 2 * h + 1;
      PowAdd(b, 2 * h, 1);
      MulModLeft(square, b, m);
      MulModLeft(Pow(b * b % m, h), b, m);
    } else {
      assert e == 2 * h;
    }
  }

  lemma MulModRight(a: nat, b: nat, m: nat)
    requires m > 0
    ensures (a * (b % m)) % m == (a * b) % m
  {
    MulModLeft(b, a, m);
    Commute(a, b % m);
    Commute(a, b);
  }

  // ----- modular exponentiation

  /** What the three variables of the loop stand for together. */
  function Carried(result: nat, base: nat, exp: nat, modulus: nat): nat
    requires modulus > 0
  {
    (result * Pow(base, exp)) % modulus
  }

  lemma CarriedStart(base: nat, exp: nat, modulus: nat)
    requires modulus > 0
    ensures Carried(1, base, exp, modulus) == Pow(base, exp) % modulus
  {
  }

  lemma CarriedEnd(result: nat, base: nat, modulus: nat)
    requires result < modulus
    ensures Carried(result, base, 0, modulus) == result
  {
    assert Pow(base, 0) == 1;
    assert result * 1 == result;
    ModOfMultiple(result, 0, modulus);
  }

  lemma Round(r: nat, b: nat, e: nat, m: nat)
    requires m > 0 && e > 0
    ensures Carried(if e % 2 == 1 then r * b % m else r, b * b % m, e / 2, m) == Carried(r, b, e, m)
  {
    var p := Pow(b * b % m, e / 2);
    var odd := if e % 2 == 1 then b else 1;
    Halve(b, e, m);
    MulModRight(r, Pow(b, e), m);
    MulModRight(r, p * odd, m);
    if e % 2 == 1 {
      MulModLeft(r * b, p, m);
      assert r * b * p == r * (p * b) by {
        Commute(p, b);
        Associate(r, b, p);
      }
    }
  }

  /** A zeroth power is never reduced; every other result is b^e mod m. Dividing by a zero modulus panics. */
  method Powm(base: nat, exp: nat, modulus: nat) returns (result: nat)
    requires modulus > 0 || exp == 0
    ensures result == Power(base, exp, modulus)
    ensures exp == 0 ==> result == 1
    ensures exp > 0 ==> result == Pow(base, exp) % modulus
  {
    hide Carried;
    hide Pow;
    var b: nat, e: nat := base, exp;
    result := 1;
    if modulus > 0 {
      CarriedStart(base, exp, modulus);
    }
    while e != 0
      invariant modulus > 0 || e == 0
      invariant modulus > 0 ==> Carried(result, b, e, modulus) == Pow(base, exp) % modulus
      invariant if exp == 0 then result == 1 && e == 0 else e == 0 ==> result < modulus
    {
      Round(result, b, e, modulus);
      if e % 2 == 1 {
        result := result * b % modulus;
      }
      e := e / 2;
      b := b * b % modulus;
    }
    if exp > 0 {
      CarriedEnd(result, b, modulus);
    }
  }

  function Power(base: nat, exp: nat, modulus: nat): nat
    requires modulus > 0 || exp == 0
  {
    if exp == 0 then 1 else Pow(base, exp) % modulus
  }

  /** `powm` is the remainder of the power except for a zeroth power modulo 1. */
  lemma PowerIsRemainder(base: nat, exp: nat, modulus: nat)
    requires modulus > 0
    ensures Power(base, exp, modulus) == Pow(base, exp) % modulus <==> !(exp == 0 && modulus == 1)
  {
    if modulus > 1 {
      ModOfMultiple(1, 0, modulus);
    }
  }

  // ----- numbers as byte strings

  /** `to_bytes_be`: no leading zero byte, except that zero itself is one zero byte. */
  function ToBytes(n: nat): (s: seq<byte>)
    ensures s != []
  {
    if n < 256 then [n] else ToBytes(n / 256) + [n % 256]
  }

  lemma {:induction false} ToBytesRoundTrip(n: nat)
    ensures FromBytesBE(ToBytes(n)) == n
  {
    if n < 256 {
      assert ToBytes(n)[..0] == [];
    } else {
      ToBytesRoundTrip(n / 256);
      assert ToBytes(n)[..|ToBytes(n)| - 1] == ToBytes(n / 256);
    }
  }

  /** The bytes are as few as possible. */
  lemma {:induction false} ToBytesMinimal(n: nat)
    ensures ToBytes(n)[0] == 0 <==> n == 0
    ensures n < 256 <==> |ToBytes(n)| == 1
  {
    if n < 256 {
    } else {
      ToBytesMinimal(n / 256);
    }
  }

  // ----- key agreement

  const DH_GENERATOR := 2

  /** Eight bytes a row. */
  const DH_PRIME_ROWS: seq<seq<byte>> := [
    [0xff, 0xff, 0xff, 0xff, 0xff, 0xff, 0xff, 0xff],
    [0xc9, 0x0f, 0xda, 0xa2, 0x21, 0x68, 0xc2, 0x34],
    [0xc4, 0xc6, 0x62, 0x8b, 0x80, 0xdc, 0x1c, 0xd1],
    [0x29, 0x02, 0x4e, 0x08, 0x8a, 0x67, 0xcc, 0x74],
    [0x02, 0x0b, 0xbe, 0xa6, 0x3b, 0x13, 0x9b, 0x22],
    [0x51, 0x4a, 0x08, 0x79, 0x8e, 0x34, 0x04, 0xdd],
    [0xef, 0x95, 0x19, 0xb3, 0xcd, 0x3a, 0x43, 0x1b],
    [0x30, 0x2b, 0x0a, 0x6d, 0xf2, 0x5f, 0x14, 0x37],
    [0x4f, 0xe1, 0x35, 0x6d, 0x6d, 0x51, 0xc2, 0x45],
    [0xe4, 0x85, 0xb5, 0x76, 0x62, 0x5e, 0x7e, 0xc6],
    [0xf4, 0x4c, 0x42, 0xe9, 0xa6, 0x3a, 0x36, 0x20],
    [0xff, 0xff, 0xff, 0xff, 0xff, 0xff, 0xff, 0xff]]

  const DH_PRIME_BYTES := Concat(DH_PRIME_ROWS)

  /** The value of eight bytes. */
  function WordAt(s: seq<byte>, at: nat): int
    requires at + 8 <= |s|
  {
    0x1_00000000 * HalfWordAt(s, at) + HalfWordAt(s, at + 4)
  }

  function HalfWordAt(s: seq<byte>, at: nat): int
    requires at + 4 <= |s|
  {
    0x1000000 * s[at] as int + 0x10000 * s[at + 1] as int + 0x100 * s[at + 2] as int + s[at + 3] as int
  }

  lemma NextHalfWord(s: seq<byte>, at: nat)
    requires at + 4 <= |s|
    ensures FromBytesBE(s[..at + 4]) == FromBytesBE(s[..at]) * 0x1_00000000 + HalfWordAt(s, at)
  {
    assert s[..at + 1][..at] == s[..at] && s[..at + 2][..at + 1] == s[..at + 1];
    assert s[..at + 3][..at + 2] == s[..at + 2] && s[..at + 4][..at + 3] == s[..at + 3];
    assert FromBytesBE(s[..at + 2]) == 256 * FromBytesBE(s[..at + 1]) + s[at + 1];
  }

  lemma WordValue(w: seq<byte>)
    requires |w| == 8
    ensures FromBytesBE(w) == WordAt(w, 0)
  {
    NextHalfWord(w, 0);
    NextHalfWord(w, 4);
    assert w[..0] == [] && w[..8] == w;
  }

  lemma NextRow(rows: seq<seq<byte>>, k: nat, before: nat, value: nat)
    requires k < |rows| && |rows[k]| == 8 && WordAt(rows[k], 0) == value
    requires FromBytesBE(Concat(rows[..k])) == before
    ensures FromBytesBE(Concat(rows[..k + 1])) == before * 0x1_0000000000000000 + value
  {
    hide FromBytesBE;
    hide WordAt;
    hide Concat;
    assert rows[..k + 1] == rows[..k] + [rows[k]];
    ConcatAppend(rows[..k], [rows[k]]);
    ConcatOne(rows[k]);
    BytesSplit(Concat(rows[..k]), rows[k]);
    WordValue(rows[k]);
    U64Fits();
  }

  lemma NoRows(rows: seq<seq<byte>>)
    ensures FromBytesBE(Concat(rows[..0])) == 0
  {
  }

  lemma HighRows()
    ensures var rows := DH_PRIME_ROWS;
            |rows| == 12
            && |rows[0]| == 8 && WordAt(rows[0], 0) == 0xFFFFFFFFFFFFFFFF
            && |rows[1]| == 8 && WordAt(rows[1], 0) == 0xC90FDAA22168C234
            && |rows[2]| == 8 && WordAt(rows[2], 0) == 0xC4C6628B80DC1CD1
            && |rows[3]| == 8 && WordAt(rows[3], 0) == 0x29024E088A67CC74
            && |rows[4]| == 8 && WordAt(rows[4], 0) == 0x020BBEA63B139B22
            && |rows[5]| == 8 && WordAt(rows[5], 0) == 0x514A08798E3404DD
  {
  }

  lemma LowRows()
    ensures var rows := DH_PRIME_ROWS;
            |rows| == 12
            && |rows[6]| == 8 && WordAt(rows[6], 0) == 0xEF9519B3CD3A431B
            && |rows[7]| == 8 && WordAt(rows[7], 0) == 0x302B0A6DF25F1437
            && |rows[8]| == 8 && WordAt(rows[8], 0) == 0x4FE1356D6D51C245
            && |rows[9]| == 8 && WordAt(rows[9], 0) == 0xE485B576625E7EC6
            && |rows[10]| == 8 && WordAt(rows[10], 0) == 0xF44C42E9A63A3620
            && |rows[11]| == 8 && WordAt(rows[11], 0) == 0xFFFFFFFFFFFFFFFF
  {
  }

  lemma HighValue()
    ensures |DH_PRIME_ROWS| == 12
    ensures FromBytesBE(Concat(DH_PRIME_ROWS[..6])) ==
            0xFFFFFFFFFFFFFFFF_C90FDAA22168C234_C4C6628B80DC1CD1_29024E088A67CC74_020BBEA63B139B22_514A08798E3404DD
  {
    hide FromBytesBE;
    hide Concat;
    hide WordAt;
    var rows := DH_PRIME_ROWS[..6];
    HighRows();
    NoRows(rows);
    NextRow(rows, 0, 0x0, 0xFFFFFFFFFFFFFFFF);
    NextRow(rows, 1, 0xFFFFFFFFFFFFFFFF, 0xC90FDAA22168C234);
    NextRow(rows, 2, 0xFFFFFFFFFFFFFFFF_C90FDAA22168C234, 0xC4C6628B80DC1CD1);
    NextRow(rows, 3, 0xFFFFFFFFFFFFFFFF_C90FDAA22168C234_C4C6628B80DC1CD1, 0x29024E088A67CC74);
    NextRow(rows, 4, 0xFFFFFFFFFFFFFFFF_C90FDAA22168C234_C4C6628B80DC1CD1_29024E088A67CC74, 0x020BBEA63B139B22);
    NextRow(rows, 5, 0xFFFFFFFFFFFFFFFF_C90FDAA22168C234_C4C6628B80DC1CD1_29024E088A67CC74_020BBEA63B139B22,
            0x514A08798E3404DD);
    assert rows[..6] == rows;
  }

  lemma LowValue()
    ensures |DH_PRIME_ROWS| == 12 && |Concat(DH_PRIME_ROWS[6..])| == 48
    ensures FromBytesBE(Concat(DH_PRIME_ROWS[6..])) ==
            0xEF9519B3CD3A431B_302B0A6DF25F1437_4FE1356D6D51C245_E485B576625E7EC6_F44C42E9A63A3620_FFFFFFFFFFFFFFFF
  {
    hide FromBytesBE;
    hide Concat;
    hide WordAt;
    var rows := DH_PRIME_ROWS[6..];
    LowRows();
    NoRows(rows);
    NextRow(rows, 0, 0x0, 0xEF9519B3CD3A431B);
    NextRow(rows, 1, 0xEF9519B3CD3A431B, 0x302B0A6DF25F1437);
    NextRow(rows, 2, 0xEF9519B3CD3A431B_302B0A6DF25F1437, 0x4FE1356D6D51C245);
    NextRow(rows, 3, 0xEF9519B3CD3A431B_302B0A6DF25F1437_4FE1356D6D51C245, 0xE485B576625E7EC6);
    NextRow(rows, 4, 0xEF9519B3CD3A431B_302B0A6DF25F1437_4FE1356D6D51C245_E485B576625E7EC6, 0xF44C42E9A63A3620);
    NextRow(rows, 5, 0xEF9519B3CD3A431B_302B0A6DF25F1437_4FE1356D6D51C245_E485B576625E7EC6_F44C42E9A63A3620,
            0xFFFFFFFFFFFFFFFF);
    assert rows[..6] == rows;
    SixRows(rows);
  }

  lemma SixRows(rows: seq<seq<byte>>)
    requires |rows| == 6 && forall k :: 0 <= k < 6 ==> |rows[k]| == 8
    ensures |Concat(rows)| == 48
  {
    var rest := rows[1..][1..][1..];
    assert |Concat(rest)| == 24 by {
      assert |Concat(rest[1..][1..])| == 8 + |Concat(rest[1..][1..][1..])|;
    }
    assert |Concat(rows[1..][1..])| == 8 + |Concat(rest)|;
  }

  lemma Pow256Of48()
    ensures Pow256(48) ==
            0x1_0000000000000000_0000000000000000_0000000000000000_0000000000000000_0000000000000000_0000000000000000
  {
    assert Pow256(8) == 0x1_0000000000000000;
    assert Pow256(16) == 0x1_0000000000000000_0000000000000000;
    assert Pow256(24) == 0x1_0000000000000000_0000000000000000_0000000000000000;
    assert Pow256(32) == 0x1_0000000000000000_0000000000000000_0000000000000000_0000000000000000;
    assert Pow256(40) == 0x1_0000000000000000_0000000000000000_0000000000000000_0000000000000000_0000000000000000;
  }

  lemma PrimeValue()
    ensures FromBytesBE(DH_PRIME_BYTES) ==
            0xFFFFFFFFFFFFFFFF_C90FDAA22168C234_C4C6628B80DC1CD1_29024E088A67CC74_020BBEA63B139B22_514A08798E3404DD *
            0x1_0000000000000000_0000000000000000_0000000000000000_0000000000000000_0000000000000000_0000000000000000 +
            0xEF9519B3CD3A431B_302B0A6DF25F1437_4FE1356D6D51C245_E485B576625E7EC6_F44C42E9A63A3620_FFFFFFFFFFFFFFFF
  {
    hide FromBytesBE;
    hide Concat;
    hide Pow256;
    HighValue();
    LowValue();
    Pow256Of48();
    assert DH_PRIME_ROWS == DH_PRIME_ROWS[..6] + DH_PRIME_ROWS[6..];
    ConcatAppend(DH_PRIME_ROWS[..6], DH_PRIME_ROWS[6..]);
    BytesSplit(Concat(DH_PRIME_ROWS[..6]), Concat(DH_PRIME_ROWS[6..]));
  }

  /** The 768-bit group of section 6.1 of RFC 2409. */
  function DhPrime(): (p: nat)
    ensures p >= 2
  {
    PrimeValue();
    FromBytesBE(DH_PRIME_BYTES)
  }

  /** The prime of that group as a number: its upper and its lower 384 bits. */
  lemma PrimeExactly()
    ensures DhPrime() ==
            0xFFFFFFFFFFFFFFFF_C90FDAA22168C234_C4C6628B80DC1CD1_29024E088A67CC74_020BBEA63B139B22_514A08798E3404DD *
            0x1_0000000000000000_0000000000000000_0000000000000000_0000000000000000_0000000000000000_0000000000000000 +
            0xEF9519B3CD3A431B_302B0A6DF25F1437_4FE1356D6D51C245_E485B576625E7EC6_F44C42E9A63A3620_FFFFFFFFFFFFFFFF
  {
    hide FromBytesBE;
    PrimeValue();
  }

  datatype DHLocalKeys = DHLocalKeys(privateKey: nat, publicKey: nat) {

    function PublicKey(): seq<byte> {
      ToBytes(publicKey)
    }

    function SharedSecret(remoteKey: seq<byte>): seq<byte> {
      ToBytes(Power(FromBytesBE(remoteKey), privateKey, DhPrime()))
    }
  }

  /** `DHLocalKeys::random`, given the ninety-five random bytes. */
  function FromRandomBytes(keyData: seq<byte>): DHLocalKeys {
    var privateKey := FromBytesBE(keyData);
    DHLocalKeys(privateKey, Power(DH_GENERATOR, privateKey, DhPrime()))
  }

  lemma PowerReduced(b: nat, e: nat, m: nat)
    requires m >= 2
    ensures Power(b, e, m) == Pow(b, e) % m
  {
    PowerIsRemainder(b, e, m);
  }

  /** The public key sent is the power of two by the random bytes, and the secret derived from any bytes received is
      the power of those, both modulo the prime. */
  lemma KeysExactly(keyData: seq<byte>, remoteKey: seq<byte>)
    ensures FromBytesBE(FromRandomBytes(keyData).PublicKey()) == Pow(2, FromBytesBE(keyData)) % DhPrime()
    ensures FromBytesBE(FromRandomBytes(keyData).SharedSecret(remoteKey)) ==
            Pow(FromBytesBE(remoteKey), FromBytesBE(keyData)) % DhPrime()
  {
    hide Pow;
    hide Power;
    hide FromBytesBE;
    hide ToBytes;
    hide DhPrime;
    var keys, p := FromRandomBytes(keyData), DhPrime();
    ToBytesRoundTrip(keys.publicKey);
    PowerReduced(DH_GENERATOR, keys.privateKey, p);
    ToBytesRoundTrip(Power(FromBytesBE(remoteKey), keys.privateKey, p));
    PowerReduced(FromBytesBE(remoteKey), keys.privateKey, p);
  }

  /** Both parties derive the same bytes, the powers agreeing through reduction and both byte conversions. */
  lemma SharedSecretsAgree(a: seq<byte>, b: seq<byte>)
    ensures FromRandomBytes(a).SharedSecret(FromRandomBytes(b).PublicKey()) ==
            FromRandomBytes(b).SharedSecret(FromRandomBytes(a).PublicKey())
    ensures FromBytesBE(FromRandomBytes(a).SharedSecret(FromRandomBytes(b).PublicKey())) ==
            Pow(Pow(2, FromBytesBE(a)), FromBytesBE(b)) % DhPrime()
  {
    hide Pow;
    hide Power;
    hide FromBytesBE;
    hide ToBytes;
    hide DhPrime;
    var alice, bob, p := FromRandomBytes(a), FromRandomBytes(b), DhPrime();
    var x, y := alice.privateKey, bob.privateKey;
    ToBytesRoundTrip(alice.publicKey);
    ToBytesRoundTrip(bob.publicKey);
    PowerOfPower(x, y, p);
    PowerOfPower(y, x, p);
    Commute(x, y);
    PowPow(DH_GENERATOR, x, y);
    ToBytesRoundTrip(Power(bob.publicKey, x, p));
  }

  lemma PowerOfPower(x: nat, y: nat, p: nat)
    requires p >= 2
    ensures Power(Power(DH_GENERATOR, x, p), y, p) == Pow(DH_GENERATOR, x * y) % p
  {
    PowerReduced(DH_GENERATOR, x, p);
    PowerReduced(Power(DH_GENERATOR, x, p), y, p);
    PowMod(Pow(DH_GENERATOR, x), y, p);
    PowPow(DH_GENERATOR, x, y);
  }
}
