/** Reading credentials out of a decrypted blob (core/src/authentication.rs). */
module Authentication {
  import Bytes
  import opened Wrappers

  const BLOCK := 16

  // ----- the chaining of blocks

  /** A byte combined with the one a block earlier, if there is one. */
  function Mixed(before: seq<bv8>, b: bv8): bv8 {
    if |before| < BLOCK then b else b ^ before[|before| - BLOCK]
  }

  lemma MixedTwice(before: seq<bv8>, b: bv8)
    ensures Mixed(before, Mixed(before, b)) == b
  {
  }

  /** Each byte after the first block was combined with the output byte one block earlier. */
  function Chained(plain: seq<bv8>): (c: seq<bv8>)
    ensures |c| == |plain|
  {
    if plain == [] then []
    else
      var n := |plain| - 1;
      var before := Chained(plain[..n]);
      before + [Mixed(before, plain[n])]
  }

  function Unchained(chained: seq<bv8>): (p: seq<bv8>)
    ensures |p| == |chained|
  {
    seq(|chained|, k requires 0 <= k < |chained| => Mixed(chained[..k], chained[k]))
  }

  lemma UnchainedSnoc(before: seq<bv8>, b: bv8)
    ensures Unchained(before + [b]) == Unchained(before) + [Mixed(before, b)]
  {
    hide Mixed;
    var chained := before + [b];
    forall k | 0 <= k < |chained| ensures Unchained(chained)[k] == (Unchained(before) + [Mixed(before, b)])[k] {
      assert chained[..k] == before[..k];
      assert k == |before| ==> chained[..k] == before;
    }
  }

  lemma ChainedSnoc(plain: seq<bv8>, b: bv8)
    ensures Chained(plain + [b]) == Chained(plain) + [Mixed(Chained(plain), b)]
  {
    hide Mixed;
    assert (plain + [b])[..|plain|] == plain;
  }

  /** Every byte from the seventeenth on is combined with the one sixteen places earlier. */
  lemma UnchainedExactly(chained: seq<bv8>, k: nat)
    requires k < |chained|
    ensures Unchained(chained)[k] == if k < 16 then chained[k] else chained[k] ^ chained[k - 16]
  {
  }

  lemma {:induction false} UnchainChained(plain: seq<bv8>)
    ensures Unchained(Chained(plain)) == plain
  {
    hide Mixed;
    hide Unchained;
    hide Chained;
    if plain == [] {
    } else {
      var n := |plain| - 1;
      var before := Chained(plain[..n]);
      assert plain == plain[..n] + [plain[n]];
      ChainedSnoc(plain[..n], plain[n]);
      UnchainedSnoc(before, Mixed(before, plain[n]));
      UnchainChained(plain[..n]);
      MixedTwice(before, plain[n]);
    }
  }

  lemma {:induction false} ChainUnchained(chained: seq<bv8>)
    ensures Chained(Unchained(chained)) == chained
    decreases |chained|
  {
    hide Mixed;
    hide Unchained;
    hide Chained;
    if chained == [] {
    } else {
      var n := |chained| - 1;
      var before := chained[..n];
      assert chained == before + [chained[n]];
      UnchainedSnoc(before, chained[n]);
      ChainedSnoc(Unchained(before), Mixed(before, chained[n]));
      ChainUnchained(before);
      MixedTwice(before, chained[n]);
    }
  }

  /** The backward loop. A buffer shorter than a block makes the loop bound underflow. */
  method UnchainInPlace(data: array<bv8>)
    requires data.Length >= BLOCK
    modifies data
    ensures data[..] == Unchained(old(data[..]))
    ensures forall k :: 0 <= k < 16 ==> data[k] == old(data[k])
    ensures forall k :: 16 <= k < data.Length ==> data[k] == old(data[k]) ^ old(data[k - 16])
  {
    var l := data.Length;
    ghost var chained := data[..];
    for i := 0 to l - 0x10
      invariant forall k :: 0 <= k < l - i ==> data[k] == chained[k]
      invariant forall k :: l - i <= k < l ==> data[k] == chained[k] ^ chained[k - 16]
    {
      data[l - i - 1] := data[l - i - 1] ^ data[l - i - 0x11];
    }
    hide Unchained;
    forall k | 0 <= k < l ensures data[k] == Unchained(chained)[k] {
      UnchainedExactly(chained, k);
    }
  }

  // ----- variable-length integers and fields

  /** What a reader has left to read; `None` is an unexpected end of the stream. */
  function ReadU8(s: seq<bv8>): Option<(bv8, seq<bv8>)> {
    if s == [] then None else Some((s[0], s[1..]))
  }

  function ReadInt(s: seq<bv8>): Option<(nat, seq<bv8>)> {
    match ReadU8(s)
    case None => None
    case Some((lo, rest)) =>
      if lo & 0x80 == 0 then Some((lo as nat, rest))
      else
        match ReadU8(rest)
        case None => None
        case Some((hi, rest')) => Some(((((lo & 0x7f) as bv32) | ((hi as bv32) << 7)) as nat, rest'))
  }

  function ReadBytes(s: seq<bv8>): Option<(seq<bv8>, seq<bv8>)> {
    match ReadInt(s)
    case None => None
    case Some((length, rest)) => if |rest| < length then None else Some((rest[..length], rest[length..]))
  }

  /** One byte below 128, otherwise the low seven bits with the top bit set and then the rest. */
  function WriteNumber(n: nat): seq<bv8>
    requires n < 0x8000
  {
    if n < 0x80 then [Bytes.Byte(n)] else [Bytes.Byte(n % 0x80) | 0x80, Bytes.Byte(n / 0x80)]
  }

  lemma LongForm(b: bv8)
    requires b as nat < 0x80
    ensures (b | 0x80) & 0x80 != 0 && (b | 0x80) as nat % 0x80 == b as nat
  {
  }

  lemma ShortForm(b: bv8)
    requires b as nat < 0x80
    ensures b & 0x80 == 0
  {
  }

  lemma IntValue(lo: bv8, hi: bv8)
    ensures (((lo & 0x7f) as bv32) | ((hi as bv32) << 7)) as nat == (lo as nat) % 0x80 + 0x80 * (hi as nat)
  {
  }

  /** The bit operations of `read_int` read seven bits from the first byte and eight from the second. */
  lemma ReadIntValue(lo: bv8, hi: bv8, rest: seq<bv8>)
    ensures ReadInt([lo, hi] + rest) ==
            if lo & 0x80 == 0 then Some((lo as nat, [hi] + rest))
            else Some(((lo as nat) % 0x80 + 0x80 * (hi as nat), rest))
  {
    var s := [lo, hi] + rest;
    assert s[0] == lo && s[1..] == [hi] + rest && s[1..][1..] == rest;
    IntValue(lo, hi);
  }

  lemma ReadShort(lo: bv8, rest: seq<bv8>)
    requires lo & 0x80 == 0
    ensures ReadInt([lo] + rest) == Some((lo as nat, rest))
  {
    assert ([lo] + rest)[1..] == rest;
  }

  lemma NumberRoundTrip(n: nat, rest: seq<bv8>)
    requires n < 0x8000
    ensures ReadInt(WriteNumber(n) + rest) == Some((n, rest))
  {
    hide Bytes.Byte;
    hide ReadInt;
    if n < 0x80 {
      ShortForm(Bytes.Byte(n));
      ReadShort(Bytes.Byte(n), rest);
    } else {
      LongForm(Bytes.Byte(n % 0x80));
      ReadIntValue(Bytes.Byte(n % 0x80) | 0x80, Bytes.Byte(n / 0x80), rest);
    }
  }

  function WriteBytes(data: seq<bv8>): seq<bv8>
    requires |data| < 0x8000
  {
    WriteNumber(|data|) + data
  }

  lemma BytesRoundTrip(data: seq<bv8>, rest: seq<bv8>)
    requires |data| < 0x8000
    ensures ReadBytes(WriteBytes(data) + rest) == Some((data, rest))
  {
    hide ReadInt;
    hide WriteNumber;
    NumberRoundTrip(|data|, data + rest);
    assert WriteBytes(data) + rest == WriteNumber(|data|) + (data + rest);
  }

  /** Two bytes hold no more than fifteen bits, so no longer field can be stored. */
  lemma NumbersAreShort(s: seq<bv8>)
    requires ReadInt(s).Some?
    ensures ReadInt(s).value.0 < 0x8000
  {
    var lo := s[0];
    if lo & 0x80 != 0 {
      IntValue(lo, s[1]);
    }
  }

  /** What a number read is, for any bytes: one byte below 128, or seven bits of the first and eight of the second. */
  lemma ReadIntExactly(s: seq<bv8>)
    ensures ReadInt(s) ==
            if s != [] && s[0] & 0x80 == 0 then Some((s[0] as nat, s[1..]))
            else if |s| < 2 then None
            else Some(((s[0] as nat) % 0x80 + 0x80 * (s[1] as nat), s[2..]))
  {
    if s != [] && s[0] & 0x80 == 0 {
      assert s == [s[0]] + s[1..];
      ReadShort(s[0], s[1..]);
    } else if |s| >= 2 {
      assert s == [s[0], s[1]] + s[2..];
      ReadIntValue(s[0], s[1], s[2..]);
    }
  }

  /** A field is read exactly if its length is, and that many bytes follow. */
  lemma ReadBytesExactly(s: seq<bv8>, data: seq<bv8>, rest: seq<bv8>)
    ensures ReadBytes(s) == Some((data, rest)) <==> ReadInt(s) == Some((|data|, data + rest))
  {
    hide ReadInt;
    if ReadInt(s) == Some((|data|, data + rest)) {
      assert (data + rest)[..|data|] == data && (data + rest)[|data|..] == rest;
    }
    if ReadBytes(s) == Some((data, rest)) {
      var (length, after) := ReadInt(s).value;
      assert after == after[..length] + after[length..];
    }
  }

  // ----- the blob

  datatype AuthenticationType =
    | UserPass
    | StoredSpotifyCredentials
    | StoredFacebookCredentials
    | SpotifyToken
    | FacebookToken

  function TypeFromInt(n: nat): Option<AuthenticationType> {
    match n
    case 0 => Some(UserPass)
    case 1 => Some(StoredSpotifyCredentials)
    case 2 => Some(StoredFacebookCredentials)
    case 3 => Some(SpotifyToken)
    case 4 => Some(FacebookToken)
    case _ => None
  }

  function TypeNumber(t: AuthenticationType): (n: nat)
    ensures n < 5 && TypeFromInt(n) == Some(t)
  {
    match t
    case UserPass => 0
    case StoredSpotifyCredentials => 1
    case StoredFacebookCredentials => 2
    case SpotifyToken => 3
    case FacebookToken => 4
  }

  datatype Credentials = Credentials(username: string, authType: AuthenticationType, authData: seq<bv8>)

  /** The reads of `with_blob` in order; `None` where a read fails or the type is unknown and the source panics. */
  function ReadBlob(username: string, blob: seq<bv8>): Option<Credentials> {
    match ReadU8(blob)
    case None => None
    case Some((_, s1)) =>
    match ReadBytes(s1)
    case None => None
    case Some((_, s2)) =>
    match ReadU8(s2)
    case None => None
    case Some((_, s3)) =>
    match ReadInt(s3)
    case None => None
    case Some((number, s4)) =>
    var authType := TypeFromInt(number);
    if authType.None? then None
    else
      match ReadU8(s4)
      case None => None
      case Some((_, s5)) =>
      match ReadBytes(s5)
      case None => None
      case Some((authData, _)) => Some(Credentials(username, authType.value, authData))
  }

  /** The layout the reads expect: three tag bytes whose values do not matter, the user name, the type and the data. */
  function WriteBlob(tags: (bv8, bv8, bv8), name: seq<bv8>, authType: AuthenticationType, authData: seq<bv8>): seq<bv8>
    requires |name| < 0x8000 && |authData| < 0x8000
  {
    [tags.0] + WriteBytes(name) + [tags.1] + WriteNumber(TypeNumber(authType)) + [tags.2] + WriteBytes(authData)
  }

  lemma TagRead(tag: bv8, rest: seq<bv8>)
    ensures ReadU8([tag] + rest) == Some((tag, rest))
  {
  }

  lemma BlobRoundTrip(username: string, tags: (bv8, bv8, bv8), name: seq<bv8>, authType: AuthenticationType,
                      authData: seq<bv8>, padding: seq<bv8>)
    requires |name| < 0x8000 && |authData| < 0x8000
    ensures ReadBlob(username, WriteBlob(tags, name, authType, authData) + padding) ==
            Some(Credentials(username, authType, authData))
  {
    hide ReadBytes;
    hide ReadInt;
    hide ReadU8;
    hide WriteBytes;
    hide WriteNumber;
    hide TypeFromInt;
    var s5 := WriteBytes(authData) + padding;
    var s4 := [tags.2] + s5;
    var s3 := WriteNumber(TypeNumber(authType)) + s4;
    var s2 := [tags.1] + s3;
    var s1 := WriteBytes(name) + s2;
    assert WriteBlob(tags, name, authType, authData) + padding == [tags.0] + s1;
    TagRead(tags.0, s1);
    BytesRoundTrip(name, s2);
    TagRead(tags.1, s3);
    NumberRoundTrip(TypeNumber(authType), s4);
    TagRead(tags.2, s5);
    BytesRoundTrip(authData, padding);
  }

  /** The layout, byte by byte: three bytes that do not matter, the user name with its length before it, the type, and
      the data with its length before it. Undoing the chaining and reading recovers the type and the data. */
  lemma ChainedBlobRoundTrip(username: string, tags: (bv8, bv8, bv8), name: seq<bv8>, authType: AuthenticationType,
                             authData: seq<bv8>, padding: seq<bv8>)
    requires |name| < 0x8000 && |authData| < 0x8000
    ensures var number := match authType
                          case UserPass => 0
                          case StoredSpotifyCredentials => 1
                          case StoredFacebookCredentials => 2
                          case SpotifyToken => 3
                          case FacebookToken => 4;
            var blob := [tags.0] + WriteNumber(|name|) + name + [tags.1] + WriteNumber(number) + [tags.2]
                        + WriteNumber(|authData|) + authData + padding;
            ReadBlob(username, Unchained(Chained(blob))) == Some(Credentials(username, authType, authData))
  {
    hide ReadBlob;
    hide Chained;
    hide Unchained;
    hide WriteNumber;
    var blob := WriteBlob(tags, name, authType, authData) + padding;
    UnchainChained(blob);
    BlobRoundTrip(username, tags, name, authType, authData, padding);
    var lengths := (WriteNumber(|name|), WriteNumber(|authData|));
    var number := WriteNumber(TypeNumber(authType));
    Regroup([tags.0], lengths.0, name, [tags.1] + number + [tags.2]);
    var front := [tags.0] + lengths.0 + name + [tags.1] + number + [tags.2];
    assert [tags.0] + (lengths.0 + name) + [tags.1] + number + [tags.2] == front;
    Regroup(front, lengths.1, authData, padding);
  }

  lemma Regroup(a: seq<bv8>, b: seq<bv8>, c: seq<bv8>, d: seq<bv8>)
    ensures a + (b + c) + d == a + b + c + d
  {
  }

  // ----- the imperative form

  class Cursor {
    const data: seq<bv8>
    var position: nat

    ghost predicate Valid()
      reads this
    {
      position <= |data|
    }

    ghost function Left(): seq<bv8>
      requires Valid()
      reads this
    {
      data[position..]
    }

    constructor (data: seq<bv8>)
      ensures Valid() && this.data == data && Left() == data
    {
      this.data, position := data, 0;
    }

    method NextU8() returns (r: Option<bv8>)
      requires Valid()
      modifies this
      ensures Valid()
      ensures if r.Some? then ReadU8(old(Left())) == Some((r.value, Left())) else ReadU8(old(Left())).None?
    {
      if position == |data| {
        return None;
      }
      r := Some(data[position]);
      position := position + 1;
    }

    method NextInt() returns (r: Option<nat>)
      requires Valid()
      modifies this
      ensures Valid()
      ensures if r.Some? then ReadInt(old(Left())) == Some((r.value, Left())) else ReadInt(old(Left())).None?
    {
      var lo := NextU8();
      if lo.None? {
        return None;
      }
      if lo.value & 0x80 == 0 {
        return Some(lo.value as nat);
      }
      var hi := NextU8();
      if hi.None? {
        return None;
      }
      return Some((((lo.value & 0x7f) as bv32) | ((hi.value as bv32) << 7)) as nat);
    }

    method NextBytes() returns (r: Option<seq<bv8>>)
      requires Valid()
      modifies this
      ensures Valid()
      ensures if r.Some? then ReadBytes(old(Left())) == Some((r.value, Left())) else ReadBytes(old(Left())).None?
    {
      hide ReadInt;
      var length := NextInt();
      ghost var rest := Left();
      if length.None? || |data| - position < length.value {
        return None;
      }
      r := Some(data[position..position + length.value]);
      position := position + length.value;
      assert r.value == rest[..length.value] && Left() == rest[length.value..];
    }
  }

  /** `Credentials::with_blob` from the decrypted bytes on. */
  method WithBlob(username: string, data: array<bv8>) returns (r: Option<Credentials>)
    requires data.Length >= BLOCK
    modifies data
    ensures data[..] == Unchained(old(data[..])) && r == ReadBlob(username, data[..])
  {
    hide ReadBytes;
    hide ReadInt;
    hide ReadU8;
    hide TypeFromInt;
    hide Unchained;
    UnchainInPlace(data);
    var blob := data[..];
    var cursor := new Cursor(blob);
    var tag := cursor.NextU8();
    if tag.None? {
      return None;
    }
    var name := cursor.NextBytes();
    if name.None? {
      return None;
    }
    tag := cursor.NextU8();
    if tag.None? {
      return None;
    }
    var number := cursor.NextInt();
    if number.None? {
      return None;
    }
    var authType := TypeFromInt(number.value);
    if authType.None? {
      return None;
    }
    tag := cursor.NextU8();
    if tag.None? {
      return None;
    }
    var authData := cursor.NextBytes();
    if authData.None? {
      return None;
    }
    return Some(Credentials(username, authType.value, authData.value));
  }
}
