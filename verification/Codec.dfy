/** The Shannon stream cipher, as far as the packet codec relies on it. */
module Shannon {
  import opened Bytes

  /** A keyed byte transducer: what a byte turns into may depend on everything processed since `start`. */
  datatype Cipher<!S> = Cipher(
    unkeyed: seq<byte> -> S,
    start: (seq<byte>, nat) -> S,
    encrypt: (S, byte) -> (S, byte),
    decrypt: (S, byte) -> (S, byte),
    mac: S -> seq<byte>)

  const MAC_SIZE := 4

  /** Decryption and encryption undo each other byte by byte and reach the same state; a MAC is four bytes. */
  ghost predicate Lawful<S(!new)>(c: Cipher<S>) {
    && (forall s: S, b: byte :: c.decrypt(s, c.encrypt(s, b).1) == (c.encrypt(s, b).0, b))
    && (forall s: S, b: byte :: c.encrypt(s, c.decrypt(s, b).1) == (c.decrypt(s, b).0, b))
    && (forall s: S :: |c.mac(s)| == MAC_SIZE)
  }

  // A small lawful cipher, each byte turned over when the plain byte before it was odd: the laws can be met by a
  // cipher whose keystream depends on the text.

  function TurnOver(s: int, b: byte): byte {
    if s % 2 == 1 then 255 - b else b
  }

  function TurnOverEncrypt(s: int, b: byte): (int, byte) {
    (b, TurnOver(s, b))
  }

  function TurnOverDecrypt(s: int, b: byte): (int, byte) {
    (TurnOver(s, b), TurnOver(s, b))
  }

  function TurnOverMac(s: int): seq<byte> {
    [0, 0, 0, s % 256]
  }

  function TurnOverCipher(): Cipher<int> {
    Cipher(key => |key|, (key: seq<byte>, nonce: nat) => |key| + nonce, TurnOverEncrypt, TurnOverDecrypt, TurnOverMac)
  }

  lemma LawfulCiphersExist()
    ensures Lawful(TurnOverCipher())
  {
    forall s: int, b: byte ensures TurnOver(s, TurnOver(s, b)) == b {
    }
  }

  /** Feeds a byte string through one direction of the cipher. */
  function Apply<S>(f: (S, byte) -> (S, byte), s: S, text: seq<byte>): (r: (S, seq<byte>))
    ensures |r.1| == |text|
  {
    if text == [] then (s, [])
    else
      var (s', b) := f(s, text[0]);
      var (s'', rest) := Apply(f, s', text[1..]);
      (s'', [b] + rest)
  }

  /** A byte is transformed by the cipher as the bytes before it have left it. */
  lemma ApplyOne<S>(f: (S, byte) -> (S, byte), s: S, b: byte)
    ensures Apply(f, s, [b]).0 == f(s, b).0 && Apply(f, s, [b]).1 == [f(s, b).1]
  {
    assert [b][0] == b;
  }

  lemma {:induction false} ApplyAppend<S>(f: (S, byte) -> (S, byte), s: S, a: seq<byte>, b: seq<byte>)
    ensures Apply(f, s, a + b) ==
            (Apply(f, Apply(f, s, a).0, b).0, Apply(f, s, a).1 + Apply(f, Apply(f, s, a).0, b).1)
  {
    if a == [] {
      assert a + b == b && [] + Apply(f, s, b).1 == Apply(f, s, b).1;
    } else {
      var (s', x) := f(s, a[0]);
      assert (a + b)[1..] == a[1..] + b;
      ApplyAppend(f, s', a[1..], b);
      var (t, front) := Apply(f, s', a[1..]);
      assert [x] + (front + Apply(f, t, b).1) == [x] + front + Apply(f, t, b).1;
    }
  }

  lemma {:induction false} ApplyInverse<S(!new)>(f: (S, byte) -> (S, byte), g: (S, byte) -> (S, byte), s: S, text: seq<byte>)
    requires forall s: S, b: byte :: g(s, f(s, b).1) == (f(s, b).0, b)
    ensures Apply(g, s, Apply(f, s, text).1) == (Apply(f, s, text).0, text)
  {
    if text == [] {
    } else {
      var (s', b) := f(s, text[0]);
      ApplyInverse(f, g, s', text[1..]);
      var (s'', rest) := Apply(f, s', text[1..]);
      assert ([b] + rest)[1..] == rest;
      assert [text[0]] + text[1..] == text;
    }
  }
}

/** The packet codec of an access-point connection (core/src/connection/codec.rs). */
module Codec {
  import opened Bytes
  import opened Shannon

  const HEADER_SIZE := 3

  datatype Packet = Packet(cmd: byte, payload: seq<byte>)

  predicate Fits(p: Packet) {
    |p.payload| < U16_RANGE
  }

  ghost predicate AllFit(ps: seq<Packet>) {
    forall i :: 0 <= i < |ps| ==> Fits(ps[i])
  }

  function NextNonce(nonce: nat): nat {
    (nonce + 1) % U32_RANGE
  }

  function NonceAfter(nonce: nat, packets: nat): nat {
    (nonce + packets) % U32_RANGE
  }

  // ----- what the encoder writes

  function PlainFrame(p: Packet): (s: seq<byte>)
    ensures |s| == HEADER_SIZE + |p.payload|
  {
    [p.cmd] + U16Bytes(|p.payload|) + p.payload
  }

  function EncodeFrame<S>(c: Cipher<S>, key: seq<byte>, nonce: nat, p: Packet): seq<byte> {
    var (s, text) := Apply(c.encrypt, c.start(key, nonce), PlainFrame(p));
    text + c.mac(s)
  }

  function EncodeAll<S>(c: Cipher<S>, key: seq<byte>, nonce: nat, ps: seq<Packet>): seq<byte>
    decreases |ps|
  {
    if ps == [] then [] else EncodeFrame(c, key, nonce, ps[0]) + EncodeAll(c, key, NextNonce(nonce), ps[1..])
  }

  lemma NonceNext(nonce: nat, packets: nat)
    ensures NextNonce(NonceAfter(nonce, packets)) == NonceAfter(nonce, packets + 1)
    ensures nonce < U32_RANGE ==> NonceAfter(nonce, 0) == nonce
  {
  }

  lemma EncodeNone<S>(c: Cipher<S>, key: seq<byte>, nonce: nat)
    ensures EncodeAll(c, key, nonce, []) == []
  {
  }

  lemma {:induction false} EncodeAllSnoc<S>(c: Cipher<S>, key: seq<byte>, nonce: nat, ps: seq<Packet>, p: Packet)
    requires nonce < U32_RANGE
    ensures EncodeAll(c, key, nonce, ps + [p]) ==
            EncodeAll(c, key, nonce, ps) + EncodeFrame(c, key, NonceAfter(nonce, |ps|), p)
    decreases |ps|
  {
    hide EncodeFrame;
    if ps == [] {
      assert ps + [p] == [p] && [p][1..] == ps;
    } else {
      assert (ps + [p])[1..] == ps[1..] + [p];
      EncodeAllSnoc(c, key, NextNonce(nonce), ps[1..], p);
      NonceStep(nonce, |ps|);
    }
  }

  lemma FrameOnTheWire<S(!new)>(c: Cipher<S>, key: seq<byte>, nonce: nat, p: Packet)
    requires Lawful(c)
    ensures var n := |p.payload|;
            var (s, head) := Apply(c.encrypt, c.start(key, nonce), [p.cmd, n / 256 % 256, n % 256]);
            var (s', body) := Apply(c.encrypt, s, p.payload);
            && EncodeFrame(c, key, nonce, p) == head + body + c.mac(s')
            && |head| == 3 && |body| == n && |c.mac(s')| == 4
  {
    hide Apply;
    var n := |p.payload|;
    var head: seq<byte> := [p.cmd, n / 256 % 256, n % 256];
    assert [p.cmd] + U16Bytes(n) == head;
    assert PlainFrame(p) == head + p.payload;
    ApplyAppend(c.encrypt, c.start(key, nonce), head, p.payload);
  }

  /** The bytes a further packet adds to the stream: command, big-endian length and payload encrypted one after the
      other under the nonce of its place, and the four bytes of the MAC of where that leaves the cipher. */
  lemma PacketOnTheWire<S(!new)>(c: Cipher<S>, key: seq<byte>, nonce: nat, ps: seq<Packet>, p: Packet)
    requires Lawful(c) && nonce < U32_RANGE
    ensures EncodeAll(c, key, nonce, []) == []
    ensures var n := |p.payload|;
            var (s, head) := Apply(c.encrypt, c.start(key, (nonce + |ps|) % 0x1_0000_0000), [p.cmd, n / 256 % 256, n % 256]);
            var (s', body) := Apply(c.encrypt, s, p.payload);
            && EncodeAll(c, key, nonce, ps + [p]) == EncodeAll(c, key, nonce, ps) + head + body + c.mac(s')
            && |head| == 3 && |body| == n && |c.mac(s')| == 4
  {
    hide Apply;
    hide EncodeAll;
    hide EncodeFrame;
    var n := |p.payload|;
    EncodeNone(c, key, nonce);
    EncodeAllSnoc(c, key, nonce, ps, p);
    FrameOnTheWire(c, key, (nonce + |ps|) % 0x1_0000_0000, p);
    var (s1, head) := Apply(c.encrypt, c.start(key, (nonce + |ps|) % 0x1_0000_0000), [p.cmd, n / 256 % 256, n % 256]);
    var (s2, body) := Apply(c.encrypt, s1, p.payload);
    var before := EncodeAll(c, key, nonce, ps);
    assert before + (head + body + c.mac(s2)) == before + head + body + c.mac(s2);
  }

  // ----- one call of the decoder

  datatype DecodeState = Header | Payload(cmd: byte, size: nat)

  datatype Decoder<S> = Decoder(nonce: nat, cipher: S, state: DecodeState)

  /** The three results of a decode call: `Ok(None)`, `Ok(Some(packet))` and `Err`. */
  datatype Outcome = Incomplete | Decoded(packet: Packet) | MacMismatch

  datatype StepResult<S> = StepResult(decoder: Decoder<S>, buf: seq<byte>, outcome: Outcome)

  function TakeHeader<S>(c: Cipher<S>, key: seq<byte>, d: Decoder<S>, buf: seq<byte>): (r: (Decoder<S>, seq<byte>)) {
    if d.state.Header? && |buf| >= HEADER_SIZE then
      var (s, header) := Apply(c.decrypt, c.start(key, d.nonce), buf[..HEADER_SIZE]);
      (Decoder(NextNonce(d.nonce), s, Payload(header[0], ReadU16(header[1..]))), buf[HEADER_SIZE..])
    else
      (d, buf)
  }

  function TakePayload<S>(c: Cipher<S>, d: Decoder<S>, buf: seq<byte>): StepResult<S> {
    if d.state.Payload? && |buf| >= d.state.size + MAC_SIZE then
      var size := d.state.size;
      var (s, payload) := Apply(c.decrypt, d.cipher, buf[..size]);
      StepResult(Decoder(d.nonce, s, Header), buf[size + MAC_SIZE..],
                 if c.mac(s) == buf[size..size + MAC_SIZE] then Decoded(Packet(d.state.cmd, payload)) else MacMismatch)
    else
      StepResult(d, buf, Incomplete)
  }

  function DecodeStep<S>(c: Cipher<S>, key: seq<byte>, d: Decoder<S>, buf: seq<byte>): (r: StepResult<S>)
    ensures r.outcome.Decoded? ==> |r.buf| < |buf|
  {
    var (d', buf') := TakeHeader(c, key, d, buf);
    TakePayload(c, d', buf')
  }

  // ----- everything a byte string decodes to

  /** What a decoder has produced: still running with some bytes held back, or stopped by a wrong MAC. */
  datatype Transcript<S> =
    | Live(packets: seq<Packet>, decoder: Decoder<S>, held: seq<byte>)
    | Broken(packets: seq<Packet>)

  function Prepend<S>(ps: seq<Packet>, t: Transcript<S>): Transcript<S> {
    match t
    case Live(qs, d, held) => Live(ps + qs, d, held)
    case Broken(qs) => Broken(ps + qs)
  }

  function DecodeAll<S>(c: Cipher<S>, key: seq<byte>, d: Decoder<S>, buf: seq<byte>): Transcript<S>
    decreases |buf|
  {
    var r := DecodeStep(c, key, d, buf);
    match r.outcome
    case Incomplete => Live([], r.decoder, r.buf)
    case MacMismatch => Broken([])
    case Decoded(p) => Prepend([p], DecodeAll(c, key, r.decoder, r.buf))
  }

  /** The bytes arrive in chunks; after each one the decoder runs until it asks for more. */
  function Feed<S>(c: Cipher<S>, key: seq<byte>, t: Transcript<S>, chunks: seq<seq<byte>>): Transcript<S>
    decreases |chunks|
  {
    if chunks == [] || t.Broken? then t
    else Feed(c, key, Prepend(t.packets, DecodeAll(c, key, t.decoder, t.held + chunks[0])), chunks[1..])
  }

  // ----- chunking does not matter, for any bytes

  lemma StepExtend<S>(c: Cipher<S>, key: seq<byte>, d: Decoder<S>, a: seq<byte>, b: seq<byte>)
    ensures var r := DecodeStep(c, key, d, a);
            if r.outcome.Incomplete? then
              DecodeStep(c, key, d, a + b) == DecodeStep(c, key, r.decoder, r.buf + b)
            else
              DecodeStep(c, key, d, a + b) == r.(buf := r.buf + b)
  {
    var (d', a') := TakeHeader(c, key, d, a);
    if d.state.Header? && |a| >= HEADER_SIZE {
      assert (a + b)[..HEADER_SIZE] == a[..HEADER_SIZE];
      assert (a + b)[HEADER_SIZE..] == a' + b;
    }
    if d'.state.Payload? && |a'| >= d'.state.size + MAC_SIZE {
      var size := d'.state.size;
      assert (a' + b)[..size] == a'[..size];
      assert (a' + b)[size..size + MAC_SIZE] == a'[size..size + MAC_SIZE];
      assert (a' + b)[size + MAC_SIZE..] == a'[size + MAC_SIZE..] + b;
      assert TakeHeader(c, key, d, a + b) == (d', a' + b);
    }
  }

  lemma {:induction false} DecodeAllSplit<S>(c: Cipher<S>, key: seq<byte>, d: Decoder<S>, a: seq<byte>, b: seq<byte>)
    ensures var t := DecodeAll(c, key, d, a);
            DecodeAll(c, key, d, a + b) ==
            if t.Broken? then t else Prepend(t.packets, DecodeAll(c, key, t.decoder, t.held + b))
    decreases |a|
  {
    StepExtend(c, key, d, a, b);
    var r := DecodeStep(c, key, d, a);
    match r.outcome
    case Incomplete =>
      var whole := DecodeAll(c, key, r.decoder, r.buf + b);
      assert Prepend([], whole) == whole;
    case MacMismatch =>
    case Decoded(p) =>
      DecodeAllSplit(c, key, r.decoder, r.buf, b);
      var t := DecodeAll(c, key, r.decoder, r.buf);
      if t.Live? {
        PrependPrepend([p], t.packets, DecodeAll(c, key, t.decoder, t.held + b));
      }
  }

  lemma PrependPrepend<S>(ps: seq<Packet>, qs: seq<Packet>, t: Transcript<S>)
    ensures Prepend(ps, Prepend(qs, t)) == Prepend(ps + qs, t)
  {
    assert ps + (qs + t.packets) == ps + qs + t.packets;
  }

  /** A transcript is settled when decoding the bytes held back yields nothing further. */
  ghost predicate Settled<S>(c: Cipher<S>, key: seq<byte>, t: Transcript<S>) {
    t.Live? ==> DecodeAll(c, key, t.decoder, t.held) == Live([], t.decoder, t.held)
  }

  lemma {:induction false} DecodeAllSettles<S>(c: Cipher<S>, key: seq<byte>, d: Decoder<S>, buf: seq<byte>)
    ensures Settled(c, key, DecodeAll(c, key, d, buf))
    decreases |buf|
  {
    var r := DecodeStep(c, key, d, buf);
    if !r.outcome.Decoded? {
    } else {
      DecodeAllSettles(c, key, r.decoder, r.buf);
    }
  }

  /** Feeding any bytes in any chunks is the same as decoding them in one piece, errors included. */
  lemma {:induction false} ChunkingIrrelevant<S>(c: Cipher<S>, key: seq<byte>, t: Transcript<S>, chunks: seq<seq<byte>>)
    requires Settled(c, key, t)
    ensures Feed(c, key, t, chunks) ==
            if t.Broken? then t else Prepend(t.packets, DecodeAll(c, key, t.decoder, t.held + Concat(chunks)))
    decreases |chunks|
  {
    hide DecodeAll;
    if t.Live? {
      if chunks == [] {
        assert t.held + Concat(chunks) == t.held;
      } else {
        var whole := DecodeAll(c, key, t.decoder, t.held + chunks[0]);
        DecodeAllSettles(c, key, t.decoder, t.held + chunks[0]);
        ChunkingIrrelevant(c, key, Prepend(t.packets, whole), chunks[1..]);
        DecodeAllSplit(c, key, t.decoder, t.held + chunks[0], Concat(chunks[1..]));
        assert t.held + chunks[0] + Concat(chunks[1..]) == t.held + Concat(chunks);
        if whole.Live? {
          PrependPrepend(t.packets, whole.packets, DecodeAll(c, key, whole.decoder, whole.held + Concat(chunks[1..])));
        }
      }
    }
  }

  lemma NothingToDecode<S>(c: Cipher<S>, key: seq<byte>, d: Decoder<S>)
    requires d.state.Header?
    ensures DecodeAll(c, key, d, []) == Live([], d, [])
  {
  }

  lemma FeedFresh<S>(c: Cipher<S>, key: seq<byte>, d: Decoder<S>, chunks: seq<seq<byte>>)
    requires d.state.Header?
    ensures Feed(c, key, Live([], d, []), chunks) == DecodeAll(c, key, d, Concat(chunks))
  {
    hide DecodeAll;
    NothingToDecode(c, key, d);
    ChunkingIrrelevant(c, key, Live([], d, []), chunks);
    assert [] + Concat(chunks) == Concat(chunks);
    var t := DecodeAll(c, key, d, Concat(chunks));
    assert [] + t.packets == t.packets;
  }

  // ----- decoding undoes encoding

  lemma HeaderReadBack<S(!new)>(c: Cipher<S>, key: seq<byte>, d: Decoder<S>, head: seq<byte>, rest: seq<byte>)
    requires Lawful(c) && d.state.Header? && |head| == HEADER_SIZE
    ensures var (s, text) := Apply(c.encrypt, c.start(key, d.nonce), head);
            TakeHeader(c, key, d, text + rest) ==
            (Decoder(NextNonce(d.nonce), s, Payload(head[0], ReadU16(head[1..]))), rest)
  {
    hide Apply;
    var (s, text) := Apply(c.encrypt, c.start(key, d.nonce), head);
    ApplyInverse(c.encrypt, c.decrypt, c.start(key, d.nonce), head);
    assert (text + rest)[..HEADER_SIZE] == text && (text + rest)[HEADER_SIZE..] == rest;
  }

  lemma PayloadReadBack<S(!new)>(c: Cipher<S>, d: Decoder<S>, body: seq<byte>, rest: seq<byte>)
    requires Lawful(c) && d.state.Payload? && d.state.size == |body|
    ensures var (s, text) := Apply(c.encrypt, d.cipher, body);
            TakePayload(c, d, text + c.mac(s) + rest) ==
            StepResult(Decoder(d.nonce, s, Header), rest, Decoded(Packet(d.state.cmd, body)))
  {
    hide Apply;
    var (s, text) := Apply(c.encrypt, d.cipher, body);
    ApplyInverse(c.encrypt, c.decrypt, d.cipher, body);
    var buf := text + c.mac(s) + rest;
    assert buf[..|body|] == text;
    assert buf[|body|..|body| + MAC_SIZE] == c.mac(s);
    assert buf[|body| + MAC_SIZE..] == rest;
  }

  lemma FrameRoundTrip<S(!new)>(c: Cipher<S>, key: seq<byte>, d: Decoder<S>, p: Packet, rest: seq<byte>)
    requires Lawful(c) && d.state.Header? && Fits(p)
    ensures var r := DecodeStep(c, key, d, EncodeFrame(c, key, d.nonce, p) + rest);
            r.outcome == Decoded(p) && r.buf == rest && r.decoder.state.Header? && r.decoder.nonce == NextNonce(d.nonce)
  {
    hide Apply;
    hide TakeHeader;
    hide TakePayload;
    hide Lawful;
    var s := c.start(key, d.nonce);
    var head, body := [p.cmd] + U16Bytes(|p.payload|), p.payload;
    assert PlainFrame(p) == head + body;
    ApplyAppend(c.encrypt, s, head, body);
    var (s1, cHead) := Apply(c.encrypt, s, head);
    var (s2, cBody) := Apply(c.encrypt, s1, body);
    var middle := cBody + c.mac(s2) + rest;
    assert EncodeFrame(c, key, d.nonce, p) + rest == cHead + middle;
    assert head[1..] == U16Bytes(|p.payload|);
    U16RoundTrip(|p.payload|);
    HeaderReadBack(c, key, d, head, middle);
    PayloadReadBack(c, Decoder(NextNonce(d.nonce), s1, Payload(p.cmd, |body|)), body, rest);
  }

  lemma NonceStep(nonce: nat, packets: nat)
    requires packets > 0
    ensures NonceAfter(NextNonce(nonce), packets - 1) == NonceAfter(nonce, packets)
  {
  }

  lemma {:induction false} DecodeEncoded<S(!new)>(c: Cipher<S>, key: seq<byte>, d: Decoder<S>, ps: seq<Packet>)
    requires Lawful(c) && d.state.Header? && d.nonce < U32_RANGE && AllFit(ps)
    ensures var t := DecodeAll(c, key, d, EncodeAll(c, key, d.nonce, ps));
            t.Live? && t.packets == ps && t.held == [] &&
            t.decoder.state.Header? && t.decoder.nonce == NonceAfter(d.nonce, |ps|)
    decreases |ps|
  {
    hide DecodeStep;
    hide EncodeFrame;
    hide Lawful;
    if ps == [] {
      NothingToDecode(c, key, d);
    } else {
      var rest := EncodeAll(c, key, NextNonce(d.nonce), ps[1..]);
      FrameRoundTrip(c, key, d, ps[0], rest);
      var stream := EncodeAll(c, key, d.nonce, ps);
      var r := DecodeStep(c, key, d, stream);
      DecodeEncoded(c, key, r.decoder, ps[1..]);
      var t := DecodeAll(c, key, r.decoder, rest);
      assert DecodeAll(c, key, d, stream) == Prepend([ps[0]], t);
      assert [ps[0]] + ps[1..] == ps;
      NonceStep(d.nonce, |ps|);
    }
  }

  ghost predicate SizesFit(d: DecodeState) {
    d.Payload? ==> d.size < U16_RANGE
  }

  /** A decoder never reports a payload of 65536 bytes or more. */
  lemma {:induction false} DecodedPacketsFit<S>(c: Cipher<S>, key: seq<byte>, d: Decoder<S>, buf: seq<byte>)
    requires SizesFit(d.state)
    ensures AllFit(DecodeAll(c, key, d, buf).packets)
    decreases |buf|
  {
    var r := DecodeStep(c, key, d, buf);
    if !r.outcome.Decoded? {
    } else {
      DecodedPacketsFit(c, key, r.decoder, r.buf);
    }
  }

  /** The stream of an encoder comes back exactly, in order and with the nonces in step, however it is cut:
      this holds if and only if every payload length fits the sixteen-bit length field. */
  lemma StreamRoundTrip<S(!new)>(c: Cipher<S>, key: seq<byte>, d: Decoder<S>, ps: seq<Packet>, chunks: seq<seq<byte>>)
    requires Lawful(c) && d.state.Header? && d.nonce < U32_RANGE
    requires Concat(chunks) == EncodeAll(c, key, d.nonce, ps)
    ensures var t := Feed(c, key, Live([], d, []), chunks);
            (t.Live? && t.packets == ps && t.held == [] && t.decoder.state.Header? &&
             t.decoder.nonce == NonceAfter(d.nonce, |ps|))
            <==> AllFit(ps)
  {
    FeedFresh(c, key, d, chunks);
    DecodedPacketsFit(c, key, d, Concat(chunks));
    if AllFit(ps) {
      DecodeEncoded(c, key, d, ps);
    }
  }

  function FrameSize(p: Packet): nat {
    HEADER_SIZE + |p.payload| + MAC_SIZE
  }

  function TotalSize(ps: seq<Packet>): nat {
    if ps == [] then 0 else FrameSize(ps[0]) + TotalSize(ps[1..])
  }

  /** The first k frames lie within the first n bytes, and no further one does. */
  ghost predicate WholeFrames(ps: seq<Packet>, k: nat, n: nat) {
    && k <= |ps| && TotalSize(ps[..k]) <= n
    && (k < |ps| ==> n < TotalSize(ps[..k + 1]))
  }

  lemma NextWholeFrame(ps: seq<Packet>, k: nat, n: nat)
    requires ps != [] && WholeFrames(ps[1..], k, n)
    ensures WholeFrames(ps, k + 1, n + FrameSize(ps[0]))
  {
    assert ps[..k + 1][1..] == ps[1..][..k];
    assert k + 1 < |ps| ==> ps[..k + 2][1..] == ps[1..][..k + 1];
  }

  lemma NoWholeFrame(ps: seq<Packet>, n: nat)
    requires ps != [] ==> n < FrameSize(ps[0])
    ensures WholeFrames(ps, 0, n)
  {
    assert ps != [] ==> ps[..1][0] == ps[0];
  }

  lemma TruncatedFrame<S(!new)>(c: Cipher<S>, key: seq<byte>, d: Decoder<S>, p: Packet, n: nat)
    requires Lawful(c) && d.state.Header? && Fits(p) && n < |EncodeFrame(c, key, d.nonce, p)|
    ensures DecodeStep(c, key, d, EncodeFrame(c, key, d.nonce, p)[..n]).outcome.Incomplete?
  {
    hide DecodeStep;
    hide Lawful;
    hide EncodeFrame;
    var frame := EncodeFrame(c, key, d.nonce, p);
    assert frame == frame[..n] + frame[n..] && frame == frame + [];
    StepExtend(c, key, d, frame[..n], frame[n..]);
    FrameRoundTrip(c, key, d, p, []);
    assert DecodeStep(c, key, d, frame).buf == [];
  }

  /** A prefix of the stream never breaks the decoder and yields exactly the packets whose whole frames it holds. */
  lemma {:induction false} PrefixYieldsPrefix<S(!new)>(c: Cipher<S>, key: seq<byte>, d: Decoder<S>, ps: seq<Packet>, n: nat)
    requires Lawful(c) && d.state.Header? && d.nonce < U32_RANGE && AllFit(ps)
    requires n <= |EncodeAll(c, key, d.nonce, ps)|
    ensures var t := DecodeAll(c, key, d, EncodeAll(c, key, d.nonce, ps)[..n]);
            t.Live? && t.packets <= ps && WholeFrames(ps, |t.packets|, n)
    decreases |ps|
  {
    hide DecodeStep;
    hide EncodeFrame;
    hide Lawful;
    hide WholeFrames;
    var stream := EncodeAll(c, key, d.nonce, ps);
    if ps == [] {
      NothingToDecode(c, key, d);
      NoWholeFrame(ps, n);
      assert stream[..n] == [];
    } else {
      var p, frame, rest := ps[0], EncodeFrame(c, key, d.nonce, ps[0]), EncodeAll(c, key, NextNonce(d.nonce), ps[1..]);
      FrameLength(c, key, d.nonce, p);
      if n < |frame| {
        assert stream[..n] == frame[..n];
        TruncatedFrame(c, key, d, p, n);
        NoWholeFrame(ps, n);
      } else {
        var m := n - |frame|;
        assert stream[..n] == frame + rest[..m];
        FrameRoundTrip(c, key, d, p, rest[..m]);
        var r := DecodeStep(c, key, d, stream[..n]);
        PrefixYieldsPrefix(c, key, r.decoder, ps[1..], m);
        NextWholeFrame(ps, |DecodeAll(c, key, r.decoder, rest[..m]).packets|, m);
        assert ps == [p] + ps[1..];
      }
    }
  }

  lemma FrameLength<S(!new)>(c: Cipher<S>, key: seq<byte>, nonce: nat, p: Packet)
    requires Lawful(c)
    ensures |EncodeFrame(c, key, nonce, p)| == FrameSize(p)
  {
    hide Apply;
  }

  // ----- only encoder output is accepted

  /** Bytes already consumed for a packet whose payload is still missing. */
  function HeaderTaken(d: DecodeState): nat {
    if d.Header? then 0 else HEADER_SIZE
  }

  lemma AcceptedFrameIsEncoded<S(!new)>(c: Cipher<S>, key: seq<byte>, d: Decoder<S>, buf: seq<byte>)
    requires Lawful(c) && d.state.Header?
    requires DecodeStep(c, key, d, buf).outcome.Decoded?
    ensures var r := DecodeStep(c, key, d, buf);
            buf == EncodeFrame(c, key, d.nonce, r.outcome.packet) + r.buf &&
            r.decoder.state.Header? && r.decoder.nonce == NextNonce(d.nonce)
  {
    hide Apply;
    var r := DecodeStep(c, key, d, buf);
    var p := r.outcome.packet;
    var s := c.start(key, d.nonce);
    var cHead, buf' := buf[..HEADER_SIZE], buf[HEADER_SIZE..];
    var (s1, head) := Apply(c.decrypt, s, cHead);
    var size := ReadU16(head[1..]);
    var cBody := buf'[..size];
    ApplyInverse(c.decrypt, c.encrypt, s, cHead);
    ApplyInverse(c.decrypt, c.encrypt, s1, cBody);
    U16Canonical(head[1..]);
    assert [head[0]] + head[1..] == head;
    assert PlainFrame(p) == head + p.payload;
    ApplyAppend(c.encrypt, s, head, p.payload);
    assert buf == cHead + cBody + buf'[size..size + MAC_SIZE] + r.buf;
  }

  /** Headers taken so far: that of every packet, and that of a packet whose payload is still missing. */
  function HeadersTaken(packets: nat, d: DecodeState): nat {
    if d.Header? then packets else packets + 1
  }

  /** Every byte string the decoder takes without complaint is the encoding of the packets it reports, followed by
      the incomplete packet it is still holding; the nonce counts the headers. */
  lemma {:induction false} AcceptedIsEncoded<S(!new)>(c: Cipher<S>, key: seq<byte>, d: Decoder<S>, buf: seq<byte>)
    requires Lawful(c) && d.state.Header? && d.nonce < U32_RANGE
    requires DecodeAll(c, key, d, buf).Live?
    ensures var t := DecodeAll(c, key, d, buf);
            var sent := EncodeAll(c, key, d.nonce, t.packets);
            && sent <= buf && |buf| == |sent| + HeaderTaken(t.decoder.state) + |t.held|
            && t.held == buf[|buf| - |t.held|..]
            && t.decoder.nonce == NonceAfter(d.nonce, HeadersTaken(|t.packets|, t.decoder.state))
    decreases |buf|
  {
    hide DecodeStep;
    hide EncodeFrame;
    hide Lawful;
    var r, t := DecodeStep(c, key, d, buf), DecodeAll(c, key, d, buf);
    if r.outcome.Incomplete? {
      IncompleteHolds(c, key, d, buf);
      EncodeNone(c, key, d.nonce);
    } else {
      AcceptedFrameIsEncoded(c, key, d, buf);
      AcceptedIsEncoded(c, key, r.decoder, r.buf);
      var t' := DecodeAll(c, key, r.decoder, r.buf);
      assert t == Prepend([r.outcome.packet], t') && t.packets[1..] == t'.packets;
      hide DecodeAll;
      NonceStep(d.nonce, HeadersTaken(|t.packets|, t.decoder.state));
      HeldEnd(EncodeFrame(c, key, d.nonce, t.packets[0]), r.buf, |t.held|);
    }
  }

  lemma IncompleteHolds<S>(c: Cipher<S>, key: seq<byte>, d: Decoder<S>, buf: seq<byte>)
    requires d.state.Header? && d.nonce < U32_RANGE && DecodeStep(c, key, d, buf).outcome.Incomplete?
    ensures var r := DecodeStep(c, key, d, buf);
            && HeaderTaken(r.decoder.state) <= |buf| && r.buf == buf[HeaderTaken(r.decoder.state)..]
            && r.decoder.nonce == NonceAfter(d.nonce, HeadersTaken(0, r.decoder.state))
  {
    hide Apply;
  }

  lemma HeldEnd(front: seq<byte>, back: seq<byte>, n: nat)
    requires n <= |back|
    ensures (front + back)[|front + back| - n..] == back[|back| - n..]
  {
  }

  // ----- the codec object

  class APCodec<S(!new)> {
    const cipher: Cipher<S>
    const sendKey: seq<byte>
    const recvKey: seq<byte>

    var encodeNonce: nat
    var encodeCipher: S

    var decodeNonce: nat
    var decodeCipher: S
    var decodeState: DecodeState

    constructor (cipher: Cipher<S>, sendKey: seq<byte>, recvKey: seq<byte>)
      ensures this.cipher == cipher && this.sendKey == sendKey && this.recvKey == recvKey
      ensures encodeNonce == 0 && DecoderView() == Decoder(0, cipher.unkeyed(recvKey), Header)
    {
      this.cipher, this.sendKey, this.recvKey := cipher, sendKey, recvKey;
      encodeNonce, encodeCipher := 0, cipher.unkeyed(sendKey);
      decodeNonce, decodeCipher, decodeState := 0, cipher.unkeyed(recvKey), Header;
    }

    ghost function DecoderView(): Decoder<S>
      reads this
    {
      Decoder(decodeNonce, decodeCipher, decodeState)
    }

    method Encode(item: Packet, buf: EasyBuf)
      modifies this`encodeNonce, this`encodeCipher, buf
      ensures buf.contents == old(buf.contents) + EncodeFrame(cipher, sendKey, old(encodeNonce), item)
      ensures encodeNonce == NextNonce(old(encodeNonce))
    {
      var frame := [item.cmd] + U16Bytes(|item.payload|) + item.payload;

      encodeCipher := cipher.start(sendKey, encodeNonce);
      encodeNonce := (encodeNonce + 1) % U32_RANGE;

      var (s, text) := Apply(cipher.encrypt, encodeCipher, frame);
      encodeCipher := s;
      buf.Append(text);

      var mac := cipher.mac(encodeCipher);
      buf.Append(mac);
      assert old(buf.contents) + text + mac == old(buf.contents) + (text + mac);
    }

    /** Packets encoded one after the other into the same buffer. */
    method WriteAll(items: seq<Packet>, buf: EasyBuf)
      requires encodeNonce < U32_RANGE
      modifies this`encodeNonce, this`encodeCipher, buf
      ensures buf.contents == old(buf.contents) + EncodeAll(cipher, sendKey, old(encodeNonce), items)
      ensures encodeNonce == NonceAfter(old(encodeNonce), |items|)
    {
      hide EncodeFrame;
      hide EncodeAll;
      ghost var start, nonce := buf.contents, encodeNonce;
      EncodeNone(cipher, sendKey, nonce);
      assert items[..0] == [] && start + [] == start;
      NonceNext(nonce, 0);
      hide NonceAfter;
      hide NextNonce;
      for i := 0 to |items|
        invariant encodeNonce == NonceAfter(nonce, i)
        invariant buf.contents == start + EncodeAll(cipher, sendKey, nonce, items[..i])
      {
        Encode(items[i], buf);
        NonceNext(nonce, i);
        EncodeAllSnoc(cipher, sendKey, nonce, items[..i], items[i]);
        assert items[..i + 1] == items[..i] + [items[i]];
      }
      assert items[..|items|] == items;
    }

    method Decode(buf: EasyBuf) returns (outcome: Outcome)
      modifies this`decodeNonce, this`decodeCipher, this`decodeState, buf
      ensures StepResult(DecoderView(), buf.contents, outcome) ==
              DecodeStep(cipher, recvKey, old(DecoderView()), old(buf.contents))
    {
      hide Apply;
      ghost var start, bytes := DecoderView(), buf.contents;
      if decodeState.Header? {
        if |buf.contents| >= HEADER_SIZE {
          var header := buf.DrainTo(HEADER_SIZE);

          decodeCipher := cipher.start(recvKey, decodeNonce);
          decodeNonce := (decodeNonce + 1) % U32_RANGE;

          var (s, plain) := Apply(cipher.decrypt, decodeCipher, header);
          decodeCipher := s;

          var cmd := plain[0];
          var size := ReadU16(plain[1..]);
          decodeState := Payload(cmd, size);
        }
      }

      ghost var middle, left := DecoderView(), buf.contents;
      assert (middle, left) == TakeHeader(cipher, recvKey, start, bytes);

      if decodeState.Payload? {
        var cmd, size := decodeState.cmd, decodeState.size;
        if |buf.contents| >= size + MAC_SIZE {
          decodeState := Header;
          var payload := buf.DrainTo(size + MAC_SIZE);

          var (s, plain) := Apply(cipher.decrypt, decodeCipher, payload[..size]);
          decodeCipher := s;
          var mac := payload[size..];
          assert payload[..size] == left[..size] && mac == left[size..size + MAC_SIZE];
          if cipher.mac(decodeCipher) != mac {
            return MacMismatch;
          }
          return Decoded(Packet(cmd, plain));
        }
      }

      return Incomplete;
    }

    /** What the framed transport does with a chunk: buffer it, then decode until the codec asks for more. */
    method Receive(buf: EasyBuf, chunk: seq<byte>) returns (packets: seq<Packet>, ok: bool)
      modifies this`decodeNonce, this`decodeCipher, this`decodeState, buf
      ensures var t := DecodeAll(cipher, recvKey, old(DecoderView()), old(buf.contents) + chunk);
              packets == t.packets && ok == t.Live? && (ok ==> DecoderView() == t.decoder && buf.contents == t.held)
    {
      buf.Append(chunk);
      packets := [];
      ghost var all := DecodeAll(cipher, recvKey, DecoderView(), buf.contents);
      while true
        invariant all == Prepend(packets, DecodeAll(cipher, recvKey, DecoderView(), buf.contents))
        decreases |buf.contents|
      {
        ghost var d, held := DecoderView(), buf.contents;
        var outcome := Decode(buf);
        match outcome {
          case Incomplete =>
            return packets, true;
          case MacMismatch =>
            return packets, false;
          case Decoded(p) =>
            PrependPrepend(packets, [p], DecodeAll(cipher, recvKey, DecoderView(), buf.contents));
            packets := packets + [p];
        }
      }
    }
  }
}
