/** Mercury packets: how requests are written (core/src/mercury/types.rs) and how packets are read and joined
    (core/src/mercury/mod.rs). */
module MercuryPackets {
  import opened Bytes
  import opened Wrappers

  /** Flags 1 end a message; flags 2 say that the last part of the packet goes on in the next. */
  datatype Packet = Packet(sequence: seq<byte>, flags: byte, parts: seq<seq<byte>>)

  // ----- reading

  /** The reads of `dispatch` in order; `None` where draining a short buffer panics. */
  function ReadPart(data: seq<byte>): Option<(seq<byte>, seq<byte>)> {
    if |data| < 2 then None
    else
      var size := ReadU16(data[..2]);
      if |data| < 2 + size then None else Some((data[2..][..size], data[2..][size..]))
  }

  function ReadParts(data: seq<byte>, count: nat): (r: Option<(seq<seq<byte>>, seq<byte>)>)
    ensures r.Some? ==> |r.value.0| == count
    decreases count
  {
    if count == 0 then Some(([], data))
    else
      match ReadPart(data)
      case None => None
      case Some((part, rest)) =>
        match ReadParts(rest, count - 1)
        case None => None
        case Some((parts, left)) => Some(([part] + parts, left))
  }

  /** What stands before the parts: the sequence bytes, the flags and the number of parts. */
  datatype Head = Head(sequence: seq<byte>, flags: byte, count: nat)

  function ReadHead(data: seq<byte>): Option<(Head, seq<byte>)> {
    match ReadPart(data)
    case None => None
    case Some((sequence, rest)) =>
      if |rest| < 3 then None else Some((Head(sequence, rest[0], ReadU16(rest[1..3])), rest[3..]))
  }

  /** The packet and whatever bytes follow it. */
  function ReadPacket(data: seq<byte>): Option<(Packet, seq<byte>)> {
    match ReadHead(data)
    case None => None
    case Some((head, rest)) =>
      match ReadParts(rest, head.count)
      case None => None
      case Some((parts, left)) => Some((Packet(head.sequence, head.flags, parts), left))
  }

  // ----- writing

  /** A length-prefixed field; the prefix keeps the low sixteen bits of the length. */
  function WritePart(part: seq<byte>): seq<byte> {
    U16Bytes(|part|) + part
  }

  function WriteParts(parts: seq<seq<byte>>): seq<byte> {
    if parts == [] then [] else WritePart(parts[0]) + WriteParts(parts[1..])
  }

  datatype Method = GET | SUB | UNSUB | SEND {
    function Command(): byte {
      match this
      case GET | SEND => 0xb2
      case SUB => 0xb3
      case UNSUB => 0xb4
    }
  }

  datatype Request = Request(verb: Method, uri: string, contentType: Option<string>, payload: seq<seq<byte>>)

  /** The protobuf writer, whose reported size is the number of bytes it writes. */
  type HeaderWriter = (Method, string, Option<string>) -> seq<byte>

  function Written(p: Packet): seq<byte> {
    WritePart(p.sequence) + [p.flags] + U16Bytes(|p.parts|) + WriteParts(p.parts)
  }

  method Encode(req: Request, sequence: seq<byte>, write: HeaderWriter) returns (packet: seq<byte>)
    ensures packet == Written(Packet(sequence, 1, [write(req.verb, req.uri, req.contentType)] + req.payload))
  {
    packet := [];
    packet := packet + U16Bytes(|sequence|);
    packet := packet + sequence;
    packet := packet + [1];
    packet := packet + U16Bytes(1 + |req.payload|);

    var header := write(req.verb, req.uri, req.contentType);
    packet := packet + U16Bytes(|header|);
    packet := packet + header;

    ghost var parts := [header] + req.payload;
    WritePartsSnoc([], header);
    assert parts[..1] == [] + [header];
    for i := 0 to |req.payload|
      invariant packet == WritePart(sequence) + [1] + U16Bytes(|parts|) + WriteParts(parts[..i + 1])
    {
      WritePartsSnoc(parts[..i + 1], req.payload[i]);
      assert parts[..i + 2] == parts[..i + 1] + [req.payload[i]];
      packet := packet + U16Bytes(|req.payload[i]|);
      packet := packet + req.payload[i];
    }
    assert parts[..|req.payload| + 1] == parts;
  }

  lemma {:induction false} WritePartsSnoc(parts: seq<seq<byte>>, last: seq<byte>)
    ensures WriteParts(parts + [last]) == WriteParts(parts) + U16Bytes(|last|) + last
  {
    if parts == [] {
      var none: seq<seq<byte>> := [];
      assert [last][1..] == none && parts + [last] == [last];
    } else {
      assert (parts + [last])[1..] == parts[1..] + [last];
      WritePartsSnoc(parts[1..], last);
    }
  }

  /** The bytes of a packet: every length in two bytes, the greater first and cut to sixteen bits. */
  lemma PacketOnTheWire(p: Packet)
    ensures var n, count := |p.sequence|, |p.parts|;
            var fields := seq(count, i requires 0 <= i < count => [|p.parts[i]| / 256 % 256, |p.parts[i]| % 256] + p.parts[i]);
            Written(p) == [n / 256 % 256, n % 256] + p.sequence + [p.flags, count / 256 % 256, count % 256] + Concat(fields)
  {
    hide WriteParts;
    var n, count := |p.sequence|, |p.parts|;
    U16OnTheWire(n);
    U16OnTheWire(count);
    PartsOnTheWire(p.parts);
  }

  lemma U16OnTheWire(n: nat)
    ensures U16Bytes(n) == [n / 256 % 256, n % 256]
  {
  }

  lemma {:induction false} PartsOnTheWire(parts: seq<seq<byte>>)
    ensures WriteParts(parts) == Concat(seq(|parts|, i requires 0 <= i < |parts| =>
                                   [|parts[i]| / 256 % 256, |parts[i]| % 256] + parts[i]))
  {
    var fields: seq<seq<byte>> := seq(|parts|, i requires 0 <= i < |parts| =>
                                    [|parts[i]| / 256 % 256, |parts[i]| % 256] + parts[i]);
    if parts == [] {
    } else {
      var rest := parts[1..];
      PartsOnTheWire(rest);
      assert fields[1..] == seq(|rest|, i requires 0 <= i < |rest| => [|rest[i]| / 256 % 256, |rest[i]| % 256] + rest[i]);
      U16OnTheWire(|parts[0]|);
    }
  }

  // ----- writing and reading undo each other

  ghost predicate SizesFit(p: Packet) {
    && |p.sequence| < U16_RANGE && |p.parts| < U16_RANGE
    && forall i :: 0 <= i < |p.parts| ==> |p.parts[i]| < U16_RANGE
  }

  lemma PartExactly(data: seq<byte>, part: seq<byte>, rest: seq<byte>)
    ensures ReadPart(data) == Some((part, rest)) <==> |part| < U16_RANGE && data == WritePart(part) + rest
  {
    U16RoundTrip(|part|);
    if ReadPart(data) == Some((part, rest)) {
      U16Canonical(data[..2]);
      assert data == data[..2] + data[2..] && data[2..] == part + rest;
    }
    if |part| < U16_RANGE && data == WritePart(part) + rest {
      assert data[..2] == U16Bytes(|part|);
      assert data[2..] == part + rest;
    }
  }

  lemma {:induction false} PartsExactly(data: seq<byte>, parts: seq<seq<byte>>, rest: seq<byte>)
    ensures ReadParts(data, |parts|) == Some((parts, rest)) <==>
            (forall i :: 0 <= i < |parts| ==> |parts[i]| < U16_RANGE) && data == WriteParts(parts) + rest
    decreases |parts|
  {
    hide ReadPart;
    hide WritePart;
    if parts == [] {
      assert WriteParts(parts) + rest == rest;
    } else {
      var tail := WriteParts(parts[1..]) + rest;
      assert WriteParts(parts) + rest == WritePart(parts[0]) + tail;
      assert [parts[0]] + parts[1..] == parts;
      PartExactly(data, parts[0], tail);
      if ReadParts(data, |parts|) == Some((parts, rest)) {
        var (part, after) := ReadPart(data).value;
        assert ReadParts(after, |parts| - 1).value.0 == parts[1..];
        PartExactly(data, part, after);
        PartsExactly(after, parts[1..], rest);
      } else {
        PartsExactly(tail, parts[1..], rest);
      }
    }
  }

  lemma HeadExactly(data: seq<byte>, head: Head, rest: seq<byte>)
    ensures ReadHead(data) == Some((head, rest)) <==>
            && |head.sequence| < U16_RANGE && head.count < U16_RANGE
            && data == WritePart(head.sequence) + [head.flags] + U16Bytes(head.count) + rest
  {
    hide ReadPart;
    hide WritePart;
    var middle := [head.flags] + U16Bytes(head.count) + rest;
    U16RoundTrip(head.count);
    assert middle[1..3] == U16Bytes(head.count) && middle[3..] == rest;
    assert WritePart(head.sequence) + middle == WritePart(head.sequence) + [head.flags] + U16Bytes(head.count) + rest;
    PartExactly(data, head.sequence, middle);
    if ReadHead(data) == Some((head, rest)) {
      var (sequence, after) := ReadPart(data).value;
      U16Canonical(after[1..3]);
      assert after == [after[0]] + after[1..3] + after[3..];
      PartExactly(data, sequence, after);
    }
  }

  /** Reading is the exact inverse of writing, for any flags and whatever bytes follow: a packet is read exactly from
      its own bytes, and it is read back if and only if every length fits its sixteen-bit field. */
  lemma PacketExactly(data: seq<byte>, p: Packet, rest: seq<byte>)
    ensures ReadPacket(data) == Some((p, rest)) <==> SizesFit(p) && data == Written(p) + rest
  {
    hide ReadHead;
    hide ReadParts;
    hide WritePart;
    hide WriteParts;
    var head := Head(p.sequence, p.flags, |p.parts|);
    var after := WriteParts(p.parts) + rest;
    assert Written(p) + rest == WritePart(p.sequence) + [p.flags] + U16Bytes(|p.parts|) + after;
    HeadExactly(data, head, after);
    PartsExactly(after, p.parts, rest);
    if ReadPacket(data) == Some((p, rest)) {
      var (h, left) := ReadHead(data).value;
      HeadExactly(data, h, left);
      PartsExactly(left, p.parts, rest);
    }
  }

  /** A written request reads back as one final packet with the same sequence bytes, the header and the payload
      parts in order and nothing left over, exactly when every length fits its sixteen-bit field. */
  lemma RequestRoundTrip(sequence: seq<byte>, parts: seq<seq<byte>>)
    ensures ReadPacket(Written(Packet(sequence, 1, parts))) == Some((Packet(sequence, 1, parts), []))
            <==> SizesFit(Packet(sequence, 1, parts))
  {
    hide ReadPacket;
    var data := Written(Packet(sequence, 1, parts));
    assert data + [] == data;
    PacketExactly(data, Packet(sequence, 1, parts), []);
  }

  // ----- joining the parts of several packets

  /** A message being received; the callback is known by the number of its request. */
  datatype Pending = Pending(parts: seq<seq<byte>>, partial: Option<seq<byte>>, callback: Option<nat>)

  /** A received part, and whether it goes on in the next packet. */
  datatype Piece = Piece(bytes: seq<byte>, more: bool)

  function Absorb(p: Pending, piece: Piece): Pending {
    var part := if p.partial.Some? then p.partial.value + piece.bytes else piece.bytes;
    if piece.more then p.(partial := Some(part)) else p.(partial := None, parts := p.parts + [part])
  }

  function AbsorbAll(p: Pending, pieces: seq<Piece>): Pending
    decreases |pieces|
  {
    if pieces == [] then p else AbsorbAll(Absorb(p, pieces[0]), pieces[1..])
  }

  /** Only the last part of a packet can go on, and it does when the flags say so. */
  function Pieces(flags: byte, parts: seq<seq<byte>>): (pieces: seq<Piece>)
    ensures |pieces| == |parts|
  {
    seq(|parts|, i requires 0 <= i < |parts| => Piece(parts[i], i == |parts| - 1 && flags == 2))
  }

  function Joined(p: Pending, packet: Packet): Pending {
    AbsorbAll(p, Pieces(packet.flags, packet.parts))
  }

  function JoinedAll(p: Pending, packets: seq<Packet>): Pending
    decreases |packets|
  {
    if packets == [] then p else JoinedAll(Joined(p, packets[0]), packets[1..])
  }

  lemma {:induction false} AbsorbAppend(p: Pending, a: seq<Piece>, b: seq<Piece>)
    ensures AbsorbAll(p, a + b) == AbsorbAll(AbsorbAll(p, a), b)
    decreases |a|
  {
    if a == [] {
      assert a + b == b;
    } else {
      assert (a + b)[1..] == a[1..] + b;
      AbsorbAppend(Absorb(p, a[0]), a[1..], b);
    }
  }

  // ----- what a sender may do with a message

  /** One message part cut into pieces that all go on except the last. */
  function CutPieces(cut: seq<seq<byte>>): (pieces: seq<Piece>)
    ensures |pieces| == |cut|
  {
    seq(|cut|, i requires 0 <= i < |cut| => Piece(cut[i], i < |cut| - 1))
  }

  function AllCutPieces(cuts: seq<seq<seq<byte>>>): seq<Piece> {
    if cuts == [] then [] else CutPieces(cuts[0]) + AllCutPieces(cuts[1..])
  }

  function AllPieces(packets: seq<Packet>): seq<Piece> {
    if packets == [] then [] else Pieces(packets[0].flags, packets[0].parts) + AllPieces(packets[1..])
  }

  ghost predicate CutsOf(cuts: seq<seq<seq<byte>>>, message: seq<seq<byte>>) {
    |cuts| == |message| && forall i :: 0 <= i < |cuts| ==> cuts[i] != [] && Concat(cuts[i]) == message[i]
  }

  /** Every packet has a part, and just the last one is final. */
  ghost predicate Framed(packets: seq<Packet>) {
    && packets != []
    && forall i :: 0 <= i < |packets| ==> packets[i].parts != [] && (packets[i].flags == 1 <==> i == |packets| - 1)
  }

  /** The packets carry the pieces of the cut message in order. */
  ghost predicate Fragments(packets: seq<Packet>, message: seq<seq<byte>>) {
    Framed(packets) && exists cuts :: CutsOf(cuts, message) && AllPieces(packets) == AllCutPieces(cuts)
  }

  function Open(p: Pending): seq<byte> {
    if p.partial.Some? then p.partial.value else []
  }

  lemma AbsorbOne(p: Pending, piece: Piece)
    ensures AbsorbAll(p, [piece]) == Absorb(p, piece)
    ensures var part := Open(p) + piece.bytes;
            Absorb(p, piece) == if piece.more then p.(partial := Some(part)) else p.(partial := None, parts := p.parts + [part])
  {
    assert [] + piece.bytes == piece.bytes;
    var none: seq<Piece> := [];
    assert [piece][1..] == none;
  }

  lemma {:induction false} AbsorbCut(p: Pending, cut: seq<seq<byte>>)
    requires cut != []
    ensures AbsorbAll(p, CutPieces(cut)) == p.(partial := None, parts := p.parts + [Open(p) + Concat(cut)])
    decreases |cut|
  {
    hide Absorb;
    var first := CutPieces(cut)[0];
    var q := Absorb(p, first);
    AbsorbOne(p, first);
    assert CutPieces(cut)[1..] == CutPieces(cut[1..]);
    if |cut| > 1 {
      AbsorbCut(q, cut[1..]);
      assert Open(p) + cut[0] + Concat(cut[1..]) == Open(p) + Concat(cut);
    } else {
      ConcatOne(cut[0]);
      assert cut == [cut[0]] && CutPieces(cut) == [first];
    }
  }

  lemma {:induction false} AbsorbCuts(p: Pending, cuts: seq<seq<seq<byte>>>, message: seq<seq<byte>>)
    requires CutsOf(cuts, message) && p.partial.None?
    ensures AbsorbAll(p, AllCutPieces(cuts)) == p.(parts := p.parts + message)
    decreases |cuts|
  {
    hide Absorb;
    hide Concat;
    hide CutPieces;
    if cuts == [] {
      assert p.parts + message == p.parts;
    } else {
      var q := AbsorbAll(p, CutPieces(cuts[0]));
      AbsorbAppend(p, CutPieces(cuts[0]), AllCutPieces(cuts[1..]));
      AbsorbCut(p, cuts[0]);
      assert [] + Concat(cuts[0]) == message[0];
      AbsorbCuts(q, cuts[1..], message[1..]);
      assert p.parts + [message[0]] + message[1..] == p.parts + message;
    }
  }

  lemma {:induction false} JoinedIsAbsorbed(p: Pending, packets: seq<Packet>)
    ensures JoinedAll(p, packets) == AbsorbAll(p, AllPieces(packets))
    decreases |packets|
  {
    if packets == [] {
    } else {
      AbsorbAppend(p, Pieces(packets[0].flags, packets[0].parts), AllPieces(packets[1..]));
      JoinedIsAbsorbed(Joined(p, packets[0]), packets[1..]);
    }
  }

  lemma {:induction false} CutsExist(pieces: seq<Piece>) returns (cuts: seq<seq<seq<byte>>>)
    requires pieces != [] ==> !pieces[|pieces| - 1].more
    ensures AllCutPieces(cuts) == pieces && forall i :: 0 <= i < |cuts| ==> cuts[i] != []
    decreases |pieces|
  {
    cuts := [];
    if pieces == [] {
    } else {
      var rest := CutsExist(pieces[1..]);
      if pieces[0].more {
        cuts := [[pieces[0].bytes] + rest[0]] + rest[1..];
        assert CutPieces(cuts[0]) == [pieces[0]] + CutPieces(rest[0]);
        assert AllCutPieces(cuts) == [pieces[0]] + (CutPieces(rest[0]) + AllCutPieces(rest[1..]));
      } else {
        cuts := [[pieces[0].bytes]] + rest;
        assert CutPieces(cuts[0]) == [pieces[0]];
        assert cuts[1..] == rest;
      }
      assert pieces == [pieces[0]] + pieces[1..];
    }
  }

  lemma {:induction false} LastPieceCloses(packets: seq<Packet>)
    requires Framed(packets)
    ensures var pieces := AllPieces(packets); pieces != [] && !pieces[|pieces| - 1].more
    decreases |packets|
  {
    var rest := AllPieces(packets[1..]);
    if |packets| > 1 {
      LastPieceCloses(packets[1..]);
    } else {
      assert rest == [];
    }
  }

  /** However a message is cut and grouped, joining its packets gives back its parts; and whatever framed packets
      are joined to is the message they are fragments of. */
  lemma FragmentsRejoin(packets: seq<Packet>, message: seq<seq<byte>>, callback: Option<nat>)
    requires Framed(packets)
    ensures JoinedAll(Pending([], None, callback), packets) == Pending(message, None, callback) <==> Fragments(packets, message)
  {
    var start := Pending([], None, callback);
    JoinedIsAbsorbed(start, packets);
    assert [] + message == message;
    if Fragments(packets, message) {
      var cuts :| CutsOf(cuts, message) && AllPieces(packets) == AllCutPieces(cuts);
      AbsorbCuts(start, cuts, message);
    }
    if JoinedAll(start, packets) == Pending(message, None, callback) {
      LastPieceCloses(packets);
      var cuts := CutsExist(AllPieces(packets));
      var sent := seq(|cuts|, i requires 0 <= i < |cuts| => Concat(cuts[i]));
      AbsorbCuts(start, cuts, sent);
      assert [] + sent == sent;
    }
  }

  lemma {:induction false} WholePieces(p: Pending, pieces: seq<Piece>)
    requires pieces != [] && forall i :: 0 <= i < |pieces| ==> !pieces[i].more
    ensures AbsorbAll(p, pieces) ==
            p.(partial := None,
               parts := p.parts + [Open(p) + pieces[0].bytes]
                        + seq(|pieces| - 1, i requires 0 <= i < |pieces| - 1 => pieces[i + 1].bytes))
    decreases |pieces|
  {
    hide Absorb;
    var q := Absorb(p, pieces[0]);
    AbsorbOne(p, pieces[0]);
    if |pieces| == 1 {
      assert pieces == [pieces[0]];
    } else {
      WholePieces(q, pieces[1..]);
      assert [] + pieces[1].bytes == pieces[1].bytes;
    }
  }

  /** What one packet does to a message, in closed form: its first part is joined to the open one, and under flags 2
      its last part stays open. */
  lemma JoinedExactly(p: Pending, packet: Packet)
    ensures var parts, n := packet.parts, |packet.parts|;
            var open := if p.partial.Some? then p.partial.value else [];
            Joined(p, packet) ==
            if n == 0 then p
            else if packet.flags != 2 then p.(partial := None, parts := p.parts + [open + parts[0]] + parts[1..])
            else if n == 1 then p.(partial := Some(open + parts[0]))
            else p.(partial := Some(parts[n - 1]), parts := p.parts + [open + parts[0]] + parts[1..n - 1])
  {
    hide Absorb;
    var parts, n := packet.parts, |packet.parts|;
    var pieces := Pieces(packet.flags, parts);
    if n == 0 {
    } else if packet.flags != 2 {
      WholePieces(p, pieces);
      assert parts[1..] == seq(n - 1, i requires 0 <= i < n - 1 => pieces[i + 1].bytes);
    } else {
      var whole, last := pieces[..n - 1], pieces[n - 1];
      assert pieces == whole + [last];
      AbsorbAppend(p, whole, [last]);
      AbsorbOne(AbsorbAll(p, whole), last);
      if n > 1 {
        WholePieces(p, whole);
        assert parts[1..n - 1] == seq(n - 2, i requires 0 <= i < n - 2 => whole[i + 1].bytes);
        assert [] + last.bytes == last.bytes;
      }
    }
  }

  // ----- no byte is invented, and when one is lost

  function Contents(p: Pending): seq<byte> {
    Concat(p.parts) + Open(p)
  }

  lemma PieceConserved(p: Pending, piece: Piece)
    ensures Contents(Absorb(p, piece)) == Contents(p) + piece.bytes
  {
    hide Absorb;
    hide Concat;
    var part := Open(p) + piece.bytes;
    AbsorbOne(p, piece);
    ConcatAppend(p.parts, [part]);
    ConcatOne(part);
    assert Contents(Absorb(p, piece)) == Concat(p.parts) + part by {
      assert Concat(p.parts) + part + [] == Concat(p.parts) + part;
    }
    assert Concat(p.parts) + part == Concat(p.parts) + Open(p) + piece.bytes;
  }

  lemma {:induction false} BytesConserved(p: Pending, pieces: seq<Piece>)
    ensures Contents(AbsorbAll(p, pieces)) == Contents(p) + PieceBytes(pieces)
    decreases |pieces|
  {
    hide Contents;
    hide Absorb;
    if pieces == [] {
      assert Contents(p) + [] == Contents(p);
    } else {
      PieceConserved(p, pieces[0]);
      BytesConserved(Absorb(p, pieces[0]), pieces[1..]);
      assert Contents(p) + pieces[0].bytes + PieceBytes(pieces[1..]) == Contents(p) + PieceBytes(pieces);
    }
  }

  function PieceBytes(pieces: seq<Piece>): seq<byte> {
    if pieces == [] then [] else pieces[0].bytes + PieceBytes(pieces[1..])
  }

  /** Completing on a final packet drops received bytes only if that packet has no part while one is still open. */
  lemma FinalPacketCloses(p: Pending, packet: Packet)
    requires packet.flags == 1
    ensures Joined(p, packet).partial.Some? <==> p.partial.Some? && packet.parts == []
  {
    if packet.parts != [] {
      var n := |packet.parts| - 1;
      var pieces := Pieces(packet.flags, packet.parts);
      assert pieces == pieces[..n] + [pieces[n]];
      AbsorbAppend(p, pieces[..n], [pieces[n]]);
      var none: seq<Piece> := [];
      assert [pieces[n]][1..] == none;
    }
  }
}
