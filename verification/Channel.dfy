/** Channels (core/src/channel.rs): a stream of packets read as headers, then data, then an end. */
module Channels {
  import opened Bytes

  /** What polling the receiver yields, in order: a packet, or a moment when none has arrived yet. */
  datatype Arrival = NothingYet | Packet(cmd: byte, data: seq<byte>)

  datatype ChannelState = Header(data: seq<byte>) | Data | Closed

  datatype Event = HeaderEvent(id: byte, header: seq<byte>) | DataEvent(data: seq<byte>)

  /** The results of a poll: `Ready(Some(event))`, `Ready(None)`, `NotReady`, `Err`, or a panic. */
  datatype Poll = Emit(event: Event) | End | Wait | Fail | Panic

  datatype Polled = Polled(poll: Poll, receiver: seq<Arrival>, state: ChannelState)

  // ----- one poll

  /** A packet taken from the receiver, or the poll result that ends the attempt. */
  datatype Received = Got(data: seq<byte>) | Stopped(poll: Poll)

  function Receive(receiver: seq<Arrival>): Received {
    if receiver == [] || receiver[0].NothingYet? then Stopped(Wait)
    else if receiver[0].cmd != 0xa then Got(receiver[0].data)
    else if |receiver[0].data| < 2 then Stopped(Panic)
    else Stopped(Fail)
  }

  function Rest(receiver: seq<Arrival>): seq<Arrival> {
    if receiver == [] then [] else receiver[1..]
  }

  function StateAfter(r: Received, state: ChannelState): ChannelState {
    if r == Stopped(Fail) then Closed else state
  }

  function PollData(receiver: seq<Arrival>): Polled {
    var r := Receive(receiver);
    match r
    case Stopped(poll) => Polled(poll, Rest(receiver), StateAfter(r, Data))
    case Got(data) =>
      if data == [] then Polled(End, Rest(receiver), Closed) else Polled(Emit(DataEvent(data)), Rest(receiver), Data)
  }

  function PollHeader(data: seq<byte>, receiver: seq<Arrival>): Polled {
    if |data| < 2 then Polled(Panic, receiver, Header(data))
    else
      var length := ReadU16(data[..2]);
      if length == 0 then
        if |data| > 2 then Polled(Panic, receiver, Header(data)) else PollData(receiver)
      else if |data| < 2 + length then Polled(Panic, receiver, Header(data))
      else Polled(Emit(HeaderEvent(data[2], data[3..2 + length])), receiver, Header(data[2 + length..]))
  }

  function PollOnce(receiver: seq<Arrival>, state: ChannelState): Polled {
    match state
    case Closed => Polled(Panic, receiver, state)
    case Data => PollData(receiver)
    case Header(data) =>
      if data != [] then PollHeader(data, receiver)
      else
        var r := Receive(receiver);
        match r
        case Stopped(poll) => Polled(poll, Rest(receiver), StateAfter(r, state))
        case Got(packet) => PollHeader(packet, Rest(receiver))
  }

  // ----- one poll, byte by byte

  /** A header is its big-endian length, which counts the identifier, then the identifier and the header itself. */
  lemma HeaderPolled(receiver: seq<Arrival>, hi: byte, lo: byte, id: byte, header: seq<byte>, rest: seq<byte>)
    requires 256 * hi + lo == 1 + |header|
    ensures PollOnce(receiver, Header([hi, lo, id] + header + rest)) ==
            Polled(Emit(HeaderEvent(id, header)), receiver, Header(rest))
  {
    var data := [hi, lo, id] + header + rest;
    U16BigEndian(0, hi, lo);
    assert data[..2] == [hi, lo];
    assert data[3..2 + (1 + |header|)] == header && data[2 + (1 + |header|)..] == rest;
  }

  /** When a poll panics: on a closed channel; on bytes, held or just arrived, that are too short for a header or follow
      a zero length; and on an error packet without room for its code, also when it comes right after the header that
      ends the headers. */
  lemma PanicExactly(receiver: seq<Arrival>, state: ChannelState)
    ensures var truncated := (r: seq<Arrival>) => r != [] && r[0].Packet? && r[0].cmd == 0xa && |r[0].data| < 2;
            var malformed := (d: seq<byte>) =>
              || |d| < 2 || (d[0] == 0 && d[1] == 0 && |d| > 2)
              || ((d[0] != 0 || d[1] != 0) && |d| < 2 + (256 * d[0] as int + d[1] as int));
            PollOnce(receiver, state).poll.Panic? <==>
            match state
            case Closed => true
            case Data => truncated(receiver)
            case Header(held) =>
              if held != [] then malformed(held) || (held == [0, 0] && truncated(receiver))
              else if receiver != [] && receiver[0].Packet? && receiver[0].cmd != 0xa then
                malformed(receiver[0].data) || (receiver[0].data == [0, 0] && truncated(receiver[1..]))
              else truncated(receiver)
  {
    if state.Header? && state.data != [] {
      HeaderPanics(state.data, receiver);
    } else if state.Header? && receiver != [] && receiver[0].Packet? {
      HeaderPanics(receiver[0].data, receiver[1..]);
    }
  }

  lemma HeaderPanics(d: seq<byte>, receiver: seq<Arrival>)
    ensures PollHeader(d, receiver).poll.Panic? <==>
            || |d| < 2 || (d[0] == 0 && d[1] == 0 && |d| > 2)
            || ((d[0] != 0 || d[1] != 0) && |d| < 2 + (256 * d[0] as int + d[1] as int))
            || (d == [0, 0] && receiver != [] && receiver[0].Packet? && receiver[0].cmd == 0xa && |receiver[0].data| < 2)
  {
    if |d| >= 2 {
      U16BigEndian(0, d[0], d[1]);
      assert d[..2] == [d[0], d[1]];
      if |d| == 2 {
        assert d == [d[0], d[1]];
      }
    }
  }

  /** A poll that fails or ends closes the channel; one that waits has at most moved on from the headers. */
  lemma PollLeaves(receiver: seq<Arrival>, state: ChannelState)
    ensures var p := PollOnce(receiver, state);
            && (p.poll.Fail? || p.poll.End? ==> p.state == Closed)
            && (p.poll.Wait? ==> p.state == state || (p.state == Data && state.Header?))
            && (p.poll.Emit? && p.poll.event.DataEvent? ==> p.state == Data)
            && (p.poll.Emit? && p.poll.event.HeaderEvent? ==> p.state.Header? && state.Header?)
  {
  }

  // ----- polling to the end

  function Size(receiver: seq<Arrival>): nat {
    if receiver == [] then 0
    else 1 + (if receiver[0].Packet? then |receiver[0].data| else 0) + Size(receiver[1..])
  }

  function Held(state: ChannelState): nat {
    if state.Header? then |state.data| else 0
  }

  lemma PollProgress(receiver: seq<Arrival>, state: ChannelState)
    ensures var p := PollOnce(receiver, state);
            p.poll.Emit? || (p.poll.Wait? && receiver != []) ==> Size(p.receiver) + Held(p.state) < Size(receiver) + Held(state)
  {
  }

  datatype Ending = StillOpen(state: ChannelState) | Ended | Failed | Panicked

  datatype Outcome = Outcome(events: seq<Event>, ending: Ending)

  function Before(e: Event, o: Outcome): Outcome {
    Outcome([e] + o.events, o.ending)
  }

  /** Polls until the stream ends, fails or panics, or the receiver has nothing more to give. */
  function PollAll(receiver: seq<Arrival>, state: ChannelState): Outcome
    decreases Size(receiver) + Held(state)
  {
    PollProgress(receiver, state);
    var p := PollOnce(receiver, state);
    match p.poll
    case Emit(e) => Before(e, PollAll(p.receiver, p.state))
    case End => Outcome([], Ended)
    case Wait => if receiver == [] then Outcome([], StillOpen(p.state)) else PollAll(p.receiver, p.state)
    case Fail => Outcome([], Failed)
    case Panic => Outcome([], Panicked)
  }

  // ----- the moments without a packet do not matter

  function Packets(receiver: seq<Arrival>): seq<Arrival> {
    if receiver == [] then []
    else if receiver[0].NothingYet? then Packets(receiver[1..])
    else [receiver[0]] + Packets(receiver[1..])
  }

  lemma SamePollSameOutcome(receiver: seq<Arrival>, state: ChannelState, state': ChannelState)
    requires PollOnce(receiver, state) == PollOnce(receiver, state')
    ensures PollAll(receiver, state) == PollAll(receiver, state')
  {
  }

  /** Running into a moment without a packet only postpones the rest. */
  lemma {:induction false} GapPostpones(rest: seq<Arrival>, state: ChannelState)
    ensures PollAll([NothingYet] + rest, state) == PollAll(rest, state)
    decreases Held(state)
  {
    var receiver := [NothingYet] + rest;
    assert receiver[1..] == rest;
    var p := PollOnce(receiver, state);
    var q := PollOnce(rest, state);
    if p.poll.Emit? {
      GapPostpones(rest, p.state);
      assert q == Polled(p.poll, rest, p.state);
    } else if p.poll.Wait? {
      assert p.receiver == rest;
      SamePollSameOutcome(rest, state, p.state);
    } else {
      assert p.poll.Panic? && q.poll.Panic?;
    }
  }

  const TERMINATOR: seq<byte> := [0, 0]

  predicate IsPacket(a: Arrival, data: seq<byte>) {
    a.Packet? && a.cmd != 0xa && a.data == data
  }

  /** The zero-length header hands over to the data state within the same poll. */
  lemma TerminatorHandsOver(receiver: seq<Arrival>)
    ensures PollAll(receiver, Header(TERMINATOR)) == PollAll(receiver, Data)
    ensures receiver != [] && IsPacket(receiver[0], TERMINATOR) ==>
              PollAll(receiver, Header([])) == PollAll(receiver[1..], Data)
  {
    assert ReadU16(TERMINATOR) == 0;
    SamePollSameOutcome(receiver, Header(TERMINATOR), Data);
    if receiver != [] && IsPacket(receiver[0], TERMINATOR) {
      assert PollOnce(receiver, Header([])) == PollOnce(receiver[1..], Data);
    }
  }

  lemma OnlyTerminatorSwitches(receiver: seq<Arrival>, data: seq<byte>)
    requires data != TERMINATOR
    ensures var p := PollHeader(data, receiver);
            p.poll.Panic? || (p.poll.Emit? && p.poll.event.HeaderEvent? && p.receiver == receiver)
    ensures forall other :: PollHeader(data, other) == PollHeader(data, receiver).(receiver := other)
  {
    if |data| == 2 {
      U16Canonical(data);
    }
  }

  /** The result of polling to the end depends only on the packets, not on when they arrive. */
  lemma {:induction false} GapsIrrelevant(receiver: seq<Arrival>, state: ChannelState)
    ensures PollAll(receiver, state) == PollAll(Packets(receiver), state)
    decreases Size(receiver) + Held(state)
  {
    hide PollHeader;
    if state == Header(TERMINATOR) {
      TerminatorHandsOver(receiver);
      TerminatorHandsOver(Packets(receiver));
      GapsIrrelevant(receiver, Data);
    } else if receiver == [] {
    } else {
      var rest := receiver[1..];
      if receiver[0].NothingYet? {
        assert receiver == [NothingYet] + rest;
        GapPostpones(rest, state);
        GapsIrrelevant(rest, state);
      } else {
        assert Packets(receiver)[1..] == Packets(rest);
        PollProgress(receiver, state);
        var p := PollOnce(receiver, state);
        if state == Header([]) && IsPacket(receiver[0], TERMINATOR) {
          TerminatorHandsOver(receiver);
          TerminatorHandsOver(Packets(receiver));
          GapsIrrelevant(rest, Data);
        } else {
          if state == Header([]) && receiver[0].cmd != 0xa {
            OnlyTerminatorSwitches(rest, receiver[0].data);
          } else if state.Header? && state.data != [] {
            OnlyTerminatorSwitches(receiver, state.data);
          }
          if p.poll.Emit? {
            GapsIrrelevant(p.receiver, p.state);
          }
        }
      }
    }
  }

  // ----- well-formed streams

  datatype HeaderField = HeaderField(id: byte, header: seq<byte>)

  predicate Fits(h: HeaderField) {
    1 + |h.header| < U16_RANGE
  }

  function WriteHeader(h: HeaderField): seq<byte> {
    U16Bytes(1 + |h.header|) + [h.id] + h.header
  }

  function WriteHeaders(hs: seq<HeaderField>): seq<byte> {
    if hs == [] then [] else WriteHeader(hs[0]) + WriteHeaders(hs[1..])
  }

  function HeaderEvents(hs: seq<HeaderField>): seq<Event> {
    seq(|hs|, i requires 0 <= i < |hs| => HeaderEvent(hs[i].id, hs[i].header))
  }

  function DataEvents(datas: seq<seq<byte>>): seq<Event> {
    seq(|datas|, i requires 0 <= i < |datas| => DataEvent(datas[i]))
  }

  /** An empty packet ends a stream; an error packet, which carries a two-byte code, makes it fail. */
  predicate Closes(a: Arrival, ending: Ending) {
    (ending == Ended && IsPacket(a, [])) || (ending == Failed && a.Packet? && a.cmd == 0xa && |a.data| >= 2)
  }

  /** Non-empty data packets and one packet that closes the stream; the commands are otherwise the sender's choice. */
  ghost predicate IsDataStream(arrivals: seq<Arrival>, datas: seq<seq<byte>>, ending: Ending) {
    && |arrivals| == |datas| + 1
    && (forall i :: 0 <= i < |datas| ==> datas[i] != [] && IsPacket(arrivals[i], datas[i]))
    && Closes(arrivals[|datas|], ending)
  }

  /** Headers in groups of one packet each, none split between packets, the last packet closed by the terminator. */
  ghost predicate IsStream(arrivals: seq<Arrival>, groups: seq<seq<HeaderField>>, datas: seq<seq<byte>>,
                           ending: Ending) {
    var n := |groups| - 1;
    && groups != [] && n < |arrivals|
    && (forall i :: 0 <= i < n ==> groups[i] != [] && IsPacket(arrivals[i], WriteHeaders(groups[i])))
    && IsPacket(arrivals[n], WriteHeaders(groups[n]) + TERMINATOR)
    && IsDataStream(arrivals[n + 1..], datas, ending)
  }

  lemma {:induction false} DataStreamPolls(arrivals: seq<Arrival>, datas: seq<seq<byte>>, ending: Ending)
    requires IsDataStream(arrivals, datas, ending)
    ensures PollAll(arrivals, Data) == Outcome(DataEvents(datas), ending)
    decreases |datas|
  {
    if datas != [] {
      assert IsDataStream(arrivals[1..], datas[1..], ending) by {
        forall i | 0 <= i < |datas[1..]| ensures IsPacket(arrivals[1..][i], datas[1..][i]) {
          assert IsPacket(arrivals[i + 1], datas[i + 1]);
        }
      }
      DataStreamPolls(arrivals[1..], datas[1..], ending);
      assert IsPacket(arrivals[0], datas[0]);
      assert DataEvents(datas) == [DataEvent(datas[0])] + DataEvents(datas[1..]);
    } else {
      assert Closes(arrivals[0], ending);
    }
  }

  lemma PollHeaderReads(h: HeaderField, rest: seq<byte>, receiver: seq<Arrival>)
    requires Fits(h)
    ensures PollHeader(WriteHeader(h) + rest, receiver) ==
            Polled(Emit(HeaderEvent(h.id, h.header)), receiver, Header(rest))
  {
    var data := WriteHeader(h) + rest;
    U16RoundTrip(1 + |h.header|);
    assert data[..2] == U16Bytes(1 + |h.header|);
    assert data[2] == h.id && data[3..3 + |h.header|] == h.header && data[3 + |h.header|..] == rest;
  }

  function After(es: seq<Event>, o: Outcome): Outcome {
    Outcome(es + o.events, o.ending)
  }

  lemma HeldHeaderPolls(h: HeaderField, rest: seq<byte>, receiver: seq<Arrival>)
    requires Fits(h)
    ensures PollAll(receiver, Header(WriteHeader(h) + rest)) ==
            Before(HeaderEvent(h.id, h.header), PollAll(receiver, Header(rest)))
  {
    hide PollHeader;
    PollHeaderReads(h, rest, receiver);
  }

  /** Headers still held come out one a poll, before whatever follows them. */
  lemma {:induction false} HeldHeadersPoll(hs: seq<HeaderField>, rest: seq<byte>, receiver: seq<Arrival>)
    requires forall i :: 0 <= i < |hs| ==> Fits(hs[i])
    ensures PollAll(receiver, Header(WriteHeaders(hs) + rest)) ==
            After(HeaderEvents(hs), PollAll(receiver, Header(rest)))
    decreases |hs|
  {
    hide PollAll;
    hide WriteHeader;
    var after := PollAll(receiver, Header(rest)).events;
    if hs == [] {
      assert WriteHeaders(hs) + rest == rest;
      assert HeaderEvents(hs) + after == after;
    } else {
      var tail := WriteHeaders(hs[1..]) + rest;
      assert WriteHeaders(hs) + rest == WriteHeader(hs[0]) + tail;
      HeldHeaderPolls(hs[0], tail, receiver);
      HeldHeadersPoll(hs[1..], rest, receiver);
      assert HeaderEvents(hs) == [HeaderEvent(hs[0].id, hs[0].header)] + HeaderEvents(hs[1..]);
    }
  }

  /** A packet of at least a header's length is polled as if its bytes had been held. */
  lemma PacketIsHeld(receiver: seq<Arrival>, data: seq<byte>)
    requires receiver != [] && data != [] && IsPacket(receiver[0], data)
    ensures PollAll(receiver, Header([])) == PollAll(receiver[1..], Header(data))
  {
    if data == TERMINATOR {
      TerminatorHandsOver(receiver);
      TerminatorHandsOver(receiver[1..]);
    } else {
      OnlyTerminatorSwitches(receiver[1..], data);
      assert PollOnce(receiver, Header([])) == PollOnce(receiver[1..], Header(data));
    }
  }

  lemma WrittenHeadersNonEmpty(hs: seq<HeaderField>)
    requires hs != []
    ensures WriteHeaders(hs) != []
  {
  }

  lemma LastGroupPolls(arrivals: seq<Arrival>, hs: seq<HeaderField>, datas: seq<seq<byte>>, ending: Ending)
    requires arrivals != [] && IsPacket(arrivals[0], WriteHeaders(hs) + TERMINATOR)
    requires IsDataStream(arrivals[1..], datas, ending)
    requires forall i :: 0 <= i < |hs| ==> Fits(hs[i])
    ensures PollAll(arrivals, Header([])) == Outcome(HeaderEvents(hs) + DataEvents(datas), ending)
  {
    hide PollAll;
    hide WriteHeaders;
    PacketIsHeld(arrivals, WriteHeaders(hs) + TERMINATOR);
    HeldHeadersPoll(hs, TERMINATOR, arrivals[1..]);
    TerminatorHandsOver(arrivals[1..]);
    DataStreamPolls(arrivals[1..], datas, ending);
  }

  lemma FirstGroupPolls(arrivals: seq<Arrival>, hs: seq<HeaderField>)
    requires arrivals != [] && hs != [] && IsPacket(arrivals[0], WriteHeaders(hs))
    requires forall i :: 0 <= i < |hs| ==> Fits(hs[i])
    ensures PollAll(arrivals, Header([])) == After(HeaderEvents(hs), PollAll(arrivals[1..], Header([])))
  {
    hide PollAll;
    WrittenHeadersNonEmpty(hs);
    hide WriteHeaders;
    PacketIsHeld(arrivals, WriteHeaders(hs));
    HeldHeadersPoll(hs, [], arrivals[1..]);
    assert WriteHeaders(hs) + [] == WriteHeaders(hs);
  }

  lemma LaterGroups(arrivals: seq<Arrival>, groups: seq<seq<HeaderField>>, datas: seq<seq<byte>>, ending: Ending)
    requires IsStream(arrivals, groups, datas, ending) && |groups| > 1
    ensures IsStream(arrivals[1..], groups[1..], datas, ending)
  {
    assert arrivals[1..][|groups| - 1..] == arrivals[|groups|..];
  }

  lemma EventsSplit(a: seq<HeaderField>, b: seq<HeaderField>, rest: seq<Event>)
    ensures HeaderEvents(a) + (HeaderEvents(b) + rest) == HeaderEvents(a + b) + rest
  {
  }

  lemma {:induction false} StreamPolls(arrivals: seq<Arrival>, groups: seq<seq<HeaderField>>, datas: seq<seq<byte>>,
                                       ending: Ending)
    requires IsStream(arrivals, groups, datas, ending)
    requires forall i :: 0 <= i < |Concat(groups)| ==> Fits(Concat(groups)[i])
    ensures PollAll(arrivals, Header([])) == Outcome(HeaderEvents(Concat(groups)) + DataEvents(datas), ending)
    decreases |groups|
  {
    hide PollAll;
    hide WriteHeaders;
    var hs, later := groups[0], Concat(groups[1..]);
    assert Concat(groups) == hs + later;
    forall i | 0 <= i < |hs| ensures Fits(hs[i]) {
      assert hs[i] == Concat(groups)[i];
    }
    forall i | 0 <= i < |later| ensures Fits(later[i]) {
      assert later[i] == Concat(groups)[|hs| + i];
    }
    if |groups| == 1 {
      LastGroupPolls(arrivals, hs, datas, ending);
      assert later == [];
    } else {
      FirstGroupPolls(arrivals, hs);
      LaterGroups(arrivals, groups, datas, ending);
      StreamPolls(arrivals[1..], groups[1..], datas, ending);
      EventsSplit(hs, later, DataEvents(datas));
    }
  }

  /** A well-formed stream comes out as its headers, then its data, then its end or failure, whenever its packets arrive. */
  lemma StreamReceived(receiver: seq<Arrival>, groups: seq<seq<HeaderField>>, datas: seq<seq<byte>>, ending: Ending)
    requires IsStream(Packets(receiver), groups, datas, ending)
    requires forall i :: 0 <= i < |Concat(groups)| ==> Fits(Concat(groups)[i])
    ensures PollAll(receiver, Header([])) == Outcome(HeaderEvents(Concat(groups)) + DataEvents(datas), ending)
  {
    GapsIrrelevant(receiver, Header([]));
    StreamPolls(Packets(receiver), groups, datas, ending);
  }

  // ----- the data half of a channel

  /** `ChannelData::poll`: polls on past headers. */
  function PollPastHeaders(receiver: seq<Arrival>, state: ChannelState): Polled
    decreases Size(receiver) + Held(state)
  {
    PollProgress(receiver, state);
    var p := PollOnce(receiver, state);
    if p.poll.Emit? && p.poll.event.HeaderEvent? then PollPastHeaders(p.receiver, p.state) else p
  }

  lemma {:induction false} PastHeadersProgress(receiver: seq<Arrival>, state: ChannelState)
    ensures var p := PollPastHeaders(receiver, state);
            && Size(p.receiver) + Held(p.state) <= Size(receiver) + Held(state)
            && (p.poll.Emit? || (p.poll.Wait? && receiver != []) ==>
                  Size(p.receiver) + Held(p.state) < Size(receiver) + Held(state))
    decreases Size(receiver) + Held(state)
  {
    PollProgress(receiver, state);
    NeverGrows(receiver, state);
    var p := PollOnce(receiver, state);
    if p.poll.Emit? && p.poll.event.HeaderEvent? {
      PastHeadersProgress(p.receiver, p.state);
    }
  }

  lemma NeverGrows(receiver: seq<Arrival>, state: ChannelState)
    ensures var p := PollOnce(receiver, state); Size(p.receiver) + Held(p.state) <= Size(receiver) + Held(state)
  {
  }

  /** Polls the data half to the end. */
  function PollAllData(receiver: seq<Arrival>, state: ChannelState): Outcome
    decreases Size(receiver) + Held(state)
  {
    PastHeadersProgress(receiver, state);
    var p := PollPastHeaders(receiver, state);
    match p.poll
    case Emit(e) => Before(e, PollAllData(p.receiver, p.state))
    case End => Outcome([], Ended)
    case Wait => if receiver == [] then Outcome([], StillOpen(p.state)) else PollAllData(p.receiver, p.state)
    case Fail => Outcome([], Failed)
    case Panic => Outcome([], Panicked)
  }

  function OnlyData(events: seq<Event>): seq<Event> {
    if events == [] then []
    else if events[0].DataEvent? then [events[0]] + OnlyData(events[1..])
    else OnlyData(events[1..])
  }

  lemma WaitOnNothing(state: ChannelState)
    ensures var p := PollOnce([], state); p.poll.Wait? ==> PollOnce([], p.state) == p && PollPastHeaders([], p.state) == p
  {
  }

  lemma HeaderIsSkipped(receiver: seq<Arrival>, state: ChannelState)
    requires var p := PollOnce(receiver, state); p.poll.Emit? && p.poll.event.HeaderEvent?
    ensures var p := PollOnce(receiver, state); PollAllData(receiver, state) == PollAllData(p.receiver, p.state)
  {
    var p := PollOnce(receiver, state);
    assert PollPastHeaders(receiver, state) == PollPastHeaders(p.receiver, p.state);
    PollProgress(receiver, state);
    PastHeadersProgress(p.receiver, p.state);
    var q := PollPastHeaders(p.receiver, p.state);
    if q.poll.Wait? && p.receiver == [] && receiver != [] {
      PastHeadersOnNothing(p.state);
      assert PollAllData(q.receiver, q.state) == Outcome([], StillOpen(q.state));
    }
  }

  lemma {:induction false} PastHeadersOnNothing(state: ChannelState)
    ensures var p := PollPastHeaders([], state);
            p.poll.Wait? ==> p.receiver == [] && PollPastHeaders([], p.state) == p
    decreases Held(state)
  {
    PollProgress([], state);
    WaitOnNothing(state);
    var p := PollOnce([], state);
    if p.poll.Emit? && p.poll.event.HeaderEvent? {
      PastHeadersOnNothing(p.state);
    }
  }

  /** The data half sees the same stream with the headers left out. */
  lemma {:induction false} DataHalf(receiver: seq<Arrival>, state: ChannelState)
    ensures PollAllData(receiver, state) == Outcome(OnlyData(PollAll(receiver, state).events), PollAll(receiver, state).ending)
    decreases Size(receiver) + Held(state)
  {
    PollProgress(receiver, state);
    var p := PollOnce(receiver, state);
    if p.poll.Emit? && p.poll.event.HeaderEvent? {
      HeaderIsSkipped(receiver, state);
      DataHalf(p.receiver, p.state);
    } else {
      assert PollPastHeaders(receiver, state) == p;
      if p.poll.Emit? || (p.poll.Wait? && receiver != []) {
        DataHalf(p.receiver, p.state);
      }
    }
  }

  lemma {:induction false} OnlyDataAppend(a: seq<Event>, b: seq<Event>)
    requires (forall i :: 0 <= i < |a| ==> a[i].HeaderEvent?) && forall i :: 0 <= i < |b| ==> b[i].DataEvent?
    ensures OnlyData(a + b) == b
    decreases |a|, |b|
  {
    if a == [] && b == [] {
    } else if a == [] {
      assert a + b == b;
      OnlyDataAppend([], b[1..]);
      assert [] + b[1..] == b[1..];
    } else {
      assert (a + b)[1..] == a[1..] + b;
      OnlyDataAppend(a[1..], b);
    }
  }

  /** Through the data half exactly the data packets of a well-formed stream come out, then its end or failure. */
  lemma StreamDataReceived(receiver: seq<Arrival>, groups: seq<seq<HeaderField>>, datas: seq<seq<byte>>, ending: Ending)
    requires IsStream(Packets(receiver), groups, datas, ending)
    requires forall i :: 0 <= i < |Concat(groups)| ==> Fits(Concat(groups)[i])
    ensures PollAllData(receiver, Header([])) == Outcome(DataEvents(datas), ending)
  {
    StreamReceived(receiver, groups, datas, ending);
    DataHalf(receiver, Header([]));
    OnlyDataAppend(HeaderEvents(Concat(groups)), DataEvents(datas));
  }

  // ----- the channel object

  class Channel {
    var receiver: seq<Arrival>
    var state: ChannelState

    constructor (receiver: seq<Arrival>)
      ensures this.receiver == receiver && state == Header([])
    {
      this.receiver := receiver;
      state := Header([]);
    }

    /** An error packet closes the channel; one without room for its code panics. */
    method RecvPacket() returns (r: Received)
      requires Receive(receiver) != Stopped(Panic)
      modifies this
      ensures r == Receive(old(receiver)) && receiver == Rest(old(receiver)) && state == StateAfter(r, old(state))
      ensures old(receiver) != [] ==> receiver == old(receiver)[1..]
      ensures if old(receiver) == [] || old(receiver)[0].NothingYet? then r == Stopped(Wait) && state == old(state)
              else if old(receiver)[0].cmd == 0xa then r == Stopped(Fail) && state == Closed
              else r == Got(old(receiver)[0].data) && state == old(state)
    {
      if receiver == [] {
        return Stopped(Wait);
      }
      var arrival := receiver[0];
      receiver := receiver[1..];
      match arrival {
        case NothingYet =>
          return Stopped(Wait);
        case Packet(cmd, data) =>
          if cmd == 0xa {
            state := Closed;
            return Stopped(Fail);
          }
          return Got(data);
      }
    }

    method PollChannel() returns (poll: Poll)
      requires !PollOnce(receiver, state).poll.Panic?
      modifies this
      ensures Polled(poll, receiver, state) == PollOnce(old(receiver), old(state))
    {
      while true
        invariant PollOnce(receiver, state) == PollOnce(old(receiver), old(state))
        decreases if state.Header? then 1 else 0
      {
        match state {
          case Header(held) =>
            var data := held;
            if |data| == 0 {
              var r := RecvPacket();
              match r {
                case Stopped(result) => return result;
                case Got(packet) => data := packet;
              }
            }

            var length := ReadU16(data[..2]);
            if length == 0 {
              state := Data;
            } else {
              var headerId := data[2];
              var headerData := data[3..2 + length];
              state := Header(data[2 + length..]);
              return Emit(HeaderEvent(headerId, headerData));
            }

          case Data =>
            var r := RecvPacket();
            match r {
              case Stopped(result) => return result;
              case Got(data) =>
                if |data| == 0 {
                  state := Closed;
                  return End;
                } else {
                  return Emit(DataEvent(data));
                }
            }
        }
      }
    }
  }

  class ChannelData {
    const channel: Channel

    constructor (channel: Channel)
      ensures this.channel == channel
    {
      this.channel := channel;
    }

    method PollData() returns (poll: Poll)
      requires !PollPastHeaders(channel.receiver, channel.state).poll.Panic?
      modifies channel
      ensures Polled(poll, channel.receiver, channel.state) == PollPastHeaders(old(channel.receiver), old(channel.state))
    {
      while true
        invariant PollPastHeaders(channel.receiver, channel.state) == PollPastHeaders(old(channel.receiver), old(channel.state))
        decreases Size(channel.receiver) + Held(channel.state)
      {
        PollProgress(channel.receiver, channel.state);
        poll := channel.PollChannel();
        if !(poll.Emit? && poll.event.HeaderEvent?) {
          return;
        }
      }
    }
  }
}
