/** The Mercury manager (core/src/mercury/mod.rs): requests, interleaved packets, completions and subscriptions. */
module Mercury {
  import opened Bytes
  import opened MercuryPackets
  import opened Wrappers

  datatype Header = Header(uri: string, status: int)

  /** The protobuf parser; the source unwraps its result. */
  type HeaderReader = seq<byte> -> Option<Header>

  datatype Response = Response(uri: string, status: int, payload: seq<seq<byte>>)

  /** A channel that wants every pushed response whose URI starts with the prefix. */
  datatype Subscription = Subscription(prefix: string, channel: nat)

  datatype Delivery = Delivery(channel: nat, response: Response)

  /** A message whose last packet has arrived, with the command of that packet. */
  datatype Finished = Finished(sequence: seq<byte>, cmd: byte, message: Pending)

  /** A callback being completed; no response stands for `Err(MercuryError)`. */
  datatype Completion = Completion(callback: nat, sequence: seq<byte>, cmd: byte, result: Option<Response>)

  /** Callbacks are known by the number of their request. `issued`, `finished`, `completed` and `delivered` are history. */
  datatype State = State(
    sequence: nat,
    pending: map<seq<byte>, Pending>,
    subscriptions: seq<Subscription>,
    issued: nat,
    finished: seq<Finished>,
    completed: seq<Completion>,
    delivered: seq<Delivery>)

  const INITIAL := State(0, map[], [], 0, [], [], [])

  // ----- the operations

  function SequenceBytes(n: nat): (s: seq<byte>)
    ensures |s| == 8
  {
    ToBytesBE(n, 8)
  }

  function Issue(s: State): State {
    s.(sequence := (s.sequence + 1) % U64_RANGE,
       pending := s.pending[SequenceBytes(s.sequence) := Pending([], None, Some(s.issued))],
       issued := s.issued + 1)
  }

  function Wants(sub: Subscription, uri: string): bool {
    sub.prefix <= uri
  }

  /** `retain`: a matching subscriber stays only if it still listens. */
  function Retained(subs: seq<Subscription>, uri: string, listening: set<nat>): seq<Subscription> {
    if subs == [] then []
    else
      var rest := Retained(subs[1..], uri, listening);
      if Wants(subs[0], uri) && subs[0].channel !in listening then rest else [subs[0]] + rest
  }

  function Deliveries(subs: seq<Subscription>, response: Response, listening: set<nat>): seq<Delivery> {
    if subs == [] then []
    else
      var rest := Deliveries(subs[1..], response, listening);
      if Wants(subs[0], response.uri) && subs[0].channel in listening then [Delivery(subs[0].channel, response)] + rest
      else rest
  }

  /** Completing needs a header part, and one that parses; anything else panics. */
  predicate Readable(parse: HeaderReader, message: Pending) {
    message.parts != [] && parse(message.parts[0]).Some?
  }

  function ResponseOf(parse: HeaderReader, message: Pending): Response
    requires Readable(parse, message)
  {
    var header := parse(message.parts[0]).value;
    Response(header.uri, header.status, message.parts[1..])
  }

  function CompletionsOf(parse: HeaderReader, f: Finished): seq<Completion>
    requires Readable(parse, f.message)
  {
    if f.message.callback.None? then []
    else
      var id, response := f.message.callback.value, ResponseOf(parse, f.message);
      if response.status >= 400 then [Completion(id, f.sequence, f.cmd, None)]
      else if f.cmd == 0xb5 then []
      else [Completion(id, f.sequence, f.cmd, Some(response))]
  }

  function Complete(parse: HeaderReader, s: State, f: Finished, listening: set<nat>): State
    requires Readable(parse, f.message)
  {
    var response := ResponseOf(parse, f.message);
    var s1 := s.(finished := s.finished + [f], completed := s.completed + CompletionsOf(parse, f));
    if response.status < 400 && f.cmd == 0xb5 then
      s1.(subscriptions := Retained(s.subscriptions, response.uri, listening),
          delivered := s.delivered + Deliveries(s.subscriptions, response, listening))
    else s1
  }

  function Lookup(s: State, k: seq<byte>): Option<Pending> {
    if k in s.pending then Some(s.pending[k]) else None
  }

  /** What a packet is joined to: the message it belongs to, a new one for a push, or nothing. */
  function Target(entry: Option<Pending>, cmd: byte): Option<Pending> {
    if entry.Some? then entry
    else if cmd == 0xb5 then Some(Pending([], None, None))
    else None
  }

  /** Whether the packet in these bytes belongs to a message. */
  predicate Known(s: State, cmd: byte, data: seq<byte>)
    requires ReadHead(data).Some?
  {
    Target(Lookup(s, ReadHead(data).value.0.sequence), cmd).Some?
  }

  predicate CanReceive(parse: HeaderReader, s: State, cmd: byte, packet: Packet) {
    var target := Target(Lookup(s, packet.sequence), cmd);
    target.Some? && packet.flags == 1 ==> Readable(parse, Joined(target.value, packet))
  }

  function Receive(parse: HeaderReader, s: State, cmd: byte, packet: Packet, listening: set<nat>): State
    requires CanReceive(parse, s, cmd, packet)
  {
    var target := Target(Lookup(s, packet.sequence), cmd);
    if target.None? then s
    else
      var message := Joined(target.value, packet);
      if packet.flags == 1 then
        Complete(parse, s.(pending := s.pending - {packet.sequence}), Finished(packet.sequence, cmd, message), listening)
      else
        s.(pending := s.pending[packet.sequence := message])
  }

  // ----- runs

  datatype Event =
    | Request
    | Incoming(cmd: byte, packet: Packet, listening: set<nat>)
    | Subscribed(subs: seq<Subscription>)

  predicate Legal(parse: HeaderReader, s: State, e: Event) {
    e.Incoming? ==> CanReceive(parse, s, e.cmd, e.packet)
  }

  function Step(parse: HeaderReader, s: State, e: Event): State
    requires Legal(parse, s, e)
  {
    match e
    case Request => Issue(s)
    case Incoming(cmd, packet, listening) => Receive(parse, s, cmd, packet, listening)
    case Subscribed(subs) => s.(subscriptions := s.subscriptions + subs)
  }

  predicate LegalRun(parse: HeaderReader, s: State, events: seq<Event>)
    decreases |events|
  {
    events == [] || (Legal(parse, s, events[0]) && LegalRun(parse, Step(parse, s, events[0]), events[1..]))
  }

  function Run(parse: HeaderReader, s: State, events: seq<Event>): State
    requires LegalRun(parse, s, events)
    decreases |events|
  {
    if events == [] then s else Run(parse, Step(parse, s, events[0]), events[1..])
  }

  // ----- what the steps do, written out

  /** A request opens an empty entry under its number in eight big-endian bytes, and changes no other entry. */
  lemma RequestExactly(parse: HeaderReader, s: State, k: seq<byte>)
    ensures var s' := Step(parse, s, Event.Request);
            && s' == s.(sequence := (s.sequence + 1) % 0x1_0000_0000_0000_0000, pending := s'.pending, issued := s.issued + 1)
            && (if |k| == 8 && FromBytesBE(k) == s.sequence % 0x1_0000_0000_0000_0000
                then k in s'.pending && s'.pending[k] == Pending([], None, Some(s.issued))
                else (k in s'.pending <==> k in s.pending) && (k in s.pending ==> s'.pending[k] == s.pending[k]))
  {
    hide SequenceBytes;
    hide FromBytesBE;
    SequenceIs(s.sequence, k);
  }

  /** A packet whose completion does not panic: it belongs to nothing, or it is not final, or the message it completes
      starts with a readable header. */
  lemma ReceivableExactly(parse: HeaderReader, s: State, cmd: byte, packet: Packet)
    ensures var k := packet.sequence;
            var start := if k in s.pending then s.pending[k] else Pending([], None, None);
            var parts := Joined(start, packet).parts;
            CanReceive(parse, s, cmd, packet) <==>
            ((k in s.pending || cmd == 0xb5) && packet.flags == 1 ==> parts != [] && parse(parts[0]).Some?)
  {
    hide Joined;
  }

  /** What a packet does: nothing if it has no entry and is no push; otherwise it is joined to its entry, or to an empty
      message; a final packet then removes the entry and completes the message by its status. */
  lemma IncomingExactly(parse: HeaderReader, s: State, cmd: byte, packet: Packet, listening: set<nat>)
    requires CanReceive(parse, s, cmd, packet)
    ensures var k := packet.sequence;
            var s' := Step(parse, s, Incoming(cmd, packet, listening));
            if k !in s.pending && cmd != 0xb5 then s' == s
            else
              var message := Joined(if k in s.pending then s.pending[k] else Pending([], None, None), packet);
              if packet.flags != 1 then s' == s.(pending := s.pending[k := message])
              else
                && message.parts != [] && parse(message.parts[0]).Some?
                && var header := parse(message.parts[0]).value;
                   var response := Response(header.uri, header.status, message.parts[1..]);
                   var done := s.(pending := s.pending - {k}, finished := s.finished + [Finished(k, cmd, message)]);
                   var id := message.callback;
                   s' == if header.status >= 400 then
                           if id.None? then done
                           else done.(completed := s.completed + [Completion(id.value, k, cmd, None)])
                         else if cmd == 0xb5 then
                           done.(subscriptions := Retained(s.subscriptions, header.uri, listening),
                                 delivered := s.delivered + Deliveries(s.subscriptions, response, listening))
                         else if id.None? then done
                         else done.(completed := s.completed + [Completion(id.value, k, cmd, Some(response))])
  {
    hide Joined;
    hide Retained;
    hide Deliveries;
    hide SequenceBytes;
    assert s.completed + [] == s.completed;
  }

  // ----- one sequence number on its own

  /** What happens to one sequence number. */
  datatype Action = Opened(callback: nat) | Received(cmd: byte, packet: Packet)

  datatype Own = Own(entry: Option<Pending>, finished: seq<Finished>)

  function OwnStep(o: Own, k: seq<byte>, a: Action): Own {
    match a
    case Opened(id) => o.(entry := Some(Pending([], None, Some(id))))
    case Received(cmd, packet) =>
      var target := Target(o.entry, cmd);
      if target.None? then o
      else
        var message := Joined(target.value, packet);
        if packet.flags == 1 then Own(None, o.finished + [Finished(k, cmd, message)])
        else o.(entry := Some(message))
  }

  function OwnRun(o: Own, k: seq<byte>, actions: seq<Action>): Own
    decreases |actions|
  {
    if actions == [] then o else OwnRun(OwnStep(o, k, actions[0]), k, actions[1..])
  }

  /** The actions of an event on sequence number k. */
  function ActionsOn(s: State, e: Event, k: seq<byte>): seq<Action> {
    match e
    case Request => if SequenceBytes(s.sequence) == k then [Opened(s.issued)] else []
    case Incoming(cmd, packet, _) => if packet.sequence == k then [Received(cmd, packet)] else []
    case Subscribed(_) => []
  }

  /** The actions of a run on sequence number k, everything else left out. */
  function AllActionsOn(parse: HeaderReader, s: State, events: seq<Event>, k: seq<byte>): seq<Action>
    requires LegalRun(parse, s, events)
    decreases |events|
  {
    if events == [] then []
    else ActionsOn(s, events[0], k) + AllActionsOn(parse, Step(parse, s, events[0]), events[1..], k)
  }

  function FinishedOn(finished: seq<Finished>, k: seq<byte>): seq<Finished> {
    if finished == [] then []
    else
      var n := |finished| - 1;
      FinishedOn(finished[..n], k) + if finished[n].sequence == k then [finished[n]] else []
  }

  function OwnView(s: State, k: seq<byte>): Own {
    Own(Lookup(s, k), FinishedOn(s.finished, k))
  }

  lemma FinishedSnoc(finished: seq<Finished>, f: Finished, k: seq<byte>)
    ensures FinishedOn(finished + [f], k) == FinishedOn(finished, k) + if f.sequence == k then [f] else []
  {
    assert (finished + [f])[..|finished|] == finished;
  }

  lemma {:induction false} OwnRunAppend(o: Own, k: seq<byte>, a: seq<Action>, b: seq<Action>)
    ensures OwnRun(o, k, a + b) == OwnRun(OwnRun(o, k, a), k, b)
    decreases |a|
  {
    if a == [] {
      assert a + b == b;
    } else {
      assert (a + b)[1..] == a[1..] + b;
      OwnRunAppend(OwnStep(o, k, a[0]), k, a[1..], b);
    }
  }

  lemma NoActions(o: Own, k: seq<byte>)
    ensures OwnRun(o, k, []) == o
  {
  }

  lemma OneAction(o: Own, k: seq<byte>, a: Action)
    ensures OwnRun(o, k, [a]) == OwnStep(o, k, a)
  {
    hide OwnStep;
    NoActions(OwnStep(o, k, a), k);
    var none: seq<Action> := [];
    assert [a][1..] == none;
  }

  lemma ReceiveOnOwn(parse: HeaderReader, s: State, cmd: byte, packet: Packet, listening: set<nat>, k: seq<byte>)
    requires CanReceive(parse, s, cmd, packet)
    ensures OwnView(Receive(parse, s, cmd, packet, listening), k) ==
            if packet.sequence == k then OwnStep(OwnView(s, k), k, Received(cmd, packet)) else OwnView(s, k)
  {
    hide Joined;
    hide Retained;
    hide Deliveries;
    hide CompletionsOf;
    hide FinishedOn;
    var target := Target(Lookup(s, packet.sequence), cmd);
    if target.Some? && packet.flags == 1 {
      FinishedSnoc(s.finished, Finished(packet.sequence, cmd, Joined(target.value, packet)), k);
    }
  }

  lemma StepOnOwn(parse: HeaderReader, s: State, e: Event, k: seq<byte>)
    requires Legal(parse, s, e)
    ensures OwnView(Step(parse, s, e), k) == OwnRun(OwnView(s, k), k, ActionsOn(s, e, k))
  {
    hide OwnRun;
    hide SequenceBytes;
    NoActions(OwnView(s, k), k);
    match e
    case Request =>
      OneAction(OwnView(s, k), k, Opened(s.issued));
    case Incoming(cmd, packet, listening) =>
      OneAction(OwnView(s, k), k, Received(cmd, packet));
      ReceiveOnOwn(parse, s, cmd, packet, listening, k);
    case Subscribed(_) =>
  }

  /** Each sequence number evolves by its own packets alone, whatever is interleaved with them. */
  lemma {:induction false} RunRefinesOwn(parse: HeaderReader, s: State, events: seq<Event>, k: seq<byte>)
    requires LegalRun(parse, s, events)
    ensures OwnView(Run(parse, s, events), k) == OwnRun(OwnView(s, k), k, AllActionsOn(parse, s, events, k))
    decreases |events|
  {
    if events == [] {
    } else {
      var s' := Step(parse, s, events[0]);
      StepOnOwn(parse, s, events[0], k);
      RunRefinesOwn(parse, s', events[1..], k);
      OwnRunAppend(OwnView(s, k), k, ActionsOn(s, events[0], k), AllActionsOn(parse, s', events[1..], k));
    }
  }

  // ----- whole messages

  function Receipts(cmds: seq<byte>, packets: seq<Packet>): (actions: seq<Action>)
    requires |cmds| == |packets|
    ensures |actions| == |packets|
  {
    seq(|packets|, i requires 0 <= i < |packets| => Received(cmds[i], packets[i]))
  }

  lemma {:induction false} OwnPacketsJoin(o: Own, k: seq<byte>, cmds: seq<byte>, packets: seq<Packet>)
    requires |cmds| == |packets| > 0 && Target(o.entry, cmds[0]).Some?
    requires forall i :: 0 <= i < |packets| ==> (packets[i].flags == 1 <==> i == |packets| - 1)
    ensures OwnRun(o, k, Receipts(cmds, packets)) ==
            Own(None, o.finished + [Finished(k, cmds[|cmds| - 1], JoinedAll(Target(o.entry, cmds[0]).value, packets))])
    decreases |packets|
  {
    var o' := OwnStep(o, k, Receipts(cmds, packets)[0]);
    assert Receipts(cmds, packets)[1..] == Receipts(cmds[1..], packets[1..]);
    if |packets| > 1 {
      OwnPacketsJoin(o', k, cmds[1..], packets[1..]);
    } else {
      assert JoinedAll(Joined(Target(o.entry, cmds[0]).value, packets[0]), packets[1..]) ==
             Joined(Target(o.entry, cmds[0]).value, packets[0]);
    }
  }

  /** A message sent in any well-formed fragmentation, interleaved with anything else, is completed exactly once,
      with exactly its parts: as the answer to the request waiting under its number, or as a push. */
  lemma InterleavedMessageArrives(parse: HeaderReader, s: State, events: seq<Event>, k: seq<byte>,
                                  cmds: seq<byte>, packets: seq<Packet>, message: seq<seq<byte>>, callback: Option<nat>)
    requires LegalRun(parse, s, events)
    requires |cmds| == |packets| && Fragments(packets, message)
    requires AllActionsOn(parse, s, events, k) == Receipts(cmds, packets)
    requires if k in s.pending then s.pending[k] == Pending([], None, callback) else cmds[0] == 0xb5 && callback == None
    ensures OwnView(Run(parse, s, events), k) ==
            Own(None, FinishedOn(s.finished, k) + [Finished(k, cmds[|cmds| - 1], Pending(message, None, callback))])
  {
    RunRefinesOwn(parse, s, events, k);
    OwnPacketsJoin(OwnView(s, k), k, cmds, packets);
    FragmentsRejoin(packets, message, callback);
  }

  // ----- callbacks

  /** Sequence numbers come round again after 2^64 of them, and no sooner. */
  lemma SequenceBytesInjective(m: nat, n: nat)
    ensures SequenceBytes(m) == SequenceBytes(n) <==> m % U64_RANGE == n % U64_RANGE
  {
    hide ToBytesBE;
    hide FromBytesBE;
    U64Fits();
    SequenceWraps(m);
    SequenceWraps(n);
    BytesRoundTrip(m % U64_RANGE, 8);
    BytesRoundTrip(n % U64_RANGE, 8);
  }

  /** A sequence number goes out as eight bytes, the greatest first. */
  lemma SequenceValue(n: nat)
    ensures |SequenceBytes(n)| == 8 && FromBytesBE(SequenceBytes(n)) == n % 0x1_0000_0000_0000_0000
  {
    hide ToBytesBE;
    hide FromBytesBE;
    U64Fits();
    SequenceWraps(n);
    BytesRoundTrip(n % U64_RANGE, 8);
  }

  lemma SequenceIs(n: nat, k: seq<byte>)
    ensures k == SequenceBytes(n) <==> |k| == 8 && FromBytesBE(k) == n % 0x1_0000_0000_0000_0000
  {
    hide FromBytesBE;
    SequenceValue(n);
    if |k| == 8 && FromBytesBE(k) == n % 0x1_0000_0000_0000_0000 {
      BytesCanonical(k);
      BytesCanonical(SequenceBytes(n));
    }
  }

  lemma SequenceWraps(n: nat)
    ensures SequenceBytes(n % U64_RANGE) == SequenceBytes(n)
  {
    hide ToBytesBE;
    U64Fits();
    BytesWrap(n % U64_RANGE, n / U64_RANGE, 8);
  }

  /** A callback in use sits under the number issued to its own request. */
  ghost predicate PendingOwn(s: State) {
    forall k :: k in s.pending && s.pending[k].callback.Some? ==>
      s.pending[k].callback.value < s.issued && k == SequenceBytes(s.pending[k].callback.value)
  }

  /** A completed callback was completed under its own number, once, and is no longer waiting. */
  ghost predicate CompletedOwn(s: State) {
    && (forall i :: 0 <= i < |s.completed| ==>
          s.completed[i].callback < s.issued && s.completed[i].sequence == SequenceBytes(s.completed[i].callback))
    && (forall i, j :: 0 <= i < j < |s.completed| ==> s.completed[i].callback != s.completed[j].callback)
    && (forall i, k :: 0 <= i < |s.completed| && k in s.pending ==>
          s.pending[k].callback != Some(s.completed[i].callback))
  }

  /** A callback gets a response only if the status was below 400 and the final command was not a push. */
  ghost predicate Justified(s: State) {
    forall i :: 0 <= i < |s.completed| && s.completed[i].result.Some? ==>
      s.completed[i].result.value.status < 400 && s.completed[i].cmd != 0xb5
  }

  ghost predicate CallbackInv(s: State) {
    s.sequence == s.issued % U64_RANGE && PendingOwn(s) && CompletedOwn(s) && Justified(s)
  }

  lemma IssueKeepsCallbacks(s: State)
    requires CallbackInv(s)
    ensures CallbackInv(Issue(s))
  {
    hide SequenceBytes;
    SequenceWraps(s.issued);
  }

  lemma JoinedKeepsCallback(p: Pending, packet: Packet)
    ensures Joined(p, packet).callback == p.callback
  {
    AbsorbKeepsCallback(p, Pieces(packet.flags, packet.parts));
  }

  lemma {:induction false} AbsorbKeepsCallback(p: Pending, pieces: seq<Piece>)
    ensures AbsorbAll(p, pieces).callback == p.callback
    decreases |pieces|
  {
    if pieces == [] {
    } else {
      AbsorbKeepsCallback(Absorb(p, pieces[0]), pieces[1..]);
    }
  }

  lemma FinishKeepsCallbacks(parse: HeaderReader, s: State, f: Finished, listening: set<nat>)
    requires CallbackInv(s) && Readable(parse, f.message)
    requires f.sequence !in s.pending
    requires f.message.callback.Some? ==>
               f.message.callback.value < s.issued && f.sequence == SequenceBytes(f.message.callback.value)
    requires forall i :: 0 <= i < |s.completed| ==> f.message.callback != Some(s.completed[i].callback)
    ensures CallbackInv(Complete(parse, s, f, listening))
  {
    hide SequenceBytes;
    hide Retained;
    hide Deliveries;
    var s' := Complete(parse, s, f, listening);
    if f.message.callback.Some? {
      var id := f.message.callback.value;
      assert forall k :: k in s.pending && s.pending[k].callback == Some(id) ==> k == SequenceBytes(id);
      assert CompletionsOf(parse, f) == [] || s'.completed == s.completed + [CompletionsOf(parse, f)[0]];
    }
  }

  lemma ReceiveKeepsCallbacks(parse: HeaderReader, s: State, cmd: byte, packet: Packet, listening: set<nat>)
    requires CallbackInv(s) && CanReceive(parse, s, cmd, packet)
    ensures CallbackInv(Receive(parse, s, cmd, packet, listening))
  {
    hide Complete;
    hide SequenceBytes;
    hide Joined;
    var target := Target(Lookup(s, packet.sequence), cmd);
    if target.Some? {
      var message := Joined(target.value, packet);
      JoinedKeepsCallback(target.value, packet);
      if packet.flags == 1 {
        FinishKeepsCallbacks(parse, s.(pending := s.pending - {packet.sequence}),
                             Finished(packet.sequence, cmd, message), listening);
      }
    }
  }

  lemma {:induction false} RunKeepsCallbacks(parse: HeaderReader, s: State, events: seq<Event>)
    requires CallbackInv(s) && LegalRun(parse, s, events)
    ensures CallbackInv(Run(parse, s, events))
    decreases |events|
  {
    hide CallbackInv;
    if events == [] {
    } else {
      match events[0] {
        case Request =>
          IssueKeepsCallbacks(s);
        case Incoming(cmd, packet, listening) =>
          ReceiveKeepsCallbacks(parse, s, cmd, packet, listening);
        case Subscribed(subs) =>
          SubscribeKeepsCallbacks(s, subs);
      }
      RunKeepsCallbacks(parse, Step(parse, s, events[0]), events[1..]);
    }
  }

  lemma SubscribeKeepsCallbacks(s: State, subs: seq<Subscription>)
    requires CallbackInv(s)
    ensures CallbackInv(s.(subscriptions := s.subscriptions + subs))
  {
  }

  /** In every run, also after the sequence numbers have wrapped around, each callback waits under its own sequence
      number and is completed at most once, with a response only for a status below 400 and a command other than a
      push. */
  lemma CallbacksCompletedOnce(parse: HeaderReader, events: seq<Event>)
    requires LegalRun(parse, INITIAL, events)
    ensures var s := Run(parse, INITIAL, events); PendingOwn(s) && CompletedOwn(s) && Justified(s)
  {
    RunKeepsCallbacks(parse, INITIAL, events);
  }

  /** A step completes a callback only on a final packet bearing the number the callback waits under. */
  lemma OnlyFinalPacketsComplete(parse: HeaderReader, s: State, e: Event)
    requires Legal(parse, s, e) && Step(parse, s, e).completed != s.completed
    ensures e.Incoming? && e.packet.flags == 1 && e.packet.sequence in s.pending
    ensures var s' := Step(parse, s, e);
            var n := |s.completed|;
            && |s'.completed| == n + 1 && s'.completed[..n] == s.completed
            && s.pending[e.packet.sequence].callback == Some(s'.completed[n].callback)
            && s'.completed[n].sequence == e.packet.sequence && e.packet.sequence !in s'.pending
            && (s'.completed[n].result.None? <==>
                  ResponseOf(parse, Joined(s.pending[e.packet.sequence], e.packet)).status >= 400)
  {
    hide SequenceBytes;
    hide Joined;
    hide Retained;
    hide Deliveries;
    var target := Target(Lookup(s, e.packet.sequence), e.cmd);
    JoinedKeepsCallback(target.value, e.packet);
  }

  /** Every finished message had a readable header and its completions were carried out. */
  ghost predicate Answered(parse: HeaderReader, s: State) {
    forall i :: 0 <= i < |s.finished| ==>
      Readable(parse, s.finished[i].message) && forall c :: c in CompletionsOf(parse, s.finished[i]) ==> c in s.completed
  }

  lemma StepKeepsAnswered(parse: HeaderReader, s: State, e: Event)
    requires Legal(parse, s, e) && Answered(parse, s)
    ensures Answered(parse, Step(parse, s, e))
  {
    hide SequenceBytes;
    hide Joined;
    hide Retained;
    hide Deliveries;
    hide CompletionsOf;
    hide Readable;
  }

  lemma {:induction false} RunKeepsAnswered(parse: HeaderReader, s: State, events: seq<Event>)
    requires LegalRun(parse, s, events) && Answered(parse, s)
    ensures Answered(parse, Run(parse, s, events))
    decreases |events|
  {
    hide Answered;
    hide Step;
    hide Legal;
    if events == [] {
    } else {
      StepKeepsAnswered(parse, s, events[0]);
      RunKeepsAnswered(parse, Step(parse, s, events[0]), events[1..]);
    }
  }

  lemma {:induction false} FinishedOnIn(finished: seq<Finished>, k: seq<byte>, f: Finished)
    ensures f in FinishedOn(finished, k) <==> f in finished && f.sequence == k
  {
    if finished == [] {
    } else {
      var n := |finished| - 1;
      FinishedOnIn(finished[..n], k, f);
      assert finished == finished[..n] + [finished[n]];
    }
  }

  /** A request whose answer arrives in any fragmentation, interleaved with anything else, gets exactly the answer's
      parts after the header, or an error when the status says so. */
  lemma RequestAnswered(parse: HeaderReader, s: State, events: seq<Event>, k: seq<byte>,
                        cmds: seq<byte>, packets: seq<Packet>, message: seq<seq<byte>>, id: nat)
    requires LegalRun(parse, s, events) && Answered(parse, s)
    requires |cmds| == |packets| && Fragments(packets, message)
    requires AllActionsOn(parse, s, events, k) == Receipts(cmds, packets)
    requires Lookup(s, k) == Some(Pending([], None, Some(id)))
    ensures k !in Run(parse, s, events).pending && message != [] && parse(message[0]).Some?
    ensures var header, cmd := parse(message[0]).value, cmds[|cmds| - 1];
            var completed := Run(parse, s, events).completed;
            && (header.status >= 400 ==> Completion(id, k, cmd, None) in completed)
            && (header.status < 400 && cmd != 0xb5 ==>
                  Completion(id, k, cmd, Some(Response(header.uri, header.status, message[1..]))) in completed)
  {
    hide Run;
    hide LegalRun;
    InterleavedMessageArrives(parse, s, events, k, cmds, packets, message, Some(id));
    RunKeepsAnswered(parse, s, events);
    var f := Finished(k, cmds[|cmds| - 1], Pending(message, None, Some(id)));
    var s' := Run(parse, s, events);
    assert OwnView(s', k).entry == None;
    FinishedOnIn(s'.finished, k, f);
    var i :| 0 <= i < |s'.finished| && s'.finished[i] == f;
    assert Readable(parse, f.message);
    forall c | c in CompletionsOf(parse, f) ensures c in s'.completed {
    }
    assert CompletionsOf(parse, f) != [] ==> CompletionsOf(parse, f)[0] in s'.completed;
  }

  /** Every completion comes from a finished message. */
  ghost predicate Caused(parse: HeaderReader, s: State) {
    forall c :: c in s.completed ==> exists f :: f in s.finished && CompletedBy(parse, f, c)
  }

  ghost predicate CompletedBy(parse: HeaderReader, f: Finished, c: Completion) {
    Readable(parse, f.message) && c in CompletionsOf(parse, f) && c.sequence == f.sequence
  }

  lemma StepKeepsCaused(parse: HeaderReader, s: State, e: Event)
    requires Legal(parse, s, e) && Caused(parse, s)
    ensures Caused(parse, Step(parse, s, e))
  {
    hide SequenceBytes;
    hide Joined;
    hide Retained;
    hide Deliveries;
    hide Readable;
    var s' := Step(parse, s, e);
    assert forall f :: f in s.finished ==> f in s'.finished;
    forall c | c in s'.completed && c !in s.completed ensures exists f :: f in s'.finished && CompletedBy(parse, f, c) {
      var f := s'.finished[|s'.finished| - 1];
      assert f in s'.finished && CompletedBy(parse, f, c);
    }
  }

  lemma {:induction false} RunKeepsCaused(parse: HeaderReader, s: State, events: seq<Event>)
    requires LegalRun(parse, s, events) && Caused(parse, s)
    ensures Caused(parse, Run(parse, s, events))
    decreases |events|
  {
    hide Caused;
    hide Step;
    hide Legal;
    if events == [] {
    } else {
      StepKeepsCaused(parse, s, events[0]);
      RunKeepsCaused(parse, Step(parse, s, events[0]), events[1..]);
    }
  }

  /** One completion of a callback, and no other of the same callback. */
  ghost predicate CompletedOnce(completed: seq<Completion>, c: Completion) {
    exists i :: 0 <= i < |completed| && completed[i] == c &&
      forall j :: 0 <= j < |completed| && completed[j].callback == c.callback ==> j == i
  }

  lemma OnlyCompletion(s: State, c: Completion)
    requires CompletedOwn(s) && c in s.completed
    ensures CompletedOnce(s.completed, c)
  {
    var i :| 0 <= i < |s.completed| && s.completed[i] == c;
    assert forall j :: 0 <= j < |s.completed| && s.completed[j].callback == c.callback ==> j == i;
  }

  /** A message that completes nothing leaves its callback without any completion. */
  lemma CallbackDropped(parse: HeaderReader, s: State, s': State, k: seq<byte>, f: Finished, id: nat)
    requires CallbackInv(s) && CallbackInv(s') && Answered(parse, s) && Caused(parse, s')
    requires k in s.pending && s.pending[k].callback == Some(id)
    requires FinishedOn(s'.finished, k) == FinishedOn(s.finished, k) + [f]
    requires Readable(parse, f.message) && CompletionsOf(parse, f) == []
    ensures forall c :: c in s'.completed ==> c.callback != id
  {
    hide SequenceBytes;
    hide CompletionsOf;
    hide Readable;
    hide FinishedOn;
    assert forall c :: c in s.completed ==> c.callback != id;
    forall c | c in s'.completed ensures c.callback != id {
      assert c.callback == id ==> c.sequence == k;
      var g :| g in s'.finished && CompletedBy(parse, g, c);
      FinishedOnIn(s'.finished, k, g);
      FinishedOnIn(s.finished, k, g);
      assert g != f;
      assert g in s.finished ==> c in s.completed;
    }
  }

  lemma InitialCallbacks(parse: HeaderReader)
    ensures CallbackInv(INITIAL) && Answered(parse, INITIAL) && Caused(parse, INITIAL)
  {
  }

  /** In every run from the start, a request whose answer arrives in any fragmentation, interleaved with anything else,
      is completed exactly once, with that answer or with the error its status stands for; an answer sent as a push
      completes nothing. */
  lemma RequestAnsweredOnce(parse: HeaderReader, before: seq<Event>, events: seq<Event>, k: seq<byte>,
                            cmds: seq<byte>, packets: seq<Packet>, message: seq<seq<byte>>, id: nat)
    requires LegalRun(parse, INITIAL, before) && LegalRun(parse, Run(parse, INITIAL, before), events)
    requires |cmds| == |packets| && Fragments(packets, message)
    requires AllActionsOn(parse, Run(parse, INITIAL, before), events, k) == Receipts(cmds, packets)
    requires Lookup(Run(parse, INITIAL, before), k) == Some(Pending([], None, Some(id)))
    ensures message != [] && parse(message[0]).Some?
    ensures var header, cmd := parse(message[0]).value, cmds[|cmds| - 1];
            var completed := Run(parse, Run(parse, INITIAL, before), events).completed;
            if header.status >= 400 then CompletedOnce(completed, Completion(id, k, cmd, None))
            else if cmd != 0xb5 then
              CompletedOnce(completed, Completion(id, k, cmd, Some(Response(header.uri, header.status, message[1..]))))
            else forall c :: c in completed ==> c.callback != id
  {
    hide Run;
    hide LegalRun;
    hide CallbackInv;
    hide Answered;
    hide Caused;
    hide CompletedOnce;
    var s := Run(parse, INITIAL, before);
    var s' := Run(parse, s, events);
    InitialCallbacks(parse);
    RunKeepsCallbacks(parse, INITIAL, before);
    RunKeepsCallbacks(parse, s, events);
    RunKeepsAnswered(parse, INITIAL, before);
    RunKeepsCaused(parse, INITIAL, before);
    RunKeepsCaused(parse, s, events);
    RequestAnswered(parse, s, events, k, cmds, packets, message, id);
    CallbacksOwn(s');
    var header, cmd := parse(message[0]).value, cmds[|cmds| - 1];
    if header.status >= 400 {
      OnlyCompletion(s', Completion(id, k, cmd, None));
    } else if cmd != 0xb5 {
      OnlyCompletion(s', Completion(id, k, cmd, Some(Response(header.uri, header.status, message[1..]))));
    } else {
      InterleavedMessageArrives(parse, s, events, k, cmds, packets, message, Some(id));
      CallbackDropped(parse, s, s', k, Finished(k, cmd, Pending(message, None, Some(id))), id);
    }
  }

  lemma CallbacksOwn(s: State)
    requires CallbackInv(s)
    ensures CompletedOwn(s)
  {
  }

  // ----- the same from the events alone

  function Requests(events: seq<Event>): nat {
    if events == [] then 0 else (if events[0].Request? then 1 else 0) + Requests(events[1..])
  }

  /** The packets with sequence number k, with their commands. */
  function Traffic(events: seq<Event>, k: seq<byte>): seq<Action> {
    if events == [] then []
    else
      var e, rest := events[0], Traffic(events[1..], k);
      if e.Incoming? && e.packet.sequence == k then [Received(e.cmd, e.packet)] + rest else rest
  }

  lemma {:induction false} RunAppend(parse: HeaderReader, s: State, a: seq<Event>, b: seq<Event>)
    ensures LegalRun(parse, s, a + b) <==> LegalRun(parse, s, a) && LegalRun(parse, Run(parse, s, a), b)
    ensures LegalRun(parse, s, a + b) ==> Run(parse, s, a + b) == Run(parse, Run(parse, s, a), b)
    decreases |a|
  {
    hide Step;
    hide Legal;
    if a == [] {
      assert a + b == b;
    } else {
      assert (a + b)[1..] == a[1..] + b && (a + b)[0] == a[0];
      if Legal(parse, s, a[0]) {
        RunAppend(parse, Step(parse, s, a[0]), a[1..], b);
      }
    }
  }

  lemma RunOne(parse: HeaderReader, s: State, e: Event)
    requires Legal(parse, s, e)
    ensures LegalRun(parse, s, [e]) && Run(parse, s, [e]) == Step(parse, s, e)
  {
    hide Step;
    hide Legal;
    var none: seq<Event> := [];
    assert [e][1..] == none;
    assert LegalRun(parse, Step(parse, s, e), none) && Run(parse, Step(parse, s, e), none) == Step(parse, s, e);
  }

  lemma StepCounts(parse: HeaderReader, s: State, e: Event)
    requires Legal(parse, s, e)
    ensures var s' := Step(parse, s, e);
            if e.Request? then s'.sequence == (s.sequence + 1) % U64_RANGE && s'.issued == s.issued + 1
            else s'.sequence == s.sequence && s'.issued == s.issued
  {
    hide Joined;
    hide Retained;
    hide Deliveries;
    hide SequenceBytes;
  }

  lemma {:induction false} RunCounts(parse: HeaderReader, s: State, events: seq<Event>)
    requires LegalRun(parse, s, events)
    ensures Run(parse, s, events).issued == s.issued + Requests(events)
    ensures Run(parse, s, events).sequence % U64_RANGE == (s.sequence + Requests(events)) % U64_RANGE
    decreases |events|
  {
    hide Step;
    hide Legal;
    if events == [] {
    } else {
      StepCounts(parse, s, events[0]);
      RunCounts(parse, Step(parse, s, events[0]), events[1..]);
    }
  }

  /** The numbers of the next n requests leave k alone. */
  ghost predicate Spared(sequence: nat, n: nat, k: seq<byte>) {
    forall m: nat :: sequence <= m < sequence + n ==> k != SequenceBytes(m)
  }

  lemma SparedNext(sequence: nat, n: nat, k: seq<byte>)
    requires Spared(sequence, n + 1, k)
    ensures k != SequenceBytes(sequence) && Spared((sequence + 1) % U64_RANGE, n, k)
  {
    hide SequenceBytes;
    var next := (sequence + 1) % U64_RANGE;
    forall m: nat | next <= m < next + n ensures k != SequenceBytes(m) {
      var m': nat := sequence + 1 + (m - next);
      SequenceBytesInjective(m, m');
      SameRemainder(sequence + 1, m - next);
    }
  }

  lemma SameRemainder(n: nat, j: nat)
    ensures (n % U64_RANGE + j) % U64_RANGE == (n + j) % U64_RANGE
  {
  }

  lemma {:induction false} TrafficIsAll(parse: HeaderReader, s: State, events: seq<Event>, k: seq<byte>)
    requires LegalRun(parse, s, events) && Spared(s.sequence, Requests(events), k)
    ensures AllActionsOn(parse, s, events, k) == Traffic(events, k)
    decreases |events|
  {
    hide Step;
    hide Legal;
    hide Spared;
    hide SequenceBytes;
    if events == [] {
    } else {
      StepCounts(parse, s, events[0]);
      if events[0].Request? {
        SparedNext(s.sequence, Requests(events[1..]), k);
      }
      TrafficIsAll(parse, Step(parse, s, events[0]), events[1..], k);
    }
  }

  /** A number is handed out again only after 2^64 further requests. */
  lemma OwnNumberSpared(sequence: nat, n: nat)
    requires n < U64_RANGE
    ensures Spared((sequence + 1) % U64_RANGE, n, SequenceBytes(sequence))
  {
    hide SequenceBytes;
    var next := (sequence + 1) % U64_RANGE;
    forall m: nat | next <= m < next + n ensures SequenceBytes(sequence) != SequenceBytes(m) {
      SequenceBytesInjective(sequence, m);
      NotComeRound(sequence, m - next);
    }
  }

  lemma NotComeRound(sequence: nat, j: nat)
    requires j + 1 < U64_RANGE
    ensures ((sequence + 1) % U64_RANGE + j) % U64_RANGE != sequence % U64_RANGE
  {
    var r := sequence % U64_RANGE;
    assert (sequence + 1) % U64_RANGE == (r + 1) % U64_RANGE;
    assert ((r + 1) % U64_RANGE + j) % U64_RANGE == if r + 1 + j < U64_RANGE then r + 1 + j else r + 1 + j - U64_RANGE;
  }

  /** From the request to its answer. The n-th request of a run waits under n in eight big-endian bytes; whatever
      well-formed fragmentation of an answer arrives under those bytes, interleaved with anything else, the request
      is completed exactly once, with the parts after the header or an error for a status of 400 or more. */
  lemma IssuedRequestAnswered(parse: HeaderReader, before: seq<Event>, events: seq<Event>, k: seq<byte>,
                              cmds: seq<byte>, packets: seq<Packet>, message: seq<seq<byte>>)
    requires LegalRun(parse, INITIAL, before + [Event.Request] + events)
    requires |k| == 8 && FromBytesBE(k) == Requests(before) % 0x1_0000_0000_0000_0000
    requires Requests(events) < 0x1_0000_0000_0000_0000
    requires |cmds| == |packets| && Fragments(packets, message) && Traffic(events, k) == Receipts(cmds, packets)
    ensures message != [] && parse(message[0]).Some?
    ensures var header, cmd, id := parse(message[0]).value, cmds[|cmds| - 1], Requests(before);
            var completed := Run(parse, INITIAL, before + [Event.Request] + events).completed;
            if header.status >= 400 then CompletedOnce(completed, Completion(id, k, cmd, None))
            else if cmd != 0xb5 then
              CompletedOnce(completed, Completion(id, k, cmd, Some(Response(header.uri, header.status, message[1..]))))
            else forall c :: c in completed ==> c.callback != id
  {
    hide Step;
    hide LegalRun;
    hide Run;
    hide SequenceBytes;
    hide Spared;
    hide CompletedOnce;
    hide FromBytesBE;
    var issued := before + [Event.Request];
    RunAppend(parse, INITIAL, issued, events);
    RunAppend(parse, INITIAL, before, [Event.Request]);
    var s := Run(parse, INITIAL, before);
    var s1 := Run(parse, INITIAL, issued);
    RunOne(parse, s, Event.Request);
    RunCounts(parse, INITIAL, before);
    StepCounts(parse, s, Event.Request);
    RequestExactly(parse, s, k);
    SequenceIs(s.sequence, k);
    OwnNumberSpared(s.sequence, Requests(events));
    TrafficIsAll(parse, s1, events, k);
    RequestAnsweredOnce(parse, issued, events, k, cmds, packets, message, Requests(before));
  }

  /** A push starts from nothing: the parts of a message that arrives under a number with no entry, its first packet
      with the command of a push, are exactly the parts sent. */
  lemma PushArrives(parse: HeaderReader, s: State, events: seq<Event>, k: seq<byte>,
                    cmds: seq<byte>, packets: seq<Packet>, message: seq<seq<byte>>)
    requires LegalRun(parse, s, events) && k !in s.pending
    requires |cmds| == |packets| && Fragments(packets, message) && cmds[0] == 0xb5
    requires AllActionsOn(parse, s, events, k) == Receipts(cmds, packets)
    ensures OwnView(Run(parse, s, events), k) ==
            Own(None, FinishedOn(s.finished, k) + [Finished(k, cmds[|cmds| - 1], Pending(message, None, None))])
  {
    InterleavedMessageArrives(parse, s, events, k, cmds, packets, message, None);
  }

  lemma {:induction false} ActionsAppend(parse: HeaderReader, s: State, a: seq<Event>, b: seq<Event>, k: seq<byte>)
    requires LegalRun(parse, s, a + b) && LegalRun(parse, s, a) && LegalRun(parse, Run(parse, s, a), b)
    ensures AllActionsOn(parse, s, a + b, k) ==
            AllActionsOn(parse, s, a, k) + AllActionsOn(parse, Run(parse, s, a), b, k)
    decreases |a|
  {
    hide Step;
    hide Legal;
    hide ActionsOn;
    if a == [] {
      assert a + b == b;
    } else {
      assert (a + b)[1..] == a[1..] + b && (a + b)[0] == a[0];
      ActionsAppend(parse, Step(parse, s, a[0]), a[1..], b, k);
    }
  }

  lemma LastAction(parse: HeaderReader, s: State, events: seq<Event>, e: Event, k: seq<byte>)
    requires LegalRun(parse, s, events) && Legal(parse, Run(parse, s, events), e) && LegalRun(parse, s, events + [e])
    requires e.Incoming? && e.packet.sequence == k
    ensures AllActionsOn(parse, s, events + [e], k) == AllActionsOn(parse, s, events, k) + [Received(e.cmd, e.packet)]
  {
    hide Step;
    hide Legal;
    var s' := Run(parse, s, events);
    RunOne(parse, s', e);
    ActionsAppend(parse, s, events, [e], k);
    var none: seq<Event> := [];
    assert [e][1..] == none && AllActionsOn(parse, Step(parse, s', e), none, k) == [];
    assert [Received(e.cmd, e.packet)] + [] == [Received(e.cmd, e.packet)];
  }

  lemma {:induction false} EntryStaysOpen(o: Own, k: seq<byte>, cmds: seq<byte>, packets: seq<Packet>)
    requires |cmds| == |packets| && forall i :: 0 <= i < |packets| ==> packets[i].flags != 1
    requires o.entry.Some? || (packets != [] && cmds[0] == 0xb5)
    ensures OwnRun(o, k, Receipts(cmds, packets)).entry.Some?
    decreases |packets|
  {
    hide Joined;
    if packets == [] {
    } else {
      assert Receipts(cmds, packets)[1..] == Receipts(cmds[1..], packets[1..]);
      EntryStaysOpen(OwnStep(o, k, Receipts(cmds, packets)[0]), k, cmds[1..], packets[1..]);
    }
  }

  /** The last packet of a push finds the entry that the packets before it have opened. */
  lemma LastPacketJoins(parse: HeaderReader, s: State, events: seq<Event>, k: seq<byte>,
                        cmds: seq<byte>, packets: seq<Packet>)
    requires LegalRun(parse, s, events) && |cmds| == |packets| > 0 && cmds[0] == 0xb5
    requires forall i :: 0 <= i < |packets| - 1 ==> packets[i].flags != 1
    requires AllActionsOn(parse, s, events, k) == Receipts(cmds, packets)[..|packets| - 1]
    ensures k in Run(parse, s, events).pending || cmds[|cmds| - 1] == 0xb5
  {
    hide Run;
    hide LegalRun;
    hide OwnStep;
    var last := |packets| - 1;
    if last > 0 {
      RunRefinesOwn(parse, s, events, k);
      assert Receipts(cmds, packets)[..last] == Receipts(cmds[..last], packets[..last]);
      EntryStaysOpen(OwnView(s, k), k, cmds[..last], packets[..last]);
    }
  }

  /** When the last packet of a pushed message has arrived, a status below 400 and the command of a push deliver the
      parts after the header to the subscribers of the moment; otherwise no subscriber sees anything of it. */
  lemma PushDelivered(parse: HeaderReader, s: State, events: seq<Event>, push: Event, cmds: seq<byte>,
                      packets: seq<Packet>, message: seq<seq<byte>>)
    requires LegalRun(parse, s, events) && Legal(parse, Run(parse, s, events), push) && LegalRun(parse, s, events + [push])
    requires push.Incoming? && push.packet.sequence !in s.pending
    requires |cmds| == |packets| && Fragments(packets, message) && cmds[0] == 0xb5
    requires AllActionsOn(parse, s, events + [push], push.packet.sequence) == Receipts(cmds, packets)
    ensures message != [] && parse(message[0]).Some?
    ensures var before, after := Run(parse, s, events), Step(parse, Run(parse, s, events), push);
            var header := parse(message[0]).value;
            var response := Response(header.uri, header.status, message[1..]);
            if push.cmd == 0xb5 && header.status < 400 then
              && after.subscriptions == Retained(before.subscriptions, header.uri, push.listening)
              && after.delivered == before.delivered + Deliveries(before.subscriptions, response, push.listening)
            else after.subscriptions == before.subscriptions && after.delivered == before.delivered
  {
    hide Step;
    hide Legal;
    hide Joined;
    hide Retained;
    hide Deliveries;
    var k := push.packet.sequence;
    var before := Run(parse, s, events);
    LastAction(parse, s, events, push, k);
    var last := |packets| - 1;
    assert Receipts(cmds, packets)[last] == Received(push.cmd, push.packet);
    RunAppend(parse, s, events, [push]);
    RunOne(parse, before, push);
    LegalReceivable(parse, before, push);
    PushArrives(parse, s, events + [push], k, cmds, packets, message);
    IncomingExactly(parse, before, push.cmd, push.packet, push.listening);
    var after := Step(parse, before, push);
    var ended := Finished(k, push.cmd, Pending(message, None, None));
    assert AllActionsOn(parse, s, events, k) == Receipts(cmds, packets)[..last];
    LastPacketJoins(parse, s, events, k, cmds, packets);
    var joined := Joined(if k in before.pending then before.pending[k] else Pending([], None, None), push.packet);
    FinishedSnoc(before.finished, Finished(k, push.cmd, joined), k);
    var on := FinishedOn(after.finished, k);
    assert on[|on| - 1] == ended && on[|on| - 1] == Finished(k, push.cmd, joined);
  }

  // ----- subscriptions

  /** Both results follow the order of the subscriptions. */
  lemma {:induction false} PushKeepsOrder(a: seq<Subscription>, b: seq<Subscription>, response: Response,
                                          listening: set<nat>)
    ensures Retained(a + b, response.uri, listening) ==
            Retained(a, response.uri, listening) + Retained(b, response.uri, listening)
    ensures Deliveries(a + b, response, listening) ==
            Deliveries(a, response, listening) + Deliveries(b, response, listening)
    decreases |a|
  {
    if a == [] {
      assert a + b == b;
    } else {
      assert (a + b)[1..] == a[1..] + b;
      PushKeepsOrder(a[1..], b, response, listening);
    }
  }

  /** A pushed response reaches exactly the matching subscribers that still listen, once for each subscription, and
      the matching ones that do not are forgotten; the others stay. */
  lemma {:induction false} PushReachesSubscribers(subs: seq<Subscription>, response: Response, listening: set<nat>,
                                                  sub: Subscription)
    ensures sub in Retained(subs, response.uri, listening) <==>
            sub in subs && !(sub.prefix <= response.uri && sub.channel !in listening)
    ensures Delivery(sub.channel, response) in Deliveries(subs, response, listening) <==>
            sub.channel in listening &&
            exists i :: 0 <= i < |subs| && subs[i].prefix <= response.uri && subs[i].channel == sub.channel
    ensures |Deliveries(subs, response, listening)| + (|subs| - |Retained(subs, response.uri, listening)|) ==
            Matching(subs, response.uri)
    decreases |subs|
  {
    if subs == [] {
    } else {
      PushReachesSubscribers(subs[1..], response, listening, sub);
      assert subs == [subs[0]] + subs[1..];
      if exists i :: 0 <= i < |subs| && subs[i].prefix <= response.uri && subs[i].channel == sub.channel {
        var i :| 0 <= i < |subs| && subs[i].prefix <= response.uri && subs[i].channel == sub.channel;
        assert i > 0 ==> subs[1..][i - 1] == subs[i];
      }
    }
  }

  /** The protobuf parser of a watched URI; the source unwraps its result. */
  type UriReader = seq<byte> -> Option<string>

  predicate AllUris(read: UriReader, payload: seq<seq<byte>>) {
    forall part :: part in payload ==> read(part).Some?
  }

  /** What a subscription adds: the URIs listed in its response, or the requested one if none is listed. */
  function Watched(read: UriReader, uri: string, payload: seq<seq<byte>>, channel: nat): (subs: seq<Subscription>)
    requires AllUris(read, payload)
    ensures forall prefix :: Subscription(prefix, channel) in subs <==>
              if payload == [] then prefix == uri else exists part :: part in payload && read(part) == Some(prefix)
  {
    if payload == [] then [Subscription(uri, channel)]
    else
      var subs := WatchedParts(read, payload, channel);
      assert Subscription(read(payload[0]).value, channel) in subs;
      subs
  }

  function WatchedParts(read: UriReader, payload: seq<seq<byte>>, channel: nat): (subs: seq<Subscription>)
    requires AllUris(read, payload)
    ensures |subs| == |payload|
    ensures forall i :: 0 <= i < |payload| ==> subs[i] == Subscription(read(payload[i]).value, channel)
  {
    seq(|payload|, i requires 0 <= i < |payload| => Subscription(read(payload[i]).value, channel))
  }

  predicate AlwaysListening(events: seq<Event>, channel: nat) {
    forall i :: 0 <= i < |events| && events[i].Incoming? ==> channel in events[i].listening
  }

  lemma {:induction false} ListenerStays(parse: HeaderReader, s: State, events: seq<Event>, sub: Subscription)
    requires LegalRun(parse, s, events) && AlwaysListening(events, sub.channel) && sub in s.subscriptions
    ensures sub in Run(parse, s, events).subscriptions
    decreases |events|
  {
    hide Step;
    hide Legal;
    if events == [] {
    } else {
      ListenerStaysStep(parse, s, events[0], sub);
      ListenerStays(parse, Step(parse, s, events[0]), events[1..], sub);
    }
  }

  lemma ListenerStaysStep(parse: HeaderReader, s: State, e: Event, sub: Subscription)
    requires Legal(parse, s, e) && (e.Incoming? ==> sub.channel in e.listening) && sub in s.subscriptions
    ensures sub in Step(parse, s, e).subscriptions
  {
    hide Joined;
    hide Retained;
    hide Deliveries;
    hide CompletionsOf;
    hide SequenceBytes;
    if e.Incoming? {
      var target := Target(Lookup(s, e.packet.sequence), e.cmd);
      if target.Some? && e.packet.flags == 1 {
        PushReachesSubscribers(s.subscriptions, ResponseOf(parse, Joined(target.value, e.packet)), e.listening, sub);
      }
    }
  }

  /** A channel that has subscribed and goes on listening gets every later push to a URI it watches: whatever run
      lies in between, a push that then completes is delivered to it. */
  lemma SubscriberHears(parse: HeaderReader, s: State, read: UriReader, uri: string, payload: seq<seq<byte>>, channel: nat,
                        events: seq<Event>, push: Event, prefix: string)
    requires AllUris(read, payload)
    requires if payload == [] then prefix == uri else exists part :: part in payload && read(part) == Some(prefix)
    requires LegalRun(parse, s, [Subscribed(Watched(read, uri, payload, channel))] + events)
    requires push.Incoming? && push.cmd == 0xb5 && push.packet.flags == 1
    requires AlwaysListening(events + [push], channel)
    requires Legal(parse, Run(parse, s, [Subscribed(Watched(read, uri, payload, channel))] + events), push)
    ensures var s' := Run(parse, s, [Subscribed(Watched(read, uri, payload, channel))] + events);
            var k := push.packet.sequence;
            var parts := Joined(if k in s'.pending then s'.pending[k] else Pending([], None, None), push.packet).parts;
            var delivered := Step(parse, s', push).delivered;
            && s'.delivered <= delivered && parts != [] && parse(parts[0]).Some?
            && var header := parse(parts[0]).value;
               (header.status < 400 && prefix <= header.uri ==>
                  Delivery(channel, Response(header.uri, header.status, parts[1..])) in delivered[|s'.delivered|..])
  {
    hide Joined;
    hide Step;
    hide Legal;
    hide Deliveries;
    var sub, subscribed := Subscription(prefix, channel), Subscribed(Watched(read, uri, payload, channel));
    var all := [subscribed] + events;
    assert all[1..] == events;
    assert forall i :: 0 <= i < |events| ==> (events + [push])[i] == events[i];
    assert (events + [push])[|events|] == push;
    SubscribedStep(parse, s, subscribed.subs);
    ListenerStays(parse, Step(parse, s, subscribed), events, sub);
    var s' := Run(parse, s, all);
    var k := push.packet.sequence;
    var parts := Joined(if k in s'.pending then s'.pending[k] else Pending([], None, None), push.packet).parts;
    LegalReceivable(parse, s', push);
    IncomingExactly(parse, s', push.cmd, push.packet, push.listening);
    var header := parse(parts[0]).value;
    var response := Response(header.uri, header.status, parts[1..]);
    PushReachesSubscribers(s'.subscriptions, response, push.listening, sub);
    var i :| 0 <= i < |s'.subscriptions| && s'.subscriptions[i] == sub;
    assert s'.subscriptions[i].channel == channel && s'.subscriptions[i].prefix <= response.uri <==> prefix <= response.uri;
  }

  lemma SubscribedStep(parse: HeaderReader, s: State, subs: seq<Subscription>)
    ensures Legal(parse, s, Subscribed(subs))
    ensures Step(parse, s, Subscribed(subs)) == s.(subscriptions := s.subscriptions + subs)
  {
  }

  lemma LegalReceivable(parse: HeaderReader, s: State, e: Event)
    requires Legal(parse, s, e) && e.Incoming?
    ensures CanReceive(parse, s, e.cmd, e.packet)
  {
  }

  function Matching(subs: seq<Subscription>, uri: string): nat {
    if subs == [] then 0 else (if Wants(subs[0], uri) then 1 else 0) + Matching(subs[1..], uri)
  }

  // ----- the manager object

  class MercuryManager {
    const parse: HeaderReader
    const write: HeaderWriter

    var sequence: nat
    var pending: map<seq<byte>, Pending>
    var subscriptions: seq<Subscription>

    var issued: nat
    ghost var finished: seq<Finished>
    var completed: seq<Completion>
    var delivered: seq<Delivery>

    constructor (parse: HeaderReader, write: HeaderWriter)
      ensures this.parse == parse && this.write == write && View() == INITIAL
      ensures sequence == 0 && pending == map[] && subscriptions == []
    {
      this.parse, this.write := parse, write;
      sequence, pending, subscriptions := 0, map[], [];
      issued, finished, completed, delivered := 0, [], [], [];
    }

    ghost function View(): State
      reads this
    {
      State(sequence, pending, subscriptions, issued, finished, completed, delivered)
    }

    method NextSeq() returns (seqBytes: seq<byte>)
      modifies this`sequence
      ensures seqBytes == SequenceBytes(old(sequence)) && sequence == (old(sequence) + 1) % U64_RANGE
      ensures |seqBytes| == 8 && FromBytesBE(seqBytes) == old(sequence) % U64_RANGE
    {
      SequenceValue(sequence);
      seqBytes := ToBytesBE(sequence, 8);
      sequence := (sequence + 1) % U64_RANGE;
    }

    /** The callback is returned as its number, together with the command and packet to send. */
    method SendRequest(req: MercuryPackets.Request) returns (callback: nat, cmd: byte, data: seq<byte>)
      modifies this
      ensures View() == Issue(old(View())) && callback == old(issued)
      ensures cmd == match req.verb case GET => 0xb2 case SEND => 0xb2 case SUB => 0xb3 case UNSUB => 0xb4
      ensures data == Written(Packet(SequenceBytes(old(sequence)), 1,
                                     [write(req.verb, req.uri, req.contentType)] + req.payload))
    {
      callback := issued;
      var entry := Pending([], None, Some(callback));
      issued := issued + 1;

      var seqBytes := NextSeq();
      pending := pending[seqBytes := entry];

      cmd := req.verb.Command();
      data := Encode(req, seqBytes, write);
    }

    /** What `subscribe` does once its request has been answered. */
    method FinishSubscribe(uri: string, response: Response, channel: nat, read: UriReader)
      requires AllUris(read, response.payload)
      modifies this`subscriptions
      ensures View() ==
              old(View()).(subscriptions := old(subscriptions) + Watched(read, uri, response.payload, channel))
      ensures response.payload == [] ==> subscriptions == old(subscriptions) + [Subscription(uri, channel)]
      ensures var n := |old(subscriptions)|;
              response.payload != [] ==>
                && |subscriptions| == n + |response.payload| && subscriptions[..n] == old(subscriptions)
                && forall i :: 0 <= i < |response.payload| ==>
                     subscriptions[n + i] == Subscription(read(response.payload[i]).value, channel)
    {
      if |response.payload| > 0 {
        ghost var watched := Watched(read, uri, response.payload, channel);
        for i := 0 to |response.payload|
          invariant subscriptions == old(subscriptions) + watched[..i]
        {
          var subUri := read(response.payload[i]).value;
          subscriptions := subscriptions + [Subscription(subUri, channel)];
          assert watched[..i + 1] == watched[..i] + [watched[i]];
        }
        assert watched[..|watched|] == watched;
      } else {
        subscriptions := subscriptions + [Subscription(uri, channel)];
      }
    }

    /** Short packets, and final packets whose message has no readable header part, panic; the parts of a packet
        that belongs to nothing are never looked at. */
    method Dispatch(cmd: byte, data: EasyBuf, listening: set<nat>)
      requires ReadHead(data.contents).Some?
      requires Known(View(), cmd, data.contents) ==>
                 ReadPacket(data.contents).Some? && CanReceive(parse, View(), cmd, ReadPacket(data.contents).value.0)
      modifies this, data
      ensures View() == if Known(old(View()), cmd, old(data.contents))
                        then Receive(parse, old(View()), cmd, ReadPacket(old(data.contents)).value.0, listening)
                        else old(View())
    {
      hide ReadPart;
      hide ReadParts;
      hide Pieces;
      hide AbsorbAll;
      hide Complete;
      hide Readable;
      var seqBytes := ParsePart(data);

      ghost var afterSequence := data.contents;
      var flags := data.DrainTo(1);
      var countBytes := data.DrainTo(2);
      assert flags[0] == afterSequence[0] && countBytes == afterSequence[1..3] && data.contents == afterSequence[3..];
      var count := ReadU16(countBytes);

      if seqBytes !in pending && cmd != 0xb5 {
        return;
      }
      var message := if seqBytes in pending then pending[seqBytes] else Pending([], None, None);
      pending := pending - {seqBytes};
      message := JoinParts(data, count, flags[0], message);

      if flags[0] == 1 {
        CompleteRequest(seqBytes, cmd, message, listening);
      } else {
        pending := pending[seqBytes := message];
        assert pending == old(pending)[seqBytes := message];
      }
    }

    /** The loop of `dispatch` over the parts of a packet. */
    method JoinParts(data: EasyBuf, count: nat, flags: byte, target: Pending) returns (message: Pending)
      requires ReadParts(data.contents, count).Some?
      modifies data
      ensures var parts := ReadParts(old(data.contents), count).value.0;
              message == AbsorbAll(target, Pieces(flags, parts))
    {
      hide ReadPart;
      ghost var parts := ReadParts(data.contents, count).value.0;
      ghost var pieces := Pieces(flags, parts);
      message := target;
      for i := 0 to count
        invariant ReadParts(data.contents, count - i).Some?
        invariant ReadParts(data.contents, count - i).value.0 == parts[i..]
        invariant AbsorbAll(message, pieces[i..]) == AbsorbAll(target, pieces)
      {
        var part := ParsePart(data);
        assert part == parts[i] && parts[i..][1..] == parts[i + 1..];
        assert pieces[i..][1..] == pieces[i + 1..];
        if message.partial.Some? {
          part := message.partial.value + part;
          message := message.(partial := None);
        }
        if i == count - 1 && flags == 2 {
          message := message.(partial := Some(part));
        } else {
          message := message.(parts := message.parts + [part]);
        }
      }
    }

    method ParsePart(data: EasyBuf) returns (part: seq<byte>)
      requires ReadPart(data.contents).Some?
      modifies data
      ensures ReadPart(old(data.contents)) == Some((part, data.contents))
    {
      var sizeBytes := data.DrainTo(2);
      part := data.DrainTo(ReadU16(sizeBytes));
    }

    method CompleteRequest(seqBytes: seq<byte>, cmd: byte, message: Pending, listening: set<nat>)
      requires Readable(parse, message)
      modifies this
      ensures View() == Complete(parse, old(View()), Finished(seqBytes, cmd, message), listening)
    {
      finished := finished + [Finished(seqBytes, cmd, message)];
      var header := parse(message.parts[0]).value;
      var response := Response(header.uri, header.status, message.parts[1..]);

      if response.status >= 400 {
        if message.callback.Some? {
          completed := completed + [Completion(message.callback.value, seqBytes, cmd, None)];
        }
      } else {
        if cmd == 0xb5 {
          delivered := delivered + Deliveries(subscriptions, response, listening);
          subscriptions := Retained(subscriptions, response.uri, listening);
        } else if message.callback.Some? {
          completed := completed + [Completion(message.callback.value, seqBytes, cmd, Some(response))];
        }
      }
    }
  }
}
