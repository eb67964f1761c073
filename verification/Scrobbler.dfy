/** The scrobbling state machine (src/scrobbler.rs): one play of a track at a time, timed, described and reported. */
module Scrobbler {
  import opened Wrappers

  type TrackId = nat

  datatype Scrobble = Scrobble(artist: string, track: string, album: string)

  /** Nanoseconds, as `Duration` counts them. */
  const SCROBBLE_AFTER := 20 * 1_000_000_000

  /** Plays are numbered; every update that starts a new play ends the one before it. */
  datatype Fetch = Fetch(track: TrackId, play: nat)

  /** Metadata together with the fetch that produced it. */
  datatype Meta = Meta(fetch: Fetch, scrobble: Scrobble)

  /** A scrobble call: what was sent, and which play of which track was current and how old it was. */
  datatype Sent = Sent(meta: Meta, play: nat, track: Option<TrackId>, age: nat)

  /** How a play looked at the moment it was replaced. */
  datatype PlayEnd = PlayEnd(hadMeta: bool, age: nat)

  /** What a started future answers when it is polled; the source polls each one at most once per `poll`. */
  datatype Answer<+T> = Ready(value: T) | NotReady | Failed

  datatype Answers = Answers(auth: Answer<()>, scrobble: Answer<()>, meta: Answer<Scrobble>, nowPlaying: Answer<()>)

  /** The fields of the scrobbler. A future is absent while it is `future::empty()`.
      `closed`, `sent`, `announced` and `clock` are history: the code never reads them. */
  datatype State = State(
    trackId: Option<TrackId>,
    start: Option<nat>,
    meta: Option<Meta>,
    scrobbled: bool,
    authPending: bool,
    newTrackPending: bool,
    nowPlayingPending: bool,
    metaFetch: Option<Fetch>,
    inFlight: Option<Sent>,
    closed: seq<PlayEnd>,
    sent: seq<Sent>,
    announced: seq<Meta>,
    clock: nat)

  const INITIAL := State(None, None, None, false, true, false, false, None, None, [], [], [], 0)

  // ----- the operations

  /** How long a play has lasted. */
  function Age(start: Option<nat>, now: nat): nat {
    if start.Some? && start.value <= now then now - start.value else 0
  }

  predicate Scrobblable(s: State, now: nat) {
    !s.scrobbled && s.inFlight.None? && s.start.Some? && Age(s.start, now) > SCROBBLE_AFTER
  }

  function ScrobbleStarted(s: State, now: nat): State {
    if s.meta.Some? then
      var call := Sent(s.meta.value, |s.closed|, s.trackId, Age(s.start, now));
      s.(inFlight := Some(call), sent := s.sent + [call])
    else
      s.(inFlight := None)
  }

  function ScrobbleIfDue(s: State, now: nat): State {
    if Scrobblable(s, now) then ScrobbleStarted(s, now) else s
  }

  /** `now` is read while the old play ends, `later` when the new one starts. */
  function TrackSet(s: State, track: TrackId, now: nat, later: nat): State {
    s.(trackId := Some(track), start := Some(later), meta := None, scrobbled := false, newTrackPending := true,
       closed := s.closed + [PlayEnd(s.meta.Some?, Age(s.start, now))], clock := later)
  }

  function Updated(s: State, track: TrackId, force: bool, now: nat, later: nat): State {
    if !force && s.trackId == Some(track) then s.(clock := later)
    else TrackSet(ScrobbleIfDue(s, now), track, now, later)
  }

  /** The result of polling: `alive` is false when `poll` returned `Err`. */
  datatype Polled = Polled(state: State, alive: bool)

  function PollAuth(s: State, a: Answer<()>): Polled {
    if !s.authPending || a.NotReady? then Polled(s, true)
    else if a.Ready? then Polled(s.(authPending := false), true)
    else Polled(s, false)
  }

  function PollNewTrack(s: State): State {
    if !s.newTrackPending then s
    else
      s.(newTrackPending := false, scrobbled := false,
         metaFetch := if s.trackId.Some? then Some(Fetch(s.trackId.value, |s.closed|)) else s.metaFetch)
  }

  function PollMeta(s: State, a: Answer<Scrobble>): Polled {
    if s.metaFetch.None? || a.NotReady? then Polled(s, true)
    else if a.Ready? then
      var m := Meta(s.metaFetch.value, a.value);
      Polled(s.(metaFetch := None, meta := Some(m), nowPlayingPending := true, announced := s.announced + [m]), true)
    else Polled(s, false)
  }

  function PollNowPlaying(s: State, a: Answer<()>): Polled {
    if !s.nowPlayingPending || a.NotReady? then Polled(s, true)
    else if a.Ready? then Polled(s.(nowPlayingPending := false), true)
    else Polled(s, false)
  }

  function PollRest(s: State, a: Answers): Polled {
    var r := PollMeta(PollNewTrack(s), a.meta);
    if !r.alive then r else PollNowPlaying(r.state, a.nowPlaying)
  }

  function PollScrobble(s: State, a: Answers): Polled {
    if s.inFlight.None? then PollRest(s, a)
    else if a.scrobble.Ready? then PollRest(s.(inFlight := None, scrobbled := true), a)
    else Polled(s, a.scrobble.NotReady?)
  }

  function PollAll(s: State, now: nat, a: Answers): Polled {
    var r := PollAuth(s.(clock := now), a.auth);
    if !r.alive then r else PollScrobble(ScrobbleIfDue(r.state, now), a)
  }

  // ----- one call, in closed form

  /** A replaced play is reported if it is due; the next play starts with nothing known of it. */
  lemma UpdateExactly(s: State, track: TrackId, force: bool, now: nat, later: nat)
    ensures var due := && s.meta.Some? && !s.scrobbled && s.inFlight.None?
                       && s.start.Some? && now - s.start.value > 20_000_000_000;
            var age := if s.start.Some? && s.start.value <= now then now - s.start.value else 0;
            var calls := if due then [Sent(s.meta.value, |s.closed|, s.trackId, age)] else [];
            Updated(s, track, force, now, later) ==
            if !force && s.trackId == Some(track) then s.(clock := later)
            else
              s.(trackId := Some(track), start := Some(later), meta := None, scrobbled := false, newTrackPending := true,
                 closed := s.closed + [PlayEnd(s.meta.Some?, age)], clock := later,
                 sent := s.sent + calls,
                 inFlight := if due then Some(calls[0]) else s.inFlight)
  {
    assert s.sent + [] == s.sent;
  }

  lemma RestExactly(s: State, a: Answers)
    ensures var p := PollRest(s, a);
            var fetch := if s.newTrackPending && s.trackId.Some? then Some(Fetch(s.trackId.value, |s.closed|)) else s.metaFetch;
            var metas := if fetch.Some? && a.meta.Ready? then [Meta(fetch.value, a.meta.value)] else [];
            var failed := fetch.Some? && a.meta.Failed?;
            var playing := s.nowPlayingPending || metas != [];
            && (p.alive <==> !failed && !(playing && a.nowPlaying.Failed?))
            && p.state ==
               s.(scrobbled := !s.newTrackPending && s.scrobbled,
                  newTrackPending := false,
                  metaFetch := if metas != [] then None else fetch,
                  meta := if metas != [] then Some(metas[0]) else s.meta,
                  announced := s.announced + metas,
                  nowPlayingPending := if failed then s.nowPlayingPending else playing && !a.nowPlaying.Ready?)
  {
    assert s.announced + [] == s.announced;
  }

  lemma DueExactly(s: State, now: nat)
    ensures var age := if s.start.Some? && s.start.value <= now then now - s.start.value else 0;
            var due := s.meta.Some? && !s.scrobbled && s.inFlight.None? && age > 20_000_000_000;
            var calls := if due then [Sent(s.meta.value, |s.closed|, s.trackId, age)] else [];
            ScrobbleIfDue(s, now) == s.(sent := s.sent + calls, inFlight := if due then Some(calls[0]) else s.inFlight)
  {
    assert s.sent + [] == s.sent;
  }

  lemma AnsweredExactly(s: State, a: Answers)
    ensures var p := PollScrobble(s, a);
            var past := s.inFlight.Some? ==> a.scrobble.Ready?;
            var fetch := if s.newTrackPending && s.trackId.Some? then Some(Fetch(s.trackId.value, |s.closed|)) else s.metaFetch;
            var metas := if past && fetch.Some? && a.meta.Ready? then [Meta(fetch.value, a.meta.value)] else [];
            var failed := past && fetch.Some? && a.meta.Failed?;
            var playing := s.nowPlayingPending || metas != [];
            && (p.alive <==> && !(s.inFlight.Some? && a.scrobble.Failed?) && !failed
                             && !(past && playing && a.nowPlaying.Failed?))
            && p.state ==
               s.(inFlight := if past then None else s.inFlight,
                  scrobbled := if past then !s.newTrackPending && (s.scrobbled || s.inFlight.Some?) else s.scrobbled,
                  newTrackPending := s.newTrackPending && !past,
                  metaFetch := if metas != [] then None else if past then fetch else s.metaFetch,
                  meta := if metas != [] then Some(metas[0]) else s.meta,
                  announced := s.announced + metas,
                  nowPlayingPending := if past && !failed then playing && !a.nowPlaying.Ready? else s.nowPlayingPending)
  {
    hide PollRest;
    RestExactly(s, a);
    RestExactly(s.(inFlight := None, scrobbled := true), a);
    assert s.announced + [] == s.announced;
  }

  /** A whole poll, its early returns resolved: a failed authentication leaves everything as it was; an unanswered
      scrobble stops the poll before the new track is taken up; an answered fetch is stored as it is and announced. */
  lemma PollExactly(s: State, now: nat, a: Answers)
    ensures var p := PollAll(s, now, a);
            var age := if s.start.Some? && s.start.value <= now then now - s.start.value else 0;
            var due := s.meta.Some? && !s.scrobbled && s.inFlight.None? && age > 20_000_000_000;
            var stopped := s.authPending && a.auth.Failed?;
            var calls := if due && !stopped then [Sent(s.meta.value, |s.closed|, s.trackId, age)] else [];
            var waits := s.inFlight.Some? || due;
            var past := !stopped && (waits ==> a.scrobble.Ready?);
            var fetch := if s.newTrackPending && s.trackId.Some? then Some(Fetch(s.trackId.value, |s.closed|)) else s.metaFetch;
            var metas := if past && fetch.Some? && a.meta.Ready? then [Meta(fetch.value, a.meta.value)] else [];
            var failed := past && fetch.Some? && a.meta.Failed?;
            var playing := s.nowPlayingPending || metas != [];
            && (p.alive <==> && !stopped && !(waits && a.scrobble.Failed?) && !failed
                             && !(past && playing && a.nowPlaying.Failed?))
            && p.state ==
               s.(clock := now,
                  authPending := s.authPending && !a.auth.Ready?,
                  sent := s.sent + calls,
                  inFlight := if past then None else if calls != [] then Some(calls[0]) else s.inFlight,
                  scrobbled := if past then !s.newTrackPending && (s.scrobbled || waits) else s.scrobbled,
                  newTrackPending := s.newTrackPending && !past,
                  metaFetch := if metas != [] then None else if past then fetch else s.metaFetch,
                  meta := if metas != [] then Some(metas[0]) else s.meta,
                  announced := s.announced + metas,
                  nowPlayingPending := if past && !failed then playing && !a.nowPlaying.Ready? else s.nowPlayingPending)
  {
    hide ScrobbleIfDue;
    hide PollScrobble;
    var authed := PollAuth(s.(clock := now), a.auth).state;
    assert authed == s.(clock := now, authPending := s.authPending && !a.auth.Ready?);
    assert s.sent + [] == s.sent && s.announced + [] == s.announced;
    DueExactly(authed, now);
    AnsweredExactly(ScrobbleIfDue(authed, now), a);
  }

  // ----- runs

  datatype Event = Update(track: TrackId, force: bool, now: nat, later: nat) | Poll(now: nat, answers: Answers)

  /** Instants never run backwards. */
  predicate InOrder(s: State, e: Event) {
    match e
    case Update(_, _, now, later) => s.clock <= now <= later
    case Poll(now, _) => s.clock <= now
  }

  /** After an `Err` the caller goes on: what was changed before it stays changed, and the future that failed stays in
      place until it is replaced. Were it polled again, any answer is allowed for. */
  function Step(s: State, e: Event): State {
    match e
    case Update(track, force, now, later) => Updated(s, track, force, now, later)
    case Poll(now, answers) => PollAll(s, now, answers).state
  }

  function Run(s: State, events: seq<Event>): State
    decreases |events|
  {
    if events == [] then s else Run(Step(s, events[0]), events[1..])
  }

  predicate Timed(s: State, events: seq<Event>)
    decreases |events|
  {
    events == [] || (InOrder(s, events[0]) && Timed(Step(s, events[0]), events[1..]))
  }

  // ----- what a run has sent

  function Scrobbles(sent: seq<Sent>, play: nat): nat {
    if sent == [] then 0
    else Scrobbles(sent[..|sent| - 1], play) + if sent[|sent| - 1].play == play then 1 else 0
  }

  function Announcements(announced: seq<Meta>, play: nat): nat {
    if announced == [] then 0
    else Announcements(announced[..|announced| - 1], play) + if announced[|announced| - 1].fetch.play == play then 1 else 0
  }

  /** The rule a scrobbler has to follow: a play counts when it was described and lasted more than twenty seconds. */
  predicate Counts(end: PlayEnd) {
    end.hadMeta && end.age > SCROBBLE_AFTER
  }

  /** A scrobble names the track of the play it is for, and that play had lasted long enough. */
  ghost predicate Truthful(c: Sent) {
    c.track == Some(c.meta.fetch.track) && c.meta.fetch.play == c.play && c.age > SCROBBLE_AFTER
  }

  ghost predicate PastPlaysSettled(closed: seq<PlayEnd>, sent: seq<Sent>, announced: seq<Meta>) {
    forall k :: 0 <= k < |closed| ==>
      && Scrobbles(sent, k) == (if Counts(closed[k]) then 1 else 0)
      && Announcements(announced, k) == (if closed[k].hadMeta then 1 else 0)
  }

  /** The play going on: reported at most once, only when due, and flagged or in flight from then on. */
  ghost predicate CurrentPlayConsistent(s: State) {
    var play := |s.closed|;
    var reports := Scrobbles(s.sent, play);
    && reports <= 1
    && (s.scrobbled ==> reports == 1)
    && (s.inFlight.Some? ==> s.inFlight.value.play <= play)
    && (s.inFlight.Some? && s.inFlight.value.play == play ==> reports == 1)
    && (reports == 1 ==> s.meta.Some? && Age(s.start, s.clock) > SCROBBLE_AFTER
                         && (s.scrobbled || (s.inFlight.Some? && s.inFlight.value.play == play)))
    && Announcements(s.announced, play) == (if s.meta.Some? then 1 else 0)
  }

  /** A scrobble of an earlier play still in flight: the new track has not been taken up, so nothing describes it yet. */
  ghost predicate StaleFlightGuarded(s: State) {
    s.inFlight.Some? && s.inFlight.value.play < |s.closed| ==> s.newTrackPending && s.meta.None?
  }

  /** Metadata, and any fetch that can still deliver, belong to the play and track of the moment. */
  ghost predicate MetaCurrent(s: State) {
    && (s.newTrackPending ==> s.meta.None? && !s.scrobbled && s.trackId.Some?)
    && (s.meta.Some? ==> s.metaFetch.None? && s.trackId.Some? && s.meta.value.fetch == Fetch(s.trackId.value, |s.closed|))
    && (s.metaFetch.Some? && !s.newTrackPending ==>
          s.trackId.Some? && s.metaFetch.value == Fetch(s.trackId.value, |s.closed|))
    && (s.trackId.Some? ==> s.newTrackPending || s.metaFetch.Some? || s.meta.Some?)
    && (s.start.Some? ==> s.start.value <= s.clock)
    && (s.start.Some? <==> s.trackId.Some?)
  }

  ghost predicate LogsTruthful(play: nat, sent: seq<Sent>, announced: seq<Meta>) {
    && (forall i :: 0 <= i < |sent| ==> Truthful(sent[i]) && sent[i].play <= play)
    && (forall i :: 0 <= i < |announced| ==> announced[i].fetch.play <= play)
  }

  ghost predicate Inv(s: State) {
    && PastPlaysSettled(s.closed, s.sent, s.announced)
    && LogsTruthful(|s.closed|, s.sent, s.announced)
    && CurrentPlayConsistent(s) && StaleFlightGuarded(s) && MetaCurrent(s)
  }

  lemma {:induction false} NoneBeyond(sent: seq<Sent>, play: nat)
    requires forall i :: 0 <= i < |sent| ==> sent[i].play < play
    ensures Scrobbles(sent, play) == 0
  {
    if sent == [] {
    } else {
      NoneBeyond(sent[..|sent| - 1], play);
    }
  }

  lemma {:induction false} NoAnnouncementBeyond(announced: seq<Meta>, play: nat)
    requires forall i :: 0 <= i < |announced| ==> announced[i].fetch.play < play
    ensures Announcements(announced, play) == 0
  {
    if announced == [] {
    } else {
      NoAnnouncementBeyond(announced[..|announced| - 1], play);
    }
  }

  lemma SentSnoc(sent: seq<Sent>, call: Sent, k: nat)
    ensures Scrobbles(sent + [call], k) == Scrobbles(sent, k) + if call.play == k then 1 else 0
  {
    assert (sent + [call])[..|sent|] == sent;
  }

  lemma AnnouncedSnoc(announced: seq<Meta>, m: Meta, k: nat)
    ensures Announcements(announced + [m], k) == Announcements(announced, k) + if m.fetch.play == k then 1 else 0
  {
    assert (announced + [m])[..|announced|] == announced;
  }

  lemma SendKeepsInv(s: State, now: nat)
    requires Inv(s) && s.clock <= now
    ensures var s' := ScrobbleIfDue(s, now).(clock := now);
            Inv(s') && (s'.meta.Some? && Age(s'.start, now) > SCROBBLE_AFTER ==> Scrobbles(s'.sent, |s'.closed|) == 1)
  {
    hide Scrobbles;
    hide Announcements;
    if Scrobblable(s, now) && s.meta.Some? {
      var call := Sent(s.meta.value, |s.closed|, s.trackId, Age(s.start, now));
      forall k: nat ensures Scrobbles(s.sent + [call], k) == Scrobbles(s.sent, k) + if k == |s.closed| then 1 else 0 {
        SentSnoc(s.sent, call, k);
      }
    }
  }

  lemma TrackSetKeepsInv(s: State, track: TrackId, now: nat, later: nat)
    requires Inv(s.(clock := now)) && now <= later
    requires s.meta.Some? && Age(s.start, now) > SCROBBLE_AFTER ==> Scrobbles(s.sent, |s.closed|) == 1
    ensures Inv(TrackSet(s, track, now, later))
  {
    NoneBeyond(s.sent, |s.closed| + 1);
    NoAnnouncementBeyond(s.announced, |s.closed| + 1);
  }

  lemma UpdateKeepsInv(s: State, track: TrackId, force: bool, now: nat, later: nat)
    requires Inv(s) && s.clock <= now <= later
    ensures Inv(Updated(s, track, force, now, later))
  {
    if force || s.trackId != Some(track) {
      SendKeepsInv(s, now);
      TrackSetKeepsInv(ScrobbleIfDue(s, now), track, now, later);
    } else {
      ClockKeepsInv(s, later, s.authPending);
    }
  }

  /** The flag may be set for an earlier play's scrobble, but only while the new track waits to be taken up. */
  ghost predicate InvButFlag(s: State) {
    s.inFlight.None? && Inv(s.(scrobbled := s.scrobbled && !s.newTrackPending))
  }

  lemma NewTrackRestoresInv(s: State)
    requires InvButFlag(s)
    ensures Inv(PollNewTrack(s)) && !PollNewTrack(s).newTrackPending
  {
  }

  lemma MetaKeepsInv(s: State, a: Answer<Scrobble>)
    requires Inv(s) && !s.newTrackPending
    ensures Inv(PollMeta(s, a).state)
  {
    hide Scrobbles;
    hide Announcements;
    if s.metaFetch.Some? && a.Ready? {
      var m := Meta(s.metaFetch.value, a.value);
      forall k: nat
        ensures Announcements(s.announced + [m], k) == Announcements(s.announced, k) + if k == |s.closed| then 1 else 0
      {
        AnnouncedSnoc(s.announced, m, k);
      }
    }
  }

  lemma RestKeepsInv(s: State, a: Answers)
    requires InvButFlag(s)
    ensures Inv(PollRest(s, a).state)
  {
    NewTrackRestoresInv(s);
    MetaKeepsInv(PollNewTrack(s), a.meta);
  }

  lemma ScrobbleAnswerKeepsInv(s: State, a: Answers)
    requires Inv(s)
    ensures Inv(PollScrobble(s, a).state)
  {
    if s.inFlight.None? {
      assert s.(scrobbled := s.scrobbled && !s.newTrackPending) == s;
      RestKeepsInv(s, a);
    } else if a.scrobble.Ready? {
      RestKeepsInv(s.(inFlight := None, scrobbled := true), a);
    }
  }

  lemma PollKeepsInv(s: State, now: nat, a: Answers)
    requires Inv(s) && s.clock <= now
    ensures Inv(PollAll(s, now, a).state)
  {
    var r := PollAuth(s.(clock := now), a.auth);
    ClockKeepsInv(s, now, r.state.authPending);
    assert r.state == s.(clock := now, authPending := r.state.authPending);
    if r.alive {
      SendKeepsInv(r.state, now);
      var due := ScrobbleIfDue(r.state, now);
      assert due.(clock := now) == due;
      ScrobbleAnswerKeepsInv(due, a);
    }
  }

  lemma ClockKeepsInv(s: State, now: nat, authPending: bool)
    requires Inv(s) && s.clock <= now
    ensures Inv(s.(clock := now, authPending := authPending))
  {
  }

  /** Polls that return `Err` keep the invariant too, so it holds however long the run goes on. */
  lemma {:induction false} RunKeepsInv(s: State, events: seq<Event>)
    requires Inv(s) && Timed(s, events)
    ensures Inv(Run(s, events))
    decreases |events|
  {
    if events == [] {
    } else {
      match events[0] {
        case Update(track, force, now, later) => UpdateKeepsInv(s, track, force, now, later);
        case Poll(now, answers) => PollKeepsInv(s, now, answers);
      }
      RunKeepsInv(Step(s, events[0]), events[1..]);
    }
  }

  // ----- the plays of a run, read off its inputs alone

  /** A record of the current play kept from tracks, instants and answers only: nothing of the flag, the futures, the
      fetch or the metadata of the scrobbler. `waiting` is a scrobble that has been sent and not been answered. */
  datatype Record = Record(
    track: Option<TrackId>,
    start: Option<nat>,
    described: bool,
    reported: bool,
    waiting: bool,
    authorizing: bool,
    ended: seq<PlayEnd>)

  const NO_PLAYS := Record(None, None, false, false, false, true, [])

  predicate Due(l: Record, now: nat) {
    l.described && !l.reported && Age(l.start, now) > SCROBBLE_AFTER
  }

  /** A poll describes the current play if it is held up neither by a failed authentication nor by an unanswered
      scrobble, and the fetch answers. */
  predicate Describes(l: Record, e: Event) {
    && e.Poll? && l.track.Some?
    && !(l.authorizing && e.answers.auth.Failed?)
    && ((l.waiting || Due(l, e.now)) ==> e.answers.scrobble.Ready?)
    && e.answers.meta.Ready?
  }

  function Recorded(l: Record, e: Event): Record {
    match e
    case Update(track, force, now, later) =>
      if !force && l.track == Some(track) then l
      else
        Record(Some(track), Some(later), false, false, l.waiting || Due(l, now), l.authorizing,
               l.ended + [PlayEnd(l.described, Age(l.start, now))])
    case Poll(now, a) =>
      if l.authorizing && a.auth.Failed? then l
      else
        l.(authorizing := l.authorizing && !a.auth.Ready?,
           reported := l.reported || Due(l, now),
           waiting := (l.waiting || Due(l, now)) && !a.scrobble.Ready?,
           described := l.described || Describes(l, e))
  }

  function RecordOf(events: seq<Event>): Record {
    if events == [] then NO_PLAYS
    else
      var n := |events| - 1;
      Recorded(RecordOf(events[..n]), events[n])
  }

  function Plays(events: seq<Event>): seq<PlayEnd> {
    RecordOf(events).ended
  }

  function Summary(s: State): Record {
    Record(s.trackId, s.start, s.meta.Some?, Scrobbles(s.sent, |s.closed|) == 1, s.inFlight.Some?, s.authPending, s.closed)
  }

  /** The rule of the record and the tests of the code agree on when a scrobble is sent. */
  lemma DueSends(s: State, now: nat)
    requires Inv(s) && s.clock <= now
    ensures Due(Summary(s), now) <==> Scrobblable(s, now) && s.meta.Some?
    ensures Summary(ScrobbleIfDue(s, now)) ==
            Summary(s).(reported := Summary(s).reported || Due(Summary(s), now),
                        waiting := Summary(s).waiting || Due(Summary(s), now))
  {
    hide Scrobbles;
    hide Announcements;
    if s.meta.Some? {
      SentSnoc(s.sent, Sent(s.meta.value, |s.closed|, s.trackId, Age(s.start, now)), |s.closed|);
    }
  }

  lemma UpdateRecorded(s: State, track: TrackId, force: bool, now: nat, later: nat)
    requires Inv(s) && s.clock <= now <= later
    ensures Summary(Updated(s, track, force, now, later)) == Recorded(Summary(s), Update(track, force, now, later))
  {
    hide Scrobbles;
    hide ScrobbleIfDue;
    hide Due;
    SendKeepsInv(s, now);
    DueSends(s, now);
    var s' := ScrobbleIfDue(s, now);
    NoneBeyond(s'.sent, |s'.closed| + 1);
  }

  /** From the answer to the scrobble on, a poll that is not held up describes the play if the fetch answers. */
  lemma RestRecorded(s: State, a: Answers)
    requires InvButFlag(s)
    ensures Summary(PollRest(s, a).state) ==
            Summary(s).(described := s.meta.Some? || (s.trackId.Some? && a.meta.Ready?))
  {
    hide Scrobbles;
    hide Announcements;
  }

  lemma AnswerRecorded(s: State, a: Answers)
    requires Inv(s)
    ensures Summary(PollScrobble(s, a).state) ==
            if s.inFlight.Some? && !a.scrobble.Ready? then Summary(s)
            else Summary(s).(waiting := false, described := s.meta.Some? || (s.trackId.Some? && a.meta.Ready?))
  {
    hide Scrobbles;
    hide PollRest;
    if s.inFlight.None? {
      assert s.(scrobbled := s.scrobbled && !s.newTrackPending) == s;
      RestRecorded(s, a);
    } else if a.scrobble.Ready? {
      RestRecorded(s.(inFlight := None, scrobbled := true), a);
    }
  }

  lemma PollRecorded(s: State, now: nat, a: Answers)
    requires Inv(s) && s.clock <= now
    ensures Summary(PollAll(s, now, a).state) == Recorded(Summary(s), Poll(now, a))
  {
    hide Scrobbles;
    hide ScrobbleIfDue;
    hide PollScrobble;
    hide Inv;
    hide Due;
    var r := PollAuth(s.(clock := now), a.auth);
    ClockKeepsInv(s, now, r.state.authPending);
    assert r.state == s.(clock := now, authPending := r.state.authPending);
    if r.alive {
      var due := ScrobbleIfDue(r.state, now);
      assert due.(clock := now) == due by {
        DueKeepsClock(r.state, now);
      }
      SendKeepsInv(r.state, now);
      DueSends(r.state, now);
      AnswerRecorded(due, a);
      DueIgnoresAuth(s, r.state, now);
    }
  }

  lemma DueKeepsClock(s: State, now: nat)
    ensures ScrobbleIfDue(s, now).clock == s.clock
  {
  }

  lemma DueIgnoresAuth(s: State, s': State, now: nat)
    requires s' == s.(clock := s'.clock, authPending := s'.authPending)
    ensures Due(Summary(s'), now) == Due(Summary(s), now)
  {
  }

  lemma {:induction false} RunSnoc(s: State, events: seq<Event>, e: Event)
    ensures Run(s, events + [e]) == Step(Run(s, events), e)
    ensures Timed(s, events + [e]) <==> Timed(s, events) && InOrder(Run(s, events), e)
    decreases |events|
  {
    hide Step;
    hide InOrder;
    if events == [] {
      var none: seq<Event> := [];
      assert events + [e] == [e] && [e][1..] == none;
      assert Run(Step(s, e), none) == Step(s, e) && Timed(Step(s, e), none);
    } else {
      assert (events + [e])[1..] == events[1..] + [e] && (events + [e])[0] == events[0];
      RunSnoc(Step(s, events[0]), events[1..], e);
    }
  }

  /** The scrobbler keeps to the record: over every run the track, the start, what is described, reported and waiting,
      and the plays that have ended follow from the inputs by the rules of the record. */
  lemma {:induction false} RunRecorded(events: seq<Event>)
    requires Timed(INITIAL, events)
    ensures Summary(Run(INITIAL, events)) == RecordOf(events)
    decreases |events|
  {
    hide Recorded;
    hide Inv;
    hide Step;
    hide Summary;
    if events == [] {
      NothingRecorded();
    } else {
      var n := |events| - 1;
      var s := Run(INITIAL, events[..n]);
      assert events == events[..n] + [events[n]];
      RunSnoc(INITIAL, events[..n], events[n]);
      RunRecorded(events[..n]);
      InitialInv();
      RunKeepsInv(INITIAL, events[..n]);
      StepRecorded(s, events[n]);
    }
  }

  lemma InitialInv()
    ensures Inv(INITIAL)
  {
  }

  lemma NothingRecorded()
    ensures Summary(Run(INITIAL, [])) == NO_PLAYS
  {
  }

  lemma StepRecorded(s: State, e: Event)
    requires Inv(s) && InOrder(s, e)
    ensures Summary(Step(s, e)) == Recorded(Summary(s), e)
  {
    hide Inv;
    hide Summary;
    hide Recorded;
    match e
    case Update(track, force, now, later) => UpdateRecorded(s, track, force, now, later);
    case Poll(now, answers) => PollRecorded(s, now, answers);
  }

  /** Event i is a poll that describes the given play. */
  predicate DescribedAt(events: seq<Event>, i: nat, play: nat)
    requires i < |events|
  {
    |Plays(events[..i])| == play && Describes(RecordOf(events[..i]), events[i])
  }

  ghost predicate DescribedIn(events: seq<Event>, play: nat) {
    exists i: nat :: i < |events| && DescribedAt(events, i, play)
  }

  lemma DescribedSnoc(events: seq<Event>, play: nat)
    requires events != []
    ensures var n := |events| - 1;
            DescribedIn(events, play) <==> DescribedIn(events[..n], play) || DescribedAt(events, n, play)
  {
    hide Describes;
    hide Plays;
    hide RecordOf;
    var n := |events| - 1;
    var before := events[..n];
    forall i: nat | i < n ensures DescribedAt(events, i, play) == DescribedAt(before, i, play) {
      assert before[..i] == events[..i];
    }
    if DescribedIn(before, play) {
      var i: nat :| i < n && DescribedAt(before, i, play);
      assert DescribedAt(events, i, play);
    }
  }

  lemma {:induction false} DescribedSoFar(events: seq<Event>, play: nat)
    ensures DescribedIn(events, play) <==>
            if play < |Plays(events)| then Plays(events)[play].hadMeta
            else play == |Plays(events)| && RecordOf(events).described
    decreases |events|
  {
    hide DescribedIn;
    if events == [] {
      assert !DescribedIn([], play) by {
        NothingDescribed(play);
      }
    } else {
      DescribedSnoc(events, play);
      DescribedSoFar(events[..|events| - 1], play);
    }
  }

  lemma NothingDescribed(play: nat)
    ensures !DescribedIn([], play)
  {
  }

  /** In every run a play had metadata when it was replaced if and only if some poll during it was held up neither by
      authentication nor by an unanswered scrobble, and read an answer of the fetch. */
  lemma DescribedExactly(events: seq<Event>, play: nat)
    requires Timed(INITIAL, events) && play < |Run(INITIAL, events).closed|
    ensures play < |Plays(events)|
    ensures Run(INITIAL, events).closed[play].hadMeta <==> DescribedIn(events, play)
  {
    hide DescribedIn;
    RunRecorded(events);
    DescribedSoFar(events, play);
  }

  // ----- the plays, from the updates alone

  /** The track of the last update. */
  function LastTrack(events: seq<Event>): Option<TrackId> {
    if events == [] then None
    else
      var n := |events| - 1;
      if events[n].Update? then Some(events[n].track) else LastTrack(events[..n])
  }

  lemma {:induction false} TrackIsLast(events: seq<Event>)
    ensures RecordOf(events).track == LastTrack(events)
    decreases |events|
  {
    hide Describes;
    hide Due;
    if events == [] {
    } else {
      TrackIsLast(events[..|events| - 1]);
    }
  }

  /** A play ends with every update that names another track than the update before it, or that is forced; polls and
      other updates end none. */
  lemma PlaysExactly(events: seq<Event>, e: Event)
    ensures Plays([]) == []
    ensures var plays, after := Plays(events), Plays(events + [e]);
            if e.Update? && (e.force || LastTrack(events) != Some(e.track)) then
              |after| == |plays| + 1 && after[..|plays|] == plays
            else after == plays
  {
    hide Describes;
    hide Due;
    assert (events + [e])[..|events|] == events;
    TrackIsLast(events);
  }

  /** Event i ends the given play, and so starts the next. */
  ghost predicate EndsPlay(events: seq<Event>, i: nat, play: nat) {
    && i < |events| && events[i].Update?
    && |Plays(events[..i])| == play && |Plays(events[..i + 1])| == play + 1
  }

  lemma EndsPlayBefore(events: seq<Event>, i: nat, play: nat)
    requires events != [] && i < |events| - 1
    ensures EndsPlay(events, i, play) <==> EndsPlay(events[..|events| - 1], i, play)
  {
    hide Plays;
    var before := events[..|events| - 1];
    assert before[..i] == events[..i] && before[..i + 1] == events[..i + 1];
  }

  /** The play going on started when the last one ended. */
  ghost predicate StartedBy(events: seq<Event>, start: Option<nat>) {
    if |Plays(events)| == 0 then start == None
    else
      exists i: nat :: i < |events| && events[i].Update? && EndsPlay(events, i, |Plays(events)| - 1) &&
        start == Some(events[i].later)
  }

  lemma {:induction false} StartIsLastEnd(events: seq<Event>)
    ensures StartedBy(events, RecordOf(events).start)
    decreases |events|
  {
    hide Describes;
    hide Due;
    if events == [] {
    } else {
      var n := |events| - 1;
      var before := events[..n];
      assert events[..n + 1] == events;
      StartIsLastEnd(before);
      if |Plays(events)| == |Plays(before)| + 1 {
        assert EndsPlay(events, n, |Plays(before)|);
      } else if |Plays(before)| > 0 {
        var i: nat :| i < n && before[i].Update? && EndsPlay(before, i, |Plays(before)| - 1) &&
          RecordOf(before).start == Some(before[i].later);
        EndsPlayBefore(events, i, |Plays(before)| - 1);
        assert EndsPlay(events, i, |Plays(events)| - 1);
      }
    }
  }

  ghost predicate Lasted(events: seq<Event>, play: nat, age: nat) {
    if play == 0 then age == 0
    else
      exists i: nat, j: nat :: i < |events| && j < |events| && events[i].Update? && events[j].Update? &&
        EndsPlay(events, i, play - 1) && EndsPlay(events, j, play) &&
        age == if events[i].later <= events[j].now then events[j].now - events[i].later else 0
  }

  lemma {:induction false} AgeLasts(events: seq<Event>, play: nat)
    requires play < |Plays(events)|
    ensures Lasted(events, play, Plays(events)[play].age)
    decreases |events|
  {
    hide Describes;
    hide Due;
    hide EndsPlay;
    var n := |events| - 1;
    var before := events[..n];
    assert events[..n + 1] == events;
    if play < |Plays(before)| {
      AgeLasts(before, play);
      LastedBefore(events, play, Plays(before)[play].age);
    } else {
      StartIsLastEnd(before);
      assert EndsPlay(events, n, play) by {
        LastEndsPlay(events, play);
      }
      if play > 0 {
        var i: nat :| i < n && before[i].Update? && EndsPlay(before, i, play - 1) &&
          RecordOf(before).start == Some(before[i].later);
        EndsPlayBefore(events, i, play - 1);
      }
    }
  }

  lemma LastEndsPlay(events: seq<Event>, play: nat)
    requires events != [] && play == |Plays(events[..|events| - 1])| < |Plays(events)|
    ensures EndsPlay(events, |events| - 1, play)
  {
    hide Describes;
    hide Due;
    assert events[..|events|] == events;
  }

  lemma LastedBefore(events: seq<Event>, play: nat, age: nat)
    requires events != [] && Lasted(events[..|events| - 1], play, age)
    ensures Lasted(events, play, age)
  {
    hide EndsPlay;
    var before := events[..|events| - 1];
    if play > 0 {
      var i: nat, j: nat :| i < |before| && j < |before| && before[i].Update? && before[j].Update? &&
        EndsPlay(before, i, play - 1) && EndsPlay(before, j, play) &&
        age == if before[i].later <= before[j].now then before[j].now - before[i].later else 0;
      EndsPlayBefore(events, i, play - 1);
      EndsPlayBefore(events, j, play);
    }
  }

  /** How long a play lasted is the time between the updates that started and ended it. The first ends before any track
      has been named, and lasted no time. */
  lemma AgesExactly(events: seq<Event>, play: nat)
    requires play < |Plays(events)|
    ensures play == 0 ==> Plays(events)[play].age == 0
    ensures play > 0 ==>
              exists i: nat, j: nat :: i < |events| && j < |events| && events[i].Update? && events[j].Update? &&
                EndsPlay(events, i, play - 1) && EndsPlay(events, j, play) &&
                Plays(events)[play].age ==
                  if events[i].later <= events[j].now then events[j].now - events[i].later else 0
  {
    hide Plays;
    hide EndsPlay;
    AgeLasts(events, play);
  }

  // ----- what every run guarantees

  /** Exactly once: in every run each finished play has been reported once if it counts and never otherwise,
      and announced once if it was described; the play going on has been reported at most once. The plays, how long
      they lasted and whether they were described are those of the inputs. */
  lemma ExactlyOnce(events: seq<Event>, play: nat)
    requires Timed(INITIAL, events)
    ensures var s, plays := Run(INITIAL, events), Plays(events);
            && s.closed == plays
            && (play < |plays| ==>
                  Scrobbles(s.sent, play) == (if plays[play].hadMeta && plays[play].age > 20_000_000_000 then 1 else 0) &&
                  Announcements(s.announced, play) == (if plays[play].hadMeta then 1 else 0))
            && (play == |plays| ==> Scrobbles(s.sent, play) <= 1)
            && (play > |plays| ==> Scrobbles(s.sent, play) == 0)
  {
    RunKeepsInv(INITIAL, events);
    RunRecorded(events);
    var s := Run(INITIAL, events);
    if play > |s.closed| {
      NoneBeyond(s.sent, play);
    }
  }

  /** Replacing a described play after more than twenty seconds leaves exactly one report of it,
      whether that report is sent now, is in flight, or was confirmed before. */
  lemma ReplacedPlayReported(events: seq<Event>, track: TrackId, force: bool, now: nat, later: nat)
    requires Timed(INITIAL, events) && Run(INITIAL, events).clock <= now <= later
    requires var s := Run(INITIAL, events); force || s.trackId != Some(track)
    ensures var s := Run(INITIAL, events);
            Scrobbles(Updated(s, track, force, now, later).sent, |s.closed|) ==
            (if s.meta.Some? && s.start.Some? && now - s.start.value > 20_000_000_000 then 1 else 0)
  {
    RunKeepsInv(INITIAL, events);
    UpdateKeepsInv(Run(INITIAL, events), track, force, now, later);
  }

  /** Every scrobble sent in any run is for the track that was playing, from metadata fetched in that same play,
      and the play had lasted more than twenty seconds; the same metadata is what is being shown as current. */
  lemma ScrobblesTruthful(events: seq<Event>)
    requires Timed(INITIAL, events)
    ensures var s := Run(INITIAL, events);
            && (forall i :: 0 <= i < |s.sent| ==>
                  && s.sent[i].track == Some(s.sent[i].meta.fetch.track)
                  && s.sent[i].meta.fetch.play == s.sent[i].play && s.sent[i].age > 20_000_000_000)
            && (s.meta.Some? ==> s.trackId == Some(s.meta.value.fetch.track) && s.meta.value.fetch.play == |s.closed|)
  {
    RunKeepsInv(INITIAL, events);
  }

  /** The scrobbled flag speaks of the current play only: a scrobble of an earlier play that is still in flight
      coexists only with an undescribed new track, and the flag implies a report of the play going on. */
  lemma StaleScrobbleNeverFlags(events: seq<Event>)
    requires Timed(INITIAL, events)
    ensures var s := Run(INITIAL, events);
            && (s.inFlight.Some? && s.inFlight.value.play < |s.closed| ==>
                  s.newTrackPending && s.meta.None? && !s.scrobbled)
            && (s.scrobbled ==> Scrobbles(s.sent, |s.closed|) == 1)
  {
    RunKeepsInv(INITIAL, events);
  }

  lemma RestSendsNothing(s: State, a: Answers)
    ensures PollRest(s, a).state.sent == s.sent
  {
    var s1 := PollNewTrack(s);
    assert s1.sent == s.sent;
    assert PollMeta(s1, a.meta).state.sent == s1.sent;
  }

  lemma AnswersSendNothing(s: State, a: Answers)
    ensures PollScrobble(s, a).state.sent == s.sent
  {
    hide PollRest;
    RestSendsNothing(s, a);
    RestSendsNothing(s.(inFlight := None, scrobbled := true), a);
  }

  lemma DuePlaySent(s: State, now: nat)
    requires Inv(s) && s.clock <= now && s.meta.Some? && Age(s.start, now) > SCROBBLE_AFTER
    ensures Scrobbles(ScrobbleIfDue(s, now).sent, |s.closed|) == 1
  {
    SendKeepsInv(s, now);
  }

  /** Polling is enough to get a due play reported: no later update is needed. */
  lemma PollReportsDuePlay(events: seq<Event>, now: nat, a: Answers)
    requires Timed(INITIAL, events) && Run(INITIAL, events).clock <= now
    requires var s := Run(INITIAL, events);
             && s.meta.Some? && s.start.Some? && now - s.start.value > 20_000_000_000
             && (s.authPending ==> !a.auth.Failed?)
    ensures var s := Run(INITIAL, events);
            Scrobbles(PollAll(s, now, a).state.sent, |s.closed|) == 1
  {
    RunKeepsInv(INITIAL, events);
    var s := Run(INITIAL, events);
    var s1 := PollAuth(s.(clock := now), a.auth).state;
    ClockKeepsInv(s, now, s1.authPending);
    assert s1 == s.(clock := now, authPending := s1.authPending);
    DuePlaySent(s1, now);
    AnswersSendNothing(ScrobbleIfDue(s1, now), a);
  }

  // ----- what a scrobble says

  /** The metadata is what the first poll that describes its play has read, and its track is the one then playing. */
  ghost predicate Fetched(events: seq<Event>, m: Meta) {
    exists j: nat :: j < |events| && DescribedAt(events, j, m.fetch.play) && events[j].Poll? &&
      (forall h: nat :: h < j ==> !DescribedAt(events, h, m.fetch.play)) &&
      events[j].answers.meta == Ready(m.scrobble) && LastTrack(events[..j]) == Some(m.fetch.track)
  }

  lemma StillFetched(events: seq<Event>, m: Meta)
    requires events != [] && Fetched(events[..|events| - 1], m)
    ensures Fetched(events, m)
  {
    hide DescribedAt;
    var before := events[..|events| - 1];
    var j: nat :| j < |before| && DescribedAt(before, j, m.fetch.play) && before[j].Poll? &&
      (forall h: nat :: h < j ==> !DescribedAt(before, h, m.fetch.play)) &&
      before[j].answers.meta == Ready(m.scrobble) && LastTrack(before[..j]) == Some(m.fetch.track);
    assert before[..j] == events[..j];
    forall h: nat | h <= j ensures DescribedAt(events, h, m.fetch.play) == DescribedAt(before, h, m.fetch.play) {
      DescribedBefore(events, h, m.fetch.play);
    }
  }

  lemma DescribedBefore(events: seq<Event>, i: nat, play: nat)
    requires events != [] && i < |events| - 1
    ensures DescribedAt(events, i, play) == DescribedAt(events[..|events| - 1], i, play)
  {
    hide Describes;
    hide RecordOf;
    assert events[..|events| - 1][..i] == events[..i];
  }

  lemma FetchedNow(events: seq<Event>, m: Meta)
    requires events != []
    requires var n, before := |events| - 1, events[..|events| - 1];
             && DescribedAt(events, n, m.fetch.play) && !DescribedIn(before, m.fetch.play)
             && (events[n].Poll? ==> events[n].answers.meta == Ready(m.scrobble)) && LastTrack(before) == Some(m.fetch.track)
    ensures Fetched(events, m)
  {
    var n := |events| - 1;
    assert events[n].Poll?;
    hide DescribedAt;
    forall h: nat | h < n ensures !DescribedAt(events, h, m.fetch.play) {
      DescribedBefore(events, h, m.fetch.play);
    }
  }

  /** A call sends the metadata present; metadata comes from a poll that describes the play for the first time. */
  lemma StepStores(s: State, e: Event)
    requires Inv(s) && InOrder(s, e)
    ensures var s' := Step(s, e);
            var first := s.meta.None? && Describes(Summary(s), e) && s'.meta.Some? && |s'.closed| == |s.closed|
                       && s'.meta.value.fetch.play == |s.closed| && Some(s'.meta.value.fetch.track) == s.trackId
                       && (e.Poll? ==> e.answers.meta == Ready(s'.meta.value.scrobble));
            && (s'.sent == s.sent
                || (s.meta.Some? && exists call :: s'.sent == s.sent + [call] && call.meta == s.meta.value))
            && (s'.meta.Some? ==> s'.meta == s.meta || first)
            && (s'.announced == s.announced || (first && s'.announced == s.announced + [s'.meta.value]))
  {
    hide Scrobbles;
    hide Announcements;
    match e
    case Update(track, force, now, later) =>
      hide Updated;
      UpdateExactly(s, track, force, now, later);
    case Poll(now, a) =>
      hide PollAll;
      PollExactly(s, now, a);
  }

  ghost predicate AllFetched(events: seq<Event>, s: State) {
    && (s.meta.Some? ==> Fetched(events, s.meta.value))
    && (forall i :: 0 <= i < |s.sent| ==> Fetched(events, s.sent[i].meta))
    && (forall i :: 0 <= i < |s.announced| ==> Fetched(events, s.announced[i]))
  }

  lemma {:induction false} RunFetched(events: seq<Event>)
    requires Timed(INITIAL, events)
    ensures AllFetched(events, Run(INITIAL, events))
    decreases |events|
  {
    hide Inv;
    hide Step;
    hide InOrder;
    hide Fetched;
    hide Describes;
    hide RecordOf;
    if events == [] {
    } else {
      var n := |events| - 1;
      var before, e := events[..n], events[n];
      var s := Run(INITIAL, before);
      assert events == before + [e];
      RunSnoc(INITIAL, before, e);
      RunFetched(before);
      InitialInv();
      RunKeepsInv(INITIAL, before);
      RunRecorded(before);
      StepStores(s, e);
      TrackIsLast(before);
      DescribedSoFar(before, |s.closed|);
      forall m: Meta | Fetched(before, m) ensures Fetched(events, m) {
        StillFetched(events, m);
      }
      var s' := Step(s, e);
      if s'.meta.Some? && s'.meta != s.meta {
        FetchedNow(events, s'.meta.value);
      }
    }
  }

  /** Every scrobble ever sent says exactly what was fetched: its words are the answer that the first poll to describe
      its play has read from the fetch, and its track is the one last named before that poll. So does everything
      announced as now playing. */
  lemma ScrobblesAsFetched(events: seq<Event>, i: nat)
    requires Timed(INITIAL, events)
    ensures var sent := Run(INITIAL, events).sent;
            i < |sent| ==>
              exists j: nat :: j < |events| && DescribedAt(events, j, sent[i].play) && events[j].Poll? &&
                (forall h: nat :: h < j ==> !DescribedAt(events, h, sent[i].play)) &&
                events[j].answers.meta == Ready(sent[i].meta.scrobble) && LastTrack(events[..j]) == sent[i].track
    ensures var announced := Run(INITIAL, events).announced;
            i < |announced| ==>
              exists j: nat :: j < |events| && DescribedAt(events, j, announced[i].fetch.play) && events[j].Poll? &&
                (forall h: nat :: h < j ==> !DescribedAt(events, h, announced[i].fetch.play)) &&
                events[j].answers.meta == Ready(announced[i].scrobble) &&
                LastTrack(events[..j]) == Some(announced[i].fetch.track)
  {
    hide DescribedAt;
    hide LastTrack;
    hide Run;
    RunFetched(events);
    ScrobblesTruthful(events);
    var s := Run(INITIAL, events);
    if i < |s.sent| {
      assert Fetched(events, s.sent[i].meta);
    }
    if i < |s.announced| {
      assert Fetched(events, s.announced[i]);
    }
  }

  // ----- the scrobbler object

  class Scrobbler {
    var currentTrackId: Option<TrackId>
    var currentTrackStart: Option<nat>
    var currentTrackMeta: Option<Meta>
    var currentTrackScrobbled: bool

    var authPending: bool
    var newTrackPending: bool
    var nowPlayingPending: bool
    var metaFetchFuture: Option<Fetch>
    var scrobbleFuture: Option<Sent>

    var closed: seq<PlayEnd>
    var sent: seq<Sent>
    var announced: seq<Meta>
    ghost var clock: nat

    ghost function View(): State
      reads this
    {
      State(currentTrackId, currentTrackStart, currentTrackMeta, currentTrackScrobbled, authPending, newTrackPending,
            nowPlayingPending, metaFetchFuture, scrobbleFuture, closed, sent, announced, clock)
    }

    constructor ()
      ensures View() == INITIAL
      ensures currentTrackId == None && currentTrackStart == None && currentTrackMeta == None && !currentTrackScrobbled
      ensures authPending && !newTrackPending && !nowPlayingPending && metaFetchFuture == None && scrobbleFuture == None
    {
      currentTrackId, currentTrackStart, currentTrackMeta, currentTrackScrobbled := None, None, None, false;
      authPending, newTrackPending, nowPlayingPending, metaFetchFuture, scrobbleFuture := true, false, false, None, None;
      closed, sent, announced, clock := [], [], [], 0;
    }

    method UpdateCurrentTrack(trackId: TrackId, forceNewTrack: bool, now: nat, later: nat)
      modifies this
      ensures View() == Updated(old(View()), trackId, forceNewTrack, now, later)
    {
      if !forceNewTrack {
        var newTrackDetected := false;
        match currentTrackId {
          case None =>
            newTrackDetected := true;
          case Some(id) =>
            if id != trackId {
              newTrackDetected := true;
            }
        }
        if !newTrackDetected {
          clock := later;
          return;
        }
      }

      var due := CanScrobbleTrack(now);
      if due {
        StartScrobble(now);
      }
      SetNewTrack(trackId, now, later);
    }

    method SetNewTrack(trackId: TrackId, now: nat, later: nat)
      modifies this
      ensures View() == TrackSet(old(View()), trackId, now, later)
    {
      closed := closed + [PlayEnd(currentTrackMeta.Some?, Age(currentTrackStart, now))];
      currentTrackId := Some(trackId);
      currentTrackStart := Some(later);
      currentTrackMeta := None;
      currentTrackScrobbled := false;
      newTrackPending := true;
      clock := later;
    }

    method StartScrobble(now: nat)
      modifies this`scrobbleFuture, this`sent
      ensures View() == ScrobbleStarted(old(View()), now)
    {
      match currentTrackMeta {
        case Some(meta) =>
          var call := Sent(meta, |closed|, currentTrackId, Age(currentTrackStart, now));
          sent := sent + [call];
          scrobbleFuture := Some(call);
        case None =>
          scrobbleFuture := None;
      }
    }

    method CanScrobbleTrack(now: nat) returns (due: bool)
      ensures due == Scrobblable(View(), now)
      ensures due == (&& !currentTrackScrobbled && scrobbleFuture.None?
                      && currentTrackStart.Some? && now - currentTrackStart.value > 20_000_000_000)
    {
      if currentTrackScrobbled {
        return false;
      }
      if scrobbleFuture.Some? {
        return false;
      }
      match currentTrackStart {
        case Some(_) =>
          return Age(currentTrackStart, now) > SCROBBLE_AFTER;
        case None =>
          return false;
      }
    }

    method Poll(now: nat, answers: Answers) returns (alive: bool)
      modifies this
      ensures Polled(View(), alive) == PollAll(old(View()), now, answers)
    {
      alive := PollAuthentication(now, answers.auth);
      if !alive {
        return;
      }

      var due := CanScrobbleTrack(now);
      if due {
        StartScrobble(now);
      }

      alive := PollScrobbleFuture(answers);
    }

    method PollAuthentication(now: nat, answer: Answer<()>) returns (alive: bool)
      modifies this`authPending, this`clock
      ensures Polled(View(), alive) == PollAuth(old(View()).(clock := now), answer)
    {
      clock := now;
      if authPending {
        match answer {
          case Ready(_) => authPending := false;
          case NotReady =>
          case Failed => return false;
        }
      }
      return true;
    }

    /** From the scrobble in flight to the end of `poll`; an unanswered scrobble ends the poll early. */
    method PollScrobbleFuture(answers: Answers) returns (alive: bool)
      modifies this
      ensures Polled(View(), alive) == PollScrobble(old(View()), answers)
    {
      var trackScrobbled := false;
      if scrobbleFuture.Some? {
        match answers.scrobble {
          case Ready(_) => trackScrobbled := true;
          case NotReady => return true;
          case Failed => return false;
        }
      }

      if trackScrobbled {
        scrobbleFuture := None;
        currentTrackScrobbled := true;
      }

      TakeUpNewTrack();
      alive := PollMetaFetch(answers.meta);
      if alive {
        alive := PollNowPlayingFuture(answers.nowPlaying);
      }
    }

    method TakeUpNewTrack()
      modifies this`newTrackPending, this`currentTrackScrobbled, this`metaFetchFuture
      ensures View() == PollNewTrack(old(View()))
    {
      if newTrackPending {
        newTrackPending := false;
        currentTrackScrobbled := false;
        match currentTrackId {
          case Some(trackId) => metaFetchFuture := Some(Fetch(trackId, |closed|));
          case None =>
        }
      }
    }

    method PollMetaFetch(answer: Answer<Scrobble>) returns (alive: bool)
      modifies this`metaFetchFuture, this`announced, this`nowPlayingPending, this`currentTrackMeta
      ensures Polled(View(), alive) == PollMeta(old(View()), answer)
    {
      if metaFetchFuture.Some? {
        match answer {
          case Ready(scrobble) =>
            var meta := Meta(metaFetchFuture.value, scrobble);
            metaFetchFuture := None;
            announced := announced + [meta];
            nowPlayingPending := true;
            currentTrackMeta := Some(meta);
          case NotReady =>
          case Failed => return false;
        }
      }
      return true;
    }

    method PollNowPlayingFuture(answer: Answer<()>) returns (alive: bool)
      modifies this`nowPlayingPending
      ensures Polled(View(), alive) == PollNowPlaying(old(View()), answer)
    {
      if nowPlayingPending {
        match answer {
          case Ready(_) => nowPlayingPending := false;
          case NotReady =>
          case Failed => return false;
        }
      }
      return true;
    }
  }
}
