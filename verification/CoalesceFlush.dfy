/** The last bump of a burst is never lost.

    One Event identity on one sink, with time: the watch cache, the dedup entry, the
    coalescer's entry, the delaying queue and the writes in flight. A step is one
    delivery, one work item, one commit, one firing of the delaying queue, or a passage
    of time. The environment's contract is the one the source states: the queue keeps
    the earliest of several deadlines and fires it on time, a work item re-reads the
    live state, work items are settled before time moves on, and writes succeed -
    though commits may lag and arrive in any order. */
module CoalesceFlush {
  import opened Options
  import opened Events
  import opened Coalescing
  import CoalesceRuns

  datatype Row = Row(state: Event, at: int)

  datatype Sys = Sys(
    now: int,
    live: Option<Event>,        // what the watch cache holds
    changedAt: int,             // when it last changed
    cached: Option<Event>,      // the dedup entry: the newest state handed to the sink
    issuedAt: int,              // the stamp of the newest row, or the start of the run
    entry: Option<Entry>,       // the coalescer's entry for this identity
    deadline: Option<int>,      // the delaying queue's pending re-delivery
    queued: bool,               // the key is in the work queue
    rows: seq<Row>,             // every row handed to the sink, oldest first
    committed: set<nat>         // which of them it has confirmed
  )

  datatype Move =
    | Bump(state: Event)   // the watch delivers the Event at this state
    | Leave                // the Event's TTL expires
    | Work                 // a worker settles the key
    | Commit(i: nat)       // the sink confirms one row
    | Fire                 // the delaying queue re-delivers
    | Tick(d: nat)         // time passes
    | Drop                 // another key's sweep removes this key's passed entry
    | Stop                 // the watch scope stops and is evicted

  function Start(now: int): Sys {
    Sys(now, None, now, None, now, None, None, false, [], {})
  }

  function Earliest(pending: Option<int>, at: int): Option<int> {
    if pending.Some? && pending.value <= at then pending else Some(at)
  }

  predicate Enabled(s: Sys, window: int, m: Move) {
    match m
    case Bump(_) => true
    case Leave => s.live.Some?
    case Work => s.queued
    case Commit(i) => i < |s.rows| && i !in s.committed
    case Fire => s.deadline.Some? && s.deadline.value <= s.now
    case Tick(d) => !s.queued && (s.deadline.None? || s.now + d <= s.deadline.value)
    case Drop => s.entry.Some? && s.now - s.entry.value.at >= window
    case Stop => true
  }

  /** Process: forget an expired Event, drop a duplicate, skip a bump, or write. */
  function Settle(s: Sys, window: int): Sys {
    var s := s.(queued := false);
    if s.live.None? then s.(cached := None, entry := None)
    else if s.cached == s.live then s
    else
      var answer := DecisionOn(s.entry, Projection(s.live.value), window, s.now);
      if s.cached.Some? && answer.skip then
        s.(deadline := Earliest(s.deadline, s.now + answer.flushAfter))
      else
        s.(cached := s.live, issuedAt := s.now, rows := s.rows + [Row(s.live.value, s.now)])
  }

  function Next(s: Sys, window: int, m: Move): Sys
    requires Enabled(s, window, m)
  {
    match m
    case Bump(state) => s.(live := Some(state), changedAt := s.now, queued := true)
    case Leave => s.(live := None, changedAt := s.now, queued := true)
    case Work => Settle(s, window)
    case Commit(i) =>
      s.(committed := s.committed + {i}, entry := Some(Entry(Projection(s.rows[i].state), s.rows[i].at)))
    case Fire => s.(deadline := None, queued := true)
    case Tick(d) => s.(now := s.now + d)
    case Drop => s.(entry := None)
    case Stop => s.(live := None, changedAt := s.now, cached := None, entry := None)
  }

  ghost predicate Legal(s: Sys, window: int, moves: seq<Move>)
    decreases |moves|
  {
    moves == [] || (Enabled(s, window, moves[0]) && Legal(Next(s, window, moves[0]), window, moves[1..]))
  }

  ghost function After(s: Sys, window: int, moves: seq<Move>): Sys
    requires Legal(s, window, moves)
    decreases |moves|
  {
    if moves == [] then s else After(Next(s, window, moves[0]), window, moves[1..])
  }

  /** The newest row handed to the sink holds this state, under the newest stamp. */
  ghost predicate NewestRowIs(s: Sys, state: Event) {
    s.rows != [] && s.rows[|s.rows| - 1] == Row(state, s.issuedAt)
  }

  /** The live state has been handed to the sink, as the newest row. */
  ghost predicate Settled(s: Sys) {
    s.live.Some? ==> s.cached == s.live && NewestRowIs(s, s.live.value)
  }

  /** The sink has confirmed the live state, as the newest row. */
  ghost predicate Archived(s: Sys) {
    s.live.Some? ==> NewestRowIs(s, s.live.value) && |s.rows| - 1 in s.committed
  }

  /** A flush is pending, no later than one window after the newest row's stamp, and the
      state it will pick up changed at or after that stamp. */
  ghost predicate FlushPending(s: Sys, window: int) {
    s.deadline.Some? && s.now <= s.deadline.value <= s.issuedAt + window && s.issuedAt <= s.changedAt
  }

  ghost predicate Invariant(s: Sys, window: int) {
    && s.changedAt <= s.now && s.issuedAt <= s.now
    && (forall i | 0 <= i < |s.rows| :: s.rows[i].at <= s.issuedAt)
    && (forall i | i in s.committed :: i < |s.rows|)
    && (s.entry.Some? ==> s.entry.value.at <= s.issuedAt)
    && (s.deadline.Some? ==> s.now <= s.deadline.value)
    && (s.cached.Some? ==> NewestRowIs(s, s.cached.value))
    && (s.cached != s.live ==> s.issuedAt <= s.changedAt)
    && (s.queued || Settled(s) || FlushPending(s, window))
  }

  // ---------------------------------------------------------------- what a work item does

  /** The row the coalescer remembers is the live state but for bumps, under a window old. */
  ghost predicate OnlyHappenedAgain(s: Sys, window: int, recorded: Event) {
    && s.live.Some? && s.cached.Some? && s.entry.Some?
    && SameButBumps(recorded, s.live.value) && s.now - s.entry.value.at < window
  }

  /** A work item hands over the live state as one new row, or no row at all: none for an
      Event that is gone, none for a duplicate, and none for one that only happened again -
      which it has re-delivered no later than a window after the recorded row. */
  lemma WorkWritesIff(s: Sys, window: int, recorded: Event)
    requires 0 < window && s.queued
    requires s.entry.Some? ==> s.entry.value.hash == Projection(recorded)
    ensures var t := Next(s, window, Work);
            && !t.queued && t.live == s.live && t.now == s.now && t.committed == s.committed
            && (t.rows == s.rows <==> s.live.None? || s.cached == s.live || OnlyHappenedAgain(s, window, recorded))
            && (t.rows != s.rows ==>
                  t.rows == s.rows + [Row(s.live.value, s.now)] && t.cached == s.live && t.deadline == s.deadline)
            && (s.live.Some? && s.cached != s.live && t.rows == s.rows ==>
                  && t.cached == s.cached && t.deadline.Some? && t.deadline.value <= s.entry.value.at + window
                  && (s.deadline.Some? ==> t.deadline.value <= s.deadline.value)
                  && (t.deadline == s.deadline || t.deadline.value == s.entry.value.at + window))
  {
    if s.live.Some? {
      DigestIgnoresExactlyTheBumps(recorded, s.live.value);
    }
  }

  // ---------------------------------------------------------------- what a burst costs

  /** A move of a burst: the same Event again, and the machinery around it. */
  predicate BurstMove(m: Move, hash: Digest) {
    match m
    case Bump(state) => Projection(state) == hash
    case Leave => false
    case Stop => false
    case _ => true
  }

  /** The Event is live, its newest row carries its digest, every row before is confirmed,
      and once the newest is too, the coalescer remembers it until it is a window old. */
  ghost predicate InBurst(s: Sys, window: int, hash: Digest) {
    && s.live.Some? && Projection(s.live.value) == hash && s.cached.Some?
    && s.rows != [] && Newest(s).at <= s.now && Projection(Newest(s).state) == hash
    && (forall i | 0 <= i < |s.rows| - 1 :: i in s.committed)
    && (forall i | i in s.committed :: i < |s.rows|)
    && (|s.rows| - 1 in s.committed ==>
          || s.entry == Some(Entry(hash, Newest(s).at))
          || (s.entry.None? && s.now - Newest(s).at >= window))
  }

  ghost function Newest(s: Sys): Row
    requires s.rows != []
  {
    s.rows[|s.rows| - 1]
  }

  /** Rows are confirmed before the Event is worked on again. */
  ghost predicate Prompt(s: Sys, window: int, moves: seq<Move>)
    requires Legal(s, window, moves)
    decreases |moves|
  {
    moves == [] ||
    (&& (moves[0].Work? ==> forall i | 0 <= i < |s.rows| :: i in s.committed)
     && Prompt(Next(s, window, moves[0]), window, moves[1..]))
  }

  /** Every Event's first delivery starts one. */
  lemma BurstBegins(start: int, window: int, state: Event)
    requires 0 < window
    ensures var moves := [Bump(state), Work, Commit(0)];
            Legal(Start(start), window, moves) && InBurst(After(Start(start), window, moves), window, Projection(state))
  {
    var moves := [Bump(state), Work, Commit(0)];
    var a := Next(Start(start), window, moves[0]);
    var b := Next(a, window, moves[1]);
    var c := Next(b, window, moves[2]);
    assert b.rows == [Row(state, start)] && moves[1..] == [Work, Commit(0)] && moves[1..][1..] == [Commit(0)];
    assert Legal(c, window, []) && Legal(b, window, [Commit(0)]) && Legal(a, window, [Work, Commit(0)]);
    assert After(b, window, [Commit(0)]) == c && After(a, window, [Work, Commit(0)]) == c;
  }

  lemma BurstStep(s: Sys, window: int, m: Move, hash: Digest)
    requires 0 < window && InBurst(s, window, hash) && Enabled(s, window, m) && BurstMove(m, hash)
    requires m.Work? ==> forall i | 0 <= i < |s.rows| :: i in s.committed
    ensures var t := Next(s, window, m);
            && InBurst(t, window, hash)
            && (t.rows == s.rows || (|t.rows| == |s.rows| + 1 && Newest(t).at >= Newest(s).at + window))
  {
    if m.Commit? {
      assert m.i == |s.rows| - 1;
    }
  }

  /** Every row t has over s is paid for by a window between their newest stamps. */
  ghost predicate OnePerWindow(s: Sys, t: Sys, window: int) {
    && 0 < |s.rows| <= |t.rows|
    && (|t.rows| - |s.rows|) * window <= Newest(t).at - Newest(s).at
  }

  lemma OneMoreWindow(s: Sys, t: Sys, u: Sys, window: int)
    requires s.rows != [] && OnePerWindow(t, u, window)
    requires t.rows == s.rows || (|t.rows| == |s.rows| + 1 && Newest(t).at >= Newest(s).at + window)
    ensures OnePerWindow(s, u, window)
  {
    var k := |u.rows| - |t.rows|;
    assert (k + 1) * window == k * window + window;
  }

  /** A burst is coalesced: however often the Event happens again, it is written at most
      once per window after the row it started from. */
  lemma {:induction false} OneRowPerWindow(s: Sys, window: int, moves: seq<Move>, hash: Digest)
    requires 0 < window && InBurst(s, window, hash) && Legal(s, window, moves) && Prompt(s, window, moves)
    requires forall m | m in moves :: BurstMove(m, hash)
    ensures var t := After(s, window, moves);
            InBurst(t, window, hash) && OnePerWindow(s, t, window) && Newest(t).at <= t.now
    decreases |moves|
  {
    if moves != [] {
      var t := Next(s, window, moves[0]);
      assert moves[0] in moves && forall m | m in moves[1..] :: m in moves;
      BurstStep(s, window, moves[0], hash);
      OneRowPerWindow(t, window, moves[1..], hash);
      OneMoreWindow(s, t, After(t, window, moves[1..]), window);
    }
  }

  // ---------------------------------------------------------------- nothing is lost

  lemma StepKeepsInvariant(s: Sys, window: int, m: Move)
    requires 0 < window && Invariant(s, window) && Enabled(s, window, m)
    ensures Invariant(Next(s, window, m), window)
  {
    match m
    case Work => WorkKeepsInvariant(s, window);
    case Commit(i) =>
    case _ =>
  }

  lemma WorkKeepsInvariant(s: Sys, window: int)
    requires 0 < window && Invariant(s, window) && s.queued
    ensures Invariant(Settle(s, window), window)
  {
    if s.live.Some? && s.cached != s.live {
      var answer := DecisionOn(s.entry, Projection(s.live.value), window, s.now);
      assert answer.skip ==> s.now < s.now + answer.flushAfter <= s.issuedAt + window;
    }
  }

  lemma {:induction false} RunKeepsInvariant(s: Sys, window: int, moves: seq<Move>)
    requires 0 < window && Invariant(s, window) && Legal(s, window, moves)
    ensures Invariant(After(s, window, moves), window)
    decreases |moves|
  {
    if moves != [] {
      StepKeepsInvariant(s, window, moves[0]);
      RunKeepsInvariant(Next(s, window, moves[0]), window, moves[1..]);
    }
  }

  /** In every run, once the key is out of the work queue, either the live state has been
      handed to the sink, or a flush is pending that lies within one window of the newest
      row's stamp and picks up whatever the Event says by then. */
  lemma LastBumpIsNeverLost(start: int, window: int, moves: seq<Move>)
    requires 0 < window && Legal(Start(start), window, moves)
    ensures var s := After(Start(start), window, moves);
            !s.queued ==> Settled(s) || FlushPending(s, window)
  {
    RunKeepsInvariant(Start(start), window, moves);
  }

  /** What the sink is handed trails the live Event by at most one window while a burst
      runs, and is the Event as it stands once a window has passed since the last change.
      The archive holds it as soon as the commits in flight are in. */
  lemma ArchiveTrailsByAtMostOneWindow(start: int, window: int, moves: seq<Move>)
    requires 0 < window && Legal(Start(start), window, moves)
    ensures var s := After(Start(start), window, moves);
            && (!s.queued && !Settled(s) ==> s.now - s.issuedAt <= window)
            && (!s.queued && s.now - s.changedAt > window ==> Settled(s))
            && (Settled(s) && (forall i: nat | i < |s.rows| :: i in s.committed) ==> Archived(s))
  {
    RunKeepsInvariant(Start(start), window, moves);
  }

  /** A row handed over is confirmed, or its commit is still to come and archives it. */
  lemma CommitArchives(start: int, window: int, moves: seq<Move>)
    requires 0 < window && Legal(Start(start), window, moves)
    ensures var s := After(Start(start), window, moves);
            Settled(s) && !Archived(s) ==>
              && |s.rows| > 0 && Enabled(s, window, Commit(|s.rows| - 1))
              && Archived(Next(s, window, Commit(|s.rows| - 1)))
  {
    RunKeepsInvariant(Start(start), window, moves);
  }

  /** Repeated skips collapse onto the earliest deadline: over any run in which it does
      not fire, a pending re-delivery stays pending and never moves later. */
  lemma {:induction false} DeadlineNeverMovesOut(s: Sys, window: int, moves: seq<Move>)
    requires Legal(s, window, moves) && s.deadline.Some? && Fire !in moves
    ensures var t := After(s, window, moves);
            t.deadline.Some? && t.deadline.value <= s.deadline.value
    decreases |moves|
  {
    if moves != [] {
      DeadlineNeverMovesOut(Next(s, window, moves[0]), window, moves[1..]);
    }
  }

  /** Why one identity can be looked at alone: every call on the shared map is, for one
      key, one of the moves above, and decide answers from the key's own entry. */
  lemma OneKeyOfTheSharedMap(shared: State, op: CoalesceRuns.Op, key: string, s: Sys, window: int)
    requires 0 < window && Lookup(shared.entries, key) == s.entry
    requires op.Record? ==> op.window == window && op.at <= s.now
    ensures var after := Lookup(CoalesceRuns.Step(shared, op).entries, key);
            match op
            case Observe(k, hash, w, now) =>
              && after == s.entry
              && (k == key ==> CoalesceRuns.AnswerTo(shared.entries, op) == DecisionOn(s.entry, hash, w, now))
            case Record(k, hash, at, _) =>
              if k == key then
                && after == Some(Entry(hash, at))
                && forall i: nat | Enabled(s, window, Commit(i)) && s.rows[i].at == at
                                   && Projection(s.rows[i].state) == hash
                     :: after == Next(s, window, Commit(i)).entry
              else after == s.entry || (Enabled(s, window, Drop) && after == Next(s, window, Drop).entry)
            case Expire(k) => after == if k == key then Settle(s.(live := None), window).entry else s.entry
            case Evict(prefix) => after == if prefix <= key then Next(s, window, Stop).entry else s.entry
  {
    CoalesceRuns.KeyView(shared, op, key);
  }
}
