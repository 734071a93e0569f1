/** Whole runs of the coalescer: what sweeping may and may not change, what a skip
    proves about the past, and what the sweeps cost. */
module CoalesceRuns {
  import opened Options
  import opened Events
  import opened Coalescing

  /** One call. Observe is decide; Record is remember; Expire is forget; Evict is deletePrefix. */
  datatype Op =
    | Observe(key: string, hash: Digest, window: int, now: int)
    | Record(key: string, hash: Digest, at: int, window: int)
    | Expire(key: string)
    | Evict(prefix: string)

  function Step(s: State, op: Op): State {
    match op
    case Observe(_, _, _, _) => s
    case Record(key, hash, at, window) => Remembered(s, key, hash, at, window)
    case Expire(key) => s.(entries := Forgotten(s.entries, key))
    case Evict(prefix) => Evicted(s, prefix)
  }

  /** The state after a run that started from the zero value. */
  function Run(ops: seq<Op>): State {
    if ops == [] then ZERO else Step(Run(ops[..|ops| - 1]), ops[|ops| - 1])
  }

  /** The simpler machine: the same calls, and nothing is ever swept. */
  function StepUnswept(m: Entries, op: Op): Entries {
    match op
    case Observe(_, _, _, _) => m
    case Record(key, hash, at, window) => if window <= 0 then m else m[key := Entry(hash, at)]
    case Expire(key) => Forgotten(m, key)
    case Evict(prefix) => Without(m, prefix)
  }

  function RunUnswept(ops: seq<Op>): Entries {
    if ops == [] then map[] else StepUnswept(RunUnswept(ops[..|ops| - 1]), ops[|ops| - 1])
  }

  function AnswerTo(entries: Entries, op: Op): Answer
    requires op.Observe?
  {
    Decision(entries, op.key, op.hash, op.window, op.now)
  }

  /** What the coalescer answered to the i-th call, and what the unswept one answers. */
  function AnswerAt(ops: seq<Op>, i: nat): Answer
    requires i < |ops| && ops[i].Observe?
  {
    AnswerTo(Run(ops[..i]).entries, ops[i])
  }

  function UnsweptAnswerAt(ops: seq<Op>, i: nat): Answer
    requires i < |ops| && ops[i].Observe?
  {
    AnswerTo(RunUnswept(ops[..i]), ops[i])
  }

  /** The oldest stamp that can still suppress something when this call is made. */
  function Horizon(op: Op): int
    requires op.Observe? || op.Record?
  {
    if op.Observe? then op.now - op.window else op.at - op.window
  }

  predicate Records(op: Op) {
    op.Record? && op.window > 0
  }

  // ---------------------------------------------------------------- sweeping

  /** The swept map is the unswept one minus entries some recorded row's horizon had passed. */
  ghost predicate SweptOnlyThePassed(ops: seq<Op>, swept: Entries, full: Entries) {
    && (forall key | key in swept :: key in full && full[key] == swept[key])
    && (forall key | key in full && key !in swept ::
          exists j: nat :: j < |ops| && Records(ops[j]) && full[key].at <= Horizon(ops[j]))
  }

  lemma {:induction false} SweepsDropOnlyThePassed(ops: seq<Op>)
    ensures SweptOnlyThePassed(ops, Run(ops).entries, RunUnswept(ops))
  {
    if ops != [] {
      var n := |ops| - 1;
      var before, op := ops[..n], ops[n];
      SweepsDropOnlyThePassed(before);
      var swept, full := Run(ops).entries, RunUnswept(ops);
      forall key | key in full && key !in swept
        ensures exists j: nat :: j < |ops| && Records(ops[j]) && full[key].at <= Horizon(ops[j])
      {
        if key in Run(before).entries && !(op.Record? && op.key == key) {
          assert Records(ops[n]) && full[key].at <= Horizon(ops[n]);
        } else {
          assert key in RunUnswept(before) && key !in Run(before).entries;
          var j: nat :| j < |before| && Records(before[j]) && RunUnswept(before)[key].at <= Horizon(before[j]);
          assert ops[j] == before[j];
        }
      }
    }
  }

  /** With any clocks and any windows, a skip is a skip the unswept machine takes,
      with the same deadline: sweeping can only cost rows, never lose one. */
  lemma SweepNeverAddsASkip(ops: seq<Op>, i: nat)
    requires i < |ops| && ops[i].Observe?
    ensures AnswerAt(ops, i).skip ==> UnsweptAnswerAt(ops, i) == AnswerAt(ops, i)
  {
    SweepsDropOnlyThePassed(ops[..i]);
  }

  /** No earlier recorded row's horizon lies beyond this observation's. */
  ghost predicate HorizonNotPassed(ops: seq<Op>, i: nat)
    requires i < |ops| && ops[i].Observe?
  {
    forall j: nat | j < i && Records(ops[j]) :: Horizon(ops[j]) <= Horizon(ops[i])
  }

  /** The two conditions under which the source calls the sweep behaviour-neutral. */
  ghost predicate SteadyWindowAndClock(ops: seq<Op>, i: nat)
    requires i < |ops| && ops[i].Observe?
  {
    forall j: nat | j < i && Records(ops[j]) :: ops[i].window <= ops[j].window && ops[j].at <= ops[i].now
  }

  lemma SteadyImpliesHorizon(ops: seq<Op>, i: nat)
    requires i < |ops| && ops[i].Observe? && SteadyWindowAndClock(ops, i)
    ensures HorizonNotPassed(ops, i)
  {
    forall j: nat | j < i && Records(ops[j])
      ensures Horizon(ops[j]) <= Horizon(ops[i])
    {
      assert ops[i].window <= ops[j].window && ops[j].at <= ops[i].now;
    }
  }

  /** Sweeping refines never sweeping: the answers are equal. */
  lemma SweepIsNeutral(ops: seq<Op>, i: nat)
    requires i < |ops| && ops[i].Observe? && HorizonNotPassed(ops, i)
    ensures AnswerAt(ops, i) == UnsweptAnswerAt(ops, i)
  {
    var before := ops[..i];
    SweepsDropOnlyThePassed(before);
    var swept, full, key := Run(before).entries, RunUnswept(before), ops[i].key;
    if key in full && key !in swept {
      var j: nat :| j < |before| && Records(before[j]) && full[key].at <= Horizon(before[j]);
      assert before[j] == ops[j];
    }
  }

  // Why the horizon condition is exact: a passed horizon is visible in some run.

  function Repeat(n: nat): (s: string)
    ensures |s| == n
  {
    seq(n, _ => 'k')
  }

  function Fill(n: nat, hash: Digest, at: int, window: int): (ops: seq<Op>)
    ensures |ops| == n
  {
    if n == 0 then [] else Fill(n - 1, hash, at, window) + [Record(Repeat(n - 1), hash, at, window)]
  }

  lemma {:induction false} FillState(n: nat, hash: Digest, at: int, window: int)
    requires 0 < n < SWEEP_FLOOR && 0 < window
    ensures var s := Run(Fill(n, hash, at, window));
            && s.sweepAt == SWEEP_FLOOR && |s.entries| == n
            && s.entries == RunUnswept(Fill(n, hash, at, window))
            && (forall key | key in s.entries :: |key| < n && s.entries[key] == Entry(hash, at))
            && Repeat(0) in s.entries
  {
    var ops := Fill(n, hash, at, window);
    assert ops[..n - 1] == Fill(n - 1, hash, at, window);
    var key := Repeat(n - 1);
    if n == 1 {
      var inserted := Inserted(ZERO, key, hash, at);
      assert Run(ops[..n - 1]) == ZERO;
      assert Live(inserted.entries, at, window) == inserted.entries;
    } else {
      FillState(n - 1, hash, at, window);
      var s := Run(ops[..n - 1]);
      assert key !in s.entries;
      assert |Inserted(s, key, hash, at).entries| == n;
    }
  }

  /** n rows stamped at the horizon, one more a window later, then the observation. */
  function PassedHorizonRun(n: nat, hash: Digest, horizon: int, window: int, now: int): (ops: seq<Op>)
    ensures |ops| == n + 2 && ops[n + 1].Observe?
  {
    Fill(n, hash, horizon, 1) + [Record(Repeat(n), hash, horizon + 1, 1), Observe(Repeat(0), hash, window, now)]
  }

  lemma PassedHorizonIsVisible(n: nat, hash: Digest, horizon: int, window: int, now: int)
    requires n + 1 == SWEEP_FLOOR && 0 < window && now - window < horizon
    ensures var ops := PassedHorizonRun(n, hash, horizon, window, now);
            !AnswerAt(ops, n + 1).skip && UnsweptAnswerAt(ops, n + 1).skip
  {
    var ops := PassedHorizonRun(n, hash, horizon, window, now);
    var fill := Fill(n, hash, horizon, 1);
    FillState(n, hash, horizon, 1);
    var before := ops[..n + 1];
    assert before[..n] == fill;
    var s := Run(fill);
    var inserted := Inserted(s, Repeat(n), hash, horizon + 1);
    assert |inserted.entries| == SWEEP_FLOOR;
    assert Run(before) == Swept(inserted, horizon + 1, 1);
    assert Repeat(0) !in Live(inserted.entries, horizon + 1, 1);
    assert RunUnswept(before) == inserted.entries;
  }

  ghost predicate RecordedUpTo(ops: seq<Op>, i: nat, horizon: int)
    requires i <= |ops|
  {
    forall j: nat | j < i && Records(ops[j]) :: Horizon(ops[j]) <= horizon
  }

  ghost predicate SweepUnseen(ops: seq<Op>, i: nat)
    requires i < |ops| && ops[i].Observe?
  {
    AnswerAt(ops, i) == UnsweptAnswerAt(ops, i)
  }

  /** The exact condition. Whatever was recorded up to some horizon, an observation
      cannot tell a swept map from an unswept one, in any run, iff its own horizon is
      not behind that one. */
  lemma SweepNeutralIff(horizon: int, window: int, now: int)
    requires 0 < window
    ensures horizon <= now - window <==>
            forall ops: seq<Op>, i: nat |
              i < |ops| && ops[i].Observe? && ops[i].window == window && ops[i].now == now
              && RecordedUpTo(ops, i, horizon)
              :: SweepUnseen(ops, i)
  {
    if horizon <= now - window {
      forall ops: seq<Op>, i: nat |
        i < |ops| && ops[i].Observe? && ops[i].window == window && ops[i].now == now
        && RecordedUpTo(ops, i, horizon)
        ensures SweepUnseen(ops, i)
      {
        SweepIsNeutral(ops, i);
      }
    } else {
      var n: nat :| n + 1 == SWEEP_FLOOR;
      PassedHorizonIsVisible(n, map[], horizon, window, now);
      FillHorizons(n, map[], horizon, 1);
      var ops := PassedHorizonRun(n, map[], horizon, window, now);
      assert RecordedUpTo(ops, n + 1, horizon);
      assert !SweepUnseen(ops, n + 1);
    }
  }

  lemma {:induction false} FillHorizons(n: nat, hash: Digest, at: int, window: int)
    ensures forall j: nat | j < n :: Fill(n, hash, at, window)[j].Record?
                                     && Fill(n, hash, at, window)[j].at == at
                                     && Fill(n, hash, at, window)[j].window == window
  {
    if n > 0 {
      FillHorizons(n - 1, hash, at, window);
    }
  }

  // ---------------------------------------------------------------- what a skip proves

  predicate Touches(op: Op, key: string) {
    match op
    case Observe(_, _, _, _) => false
    case Record(k, _, _, window) => k == key && window > 0
    case Expire(k) => k == key
    case Evict(prefix) => prefix <= key
  }

  /** The last call that concerned the key, which recorded a row. */
  ghost predicate IsLastRow(ops: seq<Op>, key: string, j: nat) {
    && j < |ops|
    && Records(ops[j]) && ops[j].key == key
    && (forall l: nat | j < l < |ops| :: !Touches(ops[l], key))
  }

  lemma {:induction false} UnsweptHoldsTheLastRow(ops: seq<Op>, key: string)
    ensures key in RunUnswept(ops) <==> exists j: nat :: IsLastRow(ops, key, j)
    ensures forall j: nat | IsLastRow(ops, key, j) ::
              key in RunUnswept(ops) && RunUnswept(ops)[key] == Entry(ops[j].hash, ops[j].at)
  {
    if ops != [] {
      var n := |ops| - 1;
      var before := ops[..n];
      UnsweptHoldsTheLastRow(before, key);
      if Touches(ops[n], key) {
        if ops[n].Record? {
          assert IsLastRow(ops, key, n);
        }
      } else {
        forall j: nat
          ensures IsLastRow(ops, key, j) <==> IsLastRow(before, key, j)
        {
          if IsLastRow(before, key, j) {
            assert forall l: nat | j < l < |ops| :: l == n || ops[l] == before[l];
          }
          if IsLastRow(ops, key, j) {
            assert forall l: nat | j < l < |before| :: before[l] == ops[l];
          }
        }
      }
    }
  }

  /** A skipped observation rests on one recorded row: of this key, carrying this
      digest, stamped less than a window ago, and not forgotten, evicted or superseded
      since. The deadline handed back is that row's stamp plus the window. */
  lemma SkipIsJustified(ops: seq<Op>, i: nat) returns (j: nat)
    requires i < |ops| && ops[i].Observe? && AnswerAt(ops, i).skip
    ensures j < i && IsLastRow(ops[..i], ops[i].key, j) && ops[j].hash == ops[i].hash
    ensures ops[i].now - ops[j].at < ops[i].window
    ensures ops[i].now + AnswerAt(ops, i).flushAfter == ops[j].at + ops[i].window
  {
    SweepNeverAddsASkip(ops, i);
    UnsweptHoldsTheLastRow(ops[..i], ops[i].key);
    var k: nat :| IsLastRow(ops[..i], ops[i].key, k);
    j := k;
  }

  /** And every such row gives a skip, as long as no sweep has looked past it: an Event that
      only happened again within the window is suppressed. */
  lemma SkipsIff(ops: seq<Op>, i: nat)
    requires i < |ops| && ops[i].Observe? && HorizonNotPassed(ops, i)
    ensures AnswerAt(ops, i).skip <==>
            exists j: nat ::
              && IsLastRow(ops[..i], ops[i].key, j) && ops[j].hash == ops[i].hash
              && ops[i].now - ops[j].at < ops[i].window && 0 < ops[i].window
  {
    SweepIsNeutral(ops, i);
    UnsweptHoldsTheLastRow(ops[..i], ops[i].key);
    if AnswerAt(ops, i).skip {
      var j := SkipIsJustified(ops, i);
    }
  }

  /** The digests of a run are those of these Events. */
  ghost predicate DigestsOf(ops: seq<Op>, events: seq<Event>) {
    && |events| == |ops|
    && (forall l: nat | l < |ops| && (ops[l].Observe? || ops[l].Record?) :: ops[l].hash == Projection(events[l]))
  }

  /** The same in terms of the Events: the suppressed state and the recorded one agree
      on every field but the six a bump rewrites. */
  lemma SkippedStateDiffersOnlyInBumps(ops: seq<Op>, events: seq<Event>, i: nat) returns (j: nat)
    requires DigestsOf(ops, events)
    requires i < |ops| && ops[i].Observe? && AnswerAt(ops, i).skip
    ensures j < i && IsLastRow(ops[..i], ops[i].key, j)
    ensures SameButBumps(events[i], events[j])
  {
    j := SkipIsJustified(ops, i);
    DigestIgnoresExactlyTheBumps(events[i], events[j]);
  }

  /** A field the code does not know about is compared: when it differs from the last
      recorded row the observation writes, whatever the clock and the window say. */
  lemma UnknownFieldForcesAWrite(ops: seq<Op>, events: seq<Event>, i: nat, j: nat, field: string)
    requires DigestsOf(ops, events)
    requires j < i < |ops| && ops[i].Observe? && IsLastRow(ops[..i], ops[i].key, j)
    requires !IsBumpField(field)
    requires (field in events[i]) != (field in events[j])
             || (field in events[i] && field in events[j] && events[i][field] != events[j][field])
    ensures AnswerAt(ops, i) == Answer(0, false)
  {
    if AnswerAt(ops, i).skip {
      SweepNeverAddsASkip(ops, i);
      UnsweptHoldsTheLastRow(ops[..i], ops[i].key);
      DigestIgnoresExactlyTheBumps(events[i], events[j]);
    }
  }

  /** One key's view of the shared map. Its own calls set and clear its entry; a call
      about other identities leaves it alone, or sweeps it away once it is too old to
      suppress anything at the recorded row's stamp. */
  lemma KeyView(s: State, op: Op, key: string)
    ensures var before, after := Lookup(s.entries, key), Lookup(Step(s, op).entries, key);
            if !Touches(op, key) then
              after == before || (after.None? && before.Some? && Records(op) && before.value.at <= Horizon(op))
            else
              after == if op.Record? then Some(Entry(op.hash, op.at)) else None
  {
  }

  // ---------------------------------------------------------------- what the sweeps cost

  /** Entries walked by sweeps over a run. */
  function Walked(ops: seq<Op>): nat {
    if ops == [] then 0 else
      var before, op := ops[..|ops| - 1], ops[|ops| - 1];
      Walked(before)
      + if Records(op) then SweepCost(Inserted(Run(before), op.key, op.hash, op.at)) else 0
  }

  function Remembers(ops: seq<Op>): nat {
    if ops == [] then 0 else Remembers(ops[..|ops| - 1]) + if ops[|ops| - 1].Record? then 1 else 0
  }

  /** The credit insertions have banked towards the next walk. */
  function Potential(s: State): nat {
    if 2 * |s.entries| <= s.sweepAt then 0 else 2 * |s.entries| - s.sweepAt
  }

  lemma SmallerMap(a: Entries, b: Entries)
    requires a.Keys <= b.Keys
    ensures |a| <= |b|
  {
    assert |a| == |a.Keys| && |b| == |b.Keys|;
    SubsetCardinality(a.Keys, b.Keys);
  }

  lemma {:induction false} SubsetCardinality(a: set<string>, b: set<string>)
    requires a <= b
    ensures |a| <= |b|
  {
    if a != {} {
      var x :| x in a;
      SubsetCardinality(a - {x}, b - {x});
    }
  }

  lemma {:induction false} BankedCredit(ops: seq<Op>)
    ensures Run(ops) == ZERO || |Run(ops).entries| < Run(ops).sweepAt
    ensures Walked(ops) + Potential(Run(ops)) <= 2 * Remembers(ops)
  {
    if ops != [] {
      var before, op := ops[..|ops| - 1], ops[|ops| - 1];
      BankedCredit(before);
      var s := Run(before);
      match op
      case Observe(_, _, _, _) =>
      case Record(key, hash, at, window) =>
        if window > 0 {
          var grown := Inserted(s, key, hash, at);
          assert grown.entries.Keys == s.entries.Keys + {key};
          assert |grown.entries| <= |s.entries| + 1;
        }
      case Expire(key) => SmallerMap(Forgotten(s.entries, key), s.entries);
      case Evict(prefix) => SmallerMap(Without(s.entries, prefix), s.entries);
    }
  }

  /** Sweeping is amortised: over any run mixing all four calls, the walks together
      touch at most two entries per remember. */
  lemma SweepsAreAmortised(ops: seq<Op>)
    ensures Walked(ops) <= 2 * Remembers(ops)
  {
    BankedCredit(ops);
  }

  /** After every remember with a positive window the map is below its threshold. */
  lemma BelowThresholdAfterRemember(ops: seq<Op>)
    requires ops != [] && Records(ops[|ops| - 1])
    ensures |Run(ops).entries| < Run(ops).sweepAt
  {
    BankedCredit(ops);
    assert ops[|ops| - 1].key in Run(ops).entries;
  }

  // ---------------------------------------------------------------- the object itself

  /** The runs above are runs of the object: making the calls on a new coalescer leaves it
      in the state they speak of, with every answer and every walk counted as they do. */
  method Replay(ops: seq<Op>) returns (c: Coalescer, answers: seq<Answer>, ghost walked: nat)
    ensures fresh(c) && c.Value() == Run(ops) && walked == Walked(ops)
    ensures |answers| == |ops|
    ensures forall i: nat | i < |ops| && ops[i].Observe? :: answers[i] == AnswerAt(ops, i)
  {
    c := new Coalescer();
    answers, walked := [], 0;
    for i := 0 to |ops|
      invariant fresh(c) && c.Value() == Run(ops[..i]) && walked == Walked(ops[..i])
      invariant |answers| == i
      invariant forall j: nat | j < i && ops[j].Observe? :: answers[j] == AnswerAt(ops, j)
    {
      assert ops[..i + 1][..i] == ops[..i];
      var answer := Answer(0, false);
      match ops[i] {
        case Observe(key, hash, window, now) =>
          var flushAfter, skip := c.Decide(key, hash, window, now);
          answer := Answer(flushAfter, skip);
        case Record(key, hash, at, window) =>
          ghost var cost := c.Remember(key, hash, at, window);
          walked := walked + cost;
        case Expire(key) => c.Forget(key);
        case Evict(prefix) => var removed := c.DeletePrefix(prefix);
      }
      answers := answers + [answer];
    }
    assert ops[..|ops|] == ops;
  }
}
