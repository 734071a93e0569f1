/** How large the coalescer's map can grow: the exact part scope evictions play in it. */
module CoalesceSpace {
  import opened Coalescing
  import opened CoalesceRuns

  /** At every recorded row, at most peak entries are still inside the window. */
  ghost predicate PeakLive(ops: seq<Op>, peak: nat) {
    forall j: nat | j < |ops| && Records(ops[j]) :: LiveAt(ops, j) <= peak
  }

  /** How many entries are inside the window when the j-th call records its row. */
  ghost function LiveAt(ops: seq<Op>, j: nat): nat
    requires j < |ops| && Records(ops[j])
  {
    var op := ops[j];
    |Live(Inserted(Run(ops[..j]), op.key, op.hash, op.at).entries, op.at, op.window)|
  }

  lemma ThresholdIsMonotone(m: nat, n: nat)
    requires m <= n
    ensures Threshold(m) <= Threshold(n)
  {
  }

  // ---------------------------------------------------------------- the bound, and what it needs

  /** The j-th call is a scope eviction that removed something. */
  ghost predicate EvictsSome(ops: seq<Op>, j: nat) {
    j < |ops| && ops[j].Evict? && Run(ops[..j + 1]).entries != Run(ops[..j]).entries
  }

  /** It leaves no more entries than the peak's threshold can be re-derived from. */
  ghost predicate LeavesFew(ops: seq<Op>, j: nat, peak: nat) {
    j < |ops| && Threshold(|Run(ops[..j + 1]).entries|) <= Threshold(peak)
  }

  ghost predicate ThresholdKept(ops: seq<Op>, k: nat, peak: nat)
    requires k <= |ops|
  {
    Run(ops[..k]).sweepAt <= Threshold(peak)
  }

  lemma ThresholdStep(ops: seq<Op>, k: nat, peak: nat)
    requires PeakLive(ops, peak) && k < |ops| && ThresholdKept(ops, k, peak)
    ensures ThresholdKept(ops, k + 1, peak) <==> EvictsSome(ops, k) ==> LeavesFew(ops, k, peak)
  {
    assert ops[..k + 1][..k] == ops[..k];
    var s, op := Run(ops[..k]), ops[k];
    if Records(op) {
      ThresholdIsMonotone(|Live(Inserted(s, op.key, op.hash, op.at).entries, op.at, op.window)|, peak);
    }
  }

  lemma {:induction false} KeptFrom(ops: seq<Op>, m: nat, k: nat, peak: nat)
    requires PeakLive(ops, peak) && m <= k <= |ops| && ThresholdKept(ops, m, peak)
    requires forall j: nat | m <= j && EvictsSome(ops, j) :: LeavesFew(ops, j, peak)
    ensures ThresholdKept(ops, k, peak)
    decreases k
  {
    if m < k {
      KeptFrom(ops, m, k - 1, peak);
      ThresholdStep(ops, k - 1, peak);
    }
  }

  /** The exact condition, visible at each deletePrefix call: over a run whose rows never
      see more than peak live entries, the threshold stays within the peak's own iff every
      eviction that removes something leaves few enough behind. */
  lemma ThresholdKeptIff(ops: seq<Op>, peak: nat)
    requires PeakLive(ops, peak)
    ensures (forall k: nat | k <= |ops| :: ThresholdKept(ops, k, peak)) <==>
            (forall j: nat | EvictsSome(ops, j) :: LeavesFew(ops, j, peak))
  {
    assert ops[..0] == [];
    if forall k: nat | k <= |ops| :: ThresholdKept(ops, k, peak) {
      forall j: nat | EvictsSome(ops, j)
        ensures LeavesFew(ops, j, peak)
      {
        assert ThresholdKept(ops, j, peak) && ThresholdKept(ops, j + 1, peak);
        ThresholdStep(ops, j, peak);
      }
    }
    if forall j: nat | EvictsSome(ops, j) :: LeavesFew(ops, j, peak) {
      forall k: nat | k <= |ops|
        ensures ThresholdKept(ops, k, peak)
      {
        KeptFrom(ops, 0, k, peak);
      }
    }
  }

  lemma BelowIfKept(ops: seq<Op>, peak: nat)
    requires Run(ops).sweepAt <= Threshold(peak)
    ensures |Run(ops).entries| < Threshold(peak)
  {
    BankedCredit(ops);
  }

  /** Under that condition the map stays under max(128, 2 * peak) at every point of the
      run; with no eviction at all the condition is empty. */
  lemma SpaceBound(ops: seq<Op>, peak: nat, k: nat)
    requires PeakLive(ops, peak) && k <= |ops|
    requires forall j: nat | EvictsSome(ops, j) :: LeavesFew(ops, j, peak)
    ensures |Run(ops[..k]).entries| < if 2 * peak > 128 then 2 * peak else 128
  {
    ThresholdKeptIff(ops, peak);
    assert ThresholdKept(ops, k, peak);
    BelowIfKept(ops[..k], peak);
  }

  // ---------------------------------------------------------------- until the next eviction

  ghost predicate ContinuesWithoutEviction(ops: seq<Op>, more: seq<Op>, peak: nat) {
    PeakLive(ops + more, peak) && forall op | op in more :: !op.Evict?
  }

  ghost predicate StaysUnder(ops: seq<Op>, more: seq<Op>, peak: nat) {
    |Run(ops + more).entries| < Threshold(peak)
  }

  /** From any point on, the size itself is bounded in every continuation up to the next
      eviction iff the threshold in force there is within the peak's own. */
  lemma StaysUnderIff(ops: seq<Op>, peak: nat)
    requires PeakLive(ops, peak) && 0 < peak
    ensures Run(ops).sweepAt <= Threshold(peak) <==>
            forall more: seq<Op> | ContinuesWithoutEviction(ops, more, peak) :: StaysUnder(ops, more, peak)
  {
    if Run(ops).sweepAt <= Threshold(peak) {
      forall more: seq<Op> | ContinuesWithoutEviction(ops, more, peak)
        ensures StaysUnder(ops, more, peak)
      {
        KeptThroughout(ops, more, peak);
        BelowIfKept(ops + more, peak);
      }
    } else {
      var more := [];
      assert ops + more == ops;
      if StaysUnder(ops, more, peak) {
        more := GrowTo(ops, peak, Threshold(peak));
      }
      assert ContinuesWithoutEviction(ops, more, peak) && !StaysUnder(ops, more, peak);
    }
  }

  lemma KeptThroughout(ops: seq<Op>, more: seq<Op>, peak: nat)
    requires ContinuesWithoutEviction(ops, more, peak) && Run(ops).sweepAt <= Threshold(peak)
    ensures Run(ops + more).sweepAt <= Threshold(peak)
  {
    var all := ops + more;
    assert all[..|ops|] == ops && all[..|all|] == all;
    assert forall j: nat | |ops| <= j < |all| :: all[j] == more[j - |ops|] && more[j - |ops|] in more;
    KeptFrom(all, |ops|, |all|, peak);
  }

  /** Every key is shorter, and every stamp earlier. */
  lemma {:induction false} Beyond(entries: Entries) returns (n: nat, at: int)
    ensures forall key | key in entries :: |key| < n && entries[key].at < at
    decreases |entries|
  {
    if entries == map[] {
      n, at := 0, 0;
    } else {
      var key :| key in entries;
      var rest := entries - {key};
      assert rest.Keys == entries.Keys - {key};
      assert |rest| == |rest.Keys| && |entries| == |entries.Keys|;
      var n', at' := Beyond(rest);
      n := if |key| < n' then n' else |key| + 1;
      at := if entries[key].at < at' then at' else entries[key].at + 1;
    }
  }

  /** A row recorded after everything else has passed: one more entry, one alive. */
  lemma AddLate(ops: seq<Op>, peak: nat) returns (op: Op)
    requires PeakLive(ops, peak) && 0 < peak && |Run(ops).entries| + 1 < Run(ops).sweepAt
    ensures !op.Evict? && PeakLive(ops + [op], peak)
    ensures Run(ops + [op]).sweepAt == Run(ops).sweepAt
    ensures |Run(ops + [op]).entries| == |Run(ops).entries| + 1
  {
    var n, at := Beyond(Run(ops).entries);
    var key := Repeat(n);
    op := Record(key, map[], at, 1);
    var all := ops + [op];
    assert all[..|ops|] == ops;
    var inserted := Inserted(Run(ops), key, map[], at).entries;
    var live := Live(inserted, at, 1);
    assert live.Keys <= {key};
    SubsetCardinality(live.Keys, {key});
    assert |live| == |live.Keys|;
    assert inserted.Keys == Run(ops).entries.Keys + {key};
    PeakLiveGrows(ops, op, peak);
  }

  lemma PeakLiveGrows(ops: seq<Op>, op: Op, peak: nat)
    requires PeakLive(ops, peak) && Records(op)
    requires |Live(Inserted(Run(ops), op.key, op.hash, op.at).entries, op.at, op.window)| <= peak
    ensures PeakLive(ops + [op], peak)
  {
    var all := ops + [op];
    forall j: nat | j < |all| && Records(all[j])
      ensures LiveAt(all, j) <= peak
    {
      assert all[..j] == ops[..j];
      assert j == |ops| ==> ops[..j] == ops;
      assert j < |ops| ==> all[j] == ops[j] && LiveAt(ops, j) <= peak;
    }
  }

  lemma ContinuesLonger(ops: seq<Op>, op: Op, rest: seq<Op>, peak: nat)
    requires !op.Evict? && ContinuesWithoutEviction(ops + [op], rest, peak)
    ensures ops + ([op] + rest) == ops + [op] + rest
    ensures ContinuesWithoutEviction(ops, [op] + rest, peak)
  {
    assert ops + ([op] + rest) == ops + [op] + rest;
  }

  lemma {:induction false} GrowTo(ops: seq<Op>, peak: nat, n: nat) returns (more: seq<Op>)
    requires PeakLive(ops, peak) && 0 < peak && |Run(ops).entries| <= n < Run(ops).sweepAt
    ensures ContinuesWithoutEviction(ops, more, peak) && |Run(ops + more).entries| == n
    decreases n - |Run(ops).entries|
  {
    if |Run(ops).entries| == n {
      more := [];
      assert ops + more == ops;
    } else {
      var op := AddLate(ops, peak);
      var rest := GrowTo(ops + [op], peak, n);
      more := [op] + rest;
      ContinuesLonger(ops, op, rest, peak);
    }
  }

  // ---------------------------------------------------------------- what evictions can do

  /** Every recorded row has a window of 1 and is stamped with its own index, so no two
      rows are ever inside the window together. */
  ghost predicate OneLiveAtATime(ops: seq<Op>) {
    forall j: nat | j < |ops| && ops[j].Record? :: ops[j].at == j && ops[j].window == 1
  }

  lemma OneLive(ops: seq<Op>)
    requires OneLiveAtATime(ops)
    ensures PeakLive(ops, 1)
  {
    forall j: nat | j < |ops| && Records(ops[j])
      ensures LiveAt(ops, j) <= 1
    {
      var before := ops[..j];
      var live := Live(Inserted(Run(before), ops[j].key, ops[j].hash, ops[j].at).entries, ops[j].at, ops[j].window);
      SweepsDropOnlyThePassed(before);
      forall key | key in live
        ensures key == ops[j].key
      {
        UnsweptHoldsTheLastRow(before, key);
      }
      assert live.Keys <= {ops[j].key};
      SubsetCardinality(live.Keys, {ops[j].key});
      assert |live| == |live.Keys|;
    }
  }

  ghost predicate Deferred(ops: seq<Op>, n: nat) {
    && OneLiveAtATime(ops)
    && |Run(ops).entries| == n < Run(ops).sweepAt
    && Run(ops).sweepAt >= SWEEP_FLOOR
    && "x" in Run(ops).entries
    && (forall key | key in Run(ops).entries :: key == "x" || (|key| < |ops| && !("x" <= key)))
  }

  /** Scope evictions re-derive the threshold from dead entries too, so with them the
      map outgrows any bound while never more than one entry is live. */
  lemma EvictionsBreakTheSpaceBound(n: nat) returns (ops: seq<Op>)
    requires 0 < n
    ensures PeakLive(ops, 1) && |Run(ops).entries| == n
  {
    ops := EvictionsDeferSweeps(n);
    OneLive(ops);
  }

  lemma {:induction false} EvictionsDeferSweeps(n: nat) returns (ops: seq<Op>)
    requires 0 < n
    ensures Deferred(ops, n)
  {
    if n == 1 {
      ops := [Record("x", map[], 0, 1)];
      var inserted := Inserted(ZERO, "x", map[], 0);
      assert ops[..0] == [];
      assert Live(inserted.entries, 0, 1) == inserted.entries;
    } else {
      ops := EvictionsDeferSweeps(n - 1);
      if Run(ops).sweepAt == n {
        ops := RaiseThreshold(ops, n - 1);
      }
      ops := AddOne(ops, n - 1);
    }
  }

  lemma AddOne(ops: seq<Op>, n: nat) returns (more: seq<Op>)
    requires Deferred(ops, n) && n + 1 < Run(ops).sweepAt
    ensures Deferred(more, n + 1)
  {
    var key := Repeat(|ops|);
    more := ops + [Record(key, map[], |ops|, 1)];
    assert more[..|ops|] == ops;
    assert key[0] == 'k' && "x"[0] == 'x';
    assert key !in Run(ops).entries;
    assert |Inserted(Run(ops), key, map[], |ops|).entries| == n + 1;
  }

  lemma RaiseThreshold(ops: seq<Op>, n: nat) returns (more: seq<Op>)
    requires Deferred(ops, n) && Run(ops).sweepAt == n + 1
    ensures Deferred(more, n) && n + 1 < Run(more).sweepAt
  {
    var s := Run(ops);
    var evicted := ops + [Evict("x")];
    assert evicted[..|ops|] == ops;
    var kept := Without(s.entries, "x");
    assert kept.Keys == s.entries.Keys - {"x"};
    assert |kept| == n - 1;
    assert Run(evicted) == State(kept, Threshold(n - 1));
    more := evicted + [Record("x", map[], |evicted|, 1)];
    assert more[..|evicted|] == evicted;
    assert |Inserted(Run(evicted), "x", map[], |evicted|).entries| == n;
    assert forall j: nat | j < |more| && more[j].Record? :: j < |ops| || j == |evicted|;
  }
}
