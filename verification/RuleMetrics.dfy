/** kuberecord_rules{condition,status}, from internal/controller/metrics.go: a gauge
    that counts a set no single reconcile pass can see. */
module RuleMetrics {

  /** conditionStatuses, the closed set of status labels. */
  datatype Label = True | False | Unknown

  datatype Condition = Condition(kind: string, status: string)

  /** One rule's conditions by type, and every live rule's. */
  type Verdicts = map<string, string>
  type Observed = map<string, Verdicts>

  const READY := "Ready"

  function LowerChar(c: char): char {
    if 'A' <= c <= 'Z' then ((c as int) + 32) as char else c
  }

  function Lower(s: string): string {
    seq(|s|, i requires 0 <= i < |s| => LowerChar(s[i]))
  }

  /** An unrecognized status is counted as unknown rather than under a new label. */
  function StatusLabel(status: string): Label {
    if Lower(status) == "true" then True else if Lower(status) == "false" then False else Unknown
  }

  /** The API's three statuses have a label each, and nothing else is true or false. */
  lemma LabelsAreTheStatuses(status: string)
    ensures StatusLabel("True") == True && StatusLabel("False") == False && StatusLabel("Unknown") == Unknown
    ensures StatusLabel(status) == True <==> Spells(status, "true", "TRUE")
    ensures StatusLabel(status) == False <==> Spells(status, "false", "FALSE")
  {
    assert Lower("True") == "true" && Lower("False") == "false";
    assert |Lower("Unknown")| == 7;
    SpellsIff(status, "true", "TRUE");
    SpellsIff(status, "false", "FALSE");
  }

  /** The word, in any mix of cases. */
  predicate Spells(s: string, lower: string, upper: string)
    requires |lower| == |upper|
  {
    |s| == |lower| && forall i | 0 <= i < |s| :: s[i] == lower[i] || s[i] == upper[i]
  }

  lemma SpellsIff(s: string, lower: string, upper: string)
    requires |lower| == |upper|
    requires forall i | 0 <= i < |lower| :: 'a' <= lower[i] <= 'z' && upper[i] as int + 32 == lower[i] as int
    ensures Lower(s) == lower <==> Spells(s, lower, upper)
  {
    if |s| == |lower| {
      forall i | 0 <= i < |s|
        ensures Lower(s)[i] == lower[i] <==> s[i] == lower[i] || s[i] == upper[i]
      {
      }
    }
  }

  function VerdictsOf(conds: seq<Condition>): (v: Verdicts)
    ensures v.Keys == set c | c in conds :: c.kind
  {
    if conds == [] then map[]
    else
      var last := conds[|conds| - 1];
      assert conds == conds[..|conds| - 1] + [last];
      VerdictsOf(conds[..|conds| - 1])[last.kind := last.status]
  }

  /** The last condition of a kind. */
  ghost predicate IsLastOfKind(conds: seq<Condition>, kind: string, i: nat) {
    i < |conds| && conds[i].kind == kind && forall l: nat | i < l < |conds| :: conds[l].kind != kind
  }

  /** The status recorded for a kind is the one its last condition was given with. */
  lemma {:induction false} RecordedAsGiven(conds: seq<Condition>, kind: string)
    ensures kind in VerdictsOf(conds) <==> exists i: nat :: IsLastOfKind(conds, kind, i)
    ensures forall i: nat | IsLastOfKind(conds, kind, i) ::
              kind in VerdictsOf(conds) && VerdictsOf(conds)[kind] == conds[i].status
  {
    if conds != [] {
      var n := |conds| - 1;
      var before := conds[..n];
      RecordedAsGiven(before, kind);
      if conds[n].kind == kind {
        assert IsLastOfKind(conds, kind, n);
      } else {
        forall i: nat
          ensures IsLastOfKind(conds, kind, i) <==> IsLastOfKind(before, kind, i)
        {
          LastOfAnotherKind(conds, kind, i);
        }
      }
    }
  }

  lemma LastOfAnotherKind(conds: seq<Condition>, kind: string, i: nat)
    requires conds != [] && conds[|conds| - 1].kind != kind
    ensures IsLastOfKind(conds, kind, i) <==> IsLastOfKind(conds[..|conds| - 1], kind, i)
  {
    var n := |conds| - 1;
    var before := conds[..n];
    if IsLastOfKind(before, kind, i) {
      assert forall l: nat | i < l < |conds| :: l == n || conds[l] == before[l];
    }
    if IsLastOfKind(conds, kind, i) {
      assert forall l: nat | i < l < |before| :: before[l] == conds[l];
    }
  }

  /** The conditions, as passed, give the kind this status: the last of it has it. */
  ghost predicate Gives(conds: seq<Condition>, kind: string, tag: Label) {
    exists i: nat :: IsLastOfKind(conds, kind, i) && StatusLabel(conds[i].status) == tag
  }

  lemma GivenIsHeld(conds: seq<Condition>, kind: string, tag: Label)
    ensures Holds(VerdictsOf(conds), kind, tag) <==> Gives(conds, kind, tag)
  {
    RecordedAsGiven(conds, kind);
  }

  predicate Holds(v: Verdicts, kind: string, tag: Label) {
    kind in v && StatusLabel(v[kind]) == tag
  }

  /** The rules of a set that hold the condition at the status. */
  ghost function Holders(observed: Observed, rules: set<string>, kind: string, tag: Label): set<string> {
    set rule | rule in rules && rule in observed && Holds(observed[rule], kind, tag)
  }

  ghost function Count(observed: Observed, kind: string, tag: Label): nat {
    |Holders(observed, observed.Keys, kind, tag)|
  }

  lemma OneMoreRule(observed: Observed, rules: set<string>, rule: string, kind: string, tag: Label)
    requires rule in observed && rule !in rules
    ensures |Holders(observed, rules + {rule}, kind, tag)|
            == |Holders(observed, rules, kind, tag)| + if Holds(observed[rule], kind, tag) then 1 else 0
  {
    var before, after := Holders(observed, rules, kind, tag), Holders(observed, rules + {rule}, kind, tag);
    assert after == if Holds(observed[rule], kind, tag) then before + {rule} else before;
  }

  /** A value for some of the (condition, status) series. */
  type Series = map<(string, Label), nat>

  function At(series: Series, kind: string, tag: Label): nat {
    if (kind, tag) in series then series[(kind, tag)] else 0
  }

  lemma LabelsAreClosed(kind: string)
    ensures forall tag: Label :: (kind, tag) in {(kind, True), (kind, False), (kind, Unknown)}
  {
    forall tag: Label
      ensures (kind, tag) in {(kind, True), (kind, False), (kind, Unknown)}
    {
      match tag case True => case False => case Unknown =>
    }
  }

  /** All three statuses of one type, set together. */
  function SetType(series: Series, kind: string, t: nat, f: nat, u: nat): (r: Series)
    ensures forall k, tag :: (k, tag) in r <==> (k, tag) in series || k == kind
    ensures forall k, tag | (k, tag) in r ::
              r[(k, tag)]
              == if k != kind then series[(k, tag)] else match tag case True => t case False => f case Unknown => u
  {
    var r := series[(kind, True) := t][(kind, False) := f][(kind, Unknown) := u];
    LabelsAreClosed(kind);
    r
  }

  class Metrics {
    var observed: Observed
    var published: set<string>
    var gauge: Series

    /** Every published type has its three series, each the count over the live rules,
        and every condition a live rule carries is published. */
    ghost predicate Valid()
      reads this
    {
      && (forall kind, tag :: (kind, tag) in gauge <==> kind in published)
      && (forall kind, tag | kind in published :: gauge[(kind, tag)] == Count(observed, kind, tag))
      && (forall rule | rule in observed :: observed[rule].Keys <= published)
    }

    constructor ()
      ensures Valid() && observed == map[] && published == {READY}
    {
      observed, published, gauge := map[], {}, map[];
      new;
      PublishType(READY);
    }

    method Observe(ruleKey: string, conds: seq<Condition>)
      requires Valid()
      modifies this
      ensures Valid()
      ensures observed == old(observed)[ruleKey := VerdictsOf(conds)]
      ensures published == old(published) + VerdictsOf(conds).Keys
    {
      var current := ByType(conds);
      observed := observed[ruleKey := current];
      var kinds := current.Keys;
      while kinds != {}
        invariant kinds <= current.Keys
        invariant published == old(published) + (current.Keys - kinds)
        invariant forall kind, tag :: (kind, tag) in gauge <==> kind in published
        invariant observed == old(observed)[ruleKey := current]
        decreases kinds
      {
        var kind :| kind in kinds;
        PublishType(kind);
        kinds := kinds - {kind};
      }
      Recount();
    }

    /** A later condition of the same type wins. */
    static method ByType(conds: seq<Condition>) returns (current: Verdicts)
      ensures current == VerdictsOf(conds)
    {
      current := map[];
      for i := 0 to |conds|
        invariant current == VerdictsOf(conds[..i])
      {
        assert conds[..i + 1][..i] == conds[..i];
        current := current[conds[i].kind := conds[i].status];
      }
      assert conds[..|conds|] == conds;
    }

    method Forget(ruleKey: string)
      requires Valid()
      modifies this
      ensures Valid()
      ensures observed == old(observed) - {ruleKey} && published == old(published)
    {
      if ruleKey !in observed {
        return;
      }
      observed := observed - {ruleKey};
      Recount();
    }

    method PublishType(condType: string)
      modifies this
      ensures observed == old(observed)
      ensures published == old(published) + {condType}
      ensures gauge == if condType in old(published) then old(gauge) else
                SetType(old(gauge), condType, 0, 0, 0)
    {
      if condType in published {
        return;
      }
      published := published + {condType};
      gauge := SetType(gauge, condType, 0, 0, 0);
    }

    method Recount()
      requires forall kind, tag :: (kind, tag) in gauge <==> kind in published
      requires forall rule | rule in observed :: observed[rule].Keys <= published
      modifies this
      ensures Valid()
      ensures observed == old(observed) && published == old(published)
    {
      var counts: Series := map[];
      var rules := observed.Keys;
      while rules != {}
        invariant rules <= observed.Keys
        invariant observed == old(observed) && published == old(published) && gauge == old(gauge)
        invariant forall kind, tag :: At(counts, kind, tag) == |Holders(observed, observed.Keys - rules, kind, tag)|
        decreases rules
      {
        var rule :| rule in rules;
        ghost var done := observed.Keys - rules;
        forall kind, tag { OneMoreRule(observed, done, rule, kind, tag); }
        counts := CountRule(counts, observed[rule]);
        rules := rules - {rule};
        assert observed.Keys - rules == done + {rule};
      }
      assert observed.Keys - rules == observed.Keys;
      gauge := SetAll(gauge, published, counts);
    }

    /** One rule's turn in the recount. */
    static method CountRule(counts: Series, conds: Verdicts) returns (r: Series)
      ensures forall kind, tag ::
                At(r, kind, tag) == At(counts, kind, tag) + if Holds(conds, kind, tag) then 1 else 0
    {
      r := counts;
      var kinds := conds.Keys;
      while kinds != {}
        invariant kinds <= conds.Keys
        invariant forall kind, tag ::
                    At(r, kind, tag)
                    == At(counts, kind, tag) + if kind !in kinds && Holds(conds, kind, tag) then 1 else 0
        decreases kinds
      {
        var kind :| kind in kinds;
        var tag := StatusLabel(conds[kind]);
        r := r[(kind, tag) := At(r, kind, tag) + 1];
        kinds := kinds - {kind};
      }
    }

    /** Every published pair is set, the ones that count zero included. */
    static method SetAll(gauge: Series, published: set<string>, counts: Series) returns (r: Series)
      requires forall kind, tag :: (kind, tag) in gauge <==> kind in published
      ensures forall kind, tag :: (kind, tag) in r <==> kind in published
      ensures forall kind, tag | kind in published :: r[(kind, tag)] == At(counts, kind, tag)
    {
      r := gauge;
      var kinds := published;
      while kinds != {}
        invariant kinds <= published
        invariant forall kind, tag :: (kind, tag) in r <==> kind in published
        invariant forall kind, tag | kind in published - kinds :: r[(kind, tag)] == At(counts, kind, tag)
        decreases kinds
      {
        var kind :| kind in kinds;
        r := SetType(r, kind, At(counts, kind, True), At(counts, kind, False), At(counts, kind, Unknown));
        kinds := kinds - {kind};
      }
    }
  }

  // ---------------------------------------------------------------- over whole runs

  datatype Op = Wrote(rule: string, conds: seq<Condition>) | Gone(rule: string)

  /** The two fields after a run of Observe and Forget calls. */
  function ObservedAfter(log: seq<Op>): Observed {
    if log == [] then map[]
    else
      var before, op := ObservedAfter(log[..|log| - 1]), log[|log| - 1];
      if op.Wrote? then before[op.rule := VerdictsOf(op.conds)] else before - {op.rule}
  }

  function PublishedAfter(log: seq<Op>): set<string> {
    if log == [] then {READY}
    else
      var before, op := PublishedAfter(log[..|log| - 1]), log[|log| - 1];
      if op.Wrote? then before + VerdictsOf(op.conds).Keys else before
  }

  /** Those are the fields of the object itself, once the calls have been made on it, and
      every published series then holds its count. */
  method Replay(log: seq<Op>) returns (m: Metrics)
    ensures fresh(m) && m.Valid() && m.observed == ObservedAfter(log) && m.published == PublishedAfter(log)
  {
    m := new Metrics();
    for i := 0 to |log|
      invariant fresh(m) && m.Valid()
      invariant m.observed == ObservedAfter(log[..i]) && m.published == PublishedAfter(log[..i])
    {
      assert log[..i + 1][..i] == log[..i];
      match log[i] {
        case Wrote(rule, conds) => m.Observe(rule, conds);
        case Gone(rule) => m.Forget(rule);
      }
    }
    assert log[..|log|] == log;
  }

  /** The last call about the rule, if any. */
  ghost predicate IsLastCall(log: seq<Op>, rule: string, j: nat) {
    j < |log| && log[j].rule == rule && (forall l: nat | j < l < |log| :: log[l].rule != rule)
  }

  /** The rule's last operation was an Observe whose conditions give this verdict. */
  ghost predicate LastVerdict(log: seq<Op>, rule: string, kind: string, tag: Label) {
    exists j: nat :: IsLastCall(log, rule, j) && log[j].Wrote? && Gives(log[j].conds, kind, tag)
  }

  ghost function Mentioned(log: seq<Op>): set<string> {
    set op | op in log :: op.rule
  }

  lemma {:induction false} ObservedIsTheLastCall(log: seq<Op>, rule: string)
    ensures forall j: nat | IsLastCall(log, rule, j) ::
              (rule in ObservedAfter(log) <==> log[j].Wrote?)
              && (log[j].Wrote? ==> ObservedAfter(log)[rule] == VerdictsOf(log[j].conds))
    ensures rule in ObservedAfter(log) ==> exists j: nat :: IsLastCall(log, rule, j)
  {
    if log != [] {
      var n := |log| - 1;
      var before := log[..n];
      ObservedIsTheLastCall(before, rule);
      if log[n].rule == rule {
        assert IsLastCall(log, rule, n);
      } else {
        forall j: nat
          ensures IsLastCall(log, rule, j) <==> IsLastCall(before, rule, j)
        {
          if IsLastCall(before, rule, j) {
            assert forall l: nat | j < l < |log| :: l == n || log[l] == before[l];
          }
          if IsLastCall(log, rule, j) {
            assert forall l: nat | j < l < |before| :: before[l] == log[l];
          }
        }
      }
    }
  }

  /** After any interleaving, the value every published series holds is the number of
      rules whose last operation was an Observe with that verdict. */
  lemma GaugeCountsLastVerdicts(log: seq<Op>, kind: string, tag: Label)
    ensures Count(ObservedAfter(log), kind, tag)
            == |set rule | rule in Mentioned(log) && LastVerdict(log, rule, kind, tag)|
  {
    var observed := ObservedAfter(log);
    var holders := Holders(observed, observed.Keys, kind, tag);
    forall rule
      ensures rule in holders <==> rule in Mentioned(log) && LastVerdict(log, rule, kind, tag)
    {
      ObservedIsTheLastCall(log, rule);
      if j: nat :| IsLastCall(log, rule, j) {
        assert log[j] in log;
        if log[j].Wrote? {
          GivenIsHeld(log[j].conds, kind, tag);
        }
        assert forall l: nat | IsLastCall(log, rule, l) :: l == j;
      }
    }
    assert holders == set rule | rule in Mentioned(log) && LastVerdict(log, rule, kind, tag);
  }

  /** The three statuses of a type sum to the rules carrying it. */
  lemma StatusesSumToCarriers(observed: Observed, kind: string)
    ensures Count(observed, kind, True) + Count(observed, kind, False) + Count(observed, kind, Unknown)
            == |set rule | rule in observed && kind in observed[rule]|
  {
    var t, f, u := Holders(observed, observed.Keys, kind, True), Holders(observed, observed.Keys, kind, False),
                   Holders(observed, observed.Keys, kind, Unknown);
    assert t + f + u == set rule | rule in observed && kind in observed[rule];
    assert t !! f && (t + f) !! u;
  }

  /** A published type never disappears, and neither does the roll-up's. */
  lemma {:induction false} PublishedNeverShrinks(log: seq<Op>, more: seq<Op>)
    ensures READY in PublishedAfter(log) && PublishedAfter(log) <= PublishedAfter(log + more)
    decreases |log| + |more|
  {
    if more != [] {
      var init := more[..|more| - 1];
      PublishedNeverShrinks(log, init);
      assert (log + more)[..|log + more| - 1] == log + init;
    } else {
      assert log + more == log;
      if log != [] {
        PublishedNeverShrinks(log[..|log| - 1], []);
        assert log[..|log| - 1] + [] == log[..|log| - 1];
      }
    }
  }
}
