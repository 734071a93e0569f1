/** The read plane's contract, as internal/query states it: what a timeline query
    selects, in what order, and what a limit takes. Instants are nanoseconds. */
module Query {
  import opened Options

  /** event_type is an open enum; KubernetesEvent is stamped on merged Events. */
  datatype EventType = Added | Modified | Deleted | Snapshot | Checkpoint | KubernetesEvent | OtherType(name: string)

  /** Whom a merged Event names: the object asked about, or another one. */
  datatype Subject = Itself(uid: string) | Another(name: string)

  /** One recorded row. data is its full state and diff its patch, empty when it carries
      none; touched is the dotted paths the diff touches, None when there is no readable
      diff; subject is read on Event rows only. */
  datatype Change = Change(
    ts: int, eventType: EventType, actors: seq<string>, uid: string,
    data: string, diff: string, touched: Option<seq<string>>, subject: Subject)

  datatype TimelineQuery = TimelineQuery(
    from: Option<int>, to: Option<int>, uid: string, allIncarnations: bool,
    actors: seq<string>, excludeActors: seq<string>, fieldPaths: seq<string>,
    limit: nat, reverse: bool, includeEvents: bool, eventsOnly: bool, subjects: set<string>)

  predicate IsEvent(c: Change) {
    c.eventType.KubernetesEvent?
  }

  predicate InWindow(ts: int, from: Option<int>, to: Option<int>) {
    (from.Some? ==> from.value <= ts) && (to.Some? ==> ts <= to.value)
  }

  predicate MatchesActors(c: Change, only: seq<string>, never: seq<string>) {
    && (only != [] ==> exists a | a in c.actors :: a in only)
    && !(exists a | a in c.actors :: a in never)
  }

  /** At or beneath one of the paths; a row with no readable patch is kept. */
  predicate MatchesFieldPaths(c: Change, paths: seq<string>) {
    paths == [] || c.touched.None? ||
    exists path, want | path in c.touched.value && want in paths :: path == want || want + "." <= path
  }

  /** The incarnation the engine answers about; newest is its own implicit choice. */
  function ResolvedUID(q: TimelineQuery, newest: string): string {
    if q.uid != "" then q.uid else if q.allIncarnations || q.eventsOnly then "" else newest
  }

  /** The object's own rows the question spans, before any predicate. */
  predicate OwnRow(q: TimelineQuery, newest: string, c: Change) {
    && !IsEvent(c) && InWindow(c.ts, q.from, q.to)
    && (if q.uid != "" then c.uid == q.uid else q.allIncarnations || c.uid == newest)
  }

  predicate Correlated(q: TimelineQuery, newest: string, c: Change) {
    && IsEvent(c) && InWindow(c.ts, q.from, q.to)
    && match c.subject
       case Itself(uid) => ResolvedUID(q, newest) == "" || uid == ResolvedUID(q, newest)
       case Another(name) => name in q.subjects
  }

  /** The predicates narrow the object's own changes and leave Events alone. */
  predicate Selects(q: TimelineQuery, newest: string, c: Change) {
    || (q.includeEvents && Correlated(q, newest, c))
    || (!q.eventsOnly && OwnRow(q, newest, c)
        && MatchesActors(c, q.actors, q.excludeActors) && MatchesFieldPaths(c, q.fieldPaths))
  }

  function Selected(history: seq<Change>, newest: string, q: TimelineQuery): seq<Change> {
    if history == [] then []
    else
      var last := history[|history| - 1];
      Selected(history[..|history| - 1], newest, q) + if Selects(q, newest, last) then [last] else []
  }

  lemma SelectedOfAppend(history: seq<Change>, c: Change, newest: string, q: TimelineQuery)
    ensures Selected(history + [c], newest, q)
            == Selected(history, newest, q) + if Selects(q, newest, c) then [c] else []
  {
    assert (history + [c])[..|history|] == history;
  }

  lemma {:induction false} SelectedMembers(history: seq<Change>, newest: string, q: TimelineQuery)
    ensures forall c :: c in Selected(history, newest, q) <==> c in history && Selects(q, newest, c)
  {
    if history != [] {
      var init, last := history[..|history| - 1], history[|history| - 1];
      SelectedMembers(init, newest, q);
      assert history == init + [last];
    }
  }

  function Reverse<T>(s: seq<T>): (r: seq<T>)
    ensures |r| == |s| && forall i | 0 <= i < |s| :: r[i] == s[|s| - 1 - i]
  {
    seq(|s|, i requires 0 <= i < |s| => s[|s| - 1 - i])
  }

  /** Zero means no cap. */
  function Take<T>(s: seq<T>, limit: nat): (r: seq<T>)
    ensures r <= s
  {
    if limit == 0 || |s| <= limit then s else s[..limit]
  }

  /** The cursor's rows: selected in history order, reversed if asked, then limited. */
  function Timeline(history: seq<Change>, newest: string, q: TimelineQuery): seq<Change> {
    var selected := Selected(history, newest, q);
    Take(if q.reverse then Reverse(selected) else selected, q.limit)
  }

  ghost predicate Ordered(history: seq<Change>) {
    forall i, j | 0 <= i < j < |history| :: history[i].ts <= history[j].ts
  }

  lemma {:induction false} SelectedIsOrdered(history: seq<Change>, newest: string, q: TimelineQuery)
    requires Ordered(history)
    ensures Ordered(Selected(history, newest, q))
  {
    if history != [] {
      var init, last := history[..|history| - 1], history[|history| - 1];
      SelectedIsOrdered(init, newest, q);
      SelectedMembers(init, newest, q);
      var rows := Selected(init, newest, q);
      forall i | 0 <= i < |rows|
        ensures rows[i].ts <= last.ts
      {
        assert rows[i] in rows;
      }
    }
  }

  lemma {:induction false} SelectedCongruent(
    history: seq<Change>, newest: string, q: TimelineQuery, newest': string, q': TimelineQuery)
    requires forall c | c in history :: Selects(q, newest, c) == Selects(q', newest', c)
    ensures Selected(history, newest, q) == Selected(history, newest', q')
  {
    if history != [] {
      assert history[|history| - 1] in history;
      SelectedCongruent(history[..|history| - 1], newest, q, newest', q');
    }
  }

  lemma ReverseTwice<T>(s: seq<T>)
    ensures Reverse(Reverse(s)) == s
  {
  }

  /** The newest N of a list kept oldest first. */
  function Newest<T>(s: seq<T>, limit: nat): seq<T> {
    if limit == 0 || |s| <= limit then s else s[|s| - limit..]
  }

  /** Taking from the newest end and turning the page over is taking the suffix. */
  lemma ReversedTakeIsNewest<T>(s: seq<T>, limit: nat)
    ensures Reverse(Take(Reverse(s), limit)) == Newest(s, limit)
  {
    var taken, newest := Take(Reverse(s), limit), Newest(s, limit);
    assert |taken| == |newest|;
    forall i | 0 <= i < |newest|
      ensures Reverse(taken)[i] == newest[i]
    {
      assert taken[|taken| - 1 - i] == Reverse(s)[|taken| - 1 - i];
    }
  }

  lemma TakeKeepsSome<T>(s: seq<T>, limit: nat)
    ensures Take(s, limit) == [] <==> s == []
    ensures limit == 0 || |Take(s, limit)| < limit ==> Take(s, limit) == s
  {
  }

  lemma ReverseKeepsMembers<T>(s: seq<T>)
    ensures forall x :: x in Reverse(s) <==> x in s
  {
    var r := Reverse(s);
    forall x | x in s
      ensures x in r
    {
      var i :| 0 <= i < |s| && s[i] == x;
      assert r[|s| - 1 - i] == x;
    }
  }

  // ---------------------------------------------------------------- scopes and incarnations

  /** A watched period; to is None while it is still open. */
  datatype Interval = Interval(group: string, from: int, to: Option<int>, ruleRef: string)

  datatype ScopeReply = Intervals(intervals: seq<Interval>) | NoScopeLog | ScopeUnreadable

  datatype Incarnation = Incarnation(uid: string, firstSeen: int, lastSeen: int)

  datatype IncarnationReply = Listed(incarnations: seq<Incarnation>) | ListingUnsupported | ListingFailed
}
