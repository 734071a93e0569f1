/** One timeline invocation: the request, the backend's answers to the questions it
    asks, and every notice and finding those answers can lead to. Models the request and
    window of internal/cli/timeline.go, the incarnation choice of incarnation.go, and the
    explanations of silence of coverage.go, structured.go and gather.go. */
module Timeline {
  import opened Options
  import opened Query

  datatype Request = Request(
    from: Option<int>, to: Option<int>, now: int, uid: string, allIncarnations: bool,
    actors: seq<string>, excludeActors: seq<string>, fieldPaths: seq<string>,
    displayFieldPaths: seq<string>, noPriorValues: bool, limit: nat, reverse: bool,
    withEvents: bool, eventsOnly: bool, owned: bool)

  datatype OwnedReply = OwnershipRefused | Owned(subjects: set<string>, notices: nat)

  /** What becomes of the timeline query: an engine can itself say it has no coverage. */
  datatype QueryReply = Served | Uncovered | Broken

  /** A backend, as the answers it gives to this invocation's questions. */
  datatype Backend = Backend(
    history: seq<Change>,           // oldest first
    newest: string,                 // the incarnation the engine picks when none is pinned
    incarnations: IncarnationReply,
    timeline: QueryReply,
    probeFails: bool,               // the same query without its predicates fails
    scope: ScopeReply,              // the whole log of the object's own scope, oldest first
    eventScope: ScopeReply,         // the whole log of kind Event, every group
    ownership: OwnedReply,
    scanRefused: bool,              // the cold-scan guard stops the invocation
    recordsDeletions: bool,
    timeBoundRequired: bool,
    priorValueNotices: nat)         // what the prior-value replay has to say

  // ---------------------------------------------------------------- the request

  predicate Filtered(r: Request) {
    !r.eventsOnly && (r.actors != [] || r.excludeActors != [] || r.fieldPaths != [])
  }

  predicate IncludesEvents(r: Request) {
    r.withEvents || r.eventsOnly || r.owned
  }

  /** timeline narrows its query, diff and blame narrow what they show, and neither of
      those two merges Events. */
  predicate BuiltByACommand(r: Request) {
    r.displayFieldPaths == [] || !IncludesEvents(r)
  }

  // ---------------------------------------------------------------- what can be said

  datatype EventFlag = EventsOnlyFlag | WithEventsFlag | OwnedFlag

  /** About the question asked: its window, its flags, its incarnation, its tree. */
  datatype QuestionNote =
    | WindowDefaulted(from: int, to: int)
    | WindowCompleted(from: int, to: int)
    | InertPredicates
    | IncarnationsUnsupported
    | IncarnationsUnlisted
    | PinNotInWindow(uids: seq<string>)
    | OtherIncarnations(count: nat, newest: string)
    | OwnershipNote(index: nat)

  datatype PriorNote = PriorValuesFiltered | PriorValueNote(index: nat)

  datatype DisplayNote = NoneTouchedThePaths(scanned: nat) | SomeTouchedThePaths(shown: nat, scanned: nat)

  datatype FilterNote = CouldNotBeProbed | MatchedNothing

  /** Why none of the object's own changes is on the page. */
  datatype SilenceNote =
    | CannotSay(onlyEvents: bool)
    | NotWatchedBefore(onlyEvents: bool, openedBy: Interval)
    | NothingChanged(onlyEvents: bool, watched: Interval)
    | NeverWatched

  /** Why no Event is. */
  datatype EventNote =
    | ScopeUnread(flag: EventFlag)
    | NoLog(flag: EventFlag)
    | NoRule(flag: EventFlag)
    | NothingSaid(flag: EventFlag, recorded: Interval)

  datatype Notice =
    | OnQuestion(question: QuestionNote)
    | OnPriorValues(prior: PriorNote)
    | OnDeletions
    | OnDisplay(display: DisplayNote)
    | OnFilter(filter: FilterNote)
    | OnSilence(silence: SilenceNote)
    | OnEvents(events: EventNote)

  /** What the no-coverage finding adds about Events. */
  datatype EventsClause = NotAsked | CannotBeRead | NoLogOfEvents | TwoGaps | OneAbsence(recorded: Interval)

  /** query.ErrNoCoverage: exit code 3. */
  datatype Finding = NoCoverage(events: EventsClause)

  function Note(o: Option<Notice>): (notices: seq<Notice>)
    ensures forall n :: n in notices <==> o == Some(n)
  {
    if o.Some? then [o.value] else []
  }

  // ---------------------------------------------------------------- the window

  const DEFAULT_WINDOW: int := 24 * 3600 * 1_000_000_000

  datatype Bounds = Bounds(from: Option<int>, to: Option<int>, notice: Option<Notice>)

  function TimelineBounds(b: Backend, r: Request): (bounds: Bounds)
    ensures bounds.notice.Some? ==> bounds.notice.value.OnQuestion?
    ensures b.timeBoundRequired ==> bounds.from.Some? && bounds.to.Some?
    ensures r.from.Some? ==> bounds.from == r.from
    ensures r.to.Some? ==> bounds.to == r.to
  {
    if !b.timeBoundRequired || (r.from.Some? && r.to.Some?) then Bounds(r.from, r.to, None)
    else if r.from.None? && r.to.None? then
      var from := r.now - DEFAULT_WINDOW;
      Bounds(Some(from), Some(r.now), Some(OnQuestion(WindowDefaulted(from, r.now))))
    else
      var from := if r.from.None? then r.to.value - DEFAULT_WINDOW else r.from.value;
      var to := if r.from.None? then r.to.value else r.now;
      Bounds(Some(from), Some(to), Some(OnQuestion(WindowCompleted(from, to))))
  }

  // ---------------------------------------------------------------- the incarnation

  datatype Choice = Choice(uid: string, pinned: string, listed: seq<string>, notices: seq<Notice>)

  function UIDs(incarnations: seq<Incarnation>): seq<string> {
    seq(|incarnations|, i requires 0 <= i < |incarnations| => incarnations[i].uid)
  }

  predicate Later(a: Incarnation, b: Incarnation) {
    a.firstSeen > b.firstSeen || (a.firstSeen == b.firstSeen && a.lastSeen > b.lastSeen)
  }

  /** The running choice of newestUID's loop. */
  function NewestOf(incarnations: seq<Incarnation>): Incarnation {
    if incarnations == [] then Incarnation("", 0, 0)
    else
      var best, last := NewestOf(incarnations[..|incarnations| - 1]), incarnations[|incarnations| - 1];
      if best.uid == "" || Later(last, best) then last else best
  }

  method NewestUID(incarnations: seq<Incarnation>) returns (uid: string)
    ensures uid == NewestOf(incarnations).uid
  {
    var newest := Incarnation("", 0, 0);
    for i := 0 to |incarnations|
      invariant newest == NewestOf(incarnations[..i])
    {
      assert incarnations[..i + 1][..i] == incarnations[..i];
      if newest.uid == "" || Later(incarnations[i], newest) {
        newest := incarnations[i];
      }
    }
    assert incarnations[..|incarnations|] == incarnations;
    return newest.uid;
  }

  /** No incarnation of the listing was first seen later, nor, first seen together, last
      seen later. */
  ghost predicate IsNewest(incarnations: seq<Incarnation>, x: Incarnation) {
    forall i | 0 <= i < |incarnations| ::
      && incarnations[i].firstSeen <= x.firstSeen
      && (incarnations[i].firstSeen == x.firstSeen ==> incarnations[i].lastSeen <= x.lastSeen)
  }

  ghost predicate NamedNewest(incarnations: seq<Incarnation>, x: Incarnation) {
    x in incarnations && IsNewest(incarnations, x) && x.uid != ""
  }

  lemma {:induction false} ChosenFromTheListing(incarnations: seq<Incarnation>)
    requires incarnations != []
    ensures NewestOf(incarnations) in incarnations
  {
    var init := incarnations[..|incarnations| - 1];
    if init != [] {
      ChosenFromTheListing(init);
    }
  }

  /** Once a newest incarnation with a UID has been met, the choice is one. */
  lemma {:induction false} NamedNewestIsChosen(incarnations: seq<Incarnation>, x: Incarnation)
    requires NamedNewest(incarnations, x)
    ensures NamedNewest(incarnations, NewestOf(incarnations))
  {
    var init, last := incarnations[..|incarnations| - 1], incarnations[|incarnations| - 1];
    assert forall i | 0 <= i < |init| :: init[i] == incarnations[i];
    ChosenFromTheListing(incarnations);
    if x in init {
      NamedNewestIsChosen(init, x);
      assert NewestOf(init) in incarnations && !Later(last, x);
    } else {
      assert x == last;
      if init != [] {
        ChosenFromTheListing(init);
        assert NewestOf(init) in incarnations;
      }
    }
  }

  /** The choice is the maximum by first seen, then last seen, exactly when a maximum has
      a UID, or the listing ends on one: a choice with no UID is taken for none yet. */
  lemma NewestIsTheMaximumIff(incarnations: seq<Incarnation>)
    requires incarnations != []
    ensures NewestOf(incarnations) in incarnations
    ensures IsNewest(incarnations, NewestOf(incarnations)) <==>
            || (exists x :: NamedNewest(incarnations, x))
            || IsNewest(incarnations, incarnations[|incarnations| - 1])
  {
    var chosen := NewestOf(incarnations);
    ChosenFromTheListing(incarnations);
    UnnamedIsTheLast(incarnations);
    assert IsNewest(incarnations, chosen) && chosen.uid != "" ==> NamedNewest(incarnations, chosen);
    if x :| NamedNewest(incarnations, x) {
      NamedNewestIsChosen(incarnations, x);
    }
    if IsNewest(incarnations, incarnations[|incarnations| - 1]) {
      NewestLastIsChosen(incarnations);
    }
  }

  lemma UnnamedIsTheLast(incarnations: seq<Incarnation>)
    requires incarnations != []
    ensures NewestOf(incarnations).uid == "" ==> NewestOf(incarnations) == incarnations[|incarnations| - 1]
  {
  }

  lemma NewestLastIsChosen(incarnations: seq<Incarnation>)
    requires incarnations != [] && IsNewest(incarnations, incarnations[|incarnations| - 1])
    ensures IsNewest(incarnations, NewestOf(incarnations))
  {
    var last, chosen := incarnations[|incarnations| - 1], NewestOf(incarnations);
    if chosen != last {
      forall i | 0 <= i < |incarnations|
        ensures !Later(incarnations[i], chosen)
      {
        assert !Later(last, chosen) && !Later(incarnations[i], last);
      }
    }
  }

  function SelectIncarnation(b: Backend, r: Request): Choice {
    var pinned := if r.allIncarnations then "" else r.uid;
    match b.incarnations
    case ListingUnsupported => Choice(r.uid, pinned, [], [OnQuestion(IncarnationsUnsupported)])
    case ListingFailed => Choice(r.uid, pinned, [], [OnQuestion(IncarnationsUnlisted)])
    case Listed(incarnations) =>
      var uids, newest := UIDs(incarnations), NewestOf(incarnations).uid;
      if r.uid != "" then
        Choice(r.uid, r.uid, [], if uids == [] || r.uid in uids then [] else [OnQuestion(PinNotInWindow(uids))])
      else if r.allIncarnations then Choice(newest, "", uids, [])
      else Choice(newest, newest, [],
                  if |incarnations| <= 1 then [] else [OnQuestion(OtherIncarnations(|incarnations|, newest))])
  }

  function ChooseIncarnation(b: Backend, r: Request): (choice: Choice)
    ensures forall n | n in choice.notices :: n.OnQuestion?
  {
    if r.eventsOnly then Choice(r.uid, r.uid, [], []) else SelectIncarnation(b, r)
  }

  // ---------------------------------------------------------------- the query

  function Subjects(b: Backend, r: Request): set<string> {
    if r.owned && b.ownership.Owned? then b.ownership.subjects else {}
  }

  /** timelineQuery: always newest first, whatever the display order. */
  function QueryOf(b: Backend, r: Request): TimelineQuery {
    var bounds := TimelineBounds(b, r);
    TimelineQuery(bounds.from, bounds.to, ChooseIncarnation(b, r).pinned, r.allIncarnations,
                  r.actors, r.excludeActors, r.fieldPaths, r.limit, true,
                  IncludesEvents(r), r.eventsOnly, Subjects(b, r))
  }

  /** anyChangeInWindow's query: the same question without predicates or Events. */
  function ProbeOf(b: Backend, r: Request): TimelineQuery {
    QueryOf(b, r).(actors := [], excludeActors := [], fieldPaths := [],
                   includeEvents := false, eventsOnly := false, subjects := {}, limit := 1)
  }

  function Rows(b: Backend, q: TimelineQuery): seq<Change> {
    Timeline(b.history, b.newest, q)
  }

  /** collectChanges: the cursor is drained into a slice. */
  method CollectChanges(b: Backend, q: TimelineQuery) returns (changes: seq<Change>)
    ensures changes == Rows(b, q)
  {
    var cursor := Rows(b, q);
    changes := [];
    for i := 0 to |cursor|
      invariant changes == cursor[..i]
    {
      changes := changes + [cursor[i]];
    }
  }

  // ---------------------------------------------------------------- coverage

  /** gap is a backend with no scope log, which is not the same as nothing watching. */
  datatype Coverage = Coverage(intervals: seq<Interval>, gap: bool)

  datatype CoverageReply = CoverageFailed | Answered(coverage: Coverage)

  function AskCoverage(reply: ScopeReply): CoverageReply {
    match reply
    case Intervals(intervals) => Answered(Coverage(intervals, false))
    case NoScopeLog => Answered(Coverage([], true))
    case ScopeUnreadable => CoverageFailed
  }

  /** overlapsWindow: an interval that meets the window is part of the answer, whole. */
  predicate Overlaps(interval: Interval, from: Option<int>, to: Option<int>) {
    && (to.Some? ==> interval.from <= to.value)
    && (from.Some? && interval.to.Some? ==> from.value <= interval.to.value)
  }

  function Overlapping(log: seq<Interval>, from: Option<int>, to: Option<int>): (kept: seq<Interval>)
    ensures forall interval :: interval in kept <==> interval in log && Overlaps(interval, from, to)
  {
    if log == [] then []
    else
      var last := log[|log| - 1];
      assert log == log[..|log| - 1] + [last];
      Overlapping(log[..|log| - 1], from, to) + if Overlaps(last, from, to) then [last] else []
  }

  /** A scope query asks a log about the window only. */
  function Asked(log: ScopeReply, bounds: Bounds): ScopeReply {
    if log.Intervals? then Intervals(Overlapping(log.intervals, bounds.from, bounds.to)) else log
  }

  /** The replies to this invocation's two scope queries. */
  function ScopeFor(b: Backend, r: Request): ScopeReply {
    Asked(b.scope, TimelineBounds(b, r))
  }

  function EventScopeFor(b: Backend, r: Request): ScopeReply {
    Asked(b.eventScope, TimelineBounds(b, r))
  }

  predicate OfEvents(interval: Interval) {
    interval.group == "" || interval.group == "events.k8s.io"
  }

  function EventIntervals(intervals: seq<Interval>): (kept: seq<Interval>)
    ensures forall interval :: interval in kept <==> interval in intervals && OfEvents(interval)
  {
    if intervals == [] then []
    else
      var last := intervals[|intervals| - 1];
      assert intervals == intervals[..|intervals| - 1] + [last];
      EventIntervals(intervals[..|intervals| - 1]) + if OfEvents(last) then [last] else []
  }

  method KeepEventIntervals(intervals: seq<Interval>) returns (kept: seq<Interval>)
    ensures kept == EventIntervals(intervals)
  {
    kept := [];
    for i := 0 to |intervals|
      invariant kept == EventIntervals(intervals[..i])
    {
      assert intervals[..i + 1][..i] == intervals[..i];
      if OfEvents(intervals[i]) {
        kept := kept + [intervals[i]];
      }
    }
    assert intervals[..|intervals|] == intervals;
  }

  /** eventCoverage: asked about every group, narrowed to the two Events live in. */
  function EventCoverage(b: Backend, r: Request): CoverageReply {
    var reply := AskCoverage(EventScopeFor(b, r));
    if reply.CoverageFailed? then reply
    else Answered(reply.coverage.(intervals := EventIntervals(reply.coverage.intervals)))
  }

  /** relevantCoverage: the scope the rendered rows came from. */
  function RelevantCoverage(b: Backend, r: Request): CoverageReply {
    if r.eventsOnly then EventCoverage(b, r) else AskCoverage(ScopeFor(b, r))
  }

  // ---------------------------------------------------------------- what a page holds

  datatype Shape = Shape(changes: bool, events: bool)

  predicate SawDeletion(rows: seq<Change>) {
    exists c | c in rows :: c.eventType.Deleted?
  }

  predicate SawEvent(rows: seq<Change>) {
    exists c | c in rows :: IsEvent(c)
  }

  predicate SawChange(rows: seq<Change>) {
    exists c | c in rows :: !IsEvent(c)
  }

  function ShapeOf(rows: seq<Change>): Shape {
    Shape(SawChange(rows), SawEvent(rows))
  }

  // ---------------------------------------------------------------- explaining silence

  /** notices, the finding, and how often the Event scope's coverage was read for them. */
  datatype Explained = Explained(notices: seq<Notice>, finding: Option<Finding>, eventReads: nat)

  function EventsClauseOf(b: Backend, r: Request): (EventsClause, nat) {
    if !IncludesEvents(r) then (NotAsked, 0)
    else
      var reply := EventCoverage(b, r);
      (if reply.CoverageFailed? then CannotBeRead
       else if reply.coverage.gap then NoLogOfEvents
       else if reply.coverage.intervals == [] then TwoGaps
       else OneAbsence(reply.coverage.intervals[0]),
       1)
  }

  function UncoveredNoChanges(b: Backend, r: Request, shape: Shape): Explained {
    if shape.events then Explained([OnSilence(NeverWatched)], None, 0)
    else
      var (clause, spent) := EventsClauseOf(b, r);
      Explained([], Some(NoCoverage(clause)), spent)
  }

  function ExplainNoChanges(b: Backend, r: Request, shape: Shape, coverage: Coverage): (e: Explained)
    ensures forall n | n in e.notices :: n.OnSilence?
    ensures e.finding.Some? <==> !shape.changes && !shape.events && !coverage.gap && coverage.intervals == []
    ensures shape.changes ==> e.notices == []
    ensures !shape.changes && e.finding.None? ==> e.notices != []
    ensures e.eventReads == if e.finding.Some? && IncludesEvents(r) then 1 else 0
  {
    if shape.changes then Explained([], None, 0)
    else if coverage.gap then Explained([OnSilence(CannotSay(shape.events))], None, 0)
    else if coverage.intervals == [] then UncoveredNoChanges(b, r, shape)
    else
      var from, earliest := TimelineBounds(b, r).from, coverage.intervals[0];
      if from.None? || earliest.from > from.value then
        Explained([OnSilence(NotWatchedBefore(shape.events, earliest))], None, 0)
      else Explained([OnSilence(NothingChanged(shape.events, earliest))], None, 0)
  }

  function FlagOf(r: Request): EventFlag {
    if r.eventsOnly then EventsOnlyFlag else if r.withEvents then WithEventsFlag else OwnedFlag
  }

  function ExplainNoEvents(r: Request, reply: CoverageReply): Notice {
    if reply.CoverageFailed? then OnEvents(ScopeUnread(FlagOf(r)))
    else if reply.coverage.gap then OnEvents(NoLog(FlagOf(r)))
    else if reply.coverage.intervals == [] then OnEvents(NoRule(FlagOf(r)))
    else OnEvents(NothingSaid(FlagOf(r), reply.coverage.intervals[0]))
  }

  function NoEventsNotice(r: Request, reply: CoverageReply, interleaved: bool): (o: Option<Notice>)
    ensures o.Some? <==> IncludesEvents(r) && !interleaved
    ensures o.Some? ==> o.value.OnEvents?
  {
    if !IncludesEvents(r) || interleaved then None else Some(ExplainNoEvents(r, reply))
  }

  /** eventsNotice, with its read of the Event scope. */
  function EventsNotice(b: Backend, r: Request, interleaved: bool): (e: Explained)
    ensures e.finding.None? && forall n | n in e.notices :: n.OnEvents?
    ensures e.eventReads == |e.notices| == if IncludesEvents(r) && !interleaved then 1 else 0
  {
    if !IncludesEvents(r) || interleaved then Explained([], None, 0)
    else Explained(Note(NoEventsNotice(r, EventCoverage(b, r), interleaved)), None, 1)
  }

  /** predicateNotice and explainNoMatches: the notice, and whether it accounts for the
      emptiness. */
  function PredicateNotice(b: Backend, r: Request, renderedChange: bool): (p: (Option<Notice>, bool))
    ensures p.1 <==> p.0.Some?
    ensures p.0.Some? ==> p.0.value.OnFilter?
    ensures p.1 <==> Filtered(r) && !renderedChange && (b.probeFails || Rows(b, ProbeOf(b, r)) != [])
  {
    if !Filtered(r) || renderedChange then (None, false)
    else if b.probeFails then (Some(OnFilter(CouldNotBeProbed)), true)
    else if Rows(b, ProbeOf(b, r)) != [] then (Some(OnFilter(MatchedNothing)), true)
    else (None, false)
  }

  function InertNotice(r: Request): (o: Option<Notice>)
    ensures o.Some? ==> o.value.OnQuestion?
  {
    if r.eventsOnly && (r.actors != [] || r.excludeActors != [] || r.fieldPaths != [] || r.allIncarnations)
    then Some(OnQuestion(InertPredicates)) else None
  }

  function DeletionsNotice(b: Backend, sawDeleted: bool): Option<Notice> {
    if b.recordsDeletions || sawDeleted then None else Some(OnDeletions)
  }

  function DisplayFilterNotice(r: Request, scanned: nat, shown: nat): Option<Notice> {
    if r.displayFieldPaths == [] || scanned == shown then None
    else if shown == 0 then Some(OnDisplay(NoneTouchedThePaths(scanned)))
    else Some(OnDisplay(SomeTouchedThePaths(shown, scanned)))
  }

  function PriorValueNotices(b: Backend, r: Request, rows: seq<Change>): (notices: seq<Notice>)
    ensures forall n | n in notices :: n.OnPriorValues?
  {
    if rows == [] || r.noPriorValues then []
    else if Filtered(r) then [OnPriorValues(PriorValuesFiltered)]
    else seq(b.priorValueNotices, i requires 0 <= i < b.priorValueNotices => OnPriorValues(PriorValueNote(i)))
  }

  function OwnershipNotices(b: Backend, r: Request): (notices: seq<Notice>)
    ensures forall n | n in notices :: n.OnQuestion?
  {
    if r.owned && b.ownership.Owned? then
      seq(b.ownership.notices, i requires 0 <= i < b.ownership.notices => OnQuestion(OwnershipNote(i)))
    else []
  }
}
