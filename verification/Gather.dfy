/** The two implementations of one answer: gatherChanges of internal/cli/gather.go, and
    runTimelineStructured of internal/cli/timelinestream.go, which streams. */
module Gather {
  import opened Options
  import opened Query
  import opened Timeline

  datatype Failure = ScanRefused | OwnershipUnsupported | TimelineFailed(uncovered: bool) | ScopeLogUnreadable

  /** A whole answer: the incarnations selected, which the table's header names, the rows
      in display order, the notices in the order they are written, the finding, and how
      often the Event scope was read. */
  datatype Answer =
    | Failed(failure: Failure)
    | Answer(uid: string, incarnations: seq<string>, coverage: Coverage, rows: seq<Change>,
             notices: seq<Notice>, finding: Option<Finding>, eventReads: nat)

  // ---------------------------------------------------------------- the gathered path

  function DisplayRows(rows: seq<Change>, paths: seq<string>): (kept: seq<Change>)
    ensures paths == [] ==> kept == rows
    ensures |kept| <= |rows| && forall c | c in kept :: c in rows
  {
    if paths == [] || rows == [] then rows
    else
      var last := rows[|rows| - 1];
      DisplayRows(rows[..|rows| - 1], paths) + if MatchesFieldPaths(last, paths) then [last] else []
  }

  method KeepDisplayRows(rows: seq<Change>, paths: seq<string>) returns (kept: seq<Change>)
    ensures kept == DisplayRows(rows, paths)
  {
    if paths == [] {
      return rows;
    }
    kept := [];
    for i := 0 to |rows|
      invariant kept == DisplayRows(rows[..i], paths)
    {
      assert rows[..i + 1][..i] == rows[..i];
      if MatchesFieldPaths(rows[i], paths) {
        kept := kept + [rows[i]];
      }
    }
    assert rows[..|rows|] == rows;
  }

  /** The incarnations the rows themselves name, merged Events skipped. */
  function DistinctUIDs(rows: seq<Change>): (uids: seq<string>)
    ensures forall uid :: uid in uids <==> exists c | c in rows :: !IsEvent(c) && c.uid == uid
    ensures forall i, j | 0 <= i < j < |uids| :: uids[i] != uids[j]
  {
    if rows == [] then []
    else
      var last := rows[|rows| - 1];
      assert rows == rows[..|rows| - 1] + [last];
      var uids := DistinctUIDs(rows[..|rows| - 1]);
      if IsEvent(last) || last.uid in uids then uids else uids + [last.uid]
  }

  function FirstObjectUID(rows: seq<Change>): string {
    if rows == [] then "" else if !IsEvent(rows[0]) then rows[0].uid else FirstObjectUID(rows[1..])
  }

  /** The rows as the table lists them: narrowed, then turned over by default. */
  function Shown(r: Request, read: seq<Change>): (shown: seq<Change>)
    ensures |shown| <= |read| && (r.displayFieldPaths == [] ==> |shown| == |read|)
  {
    var kept := DisplayRows(read, r.displayFieldPaths);
    if r.reverse then kept else Reverse(kept)
  }

  function Displayed(b: Backend, r: Request): seq<Change> {
    Shown(r, Rows(b, QueryOf(b, r)))
  }

  function LeadingNotices(b: Backend, r: Request): (notices: seq<Notice>)
    ensures forall n | n in notices :: n.OnQuestion?
  {
    Note(TimelineBounds(b, r).notice) + Note(InertNotice(r)) + ChooseIncarnation(b, r).notices + OwnershipNotices(b, r)
  }

  /** Everything said about a silence once the rows are known: the notices, the finding,
      and the reads of the Event scope that went into them. */
  function AboutSilence(b: Backend, r: Request, shape: Shape, coverage: Coverage, unexplained: bool): (e: Explained)
    ensures forall n | n in e.notices :: n.OnFilter? || n.OnSilence? || n.OnEvents?
    ensures e.finding.Some? || (exists n | n in e.notices :: n.OnSilence?) ==>
              && !r.eventsOnly && !shape.changes && unexplained
              && (Filtered(r) ==> !b.probeFails && Rows(b, ProbeOf(b, r)) == [])
  {
    if r.eventsOnly then
      Explained(Note(NoEventsNotice(r, Answered(coverage), shape.events)), None, 0)
    else
      var (filter, attributed) := PredicateNotice(b, r, shape.changes);
      var empty :=
        if !attributed && unexplained then ExplainNoChanges(b, r, shape, coverage) else Explained([], None, 0);
      var events := if empty.finding.None? then EventsNotice(b, r, shape.events) else Explained([], None, 0);
      Explained(Note(filter) + empty.notices + events.notices, empty.finding, empty.eventReads + events.eventReads)
  }

  /** Everything from the rows and the coverage answer on. */
  function Page(b: Backend, r: Request, choice: Choice, lead: seq<Notice>, read: seq<Change>, coverage: Coverage)
    : Answer
  {
    var shown := Shown(r, read);
    var silence := AboutSilence(b, r, ShapeOf(shown), coverage, shown != [] || read == []);
    Answer(if choice.uid == "" then FirstObjectUID(read) else choice.uid,
           if r.allIncarnations && choice.listed == [] then DistinctUIDs(read) else choice.listed,
           coverage, shown,
           lead + PriorValueNotices(b, r, read)
           + Note(DeletionsNotice(b, SawDeletion(shown))) + Note(DisplayFilterNotice(r, |read|, |shown|))
           + silence.notices,
           silence.finding, silence.eventReads + if r.eventsOnly then 1 else 0)
  }

  /** No question the invocation cannot do without was refused. */
  predicate Answers(b: Backend, r: Request) {
    && !b.scanRefused && !(r.owned && b.ownership.OwnershipRefused?)
    && b.timeline.Served? && RelevantCoverage(b, r).Answered?
  }

  function Gathered(b: Backend, r: Request): Answer {
    if b.scanRefused then Failed(ScanRefused)
    else if r.owned && b.ownership.OwnershipRefused? then Failed(OwnershipUnsupported)
    else if !b.timeline.Served? then Failed(TimelineFailed(b.timeline.Uncovered?))
    else if RelevantCoverage(b, r).CoverageFailed? then Failed(ScopeLogUnreadable)
    else Page(b, r, ChooseIncarnation(b, r), LeadingNotices(b, r), Rows(b, QueryOf(b, r)),
              RelevantCoverage(b, r).coverage)
  }

  /** The gathered path as it runs: notices accumulated, rows narrowed and turned over. */
  method GatherChanges(b: Backend, r: Request) returns (answer: Answer)
    ensures answer == Gathered(b, r)
  {
    var bounds := TimelineBounds(b, r);
    var notices := Note(bounds.notice) + Note(InertNotice(r));
    if b.scanRefused {
      return Failed(ScanRefused);
    }
    var choice := ChooseIncarnation(b, r);
    notices := notices + choice.notices;
    if r.owned && b.ownership.OwnershipRefused? {
      return Failed(OwnershipUnsupported);
    }
    notices := notices + OwnershipNotices(b, r);
    if !b.timeline.Served? {
      return Failed(TimelineFailed(b.timeline.Uncovered?));
    }
    var read := CollectChanges(b, QueryOf(b, r));
    var reply := RelevantCoverage(b, r);
    if reply.CoverageFailed? {
      return Failed(ScopeLogUnreadable);
    }
    answer := LayOut(b, r, choice, notices, read, reply.coverage);
  }

  /** gatherChanges once the backend has answered. */
  method LayOut(b: Backend, r: Request, choice: Choice, lead: seq<Notice>, read: seq<Change>, coverage: Coverage)
    returns (answer: Answer)
    ensures answer == Page(b, r, choice, lead, read, coverage)
  {
    var notices := lead;
    var incarnations := choice.listed;
    if r.allIncarnations && incarnations == [] {
      incarnations := DistinctUIDs(read);
    }
    var uid := choice.uid;
    if uid == "" {
      uid := FirstObjectUID(read);
    }
    notices := notices + PriorValueNotices(b, r, read);
    var rows := KeepDisplayRows(read, r.displayFieldPaths);
    if !r.reverse {
      rows := Reverse(rows);
    }
    notices := notices + Note(DeletionsNotice(b, SawDeletion(rows)));
    notices := notices + Note(DisplayFilterNotice(r, |read|, |rows|));
    var silence := ExplainGathered(b, r, ShapeOf(rows), coverage, |rows|, |read|);
    return Answer(uid, incarnations, coverage, rows, notices + silence.notices, silence.finding,
                  silence.eventReads + if r.eventsOnly then 1 else 0);
  }

  /** gatherChanges from the shape on. */
  method ExplainGathered(b: Backend, r: Request, shape: Shape, coverage: Coverage, shown: nat, scanned: nat)
    returns (silence: Explained)
    ensures silence == AboutSilence(b, r, shape, coverage, shown > 0 || scanned == 0)
  {
    if r.eventsOnly {
      return Explained(Note(NoEventsNotice(r, Answered(coverage), shape.events)), None, 0);
    }
    var (filter, attributed) := PredicateNotice(b, r, shape.changes);
    var notices := Note(filter);
    var finding: Option<Finding>, spent := None, 0;
    if !attributed && (shown > 0 || scanned == 0) {
      var empty := ExplainNoChanges(b, r, shape, coverage);
      notices, finding, spent := notices + empty.notices, empty.finding, empty.eventReads;
    }
    if finding.None? {
      var events := EventsNotice(b, r, shape.events);
      notices, spent := notices + events.notices, spent + events.eventReads;
    }
    return Explained(notices, finding, spent);
  }

  // ---------------------------------------------------------------- the streaming path

  /** What a streamed answer turned out to have been, once it is gone. */
  datatype Emission = Emission(items: nat, sawDeleted: bool, sawEvent: bool, sawChange: bool)

  function Observe(e: Emission, c: Change): Emission {
    match c.eventType
    case Deleted => e.(sawDeleted := true, sawChange := true)
    case KubernetesEvent => e.(sawEvent := true)
    case _ => e.(sawChange := true)
  }

  predicate HoldForDisplayOrder(r: Request) {
    !r.reverse && r.limit > 0
  }

  function StreamQuery(b: Backend, r: Request): TimelineQuery {
    if HoldForDisplayOrder(r) then QueryOf(b, r) else QueryOf(b, r).(reverse := r.reverse)
  }

  function Streamed(b: Backend, r: Request): seq<Change> {
    var rows := Rows(b, StreamQuery(b, r));
    if HoldForDisplayOrder(r) then Reverse(rows) else rows
  }

  /** The emission loop over the cursor, then the write-out of what was held back.
      peak is the most rows ever held at once. */
  method EmitChanges(cursor: seq<Change>, hold: bool) returns (written: seq<Change>, emitted: Emission, peak: nat)
    ensures written == if hold then Reverse(cursor) else cursor
    ensures emitted == Emission(|written|, SawDeletion(written), SawEvent(written), SawChange(written))
    ensures peak == if hold then |cursor| else 0
  {
    var held: seq<Change> := [];
    written, peak := [], 0;
    emitted := Emission(0, false, false, false);
    for i := 0 to |cursor|
      invariant held == if hold then cursor[..i] else []
      invariant written == if hold then [] else cursor[..i]
      invariant peak == |held|
      invariant emitted == Emission(|written|, SawDeletion(cursor[..i]), SawEvent(cursor[..i]), SawChange(cursor[..i]))
    {
      var change := cursor[i];
      assert cursor[..i + 1] == cursor[..i] + [change];
      SawOneMore(cursor[..i], change);
      emitted := Observe(emitted, change);
      if hold {
        held := held + [change];
        peak := |held|;
      } else {
        written := written + [change];
        emitted := emitted.(items := emitted.items + 1);
      }
    }
    assert cursor[..|cursor|] == cursor;
    held := Reverse(held);
    for i := 0 to |held|
      invariant written == if hold then held[..i] else cursor
      invariant emitted == Emission(|written|, SawDeletion(cursor), SawEvent(cursor), SawChange(cursor))
    {
      written := written + [held[i]];
      emitted := emitted.(items := emitted.items + 1);
    }
    SameMembersSameShape(cursor, written);
  }

  lemma SawOneMore(rows: seq<Change>, c: Change)
    ensures SawDeletion(rows + [c]) == (SawDeletion(rows) || c.eventType.Deleted?)
    ensures SawEvent(rows + [c]) == (SawEvent(rows) || IsEvent(c))
    ensures SawChange(rows + [c]) == (SawChange(rows) || !IsEvent(c))
  {
    assert forall x :: x in rows + [c] <==> x in rows || x == c;
    assert c in rows + [c];
  }

  lemma SameMembersSameShape(rows: seq<Change>, other: seq<Change>)
    requires other == rows || other == Reverse(rows)
    ensures SawDeletion(other) == SawDeletion(rows) && ShapeOf(other) == ShapeOf(rows)
  {
    ReverseKeepsMembers(rows);
  }

  /** Everything from the written rows on. */
  function StreamedPage(
    b: Backend, r: Request, choice: Choice, lead: seq<Notice>, written: seq<Change>, coverage: Coverage): Answer
  {
    var silence := AboutSilence(b, r, ShapeOf(written), coverage, true);
    Answer(choice.uid, choice.listed, coverage, written,
           lead + Note(DeletionsNotice(b, SawDeletion(written))) + silence.notices,
           silence.finding, silence.eventReads + if r.eventsOnly then 1 else 0)
  }

  function StreamedAnswer(b: Backend, r: Request): Answer {
    if b.scanRefused then Failed(ScanRefused)
    else if r.owned && b.ownership.OwnershipRefused? then Failed(OwnershipUnsupported)
    else if RelevantCoverage(b, r).CoverageFailed? then Failed(ScopeLogUnreadable)
    else if !b.timeline.Served? then Failed(TimelineFailed(b.timeline.Uncovered?))
    else StreamedPage(b, r, ChooseIncarnation(b, r), LeadingNotices(b, r), Streamed(b, r),
                      RelevantCoverage(b, r).coverage)
  }

  /** The streaming path as it runs: the explanations are asked for between the emission
      and the notices, and written after the document. */
  method RunTimelineStructured(b: Backend, r: Request) returns (answer: Answer)
    ensures answer == StreamedAnswer(b, r)
  {
    var bounds := TimelineBounds(b, r);
    var notices := Note(bounds.notice) + Note(InertNotice(r));
    if b.scanRefused {
      return Failed(ScanRefused);
    }
    var choice := ChooseIncarnation(b, r);
    notices := notices + choice.notices;
    if r.owned && b.ownership.OwnershipRefused? {
      return Failed(OwnershipUnsupported);
    }
    notices := notices + OwnershipNotices(b, r);
    var reply := RelevantCoverage(b, r);
    if reply.CoverageFailed? {
      return Failed(ScopeLogUnreadable);
    }
    if !b.timeline.Served? {
      return Failed(TimelineFailed(b.timeline.Uncovered?));
    }
    var written, emitted, peak := EmitChanges(Rows(b, StreamQuery(b, r)), HoldForDisplayOrder(r));
    var silence := ExplainStreamed(b, r, emitted, reply.coverage);
    notices := notices + Note(DeletionsNotice(b, emitted.sawDeleted)) + silence.notices;
    return Answer(choice.uid, choice.listed, reply.coverage, written, notices, silence.finding,
                  silence.eventReads + if r.eventsOnly then 1 else 0);
  }

  /** runTimelineStructured's switch, from the flags the emission kept. */
  method ExplainStreamed(b: Backend, r: Request, emitted: Emission, coverage: Coverage) returns (silence: Explained)
    ensures silence == AboutSilence(b, r, Shape(emitted.sawChange, emitted.sawEvent), coverage, true)
  {
    var filter: Option<Notice>, attributed := None, false;
    var empty, events := Explained([], None, 0), Explained([], None, 0);
    if r.eventsOnly {
      events := Explained(Note(NoEventsNotice(r, Answered(coverage), emitted.sawEvent)), None, 0);
    } else {
      var probed := PredicateNotice(b, r, emitted.sawChange);
      filter, attributed := probed.0, probed.1;
      if !attributed {
        empty := ExplainNoChanges(b, r, Shape(emitted.sawChange, emitted.sawEvent), coverage);
      }
      if empty.finding.None? {
        events := EventsNotice(b, r, emitted.sawEvent);
      }
    }
    return Explained(Note(filter) + empty.notices + events.notices, empty.finding,
                     empty.eventReads + events.eventReads);
  }
}
