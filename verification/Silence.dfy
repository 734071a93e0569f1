/** What the two paths promise together, and which reason every answer gives for a
    silence. Whether the reason is true is the next module's question. */
module Silence {
  import opened Options
  import opened Query
  import opened Timeline
  import opened Gather

  // ---------------------------------------------------------------- one answer, two paths

  /** With nothing set aside for display, the page is the newest N of what the query
      selects from history, in display order. */
  lemma PageIsTheNewest(b: Backend, r: Request)
    requires r.displayFieldPaths == []
    ensures var page := Newest(Selected(b.history, b.newest, QueryOf(b, r)), r.limit);
            Displayed(b, r) == if r.reverse then Reverse(page) else page
  {
    var selected := Selected(b.history, b.newest, QueryOf(b, r));
    ReversedTakeIsNewest(selected, r.limit);
    ReverseTwice(Take(Reverse(selected), r.limit));
  }

  /** Read in time order: no selected change left off the page is newer than one on it. */
  lemma NothingNewerIsLeftOut(b: Backend, r: Request, shown: Change, left: Change)
    requires r.displayFieldPaths == [] && Ordered(b.history)
    requires shown in Displayed(b, r) && left !in Displayed(b, r)
    requires left in b.history && Selects(QueryOf(b, r), b.newest, left)
    ensures left.ts <= shown.ts
  {
    var q := QueryOf(b, r);
    var selected := Selected(b.history, b.newest, q);
    SelectedIsOrdered(b.history, b.newest, q);
    SelectedMembers(b.history, b.newest, q);
    PageMembers(b, r);
    NewestLeavesTheOldest(selected, r.limit, shown, left);
  }

  lemma NewestLeavesTheOldest(selected: seq<Change>, limit: nat, shown: Change, left: Change)
    requires Ordered(selected) && shown in Newest(selected, limit)
    requires left in selected && left !in Newest(selected, limit)
    ensures left.ts <= shown.ts
  {
    SuffixIsNewer(selected, Newest(selected, limit), shown, left);
  }

  lemma PageMembers(b: Backend, r: Request)
    requires r.displayFieldPaths == []
    ensures forall c :: c in Displayed(b, r) <==> c in Newest(Selected(b.history, b.newest, QueryOf(b, r)), r.limit)
  {
    PageIsTheNewest(b, r);
    ReverseKeepsMembers(Newest(Selected(b.history, b.newest, QueryOf(b, r)), r.limit));
  }

  lemma SuffixIsNewer(all: seq<Change>, page: seq<Change>, shown: Change, left: Change)
    requires Ordered(all) && |page| <= |all| && page == all[|all| - |page|..]
    requires shown in page && left in all && left !in page
    ensures left.ts <= shown.ts
  {
    var cut := |all| - |page|;
    var i :| 0 <= i < |all| && all[i] == left;
    var j :| 0 <= j < |page| && page[j] == shown;
    assert forall k | cut <= k < |all| :: all[k] == page[k - cut];
    assert page[j] == all[cut + j];
  }

  /** The streaming path writes the row sequence the gathered path displays, and holds
      back no more than the limit while doing so. */
  lemma StreamWritesThePage(b: Backend, r: Request)
    requires r.displayFieldPaths == []
    ensures Streamed(b, r) == Displayed(b, r)
    ensures HoldForDisplayOrder(r) ==> |Rows(b, StreamQuery(b, r))| <= r.limit
    ensures r.limit == 0 || r.reverse ==> !HoldForDisplayOrder(r)
  {
    var selected := Selected(b.history, b.newest, QueryOf(b, r));
    SelectedCongruent(b.history, b.newest, QueryOf(b, r), b.newest, StreamQuery(b, r));
    if !HoldForDisplayOrder(r) && !r.reverse {
      assert Take(Reverse(selected), 0) == Reverse(selected);
      ReverseTwice(selected);
    }
  }

  function WithoutPriorValues(notices: seq<Notice>): seq<Notice> {
    if notices == [] then []
    else
      WithoutPriorValues(notices[..|notices| - 1])
      + if notices[|notices| - 1].OnPriorValues? then [] else [notices[|notices| - 1]]
  }

  lemma {:induction false} WithoutOfConcat(a: seq<Notice>, c: seq<Notice>)
    ensures WithoutPriorValues(a + c) == WithoutPriorValues(a) + WithoutPriorValues(c)
  {
    if c == [] {
      assert a + c == a;
    } else {
      assert (a + c)[..|a + c| - 1] == a + c[..|c| - 1];
      WithoutOfConcat(a, c[..|c| - 1]);
    }
  }

  lemma {:induction false} WithoutOfOthers(notices: seq<Notice>)
    requires forall n | n in notices :: !n.OnPriorValues?
    ensures WithoutPriorValues(notices) == notices
  {
    if notices != [] {
      assert notices[|notices| - 1] in notices;
      WithoutOfOthers(notices[..|notices| - 1]);
    }
  }

  lemma {:induction false} WithoutOfPriorValues(notices: seq<Notice>)
    requires forall n | n in notices :: n.OnPriorValues?
    ensures WithoutPriorValues(notices) == []
  {
    if notices != [] {
      assert notices[|notices| - 1] in notices;
      WithoutOfPriorValues(notices[..|notices| - 1]);
    }
  }

  lemma OnlyTheReplayIsDropped(lead: seq<Notice>, prior: seq<Notice>, deleted: seq<Notice>, silence: seq<Notice>)
    requires forall n | n in prior :: n.OnPriorValues?
    requires forall n | n in lead :: !n.OnPriorValues?
    requires forall n | n in deleted :: !n.OnPriorValues?
    requires forall n | n in silence :: !n.OnPriorValues?
    ensures WithoutPriorValues(lead + prior + deleted + [] + silence) == lead + deleted + silence
  {
    assert lead + prior + deleted + [] == lead + prior + deleted;
    WithoutOfConcat(lead + prior + deleted, silence);
    WithoutOfConcat(lead + prior, deleted);
    WithoutOfConcat(lead, prior);
    WithoutOfOthers(lead);
    WithoutOfPriorValues(prior);
    WithoutOfOthers(deleted);
    WithoutOfOthers(silence);
    assert lead + [] == lead;
  }

  lemma PagesAgree(
    b: Backend, r: Request, choice: Choice, lead: seq<Notice>, read: seq<Change>, coverage: Coverage)
    requires r.displayFieldPaths == [] && forall n | n in lead :: n.OnQuestion?
    ensures var page := Page(b, r, choice, lead, read, coverage);
            var streamed := StreamedPage(b, r, choice, lead, Shown(r, read), coverage);
            && streamed.rows == page.rows && streamed.finding == page.finding
            && streamed.eventReads == page.eventReads && streamed.notices == WithoutPriorValues(page.notices)
  {
    var shown := Shown(r, read);
    assert shown != [] || read == [];
    OnlyTheReplayIsDropped(lead, PriorValueNotices(b, r, read), Note(DeletionsNotice(b, SawDeletion(shown))),
                           AboutSilence(b, r, ShapeOf(shown), coverage, true).notices);
  }

  /** For every timeline request and the same backend answers, the two paths fail
      together or give the same rows, the same coverage, the same finding, the same reads
      of the Event scope, and the same notices in the same order - minus the notes the
      prior-value replay adds to the table. */
  lemma TwoPathsOneAnswer(b: Backend, r: Request)
    requires r.displayFieldPaths == []
    ensures var gathered, streamed := Gathered(b, r), StreamedAnswer(b, r);
            && (gathered.Answer? <==> Answers(b, r)) && (streamed.Answer? <==> Answers(b, r))
            && (gathered.Answer? ==>
                  && streamed.rows == gathered.rows
                  && streamed.coverage == gathered.coverage
                  && streamed.finding == gathered.finding
                  && streamed.eventReads == gathered.eventReads
                  && streamed.notices == WithoutPriorValues(gathered.notices))
  {
    if Gathered(b, r).Answer? {
      StreamWritesThePage(b, r);
      PagesAgree(b, r, ChooseIncarnation(b, r), LeadingNotices(b, r), Rows(b, QueryOf(b, r)),
                 RelevantCoverage(b, r).coverage);
    }
  }

  /** The failure is the same too, unless the timeline query and the scope log both fail:
      then each path reports the one it asked first. */
  lemma TwoPathsOneFailure(b: Backend, r: Request)
    requires Gathered(b, r).Failed?
    ensures StreamedAnswer(b, r) == Gathered(b, r) <==>
            || b.scanRefused || (r.owned && b.ownership.OwnershipRefused?)
            || b.timeline.Served? || RelevantCoverage(b, r).Answered?
  {
  }

  /** Both select the same incarnations. The table's header goes on to fall back on its
      rows; the stream's envelope names no incarnation. */
  lemma TwoPathsOneSelection(b: Backend, r: Request)
    requires Answers(b, r)
    ensures var gathered, streamed, read := Gathered(b, r), StreamedAnswer(b, r), Rows(b, QueryOf(b, r));
            && gathered.uid == (if streamed.uid == "" then FirstObjectUID(read) else streamed.uid)
            && gathered.incarnations
               == if r.allIncarnations && streamed.incarnations == [] then DistinctUIDs(read) else streamed.incarnations
  {
  }

  // ---------------------------------------------------------------- which object the page is about

  lemma {:induction false} FirstObjectNamesThemAll(rows: seq<Change>, uid: string)
    requires forall c | c in rows :: !IsEvent(c) ==> c.uid == uid
    ensures SawChange(rows) ==> FirstObjectUID(rows) == uid
  {
    if rows != [] {
      assert rows[0] in rows;
      FirstObjectNamesThemAll(rows[1..], uid);
      assert rows == [rows[0]] + rows[1..];
    }
  }

  lemma DisplayedWereRead(b: Backend, r: Request)
    ensures forall c | c in Displayed(b, r) :: c in Rows(b, QueryOf(b, r))
  {
    ReverseKeepsMembers(DisplayRows(Rows(b, QueryOf(b, r)), r.displayFieldPaths));
  }

  lemma ReadWereSelected(b: Backend, q: TimelineQuery)
    ensures forall c | c in Rows(b, q) :: c in b.history && Selects(q, b.newest, c)
  {
    SelectedMembers(b.history, b.newest, q);
    ReverseKeepsMembers(Selected(b.history, b.newest, q));
  }

  /** Unless every incarnation was asked for, every row about the object carries the UID
      the header names - whether the incarnations were listed, were none, or could not
      be listed at all. */
  lemma HeaderNamesTheRows(b: Backend, r: Request)
    requires !r.allIncarnations && Answers(b, r)
    ensures forall c | c in Gathered(b, r).rows && !IsEvent(c) :: c.uid == Gathered(b, r).uid
  {
    var q, read := QueryOf(b, r), Rows(b, QueryOf(b, r));
    DisplayedWereRead(b, r);
    ReadWereSelected(b, q);
    FirstObjectNamesThemAll(read, if q.uid != "" then q.uid else b.newest);
    OneUID(b, r);
  }

  /** The incarnation the answer is about: the header's, or the engine's own choice when the
      header names none. */
  function ShownUID(b: Backend, r: Request): string {
    if Gathered(b, r).Answer? && Gathered(b, r).uid != "" then Gathered(b, r).uid else b.newest
  }

  lemma ShownIsQueried(b: Backend, r: Request)
    requires Answers(b, r) && !r.allIncarnations && !r.eventsOnly
    ensures ShownUID(b, r) == if QueryOf(b, r).uid != "" then QueryOf(b, r).uid else b.newest
  {
    var q, read := QueryOf(b, r), Rows(b, QueryOf(b, r));
    ReadWereSelected(b, q);
    OneUID(b, r);
    FirstObjectNamesThemAll(read, if q.uid != "" then q.uid else b.newest);
    NoObjectNoUID(read);
  }

  lemma {:induction false} NoObjectNoUID(rows: seq<Change>)
    ensures !SawChange(rows) ==> FirstObjectUID(rows) == ""
  {
    if rows != [] {
      assert rows == [rows[0]] + rows[1..];
      NoObjectNoUID(rows[1..]);
    }
  }

  /** A successful listing with no --uid names its maximum by first seen, then last seen. */
  lemma HeaderNamesTheNewest(b: Backend, r: Request, newest: Incarnation)
    requires Answers(b, r) && !r.eventsOnly && r.uid == "" && b.incarnations.Listed?
    requires NamedNewest(b.incarnations.incarnations, newest)
    ensures exists x :: NamedNewest(b.incarnations.incarnations, x) && x.uid == Gathered(b, r).uid
  {
    NamedNewestIsChosen(b.incarnations.incarnations, newest);
    assert ChooseIncarnation(b, r).uid == NewestOf(b.incarnations.incarnations).uid;
  }

  lemma OneUID(b: Backend, r: Request)
    requires !r.allIncarnations
    ensures ChooseIncarnation(b, r).uid == QueryOf(b, r).uid
  {
  }

  // ---------------------------------------------------------------- the finding

  lemma EmptyShape(rows: seq<Change>)
    ensures rows == [] <==> !SawChange(rows) && !SawEvent(rows)
  {
    if rows != [] {
      assert rows[0] in rows;
    }
  }

  /** An answer is the finding exactly when the request is not events-only, no row was
      read, no interval of the object's scope log meets the window, and no predicate can have
      been the cause: none was in force, or the unfiltered probe ran and found nothing. */
  lemma FindingIff(b: Backend, r: Request)
    requires Answers(b, r)
    ensures Gathered(b, r).finding.Some? <==>
            && !r.eventsOnly
            && Rows(b, QueryOf(b, r)) == []
            && ScopeFor(b, r) == Intervals([])
            && (!Filtered(r) || (!b.probeFails && Rows(b, ProbeOf(b, r)) == []))
  {
    var coverage := RelevantCoverage(b, r).coverage;
    PageFindingIff(b, r, ChooseIncarnation(b, r), LeadingNotices(b, r), Rows(b, QueryOf(b, r)), coverage);
    if !r.eventsOnly {
      UnwatchedScope(ScopeFor(b, r));
    }
  }

  /** query.ErrNoCoverage, as the finding or as the engine's own refusal. */
  ghost predicate ExitsUncovered(answer: Answer) {
    if answer.Failed? then answer.failure == TimelineFailed(true) else answer.finding.Some?
  }

  /** Exit code 3 is that finding, or an engine that says so itself. */
  lemma ExitThreeIff(b: Backend, r: Request)
    ensures ExitsUncovered(Gathered(b, r)) <==>
            && !b.scanRefused && !(r.owned && b.ownership.OwnershipRefused?)
            && (b.timeline.Uncovered?
                || (&& b.timeline.Served? && !r.eventsOnly
                    && Rows(b, QueryOf(b, r)) == []
                    && ScopeFor(b, r) == Intervals([])
                    && (!Filtered(r) || (!b.probeFails && Rows(b, ProbeOf(b, r)) == []))))
  {
    if Gathered(b, r).Answer? {
      FindingIff(b, r);
    }
  }

  /** The reply is empty exactly when no interval of the log meets the window. */
  lemma EmptyReplyIff(log: ScopeReply, bounds: Bounds)
    ensures Asked(log, bounds) == Intervals([]) <==>
            log.Intervals? && forall i | i in log.intervals :: !Overlaps(i, bounds.from, bounds.to)
  {
    if log.Intervals? {
      var kept := Overlapping(log.intervals, bounds.from, bounds.to);
      assert kept != [] ==> kept[0] in kept;
    }
  }

  lemma UnwatchedScope(reply: ScopeReply)
    requires AskCoverage(reply).Answered?
    ensures AskCoverage(reply).coverage == Coverage([], false) <==> reply == Intervals([])
  {
  }

  lemma PageFindingIff(
    b: Backend, r: Request, choice: Choice, lead: seq<Notice>, read: seq<Change>, coverage: Coverage)
    ensures Page(b, r, choice, lead, read, coverage).finding.Some? <==>
            && !r.eventsOnly && read == [] && coverage == Coverage([], false)
            && (!Filtered(r) || (!b.probeFails && Rows(b, ProbeOf(b, r)) == []))
  {
    EmptyShape(Shown(r, read));
  }

  // ---------------------------------------------------------------- which reason is given

  ghost predicate Says(answer: Answer, note: SilenceNote)
    requires answer.Answer?
  {
    OnSilence(note) in answer.notices
  }

  /** The page holds no change of the object, and neither the display filter nor a query
      predicate accounts for it. */
  ghost predicate Unaccounted(b: Backend, r: Request, read: seq<Change>) {
    && !r.eventsOnly && !SawChange(Shown(r, read)) && (Shown(r, read) != [] || read == [])
    && (Filtered(r) ==> !b.probeFails && Rows(b, ProbeOf(b, r)) == [])
  }

  /** The one note an unaccounted silence gets from a scope log, if it gets one. */
  ghost predicate Reason(b: Backend, r: Request, onlyEvents: bool, scope: ScopeReply, note: SilenceNote) {
    match note
    case CannotSay(e) => scope.NoScopeLog? && e == onlyEvents
    case NeverWatched => scope == Intervals([]) && onlyEvents
    case NothingChanged(e, watched) =>
      && scope.Intervals? && scope.intervals != [] && watched == scope.intervals[0] && e == onlyEvents
      && TimelineBounds(b, r).from.Some? && watched.from <= TimelineBounds(b, r).from.value
    case NotWatchedBefore(e, openedBy) =>
      && scope.Intervals? && scope.intervals != [] && openedBy == scope.intervals[0] && e == onlyEvents
      && (TimelineBounds(b, r).from.Some? ==> TimelineBounds(b, r).from.value < openedBy.from)
  }

  /** Each reason is given exactly when the scope log says so: "nothing changed" only with
      a watch open since the window's bounded start, "was not being watched before" only
      when it opened later, "nothing was watching" only from an empty log, and "cannot
      say" only with no log at all. */
  lemma EachReasonIff(b: Backend, r: Request, note: SilenceNote)
    requires Answers(b, r)
    ensures Says(Gathered(b, r), note) <==>
            && Unaccounted(b, r, Rows(b, QueryOf(b, r)))
            && Reason(b, r, SawEvent(Gathered(b, r).rows), ScopeFor(b, r), note)
  {
    PageReasonIff(b, r, ChooseIncarnation(b, r), LeadingNotices(b, r), Rows(b, QueryOf(b, r)),
                  RelevantCoverage(b, r).coverage, note);
  }

  lemma PageReasonIff(
    b: Backend, r: Request, choice: Choice, lead: seq<Notice>, read: seq<Change>, coverage: Coverage, note: SilenceNote)
    requires forall n | n in lead :: n.OnQuestion?
    requires !r.eventsOnly ==> AskCoverage(ScopeFor(b, r)) == Answered(coverage)
    ensures OnSilence(note) in Page(b, r, choice, lead, read, coverage).notices <==>
            Unaccounted(b, r, read) && Reason(b, r, SawEvent(Shown(r, read)), ScopeFor(b, r), note)
  {
    var shown := Shown(r, read);
    var silence := AboutSilence(b, r, ShapeOf(shown), coverage, shown != [] || read == []);
    SilenceIsBrokenLast(lead, PriorValueNotices(b, r, read), Note(DeletionsNotice(b, SawDeletion(shown))),
                        Note(DisplayFilterNotice(r, |read|, |shown|)), silence.notices);
    assert forall n | n in silence.notices :: n in Page(b, r, choice, lead, read, coverage).notices;
    SpokenReasonIff(b, r, ShapeOf(shown), coverage, shown != [] || read == [], note);
    if !r.eventsOnly {
      ReasonFromTheLog(b, r, ShapeOf(shown), coverage, note);
    }
  }

  lemma SpokenReasonIff(
    b: Backend, r: Request, shape: Shape, coverage: Coverage, unexplained: bool, note: SilenceNote)
    ensures OnSilence(note) in AboutSilence(b, r, shape, coverage, unexplained).notices <==>
            && !r.eventsOnly && unexplained
            && (Filtered(r) && !shape.changes ==> !b.probeFails && Rows(b, ProbeOf(b, r)) == [])
            && OnSilence(note) in ExplainNoChanges(b, r, shape, coverage).notices
  {
  }

  lemma ReasonFromTheLog(b: Backend, r: Request, shape: Shape, coverage: Coverage, note: SilenceNote)
    requires AskCoverage(ScopeFor(b, r)) == Answered(coverage)
    ensures OnSilence(note) in ExplainNoChanges(b, r, shape, coverage).notices <==>
            !shape.changes && Reason(b, r, shape.events, ScopeFor(b, r), note)
  {
  }

  lemma SilenceIsBrokenLast(
    lead: seq<Notice>, prior: seq<Notice>, deleted: seq<Notice>, display: seq<Notice>, silence: seq<Notice>)
    requires forall n | n in lead :: !n.OnSilence?
    requires forall n | n in prior :: !n.OnSilence?
    requires forall n | n in deleted :: !n.OnSilence?
    requires forall n | n in display :: !n.OnSilence?
    ensures forall n | n in lead + prior + deleted + display + silence && n.OnSilence? :: n in silence
  {
  }

  /** Under --events-only the answer in hand is the Event scope's own. */
  function EventScopeAsked(b: Backend, r: Request, coverage: Coverage): CoverageReply {
    if r.eventsOnly then Answered(coverage) else EventCoverage(b, r)
  }

  /** A page's notes on the filter and on Events all come from its explanation. */
  lemma PageNotes(
    b: Backend, r: Request, choice: Choice, lead: seq<Notice>, read: seq<Change>, coverage: Coverage, n: Notice)
    requires forall n | n in lead :: n.OnQuestion?
    requires n.OnFilter? || n.OnEvents?
    ensures var g := Page(b, r, choice, lead, read, coverage);
            n in g.notices <==>
            if n.OnFilter? then !r.eventsOnly && PredicateNotice(b, r, SawChange(g.rows)).0 == Some(n)
            else
              && g.finding.None?
              && NoEventsNotice(r, EventScopeAsked(b, r, coverage), SawEvent(g.rows)) == Some(n)
  {
    var shown := Shown(r, read);
    var silence := AboutSilence(b, r, ShapeOf(shown), coverage, shown != [] || read == []);
    OthersComeFirst(lead, PriorValueNotices(b, r, read), Note(DeletionsNotice(b, SawDeletion(shown))),
                    Note(DisplayFilterNotice(r, |read|, |shown|)), silence.notices, n);
    SpokenNotes(b, r, ShapeOf(shown), coverage, shown != [] || read == [], n);
  }

  lemma SpokenNotes(b: Backend, r: Request, shape: Shape, coverage: Coverage, unexplained: bool, n: Notice)
    requires n.OnFilter? || n.OnEvents?
    ensures var silence := AboutSilence(b, r, shape, coverage, unexplained);
            n in silence.notices <==>
            if n.OnFilter? then !r.eventsOnly && PredicateNotice(b, r, shape.changes).0 == Some(n)
            else
              && silence.finding.None?
              && NoEventsNotice(r, EventScopeAsked(b, r, coverage), shape.events) == Some(n)
  {
  }

  lemma OthersComeFirst(
    lead: seq<Notice>, prior: seq<Notice>, deleted: seq<Notice>, display: seq<Notice>, silence: seq<Notice>, n: Notice)
    requires n !in lead && n !in prior && n !in deleted && n !in display
    ensures n in lead + prior + deleted + display + silence <==> n in silence
  {
  }

  /** The Event scope's log holds a watch over one of the two groups Events live in. */
  ghost predicate EventsWatched(scope: ScopeReply) {
    scope.Intervals? && exists interval | interval in scope.intervals :: OfEvents(interval)
  }

  lemma NoneOfEvents(scope: ScopeReply)
    requires scope.Intervals?
    ensures EventIntervals(scope.intervals) == [] <==> !EventsWatched(scope)
  {
    var kept := EventIntervals(scope.intervals);
    assert kept != [] ==> kept[0] in kept;
  }

  /** The first watch in a log over one of the groups Events live in. */
  ghost predicate FirstAt(intervals: seq<Interval>, i: nat) {
    i < |intervals| && OfEvents(intervals[i]) && forall j | 0 <= j < i :: !OfEvents(intervals[j])
  }

  ghost predicate FirstOfEvents(intervals: seq<Interval>, first: Interval) {
    exists i: nat :: FirstAt(intervals, i) && intervals[i] == first
  }

  lemma {:induction false} FirstKept(intervals: seq<Interval>) returns (i: nat)
    requires EventIntervals(intervals) != []
    ensures FirstAt(intervals, i) && intervals[i] == EventIntervals(intervals)[0]
  {
    var init := intervals[..|intervals| - 1];
    assert forall j | 0 <= j < |init| :: init[j] == intervals[j];
    if EventIntervals(init) != [] {
      i := FirstKept(init);
    } else {
      i := |init|;
      assert forall j | 0 <= j < |init| :: init[j] in init;
    }
  }

  ghost predicate EventReason(r: Request, scope: ScopeReply, note: EventNote) {
    && note.flag == FlagOf(r)
    && match note
       case ScopeUnread(_) => scope.ScopeUnreadable?
       case NoLog(_) => scope.NoScopeLog?
       case NoRule(_) => scope.Intervals? && !EventsWatched(scope)
       case NothingSaid(_, recorded) => scope.Intervals? && FirstOfEvents(scope.intervals, recorded)
  }

  /** Why no Event is shown is said exactly when Events were asked for, none is on the
      page and the finding does not already say it; and each reason exactly when the
      Event scope's log gives it: nothing was said, no rule captures Events, no log, or a
      log that could not be read. */
  lemma EachEventReasonIff(b: Backend, r: Request, note: EventNote)
    requires Answers(b, r)
    ensures OnEvents(note) in Gathered(b, r).notices <==>
            && IncludesEvents(r) && !SawEvent(Gathered(b, r).rows) && Gathered(b, r).finding.None?
            && EventReason(r, EventScopeFor(b, r), note)
  {
    PageNotes(b, r, ChooseIncarnation(b, r), LeadingNotices(b, r), Rows(b, QueryOf(b, r)),
              RelevantCoverage(b, r).coverage, OnEvents(note));
    EventReasonFromTheLog(b, r, note);
  }

  lemma EventReasonFromTheLog(b: Backend, r: Request, note: EventNote)
    ensures ExplainNoEvents(r, EventCoverage(b, r)) == OnEvents(note) <==> EventReason(r, EventScopeFor(b, r), note)
  {
    if EventScopeFor(b, r).Intervals? {
      NoneOfEvents(EventScopeFor(b, r));
      if EventsWatched(EventScopeFor(b, r)) {
        var i := FirstKept(EventScopeFor(b, r).intervals);
        if note.NothingSaid? && FirstOfEvents(EventScopeFor(b, r).intervals, note.recorded) {
          FirstIsUnique(EventScopeFor(b, r).intervals, note.recorded, EventIntervals(EventScopeFor(b, r).intervals)[0]);
        }
      }
    }
  }

  lemma FirstIsUnique(intervals: seq<Interval>, x: Interval, y: Interval)
    requires FirstOfEvents(intervals, x) && FirstOfEvents(intervals, y)
    ensures x == y
  {
  }

  /** What the finding adds about Events is what the Event scope's log says: one absence
      exactly when some rule captures them, naming the first watch, and two gaps exactly
      when the log knows of none. */
  lemma ClauseIff(b: Backend, r: Request)
    requires Answers(b, r) && Gathered(b, r).finding.Some?
    ensures var clause := Gathered(b, r).finding.value.events;
            && (clause.NotAsked? <==> !IncludesEvents(r))
            && (IncludesEvents(r) ==>
                  && (clause.CannotBeRead? <==> EventScopeFor(b, r).ScopeUnreadable?)
                  && (clause.NoLogOfEvents? <==> EventScopeFor(b, r).NoScopeLog?)
                  && (clause.OneAbsence? <==> EventsWatched(EventScopeFor(b, r)))
                  && (clause.OneAbsence? ==> FirstOfEvents(EventScopeFor(b, r).intervals, clause.recorded)))
  {
    PageFindingIff(b, r, ChooseIncarnation(b, r), LeadingNotices(b, r), Rows(b, QueryOf(b, r)),
                   RelevantCoverage(b, r).coverage);
    PageClause(b, r, ChooseIncarnation(b, r), LeadingNotices(b, r), Rows(b, QueryOf(b, r)),
               RelevantCoverage(b, r).coverage);
    ClauseFromTheLog(b, r);
  }

  lemma ClauseFromTheLog(b: Backend, r: Request)
    ensures var clause := EventsClauseOf(b, r).0;
            && (clause.OneAbsence? <==> IncludesEvents(r) && EventsWatched(EventScopeFor(b, r)))
            && (clause.OneAbsence? ==> FirstOfEvents(EventScopeFor(b, r).intervals, clause.recorded))
  {
    if EventScopeFor(b, r).Intervals? {
      NoneOfEvents(EventScopeFor(b, r));
      if EventsWatched(EventScopeFor(b, r)) {
        var i := FirstKept(EventScopeFor(b, r).intervals);
      }
    }
  }

  lemma PageClause(
    b: Backend, r: Request, choice: Choice, lead: seq<Notice>, read: seq<Change>, coverage: Coverage)
    requires Page(b, r, choice, lead, read, coverage).finding.Some?
    ensures Page(b, r, choice, lead, read, coverage).finding == Some(NoCoverage(EventsClauseOf(b, r).0))
  {
  }

  // ---------------------------------------------------------------- no silence without a reason

  /** An answer with none of what was asked for carries a notice or the finding saying
      why: about the predicates, the display filter, or the object's own scope - and,
      under --events-only, about the Events. */
  lemma EverySilenceIsExplained(b: Backend, r: Request)
    requires Answers(b, r)
    ensures var g := Gathered(b, r);
            && (!r.eventsOnly && !SawChange(g.rows) ==>
                  g.finding.Some? || exists n | n in g.notices :: n.OnSilence? || n.OnFilter? || n.OnDisplay?)
            && (r.eventsOnly && !SawEvent(g.rows) ==> exists n | n in g.notices :: n.OnEvents?)
  {
    PageExplainsItself(b, r, ChooseIncarnation(b, r), LeadingNotices(b, r), Rows(b, QueryOf(b, r)),
                       RelevantCoverage(b, r).coverage);
  }

  lemma PageExplainsItself(
    b: Backend, r: Request, choice: Choice, lead: seq<Notice>, read: seq<Change>, coverage: Coverage)
    ensures var g := Page(b, r, choice, lead, read, coverage);
            && (!r.eventsOnly && !SawChange(g.rows) ==>
                  g.finding.Some? || exists n | n in g.notices :: n.OnSilence? || n.OnFilter? || n.OnDisplay?)
            && (r.eventsOnly && !SawEvent(g.rows) ==> exists n | n in g.notices :: n.OnEvents?)
  {
    var shown := Shown(r, read);
    var unexplained := shown != [] || read == [];
    var silence := AboutSilence(b, r, ShapeOf(shown), coverage, unexplained);
    var display := Note(DisplayFilterNotice(r, |read|, |shown|));
    SilenceSpeaks(b, r, ShapeOf(shown), coverage, unexplained);
    var g := Page(b, r, choice, lead, read, coverage);
    assert forall n | n in silence.notices :: n in g.notices;
    assert forall n | n in display :: n in g.notices;
    if !unexplained {
      assert OnDisplay(NoneTouchedThePaths(|read|)) in display;
    }
  }

  lemma SilenceSpeaks(b: Backend, r: Request, shape: Shape, coverage: Coverage, unexplained: bool)
    ensures var e := AboutSilence(b, r, shape, coverage, unexplained);
            && (!r.eventsOnly && !shape.changes && unexplained ==>
                  e.finding.Some? || exists n | n in e.notices :: n.OnSilence? || n.OnFilter?)
            && (r.eventsOnly && !shape.events ==> exists n | n in e.notices :: n.OnEvents?)
  {
    var e := AboutSilence(b, r, shape, coverage, unexplained);
    if r.eventsOnly {
      if !shape.events {
        assert NoEventsNotice(r, Answered(coverage), false).value in e.notices;
      }
    } else {
      var (filter, attributed) := PredicateNotice(b, r, shape.changes);
      var empty := ExplainNoChanges(b, r, shape, coverage);
      if attributed {
        assert filter.value in e.notices;
      } else if !shape.changes && unexplained && empty.finding.None? {
        assert empty.notices[0] in empty.notices;
        assert empty.notices[0] in e.notices;
      }
    }
  }

  /** One invocation reads the Event scope's coverage at most once: exactly when an Event
      flag was given and the page leaves the Event question open. */
  lemma EventScopeReadOnce(b: Backend, r: Request)
    requires Answers(b, r)
    ensures var g := Gathered(b, r);
            g.eventReads == if IncludesEvents(r) && (r.eventsOnly || !SawEvent(g.rows)) then 1 else 0
  {
    PageReadsOnce(b, r, ChooseIncarnation(b, r), LeadingNotices(b, r), Rows(b, QueryOf(b, r)),
                  RelevantCoverage(b, r).coverage);
  }

  lemma PageReadsOnce(
    b: Backend, r: Request, choice: Choice, lead: seq<Notice>, read: seq<Change>, coverage: Coverage)
    ensures var g := Page(b, r, choice, lead, read, coverage);
            g.eventReads == if IncludesEvents(r) && (r.eventsOnly || !SawEvent(g.rows)) then 1 else 0
  {
  }
}
