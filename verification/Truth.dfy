/** What an answer says about the window, held against what history holds. Four sentences
    - none of the object's changes is recorded in it, the filter matched none, no Event is
    recorded in it, none of its changes touched the paths - are about the window but are
    decided from the page: each is true on a page the limit did not fill, and for each the
    requests are given for which it is true over every backend. What the first and the
    third go on to say about an interval they name, or about all time, is not about the
    window, and is the next module's question. */
module Truth {
  import opened Options
  import opened Query
  import opened Timeline
  import opened Gather
  import opened Silence

  // ---------------------------------------------------------------- the object's own changes

  /** The answer says that none of the object's own changes is recorded in the window. */
  ghost predicate ClaimsNoChange(answer: Answer) {
    answer.Answer? && (answer.finding.Some? || exists n | n in answer.notices :: n.OnSilence?)
  }

  /** The unfiltered window of the incarnation shown holds no object change. */
  ghost predicate WindowIsQuiet(b: Backend, r: Request) {
    forall c | c in b.history :: !OwnRow(QueryOf(b, r), b.newest, c)
  }

  /** The claim is made only by explainNoChanges, over a page without an object change,
      after the predicates have been cleared of it. */
  lemma ClaimNeedsAnUnattributedPage(
    b: Backend, r: Request, choice: Choice, lead: seq<Notice>, read: seq<Change>, coverage: Coverage)
    requires forall n | n in lead :: n.OnQuestion?
    requires ClaimsNoChange(Page(b, r, choice, lead, read, coverage))
    ensures !r.eventsOnly && !SawChange(Shown(r, read)) && (Shown(r, read) != [] || read == [])
    ensures Filtered(r) ==> !b.probeFails && Rows(b, ProbeOf(b, r)) == []
  {
    var shown := Shown(r, read);
    var silence := AboutSilence(b, r, ShapeOf(shown), coverage, shown != [] || read == []);
    SilenceIsBrokenLast(lead, PriorValueNotices(b, r, read), Note(DeletionsNotice(b, SawDeletion(shown))),
                        Note(DisplayFilterNotice(r, |read|, |shown|)), silence.notices);
  }

  /** The probe comes back empty exactly when the unfiltered window is quiet. */
  lemma ProbeSeesEverything(b: Backend, r: Request)
    ensures Rows(b, ProbeOf(b, r)) == [] <==> WindowIsQuiet(b, r)
  {
    var q, probe := QueryOf(b, r), ProbeOf(b, r);
    var selected := Selected(b.history, b.newest, probe);
    SelectedMembers(b.history, b.newest, probe);
    TakeKeepsSome(Reverse(selected), 1);
    assert forall c :: OwnRow(q, b.newest, c) <==> Selects(probe, b.newest, c);
    assert selected != [] ==> selected[0] in selected;
  }

  /** The row limit was not reached, so the page holds everything the query selects. */
  predicate LimitNotFilled(b: Backend, r: Request) {
    r.limit == 0 || |Rows(b, QueryOf(b, r))| < r.limit
  }

  lemma UnfilledPageHoldsEverything(b: Backend, r: Request)
    requires LimitNotFilled(b, r)
    ensures forall c :: c in Rows(b, QueryOf(b, r)) <==> c in b.history && Selects(QueryOf(b, r), b.newest, c)
  {
    var selected := Selected(b.history, b.newest, QueryOf(b, r));
    SelectedMembers(b.history, b.newest, QueryOf(b, r));
    TakeKeepsSome(Reverse(selected), r.limit);
    ReverseKeepsMembers(selected);
  }

  /** The window half of every coverage explanation: whenever one is given and the limit
      was not filled, the window really holds no change of the incarnation shown. */
  lemma ExplanationIsSound(b: Backend, r: Request)
    requires BuiltByACommand(r) && LimitNotFilled(b, r)
    requires ClaimsNoChange(Gathered(b, r))
    ensures WindowIsQuiet(b, r)
  {
    ClaimNeedsAnUnattributedPage(b, r, ChooseIncarnation(b, r), LeadingNotices(b, r), Rows(b, QueryOf(b, r)),
                                 RelevantCoverage(b, r).coverage);
    if Filtered(r) {
      ProbeSeesEverything(b, r);
    } else {
      UnfilledPageHoldsEverything(b, r);
      QuietWhenNothingIsOnThePage(b, r);
    }
  }

  lemma QuietWhenNothingIsOnThePage(b: Backend, r: Request)
    requires BuiltByACommand(r) && !r.eventsOnly && !Filtered(r)
    requires forall c :: c in Rows(b, QueryOf(b, r)) <==> c in b.history && Selects(QueryOf(b, r), b.newest, c)
    requires !SawChange(Displayed(b, r)) && (Displayed(b, r) != [] || Rows(b, QueryOf(b, r)) == [])
    ensures WindowIsQuiet(b, r)
  {
    var q, read, shown := QueryOf(b, r), Rows(b, QueryOf(b, r)), Displayed(b, r);
    DisplayedWereRead(b, r);
    EmptyShape(shown);
    ReverseKeepsMembers(read);
    assert r.displayFieldPaths != [] ==> forall c | c in read :: !IsEvent(c);
    assert forall c | c in read :: IsEvent(c);
    forall c | c in b.history
      ensures !OwnRow(q, b.newest, c)
    {
      assert OwnRow(q, b.newest, c) ==> Selects(q, b.newest, c);
    }
  }

  lemma ClaimIsSound(b: Backend, r: Request)
    requires BuiltByACommand(r) && ClaimsNoChange(Gathered(b, r))
    requires r.eventsOnly || !IncludesEvents(r) || r.limit == 0 || Filtered(r)
    ensures WindowIsQuiet(b, r)
  {
    var read := Rows(b, QueryOf(b, r));
    ClaimNeedsAnUnattributedPage(b, r, ChooseIncarnation(b, r), LeadingNotices(b, r), read,
                                 RelevantCoverage(b, r).coverage);
    if Filtered(r) {
      ProbeSeesEverything(b, r);
    } else {
      ReadWereSelected(b, QueryOf(b, r));
      DisplayedWereRead(b, r);
      EmptyShape(Displayed(b, r));
      assert !IncludesEvents(r) ==> read == [];
      UnfilledPageHoldsEverything(b, r);
      QuietWhenNothingIsOnThePage(b, r);
    }
  }

  // ---------------------------------------------------------------- the filter

  /** When the filter is named as the cause: it is in force, the page shows no change of
      the object, and the unfiltered window holds one - or could not be asked. */
  lemma FilterIsBlamedIff(b: Backend, r: Request)
    requires Answers(b, r)
    ensures OnFilter(MatchedNothing) in Gathered(b, r).notices <==>
            Filtered(r) && !SawChange(Gathered(b, r).rows) && !b.probeFails && !WindowIsQuiet(b, r)
    ensures OnFilter(CouldNotBeProbed) in Gathered(b, r).notices <==>
            Filtered(r) && !SawChange(Gathered(b, r).rows) && b.probeFails
  {
    ProbeSeesEverything(b, r);
    forall note: FilterNote
      ensures OnFilter(note) in Gathered(b, r).notices
              <==> PredicateNotice(b, r, SawChange(Gathered(b, r).rows)).0 == Some(OnFilter(note))
    {
      PageNotes(b, r, ChooseIncarnation(b, r), LeadingNotices(b, r), Rows(b, QueryOf(b, r)),
                RelevantCoverage(b, r).coverage, OnFilter(note));
    }
  }

  /** The answer says that the predicates matched none of the object's changes. */
  ghost predicate ClaimsNoMatch(answer: Answer) {
    answer.Answer? && exists n | n in answer.notices :: n.OnFilter?
  }

  /** No change in history is one the query selects. */
  ghost predicate NothingMatches(b: Backend, r: Request) {
    forall c | c in b.history && Selects(QueryOf(b, r), b.newest, c) :: IsEvent(c)
  }

  /** Only timeline narrows its query; diff and blame, which narrow what they show, have
      no predicate to name. */
  predicate OnlyTimelineFilters(r: Request) {
    r.displayFieldPaths == [] || !Filtered(r)
  }

  /** Some actor can pass the two actor predicates; if none can, no change ever matches. */
  predicate SomeoneMatches(r: Request) {
    r.actors == [] || exists actor | actor in r.actors :: actor !in r.excludeActors
  }

  /** A kind of row missing from the page is missing from the selection, when the page is
      not full or could have held nothing else. */
  lemma AbsentFromThePage(b: Backend, r: Request, events: bool)
    requires r.displayFieldPaths == []
    requires forall c | c in Displayed(b, r) :: IsEvent(c) != events
    requires || LimitNotFilled(b, r)
             || forall c | c in b.history && Selects(QueryOf(b, r), b.newest, c) :: IsEvent(c) == events
    ensures forall c | c in b.history && Selects(QueryOf(b, r), b.newest, c) :: IsEvent(c) != events
  {
    var read := Rows(b, QueryOf(b, r));
    ReverseKeepsMembers(read);
    ReadWereSelected(b, QueryOf(b, r));
    assert forall c | c in read :: c in Displayed(b, r);
    assert read != [] ==> read[0] in read;
    assert LimitNotFilled(b, r);
    UnfilledPageHoldsEverything(b, r);
  }

  /** The filter's sentence is true when the limit was not filled, when no Event can have
      taken a row, and when nothing could have matched anyway. */
  lemma FilterNoteIsSound(b: Backend, r: Request)
    requires OnlyTimelineFilters(r) && ClaimsNoMatch(Gathered(b, r))
    requires LimitNotFilled(b, r) || !IncludesEvents(r) || !SomeoneMatches(r)
    ensures NothingMatches(b, r)
  {
    FilterNoteNeedsAnEmptyPage(b, r);
    NoMatchOnThePage(b, r);
  }

  lemma NoMatchOnThePage(b: Backend, r: Request)
    requires r.displayFieldPaths == [] && !SawChange(Displayed(b, r))
    requires LimitNotFilled(b, r) || !IncludesEvents(r) || !SomeoneMatches(r)
    ensures NothingMatches(b, r)
  {
    OneKindOnly(b, r);
    if SomeoneMatches(r) {
      AbsentFromThePage(b, r, false);
    }
  }

  lemma FilterNoteNeedsAnEmptyPage(b: Backend, r: Request)
    requires ClaimsNoMatch(Gathered(b, r))
    ensures Filtered(r) && !SawChange(Displayed(b, r))
  {
    TwoFilterNotes(Gathered(b, r).notices);
    FilterIsBlamedIff(b, r);
    ShownIsDisplayed(b, r);
  }

  lemma TwoFilterNotes(notices: seq<Notice>)
    requires exists n | n in notices :: n.OnFilter?
    ensures OnFilter(MatchedNothing) in notices || OnFilter(CouldNotBeProbed) in notices
  {
    var n :| n in notices && n.OnFilter?;
    assert n.filter == MatchedNothing || n.filter == CouldNotBeProbed;
  }

  lemma ShownIsDisplayed(b: Backend, r: Request)
    requires Answers(b, r)
    ensures Gathered(b, r).rows == Displayed(b, r)
  {
  }

  /** Requests that select rows of one kind only. */
  lemma OneKindOnly(b: Backend, r: Request)
    ensures !IncludesEvents(r) ==> forall c | Selects(QueryOf(b, r), b.newest, c) :: !IsEvent(c)
    ensures r.eventsOnly || !SomeoneMatches(r) ==> forall c | Selects(QueryOf(b, r), b.newest, c) :: IsEvent(c)
  {
  }

  // ---------------------------------------------------------------- the Events

  /** The answer says that no Event about the object is recorded in the window. */
  ghost predicate ClaimsNoEvent(answer: Answer) {
    answer.Answer? && exists n | n in answer.notices :: n.OnEvents?
  }

  /** No Event in history is one the query selects. */
  ghost predicate NothingWasSaid(b: Backend, r: Request) {
    forall c | c in b.history && Selects(QueryOf(b, r), b.newest, c) :: !IsEvent(c)
  }

  /** The window half of every sentence about missing Events: it is true when the limit
      was not filled, and when no change can have taken a row. */
  lemma EventNoteIsSound(b: Backend, r: Request)
    requires BuiltByACommand(r) && ClaimsNoEvent(Gathered(b, r))
    requires LimitNotFilled(b, r) || r.eventsOnly || !SomeoneMatches(r)
    ensures NothingWasSaid(b, r)
  {
    EventNoteNeedsAnEmptyPage(b, r);
    NoEventOnThePage(b, r);
  }

  lemma NoEventOnThePage(b: Backend, r: Request)
    requires r.displayFieldPaths == [] && !SawEvent(Displayed(b, r))
    requires LimitNotFilled(b, r) || r.eventsOnly || !SomeoneMatches(r)
    ensures NothingWasSaid(b, r)
  {
    OneKindOnly(b, r);
    AbsentFromThePage(b, r, true);
  }

  lemma EventNoteNeedsAnEmptyPage(b: Backend, r: Request)
    requires ClaimsNoEvent(Gathered(b, r))
    ensures IncludesEvents(r) && !SawEvent(Displayed(b, r))
  {
    var n :| n in Gathered(b, r).notices && n.OnEvents?;
    EachEventReasonIff(b, r, n.events);
    ShownIsDisplayed(b, r);
  }

  // ---------------------------------------------------------------- the display filter

  ghost predicate SaysNoneTouched(answer: Answer, scanned: nat) {
    answer.Answer? && OnDisplay(NoneTouchedThePaths(scanned)) in answer.notices
  }

  /** The window holds that many changes, and none of them touches the display paths. */
  ghost predicate NoneTouches(b: Backend, r: Request, scanned: nat) {
    var selected := Selected(b.history, b.newest, QueryOf(b, r));
    |selected| == scanned && forall c | c in selected :: !MatchesFieldPaths(c, r.displayFieldPaths)
  }

  lemma {:induction false} DisplayKeepsTheTouching(rows: seq<Change>, paths: seq<string>)
    requires paths != []
    ensures forall c :: c in DisplayRows(rows, paths) <==> c in rows && MatchesFieldPaths(c, paths)
  {
    if rows != [] {
      var init, last := rows[..|rows| - 1], rows[|rows| - 1];
      assert rows == init + [last];
      DisplayKeepsTheTouching(init, paths);
    }
  }

  lemma SaysNoneTouchedIff(b: Backend, r: Request, scanned: nat)
    requires Answers(b, r)
    ensures SaysNoneTouched(Gathered(b, r), scanned) <==>
            && r.displayFieldPaths != [] && scanned == |Rows(b, QueryOf(b, r))| > 0
            && DisplayRows(Rows(b, QueryOf(b, r)), r.displayFieldPaths) == []
  {
    PageSaysNoneTouchedIff(b, r, ChooseIncarnation(b, r), LeadingNotices(b, r), Rows(b, QueryOf(b, r)),
                           RelevantCoverage(b, r).coverage, scanned);
  }

  lemma PageSaysNoneTouchedIff(
    b: Backend, r: Request, choice: Choice, lead: seq<Notice>, read: seq<Change>, coverage: Coverage, scanned: nat)
    requires forall n | n in lead :: n.OnQuestion?
    ensures SaysNoneTouched(Page(b, r, choice, lead, read, coverage), scanned) <==>
            r.displayFieldPaths != [] && scanned == |read| > 0 && DisplayRows(read, r.displayFieldPaths) == []
  {
    var shown, n := Shown(r, read), OnDisplay(NoneTouchedThePaths(scanned));
    var silence := AboutSilence(b, r, ShapeOf(shown), coverage, shown != [] || read == []);
    OnlyAmongTheDisplay(lead, PriorValueNotices(b, r, read), Note(DeletionsNotice(b, SawDeletion(shown))),
                        Note(DisplayFilterNotice(r, |read|, |shown|)), silence.notices, n);
  }

  lemma OnlyAmongTheDisplay(
    lead: seq<Notice>, prior: seq<Notice>, deleted: seq<Notice>, display: seq<Notice>, silence: seq<Notice>, n: Notice)
    requires n !in lead && n !in prior && n !in deleted && n !in silence
    ensures n in lead + prior + deleted + display + silence <==> n in display
  {
  }

  /** The display filter's sentence is true when the limit was not filled. */
  lemma DisplayNoteIsSound(b: Backend, r: Request, scanned: nat)
    requires SaysNoneTouched(Gathered(b, r), scanned) && LimitNotFilled(b, r)
    ensures NoneTouches(b, r, scanned)
  {
    var selected, read := Selected(b.history, b.newest, QueryOf(b, r)), Rows(b, QueryOf(b, r));
    SaysNoneTouchedIff(b, r, scanned);
    TakeKeepsSome(Reverse(selected), r.limit);
    ReverseKeepsMembers(selected);
    DisplayKeepsTheTouching(read, r.displayFieldPaths);
  }

  // ---------------------------------------------------------------- a page filled by the other kind

  // With a limit, and Events merged, rows of one kind can fill the page; what is then
  // said about the other kind is about the page rather than the window.

  /** Both kinds can be on the page, and there is a page to fill. */
  predicate CanBeCrowded(r: Request) {
    IncludesEvents(r) && !r.eventsOnly && r.limit > 0 && SomeoneMatches(r) && r.displayFieldPaths == []
  }

  predicate InBounds(b: Backend, r: Request, t: int) {
    InWindow(t, TimelineBounds(b, r).from, TimelineBounds(b, r).to)
  }

  /** The incarnation the query is about. */
  function UIDOf(b: Backend, r: Request): string {
    if QueryOf(b, r).uid != "" then QueryOf(b, r).uid else b.newest
  }

  ghost function ActorsIn(r: Request): seq<string> {
    if actor :| actor in r.actors && actor !in r.excludeActors then [actor] else []
  }

  /** A change of it that the predicates match, and an Event about it. */
  ghost function ChangeAt(b: Backend, r: Request, t: int): Change {
    Change(t, Modified, ActorsIn(r), UIDOf(b, r), "{}", "", None, Itself(UIDOf(b, r)))
  }

  ghost function EventAt(b: Backend, r: Request, t: int): Change {
    Change(t, KubernetesEvent, [], "event", "{}", "", None, Itself(UIDOf(b, r)))
  }

  lemma AtIsSelected(b: Backend, r: Request, t: int)
    requires InBounds(b, r, t)
    ensures OwnRow(QueryOf(b, r), b.newest, ChangeAt(b, r, t))
    ensures !r.eventsOnly && SomeoneMatches(r) ==> Selects(QueryOf(b, r), b.newest, ChangeAt(b, r, t))
    ensures IncludesEvents(r) ==> Selects(QueryOf(b, r), b.newest, EventAt(b, r, t))
  {
    assert SomeoneMatches(r) ==> MatchesActors(ChangeAt(b, r, t), r.actors, r.excludeActors);
  }

  /** The same backend over another history: nothing else it is asked depends on it. */
  function Over(b: Backend, history: seq<Change>): Backend {
    b.(history := history)
  }

  lemma SameQuestions(b: Backend, history: seq<Change>, r: Request)
    ensures QueryOf(Over(b, history), r) == QueryOf(b, r) && TimelineBounds(Over(b, history), r) == TimelineBounds(b, r)
    ensures ScopeFor(Over(b, history), r) == ScopeFor(b, r) && EventScopeFor(Over(b, history), r) == EventScopeFor(b, r)
    ensures Answers(Over(b, history), r) == Answers(b, r)
  {
  }

  /** One row, and a page's worth of another after it. */
  function Crowd(r: Request, oldest: Change, rest: Change): (history: seq<Change>)
    ensures |history| == r.limit + 1 && history[0] == oldest
    ensures forall c | c in history[1..] :: c == rest
    ensures forall c | c in history :: c == oldest || c == rest
  {
    [oldest] + seq(r.limit, _ => rest)
  }

  lemma {:induction false} AllSelected(history: seq<Change>, newest: string, q: TimelineQuery)
    requires forall c | c in history :: Selects(q, newest, c)
    ensures Selected(history, newest, q) == history
  {
    if history != [] {
      var init, last := history[..|history| - 1], history[|history| - 1];
      assert history == init + [last] && last in history;
      assert forall c | c in init :: c in history;
      AllSelected(init, newest, q);
    }
  }

  lemma TakeLeavesTheOldest(history: seq<Change>, limit: nat)
    requires |history| == limit + 1 && limit > 0
    ensures |Take(Reverse(history), limit)| == limit
    ensures forall c | c in Take(Reverse(history), limit) :: c in history[1..]
  {
    var taken := Take(Reverse(history), limit);
    forall c | c in taken
      ensures c in history[1..]
    {
      var i :| 0 <= i < |taken| && taken[i] == c;
      assert taken[i] == Reverse(history)[i] == history[limit - i] == history[1..][limit - 1 - i];
    }
  }

  /** The page then holds the later rows only. */
  lemma CrowdedRows(b: Backend, r: Request, oldest: Change, rest: Change)
    requires r.limit > 0
    requires Selects(QueryOf(b, r), b.newest, oldest) && Selects(QueryOf(b, r), b.newest, rest)
    ensures var b' := Over(b, Crowd(r, oldest, rest));
            && Selected(b'.history, b'.newest, QueryOf(b', r)) == b'.history
            && |Rows(b', QueryOf(b', r))| == r.limit && forall c | c in Rows(b', QueryOf(b', r)) :: c == rest
  {
    var history := Crowd(r, oldest, rest);
    SameQuestions(b, history, r);
    AllSelected(history, b.newest, QueryOf(b, r));
    TakeLeavesTheOldest(history, r.limit);
  }

  lemma CrowdedPage(b: Backend, r: Request, oldest: Change, rest: Change)
    requires r.limit > 0 && r.displayFieldPaths == []
    requires Selects(QueryOf(b, r), b.newest, oldest) && Selects(QueryOf(b, r), b.newest, rest)
    ensures var b' := Over(b, Crowd(r, oldest, rest));
            && Rows(b', QueryOf(b', r)) != [] && Displayed(b', r) != []
            && forall c | c in Displayed(b', r) :: c == rest
  {
    var b' := Over(b, Crowd(r, oldest, rest));
    CrowdedRows(b, r, oldest, rest);
    LaterRowsAreShown(r, Rows(b', QueryOf(b', r)), rest);
  }

  lemma LaterRowsAreShown(r: Request, read: seq<Change>, rest: Change)
    requires r.displayFieldPaths == [] && read != [] && forall c | c in read :: c == rest
    ensures Shown(r, read) != [] && forall c | c in Shown(r, read) :: c == rest
  {
    ReverseKeepsMembers(read);
  }

  lemma OneKindShown(shown: seq<Change>, rest: Change)
    requires shown != [] && forall c | c in shown :: c == rest
    ensures SawChange(shown) == !IsEvent(rest) && SawEvent(shown) == IsEvent(rest)
  {
    assert shown[0] in shown;
  }

  lemma CrowdIsOrdered(r: Request, oldest: Change, rest: Change)
    requires oldest.ts <= rest.ts
    ensures Ordered(Crowd(r, oldest, rest)) && oldest in Crowd(r, oldest, rest)
  {
    var history := Crowd(r, oldest, rest);
    assert history[0] in history;
    assert forall i | 0 < i < |history| :: history[i] == history[1..][i - 1];
  }

  lemma ChangeIsRecorded(b: Backend, r: Request, t: int, history: seq<Change>)
    requires CanBeCrowded(r) && InBounds(b, r, t) && ChangeAt(b, r, t) in history
    ensures !NothingMatches(Over(b, history), r) && !WindowIsQuiet(Over(b, history), r)
  {
    SameQuestions(b, history, r);
    AtIsSelected(b, r, t);
  }

  /** Events fill the page, in any backend and at any instant of the window: a change that
      the filter matches is answered with "matched none of them", and with no filter a
      recorded change is left to the coverage explanation. */
  lemma ChangeCrowdedOut(b: Backend, r: Request, t: int)
    requires Answers(b, r) && CanBeCrowded(r) && InBounds(b, r, t) && (Filtered(r) ==> !b.probeFails)
    ensures var b' := Over(b, Crowd(r, ChangeAt(b, r, t), EventAt(b, r, t)));
            && Ordered(b'.history) && Answers(b', r) && ChangeAt(b, r, t) in b'.history
            && !NothingMatches(b', r) && !WindowIsQuiet(b', r) && SawEvent(Displayed(b', r))
            && (Filtered(r) ==> OnFilter(MatchedNothing) in Gathered(b', r).notices)
            && (!Filtered(r) ==> Unaccounted(b', r, Rows(b', QueryOf(b', r))))
  {
    var change, event := ChangeAt(b, r, t), EventAt(b, r, t);
    var history := Crowd(r, change, event);
    CrowdIsOrdered(r, change, event);
    ChangeIsRecorded(b, r, t, history);
    EventsFillThePage(b, r, t);
    SameQuestions(b, history, r);
    if Filtered(r) {
      MatchIsDenied(Over(b, history), r);
    }
  }

  lemma EventsFillThePage(b: Backend, r: Request, t: int)
    requires CanBeCrowded(r) && InBounds(b, r, t)
    ensures var b' := Over(b, Crowd(r, ChangeAt(b, r, t), EventAt(b, r, t)));
            Displayed(b', r) != [] && SawEvent(Displayed(b', r)) && !SawChange(Displayed(b', r))
  {
    AtIsSelected(b, r, t);
    CrowdedPage(b, r, ChangeAt(b, r, t), EventAt(b, r, t));
    OneKindShown(Displayed(Over(b, Crowd(r, ChangeAt(b, r, t), EventAt(b, r, t))), r), EventAt(b, r, t));
  }

  lemma NamesTheFilter(answer: Answer)
    requires answer.Answer? && OnFilter(MatchedNothing) in answer.notices
    ensures ClaimsNoMatch(answer)
  {
  }

  lemma MatchIsDenied(b: Backend, r: Request)
    requires Answers(b, r) && Filtered(r) && !SawChange(Displayed(b, r)) && !b.probeFails && !WindowIsQuiet(b, r)
    ensures OnFilter(MatchedNothing) in Gathered(b, r).notices
  {
    ShownIsDisplayed(b, r);
    FilterIsBlamedIff(b, r);
  }

  /** Changes fill the page: over a recorded Event, the Events are called missing. */
  lemma EventCrowdedOut(b: Backend, r: Request, t: int, note: EventNote)
    requires Answers(b, r) && CanBeCrowded(r) && InBounds(b, r, t) && EventReason(r, EventScopeFor(b, r), note)
    ensures var b' := Over(b, Crowd(r, EventAt(b, r, t), ChangeAt(b, r, t)));
            && Ordered(b'.history) && Answers(b', r) && EventAt(b, r, t) in b'.history
            && !NothingWasSaid(b', r) && OnEvents(note) in Gathered(b', r).notices
  {
    var change, event := ChangeAt(b, r, t), EventAt(b, r, t);
    var history := Crowd(r, event, change);
    CrowdIsOrdered(r, event, change);
    AtIsSelected(b, r, t);
    CrowdedPage(b, r, event, change);
    OneKindShown(Displayed(Over(b, history), r), change);
    SameQuestions(b, history, r);
    MissingEventsAreExplained(Over(b, history), r, note);
  }

  /** Changes elsewhere fill the page: over one that touches the paths, all are said not to. */
  lemma TouchCrowdedOut(b: Backend, r: Request, t: int)
    requires Answers(b, r) && InBounds(b, r, t) && r.limit > 0 && r.displayFieldPaths != []
    requires !IncludesEvents(r) && !Filtered(r)
    ensures var b' := Over(b, Crowd(r, Touching(b, r, t, [r.displayFieldPaths[0]]), Touching(b, r, t, [])));
            && Ordered(b'.history) && SaysNoneTouched(Gathered(b', r), r.limit)
            && forall n: nat :: !NoneTouches(b', r, n)
  {
    var paths := r.displayFieldPaths;
    var oldest, rest := Touching(b, r, t, [paths[0]]), Touching(b, r, t, []);
    var history := Crowd(r, oldest, rest);
    CrowdIsOrdered(r, oldest, rest);
    SameQuestions(b, history, r);
    TouchingIsSelected(b, r, t, [paths[0]]);
    TouchingIsSelected(b, r, t, []);
    CrowdedRows(b, r, oldest, rest);
    NoneIsKept(Rows(Over(b, history), QueryOf(Over(b, history), r)), rest, paths);
    SaysNoneTouchedIff(Over(b, history), r, r.limit);
    TouchesItsPath(oldest, paths);
  }

  lemma TouchingIsSelected(b: Backend, r: Request, t: int, paths: seq<string>)
    requires InBounds(b, r, t) && !IncludesEvents(r) && !Filtered(r)
    ensures Selects(QueryOf(b, r), b.newest, Touching(b, r, t, paths))
  {
  }

  lemma NoneIsKept(rows: seq<Change>, rest: Change, paths: seq<string>)
    requires paths != [] && rest.touched == Some([]) && forall c | c in rows :: c == rest
    ensures DisplayRows(rows, paths) == []
  {
    var kept := DisplayRows(rows, paths);
    DisplayKeepsTheTouching(rows, paths);
    assert !MatchesFieldPaths(rest, paths);
    assert forall c :: c !in kept;
    EmptyShape(kept);
  }

  lemma TouchesItsPath(c: Change, paths: seq<string>)
    requires paths != [] && c.touched == Some([paths[0]])
    ensures MatchesFieldPaths(c, paths)
  {
    assert paths[0] in c.touched.value && paths[0] in paths;
  }

  function Touching(b: Backend, r: Request, t: int, paths: seq<string>): Change {
    Change(t, Modified, [], UIDOf(b, r), "", "[]", Some(paths), Itself(UIDOf(b, r)))
  }

  lemma MissingEventsAreExplained(b: Backend, r: Request, note: EventNote)
    requires Answers(b, r) && IncludesEvents(r) && Rows(b, QueryOf(b, r)) != [] && !SawEvent(Displayed(b, r))
    requires EventReason(r, EventScopeFor(b, r), note)
    ensures OnEvents(note) in Gathered(b, r).notices
  {
    ShownIsDisplayed(b, r);
    FindingIff(b, r);
    EachEventReasonIff(b, r, note);
  }

  // ---------------------------------------------------------------- the exact conditions

  ghost predicate ClaimIsTrue(b: Backend, r: Request) {
    ClaimsNoChange(Gathered(b, r)) ==> WindowIsQuiet(b, r)
  }

  ghost predicate FilterNoteIsTrue(b: Backend, r: Request) {
    ClaimsNoMatch(Gathered(b, r)) ==> NothingMatches(b, r)
  }

  ghost predicate EventNoteIsTrue(b: Backend, r: Request) {
    ClaimsNoEvent(Gathered(b, r)) ==> NothingWasSaid(b, r)
  }

  predicate WindowMakesSense(r: Request) {
    r.from.Some? && r.to.Some? ==> r.from.value <= r.to.value
  }

  function InstantIn(r: Request): int {
    if r.from.Some? then r.from.value else if r.to.Some? then r.to.value else 0
  }

  /** A backend that was watching the object and the Events throughout the window. */
  function Watching(r: Request): Backend {
    var watched := Intervals([Interval("", InstantIn(r), None, "rule")]);
    Backend([], "u", Listed([]), Served, false, watched, watched, Owned({}, 0), false, true, false, 0)
  }

  lemma WatchingAnswers(r: Request)
    requires WindowMakesSense(r)
    ensures var b, watch := Watching(r), Interval("", InstantIn(r), None, "rule");
            && Answers(b, r) && InBounds(b, r, InstantIn(r))
            && ScopeFor(b, r) == Intervals([watch]) && EventScopeFor(b, r) == Intervals([watch])
            && FirstAt([watch], 0)
  {
    var watch := Interval("", InstantIn(r), None, "rule");
    assert TimelineBounds(Watching(r), r) == Bounds(r.from, r.to, None);
    OneOverlaps(watch, r.from, r.to);
    assert OfEvents(watch);
  }

  lemma OneOverlaps(watch: Interval, from: Option<int>, to: Option<int>)
    requires Overlaps(watch, from, to)
    ensures Overlapping([watch], from, to) == [watch]
  {
    assert [watch][..0] == [];
  }

  lemma NoWindowNoRows(b: Backend, r: Request)
    requires !WindowMakesSense(r)
    ensures WindowIsQuiet(b, r) && NothingMatches(b, r) && NothingWasSaid(b, r)
  {
  }

  lemma CoverageIsSpokenOf(b: Backend, r: Request, watch: Interval)
    requires Answers(b, r) && ScopeFor(b, r) == Intervals([watch]) && Unaccounted(b, r, Rows(b, QueryOf(b, r)))
    ensures ClaimsNoChange(Gathered(b, r))
  {
    var onlyEvents, from := SawEvent(Gathered(b, r).rows), TimelineBounds(b, r).from;
    var note := if from.Some? && watch.from <= from.value then NothingChanged(onlyEvents, watch)
                else NotWatchedBefore(onlyEvents, watch);
    EachReasonIff(b, r, note);
    assert OnSilence(note) in Gathered(b, r).notices;
  }

  /** "No changes recorded in the window": true over every backend iff Events are not
      merged, or there is no limit to fill, or a predicate sends the question back to the
      window - or the request is events-only, which never gets it, or spans no instant. */
  lemma ExplanationAlwaysSoundIff(r: Request)
    requires BuiltByACommand(r)
    ensures (forall b: Backend :: ClaimIsTrue(b, r)) <==>
            r.eventsOnly || !IncludesEvents(r) || r.limit == 0 || Filtered(r) || !WindowMakesSense(r)
  {
    if r.eventsOnly || !IncludesEvents(r) || r.limit == 0 || Filtered(r) || !WindowMakesSense(r) {
      forall b: Backend
        ensures ClaimIsTrue(b, r)
      {
        if !WindowMakesSense(r) {
          NoWindowNoRows(b, r);
        } else if ClaimsNoChange(Gathered(b, r)) {
          ClaimIsSound(b, r);
        }
      }
    } else {
      var b, t := Watching(r), InstantIn(r);
      WatchingAnswers(r);
      ChangeCrowdedOut(b, r, t);
      var b' := Over(b, Crowd(r, ChangeAt(b, r, t), EventAt(b, r, t)));
      SameQuestions(b, b'.history, r);
      CoverageIsSpokenOf(b', r, Interval("", t, None, "rule"));
      assert !ClaimIsTrue(b', r);
    }
  }

  /** "The filter matched none of them": true over every backend iff no filter is in force,
      or Events are not merged, or there is no limit to fill, or no change can match. */
  lemma FilterNoteAlwaysTrueIff(r: Request)
    requires OnlyTimelineFilters(r)
    ensures (forall b: Backend :: FilterNoteIsTrue(b, r)) <==>
            !Filtered(r) || !IncludesEvents(r) || r.limit == 0 || !SomeoneMatches(r) || !WindowMakesSense(r)
  {
    if !Filtered(r) || !IncludesEvents(r) || r.limit == 0 || !SomeoneMatches(r) || !WindowMakesSense(r) {
      forall b: Backend
        ensures FilterNoteIsTrue(b, r)
      {
        if !WindowMakesSense(r) {
          NoWindowNoRows(b, r);
        } else if ClaimsNoMatch(Gathered(b, r)) {
          FilterNoteNeedsAnEmptyPage(b, r);
          FilterNoteIsSound(b, r);
        }
      }
    } else {
      var b, t := Watching(r), InstantIn(r);
      WatchingAnswers(r);
      ChangeCrowdedOut(b, r, t);
      var b' := Over(b, Crowd(r, ChangeAt(b, r, t), EventAt(b, r, t)));
      NamesTheFilter(Gathered(b', r));
      assert !FilterNoteIsTrue(b', r);
    }
  }

  /** "Found no Events in the window": true over every backend iff the request is events-only or does
      not ask, or there is no limit to fill, or no change can take a row. */
  lemma EventNoteAlwaysTrueIff(r: Request)
    requires BuiltByACommand(r)
    ensures (forall b: Backend :: EventNoteIsTrue(b, r)) <==>
            r.eventsOnly || !IncludesEvents(r) || r.limit == 0 || !SomeoneMatches(r) || !WindowMakesSense(r)
  {
    if r.eventsOnly || !IncludesEvents(r) || r.limit == 0 || !SomeoneMatches(r) || !WindowMakesSense(r) {
      forall b: Backend
        ensures EventNoteIsTrue(b, r)
      {
        if !WindowMakesSense(r) {
          NoWindowNoRows(b, r);
        } else if ClaimsNoEvent(Gathered(b, r)) {
          EventNoteNeedsAnEmptyPage(b, r);
          EventNoteIsSound(b, r);
        }
      }
    } else {
      var b, t := Watching(r), InstantIn(r);
      WatchingAnswers(r);
      EventCrowdedOut(b, r, t, NothingSaid(FlagOf(r), Interval("", t, None, "rule")));
      assert !EventNoteIsTrue(Over(b, Crowd(r, EventAt(b, r, t), ChangeAt(b, r, t))), r);
    }
  }

  ghost predicate DisplayNoteIsTrue(b: Backend, r: Request, scanned: nat) {
    SaysNoneTouched(Gathered(b, r), scanned) ==> NoneTouches(b, r, scanned)
  }

  /** "That many are recorded and none of them touched the paths": true over every backend
      iff no path is asked for, or there is no limit to fill, or the window spans nothing. */
  lemma DisplayNoteAlwaysTrueIff(r: Request)
    requires BuiltByACommand(r) && OnlyTimelineFilters(r)
    ensures (forall b: Backend, n: nat :: DisplayNoteIsTrue(b, r, n)) <==>
            r.displayFieldPaths == [] || r.limit == 0 || !WindowMakesSense(r)
  {
    if r.displayFieldPaths == [] || r.limit == 0 || !WindowMakesSense(r) {
      forall b: Backend, n: nat
        ensures DisplayNoteIsTrue(b, r, n)
      {
        if SaysNoneTouched(Gathered(b, r), n) {
          SaysNoneTouchedIff(b, r, n);
          if r.limit == 0 {
            DisplayNoteIsSound(b, r, n);
          } else {
            NothingRead(b, r);
          }
        }
      }
    } else {
      var b, t := Watching(r), InstantIn(r);
      WatchingAnswers(r);
      TouchCrowdedOut(b, r, t);
      assert !DisplayNoteIsTrue(
               Over(b, Crowd(r, Touching(b, r, t, [r.displayFieldPaths[0]]), Touching(b, r, t, []))), r, r.limit);
    }
  }

  lemma NothingRead(b: Backend, r: Request)
    ensures !WindowMakesSense(r) ==> Rows(b, QueryOf(b, r)) == []
  {
    if !WindowMakesSense(r) {
      NoWindowNoRows(b, r);
      ReadWereSelected(b, QueryOf(b, r));
      EmptyShape(Rows(b, QueryOf(b, r)));
    }
  }
}
