/** What an answer has to do with the request: which rows are on the page, under which
    header, with which notes around them - said of the request's own flags, and not of the
    query made from them. */
module Requests {
  import opened Options
  import opened Query
  import opened Timeline
  import opened Gather
  import opened Silence
  import opened Truth

  // ---------------------------------------------------------------- the rows

  ghost predicate AsksForEvents(r: Request) {
    r.withEvents || r.eventsOnly || r.owned
  }

  /** The Event is about this incarnation, about any when none is singled out, or about an
      object the ownership walk added. */
  ghost predicate EventAskedFor(b: Backend, r: Request, uid: string, c: Change) {
    match c.subject
    case Another(name) => r.owned && b.ownership.Owned? && name in b.ownership.subjects
    case Itself(subject) =>
      if r.eventsOnly then r.uid == "" || subject == r.uid else r.allIncarnations || uid == "" || subject == uid
  }

  /** The change is one of this incarnation's, or any when all are asked for, and passes the
      request's own predicates. */
  ghost predicate ChangeAskedFor(r: Request, uid: string, c: Change) {
    && !r.eventsOnly && (r.allIncarnations || c.uid == uid)
    && MatchesActors(c, r.actors, r.excludeActors) && MatchesFieldPaths(c, r.fieldPaths)
  }

  ghost predicate AskedAbout(b: Backend, r: Request, uid: string, c: Change) {
    && InBounds(b, r, c.ts)
    && (if IsEvent(c) then AsksForEvents(r) && EventAskedFor(b, r, uid, c) else ChangeAskedFor(r, uid, c))
  }

  /** Recorded, in the window, and asked for by the request's own flags. */
  ghost predicate AskedFor(b: Backend, r: Request, c: Change) {
    c in b.history && AskedAbout(b, r, ShownUID(b, r), c)
  }

  /** One incarnation is asked about, or every one; with both flags given the listing decides. */
  predicate OneOrAll(r: Request) {
    r.allIncarnations ==> r.uid == ""
  }

  lemma SelectsIff(b: Backend, r: Request, uid: string, c: Change)
    requires r.eventsOnly ==> QueryOf(b, r).uid == r.uid
    requires !r.eventsOnly && r.allIncarnations ==> QueryOf(b, r).uid == ""
    requires !r.eventsOnly && !r.allIncarnations ==>
               uid == if QueryOf(b, r).uid != "" then QueryOf(b, r).uid else b.newest
    ensures Selects(QueryOf(b, r), b.newest, c) <==> AskedAbout(b, r, uid, c)
  {
  }

  lemma SelectedIffAskedFor(b: Backend, r: Request, c: Change)
    requires Answers(b, r) && OneOrAll(r)
    ensures c in b.history && Selects(QueryOf(b, r), b.newest, c) <==> AskedFor(b, r, c)
  {
    if r.eventsOnly {
      EventsOnlyQuery(b, r);
    } else if r.allIncarnations {
      EveryIncarnationQuery(b, r);
    } else {
      ShownIsQueried(b, r);
    }
    SelectsIff(b, r, ShownUID(b, r), c);
  }

  lemma EventsOnlyQuery(b: Backend, r: Request)
    requires r.eventsOnly
    ensures QueryOf(b, r).uid == r.uid
  {
  }

  lemma EveryIncarnationQuery(b: Backend, r: Request)
    requires r.allIncarnations && r.uid == "" && !r.eventsOnly
    ensures QueryOf(b, r).uid == ""
  {
  }

  /** Every row on the page was asked for, touches the display paths if any are given, and
      there are no more of them than the limit. */
  lemma RowsWereAskedFor(b: Backend, r: Request)
    requires Answers(b, r) && OneOrAll(r)
    ensures forall c | c in Gathered(b, r).rows ::
              AskedFor(b, r, c) && (r.displayFieldPaths != [] ==> MatchesFieldPaths(c, r.displayFieldPaths))
    ensures r.limit > 0 ==> |Gathered(b, r).rows| <= r.limit
  {
    var read := Rows(b, QueryOf(b, r));
    ShownIsDisplayed(b, r);
    DisplayedWereRead(b, r);
    ReadWereSelected(b, QueryOf(b, r));
    DisplayedTouch(b, r);
    forall c | c in Gathered(b, r).rows
      ensures AskedFor(b, r, c)
    {
      SelectedIffAskedFor(b, r, c);
    }
  }

  lemma DisplayedTouch(b: Backend, r: Request)
    ensures r.displayFieldPaths != [] ==> forall c | c in Displayed(b, r) :: MatchesFieldPaths(c, r.displayFieldPaths)
  {
    var kept := DisplayRows(Rows(b, QueryOf(b, r)), r.displayFieldPaths);
    ReverseKeepsMembers(kept);
    if r.displayFieldPaths != [] {
      DisplayKeepsTheTouching(Rows(b, QueryOf(b, r)), r.displayFieldPaths);
    }
  }

  /** And with room left on the page and no display paths, everything asked for is on it. */
  lemma WhatWasAskedForIsShown(b: Backend, r: Request)
    requires Answers(b, r) && OneOrAll(r) && r.displayFieldPaths == []
    requires r.limit == 0 || |Gathered(b, r).rows| < r.limit
    ensures forall c :: c in Gathered(b, r).rows <==> AskedFor(b, r, c)
  {
    ShownIsDisplayed(b, r);
    UnfilledPageHoldsEverything(b, r);
    ReverseKeepsMembers(Rows(b, QueryOf(b, r)));
    forall c: Change
      ensures c in Gathered(b, r).rows <==> AskedFor(b, r, c)
    {
      SelectedIffAskedFor(b, r, c);
    }
  }

  /** --uid is obeyed whenever a single incarnation is asked about. */
  lemma PinIsObeyed(b: Backend, r: Request)
    requires Answers(b, r) && r.uid != "" && !r.allIncarnations && !r.eventsOnly
    ensures ShownUID(b, r) == r.uid
  {
    ShownIsQueried(b, r);
    PinnedQuery(b, r);
  }

  lemma PinnedQuery(b: Backend, r: Request)
    requires r.uid != "" && !r.allIncarnations
    ensures QueryOf(b, r).uid == r.uid
  {
  }

  /** --actor keeps changes some given actor made, --exclude-actor drops those any made. */
  lemma ActorPredicatesAre(c: Change, only: seq<string>, never: seq<string>)
    ensures var made, wanted, unwanted := set a | a in c.actors, set a | a in only, set a | a in never;
            MatchesActors(c, only, never) <==> (wanted == {} || made * wanted != {}) && made * unwanted == {}
  {
    var made, wanted, unwanted := set a | a in c.actors, set a | a in only, set a | a in never;
    assert only != [] ==> only[0] in wanted;
    assert forall a :: a in made * wanted <==> a in c.actors && a in only;
    assert forall a :: a in made * unwanted <==> a in c.actors && a in never;
  }

  /** --field keeps a change that touches the path or something beneath it, and any change
      whose patch cannot be read. */
  lemma FieldPredicateIs(c: Change, path: string)
    ensures MatchesFieldPaths(c, [path]) <==>
            c.touched.None? || exists touched | touched in c.touched.value :: AtOrBeneath(touched, path)
    ensures MatchesFieldPaths(c, [])
  {
    if c.touched.Some? {
      forall touched | touched in c.touched.value
        ensures AtOrBeneath(touched, path) <==> touched == path || path + "." <= touched
      {
        if path + "." <= touched {
          assert touched == path + "." + touched[|path + "."|..];
        }
      }
    }
  }

  ghost predicate AtOrBeneath(touched: string, path: string) {
    touched == path || exists rest: string :: touched == path + "." + rest
  }

  // ---------------------------------------------------------------- their order

  /** kept is all at the given places, in order. */
  ghost predicate Picks<T>(all: seq<T>, kept: seq<T>, at: seq<nat>) {
    && |at| == |kept|
    && (forall k | 0 <= k < |at| :: at[k] < |all| && kept[k] == all[at[k]])
    && (forall j, k | 0 <= j < k < |at| :: at[j] < at[k])
  }

  lemma PicksOneMore<T>(all: seq<T>, kept: seq<T>, at: seq<nat>, x: T)
    requires Picks(all, kept, at)
    ensures Picks(all + [x], kept, at) && Picks(all + [x], kept + [x], at + [|all|])
  {
  }

  /** The rows the display filter keeps are the touching ones, in the order they were read. */
  lemma {:induction false} DisplayKeepsTheOrder(rows: seq<Change>, paths: seq<string>) returns (at: seq<nat>)
    requires paths != []
    ensures Picks(rows, DisplayRows(rows, paths), at)
    ensures forall i: nat | i < |rows| :: i in at <==> MatchesFieldPaths(rows[i], paths)
  {
    if rows == [] {
      at := [];
    } else {
      var init, last := rows[..|rows| - 1], rows[|rows| - 1];
      assert rows == init + [last];
      at := DisplayKeepsTheOrder(init, paths);
      PicksOneMore(init, DisplayRows(init, paths), at, last);
      if MatchesFieldPaths(last, paths) {
        at := at + [|init|];
      }
    }
  }

  /** What a query selects is what it matches, in history order, each row as often as recorded. */
  lemma {:induction false} SelectionKeepsTheOrder(history: seq<Change>, newest: string, q: TimelineQuery)
    returns (at: seq<nat>)
    ensures Picks(history, Selected(history, newest, q), at)
    ensures forall i: nat | i < |history| :: i in at <==> Selects(q, newest, history[i])
  {
    if history == [] {
      at := [];
    } else {
      var init, last := history[..|history| - 1], history[|history| - 1];
      assert history == init + [last];
      at := SelectionKeepsTheOrder(init, newest, q);
      PicksOneMore(init, Selected(init, newest, q), at, last);
      if Selects(q, newest, last) {
        at := at + [|init|];
      }
    }
  }

  // ---------------------------------------------------------------- the window

  /** A window is what was asked for, unless the backend needs both ends: then it is the last
      24 hours to now, the 24 hours to the end given, or from the start given to now. */
  lemma WindowIs(b: Backend, r: Request)
    ensures var w, day := TimelineBounds(b, r), 86_400_000_000_000;
            if !b.timeBoundRequired || (r.from.Some? && r.to.Some?) then w.from == r.from && w.to == r.to
            else if r.from.Some? then w.from == r.from && w.to == Some(r.now)
            else if r.to.Some? then w.from == Some(r.to.value - day) && w.to == r.to
            else w.from == Some(r.now - day) && w.to == Some(r.now)
  {
  }

  // ---------------------------------------------------------------- the notes

  /** When each note about the question, the replay, the deletions and the display is due. */
  ghost predicate QuestionDue(b: Backend, r: Request, q: QuestionNote) {
    match q
    case WindowDefaulted(from, to) =>
      b.timeBoundRequired && r.from.None? && r.to.None? && to == r.now && from == r.now - 86_400_000_000_000
    case WindowCompleted(from, to) =>
      && b.timeBoundRequired && (r.from.Some? <==> r.to.None?)
      && (if r.from.Some? then from == r.from.value && to == r.now
          else to == r.to.value && from == to - 86_400_000_000_000)
    case InertPredicates =>
      r.eventsOnly && (r.actors != [] || r.excludeActors != [] || r.fieldPaths != [] || r.allIncarnations)
    case IncarnationsUnsupported => !r.eventsOnly && b.incarnations.ListingUnsupported?
    case IncarnationsUnlisted => !r.eventsOnly && b.incarnations.ListingFailed?
    case PinNotInWindow(uids) =>
      && !r.eventsOnly && b.incarnations.Listed? && r.uid != "" && ListedUIDs(b, uids)
      && uids != [] && r.uid !in uids
    case OtherIncarnations(count, newest) =>
      && !r.eventsOnly && b.incarnations.Listed? && r.uid == "" && !r.allIncarnations
      && count == |b.incarnations.incarnations| > 1 && newest == NewestOf(b.incarnations.incarnations).uid
    case OwnershipNote(index) => r.owned && b.ownership.Owned? && index < b.ownership.notices
  }

  ghost predicate ListedUIDs(b: Backend, uids: seq<string>)
    requires b.incarnations.Listed?
  {
    && |uids| == |b.incarnations.incarnations|
    && forall i | 0 <= i < |uids| :: uids[i] == b.incarnations.incarnations[i].uid
  }

  ghost predicate Due(b: Backend, r: Request, read: seq<Change>, shown: seq<Change>, n: Notice) {
    match n
    case OnQuestion(q) => QuestionDue(b, r, q)
    case OnPriorValues(PriorValuesFiltered) => read != [] && !r.noPriorValues && Filtered(r)
    case OnPriorValues(PriorValueNote(i)) =>
      read != [] && !r.noPriorValues && !Filtered(r) && i < b.priorValueNotices
    case OnDeletions => !b.recordsDeletions && forall c | c in shown :: !c.eventType.Deleted?
    case OnDisplay(NoneTouchedThePaths(scanned)) => r.displayFieldPaths != [] && scanned == |read| > |shown| == 0
    case OnDisplay(SomeTouchedThePaths(touched, scanned)) =>
      r.displayFieldPaths != [] && scanned == |read| > |shown| == touched > 0
    case _ => false
  }

  predicate AboutTheWindow(n: Notice) {
    n.OnQuestion? && (n.question.WindowDefaulted? || n.question.WindowCompleted?)
  }

  predicate AboutIncarnations(n: Notice) {
    && n.OnQuestion?
    && (|| n.question.IncarnationsUnsupported? || n.question.IncarnationsUnlisted?
        || n.question.PinNotInWindow? || n.question.OtherIncarnations?)
  }

  predicate AboutOwnership(n: Notice) {
    n.OnQuestion? && n.question.OwnershipNote?
  }

  lemma QuestionsStandApart(
    window: seq<Notice>, inert: seq<Notice>, incarnations: seq<Notice>, ownership: seq<Notice>, n: Notice)
    requires forall m | m in window :: AboutTheWindow(m)
    requires forall m | m in inert :: m == OnQuestion(InertPredicates)
    requires forall m | m in incarnations :: AboutIncarnations(m)
    requires forall m | m in ownership :: AboutOwnership(m)
    requires n.OnQuestion?
    ensures n in window + inert + incarnations + ownership <==>
            n in if AboutTheWindow(n) then window else if AboutIncarnations(n) then incarnations
                 else if AboutOwnership(n) then ownership else inert
  {
  }

  lemma WindowNoteIff(b: Backend, r: Request, n: Notice)
    ensures forall m | m in Note(TimelineBounds(b, r).notice) :: AboutTheWindow(m)
    ensures AboutTheWindow(n) ==> (n in Note(TimelineBounds(b, r).notice) <==> QuestionDue(b, r, n.question))
  {
  }

  lemma InertNoteIff(b: Backend, r: Request)
    ensures forall m | m in Note(InertNotice(r)) :: m == OnQuestion(InertPredicates)
    ensures OnQuestion(InertPredicates) in Note(InertNotice(r)) <==> QuestionDue(b, r, InertPredicates)
  {
  }

  lemma IncarnationNoteIff(b: Backend, r: Request, n: Notice)
    ensures forall m | m in ChooseIncarnation(b, r).notices :: AboutIncarnations(m)
    ensures AboutIncarnations(n) ==> (n in ChooseIncarnation(b, r).notices <==> QuestionDue(b, r, n.question))
  {
    if b.incarnations.Listed? && AboutIncarnations(n) && n.question.PinNotInWindow? {
      assert ListedUIDs(b, n.question.uids) <==> n.question.uids == UIDs(b.incarnations.incarnations);
    }
  }

  lemma QuestionNoteIff(b: Backend, r: Request, q: QuestionNote)
    ensures OnQuestion(q) in LeadingNotices(b, r) <==> QuestionDue(b, r, q)
  {
    var n := OnQuestion(q);
    WindowNoteIff(b, r, n);
    InertNoteIff(b, r);
    IncarnationNoteIff(b, r, n);
    if q.OwnershipNote? {
      OwnershipNoteIff(b, r, q.index);
    }
    QuestionsStandApart(Note(TimelineBounds(b, r).notice), Note(InertNotice(r)), ChooseIncarnation(b, r).notices,
                        OwnershipNotices(b, r), n);
  }

  lemma OwnershipNoteIff(b: Backend, r: Request, index: nat)
    ensures OnQuestion(OwnershipNote(index)) in OwnershipNotices(b, r) <==>
            r.owned && b.ownership.Owned? && index < b.ownership.notices
  {
    var notices := OwnershipNotices(b, r);
    if r.owned && b.ownership.Owned? && index < b.ownership.notices {
      assert notices[index] == OnQuestion(OwnershipNote(index));
    }
  }

  lemma PriorNoteIff(b: Backend, r: Request, read: seq<Change>, shown: seq<Change>, p: PriorNote)
    ensures OnPriorValues(p) in PriorValueNotices(b, r, read) <==> Due(b, r, read, shown, OnPriorValues(p))
  {
    var notices := PriorValueNotices(b, r, read);
    if p.PriorValueNote? && read != [] && !r.noPriorValues && !Filtered(r) && p.index < b.priorValueNotices {
      assert notices[p.index] == OnPriorValues(p);
    }
  }

  /** What each stretch of a page's notices may hold. */
  ghost predicate PartsOfAPage(
    lead: seq<Notice>, prior: seq<Notice>, deleted: seq<Notice>, display: seq<Notice>, silence: seq<Notice>)
  {
    && (forall m | m in lead :: m.OnQuestion?)
    && (forall m | m in prior :: m.OnPriorValues?)
    && (forall m | m in deleted :: m.OnDeletions?)
    && (forall m | m in display :: m.OnDisplay?)
    && (forall m | m in silence :: m.OnFilter? || m.OnSilence? || m.OnEvents?)
  }

  /** The notices after the leading ones, as the stretches they are made of. */
  lemma PartsOf(b: Backend, r: Request, choice: Choice, read: seq<Change>, coverage: Coverage)
    returns (deleted: seq<Notice>, display: seq<Notice>, silence: seq<Notice>)
    ensures var lead, prior := LeadingNotices(b, r), PriorValueNotices(b, r, read);
            && PartsOfAPage(lead, prior, deleted, display, silence)
            && Page(b, r, choice, lead, read, coverage).notices == lead + prior + deleted + display + silence
    ensures deleted == Note(DeletionsNotice(b, SawDeletion(Shown(r, read))))
    ensures display == Note(DisplayFilterNotice(r, |read|, |Shown(r, read)|))
    ensures silence
            == AboutSilence(b, r, ShapeOf(Shown(r, read)), coverage, Shown(r, read) != [] || read == []).notices
  {
    var shown := Shown(r, read);
    deleted := Note(DeletionsNotice(b, SawDeletion(shown)));
    display := Note(DisplayFilterNotice(r, |read|, |shown|));
    silence := AboutSilence(b, r, ShapeOf(shown), coverage, shown != [] || read == []).notices;
  }

  lemma KindsStandApart(
    lead: seq<Notice>, prior: seq<Notice>, deleted: seq<Notice>, display: seq<Notice>, silence: seq<Notice>, n: Notice)
    requires PartsOfAPage(lead, prior, deleted, display, silence)
    ensures n.OnQuestion? ==> (n in lead + prior + deleted + display + silence <==> n in lead)
    ensures n.OnPriorValues? ==> (n in lead + prior + deleted + display + silence <==> n in prior)
    ensures n.OnDeletions? ==> (n in lead + prior + deleted + display + silence <==> n in deleted)
    ensures n.OnDisplay? ==> (n in lead + prior + deleted + display + silence <==> n in display)
  {
  }

  lemma OtherNoteIff(b: Backend, r: Request, read: seq<Change>, shown: seq<Change>, n: Notice)
    requires |shown| <= |read| && (r.displayFieldPaths == [] ==> |shown| == |read|)
    ensures n.OnDeletions? ==> (n in Note(DeletionsNotice(b, SawDeletion(shown))) <==> Due(b, r, read, shown, n))
    ensures n.OnDisplay? ==> (n in Note(DisplayFilterNotice(r, |read|, |shown|)) <==> Due(b, r, read, shown, n))
  {
  }

  lemma PageNoteIff(b: Backend, r: Request, choice: Choice, read: seq<Change>, coverage: Coverage, n: Notice)
    requires n.OnQuestion? || n.OnPriorValues? || n.OnDeletions? || n.OnDisplay?
    ensures n in Page(b, r, choice, LeadingNotices(b, r), read, coverage).notices
            <==> Due(b, r, read, Shown(r, read), n)
  {
    var shown := Shown(r, read);
    var deleted, display, silence := PartsOf(b, r, choice, read, coverage);
    KindsStandApart(LeadingNotices(b, r), PriorValueNotices(b, r, read), deleted, display, silence, n);
    match n
    case OnQuestion(q) => QuestionNoteIff(b, r, q);
    case OnPriorValues(p) => PriorNoteIff(b, r, read, shown, p);
    case _ => OtherNoteIff(b, r, read, shown, n);
  }

  /** Each of these notes is given exactly when it is due. */
  lemma EachNoteIff(b: Backend, r: Request, n: Notice)
    requires Answers(b, r)
    requires n.OnQuestion? || n.OnPriorValues? || n.OnDeletions? || n.OnDisplay?
    ensures n in Gathered(b, r).notices <==> Due(b, r, Rows(b, QueryOf(b, r)), Gathered(b, r).rows, n)
  {
    ShownIsDisplayed(b, r);
    PageNoteIff(b, r, ChooseIncarnation(b, r), Rows(b, QueryOf(b, r)), RelevantCoverage(b, r).coverage, n);
  }

  /** An Event note names the flag that was given, the most specific first. */
  lemma FlagWasGiven(r: Request)
    requires AsksForEvents(r)
    ensures FlagOf(r).EventsOnlyFlag? <==> r.eventsOnly
    ensures FlagOf(r).WithEventsFlag? <==> r.withEvents && !r.eventsOnly
    ensures FlagOf(r).OwnedFlag? <==> r.owned && !r.withEvents && !r.eventsOnly
  {
  }

  // ---------------------------------------------------------------- their order on the page

  function Rank(n: Notice): nat {
    match n
    case OnQuestion(_) =>
      if AboutTheWindow(n) then 0 else if AboutIncarnations(n) then 2 else if AboutOwnership(n) then 3 else 1
    case OnPriorValues(_) => 4
    case OnDeletions => 5
    case OnDisplay(_) => 6
    case OnFilter(_) => 7
    case OnSilence(_) => 8
    case OnEvents(_) => 9
  }

  ghost predicate Ranked(notices: seq<Notice>) {
    forall i, j | 0 <= i < j < |notices| :: Rank(notices[i]) <= Rank(notices[j])
  }

  lemma RankedConcat(a: seq<Notice>, c: seq<Notice>, k: nat)
    requires Ranked(a) && Ranked(c)
    requires forall n | n in a :: Rank(n) <= k
    requires forall n | n in c :: k <= Rank(n)
    ensures Ranked(a + c)
  {
  }

  lemma OneKindIsRanked(a: seq<Notice>, k: nat)
    requires forall n | n in a :: Rank(n) == k
    ensures Ranked(a)
  {
  }

  lemma ThreeKindsAreRanked(filter: seq<Notice>, silence: seq<Notice>, events: seq<Notice>)
    requires forall n | n in filter :: Rank(n) == 7
    requires forall n | n in silence :: Rank(n) == 8
    requires forall n | n in events :: Rank(n) == 9
    ensures Ranked(filter + silence + events)
  {
    OneKindIsRanked(filter, 7);
    OneKindIsRanked(silence, 8);
    OneKindIsRanked(events, 9);
    RankedConcat(filter, silence, 7);
    RankedConcat(filter + silence, events, 8);
  }

  lemma FiveKindsAreRanked(
    lead: seq<Notice>, prior: seq<Notice>, deleted: seq<Notice>, display: seq<Notice>, silence: seq<Notice>)
    requires PartsOfAPage(lead, prior, deleted, display, silence) && Ranked(lead) && Ranked(silence)
    ensures Ranked(lead + prior + deleted + display + silence)
  {
    OneKindIsRanked(prior, 4);
    OneKindIsRanked(deleted, 5);
    OneKindIsRanked(display, 6);
    RankedConcat(lead, prior, 3);
    RankedConcat(lead + prior, deleted, 4);
    RankedConcat(lead + prior + deleted, display, 5);
    RankedConcat(lead + prior + deleted + display, silence, 6);
  }

  lemma FourQuestionsAreRanked(
    window: seq<Notice>, inert: seq<Notice>, incarnations: seq<Notice>, ownership: seq<Notice>)
    requires forall m | m in window :: AboutTheWindow(m)
    requires forall m | m in inert :: m == OnQuestion(InertPredicates)
    requires forall m | m in incarnations :: AboutIncarnations(m)
    requires forall m | m in ownership :: AboutOwnership(m)
    ensures Ranked(window + inert + incarnations + ownership)
  {
    OneKindIsRanked(window, 0);
    OneKindIsRanked(inert, 1);
    OneKindIsRanked(incarnations, 2);
    OneKindIsRanked(ownership, 3);
    RankedConcat(window, inert, 0);
    RankedConcat(window + inert, incarnations, 1);
    RankedConcat(window + inert + incarnations, ownership, 2);
  }

  lemma LeadIsRanked(b: Backend, r: Request)
    ensures Ranked(LeadingNotices(b, r))
  {
    WindowNoteIff(b, r, OnDeletions);
    InertNoteIff(b, r);
    IncarnationNoteIff(b, r, OnDeletions);
    FourQuestionsAreRanked(Note(TimelineBounds(b, r).notice), Note(InertNotice(r)), ChooseIncarnation(b, r).notices,
                           OwnershipNotices(b, r));
  }

  lemma SilenceIsRanked(b: Backend, r: Request, shape: Shape, coverage: Coverage, unexplained: bool)
    ensures Ranked(AboutSilence(b, r, shape, coverage, unexplained).notices)
  {
    var notices := AboutSilence(b, r, shape, coverage, unexplained).notices;
    if r.eventsOnly {
      OneKindIsRanked(notices, 9);
    } else {
      var (filter, attributed) := PredicateNotice(b, r, shape.changes);
      var empty :=
        if !attributed && unexplained then ExplainNoChanges(b, r, shape, coverage) else Explained([], None, 0);
      var events := if empty.finding.None? then EventsNotice(b, r, shape.events) else Explained([], None, 0);
      ThreeKindsAreRanked(Note(filter), empty.notices, events.notices);
      assert notices == Note(filter) + empty.notices + events.notices;
    }
  }

  lemma PageIsRanked(b: Backend, r: Request, choice: Choice, read: seq<Change>, coverage: Coverage)
    ensures Ranked(Page(b, r, choice, LeadingNotices(b, r), read, coverage).notices)
  {
    var deleted, display, silence := PartsOf(b, r, choice, read, coverage);
    SilenceIsRanked(b, r, ShapeOf(Shown(r, read)), coverage, Shown(r, read) != [] || read == []);
    LeadIsRanked(b, r);
    FiveKindsAreRanked(LeadingNotices(b, r), PriorValueNotices(b, r, read), deleted, display, silence);
  }

  /** Notes are read from the question outwards: the window, the flags without effect, the
      incarnations, the owned tree; what was replayed, what the backend cannot show, what was
      set aside; then the filter, the silence, the Events. */
  lemma NotesAreInOrder(b: Backend, r: Request)
    requires Answers(b, r)
    ensures Ranked(Gathered(b, r).notices)
  {
    PageIsRanked(b, r, ChooseIncarnation(b, r), Rows(b, QueryOf(b, r)), RelevantCoverage(b, r).coverage);
  }

  // ---------------------------------------------------------------- the header and the failures

  /** The coverage shown is the whole watches of the scope the rows came from that meet the
      window: the object's, or under --events-only those over the two Event groups. */
  lemma CoverageShown(b: Backend, r: Request)
    requires Answers(b, r)
    ensures var log, coverage := (if r.eventsOnly then b.eventScope else b.scope), Gathered(b, r).coverage;
            && (coverage.gap <==> log.NoScopeLog?)
            && forall i :: i in coverage.intervals <==>
                 && log.Intervals? && i in log.intervals
                 && Overlaps(i, TimelineBounds(b, r).from, TimelineBounds(b, r).to)
                 && (r.eventsOnly ==> i.group == "" || i.group == "events.k8s.io")
  {
  }

  /** The incarnations listed: all of them when all were asked for, from the listing, or from
      the rows when there is no listing; otherwise none. */
  lemma IncarnationsShown(b: Backend, r: Request)
    requires Answers(b, r) && OneOrAll(r)
    ensures var shown := Gathered(b, r).incarnations;
            if !r.allIncarnations then shown == []
            else if !r.eventsOnly && b.incarnations.Listed? && b.incarnations.incarnations != []
            then ListedUIDs(b, shown)
            else forall uid :: uid in shown <==> exists c | c in Rows(b, QueryOf(b, r)) :: !IsEvent(c) && c.uid == uid
  {
  }

  /** Which failure is reported: the guard's, the ownership walk's, the query's, the log's. */
  lemma FailureIs(b: Backend, r: Request)
    requires Gathered(b, r).Failed?
    ensures Gathered(b, r).failure ==
            if b.scanRefused then ScanRefused
            else if r.owned && b.ownership == OwnershipRefused then OwnershipUnsupported
            else if b.timeline == Uncovered then TimelineFailed(true)
            else if b.timeline == Broken then TimelineFailed(false)
            else ScopeLogUnreadable
    ensures Gathered(b, r).failure == ScopeLogUnreadable ==>
              if r.eventsOnly then b.eventScope == ScopeUnreadable else b.scope == ScopeUnreadable
  {
  }
}
