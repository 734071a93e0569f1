/** What the explanations of a silence say beyond the window. Scope logs are asked about
    the window, but the intervals they answer with come back whole: "nothing changed in
    that period" and "nothing was said while that scope was open" speak about the interval
    they name, "nothing was ever watching" about all time before and after, "was not being
    watched before" about all time before, and "no rule streams Events" about now. For
    each of the five, the exact windows for which it is true whatever is recorded. */
module Watches {
  import opened Options
  import opened Query
  import opened Timeline
  import opened Gather
  import opened Silence
  import opened Truth

  // ---------------------------------------------------------------- intervals and windows

  predicate During(i: Interval, t: int) {
    InWindow(t, Some(i.from), i.to)
  }

  /** The interval holds at least the instant it opened. */
  predicate Lasts(i: Interval) {
    i.to.Some? ==> i.from <= i.to.value
  }

  /** The whole interval lies in the window. */
  predicate Inside(i: Interval, bounds: Bounds) {
    && (bounds.from.Some? ==> bounds.from.value <= i.from)
    && (bounds.to.Some? ==> i.to.Some? && i.to.value <= bounds.to.value)
  }

  lemma InsideHoldsIt(i: Interval, bounds: Bounds, t: int)
    requires Inside(i, bounds) && During(i, t)
    ensures InWindow(t, bounds.from, bounds.to)
  {
  }

  lemma OutsideInstant(i: Interval, bounds: Bounds) returns (t: int)
    requires Lasts(i) && !Inside(i, bounds)
    ensures During(i, t) && !InWindow(t, bounds.from, bounds.to)
  {
    if bounds.from.Some? && i.from < bounds.from.value {
      t := i.from;
    } else if i.to.Some? {
      t := i.to.value;
    } else {
      t := if i.from <= bounds.to.value then bounds.to.value + 1 else i.from;
    }
  }

  /** An interval is part of an answer exactly when some instant of it is in the window. */
  lemma OverlapsIff(i: Interval, from: Option<int>, to: Option<int>)
    requires Lasts(i) && (from.Some? && to.Some? ==> from.value <= to.value)
    ensures Overlaps(i, from, to) <==> exists t :: During(i, t) && InWindow(t, from, to)
  {
    if Overlaps(i, from, to) {
      var t := if from.Some? && i.from < from.value then from.value else i.from;
      assert During(i, t) && InWindow(t, from, to);
    }
  }

  /** A row outside the window leaves an empty page over a quiet window. */
  lemma OutsideThePage(b: Backend, r: Request, c: Change)
    requires !InBounds(b, r, c.ts)
    ensures var b' := Over(b, [c]);
            && Rows(b', QueryOf(b', r)) == [] && Displayed(b', r) == [] && WindowIsQuiet(b', r)
            && Rows(b', ProbeOf(b', r)) == []
  {
    var b' := Over(b, [c]);
    SameQuestions(b, [c], r);
    ReadWereSelected(b', QueryOf(b', r));
    EmptyShape(Rows(b', QueryOf(b', r)));
    ProbeSeesEverything(b', r);
  }

  // ---------------------------------------------------------------- nothing changed in that period

  /** The interval the log confirms, once it is known to have been open at the window's start. */
  ghost predicate Confirms(b: Backend, r: Request, i: Interval) {
    Reason(b, r, false, ScopeFor(b, r), NothingChanged(false, i))
  }

  ghost predicate SaysNothingChanged(answer: Answer, i: Interval) {
    answer.Answer? && exists onlyEvents: bool :: OnSilence(NothingChanged(onlyEvents, i)) in answer.notices
  }

  /** No change of the incarnation shown is recorded in the interval. */
  ghost predicate QuietOver(b: Backend, r: Request, i: Interval) {
    forall c | c in b.history :: !OwnRow(QueryOf(b, r).(from := Some(i.from), to := i.to), b.newest, c)
  }

  ghost predicate ChangeSentenceIsTrue(b: Backend, r: Request, i: Interval) {
    SaysNothingChanged(Gathered(b, r), i) ==> QuietOver(b, r, i)
  }

  lemma SaysNothingChangedIff(b: Backend, r: Request, i: Interval)
    requires Answers(b, r)
    ensures SaysNothingChanged(Gathered(b, r), i) <==> Unaccounted(b, r, Rows(b, QueryOf(b, r))) && Confirms(b, r, i)
  {
    EachReasonIff(b, r, NothingChanged(true, i));
    EachReasonIff(b, r, NothingChanged(false, i));
    EitherWording(Gathered(b, r), i);
  }

  lemma EitherWording(answer: Answer, i: Interval)
    requires answer.Answer?
    ensures SaysNothingChanged(answer, i) <==>
            Says(answer, NothingChanged(true, i)) || Says(answer, NothingChanged(false, i))
  {
    if SaysNothingChanged(answer, i) {
      var onlyEvents: bool :| OnSilence(NothingChanged(onlyEvents, i)) in answer.notices;
      assert onlyEvents == true || onlyEvents == false;
    }
  }

  lemma SpeaksOfCoverage(answer: Answer, i: Interval)
    requires SaysNothingChanged(answer, i)
    ensures ClaimsNoChange(answer)
  {
    var onlyEvents: bool :| OnSilence(NothingChanged(onlyEvents, i)) in answer.notices;
  }

  lemma ChangeSentenceIsSound(b: Backend, r: Request, i: Interval)
    requires BuiltByACommand(r) && SaysNothingChanged(Gathered(b, r), i) && Inside(i, TimelineBounds(b, r))
    requires !IncludesEvents(r) || r.limit == 0 || Filtered(r)
    ensures QuietOver(b, r, i)
  {
    SpeaksOfCoverage(Gathered(b, r), i);
    ClaimIsSound(b, r);
    QuietInside(b, r, i);
  }

  lemma QuietInside(b: Backend, r: Request, i: Interval)
    requires WindowIsQuiet(b, r) && Inside(i, TimelineBounds(b, r))
    ensures QuietOver(b, r, i)
  {
    forall c | c in b.history
      ensures !OwnRow(QueryOf(b, r).(from := Some(i.from), to := i.to), b.newest, c)
    {
      if During(i, c.ts) {
        InsideHoldsIt(i, TimelineBounds(b, r), c.ts);
      }
    }
  }

  lemma ChangeIsIn(b: Backend, r: Request, i: Interval, t: int, history: seq<Change>)
    requires During(i, t) && ChangeAt(b, r, t) in history
    ensures !QuietOver(Over(b, history), r, i)
  {
    SameQuestions(b, history, r);
  }

  /** The failing input: the scope was open before the window, or is open after it, and the
      change is recorded there. */
  lemma ChangeOutsideTheWindow(b: Backend, r: Request, i: Interval, t: int)
    requires Answers(b, r) && !r.eventsOnly && (Filtered(r) ==> !b.probeFails) && Confirms(b, r, i)
    requires During(i, t) && !InBounds(b, r, t)
    ensures !ChangeSentenceIsTrue(Over(b, [ChangeAt(b, r, t)]), r, i)
  {
    var history := [ChangeAt(b, r, t)];
    SameQuestions(b, history, r);
    OutsideThePage(b, r, history[0]);
    EmptyShape(Displayed(Over(b, history), r));
    SaysNothingChangedIff(Over(b, history), r, i);
    ChangeIsIn(b, r, i, t, history);
  }

  lemma ChangeCrowdedOutOfThePeriod(b: Backend, r: Request, i: Interval)
    requires Answers(b, r) && CanBeCrowded(r) && !Filtered(r) && Confirms(b, r, i)
    requires Lasts(i) && Inside(i, TimelineBounds(b, r))
    ensures !ChangeSentenceIsTrue(Over(b, Crowd(r, ChangeAt(b, r, i.from), EventAt(b, r, i.from))), r, i)
  {
    var history := Crowd(r, ChangeAt(b, r, i.from), EventAt(b, r, i.from));
    InsideHoldsIt(i, TimelineBounds(b, r), i.from);
    ChangeCrowdedOut(b, r, i.from);
    SameQuestions(b, history, r);
    SaysNothingChangedIff(Over(b, history), r, i);
    ChangeIsIn(b, r, i, i.from, history);
  }

  ghost predicate NeverSaysNothingChanged(b: Backend, r: Request) {
    r.eventsOnly || (Filtered(r) && b.probeFails)
  }

  /** "Watched over this interval, so nothing changed in that period": true over every
      history iff the whole interval lies in the window - the gate already has it open at
      the window's start, so it opened there - and Events cannot fill the page. */
  lemma NothingChangedTrueIff(b: Backend, r: Request, i: Interval)
    requires BuiltByACommand(r) && Answers(b, r) && Confirms(b, r, i) && Lasts(i)
    ensures (forall history: seq<Change> :: ChangeSentenceIsTrue(Over(b, history), r, i)) <==>
            || NeverSaysNothingChanged(b, r)
            || (Inside(i, TimelineBounds(b, r)) && (!IncludesEvents(r) || r.limit == 0 || Filtered(r)))
  {
    if NeverSaysNothingChanged(b, r) {
      forall history: seq<Change>
        ensures ChangeSentenceIsTrue(Over(b, history), r, i)
      {
        SameQuestions(b, history, r);
        SaysNothingChangedIff(Over(b, history), r, i);
      }
    } else if !Inside(i, TimelineBounds(b, r)) {
      var t := OutsideInstant(i, TimelineBounds(b, r));
      ChangeOutsideTheWindow(b, r, i, t);
    } else if IncludesEvents(r) && r.limit > 0 && !Filtered(r) {
      ChangeCrowdedOutOfThePeriod(b, r, i);
    } else {
      forall history: seq<Change>
        ensures ChangeSentenceIsTrue(Over(b, history), r, i)
      {
        SameQuestions(b, history, r);
        if SaysNothingChanged(Gathered(Over(b, history), r), i) {
          ChangeSentenceIsSound(Over(b, history), r, i);
        }
      }
    }
  }

  // ---------------------------------------------------------------- nothing was said while it was open

  /** The interval the Event log confirms. */
  ghost predicate ConfirmsEvents(b: Backend, r: Request, i: Interval) {
    EventReason(r, EventScopeFor(b, r), NothingSaid(FlagOf(r), i))
  }

  /** In the notice, or in what the finding adds. */
  ghost predicate SaysNothingSaid(answer: Answer, r: Request, i: Interval) {
    && answer.Answer?
    && (OnEvents(NothingSaid(FlagOf(r), i)) in answer.notices || answer.finding == Some(NoCoverage(OneAbsence(i))))
  }

  /** No Event about the object is recorded in the interval. */
  ghost predicate SilentOver(b: Backend, r: Request, i: Interval) {
    forall c | c in b.history :: !Correlated(QueryOf(b, r).(from := Some(i.from), to := i.to), b.newest, c)
  }

  ghost predicate EventSentenceIsTrue(b: Backend, r: Request, i: Interval) {
    SaysNothingSaid(Gathered(b, r), r, i) ==> SilentOver(b, r, i)
  }

  lemma SpeaksOfEvents(answer: Answer, r: Request, i: Interval)
    requires SaysNothingSaid(answer, r, i)
    ensures ClaimsNoEvent(answer) || answer.finding.Some?
  {
  }

  lemma EventSentenceIsSound(b: Backend, r: Request, i: Interval)
    requires BuiltByACommand(r) && IncludesEvents(r) && SaysNothingSaid(Gathered(b, r), r, i)
    requires Inside(i, TimelineBounds(b, r)) && (r.eventsOnly || r.limit == 0 || !SomeoneMatches(r))
    ensures SilentOver(b, r, i)
  {
    SpeaksOfEvents(Gathered(b, r), r, i);
    if ClaimsNoEvent(Gathered(b, r)) {
      EventNoteIsSound(b, r);
    } else {
      FindingIff(b, r);
      UnfilledPageHoldsEverything(b, r);
    }
    SilentInside(b, r, i);
  }

  lemma SilentInside(b: Backend, r: Request, i: Interval)
    requires IncludesEvents(r) && NothingWasSaid(b, r) && Inside(i, TimelineBounds(b, r))
    ensures SilentOver(b, r, i)
  {
    var q := QueryOf(b, r);
    forall c | c in b.history
      ensures !Correlated(q.(from := Some(i.from), to := i.to), b.newest, c)
    {
      if During(i, c.ts) {
        InsideHoldsIt(i, TimelineBounds(b, r), c.ts);
        assert Correlated(q.(from := Some(i.from), to := i.to), b.newest, c) ==> Selects(q, b.newest, c);
      }
    }
  }

  lemma EventIsIn(b: Backend, r: Request, i: Interval, t: int, history: seq<Change>)
    requires During(i, t) && EventAt(b, r, t) in history
    ensures !SilentOver(Over(b, history), r, i)
  {
    SameQuestions(b, history, r);
    assert Correlated(QueryOf(b, r).(from := Some(i.from), to := i.to), b.newest, EventAt(b, r, t));
  }

  /** On an empty page the interval is named, by the notice or by the finding. */
  lemma EmptyPageNamesIt(b: Backend, r: Request, i: Interval)
    requires Answers(b, r) && IncludesEvents(r) && Displayed(b, r) == [] && ConfirmsEvents(b, r, i)
    ensures SaysNothingSaid(Gathered(b, r), r, i)
  {
    ShownIsDisplayed(b, r);
    if Gathered(b, r).finding.Some? {
      ClauseIff(b, r);
      var clause := Gathered(b, r).finding.value.events;
      var at: nat :| FirstAt(EventScopeFor(b, r).intervals, at) && EventScopeFor(b, r).intervals[at] == i;
      assert EventScopeFor(b, r).intervals[at] in EventScopeFor(b, r).intervals;
      FirstIsUnique(EventScopeFor(b, r).intervals, i, clause.recorded);
    } else {
      EachEventReasonIff(b, r, NothingSaid(FlagOf(r), i));
    }
  }

  /** The failing input: the Event is recorded while the scope was open, outside the window. */
  lemma EventOutsideTheWindow(b: Backend, r: Request, i: Interval, t: int)
    requires Answers(b, r) && IncludesEvents(r) && ConfirmsEvents(b, r, i)
    requires During(i, t) && !InBounds(b, r, t)
    ensures !EventSentenceIsTrue(Over(b, [EventAt(b, r, t)]), r, i)
  {
    var history := [EventAt(b, r, t)];
    SameQuestions(b, history, r);
    OutsideThePage(b, r, history[0]);
    EmptyPageNamesIt(Over(b, history), r, i);
    EventIsIn(b, r, i, t, history);
  }

  lemma EventCrowdedOutOfThePeriod(b: Backend, r: Request, i: Interval)
    requires Answers(b, r) && CanBeCrowded(r) && ConfirmsEvents(b, r, i)
    requires Lasts(i) && Inside(i, TimelineBounds(b, r))
    ensures !EventSentenceIsTrue(Over(b, Crowd(r, EventAt(b, r, i.from), ChangeAt(b, r, i.from))), r, i)
  {
    var history := Crowd(r, EventAt(b, r, i.from), ChangeAt(b, r, i.from));
    InsideHoldsIt(i, TimelineBounds(b, r), i.from);
    EventCrowdedOut(b, r, i.from, NothingSaid(FlagOf(r), i));
    EventIsIn(b, r, i, i.from, history);
  }

  /** "Events were confirmed recorded over this interval, so nothing was said about it
      while that scope was open": true over every history iff the whole interval lies in
      the window, and changes cannot fill the page. */
  lemma NothingSaidTrueIff(b: Backend, r: Request, i: Interval)
    requires BuiltByACommand(r) && Answers(b, r) && IncludesEvents(r) && ConfirmsEvents(b, r, i) && Lasts(i)
    ensures (forall history: seq<Change> :: EventSentenceIsTrue(Over(b, history), r, i)) <==>
            Inside(i, TimelineBounds(b, r)) && (r.eventsOnly || r.limit == 0 || !SomeoneMatches(r))
  {
    if !Inside(i, TimelineBounds(b, r)) {
      var t := OutsideInstant(i, TimelineBounds(b, r));
      EventOutsideTheWindow(b, r, i, t);
    } else if !r.eventsOnly && r.limit > 0 && SomeoneMatches(r) {
      EventCrowdedOutOfThePeriod(b, r, i);
    } else {
      forall history: seq<Change>
        ensures EventSentenceIsTrue(Over(b, history), r, i)
      {
        SameQuestions(b, history, r);
        if SaysNothingSaid(Gathered(Over(b, history), r), r, i) {
          EventSentenceIsSound(Over(b, history), r, i);
        }
      }
    }
  }

  // ---------------------------------------------------------------- nothing was ever watching

  /** The same backend over another log of the object's scope. */
  function Logged(b: Backend, log: seq<Interval>): Backend {
    b.(scope := Intervals(log))
  }

  /** A refusal, a mode or a broken probe keeps the object's coverage from being spoken of. */
  ghost predicate NeverSpeaks(b: Backend, r: Request) {
    || b.scanRefused || (r.owned && b.ownership.OwnershipRefused?) || !b.timeline.Served?
    || r.eventsOnly || (Filtered(r) && b.probeFails)
  }

  lemma LoggedAnswers(b: Backend, r: Request, log: seq<Interval>)
    ensures !NeverSpeaks(b, r) ==> Answers(Logged(b, log), r)
    ensures TimelineBounds(Logged(b, log), r) == TimelineBounds(b, r)
    ensures ScopeFor(Logged(b, log), r)
            == Intervals(Overlapping(log, TimelineBounds(b, r).from, TimelineBounds(b, r).to))
  {
  }

  /** The finding, and the note that replaces it over a page of Events. */
  ghost predicate SaysEver(answer: Answer) {
    answer.Answer? && (answer.finding.Some? || OnSilence(NeverWatched) in answer.notices)
  }

  ghost predicate EverSentenceIsTrue(b: Backend, r: Request) {
    SaysEver(Gathered(b, r)) ==> b.scope == Intervals([])
  }

  lemma EverNeedsAnEmptyReply(b: Backend, r: Request)
    requires SaysEver(Gathered(b, r))
    ensures !NeverSpeaks(b, r) && ScopeFor(b, r) == Intervals([])
  {
    FindingIff(b, r);
    EachReasonIff(b, r, NeverWatched);
  }

  /** The failing input: a watch that closed before the window or opened after it, with a
      change recorded under it. */
  lemma WatchedOutsideTheWindow(b: Backend, r: Request, watch: Interval)
    requires !NeverSpeaks(b, r) && !Overlaps(watch, TimelineBounds(b, r).from, TimelineBounds(b, r).to)
    requires !InBounds(b, r, watch.from)
    ensures var b' := Logged(b, [watch]);
            !EverSentenceIsTrue(Over(b', [ChangeAt(b', r, watch.from)]), r)
  {
    var b' := Logged(b, [watch]);
    var history := [ChangeAt(b', r, watch.from)];
    LoggedAnswers(b, r, [watch]);
    EmptyReplyIff(Intervals([watch]), TimelineBounds(b, r));
    SameQuestions(b', history, r);
    OutsideThePage(b', r, history[0]);
    FindingIff(Over(b', history), r);
  }

  /** "Nothing was ever watching", exit 3 included: true over every log and history iff the
      window is unbounded at both ends. */
  lemma EverTrueIff(b: Backend, r: Request)
    ensures (forall log: seq<Interval>, history: seq<Change> :: EverSentenceIsTrue(Over(Logged(b, log), history), r))
            <==> NeverSpeaks(b, r) || (TimelineBounds(b, r).from.None? && TimelineBounds(b, r).to.None?)
  {
    var bounds := TimelineBounds(b, r);
    if NeverSpeaks(b, r) || (bounds.from.None? && bounds.to.None?) {
      forall log: seq<Interval>, history: seq<Change>
        ensures EverSentenceIsTrue(Over(Logged(b, log), history), r)
      {
        EverIsSound(b, r, log, history);
      }
    } else if bounds.from.Some? {
      WatchedOutsideTheWindow(b, r, Interval("", bounds.from.value - 2, Some(bounds.from.value - 1), "rule"));
    } else {
      WatchedOutsideTheWindow(b, r, Interval("", bounds.to.value + 1, None, "rule"));
    }
  }

  lemma EverIsSound(b: Backend, r: Request, log: seq<Interval>, history: seq<Change>)
    requires NeverSpeaks(b, r) || (TimelineBounds(b, r).from.None? && TimelineBounds(b, r).to.None?)
    ensures EverSentenceIsTrue(Over(Logged(b, log), history), r)
  {
    var b' := Over(Logged(b, log), history);
    if SaysEver(Gathered(b', r)) {
      EverNeedsAnEmptyReply(b', r);
      LoggedAnswers(b, r, log);
      SameQuestions(Logged(b, log), history, r);
      EverythingOverlaps(log);
    }
  }

  lemma EverythingOverlaps(log: seq<Interval>)
    ensures Overlapping(log, None, None) == [] <==> log == []
  {
    assert log != [] ==> log[0] in Overlapping(log, None, None);
  }

  // ---------------------------------------------------------------- was not being watched before

  /** A log is oldest first. */
  ghost predicate LogOrdered(log: seq<Interval>) {
    forall i, j | 0 <= i < j < |log| :: log[i].from <= log[j].from
  }

  ghost predicate SaysNotBefore(answer: Answer, openedBy: Interval) {
    answer.Answer? && exists onlyEvents: bool :: OnSilence(NotWatchedBefore(onlyEvents, openedBy)) in answer.notices
  }

  ghost predicate NoneOpenedBefore(log: seq<Interval>, instant: int) {
    forall i | i in log :: instant <= i.from
  }

  ghost predicate BeforeSentenceIsTrue(b: Backend, r: Request, openedBy: Interval)
    requires b.scope.Intervals?
  {
    SaysNotBefore(Gathered(b, r), openedBy) ==> NoneOpenedBefore(b.scope.intervals, openedBy.from)
  }

  lemma SaysNotBeforeIff(b: Backend, r: Request, openedBy: Interval)
    requires Answers(b, r)
    ensures SaysNotBefore(Gathered(b, r), openedBy) <==>
            && Unaccounted(b, r, Rows(b, QueryOf(b, r)))
            && Reason(b, r, false, ScopeFor(b, r), NotWatchedBefore(false, openedBy))
  {
    EachReasonIff(b, r, NotWatchedBefore(true, openedBy));
    EachReasonIff(b, r, NotWatchedBefore(false, openedBy));
    EitherWordingBefore(Gathered(b, r), openedBy);
  }

  lemma EitherWordingBefore(answer: Answer, openedBy: Interval)
    requires answer.Answer?
    ensures SaysNotBefore(answer, openedBy) <==>
            Says(answer, NotWatchedBefore(true, openedBy)) || Says(answer, NotWatchedBefore(false, openedBy))
  {
    if SaysNotBefore(answer, openedBy) {
      var onlyEvents: bool :| OnSilence(NotWatchedBefore(onlyEvents, openedBy)) in answer.notices;
      assert onlyEvents == true || onlyEvents == false;
    }
  }

  lemma {:induction false} OverlappingIsOrdered(log: seq<Interval>, from: Option<int>, to: Option<int>)
    requires LogOrdered(log)
    ensures LogOrdered(Overlapping(log, from, to))
  {
    if log != [] {
      var init, last := log[..|log| - 1], log[|log| - 1];
      OverlappingIsOrdered(init, from, to);
      var kept := Overlapping(init, from, to);
      forall k | 0 <= k < |kept|
        ensures kept[k].from <= last.from
      {
        assert kept[k] in kept && kept[k] in init;
      }
    }
  }

  /** From an unbounded start, the first watch answered is the first of the log. */
  lemma FirstAnsweredIsFirst(log: seq<Interval>, to: Option<int>)
    requires LogOrdered(log) && Overlapping(log, None, to) != []
    ensures NoneOpenedBefore(log, Overlapping(log, None, to)[0].from)
  {
    var kept := Overlapping(log, None, to);
    OverlappingIsOrdered(log, None, to);
    assert kept[0] in kept;
    forall i | i in log
      ensures kept[0].from <= i.from
    {
      if i in kept {
        var k :| 0 <= k < |kept| && kept[k] == i;
        assert k > 0 ==> kept[0].from <= kept[k].from;
      }
    }
  }

  /** No watch can open inside the window after its start. */
  ghost predicate NoLaterStart(bounds: Bounds) {
    bounds.from.None? || (bounds.to.Some? && bounds.to.value <= bounds.from.value)
  }

  /** The failing input: an earlier watch closed before the window. */
  lemma WatchedEarlier(b: Backend, r: Request, earlier: Interval, openedBy: Interval)
    requires !NeverSpeaks(b, r) && earlier.from < openedBy.from && TimelineBounds(b, r).from.Some?
    requires TimelineBounds(b, r).from.value < openedBy.from
    requires var bounds := TimelineBounds(b, r);
             !Overlaps(earlier, bounds.from, bounds.to) && Overlaps(openedBy, bounds.from, bounds.to)
    ensures LogOrdered([earlier, openedBy])
    ensures !BeforeSentenceIsTrue(Over(Logged(b, [earlier, openedBy]), []), r, openedBy)
  {
    var log := [earlier, openedBy];
    LoggedAnswers(b, r, log);
    SecondOverlaps(earlier, openedBy, TimelineBounds(b, r).from, TimelineBounds(b, r).to);
    SameQuestions(Logged(b, log), [], r);
    NoHistoryNoPage(Logged(b, log), r);
    EmptyPageSaysNotBefore(Over(Logged(b, log), []), r, openedBy);
    assert earlier in log;
  }

  lemma EmptyPageSaysNotBefore(b: Backend, r: Request, openedBy: Interval)
    requires Answers(b, r) && !NeverSpeaks(b, r) && Displayed(b, r) == []
    requires Rows(b, QueryOf(b, r)) == [] && Rows(b, ProbeOf(b, r)) == []
    requires Reason(b, r, false, ScopeFor(b, r), NotWatchedBefore(false, openedBy))
    ensures SaysNotBefore(Gathered(b, r), openedBy)
  {
    EmptyShape(Displayed(b, r));
    SaysNotBeforeIff(b, r, openedBy);
  }

  lemma SecondOverlaps(earlier: Interval, openedBy: Interval, from: Option<int>, to: Option<int>)
    requires !Overlaps(earlier, from, to) && Overlaps(openedBy, from, to)
    ensures Overlapping([earlier, openedBy], from, to) == [openedBy]
  {
    var log := [earlier, openedBy];
    assert log[..1] == [earlier] && [earlier][..0] == [];
    assert Overlapping([earlier], from, to) == Overlapping([], from, to) + [];
  }

  lemma NoHistoryNoPage(b: Backend, r: Request)
    ensures var b' := Over(b, []);
            && Rows(b', QueryOf(b', r)) == [] && Displayed(b', r) == [] && Rows(b', ProbeOf(b', r)) == []
  {
  }

  /** "Was not being watched before this watch opened": true over every log and history iff
      the window has no start, or none can open after it. */
  lemma NotWatchedBeforeTrueIff(b: Backend, r: Request)
    ensures (forall log: seq<Interval>, history: seq<Change>, openedBy: Interval | LogOrdered(log) ::
               BeforeSentenceIsTrue(Over(Logged(b, log), history), r, openedBy))
            <==> NeverSpeaks(b, r) || NoLaterStart(TimelineBounds(b, r))
  {
    if NeverSpeaks(b, r) || NoLaterStart(TimelineBounds(b, r)) {
      forall log: seq<Interval>, history: seq<Change>, openedBy: Interval | LogOrdered(log)
        ensures BeforeSentenceIsTrue(Over(Logged(b, log), history), r, openedBy)
      {
        BeforeIsSound(b, r, log, history, openedBy);
      }
    } else {
      var from := TimelineBounds(b, r).from.value;
      WatchedEarlier(b, r, Interval("", from - 2, Some(from - 1), "rule"), Interval("", from + 1, None, "rule"));
    }
  }

  lemma BeforeIsSound(b: Backend, r: Request, log: seq<Interval>, history: seq<Change>, openedBy: Interval)
    requires LogOrdered(log) && (NeverSpeaks(b, r) || NoLaterStart(TimelineBounds(b, r)))
    ensures BeforeSentenceIsTrue(Over(Logged(b, log), history), r, openedBy)
  {
    var b' := Over(Logged(b, log), history);
    if SaysNotBefore(Gathered(b', r), openedBy) {
      NotBeforeNeedsALaterStart(b', r, openedBy);
      LoggedAnswers(b, r, log);
      SameQuestions(Logged(b, log), history, r);
      FirstAnswered(log, TimelineBounds(b, r), openedBy);
    }
  }

  lemma NotBeforeNeedsALaterStart(b: Backend, r: Request, openedBy: Interval)
    requires SaysNotBefore(Gathered(b, r), openedBy)
    ensures !NeverSpeaks(b, r) && ScopeFor(b, r).Intervals? && ScopeFor(b, r).intervals != []
    ensures ScopeFor(b, r).intervals[0] == openedBy
    ensures TimelineBounds(b, r).from.Some? ==> TimelineBounds(b, r).from.value < openedBy.from
  {
    SaysNotBeforeIff(b, r, openedBy);
  }

  lemma FirstAnswered(log: seq<Interval>, bounds: Bounds, openedBy: Interval)
    requires LogOrdered(log) && NoLaterStart(bounds)
    requires Overlapping(log, bounds.from, bounds.to) != [] && Overlapping(log, bounds.from, bounds.to)[0] == openedBy
    requires bounds.from.Some? ==> bounds.from.value < openedBy.from
    ensures NoneOpenedBefore(log, openedBy.from)
  {
    assert openedBy in Overlapping(log, bounds.from, bounds.to);
    assert bounds.from.None?;
    FirstAnsweredIsFirst(log, bounds.to);
  }

  // ---------------------------------------------------------------- no rule streams Events

  function EventLogged(b: Backend, log: seq<Interval>): Backend {
    b.(eventScope := Intervals(log))
  }

  /** In the notice, or as the second of the finding's two gaps. */
  ghost predicate SaysNoRule(answer: Answer, r: Request) {
    && answer.Answer?
    && (OnEvents(NoRule(FlagOf(r))) in answer.notices || answer.finding == Some(NoCoverage(TwoGaps)))
  }

  /** A watch over Events is open now. */
  ghost predicate Streams(log: seq<Interval>) {
    exists i | i in log :: OfEvents(i) && i.to.None?
  }

  ghost predicate RuleSentenceIsTrue(b: Backend, r: Request)
    requires b.eventScope.Intervals?
  {
    SaysNoRule(Gathered(b, r), r) ==> !Streams(b.eventScope.intervals)
  }

  ghost predicate NeverSpeaksOfEvents(b: Backend, r: Request) {
    || b.scanRefused || (r.owned && b.ownership.OwnershipRefused?) || !b.timeline.Served?
    || !IncludesEvents(r) || (!r.eventsOnly && b.scope.ScopeUnreadable?)
  }

  lemma EventLoggedAnswers(b: Backend, r: Request, log: seq<Interval>)
    ensures Answers(EventLogged(b, log), r) && IncludesEvents(r) <==> !NeverSpeaksOfEvents(b, r)
    ensures TimelineBounds(EventLogged(b, log), r) == TimelineBounds(b, r)
    ensures EventScopeFor(EventLogged(b, log), r)
            == Intervals(Overlapping(log, TimelineBounds(b, r).from, TimelineBounds(b, r).to))
  {
  }

  lemma NoRuleNeedsNoWatch(b: Backend, r: Request)
    requires SaysNoRule(Gathered(b, r), r)
    ensures IncludesEvents(r) && !EventsWatched(EventScopeFor(b, r))
  {
    EachEventReasonIff(b, r, NoRule(FlagOf(r)));
    if Gathered(b, r).finding.Some? {
      ClauseIff(b, r);
    }
  }

  lemma EmptyPageSaysNoRule(b: Backend, r: Request)
    requires Answers(b, r) && IncludesEvents(r) && Displayed(b, r) == [] && EventScopeFor(b, r) == Intervals([])
    ensures SaysNoRule(Gathered(b, r), r)
  {
    ShownIsDisplayed(b, r);
    if Gathered(b, r).finding.Some? {
      ClauseIff(b, r);
    } else {
      EachEventReasonIff(b, r, NoRule(FlagOf(r)));
    }
  }

  /** The failing input: Events have been streamed since some time after the window. */
  lemma StreamedSince(b: Backend, r: Request)
    requires !NeverSpeaksOfEvents(b, r) && TimelineBounds(b, r).to.Some?
    ensures var watch := Interval("", TimelineBounds(b, r).to.value + 1, None, "rule");
            !RuleSentenceIsTrue(Over(EventLogged(b, [watch]), []), r)
  {
    var watch := Interval("", TimelineBounds(b, r).to.value + 1, None, "rule");
    var b' := EventLogged(b, [watch]);
    EventLoggedAnswers(b, r, [watch]);
    EmptyReplyIff(Intervals([watch]), TimelineBounds(b, r));
    SameQuestions(b', [], r);
    NoHistoryNoPage(b', r);
    EmptyPageSaysNoRule(Over(b', []), r);
    assert watch in [watch];
  }

  /** "No rule streams Events to this sink": true over every log and history iff the window
      has no end. */
  lemma NoRuleTrueIff(b: Backend, r: Request)
    ensures (forall log: seq<Interval>, history: seq<Change> ::
               RuleSentenceIsTrue(Over(EventLogged(b, log), history), r))
            <==> NeverSpeaksOfEvents(b, r) || TimelineBounds(b, r).to.None?
  {
    if NeverSpeaksOfEvents(b, r) || TimelineBounds(b, r).to.None? {
      forall log: seq<Interval>, history: seq<Change>
        ensures RuleSentenceIsTrue(Over(EventLogged(b, log), history), r)
      {
        RuleIsSound(b, r, log, history);
      }
    } else {
      StreamedSince(b, r);
    }
  }

  lemma RuleIsSound(b: Backend, r: Request, log: seq<Interval>, history: seq<Change>)
    requires NeverSpeaksOfEvents(b, r) || TimelineBounds(b, r).to.None?
    ensures RuleSentenceIsTrue(Over(EventLogged(b, log), history), r)
  {
    var b' := Over(EventLogged(b, log), history);
    if SaysNoRule(Gathered(b', r), r) {
      NoRuleNeedsNoWatch(b', r);
      EventLoggedAnswers(b, r, log);
      SameQuestions(EventLogged(b, log), history, r);
      OpenWatchIsAnswered(log, TimelineBounds(b, r).from);
    }
  }

  lemma OpenWatchIsAnswered(log: seq<Interval>, from: Option<int>)
    ensures Streams(log) ==> EventsWatched(Intervals(Overlapping(log, from, None)))
  {
    if Streams(log) {
      var i :| i in log && OfEvents(i) && i.to.None?;
      assert i in Overlapping(log, from, None);
    }
  }
}
