/** The history behind a blame table: where internal/cli/blame.go cuts it between the
    state it starts from and the rows it attributes, and the replay of both halves
    (internal/query/replay.go, internal/cli/replay/attribute.go). */
module Blame {
  import opened Options
  import opened Query
  import opened Timeline
  import opened Gather
  import opened Silence

  /** Applying a recorded patch to a document, or failing to. */
  type Patcher = (string, string) -> Option<string>

  /** The document being kept in step: none yet, current, or stopped at a patch that
      would not apply. */
  datatype Doc = NoState | Current(text: string) | Stale(text: string)

  function Advance(doc: Doc, c: Change, patch: Patcher): Doc {
    if c.data != "" then Current(c.data)
    else if !doc.Current? || c.diff == "" then doc
    else match patch(doc.text, c.diff) case Some(next) => Current(next) case None => Stale(doc.text)
  }

  function ReplayAll(doc: Doc, rows: seq<Change>, patch: Patcher): Doc
    decreases |rows|
  {
    if rows == [] then doc else ReplayAll(Advance(doc, rows[0], patch), rows[1..], patch)
  }

  /** attribute's run: Events are passed over, and a deletion ends it. */
  function AttributeRun(seed: Doc, rows: seq<Change>, patch: Patcher): Doc
    decreases |rows|
  {
    if rows == [] || rows[0].eventType.Deleted? then seed
    else AttributeRun(if IsEvent(rows[0]) then seed else Advance(seed, rows[0], patch), rows[1..], patch)
  }

  // ---------------------------------------------------------------- reconstruction

  /** One incarnation's own rows in a window. */
  function Incarnate(uid: string, from: Option<int>, to: Option<int>): TimelineQuery {
    TimelineQuery(from, to, uid, false, [], [], [], 0, false, false, false, {})
  }

  function RowsOf(history: seq<Change>, uid: string, from: Option<int>, to: Option<int>): seq<Change> {
    Selected(history, uid, Incarnate(uid, from, to))
  }

  /** The last row carrying full state, or -1. */
  function BaseRow(rows: seq<Change>): (base: int)
    ensures -1 <= base < |rows|
    ensures base >= 0 ==> rows[base].data != ""
    ensures forall i | base < i < |rows| :: rows[i].data == ""
  {
    if rows == [] then -1
    else if rows[|rows| - 1].data != "" then |rows| - 1
    else BaseRow(rows[..|rows| - 1])
  }

  /** query.Replay past its base; the first patch that will not apply ends it. */
  function ReplayFrom(text: string, rows: seq<Change>, patch: Patcher): Option<string>
    decreases |rows|
  {
    if rows == [] then Some(text)
    else if rows[0].data != "" then ReplayFrom(rows[0].data, rows[1..], patch)
    else if rows[0].diff == "" then ReplayFrom(text, rows[1..], patch)
    else match patch(text, rows[0].diff)
      case Some(next) => ReplayFrom(next, rows[1..], patch)
      case None => None
  }

  predicate Deletes(rows: seq<Change>) {
    exists c | c in rows :: c.eventType.Deleted?
  }

  /** StateAt: None when nothing is recorded, the incarnation is gone, no full state
      survives, or a patch does not apply. */
  function StateAt(history: seq<Change>, uid: string, at: int, patch: Patcher): Option<string> {
    var rows := RowsOf(history, uid, None, Some(at));
    if Deletes(rows) then None else FromBase(rows, patch)
  }

  lemma {:induction false} ReplayOfConcat(doc: Doc, a: seq<Change>, c: seq<Change>, patch: Patcher)
    ensures ReplayAll(doc, a + c, patch) == ReplayAll(ReplayAll(doc, a, patch), c, patch)
    decreases |a|
  {
    if a == [] {
      assert a + c == c;
    } else {
      assert (a + c)[1..] == a[1..] + c;
      ReplayOfConcat(Advance(doc, a[0], patch), a[1..], c, patch);
    }
  }

  // What the two replays compute, without either.

  /** next is what the row makes of prev: its own full state, the same document when it
      carries nothing, or prev with its patch applied. */
  ghost predicate Follows(prev: string, c: Change, next: string, patch: Patcher) {
    if c.data != "" then next == c.data
    else if c.diff == "" then next == prev
    else patch(prev, c.diff) == Some(next)
  }

  /** One document before each row and one after the last, each following from the one before. */
  ghost predicate Chain(docs: seq<string>, rows: seq<Change>, patch: Patcher) {
    |docs| == |rows| + 1 && forall i: nat | i < |rows| :: LinkAt(docs, rows, i, patch)
  }

  ghost predicate LinkAt(docs: seq<string>, rows: seq<Change>, i: nat, patch: Patcher)
    requires |docs| == |rows| + 1 && i < |rows|
  {
    Follows(docs[i], rows[i], docs[i + 1], patch)
  }

  ghost predicate Leads(docs: seq<string>, from: string, rows: seq<Change>, to: string, patch: Patcher) {
    Chain(docs, rows, patch) && docs[0] == from && docs[|rows|] == to
  }

  ghost predicate LeadsTo(from: string, rows: seq<Change>, to: string, patch: Patcher) {
    exists docs :: Leads(docs, from, rows, to, patch)
  }

  lemma {:induction false} ReplayFromIff(text: string, rows: seq<Change>, result: string, patch: Patcher)
    ensures ReplayFrom(text, rows, patch) == Some(result) <==> LeadsTo(text, rows, result, patch)
    decreases |rows|
  {
    if rows == [] {
      if text == result {
        assert Leads([text], text, rows, result, patch);
      }
    } else {
      if ReplayFrom(text, rows, patch) == Some(result) {
        var c := rows[0];
        var next := if c.data != "" then c.data else if c.diff == "" then text else patch(text, c.diff).value;
        ReplayFromIff(next, rows[1..], result, patch);
        var docs :| Leads(docs, next, rows[1..], result, patch);
        Prepended(text, docs, rows, result, patch);
      }
      if docs :| Leads(docs, text, rows, result, patch) {
        Shortened(docs, text, rows, result, patch);
        ReplayFromIff(docs[1], rows[1..], result, patch);
      }
    }
  }

  lemma Prepended(text: string, docs: seq<string>, rows: seq<Change>, result: string, patch: Patcher)
    requires rows != [] && |docs| > 0 && Follows(text, rows[0], docs[0], patch)
    requires Leads(docs, docs[0], rows[1..], result, patch)
    ensures Leads([text] + docs, text, rows, result, patch)
  {
    var all := [text] + docs;
    forall i: nat | i < |rows|
      ensures LinkAt(all, rows, i, patch)
    {
      if i > 0 {
        assert LinkAt(docs, rows[1..], i - 1, patch);
      }
    }
  }

  lemma Shortened(docs: seq<string>, text: string, rows: seq<Change>, result: string, patch: Patcher)
    requires rows != [] && Leads(docs, text, rows, result, patch)
    ensures Follows(text, rows[0], docs[1], patch) && Leads(docs[1..], docs[1], rows[1..], result, patch)
  {
    assert LinkAt(docs, rows, 0, patch);
    forall i: nat | i < |rows[1..]|
      ensures LinkAt(docs[1..], rows[1..], i, patch)
    {
      assert LinkAt(docs, rows, i + 1, patch);
    }
  }

  /** The last row carrying full state. */
  ghost predicate LastFullState(rows: seq<Change>, base: nat) {
    base < |rows| && rows[base].data != "" && forall i | base < i < |rows| :: rows[i].data == ""
  }

  /** The rows lead, from their last full state and through every patch after it, to text. */
  ghost predicate Reaches(rows: seq<Change>, text: string, patch: Patcher) {
    exists base: nat :: LastFullState(rows, base) && LeadsTo(rows[base].data, rows[base + 1..], text, patch)
  }

  lemma OneLastFullState(rows: seq<Change>, a: nat, c: nat)
    requires LastFullState(rows, a) && LastFullState(rows, c)
    ensures a == c
  {
  }

  lemma ReachesAt(rows: seq<Change>, base: nat, text: string, patch: Patcher)
    requires LastFullState(rows, base)
    ensures Reaches(rows, text, patch) <==> LeadsTo(rows[base].data, rows[base + 1..], text, patch)
  {
    if other: nat :| LastFullState(rows, other) && LeadsTo(rows[other].data, rows[other + 1..], text, patch) {
      OneLastFullState(rows, base, other);
    }
  }

  /** Replay from the last full state, if there is one. */
  function FromBase(rows: seq<Change>, patch: Patcher): Option<string> {
    var base := BaseRow(rows);
    if base < 0 then None else ReplayFrom(rows[base].data, rows[base + 1..], patch)
  }

  lemma FromBaseIff(rows: seq<Change>, text: string, patch: Patcher)
    ensures FromBase(rows, patch) == Some(text) <==> Reaches(rows, text, patch)
  {
    var base := BaseRow(rows);
    if base >= 0 {
      ReachesAt(rows, base, text, patch);
      ReplayFromIff(rows[base].data, rows[base + 1..], text, patch);
    }
  }

  /** What a reconstruction is, exactly: the document the incarnation's rows lead to, when
      none of them deletes it. */
  lemma StateAtIff(history: seq<Change>, uid: string, at: int, text: string, patch: Patcher)
    ensures var rows := RowsOf(history, uid, None, Some(at));
            StateAt(history, uid, at, patch) == Some(text) <==> !Deletes(rows) && Reaches(rows, text, patch)
  {
    FromBaseIff(RowsOf(history, uid, None, Some(at)), text, patch);
  }

  /** The rows a reconstruction reads. */
  lemma RowsOfMembers(history: seq<Change>, uid: string, from: Option<int>, to: Option<int>)
    ensures forall c :: c in RowsOf(history, uid, from, to) <==>
                        c in history && !IsEvent(c) && c.uid == uid && InWindow(c.ts, from, to)
  {
    SelectedMembers(history, uid, Incarnate(uid, from, to));
  }

  /** Past the last full state, the document stays current exactly along such a chain. */
  lemma {:induction false} CurrentIff(text: string, rows: seq<Change>, result: string, patch: Patcher)
    requires forall i | 0 <= i < |rows| :: rows[i].data == ""
    ensures ReplayAll(Current(text), rows, patch) == Current(result) <==> ReplayFrom(text, rows, patch) == Some(result)
    decreases |rows|
  {
    if rows != [] {
      match Advance(Current(text), rows[0], patch)
      case Current(next) => CurrentIff(next, rows[1..], result, patch);
      case Stale(last) => StaleStays(last, rows[1..], patch);
    }
  }

  lemma {:induction false} StaleStays(text: string, rows: seq<Change>, patch: Patcher)
    requires forall i | 0 <= i < |rows| :: rows[i].data == ""
    ensures ReplayAll(Stale(text), rows, patch) == Stale(text)
    decreases |rows|
  {
    if rows != [] {
      StaleStays(text, rows[1..], patch);
    }
  }

  /** The same for the document attribution keeps: it is current, and says text, exactly
      when the rows lead there. */
  lemma ReplayIff(rows: seq<Change>, text: string, patch: Patcher)
    ensures ReplayAll(NoState, rows, patch) == Current(text) <==> Reaches(rows, text, patch)
  {
    var base := BaseRow(rows);
    FromBaseIff(rows, text, patch);
    if base >= 0 {
      ReplayPast(rows, base, patch);
      CurrentIff(rows[base].data, rows[base + 1..], text, patch);
    } else {
      NothingToKeep(rows, patch);
    }
  }

  lemma ReplayPast(rows: seq<Change>, base: nat, patch: Patcher)
    requires base < |rows| && rows[base].data != ""
    ensures ReplayAll(NoState, rows, patch) == ReplayAll(Current(rows[base].data), rows[base + 1..], patch)
  {
    var head, tail := rows[..base], rows[base + 1..];
    assert rows == head + ([rows[base]] + tail);
    ReplayOfConcat(NoState, head, [rows[base]] + tail, patch);
    assert ([rows[base]] + tail)[1..] == tail;
  }

  lemma {:induction false} NothingToKeep(rows: seq<Change>, patch: Patcher)
    requires forall i | 0 <= i < |rows| :: rows[i].data == ""
    ensures ReplayAll(NoState, rows, patch) == NoState
    decreases |rows|
  {
    if rows != [] {
      NothingToKeep(rows[1..], patch);
    }
  }

  /** A reconstruction is the replay of everything, and succeeds whenever that does. */
  lemma StateAtReplaysEverything(history: seq<Change>, uid: string, at: int, text: string, patch: Patcher)
    ensures var rows := RowsOf(history, uid, None, Some(at));
            StateAt(history, uid, at, patch) == Some(text)
            <==> !Deletes(rows) && ReplayAll(NoState, rows, patch) == Current(text)
  {
    StateAtIff(history, uid, at, text, patch);
    ReplayIff(RowsOf(history, uid, None, Some(at)), text, patch);
  }

  // ---------------------------------------------------------------- the cut

  /** blameAnchor: one nanosecond before the oldest row, or the end of the window. */
  function BlameAnchor(rows: seq<Change>, to: Option<int>, now: int): int {
    if rows != [] then rows[0].ts - 1 else if to.Some? then to.value else now
  }

  lemma {:induction false} NoneBeyond(history: seq<Change>, uid: string, cut: int, to: Option<int>)
    requires forall c | c in history :: c.ts < cut
    ensures RowsOf(history, uid, Some(cut), to) == []
  {
    if history != [] {
      assert history[|history| - 1] in history;
      NoneBeyond(history[..|history| - 1], uid, cut, to);
    }
  }

  lemma {:induction false} CutAt(history: seq<Change>, uid: string, cut: int, to: Option<int>)
    requires Ordered(history) && (to.Some? ==> cut - 1 <= to.value)
    ensures RowsOf(history, uid, None, Some(cut - 1)) + RowsOf(history, uid, Some(cut), to)
            == RowsOf(history, uid, None, to)
  {
    if history != [] {
      var init, last := history[..|history| - 1], history[|history| - 1];
      CutAt(init, uid, cut, to);
      if last.ts < cut {
        NoneBeyond(init, uid, cut, to);
      }
    }
  }

  /** The window's rows, asked for by its own start or by its oldest row, are the same. */
  lemma WindowStartsAtItsOldest(history: seq<Change>, uid: string, from: Option<int>, to: Option<int>)
    returns (oldest: int)
    requires Ordered(history) && RowsOf(history, uid, from, to) != []
    ensures oldest == RowsOf(history, uid, from, to)[0].ts
    ensures RowsOf(history, uid, from, to) == RowsOf(history, uid, Some(oldest), to)
    ensures (from.Some? ==> from.value <= oldest) && (to.Some? ==> oldest <= to.value)
  {
    var q := Incarnate(uid, from, to);
    var rows := RowsOf(history, uid, from, to);
    SelectedIsOrdered(history, uid, q);
    SelectedMembers(history, uid, q);
    assert rows[0] in rows;
    oldest := rows[0].ts;
    var q' := Incarnate(uid, Some(oldest), to);
    forall c | c in history
      ensures Selects(q, uid, c) == Selects(q', uid, c)
    {
      if Selects(q, uid, c) {
        assert c in rows;
        var i :| 0 <= i < |rows| && rows[i] == c;
        assert i > 0 ==> rows[0].ts <= rows[i].ts;
      }
    }
    SelectedCongruent(history, uid, q, uid, q');
  }

  /** The seed and the rows split the incarnation's history exactly: everything at or
      before the anchor, then the rows, is everything up to the window's end - no change
      twice, none skipped, one recorded on the window's own start included. */
  lemma AnchorSplitsHistory(history: seq<Change>, uid: string, from: Option<int>, to: Option<int>, now: int)
    requires Ordered(history) && RowsOf(history, uid, from, to) != []
    ensures var rows := RowsOf(history, uid, from, to);
            RowsOf(history, uid, None, Some(BlameAnchor(rows, to, now))) + rows == RowsOf(history, uid, None, to)
  {
    var oldest := WindowStartsAtItsOldest(history, uid, from, to);
    CutAt(history, uid, oldest, to);
    assert BlameAnchor(RowsOf(history, uid, from, to), to, now) == oldest - 1;
  }

  // ---------------------------------------------------------------- the seed

  predicate HasFullState(rows: seq<Change>) {
    exists c | c in rows :: c.data != ""
  }

  /** The oldest full state among the rows, or nothing. */
  function OldestFullState(rows: seq<Change>): Doc {
    if rows == [] then NoState
    else if rows[0].data != "" then Current(rows[0].data)
    else OldestFullState(rows[1..])
  }

  method FallbackSeed(rows: seq<Change>) returns (seed: Doc)
    ensures seed == OldestFullState(rows)
  {
    assert rows[0..] == rows;
    for i := 0 to |rows|
      invariant OldestFullState(rows) == OldestFullState(rows[i..])
    {
      if rows[i].data != "" {
        return Current(rows[i].data);
      }
      assert rows[i..][1..] == rows[i + 1..];
    }
    return NoState;
  }

  lemma {:induction false} OldestIsTheFirst(rows: seq<Change>)
    ensures OldestFullState(rows) == NoState <==> !HasFullState(rows)
    ensures HasFullState(rows) ==>
              exists i: nat :: FirstFullState(rows, i) && OldestFullState(rows) == Current(rows[i].data)
  {
    if rows != [] {
      assert rows == [rows[0]] + rows[1..];
      if rows[0].data != "" {
        assert rows[0] in rows && FirstFullState(rows, 0);
      } else {
        OldestIsTheFirst(rows[1..]);
        if HasFullState(rows[1..]) {
          var i: nat :| FirstFullState(rows[1..], i) && OldestFullState(rows[1..]) == Current(rows[1..][i].data);
          assert FirstFullState(rows, i + 1);
        }
      }
    }
  }

  ghost predicate FirstFullState(rows: seq<Change>, i: nat) {
    i < |rows| && rows[i].data != "" && forall j | 0 <= j < i :: rows[j].data == ""
  }

  /** seedBlameState: nothing before a first sighting, else the reconstructed state, else
      the oldest full state already read. */
  function SeedOf(history: seq<Change>, uid: string, rows: seq<Change>, to: Option<int>, now: int, patch: Patcher)
    : Doc
  {
    if rows != [] && rows[0].eventType.Added? then NoState
    else
      match StateAt(history, uid, BlameAnchor(rows, to, now), patch)
      case Some(text) => Current(text)
      case None => OldestFullState(rows)
  }

  /** Which of the three it is: nothing at a first sighting; else what the rows up to the
      anchor lead to; else, when they lead nowhere, the oldest full state read. */
  lemma SeedIs(
    history: seq<Change>, uid: string, rows: seq<Change>, to: Option<int>, now: int, text: string, patch: Patcher)
    ensures var seed := SeedOf(history, uid, rows, to, now, patch);
            var before := RowsOf(history, uid, None, Some(BlameAnchor(rows, to, now)));
            if rows != [] && rows[0].eventType == Added then seed == NoState
            else if !Deletes(before) && LeadsSomewhere(before, patch) then
              seed == Current(text) <==> Reaches(before, text, patch)
            else seed == Current(text) <==> exists i: nat :: FirstFullState(rows, i) && rows[i].data == text
  {
    var before := RowsOf(history, uid, None, Some(BlameAnchor(rows, to, now)));
    FromBaseIff(before, text, patch);
    SomewhereIff(before, patch);
    OldestIsTheFirst(rows);
    if i: nat :| FirstFullState(rows, i) && rows[i].data == text {
      assert rows[i] in rows;
    }
  }

  /** Nothing is recorded of an incarnation after its deletion, a deletion carries neither
      state nor patch, and a first sighting carries full state. */
  ghost predicate WellRecorded(rows: seq<Change>) {
    forall i | 0 <= i < |rows| ::
      && (rows[i].eventType.Deleted? ==> i == |rows| - 1 && rows[i].data == "" && rows[i].diff == "")
      && (rows[i].eventType.Added? ==> rows[i].data != "")
      && !IsEvent(rows[i])
  }

  lemma {:induction false} RunIsReplay(seed: Doc, rows: seq<Change>, patch: Patcher)
    requires WellRecorded(rows)
    ensures AttributeRun(seed, rows, patch) == ReplayAll(seed, rows, patch)
    decreases |rows|
  {
    if rows != [] {
      if rows[0].eventType.Deleted? {
        assert rows[1..] == [];
      } else {
        assert forall i | 0 <= i < |rows[1..]| :: rows[1..][i] == rows[i + 1];
        RunIsReplay(Advance(seed, rows[0], patch), rows[1..], patch);
      }
    }
  }

  /** A deletion ends the run: nothing after it counts. */
  lemma {:induction false} DeletionEndsTheRun(
    seed: Doc, rows: seq<Change>, deletion: Change, after: seq<Change>, patch: Patcher)
    requires deletion.eventType.Deleted?
    ensures AttributeRun(seed, rows + [deletion] + after, patch) == AttributeRun(seed, rows, patch)
    decreases |rows|
  {
    var all := rows + [deletion] + after;
    if rows == [] {
      assert all[0] == deletion;
    } else {
      assert all[0] == rows[0] && all[1..] == rows[1..] + [deletion] + after;
      var next := if IsEvent(rows[0]) then seed else Advance(seed, rows[0], patch);
      DeletionEndsTheRun(next, rows[1..], deletion, after, patch);
    }
  }

  /** A merged Event is passed over. */
  lemma {:induction false} EventsArePassedOver(
    seed: Doc, rows: seq<Change>, event: Change, after: seq<Change>, patch: Patcher)
    requires IsEvent(event)
    ensures AttributeRun(seed, rows + [event] + after, patch) == AttributeRun(seed, rows + after, patch)
    decreases |rows|
  {
    var all := rows + [event] + after;
    if rows == [] {
      assert all[0] == event && all[1..] == after && rows + after == after;
    } else {
      assert all[0] == rows[0] && all[1..] == rows[1..] + [event] + after;
      assert (rows + after)[0] == rows[0] && (rows + after)[1..] == rows[1..] + after;
      var next := if IsEvent(rows[0]) then seed else Advance(seed, rows[0], patch);
      EventsArePassedOver(next, rows[1..], event, after, patch);
    }
  }

  lemma TailIsWellRecorded(before: seq<Change>, rows: seq<Change>)
    requires WellRecorded(before + rows)
    ensures WellRecorded(rows)
  {
    assert forall i | 0 <= i < |rows| :: rows[i] == (before + rows)[|before| + i];
  }

  // ---------------------------------------------------------------- what the replay ends on

  /** A full state makes everything before it immaterial. */
  lemma {:induction false} FullStateForgets(seed: Doc, other: Doc, rows: seq<Change>, patch: Patcher)
    requires HasFullState(rows)
    ensures ReplayAll(seed, rows, patch) == ReplayAll(other, rows, patch)
    decreases |rows|
  {
    if rows[0].data == "" {
      assert rows == [rows[0]] + rows[1..];
      FullStateForgets(Advance(seed, rows[0], patch), Advance(other, rows[0], patch), rows[1..], patch);
    }
  }

  /** There is a state to show iff there was one, or a row carries one. */
  lemma {:induction false} StateSurvives(seed: Doc, rows: seq<Change>, patch: Patcher)
    ensures ReplayAll(seed, rows, patch).NoState? <==> seed.NoState? && !HasFullState(rows)
    decreases |rows|
  {
    if rows != [] {
      assert rows == [rows[0]] + rows[1..];
      StateSurvives(Advance(seed, rows[0], patch), rows[1..], patch);
    }
  }

  /** The rows before the anchor carry no full state, or lead to a document: nothing in them
      deletes the object, and every patch after their last full state applies. */
  ghost predicate Restorable(before: seq<Change>, patch: Patcher) {
    !HasFullState(before) || (!Deletes(before) && LeadsSomewhere(before, patch))
  }

  lemma RestorableIff(before: seq<Change>, patch: Patcher)
    ensures Restorable(before, patch) <==> BaseRow(before) < 0 || (!Deletes(before) && FromBase(before, patch).Some?)
  {
    BaseRowIff(before);
    SomewhereIff(before, patch);
  }

  ghost predicate LeadsSomewhere(rows: seq<Change>, patch: Patcher) {
    exists text :: Reaches(rows, text, patch)
  }

  lemma SomewhereIff(rows: seq<Change>, patch: Patcher)
    ensures LeadsSomewhere(rows, patch) <==> FromBase(rows, patch).Some?
  {
    var r := FromBase(rows, patch);
    if r.Some? {
      FromBaseIff(rows, r.value, patch);
    }
    if text :| Reaches(rows, text, patch) {
      FromBaseIff(rows, text, patch);
    }
  }

  lemma BaseRowIff(rows: seq<Change>)
    ensures BaseRow(rows) >= 0 <==> HasFullState(rows)
  {
    var base := BaseRow(rows);
    assert base >= 0 ==> rows[base] in rows;
  }

  /** The exact condition, over the rows on either side of the anchor: what attribution
      ends on is the replay of them all iff the window carries a full state of its own, or
      what came before it can be restored. */
  lemma AttributionIsReplayIff(
    history: seq<Change>, uid: string, rows: seq<Change>, to: Option<int>, now: int, patch: Patcher)
    requires WellRecorded(RowsOf(history, uid, None, Some(BlameAnchor(rows, to, now))) + rows)
    ensures var before := RowsOf(history, uid, None, Some(BlameAnchor(rows, to, now)));
            AttributeRun(SeedOf(history, uid, rows, to, now, patch), rows, patch)
            == ReplayAll(NoState, before + rows, patch)
            <==> HasFullState(rows) || Restorable(before, patch)
  {
    var anchor := BlameAnchor(rows, to, now);
    var before, seed := RowsOf(history, uid, None, Some(anchor)), SeedOf(history, uid, rows, to, now, patch);
    var reached := ReplayAll(NoState, before, patch);
    TailIsWellRecorded(before, rows);
    RunIsReplay(seed, rows, patch);
    ReplayOfConcat(NoState, before, rows, patch);
    var state := StateAt(history, uid, anchor, patch);
    if state.Some? {
      StateAtReplaysEverything(history, uid, anchor, state.value, patch);
    }
    RestorableIff(before, patch);
    if HasFullState(rows) {
      FullStateForgets(seed, reached, rows, patch);
    } else {
      BaseRowIff(before);
      OldestIsTheFirst(rows);
      assert rows != [] ==> rows[0] in rows;
      StateSurvives(NoState, before, patch);
      StateSurvives(seed, rows, patch);
      StateSurvives(reached, rows, patch);
    }
  }

  /** A history outside the condition: a first state, a patch that does not apply, and a
      window that opens on the patch after it. */
  lemma LostToABadPatch(first: Change, bad: Change, next: Change, patch: Patcher)
    requires first == Row(0, Added, "{}", "") && bad == Row(1, Modified, "", "-") && next == Row(2, Modified, "", "+")
    requires patch("{}", "-").None?
    ensures RowsOf([first, bad, next], "u", Some(2), None) == [next]
    ensures AttributeRun(SeedOf([first, bad, next], "u", [next], None, 3, patch), [next], patch)
            != ReplayAll(NoState, [first, bad, next], patch)
  {
    var history := [first, bad, next];
    ThreeRows(first, bad, next);
    assert [first, bad] + [next] == history;
    NotRestorable(first, bad, patch);
    AttributionIsReplayIff(history, "u", [next], None, 3, patch);
  }

  lemma ThreeRows(first: Change, bad: Change, next: Change)
    requires first == Row(0, Added, "{}", "") && bad == Row(1, Modified, "", "-") && next == Row(2, Modified, "", "+")
    ensures RowsOf([first, bad, next], "u", Some(2), None) == [next]
    ensures RowsOf([first, bad, next], "u", None, Some(1)) == [first, bad]
  {
    SelectedOfThree(first, bad, next, Incarnate("u", Some(2), None));
    SelectedOfThree(first, bad, next, Incarnate("u", None, Some(1)));
  }

  lemma NotRestorable(first: Change, bad: Change, patch: Patcher)
    requires first.data != "" && bad.data == "" && bad.diff != "" && patch(first.data, bad.diff).None?
    ensures !Restorable([first, bad], patch)
  {
    var rows := [first, bad];
    RestorableIff(rows, patch);
    assert rows[..1] == [first] && rows[1..] == [bad];
    assert BaseRow([first]) == 0 && BaseRow(rows) == 0;
    assert ReplayFrom(first.data, [bad], patch) == None;
  }

  lemma SelectedOfThree(a: Change, b: Change, c: Change, q: TimelineQuery)
    ensures Selected([a, b, c], "u", q)
            == (if Selects(q, "u", a) then [a] else []) + (if Selects(q, "u", b) then [b] else [])
               + (if Selects(q, "u", c) then [c] else [])
  {
    SelectedOfAppend([], a, "u", q);
    SelectedOfAppend([a], b, "u", q);
    SelectedOfAppend([a, b], c, "u", q);
    assert [] + [a] == [a] && [a] + [b] == [a, b] && [a, b] + [c] == [a, b, c];
  }

  function Row(ts: int, eventType: EventType, data: string, diff: string): Change {
    Change(ts, eventType, [], "u", data, diff, None, Itself("u"))
  }

  // ---------------------------------------------------------------- the command

  /** What RunBlame asks gatherChanges for: the whole window of one incarnation, oldest
      first, with no limit, no predicate and no Event. */
  predicate BlameRequest(r: Request) {
    && r.limit == 0 && !r.reverse && !r.allIncarnations && r.displayFieldPaths == []
    && r.actors == [] && r.excludeActors == [] && r.fieldPaths == []
    && !r.withEvents && !r.eventsOnly && !r.owned
  }

  /** Its rows are exactly the window's rows of that incarnation, so the cut above is the
      one the command makes. */
  lemma BlameRowsAreTheWindow(b: Backend, r: Request)
    requires BlameRequest(r) && Answers(b, r)
    ensures var bounds := TimelineBounds(b, r);
            Gathered(b, r).rows == RowsOf(b.history, ShownUID(b, r), bounds.from, bounds.to)
  {
    var g, q, uid := Gathered(b, r), QueryOf(b, r), ShownUID(b, r);
    PageIsTheNewest(b, r);
    ShownIsQueried(b, r);
    SelectedCongruent(b.history, b.newest, q, uid, Incarnate(uid, q.from, q.to));
  }

  /** blame end to end. The document its attribution ends on is the replay of the
      incarnation's whole history to the window's end - to the anchor, when the window
      holds nothing - iff the window carries a full state or what came before it can be
      restored. The failing family: no full state in the window, one before it, and a
      patch between that one and the anchor that does not apply, or a deletion. */
  lemma BlameReplaysTheWholeHistoryIff(b: Backend, r: Request, patch: Patcher)
    requires BlameRequest(r) && Answers(b, r) && Ordered(b.history)
    requires WellRecorded(WholeHistory(b, r))
    ensures var rows := Gathered(b, r).rows;
            AttributeRun(BlameSeed(b, r, patch), rows, patch) == ReplayAll(NoState, WholeHistory(b, r), patch)
            <==> HasFullState(rows) || Restorable(BeforeTheWindow(b, r), patch)
  {
    WholeIsBothHalves(b, r);
    AttributionIsReplayIff(b.history, ShownUID(b, r), Gathered(b, r).rows, TimelineBounds(b, r).to, r.now, patch);
  }

  /** What a reader takes the table for: whenever the incarnation's rows to the window's end
      lead to a document and none deletes it - whenever StateAt there has an answer - that
      is the document the attribution ends on. */
  lemma BlameEndsOnTheState(b: Backend, r: Request, text: string, patch: Patcher)
    requires BlameRequest(r) && Answers(b, r) && Ordered(b.history) && WellRecorded(WholeHistory(b, r))
    requires !Deletes(WholeHistory(b, r)) && Reaches(WholeHistory(b, r), text, patch)
    ensures AttributeRun(BlameSeed(b, r, patch), Gathered(b, r).rows, patch) == Current(text)
  {
    var before, rows := BeforeTheWindow(b, r), Gathered(b, r).rows;
    BlameReplaysTheWholeHistoryIff(b, r, patch);
    ReplayIff(WholeHistory(b, r), text, patch);
    WholeIsBothHalves(b, r);
    RestorableHalf(before, rows, patch);
  }

  /** Those rows are all there are up to the window's end, or up to now when it has none and
      holds nothing. */
  lemma WindowEndSeesItAll(b: Backend, r: Request, patch: Patcher, text: string)
    requires Answers(b, r)
    ensures var uid, to := ShownUID(b, r), TimelineBounds(b, r).to;
            && (to.Some? ==> WholeHistory(b, r) == RowsOf(b.history, uid, None, to))
            && (to.None? && Gathered(b, r).rows == [] ==>
                  WholeHistory(b, r) == RowsOf(b.history, uid, None, Some(r.now)))
            && (to.Some? ==>
                  (StateAt(b.history, uid, to.value, patch) == Some(text)
                   <==> !Deletes(WholeHistory(b, r)) && Reaches(WholeHistory(b, r), text, patch)))
  {
    if TimelineBounds(b, r).to.Some? {
      StateAtIff(b.history, ShownUID(b, r), TimelineBounds(b, r).to.value, text, patch);
    }
  }

  lemma WholeIsBothHalves(b: Backend, r: Request)
    requires BlameRequest(r) && Answers(b, r) && Ordered(b.history)
    ensures WholeHistory(b, r) == BeforeTheWindow(b, r) + Gathered(b, r).rows
  {
    var bounds, rows, uid := TimelineBounds(b, r), Gathered(b, r).rows, ShownUID(b, r);
    BlameRowsAreTheWindow(b, r);
    if rows != [] {
      AnchorSplitsHistory(b.history, uid, bounds.from, bounds.to, r.now);
    }
  }

  lemma {:induction false} ReplayOfPrefix(text: string, a: seq<Change>, c: seq<Change>, patch: Patcher)
    ensures ReplayFrom(text, a + c, patch).Some? ==> ReplayFrom(text, a, patch).Some?
    decreases |a|
  {
    if a != [] {
      assert (a + c)[0] == a[0] && (a + c)[1..] == a[1..] + c;
      match Advance(Current(text), a[0], patch)
      case Current(next) => ReplayOfPrefix(next, a[1..], c, patch);
      case Stale(_) =>
    }
  }

  lemma {:induction false} BaseIsBefore(before: seq<Change>, rows: seq<Change>)
    requires !HasFullState(rows)
    ensures BaseRow(before + rows) == BaseRow(before)
    decreases |rows|
  {
    if rows == [] {
      assert before + rows == before;
    } else {
      var init, last := rows[..|rows| - 1], rows[|rows| - 1];
      assert last in rows && forall c | c in init :: c in rows;
      assert (before + rows)[..|before + rows| - 1] == before + init;
      BaseIsBefore(before, init);
    }
  }

  lemma SplitAfter<T>(a: seq<T>, c: seq<T>, k: nat)
    requires k < |a|
    ensures (a + c)[k] == a[k] && (a + c)[k + 1..] == a[k + 1..] + c && forall x | x in a :: x in a + c
  {
  }

  /** A history that can be reconstructed has a window with a full state, or a past that can. */
  lemma RestorableHalf(before: seq<Change>, rows: seq<Change>, patch: Patcher)
    requires Restorable(before + rows, patch)
    ensures HasFullState(rows) || Restorable(before, patch)
  {
    var whole := before + rows;
    RestorableIff(whole, patch);
    RestorableIff(before, patch);
    if !HasFullState(rows) {
      BaseIsBefore(before, rows);
      var base := BaseRow(before);
      if base >= 0 {
        SplitAfter(before, rows, base);
        ReplayOfPrefix(before[base].data, before[base + 1..], rows, patch);
        assert Deletes(before) ==> Deletes(whole);
      }
    }
  }

  function BlameSeed(b: Backend, r: Request, patch: Patcher): Doc
    requires Answers(b, r)
  {
    SeedOf(b.history, ShownUID(b, r), Gathered(b, r).rows, TimelineBounds(b, r).to, r.now, patch)
  }

  ghost function BeforeTheWindow(b: Backend, r: Request): seq<Change>
    requires Answers(b, r)
  {
    RowsOf(b.history, ShownUID(b, r), None, Some(BlameAnchor(Gathered(b, r).rows, TimelineBounds(b, r).to, r.now)))
  }

  ghost function WholeHistory(b: Backend, r: Request): seq<Change>
    requires Answers(b, r)
  {
    if Gathered(b, r).rows == [] then BeforeTheWindow(b, r)
    else RowsOf(b.history, ShownUID(b, r), None, TimelineBounds(b, r).to)
  }
}
