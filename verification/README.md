# kuberecord, verified in Dafny

kuberecord watches a Kubernetes cluster, writes what changes to an archive, and answers
questions about the archive from a `kubectl` plugin. This project models the parts of it
whose correctness cannot be read off one function, and proves what they promise, for every
input and over every run.

| file | what it holds |
|---|---|
| `Events.dfy`, `Coalescer.dfy` | the Event coalescer as a mutable object, and the digest it compares |
| `CoalesceRuns.dfy` | whole runs of it: sweeping against never sweeping, what a skip proves, what sweeps cost |
| `CoalesceSpace.dfy` | how large its map gets, and what scope evictions do to that |
| `CoalesceFlush.dfy` | one Event identity with time: watch, work queue, delaying queue and commits as a step system |
| `Query.dfy` | the query engine's contract |
| `Timeline.dfy`, `Gather.dfy` | `timeline`: the request, the incarnation, the explanations, and its two implementations |
| `Requests.dfy` | which rows, header, failure and notes a request gets, said of its own flags |
| `Silence.dfy` | that the two implementations agree, and exactly which reason every silent answer gives |
| `Truth.dfy` | whether what is said about the window is true of the history, and exactly for which requests it always is |
| `Watches.dfy` | whether what is said about a named interval, about all time, or about now is true, and exactly for which windows |
| `Blame.dfy` | how `blame` splits an object's history, the seed it starts from, and when its attribution ends where a full replay does |
| `Shell.dfy`, `ProfileFlags.dfy` | POSIX quoting, the command `config set-profile` prints, and reading it back |
| `ProfileFile.dfy` | the profile file and its active pointer, over runs of commands |
| `RuleMetrics.dfy`, `RuleKeys.dfy` | the `kuberecord_rules` gauge and the keys it is indexed by |
| `Redaction.dfy`, `Actors.dfy`, `Strings.dfy` | the canonical redaction string, the actor annotation, and the string facts under both |
| `Options.dfy` | the option type the others share |

Code that changes state in place is a class or a method with a loop, specified by a function
of its old state; the run-level results are lemmas about those functions. Notices and
findings are tagged values. A mutex-guarded method is one atomic step. A backend is a record
of the answers it gives: history, scope logs, incarnation listing, and which calls fail.

`dafny verify dfyconfig.toml` checks the project.

## Where the code and its description differ

- **Sweeping.** The coalescer's comments call dropping a passed entry behaviour-neutral
  (`internal/pipeline/coalesce.go:198-202`, `:281-284`). It is exactly when no recorded row's
  stamp-minus-window lies beyond the observation's own now-minus-window
  (`CoalesceRuns.SweepNeutralIff`). A window that grows or a clock that steps back breaks
  it, and then only ever in the direction of one more row (`CoalesceRuns.SweepNeverAddsASkip`).
- **Space.** The same comment bounds the map by the Events of the last window. With at most
  `peak` live entries at any recorded row, the sweep threshold stays within
  `max(128, 2 * peak)` throughout a run iff every `deletePrefix` in it that removes something
  leaves few enough entries behind (`CoalesceSpace.ThresholdKeptIff`), and the map is then
  always under it (`CoalesceSpace.SpaceBound`). From any point on, the size is bounded in
  every continuation up to the next eviction iff the threshold in force there is
  (`CoalesceSpace.StaysUnderIff`). Without the condition the map can reach any size over one
  live entry (`CoalesceSpace.EvictionsBreakTheSpaceBound`).
- **Sentences about the window, decided from the page.** With Events merged and a limit set,
  rows of one kind can fill the page, and what is then said about the other kind can be false
  of the window: no changes recorded in it, or "the filter matched none of them", over a change
  in it (`Truth.ChangeCrowdedOut`); no Events in it over a recorded Event
  (`Truth.EventCrowdedOut`). Likewise `diff --field` under a limit can say that none of the
  recorded changes touched a path over one that did (`Truth.TouchCrowdedOut`). This window half
  of each sentence is true while the limit is not filled, and
  `Truth.ExplanationAlwaysSoundIff`, `Truth.FilterNoteAlwaysTrueIff`,
  `Truth.EventNoteAlwaysTrueIff` and `Truth.DisplayNoteAlwaysTrueIff` give the requests for
  which it is always true.
- **Sentences about more than the window, decided from the window.** A scope log is asked about
  the window and answers with whole intervals. "Watched over this interval, so nothing changed
  in that period" and "nothing was said while that scope was open" are true over every history
  iff the interval lies wholly in the window and the page cannot be filled by the other kind
  (`Watches.NothingChangedTrueIff`, `Watches.NothingSaidTrueIff`); with `--since 1h` over a scope
  open for a year, a change from last week makes them false. "Nothing was ever watching", exit 3
  included, is true over every log iff the window is unbounded at both ends
  (`Watches.EverTrueIff`); "was not being watched before" iff the window has no start
  (`Watches.NotWatchedBeforeTrueIff`); "no rule streams Events to this sink" iff it has no end
  (`Watches.NoRuleTrueIff`).
- **Blame without a seed.** When no earlier state can be rebuilt, `blame` starts from the
  oldest full state in its window, or from none. Its attribution ends where replaying the whole
  history does iff the window carries a full state or what came before it can be restored
  (`Blame.BlameReplaysTheWholeHistoryIff`, `Blame.LostToABadPatch`); and whenever the state at
  the window's end can be reconstructed at all, it ends on that state
  (`Blame.BlameEndsOnTheState`).
- **A listing without UIDs.** The newest incarnation is found by a loop that takes an empty
  UID for "none yet"; `Timeline.NewestIsTheMaximumIff` says exactly when it is the maximum.
- **Names that look like flags.** A profile name of two or more characters that starts with
  `-` is printed, and is read back as something else; every other name reads back
  (`ProfileFlags.WordsReadBackIff`).
- **Newlines in redaction paths.** Two policies share a canonical string iff their sorted
  paths, cut at newlines, are the same lines (`Redaction.SameStringIffSameLines`); with the
  newline-free paths the API's own pattern allows, iff they scrub the same paths
  (`Redaction.SameStringIffSamePaths`).

## Model

| member | source | states |
|---|---|---|
| `Events.EventCoalesceHash` | internal/pipeline/coalesce.go:151-166 | the digest built field by field is the projection that drops the bump fields |
| `Events.DigestIgnoresExactlyTheBumps` | internal/pipeline/coalesce.go:115-133 | two states digest alike iff they agree, in presence and value, on every top-level field except the six bump fields |
| `Coalescing.Coalescer.constructor` | internal/pipeline/coalesce.go:206-214 | the zero value is usable: no entries, sweep threshold zero |
| `Coalescing.Coalescer.Decide` | internal/pipeline/coalesce.go:234-251 | reads only; the answer is the decision on the stored entry, and a skip's deadline is the recorded stamp plus the window |
| `Coalescing.Coalescer.Remember` | internal/pipeline/coalesce.go:263-276 | whole new state, and the number of entries the sweep walked |
| `Coalescing.Coalescer.SweepLocked` | internal/pipeline/coalesce.go:285-298 | keeps exactly the entries younger than the window, resets the threshold, and walks every entry once or none |
| `Coalescing.Coalescer.Forget` | internal/pipeline/coalesce.go:305-309 | removes that one entry and leaves the threshold |
| `Coalescing.Coalescer.DeletePrefix` | internal/pipeline/coalesce.go:316-334 | removes exactly the scope's entries, reports how many, and touches the threshold only if some went |
| `Coalescing.Threshold` | internal/pipeline/coalesce.go:297 | the next threshold exceeds the survivors and the floor of 128 |
| `CoalesceRuns.SweepsDropOnlyThePassed` | internal/pipeline/coalesce.go:278-298 | over every run the swept map is the unswept one minus entries that some recorded row's horizon had passed |
| `CoalesceRuns.SweepNeverAddsASkip` | internal/pipeline/coalesce.go:234-298 | with any clocks and windows, a skip is one the machine that never sweeps takes, with the same deadline |
| `CoalesceRuns.SteadyImpliesHorizon` | internal/pipeline/coalesce.go:281-284 | a window that has not grown and a clock not behind an earlier stamp imply the horizon condition |
| `CoalesceRuns.SweepIsNeutral` | internal/pipeline/coalesce.go:234-298 | under the horizon condition every (flushAfter, skip) equals the answer of the machine that never sweeps |
| `CoalesceRuns.PassedHorizonIsVisible` | internal/pipeline/coalesce.go:285-298 | for every horizon beyond the observation's there is a run in which the sweep changes the answer |
| `CoalesceRuns.SweepNeutralIff` | internal/pipeline/coalesce.go:198-202 | sweeping is invisible in all runs recorded up to a horizon iff the observation's own horizon is not behind it |
| `CoalesceRuns.UnsweptHoldsTheLastRow` | internal/pipeline/coalesce.go:263-334 | without sweeping, a key's entry is its last recorded row, and exists iff nothing forgot or evicted it since |
| `CoalesceRuns.SkipIsJustified` | internal/pipeline/coalesce.go:219-223 | a skip is preceded by a remembered row of that key with that digest, under a window old, not forgotten, evicted or superseded; the deadline is its stamp plus the window |
| `CoalesceRuns.SkipsIff` | internal/pipeline/coalesce.go:234-251 | as long as no sweep has looked past it, an observation is skipped iff the key's last row carries its digest and is under a window old |
| `CoalesceRuns.SkippedStateDiffersOnlyInBumps` | internal/pipeline/coalesce.go:219-223 | the suppressed and the recorded state differ only in bump fields |
| `CoalesceRuns.UnknownFieldForcesAWrite` | internal/pipeline/coalesce.go:115-166 | a differing field outside the six always writes, whatever the clock and window |
| `CoalesceRuns.KeyView` | internal/pipeline/coalesce.go:263-334 | one step as one key sees it: its own calls set or clear its entry, another's leaves it or sweeps it once passed |
| `CoalesceRuns.BankedCredit` | internal/pipeline/coalesce.go:209-213 | the potential argument: entries walked plus banked credit never exceed twice the remember calls, and the map is below its threshold |
| `CoalesceRuns.SweepsAreAmortised` | internal/pipeline/coalesce.go:209-213 | over any run of all four calls, sweeps walk at most two entries per remember |
| `CoalesceRuns.BelowThresholdAfterRemember` | internal/pipeline/coalesce.go:263-298 | after each remember with a positive window the map is smaller than its threshold |
| `CoalesceRuns.Replay` | internal/pipeline/coalesce.go:206-334 | making a run of calls on a new object leaves the state, the answers and the walk count the run lemmas speak of |
| `CoalesceSpace.ThresholdKeptIff` | internal/pipeline/coalesce.go:327-332 | with at most peak live entries, the threshold stays within the peak's own throughout iff every eviction that removes something leaves few enough entries |
| `CoalesceSpace.SpaceBound` | internal/pipeline/coalesce.go:198-202 | under that condition the map stays under max(128, 2 * peak) at every point of the run |
| `CoalesceSpace.StaysUnderIff` | internal/pipeline/coalesce.go:327-332 | from any point, the size is bounded in every continuation up to the next eviction iff the threshold in force is |
| `CoalesceSpace.EvictionsBreakTheSpaceBound` | internal/pipeline/coalesce.go:327-332 | for every n there is a run with evictions, n entries and never more than one live |
| `CoalesceFlush.StepKeepsInvariant` | internal/pipeline/process.go:695-708 | every step keeps: a state not yet handed to the sink is queued or has a flush due within one window of the newest row |
| `CoalesceFlush.RunKeepsInvariant` | internal/pipeline/coalesce.go:225-233 | the same over every run, with commits late and in any order |
| `CoalesceFlush.LastBumpIsNeverLost` | internal/pipeline/coalesce.go:225-233 | once the key is settled, the live state has been handed to the sink as the newest row or a flush is pending no later than that row's stamp plus the window |
| `CoalesceFlush.ArchiveTrailsByAtMostOneWindow` | internal/pipeline/coalesce.go:225-233 | a state not handed over is under a newest row at most one window old; a window after the last change it is handed over; and with no commit in flight the archive holds it |
| `CoalesceFlush.CommitArchives` | internal/pipeline/process.go:930-945 | a row handed over is confirmed, or its commit is still to come and archives it |
| `CoalesceFlush.DeadlineNeverMovesOut` | internal/pipeline/pipeline.go:224-241 | a pending re-delivery that does not fire stays pending and never moves later |
| `CoalesceFlush.OneKeyOfTheSharedMap` | internal/pipeline/coalesce.go:234-334 | every call on the shared map is, for one key, one of the steps of its own system, and decide answers from its own entry |
| `CoalesceFlush.WorkWritesIff` | internal/pipeline/process.go:636-708 | a work item writes the live state as one row, and writes none iff the Event is gone, a duplicate, or the recorded row differs only in bumps and is under a window old; then it is re-delivered by that row's stamp plus the window |
| `CoalesceFlush.OneRowPerWindow` | internal/pipeline/coalesce.go:225-233 | a burst of bumps, rows confirmed before the next work item, is written at most once per window |
| `CoalesceFlush.BurstBegins` | internal/pipeline/process.go:930-945 | every Event's first delivery, once confirmed, starts such a burst |
| `Query.ReversedTakeIsNewest` | internal/cli/gather.go:165-195 | limiting newest first and turning the page over gives the newest N oldest first |
| `Query.SelectedIsOrdered` | internal/query/query.go:78-100 | what a query selects keeps history order |
| `Timeline.TimelineBounds` | internal/cli/timeline.go:835-863 | given bounds are kept, and a backend that needs a window gets both ends |
| `Timeline.NewestUID` | internal/cli/incarnation.go:152-162 | the loop computes the running choice |
| `Timeline.NewestIsTheMaximumIff` | internal/cli/incarnation.go:152-162 | the choice is in the listing, and is its maximum by first seen, then last seen, iff a maximum has a UID or the listing ends on one |
| `Timeline.NamedNewestIsChosen` | internal/cli/incarnation.go:152-162 | if a maximum has a UID, the choice is a maximum with a UID |
| `Timeline.CollectChanges` | internal/cli/timeline.go:912-932 | the cursor is drained completely and in order |
| `Timeline.KeepEventIntervals` | internal/cli/coverage.go:442-450 | the loop keeps exactly the intervals of the two groups Events live in, in order |
| `Timeline.ExplainNoChanges` | internal/cli/coverage.go:153-189 | the finding iff the page is empty and the log answered with nothing; otherwise one note when no change is shown; the Event scope read only for the finding |
| `Timeline.NoEventsNotice` | internal/cli/gather.go:399-407 | a note iff Events were asked for and none is on the page |
| `Timeline.EventsNotice` | internal/cli/gather.go:376-385 | spends exactly one read of the Event scope per note given |
| `Timeline.PredicateNotice` | internal/cli/gather.go:516-564 | the filter is blamed iff one is in force, no change is shown, and the unfiltered probe failed or found a row |
| `Gather.KeepDisplayRows` | internal/cli/gather.go:456-467 | the loop keeps exactly the rows touching the display paths |
| `Gather.DistinctUIDs` | internal/cli/incarnation.go:235-246 | exactly the UIDs of the non-Event rows, each once |
| `Gather.GatherChanges` | internal/cli/gather.go:122-199 | the gathered path, step by step, gives the specified answer or the specified failure |
| `Gather.LayOut` | internal/cli/gather.go:165-231 | rows turned over in place, header and notices in the specified order |
| `Gather.ExplainGathered` | internal/cli/gather.go:208-287 | the gathered path's explanations are the shared specification |
| `Gather.EmitChanges` | internal/cli/timelinestream.go:248-298 | writes the cursor, reversed if held; the flags it kept describe the rows written; holds exactly the cursor or nothing |
| `Gather.RunTimelineStructured` | internal/cli/timelinestream.go:74-213 | the streaming path gives the specified answer or failure |
| `Gather.ExplainStreamed` | internal/cli/timelinestream.go:147-212 | the streaming path's switch over kept flags is the same specification |
| `Gather.AboutSilence` | internal/cli/gather.go:218-287 | coverage is spoken of only over an unattributed page without an object change, outside events-only, with the probe clear |
| `Requests.RowsWereAskedFor` | internal/cli/timeline.go:873-889 | every row shown is recorded, in the window, an Event only if asked for and about the right object, else a change of the incarnation shown that passes the request's own predicates; no more than the limit |
| `Requests.WhatWasAskedForIsShown` | internal/cli/timeline.go:873-889 | with room on the page and no display paths, the rows shown are exactly those |
| `Requests.PinIsObeyed` | internal/cli/incarnation.go:97-132 | `--uid` is the incarnation shown, however the listing went |
| `Requests.ActorPredicatesAre` | internal/query/filter.go:52-60 | kept iff some wanted actor, or any when none is given, made the change and no unwanted one did |
| `Requests.FieldPredicateIs` | internal/query/filter.go:79-120 | kept iff a touched path is the one asked for or beneath it, or the patch cannot be read |
| `Requests.DisplayKeepsTheOrder` | internal/cli/gather.go:456-467 | the rows kept for display are exactly the touching ones, in the order read |
| `Requests.SelectionKeepsTheOrder` | internal/query/query.go:78-100 | what a query selects is exactly what it matches, in history order |
| `Requests.WindowIs` | internal/cli/timeline.go:835-863 | the window asked for, or completed with the last 24 hours or now where the backend needs both ends |
| `Requests.EachNoteIff` | internal/cli/gather.go:122-231 | each note about the window, inert flags, incarnations, ownership, the replay, deletions and the display filter is given, with its values, iff the request and the backend call for it |
| `Requests.FlagWasGiven` | internal/cli/timeline.go:739-751 | an Event note names the flag that was given, events-only before with-events before owned |
| `Requests.NotesAreInOrder` | internal/cli/gather.go:122-287 | notes come in the order window, inert flags, incarnations, ownership, replay, deletions, display, filter, silence, Events |
| `Requests.CoverageShown` | internal/cli/gather.go:304-311 | the coverage shown is every whole watch of the rows' own scope that meets the window |
| `Requests.IncarnationsShown` | internal/cli/gather.go:165-180 | incarnations are listed iff all were asked for, from the listing or else from the rows |
| `Requests.FailureIs` | internal/cli/gather.go:122-199 | which failure is reported, in the order the questions are asked |
| `Silence.PageIsTheNewest` | internal/cli/gather.go:165-195 | the page is the newest N rows the query selects, in display order |
| `Silence.NothingNewerIsLeftOut` | internal/cli/gather.go:165-195 | no selected change left off the page is newer than one on it |
| `Silence.StreamWritesThePage` | internal/cli/timelinestream.go:248-363 | for every history, limit and `--reverse` the stream writes the displayed sequence, holding back at most the limit |
| `Silence.PagesAgree` | internal/cli/timelinestream.go:147-212 | given the same rows and coverage, equal rows, finding and reads, and equal notices minus the prior-value ones |
| `Silence.TwoPathsOneAnswer` | internal/cli/timelinestream.go:74-213 | for every request and backend the two paths fail together or give the same rows, coverage, finding and notices in the same order, minus the prior-value ones |
| `Silence.TwoPathsOneFailure` | internal/cli/timelinestream.go:74-213 | the two paths report the same failure iff not both the timeline query and the scope log fail |
| `Silence.TwoPathsOneSelection` | internal/cli/incarnation.go:80-120 | both paths select the same incarnations; the table's header then falls back on its rows where none was selected |
| `Silence.HeaderNamesTheRows` | internal/cli/gather.go:148-180 | unless all incarnations are asked for, every non-Event row carries the header's UID, however the listing went |
| `Silence.HeaderNamesTheNewest` | internal/cli/incarnation.go:97-120 | a successful listing with no `--uid`, holding a maximum with a UID, puts such a maximum in the header |
| `Silence.FindingIff` | internal/cli/gather.go:218-262 | the no-coverage finding iff not events-only, no row read, an empty reply about the object's scope, and no predicate or a clean empty probe |
| `Silence.EmptyReplyIff` | internal/query/scope.go:169-183 | the reply is empty iff no interval of the whole log meets the window |
| `Silence.ExitThreeIff` | internal/cli/timeline.go:941-954 | exit code 3 iff that finding, or the engine itself refuses for want of coverage |
| `Silence.EachReasonIff` | internal/cli/coverage.go:153-189 | each explanation is given iff the silence is unaccounted for and the scope log says exactly that, with the interval it names |
| `Silence.EachEventReasonIff` | internal/cli/coverage.go:490-534 | each reason for missing Events is given iff they were asked for, none is shown, the finding does not say it, and the Event scope's log says exactly that, naming its first Event watch |
| `Silence.ClauseIff` | internal/cli/coverage.go:328-369 | what the finding adds about Events is what the Event scope's log says, naming its first Event watch |
| `Truth.ClaimNeedsAnUnattributedPage` | internal/cli/gather.go:243-262 | any statement about coverage comes from a page without an object change, with the predicates cleared |
| `Truth.ProbeSeesEverything` | internal/cli/gather.go:539-564 | the probe is empty iff the whole unfiltered window holds no change of that incarnation |
| `Truth.FilterIsBlamedIff` | internal/cli/coverage.go:610-630 | when the filter is named: in force, no change shown, and the unfiltered window holds one; "could not be re-read" iff the probe failed |
| `Truth.FilterNoteIsSound` | internal/cli/coverage.go:610-630 | either sentence is true - nothing recorded matches - when the limit is not filled, no Events are merged, or nothing can match |
| `Truth.EventNoteIsSound` | internal/cli/coverage.go:490-534 | the window half of any sentence about missing Events is true when the limit is not filled, or no change can take a row |
| `Truth.ExplanationIsSound` | internal/cli/gather.go:243-262 | the window half of every coverage explanation: with the limit not filled, the window holds no change of the incarnation shown |
| `Truth.ChangeCrowdedOut` | internal/cli/coverage.go:610-630 | in any backend and at any instant, a page filled by Events: a recorded, matching change is answered "matched none of them", or without a filter left to the coverage explanation |
| `Truth.EventCrowdedOut` | internal/cli/coverage.go:490-534 | in any backend and at any instant, a page filled by changes: over a recorded Event, Events are called missing |
| `Truth.SaysNoneTouchedIff` | internal/cli/gather.go:477-495 | "none of them touched the paths" is said, with that count, iff paths are asked for, that many rows were read and none is kept |
| `Truth.DisplayNoteIsSound` | internal/cli/gather.go:477-495 | with the limit not filled, the window holds exactly that many changes and none touches the paths |
| `Truth.TouchCrowdedOut` | internal/cli/gather.go:477-495 | a page filled by other changes: over one that touches the paths, all are said not to |
| `Truth.DisplayNoteAlwaysTrueIff` | internal/cli/gather.go:477-495 | over all backends that sentence is true iff no paths, or no limit, or an empty window |
| `Truth.ExplanationAlwaysSoundIff` | internal/cli/gather.go:243-262 | the window half is true over all backends iff events-only, or no Events merged, or no limit, or a predicate in force, or an empty window |
| `Truth.FilterNoteAlwaysTrueIff` | internal/cli/coverage.go:610-640 | over all backends the filter's sentence is true iff no filter, or no Events merged, or no limit, or no actor can pass, or an empty window |
| `Truth.EventNoteAlwaysTrueIff` | internal/cli/coverage.go:490-534 | the window half is true over all backends iff events-only, or not asked for, or no limit, or no change can match, or an empty window |
| `Truth.ClaimIsSound` | internal/cli/coverage.go:610-630 | in each of those four cases the claim implies a quiet window |
| `Watches.NothingChangedTrueIff` | internal/cli/coverage.go:184-188 | "watched over this interval, so nothing changed in that period" is true over all histories iff the interval lies in the window and Events cannot fill the page (or it is never said) |
| `Watches.ChangeOutsideTheWindow` | internal/cli/coverage.go:184-188 | a change recorded in the named interval but outside the window makes it false |
| `Watches.NothingSaidTrueIff` | internal/cli/coverage.go:530-533 | "Events were confirmed recorded over this interval, so nothing was said", in the notice or the finding, is true over all histories iff the interval lies in the window and changes cannot fill the page |
| `Watches.EventOutsideTheWindow` | internal/cli/coverage.go:485-488 | an Event recorded in the named interval but outside the window makes it false |
| `Watches.EverTrueIff` | internal/cli/coverage.go:274-295 | "nothing was ever watching", as the finding or over a page of Events, is true over all logs iff the window is unbounded at both ends (or it is never said) |
| `Watches.WatchedOutsideTheWindow` | internal/query/scope.go:169-183 | a watch, with a change recorded under it, that does not meet the window makes it false |
| `Watches.NotWatchedBeforeTrueIff` | internal/cli/coverage.go:175-182 | "was not being watched before" is true over all logs iff the window has no start or no watch can open after it (or it is never said) |
| `Watches.WatchedEarlier` | internal/cli/coverage.go:175-182 | a watch that closed before the window makes it false |
| `Watches.NoRuleTrueIff` | internal/cli/coverage.go:516-523 | "no rule streams Events to this sink", in the notice or the finding, is true over all logs iff the window has no end (or it is never said) |
| `Watches.StreamedSince` | internal/cli/coverage.go:516-523 | a watch over Events opened after the window and still open makes it false |
| `Watches.OverlapsIff` | internal/query/scope.go:169-183 | an interval is part of the answer iff some instant of it lies in the window |
| `Silence.EverySilenceIsExplained` | internal/cli/gather.go:208-287 | an answer without what was asked for carries an explaining notice or the finding |
| `Silence.EventScopeReadOnce` | internal/cli/gather.go:304-311 | the Event scope's coverage is read at most once, and exactly when an Event flag was given and the page leaves the question open |
| `Blame.BaseRow` | internal/query/replay.go:57-64 | the last row with full state, or -1 |
| `Blame.StateAtIff` | internal/query/replay.go:57-125 | a reconstruction is text iff no row deletes the object and a chain of documents leads from the last full state, each row's patch applied in turn, to text |
| `Blame.ReplayIff` | internal/cli/replay/attribute.go:237-261 | the document attribution keeps is current and says text iff the rows lead there by the same chain |
| `Blame.StateAtReplaysEverything` | internal/query/replay.go:85-125 | a reconstruction from the last full state gives text iff replaying everything does and nothing deletes the object |
| `Blame.RowsOfMembers` | internal/query/query.go:78-100 | the rows read are exactly that incarnation's own in the window |
| `Blame.CutAt` | internal/cli/blame.go:354-365 | history up to one nanosecond before an instant, then from it on, is the whole, row for row |
| `Blame.WindowStartsAtItsOldest` | internal/cli/blame.go:315-322 | the window and the window from its oldest row hold the same rows |
| `Blame.AnchorSplitsHistory` | internal/cli/blame.go:326-365 | what the seed is rebuilt from, then the rows, is the incarnation's history to the window's end: nothing twice, nothing skipped |
| `Blame.FallbackSeed` | internal/cli/blame.go:379-398 | the loop finds the oldest full state read |
| `Blame.OldestIsTheFirst` | internal/cli/blame.go:379-398 | that is the first row with full state, or nothing iff no row has one |
| `Blame.SeedIs` | internal/cli/blame.go:326-346 | the seed is nothing at a first sighting, else what the rows up to the anchor lead to, else the oldest full state read |
| `Blame.RunIsReplay` | internal/cli/replay/attribute.go:135-156 | attribution's own document stepping equals plain replay on well-recorded rows |
| `Blame.DeletionEndsTheRun` | internal/cli/replay/attribute.go:135-156 | nothing after a deletion counts |
| `Blame.EventsArePassedOver` | internal/cli/replay/attribute.go:135-156 | a merged Event changes nothing |
| `Blame.FullStateForgets` | internal/cli/replay/attribute.go:237-261 | a full state among the rows makes the seed immaterial to where they end |
| `Blame.AttributionIsReplayIff` | internal/cli/blame.go:326-398 | with the seed the command uses - none, rebuilt or fallback - the run ends where replaying everything does iff the rows carry a full state or what precedes them can be restored |
| `Blame.LostToABadPatch` | internal/cli/blame.go:379-398 | a history outside that condition, where the two differ |
| `Blame.BlameReplaysTheWholeHistoryIff` | internal/cli/blame.go:270-346 | the same for the whole command, over every backend and request, to the window's end |
| `Blame.BlameEndsOnTheState` | internal/cli/blame.go:270-346 | whenever the rows to the window's end lead to a document and none deletes the object, the attribution ends on exactly that document |
| `Blame.WindowEndSeesItAll` | internal/cli/blame.go:354-365 | those rows are all up to the window's end, where StateAt answers iff they lead somewhere, or up to now |
| `Blame.BlameRowsAreTheWindow` | internal/cli/blame.go:270-295 | the rows blame gets are exactly that window of the incarnation it asks the state of, oldest first, empty windows included |
| `Shell.LexBare` | internal/cli/configcmd.go:1068-1083 | what is left unquoted reads as itself |
| `Shell.BareAscii` | internal/cli/configcmd.go:1068-1083 | of ASCII, exactly letters, digits and ten punctuation characters are left unquoted |
| `Shell.LexQuoted` | internal/cli/configcmd.go:1075-1083 | quoted text with escaped quotes reads as the text |
| `Shell.ArgReadsAsOneWord` | internal/cli/configcmd.go:1068-1083 | any value, printed, reads as one word equal to it |
| `Shell.LineReadsBack` | internal/cli/configcmd.go:1051-1083 | a line of printed arguments splits into exactly the values |
| `ProfileFlags.FieldParts` | internal/cli/configcmd.go:1051-1066 | one field's parts are its words, quoted |
| `ProfileFlags.Equivalent` | internal/cli/configcmd.go:1051-1066 | the loop prints the command, the quoted name and every field that is set, in table order |
| `ProfileFlags.SayEquivalent` | internal/cli/setprofilewizard.go:1017-1023 | the parts, and `--use` iff the write activated, as one line |
| `ProfileFlags.FieldReadsBack` | internal/cli/configcmd.go:892-988 | reading one field's words sets that field and no other |
| `ProfileFlags.FlagsReadBack` | internal/cli/configcmd.go:892-988 | reading all of them gives back every field and the activation, and adds no argument |
| `ProfileFlags.OutOfStep` | internal/cli/configcmd.go:1051-1066 | once a flag has swallowed the next, the reading never recovers the name |
| `ProfileFlags.DashedNameIsLost` | internal/cli/configcmd.go:1051-1066 | a name that looks like a flag is never the one argument read back |
| `ProfileFlags.WordsReadBackIff` | internal/cli/configcmd.go:1051-1066 | the printed words read back as the same name, fields and activation iff the name does not look like a flag |
| `ProfileFlags.PrintedLineReadsBack` | internal/cli/setprofilewizard.go:1017-1023 | the same from the printed line, through the shell |
| `ProfileFile.FlagTableIsWellFormed` | internal/cli/configcmd.go:892-988 | the thirteen flags are distinct, print bare, and none is `--use` |
| `ProfileFile.FlagsNameTheirFields` | internal/cli/configcmd.go:892-988 | each of the thirteen flags carries the field it is named after |
| `ProfileFile.StanzaTakesItsOwn` | internal/cli/configcmd.go:997-1023 | a stanza takes its backend's fields by name, and an unknown backend has none |
| `ProfileFile.RefusedIff` | internal/cli/resolve/config.go:365-413 | a stanza is refused iff a required field is missing, two passwords are named, a prefix starts or ends with a slash, or an endpoint has no scheme |
| `ProfileFile.ConfigFile.constructor` | internal/cli/resolve/config.go:267-274 | no file is an empty one |
| `ProfileFile.ConfigFile.OnlyName` | internal/cli/configcmd.go:531-541 | the scan is: no active profile and no other name |
| `ProfileFile.ConfigFile.WriteProfile` | internal/cli/configcmd.go:562-687 | whole new file, refused iff the stanza does not validate; activation, replacement and report as specified; the file stays sound |
| `ProfileFile.ConfigFile.UseProfile` | internal/cli/configcmd.go:1138-1195 | the pointer moves iff the profile exists, and nothing else changes |
| `ProfileFile.ConfigFile.DeleteProfile` | internal/cli/configcmd.go:1211-1308 | removes it and clears the pointer to it, refused for a missing one or the active one without force |
| `ProfileFile.PointerNeverDangles` | internal/cli/resolve/config.go:295-325 | over every run of set, use and delete the pointer is empty or names a profile that is there, and every stanza validates |
| `ProfileFile.PointerMovesOnlyWhenAsked` | internal/cli/configcmd.go:514-541 | over every run without a command asking for another, the active profile stays active and present |
| `ProfileFile.OthersAreKept` | internal/cli/configcmd.go:562-687 | a profile a command does not name keeps its place and its stanza |
| `ProfileFile.StanzaIsTheLastWritten` | internal/cli/configcmd.go:562-687 | over every run a name's stanza is that of its last valid set not followed by a delete that went through, or what it was |
| `ProfileFile.WhereThePointerGoes` | internal/cli/configcmd.go:531-541 | a write moves the pointer iff told to, or to the only profile of a file with none; use and a forced delete move it as they say |
| `ProfileFile.QuestionIsADecisionIff` | internal/cli/configcmd.go:543-554 | the question is a decision iff yes and no leave different files |
| `ProfileFile.AnswerCountsIff` | internal/cli/setprofilewizard.go:607-629 | the flag decides unasked, and the answer counts iff yes and no would leave different files |
| `ProfileFile.ReportIsTrue` | internal/cli/configcmd.go:711-739 | each sentence about the pointer is printed iff it describes where the write left it and why |
| `ProfileFile.WordsAreTheCommand` | internal/cli/configcmd.go:997-1023 | the printed words parse to the set-profile of the same stanza |
| `ProfileFile.PrintedCommandReproducesTheWrite` | internal/cli/setprofilewizard.go:561-586 | the printed line, split and read, is the set-profile that leaves the same file, with `--use` iff the write activated |
| `RuleMetrics.LabelsAreTheStatuses` | internal/controller/metrics.go:236-242 | the API's three statuses get their own labels; true and false in any case, everything else unknown |
| `RuleMetrics.VerdictsOf` | internal/controller/metrics.go:142-158 | a rule's conditions by type carry exactly the types given |
| `RuleMetrics.RecordedAsGiven` | internal/controller/metrics.go:142-158 | the status recorded for a type is the one its last condition was given with |
| `RuleMetrics.Metrics.constructor` | internal/controller/metrics.go:92-111 | starts valid, with the roll-up published |
| `RuleMetrics.Metrics.Observe` | internal/controller/metrics.go:142-158 | replaces that rule's verdicts, publishes their types, and leaves every gauge equal to the count |
| `RuleMetrics.Metrics.ByType` | internal/controller/metrics.go:142-158 | the last condition of a type wins |
| `RuleMetrics.Metrics.Forget` | internal/controller/metrics.go:164-179 | removes that rule only, unpublishes nothing, and leaves every gauge equal to the count |
| `RuleMetrics.Metrics.PublishType` | internal/controller/metrics.go:184-192 | a new type appears with all three statuses at zero, a known one is untouched |
| `RuleMetrics.Metrics.Recount` | internal/controller/metrics.go:202-227 | every published gauge becomes the number of live rules with that verdict |
| `RuleMetrics.Metrics.CountRule` | internal/controller/metrics.go:202-227 | one rule adds one to each pair it holds and to no other |
| `RuleMetrics.Metrics.SetAll` | internal/controller/metrics.go:202-227 | every published pair is set to its count, zeros included |
| `RuleMetrics.Replay` | internal/controller/metrics.go:142-179 | making a run of calls on a new object leaves the fields the run lemmas speak of, with every gauge its count |
| `RuleMetrics.ObservedIsTheLastCall` | internal/controller/metrics.go:142-179 | after any interleaving a rule's entry is what its last call left |
| `RuleMetrics.GaugeCountsLastVerdicts` | internal/controller/metrics.go:142-242 | each gauge is the number of rules whose last operation was an Observe whose conditions, as passed, give that verdict |
| `RuleMetrics.StatusesSumToCarriers` | internal/controller/metrics.go:202-242 | the three statuses of a type sum to the rules carrying it |
| `RuleMetrics.PublishedNeverShrinks` | internal/controller/metrics.go:184-192 | a published type never disappears |
| `RuleKeys.ParseInvertsRuleKeyIff` | internal/controller/conditions.go:380-402 | parsing gives the rule back iff it has a known kind, a name, and no slash in namespace or name |
| `RuleKeys.ParsedKeysAreRuleKeys` | internal/controller/conditions.go:391-402 | a key that parses is the key of what it parses to |
| `RuleKeys.RuleKeyIsInjective` | internal/controller/conditions.go:380-382 | distinct rules never share a key |
| `Redaction.CanonicalRedaction` | internal/controller/redaction.go:40-49 | the method computes the canonical string |
| `Redaction.RenderAll` | internal/controller/redaction.go:40-49 | the loop keeps every non-empty rendered path in order |
| `Redaction.PathsAre` | internal/controller/redaction.go:62-69 | an annotation stands for its rendering and hides the field path; empty paths are dropped |
| `Redaction.CanonicalListing` | internal/controller/redaction.go:40-49 | the string joins the one strictly sorted listing of the union of both path sets |
| `Redaction.CanonicalReadsBack` | internal/controller/redaction.go:40-49 | splitting it gives that listing back, so no path is lost |
| `Redaction.SameStringIffSamePaths` | internal/controller/redaction.go:40-69 | two policies give one string iff they scrub the same set of paths |
| `Redaction.SameStringIffSameLines` | internal/controller/redaction.go:40-49 | for any paths at all, two policies share a string iff their sorted paths, cut at newlines, are the same lines |
| `Redaction.NewlineMakesItAmbiguous` | internal/controller/redaction.go:40-49 | every path holding a newline between two ordered parts collides with those two parts |
| `Actors.ExtractActors` | internal/pipeline/actors.go:89-131 | sorted, duplicate-free, no empty name, and exactly the managers of the well-formed entries |
| `Actors.HarvestedAre` | internal/pipeline/actors.go:89-131 | each manager given, and "unknown" for a well-formed entry without one |
| `Actors.DecodeActors` | internal/pipeline/actors.go:61-69 | the loop computes the decoded list |
| `Actors.DecodeEncodeIff` | internal/pipeline/actors.go:53-69 | a list survives the annotation iff no name is empty or holds a comma |
| `Actors.ExtractedActorsSurvive` | internal/pipeline/actors.go:53-131 | what was extracted is what is decoded, for any managed-field list with comma-free managers |

## Left out

- Integer width and the saturation of Go's durations: instants and durations are unbounded integers.
- JSON encoding and SHA-256: a digest is the projected map itself, so collisions are not modelled.
- CoalesceFlush.OneRowPerWindow: about rows confirmed before the Event is worked on again; a bump that overtakes its row's commit is written, as the source has it.
- Requests.RowsWereAskedFor: about requests with `--uid` or `--all-incarnations` but not both, which the command refuses.
- Failed and re-queued writes, the dedup cache's revert and its version gating, and the marshalling failure that turns coalescing off for one Event: `CoalesceFlush` assumes every write handed to the sink succeeds, though late and in any order.
- Mutexes, goroutines and the work queue's own implementation: each locked method is one step.
- The ordering of changes with equal timestamps is taken to be reversed exactly by a reversed query.
- Rows the structured writer refuses as corrupt, and write errors on either path.
- The ownership walk and the prior-value replay: only whether they answer, what subjects they add and how many notices they give.
- Watches.NothingChangedTrueIff: changes of the incarnation shown; a scope log is its list of intervals, and pairing them from started and stopped transitions is not modelled.
- Truth.ExplanationIsSound: about requests the commands build, where narrowing what is shown and merging Events never meet; Truth.FilterNoteIsSound likewise, where narrowing what is shown and narrowing the query never meet.
- Blame.BlameReplaysTheWholeHistoryIff: about the document only, and about histories in which nothing follows a deletion and a first sighting carries full state; which field each change is credited with, and the folding of fields to a depth, are not modelled.
- Query predicates on raw JSON pointers and patches: a row carries the dotted paths it touches, or none when its patch cannot be read.
- Global flags, shorthands and environment in flag reading: an unknown flag is refused, and no profile flag has a one-letter form.
- ProfileFlags.SayEquivalent: only the typed route; the `--from-sink` route of the wizard, its prompts and cluster discovery are not modelled.
- Inline passwords, contexts and cluster identifiers in the configuration file, and its serialisation.
- Message wording, colour, time zones, output formats, and the other commands (`get`, `diff`, `scopes`, `resolve`), which add no further state.
- Which characters beyond ASCII are letters is a parameter of `Shell`; Unicode's tables are not reproduced.
