# Offline audits, replays and policies: a Dafny model

This project models the parts of the repository that decide something about unbounded runs or
inputs, and proves what those decisions promise:

* **Semaphore credit audits** (`semaphore_journal`, `linearization`, `credit_audit`,
  `credit_soundness`, `credit_verdict`, `prefix_audit`, `prefix_projection`, `prefix_report`,
  `prefix_inventory`, `prefix_theorems`, `prefix_maximal`). Two separately written evaluators decide
  which release's credit each successful wait consumed. `linearization` says, without mentioning
  either audit, what it means for bracketed operations to have happened in some order: any order that
  never reverses two strictly disjoint brackets, each step allowed by a counting semaphore, each
  success taking any outstanding credit. The audits are proved sound against every such order, and
  the prefix audit is proved to satisfy the first audit and to be monotone in the freeze. Both are
  also proved to refuse no more than they must: `credit_verdict` says over the journal's own fields
  when the first raises no issue, and each issue when; `prefix_maximal` says the prefix is the
  longest one.
* **Recorder and replayer** (`consumer_detail`, `consumer_recorder`, `consumer_replay`,
  `consumer_language`, `consumer_faults`, `consumer_history`). A native class writes frame snapshots
  into a bounded log; a decoder with its own rules replays them. They are proved to describe the same
  language, and each call is proved to be taken exactly when the events logged so far allow it.
* **Nested replays** (`nested_replay`, `nested_language`, `work_emission`, `work_meaning`,
  `work_replay`, `work_language`, `work_frames`, `work_lane`, `vector_pairs`, `vector_target`,
  `target_language`, `target_frames`, `target_lane`, `router_dispatch`, `router_language`). One generic
  lane machine carries the conservation, history, nesting and clock theorems; the three decoders
  instantiate it and add what their own steps mean. Each decoder's accepted lanes are also given as a grammar over the events
  alone, and proved to be exactly those.
* **Fixture identity and checkout queue** (`fixture_identity`, `fixture_model`, `fixture_history`,
  `content_queue`, `checkout_verdict`).
* **Small policies** (`dev_overrides`, `override_grammar`, `crc32`, `pacer`, `start_latch`,
  `latch_outcome`, `safe_utf8`, `kill_switch`, `kill_admission`, `kill_record`, `source_scout`,
  `scout_receipt`, `pad_filter`, `pad_ages`).

Every operation the repository writes as a loop or an in-place update is a method or a class
here, proved equal to a function; the theorems are lemmas about that function. Lists are folded
from their last element throughout, the way the loops extend them. Every lemma switches
automatic induction off: inductive proofs spell out their recursive calls.

Verdicts are stated from both sides: the lemmas named `...Exactly` are if-and-only-ifs, whose right
sides are spelled over the inputs and not over the functions that compute the verdict.

## Where code and comments differ

* `src/mcla_build_lease_policy.h:67` says a withdrawal is set when a verified list omits the
  host; the code also sets it when the list names the host with an expired grant. The model
  follows the code (`KillSwitch.WithdrawalRecorded`).
* `src/mcla_album_probe.h:273-274` says suppressed calls are counted and reported on the next
  line. The counter is 32 bits wide and wraps; `LinePacer.CallsAccounted` gives the exact
  condition and `LinePacer.FloodForgotten` an input that loses calls.
* The recorder admits entries without an Update binding (`src/mcla_consumer_detail_record.h:77-84`)
  which the replay refuses, so the two languages are proved equal on journals bound to one Update
  lifetime (`ConsumerLanguage.SameLanguage`), and that boundary is part of the statement.

## Model

| member | source | states |
|---|---|---|
| SemaphoreJournal.SortSorted | scripts/mcla_semaphore_credit_audit.py:246-247 | Sorting by entry clock then operation ID yields a strict order of exactly the given operations |
| SemaphoreJournal.ComponentsPartition | scripts/mcla_semaphore_credit_audit.py:260-267 | The inclusive components are non-empty and, concatenated, are exactly the sorted rows |
| SemaphoreJournal.ComponentsSeparated | scripts/mcla_semaphore_credit_audit.py:260-267 | Every operation of an earlier component ends strictly before every operation of a later one begins |
| SemaphoreJournal.ComponentsChained | scripts/mcla_semaphore_credit_audit.py:260-267 | Inside a component each operation starts no later than the latest end of those before it, so no component can be cut |
| SemaphoreJournal.ComponentsCut | scripts/mcla_semaphore_prefix_audit.py:84-94 | Components found so far are final as soon as the next start is strictly later than their last end |
| SemaphoreJournal.ComponentsPrefix | scripts/mcla_semaphore_prefix_audit.py:84-94 | Recomputing components from the operations of the first m components gives exactly those m components |
| Linearization.EarlierFirst | scripts/mcla_semaphore_credit_audit.py:289-291 | In any order that respects strictly disjoint brackets, operations that all end before others begin come first, and their part is itself such an order |
| CreditAudit.CookieChecks | scripts/mcla_semaphore_credit_audit.py:224-231 | The pairwise loop reports exactly whether some two lifetimes of one pointer lack a witnessed destruction strictly between them |
| CreditAudit.LifetimeChecks | scripts/mcla_semaphore_credit_audit.py:211-223 | The lifetime loop raises exactly the window, destruction, origin, history and initial-credit issues of every epoch |
| CreditAudit.BuildComponents | scripts/mcla_semaphore_credit_audit.py:248-270 | One pass over the sorted rows yields the inclusive components and exactly the bracket, lifetime and kind issues; the order is valid iff there are none |
| CreditAudit.RunLedger | scripts/mcla_semaphore_credit_audit.py:271-328 | The component loop computes the ledger: balance, pending release, matches, issues, and whether it stopped at an unsupported overlap |
| CreditAudit.Audit | scripts/mcla_semaphore_credit_audit.py:200-350 | The whole audit returns the report: all diagnostics, and matches only when there are none |
| CreditSoundness.Forced | scripts/mcla_semaphore_credit_audit.py:271-328 | For components with a clean ledger, every legal linearization, with any choice of consumed credit, has the audit's order, its matches and at most one outstanding credit |
| CreditSoundness.CanonicalLegal | scripts/mcla_semaphore_credit_audit.py:271-328 | The audit's order with its own matches is a legal history of clean components |
| CreditSoundness.LedgerAccounts | scripts/mcla_semaphore_credit_audit.py:234-243 | A clean ledger's matched waits are the successful waits in order, and its matched releases plus the one pending release are the successful releases in order |
| CreditSoundness.AuditSound | scripts/mcla_semaphore_credit_audit.py:245-334 | SOUNDNESS: for an issue-free report and any legal linearization of an epoch, the counter stays in {0,1} and every successful wait consumes exactly the release recorded for it |
| CreditSoundness.AuditRealizable | scripts/mcla_semaphore_credit_audit.py:245-334 | EXISTENCE: an issue-free epoch has a legal linearization |
| CreditSoundness.AuditMatching | scripts/mcla_semaphore_credit_audit.py:233-340 | COVERAGE: the reported consumptions of an epoch are an injective matching that reaches every successful wait and leaves at most one successful release unmatched |
| CreditSoundness.ReportedMatches | scripts/mcla_semaphore_credit_audit.py:233-243 | The issue-free report lists, for each epoch, exactly that epoch's ledger matches |
| CreditVerdict.IssueFreeExactly | scripts/mcla_semaphore_credit_audit.py:200-340 | VERDICT: a well-shaped journal is issue-free iff history is complete, the observer did not fail, nothing overflowed, every observation completed, every epoch is fresh, complete, created in the window, starts at 0 and has a proper destruction bracket, no two lifetimes of one pointer may overlap, every row lies in window and lifetime and is a release or wait, and in every component each release finds the counter it recorded and each success finds a credit |
| CreditVerdict.LedgerExactly | scripts/mcla_semaphore_credit_audit.py:271-328 | A ledger is clean iff every component is covered at the count held before it, spelled over the operations; its balance is the credits given minus those taken |
| CreditVerdict.StepExactly | scripts/mcla_semaphore_credit_audit.py:271-328 | One component leaves a balanced ledger clean and running iff it is covered: one fitting operation, or an isolated overlapping release and successful wait at zero |
| CreditVerdict.HeaderDiagnoses | scripts/mcla_semaphore_credit_audit.py:200-209 | Each journal-wide issue is reported iff its own fact holds of the journal |
| CreditVerdict.LifetimeDiagnoses | scripts/mcla_semaphore_credit_audit.py:211-223 | Each lifetime issue of an epoch is reported iff its own field is at fault |
| CreditVerdict.RowDiagnoses | scripts/mcla_semaphore_credit_audit.py:248-270 | Each row issue of an epoch is reported iff some row of that epoch lies outside the window, touches the lifetime, or is of that unsupported kind |
| CreditVerdict.ListedExactly | scripts/mcla_semaphore_credit_audit.py:329-350 | A faulty journal lists nothing; otherwise the associations are exactly the consumptions whose release ran in an Update context |
| CreditVerdict.RuleSaysDisjoint | scripts/mcla_semaphore_credit_audit.py:271-328 | A reported match carries the strict-disjoint rule iff its release ended before its wait began |
| CreditVerdict.SummariesExactly | scripts/mcla_semaphore_credit_audit.py:329-350 | Each epoch summary counts that epoch's rows, successful releases and waits, and names its ending count and the one release that no match consumed |
| PrefixAudit.SweepIntervals | scripts/mcla_semaphore_prefix_audit.py:259-266 | The sorted sweep accepts iff no interval leaves a gap, overlaps, or regresses a known clock, and it ends at the observed count |
| PrefixAudit.ComputeBarrier | scripts/mcla_semaphore_prefix_audit.py:231-269 | The barrier is the earliest of the freeze and every known pending, unsupported or lost admission clock |
| PrefixInventory.InventoryExactlyPartitions | scripts/mcla_semaphore_prefix_audit.py:212-266 | PARTITION: the sweep accepts iff stored IDs and loss ranges partition 1..observed and known admission clocks do not decrease with ID |
| PrefixInventory.AdjacentReuseIsAnyClash | scripts/mcla_semaphore_prefix_audit.py:206-210 | Comparing neighbours in (cookie, creation) order finds a reused pointer iff the version-1 comparison of all pairs does |
| PrefixProjection.BarrierBounds | scripts/mcla_semaphore_prefix_audit.py:269 | The barrier is at or before the freeze and every pending, unsupported or lost admission |
| PrefixProjection.StepAgrees | scripts/mcla_semaphore_prefix_audit.py:97-125 | On an interpretable component that the prefix rule accepts, the version-1 ledger raises no issue and reaches the same balance |
| PrefixProjection.ScanAgrees | scripts/mcla_semaphore_prefix_audit.py:284-301 | The accepted components run cleanly through the version-1 ledger with the same balances; the retained ones end at zero |
| PrefixProjection.StopSplits | scripts/mcla_semaphore_prefix_audit.py:285-304 | The exclusive end lies strictly after every retained operation, at or before every other one, and never past the barrier |
| PrefixProjection.PrefixBegins | scripts/mcla_semaphore_prefix_audit.py:299-305 | The retained rows are a beginning of the epoch's rows and version 1 recomputes exactly the retained components from them |
| PrefixProjection.ProjectionAccepted | scripts/mcla_semaphore_prefix_audit.py:313-320 | PROJECTION: the strict-boundary guard and the unexpected-issue guard never fire; version 1 finds the same matches and ends with no credit |
| PrefixMaximal.StepAgreesExactly | scripts/mcla_semaphore_prefix_audit.py:97-125 | On an interpretable component the prefix rule accepts iff the version-1 ledger raises no issue and does not halt, and the balances are equal |
| PrefixMaximal.ComponentExactly | scripts/mcla_semaphore_prefix_audit.py:97-125 | The prefix rule accepts a component iff it is covered; each contradiction is returned for exactly its input, and the overlap restriction iff a component of several rows is not covered |
| PrefixMaximal.ScanLongest | scripts/mcla_semaphore_prefix_audit.py:284-301 | The scan accepts the longest covered run of components short of the barrier, and its retained mark is the last point of that run at which no credit is held |
| PrefixMaximal.ScanExplained | scripts/mcla_semaphore_prefix_audit.py:284-301 | Every stop of the scan has its stated reason: the first component not taken reaches the barrier, contradicts the count, or overlaps outside the model |
| PrefixMaximal.PrefixIsLongest | scripts/mcla_semaphore_prefix_audit.py:281-305 | MAXIMAL: the retained rows are the longest beginning made of covered components before the barrier that ends with no credit held |
| PrefixMaximal.PrefixMatched | scripts/mcla_semaphore_prefix_audit.py:305-324 | The reported consumptions of an epoch match every retained release with every retained wait, none left over |
| PrefixMaximal.EndIsEarliest | scripts/mcla_semaphore_prefix_audit.py:299-305 | The exclusive end is the earliest entry of a row not retained, or the barrier; it is the frozen barrier iff every row was retained |
| PrefixMaximal.EndReason | scripts/mcla_semaphore_prefix_audit.py:284-305 | Each reason for the end holds iff the first component not retained reaches the barrier, contradicts the count in that way, overlaps outside the model, or was rolled back |
| PrefixMaximal.BarrierExactly | scripts/mcla_semaphore_prefix_audit.py:231-269 | The barrier is the least of the freeze and the clocks of pending or unsupported rows and of losses: a lower bound that is attained |
| PrefixMaximal.MetadataExactly | scripts/mcla_semaphore_prefix_audit.py:184-269 | There is no metadata issue iff the journal is fully observed, spelled over its own fields |
| PrefixMaximal.MetadataDiagnoses | scripts/mcla_semaphore_prefix_audit.py:184-269 | Each journal-wide, clock and loss issue is raised iff its own fact holds |
| PrefixMaximal.LifetimeDiagnosesFrom | scripts/mcla_semaphore_prefix_audit.py:184-210 | Each lifetime issue is raised iff some epoch has that fault |
| PrefixMaximal.ReportPassesExactly | scripts/mcla_semaphore_prefix_audit.py:281-334 | VERDICT: the report has no issue iff the journal is fully observed and no epoch contradicts its count before its first stop; with an issue it lists nothing |
| PrefixMaximal.ExcludedExactly | scripts/mcla_semaphore_prefix_audit.py:325-334 | A row is listed as excluded iff it is in the journal and in no retained prefix, or the report has an issue |
| PrefixReport.ScanComponents | scripts/mcla_semaphore_prefix_audit.py:284-301 | The component loop stops at the first refused component and remembers the row count at the last zero balance |
| PrefixReport.ScanEpoch | scripts/mcla_semaphore_prefix_audit.py:284-305 | An unconsumed tail is rolled back to the last zero balance, and the end moves to its start |
| PrefixReport.ReportEpoch | scripts/mcla_semaphore_prefix_audit.py:281-324 | One epoch: scan, boundary check, version-1 judgement of the projection; the checks hold and the matches are those of the retained components |
| PrefixReport.Audit | scripts/mcla_semaphore_prefix_audit.py:184-334 | The whole prefix audit returns the report and neither post-validation guard can fail |
| PrefixTheorems.PrefixSoundInWholeHistory | scripts/mcla_semaphore_prefix_audit.py:305-324 | Whatever pending, later, lost or post-freeze operations did, the retained operations come first in every legal whole history, in the audit's order, with exactly the reported consumptions and no credit left |
| PrefixTheorems.BarrierGrows | scripts/mcla_semaphore_prefix_audit.py:269 | A later freeze of the same observation has a barrier no earlier |
| PrefixTheorems.AcceptedStay | scripts/mcla_semaphore_prefix_audit.py:84-94 | The components accepted at the first freeze are the first components at the later freeze |
| PrefixTheorems.LaterFreezeKeepsEvidence | scripts/mcla_semaphore_prefix_audit.py:281-324 | Every epoch's retained rows and consumptions are a beginning of those at a later freeze |
| PrefixTheorems.LaterReportKeepsAssociations | scripts/mcla_semaphore_prefix_audit.py:268-334 | EVIDENCE: between two issue-free reports of one observation the barrier only moves later and no association or consumption is withdrawn |
| ConsumerRecorder.Model.constructor | src/mcla_consumer_detail_record.h:65-68 | A new recorder is empty, and faulted at once when its epoch is zero |
| ConsumerRecorder.Model.Enter | src/mcla_consumer_detail_record.h:74-96 | Enter pushes one initialised frame and logs it, or records exactly one sticky fault, or does nothing when frozen or faulted |
| ConsumerRecorder.Model.Branch | src/mcla_consumer_detail_record.h:97-105 | Branch advances only an entered top frame and logs the snapshot |
| ConsumerRecorder.Model.ChildPre | src/mcla_consumer_detail_record.h:106-120 | Child pre-call advances only in child order after a nonzero branch, with the fixed call sites |
| ConsumerRecorder.Model.ChildEnd | src/mcla_consumer_detail_record.h:164-175 | A child end closes exactly the active child, normally or not |
| ConsumerRecorder.Model.Exit | src/mcla_consumer_detail_record.h:127-140 | A normal exit needs the whole selected route; either exit logs the frame before popping it |
| ConsumerRecorder.Model.Freeze | src/mcla_consumer_detail_record.h:141 | Freezing sets the frozen flag and changes nothing else |
| ConsumerReplay.Replay | scripts/mcla_consumer_detail_decode.py:160-215 | The replay loop accepts a lane iff every event is the wanted snapshot and the recorded pending stack is what is left |
| ConsumerLanguage.RecorderReplays | src/mcla_consumer_detail_record.h:61-183 | Every call sequence, faulted and frozen ones included, leaves a log that replays to exactly the live stack, if its entries are bound to one Update lifetime (and consecutive, for the loss-free replay) |
| ConsumerLanguage.ReplayRecords | scripts/mcla_consumer_detail_decode.py:160-215 | Every replayable event list within depth and capacity is written by the recorder calls read off it, without a fault |
| ConsumerLanguage.SameLanguage | scripts/mcla_consumer_detail_decode.py:160-215 | SAME LANGUAGE: the bound journals a recorder can leave are exactly those the replay accepts |
| ConsumerLanguage.HealthyExactlyConsecutive | scripts/mcla_consumer_detail_decode.py:178-179 | The loss-free replay accepts in addition iff admitted serials are consecutive |
| ConsumerLanguage.FaultsAreFull | src/mcla_consumer_detail_record.h:85-86 | A depth fault implies a full stack and a capacity fault a full log, after any calls |
| ConsumerLanguage.StoppedForGood | src/mcla_consumer_detail_record.h:151-152 | Once frozen or faulted, no call adds an event, moves the stack or changes the fault |
| ConsumerFaults.FreezeStops | src/mcla_consumer_detail_record.h:141-152 | FREEZE: whatever is called after a freeze, the recorder keeps its log, stack, serials and fault, is frozen, and can never write again |
| ConsumerHistory.CallExactly | src/mcla_consumer_detail_record.h:74-183 | CALLS: after any calls a recorder that may write takes the next one iff it names what it may act on, an entry finds room on the stack, the invocation's own logged events allow it, and the log has room; each fault is exactly the first of these to fail, and changes nothing else |
| ConsumerFaults.EnterRecorded | src/mcla_consumer_detail_record.h:74-96 | An entry later than all before it, with room, pushes exactly the initialised frame and logs it |
| ConsumerFaults.RouteRecorded | src/mcla_consumer_detail_record.h:74-140 | Every whole route with room for its events, either branch and any register values, is recorded without a fault and leaves the stack as it was |
| ConsumerFaults.UnwindRecorded | src/mcla_consumer_detail_record.h:127-140 | An exceptional exit of the top frame is accepted at every stage, logs that frame and pops it |
| ConsumerLanguage.CompletedRoutes | scripts/mcla_consumer_detail_decode.py:194-209 | Every frame followed one route, and every normally returned one followed its selected route to the end |
| NestedReplay.Replay | scripts/mcla_work_emission_decode.py:207-249 | The shared replay loop computes the trace: lane checks, LIFO stack, one history per invocation, completed rows |
| NestedReplay.Conserved | scripts/mcla_work_emission_decode.py:207-256 | CONSERVATION: entered identities are the disjoint union of completed and pending ones, each once, in increasing order |
| NestedReplay.OwnHistories | scripts/mcla_work_emission_decode.py:224-249 | Each ended or pending invocation kept exactly the lane's events of its own identity, and no identity is used twice |
| NestedReplay.NestsLifo | scripts/mcla_router_dispatch_decode.py:161-198 | Any two ended invocations are nested or disjoint, and each runs from its first event to its closing one |
| NestedReplay.ClocksFollow | scripts/mcla_work_emission_decode.py:148-155 | A lane whose clocks were all taken lists its events in clock order |
| NestedReplay.InnerInsideOuter | scripts/mcla_router_dispatch_decode.py:133-145 | With clocks in order, an invocation entered inside another has its whole bracket inside the other's |
| NestedReplay.HoldsEverywhere | scripts/mcla_work_emission_decode.py:224-249 | A relation kept by every opening and every step holds between every frame and its own events |
| WorkEmission.Body.GatePart | scripts/mcla_work_emission_decode.py:92-118 | The two gates update their fields and choose the branch in place, or refuse and change nothing |
| WorkEmission.Body.ScalarPart | scripts/mcla_work_emission_decode.py:95-115 | The scalar and cleanup events update the frame in place, or refuse and change nothing |
| WorkEmission.Body.JobPart | scripts/mcla_work_emission_decode.py:119-135 | The job and wait events update the frame in place, comparing the bound as signed |
| WorkEmission.Body.VectorPart | scripts/mcla_work_emission_decode.py:136-145 | The vector events update the frame in place, counting down |
| WorkEmission.Body.Accept | scripts/mcla_work_emission_decode.py:84-145 | One event of a body: payload check, then its part of the frame |
| WorkMeaning.ScalarKept | scripts/mcla_work_emission_decode.py:97-105 | Scalar indices fall strictly from below the loaded count; kept by every accepted event |
| WorkMeaning.JobKept | scripts/mcla_work_emission_decode.py:119-135 | Job ordinals are 0,1,2,... each below its freshly loaded signed bound, and the wait repeats the bound that ended the loop; kept by every accepted event |
| WorkMeaning.VectorKept | scripts/mcla_work_emission_decode.py:136-145 | Vector indices count down from count-1; kept by every accepted event |
| WorkMeaning.MeasureFalls | scripts/mcla_work_emission_decode.py:84-145 | Every accepted event except the closing one strictly decreases a measure of the frame |
| WorkReplay.ReplayLane | scripts/mcla_work_emission_decode.py:207-256 | A lane is accepted iff every event replays, every entry was admitted once, and the recorded pending frames are those left |
| WorkReplay.NormalBody | scripts/mcla_work_emission_decode.py:84-145 | WORK BODIES: a normal body in vector mode emitted count-1 down to 0; in job mode ordinals 0..n-1, n the first not below its signed bound, then exactly one wait; scalar indices strictly fall below the count |
| WorkReplay.BodiesAreFinite | scripts/mcla_work_emission_decode.py:207-256 | No accepted invocation can have more own events than its initial measure allows |
| WorkLanguage.BodyExactly | scripts/mcla_work_emission_decode.py:84-145 | GRAMMAR: an event list takes a new body to its normal return iff it is a body text: a grammar over the events alone, with a cleanup call and return exactly after a scalar return whose low byte is 0 |
| WorkLanguage.RunningExactly | scripts/mcla_work_emission_decode.py:84-145 | A list without a closing event is accepted and can continue iff it is a beginning of a body text |
| WorkLanguage.HistoryExactly | scripts/mcla_work_emission_decode.py:84-145 | A pending history is accepted iff it is a beginning of a body text, or one ended by an exception of an open call |
| WorkLanguage.CanFinish | scripts/mcla_work_emission_decode.py:84-145 | NO DEAD END: every unfinished body that has not thrown can still return normally |
| WorkLanguage.NextAccepted | scripts/mcla_work_emission_decode.py:224-249 | After an accepted lane, an inner event is accepted iff the lane checks pass, it names the top body, and it continues that body's text or closes it |
| WorkLanguage.NormalRowIsText | scripts/mcla_work_emission_decode.py:84-145 | Every normally returned body of an accepted lane is an admission followed by a body text |
| WorkLanguage.CleanupsExactly | scripts/mcla_work_emission_decode.py:95-115 | CLEANUPS: in every body a cleanup call stands exactly right after a scalar return whose low byte is 0; the only other successors are a throw or the end; a normal body has as many as such returns |
| WorkFrames.FrameExactly | scripts/mcla_work_emission_decode.py:84-145 | FRAMES: the frame the steps reach one by one is read off the event list at once: every observed value is the one last loaded, every counter the number of its events, and the stage follows from the last event |
| WorkFrames.FramesOfLane | scripts/mcla_work_emission_decode.py:224-249 | In an accepted lane every ended and every open body's recorded frame is the one read off its own events |
| WorkLane.CheckExactly | scripts/mcla_work_emission_decode.py:207-249 | The lane checks of one event pass iff it fits the events before it: clocks, identities, admission order and lexical flag, each stated over the list |
| WorkLane.NextFits | scripts/mcla_work_emission_decode.py:207-249 | After an accepted beginning the decoder takes exactly the events that fit |
| WorkLane.LaneExactly | scripts/mcla_work_emission_decode.py:207-256 | LANE: a lane is accepted iff every event fits those before it, entries were each admitted once, the pending frames are those read off the open bodies' own events, and the bound epochs are present iff there is an entry |
| WorkReplay.InnerBodyInsideOuter | scripts/mcla_work_emission_decode.py:148-155 | A body admitted inside another has its clock bracket inside the other's |
| VectorPairs.BodyPairs | scripts/mcla_vector_target_join.py:34-47 | Over any completed body neither pairing check can fail, there is one pair per vector return, and a normal body's k-th pair has ordinal count-1-k |
| VectorPairs.GroupEvents | scripts/mcla_vector_target_join.py:25-28 | The grouping loop collects, for each invocation, its events with their lane positions |
| VectorPairs.RowIsGroup | scripts/mcla_vector_target_join.py:31-34 | A completed body's events are exactly the lane's group of its invocation, at rising positions |
| VectorPairs.PairRow | scripts/mcla_vector_target_join.py:35-47 | The pairing loop of one body never fails and adds exactly its pairs, keyed by position |
| VectorPairs.PairAll | scripts/mcla_vector_target_join.py:23-48 | PAIRING: over everything the decoder accepted none of the five pairing checks can fire, and the result holds exactly the pairs of all bodies |
| VectorTarget.Body.Accept | scripts/mcla_vector_target_decode.py:68-99 | One table-driven event updates the target frame in place, or is refused and changes nothing |
| VectorTarget.CallAdvances | scripts/mcla_vector_target_decode.py:15 | The two stage tables fit together: returning from a site reaches the stage whose finished sites include it |
| VectorTarget.NormalTargetBody | scripts/mcla_vector_target_decode.py:68-99 | TARGET BODIES: a normal body visits 0,1,2,3, then 4 iff its gate is 0, then 5, then 6 iff 32 < low word of the stored counter < 2^31, returning from each |
| TargetLanguage.TargetExactly | scripts/mcla_vector_target_decode.py:68-99 | GRAMMAR: an event list takes a new target body to its normal return iff it is a target text: loads, stores and calls in order, with the addresses r3+400 (16-aligned), r3+657 and r3+664 modulo 2^32 and the argument lanes of the entry |
| TargetLanguage.HistoryExactly | scripts/mcla_vector_target_decode.py:68-99 | A pending history is accepted iff it is a beginning of a target text, or one ended by an exception of an open call |
| TargetLanguage.NextAccepted | scripts/mcla_vector_target_decode.py:165-212 | After an accepted lane, an inner event is accepted iff the lane checks pass, it names the top body, and it continues that body's text or closes it |
| TargetLanguage.NormalRowIsText | scripts/mcla_vector_target_decode.py:68-99 | Every normally returned target body of an accepted lane is an admission followed by a target text |
| TargetFrames.FrameExactly | scripts/mcla_vector_target_decode.py:68-99 | FRAMES: the frame the steps reach one by one is read off the event list at once: stage of the last event, site last called, counter last loaded |
| TargetFrames.FramesOfLane | scripts/mcla_vector_target_decode.py:165-212 | In an accepted lane every ended and every open target body's recorded frame is the one read off its own events |
| TargetLane.LaneExactly | scripts/mcla_vector_target_decode.py:165-212 | LANE: a lane is accepted iff every event fits those before it, entries were each admitted once, the pending frames are those read off the open bodies' own events, and the work epoch is bound iff there is an entry |
| VectorTarget.ReplayLane | scripts/mcla_vector_target_decode.py:165-212 | The lane replay returns the verdict and the completed bodies of the replayed trace |
| VectorTarget.AllEntriesOrdered | scripts/mcla_vector_target_decode.py:186-191 | The adjacent entry checks order all admitted entries, and within one work body the answered ordinals strictly fall |
| VectorTarget.InnerTargetInsideOuter | scripts/mcla_vector_target_decode.py:102-113 | A target body admitted inside another has its clock bracket inside the other's |
| RouterDispatch.NormalRouterRow | scripts/mcla_router_dispatch_decode.py:166-195 | A normal dispatch is exactly skip after a zero predicate byte, or one consumer call and return after a nonzero one |
| RouterLanguage.StepFollows | scripts/mcla_router_dispatch_decode.py:166-198 | One snapshot is accepted after another of the same dispatch iff it follows it, changing exactly the fields its event allows |
| RouterLanguage.NextFits | scripts/mcla_router_dispatch_decode.py:124-198 | After an accepted beginning the decoder takes exactly the events that fit those before them |
| RouterLanguage.LaneExactly | scripts/mcla_router_dispatch_decode.py:124-198 | LANE: a lane is accepted iff every event fits those before it and the pending snapshots are the last ones of the open dispatches |
| RouterDispatch.ReplayLane | scripts/mcla_router_dispatch_decode.py:124-198 | The lane replay returns the verdict and the completed dispatches of the replayed trace |
| RouterDispatch.FirstOf | scripts/mcla_router_dispatch_decode.py:211-212 | The lookup returns the first event of a kind, or nothing when there is none |
| RouterDispatch.Evaluate | scripts/mcla_router_dispatch_decode.py:202-214 | CANDIDATES: both lookups of a selected row succeed and give the clocks of its only consumer pre-call and return |
| RouterDispatch.CandidateInClockOrder | scripts/mcla_router_dispatch_decode.py:208-213 | A candidate's entry, consumer pre-call, consumer return and exit are in clock order |
| FixtureIdentity.Decode | scripts/mcla_fixture_identity_v2.py:73-93 | The sampling and packing loops compute the decoder's verdict, with its error for each failing check |
| FixtureIdentity.SampledCell | scripts/mcla_fixture_identity_v2.py:78-82 | The one pixel sampled per cell shows that cell's bit of the drawn grid |
| FixtureIdentity.EncodeDecode | scripts/mcla_fixture_identity_v2.py:58-93 | ROUND TRIP: every valid identity is read back from its own picture, for any checksum function |
| FixtureIdentity.DecodeExactly | scripts/mcla_fixture_identity_v2.py:73-93 | The decoder yields an identity iff it is valid and the pixels are its picture byte for byte |
| FixtureIdentity.EncodeInjective | scripts/mcla_fixture_identity_v2.py:58-70 | No two identities share a picture |
| FixtureSession.FixtureModel.Arm | scripts/mcla_fixture_identity_v2.py:172-183 | Arming reserves the next identity, or poisons the session with the failing check |
| FixtureSession.FixtureModel.Complete | scripts/mcla_fixture_identity_v2.py:185-197 | Completing accepts the one pending publication of this challenge, or poisons the session |
| FixtureSession.FixtureModel.Observe | scripts/mcla_fixture_identity_v2.py:199-218 | Observing decodes the first eligible frame and clears the challenge, or poisons the session |
| FixtureHistory.SessionExactly | scripts/mcla_fixture_identity_v2.py:172-219 | HISTORY: after any calls a session has not failed iff they are rounds of arm, complete and observe with the right challenge, clocks and pictures; it then remembers the last of them |
| ContentQueue.FinishedExactly | scripts/mcla_content_queue_v2.py:43-79 | The event state machine finishes on exactly create, three slots of arm, ack, at most 999 nulls, checkout, read, release, then close |
| ContentQueue.ValidateJournal | scripts/mcla_content_queue_v2.py:35-83 | The journal loop accepts and returns exactly the records of the state machine |
| ContentQueue.JournalExactly | scripts/mcla_content_queue_v2.py:35-83 | JOURNAL: accepted iff it is a complete script over one session, pool and owner with positive strictly rising ticks |
| ContentQueue.JournalChained | scripts/mcla_content_queue_v2.py:55-75 | The accepted records are each in order and strictly one after another |
| ContentQueue.Validate | scripts/mcla_content_queue_v2.py:29-125 | The whole verifier returns the verdict: journal, then every binding, then the model replay |
| ContentQueue.QueueVerdict | scripts/mcla_content_queue_v2.py:39-125 | VERDICT: once journal and bindings pass only a pixel check can fail; the verifier passes iff script, bindings and each sample's exact picture hold |
| CheckoutVerdict.VerdictExactly | scripts/mcla_content_queue_v2.py:29-125 | VERDICT, over events and samples alone: rejected for its journal iff not a whole one, for a binding iff some tick, deadline or identity is wrong, passed iff in addition each sample shows its slot's exact picture; any other refusal names a pixel check |
| CheckoutVerdict.OneEventEach | scripts/mcla_content_queue_v2.py:43-79 | In a whole journal each slot has exactly one event of each of its kinds, so its tick is one |
| CheckoutVerdict.TimelyExactly | scripts/mcla_content_queue_v2.py:85-113 | The bindings hold iff every sample repeats the ticks of its slot's own events, was issued and observed between the right ones, within five seconds a slot and twenty in all |
| CheckoutVerdict.JournalIsWhole | scripts/mcla_content_queue_v2.py:35-83 | The journal loop accepts iff the events are a whole journal, stated over their list |
| DevOverrides.ReadLine | src/mcla_dev_overrides.h:569-607 | The line scan gives exactly skip, malformed, unknown name, or a key and its value |
| OverrideGrammar.LineExactly | src/mcla_dev_overrides.h:569-607 | GRAMMAR: a line gives a key iff it is a known name, an equals sign and a truth value with at most a carriage return after; it is skipped iff empty or a comment; every other outcome has its exact text |
| OverrideGrammar.LinesExactly | src/mcla_dev_overrides.h:661-687 | A list of lines is what the file splits into iff the lines contain no newline and spell the file |
| OverrideGrammar.ValueExactly | src/mcla_dev_overrides.h:618-687 | VALUES: a key ends with a value iff some line is the first to assign it, spelled over bytes, unless it is true and a key of its variable is first assigned true as well |
| OverrideGrammar.IssuesExactly | src/mcla_dev_overrides.h:562-616 | The issues of a file, in line order, are exactly its malformed lines, unknown names and repeated keys, at most one a line |
| OverrideGrammar.VariablesExactly | src/mcla_dev_overrides.h:435-448 | Two keys conflict iff they are different values of one variable |
| DevOverrides.Table.ParseLine | src/mcla_dev_overrides.h:569-616 | A line changes the table only by giving an unset key its value and line, or by one counted issue |
| DevOverrides.Table.AddIssue | src/mcla_dev_overrides.h:562-567 | Sixteen issues are stored and all are counted |
| DevOverrides.PairsAreGroups | src/mcla_dev_overrides.h:435-448 | The pair table lists exactly the pairs of keys within a group, so groups of three are complete |
| DevOverrides.Table.ResolveConflicts | src/mcla_dev_overrides.h:624-656 | The resolver drops every true key with a true partner and adds the logged lines; its selection loop terminates |
| DevOverrides.Parse | src/mcla_dev_overrides.h:661-687 | A file of at most 2048 ASCII bytes is parsed line by line and resolved; any other is rejected |
| DevOverrides.ValuesExplained | src/mcla_dev_overrides.h:608-615 | FIRST LINE WINS: a key has a value iff some line gives one, and it is the first such line's, with its number |
| DevOverrides.FinalValue | src/mcla_dev_overrides.h:618-656 | VALUES: after resolving, a key holds a value iff its first well-formed line gives it and it is not true with a true partner |
| DevOverrides.AllButEarliest | src/mcla_dev_overrides.h:634 | Of a group's dropped keys, exactly all but the one on the earliest line are logged |
| DevOverrides.IssuesAfterResolving | src/mcla_dev_overrides.h:562-567 | The stored issues are the first sixteen raised, conflicts last in strictly increasing line order, and the count covers all |
| DevOverrides.PermutedValues | src/mcla_dev_overrides.h:661-687 | Permuting lines that name distinct keys changes no resolved value |
| Crc32Table.MakeTable | src/mcla_album_probe.h:94-105 | The constructor loops fill entry i with eight division steps of i |
| Crc32Table.FoldedIsShifts | src/mcla_album_probe.h:111 | One table lookup and byte move equal eight bit-serial division steps |
| Crc32Table.ByteIsShifts | src/mcla_album_probe.h:94-104 | Feeding a byte bit by bit equals combining it first and dividing eight times |
| Crc32Table.Crc32 | src/mcla_album_probe.h:108-114 | CRC-32: the table-driven loop computes the bit-serial division of the whole message |
| Crc32Table.CrcAppend | src/mcla_album_probe.h:108-114 | Continuing a checksum over a second message is the checksum of the concatenation |
| LinePacer.Pacer.Allow | src/mcla_album_probe.h:283-304 | One call refills, then writes a line and reports the suppressed calls, or suppresses |
| LinePacer.AllowedExactly | src/mcla_album_probe.h:275-315 | EXACT BUDGET: a call is allowed iff fewer than 1000 were, and in every window ending at it fewer lines were written than 20 plus the whole 500 ms periods the pacer clock moved |
| LinePacer.ReportedExactly | src/mcla_album_probe.h:295-304 | An allowed line reports the calls denied since the last one, modulo the counter's width |
| LinePacer.Budget | src/mcla_album_probe.h:275-315 | For any clock sequence, tokens plus lines never exceed 20 plus one per 500 ms the pacer clock moved, and lines never exceed 1000 |
| LinePacer.ClockBehindCalls | src/mcla_album_probe.h:289-294 | The pacer clock never passes the latest call, so lines are bounded by real elapsed time |
| LinePacer.CallsAccounted | src/mcla_album_probe.h:295-304 | Calls = lines + reported + pending suppressions exactly iff no call was denied while the 32-bit counter stood at its last value |
| LinePacer.FloodForgotten | src/mcla_album_probe.h:297 | A standing clock and 2^32 + 20 calls lose 2^32 suppressions |
| AutostartLatch.StartLatch.Arm | src/mcla_autostart_input.h:58-74 | Arming publishes both deadlines once, or fails the latch |
| AutostartLatch.StartLatch.Read | src/mcla_autostart_input.h:76-90 | A read checks time first, then returns START and acknowledges down, or acknowledges neutral |
| AutostartLatch.StartLatch.Poll | src/mcla_autostart_input.h:92-95 | A poll only advances the deadlines |
| AutostartLatch.StartLatch.Cancel | src/mcla_autostart_input.h:97-99 | Cancelling fails the latch unless the clock rolled back, which fails it first |
| AutostartLatch.PressIsBounded | src/mcla_autostart_input.h:76-140 | START is returned only in [published, published+5000); down plus neutral reads are all reads; success implies the whole acknowledged protocol in both windows |
| LatchOutcome.PressEndsAs | src/mcla_autostart_input.h:58-147 | OUTCOME: an undisturbed press ends exactly as its reads and clocks say; it succeeds iff a read came before 5000 ms, the clock passed it, and a read came between then and 10000 ms |
| LatchOutcome.ReadReturns | src/mcla_autostart_input.h:76-90 | Every read of an undisturbed press returns START iff its clock is before the published 5000 ms |
| LatchOutcome.FaultFails | src/mcla_autostart_input.h:58-147 | Each misuse, rollback or overflow fails the latch with its own error, keeps an earlier one, and releases a held START |
| LatchOutcome.OnlyDeadlinesFail | src/mcla_autostart_input.h:127-147 | Without such a fault only a missed acknowledgement deadline fails a latch, at or after that deadline |
| AutostartLatch.PressIsContiguous | src/mcla_autostart_input.h:76-90 | Between two reads that return START every read returns START |
| AutostartLatch.RankGrows | src/mcla_autostart_input.h:127-147 | Status only moves forward; failure is permanent and keeps its first error |
| AutostartLatch.ReadCounted | src/mcla_autostart_input.h:117-124 | Neither inner counter can be full when a read is classified, so those overflow exits are unreachable |
| SafeText.SafeUtf8 | src/mcla_diagnostic_export_policy.h:57-77 | STRICT UTF-8: accepts exactly the non-empty byte strings within the limit that encode scalar values other than C0, DEL and C1 controls |
| SafeText.ReadsExactly | src/mcla_diagnostic_export_policy.h:59-76 | The scan accepts a byte string iff it is the encoding of some printable text: no overlong form, surrogate or truncated tail |
| KillSwitch.Cache.CheckKillSwitch | src/mcla_build_lease_runtime_win.cpp:67-113 | One launch: which answer is used, the decision, the cache write, and the refusals after it |
| KillAdmission.AdmittedExactly | src/mcla_build_lease_runtime_win.cpp:67-113 | ADMITTED: a launch is admitted until a time iff its ticket is proper, it completed in time, and either a verified list grants its host beyond now, or no list answered, no withdrawal is readable, and the offline allowance or a recorded check covers it |
| KillAdmission.CellExactly | src/mcla_build_lease_policy.cpp:242-278 | The recorded cell changes iff a proper launch holding the lock and able to write got a verified answer, and then to a check if the host is granted beyond now, else to a withdrawal |
| KillAdmission.OfflineAfterCheck | src/mcla_build_lease_runtime_win.cpp:67-113 | After a recorded check and any launches without an answer, a launch without one is admitted iff it completes before the offline allowance, the day after the check and the grant's own expiry say |
| KillSwitch.AdmittedInTime | src/mcla_build_lease_runtime_win.cpp:67-113 | ADMISSION: in any run, whatever cache, lock, writes and clocks did, an admitted launch completes within the offline allowance or within a day of a verified listing check |
| KillSwitch.AdmittedByLastListing | src/mcla_build_lease_runtime_win.cpp:67-113 | With the lock held and writes done, that check is the last verified listing: completed < max(created+259200, last+86400) |
| KillSwitch.WithdrawalHolds | src/mcla_build_lease_policy.cpp:266-268 | Once recorded, a withdrawal refuses every launch that can read the cell until a verified current list names the host |
| KillSwitch.WithdrawalRecorded | src/mcla_build_lease_policy.cpp:258-265 | A withdrawal is recorded by exactly a verified, non-future list without an unexpired grant for the host |
| KillSwitch.Decimal | src/mcla_build_lease_runtime_win.cpp:38-46 | The digit loop accepts canonical decimal text within 64 bits |
| KillRecord.DecimalExactly | src/mcla_build_lease_runtime_win.cpp:37-46 | A text is read as a number iff it is that number's canonical decimal text and fits 64 bits |
| KillRecord.ReadExactly | src/mcla_build_lease_runtime_win.cpp:47-65 | A file is read as a withdrawal or a check iff it is, byte for byte, the record written for it |
| KillSwitch.RecordReadsBack | src/mcla_build_lease_runtime_win.cpp:47-65 | RECORD: reading a written record returns the same withdrawal, or the same check, and it fits the read limit |
| SourceScout.ValidateSlots | scripts/mcla_game_source_scout_decode.py:105-186 | The slot loop accepts exactly the receipts whose every slot passes its checks |
| ScoutReceipt.ReceiptExactly | scripts/mcla_game_source_scout_decode.py:105-187 | RECEIPT: the slots are accepted iff each fits those before it, stated over the earlier slots: called in order, first failure repeated, captures fresher than every earlier one |
| SourceScout.NoRetry | scripts/mcla_game_source_scout_decode.py:123-131 | After the first failed or unattempted slot no slot is attempted and all name the same cause |
| SourceScout.CapturesInOrder | scripts/mcla_game_source_scout_decode.py:157-178 | Of every two captures, not only neighbours: one epoch, sources in order, equal sources one publication |
| SourceScout.TakeCensus | scripts/mcla_game_source_scout_decode.py:246-272 | The census loop, keeping only the previous source and pixels, computes the counts |
| ScoutReceipt.CensusExactly | scripts/mcla_game_source_scout_decode.py:246-284 | The census of an accepted receipt succeeds iff all captures of one source show the same pixels |
| SourceScout.CountGaps | scripts/mcla_source_publication_windows.py:50-89 | The gap loop computes the total of skipped source IDs |
| SourceScout.CensusComplete | scripts/mcla_game_source_scout_decode.py:227-284 | ADJACENT IS ENOUGH: an accepted census counted every distinct source, every repeat shows the same pixels, and unsampled + unique = last - first + 1 |
| PadActivity.PadActivityFilter.OnAxis | src/mcla_cursor_autohide.h:52-67 | An axis value seeds a baseline, is ignored within 4096 of it, or counts and moves it |
| PadActivity.PadActivityFilter.OnDeviceRemoved | src/mcla_cursor_autohide.h:71-77 | Removing a device frees exactly its baselines |
| PadAges.ActiveExactly | src/mcla_cursor_autohide.h:34-77 | ACTIVITY: a movement counts iff its axis has a baseline among the last 64 seeded ones, not freed by its device, and lies 4096 or more from it |
| PadActivity.ActivitiesWithinTravel | src/mcla_cursor_autohide.h:34-67 | However slots are seeded, evicted and freed, an axis's activities times 4096 never exceed the distance it travelled |

## Left out

- JSON lexing, exact-key schemas, token and hash checks, the always-false proof flags: models start from typed records of the right shape.
- PrefixAudit.Span: a pending row is grouped as a bracket that ends at the largest clock, which is how the grouping code treats it; "not completed or exit at or after the barrier" is then one comparison, since every barrier is at most the freeze.
- Linearization.Legal: a failed release is allowed at any point, because the audit draws no conclusion from one; a timeout is allowed only when no credit is outstanding, as the audit's own diagnostic says.
- CreditAudit.Match: holds the two operations themselves; the report's copied IDs, brackets and context are read off them.
- ConsumerReplay.Replay: clocks, accessor observations and the exact-comparison flags of a lane are not modelled, only the scalar transitions and identities.
- RouterDispatch.Evaluate: references into the phase census are not modelled; bindings are compared but not looked up.
- WorkReplay.ReplayLane: accessor status and the constant lexical flags of stored events are not modelled; clocks, freshness, parent admission and all identities are.
- TargetLane.LaneExactly: accessor status and the constant lexical flags of stored events are not modelled, nor are the issues a lane raises without being refused.
- NestedReplay.Replay: the loop uses each decoder's step as a function; the frames' in-place updates are the classes `WorkEmission.Body` and `VectorTarget.Body`, whose methods equal those functions.
- The target join beyond its pairing (`_relation`, `_evaluate`), the long `validate_*` chains, and the virtual-detail and vector-store decoders: argument threading, or the same replay shape with simpler steps.
- DevOverrides.ReadLine: the table of 62 key names is an arbitrary name lookup; the pair table is the program's.
- FixtureIdentity.Decode: the checksum is an arbitrary function of the packet body, so nothing here depends on it being CRC-32.
- KillSwitch.Cache.CheckKillSwitch: signatures, network, files and the lock are inputs of a launch; a host hash is a number ordered as its digits are; notes and messages, the ticket's version flag and hash syntax are not modelled.
- SourceScout.ValidateSlots: image names, byte counts and BMP decoding are not modelled; a reader returns the pixels of a slot.
- SequenceOracle and AutoHideController: not modelled; the first reuses the fixture session proved here, the second has two booleans.
- V1 lease evaluation, ticket capability parsing, restore decisions and hover paths: single decisions over their arguments.
- Threads, mutexes and real clocks: calls are serialised and carry their clock as a parameter.
