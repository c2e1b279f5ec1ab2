# Benchmark runner verification

A Dafny model of the benchmark daemon's runner and core: the session protocol it speaks with an engine, the checks it
makes on what the engine reports, the scrubbing of what the engine prints, and the gates and scores built on top.
`dafny verify dfyconfig.toml` checks everything.

## How it is organised

- `Wrappers`, `Sums`, `Sorting`, `Median`, `Floats`, `Text`, `Utf8`, `Constants`: optional and fallible values, sums,
  sorting by a total order, the even-count median, f64 values as exact reals plus the non-finite ones, searching and
  trimming of text, its encoding and the boundaries and order of encoded bytes, pinned constants.
- `Protocol`, `Wire`: specs, the echo rule, messages and transport events.
- `SessionSpec`: one operation of a session as a function on the session and the far end, and what every run keeps
  against every far end. `Session`: the session as a class over a transport, each method proved to make exactly that
  step. `Mock`: the conformant engine and an adversarial scripted transport, as classes; `MockLaws`: what its answers
  hold. `Coupling`: the session against the engine, and exactly what breaks their agreement. `Drift`: which calls a
  session survives, over every sequence of them. `Verbs`: what a far end reads off the wire, and what each verb asks of
  the answer.
- `FreeRun`, `CohortMetrics`, `HonestCohort`, `Attestation`, `CohortTolerance`, `NearTie`: the verifiers of free-run and
  cohort responses, their derived metrics, an honest cohort as rounds, per-stream timing clauses, the per-stream
  tolerance gate and the seal that measures its headroom. `FreeRunLaws`, `AttestationLaws`, `ToleranceLaws`,
  `ToleranceVerdicts`: what their verdicts and audits say in the response's own numbers.
- `Scrub`, `ScrubSafety`, `ScrubSecrets`, `ScrubKeeps`: the text scrubber, what its output can never contain, what a
  credential key hides, what it leaves alone. `ScrubWords`, `ScrubRules`, `ScrubHolds`: which words it takes for a host,
  a key or a path, what becomes of each, and what words its output can hold, in terms of their letters. `ScrubFixed`,
  `ScrubKeys`, `ScrubSlots`, `ScrubStable`: what a second scrub changes, piece by piece, key by key, slot by slot, and
  for whole lines. `Clip`, `SealCut`, `Seal`: the UTF-8-aware byte cap, where it cuts a sealed reason, and what the cut
  leaves of the guarantee.
- `Golden`, `Ranking`, `Conformance`, `ConformanceRun`: the golden loader, the tie rule, the verdicts, and the gate
  runner against an engine whose every answer may depend on everything it was asked before. `GoldenLimits`,
  `GoldenCases`, `RankingLaws`: their limits, pins and ties as literal numbers, and what one case more changes.
  `ModelGate`: which engines pass the gate.
- `HarnessHash`, `HarnessIdentity`, `HarnessLaws`: the workspace walk on a filesystem tree, what its identity depends
  on, and the walk told by names alone.
- `CoolGate`, `Sandbox`, `Score`: the cool-down poll loop, the Seatbelt profile, speedups, bands and the paired gate.
  `CoolGateLaws`, `SandboxPolicy`, `ScoreLaws`: when the loop ends for readers of a known shape, what the profile allows
  under its own policy, and how each speedup weighs.

Code that updates state in the source is imperative here, and each such method is proved against a specification
(an if-and-only-if on its result, or a function of its input and old state); the theorems are about that specification.

## Modelling choices

- JSON lines are decoded values. A read from the transport yields a response, a log line, an undecodable line, the end of
  the stream, an expired deadline or an I/O error. Deadlines are that event; no clock is modelled.
- f64 arithmetic is exact; non-finite values appear wherever the source tests for them. Zero has one sign.
- The score of a run is the positive number whose fourth power is the decode speedup cubed times the prefill speedup, as
  the default weights 0.75 and 0.25 prescribe; no root is computed.
- Paths and lines are sequences of Unicode scalar values, with UTF-8 spelled out (section 3 of RFC 3629) where bytes
  matter. The order of paths is by scalar value; `Utf8.TextOrderIsByteOrder` proves it the byte order of their encodings.
- The library sort of floating-point ratios is any permutation, sorted unless a NaN takes part, handed in as a parameter.
- SHA-256 is any function of bytes. A filesystem is a tree whose nodes say what a path names before links are followed;
  reading is a function that agrees with the tree on the collected paths.
- Errors carry what the source's error variants carry where they are structured; message texts are not modelled. Golden
  loading has one error.

## Where code and comments disagree

The code is followed in each case.

- `crates/bench-runner/src/scrub.rs:176` calls scrubbing idempotent. It is not: `ScrubStable.IdempotenceFails` names a line
  a second pass changes, and three lemmas give the families. `ScrubStable.ScrubTwiceIsOnceIff` says of every line whether
  a second pass changes it, and `ScrubStable.StableScrubsOnce` gives a condition to read off the line.
- `crates/bench-runner/src/scrub.rs:513-517` promises of the sealed reason what scrubbing promises. It keeps all but one
  thing: cut right behind two components and their slash, the marker reads as a third. `Seal.SealMakesPath` is such a
  reason, and `Seal.SealedReasonIsSafe` says of every reason whether this happens to it.
- `crates/bench-core/src/score.rs:381` says that a NaN sorts last and is caught by the finite check. Its comparison
  answers "greater" on both sides of a NaN, so no order puts it anywhere: `Score.NaNIsNotCaught`, and
  `Score.HalfClearExactly` for the lists where that matters. Its callers today pass no
  NaN: they compute a ratio that is zero instead, or read one figure from JSON.
- The session's own description says any error discards it. A refused replay report does not, and
  `SessionSpec.FailureDiscardsExactly` says that this is the only exception.
- `dflash_depth` is described for an object with a `depth` key. Decoding a one-field struct also accepts a one-element
  array, so the model does too.

## Model

| member | source | states |
|---|---|---|
| SessionSpec.SendEffect | crates/bench-runner/src/session.rs:237-305 | one exchange writes at most one line, numbered with the next id, and only from a live session; success means the response echoes the nonce and that id with ok set; failure discards |
| SessionSpec.RunKeepsWireSafe | crates/bench-runner/src/session.rs:237-305 | over every call sequence and every far end: ids on the wire are 1, 2, 3, …, no gated line without its hello capability, no non-serial spec whose mode the hello did not list |
| SessionSpec.ConnectedWireSafe | crates/bench-runner/src/session.rs:146-202 | whatever the hello said, a session that connects starts in that safe state |
| SessionSpec.GatePermits | crates/bench-runner/src/session.rs:355-371 | a request no gate refused is one the hello permits, free-run, cohort and replay lines included |
| SessionSpec.DiscardIsForever | crates/bench-runner/src/session.rs:237-257 | discarded never reverts, and nothing is written or read after it, over every later call sequence |
| SessionSpec.WireGrows | crates/bench-runner/src/session.rs:259-305 | written lines are never taken back, and there is at most one per call |
| Verbs.WireTellsCalls | crates/bench-runner/src/session.rs:311-672 | over every call sequence and every far end: reading the new lines back, kind and fields, gives, numbered in a row, exactly the calls that passed their gate on a live session and were written, in order, each with its own prompt, token, seeds, committed tokens, counts, widths and spec, and no line besides |
| Verbs.OkMeansHeard | crates/bench-runner/src/session.rs:259-305 | every successful verb put one line on the wire that reads back as that very call, and was answered under the session nonce and that line's id, with ok set and with what the verb asks of an answer: the spec and width echoes, eight top logits, a drained cache |
| Verbs.AnswerVerdict | crates/bench-runner/src/session.rs:259-305 | behind any number of log lines an answer passes if and only if nonce, id and status are right; each refusal is given exactly when its own check is the first to fail, an unparsed request (id -1, not ok) before any |
| Verbs.VerbAccepts | crates/bench-runner/src/session.rs:311-830 | which answers each verb accepts, verb by verb, as an if-and-only-if: eight top logits for the correctness verbs, the echoes asked for, the issued count for a close |
| Verbs.VerbRefuses | crates/bench-runner/src/session.rs:355-830 | every refused answer is refused with what it says: the count it had, the echo it gave, the work it reported |
| Verbs.HelloVerdict | crates/bench-runner/src/session.rs:146-202 | a hello is accepted in exactly one shape, protocol version 1; each refusal names the first thing wrong, and the opened state is read off the hello |
| SessionSpec.FailureDiscardsExactly | crates/bench-runner/src/session.rs:628-644 | every failed call discards the session, with exactly one exception: a replay response that passed the shared checks but has no report or another width |
| SessionSpec.ReplayWithoutReportStaysLive | crates/bench-runner/src/session.rs:636-642 | a concrete session that such a failure leaves live |
| SessionSpec.MaxBatchNeverConsulted | crates/bench-runner/src/session.rs:540-584 | no call depends on the advertised maximum width |
| Session.ReadResponseLine | crates/bench-runner/src/session.rs:843-898 | the read loop skips log lines up to the first response line and maps every other event to its error |
| Session.ConnectSession | crates/bench-runner/src/session.rs:146-202 | the handshake accepts exactly id 0, ok, a non-empty nonce and the supported version, and starts the state the runs above start from |
| Session.EngineSession.Send | crates/bench-runner/src/session.rs:237-257 | the method makes exactly the step the run theorems are about, counter bump before the discarded check included |
| Session.EngineSession.DecodeBegin | crates/bench-runner/src/session.rs:322-343 | the spec gate, the exchange and the echo check together make exactly one modelled step |
| Session.EngineSession.FreeDecodeBeginBatched | crates/bench-runner/src/session.rs:540-556 | the cohort gate, the spec gate, both echo checks and the exchange make exactly one modelled step |
| Session.EngineSession.CohortReferenceReplay | crates/bench-runner/src/session.rs:628-644 | gate, exchange and the two checks after it make exactly one modelled step, without a discard in the last two |
| Session.EngineSession.ClosePhase | crates/bench-runner/src/session.rs:706-740 | the barrier compares the two counters, refuses an undrained cache, and zeroes the issued count only on success |
| Session.EngineSession.CloseFreeRunPhase | crates/bench-runner/src/session.rs:752-785 | the close runs the single-stream verifier on the engine counter and discards on any fault |
| Session.EngineSession.CloseBatchedFreeRunPhase | crates/bench-runner/src/session.rs:797-830 | the close runs the cohort verifier on the engine counter and discards on any fault |
| Mock.MockEngine.WriteLine | crates/bench-runner/src/mock.rs:724-920 | the engine counts its own work per request kind and queues exactly one answer, as the coupling theorems assume |
| MockLaws.CorrectnessAnswersAreTrusted | crates/bench-runner/src/mock.rs:681-696 | the engine's correctness answer is a list the correctness gate trusts if and only if its tokens stay in the vocabulary |
| MockLaws.RunIsFirstStream | crates/bench-runner/src/mock.rs:617-672 | a run on its own generates what the first stream of a cohort does, with a stream's share of the totals; every row walks the committed widths and none drops out |
| Coupling.HelloCouples | crates/bench-runner/src/mock.rs:211-233 | the handshake with the engine starts both counters equal |
| Coupling.ExchangeSucceeds | crates/bench-runner/src/session.rs:259-305 | any exchange between linked sides succeeds with the engine's own answer and leaves them linked |
| Coupling.RunStaysCoupled | crates/bench-runner/src/session.rs:698-740 | for every sequence of v1 verbs, closes, and begin_phase at phase boundaries, no call fails and the session and engine counters agree at the end |
| Coupling.PrefixStaysCoupled | crates/bench-runner/src/session.rs:698-740 | and they agree after every call of such a run, not just the last |
| Coupling.CloseKeepsCoupled | crates/bench-runner/src/session.rs:706-740 | a close against a conformant engine reports the issued count and zeroes both sides |
| Coupling.BeginPhaseCouplesIffBoundary | crates/bench-runner/src/session.rs:698-700 | begin_phase keeps the counters equal if and only if nothing was issued in the phase |
| Coupling.RawDiagnosticsCouplesIffBoundary | crates/bench-runner/src/session.rs:690-693 | a raw diagnostics call keeps them equal under the same condition and no other |
| Coupling.SpecdBeginSucceedsExactly | crates/bench-runner/src/mock.rs:574-584 | against a verbatim echo a spec'd begin succeeds if and only if its mode is runnable and every depth is stated; otherwise the session is discarded |
| Coupling.EngineDecidesRefused | crates/bench-runner/src/session.rs:380-403 | the mtp request that leaves its depth to the engine is refused by that echo |
| Coupling.SkewCaughtAtNextClose | crates/bench-runner/src/session.rs:706-740 | after any run of verbs the next close succeeds if and only if the engine reports its own counter and a drained cache; any skew is named and discards |
| Coupling.FreeRunPhaseCloses | crates/bench-runner/src/session.rs:752-785 | one free begin and one run of n tokens close with exactly R+1 forwards, if and only if the reported widths sum to n |
| Coupling.DefaultFreeRunPhaseCloses | crates/bench-runner/src/mock.rs:533-538 | the engine default of one token a round always closes, with R = n |
| Coupling.CohortPhaseCloses | crates/bench-runner/src/session.rs:797-830 | a cohort phase of any width closes with the scalar R+1 counter if and only if the widths sum to n, the round count fits its field and an empty cohort ran nothing |
| Coupling.CohortCloseOutcome | crates/bench-runner/src/session.rs:797-830 | a cohort close is accepted exactly when the reported counts are consistent with the engine's own counter |
| Drift.EveryRunIsTallied | crates/bench-runner/src/session.rs:237-830 | for every engine and every sequence of calls whatever, the session is live at the end if and only if a bookkeeping of the two counters lets it survive each call, and the counters are the tallied ones |
| Drift.DriftDecidesClose | crates/bench-runner/src/session.rs:706-740 | after any such run, free-run calls, raw diagnostics and mid-phase begin_phase included, the next close succeeds if and only if the drift between the counters is zero; a refusal names both |
| Drift.DriftIsUncounted | crates/bench-runner/src/mock.rs:724-920 | between resets the drift grows by exactly the forwards of the free-run calls |
| Drift.UnresetPhaseCloses | crates/bench-runner/src/session.rs:706-740 | a phase that resets nothing closes by close_phase if and only if no free-run call cost a forward |
| Protocol.JsonSubsetReflexive | crates/bench-protocol/src/lib.rs:292-299 | containment of JSON values is reflexive |
| Protocol.JsonSubsetTransitive | crates/bench-protocol/src/lib.rs:292-299 | and transitive |
| Protocol.JsonSubsetAntisymmetric | crates/bench-protocol/src/lib.rs:292-299 | and antisymmetric |
| Protocol.SelfEchoIffResolved | crates/bench-protocol/src/lib.rs:243-287 | a spec is its own acceptable echo if and only if every module block states its depth |
| Protocol.HonorsTransitive | crates/bench-protocol/src/lib.rs:243-287 | the echo rule is transitive |
| Protocol.AcceptedEchoHonorsItself | crates/bench-protocol/src/lib.rs:243-287 | every accepted echo honors itself |
| Protocol.HonorsAntisymmetric | crates/bench-protocol/src/lib.rs:243-287 | two specs that honor each other are equal |
| Protocol.ResolvedMtpEchoExact | crates/bench-protocol/src/lib.rs:243-287 | a fully stated mtp request admits itself as echo and nothing else |
| Protocol.DflashDepthPreserved | crates/bench-protocol/src/lib.rs:189-204 | a requested dflash depth is the depth of every accepted echo |
| Protocol.EngineDecidesDepth | crates/bench-protocol/src/lib.rs:243-287 | an mtp request without a depth accepts any stated depth and no echo without one |
| Protocol.DflashEchoMayAdd | crates/bench-protocol/src/lib.rs:243-287 | a dflash echo may add keys to the requested block at any depth, and must end up stating a depth |
| Protocol.OtherShapeIsRefused | crates/bench-protocol/src/lib.rs:243-287 | an echo in another mode, with a block the request lacks or without one it has, is refused |
| Protocol.DepthIsRead | crates/bench-protocol/src/lib.rs:189-204 | the depth of a dflash block is its `depth` key, or the one element of an array, where it is an unsigned 32-bit integer |
| FreeRun.VerifyConsistency | crates/bench-core/src/free_run.rs:288-319 | accepts exactly the consistent single-stream responses; a rejection names the first failing check with its true values |
| FreeRun.VerifyCohortConsistency | crates/bench-core/src/free_run.rs:552-673 | accepts exactly the responses meeting the whole cohort predicate (rectangle, sums, R+1, naturals, active tail); a rejection is the first fault in checking order, with true witnesses |
| FreeRun.CheckNaturalRow | crates/bench-core/src/free_run.rs:603-630 | one slot's natural walk covers every round at or above the committed width, or the first deviation is named |
| FreeRun.CheckActiveTail | crates/bench-core/src/free_run.rs:631-657 | the active counts stay in 1..=B and never rise, or the first deviation is named |
| FreeRun.EmptyCohort | crates/bench-core/src/free_run.rs:552-673 | an empty cohort is accepted only when no token was asked for and no round run |
| FreeRun.WidthOneAgrees | crates/bench-core/src/free_run.rs:552-673 | at width one, with well-shaped audit vectors, the cohort verifier accepts exactly what the single-stream one does, with the same base audit |
| FreeRun.RoundsAtMostTokens | crates/bench-core/src/free_run.rs:332-359 | rounds are bounded by tokens once every acceptance length is at least one |
| FreeRun.ZeroWidthRounds | crates/bench-core/src/free_run.rs:332-359 | acceptance alone bounds nothing: one token may be accepted with any number of rounds |
| FreeRunLaws.AuditAddsUp | crates/bench-core/src/free_run.rs:288-359 | an accepted audit adds up: accepted tokens no more than drafted, rounds plus one the engine counter, lengths summing to the tokens asked for |
| FreeRunLaws.CohortAuditAddsUp | crates/bench-core/src/free_run.rs:552-673 | so does a cohort audit, whose committed total is the sum of its streams |
| FreeRunLaws.OneChange | crates/bench-core/src/free_run.rs:288-359 | from an accepted response, exactly which change of one reported number or of the lengths keeps it accepted |
| FreeRunLaws.OneCohortScalar | crates/bench-core/src/free_run.rs:552-673 | the same of each scalar a cohort reports |
| FreeRunLaws.OneCohortVector | crates/bench-core/src/free_run.rs:552-673 | and of one stream's length, one row of walks, and the active counts |
| FreeRunLaws.FaultIsFirst | crates/bench-core/src/free_run.rs:552-673 | a reported cohort fault is a check that fails, and every check before it in the source's order passes |
| FreeRunLaws.FaultPointsAtFirst | crates/bench-core/src/free_run.rs:552-673 | it carries the numbers at fault and points at the first stream, row or round that is |
| FreeRunLaws.VerdictInOrder | crates/bench-core/src/free_run.rs:288-359 | the single-stream verifier checks the token count first, then committed total, drafts, sum, and the counter last |
| CohortMetrics.CountsNested | crates/bench-core/src/free_run.rs:737-760 | truncated rounds are throttled rounds, and those are rounds |
| CohortMetrics.UnthrottledRows | crates/bench-core/src/free_run.rs:737-760 | no round is throttled if and only if every row walked exactly the committed widths |
| CohortMetrics.NaturalWalksCoverCommitted | crates/bench-core/src/free_run.rs:763-777 | the natural walks of a verified cohort sum to at least B*N, exactly so if and only if nothing throttled |
| CohortMetrics.MeanNaturalAtLeastMeanAcceptance | crates/bench-core/src/free_run.rs:763-777 | the mean natural length is at least the mean acceptance length, with equality if and only if nothing throttled |
| CohortMetrics.OneLongWalk | crates/bench-core/src/free_run.rs:737-760 | one walk past the committed width throttles its own round and no other, and truncates it exactly if it is the only stream's |
| HonestCohort.HonestCohortAccepted | crates/bench-core/src/free_run.rs:552-673 | every honest closed cohort terminates in a response the verifier accepts |
| HonestCohort.CommitsFollowWalks | crates/bench-core/src/free_run.rs:735-760 | no committed width exceeds a walk, and every round but the last commits some row's whole walk |
| HonestCohort.OnlyLastRoundTruncated | crates/bench-core/src/free_run.rs:743-747 | an honest run has at most one budget-truncated round, and it is the last |
| Attestation.AttestLeg | crates/bench-core/src/per_stream_attestation.rs:280-440 | attests exactly the legs that pass every guard; a refusal is the error of the first guard, in checking order, that fails, with what it found |
| Attestation.RefusalIsUnique | crates/bench-core/src/per_stream_attestation.rs:280-352 | that first refusal is unique down to its slot and lengths, and no leg that passes has one |
| Attestation.BoundingMeans | crates/bench-core/src/per_stream_attestation.rs:359-380 | bounding is unflagged if and only if no stream outlasts the window |
| Attestation.FloorMeans | crates/bench-core/src/per_stream_attestation.rs:399-419 | a floor is flagged if and only if the stream ran shorter than its tokens' share of the window |
| Attestation.MoreTokensThanRounds | crates/bench-core/src/per_stream_attestation.rs:399-419 | a stream with more tokens than rounds that stays inside the window always flags its floor |
| Attestation.BoundedAndFlooredExactly | crates/bench-core/src/per_stream_attestation.rs:359-419 | on a verified cohort of positive widths, bounding and floor are both unflagged if and only if R = N and every stream fills the window exactly |
| Attestation.LockstepSumsToWidth | crates/bench-core/src/per_stream_attestation.rs:420-427 | the lockstep ratios always sum to the cohort width |
| Attestation.BoundedAndCoveredExactly | crates/bench-core/src/per_stream_attestation.rs:359-398 | bounding and coverage are both unflagged if and only if the slowest stream fills the window |
| AttestationLaws.AttestedIs | crates/bench-core/src/per_stream_attestation.rs:353-440 | every clause of an attestation is that of its own phase, vector and window, and the two sums are those of their own vectors |
| AttestationLaws.PhasesAreApart | crates/bench-core/src/per_stream_attestation.rs:353-440 | replacing every prefill number leaves each decode field as it was, and the other way round |
| AttestationLaws.PrefillFlagsMean | crates/bench-core/src/per_stream_attestation.rs:359-398 | in the leg's own numbers and without a division: when the prefill flags are up |
| AttestationLaws.DecodeFlagsMean | crates/bench-core/src/per_stream_attestation.rs:359-398 | and when the decode flags are |
| AttestationLaws.SharesMean | crates/bench-core/src/per_stream_attestation.rs:399-427 | and what the floor and the lockstep ratio of a slot say of its decode time and tokens |
| AttestationLaws.RefusalIsFirst | crates/bench-core/src/per_stream_attestation.rs:280-352 | the guards in order, each with the numbers it reports |
| CohortTolerance.VerifyReplayEcho | crates/bench-core/src/cohort_tolerance.rs:178-212 | accepts exactly an identical journal; otherwise the first divergence in slot and position order |
| CohortTolerance.EvaluateCohortTokenTolerance | crates/bench-core/src/cohort_tolerance.rs:227-276 | judges exactly the well-shaped inputs, tallies every slot, and reports the lowest slot strictly over the tolerance |
| CohortTolerance.MismatchesAtMostLength | crates/bench-core/src/cohort_tolerance.rs:253-258 | the tally is at most the stream and zero if and only if the streams are equal |
| CohortTolerance.PooledPasses | crates/bench-core/src/cohort_tolerance.rs:40-44 | when every stream passes, so does the pooled rate |
| ToleranceLaws.MismatchesAreDiffering | crates/bench-core/src/cohort_tolerance.rs:253-258 | the tally is the size of the set of positions that differ |
| ToleranceLaws.FailsIsRate | crates/bench-core/src/cohort_tolerance.rs:40-44 | a stream fails if and only if more than the tolerated number in a thousand of its positions differ |
| ToleranceVerdicts.OneTokenIsNamed | crates/bench-core/src/cohort_tolerance.rs:178-212 | one echoed token that differs is reported with its slot, its position and both tokens |
| ToleranceVerdicts.GateJudgesShares | crates/bench-core/src/cohort_tolerance.rs:227-276 | aligned streams are judged each by its own share, and the slot reported is the lowest whose share is over the tolerance |
| ToleranceVerdicts.SpoiltSlotIsNamed | crates/bench-core/src/cohort_tolerance.rs:227-276 | from aligned streams: what an emptied slot, a longer stream on either side or an added stream is refused with |
| NearTie.NearTieStats | crates/bench-core/src/near_tie.rs:259-349 | describes every stream and the totals, worst rate and headroom, for exactly the usable inputs |
| NearTie.SealCountsGateMismatches | crates/bench-core/src/near_tie.rs:283-305 | the seal recounts exactly the gate's mismatches |
| NearTie.HeadroomDecidesGate | crates/bench-core/src/near_tie.rs:326-349 | the headroom is non-negative if and only if the tolerance gate passes, and the per-slot tallies agree |
| NearTie.WiderEnvelopeCountsMore | crates/bench-core/src/near_tie.rs:286-305 | near-tie counts are monotone in the envelope |
| NearTie.CountsNest | crates/bench-core/src/near_tie.rs:278-305 | near-tie mismatches are mismatches and near-ties, and the gap list has one entry per mismatch |
| ToleranceLaws.SealCountsPositions | crates/bench-core/src/near_tie.rs:278-305 | the three tallies of a seal are the sizes of the missed set, the close set and their intersection |
| ToleranceLaws.GapsAreOfMissed | crates/bench-core/src/near_tie.rs:278-305 | the gap list holds exactly the gaps of the missed positions |
| ToleranceLaws.TotalsAre | crates/bench-core/src/near_tie.rs:326-349 | each total is the sum of its own column, and the two kinds of mismatch make up all of them |
| ToleranceLaws.WorstIsAStreams | crates/bench-core/src/near_tie.rs:326-349 | the worst rate is the highest of the streams' and the headroom is the budget less it |
| ToleranceVerdicts.SealRefusal | crates/bench-core/src/near_tie.rs:259-349 | a seal is refused for no streams, then for an envelope that is no number, infinite or below zero, then for the first empty stream |
| ToleranceVerdicts.LeastGapIsMissed | crates/bench-core/src/near_tie.rs:309-324 | the least gap is that of a missed position and no missed one has a smaller; none and no median exactly when nothing is missed |
| Median.HalfOnEachSide | crates/bench-core/src/near_tie.rs:234-248 | at least half of the values lie on each side of the even-count median |
| Median.FiniteMedian | crates/bench-core/src/score.rs:375-390 | on finite floating-point values any library sort gives the median of the reals |
| Median.MedianForgetsOrder | crates/bench-core/src/score.rs:375-390 | the median does not depend on the order of the values |
| Median.MedianWithinBounds | crates/bench-core/src/score.rs:375-390 | the median stays inside any bounds the values keep |
| Median.MedianIsMidpoint | crates/bench-core/src/score.rs:375-390 | the median is a value at the middle place, or halfway between the two around it |
| Scrub.ScrubEngineText | crates/bench-runner/src/scrub.rs:177-210 | the token loop computes the line scrubber the theorems below are about |
| Scrub.ScrubToken | crates/bench-runner/src/scrub.rs:317-334 | the wrapper loop scrubs each piece between wrappers and keeps the wrappers |
| Scrub.StripControlBytes | crates/bench-runner/src/scrub.rs:300-312 | the escaping loop computes the character-wise escape |
| Scrub.BasenameShorter | crates/bench-runner/src/scrub.rs:502-511 | the surviving basename is a strictly shorter part of the path, so the mutual recursion ends |
| ScrubWords.FqdnIsHostName | crates/bench-runner/src/scrub.rs:443-475 | for every text: it is taken for a host if and only if it is two or more labels of letters, numerals and dashes joined by dots, the last of 2 to 24 letters that spell no listed file extension, and it is not the loopback's own name |
| ScrubRules.HostIsSealed | crates/bench-runner/src/scrub.rs:391-411 | for every core: it comes out as `<host>` if and only if it is such a name, or the sentinel already |
| ScrubRules.HostBeforePort | crates/bench-runner/src/scrub.rs:433-441 | and such a name, and no other, comes out as `<host>` with its port behind it |
| ScrubRules.UrlIsSealed | crates/bench-runner/src/scrub.rs:346-361 | whatever stands around `://` goes with it |
| ScrubRules.AssignmentIsSealed | crates/bench-runner/src/scrub.rs:362-379 | `key=value`: a credential's value becomes the sentinel, any other value is scrubbed in its turn, and the key stays |
| ScrubRules.AccountIsSealed | crates/bench-runner/src/scrub.rs:380-390 | an account at a host goes whole |
| ScrubRules.PathIs | crates/bench-runner/src/scrub.rs:421-428 | which slashed parts make a path: a leading slash, home or dot directory, or three parts that are not empty |
| ScrubRules.PathIsSealed | crates/bench-runner/src/scrub.rs:502-511 | a path of more than two places keeps the last, scrubbed in its turn; a shallower one keeps nothing; `.`, `..` and a home are no places |
| ScrubRules.ColonIsSealed | crates/bench-runner/src/scrub.rs:391-413 | `key:value` exactly: a host keeps its port, the loopback stays, a credential's value is sealed, prose is left alone |
| ScrubWords.CredentialIs | crates/bench-runner/src/scrub.rs:139-163 | a key is a credential if and only if it spells one of the listed words somewhere, in whatever case |
| ScrubRules.QuotesAreKept | crates/bench-runner/src/scrub.rs:292-297 | quotes around a word stand, and the rules see what lies between them |
| ScrubRules.WrappersStand | crates/bench-runner/src/scrub.rs:317-344 | the nine wrapping characters stand, and what lies between them is scrubbed piece by piece |
| ScrubRules.WordIsScrubbed | crates/bench-runner/src/scrub.rs:177-210 | a line is scrubbed word by word, blanks and tabs standing, up to the first word that opens a credential slot |
| ScrubRules.EscapeNamesItsCode | crates/bench-runner/src/scrub.rs:300-312 | a control character becomes `\x` and the two hexadecimal digits of its code; every other character is itself |
| ScrubHolds.ScrubbedWordsTellNothing | crates/bench-runner/src/scrub.rs:177-210 | by the letters alone: no word between two bounds of any scrubbed line, quotes aside, is a dotted host name, with or without a port, or slashed parts that make a path, or holds anything but the sentinel behind a credential word and its `:` or `=`; and so on behind each `=` it assigns |
| ScrubSafety.ScrubbedLineIsSafe | crates/bench-runner/src/scrub.rs:177-210 | for every input line the output holds no `://` and no control character, and none of its fragments, quotes aside, is a path, a host or a host with a port, nor does a credential key introduce anything but the sentinel; and the same of the value behind every `=` in turn |
| ScrubSafety.CoreClean | crates/bench-runner/src/scrub.rs:346-413 | one scrubbed core is no path, no host with or without a port, and sealed, and so is each value along its chain of assignments |
| ScrubSafety.CoreNoUrl | crates/bench-runner/src/scrub.rs:346-413 | one scrubbed core holds no `://` |
| ScrubSafety.CoreChars | crates/bench-runner/src/scrub.rs:346-413 | scrubbing a core adds no character but those of the sentinels |
| ScrubSafety.SlotClean | crates/bench-runner/src/scrub.rs:231-283 | a sealed slot, in any of its forms, is clean |
| ScrubSecrets.SecretsLeaveNoTrace | crates/bench-runner/src/scrub.rs:193-202 | two lines alike up to a credential key, with its value attached, in the next token, or behind a colon that stands alone, scrub to the same text whatever the value and all behind it |
| ScrubSecrets.SecretSlotFires | crates/bench-runner/src/scrub.rs:231-283 | in each of these forms the slot opens and keeps the key, its delimiter and the sentinel only |
| ScrubStable.ScrubTwiceIsOnceIff | crates/bench-runner/src/scrub.rs:176-210 | for every line, scrubbing twice is scrubbing once if and only if no token before the first credential slot is a risky path or hides a key behind a URL, and that slot is no `KEY= value` header |
| ScrubStable.StableScrubsOnce | crates/bench-runner/src/scrub.rs:176-210 | in particular on every line without `://`, without `@`, and without a token that ends in `=` |
| ScrubStable.IdempotenceFails | crates/bench-runner/src/scrub.rs:173-177 | a concrete line a second scrub changes: idempotence, which the comment claims, fails |
| ScrubStable.EqualsHeaderIsRestless | crates/bench-runner/src/scrub.rs:231-283 | first failing family: every `KEY= value` header |
| ScrubStable.KeyBesideUrlIsRestless | crates/bench-runner/src/scrub.rs:231-283 | second: a credential key whose slot was shut only by a URL behind a wrapper in its token |
| ScrubStable.AtPathIsRestless | crates/bench-runner/src/scrub.rs:346-413 | third: a deep path that opens with `@` and ends in a user@host |
| ScrubFixed.CoreStableIffNotRisky | crates/bench-runner/src/scrub.rs:346-413 | for every core, scrubbing twice is scrubbing once if and only if it is not a deep path whose scrubbed basename still holds an `@` before its end |
| ScrubFixed.TokenStableIffNotRisky | crates/bench-runner/src/scrub.rs:317-334 | and for every token, if and only if none of its pieces is |
| ScrubKeys.KeySurvives | crates/bench-runner/src/scrub.rs:346-413 | a scrubbed core still opens with a sealing key if and only if the core did and no plain rule takes it whole |
| ScrubSlots.SlotIffOpens | crates/bench-runner/src/scrub.rs:231-283 | a slot opens exactly when there is no URL in the token, a sealing key before its first delimiter, and a value worth sealing behind it |
| ScrubSlots.NoSlotLeft | crates/bench-runner/src/scrub.rs:177-210 | where no slot opened and no URL shut one, none opens on the scrubbed token either, whatever the rest of the line became |
| ScrubSlots.SlotAppears | crates/bench-runner/src/scrub.rs:231-283 | where a URL shut one, it opens on the scrubbed token for certain |
| ScrubKeeps.ProseSurvives | crates/bench-runner/src/scrub.rs:177-210 | plain prose comes out character for character |
| ScrubKeeps.QuietCoreUnchanged | crates/bench-runner/src/scrub.rs:346-413 | a core with none of the rule characters that is no host passes unchanged |
| ScrubKeeps.DeepPathKeepsBasename | crates/bench-runner/src/scrub.rs:502-511 | a deep path keeps an innocuous basename whole |
| ScrubKeeps.HostKeepsPort | crates/bench-runner/src/scrub.rs:433-441 | a sealed host keeps its port |
| ScrubKeeps.ReadableHostSurvives | crates/bench-runner/src/scrub.rs:391-411 | a loopback name stays readable with its port, although its name holds a credential marker |
| Clip.ClipToBytes | crates/bench-runner/src/scrub.rs:525-540 | whole text if it fits; else valid UTF-8 of cap-3..=cap bytes: the longest prefix of whole characters, or around the marker the longest head in half of the room and the longest tail in what it leaves |
| Clip.ClippingIsUnique | crates/bench-runner/src/scrub.rs:525-540 | that says of every text and cap what the result is: there is one such clipping |
| Clip.FloorBoundary | crates/bench-runner/src/scrub.rs:543-551 | the largest character boundary at or below the index, at most three bytes lower |
| Clip.CeilBoundary | crates/bench-runner/src/scrub.rs:554-559 | the smallest character boundary at or above the index, at most three bytes higher |
| Utf8.BoundaryCutsValid | crates/bench-runner/src/scrub.rs:525-540 | valid UTF-8 cut at a boundary is two valid texts |
| SealCut.ScrubReasonForSeal | crates/bench-runner/src/scrub.rs:518-520 | the sealed reason is the encoding of the scrubbed one, whole or cut between characters at the places given by its own widths |
| SealCut.BothEndsKept | crates/bench-runner/src/scrub.rs:522-540 | an over-long reason keeps 1013 to 1016 bytes of head and with the tail 2030 to 2033, and one more character on either side would not fit |
| Seal.SealedReasonIsSafe | crates/bench-runner/src/scrub.rs:513-540 | for every reason the seal holds no `://`, no control character and no host, alone or with a port; it holds a path-shaped fragment if and only if the scrubbed reason is over 2048 bytes and the head of it ends in two components and their slash |
| Seal.CutBehindAlmostPath | crates/bench-runner/src/scrub.rs:513-540 | among any prose, a word such as `a/b/` at the end of the head makes a path of the sealed text that the scrubbed one did not hold |
| Seal.SealMakesPath | crates/bench-runner/src/scrub.rs:513-540 | a concrete reason of 2117 bytes that does |
| Golden.LoadGoldenFixture | crates/bench-core/src/golden.rs:589-684 | loads exactly the acceptable documents, and the fixture carries the document's own parts with the digest and byte count |
| GoldenLimits.PinDecides | crates/bench-core/src/golden.rs:735-757 | a pin refuses exactly the files of another size or of a digest that differs in more than case, whitespace around the pinned digest aside, and changes nothing else |
| GoldenLimits.PinIdentifies | crates/bench-core/src/golden.rs:735-757 | any two loads accepted under one pin have one size and one digest up to case |
| GoldenLimits.OwnPinAccepts | crates/bench-core/src/golden.rs:735-757 | every document accepted without a pin is accepted under the pin of its own digest and size, in either case and padded |
| GoldenLimits.BaseCaseLimits | crates/bench-core/src/golden.rs:830-869 | a base case passes if and only if its name, prompt length, expected length and tokens are within these literal limits |
| GoldenLimits.AnchorLimits | crates/bench-core/src/golden.rs:909-968 | the same of an anchor |
| GoldenLimits.FreeRunLimits | crates/bench-core/src/golden.rs:970-1018 | the same of a free-run case |
| GoldenLimits.BehaviorLimits | crates/bench-core/src/golden.rs:1020-1079 | the same of a behavior case |
| GoldenLimits.BenchmarkLimits | crates/bench-core/src/golden.rs:1106-1180 | the same of the benchmark part |
| GoldenLimits.EdgeGoldenLoads | crates/bench-core/src/golden.rs:589-684 | a document at every upper limit at once loads, so none of them is tighter than stated |
| GoldenCases.OneMoreBase | crates/bench-core/src/golden.rs:830-869 | one base case more, anywhere among the others: the document loads if and only if it did before, the case is within its limits, and no case of any layer has its name |
| GoldenCases.OneMoreAnchor | crates/bench-core/src/golden.rs:909-968 | the same of one anchor more |
| GoldenCases.OneMoreFreeRun | crates/bench-core/src/golden.rs:970-1018 | the same of one free-run case more |
| GoldenCases.OneMoreBehavior | crates/bench-core/src/golden.rs:1020-1079 | the same of one behavior case more |
| GoldenLimits.DemandsDecide | crates/bench-core/src/golden.rs:589-684 | a golden that loads goes on loading under another window, prompt length or model exactly when it meets that one |
| GoldenLimits.PartsDecide | crates/bench-core/src/golden.rs:871-907 | the format version is 1, the optional parts may be missing, and a part that is there is not empty |
| Golden.ValidateGoldenCases | crates/bench-core/src/golden.rs:830-869 | accepts exactly a non-empty list of well-formed, distinctly named cases of the required sizes |
| Golden.ValidateGoldenAnchorCases | crates/bench-core/src/golden.rs:909-968 | accepts exactly well-formed, distinctly named anchors |
| Golden.ValidateGoldenFreeRunCases | crates/bench-core/src/golden.rs:970-1018 | accepts exactly well-formed, distinctly named free-run cases |
| Golden.ValidateGoldenBehaviorCases | crates/bench-core/src/golden.rs:1020-1079 | accepts exactly well-formed, distinctly named behavior cases |
| Golden.ValidateUniqueLayeredCaseNames | crates/bench-core/src/golden.rs:1081-1103 | accepts exactly layered names that repeat neither each other nor a base name |
| Golden.AcceptedGoldenIsUnambiguous | crates/bench-core/src/golden.rs:562-571 | an accepted golden has pairwise distinct names across all layers, counts exactly its names, and has no case shorter than its window |
| Golden.LayersShareNoName | crates/bench-core/src/golden.rs:1081-1103 | no two layers of an accepted golden share a name |
| Ranking.CanonicalArgmax | crates/bench-core/src/conformance.rs:55-68 | an entry nothing beats: highest logit, lowest token among equals |
| Ranking.RankCountsBetter | crates/bench-core/src/conformance.rs:72-82 | over finite logits the rank of a token is one more than the number of entries that beat its best copy |
| Ranking.RankOneIffArgmax | crates/bench-core/src/conformance.rs:72-82 | rank 1 and canonical argmax are the same token |
| Ranking.MaxIsBest | crates/bench-core/src/conformance.rs:84-92 | the folded maximum is the argmax entry's logit |
| Ranking.TopLogitsTrustworthy | crates/bench-core/src/conformance.rs:378-413 | the adjacent checks accept exactly the in-vocabulary, finite, distinct, strictly ranked lists led by the reported token |
| Ranking.TrustworthyLeadsWithArgmax | crates/bench-core/src/conformance.rs:378-413 | a trustworthy list is already sorted: its first entry is its argmax, rank 1 and maximum |
| RankingLaws.ArgmaxIsHighest | crates/bench-core/src/conformance.rs:55-68 | the argmax is the token of the highest logit, and of several equal ones the lowest |
| RankingLaws.TieEndsAtOneMillionth | crates/bench-core/src/conformance.rs:103-122 | of two ranked tokens the second is as good as the first up to a millionth of a logit and no further |
| RankingLaws.RunnerUpAnchor | crates/bench-core/src/conformance.rs:231-328 | an anchor whose expected token ranks second passes if and only if its rank allowance is at least two and its distance allowance covers the gap |
| RankingLaws.PrefixDecides | crates/bench-core/src/conformance.rs:333-371 | a free run is judged on its required prefix where one is given, and on all of its tokens where none is |
| RankingLaws.FirstBadStepIsNamed | crates/bench-core/src/conformance.rs:420-463 | the verdict on a base case names its first step that is not accepted, with both tokens, and stops there |
| RankingLaws.FirstBadTokenIsNamed | crates/bench-core/src/conformance.rs:333-371 | the verdict on a free run names the first token that differs or is missing |
| RankingLaws.RunnerUpReport | crates/bench-core/src/conformance.rs:231-328 | an anchor's report names the token on top, the rank of the expected one, and the distance |
| Conformance.StepAcceptedMeans | crates/bench-core/src/conformance.rs:103-122 | a step passes if and only if it is exact or a true tie within 1e-6 of the maximum of a trustworthy list |
| Conformance.EvaluateTeacherForcedCase | crates/bench-core/src/conformance.rs:420-463 | the verdict names the first step not accepted, or none in the window, with the steps checked |
| Conformance.PassingCaseTracksGolden | crates/bench-core/src/conformance.rs:420-463 | with a full window a case passes if and only if every step is exact or such a tie |
| Conformance.AnchorPassMeans | crates/bench-core/src/conformance.rs:231-328 | for every list, repeated tokens included: an anchor passes if and only if all logits are finite and an accepted token is the argmax or ties it, or the best copy of the expected one is within the allowed rank and its first copy within the allowed distance |
| Conformance.EvaluateFreeRunCase | crates/bench-core/src/conformance.rs:333-371 | the verdict names the first mismatch of the required prefix |
| Conformance.FreeRunPassMeans | crates/bench-core/src/conformance.rs:333-371 | a loaded case passes if and only if the generated tokens start with its whole required prefix |
| ConformanceRun.RunConformance | crates/bench-core/src/conformance.rs:491-565 | against any engine: exactly the golden's cases in order, each behind a drain; every result is the verdict on the answer to a call that holds that case's own prompt and forced tokens; an error is explained by the last call or a short case |
| ModelGate.ModelDecidesGate | crates/bench-core/src/conformance.rs:491-565 | against every engine that computes a model, a run on a loaded golden ends in a report, which passes whenever the model continues every golden prompt as the golden does; and, if the engine lists no runner-up, only then |
| ModelGate.ReportJudgesCases | crates/bench-core/src/conformance.rs:491-565 | every verdict of a report was reached on the answer to a call with that case's own prompt and forced tokens, context, or prompt |
| ModelGate.EveryCallWithinBounds | crates/bench-core/src/conformance.rs:491-565 | whatever the engine answers and wherever the run stops, no call asked on a loaded golden holds a token outside the vocabulary or is larger than the golden may be |
| ConformanceRun.DrainedAlternates | crates/bench-core/src/conformance.rs:524-546 | the call log alternates a drain and a case, with no case undrained |
| ConformanceRun.LoadedGoldenIsNeverShort | crates/bench-core/src/conformance.rs:501-511 | a golden loaded for the same window never trips the short-case guard |
| ConformanceRun.ScopeDecidesCount | crates/bench-core/src/conformance.rs:520-556 | full scope asks the declared total minus the behavior cases; base scope the base cases |
| ConformanceRun.CheckedSteps | crates/bench-core/src/conformance.rs:201-222 | the sum of checked steps through the first failing case in base, anchor, free-run order |
| ConformanceRun.CompleteUnlessCutShort | crates/bench-core/src/conformance.rs:201-222 | that sum is the whole report's if and only if no case but the last fails |
| ConformanceRun.EveryCaseChecksSomething | crates/bench-core/src/conformance.rs:201-222 | on a loaded golden every reported case checked at least one step |
| HarnessHash.WalkDirectory | crates/bench-core/src/harness_hash.rs:139-170 | the recursive walk appends the paths of the specified files and nothing else |
| HarnessHash.WalkIsExact | crates/bench-core/src/harness_hash.rs:139-170 | a file is collected if and only if visible real directories lead to it |
| HarnessHash.WalkRepeatsNothing | crates/bench-core/src/harness_hash.rs:139-170 | and its path is collected once |
| HarnessLaws.WalkFollowsNames | crates/bench-core/src/harness_hash.rs:139-170 | stated on names alone: exactly the files that names without a leading dot lead to, through real directories, are collected, each under those names joined by slashes |
| HarnessLaws.RootKinds | crates/bench-core/src/harness_hash.rs:106-127 | what a root of each kind contributes, directly or behind links, and when it is missing |
| HarnessHash.HarnessHashRootFiles | crates/bench-core/src/harness_hash.rs:106-127 | every root's files, or a refusal naming the first root missing from disk |
| HarnessHash.HarnessHashOver | crates/bench-core/src/harness_hash.rs:192-208 | the digest of sorted readable paths, each followed by its content |
| HarnessLaws.BytesStandInOrder | crates/bench-core/src/harness_hash.rs:192-208 | the hashed bytes of a list of paths are those of its parts, one behind the other |
| HarnessIdentity.CollectionIsExact | crates/bench-core/src/harness_hash.rs:106-127 | across the roots, exactly the covered files are collected, a linked root file by its target and a linked root directory by nothing |
| HarnessIdentity.CollectionRepeatsNothing | crates/bench-core/src/harness_hash.rs:106-127 | each of them once |
| HarnessIdentity.SameCoverageSameIdentity | crates/bench-core/src/harness_hash.rs:192-208 | two workspaces whose roots cover the same readable files hash the same bytes, whatever else they hold and however they enumerate |
| HarnessIdentity.BytesDoNotFixCoverage | crates/bench-core/src/harness_hash.rs:192-208 | the converse fails, as nothing separates paths from contents: a file quoting the next path and content, beside an unreadable one, hashes as the two separate files |
| HarnessIdentity.OutlineMakesBytesExact | crates/bench-core/src/harness_hash.rs:192-208 | between workspaces with the same readable paths and content lengths, equal bytes if and only if equal coverage |
| HarnessIdentity.RootsAreProper | crates/bench-core/src/harness_hash.rs:78-88 | the nine fixed roots are distinct proper names, as the theorems above ask |
| Utf8.TextOrderIsByteOrder | crates/bench-core/src/harness_hash.rs:198-198 | the path order by characters is the byte order of the encodings the source sorts by |
| HarnessIdentity.RootOrderIsIrrelevant | crates/bench-core/src/harness_hash.rs:106-127 | the order of the roots does not show |
| HarnessIdentity.RelistingLooksAlike | crates/bench-core/src/harness_hash.rs:150-168 | nor the enumeration order of a directory |
| HarnessIdentity.InvisibleEntryLooksAlike | crates/bench-core/src/harness_hash.rs:150-168 | nor an added entry that is hidden, a link, special, unlistable or unreadable |
| HarnessIdentity.ChangeInsideLooksAlike | crates/bench-core/src/harness_hash.rs:139-170 | nor such a change at any depth |
| HarnessIdentity.AlikeRootsSameIdentity | crates/bench-core/src/harness_hash.rs:217-220 | roots that look alike give one identity |
| CoolGate.CoolGateLoop | crates/benchctl/src/coolgate.rs:48-106 | for every reader the outcome is the verdict of the first read that has one, after exactly the sleeps the earlier reads ask for: at most 273 reads and 1264 s; a pass at a multiple of 10 up to 900; a stall at exactly max(180, p+90) of the last progress p; the ceiling at the 91st hot sample |
| CoolGate.WaitingIsBounded | crates/benchctl/src/coolgate.rs:48-106 | while no read has ended the loop: at most 90 hot reads, at most two unusable ones in a row, at most 14 s of sleep a hot read |
| CoolGate.ProgressIsColdest | crates/benchctl/src/coolgate.rs:78-84 | the last progress is colder than every hot sample before it, and none since is a quarter degree below it |
| CoolGate.CoolingNeverStalls | crates/benchctl/src/coolgate.rs:78-93 | a reader whose hot samples drop a quarter degree in every 90 counted seconds is never told its GPU has stalled |
| CoolGate.StallMeansNoCooling | crates/benchctl/src/coolgate.rs:78-93 | a reported stall means that no sample of the last 90 counted seconds was a quarter degree below the coldest one reported |
| CoolGateLaws.SilentReaderIsSkipped | crates/benchctl/src/coolgate.rs:52-66 | three reads in a row without a finite sample skip the gate after two sleeps of two seconds |
| CoolGateLaws.StillReaderStalls | crates/benchctl/src/coolgate.rs:78-93 | a reader that stands still above 40 degrees stalls at 180 seconds and its 19th read, a drop of under a quarter degree counting for nothing |
| CoolGateLaws.CoolingReaderHitsCeiling | crates/benchctl/src/coolgate.rs:78-106 | one that cools by a quarter degree a read is given up at 900 seconds and its 91st read |
| Sandbox.TwoPassesAreOne | crates/bench-runner/src/sandbox.rs:30-32 | the two replacement passes escape each character exactly once |
| Sandbox.EscapingIsInjective | crates/bench-runner/src/sandbox.rs:30-32 | different paths have different escapes |
| Sandbox.ReadsBackEscaped | crates/bench-runner/src/sandbox.rs:30-32 | a quote-aware reader recovers an escaped string and stops at its own closing quote |
| Sandbox.BuildSeatbeltProfile | crates/bench-runner/src/sandbox.rs:42-76 | the grown list of lines is the fixed preamble, the golden rule and the rule of a non-empty private directory |
| Sandbox.ProfileReadsAsRules | crates/bench-runner/src/sandbox.rs:42-76 | for all paths the reader sees exactly the intended rules, and nothing of a path outside its own string |
| Sandbox.ProfileNamesItsPaths | crates/bench-runner/src/sandbox.rs:42-76 | the strings it sees are the raw engine path, the one writable device, the golden and a non-empty private directory |
| Sandbox.ProfileDeterminesPaths | crates/bench-runner/src/sandbox.rs:42-76 | one profile, one set of paths |
| SandboxPolicy.ProfileStatesOnly | crates/bench-runner/src/sandbox.rs:42-76 | however a reader that knows the grammar takes the profile's text apart, it finds the intended clauses and no other |
| SandboxPolicy.ProfileConfines | crates/bench-runner/src/sandbox.rs:42-76 | under a last-match policy, for all paths: no network and no fork, one executable file, one writable file, no read of the golden or at or under a private directory, and nothing else denied |
| Score.ScoreBetweenSpeedups | crates/bench-core/src/score.rs:29-58 | the score lies between the two speedups |
| Score.ScoreIsUnique | crates/bench-core/src/score.rs:29-58 | the fourth-power equation has at most one positive solution |
| Score.FasterDecodeScoresHigher | crates/bench-core/src/score.rs:29-58 | a strictly faster decode at the same prefill scores strictly higher |
| ScoreLaws.DecodeWeighsThreeQuarters | crates/bench-core/src/score.rs:29-58 | a decode speedup k^4 times as large multiplies the score by k^3 |
| ScoreLaws.PrefillWeighsOneQuarter | crates/bench-core/src/score.rs:29-58 | a prefill speedup k^4 times as large multiplies it by k |
| ScoreLaws.SixteenScoresEight | crates/bench-core/src/score.rs:29-58 | decode sixteen times as fast at an even prefill scores eight, and the other way round two |
| ScoreLaws.RefusalNamesFirstBound | crates/bench-core/src/score.rs:198-276 | every refusal names its own axis and the first bound that fails, with the floors of 0.95, the prefill band of 3% and the decode band of 1% and 2.5% |
| ScoreLaws.EvenRunScores | crates/bench-core/src/score.rs:447-491 | a run whose prompts all have one ratio scores it if and only if it is 0.90 to 5.0 inclusive |
| ScoreLaws.PlausibleUpToEight | crates/bench-core/src/score.rs:447-491 | one pair over eight times as fast, not positive or no number refuses the run |
| Score.BandsDecideAcceptance | crates/bench-core/src/score.rs:198-276 | for every timing, finite or not, nothing is refused if and only if both bands pass: a passing band implies its floor |
| Score.RobustReference | crates/bench-core/src/score.rs:135-152 | the mean of all but one maximal sample, for exactly three or more finite positive ones |
| ScoreLaws.OneSampleApart | crates/bench-core/src/score.rs:135-152 | of samples that agree but for one, a slower one is dropped, and a faster one is averaged in with all but one of the others |
| Score.SumWithout | crates/bench-core/src/score.rs:141-151 | which of several equal maxima is dropped is immaterial |
| Score.ScorePairedDecodeOnly | crates/bench-core/src/score.rs:447-491 | over any ratios, finite or not: scored if and only if every pair is plausible and the median is finite and between floor and ceiling; otherwise the first bound that fails |
| Score.PairedMedianIsMedian | crates/bench-core/src/score.rs:375-390 | on finite ratios that median is the even-count median of the reals, and an empty list has none |
| Score.ScoredMeansHalfClear | crates/bench-core/src/score.rs:447-491 | a scored run without a NaN has at least half of its prompts above the floor and at least half under the ceiling, infinite ones included |
| Score.HalfClearExactly | crates/bench-core/src/score.rs:375-390 | for every list of ratios: whatever the sort returns a scored run is half clear on either side, if and only if it holds no NaN, is half clear anyway, or holds no value or pair that would make a median within the bounds |
| Score.NaNIsNotCaught | crates/bench-core/src/score.rs:381-383 | a list with NaN ratios the sort may leave as it is, whose median passes the finite check although only one prompt in three clears the floor |
| Sorting.SortForgetsOrder | crates/bench-core/src/harness_hash.rs:198-198 | sorting by a total order depends on the elements only, not on their order |
| Sorting.SortedIsUnique | crates/bench-core/src/conformance.rs:72-82 | two sorted arrangements of the same elements are equal |

## Left out

- The encoding and decoding of JSON text, unknown-field rejection and the mapping of request kinds to strings.
- Threads, subprocesses, child pipes, temperature readers, `canonicalize` and every other system call.
- The engine mock's opt-in misbehaviours other than the counter skew and the configured cache, widths and spec modes; the
  scripted transport of `Mock` already covers any answer whatever.
- Optional response and hello fields no modelled check reads: backend, device, head provenance, oracle tokens, per-stream
  times and depth-clamp reasons on the wire.
- Machine-width overflow of sums and counters: acceptance sums, per-mille products and checked steps are unbounded here.
- f64 rounding, overflow and signed zeros; the gaps of the near-tie seal are finite.
- Median.MedianOf: models the sort of finite values only; `Median.CentralOf` takes what the sort made of any others.
- Score.ScoreIsUnique: that a root exists is not proved, because reals without a root function give no witness.
- Credential shapes the code's own key rule does not recognise, such as a key behind another `:`; the sealing theorem
  speaks of the keys it does.
- Seal.SealedReasonIsSafe: does not restate the sealing of credential keys, because a cut through the sentinel leaves a
  piece of it behind a key; everything outside the marker is a piece of the scrubbed text.
- Residual `@` in scrubbed text: a fragment whose first `@` stands at either end of its core keeps it, by the code's rule.
- The other audit metrics (medians, drafting rates, key lists), the composite timing diagnostic and the timeout budget.
- Contract and golden pin tables, attestations of the golden, and the official sandbox resolver's error choices.
- `timing.rs`, `transport.rs`, the tape, the Python corpus generators and the empty crates.
