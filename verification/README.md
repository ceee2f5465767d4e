# A verified model of the evidence engine and its annotation corpus

The repository records a presentation as evidence: an engine streams audio and
video through recognizers and reconciles what they report into a transcript, a
set of events and an append-only ledger; a corpus package measures how far two
human annotators agree on the same recording. This project models both in Dafny
and proves what the two promise.

Three groups of modules:

* **Agreement** (`NonCrossing`, `Matching`, `Measures`, `Coefficients`, `Report`,
  `Records`, `Validation`). The dynamic program that aligns two annotators is a
  method over a two-dimensional table, specified by "best over all non-crossing
  matchings"; the tolerance of its traceback is an explicit error budget. Kappa,
  alpha and the per-class rows are proved about the confusion matrix it yields.
* **Streaming** (`Streaming`, `Coordinator`, `Transcript`, `SpeechAssembly`,
  `EvidenceLedger`, `Sequencing`, `ScriptedRuntime`, and the run modules
  `TranscriptRuns`, `PauseRuns`, `LedgerRuns`, `Independence`, `ScriptedRuns`,
  `Finalizing`, `EventRuns`, `VisualRuns`, `ScriptedEvents`, `Outcomes`, `Queue`).
  `Streaming` says, as a function on values, what every message does to
  a session; the classes in `Coordinator` update their fields in place and are
  proved to do exactly that; the run modules prove what holds over every sequence
  of messages, and `Queue` what holds over every interleaving of suspended calls.
* **Around them** (`Session`, `Fusion`, `Calibration`, `Timeline`,
  `EventIdentity`). The session lifecycle with its clock, co-occurrence of speech
  and visual events, and the calibration curve.

`Ordering` holds Python's stable `sorted` and the facts used about it,
`Arithmetic` the multiplication and division facts the solver is slow to find,
and `Taxonomy` the shared vocabularies.

## Reading the model

* Floats are reals; the tolerances `1e-12` (traceback) and `1e-9` (kappa) are kept
  as written. Milliseconds and sequence numbers are unbounded integers.
* A SHA-256 digest is modelled by the fields it digests, so two identifiers are
  equal exactly when run, class, 100 ms bucket and discriminator are; that the
  digested string joins them with a separator is not modelled. Two tokens of one
  run with the same start and end are then ordered by their text.
* An exception is a value: `TranscriptViolation`, `AlreadyInLedger`, `Refused`,
  `InvalidSequence`, `Violation`, and so on. A refused message leaves exactly the
  changes the code makes before it raises; a refused chunk, for instance, counts
  as seen.
* What a recognizer answers is a parameter of the message, so a theorem about a
  run is a theorem about every recognizer. `ScriptedRuntime` models the one the
  repository ships.
* One message is one step, as the socket loop awaits every dispatch
  (`src/evidence_engine/adapters/inbound/websocket/handler.py:174-178`). `Queue`
  alone interleaves suspended calls.
* `silence_threshold` is a natural number; a negative one would make the code
  build a pause that ends before it starts, and raise.
* A class's loops that share its object are split into several methods
  (`FillTable`, `ComputeWeights`, `StoreEvents`, `FinalizeSettled`, `Absorb`),
  each a part of one source function.

## Where the code and its documentation differ

The model follows the code. Each difference has an example, and the condition
under which the promise holds.

* `positive_specific_agreement` is documented as symmetric under swapping the
  annotators. With tied matchings it is not
  (`Matching.AgreementNeedNotBeSymmetric`): one pair one way round, two the other.
  It is when the near-optimal matching is unique, or the threshold exceeds one
  half and neither side overlaps itself (`Matching.AgreementIsSymmetric`).
* The matching is documented as of maximum weight. The traceback may return one
  lighter by up to `1e-12` a pair (`NonCrossing.ToleranceCanLoseTheOptimum`); it
  is of maximum weight if and only if the walk never accepts a pair that falls
  short of its cell (`NonCrossing.OptimalExactlyWithoutLoss`).
* Kappa is documented as undefined when only one category is used. At a thousand
  million pairs it is also undefined for two
  (`Coefficients.KappaUndefinedForTwoCategories`); the exact condition is
  `Coefficients.KappaUndefinedExactly`.
* Finalized history is documented as never rewritten. Tokens that take no time
  can be inserted before one that is final (`Transcript.EmptyTokensCanRewriteHistory`);
  the old history stays in front if and only if no token being frozen sorts
  before its last one (`Transcript.HistoryGrowsExactly`).
* Two different events are documented as never sharing an identifier. The pauses
  of a transcript never do, whatever the transcript, if and only if the threshold
  is at least 99 ms (`SpeechAssembly.PauseIdsDistinctExactly`).
* A recognizer that reports a recorded event again with other content makes the
  events held and the ledger disagree (`LedgerRuns.RepeatedIdCanDisagree`); one
  message keeps them in agreement if and only if it repeats what is recorded
  (`LedgerRuns.StepAgreesExactly`).
* The loop that drains buffered sequence numbers never iterates, because nothing
  noted as ahead is ever beyond the highest number seen.

## Model

| member | source | states |
|---|---|---|
| NonCrossing.FillTable | src/corpus/agreement/matching.py:214-227 | Every cell of the table the loops fill is the best value of its prefixes. |
| NonCrossing.OptimalNonCrossing | src/corpus/agreement/matching.py:203-242 | The returned pairs are admissible, strictly increasing on both sides, and at most 1e-12 a pair lighter than any non-crossing matching. |
| NonCrossing.CellIsMaximum | src/corpus/agreement/matching.py:203-227 | A number is a cell's value if and only if some non-crossing matching of the prefixes weighs it and none weighs more. |
| NonCrossing.BestBoundsEveryMatching | src/corpus/agreement/matching.py:203-227 | No non-crossing matching of the prefixes outweighs the recurrence. |
| NonCrossing.BestIsReached | src/corpus/agreement/matching.py:203-227 | Some non-crossing matching of the prefixes weighs exactly what the recurrence says. |
| NonCrossing.TracebackIsNearOptimal | src/corpus/agreement/matching.py:229-242 | The walk from any cell yields a matching within the error budget of the maximum. |
| NonCrossing.TakesPairExactly | src/corpus/agreement/matching.py:233-235 | The walk accepts a pair if and only if its cell is less than 1e-12 away from what the pair would give. |
| NonCrossing.LastBranchIsLossless | src/corpus/agreement/matching.py:233-240 | The walk's final `else` is taken only where dropping the right annotation costs nothing. |
| NonCrossing.OptimalExactlyWithoutLoss | src/corpus/agreement/matching.py:229-242 | The result has maximum weight if and only if the walk never accepts a pair that falls short of its cell. |
| NonCrossing.ToleranceCanLoseTheOptimum | src/corpus/agreement/matching.py:233-235 | A weight map for which the tolerance makes the result strictly lighter than the maximum. |
| NonCrossing.SwapKeepsOptimum | src/corpus/agreement/matching.py:203-227 | Exchanging the two sides leaves the maximum as it is. |
| NonCrossing.TracebackTakesAll | src/corpus/agreement/matching.py:229-242 | If no two admissible pairs share a side or cross, the walk returns all of them. |
| NonCrossing.SwapKeepsUniqueMatching | src/corpus/agreement/matching.py:203-242 | If only one matching is within the budget, exchanging the sides returns the same one, flipped. |
| Matching.ComputeWeights | src/corpus/agreement/matching.py:171-200 | The loops admit exactly the pairs the criterion admits, each scored by overlap. |
| Matching.Match | src/corpus/agreement/matching.py:114-153 | The matched annotations are those of a near-optimal non-crossing matching of the two ordered lists; those at no matched position are left over, in order. |
| Matching.WeightsExactly | src/corpus/agreement/matching.py:171-200 | A pair is admitted if and only if its index reaches the threshold, or its doubled midpoints differ by at most twice the tolerance; its weight is the index either way. |
| Matching.OrderedIsTemporal | src/corpus/agreement/matching.py:156-168 | The same annotations by start, end and class name, indistinguishable ones in the order given. |
| Matching.MatchPartitionsInputs | src/corpus/agreement/matching.py:130-153 | Every annotation of either side is in exactly one pair or left over, duplicates counted. |
| Matching.AgreementIsF1 | src/corpus/agreement/matching.py:94-111 | The agreement is twice the matched over all annotations, lies in [0, 1], and is 1 for two empty lists. |
| Matching.StrictWeightsAreUnambiguous | src/corpus/agreement/matching.py:114-200 | Above one half, and with neither side overlapping itself, no two admissible pairs share a side or cross. |
| Matching.StrictMatchingIsExact | src/corpus/agreement/matching.py:114-200 | Under the same conditions two annotations are matched if and only if they are admissible. |
| Matching.StrictPartnersAreUnique | src/corpus/agreement/matching.py:114-200 | Under the same conditions no annotation has two admissible partners. |
| Matching.SwapKeepsPairs | src/corpus/agreement/matching.py:114-153 | With a unique near-optimum, or a strict threshold and disjoint sides, the same annotations are paired whoever is called left. |
| Matching.AgreementIsSymmetric | src/corpus/agreement/matching.py:94-111 | Under those conditions the agreement does not depend on the order of the annotators. |
| Matching.AgreementNeedNotBeSymmetric | src/corpus/agreement/matching.py:94-111 | Two annotators with one matched pair one way round and two the other. |
| Records.IouIsSimilarity | src/corpus/schema/records.py:87-99 | Overlap is symmetric, in [0, 1], positive exactly for overlapping spans and 1 exactly for equal ones. |
| Records.IouAboveHalf | src/corpus/schema/records.py:90-99 | Spans whose index exceeds one half share more than half of each. |
| Records.IouIsMeasure | src/corpus/schema/records.py:90-99 | The index is the number of milliseconds both spans cover over the number at least one covers. |
| Measures.Confusion | src/corpus/agreement/measures.py:81-89 | Any count over the matrix is the count of the pairs it was built from. |
| Measures.ForLabelIsMarginals | src/corpus/agreement/measures.py:55-65 | A label's three numbers account for its marginals on both sides. |
| Measures.CohensKappa | src/corpus/agreement/measures.py:92-115 | The loop computes chance-corrected agreement, or nothing for fewer than two pairs or near-certain chance. |
| Measures.KrippendorffsAlpha | src/corpus/agreement/measures.py:118-159 | The loops over the coincidence matrix compute the reliability coefficient, or nothing for fewer than two pairs or no expected disagreement. |
| Measures.CoincidencesMirror | src/corpus/agreement/measures.py:137-143 | Each pair enters the coincidence matrix once in each direction. |
| Coefficients.MatrixBounds | src/corpus/agreement/measures.py:92-159 | Agreements are at most the total; the products and squares of the marginals are bounded by each other, the total and the agreements. |
| Coefficients.KappaUndefinedExactly | src/corpus/agreement/measures.py:103-113 | Kappa is undefined exactly for fewer than two pairs, or when chance agreement is within 1e-9 of certainty, as an inequality on counts. |
| Coefficients.KappaUndefinedForOneCategory | src/corpus/agreement/measures.py:92-115 | Below 10^9 pairs: exactly for fewer than two pairs or one category. |
| Coefficients.KappaUndefinedForTwoCategories | src/corpus/agreement/measures.py:109-113 | At 10^9 pairs a matrix with two categories has no kappa although it has an alpha. |
| Coefficients.AlphaUndefinedForOneCategory | src/corpus/agreement/measures.py:118-159 | Alpha is undefined exactly for fewer than two pairs or one category, at any size. |
| Coefficients.KappaNeedsTwoCategories | src/corpus/agreement/measures.py:92-159 | Whenever kappa is defined, so is alpha. |
| Coefficients.KappaEquation | src/corpus/agreement/measures.py:92-115 | For N pairs of which A agree: one minus kappa, times N squared less the sum of the products of the marginals, is N times N - A. |
| Coefficients.AlphaEquation | src/corpus/agreement/measures.py:118-159 | One minus alpha, times 4N squared less the sum of the squared category totals, is (2N-1) times 2(N-A). |
| Coefficients.KappaBounds | src/corpus/agreement/measures.py:92-115 | Kappa lies in [-1, 1], and is 1 exactly when there is no disagreement. |
| Coefficients.AlphaBounds | src/corpus/agreement/measures.py:118-159 | Alpha lies in (-1, 1], and is 1 exactly when there is no disagreement. |
| Coefficients.KappaAgainstAlpha | src/corpus/agreement/measures.py:92-159 | For N pairs, (2N-1)(1-kappa) is at most 2N(1-alpha). |
| Coefficients.CoefficientsAreSymmetric | src/corpus/agreement/measures.py:81-159 | Swapping the annotators changes neither coefficient. |
| Report.CountByClass | src/corpus/agreement/report.py:236-244 | The dictionary holds exactly the classes that occur, with their counts. |
| Report.PerClass | src/corpus/agreement/report.py:228-263 | The loop builds one row for each class that was matched or left over, in order. |
| Report.RowAccountsForClass | src/corpus/agreement/report.py:228-263 | A row's agreed plus one-sided numbers are each annotator's annotations of the class, so its specific agreement is the F1 of the two. |
| Report.RowsAccount | src/corpus/agreement/report.py:228-263 | Every row does so, the class of every annotation has one, and the rows are in order of their names. |
| Report.MatricesCount | src/corpus/agreement/report.py:183-188 | Under any two names, the role matrix counts the pairs with a role on at least one side whose sides are so called, and the class matrix all pairs so classed. |
| Report.Compare | src/corpus/agreement/report.py:151-218 | When the two refusals happen, and otherwise: totals and rows conserve the annotations, every row accounts for its class, and the boundary errors are the distances of each pair's endpoints, the class matrix counts the pairs and the role matrix those with a role on at least one side, an absent one as none. |
| Report.RowsConserve | src/corpus/agreement/report.py:142-144 | Twice the agreed plus the one-sided, over all rows, is twice the matched plus the unmatched. |
| Report.ReportedCoefficients | src/corpus/agreement/report.py:151-218 | The bounds of the reported coefficients, that kappa implies alpha, and that they reach 1 together. |
| Validation.ScanNeighbours | src/corpus/schema/validation.py:118-130 | The loop reports the later one of every two neighbours that overlap, in order. |
| Validation.AdjacentScanSuffices | src/corpus/schema/validation.py:117-120 | After sorting by start and end, looking at neighbours finds something if and only if two elements overlap anywhere. |
| Validation.WordOrdering | src/corpus/schema/validation.py:133-144 | The words reported are those of the neighbour scan over the sorted words. |
| Validation.WordFindingsListed | src/corpus/schema/validation.py:133-144 | One warning for each word, by span, that starts before the end of the one before it, with its own text and start, in order. |
| Validation.WordOverlapsAreFound | src/corpus/schema/validation.py:133-144 | A word finding exists if and only if some two words overlap. |
| Validation.GroupByClass | src/corpus/schema/validation.py:113-115 | The dictionary holds the classes in order of appearance, each with its annotations in order. |
| Validation.SameClassOverlaps | src/corpus/schema/validation.py:104-130 | The findings are those of the neighbour scans of the classes, in order of appearance. |
| Validation.SameClassOverlapsAreFound | src/corpus/schema/validation.py:104-130 | A class is reported if and only if two of its annotations overlap anywhere in the list. |
| Validation.ClassFindingsListed | src/corpus/schema/validation.py:104-130 | About one class: one error for each of its annotations, by span, that starts before the end of the one before it. |
| Validation.ClassesListed | src/corpus/schema/validation.py:113-115 | The classes in the order of their first annotations. |
| Validation.FindingsInClassOrder | src/corpus/schema/validation.py:117-130 | The findings of a class stand together, in the order the classes appear. |
| Sequencing.ChunkLedger.Offer | src/evidence_engine/domain/sessions/sequencing.py:67-93 | The verdict and the whole new state of the ledger; nothing changes for a negative number. |
| Sequencing.ChunkLedger.DrainAhead | src/evidence_engine/domain/sessions/sequencing.py:99-103 | What the loop drains from any state; a valid ledger leaves it nothing. |
| Sequencing.ChunkLedger.Finalize | src/evidence_engine/domain/sessions/sequencing.py:105-114 | The gaps are the runs of what was never accepted below the highest number. |
| Sequencing.Collapse | src/evidence_engine/domain/sessions/sequencing.py:121-134 | The loop folds ascending numbers into their runs. |
| Sequencing.RunsAreMaximal | src/evidence_engine/domain/sessions/sequencing.py:121-134 | The runs are ascending, non-empty and never adjacent, and count every number. |
| Sequencing.RunsCover | src/evidence_engine/domain/sessions/sequencing.py:121-134 | A number lies in some run if and only if it was missing. |
| Sequencing.OfferAllRemembers | src/evidence_engine/domain/sessions/sequencing.py:67-97 | After any offers: the accepted are the set offered, and offers are accepted plus duplicates. |
| Sequencing.VerdictsFollowOffers | src/evidence_engine/domain/sessions/sequencing.py:67-93 | Each verdict, in terms of the numbers offered before alone: seen before, next after the largest, beyond that, or late. |
| Sequencing.LossIsExactlyWhatNeverArrived | src/evidence_engine/domain/sessions/sequencing.py:105-134 | The gaps cover exactly what never arrived, accepted plus missing is the highest plus one, and the loss ratio is the missing over that number, in [0, 1). |
| Sequencing.LossForgetsOrder | src/evidence_engine/domain/sessions/sequencing.py:67-134 | Two orders of the same set of numbers report the same loss. |
| EvidenceLedger.Ledger.Append | src/evidence_engine/domain/evidence/ledger.py:64-87 | First version of a new event; refused for a known one, with the history unchanged. |
| EvidenceLedger.Ledger.Revise | src/evidence_engine/domain/evidence/ledger.py:89-124 | One more version of a provisional event; refused for an unknown or a final one. |
| EvidenceLedger.Ledger.Finalize | src/evidence_engine/domain/evidence/ledger.py:126-143 | A final copy of the current version, once; a final event is returned as it is. |
| EvidenceLedger.PerformRecords | src/evidence_engine/domain/evidence/ledger.py:64-143 | Number, content and finality of the version each operation records, and when it refuses. |
| EvidenceLedger.PerformKeepsHistory | src/evidence_engine/domain/evidence/ledger.py:64-143 | No operation loses, reorders or changes a version, or touches a final event or another one. |
| EvidenceLedger.HistoryIsImmutable | src/evidence_engine/domain/evidence/ledger.py:64-143 | Over any operations: revisions 0..k, only the last final, and every later history extends every earlier one. |
| Transcript.ProvisionalShape | src/evidence_engine/domain/transcript/transcript.py:64-82 | An accepted hypothesis goes, sorted, behind everything final. |
| Transcript.RefusedExactly | src/evidence_engine/domain/transcript/transcript.py:64-82 | A hypothesis is refused if and only if one of its tokens starts before a final one ends. |
| Transcript.AcceptedIs | src/evidence_engine/domain/transcript/transcript.py:64-82 | For tokens of any length: the accepted transcript is the final tokens and the hypothesis, in canonical order. |
| Transcript.CanonicalMeans | src/evidence_engine/domain/transcript/transcript.py:118-119 | Canonical order is by start, end and then text. |
| Transcript.HistoryGrows | src/evidence_engine/domain/transcript/transcript.py:64-101 | One reconciliation appends exactly the settled part of the hypothesis to the final tokens, and the frontier never retreats. |
| Transcript.ReconcileNeverMovesBackwards | src/evidence_engine/domain/transcript/transcript.py:84-101 | Once a hypothesis is accepted, the moving-backwards refusal cannot happen. |
| Transcript.HistoryGrowsExactly | src/evidence_engine/domain/transcript/transcript.py:64-101 | For tokens of any length: the old final tokens stay in front if and only if nothing being frozen sorts before the last of them. |
| Transcript.EmptyTokensCanRewriteHistory | src/evidence_engine/domain/transcript/transcript.py:64-101 | A token that takes no time is inserted before one that was final. |
| SpeechAssembly.DeriveSilentPauses | src/evidence_engine/application/services/speech_assembly.py:179-216 | For the words by start, those with one start in the order given: one pause for every gap that reaches the threshold, spanning exactly from the end of one word to the start of the next, in order, and none besides. |
| SpeechAssembly.AssemblesExactly | src/evidence_engine/application/services/speech_assembly.py:97-176 | A result is assembled if and only if its words have text, its spans do not run backwards and its lexical events are not blank. |
| SpeechAssembly.AssembledSays | src/evidence_engine/application/services/speech_assembly.py:97-176 | One token, event and reading for each hypothesis, field by field: an undecided lexical role is uncertain, an absent value stays absent. |
| SpeechAssembly.GapsGrow | src/evidence_engine/application/services/speech_assembly.py:179-216 | Later words never change the gaps between earlier ones. |
| SpeechAssembly.GapBucketsAscend | src/evidence_engine/application/services/event_identity.py:34-59 | With a threshold of at least 99 ms the buckets of the gaps strictly increase. |
| SpeechAssembly.PauseIdsDistinctExactly | src/evidence_engine/application/services/event_identity.py:34-59 | Pause identifiers are distinct in every transcript if and only if the threshold is at least 99 ms. |
| EventIdentity.SameEventIdExactly | src/evidence_engine/application/services/event_identity.py:34-59 | Two event identifiers are equal if and only if run, class and discriminator are and both start within the same 100 ms. |
| EventIdentity.SameTokenIdExactly | src/evidence_engine/application/services/event_identity.py:62-74 | The same for token identifiers, with the text. |
| Coordinator.StreamingState.constructor | src/evidence_engine/application/workflows/streaming.py:63-88 | A new session holds nothing, with two separate chunk ledgers. |
| Coordinator.StreamingCoordinator.constructor | src/evidence_engine/application/workflows/streaming.py:91-116 | A new coordinator views as the new session. |
| Coordinator.StreamingCoordinator.IngestAudio | src/evidence_engine/application/workflows/streaming.py:131-163 | The whole new session and the outcome, on every path: invalid, redelivered, refused, failed, refused by a transcript rule, accepted. |
| Coordinator.StreamingCoordinator.Absorb | src/evidence_engine/application/workflows/streaming.py:154-162 | What an accepted result does to transcript, events, prosody and channel, in this order; nothing if a rule refuses it. |
| Coordinator.StreamingCoordinator.StoreEvents | src/evidence_engine/application/workflows/streaming.py:157-158 | The loop overwrites by identifier and keeps the dictionary's order. |
| Coordinator.StreamingCoordinator.FinalizeThrough | src/evidence_engine/application/workflows/streaming.py:165-185 | Freezing, recording, deriving and publishing, or nothing at all behind the frontier. |
| Coordinator.StreamingCoordinator.FinalizeSettled | src/evidence_engine/application/workflows/streaming.py:172-180 | The loop freezes exactly the provisional events that ended in time, each recorded as it is frozen. |
| Coordinator.StreamingCoordinator.Record | src/evidence_engine/application/workflows/streaming.py:261-272 | A known event is finalized in the ledger, a new one appended final. |
| Coordinator.StreamingCoordinator.DerivePauses | src/evidence_engine/application/workflows/streaming.py:274-309 | Pauses not yet held are added final and recorded; none without two final words and a provenance to borrow. |
| Coordinator.StreamingCoordinator.IngestVideo | src/evidence_engine/application/workflows/streaming.py:189-216 | The whole new session and the outcome of a video message. |
| VisualRuns.VideoStores | src/evidence_engine/application/workflows/streaming.py:206-216 | An answered video message holds the last report under each identifier and leaves the others, extends quality by what was reported, and warns of exactly the unusable records, in order. |
| VisualRuns.VisualEventsAreLastReports | src/evidence_engine/application/workflows/streaming.py:189-216 | In every session the visual events held are exactly the last reports of the first messages with their numbers. |
| VisualRuns.QualityIsAllReported | src/evidence_engine/application/workflows/streaming.py:209-211 | In every session the quality report is what those messages reported, in order. |
| Outcomes.AudioOutcome | src/evidence_engine/application/workflows/streaming.py:131-163 | When an audio message is invalid, redelivered, refused, failed, a violation or finished, and that a refusal changes nothing but the chunk ledger and what the client is told. |
| Outcomes.VideoOutcome | src/evidence_engine/application/workflows/streaming.py:189-216 | The same for a video message. |
| Outcomes.AcceptedAudioExactly | src/evidence_engine/application/workflows/streaming.py:152-163 | What an accepted result adds to transcript, events, prosody and channel, field by field, before the finalizing step. |
| Outcomes.ChunksFollowOffers | src/evidence_engine/application/workflows/streaming.py:133-140 | Each modality's chunk ledger has been offered exactly its messages' numbers, in order. |
| Coordinator.StreamingCoordinator.Admit | src/evidence_engine/application/workflows/streaming.py:220-229 | Admits exactly below the limit; otherwise tells the client and changes nothing else. |
| Coordinator.StreamingCoordinator.DegradeModality | src/evidence_engine/application/workflows/streaming.py:231-259 | Marks the modality, and announces it on its first failure only. |
| TranscriptRuns.StepShape | src/evidence_engine/application/workflows/streaming.py:131-216 | Every message either leaves transcript, events, prosody and ledger alone or absorbs exactly one result. |
| TranscriptRuns.StepKeepsHistory | src/evidence_engine/application/workflows/streaming.py:154-171 | One message keeps canonical order, the final tokens as a prefix, and the frontier. |
| TranscriptRuns.FinalHistoryOnlyGrows | src/evidence_engine/application/workflows/streaming.py:131-185 | Over every session with any recognizer whose words take time: final tokens at any point are a prefix of all later ones, in canonical order. |
| TranscriptRuns.PublishedIsNeverWithdrawn | src/evidence_engine/application/workflows/streaming.py:182-185 | Every final transcript the client was sent is a prefix of the current one. |
| PauseRuns.AddingCompletes | src/evidence_engine/application/workflows/streaming.py:296-309 | Starting from the first r gaps, going through n of them leaves exactly the larger of the two held, without duplicates. |
| PauseRuns.StepPauses | src/evidence_engine/application/workflows/streaming.py:165-185 | One message keeps every pause; if it finalizes with a provenance, the pauses held are those of the final words. |
| PauseRuns.PausesStayConsistent | src/evidence_engine/application/workflows/streaming.py:274-309 | In every session the pauses held are a prefix of those computed from scratch. |
| PauseRuns.IncrementalEqualsBatch | src/evidence_engine/application/workflows/streaming.py:274-309 | After any finalizing message with a provenance, and ever after, incremental pauses equal the batch result on the final words. |
| PauseRuns.PausesOnlyGrow | src/evidence_engine/application/workflows/streaming.py:274-309 | No pause is ever withdrawn or moved. |
| PauseRuns.PausesHeldExactly | src/evidence_engine/application/workflows/streaming.py:274-309 | In every session the silent pauses held are final events that fill the first of the long gaps between final words, in order, and all of them after a finalizing message with a provenance. |
| Finalizing.FreezesExactly | src/evidence_engine/application/workflows/streaming.py:165-180 | Nothing happens unless the boundary is beyond every final token; then a token or an event is final if and only if it was or its interval ends by the boundary, and exactly what became final is recorded, with its own content. |
| Finalizing.PublishesExactly | src/evidence_engine/application/workflows/streaming.py:182-185 | The client is sent all final tokens, then exactly the events that became final, each in the order held, and no empty message. |
| Finalizing.PausesDerivedExactly | src/evidence_engine/application/workflows/streaming.py:274-327 | For any threshold: the events appended are the pauses of the final words whose identifiers are new, with the provenance of the first event that became final, or else of the first held. |
| EventRuns.StoresExactly | src/evidence_engine/application/workflows/streaming.py:157-158 | An event held gives way in its place to the last one reported under its identifier; new identifiers follow in order of first report. |
| EventRuns.FinalOnlyWhenDeclared | src/evidence_engine/application/workflows/streaming.py:165-180 | In every session a token or event is final, and an entry in the ledger, only if it ends by a boundary some message declared. |
| EventRuns.ProvisionalOnlyWhenLater | src/evidence_engine/application/workflows/streaming.py:165-180 | Every event still provisional ends after the boundary of every finalizing message, unless a later message reported it. |
| EventRuns.EndedIsRecorded | src/evidence_engine/application/workflows/streaming.py:172-180 | Whatever is held after a finalizing message and ended by its boundary is final, and in the ledger of every later session. |
| LedgerRuns.SessionLedgerIsImmutable | src/evidence_engine/application/workflows/streaming.py:261-272 | In every session each entry is one final version, and never changes. |
| LedgerRuns.StoringAgreesExactly | src/evidence_engine/application/workflows/streaming.py:157-158 | Storing provisional events keeps agreement with the ledger if and only if the last one under every recorded identifier repeats the record. |
| LedgerRuns.StepAgreesExactly | src/evidence_engine/application/workflows/streaming.py:154-180 | One message keeps the events held and the ledger in agreement if and only if it repeats what is recorded. |
| LedgerRuns.SessionAgrees | src/evidence_engine/application/workflows/streaming.py:154-309 | If no message says something new under a recorded identifier, they agree on interval, class and text throughout. |
| LedgerRuns.RepeatedIdCanDisagree | src/evidence_engine/application/workflows/streaming.py:157-158 | A recorded event reported again with another end makes them disagree. |
| Independence.VideoLeavesAudio | src/evidence_engine/application/workflows/streaming.py:189-216 | A video message changes nothing audio produces, nor what the client hears about it, whether or not vision fails. |
| Independence.AudioIgnoresVideo | src/evidence_engine/application/workflows/streaming.py:131-259 | With room for one call, the audio side of every session equals that of the session without its video messages. |
| Independence.VideoIgnoresAudio | src/evidence_engine/application/workflows/streaming.py:131-259 | And the visual side that of the session without its audio messages. |
| ScriptedRuntime.DeterministicSpeechRuntime.Transcribe | src/evidence_engine/adapters/outbound/model_runtime/deterministic.py:112-155 | The answer and both counters for any window, the scripted failure included. |
| ScriptedRuntime.AnswersExactly | src/evidence_engine/adapters/outbound/model_runtime/deterministic.py:112-194 | When a window fails, and otherwise which words and events are reported, in script order, what is declared stable, and that pitch is absent over a window in which no word starts. |
| ScriptedRuntime.DriveReachesMark | src/evidence_engine/adapters/outbound/model_runtime/deterministic.py:112-161 | After any windows the runtime has counted them all and stands at the furthest point it declared stable before failing. |
| ScriptedRuns.ReplayIsRun | src/evidence_engine/application/workflows/streaming.py:131-163 | A scripted session is one of the sessions every other run theorem speaks of. |
| ScriptedRuns.ActiveTokens | src/evidence_engine/adapters/outbound/model_runtime/deterministic.py:123-132 | What a window reports, sorted, is the active part of what was said. |
| ScriptedRuns.WindowMirrors | src/evidence_engine/domain/transcript/transcript.py:64-101 | A reported active region is never refused, and leaves exactly what was said up to the new mark final. |
| ScriptedRuns.ReplayKeepsStep | src/evidence_engine/application/workflows/streaming.py:131-171 | Over every session, session and runtime stay in step and no transcript rule is broken. |
| ScriptedRuns.FinalIsWhatWasSettled | src/evidence_engine/application/workflows/streaming.py:131-171 | At every point, failing runtime included, the final transcript is exactly what was said up to the furthest stable point. |
| ScriptedRuns.NoWordIsLostExactly | src/evidence_engine/adapters/outbound/model_runtime/deterministic.py:112-161 | The transcript is all the script's words in time order, all final, if and only if some answered window declared the last of them stable. |
| ScriptedRuns.NoWordIsLost | src/evidence_engine/adapters/outbound/model_runtime/deterministic.py:112-161 | One final window that covers the script is enough, whatever is redelivered and whatever video does. |
| ScriptedEvents.NoEventIsLost | src/evidence_engine/adapters/outbound/model_runtime/deterministic.py:134-161 | At every point of every session a script event is held, final and recorded as told if it ended by the furthest stable point, and otherwise provisional or not yet held; nothing else is held but derived pauses. |
| Queue.AbsorbIsQuiet | src/evidence_engine/application/workflows/streaming.py:154-163 | What a call does after its answer touches nothing the queue depends on. |
| Queue.ArrivalTells | src/evidence_engine/application/workflows/streaming.py:220-229 | A new chunk is refused if and only if the queue is full, and the client is then told how full; nothing else changes but the chunk ledger and the count in flight. |
| Queue.QueueIsAccounted | src/evidence_engine/application/workflows/streaming.py:131-259 | In every interleaving: in flight is exactly the calls not yet back and within the limit, every new chunk has one fate, offers are chunks plus redeliveries, one notice a failed modality. |
| Queue.FatesAreFinal | src/evidence_engine/application/workflows/streaming.py:131-151 | A chunk that came back, failed or was refused stays so, however often it is sent again. |
| Session.CapturedIsTimeCapturing | src/evidence_engine/domain/sessions/session.py:82-142 | In every reachable session the clock runs exactly while capturing and shows the sum of the stays in that state. |
| Session.PositionsAscend | src/evidence_engine/domain/sessions/clock.py:52-86 | Over non-decreasing wall readings the position never decreases. |
| Session.ClosedIsForever | src/evidence_engine/domain/sessions/session.py:99-131 | Once completion is requested or the session failed, the position is one number for ever. |
| Session.DeletionIsFinal | src/evidence_engine/domain/sessions/state.py:54-103 | After deletion every transition is refused. |
| Session.MediaNeedsConsent | src/evidence_engine/domain/sessions/session.py:62-97 | Media is accepted only after a receipt for this session was active when capture began or resumed. |
| Session.AcceptedExactly | src/evidence_engine/domain/sessions/session.py:62-131 | Exactly the states and receipts in which each operation is accepted. |
| Session.AcceptedDoes | src/evidence_engine/domain/sessions/session.py:62-131 | The state, receipt and completion time an accepted operation leaves. |
| Timeline.GapIsDistance | src/evidence_engine/domain/shared/timeline.py:80-97 | The gap is symmetric, non-negative and zero exactly for spans that overlap or touch, empty ones included. |
| Fusion.Correlate | src/evidence_engine/domain/evidence/cooccurrence.py:113-144 | Of the two inputs in ascending order of start, end and identifier, one report for every pair that is near enough, row by row; as many reports as there are such pairs in the inputs. |
| Fusion.CorrelateReports | src/evidence_engine/domain/evidence/cooccurrence.py:113-148 | The output is the report of the near pairs of the two inputs in ascending order, each pair once. |
| Fusion.CorrelateIsComplete | src/evidence_engine/domain/evidence/cooccurrence.py:113-144 | A pair is emitted if and only if its gap is within the window. |
| Fusion.CorrelateForgetsOrder | src/evidence_engine/domain/evidence/cooccurrence.py:113-148 | Permuting either input changes nothing, the order of the output included. |
| Fusion.WideningOnlyInserts | src/evidence_engine/domain/evidence/cooccurrence.py:113-144 | A wider window only inserts pairs, and reorders none. |
| Calibration.SomeSegmentBrackets | src/evidence_engine/application/services/calibration.py:56-71 | Some segment brackets the clamped score on every valid curve, so the fall-through is never taken. |
| Calibration.ApplyIsBounded | src/evidence_engine/application/services/calibration.py:56-71 | The result lies between the first and the last probability. |
| Calibration.ApplyIsMonotone | src/evidence_engine/application/services/calibration.py:56-71 | A higher raw score never yields a lower result, repeated raw scores included. |
| Calibration.ApplyInterpolates | src/evidence_engine/application/services/calibration.py:59-65 | Strictly between two points the result is on the line through them. |
| Calibration.ApplyMeetsPoints | src/evidence_engine/application/services/calibration.py:59-65 | At the first point with a raw score the result is its probability; where the curve begins with a repeated score, the second point's. |
| Calibration.ApplyClamps | src/evidence_engine/application/services/calibration.py:58 | Outside the points the result is that at the nearest one. |
| Calibration.CalibrateReports | src/evidence_engine/application/services/calibration.py:88-106 | A class with a curve gets its result, marked calibrated; one without gets the raw score brought into [0, 1], unmarked. |
| Calibration.HigherScoreKeepsGate | src/evidence_engine/domain/shared/confidence.py:60-70 | A higher score never closes a publication gate; an uncalibrated one opens none. |

## Left out

- AgreementIsSymmetric: states when the agreement is symmetric in one direction only; tied matchings may happen to be resolved alike both ways round.
- QueueIsAccounted: lets any change that the queue does not depend on happen between two suspension points, so it says nothing about the transcript under interleaving.
- IncrementalEqualsBatch: compares pauses by their span, which fixes their identifiers; the provenance a pause borrows depends on the step that derived it.
- NoEventIsLost: assumes events that take time, are no silent pauses and have distinct identifiers; an event that takes no time and starts where the last window ends is never reported, and of two events under one identifier only the later is held.
- NoWordIsLost: assumes words that do not overlap; a word that starts before an earlier final one ends is refused by the transcript.
- WordOrdering: findings carry severity, code, subject and position, not the message text.
- Confidence scores that are not numbers, and rounding: every score is a real.
- The visual assembler: visual results arrive assembled, and their payloads are opaque.
- Provenance beyond modality and model version, measurement units, and the reason attached to an unavailable reading.
- Telemetry counters, structured logs and the notes of the agreement report.
- The other validation findings: orthography, unattested expressions, coverage and abstention; each looks at one record at a time.
- The percentiles of the boundary errors, the frame-based kappa, and the count of uncertain annotations.
- The blank test for lexical events knows only the ASCII space, tab, carriage return and line feed.
- Ordered reads of the ledger (`current`, `finalized`, `all_current`): sorted projections of the history.
- The time stamps of the messages to the client other than notices and warnings: they repeat an end found in the message.
- Consent ordering: a receipt may be attached in any state, as in the code, also after deletion.
- The deterministic vision runtime: the theorems about video hold for every answer.
- Transport, storage, stream tokens, leases, quotas, the model registry, retention and the command line: plumbing around libraries and servers.
