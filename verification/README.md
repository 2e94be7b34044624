# Kargo: verified models of its decision engines

Kargo moves Freight (bundles of artifacts) through Stages. This project models the parts
of it that decide something and proves what they promise, for all inputs and over whole runs.
`dafny verify dfyconfig.toml` checks everything.

Code that changes state is modelled as classes and methods with loops, proved against
specification functions or predicates; the theorems are then about those specifications.
Sorting is used through a contract that promises only a sorted permutation, so a result
that rests on a sort holds for every way it may order ties. Clock readings are parameters.

| module | models |
|---|---|
| `FreightLedger`, `SoakHistory` | the status of Freight: where it is, where it soaked and for how long; what its answers mean in terms of the history of updates |
| `Availability`, `AvailabilityHistory`, `FreightListing`, `ListingAgreement` | the two ways availability is decided, point predicate and indexed listing; what the first means in terms of the Freight's history, and their agreement |
| `Promotions`, `PromotionNames`, `PromotionProtocol`, `PromotionReplay` | the order of Promotions, the names it rests on, the protocol that serializes Promotions to a Stage, and the replay of those that ended into its status |
| `CollectorFanOut`, `Retention` | the garbage collector: its goroutines and channels, and its retention rule |
| `Templates`, `TemplateTrees` | the template scanner, its rewrite loop, and the walk over a JSON document |
| `AutoPromotion`, `FreightCollections`, `Origins` | candidate selection, Freight collections with their identifiers, and the origins they are keyed by |
| `Images`, `ImageSelection`, `ImageFanIn`, `ImageCache`, `SharedCache` | image selection, the concurrent fetch behind it, the cache behind that, and the three together |
| `SubscriptionCodec`, `StepInflation`, `VerificationStack`, `Conditions`, `Utf8` | the subscription codec, task-step inflation, the bounded verification stack, and conditions with their truncated messages (UTF-8 as in section 4 of RFC 3629) |
| `Results`, `Times`, `Strings`, `Sorting` | shared vocabulary |

Where the code does not do what its comments say, or what one might expect of it, the model follows the code:

- pkg/api/promotion_request.go:30-32 says lexical order of a Stage's child Promotion names is
  creation order. It is so among the children for one Target only: `OrderedByCreationExactly`
  gives the exact condition for any two prefixes and `ChildrenOrderedPerTargetOnly` applies it.
- Listing and predicate can part in two ways, each with its exact condition. A Stage may request an
  origin twice with an unmet "All" request first (`StageAgreesExactly`, an instance in
  `RepeatedOriginsDisagree`), which admission rejects (pkg/webhook/kubernetes/stage/webhook.go:221-254).
  And a request for a soak of zero or less may be misled on an unsound ledger (`ListingAgreesExactly`,
  an instance in `UnsoundLedgerDisagrees`); a positive soak, no soak or a sound ledger rules that out.
- The image cache is keyed by digest without the repository. It answers as no cache would exactly if no
  lookup asks its repository in vain for a digest that another repository's client finds
  (`TransparentExactly`, and `InterleavedExactly` for lookups that go on at the same time); `SparseIndexDisagrees` is a pair of lookups for which it does not.
- An empty expression in a template is taken for the end of its expressions (`EmptyExpressionStops`): every expression
  is replaced by its value exactly if none is empty (`AllReplacedExactly`).
- A Promotion can start ahead of an older one (`LateArrivalIsOvertaken`): admission draws the ULID before the object is
  stored. It happens only to those stored after the reconciliation that chose (`OvertakesOnlyLateArrivals`).
- A Promotion can end without ever being replayed into the Stage's status: when the Stage lets go of its current one while
  a newer one has ended, by an abort in the queue, everything older is taken for replayed (`AbortInQueuePassesOver`).
  `NothingPassedOverExactly` says along which runs it does not happen.
- The collector blocks forever if configured with no workers while there are projects (`ProgressNeedsWorkers`).
- A second garbage collection can delete what the first spared, exactly if more survivors than are to be
  retained trail every protected one and the oldest is old enough (`SecondPassTargetsNothingExactly`).
- Several new verifications of one ID pushed at once are not merged (`DistinctIdsExactly`).
- A condition whose status changes keeps the time of its last transition unless it brings its own (`TransitionTimeStays`).
- A variable that a task demands can still come out empty (`EmptyAfterAllExactly`).
- A generic subscription of a reserved or empty type does not survive the codec (`RoundTripsExactly`). An
  explicit null and an empty type name are accepted and cannot be marshalled (`AcceptedMarshalsExactly`,
  `EmptyTypeIsAcceptedOnly`).
- Distinct aliases at the top level do not always make inflated aliases distinct: exactly if one, with the
  separator, extends into another (`AlwaysDistinctExactly`, an instance in `ColonsCanCollide`).

## Model

| member | source | states |
|---|---|---|
| FreightLedger.FreightStatus.AddCurrentStage | api/v1alpha1/freight_types.go:205-214 | entering a Stage records the time only if the Freight is not already there |
| FreightLedger.FreightStatus.RemoveCurrentStage | api/v1alpha1/freight_types.go:220-233 | leaving ends the occupancy and keeps its length if the Freight is verified there and no recorded soak is as long |
| FreightLedger.FreightStatus.AddVerifiedStage | api/v1alpha1/freight_types.go:237-245 | a verification is recorded once and never overwritten |
| FreightLedger.FreightStatus.AddApprovedStage | api/v1alpha1/freight_types.go:249-257 | an approval is recorded once and never overwritten |
| SoakHistory.OccupancyStep | api/v1alpha1/freight_types.go:205-233 | how one update moves the occupancies of the history: a departure ends them, an entry starts one only if there is none |
| SoakHistory.LedgerMirrorsHistory | api/v1alpha1/freight_types.go:205-245 | after every prefix of every run, presence, verification and the recorded soak of a Stage are those of the history alone |
| SoakHistory.RecordsMirrorHistory | api/v1alpha1/freight_types.go:237-257 | after every prefix of every run, a verification or an approval is on record exactly if there was one, with the time of the first |
| SoakHistory.LongestSoakIsMaximum | api/v1alpha1/freight_types.go:175-188 | over every run under a non-decreasing clock, the longest soak is attained by, and bounds, the current occupancy and those that ended while the Freight was verified; it is zero if there are none or the Freight is unverified |
| SoakHistory.RunKeepsSound | api/v1alpha1/freight_types.go:205-257 | no run leaves an entry time in the future or a negative soak |
| SoakHistory.RunKeepsStanding | api/v1alpha1/freight_types.go:175-257 | no run takes back a verification or an approval or shortens a longest soak |
| Availability.IsFreightAvailable | api/v1alpha1/stage_types.go:176-207 | true exactly if the namespaces agree and some request for the Freight's origin admits it with no earlier unmet "All" request for that origin |
| Availability.AvailableWithDistinctOrigins | api/v1alpha1/stage_types.go:176-207 | with one request per origin the early exit never matters: available means that some request admits the Freight |
| Availability.AvailabilityIsStable | api/v1alpha1/stage_types.go:176-207 | once available, Freight stays available after any run of enter, leave, verify and approve as time advances |
| AvailabilityHistory.AvailableExactly | api/v1alpha1/stage_types.go:176-207 | Freight with any history is available to a Stage exactly if they share a namespace and a request for its origin, with no earlier unmet "All" request for it, is direct, or the history has an approval for the Stage, or verifications in the upstream Stages and, where more than nothing is required, stays of that length |
| AvailabilityHistory.ApprovedIsAvailable | api/v1alpha1/freight_types.go:249-257 | once approved for a Stage, Freight is available to it wherever its origin is requested |
| FreightListing.BuildSelectors | pkg/api/warehouse.go:128-182 | the selectors of the union query, or the error for an unknown strategy |
| FreightListing.SelectorsMean | pkg/api/warehouse.go:115-203 | some selector matches Freight exactly if it comes from the Warehouse, is where it must be, and is unrestricted, approved, or verified in all (or one) of the Stages |
| FreightListing.QueryAll | pkg/api/warehouse.go:184-211 | the union of the queries, each Freight once, in ascending order of name |
| FreightListing.SoakedEnough | pkg/api/warehouse.go:228-253 | the set comparison asks whether all (or one) of the Stages report the required soak |
| FreightListing.FilterSoaked | pkg/api/warehouse.go:219-256 | the filter keeps, in order, exactly the approved and the sufficiently soaked |
| FreightListing.ListFreightFromWarehouse | pkg/api/warehouse.go:105-256 | the listing holds, once each and by name, exactly the Freight selected by the query and retained by the filter |
| FreightListing.QueryAndFilterMeanRipened | pkg/api/warehouse.go:105-256 | query and filter together ask that the very same Stages have verified the Freight and soaked it long enough, exactly unless a soak of zero or less is asked of one of several Stages and met only where the Freight was never verified |
| FreightListing.SortAndDedupe | pkg/api/stage.go:198-208 | sorting by name and compacting leaves each Freight exactly once |
| FreightListing.ListFreightAvailableToStage | pkg/api/stage.go:148-210 | fails with the first request's error, otherwise holds exactly what some request lists, once each and by name |
| FreightListing.ListableExactly | pkg/api/warehouse.go:105-182 | a request can be listed exactly if its Warehouse exists and, unless it is direct, its strategy is All, OneOf or empty and there is an upstream Stage to match, if one is to be |
| ListingAgreement.ListedMeans | pkg/api/stage.go:148-210 | for every Stage and ledger: listed exactly if some request for the origin admits the Freight or is misled by it, with the upstream Stage using it under MatchUpstream |
| ListingAgreement.ListingAgreesExactly | pkg/api/stage.go:148-210 | with distinct origins, on any ledger whatever, listing and predicate agree on a piece of Freight exactly if its request is not misled by it |
| ListingAgreement.ListingAgreesWithPredicate | pkg/api/stage.go:148-210 | with distinct origins, on every sound ledger, and on every ledger if required soaks are positive, Freight is listed exactly if the point predicate holds and, under MatchUpstream, the upstream Stage is using it |
| ListingAgreement.StageAgreesExactly | api/v1alpha1/stage_types.go:176-207 | for which Stages without MatchUpstream, by their requests alone, the two agree on all sound Freight at all times: exactly those where no request that can be the first to admit some Freight follows an "All" request for the same origin |
| ListingAgreement.RepeatedOriginsDisagree | api/v1alpha1/stage_types.go:189-196 | a Stage on which they disagree because an origin is requested twice |
| ListingAgreement.UnsoundLedgerDisagrees | pkg/api/warehouse.go:225-256 | an instance of a misled request: a ledger with a negative soak and a required soak of zero |
| AutoPromotion.GroupByOrigin | pkg/api/auto_promotion.go:101-107 | each group is the Freight of one origin, in the order given |
| AutoPromotion.PickNewest | pkg/api/auto_promotion.go:120-138 | the head of any sort is the latest discovered, the greatest name among equally late ones |
| AutoPromotion.SelectAutoPromotionCandidates | pkg/api/auto_promotion.go:97-141 | a candidate for exactly the requested origins that have Freight, unless MatchUpstream finds more than one, and it is the newest of its origin |
| AutoPromotion.CandidatesExactly | pkg/api/auto_promotion.go:97-141 | which origins have a candidate and which Freight it is, from discovery and creation times and names alone |
| AutoPromotion.SelectionIgnoresOrder | pkg/api/auto_promotion.go:97-141 | any two selections from permutations of the same Freight are equal |
| AutoPromotion.CandidatesAreAvailable | pkg/api/auto_promotion.go:97-141 | selecting from the Stage's own listing yields only Freight the point predicate accepts, and for MatchUpstream only what the upstream Stage is using |
| Promotions.ComparePromotionIsComparator | pkg/api/promotion.go:259-308 | phase and name together are a total preorder |
| Promotions.SortedPromotionsUnique | pkg/api/promotion.go:259-278 | with distinct names there is only one sorted list of Promotions |
| Promotions.HeadOfOrder | pkg/api/promotion.go:248-278 | first comes a running Promotion if there is one, else the least-named one that has not ended, if there is one |
| PromotionNames.DigitsAscend | pkg/api/promotion.go:96-121 | base-32 digits of equal length compare as the numbers do |
| PromotionNames.NamesFit | pkg/api/promotion.go:100-121 | every generated name fits 253 characters |
| PromotionNames.NameShape | pkg/api/promotion.go:100-121 | there is a name exactly if prefix and Freight are given; it is lower-case: the prefix, cut if longer than 218 characters, 26 characters, and at most the first seven of the Freight's, with dots between |
| PromotionNames.ChildNameShape | pkg/api/promotion_request.go:22-41 | there is a child name exactly if Stage, Target and Freight are given, and if it fits it starts with the first two |
| PromotionNames.SamePrefixOrdersByCreation | pkg/api/promotion.go:84-121 | for prefixes that shorten to the same text, an earlier ULID always gives the lesser name, whatever the Freight |
| PromotionNames.OrderedByCreationExactly | pkg/api/promotion.go:84-121 | name order is creation order across two prefixes if and only if they shorten to the same text |
| PromotionNames.ChildrenOrderedPerTargetOnly | pkg/api/promotion_request.go:22-41 | for lower-case names that fit, the children of a Stage sort in creation order if and only if they are for the same Target |
| PromotionProtocol.GeneratedNamesAscend | pkg/webhook/kubernetes/promotion/webhook.go:236-262 | the names that admission gives a Stage's own Promotions ascend with their ULIDs, which is all the protocol uses of them |
| PromotionProtocol.HeadIsFirst | pkg/controller/stages/regular_stages.go:752-758 | the head of any sorted list of the Stage's own Promotions is no later in order than any of them |
| PromotionProtocol.OwnKept | pkg/controller/stages/regular_stages.go:671-957 | every step, in whatever order Promotions are stored, keeps: only the current Promotion runs, and if it has not ended, those older that have not were stored since the reconciliation that chose it |
| PromotionProtocol.RequestsKept | pkg/controller/stages/regular_stages.go:985-1040 | every step keeps the same of PromotionRequests |
| PromotionProtocol.ChildrenKept | pkg/api/promotion.go:205-233 | every step keeps: unfinished children belong to running requests, which have one for each Target; conditional on a request creating children only while it runs and ending only after them, which is assumed (see Left out) |
| PromotionProtocol.AtMostOneRuns | pkg/api/promotion.go:205-233 | over every run, in whatever order Promotions are stored, at most one of the Stage's own is running |
| PromotionProtocol.OvertakesOnlyLateArrivals | pkg/controller/promotions/promotions.go:385-405 | over every run, a Promotion can start only while no other is running, and ahead of an older one that has yet to end only if that one was stored after the reconciliation that chose |
| PromotionProtocol.LateArrivalIsOvertaken | pkg/webhook/kubernetes/promotion/webhook.go:236-262 | for any two creations, a run that stores the later first and can then start it ahead of the older |
| PromotionProtocol.NeverStartsAheadOfAnOlderOne | pkg/controller/promotions/promotions.go:385-405 | corollary: if Promotions are stored in the order of their ULIDs, one can start only if no older one has yet to end |
| PromotionProtocol.StartsInOrderOfCreation | pkg/api/promotion.go:84-121 | and then one that can start has the least ULID of the Stage's own Promotions that have yet to end |
| PromotionProtocol.RunningChildrenShareTheirRequest | pkg/api/promotion.go:205-233 | over every run, all running children belong to the current request, one per Target; conditional on the same assumption about requests |
| PromotionProtocol.ChildrenStartInRounds | pkg/controller/stages/regular_stages.go:960-977 | over every run, a child can start only alongside children of its own request, and ahead of an older unfinished request only if that one was stored after the reconciliation that chose; conditional on the same assumption about requests |
| PromotionProtocol.ChildrenStartInOrder | pkg/controller/stages/regular_stages.go:960-977 | corollary: if requests are stored in the order of their ULIDs, no child can start while an older request is unfinished |
| PromotionProtocol.TwoSyncsAdmitTheFirst | pkg/controller/stages/regular_stages.go:778-957 | nothing starves at the head: after any two reconciliations with nothing left to verify the first unfinished Promotion may start |
| PromotionProtocol.HeldSyncAdmitsNone | pkg/controller/stages/regular_stages.go:906-929 | with verification pending, a reconciliation makes no Promotion current: it keeps the current one if that is first and unfinished, and else has none |
| PromotionProtocol.StartsOnlyIfAdmitted | pkg/controller/stages/regular_stages.go:778-957 | over every run, one of the Stage's own Promotions can start only if some reconciliation found it first and unfinished, with no verification of the current Freight unfinished and, unless the Stage is known not to be healthy, at least one; and it has been current ever since |
| PromotionProtocol.SyncAdmitsChildren | pkg/api/promotion.go:205-233 | one reconciliation admits the unfinished children of the first request, if that is unfinished, and of no other |
| PromotionProtocol.FirstRequestIs | pkg/api/promotion_request.go:62-115 | first comes a running request if there is one, else the least-named one that has neither succeeded nor failed nor ended in an error |
| PromotionProtocol.CompareRequestIsComparator | pkg/api/promotion_request.go:62-115 | phase and name together are a total preorder of requests |
| PromotionReplay.GatherNew | pkg/controller/stages/regular_stages.go:785-809 | gathers, oldest first, exactly the ended Promotions newer than the last one replayed, and none while an unfinished one is no newer than that |
| PromotionReplay.ReplaysExactly | pkg/controller/stages/regular_stages.go:778-785 | Promotions are replayed by exactly those reconciliations before which one is current and after which none is |
| PromotionReplay.StageStatus.Replay | pkg/controller/stages/regular_stages.go:815-858 | last Promotion and Freight history after replaying the Promotions one after the other |
| PromotionReplay.StageStatus.Record | api/v1alpha1/stage_types.go:703-714 | the collection comes first, and the history is cut to ten |
| PromotionReplay.ReplayedIs | pkg/controller/stages/regular_stages.go:815-858 | a replay puts what was collected on top of the history, cut to ten, and keeps the last Promotion |
| PromotionReplay.CollectedNewestFirst | pkg/controller/stages/regular_stages.go:849-857 | what is collected is one collection for each Promotion that succeeded, the newest first: the one remembered after that Promotion |
| PromotionReplay.CollectionRemembered | pkg/controller/stages/regular_stages.go:844-853 | the Stage remembers the collection of the latest Promotion that ran or has one, and the one it remembered before if there is none |
| PromotionReplay.HistoryIsNewestFirst | pkg/controller/stages/regular_stages.go:778-880 | over every run, status and history are those of a single replay of all that was ever replayed, in the order of the names |
| PromotionReplay.ReplayedOnceInOrder | pkg/controller/stages/regular_stages.go:785-809 | over every run no Promotion is replayed twice, and all are in the order of their names |
| PromotionReplay.PassedOverForGood | pkg/controller/stages/regular_stages.go:790-805 | what is no newer than the last one replayed, and was not replayed, never will be |
| PromotionReplay.PassesOverExactly | pkg/controller/stages/regular_stages.go:790-805 | a step passes over an unfinished Promotion, not passed over before, exactly if it replays a newer one |
| PromotionReplay.NothingPassedOverExactly | pkg/controller/stages/regular_stages.go:778-809 | along which runs none is ever passed over: exactly those where each replay finds what it records older than all that is unfinished, and each Promotion is created newer than the last one replayed |
| PromotionReplay.NothingIsPassedOver | pkg/controller/stages/regular_stages.go:778-809 | so if Promotions are stored in the order of their ULIDs and none is aborted before an older one has ended; and then each time the Stage lets go, all that have ended have been replayed |
| PromotionReplay.AbortInQueuePassesOver | pkg/controller/stages/regular_stages.go:790-805 | a run of seven steps, stored in order, that passes over a Promotion yet to run |
| CollectorFanOut.InvKept | pkg/garbage/collector.go:158-236 | every action of every goroutine keeps the channel states, the custody of each project, and the tally of failures |
| CollectorFanOut.EachProjectCleanedOnce | pkg/garbage/collector.go:158-236 | when it returns uncancelled, every project was cleaned exactly once, the count is the number of failures, the error says whether there were any, and every goroutine is done |
| CollectorFanOut.NothingCleanedTwice | pkg/garbage/projects.go:14-41 | even under cancellation no project is cleaned twice and no failure is counted that did not happen |
| CollectorFanOut.CancelledEarly | pkg/garbage/collector.go:209-217 | it returns for a cancellation only before the last project, which no worker will ever get; every project before that is with a worker or cleaned |
| CollectorFanOut.NoSendOnClosedChannel | pkg/garbage/collector.go:198-222 | in every reachable state, whoever can send finds an open channel |
| CollectorFanOut.NeverStuck | pkg/garbage/collector.go:158-236 | with a worker, or no project, some action other than a cancellation is possible until everything has returned |
| CollectorFanOut.MaximalRunReturns | pkg/garbage/collector.go:158-236 | an uncancelled run that can go no further has returned |
| CollectorFanOut.EveryActionMakesProgress | pkg/garbage/projects.go:14-41 | a natural number decreases with every action |
| CollectorFanOut.InterleavingsAreBounded | pkg/garbage/collector.go:158-236 | no interleaving is longer than the work left at its start |
| CollectorFanOut.ProgressNeedsWorkers | pkg/garbage/collector.go:176-205 | distribution can get under way exactly if a worker is configured or there is no project; otherwise only a cancellation is possible |
| Retention.DeleteOldEnough | pkg/garbage/freight.go:115-150 | from the first candidate on, exactly the tail that is old enough is attempted, going on after failures |
| Retention.CleanWarehouseFreight | pkg/garbage/freight.go:59-152 | the targets are exactly those that the retention rule names for some newest-first order of the Freight, by discovery or else creation time, protecting what a Stage uses, unless listing fails; no attempt is skipped because another failed |
| Retention.CleanStagePromotions | pkg/garbage/promotions.go:54-127 | the same for Promotions by creation time, protecting all that have not succeeded, failed, ended in an error or been aborted; none of these goes, nor a younger one than the minimum age |
| Retention.SurvivorsAreNewestAndProtected | pkg/garbage/freight.go:86-141 | nothing in use goes, nothing young goes, and every survivor is at least as new as everything that goes |
| Retention.GenerationsRetained | pkg/garbage/freight.go:122-125 | the items after the oldest protected one survive, as many as are to be retained |
| Retention.SecondPassTargetsNothingExactly | pkg/garbage/freight.go:86-141 | a second pass at the same time deletes nothing, however it sorts, exactly if at most as many survivors as are to be retained are unprotected and no newer than any protected one, or the oldest survivor is too young |
| Retention.SecondPassTargetsNothing | pkg/garbage/promotions.go:81-116 | in particular if no two timestamps are equal |
| Retention.EquallyOldItemsAreSweptAgain | pkg/garbage/promotions.go:81-90 | with equal timestamps it may delete more: a concrete pair of passes |
| Templates.ClosesExactly | pkg/expressions/json_templates.go:251-279 | an expression ends where its text ends exactly if it lacks its end delimiter and, between braces, does not end in a brace |
| Templates.NextExpressionFinds | pkg/expressions/json_templates.go:251-279 | scanning a printed piece after a text without start delimiters returns that text, expression and rest, exactly if the expression closes properly |
| Templates.NextExpressionRebuilds | pkg/expressions/json_templates.go:251-279 | whatever scanning finds is leftmost and rebuilds the template; it finds nothing only without start delimiters, and fails only for a missing end |
| Templates.EvaluateTemplate | pkg/expressions/json_templates.go:213-244 | the loop terminates with the template's meaning, or the first error |
| Templates.MeaningOfPrinted | pkg/expressions/json_templates.go:213-244 | the meaning of a printed template keeps literals verbatim and replaces each expression by its value, leftmost first, never scanning a value |
| Templates.EmptyExpressionStops | pkg/expressions/json_templates.go:225-232 | an empty expression vanishes and everything after it is copied verbatim |
| Templates.AllReplacedExactly | pkg/expressions/json_templates.go:213-244 | a printed template, its expressions possibly empty, evaluates to its literals with every expression replaced, whatever they evaluate to, if and only if none is empty |
| Templates.EveryTemplateIsPrinted | pkg/expressions/json_templates.go:213-279 | every template splits into legal segments and a tail without start delimiters, or one where evaluation stops or fails |
| TemplateTrees.EvaluateLeaf | pkg/expressions/json_templates.go:116-211 | a leaf's text is evaluated once, then read as LeafReadsExactly says |
| TemplateTrees.LeafReadsExactly | pkg/expressions/json_templates.go:160-211 | a leaf with expressions, its values put in, becomes what stands between quotes, else a number, whatever else it could be, else a boolean, else JSON, else the text, with or without a final newline |
| TemplateTrees.EvaluateExpressions | pkg/expressions/json_templates.go:71-111 | the walk succeeds exactly if every string leaf evaluates, with each original leaf replaced and nothing else; it evaluates every string leaf of the original document exactly once and nothing else, or ends at the first that fails |
| TemplateTrees.EvaluateItems | pkg/expressions/json_templates.go:91-108 | the same for a list |
| TemplateTrees.EvaluateFields | pkg/expressions/json_templates.go:73-90 | the same for an object, in whatever order its keys are visited |
| TemplateTrees.ReplacedAtEveryPath | pkg/expressions/json_templates.go:71-111 | at every path of the document, however deep: keys, lengths and leaves other than strings survive, and each string becomes what it alone evaluates to |
| TemplateTrees.NothingElseAppears | pkg/expressions/json_templates.go:71-111 | what stands at any other path of the result is inside the value of a replaced string |
| TemplateTrees.PlainDocumentsUnchanged | pkg/expressions/json_templates.go:71-130 | a document without start delimiters evaluates to itself |
| TemplateTrees.QuotedExpressionsAreStrings | pkg/expressions/json_templates.go:116-185 | a leaf that is one expression whose value is enclosed in quotes becomes what stands between them, escapes and all, with or without a final newline, whatever it could be parsed as |
| TemplateTrees.SubstitutionIsVerbatimExactly | pkg/expressions/json_templates.go:116-211 | a leaf with expressions becomes its text with their values put in, as a string, exactly if that text is not quoted and no parser makes anything else of it |
| Origins.ParseInvertsPrint | api/v1alpha1/stage_types.go:298-321 | parsing succeeds exactly on the printed forms of Warehouse origins with non-empty, slash-free names, and inverts printing |
| Origins.StringInjective | api/v1alpha1/stage_types.go:298-305 | different origins print differently |
| FreightCollections.FreightCollection.Includes | api/v1alpha1/stage_types.go:622-632 | whether some entry bears the name |
| FreightCollections.FreightCollection.UpdateOrPush | api/v1alpha1/stage_types.go:638-651 | files each reference under its origin, the last one winning, and recomputes the identifier |
| FreightCollections.FreightCollection.References | api/v1alpha1/stage_types.go:656-673 | one entry per origin, in ascending order of printed origins |
| FreightCollections.PushedFiled | api/v1alpha1/stage_types.go:638-645 | after any pushes every entry is filed under its own origin |
| FreightCollections.PushedEntries | api/v1alpha1/stage_types.go:638-645 | references of distinct origins are all there, and other origins' entries are as before |
| FreightCollections.PushOrderIsIrrelevant | api/v1alpha1/stage_types.go:638-651 | pushing permutations of references with distinct origins gives the same entries |
| FreightCollections.IdentifierDetermined | api/v1alpha1/stage_types.go:646-650 | the identifier depends only on how often each name occurs, not on map order or history |
| FreightCollections.NewFreightCollectionForStage | pkg/api/freight_collection.go:25-57 | the collection holds the promoted Freight and, for a Stage with several origins, every other requested origin's entry of the last Promotion's collection, or of the current one if there is none, and nothing else |
| FreightCollections.LatestOfEachOrigin | pkg/api/freight_collection.go:25-57 | over any succession of Promotions to a Stage with several origins, the collection holds the Freight promoted last of each origin requested, and nothing else |
| ImageSelection.MatchesTag | pkg/image/tag_based_selector.go:79-100 | no ignore expression matches, and some allow expression does if there are any |
| ImageSelection.FilterTags | pkg/image/tag_based_selector.go:115-123 | exactly the matching tags, in order |
| ImageSelection.FilteredExactly | pkg/image/tag_based_selector.go:79-123 | a tag is left, as often as it was listed, exactly if no ignore expression matches it and some allow expression does, if there are any |
| ImageSelection.GetImagesByTags | pkg/image/tag_based_selector.go:129-166 | the first discoveryLimit images of a fetch of all tags, although fetching stops early; fails exactly on an error met before that |
| ImageSelection.ImagesToAPIImages | pkg/image/base_selector.go:66-85 | the first images up to the limit, all for a limit that is zero or exceeds them |
| ImageSelection.SelectLexical | pkg/image/lexical_selector.go:41-93 | the first discoveryLimit images found among the matching tags in descending order, or the first error before that |
| ImageSelection.LexicalMeans | pkg/image/lexical_selector.go:41-93 | the first of the images found for the tags in descending order, as many as a limit that is not zero allows |
| ImageSelection.LexicalSelectionIgnoresListing | pkg/image/lexical_selector.go:63-93 | images and error alike are a function of the tags, in whatever order the registry lists them |
| ImageSelection.SelectNewest | pkg/image/newest_build_selector.go:76-107 | the first images of the gathered ones, newest first |
| ImageSelection.NewestAreSelected | pkg/image/newest_build_selector.go:76-107 | as many images as the limit allows, newest first and by descending tag among equally new ones, and none left out that is newer than one selected |
| ImageSelection.CompletionOrderIsIrrelevant | pkg/image/newest_build_selector.go:43-107 | with distinct tags, any order of completion gives the same selection |
| ImageFanIn.CountsKept | pkg/image/newest_build_selector.go:114-182 | every action keeps the channel contents within what finished workers sent |
| ImageFanIn.GatheringIsComplete | pkg/image/newest_build_selector.go:114-182 | a gathering that returns succeeds exactly if no fetch fails, and then holds exactly what fetching one after the other would find |
| ImageFanIn.FailureHasReason | pkg/image/newest_build_selector.go:114-182 | a gathering fails only if a fetch does, and reports such a fetch's error once all have been started |
| ImageFanIn.ConcurrentSelectionIsSequential | pkg/image/newest_build_selector.go:43-182 | if no fetch fails, every interleaving that returns succeeds, and selecting from its result is selecting from a sequential fetch |
| ImageFanIn.ImageSendsNeverBlock | pkg/image/newest_build_selector.go:114-182 | no worker ever finds the image channel full |
| ImageFanIn.NeverStuck | pkg/image/newest_build_selector.go:114-182 | with a permit to give, some action is possible until everything has returned |
| ImageFanIn.MaximalRunReturns | pkg/image/newest_build_selector.go:114-182 | a run that can go no further has returned and left no worker, with all the images exactly if no fetch fails |
| ImageFanIn.EveryActionMakesProgress | pkg/image/newest_build_selector.go:114-182 | a natural number decreases with every action |
| ImageFanIn.InterleavingsAreBounded | pkg/image/newest_build_selector.go:114-182 | no interleaving is longer than the work there is at its start |
| ImageCache.TagKeyInjective | pkg/image/repository_client.go:169 | a tag's cache key determines repository and tag |
| ImageCache.TagKeyIsDigestExactly | pkg/image/repository_client.go:169 | tag keys and digest keys coincide exactly for a repository named like a digest algorithm and a tag that is a checksum of it |
| ImageCache.GetImageByDigest | pkg/image/repository_client.go:230-278 | answer and effect on the cache are those of looking in the cache, then asking the client's repository, then caching unless the client caches by tag |
| ImageCache.GetImageFromIndex | pkg/image/repository_client.go:347-420 | platforms and creation time of an index are those of the references that name images, in order, each looked up through the cache, or the first error |
| ImageCache.GetImageByTag | pkg/image/repository_client.go:161-227 | answer and effect on the cache of a tag lookup, filtering by platform after the cache |
| ImageCache.PlatformFilterExactly | pkg/image/repository_client.go:216-227 | without a cache an image is found exactly if the tag has it and, under a constraint, one of its platforms has the same OS, architecture and variant; nothing is found exactly if the tag's image has none |
| ImageCache.FoundForPlatformExactly | pkg/image/repository_client.go:161-227 | under a constraint, exactly if the tag is that of an index with a reference to an image for the platform; an image that is no index has none |
| ImageCache.CreatedExactly | pkg/image/repository_client.go:347-500 | an image was created when its annotations claim; failing that, an index when the newest of the images it names was, and any other at the later of the times in labels and config |
| ImageCache.LookUpAll | pkg/image/cache.go:9 | a run of lookups and evictions through one cache, any uses of which may fail, gives the answers that the following rows are about |
| ImageCache.MissingDigest | pkg/image/repository_client.go:347-420 | if one repository finds an image and another does not, then for want of a digest that both lookups ask for and the one finds |
| ImageCache.TransparentExactly | pkg/image/repository_client.go:161-278 | all runs of a pool of lookups, by clients of any repositories, of either kind, with or without constraints, with any evictions and failures of the cache, answer as without a cache, if and only if no lookup asks its repository in vain for a digest that a lookup by a client that does not cache by tag finds |
| ImageCache.SharedAnswersExactly | pkg/image/repository_client.go:161-227 | every answer of every run over lookups that may share a cache is the tag's image exactly if one of its platforms is the one asked for, if any, and nothing exactly if none is |
| ImageCache.CompleteRepositoriesShare | pkg/image/repository_client.go:230-278 | in particular if every client's repository holds every image its indexes name and every digest it is asked for |
| ImageCache.SparseIndexDisagrees | pkg/image/repository_client.go:236-278 | and not for a repository that tags an index without holding the image it names, once a client of another repository has looked that up |
| ImageCache.OperationIsFaithful | pkg/image/repository_client.go:161-278 | whatever others do to the cache, a lookup writes nothing wrong and answers as without a cache, unless it was first told something wrong |
| SharedCache.InterleavedIsUncached | pkg/image/repository_client.go:161-278 | however the uses that any number of lookups make of the cache interleave, with any evictions and failures, each lookup that may share it answers as without it |
| SharedCache.InterleavedExactly | pkg/image/repository_client.go:161-278 | going on at the same time adds nothing to what can go wrong: all interleavings are transparent if and only if all sequential runs are |
| SharedCache.SelectionIsUncached | pkg/image/newest_build_selector.go:43-182 | the concurrent selector, its lookups interleaving through the cache, fails exactly if a lookup without a cache would, and otherwise selects what it would from images fetched one after the other without a cache |
| SubscriptionCodec.WarehouseSpec.UnmarshalJSON | api/v1alpha1/warehouse_types.go:130-205 | accepts exactly if every object has exactly one type field whose value decodes, and stores what they decode to in order; an error leaves the raw field stored, the subscriptions before the one at fault decoded and those after it empty |
| SubscriptionCodec.WarehouseSpec.MarshalJSON | api/v1alpha1/warehouse_types.go:210-294 | encodes every subscription in order |
| SubscriptionCodec.RoundTripsExactly | api/v1alpha1/warehouse_types.go:130-294 | an encoded subscription decodes to itself exactly if it has one type set and, when generic, a type that is not empty or reserved |
| SubscriptionCodec.AcceptedMarshalsExactly | api/v1alpha1/warehouse_types.go:210-294 | what was accepted can be marshalled again exactly if no object has an explicit null for Git, image or chart settings and none an empty type name |
| SubscriptionCodec.EmptyTypeIsAcceptedOnly | api/v1alpha1/warehouse_types.go:177-190 | an object whose only field has the empty name decodes to a subscription that cannot be marshalled |
| SubscriptionCodec.SpecRoundTrips | api/v1alpha1/warehouse_types.go:130-294 | unmarshalling a marshalled specification gives back its subscriptions |
| SubscriptionCodec.WireFormat | api/v1alpha1/warehouse_types.go:210-294 | settings are written under the field of their type, and the name, if any, under its own |
| StepInflation.TaskVarsToStepVars | pkg/api/promotion.go:436-487 | the variables a task step gets, or the required one that is not set |
| StepInflation.InflatesExactly | pkg/api/promotion.go:395-487 | a step inflates exactly if its task, if any, exists in the Project or the cluster, as its kind says, and each variable declared without a default has a value on the Promotion or the step |
| StepInflation.InflatedValues | pkg/api/promotion.go:357-391 | a step of a task sees, of each name, its own value, else that of the step referring to the task, else what the Promotion sets, else the task's default; its alias joins both steps' |
| StepInflation.EmptyAfterAllExactly | pkg/api/promotion.go:436-487 | when a declared variable comes out empty although a value was demanded: exactly if the last entry of its name is empty where the value is taken from |
| StepInflation.AliasMeans | api/v1alpha1/promotion_types.go:333-342 | a step without an alias is named after its position from one and whether it refers to a task |
| StepInflation.Promotion.InflateSteps | pkg/api/promotion.go:320-352 | all steps are replaced by their expansions in order or, on an error, none is |
| StepInflation.Promotion.InflateTaskSteps | pkg/api/promotion.go:357-391 | the expansion of one reference to a task |
| StepInflation.InflationKeepsOrder | pkg/api/promotion.go:320-391 | the inflated steps stand for the source steps one for one, in order, each with a name |
| StepInflation.NoReferencesLeftExactly | pkg/api/promotion.go:357-391 | no reference is left exactly if no referenced task refers to one |
| StepInflation.InflationIsIdempotent | pkg/api/promotion.go:320-352 | inflating steps without references again changes nothing |
| StepInflation.AlwaysDistinctExactly | pkg/api/promotion.go:357-431 | for which top-level steps, by their aliases alone, inflated aliases are pairwise distinct whatever distinctly aliased steps the tasks hold: exactly if plain aliases are distinct, none is a task's alias and separator extended, and of the tasks' aliases with separator none extends another |
| StepInflation.InflatedAliasesDistinct | pkg/api/promotion.go:357-431 | in particular if the top-level aliases are distinct and free of colons |
| StepInflation.ColonsCanCollide | pkg/api/promotion.go:429-431 | an instance of a collision: a step named like a task's |
| VerificationStack.VerificationInfoStack.UpdateOrPush | api/v1alpha1/stage_types.go:976-998 | updates known IDs in place, puts the new ones on top in their order, and cuts to ten |
| VerificationStack.EntryAfterPush | api/v1alpha1/stage_types.go:976-998 | after one push the entry of that ID is the one pushed and every other entry is an unchanged one |
| VerificationStack.PushedIsThere | api/v1alpha1/stage_types.go:976-998 | the ID pushed is on the stack, on top if new |
| VerificationStack.OrderSurvives | api/v1alpha1/stage_types.go:976-998 | surviving entries keep their relative order |
| VerificationStack.EveryRunIsBoundedAndDistinct | api/v1alpha1/stage_types.go:976-998 | over every run of single pushes there are at most ten entries, of distinct IDs |
| VerificationStack.EveryRunShowsTheLatest | api/v1alpha1/stage_types.go:976-998 | over every run each entry is the latest information given for its ID |
| VerificationStack.EveryRunShowsTheLastPush | api/v1alpha1/stage_types.go:976-998 | over every run the ID pushed last is on the stack |
| VerificationStack.DistinctIdsExactly | api/v1alpha1/stage_types.go:976-998 | several pushed at once keep IDs distinct exactly if the new ones among them that fit are distinct |
| VerificationStack.KnownEntriesShowTheLast | api/v1alpha1/stage_types.go:976-998 | a known entry ends as the last information given for its ID |
| Conditions.TruncateMessage | pkg/conditions/conditions.go:139-150 | cuts where a rune starts and appends the suffix, if the message is too long |
| Conditions.TruncationIsSafe | pkg/conditions/conditions.go:139-150 | at most 32768 bytes, a prefix with suffix, valid UTF-8 if the message was, and at most three bytes more than necessary dropped |
| Conditions.SuffixSpells | pkg/conditions/conditions.go:139-150 | what a truncated message ends in |
| Conditions.Resource.Set | pkg/conditions/conditions.go:50-112 | stores the conditions one after the other, skipping nil ones |
| Conditions.SetAllEffect | pkg/conditions/conditions.go:50-112 | types stay unique and in place; of each type given the last condition shows, its message truncated; other types keep theirs |
| Conditions.SetOneExactly | pkg/conditions/conditions.go:50-112 | when a condition is stored, and with which observed generation and transition time |
| Conditions.TransitionTimeStays | pkg/conditions/conditions.go:80-102 | a condition keeps its transition time through any settings that give none, even if its status changes |
| Conditions.Resource.Delete | pkg/conditions/conditions.go:115-127 | removes the first condition of the type |
| Conditions.DeletionEffect | pkg/conditions/conditions.go:115-127 | with unique types, deletion removes that type and nothing else, and keeps the order |
| Utf8.CutIsValid | pkg/conditions/conditions.go:143-149 | valid text cut where a rune starts is valid |
| Utf8.StartIsNear | pkg/conditions/conditions.go:143-149 | in valid text a rune starts at most three bytes before any index |
| Utf8.ValidExactly | pkg/conditions/conditions.go:143-149 | what counts as valid text here is exactly what encodes Unicode scalar values |

## Left out

- Kubernetes API calls: a List is a filter over the objects of a namespace by the index functions, a Get is a map lookup; network and API errors are elided unless a row says otherwise.
- Nil receivers and nil arguments of the availability functions, and the rounding of stored times to seconds.
- Removal of verifications and approvals when a Stage is deleted (pkg/controller/stages/regular_stages.go:2661-2745): availability is stable under the status methods only (listing and predicate agree on whatever sound ledger that leaves).
- PromotionProtocol.AtMostOneRuns: reconciliations read the Stage and its Promotions at once (no stale cache).
- PromotionProtocol.RunningChildrenShareTheirRequest: the reconciler here only ends requests (pkg/controller/promotionrequests/promotionrequests.go:94-133); of one that fans them out, which is not part of this repository, the model assumes that it creates one child per Target, only for a running request, and ends a request only when its children have ended; requests are never deleted.
- PromotionProtocol.ChildrenKept: rests on the same assumption.
- PromotionProtocol.ChildrenStartInRounds: rests on the same assumption.
- PromotionProtocol.ChildrenStartInOrder: rests on the same assumption.
- PromotionReplay.HistoryIsNewestFirst: what succeeded PromotionRequests put into the same history (pkg/controller/stages/regular_stages.go:1112-1153) is left out.
- PromotionReplay.StageStatus.Replay: holds, health and the conditions set by the replay are left out, as is the annotation of the Stage. An ended Promotion's status no longer changes.
- ListingAgreement.StageAgreesExactly: leaves out Stages with a MatchUpstream request, whose listing is meant to be narrower than the predicate; ListedMeans covers them.
- PromotionNames: a ULID is a 128-bit number, greater for a later creation; its clock and randomness are parameters.
- CollectorFanOut.ProgressNeedsWorkers: a negative number of workers makes the WaitGroup panic and is not modelled.
- Retention.CleanWarehouseFreight: the limit is a natural number; a negative one makes the index run out of range. The loops over a project's Warehouses and Stages only add up errors and are not modelled.
- TemplateTrees.EvaluateExpressions: builds a new document instead of updating maps and slices in place; expression evaluation and the number, boolean and JSON parsers are arbitrary functions; the check for reserved environment keys and the quoting helpers are not part of this model.
- ImageSelection: the SemVer and digest strategies, regular expressions (arbitrary predicates) and annotations.
- ImageFanIn.NeverStuck: the semaphore's permits are not shared with other callers, and cancellation is left out.
- ImageCache.TransparentExactly: annotations of images are left out; what a repository holds is the same for all its clients, whatever their credentials; tags whose key is a digest key (see TagKeyIsDigestExactly) are excluded.
- FreightCollections.IdentifierDetermined: SHA-1 is an arbitrary function, and nothing is claimed about collisions.
- SubscriptionCodec.RoundTripsExactly: the JSON encoders of the single values are assumed to be inverted by their decoders.
- StepInflation.TaskVarsToStepVars: variables are immutable values, so the sharing of a slice's spare capacity at pkg/api/promotion.go:385 is not captured.
- Conditions.Resource.Set: the time of the call is a parameter; that the conditions passed in are changed in place as well is left out.
- IsAutoPromotionEnabled and the hold and resume annotations: easy claims.
- The rest of the repository: reconcilers beyond the choice of the current Promotion and request, the event codec, credentials, Helm, promotion step runners, API server, CLI and UI.
