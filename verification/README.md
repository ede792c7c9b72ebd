# A verified model of the repository's scripts

A Dafny model of the algorithmic scripts: the stage-extraction contract, the lock-file closure, the
catalogue repair, the reversible prune, the card-number scanner, the steganographic codec, the
demo-data generator, the import reconciliation, the porcelain parsers, the catalogue indexer and the
percentile. Each file models one script or one part of one; `Prelude.dfy` holds what they share.
Loops that change variables are methods with invariants, proved against the functions and predicates
about which the lemmas speak; the product catalogue and the case queue are classes.

`dafny verify dfyconfig.toml` checks the whole project.

## What is proved

* **Stage extraction.** A range of a straight-line function, replaced by a stage that sees the entry
  store and the reported inputs and hands back the reported outputs, leaves every run as it was:
  the same values at every name load, the same side effects, the same exceptions. For any code and any
  interface whatever, a single run, in which all values are told apart, decides whether the cut is
  right; and where no statement binds a bare copy of a name there is an exact criterion on names.
  Two kinds of code for which the reported interface is wrong are shown by example, an augmented
  assignment, which the analysis does not see as a write, and a bare annotation, which it takes for
  one, with the exact condition on the code under which it is right.
* **Lock closure.** The worklist terminates on every finite lock, cyclic ones included; on normal
  return the state is one that the turns of the worklist lead to, closed under every edge that applies,
  free of ambiguous names, and sound: every name is reached by requests that were made, each along an
  edge that applied under the extras recorded at that moment; on
  failure the error names its witness. Extras asked of a package that already waits are dropped, so
  "every requested extra is recorded" is false: in an example the order of two roots decides whether
  a dependency is installed. What a package asks for is spelled out on the lock: the options of a
  dependency that count, and the extras that they bring. For the extras that only roots ask for the exact condition is proved:
  they are recorded exactly when the first root of their package asks for them. For all extras a
  condition on roots and lock is enough: that whoever asks for a package asks for the same extras; then
  the order of the roots does not matter either. The folding of the lock file depends on the order of
  its entries exactly when entries of one version say different things.
* **Catalogue repair.** Repair converges for every order of the plan and through chains and cycles
  of SKUs; SKUs and business keys stay unique; no reference is broken; product rows and fact rows are
  conserved up to those counted as merged, and which product rows are dropped is characterised
  exactly. When one repair renames to a SKU that a later one renames away, the fact rows of the
  first follow the second, as an example of a planned chain shows: facts end where they belong, in
  every table, exactly when the plan has no such handover.
* **Prune.** Over every run of prunes, restores, torn backups and roll-backs with fresh file names no
  row is lost, and restoring all the files in any order gives back the original tables. Under a name
  in use a prune is safe exactly when the overwritten file holds nothing that is not elsewhere. Which
  cases one prune takes is stated on ids and dates, and recent cases stay through any run.
* **Card numbers.** The check-digit test detects every wrong digit and every swap but 0/9, at any
  length; the scanner finds exactly the digit runs it should, and a grouped number exactly when it is in
  step with the groups of four digits before it, which can be counted on the text; the bisect agrees
  with the plain search.
* **Codec.** What comes back after embedding, for every text and image, and exactly which texts
  survive whole: the 32-bit prefix counts bits, so the limit is 2^29 bytes. Ill-formed bytes decode to
  one replacement character per maximal subpart. For every image, made by embedding or not, it is
  stated when extraction succeeds and what it reads.
* **Demo data, import, parsers, indexer, percentile.** A fair split that adds up and is on every day
  less than one away from proportional; receipts that agree with their lines and with what was drawn,
  and whose amounts balance; a merge that keeps every observation exactly once, and whose hold label
  depends on the order of the records exactly for the products described by a condition on the
  records; parsing that undoes rendering, and what the parsers make of any other text; paging that
  neither loses nor repeats a row; percentiles that are what their name says.

## Conventions

Exceptions are `Err` values or error results. What lies outside a script is a parameter: the meaning
of operations, marker evaluation, name canonicalisation, title normalisation, trimming, embedding,
the columns of an audit row, and whether a page query fails. Random draws are arbitrary values in
their ranges. Quotas and percentiles are real numbers, money is whole cents.

## Model

| member | source | states |
|---|---|---|
| StageContract.IoContract | scripts/ctx_access_map.py:103-134 | the sorted inputs are exactly the names read in the range and assigned before it, the outputs those assigned in it and read after it |
| StageContract.ReadsAfter | scripts/ctx_access_map.py:83-91 | maps exactly the listed names that are read after the range, each to the first line that reads it |
| StageContract.ContractNames | scripts/ctx_access_map.py:117-130 | on a range that splits no statement the line tests pick out what the range and the code before and after it read and assign |
| StageContract.BodyNames | scripts/ctx_access_map.py:94-100 | the walk sees at least every name the code may read before binding it, and counts as assigned exactly what the code binds when every assignment carries a value |
| StageContract.ContractFits | scripts/ctx_access_map.py:103-134 | the reported interface meets the criterion on names when no assignment is augmented or bare |
| StageContract.ContractPreservesBehaviour | scripts/ctx_access_map.py:103-134 | for such code, original and staged function are indistinguishable for every meaning of the operations, every entry store and every outcome, exceptions included |
| StageContract.ContractIsRightExactlyWhen | scripts/ctx_access_map.py:103-134 | with augmented and bare assignments admitted, the reported interface is right on all completing runs if and only if the names the walk reads and assigns stand in for those the code reads and binds |
| StageContract.AugmentedAssignmentIsMissed | scripts/ctx_access_map.py:94-100 | `x += 1` in the range is reported neither as input nor as output, and the cut changes behaviour |
| StageContract.BareAnnotationHasNoValue | scripts/ctx_access_map.py:94-100 | `x: int` in the range is reported as output although it has no value to return |
| StageMachine.FittingInterfacePreserves | scripts/ctx_access_map.py:103-110 | any interface that fits the names leaves every completing run unchanged |
| StageMachine.PreservingInterfaceFits | scripts/ctx_access_map.py:103-110 | and an interface that leaves them unchanged fits the names |
| StageMachine.PreservesExactlyWhenItFits | scripts/ctx_access_map.py:103-110 | both directions, for every interface of code that binds no bare copies |
| StageContract.ContractFitsExactlyWhen | scripts/ctx_access_map.py:103-134 | that condition, on the cut alone, is the criterion on names for the reported interface |
| StageReplay.OneRunDecides | scripts/ctx_access_map.py:103-110 | for any code and any interface, the cut is right for every meaning and entry store if and only if it does not change one run, in which every operation answers with new values |
| StageReplay.FreeRunSpeaks | scripts/ctx_access_map.py:103-110 | if that run is unchanged, so is every completing run |
| StageReplay.CopyNeedsNoOutput | scripts/ctx_access_map.py:103-110 | `x = x` makes an interface right that does not fit the names |
| LockClosure.EnqueueRecordsAllExactlyWhen | scripts/generate_runtime_requirements.py:94-102 | a request is recorded in full if and only if the package is not waiting or nothing new is asked |
| LockClosure.EnqueueKeeps | scripts/generate_runtime_requirements.py:94-102 | a justified request keeps the tables consistent: recorded extras are those taken, and every recorded package waits or was visited with its recorded extras |
| LockClosure.Ask | scripts/generate_runtime_requirements.py:94-102 | one request by the package being visited: the machine moves as `enqueue` does, the request is recorded, and the live set changes only if a package asks itself for more |
| LockClosure.VisitDependencies | scripts/generate_runtime_requirements.py:120-133 | asks for every applicable dependency in order, looking the extras up in the live set each time, and nothing else |
| LockClosure.VisitRequirements | scripts/generate_runtime_requirements.py:136-142 | asks for every requirement of one extra whose marker holds, in order, and nothing else |
| LockClosure.VisitExtras | scripts/generate_runtime_requirements.py:135-142 | does so for every extra in any order, and fails if the set it iterates changes |
| LockClosure.Visit | scripts/generate_runtime_requirements.py:118-142 | after a visit every other visit is still current, and this one is too unless the package got new extras |
| LockClosure.Turn | scripts/generate_runtime_requirements.py:109-142 | a turn either shrinks the set of visits still possible or only shortens the queue, and keeps the invariant |
| LockClosure.VisitShrinksRemaining | scripts/generate_runtime_requirements.py:115-118 | a visit with a new signature strictly shrinks that set |
| LockClosure.Begin | scripts/generate_runtime_requirements.py:104-106 | the roots are enqueued in order, or the failure is blamed on a name that is not in the lock |
| LockClosure.Closure | scripts/generate_runtime_requirements.py:90-144 | terminates; gives what the turns of the worklist may lead to, with the extras of a package in any order; on success the sorted names of a final state, on failure an error with its witness |
| LockClosure.ClosedAndSound | scripts/generate_runtime_requirements.py:90-144 | in a final state roots are in, last signatures equal recorded extras, all edges that apply stay inside, nothing is ambiguous, and every name is reachable from a root by requests that were made |
| LockRequests.DependenciesAreAsked | scripts/generate_runtime_requirements.py:120-133 | in the end every recorded package has asked, under its recorded extras, for each dependency with an option that is not optional and whose marker applies, with exactly the extras of all such options |
| LockRequests.RequirementsAreAsked | scripts/generate_runtime_requirements.py:135-142 | and for each requirement of each recorded extra whose marker is absent, blank or true, with that requirement's extras |
| LockRequests.NothingElseIsAsked | scripts/generate_runtime_requirements.py:120-142 | every request that a package makes, in any reachable state, is one of these two kinds, under the extras recorded then |
| LockRequests.MarkerByExtras | scripts/generate_runtime_requirements.py:35-48 | a marker applies under several extras if and only if it applies under one of them, and without extras as for the empty one |
| LockClosure.AskedIsReachable | scripts/generate_runtime_requirements.py:108-142 | every name ever asked for has a chain of requests from a root, each made by the package asked for before it, with exactly the extras recorded for that package at that moment, along an edge that applied under them |
| LockClosure.WellMadeLockHasClosure | scripts/generate_runtime_requirements.py:96-113 | a lock that resolves every edge, without ambiguity or self-extension, cannot fail |
| LockExtras.UniformRequestsAreRecorded | scripts/generate_runtime_requirements.py:90-144 | if all roots and edges into a package ask for the same extras, every run records all that is asked: by roots, by every request made, and along every edge that applies at the end |
| LockExtras.UniformRunsAgree | scripts/generate_runtime_requirements.py:90-144 | under the same condition two runs over the same roots in any order end with the same packages and extras |
| LockExtras.RootsRecordTheFirst | scripts/generate_runtime_requirements.py:104-106 | after the roots every package waits with the extras of its first root |
| LockExtras.RootExtraKeptExactlyWhen | scripts/generate_runtime_requirements.py:90-144 | an extra that no edge brings is recorded at the end of a run if and only if the first root of its package asks for it |
| LockExtras.RootExtrasKeptExactlyWhen | scripts/generate_runtime_requirements.py:90-144 | where edges carry no extras, all root extras are recorded if and only if no root asks more than the first root of its package |
| LockExtras.RequestedExtraIsLost | scripts/generate_runtime_requirements.py:99-102 | with roots `a`, `a[x]` every run ends without the extra and without what it needs |
| LockExtras.RequestedExtraIsKept | scripts/generate_runtime_requirements.py:99-102 | with the same roots in the other order it does not |
| LockExtras.CloseBareFirst | scripts/generate_runtime_requirements.py:90-144 | the run on the first of the two root lists returns `a` alone |
| LockExtras.CloseExtraFirst | scripts/generate_runtime_requirements.py:90-144 | the run on the second returns `a` and `b` |
| LockFold.LockedPackages | scripts/generate_runtime_requirements.py:56-83 | every name with an entry that counts is folded, to its last entry or to its sorted versions |
| LockFold.Add | scripts/generate_runtime_requirements.py:71-82 | the step for one entry: unchanged, replaced, or ambiguous |
| LockFold.AmbiguousExactlyWhen | scripts/generate_runtime_requirements.py:71-82 | ambiguous if and only if two distinct versions count, and then exactly these are listed, sorted |
| LockFold.FoldIgnoresOrder | scripts/generate_runtime_requirements.py:59-83 | names, ambiguity and versions do not depend on the order of the entries |
| LockFold.WholeFoldIgnoresOrderExactlyWhen | scripts/generate_runtime_requirements.py:59-83 | the whole folded lock, dependencies included, is the same for every order if and only if the entries of each package with a single version say the same |
| CatalogRepair.PlanRepairs | scripts/reconcile_demo_catalog_identities.py:48-94 | one repair per row that needs it, in row order, and no other: a row needs one if and only if exactly one item has an equal or prefix-related name, and has another SKU, and the row has a category, and category and SKU prefix do not both agree; the repair carries that item's SKU and category |
| CatalogRepair.PlannedExactlyWhen | scripts/reconcile_demo_catalog_identities.py:59-93 | the same condition for one row, without the search for matches: which item it is, and what the repair says |
| CatalogRepair.PlanSpelledOut | scripts/reconcile_demo_catalog_identities.py:48-94 | the same for any plan: the positions of its rows, increasing, all that need a repair |
| CatalogRepair.PlanIsFull | scripts/reconcile_demo_catalog_identities.py:48-94 | over a table with unique SKUs any shuffle of the plan repairs each such row once |
| CatalogRepair.Catalogue.ApplyRepairs | scripts/reconcile_demo_catalog_identities.py:97-146 | the final state and every counter are those of the repairs taken in order, and the keys stay unique |
| CatalogRepair.Catalogue.ApplyRepair | scripts/reconcile_demo_catalog_identities.py:105-145 | one repair: state and counters |
| CatalogRepair.Catalogue.RepairTables | scripts/reconcile_demo_catalog_identities.py:122-142 | every fact table is repaired, in any order |
| CatalogRepair.Catalogue.RepairOneTable | scripts/reconcile_demo_catalog_identities.py:125-142 | the update, or on a unique-key violation the deletion of the old rows, with its counter |
| CatalogRepair.RepairConverges | scripts/reconcile_demo_catalog_identities.py:48-146 | planning after a full plan has been applied finds nothing, for every order, chain and cycle |
| CatalogRepair.RepairKeepsValid | scripts/reconcile_demo_catalog_identities.py:108-121 | product SKUs and business keys stay unique |
| CatalogRepair.RepairRemovesOldSku | scripts/reconcile_demo_catalog_identities.py:118-144 | no row names the old SKU afterwards |
| CatalogRepair.RepairKeepsReferences | scripts/reconcile_demo_catalog_identities.py:108-144 | a surviving fact row that named a product still names one |
| CatalogRepair.RowDroppedExactlyWhen | scripts/reconcile_demo_catalog_identities.py:132-142 | a row is dropped if and only if it has the old SKU and in its table a business key of the old SKU is taken by the new one |
| CatalogRepair.FactsAreRouted | scripts/reconcile_demo_catalog_identities.py:105-142 | a surviving fact row is the original with its SKU sent through the repairs in order |
| CatalogRepair.AllKeepsValid | scripts/reconcile_demo_catalog_identities.py:104-146 | uniqueness over a whole plan |
| CatalogRepair.AllKeepReferences | scripts/reconcile_demo_catalog_identities.py:104-146 | references over a whole plan |
| CatalogRepair.FactsFollowExactlyWhen | scripts/reconcile_demo_catalog_identities.py:105-142 | the facts of every repaired product follow it if and only if no repair renames to a SKU that a later one renames away |
| CatalogPlan.PlanKeepsFactsExactlyWhen | scripts/reconcile_demo_catalog_identities.py:105-142 | for a full plan, in every set of tables, surviving facts of a repaired product name it under its new SKU if and only if the plan has no such handover |
| CatalogPlan.ChainMisroutesFacts | scripts/reconcile_demo_catalog_identities.py:48-146 | a planned chain of two repairs after which the first product's row is gone and its fact names the second product |
| CatalogPlan.ProductDroppedExactlyWhen | scripts/reconcile_demo_catalog_identities.py:108-121 | a repaired product row is dropped if and only if its new SKU is taken by then; otherwise it ends with the new SKU and category and is otherwise as it was |
| CatalogPlan.OtherProductsStay | scripts/reconcile_demo_catalog_identities.py:104-146 | a product row that is not repaired stays as it is |
| CatalogPlan.SkusOfPlan | scripts/reconcile_demo_catalog_identities.py:104-146 | which SKUs are taken after each part of a plan |
| CatalogPlan.PlanConservesProducts | scripts/reconcile_demo_catalog_identities.py:121-145 | product rows before are product rows after plus those counted as merged |
| CatalogRepair.RepairConservesRows | scripts/reconcile_demo_catalog_identities.py:129-142 | in a fact table, rows before are rows after plus rows counted as merged |
| CatalogRepair.AllConserveRows | scripts/reconcile_demo_catalog_identities.py:103-146 | the same over a whole plan |
| CatalogRepair.RepairCountsEveryRow | scripts/reconcile_demo_catalog_identities.py:121-145 | every fact row with the old SKU is counted once, all as updated or all as merged, and each repair counts one product |
| CatalogRepair.EveryRepairIsCounted | scripts/reconcile_demo_catalog_identities.py:104-146 | over a whole plan, products updated and products merged add up to the number of repairs |
| CasePrune.Store.SelectCaseIds | scripts/prune_fulfillment_cases.py:49-65 | exactly the non-empty ids that are not kept and not dated at or after the cutoff, each once |
| CasePrune.Store.DumpBackup | scripts/prune_fulfillment_cases.py:79-90 | the file holds the cases and their versions; its previous content is gone |
| CasePrune.Store.Delete | scripts/prune_fulfillment_cases.py:93-98 | removes these cases and their versions and nothing else, with the two counts |
| CasePrune.Store.Prune | scripts/prune_fulfillment_cases.py:135-156 | the step of a prune: nothing, a dry run, or backup and delete |
| CasePrune.Store.Restore | scripts/prune_fulfillment_cases.py:101-121 | the step of a restore, row by row; a missing file is reported |
| CasePrune.StepIsSafe | scripts/prune_fulfillment_cases.py:79-121 | every event with a fresh file name keeps every original row, unchanged, in the tables or a file |
| CasePrune.RunIsSafe | scripts/prune_fulfillment_cases.py:79-121 | so does every run |
| CasePrune.PruneIsSafeExactlyWhen | scripts/prune_fulfillment_cases.py:81-82 | under any file name a prune is safe if and only if the overwritten file holds nothing that cannot be found elsewhere |
| CasePrune.SameSecondLosesRows | scripts/prune_fulfillment_cases.py:81-82 | two prunes in one second lose the rows of the first |
| CasePrune.RestoreNeverOverwrites | scripts/prune_fulfillment_cases.py:105-111 | a restore changes and removes no row |
| CasePrune.RestoringEverythingUndoesTheRun | scripts/prune_fulfillment_cases.py:101-121 | after any run, restoring all files in any order gives back the original tables |
| CasePrune.KeptCasesStay | scripts/prune_fulfillment_cases.py:57-58 | a case that every prune keeps stays, with its versions, through any run |
| CasePrune.RecentCasesStay | scripts/prune_fulfillment_cases.py:59-63 | a case dated at or after the cutoff of every prune and rolled-back prune stays, with its versions, through any run |
| CasePrune.PruneTakesExactly | scripts/prune_fulfillment_cases.py:49-65 | one prune removes a case if and only if its id is non-empty and not kept and there is no cutoff, or no date, or the date is before the cutoff; its versions go with it, and all the rest stays as it is |
| CasePrune.DryRunChangesNothing | scripts/prune_fulfillment_cases.py:142-148 | a dry run leaves tables and files as they are |
| CasePrune.BackupHoldsTheTaken | scripts/prune_fulfillment_cases.py:79-98 | the file of a prune that changes anything holds exactly the rows that left the tables, unchanged |
| CasePrune.NoOrphansEver | scripts/prune_fulfillment_cases.py:79-121 | no version is ever without its case, in the tables or in a file |
| Luhn.TotalIsWeighted | scripts/scan_no_pan.py:67-73 | the two backward slices add up to the digit-by-digit weighted sum of Annex B of ISO/IEC 7812-1 |
| Luhn.SubstitutionIsDetected | scripts/scan_no_pan.py:67-73 | every wrong digit is detected |
| Luhn.TranspositionIsDetectedExactlyWhen | scripts/scan_no_pan.py:67-73 | a swap of unequal neighbours is missed if and only if they are 0 and 9 |
| Luhn.CheckDigitIsUnique | scripts/scan_no_pan.py:67-73 | every prefix has exactly one valid check digit |
| PanScanner.CandidateEnd | scripts/scan_no_pan.py:36-42 | the matcher returns an end that satisfies the expression, and none only if there is none |
| PanScanner.DigestEnd | scripts/scan_no_pan.py:47-49 | the same for digest tokens |
| PanScanner.FoundInOrder | scripts/scan_no_pan.py:80-82 | matches come in order and do not overlap |
| PanScanner.OverlapIsWhole | scripts/scan_no_pan.py:36-42 | a match that overlaps a maximal run of more than six digits is that run |
| PanScanner.RunsAreFoundExactly | scripts/scan_no_pan.py:36-42 | such a run is found, once, if and only if it has 13 to 19 digits, and nothing else overlaps it |
| PanScanner.CandidateIsFoundExactlyWhen | scripts/scan_no_pan.py:36-42 | a number in any of the three forms is found if and only if it is contiguous, or 4-4-4-4 after a multiple of four groups of four digits, or 4-6-5 and not after such a multiple and three more |
| PanScanner.CrossingShape | scripts/scan_no_pan.py:36-42 | a match that runs into another number is 4-4-4-4 and begins one to three groups before it |
| PanScanner.FifthGroupHidesANumber | scripts/scan_no_pan.py:36-42 | in five groups of four the number in the last four is not found |
| PanScanner.CandidateIsReportedExactlyWhen | scripts/scan_no_pan.py:76-100 | and it is reported if and only if, besides, no decimal digit and point come right before it, it is inside no digest token, and without its gaps it is a real number as spelled out by LooksRealExactlyWhen |
| PanScanner.CandidatesHaveCardLength | scripts/scan_no_pan.py:87-89 | every candidate strips to 13 to 19 digits, so the length test rejects nothing |
| PanScanner.CandidateDigits | scripts/scan_no_pan.py:87-88 | what a match strips to is its groups of digits, one after the other |
| PanScanner.LooksRealExactlyWhen | scripts/scan_no_pan.py:67-95 | a number looks real if and only if it has 13 to 19 digits and nothing else, the first is 3, 4, 5 or 6, it is no published test number, and its weighted digit sum is a multiple of ten |
| PanScanner.DigestsAreFoundExactly | scripts/scan_no_pan.py:47-49 | every digest token of the text is found, and nothing else |
| PanScanner.BisectRight | scripts/scan_no_pan.py:96 | the insertion point after all equal elements |
| PanScanner.LastStartDecides | scripts/scan_no_pan.py:96-98 | for ordered disjoint spans, the last one that starts no later decides containment in any |
| PanScanner.InsideByBisect | scripts/scan_no_pan.py:80-98 | the bisect test is "some digest contains the match" |
| PanScanner.Accepts | scripts/scan_no_pan.py:83-98 | the tests in their order accept exactly the accepted candidates |
| PanScanner.FindPansInText | scripts/scan_no_pan.py:76-100 | reports the stripped text of the accepted candidates, in order |
| PanScanner.ReportMatchesFindings | scripts/scan_no_pan.py:82-100 | report and accepted spans correspond one to one |
| PanScanner.FindingsAreTheAccepted | scripts/scan_no_pan.py:82-100 | a span is a finding if and only if it is a match and accepted |
| PanScanner.RunIsReportedExactlyWhen | scripts/scan_no_pan.py:76-100 | a run of more than six digits is reported if and only if no decimal digit and point come right before it, it is inside no digest token, and it is such a real number |
| Bits.OrBit | scripts/embed_steg_payload.py:79-80 | setting a bit below a multiple of a higher power adds it |
| Bits.BitsRoundTrip | scripts/embed_steg_payload.py:65-71 | reading the bits of a number back gives it modulo 2^width |
| Utf8.DecodeUndoesEncode | scripts/embed_steg_payload.py:68 | decoding undoes encoding (section 3 of RFC 3629) |
| Utf8.EncodeUndoesDecode | scripts/embed_steg_payload.py:84 | on well-formed bytes encoding undoes decoding |
| Utf8.ReplacingIsDecoding | scripts/embed_steg_payload.py:84 | on well-formed bytes nothing is replaced |
| Utf8.ReplacingIsUndoneExactlyWhen | scripts/embed_steg_payload.py:84 | encoding what was decoded gives the bytes back if and only if they were well-formed |
| Utf8.ReplacesMaximalSubpart | scripts/embed_steg_payload.py:84 | elsewhere one replacement character stands for as many bytes as begin some character's encoding, and at least one |
| Utf8.CutTextIsShorter | scripts/embed_steg_payload.py:84 | an encoding that lacks four bytes or more decodes to fewer characters |
| Utf8.NulCutsText | scripts/embed_steg_payload.py:81-84 | cutting the bytes at the first zero cuts the text at the first NUL |
| StegCodec.BytesToBits | scripts/embed_steg_payload.py:65-71 | eight bits per byte, most significant first |
| StegCodec.Assemble | scripts/embed_steg_payload.py:142-143 | the or-accumulator gives the number of the bits, at the top of its width |
| StegCodec.BitsToBytes | scripts/embed_steg_payload.py:76-83 | the bytes of the whole groups up to the first zero byte |
| StegCodec.BitsToText | scripts/embed_steg_payload.py:74-84 | these bytes decoded, with replacement of what is ill-formed |
| StegCodec.Embed | scripts/embed_steg_payload.py:91-125 | length and payload in the low red bits, or the payload is rejected |
| StegCodec.Extract | scripts/embed_steg_payload.py:128-149 | the text of the announced bytes up to the first zero, or the length is rejected |
| StegCodec.ExtractionSucceedsExactlyWhen | scripts/embed_steg_payload.py:139-146 | for every image: with n the number written in the low red bits of the first 32 pixels, extraction succeeds if and only if there are 32 pixels and 0 < n <= the number of pixels after them; otherwise it fails, and from 32 pixels on the error names n |
| StegCodec.ExtractionReadsWhatIsWritten | scripts/embed_steg_payload.py:128-149 | and then it gives, decoded, the bytes written in the next n / 8 groups of eight pixels, up to the first zero byte |
| StegCodec.EmbeddingFailsExactlyWhen | scripts/embed_steg_payload.py:107-111 | embedding fails if and only if there are fewer than 32 pixels and eight for each byte |
| StegCodec.ExtractAfterEmbed | scripts/embed_steg_payload.py:91-149 | what comes back for every payload and image, whatever was embedded before |
| StegCodec.WholePayloadComesBackExactlyWhen | scripts/embed_steg_payload.py:91-149 | the payload comes back whole if and only if it is non-empty, without zero bytes, and under 2^29 bytes |
| StegCodec.TextComesBack | scripts/embed_steg_payload.py:91-149 | a text comes back up to its first NUL character |
| StegCodec.WholeTextComesBackExactlyWhen | scripts/embed_steg_payload.py:91-149 | a text comes back whole if and only if it is non-empty, without NUL, and its encoding is under 2^29 bytes |
| StegCodec.OnlyLowRedBitsChange | scripts/embed_steg_payload.py:113-119 | nothing changes but the low red bits of the first 32 + n pixels |
| StegCodec.SmallImagesAreRejected | scripts/embed_steg_payload.py:107-146 | both directions reject every image under 32 pixels |
| Apportionment.QuotasAddUp | scripts/generate_demo_transactions_csv.py:151-153 | the quotas of a month add up to its target |
| Apportionment.QuotaIsProportional | scripts/generate_demo_transactions_csv.py:151-153 | the quota of a day is to the target as its weight is to all weights |
| Apportionment.RemainderIsSmall | scripts/generate_demo_transactions_csv.py:154-155 | what rounding down leaves is at least zero and less than one per day |
| Apportionment.RankByFraction | scripts/generate_demo_transactions_csv.py:156 | the stable sort by descending fraction |
| Apportionment.Apportion | scripts/generate_demo_transactions_csv.py:149-161 | the counts add up to the target, are the floor of the quota or one more, no day is passed over for one with a smaller fraction, and each count is less than one away from its proportional share of the target |
| Apportionment.FairIsProportional | scripts/generate_demo_transactions_csv.py:149-161 | in any fair split the count of a day, times the sum of the weights, is within less than that sum of the target times its weight |
| Apportionment.ExtraHasFraction | scripts/generate_demo_transactions_csv.py:154-159 | a day whose quota is whole never gets an extra unit |
| Apportionment.GroupByMonth | scripts/generate_demo_transactions_csv.py:138-141 | every month's days, in order, months by first appearance |
| Apportionment.DailyCounts | scripts/generate_demo_transactions_csv.py:130-162 | fails exactly when a month without a target would draw from empty bounds; otherwise every day gets a count, a month with a target a fair split for weights in the drawn range, another one counts between the bounds |
| Receipts.DropDearest | scripts/generate_demo_transactions_csv.py:202-204 | a non-empty subsequence within the cap or of one line, nothing cheaper dropped than kept, nothing dropped without need |
| Receipts.SoldWithinCap | scripts/generate_demo_transactions_csv.py:202-208 | a basket with some line of at most the cap is sold within it; of one whose lines all exceed it, a single piece of a cheapest line is sold |
| Receipts.SoldLines | scripts/generate_demo_transactions_csv.py:202-208 | no line as sold is new or larger than drawn, and no basket is emptied |
| Receipts.SoldAsDrawn | scripts/generate_demo_transactions_csv.py:202-208 | unless all its lines exceed the cap, a basket loses whole lines only, as DropDearest says, and none if it is within the cap |
| Receipts.BuildRows | scripts/generate_demo_transactions_csv.py:180-255 | consecutive receipts over the days, with the transaction and the rows of each basket as sold |
| Receipts.DaysAreInOrder | scripts/generate_demo_transactions_csv.py:192-198 | receipt numbers follow the days |
| Receipts.DaysHaveTheirCounts | scripts/generate_demo_transactions_csv.py:192-196 | every day has exactly its count of receipts |
| Receipts.TxBalances | scripts/generate_demo_transactions_csv.py:210-215 | total and discount make up subtotal, tax and shipping; discount and tax are within rounding of their rates; shipping is free from the threshold on |
| Receipts.TxFollowsDraw | scripts/generate_demo_transactions_csv.py:210-215 | the discount is the drawn percentage of the subtotal, up to rounding; shipping is free if and only if the subtotal or luck makes it so, and otherwise costs what was drawn |
| Receipts.ReceiptIsConserved | scripts/generate_demo_transactions_csv.py:210-253 | the lines found under a receipt number are those of its basket, numbered from one, with their prices and quantities; they add up to its subtotal and item count, and its amounts balance and follow what was drawn |
| ImportReconcile.ReconcileImportRows | scripts/seed_inventory_from_txt.py:244-262 | one row per SKU in order of first appearance, each the merge of that SKU's rows |
| ImportReconcile.FirstSeenMembers | scripts/seed_inventory_from_txt.py:247-251 | that order has every SKU once |
| ImportReconcile.MergeKeepsObservations | scripts/seed_inventory_from_txt.py:252-255 | the digests are exactly those of the inputs, without repeats |
| ImportReconcile.MergeInventsNothing | scripts/seed_inventory_from_txt.py:252-255 | every observation is one of the inputs' |
| ImportReconcile.FirstObservationsStay | scripts/seed_inventory_from_txt.py:252-255 | the observations are, in order, those of the rows that are the first with their digest |
| ImportReconcile.PriceAndHold | scripts/seed_inventory_from_txt.py:256-261 | with one digest the first row stays as it was, with several the price is withdrawn and the product held |
| ImportReconcile.HeldRowIsBare | scripts/seed_inventory_from_txt.py:256-261 | SKU, name and category are those of the first row; a product with several digests keeps none of its other details |
| ImportReconcile.OrderDoesNotMatter | scripts/seed_inventory_from_txt.py:244-262 | digests, price and held or not do not depend on the order of a product's rows |
| ImportReconcile.FileOrderDoesNotMatter | scripts/seed_inventory_from_txt.py:244-262 | nor on the order of the file |
| ImportReconcile.LabelExactly | scripts/seed_inventory_from_txt.py:256-260 | which of the two hold labels a product gets, as a condition on its records |
| ImportReconcile.LabelIgnoresOrderExactlyWhen | scripts/seed_inventory_from_txt.py:256-260 | for a product with several digests, all orders of its records give one label if and only if it is not the case that there are three records or more, none in conflict, and the priced ones quote one price and have two digests of which one occurs once |
| ImportReconcile.OneLabel | scripts/seed_inventory_from_txt.py:256-260 | which label that is |
| ImportReconcile.BothLabels | scripts/seed_inventory_from_txt.py:256-260 | in the other case, an order for each label |
| ImportReconcile.LabelDependsOnOrder | scripts/seed_inventory_from_txt.py:256-260 | the same three records give different labels in different orders |
| Porcelain.ParsingUndoesRendering | scripts/audit_worktree_ownership.py:191-206 | parsing the rendering of any list of records gives that list |
| Porcelain.RecordsAreRead | scripts/audit_worktree_ownership.py:194-206 | for any entries, git's or not: the records are read in order from entries that are not empty and not original paths, and from all of these; status, path and original are cut out as stated, the original missing only at the end |
| Porcelain.RecordIsShown | scripts/audit_worktree_ownership.py:200-209 | a record gives one row, with its path, after the original path and an arrow for a move; unless that is the name of the scratch directory with nothing after it but slashes of either kind |
| Porcelain.ScratchExactlyWhen | scripts/audit_worktree_ownership.py:207 | the test with replaced and stripped slashes is exactly that |
| Porcelain.StatusRows | scripts/audit_worktree_ownership.py:191-229 | the rows of exactly those records, with their columns, the scratch directory replaced by its own rows |
| Porcelain.GitStatus | scripts/inventory_evidence_archive.py:31-43 | the map of the same records |
| Porcelain.OverlayKeepsLast | scripts/inventory_evidence_archive.py:33-42 | a path is mapped if and only if some record has it, to the status of the last one |
| CatalogIndex.ConsumePage | scripts/index_catalog.py:147-165 | a full page is written as one batch, a short one waits |
| CatalogIndex.Turn | scripts/index_catalog.py:36-94 | after a page, what is written and what waits are exactly the rows read; reading ends only at the end of the table or at a failed query |
| CatalogIndex.RunIndex | scripts/index_catalog.py:32-168 | the upserts are the batches of the rows read, which are all of them unless a query fails or the batch size is 0, when nothing is read |
| CatalogIndex.BatchesCoverTheTable | scripts/index_catalog.py:139-168 | together they are the table's items in order, each once, none larger than the batch size |
| CatalogIndex.ItemsSpelledOut | scripts/index_catalog.py:139-147 | the items are, in order, those of all products whose id and text are not blank, each with the embedding of its own trimmed text |
| Percentile.Percentile | scripts/bench_recommend.py:30-41 | a sample member with at least p percent of the values at or below it and fewer below it, clamped at both ends |
| Percentile.PercentileIsMonotone | scripts/bench_recommend.py:30-41 | not decreasing in p, hence unique |
| Percentile.PercentileIgnoresOrder | scripts/bench_recommend.py:30-41 | independent of the order of the sample |
| Percentile.NearestRank | scripts/bench_recommend.py:40-41 | the value at the nearest rank is the percentile |
| Percentile.Aggregate | scripts/bench_recommend.py:44-55 | the reported stages in sorted order, each once, with p50 <= p95 <= max and its count |
| Percentile.ValuesSpelledOut | scripts/bench_recommend.py:46-55 | the values of a stage are, in order, one from each sample that reports it |

## Left out

- Everything under `src/app`, and the HTTP, browser, cluster, certification and demo drivers: input and output around the cores modelled here.
- Control flow, closures and `del` inside a function: the stage contract is a claim about straight-line code. Function headers, which the walk also visits, are not part of the body. Ranges are taken at statement boundaries.
- StageContract.ContractPreservesBehaviour: a name that a function binds anywhere is local to all of it, so a read before the binding raises even if a global has that name, where a stage would read the global. The shared entry store does not tell the two apart; this touches only runs that raise.
- Stages see the entry store (parameters and globals). The order in which `ast.walk` visits nodes does not matter to the sets and is not modelled.
- Walrus expressions, imports and `with … as` targets, and the targets of `for`, `except`, `def` and `class`: they bind names that `_assigned_names` does not see, like augmented assignments, and are not part of the modelled statements.
- StageContract.ContractIsRightExactlyWhen: the direction from "right" to "names suffice" excludes bare copies of names, which can make a wrong interface harmless (StageReplay.CopyNeedsNoOutput); StageReplay.OneRunDecides is exact for such code too.
- StageMachine.PreservingInterfaceFits: the same exclusion.
- StageMachine.PreservesExactlyWhenItFits: the same exclusion, for the same direction.
- `analyze_range` and the report of `ctx_access_map.py`: set filters over the same walk.
- Marker evaluation (PEP 508), name canonicalisation and parsing of requirement strings and of TOML are parameters or already done; the marker predicate need not be monotone in the extras. `_render` only formats.
- LockExtras.UniformRequestsAreRecorded: one direction only, like LockExtras.UniformRunsAgree. Whether a request brought by an edge finds its package waiting depends on the order of the whole run, so the converse would be the run itself; for extras that only roots ask for, LockExtras.RootExtraKeptExactlyWhen is exact.
- LockFold.FoldIgnoresOrder: entries of equal version may differ in their dependencies; the last one counts, so only names, ambiguity and versions are independent of the order in general (LockFold.WholeFoldIgnoresOrderExactlyWhen).
- SQL text, JSON conversion of values, foreign keys and triggers. Tables are finite maps by row key, timestamps optional integers. Counters of the repair are keyed by table and kind instead of by a concatenated name.
- The repair script says that a conflicting row is a duplicate identity. Through a chain of SKUs the code can delete a row that has no duplicate and move its facts to another product; the model follows the code (CatalogPlan.ChainMisroutesFacts).
- CatalogRepair.FactsFollowExactlyWhen: speaks of the routes of SKUs through a list of repairs; CatalogPlan.PlanKeepsFactsExactlyWhen carries it over to plans and tables.
- Backup file names and the clock are one event parameter; two prunes in one second are two events with the same name. Ids are never null. The order of rows inside a backup is not modelled.
- ImportReconcile.OrderDoesNotMatter: assumes that equal digests come with equal prices and labels, which holds because the parser reads both off the hashed text and SHA-256 is taken to be injective.
- ImportReconcile.ReconcileImportRows: rows are values, so that the dictionaries of the input list are changed in place is not captured.
- The block, section and field expressions of `parse_inventory`, and the keyword classifiers of several scripts.
- The regular-expression engine: the two expressions are explicit matchers with greedy runs, which is exact because the look-ahead forbids a following digit or word character.
- Image files and the lossless PNG round trip.
- Utf8.EncodeUndoesDecode: concerns the strict decoder, which agrees with the script's on well-formed bytes (Utf8.ReplacingIsDecoding); where bytes are replaced nothing can undo it.
- Floating-point rounding of quotas, percentiles and money: discount and tax are exact hundredths rounded half to even.
- Receipts.BuildRows: the columns that nothing else depends on (time of day, scenario, segment, channel, payment method) are drawn as they come; dates are day numbers; the unused number drawn for a day that has a count, which raises on empty bounds, is not modelled.
- Monthly targets are natural numbers: the argument parser passes on positive ones only.
- Porcelain.StatusRows: the rules behind the other columns of an audit row, and the listing of the scratch directory, are parameters.
- The delta mode of the indexer, whose set of rows may change while it is read; the FAQ part; the counters returned by the upsert.
- CatalogIndex.RunIndex: assumes that product SKUs are unique and the table does not change, so that a page is a slice of one sorted table.
