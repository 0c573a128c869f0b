# Verification of VIGIL APEX audit, graph and federation logic

This project models the parts of VIGIL APEX whose correctness rests on an argument
rather than on a glance at the code, and proves that argument in Dafny 4.11.
`dafny verify dfyconfig.toml` checks all of it.

**Graph detectors.** `CycleFinder` is the budgeted depth-first search for payment
cycles; `SearchOrder` says in which order such a search comes across them and
`SearchCost` how often it is entered, both from the edges alone; `CycleLimits` gives two
kinds of snapshot on which it loses a cycle. `ComposeDeps` is the white/grey/black search
over the compose file, `ComposeGraph` its walks and their order, `MassCreation` the
sliding window over incorporation dates, `CommunityOutflow` the community counters.
`PaymentGraph` says what a simple cycle is.

**Audit witnesses.** `Merkle` is the root computation with its inclusion proofs,
`AnchorContract` the guards of VIGILAnchor.sol, `AnchorLoop` the hourly loop with
failures at every point, `HighSigLoop` the fast lane, `CrossWitness` the comparison
with Fabric in one sweep and in windows, `Reconcile` the reconciliation plan.

**Caches and pools.** `KeyResolver` is the Vault key resolver with its two caches and
two single-flight maps, `CrlBody` its reading of a revocation list, `OcrPool` the worker
pool. JavaScript runs one thread, so the code between two awaits is one step, and a run
is any sequence of steps.

**Text.** `CanonicalJson`, `MarkerMerge`, `Deterministic` (amounts and dates) and
`PdfStrings`. `JsStrings` holds the string order, sorting, joining and trimming they
share, `Wrappers` the optional result.

Components that change their state in the source are classes and loops here; each
method is tied to a function of the old state, or states its result outright, and the
run-level results are lemmas about those functions. What the network, the databases
and the chain answer is a parameter of the step, with every failure outcome included.

## Where the code does not do what its comments say

- `detectTightCommunityOutflow` never reports anything: the two ratios it compares add
  up to at most 1 on every snapshot, and its thresholds add up to 1.4
  (`CommunityOutflow.RatiosSumToAtMostOne`). Two thresholds a / d and b / d can be met
  together exactly if they add up to at most 1 (`CommunityOutflow.ThresholdsReachableIff`).
- `mergeWithExisting` and `mergeAuto` compare `newEnd` with -1 after adding the marker
  length, so the missing-closing-marker guard never fires. Regeneration is idempotent
  exactly when the regenerated text has its markers in order or no opening marker
  (`MarkerMerge.IdempotentIff`).
- A certificate serial written with `-` separators is found on no revocation list,
  because lists are normalised and the serial is only lower-cased
  (`CrlBody.RevocationRecognisedIff`). No run ever answers that such a key is revoked, and
  it is handed out at any time after its revocation: staleness is bounded exactly for
  serials without separators (`KeyResolver.StalenessBoundedIff`).
- `LedgerVerifier.verifyCommitment` compares the committed root with the last row's body
  hash, while the anchor loop commits a Merkle root: unless that row's hash is itself one
  of the hashes in the tree, the comparison succeeds exactly on one-row ranges
  (`AnchorLoop.TailCheckPassesOnlySingleRows`).
- The fast lane commits `[t, t]` with `t` a time in seconds. The contract accepts that
  only when `t` is the next sequence number (`HighSigLoop.FastLaneNeedsTheNextSeq`).
- `detectCycles` says a cap-hit is marked on the last candidate. When the results run out
  before the steps, `capped` is set only if some arc of an open path is still to come, so
  the mark is there exactly if the last reported cycle takes an arc that is not the last
  one its vertex lists (`CycleFinder.DetectCycles`). Where no vertex branches the mark is
  never set: on 5,001 disjoint triangles a cycle is lost with steps to spare and nothing
  says so (`CycleLimits.DetectManyTriangles`). With fewer than 5,000 vertex sets to report
  the mark means exactly that the steps ran out.
- Two different cycles share a deduplication key if identifiers contain `|`, and then one
  is dropped. Within both budgets the result is complete exactly if no two cycles over
  different vertices share a key (`CycleFinder.DetectCycles`); a snapshot of six payments
  loses one (`CycleLimits.DetectBarredTriangles`).
- `OcrPool.init` keeps the workers it created before a `createWorker` that throws, and
  starts from the beginning on the next call, so the pool can end up larger than `size`
  (`OcrPool.OcrPool.Init` says by how much).

## Model

| member | source | states |
|---|---|---|
| CycleFinder.DetectCycles | apps/worker-pattern-discovery/src/graph-anomalies.ts:305-342 | every candidate is a simple directed cycle of length 3..maxLength, carrying the flag of the first listed edge from its last vertex to its first; no two share a key or a vertex set; each is the first cycle in search order (start vertices by their first edge, then neighbours by the first edge to them) whose key is not yet reported, starts at the vertex whose first edge is listed earliest, and the candidates come in that order; candidates plus remaining results are 5,000 and entries plus remaining steps 500,000, and while results are left the remaining steps are 500,000 less the cost of the snapshot, or none; with both budgets left every such cycle is reported iff no two over different vertices share a key; with steps left, results are left iff fewer than 5,000 keys cover the cycles; the last candidate is marked "steps" iff the steps ran out, "candidates" iff only the results did and its cycle leaves an arc behind, and no other candidate is marked |
| CycleFinder.ResultIsDetermined | apps/worker-pattern-discovery/src/graph-anomalies.ts:305-397 | two results that satisfy this contract and are equally long have the same candidates in the same order, up to the mark on the last |
| CycleFinder.CycleSearch.Dfs | apps/worker-pattern-discovery/src/graph-anomalies.ts:344-367 | entered with depth = path length - 1; keeps the ledger of sound, pairwise distinct candidates and both budget sums; takes as many entries as there are simple paths below this one, fewer only if a budget ran out; unless one did, every admissible cycle along the path is registered on return; if the results ran out, the last candidate is a new cycle along the path and `capped` is set iff that cycle leaves an arc behind from this depth on |
| CycleFinder.CycleSearch.Explore | apps/worker-pattern-discovery/src/graph-anomalies.ts:367-397 | the loop over the neighbours: the same guarantees, with one arc after the other covered |
| CycleFinder.CycleSearch.Follow | apps/worker-pattern-discovery/src/graph-anomalies.ts:372-396 | one neighbour: afterwards every admissible cycle leaving the path along this edge is registered, and if the results ran out here the last candidate leaves along it |
| CycleFinder.CycleSearch.Close | apps/worker-pattern-discovery/src/graph-anomalies.ts:373-392 | a closing path is reported once per key |
| CycleFinder.BuildAdjacency | apps/worker-pattern-discovery/src/graph-anomalies.ts:311-315 | every vertex's list is its outgoing edges in snapshot order, and the keys are the sources in the order of their first edges, each once |
| CycleFinder.ArcMayBeFollowed | apps/worker-pattern-discovery/src/graph-anomalies.ts:371-376 | when the search comes to an arc, every cycle earlier in search order has its key registered; so an unknown closing cycle is closed by the first listed edge |
| SearchCost.OneWayTotal | apps/worker-pattern-discovery/src/graph-anomalies.ts:323-371 | where no vertex branches, the whole search takes at most maxLength + 1 entries an edge |
| CycleFinder.AllArcsExplored | apps/worker-pattern-discovery/src/graph-anomalies.ts:367-396 | covering every listed neighbour covers every cycle through the path |
| CycleFinder.SameVerticesSameKey | apps/worker-pattern-discovery/src/graph-anomalies.ts:376-379 | simple paths over the same vertices have the same deduplication key |
| CycleFinder.SameKeySameVertices | apps/worker-pattern-discovery/src/graph-anomalies.ts:376-379 | for `\|`-free ids the key determines the vertex set |
| CycleFinder.BarFreeKeysTellApart | apps/worker-pattern-discovery/src/graph-anomalies.ts:377-379 | if no identifier contains `\|`, cycles over different vertices have different keys, so the result is complete within both budgets |
| CycleLimits.KeyCollision | apps/worker-pattern-discovery/src/graph-anomalies.ts:377-378 | with `\|` in identifiers two triangles without a common vertex have one key |
| CycleFinder.OneWayLeavesNothing | apps/worker-pattern-discovery/src/graph-anomalies.ts:367-371 | where no vertex has two outgoing edges, no cycle leaves an arc behind, so no full result is marked |
| CycleLimits.DetectManyTriangles | apps/worker-pattern-discovery/src/graph-anomalies.ts:323-341 | on 5,001 to 23,809 disjoint triangles a cycle is missing with steps left, and no candidate is marked |
| CycleLimits.DetectBarredTriangles | apps/worker-pattern-discovery/src/graph-anomalies.ts:376-379 | on two triangles with `\|` in their identifiers, far from both budgets, one cycle is missing and nothing is marked |
| MassCreation.DetectSuddenMassCreation | apps/worker-pattern-discovery/src/graph-anomalies.ts:213-254 | a group yields a candidate exactly when five different members have all dates within 14 days, never two; the candidate names five members that follow one another in date order (ties in snapshot order), no cluster of the group starting earlier; groups are reported in the order of their first members |
| MassCreation.NamedClusterMeans | apps/worker-pattern-discovery/src/graph-anomalies.ts:228-246 | such a candidate told from the nodes: five ids in order, dates at most 1,209,600,000 ms apart, the days between the first and the last rounded with halves up |
| MassCreation.FirstWindow | apps/worker-pattern-discovery/src/graph-anomalies.ts:226-251 | the window loop over one group finds a cluster iff there is one |
| MassCreation.ClusterHasWindow | apps/worker-pattern-discovery/src/graph-anomalies.ts:228-236 | any five members within 14 days show up as five consecutive entries of the sorted group that start no later |
| MassCreation.Group | apps/worker-pattern-discovery/src/graph-anomalies.ts:218-225 | the groups are exactly the members by key, in snapshot order, and the keys stand in the order of their first members |
| MassCreation.GroupKeyCases | apps/worker-pattern-discovery/src/graph-anomalies.ts:218-224 | only companies with a date, the address before the owner, an empty text counting as none |
| MassCreation.SortByDateStable | apps/worker-pattern-discovery/src/graph-anomalies.ts:228-230 | members with the same date keep their order |
| MassCreation.SortByDateCorrect | apps/worker-pattern-discovery/src/graph-anomalies.ts:228-230 | the sort is an ordered permutation |
| CommunityOutflow.DetectTightCommunityOutflow | apps/worker-pattern-discovery/src/graph-anomalies.ts:168-211 | returns no candidate on any snapshot |
| CommunityOutflow.CountersBalance | apps/worker-pattern-discovery/src/graph-anomalies.ts:178-189 | total incoming = internal + incoming from outside, and at least as many edges touch the community |
| CommunityOutflow.RatiosSumToAtMostOne | apps/worker-pattern-discovery/src/graph-anomalies.ts:190-195 | the internal ratio and the outflow ratio add up to at most 1 |
| CommunityOutflow.SumOfOneIsReached | apps/worker-pattern-discovery/src/graph-anomalies.ts:178-195 | the bound is attained for every split of the edges |
| CommunityOutflow.ThresholdsReachableIff | apps/worker-pattern-discovery/src/graph-anomalies.ts:190-195 | some snapshot and member set reach ratios a / d and b / d iff a + b <= d |
| ComposeDeps.FindCycles | scripts/check-compose-deps.ts:129-162 | returns no cycle iff the dependency graph (self-loops removed, unknown names dropped, last definition of a name) is acyclic; every closed walk uses the closing edge of a reported cycle; every reported path is a closed walk repeating only its end, and is what the first path (in file order) to a service and a step back onto that path enclose; every such step back is reported, and while no service repeats a dependency they come in the order of the file, none twice; every service is expanded exactly once |
| ComposeDeps.CycleScan.Dfs | scripts/check-compose-deps.ts:136-155 | keeps the grey services equal to the stack, so `start >= 0` always holds; restores the stack; on return everything below the service has been visited, and the service has finished or closes a reported cycle |
| ComposeDeps.CycleScan.Expand | scripts/check-compose-deps.ts:145-155 | the white case leaves the service finished and the stack as it was |
| ComposeDeps.CycleScan.CloseCycle | scripts/check-compose-deps.ts:139-143 | the grey case reports the stack above the service, with the service again, every time |
| ComposeDeps.CycleScan.VisitDeps | scripts/check-compose-deps.ts:145-153 | the loop visits each dependency in turn, itself left out |
| ComposeGraph.OneFirstPath | scripts/check-compose-deps.ts:136-155 | of all paths to a service exactly one is first in file order, so the reported cycles are determined |
| ComposeDeps.TopologicalOrderIsAcyclic | scripts/check-compose-deps.ts:129-162 | a finishing order that respects every edge but the closing ones leaves no closed walk without one of those |
| ComposeDeps.FindSelfLoops | scripts/check-compose-deps.ts:119-127 | reports exactly the services that list themselves, in file order, each once |
| ComposeDeps.Gate | scripts/check-compose-deps.ts:164-200 | exit code 0 iff there are services and the declared relation, self-loops included, has no closed walk; 2 iff there are none |
| Merkle.ComputeRoot | apps/worker-anchor/src/index.ts:295-324 | the layer loop terminates with the root of the recursive tree that repeats the last node |
| Merkle.TreeOfNext | apps/worker-anchor/src/index.ts:310-322 | climbing one layer leaves the tree's root unchanged |
| Merkle.SmallRoots | apps/worker-anchor/src/index.ts:299-324 | the roots of up to five rows written out: left before right, an odd last digest with itself |
| Merkle.InclusionProofVerifies | apps/worker-anchor/src/index.ts:233-238 | every leaf of n has a proof of ceil(log2 n) digests that folds to the root |
| Merkle.InclusionProofSound | apps/worker-anchor/src/index.ts:233-238 | unless two of the pairs hashed in the tree and in the check collide, only the leaf itself, with that very proof, folds to the root at its position |
| Merkle.RootInjective | apps/worker-anchor/src/index.ts:290-324 | equally long ranges with equal roots are equal, unless two of the pairs hashed for the two roots collide |
| Merkle.RootIsANode | apps/worker-anchor/src/index.ts:310-322 | the root of more than one row is the hash of a pair hashed on the way |
| Merkle.RepeatedLastLeafCollides | apps/worker-anchor/src/index.ts:312-314 | an odd range and the same range with its last row repeated have one root, for any hash |
| AnchorContract.AcceptedCommitKeepsContiguity | contracts/contracts/VIGILAnchor.sol:89-126 | an accepted commit keeps the log contiguous from 1 and moves lastToSeq to its end |
| AnchorContract.GuardFires | contracts/contracts/VIGILAnchor.sol:89-126 | which guard fires on which commit, and that none does iff the range is in order, at most 1,000,000 wide, next in line and its root not zero |
| AnchorContract.ContiguousLogTiles | contracts/contracts/VIGILAnchor.sol:89-126 | a contiguous log covers each of 1..lastToSeq once and nothing else |
| AnchorLoop.AnchorWorker.TickOnce | apps/worker-anchor/src/index.ts:196-285 | one loop iteration does what Step says to the three stores, adds at most one row, right behind the last and with the hash the commit returned, and reports anchored, idle or failed accordingly |
| AnchorLoop.AnchorWorker.CommitAndRecord | apps/worker-anchor/src/index.ts:242-271 | commit then insert, with each of them reverting, failing, or landing and throwing |
| AnchorLoop.AnchorWorker.BootCheck | apps/worker-anchor/src/index.ts:147-178 | reports a divergence iff the two cursors differ, with both values |
| AnchorLoop.EveryRunConsistent | apps/worker-anchor/src/index.ts:196-285 | in every run the database is a prefix of the on-chain log, which is contiguous and at most one commit ahead, and each root is the Merkle root of its rows in a range of at most 100,000 |
| AnchorLoop.DatabaseTiles | apps/worker-anchor/src/index.ts:205-231 | database ranges tile 1..lastAnchoredTo without gap or overlap, each at most 100,000 wide |
| AnchorLoop.TickWedgesIff | apps/worker-anchor/src/index.ts:244-270 | a tick puts the chain ahead exactly when its commit lands and its row does not |
| AnchorLoop.AheadIsForever | apps/worker-anchor/src/index.ts:127-145 | once the chain is ahead neither log ever changes again |
| AnchorLoop.BootCheckExact | apps/worker-anchor/src/index.ts:147-178 | in reachable states the boot check fires exactly when the chain is ahead |
| AnchorLoop.GoodTickAdvances | apps/worker-anchor/src/index.ts:217-226 | while the logs agree an undisturbed tick anchors a full batch or the rest |
| AnchorLoop.GoodTicksCatchUp | apps/worker-anchor/src/index.ts:217-226 | n undisturbed ticks advance the cursor by n full batches or to the tail |
| AnchorLoop.AnchoredRowsProvable | apps/worker-anchor/src/index.ts:233-242 | every anchored row has an inclusion proof of at most 17 digests against an on-chain root |
| AnchorLoop.TailCheckPassesOnlySingleRows | packages/audit-chain/src/verifier.ts:73-117 | on anchored commitments whose last row's hash is not one of the tree's own hashes, the verifier's tail comparison holds iff the range is a single row |
| HighSigLoop.HighSigWorker.ProcessHighSigBatch | apps/worker-anchor/src/high-sig-loop.ts:48-149 | attempts a prefix of the batch; bails out iff the last five attempts failed and no earlier five did, otherwise attempts everything; counts successes and failures; adds to the chain the events whose commit landed and to the public rows those that also stored and recorded, in order; never attempts a stored event |
| HighSigLoop.HighSigWorker.ProcessOne | apps/worker-anchor/src/high-sig-loop.ts:56-119 | one event: what reaches the chain, the dedup gate and the public row for each outcome |
| HighSigLoop.CommitsAccountedFor | apps/worker-anchor/src/high-sig-loop.ts:59-81 | an event's commits exceed its lost replies and failed setAnchorTx calls by at most one, and by none while it is pending |
| HighSigLoop.EveryRunAccountsForCommits | apps/worker-anchor/src/high-sig-loop.ts:151-191 | the same over any sequence of batches |
| HighSigLoop.FastLaneNeedsTheNextSeq | apps/worker-anchor/src/high-sig-loop.ts:57-59 | the contract accepts [t, t] iff the hash is non-zero and t is lastToSeq + 1 |
| HighSigLoop.FastLaneRefusedOnHourlyLog | apps/worker-anchor/src/high-sig-loop.ts:57-59 | on the log of the hourly loop a commit later than the audit chain is long is refused |
| CrossWitness.VerifyCrossWitness | apps/audit-verifier/src/cross-witness.ts:52-156 | rejects reversed and over-long ranges; otherwise counts the Postgres rows in the range and lists, each in ascending order, exactly the numbers only Postgres has, those only Fabric has, and those whose last hashes differ in more than letter case |
| CrossWitness.VerifyCrossWitnessWindowed | apps/audit-verifier/src/cross-witness.ts:181-234 | returns the count and the three lists of one uncapped sweep, in the same order, with ceil(span / 500,000) windows |
| CrossWitness.SweepSplits | apps/audit-verifier/src/cross-witness.ts:199-213 | appending the sweeps of adjacent ranges is the sweep of their union |
| CrossWitness.SweepExact | apps/audit-verifier/src/cross-witness.ts:100-134 | membership in each list, both ways: missing from Fabric, missing from Postgres, divergent |
| CrossWitness.SweepCompares | apps/audit-verifier/src/cross-witness.ts:89-134 | the same told from the rows themselves, with the number of rows checked: two hashes that differ only in letter case match |
| CrossWitness.ForwardScan | apps/audit-verifier/src/cross-witness.ts:100-118 | the row loop finds the sweep's missing and divergent rows in order |
| CrossWitness.ReverseScan | apps/audit-verifier/src/cross-witness.ts:129-134 | the key loop and its sort give the sweep's Fabric-only rows |
| CrossWitness.FillMap | apps/audit-verifier/src/cross-witness.ts:83-98 | the map holds the last hash of every key, in lower case |
| Reconcile.ComputeReconciliationPlan | apps/worker-reconcil-audit/src/reconcile.ts:84-134 | returns, in order, the actions no witness has, the actions no broadcast commitment covers, and the actions whose hash differs from the last witness in more than letter case |
| Reconcile.PlanNames | apps/worker-reconcil-audit/src/reconcile.ts:84-126 | which actions each list names, told from the rows |
| Reconcile.PlanSplits | apps/worker-reconcil-audit/src/reconcile.ts:93-126 | the lists for two stretches of actions, one behind the other, are the lists for both together |
| Reconcile.IsCovered | apps/worker-reconcil-audit/src/reconcile.ts:113-119 | true iff some range holds the sequence number |
| Reconcile.RangesCover | apps/worker-reconcil-audit/src/reconcile.ts:107-112 | the kept ranges cover what broadcast commitments cover |
| Reconcile.PlanAccountsForEveryAction | apps/worker-reconcil-audit/src/reconcile.ts:93-103 | matched, missing and divergent actions add up to the actions checked |
| Reconcile.CleanMeansWitnessedAndAnchored | apps/worker-reconcil-audit/src/reconcile.ts:140-157 | a summary is clean iff every action has a witness, equals the last one up to letter case, and lies in a commitment with a non-empty transaction hash |
| Reconcile.PlanAgreesWithCrossWitness | apps/worker-reconcil-audit/src/reconcile.ts:85-103 | on the same rows the plan and the cross-witness report name the same missing and divergent rows |
| Reconcile.CoveredUpToTheCursor | apps/worker-reconcil-audit/src/reconcile.ts:105-119 | in reachable anchor states a row is covered iff it is not beyond lastAnchoredTo |
| Reconcile.MissingFromPolygonIsBeyondTheCursor | apps/worker-reconcil-audit/src/reconcile.ts:121-126 | so missingFromPolygon is exactly the actions beyond lastAnchoredTo |
| KeyResolver.VaultPkiKeyResolver.Resolve | apps/worker-federation-receiver/src/key-resolver.ts:189-199 | answers Key(pem) iff the id is well formed and the cache holds pem for it, at most ttl old; drops an entry that is older, and changes nothing else |
| KeyResolver.VaultPkiKeyResolver.ResolveAsync | apps/worker-federation-receiver/src/key-resolver.ts:208-250 | settles with a key iff the cache holds it, at most ttl old, and with null iff the id is malformed; otherwise joins the flight for this key, or begins one, which denies at once iff a list in hand names the serial and sends for the certificate, for the list, or for nothing if the list is on its way |
| KeyResolver.VaultPkiKeyResolver.CrlArrived | apps/worker-federation-receiver/src/key-resolver.ts:338-369 | a list that came is cached, and exactly the waiting keys it names are denied and dropped, in order; a missing or failed one is not cached and denies nobody |
| KeyResolver.VaultPkiKeyResolver.CertArrived | apps/worker-federation-receiver/src/key-resolver.ts:234-246 | a certificate is cached with the time of arrival and handed out; anything else is null and changes no cache |
| KeyResolver.VaultPkiKeyResolver.Proceed | apps/worker-federation-receiver/src/key-resolver.ts:229-234 | a listed serial evicts and denies, any other sends for the certificate |
| KeyResolver.KeyIdParts | apps/worker-federation-receiver/src/key-resolver.ts:191-192 | an identifier is well formed iff it is two to eight of A to Z, a colon, a hex digit, and up to 79 hex digits or dashes |
| KeyResolver.ArrivedKeyAnswers | apps/worker-federation-receiver/src/key-resolver.ts:189-250 | after a certificate arrives at t, with no later invalidation, denial or other certificate for the id, every call up to t + ttl answers its key |
| KeyResolver.FreshKeyAnswers | apps/worker-federation-receiver/src/key-resolver.ts:189-216 | while the cache holds a key at most ttl old, both calls answer it |
| KeyResolver.EveryRunSingleFlight | apps/worker-federation-receiver/src/key-resolver.ts:219-250 | in every run at most one fetch is out per key id and one per region's list |
| KeyResolver.BoundedStaleness | apps/worker-federation-receiver/src/key-resolver.ts:189-250 | no call returns a key later than r + 2 ttl + 2 d after its revocation at r; from then on asynchronous calls settle as revoked |
| KeyResolver.BoundIsTight | apps/worker-federation-receiver/src/key-resolver.ts:331-369 | for every key without separators and every ttl and d some admissible run returns the key at exactly that bound |
| CrlBody.ParseCrlSerials | apps/worker-federation-receiver/src/key-resolver.ts:400-438 | the normalised, non-empty serials of what the body names, spelt in 0-9 and a-f only |
| CrlBody.ListedCases | apps/worker-federation-receiver/src/key-resolver.ts:400-437 | what a body names: nothing over 1 MiB, the JSON entries of a body in braces, and the captures of any other, or if JSON.parse throws |
| CrlBody.CapturesAreMatches | apps/worker-federation-receiver/src/key-resolver.ts:433-437 | the captures are those of all matches of the pattern, each the first behind the one before, both repetitions greedy |
| CrlBody.NormaliseEquatesNumbers | apps/worker-federation-receiver/src/key-resolver.ts:420-435 | two texts normalise alike iff their hex digits agree up to letter case |
| CrlBody.TextFormRoundTrip | apps/worker-federation-receiver/src/key-resolver.ts:425-437 | a printed text list names exactly the serials it was printed from |
| CrlBody.RevocationRecognisedIff | apps/worker-federation-receiver/src/key-resolver.ts:230-233 | a serial without separators is found on exactly the lists that name it, one with separators on no list |
| CrlBody.OtherCaseRecognised | apps/worker-federation-receiver/src/key-resolver.ts:229-233 | a listed serial is recognised in either letter case, with or without colons |
| KeyResolver.DashedNeverRevoked | apps/worker-federation-receiver/src/key-resolver.ts:229-233 | no step of any run tells that such a key is revoked |
| KeyResolver.DashedHasNoBound | apps/worker-federation-receiver/src/key-resolver.ts:229-246 | a key whose serial has separators is handed out at any time, although every list names it |
| KeyResolver.StalenessBoundedIff | apps/worker-federation-receiver/src/key-resolver.ts:189-250 | staleness is bounded by r + 2 ttl + 2 d iff the serial has no separator |
| KeyResolver.LayeredResolveAsync | apps/worker-federation-receiver/src/key-resolver.ts:531-551 | the loop returns what the first layer with an opinion says |
| KeyResolver.KeyNeedsSilenceAbove | apps/worker-federation-receiver/src/key-resolver.ts:531-551 | a key comes back iff some layer holds it and every layer above returned null |
| KeyResolver.VaultFirstDeniesRevoked | apps/worker-federation-receiver/src/key-resolver.ts:524-546 | past the bound the stack denies the key whatever lower layers hold |
| OcrPool.OcrPool.Init | apps/worker-document/src/ocr-pool.ts:28-36 | creates and frees each worker once, and a second call changes nothing; if a createWorker call throws, the workers before it stay and the pool is not initialised, so the next call adds `size` more |
| OcrPool.OcrPool.Checkout | apps/worker-document/src/ocr-pool.ts:57-63 | hands out the last free worker, or queues the caller last, keeping the pool invariant |
| OcrPool.OcrPool.Checkin | apps/worker-document/src/ocr-pool.ts:65-72 | hands the worker to the oldest waiter, or frees it, keeping the pool invariant |
| OcrPool.WorkersPartitioned | apps/worker-document/src/ocr-pool.ts:46-72 | free and lent-out workers are disjoint, duplicate-free and together exactly the workers |
| OcrPool.BusyIsMaximal | apps/worker-document/src/ocr-pool.ts:57-72 | as many jobs run as there are workers or unfinished jobs, whichever is fewer |
| CanonicalJson.CanonicalIsComplete | apps/worker-minfi-api/src/canonical-json.ts:19-32 | two values have the same canonical text iff they are equal up to key order at every depth |
| CanonicalJson.SortKeysDeep | apps/worker-minfi-api/src/canonical-json.ts:23-32 | the recursion with its object loop computes SortDeep |
| CanonicalJson.SortDeepKeysIncrease | apps/worker-minfi-api/src/canonical-json.ts:27-31 | at every depth the keys of every object increase in the order of LessIsPrecedes |
| CanonicalJson.PrintIs | apps/worker-minfi-api/src/canonical-json.ts:19-21 | what is printed: literals, escaped strings, and parts joined by commas, without white space |
| CanonicalJson.NumeralIsNumberText | apps/worker-minfi-api/src/canonical-json.ts:19-21 | every numeral with a sign, a fraction or an exponent is among the number texts the model takes |
| CanonicalJson.EscapeStandsFor | apps/worker-minfi-api/src/canonical-json.ts:19-21 | which characters are escaped, and how |
| CanonicalJson.SortDeepIdempotent | apps/worker-minfi-api/src/canonical-json.ts:23-32 | sorting twice is sorting once |
| CanonicalJson.SortDeepSame | apps/worker-minfi-api/src/canonical-json.ts:23-32 | sorting changes nothing but key order |
| CanonicalJson.SameSortsEqual | apps/worker-minfi-api/src/canonical-json.ts:23-32 | values equal up to key order sort to the same value |
| CanonicalJson.EqualSortsSame | apps/worker-minfi-api/src/canonical-json.ts:23-32 | and only those |
| CanonicalJson.PrintPrefixFree | apps/worker-minfi-api/src/canonical-json.ts:19-21 | printed values are self-delimiting, so printing is injective |
| JsStrings.RankIsCodeUnitOrder | apps/worker-minfi-api/src/canonical-json.ts:28 | the model's character order is the UTF-16 code-unit order of the default sort |
| JsStrings.LessIsPrecedes | apps/worker-minfi-api/src/canonical-json.ts:28 | a text comes before another iff it is a proper prefix or has the lower rank at the first difference |
| JsStrings.LessIsCodeUnitOrder | apps/worker-minfi-api/src/canonical-json.ts:28 | which is the order of the UTF-16 code units |
| JsStrings.CodeUnitsDecode | apps/worker-minfi-api/src/canonical-json.ts:28 | the code units of a character, decoded |
| JsStrings.LowerHasNoCapitals | apps/audit-verifier/src/cross-witness.ts:89-91 | lower case has no ASCII capital left and otherwise the same letters |
| JsStrings.LowerEquatesCases | apps/audit-verifier/src/cross-witness.ts:89-91 | two ASCII texts have the same lower case iff they agree up to letter case |
| JsStrings.SortedUnique | apps/worker-minfi-api/src/canonical-json.ts:28 | a sorted arrangement is determined by its elements, so the sort algorithm does not matter |
| JsStrings.JoinInjective | apps/worker-pattern-discovery/src/graph-anomalies.ts:377 | joining separator-free, non-empty lists loses nothing |
| MarkerMerge.MergeKeepsTheRest | scripts/generate-pattern-catalogue.ts:234-250 | merging replaces the block and preserves the text before and after it exactly |
| MarkerMerge.MergeCases | scripts/generate-pattern-catalogue.ts:234-250 | the four cases: no block to replace, a new block, new markers the wrong way round, a new text without a closing marker |
| MarkerMerge.MergeIdempotent | scripts/generate-pattern-catalogue.ts:234-250 | merging the same regeneration twice is merging it once, for every existing document |
| MarkerMerge.LastMergeWins | scripts/generate-worker-runbooks.ts:146-158 | of two merges into a document with a block only the last counts |
| MarkerMerge.IdempotentIff | scripts/generate-worker-runbooks.ts:146-158 | idempotence on all documents holds iff the regenerated text has its markers in order or no opening marker |
| MarkerMerge.EndGuardNeverFires | scripts/generate-pattern-catalogue.ts:242-244 | the guard's second comparison is never true |
| MarkerMerge.MarkersDoNotOverlap | scripts/generate-pattern-catalogue.ts:185-186 | two markers in a text are the same occurrence or do not touch |
| Deterministic.NormaliseAmount | apps/worker-extractor/src/deterministic.ts:228-251 | an amount written in groups of three behind any separators, or without groups, is read as itself while it is positive and within the cap, and with one or two decimals behind a point or a comma as its rounding |
| Deterministic.AmountWithDecimals | apps/worker-extractor/src/deterministic.ts:231-249 | whatever the text, one or two digits behind a point or a comma are decimals and the rest must be digits and separators, or there is no amount |
| Deterministic.AmountWithoutDecimals | apps/worker-extractor/src/deterministic.ts:231-249 | and without such an end the whole text must be |
| Deterministic.PlausibleMeans | apps/worker-extractor/src/deterministic.ts:247 | an amount counts if it lies between 1 and 10,000,000,000,000 |
| Deterministic.DecimalsMean | apps/worker-extractor/src/deterministic.ts:237 | what counts as decimals: one digit or two |
| Deterministic.StripAdds | apps/worker-extractor/src/deterministic.ts:241 | separators go and everything else stays, character by character |
| Deterministic.SeparatorCodes | apps/worker-extractor/src/deterministic.ts:241 | which characters are separators, by their codes |
| Deterministic.GroupedAmountRoundTrip | apps/worker-extractor/src/deterministic.ts:231-249 | an amount in groups of three, any separator in each gap, reads back as itself while it is positive and within the cap |
| Deterministic.PlainAmountRoundTrip | apps/worker-extractor/src/deterministic.ts:231-249 | so does one without groups |
| Deterministic.DecimalAmountRoundTrip | apps/worker-extractor/src/deterministic.ts:234-246 | with one or two decimals the result is the nearest integer, halves upwards, within the cap |
| Deterministic.ParseToIsoIdempotent | apps/worker-extractor/src/deterministic.ts:303-345 | parseToIso is the identity on its own results |
| Deterministic.YearFirstDatesParse | apps/worker-extractor/src/deterministic.ts:305-310 | a plausible year-first date, month and day in one or two digits, any white space around it, comes out as that date |
| Deterministic.DayFirstDatesParse | apps/worker-extractor/src/deterministic.ts:311-319 | so does a day-first one, with the year in four digits or in two |
| Deterministic.WordDatesParse | apps/worker-extractor/src/deterministic.ts:320-331 | and so does one with any of the fifteen month names, in any letter case, and any white space between the parts |
| Deterministic.DateSeparatorCodes | apps/worker-extractor/src/deterministic.ts:306 | what may stand between the parts of a date in numbers |
| Deterministic.MonthNumberMeans | apps/worker-extractor/src/deterministic.ts:285-301 | the table maps the names of each month, in any letter case, to its number and no other word to any |
| Deterministic.TrimCuts | apps/worker-extractor/src/deterministic.ts:304 | trimming takes white space from both ends, and all of it |
| Deterministic.ParsesExactlyDates | apps/worker-extractor/src/deterministic.ts:303-345 | a text parses iff, trimmed, it writes a date in 1990..2099 with month 1..12 and day 1..31 in one of the three ways, and then the result is that date's ISO text |
| PdfStrings.UnescapePdfLiteral | apps/worker-document/src/pdf-metadata.ts:198-240 | the index loop computes Unescape |
| PdfStrings.UnescapeReadsPieces | apps/worker-document/src/pdf-metadata.ts:198-240 | every escape, in any text, is read as what it stands for (names, one to three octal digits, any other character, a last backslash), up to the first escape that takes the output beyond the cap |
| PdfStrings.EveryTextIsWritten | apps/worker-document/src/pdf-metadata.ts:198-240 | every text consists of such pieces, so this covers all inputs |
| PdfStrings.UnescapeInvertsEscape | apps/worker-document/src/pdf-text.ts:107-147 | however a text is escaped, unescaping returns it if it is within the cap, and a prefix beyond the cap if not |
| PdfStrings.MetadataRoundTrip | apps/worker-document/src/pdf-metadata.ts:198-240 | with the cap of 500 and octal codes from 32 to 126: what up to 500 characters of output were written as is read back |
| PdfStrings.TextRoundTrip | apps/worker-document/src/pdf-text.ts:107-147 | the same with the cap and octal limit of pdf-text.ts: 2 MiB and codes up to 255 |
| PdfStrings.LiteralRoundTrip | apps/worker-document/src/pdf-metadata.ts:198-240 | every text within the cap survives escaping and unescaping |
| PdfStrings.UnescapeShrinks | apps/worker-document/src/pdf-metadata.ts:198-240 | the output is never longer than the input |
| PdfStrings.DecodePdfHex | apps/worker-document/src/pdf-metadata.ts:242-264 | the decoded units, cut at the cap |
| PdfStrings.DecodeGroups | apps/worker-document/src/pdf-text.ts:154-160 | one accumulation loop keeps the groups that reach the least code, up to the cap |
| PdfStrings.StartsWithFeff | apps/worker-document/src/pdf-metadata.ts:246 | the mark is recognised in any letter case |
| PdfStrings.Utf16HexReads | apps/worker-document/src/pdf-text.ts:149-161 | digits behind FEFF are read as UTF-16BE units, whatever their case and spacing; zero units and a short last group are dropped |
| PdfStrings.ByteHexReads | apps/worker-document/src/pdf-text.ts:162-169 | other digits are read as bytes; control characters and an odd last digit are dropped |
| PdfStrings.EveryTextSpells | apps/worker-document/src/pdf-metadata.ts:242-264 | every digit text spells units of either width, so these two cover all inputs |
| PdfStrings.CharacterCodes | apps/worker-document/src/pdf-metadata.ts:220-243 | which characters are octal digits, hex digits and white space, by their codes |
| PdfStrings.StripAdds | apps/worker-document/src/pdf-metadata.ts:243 | the digits of a longer text are those of its parts, one behind the other |
| PdfStrings.StripOne | apps/worker-document/src/pdf-metadata.ts:243 | of single characters white space goes and digits stay |
| PdfStrings.Utf16HexRoundTrip | apps/worker-document/src/pdf-text.ts:149-161 | so UTF-16BE text without zero units survives |
| PdfStrings.ByteHexRoundTrip | apps/worker-document/src/pdf-text.ts:162-169 | so does byte text without control characters |

## Left out

- Network and storage clients (Postgres, Polygon RPC, Fabric, Vault HTTP, X.509): only their outcomes appear, as parameters of a step.
- A commit whose hash is returned but which never lands, or lands later: a returned commit is taken as landed.
- The contract's caller check and committer rotation: every commit comes from the committer.
- Both anchor loops writing to one log: each keeps its own; `FastLaneRefusedOnHourlyLog` says what the shared contract would do.
- `LoopBackoff`, the sleeping, and the fast lane's driver loop beyond a sequence of batches.
- Sequence numbers as text: the model uses the integers the decimal strings denote.
- `Date.parse`: incorporation dates are the milliseconds it yields; unparseable dates are not modelled.
- The detectors `detectStellarDegree` and `detectBurstThenQuiet`, rationale strings and the strength ordering: single comparisons.
- Log throttling, `prefetch`, `stats` and the synchronous `LayeredKeyResolver.resolve`.
- `JSON.parse`: what it makes of a revocation list is a parameter of `CrlBody.ParseCrlSerials`.
- A fetcher that throws before its first await: outside the single-flight statement.
- `OcrPool.close` and concurrent first-use `init`.
- Object keys that look like array indices, and `__proto__`: JavaScript does not keep them in insertion order. Lone surrogates: strings are sequences of scalar values.
- The search patterns of `deterministic.ts` and the million/milliard cues: only the captured text is normalised. Amounts are exact rationals, which agree with doubles below the cap.
- `parsePdfDate`: a single pattern match followed by range comparisons.
- The YAML scanning of `parseCompose`: services are given with their dependencies.
- ComposeDeps.FindCycles: where a service lists one dependency twice, every cycle is still reported, but how often and in which order is not stated.
- KeyResolver.BoundedStaleness: assumes that every list fetch sent after the revocation succeeds and names the serial, because a failed fetch is deliberately treated as an empty list.
- CanonicalJson.CanonicalIsComplete: takes a number as the text `JSON.stringify` prints for it.
