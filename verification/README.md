# Dacar in Dafny

Dacar is an offline-first access-control system. Every node keeps a replicated set of
signed grants and revocations, a last-writer-wins element set stamped by hybrid logical
clocks, and decides requests with a bounded recursive search through the delegation graph
that those tuples form. For destructive operations a node asks an Authoritative Identity
through a signed challenge. This project models that core and proves what it is for.

The same core exists in Python (canonical), JavaScript and C++. Each component here follows
one of them, named in the table below; where they differ the difference is said.

`dafny verify dfyconfig.toml` checks everything.

## Layout

| files | component |
|---|---|
| `Basics`, `Text` | bytes and big-endian digits; splitting, trimming, hexadecimal |
| `Hlc`, `HlcRuns` | the clock; any number of nodes exchanging timestamps |
| `Namespace`, `Policy` | hashed labels and wildcard coverage; tuples, keys, signed operations |
| `Threshold`, `Delta`, `Keyrings` | N-of-M signature matching; the receive boundary; the keyring container |
| `Crdt`, `CrdtRuns`, `PruneOrder`, `StateVectors` | the element set as values; whole runs; pruning and the order of the active tuples; the vector-plus-index container |
| `EngineSpec`, `Engines` | the search as functions threading memo and counter; the class with mutable fields |
| `EngineWork`, `EngineBudget` | bounds on its work, and a budget no request over a policy can spend |
| `EnginePaths`, `EngineSoundness`, `EngineExactness` | what the search finds; chains behind every ALLOW; exactness against plain reachability |
| `EngineStrata` | exactness when appointed admins demote: the stratified rule |
| `EngineText` | what an evaluation decides, in the plaintext words of the rules |
| `EngineRelevance`, `EngineLimits`, `EngineOrders` | unrelated policy; the inputs on which the search departs from the rules |
| `Replicas` | replication, pruning and decisions together |
| `Challenges`, `ChallengeRuns` | the challenge protocol; its runs over an unreliable network |
| `Batches`, `Outbox`, `BoxPruning` | batch envelopes and chunking; the outbox and sent box; pruning them by age |
| `Aliases`, `Ini`, `ConfigIni`, `Stamps` | the alias registry; INI text and the configuration; proof-of-work stamps |

Code that updates state is a class or a method with loops, proved equal to a function of the
old state; the theorems are lemmas about those functions and about runs of them. What a decision
means is also stated in plaintext, on the rules before hashing (`EngineText`), and
`Engine.Evaluate` promises it for every book of rules that hash to the active tuples.

## What is assumed

- Keyed hashing is a function per salt (`Hasher.mac`). The theorems in plaintext terms need that
  no two labels which one evaluation compares share a hash (`Apart`, `Book.Clear`), and the
  challenge theorems that equal tags mean equal salts (`TagsIdentify`).
- A tuple's key is its canonical pre-image, which `KeyInjective` proves to identify the tuple.
  Python and C++ index by the SHA-256 of it.
- Signature checks are an oracle. Threshold completeness needs that no signature verifies under
  two member keys; soundness does not. In `ChallengeRuns` a receipt that verifies was signed by
  the server, nonces are unique, and a served challenge bearing a caller's nonce is that caller's.
- Wall-clock readings, nonces, transports and their answers are parameters.
- MessagePack is a value tree for challenges and receipts, and bytes for batches, where lengths
  matter (array and bin formats of the MessagePack specification).
- A hypothesis carries the hashes of the admin relation, as in `javascript/src/engine.js`; the
  search otherwise follows `cpp/src/Dacar/Engine.cpp`.

## Where the code departs from what its documents or callers promise

- **A spent budget does not fail the request.** The repository's design document says,
  under multi-salt evaluation bounds, that a request fails when the shared cap is reached. In the
  code the issuers not reached count as having no authority, for denies as well as allows, so at
  every cap there is a request that is allowed because its budget is spent
  (`SpentBudgetHidesDeny`). Whether a budget can be spent is read off the policy before the call
  (`BudgetIsEnough`), and an ALLOW is right at any budget exactly when no appointed admin who
  reaches a root denies the request (`AllowIsRightExactly`, `AllowIsSafe`).
- **The order of tuples can decide a request**, in three ways: through a spent budget
  (`SpentBudgetMakesOrderMatter`, at every cap above one), the depth bound, since the memo is read
  before it (`DepthMakesOrderMatter`, at every bound, against the document's limit of ten hops),
  and admins below the roots demoting one another (`DemotionMakesOrderMatter`).
- **A demotion by an appointed admin is heeded by the search** and not by plain reachability, even
  where nothing else interferes (`OneSidedDemotion`). Where demotions are stratified, that is, no
  one's demotion depends on itself, and neither depth nor budget cuts the search, the verdict is
  exactly the stratified rule's, in which a demotion counts when the demoter has authority, and no
  order matters (`SearchIsStratified`, `AuthorisedRule`,
  `EngineStrata.RuleIgnoresOrder`). Where only roots
  demote, that rule is graph reachability (`PlainIsStratified`, `SearchIsExact`).
- **Pruning can alter a decision**, although its description says it never does: a tuple granted
  again after it was pruned is listed last, and between admins who demote each other that flips
  the verdict (`RegrantFlipsVerdict`). One prune by itself changes no evaluation
  (`PruneKeepsEvaluation`), nor do all the prunes of a run in which nothing pruned is granted
  again (`PrunesKeepEvaluation`), nor any pruning, regrants included, on a policy that meets the
  terms of the stratified rule, so long as prunes come in order (`PruningKeepsDecisions`).
- **Pruning is invisible to `apply`, provided no operation is applied at an earlier clock reading
  than a prune before it** (`PruningIsInvisible`); for any two readings that break this there is a
  run in which a pruned tuple returns (`EarlierApplyResurrects`). `merge` makes no intake check:
  pruning before a merge matters exactly when the peer holds an active grant no later than the
  forgotten revocation (`PruneThenMergeExactly`).
- **The C++ threshold check counts a repeated member key twice.** It is sound exactly when the
  member list has no duplicates (`PositionsNeedDistinctMembers`). Python and JavaScript remember
  keys by value.
- **Publishing outside files can lose a waiting payload**: an accepted file equal to an outbox
  payload leaves the outbox and is not logged (`FileLosesWaiting`; `FilesKeepExactly` gives the exact
  condition).
- **An alias registry does not keep names unique by itself**, although its comments say names are
  unique: adding keeps them so exactly when the name is free or already the hash's own
  (`TakenName`, `AddKeepsUniqueExactly`), which the command line checks first (`NamesStayUnique`).
- **A configuration survives being written and read exactly when** it has at most two legacy salts,
  which the configuration's constructor already demands, and a trimmed topic on one line
  (`SurvivesExactly`, `TwoLineTopicIsCut`).
- An unreadable receipt raises an error out of the Python client; the model returns it as an error
  (the C++ client catches it and denies).

## Model

| member | source | states |
|---|---|---|
| Hlc.PackOrder | cpp/src/Dacar/Hlc.cpp:15-27 | packing and unpacking are inverse, and packed order is the lexicographic order of milliseconds and counter |
| Hlc.Clock.Now | cpp/src/Dacar/Hlc.cpp:39-52 | the new registers and answer: the least timestamp above the registers and no earlier than the wall clock; a failure means that millisecond has none left |
| Hlc.Clock.Observe | cpp/src/Dacar/Hlc.cpp:54-82 | the same, with the least timestamp also above the remote one |
| Hlc.AnswersAreLeast | cpp/src/Dacar/Hlc.cpp:39-82 | both clock operations answer the least timestamp that meets their demands, and fail only when the millisecond holds none |
| HlcRuns.StepFacts | cpp/src/Dacar/Hlc.cpp:39-82 | no clock operation lowers the registers; each success exceeds them and the remote, and is no earlier than the wall clock |
| HlcRuns.InvariantHolds | python/dacar/hlc.py:46-81 | in every run each node's registers bound what it issued and stay within the largest wall reading |
| HlcRuns.HappensBeforeIncreases | python/dacar/hlc.py:46-81 | along any happens-before path over any nodes and arbitrary wall clocks, packed timestamps strictly increase |
| HlcRuns.ClocksStayWithinReadings | python/dacar/hlc.py:57-81 | in every run no node's clock passes the largest wall reading made anywhere so far, and every issued timestamp lies between its own reading and that maximum |
| Namespace.PrefixIsUnder | javascript/src/namespace.js:43-45 | segment-list prefixes are exactly textual ancestors, for all strings |
| Namespace.WildcardText | javascript/src/namespace.js:59-68 | a terminal wildcard segment is a trailing ":*" and stripping it strips that text |
| Namespace.HashCoverageIsTextual | javascript/src/namespace.js:157-170 | unless two of the compared segments collide, hash coverage holds exactly when the wildcard rule covers the texts, for every pattern and request |
| Policy.KeyInjective | javascript/src/tuple.js:81-96 | different permissions have different pre-images |
| Policy.SigningBytesInjective | python/dacar/operation.py:120-136 | signing bytes fix tuple, action and time |
| Threshold.VerifyThreshold | python/dacar/operation.py:157-189 | the greedy loops: acceptance means distinct members signed, and with one key per signature it is equivalent to N distinct signers |
| Threshold.ThresholdExact | python/dacar/operation.py:157-189 | acceptance implies N distinct signers; with one key per signature it is equivalent to that |
| Threshold.GreedyNeedsOneKey | python/dacar/operation.py:174-188 | whenever one signature verifies under two keys and another under the first alone, greedy refuses the pair although distinct signers exist |
| Threshold.OrderIrrelevant | python/dacar/operation.py:157-189 | with one key per signature the order of signatures and of members is irrelevant |
| Threshold.OrderFreeForm | python/dacar/operation.py:157-189 | distinct signers exist exactly when every signature occurs once and shares its key with no other |
| Threshold.VerifyThresholdByPosition | cpp/src/Dacar/Operation.cpp:73-104 | the loop over a flag array: with distinct members it gives the by-key verdict on any signatures, and with one key per signature accepts exactly N distinct signers |
| Threshold.PositionsExact | cpp/src/Dacar/Operation.cpp:73-104 | with distinct members remembering positions and remembering keys give the same verdict, which is sound, and exact with one key per signature |
| Threshold.SoloIsChecked | cpp/src/Dacar/Operation.cpp:66-71 | one signature against one key is accepted exactly when it verifies |
| Threshold.PositionsNeedDistinctMembers | cpp/src/Dacar/Operation.cpp:73-104 | that variant is sound exactly when no member key is listed twice |
| Threshold.OneMemberTwice | cpp/src/Dacar/Operation.cpp:83-102 | a repeated key is accepted for two signatures only it can have made |
| Crdt.AbsorbLookup | cpp/src/Dacar/Crdt.cpp:24-34 | absorbing joins the timestamps of its own tuple, touches no other, and stores each tuple once |
| Crdt.WithoutLookup | python/dacar/crdt.py:183-205 | pruning forgets the dead entries and nothing else |
| Crdt.WithoutFilters | python/dacar/crdt.py:183-205 | pruning keeps in order every entry that is not settled and collects every one that is: revocation no earlier than grant, both before the cutoff |
| Crdt.ActiveMeansActiveSlots | python/dacar/crdt.py:215-219 | a tuple is listed as active exactly when its stored timestamps make it active |
| Crdt.PruneKeepsActiveList | python/dacar/crdt.py:183-205 | a prune leaves the list of active tuples as it is, order included, in every state |
| Crdt.AbsorbAllLookup | python/dacar/crdt.py:152-180 | merging joins the two states' timestamps for every key |
| Crdt.MergeIsJoin | python/dacar/crdt.py:152-180 | merge is commutative, associative and idempotent on timestamps |
| CrdtRuns.PruningIsInvisible | python/dacar/crdt.py:120-205 | deleting every prune from a run changes no verdict and no active tuple |
| CrdtRuns.EarlierApplyResurrects | python/dacar/crdt.py:183-205 | for any two readings out of order, a run in which a pruned tuple comes back |
| CrdtRuns.RunContinues | python/dacar/crdt.py:120-205 | continuing a run from the state it reached is the longer run |
| CrdtRuns.RunHoldsLatest | python/dacar/crdt.py:120-149 | each stored timestamp is the latest accepted one of its action |
| CrdtRuns.TimestampsConverge | javascript/src/crdt.js:124-158 | without prunes, equal accepted sets give equal timestamps, whatever order, repetition, clocks and horizons |
| CrdtRuns.ReplicasConverge | javascript/src/crdt.js:124-194 | replicas that accepted the same operations have the same active tuples, however each pruned |
| CrdtRuns.ActiveLaw | python/dacar/crdt.py:55-66 | active means: some accepted grant is later than every accepted revocation |
| CrdtRuns.MergeIsBothRuns | python/dacar/crdt.py:152-180 | merging two runs' states equals making both runs |
| CrdtRuns.MergeResurrects | python/dacar/crdt.py:152-180 | a merge can bring a pruned tuple back |
| CrdtRuns.PruneThenMergeExactly | python/dacar/crdt.py:152-205 | pruning before a merge changes a tuple's activity exactly when the peer revives it |
| CrdtRuns.RecentPeerRevivesNothing | python/dacar/crdt.py:152-205 | a peer whose active grants would pass the intake check revives nothing |
| CrdtRuns.StoredWithinAllowances | python/dacar/crdt.py:136-140 | no run, from any state, stores a timestamp beyond what the future allowances of its applies admit, whatever arrives |
| CrdtRuns.LateRevocationPrevails | python/dacar/crdt.py:136-149 | a revocation stamped beyond all allowances so far, once applied, leaves its tuple inactive |
| PruneOrder.PruningKeepsOrder | python/dacar/crdt.py:120-205 | over any run in which no pruned tuple is granted again, deleting every prune leaves the active tuples in the same order |
| PruneOrder.RegrantMovesToEnd | python/dacar/crdt.py:120-205 | a tuple that is pruned and granted again is listed last, where without the prune it keeps its place |
| StateVectors.StateVector.IndexFinds | cpp/src/Dacar/Crdt.cpp:24-34 | the hash index finds exactly the position a search of the vector would |
| StateVectors.StateVector.EntryFor | cpp/src/Dacar/Crdt.cpp:24-34 | finds the tuple's position or appends an empty entry, keeping vector and index in agreement |
| StateVectors.StateVector.Raise | cpp/src/Dacar/Crdt.cpp:58-79 | in-place timestamp update equals the join |
| StateVectors.StateVector.Apply | cpp/src/Dacar/Crdt.cpp:48-67 | applies exactly the operations stamped within the deletion horizon and the future allowance, and changes nothing otherwise |
| StateVectors.StateVector.Merge | cpp/src/Dacar/Crdt.cpp:69-81 | the loop over the other replica's entries is the merge function |
| StateVectors.StateVector.Prune | cpp/src/Dacar/Crdt.cpp:83-115 | drops in order exactly the settled entries, and answers how many |
| StateVectors.StateVector.Survivors | cpp/src/Dacar/Crdt.cpp:86-106 | the scan keeps exactly what is not dead |
| StateVectors.StateVector.Reindex | cpp/src/Dacar/Crdt.cpp:107-113 | the rebuilt index agrees with the entries position by position |
| StateVectors.StateVector.Get | cpp/src/Dacar/Crdt.cpp:117-123 | finds the entry under a key exactly when there is one |
| StateVectors.StateVector.IsActive | cpp/src/Dacar/Crdt.cpp:125-128 | whether the stored timestamps make the tuple active |
| StateVectors.StateVector.Active | python/dacar/crdt.py:215-219 | the active tuples, once each, in insertion order |
| Delta.DeltaReceiver.ApplyPayload | python/dacar/delta.py:37-89 | moves the state, however it came about, by the received event; with one key per signature it applies exactly the well-signed payloads stamped within the window |
| Delta.DeltaReceiver.ApplyPayloads | python/dacar/delta.py:91-134 | from any state: a batch has the effect of its good elements in order, and counts the applied ones |
| Delta.WellSignedIsReceived | python/dacar/delta.py:56-75 | a payload becomes an event exactly when it decodes, its issuer is known and the required number of distinct keys signed it |
| Delta.ReceivedExactly | python/dacar/delta.py:120-134 | a batch amounts to exactly its well-signed elements, each in its turn |
| Delta.ReceivedAreAuthentic | python/dacar/delta.py:91-134 | everything that gets past the boundary is authenticated |
| Delta.ActiveTuplesAreSigned | python/dacar/crdt.py:96-118 | behind every active tuple stands an accepted grant signed by the threshold of its issuer's distinct keys and later than every accepted revocation |
| Keyrings.Keyring.Register | cpp/src/Dacar/Verifier.cpp:31-41 | refines map update, in place or at the end |
| Keyrings.Keyring.Resolve | cpp/src/Dacar/Verifier.cpp:43-49 | refines map lookup |
| Keyrings.Keyring.Forget | cpp/src/Dacar/Verifier.cpp:51-66 | refines map removal, keeping the order of the others |
| Keyrings.Keyring.ShiftDown | cpp/src/Dacar/Verifier.cpp:60-64 | every later position goes down by one, no other changes |
| Keyrings.Shifted | cpp/src/Dacar/Verifier.cpp:56-64 | after the shift the index agrees with the shorter rows |
| Keyrings.ShiftedContents | cpp/src/Dacar/Verifier.cpp:51-66 | erasing a row removes exactly that issuer from the mapping |
| EngineSpec.AdminStable | javascript/src/engine.js:143-151 | recursion never leaves the request's object or the admin relation, so the memo key is in effect the issuer |
| EngineWork.WorkBounds | cpp/src/Dacar/Engine.cpp:54-139 | on every graph, cyclic ones included: at most maxVisited scans, nesting within maxDepth, and a bound on all resolve calls |
| EngineBudget.CallsWithinTree | cpp/src/Dacar/Engine.cpp:54-139 | whatever the budget, a request makes no more calls than a tree of its policy's branching and height, both read off the tuples |
| EngineBudget.BudgetIsEnough | python/dacar/engine.py:140-142 | a budget of that size is never spent: a condition known before the call |
| EngineBudget.OrderKeepsAmple | python/dacar/engine.py:140-154 | a budget ample for some tuples is ample for them in any order |
| EngineSoundness.AllowRestsOnChain | javascript/src/engine.js:134-189 | ALLOW implies a chain of active covering tuples to a root with no repeated issuer, no root-denied holder, and at most maxVisited links, memo answers included |
| EngineSoundness.ResolveSound | python/dacar/engine.py:133-159 | the memo invariant: every cached issuer has a chain, and each is paid for within the budget |
| EngineSoundness.RootDenyVetoes | python/dacar/engine.py:143-156 | a covering deny issued by a root refuses the request whatever else holds |
| EnginePaths.AuthorityFinds | cpp/src/Dacar/Engine.cpp:54-97 | an issuer with a shortest path within depth is found despite memo, cycle cut and budget left |
| EngineExactness.AffordedSearchIsExact | python/dacar/engine.py:108-161 | if only roots demote admins and neither depth nor budget cuts the search, the verdict is the plain reachability rule |
| EngineExactness.SearchIsExact | python/dacar/engine.py:108-161 | the same under conditions read off the policy before the call |
| EngineExactness.AllowIsRightExactly | python/dacar/engine.py:140-161 | at any depth, budget and order an ALLOW agrees with plain reachability exactly when no non-root issuer that reaches a root denies the request |
| EngineExactness.AllowIsSafe | python/dacar/engine.py:140-161 | if only roots deny the request, nothing can wrongly allow it |
| EngineExactness.DepthIsEnough | python/dacar/engine.py:118-121 | a depth bound no less than the number of distinct non-root issuers never cuts |
| EngineExactness.RaisedIsReachable | python/dacar/engine.py:145-154 | a raised flag is always justified by an issuer that reaches a root |
| EngineExactness.ReachableIsRaised | python/dacar/engine.py:145-154 | an issuer within reach raises its flag |
| EngineExactness.OrderIrrelevant | python/dacar/engine.py:108-161 | under conditions read off the policy, any order or repetition of the tuples gives the same verdict |
| EngineLimits.SpentBudgetHidesDeny | python/dacar/engine.py:140-142 | at every cap a request that is allowed because the cap was reached, and denied with one more call |
| EngineLimits.SpentBudgetMakesOrderMatter | python/dacar/engine.py:140-142 | at every cap above one the same tuples in two orders, one allowed and one not |
| EngineOrders.DepthMakesOrderMatter | python/dacar/engine.py:114-121 | at every depth bound the same, with no demotion and budget to spare |
| EngineOrders.DemotionMakesOrderMatter | python/dacar/engine.py:120-131 | the same for two admins demoting each other, within the shipped depth and budget |
| EngineOrders.OneSidedDemotion | python/dacar/engine.py:145-156 | one admin demoting another: the search heeds it and plain reachability does not |
| EngineStrata.AuthorisedRule | python/dacar/engine.py:108-131 | authority by the stratified rule: a root, or one whom no one with authority has demoted and someone with authority has appointed |
| EngineStrata.AuthorityDecides | python/dacar/engine.py:108-131 | the induction: under memo, cycle cut and levels an issuer granted authority has it, and one that can be found is granted it |
| EngineStrata.ScanDecides | python/dacar/engine.py:143-154 | each flag raised by a scan rests on authority, and every candidate that can be found raises its flag |
| EngineStrata.AffordedSearchIsStratified | python/dacar/engine.py:108-161 | if demotions are stratified and neither depth nor budget cuts the search, the verdict is the stratified rule's |
| EngineStrata.SearchIsStratified | python/dacar/engine.py:108-161 | the same under conditions read off the policy before the call |
| EngineStrata.AcyclicIsExact | python/dacar/engine.py:108-161 | the case of a rank that falls along every appointment and demotion and stays below the depth bound |
| EngineStrata.PlainIsStratified | python/dacar/engine.py:108-161 | where only roots demote the stratified rule is plain reachability |
| EngineStrata.RuleIgnoresOrder | python/dacar/engine.py:108-161 | the stratified rule depends on which tuples there are, not on their order or repetition |
| EngineText.MatchIsTextual | python/dacar/engine.py:142-154 | a tuple matches a request's hashes exactly when its rule is under a configured salt, names the relation (or "-" and it), and its pattern covers the object's text |
| EngineText.AllowIsBacked | python/dacar/engine.py:66-161 | behind every ALLOW stands a chain of plaintext rules that cover the object, the first giving the relation, the later ones admin, from the grantee to a root, with no root refusing a holder and no issuer twice |
| EngineText.RefusalIsHeeded | python/dacar/engine.py:142-160 | a root's "-relation" rule that covers the object refuses, at any depth, budget and order |
| EngineText.DecidesInWords | python/dacar/engine.py:66-161 | where demotions are layered and bounds read off the rules are met, the request is allowed exactly when someone with authority gives the relation and no one with authority takes it |
| EngineText.AuthorityExists | python/dacar/engine.py:107-131 | layered rules settle who has authority |
| EngineText.TrustIsAuthority | python/dacar/engine.py:107-131 | where only roots take admin away, that authority is textual reachability of a root |
| EngineText.DecidesByReach | python/dacar/engine.py:66-161 | there the verdict is textual reachability |
| EngineText.EvaluationAnswers | python/dacar/engine.py:66-161 | these three together, for every book of rules behind the tuples |
| EngineRelevance.UnrelatedPolicyIsInvisible | cpp/src/Dacar/Engine.cpp:99-139 | removing every tuple that matches no request or admin hash on the object changes neither verdict, counter nor any call |
| Engines.Engine.Evaluate | cpp/src/Dacar/Engine.cpp:13-26 | one hypothesis per salt, then the search; in the rules' own words: an ALLOW is backed by a chain of covering rules to a root, a root's refusal is heeded, and where the rules are layered and nothing cuts the search it is what they grant |
| Engines.Engine.EvaluateHashes | cpp/src/Dacar/Engine.cpp:28-37 | a fresh memo and counter per request; verdict and final counter are the specification's |
| Engines.Engine.IndexByGrantee | cpp/src/Dacar/Engine.cpp:29-33 | the index lists each grantee's active tuples in state order |
| Engines.Engine.Authority | cpp/src/Dacar/Engine.cpp:54-97 | mutating the shared memo and counter refines the specification function |
| Engines.Engine.Resolve | cpp/src/Dacar/Engine.cpp:99-139 | the nested loops with their flags refine the specification function |
| Replicas.ReplicasDecideAlike | python/dacar/engine.py:85-161 | on a policy with stratified demotions and ample depth and budget, replicas that accepted the same operations decide alike, though they store tuples in different orders and pruned differently |
| Replicas.PruneKeepsEvaluation | python/dacar/crdt.py:183-205 | one prune leaves verdict, counter and every call of any evaluation the same, on any policy, depth and budget |
| Replicas.PrunesKeepEvaluation | python/dacar/crdt.py:183-205 | so do all prunes of a run in which no pruned tuple is granted again |
| Replicas.RegrantFlipsVerdict | python/dacar/crdt.py:183-205 | a run with a regrant after a prune whose verdict is allow, and deny without the prune |
| Replicas.PruningKeepsDecisions | python/dacar/crdt.py:183-205 | with stratified demotions and ample depth and budget no pruning in order alters a decision, regrants included |
| Challenges.BuildPayload | python/dacar/challenge.py:120-134 | one hashed entry per salt, in order |
| Challenges.DecodeEntryExact | python/dacar/challenge.py:155-164 | an entry decodes to a value exactly when it is that value's encoding |
| Challenges.FromPayload | python/dacar/challenge.py:136-174 | succeeds exactly on the encodings of well-formed one-grantee challenges, and then inverts them |
| Challenges.DecodingUnique | python/dacar/challenge.py:136-174 | a payload decodes in at most one way |
| Challenges.ChallengeRoundTrip | python/dacar/challenge.py:120-174 | a challenge under at least one salt decodes, to what was sent and nothing else |
| Challenges.ByTag | python/dacar/challenge.py:257-266 | the last configured salt with the tag |
| Challenges.BuildHypotheses | python/dacar/challenge.py:257-270 | entries of known salts become hypotheses, the others are skipped |
| Challenges.WireKeepsRequest | python/dacar/challenge.py:257-270 | the server rebuilds exactly the hypotheses that the shared salts make of the plaintext request |
| Challenges.SameSaltsAllShared | python/dacar/challenge.py:261-266 | with the same salts every hypothesis is rebuilt |
| Challenges.SharedFilters | python/dacar/challenge.py:257-266 | shared are exactly the client's salts whose tag the server has, in the client's order |
| Challenges.NoSaltShared | python/dacar/challenge.py:261-266 | with no tag in common nothing is |
| Challenges.ReceiptBytesInjective | python/dacar/challenge.py:214-216 | a receipt's signed bytes fix verdict, time and nonce |
| Challenges.ParseReceipt | python/dacar/challenge.py:236-250 | succeeds exactly on four-element arrays whose verdict equals one or zero, booleans and floats included, whose time is a 64-bit integer, and whose blobs have their sizes |
| Challenges.ReceiptRoundTrip | python/dacar/challenge.py:230-250 | every encoded receipt reads back, and a payload reads as at most one receipt |
| Challenges.ConcludeExactly | python/dacar/challenge.py:327-340 | a reply makes the call true exactly if it reads as a verified ALLOW of this nonce, and an error exactly if it reads as no receipt; otherwise, and without a reply, the call is false |
| Challenges.SignedIsBelieved | python/dacar/challenge.py:335-340 | a signed receipt of the call's nonce is believed, whatever it says |
| Challenges.HonestReply | python/dacar/challenge.py:290-340 | delivering the server's own receipt makes the call return exactly the server's verdict on the plaintext under the shared salts |
| Challenges.AuthoritativeServer.Handle | python/dacar/challenge.py:290-300 | replies exactly to decodable challenges while the clock can tick, with the signed verdict of its own engine; the clock advances once |
| Challenges.ChallengeClient.Authorize | python/dacar/challenge.py:321-340 | without a local allow nothing is sent, without a reply it is false; on the server's own receipt it returns the local allow and the server's verdict on the plaintext under the shared salts; otherwise the conclusion from the reply |
| ChallengeRuns.InvariantHolds | python/dacar/challenge.py:290-340 | what every step of the protocol keeps |
| ChallengeRuns.WireChangesNothing | python/dacar/challenge.py:257-300 | the server's verdict on a challenge is its engine's on the plaintext request under the shared salts; DENY with none shared |
| ChallengeRuns.TrueMeansServerAllowed | python/dacar/challenge.py:290-340 | in every run over a lossy, duplicating, replaying network a call returns true only if its pre-check allowed and the server evaluated this very challenge to ALLOW after the call and before its return |
| ChallengeRuns.DeliveredIsReturned | python/dacar/challenge.py:335-340 | in every run, delivering the receipt of an evaluation of a call's challenge is legal and makes the call return that verdict |
| ChallengeRuns.HonestExchange | python/dacar/challenge.py:290-340 | from every state, serving a waiting call and delivering the receipt is a legal run that ends in the server's verdict |
| ChallengeRuns.ReceiptsIncrease | python/dacar/challenge.py:290-300 | receipts carry strictly increasing timestamps |
| Batches.BatchRoundTrip | python/dacar/transport/lxmf_sync.py:83-110 | decoding an encoded batch gives the payloads back |
| Batches.DecodeExactly | python/dacar/transport/lxmf_sync.py:90-110 | bytes decode to payloads exactly when they spell them in any form MessagePack allows, with nothing left over |
| Batches.PackChunks | python/dacar/transport/lxmf_sync.py:113-133 | keeps every payload once and in order, each chunk is a singleton or fits, and no such split has fewer chunks |
| Batches.GreedyIsValid | python/dacar/transport/lxmf_sync.py:113-133 | every step of greedy packing keeps a valid split |
| Batches.GreedyIsOptimal | python/dacar/transport/lxmf_sync.py:113-133 | no order-preserving split under the same rule uses fewer chunks |
| Batches.BuildCorrect | python/dacar/transport/lxmf_sync.py:157-164 | halving keeps the payloads in order in messages that fit, and fails exactly on a lone payload that does not |
| Batches.BuildByNeed | python/dacar/transport/lxmf_sync.py:157-164 | nothing the transport takes whole is split: every other message is half of a refused piece |
| Batches.PackPaper | python/dacar/transport/lxmf_sync.py:145-169 | the two passes: payloads kept in order in messages that fit, greedy chunks kept whole unless refused, failing exactly on a lone payload that does not fit |
| Stamps.ByteBitWidth | cpp/src/rfed/Stamp.cpp:20-27 | the width is the least power of two above the byte |
| Stamps.LeadingZeroBits | cpp/src/rfed/Stamp.cpp:33-45 | the count places the big-endian value between two powers of two |
| Stamps.LeadingZerosMeanTarget | cpp/src/rfed/Stamp.cpp:33-45 | at least k leading zeros exactly when the value is below 2^(8n-k) |
| Stamps.StampValid | cpp/src/rfed/Stamp.cpp:72-78 | a stamp is valid exactly when its digest is below the cost's target |
| Stamps.LowerCostIsEasier | cpp/src/rfed/Stamp.cpp:76-78 | valid at one cost, valid at every lower one |
| Outbox.Store.RecordPublish | python/dacar/cli/commands.py:1605-1646 | drains the accepted payloads from the outbox and logs the new ones |
| Outbox.Store.Extend | python/dacar/cli/commands.py:1838-1848 | deduplicates by exact bytes in first-seen order |
| Outbox.Store.IssueDelta | python/dacar/cli/commands.py:561-593 | queues before any attempt and records each: the payload waits at the end of the outbox until one is accepted, then leaves it for the end of the log |
| Outbox.Store.PublishBoxes | python/dacar/cli/commands.py:1817-1871 | sends exactly the payloads of the chosen boxes, once each, outbox first and each box in its order, and records the transport's answer |
| Outbox.Store.PublishExternal | python/dacar/cli/commands.py:1825-1871 | publishes outside files once each, as the transport answers, without logging them |
| Outbox.RecordMoves | python/dacar/cli/commands.py:1605-1646 | the payloads the transport took leave the outbox and are logged, every other keeps its place, the log stays duplicate-free |
| Outbox.AttemptsKeep | python/dacar/cli/commands.py:570-582 | over any attempts the payload leaves the outbox exactly if one is accepted |
| Outbox.IssueEffect | python/dacar/cli/commands.py:561-593 | what issuing leaves in both boxes, order included |
| Outbox.ToPublishSelects | python/dacar/cli/commands.py:1814-1848 | the list sent is the only one that holds exactly the chosen payloads in their places |
| Outbox.PublishAllAccepted | python/dacar/cli/commands.py:1814-1871 | if all is accepted, publishing the outbox empties it into the log, and publishing the sent box alone only drains what was logged already |
| Outbox.FilesKeepExactly | python/dacar/cli/commands.py:1850-1871 | publishing files loses nothing exactly when no accepted file waits unlogged in the outbox |
| Outbox.FileLosesWaiting | python/dacar/cli/commands.py:1850-1871 | a waiting payload published from a file is in neither box |
| Outbox.NothingIssuedIsLost | python/dacar/cli/commands.py:561-593 | over any run of conserving commands every issued payload is in the outbox or the log |
| Outbox.LogOnlyGrows | python/dacar/cli/commands.py:1634-1645 | over any run the log only grows at its end and stays duplicate-free |
| Outbox.PublishMovesAccepted | python/dacar/cli/commands.py:1841-1871 | after a publish accepted payloads have moved and refused ones are where they were |
| BoxPruning.PrunePayloads | python/dacar/cli/commands.py:2021-2046 | keeps, in order, exactly the payloads that cannot be decoded or are stamped within the horizon |
| BoxPruning.PrunedReplayIsTheSame | python/dacar/cli/commands.py:2065-2078 | replaying a pruned box takes every receiver of the same horizon, in any state, then or later, to the state replaying the whole box would |
| Aliases.AliasRegistry.Parse | cpp/src/Dacar/Store.cpp:337-398 | the cursor over the text reads the specified registry |
| Aliases.AliasRegistry.MergeEntry | cpp/src/Dacar/Store.cpp:369-395 | a line of a known hash adds its new names and its note |
| Aliases.AliasRegistry.Serialize | cpp/src/Dacar/Store.cpp:401-414 | one line per entry, in order |
| Aliases.AliasRegistry.Add | cpp/src/Dacar/Store.cpp:458-482 | the name scan with its early return binds the name to the hash, once more than before unless it was the hash's own, replaces its note if one is given, and changes no other name's bindings and no other note |
| Aliases.AliasRegistry.Remove | cpp/src/Dacar/Store.cpp:484-497 | takes away exactly the first binding of the name, and its entry if left nameless; answers whether there was one |
| Aliases.AliasRegistry.Resolve | cpp/src/Dacar/Store.cpp:431-443 | the hash of the first entry bearing the name |
| Aliases.AliasRegistry.SetSelf | cpp/src/Dacar/Store.cpp:499-522 | clears every binding of self, then binds the hash: one binding of self remains, every other name keeps its own |
| Aliases.RoundTrip | cpp/src/Dacar/Store.cpp:337-414 | parsing a serialized registry of proper names and notes gives it back |
| Aliases.ReachableRoundTrip | cpp/src/Dacar/Store.cpp:337-522 | the same for every registry reachable by adding, removing and setting self |
| Aliases.SelfIsUnique | cpp/src/Dacar/Store.cpp:499-522 | setting self leaves exactly one binding of it, the new hash's, and every other name's bindings as they were |
| Aliases.FewerBindings | cpp/src/Dacar/Store.cpp:484-522 | clearing a name takes all its bindings, removing it exactly one, and no other name loses any |
| Aliases.AddKeepsUniqueExactly | cpp/src/Dacar/Store.cpp:458-482 | adding keeps names unique exactly when the name is free or the hash's own |
| Aliases.TakenName | cpp/src/Dacar/Store.cpp:458-482 | a second hash given a taken name leaves two bindings, and the name stands for the first |
| Aliases.NamesStayUnique | python/dacar/cli/commands.py:1258-1270 | over any run of guarded commands every name stands for at most one hash |
| Ini.Parse | cpp/src/Dacar/Store.cpp:199-233 | the cursor over the lines reads the specified sections |
| Ini.RoundTrip | cpp/src/Dacar/Store.cpp:137-233 | parsing printed sections gives them back, for any sections with plain names and keys and one-line trimmed values |
| Ini.ParsedYields | cpp/src/Dacar/Store.cpp:199-233 | every value parsing can yield is trimmed and on one line |
| Ini.GetAt | cpp/src/Dacar/Store.cpp:182-194 | with distinct section names a lookup sees its own section only |
| Ini.NoiseIsIgnored | cpp/src/Dacar/Store.cpp:199-215 | white space around a line, blank lines and comments change nothing, anywhere in the text |
| ConfigIni.JoinHashes | cpp/src/Dacar/Store.cpp:146-153 | appending with separators builds the printed list |
| ConfigIni.ParseAnchors | cpp/src/Dacar/Store.cpp:256-273 | the loop over the comma-separated items succeeds exactly when every item that is not blank is a hash, and yields those hashes |
| ConfigIni.AnchorsBack | cpp/src/Dacar/Store.cpp:256-273 | a printed anchor list reads back |
| ConfigIni.IntBack | cpp/src/Dacar/Store.cpp:280-290 | every 32-bit horizon reads back |
| ConfigIni.RoundTrip | cpp/src/Dacar/Store.cpp:137-308 | decoding an encoded configuration gives it back, up to legacy salts past the second |
| ConfigIni.SurvivesExactly | cpp/src/Dacar/Store.cpp:137-308 | it comes back unchanged exactly when there are at most two legacy salts and the topic is trimmed and on one line |
| ConfigIni.TwoLineTopicIsCut | cpp/src/Dacar/Store.cpp:160-160 | a topic of two lines does not come back |
| ConfigIni.SilenceMeansDefaults | cpp/src/Dacar/Store.cpp:236-308 | a text that sets nothing decodes to the shipped defaults |

## Left out

- EngineStrata.SearchIsStratified: one direction only. That levels, depth and budget are each needed is shown by an input (EngineOrders, EngineLimits); the verdict may still be right when a term fails.
- EngineText.DecidesInWords: one direction only, as SearchIsStratified, on which it rests; its bound on the work counts every rule about a grantee once per salt.
- EngineBudget.BudgetIsEnough: the tree is an upper bound; a policy may spend less than it allows for.
- Hlc.Clock.Now: follows C++, which refuses before the counter leaves 16 bits; Python raises it first and refuses when packing.
- Threshold.PositionsNeedDistinctMembers: assumes that every member key has a signature which verifies under it alone.
- Challenges.BuildHypotheses: follows Python, where the last configured salt with a tag wins; C++ takes the first. Tags that identify salts make them agree.
- Challenges.FromPayload: follows Python; C++ does not check the size of the object's segment hashes.
- Challenges.ParseReceipt: follows Python; C++ reads the verdict and the time as integers only. Not-a-number floats are among the values that equal nothing.
- Batches.BatchRoundTrip: payloads of 2^32 bytes or more, which MessagePack cannot express; and in decoding, elements other than binary ones are refused without being read.
- Aliases.RoundTrip: white space is what C isspace says; Python splits on every Unicode space.
- ConfigIni.RoundTrip: error texts are reduced to the field at fault.
- Ed25519, SHA-256, HMAC, EC encryption and the MessagePack libraries are functions, oracles or value trees.
- The operation payload codec is a parameter of the receiver; only the signing bytes are modelled.
- Ledger, clock, keyring and payload-list records in Store.cpp: the same vector-plus-index and field-by-field shapes, which would only add easy members.
- Alias queries by hash and the note-free rendering; stamp workblocks and the random search for a stamp: projections, hashing and chance.
- StateVector.from_payload: restoring arbitrary bytes; only snapshots the code wrote are meaningful.
- RNS links, the rfed client, LXMF routing, announces, timeouts, provisioning, command-line parsing and rendering, file modes and storage backends: input and output.
- Promise structure in JavaScript; crashes between two store writes (the lifecycle is stated between completed commands).
- Constructor length checks, naming constants, warnings and threshold-group identifiers: too simple to state more than their bodies.
- 64-bit overflow of millisecond arithmetic: wall readings and horizons are unbounded here.
