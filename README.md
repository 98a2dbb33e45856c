# Swirlds platform core, modelled in Dafny

This project models four pieces of the Swirlds platform (hashgraph/swirlds-open-review) and proves properties of them.

- **The gossip shadow graph manager** (`SyncShadowGraphManager`). It keeps a shadow graph of events, the set of tips (shadows without a self-child) and the expired-generation watermark. It covers:
  - the insertion classifier and insertion with tip maintenance;
  - the two-pass expiration sweep;
  - the three phases of a sync that decide which events the peer lacks.

  The shadow graph itself (`SyncShadowGraph`) is a collaborator whose source is not part of this model. Module `SyncShadowGraph` gives it an explicit model: a map from hash to shadow with parent links, insertion, and the two removal walks.
- **Merkle path replacement** (`MerklePathReplacement`). It replaces the path from a node down along a route, so that every node on the path can be changed without disturbing other copies of the tree that share it.
  - Merkle nodes live in a `NodeStore` class: children, routes, reference counts, hash presence and a log of `initialize()` calls.
  - `replacePath` is an imperative method over two arrays. It is proved against a specification (`Replaced`) of the resulting store and path.
- **The binary internal merkle node** (`AbstractBinaryMerkleInternal`): two child slots with index validation.
- **The event string builder** (`EventStringBuilder`): the short text of an event and its parents, accumulated in a buffer.

Files: `wrappers.dfy` (Option, Result), `java_ints.dfy` (Java's int and long), `shadow_graph.dfy`, `shadow_graph_manager.dfy`, `merkle_path_replacement.dfy`, `binary_merkle_internal.dfy`, `event_string_builder.dfy`.

Modelling choices:

- Java `null` is `None`. An exception is an `Err` result, carrying the exception's kind and arguments.
- A Java int and a Java long are the subset types `Int` and `Long`. Where the source's arithmetic can overflow, the wrap is written out: long subtraction (`LongSub`), narrowing to int (`ToInt`), and the int subtraction `pathLength - skipAtEnd` of `copyChildIfNeeded` (`SkipFrom`).
- The iteration order of a `HashSet` is a fixed enumeration of the set: ascending hash order (`Ordered`).
- Some operations come from outside the modelled classes. They are modelled as follows:
  - The merkle operations `replacePath` calls (copy, adopt children, set child, invalidate hash, initialize) are abstract effects on the store.
  - `CommonUtils.hex`, `EventImpl.NO_EVENT_ID` and `EventImpl.NO_EVENT_GEN` are fields of a `Format` parameter.

## Model

| member | source | states |
|---|---|---|
| ShadowGraphManager.InsertableStatusOf | swirlds-platform-core/src/main/java/com/swirlds/platform/sync/SyncShadowGraphManager.java:547-586 | each status holds exactly when the earlier checks pass and its own fails, in the order null, duplicate, expired (generation ≤ expiredGen), unknown other-parent, unknown self-parent; INSERTABLE exactly when every parent is absent, known or expired |
| ShadowGraphManager.SyncShadowGraphManager.AddEvent | swirlds-platform-core/src/main/java/com/swirlds/platform/sync/SyncShadowGraphManager.java:367-393 | returns true iff the status is INSERTABLE; on success the graph gains the shadow, it joins the tips and its self-parent leaves them; on rejection graph and tips are unchanged; the tip invariant is kept |
| SyncShadowGraph.Insert | swirlds-platform-core/src/main/java/com/swirlds/platform/sync/SyncShadowGraphManager.java:371 | the new graph holds every old shadow unchanged plus the new one under its hash |
| SyncShadowGraph.InsertKeepsValid | swirlds-platform-core/src/main/java/com/swirlds/platform/sync/SyncShadowGraphManager.java:371 | inserting an event whose parents agree with the graph keeps links present and pointing to older shadows |
| SyncShadowGraph.InsertTips | swirlds-platform-core/src/main/java/com/swirlds/platform/sync/SyncShadowGraphManager.java:371-373 | the tips after an insertion are the old tips plus the new shadow minus its self-parent |
| SyncShadowGraph.Ordered | swirlds-platform-core/src/main/java/com/swirlds/platform/sync/SyncShadowGraphManager.java:113-115 | the enumeration of a set has the set's size and exactly its elements |
| SyncShadowGraph.OrderedAscending | swirlds-platform-core/src/main/java/com/swirlds/platform/sync/SyncShadowGraphManager.java:113-115 | the enumeration is strictly ascending, so no hash appears twice |
| SyncShadowGraph.Prune | swirlds-platform-core/src/main/java/com/swirlds/platform/sync/SyncShadowGraphManager.java:306-315 | removing shadows keeps exactly the kept keys |
| SyncShadowGraph.PruneKeepsValid | swirlds-platform-core/src/main/java/com/swirlds/platform/sync/SyncShadowGraphManager.java:306-315 | removal cuts links to removed shadows, so the graph invariant survives |
| SyncShadowGraph.PruneTwice | swirlds-platform-core/src/main/java/com/swirlds/platform/sync/SyncShadowGraphManager.java:306-315 | two removals are one removal of the union |
| SyncShadowGraph.PruneNothing | swirlds-platform-core/src/main/java/com/swirlds/platform/sync/SyncShadowGraphManager.java:306-315 | keeping every shadow changes nothing |
| SyncShadowGraph.ChainBounds | swirlds-platform-core/src/main/java/com/swirlds/platform/sync/SyncShadowGraphManager.java:306-313 | every shadow a removal walk takes is present, expired and no younger than the start |
| SyncShadowGraph.ChainHasChildren | swirlds-platform-core/src/main/java/com/swirlds/platform/sync/SyncShadowGraphManager.java:306-313 | every shadow a walk takes past its start has a self-child, so it is no tip |
| SyncShadowGraph.ChainUnderPrune | swirlds-platform-core/src/main/java/com/swirlds/platform/sync/SyncShadowGraphManager.java:306-313 | after an up-closed removal a walk takes the same chain, less what is gone |
| SyncShadowGraph.RemoveSelfAncestry | swirlds-platform-core/src/main/java/com/swirlds/platform/sync/SyncShadowGraphManager.java:313 | the walk from a shadow removes exactly its expired self-ancestry chain and returns its size; the graph stays valid |
| SyncShadowGraph.RemoveStrictSelfAncestry | swirlds-platform-core/src/main/java/com/swirlds/platform/sync/SyncShadowGraphManager.java:306 | the same from the self-parent; the start itself is never removed |
| SyncShadowGraph.TipsAfterRemoval | swirlds-platform-core/src/main/java/com/swirlds/platform/sync/SyncShadowGraphManager.java:302-319 | removing an up-closed set of expired shadows leaves as tips exactly the old tips that survive |
| SyncShadowGraph.Closure | swirlds-platform-core/src/main/java/com/swirlds/platform/sync/SyncShadowGraphManager.java:246 | the closure holds the start set, lies in the graph and is closed under children |
| SyncShadowGraph.ClosureLeast | swirlds-platform-core/src/main/java/com/swirlds/platform/sync/SyncShadowGraphManager.java:246 | the closure is the least closed set holding the start set |
| SyncShadowGraph.Descendants | swirlds-platform-core/src/main/java/com/swirlds/platform/sync/SyncShadowGraphManager.java:246 | graphDescendants holds the start, lies in the graph and is closed under self- and other-children |
| ShadowGraphManager.SyncShadowGraphManager.constructor | swirlds-platform-core/src/main/java/com/swirlds/platform/sync/SyncShadowGraphManager.java:60-65 | empty graph, no tips, expiredGen = Long.MIN_VALUE |
| ShadowGraphManager.SyncShadowGraphManager.FromGraph | swirlds-platform-core/src/main/java/com/swirlds/platform/sync/SyncShadowGraphManager.java:75-77 | the given graph, expiredGen = -1, tips identified |
| ShadowGraphManager.SyncShadowGraphManager.FromGraphAndGeneration | swirlds-platform-core/src/main/java/com/swirlds/platform/sync/SyncShadowGraphManager.java:90-96 | the given graph and watermark, tips identified |
| ShadowGraphManager.SyncShadowGraphManager.IdentifyTips | swirlds-platform-core/src/main/java/com/swirlds/platform/sync/SyncShadowGraphManager.java:458-465 | the tip set becomes exactly the shadows without a self-child; nothing else changes |
| ShadowGraphManager.ScanTips | swirlds-platform-core/src/main/java/com/swirlds/platform/sync/SyncShadowGraphManager.java:460-464 | the scan over all shadows collects exactly the tips |
| ShadowGraphManager.TipsInIsTips | swirlds-platform-core/src/main/java/com/swirlds/platform/sync/SyncShadowGraphManager.java:460-464 | the shadows a scan of a list collects are the tips among its elements |
| ShadowGraphManager.SyncShadowGraphManager.Clear | swirlds-platform-core/src/main/java/com/swirlds/platform/sync/SyncShadowGraphManager.java:102-106 | graph and tips empty, expiredGen = Long.MIN_VALUE |
| ShadowGraphManager.SyncShadowGraphManager.SetExpiredGeneration | swirlds-platform-core/src/main/java/com/swirlds/platform/sync/SyncShadowGraphManager.java:428-442 | any value is taken, a decrease included; graph and tips unchanged |
| ShadowGraphManager.SyncShadowGraphManager.Expire | swirlds-platform-core/src/main/java/com/swirlds/platform/sync/SyncShadowGraphManager.java:285-294 | the current watermark again returns 0 and changes nothing; a new one is stored and the sweep runs |
| ShadowGraphManager.SyncShadowGraphManager.ExpireSweep | swirlds-platform-core/src/main/java/com/swirlds/platform/sync/SyncShadowGraphManager.java:302-319 | removes exactly the swept shadows; every expired tip leaves the tips and every unexpired tip stays; the count is the number of shadows removed |
| ShadowGraphManager.SweepExpired | swirlds-platform-core/src/main/java/com/swirlds/platform/sync/SyncShadowGraphManager.java:303-318 | the two passes give the pruned graph, its tips and the count of removed shadows |
| ShadowGraphManager.StrictAncestrySweep | swirlds-platform-core/src/main/java/com/swirlds/platform/sync/SyncShadowGraphManager.java:306-309 | the first pass removes the strict expired chains of all tips and records each tip's expiry |
| ShadowGraphManager.ExpiredTipSweep | swirlds-platform-core/src/main/java/com/swirlds/platform/sync/SyncShadowGraphManager.java:311-316 | the second pass removes each expired tip with its chain and drops it from the tips |
| ShadowGraphManager.VisitTip | swirlds-platform-core/src/main/java/com/swirlds/platform/sync/SyncShadowGraphManager.java:311-316 | one tip of the second pass keeps the pass invariant |
| ShadowGraphManager.StrictChainFacts | swirlds-platform-core/src/main/java/com/swirlds/platform/sync/SyncShadowGraphManager.java:306 | a strict chain is present, expired, up-closed and holds no tip |
| ShadowGraphManager.SweptFacts | swirlds-platform-core/src/main/java/com/swirlds/platform/sync/SyncShadowGraphManager.java:302-319 | every swept shadow was present and expired |
| ShadowGraphManager.SweptTips | swirlds-platform-core/src/main/java/com/swirlds/platform/sync/SyncShadowGraphManager.java:311-316 | the tips the sweep removes are exactly the expired tips |
| ShadowGraphManager.SweepTips | swirlds-platform-core/src/main/java/com/swirlds/platform/sync/SyncShadowGraphManager.java:302-319 | after the sweep the remaining tips are exactly the tips of the pruned graph, and a tip remains iff it is unexpired |
| ShadowGraphManager.SyncShadowGraphManager.SendTipHashes | swirlds-platform-core/src/main/java/com/swirlds/platform/sync/SyncShadowGraphManager.java:113-115 | one hash per tip, each tip once |
| ShadowGraphManager.SyncShadowGraphManager.SetReceivedTipHashes | swirlds-platform-core/src/main/java/com/swirlds/platform/sync/SyncShadowGraphManager.java:138-150 | working tips start as the tips minus everything covered; known received hashes are marked for sync; the send list gains their strict self-descendant lists in order |
| ShadowGraphManager.ApplyReceivedTips | swirlds-platform-core/src/main/java/com/swirlds/platform/sync/SyncShadowGraphManager.java:142-149 | the loop over the received hashes builds exactly that send list, working set and sync marks |
| ShadowGraphManager.ReceiveTip | swirlds-platform-core/src/main/java/com/swirlds/platform/sync/SyncShadowGraphManager.java:143-148 | one received hash: marked and processed when known, ignored otherwise |
| ShadowGraphManager.ProcessSelfDescendants | swirlds-platform-core/src/main/java/com/swirlds/platform/sync/SyncShadowGraphManager.java:522-536 | appends the self-descendant list of y and removes its hashes from the working tips |
| ShadowGraphManager.ProcessStrictSelfDescendants | swirlds-platform-core/src/main/java/com/swirlds/platform/sync/SyncShadowGraphManager.java:502-509 | the same for every self-child of x, so x itself is not appended |
| ShadowGraphManager.ListSound | swirlds-platform-core/src/main/java/com/swirlds/platform/sync/SyncShadowGraphManager.java:522-536 | every event appended is a stored self-descendant of the start |
| ShadowGraphManager.ListComplete | swirlds-platform-core/src/main/java/com/swirlds/platform/sync/SyncShadowGraphManager.java:522-536 | every self-descendant of the start is appended |
| ShadowGraphManager.StrictListExact | swirlds-platform-core/src/main/java/com/swirlds/platform/sync/SyncShadowGraphManager.java:502-509 | processStrictSelfDescendants appends exactly the strict self-descendants |
| ShadowGraphManager.StrictListsExact | swirlds-platform-core/src/main/java/com/swirlds/platform/sync/SyncShadowGraphManager.java:138-150 | phase 1 appends exactly the strict self-descendants of the known received hashes, with no de-duplication |
| ShadowGraphManager.CoveredExact | swirlds-platform-core/src/main/java/com/swirlds/platform/sync/SyncShadowGraphManager.java:138-150 | a shadow leaves the working tips in phase 1 iff it self-descends from a received hash |
| ShadowGraphManager.StrictCovered | swirlds-platform-core/src/main/java/com/swirlds/platform/sync/SyncShadowGraphManager.java:143-148 | what a received tip removes is itself plus the hashes of its strict list |
| ShadowGraphManager.SyncShadowGraphManager.GetSendTipBooleans | swirlds-platform-core/src/main/java/com/swirlds/platform/sync/SyncShadowGraphManager.java:173-186 | one boolean per received hash, true iff it names a known shadow with a self-child (a known non-tip) |
| ShadowGraphManager.SyncShadowGraphManager.SetReceivedTipBooleans | swirlds-platform-core/src/main/java/com/swirlds/platform/sync/SyncShadowGraphManager.java:199-210 | each true boolean marks the tip at its index for sync and removes it from the working tips; a true boolean past the tips is the out-of-bounds exception |
| ShadowGraphManager.ApplyTipBooleans | swirlds-platform-core/src/main/java/com/swirlds/platform/sync/SyncShadowGraphManager.java:202-209 | the loop marks exactly the flagged tips, and fails iff a true boolean lies past the tip list |
| ShadowGraphManager.SyncShadowGraphManager.FinishSendEventList | swirlds-platform-core/src/main/java/com/swirlds/platform/sync/SyncShadowGraphManager.java:239-265 | the send list gains exactly the walked events, as a permutation sorted by generation; the search marks are the walk's |
| ShadowGraphManager.WalkTips | swirlds-platform-core/src/main/java/com/swirlds/platform/sync/SyncShadowGraphManager.java:242-262 | the outer loop computes the walks of all working tips |
| ShadowGraphManager.WalkBack | swirlds-platform-core/src/main/java/com/swirlds/platform/sync/SyncShadowGraphManager.java:243-261 | the walk loop from one working tip computes its walk |
| ShadowGraphManager.WalkStep | swirlds-platform-core/src/main/java/com/swirlds/platform/sync/SyncShadowGraphManager.java:246-257 | a shadow with a sync-marked descendant is marked for search; it is sent iff it is not marked for search |
| ShadowGraphManager.AnyMarked | swirlds-platform-core/src/main/java/com/swirlds/platform/sync/SyncShadowGraphManager.java:246-251 | the inner loop finds a marked descendant iff one exists |
| ShadowGraphManager.WalkSound | swirlds-platform-core/src/main/java/com/swirlds/platform/sync/SyncShadowGraphManager.java:243-261 | a walk sends only stored self-ancestors of its start that have no sync-marked descendant |
| ShadowGraphManager.WalkMarks | swirlds-platform-core/src/main/java/com/swirlds/platform/sync/SyncShadowGraphManager.java:246-251 | a walk only adds search marks, and only to shadows with a sync-marked descendant |
| ShadowGraphManager.WalkComplete | swirlds-platform-core/src/main/java/com/swirlds/platform/sync/SyncShadowGraphManager.java:243-261 | a walk sends every self-ancestor of its start that has no sync-marked descendant |
| ShadowGraphManager.PhaseThreeExact | swirlds-platform-core/src/main/java/com/swirlds/platform/sync/SyncShadowGraphManager.java:239-265 | phase 3 sends exactly the self-ancestors of working tips that have no sync-marked descendant |
| ShadowGraphManager.LongSub | swirlds-platform-core/src/main/java/com/swirlds/platform/sync/SyncShadowGraphManager.java:488 | long subtraction equals the true difference modulo 2^64, and equals it when it fits |
| JavaInts.ToInt | swirlds-platform-core/src/main/java/com/swirlds/platform/sync/SyncShadowGraphManager.java:488 | the int cast lies in the int range, agrees modulo 2^32, and is the identity on ints |
| ShadowGraphManager.AsWrittenMisorders | swirlds-platform-core/src/main/java/com/swirlds/platform/sync/SyncShadowGraphManager.java:488 | the comparator as written puts generation 0 after generation 2^31 + 1 |
| ShadowGraphManager.CompareGenerations | swirlds-platform-core/src/main/java/com/swirlds/platform/sync/SyncShadowGraphManager.java:487-489 | the corrected comparator's sign is the generation order |
| ShadowGraphManager.AsWrittenAgrees | swirlds-platform-core/src/main/java/com/swirlds/platform/sync/SyncShadowGraphManager.java:488 | while generations differ by less than 2^31 the comparator as written has the corrected sign |
| ShadowGraphManager.InsertByGeneration | swirlds-platform-core/src/main/java/com/swirlds/platform/sync/SyncShadowGraphManager.java:487-489 | inserting into a sorted list keeps it sorted and adds exactly the element |
| ShadowGraphManager.SortByGeneration | swirlds-platform-core/src/main/java/com/swirlds/platform/sync/SyncShadowGraphManager.java:487-489 | the result is sorted by generation and a permutation of the input |
| MerklePathReplacement.NodeStore.IncrementReferenceCount | swirlds-common/src/main/java/com/swirlds/common/merkle/copy/MerklePathReplacement.java:160 | the node's count grows by one, nothing else changes |
| MerklePathReplacement.NodeStore.DecrementReferenceCount | swirlds-common/src/main/java/com/swirlds/common/merkle/copy/MerklePathReplacement.java:165 | the node's count drops by one, nothing else changes |
| MerklePathReplacement.NodeStore.InvalidateHash | swirlds-common/src/main/java/com/swirlds/common/merkle/copy/MerklePathReplacement.java:90 | the node loses its hash |
| MerklePathReplacement.NodeStore.CopyAnyNodeType | swirlds-common/src/main/java/com/swirlds/common/merkle/copy/MerklePathReplacement.java:78 | a fresh node of the original's kind and route, with no children or references |
| MerklePathReplacement.NodeStore.SetChild | swirlds-common/src/main/java/com/swirlds/common/merkle/copy/MerklePathReplacement.java:81 | the slot of the parent takes the child, which takes the given route |
| MerklePathReplacement.NodeStore.AdoptChildren | swirlds-common/src/main/java/com/swirlds/common/merkle/copy/MerklePathReplacement.java:85 | the copy takes the original's children |
| MerklePathReplacement.NodeStore.Initialize | swirlds-common/src/main/java/com/swirlds/common/merkle/copy/MerklePathReplacement.java:186 | the call is appended to the initialization log |
| MerklePathReplacement.Originals | swirlds-common/src/main/java/com/swirlds/common/merkle/copy/MerklePathReplacement.java:269-297 | the original nodes along a route: one more than the steps, starting at the first node |
| MerklePathReplacement.OriginalsFacts | swirlds-common/src/main/java/com/swirlds/common/merkle/copy/MerklePathReplacement.java:269-297 | the k-th original has the first node's route extended by k steps, and each step leads to the next original |
| MerklePathReplacement.OriginalsDistinct | swirlds-common/src/main/java/com/swirlds/common/merkle/copy/MerklePathReplacement.java:269-297 | the originals along a route are pairwise distinct |
| MerklePathReplacement.CopyPropagates | swirlds-common/src/main/java/com/swirlds/common/merkle/copy/MerklePathReplacement.java:69-91 | once a node is copied, every later non-skipped node is copied |
| MerklePathReplacement.CopiedExact | swirlds-common/src/main/java/com/swirlds/common/merkle/copy/MerklePathReplacement.java:69-77 | a node is copied iff it is past the first node, before the skipped tail, and some original at or above it (below the first) is shared |
| MerklePathReplacement.CopyFlags | swirlds-common/src/main/java/com/swirlds/common/merkle/copy/MerklePathReplacement.java:69-77 | one copy flag per path index |
| MerklePathReplacement.InitOrderExact | swirlds-common/src/main/java/com/swirlds/common/merkle/copy/MerklePathReplacement.java:180-190 | initializePath initializes exactly the flagged path nodes that are internal |
| MerklePathReplacement.HandledRefs | swirlds-common/src/main/java/com/swirlds/common/merkle/copy/MerklePathReplacement.java:150-168 | the child's count grows by the artificial references, the parent's drops by one unless it is the first node, others unchanged |
| MerklePathReplacement.HandleArtificialReferences | swirlds-common/src/main/java/com/swirlds/common/merkle/copy/MerklePathReplacement.java:150-168 | returns 1 iff the child is not the last node, and the counts become HandledRefs |
| MerklePathReplacement.CopyChildIfNeeded | swirlds-common/src/main/java/com/swirlds/common/merkle/copy/MerklePathReplacement.java:58-94 | a child at or past `pathLength - skipAtEnd`, computed as a wrapping int subtraction (`SkipFrom`), is returned unchanged; a kept child loses its hash; a copied child is replaced by a fresh copy installed in the parent at the same index |
| MerklePathReplacement.SkipStepsInRoute | swirlds-common/src/main/java/com/swirlds/common/merkle/copy/MerklePathReplacement.java:104-111 | the position after the skipped steps, or the error when the route is too short |
| MerklePathReplacement.AddNodeToPath | swirlds-common/src/main/java/com/swirlds/common/merkle/copy/MerklePathReplacement.java:127-135 | the two arrays change at the one index only |
| MerklePathReplacement.InitializePath | swirlds-common/src/main/java/com/swirlds/common/merkle/copy/MerklePathReplacement.java:180-190 | the log gains the flagged internal nodes from the highest index down |
| MerklePathReplacement.PathDistinct | swirlds-common/src/main/java/com/swirlds/common/merkle/copy/MerklePathReplacement.java:269-297 | the path nodes placed so far are pairwise distinct |
| MerklePathReplacement.ShapeAdvance | swirlds-common/src/main/java/com/swirlds/common/merkle/copy/MerklePathReplacement.java:78-86 | installing a copy keeps every route following the tree |
| MerklePathReplacement.CopiedIntoValid | swirlds-common/src/main/java/com/swirlds/common/merkle/copy/MerklePathReplacement.java:78-86 | copying a child below its parent keeps the store well formed |
| MerklePathReplacement.KeptAtValid | swirlds-common/src/main/java/com/swirlds/common/merkle/copy/MerklePathReplacement.java:88-91 | keeping a node (counts moved, hash dropped) keeps the store well formed |
| MerklePathReplacement.StepCopy | swirlds-common/src/main/java/com/swirlds/common/merkle/copy/MerklePathReplacement.java:269-297 | a turn that copies extends the placed path by the fresh copy |
| MerklePathReplacement.StepKeep | swirlds-common/src/main/java/com/swirlds/common/merkle/copy/MerklePathReplacement.java:269-297 | a turn that keeps extends the placed path by the original |
| MerklePathReplacement.TurnInvariant | swirlds-common/src/main/java/com/swirlds/common/merkle/copy/MerklePathReplacement.java:269-297 | every turn of the loop is defined and keeps the store valid and the loop invariant |
| MerklePathReplacement.LoopInvariant | swirlds-common/src/main/java/com/swirlds/common/merkle/copy/MerklePathReplacement.java:269-297 | every loop state reached is valid and has the first i path nodes placed |
| MerklePathReplacement.TurnFacts | swirlds-common/src/main/java/com/swirlds/common/merkle/copy/MerklePathReplacement.java:269-297 | what each turn reads is as the route says, and the copy flag is the source's condition |
| MerklePathReplacement.ReplaceStep | swirlds-common/src/main/java/com/swirlds/common/merkle/copy/MerklePathReplacement.java:270-296 | one turn visits the next original, records its copy flag, and advances the loop state by one turn |
| MerklePathReplacement.ReplaceAlongRoute | swirlds-common/src/main/java/com/swirlds/common/merkle/copy/MerklePathReplacement.java:269-297 | the loop runs one turn per remaining step and ends at index pathLength |
| MerklePathReplacement.StartFacts | swirlds-common/src/main/java/com/swirlds/common/merkle/copy/MerklePathReplacement.java:237-267 | a valid store and an existing route give the loop's starting state |
| MerklePathReplacement.ReplacedAtEnd | swirlds-common/src/main/java/com/swirlds/common/merkle/copy/MerklePathReplacement.java:297-305 | after the last turn and initializePath the store is valid and the path replaced |
| MerklePathReplacement.ReplacePath | swirlds-common/src/main/java/com/swirlds/common/merkle/copy/MerklePathReplacement.java:228-306 | a null node, a route too short and a leaf with a longer path are errors with the store unchanged; the call succeeds exactly when none of the three applies, and then the store is valid and Replaced holds: path length = steps + 1, path[0] is the first node and not copied, copies exactly where CopiedExact says, skipped tail (from `SkipFrom(pathLength, skipAtEnd)`, Java's wrapping int subtraction) returned as originals, kept nodes hash-invalidated, copies installed at the route's index, artificial references given back, copied internal nodes initialized back to front |
| MerklePathReplacement.ReplaceBelowFirst | swirlds-common/src/main/java/com/swirlds/common/merkle/copy/MerklePathReplacement.java:266-303 | below an internal first node, the loop and initializePath leave a valid store in which Replaced holds, and the path index ends at the path length, so the final check never throws |
| MerklePathReplacement.ReplacedHashes | swirlds-common/src/main/java/com/swirlds/common/merkle/copy/MerklePathReplacement.java:69-91 | after a replacement every path node from index 1 up to the skipped tail has no hash; the first node and the skipped tail are the originals with their hash state unchanged |
| MerklePathReplacement.WrappedSkipKeepsAll | swirlds-common/src/main/java/com/swirlds/common/merkle/copy/MerklePathReplacement.java:69 | when `pathLength - skipAtEnd` overflows an int (skipAtEnd near Integer.MIN_VALUE) the bound wraps negative, so no node is copied and no hash is invalidated |
| MerklePathReplacement.ReplacePathFromRoot | swirlds-common/src/main/java/com/swirlds/common/merkle/copy/MerklePathReplacement.java:204-206 | replacePath from the root with nothing skipped: the same three errors, success exactly when none applies, and Replaced with skipAtEnd 0 |
| BinaryMerkleInternal.Children | swirlds-common/src/main/java/com/swirlds/common/merkle/utility/AbstractBinaryMerkleInternal.java:29-35 | the slots in index order, always two of them |
| BinaryMerkleInternal.ChildAt | swirlds-common/src/main/java/com/swirlds/common/merkle/utility/AbstractBinaryMerkleInternal.java:102-110 | succeeds iff the index is 0 or 1, with the slot at that index; otherwise IllegalChildIndexException(0, 1, index) |
| BinaryMerkleInternal.WithChild | swirlds-common/src/main/java/com/swirlds/common/merkle/utility/AbstractBinaryMerkleInternal.java:123-131 | succeeds iff the index is 0 or 1, replacing exactly that slot; otherwise the same exception |
| BinaryMerkleInternal.BinaryInternal.constructor | swirlds-common/src/main/java/com/swirlds/common/merkle/utility/AbstractBinaryMerkleInternal.java:42-44 | both slots start empty |
| BinaryMerkleInternal.BinaryInternal.NumberOfChildren | swirlds-common/src/main/java/com/swirlds/common/merkle/utility/AbstractBinaryMerkleInternal.java:59-62 | always the number of slots, 2, even when both are empty |
| BinaryMerkleInternal.BinaryInternal.MinimumChildCount | swirlds-common/src/main/java/com/swirlds/common/merkle/utility/AbstractBinaryMerkleInternal.java:70-72 | 0 for every version |
| BinaryMerkleInternal.BinaryInternal.MaximumChildCount | swirlds-common/src/main/java/com/swirlds/common/merkle/utility/AbstractBinaryMerkleInternal.java:84-86 | the number of children for every version |
| BinaryMerkleInternal.BinaryInternal.GetChild | swirlds-common/src/main/java/com/swirlds/common/merkle/utility/AbstractBinaryMerkleInternal.java:102-110 | succeeds iff the index is 0 or 1, giving the left slot for 0 and the right slot for 1; any other index gives IllegalChildIndex(0, 1, index) |
| BinaryMerkleInternal.BinaryInternal.SetChildInternal | swirlds-common/src/main/java/com/swirlds/common/merkle/utility/AbstractBinaryMerkleInternal.java:123-131 | a valid index makes the slots WithChild's result; a bad index returns the exception and changes neither slot |
| BinaryMerkleInternal.BinaryInternal.AllocateSpaceForChild | swirlds-common/src/main/java/com/swirlds/common/merkle/utility/AbstractBinaryMerkleInternal.java:143-145 | no state changes |
| BinaryMerkleInternal.BinaryInternal.CheckChildIndexIsValid | swirlds-common/src/main/java/com/swirlds/common/merkle/utility/AbstractBinaryMerkleInternal.java:160-162 | no state changes |
| BinaryMerkleInternal.ChildCountsAgree | swirlds-common/src/main/java/com/swirlds/common/merkle/utility/AbstractBinaryMerkleInternal.java:59-110 | minimum ≤ count ≤ maximum for every version, and an index is accepted iff it is below the count |
| BinaryMerkleInternal.GetAfterSet | swirlds-common/src/main/java/com/swirlds/common/merkle/utility/AbstractBinaryMerkleInternal.java:102-131 | after setting slot i to c, getChild(i) returns c |
| BinaryMerkleInternal.OtherSlotUnchanged | swirlds-common/src/main/java/com/swirlds/common/merkle/utility/AbstractBinaryMerkleInternal.java:102-131 | setting one slot leaves the other as it was |
| BinaryMerkleInternal.BadIndexRejected | swirlds-common/src/main/java/com/swirlds/common/merkle/utility/AbstractBinaryMerkleInternal.java:102-131 | a bad index fails both operations with the same exception |
| BinaryMerkleInternal.SetSameChild | swirlds-common/src/main/java/com/swirlds/common/merkle/utility/AbstractBinaryMerkleInternal.java:102-131 | writing back what getChild returned changes nothing |
| BinaryMerkleInternal.LastWriteWins | swirlds-common/src/main/java/com/swirlds/common/merkle/utility/AbstractBinaryMerkleInternal.java:123-131 | of two writes to a slot the later wins |
| BinaryMerkleInternal.SlotsExtensional | swirlds-common/src/main/java/com/swirlds/common/merkle/utility/AbstractBinaryMerkleInternal.java:102-110 | two nodes whose getChild agrees at 0 and 1 have the same slots |
| EventStringBuilder.NatToString | swirlds-platform-core/src/main/java/com/swirlds/platform/event/EventStringBuilder.java:137-139 | decimal digits, non-empty, without a leading zero |
| EventStringBuilder.LongToString | swirlds-platform-core/src/main/java/com/swirlds/platform/event/EventStringBuilder.java:137-139 | the text of a long is non-empty and has no comma |
| EventStringBuilder.NatRoundTrip | swirlds-platform-core/src/main/java/com/swirlds/platform/event/EventStringBuilder.java:137-139 | the digits of n read back give n |
| EventStringBuilder.LongRoundTrip | swirlds-platform-core/src/main/java/com/swirlds/platform/event/EventStringBuilder.java:137-139 | the text of any long, negative ones included, reads back as that long |
| EventStringBuilder.HashText | swirlds-platform-core/src/main/java/com/swirlds/platform/event/EventStringBuilder.java:151-157 | "null" for a missing hash, otherwise the hex of its first 4 bytes |
| EventStringBuilder.FieldsRoundTrip | swirlds-platform-core/src/main/java/com/swirlds/platform/event/EventStringBuilder.java:137-142 | "creator,generation,hash)" reads back to exactly the creator and generation |
| EventStringBuilder.NoneExactlyWhenAbsent | swirlds-platform-core/src/main/java/com/swirlds/platform/event/EventStringBuilder.java:128-143 | the short event is "(none)" iff creator and generation are the absent markers and the hash is null |
| EventStringBuilder.ShortEventCarriesFields | swirlds-platform-core/src/main/java/com/swirlds/platform/event/EventStringBuilder.java:128-143 | any other event renders as "(MALFORMED " (creator absent) or "(" followed by fields that read back to its creator and generation, ending in ")" |
| EventStringBuilder.InitialText | swirlds-platform-core/src/main/java/com/swirlds/platform/event/EventStringBuilder.java:64-73 | empty iff both parts are present; "(HashedData=null)" whenever hashed data is null, checked first; "(UnhashedData=null)" otherwise |
| EventStringBuilder.EventInitialText | swirlds-platform-core/src/main/java/com/swirlds/platform/event/EventStringBuilder.java:50-62 | the null text for a null argument, otherwise the text of its two parts |
| EventStringBuilder.AppendAddsTextIffComplete | swirlds-platform-core/src/main/java/com/swirlds/platform/event/EventStringBuilder.java:75-112 | an append adds text iff both data parts are present |
| EventStringBuilder.NullBuilderKeepsErrorText | swirlds-platform-core/src/main/java/com/swirlds/platform/event/EventStringBuilder.java:75-112 | a builder from missing data keeps its error text whatever is appended |
| EventStringBuilder.TextStartsWithInitial | swirlds-platform-core/src/main/java/com/swirlds/platform/event/EventStringBuilder.java:159-161 | whatever is appended, the built text starts with the text the builder was made with |
| EventStringBuilder.Builder.FromData | swirlds-platform-core/src/main/java/com/swirlds/platform/event/EventStringBuilder.java:38-43 | keeps both parts, empty buffer |
| EventStringBuilder.Builder.FromError | swirlds-platform-core/src/main/java/com/swirlds/platform/event/EventStringBuilder.java:45-48 | no data, the error text in the buffer |
| EventStringBuilder.Builder.AppendHash | swirlds-platform-core/src/main/java/com/swirlds/platform/event/EventStringBuilder.java:151-157 | the buffer gains HashText |
| EventStringBuilder.Builder.AppendShortEvent | swirlds-platform-core/src/main/java/com/swirlds/platform/event/EventStringBuilder.java:124-143 | the buffer gains exactly the short event text |
| EventStringBuilder.Builder.AppendEvent | swirlds-platform-core/src/main/java/com/swirlds/platform/event/EventStringBuilder.java:79-88 | returns the same builder; the buffer gains the event's text, nothing when data is missing |
| EventStringBuilder.Builder.AppendSelfParent | swirlds-platform-core/src/main/java/com/swirlds/platform/event/EventStringBuilder.java:90-100 | the same with " sp" and the self-parent (the event's creator, self-parent generation and hash) |
| EventStringBuilder.Builder.AppendOtherParent | swirlds-platform-core/src/main/java/com/swirlds/platform/event/EventStringBuilder.java:102-112 | the same with " op" and the other-parent (otherId, other-parent generation and hash) |
| EventStringBuilder.Builder.Build | swirlds-platform-core/src/main/java/com/swirlds/platform/event/EventStringBuilder.java:159-161 | the text accumulated so far |
| EventStringBuilder.BuilderOf | swirlds-platform-core/src/main/java/com/swirlds/platform/event/EventStringBuilder.java:64-73 | a fresh builder holding InitialText, with data exactly when both parts are present |
| EventStringBuilder.BuilderOfEvent | swirlds-platform-core/src/main/java/com/swirlds/platform/event/EventStringBuilder.java:50-55 | "(EventImpl=null)" for a null event, otherwise the builder of its two parts |
| EventStringBuilder.BuilderOfTask | swirlds-platform-core/src/main/java/com/swirlds/platform/event/EventStringBuilder.java:57-62 | "(ValidateEventTask=null)" for a null task, otherwise the builder of its two parts |

## Left out

- `synchronized` locking, logging, and the log-string overloads of `setReceivedTipHashes`, `getSendTipBooleans` and `finishSendEventList`, which only delegate. The model is sequential.
- The accessors `shadow`, `hashgraphEvent`, `getNumTips`, `getNumShadowEvents`, `getExpiredGeneration` and `getTips`. They only read fields, which the model exposes directly.
- `SyncShadowGraph` is not part of this model. Module `SyncShadowGraph` is an explicit model of it, with these assumptions:
  - a removed shadow's links are cut, so lookups of an expired parent find nothing;
  - `graphDescendants` includes its start;
  - the removal walks stop at the first unexpired shadow.
- ShadowGraphManager.SyncShadowGraphManager.AddEvent: requires that an event's parent links agree with the graph (a parent is older than its child). This is the contract of the events the platform delivers; the manager does not check it.
- ShadowGraphManager.SyncShadowGraphManager.FinishSendEventList: is proved with the corrected comparator (see Findings). The send list is stated as a permutation of the old list plus the walked events, not as the exact order of Java's stable sort.
- ShadowGraphManager.SyncShadowGraphManager.Expire: the count of removed shadows is an unbounded integer. Java accumulates it in an `AtomicInteger` (lines 303-318), which would wrap past 2^31 - 1 removals in one call; the model does not capture that wrap.
- ShadowGraphManager.WalkBack: a working tip whose shadow has been removed from the graph sends nothing. This happens when `expire` runs between phase 1 and phase 3: each phase is a separate call, and `expire` does not touch `SyncData`. Java still sends that shadow's event and follows its self-parent link. What a removed shadow still links to is state of `SyncShadowGraph`, which is not part of this model, so the model does not capture this case.
- The iteration order of `HashSet` (tips, working tips) is modelled as ascending hash order, a fixed enumeration of the set.
- ShadowGraphManager.ProcessSelfDescendants: visits the self-children of a shadow in ascending hash order (`Ordered(SelfChildren(..))`). Java visits them in the order `getSelfChildren` returns, which `SyncShadowGraph` decides. That order fixes the exact order of the phase-1 send list in `SetReceivedTipHashes`; the set of events appended does not depend on it.
- `SyncData`: the sync and search marks are sets of hashes. Java marks a shadow at line 145 and a `Hash` at line 205. A shadow is identified by its hash in the model, so the two agree.
- MerklePathReplacement.ReplacePath: requires that the route can be followed from the first node (`RouteFollows`): every remaining step names a present child of an internal node. Java handles the other routes as follows:
  - a missing child that is not the last node, or that is the last node when it is not skipped, is a null dereference;
  - an intermediate leaf is a `ClassCastException` at `child.cast()`;
  - an index out of a node's range is that node's own index exception;
  - when `skipAtEnd` is at least 1 and only the last step names an empty slot, Java throws nothing and returns a path whose last entry is null (lines 158-162, 69-71 and 292-295).
  The model does not capture any of these routes, the last case included.
- MerklePathReplacement.ReplacePath: the route and path lengths are unbounded. Java's are ints, so a route of 2^31 - 1 steps or more would wrap `pathLength` itself; the model does not capture that. `skipAtEnd` is a Java int, and its wrapping subtraction at line 69 is modelled (`SkipFrom`, `WrappedSkipKeepsAll`).
- MerklePathReplacement.ReplacedHashes: follows the code, not the Javadoc of lines 215-216. The Javadoc says every path node but the skipped ones is returned with a null hash, but the code never invalidates the first node's hash, and neither does the model.
- MerklePathReplacement.ReplacePath: the final `pathIndex != pathLength` check (lines 300-303) is proved unreachable and is an assertion in the model.
- MerklePathReplacement.ReplaceAlongRoute: is the `while` loop of `replacePath`, moved into a method of its own.
- MerklePathReplacement.Turn: leaves a loop state unchanged where the turn is undefined. `TurnInvariant` shows this never happens on a state the loop reaches.
- The internals of `MerkleCopy.copyAnyNodeType`, `adoptChildren`, `setChild` (including its reference-count side effects), `initialize()` and hash invalidation are left out. They are abstract effects on the store.
- BinaryMerkleInternal.BinaryInternal: the copy constructor (lines 49-51) and the abstract `copy()` are left out. What they copy is decided by the superclass `AbstractMerkleInternal`, which is not part of this model.
- EventStringBuilder: `CommonUtils.hex`, `EventImpl.NO_EVENT_ID` and `EventImpl.NO_EVENT_GEN` are parameters (`Format`), not their library definitions.

## Findings

| source | as written | input that shows it | evidently intended | confidence | as-written member | corrected member |
|---|---|---|---|---|---|---|
| swirlds-platform-core/src/main/java/com/swirlds/platform/sync/SyncShadowGraphManager.java:488 | the sort comparator returns `(int) (e1.getGeneration() - e2.getGeneration())`, which overflows once generations differ by 2^31 or more | generations 0 and 2^31 + 1: the cast difference is positive, so the older event sorts after the newer one | order by generation (`Long.compare`) | not executed | ShadowGraphManager.AsWrittenMisorders | ShadowGraphManager.CompareGenerations |
