# Usage grouping tree and its helpers, in Dafny

This project models the usage view's grouping tree from an IntelliJ code base, together with the small utilities around it, and proves what they do.

**`GroupNode` over `Node`.** The tree files search results ("usages") into nested groups, one level per grouping rule. Each group node keeps:
- a map from group to subgroup node;
- a list of leaf usage nodes;
- the ordered child list of the Swing tree node;
- a running count of the usages below it.

Every node also caches three flags (valid, read-only, excluded), which `update()` refreshes.

The nodes point at each other three ways (parent link, child list, subgroup map). So the whole tree is one class, `UsageTree.UsageTreeModel`, which stands for the shared Swing `DefaultTreeModel`:
- Every node is a number (`NodeRef`) into a store `nodes: map<NodeRef, NodeData>`.
- Node numbers are handed out in creation order. A parent, or the owner of a map or leaf list, always has a smaller number than what it holds, so every walk up or down terminates.
- The tree-model callbacks (`insertNodeInto`, `removeNodeFromParent`, `nodeChanged`, `reload`) edit the child lists. They are also recorded in a ghost log of `Event`s.
- `usage_tree_spec.dfy` states, on store values, what a well-formed store is and what each operation does. The methods in `usage_tree.dfy` are proved against those statements.

**The remaining core files:**
- Character-buffer scans (`CharArrayUtil`).
- The read/write decision of `UsageInfoToUsageConverter`.
- The processors of `PsiElementProcessor`.
- `ArrayListSet`.
- `ListWithSelection`.
- `VcsRevisionNumber` comparison with Java's 32-bit and 64-bit arithmetic written out.

**Collaborators become parameters.** Code the core only calls becomes an abstract parameter:
- the `UsageGroup` order;
- the `MergeableUsage` test and merge relation;
- the duplicate-filter setting;
- the validity, read-only and excluded flags of groups and of non-group nodes;
- the PSI queries;
- the registered usage converters.

## Behaviour reproduced as written

- **The subgroup map keeps pruned groups.** `removeUsage` asks the subgroup map to remove the group *node* instead of its group key (GroupNode.java:105), so the entry stays.
  - `UsageTreeScenarios.StaleSubgroup` proves what follows from this. A second `addGroup` with the same key returns the detached node. A usage added there is not counted at the root. Removing it drives the root count to -1, and then `removeNodeFromParent` throws, because the node has no parent.
- **Merged usages are counted.** `addUsage` increments the counts along the ancestors even when the usage was merged into an existing leaf (GroupNode.java:137-138).
- **The leaf stays in the child list.** `removeUsage` takes the leaf out of `myUsageNodes` only. The `UsageNode` itself stays among the group's children.
- **`updateNotify` on the root throws.** `GroupNode.updateNotify` calls `myGroup.update()`, which throws on the root, whose group is null. `Update` then reports `failed`, after the flags were cached and before `nodeChanged` is sent.
- **A setter forces write-only access only when no write was reported.** When the language layer reports no write and the reference resolves to a simple property setter, the access becomes write without read (UsageInfoToUsageConverter.java:120-126). A reference the language layer reports as a write keeps the read flag it was given.

## Model

| member | source | states |
|---|---|---|
| UsageNodeOrder.ClassIndex | UsageView/src/com/intellij/usages/impl/GroupNode.java:200-205 | usage nodes rank 3, group nodes 2, usage target nodes 1, anything else 0 |
| UsageNodeOrder.Compare | UsageView/src/com/intellij/usages/impl/GroupNode.java:207-223 | nodes of different kinds compare by rank; two groups compare by rule index first, then by the group order; two other nodes of one kind compare 0 |
| UsageNodeOrder.CompareIsPreorder | UsageView/src/com/intellij/usages/impl/GroupNode.java:199-223 | given an antisymmetric, transitive group order, the node comparator is antisymmetric in sign and transitive |
| UsageNodeOrder.InsertionKeepsSorted | UsageView/src/com/intellij/usages/impl/GroupNode.java:188-197 | inserting before the first child that compares >= 0 keeps a sorted child list sorted |
| UsageNodeOrder.AppendUsageKeepsSorted | UsageView/src/com/intellij/usages/impl/GroupNode.java:131-133 | appending a usage node, the highest kind, keeps a sorted child list sorted |
| UsageNodeOrder.RemovalKeepsSorted | UsageView/src/com/intellij/usages/impl/GroupNode.java:104 | removing one child keeps a sorted child list sorted |
| UsageTree.UsageTreeModel.constructor | UsageView/src/com/intellij/usages/impl/GroupNode.java:44-49 | a tree with only the root group node (no group, rule index -1), fresh, and an empty log |
| UsageTree.UsageTreeModel.NewNode | UsageView/src/com/intellij/usages/impl/Node.java:29-36 | a new node gets the next number; it is valid, not excluded, read-only not computed, detached and empty; nothing else changes |
| UsageTree.UsageTreeModel.InsertNodeInto | UsageView/src/com/intellij/usages/impl/GroupNode.java:66 | the child enters the parent's children at the index, its parent link is set, and one insertion is logged |
| UsageTree.UsageTreeModel.RemoveNodeFromParent | UsageView/src/com/intellij/usages/impl/GroupNode.java:104 | a node without a parent makes it fail with nothing changed; otherwise the node leaves its parent's children, loses its parent, and the removal is logged with its old index |
| UsageTree.UsageTreeModel.DoUpdate | UsageView/src/com/intellij/usages/impl/GroupNode.java:119-122 | the node's count drops by one, one change is logged, nothing else changes |
| UsageTree.UsageTreeModel.IncrementUsageCount | UsageView/src/com/intellij/usages/impl/GroupNode.java:142-151 | the count rises by one at the node and at every group ancestor, in the order of the walk, with one change logged per node |
| UsageTree.UsageTreeModel.TryMerge | UsageView/src/com/intellij/usages/impl/GroupNode.java:80-92 | finds a leaf exactly when the usage is mergeable, filtering is on and some leaf merges; the leaf found is the first in list order that merges |
| UsageTree.UsageTreeModel.AddUsage | UsageView/src/com/intellij/usages/impl/GroupNode.java:124-140 | a merge returns the first leaf that merges and creates nothing; otherwise a new usage node is appended to the children and the leaf list; either way every group on the ancestor chain counts one more |
| UsageTree.UsageTreeModel.GetNodeInsertionIndex | UsageView/src/com/intellij/usages/impl/GroupNode.java:188-197 | the index is the first child comparing >= 0 against the node, or the end; every child before it compares < 0 |
| UsageTree.UsageTreeModel.AddGroup | UsageView/src/com/intellij/usages/impl/GroupNode.java:61-70 | a known group returns its node and changes nothing; a new group gets a fresh node, registered in the map and inserted at the comparator's insertion point; the map then sends the group to the result |
| UsageTree.UsageTreeModel.RemoveAllChildren | UsageView/src/com/intellij/usages/impl/GroupNode.java:72-78 | the node keeps no children, subgroups or leaves and a count of 0; its former children are detached; one reload is logged |
| UsageTree.UsageTreeModel.RemoveUsage | UsageView/src/com/intellij/usages/impl/GroupNode.java:94-117 | the store and log change as the depth-first search along the path to the usage prescribes: each frame on the path counts one fewer, a subgroup is pruned exactly when its count reaches 0, and the usage leaves its group's leaf list; false with nothing changed when nothing holds the usage; the exception when a detached subgroup reaches 0 again; the search ends at a group none of whose subgroups leads to the usage, since subgroups are searched before the own leaves |
| UsageTree.UsageTreeModel.RemoveLeaf | UsageView/src/com/intellij/usages/impl/GroupNode.java:111-114 | a usage in the node's own leaf list is removed and the node counts one fewer: the one-frame removal |
| UsageTree.UsageTreeModel.FinishFrame | UsageView/src/com/intellij/usages/impl/GroupNode.java:100-107 | after a subgroup found the usage: the node counts one fewer, and the subgroup is detached if its count is 0, which throws if it has no parent; the result is the removal one frame longer |
| UsageTree.UsageTreeModel.IsReadOnly | UsageView/src/com/intellij/usages/impl/Node.java:57-60 | answers the cached flag, or computes and caches the data flag; only flags not yet computed are filled in, each with what it would have answered |
| UsageTree.UsageTreeModel.DataReadOnly | UsageView/src/com/intellij/usages/impl/GroupNode.java:179-186 | a group node is read-only exactly when some child answers read-only |
| UsageTree.UsageTreeModel.DataExcluded | UsageView/src/com/intellij/usages/impl/GroupNode.java:248-255 | a group node is excluded exactly when every child is excluded, so also when it has none |
| UsageTree.UsageTreeModel.Update | UsageView/src/com/intellij/usages/impl/Node.java:66-77 | when a recomputed flag differs from its cache, or read-only was never cached, all three are cached and `updateNotify` and one change are logged; otherwise the log is unchanged; afterwards nothing at the node is stale; `failed` exactly on the root's stale case |
| UsageTree.AppendSpaces | UsageView/src/com/intellij/usages/impl/Node.java:45-47 | appends exactly max(n, 0) spaces and keeps the string before them |
| UsageTreeSpec.DataValidOf | UsageView/src/com/intellij/usages/impl/GroupNode.java:175-177 | a group node without a group is valid; one with a group is valid when its group is |
| UsageTreeSpec.InsertKeepsWellFormed | UsageView/src/com/intellij/usages/impl/GroupNode.java:66 | inserting a detached node with a larger number under a group keeps the store well formed |
| UsageTreeSpec.NewKeepsWellFormed | UsageView/src/com/intellij/usages/impl/GroupNode.java:64 | adding a fresh node under the next number keeps the store well formed |
| UsageTreeSpec.RegisterKeepsWellFormed | UsageView/src/com/intellij/usages/impl/GroupNode.java:65 | registering a detached node of that group in the subgroup map keeps the store well formed |
| UsageTreeSpec.AppendLeafKeepsWellFormed | UsageView/src/com/intellij/usages/impl/GroupNode.java:132 | appending a usage node to the leaf list keeps the store well formed |
| UsageTreeSpec.DropLeafKeepsWellFormed | UsageView/src/com/intellij/usages/impl/GroupNode.java:111 | removing from a leaf list keeps the store well formed |
| UsageTreeSpec.DetachKeepsWellFormed | UsageView/src/com/intellij/usages/impl/GroupNode.java:104 | detaching a child from its parent keeps the store well formed |
| UsageTreeSpec.ClearKeepsWellFormed | UsageView/src/com/intellij/usages/impl/GroupNode.java:72-78 | clearing a group node keeps the store well formed |
| UsageTreeSpec.RecordKeepsWellFormed | UsageView/src/com/intellij/usages/impl/GroupNode.java:120 | changing a node's count or flags, and not its links, keeps the store well formed |
| UsageTreeSpec.WithGroupSteps | UsageView/src/com/intellij/usages/impl/GroupNode.java:62-66 | the three steps of `addGroup` for a new group yield the store with the group node created, registered and inserted |
| UsageTreeSpec.WithLeafSteps | UsageView/src/com/intellij/usages/impl/GroupNode.java:131-133 | the three steps of adding a leaf yield the store with the usage node created, listed and appended as the last child |
| UsageTreeSpec.AddGroupKeepsSorted | UsageView/src/com/intellij/usages/impl/GroupNode.java:61-70 | with a valid group order, a new group inserted at the comparator's insertion point keeps the children sorted |
| UsageTreeSpec.AddUsageKeepsSorted | UsageView/src/com/intellij/usages/impl/GroupNode.java:130-134 | appending a new usage node keeps the children sorted |
| UsageTreeSpec.DetachKeepsSorted | UsageView/src/com/intellij/usages/impl/GroupNode.java:104 | detaching a child keeps the parent's children sorted |
| UsageTreeSpec.InsertionPointKept | UsageView/src/com/intellij/usages/impl/GroupNode.java:188-197 | an insertion point stays one when only counts, flags or links change |
| UsageTreeSpec.ParentOf | UsageView/src/com/intellij/usages/impl/GroupNode.java:147-149 | in a well-formed store a parent is a group node with a smaller number |
| UsageTreeSpec.GroupChainDecreasing | UsageView/src/com/intellij/usages/impl/GroupNode.java:143-150 | the nodes the ancestor walk visits have strictly decreasing numbers, so the walk ends |
| UsageTreeSpec.GroupChainNoRevisit | UsageView/src/com/intellij/usages/impl/GroupNode.java:143-150 | the ancestor walk never visits a node twice |
| UsageTreeSpec.GroupChainStep | UsageView/src/com/intellij/usages/impl/GroupNode.java:147-149 | the walk continues exactly to a group parent and stops at any other parent or at none |
| UsageTreeSpec.GroupChainUnchanged | UsageView/src/com/intellij/usages/impl/GroupNode.java:147-149 | the ancestor walk depends only on the parents and kinds of nodes up to the start |
| UsageTreeSpec.BumpedIncrements | UsageView/src/com/intellij/usages/impl/GroupNode.java:145 | counting once at each node of a list without repeats adds exactly one at each of them and nothing elsewhere |
| UsageTreeSpec.BumpedKeepsWellFormed | UsageView/src/com/intellij/usages/impl/GroupNode.java:145 | changing counts keeps the store well formed |
| UsageTreeSpec.GroupChainBumped | UsageView/src/com/intellij/usages/impl/GroupNode.java:142-151 | the increment walk adds exactly one to the count of the node and of each group ancestor and changes nothing else |
| UsageTreeSpec.ClimbStep | UsageView/src/com/intellij/usages/impl/GroupNode.java:144-150 | one turn of the increment loop: either it moves to the next node of the chain as a group parent, or the chain is complete and the store is well formed |
| UsageTreeSpec.HolderPathCons | UsageView/src/com/intellij/usages/impl/GroupNode.java:97-100 | a way to the usage below a subgroup is a way to it from the group |
| UsageTreeSpec.NoHolderPath | UsageView/src/com/intellij/usages/impl/GroupNode.java:94-116 | a usage neither in the leaf list nor below any subgroup cannot be reached |
| UsageTreeSpec.RemoveAnswers | UsageView/src/com/intellij/usages/impl/GroupNode.java:94-117 | `removeUsage` answers false exactly when no way through the subgroup maps leads to a group holding the usage |
| UsageTreeSpec.RemoveNotFound | UsageView/src/com/intellij/usages/impl/GroupNode.java:109-116 | when no subgroup and not the leaf list holds the usage, false with nothing changed is the prescribed answer |
| UsageTreeSpec.RemoveAtLeaf | UsageView/src/com/intellij/usages/impl/GroupNode.java:111-114 | removing from the node's own leaf list and counting one fewer is a successful one-frame removal |
| UsageTreeSpec.RemovedAlongLeaf | UsageView/src/com/intellij/usages/impl/GroupNode.java:111-114 | the leaf frame alone is a removal along the one-node path |
| UsageTreeSpec.RemovedAlongStep | UsageView/src/com/intellij/usages/impl/GroupNode.java:100-106 | a frame that counts one fewer and maybe detaches its subgroup extends a removal along the path below it by one node |
| UsageTreeSpec.RemoveFrameKept | UsageView/src/com/intellij/usages/impl/GroupNode.java:100-107 | a subgroup that found the usage and still counts some stays attached; the removal succeeds one frame longer |
| UsageTreeSpec.RemoveFramePruned | UsageView/src/com/intellij/usages/impl/GroupNode.java:100-107 | a subgroup whose count reached 0 is detached from its parent's children; the removal succeeds one frame longer |
| UsageTreeSpec.RemoveFrameThrew | UsageView/src/com/intellij/usages/impl/GroupNode.java:103-104 | a subgroup whose count reached 0 but has no parent makes `removeNodeFromParent` throw |
| UsageTreeSpec.RemoveThrewBelow | UsageView/src/com/intellij/usages/impl/GroupNode.java:100 | an exception in a subgroup's frame ends every frame above it |
| UsageTreeSpec.ExcludedOfChildrenOnly | UsageView/src/com/intellij/usages/impl/GroupNode.java:248-255 | the excluded data flag of a group node reads only the excluded flags of its children |
| UsageTreeSpec.CachedReadOnly | UsageView/src/com/intellij/usages/impl/Node.java:57-60 | caching the data flag of an uncomputed node is what `isReadOnly()` answers, and it leaves the other nodes alone |
| UsageTreeSpec.FilledReadOnlyOf | UsageView/src/com/intellij/usages/impl/Node.java:57-60 | caching read-only flags does not change what any later `isReadOnly()` answers |
| UsageTreeSpec.FillsCompose | UsageView/src/com/intellij/usages/impl/GroupNode.java:179-186 | asking the children one after the other amounts to one round of caching |
| UsageTreeSpec.StaleWhen | UsageView/src/com/intellij/usages/impl/Node.java:70 | `update()` acts exactly when some recomputed flag differs from its cache or read-only was never cached |
| UsageTreeSpec.UpdateLeavesFresh | UsageView/src/com/intellij/usages/impl/Node.java:66-77 | after `update()` the cached flags of the node equal its freshly computed data flags |
| UsageTreeScenarios.OnlyPath | UsageView/src/com/intellij/usages/impl/GroupNode.java:95-100 | with one subgroup holding the usage, the search can only go through that subgroup |
| UsageTreeScenarios.FirstRemoval | UsageView/src/com/intellij/usages/impl/GroupNode.java:100-106 | removing the only usage of the only subgroup succeeds, brings both counts to 0 and detaches the subgroup, whose map entry stays |
| UsageTreeScenarios.SecondRemoval | UsageView/src/com/intellij/usages/impl/GroupNode.java:103-105 | removing a usage from the detached subgroup drives the root count to -1 and throws |
| UsageTreeScenarios.GroupFirst | UsageView/src/com/intellij/usages/impl/GroupNode.java:61-70 | grouping a first usage leaves it in a new subgroup attached to the root, both counting 1 |
| UsageTreeScenarios.Regroup | UsageView/src/com/intellij/usages/impl/GroupNode.java:61-70 | grouping under the same key after pruning returns the detached subgroup, which counts the usage while the root does not |
| UsageTreeScenarios.StaleSubgroup | UsageView/src/com/intellij/usages/impl/GroupNode.java:105 | group, remove, group again and remove again: the first removal succeeds, the second throws with the root count at -1 |
| UsageTreeScenarios.UpdateTwice | UsageView/src/com/intellij/usages/impl/Node.java:66-77 | a second `update()` with unchanged data sends no notification |
| Seqs.IndexOf | util/src/com/intellij/util/ListWithSelection.java:52-54 | the index of the first occurrence, or -1 exactly when absent |
| Seqs.RemoveFirstSpec | util/src/com/intellij/util/containers/ArrayListSet.java:46-48 | removal drops the first occurrence only, leaves an absent element's list alone, and takes one copy out of the multiset |
| Seqs.RemoveFirstNoDuplicates | util/src/com/intellij/util/containers/ArrayListSet.java:46-48 | in a list without duplicates removal removes the element entirely and keeps every other |
| Seqs.InsertNoDuplicates | UsageView/src/com/intellij/usages/impl/GroupNode.java:66 | inserting an absent element keeps a list free of duplicates and adds exactly that element |
| Seqs.NoDuplicatesCardinality | util/src/com/intellij/util/containers/ArrayListSet.java:28-30 | a list without duplicates is as long as its set of elements |
| CharArrayUtil.IsSuitable | util/src/com/intellij/util/text/CharArrayUtil.java:83-89 | true exactly when the character is one of the given characters |
| CharArrayUtil.ShiftForward | util/src/com/intellij/util/text/CharArrayUtil.java:57-69 | skips the run of given characters from the offset: all skipped are given, the one stopped at is not or is the end; at or past the end the offset itself |
| CharArrayUtil.ShiftForwardCarefully | util/src/com/intellij/util/text/CharArrayUtil.java:71-81 | the offset when it is the last position or past the end, or its character is not given; otherwise the last index of the run of given characters, below the end |
| CharArrayUtil.ShiftBackward | util/src/com/intellij/util/text/CharArrayUtil.java:95-107 | skips the run of given characters downward: all skipped are given, the one stopped at is not, or -1 |
| CharArrayUtil.ShiftForwardUntil | util/src/com/intellij/util/text/CharArrayUtil.java:117-129 | skips characters not given: none skipped is given, the one stopped at is, or the end |
| CharArrayUtil.ShiftBackwardUntil | util/src/com/intellij/util/text/CharArrayUtil.java:135-147 | skips characters not given downward: none skipped is given, the one stopped at is, or -1 |
| CharArrayUtil.RegionMatches | util/src/com/intellij/util/text/CharArrayUtil.java:149-156 | true exactly when the offset is not negative, the string fits and the buffer holds it there |
| CharArrayUtil.IndexOf | util/src/com/intellij/util/text/CharArrayUtil.java:158-172 | the first occurrence at or after max(fromIndex, 0) and before length minus pattern length, else -1 |
| CharArrayUtil.SearchForward | util/src/com/intellij/util/text/CharArrayUtil.java:164-171 | the labelled search loop: the first occurrence from max(fromIndex, 0) below a limit, else -1 |
| CharArrayUtil.IndexOfCorrected | util/src/com/intellij/util/text/CharArrayUtil.java:158-172 | the first occurrence at or after max(fromIndex, 0) anywhere, else -1 |
| CharArrayUtil.IndexOfMissesTrailingMatch | util/src/com/intellij/util/text/CharArrayUtil.java:165 | "b" occurs in "ab" at 1; `indexOf` answers -1, the corrected search 1 |
| CharArrayUtil.LastIndexOf | util/src/com/intellij/util/text/CharArrayUtil.java:174-188 | the last occurrence at or before fromIndex, which fits in the buffer, else -1 |
| CharArrayUtil.ContainsOnlyWhiteSpaces | util/src/com/intellij/util/text/CharArrayUtil.java:206-214 | true for null, otherwise exactly when every character is space, tab, LF or CR |
| CharArrayUtil.GetChars | util/src/com/intellij/util/text/CharArrayUtil.java:33-37 | the destination holds the source from the offset on and is unchanged elsewhere |
| UsageInfoToUsageConverter.NewDescriptorOfElement | UsageView/src/com/intellij/usages/UsageInfoToUsageConverter.java:37-39 | the element is the only primary target; no additional targets |
| UsageInfoToUsageConverter.NewDescriptorOfPrimary | UsageView/src/com/intellij/usages/UsageInfoToUsageConverter.java:41-43 | the primary targets, or none for null; no additional targets |
| UsageInfoToUsageConverter.NewDescriptor | UsageView/src/com/intellij/usages/UsageInfoToUsageConverter.java:45-48 | each target array is kept, or empty for null |
| UsageInfoToUsageConverter.IsReadWriteAccessibleElements | UsageView/src/com/intellij/usages/UsageInfoToUsageConverter.java:96-106 | true exactly when there is an element and every element is a variable |
| UsageInfoToUsageConverter.AccessOf | UsageView/src/com/intellij/usages/UsageInfoToUsageConverter.java:117-129 | a reported write gives (reported read, true); otherwise a simple setter gives (false, true) and anything else (reported read, false) |
| UsageInfoToUsageConverter.ConvertInfo | UsageView/src/com/intellij/usages/UsageInfoToUsageConverter.java:76-86 | a read/write adapter exactly when all primary targets are variables and the usage element is a reference expression, carrying its access; a plain adapter otherwise |
| UsageInfoToUsageConverter.ApplyConvertersAppend | UsageView/src/com/intellij/usages/UsageInfoToUsageConverter.java:70-72 | running two lists of converters one after the other is running their concatenation |
| UsageInfoToUsageConverter.Convert | UsageView/src/com/intellij/usages/UsageInfoToUsageConverter.java:67-74 | the adapter passed through every registered converter in order |
| UsageInfoToUsageConverter.ConvertAll | UsageView/src/com/intellij/usages/UsageInfoToUsageConverter.java:88-94 | a new array as long as the input whose entry i is the conversion of usage i |
| PsiElementProcessor.CollectElements.constructor | openapi/src/com/intellij/psi/search/PsiElementProcessor.java:30-32 | collects into the given collection |
| PsiElementProcessor.CollectElements.Empty | openapi/src/com/intellij/psi/search/PsiElementProcessor.java:34-36 | collects into a new empty list |
| PsiElementProcessor.CollectElements.Execute | openapi/src/com/intellij/psi/search/PsiElementProcessor.java:50-53 | appends the element and goes on |
| PsiElementProcessor.CollectElements.ToArray | openapi/src/com/intellij/psi/search/PsiElementProcessor.java:38-40 | the collected elements in order |
| PsiElementProcessor.CollectFilteredElements.constructor | openapi/src/com/intellij/psi/search/PsiElementProcessor.java:59-62 | keeps the filter and the given collection |
| PsiElementProcessor.CollectFilteredElements.Empty | openapi/src/com/intellij/psi/search/PsiElementProcessor.java:64-66 | keeps the filter, with a new empty list |
| PsiElementProcessor.CollectFilteredElements.Execute | openapi/src/com/intellij/psi/search/PsiElementProcessor.java:68-71 | appends only accepted elements and always goes on |
| PsiElementProcessor.CollectElementsWithLimit.constructor | openapi/src/com/intellij/psi/search/PsiElementProcessor.java:75-82 | nothing collected, count 0, no overflow |
| PsiElementProcessor.CollectElementsWithLimit.Execute | openapi/src/com/intellij/psi/search/PsiElementProcessor.java:84-91 | at the limit: stop, set overflow, collect nothing; below it: collect, count and go on |
| PsiElementProcessor.CollectElementsWithLimit.IsOverflow | openapi/src/com/intellij/psi/search/PsiElementProcessor.java:93-95 | the overflow flag |
| PsiElementProcessor.LimitRunKeepsPrefix | openapi/src/com/intellij/psi/search/PsiElementProcessor.java:84-91 | with a limit n >= 0 a collector keeps exactly the first n elements and overflows exactly when given more; with a negative limit it keeps all and never overflows |
| PsiElementProcessor.LimitStepAnswer | openapi/src/com/intellij/psi/search/PsiElementProcessor.java:85-90 | after some elements, the next call goes on exactly when the limit is not reached |
| PsiElementProcessor.FindElement.constructor | openapi/src/com/intellij/psi/search/PsiElementProcessor.java:99 | nothing found yet |
| PsiElementProcessor.FindElement.IsFound | openapi/src/com/intellij/psi/search/PsiElementProcessor.java:101-103 | true exactly when an element was recorded |
| PsiElementProcessor.FindElement.GetFoundElement | openapi/src/com/intellij/psi/search/PsiElementProcessor.java:105-107 | the recorded element |
| PsiElementProcessor.FindElement.Execute | openapi/src/com/intellij/psi/search/PsiElementProcessor.java:109-112 | records the element and stops |
| PsiElementProcessor.FindFilteredElement.constructor | openapi/src/com/intellij/psi/search/PsiElementProcessor.java:119-121 | keeps the filter; nothing found yet |
| PsiElementProcessor.FindFilteredElement.IsFound | openapi/src/com/intellij/psi/search/PsiElementProcessor.java:101-103 | true exactly when an element was recorded |
| PsiElementProcessor.FindFilteredElement.GetFoundElement | openapi/src/com/intellij/psi/search/PsiElementProcessor.java:105-107 | the recorded element, inherited from `FindElement` |
| PsiElementProcessor.FindFilteredElement.Execute | openapi/src/com/intellij/psi/search/PsiElementProcessor.java:123-126 | a rejected element changes nothing and goes on; an accepted one is recorded and stops |
| PsiElementProcessor.FindRunFindsFirst | openapi/src/com/intellij/psi/search/PsiElementProcessor.java:123-126 | a search stopping at the first false answer finds the first accepted element, and nothing exactly when none is accepted |
| ArrayListSet.ArrayListSet.constructor | util/src/com/intellij/util/containers/ArrayListSet.java:22 | an empty list |
| ArrayListSet.ArrayListSet.Add | util/src/com/intellij/util/containers/ArrayListSet.java:36-44 | true exactly when the element was absent, and then it is appended; otherwise the list is unchanged; no duplicates either way |
| ArrayListSet.ArrayListSet.Remove | util/src/com/intellij/util/containers/ArrayListSet.java:46-48 | true exactly when the element was present; its only occurrence is removed and every other element stays |
| ArrayListSet.ArrayListSet.Contains | util/src/com/intellij/util/containers/ArrayListSet.java:32-34 | list membership |
| ArrayListSet.ArrayListSet.Size | util/src/com/intellij/util/containers/ArrayListSet.java:28-30 | the list length, which is the number of distinct elements |
| ArrayListSet.ArrayListSet.Clear | util/src/com/intellij/util/containers/ArrayListSet.java:50-52 | the set is empty |
| ArrayListSet.ArrayListSet.Iterator | util/src/com/intellij/util/containers/ArrayListSet.java:24-26 | the elements in insertion order |
| ListWithSelection.ListWithSelection.constructor | util/src/com/intellij/util/ListWithSelection.java:24-26 | a copy of the collection, nothing selected |
| ListWithSelection.ListWithSelection.WithSelection | util/src/com/intellij/util/ListWithSelection.java:28-31 | a copy of the collection; the selection is set only when it is a member |
| ListWithSelection.ListWithSelection.Empty | util/src/com/intellij/util/ListWithSelection.java:33-35 | an empty list, nothing selected |
| ListWithSelection.ListWithSelection.Select | util/src/com/intellij/util/ListWithSelection.java:37-42 | true exactly for a member, which becomes the selection; otherwise the selection is unchanged |
| ListWithSelection.ListWithSelection.GetSelection | util/src/com/intellij/util/ListWithSelection.java:44-46 | the selection |
| ListWithSelection.ListWithSelection.SelectFirst | util/src/com/intellij/util/ListWithSelection.java:48-50 | element 0 becomes the selection, at selected index 0 |
| ListWithSelection.ListWithSelection.GetSelectedIndex | util/src/com/intellij/util/ListWithSelection.java:52-54 | the index of the first occurrence of the selection, -1 when nothing is selected |
| VcsRevisionNumber.WrapToInt | openapi/src/com/intellij/openapi/vcs/history/VcsRevisionNumber.java:43 | the 32-bit value congruent to the argument, and the argument itself when it fits |
| VcsRevisionNumber.WrapToLong | openapi/src/com/intellij/openapi/vcs/history/VcsRevisionNumber.java:62 | the 64-bit value congruent to the argument, and the argument itself when it fits |
| VcsRevisionNumber.CompareTo | openapi/src/com/intellij/openapi/vcs/history/VcsRevisionNumber.java:25-65 | `NULL` compares 0 with everything; `Int` with a non-`Int` and `Long` with a non-`Long` compare 0; two `Int`s and two `Long`s compare by a value congruent modulo 2^32 to the exact difference |
| VcsRevisionNumber.IntCompareIsWrappedDifference | openapi/src/com/intellij/openapi/vcs/history/VcsRevisionNumber.java:41-46 | when the difference fits in 32 bits, the sign of the `Int` comparison is the order of the values and 0 means equal |
| VcsRevisionNumber.LongCompareIsLow32Bits | openapi/src/com/intellij/openapi/vcs/history/VcsRevisionNumber.java:60-65 | `Long` comparison is the low 32 bits of the exact difference, read as a signed int |
| VcsRevisionNumber.IntCompareOverflow | openapi/src/com/intellij/openapi/vcs/history/VcsRevisionNumber.java:43 | Int(-2^31) compares above Int(1) |
| VcsRevisionNumber.LongCompareTruncation | openapi/src/com/intellij/openapi/vcs/history/VcsRevisionNumber.java:62 | Long(0) compares equal to Long(2^32) |
| VcsRevisionNumber.CompareCorrected | openapi/src/com/intellij/openapi/vcs/history/VcsRevisionNumber.java:41-64 | -1, 0 or 1 by the order of the values for two numbers of one kind, 0 otherwise |
| VcsRevisionNumber.CompareCorrectedIsOrder | openapi/src/com/intellij/openapi/vcs/history/VcsRevisionNumber.java:41-64 | the corrected comparison is antisymmetric and, on one kind, transitive |
| VcsRevisionNumber.GetLongValue | openapi/src/com/intellij/openapi/vcs/history/VcsRevisionNumber.java:67-69 | the constructor argument |
| VcsRevisionNumber.DecimalString | openapi/src/com/intellij/openapi/vcs/history/VcsRevisionNumber.java:37-39 | canonical decimal text: digits without a leading zero, after a minus sign exactly for negative values, and no `-0` |
| VcsRevisionNumber.DecimalStringRoundTrip | openapi/src/com/intellij/openapi/vcs/history/VcsRevisionNumber.java:37-39 | reading the decimal string back gives the value |
| VcsRevisionNumber.AsString | openapi/src/com/intellij/openapi/vcs/history/VcsRevisionNumber.java:21-58 | `NULL` is exactly the number shown as the empty string; an `Int` or `Long` is shown as canonical decimal text whose value is the number |
| VcsRevisionNumber.AsStringIsTheCanonicalText | openapi/src/com/intellij/openapi/vcs/history/VcsRevisionNumber.java:37-58 | any canonical decimal text with the value of an `Int` or `Long` is exactly what `asString` shows for it |
| VcsRevisionNumber.CanonicalIsDecimalString | openapi/src/com/intellij/openapi/vcs/history/VcsRevisionNumber.java:37-39 | a canonical decimal text is the decimal string of its own value, so the text is fixed by the value |

## Left out

- Swing: `DefaultTreeModel` and `DefaultMutableTreeNode` are reduced to the child-list edits they perform and to a ghost log of notifications. Listeners, painting and tree paths are not modelled.
- `tree2string`, `toString`, `navigate`, `canNavigate` and `canNavigateToSource` of `GroupNode` only delegate to `UsageGroup` or build debug text, and are not modelled. `UsageNode` is not part of this model.
- `UsageViewSettings.getInstance()` (GroupNode.java:82) is a global setting; it is the `filterDuplicates` parameter.
- The `MergeableUsage` test and its `merge` (GroupNode.java:81, 87) are abstract parameters. Their effect on the usage data is not modelled.
- The order in which `HashMap` hands out the subgroups in `removeUsage` is unspecified. The model visits the subgroups in any order, and its contract holds for every order.
- `getRecursiveUsageCount`, `isValid`, `isExcluded` and `getGroup` read a field; the model reads the field itself.
- `UsageTree.UsageTreeModel.Update`: the exception from `updateNotify` on the root is reported as `failed`, and the `nodeChanged` that it skips is not logged. Exceptions from group or leaf collaborators are not modelled.
- `CharArrayUtil.toByteArray` encodes through the platform charset, and `fromSequence` and the type branches of `getChars` are library copies; only the generic loop of `getChars` is modelled.
- CharArrayUtil.ShiftForward, ShiftForwardUntil, ShiftForwardCarefully: require a non-negative offset whenever the source would read the character there, because its `charAt` throws on a negative index.
- CharArrayUtil.ShiftBackward, ShiftBackwardUntil: require an offset below the buffer's length, where the source's `charAt` throws instead.
- CharArrayUtil.GetChars: requires the destination to have room, where the source throws `ArrayIndexOutOfBoundsException`.
- ListWithSelection.ListWithSelection.SelectFirst: requires a non-empty list, where the source's `get(0)` throws.
- PsiElementProcessor.FindElement.Execute, PsiElementProcessor.FindFilteredElement.Execute: elements are never null, so `execute(null)`, which stops the search but leaves `isFound()` false, is not modelled.
- ListWithSelection.ListWithSelection.Select, ListWithSelection.ListWithSelection.GetSelectedIndex: items and the selection are never null, so `indexOf(null)` for a null selection is not modelled; no selection is `None` and gives -1.
- UsageTree.UsageTreeModel.IsReadOnly, UsageTree.UsageTreeModel.DataReadOnly: the contract lets any unset flag from the node upwards in the store be cached with the value the data gives, while the source caches exactly the flags of the children asked before the first read-only one.
- `UsageInfoToUsageConverter`: the converter registry (`ApplicationManager`) is the `converters` parameter. The PSI queries (`PsiUtil`, `PropertyUtil`, `resolve`) are fixed facts of each reference. The adapters are a datatype; their behaviour is not part of this model.
- `PsiElementProcessor`: the given collection is a sequence owned by the processor. Aliasing through `getCollection()` and `toArray(T[])` is not modelled.
- `ListWithSelection` inherits all of `ArrayList`; only its own members are modelled, over a fixed list of items.
- Java's `int` and `long` wrap-around is modelled only in `VcsRevisionNumber`. The counts and indices of the tree are unbounded integers.
- Threads, navigation, rendering and I/O are outside the core.

## Findings

| source | as written | input that shows it | evidently intended | confidence | as-written member | corrected member |
|---|---|---|---|---|---|---|
| util/src/com/intellij/util/text/CharArrayUtil.java:165 | the loop stops below `buffer.length - pattern.length`, so a match ending at the last character is missed | `indexOf("ab", "b", 0)` gives -1 | the first occurrence anywhere from `fromIndex` | not executed | CharArrayUtil.IndexOfMissesTrailingMatch | CharArrayUtil.IndexOfCorrected |
| openapi/src/com/intellij/openapi/vcs/history/VcsRevisionNumber.java:43 | `Int` comparison subtracts in 32 bits, so a large difference wraps and flips the sign | `Int(-2147483648).compareTo(Int(1))` is positive | a comparison consistent with the order of the values | not executed | VcsRevisionNumber.IntCompareOverflow | VcsRevisionNumber.CompareCorrectedIsOrder |
| openapi/src/com/intellij/openapi/vcs/history/VcsRevisionNumber.java:62 | `Long` comparison keeps only the low 32 bits of the difference | `Long(0).compareTo(Long(4294967296))` is 0 | a comparison consistent with the order of the values | not executed | VcsRevisionNumber.LongCompareTruncation | VcsRevisionNumber.CompareCorrectedIsOrder |
