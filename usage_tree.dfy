/**
 * The usage grouping tree: group nodes (`GroupNode`) over the common node
 * behaviour (`Node`), all sharing one Swing tree model.
 *
 * The nodes point at each other in three ways (parent link, ordered child
 * list, subgroup map), so they are kept in one store: `UsageTreeModel`
 * stands for the shared `DefaultTreeModel`, every node is a `NodeRef` into
 * its store, and the fields of a node are one `NodeData` record. Nodes are
 * numbered in the order they are created; a parent, and the owner of a
 * subgroup map or a leaf list, always has a smaller number than what it
 * holds. The callbacks into the tree model edit the child lists and are
 * recorded in a ghost log.
 */
module UsageTree {
  import opened Wrappers
  import opened Seqs
  import opened UsageNodeOrder
  import opened UsageTreeSpec

  class UsageTreeModel<G(==, !new), U> {
    /** `UsageGroup.compareTo`. */
    const order: (G, G) -> int
    /** The number the next node created gets. */
    var next: NodeRef
    /** Every node created so far, attached or not. */
    var nodes: Store<G, U>
    /** The notifications sent to the tree model so far. */
    ghost var log: seq<Event>

    ghost predicate Valid()
      reads this`next, this`nodes
    {
      WellFormed(nodes, next)
    }

    /** A tree holding only its root group node, fresh as `Node` and `GroupNode` initialise it. */
    constructor (order: (G, G) -> int)
      ensures Valid()
      ensures this.order == order && next == 1
      ensures nodes == map[Root := Fresh(GroupKind(None, -1))] && log == []
    {
      this.order := order;
      next := 1;
      nodes := map[Root := Fresh(GroupKind(None, -1))];
      log := [];
    }

    /** A new node, detached, valid, not excluded, read-only not yet computed, owning nothing. */
    method NewNode(k: NodeKind<G, U>) returns (r: NodeRef)
      requires Valid() && Keyed(k)
      modifies this`next, this`nodes
      ensures Valid()
      ensures r == old(next) && next == r + 1 && r !in old(nodes) && r != Root
      ensures nodes == old(nodes)[r := Fresh(k)]
    {
      r := next;
      nodes := nodes[r := Fresh(k)];
      NewKeepsWellFormed(old(nodes), nodes, next, k);
      next := next + 1;
    }

    /** `DefaultTreeModel.insertNodeInto` of a detached node: the child-list edit and its notification. */
    method InsertNodeInto(child: NodeRef, p: NodeRef, index: int)
      requires Valid()
      requires p in nodes && nodes[p].kind.GroupKind? && child in nodes && p < child && nodes[child].parent.None?
      requires 0 <= index <= |nodes[p].children|
      requires forall r, g :: r in nodes && g in nodes[r].subgroups && nodes[r].subgroups[g] == child ==> r == p
      modifies this`nodes, this`log
      ensures Valid()
      ensures nodes == old(nodes)[p := old(nodes)[p].(children := old(nodes)[p].children[..index] + [child] + old(nodes)[p].children[index..])]
                                 [child := old(nodes)[child].(parent := Some(p))]
      ensures log == old(log) + [Inserted(p, child, index)]
    {
      var s := nodes[p].children;
      var t := s[..index] + [child] + s[index..];
      nodes := nodes[p := nodes[p].(children := t)][child := nodes[child].(parent := Some(p))];
      assert Inserts(old(nodes), nodes, p, child, index);
      InsertKeepsWellFormed(old(nodes), nodes, next, p, child, index);
      log := log + [Inserted(p, child, index)];
    }

    /**
     * `DefaultTreeModel.removeNodeFromParent`: a node without a parent makes it
     * throw `IllegalArgumentException` (the result is false and nothing changes);
     * otherwise the node leaves its parent's children and is reported removed
     * with the index it had.
     */
    method RemoveNodeFromParent(c: NodeRef) returns (detached: bool)
      requires Valid() && c in nodes
      modifies this`nodes, this`log
      ensures Valid()
      ensures old(nodes)[c].parent.None? ==> !detached && nodes == old(nodes) && log == old(log)
      ensures old(nodes)[c].parent.Some? ==>
                var p := old(nodes)[c].parent.value;
                && p in old(nodes)
                && detached
                && nodes == old(nodes)[p := old(nodes)[p].(children := RemoveFirst(old(nodes)[p].children, c))]
                                      [c := old(nodes)[c].(parent := None)]
                && log == old(log) + [Removed(p, c, IndexOf(old(nodes)[p].children, c))]
    {
      if nodes[c].parent.None? {
        return false;
      }
      var p := nodes[c].parent.value;
      assert NodeOk(nodes, c);
      var s := nodes[p].children;
      var i := IndexOf(s, c);
      nodes := nodes[p := nodes[p].(children := RemoveFirst(s, c))][c := nodes[c].(parent := None)];
      assert DetachedFrom(old(nodes), nodes, p, c);
      DetachKeepsWellFormed(old(nodes), nodes, next, p, c);
      log := log + [Removed(p, c, i)];
      detached := true;
    }

    /** `doUpdate`: one usage fewer below `n`, and the tree model is told. */
    method DoUpdate(n: NodeRef)
      requires Valid() && n in nodes
      modifies this`nodes, this`log
      ensures Valid()
      ensures nodes == old(nodes)[n := old(nodes)[n].(count := old(nodes)[n].count - 1)]
      ensures log == old(log) + [Changed(n)]
    {
      nodes := nodes[n := nodes[n].(count := nodes[n].count - 1)];
      StructureKeepsWellFormed(old(nodes), nodes, next);
      log := log + [Changed(n)];
    }

    /**
     * `incrementUsageCount`: one more usage below `n`, on `n` and on each
     * ancestor reached through group nodes, each reported changed.
     */
    method IncrementUsageCount(n: NodeRef)
      requires Valid() && n in nodes && nodes[n].kind.GroupKind?
      modifies this`nodes, this`log
      ensures Valid()
      ensures nodes == Bumped(old(nodes), GroupChain(old(nodes), n))
      ensures log == old(log) + ChangedEvents(GroupChain(old(nodes), n))
    {
      ghost var chain := GroupChain(old(nodes), n);
      ghost var k := 0;
      var g := n;
      while true
        invariant k < |chain| && chain[k] == g && g in old(nodes)
        invariant nodes == Bumped(old(nodes), chain[..k])
        invariant log == old(log) + ChangedEvents(chain[..k])
        decreases |chain| - k
      {
        ClimbStep(old(nodes), nodes, old(log), log, next, n, k);
        nodes := nodes[g := nodes[g].(count := nodes[g].count + 1)];
        log := log + [Changed(g)];
        var p := nodes[g].parent;
        if p.None? || !nodes[p.value].kind.GroupKind? {
          return;
        }
        g := p.value;
        k := k + 1;
      }
    }

    /**
     * `tryMerge`: nothing unless the usage is mergeable and duplicate lines are
     * filtered (the setting is a parameter); otherwise the first leaf, in list
     * order, whose usage merges the new one.
     */
    method TryMerge(n: NodeRef, usage: U, mergeable: U -> bool, merge: (U, U) -> bool, filterDuplicates: bool)
      returns (r: Option<NodeRef>)
      requires Valid() && n in nodes && nodes[n].kind.GroupKind?
      ensures r.Some? <==> CanMerge(nodes, n, usage, mergeable, merge, filterDuplicates)
      ensures r.Some? ==> FirstMerge(nodes, n, r.value, usage, mergeable, merge)
    {
      if !mergeable(usage) {
        return None;
      }
      if !filterDuplicates {
        return None;
      }
      var leaves := nodes[n].usageNodes;
      assert NodeOk(nodes, n);
      for i := 0 to |leaves|
        invariant forall j :: 0 <= j < i ==> !Merges(nodes, leaves[j], usage, mergeable, merge)
      {
        var node := leaves[i];
        var original := nodes[node].kind.usage;
        if mergeable(original) {
          if merge(original, usage) {
            return Some(node);
          }
        }
      }
      return None;
    }

    /**
     * `addUsage`: the leaf the usage merged into, or a new usage node appended
     * to the leaf list and at the end of the children; either way the count of
     * `n` and of its group ancestors goes up by one.
     */
    method AddUsage(n: NodeRef, usage: U, mergeable: U -> bool, merge: (U, U) -> bool, filterDuplicates: bool)
      returns (node: NodeRef)
      requires Valid() && n in nodes && nodes[n].kind.GroupKind?
      modifies this`next, this`nodes, this`log
      ensures Valid()
      ensures CanMerge(old(nodes), n, usage, mergeable, merge, filterDuplicates) ==>
                && FirstMerge(old(nodes), n, node, usage, mergeable, merge)
                && next == old(next)
                && Incremented(old(nodes), nodes, GroupChain(old(nodes), n))
                && log == old(log) + ChangedEvents(GroupChain(old(nodes), n))
      ensures !CanMerge(old(nodes), n, usage, mergeable, merge, filterDuplicates) ==>
                && node == old(next) && next == node + 1
                && Incremented(WithLeaf(old(nodes), n, node, usage), nodes, GroupChain(old(nodes), n))
                && log == old(log) + [Inserted(n, node, |old(nodes)[n].children|)] + ChangedEvents(GroupChain(old(nodes), n))
    {
      var merged := TryMerge(n, usage, mergeable, merge, filterDuplicates);
      if merged.Some? {
        node := merged.value;
      } else {
        node := NewNode(UsageKind(usage));
        ghost var s1 := nodes;
        nodes := nodes[n := nodes[n].(usageNodes := nodes[n].usageNodes + [node])];
        AppendLeafKeepsWellFormed(s1, nodes, next, n, node);
        forall r, g | r in nodes && g in nodes[r].subgroups
          ensures nodes[r].subgroups[g] != node
        {
          assert NodeOk(nodes, r);
        }
        ghost var s2 := nodes;
        var s := nodes[n].children;
        assert s[..|s|] + [node] + s[|s|..] == s + [node];
        InsertNodeInto(node, n, |s|);
        WithLeafSteps(old(nodes), s1, s2, nodes, n, node, usage);
        GroupChainUnchanged(old(nodes), nodes, n);
      }
      GroupChainBumped(nodes, n);
      IncrementUsageCount(n);
    }

    /**
     * `getNodeInsertionIndex`: the first position whose child does not compare
     * below `node`; every child before it compares below.
     */
    method GetNodeInsertionIndex(n: NodeRef, node: NodeRef) returns (idx: int)
      requires Valid() && n in nodes && node in nodes && Keyed(nodes[node].kind)
      ensures InsertionPoint(nodes, nodes[n].children, node, idx, order)
    {
      var s := nodes[n].children;
      assert NodeOk(nodes, n);
      idx := 0;
      while idx < |s|
        invariant 0 <= idx <= |s|
        invariant forall j :: 0 <= j < idx ==> Precedes(nodes, s[j], node, order)
      {
        assert NodeOk(nodes, s[idx]);
        if Compare(nodes[s[idx]].kind, nodes[node].kind, order) >= 0 {
          break;
        }
        idx := idx + 1;
      }
    }

    /**
     * `addGroup`: the subgroup node already registered for `group`, with no
     * change at all; or a new group node, registered for `group` and inserted
     * among the children where the comparator puts it.
     */
    method AddGroup(n: NodeRef, group: G, ruleIndex: int) returns (node: NodeRef, ghost index: int)
      requires Valid() && n in nodes && nodes[n].kind.GroupKind?
      modifies this`next, this`nodes, this`log
      ensures Valid()
      ensures n in nodes && group in nodes[n].subgroups && nodes[n].subgroups[group] == node
      ensures group in old(nodes)[n].subgroups ==>
                node == old(nodes)[n].subgroups[group] && next == old(next) && nodes == old(nodes) && log == old(log)
      ensures group !in old(nodes)[n].subgroups ==>
                var s := old(nodes)[n].children;
                && node == old(next) && next == node + 1
                && InsertionPoint(nodes, s, node, index, order)
                && nodes == WithGroup(old(nodes), n, node, group, ruleIndex, index)
                && log == old(log) + [Inserted(n, node, index)]
    {
      if group in nodes[n].subgroups {
        node := nodes[n].subgroups[group];
        index := 0;
        return;
      }
      node := NewNode(GroupKind(Some(group), ruleIndex));
      ghost var s1 := nodes;
      nodes := nodes[n := nodes[n].(subgroups := nodes[n].subgroups[group := node])];
      RegisterKeepsWellFormed(s1, nodes, next, n, group, node);
      forall r, g | r in old(nodes) && g in old(nodes)[r].subgroups
        ensures old(nodes)[r].subgroups[g] != node
      {
        assert NodeOk(old(nodes), r);
      }
      ghost var s2 := nodes;
      var idx := GetNodeInsertionIndex(n, node);
      index := idx;
      InsertNodeInto(node, n, idx);
      InsertionPointKept(s2, nodes, s2[n].children, node, idx, order);
      WithGroupSteps(old(nodes), s1, s2, nodes, n, node, group, ruleIndex, idx);
    }

    /**
     * `removeAllChildren`: every child is detached, and the node is left with
     * no children, no subgroups, no leaves and a count of 0; the tree model
     * reloads it.
     */
    method RemoveAllChildren(n: NodeRef)
      requires Valid() && n in nodes && nodes[n].kind.GroupKind?
      modifies this`nodes, this`log
      ensures Valid()
      ensures Cleared(old(nodes), nodes, n)
      ensures log == old(log) + [Reloaded(n)]
    {
      var s := nodes[n].children;
      var d := nodes[n];
      nodes := map r | r in nodes :: if r in s then nodes[r].(parent := None) else nodes[r];
      nodes := nodes[n := d.(children := [], subgroups := map[], usageNodes := [], count := 0)];
      ClearKeepsWellFormed(old(nodes), nodes, next, n);
      log := log + [Reloaded(n)];
    }

    /**
     * `removeUsage`: a depth-first search for leaf `u`, through the subgroups
     * (in the map's iteration order, which is not specified) before the node's
     * own leaves.
     *
     * `path` is the way it went, from `n` to the group whose leaf list held
     * `u`, and `pruned[i]` says the frame of `path[i]` took `path[i + 1]` out of
     * its children. When the usage is found, every frame completes: each group
     * on the path loses one from its count, `u` leaves the leaf list (its node
     * stays a child), and a subgroup whose count reached 0 is detached. Its map
     * entry stays, because the map is asked to remove the node instead of its
     * group. A subgroup detached this way can still be found again later; when
     * its count reaches 0 a second time, `removeNodeFromParent` throws in the
     * frame of `path[from]`: the frames for `path[from..]` have completed up to
     * that point, and the exception leaves the frames above untouched.
     */
    method RemoveUsage(n: NodeRef, u: NodeRef)
      returns (outcome: RemoveOutcome, ghost path: seq<NodeRef>, ghost pruned: seq<bool>, ghost from: nat)
      requires Valid() && n in nodes && nodes[n].kind.GroupKind?
      modifies this`nodes, this`log
      decreases next - n
      ensures Valid()
      ensures RemoveMeets(old(nodes), nodes, old(log), log, n, u, outcome, path, pruned, from)
    {
      var remaining := nodes[n].subgroups.Values;
      while remaining != {}
        invariant nodes == old(nodes) && log == old(log)
        invariant remaining <= nodes[n].subgroups.Values
        invariant forall g :: g in nodes[n].subgroups.Values && g !in remaining ==> Unreachable(nodes, g, u)
        decreases remaining
      {
        var g :| g in remaining;
        remaining := remaining - {g};
        ghost var key :| key in nodes[n].subgroups && nodes[n].subgroups[key] == g;
        SubgroupOf(nodes, next, n, key, g);
        var sub, subPath, subPruned, subFrom := RemoveUsage(g, u);
        if sub == Threw {
          outcome, path, pruned, from := Threw, [n] + subPath, [false] + subPruned, subFrom + 1;
          RemoveThrewBelow(old(nodes), nodes, old(log), log, n, g, u, subPath, subPruned, subFrom);
          return;
        }
        if sub == Found {
          outcome, path, pruned, from := FinishFrame(n, g, u, old(nodes), old(log), subPath, subPruned);
          return;
        }
        RemoveAnswers(old(nodes), nodes, old(log), log, g, u, sub, subPath, subPruned, subFrom);
      }
      if u in nodes[n].usageNodes {
        RemoveLeaf(n, u);
        outcome, path, pruned, from := Found, [n], [], 0;
      } else {
        RemoveNotFound(nodes, log, n, u);
        outcome, path, pruned, from := NotFound, [], [], 0;
      }
    }

    /**
     * The usage is a leaf of `n` itself, and none of the subgroups searched
     * before leads to it: it leaves the leaf list, then `doUpdate`.
     */
    method RemoveLeaf(n: NodeRef, u: NodeRef)
      requires Valid() && n in nodes && u in nodes[n].usageNodes && SubgroupsMiss(nodes, n, u)
      modifies this`nodes, this`log
      ensures Valid()
      ensures RemoveMeets(old(nodes), nodes, old(log), log, n, u, Found, [n], [], 0)
    {
      nodes := nodes[n := nodes[n].(usageNodes := RemoveFirst(nodes[n].usageNodes, u))];
      DropLeafKeepsWellFormed(old(nodes), nodes, next, n, u);
      ghost var s1 := nodes;
      DoUpdate(n);
      RemoveAtLeaf(old(nodes), s1, nodes, old(log), n, u);
    }

    /**
     * The rest of the frame of `n` once the usage was removed below its
     * subgroup `g` (the state `s0`, `l0` is the one the frame started from):
     * `doUpdate`, then the pruning of `g` when its count reached 0.
     */
    method FinishFrame(n: NodeRef, g: NodeRef, u: NodeRef, ghost s0: Store<G, U>, ghost l0: seq<Event>,
                       ghost subPath: seq<NodeRef>, ghost subPruned: seq<bool>)
      returns (outcome: RemoveOutcome, ghost path: seq<NodeRef>, ghost pruned: seq<bool>, ghost from: nat)
      requires Valid() && n in nodes
      requires n in s0 && g in s0 && g in s0[n].subgroups.Values && n < g && (s0[g].parent.None? || s0[g].parent == Some(n))
      requires RemoveMeets(s0, nodes, l0, log, g, u, Found, subPath, subPruned, 0)
      modifies this`nodes, this`log
      ensures Valid()
      ensures RemoveMeets(s0, nodes, l0, log, n, u, outcome, path, pruned, from)
    {
      ghost var s1, l1 := nodes, log;
      DoUpdate(n);
      ghost var s2, l2 := nodes, log;
      path := [n] + subPath;
      assert FoundBelow(s0, s1, s2, l0, l1, l2, n, g, u, subPath, subPruned);
      FoundBelowFacts(s0, s1, s2, l0, l1, l2, n, g, u, subPath, subPruned);
      var detached := false;
      if nodes[g].count == 0 {
        if nodes[g].parent.Some? {
          ParentOf(nodes, next, g);
        }
        detached := RemoveNodeFromParent(g);
        if !detached {
          outcome, pruned, from := Threw, [false] + subPruned, 0;
          RemoveFrameThrew(s0, s1, s2, l0, l1, l2, n, g, u, subPath, subPruned);
          return;
        }
        // GroupNode.java:105 passes the node where the map expects its group: the entry stays
        RemoveFramePruned(s0, s1, s2, nodes, l0, l1, l2, log, n, g, u, subPath, subPruned);
      } else {
        RemoveFrameKept(s0, s1, s2, l0, l1, l2, n, g, u, subPath, subPruned);
      }
      outcome, pruned, from := Found, [detached] + subPruned, 0;
    }

    /**
     * `isReadOnly()`: the cached flag, computed from the data and cached when
     * there is none yet. Computing it may cache flags further down: the source
     * caches exactly those of the children asked before the first read-only
     * one, while the contract lets any unset flag from node `n` upwards in the
     * store become the flag the data gives.
     */
    method IsReadOnly(n: NodeRef, facts: Facts<G>) returns (b: bool)
      requires Valid() && n in nodes
      modifies this`nodes
      decreases next - n, 1
      ensures Valid()
      ensures FillsFrom(old(nodes), nodes, facts, next, n)
      ensures b == ReadOnlyOf(old(nodes), facts, next, n)
      ensures n in nodes && nodes[n].readOnly == Some(b)
      ensures SameBelow(old(nodes), nodes, n)
    {
      if nodes[n].readOnly.None? {
        var v := DataReadOnly(n, facts);
        ghost var before := nodes;
        nodes := nodes[n := nodes[n].(readOnly := Some(v))];
        RecordKeepsWellFormed(before, nodes, next, n, nodes[n]);
        CachedReadOnly(old(nodes), before, nodes, facts, next, n, v);
      } else {
        FillsNothing(nodes, facts, next, n);
      }
      b := nodes[n].readOnly.value;
    }

    /**
     * `isDataReadOnly`: whether some child answers read-only, asking them in
     * order and stopping at the first that does. Only the children asked get
     * their flags cached; the contract does not say which those are, only that
     * each flag newly cached from node `n + 1` upwards is the one the data gives.
     */
    method DataReadOnly(n: NodeRef, facts: Facts<G>) returns (b: bool)
      requires Valid() && n in nodes
      modifies this`nodes
      decreases next - n, 0
      ensures Valid()
      ensures b == DataReadOnlyOf(old(nodes), facts, next, n)
      ensures FillsFrom(old(nodes), nodes, facts, next, n + 1)
      ensures SameBelow(old(nodes), nodes, n + 1)
    {
      if !nodes[n].kind.GroupKind? {
        return facts.leafReadOnly(n);
      }
      var s := nodes[n].children;
      assert NodeOk(nodes, n);
      var i := 0;
      while i < |s|
        invariant 0 <= i <= |s|
        invariant Valid()
        invariant FillsFrom(old(nodes), nodes, facts, next, n + 1)
        invariant SameBelow(old(nodes), nodes, n + 1)
        invariant forall j :: 0 <= j < i ==> !ReadOnlyOf(old(nodes), facts, next, s[j])
      {
        assert n < s[i] < next;
        ghost var before := nodes;
        var r := IsReadOnly(s[i], facts);
        FilledReadOnlyOf(old(nodes), before, facts, next, n + 1, s[i]);
        FillsCompose(old(nodes), before, nodes, facts, next, n + 1, s[i]);
        SameBelowCompose(old(nodes), before, nodes, n + 1, s[i]);
        if r {
          return true;
        }
        i := i + 1;
      }
      return false;
    }

    /** `isDataExcluded`: whether every child is excluded, so also when there are none. */
    method DataExcluded(n: NodeRef, facts: Facts<G>) returns (b: bool)
      requires Valid() && n in nodes
      ensures b == DataExcludedOf(nodes, facts, n)
    {
      if !nodes[n].kind.GroupKind? {
        return facts.leafExcluded(n);
      }
      var s := nodes[n].children;
      assert NodeOk(nodes, n);
      var i := 0;
      while i < |s|
        invariant 0 <= i <= |s|
        invariant forall j :: 0 <= j < i ==> s[j] in nodes && nodes[s[j]].excluded
      {
        if !nodes[s[i]].excluded {
          return false;
        }
        i := i + 1;
      }
      return true;
    }

    /**
     * `update()`: recompute the three data flags (computing read-only may cache
     * the flags of nodes below: `cached` is the store after that); when a
     * cached flag differs, or read-only was never computed, cache all three,
     * call `updateNotify` and report the node changed. On the root
     * `updateNotify` dereferences its missing group: the flags are cached, then
     * it fails before the change is reported. Afterwards nothing is stale, so
     * a second update with the same data changes nothing.
     */
    method Update(n: NodeRef, facts: Facts<G>) returns (failed: bool, ghost cached: Store<G, U>)
      requires Valid() && n in nodes
      modifies this`nodes, this`log
      ensures Valid()
      ensures FillsFrom(old(nodes), cached, facts, next, n + 1)
      ensures SameBelow(old(nodes), cached, n + 1)
      ensures nodes == if Stale(old(nodes), facts, next, n) then Refresh(old(nodes), cached, facts, next, n) else cached
      ensures failed <==> Stale(old(nodes), facts, next, n) && old(nodes)[n].kind.GroupKind? && old(nodes)[n].kind.group.None?
      ensures log == if Stale(old(nodes), facts, next, n) && !failed then old(log) + [UpdateNotified(n), Changed(n)] else old(log)
      ensures !Stale(nodes, facts, next, n)
    {
      var isDataValid := DataValidOf(nodes[n].kind, facts, n);
      var isReadOnly := DataReadOnly(n, facts);
      var isExcluded := DataExcluded(n, facts);
      cached := nodes;
      assert NodeOk(old(nodes), n);
      ExcludedOfChildrenOnly(old(nodes), cached, facts, n);
      failed := false;
      var d := nodes[n];
      assert d == old(nodes)[n];
      StaleWhen(old(nodes), facts, next, n, isDataValid, isReadOnly, isExcluded);
      if isDataValid != d.valid || d.readOnly.None? || isReadOnly != d.readOnly.value || isExcluded != d.excluded {
        nodes := nodes[n := d.(valid := isDataValid, excluded := isExcluded, readOnly := Some(isReadOnly))];
        RecordKeepsWellFormed(cached, nodes, next, n, nodes[n]);
        assert nodes == Refresh(old(nodes), cached, facts, next, n);
        if d.kind.GroupKind? && d.kind.group.None? {
          failed := true;
        } else {
          log := log + [UpdateNotified(n), Changed(n)];
        }
      }
      UpdateLeavesFresh(old(nodes), cached, nodes, facts, next, n);
    }
  }

  /** `appendSpaces`: the buffer grows by as many spaces as asked for, none for a negative count. */
  method AppendSpaces(s: string, spaces: int) returns (r: string)
    ensures |r| == |s| + (if spaces > 0 then spaces else 0)
    ensures r[..|s|] == s
    ensures forall i :: |s| <= i < |r| ==> r[i] == ' '
  {
    r := s;
    var i := 0;
    while i < spaces
      invariant 0 <= i <= (if spaces > 0 then spaces else 0)
      invariant |r| == |s| + i && r[..|s|] == s
      invariant forall j :: |s| <= j < |r| ==> r[j] == ' '
    {
      r := r + [' '];
      i := i + 1;
    }
  }
}
