/**
 * A run of the usage tree that shows what the subgroup map entry left behind
 * by `removeUsage` does: the map is asked to remove the group node itself
 * instead of its group (GroupNode.java:105), so a pruned subgroup is found
 * again by `addGroup`, a usage added below it is not counted at the root,
 * and removing that usage drives the root count to -1 before
 * `removeNodeFromParent` throws. It also shows that `update()` notifies at
 * most once for unchanged data.
 */
module UsageTreeScenarios {
  import opened Wrappers
  import opened UsageNodeOrder
  import opened UsageTreeSpec
  import opened UsageTree

  /** The key the group node is registered under, and the number it gets. */
  const Key: int := 7
  const Sub: NodeRef := 1

  /** What the scenario relies on in a store: the root holds `Sub` under `Key`, and no group below holds more groups or the root leaves. */
  ghost predicate OneSubgroup<U>(s: Store<int, U>)
  {
    && Root in s && Sub in s
    && s[Root].kind.GroupKind? && s[Sub].kind.GroupKind?
    && s[Root].subgroups == map[Key := Sub] && s[Sub].subgroups == map[]
    && s[Root].usageNodes == []
  }

  /** After the first usage is grouped: `Sub` is the root's child and holds it, and both count it. */
  ghost predicate Attached<U>(s: Store<int, U>, u: NodeRef)
  {
    && OneSubgroup(s) && s[Sub].usageNodes == [u]
    && s[Sub].parent == Some(Root) && s[Sub].count == 1 && s[Root].count == 1
  }

  /** After the first removal: `Sub` is detached, still in the map, and nothing is counted. */
  ghost predicate Pruned<U>(s: Store<int, U>)
  {
    && OneSubgroup(s)
    && s[Sub].parent.None? && s[Sub].count == 0 && s[Root].count == 0
  }

  /** After the second usage is grouped: the detached `Sub` holds and counts it, the root does not. */
  ghost predicate Stale<U>(s: Store<int, U>, u: NodeRef)
  {
    && OneSubgroup(s) && u in s[Sub].usageNodes
    && s[Sub].parent.None? && s[Sub].count == 1 && s[Root].count == 0
  }

  /** With one subgroup and no nested groups, the only way to `u` goes through `Sub`. */
  lemma OnlyPath<U>(s: Store<int, U>, u: NodeRef, p: seq<NodeRef>)
    requires OneSubgroup(s) && u in s[Sub].usageNodes && HolderPath(s, p, Root, u)
    ensures p == [Root, Sub]
  {
    assert |p| != 1;
    assert p[0] in s && p[1] in s[p[0]].subgroups.Values;
    assert p[1] == Sub;
    if |p| > 2 {
      HolderStep(s, p, Root, u, 1);
      assert false;
    }
  }

  /** One step of a path to a holder of `u`: a subgroup of the group before it. */
  lemma HolderStep<U>(s: Store<int, U>, p: seq<NodeRef>, n: NodeRef, u: NodeRef, i: nat)
    requires HolderPath(s, p, n, u) && i < |p| - 1
    ensures p[i] in s && p[i + 1] in s[p[i]].subgroups.Values
  {
  }

  /** The usage sits in the leaf list of `Sub`: it can be reached. */
  lemma Reachable<U>(s: Store<int, U>, u: NodeRef)
    requires OneSubgroup(s) && u in s[Sub].usageNodes
    ensures !Unreachable(s, Root, u)
  {
    assert s[Root].subgroups[Key] == Sub;
    assert HolderPath(s, [Root, Sub], Root, u);
  }

  /**
   * The first removal, while `Sub` is the root's only child holding the single
   * usage: it succeeds, the counts drop to 0 and `Sub` is detached, but its map
   * entry stays.
   */
  lemma FirstRemoval<U>(s0: Store<int, U>, s1: Store<int, U>, l0: seq<Event>, l1: seq<Event>, u: NodeRef,
                        outcome: RemoveOutcome, path: seq<NodeRef>, pruned: seq<bool>, from: nat)
    requires Attached(s0, u)
    requires RemoveMeets(s0, s1, l0, l1, Root, u, outcome, path, pruned, from)
    ensures outcome == Found && Pruned(s1)
  {
    Reachable(s0, u);
    RemoveAnswers(s0, s1, l0, l1, Root, u, outcome, path, pruned, from);
    OnlyPath(s0, u, path);
    assert outcome == Found;
    assert path[0..] == path && pruned[0..] == pruned;
    assert s1[Sub] == RemovedAt(s0[Sub], Sub, path, pruned, u);
    assert s1[Root] == RemovedAt(s0[Root], Root, path, pruned, u);
    assert [Sub][1..] == [];
  }

  /**
   * The second removal, from the detached `Sub` that still sits in the map and
   * holds one usage the root never counted: the root count drops to -1, then
   * `removeNodeFromParent` throws.
   */
  lemma SecondRemoval<U>(s0: Store<int, U>, s1: Store<int, U>, l0: seq<Event>, l1: seq<Event>, u: NodeRef,
                         outcome: RemoveOutcome, path: seq<NodeRef>, pruned: seq<bool>, from: nat)
    requires Stale(s0, u)
    requires RemoveMeets(s0, s1, l0, l1, Root, u, outcome, path, pruned, from)
    ensures outcome == Threw && Root in s1 && s1[Root].count == -1
  {
    Reachable(s0, u);
    RemoveAnswers(s0, s1, l0, l1, Root, u, outcome, path, pruned, from);
    OnlyPath(s0, u, path);
    assert from == 0;
    assert path[0..] == path && pruned[0..] == pruned;
    assert s1[Sub] == RemovedAt(s0[Sub], Sub, path, pruned, u);
    assert s1[Root] == RemovedAt(s0[Root], Root, path, pruned, u);
    assert outcome == Threw;
  }

  /** A new tree: group a usage under `Key`, with no merging. */
  method GroupFirst(t: UsageTreeModel<int, int>) returns (leaf: NodeRef)
    requires t.Valid() && t.nodes == map[Root := Fresh(GroupKind(None, -1))] && t.next == 1
    modifies t
    ensures t.Valid() && Attached(t.nodes, leaf)
  {
    ghost var s0 := t.nodes;
    var g, index := t.AddGroup(Root, Key, 0);
    assert g == Sub && index == 0;
    ghost var s1 := t.nodes;
    assert s1[Root] == s0[Root].(subgroups := map[Key := Sub], children := [Sub]);
    leaf := t.AddUsage(g, 100, x => false, (x, y) => false, false);
    assert GroupChain(s1, Sub) == [Sub, Root];
  }

  /** Remove the first usage: found, and `Sub` pruned. */
  method RemoveAttached(t: UsageTreeModel<int, int>, leaf: NodeRef) returns (outcome: RemoveOutcome)
    requires t.Valid() && Attached(t.nodes, leaf)
    modifies t
    ensures t.Valid() && outcome == Found && Pruned(t.nodes)
  {
    ghost var s0, l0 := t.nodes, t.log;
    ghost var path: seq<NodeRef>, pruned: seq<bool>, from: nat;
    outcome, path, pruned, from := t.RemoveUsage(Root, leaf);
    FirstRemoval(s0, t.nodes, l0, t.log, leaf, outcome, path, pruned, from);
  }

  /** Group a second usage under `Key`: `addGroup` hands back the detached `Sub`. */
  method Regroup(t: UsageTreeModel<int, int>) returns (leaf: NodeRef)
    requires t.Valid() && Pruned(t.nodes)
    modifies t
    ensures t.Valid() && Stale(t.nodes, leaf)
  {
    var g, index := t.AddGroup(Root, Key, 0);
    assert g == Sub;
    ghost var s1 := t.nodes;
    leaf := t.AddUsage(g, 101, x => false, (x, y) => false, false);
    assert GroupChain(s1, Sub) == [Sub];
  }

  /** Remove the second usage: `removeNodeFromParent` throws, with the root count at -1. */
  method RemoveStale(t: UsageTreeModel<int, int>, leaf: NodeRef) returns (outcome: RemoveOutcome, rootCount: int)
    requires t.Valid() && Stale(t.nodes, leaf)
    modifies t
    ensures outcome == Threw && rootCount == -1
  {
    ghost var s0, l0 := t.nodes, t.log;
    ghost var path: seq<NodeRef>, pruned: seq<bool>, from: nat;
    outcome, path, pruned, from := t.RemoveUsage(Root, leaf);
    SecondRemoval(s0, t.nodes, l0, t.log, leaf, outcome, path, pruned, from);
    rootCount := t.nodes[Root].count;
  }

  /**
   * Group a usage under key 7, remove it, group a second usage under the same
   * key and remove it: the first removal succeeds, the second throws with the
   * root count at -1.
   */
  method StaleSubgroup() returns (first: RemoveOutcome, second: RemoveOutcome, rootCount: int)
    ensures first == Found && second == Threw && rootCount == -1
  {
    var t := new UsageTreeModel<int, int>((a: int, b: int) => a - b);
    var leaf := GroupFirst(t);
    first := RemoveAttached(t, leaf);
    var leaf2 := Regroup(t);
    second, rootCount := RemoveStale(t, leaf2);
  }

  /**
   * Two `update()` calls on the same node with the same data: the second finds
   * the flags it cached fresh and sends no notification.
   */
  method UpdateTwice<G(==, !new), U>(t: UsageTreeModel<G, U>, n: NodeRef, facts: Facts<G>)
    returns (secondFailed: bool, ghost between: seq<Event>)
    requires t.Valid() && n in t.nodes
    modifies t
    ensures t.Valid() && !secondFailed
    ensures between == old(t.log) || between == old(t.log) + [UpdateNotified(n), Changed(n)]
    ensures t.log == between
  {
    var firstFailed;
    ghost var cached;
    firstFailed, cached := t.Update(n, facts);
    between := t.log;
    secondFailed, cached := t.Update(n, facts);
  }
}
