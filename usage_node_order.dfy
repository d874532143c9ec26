/**
 * The order of the children of a node in the usage tree
 * (GroupNode.NodeComparator and GroupNode.compareTo): nodes are ranked by
 * kind, and two group nodes by their grouping rule and then by the order of
 * their groups.
 */
module UsageNodeOrder {
  import opened Wrappers

  /** A node of the usage tree, named by its place in the tree's node store. */
  type NodeRef = nat

  /**
   * The kinds of node, with what each one carries: a group node its group
   * (none for the root) and the index of the rule that produced it, a usage
   * node its usage. Target nodes stand for the searched elements; any other
   * node ranks first.
   */
  datatype NodeKind<G, U> =
    | GroupKind(group: Option<G>, ruleIndex: int)
    | UsageKind(usage: U)
    | TargetKind
    | OtherKind

  /** `getClassIndex`: other 0, target 1, group 2, usage 3. */
  function ClassIndex<G, U>(k: NodeKind<G, U>): (i: int)
    ensures 0 <= i <= 3
    ensures i == 3 <==> k.UsageKind?
    ensures i == 2 <==> k.GroupKind?
    ensures i == 1 <==> k.TargetKind?
  {
    match k
    case UsageKind(_) => 3
    case GroupKind(_, _) => 2
    case TargetKind => 1
    case OtherKind => 0
  }

  /** Every group node but the root has a group; comparing the root would dereference null. */
  predicate Keyed<G, U>(k: NodeKind<G, U>)
  {
    k.GroupKind? ==> k.group.Some?
  }

  /** `NodeComparator.compare`, with `compareTo` of two groups inlined. */
  function Compare<G, U>(k1: NodeKind<G, U>, k2: NodeKind<G, U>, order: (G, G) -> int): (r: int)
    requires Keyed(k1) && Keyed(k2)
    ensures ClassIndex(k1) != ClassIndex(k2) ==> r != 0 && (r < 0 <==> ClassIndex(k1) < ClassIndex(k2))
    ensures k1.GroupKind? && k2.GroupKind? && k1.ruleIndex != k2.ruleIndex ==>
              r != 0 && (r < 0 <==> k1.ruleIndex < k2.ruleIndex)
    ensures k1.GroupKind? && k2.GroupKind? && k1.ruleIndex == k2.ruleIndex ==> r == order(k1.group.value, k2.group.value)
    ensures ClassIndex(k1) == ClassIndex(k2) && !k1.GroupKind? ==> r == 0
  {
    var c1 := ClassIndex(k1);
    var c2 := ClassIndex(k2);
    if c1 != c2 then c1 - c2
    else if c1 == 2 then
      if k1.ruleIndex == k2.ruleIndex then order(k1.group.value, k2.group.value)
      else k1.ruleIndex - k2.ruleIndex
    else 0
  }

  /** What `UsageGroup.compareTo` must satisfy: its sign is antisymmetric and its `<=` transitive. */
  ghost predicate ValidOrder<G(!new)>(order: (G, G) -> int)
  {
    && (forall a, b :: order(a, b) < 0 <==> order(b, a) > 0)
    && (forall a, b, c :: order(a, b) <= 0 && order(b, c) <= 0 ==> order(a, c) <= 0)
  }

  /** The node order inherits both properties from the group order. */
  lemma CompareIsPreorder<G(!new), U>(k1: NodeKind<G, U>, k2: NodeKind<G, U>, k3: NodeKind<G, U>, order: (G, G) -> int)
    requires ValidOrder(order)
    requires Keyed(k1) && Keyed(k2) && Keyed(k3)
    ensures Compare(k1, k2, order) < 0 <==> Compare(k2, k1, order) > 0
    ensures Compare(k1, k2, order) <= 0 && Compare(k2, k3, order) <= 0 ==> Compare(k1, k3, order) <= 0
  {
  }

  /** The children of a node, in the order the comparator puts them. */
  ghost predicate Sorted<G(!new), U>(s: seq<NodeRef>, kind: map<NodeRef, NodeKind<G, U>>, order: (G, G) -> int)
  {
    && (forall i :: 0 <= i < |s| ==> s[i] in kind && Keyed(kind[s[i]]))
    && (forall i, j :: 0 <= i < j < |s| ==> Compare(kind[s[i]], kind[s[j]], order) <= 0)
  }

  /**
   * The sorted-insertion rule: placing a node at the first position whose child
   * is not smaller than it keeps the children sorted.
   */
  lemma InsertionKeepsSorted<G(!new), U>(s: seq<NodeRef>, kind: map<NodeRef, NodeKind<G, U>>, order: (G, G) -> int, idx: int, x: NodeRef)
    requires ValidOrder(order) && Sorted(s, kind, order)
    requires x in kind && Keyed(kind[x])
    requires 0 <= idx <= |s|
    requires forall j :: 0 <= j < idx ==> Compare(kind[s[j]], kind[x], order) < 0
    requires idx < |s| ==> Compare(kind[s[idx]], kind[x], order) >= 0
    ensures Sorted(s[..idx] + [x] + s[idx..], kind, order)
  {
    var t := s[..idx] + [x] + s[idx..];
    forall i, j | 0 <= i < j < |t|
      ensures Compare(kind[t[i]], kind[t[j]], order) <= 0
    {
      if j < idx || i > idx {
        var i' := if i < idx then i else i - 1;
        var j' := if j < idx then j else j - 1;
        assert t[i] == s[i'] && t[j] == s[j'];
      } else if i == idx {
        assert t[j] == s[j - 1];
        CompareIsPreorder(kind[x], kind[s[idx]], kind[s[j - 1]], order);
      } else if j == idx {
        assert t[i] == s[i] && t[j] == x;
      } else {
        assert t[i] == s[i] && t[j] == s[j - 1];
      }
    }
  }

  /** Appending a usage node keeps the children sorted: usage nodes rank last. */
  lemma AppendUsageKeepsSorted<G(!new), U>(s: seq<NodeRef>, kind: map<NodeRef, NodeKind<G, U>>, order: (G, G) -> int, x: NodeRef)
    requires Sorted(s, kind, order)
    requires x in kind && kind[x].UsageKind?
    ensures Sorted(s + [x], kind, order)
  {
    var t := s + [x];
    forall i, j | 0 <= i < j < |t|
      ensures Compare(kind[t[i]], kind[t[j]], order) <= 0
    {
      if j < |s| {
        assert t[i] == s[i] && t[j] == s[j];
      }
    }
  }

  /** Removing a child keeps the rest sorted. */
  lemma RemovalKeepsSorted<G(!new), U>(s: seq<NodeRef>, kind: map<NodeRef, NodeKind<G, U>>, order: (G, G) -> int, idx: int)
    requires Sorted(s, kind, order)
    requires 0 <= idx < |s|
    ensures Sorted(s[..idx] + s[idx + 1..], kind, order)
  {
    var t := s[..idx] + s[idx + 1..];
    forall i, j | 0 <= i < j < |t|
      ensures Compare(kind[t[i]], kind[t[j]], order) <= 0
    {
      var i' := if i < idx then i else i + 1;
      var j' := if j < idx then j else j + 1;
      assert t[i] == s[i'] && t[j] == s[j'];
    }
    forall i | 0 <= i < |t|
      ensures t[i] in kind && Keyed(kind[t[i]])
    {
      var i' := if i < idx then i else i + 1;
      assert t[i] == s[i'];
    }
  }
}
