/** `recursive_free` of the B-tree: every node once, and no access to a freed one. */
module BTreeFree {
  import opened Base
  import opened BTreeShape
  import opened BTreeNode
  import opened BTreeHeap

  ghost predicate Live<E(0)>(s: set<Node<E>>)
    reads s`freed
  {
    forall n :: n in s ==> !n.freed
  }

  ghost predicate AllFreed<E(0)>(s: set<Node<E>>)
    reads s`freed
  {
    forall n :: n in s ==> n.freed
  }

  /** Where the loop over the children stands: the first i subtrees are freed, the rest is live. */
  ghost predicate FreedUpTo<E(0), V>(t: Shape<E, V>, i: nat, d: nat, slot: Entry<V> -> E)
    requires t.BInner? && i <= |t.kids|
    reads BNodes(t)`nk, EntryArrays(BNodes(t)), ChildArrays(BNodes(t))
    reads t.id`freed, BForestNodes(t.kids[..i])`freed, BForestNodes(t.kids[i..])`freed
  {
    Rep(t, d, slot) && !t.id.freed && AllFreed(BForestNodes(t.kids[..i])) && Live(BForestNodes(t.kids[i..]))
  }

  /** Frees the subtree t. */
  method RecursiveFree<E(0), V>(node: Node<E>, ghost d: nat, ghost slot: Entry<V> -> E, ghost t: Shape<E, V>)
    requires t.id == node && Rep(t, d, slot) && BOwned(t) && Live(BNodes(t))
    modifies BNodes(t)`freed
    ensures AllFreed(BNodes(t))
    decreases t, 1
  {
    assert Local(t, d, slot) && !node.freed;
    if node.isLeaf {
      node.Free();
      assert BNodes(t) == {node};
      return;
    }
    BOwnNotBelow(t);
    assert t.kids[0..] == t.kids;
    var i := 0;
    while i < node.nk + 1
      invariant 0 <= i <= |t.kids| && node.nk + 1 == |t.kids|
      invariant FreedUpTo(t, i, d, slot)
    {
      BKidNodes(t.kids, i);
      FreeKid(node, i, d, slot, t);
      i := i + 1;
      assert Local(t, d, slot);
    }
    assert t.kids[..i] == t.kids;
    NodesAllocated(t);
    node.Free();
    assert BNodes(t) == {node} + BForestNodes(t.kids);
  }

  /** One round of the loop. */
  method FreeKid<E(0), V>(node: Node<E>, i: nat, ghost d: nat, ghost slot: Entry<V> -> E, ghost t: Shape<E, V>)
    requires t.id == node && t.BInner? && i < |t.kids| && BOwned(t) && FreedUpTo(t, i, d, slot)
    modifies BNodes(t.kids[i])`freed
    ensures FreedUpTo(t, i + 1, d, slot)
    decreases t, 0
  {
    NodesAllocated(t);
    BFreeStepNodes(t.kids, i);
    BOwnNotBelow(t);
    assert Local(t, d, slot) && node.Kids()[i] == t.kids[i].id;
    RecursiveFree(node.children[i], d, slot, t.kids[i]);
    RepFrame(t, d, slot);
  }
}
