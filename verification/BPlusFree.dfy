/** `recursive_free`: every node once, and no access to a freed one. */
module BPlusFree {
  import opened BPlusShape
  import opened BPlusNode
  import opened BPlusHeap

  ghost predicate Live(s: set<Node>)
    reads s`freed
  {
    forall n :: n in s ==> !n.freed
  }

  ghost predicate AllFreed(s: set<Node>)
    reads s`freed
  {
    forall n :: n in s ==> n.freed
  }

  /** Taking a leaf out of the chain, as each freed leaf does for itself. */
  method Unlink(node: Node, ghost pre: seq<Node>, ghost post: seq<Node>, ghost ls: seq<Node>)
    requires ls == pre + [node] + post && Chain(ls) && Live(Members(ls))
    modifies Members(ls)`next, Members(ls)`previous
    ensures Chain(pre + post)
  {
    ghost var p := |pre|;
    assert Linked(ls, p);
    if node.next != null {
      assert node.next == ls[p + 1] && !node.next.freed;
      node.next.previous := node.previous;
    }
    if node.previous != null {
      assert node.previous == ls[p - 1] && !node.previous.freed;
      node.previous.next := node.next;
    }
    ChainRemove(ls, p);
    assert ls[..p] == pre && ls[p + 1..] == post;
  }

  twostate lemma ChainRemove(ls: seq<Node>, new p: nat)
    requires p < |ls| && old(Chain(ls))
    requires p > 0 ==> ls[p - 1].next == old(ls[p].next)
    requires p + 1 < |ls| ==> ls[p + 1].previous == old(ls[p].previous)
    requires forall i :: 0 <= i < |ls| && i != p - 1 ==> ls[i].next == old(ls[i].next)
    requires forall i :: 0 <= i < |ls| && i != p + 1 ==> ls[i].previous == old(ls[i].previous)
    ensures Chain(ls[..p] + ls[p + 1..])
  {
    var ls' := ls[..p] + ls[p + 1..];
    forall i | 0 <= i < |ls'|
      ensures Linked(ls', i)
    {
      assert old(Linked(ls, p));
      assert old(Linked(ls, if i < p then i else i + 1));
    }
  }

  /** Frees the subtree t; the leaves before and after it stay a live chain. */
  method RecursiveFree(node: Node, ghost d: nat, ghost t: Shape,
                       ghost pre: seq<Node>, ghost post: seq<Node>, ghost ls: seq<Node>)
    requires t.id == node && Rep(t, d) && Owned(t) && Live(Nodes(t))
    requires ls == pre + Row(t) + post && Chain(ls) && Live(Members(pre + post))
    requires Members(pre + post) !! Nodes(t)
    modifies Nodes(t)`freed, Members(ls)`next, Members(ls)`previous
    ensures AllFreed(Nodes(t)) && Chain(pre + post)
    decreases t, 2
  {
    assert !node.freed;
    if node.isLeaf {
      FreeLeaf(node, pre, post, ls);
      assert Nodes(t) == {node};
    } else {
      NodesAllocated(t);
      FreeKids(node, d, t, pre, post, ls);
      label kids:
      node.Free();
      ChainFrame@kids(pre + post);
      assert Nodes(t) == {node} + ForestNodes(t.kids);
    }
  }

  /** The base case: unlink the leaf, then free it. */
  method FreeLeaf(node: Node, ghost pre: seq<Node>, ghost post: seq<Node>, ghost ls: seq<Node>)
    requires !node.freed && ls == pre + [node] + post && Chain(ls) && Live(Members(pre + post))
    modifies node`freed, Members(ls)`next, Members(ls)`previous
    ensures node.freed && Chain(pre + post)
  {
    Unlink(node, pre, post, ls);
    label unlinked:
    node.Free();
    ChainFrame@unlinked(pre + post);
  }

  /** Where the loop over the children stands: the first i subtrees are freed, the rest is live. */
  ghost predicate FreedUpTo(t: Shape, i: nat, d: nat, pre: seq<Node>, post: seq<Node>, cur: seq<Node>)
    requires t.Inner? && i <= |t.kids|
    reads Nodes(t)`nk, EntryArrays(Nodes(t)), ChildArrays(Nodes(t))
    reads t.id`freed, ForestNodes(t.kids[..i])`freed, ForestNodes(t.kids[i..])`freed, Members(pre + post)`freed
    reads Members(cur)`next, Members(cur)`previous
  {
    && Rep(t, d) && !t.id.freed
    && AllFreed(ForestNodes(t.kids[..i])) && Live(ForestNodes(t.kids[i..])) && Live(Members(pre + post))
    && cur == pre + Ids(ForestLeaves(t.kids[i..])) + post && Chain(cur)
  }

  /** One round of the loop. */
  method FreeKid(node: Node, i: nat, ghost d: nat, ghost t: Shape,
                 ghost pre: seq<Node>, ghost post: seq<Node>, ghost cur: seq<Node>)
    requires t.id == node && t.Inner? && i < |t.kids| && Owned(t)
    requires Members(pre + post) !! Nodes(t) && FreedUpTo(t, i, d, pre, post, cur)
    modifies Nodes(t.kids[i])`freed, Members(cur)`next, Members(cur)`previous
    ensures FreedUpTo(t, i + 1, d, pre, post, pre + Ids(ForestLeaves(t.kids[i + 1..])) + post)
    ensures Members(pre + Ids(ForestLeaves(t.kids[i + 1..])) + post) <= Members(cur)
    decreases t, 0
  {
    NodesAllocated(t);
    FreeStepRow(t.kids, i, pre, post);
    FreeStepNodes(t.kids, i);
    FreeStepNeighbours(t.kids, i, pre, post);
    OwnNotBelow(t);
    assert Local(t, d) && node.Kids()[i] == t.kids[i].id;
    ghost var post' := Ids(ForestLeaves(t.kids[i + 1..])) + post;
    assert pre + post' == pre + Ids(ForestLeaves(t.kids[i + 1..])) + post;
    RecursiveFree(node.children[i], d, t.kids[i], pre, post', cur);
    RepFrame(t, d);
  }

  /** The loop over the children. */
  method FreeKids(node: Node, ghost d: nat, ghost t: Shape,
                  ghost pre: seq<Node>, ghost post: seq<Node>, ghost ls: seq<Node>)
    requires t.id == node && t.Inner? && Rep(t, d) && Owned(t) && Live(Nodes(t))
    requires ls == pre + Row(t) + post && Chain(ls) && Live(Members(pre + post))
    requires Members(pre + post) !! Nodes(t)
    modifies ForestNodes(t.kids)`freed, Members(ls)`next, Members(ls)`previous
    ensures AllFreed(ForestNodes(t.kids)) && !node.freed && Chain(pre + post)
    decreases t, 1
  {
    assert Local(t, d);
    assert t.kids[0..] == t.kids;
    var i := 0;
    ghost var cur := ls;
    while i < node.nk + 1
      invariant 0 <= i <= |t.kids| && node.nk + 1 == |t.kids|
      invariant FreedUpTo(t, i, d, pre, post, cur)
      invariant Members(cur) <= Members(ls)
    {
      KidNodes(t.kids, i);
      FreeKid(node, i, d, t, pre, post, cur);
      cur := pre + Ids(ForestLeaves(t.kids[i + 1..])) + post;
      i := i + 1;
      assert Local(t, d);
    }
    assert t.kids[..i] == t.kids;
    assert t.kids[i..] == [];
    assert cur == pre + post;
  }
}
