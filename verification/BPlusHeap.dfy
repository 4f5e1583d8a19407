/** How nodes in memory represent a B+-tree value, and what splitting does to both. */
module BPlusHeap {
  import opened Base
  import opened SortedMap
  import opened Arrays
  import opened BPlusShape
  import opened BPlusNode

  type Shape = Tree<Node, Value>

  /** The node at the root of t holds exactly what t says. */
  ghost predicate Local(t: Shape, d: nat)
    reads t.id`nk, t.id.entries, t.id.children
  {
    && t.id.Room(d)
    && t.id.nk == t.Size() <= 2 * d - 1
    && match t
       case Leaf(n, es) => n.isLeaf && n.Es() == es
       case Inner(n, ks, kids) => !n.isLeaf && |kids| == |ks| + 1 && Keys(n.Es()) == ks && n.Kids() == Ids(kids)
  }

  ghost predicate Rep(t: Shape, d: nat)
    reads Nodes(t)`nk, EntryArrays(Nodes(t)), ChildArrays(Nodes(t))
    decreases t
  {
    Local(t, d) && (t.Inner? ==> (AllKidNodes(t.kids); forall i :: 0 <= i < |t.kids| ==> Rep(t.kids[i], d)))
  }

  lemma {:induction false} NodesAllocated(t: Shape)
    ensures forall n :: n in Nodes(t) ==> allocated(n)
    decreases t
  {
    if t.Inner? {
      forall n | n in ForestNodes(t.kids) ensures allocated(n) {
        var i := NodeOf(t.kids, n);
        NodesAllocated(t.kids[i]);
      }
    }
  }

  /** What no write touched is still represented. */
  twostate lemma {:induction false} RepFrame(t: Shape, new d: nat)
    requires old(Rep(t, d))
    requires forall n :: n in Nodes(t) ==>
      old(allocated(n)) && unchanged(n`nk) && unchanged(n.entries) && unchanged(n.children)
    ensures Rep(t, d)
    decreases t
  {
    assert old(Local(t, d));
    if t.Inner? {
      forall i | 0 <= i < |t.kids|
        ensures Rep(t.kids[i], d)
      {
        KidNodes(t.kids, i);
        RepFrame(t.kids[i], d);
      }
    }
  }

  /** A doubly linked chain over distinct nodes: `previous` is the inverse of `next`. */
  ghost predicate Chain(ls: seq<Node>)
    reads Members(ls)`next, Members(ls)`previous
  {
    && (forall i, j :: 0 <= i < j < |ls| ==> ls[i] != ls[j])
    && (forall i :: 0 <= i < |ls| ==> Linked(ls, i))
  }

  ghost predicate Linked(ls: seq<Node>, i: nat)
    requires i < |ls|
    reads Members(ls)`next, Members(ls)`previous
  {
    && ls[i].next == (if i + 1 < |ls| then ls[i + 1] else null)
    && ls[i].previous == (if i > 0 then ls[i - 1] else null)
  }

  twostate lemma ChainFrame(ls: seq<Node>)
    requires old(Chain(ls))
    requires forall n :: n in ls ==> n.next == old(n.next) && n.previous == old(n.previous)
    ensures Chain(ls)
  {
    forall i | 0 <= i < |ls|
      ensures Linked(ls, i)
    {
      assert old(Linked(ls, i));
    }
  }

  /** The chain with the new leaf after position p. */
  twostate lemma ChainInsert(ls: seq<Node>, new p: nat, new sib: Node)
    requires p < |ls| && old(Chain(ls))
    requires sib !in ls
    requires sib.next == old(ls[p].next) && sib.previous == ls[p] && ls[p].next == sib
    requires ls[p].previous == old(ls[p].previous)
    requires p + 1 < |ls| ==> ls[p + 1].previous == sib && ls[p + 1].next == old(ls[p + 1].next)
    requires forall i :: 0 <= i < |ls| && i != p && i != p + 1 ==>
      ls[i].next == old(ls[i].next) && ls[i].previous == old(ls[i].previous)
    ensures Chain(InsertAt(ls, p + 1, sib))
  {
    var ls' := InsertAt(ls, p + 1, sib);
    forall i | 0 <= i < |ls'|
      ensures Linked(ls', i)
    {
      if i <= p { assert old(Linked(ls, i)); } else if i > p + 1 { assert old(Linked(ls, i - 1)); }
      assert old(Linked(ls, p));
    }
  }

  /** The pieces of a split parent are represented, so the parent is. */
  lemma RepSplit(t: Shape, i: nat, d: nat, sib: Node)
    requires t.Inner? && i < |t.kids| && i <= |t.ks| && Splittable(t.kids[i], d)
    requires forall m :: 0 <= m < |t.kids| && m != i ==> Rep(t.kids[m], d)
    requires Rep(LeftHalf(t.kids[i], d), d) && Rep(RightHalf(t.kids[i], d, sib), d)
    requires Local(SplitTree(t, i, d, sib), d)
    ensures Rep(SplitTree(t, i, d, sib), d)
  {
    var t' := SplitTree(t, i, d, sib);
    forall m | 0 <= m < |t'.kids|
      ensures Rep(t'.kids[m], d)
    {
      SplitKidsMember(t.kids, i, d, sib, m);
    }
  }

  /** Everything under t but the split parent and child is still represented. */
  twostate lemma OthersFrame(t: Shape, new i: nat, new d: nat)
    requires old(Rep(t, d)) && t.Inner? && i < |t.kids| && Owned(t)
    requires forall n :: n in Nodes(t) && n != t.id ==>
      old(allocated(n)) && unchanged(n.entries) && unchanged(n.children) && (n != t.kids[i].id ==> unchanged(n`nk))
    ensures forall m :: 0 <= m < |t.kids| && m != i ==> Rep(t.kids[m], d)
    ensures t.kids[i].Inner? ==> forall m :: 0 <= m < |t.kids[i].kids| ==> Rep(t.kids[i].kids[m], d)
  {
    var c := t.kids[i];
    KidNodes(t.kids, i);
    assert Owned(c) && old(Rep(c, d));
    forall m | 0 <= m < |t.kids| && m != i
      ensures Rep(t.kids[m], d)
    {
      KidNodes(t.kids, m);
      OtherKid(t, i, m);
      assert forall n :: n in Nodes(t.kids[m]) ==> n in Nodes(t) && n != t.id && n != t.kids[i].id;
      RepFrame(t.kids[m], d);
    }
    assert forall n :: n in Nodes(c) ==> n in Nodes(t) && n != t.id;
    KidsFrame(c, d);
  }

  /** Everything under an internal node that is untouched but for itself is still represented. */
  twostate lemma KidsFrame(c: Shape, new d: nat)
    requires old(Rep(c, d)) && Owned(c)
    requires forall n :: n in Nodes(c) && n != c.id ==>
      old(allocated(n)) && unchanged(n`nk) && unchanged(n.entries) && unchanged(n.children)
    ensures c.Inner? ==> forall m :: 0 <= m < |c.kids| ==> Rep(c.kids[m], d)
  {
    if c.Inner? {
      forall m | 0 <= m < |c.kids|
        ensures Rep(c.kids[m], d)
      {
        KidNodes(c.kids, m);
        assert forall n :: n in Nodes(c.kids[m]) ==> n in Nodes(c) && n != c.id;
        RepFrame(c.kids[m], d);
      }
    }
  }

  /** `split_node` on the full leaf t.kids[i]. */
  method SplitLeafChild(parent: Node, i: nat, d: nat, ghost t: Shape) returns (sib: Node)
    requires t.Inner? && t.id == parent && Rep(t, d) && Owned(t) && OwnArrays(t.id, Nodes(t))
    requires i < |t.kids| && Splittable(t.kids[i], d) && t.kids[i].Leaf? && |t.ks| < 2 * d - 1
    requires t.kids[i].id.next != t.kids[i].id
    modifies parent`nk, parent.entries, parent.children, t.kids[i].id`nk
    modifies t.kids[i].id`next, NextOf(t.kids[i].id)`previous
    ensures fresh(sib) && fresh(sib.entries) && fresh(sib.children) && !sib.freed
    ensures Rep(SplitTree(t, i, d, sib), d)
    ensures var child := t.kids[i].id;
            && sib.next == old(child.next) && sib.previous == child && child.next == sib
            && (old(child.next) != null ==> old(child.next).previous == sib)
  {
    assert Rep(t.kids[i], d);
    NodesAllocated(t);
    KidNodes(t.kids, i);
    sib := SplitLeaf(i, parent, parent.children[i], d);
    SplitIds(t.kids, i, d, sib);
    OthersFrame(t, i, d);
    RepSplit(t, i, d, sib);
  }

  /** What the node-level split needs to know of a represented parent and child. */
  lemma InnerSplitFacts(t: Shape, i: nat, d: nat)
    requires t.Inner? && Rep(t, d) && Owned(t) && OwnArrays(t.id, Nodes(t)) && i < |t.kids|
    ensures t.id.Room(d) && Local(t, d) && Local(t.kids[i], d) && i <= |t.ks|
    ensures t.id.children[i] == t.kids[i].id && t.kids[i].id in Nodes(t)
    ensures t.id != t.kids[i].id
    ensures t.id.entries != t.kids[i].id.entries && t.id.children != t.kids[i].id.children
  {
    assert Rep(t.kids[i], d);
    KidNodes(t.kids, i);
    assert t.id.Kids()[i] == t.kids[i].id;
    assert t.kids[i].id in Nodes(t.kids[i]);
  }

  /** `split_node` on the full internal node t.kids[i]. */
  method SplitInnerChild(parent: Node, i: nat, d: nat, ghost t: Shape) returns (sib: Node)
    requires t.Inner? && t.id == parent && Rep(t, d) && Owned(t) && OwnArrays(t.id, Nodes(t))
    requires i < |t.kids| && Splittable(t.kids[i], d) && t.kids[i].Inner? && |t.ks| < 2 * d - 1
    modifies parent`nk, parent.entries, parent.children, t.kids[i].id`nk
    ensures fresh(sib) && fresh(sib.entries) && fresh(sib.children) && !sib.freed
    ensures Rep(SplitTree(t, i, d, sib), d)
  {
    InnerSplitFacts(t, i, d);
    hide Owned;
    NodesAllocated(t);
    sib := SplitInner(i, parent, parent.children[i], d);
    SplitIds(t.kids, i, d, sib);
    OthersFrame(t, i, d);
    RepInnerHalves(t.kids[i], d, sib);
    RepSplit(t, i, d, sib);
  }

  lemma RepInnerHalves(c: Shape, d: nat, sib: Node)
    requires Splittable(c, d) && c.Inner?
    requires forall m :: 0 <= m < |c.kids| ==> Rep(c.kids[m], d)
    requires Local(LeftHalf(c, d), d) && Local(RightHalf(c, d, sib), d)
    ensures Rep(LeftHalf(c, d), d) && Rep(RightHalf(c, d, sib), d)
  {
  }

  /** A new leaf threaded in after position p by `SplitLeaf`. */
  twostate lemma ChainAfterSplit(ls: seq<Node>, new p: nat, new sib: Node)
    requires p < |ls| && old(Chain(ls)) && sib !in ls
    requires sib.next == old(ls[p].next) && sib.previous == ls[p] && ls[p].next == sib
    requires old(ls[p].next) != null ==> old(ls[p].next).previous == sib
    requires forall n :: n in ls && n != ls[p] ==> n.next == old(n.next)
    requires forall n :: n in ls && n != old(ls[p].next) ==> n.previous == old(n.previous)
    ensures Chain(InsertAt(ls, p + 1, sib))
  {
    assert old(Linked(ls, p));
    ChainInsert(ls, p, sib);
  }

  /** `split_node` on the full leaf t.kids[i], keeping the leaf chain. */
  method SplitLeafChained(parent: Node, i: nat, d: nat, ghost t: Shape,
                          ghost pre: seq<Node>, ghost post: seq<Node>, ghost ls: seq<Node>)
    returns (sib: Node)
    requires t.Inner? && t.id == parent && Rep(t, d) && Owned(t) && OwnArrays(t.id, Nodes(t))
    requires i < |t.kids| && Splittable(t.kids[i], d) && t.kids[i].Leaf? && |t.ks| < 2 * d - 1
    requires ls == pre + Row(t) + post && Chain(ls)
    modifies parent`nk, parent.entries, parent.children, t.kids[i].id`nk
    modifies Members(ls)`next, Members(ls)`previous
    ensures fresh(sib) && fresh(sib.entries) && fresh(sib.children) && !sib.freed
    ensures Rep(SplitTree(t, i, d, sib), d)
    ensures Chain(pre + Row(SplitTree(t, i, d, sib)) + post)
    ensures Members(pre + Row(SplitTree(t, i, d, sib)) + post) <= Members(ls) + {sib}
  {
    hide Rep, Owned, OwnArrays, LeftHalf, RightHalf;
    ghost var p := SplitRow(t.kids, i, d, t.kids[i].id, pre, post);
    assert Linked(ls, p);
    sib := SplitLeafChild(parent, i, d, t);
    ghost var q := SplitRow(t.kids, i, d, sib, pre, post);
    ChainAfterSplit(ls, q, sib);
  }

  /** `split_node` on the full child i, keeping the nodes, the leaf chain and their disjointness. */
  method SplitChild(parent: Node, i: nat, d: nat, ghost t: Shape,
                    ghost pre: seq<Node>, ghost post: seq<Node>, ghost ls: seq<Node>)
    returns (sib: Node)
    requires t.Inner? && t.id == parent && Rep(t, d) && Owned(t) && OwnArrays(t.id, Nodes(t))
    requires i < |t.kids| && Splittable(t.kids[i], d) && |t.ks| < 2 * d - 1
    requires ls == pre + Row(t) + post && Chain(ls)
    modifies parent`nk, parent.entries, parent.children, t.kids[i].id`nk
    modifies Members(ls)`next, Members(ls)`previous
    ensures fresh(sib) && fresh(sib.entries) && fresh(sib.children) && !sib.freed
    ensures Rep(SplitTree(t, i, d, sib), d)
    ensures Chain(pre + Row(SplitTree(t, i, d, sib)) + post)
    ensures Members(pre + Row(SplitTree(t, i, d, sib)) + post) <= Members(ls) + {sib}
  {
    assert Rep(t.kids[i], d);
    if parent.children[i].isLeaf {
      sib := SplitLeafChained(parent, i, d, t, pre, post, ls);
    } else {
      sib := SplitInnerChild(parent, i, d, t);
      SplitKidsEntries(t.kids, i, d, sib);
      ChainFrame(ls);
    }
  }
}
