/** `recursive_free` with records: every node and every record once, and no access to a freed node. */
module RecordFree {
  import opened Base
  import opened BPlusShape
  import opened RecordNode
  import opened RecordHeap
  import opened Bindings

  ghost predicate Live(s: set<Node>)
    reads s`freed
  {
    forall n :: n in s ==> !n.freed
  }

  ghost predicate AllFreed(s: set<Node>)
    reads s`freed
  {
    forall n :: n in s ==> n.freed
  }

  ghost predicate LiveRecs(s: set<Record>)
    reads s`freed
  {
    forall r :: r in s ==> !r.freed
  }

  ghost predicate FreedRecs(s: set<Record>)
    reads s`freed
  {
    forall r :: r in s ==> r.freed
  }

  /** Taking a leaf out of the chain, as each freed leaf does for itself. */
  method Unlink(node: Node, ghost pre: seq<Node>, ghost post: seq<Node>, ghost ls: seq<Node>)
    requires ls == pre + [node] + post && Chain(ls) && Live(Members(ls))
    modifies Members(ls)`next, Members(ls)`previous
    ensures Chain(pre + post)
  {
    ghost var p := |pre|;
    assert Linked(ls, p);
    if node.next != null {
      assert node.next == ls[p + 1] && !node.next.freed;
      node.next.previous := node.previous;
    }
    if node.previous != null {
      assert node.previous == ls[p - 1] && !node.previous.freed;
      node.previous.next := node.next;
    }
    ChainRemove(ls, p);
    assert ls[..p] == pre && ls[p + 1..] == post;
  }

  twostate lemma ChainRemove(ls: seq<Node>, new p: nat)
    requires p < |ls| && old(Chain(ls))
    requires p > 0 ==> ls[p - 1].next == old(ls[p].next)
    requires p + 1 < |ls| ==> ls[p + 1].previous == old(ls[p].previous)
    requires forall i :: 0 <= i < |ls| && i != p - 1 ==> ls[i].next == old(ls[i].next)
    requires forall i :: 0 <= i < |ls| && i != p + 1 ==> ls[i].previous == old(ls[i].previous)
    ensures Chain(ls[..p] + ls[p + 1..])
  {
    var ls' := ls[..p] + ls[p + 1..];
    forall i | 0 <= i < |ls'|
      ensures Linked(ls', i)
    {
      assert old(Linked(ls, p));
      assert old(Linked(ls, if i < p then i else i + 1));
    }
  }

  /** Which records are freed, about to be freed and still live when the loop reaches child i. */
  lemma FreeStepRecords(kids: seq<Shape>, i: nat)
    requires i < |kids| && Distinct(Forest(kids))
    ensures Recs(Forest(kids)) == Recs(Forest(kids[..i])) + Recs(Entries(kids[i])) + Recs(Forest(kids[i + 1..]))
    ensures Recs(Forest(kids[..i + 1])) == Recs(Forest(kids[..i])) + Recs(Entries(kids[i]))
    ensures Recs(Forest(kids[i..])) == Recs(Entries(kids[i])) + Recs(Forest(kids[i + 1..]))
    ensures Recs(Entries(kids[i])) !! Recs(Forest(kids[..i])) && Recs(Entries(kids[i])) !! Recs(Forest(kids[i + 1..]))
    ensures Distinct(Entries(kids[i]))
  {
    FreeStepEntries(kids, i);
    hide Forest, Entries;
    var a, b, c := Forest(kids[..i]), Entries(kids[i]), Forest(kids[i + 1..]);
    RecsConcat(a + b, c);
    RecsConcat(a, b);
    RecsConcat(b, c);
    DistinctParts(a, b, c);
  }

  lemma FreeStepEntries(kids: seq<Shape>, i: nat)
    requires i < |kids|
    ensures Forest(kids) == Forest(kids[..i]) + Entries(kids[i]) + Forest(kids[i + 1..])
    ensures Forest(kids[..i + 1]) == Forest(kids[..i]) + Entries(kids[i])
    ensures Forest(kids[i..]) == Entries(kids[i]) + Forest(kids[i + 1..])
  {
    ForestAt(kids, i);
    ForestAt(kids[..i + 1], i);
    ForestAt(kids[i..], 0);
    assert kids[..i + 1][..i] == kids[..i] && kids[..i + 1][i + 1..] == [];
    assert kids[i..][..0] == [] && kids[i..][1..] == kids[i + 1..];
    var none: seq<Shape> := [];
    assert Forest(none) == [];
    hide Forest, Entries;
    assert Forest(none) + Entries(kids[i]) + Forest(kids[i + 1..]) == Entries(kids[i]) + Forest(kids[i + 1..]);
  }

  /** The records of a leaf, each once; the slots are cleared on the way. */
  method FreeRecords(node: Node, ghost es: seq<Entry<Record>>)
    requires !node.freed && LeafHolds(node, es) && Distinct(es) && LiveRecs(Recs(es))
    modifies node.pointers, Recs(es)`freed
    ensures FreedRecs(Recs(es)) && forall m :: 0 <= m < |es| ==> node.pointers[m] == Null
  {
    var i := 0;
    while i < node.nk
      invariant 0 <= i <= node.nk == |es|
      invariant forall m :: i <= m < |es| ==> node.pointers[m] == Rec(es[m].value) && !es[m].value.freed
      invariant forall m :: 0 <= m < i ==> es[m].value.freed && node.pointers[m] == Null
    {
      if node.pointers[i] != Null {
        node.pointers[i].rec.Free();
        node.pointers[i] := Null;
      }
      i := i + 1;
    }
  }

  /** The base case: unlink the leaf, free its records, then the leaf itself. */
  method FreeLeaf(node: Node, ghost es: seq<Entry<Record>>, ghost pre: seq<Node>, ghost post: seq<Node>,
                  ghost ls: seq<Node>)
    requires !node.freed && ls == pre + [node] + post && Chain(ls) && Live(Members(pre + post))
    requires LeafHolds(node, es) && Distinct(es) && LiveRecs(Recs(es))
    modifies node`freed, node.pointers, Recs(es)`freed, Members(ls)`next, Members(ls)`previous
    ensures node.freed && FreedRecs(Recs(es)) && Chain(pre + post)
  {
    Unlink(node, pre, post, ls);
    label unlinked:
    FreeRecords(node, es);
    node.Free();
    ChainFrame@unlinked(pre + post);
  }

  /** What `recursive_free` may assume of a subtree it is about to free. */
  ghost predicate Whole(t: Shape, d: nat)
    reads Nodes(t)`nk, Nodes(t)`freed, KeyArrays(Nodes(t)), PtrArrays(Nodes(t)), Recs(Entries(t))`freed
  {
    && Rep(t, d) && Owned(t) && Apart(Nodes(t)) && Live(Nodes(t))
    && Distinct(Entries(t)) && LiveRecs(Recs(Entries(t)))
  }

  /** Frees the subtree t and its records; the leaves before and after it stay a live chain. */
  method RecursiveFree(node: Node, ghost d: nat, ghost t: Shape,
                       ghost pre: seq<Node>, ghost post: seq<Node>, ghost ls: seq<Node>)
    requires t.id == node && Whole(t, d)
    requires ls == pre + Row(t) + post && Chain(ls) && Live(Members(pre + post))
    requires Members(pre + post) !! Nodes(t)
    modifies Nodes(t)`freed, PtrArrays(Nodes(t)), Recs(Entries(t))`freed, Members(ls)`next, Members(ls)`previous
    ensures AllFreed(Nodes(t)) && FreedRecs(Recs(Entries(t))) && Chain(pre + post)
    decreases t, 2
  {
    assert Local(t, d) && !node.freed;
    if node.isLeaf {
      LeafEntries(t);
      FreeLeaf(node, t.es, pre, post, ls);
      assert Nodes(t) == {node};
    } else {
      NodesAllocated(t);
      RecordsAllocated(t, Entries(t));
      FreeKids(node, d, t, pre, post, ls);
      label kids:
      node.Free();
      ChainFrame@kids(pre + post);
      assert Nodes(t) == {node} + ForestNodes(t.kids);
    }
  }

  lemma RecordsAllocated(t: Shape, es: seq<Entry<Record>>)
    requires es == Entries(t)
    ensures forall r :: r in Recs(Entries(t)) ==> allocated(r)
  {
  }

  /** The first i subtrees and their records are freed, the rest is whole. */
  ghost predicate FreedKids(t: Shape, i: nat, d: nat)
    requires t.Inner? && i <= |t.kids|
    reads Nodes(t)`nk, Nodes(t)`freed, KeyArrays(Nodes(t)), PtrArrays(Nodes(t)), Recs(Forest(t.kids))`freed
    reads ForestNodes(t.kids[..i])`freed, Recs(Forest(t.kids[..i]))`freed
  {
    && Local(t, d) && !t.id.freed
    && AllFreed(ForestNodes(t.kids[..i])) && FreedRecs(Recs(Forest(t.kids[..i])))
    && (AllKidNodes(t.kids); AllKidRecords(t.kids); forall m :: i <= m < |t.kids| ==> Whole(t.kids[m], d))
  }

  /** Where the loop over the children stands: also, the leaves left over form a live chain. */
  ghost predicate FreedUpTo(t: Shape, i: nat, d: nat, pre: seq<Node>, post: seq<Node>, cur: seq<Node>)
    requires t.Inner? && i <= |t.kids|
    reads Nodes(t)`nk, Nodes(t)`freed, KeyArrays(Nodes(t)), PtrArrays(Nodes(t)), Recs(Forest(t.kids))`freed
    reads ForestNodes(t.kids[..i])`freed, Recs(Forest(t.kids[..i]))`freed, Members(pre + post)`freed
    reads Members(cur)`next, Members(cur)`previous
  {
    && FreedKids(t, i, d) && Live(Members(pre + post))
    && cur == pre + Ids(ForestLeaves(t.kids[i..])) + post && Chain(cur)
  }

  lemma AllKidRecords(kids: seq<Shape>)
    ensures forall i :: 0 <= i < |kids| ==> Recs(Entries(kids[i])) <= Recs(Forest(kids))
  {
    forall i | 0 <= i < |kids| ensures Recs(Entries(kids[i])) <= Recs(Forest(kids)) {
      ForestAt(kids, i);
      RecsConcat(Forest(kids[..i]) + Entries(kids[i]), Forest(kids[i + 1..]));
      RecsConcat(Forest(kids[..i]), Entries(kids[i]));
    }
  }

  /** A whole tree is whole below. */
  lemma WholeBelow(t: Shape, d: nat)
    requires t.Inner? && Whole(t, d)
    ensures forall m :: 0 <= m < |t.kids| ==> Whole(t.kids[m], d)
    ensures Distinct(Forest(t.kids))
  {
    forall m | 0 <= m < |t.kids| ensures Whole(t.kids[m], d) {
      KidNodes(t.kids, m);
      FreeStepRecords(t.kids, m);
    }
  }

  /** What freeing child i may write is not part of the parent or of a later child. */
  lemma LaterApart(t: Shape, i: nat, m: nat)
    requires t.Inner? && i < m < |t.kids| && Owned(t) && Apart(Nodes(t)) && Distinct(Forest(t.kids))
    ensures Nodes(t.kids[m]) <= Nodes(t) && Nodes(t.kids[m]) !! Nodes(t.kids[i])
    ensures Recs(Entries(t.kids[m])) !! Recs(Entries(t.kids[i]))
  {
    KidNodes(t.kids, i);
    KidNodes(t.kids, m);
    FreeStepRecords(t.kids, i);
    AllKidRecords(t.kids[i + 1..]);
    assert t.kids[i + 1..][m - i - 1] == t.kids[m];
  }

  /** Freeing child i leaves a later child whole. */
  twostate lemma LaterKidWhole(c: Shape, new d: nat)
    requires old(Whole(c, d))
    requires forall n :: n in Nodes(c) ==> old(allocated(n)) && unchanged(n`nk) && unchanged(n`freed)
    requires forall n :: n in Nodes(c) ==> unchanged(n.keys) && unchanged(n.pointers)
    requires forall r :: r in Recs(Entries(c)) ==> old(allocated(r)) && r.freed == old(r.freed)
    ensures Whole(c, d)
  {
    RepFrame(c, d);
  }

  twostate lemma LaterKidsWhole(t: Shape, new i: nat, new d: nat)
    requires t.Inner? && i < |t.kids| && Owned(t) && Apart(Nodes(t)) && Distinct(Forest(t.kids))
    requires forall m :: i < m < |t.kids| ==> old(Whole(t.kids[m], d))
    requires forall n :: n in Nodes(t) && n !in Nodes(t.kids[i]) ==>
      old(allocated(n)) && unchanged(n`nk) && unchanged(n`freed)
    requires forall n :: n in Nodes(t) && n !in Nodes(t.kids[i]) ==> unchanged(n.keys) && unchanged(n.pointers)
    requires forall r :: r in Recs(Forest(t.kids)) && r !in Recs(Entries(t.kids[i])) ==>
      old(allocated(r)) && r.freed == old(r.freed)
    ensures forall m :: i < m < |t.kids| ==> Whole(t.kids[m], d)
  {
    AllKidRecords(t.kids);
    forall m | i < m < |t.kids|
      ensures Whole(t.kids[m], d)
    {
      LaterApart(t, i, m);
      LaterKidWhole(t.kids[m], d);
    }
  }

  lemma ForestLive(kids: seq<Shape>, i: nat, d: nat)
    requires i <= |kids| && forall m :: i <= m < |kids| ==> Whole(kids[m], d)
    ensures Live(ForestNodes(kids[i..]))
  {
    forall n | n in ForestNodes(kids[i..]) ensures !n.freed {
      var m := NodeOf(kids[i..], n);
      assert kids[i..][m] == kids[i + m];
    }
  }

  /** What the call on child i may assume: a whole subtree ... */
  lemma KidReady(t: Shape, i: nat, d: nat)
    requires t.Inner? && i < |t.kids| && FreedKids(t, i, d)
    ensures Whole(t.kids[i], d) && t.id.Room(d) && |t.kids| <= 2 * d && t.id.pointers[i] == Child(t.kids[i].id)
    ensures Live(ForestNodes(t.kids[i..]))
  {
    ForestLive(t.kids, i, d);
    assert t.id.pointers[..|t.kids|][i] == KidPtrs(Ids(t.kids))[i];
  }

  /** ... and its place among the leaves that are left. */
  lemma NeighboursReady(t: Shape, i: nat, pre: seq<Node>, post: seq<Node>, cur: seq<Node>)
    requires t.Inner? && i < |t.kids| && Owned(t)
    requires Members(pre + post) !! Nodes(t) && Live(Members(pre + post)) && Live(ForestNodes(t.kids[i..]))
    requires cur == pre + Ids(ForestLeaves(t.kids[i..])) + post
    ensures var post' := Ids(ForestLeaves(t.kids[i + 1..])) + post;
            && cur == pre + Row(t.kids[i]) + post'
            && pre + Ids(ForestLeaves(t.kids[i + 1..])) + post == pre + post'
            && Live(Members(pre + post')) && Members(pre + post') !! Nodes(t.kids[i])
            && Members(pre + post') <= Members(cur)
  {
    FreeStepRow(t.kids, i, pre, post);
    FreeStepNeighbours(t.kids, i, pre, post);
    hide ForestLeaves, ForestNodes, Owned;
    var post' := Ids(ForestLeaves(t.kids[i + 1..])) + post;
    assert pre + post' == pre + Ids(ForestLeaves(t.kids[i + 1..])) + post;
  }

  /** One more child freed. */
  twostate lemma FreedFurther(t: Shape, new i: nat, new d: nat)
    requires t.Inner? && i < |t.kids| && Owned(t) && Apart(Nodes(t)) && Distinct(Forest(t.kids))
    requires old(FreedKids(t, i, d))
    requires forall n :: n in Nodes(t) && n !in Nodes(t.kids[i]) ==>
      old(allocated(n)) && unchanged(n`nk) && unchanged(n`freed)
    requires forall n :: n in Nodes(t) && n !in Nodes(t.kids[i]) ==> unchanged(n.keys) && unchanged(n.pointers)
    requires forall r :: r in Recs(Forest(t.kids)) && r !in Recs(Entries(t.kids[i])) ==>
      old(allocated(r)) && r.freed == old(r.freed)
    requires AllFreed(Nodes(t.kids[i])) && FreedRecs(Recs(Entries(t.kids[i])))
    ensures FreedKids(t, i + 1, d)
  {
    KidNodes(t.kids, i);
    FreeStepNodes(t.kids, i);
    FreeStepRecords(t.kids, i);
    LaterKidsWhole(t, i, d);
    assert old(Local(t, d)) && t.id !in Nodes(t.kids[i]);
  }

  /** One round of the loop. */
  method FreeKid(node: Node, i: nat, ghost d: nat, ghost t: Shape,
                 ghost pre: seq<Node>, ghost post: seq<Node>, ghost cur: seq<Node>)
    requires t.id == node && t.Inner? && i < |t.kids| && Owned(t) && Apart(Nodes(t)) && Distinct(Forest(t.kids))
    requires Members(pre + post) !! Nodes(t) && FreedUpTo(t, i, d, pre, post, cur)
    modifies Nodes(t.kids[i])`freed, PtrArrays(Nodes(t.kids[i])), Recs(Entries(t.kids[i]))`freed
    modifies Members(cur)`next, Members(cur)`previous
    ensures FreedUpTo(t, i + 1, d, pre, post, pre + Ids(ForestLeaves(t.kids[i + 1..])) + post)
    ensures Members(pre + Ids(ForestLeaves(t.kids[i + 1..])) + post) <= Members(cur)
    decreases t, 0
  {
    NodesAllocated(t);
    RecordsAllocated(t, Entries(t));
    KidReady(t, i, d);
    NeighboursReady(t, i, pre, post, cur);
    KidNodes(t.kids, i);
    ghost var later := Ids(ForestLeaves(t.kids[i + 1..]));
    hide Owned, Rep, Entries, Forest, ForestLeaves, Nodes, Apart, Distinct, Chain, Ids, Whole, FreedKids;
    label before:
    FreeWithin(node.pointers[i].node, d, t.kids[i], pre, later + post, cur, Nodes(t), Recs(Forest(t.kids)));
    FreedFurther@before(t, i, d);
  }

  /** `recursive_free`, seen from the nodes s and the records rs of a larger tree: the others are untouched. */
  method FreeWithin(node: Node, ghost d: nat, ghost t: Shape, ghost pre: seq<Node>, ghost post: seq<Node>,
                    ghost ls: seq<Node>, ghost s: set<Node>, ghost rs: set<Record>)
    requires t.id == node && Whole(t, d)
    requires ls == pre + Row(t) + post && Chain(ls) && Live(Members(pre + post))
    requires Members(pre + post) !! Nodes(t) && Nodes(t) <= s && Apart(s)
    modifies Nodes(t)`freed, PtrArrays(Nodes(t)), Recs(Entries(t))`freed, Members(ls)`next, Members(ls)`previous
    ensures AllFreed(Nodes(t)) && FreedRecs(Recs(Entries(t))) && Chain(pre + post)
    ensures forall n :: n in s && n !in Nodes(t) ==>
      unchanged(n`nk) && unchanged(n`freed) && unchanged(n.keys) && unchanged(n.pointers)
    ensures forall r :: r in rs && r !in Recs(Entries(t)) ==> r.freed == old(r.freed)
    decreases t, 3
  {
    ArraysOutside(s, Nodes(t));
    RecursiveFree(node, d, t, pre, post, ls);
  }

  /** The loop over the children. */
  method FreeKids(node: Node, ghost d: nat, ghost t: Shape,
                  ghost pre: seq<Node>, ghost post: seq<Node>, ghost ls: seq<Node>)
    requires t.id == node && t.Inner? && Whole(t, d)
    requires ls == pre + Row(t) + post && Chain(ls) && Live(Members(pre + post))
    requires Members(pre + post) !! Nodes(t)
    modifies ForestNodes(t.kids)`freed, PtrArrays(ForestNodes(t.kids)), Recs(Forest(t.kids))`freed
    modifies Members(ls)`next, Members(ls)`previous
    ensures AllFreed(ForestNodes(t.kids)) && FreedRecs(Recs(Forest(t.kids))) && !node.freed && Chain(pre + post)
    decreases t, 1
  {
    assert Local(t, d);
    WholeBelow(t, d);
    assert t.kids[0..] == t.kids && t.kids[..0] == [];
    var i := 0;
    ghost var cur := ls;
    while i < node.nk + 1
      invariant 0 <= i <= |t.kids| && node.nk + 1 == |t.kids|
      invariant FreedUpTo(t, i, d, pre, post, cur)
      invariant Members(cur) <= Members(ls)
    {
      KidNodes(t.kids, i);
      AllKidRecords(t.kids);
      FreeKid(node, i, d, t, pre, post, cur);
      cur := pre + Ids(ForestLeaves(t.kids[i + 1..])) + post;
      i := i + 1;
      assert Local(t, d);
    }
    assert t.kids[..i] == t.kids;
    assert t.kids[i..] == [];
    assert cur == pre + post;
  }
}
