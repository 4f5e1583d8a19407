/** `scan`: a descent that goes left on an equal separator, then a walk along the leaf chain. */
module BPlusScan {
  import opened Base
  import opened SortedMap
  import opened BPlusShape
  import opened BPlusRange
  import opened BPlusNode
  import opened BPlusHeap

  /** Every leaf of a represented tree is represented. */
  lemma {:induction false} LeavesRep(t: Shape, d: nat)
    requires Rep(t, d)
    ensures forall q :: 0 <= q < |Leaves(t)| ==> Leaves(t)[q].Leaf? && Rep(Leaves(t)[q], d)
    decreases t, 1
  {
    if t.Inner? {
      ForestLeavesRep(t.kids, d);
    }
  }

  lemma {:induction false} ForestLeavesRep(ts: seq<Shape>, d: nat)
    requires forall i :: 0 <= i < |ts| ==> Rep(ts[i], d)
    ensures forall q :: 0 <= q < |ForestLeaves(ts)| ==> ForestLeaves(ts)[q].Leaf? && Rep(ForestLeaves(ts)[q], d)
    decreases ts, 0
  {
    if ts != [] {
      LeavesRep(ts[0], d);
      ForestLeavesRep(ts[1..], d);
    }
  }

  /** What a node says about the tree it represents. */
  lemma LocalKind(t: Shape, d: nat)
    requires Rep(t, d)
    ensures t.id.isLeaf == t.Leaf? && t.id.nk == t.Size() <= t.id.entries.Length
  {
  }

  /** Slot i of an internal node. */
  lemma InnerSlots(t: Shape, i: nat, d: nat)
    requires t.Inner? && Rep(t, d) && i <= |t.ks|
    ensures i < |t.kids| && i < t.id.children.Length && t.id.children[i] == t.kids[i].id && Rep(t.kids[i], d)
    ensures i > 0 ==> t.ks[i - 1] == t.id.entries[i - 1].key
    ensures i < |t.ks| ==> t.ks[i] == t.id.entries[i].key
  {
    assert Local(t, d);
    assert t.id.Kids()[i] == t.kids[i].id;
    assert forall m :: 0 <= m < |t.ks| ==> t.ks[m] == t.id.entries[m].key;
  }

  /** Descends to the leaf where the scan starts. */
  method FindLeaf(root: Node, key: Key, ghost d: nat, ghost h: nat, ghost lo: int, ghost hi: int, ghost tree: Shape)
    returns (leaf: Node, ghost before: seq<Shape>, ghost t: Shape, ghost after: seq<Shape>)
    requires d >= 2 && tree.id == root && Rep(tree, d) && Wf(tree, d, h, lo, hi)
    ensures leaf.isLeaf && t.Leaf? && t.id == leaf && Rep(t, d) && Ascending(t.es)
    ensures Cut(Leaves(tree), before, t, after, key)
  {
    leaf := root;
    before, t, after := [], tree, [];
    ghost var height, low, high := h, lo, hi;
    assert [] + Leaves(tree) + [] == Leaves(tree);
    hide Rep, Cut, Leaves;
    while !leaf.isLeaf
      invariant t.id == leaf && Rep(t, d) && Wf(t, d, height, low, high)
      invariant Cut(Leaves(tree), before, t, after, key)
      decreases height
    {
      LocalKind(t, d);
      assert t.Inner? && height > 0;
      var i := 0;
      while i < leaf.nk && key > leaf.entries[i].key
        invariant 0 <= i <= leaf.nk
        invariant forall m :: 0 <= m < i ==> leaf.entries[m].key < key
      {
        i := i + 1;
      }
      InnerSlots(t, i, d);
      CutDescend(Leaves(tree), before, t, after, i, key, d, height, low, high);
      before, after := before + ForestLeaves(t.kids[..i]), ForestLeaves(t.kids[i + 1..]) + after;
      height, low, high := height - 1, Lo(t.ks, low, i), Hi(t.ks, high, i);
      leaf, t := leaf.children[i], t.kids[i];
    }
    LocalKind(t, d);
  }

  /** Following `next` visits ls in order and ends. */
  ghost predicate NextLinked(ls: seq<Node>)
    reads Members(ls)`next
  {
    forall m :: 0 <= m < |ls| ==> ls[m].next == if m + 1 < |ls| then ls[m + 1] else null
  }

  lemma ChainNext(ls: seq<Node>)
    requires Chain(ls)
    ensures NextLinked(ls)
  {
    forall m | 0 <= m < |ls| ensures ls[m].next == if m + 1 < |ls| then ls[m + 1] else null {
      assert Linked(ls, m);
    }
  }

  lemma RowNext(row: seq<Shape>, ls: seq<Node>, p: nat)
    requires ls == Ids(row) && NextLinked(ls) && p < |row|
    ensures row[p].id.next == if p + 1 < |row| then row[p + 1].id else null
  {
    NextOf(ls, p);
  }

  lemma NextOf(ls: seq<Node>, p: nat)
    requires NextLinked(ls) && p < |ls|
    ensures ls[p].next == if p + 1 < |ls| then ls[p + 1] else null
  {
  }

  /** What is still to be copied from position pos of the leaf at p on. */
  ghost function Ahead(row: seq<Shape>, p: nat, pos: nat): seq<Entry<Value>> {
    if p < |row| && row[p].Leaf? && pos <= |row[p].es| then row[p].es[pos..] + Cat(row[p + 1..]) else []
  }

  /** At the end of a leaf the walk goes on with the next one. */
  lemma AheadNext(row: seq<Shape>, p: nat)
    requires p < |row| && forall m :: 0 <= m < |row| ==> row[m].Leaf?
    ensures Ahead(row, p + 1, 0) == Ahead(row, p, |row[p].es|)
  {
    NextLeaf(row, p);
  }

  /** The next entry ahead is copied. */
  lemma EmitHere(out: seq<Entry<Value>>, out': seq<Entry<Value>>, row: seq<Shape>, p: nat, pos: nat,
                 total: seq<Entry<Value>>, count: nat, len: int)
    requires p < |row| && row[p].Leaf? && pos < |row[p].es| && Emitted(out, out', Ahead(row, p, pos), total, count, len)
    ensures count + 1 != len ==> Emitted(out, out' + [row[p].es[pos]], Ahead(row, p, pos + 1), total, count + 1, len)
    ensures count + 1 == len ==> out' + [row[p].es[pos]] == out + Truncate(total, len)
  {
    EmitOne(out, out', row[p].es, Cat(row[p + 1..]), total, pos, count, len);
  }

  /** Follows `next` from a leaf of the row, emitting from position i of the first one. */
  method WalkChain(start: Node, i: nat, len: int, out: seq<Entry<Value>>, ghost d: nat, ghost row: seq<Shape>,
                   ghost q: nat, ghost ls: seq<Node>)
    returns (out': seq<Entry<Value>>)
    requires ls == Ids(row) && NextLinked(ls) && q < |row| && row[q].id == start && row[q].Leaf? && i <= |row[q].es|
    requires forall m :: 0 <= m < |row| ==> row[m].Leaf? && Local(row[m], d)
    ensures out' == out + Truncate(Ahead(row, q, i), len)
  {
    ghost var total := Ahead(row, q, i);
    hide Cat, Local, Truncate, NextLinked, Ahead, Emitted;
    var cur: Node? := start;
    var pos: nat, count: nat := i, 0;
    out' := out;
    ghost var p: nat := q;
    NoneEmitted(out, total, len);
    while cur != null
      invariant p <= |row| && NextLinked(ls)
      invariant cur == if p < |row| then row[p].id else null
      invariant p < |row| ==> pos <= |row[p].es|
      invariant Emitted(out, out', Ahead(row, p, pos), total, count, len)
      decreases |row| - p
    {
      LocalLeaf(row[p], d);
      while pos < cur.nk
        invariant pos <= |row[p].es| && NextLinked(ls)
        invariant Emitted(out, out', Ahead(row, p, pos), total, count, len)
      {
        EmitHere(out, out', row, p, pos, total, count, len);
        out' := out' + [cur.entries[pos]];
        count := count + 1;
        if count == len {
          return;
        }
        pos := pos + 1;
      }
      RowNext(row, ls, p);
      cur := cur.next;
      pos := 0;
      AheadNext(row, p);
      p := p + 1;
    }
    AheadDone(row, p, pos);
    EmittedAll(out, out', [], total, count, len);
  }

  lemma AheadDone(row: seq<Shape>, p: nat, pos: nat)
    requires p >= |row|
    ensures Ahead(row, p, pos) == []
  {
  }

  lemma LocalLeaf(t: Shape, d: nat)
    requires Local(t, d) && t.Leaf?
    ensures t.id.nk == |t.es| <= t.id.entries.Length
    ensures forall m :: 0 <= m < |t.es| ==> t.id.entries[m] == t.es[m]
  {
    assert t.id.Es() == t.es;
  }

  /** `scan` below a root: appends exactly the range the sorted map promises. */
  method ScanTree(root: Node, key: Key, len: int, out: seq<Entry<Value>>,
                  ghost d: nat, ghost h: nat, ghost lo: int, ghost hi: int, ghost tree: Shape, ghost ls: seq<Node>)
    returns (out': seq<Entry<Value>>)
    requires d >= 2 && tree.id == root && Rep(tree, d) && Wf(tree, d, h, lo, hi)
    requires ls == Row(tree) && Chain(ls)
    ensures out' == out + Range(Entries(tree), key, len)
  {
    var leaf;
    ghost var before, t, after;
    NodesAllocated(tree);
    leaf, before, t, after := FindLeaf(root, key, d, h, lo, hi, tree);
    RepFrame(tree, d);
    ChainFrame(ls);
    LeavesRep(tree, d);
    assert Local(t, d);
    var i := 0;
    while i < leaf.nk && key > leaf.entries[i].key
      invariant 0 <= i <= leaf.nk
      invariant forall m :: 0 <= m < i ==> leaf.entries[m].key < key
    {
      i := i + 1;
    }
    CutAtLeaf(Leaves(tree), before, t, after, i, key);
    ChainNext(ls);
    out' := WalkChain(leaf, i, len, out, d, Leaves(tree), |before|, ls);
  }

  /** A leaf is its own row; an internal node's row starts with that of its first child. */
  lemma FirstKid(t: Shape, d: nat, h: nat, lo: int, hi: int)
    requires Rep(t, d) && Wf(t, d, h, lo, hi)
    ensures t.id.isLeaf == t.Leaf? && (t.Leaf? ==> Leaves(t) == [t])
    ensures t.Inner? ==>
      && |t.kids| > 0 && h > 0 && t.id.children.Length > 0 && t.id.children[0] == t.kids[0].id
      && Rep(t.kids[0], d) && Wf(t.kids[0], d, h - 1, lo, Hi(t.ks, hi, 0))
      && Leaves(t) == Leaves(t.kids[0]) + ForestLeaves(t.kids[1..])
  {
    assert Local(t, d);
    if t.Inner? {
      assert KidWf(t.ks, t.kids[0], 0, d, h - 1, lo, hi);
      assert t.id.Kids()[0] == t.kids[0].id;
    }
  }

  /** The leftmost leaf. */
  method Leftmost(root: Node, ghost d: nat, ghost h: nat, ghost lo: int, ghost hi: int, ghost tree: Shape)
    returns (leaf: Node)
    requires tree.id == root && Rep(tree, d) && Wf(tree, d, h, lo, hi)
    ensures |Leaves(tree)| > 0 && Leaves(tree)[0].id == leaf
  {
    leaf := root;
    ghost var t, height, low, high, rest := tree, h, lo, hi, [];
    hide Rep, Wf, Leaves;
    while !leaf.isLeaf
      invariant t.id == leaf && Rep(t, d) && Wf(t, d, height, low, high) && Leaves(tree) == Leaves(t) + rest
      decreases height
    {
      FirstKid(t, d, height, low, high);
      height, high, rest := height - 1, Hi(t.ks, high, 0), ForestLeaves(t.kids[1..]) + rest;
      leaf, t := leaf.children[0], t.kids[0];
    }
    FirstKid(t, d, height, low, high);
  }

  /** `print_leaf_chain`: what each leaf holds, from the leftmost leaf along the links. */
  method LeafChain(root: Node, ghost d: nat, ghost h: nat, ghost lo: int, ghost hi: int, ghost tree: Shape,
                   ghost ls: seq<Node>)
    returns (lines: seq<seq<Entry<Value>>>)
    requires tree.id == root && Rep(tree, d) && Wf(tree, d, h, lo, hi) && ls == Row(tree) && Chain(ls)
    ensures lines == LeafRows(Leaves(tree))
  {
    NodesAllocated(tree);
    var leaf := Leftmost(root, d, h, lo, hi, tree);
    RepFrame(tree, d);
    ChainFrame(ls);
    LeavesRep(tree, d);
    ChainNext(ls);
    ghost var row := Leaves(tree);
    assert forall m :: 0 <= m < |row| ==> Local(row[m], d);
    hide Rep, Local, Leaves;
    lines := [];
    var cur: Node? := leaf;
    ghost var p: nat := 0;
    while cur != null
      invariant p <= |row| && NextLinked(ls)
      invariant cur == if p < |row| then row[p].id else null
      invariant lines == LeafRows(row[..p])
      decreases |row| - p
    {
      LocalLeaf(row[p], d);
      RowNext(row, ls, p);
      lines := lines + [cur.entries[..cur.nk]];
      assert row[..p + 1] == row[..p] + [row[p]];
      assert cur.entries[..cur.nk] == row[p].es;
      cur := cur.next;
      p := p + 1;
    }
    assert row[..p] == row;
  }

  /** What each leaf of a row holds. */
  ghost function LeafRows(row: seq<Shape>): (r: seq<seq<Entry<Value>>>)
    ensures |r| == |row|
    ensures forall m :: 0 <= m < |row| ==> r[m] == if row[m].Leaf? then row[m].es else []
  {
    seq(|row|, m requires 0 <= m < |row| => if row[m].Leaf? then row[m].es else [])
  }

  lemma {:induction false} LeafRowsAreCat(row: seq<Shape>)
    ensures Joined(LeafRows(row)) == Cat(row)
  {
    if row != [] {
      LeafRowsAreCat(row[1..]);
      assert LeafRows(row)[1..] == LeafRows(row[1..]);
    }
  }
}
