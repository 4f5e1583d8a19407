/** `scan` over records: it copies the value of the record bound to each key. */
module RecordScan {
  import opened Base
  import opened SortedMap
  import opened BPlusShape
  import opened BPlusRange
  import opened RecordNode
  import opened RecordHeap
  import opened Bindings
  import opened RecordValues

  /** Every leaf of a represented tree is represented. */
  lemma {:induction false} LeavesRep(t: Shape, d: nat)
    requires Rep(t, d)
    ensures forall q :: 0 <= q < |Leaves(t)| ==> Leaves(t)[q].Leaf? && Rep(Leaves(t)[q], d)
    decreases t, 1
  {
    if t.Inner? {
      ForestLeavesRep(t.kids, d);
    }
  }

  lemma {:induction false} ForestLeavesRep(ts: seq<Shape>, d: nat)
    requires forall i :: 0 <= i < |ts| ==> Rep(ts[i], d)
    ensures forall q :: 0 <= q < |ForestLeaves(ts)| ==> ForestLeaves(ts)[q].Leaf? && Rep(ForestLeaves(ts)[q], d)
    decreases ts, 0
  {
    if ts != [] {
      LeavesRep(ts[0], d);
      ForestLeavesRep(ts[1..], d);
    }
  }

  /** Slot i of an internal node. */
  lemma InnerSlots(t: Shape, i: nat, d: nat)
    requires t.Inner? && Rep(t, d) && i <= |t.ks|
    ensures i < |t.kids| && i < t.id.pointers.Length && t.id.pointers[i] == Child(t.kids[i].id) && Rep(t.kids[i], d)
    ensures i > 0 ==> t.ks[i - 1] == t.id.keys[i - 1]
    ensures i < |t.ks| ==> t.ks[i] == t.id.keys[i]
  {
    assert Local(t, d);
    assert t.id.pointers[..|t.kids|][i] == KidPtrs(Ids(t.kids))[i];
    assert forall m :: 0 <= m < |t.ks| ==> t.ks[m] == t.id.keys[m];
  }

  /** Descends to the leaf where the scan starts. */
  method FindLeaf(root: Node, key: Key, ghost d: nat, ghost h: nat, ghost lo: int, ghost hi: int, ghost tree: Shape)
    returns (leaf: Node, ghost before: seq<Shape>, ghost t: Shape, ghost after: seq<Shape>)
    requires d >= 2 && tree.id == root && Rep(tree, d) && Wf(tree, d, h, lo, hi)
    ensures leaf.isLeaf && t.Leaf? && t.id == leaf && Rep(t, d) && Ascending(t.es)
    ensures Cut(Leaves(tree), before, t, after, key)
  {
    leaf := root;
    before, t, after := [], tree, [];
    ghost var height, low, high := h, lo, hi;
    assert [] + Leaves(tree) + [] == Leaves(tree);
    assert Cut(Leaves(tree), before, t, after, key);
    hide Rep, Cut, Leaves;
    while !leaf.isLeaf
      invariant t.id == leaf && Rep(t, d) && Wf(t, d, height, low, high)
      invariant Cut(Leaves(tree), before, t, after, key)
      decreases height
    {
      LocalKind(t, d);
      assert t.Inner? && height > 0;
      var i := 0;
      while i < leaf.nk && key > leaf.keys[i]
        invariant 0 <= i <= leaf.nk
        invariant forall m :: 0 <= m < i ==> leaf.keys[m] < key
      {
        i := i + 1;
      }
      InnerSlots(t, i, d);
      CutDescend(Leaves(tree), before, t, after, i, key, d, height, low, high);
      before, after := before + ForestLeaves(t.kids[..i]), ForestLeaves(t.kids[i + 1..]) + after;
      height, low, high := height - 1, Lo(t.ks, low, i), Hi(t.ks, high, i);
      leaf, t := leaf.pointers[i].node, t.kids[i];
    }
    LocalKind(t, d);
  }

  /** Following `next` visits ls in order and ends. */
  ghost predicate NextLinked(ls: seq<Node>)
    reads Members(ls)`next
  {
    forall m :: 0 <= m < |ls| ==> ls[m].next == if m + 1 < |ls| then ls[m + 1] else null
  }

  lemma ChainNext(ls: seq<Node>)
    requires Chain(ls)
    ensures NextLinked(ls)
  {
    forall m | 0 <= m < |ls| ensures ls[m].next == if m + 1 < |ls| then ls[m + 1] else null {
      assert Linked(ls, m);
    }
  }

  lemma RowNext(row: seq<Shape>, ls: seq<Node>, p: nat)
    requires ls == Ids(row) && NextLinked(ls) && p < |row|
    ensures row[p].id.next == if p + 1 < |row| then row[p + 1].id else null
  {
    NextOf(ls, p);
  }

  lemma NextOf(ls: seq<Node>, p: nat)
    requires NextLinked(ls) && p < |ls|
    ensures ls[p].next == if p + 1 < |ls| then ls[p + 1] else null
  {
  }

  /** The memory covers the entries ahead: the leaf at p and the leaves after it. */
  ghost predicate Covers(mem: map<Record, Value>, row: seq<Shape>, p: nat) {
    p < |row| ==> row[p].Leaf? && Recs(row[p].es) <= mem.Keys && Recs(Cat(row[p + 1..])) <= mem.Keys
  }

  /** What is still to be copied from position pos of the leaf at p on. */
  ghost function Ahead(mem: map<Record, Value>, row: seq<Shape>, p: nat, pos: nat): seq<Entry<Value>>
    requires Covers(mem, row, p) && (p < |row| ==> pos <= |row[p].es|)
  {
    if p < |row| then Seen(row[p].es, mem)[pos..] + Seen(Cat(row[p + 1..]), mem) else []
  }

  /** At the end of a leaf the walk goes on with the next one. */
  lemma AheadNext(mem: map<Record, Value>, row: seq<Shape>, p: nat)
    requires p < |row| && (forall m :: 0 <= m < |row| ==> row[m].Leaf?) && Covers(mem, row, p)
    ensures Covers(mem, row, p + 1) && Ahead(mem, row, p + 1, 0) == Ahead(mem, row, p, |row[p].es|)
  {
    NextLeaf(row, p);
    if p + 1 < |row| {
      assert row[p + 1].es[0..] == row[p + 1].es;
      SeenConcat(row[p + 1].es, Cat(row[p + 2..]), mem);
    }
  }

  /** Follows `next` from a leaf of the row, copying keys and values from position i of the first one. */
  method WalkChain(start: Node, i: nat, len: int, out: seq<Entry<Value>>, ghost d: nat, ghost row: seq<Shape>,
                   ghost q: nat, ghost ls: seq<Node>, ghost mem: map<Record, Value>)
    returns (out': seq<Entry<Value>>)
    requires ls == Ids(row) && NextLinked(ls) && q < |row| && row[q].id == start && row[q].Leaf? && i <= |row[q].es|
    requires forall m :: 0 <= m < |row| ==> row[m].Leaf? && Local(row[m], d)
    requires Covers(mem, row, q) && Holds(mem)
    ensures out' == out + Truncate(Ahead(mem, row, q, i), len)
  {
    hide Cat, Local, Truncate, NextLinked, Covers, Ahead, Seen, Emitted;
    var cur: Node? := start;
    var pos: nat, count: nat := i, 0;
    out' := out;
    ghost var p: nat := q;
    ghost var total := Ahead(mem, row, q, i);
    NoneEmitted(out, total, len);
    while cur != null
      invariant p <= |row| && NextLinked(ls)
      invariant cur == if p < |row| then row[p].id else null
      invariant (p < |row| ==> pos <= |row[p].es|) && Covers(mem, row, p)
      invariant Emitted(out, out', Ahead(mem, row, p, pos), total, count, len)
      decreases |row| - p
    {
      LocalLeaf(row[p], d);
      while pos < cur.nk
        invariant pos <= |row[p].es| && NextLinked(ls)
        invariant Emitted(out, out', Ahead(mem, row, p, pos), total, count, len)
      {
        CopyOne(mem, row, p, pos, d);
        EmitOne(out, out', Seen(row[p].es, mem), Seen(Cat(row[p + 1..]), mem), total, pos, count, len);
        out' := out' + [Entry(cur.keys[pos], cur.pointers[pos].rec.value)];
        count := count + 1;
        if count == len {
          return;
        }
        pos := pos + 1;
      }
      RowNext(row, ls, p);
      cur := cur.next;
      pos := 0;
      AheadNext(mem, row, p);
      p := p + 1;
    }
    AheadDone(mem, row, p, pos);
    EmittedAll(out, out', [], total, count, len);
  }

  /** The memory is what the records hold. */
  ghost predicate Holds(mem: map<Record, Value>)
    reads mem.Keys`value
  {
    forall r :: r in mem ==> mem[r] == r.value
  }

  /** The pair copied from slot pos is the first one ahead. */
  lemma CopyOne(mem: map<Record, Value>, row: seq<Shape>, p: nat, pos: nat, d: nat)
    requires p < |row| && Covers(mem, row, p) && Holds(mem) && Local(row[p], d) && pos < |row[p].es|
    ensures Recs(row[p].es) <= mem.Keys && Recs(Cat(row[p + 1..])) <= mem.Keys && |Seen(row[p].es, mem)| == |row[p].es|
    ensures Ahead(mem, row, p, pos) == Seen(row[p].es, mem)[pos..] + Seen(Cat(row[p + 1..]), mem)
    ensures Ahead(mem, row, p, pos + 1) == Seen(row[p].es, mem)[pos + 1..] + Seen(Cat(row[p + 1..]), mem)
    ensures Seen(row[p].es, mem)[pos] == Entry(row[p].es[pos].key, row[p].es[pos].value.value)
  {
  }

  lemma AheadDone(mem: map<Record, Value>, row: seq<Shape>, p: nat, pos: nat)
    requires p >= |row|
    ensures Covers(mem, row, p) && Ahead(mem, row, p, pos) == []
  {
  }

  lemma LocalLeaf(t: Shape, d: nat)
    requires Local(t, d) && t.Leaf?
    ensures t.id.nk == |t.es| <= t.id.keys.Length && |t.es| <= t.id.pointers.Length
    ensures forall m :: 0 <= m < |t.es| ==> t.id.keys[m] == t.es[m].key && t.id.pointers[m] == Rec(t.es[m].value)
  {
  }

  /** `scan` below a root: appends exactly the range the sorted map promises. */
  method ScanTree(root: Node, key: Key, len: int, out: seq<Entry<Value>>,
                  ghost d: nat, ghost h: nat, ghost lo: int, ghost hi: int, ghost tree: Shape, ghost ls: seq<Node>)
    returns (out': seq<Entry<Value>>)
    requires d >= 2 && tree.id == root && Rep(tree, d) && Wf(tree, d, h, lo, hi)
    requires ls == Row(tree) && Chain(ls)
    ensures out' == out + Range(Values(Entries(tree)), key, len)
  {
    var leaf;
    ghost var before, t, after;
    hide Wf, Leaves, Cut, Chain, NextLinked, Ahead, Covers, Truncate, Range, Values, Entries, Memory, Cat, Nodes;
    NodesAllocated(tree);
    leaf, before, t, after := FindLeaf(root, key, d, h, lo, hi, tree);
    RepFrame(tree, d);
    ChainFrame(ls);
    LocalLeaf(t, d);
    hide Rep, Local;
    var i := 0;
    while i < leaf.nk && key > leaf.keys[i]
      invariant 0 <= i <= leaf.nk
      invariant forall m :: 0 <= m < i ==> leaf.keys[m] < key
    {
      i := i + 1;
    }
    ghost var mem := Memory(Recs(Entries(tree)));
    WalkStart(tree, ls, before, t, after, i, key, len, d, mem);
    out' := WalkChain(leaf, i, len, out, d, Leaves(tree), |before|, ls, mem);
  }

  /** The leaf and the slot where the walk starts, and what is ahead of them. */
  lemma WalkStart(tree: Shape, ls: seq<Node>, before: seq<Shape>, t: Shape, after: seq<Shape>, i: nat, key: Key,
                  len: int, d: nat, mem: map<Record, Value>)
    requires Rep(tree, d) && ls == Row(tree) && Chain(ls) && mem == Memory(Recs(Entries(tree)))
    requires t.Leaf? && Ascending(t.es) && Cut(Leaves(tree), before, t, after, key)
    requires i <= |t.es| && Below(t.es[..i], key) && (i < |t.es| ==> key <= t.es[i].key)
    ensures NextLinked(ls) && ls == Ids(Leaves(tree)) && |before| < |Leaves(tree)| && Leaves(tree)[|before|] == t
    ensures forall q :: 0 <= q < |Leaves(tree)| ==> Leaves(tree)[q].Leaf? && Local(Leaves(tree)[q], d)
    ensures Covers(mem, Leaves(tree), |before|) && Holds(mem)
    ensures Truncate(Ahead(mem, Leaves(tree), |before|, i), len) == Range(Values(Entries(tree)), key, len)
  {
    LeavesRep(tree, d);
    assert forall q :: 0 <= q < |Leaves(tree)| ==> Local(Leaves(tree)[q], d);
    ChainNext(ls);
    hide Rep, Local, Leaves, Chain, NextLinked, Range;
    CutAtLeaf(Leaves(tree), before, t, after, i, key);
    hide Cut, From, Cat;
    RangeAhead(Leaves(tree), |before|, i, key, len, mem);
  }

  /** What is ahead at the start of the walk is the range of the values. */
  lemma RangeAhead(row: seq<Shape>, q: nat, i: nat, key: Key, len: int, mem: map<Record, Value>)
    requires q < |row| && row[q].Leaf? && i <= |row[q].es| && Recs(Cat(row)) <= mem.Keys
    requires From(Cat(row), key) == row[q].es[i..] + Cat(row[q + 1..])
    ensures Covers(mem, row, q) && Truncate(Ahead(mem, row, q, i), len) == Range(Seen(Cat(row), mem), key, len)
  {
    hide Cat, From;
    FromSeen(Cat(row), mem, key);
    SeenConcat(row[q].es[i..], Cat(row[q + 1..]), mem);
    LeafCovered(row, q, mem);
    assert Seen(row[q].es, mem)[i..] == Seen(row[q].es[i..], mem);
  }

  lemma LeafCovered(row: seq<Shape>, q: nat, mem: map<Record, Value>)
    requires q < |row| && row[q].Leaf? && Recs(Cat(row)) <= mem.Keys
    ensures Recs(row[q].es) <= mem.Keys
  {
    assert row == row[..q] + row[q..] && row[q..][1..] == row[q + 1..];
    CatConcat(row[..q], row[q..]);
    RecsConcat(Cat(row[..q]), Cat(row[q..]));
    RecsConcat(row[q].es, Cat(row[q + 1..]));
  }
}
