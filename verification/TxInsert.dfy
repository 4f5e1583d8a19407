/** `split_node` and `insert_not_full` inside a transaction. */
module TxInsert {
  import opened Base
  import opened SortedMap
  import opened Arrays
  import opened BPlusShape
  import opened PoolMemory
  import opened TxPool
  import opened TxNode
  import opened TxShape

  /** Below an internal node, and along the chain, no node is exempt from the discipline. */
  ghost predicate Unexempt(t: PShape, ls: seq<Oid>, exempt: set<Oid>) {
    t.Inner? ==> (forall o :: o in Nodes(t) && o != t.id ==> o !in exempt) && (forall o :: o in ls ==> o !in exempt)
  }

  /** The rest of the memory keeps its contents; only the chain links of leaves may move. */
  ghost predicate Elsewhere(m: Mem, m': Mem, s: set<Oid>) {
    forall o :: o in m ==> o in m' && (o !in s && o != OID_NULL ==>
                                         SameBody(m[o], m'[o]) && (!m[o].isLeaf ==> m'[o] == m[o]))
  }

  /** Splits the full leaf t.kids[i]. */
  method SplitLeafChild(p: Pool, parent: Oid, i: nat, d: nat, ghost t: PShape,
                        ghost pre: seq<Oid>, ghost post: seq<Oid>, ghost ls: seq<Oid>)
    returns (sib: Oid)
    requires p.InTx() && Writable(p.st, p.exempt, parent) && Unexempt(t, ls, p.exempt)
    requires t.Inner? && t.id == parent && PHeld(p.st.mem, t, d)
    requires i < |t.kids| && Splittable(t.kids[i], d) && t.kids[i].Leaf? && |t.ks| < 2 * d - 1
    requires ls == pre + Row(t) + post && PChain(p.st.mem, ls)
    modifies p`st, p`trace
    ensures p.InTx() && p.Stepped() && Grows(old(p.st), p.st)
    ensures sib != OID_NULL && sib !in old(p.st.mem) && sib !in p.base.mem && sib !in p.exempt
    ensures PRep(p.st.mem, SplitTree(t, i, d, sib), d)
    ensures PChain(p.st.mem, pre + Row(SplitTree(t, i, d, sib)) + post)
    ensures Elsewhere(old(p.st.mem), p.st.mem, Nodes(t)) && p.st.mem[parent].nk == old(p.st.mem[parent].nk) + 1
  {
    hide Covered, WrittenAhead, Owned;
    ghost var m, c := p.st.mem, t.kids[i];
    ghost var q := SplitRow(t.kids, i, d, c.id, pre, post);
    SplitLeafFacts(m, t, i, d, ls, q);
    hide RecHolds, PRep, PChain, SplitTree;
    sib := SplitLeaf(p, i, parent, p.st.mem[parent].children[i], d);
    q := SplitRow(t.kids, i, d, sib, pre, post);
    LeafSplitHeld(m, p.st.mem, t, i, d, sib);
    LeafSplitChain(m, p.st.mem, i, parent, c.id, d, sib, ls, q);
    LeafSplitElsewhere(m, p.st.mem, t, i, d, sib);
  }

  lemma SplitLeafFacts(m: Mem, t: PShape, i: nat, d: nat, ls: seq<Oid>, q: nat)
    requires t.Inner? && PHeld(m, t, d) && i < |t.kids| && t.kids[i].Leaf?
    requires PChain(m, ls) && q < |ls| && ls[q] == t.kids[i].id
    ensures t.id in m && t.id != OID_NULL && RecHolds(m[t.id], t, d) && i <= |t.ks|
    ensures t.kids[i].id in m && RecHolds(m[t.kids[i].id], t.kids[i], d) && m[t.id].children[i] == t.kids[i].id
    ensures t.kids[i].id in Nodes(t) && t.kids[i].id != t.id && PLinked(m, ls, q)
    ensures |m[t.id].entries| == 2 * d - 1 && |m[t.id].children| == 2 * d && m[t.id].nk == |t.ks| && !m[t.id].isLeaf
    ensures |m[t.kids[i].id].entries| == 2 * d - 1
    ensures var next := m[t.kids[i].id].next;
            next != OID_NULL ==> next in m && next in ls && m[next].isLeaf && next != t.id && next != t.kids[i].id
  {
    assert PRep(m, t.kids[i], d);
    KidNodes(t.kids, i);
    assert m[t.id].children[..m[t.id].nk + 1][i] == t.kids[i].id;
    assert PLinked(m, ls, q);
    if q + 1 < |ls| { assert PLinked(m, ls, q + 1); }
    assert t.kids[i].id in Nodes(t.kids[i]);
  }

  lemma LeafSplitChain(m: Mem, m': Mem, i: nat, parent: Oid, child: Oid, d: nat, sib: Oid, ls: seq<Oid>, q: nat)
    requires d >= 2 && parent in m && child in m && parent != OID_NULL
    requires |m[child].entries| == 2 * d - 1 && |m[parent].entries| == 2 * d - 1 && |m[parent].children| == 2 * d
    requires i <= m[parent].nk < 2 * d - 1 && sib !in m && sib != OID_NULL && LeafSplit(m, m', i, parent, child, d, sib)
    requires PChain(m, ls) && q < |ls| && ls[q] == child && !m[parent].isLeaf
    ensures PChain(m', InsertAt(ls, q + 1, sib))
  {
    assert PLinked(m, ls, q);
    forall o | o in ls
      ensures o in m && o != sib && o != parent && o != OID_NULL
    {
      var x :| 0 <= x < |ls| && ls[x] == o;
      assert PLinked(m, ls, x);
    }
    PChainInsert(m, m', ls, q, sib);
  }

  lemma LeafSplitElsewhere(m: Mem, m': Mem, t: PShape, i: nat, d: nat, sib: Oid)
    requires t.Inner? && i < |t.kids| && d >= 2 && t.id in m && t.kids[i].id in m && t.kids[i].id in Nodes(t)
    requires |m[t.kids[i].id].entries| == 2 * d - 1 && |m[t.id].entries| == 2 * d - 1 && |m[t.id].children| == 2 * d
    requires i <= m[t.id].nk < 2 * d - 1 && sib !in m && LeafSplit(m, m', i, t.id, t.kids[i].id, d, sib)
    requires var next := m[t.kids[i].id].next; next != OID_NULL ==> next in m && m[next].isLeaf
    ensures Elsewhere(m, m', Nodes(t))
  {
  }

  /** Splits the full internal node t.kids[i]. */
  method SplitInnerChild(p: Pool, parent: Oid, i: nat, d: nat, ghost t: PShape, ghost ls: seq<Oid>)
    returns (sib: Oid)
    requires p.InTx() && Writable(p.st, p.exempt, parent) && Unexempt(t, ls, p.exempt)
    requires t.Inner? && t.id == parent && PHeld(p.st.mem, t, d)
    requires i < |t.kids| && Splittable(t.kids[i], d) && t.kids[i].Inner? && |t.ks| < 2 * d - 1
    requires PChain(p.st.mem, ls)
    modifies p`st, p`trace
    ensures p.InTx() && p.Stepped() && Grows(old(p.st), p.st)
    ensures sib != OID_NULL && sib !in old(p.st.mem) && sib !in p.base.mem && sib !in p.exempt
    ensures PRep(p.st.mem, SplitTree(t, i, d, sib), d)
    ensures PChain(p.st.mem, ls)
    ensures Elsewhere(old(p.st.mem), p.st.mem, Nodes(t)) && p.st.mem[parent].nk == old(p.st.mem[parent].nk) + 1
  {
    hide Covered, WrittenAhead, Owned;
    ghost var m, c := p.st.mem, t.kids[i];
    SplitInnerFacts(m, t, i, d);
    hide RecHolds, PRep, PChain, SplitTree;
    sib := SplitInner(p, i, parent, p.st.mem[parent].children[i], d);
    InnerSplitHeld(m, p.st.mem, t, i, d, sib);
    InnerSplitElsewhere(m, p.st.mem, t, i, d, sib, ls);
  }

  lemma SplitInnerFacts(m: Mem, t: PShape, i: nat, d: nat)
    requires t.Inner? && PHeld(m, t, d) && i < |t.kids| && t.kids[i].Inner?
    ensures t.id in m && t.id != OID_NULL && RecHolds(m[t.id], t, d) && i <= |t.ks|
    ensures t.kids[i].id in m && RecHolds(m[t.kids[i].id], t.kids[i], d) && m[t.id].children[i] == t.kids[i].id
    ensures t.kids[i].id in Nodes(t) && t.kids[i].id != t.id
    ensures |m[t.id].entries| == 2 * d - 1 && |m[t.id].children| == 2 * d && m[t.id].nk == |t.ks|
    ensures |m[t.kids[i].id].entries| == 2 * d - 1 && |m[t.kids[i].id].children| == 2 * d && !m[t.kids[i].id].isLeaf
  {
    assert PRep(m, t.kids[i], d);
    KidNodes(t.kids, i);
    assert m[t.id].children[..m[t.id].nk + 1][i] == t.kids[i].id;
    assert t.kids[i].id in Nodes(t.kids[i]);
  }

  lemma InnerSplitElsewhere(m: Mem, m': Mem, t: PShape, i: nat, d: nat, sib: Oid, ls: seq<Oid>)
    requires t.Inner? && i < |t.kids| && d >= 2 && t.id in m && t.kids[i].id in m && t.kids[i].id in Nodes(t)
    requires |m[t.kids[i].id].entries| == 2 * d - 1 && |m[t.kids[i].id].children| == 2 * d
    requires |m[t.id].entries| == 2 * d - 1 && |m[t.id].children| == 2 * d
    requires i <= m[t.id].nk < 2 * d - 1 && sib !in m && InnerSplit(m, m', i, t.id, t.kids[i].id, d, sib)
    requires PChain(m, ls)
    ensures Elsewhere(m, m', Nodes(t)) && PChain(m', ls)
  {
    PChainFrame(m, m', ls);
  }

  /** `split_node` on the full child i. */
  method SplitChild(p: Pool, parent: Oid, i: nat, d: nat, ghost t: PShape,
                    ghost pre: seq<Oid>, ghost post: seq<Oid>, ghost ls: seq<Oid>)
    returns (sib: Oid)
    requires p.InTx() && Writable(p.st, p.exempt, parent) && Unexempt(t, ls, p.exempt)
    requires t.Inner? && t.id == parent && PHeld(p.st.mem, t, d)
    requires i < |t.kids| && Splittable(t.kids[i], d) && |t.ks| < 2 * d - 1
    requires ls == pre + Row(t) + post && PChain(p.st.mem, ls)
    modifies p`st, p`trace
    ensures p.InTx() && p.Stepped() && Grows(old(p.st), p.st)
    ensures sib != OID_NULL && sib !in old(p.st.mem) && sib !in p.base.mem && sib !in p.exempt
    ensures PRep(p.st.mem, SplitTree(t, i, d, sib), d)
    ensures PChain(p.st.mem, pre + Row(SplitTree(t, i, d, sib)) + post)
    ensures Elsewhere(old(p.st.mem), p.st.mem, Nodes(t)) && p.st.mem[parent].nk == old(p.st.mem[parent].nk) + 1
  {
    hide Covered, WrittenAhead, Owned, PChain;
    ChildRec(p.st.mem, t, i, d);
    if p.st.mem[p.st.mem[parent].children[i]].isLeaf {
      sib := SplitLeafChild(p, parent, i, d, t, pre, post, ls);
    } else {
      sib := SplitInnerChild(p, parent, i, d, t, ls);
      SplitKidsEntries(t.kids, i, d, sib);
    }
  }

  lemma ChildRec(m: Mem, t: PShape, i: nat, d: nat)
    requires t.Inner? && PRep(m, t, d) && i < |t.kids|
    ensures t.id in m && m[t.id].nk == |t.ks| && |m[t.id].children| == 2 * d && i < 2 * d && i <= |t.ks|
    ensures m[t.id].children[i] == t.kids[i].id && PRep(m, t.kids[i], d) && t.kids[i].id in m
    ensures m[t.kids[i].id].isLeaf == t.kids[i].Leaf? && m[t.kids[i].id].nk == t.kids[i].Size()
  {
    assert PRep(m, t.kids[i], d);
    assert m[t.id].children[..m[t.id].nk + 1][i] == t.kids[i].id;
  }

  /** What a node's record says about the tree it represents. */
  lemma NodeRecord(m: Mem, t: PShape, d: nat)
    requires PRep(m, t, d)
    ensures t.id in m && m[t.id].isLeaf == t.Leaf? && m[t.id].nk == t.Size() <= |m[t.id].entries|
    ensures t.Inner? ==> |t.kids| == |t.ks| + 1 && forall i :: 0 <= i < |t.ks| ==> t.ks[i] == m[t.id].entries[i].key
  {
    assert RecHolds(m[t.id], t, d);
    assert t.Inner? ==> forall i :: 0 <= i < |t.ks| ==> t.ks[i] == m[t.id].entries[..m[t.id].nk][i].key;
  }

  /** What an insertion below t does to the memory, seen from outside. */
  ghost predicate Inserted(m: Mem, m': Mem, t: PShape, t': PShape, d: nat, base: Mem) {
    && PHeld(m', t', d) && Nodes(t) <= Nodes(t') && Elsewhere(m, m', Nodes(t))
    && forall o :: o in Nodes(t') && o !in Nodes(t) ==> o !in m && o !in base
  }

  /** The key goes to a child with room: nothing but that subtree is written. */
  ghost predicate RoomBelow(t: PShape, key: Key, d: nat) {
    t.Inner? && exists j :: 0 <= j < |t.kids| && Bounds(t.ks, j, key) && t.kids[j].Size() < 2 * d - 1
  }

  /** The insertion wrote the node itself exactly when the key had no room further down. */
  ghost predicate RootEffect(m: Mem, m': Mem, t: PShape, key: Key, d: nat)
  {
    && t.id in m && t.id in m'
    && (RoomBelow(t, key, d) ==> m'[t.id] == m[t.id])
    && (!RoomBelow(t, key, d) ==> m'[t.id].nk == m[t.id].nk + 1)
  }

  /** Rebuilding child j rebuilds the tree. */
  lemma InsertedBelow(m: Mem, m': Mem, t: PShape, j: nat, c: PShape, d: nat, base: Mem)
    requires t.Inner? && j < |t.kids| && PHeld(m, t, d) && Nodes(t) <= m.Keys
    requires Inserted(m, m', t.kids[j], c, d, base) && c.id == t.kids[j].id
    ensures Inserted(m, m', t, t.(kids := t.kids[j := c]), d, base) && m'[t.id] == m[t.id]
  {
    OtherKidsKept(m, m', t, j, d);
    PRepReplace(m, m', t, j, c, d);
    hide PRep;
    KidNodes(t.kids, j);
    OwnedReplace(t, j, c);
  }

  lemma OtherKidsKept(m: Mem, m': Mem, t: PShape, j: nat, d: nat)
    requires t.Inner? && j < |t.kids| && PHeld(m, t, d) && Elsewhere(m, m', Nodes(t.kids[j]))
    ensures t.id in m && t.id in m' && m'[t.id] == m[t.id]
    ensures forall n :: 0 <= n < |t.kids| && n != j ==> PRep(m', t.kids[n], d)
  {
    PRepAllocated(m, t, d);
    forall n | 0 <= n < |t.kids| && n != j
      ensures PRep(m', t.kids[n], d)
    {
      KidNodes(t.kids, n);
      OtherKid(t, j, n);
      assert PRep(m, t.kids[n], d);
      PRepFrame(m, m', t.kids[n], d);
    }
    assert t.id !in Nodes(t.kids[j]);
  }

  lemma PRepReplace(m: Mem, m': Mem, t: PShape, j: nat, c: PShape, d: nat)
    requires t.Inner? && j < |t.kids| && PRep(m, t, d) && PRep(m', c, d) && c.id == t.kids[j].id
    requires t.id in m' && SameBody(m[t.id], m'[t.id])
    requires forall n :: 0 <= n < |t.kids| && n != j ==> PRep(m', t.kids[n], d)
    ensures PRep(m', t.(kids := t.kids[j := c]), d)
  {
    assert Ids(t.kids[j := c]) == Ids(t.kids);
  }

  /** A nested TX_BEGIN, a snapshot of child j, and the recursive call. */
  method InsertIntoChild(p: Pool, node: Oid, j: nat, key: Key, value: Value, d: nat, ghost h: nat, ghost lo: int,
                         ghost hi: int, ghost t: PShape, ghost pre: seq<Oid>, ghost post: seq<Oid>, ghost ls: seq<Oid>)
    returns (ghost t': PShape)
    requires p.InTx() && Unexempt(t, ls, p.exempt)
    requires d >= 2 && t.id == node && t.Inner? && PHeld(p.st.mem, t, d) && Wf(t, d, h, lo, hi) && lo <= key < hi
    requires j < |t.kids| && Bounds(t.ks, j, key) && t.kids[j].Size() < 2 * d - 1 && !HasKey(Entries(t), key)
    requires ls == pre + Row(t) + post && PChain(p.st.mem, ls)
    modifies p`st, p`trace
    ensures p.InTx() && p.Stepped() && Grows(old(p.st), p.st)
    ensures Inserted(old(p.st.mem), p.st.mem, t, t', d, p.base.mem) && Bound(t, t', key, value, d, h, lo, hi)
    ensures PChain(p.st.mem, pre + Row(t') + post)
    ensures t.id in old(p.st.mem) && t.id in p.st.mem && p.st.mem[t.id] == old(p.st.mem[t.id])
    decreases h, 0
  {
    hide Covered, WrittenAhead, PChain, Upsert, HasKey;
    ghost var m := p.st.mem;
    ChildRec(m, t, j, d);
    PRepAllocated(m, t, d);
    KidNodes(t.kids, j);
    RowAround(t, j, pre, post);
    assert KidWf(t.ks, t.kids[j], j, d, h - 1, lo, hi);
    AbsentBelow(t.kids, j, key);
    assert t.kids[j].id in Nodes(t.kids[j]) && t.id !in Nodes(t.kids[j]);
    UnexemptKid(t, j, ls, p.exempt);
    ghost var a, b := Ids(ForestLeaves(t.kids[..j])), Ids(ForestLeaves(t.kids[j + 1..]));
    p.Snapshot(p.st.mem[node].children[j]);
    ghost var c := InsertNotFull(p, p.st.mem[node].children[j], key, value, d, h - 1, Lo(t.ks, lo, j), Hi(t.ks, hi, j),
                                 t.kids[j], pre + a, b + post, ls);
    InsertedBelow(m, p.st.mem, t, j, c, d, p.base.mem);
    BoundBelow(t, j, c, key, value, d, h, lo, hi);
    RowReplace(t, j, c, pre, post);
    t' := t.(kids := t.kids[j := c]);
  }

  lemma UnexemptKid(t: PShape, j: nat, ls: seq<Oid>, exempt: set<Oid>)
    requires t.Inner? && j < |t.kids| && Owned(t) && Unexempt(t, ls, exempt)
    ensures Unexempt(t.kids[j], ls, exempt) && t.kids[j].id !in exempt
  {
    KidNodes(t.kids, j);
    assert t.kids[j].id in Nodes(t.kids[j]);
  }

  /** `insert_not_full`. The node must be writable unless the key goes to a child that has room. */
  method InsertNotFull(p: Pool, node: Oid, key: Key, value: Value, d: nat, ghost h: nat, ghost lo: int, ghost hi: int,
                       ghost t: PShape, ghost pre: seq<Oid>, ghost post: seq<Oid>, ghost ls: seq<Oid>)
    returns (ghost t': PShape)
    requires p.InTx() && (RoomBelow(t, key, d) || Writable(p.st, p.exempt, node)) && Unexempt(t, ls, p.exempt)
    requires d >= 2 && t.id == node && PHeld(p.st.mem, t, d) && Wf(t, d, h, lo, hi) && lo <= key < hi
    requires t.Size() < 2 * d - 1 && !HasKey(Entries(t), key)
    requires ls == pre + Row(t) + post && PChain(p.st.mem, ls)
    modifies p`st, p`trace
    ensures p.InTx() && p.Stepped() && Grows(old(p.st), p.st)
    ensures Inserted(old(p.st.mem), p.st.mem, t, t', d, p.base.mem) && Bound(t, t', key, value, d, h, lo, hi)
    ensures PChain(p.st.mem, pre + Row(t') + post)
    ensures RootEffect(old(p.st.mem), p.st.mem, t, key, d)
    decreases h, 2
  {
    hide Covered, WrittenAhead;
    NodeRecord(p.st.mem, t, d);
    hide RecHolds, PRep, PChain, Upsert, HasKey;
    if p.st.mem[node].isLeaf {
      t' := InsertLeafCase(p, node, key, value, d, h, lo, hi, t, ls);
      assert Row(t') == Row(t);
    } else {
      var r := p.st.mem[node];
      var j: nat := r.nk;
      while j > 0 && r.entries[j - 1].key > key
        invariant 0 <= j <= r.nk
        invariant j < r.nk ==> key < r.entries[j].key
      {
        j := j - 1;
      }
      ChildRec(p.st.mem, t, j, d);
      ChildIsOnly(t, j, key, d, h, lo, hi);
      if p.st.mem[r.children[j]].nk == 2 * d - 1 {
        t' := SplitThenInsert(p, node, j, key, value, d, h, lo, hi, t, pre, post, ls);
      } else {
        t' := InsertIntoChild(p, node, j, key, value, d, h, lo, hi, t, pre, post, ls);
      }
    }
  }

  /** The child that bounds a key is unique, so its size decides whether there is room below. */
  lemma ChildIsOnly(t: PShape, j: nat, key: Key, d: nat, h: nat, lo: int, hi: int)
    requires t.Inner? && Wf(t, d, h, lo, hi) && d >= 2 && j < |t.kids| && Bounds(t.ks, j, key)
    ensures RoomBelow(t, key, d) <==> t.kids[j].Size() < 2 * d - 1
  {
    forall i | 0 <= i < |t.kids| && Bounds(t.ks, i, key) ensures i == j {
      if i < j {
        SeparatorsMonotone(t, i, j - 1, d, h, lo, hi);
      } else if j < i {
        SeparatorsMonotone(t, j, i - 1, d, h, lo, hi);
      }
    }
  }

  lemma SeparatorsMonotone(t: PShape, a: nat, b: nat, d: nat, h: nat, lo: int, hi: int)
    requires t.Inner? && Wf(t, d, h, lo, hi) && d >= 2 && a <= b < |t.ks|
    ensures t.ks[a] <= t.ks[b]
    decreases b - a
  {
    if a < b {
      SeparatorsAscend(t.ks, t.kids, a, d, h - 1, lo, hi);
      SeparatorsMonotone(t, a + 1, b, d, h, lo, hi);
    }
  }

  /** The leaf case. */
  method InsertLeafCase(p: Pool, node: Oid, key: Key, value: Value, d: nat, ghost h: nat, ghost lo: int, ghost hi: int,
                        ghost t: PShape, ghost ls: seq<Oid>)
    returns (ghost t': PShape)
    requires p.InTx() && Writable(p.st, p.exempt, node)
    requires d >= 2 && t.id == node && t.Leaf? && PHeld(p.st.mem, t, d) && Wf(t, d, h, lo, hi) && lo <= key < hi
    requires t.Size() < 2 * d - 1 && !HasKey(Entries(t), key) && PChain(p.st.mem, ls)
    modifies p`st, p`trace
    ensures p.InTx() && p.Stepped() && Grows(old(p.st), p.st) && t'.Leaf?
    ensures Inserted(old(p.st.mem), p.st.mem, t, t', d, p.base.mem) && Bound(t, t', key, value, d, h, lo, hi)
    ensures PChain(p.st.mem, ls) && RootEffect(old(p.st.mem), p.st.mem, t, key, d)
  {
    hide Covered, WrittenAhead;
    ghost var m := p.st.mem;
    LeafEntries(t);
    InsertIntoLeaf(p, node, key, value);
    t' := Leaf(node, Upsert(t.es, key, value));
    LeafEntries(t');
    UpsertAscending(t.es, key, value);
    UpsertWithin(t.es, key, value, lo, hi);
    UpsertSize(t.es, key, value);
    PChainFrame(m, p.st.mem, ls);
  }

  /** The internal case with a full child. */
  method SplitThenInsert(p: Pool, node: Oid, j: nat, key: Key, value: Value, d: nat, ghost h: nat, ghost lo: int,
                         ghost hi: int, ghost t: PShape, ghost pre: seq<Oid>, ghost post: seq<Oid>, ghost ls: seq<Oid>)
    returns (ghost t': PShape)
    requires p.InTx() && Writable(p.st, p.exempt, node) && Unexempt(t, ls, p.exempt)
    requires d >= 2 && t.id == node && t.Inner? && PHeld(p.st.mem, t, d) && Wf(t, d, h, lo, hi) && lo <= key < hi
    requires t.Size() < 2 * d - 1 && !HasKey(Entries(t), key)
    requires j < |t.kids| && Bounds(t.ks, j, key) && Splittable(t.kids[j], d)
    requires ls == pre + Row(t) + post && PChain(p.st.mem, ls)
    modifies p`st, p`trace
    ensures p.InTx() && p.Stepped() && Grows(old(p.st), p.st) && t'.Size() > t.Size()
    ensures Inserted(old(p.st.mem), p.st.mem, t, t', d, p.base.mem) && Bound(t, t', key, value, d, h, lo, hi)
    ensures PChain(p.st.mem, pre + Row(t') + post)
    ensures t.id in old(p.st.mem) && t.id in p.st.mem && p.st.mem[t.id].nk == old(p.st.mem[t.id].nk) + 1
    decreases h, 1
  {
    hide Covered, WrittenAhead, PChain, Upsert, HasKey, Wf, PHeld, Elsewhere;
    ghost var m := p.st.mem;
    var j', sib;
    ghost var t1;
    j', t1, sib := SplitAndChoose(p, node, j, key, d, h, lo, hi, t, pre, post, ls);
    ghost var m1 := p.st.mem;
    t' := InsertIntoChild(p, node, j', key, value, d, h, lo, hi, t1, pre, post, pre + Row(t1) + post);
    InsertedAfterSplit(m, m1, p.st.mem, t, t1, t', sib, d, p.base.mem);
  }

  /** Splits the full child j and chooses the half that bounds the key with a strict comparison. */
  method SplitAndChoose(p: Pool, node: Oid, j: nat, key: Key, d: nat, ghost h: nat, ghost lo: int, ghost hi: int,
                        ghost t: PShape, ghost pre: seq<Oid>, ghost post: seq<Oid>, ghost ls: seq<Oid>)
    returns (j': nat, ghost t1: PShape, sib: Oid)
    requires p.InTx() && Writable(p.st, p.exempt, node) && Unexempt(t, ls, p.exempt)
    requires d >= 2 && t.id == node && t.Inner? && PHeld(p.st.mem, t, d) && Wf(t, d, h, lo, hi)
    requires t.Size() < 2 * d - 1 && !HasKey(Entries(t), key)
    requires j < |t.kids| && Bounds(t.ks, j, key) && Splittable(t.kids[j], d)
    requires ls == pre + Row(t) + post && PChain(p.st.mem, ls)
    modifies p`st, p`trace
    ensures p.InTx() && p.Stepped() && Grows(old(p.st), p.st)
    ensures PHeld(p.st.mem, t1, d) && Elsewhere(old(p.st.mem), p.st.mem, Nodes(t)) && Nodes(t1) == Nodes(t) + {sib}
    ensures sib !in old(p.st.mem) && sib !in p.base.mem
    ensures t1.id == node && t1.Inner? && Wf(t1, d, h, lo, hi) && t1.Size() == t.Size() + 1 && Entries(t1) == Entries(t)
    ensures j' < |t1.kids| && Bounds(t1.ks, j', key) && t1.kids[j'].Size() < 2 * d - 1
    ensures PChain(p.st.mem, pre + Row(t1) + post) && Unexempt(t1, pre + Row(t1) + post, p.exempt)
    ensures t.id in old(p.st.mem) && t.id in p.st.mem && p.st.mem[t.id].nk == old(p.st.mem[t.id].nk) + 1
  {
    hide Covered, WrittenAhead, PChain;
    ghost var m := p.st.mem;
    PRepAllocated(m, t, d);
    sib := SplitChild(p, node, j, d, t, pre, post, ls);
    t1 := SplitTree(t, j, d, sib);
    OwnedSplit(t, j, d, sib, InsertAt(t.ks, j, Separator(t.kids[j], d)));
    SplitBounds(t, j, d, h, lo, hi, sib, key);
    UnexemptSplit(t, j, d, sib, pre, post, ls, p.exempt);
    ChildRec(p.st.mem, t1, j, d);
    assert Keys(p.st.mem[node].entries[..p.st.mem[node].nk])[j] == t1.ks[j];
    j' := j;
    if p.st.mem[node].entries[j].key < key {
      j' := j' + 1;
    }
  }

  lemma UnexemptSplit(t: PShape, j: nat, d: nat, sib: Oid, pre: seq<Oid>, post: seq<Oid>, ls: seq<Oid>,
                      exempt: set<Oid>)
    requires t.Inner? && j < |t.kids| && Splittable(t.kids[j], d) && j <= |t.ks| && Unexempt(t, ls, exempt)
    requires ls == pre + Row(t) + post && sib !in exempt
    requires Nodes(SplitTree(t, j, d, sib)) == Nodes(t) + {sib}
    ensures Unexempt(SplitTree(t, j, d, sib), pre + Row(SplitTree(t, j, d, sib)) + post, exempt)
  {
    if t.kids[j].Leaf? {
      var q := SplitRow(t.kids, j, d, sib, pre, post);
    } else {
      SplitKidsEntries(t.kids, j, d, sib);
    }
  }

  lemma InsertedAfterSplit(m: Mem, m1: Mem, m': Mem, t: PShape, t1: PShape, t': PShape, sib: Oid, d: nat, base: Mem)
    requires Nodes(t1) == Nodes(t) + {sib} && sib !in m && sib !in base && Elsewhere(m, m1, Nodes(t))
    requires Inserted(m1, m', t1, t', d, base)
    ensures Inserted(m, m', t, t', d, base)
  {
  }
}
