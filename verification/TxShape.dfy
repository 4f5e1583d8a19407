/** What the node-level steps of a transactional insert do to the tree the memory represents. */
module TxShape {
  import opened Base
  import opened SortedMap
  import opened BPlusShape
  import opened PoolMemory
  import opened TxNode

  /** The memory holds t, each node once. */
  ghost predicate PHeld(mem: Mem, t: PShape, d: nat) {
    PRep(mem, t, d) && Owned(t)
  }

  /** The represented parts of a split parent make the split parent. */
  lemma PRepSplit(mem: Mem, t: PShape, i: nat, d: nat, sib: Oid)
    requires t.Inner? && i < |t.kids| && i <= |t.ks| && Splittable(t.kids[i], d)
    requires forall m :: 0 <= m < |t.kids| && m != i ==> PRep(mem, t.kids[m], d)
    requires PRep(mem, LeftHalf(t.kids[i], d), d) && PRep(mem, RightHalf(t.kids[i], d, sib), d)
    requires t.id in mem && t.id != OID_NULL && RecHolds(mem[t.id], SplitTree(t, i, d, sib), d)
    ensures PRep(mem, SplitTree(t, i, d, sib), d)
  {
    var t' := SplitTree(t, i, d, sib);
    forall m | 0 <= m < |t'.kids|
      ensures PRep(mem, t'.kids[m], d)
    {
      SplitKidsMember(t.kids, i, d, sib, m);
    }
  }

  /** The parent's record holds the parent of the split shape. */
  lemma AdoptedHolds(r: NodeRec, t: PShape, i: nat, d: nat, sib: Oid, sep: Entry<Value>, keyOnly: bool)
    requires t.Inner? && RecHolds(r, t, d) && |t.ks| < 2 * d - 1 && i < |t.kids| && Splittable(t.kids[i], d)
    requires sep.key == Separator(t.kids[i], d)
    ensures RecHolds(Adopted(r, i, sib, sep, keyOnly), SplitTree(t, i, d, sib), d)
  {
    AdoptedKeys(r, i, sib, sep, keyOnly);
    SplitIds(t.kids, i, d, sib);
  }

  /** Everything under a split parent but the child itself is still represented. */
  lemma OthersKept(m: Mem, m': Mem, t: PShape, i: nat, d: nat)
    requires t.Inner? && PRep(m, t, d) && Owned(t) && i < |t.kids|
    requires forall o :: o in Nodes(t) && o != t.id && o != t.kids[i].id && o in m ==> o in m' && SameBody(m[o], m'[o])
    ensures forall n :: 0 <= n < |t.kids| && n != i ==> PRep(m', t.kids[n], d)
    ensures t.kids[i].Inner? ==> forall n :: 0 <= n < |t.kids[i].kids| ==> PRep(m', t.kids[i].kids[n], d)
  {
    var c := t.kids[i];
    KidNodes(t.kids, i);
    assert PRep(m, c, d) && Owned(c);
    forall n | 0 <= n < |t.kids| && n != i
      ensures PRep(m', t.kids[n], d)
    {
      KidNodes(t.kids, n);
      OtherKid(t, i, n);
      PRepFrame(m, m', t.kids[n], d);
    }
    if c.Inner? {
      forall n | 0 <= n < |c.kids|
        ensures PRep(m', c.kids[n], d)
      {
        KidNodes(c.kids, n);
        PRepFrame(m, m', c.kids[n], d);
      }
    }
  }

  /** Splitting a leaf of the memory splits a leaf of the tree. */
  lemma LeafSplitHeld(m: Mem, m': Mem, t: PShape, i: nat, d: nat, sib: Oid)
    requires t.Inner? && PRep(m, t, d) && Owned(t) && |t.ks| < 2 * d - 1
    requires i < |t.kids| && Splittable(t.kids[i], d) && t.kids[i].Leaf? && t.kids[i].id in m
    requires RecHolds(m[t.kids[i].id], t.kids[i], d)
    requires sib !in m && sib != OID_NULL && LeafSplit(m, m', i, t.id, t.kids[i].id, d, sib)
    ensures PRep(m', SplitTree(t, i, d, sib), d)
  {
    var c := t.kids[i];
    PRepAllocated(m, t, d);
    KidNodes(t.kids, i);
    OthersKept(m, m', t, i, d);
    AdoptedHolds(m[t.id], t, i, d, sib, m[c.id].entries[d - 1], true);
    LeafHalvesHold(m[c.id], m'[c.id], m'[sib], c, d, sib);
    PRepSplit(m', t, i, d, sib);
  }

  lemma LeafHalvesHold(r: NodeRec, l: NodeRec, u: NodeRec, c: PShape, d: nat, sib: Oid)
    requires Splittable(c, d) && c.Leaf? && RecHolds(r, c, d)
    requires SameBody(l, r.(nk := d - 1)) && SameBody(u, UpperLeaf(r, d))
    ensures RecHolds(l, LeftHalf(c, d), d) && RecHolds(u, RightHalf(c, d, sib), d)
    ensures r.entries[d - 1].key == Separator(c, d)
  {
  }

  /** Splitting an internal node of the memory splits an internal node of the tree. */
  lemma InnerSplitHeld(m: Mem, m': Mem, t: PShape, i: nat, d: nat, sib: Oid)
    requires t.Inner? && PRep(m, t, d) && Owned(t) && |t.ks| < 2 * d - 1
    requires i < |t.kids| && Splittable(t.kids[i], d) && t.kids[i].Inner? && t.kids[i].id in m
    requires RecHolds(m[t.kids[i].id], t.kids[i], d)
    requires sib !in m && sib != OID_NULL && InnerSplit(m, m', i, t.id, t.kids[i].id, d, sib)
    ensures PRep(m', SplitTree(t, i, d, sib), d)
  {
    var c := t.kids[i];
    PRepAllocated(m, t, d);
    KidNodes(t.kids, i);
    OthersKept(m, m', t, i, d);
    InnerHalvesHold(m[c.id], m'[c.id], m'[sib], c, d, sib);
    AdoptedHolds(m[t.id], t, i, d, sib, m[c.id].entries[d - 1], false);
    PRepSplit(m', t, i, d, sib);
  }

  lemma InnerHalvesHold(r: NodeRec, l: NodeRec, u: NodeRec, c: PShape, d: nat, sib: Oid)
    requires Splittable(c, d) && c.Inner? && RecHolds(r, c, d)
    requires l == r.(nk := d - 1) && u == UpperInner(r, d)
    ensures RecHolds(l, LeftHalf(c, d), d) && RecHolds(u, RightHalf(c, d, sib), d)
    ensures r.entries[d - 1].key == Separator(c, d)
  {
    KeysSlice(r.entries[..r.nk], 0, d - 1);
    KeysSlice(r.entries[..r.nk], d, 2 * d - 1);
    assert r.entries[..r.nk][0..d - 1] == r.entries[..d - 1];
    assert u.entries[..d - 1] == r.entries[..r.nk][d..2 * d - 1];
    assert u.children[..d] == r.children[..r.nk + 1][d..];
    assert l.children[..d] == r.children[..r.nk + 1][..d];
  }
}
