/** `insert_not_full` of the B-tree whose nodes hold their entries. */
module BTreeInsert {
  import opened Base
  import opened SortedMap
  import opened BTreeShape
  import opened BTreeNode
  import opened BTreeHeap
  import BPlusNode

  type PNode = Node<Entry<Value>>
  type Plain = Shape<Entry<Value>, Value>

  /** A slot is the entry itself. */
  function Same(e: Entry<Value>): Entry<Value> {
    e
  }

  lemma SameSlots(es: seq<Entry<Value>>)
    ensures Slots(es, Same) == es
  {
  }

  /** The leaf case. */
  method InsertLeafCase(node: PNode, key: Key, value: Value, ghost d: nat, ghost h: nat, ghost lo: int, ghost hi: int,
                        ghost t: Plain)
    returns (ghost t': Plain)
    requires d >= 2 && t.id == node && t.BLeaf? && Rep(t, d, Same) && BWf(t, d, h, lo, hi) && lo <= key < hi
    requires |t.es| < 2 * d - 1 && !HasKey(InOrder(t), key)
    modifies node`nk, node.entries
    ensures t' == BLeaf(node, Upsert(t.es, key, value)) && Rep(t', d, Same)
    ensures BBound(t, t', key, value, d, h, lo, hi)
  {
    SameSlots(t.es);
    BPlusNode.InsertSorted(node.entries, node.nk, key, value);
    node.nk := node.nk + 1;
    SameSlots(Upsert(t.es, key, value));
    t' := BLeaf(node, Upsert(t.es, key, value));
    UpsertAscending(t.es, key, value);
    UpsertWithin(t.es, key, value, lo, hi);
  }

  /** `insert_not_full` on the child j that bounds the absent key. */
  method InsertIntoChild(node: PNode, j: nat, key: Key, value: Value, d: nat, ghost h: nat, ghost lo: int,
                         ghost hi: int, ghost t: Plain)
    returns (ghost t': Plain)
    requires d >= 2 && t.id == node && t.BInner? && Held(t, d, Same) && BWf(t, d, h, lo, hi) && lo <= key < hi
    requires j < |t.kids| && BBounds(t.es, j, key) && |t.kids[j].es| < 2 * d - 1 && !HasKey(InOrder(t), key)
    modifies BNodes(t)`nk, EntryArrays(BNodes(t)), ChildArrays(BNodes(t))
    ensures Held(t', d, Same) && Grown(t, t') && BBound(t, t', key, value, d, h, lo, hi)
    decreases h, 0
  {
    BKidNodes(t.kids, j);
    NodesAllocated(t);
    assert Rep(t.kids[j], d, Same);
    assert BKidWf(t.es, t.kids[j], j, d, h - 1, lo, hi);
    assert node.Kids()[j] == t.kids[j].id;
    BAbsentBelow(t, j, key);
    RepRoomy(t, d, Same);
    hide Upsert, HasKey;
    ghost var c := InsertWithin(node.children[j], key, value, d, h - 1, BLo(t.es, lo, j), BHi(t.es, hi, j),
                                t.kids[j], BNodes(t));
    HeldBelow(t, j, c, d, Same);
    BBoundBelow(t, j, c, key, value, d, h, lo, hi);
    t' := t.(kids := t.kids[j := c]);
  }

  /** `insert_not_full`, seen from the nodes s of a larger tree: the others are untouched. */
  method InsertWithin(node: PNode, key: Key, value: Value, d: nat, ghost h: nat, ghost lo: int, ghost hi: int,
                      ghost t: Plain, ghost s: set<PNode>)
    returns (ghost t': Plain)
    requires d >= 2 && t.id == node && Held(t, d, Same) && BWf(t, d, h, lo, hi) && lo <= key < hi
    requires |t.es| < 2 * d - 1 && !HasKey(InOrder(t), key)
    requires BNodes(t) <= s && Apart(s) && Roomy(s, d)
    modifies BNodes(t)`nk, EntryArrays(BNodes(t)), ChildArrays(BNodes(t))
    ensures Held(t', d, Same) && Grown(t, t') && BBound(t, t', key, value, d, h, lo, hi)
    ensures forall n :: n in s && n !in BNodes(t) ==>
      unchanged(n`nk) && unchanged(n.entries) && unchanged(n.children)
    decreases h, 3
  {
    ArraysOutside(s, BNodes(t), d);
    t' := InsertNotFull(node, key, value, d, h, lo, hi, t);
  }

  /** `insert_not_full`: binds an absent key below a node that has room. */
  method InsertNotFull(node: PNode, key: Key, value: Value, d: nat, ghost h: nat, ghost lo: int, ghost hi: int,
                       ghost t: Plain)
    returns (ghost t': Plain)
    requires d >= 2 && t.id == node && Held(t, d, Same) && BWf(t, d, h, lo, hi) && lo <= key < hi
    requires |t.es| < 2 * d - 1 && !HasKey(InOrder(t), key)
    modifies BNodes(t)`nk, EntryArrays(BNodes(t)), ChildArrays(BNodes(t))
    ensures Held(t', d, Same) && Grown(t, t') && BBound(t, t', key, value, d, h, lo, hi)
    decreases h, 2
  {
    assert Local(t, d, Same);
    if node.isLeaf {
      t' := InsertLeafCase(node, key, value, d, h, lo, hi, t);
    } else {
      var j := node.nk;
      while j > 0 && node.entries[j - 1].key > key
        invariant 0 <= j <= node.nk
        invariant j < node.nk ==> key < node.entries[j].key
      {
        j := j - 1;
      }
      SameSlots(t.es);
      assert forall m :: 0 <= m < |t.es| ==> t.es[m] == node.entries[m];
      AbsentInNode(t, key);
      assert Rep(t.kids[j], d, Same);
      assert Local(t.kids[j], d, Same) && node.Kids()[j] == t.kids[j].id;
      if node.children[j].nk == 2 * d - 1 {
        t' := SplitThenInsert(node, j, key, value, d, h, lo, hi, t);
      } else {
        t' := InsertIntoChild(node, j, key, value, d, h, lo, hi, t);
      }
    }
  }

  /** The internal case with a full child: split it, choose a side with a strict comparison. */
  method SplitThenInsert(node: PNode, j: nat, key: Key, value: Value, d: nat, ghost h: nat, ghost lo: int,
                         ghost hi: int, ghost t: Plain)
    returns (ghost t': Plain)
    requires d >= 2 && t.id == node && t.BInner? && Held(t, d, Same) && BWf(t, d, h, lo, hi) && lo <= key < hi
    requires |t.es| < 2 * d - 1 && !HasKey(InOrder(t), key)
    requires j < |t.kids| && BBounds(t.es, j, key) && BSplittable(t.kids[j], d)
    modifies BNodes(t)`nk, EntryArrays(BNodes(t)), ChildArrays(BNodes(t))
    ensures Held(t', d, Same) && Grown(t, t') && BBound(t, t', key, value, d, h, lo, hi) && |t'.es| > |t.es|
    decreases h, 1
  {
    hide Held, BWf, HasKey, Upsert, InOrder, BNodes;
    var j', sib;
    ghost var t1;
    j', t1, sib := SplitAndChoose(node, j, key, d, h, lo, hi, t);
    label mid:
    t' := InsertIntoChild(node, j', key, value, d, h, lo, hi, t1);
    assert Grown@mid(t1, t');
    GrownFurther(t, t1, t', sib);
  }

  lemma SplitSlot(t: Plain, j: nat, d: nat)
    requires Rep(t, d, Same) && j < |t.es|
    ensures j < t.id.entries.Length && t.id.entries[j] == t.es[j]
  {
    assert Local(t, d, Same);
    SameSlots(t.es);
    assert t.id.Es()[j] == t.es[j];
  }

  /** Splits the full child j and chooses the half that bounds the key. */
  method SplitAndChoose(node: PNode, j: nat, key: Key, d: nat, ghost h: nat, ghost lo: int, ghost hi: int,
                        ghost t: Plain)
    returns (j': nat, ghost t1: Plain, sib: PNode)
    requires d >= 2 && t.id == node && t.BInner? && Held(t, d, Same) && BWf(t, d, h, lo, hi) && lo <= key < hi
    requires |t.es| < 2 * d - 1 && !HasKey(InOrder(t), key)
    requires j < |t.kids| && BBounds(t.es, j, key) && BSplittable(t.kids[j], d)
    modifies BNodes(t)`nk, EntryArrays(BNodes(t)), ChildArrays(BNodes(t))
    ensures fresh(sib) && fresh(sib.entries) && fresh(sib.children) && !sib.freed
    ensures Held(t1, d, Same) && BNodes(t1) == BNodes(t) + {sib}
    ensures t1.id == node && t1.BInner? && BWf(t1, d, h, lo, hi) && |t1.es| == |t.es| + 1
    ensures InOrder(t1) == InOrder(t)
    ensures j' < |t1.kids| && BBounds(t1.es, j', key) && |t1.kids[j'].es| < 2 * d - 1
  {
    NodesAllocated(t);
    BKidNodes(t.kids, j);
    sib := SplitChild(node, j, d, Same, t);
    t1 := BSplitTree(t, j, d, sib);
    HeldSplit(t, j, d, Same, sib);
    BSplitBounds(t, j, d, h, lo, hi, sib, key);
    SplitSlot(t1, j, d);
    hide Held, BWf, HasKey, InOrder, BNodes, BSplittable;
    j' := j;
    if node.entries[j].key < key {
      j' := j' + 1;
    }
  }
}
