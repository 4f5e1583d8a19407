/** `insert_not_full` of the B-tree whose nodes point to their entries. */
module EntryInsert {
  import opened Base
  import opened SortedMap
  import opened BTreeShape
  import opened BTreeNode
  import opened BTreeHeap
  import opened Arrays
  import opened EntryItem

  type ENode = Node<Item?>
  type Tree = Shape<Item?, Item>

  /** A slot is a pointer to the entry. */
  function Pointer(e: Entry<Item>): Item? {
    e.value
  }

  /** Keys are read through the pointers. */
  ghost predicate Keyed(s: seq<Entry<Item>>) {
    forall i :: 0 <= i < |s| ==> s[i].value.key == s[i].key
  }

  /** The node's own entries are among the entries of its tree ... */
  lemma KeyedNode(t: Tree)
    requires Keyed(InOrder(t)) && (t.BInner? ==> |t.kids| == |t.es| + 1)
    ensures Keyed(t.es)
  {
    if t.BInner? {
      forall i | 0 <= i < |t.es| ensures t.es[i].value.key == t.es[i].key {
        InOrderAt(t.es, t.kids, i);
        var a := Upto(t.es, t.kids, i) + InOrder(t.kids[i]);
        assert After(t.es, t.kids, i)[0] == t.es[i];
        assert InOrder(t)[|a|] == t.es[i];
      }
    }
  }

  /** ... and so are those of a child. */
  lemma KeyedKid(t: Tree, j: nat)
    requires t.BInner? && |t.kids| == |t.es| + 1 && j < |t.kids| && Keyed(InOrder(t))
    ensures Keyed(InOrder(t.kids[j]))
  {
    InOrderAt(t.es, t.kids, j);
    var a, b := Upto(t.es, t.kids, j), InOrder(t.kids[j]);
    forall i | 0 <= i < |b| ensures b[i].value.key == b[i].key {
      assert InOrder(t)[|a| + i] == b[i];
    }
  }

  lemma {:induction false} UpsertKeyed(s: seq<Entry<Item>>, k: Key, item: Item)
    requires Keyed(s) && item.key == k
    ensures Keyed(Upsert(s, k, item))
  {
    if s != [] && s[0].key < k {
      UpsertKeyed(s[1..], k, item);
    }
  }

  /** What the slots of a represented node hold. */
  lemma NodeSlots(t: Tree, d: nat)
    requires Local(t, d, Pointer) && Keyed(t.es)
    ensures t.id.nk == |t.es| <= t.id.entries.Length && t.id.isLeaf == t.BLeaf?
    ensures forall m :: 0 <= m < |t.es| ==> t.id.entries[m] == t.es[m].value && t.id.entries[m].key == t.es[m].key
  {
    assert t.id.Es() == Slots(t.es, Pointer);
  }

  /** The shifting loop: moves the pointers to entries above key one slot right and returns the gap. */
  method ShiftLarger(a: array<Item?>, n: nat, key: Key) returns (i: nat)
    requires n < a.Length && forall m :: 0 <= m < n ==> a[m] != null
    modifies a
    ensures i <= n
    ensures i > 0 ==> old(a[i - 1]).key <= key
    ensures forall m :: i <= m < n ==> old(a[m]).key > key
    ensures forall m :: 0 <= m < i ==> a[m] == old(a[m])
    ensures forall m :: i < m <= n ==> a[m] == old(a[m - 1])
  {
    i := n;
    while i > 0 && a[i - 1].key > key
      invariant 0 <= i <= n
      invariant forall m :: 0 <= m < i ==> a[m] == old(a[m])
      invariant forall m :: i < m <= n ==> a[m] == old(a[m - 1])
      invariant forall m :: i <= m < n ==> old(a[m]).key > key
    {
      a[i] := a[i - 1];
      i := i - 1;
    }
  }

  /** Shift, then write the pointer to a new entry into the gap. */
  method InsertItem(a: array<Item?>, n: nat, key: Key, value: Value, ghost es: seq<Entry<Item>>) returns (item: Item)
    requires n == |es| < a.Length && Ascending(es) && !HasKey(es, key)
    requires forall m :: 0 <= m < n ==> a[m] == es[m].value && a[m].key == es[m].key
    modifies a
    ensures fresh(item) && item.key == key && item.value == value
    ensures a[..n + 1] == Slots(Upsert(es, key, item), Pointer)
  {
    ghost var slots := a[..n];
    assert slots == Slots(es, Pointer);
    hide Ascending, HasKey, Upsert, Slots, InsertAt;
    var i := ShiftLarger(a, n, key);
    item := new Item(key, value);
    a[i] := item;
    InsertPosition(es, i, key, item);
    SlotsInsert(es, i, Entry(key, item), Pointer);
    GapFilled(slots, a[..], i, item);
  }

  /** The pointers before the gap, the new one in it, the rest one slot further on. */
  lemma GapFilled<X>(before: seq<X>, after: seq<X>, i: nat, x: X)
    requires i <= |before| < |after| && after[i] == x
    requires forall m :: 0 <= m < i ==> after[m] == before[m]
    requires forall m :: i < m <= |before| ==> after[m] == before[m - 1]
    ensures after[..|before| + 1] == InsertAt(before, i, x)
  {
  }

  /** The leaf case: a new entry at the key's place. */
  method InsertLeafCase(node: ENode, key: Key, value: Value, ghost d: nat, ghost h: nat, ghost lo: int, ghost hi: int,
                        ghost t: Tree)
    returns (ghost t': Tree, item: Item)
    requires d >= 2 && t.id == node && t.BLeaf? && Rep(t, d, Pointer) && BWf(t, d, h, lo, hi) && lo <= key < hi
    requires |t.es| < 2 * d - 1 && !HasKey(InOrder(t), key) && Keyed(t.es)
    modifies node`nk, node.entries
    ensures fresh(item) && item.key == key && item.value == value
    ensures t' == BLeaf(node, Upsert(t.es, key, item)) && Rep(t', d, Pointer)
    ensures BBound(t, t', key, item, d, h, lo, hi)
  {
    NodeSlots(t, d);
    item := InsertItem(node.entries, node.nk, key, value, t.es);
    node.nk := node.nk + 1;
    t' := BLeaf(node, Upsert(t.es, key, item));
    UpsertAscending(t.es, key, item);
    UpsertWithin(t.es, key, item, lo, hi);
    UpsertSize(t.es, key, item);
  }

  /** `insert_not_full` on the child j that bounds the absent key. */
  method InsertIntoChild(node: ENode, j: nat, key: Key, value: Value, d: nat, ghost h: nat, ghost lo: int,
                         ghost hi: int, ghost t: Tree)
    returns (ghost t': Tree, item: Item)
    requires d >= 2 && t.id == node && t.BInner? && Held(t, d, Pointer) && BWf(t, d, h, lo, hi) && lo <= key < hi
    requires j < |t.kids| && BBounds(t.es, j, key) && |t.kids[j].es| < 2 * d - 1 && !HasKey(InOrder(t), key)
      && Keyed(InOrder(t))
    modifies BNodes(t)`nk, EntryArrays(BNodes(t)), ChildArrays(BNodes(t))
    ensures fresh(item) && item.key == key && item.value == value
    ensures Held(t', d, Pointer) && Grown(t, t') && BBound(t, t', key, item, d, h, lo, hi)
    decreases h, 0
  {
    BKidNodes(t.kids, j);
    NodesAllocated(t);
    assert Rep(t.kids[j], d, Pointer);
    assert BKidWf(t.es, t.kids[j], j, d, h - 1, lo, hi);
    assert node.Kids()[j] == t.kids[j].id;
    BAbsentBelow(t, j, key);
    KeyedKid(t, j);
    RepRoomy(t, d, Pointer);
    hide Upsert, HasKey;
    ghost var c;
    c, item := InsertWithin(node.children[j], key, value, d, h - 1, BLo(t.es, lo, j), BHi(t.es, hi, j),
                                t.kids[j], BNodes(t));
    HeldBelow(t, j, c, d, Pointer);
    BBoundBelow(t, j, c, key, item, d, h, lo, hi);
    t' := t.(kids := t.kids[j := c]);
  }

  /** `insert_not_full`, seen from the nodes s of a larger tree: the others are untouched. */
  method InsertWithin(node: ENode, key: Key, value: Value, d: nat, ghost h: nat, ghost lo: int, ghost hi: int,
                      ghost t: Tree, ghost s: set<ENode>)
    returns (ghost t': Tree, item: Item)
    requires d >= 2 && t.id == node && Held(t, d, Pointer) && BWf(t, d, h, lo, hi) && lo <= key < hi
    requires |t.es| < 2 * d - 1 && !HasKey(InOrder(t), key) && Keyed(InOrder(t))
    requires BNodes(t) <= s && Apart(s) && Roomy(s, d)
    modifies BNodes(t)`nk, EntryArrays(BNodes(t)), ChildArrays(BNodes(t))
    ensures fresh(item) && item.key == key && item.value == value
    ensures Held(t', d, Pointer) && Grown(t, t') && BBound(t, t', key, item, d, h, lo, hi)
    ensures forall n :: n in s && n !in BNodes(t) ==>
      unchanged(n`nk) && unchanged(n.entries) && unchanged(n.children)
    decreases h, 3
  {
    ArraysOutside(s, BNodes(t), d);
    t', item := InsertNotFull(node, key, value, d, h, lo, hi, t);
  }

  /** `insert_not_full`: binds an absent key below a node that has room. */
  method InsertNotFull(node: ENode, key: Key, value: Value, d: nat, ghost h: nat, ghost lo: int, ghost hi: int,
                       ghost t: Tree)
    returns (ghost t': Tree, item: Item)
    requires d >= 2 && t.id == node && Held(t, d, Pointer) && BWf(t, d, h, lo, hi) && lo <= key < hi
    requires |t.es| < 2 * d - 1 && !HasKey(InOrder(t), key) && Keyed(InOrder(t))
    modifies BNodes(t)`nk, EntryArrays(BNodes(t)), ChildArrays(BNodes(t))
    ensures fresh(item) && item.key == key && item.value == value
    ensures Held(t', d, Pointer) && Grown(t, t') && BBound(t, t', key, item, d, h, lo, hi)
    decreases h, 2
  {
    assert Local(t, d, Pointer);
    KeyedNode(t);
    NodeSlots(t, d);
    if node.isLeaf {
      t', item := InsertLeafCase(node, key, value, d, h, lo, hi, t);
    } else {
      var j := node.nk;
      while j > 0 && node.entries[j - 1].key > key
        invariant 0 <= j <= node.nk
        invariant j < node.nk ==> key < node.entries[j].key
      {
        j := j - 1;
      }
      AbsentInNode(t, key);
      assert Rep(t.kids[j], d, Pointer);
      assert Local(t.kids[j], d, Pointer) && node.Kids()[j] == t.kids[j].id;
      if node.children[j].nk == 2 * d - 1 {
        t', item := SplitThenInsert(node, j, key, value, d, h, lo, hi, t);
      } else {
        t', item := InsertIntoChild(node, j, key, value, d, h, lo, hi, t);
      }
    }
  }

  /** The internal case with a full child: split it, choose a side with a strict comparison. */
  method SplitThenInsert(node: ENode, j: nat, key: Key, value: Value, d: nat, ghost h: nat, ghost lo: int,
                         ghost hi: int, ghost t: Tree)
    returns (ghost t': Tree, item: Item)
    requires d >= 2 && t.id == node && t.BInner? && Held(t, d, Pointer) && BWf(t, d, h, lo, hi) && lo <= key < hi
    requires |t.es| < 2 * d - 1 && !HasKey(InOrder(t), key) && Keyed(InOrder(t))
    requires j < |t.kids| && BBounds(t.es, j, key) && BSplittable(t.kids[j], d)
    modifies BNodes(t)`nk, EntryArrays(BNodes(t)), ChildArrays(BNodes(t))
    ensures fresh(item) && item.key == key && item.value == value
    ensures Held(t', d, Pointer) && Grown(t, t') && BBound(t, t', key, item, d, h, lo, hi) && |t'.es| > |t.es|
    decreases h, 1
  {
    hide Held, BWf, HasKey, Upsert, InOrder, BNodes;
    var j', sib;
    ghost var t1;
    j', t1, sib := SplitAndChoose(node, j, key, d, h, lo, hi, t);
    label mid:
    t', item := InsertIntoChild(node, j', key, value, d, h, lo, hi, t1);
    assert Grown@mid(t1, t');
    GrownFurther(t, t1, t', sib);
  }

  /** Splits the full child j and chooses the half that bounds the key. */
  method SplitAndChoose(node: ENode, j: nat, key: Key, d: nat, ghost h: nat, ghost lo: int, ghost hi: int,
                        ghost t: Tree)
    returns (j': nat, ghost t1: Tree, sib: ENode)
    requires d >= 2 && t.id == node && t.BInner? && Held(t, d, Pointer) && BWf(t, d, h, lo, hi) && lo <= key < hi
    requires |t.es| < 2 * d - 1 && !HasKey(InOrder(t), key) && Keyed(InOrder(t))
    requires j < |t.kids| && BBounds(t.es, j, key) && BSplittable(t.kids[j], d)
    modifies BNodes(t)`nk, EntryArrays(BNodes(t)), ChildArrays(BNodes(t))
    ensures fresh(sib) && fresh(sib.entries) && fresh(sib.children) && !sib.freed
    ensures Held(t1, d, Pointer) && BNodes(t1) == BNodes(t) + {sib}
    ensures t1.id == node && t1.BInner? && BWf(t1, d, h, lo, hi) && |t1.es| == |t.es| + 1
    ensures InOrder(t1) == InOrder(t)
    ensures j' < |t1.kids| && BBounds(t1.es, j', key) && |t1.kids[j'].es| < 2 * d - 1
  {
    NodesAllocated(t);
    BKidNodes(t.kids, j);
    sib := SplitChild(node, j, d, Pointer, t);
    t1 := BSplitTree(t, j, d, sib);
    HeldSplit(t, j, d, Pointer, sib);
    BSplitBounds(t, j, d, h, lo, hi, sib, key);
    assert Local(t1, d, Pointer);
    KeyedNode(t1);
    NodeSlots(t1, d);
    j' := j;
    if node.entries[j].key < key {
      j' := j' + 1;
    }
  }
}
