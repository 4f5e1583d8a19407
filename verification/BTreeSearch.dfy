/** `search` and `update_if_found` on B-tree nodes: a key may be found at any depth. */
module BTreeSearch {
  import opened Base
  import opened SortedMap
  import opened BTreeShape
  import opened BTreeNode
  import opened BTreeHeap
  import opened BTreeInsert

  /** The value bound to a key, or nothing. */
  method Search(node: PNode, key: Key, ghost d: nat, ghost h: nat, ghost lo: int, ghost hi: int, ghost t: Plain)
    returns (r: Option<Value>)
    requires d >= 2 && t.id == node && Rep(t, d, Same) && BWf(t, d, h, lo, hi)
    ensures r == Lookup(InOrder(t), key)
    decreases t
  {
    assert Local(t, d, Same);
    var i := 0;
    while i < node.nk && key > node.entries[i].key
      invariant 0 <= i <= node.nk
      invariant forall m :: 0 <= m < i ==> node.entries[m].key < key
    {
      i := i + 1;
    }
    SameSlots(t.es);
    assert forall m :: 0 <= m < |t.es| ==> t.es[m] == node.entries[m];
    if i < node.nk && key == node.entries[i].key {
      FoundHere(t, i, d, h, lo, hi);
      return Some(node.entries[i].value);
    }
    if node.isLeaf {
      LookupAt(t.es, i, key);
      return None;
    }
    assert node.Kids()[i] == t.kids[i].id;
    LookupInChild(t, i, key, d, h, lo, hi);
    assert BKidWf(t.es, t.kids[i], i, d, h - 1, lo, hi);
    r := Search(node.children[i], key, d, h - 1, BLo(t.es, lo, i), BHi(t.es, hi, i), t.kids[i]);
  }

  /** A key stored in the node, leaf or not, is bound to the value next to it. */
  lemma FoundHere(t: Plain, i: nat, d: nat, h: nat, lo: int, hi: int)
    requires d >= 2 && BWf(t, d, h, lo, hi) && i < |t.es|
    ensures Lookup(InOrder(t), t.es[i].key) == Some(t.es[i].value)
  {
    if t.BLeaf? {
      LookupAt(t.es, i, t.es[i].key);
    } else {
      LookupInNode(t, i, d, h, lo, hi);
    }
  }

  /** A node with the value at i replaced. */
  ghost function Overwrite(t: Plain, i: nat, value: Value): Plain
    requires i < |t.es|
  {
    var es := t.es[i := Entry(t.es[i].key, value)];
    match t
    case BLeaf(id, _) => BLeaf(id, es)
    case BInner(id, _, kids) => BInner(id, es, kids)
  }

  lemma OverwriteBinds(t: Plain, i: nat, value: Value, d: nat, h: nat, lo: int, hi: int)
    requires d >= 2 && BWf(t, d, h, lo, hi) && i < |t.es|
    ensures BBound(t, Overwrite(t, i, value), t.es[i].key, value, d, h, lo, hi)
  {
    if t.BLeaf? {
      UpsertPresent(t.es, i, value);
    } else {
      BindInNode(t, i, value, d, h, lo, hi);
    }
  }

  /** The key is in this node: overwrite its value. */
  method UpdateHere(node: PNode, i: nat, key: Key, value: Value, ghost d: nat, ghost h: nat, ghost lo: int,
                    ghost hi: int, ghost t: Plain)
    returns (ghost t': Plain)
    requires d >= 2 && t.id == node && Held(t, d, Same) && BWf(t, d, h, lo, hi)
    requires i < |t.es| && t.es[i].key == key
    modifies node.entries
    ensures Held(t', d, Same) && BBound(t, t', key, value, d, h, lo, hi) && BNodes(t') == BNodes(t)
    ensures |t'.es| == |t.es| && HasKey(InOrder(t), key)
  {
    assert Local(t, d, Same);
    SameSlots(t.es);
    RepRoomy(t, d, Same);
    NodesAllocated(t);
    node.entries[i] := node.entries[i].(value := value);
    t' := Overwrite(t, i, value);
    SameSlots(t'.es);
    OverwriteBinds(t, i, value, d, h, lo, hi);
    FoundHere(t, i, d, h, lo, hi);
    LookupAbsent(InOrder(t), key);
    OverwriteHeld(t, i, value, d);
  }

  /** Overwriting one value keeps every node's hold on its part of the tree. */
  twostate lemma OverwriteHeld(t: Plain, new i: nat, new value: Value, new d: nat)
    requires old(Held(t, d, Same)) && i < |t.es|
    requires Local(Overwrite(t, i, value), d, Same)
    requires forall n :: n in BNodes(t) ==> old(allocated(n)) && unchanged(n`nk) && unchanged(n.children)
    requires forall n :: n in BNodes(t) && n != t.id ==> unchanged(n.entries)
    ensures Held(Overwrite(t, i, value), d, Same) && BNodes(Overwrite(t, i, value)) == BNodes(t)
  {
    if t.BInner? {
      forall m | 0 <= m < |t.kids| ensures Rep(t.kids[m], d, Same) {
        BKidNodes(t.kids, m);
        RepFrame(t.kids[m], d, Same);
      }
    }
  }

  /** Overwrites the value of a stored key; says whether the key was there. */
  method UpdateIfFound(node: PNode, key: Key, value: Value, ghost d: nat, ghost h: nat, ghost lo: int, ghost hi: int,
                       ghost t: Plain)
    returns (found: bool, ghost t': Plain)
    requires d >= 2 && t.id == node && Held(t, d, Same) && BWf(t, d, h, lo, hi)
    modifies EntryArrays(BNodes(t))
    ensures found <==> HasKey(InOrder(t), key)
    ensures Held(t', d, Same) && BNodes(t') == BNodes(t) && |t'.es| == |t.es|
    ensures found ==> BBound(t, t', key, value, d, h, lo, hi)
    ensures !found ==> t' == t
    decreases t, 1
  {
    assert Local(t, d, Same);
    NodesAllocated(t);
    var i := 0;
    while i < node.nk && key > node.entries[i].key
      invariant 0 <= i <= node.nk
      invariant forall m :: 0 <= m < i ==> node.entries[m].key < key
    {
      i := i + 1;
    }
    SameSlots(t.es);
    assert forall m :: 0 <= m < |t.es| ==> t.es[m] == node.entries[m];
    if i < node.nk && key == node.entries[i].key {
      t' := UpdateHere(node, i, key, value, d, h, lo, hi, t);
      return true, t';
    }
    if node.isLeaf {
      LookupAt(t.es, i, key);
      return false, t;
    }
    found, t' := UpdateBelow(node, i, key, value, d, h, lo, hi, t);
  }

  /** What a call on child j may rely on. */
  lemma ChildHeld(t: Plain, j: nat, d: nat)
    requires t.BInner? && Held(t, d, Same) && j < |t.kids|
    ensures Held(t.kids[j], d, Same) && BNodes(t.kids[j]) <= BNodes(t) && Apart(BNodes(t)) && Roomy(BNodes(t), d)
    ensures j < t.id.children.Length && t.id.children[j] == t.kids[j].id && t.id in BNodes(t)
  {
    BKidNodes(t.kids, j);
    RepRoomy(t, d, Same);
    assert t.id.Kids()[j] == t.kids[j].id;
  }

  /** `update_if_found` on the child that bounds the key. */
  method UpdateBelow(node: PNode, j: nat, key: Key, value: Value, ghost d: nat, ghost h: nat, ghost lo: int,
                     ghost hi: int, ghost t: Plain)
    returns (found: bool, ghost t': Plain)
    requires d >= 2 && t.id == node && t.BInner? && Held(t, d, Same) && BWf(t, d, h, lo, hi) && BBounds(t.es, j, key)
    modifies EntryArrays(BNodes(t))
    ensures found <==> HasKey(InOrder(t), key)
    ensures Held(t', d, Same) && BNodes(t') == BNodes(t) && |t'.es| == |t.es|
    ensures found ==> BBound(t, t', key, value, d, h, lo, hi)
    ensures !found ==> t' == t
    decreases t, 0
  {
    assert BKidWf(t.es, t.kids[j], j, d, h - 1, lo, hi);
    LookupInChild(t, j, key, d, h, lo, hi);
    LookupAbsent(InOrder(t), key);
    LookupAbsent(InOrder(t.kids[j]), key);
    NodesAllocated(t);
    ChildHeld(t, j, d);
    hide BWf, Upsert, Lookup, InOrder, HasKey, Held, Apart;
    ghost var c;
    found, c := UpdateWithin(node.children[j], key, value, d, h - 1, BLo(t.es, lo, j), BHi(t.es, hi, j), t.kids[j],
      BNodes(t));
    HeldBelow(t, j, c, d, Same);
    t' := t.(kids := t.kids[j := c]);
    if found {
      BBoundBelow(t, j, c, key, value, d, h, lo, hi);
    } else {
      assert t.kids[j := c] == t.kids;
    }
  }

  /** `update_if_found`, seen from the nodes s of a larger tree: the others are untouched. */
  method UpdateWithin(node: PNode, key: Key, value: Value, ghost d: nat, ghost h: nat, ghost lo: int, ghost hi: int,
                      ghost t: Plain, ghost s: set<PNode>)
    returns (found: bool, ghost t': Plain)
    requires d >= 2 && t.id == node && Held(t, d, Same) && BWf(t, d, h, lo, hi)
    requires BNodes(t) <= s && Apart(s) && Roomy(s, d)
    modifies EntryArrays(BNodes(t))
    ensures found <==> HasKey(InOrder(t), key)
    ensures Held(t', d, Same) && BNodes(t') == BNodes(t) && |t'.es| == |t.es|
    ensures found ==> BBound(t, t', key, value, d, h, lo, hi)
    ensures !found ==> t' == t
    ensures forall n :: n in s && n !in BNodes(t) ==>
      unchanged(n`nk) && unchanged(n.entries) && unchanged(n.children)
    decreases t, 2
  {
    ArraysOutside(s, BNodes(t), d);
    found, t' := UpdateIfFound(node, key, value, d, h, lo, hi, t);
  }
}
