/** `search` and `update_if_found` of the B-tree whose nodes point to their entries. */
module EntrySearch {
  import opened Base
  import opened SortedMap
  import opened BTreeShape
  import opened BTreeHeap
  import opened EntryItem
  import opened EntryInsert

  /** The entry of a key, or nothing. */
  ghost function Target(t: Tree, key: Key): set<Item> {
    var r := Lookup(InOrder(t), key);
    if r.Some? then {r.value} else {}
  }

  /** What slot i of a node says about a key: found here, absent, or to be looked for in child i. */
  lemma AtSlot(t: Tree, i: nat, key: Key, d: nat, h: nat, lo: int, hi: int)
    requires d >= 2 && Rep(t, d, Pointer) && BWf(t, d, h, lo, hi) && Keyed(InOrder(t)) && i <= |t.es|
    requires forall m :: 0 <= m < i ==> t.es[m].key < key
    requires i < |t.es| ==> key <= t.es[i].key
    ensures i < |t.es| && t.es[i].key == key ==>
      Lookup(InOrder(t), key) == Some(t.es[i].value) && t.es[i].value in Target(t, key)
    ensures !(i < |t.es| && t.es[i].key == key) && t.BLeaf? ==> Lookup(InOrder(t), key) == None
    ensures !(i < |t.es| && t.es[i].key == key) && t.BInner? ==>
      && h > 0 && i < |t.kids| && Target(t, key) == Target(t.kids[i], key)
      && i < t.id.children.Length && t.id.children[i] == t.kids[i].id
      && Rep(t.kids[i], d, Pointer) && BWf(t.kids[i], d, h - 1, BLo(t.es, lo, i), BHi(t.es, hi, i))
      && Keyed(InOrder(t.kids[i])) && Lookup(InOrder(t), key) == Lookup(InOrder(t.kids[i]), key)
  {
    if t.BLeaf? {
      LookupAt(t.es, i, key);
      LookupAbsent(t.es, key);
    } else if i < |t.es| && t.es[i].key == key {
      LookupInNode(t, i, d, h, lo, hi);
    } else {
      assert t.id.Kids()[i] == t.kids[i].id;
      LookupInChild(t, i, key, d, h, lo, hi);
      assert BKidWf(t.es, t.kids[i], i, d, h - 1, lo, hi);
      KeyedKid(t, i);
    }
  }

  lemma HeldSlots(t: Tree, d: nat)
    requires Rep(t, d, Pointer) && Keyed(InOrder(t))
    ensures t.id.nk == |t.es| <= t.id.entries.Length && t.id.isLeaf == t.BLeaf?
    ensures forall m :: 0 <= m < |t.es| ==> t.id.entries[m] == t.es[m].value && t.id.entries[m].key == t.es[m].key
  {
    assert Local(t, d, Pointer);
    KeyedNode(t);
    NodeSlots(t, d);
  }

  /** `search`: returns the entry it stops at. */
  method Search(node: ENode, key: Key, ghost d: nat, ghost h: nat, ghost lo: int, ghost hi: int, ghost t: Tree)
    returns (r: Option<Item>)
    requires d >= 2 && t.id == node && Rep(t, d, Pointer) && BWf(t, d, h, lo, hi) && Keyed(InOrder(t))
    ensures r == Lookup(InOrder(t), key)
    decreases t
  {
    hide Rep, Local, BWf, InOrder, Lookup, Keyed;
    HeldSlots(t, d);
    var i := 0;
    while i < node.nk && key > node.entries[i].key
      invariant 0 <= i <= node.nk
      invariant forall m :: 0 <= m < i ==> t.es[m].key < key
    {
      i := i + 1;
    }
    AtSlot(t, i, key, d, h, lo, hi);
    if i < node.nk && key == node.entries[i].key {
      return Some(node.entries[i]);
    }
    if node.isLeaf {
      return None;
    }
    r := Search(node.children[i], key, d, h - 1, BLo(t.es, lo, i), BHi(t.es, hi, i), t.kids[i]);
  }

  /** `update_if_found`: writes the value of the key's entry and touches nothing else. */
  method UpdateIfFound(node: ENode, key: Key, value: Value, ghost d: nat, ghost h: nat, ghost lo: int, ghost hi: int,
                       ghost t: Tree)
    returns (found: bool)
    requires d >= 2 && t.id == node && Rep(t, d, Pointer) && BWf(t, d, h, lo, hi) && Keyed(InOrder(t))
    modifies Target(t, key)`value
    ensures found <==> Lookup(InOrder(t), key).Some?
    ensures found ==> Lookup(InOrder(t), key).value.value == value
    decreases t
  {
    hide Rep, Local, BWf, InOrder, Lookup, Keyed, BNodes, Target;
    HeldSlots(t, d);
    var i := 0;
    while i < node.nk && key > node.entries[i].key
      invariant 0 <= i <= node.nk
      invariant forall m :: 0 <= m < i ==> t.es[m].key < key
    {
      i := i + 1;
    }
    AtSlot(t, i, key, d, h, lo, hi);
    if i < node.nk && key == node.entries[i].key {
      node.entries[i].value := value;
      return true;
    }
    if node.isLeaf {
      return false;
    }
    found := UpdateIfFound(node.children[i], key, value, d, h - 1, BLo(t.es, lo, i), BHi(t.es, hi, i), t.kids[i]);
  }
}
