/** `search` and `update_if_found` on nodes in memory. */
module BPlusSearch {
  import opened Base
  import opened SortedMap
  import opened BPlusShape
  import opened BPlusNode
  import opened BPlusHeap
  import opened BPlusInsert

  /** What a node says about the tree it represents. */
  lemma NodeSays(t: Shape, d: nat)
    requires Rep(t, d)
    ensures t.id.isLeaf == t.Leaf? && t.id.nk == t.Size() <= t.id.entries.Length
  {
  }

  /** What slot i of a leaf says about a key. */
  lemma AtLeaf(t: Shape, i: nat, key: Key, d: nat, h: nat, lo: int, hi: int)
    requires t.Leaf? && Rep(t, d) && Wf(t, d, h, lo, hi) && i <= |t.es|
    requires forall m :: 0 <= m < i ==> t.id.entries[m].key < key
    requires i < |t.es| ==> key <= t.id.entries[i].key
    ensures i < |t.es| ==> t.id.entries[i] == t.es[i]
    ensures Lookup(Entries(t), key) == if i < |t.es| && t.es[i].key == key then Some(t.es[i].value) else None
    ensures HasKey(Entries(t), key) <==> i < |t.es| && t.es[i].key == key
  {
    assert t.id.Es() == t.es;
    LeafEntries(t);
    LookupAt(t.es, i, key);
  }

  /** Where the descent goes from slot i of an internal node. */
  lemma AtInner(t: Shape, i: nat, key: Key, d: nat, h: nat, lo: int, hi: int)
    requires d >= 2 && t.Inner? && Rep(t, d) && Wf(t, d, h, lo, hi) && i <= |t.ks|
    requires forall m :: 0 <= m < i ==> t.id.entries[m].key < key
    requires i < |t.ks| ==> key <= t.id.entries[i].key
    ensures var j := if i < |t.ks| && key == t.id.entries[i].key then i + 1 else i;
            && j < |t.kids| && j <= |t.ks| && j < t.id.children.Length && t.id.children[j] == t.kids[j].id
            && Rep(t.kids[j], d) && Bounds(t.ks, j, key) && h > 0
            && Wf(t.kids[j], d, h - 1, Lo(t.ks, lo, j), Hi(t.ks, hi, j))
            && Lookup(Entries(t), key) == Lookup(Entries(t.kids[j]), key)
  {
    assert Local(t, d);
    assert forall m :: 0 <= m < |t.ks| ==> t.ks[m] == t.id.entries[m].key;
    DescendTo(t, i, key, d, h, lo, hi);
    var j := if i < |t.ks| && key == t.id.entries[i].key then i + 1 else i;
    assert t.id.Kids()[j] == t.kids[j].id;
  }

  /** The value bound to a key, or nothing: descends right on an equal separator. */
  method Search(node: Node, key: Key, ghost d: nat, ghost h: nat, ghost lo: int, ghost hi: int, ghost t: Shape)
    returns (r: Option<Value>)
    requires d >= 2 && t.id == node && Rep(t, d) && Wf(t, d, h, lo, hi)
    ensures r == Lookup(Entries(t), key)
    decreases t
  {
    hide Rep, Wf, Entries, Lookup, HasKey;
    NodeSays(t, d);
    var i := 0;
    while i < node.nk && key > node.entries[i].key
      invariant 0 <= i <= node.nk
      invariant forall m :: 0 <= m < i ==> node.entries[m].key < key
    {
      i := i + 1;
    }
    if node.isLeaf {
      AtLeaf(t, i, key, d, h, lo, hi);
      if i < node.nk && key == node.entries[i].key {
        return Some(node.entries[i].value);
      }
      return None;
    }
    AtInner(t, i, key, d, h, lo, hi);
    if i < node.nk && key == node.entries[i].key {
      i := i + 1;
    }
    r := Search(node.children[i], key, d, h - 1, Lo(t.ks, lo, i), Hi(t.ks, hi, i), t.kids[i]);
  }

  /** A leaf with the value at i replaced: the same node, keys and place in the chain. */
  ghost function Overwrite(t: Shape, i: nat, value: Value): Shape
    requires t.Leaf? && i < |t.es|
  {
    t.(es := t.es[i := t.es[i].(value := value)])
  }

  /** The leaf case of `update_if_found`: overwrite the value bound to the key. */
  method UpdateLeaf(node: Node, i: nat, key: Key, value: Value, ghost d: nat, ghost h: nat, ghost lo: int,
                    ghost hi: int, ghost t: Shape)
    returns (ghost t': Shape)
    requires d >= 2 && t.id == node && t.Leaf? && Held(t, d) && Wf(t, d, h, lo, hi)
    requires i < |t.es| && t.es[i].key == key
    modifies node.entries
    ensures Held(t', d) && Bound(t, t', key, value, d, h, lo, hi) && Nodes(t') == Nodes(t) && Row(t') == Row(t)
    ensures t'.Size() == t.Size()
  {
    node.entries[i] := node.entries[i].(value := value);
    t' := Overwrite(t, i, value);
    UpsertPresent(t.es, i, value);
    LeafEntries(t);
    LeafEntries(t');
    assert node.Es() == t'.es;
  }

  /** Overwrites the value of a stored key; says whether the key was there. */
  method UpdateIfFound(node: Node, key: Key, value: Value, ghost d: nat, ghost h: nat, ghost lo: int, ghost hi: int,
                       ghost t: Shape)
    returns (found: bool, ghost t': Shape)
    requires d >= 2 && t.id == node && Held(t, d) && Wf(t, d, h, lo, hi)
    modifies EntryArrays(Nodes(t))
    ensures found <==> HasKey(Entries(t), key)
    ensures Held(t', d) && Nodes(t') == Nodes(t) && Row(t') == Row(t) && t'.Size() == t.Size()
    ensures found ==> Bound(t, t', key, value, d, h, lo, hi)
    ensures !found ==> t' == t
    decreases t, 1
  {
    hide Wf, Entries, Lookup, HasKey, Upsert, Bound, Row;
    NodeSays(t, d);
    var i := 0;
    while i < node.nk && key > node.entries[i].key
      invariant 0 <= i <= node.nk
      invariant forall m :: 0 <= m < i ==> node.entries[m].key < key
    {
      i := i + 1;
    }
    if node.isLeaf {
      AtLeaf(t, i, key, d, h, lo, hi);
      if i < node.nk && key == node.entries[i].key {
        t' := UpdateLeaf(node, i, key, value, d, h, lo, hi, t);
        return true, t';
      }
      return false, t;
    }
    AtInner(t, i, key, d, h, lo, hi);
    if i < node.nk && key == node.entries[i].key {
      i := i + 1;
    }
    found, t' := UpdateBelow(node, i, key, value, d, h, lo, hi, t);
  }

  /** What a call on child j may rely on. */
  lemma ChildHeld(t: Shape, j: nat, d: nat)
    requires t.Inner? && Held(t, d) && j < |t.kids|
    ensures Held(t.kids[j], d) && Nodes(t.kids[j]) <= Nodes(t) && Apart(Nodes(t))
    ensures j < t.id.children.Length && t.id.children[j] == t.kids[j].id && t.id in Nodes(t)
  {
    KidNodes(t.kids, j);
    assert Local(t, d) && t.id.Kids()[j] == t.kids[j].id;
  }

  /** `update_if_found` on the child that bounds the key. */
  method UpdateBelow(node: Node, j: nat, key: Key, value: Value, ghost d: nat, ghost h: nat, ghost lo: int,
                     ghost hi: int, ghost t: Shape)
    returns (found: bool, ghost t': Shape)
    requires d >= 2 && t.id == node && t.Inner? && Held(t, d) && Wf(t, d, h, lo, hi)
    requires j < |t.kids| && Bounds(t.ks, j, key)
    requires Wf(t.kids[j], d, h - 1, Lo(t.ks, lo, j), Hi(t.ks, hi, j))
    requires Lookup(Entries(t), key) == Lookup(Entries(t.kids[j]), key)
    modifies EntryArrays(Nodes(t))
    ensures found <==> HasKey(Entries(t), key)
    ensures Held(t', d) && Nodes(t') == Nodes(t) && Row(t') == Row(t) && t'.Size() == t.Size()
    ensures found ==> Bound(t, t', key, value, d, h, lo, hi)
    ensures !found ==> t' == t
    decreases t, 0
  {
    assert h > 0;
    LookupAbsent(Entries(t), key);
    LookupAbsent(Entries(t.kids[j]), key);
    NodesAllocated(t);
    ChildHeld(t, j, d);
    hide Wf, Upsert, Lookup, Entries, Row, HasKey, Held, Apart;
    ghost var c;
    found, c := UpdateWithin(node.children[j], key, value, d, h - 1, Lo(t.ks, lo, j), Hi(t.ks, hi, j), t.kids[j],
      Nodes(t));
    HeldBelow(t, j, c, d);
    t' := t.(kids := t.kids[j := c]);
    if found {
      BoundBelow(t, j, c, key, value, d, h, lo, hi);
    } else {
      assert t.kids[j := c] == t.kids;
    }
    RowKept(t, j, c);
  }

  /** `update_if_found`, seen from the nodes s of a larger tree: the others are untouched. */
  method UpdateWithin(node: Node, key: Key, value: Value, ghost d: nat, ghost h: nat, ghost lo: int, ghost hi: int,
                      ghost t: Shape, ghost s: set<Node>)
    returns (found: bool, ghost t': Shape)
    requires d >= 2 && t.id == node && Held(t, d) && Wf(t, d, h, lo, hi)
    requires Nodes(t) <= s && Apart(s)
    modifies EntryArrays(Nodes(t))
    ensures found <==> HasKey(Entries(t), key)
    ensures Held(t', d) && Nodes(t') == Nodes(t) && Row(t') == Row(t) && t'.Size() == t.Size()
    ensures found ==> Bound(t, t', key, value, d, h, lo, hi)
    ensures !found ==> t' == t
    ensures forall n :: n in s && n !in Nodes(t) ==>
      unchanged(n`nk) && unchanged(n.entries) && unchanged(n.children)
    decreases t, 2
  {
    ArraysOutside(s, Nodes(t));
    found, t' := UpdateIfFound(node, key, value, d, h, lo, hi, t);
  }
}
