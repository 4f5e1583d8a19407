/** `search` and `update_if_found` with out-of-line records. */
module RecordSearch {
  import opened Base
  import opened SortedMap
  import opened BPlusShape
  import opened RecordNode
  import opened RecordHeap

  /** The record bound to a key, or nothing. */
  ghost function Target(t: Shape, key: Key): set<Record> {
    var r := Lookup(Entries(t), key);
    if r.Some? then {r.value} else {}
  }

  /** The first slot whose key is not below the searched one. */
  method FindSlot(node: Node, key: Key) returns (i: nat)
    requires node.nk <= node.keys.Length
    ensures i <= node.nk
    ensures forall m :: 0 <= m < i ==> node.keys[m] < key
    ensures i < node.nk ==> key <= node.keys[i]
  {
    i := 0;
    while i < node.nk && key > node.keys[i]
      invariant 0 <= i <= node.nk
      invariant forall m :: 0 <= m < i ==> node.keys[m] < key
    {
      i := i + 1;
    }
  }

  /** What slot i of a leaf says about a key. */
  lemma AtLeaf(t: Shape, i: nat, key: Key, d: nat, h: nat, lo: int, hi: int)
    requires t.Leaf? && Rep(t, d) && Wf(t, d, h, lo, hi) && i <= |t.es|
    requires forall m :: 0 <= m < i ==> t.id.keys[m] < key
    requires i < |t.es| ==> key <= t.id.keys[i]
    ensures Lookup(Entries(t), key) == if i < |t.es| && t.id.keys[i] == key then Some(t.es[i].value) else None
    ensures i < |t.es| ==> i < t.id.pointers.Length && t.id.pointers[i] == Rec(t.es[i].value)
    ensures HasKey(Entries(t), key) <==> i < |t.es| && t.id.keys[i] == key
  {
    LeafEntries(t);
    LookupAt(t.es, i, key);
  }

  /** Where the descent goes from slot i of an internal node. */
  lemma AtInner(t: Shape, i: nat, key: Key, d: nat, h: nat, lo: int, hi: int)
    requires d >= 2 && t.Inner? && Rep(t, d) && Wf(t, d, h, lo, hi) && i <= |t.ks|
    requires forall m :: 0 <= m < i ==> t.id.keys[m] < key
    requires i < |t.ks| ==> key <= t.id.keys[i]
    ensures var j := if i < |t.ks| && key == t.id.keys[i] then i + 1 else i;
            && j < |t.kids| && j < t.id.pointers.Length && j <= |t.ks| && t.id.pointers[j] == Child(t.kids[j].id)
              && Rep(t.kids[j], d)
            && Wf(t.kids[j], d, h - 1, Lo(t.ks, lo, j), Hi(t.ks, hi, j))
            && Lookup(Entries(t), key) == Lookup(Entries(t.kids[j]), key)
  {
    assert Local(t, d);
    assert forall m :: 0 <= m < |t.ks| ==> t.ks[m] == t.id.keys[m];
    DescendTo(t, i, key, d, h, lo, hi);
    var j := if i < |t.ks| && key == t.id.keys[i] then i + 1 else i;
    assert t.id.pointers[..|t.kids|][j] == KidPtrs(Ids(t.kids))[j];
  }

  /** `search`: descends right on an equal separator. */
  method Search(node: Node, key: Key, ghost d: nat, ghost h: nat, ghost lo: int, ghost hi: int, ghost t: Shape)
    returns (r: Option<Record>)
    requires d >= 2 && t.id == node && Rep(t, d) && Wf(t, d, h, lo, hi)
    ensures r == Lookup(Entries(t), key)
    decreases t
  {
    hide Rep, Wf, Entries, Lookup, HasKey;
    LocalKind(t, d);
    NodesAllocated(t);
    var i := FindSlot(node, key);
    RepFrame(t, d);
    if node.isLeaf {
      AtLeaf(t, i, key, d, h, lo, hi);
      if i < node.nk && key == node.keys[i] {
        return Some(node.pointers[i].rec);
      }
      return None;
    }
    AtInner(t, i, key, d, h, lo, hi);
    if i < node.nk && key == node.keys[i] {
      i := i + 1;
    }
    r := Search(node.pointers[i].node, key, d, h - 1, Lo(t.ks, lo, i), Hi(t.ks, hi, i), t.kids[i]);
  }

  /** `update_if_found`: writes into the record bound to the key and touches nothing else. */
  method UpdateIfFound(node: Node, key: Key, value: Value, ghost d: nat, ghost h: nat, ghost lo: int, ghost hi: int,
                       ghost t: Shape)
    returns (found: bool)
    requires d >= 2 && t.id == node && Rep(t, d) && Wf(t, d, h, lo, hi)
    modifies Target(t, key)`value
    ensures found <==> HasKey(Entries(t), key)
    ensures found <==> Lookup(Entries(t), key).Some?
    ensures found ==> Lookup(Entries(t), key).value.value == value
    decreases t
  {
    hide Rep, Wf, Entries, Lookup, HasKey;
    LocalKind(t, d);
    NodesAllocated(t);
    var i := FindSlot(node, key);
    RepFrame(t, d);
    LookupAbsent(Entries(t), key);
    if node.isLeaf {
      AtLeaf(t, i, key, d, h, lo, hi);
      if i < node.nk && key == node.keys[i] {
        node.pointers[i].rec.value := value;
        return true;
      }
      return false;
    }
    AtInner(t, i, key, d, h, lo, hi);
    if i < node.nk && key == node.keys[i] {
      i := i + 1;
    }
    LookupAbsent(Entries(t.kids[i]), key);
    found := UpdateIfFound(node.pointers[i].node, key, value, d, h - 1, Lo(t.ks, lo, i), Hi(t.ks, hi, i), t.kids[i]);
  }
}
