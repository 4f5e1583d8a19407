/** Nodes of the B+-tree with out-of-line records: one array of keys, one of untyped pointers. */
module RecordNode {
  import opened Base
  import opened SortedMap
  import opened Arrays

  /** `struct bp_record`. */
  class Record {
    var value: Value
    ghost var freed: bool

    /** `create_record`. */
    constructor (v: Value)
      ensures value == v && !freed
    {
      value := v;
      freed := false;
    }

    /** `free`: allowed once. */
    method Free()
      requires !freed
      modifies this`freed
      ensures freed
    {
      freed := true;
    }
  }

  /** A `void *` slot: `rec` and `node` stand for the two casts, each allowed only on its own kind. */
  datatype Ptr = Null | Rec(rec: Record) | Child(node: Node)

  /** `struct bp_dram_node`. */
  class Node {
    const isLeaf: bool
    var nk: nat
    const keys: array<Key>
    const pointers: array<Ptr>
    var next: Node?
    var previous: Node?
    ghost var freed: bool

    /** `create_node`. */
    constructor (d: nat, leaf: bool)
      requires d >= 2
      ensures isLeaf == leaf && nk == 0 && next == null && previous == null && !freed
      ensures Room(d) && fresh(keys) && fresh(pointers)
    {
      isLeaf := leaf;
      nk := 0;
      keys := new Key[2 * d - 1];
      pointers := new Ptr[2 * d];
      next, previous := null, null;
      freed := false;
    }

    /** `free`: allowed once. */
    method Free()
      requires !freed
      modifies this`freed
      ensures freed
    {
      freed := true;
    }

    ghost predicate Room(d: nat) {
      keys.Length == 2 * d - 1 && pointers.Length == 2 * d
    }
  }

  /** A leaf whose used slots hold exactly es: every used pointer is a record. */
  ghost predicate LeafHolds(n: Node, es: seq<Entry<Record>>)
    reads n`nk, n.keys, n.pointers
  {
    && n.isLeaf && n.nk == |es| && |es| <= n.keys.Length && |es| <= n.pointers.Length
    && forall i :: 0 <= i < |es| ==> n.keys[i] == es[i].key && n.pointers[i] == Rec(es[i].value)
  }

  ghost function KidPtrs(ids: seq<Node>): (r: seq<Ptr>)
    ensures |r| == |ids|
    ensures forall i :: 0 <= i < |ids| ==> r[i] == Child(ids[i])
  {
    seq(|ids|, i requires 0 <= i < |ids| => Child(ids[i]))
  }

  /** An internal node with separators ks above the nodes ids: every used pointer is a node. */
  ghost predicate InnerHolds(n: Node, ks: seq<Key>, ids: seq<Node>)
    reads n`nk, n.keys, n.pointers
  {
    && !n.isLeaf && n.nk == |ks| && |ids| == |ks| + 1 && |ks| <= n.keys.Length && |ids| <= n.pointers.Length
    && n.keys[..|ks|] == ks && n.pointers[..|ids|] == KidPtrs(ids)
  }

  /** No other node of s shares an array with n. */
  ghost predicate OwnArrays(n: Node, s: set<Node>) {
    forall m :: m in s && m != n ==> m.keys != n.keys && m.pointers != n.pointers
  }

  /** No two nodes share an array. */
  ghost predicate Apart(s: set<Node>) {
    forall n :: n in s ==> OwnArrays(n, s)
  }

  ghost function KeyArrays(s: set<Node>): set<array<Key>> {
    set n | n in s :: n.keys
  }

  ghost function PtrArrays(s: set<Node>): set<array<Ptr>> {
    set n | n in s :: n.pointers
  }

  /** The arrays of nodes outside c are none of c's. */
  lemma ArraysOutside(s: set<Node>, c: set<Node>)
    requires Apart(s) && c <= s
    ensures forall n :: n in s - c ==> n.keys !in KeyArrays(c) && n.pointers !in PtrArrays(c)
  {
    forall n | n in s - c
      ensures n.keys !in KeyArrays(c) && n.pointers !in PtrArrays(c)
    {
      assert OwnArrays(n, s);
    }
  }

  /** The leaf that follows, if there is one. */
  ghost function NextOf(n: Node): set<Node>
    reads n`next
  {
    if n.next == null then {} else {n.next}
  }

  /** The two shifting loops both cases of `split_node` share: a new child after child idx. */
  method AdoptChild(parent: Node, idx: nat, sibling: Node, sep: Key, ghost d: nat, ghost ks: seq<Key>,
                    ghost ids: seq<Node>)
    requires parent.Room(d) && InnerHolds(parent, ks, ids) && idx <= |ks| < 2 * d - 1
    modifies parent`nk, parent.keys, parent.pointers
    ensures InnerHolds(parent, InsertAt(ks, idx, sep), InsertAt(ids, idx + 1, sibling))
  {
    InsertSlot(parent.pointers, idx + 1, parent.nk + 1, Child(sibling));
    InsertSlot(parent.keys, idx, parent.nk, sep);
    parent.nk := parent.nk + 1;
    assert KidPtrs(InsertAt(ids, idx + 1, sibling)) == InsertAt(KidPtrs(ids), idx + 1, Child(sibling));
  }

  /** Threads a new leaf into the chain after child. */
  method LinkAfter(child: Node, sibling: Node)
    requires child.next != child && sibling != child && child.next != sibling
    modifies child`next, sibling`next, sibling`previous, NextOf(child)`previous
    ensures sibling.next == old(child.next) && sibling.previous == child && child.next == sibling
    ensures old(child.next) != null ==> old(child.next).previous == sibling
  {
    sibling.next := child.next;
    if sibling.next != null {
      sibling.next.previous := sibling;
    }
    child.next := sibling;
    sibling.previous := child;
  }

  /** Moves the last d keys and records of a full leaf to a new node. */
  method HalveLeaf(child: Node, d: nat, ghost es: seq<Entry<Record>>) returns (sibling: Node)
    requires d >= 2 && child.Room(d) && LeafHolds(child, es) && |es| == 2 * d - 1
    modifies child`nk
    ensures fresh(sibling) && fresh(sibling.keys) && fresh(sibling.pointers)
    ensures sibling.Room(d) && !sibling.freed && LeafHolds(sibling, es[d - 1..]) && LeafHolds(child, es[..d - 1])
  {
    sibling := new Node(d, child.isLeaf);
    sibling.nk := d;
    ghost var tail := es[d - 1..];
    for i := 0 to d
      invariant LeafHolds(child, es) && sibling.nk == d && !sibling.freed
      invariant forall m :: 0 <= m < i ==> sibling.keys[m] == tail[m].key
      invariant forall m :: 0 <= m < i ==> sibling.pointers[m] == Rec(tail[m].value)
    {
      sibling.keys[i] := child.keys[i + d - 1];
      sibling.pointers[i] := child.pointers[i + d - 1];
    }
    child.nk := d - 1;
  }

  /** Moves the last d-1 keys and the last d children of a full internal node to a new node. */
  method HalveInner(child: Node, d: nat, ghost ks: seq<Key>, ghost ids: seq<Node>) returns (sibling: Node)
    requires d >= 2 && child.Room(d) && InnerHolds(child, ks, ids) && |ks| == 2 * d - 1
    modifies child`nk
    ensures fresh(sibling) && fresh(sibling.keys) && fresh(sibling.pointers)
    ensures sibling.Room(d) && !sibling.freed
    ensures InnerHolds(sibling, ks[d..], ids[d..]) && InnerHolds(child, ks[..d - 1], ids[..d])
  {
    sibling := new Node(d, child.isLeaf);
    sibling.nk := d - 1;
    CopyTail(sibling.keys, child.keys, d, d - 1);
    CopyTail(sibling.pointers, child.pointers, d, d);
    child.nk := d - 1;
    assert child.pointers[..2 * d] == KidPtrs(ids) && child.keys[..2 * d - 1] == ks;
    assert KidPtrs(ids[d..]) == KidPtrs(ids)[d..] && KidPtrs(ids[..d]) == KidPtrs(ids)[..d];
    assert child.keys[..d - 1] == ks[..d - 1] && child.keys[d..2 * d - 1] == ks[d..];
    assert child.pointers[..d] == KidPtrs(ids)[..d] && child.pointers[d..2 * d] == KidPtrs(ids)[d..];
  }

  /** `split_node` on a full leaf, which also threads the new leaf into the chain. */
  method SplitLeaf(idx: nat, parent: Node, child: Node, d: nat,
                   ghost es: seq<Entry<Record>>, ghost ks: seq<Key>, ghost ids: seq<Node>)
    returns (sibling: Node)
    requires d >= 2 && parent.Room(d) && child.Room(d)
    requires LeafHolds(child, es) && |es| == 2 * d - 1 && InnerHolds(parent, ks, ids) && idx <= |ks| < 2 * d - 1
    requires parent.keys != child.keys && parent.pointers != child.pointers && child.next != child
    modifies parent`nk, parent.keys, parent.pointers, child`nk, child`next, NextOf(child)`previous
    ensures fresh(sibling) && fresh(sibling.keys) && fresh(sibling.pointers)
    ensures sibling.Room(d) && !sibling.freed && LeafHolds(sibling, es[d - 1..]) && LeafHolds(child, es[..d - 1])
    ensures InnerHolds(parent, InsertAt(ks, idx, es[d - 1].key), InsertAt(ids, idx + 1, sibling))
    ensures sibling.next == old(child.next) && sibling.previous == child && child.next == sibling
    ensures old(child.next) != null ==> old(child.next).previous == sibling
  {
    sibling := HalveLeaf(child, d, es);
    AdoptChild(parent, idx, sibling, sibling.keys[0], d, ks, ids);
    LinkAfter(child, sibling);
  }

  /** `split_node` on a full internal node: its middle key moves up. */
  method SplitInner(idx: nat, parent: Node, child: Node, d: nat,
                    ghost cks: seq<Key>, ghost cids: seq<Node>, ghost ks: seq<Key>, ghost ids: seq<Node>)
    returns (sibling: Node)
    requires d >= 2 && parent.Room(d) && child.Room(d)
    requires InnerHolds(child, cks, cids) && |cks| == 2 * d - 1 && InnerHolds(parent, ks, ids)
      && idx <= |ks| < 2 * d - 1
    requires parent != child && parent.keys != child.keys && parent.pointers != child.pointers
    modifies parent`nk, parent.keys, parent.pointers, child`nk
    ensures fresh(sibling) && fresh(sibling.keys) && fresh(sibling.pointers)
    ensures sibling.Room(d) && !sibling.freed
    ensures InnerHolds(sibling, cks[d..], cids[d..]) && InnerHolds(child, cks[..d - 1], cids[..d])
    ensures InnerHolds(parent, InsertAt(ks, idx, cks[d - 1]), InsertAt(ids, idx + 1, sibling))
  {
    assert child.keys[..2 * d - 1][d - 1] == cks[d - 1];
    sibling := HalveInner(child, d, cks, cids);
    AdoptChild(parent, idx, sibling, child.keys[d - 1], d, ks, ids);
  }

  /** The shifting loop: moves the keys above key, and their records, one slot right; returns the gap. */
  method ShiftLarger(keys: array<Key>, pointers: array<Ptr>, n: nat, key: Key) returns (i: nat)
    requires n < keys.Length && n < pointers.Length
    modifies keys, pointers
    ensures i <= n
    ensures i > 0 ==> old(keys[i - 1]) <= key
    ensures forall m :: i <= m < n ==> old(keys[m]) > key
    ensures forall m :: 0 <= m < i ==> keys[m] == old(keys[m]) && pointers[m] == old(pointers[m])
    ensures forall m :: i < m <= n ==> keys[m] == old(keys[m - 1]) && pointers[m] == old(pointers[m - 1])
  {
    i := n;
    while i > 0 && keys[i - 1] > key
      invariant 0 <= i <= n
      invariant forall m :: 0 <= m < i ==> keys[m] == old(keys[m]) && pointers[m] == old(pointers[m])
      invariant forall m :: i < m <= n ==> keys[m] == old(keys[m - 1]) && pointers[m] == old(pointers[m - 1])
      invariant forall m :: i <= m < n ==> old(keys[m]) > key
    {
      keys[i] := keys[i - 1];
      pointers[i] := pointers[i - 1];
      i := i - 1;
    }
  }

  /** The leaf case of `insert_not_full`: a new record at the key's place. */
  method InsertIntoLeaf(node: Node, key: Key, value: Value, ghost d: nat, ghost es: seq<Entry<Record>>)
    returns (rec: Record)
    requires node.Room(d) && LeafHolds(node, es) && |es| < 2 * d - 1 && Ascending(es) && !HasKey(es, key)
    modifies node`nk, node.keys, node.pointers
    ensures fresh(rec) && rec.value == value && !rec.freed
    ensures LeafHolds(node, Upsert(es, key, rec))
  {
    var i := ShiftLarger(node.keys, node.pointers, node.nk, key);
    rec := new Record(value);
    node.keys[i] := key;
    node.pointers[i] := Rec(rec);
    node.nk := node.nk + 1;
    InsertPosition(es, i, key, rec);
    Opened(node, es, i, key, rec);
  }

  /** The slots after the shift and the write, read off one by one. */
  lemma Opened(node: Node, es: seq<Entry<Record>>, i: nat, key: Key, rec: Record)
    requires i <= |es| < node.keys.Length && |es| < node.pointers.Length && node.isLeaf && node.nk == |es| + 1
    requires forall m :: 0 <= m < i ==> node.keys[m] == es[m].key && node.pointers[m] == Rec(es[m].value)
    requires node.keys[i] == key && node.pointers[i] == Rec(rec)
    requires forall m :: i < m <= |es| ==> node.keys[m] == es[m - 1].key && node.pointers[m] == Rec(es[m - 1].value)
    ensures LeafHolds(node, InsertAt(es, i, Entry(key, rec)))
  {
  }
}
