/** A node of the in-memory B+-tree and the steps that touch one or two nodes. */
module BPlusNode {
  import opened Base
  import opened SortedMap
  import opened Arrays

  /** `struct bplustree_dram_node`. */
  class Node {
    const isLeaf: bool
    var nk: nat
    const entries: array<Entry<Value>>
    const children: array<Node?>
    var next: Node?
    var previous: Node?
    ghost var freed: bool

    /** `create_node`: room for 2d-1 entries and 2d children. */
    constructor (d: nat, leaf: bool)
      requires d >= 2
      ensures isLeaf == leaf && nk == 0 && next == null && previous == null && !freed
      ensures Room(d) && fresh(entries) && fresh(children)
    {
      isLeaf := leaf;
      nk := 0;
      entries := new Entry<Value>[2 * d - 1];
      children := new Node?[2 * d];
      next, previous := null, null;
      freed := false;
    }

    /** `free`: allowed once. */
    method Free()
      requires !freed
      modifies this`freed
      ensures freed
    {
      freed := true;
    }

    ghost predicate Room(d: nat) {
      entries.Length == 2 * d - 1 && children.Length == 2 * d
    }

    /** The used entries. */
    ghost function Es(): seq<Entry<Value>>
      requires nk <= entries.Length
      reads this`nk, entries
    {
      entries[..nk]
    }

    /** The used children of an internal node. */
    ghost function Kids(): seq<Node?>
      requires nk < children.Length
      reads this`nk, children
    {
      children[..nk + 1]
    }
  }

  /** No other node of s shares an array with n. */
  ghost predicate OwnArrays(n: Node, s: set<Node>) {
    forall m :: m in s && m != n ==> m.entries != n.entries && m.children != n.children
  }

  /** No two nodes share an array. */
  ghost predicate Apart(s: set<Node>) {
    forall n :: n in s ==> OwnArrays(n, s)
  }

  /** Opens slot idx among the first end entries and writes the separator there; of the
      entry only the key counts in an internal node, and a leaf split writes only the key. */
  method InsertSeparator(es: array<Entry<Value>>, idx: nat, end: nat, sep: Entry<Value>, keyOnly: bool)
    requires idx <= end < es.Length
    modifies es
    ensures Keys(es[..end + 1]) == InsertAt(old(Keys(es[..end])), idx, sep.key)
  {
    ghost var ks := Keys(es[..end]);
    ShiftRight(es, idx, end);
    if keyOnly {
      es[idx] := es[idx].(key := sep.key);
    } else {
      es[idx] := sep;
    }
    forall m | 0 <= m < end + 1
      ensures es[m].key == InsertAt(ks, idx, sep.key)[m]
    {
      if m > idx { assert es[m].key == ks[m - 1]; } else if m < idx { assert es[m].key == ks[m]; }
    }
  }

  /** The two shifting loops both cases of `split_node` share: a new child after child idx. */
  method AdoptChild(parent: Node, idx: nat, sibling: Node, sep: Entry<Value>, keyOnly: bool, ghost d: nat)
    requires parent.Room(d) && idx <= parent.nk < 2 * d - 1
    modifies parent`nk, parent.entries, parent.children
    ensures parent.nk == old(parent.nk) + 1
    ensures Keys(parent.Es()) == InsertAt(old(Keys(parent.Es())), idx, sep.key)
    ensures parent.Kids() == InsertAt(old(parent.Kids()), idx + 1, sibling)
  {
    InsertSlot<Node?>(parent.children, idx + 1, parent.nk + 1, sibling);
    InsertSeparator(parent.entries, idx, parent.nk, sep, keyOnly);
    parent.nk := parent.nk + 1;
  }

  ghost function EntryArrays(s: set<Node>): set<array<Entry<Value>>> {
    set n | n in s :: n.entries
  }

  ghost function ChildArrays(s: set<Node>): set<array<Node?>> {
    set n | n in s :: n.children
  }

  /** The arrays of nodes outside c are none of c's. */
  lemma ArraysOutside(s: set<Node>, c: set<Node>)
    requires Apart(s) && c <= s
    ensures forall n :: n in s - c ==> n.entries !in EntryArrays(c) && n.children !in ChildArrays(c)
  {
    forall n | n in s - c
      ensures n.entries !in EntryArrays(c) && n.children !in ChildArrays(c)
    {
      assert OwnArrays(n, s);
    }
  }

  /** The leaf that follows, if there is one. */
  ghost function NextOf(n: Node): set<Node>
    reads n`next
  {
    if n.next == null then {} else {n.next}
  }

  /** Threads a new leaf into the chain after child. */
  method LinkAfter(child: Node, sibling: Node)
    requires child.next != child && sibling != child && child.next != sibling
    modifies child`next, sibling`next, sibling`previous, NextOf(child)`previous
    ensures sibling.next == old(child.next) && sibling.previous == child && child.next == sibling
    ensures old(child.next) != null ==> old(child.next).previous == sibling
  {
    sibling.next := child.next;
    if sibling.next != null {
      sibling.next.previous := sibling;
    }
    child.next := sibling;
    sibling.previous := child;
  }

  /** Moves the last d entries of a full leaf to a new node. */
  method HalveLeaf(child: Node, d: nat) returns (sibling: Node)
    requires d >= 2 && child.Room(d) && child.isLeaf && child.nk == 2 * d - 1
    modifies child`nk
    ensures fresh(sibling) && fresh(sibling.entries) && fresh(sibling.children)
    ensures sibling.Room(d) && sibling.isLeaf && !sibling.freed
    ensures sibling.nk == d && sibling.Es() == old(child.Es())[d - 1..]
    ensures child.nk == d - 1
  {
    sibling := new Node(d, child.isLeaf);
    sibling.nk := d;
    CopyTail(sibling.entries, child.entries, d - 1, d);
    child.nk := d - 1;
  }

  /** Moves the last d-1 entries and the last d children of a full internal node to a new node. */
  method HalveInner(child: Node, d: nat) returns (sibling: Node)
    requires d >= 2 && child.Room(d) && !child.isLeaf && child.nk == 2 * d - 1
    modifies child`nk
    ensures fresh(sibling) && fresh(sibling.entries) && fresh(sibling.children)
    ensures sibling.Room(d) && !sibling.isLeaf && !sibling.freed
    ensures sibling.nk == d - 1 && sibling.Es() == old(child.Es())[d..] && sibling.Kids() == old(child.Kids())[d..]
    ensures child.nk == d - 1
  {
    sibling := new Node(d, child.isLeaf);
    sibling.nk := d - 1;
    CopyTail(sibling.entries, child.entries, d, d - 1);
    CopyTail(sibling.children, child.children, d, d);
    child.nk := d - 1;
  }

  /** `split_node` on a full leaf, which also threads the new leaf into the chain. */
  method SplitLeaf(idx: nat, parent: Node, child: Node, d: nat) returns (sibling: Node)
    requires d >= 2 && parent.Room(d) && child.Room(d)
    requires child.isLeaf && child.nk == 2 * d - 1 && idx <= parent.nk < 2 * d - 1
    requires parent != child && parent.entries != child.entries && child.next != child
    modifies parent`nk, parent.entries, parent.children, child`nk, child`next, NextOf(child)`previous
    ensures fresh(sibling) && fresh(sibling.entries) && fresh(sibling.children)
    ensures sibling.Room(d) && sibling.isLeaf && !sibling.freed
    ensures sibling.nk == d && sibling.Es() == old(child.Es())[d - 1..]
    ensures child.nk == d - 1
    ensures parent.nk == old(parent.nk) + 1
    ensures Keys(parent.Es()) == InsertAt(old(Keys(parent.Es())), idx, old(child.Es())[d - 1].key)
    ensures parent.Kids() == InsertAt(old(parent.Kids()), idx + 1, sibling)
    ensures sibling.next == old(child.next) && sibling.previous == child && child.next == sibling
    ensures old(child.next) != null ==> old(child.next).previous == sibling
  {
    sibling := HalveLeaf(child, d);
    assert sibling.Es()[0] == old(child.Es())[d - 1];
    AdoptChild(parent, idx, sibling, sibling.entries[0], true, d);
    LinkAfter(child, sibling);
  }

  /** `split_node` on a full internal node: its middle entry moves up. */
  method SplitInner(idx: nat, parent: Node, child: Node, d: nat) returns (sibling: Node)
    requires d >= 2 && parent.Room(d) && child.Room(d)
    requires !child.isLeaf && child.nk == 2 * d - 1 && idx <= parent.nk < 2 * d - 1
    requires parent != child && parent.entries != child.entries && parent.children != child.children
    modifies parent`nk, parent.entries, parent.children, child`nk
    ensures fresh(sibling) && fresh(sibling.entries) && fresh(sibling.children)
    ensures sibling.Room(d) && !sibling.isLeaf && !sibling.freed
    ensures sibling.nk == d - 1 && sibling.Es() == old(child.Es())[d..] && sibling.Kids() == old(child.Kids())[d..]
    ensures child.nk == d - 1
    ensures parent.nk == old(parent.nk) + 1
    ensures Keys(parent.Es()) == InsertAt(old(Keys(parent.Es())), idx, old(child.Es())[d - 1].key)
    ensures parent.Kids() == InsertAt(old(parent.Kids()), idx + 1, sibling)
  {
    sibling := HalveInner(child, d);
    AdoptChild(parent, idx, sibling, child.entries[d - 1], false, d);
  }

  /** The leaf case of `insert_not_full`: shift the larger entries and write the new one. */
  method InsertIntoLeaf(node: Node, key: Key, value: Value, ghost d: nat)
    requires node.Room(d) && node.nk < 2 * d - 1
    requires Ascending(node.Es()) && !HasKey(node.Es(), key)
    modifies node`nk, node.entries
    ensures node.nk == old(node.nk) + 1
    ensures node.Es() == Upsert(old(node.Es()), key, value)
  {
    InsertSorted(node.entries, node.nk, key, value);
    node.nk := node.nk + 1;
  }

  /** Binds an absent key among the first n entries. */
  method InsertSorted(a: array<Entry<Value>>, n: nat, key: Key, value: Value)
    requires n < a.Length && Ascending(a[..n]) && !HasKey(a[..n], key)
    modifies a
    ensures a[..n + 1] == Upsert(old(a[..n]), key, value)
  {
    ghost var es := a[..n];
    var i := ShiftLarger(a, n, key);
    a[i] := Entry(key, value);
    InsertPosition(es, i, key, value);
    assert a[..n + 1] == InsertAt(es, i, Entry(key, value));
  }

  /** The shifting loop: moves the entries above key one slot right and returns the gap. */
  method ShiftLarger(a: array<Entry<Value>>, n: nat, key: Key) returns (i: nat)
    requires n < a.Length
    modifies a
    ensures i <= n
    ensures i > 0 ==> old(a[i - 1]).key <= key
    ensures forall m :: i <= m < n ==> old(a[m]).key > key
    ensures forall m :: 0 <= m < i ==> a[m] == old(a[m])
    ensures forall m :: i < m <= n ==> a[m] == old(a[m - 1])
  {
    i := n;
    while i > 0 && a[i - 1].key > key
      invariant 0 <= i <= n
      invariant forall m :: 0 <= m < i ==> a[m] == old(a[m])
      invariant forall m :: i < m <= n ==> a[m] == old(a[m - 1])
      invariant forall m :: i <= m < n ==> old(a[m]).key > key
    {
      a[i] := a[i - 1];
      i := i - 1;
    }
  }

}
