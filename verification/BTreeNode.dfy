/** A node of the in-memory B-tree and the steps that touch one or two nodes. */
module BTreeNode {
  import opened Arrays

  /** `struct btree_dram_node` and `struct bt_dram_node`: E is what an entry slot holds, an entry or a pointer
      to one. */
  class Node<E(0)> {
    const isLeaf: bool
    var nk: nat
    const entries: array<E>
    const children: array<Node?<E>>
    ghost var freed: bool

    /** `create_node`. */
    constructor (d: nat, leaf: bool)
      requires d >= 2
      ensures isLeaf == leaf && nk == 0 && !freed
      ensures Room(d) && fresh(entries) && fresh(children)
    {
      isLeaf := leaf;
      nk := 0;
      entries := new E[2 * d - 1];
      children := new Node?<E>[2 * d];
      freed := false;
    }

    /** `free`: allowed once. */
    method Free()
      requires !freed
      modifies this`freed
      ensures freed
    {
      freed := true;
    }

    ghost predicate Room(d: nat) {
      entries.Length == 2 * d - 1 && children.Length == 2 * d
    }

    ghost function Es(): seq<E>
      requires nk <= entries.Length
      reads this`nk, entries
    {
      entries[..nk]
    }

    ghost function Kids(): seq<Node?<E>>
      requires nk < children.Length
      reads this`nk, children
    {
      children[..nk + 1]
    }
  }

  /** No other node of s shares an array with n. */
  ghost predicate OwnArrays<E(0)>(n: Node<E>, s: set<Node<E>>) {
    forall m :: m in s && m != n ==> m.entries != n.entries && m.children != n.children
  }

  /** No two nodes share an array. */
  ghost predicate Apart<E(0)>(s: set<Node<E>>) {
    forall n :: n in s ==> OwnArrays(n, s)
  }

  ghost function EntryArrays<E(0)>(s: set<Node<E>>): set<array<E>> {
    set n | n in s :: n.entries
  }

  ghost function ChildArrays<E(0)>(s: set<Node<E>>): set<array<Node?<E>>> {
    set n | n in s :: n.children
  }

  /** Every node has its room, so no entry array is a child array: their lengths differ. */
  ghost predicate Roomy<E(0)>(s: set<Node<E>>, d: nat) {
    forall n :: n in s ==> n.Room(d)
  }

  /** The arrays of nodes outside c are none of c's. */
  lemma ArraysOutside<E(0)>(s: set<Node<E>>, c: set<Node<E>>, d: nat)
    requires Apart(s) && c <= s && Roomy(s, d)
    ensures forall n :: n in s - c ==> n.entries !in EntryArrays(c) && n.children !in ChildArrays(c)
    ensures forall a :: a in EntryArrays(c) ==> a.Length == 2 * d - 1
    ensures forall a :: a in ChildArrays(c) ==> a.Length == 2 * d
  {
    forall n | n in s - c
      ensures n.entries !in EntryArrays(c) && n.children !in ChildArrays(c)
    {
      assert OwnArrays(n, s);
    }
  }

  /** Moves the last d-1 entries, and of an internal node the last d children, to a new node. */
  method Halve<E(0)>(child: Node<E>, d: nat) returns (sibling: Node<E>)
    requires d >= 2 && child.Room(d) && child.nk == 2 * d - 1
    modifies child`nk
    ensures fresh(sibling) && fresh(sibling.entries) && fresh(sibling.children)
    ensures sibling.Room(d) && sibling.isLeaf == child.isLeaf && !sibling.freed
    ensures sibling.nk == d - 1 && sibling.Es() == old(child.Es())[d..]
    ensures !child.isLeaf ==> sibling.Kids() == old(child.Kids())[d..]
    ensures child.nk == d - 1
  {
    sibling := new Node<E>(d, child.isLeaf);
    sibling.nk := d - 1;
    CopyTail(sibling.entries, child.entries, d, d - 1);
    if !child.isLeaf {
      CopyTail(sibling.children, child.children, d, d);
    }
    child.nk := d - 1;
  }

  /** The parent's part of `split_node`: a new child after child idx and an entry before it. */
  method AdoptChild<E(0)>(parent: Node<E>, idx: nat, sibling: Node<E>, mid: E, ghost d: nat)
    requires parent.Room(d) && idx <= parent.nk < 2 * d - 1
    modifies parent`nk, parent.entries, parent.children
    ensures parent.nk == old(parent.nk) + 1
    ensures parent.Es() == InsertAt(old(parent.Es()), idx, mid)
    ensures parent.Kids() == InsertAt(old(parent.Kids()), idx + 1, sibling)
  {
    InsertSlot<Node?<E>>(parent.children, idx + 1, parent.nk + 1, sibling);
    InsertSlot(parent.entries, idx, parent.nk, mid);
    parent.nk := parent.nk + 1;
  }

  /** `split_node`. */
  method Split<E(0)>(idx: nat, parent: Node<E>, child: Node<E>, d: nat) returns (sibling: Node<E>)
    requires d >= 2 && parent.Room(d) && child.Room(d) && child.nk == 2 * d - 1 && idx <= parent.nk < 2 * d - 1
    requires parent != child && parent.entries != child.entries && parent.children != child.children
    modifies parent`nk, parent.entries, parent.children, child`nk
    ensures fresh(sibling) && fresh(sibling.entries) && fresh(sibling.children)
    ensures sibling.Room(d) && sibling.isLeaf == child.isLeaf && !sibling.freed
    ensures sibling.nk == d - 1 && sibling.Es() == old(child.Es())[d..]
    ensures !child.isLeaf ==> sibling.Kids() == old(child.Kids())[d..]
    ensures child.nk == d - 1
    ensures parent.nk == old(parent.nk) + 1
    ensures parent.Es() == InsertAt(old(parent.Es()), idx, old(child.Es())[d - 1])
    ensures parent.Kids() == InsertAt(old(parent.Kids()), idx + 1, sibling)
  {
    sibling := Halve(child, d);
    AdoptChild(parent, idx, sibling, child.entries[d - 1], d);
  }
}
