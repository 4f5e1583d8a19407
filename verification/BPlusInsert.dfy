/** `insert_not_full` on nodes in memory. */
module BPlusInsert {
  import opened Base
  import opened SortedMap
  import opened Arrays
  import opened BPlusShape
  import opened BPlusNode
  import opened BPlusHeap

  /** The nodes of t hold t, each once, and share no array. */
  ghost predicate Held(t: Shape, d: nat)
    reads Nodes(t)`nk, EntryArrays(Nodes(t)), ChildArrays(Nodes(t))
  {
    Rep(t, d) && Owned(t) && Apart(Nodes(t))
  }

  /** Nodes of t' that t does not have were allocated since. */
  twostate predicate Grown(t: Shape, new t': Shape)
    reads Nodes(t')
  {
    && Nodes(t) <= Nodes(t')
    && forall n :: n in Nodes(t') - Nodes(t) ==> fresh(n) && fresh(n.entries) && fresh(n.children) && !n.freed
  }

  lemma ApartGrow(s: set<Node>, c: set<Node>)
    requires Apart(s) && Apart(c)
    requires forall m, n :: m in s && n in c - s ==> m.entries != n.entries && m.children != n.children
    ensures Apart(s + c)
  {
  }

  /** Splitting grows a held tree by one fresh node. */
  twostate lemma HeldSplit(t: Shape, new i: nat, new d: nat, new sib: Node)
    requires t.Inner? && i < |t.kids| && i <= |t.ks| && Splittable(t.kids[i], d) && old(Held(t, d))
    requires fresh(sib) && fresh(sib.entries) && fresh(sib.children) && !sib.freed
    requires Rep(SplitTree(t, i, d, sib), d)
    requires forall n :: n in Nodes(t) ==> old(allocated(n))
    ensures Held(SplitTree(t, i, d, sib), d) && Grown(t, SplitTree(t, i, d, sib))
    ensures Nodes(SplitTree(t, i, d, sib)) == Nodes(t) + {sib}
  {
    OwnedSplit(t, i, d, sib, InsertAt(t.ks, i, Separator(t.kids[i], d)));
    ApartGrow(Nodes(t), {sib});
  }

  /** What an insertion below child j leaves alone. */
  twostate lemma RestFrame(t: Shape, new j: nat, new d: nat)
    requires old(Rep(t, d)) && t.Inner? && j < |t.kids| && Owned(t)
    requires forall n :: n in Nodes(t) && n !in Nodes(t.kids[j]) ==>
      old(allocated(n)) && unchanged(n`nk) && unchanged(n.entries) && unchanged(n.children)
    ensures Local(t, d)
    ensures forall m :: 0 <= m < |t.kids| && m != j ==> Rep(t.kids[m], d)
  {
    forall m | 0 <= m < |t.kids| && m != j
      ensures Rep(t.kids[m], d)
    {
      KidNodes(t.kids, m);
      OtherKid(t, j, m);
      RepFrame(t.kids[m], d);
    }
    assert old(Local(t, d));
    assert t.id !in Nodes(t.kids[j]);
  }

  lemma RepReplace(t: Shape, j: nat, c: Shape, d: nat)
    requires t.Inner? && j < |t.kids| && Rep(c, d) && c.id == t.kids[j].id && Local(t, d)
    requires forall m :: 0 <= m < |t.kids| && m != j ==> Rep(t.kids[m], d)
    ensures Rep(t.(kids := t.kids[j := c]), d)
  {
    assert Ids(t.kids[j := c]) == Ids(t.kids);
  }

  /** Nodes and ownership of a tree whose child j was rebuilt in place. */
  twostate lemma GrownReplace(t: Shape, new j: nat, new c: Shape)
    requires t.Inner? && j < |t.kids| && Owned(t) && Owned(c) && Apart(Nodes(t)) && Apart(Nodes(c))
    requires Grown(t.kids[j], c)
    requires forall n :: n in Nodes(t) ==> old(allocated(n))
    ensures var t' := t.(kids := t.kids[j := c]);
            Owned(t') && Apart(Nodes(t')) && Grown(t, t') && Nodes(t') == Nodes(t) + Nodes(c)
  {
    KidNodes(t.kids, j);
    OwnedReplace(t, j, c);
    ApartGrow(Nodes(t), Nodes(c));
  }

  /** The leaf case. */
  method InsertLeafCase(node: Node, key: Key, value: Value, ghost d: nat, ghost h: nat, ghost lo: int, ghost hi: int,
                        ghost t: Shape)
    returns (ghost t': Shape)
    requires d >= 2 && t.id == node && t.Leaf? && Rep(t, d) && Wf(t, d, h, lo, hi) && lo <= key < hi
    requires t.Size() < 2 * d - 1 && !HasKey(Entries(t), key)
    modifies node`nk, node.entries
    ensures t' == Leaf(node, Upsert(t.es, key, value)) && Rep(t', d) && Wf(t', d, h, lo, hi)
    ensures t'.Size() == t.Size() + 1
    ensures Entries(t') == Upsert(Entries(t), key, value)
  {
    LeafEntries(t);
    InsertIntoLeaf(node, key, value, d);
    t' := Leaf(node, Upsert(t.es, key, value));
    LeafEntries(t');
    UpsertAscending(t.es, key, value);
    UpsertWithin(t.es, key, value, lo, hi);
  }

  /** What the nodes hold after the child was rebuilt. */
  twostate lemma HeldBelow(t: Shape, new j: nat, new c: Shape, new d: nat)
    requires t.Inner? && j < |t.kids| && old(Held(t, d)) && Held(c, d) && c.id == t.kids[j].id
    requires Grown(t.kids[j], c)
    requires forall n :: n in Nodes(t) ==> old(allocated(n))
    requires forall n :: n in Nodes(t) && n !in Nodes(t.kids[j]) ==>
      unchanged(n`nk) && unchanged(n.entries) && unchanged(n.children)
    ensures Held(t.(kids := t.kids[j := c]), d) && Grown(t, t.(kids := t.kids[j := c]))
    ensures Nodes(t.(kids := t.kids[j := c])) == Nodes(t) + Nodes(c)
  {
    RestFrame(t, j, d);
    RepReplace(t, j, c, d);
    GrownReplace(t, j, c);
  }

  /** `insert_not_full` on the child j that bounds the absent key. */
  method InsertIntoChild(node: Node, j: nat, key: Key, value: Value, d: nat, ghost h: nat, ghost lo: int, ghost hi: int,
                         ghost t: Shape, ghost pre: seq<Node>, ghost post: seq<Node>, ghost ls: seq<Node>)
    returns (ghost t': Shape)
    requires d >= 2 && t.id == node && t.Inner? && Held(t, d) && Wf(t, d, h, lo, hi) && lo <= key < hi
    requires Bounds(t.ks, j, key) && t.kids[j].Size() < 2 * d - 1 && !HasKey(Entries(t), key)
    requires ls == pre + Row(t) + post && Chain(ls)
    modifies Nodes(t)`nk, EntryArrays(Nodes(t)), ChildArrays(Nodes(t))
    modifies Members(ls)`next, Members(ls)`previous
    ensures Held(t', d) && Grown(t, t') && Bound(t, t', key, value, d, h, lo, hi)
    ensures Chain(pre + Row(t') + post)
    decreases h, 0
  {
    hide Upsert, HasKey;
    KidNodes(t.kids, j);
    NodesAllocated(t);
    assert Rep(t.kids[j], d);
    ghost var a, b := Ids(ForestLeaves(t.kids[..j])), Ids(ForestLeaves(t.kids[j + 1..]));
    RowAround(t, j, pre, post);
    assert KidWf(t.ks, t.kids[j], j, d, h - 1, lo, hi);
    AbsentBelow(t.kids, j, key);
    ghost var c := InsertWithin(node.children[j], key, value, d, h - 1, Lo(t.ks, lo, j), Hi(t.ks, hi, j),
                                t.kids[j], pre + a, b + post, ls, Nodes(t));
    HeldBelow(t, j, c, d);
    BoundBelow(t, j, c, key, value, d, h, lo, hi);
    RowReplace(t, j, c, pre, post);
    t' := t.(kids := t.kids[j := c]);
  }

  /** `insert_not_full`, seen from the nodes s of a larger tree: the others are untouched. */
  method InsertWithin(node: Node, key: Key, value: Value, d: nat, ghost h: nat, ghost lo: int, ghost hi: int,
                      ghost t: Shape, ghost pre: seq<Node>, ghost post: seq<Node>, ghost ls: seq<Node>,
                      ghost s: set<Node>)
    returns (ghost t': Shape)
    requires d >= 2 && t.id == node && Held(t, d) && Wf(t, d, h, lo, hi) && lo <= key < hi
    requires t.Size() < 2 * d - 1 && !HasKey(Entries(t), key)
    requires ls == pre + Row(t) + post && Chain(ls)
    requires Nodes(t) <= s && Apart(s)
    modifies Nodes(t)`nk, EntryArrays(Nodes(t)), ChildArrays(Nodes(t))
    modifies Members(ls)`next, Members(ls)`previous
    ensures Held(t', d) && Grown(t, t') && Bound(t, t', key, value, d, h, lo, hi)
    ensures Chain(pre + Row(t') + post)
    ensures forall n :: n in s && n !in Nodes(t) ==>
      unchanged(n`nk) && unchanged(n.entries) && unchanged(n.children)
    decreases h, 3
  {
    ArraysOutside(s, Nodes(t));
    t' := InsertNotFull(node, key, value, d, h, lo, hi, t, pre, post, ls);
  }

  /** `insert_not_full`: binds an absent key below a node that has room. */
  method InsertNotFull(node: Node, key: Key, value: Value, d: nat, ghost h: nat, ghost lo: int, ghost hi: int,
                       ghost t: Shape, ghost pre: seq<Node>, ghost post: seq<Node>, ghost ls: seq<Node>)
    returns (ghost t': Shape)
    requires d >= 2 && t.id == node && Held(t, d) && Wf(t, d, h, lo, hi) && lo <= key < hi
    requires t.Size() < 2 * d - 1 && !HasKey(Entries(t), key)
    requires ls == pre + Row(t) + post && Chain(ls)
    modifies Nodes(t)`nk, EntryArrays(Nodes(t)), ChildArrays(Nodes(t))
    modifies Members(ls)`next, Members(ls)`previous
    ensures Held(t', d) && Grown(t, t') && Bound(t, t', key, value, d, h, lo, hi)
    ensures Chain(pre + Row(t') + post)
    decreases h, 2
  {
    assert Local(t, d);
    if node.isLeaf {
      t' := InsertLeafCase(node, key, value, d, h, lo, hi, t);
      assert Row(t') == Row(t);
      ChainFrame(ls);
    } else {
      var j := node.nk;
      while j > 0 && node.entries[j - 1].key > key
        invariant 0 <= j <= node.nk
        invariant j < node.nk ==> key < node.entries[j].key
      {
        j := j - 1;
      }
      assert Rep(t.kids[j], d);
      assert Local(t.kids[j], d) && node.children[j] == t.kids[j].id;
      if node.children[j].nk == 2 * d - 1 {
        t' := SplitThenInsert(node, j, key, value, d, h, lo, hi, t, pre, post, ls);
      } else {
        t' := InsertIntoChild(node, j, key, value, d, h, lo, hi, t, pre, post, ls);
      }
    }
  }

  twostate lemma GrownFurther(t: Shape, new t1: Shape, new t': Shape, new sib: Node)
    requires Nodes(t1) == Nodes(t) + {sib} && Nodes(t1) <= Nodes(t')
    requires fresh(sib) && fresh(sib.entries) && fresh(sib.children) && !sib.freed
    requires forall n :: n in Nodes(t') - Nodes(t1) ==> fresh(n) && fresh(n.entries) && fresh(n.children) && !n.freed
    ensures Grown(t, t')
  {
  }

  /** The internal case with a full child: split it, choose a side with a strict comparison. */
  method SplitThenInsert(node: Node, j: nat, key: Key, value: Value, d: nat, ghost h: nat, ghost lo: int, ghost hi: int,
                         ghost t: Shape, ghost pre: seq<Node>, ghost post: seq<Node>, ghost ls: seq<Node>)
    returns (ghost t': Shape)
    requires d >= 2 && t.id == node && t.Inner? && Held(t, d) && Wf(t, d, h, lo, hi) && lo <= key < hi
    requires t.Size() < 2 * d - 1 && !HasKey(Entries(t), key)
    requires Bounds(t.ks, j, key) && Splittable(t.kids[j], d)
    requires ls == pre + Row(t) + post && Chain(ls)
    modifies Nodes(t)`nk, EntryArrays(Nodes(t)), ChildArrays(Nodes(t))
    modifies Members(ls)`next, Members(ls)`previous
    ensures Held(t', d) && Grown(t, t') && Bound(t, t', key, value, d, h, lo, hi)
    ensures Chain(pre + Row(t') + post) && t'.Size() > t.Size()
    decreases h, 1
  {
    hide Held, Wf, Chain, HasKey, Upsert, Entries, Row, Nodes;
    var j', sib;
    ghost var t1;
    j', t1, sib := SplitAndChoose(node, j, key, d, h, lo, hi, t, pre, post, ls);
    label mid:
    t' := InsertIntoChild(node, j', key, value, d, h, lo, hi, t1, pre, post, pre + Row(t1) + post);
    assert Grown@mid(t1, t');
    GrownFurther(t, t1, t', sib);
  }

  /** Splits the full child j and chooses the half that bounds the key. */
  method SplitAndChoose(node: Node, j: nat, key: Key, d: nat, ghost h: nat, ghost lo: int, ghost hi: int,
                        ghost t: Shape, ghost pre: seq<Node>, ghost post: seq<Node>, ghost ls: seq<Node>)
    returns (j': nat, ghost t1: Shape, sib: Node)
    requires d >= 2 && t.id == node && t.Inner? && Held(t, d) && Wf(t, d, h, lo, hi) && lo <= key < hi
    requires t.Size() < 2 * d - 1 && !HasKey(Entries(t), key)
    requires Bounds(t.ks, j, key) && Splittable(t.kids[j], d)
    requires ls == pre + Row(t) + post && Chain(ls)
    modifies Nodes(t)`nk, EntryArrays(Nodes(t)), ChildArrays(Nodes(t))
    modifies Members(ls)`next, Members(ls)`previous
    ensures fresh(sib) && fresh(sib.entries) && fresh(sib.children) && !sib.freed
    ensures Held(t1, d) && Nodes(t1) == Nodes(t) + {sib}
    ensures t1.id == node && t1.Inner? && Wf(t1, d, h, lo, hi) && t1.Size() == t.Size() + 1
    ensures Entries(t1) == Entries(t)
    ensures Bounds(t1.ks, j', key) && t1.kids[j'].Size() < 2 * d - 1
    ensures Chain(pre + Row(t1) + post)
    ensures Members(pre + Row(t1) + post) <= Members(ls) + {sib}
  {
    NodesAllocated(t);
    KidNodes(t.kids, j);
    sib := SplitChild(node, j, d, t, pre, post, ls);
    t1 := SplitTree(t, j, d, sib);
    HeldSplit(t, j, d, sib);
    SplitBounds(t, j, d, h, lo, hi, sib, key);
    j' := j;
    if node.entries[j].key < key {
      j' := j' + 1;
    }
  }
}
