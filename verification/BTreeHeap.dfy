/** How nodes in memory represent a B-tree value, and `split_node` and `insert_not_full` on both. */
module BTreeHeap {
  import opened Base
  import opened Arrays
  import opened BTreeShape
  import opened BTreeNode

  type Shape<E(0), V> = BTree<Node<E>, V>

  /** What the entry slots of a node hold for the entries es: `slot` gives the slot of one entry. */
  ghost function Slots<E, V>(es: seq<Entry<V>>, slot: Entry<V> -> E): (r: seq<E>)
    ensures |r| == |es|
    ensures forall i :: 0 <= i < |es| ==> r[i] == slot(es[i])
  {
    seq(|es|, i requires 0 <= i < |es| => slot(es[i]))
  }

  /** The node at the root of t holds exactly what t says. */
  ghost predicate Local<E(0), V>(t: Shape<E, V>, d: nat, slot: Entry<V> -> E)
    reads t.id`nk, t.id.entries, t.id.children
  {
    && t.id.Room(d)
    && t.id.nk == |t.es| <= 2 * d - 1 && t.id.Es() == Slots(t.es, slot) && t.id.isLeaf == t.BLeaf?
    && (t.BInner? ==> |t.kids| == |t.es| + 1 && t.id.Kids() == BIds(t.kids))
  }

  ghost predicate Rep<E(0), V>(t: Shape<E, V>, d: nat, slot: Entry<V> -> E)
    reads BNodes(t)`nk, EntryArrays(BNodes(t)), ChildArrays(BNodes(t))
    decreases t
  {
    Local(t, d, slot)
      && (t.BInner? ==> (AllBKidNodes(t.kids); forall i :: 0 <= i < |t.kids| ==> Rep(t.kids[i], d, slot)))
  }

  lemma {:induction false} NodesAllocated<E(0), V>(t: Shape<E, V>)
    ensures forall n :: n in BNodes(t) ==> allocated(n)
    decreases t
  {
    if t.BInner? {
      forall n | n in BForestNodes(t.kids) ensures allocated(n) {
        var i := BNodeOf(t.kids, n);
        NodesAllocated(t.kids[i]);
      }
    }
  }

  lemma {:induction false} RepRoomy<E(0), V>(t: Shape<E, V>, d: nat, slot: Entry<V> -> E)
    requires Rep(t, d, slot)
    ensures Roomy(BNodes(t), d)
    decreases t
  {
    assert Local(t, d, slot);
    if t.BInner? {
      forall n | n in BForestNodes(t.kids) ensures n.Room(d) {
        var i := BNodeOf(t.kids, n);
        RepRoomy(t.kids[i], d, slot);
      }
    }
  }

  /** What no write touched is still represented. */
  twostate lemma {:induction false} RepFrame<E(0), V>(t: Shape<E, V>, new d: nat, new slot: Entry<V> -> E)
    requires old(Rep(t, d, slot))
    requires forall n :: n in BNodes(t) ==>
      old(allocated(n)) && unchanged(n`nk) && unchanged(n.entries) && unchanged(n.children)
    ensures Rep(t, d, slot)
    decreases t
  {
    assert old(Local(t, d, slot));
    if t.BInner? {
      forall i | 0 <= i < |t.kids|
        ensures Rep(t.kids[i], d, slot)
      {
        BKidNodes(t.kids, i);
        RepFrame(t.kids[i], d, slot);
      }
    }
  }

  /** The pieces of a split parent are represented, so the parent is. */
  lemma RepSplit<E(0), V>(t: Shape<E, V>, i: nat, d: nat, slot: Entry<V> -> E, sib: Node<E>)
    requires t.BInner? && i < |t.kids| && i <= |t.es| && BSplittable(t.kids[i], d)
    requires forall m :: 0 <= m < |t.kids| && m != i ==> Rep(t.kids[m], d, slot)
    requires Rep(BLeft(t.kids[i], d), d, slot) && Rep(BRight(t.kids[i], d, sib), d, slot)
    requires Local(BSplitTree(t, i, d, sib), d, slot)
    ensures Rep(BSplitTree(t, i, d, sib), d, slot)
  {
    var t' := BSplitTree(t, i, d, sib);
    forall m | 0 <= m < |t'.kids|
      ensures Rep(t'.kids[m], d, slot)
    {
      BSplitMember(t.kids, i, d, sib, m);
    }
  }

  /** Everything under t but the split parent and child is still represented. */
  twostate lemma OthersFrame<E(0), V>(t: Shape<E, V>, new i: nat, new d: nat, new slot: Entry<V> -> E)
    requires old(Rep(t, d, slot)) && t.BInner? && i < |t.kids| && BOwned(t)
    requires forall n :: n in BNodes(t) && n != t.id ==>
      old(allocated(n)) && unchanged(n.entries) && unchanged(n.children) && (n != t.kids[i].id ==> unchanged(n`nk))
    ensures forall m :: 0 <= m < |t.kids| && m != i ==> Rep(t.kids[m], d, slot)
    ensures t.kids[i].BInner? ==> forall m :: 0 <= m < |t.kids[i].kids| ==> Rep(t.kids[i].kids[m], d, slot)
  {
    var c := t.kids[i];
    BKidNodes(t.kids, i);
    assert BOwned(c) && old(Rep(c, d, slot));
    forall m | 0 <= m < |t.kids| && m != i
      ensures Rep(t.kids[m], d, slot)
    {
      BKidNodes(t.kids, m);
      BOtherKid(t, i, m);
      assert forall n :: n in BNodes(t.kids[m]) ==> n in BNodes(t) && n != t.id && n != t.kids[i].id;
      RepFrame(t.kids[m], d, slot);
    }
    assert forall n :: n in BNodes(c) ==> n in BNodes(t) && n != t.id;
    KidsFrame(c, d, slot);
  }

  /** Everything under an internal node that is untouched but for itself is still represented. */
  twostate lemma KidsFrame<E(0), V>(c: Shape<E, V>, new d: nat, new slot: Entry<V> -> E)
    requires old(Rep(c, d, slot)) && BOwned(c)
    requires forall n :: n in BNodes(c) && n != c.id ==>
      old(allocated(n)) && unchanged(n`nk) && unchanged(n.entries) && unchanged(n.children)
    ensures c.BInner? ==> forall m :: 0 <= m < |c.kids| ==> Rep(c.kids[m], d, slot)
  {
    if c.BInner? {
      forall m | 0 <= m < |c.kids|
        ensures Rep(c.kids[m], d, slot)
      {
        BKidNodes(c.kids, m);
        assert forall n :: n in BNodes(c.kids[m]) ==> n in BNodes(c) && n != c.id;
        RepFrame(c.kids[m], d, slot);
      }
    }
  }

  /** What the node-level split needs to know of a represented parent and child. */
  lemma InnerSplitFacts<E(0), V>(t: Shape<E, V>, i: nat, d: nat, slot: Entry<V> -> E)
    requires t.BInner? && Rep(t, d, slot) && BOwned(t) && OwnArrays(t.id, BNodes(t)) && i < |t.kids|
    ensures t.id.Room(d) && Local(t, d, slot) && Local(t.kids[i], d, slot) && i <= |t.es|
    ensures t.id.children[i] == t.kids[i].id && t.kids[i].id in BNodes(t)
    ensures t.id != t.kids[i].id
    ensures t.id.entries != t.kids[i].id.entries && t.id.children != t.kids[i].id.children
  {
    assert Rep(t.kids[i], d, slot);
    BKidNodes(t.kids, i);
    assert t.id.Kids()[i] == t.kids[i].id;
    assert t.kids[i].id in BNodes(t.kids[i]);
  }

  lemma RepHalves<E(0), V>(c: Shape<E, V>, d: nat, slot: Entry<V> -> E, sib: Node<E>)
    requires BSplittable(c, d)
    requires c.BInner? ==> forall m :: 0 <= m < |c.kids| ==> Rep(c.kids[m], d, slot)
    requires Local(BLeft(c, d), d, slot) && Local(BRight(c, d, sib), d, slot)
    ensures Rep(BLeft(c, d), d, slot) && Rep(BRight(c, d, sib), d, slot)
  {
  }

  lemma SlotsInsert<E, V>(es: seq<Entry<V>>, i: nat, e: Entry<V>, slot: Entry<V> -> E)
    requires i <= |es|
    ensures Slots(InsertAt(es, i, e), slot) == InsertAt(Slots(es, slot), i, slot(e))
  {
  }

  lemma SlotsHalves<E, V>(es: seq<Entry<V>>, a: nat, b: nat, slot: Entry<V> -> E)
    requires a <= |es| && b <= |es|
    ensures Slots(es[..a], slot) == Slots(es, slot)[..a] && Slots(es[b..], slot) == Slots(es, slot)[b..]
  {
  }

  lemma IdsHalves<E(0), V>(kids: seq<Shape<E, V>>, d: nat)
    requires d <= |kids|
    ensures BIds(kids[..d]) == BIds(kids)[..d] && BIds(kids[d..]) == BIds(kids)[d..]
  {
  }

  /** What the two halves of a split node and their parent hold. */
  lemma SplitSlots<E(0), V>(t: Shape<E, V>, i: nat, d: nat, slot: Entry<V> -> E, sib: Node<E>)
    requires t.BInner? && i < |t.kids| && i <= |t.es| && BSplittable(t.kids[i], d) && |t.kids| == |t.es| + 1
    ensures var c, t' := t.kids[i], BSplitTree(t, i, d, sib);
      && Slots(BLeft(c, d).es, slot) == Slots(c.es, slot)[..d - 1]
        && Slots(BRight(c, d, sib).es, slot) == Slots(c.es, slot)[d..]
      && Slots(t'.es, slot) == InsertAt(Slots(t.es, slot), i, Slots(c.es, slot)[d - 1])
      && BIds(t'.kids) == InsertAt(BIds(t.kids), i + 1, sib)
      && (c.BInner? ==>
        BIds(BLeft(c, d).kids) == BIds(c.kids)[..d] && BIds(BRight(c, d, sib).kids) == BIds(c.kids)[d..])
  {
    var c := t.kids[i];
    SlotsHalves(c.es, d - 1, d, slot);
    SlotsInsert(t.es, i, c.es[d - 1], slot);
    BSplitIds(t.kids, i, d, sib);
    if c.BInner? {
      IdsHalves(c.kids, d);
    }
  }

  /** `split_node` on the full child i. */
  method SplitChild<E(0), V>(parent: Node<E>, i: nat, d: nat, ghost slot: Entry<V> -> E, ghost t: Shape<E, V>)
    returns (sib: Node<E>)
    requires t.BInner? && t.id == parent && Rep(t, d, slot) && BOwned(t) && OwnArrays(t.id, BNodes(t))
    requires i < |t.kids| && BSplittable(t.kids[i], d) && |t.es| < 2 * d - 1
    modifies parent`nk, parent.entries, parent.children, t.kids[i].id`nk
    ensures fresh(sib) && fresh(sib.entries) && fresh(sib.children) && !sib.freed
    ensures i <= |t.es| && Rep(BSplitTree(t, i, d, sib), d, slot)
  {
    InnerSplitFacts(t, i, d, slot);
    RepRoomy(t, d, slot);
    hide BOwned;
    NodesAllocated(t);
    sib := Split(i, parent, parent.children[i], d);
    SplitSlots(t, i, d, slot, sib);
    hide Slots, BIds, BSplitKids;
    OthersFrame(t, i, d, slot);
    RepHalves(t.kids[i], d, slot, sib);
    RepSplit(t, i, d, slot, sib);
  }

  /** The nodes of t hold t, each once, and share no array. */
  ghost predicate Held<E(0), V>(t: Shape<E, V>, d: nat, slot: Entry<V> -> E)
    reads BNodes(t)`nk, EntryArrays(BNodes(t)), ChildArrays(BNodes(t))
  {
    Rep(t, d, slot) && BOwned(t) && Apart(BNodes(t))
  }

  /** Nodes of t' that t does not have were allocated since. */
  twostate predicate Grown<E(0), V>(t: Shape<E, V>, new t': Shape<E, V>)
    reads BNodes(t')
  {
    && BNodes(t) <= BNodes(t')
    && forall n :: n in BNodes(t') - BNodes(t) ==> fresh(n) && fresh(n.entries) && fresh(n.children) && !n.freed
  }

  lemma ApartGrow<E(0)>(s: set<Node<E>>, c: set<Node<E>>)
    requires Apart(s) && Apart(c)
    requires forall m, n :: m in s && n in c - s ==> m.entries != n.entries && m.children != n.children
    ensures Apart(s + c)
  {
  }

  /** Splitting grows a held tree by one fresh node. */
  twostate lemma HeldSplit<E(0), V>(t: Shape<E, V>, new i: nat, new d: nat, new slot: Entry<V> -> E, new sib: Node<E>)
    requires t.BInner? && i < |t.kids| && i <= |t.es| && BSplittable(t.kids[i], d) && old(Held(t, d, slot))
    requires fresh(sib) && fresh(sib.entries) && fresh(sib.children) && !sib.freed
    requires Rep(BSplitTree(t, i, d, sib), d, slot)
    requires forall n :: n in BNodes(t) ==> old(allocated(n))
    ensures Held(BSplitTree(t, i, d, sib), d, slot) && Grown(t, BSplitTree(t, i, d, sib))
    ensures BNodes(BSplitTree(t, i, d, sib)) == BNodes(t) + {sib}
  {
    BOwnedSplit(t, i, d, sib, InsertAt(t.es, i, t.kids[i].es[d - 1]));
    ApartGrow(BNodes(t), {sib});
  }

  /** What an insertion below child j leaves alone. */
  twostate lemma RestFrame<E(0), V>(t: Shape<E, V>, new j: nat, new d: nat, new slot: Entry<V> -> E)
    requires old(Rep(t, d, slot)) && t.BInner? && j < |t.kids| && BOwned(t)
    requires forall n :: n in BNodes(t) && n !in BNodes(t.kids[j]) ==>
      old(allocated(n)) && unchanged(n`nk) && unchanged(n.entries) && unchanged(n.children)
    ensures Local(t, d, slot)
    ensures forall m :: 0 <= m < |t.kids| && m != j ==> Rep(t.kids[m], d, slot)
  {
    forall m | 0 <= m < |t.kids| && m != j
      ensures Rep(t.kids[m], d, slot)
    {
      BKidNodes(t.kids, m);
      BOtherKid(t, j, m);
      RepFrame(t.kids[m], d, slot);
    }
    assert old(Local(t, d, slot));
    assert t.id !in BNodes(t.kids[j]);
  }

  lemma RepReplace<E(0), V>(t: Shape<E, V>, j: nat, c: Shape<E, V>, d: nat, slot: Entry<V> -> E)
    requires t.BInner? && j < |t.kids| && Rep(c, d, slot) && c.id == t.kids[j].id && Local(t, d, slot)
    requires forall m :: 0 <= m < |t.kids| && m != j ==> Rep(t.kids[m], d, slot)
    ensures Rep(t.(kids := t.kids[j := c]), d, slot)
  {
    assert BIds(t.kids[j := c]) == BIds(t.kids);
  }

  /** Nodes and ownership of a tree whose child j was rebuilt in place. */
  twostate lemma GrownReplace<E(0), V>(t: Shape<E, V>, new j: nat, new c: Shape<E, V>)
    requires t.BInner? && j < |t.kids| && BOwned(t) && BOwned(c) && Apart(BNodes(t)) && Apart(BNodes(c))
    requires Grown(t.kids[j], c)
    requires forall n :: n in BNodes(t) ==> old(allocated(n))
    ensures var t' := t.(kids := t.kids[j := c]);
            BOwned(t') && Apart(BNodes(t')) && Grown(t, t') && BNodes(t') == BNodes(t) + BNodes(c)
  {
    BKidNodes(t.kids, j);
    BOwnedReplace(t, j, c);
    ApartGrow(BNodes(t), BNodes(c));
  }

  /** What the nodes hold after the child was rebuilt. */
  twostate lemma HeldBelow<E(0), V>(t: Shape<E, V>, new j: nat, new c: Shape<E, V>, new d: nat, new slot: Entry<V> -> E)
    requires t.BInner? && j < |t.kids| && old(Held(t, d, slot)) && Held(c, d, slot) && c.id == t.kids[j].id
    requires Grown(t.kids[j], c)
    requires forall n :: n in BNodes(t) ==> old(allocated(n))
    requires forall n :: n in BNodes(t) && n !in BNodes(t.kids[j]) ==>
      unchanged(n`nk) && unchanged(n.entries) && unchanged(n.children)
    ensures Held(t.(kids := t.kids[j := c]), d, slot) && Grown(t, t.(kids := t.kids[j := c]))
    ensures BNodes(t.(kids := t.kids[j := c])) == BNodes(t) + BNodes(c)
  {
    RestFrame(t, j, d, slot);
    RepReplace(t, j, c, d, slot);
    GrownReplace(t, j, c);
  }

  twostate lemma GrownFurther<E(0), V>(t: Shape<E, V>, new t1: Shape<E, V>, new t': Shape<E, V>, new sib: Node<E>)
    requires BNodes(t1) == BNodes(t) + {sib} && BNodes(t1) <= BNodes(t')
    requires fresh(sib) && fresh(sib.entries) && fresh(sib.children) && !sib.freed
    requires forall n :: n in BNodes(t') - BNodes(t1) ==> fresh(n) && fresh(n.entries) && fresh(n.children) && !n.freed
    ensures Grown(t, t')
  {
  }
}
