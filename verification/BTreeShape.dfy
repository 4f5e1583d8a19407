/** The value of a B-tree: entries live in every node, N is the type of a node's identity. */
module BTreeShape {
  import opened Base
  import opened SortedMap
  import opened Arrays

  datatype BTree<N, V> =
    | BLeaf(id: N, es: seq<Entry<V>>)
    | BInner(id: N, es: seq<Entry<V>>, kids: seq<BTree<N, V>>)

  /** The entries in key order: children and entries of a node alternate. */
  ghost function InOrder<N, V>(t: BTree<N, V>): seq<Entry<V>>
    decreases t, 1
  {
    match t
    case BLeaf(_, es) => es
    case BInner(_, es, kids) => if kids == [] then [] else InOrder(kids[0]) + After(es, kids, 0)
  }

  /** Everything right of child j. */
  ghost function After<N, V>(es: seq<Entry<V>>, kids: seq<BTree<N, V>>, j: nat): seq<Entry<V>>
    decreases kids, 0, |es| - j
  {
    if j >= |es| || j + 1 >= |kids| then [] else [es[j]] + InOrder(kids[j + 1]) + After(es, kids, j + 1)
  }

  /** Everything left of child j. */
  ghost function Upto<N, V>(es: seq<Entry<V>>, kids: seq<BTree<N, V>>, j: nat): seq<Entry<V>>
    decreases j
  {
    if j == 0 || j > |es| || j > |kids| then [] else Upto(es, kids, j - 1) + InOrder(kids[j - 1]) + [es[j - 1]]
  }

  ghost function BIds<N, V>(ts: seq<BTree<N, V>>): (r: seq<N>)
    ensures |r| == |ts|
    ensures forall i :: 0 <= i < |ts| ==> r[i] == ts[i].id
  {
    seq(|ts|, i requires 0 <= i < |ts| => ts[i].id)
  }

  ghost function BNodes<N, V>(t: BTree<N, V>): set<N>
    decreases t
  {
    match t
    case BLeaf(id, _) => {id}
    case BInner(id, _, kids) => {id} + BForestNodes(kids)
  }

  ghost function BForestNodes<N, V>(ts: seq<BTree<N, V>>): set<N>
    decreases ts
  {
    if ts == [] then {} else BNodes(ts[0]) + BForestNodes(ts[1..])
  }

  ghost predicate BOwned<N, V>(t: BTree<N, V>)
    decreases t
  {
    t.BInner? ==>
      && (forall i :: 0 <= i < |t.kids| ==> t.id !in BNodes(t.kids[i]) && BOwned(t.kids[i]))
      && BDisjoint(t.kids)
  }

  ghost predicate BDisjoint<N, V>(ts: seq<BTree<N, V>>) {
    forall i, j :: 0 <= i < j < |ts| ==> BNodes(ts[i]) !! BNodes(ts[j])
  }

  /** Open bounds of child i between its neighbouring entries. */
  ghost function BLo<V>(es: seq<Entry<V>>, lo: int, i: nat): int
    requires i <= |es|
  {
    if i == 0 then lo else es[i - 1].key + 1
  }

  ghost function BHi<V>(es: seq<Entry<V>>, hi: int, i: nat): int
    requires i <= |es|
  {
    if i == |es| then hi else es[i].key
  }

  /** A well-formed B-tree of minimum degree d and height h with keys in [lo, hi). */
  ghost predicate BWf<N, V>(t: BTree<N, V>, d: nat, h: nat, lo: int, hi: int)
    decreases t, 0
  {
    match t
    case BLeaf(_, es) => h == 0 && |es| <= 2 * d - 1 && Ascending(es) && Within(es, lo, hi)
    case BInner(_, es, kids) => h > 0 && |es| <= 2 * d - 1 && BKidsWf(es, kids, d, h - 1, lo, hi)
  }

  ghost predicate BKidsWf<N, V>(es: seq<Entry<V>>, kids: seq<BTree<N, V>>, d: nat, h: nat, lo: int, hi: int)
    decreases kids
  {
    |kids| == |es| + 1 && forall i :: 0 <= i < |kids| ==> BKidWf(es, kids[i], i, d, h, lo, hi)
  }

  ghost predicate BKidWf<N, V>(es: seq<Entry<V>>, kid: BTree<N, V>, i: nat, d: nat, h: nat, lo: int, hi: int)
    decreases kid, 1
  {
    i <= |es| && BWf(kid, d, h, BLo(es, lo, i), BHi(es, hi, i)) && |kid.es| >= d - 1
  }

  // ---------------------------------------------------------------- in-order sequences

  /** The in-order sequence around child j. */
  lemma {:induction false} InOrderAt<N, V>(es: seq<Entry<V>>, kids: seq<BTree<N, V>>, j: nat)
    requires |kids| == |es| + 1 && j <= |es|
    ensures InOrder(kids[0]) + After(es, kids, 0) == Upto(es, kids, j) + InOrder(kids[j]) + After(es, kids, j)
  {
    hide InOrder;
    if j == 0 {
      assert Upto(es, kids, 0) == [];
    } else {
      InOrderAt(es, kids, j - 1);
      var u, a, e, b, r := Upto(es, kids, j - 1), InOrder(kids[j - 1]), [es[j - 1]], InOrder(kids[j]),
        After(es, kids, j);
      Regroup5(u, a, e, b, r);
    }
  }

  lemma Regroup5<X>(u: seq<X>, a: seq<X>, e: seq<X>, b: seq<X>, r: seq<X>)
    ensures u + a + (e + b + r) == (u + a + e) + b + r
  {
  }

  /** What is left of child j depends on the first j entries and children only. */
  lemma {:induction false} UptoPrefix<N, V>(es: seq<Entry<V>>, kids: seq<BTree<N, V>>, fs: seq<Entry<V>>,
                                            lids: seq<BTree<N, V>>, j: nat)
    requires j <= |es| && j <= |kids| && j <= |fs| && j <= |lids| && es[..j] == fs[..j] && kids[..j] == lids[..j]
    ensures Upto(es, kids, j) == Upto(fs, lids, j)
  {
    hide InOrder;
    if j > 0 {
      assert es[j - 1] == es[..j][j - 1] == fs[..j][j - 1] && kids[j - 1] == kids[..j][j - 1] == lids[..j][j - 1];
      assert es[..j - 1] == es[..j][..j - 1] && fs[..j - 1] == fs[..j][..j - 1];
      assert kids[..j - 1] == kids[..j][..j - 1] && lids[..j - 1] == lids[..j][..j - 1];
      UptoPrefix(es, kids, fs, lids, j - 1);
    }
  }

  /** What is right of a child depends on what follows it only. */
  lemma {:induction false} AfterSuffix<N, V>(es: seq<Entry<V>>, kids: seq<BTree<N, V>>, j: nat,
                                             fs: seq<Entry<V>>, lids: seq<BTree<N, V>>, i: nat)
    requires |kids| == |es| + 1 && |lids| == |fs| + 1 && j <= |es| && i <= |fs|
    requires es[j..] == fs[i..] && kids[j + 1..] == lids[i + 1..]
    ensures After(es, kids, j) == After(fs, lids, i)
    decreases |es| - j
  {
    hide InOrder;
    assert |es[j..]| == |fs[i..]|;
    if j < |es| {
      assert es[j] == es[j..][0] == fs[i..][0] == fs[i]
        && kids[j + 1] == kids[j + 1..][0] == lids[i + 1..][0] == lids[i + 1];
      assert es[j + 1..] == es[j..][1..] && fs[i + 1..] == fs[i..][1..];
      assert kids[j + 2..] == kids[j + 1..][1..] && lids[i + 2..] == lids[i + 1..][1..];
      AfterSuffix(es, kids, j + 1, fs, lids, i + 1);
    }
  }

  /** Well-formed trees list their keys in order, inside their bounds. */
  lemma {:induction false} InOrderSorted<N, V>(t: BTree<N, V>, d: nat, h: nat, lo: int, hi: int)
    requires d >= 2 && BWf(t, d, h, lo, hi)
    ensures Ascending(InOrder(t)) && Within(InOrder(t), lo, hi)
    ensures |t.es| > 0 ==> InOrder(t) != []
    ensures t.BInner? ==> InOrder(t) != []
    decreases t, 1
  {
    match t
    case BLeaf(_, _) =>
    case BInner(_, es, kids) =>
      assert BKidWf(es, kids[0], 0, d, h - 1, lo, hi);
      InOrderSorted(kids[0], d, h - 1, lo, BHi(es, hi, 0));
      AfterSorted(es, kids, 0, d, h - 1, lo, hi);
      var mid := BHi(es, hi, 0);
      assert InOrder(kids[0])[0].key < mid;
      AscendingConcat(InOrder(kids[0]), After(es, kids, 0), lo, mid, hi);
  }

  /** What is right of child j is sorted, from the entry after the child up to hi. */
  lemma {:induction false} AfterSorted<N, V>(es: seq<Entry<V>>, kids: seq<BTree<N, V>>, j: nat, d: nat, h: nat,
                                             lo: int, hi: int)
    requires d >= 2 && BKidsWf(es, kids, d, h, lo, hi) && j <= |es|
    ensures Ascending(After(es, kids, j)) && Within(After(es, kids, j), BHi(es, hi, j), hi)
    ensures BHi(es, hi, j) <= hi
    decreases kids, 0, |es| - j
  {
    if j < |es| {
      assert BKidWf(es, kids[j + 1], j + 1, d, h, lo, hi);
      var k: int := es[j].key;
      InOrderSorted(kids[j + 1], d, h, k + 1, BHi(es, hi, j + 1));
      AfterSorted(es, kids, j + 1, d, h, lo, hi);
      var mid := BHi(es, hi, j + 1);
      assert InOrder(kids[j + 1])[0].key < mid;
      AscendingConcat([es[j]], InOrder(kids[j + 1]), k, k + 1, mid);
      AscendingConcat([es[j]] + InOrder(kids[j + 1]), After(es, kids, j + 1), k, mid, hi);
    }
  }

  /** What is left of child j is sorted and below it. */
  lemma {:induction false} UptoSorted<N, V>(es: seq<Entry<V>>, kids: seq<BTree<N, V>>, j: nat, d: nat, h: nat,
                                            lo: int, hi: int)
    requires d >= 2 && BKidsWf(es, kids, d, h, lo, hi) && j <= |es|
    ensures Ascending(Upto(es, kids, j)) && Within(Upto(es, kids, j), lo, BLo(es, lo, j))
    ensures lo <= BLo(es, lo, j)
  {
    if j > 0 {
      assert BKidWf(es, kids[j - 1], j - 1, d, h, lo, hi);
      var mid := BLo(es, lo, j - 1);
      UptoSorted(es, kids, j - 1, d, h, lo, hi);
      InOrderSorted(kids[j - 1], d, h, mid, es[j - 1].key);
      assert mid <= InOrder(kids[j - 1])[0].key;
      AscendingConcat(Upto(es, kids, j - 1), InOrder(kids[j - 1]), lo, mid, es[j - 1].key);
      AscendingConcat(Upto(es, kids, j - 1) + InOrder(kids[j - 1]), [es[j - 1]], lo, es[j - 1].key, es[j - 1].key + 1);
    }
  }

  // ---------------------------------------------------------------- finding and binding a key

  /** An absent key belongs to child j. */
  ghost predicate BBounds<V>(es: seq<Entry<V>>, j: nat, k: Key) {
    && j <= |es|
    && (j > 0 ==> es[j - 1].key < k)
    && (j < |es| ==> k < es[j].key)
  }

  /** The in-order sequence around child j, with everything left of it below k and right of it above k. */
  lemma Surroundings<N, V>(t: BTree<N, V>, j: nat, k: Key, d: nat, h: nat, lo: int, hi: int)
    requires t.BInner? && d >= 2 && BWf(t, d, h, lo, hi) && BBounds(t.es, j, k)
    ensures j < |t.kids|
    ensures InOrder(t) == Upto(t.es, t.kids, j) + InOrder(t.kids[j]) + After(t.es, t.kids, j)
    ensures forall i :: 0 <= i < |Upto(t.es, t.kids, j)| ==> Upto(t.es, t.kids, j)[i].key < k
    ensures forall i :: 0 <= i < |After(t.es, t.kids, j)| ==> k < After(t.es, t.kids, j)[i].key
  {
    InOrderAt(t.es, t.kids, j);
    UptoSorted(t.es, t.kids, j, d, h - 1, lo, hi);
    AfterSorted(t.es, t.kids, j, d, h - 1, lo, hi);
    if j == 0 { assert Upto(t.es, t.kids, 0) == []; }
  }

  /** A key that is not in the node is bound exactly when it is bound in the child that bounds it. */
  lemma LookupInChild<N, V>(t: BTree<N, V>, j: nat, k: Key, d: nat, h: nat, lo: int, hi: int)
    requires t.BInner? && d >= 2 && BWf(t, d, h, lo, hi) && BBounds(t.es, j, k)
    ensures j < |t.kids| && Lookup(InOrder(t), k) == Lookup(InOrder(t.kids[j]), k)
  {
    Surroundings(t, j, k, d, h, lo, hi);
    LookupMiddle(Upto(t.es, t.kids, j), InOrder(t.kids[j]), After(t.es, t.kids, j), k);
  }

  /** The in-order sequence around entry i of an internal node. */
  lemma AroundEntry<N, V>(t: BTree<N, V>, i: nat, d: nat, h: nat, lo: int, hi: int)
    returns (a: seq<Entry<V>>, c: seq<Entry<V>>)
    requires t.BInner? && d >= 2 && BWf(t, d, h, lo, hi) && i < |t.es|
    ensures |t.kids| == |t.es| + 1
    ensures a == Upto(t.es, t.kids, i) + InOrder(t.kids[i]) && c == InOrder(t.kids[i + 1]) + After(t.es, t.kids, i + 1)
    ensures InOrder(t) == a + [t.es[i]] + c
    ensures forall m :: 0 <= m < |a| ==> a[m].key < t.es[i].key
    ensures forall m :: 0 <= m < |c| ==> t.es[i].key < c[m].key
  {
    InOrderAt(t.es, t.kids, i);
    UptoSorted(t.es, t.kids, i, d, h - 1, lo, hi);
    assert BKidWf(t.es, t.kids[i], i, d, h - 1, lo, hi);
    assert BKidWf(t.es, t.kids[i + 1], i + 1, d, h - 1, lo, hi);
    var k: int := t.es[i].key;
    InOrderSorted(t.kids[i], d, h - 1, BLo(t.es, lo, i), k);
    InOrderSorted(t.kids[i + 1], d, h - 1, k + 1, BHi(t.es, hi, i + 1));
    AfterSorted(t.es, t.kids, i + 1, d, h - 1, lo, hi);
    a := Upto(t.es, t.kids, i) + InOrder(t.kids[i]);
    c := InOrder(t.kids[i + 1]) + After(t.es, t.kids, i + 1);
    assert InOrder(t.kids[i])  != [] && BLo(t.es, lo, i) <= InOrder(t.kids[i])[0].key;
    assert InOrder(t.kids[i + 1])  != [] && InOrder(t.kids[i + 1])[0].key < BHi(t.es, hi, i + 1);
  }

  /** A key stored in the node is bound to the value next to it. */
  lemma LookupInNode<N, V>(t: BTree<N, V>, i: nat, d: nat, h: nat, lo: int, hi: int)
    requires t.BInner? && d >= 2 && BWf(t, d, h, lo, hi) && i < |t.es|
    ensures Lookup(InOrder(t), t.es[i].key) == Some(t.es[i].value)
  {
    var a, c := AroundEntry(t, i, d, h, lo, hi);
    LookupMiddle(a, [t.es[i]], c, t.es[i].key);
  }

  /** Replacing child j by one that holds k as well binds k. */
  lemma BindInChild<N, V>(t: BTree<N, V>, j: nat, c: BTree<N, V>, k: Key, v: V, d: nat, h: nat, lo: int, hi: int)
    requires t.BInner? && d >= 2 && BWf(t, d, h, lo, hi) && BBounds(t.es, j, k) && j < |t.kids|
    requires BWf(c, d, h - 1, BLo(t.es, lo, j), BHi(t.es, hi, j)) && |c.es| >= |t.kids[j].es|
    requires InOrder(c) == Upsert(InOrder(t.kids[j]), k, v)
    ensures BWf(t.(kids := t.kids[j := c]), d, h, lo, hi)
    ensures InOrder(t.(kids := t.kids[j := c])) == Upsert(InOrder(t), k, v)
  {
    var kids' := t.kids[j := c];
    forall i | 0 <= i < |kids'| ensures BKidWf(t.es, kids'[i], i, d, h - 1, lo, hi) {
      assert BKidWf(t.es, t.kids[i], i, d, h - 1, lo, hi);
    }
    Surroundings(t, j, k, d, h, lo, hi);
    InOrderAt(t.es, kids', j);
    assert kids'[..j] == t.kids[..j] && kids'[j + 1..] == t.kids[j + 1..];
    UptoPrefix(t.es, t.kids, t.es, kids', j);
    AfterSuffix(t.es, t.kids, j, t.es, kids', j);
    UpsertMiddle(Upto(t.es, t.kids, j), InOrder(t.kids[j]), After(t.es, t.kids, j), k, v);
  }

  /** Overwriting entry i binds its key to the new value. */
  lemma BindInNode<N, V>(t: BTree<N, V>, i: nat, v: V, d: nat, h: nat, lo: int, hi: int)
    requires t.BInner? && d >= 2 && BWf(t, d, h, lo, hi) && i < |t.es|
    ensures var t' := t.(es := t.es[i := Entry(t.es[i].key, v)]);
            BWf(t', d, h, lo, hi) && InOrder(t') == Upsert(InOrder(t), t.es[i].key, v)
  {
    var e := Entry(t.es[i].key, v);
    var t' := t.(es := t.es[i := e]);
    forall m | 0 <= m < |t.kids| ensures BKidWf(t'.es, t'.kids[m], m, d, h - 1, lo, hi) {
      assert BKidWf(t.es, t.kids[m], m, d, h - 1, lo, hi);
    }
    var a, c := AroundEntry(t, i, d, h, lo, hi);
    var a', c' := AroundEntry(t', i, d, h, lo, hi);
    assert t'.es[..i] == t.es[..i] && t'.es[i + 1..] == t.es[i + 1..];
    UptoPrefix(t.es, t.kids, t'.es, t.kids, i);
    AfterSuffix(t.es, t.kids, i + 1, t'.es, t.kids, i + 1);
    UpsertMiddle(a, [t.es[i]], c, t.es[i].key, v);
    assert Upsert([t.es[i]], t.es[i].key, v) == [e];
  }

  // ---------------------------------------------------------------- splitting a child

  ghost predicate BSplittable<N, V>(c: BTree<N, V>, d: nat) {
    d >= 2 && |c.es| == 2 * d - 1 && (c.BInner? ==> |c.kids| == 2 * d)
  }

  ghost function BLeft<N, V>(c: BTree<N, V>, d: nat): BTree<N, V>
    requires BSplittable(c, d)
  {
    match c
    case BLeaf(id, es) => BLeaf(id, es[..d - 1])
    case BInner(id, es, kids) => BInner(id, es[..d - 1], kids[..d])
  }

  ghost function BRight<N, V>(c: BTree<N, V>, d: nat, sib: N): BTree<N, V>
    requires BSplittable(c, d)
  {
    match c
    case BLeaf(_, es) => BLeaf(sib, es[d..])
    case BInner(_, es, kids) => BInner(sib, es[d..], kids[d..])
  }

  ghost function BSplitKids<N, V>(kids: seq<BTree<N, V>>, i: nat, d: nat, sib: N): seq<BTree<N, V>>
    requires i < |kids| && BSplittable(kids[i], d)
  {
    kids[..i] + [BLeft(kids[i], d), BRight(kids[i], d, sib)] + kids[i + 1..]
  }

  /** The parent after `split_node` on child i: the middle entry of the child moves up. */
  ghost function BSplitTree<N, V>(t: BTree<N, V>, i: nat, d: nat, sib: N): BTree<N, V>
    requires t.BInner? && i < |t.kids| && BSplittable(t.kids[i], d) && i <= |t.es|
  {
    BInner(t.id, InsertAt(t.es, i, t.kids[i].es[d - 1]), BSplitKids(t.kids, i, d, sib))
  }

  lemma BSplitMember<N, V>(kids: seq<BTree<N, V>>, i: nat, d: nat, sib: N, m: nat)
    requires i < |kids| && BSplittable(kids[i], d) && m < |kids| + 1
    ensures |BSplitKids(kids, i, d, sib)| == |kids| + 1
    ensures BSplitKids(kids, i, d, sib)[m] ==
            if m < i then kids[m] else if m == i then BLeft(kids[i], d)
            else if m == i + 1 then BRight(kids[i], d, sib) else kids[m - 1]
  {
  }

  /** The halves and the middle entry hold what the child held. */
  lemma BHalvesInOrder<N, V>(c: BTree<N, V>, d: nat, sib: N)
    requires BSplittable(c, d)
    ensures InOrder(BLeft(c, d)) + [c.es[d - 1]] + InOrder(BRight(c, d, sib)) == InOrder(c)
  {
    if c.BLeaf? {
      assert c.es[..d - 1] + [c.es[d - 1]] + c.es[d..] == c.es;
    } else {
      var es, kids, l, r := c.es, c.kids, BLeft(c, d), BRight(c, d, sib);
      assert es[d - 1..][1..] == es[d..];
      assert After(es, kids, d - 1) == [es[d - 1]] + InOrder(kids[d]) + After(es, kids, d);
      LeftInOrder(c, d);
      InOrderAt(es, kids, d - 1);
      AfterSuffix(es, kids, d, r.es, r.kids, 0);
      hide InOrder, After, Upto;
      Glue(Upto(es, kids, d - 1), InOrder(kids[d - 1]), [es[d - 1]], InOrder(kids[d]), After(es, kids, d));
    }
  }

  lemma LeftInOrder<N, V>(c: BTree<N, V>, d: nat)
    requires BSplittable(c, d) && c.BInner?
    ensures InOrder(BLeft(c, d)) == Upto(c.es, c.kids, d - 1) + InOrder(c.kids[d - 1])
  {
    var l := BLeft(c, d);
    InOrderAt(l.es, l.kids, d - 1);
    UptoPrefix(c.es, c.kids, l.es, l.kids, d - 1);
    assert After(l.es, l.kids, d - 1) == [];
  }

  lemma Glue<X>(u: seq<X>, a: seq<X>, e: seq<X>, b: seq<X>, r: seq<X>)
    ensures (u + a) + e + (b + r) == u + a + (e + b + r)
  {
  }

  /** `split_node` leaves the in-order sequence of the parent's subtree unchanged. */
  lemma BSplitInOrder<N, V>(t: BTree<N, V>, i: nat, d: nat, sib: N)
    requires t.BInner? && |t.kids| == |t.es| + 1 && i < |t.kids| && BSplittable(t.kids[i], d)
    ensures InOrder(BSplitTree(t, i, d, sib)) == InOrder(t)
  {
    var t' := BSplitTree(t, i, d, sib);
    var l, r, mid := BLeft(t.kids[i], d), BRight(t.kids[i], d, sib), t.kids[i].es[d - 1];
    BHalvesInOrder(t.kids[i], d, sib);
    InOrderAt(t.es, t.kids, i);
    InOrderAt(t'.es, t'.kids, i);
    assert t'.es[..i] == t.es[..i] && t'.kids[..i] == t.kids[..i];
    UptoPrefix(t.es, t.kids, t'.es, t'.kids, i);
    assert t'.es[i + 1..] == t.es[i..] && t'.kids[i + 2..] == t.kids[i + 1..];
    AfterSuffix(t.es, t.kids, i, t'.es, t'.kids, i + 1);
    assert After(t'.es, t'.kids, i) == [mid] + InOrder(r) + After(t.es, t.kids, i);
    hide InOrder, After, Upto;
    Glue2(Upto(t.es, t.kids, i), InOrder(l), [mid], InOrder(r), After(t.es, t.kids, i));
  }

  lemma Glue2<X>(u: seq<X>, a: seq<X>, e: seq<X>, b: seq<X>, r: seq<X>)
    ensures u + a + (e + b + r) == u + (a + e + b) + r
  {
  }

  lemma BHalvesWf<N, V>(c: BTree<N, V>, d: nat, h: nat, lo: int, hi: int, sib: N)
    requires BSplittable(c, d) && BWf(c, d, h, lo, hi)
    ensures BWf(BLeft(c, d), d, h, lo, c.es[d - 1].key) && BWf(BRight(c, d, sib), d, h, c.es[d - 1].key + 1, hi)
  {
    if c.BInner? {
      var l, r := BLeft(c, d), BRight(c, d, sib);
      forall i | 0 <= i < |l.kids| ensures BKidWf(l.es, l.kids[i], i, d, h - 1, lo, c.es[d - 1].key) {
        assert BKidWf(c.es, c.kids[i], i, d, h - 1, lo, hi);
      }
      forall i | 0 <= i < |r.kids| ensures BKidWf(r.es, r.kids[i], i, d, h - 1, c.es[d - 1].key + 1, hi) {
        assert BKidWf(c.es, c.kids[d + i], d + i, d, h - 1, lo, hi);
      }
    }
  }

  /** `split_node` keeps the parent well formed. */
  lemma BSplitWf<N, V>(t: BTree<N, V>, i: nat, d: nat, h: nat, lo: int, hi: int, sib: N)
    requires t.BInner? && BWf(t, d, h, lo, hi) && |t.es| < 2 * d - 1 && i < |t.kids| && BSplittable(t.kids[i], d)
    ensures i <= |t.es| && BWf(BSplitTree(t, i, d, sib), d, h, lo, hi)
  {
    var c, t' := t.kids[i], BSplitTree(t, i, d, sib);
    assert BKidWf(t.es, c, i, d, h - 1, lo, hi);
    BHalvesWf(c, d, h - 1, BLo(t.es, lo, i), BHi(t.es, hi, i), sib);
    forall m | 0 <= m < |t'.kids|
      ensures BKidWf(t'.es, t'.kids[m], m, d, h - 1, lo, hi)
    {
      BSplitMember(t.kids, i, d, sib, m);
      if m < i {
        assert BKidWf(t.es, t.kids[m], m, d, h - 1, lo, hi);
      } else if m > i + 1 {
        assert BKidWf(t.es, t.kids[m - 1], m - 1, d, h - 1, lo, hi);
      }
    }
  }

  // ---------------------------------------------------------------- ownership

  lemma {:induction false} BKidNodes<N, V>(ts: seq<BTree<N, V>>, i: nat)
    requires i < |ts|
    ensures BNodes(ts[i]) <= BForestNodes(ts)
  {
    if i > 0 {
      BKidNodes(ts[1..], i - 1);
    }
  }

  lemma AllBKidNodes<N, V>(ts: seq<BTree<N, V>>)
    ensures forall i :: 0 <= i < |ts| ==> BNodes(ts[i]) <= BForestNodes(ts)
  {
    forall i | 0 <= i < |ts| ensures BNodes(ts[i]) <= BForestNodes(ts) {
      BKidNodes(ts, i);
    }
  }

  lemma BOwnedReplace<N, V>(t: BTree<N, V>, j: nat, c: BTree<N, V>)
    requires t.BInner? && j < |t.kids| && BOwned(t) && BOwned(c)
    requires BNodes(t.kids[j]) <= BNodes(c)
    requires (BNodes(c) - BNodes(t.kids[j])) !! BNodes(t)
    ensures BOwned(t.(kids := t.kids[j := c]))
    ensures BNodes(t.(kids := t.kids[j := c])) == BNodes(t) + BNodes(c)
  {
    var t' := t.(kids := t.kids[j := c]);
    AllBKidNodes(t.kids);
    forall i | 0 <= i < |t'.kids|
      ensures t'.id !in BNodes(t'.kids[i]) && BOwned(t'.kids[i])
    {
    }
    forall i, m | 0 <= i < m < |t'.kids|
      ensures BNodes(t'.kids[i]) !! BNodes(t'.kids[m])
    {
      assert BNodes(t.kids[i]) !! BNodes(t.kids[m]);
    }
    BNodesReplace(t, j, c);
  }

  lemma {:induction false} BForestNodesConcat<N, V>(a: seq<BTree<N, V>>, b: seq<BTree<N, V>>)
    ensures BForestNodes(a + b) == BForestNodes(a) + BForestNodes(b)
  {
    hide BNodes;
    if a == [] {
      assert a + b == b;
    } else {
      BForestNodesConcat(a[1..], b);
      assert (a + b)[1..] == a[1..] + b;
    }
  }

  lemma BUnionAssociative<X>(a: set<X>, b: set<X>, c: set<X>)
    ensures a + (b + c) == a + b + c
  {
  }

  lemma BForestNodesAt<N, V>(ts: seq<BTree<N, V>>, j: nat)
    requires j < |ts|
    ensures BForestNodes(ts) == BForestNodes(ts[..j]) + BNodes(ts[j]) + BForestNodes(ts[j + 1..])
  {
    hide BNodes;
    assert ts == ts[..j] + ts[j..] && ts[j..][1..] == ts[j + 1..];
    BForestNodesConcat(ts[..j], ts[j..]);
    BUnionAssociative(BForestNodes(ts[..j]), BNodes(ts[j]), BForestNodes(ts[j + 1..]));
  }

  lemma BSingleNodes<N, V>(c: BTree<N, V>)
    ensures BForestNodes([c]) == BNodes(c)
  {
    assert BForestNodes([c][1..]) == {};
  }

  /** The member of a row that holds a node. */
  lemma {:induction false} BNodeOf<N, V>(ts: seq<BTree<N, V>>, n: N) returns (i: nat)
    requires n in BForestNodes(ts)
    ensures i < |ts| && n in BNodes(ts[i])
  {
    if n in BNodes(ts[0]) {
      i := 0;
    } else {
      i := BNodeOf(ts[1..], n);
      i := i + 1;
    }
  }

  lemma BNodesReplace<N, V>(t: BTree<N, V>, j: nat, c: BTree<N, V>)
    requires t.BInner? && j < |t.kids| && BNodes(t.kids[j]) <= BNodes(c)
    ensures BNodes(t.(kids := t.kids[j := c])) == BNodes(t) + BNodes(c)
  {
    var kids' := t.kids[j := c];
    BForestNodesAt(t.kids, j);
    BForestNodesAt(kids', j);
    assert kids'[..j] == t.kids[..j] && kids'[j + 1..] == t.kids[j + 1..];
  }

  lemma BHalvesNodes<N, V>(c: BTree<N, V>, d: nat, sib: N)
    requires BSplittable(c, d) && BOwned(c) && sib !in BNodes(c)
    ensures var l, r := BLeft(c, d), BRight(c, d, sib);
            BOwned(l) && BOwned(r) && BNodes(l) !! BNodes(r) && BNodes(l) + BNodes(r) == BNodes(c) + {sib}
  {
    if c.BInner? {
      var l, r := BLeft(c, d), BRight(c, d, sib);
      AllBKidNodes(c.kids);
      forall i | 0 <= i < |r.kids| ensures r.kids[i] == c.kids[d + i] && sib !in BNodes(r.kids[i]) {}
      forall i | 0 <= i < |l.kids| ensures l.kids[i] == c.kids[i] {}
      BDisjointHalves(c.kids, d);
      BForestNodesConcat(c.kids[..d], c.kids[d..]);
      assert c.kids == c.kids[..d] + c.kids[d..];
      forall n | n in BForestNodes(c.kids[d..]) ensures n != c.id {
        var i := BNodeOf(c.kids[d..], n);
        assert c.kids[d..][i] == c.kids[d + i];
      }
    }
  }

  lemma BDisjointHalves<N, V>(ts: seq<BTree<N, V>>, j: nat)
    requires j <= |ts| && BDisjoint(ts)
    ensures BForestNodes(ts[..j]) !! BForestNodes(ts[j..])
  {
    forall n | n in BForestNodes(ts[..j]) && n in BForestNodes(ts[j..]) ensures false {
      var a := BNodeOf(ts[..j], n);
      var b := BNodeOf(ts[j..], n);
      assert false;
    }
  }

  lemma BOwnedSplit<N, V>(t: BTree<N, V>, i: nat, d: nat, sib: N, es: seq<Entry<V>>)
    requires t.BInner? && i < |t.kids| && BSplittable(t.kids[i], d) && BOwned(t) && sib !in BNodes(t)
    ensures BOwned(BInner(t.id, es, BSplitKids(t.kids, i, d, sib)))
    ensures BNodes(BInner(t.id, es, BSplitKids(t.kids, i, d, sib))) == BNodes(t) + {sib}
  {
    var c := t.kids[i];
    var l, r := BLeft(c, d), BRight(c, d, sib);
    var kids' := BSplitKids(t.kids, i, d, sib);
    AllBKidNodes(t.kids);
    BHalvesNodes(c, d, sib);
    forall m | 0 <= m < |kids'|
      ensures t.id !in BNodes(kids'[m]) && BOwned(kids'[m])
      ensures BNodes(kids'[m]) <= BNodes(t) + {sib}
    {
      BSplitMember(t.kids, i, d, sib, m);
    }
    forall a, b | 0 <= a < b < |kids'|
      ensures BNodes(kids'[a]) !! BNodes(kids'[b])
    {
      BSplitMember(t.kids, i, d, sib, a);
      BSplitMember(t.kids, i, d, sib, b);
    }
    BSplitNodes(t, i, d, sib, es);
  }

  lemma BSplitNodes<N, V>(t: BTree<N, V>, i: nat, d: nat, sib: N, es: seq<Entry<V>>)
    requires t.BInner? && i < |t.kids| && BSplittable(t.kids[i], d) && BOwned(t.kids[i]) && sib !in BNodes(t)
    ensures BNodes(BInner(t.id, es, BSplitKids(t.kids, i, d, sib))) == BNodes(t) + {sib}
  {
    var a, b := t.kids[..i], t.kids[i + 1..];
    var l, r := BLeft(t.kids[i], d), BRight(t.kids[i], d, sib);
    BKidNodes(t.kids, i);
    BHalvesNodes(t.kids[i], d, sib);
    BForestNodesAt(t.kids, i);
    assert [l, r] == [l] + [r];
    BForestNodesConcat([l], [r]);
    BSingleNodes(l);
    BSingleNodes(r);
    BForestNodesConcat(a + [l, r], b);
    BForestNodesConcat(a, [l, r]);
  }

  lemma BOtherKid<N, V>(t: BTree<N, V>, i: nat, m: nat)
    requires t.BInner? && BOwned(t) && i < |t.kids| && m < |t.kids| && m != i
    ensures BNodes(t.kids[m]) !! BNodes(t.kids[i]) && t.id !in BNodes(t.kids[m])
    ensures t.kids[i].id !in BNodes(t.kids[m])
  {
    assert i < m ==> BNodes(t.kids[i]) !! BNodes(t.kids[m]);
    assert m < i ==> BNodes(t.kids[m]) !! BNodes(t.kids[i]);
    assert t.kids[i].id in BNodes(t.kids[i]);
  }

  lemma BSplitIds<N, V>(kids: seq<BTree<N, V>>, i: nat, d: nat, sib: N)
    requires i < |kids| && BSplittable(kids[i], d)
    ensures BIds(BSplitKids(kids, i, d, sib)) == InsertAt(BIds(kids), i + 1, sib)
  {
    forall m | 0 <= m < |kids| + 1
      ensures BIds(BSplitKids(kids, i, d, sib))[m] == InsertAt(BIds(kids), i + 1, sib)[m]
    {
      BSplitMember(kids, i, d, sib, m);
    }
  }

  // ---------------------------------------------------------------- freeing child after child

  /** Which nodes are freed, about to be freed and still live when the loop reaches child i. */
  lemma BFreeStepNodes<N, V>(kids: seq<BTree<N, V>>, i: nat)
    requires i < |kids| && BDisjoint(kids)
    ensures BForestNodes(kids[i..]) == BNodes(kids[i]) + BForestNodes(kids[i + 1..])
    ensures BForestNodes(kids[..i + 1]) == BForestNodes(kids[..i]) + BNodes(kids[i])
    ensures BForestNodes(kids[..i]) !! BForestNodes(kids[i..])
    ensures BNodes(kids[i]) !! BForestNodes(kids[i + 1..])
    ensures BForestNodes(kids[..i]) <= BForestNodes(kids) && BForestNodes(kids[i..]) <= BForestNodes(kids)
  {
    BFreeStepUnions(kids, i);
    hide BNodes, BDisjoint, BForestNodes;
    BDisjointHalves(kids, i);
    BDisjointHalves(kids, i + 1);
  }

  lemma BFirstOfRest<N, V>(kids: seq<BTree<N, V>>, i: nat)
    requires i < |kids|
    ensures BForestNodes(kids[i..]) == BNodes(kids[i]) + BForestNodes(kids[i + 1..])
  {
    hide BNodes;
    assert kids[i..][0] == kids[i] && kids[i..][1..] == kids[i + 1..];
  }

  lemma BFreeStepUnions<N, V>(kids: seq<BTree<N, V>>, i: nat)
    requires i < |kids|
    ensures BForestNodes(kids[i..]) == BNodes(kids[i]) + BForestNodes(kids[i + 1..])
    ensures BForestNodes(kids[..i + 1]) == BForestNodes(kids[..i]) + BNodes(kids[i])
    ensures BForestNodes(kids) == BForestNodes(kids[..i]) + BForestNodes(kids[i..])
  {
    hide BNodes, BForestNodes;
    BFirstOfRest(kids, i);
    BSingleNodes(kids[i]);
    BForestNodesConcat(kids[..i], [kids[i]]);
    BForestNodesConcat(kids[..i], kids[i..]);
    assert kids[..i + 1] == kids[..i] + [kids[i]] && kids == kids[..i] + kids[i..];
  }

  lemma BOwnNotBelow<N, V>(t: BTree<N, V>)
    requires t.BInner? && BOwned(t)
    ensures t.id !in BForestNodes(t.kids)
  {
    if t.id in BForestNodes(t.kids) {
      var i := BNodeOf(t.kids, t.id);
    }
  }

  // ---------------------------------------------------------------- inserting below a node

  /** t' is t with a key bound, in place. */
  ghost predicate BBound<N, V>(t: BTree<N, V>, t': BTree<N, V>, key: Key, value: V, d: nat, h: nat, lo: int, hi: int) {
    && t'.id == t.id && (t.BInner? ==> t'.BInner?) && |t'.es| >= |t.es|
    && BWf(t', d, h, lo, hi) && InOrder(t') == Upsert(InOrder(t), key, value)
  }

  lemma BBoundBelow<N, V>(t: BTree<N, V>, j: nat, c: BTree<N, V>, key: Key, value: V, d: nat, h: nat, lo: int, hi: int)
    requires d >= 2 && t.BInner? && BWf(t, d, h, lo, hi) && BBounds(t.es, j, key) && j < |t.kids|
    requires BBound(t.kids[j], c, key, value, d, h - 1, BLo(t.es, lo, j), BHi(t.es, hi, j))
    ensures BBound(t, t.(kids := t.kids[j := c]), key, value, d, h, lo, hi)
  {
    BindInChild(t, j, c, key, value, d, h, lo, hi);
  }

  lemma BAbsentBelow<N, V>(t: BTree<N, V>, j: nat, key: Key)
    requires t.BInner? && |t.kids| == |t.es| + 1 && j < |t.kids| && !HasKey(InOrder(t), key)
    ensures !HasKey(InOrder(t.kids[j]), key)
  {
    InOrderAt(t.es, t.kids, j);
    var a, b := Upto(t.es, t.kids, j), InOrder(t.kids[j]);
    forall i | 0 <= i < |b| ensures b[i].key != key {
      assert InOrder(t)[|a| + i] == b[i];
    }
  }

  /** An absent key is none of the keys in the node. */
  lemma AbsentInNode<N, V>(t: BTree<N, V>, key: Key)
    requires t.BInner? && |t.kids| == |t.es| + 1 && !HasKey(InOrder(t), key)
    ensures forall i :: 0 <= i < |t.es| ==> t.es[i].key != key
  {
    forall i | 0 <= i < |t.es| ensures t.es[i].key != key {
      InOrderAt(t.es, t.kids, i);
      var a := Upto(t.es, t.kids, i) + InOrder(t.kids[i]);
      assert After(t.es, t.kids, i)[0] == t.es[i];
      assert InOrder(t)[|a|] == t.es[i];
    }
  }

  /** After a split the strict comparison with the entry that moved up picks the half that bounds the key. */
  lemma BSplitBounds<N, V>(t: BTree<N, V>, j: nat, d: nat, h: nat, lo: int, hi: int, sib: N, key: Key)
    requires d >= 2 && t.BInner? && BWf(t, d, h, lo, hi) && |t.es| < 2 * d - 1
    requires j < |t.kids| && BBounds(t.es, j, key) && BSplittable(t.kids[j], d) && !HasKey(InOrder(t), key)
    ensures var t', mid := BSplitTree(t, j, d, sib), t.kids[j].es[d - 1].key;
            && j < |t'.es| && |t'.kids| == |t'.es| + 1 && t'.es[j].key == mid && mid != key
            && BWf(t', d, h, lo, hi) && InOrder(t') == InOrder(t)
            && (mid < key ==> BBounds(t'.es, j + 1, key) && |t'.kids[j + 1].es| < 2 * d - 1)
            && (key < mid ==> BBounds(t'.es, j, key) && |t'.kids[j].es| < 2 * d - 1)
  {
    var t' := BSplitTree(t, j, d, sib);
    BSplitWf(t, j, d, h, lo, hi, sib);
    BSplitInOrder(t, j, d, sib);
    AbsentInNode(t', key);
    BSplitMember(t.kids, j, d, sib, j);
    BSplitMember(t.kids, j, d, sib, j + 1);
  }

  /** A node above a tree, with the tree as its only child: the moment before the root is split. */
  lemma BOneKid<N, V>(t: BTree<N, V>, id: N, d: nat, h: nat, lo: int, hi: int)
    requires BWf(t, d, h, lo, hi) && BOwned(t) && d >= 2 && |t.es| >= d - 1 && id !in BNodes(t)
    ensures var t0 := BInner(id, [], [t]);
            && BWf(t0, d, h + 1, lo, hi) && BOwned(t0)
            && InOrder(t0) == InOrder(t) && BNodes(t0) == BNodes(t) + {id}
  {
    var t0 := BInner(id, [], [t]);
    BSingleNodes(t);
    assert BKidWf([], t, 0, d, h, lo, hi);
    forall i | 0 <= i < |t0.kids| ensures BKidWf(t0.es, t0.kids[i], i, d, h, lo, hi) {}
    assert BKidsWf(t0.es, t0.kids, d, h, lo, hi);
    assert After(t0.es, t0.kids, 0) == [];
  }
}
