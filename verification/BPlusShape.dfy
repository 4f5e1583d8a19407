/**
 * The value of a B+-tree: what its nodes hold, with N the type of a node's identity
 * (an object reference in memory, an object id in a persistent pool) and V the type of
 * what a leaf slot holds (a value, or a reference to a record).
 */
module BPlusShape {
  import opened Base
  import opened SortedMap
  import opened Arrays

  datatype Tree<N, V> =
    | Leaf(id: N, es: seq<Entry<V>>)
    | Inner(id: N, ks: seq<Key>, kids: seq<Tree<N, V>>)
  {
    ghost function Size(): nat {
      if Leaf? then |es| else |ks|
    }
  }

  /** The leaves, left to right. */
  ghost function Leaves<N, V>(t: Tree<N, V>): seq<Tree<N, V>>
    decreases t
  {
    match t
    case Leaf(_, _) => [t]
    case Inner(_, _, kids) => ForestLeaves(kids)
  }

  ghost function ForestLeaves<N, V>(ts: seq<Tree<N, V>>): seq<Tree<N, V>>
    decreases ts
  {
    if ts == [] then [] else Leaves(ts[0]) + ForestLeaves(ts[1..])
  }

  /** The entries of a row of leaves, in order. */
  ghost function Cat<N, V>(ls: seq<Tree<N, V>>): seq<Entry<V>>
  {
    if ls == [] then [] else (if ls[0].Leaf? then ls[0].es else []) + Cat(ls[1..])
  }

  /** The ordered leaf contents: the abstract state of the tree. */
  ghost function Entries<N, V>(t: Tree<N, V>): seq<Entry<V>> {
    Cat(Leaves(t))
  }

  ghost function Forest<N, V>(ts: seq<Tree<N, V>>): seq<Entry<V>> {
    Cat(ForestLeaves(ts))
  }

  /** Identities of a row of trees. */
  ghost function Ids<N, V>(ts: seq<Tree<N, V>>): (r: seq<N>)
    ensures |r| == |ts|
    ensures forall i :: 0 <= i < |ts| ==> r[i] == ts[i].id
  {
    seq(|ts|, i requires 0 <= i < |ts| => ts[i].id)
  }

  /** The identities of the leaves, left to right. */
  ghost function Row<N, V>(t: Tree<N, V>): seq<N> {
    Ids(Leaves(t))
  }

  /** The identities of all nodes. */
  ghost function Nodes<N, V>(t: Tree<N, V>): set<N>
    decreases t
  {
    match t
    case Leaf(id, _) => {id}
    case Inner(id, _, kids) => {id} + ForestNodes(kids)
  }

  ghost function ForestNodes<N, V>(ts: seq<Tree<N, V>>): set<N>
    decreases ts
  {
    if ts == [] then {} else Nodes(ts[0]) + ForestNodes(ts[1..])
  }

  ghost function Members<X>(ls: seq<X>): (r: set<X>)
    ensures forall i :: 0 <= i < |ls| ==> ls[i] in r
  {
    set n | n in ls
  }

  lemma {:induction false} KidNodes<N, V>(ts: seq<Tree<N, V>>, i: nat)
    requires i < |ts|
    ensures Nodes(ts[i]) <= ForestNodes(ts)
  {
    if i > 0 {
      KidNodes(ts[1..], i - 1);
    }
  }

  lemma AllKidNodes<N, V>(ts: seq<Tree<N, V>>)
    ensures forall i :: 0 <= i < |ts| ==> Nodes(ts[i]) <= ForestNodes(ts)
  {
    forall i | 0 <= i < |ts| ensures Nodes(ts[i]) <= ForestNodes(ts) {
      KidNodes(ts, i);
    }
  }

  /** No node occurs twice. */
  ghost predicate Owned<N, V>(t: Tree<N, V>)
    decreases t
  {
    t.Inner? ==>
      && (forall i :: 0 <= i < |t.kids| ==> t.id !in Nodes(t.kids[i]) && Owned(t.kids[i]))
      && Disjoint(t.kids)
  }

  ghost predicate Disjoint<N, V>(ts: seq<Tree<N, V>>) {
    forall i, j :: 0 <= i < j < |ts| ==> Nodes(ts[i]) !! Nodes(ts[j])
  }

  /** The smallest key of a tree, found by going left; -1 for an empty leaf. */
  ghost function First<N, V>(t: Tree<N, V>): int
    decreases t
  {
    match t
    case Leaf(_, es) => if es == [] then -1 else es[0].key
    case Inner(_, _, kids) => if kids == [] then -1 else First(kids[0])
  }

  /** Bounds of child i between its separators. */
  ghost function Lo(ks: seq<Key>, lo: int, i: nat): int
    requires i <= |ks|
  {
    if i == 0 then lo else ks[i - 1]
  }

  ghost function Hi(ks: seq<Key>, hi: int, i: nat): int
    requires i <= |ks|
  {
    if i == |ks| then hi else ks[i]
  }

  /**
   * A well-formed tree of minimum degree d and height h whose keys lie in [lo, hi):
   * leaves sorted and at one depth, nodes below the root at least half full, and each
   * separator equal to the smallest key stored under the child to its right.
   */
  ghost predicate Wf<N, V>(t: Tree<N, V>, d: nat, h: nat, lo: int, hi: int)
    decreases t, 0
  {
    match t
    case Leaf(_, es) => h == 0 && |es| <= 2 * d - 1 && Ascending(es) && Within(es, lo, hi)
    case Inner(_, ks, kids) => h > 0 && |ks| <= 2 * d - 1 && KidsWf(ks, kids, d, h - 1, lo, hi)
  }

  ghost predicate KidsWf<N, V>(ks: seq<Key>, kids: seq<Tree<N, V>>, d: nat, h: nat, lo: int, hi: int)
    decreases kids
  {
    && |kids| == |ks| + 1
    && forall i :: 0 <= i < |kids| ==> KidWf(ks, kids[i], i, d, h, lo, hi)
  }

  ghost predicate KidWf<N, V>(ks: seq<Key>, kid: Tree<N, V>, i: nat, d: nat, h: nat, lo: int, hi: int)
    decreases kid, 1
  {
    && i <= |ks|
    && Wf(kid, d, h, Lo(ks, lo, i), Hi(ks, hi, i))
    && kid.Size() >= d - 1
    && (i > 0 ==> First(kid) == ks[i - 1])
  }

  // ---------------------------------------------------------------- rows of trees

  lemma {:induction false} CatConcat<N, V>(a: seq<Tree<N, V>>, b: seq<Tree<N, V>>)
    ensures Cat(a + b) == Cat(a) + Cat(b)
  {
    if a == [] {
      assert a + b == b;
    } else {
      CatConcat(a[1..], b);
      assert (a + b)[1..] == a[1..] + b;
    }
  }

  lemma {:induction false} ForestLeavesConcat<N, V>(a: seq<Tree<N, V>>, b: seq<Tree<N, V>>)
    ensures ForestLeaves(a + b) == ForestLeaves(a) + ForestLeaves(b)
  {
    hide Leaves;
    if a == [] {
      assert a + b == b;
    } else {
      ForestLeavesConcat(a[1..], b);
      assert (a + b)[1..] == a[1..] + b;
      assert ForestLeaves(a + b) == Leaves(a[0]) + (ForestLeaves(a[1..]) + ForestLeaves(b));
    }
  }

  lemma ForestConcat<N, V>(a: seq<Tree<N, V>>, b: seq<Tree<N, V>>)
    ensures Forest(a + b) == Forest(a) + Forest(b)
  {
    ForestLeavesConcat(a, b);
    CatConcat(ForestLeaves(a), ForestLeaves(b));
  }

  lemma ForestLeavesAt<N, V>(ts: seq<Tree<N, V>>, j: nat)
    requires j < |ts|
    ensures ForestLeaves(ts) == ForestLeaves(ts[..j]) + Leaves(ts[j]) + ForestLeaves(ts[j + 1..])
  {
    hide Leaves;
    assert ts == ts[..j] + ts[j..] && ts[j..][1..] == ts[j + 1..];
    ForestLeavesConcat(ts[..j], ts[j..]);
    Associative(ForestLeaves(ts[..j]), Leaves(ts[j]), ForestLeaves(ts[j + 1..]));
  }

  /** A row of trees around its j-th member. */
  lemma ForestAt<N, V>(ts: seq<Tree<N, V>>, j: nat)
    requires j < |ts|
    ensures ForestLeaves(ts) == ForestLeaves(ts[..j]) + Leaves(ts[j]) + ForestLeaves(ts[j + 1..])
    ensures Forest(ts) == Forest(ts[..j]) + Entries(ts[j]) + Forest(ts[j + 1..])
  {
    hide Leaves, ForestLeaves, Cat;
    ForestLeavesAt(ts, j);
    CatConcat(ForestLeaves(ts[..j]) + Leaves(ts[j]), ForestLeaves(ts[j + 1..]));
    CatConcat(ForestLeaves(ts[..j]), Leaves(ts[j]));
  }

  // ---------------------------------------------------------------- slices of children

  lemma KidsWfSlice<N, V>(ks: seq<Key>, kids: seq<Tree<N, V>>, d: nat, h: nat, lo: int, hi: int, a: nat, b: nat)
    requires KidsWf(ks, kids, d, h, lo, hi)
    requires a <= b <= |ks|
    ensures KidsWf(ks[a..b], kids[a..b + 1], d, h, Lo(ks, lo, a), Hi(ks, hi, b))
  {
    var ks', kids' := ks[a..b], kids[a..b + 1];
    forall i | 0 <= i < |kids'|
      ensures KidWf(ks', kids'[i], i, d, h, Lo(ks, lo, a), Hi(ks, hi, b))
    {
      assert KidWf(ks, kids[a + i], a + i, d, h, lo, hi);
    }
  }

  /** Well-formed trees hold sorted keys inside their bounds, the first one where First finds it. */
  lemma {:induction false} WfEntries<N, V>(t: Tree<N, V>, d: nat, h: nat, lo: int, hi: int)
    requires Wf(t, d, h, lo, hi) && d >= 2
    ensures Ascending(Entries(t)) && Within(Entries(t), lo, hi)
    ensures t.Size() > 0 ==> Entries(t) != [] && Entries(t)[0].key == First(t)
    decreases t, 1
  {
    match t
    case Leaf(_, es) =>
      assert Cat([t][1..]) == [];
      assert Entries(t) == es;
    case Inner(_, ks, kids) =>
      KidsEntries(ks, kids, d, h - 1, lo, hi);
  }

  lemma {:induction false} KidsEntries<N, V>(ks: seq<Key>, kids: seq<Tree<N, V>>, d: nat, h: nat, lo: int, hi: int)
    requires KidsWf(ks, kids, d, h, lo, hi) && d >= 2
    ensures Ascending(Forest(kids)) && Within(Forest(kids), lo, hi)
    ensures Forest(kids) != [] && Forest(kids)[0].key == First(kids[0])
    ensures lo < hi
    decreases kids, 0
  {
    assert KidWf(ks, kids[0], 0, d, h, lo, hi);
    WfEntries(kids[0], d, h, lo, Hi(ks, hi, 0));
    CatConcat(Leaves(kids[0]), ForestLeaves(kids[1..]));
    if ks == [] {
      assert kids[1..] == [];
    } else {
      KidsWfSlice(ks, kids, d, h, lo, hi, 1, |ks|);
      assert ks[1..|ks|] == ks[1..] && kids[1..|ks| + 1] == kids[1..];
      KidsEntries(ks[1..], kids[1..], d, h, ks[0], hi);
      AscendingConcat(Entries(kids[0]), Forest(kids[1..]), lo, ks[0], hi);
    }
  }

  // ---------------------------------------------------------------- replacing and splitting a child

  lemma KidsWfReplace<N, V>(ks: seq<Key>, kids: seq<Tree<N, V>>, j: nat, c: Tree<N, V>,
                            d: nat, h: nat, lo: int, hi: int)
    requires KidsWf(ks, kids, d, h, lo, hi) && j < |kids|
    requires KidWf(ks, c, j, d, h, lo, hi)
    ensures KidsWf(ks, kids[j := c], d, h, lo, hi)
  {
    var kids' := kids[j := c];
    forall i | 0 <= i < |kids'|
      ensures KidWf(ks, kids'[i], i, d, h, lo, hi)
    {
      if i != j { assert KidWf(ks, kids[i], i, d, h, lo, hi); }
    }
  }

  /** A full node: `is_node_full`. */
  ghost predicate Splittable<N, V>(c: Tree<N, V>, d: nat) {
    d >= 2 && c.Size() == 2 * d - 1 && (c.Inner? ==> |c.kids| == 2 * d)
  }

  /** The left half, the right half and the separator `split_node` makes of a full node. */
  ghost function LeftHalf<N, V>(c: Tree<N, V>, d: nat): Tree<N, V>
    requires Splittable(c, d)
  {
    match c
    case Leaf(id, es) => Leaf(id, es[..d - 1])
    case Inner(id, ks, kids) => Inner(id, ks[..d - 1], kids[..d])
  }

  ghost function RightHalf<N, V>(c: Tree<N, V>, d: nat, sib: N): Tree<N, V>
    requires Splittable(c, d)
  {
    match c
    case Leaf(_, es) => Leaf(sib, es[d - 1..])
    case Inner(_, ks, kids) => Inner(sib, ks[d..], kids[d..])
  }

  ghost function Separator<N, V>(c: Tree<N, V>, d: nat): Key
    requires Splittable(c, d)
  {
    match c
    case Leaf(_, es) => es[d - 1].key
    case Inner(_, ks, _) => ks[d - 1]
  }

  /** The row of children after child i gave way to its two halves. */
  ghost function SplitKids<N, V>(kids: seq<Tree<N, V>>, i: nat, d: nat, sib: N): seq<Tree<N, V>>
    requires i < |kids| && Splittable(kids[i], d)
  {
    kids[..i] + [LeftHalf(kids[i], d), RightHalf(kids[i], d, sib)] + kids[i + 1..]
  }

  lemma HalvesWf<N, V>(c: Tree<N, V>, d: nat, h: nat, lo: int, hi: int, sib: N)
    requires Wf(c, d, h, lo, hi) && Splittable(c, d)
    ensures var l, r, sep := LeftHalf(c, d), RightHalf(c, d, sib), Separator(c, d);
            && Wf(l, d, h, lo, sep) && Wf(r, d, h, sep, hi)
            && First(l) == First(c) && First(r) == sep
            && l.Size() == d - 1 && r.Size() == if c.Leaf? then d else d - 1
  {
    if c.Inner? {
      LeftHalfWf(c.ks, c.kids, d, h - 1, lo, hi);
      RightHalfWf(c.ks, c.kids, d, h - 1, lo, hi);
    }
  }

  lemma LeftHalfWf<N, V>(ks: seq<Key>, kids: seq<Tree<N, V>>, d: nat, h: nat, lo: int, hi: int)
    requires d >= 2 && |ks| == 2 * d - 1 && KidsWf(ks, kids, d, h, lo, hi)
    ensures |kids| == 2 * d && KidsWf(ks[..d - 1], kids[..d], d, h, lo, ks[d - 1])
  {
    KidsWfSlice(ks, kids, d, h, lo, hi, 0, d - 1);
    assert ks[0..d - 1] == ks[..d - 1] && kids[0..d - 1 + 1] == kids[..d];
  }

  lemma RightHalfWf<N, V>(ks: seq<Key>, kids: seq<Tree<N, V>>, d: nat, h: nat, lo: int, hi: int)
    requires d >= 2 && |ks| == 2 * d - 1 && KidsWf(ks, kids, d, h, lo, hi)
    ensures |kids| == 2 * d && KidsWf(ks[d..], kids[d..], d, h, ks[d - 1], hi)
    ensures First(kids[d..][0]) == ks[d - 1]
  {
    KidsWfSlice(ks, kids, d, h, lo, hi, d, |ks|);
    assert ks[d..|ks|] == ks[d..] && kids[d..|ks| + 1] == kids[d..];
    assert KidWf(ks, kids[d], d, d, h, lo, hi);
  }

  lemma HalvesEntries<N, V>(c: Tree<N, V>, d: nat, sib: N)
    requires Splittable(c, d)
    ensures Entries(LeftHalf(c, d)) + Entries(RightHalf(c, d, sib)) == Entries(c)
    ensures c.Inner? ==> Leaves(LeftHalf(c, d)) + Leaves(RightHalf(c, d, sib)) == Leaves(c)
  {
    match c
    case Leaf(_, es) =>
      LeafEntries(c);
      LeafEntries(LeftHalf(c, d));
      LeafEntries(RightHalf(c, d, sib));
      assert es[..d - 1] + es[d - 1..] == es;
    case Inner(_, _, kids) =>
      assert kids[..d] + kids[d..] == kids;
      ForestLeavesConcat(kids[..d], kids[d..]);
      ForestConcat(kids[..d], kids[d..]);
  }

  lemma LeafEntries<N, V>(c: Tree<N, V>)
    requires c.Leaf?
    ensures Entries(c) == c.es
  {
    assert Cat([c][1..]) == [];
  }

  /** `split_node` keeps the parent well formed ... */
  lemma SplitKidsWf<N, V>(ks: seq<Key>, kids: seq<Tree<N, V>>, i: nat, d: nat, h: nat, lo: int, hi: int, sib: N)
    requires KidsWf(ks, kids, d, h, lo, hi)
    requires i < |kids| && Splittable(kids[i], d)
    ensures KidWf(ks, kids[i], i, d, h, lo, hi)
    ensures KidsWf(InsertAt(ks, i, Separator(kids[i], d)), SplitKids(kids, i, d, sib), d, h, lo, hi)
  {
    var c := kids[i];
    assert KidWf(ks, c, i, d, h, lo, hi);
    HalvesWf(c, d, h, Lo(ks, lo, i), Hi(ks, hi, i), sib);
    var ks', kids' := InsertAt(ks, i, Separator(c, d)), SplitKids(kids, i, d, sib);
    forall m | 0 <= m < |kids'|
      ensures KidWf(ks', kids'[m], m, d, h, lo, hi)
    {
      if m < i {
        assert KidWf(ks, kids[m], m, d, h, lo, hi);
      } else if m > i + 1 {
        assert KidWf(ks, kids[m - 1], m - 1, d, h, lo, hi);
      }
    }
  }

  /** ... and keeps its contents. */
  lemma SplitKidsEntries<N, V>(kids: seq<Tree<N, V>>, i: nat, d: nat, sib: N)
    requires i < |kids| && Splittable(kids[i], d)
    ensures Forest(SplitKids(kids, i, d, sib)) == Forest(kids)
    ensures kids[i].Inner? ==> ForestLeaves(SplitKids(kids, i, d, sib)) == ForestLeaves(kids)
  {
    hide Leaves, ForestLeaves, Cat, LeftHalf, RightHalf;
    var l, r := LeftHalf(kids[i], d), RightHalf(kids[i], d, sib);
    HalvesEntries(kids[i], d, sib);
    ForestAt(kids, i);
    RowOfTwo(kids[..i], l, r, kids[i + 1..]);
  }

  /** Splitting a leaf puts the new leaf right after it in the row of leaves. */
  lemma SplitKidsLeaves<N, V>(kids: seq<Tree<N, V>>, i: nat, d: nat, sib: N)
    requires i < |kids| && Splittable(kids[i], d) && kids[i].Leaf?
    ensures ForestLeaves(kids) == ForestLeaves(kids[..i]) + [kids[i]] + ForestLeaves(kids[i + 1..])
    ensures ForestLeaves(SplitKids(kids, i, d, sib)) == ForestLeaves(kids[..i]) +
              [LeftHalf(kids[i], d), RightHalf(kids[i], d, sib)] + ForestLeaves(kids[i + 1..])
  {
    var l, r := LeftHalf(kids[i], d), RightHalf(kids[i], d, sib);
    ForestAt(kids, i);
    RowOfTwo(kids[..i], l, r, kids[i + 1..]);
    assert Leaves(l) + Leaves(r) == [l, r];
  }

  lemma RowOfTwo<N, V>(a: seq<Tree<N, V>>, l: Tree<N, V>, r: Tree<N, V>, b: seq<Tree<N, V>>)
    ensures ForestLeaves(a + [l, r] + b) == ForestLeaves(a) + (Leaves(l) + Leaves(r)) + ForestLeaves(b)
    ensures Forest(a + [l, r] + b) == Forest(a) + (Entries(l) + Entries(r)) + Forest(b)
  {
    hide Leaves, ForestLeaves, Cat;
    PairLeaves(l, r);
    ForestLeavesConcat(a + [l, r], b);
    ForestLeavesConcat(a, [l, r]);
    CatConcat(ForestLeaves(a) + ForestLeaves([l, r]), ForestLeaves(b));
    CatConcat(ForestLeaves(a), ForestLeaves([l, r]));
  }

  lemma PairLeaves<N, V>(l: Tree<N, V>, r: Tree<N, V>)
    ensures ForestLeaves([l, r]) == Leaves(l) + Leaves(r)
    ensures Forest([l, r]) == Entries(l) + Entries(r)
  {
    assert [l, r][1..] == [r] && [r][1..] == [];
    assert ForestLeaves([r]) == Leaves(r) + [];
    CatConcat(Leaves(l), Leaves(r));
  }

  // ---------------------------------------------------------------- where a key lives

  /** Child j is the one whose bounds contain k (descending right on an equal separator). */
  ghost predicate Bounds(ks: seq<Key>, j: nat, k: Key) {
    && j <= |ks|
    && (j > 0 ==> ks[j - 1] <= k)
    && (j < |ks| ==> k < ks[j])
  }

  /** Everything left of child j is below its lower separator. */
  lemma LeftOf<N, V>(ks: seq<Key>, kids: seq<Tree<N, V>>, j: nat, d: nat, h: nat, lo: int, hi: int)
    requires KidsWf(ks, kids, d, h, lo, hi) && d >= 2 && j <= |ks|
    ensures Within(Forest(kids[..j]), lo, Lo(ks, lo, j))
    ensures Ascending(Forest(kids[..j]))
  {
    if j > 0 {
      KidsWfSlice(ks, kids, d, h, lo, hi, 0, j - 1);
      assert kids[0..j - 1 + 1] == kids[..j];
      KidsEntries(ks[0..j - 1], kids[..j], d, h, lo, ks[j - 1]);
    }
  }

  /** Everything right of child j is at or above its upper separator. */
  lemma RightOf<N, V>(ks: seq<Key>, kids: seq<Tree<N, V>>, j: nat, d: nat, h: nat, lo: int, hi: int)
    requires KidsWf(ks, kids, d, h, lo, hi) && d >= 2 && j <= |ks|
    ensures Within(Forest(kids[j + 1..]), Hi(ks, hi, j), hi)
    ensures Ascending(Forest(kids[j + 1..]))
  {
    if j < |ks| {
      KidsWfSlice(ks, kids, d, h, lo, hi, j + 1, |ks|);
      assert kids[j + 1..|ks| + 1] == kids[j + 1..];
      KidsEntries(ks[j + 1..|ks|], kids[j + 1..], d, h, ks[j], hi);
    }
  }

  lemma ForestLookup<N, V>(ks: seq<Key>, kids: seq<Tree<N, V>>, j: nat, k: Key, d: nat, h: nat, lo: int, hi: int)
    requires KidsWf(ks, kids, d, h, lo, hi) && d >= 2 && Bounds(ks, j, k)
    ensures Lookup(Forest(kids), k) == Lookup(Entries(kids[j]), k)
  {
    LeftOf(ks, kids, j, d, h, lo, hi);
    RightOf(ks, kids, j, d, h, lo, hi);
    ForestAt(kids, j);
    LookupMiddle(Forest(kids[..j]), Entries(kids[j]), Forest(kids[j + 1..]), k);
  }

  /** A separator is a key still stored in a leaf, so an absent key never equals one. */
  lemma SeparatorStored<N, V>(ks: seq<Key>, kids: seq<Tree<N, V>>, i: nat, d: nat, h: nat, lo: int, hi: int)
    requires KidsWf(ks, kids, d, h, lo, hi) && d >= 2 && i < |ks|
    ensures HasKey(Forest(kids), ks[i])
    ensures First(kids[i + 1]) == ks[i] && Entries(kids[i + 1]) != [] && Entries(kids[i + 1])[0].key == ks[i]
  {
    assert KidWf(ks, kids[i + 1], i + 1, d, h, lo, hi);
    WfEntries(kids[i + 1], d, h, ks[i], Hi(ks, hi, i + 1));
    ForestAt(kids, i + 1);
    assert Forest(kids)[|Forest(kids[..i + 1])|] == Entries(kids[i + 1])[0];
  }

  lemma UpsertFirst<V>(s: seq<Entry<V>>, k: Key, v: V)
    requires s != []
    ensures Upsert(s, k, v) != []
    ensures Upsert(s, k, v)[0].key == if k < s[0].key then k else s[0].key
  {
  }

  /** Binding a key in the child that bounds it binds it in the row and keeps the row well formed. */
  lemma UpsertBelow<N, V>(ks: seq<Key>, kids: seq<Tree<N, V>>, j: nat, c: Tree<N, V>, k: Key, v: V,
                          d: nat, h: nat, lo: int, hi: int)
    requires KidsWf(ks, kids, d, h, lo, hi) && d >= 2 && Bounds(ks, j, k)
    requires Wf(c, d, h, Lo(ks, lo, j), Hi(ks, hi, j)) && c.Size() >= kids[j].Size()
    requires Entries(c) == Upsert(Entries(kids[j]), k, v)
    ensures KidsWf(ks, kids[j := c], d, h, lo, hi)
    ensures Forest(kids[j := c]) == Upsert(Forest(kids), k, v)
  {
    var lo', hi' := Lo(ks, lo, j), Hi(ks, hi, j);
    assert KidWf(ks, kids[j], j, d, h, lo, hi);
    WfEntries(kids[j], d, h, lo', hi');
    WfEntries(c, d, h, lo', hi');
    UpsertFirst(Entries(kids[j]), k, v);
    KidsWfReplace(ks, kids, j, c, d, h, lo, hi);
    UpsertRow(ks, kids, j, c, k, v, d, h, lo, hi);
  }

  lemma UpsertRow<N, V>(ks: seq<Key>, kids: seq<Tree<N, V>>, j: nat, c: Tree<N, V>, k: Key, v: V,
                        d: nat, h: nat, lo: int, hi: int)
    requires KidsWf(ks, kids, d, h, lo, hi) && d >= 2 && Bounds(ks, j, k)
    requires Entries(c) == Upsert(Entries(kids[j]), k, v)
    ensures Forest(kids[j := c]) == Upsert(Forest(kids), k, v)
  {
    LeftOf(ks, kids, j, d, h, lo, hi);
    RightOf(ks, kids, j, d, h, lo, hi);
    ForestAt(kids, j);
    ForestAt(kids[j := c], j);
    assert kids[j := c][..j] == kids[..j] && kids[j := c][j + 1..] == kids[j + 1..];
    UpsertMiddle(Forest(kids[..j]), Entries(kids[j]), Forest(kids[j + 1..]), k, v);
  }

  /** Separators ascend. */
  lemma SeparatorsAscend<N, V>(ks: seq<Key>, kids: seq<Tree<N, V>>, i: nat, d: nat, h: nat, lo: int, hi: int)
    requires KidsWf(ks, kids, d, h, lo, hi) && d >= 2 && i + 1 < |ks|
    ensures ks[i] < ks[i + 1]
  {
    assert KidWf(ks, kids[i + 1], i + 1, d, h, lo, hi);
    WfEntries(kids[i + 1], d, h, ks[i], ks[i + 1]);
  }

  /** `search` and `update_if_found` step over an equal separator: they reach the child that bounds the key. */
  lemma DescendRight<N, V>(ks: seq<Key>, kids: seq<Tree<N, V>>, i: nat, k: Key, d: nat, h: nat, lo: int, hi: int)
    requires KidsWf(ks, kids, d, h, lo, hi) && d >= 2 && i <= |ks|
    requires i > 0 ==> ks[i - 1] < k
    requires i < |ks| ==> k <= ks[i]
    ensures Bounds(ks, if i < |ks| && k == ks[i] then i + 1 else i, k)
  {
    if i + 1 < |ks| {
      SeparatorsAscend(ks, kids, i, d, h, lo, hi);
    }
  }

  /** The child an exact-match descent goes to: its subtree decides the lookup. */
  lemma DescendTo<N, V>(t: Tree<N, V>, i: nat, k: Key, d: nat, h: nat, lo: int, hi: int)
    requires t.Inner? && Wf(t, d, h, lo, hi) && d >= 2 && i <= |t.ks|
    requires i > 0 ==> t.ks[i - 1] < k
    requires i < |t.ks| ==> k <= t.ks[i]
    ensures var j := if i < |t.ks| && k == t.ks[i] then i + 1 else i;
            && Bounds(t.ks, j, k) && j < |t.kids|
            && Wf(t.kids[j], d, h - 1, Lo(t.ks, lo, j), Hi(t.ks, hi, j))
            && Lookup(Entries(t), k) == Lookup(Entries(t.kids[j]), k)
  {
    DescendRight(t.ks, t.kids, i, k, d, h - 1, lo, hi);
    var j := if i < |t.ks| && k == t.ks[i] then i + 1 else i;
    assert KidWf(t.ks, t.kids[j], j, d, h - 1, lo, hi);
    ForestLookup(t.ks, t.kids, j, k, d, h - 1, lo, hi);
  }

  // ---------------------------------------------------------------- ownership

  lemma OwnedReplace<N, V>(t: Tree<N, V>, j: nat, c: Tree<N, V>)
    requires t.Inner? && j < |t.kids| && Owned(t) && Owned(c)
    requires Nodes(t.kids[j]) <= Nodes(c)
    requires (Nodes(c) - Nodes(t.kids[j])) !! Nodes(t)
    ensures Owned(t.(kids := t.kids[j := c]))
    ensures Nodes(t.(kids := t.kids[j := c])) == Nodes(t) + Nodes(c)
  {
    var t' := t.(kids := t.kids[j := c]);
    AllKidNodes(t.kids);
    forall i | 0 <= i < |t'.kids|
      ensures t'.id !in Nodes(t'.kids[i]) && Owned(t'.kids[i])
    {
    }
    forall i, m | 0 <= i < m < |t'.kids|
      ensures Nodes(t'.kids[i]) !! Nodes(t'.kids[m])
    {
      assert Nodes(t.kids[i]) !! Nodes(t.kids[m]);
    }
    NodesReplace(t, j, c);
  }

  lemma {:induction false} ForestNodesConcat<N, V>(a: seq<Tree<N, V>>, b: seq<Tree<N, V>>)
    ensures ForestNodes(a + b) == ForestNodes(a) + ForestNodes(b)
  {
    hide Nodes;
    if a == [] {
      assert a + b == b;
    } else {
      ForestNodesConcat(a[1..], b);
      assert (a + b)[1..] == a[1..] + b;
    }
  }

  lemma UnionAssociative<X>(a: set<X>, b: set<X>, c: set<X>)
    ensures a + (b + c) == a + b + c
  {
  }

  lemma ForestNodesAt<N, V>(ts: seq<Tree<N, V>>, j: nat)
    requires j < |ts|
    ensures ForestNodes(ts) == ForestNodes(ts[..j]) + Nodes(ts[j]) + ForestNodes(ts[j + 1..])
  {
    hide Nodes;
    assert ts == ts[..j] + ts[j..] && ts[j..][1..] == ts[j + 1..];
    ForestNodesConcat(ts[..j], ts[j..]);
    UnionAssociative(ForestNodes(ts[..j]), Nodes(ts[j]), ForestNodes(ts[j + 1..]));
  }

  lemma SingleNodes<N, V>(c: Tree<N, V>)
    ensures ForestNodes([c]) == Nodes(c)
  {
    assert ForestNodes([c][1..]) == {};
  }

  /** The member of a row that holds a node. */
  lemma {:induction false} NodeOf<N, V>(ts: seq<Tree<N, V>>, n: N) returns (i: nat)
    requires n in ForestNodes(ts)
    ensures i < |ts| && n in Nodes(ts[i])
  {
    if n in Nodes(ts[0]) {
      i := 0;
    } else {
      i := NodeOf(ts[1..], n);
      i := i + 1;
    }
  }

  lemma NodesReplace<N, V>(t: Tree<N, V>, j: nat, c: Tree<N, V>)
    requires t.Inner? && j < |t.kids| && Nodes(t.kids[j]) <= Nodes(c)
    ensures Nodes(t.(kids := t.kids[j := c])) == Nodes(t) + Nodes(c)
  {
    var kids' := t.kids[j := c];
    ForestNodesAt(t.kids, j);
    ForestNodesAt(kids', j);
    assert kids'[..j] == t.kids[..j] && kids'[j + 1..] == t.kids[j + 1..];
  }

  lemma HalvesNodes<N, V>(c: Tree<N, V>, d: nat, sib: N)
    requires Splittable(c, d) && Owned(c) && sib !in Nodes(c)
    ensures var l, r := LeftHalf(c, d), RightHalf(c, d, sib);
            Owned(l) && Owned(r) && Nodes(l) !! Nodes(r) && Nodes(l) + Nodes(r) == Nodes(c) + {sib}
  {
    if c.Inner? {
      var l, r := LeftHalf(c, d), RightHalf(c, d, sib);
      AllKidNodes(c.kids);
      forall i | 0 <= i < |r.kids| ensures r.kids[i] == c.kids[d + i] && sib !in Nodes(r.kids[i]) {}
      forall i | 0 <= i < |l.kids| ensures l.kids[i] == c.kids[i] {}
      DisjointHalves(c.kids, d);
      ForestNodesConcat(c.kids[..d], c.kids[d..]);
      assert c.kids == c.kids[..d] + c.kids[d..];
      forall n | n in ForestNodes(c.kids[d..]) ensures n != c.id {
        var i := NodeOf(c.kids[d..], n);
        assert c.kids[d..][i] == c.kids[d + i];
      }
    }
  }

  lemma DisjointHalves<N, V>(ts: seq<Tree<N, V>>, j: nat)
    requires j <= |ts| && Disjoint(ts)
    ensures ForestNodes(ts[..j]) !! ForestNodes(ts[j..])
  {
    forall n | n in ForestNodes(ts[..j]) && n in ForestNodes(ts[j..]) ensures false {
      var a := NodeOf(ts[..j], n);
      var b := NodeOf(ts[j..], n);
      assert false;
    }
  }

  lemma OwnedSplit<N, V>(t: Tree<N, V>, i: nat, d: nat, sib: N, ks: seq<Key>)
    requires t.Inner? && i < |t.kids| && Splittable(t.kids[i], d) && Owned(t) && sib !in Nodes(t)
    ensures Owned(Inner(t.id, ks, SplitKids(t.kids, i, d, sib)))
    ensures Nodes(Inner(t.id, ks, SplitKids(t.kids, i, d, sib))) == Nodes(t) + {sib}
  {
    var c := t.kids[i];
    var l, r := LeftHalf(c, d), RightHalf(c, d, sib);
    var kids' := SplitKids(t.kids, i, d, sib);
    AllKidNodes(t.kids);
    HalvesNodes(c, d, sib);
    forall m | 0 <= m < |kids'|
      ensures t.id !in Nodes(kids'[m]) && Owned(kids'[m])
      ensures Nodes(kids'[m]) <= Nodes(t) + {sib}
    {
      SplitKidsMember(t.kids, i, d, sib, m);
    }
    forall a, b | 0 <= a < b < |kids'|
      ensures Nodes(kids'[a]) !! Nodes(kids'[b])
    {
      SplitKidsMember(t.kids, i, d, sib, a);
      SplitKidsMember(t.kids, i, d, sib, b);
    }
    SplitNodes(t, i, d, sib, ks);
  }

  lemma SplitKidsMember<N, V>(kids: seq<Tree<N, V>>, i: nat, d: nat, sib: N, m: nat)
    requires i < |kids| && Splittable(kids[i], d) && m < |kids| + 1
    ensures |SplitKids(kids, i, d, sib)| == |kids| + 1
    ensures SplitKids(kids, i, d, sib)[m] ==
            if m < i then kids[m] else if m == i then LeftHalf(kids[i], d)
            else if m == i + 1 then RightHalf(kids[i], d, sib) else kids[m - 1]
  {
  }

  lemma SplitNodes<N, V>(t: Tree<N, V>, i: nat, d: nat, sib: N, ks: seq<Key>)
    requires t.Inner? && i < |t.kids| && Splittable(t.kids[i], d) && Owned(t.kids[i]) && sib !in Nodes(t)
    ensures Nodes(Inner(t.id, ks, SplitKids(t.kids, i, d, sib))) == Nodes(t) + {sib}
  {
    var a, b := t.kids[..i], t.kids[i + 1..];
    var l, r := LeftHalf(t.kids[i], d), RightHalf(t.kids[i], d, sib);
    KidNodes(t.kids, i);
    HalvesNodes(t.kids[i], d, sib);
    ForestNodesAt(t.kids, i);
    assert [l, r] == [l] + [r];
    ForestNodesConcat([l], [r]);
    SingleNodes(l);
    SingleNodes(r);
    ForestNodesConcat(a + [l, r], b);
    ForestNodesConcat(a, [l, r]);
  }

  lemma {:induction false} RowInNodes<N, V>(t: Tree<N, V>)
    ensures forall n :: n in Row(t) ==> n in Nodes(t)
    decreases t, 1
  {
    if t.Inner? {
      ForestRowInNodes(t.kids);
    }
  }

  lemma {:induction false} ForestRowInNodes<N, V>(ts: seq<Tree<N, V>>)
    ensures forall n :: n in Ids(ForestLeaves(ts)) ==> n in ForestNodes(ts)
    decreases ts, 0
  {
    if ts != [] {
      RowInNodes(ts[0]);
      ForestRowInNodes(ts[1..]);
      assert Ids(ForestLeaves(ts)) == Row(ts[0]) + Ids(ForestLeaves(ts[1..]));
    }
  }

  lemma OtherKid<N, V>(t: Tree<N, V>, i: nat, m: nat)
    requires t.Inner? && Owned(t) && i < |t.kids| && m < |t.kids| && m != i
    ensures Nodes(t.kids[m]) !! Nodes(t.kids[i]) && t.id !in Nodes(t.kids[m])
    ensures t.kids[i].id in Nodes(t.kids[i]) && t.kids[i].id !in Nodes(t.kids[m])
  {
    assert i < m ==> Nodes(t.kids[i]) !! Nodes(t.kids[m]);
    assert m < i ==> Nodes(t.kids[m]) !! Nodes(t.kids[i]);
    assert t.kids[i].id in Nodes(t.kids[i]);
  }

  /** The node above a tree is not one of the nodes below it. */
  lemma OwnNotBelow<N, V>(t: Tree<N, V>)
    requires t.Inner? && Owned(t)
    ensures t.id !in ForestNodes(t.kids)
  {
    if t.id in ForestNodes(t.kids) {
      var i := NodeOf(t.kids, t.id);
    }
  }

  // ---------------------------------------------------------------- freeing child after child

  /** What the call on child i needs: its place in the chain ... */
  lemma FreeStepRow<N, V>(kids: seq<Tree<N, V>>, i: nat, pre: seq<N>, post: seq<N>)
    requires i < |kids|
    ensures pre + Ids(ForestLeaves(kids[i..])) + post == pre + Row(kids[i]) + (Ids(ForestLeaves(kids[i + 1..])) + post)
  {
    hide Leaves;
    assert kids[i..][1..] == kids[i + 1..];
    var b := ForestLeaves(kids[i + 1..]);
    assert Ids(Leaves(kids[i]) + b) == Row(kids[i]) + Ids(b);
  }

  /** ... which nodes are freed, about to be freed and still live ... */
  lemma FreeStepNodes<N, V>(kids: seq<Tree<N, V>>, i: nat)
    requires i < |kids| && Disjoint(kids)
    ensures ForestNodes(kids[i..]) == Nodes(kids[i]) + ForestNodes(kids[i + 1..])
    ensures ForestNodes(kids[..i + 1]) == ForestNodes(kids[..i]) + Nodes(kids[i])
    ensures ForestNodes(kids[..i]) !! ForestNodes(kids[i..])
    ensures Nodes(kids[i]) !! ForestNodes(kids[i + 1..])
    ensures ForestNodes(kids[..i]) <= ForestNodes(kids) && ForestNodes(kids[i..]) <= ForestNodes(kids)
  {
    FreeStepUnions(kids, i);
    hide Nodes, Disjoint, ForestNodes;
    DisjointHalves(kids, i);
    DisjointHalves(kids, i + 1);
  }

  lemma FirstOfRest<N, V>(kids: seq<Tree<N, V>>, i: nat)
    requires i < |kids|
    ensures ForestNodes(kids[i..]) == Nodes(kids[i]) + ForestNodes(kids[i + 1..])
  {
    hide Nodes;
    assert kids[i..][0] == kids[i] && kids[i..][1..] == kids[i + 1..];
  }

  lemma FreeStepUnions<N, V>(kids: seq<Tree<N, V>>, i: nat)
    requires i < |kids|
    ensures ForestNodes(kids[i..]) == Nodes(kids[i]) + ForestNodes(kids[i + 1..])
    ensures ForestNodes(kids[..i + 1]) == ForestNodes(kids[..i]) + Nodes(kids[i])
    ensures ForestNodes(kids) == ForestNodes(kids[..i]) + ForestNodes(kids[i..])
  {
    hide Nodes, ForestNodes;
    FirstOfRest(kids, i);
    SingleNodes(kids[i]);
    ForestNodesConcat(kids[..i], [kids[i]]);
    ForestNodesConcat(kids[..i], kids[i..]);
    assert kids[..i + 1] == kids[..i] + [kids[i]] && kids == kids[..i] + kids[i..];
  }

  /** ... and neighbours in the chain that are outside its nodes. */
  lemma FreeStepNeighbours<N, V>(kids: seq<Tree<N, V>>, i: nat, pre: seq<N>, post: seq<N>)
    requires i < |kids| && Disjoint(kids) && Members(pre + post) !! ForestNodes(kids)
    ensures var post' := Ids(ForestLeaves(kids[i + 1..])) + post;
            && Members(pre + post') !! Nodes(kids[i])
            && Members(pre + post') <= Members(pre + post) + ForestNodes(kids[i..])
  {
    FreeStepNodes(kids, i);
    hide Nodes, ForestNodes, ForestLeaves, Disjoint;
    ForestRowInNodes(kids[i + 1..]);
  }

  // ---------------------------------------------------------------- growing a root

  /** A node above a tree, with the tree as its only child: the moment before the root is split. */
  lemma OneKid<N, V>(t: Tree<N, V>, id: N, d: nat, h: nat, lo: int, hi: int)
    requires Wf(t, d, h, lo, hi) && Owned(t) && d >= 2 && t.Size() >= d - 1 && id !in Nodes(t)
    ensures var t0 := Inner(id, [], [t]);
            && Wf(t0, d, h + 1, lo, hi) && Owned(t0)
            && Entries(t0) == Entries(t) && Nodes(t0) == Nodes(t) + {id} && Row(t0) == Row(t)
  {
    assert [t][1..] == [];
    assert ForestLeaves([t]) == Leaves(t) + [] == Leaves(t);
    SingleNodes(t);
    assert KidWf([], t, 0, d, h, lo, hi);
    var t0 := Inner(id, [], [t]);
    forall i | 0 <= i < |t0.kids| ensures KidWf(t0.ks, t0.kids[i], i, d, h, lo, hi) {}
    assert KidsWf(t0.ks, t0.kids, d, h, lo, hi);
  }

  // ---------------------------------------------------------------- splitting and binding below a node

  /** The parent after `split_node` on child i. */
  ghost function SplitTree<N, V>(t: Tree<N, V>, i: nat, d: nat, sib: N): Tree<N, V>
    requires t.Inner? && i < |t.kids| && Splittable(t.kids[i], d) && i <= |t.ks|
  {
    Inner(t.id, InsertAt(t.ks, i, Separator(t.kids[i], d)), SplitKids(t.kids, i, d, sib))
  }

  lemma SplitIds<N, V>(kids: seq<Tree<N, V>>, i: nat, d: nat, sib: N)
    requires i < |kids| && Splittable(kids[i], d)
    ensures Ids(SplitKids(kids, i, d, sib)) == InsertAt(Ids(kids), i + 1, sib)
  {
    forall m | 0 <= m < |kids| + 1
      ensures Ids(SplitKids(kids, i, d, sib))[m] == InsertAt(Ids(kids), i + 1, sib)[m]
    {
      SplitKidsMember(kids, i, d, sib, m);
    }
  }

  /** In the row of leaves the new leaf comes right after the split one. */
  lemma SplitRow<N, V>(kids: seq<Tree<N, V>>, i: nat, d: nat, sib: N, pre: seq<N>, post: seq<N>) returns (p: nat)
    requires i < |kids| && Splittable(kids[i], d) && kids[i].Leaf?
    ensures var row := pre + Ids(ForestLeaves(kids)) + post;
            && p < |row| && row[p] == kids[i].id
            && pre + Ids(ForestLeaves(SplitKids(kids, i, d, sib))) + post == InsertAt(row, p + 1, sib)
  {
    SplitKidsLeaves(kids, i, d, sib);
    var a, b := ForestLeaves(kids[..i]), ForestLeaves(kids[i + 1..]);
    var l, r := LeftHalf(kids[i], d), RightHalf(kids[i], d, sib);
    p := |pre| + |a|;
    IdsConcat(a, [kids[i]], b);
    IdsConcat(a, [l, r], b);
    assert Ids([kids[i]]) == [kids[i].id];
    assert Ids([l, r]) == [kids[i].id, sib];
    InsertInMiddle(pre, Ids(a), kids[i].id, Ids(b), post, sib);
  }

  lemma IdsConcat<N, V>(a: seq<Tree<N, V>>, b: seq<Tree<N, V>>, c: seq<Tree<N, V>>)
    ensures Ids(a + b + c) == Ids(a) + Ids(b) + Ids(c)
  {
  }

  /** An absent key is never a separator, so after a split the strict comparison with the new
      separator picks the half whose bounds contain the key. */
  lemma SplitBounds<N, V>(t: Tree<N, V>, j: nat, d: nat, h: nat, lo: int, hi: int, sib: N, key: Key)
    requires d >= 2 && t.Inner? && Wf(t, d, h, lo, hi) && t.Size() < 2 * d - 1
    requires Bounds(t.ks, j, key) && j < |t.kids| && Splittable(t.kids[j], d) && !HasKey(Entries(t), key)
    ensures var t', sep := SplitTree(t, j, d, sib), Separator(t.kids[j], d);
            && j < |t'.ks| && |t'.kids| == |t'.ks| + 1 && t'.ks[j] == sep && sep != key
            && Wf(t', d, h, lo, hi) && Entries(t') == Entries(t)
            && (sep < key ==> Bounds(t'.ks, j + 1, key) && t'.kids[j + 1].Size() < 2 * d - 1)
            && (key < sep ==> Bounds(t'.ks, j, key) && t'.kids[j].Size() < 2 * d - 1)
  {
    var t' := SplitTree(t, j, d, sib);
    assert |t'.kids| == |t'.ks| + 1;
    SplitKidsWf(t.ks, t.kids, j, d, h - 1, lo, hi, sib);
    SplitKidsEntries(t.kids, j, d, sib);
    SeparatorStored(t'.ks, t'.kids, j, d, h - 1, lo, hi);
    SplitKidsMember(t.kids, j, d, sib, j);
    SplitKidsMember(t.kids, j, d, sib, j + 1);
  }

  lemma AbsentBelow<N, V>(ts: seq<Tree<N, V>>, j: nat, key: Key)
    requires j < |ts| && !HasKey(Forest(ts), key)
    ensures !HasKey(Entries(ts[j]), key)
  {
    ForestAt(ts, j);
    var a, b := Forest(ts[..j]), Entries(ts[j]);
    forall i | 0 <= i < |b| ensures b[i].key != key {
      assert Forest(ts)[|a| + i] == b[i];
    }
  }

  /** The row of leaves around child j. */
  lemma RowAround<N, V>(t: Tree<N, V>, j: nat, pre: seq<N>, post: seq<N>)
    requires t.Inner? && j < |t.kids|
    ensures pre + Row(t) + post
         == (pre + Ids(ForestLeaves(t.kids[..j]))) + Row(t.kids[j]) + (Ids(ForestLeaves(t.kids[j + 1..])) + post)
  {
    ForestAt(t.kids, j);
    IdsConcat(ForestLeaves(t.kids[..j]), Leaves(t.kids[j]), ForestLeaves(t.kids[j + 1..]));
    Regroup(pre, Ids(ForestLeaves(t.kids[..j])), Row(t.kids[j]), Ids(ForestLeaves(t.kids[j + 1..])), post);
  }

  lemma RowReplace<N, V>(t: Tree<N, V>, j: nat, c: Tree<N, V>, pre: seq<N>, post: seq<N>)
    requires t.Inner? && j < |t.kids|
    ensures pre + Row(t.(kids := t.kids[j := c])) + post
         == (pre + Ids(ForestLeaves(t.kids[..j]))) + Row(c) + (Ids(ForestLeaves(t.kids[j + 1..])) + post)
  {
    var t' := t.(kids := t.kids[j := c]);
    RowAround(t', j, pre, post);
    assert t'.kids[..j] == t.kids[..j] && t'.kids[j + 1..] == t.kids[j + 1..];
  }

  /** t' is t with an absent key bound, in place. */
  ghost predicate Bound<N, V>(t: Tree<N, V>, t': Tree<N, V>, key: Key, value: V, d: nat, h: nat, lo: int, hi: int) {
    && t'.id == t.id && (t.Inner? ==> t'.Inner?) && t'.Size() >= t.Size()
    && Wf(t', d, h, lo, hi) && Entries(t') == Upsert(Entries(t), key, value)
  }

  lemma BoundBelow<N, V>(t: Tree<N, V>, j: nat, c: Tree<N, V>, key: Key, value: V, d: nat, h: nat, lo: int, hi: int)
    requires d >= 2 && t.Inner? && Wf(t, d, h, lo, hi) && Bounds(t.ks, j, key) && j < |t.kids|
    requires Bound(t.kids[j], c, key, value, d, h - 1, Lo(t.ks, lo, j), Hi(t.ks, hi, j))
    ensures Bound(t, t.(kids := t.kids[j := c]), key, value, d, h, lo, hi)
  {
    UpsertBelow(t.ks, t.kids, j, c, key, value, d, h - 1, lo, hi);
  }

  lemma RowKept<N, V>(t: Tree<N, V>, j: nat, c: Tree<N, V>)
    requires t.Inner? && j < |t.kids| && Row(c) == Row(t.kids[j])
    ensures Row(t.(kids := t.kids[j := c])) == Row(t)
  {
    hide Row, ForestLeaves;
    RowReplace(t, j, c, [], []);
    RowAround(t, j, [], []);
    Unpadded(Row(t));
    Unpadded(Row(t.(kids := t.kids[j := c])));
  }

  lemma Unpadded<X>(s: seq<X>)
    ensures [] + s + [] == s
  {
  }
}
