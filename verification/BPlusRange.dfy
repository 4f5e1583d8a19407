/** Where the descent and the walk of a range scan stand in the row of leaves. */
module BPlusRange {
  import opened Base
  import opened SortedMap
  import opened Arrays
  import opened BPlusShape

  /** Every key of s is below k / at least k. */
  ghost predicate Below<V>(s: seq<Entry<V>>, k: Key) {
    forall i :: 0 <= i < |s| ==> s[i].key < k
  }

  ghost predicate AtLeast<V>(s: seq<Entry<V>>, k: Key) {
    forall i :: 0 <= i < |s| ==> k <= s[i].key
  }

  /** Where a descent stands: t is a subtree whose leaves sit between `before`, all below k, and
      `after`, all at least k, in the row of leaves. */
  ghost predicate Cut<N, V>(row: seq<Tree<N, V>>, before: seq<Tree<N, V>>, t: Tree<N, V>, after: seq<Tree<N, V>>,
                            k: Key) {
    row == before + Leaves(t) + after && Below(Cat(before), k) && AtLeast(Cat(after), k)
  }

  /** One step of the descent, to the first child whose upper separator is not below k. */
  lemma CutDescend<N, V>(row: seq<Tree<N, V>>, before: seq<Tree<N, V>>, t: Tree<N, V>, after: seq<Tree<N, V>>, i: nat,
                         k: Key, d: nat, h: nat, lo: int, hi: int)
    requires t.Inner? && Wf(t, d, h, lo, hi) && d >= 2 && i <= |t.ks| && Cut(row, before, t, after, k)
    requires i > 0 ==> t.ks[i - 1] < k
    requires i < |t.ks| ==> k <= t.ks[i]
    ensures i < |t.kids| && Wf(t.kids[i], d, h - 1, Lo(t.ks, lo, i), Hi(t.ks, hi, i))
    ensures Cut(row, before + ForestLeaves(t.kids[..i]), t.kids[i], ForestLeaves(t.kids[i + 1..]) + after, k)
  {
    hide Ascending;
    assert KidWf(t.ks, t.kids[i], i, d, h - 1, lo, hi);
    LeftOf(t.ks, t.kids, i, d, h - 1, lo, hi);
    RightOf(t.ks, t.kids, i, d, h - 1, lo, hi);
    ForestLeavesAt(t.kids, i);
    CatConcat(before, ForestLeaves(t.kids[..i]));
    CatConcat(ForestLeaves(t.kids[i + 1..]), after);
    Regroup(before, ForestLeaves(t.kids[..i]), Leaves(t.kids[i]), ForestLeaves(t.kids[i + 1..]), after);
    BelowConcat(Cat(before), Forest(t.kids[..i]), k);
    if i == 0 { assert t.kids[..i] == []; }
    AtLeastConcat(Forest(t.kids[i + 1..]), Cat(after), k);
    if i == |t.ks| { assert t.kids[i + 1..] == []; }
  }

  lemma BelowConcat<V>(a: seq<Entry<V>>, b: seq<Entry<V>>, k: Key)
    requires Below(a, k)
    ensures Below(b, k) ==> Below(a + b, k)
  {
  }

  lemma AtLeastConcat<V>(a: seq<Entry<V>>, b: seq<Entry<V>>, k: Key)
    requires AtLeast(b, k)
    ensures AtLeast(a, k) ==> AtLeast(a + b, k)
  {
  }

  /** At the leaf, everything from position i on, then the rest of the chain, is the range from k. */
  lemma CutAtLeaf<N, V>(row: seq<Tree<N, V>>, before: seq<Tree<N, V>>, t: Tree<N, V>, after: seq<Tree<N, V>>, i: nat,
                        k: Key)
    requires t.Leaf? && Cut(row, before, t, after, k) && Ascending(t.es) && i <= |t.es|
    requires Below(t.es[..i], k)
    requires i < |t.es| ==> k <= t.es[i].key
    ensures From(Cat(row), k) == t.es[i..] + Cat(after)
    ensures |before| < |row| && row[|before|] == t && row[|before| + 1..] == after
  {
    hide Cat, From;
    LeafEntries(t);
    var a, b, c := Cat(before), t.es, Cat(after);
    assert row == before + Leaves(t) + after;
    CatConcat(before + Leaves(t), after);
    CatConcat(before, Leaves(t));
    BelowConcat(a, b[..i], k);
    assert AtLeast(b[i..], k);
    AtLeastConcat(b[i..], c, k);
    SplitMiddle(a, b, c, i);
    FromSplit(a + b[..i], b[i..] + c, k);
  }

  lemma SplitMiddle<X>(a: seq<X>, b: seq<X>, c: seq<X>, i: nat)
    requires i <= |b|
    ensures a + b + c == (a + b[..i]) + (b[i..] + c)
  {
    assert b == b[..i] + b[i..];
  }

  lemma EmitStep<X>(done: seq<X>, rest: seq<X>, a: seq<X>, b: seq<X>)
    requires rest == a + b && a != []
    ensures rest[0] == a[0] && rest[1..] == a[1..] + b
    ensures (done + [rest[0]]) + rest[1..] == done + rest
  {
  }

  lemma NextLeaf<N, V>(row: seq<Tree<N, V>>, p: nat)
    requires p < |row| && forall m :: 0 <= m < |row| ==> row[m].Leaf?
    ensures Cat(row[p + 1..]) == if p + 1 < |row| then row[p + 1].es[0..] + Cat(row[p + 2..]) else []
  {
    if p + 1 < |row| {
      assert row[p + 1..][1..] == row[p + 2..];
      assert row[p + 1].es[0..] == row[p + 1].es;
    }
  }
}
