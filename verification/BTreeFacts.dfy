/** How much a well-formed B-tree holds. */
module BTreeFacts {
  import opened Base
  import opened BTreeShape
  import opened BPlusFacts

  /** Children that each hold at least n entries, and the entries between them. */
  lemma {:induction false} AfterSize<N, V>(es: seq<Entry<V>>, kids: seq<BTree<N, V>>, j: nat, n: nat)
    requires |kids| == |es| + 1 && j <= |es|
    requires forall i :: 0 <= i < |kids| ==> |InOrder(kids[i])| >= n
    ensures |After(es, kids, j)| >= (|es| - j) * (n + 1)
    decreases |es| - j
  {
    hide InOrder;
    if j < |es| {
      AfterSize(es, kids, j + 1, n);
      assert (|es| - j) * (n + 1) == (n + 1) + (|es| - (j + 1)) * (n + 1);
    }
  }

  lemma Multiples(m: nat, n: nat)
    ensures (m + 1) * (n + 1) == m * (n + 1) + n + 1
  {
  }

  lemma InnerSize<N, V>(t: BTree<N, V>, n: nat)
    requires t.BInner? && |t.kids| == |t.es| + 1
    requires forall i :: 0 <= i < |t.kids| ==> |InOrder(t.kids[i])| >= n
    ensures |InOrder(t)| + 1 >= (|t.es| + 1) * (n + 1)
  {
    AfterSize(t.es, t.kids, 0, n);
    Multiples(|t.es|, n);
  }

  /** A node that is at least half full holds at least d^(h+1) - 1 entries. */
  lemma {:induction false} SubtreeSize<N, V>(t: BTree<N, V>, d: nat, h: nat, lo: int, hi: int)
    requires d >= 2 && BWf(t, d, h, lo, hi) && |t.es| >= d - 1
    ensures |InOrder(t)| + 1 >= Pow(d, h + 1)
    decreases t
  {
    if t.BInner? {
      KidSizes(t, d, h, lo, hi);
      PowGrows(d, 0, h);
      var n: nat := Pow(d, h) - 1;
      InnerSize(t, n);
      TimesMonotone(d, |t.es| + 1, n + 1);
    } else {
      assert Pow(d, 1) == d * Pow(d, 0);
    }
  }

  lemma {:induction false} KidSizes<N, V>(t: BTree<N, V>, d: nat, h: nat, lo: int, hi: int)
    requires d >= 2 && t.BInner? && BWf(t, d, h, lo, hi)
    ensures |t.kids| == |t.es| + 1 && h > 0
    ensures forall i :: 0 <= i < |t.kids| ==> |InOrder(t.kids[i])| + 1 >= Pow(d, h)
    decreases t, 0
  {
    forall i | 0 <= i < |t.kids| ensures |InOrder(t.kids[i])| + 1 >= Pow(d, h) {
      assert BKidWf(t.es, t.kids[i], i, d, h - 1, lo, hi);
      SubtreeSize(t.kids[i], d, h - 1, BLo(t.es, lo, i), BHi(t.es, hi, i));
    }
  }

  /** A B-tree of height h with at least one entry holds at least 2 d^h - 1 entries. */
  lemma TreeSize<N, V>(t: BTree<N, V>, d: nat, h: nat, lo: int, hi: int)
    requires d >= 2 && BWf(t, d, h, lo, hi) && |t.es| >= 1
    ensures |InOrder(t)| >= 2 * Pow(d, h) - 1
  {
    if t.BInner? {
      KidSizes(t, d, h, lo, hi);
      PowGrows(d, 0, h);
      var n: nat := Pow(d, h) - 1;
      InnerSize(t, n);
      TimesMonotone(2, |t.es| + 1, n + 1);
    }
  }

  lemma NineToThe20()
    ensures Pow(9, 20) == 12157665459056928801
  {
    NineToThe19();
  }

  /** With 64-bit keys a B-tree of minimum degree 9 has height at most 19. */
  lemma HeightAtMost19<N, V>(t: BTree<N, V>, h: nat)
    requires BWf(t, MIN_DEGREE, h, 0, KEY_BOUND) && |t.es| >= 1
    ensures h <= 19
  {
    if h >= 20 {
      TreeSize(t, 9, h, 0, KEY_BOUND);
      InOrderSorted(t, 9, h, 0, KEY_BOUND);
      DistinctKeys(InOrder(t), 0, KEY_BOUND);
      PowGrows(9, 20, h);
      NineToThe20();
      assert false;
    }
  }
}
