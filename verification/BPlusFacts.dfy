/** What a well-formed B+-tree guarantees: how much it holds, how high it gets, and that its two descents agree. */
module BPlusFacts {
  import opened Base
  import opened SortedMap
  import opened BPlusShape

  ghost function Pow(b: nat, e: nat): nat {
    if e == 0 then 1 else b * Pow(b, e - 1)
  }

  /** A row of m trees, each with at least n entries, has at least m * n. */
  lemma {:induction false} ForestSize<N, V>(ts: seq<Tree<N, V>>, n: nat)
    requires forall i :: 0 <= i < |ts| ==> |Entries(ts[i])| >= n
    ensures |Forest(ts)| >= |ts| * n
  {
    if ts != [] {
      ForestSize(ts[1..], n);
      CatConcat(Leaves(ts[0]), ForestLeaves(ts[1..]));
      assert |ts| * n == n + (|ts| - 1) * n;
    }
  }

  /** A node that is at least half full, as every node below the root is, holds at least (d-1) d^h entries. */
  lemma {:induction false} SubtreeSize<N, V>(t: Tree<N, V>, d: nat, h: nat, lo: int, hi: int)
    requires d >= 2 && Wf(t, d, h, lo, hi) && t.Size() >= d - 1
    ensures |Entries(t)| >= (d - 1) * Pow(d, h)
    decreases t
  {
    match t
    case Leaf(_, es) =>
      LeafEntries(t);
    case Inner(_, ks, kids) =>
      var n := (d - 1) * Pow(d, h - 1);
      forall i | 0 <= i < |kids| ensures |Entries(kids[i])| >= n {
        assert KidWf(ks, kids[i], i, d, h - 1, lo, hi);
        SubtreeSize(kids[i], d, h - 1, Lo(ks, lo, i), Hi(ks, hi, i));
      }
      ForestSize(kids, n);
      ScaleUp(d, Pow(d, h - 1), |kids|);
  }

  lemma ScaleUp(d: nat, p: nat, m: nat)
    requires d >= 1 && m >= d
    ensures m * ((d - 1) * p) >= (d - 1) * (d * p)
  {
    var q := (d - 1) * p;
    assert m * q >= d * q;
    assert d * q == (d - 1) * (d * p);
  }

  /** A tree with h >= 1 internal levels holds at least 2 (d-1) d^(h-1) entries. */
  lemma TreeSize<N, V>(t: Tree<N, V>, d: nat, h: nat, lo: int, hi: int)
    requires d >= 2 && h >= 1 && Wf(t, d, h, lo, hi) && t.Size() >= 1
    ensures |Entries(t)| >= 2 * ((d - 1) * Pow(d, h - 1))
  {
    var n := (d - 1) * Pow(d, h - 1);
    forall i | 0 <= i < |t.kids| ensures |Entries(t.kids[i])| >= n {
      assert KidWf(t.ks, t.kids[i], i, d, h - 1, lo, hi);
      SubtreeSize(t.kids[i], d, h - 1, Lo(t.ks, lo, i), Hi(t.ks, hi, i));
    }
    ForestSize(t.kids, n);
    TimesMonotone(2, |t.kids|, n);
  }

  lemma TimesMonotone(a: nat, b: nat, n: nat)
    requires a <= b
    ensures a * n <= b * n
  {
  }

  /** Distinct keys below hi are at most hi - lo many. */
  lemma {:induction false} DistinctKeys<V>(s: seq<Entry<V>>, lo: int, hi: int)
    requires Ascending(s) && Within(s, lo, hi) && lo <= hi
    ensures |s| <= hi - lo
  {
    if s != [] {
      DistinctKeys(s[1..], s[0].key + 1, hi);
    }
  }

  lemma {:induction false} PowGrows(b: nat, e: nat, f: nat)
    requires b >= 1 && e <= f
    ensures Pow(b, e) <= Pow(b, f)
    decreases f - e
  {
    if e < f {
      PowGrows(b, e, f - 1);
      assert Pow(b, f) == b * Pow(b, f - 1) >= Pow(b, f - 1);
    }
  }

  lemma NineToThe19()
    ensures Pow(9, 19) == 1350851717672992089
  {
    assert Pow(9, 4) == 6561;
    assert Pow(9, 8) == 43046721;
    assert Pow(9, 12) == 282429536481;
    assert Pow(9, 16) == 1853020188851841;
  }

  /** With 64-bit keys a tree of minimum degree 9 has at most 19 internal levels. */
  lemma HeightAtMost19<N, V>(t: Tree<N, V>, h: nat)
    requires Wf(t, MIN_DEGREE, h, 0, KEY_BOUND) && t.Size() >= 1
    ensures h <= 19
  {
    if h >= 20 {
      TreeSize(t, 9, h, 0, KEY_BOUND);
      WfEntries(t, 9, h, 0, KEY_BOUND);
      DistinctKeys(Entries(t), 0, KEY_BOUND);
      PowGrows(9, 19, h - 1);
      NineToThe19();
      assert false;
    }
  }

  /** `read(k)` finds v exactly when the first pair of `scan(k, 1)` is (k, v): the descents agree although
      one goes right and the other left on an equal separator. */
  lemma {:induction false} LookupIsFirstOfRange<V>(s: seq<Entry<V>>, k: Key, v: V)
    requires Ascending(s)
    ensures Lookup(s, k) == Some(v) <==> Range(s, k, 1) != [] && Range(s, k, 1)[0] == Entry(k, v)
  {
    if s != [] {
      if s[0].key < k {
        LookupIsFirstOfRange(s[1..], k, v);
      } else if s[0].key > k {
        LookupAbsent(s[1..], k);
      }
    }
  }

  /** What `scan(k, len)` returns: from the first key not below k on, len entries or as many as there are;
      all of them when len is not positive. */
  lemma {:induction false} RangeIsWindow<V>(s: seq<Entry<V>>, k: Key, len: int) returns (i: nat)
    requires Ascending(s)
    ensures i <= |s| && (forall m :: 0 <= m < i ==> s[m].key < k) && (forall m :: i <= m < |s| ==> k <= s[m].key)
    ensures Range(s, k, len) == s[i..if len <= 0 || |s| - i <= len then |s| else i + len]
  {
    hide From;
    i := CutPoint(s, k);
    assert s == s[..i] + s[i..];
    hide Ascending;
    FromSplit(s[..i], s[i..], k);
    if 0 < len < |s| - i { assert s[i..][..len] == s[i..i + len]; }
  }

  lemma {:induction false} CutPoint<V>(s: seq<Entry<V>>, k: Key) returns (i: nat)
    requires Ascending(s)
    ensures i <= |s| && (forall m :: 0 <= m < i ==> s[m].key < k) && (forall m :: i <= m < |s| ==> k <= s[m].key)
  {
    if s == [] || k <= s[0].key {
      i := 0;
    } else {
      var j := CutPoint(s[1..], k);
      i := j + 1;
      forall m | i <= m < |s| ensures k <= s[m].key { assert s[1..][m - 1] == s[m]; }
      forall m | 0 < m < i ensures s[m].key < k { assert s[1..][m - 1] == s[m]; }
    }
  }

  /** From key 0 without a limit the scan is a walk over the whole leaf chain: it returns all contents. */
  lemma ScanOfAll<V>(s: seq<Entry<V>>, len: int)
    requires len <= 0
    ensures Range(s, 0, len) == s
  {
    FromAll(s, 0);
  }
}
