/** The abstract store: a strictly ascending sequence of entries. */
module SortedMap {
  import opened Base
  import opened Arrays

  ghost predicate Ascending<V>(s: seq<Entry<V>>) {
    forall i, j :: 0 <= i < j < |s| ==> s[i].key < s[j].key
  }

  /** Every key lies in the half-open interval [lo, hi). */
  ghost predicate Within<V>(s: seq<Entry<V>>, lo: int, hi: int) {
    forall i :: 0 <= i < |s| ==> lo <= s[i].key < hi
  }

  ghost predicate HasKey<V>(s: seq<Entry<V>>, k: int) {
    exists i :: 0 <= i < |s| && s[i].key == k
  }

  /** Binds k to v at its sorted place, replacing an older binding. */
  ghost function Upsert<V>(s: seq<Entry<V>>, k: Key, v: V): (r: seq<Entry<V>>)
  {
    if s == [] then [Entry(k, v)]
    else if s[0].key < k then [s[0]] + Upsert(s[1..], k, v)
    else if s[0].key == k then [Entry(k, v)] + s[1..]
    else [Entry(k, v)] + s
  }

  ghost function Lookup<V>(s: seq<Entry<V>>, k: Key): Option<V>
  {
    if s == [] then None
    else if s[0].key == k then Some(s[0].value)
    else Lookup(s[1..], k)
  }

  /** The entries with key at least k, in order. */
  ghost function From<V>(s: seq<Entry<V>>, k: Key): seq<Entry<V>>
  {
    if s == [] then [] else if s[0].key >= k then [s[0]] + From(s[1..], k) else From(s[1..], k)
  }

  ghost function Truncate<X>(s: seq<X>, len: int): seq<X> {
    if len <= 0 || |s| <= len then s else s[..len]
  }

  /** What `scan(k, len)` promises: the first len entries from k on, all of them when len <= 0. */
  ghost function Range<V>(s: seq<Entry<V>>, k: Key, len: int): seq<Entry<V>> {
    Truncate(From(s, k), len)
  }

  ghost function ToMap<V>(s: seq<Entry<V>>): map<Key, V>
  {
    if s == [] then map[] else ToMap(s[1..])[s[0].key := s[0].value]
  }

  /** The pieces of a sequence put together again. */
  ghost function Joined<X>(pieces: seq<seq<X>>): seq<X> {
    if pieces == [] then [] else pieces[0] + Joined(pieces[1..])
  }

  // ---------------------------------------------------------------- concatenation

  lemma AscendingConcat<V>(a: seq<Entry<V>>, b: seq<Entry<V>>, lo: int, mid: int, hi: int)
    requires Ascending(a) && Within(a, lo, mid)
    requires Ascending(b) && Within(b, mid, hi)
    requires lo <= mid <= hi
    ensures Ascending(a + b) && Within(a + b, lo, hi)
  {
  }

  lemma {:induction false} UpsertConcat<V>(a: seq<Entry<V>>, b: seq<Entry<V>>, k: Key, v: V)
    requires forall i :: 0 <= i < |a| ==> a[i].key < k
    ensures Upsert(a + b, k, v) == a + Upsert(b, k, v)
  {
    if a == [] {
      assert a + b == b;
    } else {
      UpsertConcat(a[1..], b, k, v);
      assert (a + b)[1..] == a[1..] + b;
      assert a == [a[0]] + a[1..];
    }
  }

  lemma {:induction false} UpsertPrefix<V>(b: seq<Entry<V>>, c: seq<Entry<V>>, k: Key, v: V)
    requires forall i :: 0 <= i < |c| ==> k < c[i].key
    ensures Upsert(b + c, k, v) == Upsert(b, k, v) + c
  {
    if b == [] {
      assert b + c == c;
    } else if b[0].key < k {
      UpsertPrefix(b[1..], c, k, v);
      assert (b + c)[1..] == b[1..] + c;
      assert [b[0]] + (Upsert(b[1..], k, v) + c) == [b[0]] + Upsert(b[1..], k, v) + c;
    } else if b[0].key == k {
      assert [Entry(k, v)] + (b + c)[1..] == [Entry(k, v)] + b[1..] + c;
    } else {
      assert [Entry(k, v)] + (b + c) == [Entry(k, v)] + b + c;
    }
  }

  /** A key that belongs between a and c is bound inside b. */
  lemma UpsertMiddle<V>(a: seq<Entry<V>>, b: seq<Entry<V>>, c: seq<Entry<V>>, k: Key, v: V)
    requires forall i :: 0 <= i < |a| ==> a[i].key < k
    requires forall i :: 0 <= i < |c| ==> k < c[i].key
    ensures Upsert(a + b + c, k, v) == a + Upsert(b, k, v) + c
  {
    assert a + b + c == a + (b + c);
    UpsertConcat(a, b + c, k, v);
    UpsertPrefix(b, c, k, v);
  }

  lemma {:induction false} LookupConcat<V>(a: seq<Entry<V>>, b: seq<Entry<V>>, k: Key)
    ensures Lookup(a + b, k) == if Lookup(a, k).Some? then Lookup(a, k) else Lookup(b, k)
  {
    if a == [] {
      assert a + b == b;
    } else {
      LookupConcat(a[1..], b, k);
      assert (a + b)[1..] == a[1..] + b;
    }
  }

  lemma {:induction false} LookupAbsent<V>(s: seq<Entry<V>>, k: Key)
    ensures Lookup(s, k).Some? <==> HasKey(s, k)
  {
    if s != [] {
      LookupAbsent(s[1..], k);
      if HasKey(s, k) {
        var i :| 0 <= i < |s| && s[i].key == k;
        if i > 0 { assert s[1..][i - 1].key == k; }
      }
    }
  }

  lemma LookupMiddle<V>(a: seq<Entry<V>>, b: seq<Entry<V>>, c: seq<Entry<V>>, k: Key)
    requires forall i :: 0 <= i < |a| ==> a[i].key < k
    requires forall i :: 0 <= i < |c| ==> k < c[i].key
    ensures Lookup(a + b + c, k) == Lookup(b, k)
  {
    LookupConcat(a + b, c, k);
    LookupConcat(a, b, k);
    LookupAbsent(a, k);
    LookupAbsent(c, k);
  }

  /** The first entry not below k decides the lookup. */
  lemma LookupAt<V>(s: seq<Entry<V>>, i: nat, k: Key)
    requires Ascending(s) && i <= |s|
    requires forall m :: 0 <= m < i ==> s[m].key < k
    requires i < |s| ==> k <= s[i].key
    ensures Lookup(s, k) == if i < |s| && s[i].key == k then Some(s[i].value) else None
    ensures HasKey(s, k) <==> i < |s| && s[i].key == k
  {
    LookupConcat(s[..i], s[i..], k);
    assert s == s[..i] + s[i..];
    LookupAbsent(s[..i], k);
    LookupAbsent(s[i..], k);
    LookupAbsent(s, k);
    if i < |s| {
      forall m | i < m < |s| ensures s[m].key != k { assert s[i].key < s[m].key; }
    }
  }

  /** A sorted sequence split at the first key not below k: From is the right part. */
  lemma {:induction false} FromSplit<V>(a: seq<Entry<V>>, b: seq<Entry<V>>, k: Key)
    requires forall i :: 0 <= i < |a| ==> a[i].key < k
    requires forall i :: 0 <= i < |b| ==> k <= b[i].key
    ensures From(a + b, k) == b
  {
    if a != [] {
      FromSplit(a[1..], b, k);
      assert (a + b)[1..] == a[1..] + b;
    } else {
      FromAll(b, k);
      assert a + b == b;
    }
  }

  lemma {:induction false} FromAll<V>(b: seq<Entry<V>>, k: Key)
    requires forall i :: 0 <= i < |b| ==> k <= b[i].key
    ensures From(b, k) == b
  {
    if b != [] {
      FromAll(b[1..], k);
    }
  }

  /** A scan under way: count entries of total are appended to out, rest is ahead, the limit is not reached. */
  ghost predicate Emitted<X>(out: seq<X>, out': seq<X>, rest: seq<X>, total: seq<X>, count: nat, len: int) {
    out' + rest == out + total && |out'| == |out| + count && (len <= 0 || count < len)
  }

  lemma NoneEmitted<X>(out: seq<X>, total: seq<X>, len: int)
    ensures Emitted(out, out, total, total, 0, len)
  {
  }

  /** The next entry is appended: either the scan is still under way, or it is done. */
  lemma EmitOne<X>(out: seq<X>, out': seq<X>, es: seq<X>, later: seq<X>, total: seq<X>, pos: nat, count: nat, len: int)
    requires pos < |es| && Emitted(out, out', es[pos..] + later, total, count, len)
    ensures count + 1 != len ==> Emitted(out, out' + [es[pos]], es[pos + 1..] + later, total, count + 1, len)
    ensures count + 1 == len ==> out' + [es[pos]] == out + Truncate(total, len)
  {
    assert es[pos..] == [es[pos]] + es[pos + 1..];
    var o, r := out' + [es[pos]], es[pos + 1..] + later;
    assert o + r == out + total;
    TotalFrom(out, o, r, total, count + 1);
    assert count + 1 == len > 0 ==> Truncate(total, len) == total[..len];
  }

  lemma TotalFrom<X>(out: seq<X>, out': seq<X>, rest: seq<X>, total: seq<X>, count: nat)
    requires out' + rest == out + total && |out'| == |out| + count
    ensures count <= |total| && out' == out + total[..count] && rest == total[count..]
  {
    assert |out' + rest| == |out + total|;
    assert out' == (out' + rest)[..|out'|] && rest == (out' + rest)[|out'|..];
  }

  /** At the end of the chain. */
  lemma EmittedAll<X>(out: seq<X>, out': seq<X>, rest: seq<X>, total: seq<X>, count: nat, len: int)
    requires Emitted(out, out', rest, total, count, len) && rest == []
    ensures out' == out + Truncate(total, len)
  {
    TotalFrom(out, out', rest, total, count);
  }

  // ---------------------------------------------------------------- the map behind the sequence

  lemma {:induction false} ToMapLookup<V>(s: seq<Entry<V>>, k: Key)
    requires Ascending(s)
    ensures Lookup(s, k) == if k in ToMap(s) then Some(ToMap(s)[k]) else None
  {
    if s != [] {
      ToMapLookup(s[1..], k);
    }
  }

  lemma {:induction false} UpsertWithin<V>(s: seq<Entry<V>>, k: Key, v: V, lo: int, hi: int)
    requires Within(s, lo, hi) && lo <= k < hi
    ensures Within(Upsert(s, k, v), lo, hi)
  {
    if s != [] && s[0].key < k {
      UpsertWithin(s[1..], k, v, lo, hi);
    }
  }

  lemma {:induction false} UpsertAscending<V>(s: seq<Entry<V>>, k: Key, v: V)
    requires Ascending(s)
    ensures Ascending(Upsert(s, k, v))
  {
    if s != [] && s[0].key < k {
      UpsertAscending(s[1..], k, v);
      UpsertWithin(s[1..], k, v, s[0].key + 1, KEY_BOUND);
    }
  }

  lemma {:induction false} UpsertSize<V>(s: seq<Entry<V>>, k: Key, v: V)
    requires Ascending(s)
    ensures |Upsert(s, k, v)| == |s| + if HasKey(s, k) then 0 else 1
  {
    if s != [] && s[0].key < k {
      UpsertSize(s[1..], k, v);
      assert HasKey(s, k) ==> HasKey(s[1..], k) by {
        if HasKey(s, k) {
          var i :| 0 <= i < |s| && s[i].key == k;
          assert s[1..][i - 1].key == k;
        }
      }
    }
  }

  /** Upsert is map update, and it keeps the order. */
  lemma {:induction false} UpsertIsMapUpdate<V>(s: seq<Entry<V>>, k: Key, v: V)
    requires Ascending(s)
    ensures ToMap(Upsert(s, k, v)) == ToMap(s)[k := v]
    ensures Ascending(Upsert(s, k, v))
  {
    UpsertAscending(s, k, v);
    if s != [] && s[0].key < k {
      UpsertIsMapUpdate(s[1..], k, v);
      assert Upsert(s, k, v)[1..] == Upsert(s[1..], k, v);
    } else if s != [] && s[0].key == k {
      assert Upsert(s, k, v)[1..] == s[1..];
    } else {
      assert Upsert(s, k, v)[1..] == s;
    }
  }

  ghost function Keys<V>(es: seq<Entry<V>>): (r: seq<Key>)
    ensures |r| == |es|
    ensures forall i :: 0 <= i < |es| ==> r[i] == es[i].key
  {
    seq(|es|, i requires 0 <= i < |es| => es[i].key)
  }

  lemma {:induction false} UpsertAbsent<V>(s: seq<Entry<V>>, i: nat, k: Key, v: V)
    requires i <= |s|
    requires forall m :: 0 <= m < i ==> s[m].key < k
    requires forall m :: i <= m < |s| ==> s[m].key > k
    ensures Upsert(s, k, v) == InsertAt(s, i, Entry(k, v))
  {
    if i > 0 {
      UpsertAbsent(s[1..], i - 1, k, v);
    }
  }

  lemma InsertPosition<V>(s: seq<Entry<V>>, i: nat, k: Key, v: V)
    requires i <= |s| && Ascending(s) && !HasKey(s, k)
    requires i > 0 ==> s[i - 1].key <= k
    requires forall m :: i <= m < |s| ==> s[m].key > k
    ensures Upsert(s, k, v) == InsertAt(s, i, Entry(k, v))
  {
    forall m | 0 <= m < i ensures s[m].key < k {
      assert s[m].key != k && s[i - 1].key != k;
    }
    UpsertAbsent(s, i, k, v);
  }

  lemma {:induction false} UpsertPresent<V>(s: seq<Entry<V>>, i: nat, v: V)
    requires i < |s| && Ascending(s)
    ensures Upsert(s, s[i].key, v) == s[i := Entry(s[i].key, v)]
  {
    if i > 0 {
      UpsertPresent(s[1..], i - 1, v);
    }
  }

  lemma KeysSlice<V>(es: seq<Entry<V>>, a: nat, b: nat)
    requires a <= b <= |es|
    ensures Keys(es[a..b]) == Keys(es)[a..b]
  {
  }
}
