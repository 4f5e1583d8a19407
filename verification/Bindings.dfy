/** Sorted bindings of keys to holders (records, entry objects) and the values the holders have. */
module Bindings {
  import opened Base
  import opened SortedMap

  /** The records of a row of entries. */
  ghost function Recs<V>(s: seq<Entry<V>>): (r: set<V>)
    ensures forall i :: 0 <= i < |s| ==> s[i].value in r
  {
    set i | 0 <= i < |s| :: s[i].value
  }

  /** Every record is referenced from one slot only. */
  ghost predicate Distinct<V>(s: seq<Entry<V>>) {
    forall i, j :: 0 <= i < j < |s| ==> s[i].value != s[j].value
  }

  /** What a reader sees of a row of bindings when each holder r has the value mem[r]. */
  ghost function Seen<V>(s: seq<Entry<V>>, mem: map<V, Value>): (r: seq<Entry<Value>>)
    requires Recs(s) <= mem.Keys
    ensures |r| == |s|
    ensures forall i :: 0 <= i < |s| ==> r[i] == Entry(s[i].key, mem[s[i].value])
  {
    seq(|s|, i requires 0 <= i < |s| => Entry(s[i].key, mem[s[i].value]))
  }

  lemma SeenCons<V>(e: Entry<V>, s: seq<Entry<V>>, mem: map<V, Value>)
    requires Recs(s) <= mem.Keys && e.value in mem
    ensures Recs([e] + s) <= mem.Keys && Seen([e] + s, mem) == [Entry(e.key, mem[e.value])] + Seen(s, mem)
  {
    ConsRecs(e, s);
    hide Recs, Distinct;
    var all, a := Seen([e] + s, mem), [Entry(e.key, mem[e.value])] + Seen(s, mem);
    forall i | 0 <= i < |all| ensures all[i] == a[i] {}
  }

  /** A row is its first binding and the rest. */
  lemma SplitRow<V>(s: seq<Entry<V>>, mem: map<V, Value>)
    requires s != [] && Recs(s) <= mem.Keys
    ensures s == [s[0]] + s[1..] && s[0].value in mem && Recs(s[1..]) <= mem.Keys
  {
    assert s == [s[0]] + s[1..];
    ConsRecs(s[0], s[1..]);
  }

  /** Only the holders in the row matter. */
  lemma SeenFrame<V>(s: seq<Entry<V>>, mem: map<V, Value>, mem': map<V, Value>)
    requires Recs(s) <= mem.Keys && Recs(s) <= mem'.Keys && forall r :: r in Recs(s) ==> mem'[r] == mem[r]
    ensures Seen(s, mem') == Seen(s, mem)
  {
  }

  /** Reading through the holders: a key is bound to the value its holder has. */
  lemma {:induction false} LookupSeen<V>(s: seq<Entry<V>>, mem: map<V, Value>, k: Key)
    requires Recs(s) <= mem.Keys
    ensures Lookup(s, k).Some? ==> Lookup(s, k).value in mem
    ensures Lookup(Seen(s, mem), k) == match Lookup(s, k) case None => None case Some(rec) => Some(mem[rec])
  {
    hide Recs, Distinct;
    if s != [] {
      SplitRow(s, mem);
      SeenCons(s[0], s[1..], mem);
      hide Seen;
      LookupSeen(s[1..], mem, k);
    }
  }

  /** Binding a key to a holder binds it to the value the holder has. */
  lemma {:induction false} UpsertSeen<V>(s: seq<Entry<V>>, mem: map<V, Value>, k: Key, rec: V)
    requires Recs(s) <= mem.Keys && rec in mem
    ensures Recs(Upsert(s, k, rec)) <= mem.Keys
    ensures Seen(Upsert(s, k, rec), mem) == Upsert(Seen(s, mem), k, mem[rec])
  {
    hide Recs, Distinct, Seen;
    UpsertRecs(s, k, rec);
    if s == [] {
      assert [Entry(k, rec)] + s == [Entry(k, rec)];
      SeenCons(Entry(k, rec), s, mem);
    } else {
      var e, t := s[0], s[1..];
      SplitRow(s, mem);
      SeenCons(e, t, mem);
      if e.key < k {
        UpsertSeen(t, mem, k, rec);
        SeenCons(e, Upsert(t, k, rec), mem);
      } else if e.key == k {
        SeenCons(Entry(k, rec), t, mem);
      } else {
        SeenCons(Entry(k, rec), s, mem);
      }
    }
  }

  /** A range of bindings, read through the holders, is the range of the values. */
  lemma {:induction false} FromSeen<V>(s: seq<Entry<V>>, mem: map<V, Value>, k: Key)
    requires Recs(s) <= mem.Keys
    ensures Recs(From(s, k)) <= mem.Keys && Seen(From(s, k), mem) == From(Seen(s, mem), k)
  {
    hide Recs, Distinct, Seen;
    if s != [] {
      var e, t := s[0], s[1..];
      SplitRow(s, mem);
      SeenCons(e, t, mem);
      FromSeen(t, mem, k);
      if e.key >= k {
        SeenCons(e, From(t, k), mem);
      }
    }
  }

  lemma SeenConcat<V>(a: seq<Entry<V>>, b: seq<Entry<V>>, mem: map<V, Value>)
    requires Recs(a + b) <= mem.Keys
    ensures Recs(a) <= mem.Keys && Recs(b) <= mem.Keys && Seen(a + b, mem) == Seen(a, mem) + Seen(b, mem)
  {
    RecsConcat(a, b);
  }

  /** Giving one holder a new value rebinds its key and no other. */
  lemma WriteSeen<V>(s: seq<Entry<V>>, mem: map<V, Value>, k: Key, rec: V, v: Value)
    requires Ascending(s) && Distinct(s) && Recs(s) <= mem.Keys && Lookup(s, k) == Some(rec)
    ensures Seen(s, mem[rec := v]) == Upsert(Seen(s, mem), k, v) && Upsert(s, k, rec) == s && rec in Recs(s)
  {
    var i := LookupIndex(s, k);
    UpsertPresent(Seen(s, mem), i, v);
    UpsertKept(s, k);
    LookupInRecs(s, k);
  }

  /** How an insert changes the bindings: a key that has a record keeps it, a new key gets rec. */
  ghost predicate KeepsOrAdds<V>(s: seq<Entry<V>>, s': seq<Entry<V>>, k: Key, rec: V) {
    s' == Upsert(s, k, rec) && (Lookup(s, k).Some? ==> Lookup(s, k).value == rec)
  }

  lemma RecsConcat<V>(a: seq<Entry<V>>, b: seq<Entry<V>>)
    ensures Recs(a + b) == Recs(a) + Recs(b)
  {
    forall r | r in Recs(a) + Recs(b) ensures r in Recs(a + b) {
      if r in Recs(a) {
        var i :| 0 <= i < |a| && a[i].value == r;
        assert (a + b)[i].value == r;
      } else {
        var i :| 0 <= i < |b| && b[i].value == r;
        assert (a + b)[|a| + i].value == r;
      }
    }
  }

  lemma DistinctParts<V>(a: seq<Entry<V>>, b: seq<Entry<V>>, c: seq<Entry<V>>)
    requires Distinct(a + b + c)
    ensures Distinct(b) && Recs(b) !! Recs(a) && Recs(b) !! Recs(c)
  {
    var s := a + b + c;
    forall i, j | 0 <= i < |a| && 0 <= j < |b| ensures a[i].value != b[j].value {
      assert s[i] == a[i] && s[|a| + j] == b[j];
    }
    forall i, j | 0 <= i < |b| && 0 <= j < |c| ensures b[i].value != c[j].value {
      assert s[|a| + i] == b[i] && s[|a| + |b| + j] == c[j];
    }
    forall i, j | 0 <= i < j < |b| ensures b[i].value != b[j].value {
      assert s[|a| + i] == b[i] && s[|a| + j] == b[j];
    }
  }

  lemma {:induction false} LookupIndex<V>(s: seq<Entry<V>>, k: Key) returns (i: nat)
    requires Lookup(s, k).Some?
    ensures i < |s| && s[i].key == k && s[i].value == Lookup(s, k).value
  {
    if s[0].key == k {
      i := 0;
    } else {
      i := LookupIndex(s[1..], k);
      i := i + 1;
    }
  }

  lemma ConsRecs<V>(e: Entry<V>, s: seq<Entry<V>>)
    ensures Recs([e] + s) == {e.value} + Recs(s)
    ensures Distinct([e] + s) <==> Distinct(s) && e.value !in Recs(s)
  {
    RecsConcat([e], s);
    assert [e][0].value == e.value;
    if Distinct([e] + s) {
      forall i | 0 <= i < |s| ensures s[i].value != e.value {
        assert ([e] + s)[0] == e && ([e] + s)[i + 1] == s[i];
      }
      forall i, j | 0 <= i < j < |s| ensures s[i].value != s[j].value {
        assert ([e] + s)[i + 1].value != ([e] + s)[j + 1].value;
      }
    }
  }

  /** A new record under an absent key keeps records unshared. */
  lemma {:induction false} UpsertDistinct<V>(s: seq<Entry<V>>, k: Key, rec: V)
    requires Distinct(s) && Lookup(s, k) == None && rec !in Recs(s)
    ensures Distinct(Upsert(s, k, rec)) && Recs(Upsert(s, k, rec)) == Recs(s) + {rec}
  {
    hide Distinct, Recs;
    if s == [] || k < s[0].key {
      ConsRecs(Entry(k, rec), s);
      assert Upsert(s, k, rec) == [Entry(k, rec)] + s;
    } else {
      assert s == [s[0]] + s[1..];
      ConsRecs(s[0], s[1..]);
      UpsertDistinct(s[1..], k, rec);
      ConsRecs(s[0], Upsert(s[1..], k, rec));
    }
  }

  lemma {:induction false} UpsertRecs<V>(s: seq<Entry<V>>, k: Key, rec: V)
    ensures Recs(Upsert(s, k, rec)) <= Recs(s) + {rec}
  {
    if s != [] {
      assert s == [s[0]] + s[1..];
      ConsRecs(s[0], s[1..]);
      if s[0].key < k {
        UpsertRecs(s[1..], k, rec);
        ConsRecs(s[0], Upsert(s[1..], k, rec));
      } else if s[0].key == k {
        ConsRecs(Entry(k, rec), s[1..]);
      } else {
        ConsRecs(Entry(k, rec), s);
      }
    }
  }

  lemma LookupInRecs<V>(s: seq<Entry<V>>, k: Key)
    requires Lookup(s, k).Some?
    ensures Lookup(s, k).value in Recs(s)
  {
    var i := LookupIndex(s, k);
  }

  /** Binding one key leaves every other key's record alone. */
  lemma {:induction false} OtherKeysKept<V>(s: seq<Entry<V>>, k: Key, v: V, other: Key)
    requires Ascending(s)
    ensures Lookup(Upsert(s, k, v), other) == if other == k then Some(v) else Lookup(s, other)
  {
    if s != [] {
      if s[0].key < k {
        OtherKeysKept(s[1..], k, v, other);
      } else if s[0].key > k && other == s[0].key {
        assert Upsert(s, k, v)[1..] == s;
      } else if s[0].key > k {
        assert Upsert(s, k, v)[1..] == s;
      }
    }
  }

  /** After a key kept its holder or got a new one: the key has it, and it is the only holder that may be new. */
  lemma HolderAdded<V>(s: seq<Entry<V>>, k: Key, rec: V)
    requires Ascending(s) && Distinct(s) && (if Lookup(s, k).Some? then Lookup(s, k).value == rec else rec !in Recs(s))
    ensures Lookup(Upsert(s, k, rec), k) == Some(rec) && Recs(Upsert(s, k, rec)) == Recs(s) + {rec}
  {
    OtherKeysKept(s, k, rec, k);
    hide Distinct, Ascending, Upsert, Recs;
    if Lookup(s, k).Some? {
      LookupInRecs(s, k);
      UpsertKept(s, k);
    } else {
      UpsertDistinct(s, k, rec);
    }
  }

  /** Binding a key again to the holder it has changes nothing. */
  lemma UpsertKept<V>(s: seq<Entry<V>>, k: Key)
    requires Ascending(s) && Lookup(s, k).Some?
    ensures Upsert(s, k, Lookup(s, k).value) == s
  {
    var i := LookupIndex(s, k);
    UpsertPresent(s, i, s[i].value);
  }
}
