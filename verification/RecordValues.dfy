/** The values the records of a store hold, and what an insert does to them. */
module RecordValues {
  import opened Base
  import opened SortedMap
  import opened Bindings
  import opened RecordNode
  import opened RecordFree

  /** What the records hold now. */
  ghost function Memory(recs: set<Record>): map<Record, Value>
    reads recs`value
  {
    map r | r in recs :: r.value
  }

  /** What a reader sees of a row of bindings. */
  ghost function Values(s: seq<Entry<Record>>): seq<Entry<Value>>
    reads Recs(s)`value
  {
    Seen(s, Memory(Recs(s)))
  }

  /** Reading through the records: a key is bound to the value its record holds. */
  lemma LookupValues(s: seq<Entry<Record>>, k: Key)
    ensures Lookup(Values(s), k) == match Lookup(s, k) case None => None case Some(rec) => Some(rec.value)
  {
    LookupSeen(s, Memory(Recs(s)), k);
  }

  /** Binding a key to a record binds it to the value the record holds. */
  lemma UpsertValues(s: seq<Entry<Record>>, k: Key, rec: Record)
    ensures Values(Upsert(s, k, rec)) == Upsert(Values(s), k, rec.value)
  {
    var mem := Memory(Recs(s) + {rec});
    UpsertSeen(s, mem, k, rec);
    SeenFrame(s, mem, Memory(Recs(s)));
    SeenFrame(Upsert(s, k, rec), mem, Memory(Recs(Upsert(s, k, rec))));
  }

  /** One insert: a key without a record gets a new one, the key's record holds the value, and no other
      record was written. */
  twostate predicate Rebound(s: seq<Entry<Record>>, new s': seq<Entry<Record>>, new k: Key, new v: Value,
                             new rec: Record)
    reads rec, Recs(s)
  {
    && KeepsOrAdds(s, s', k, rec) && (Lookup(s, k).None? ==> fresh(rec))
    && rec.value == v && forall r :: r in Recs(s) && r != rec ==> old(allocated(r)) && r.value == old(r.value)
  }

  /** Writing one record changes the memory at that record. */
  twostate lemma MemoryAfter(items: set<Record>, new rec: Record)
    requires rec in items && forall r :: r in items && r != rec ==> old(allocated(r)) && r.value == old(r.value)
    ensures Memory(items) == old(Memory(items))[rec := rec.value]
    ensures items == old(Memory(items)).Keys
  {
  }

  /** Writing one record changes the value of its key and no other. */
  twostate lemma WriteOne(s: seq<Entry<Record>>, new k: Key, new rec: Record, new v: Value)
    requires Ascending(s) && Distinct(s) && Lookup(s, k) == Some(rec) && rec.value == v
    requires forall r :: r in Recs(s) && r != rec ==> old(allocated(r)) && r.value == old(r.value)
    ensures Rebound(s, s, k, v, rec) && Values(s) == Upsert(old(Values(s)), k, v)
  {
    hide Recs, Memory, Distinct, Ascending, Lookup, Upsert, Seen;
    LookupInRecs(s, k);
    MemoryAfter(Recs(s), rec);
    WriteSeen(s, old(Memory(Recs(s))), k, rec, v);
  }

  twostate lemma UnsharedFrame(s: seq<Entry<Record>>)
    requires old(Unshared(s)) && forall r :: r in Recs(s) ==> old(allocated(r)) && r.freed == old(r.freed)
    ensures Unshared(s)
  {
  }

  /** No record of s was written. */
  twostate predicate Unwritten(s: seq<Entry<Record>>)
    reads Recs(s)
  {
    forall r :: r in Recs(s) ==> old(allocated(r)) && r.value == old(r.value)
  }

  /** What no write touched reads the same. */
  twostate lemma ValuesFrame(s: seq<Entry<Record>>)
    requires Unwritten(s)
    ensures Values(s) == old(Values(s))
  {
  }

  /** Every record is live and referenced from one slot only. */
  ghost predicate Unshared(s: seq<Entry<Record>>)
    reads Recs(s)`freed
  {
    Distinct(s) && LiveRecs(Recs(s))
  }

  /** A new record under an absent key. */
  twostate lemma AddRecord(s: seq<Entry<Record>>, new k: Key, new rec: Record)
    requires old(Unshared(s)) && Lookup(s, k) == None
    requires forall r :: r in Recs(s) ==> old(allocated(r)) && r.freed == old(r.freed) && r.value == old(r.value)
    requires fresh(rec) && !rec.freed
    ensures Unshared(Upsert(s, k, rec)) && Values(Upsert(s, k, rec)) == Upsert(old(Values(s)), k, rec.value)
  {
    UpsertDistinct(s, k, rec);
    UpsertValues(s, k, rec);
    ValuesFrame(s);
  }

  /** The records after a step are those before it and the new one, if there is one. */
  twostate lemma ReboundRecs(s: seq<Entry<Record>>, new k: Key, new v: Value, new rec: Record)
    requires Rebound(s, Upsert(s, k, rec), k, v, rec)
    ensures forall r :: r in Recs(Upsert(s, k, rec)) && r !in Recs(s) ==> fresh(r)
  {
    UpsertRecs(s, k, rec);
    if Lookup(s, k).Some? {
      LookupInRecs(s, k);
    }
  }
}
