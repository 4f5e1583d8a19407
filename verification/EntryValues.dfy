/** The values the entries of a store hold, and what an insert does to them. */
module EntryValues {
  import opened Base
  import opened SortedMap
  import opened Bindings
  import opened EntryItem

  /** What the entries hold now. */
  ghost function Memory(items: set<Item>): map<Item, Value>
    reads items`value
  {
    map r | r in items :: r.value
  }

  /** What a reader sees of a row of bindings. */
  ghost function Values(s: seq<Entry<Item>>): seq<Entry<Value>>
    reads Recs(s)`value
  {
    Seen(s, Memory(Recs(s)))
  }

  /** Reading through the entries: a key is bound to the value its entry holds. */
  lemma LookupValues(s: seq<Entry<Item>>, k: Key)
    ensures Lookup(Values(s), k) == match Lookup(s, k) case None => None case Some(item) => Some(item.value)
  {
    LookupSeen(s, Memory(Recs(s)), k);
  }

  /** Binding a key to an entry binds it to the value the entry holds. */
  lemma UpsertValues(s: seq<Entry<Item>>, k: Key, item: Item)
    ensures Values(Upsert(s, k, item)) == Upsert(Values(s), k, item.value)
  {
    var mem := Memory(Recs(s) + {item});
    UpsertSeen(s, mem, k, item);
    SeenFrame(s, mem, Memory(Recs(s)));
    SeenFrame(Upsert(s, k, item), mem, Memory(Recs(Upsert(s, k, item))));
  }

  /** One insert: a key without an entry gets a new one, the key's entry holds the value, and no other
      entry was written. */
  twostate predicate Rebound(s: seq<Entry<Item>>, new s': seq<Entry<Item>>, new k: Key, new v: Value, new item: Item)
    reads item, Recs(s)
  {
    && KeepsOrAdds(s, s', k, item) && (Lookup(s, k).None? ==> fresh(item))
    && item.value == v && forall r :: r in Recs(s) && r != item ==> old(allocated(r)) && r.value == old(r.value)
  }

  /** Writing one entry changes the memory at that entry. */
  twostate lemma MemoryAfter(items: set<Item>, new item: Item)
    requires item in items && forall r :: r in items && r != item ==> old(allocated(r)) && r.value == old(r.value)
    ensures Memory(items) == old(Memory(items))[item := item.value]
    ensures items == old(Memory(items)).Keys
  {
  }

  /** Writing one entry changes the value of its key and no other. */
  twostate lemma WriteOne(s: seq<Entry<Item>>, new k: Key, new item: Item, new v: Value)
    requires Ascending(s) && Distinct(s) && Lookup(s, k) == Some(item) && item.value == v
    requires forall r :: r in Recs(s) && r != item ==> old(allocated(r)) && r.value == old(r.value)
    ensures Rebound(s, s, k, v, item) && Values(s) == Upsert(old(Values(s)), k, v)
  {
    hide Recs, Memory, Distinct, Ascending, Lookup, Upsert, Seen;
    LookupInRecs(s, k);
    MemoryAfter(Recs(s), item);
    WriteSeen(s, old(Memory(Recs(s))), k, item, v);
  }

  /** No entry of s was written. */
  twostate predicate Unwritten(s: seq<Entry<Item>>)
    reads Recs(s)
  {
    forall r :: r in Recs(s) ==> old(allocated(r)) && r.value == old(r.value)
  }

  /** What no write touched reads the same. */
  twostate lemma ValuesFrame(s: seq<Entry<Item>>)
    requires Unwritten(s)
    ensures Values(s) == old(Values(s))
  {
  }

  /** A new entry under an absent key. */
  twostate lemma AddItem(s: seq<Entry<Item>>, new k: Key, new item: Item)
    requires Distinct(s) && Lookup(s, k) == None
    requires forall r :: r in Recs(s) ==> old(allocated(r)) && r.value == old(r.value)
    requires fresh(item)
    ensures Distinct(Upsert(s, k, item)) && Values(Upsert(s, k, item)) == Upsert(old(Values(s)), k, item.value)
  {
    UpsertDistinct(s, k, item);
    UpsertValues(s, k, item);
    ValuesFrame(s);
  }

  /** The entries after a step are those before it and the new one, if there is one. */
  twostate lemma ReboundRecs(s: seq<Entry<Item>>, new k: Key, new v: Value, new item: Item)
    requires Rebound(s, Upsert(s, k, item), k, v, item)
    ensures forall r :: r in Recs(Upsert(s, k, item)) && r !in Recs(s) ==> fresh(r)
  {
    UpsertRecs(s, k, item);
    if Lookup(s, k).Some? {
      LookupInRecs(s, k);
    }
  }
}
