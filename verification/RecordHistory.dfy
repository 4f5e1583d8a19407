/** Histories on the record B+-tree: their replies, and what becomes of every record. */
module RecordHistory {
  import opened Base
  import opened SortedMap
  import opened Bindings
  import opened History
  import opened Runs
  import opened RecordNode
  import opened RecordValues
  import opened RecordStore
  import BPlusShape

  lemma Rooted(store: Store)
    requires store.Valid()
    ensures store.root == null <==> store.Contents() == []
    ensures Ascending(store.Bindings()) && Distinct(store.Bindings())
  {
    if store.root != null {
      BPlusShape.WfEntries(store.shape.value, store.d, store.height, 0, KEY_BOUND);
    }
  }

  /** What a write to the store is in a run: the key's record, kept or new, gets the value. */
  twostate lemma ReboundIsStep(s: seq<Entry<Record>>, new s': seq<Entry<Record>>, new op: Op, new rec: Record)
    requires (op.Insert? || op.Update?) && Ascending(s) && Distinct(s) && Rebound(s, s', op.key, op.value, rec)
    requires forall r :: r in Recs(s) ==> old(allocated(r))
    ensures Step(op, s, old(Memory(Recs(s))), s', Memory(Recs(s')))
    ensures forall r :: r in Recs(s') && r !in Recs(s) ==> fresh(r)
  {
    ReboundRecs(s, op.key, op.value, rec);
    HolderAdded(s, op.key, rec);
    hide Upsert, Ascending, Distinct, Recs, Lookup;
    assert Memory(Recs(s')) == old(Memory(Recs(s)))[rec := op.value];
  }

  /** One operation. */
  method Apply(store: Store, op: Op) returns (reply: Reply)
    requires store.Valid()
    modifies store`root, store`shape, store`height
    modifies store.TreeNodes()`nk, store.TreeNodes()`next, store.TreeNodes()`previous
    modifies KeyArrays(store.TreeNodes()), PtrArrays(store.TreeNodes()), Recs(store.Bindings())`value
    ensures store.Valid() && AllNew(old(store.TreeNodes()), store.TreeNodes())
    ensures forall r :: r in Recs(store.Bindings()) && r !in old(Recs(store.Bindings())) ==> fresh(r)
    ensures reply == ReplyTo(old(store.Contents()), op, true)
    ensures reply == Stopped ==>
      store.Bindings() == old(store.Bindings()) == [] && Memory(Recs(store.Bindings())) == map[]
    ensures reply != Stopped ==> store.Contents() == Next(old(store.Contents()), op)
    ensures reply != Stopped ==>
      Step(op, old(store.Bindings()), old(Memory(Recs(store.Bindings()))), store.Bindings(),
        Memory(Recs(store.Bindings())))
  {
    hide Step, Memory, Upsert, Lookup, Range, Store.Valid, Store.Contents;
    if op.Insert? || op.Update? {
      reply := Write(store, op);
    } else {
      reply := Look(store, op);
    }
  }

  method Write(store: Store, op: Op) returns (reply: Reply)
    requires store.Valid() && (op.Insert? || op.Update?)
    modifies store`root, store`shape, store`height
    modifies store.TreeNodes()`nk, store.TreeNodes()`next, store.TreeNodes()`previous
    modifies KeyArrays(store.TreeNodes()), PtrArrays(store.TreeNodes()), Recs(store.Bindings())`value
    ensures store.Valid() && AllNew(old(store.TreeNodes()), store.TreeNodes())
    ensures forall r :: r in Recs(store.Bindings()) && r !in old(Recs(store.Bindings())) ==> fresh(r)
    ensures reply == ReplyTo(old(store.Contents()), op, true)
    ensures reply == Stopped ==>
      store.Bindings() == old(store.Bindings()) == [] && Memory(Recs(store.Bindings())) == map[]
    ensures reply != Stopped ==> store.Contents() == Next(old(store.Contents()), op)
    ensures reply != Stopped ==>
      Step(op, old(store.Bindings()), old(Memory(Recs(store.Bindings()))), store.Bindings(),
        Memory(Recs(store.Bindings())))
  {
    Rooted(store);
    ghost var bs := store.Bindings();
    ghost var rec: Record?;
    hide Step, Memory, Upsert, Lookup, Store.Valid;
    var stopped := false;
    if op.Insert? {
      rec := store.Insert(op.key, op.value);
    } else {
      var done;
      done, rec := store.Update(op.key, op.value);
      stopped := done.Fatal?;
    }
    if stopped {
      return Stopped;
    }
    ReboundIsStep(bs, store.Bindings(), op, rec);
    return Written;
  }

  method Look(store: Store, op: Op) returns (reply: Reply)
    requires store.Valid() && (op.Read? || op.Scan?)
    ensures store.Valid() && reply == ReplyTo(store.Contents(), op, true)
    ensures store.Contents() == old(store.Contents())
    ensures Memory(Recs(store.Bindings())) == old(Memory(Recs(store.Bindings())))
    ensures reply == Stopped ==> store.Bindings() == [] && Memory(Recs(store.Bindings())) == map[]
    ensures Step(op, store.Bindings(), old(Memory(Recs(store.Bindings()))), store.Bindings(),
      Memory(Recs(store.Bindings())))
  {
    Rooted(store);
    ghost var bs := store.Bindings();
    if op.Read? {
      var found := store.Read(op.key);
      reply := if found.Fatal? then Stopped else Found(found.result);
    } else {
      var listed := store.Scan(op.key, op.len, []);
      reply := if listed.Fatal? then Stopped else Listed(listed.result);
    }
    assert Memory(Recs(bs)) == old(Memory(Recs(bs)));
  }

  /** A history on a new store: its replies, and the run of bindings and record memory it goes through. The
      history runs to its end unless `check()` stops it in a store that is still empty. */
  method Play(d: nat, ops: seq<Op>)
    returns (store: Store, replies: seq<Reply>, ghost n: nat,
             ghost states: seq<seq<Entry<Record>>>, ghost mems: seq<map<Record, Value>>)
    requires d >= 2
    ensures fresh(store) && store.Valid() && replies == Answers([], ops, true)
    ensures n <= |ops| && (n < |ops| ==> store.Bindings() == [] && ReplyTo([], ops[n], true) == Stopped)
    ensures Run(ops[..n], states, mems)
    ensures states[n] == store.Bindings() && mems[n] == Memory(Recs(store.Bindings()))
  {
    store := new Store(d);
    replies, states, mems := [], [[]], [map[]];
    NonePlayed(ops, true, states, mems);
    assert Memory(Recs(store.Bindings())) == map[];
    hide Played, Store.Valid, Store.Contents, Memory;
    for i := 0 to |ops|
      invariant fresh(store) && store.Valid()
      invariant forall n :: n in store.TreeNodes() ==> fresh(n) && fresh(n.keys) && fresh(n.pointers)
      invariant forall r :: r in Recs(store.Bindings()) ==> fresh(r)
      invariant Played(ops, i, replies, states, mems, true, store.Contents(), store.Bindings(),
        Memory(Recs(store.Bindings())))
    {
      ghost var c, s, mem := store.Contents(), store.Bindings(), Memory(Recs(store.Bindings()));
      ghost var nodes, recs := store.TreeNodes(), Recs(s);
      label before:
      var reply := Apply(store, ops[i]);
      forall n | n in store.TreeNodes() ensures fresh(n) && fresh(n.keys) && fresh(n.pointers) {
        assert n in nodes || (fresh@before(n) && fresh@before(n.keys) && fresh@before(n.pointers));
      }
      forall r | r in Recs(store.Bindings()) ensures fresh(r) {
        assert r in recs || fresh@before(r);
      }
      ghost var s', mem' := store.Bindings(), Memory(Recs(store.Bindings()));
      OneMorePlayed(ops, i, replies, states, mems, true, c, s, mem, s', mem');
      replies := replies + [reply];
      if reply == Stopped {
        return store, replies, i, states, mems;
      }
      states, mems := states + [s'], mems + [mem'];
    }
    AllPlayed(ops, replies, states, mems, true, store.Contents(), store.Bindings(), Memory(Recs(store.Bindings())));
    return store, replies, |ops|, states, mems;
  }

  /** What becomes of the records of a store over a history: a key bound after i operations is bound to the
      same record after any later number j, that record is in exactly one slot and has the value last
      written to the key, and without a write to the key in between it has the value it had. */
  method RecordsKept(d: nat, ops: seq<Op>)
    returns (store: Store, ghost n: nat, ghost states: seq<seq<Entry<Record>>>, ghost mems: seq<map<Record, Value>>)
    requires d >= 2
    ensures store.Valid() && n <= |ops|
      && (n < |ops| ==> store.Bindings() == [] && ReplyTo([], ops[n], true) == Stopped)
    ensures Run(ops[..n], states, mems) && states[n] == store.Bindings()
    ensures forall i, j, k :: 0 <= i <= j <= n && Lookup(states[i], k).Some? ==> Kept(ops[..n], states, mems, i, j, k)
    ensures forall k :: Lookup(store.Bindings(), k).Some? ==>
      LastWritten(ops[..n], k) == Some(Lookup(store.Bindings(), k).value.value)
  {
    var replies;
    store, replies, n, states, mems := Play(d, ops);
    hide Run, Store.Valid;
    forall i, j, k | 0 <= i <= j <= n && Lookup(states[i], k).Some?
      ensures Kept(ops[..n], states, mems, i, j, k)
    {
      KeptAlways(ops[..n], states, mems, i, j, k);
    }
    forall k | Lookup(store.Bindings(), k).Some?
      ensures LastWritten(ops[..n], k) == Some(Lookup(store.Bindings(), k).value.value)
    {
      HolderHasLastWritten(ops[..n], states, mems, n, k);
      assert ops[..n][..n] == ops[..n];
      LookupInRecs(store.Bindings(), k);
    }
  }
}
