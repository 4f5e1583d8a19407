/** Histories on the B-tree with entries outside the nodes: their replies, and what becomes of every entry. */
module EntryHistory {
  import opened Base
  import opened SortedMap
  import opened Bindings
  import opened History
  import opened Runs
  import opened EntryItem
  import opened EntryValues
  import opened EntryStore
  import BTreeNode
  import BTreeShape

  lemma Rooted(store: Store)
    requires store.Valid()
    ensures store.root == null <==> store.Contents() == []
    ensures Ascending(store.Bindings()) && Distinct(store.Bindings())
  {
    if store.root != null {
      BTreeShape.InOrderSorted(store.shape.value, store.d, store.height, 0, KEY_BOUND);
    }
  }

  /** What a write to the store is in a run: the key's entry, kept or new, gets the value. */
  twostate lemma ReboundIsStep(s: seq<Entry<Item>>, new s': seq<Entry<Item>>, new op: Op, new item: Item)
    requires (op.Insert? || op.Update?) && Ascending(s) && Distinct(s) && Rebound(s, s', op.key, op.value, item)
    requires forall r :: r in Recs(s) ==> old(allocated(r))
    ensures Step(op, s, old(Memory(Recs(s))), s', Memory(Recs(s')))
    ensures forall r :: r in Recs(s') && r !in Recs(s) ==> fresh(r)
  {
    ReboundRecs(s, op.key, op.value, item);
    HolderAdded(s, op.key, item);
    hide Upsert, Ascending, Distinct, Recs, Lookup;
    assert Memory(Recs(s')) == old(Memory(Recs(s)))[item := op.value];
  }

  /** One operation; `scan` throws. */
  method Apply(store: Store, op: Op) returns (reply: Reply)
    requires store.Valid()
    modifies store`root, store`shape, store`height
    modifies store.TreeNodes()`nk, Recs(store.Bindings())`value
    modifies BTreeNode.EntryArrays(store.TreeNodes()), BTreeNode.ChildArrays(store.TreeNodes())
    ensures store.Valid() && AllNew(old(store.TreeNodes()), store.TreeNodes())
    ensures forall r :: r in Recs(store.Bindings()) && r !in old(Recs(store.Bindings())) ==> fresh(r)
    ensures reply == ReplyTo(old(store.Contents()), op, false)
    ensures reply == Stopped ==>
      store.Bindings() == old(store.Bindings()) == [] && Memory(Recs(store.Bindings())) == map[]
    ensures reply != Stopped ==> store.Contents() == Next(old(store.Contents()), op)
    ensures reply != Stopped ==>
      Step(op, old(store.Bindings()), old(Memory(Recs(store.Bindings()))), store.Bindings(),
        Memory(Recs(store.Bindings())))
  {
    hide Step, Memory, Upsert, Lookup, Range, Store.Valid, Store.Contents;
    if op.Insert? || op.Update? {
      reply := Write(store, op);
    } else {
      reply := Look(store, op);
    }
  }

  method Write(store: Store, op: Op) returns (reply: Reply)
    requires store.Valid() && (op.Insert? || op.Update?)
    modifies store`root, store`shape, store`height
    modifies store.TreeNodes()`nk, Recs(store.Bindings())`value
    modifies BTreeNode.EntryArrays(store.TreeNodes()), BTreeNode.ChildArrays(store.TreeNodes())
    ensures store.Valid() && AllNew(old(store.TreeNodes()), store.TreeNodes())
    ensures forall r :: r in Recs(store.Bindings()) && r !in old(Recs(store.Bindings())) ==> fresh(r)
    ensures reply == ReplyTo(old(store.Contents()), op, false)
    ensures reply == Stopped ==>
      store.Bindings() == old(store.Bindings()) == [] && Memory(Recs(store.Bindings())) == map[]
    ensures reply != Stopped ==> store.Contents() == Next(old(store.Contents()), op)
    ensures reply != Stopped ==>
      Step(op, old(store.Bindings()), old(Memory(Recs(store.Bindings()))), store.Bindings(),
        Memory(Recs(store.Bindings())))
  {
    Rooted(store);
    ghost var bs := store.Bindings();
    ghost var item: Item?;
    hide Step, Memory, Upsert, Lookup, Store.Valid;
    var stopped := false;
    if op.Insert? {
      item := store.Insert(op.key, op.value);
    } else {
      var done;
      done, item := store.Update(op.key, op.value);
      stopped := done.Fatal?;
    }
    if stopped {
      return Stopped;
    }
    ReboundIsStep(bs, store.Bindings(), op, item);
    return Written;
  }

  method Look(store: Store, op: Op) returns (reply: Reply)
    requires store.Valid() && (op.Read? || op.Scan?)
    ensures store.Valid() && reply == ReplyTo(store.Contents(), op, false)
    ensures store.Contents() == old(store.Contents())
    ensures Memory(Recs(store.Bindings())) == old(Memory(Recs(store.Bindings())))
    ensures reply == Stopped ==> store.Bindings() == [] && Memory(Recs(store.Bindings())) == map[]
    ensures Step(op, store.Bindings(), old(Memory(Recs(store.Bindings()))), store.Bindings(),
      Memory(Recs(store.Bindings())))
  {
    Rooted(store);
    ghost var bs := store.Bindings();
    if op.Read? {
      var found := store.Read(op.key);
      reply := if found.Fatal? then Stopped else Found(found.result);
    } else {
      reply := Thrown;
    }
    assert Memory(Recs(bs)) == old(Memory(Recs(bs)));
  }

  /** A history on a new store: its replies, and the run of bindings and entry memory it goes through. The
      history runs to its end unless `check()` stops it in a store that is still empty. */
  method Play(d: nat, ops: seq<Op>)
    returns (store: Store, replies: seq<Reply>, ghost n: nat,
             ghost states: seq<seq<Entry<Item>>>, ghost mems: seq<map<Item, Value>>)
    requires d >= 2
    ensures fresh(store) && store.Valid() && replies == Answers([], ops, false)
    ensures n <= |ops| && (n < |ops| ==> store.Bindings() == [] && ReplyTo([], ops[n], false) == Stopped)
    ensures Run(ops[..n], states, mems)
    ensures states[n] == store.Bindings() && mems[n] == Memory(Recs(store.Bindings()))
  {
    store := new Store(d);
    replies, states, mems := [], [[]], [map[]];
    NonePlayed(ops, false, states, mems);
    assert Memory(Recs(store.Bindings())) == map[];
    hide Played, Store.Valid, Store.Contents, Memory;
    for i := 0 to |ops|
      invariant fresh(store) && store.Valid()
      invariant forall n :: n in store.TreeNodes() ==> fresh(n) && fresh(n.entries) && fresh(n.children)
      invariant forall r :: r in Recs(store.Bindings()) ==> fresh(r)
      invariant Played(ops, i, replies, states, mems, false, store.Contents(), store.Bindings(),
        Memory(Recs(store.Bindings())))
    {
      ghost var c, s, mem := store.Contents(), store.Bindings(), Memory(Recs(store.Bindings()));
      ghost var nodes, items := store.TreeNodes(), Recs(s);
      label before:
      var reply := Apply(store, ops[i]);
      forall n | n in store.TreeNodes() ensures fresh(n) && fresh(n.entries) && fresh(n.children) {
        assert n in nodes || (fresh@before(n) && fresh@before(n.entries) && fresh@before(n.children));
      }
      forall r | r in Recs(store.Bindings()) ensures fresh(r) {
        assert r in items || fresh@before(r);
      }
      ghost var s', mem' := store.Bindings(), Memory(Recs(store.Bindings()));
      OneMorePlayed(ops, i, replies, states, mems, false, c, s, mem, s', mem');
      replies := replies + [reply];
      if reply == Stopped {
        return store, replies, i, states, mems;
      }
      states, mems := states + [s'], mems + [mem'];
    }
    AllPlayed(ops, replies, states, mems, false, store.Contents(), store.Bindings(), Memory(Recs(store.Bindings())));
    return store, replies, |ops|, states, mems;
  }

  /** What becomes of the entries of a store over a history: a key bound after i operations is bound to the
      same entry after any later number j, that entry is in exactly one slot and has the value last
      written to the key, and without a write to the key in between it has the value it had. */
  method EntriesKept(d: nat, ops: seq<Op>)
    returns (store: Store, ghost n: nat, ghost states: seq<seq<Entry<Item>>>, ghost mems: seq<map<Item, Value>>)
    requires d >= 2
    ensures store.Valid() && n <= |ops|
      && (n < |ops| ==> store.Bindings() == [] && ReplyTo([], ops[n], false) == Stopped)
    ensures Run(ops[..n], states, mems) && states[n] == store.Bindings()
    ensures forall i, j, k :: 0 <= i <= j <= n && Lookup(states[i], k).Some? ==> Kept(ops[..n], states, mems, i, j, k)
    ensures forall k :: Lookup(store.Bindings(), k).Some? ==>
      LastWritten(ops[..n], k) == Some(Lookup(store.Bindings(), k).value.value)
  {
    var replies;
    store, replies, n, states, mems := Play(d, ops);
    hide Run, Store.Valid;
    forall i, j, k | 0 <= i <= j <= n && Lookup(states[i], k).Some?
      ensures Kept(ops[..n], states, mems, i, j, k)
    {
      KeptAlways(ops[..n], states, mems, i, j, k);
    }
    forall k | Lookup(store.Bindings(), k).Some?
      ensures LastWritten(ops[..n], k) == Some(Lookup(store.Bindings(), k).value.value)
    {
      HolderHasLastWritten(ops[..n], states, mems, n, k);
      assert ops[..n][..n] == ops[..n];
      LookupInRecs(store.Bindings(), k);
    }
  }
}
