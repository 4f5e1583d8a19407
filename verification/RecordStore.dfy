/** The B+-tree store with out-of-line records: the record of a key never moves. */
module RecordStore {
  import opened Base
  import opened SortedMap
  import opened BPlusShape
  import opened RecordNode
  import opened RecordHeap
  import opened RecordInsert
  import opened RecordSearch
  import opened RecordScan
  import opened RecordFree
  import opened Bindings
  import opened RecordValues

  /** The nodes of t hold t, are live, and its leaves are chained in order. */
  ghost predicate Sound(t: Shape, d: nat)
    reads Nodes(t), KeyArrays(Nodes(t)), PtrArrays(Nodes(t))
  {
    Held(t, d) && Live(Nodes(t)) && Members(Row(t)) <= Nodes(t) && Chain(Row(t))
  }

  /** Soundness does not depend on anything but the nodes and their arrays. */
  twostate lemma SoundFrame(t: Shape, new d: nat, new row: seq<Node>)
    requires old(Sound(t, d)) && row == Row(t)
    requires forall n :: n in Nodes(t) ==>
      old(allocated(n)) && unchanged(n) && unchanged(n.keys) && unchanged(n.pointers)
    ensures Sound(t, d)
  {
    RepFrame(t, d);
    forall i | 0 <= i < |row| ensures Linked(row, i) { assert old(Linked(row, i)); }
  }

  /** Nodes of s' that s does not have, and their arrays, were allocated since. */
  twostate predicate AllNew(s: set<Node>, new s': set<Node>) {
    forall n :: n in s' - s ==> fresh(n) && fresh(n.keys) && fresh(n.pointers)
  }

  class Store {
    const d: nat
    var root: Node?
    ghost var shape: Option<Shape>
    ghost var height: nat

    ghost function TreeNodes(): set<Node>
      reads this`shape
    {
      if shape.Some? then Nodes(shape.value) else {}
    }

    /** Which record each key is bound to. */
    ghost function Bindings(): seq<Entry<Record>>
      reads this`shape
    {
      if shape.Some? then Entries(shape.value) else []
    }

    /** The abstract state: what each key's record holds. */
    ghost function Contents(): seq<Entry<Value>>
      reads this`shape, Recs(Bindings())`value
    {
      Values(Bindings())
    }

    /** The invariant of every reachable state: every live record is referenced from exactly one leaf slot. */
    ghost predicate Valid()
      reads this, TreeNodes(), KeyArrays(TreeNodes()), PtrArrays(TreeNodes()), Recs(Bindings())`freed
    {
      && d >= 2
      && (root == null <==> shape == None)
      && (root != null ==> Rooted(shape.value))
      && Unshared(Bindings())
    }

    ghost predicate Rooted(t: Shape)
      reads this, Nodes(t), KeyArrays(Nodes(t)), PtrArrays(Nodes(t))
    {
      t.id == root && Sound(t, d) && Wf(t, d, height, 0, KEY_BOUND) && t.Size() >= 1
    }

    /** The tree part of the invariant, for a store with a root. */
    ghost predicate ValidTree()
      reads this, TreeNodes(), KeyArrays(TreeNodes()), PtrArrays(TreeNodes())
    {
      d >= 2 && root != null && shape.Some? && Rooted(shape.value)
    }

    /** `init`. */
    constructor (minDegree: nat)
      requires minDegree >= 2
      ensures Valid() && d == minDegree && root == null && Bindings() == [] && Contents() == []
    {
      d := minDegree;
      root := null;
      shape := None;
      height := 0;
    }

    /** `read`: the value the key's record holds. */
    method Read(key: Key) returns (r: Checked<Option<Value>>)
      requires Valid()
      ensures Valid() && Contents() == old(Contents())
      ensures r == if root == null then Fatal else Done(Lookup(Contents(), key))
    {
      if root == null {
        return Fatal;
      }
      ghost var t, bs := shape.value, Bindings();
      NodesAllocated(t);
      RecordsAllocated(t, bs);
      label before:
      var rec := Search(root, key, d, height, 0, KEY_BOUND, t);
      SoundFrame(t, d, Row(t));
      ValuesFrame@before(bs);
      LookupValues(bs, key);
      return Done(match rec case None => None case Some(found) => Some(found.value));
    }

    /** `scan`: appends to the caller's vector. */
    method Scan(key: Key, len: int, result: seq<Entry<Value>>) returns (r: Checked<seq<Entry<Value>>>)
      requires Valid()
      ensures Valid() && Contents() == old(Contents())
      ensures r == if root == null then Fatal else Done(result + Range(Contents(), key, len))
    {
      if root == null {
        return Fatal;
      }
      ghost var t, bs := shape.value, Bindings();
      NodesAllocated(t);
      RecordsAllocated(t, bs);
      label before:
      var out := ScanTree(root, key, len, result, d, height, 0, KEY_BOUND, t, Row(t));
      SoundFrame(t, d, Row(t));
      ValuesFrame@before(bs);
      return Done(out);
    }

    /** `insert` on the empty store. */
    method InsertFirst(key: Key, value: Value) returns (rec: Record)
      requires Valid() && root == null
      modifies this`root, this`shape, this`height
      ensures Valid() && root != null && AllNew({}, TreeNodes()) && height == 0
      ensures Bindings() == [Entry(key, rec)] && fresh(rec) && rec.value == value
    {
      var leaf := new Node(d, true);
      leaf.keys[0] := key;
      rec := new Record(value);
      leaf.pointers[0] := Rec(rec);
      leaf.nk := 1;
      root := leaf;
      shape := Some(Leaf(leaf, [Entry(key, rec)]));
      height := 0;
      LeafEntries(shape.value);
      assert Row(shape.value) == [leaf];
      assert Linked([leaf], 0);
    }

    /** `insert`: binds a new key to a new record, or writes into the record the key already has. */
    method Insert(key: Key, value: Value) returns (ghost rec: Record)
      requires Valid()
      modifies this`root, this`shape, this`height
      modifies TreeNodes()`nk, TreeNodes()`next, TreeNodes()`previous, KeyArrays(TreeNodes()), PtrArrays(TreeNodes())
      modifies Recs(Bindings())`value
      ensures Valid() && root != null && AllNew(old(TreeNodes()), TreeNodes())
      ensures Rebound(old(Bindings()), Bindings(), key, value, rec)
      ensures Contents() == Upsert(old(Contents()), key, value)
    {
      if root == null {
        rec := InsertFirst(key, value);
        return;
      }
      rec := InsertRooted(key, value);
    }

    /** `insert` below an existing root. */
    method InsertRooted(key: Key, value: Value) returns (ghost rec: Record)
      requires Valid() && root != null
      modifies this`root, this`shape, this`height
      modifies TreeNodes()`nk, TreeNodes()`next, TreeNodes()`previous, KeyArrays(TreeNodes()), PtrArrays(TreeNodes())
      modifies Recs(Bindings())`value
      ensures Valid() && root != null && AllNew(old(TreeNodes()), TreeNodes())
      ensures Rebound(old(Bindings()), Bindings(), key, value, rec)
      ensures Contents() == Upsert(old(Contents()), key, value)
    {
      RecordsAllocated(shape.value, Bindings());
      hide Lookup, Values, Recs, Upsert, Unshared, Rooted;
      var found;
      ghost var kept;
      found, kept := Overwrite(key, value);
      if found {
        rec := kept;
      } else {
        label absent:
        rec := InsertNew(key, value);
        assert fresh@absent(rec);
      }
    }

    /** `insert` of an absent key below an existing root. */
    method InsertNew(key: Key, value: Value) returns (rec: Record)
      requires Valid() && root != null && Lookup(Bindings(), key) == None
      modifies this`root, this`shape, this`height
      modifies TreeNodes()`nk, TreeNodes()`next, TreeNodes()`previous, KeyArrays(TreeNodes()), PtrArrays(TreeNodes())
      ensures Valid() && root != null && AllNew(old(TreeNodes()), TreeNodes())
      ensures Rebound(old(Bindings()), Bindings(), key, value, rec)
      ensures Contents() == Upsert(old(Contents()), key, value)
    {
      ghost var bs := Bindings();
      RecordsAllocated(shape.value, bs);
      hide Lookup, Values, Recs, Upsert, Rooted, Unshared, Nodes, Entries;
      label absent:
      rec := InsertAbsent(key, value);
      AddRecord@absent(bs, key, rec);
    }

    /** The first half of `insert`: write the record of a stored key. */
    method Overwrite(key: Key, value: Value) returns (found: bool, ghost rec: Record?)
      requires Valid() && root != null
      modifies Recs(Bindings())`value
      ensures Valid() && found == Lookup(Bindings(), key).Some?
      ensures found ==> rec != null && Rebound(old(Bindings()), Bindings(), key, value, rec)
      ensures found ==> Contents() == Upsert(old(Contents()), key, value)
      ensures !found ==> Unwritten(old(Bindings())) && Contents() == old(Contents())
    {
      ghost var t, bs := shape.value, Bindings();
      hide Lookup, Recs, Upsert, Held, Wf, Entries, Unshared, Sound, Nodes, Rebound, Unwritten, Values;
      found, rec := OverwriteTree(root, key, value, d, height, t, bs);
    }

    /** The rest of `insert`, once the key is known to be absent. */
    method InsertAbsent(key: Key, value: Value) returns (rec: Record)
      requires ValidTree() && Lookup(Bindings(), key) == None
      modifies this`root, this`shape, this`height
      modifies TreeNodes()`nk, TreeNodes()`next, TreeNodes()`previous, KeyArrays(TreeNodes()), PtrArrays(TreeNodes())
      ensures ValidTree() && AllNew(old(TreeNodes()), TreeNodes())
      ensures Bindings() == Upsert(old(Bindings()), key, rec) && fresh(rec) && rec.value == value && !rec.freed
      ensures height == old(height) + if old(root.nk) == 2 * d - 1 then 1 else 0
    {
      LookupAbsent(Bindings(), key);
      hide Held, Wf, HasKey, Entries, Lookup, Unshared, Upsert, Recs, Sound, Nodes;
      var newRoot;
      ghost var t, h;
      newRoot, t, h, rec := InsertIntoTree(root, key, value, d, height, shape.value);
      Settle(newRoot, t, h);
    }

    /** Records the root and the shape an operation ended with. */
    method Settle(newRoot: Node, ghost t: Shape, ghost h: nat)
      requires d >= 2 && t.id == newRoot && Sound(t, d) && Wf(t, d, h, 0, KEY_BOUND) && t.Size() >= 1
      modifies this`root, this`shape, this`height
      ensures ValidTree() && root == newRoot && shape == Some(t) && height == h
    {
      NodesAllocated(t);
      root := newRoot;
      shape := Some(t);
      height := h;
      SoundFrame(t, d, Row(t));
    }

    /** `update`: an insert once the store has a root. */
    method Update(key: Key, value: Value) returns (r: Checked<()>, ghost rec: Record?)
      requires Valid()
      modifies this`root, this`shape, this`height
      modifies TreeNodes()`nk, TreeNodes()`next, TreeNodes()`previous, KeyArrays(TreeNodes()), PtrArrays(TreeNodes())
      modifies Recs(Bindings())`value
      ensures Valid() && AllNew(old(TreeNodes()), TreeNodes())
      ensures r == if old(root == null) then Fatal else Done(())
      ensures r.Fatal? ==> root == null && Bindings() == old(Bindings()) && Contents() == old(Contents())
      ensures r.Done? ==> rec != null && Rebound(old(Bindings()), Bindings(), key, value, rec)
      ensures r.Done? ==> root != null && Contents() == Upsert(old(Contents()), key, value)
    {
      if root == null {
        return Fatal, null;
      }
      ghost var kept := Insert(key, value);
      return Done(()), kept;
    }

    /** `destroy`: frees every node of the tree and every record. */
    method Destroy() returns (r: Checked<()>)
      requires Valid()
      modifies this`root, this`shape, TreeNodes()`freed, TreeNodes()`next, TreeNodes()`previous, PtrArrays(TreeNodes())
      modifies Recs(Bindings())`freed
      ensures r == if old(root == null) then Fatal else Done(())
      ensures Valid() && root == null && Bindings() == []
      ensures AllFreed(old(TreeNodes())) && FreedRecs(old(Recs(Bindings())))
    {
      if root == null {
        return Fatal;
      }
      ghost var t := shape.value;
      assert [] + Row(t) + [] == Row(t);
      RecursiveFree(root, d, t, [], [], Row(t));
      root := null;
      shape := None;
      return Done(());
    }
  }

  lemma TargetInRecs(t: Shape, key: Key)
    ensures Target(t, key) <= Recs(Entries(t))
  {
    if Target(t, key) != {} {
      LookupInRecs(Entries(t), key);
    }
  }

  /** `update_if_found` from the root, and what it does to the records. */
  method OverwriteTree(root: Node, key: Key, value: Value, ghost d: nat, ghost h: nat, ghost t: Shape,
                       ghost bs: seq<Entry<Record>>)
    returns (found: bool, ghost rec: Record?)
    requires d >= 2 && t.id == root && Sound(t, d) && Wf(t, d, h, 0, KEY_BOUND) && bs == Entries(t) && Unshared(bs)
    modifies Recs(bs)`value
    ensures Sound(t, d) && Unshared(bs) && found == Lookup(bs, key).Some?
    ensures found ==> rec != null && Rebound(bs, bs, key, value, rec)
    ensures found ==> Values(bs) == Upsert(old(Values(bs)), key, value)
    ensures !found ==> Unwritten(bs) && Values(bs) == old(Values(bs))
  {
    NodesAllocated(t);
    RecordsAllocated(t, bs);
    TargetInRecs(t, key);
    WfEntries(t, d, h, 0, KEY_BOUND);
    hide Wf, Held, Entries, Upsert, Lookup, HasKey, Recs, Values, Row, Unshared, Rebound;
    label before:
    found := UpdateIfFound(root, key, value, d, h, 0, KEY_BOUND, t);
    SoundFrame@before(t, d, Row(t));
    UnsharedFrame@before(bs);
    if found {
      rec := Lookup(bs, key).value;
      WriteOne@before(bs, key, Lookup(bs, key).value, value);
    } else {
      rec := null;
      ValuesFrame@before(bs);
    }
  }

  /** The two ways to insert an absent key below a root. */
  method InsertIntoTree(root: Node, key: Key, value: Value, d: nat, ghost h: nat, ghost t: Shape)
    returns (newRoot: Node, ghost t': Shape, ghost h': nat, rec: Record)
    requires d >= 2 && t.id == root && Sound(t, d) && Wf(t, d, h, 0, KEY_BOUND) && t.Size() >= 1
      && !HasKey(Entries(t), key)
    modifies Nodes(t)`nk, Nodes(t)`next, Nodes(t)`previous, KeyArrays(Nodes(t)), PtrArrays(Nodes(t))
    ensures t'.id == newRoot && Sound(t', d) && Wf(t', d, h', 0, KEY_BOUND) && t'.Size() >= 1
    ensures h' == h + if old(root.nk) == 2 * d - 1 then 1 else 0
    ensures Entries(t') == Upsert(Entries(t), key, rec)
    ensures AllNew(Nodes(t), Nodes(t')) && fresh(rec) && rec.value == value && !rec.freed
  {
    assert Local(t, d) && root.nk == t.Size() <= 2 * d - 1;
    hide Local, Held, Wf, HasKey, Entries, Upsert, Sound, Nodes;
    if root.nk == 2 * d - 1 {
      newRoot, t', rec := GrowTree(root, key, value, d, h, t, Row(t));
      h' := h + 1;
    } else {
      newRoot, h' := root, h;
      t', rec := InsertTree(root, key, value, d, h, t, Row(t));
    }
  }

  /** A full root gets a new root above it, and is split as that root's only child. */
  method GrowTree(root: Node, key: Key, value: Value, d: nat, ghost h: nat, ghost t: Shape, ghost row: seq<Node>)
    returns (newRoot: Node, ghost t': Shape, rec: Record)
    requires d >= 2 && t.id == root && Sound(t, d) && Wf(t, d, h, 0, KEY_BOUND) && row == Row(t)
    requires root.nk == 2 * d - 1 && !HasKey(Entries(t), key)
    modifies Nodes(t)`nk, Nodes(t)`next, Nodes(t)`previous, KeyArrays(Nodes(t)), PtrArrays(Nodes(t))
    ensures t'.id == newRoot && Sound(t', d) && Wf(t', d, h + 1, 0, KEY_BOUND) && t'.Size() >= 1
    ensures Entries(t') == Upsert(Entries(t), key, rec)
    ensures AllNew(Nodes(t), Nodes(t')) && fresh(rec) && rec.value == value && !rec.freed
  {
    hide Wf, Held, Upsert, HasKey, Entries, Nodes, Row;
    ghost var t0;
    newRoot, t0 := AddRoot(root, d, h, t, row);
    NodesAllocated(t0);
    label grown:
    t', rec := SplitThenInsert(newRoot, 0, key, value, d, h + 1, 0, KEY_BOUND, t0, [], [], row);
    assert Grown@grown(t0, t');
    GrownFurther(t, t0, t', newRoot);
    forall n | n in Nodes(t') ensures !n.freed {
      assert n in Nodes(t0) ==> n.freed == old@grown(n.freed);
    }
    RowInNodes(t');
    assert [] + Row(t') + [] == Row(t');
  }

  /** The new root, with the old one as its only child. */
  method AddRoot(root: Node, d: nat, ghost h: nat, ghost t: Shape, ghost row: seq<Node>)
    returns (newRoot: Node, ghost t0: Shape)
    requires d >= 2 && t.id == root && Sound(t, d) && Wf(t, d, h, 0, KEY_BOUND) && row == Row(t) && root.nk == 2 * d - 1
    ensures t0 == Inner(newRoot, [], [t]) && fresh(newRoot) && fresh(newRoot.keys) && fresh(newRoot.pointers)
    ensures Held(t0, d) && Wf(t0, d, h + 1, 0, KEY_BOUND) && Splittable(t, d) && !newRoot.freed && Live(Nodes(t))
    ensures Entries(t0) == Entries(t) && Nodes(t0) == Nodes(t) + {newRoot} && row == [] + Row(t0) + [] && Chain(row)
  {
    NodesAllocated(t);
    assert Local(t, d);
    newRoot := new Node(d, false);
    newRoot.pointers[0] := Child(root);
    t0 := Inner(newRoot, [], [t]);
    RepFrame(t, d);
    ChainFrame(row);
    OneKid(t, newRoot, d, h, 0, KEY_BOUND);
    HeldNewRoot(t, newRoot, d);
  }

  /** The root has room: insert below it. */
  method InsertTree(root: Node, key: Key, value: Value, d: nat, ghost h: nat, ghost t: Shape, ghost row: seq<Node>)
    returns (ghost t': Shape, rec: Record)
    requires d >= 2 && t.id == root && Sound(t, d) && Wf(t, d, h, 0, KEY_BOUND) && row == Row(t)
    requires t.Size() < 2 * d - 1 && !HasKey(Entries(t), key)
    modifies Nodes(t)`nk, Nodes(t)`next, Nodes(t)`previous, KeyArrays(Nodes(t)), PtrArrays(Nodes(t))
    ensures Sound(t', d) && Bound(t, t', key, rec, d, h, 0, KEY_BOUND)
    ensures AllNew(Nodes(t), Nodes(t')) && fresh(rec) && rec.value == value && !rec.freed
  {
    hide Wf, Held, Upsert, HasKey, Entries;
    NodesAllocated(t);
    assert [] + Row(t) + [] == row;
    t', rec := InsertNotFull(root, key, value, d, h, 0, KEY_BOUND, t, [], [], row);
    forall n | n in Nodes(t') ensures !n.freed {
      assert n in Nodes(t) ==> n.freed == old(n.freed);
    }
    RowInNodes(t');
    assert [] + Row(t') + [] == Row(t');
  }

  lemma HeldNewRoot(t: Shape, newRoot: Node, d: nat)
    requires Held(t, d) && newRoot !in Nodes(t) && d >= 2
    requires newRoot.Room(d) && newRoot.nk == 0 && !newRoot.isLeaf && newRoot.pointers[0] == Child(t.id)
    requires forall n :: n in Nodes(t) ==> n.keys != newRoot.keys && n.pointers != newRoot.pointers
    requires Nodes(Inner(newRoot, [], [t])) == Nodes(t) + {newRoot}
    ensures Held(Inner(newRoot, [], [t]), d)
  {
    var t0 := Inner(newRoot, [], [t]);
    assert newRoot.pointers[..1] == KidPtrs(Ids([t]));
    ApartGrow(Nodes(t), {newRoot});
  }
}
