/** The B-tree store whose nodes point to their entries: the entry of a key never moves, whatever node and
    level the pointer to it gets to. */
module EntryStore {
  import opened Base
  import opened SortedMap
  import opened Bindings
  import opened BTreeShape
  import opened BTreeNode
  import opened BTreeHeap
  import opened BTreeFree
  import opened EntryItem
  import opened EntryInsert
  import opened EntrySearch
  import opened EntryValues

  /** The nodes of t hold t and are live, every pointer is to an entry with the key it stands for. */
  ghost predicate Sound(t: Tree, d: nat)
    reads BNodes(t), EntryArrays(BNodes(t)), ChildArrays(BNodes(t))
  {
    Held(t, d, Pointer) && Live(BNodes(t)) && Keyed(InOrder(t))
  }

  /** Soundness does not depend on anything but the nodes and their arrays. */
  twostate lemma SoundFrame(t: Tree, new d: nat)
    requires old(Sound(t, d))
    requires forall n :: n in BNodes(t) ==>
      old(allocated(n)) && unchanged(n) && unchanged(n.entries) && unchanged(n.children)
    ensures Sound(t, d)
  {
    RepFrame(t, d, Pointer);
  }

  /** Nodes of s' that s does not have, and their arrays, were allocated since. */
  twostate predicate AllNew(s: set<ENode>, new s': set<ENode>) {
    forall n :: n in s' - s ==> fresh(n) && fresh(n.entries) && fresh(n.children)
  }

  class Store {
    const d: nat
    var root: Node?<Item?>
    ghost var shape: Option<Tree>
    ghost var height: nat

    ghost function TreeNodes(): set<ENode>
      reads this`shape
    {
      if shape.Some? then BNodes(shape.value) else {}
    }

    /** Which entry each key is bound to. */
    ghost function Bindings(): seq<Entry<Item>>
      reads this`shape
    {
      if shape.Some? then InOrder(shape.value) else []
    }

    /** The abstract state: what each key's entry holds. */
    ghost function Contents(): seq<Entry<Value>>
      reads this`shape, Recs(Bindings())`value
    {
      Values(Bindings())
    }

    /** The invariant of every reachable state: every entry is referenced from exactly one slot. */
    ghost predicate Valid()
      reads this, TreeNodes(), EntryArrays(TreeNodes()), ChildArrays(TreeNodes())
    {
      && d >= 2
      && (root == null <==> shape == None)
      && (root != null ==> Rooted(shape.value))
      && Distinct(Bindings())
    }

    ghost predicate Rooted(t: Tree)
      reads this, BNodes(t), EntryArrays(BNodes(t)), ChildArrays(BNodes(t))
    {
      t.id == root && Sound(t, d) && BWf(t, d, height, 0, KEY_BOUND) && |t.es| >= 1
    }

    /** The tree part of the invariant, for a store with a root. */
    ghost predicate ValidTree()
      reads this, TreeNodes(), EntryArrays(TreeNodes()), ChildArrays(TreeNodes())
    {
      d >= 2 && root != null && shape.Some? && Rooted(shape.value)
    }

    /** `init`. */
    constructor (minDegree: nat)
      requires minDegree >= 2
      ensures Valid() && d == minDegree && root == null && Bindings() == [] && Contents() == []
    {
      d := minDegree;
      root := null;
      shape := None;
      height := 0;
    }

    /** `read`: the value the key's entry holds. */
    method Read(key: Key) returns (r: Checked<Option<Value>>)
      requires Valid()
      ensures Valid() && Contents() == old(Contents())
      ensures r == if root == null then Fatal else Done(Lookup(Contents(), key))
    {
      if root == null {
        return Fatal;
      }
      ghost var t, bs := shape.value, Bindings();
      NodesAllocated(t);
      ItemsAllocated(t, bs);
      label before:
      var item := Search(root, key, d, height, 0, KEY_BOUND, t);
      SoundFrame(t, d);
      ValuesFrame@before(bs);
      LookupValues(bs, key);
      return Done(match item case None => None case Some(found) => Some(found.value));
    }

    /** `insert` on the empty store. */
    method InsertFirst(key: Key, value: Value) returns (item: Item)
      requires Valid() && root == null
      modifies this`root, this`shape, this`height
      ensures Valid() && root != null && AllNew({}, TreeNodes()) && height == 0
      ensures Bindings() == [Entry(key, item)] && fresh(item) && item.value == value
    {
      var leaf := new Node<Item?>(d, true);
      item := new Item(key, value);
      leaf.entries[0] := item;
      leaf.nk := 1;
      root := leaf;
      shape := Some(BLeaf(leaf, [Entry(key, item)]));
      height := 0;
      assert leaf.Es() == Slots([Entry(key, item)], Pointer);
    }

    /** `insert`: binds a new key to a new entry, or writes into the entry the key already has. */
    method Insert(key: Key, value: Value) returns (ghost item: Item)
      requires Valid()
      modifies this`root, this`shape, this`height
      modifies TreeNodes()`nk, EntryArrays(TreeNodes()), ChildArrays(TreeNodes())
      modifies Recs(Bindings())`value
      ensures Valid() && root != null && AllNew(old(TreeNodes()), TreeNodes())
      ensures Rebound(old(Bindings()), Bindings(), key, value, item)
      ensures Contents() == Upsert(old(Contents()), key, value)
    {
      if root == null {
        item := InsertFirst(key, value);
        return;
      }
      item := InsertRooted(key, value);
    }

    /** `insert` below an existing root. */
    method InsertRooted(key: Key, value: Value) returns (ghost item: Item)
      requires Valid() && root != null
      modifies this`root, this`shape, this`height
      modifies TreeNodes()`nk, EntryArrays(TreeNodes()), ChildArrays(TreeNodes())
      modifies Recs(Bindings())`value
      ensures Valid() && root != null && AllNew(old(TreeNodes()), TreeNodes())
      ensures Rebound(old(Bindings()), Bindings(), key, value, item)
      ensures Contents() == Upsert(old(Contents()), key, value)
    {
      ItemsAllocated(shape.value, Bindings());
      hide Lookup, Values, Recs, Upsert, Rooted;
      var found;
      ghost var kept;
      found, kept := Overwrite(key, value);
      if found {
        item := kept;
      } else {
        label absent:
        item := InsertNew(key, value);
        assert fresh@absent(item);
      }
    }

    /** `insert` of an absent key below an existing root. */
    method InsertNew(key: Key, value: Value) returns (item: Item)
      requires Valid() && root != null && Lookup(Bindings(), key) == None
      modifies this`root, this`shape, this`height
      modifies TreeNodes()`nk, EntryArrays(TreeNodes()), ChildArrays(TreeNodes())
      ensures Valid() && root != null && AllNew(old(TreeNodes()), TreeNodes())
      ensures Rebound(old(Bindings()), Bindings(), key, value, item)
      ensures Contents() == Upsert(old(Contents()), key, value)
    {
      ghost var bs := Bindings();
      ItemsAllocated(shape.value, bs);
      hide Lookup, Values, Recs, Upsert, Rooted, BNodes, InOrder, Distinct;
      label absent:
      item := InsertAbsent(key, value);
      AddItem@absent(bs, key, item);
    }

    /** The first half of `insert`: write the entry of a stored key. */
    method Overwrite(key: Key, value: Value) returns (found: bool, ghost item: Item?)
      requires Valid() && root != null
      modifies Recs(Bindings())`value
      ensures Valid() && found == Lookup(Bindings(), key).Some?
      ensures found ==> item != null && Rebound(old(Bindings()), Bindings(), key, value, item)
      ensures found ==> Contents() == Upsert(old(Contents()), key, value)
      ensures !found ==> Unwritten(old(Bindings())) && Contents() == old(Contents())
    {
      ghost var t, bs := shape.value, Bindings();
      hide Lookup, Recs, Upsert, Held, BWf, InOrder, Distinct, Sound, BNodes, Rebound, Unwritten, Values;
      found, item := OverwriteTree(root, key, value, d, height, t, bs);
    }

    /** The rest of `insert`, once the key is known to be absent. */
    method InsertAbsent(key: Key, value: Value) returns (item: Item)
      requires ValidTree() && Lookup(Bindings(), key) == None
      modifies this`root, this`shape, this`height
      modifies TreeNodes()`nk, EntryArrays(TreeNodes()), ChildArrays(TreeNodes())
      ensures ValidTree() && AllNew(old(TreeNodes()), TreeNodes())
      ensures Bindings() == Upsert(old(Bindings()), key, item) && fresh(item) && item.value == value
      ensures height == old(height) + if old(root.nk) == 2 * d - 1 then 1 else 0
    {
      LookupAbsent(Bindings(), key);
      hide Held, BWf, HasKey, InOrder, Lookup, Upsert, Recs, Sound, BNodes;
      var newRoot;
      ghost var t, h;
      newRoot, t, h, item := InsertIntoTree(root, key, value, d, height, shape.value);
      Settle(newRoot, t, h);
    }

    /** Records the root and the shape an operation ended with. */
    method Settle(newRoot: ENode, ghost t: Tree, ghost h: nat)
      requires d >= 2 && t.id == newRoot && Sound(t, d) && BWf(t, d, h, 0, KEY_BOUND) && |t.es| >= 1
      modifies this`root, this`shape, this`height
      ensures ValidTree() && root == newRoot && shape == Some(t) && height == h
    {
      NodesAllocated(t);
      root := newRoot;
      shape := Some(t);
      height := h;
      SoundFrame(t, d);
    }

    /** `update`: an insert once the store has a root. */
    method Update(key: Key, value: Value) returns (r: Checked<()>, ghost item: Item?)
      requires Valid()
      modifies this`root, this`shape, this`height
      modifies TreeNodes()`nk, EntryArrays(TreeNodes()), ChildArrays(TreeNodes())
      modifies Recs(Bindings())`value
      ensures Valid() && AllNew(old(TreeNodes()), TreeNodes())
      ensures r == if old(root == null) then Fatal else Done(())
      ensures r.Fatal? ==> root == null && Bindings() == old(Bindings()) && Contents() == old(Contents())
      ensures r.Done? ==> item != null && Rebound(old(Bindings()), Bindings(), key, value, item)
      ensures r.Done? ==> root != null && Contents() == Upsert(old(Contents()), key, value)
    {
      if root == null {
        return Fatal, null;
      }
      ghost var kept := Insert(key, value);
      return Done(()), kept;
    }

    /** `destroy`: frees every node of the tree. It does not free the entries. */
    method Destroy() returns (r: Checked<()>)
      requires Valid()
      modifies this`root, this`shape, TreeNodes()`freed
      ensures r == if old(root == null) then Fatal else Done(())
      ensures Valid() && root == null && Bindings() == []
      ensures AllFreed(old(TreeNodes()))
    {
      if root == null {
        return Fatal;
      }
      RecursiveFree(root, d, Pointer, shape.value);
      root := null;
      shape := None;
      return Done(());
    }
  }

  lemma {:induction false} ItemsAllocated(t: Tree, es: seq<Entry<Item>>)
    requires es == InOrder(t)
    ensures forall r :: r in Recs(InOrder(t)) ==> allocated(r)
  {
  }

  lemma TargetInRecs(t: Tree, key: Key)
    ensures Target(t, key) <= Recs(InOrder(t))
  {
    if Target(t, key) != {} {
      LookupInRecs(InOrder(t), key);
    }
  }

  /** `update_if_found` from the root, and what it does to the entries. */
  method OverwriteTree(root: ENode, key: Key, value: Value, ghost d: nat, ghost h: nat, ghost t: Tree,
                       ghost bs: seq<Entry<Item>>)
    returns (found: bool, ghost item: Item?)
    requires d >= 2 && t.id == root && Sound(t, d) && BWf(t, d, h, 0, KEY_BOUND) && bs == InOrder(t) && Distinct(bs)
    modifies Recs(bs)`value
    ensures Sound(t, d) && Distinct(bs) && found == Lookup(bs, key).Some?
    ensures found ==> item != null && Rebound(bs, bs, key, value, item)
    ensures found ==> Values(bs) == Upsert(old(Values(bs)), key, value)
    ensures !found ==> Unwritten(bs) && Values(bs) == old(Values(bs))
  {
    NodesAllocated(t);
    ItemsAllocated(t, bs);
    TargetInRecs(t, key);
    InOrderSorted(t, d, h, 0, KEY_BOUND);
    hide BWf, Held, InOrder, Upsert, Lookup, HasKey, Recs, Values, Rebound, Distinct;
    label before:
    found := UpdateIfFound(root, key, value, d, h, 0, KEY_BOUND, t);
    SoundFrame@before(t, d);
    if found {
      item := Lookup(bs, key).value;
      WriteOne@before(bs, key, Lookup(bs, key).value, value);
    } else {
      item := null;
      ValuesFrame@before(bs);
    }
  }

  /** The two ways to insert an absent key below a root. */
  method InsertIntoTree(root: ENode, key: Key, value: Value, d: nat, ghost h: nat, ghost t: Tree)
    returns (newRoot: ENode, ghost t': Tree, ghost h': nat, item: Item)
    requires d >= 2 && t.id == root && Sound(t, d) && BWf(t, d, h, 0, KEY_BOUND) && |t.es| >= 1
      && !HasKey(InOrder(t), key)
    modifies BNodes(t)`nk, EntryArrays(BNodes(t)), ChildArrays(BNodes(t))
    ensures t'.id == newRoot && Sound(t', d) && BWf(t', d, h', 0, KEY_BOUND) && |t'.es| >= 1
    ensures h' == h + if old(root.nk) == 2 * d - 1 then 1 else 0
    ensures InOrder(t') == Upsert(InOrder(t), key, item)
    ensures AllNew(BNodes(t), BNodes(t')) && fresh(item) && item.value == value
  {
    assert Local(t, d, Pointer) && root.nk == |t.es| <= 2 * d - 1;
    hide Local, Held, BWf, HasKey, InOrder, Upsert, Sound, BNodes;
    if root.nk == 2 * d - 1 {
      newRoot, t', item := GrowTree(root, key, value, d, h, t);
      h' := h + 1;
    } else {
      newRoot, h' := root, h;
      t', item := InsertTree(root, key, value, d, h, t);
    }
  }

  /** A full root gets a new root above it, and is split as that root's only child. */
  method GrowTree(root: ENode, key: Key, value: Value, d: nat, ghost h: nat, ghost t: Tree)
    returns (newRoot: ENode, ghost t': Tree, item: Item)
    requires d >= 2 && t.id == root && Sound(t, d) && BWf(t, d, h, 0, KEY_BOUND)
    requires root.nk == 2 * d - 1 && !HasKey(InOrder(t), key)
    modifies BNodes(t)`nk, EntryArrays(BNodes(t)), ChildArrays(BNodes(t))
    ensures t'.id == newRoot && Sound(t', d) && BWf(t', d, h + 1, 0, KEY_BOUND) && |t'.es| >= 1
    ensures InOrder(t') == Upsert(InOrder(t), key, item)
    ensures AllNew(BNodes(t), BNodes(t')) && fresh(item) && item.value == value
  {
    hide BWf, Held, Upsert, HasKey, InOrder, BNodes, Keyed;
    ghost var t0;
    newRoot, t0 := AddRoot(root, d, h, t);
    NodesAllocated(t0);
    label grown:
    t', item := SplitThenInsert(newRoot, 0, key, value, d, h + 1, 0, KEY_BOUND, t0);
    UpsertKeyed(InOrder(t), key, item);
    assert Grown@grown(t0, t');
    GrownFurther(t, t0, t', newRoot);
    forall n | n in BNodes(t') ensures !n.freed {
      assert n in BNodes(t0) ==> n.freed == old@grown(n.freed);
    }
  }

  /** The new root, with the old one as its only child. */
  method AddRoot(root: ENode, d: nat, ghost h: nat, ghost t: Tree)
    returns (newRoot: ENode, ghost t0: Tree)
    requires d >= 2 && t.id == root && Sound(t, d) && BWf(t, d, h, 0, KEY_BOUND) && root.nk == 2 * d - 1
    ensures t0 == BInner(newRoot, [], [t]) && fresh(newRoot) && fresh(newRoot.entries) && fresh(newRoot.children)
    ensures Held(t0, d, Pointer) && BWf(t0, d, h + 1, 0, KEY_BOUND) && BSplittable(t, d) && !newRoot.freed
      && Live(BNodes(t))
    ensures InOrder(t0) == InOrder(t) && BNodes(t0) == BNodes(t) + {newRoot}
  {
    NodesAllocated(t);
    assert Local(t, d, Pointer);
    newRoot := new Node<Item?>(d, false);
    newRoot.children[0] := root;
    t0 := BInner(newRoot, [], [t]);
    RepFrame(t, d, Pointer);
    BOneKid(t, newRoot, d, h, 0, KEY_BOUND);
    HeldNewRoot(t, newRoot, d);
  }

  /** The root has room: insert below it. */
  method InsertTree(root: ENode, key: Key, value: Value, d: nat, ghost h: nat, ghost t: Tree)
    returns (ghost t': Tree, item: Item)
    requires d >= 2 && t.id == root && Sound(t, d) && BWf(t, d, h, 0, KEY_BOUND)
    requires |t.es| < 2 * d - 1 && !HasKey(InOrder(t), key)
    modifies BNodes(t)`nk, EntryArrays(BNodes(t)), ChildArrays(BNodes(t))
    ensures Sound(t', d) && BBound(t, t', key, item, d, h, 0, KEY_BOUND)
    ensures AllNew(BNodes(t), BNodes(t')) && fresh(item) && item.value == value
  {
    hide BWf, Held, Upsert, HasKey, InOrder, Keyed;
    NodesAllocated(t);
    t', item := InsertNotFull(root, key, value, d, h, 0, KEY_BOUND, t);
    UpsertKeyed(InOrder(t), key, item);
    forall n | n in BNodes(t') ensures !n.freed {
      assert n in BNodes(t) ==> n.freed == old(n.freed);
    }
  }

  lemma HeldNewRoot(t: Tree, newRoot: ENode, d: nat)
    requires Held(t, d, Pointer) && newRoot !in BNodes(t) && d >= 2
    requires newRoot.Room(d) && newRoot.nk == 0 && !newRoot.isLeaf && newRoot.children[0] == t.id
    requires forall n :: n in BNodes(t) ==> n.entries != newRoot.entries && n.children != newRoot.children
    requires BNodes(BInner(newRoot, [], [t])) == BNodes(t) + {newRoot} && BOwned(BInner(newRoot, [], [t]))
    ensures Held(BInner(newRoot, [], [t]), d, Pointer)
  {
    var t0 := BInner(newRoot, [], [t]);
    assert newRoot.Kids() == BIds([t]);
    ApartGrow(BNodes(t), {newRoot});
  }
}
