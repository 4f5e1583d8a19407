/** The in-memory B-tree store: read, update, insert and destroy. */
module BTreeStore {
  import opened Base
  import opened SortedMap
  import opened BTreeShape
  import opened BTreeNode
  import opened BTreeHeap
  import opened BTreeInsert
  import opened BTreeSearch
  import opened BTreeFree

  /** The nodes of t hold t and are live. */
  ghost predicate Sound(t: Plain, d: nat)
    reads BNodes(t), EntryArrays(BNodes(t)), ChildArrays(BNodes(t))
  {
    Held(t, d, Same) && Live(BNodes(t))
  }

  /** Soundness does not depend on anything but the nodes and their arrays. */
  twostate lemma SoundFrame(t: Plain, new d: nat)
    requires old(Sound(t, d))
    requires forall n :: n in BNodes(t) ==>
      old(allocated(n)) && unchanged(n) && unchanged(n.entries) && unchanged(n.children)
    ensures Sound(t, d)
  {
    RepFrame(t, d, Same);
  }

  /** Nodes of s' that s does not have, and their arrays, were allocated since. */
  twostate predicate AllNew(s: set<PNode>, new s': set<PNode>) {
    forall n :: n in s' - s ==> fresh(n) && fresh(n.entries) && fresh(n.children)
  }

  class Store {
    const d: nat
    var root: Node?<Entry<Value>>
    ghost var shape: Option<Plain>
    ghost var height: nat

    ghost function TreeNodes(): set<PNode>
      reads this`shape
    {
      if shape.Some? then BNodes(shape.value) else {}
    }

    /** The invariant of every reachable state. */
    ghost predicate Valid()
      reads this, TreeNodes(), EntryArrays(TreeNodes()), ChildArrays(TreeNodes())
    {
      && d >= 2
      && (root == null <==> shape == None)
      && (root != null ==> Rooted(shape.value))
    }

    ghost predicate Rooted(t: Plain)
      reads this, BNodes(t), EntryArrays(BNodes(t)), ChildArrays(BNodes(t))
    {
      t.id == root && Sound(t, d) && BWf(t, d, height, 0, KEY_BOUND) && |t.es| >= 1
    }

    /** The abstract state. */
    ghost function Contents(): seq<Entry<Value>>
      reads this`shape
    {
      if shape.Some? then InOrder(shape.value) else []
    }

    /** `init`. */
    constructor (minDegree: nat)
      requires minDegree >= 2
      ensures Valid() && d == minDegree && root == null && Contents() == []
    {
      d := minDegree;
      root := null;
      shape := None;
      height := 0;
    }

    /** `read`. */
    method Read(key: Key) returns (r: Checked<Option<Value>>)
      requires Valid()
      ensures Valid() && r == if root == null then Fatal else Done(Lookup(Contents(), key))
    {
      if root == null {
        return Fatal;
      }
      ghost var t := shape.value;
      NodesAllocated(t);
      var v := Search(root, key, d, height, 0, KEY_BOUND, t);
      SoundFrame(t, d);
      return Done(v);
    }

    /** `insert` on the empty store: a root that is a leaf with one entry. */
    method InsertFirst(key: Key, value: Value)
      requires Valid() && root == null
      modifies this`root, this`shape, this`height
      ensures Valid() && root != null && AllNew({}, TreeNodes())
      ensures Contents() == [Entry(key, value)] && height == 0
    {
      var leaf := new Node<Entry<Value>>(d, true);
      leaf.entries[0] := Entry(key, value);
      leaf.nk := 1;
      root := leaf;
      shape := Some(BLeaf(leaf, [Entry(key, value)]));
      height := 0;
      assert leaf.Es() == [Entry(key, value)];
    }

    /** `insert`: binds key to value, replacing the value when the key is stored. */
    method Insert(key: Key, value: Value)
      requires Valid()
      modifies this`root, this`shape, this`height
      modifies TreeNodes()`nk, EntryArrays(TreeNodes()), ChildArrays(TreeNodes())
      ensures Valid() && root != null && AllNew(old(TreeNodes()), TreeNodes())
      ensures Contents() == Upsert(old(Contents()), key, value)
      ensures height == if old(root != null && root.nk == 2 * d - 1 && !HasKey(Contents(), key)) then old(height) + 1
                        else if old(root == null) then 0 else old(height)
    {
      if root == null {
        InsertFirst(key, value);
        return;
      }
      hide Held, BWf, HasKey, InOrder, Upsert;
      ghost var t := shape.value;
      var found;
      ghost var t1;
      found, t1 := UpdateTree(root, key, value, d, height, t);
      if found {
        Settle(root, t1, height);
        return;
      }
      assert root.nk == old(root.nk) && TreeNodes() == old(TreeNodes());
      InsertAbsent(key, value);
    }

    /** The rest of `insert`, once the key is known to be absent. */
    method InsertAbsent(key: Key, value: Value)
      requires Valid() && root != null && !HasKey(Contents(), key)
      modifies this`root, this`shape, this`height
      modifies TreeNodes()`nk, EntryArrays(TreeNodes()), ChildArrays(TreeNodes())
      ensures Valid() && root != null && AllNew(old(TreeNodes()), TreeNodes())
      ensures Contents() == Upsert(old(Contents()), key, value)
      ensures height == old(height) + if old(root.nk) == 2 * d - 1 then 1 else 0
    {
      ghost var t := shape.value;
      assert Local(t, d, Same);
      hide Local, Held, BWf, HasKey, InOrder;
      if root.nk == 2 * d - 1 {
        var newRoot;
        ghost var t2;
        newRoot, t2 := GrowTree(root, key, value, d, height, t);
        Settle(newRoot, t2, height + 1);
      } else {
        ghost var t2 := InsertTree(root, key, value, d, height, t);
        Settle(root, t2, height);
      }
    }

    /** Records the root and the shape an operation ended with. */
    method Settle(newRoot: PNode, ghost t: Plain, ghost h: nat)
      requires d >= 2 && t.id == newRoot && Sound(t, d) && BWf(t, d, h, 0, KEY_BOUND) && |t.es| >= 1
      modifies this`root, this`shape, this`height
      ensures Valid() && root == newRoot && shape == Some(t) && height == h
    {
      NodesAllocated(t);
      root := newRoot;
      shape := Some(t);
      height := h;
      SoundFrame(t, d);
    }

    /** `update`: an insert once the store has a root. */
    method Update(key: Key, value: Value) returns (r: Checked<()>)
      requires Valid()
      modifies this`root, this`shape, this`height
      modifies TreeNodes()`nk, EntryArrays(TreeNodes()), ChildArrays(TreeNodes())
      ensures Valid() && AllNew(old(TreeNodes()), TreeNodes())
      ensures r == if old(root == null) then Fatal else Done(())
      ensures Contents() == if old(root == null) then [] else Upsert(old(Contents()), key, value)
    {
      if root == null {
        return Fatal;
      }
      Insert(key, value);
      return Done(());
    }

    /** `destroy`: frees every node of the tree. */
    method Destroy() returns (r: Checked<()>)
      requires Valid()
      modifies this`root, this`shape, TreeNodes()`freed
      ensures r == if old(root == null) then Fatal else Done(())
      ensures Valid() && root == null && Contents() == []
      ensures AllFreed(old(TreeNodes()))
    {
      if root == null {
        return Fatal;
      }
      RecursiveFree(root, d, Same, shape.value);
      root := null;
      shape := None;
      return Done(());
    }
  }

  /** A full root gets a new root above it, and is split as that root's only child. */
  method GrowTree(root: PNode, key: Key, value: Value, d: nat, ghost h: nat, ghost t: Plain)
    returns (newRoot: PNode, ghost t': Plain)
    requires d >= 2 && t.id == root && Sound(t, d) && BWf(t, d, h, 0, KEY_BOUND)
    requires root.nk == 2 * d - 1 && !HasKey(InOrder(t), key)
    modifies BNodes(t)`nk, EntryArrays(BNodes(t)), ChildArrays(BNodes(t))
    ensures t'.id == newRoot && Sound(t', d) && BWf(t', d, h + 1, 0, KEY_BOUND) && |t'.es| >= 1
    ensures InOrder(t') == Upsert(InOrder(t), key, value)
    ensures AllNew(BNodes(t), BNodes(t'))
  {
    hide BWf, Held, Upsert, HasKey, InOrder, BNodes;
    ghost var t0;
    newRoot, t0 := AddRoot(root, d, h, t);
    NodesAllocated(t0);
    label grown:
    t' := SplitThenInsert(newRoot, 0, key, value, d, h + 1, 0, KEY_BOUND, t0);
    assert Grown@grown(t0, t');
    GrownFurther(t, t0, t', newRoot);
    forall n | n in BNodes(t') ensures !n.freed {
      assert n in BNodes(t0) ==> n.freed == old@grown(n.freed);
    }
  }

  /** The new root, with the old one as its only child. */
  method AddRoot(root: PNode, d: nat, ghost h: nat, ghost t: Plain)
    returns (newRoot: PNode, ghost t0: Plain)
    requires d >= 2 && t.id == root && Sound(t, d) && BWf(t, d, h, 0, KEY_BOUND) && root.nk == 2 * d - 1
    ensures t0 == BInner(newRoot, [], [t]) && fresh(newRoot) && fresh(newRoot.entries) && fresh(newRoot.children)
    ensures Held(t0, d, Same) && BWf(t0, d, h + 1, 0, KEY_BOUND) && BSplittable(t, d) && !newRoot.freed
      && Live(BNodes(t))
    ensures InOrder(t0) == InOrder(t) && BNodes(t0) == BNodes(t) + {newRoot}
  {
    NodesAllocated(t);
    assert Local(t, d, Same);
    newRoot := new Node<Entry<Value>>(d, false);
    newRoot.children[0] := root;
    t0 := BInner(newRoot, [], [t]);
    RepFrame(t, d, Same);
    BOneKid(t, newRoot, d, h, 0, KEY_BOUND);
    HeldNewRoot(t, newRoot, d);
  }

  /** The root has room: insert below it. */
  method InsertTree(root: PNode, key: Key, value: Value, d: nat, ghost h: nat, ghost t: Plain)
    returns (ghost t': Plain)
    requires d >= 2 && t.id == root && Sound(t, d) && BWf(t, d, h, 0, KEY_BOUND)
    requires |t.es| < 2 * d - 1 && !HasKey(InOrder(t), key)
    modifies BNodes(t)`nk, EntryArrays(BNodes(t)), ChildArrays(BNodes(t))
    ensures Sound(t', d) && BBound(t, t', key, value, d, h, 0, KEY_BOUND)
    ensures AllNew(BNodes(t), BNodes(t'))
  {
    hide BWf, Held, Upsert, HasKey, InOrder;
    NodesAllocated(t);
    t' := InsertNotFull(root, key, value, d, h, 0, KEY_BOUND, t);
    forall n | n in BNodes(t') ensures !n.freed {
      assert n in BNodes(t) ==> n.freed == old(n.freed);
    }
  }

  /** `update_if_found` from the root. */
  method UpdateTree(root: PNode, key: Key, value: Value, ghost d: nat, ghost h: nat, ghost t: Plain)
    returns (found: bool, ghost t': Plain)
    requires d >= 2 && t.id == root && Sound(t, d) && BWf(t, d, h, 0, KEY_BOUND)
    modifies EntryArrays(BNodes(t))
    ensures found <==> HasKey(InOrder(t), key)
    ensures Sound(t', d) && BNodes(t') == BNodes(t) && |t'.es| == |t.es|
    ensures found ==> BBound(t, t', key, value, d, h, 0, KEY_BOUND)
    ensures !found ==> t' == t
  {
    hide BWf, Held, Upsert, HasKey, InOrder, BBound;
    NodesAllocated(t);
    found, t' := UpdateIfFound(root, key, value, d, h, 0, KEY_BOUND, t);
    forall n | n in BNodes(t') ensures !n.freed {
      assert n in BNodes(t) ==> n.freed == old(n.freed);
    }
  }

  lemma HeldNewRoot(t: Plain, newRoot: PNode, d: nat)
    requires Held(t, d, Same) && newRoot !in BNodes(t) && d >= 2
    requires newRoot.Room(d) && newRoot.nk == 0 && !newRoot.isLeaf && newRoot.children[0] == t.id
    requires forall n :: n in BNodes(t) ==> n.entries != newRoot.entries && n.children != newRoot.children
    requires BNodes(BInner(newRoot, [], [t])) == BNodes(t) + {newRoot} && BOwned(BInner(newRoot, [], [t]))
    ensures Held(BInner(newRoot, [], [t]), d, Same)
  {
    var t0 := BInner(newRoot, [], [t]);
    assert newRoot.Kids() == BIds([t]);
    ApartGrow(BNodes(t), {newRoot});
  }
}
