/** The in-memory B+-tree store: read, scan, update, insert and destroy. */
module BPlusTree {
  import opened Base
  import opened SortedMap
  import opened BPlusShape
  import opened BPlusNode
  import opened BPlusHeap
  import opened BPlusInsert
  import opened BPlusSearch
  import opened BPlusScan
  import opened BPlusFree

  /** The nodes of t hold t, are live, and its leaves are chained in order. */
  ghost predicate Sound(t: Shape, d: nat)
    reads Nodes(t), EntryArrays(Nodes(t)), ChildArrays(Nodes(t))
  {
    Held(t, d) && Live(Nodes(t)) && Members(Row(t)) <= Nodes(t) && Chain(Row(t))
  }

  /** Soundness does not depend on anything but the nodes and their arrays. */
  twostate lemma SoundFrame(t: Shape, new d: nat, new row: seq<Node>)
    requires old(Sound(t, d)) && row == Row(t)
    requires forall n :: n in Nodes(t) ==>
      old(allocated(n)) && unchanged(n) && unchanged(n.entries) && unchanged(n.children)
    ensures Sound(t, d)
  {
    RepFrame(t, d);
    forall i | 0 <= i < |row| ensures Linked(row, i) { assert old(Linked(row, i)); }
  }

  /** Nodes of s' that s does not have, and their arrays, were allocated since. */
  twostate predicate AllNew(s: set<Node>, new s': set<Node>) {
    forall n :: n in s' - s ==> fresh(n) && fresh(n.entries) && fresh(n.children)
  }

  class Store {
    const d: nat
    var root: Node?
    ghost var shape: Option<Shape>
    ghost var height: nat

    ghost function TreeNodes(): set<Node>
      reads this`shape
    {
      if shape.Some? then Nodes(shape.value) else {}
    }

    /** The invariant of every reachable state. */
    ghost predicate Valid()
      reads this, TreeNodes(), EntryArrays(TreeNodes()), ChildArrays(TreeNodes())
    {
      && d >= 2
      && (root == null <==> shape == None)
      && (root != null ==> Rooted(shape.value))
    }

    ghost predicate Rooted(t: Shape)
      reads this, Nodes(t), EntryArrays(Nodes(t)), ChildArrays(Nodes(t))
    {
      t.id == root && Sound(t, d) && Wf(t, d, height, 0, KEY_BOUND) && t.Size() >= 1
    }

    /** The abstract state. */
    ghost function Contents(): seq<Entry<Value>>
      reads this`shape
    {
      if shape.Some? then Entries(shape.value) else []
    }

    /** `init`. */
    constructor (minDegree: nat)
      requires minDegree >= 2
      ensures Valid() && d == minDegree && root == null && Contents() == []
    {
      d := minDegree;
      root := null;
      shape := None;
      height := 0;
    }

    /** `read`. */
    method Read(key: Key) returns (r: Checked<Option<Value>>)
      requires Valid()
      ensures Valid() && r == if root == null then Fatal else Done(Lookup(Contents(), key))
    {
      if root == null {
        return Fatal;
      }
      ghost var t := shape.value;
      NodesAllocated(t);
      var v := Search(root, key, d, height, 0, KEY_BOUND, t);
      SoundFrame(t, d, Row(t));
      return Done(v);
    }

    /** `scan`: appends to the caller's vector. */
    method Scan(key: Key, len: int, result: seq<Entry<Value>>) returns (r: Checked<seq<Entry<Value>>>)
      requires Valid()
      ensures Valid() && r == if root == null then Fatal else Done(result + Range(Contents(), key, len))
    {
      if root == null {
        return Fatal;
      }
      ghost var t := shape.value;
      NodesAllocated(t);
      var out := ScanTree(root, key, len, result, d, height, 0, KEY_BOUND, t, Row(t));
      SoundFrame(t, d, Row(t));
      return Done(out);
    }

    /** `print_leaf_chain`: the lines it prints, one for each leaf, are the contents cut into pieces. */
    method LeafLines() returns (lines: seq<seq<Entry<Value>>>)
      requires Valid()
      ensures Valid() && Joined(lines) == Contents()
      ensures lines == if root == null then [] else LeafRows(Leaves(shape.value))
    {
      if root == null {
        return [];
      }
      ghost var t := shape.value;
      NodesAllocated(t);
      lines := LeafChain(root, d, height, 0, KEY_BOUND, t, Row(t));
      SoundFrame(t, d, Row(t));
      LeafRowsAreCat(Leaves(t));
    }

    /** `insert` on the empty store: a root that is a leaf with one entry. */
    method InsertFirst(key: Key, value: Value)
      requires Valid() && root == null
      modifies this`root, this`shape, this`height
      ensures Valid() && root != null && AllNew({}, TreeNodes())
      ensures Contents() == [Entry(key, value)] && height == 0
    {
      var leaf := new Node(d, true);
      leaf.entries[0] := Entry(key, value);
      leaf.nk := 1;
      root := leaf;
      shape := Some(Leaf(leaf, [Entry(key, value)]));
      height := 0;
      LeafEntries(shape.value);
      assert leaf.Es() == [Entry(key, value)];
      assert Row(shape.value) == [leaf];
      assert Linked([leaf], 0);
    }

    /** `insert`: binds key to value, replacing the value when the key is stored. */
    method Insert(key: Key, value: Value)
      requires Valid()
      modifies this`root, this`shape, this`height
      modifies TreeNodes()`nk, TreeNodes()`next, TreeNodes()`previous, EntryArrays(TreeNodes()),
        ChildArrays(TreeNodes())
      ensures Valid() && root != null && AllNew(old(TreeNodes()), TreeNodes())
      ensures Contents() == Upsert(old(Contents()), key, value)
      ensures height == if old(root != null && root.nk == 2 * d - 1 && !HasKey(Contents(), key)) then old(height) + 1
                        else if old(root == null) then 0 else old(height)
    {
      if root == null {
        InsertFirst(key, value);
        return;
      }
      hide Held, Wf, HasKey, Entries;
      ghost var t := shape.value;
      var found;
      ghost var t1;
      found, t1 := UpdateTree(root, key, value, d, height, t, Row(t));
      if found {
        Settle(root, t1, height);
        return;
      }
      assert root.nk == old(root.nk) && TreeNodes() == old(TreeNodes());
      InsertAbsent(key, value);
    }

    /** The rest of `insert`, once the key is known to be absent. */
    method InsertAbsent(key: Key, value: Value)
      requires Valid() && root != null && !HasKey(Contents(), key)
      modifies this`root, this`shape, this`height
      modifies TreeNodes()`nk, TreeNodes()`next, TreeNodes()`previous, EntryArrays(TreeNodes()),
        ChildArrays(TreeNodes())
      ensures Valid() && root != null && AllNew(old(TreeNodes()), TreeNodes())
      ensures Contents() == Upsert(old(Contents()), key, value)
      ensures height == old(height) + if old(root.nk) == 2 * d - 1 then 1 else 0
    {
      ghost var t := shape.value;
      assert Local(t, d);
      hide Local, Held, Wf, HasKey, Entries;
      if root.nk == 2 * d - 1 {
        var newRoot;
        ghost var t2;
        newRoot, t2 := GrowTree(root, key, value, d, height, t, Row(t));
        Settle(newRoot, t2, height + 1);
      } else {
        ghost var t2 := InsertTree(root, key, value, d, height, t, Row(t));
        Settle(root, t2, height);
      }
    }

    /** Records the root and the shape an operation ended with. */
    method Settle(newRoot: Node, ghost t: Shape, ghost h: nat)
      requires d >= 2 && t.id == newRoot && Sound(t, d) && Wf(t, d, h, 0, KEY_BOUND) && t.Size() >= 1
      modifies this`root, this`shape, this`height
      ensures Valid() && root == newRoot && shape == Some(t) && height == h
    {
      NodesAllocated(t);
      root := newRoot;
      shape := Some(t);
      height := h;
      SoundFrame(t, d, Row(t));
    }

    /** `update`: an insert once the store has a root. */
    method Update(key: Key, value: Value) returns (r: Checked<()>)
      requires Valid()
      modifies this`root, this`shape, this`height
      modifies TreeNodes()`nk, TreeNodes()`next, TreeNodes()`previous, EntryArrays(TreeNodes()),
        ChildArrays(TreeNodes())
      ensures Valid() && AllNew(old(TreeNodes()), TreeNodes())
      ensures r == if old(root == null) then Fatal else Done(())
      ensures Contents() == if old(root == null) then [] else Upsert(old(Contents()), key, value)
    {
      if root == null {
        return Fatal;
      }
      Insert(key, value);
      return Done(());
    }

    /** `destroy`: frees every node of the tree. */
    method Destroy() returns (r: Checked<()>)
      requires Valid()
      modifies this`root, this`shape, TreeNodes()`freed, TreeNodes()`next, TreeNodes()`previous
      ensures r == if old(root == null) then Fatal else Done(())
      ensures Valid() && root == null && Contents() == []
      ensures AllFreed(old(TreeNodes()))
    {
      if root == null {
        return Fatal;
      }
      ghost var t := shape.value;
      assert [] + Row(t) + [] == Row(t);
      RecursiveFree(root, d, t, [], [], Row(t));
      root := null;
      shape := None;
      return Done(());
    }
  }

  /** A full root gets a new root above it, and is split as that root's only child. */
  method GrowTree(root: Node, key: Key, value: Value, d: nat, ghost h: nat, ghost t: Shape, ghost row: seq<Node>)
    returns (newRoot: Node, ghost t': Shape)
    requires d >= 2 && t.id == root && Sound(t, d) && Wf(t, d, h, 0, KEY_BOUND) && row == Row(t)
    requires root.nk == 2 * d - 1 && !HasKey(Entries(t), key)
    modifies Nodes(t)`nk, Nodes(t)`next, Nodes(t)`previous, EntryArrays(Nodes(t)), ChildArrays(Nodes(t))
    ensures t'.id == newRoot && Sound(t', d) && Wf(t', d, h + 1, 0, KEY_BOUND) && t'.Size() >= 1
    ensures Entries(t') == Upsert(Entries(t), key, value)
    ensures AllNew(Nodes(t), Nodes(t'))
  {
    hide Wf, Held, Upsert, HasKey, Entries, Nodes, Row;
    ghost var t0;
    newRoot, t0 := AddRoot(root, d, h, t, row);
    NodesAllocated(t0);
    label grown:
    t' := SplitThenInsert(newRoot, 0, key, value, d, h + 1, 0, KEY_BOUND, t0, [], [], row);
    assert Grown@grown(t0, t');
    GrownFurther(t, t0, t', newRoot);
    forall n | n in Nodes(t') ensures !n.freed {
      assert n in Nodes(t0) ==> n.freed == old@grown(n.freed);
    }
    RowInNodes(t');
    assert [] + Row(t') + [] == Row(t');
  }

  /** The new root, with the old one as its only child. */
  method AddRoot(root: Node, d: nat, ghost h: nat, ghost t: Shape, ghost row: seq<Node>)
    returns (newRoot: Node, ghost t0: Shape)
    requires d >= 2 && t.id == root && Sound(t, d) && Wf(t, d, h, 0, KEY_BOUND) && row == Row(t) && root.nk == 2 * d - 1
    ensures t0 == Inner(newRoot, [], [t]) && fresh(newRoot) && fresh(newRoot.entries) && fresh(newRoot.children)
    ensures Held(t0, d) && Wf(t0, d, h + 1, 0, KEY_BOUND) && Splittable(t, d) && !newRoot.freed && Live(Nodes(t))
    ensures Entries(t0) == Entries(t) && Nodes(t0) == Nodes(t) + {newRoot} && row == [] + Row(t0) + [] && Chain(row)
  {
    NodesAllocated(t);
    assert Local(t, d);
    newRoot := new Node(d, false);
    newRoot.children[0] := root;
    t0 := Inner(newRoot, [], [t]);
    RepFrame(t, d);
    ChainFrame(row);
    OneKid(t, newRoot, d, h, 0, KEY_BOUND);
    HeldNewRoot(t, newRoot, d);
  }

  /** The root has room: insert below it. */
  method InsertTree(root: Node, key: Key, value: Value, d: nat, ghost h: nat, ghost t: Shape, ghost row: seq<Node>)
    returns (ghost t': Shape)
    requires d >= 2 && t.id == root && Sound(t, d) && Wf(t, d, h, 0, KEY_BOUND) && row == Row(t)
    requires t.Size() < 2 * d - 1 && !HasKey(Entries(t), key)
    modifies Nodes(t)`nk, Nodes(t)`next, Nodes(t)`previous, EntryArrays(Nodes(t)), ChildArrays(Nodes(t))
    ensures Sound(t', d) && Bound(t, t', key, value, d, h, 0, KEY_BOUND)
    ensures AllNew(Nodes(t), Nodes(t'))
  {
    hide Wf, Held, Upsert, HasKey, Entries;
    NodesAllocated(t);
    assert [] + Row(t) + [] == row;
    t' := InsertNotFull(root, key, value, d, h, 0, KEY_BOUND, t, [], [], row);
    forall n | n in Nodes(t') ensures !n.freed {
      assert n in Nodes(t) ==> n.freed == old(n.freed);
    }
    RowInNodes(t');
    assert [] + Row(t') + [] == Row(t');
  }

  /** `update_if_found` from the root. */
  method UpdateTree(root: Node, key: Key, value: Value, ghost d: nat, ghost h: nat, ghost t: Shape,
                    ghost row: seq<Node>)
    returns (found: bool, ghost t': Shape)
    requires d >= 2 && t.id == root && Sound(t, d) && Wf(t, d, h, 0, KEY_BOUND) && row == Row(t)
    modifies EntryArrays(Nodes(t))
    ensures found <==> HasKey(Entries(t), key)
    ensures Sound(t', d) && Nodes(t') == Nodes(t) && t'.Size() == t.Size()
    ensures found ==> Bound(t, t', key, value, d, h, 0, KEY_BOUND)
    ensures !found ==> t' == t
  {
    hide Wf, Held, Upsert, HasKey, Entries, Bound;
    NodesAllocated(t);
    found, t' := UpdateIfFound(root, key, value, d, h, 0, KEY_BOUND, t);
    forall n | n in Nodes(t') ensures !n.freed {
      assert n in Nodes(t) ==> n.freed == old(n.freed);
    }
    ChainFrame(row);
  }

  lemma HeldNewRoot(t: Shape, newRoot: Node, d: nat)
    requires Held(t, d) && newRoot !in Nodes(t) && d >= 2
    requires newRoot.Room(d) && newRoot.nk == 0 && !newRoot.isLeaf && newRoot.children[0] == t.id
    requires forall n :: n in Nodes(t) ==> n.entries != newRoot.entries && n.children != newRoot.children
    requires Nodes(Inner(newRoot, [], [t])) == Nodes(t) + {newRoot}
    ensures Held(Inner(newRoot, [], [t]), d)
  {
    var t0 := Inner(newRoot, [], [t]);
    assert newRoot.Kids() == Ids([t]);
    ApartGrow(Nodes(t), {newRoot});
  }
}
