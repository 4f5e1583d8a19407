/** Whatever the history of operations, the four trees give the same replies, and a plain map gives them too. */
module Agreement {
  import opened Base
  import opened SortedMap
  import opened History
  import BPlusFacts
  import BPlusNode
  import BPlusShape
  import BPlusTree
  import BTreeNode
  import BTreeShape
  import BTreeStore
  import EntryHistory
  import RecordHistory

  // ---------------------------------------------------------------- the B+-tree

  lemma BPlusRooted(store: BPlusTree.Store)
    requires store.Valid()
    ensures store.root == null <==> store.Contents() == []
  {
    if store.root != null {
      BPlusShape.WfEntries(store.shape.value, store.d, store.height, 0, KEY_BOUND);
    }
  }

  method ApplyBPlus(store: BPlusTree.Store, op: Op) returns (reply: Reply)
    requires store.Valid()
    modifies store`root, store`shape, store`height
    modifies store.TreeNodes()`nk, store.TreeNodes()`next, store.TreeNodes()`previous
    modifies BPlusNode.EntryArrays(store.TreeNodes()), BPlusNode.ChildArrays(store.TreeNodes())
    ensures store.Valid() && BPlusTree.AllNew(old(store.TreeNodes()), store.TreeNodes())
    ensures reply == ReplyTo(old(store.Contents()), op, true)
    ensures reply != Stopped ==> store.Contents() == Next(old(store.Contents()), op)
  {
    BPlusRooted(store);
    hide Upsert, Lookup, Range;
    match op {
      case Insert(k, v) =>
        store.Insert(k, v);
        reply := Written;
      case Update(k, v) =>
        var done := store.Update(k, v);
        reply := if done.Fatal? then Stopped else Written;
      case Read(k) =>
        var found := store.Read(k);
        reply := if found.Fatal? then Stopped else Found(found.result);
      case Scan(k, len) =>
        var listed := store.Scan(k, len, []);
        reply := if listed.Fatal? then Stopped else Listed(listed.result);
    }
  }

  /** A history on a new B+-tree. */
  method PlayBPlus(d: nat, ops: seq<Op>) returns (replies: seq<Reply>)
    requires d >= 2
    ensures replies == Answers([], ops, true)
  {
    var store := new BPlusTree.Store(d);
    replies := [];
    NoneAnswered(ops, true);
    hide Answered, BPlusTree.Store.Valid, BPlusTree.Store.Contents;
    for i := 0 to |ops|
      invariant fresh(store) && store.Valid()
      invariant forall n :: n in store.TreeNodes() ==> fresh(n) && fresh(n.entries) && fresh(n.children)
      invariant Answered(replies, store.Contents(), ops, i, true)
    {
      OneMore(replies, store.Contents(), ops, i, true);
      ghost var nodes := store.TreeNodes();
      label before:
      var reply := ApplyBPlus(store, ops[i]);
      forall n | n in store.TreeNodes() ensures fresh(n) && fresh(n.entries) && fresh(n.children) {
        assert n in nodes || (fresh@before(n) && fresh@before(n.entries) && fresh@before(n.children));
      }
      replies := replies + [reply];
      if reply == Stopped {
        return;
      }
    }
    AllAnswered(replies, store.Contents(), ops, true);
  }

  /** `read(k)` and `scan(k, 1)` find the same pair, although the one descends right and the other left on an
      equal separator. */
  method DescentsAgree(store: BPlusTree.Store, key: Key)
    returns (read: Checked<Option<Value>>, scan: Checked<seq<Entry<Value>>>)
    requires store.Valid()
    ensures store.Valid() && store.Contents() == old(store.Contents())
    ensures read == if store.root == null then Fatal else Done(Lookup(store.Contents(), key))
    ensures scan == if store.root == null then Fatal else Done(Range(store.Contents(), key, 1))
    ensures forall v :: read == Done(Some(v)) <==> scan.Done? && scan.result != [] && scan.result[0] == Entry(key, v)
  {
    read := store.Read(key);
    scan := store.Scan(key, 1, []);
    assert [] + Range(store.Contents(), key, 1) == Range(store.Contents(), key, 1);
    if store.root != null {
      BPlusShape.WfEntries(store.shape.value, store.d, store.height, 0, KEY_BOUND);
      forall v
        ensures read == Done(Some(v)) <==> scan.Done? && scan.result != [] && scan.result[0] == Entry(key, v)
      {
        BPlusFacts.LookupIsFirstOfRange(store.Contents(), key, v);
      }
    }
  }

  // ---------------------------------------------------------------- the B-tree

  lemma BTreeRooted(store: BTreeStore.Store)
    requires store.Valid()
    ensures store.root == null <==> store.Contents() == []
  {
    if store.root != null {
      BTreeShape.InOrderSorted(store.shape.value, store.d, store.height, 0, KEY_BOUND);
    }
  }

  /** One operation; `scan` throws. */
  method ApplyBTree(store: BTreeStore.Store, op: Op) returns (reply: Reply)
    requires store.Valid()
    modifies store`root, store`shape, store`height, store.TreeNodes()`nk
    modifies BTreeNode.EntryArrays(store.TreeNodes()), BTreeNode.ChildArrays(store.TreeNodes())
    ensures store.Valid() && BTreeStore.AllNew(old(store.TreeNodes()), store.TreeNodes())
    ensures reply == ReplyTo(old(store.Contents()), op, false)
    ensures reply != Stopped ==> store.Contents() == Next(old(store.Contents()), op)
  {
    BTreeRooted(store);
    hide Upsert, Lookup, Range;
    match op {
      case Insert(k, v) =>
        store.Insert(k, v);
        reply := Written;
      case Update(k, v) =>
        var done := store.Update(k, v);
        reply := if done.Fatal? then Stopped else Written;
      case Read(k) =>
        var found := store.Read(k);
        reply := if found.Fatal? then Stopped else Found(found.result);
      case Scan(_, _) =>
        reply := Thrown;
    }
  }

  /** A history on a new B-tree. */
  method PlayBTree(d: nat, ops: seq<Op>) returns (replies: seq<Reply>)
    requires d >= 2
    ensures replies == Answers([], ops, false)
  {
    var store := new BTreeStore.Store(d);
    replies := [];
    NoneAnswered(ops, false);
    hide Answered, BTreeStore.Store.Valid, BTreeStore.Store.Contents;
    for i := 0 to |ops|
      invariant fresh(store) && store.Valid()
      invariant forall n :: n in store.TreeNodes() ==> fresh(n) && fresh(n.entries) && fresh(n.children)
      invariant Answered(replies, store.Contents(), ops, i, false)
    {
      OneMore(replies, store.Contents(), ops, i, false);
      ghost var nodes := store.TreeNodes();
      label before:
      var reply := ApplyBTree(store, ops[i]);
      forall n | n in store.TreeNodes() ensures fresh(n) && fresh(n.entries) && fresh(n.children) {
        assert n in nodes || (fresh@before(n) && fresh@before(n.entries) && fresh@before(n.children));
      }
      replies := replies + [reply];
      if reply == Stopped {
        return;
      }
    }
    AllAnswered(replies, store.Contents(), ops, false);
  }

  // ---------------------------------------------------------------- all four

  /** A history on new trees with out-of-line records and entries. */
  method PlayRecords(d: nat, ops: seq<Op>) returns (replies: seq<Reply>)
    requires d >= 2
    ensures replies == Answers([], ops, true)
  {
    var store;
    ghost var n, states, mems;
    store, replies, n, states, mems := RecordHistory.Play(d, ops);
  }

  method PlayEntries(d: nat, ops: seq<Op>) returns (replies: seq<Reply>)
    requires d >= 2
    ensures replies == Answers([], ops, false)
  {
    var store;
    ghost var n, states, mems;
    store, replies, n, states, mems := EntryHistory.Play(d, ops);
  }

  /** The trees agree on every history, and with a plain map: the two B+-trees on inserts, updates, reads and
      scans, the two B-trees on inserts, updates and reads, with every scan thrown. */
  method Agree(d: nat, ops: seq<Op>)
    returns (bplus: seq<Reply>, records: seq<Reply>, btree: seq<Reply>, entries: seq<Reply>)
    requires d >= 2
    ensures bplus == MapAnswers(map[], ops, true) && records == bplus
    ensures btree == MapAnswers(map[], ops, false) && entries == btree
    ensures NoScans(ops) ==> bplus == btree
  {
    bplus := PlayBPlus(d, ops);
    records := PlayRecords(d, ops);
    btree := PlayBTree(d, ops);
    entries := PlayEntries(d, ops);
    AnswersAreMapAnswers([], ops, true);
    AnswersAreMapAnswers([], ops, false);
    if NoScans(ops) {
      SameWithoutScans([], ops);
    }
  }

  predicate NoScans(ops: seq<Op>) {
    forall i :: 0 <= i < |ops| ==> !ops[i].Scan?
  }

  lemma {:induction false} SameWithoutScans(s: seq<Entry<Value>>, ops: seq<Op>)
    requires NoScans(ops)
    ensures Answers(s, ops, true) == Answers(s, ops, false)
    decreases |ops|
  {
    if ops != [] {
      SameWithoutScans(Next(s, ops[0]), ops[1..]);
    }
  }
}
