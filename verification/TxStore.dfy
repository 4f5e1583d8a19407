/** The transactional B+-tree store: `insert` and what a crash at any point of it leaves behind. */
module TxStore {
  import opened Base
  import opened SortedMap
  import opened BPlusShape
  import opened PoolMemory
  import opened TxPool
  import opened TxNode
  import opened TxShape
  import opened TxInsert

  /** Between operations the pool holds the tree t below its root pointer. */
  ghost predicate Rooted(s: State, t: PShape, d: nat, h: nat) {
    && Quiescent(s) && t.id == s.root
    && PHeld(s.mem, t, d) && Wf(t, d, h, 0, KEY_BOUND) && PChain(s.mem, Row(t))
  }

  /** `init` of a new pool: an empty leaf as root. */
  method Init(p: Pool, d: nat) returns (ghost t: PShape)
    requires d >= 2 && Quiescent(p.st)
    modifies p
    ensures Rooted(p.st, t, d, 0) && t == Leaf(p.st.root, [])
    ensures Atomic(p.trace, old(p.st)) && Whole(p.trace, old(p.st), p.st)
  {
    hide Covered, WrittenAhead, Atomic, Rooted;
    p.Begin({});
    p.SnapshotRoot();
    var o := p.Alloc(BlankRec(true, d));
    p.WriteRoot(o);
    CoveredIsAtomic(p.trace, old(p.st));
    p.Commit();
    t := Leaf(o, []);
    BlankRooted(p.st, o, d);
  }

  lemma BlankRooted(s: State, o: Oid, d: nat)
    requires d >= 2 && Quiescent(s) && s.root == o && o != OID_NULL && o in s.mem && s.mem[o] == BlankRec(true, d)
    ensures Rooted(s, Leaf(o, []), d, 0)
  {
    var t: PShape := Leaf(o, []);
    LeafEntries(t);
    assert Leaves(t) == [t] && Row(t) == [o];
    assert PLinked(s.mem, [o], 0);
  }

  /** `update_if_found`. Its snapshot covers the old string only, so it is modelled outside the
      transaction discipline: what it does to the tree, not what a crash inside it leaves. */
  method UpdateIfFound(p: Pool, node: Oid, key: Key, value: Value, ghost d: nat, ghost h: nat, ghost lo: int,
                       ghost hi: int, ghost t: PShape)
    returns (found: bool, ghost t': PShape)
    requires d >= 2 && t.id == node && PHeld(p.st.mem, t, d) && Wf(t, d, h, lo, hi)
    modifies p`st
    ensures found <==> HasKey(Entries(t), key)
    ensures p.st == old(p.st).(mem := p.st.mem) && InPlace(old(p.st.mem), p.st.mem)
    ensures PHeld(p.st.mem, t', d) && Row(t') == Row(t) && Nodes(t') == Nodes(t)
      && Elsewhere(old(p.st.mem), p.st.mem, Nodes(t))
    ensures found ==> Bound(t, t', key, value, d, h, lo, hi)
    ensures !found ==> t' == t && p.st == old(p.st)
    decreases t, 1
  {
    var r := p.st.mem[node];
    NodeRecord(p.st.mem, t, d);
    var i: nat := 0;
    while i < r.nk && key > r.entries[i].key
      invariant 0 <= i <= r.nk
      invariant forall m :: 0 <= m < i ==> r.entries[m].key < key
    {
      i := i + 1;
    }
    if r.isLeaf {
      assert RecHolds(r, t, d);
      LeafEntries(t);
      LookupAt(t.es, i, key);
      if i < r.nk && key == r.entries[i].key {
        t' := UpdateLeaf(p, node, i, key, value, d, h, lo, hi, t);
        return true, t';
      }
      return false, t;
    }
    DescendTo(t, i, key, d, h, lo, hi);
    if i < r.nk && key == r.entries[i].key {
      i := i + 1;
    }
    ChildRec(p.st.mem, t, i, d);
    found, t' := UpdateBelow(p, r.children[i], i, key, value, d, h, lo, hi, t);
  }

  /** `update_if_found` on the child that bounds the key. */
  method UpdateBelow(p: Pool, child: Oid, j: nat, key: Key, value: Value, ghost d: nat, ghost h: nat, ghost lo: int,
                     ghost hi: int, ghost t: PShape)
    returns (found: bool, ghost t': PShape)
    requires d >= 2 && t.Inner? && PHeld(p.st.mem, t, d) && Wf(t, d, h, lo, hi)
    requires j < |t.kids| && Bounds(t.ks, j, key) && child == t.kids[j].id
    requires Wf(t.kids[j], d, h - 1, Lo(t.ks, lo, j), Hi(t.ks, hi, j))
    requires Lookup(Entries(t), key) == Lookup(Entries(t.kids[j]), key)
    modifies p`st
    ensures found <==> HasKey(Entries(t), key)
    ensures p.st == old(p.st).(mem := p.st.mem) && InPlace(old(p.st.mem), p.st.mem)
    ensures PHeld(p.st.mem, t', d) && Row(t') == Row(t) && Nodes(t') == Nodes(t)
      && Elsewhere(old(p.st.mem), p.st.mem, Nodes(t))
    ensures found ==> Bound(t, t', key, value, d, h, lo, hi)
    ensures !found ==> t' == t && p.st == old(p.st)
    decreases t, 0
  {
    assert PRep(p.st.mem, t.kids[j], d) && Owned(t.kids[j]) && h > 0;
    LookupAbsent(Entries(t), key);
    LookupAbsent(Entries(t.kids[j]), key);
    hide Wf, Upsert, Lookup, Entries, Row, HasKey;
    ghost var m := p.st.mem;
    ghost var c;
    found, c := UpdateIfFound(p, child, key, value, d, h - 1, Lo(t.ks, lo, j), Hi(t.ks, hi, j), t.kids[j]);
    assert c.id == t.kids[j].id;
    UpdatedBelow(m, p.st.mem, t, j, c, d);
    t' := t.(kids := t.kids[j := c]);
    if found {
      BoundBelow(t, j, c, key, value, d, h, lo, hi);
    } else {
      assert t.kids[j := c] == t.kids;
    }
  }

  /** Places in the chain and everything about allocation stay as they are. */
  ghost predicate InPlace(m: Mem, m': Mem) {
    m'.Keys == m.Keys && forall o :: o in m ==> SamePlace(m[o], m'[o])
  }

  method UpdateLeaf(p: Pool, node: Oid, i: nat, key: Key, value: Value, ghost d: nat, ghost h: nat, ghost lo: int,
                    ghost hi: int, ghost t: PShape)
    returns (ghost t': PShape)
    requires d >= 2 && t.id == node && t.Leaf? && PHeld(p.st.mem, t, d) && Wf(t, d, h, lo, hi)
    requires i < |t.es| && t.es[i].key == key
    modifies p`st
    ensures p.st == old(p.st).(mem := p.st.mem) && InPlace(old(p.st.mem), p.st.mem)
    ensures PHeld(p.st.mem, t', d) && Row(t') == Row(t) && Nodes(t') == Nodes(t)
      && Elsewhere(old(p.st.mem), p.st.mem, Nodes(t))
    ensures Bound(t, t', key, value, d, h, lo, hi)
  {
    var r := p.st.mem[node];
    p.st := p.st.(mem := p.st.mem[node := r.(entries := r.entries[i := r.entries[i].(value := value)])]);
    t' := t.(es := t.es[i := t.es[i].(value := value)]);
    UpsertPresent(t.es, i, value);
    LeafEntries(t);
    LeafEntries(t');
    assert p.st.mem[node].entries[..r.nk] == t'.es;
  }

  lemma UpdatedBelow(m: Mem, m': Mem, t: PShape, j: nat, c: PShape, d: nat)
    requires t.Inner? && j < |t.kids| && PHeld(m, t, d) && PHeld(m', c, d) && c.id == t.kids[j].id
    requires Nodes(c) == Nodes(t.kids[j]) && Row(c) == Row(t.kids[j]) && Elsewhere(m, m', Nodes(t.kids[j]))
    ensures var t' := t.(kids := t.kids[j := c]);
            PHeld(m', t', d) && Row(t') == Row(t) && Nodes(t') == Nodes(t) && Elsewhere(m, m', Nodes(t))
  {
    PRepAllocated(m, t, d);
    KidNodes(t.kids, j);
    InsertedBelow(m, m', t, j, c, d, map[]);
    OwnedReplace(t, j, c);
    RowKept(t, j, c);
  }

  /** Every crash point of the last transaction recovers to a state that is s outside `exempt`. */
  ghost predicate Recoverable(trace: seq<State>, s: State, exempt: set<Oid>) {
    forall i :: 0 <= i < |trace| ==> Covered(trace[i], s, exempt)
  }

  /** Crash or abort at any point gives the state before the insert back. */
  ghost predicate Atomic(trace: seq<State>, s: State) {
    forall i :: 0 <= i < |trace| ==> Rollback(trace[i]) == s
  }

  /** ... or everything but one node. */
  ghost predicate AtomicExcept(trace: seq<State>, s: State, o: Oid) {
    forall i :: 0 <= i < |trace| ==> SameExcept(Rollback(trace[i]), s, o)
  }

  ghost predicate SameExcept(r: State, s: State, o: Oid) {
    r.root == s.root && r.mem.Keys == s.mem.Keys && forall x :: x in s.mem && x != o ==> r.mem[x] == s.mem[x]
  }

  lemma CoveredIsAtomic(trace: seq<State>, s: State)
    requires Quiescent(s) && Recoverable(trace, s, {})
    ensures Atomic(trace, s)
  {
    forall i | 0 <= i < |trace| ensures Rollback(trace[i]) == s {
      RollbackRestores(trace[i], s, {});
    }
  }

  /** A write to an exempt node that changed it is not undone. */
  lemma ExemptIsLost(trace: seq<State>, s: State, o: Oid)
    requires |trace| > 0 && Recoverable(trace, s, {o}) && o in s.mem
    requires o in trace[|trace| - 1].mem && trace[|trace| - 1].mem[o] != s.mem[o]
    ensures !Atomic(trace, s)
  {
    RollbackRestores(trace[|trace| - 1], s, {o});
  }

  /** A new root above the old one, allocated and snapshotted before it is written. */
  method AddRoot(p: Pool, d: nat, ghost h: nat, ghost t: PShape) returns (newRoot: Oid, ghost t0: PShape)
    requires p.InTx() && d >= 2 && t.id == p.st.root && t.Size() == 2 * d - 1
    requires PHeld(p.st.mem, t, d) && Wf(t, d, h, 0, KEY_BOUND) && PChain(p.st.mem, Row(t))
    modifies p`st, p`trace
    ensures p.InTx() && p.Stepped() && Grows(old(p.st), p.st) && Writable(p.st, p.exempt, newRoot)
    ensures t0 == Inner(newRoot, [], [t]) && PHeld(p.st.mem, t0, d) && Wf(t0, d, h + 1, 0, KEY_BOUND)
      && Splittable(t, d)
    ensures Entries(t0) == Entries(t) && Row(t0) == Row(t) && PChain(p.st.mem, Row(t))
  {
    hide Covered, WrittenAhead, Wf, Entries, Row;
    ghost var m := p.st.mem;
    PRepAllocated(m, t, d);
    newRoot := p.Alloc(BlankRec(false, d));
    p.Snapshot(newRoot);
    p.Write(newRoot, p.st.mem[newRoot].(children := p.st.mem[newRoot].children[0 := p.st.root]));
    t0 := Inner(newRoot, [], [t]);
    PRepFrame(m, p.st.mem, t, d);
    PChainFrame(m, p.st.mem, Row(t));
    OneKid(t, newRoot, d, h, 0, KEY_BOUND);
    assert p.st.mem[newRoot].children[..1] == Ids([t]);
  }

  /** The branch of `insert` for a full root: everything it writes is in the log or newly allocated. */
  method InsertFullRoot(p: Pool, key: Key, value: Value, d: nat, ghost h: nat, ghost t: PShape)
    returns (ghost t': PShape)
    requires d >= 2 && Rooted(p.st, t, d, h) && t.Size() == 2 * d - 1 && !HasKey(Entries(t), key)
    modifies p
    ensures Rooted(p.st, t', d, h + 1) && Entries(t') == Upsert(Entries(t), key, value) && t'.Size() >= 1
    ensures Atomic(p.trace, old(p.st)) && Whole(p.trace, old(p.st), p.st) && WrittenAhead(p.trace, {})
  {
    hide Covered, WrittenAhead, HasKey, Upsert, Wf, PHeld, PChain, Elsewhere, Atomic;
    p.Begin({});
    var newRoot;
    ghost var t0;
    newRoot, t0 := AddRoot(p, d, h, t);
    assert [] + Row(t0) + [] == Row(t0);
    t' := SplitThenInsert(p, newRoot, 0, key, value, d, h + 1, 0, KEY_BOUND, t0, [], [], Row(t0));
    assert [] + Row(t') + [] == Row(t');
    p.SnapshotRoot();
    p.WriteRoot(newRoot);
    CoveredIsAtomic(p.trace, old(p.st));
    p.Commit();
  }

  /** The branch of `insert` for a root with room. The snapshot it takes covers the root pointer, not the
      root node, so a crash is undone exactly when the key goes to a child of the root that has room. */
  method InsertRoomyRoot(p: Pool, key: Key, value: Value, d: nat, ghost h: nat, ghost t: PShape)
    returns (ghost t': PShape)
    requires d >= 2 && Rooted(p.st, t, d, h) && t.Size() < 2 * d - 1 && !HasKey(Entries(t), key)
    modifies p
    ensures Rooted(p.st, t', d, h) && Entries(t') == Upsert(Entries(t), key, value) && t'.Size() >= t.Size()
    ensures AtomicExcept(p.trace, old(p.st), t.id)
    ensures Atomic(p.trace, old(p.st)) <==> RoomBelow(t, key, d)
    ensures Whole(p.trace, old(p.st), p.st) && WrittenAhead(p.trace, if RoomBelow(t, key, d) then {} else {t.id})
  {
    ghost var s := p.st;
    PRepAllocated(s.mem, t, d);
    ghost var exempt := if RoomBelow(t, key, d) then {} else {t.id};
    hide Covered, WrittenAhead, HasKey, Upsert, Wf, PHeld, PChain, RoomBelow, Atomic, AtomicExcept, Recoverable,
      RootEffect;
    t' := InsertInTx(p, key, value, d, h, t, exempt);
    RoomyRootAtomicity(p.trace, s, t, key, d, exempt);
    p.Commit();
  }

  /** The transaction of that branch, up to its commit. */
  method InsertInTx(p: Pool, key: Key, value: Value, d: nat, ghost h: nat, ghost t: PShape, ghost exempt: set<Oid>)
    returns (ghost t': PShape)
    requires d >= 2 && Rooted(p.st, t, d, h) && t.Size() < 2 * d - 1 && !HasKey(Entries(t), key)
    requires exempt == (if RoomBelow(t, key, d) then {} else {t.id}) && t.id in p.st.mem
    modifies p
    ensures |p.trace| > 0 && p.trace[|p.trace| - 1] == p.st && Recoverable(p.trace, old(p.st), exempt)
    ensures p.trace[0] == old(p.st) && WrittenAhead(p.trace, exempt)
    ensures PHeld(p.st.mem, t', d) && Bound(t, t', key, value, d, h, 0, KEY_BOUND) && PChain(p.st.mem, Row(t'))
    ensures p.st.root == t.id && RootEffect(old(p.st.mem), p.st.mem, t, key, d)
  {
    UnexemptRoot(t, exempt);
    assert [] + Row(t) + [] == Row(t);
    hide Covered, WrittenAhead, HasKey, Upsert, Wf, PHeld, PChain, RoomBelow, Unexempt, Elsewhere, Bound, RootEffect;
    p.Begin(exempt);
    p.SnapshotRoot();
    t' := InsertNotFull(p, p.st.root, key, value, d, h, 0, KEY_BOUND, t, [], [], Row(t));
    assert [] + Row(t') + [] == Row(t');
  }

  lemma UnexemptRoot(t: PShape, exempt: set<Oid>)
    requires exempt <= {t.id} && Owned(t)
    ensures Unexempt(t, Row(t), exempt)
  {
    if t.Inner? {
      ForestRowInNodes(t.kids);
      forall o | o in Row(t) ensures o != t.id {
        var i := NodeOf(t.kids, o);
      }
    }
  }

  lemma RoomyRootAtomicity(trace: seq<State>, s: State, t: PShape, key: Key, d: nat, exempt: set<Oid>)
    requires |trace| > 0 && Quiescent(s) && Recoverable(trace, s, exempt) && t.id in s.mem
    requires exempt == if RoomBelow(t, key, d) then {} else {t.id}
    requires RootEffect(s.mem, trace[|trace| - 1].mem, t, key, d)
    ensures AtomicExcept(trace, s, t.id)
    ensures Atomic(trace, s) <==> RoomBelow(t, key, d)
  {
    forall i | 0 <= i < |trace|
      ensures SameExcept(Rollback(trace[i]), s, t.id)
    {
      RollbackRestores(trace[i], s, exempt);
    }
    if RoomBelow(t, key, d) {
      CoveredIsAtomic(trace, s);
    } else {
      ExemptIsLost(trace, s, t.id);
    }
  }

  /** `insert`. For an absent key a crash at any point is undone exactly when the root was full or the key
      went to a child of the root with room; otherwise only the root node may keep what was written. */
  method Insert(p: Pool, key: Key, value: Value, d: nat, ghost h: nat, ghost t: PShape)
    returns (ghost t': PShape, ghost h': nat)
    requires d >= 2 && Rooted(p.st, t, d, h)
    modifies p
    ensures Rooted(p.st, t', d, h') && Entries(t') == Upsert(Entries(t), key, value)
    ensures t.Size() >= 1 ==> t'.Size() >= 1
    ensures h' == if !HasKey(Entries(t), key) && t.Size() == 2 * d - 1 then h + 1 else h
    ensures !HasKey(Entries(t), key) ==>
      && AtomicExcept(p.trace, old(p.st), t.id)
      && (Atomic(p.trace, old(p.st)) <==> t.Size() == 2 * d - 1 || RoomBelow(t, key, d))
      && Whole(p.trace, old(p.st), p.st)
      && WrittenAhead(p.trace, if t.Size() == 2 * d - 1 || RoomBelow(t, key, d) then {} else {t.id})
  {
    h' := h;
    var found;
    found, t' := UpdateIfFound(p, p.st.root, key, value, d, h, 0, KEY_BOUND, t);
    if found {
      PChainFrame(old(p.st.mem), p.st.mem, Row(t));
      return;
    }
    assert RecHolds(p.st.mem[p.st.root], t, d);
    hide HasKey, Upsert, Wf, PHeld, PChain;
    if p.st.mem[p.st.root].nk == 2 * d - 1 {
      t' := InsertFullRoot(p, key, value, d, h, t);
      h' := h + 1;
    } else {
      t' := InsertRoomyRoot(p, key, value, d, h, t);
    }
  }

  /** The smallest case where a crash is not undone: the first insert into a new pool writes its root
      leaf, and only the root pointer was snapshotted. */
  method FirstInsertIsNotAtomic(p: Pool, key: Key, value: Value) returns (ghost before: State)
    requires Quiescent(p.st)
    modifies p
    ensures !Atomic(p.trace, before) && AtomicExcept(p.trace, before, before.root)
  {
    ghost var t := Init(p, MIN_DEGREE);
    before := p.st;
    LeafEntries(t);
    ghost var t', h' := Insert(p, key, value, MIN_DEGREE, 0, t);
  }
}
