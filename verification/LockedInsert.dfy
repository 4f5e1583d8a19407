/** The sequential insert is a writer's section of the locked tree. */
module LockedInsert {
  import opened Base
  import opened BPlusShape
  import opened PoolMemory
  import Tx = TxPool
  import TxNode
  import TxStore
  import opened LockedTree

  /** The memory a writer starts from: the tree of the last completed insert, or none yet. */
  ghost predicate Untouched(s: State, d: nat) {
    if s.tree.Some? then WellFormed(s.mem, s.root, s.tree.value, s.height, d) else s.root == OID_NULL
  }

  /** Running the sequential insert in a writer's section, whichever operation asked for it and whatever the
      other threads did since it got the lock: its stores are stores of the section, and afterwards the
      writer may leave. */
  method WriterSection(p: Tx.Pool, ghost s: State, ghost t: Tid, key: Key, value: Value, d: nat)
    returns (ghost s1: State, ghost s2: State)
    requires Inv(s, d) && !s.aborted && t in s.threads && s.threads[t] == Writing(key, value) && Untouched(s, d)
    requires p.st == Tx.State(s.mem, s.root, map[], None, {})
    modifies p
    ensures s1.mem == p.st.mem && s1.root == p.st.root
    ensures ThreadStep(s, s1, t, d) && ThreadStep(s1, s2, t, d)
    ensures s2.writer == None && s2.history == s.history + [Entry(key, value)]
    ensures Inv(s2, d)
  {
    ghost var tree', h';
    if p.st.root == OID_NULL {
      tree' := FirstInsert(p, key, value, d);
      h' := 0;
    } else {
      tree', h' := TxStore.Insert(p, key, value, d, s.height, s.tree.value);
    }
    s1 := s.(mem := p.st.mem, root := p.st.root);
    s2 := s1.(writer := None, threads := s1.threads[t := Idle], tree := Some(tree'), height := h',
              history := s1.history + [Entry(key, value)]);
    assert StoreStep(s, s1);
    assert ReleaseStep(s1, s2, t, key, value, d);
    StepKeepsInv(s, s1, t, d);
    StepKeepsInv(s1, s2, t, d);
  }

  /** Getting the lock for an insert or an update leaves the memory untouched so far. */
  lemma AcquiredUntouched(s: State, s': State, t: Tid, op: Op, d: nat)
    requires Inv(s, d) && t in s.threads && s.threads[t] == Ready(op) && (op.Insert? || op.Update?)
    requires AcquireStep(s, s', t, op)
    ensures Untouched(s', d) && s'.writer == Some(t) && s'.threads[t] == Writing(op.key, op.value)
  {
  }

  /** While t is the writer, a step of another thread leaves the memory, the tree and t itself alone. */
  lemma OthersKeepOut(s: State, s': State, t: Tid, u: Tid, d: nat)
    requires Inv(s, d) && s.writer == Some(t) && u != t && ThreadStep(s, s', u, d)
    ensures s'.mem == s.mem && s'.root == s.root && s'.tree == s.tree && s'.height == s.height
      && s'.history == s.history
    ensures s'.writer == Some(t) && t in s.threads && t in s'.threads && s'.threads[t] == s.threads[t]
  {
    hide PcOk, DataOk, AnswersOk;
    assert t in s.threads && s.threads[t].Writing?;
    assert !InRead(s.threads[u]) && !s.threads[u].Writing?;
    match s.threads[u]
    case Idle =>
      var op :| StartStep(s, s', u, op);
    case Ready(op) =>
    case Faulted =>
  }

  /** So after any schedule of other threads since t got the lock, its section can still be run. */
  lemma {:induction false} SectionWaits(b: seq<State>, t: Tid, op: Op, d: nat, i: nat)
    requires |b| > 1 && i < |b| - 1 && Inv(b[0], d) && t in b[0].threads && b[0].threads[t] == Ready(op)
    requires (op.Insert? || op.Update?) && AcquireStep(b[0], b[1], t, op) && !b[0].aborted
    requires forall m :: 1 <= m < |b| - 1 ==> OtherStep(b[m], b[m + 1], t, d)
    ensures Inv(b[i + 1], d) && Untouched(b[i + 1], d) && b[i + 1].writer == Some(t)
    ensures t in b[i + 1].threads && b[i + 1].threads[t] == Writing(op.key, op.value)
    ensures b[i + 1].history == b[0].history
  {
    if i == 0 {
      AcquireKeepsInv(b[0], b[1], t, op, d);
      AcquiredUntouched(b[0], b[1], t, op, d);
    } else {
      SectionWaits(b, t, op, d, i - 1);
      assert OtherStep(b[i], b[i + 1], t, d);
      var u :| u != t && ThreadStep(b[i], b[i + 1], u, d);
      StepKeepsInv(b[i], b[i + 1], u, d);
      OthersKeepOut(b[i], b[i + 1], t, u, d);
    }
  }

  /** A step of a thread other than t. */
  ghost predicate OtherStep(s: State, s': State, t: Tid, d: nat) {
    exists u :: u != t && ThreadStep(s, s', u, d)
  }

  /** The empty store: the root becomes a leaf with one entry. */
  method FirstInsert(p: Tx.Pool, key: Key, value: Value, d: nat) returns (ghost tree: PShape)
    requires d >= 2
    modifies p`st
    ensures WellFormed(p.st.mem, p.st.root, tree, 0, d) && p.st.root != OID_NULL
    ensures Entries(tree) == [Entry(key, value)]
  {
    var o := Tx.FreshOid(p.st.mem.Keys);
    var blank := TxNode.BlankRec(true, d);
    var r := blank.(entries := blank.entries[0 := Entry(key, value)], nk := 1);
    p.st := p.st.(mem := p.st.mem[o := r], root := o);
    tree := Leaf(o, [Entry(key, value)]);
    LeafEntries(tree);
    assert r.entries[..1] == [Entry(key, value)];
    assert Row(tree) == [o];
    assert PLinked(p.st.mem, [o], 0);
  }
}
