/**
 * A PMDK transaction over the pool: an undo log with one cell per node and one for the root
 * pointer, a set of objects allocated inside the transaction, and a trace of every state the
 * pool goes through, so that a crash can be placed after any write.
 */
module TxPool {
  import opened Base
  import opened PoolMemory

  datatype State = State(mem: Mem, root: Oid, undo: Mem, undoRoot: Option<Oid>, allocs: set<Oid>)

  /** What recovery makes of a crash or an abort in state s: restore snapshots, drop allocations. */
  ghost function Rollback(s: State): State {
    State((s.mem - s.allocs) + s.undo, if s.undoRoot.Some? then s.undoRoot.value else s.root, map[], None, {})
  }

  /** A pool with no transaction running. */
  ghost predicate Quiescent(s: State) {
    s.undo == map[] && s.undoRoot == None && s.allocs == {}
  }

  /** Every node outside `exempt` that differs from the base state is in the log or was allocated since,
      and the log holds base contents. */
  ghost predicate Covered(s: State, base: State, exempt: set<Oid>) {
    && s.mem.Keys == base.mem.Keys + s.allocs && s.allocs !! base.mem.Keys
    && s.undo.Keys <= base.mem.Keys && s.undo.Keys !! exempt && exempt <= base.mem.Keys
    && (forall o :: o in base.mem && o !in exempt ==>
          if o in s.undo then s.undo[o] == base.mem[o] else s.mem[o] == base.mem[o])
    && (if s.undoRoot.Some? then s.undoRoot.value == base.root else s.root == base.root)
  }

  /** Recovery from a covered state gives the base state back, except for the exempt nodes. */
  lemma RollbackRestores(s: State, base: State, exempt: set<Oid>)
    requires Covered(s, base, exempt)
    ensures Rollback(s).root == base.root && Rollback(s).mem.Keys == base.mem.Keys
    ensures forall o :: o in base.mem ==> Rollback(s).mem[o] == if o in exempt then s.mem[o] else base.mem[o]
    ensures exempt == {} && Quiescent(base) ==> Rollback(s) == base
  {
    var m := Rollback(s).mem;
    assert m.Keys == base.mem.Keys;
    if exempt == {} { assert m == base.mem; }
  }

  /** What the transaction may write only grows. */
  ghost predicate Grows(s: State, s': State) {
    s.undo.Keys <= s'.undo.Keys && s.allocs <= s'.allocs && s.mem.Keys <= s'.mem.Keys && s.root == s'.root
  }

  /** A node may be written: it is snapshotted, allocated in this transaction, or exempt. */
  ghost predicate Writable(s: State, exempt: set<Oid>, o: Oid) {
    o in s.mem && (o in s.undo || o in s.allocs || o in exempt)
  }

  /** What one pool operation may do: change one node that was snapshotted, allocated or exempt before, change
      the root pointer after its snapshot, allocate, or add to the log; no snapshot is ever replaced. */
  ghost predicate Operation(s: State, s': State, exempt: set<Oid>) {
    && s.mem.Keys <= s'.mem.Keys && s.allocs <= s'.allocs
    && (forall o :: o in s.mem && s'.mem[o] != s.mem[o] ==> Writable(s, exempt, o))
    && (forall o, q :: o in s.mem && q in s.mem && s'.mem[o] != s.mem[o] && s'.mem[q] != s.mem[q] ==> o == q)
    && (s'.root != s.root ==> s.undoRoot.Some?)
    && (forall o :: o in s.undo ==> o in s'.undo && s'.undo[o] == s.undo[o])
    && (s.undoRoot.Some? ==> s'.undoRoot == s.undoRoot)
  }

  ghost predicate OperationAt(trace: seq<State>, i: nat, exempt: set<Oid>)
    requires i + 1 < |trace|
  {
    Operation(trace[i], trace[i + 1], exempt)
  }

  /** Every step of the trace is one pool operation: whatever is written was snapshotted or allocated before. */
  ghost predicate WrittenAhead(trace: seq<State>, exempt: set<Oid>) {
    forall i :: 0 <= i < |trace| - 1 ==> OperationAt(trace, i, exempt)
  }

  lemma OneMoreOperation(trace: seq<State>, s: State, exempt: set<Oid>)
    requires |trace| > 0 && WrittenAhead(trace, exempt) && Operation(trace[|trace| - 1], s, exempt)
    ensures WrittenAhead(trace + [s], exempt)
  {
    forall i | 0 <= i < |trace + [s]| - 1 ensures OperationAt(trace + [s], i, exempt) {
      assert i < |trace| - 1 ==> OperationAt(trace, i, exempt);
    }
  }

  /** The outermost transaction from its first state to its commit: the trace starts in s, and s' is its last
      state with the log discarded. */
  ghost predicate Whole(trace: seq<State>, s: State, s': State) {
    |trace| > 0 && trace[0] == s && s' == Committed(trace[|trace| - 1])
  }

  ghost function Committed(s: State): State {
    s.(undo := map[], undoRoot := None, allocs := {})
  }

  class Pool {
    var st: State
    ghost var base: State
    ghost var exempt: set<Oid>
    ghost var trace: seq<State>

    /** Inside a transaction: every state so far is covered. */
    ghost predicate InTx()
      reads this
    {
      && |trace| > 0 && trace[|trace| - 1] == st
      && (forall i :: 0 <= i < |trace| ==> Covered(trace[i], base, exempt))
      && WrittenAhead(trace, exempt)
    }

    /** A step changes nothing but the pool state, and records it. */
    twostate predicate Stepped()
      reads this
    {
      base == old(base) && exempt == old(exempt) && old(trace) <= trace
    }

    /** TX_BEGIN of the outermost transaction. */
    method Begin(ghost ex: set<Oid>)
      requires Quiescent(st) && ex <= st.mem.Keys
      modifies this
      ensures InTx() && st == old(st) && base == st && exempt == ex && trace == [st]
    {
      base := st;
      exempt := ex;
      trace := [st];
    }

    /** TX_END of the outermost transaction: the log is discarded. */
    method Commit()
      modifies this`st
      ensures st == Committed(old(st))
    {
      st := st.(undo := map[], undoRoot := None, allocs := {});
    }

    /** `pmemobj_tx_add_range` over a whole node: the first snapshot counts. */
    method Snapshot(o: Oid)
      requires InTx() && o in st.mem && o !in exempt
      modifies this`st, this`trace
      ensures InTx() && Stepped() && Writable(st, exempt, o) && Grows(old(st), st)
      ensures st == if o in old(st).undo || o in old(st).allocs then old(st)
                    else old(st).(undo := old(st).undo[o := old(st).mem[o]])
    {
      if o !in st.undo && o !in st.allocs {
        st := st.(undo := st.undo[o := st.mem[o]]);
      }
      OneMoreOperation(trace, st, exempt);
      trace := trace + [st];
    }

    /** `pmemobj_tx_add_range_direct` on the root object. */
    method SnapshotRoot()
      requires InTx()
      modifies this`st, this`trace
      ensures InTx() && Stepped() && st.undoRoot.Some?
      ensures st == if old(st).undoRoot.Some? then old(st) else old(st).(undoRoot := Some(old(st).root))
    {
      if st.undoRoot.None? {
        st := st.(undoRoot := Some(st.root));
      }
      OneMoreOperation(trace, st, exempt);
      trace := trace + [st];
    }

    /** `pmemobj_tx_alloc`: a new object, dropped again if the transaction aborts. */
    method Alloc(r: NodeRec) returns (o: Oid)
      requires InTx()
      modifies this`st, this`trace
      ensures InTx() && Stepped() && o != OID_NULL && o !in old(st).mem && o !in base.mem && o !in exempt
      ensures st == old(st).(mem := old(st).mem[o := r], allocs := old(st).allocs + {o})
    {
      o := FreshOid(st.mem.Keys);
      st := st.(mem := st.mem[o := r], allocs := st.allocs + {o});
      OneMoreOperation(trace, st, exempt);
      trace := trace + [st];
    }

    /** A store into a node; the transaction discipline is the precondition. */
    method Write(o: Oid, r: NodeRec)
      requires InTx() && Writable(st, exempt, o)
      modifies this`st, this`trace
      ensures InTx() && Stepped()
      ensures st == old(st).(mem := old(st).mem[o := r])
    {
      st := st.(mem := st.mem[o := r]);
      OneMoreOperation(trace, st, exempt);
      trace := trace + [st];
    }

    /** A store into the root pointer. */
    method WriteRoot(o: Oid)
      requires InTx() && st.undoRoot.Some?
      modifies this`st, this`trace
      ensures InTx() && Stepped()
      ensures st == old(st).(root := o)
    {
      st := st.(root := o);
      OneMoreOperation(trace, st, exempt);
      trace := trace + [st];
    }
  }

  /** Some object id that is not in use. */
  method FreshOid(used: set<Oid>) returns (o: Oid)
    ensures o != OID_NULL && o !in used
  {
    o := 1;
    var rest := used;
    while rest != {}
      invariant o > 0 && forall u :: u in used ==> u in rest || u < o
      decreases rest
    {
      var u :| u in rest;
      rest := rest - {u};
      if u >= o {
        o := u + 1;
      }
    }
  }
}
