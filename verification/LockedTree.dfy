/**
 * The B+-tree under one reader-writer lock, as a state machine over the steps of any number of
 * threads. Readers take one step per node visited, per entry copied and per link followed, each
 * reading the shared memory as it is then; a writer's section is any number of stores of any kind.
 */
module LockedTree {
  import opened Base
  import opened SortedMap
  import opened BPlusShape
  import opened BPlusRange
  import opened PoolMemory
  import opened TxShape

  type Tid = nat

  datatype Op =
    | Insert(key: Key, value: Value)
    | Update(key: Key, value: Value)
    | Read(key: Key)
    | Scan(key: Key, len: int)

  datatype Result = Got(found: Option<Value>) | Listed(out: seq<Entry<Value>>)

  /** Auxiliary: the subtree a reader's pointer stands on, with its height and bounds. */
  datatype Spot = Spot(sub: PShape, h: nat, lo: int, hi: int)

  /** Where a thread stands. In a read section `at` is the number of inserts completed when it began. */
  datatype Pc =
    | Idle
    | Ready(op: Op)
    | Writing(key: Key, value: Value)
    | Searching(key: Key, cur: Oid, at: nat, spot: Spot)
    | Descending(key: Key, len: int, cur: Oid, at: nat, spot: Spot, before: seq<PShape>, after: seq<PShape>)
    | Walking(key: Key, len: int, cur: Oid, i: nat, out: seq<Entry<Value>>, at: nat, q: nat)
    | Returning(op: Op, result: Result, at: nat)
    | Faulted

  /** A completed read or scan and the number of inserts completed when its section began. */
  datatype Answer = Answer(op: Op, result: Result, at: nat)

  datatype State = State(
    mem: Mem, root: Oid,
    writer: Option<Tid>, readers: set<Tid>,
    threads: map<Tid, Pc>,
    aborted: bool,
    // auxiliary
    tree: Option<PShape>, height: nat,
    history: seq<Entry<Value>>,
    answers: seq<Answer>)

  // ---------------------------------------------------------------- the code a reader runs

  /** The loop `while (i < nk && key > entries[i].key) i += 1`. */
  function Position(es: seq<Entry<Value>>, i: nat, nk: nat, key: Key): (r: nat)
    requires i <= nk <= |es|
    ensures i <= r <= nk
    ensures forall m :: i <= m < r ==> es[m].key < key
    ensures r < nk ==> key <= es[r].key
    decreases nk - i
  {
    if i < nk && key > es[i].key then Position(es, i + 1, nk, key) else i
  }

  /** A node can be read: it is allocated and its count stays inside its arrays. */
  predicate Readable(mem: Mem, o: Oid) {
    o in mem && mem[o].nk <= |mem[o].entries| && mem[o].nk < |mem[o].children|
  }

  /** One step of `search`: a whole node. */
  function SearchStep(mem: Mem, pc: Pc): Pc
    requires pc.Searching?
  {
    if !Readable(mem, pc.cur) then Faulted else
    var r := mem[pc.cur];
    var i := Position(r.entries, 0, r.nk, pc.key);
    var hit := i < r.nk && pc.key == r.entries[i].key;
    if r.isLeaf then
      Returning(Read(pc.key), Got(if hit then Some(r.entries[i].value) else None), pc.at)
    else
      var j := if hit then i + 1 else i;
      Searching(pc.key, r.children[j], pc.at, Below(pc.spot, j))
  }

  /** One step of the descent of `scan`: a whole node. */
  ghost function DescendStep(mem: Mem, pc: Pc): Pc
    requires pc.Descending?
  {
    if !Readable(mem, pc.cur) then Faulted else
    var r := mem[pc.cur];
    var i := Position(r.entries, 0, r.nk, pc.key);
    if r.isLeaf then
      Walking(pc.key, pc.len, pc.cur, i, [], pc.at, |pc.before|)
    else
      Descending(pc.key, pc.len, r.children[i], pc.at, Below(pc.spot, i),
                 pc.before + LeavesLeft(pc.spot, i), LeavesRight(pc.spot, i) + pc.after)
  }

  /** One step of the walk: copy one entry, or follow one link. */
  function WalkStep(mem: Mem, pc: Pc): Pc
    requires pc.Walking?
  {
    if pc.cur == OID_NULL then Returning(Scan(pc.key, pc.len), Listed(pc.out), pc.at)
    else if !Readable(mem, pc.cur) then Faulted else
    var r := mem[pc.cur];
    if pc.i < r.nk then
      var out := pc.out + [r.entries[pc.i]];
      if |out| == pc.len then Returning(Scan(pc.key, pc.len), Listed(out), pc.at)
      else Walking(pc.key, pc.len, pc.cur, pc.i + 1, out, pc.at, pc.q)
    else
      Walking(pc.key, pc.len, r.next, 0, pc.out, pc.at, pc.q + 1)
  }

  function Below(spot: Spot, j: nat): Spot {
    if spot.sub.Inner? && j < |spot.sub.kids| && j <= |spot.sub.ks| && spot.h > 0 then
      Spot(spot.sub.kids[j], spot.h - 1,
           if j == 0 then spot.lo else spot.sub.ks[j - 1], if j == |spot.sub.ks| then spot.hi else spot.sub.ks[j])
    else spot
  }

  ghost function LeavesLeft(spot: Spot, j: nat): seq<PShape> {
    if spot.sub.Inner? && j < |spot.sub.kids| then ForestLeaves(spot.sub.kids[..j]) else []
  }

  ghost function LeavesRight(spot: Spot, j: nat): seq<PShape> {
    if spot.sub.Inner? && j < |spot.sub.kids| then ForestLeaves(spot.sub.kids[j + 1..]) else []
  }

  // ---------------------------------------------------------------- the state machine

  ghost predicate InRead(pc: Pc) {
    pc.Searching? || pc.Descending? || pc.Walking? || pc.Returning?
  }

  ghost predicate Init(s: State) {
    && s.root == OID_NULL && s.writer == None && s.readers == {} && !s.aborted
    && s.tree == None && s.history == [] && s.answers == []
    && forall t :: t in s.threads ==> s.threads[t] == Idle
  }

  /** The map the completed inserts make, in lock order. */
  ghost function Replay(history: seq<Entry<Value>>): seq<Entry<Value>>
  {
    if history == [] then []
    else Upsert(Replay(history[..|history| - 1]), history[|history| - 1].key, history[|history| - 1].value)
  }

  ghost function Contents(tree: Option<PShape>): seq<Entry<Value>> {
    if tree.Some? then Entries(tree.value) else []
  }

  /** The shared memory holds the tree below the root. */
  ghost predicate WellFormed(mem: Mem, root: Oid, tree: PShape, height: nat, d: nat) {
    && tree.id == root && PHeld(mem, tree, d) && Wf(tree, d, height, 0, KEY_BOUND)
    && tree.Size() >= 1 && PChain(mem, Row(tree))
  }

  /** Starting an operation: all but insert call `check()`, which aborts the program on an empty root. */
  ghost predicate StartStep(s: State, s': State, t: Tid, op: Op) {
    if !op.Insert? && s.root == OID_NULL then s' == s.(aborted := true)
    else s' == s.(threads := s.threads[t := Ready(op)])
  }

  /** The lock refuses: the operation returns 0 and has done nothing. */
  ghost predicate RefusedStep(s: State, s': State, t: Tid) {
    s' == s.(threads := s.threads[t := Idle])
  }

  /** Where a reader is once it holds the lock. */
  ghost function Enter(s: State, op: Op): Pc
  {
    if s.tree.None? then Faulted else
    var spot := Spot(s.tree.value, s.height, 0, KEY_BOUND);
    match op
    case Scan(key, len) => Descending(key, len, s.root, |s.history|, spot, [], [])
    case _ => Searching(op.key, s.root, |s.history|, spot)
  }

  /** Taking the lock, when its specification lets the thread in. */
  ghost predicate AcquireStep(s: State, s': State, t: Tid, op: Op) {
    if op.Insert? || op.Update? then
      s.writer == None && s.readers == {}
      && s' == s.(writer := Some(t), threads := s.threads[t := Writing(op.key, op.value)])
    else
      s.writer == None
      && s' == s.(readers := s.readers + {t}, threads := s.threads[t := Enter(s, op)])
  }

  /** Any store of a writer; the only assignments to the root store a node. */
  ghost predicate StoreStep(s: State, s': State) {
    s' == s.(mem := s'.mem, root := s'.root) && (s.root != OID_NULL ==> s'.root != OID_NULL)
  }

  /** A writer leaves once its stores add up to what `insert` promises of the state it found. */
  ghost predicate ReleaseStep(s: State, s': State, t: Tid, key: Key, value: Value, d: nat) {
    && s'.tree.Some? && WellFormed(s.mem, s.root, s'.tree.value, s'.height, d)
    && Contents(s'.tree) == Upsert(Contents(s.tree), key, value) && s.root != OID_NULL
    && s' == s.(writer := None, threads := s.threads[t := Idle], tree := s'.tree, height := s'.height,
                history := s.history + [Entry(key, value)])
  }

  /** A reader moves, or leaves with its answer. */
  ghost function ReaderPc(mem: Mem, pc: Pc): Pc
    requires pc.Searching? || pc.Descending? || pc.Walking?
  {
    if pc.Searching? then SearchStep(mem, pc) else if pc.Descending? then DescendStep(mem, pc) else WalkStep(mem, pc)
  }

  ghost predicate LeaveStep(s: State, s': State, t: Tid, op: Op, result: Result, at: nat) {
    s' == s.(readers := s.readers - {t}, threads := s.threads[t := Idle],
      answers := s.answers + [Answer(op, result, at)])
  }

  /** One step of thread t. */
  ghost predicate ThreadStep(s: State, s': State, t: Tid, d: nat) {
    && !s.aborted && t in s.threads
    && match s.threads[t]
       case Idle => exists op :: StartStep(s, s', t, op)
       case Ready(op) => RefusedStep(s, s', t) || AcquireStep(s, s', t, op)
       case Writing(key, value) => StoreStep(s, s') || ReleaseStep(s, s', t, key, value, d)
       case Returning(op, result, at) => LeaveStep(s, s', t, op, result, at)
       case Faulted => false
       case _ => s' == s.(threads := s.threads[t := ReaderPc(s.mem, s.threads[t])])
  }

  ghost predicate Next(s: State, s': State, d: nat) {
    exists t :: ThreadStep(s, s', t, d)
  }

  // ---------------------------------------------------------------- the invariant

  /** What the answer to op must be on the map `c`. */
  ghost predicate Right(op: Op, result: Result, c: seq<Entry<Value>>) {
    match op
    case Read(key) => result == Got(Lookup(c, key))
    case Scan(key, len) => result == Listed(Range(c, key, len))
    case _ => false
  }

  /** A reader's pointer stands on a represented subtree. */
  ghost predicate SpotOk(mem: Mem, cur: Oid, spot: Spot, d: nat) {
    cur == spot.sub.id && PRep(mem, spot.sub, d) && Wf(spot.sub, d, spot.h, spot.lo, spot.hi)
  }

  /** Where a walking reader stands: what it has copied and what is ahead make up the range from its key. */
  ghost predicate WalkOk(cur: Oid, i: nat, out: seq<Entry<Value>>, q: nat, key: Key, len: int, row: seq<PShape>) {
    && q <= |row| && cur == (if q < |row| then row[q].id else OID_NULL)
    && (q < |row| ==> row[q].Leaf? && i <= |row[q].es|)
    && (len <= 0 || |out| < len)
    && out + (if q < |row| then row[q].es[i..] + Cat(row[q + 1..]) else []) == From(Cat(row), key)
  }

  ghost predicate PcOk(mem: Mem, root: Oid, tree: Option<PShape>, n: nat, pc: Pc, d: nat) {
    match pc
    case Ready(op) => !op.Insert? ==> root != OID_NULL
    case Searching(key, cur, at, spot) =>
      at == n && tree.Some? && SpotOk(mem, cur, spot, d)
        && Lookup(Contents(tree), key) == Lookup(Entries(spot.sub), key)
    case Descending(key, len, cur, at, spot, before, after) =>
      at == n && tree.Some? && SpotOk(mem, cur, spot, d) && Cut(Leaves(tree.value), before, spot.sub, after, key)
    case Walking(key, len, cur, i, out, at, q) =>
      at == n && tree.Some? && AllLeaves(tree.value) && WalkOk(cur, i, out, q, key, len, Leaves(tree.value))
    case Returning(op, result, at) => at == n && Right(op, result, Contents(tree))
    case Faulted => false
    case _ => true
  }

  ghost predicate AllLeaves(t: PShape) {
    forall q :: 0 <= q < |Leaves(t)| ==> Leaves(t)[q].Leaf?
  }

  /** Who may be inside. */
  ghost predicate LockOk(s: State) {
    && (s.writer.Some? ==> s.readers == {} && s.writer.value in s.threads)
    && (forall t :: t in s.readers ==> t in s.threads)
    && (forall t :: t in s.threads ==> (s.threads[t].Writing? <==> s.writer == Some(t)))
    && (forall t :: t in s.threads ==> (InRead(s.threads[t]) <==> t in s.readers))
  }

  ghost predicate DataOk(s: State, d: nat) {
    && Contents(s.tree) == Replay(s.history)
    && (s.tree.Some? ==> s.root != OID_NULL)
    && (s.writer == None ==>
          if s.tree.Some? then WellFormed(s.mem, s.root, s.tree.value, s.height, d) else s.root == OID_NULL)
  }

  ghost predicate ThreadsOk(s: State, d: nat) {
    forall t :: t in s.threads ==> PcOk(s.mem, s.root, s.tree, |s.history|, s.threads[t], d)
  }

  /** Every answer is the one the map gave that was current when its section began. */
  ghost predicate AnswersOk(s: State) {
    forall i :: 0 <= i < |s.answers| ==>
      s.answers[i].at <= |s.history|
        && Right(s.answers[i].op, s.answers[i].result, Replay(s.history[..s.answers[i].at]))
  }

  ghost predicate Inv(s: State, d: nat) {
    d >= 2 && LockOk(s) && DataOk(s, d) && ThreadsOk(s, d) && AnswersOk(s)
  }

  // ---------------------------------------------------------------- readers

  lemma {:induction false} LeavesHeld(mem: Mem, t: PShape, d: nat)
    requires PRep(mem, t, d)
    ensures forall q :: 0 <= q < |Leaves(t)| ==> Leaves(t)[q].Leaf? && PRep(mem, Leaves(t)[q], d)
    decreases t, 1
  {
    if t.Inner? {
      ForestLeavesHeld(mem, t.kids, d);
    }
  }

  lemma {:induction false} ForestLeavesHeld(mem: Mem, ts: seq<PShape>, d: nat)
    requires forall i :: 0 <= i < |ts| ==> PRep(mem, ts[i], d)
    ensures forall q :: 0 <= q < |ForestLeaves(ts)| ==> ForestLeaves(ts)[q].Leaf? && PRep(mem, ForestLeaves(ts)[q], d)
    decreases ts, 0
  {
    if ts != [] {
      LeavesHeld(mem, ts[0], d);
      ForestLeavesHeld(mem, ts[1..], d);
    }
  }

  lemma NodeFacts(mem: Mem, cur: Oid, spot: Spot, d: nat)
    requires d >= 2 && SpotOk(mem, cur, spot, d)
    ensures Readable(mem, cur) && mem[cur].isLeaf == spot.sub.Leaf? && mem[cur].nk == spot.sub.Size()
    ensures cur == spot.sub.id && Wf(spot.sub, d, spot.h, spot.lo, spot.hi)
    ensures spot.sub.Leaf? ==>
      Ascending(spot.sub.es) && forall m :: 0 <= m < |spot.sub.es| ==> mem[cur].entries[m] == spot.sub.es[m]
    ensures spot.sub.Inner? ==>
      && |spot.sub.kids| == |spot.sub.ks| + 1 && spot.h > 0
      && forall m :: 0 <= m < |spot.sub.ks| ==> mem[cur].entries[m].key == spot.sub.ks[m]
  {
    var r := mem[cur];
    assert RecHolds(r, spot.sub, d);
    if spot.sub.Inner? {
      forall m | 0 <= m < |spot.sub.ks| ensures r.entries[m].key == spot.sub.ks[m] {
        assert Keys(r.entries[..r.nk])[m] == spot.sub.ks[m];
      }
    } else {
      forall m | 0 <= m < |spot.sub.es| ensures r.entries[m] == spot.sub.es[m] {
        assert r.entries[..r.nk][m] == r.entries[m];
      }
    }
  }

  /** Child j of the node, once it is known to be well formed between its bounds. */
  lemma SpotBelow(mem: Mem, cur: Oid, spot: Spot, j: nat, d: nat)
    requires d >= 2 && SpotOk(mem, cur, spot, d) && spot.sub.Inner? && j < |spot.sub.kids| && spot.h > 0
    requires Wf(spot.sub.kids[j], d, spot.h - 1, Lo(spot.sub.ks, spot.lo, j), Hi(spot.sub.ks, spot.hi, j))
    ensures Readable(mem, cur) && j < |mem[cur].children| && j <= |spot.sub.ks|
    ensures SpotOk(mem, mem[cur].children[j], Below(spot, j), d)
  {
    var r := mem[cur];
    assert RecHolds(r, spot.sub, d);
    assert r.children[..r.nk + 1][j] == Ids(spot.sub.kids)[j];
  }

  lemma SearchKeepsOk(mem: Mem, root: Oid, tree: Option<PShape>, n: nat, pc: Pc, d: nat)
    requires d >= 2 && pc.Searching? && PcOk(mem, root, tree, n, pc, d)
    ensures PcOk(mem, root, tree, n, SearchStep(mem, pc), d)
  {
    var t, r := pc.spot.sub, mem[pc.cur];
    hide SpotOk, Wf, Entries, Lookup;
    NodeFacts(mem, pc.cur, pc.spot, d);
    var i := Position(r.entries, 0, r.nk, pc.key);
    if t.Leaf? {
      LeafEntries(t);
      LookupAt(t.es, i, pc.key);
    } else {
      DescendTo(t, i, pc.key, d, pc.spot.h, pc.spot.lo, pc.spot.hi);
      SpotBelow(mem, pc.cur, pc.spot, if i < |t.ks| && pc.key == t.ks[i] then i + 1 else i, d);
    }
  }

  lemma ArriveAtLeaf(row: seq<PShape>, before: seq<PShape>, t: PShape, after: seq<PShape>, i: nat, key: Key, len: int)
    requires t.Leaf? && Ascending(t.es) && Cut(row, before, t, after, key) && i <= |t.es|
    requires (forall m :: 0 <= m < i ==> t.es[m].key < key) && (i < |t.es| ==> key <= t.es[i].key)
    ensures WalkOk(t.id, i, [], |before|, key, len, row)
  {
    CutAtLeaf(row, before, t, after, i, key);
    hide From, Cat, Cut;
    assert [] + (t.es[i..] + Cat(after)) == t.es[i..] + Cat(after);
  }

  lemma DescendKeepsOk(mem: Mem, root: Oid, tree: Option<PShape>, n: nat, pc: Pc, d: nat)
    requires d >= 2 && pc.Descending? && PcOk(mem, root, tree, n, pc, d) && AllLeaves(tree.value)
    ensures PcOk(mem, root, tree, n, DescendStep(mem, pc), d)
  {
    var t := pc.spot.sub;
    hide SpotOk, Wf, Cut, WalkOk, Leaves, AllLeaves;
    NodeFacts(mem, pc.cur, pc.spot, d);
    if t.Leaf? {
      var i := Position(mem[pc.cur].entries, 0, mem[pc.cur].nk, pc.key);
      ArriveAtLeaf(Leaves(tree.value), pc.before, t, pc.after, i, pc.key, pc.len);
    } else {
      GoesDown(mem, tree.value, pc, d);
    }
  }

  /** The descent goes on in the child it chooses, with the leaves on either side added to the cut. */
  lemma GoesDown(mem: Mem, tree: PShape, pc: Pc, d: nat)
    requires d >= 2 && pc.Descending? && pc.spot.sub.Inner? && SpotOk(mem, pc.cur, pc.spot, d)
    requires Cut(Leaves(tree), pc.before, pc.spot.sub, pc.after, pc.key)
    ensures var q := DescendStep(mem, pc);
            && q.Descending? && q.key == pc.key && q.len == pc.len && q.at == pc.at
            && SpotOk(mem, q.cur, q.spot, d) && Cut(Leaves(tree), q.before, q.spot.sub, q.after, pc.key)
  {
    var t := pc.spot.sub;
    hide SpotOk, Wf, Cut, Leaves, ForestLeaves;
    NodeFacts(mem, pc.cur, pc.spot, d);
    var i := Position(mem[pc.cur].entries, 0, mem[pc.cur].nk, pc.key);
    CutDescend(Leaves(tree), pc.before, t, pc.after, i, pc.key, d, pc.spot.h, pc.spot.lo, pc.spot.hi);
    SpotBelow(mem, pc.cur, pc.spot, i, d);
  }

  lemma LeafFacts(mem: Mem, tree: PShape, q: nat, d: nat)
    requires d >= 2 && PRep(mem, tree, d) && PChain(mem, Row(tree)) && q < |Leaves(tree)|
    ensures var row := Leaves(tree); var t := row[q];
            && t.Leaf? && t.id != OID_NULL && Readable(mem, t.id) && mem[t.id].nk == |t.es|
            && (forall m :: 0 <= m < |t.es| ==> t.es[m] == mem[t.id].entries[m])
            && mem[t.id].next == (if q + 1 < |row| then row[q + 1].id else OID_NULL)
  {
    LeavesHeld(mem, tree, d);
    var t := Leaves(tree)[q];
    assert PRep(mem, t, d) && RecHolds(mem[t.id], t, d);
    var r := mem[t.id];
    forall m | 0 <= m < |t.es| ensures t.es[m] == r.entries[m] { assert r.entries[..r.nk][m] == r.entries[m]; }
    assert PLinked(mem, Row(tree), q);
  }

  lemma CopyKeepsOk(row: seq<PShape>, cur: Oid, i: nat, out: seq<Entry<Value>>, q: nat, key: Key, len: int)
    requires WalkOk(cur, i, out, q, key, len, row) && q < |row| && i < |row[q].es|
    ensures var out' := out + [row[q].es[i]];
            if |out'| == len then out' == Range(Cat(row), key, len) else WalkOk(cur, i + 1, out', q, key, len, row)
  {
    var a, b := row[q].es[i..], Cat(row[q + 1..]);
    EmitStep(out, a + b, a, b);
    assert (out + [a[0]]) + (row[q].es[i + 1..] + b) == From(Cat(row), key);
  }

  lemma FollowKeepsOk(row: seq<PShape>, cur: Oid, i: nat, out: seq<Entry<Value>>, q: nat, key: Key, len: int)
    requires WalkOk(cur, i, out, q, key, len, row) && q < |row| && i == |row[q].es|
    requires forall m :: 0 <= m < |row| ==> row[m].Leaf?
    ensures WalkOk(if q + 1 < |row| then row[q + 1].id else OID_NULL, 0, out, q + 1, key, len, row)
  {
    NextLeaf(row, q);
    assert row[q].es[i..] + Cat(row[q + 1..]) == Cat(row[q + 1..]);
  }

  lemma WalkKeepsOk(mem: Mem, root: Oid, tree: Option<PShape>, n: nat, pc: Pc, d: nat)
    requires d >= 2 && pc.Walking? && PcOk(mem, root, tree, n, pc, d)
    requires PRep(mem, tree.value, d) && PChain(mem, Row(tree.value))
    ensures PcOk(mem, root, tree, n, WalkStep(mem, pc), d)
  {
    hide PRep, PChain, Cat, From;
    var row := Leaves(tree.value);
    if pc.q < |row| {
      LeafFacts(mem, tree.value, pc.q, d);
      if pc.i < mem[pc.cur].nk {
        CopyKeepsOk(row, pc.cur, pc.i, pc.out, pc.q, pc.key, pc.len);
      } else {
        FollowKeepsOk(row, pc.cur, pc.i, pc.out, pc.q, pc.key, pc.len);
      }
    } else {
      assert pc.out == From(Cat(row), pc.key);
    }
  }

  // ---------------------------------------------------------------- every step keeps the invariant

  lemma ReplayExtend(history: seq<Entry<Value>>, e: Entry<Value>)
    ensures Replay(history + [e]) == Upsert(Replay(history), e.key, e.value)
  {
    assert (history + [e])[..|history|] == history;
  }

  /** A reader's step takes it from a place that is right to one that is. */
  lemma ReaderStaysOk(s: State, pc: Pc, d: nat)
    requires d >= 2 && s.writer == None && DataOk(s, d) && PcOk(s.mem, s.root, s.tree, |s.history|, pc, d)
    requires pc.Searching? || pc.Descending? || pc.Walking?
    ensures PcOk(s.mem, s.root, s.tree, |s.history|, ReaderPc(s.mem, pc), d) && InRead(ReaderPc(s.mem, pc))
  {
    if pc.Searching? {
      SearchKeepsOk(s.mem, s.root, s.tree, |s.history|, pc, d);
    } else if pc.Descending? {
      LeavesHeld(s.mem, s.tree.value, d);
      DescendKeepsOk(s.mem, s.root, s.tree, |s.history|, pc, d);
    } else {
      WalkKeepsOk(s.mem, s.root, s.tree, |s.history|, pc, d);
    }
  }

  /** A reader's step changes nothing but where it stands. */
  lemma ReaderKeepsInv(s: State, s': State, t: Tid, d: nat)
    requires Inv(s, d) && t in s.threads
    requires s.threads[t].Searching? || s.threads[t].Descending? || s.threads[t].Walking?
    requires s' == s.(threads := s.threads[t := ReaderPc(s.mem, s.threads[t])])
    ensures Inv(s', d)
  {
    hide PcOk, ReaderPc, WellFormed, Replay, Contents, Right;
    var pc := s.threads[t];
    assert InRead(pc) && s.writer == None;
    ReaderStaysOk(s, pc, d);
    assert InRead(s'.threads[t]);
  }

  lemma StartKeepsInv(s: State, s': State, t: Tid, op: Op, d: nat)
    requires Inv(s, d) && t in s.threads && s.threads[t].Idle? && StartStep(s, s', t, op)
    ensures Inv(s', d)
  {
  }

  lemma RefusedKeepsInv(s: State, s': State, t: Tid, d: nat)
    requires Inv(s, d) && t in s.threads && s.threads[t].Ready? && RefusedStep(s, s', t)
    ensures Inv(s', d)
  {
  }

  /** A reader starts at the root, and what it looks for is below it. */
  lemma EnterOk(s: State, op: Op, d: nat)
    requires d >= 2 && (op.Read? || op.Scan?) && s.root != OID_NULL && s.writer == None && DataOk(s, d)
    ensures InRead(Enter(s, op)) && PcOk(s.mem, s.root, s.tree, |s.history|, Enter(s, op), d)
  {
    assert [] + Leaves(s.tree.value) + [] == Leaves(s.tree.value);
  }

  lemma AcquireKeepsInv(s: State, s': State, t: Tid, op: Op, d: nat)
    requires Inv(s, d) && t in s.threads && s.threads[t] == Ready(op) && AcquireStep(s, s', t, op)
    ensures Inv(s', d)
  {
    assert PcOk(s.mem, s.root, s.tree, |s.history|, Ready(op), d);
    if op.Read? || op.Scan? {
      EnterOk(s, op, d);
      hide PcOk, Enter, WellFormed, Replay, Contents, Right;
      assert s'.threads[t] == Enter(s, op);
    }
  }

  /** A store of a writer: nobody is reading, so nothing in the invariant depends on the memory. */
  lemma StoreKeepsInv(s: State, s': State, t: Tid, d: nat)
    requires Inv(s, d) && t in s.threads && s.threads[t].Writing? && StoreStep(s, s')
    ensures Inv(s', d)
  {
    forall u | u in s.threads
      ensures PcOk(s'.mem, s'.root, s'.tree, |s'.history|, s'.threads[u], d)
    {
      assert PcOk(s.mem, s.root, s.tree, |s.history|, s.threads[u], d) && !InRead(s.threads[u]);
    }
  }

  lemma ReleaseKeepsInv(s: State, s': State, t: Tid, key: Key, value: Value, d: nat)
    requires Inv(s, d) && t in s.threads && s.threads[t] == Writing(key, value) && ReleaseStep(s, s', t, key, value, d)
    ensures Inv(s', d)
  {
    ReplayExtend(s.history, Entry(key, value));
    forall u | u in s'.threads
      ensures PcOk(s'.mem, s'.root, s'.tree, |s'.history|, s'.threads[u], d)
    {
      assert PcOk(s.mem, s.root, s.tree, |s.history|, s.threads[u], d) && !InRead(s.threads[u]);
    }
    forall i | 0 <= i < |s.answers|
      ensures s'.history[..s.answers[i].at] == s.history[..s.answers[i].at]
    {
    }
  }

  lemma LeaveKeepsInv(s: State, s': State, t: Tid, op: Op, result: Result, at: nat, d: nat)
    requires Inv(s, d) && t in s.threads && s.threads[t] == Returning(op, result, at)
      && LeaveStep(s, s', t, op, result, at)
    ensures Inv(s', d)
  {
    assert PcOk(s.mem, s.root, s.tree, |s.history|, Returning(op, result, at), d);
    assert s.history[..at] == s.history;
  }

  lemma StepKeepsInv(s: State, s': State, t: Tid, d: nat)
    requires Inv(s, d) && ThreadStep(s, s', t, d)
    ensures Inv(s', d)
  {
    hide Inv, StartStep, RefusedStep, AcquireStep, StoreStep, ReleaseStep, LeaveStep;
    match s.threads[t]
    case Idle =>
      var op :| StartStep(s, s', t, op);
      StartKeepsInv(s, s', t, op, d);
    case Ready(op) =>
      if RefusedStep(s, s', t) { RefusedKeepsInv(s, s', t, d); } else { AcquireKeepsInv(s, s', t, op, d); }
    case Writing(key, value) =>
      if StoreStep(s, s') { StoreKeepsInv(s, s', t, d); } else { ReleaseKeepsInv(s, s', t, key, value, d); }
    case Returning(op, result, at) =>
      LeaveKeepsInv(s, s', t, op, result, at, d);
    case Faulted =>
    case _ =>
      ReaderKeepsInv(s, s', t, d);
  }

  // ---------------------------------------------------------------- all interleavings

  /** A finite run: any threads, any operations, any order of steps. */
  ghost predicate Behaviour(b: seq<State>, d: nat) {
    d >= 2 && |b| > 0 && Init(b[0]) && forall i :: 0 <= i < |b| - 1 ==> Next(b[i], b[i + 1], d)
  }

  lemma {:induction false} InvAlways(b: seq<State>, d: nat, i: nat)
    requires Behaviour(b, d) && i < |b|
    ensures Inv(b[i], d)
  {
    if i > 0 {
      InvAlways(b, d, i - 1);
      assert Next(b[i - 1], b[i - 1 + 1], d);
      var t :| ThreadStep(b[i - 1], b[i], t, d);
      StepKeepsInv(b[i - 1], b[i], t, d);
    }
  }

  /** Safety over all interleavings. */
  lemma EveryInterleavingIsSafe(b: seq<State>, d: nat, i: nat)
    requires Behaviour(b, d) && i < |b|
    // a writer is alone
    ensures b[i].writer.Some? ==> b[i].readers == {}
    // no access outside an allocated node
    ensures forall t :: t in b[i].threads ==> b[i].threads[t] != Faulted
    // with no writer inside, the memory holds the inserts applied in lock order
    ensures b[i].writer == None && b[i].history != [] ==>
      && b[i].tree.Some? && WellFormed(b[i].mem, b[i].root, b[i].tree.value, b[i].height, d)
      && Entries(b[i].tree.value) == Replay(b[i].history)
    // every answer comes from the one map that was current when its section began
    ensures forall a :: a in b[i].answers ==>
      a.at <= |b[i].history| && Right(a.op, a.result, Replay(b[i].history[..a.at]))
  {
    InvAlways(b, d, i);
    var s := b[i];
    if s.history != [] {
      UpsertNonEmpty(Replay(s.history[..|s.history| - 1]), s.history[|s.history| - 1].key,
        s.history[|s.history| - 1].value);
    }
  }

  lemma UpsertNonEmpty<V>(s: seq<Entry<V>>, k: Key, v: V)
    ensures Upsert(s, k, v) != []
  {
  }

  /** The history only grows. */
  lemma {:induction false} HistoryGrows(b: seq<State>, d: nat, i: nat, j: nat)
    requires Behaviour(b, d) && i <= j < |b|
    ensures b[i].history <= b[j].history
    decreases j - i
  {
    hide Init, ThreadStep;
    if i < j {
      HistoryGrows(b, d, i, j - 1);
      assert Next(b[j - 1], b[j - 1 + 1], d);
      var t :| ThreadStep(b[j - 1], b[j], t, d);
      StepGrows(b[j - 1], b[j], t, d);
    }
  }

  lemma StepGrows(s: State, s': State, t: Tid, d: nat)
    requires ThreadStep(s, s', t, d)
    ensures s.history <= s'.history
  {
  }

  /** Once one insert has completed, `check()` never stops the program. */
  lemma {:induction false} NoAbortAfterAnInsert(b: seq<State>, d: nat, i: nat, j: nat)
    requires Behaviour(b, d) && i <= j < |b| && b[i].history != [] && !b[i].aborted
    ensures !b[j].aborted
    decreases j - i
  {
    hide Inv, ThreadStep, Init;
    if i < j {
      NoAbortAfterAnInsert(b, d, i, j - 1);
      HistoryGrows(b, d, i, j - 1);
      InvAlways(b, d, j - 1);
      RootAfterAnInsert(b[j - 1], d);
      assert Next(b[j - 1], b[j - 1 + 1], d);
      var t :| ThreadStep(b[j - 1], b[j], t, d);
      StepWithRoot(b[j - 1], b[j], t, d);
    }
  }

  lemma StepWithRoot(s: State, s': State, t: Tid, d: nat)
    requires ThreadStep(s, s', t, d) && s.root != OID_NULL
    ensures !s'.aborted
  {
  }

  lemma RootAfterAnInsert(s: State, d: nat)
    requires Inv(s, d) && s.history != []
    ensures s.root != OID_NULL
  {
    UpsertNonEmpty(Replay(s.history[..|s.history| - 1]), s.history[|s.history| - 1].key,
      s.history[|s.history| - 1].value);
  }
}
