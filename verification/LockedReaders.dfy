/** What a reader answers, and that it does: each answer is to the operation its thread was asked, from the
    map that was current when its section began, and after finitely many steps. */
module LockedReaders {
  import opened Base
  import opened BPlusShape
  import opened BPlusRange
  import opened PoolMemory
  import opened LockedTree

  /** Where thread t stands; a thread that does not exist is idle. */
  ghost function PcOf(s: State, t: Tid): Pc {
    if t in s.threads then s.threads[t] else Idle
  }

  // ---------------------------------------------------------------- the operation a thread is serving

  /** A thread that stands at pc is serving op. */
  ghost predicate Serves(pc: Pc, op: Op) {
    match pc
    case Ready(o) => o == op
    case Writing(key, value) => op == Insert(key, value) || op == Update(key, value)
    case Searching(key, _, _, _) => op == Read(key)
    case Descending(key, len, _, _, _, _, _) => op == Scan(key, len)
    case Walking(key, len, _, _, _, _, _) => op == Scan(key, len)
    case Returning(o, _, _) => o == op
    case _ => false
  }

  /** Inside a read section that serves op and began after `at` inserts were completed. */
  ghost predicate Inside(pc: Pc, op: Op, at: nat) {
    InRead(pc) && Serves(pc, op) && pc.at == at
  }

  /** A reader's step on the memory keeps the operation and the moment its section began. */
  lemma ReaderPcServes(mem: Mem, pc: Pc)
    requires pc.Searching? || pc.Descending? || pc.Walking?
    ensures ReaderPc(mem, pc) == Faulted
      || (InRead(ReaderPc(mem, pc)) && ReaderPc(mem, pc).at == pc.at
          && forall op :: Serves(ReaderPc(mem, pc), op) <==> Serves(pc, op))
  {
  }

  lemma NeverFaulted(s: State, t: Tid, d: nat)
    requires Inv(s, d)
    ensures PcOf(s, t) != Faulted
  {
    if t in s.threads {
      assert PcOk(s.mem, s.root, s.tree, |s.history|, s.threads[t], d);
    }
  }

  /** Every step of every thread: its own step goes on with the operation it was asked, or it is done; the
      others' steps leave it where it is. */
  lemma StepServes(s: State, s': State, t: Tid, u: Tid, op: Op, d: nat)
    requires Inv(s, d) && ThreadStep(s, s', u, d) && Serves(PcOf(s, t), op)
    ensures if u == t then PcOf(s', t) == Idle || Serves(PcOf(s', t), op) else PcOf(s', t) == PcOf(s, t)
  {
    StepKeepsInv(s, s', u, d);
    NeverFaulted(s', t, d);
    StepServesUnlessFaulted(s, s', t, u, op, d);
  }

  lemma StepServesUnlessFaulted(s: State, s': State, t: Tid, u: Tid, op: Op, d: nat)
    requires ThreadStep(s, s', u, d) && Serves(PcOf(s, t), op) && PcOf(s', t) != Faulted
    ensures if u == t then PcOf(s', t) == Idle || Serves(PcOf(s', t), op) else PcOf(s', t) == PcOf(s, t)
  {
    hide SearchStep, DescendStep, WalkStep, WellFormed;
    var pc := PcOf(s, t);
    if pc.Searching? || pc.Descending? || pc.Walking? {
      ReaderPcServes(s.mem, pc);
    }
  }

  /** How a thread comes to be inside a read section: it was inside one for the same operation, or it was
      Ready with the operation and the section begins now. */
  lemma InsideStep(s: State, s': State, t: Tid, u: Tid, op: Op, at: nat, d: nat)
    requires ThreadStep(s, s', u, d) && Inside(PcOf(s', t), op, at)
    ensures Inside(PcOf(s, t), op, at) || (PcOf(s, t) == Ready(op) && (op.Read? || op.Scan?) && at == |s.history|)
  {
    hide SearchStep, DescendStep, WalkStep, WellFormed;
    var pc := PcOf(s, t);
    if pc.Searching? || pc.Descending? || pc.Walking? {
      ReaderPcServes(s.mem, pc);
    }
  }

  // ---------------------------------------------------------------- every answer was asked

  /** A read section of thread t: Ready with op after m steps, inside after m + 1 to n steps, all the time
      serving op and bound to the number of inserts completed at its beginning. */
  ghost predicate Section(b: seq<State>, t: Tid, op: Op, m: nat, n: nat) {
    && m < n < |b| && PcOf(b[m], t) == Ready(op) && (op.Read? || op.Scan?)
    && forall x :: m < x <= n ==> Inside(PcOf(b[x], t), op, |b[m].history|)
  }

  /** The step that leads to state n, and the thread that takes it. */
  lemma StepInto(b: seq<State>, d: nat, n: nat) returns (u: Tid)
    requires Behaviour(b, d) && 0 < n < |b|
    ensures ThreadStep(b[n - 1], b[n], u, d)
  {
    hide ThreadStep, Init;
    assert Next(b[n - 1], b[n - 1 + 1], d);
    u :| ThreadStep(b[n - 1], b[n], u, d);
  }

  /** A thread inside a read section got there from being Ready with the operation it serves. */
  lemma {:induction false} SectionBefore(b: seq<State>, d: nat, t: Tid, op: Op, at: nat, n: nat) returns (m: nat)
    requires Behaviour(b, d) && n < |b| && Inside(PcOf(b[n], t), op, at)
    ensures Section(b, t, op, m, n) && at == |b[m].history|
    decreases n
  {
    hide ThreadStep, Behaviour, Inside, PcOf, Section;
    FirstIdle(b, d, t, op, at);
    if n > 0 {
      var u := StepInto(b, d, n);
      InsideStep(b[n - 1], b[n], t, u, op, at, d);
      if Inside(PcOf(b[n - 1], t), op, at) {
        m := SectionBefore(b, d, t, op, at, n - 1);
        SectionLonger(b, t, op, m, n - 1);
      } else {
        m := n - 1;
        SectionStarts(b, t, op, m);
      }
    }
  }

  /** Before the first step nobody is doing anything. */
  lemma FirstIdle(b: seq<State>, d: nat, t: Tid, op: Op, at: nat)
    requires Behaviour(b, d)
    ensures |b| > 0 && PcOf(b[0], t) == Idle && !Inside(PcOf(b[0], t), op, at) && b[0].answers == []
      && b[0].history == []
  {
  }

  lemma SectionLonger(b: seq<State>, t: Tid, op: Op, m: nat, n: nat)
    requires Section(b, t, op, m, n) && n + 1 < |b| && Inside(PcOf(b[n + 1], t), op, |b[m].history|)
    ensures Section(b, t, op, m, n + 1)
  {
    hide PcOf, Inside;
  }

  lemma SectionStarts(b: seq<State>, t: Tid, op: Op, m: nat)
    requires m + 1 < |b| && PcOf(b[m], t) == Ready(op) && (op.Read? || op.Scan?)
    requires Inside(PcOf(b[m + 1], t), op, |b[m].history|)
    ensures Section(b, t, op, m, m + 1)
  {
    hide PcOf, Inside;
  }

  /** What a thread at the end of its section returns. */
  lemma SectionEnd(b: seq<State>, d: nat, t: Tid, op: Op, result: Result, m: nat, n: nat)
    requires Behaviour(b, d) && Section(b, t, op, m, n) && PcOf(b[n], t) == Returning(op, result, |b[m].history|)
    ensures Right(op, result, Replay(b[m].history))
  {
    InvAlways(b, d, n);
    HistoryGrows(b, d, m, n);
    assert PcOk(b[n].mem, b[n].root, b[n].tree, |b[n].history|, b[n].threads[t], d);
    assert b[n].history == b[m].history && Contents(b[n].tree) == Replay(b[n].history);
  }

  /** An answer is appended when a thread leaves with it. */
  lemma AnswerStep(s: State, s': State, u: Tid, d: nat)
    requires ThreadStep(s, s', u, d)
    ensures s'.answers == s.answers
      || exists op, result, at :: LeavesWith(s, s', u, op, result, at)
  {
    if s'.answers != s.answers {
      var pc := s.threads[u];
      assert LeavesWith(s, s', u, pc.op, pc.result, pc.at);
    }
  }

  ghost predicate LeavesWith(s: State, s': State, u: Tid, op: Op, result: Result, at: nat) {
    && PcOf(s, u) == Returning(op, result, at) && PcOf(s', u) == Idle
    && s'.answers == s.answers + [Answer(op, result, at)]
  }

  /** Every answer in every behaviour: some thread was Ready with exactly that operation, the answer was given
      at the end of the section that followed, and it is the right one for the inserts that were completed
      when the section began. */
  lemma {:induction false} EveryAnswerWasAsked(b: seq<State>, d: nat, i: nat, a: nat) returns (t: Tid, m: nat, n: nat)
    requires Behaviour(b, d) && i < |b| && a < |b[i].answers|
    ensures n < i && Section(b, t, b[i].answers[a].op, m, n)
    ensures LeavesWith(b[n], b[n + 1], t, b[i].answers[a].op, b[i].answers[a].result, |b[m].history|)
    ensures Right(b[i].answers[a].op, b[i].answers[a].result, Replay(b[m].history))
    decreases i
  {
    hide ThreadStep, Behaviour, Section, Right, Replay;
    FirstIdle(b, d, 0, Read(0), 0);
    if i > 0 {
      var u := StepInto(b, d, i);
      AnswerStep(b[i - 1], b[i], u, d);
      if a < |b[i - 1].answers| {
        t, m, n := EveryAnswerWasAsked(b, d, i - 1, a);
      } else {
        var op, result, at :| LeavesWith(b[i - 1], b[i], u, op, result, at);
        t, n := u, i - 1;
        m := SectionBefore(b, d, t, op, at, n);
        SectionEnd(b, d, t, op, result, m, n);
      }
    }
  }

  // ---------------------------------------------------------------- every insert was asked

  /** A writer got the lock with the key and the value it was asked to write. */
  lemma {:induction false} WriterWasReady(b: seq<State>, d: nat, t: Tid, key: Key, value: Value, n: nat)
    returns (m: nat, op: Op)
    requires Behaviour(b, d) && n < |b| && PcOf(b[n], t) == Writing(key, value)
    ensures m < n && PcOf(b[m], t) == Ready(op) && (op == Insert(key, value) || op == Update(key, value))
    decreases n
  {
    hide ThreadStep, Behaviour, PcOf;
    FirstIdle(b, d, t, Read(0), 0);
    if n > 0 {
      var u := StepInto(b, d, n);
      WriterStep(b[n - 1], b[n], t, u, key, value, d);
      if PcOf(b[n - 1], t) == Writing(key, value) {
        m, op := WriterWasReady(b, d, t, key, value, n - 1);
      } else {
        m := n - 1;
        op :| PcOf(b[m], t) == Ready(op) && (op == Insert(key, value) || op == Update(key, value));
      }
    }
  }

  lemma WriterStep(s: State, s': State, t: Tid, u: Tid, key: Key, value: Value, d: nat)
    requires ThreadStep(s, s', u, d) && PcOf(s', t) == Writing(key, value)
    ensures PcOf(s, t) == Writing(key, value)
      || PcOf(s, t) == Ready(Insert(key, value)) || PcOf(s, t) == Ready(Update(key, value))
  {
  }

  lemma WriteStep(s: State, s': State, u: Tid, d: nat)
    requires ThreadStep(s, s', u, d)
    ensures s'.history == s.history
      || exists key, value :: PcOf(s, u) == Writing(key, value) && s'.history == s.history + [Entry(key, value)]
  {
  }

  /** Every completed insert in every behaviour is one some thread was Ready with. */
  lemma {:induction false} EveryWriteWasAsked(b: seq<State>, d: nat, i: nat, h: nat) returns (t: Tid, m: nat, op: Op)
    requires Behaviour(b, d) && i < |b| && h < |b[i].history|
    ensures m < i && PcOf(b[m], t) == Ready(op) && (op.Insert? || op.Update?)
    ensures b[i].history[h] == Entry(op.key, op.value)
    decreases i
  {
    hide ThreadStep, Behaviour, PcOf;
    FirstIdle(b, d, 0, Read(0), 0);
    if i > 0 {
      var u := StepInto(b, d, i);
      WriteStep(b[i - 1], b[i], u, d);
      if h < |b[i - 1].history| {
        t, m, op := EveryWriteWasAsked(b, d, i - 1, h);
      } else {
        var key, value :| PcOf(b[i - 1], u) == Writing(key, value)
          && b[i].history == b[i - 1].history + [Entry(key, value)];
        t := u;
        m, op := WriterWasReady(b, d, t, key, value, i - 1);
      }
    }
  }

  // ---------------------------------------------------------------- readers finish

  /** How many entries and links a walk has left at most. */
  ghost function Left(row: seq<PShape>, q: nat, i: nat): nat {
    if q >= |row| then 0
    else |row| - q + (if row[q].Leaf? && i <= |row[q].es| then |row[q].es| - i else 0) + |Cat(row[q + 1..])|
  }

  /** How many own steps a reader has left at most until it returns: levels, then entries and leaves. */
  ghost function Rank(pc: Pc, tree: Option<PShape>): nat {
    var row := if tree.Some? then Leaves(tree.value) else [];
    match pc
    case Searching(_, _, _, spot) => spot.h + 1
    case Descending(_, _, _, _, spot, _, _) => spot.h + 2 + |row| + |Cat(row)|
    case Walking(_, _, _, i, _, _, q) => 1 + Left(row, q, i)
    case _ => 0
  }

  /** The walk from any leaf is no longer than the whole row. */
  lemma LeftAtMost(row: seq<PShape>, q: nat, i: nat)
    ensures Left(row, q, i) <= |row| + |Cat(row)|
  {
    if q < |row| {
      assert row == row[..q] + row[q..] && row[q..][1..] == row[q + 1..];
      CatConcat(row[..q], row[q..]);
    }
  }

  lemma SearchAdvances(mem: Mem, root: Oid, tree: Option<PShape>, n: nat, pc: Pc, d: nat)
    requires d >= 2 && pc.Searching? && PcOk(mem, root, tree, n, pc, d)
    ensures var q := SearchStep(mem, pc);
            q.Returning? || (q.Searching? && q.spot.h < pc.spot.h)
  {
    NodeFacts(mem, pc.cur, pc.spot, d);
  }

  lemma DescendAdvances(mem: Mem, root: Oid, tree: Option<PShape>, n: nat, pc: Pc, d: nat)
    requires d >= 2 && pc.Descending? && PcOk(mem, root, tree, n, pc, d)
    ensures var q := DescendStep(mem, pc);
            q.Walking? || (q.Descending? && q.spot.h < pc.spot.h)
  {
    NodeFacts(mem, pc.cur, pc.spot, d);
  }

  lemma WalkAdvances(mem: Mem, root: Oid, tree: Option<PShape>, n: nat, pc: Pc, d: nat)
    requires d >= 2 && pc.Walking? && PcOk(mem, root, tree, n, pc, d)
    requires PRep(mem, tree.value, d) && PChain(mem, Row(tree.value))
    ensures var q, row := WalkStep(mem, pc), Leaves(tree.value);
            q.Returning? || (q.Walking? && Left(row, q.q, q.i) < Left(row, pc.q, pc.i))
  {
    var row := Leaves(tree.value);
    if pc.q < |row| {
      LeafFacts(mem, tree.value, pc.q, d);
      LeavesHeld(mem, tree.value, d);
      NextLeaf(row, pc.q);
    }
  }

  /** Each own step of a reader brings it nearer to returning. */
  lemma ReaderAdvances(s: State, t: Tid, d: nat)
    requires Inv(s, d) && t in s.threads
    requires var pc := s.threads[t]; pc.Searching? || pc.Descending? || pc.Walking?
    ensures InRead(ReaderPc(s.mem, s.threads[t]))
      && Rank(ReaderPc(s.mem, s.threads[t]), s.tree) < Rank(s.threads[t], s.tree)
  {
    var pc := s.threads[t];
    assert InRead(pc) && s.writer == None;
    assert PcOk(s.mem, s.root, s.tree, |s.history|, pc, d);
    if pc.Searching? {
      SearchAdvances(s.mem, s.root, s.tree, |s.history|, pc, d);
    } else if pc.Descending? {
      DescendAdvances(s.mem, s.root, s.tree, |s.history|, pc, d);
      var q := ReaderPc(s.mem, pc);
      if q.Walking? {
        LeftAtMost(Leaves(s.tree.value), q.q, q.i);
      }
    } else {
      WalkAdvances(s.mem, s.root, s.tree, |s.history|, pc, d);
    }
  }

  /** While t is inside a read section, no step of another thread touches t, the tree or the memory. */
  lemma OthersKeepReader(s: State, s': State, t: Tid, u: Tid, d: nat)
    requires Inv(s, d) && InRead(PcOf(s, t)) && u != t && ThreadStep(s, s', u, d)
    ensures PcOf(s', t) == PcOf(s, t)
    ensures s'.mem == s.mem && s'.root == s.root && s'.tree == s.tree && s'.history == s.history
  {
    hide PcOk, DataOk, AnswersOk;
    assert s.writer == None && !s.threads[u].Writing?;
    match s.threads[u]
    case Idle =>
      var op :| StartStep(s, s', u, op);
    case Ready(op) =>
    case Faulted =>
    case _ =>
  }

  /** How many of the steps i to j thread t takes. */
  ghost function OwnSteps(b: seq<State>, t: Tid, d: nat, i: nat, j: nat): nat
    requires i <= j < |b|
    decreases j - i
  {
    if i == j then 0 else OwnSteps(b, t, d, i, j - 1) + if ThreadStep(b[j - 1], b[j], t, d) then 1 else 0
  }

  /** One step of a behaviour, seen from a reader that stays inside: its own steps lower its rank, the others'
      steps leave it. */
  lemma RankStep(s: State, s': State, t: Tid, u: Tid, d: nat)
    requires Inv(s, d) && ThreadStep(s, s', u, d) && InRead(PcOf(s, t)) && InRead(PcOf(s', t))
    ensures Rank(PcOf(s', t), s'.tree) + (if ThreadStep(s, s', t, d) then 1 else 0) <= Rank(PcOf(s, t), s.tree)
  {
    if ThreadStep(s, s', t, d) {
      OwnStep(s, s', t, d);
    } else {
      OthersKeepReader(s, s', t, u, d);
    }
  }

  lemma OwnStep(s: State, s': State, t: Tid, d: nat)
    requires Inv(s, d) && ThreadStep(s, s', t, d) && InRead(PcOf(s, t)) && InRead(PcOf(s', t))
    ensures Rank(PcOf(s', t), s'.tree) < Rank(PcOf(s, t), s.tree)
  {
    hide Inv, Rank;
    if !s.threads[t].Returning? {
      ReaderAdvances(s, t, d);
    }
  }

  /** In every behaviour a reader takes at most as many own steps as its rank says, however the others interleave. */
  lemma {:induction false} BoundedSteps(b: seq<State>, d: nat, t: Tid, i: nat, j: nat)
    requires Behaviour(b, d) && i <= j < |b| && forall x :: i <= x <= j ==> InRead(PcOf(b[x], t))
    ensures Rank(PcOf(b[j], t), b[j].tree) + OwnSteps(b, t, d, i, j) <= Rank(PcOf(b[i], t), b[i].tree)
    decreases j - i
  {
    hide Behaviour, Inv, ThreadStep, Rank, PcOf;
    if i < j {
      BoundedSteps(b, d, t, i, j - 1);
      InvAlways(b, d, j - 1);
      var u := StepInto(b, d, j);
      RankStep(b[j - 1], b[j], t, u, d);
    }
  }

  /** A reader that is inside can always go on by itself, and leaves with its answer after at most Rank + 1
      steps of its own. */
  lemma {:induction false} ReaderFinishes(s: State, t: Tid, d: nat) returns (run: seq<State>, op: Op, result: Result)
    requires Inv(s, d) && !s.aborted && InRead(PcOf(s, t))
    ensures 1 < |run| <= Rank(PcOf(s, t), s.tree) + 2 && run[0] == s
    ensures forall i :: 0 <= i < |run| - 1 ==> ThreadStep(run[i], run[i + 1], t, d)
    ensures var last := run[|run| - 1];
            && PcOf(last, t) == Idle && Serves(PcOf(s, t), op)
            && last.answers == s.answers + [Answer(op, result, |s.history|)]
            && Right(op, result, Replay(s.history))
    decreases Rank(PcOf(s, t), s.tree)
  {
    hide Inv, ThreadStep, Rank, Right, Serves, PcOf;
    if PcOf(s, t).Returning? {
      var s' := TakesLeave(s, t, d);
      op, result := PcOf(s, t).op, PcOf(s, t).result;
      run := [s, s'];
    } else {
      var s' := MovesOn(s, t, d);
      var rest;
      rest, op, result := ReaderFinishes(s', t, d);
      run := [s] + rest;
    }
  }

  /** The next own step of a reader that has no answer yet. */
  lemma MovesOn(s: State, t: Tid, d: nat) returns (s': State)
    requires Inv(s, d) && !s.aborted && InRead(PcOf(s, t)) && !PcOf(s, t).Returning?
    ensures ThreadStep(s, s', t, d) && Inv(s', d) && !s'.aborted && InRead(PcOf(s', t))
    ensures Rank(PcOf(s', t), s'.tree) < Rank(PcOf(s, t), s.tree)
    ensures s'.history == s.history && s'.answers == s.answers
    ensures forall op :: Serves(PcOf(s', t), op) <==> Serves(PcOf(s, t), op)
  {
    hide Inv, Rank;
    var pc := s.threads[t];
    ReaderAdvances(s, t, d);
    ReaderPcServes(s.mem, pc);
    s' := s.(threads := s.threads[t := ReaderPc(s.mem, pc)]);
    StepKeepsInv(s, s', t, d);
  }

  /** The last own step of a reader that has its answer. */
  lemma TakesLeave(s: State, t: Tid, d: nat) returns (s': State)
    requires Inv(s, d) && !s.aborted && PcOf(s, t).Returning?
    ensures ThreadStep(s, s', t, d) && PcOf(s', t) == Idle && Serves(PcOf(s, t), PcOf(s, t).op)
    ensures s'.answers == s.answers + [Answer(PcOf(s, t).op, PcOf(s, t).result, |s.history|)]
    ensures Right(PcOf(s, t).op, PcOf(s, t).result, Replay(s.history))
  {
    var pc := s.threads[t];
    assert PcOk(s.mem, s.root, s.tree, |s.history|, pc, d);
    s' := s.(readers := s.readers - {t}, threads := s.threads[t := Idle],
             answers := s.answers + [Answer(pc.op, pc.result, pc.at)]);
  }

  // ---------------------------------------------------------------- an operation can run from start to end

  /** An idle thread can start any operation and, when the lock is free for it, get inside: a reader into its
      section, a writer with the key and the value it was asked to write. */
  lemma Begins(s: State, t: Tid, op: Op, d: nat) returns (s1: State, s2: State)
    requires Inv(s, d) && !s.aborted && t in s.threads && s.threads[t] == Idle
    requires op.Insert? || s.root != OID_NULL
    requires s.writer == None && (op.Insert? || op.Update? ==> s.readers == {})
    ensures ThreadStep(s, s1, t, d) && PcOf(s1, t) == Ready(op) && ThreadStep(s1, s2, t, d)
    ensures Inv(s2, d) && !s2.aborted && s2.history == s.history && s2.answers == s.answers
    ensures if op.Insert? || op.Update? then PcOf(s2, t) == Writing(op.key, op.value)
            else InRead(PcOf(s2, t)) && Serves(PcOf(s2, t), op)
  {
    hide Inv;
    s1 := s.(threads := s.threads[t := Ready(op)]);
    assert StartStep(s, s1, t, op);
    StepKeepsInv(s, s1, t, d);
    s2 := if op.Insert? || op.Update? then s1.(writer := Some(t), threads := s1.threads[t := Writing(op.key, op.value)])
          else s1.(readers := s1.readers + {t}, threads := s1.threads[t := Enter(s1, op)]);
    assert AcquireStep(s1, s2, t, op);
    StepKeepsInv(s1, s2, t, d);
    NeverFaulted(s2, t, d);
  }

  /** So a read or a scan that is asked while no writer is inside can be run to its end by its own thread, and
      answers from the map of the inserts completed at that time. */
  lemma ReadCompletes(s: State, t: Tid, op: Op, d: nat) returns (run: seq<State>, result: Result)
    requires Inv(s, d) && !s.aborted && t in s.threads && s.threads[t] == Idle
    requires (op.Read? || op.Scan?) && s.root != OID_NULL && s.writer == None
    ensures |run| > 0 && run[0] == s
    ensures forall i :: 0 <= i < |run| - 1 ==> ThreadStep(run[i], run[i + 1], t, d)
    ensures var last := run[|run| - 1];
            PcOf(last, t) == Idle && last.answers == s.answers + [Answer(op, result, |s.history|)]
    ensures Right(op, result, Replay(s.history))
  {
    var s1, s2 := Begins(s, t, op, d);
    var rest, served;
    rest, served, result := ReaderFinishes(s2, t, d);
    hide Inv, ThreadStep, Rank, Right, Replay, PcOf;
    assert served == op;
    run := [s, s1] + rest;
  }

  // ---------------------------------------------------------------- the lock lets in whom it must

  /** A thread that is Ready can take the lock exactly when a reader-writer lock lets it in: a writer when nobody
      is inside, a reader when no writer is. */
  lemma LockGrants(s: State, t: Tid, op: Op)
    requires t in s.threads && s.threads[t] == Ready(op)
    ensures (exists s' :: AcquireStep(s, s', t, op)) <==>
      s.writer == None && (op.Insert? || op.Update? ==> s.readers == {})
  {
    if s.writer == None && (op.Insert? || op.Update? ==> s.readers == {}) {
      var s' :=
        if op.Insert? || op.Update? then s.(writer := Some(t), threads := s.threads[t := Writing(op.key, op.value)])
        else s.(readers := s.readers + {t}, threads := s.threads[t := Enter(s, op)]);
      assert AcquireStep(s, s', t, op);
    }
  }

  /** An operation that is started is Ready as it was asked; only `check()` on an empty store stops the program,
      and never for an insert. */
  lemma StartsAsAsked(s: State, s': State, t: Tid, op: Op)
    requires StartStep(s, s', t, op) && !s.aborted && t in s.threads
    ensures s'.aborted <==> !op.Insert? && s.root == OID_NULL
    ensures !s'.aborted ==> PcOf(s', t) == Ready(op)
  {
  }
}
