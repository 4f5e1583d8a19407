/** Runs of operations on holders (records or entry objects): who holds each key, and what each holder has. */
module Runs {
  import opened Base
  import opened SortedMap
  import opened Bindings
  import opened History

  /** One operation: a write gives the key's holder the value, a new holder if the key had none; nothing
      else changes. */
  ghost predicate Step<V>(op: Op, s: seq<Entry<V>>, mem: map<V, Value>, s': seq<Entry<V>>, mem': map<V, Value>) {
    if op.Insert? || op.Update? then
      && Lookup(s', op.key).Some?
      && var rec := Lookup(s', op.key).value;
         KeepsOrAdds(s, s', op.key, rec) && (Lookup(s, op.key).None? ==> rec !in mem) && mem' == mem[rec := op.value]
    else
      s' == s && mem' == mem
  }

  /** A run from the empty store: bindings and memory before, between and after the operations. */
  ghost predicate Run<V>(ops: seq<Op>, states: seq<seq<Entry<V>>>, mems: seq<map<V, Value>>) {
    && |states| == |ops| + 1 && |mems| == |ops| + 1 && states[0] == [] && mems[0] == map[]
    && forall i :: 0 <= i < |ops| ==> Step(ops[i], states[i], mems[i], states[i + 1], mems[i + 1])
  }

  /** The value last written to a key. */
  ghost function LastWritten(ops: seq<Op>, k: Key): Option<Value> {
    if ops == [] then None
    else
      var last := ops[|ops| - 1];
      if last.Writes(k) then Some(last.value) else LastWritten(ops[..|ops| - 1], k)
  }

  /** One slot of s holds r, and no other. */
  ghost predicate InOneSlot<V>(s: seq<Entry<V>>, k: Key, r: V) {
    exists m :: 0 <= m < |s| && s[m] == Entry(k, r) && forall n :: 0 <= n < |s| && n != m ==> s[n].value != r
  }

  lemma OneMoreStep<V>(ops: seq<Op>, states: seq<seq<Entry<V>>>, mems: seq<map<V, Value>>, op: Op,
                       s: seq<Entry<V>>, mem: map<V, Value>)
    requires Run(ops, states, mems) && Step(op, states[|ops|], mems[|ops|], s, mem)
    ensures Run(ops + [op], states + [s], mems + [mem])
  {
  }

  /** Every state of a run is sorted, its holders are in one slot each, and the memory is over exactly them. */
  lemma {:induction false} RunSorted<V>(ops: seq<Op>, states: seq<seq<Entry<V>>>, mems: seq<map<V, Value>>, j: nat)
    requires Run(ops, states, mems) && j <= |ops|
    ensures Ascending(states[j]) && Distinct(states[j]) && mems[j].Keys == Recs(states[j])
    decreases j
  {
    if j > 0 {
      RunSorted(ops, states, mems, j - 1);
      StepSorted(ops[j - 1], states[j - 1], mems[j - 1], states[j - 1 + 1], mems[j - 1 + 1]);
    }
  }

  lemma StepSorted<V>(op: Op, s: seq<Entry<V>>, mem: map<V, Value>, s': seq<Entry<V>>, mem': map<V, Value>)
    requires Step(op, s, mem, s', mem') && Ascending(s) && Distinct(s) && mem.Keys == Recs(s)
    ensures Ascending(s') && Distinct(s') && mem'.Keys == Recs(s')
  {
    hide Distinct, Recs, Ascending, Upsert;
    if op.Insert? || op.Update? {
      var rec := Lookup(s', op.key).value;
      UpsertAscending(s, op.key, rec);
      if Lookup(s, op.key).None? {
        UpsertDistinct(s, op.key, rec);
      } else {
        WriteSeen(s, mem, op.key, rec, op.value);
      }
    }
  }

  /** Whatever happens later, a key stays with the holder it was first given. */
  lemma {:induction false} HolderStable<V>(ops: seq<Op>, states: seq<seq<Entry<V>>>, mems: seq<map<V, Value>>,
                                           i: nat, j: nat, k: Key)
    requires Run(ops, states, mems) && i <= j <= |ops| && Lookup(states[i], k).Some?
    ensures Lookup(states[j], k) == Lookup(states[i], k)
    decreases j
  {
    if i < j {
      HolderStable(ops, states, mems, i, j - 1, k);
      RunSorted(ops, states, mems, j - 1);
      var op, s := ops[j - 1], states[j - 1 + 1];
      assert Step(op, states[j - 1], mems[j - 1], s, mems[j - 1 + 1]);
      if op.Insert? || op.Update? {
        OtherKeysKept(states[j - 1], op.key, Lookup(s, op.key).value, k);
      }
    }
  }

  /** A key has a holder exactly when it was written, and the holder has the value written last. */
  lemma {:induction false} HolderHasLastWritten<V>(ops: seq<Op>, states: seq<seq<Entry<V>>>, mems: seq<map<V, Value>>,
                                                   j: nat, k: Key)
    requires Run(ops, states, mems) && j <= |ops|
    ensures Lookup(states[j], k).Some? ==> Lookup(states[j], k).value in mems[j]
    ensures LastWritten(ops[..j], k) == match Lookup(states[j], k) case None => None case Some(r) => Some(mems[j][r])
    decreases j
  {
    if j > 0 {
      HolderHasLastWritten(ops, states, mems, j - 1, k);
      RunSorted(ops, states, mems, j - 1);
      assert ops[..j][..j - 1] == ops[..j - 1];
      assert Step(ops[j - 1], states[j - 1], mems[j - 1], states[j - 1 + 1], mems[j - 1 + 1]);
      StepValue(ops[j - 1], states[j - 1], mems[j - 1], states[j], mems[j], k);
    }
  }

  lemma StepValue<V>(op: Op, s: seq<Entry<V>>, mem: map<V, Value>, s': seq<Entry<V>>, mem': map<V, Value>, k: Key)
    requires Step(op, s, mem, s', mem') && Ascending(s) && Distinct(s) && mem.Keys == Recs(s)
    ensures Lookup(s', k).Some? ==> Lookup(s', k).value in mem'
    ensures op.Writes(k) ==> Lookup(s', k).Some? && mem'[Lookup(s', k).value] == op.value
    ensures !op.Writes(k) ==> Lookup(s', k) == Lookup(s, k)
    ensures !op.Writes(k) && Lookup(s, k).Some? ==>
      Lookup(s, k).value in mem && mem'[Lookup(s, k).value] == mem[Lookup(s, k).value]
  {
    if Lookup(s, k).Some? {
      LookupInRecs(s, k);
    }
    if op.Insert? || op.Update? {
      var rec := Lookup(s', op.key).value;
      OtherKeysKept(s, op.key, rec, k);
      if op.key != k && Lookup(s, k).Some? {
        OtherHolder(s, k, op.key, rec, mem);
      }
    }
  }

  /** The holder of one key is not the holder, old or new, of another. */
  lemma OtherHolder<V>(s: seq<Entry<V>>, k: Key, other: Key, rec: V, mem: map<V, Value>)
    requires Ascending(s) && Distinct(s) && mem.Keys == Recs(s) && k != other && Lookup(s, k).Some?
    requires if Lookup(s, other).Some? then rec == Lookup(s, other).value else rec !in mem
    ensures Lookup(s, k).value != rec
  {
    LookupInRecs(s, k);
    var i := LookupIndex(s, k);
    if Lookup(s, other).Some? {
      var j := LookupIndex(s, other);
      assert i != j;
    }
  }

  /** Identity over a whole run: a key bound at some point is bound to the same holder ever after, that
      holder is in exactly one slot, and it has the value last written to the key. */
  lemma HolderIdentity<V>(ops: seq<Op>, states: seq<seq<Entry<V>>>, mems: seq<map<V, Value>>,
                          i: nat, j: nat, k: Key, r: V)
    requires Run(ops, states, mems) && i <= j <= |ops| && Lookup(states[i], k) == Some(r)
    ensures Lookup(states[j], k) == Some(r) && InOneSlot(states[j], k, r)
    ensures r in mems[j] && LastWritten(ops[..j], k) == Some(mems[j][r])
  {
    HolderStable(ops, states, mems, i, j, k);
    HolderHasLastWritten(ops, states, mems, j, k);
    RunSorted(ops, states, mems, j);
    var m := LookupIndex(states[j], k);
    assert states[j][m] == Entry(k, r);
  }

  /** Only a write of its own key changes what a holder has. */
  lemma {:induction false} OnlyOwnWrites<V>(ops: seq<Op>, states: seq<seq<Entry<V>>>, mems: seq<map<V, Value>>,
                                            i: nat, j: nat, k: Key, r: V)
    requires Run(ops, states, mems) && i <= j <= |ops| && Lookup(states[i], k) == Some(r)
    requires forall m :: i <= m < j ==> !ops[m].Writes(k)
    ensures r in mems[i] && r in mems[j] && mems[j][r] == mems[i][r]
    decreases j
  {
    HolderHasLastWritten(ops, states, mems, i, k);
    if i < j {
      OnlyOwnWrites(ops, states, mems, i, j - 1, k, r);
      HolderStable(ops, states, mems, i, j - 1, k);
      RunSorted(ops, states, mems, j - 1);
      assert Step(ops[j - 1], states[j - 1], mems[j - 1], states[j - 1 + 1], mems[j - 1 + 1]);
      hide Step, Run, Distinct, Recs, Ascending;
      StepValue(ops[j - 1], states[j - 1], mems[j - 1], states[j], mems[j], k);
    }
  }

  /** The holder a key had after i operations, seen after j. */
  ghost predicate Kept<V>(ops: seq<Op>, states: seq<seq<Entry<V>>>, mems: seq<map<V, Value>>, i: nat, j: nat, k: Key)
    requires Run(ops, states, mems) && i <= j <= |ops| && Lookup(states[i], k).Some?
  {
    var r := Lookup(states[i], k).value;
    && Lookup(states[j], k) == Some(r) && InOneSlot(states[j], k, r)
    && r in mems[i] && r in mems[j] && LastWritten(ops[..j], k) == Some(mems[j][r])
    && ((forall m :: i <= m < j ==> !ops[m].Writes(k)) ==> mems[j][r] == mems[i][r])
  }

  lemma KeptAlways<V>(ops: seq<Op>, states: seq<seq<Entry<V>>>, mems: seq<map<V, Value>>, i: nat, j: nat, k: Key)
    requires Run(ops, states, mems) && i <= j <= |ops| && Lookup(states[i], k).Some?
    ensures Kept(ops, states, mems, i, j, k)
  {
    var r := Lookup(states[i], k).value;
    HolderIdentity(ops, states, mems, i, j, k, r);
    HolderIdentity(ops, states, mems, i, i, k, r);
    if forall m :: i <= m < j ==> !ops[m].Writes(k) {
      OnlyOwnWrites(ops, states, mems, i, j, k, r);
    }
  }

  // ---------------------------------------------------------------- playing a history

  /** After i operations: the replies so far, the run so far, and where it stands. */
  ghost predicate Played<V>(ops: seq<Op>, i: nat, replies: seq<Reply>, states: seq<seq<Entry<V>>>, mems: seq<map<V,
                            Value>>,
                            scans: bool, c: seq<Entry<Value>>, s: seq<Entry<V>>, mem: map<V, Value>)
  {
    && i <= |ops| && Answered(replies, c, ops, i, scans)
    && Run(ops[..i], states, mems) && states[i] == s && mems[i] == mem
  }

  lemma NonePlayed<V>(ops: seq<Op>, scans: bool, states: seq<seq<Entry<V>>>, mems: seq<map<V, Value>>)
    requires states == [[]] && mems == [map[]]
    ensures Played(ops, 0, [], states, mems, scans, [], [], map[])
  {
    NoneAnswered(ops, scans);
  }

  lemma OneMorePlayed<V>(ops: seq<Op>, i: nat, replies: seq<Reply>, states: seq<seq<Entry<V>>>, mems: seq<map<V,
                         Value>>,
                         scans: bool, c: seq<Entry<Value>>, s: seq<Entry<V>>, mem: map<V, Value>,
                         s': seq<Entry<V>>, mem': map<V, Value>)
    requires i < |ops| && Played(ops, i, replies, states, mems, scans, c, s, mem)
    requires ReplyTo(c, ops[i], scans) != Stopped ==> Step(ops[i], s, mem, s', mem')
    ensures Run(ops[..i], states, mems) && states[i] == s && mems[i] == mem
    ensures var r := ReplyTo(c, ops[i], scans);
            if r == Stopped then replies + [r] == Answers([], ops, scans) && ReplyTo([], ops[i], scans) == Stopped
            else
              Played(ops, i + 1, replies + [r], states + [s'], mems + [mem'], scans, Next(c, ops[i]), s', mem')
  {
    OneMore(replies, c, ops, i, scans);
    if ReplyTo(c, ops[i], scans) != Stopped {
      OneMoreStep(ops[..i], states, mems, ops[i], s', mem');
      assert ops[..i + 1] == ops[..i] + [ops[i]];
    }
  }

  lemma AllPlayed<V>(ops: seq<Op>, replies: seq<Reply>, states: seq<seq<Entry<V>>>, mems: seq<map<V, Value>>,
                     scans: bool, c: seq<Entry<Value>>, s: seq<Entry<V>>, mem: map<V, Value>)
    requires Played(ops, |ops|, replies, states, mems, scans, c, s, mem)
    ensures replies == Answers([], ops, scans) && Run(ops[..|ops|], states, mems)
    ensures states[|ops|] == s && mems[|ops|] == mem
  {
    AllAnswered(replies, c, ops, scans);
  }
}
