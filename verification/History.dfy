/** Histories of operations and the replies they get, from sorted contents and from a plain map. */
module History {
  import opened Base
  import opened SortedMap

  datatype Op =
    | Insert(key: Key, value: Value)
    | Update(key: Key, value: Value)
    | Read(key: Key)
    | Scan(key: Key, len: int)
  {
    predicate Writes(k: Key) {
      (Insert? || Update?) && key == k
    }
  }

  /** Stopped: `check()` stops the program. Thrown: the store does not implement the operation. */
  datatype Reply = Stopped | Thrown | Written | Found(value: Option<Value>) | Listed(entries: seq<Entry<Value>>)

  /** The reply to one operation on sorted contents s; `scans` says whether the store implements scan. */
  ghost function ReplyTo(s: seq<Entry<Value>>, op: Op, scans: bool): Reply {
    match op
    case Insert(_, _) => Written
    case Update(_, _) => if s == [] then Stopped else Written
    case Read(k) => if s == [] then Stopped else Found(Lookup(s, k))
    case Scan(k, len) => if !scans then Thrown else if s == [] then Stopped else Listed(Range(s, k, len))
  }

  /** The contents after an operation that was not fatal. */
  ghost function Next(s: seq<Entry<Value>>, op: Op): seq<Entry<Value>> {
    if op.Insert? || op.Update? then Upsert(s, op.key, op.value) else s
  }

  /** What a history answers from sorted contents s; a fatal operation ends it. */
  ghost function Answers(s: seq<Entry<Value>>, ops: seq<Op>, scans: bool): seq<Reply>
    decreases |ops|
  {
    if ops == [] then []
    else if ReplyTo(s, ops[0], scans) == Stopped then [Stopped]
    else [ReplyTo(s, ops[0], scans)] + Answers(Next(s, ops[0]), ops[1..], scans)
  }

  // ---------------------------------------------------------------- the same from a plain map

  lemma {:induction false} SmallestExists(s: set<Key>) returns (k: Key)
    requires s != {}
    ensures k in s && forall o :: o in s ==> k <= o
  {
    var x :| x in s;
    if s == {x} {
      k := x;
    } else {
      var y := SmallestExists(s - {x});
      k := if x <= y then x else y;
      assert forall o :: o in s ==> o == x || o in s - {x};
    }
  }

  ghost function Smallest(s: set<Key>): (k: Key)
    requires s != {}
    ensures k in s && forall o :: o in s ==> k <= o
  {
    assert exists k :: k in s && forall o :: o in s ==> k <= o by {
      var k := SmallestExists(s);
    }
    var k :| k in s && forall o :: o in s ==> k <= o;
    k
  }

  /** The entries of a map in key order. */
  ghost function Sorted(m: map<Key, Value>): seq<Entry<Value>>
    decreases |m.Keys|
  {
    if m == map[] then [] else
      var k := Smallest(m.Keys);
      assert (m - {k}).Keys == m.Keys - {k};
      [Entry(k, m[k])] + Sorted(m - {k})
  }

  /** The replies from a plain map. */
  ghost function MapAnswers(m: map<Key, Value>, ops: seq<Op>, scans: bool): seq<Reply>
    decreases |ops|
  {
    if ops == [] then [] else
      var rest := ops[1..];
      match ops[0]
      case Insert(k, v) => [Written] + MapAnswers(m[k := v], rest, scans)
      case Update(k, v) => if m == map[] then [Stopped] else [Written] + MapAnswers(m[k := v], rest, scans)
      case Read(k) =>
        if m == map[] then [Stopped]
        else [Found(if k in m then Some(m[k]) else None)] + MapAnswers(m, rest, scans)
      case Scan(k, len) =>
        if !scans then [Thrown] + MapAnswers(m, rest, scans)
        else if m == map[] then [Stopped]
        else [Listed(Range(Sorted(m), k, len))] + MapAnswers(m, rest, scans)
  }

  lemma {:induction false} ToMapKeys<V>(s: seq<Entry<V>>, k: Key)
    ensures k in ToMap(s) <==> HasKey(s, k)
  {
    if s != [] {
      ToMapKeys(s[1..], k);
      if HasKey(s, k) {
        var i :| 0 <= i < |s| && s[i].key == k;
        if i > 0 { assert s[1..][i - 1].key == k; }
      }
    }
  }

  lemma EmptyMap<V>(s: seq<Entry<V>>)
    ensures s == [] <==> ToMap(s) == map[]
  {
    if s != [] {
      assert s[0].key in ToMap(s);
    }
  }

  /** Sorted contents are the map they make, listed in key order. */
  lemma {:induction false} SortedToMap(s: seq<Entry<Value>>)
    requires Ascending(s)
    ensures Sorted(ToMap(s)) == s
  {
    EmptyMap(s);
    if s != [] {
      var m, k := ToMap(s), s[0].key;
      SortedToMap(s[1..]);
      ToMapKeys(s[1..], k);
      assert k !in ToMap(s[1..]);
      assert m - {k} == ToMap(s[1..]);
      forall o | o in m.Keys ensures k <= o {
        ToMapKeys(s, o);
      }
      assert k in m && Smallest(m.Keys) == k;
    }
  }

  lemma {:induction false} AnswersAreMapAnswers(s: seq<Entry<Value>>, ops: seq<Op>, scans: bool)
    requires Ascending(s)
    ensures Answers(s, ops, scans) == MapAnswers(ToMap(s), ops, scans)
    decreases |ops|
  {
    if ops != [] {
      EmptyMap(s);
      var op := ops[0];
      if op.Insert? || op.Update? {
        UpsertIsMapUpdate(s, op.key, op.value);
      } else {
        ToMapLookup(s, op.key);
        SortedToMap(s);
      }
      AnswersAreMapAnswers(Next(s, op), ops[1..], scans);
    }
  }

  // ---------------------------------------------------------------- replies so far

  /** The replies to the first i operations are done, and the rest will be answered from contents s. */
  ghost predicate Answered(done: seq<Reply>, s: seq<Entry<Value>>, ops: seq<Op>, i: nat, scans: bool) {
    i <= |ops| && done + Answers(s, ops[i..], scans) == Answers([], ops, scans)
  }

  lemma NoneAnswered(ops: seq<Op>, scans: bool)
    ensures Answered([], [], ops, 0, scans)
  {
    assert ops[0..] == ops;
  }

  /** One more reply. */
  lemma OneMore(done: seq<Reply>, s: seq<Entry<Value>>, ops: seq<Op>, i: nat, scans: bool)
    requires i < |ops| && Answered(done, s, ops, i, scans)
    ensures var r := ReplyTo(s, ops[i], scans);
            if r == Stopped then done + [r] == Answers([], ops, scans)
            else Answered(done + [r], Next(s, ops[i]), ops, i + 1, scans)
  {
    assert ops[i..][0] == ops[i] && ops[i..][1..] == ops[i + 1..];
    var r, rest := ReplyTo(s, ops[i], scans), Answers(Next(s, ops[i]), ops[i + 1..], scans);
    assert done + ([r] + rest) == done + [r] + rest;
  }

  lemma AllAnswered(done: seq<Reply>, s: seq<Entry<Value>>, ops: seq<Op>, scans: bool)
    requires Answered(done, s, ops, |ops|, scans)
    ensures done == Answers([], ops, scans)
  {
  }
}
