/** The in-place update of a stored value: a transaction that snapshots only the old string's length. */
module TxValue {
  const NUL: char := '\0'

  /** The C string at the start of a buffer. */
  ghost function Text(b: seq<char>): string {
    if b == [] || b[0] == NUL then [] else [b[0]] + Text(b[1..])
  }

  /** The buffer starts with the string v and its terminator. */
  ghost predicate Holds(b: seq<char>, v: string) {
    |v| < |b| && b[..|v|] == v && b[|v|] == NUL && NUL !in v
  }

  /** Recovery puts the snapshotted first bytes back and leaves the rest of the buffer. */
  ghost function RolledBack(b: seq<char>, snapshot: string): seq<char>
    requires |snapshot| <= |b|
  {
    snapshot + b[|snapshot|..]
  }

  /** The buffer after the first j stores of copying v and its terminator. */
  ghost function Partly(b: seq<char>, v: string, j: nat): (r: seq<char>)
    requires |v| < |b| && j <= |v| + 1
    ensures |r| == |b|
  {
    (v + [NUL])[..j] + b[j..]
  }

  lemma {:induction false} TextIs(b: seq<char>, v: string)
    requires Holds(b, v)
    ensures Text(b) == v
  {
    if v != [] {
      assert b[0] == b[..|v|][0] == v[0];
      assert b[1..][..|v| - 1] == b[..|v|][1..] == v[1..];
      TextIs(b[1..], v[1..]);
    }
  }

  /** A shorter or equally long new string: every crash point recovers the old one. */
  lemma ShorterIsUndone(b: seq<char>, before: string, v: string, j: nat)
    requires Holds(b, before) && |v| <= |before| && NUL !in v && j <= |v| + 1
    ensures Text(RolledBack(Partly(b, v, j), before)) == before
  {
    var p := Partly(b, v, j);
    var r := RolledBack(p, before);
    assert r[|before|] == p[|before|];
    assert p[|before|] == NUL;
    assert r[..|before|] == before;
    TextIs(r, before);
  }

  /** A longer new string: once it is written, recovery gives the old string followed by the new one's tail. */
  lemma LongerLeavesTail(b: seq<char>, before: string, v: string)
    requires Holds(b, before) && |before| < |v| < |b| && NUL !in v
    ensures Text(RolledBack(Partly(b, v, |v| + 1), before)) == before + v[|before|..]
  {
    var p := Partly(b, v, |v| + 1);
    var r, text := RolledBack(p, before), before + v[|before|..];
    assert p[..|v|] == v && p[|v|] == NUL;
    assert r[..|v|] == text && r[|v|] == NUL;
    TextIs(r, text);
  }

  /** One store of the copy. */
  lemma PartlyOneMore(b: seq<char>, v: string, j: nat)
    requires |v| < |b| && j <= |v|
    ensures Partly(b, v, j)[j := (v + [NUL])[j]] == Partly(b, v, j + 1)
  {
  }

  /** `strlen`. */
  method StringLength(buf: array<char>, ghost v: string) returns (n: nat)
    requires Holds(buf[..], v)
    ensures n == |v|
  {
    n := 0;
    while buf[n] != NUL
      invariant n <= |v|
      decreases |v| - n
    {
      TerminatorAt(buf[..], v, n);
      n := n + 1;
    }
    TerminatorAt(buf[..], v, n);
  }

  /** The first terminator is where the string ends. */
  lemma TerminatorAt(b: seq<char>, v: string, n: nat)
    requires Holds(b, v) && n <= |v|
    ensures b[n] == NUL <==> n == |v|
  {
    if n < |v| {
      assert b[n] == b[..|v|][n] == v[n];
    }
  }

  /** `memcpy` of a string and its terminator, byte by byte, with every state of the buffer on the way. */
  method Copy(buf: array<char>, value: string) returns (ghost trace: seq<seq<char>>)
    requires |value| < buf.Length
    modifies buf
    ensures |trace| == |value| + 2
    ensures forall i :: 0 <= i < |trace| ==> trace[i] == Partly(old(buf[..]), value, i)
    ensures buf[..] == trace[|value| + 1]
  {
    ghost var b := buf[..];
    var source := value + [NUL];
    trace := [b];
    assert Partly(b, value, 0) == b;
    hide Partly;
    for j := 0 to |source|
      invariant buf[..] == Partly(b, value, j)
      invariant |trace| == j + 1 && forall i :: 0 <= i <= j ==> trace[i] == Partly(b, value, i)
    {
      PartlyOneMore(b, value, j);
      ghost var reached := buf[..];
      buf[j] := source[j];
      assert buf[..] == reached[j := source[j]];
      trace := trace + [buf[..]];
    }
  }

  /** Recovery from any state of the trace gives the string that was there before. */
  ghost predicate Undone(trace: seq<seq<char>>, snapshot: string, before: string) {
    forall i :: 0 <= i < |trace| ==> |snapshot| <= |trace[i]| && Text(RolledBack(trace[i], snapshot)) == before
  }

  /** `update_if_found` at the value it found: snapshot `strlen` bytes, then copy the new string with its
      terminator. A crash is undone at every point exactly when the new string is not longer. */
  method Update(buf: array<char>, value: string, ghost before: string)
    returns (snapshot: string, ghost trace: seq<seq<char>>)
    requires Holds(buf[..], before) && |value| < buf.Length && NUL !in value
    modifies buf
    ensures Holds(buf[..], value) && snapshot == before
    ensures |trace| == |value| + 2 && forall i :: 0 <= i < |trace| ==> trace[i] == Partly(old(buf[..]), value, i)
    ensures Undone(trace, snapshot, before) <==> |value| <= |before|
    ensures |value| > |before| ==> Text(RolledBack(buf[..], snapshot)) == before + value[|before|..]
  {
    ghost var b := buf[..];
    var n := StringLength(buf, before);
    snapshot := buf[..n];
    assert snapshot == b[..n] == before;
    trace := Copy(buf, value);
    Copied(b, value);
    Recoveries(b, before, value, trace);
  }

  lemma Copied(b: seq<char>, v: string)
    requires |v| < |b| && NUL !in v
    ensures Holds(Partly(b, v, |v| + 1), v)
  {
    var p := Partly(b, v, |v| + 1);
    assert p[..|v|] == v && p[|v|] == NUL;
  }

  lemma Recoveries(b: seq<char>, before: string, v: string, trace: seq<seq<char>>)
    requires Holds(b, before) && |v| < |b| && NUL !in v
    requires |trace| == |v| + 2 && forall i :: 0 <= i < |trace| ==> trace[i] == Partly(b, v, i)
    ensures Undone(trace, before, before) <==> |v| <= |before|
    ensures |v| > |before| ==> Text(RolledBack(Partly(b, v, |v| + 1), before)) == before + v[|before|..]
  {
    if |v| <= |before| {
      forall i | 0 <= i < |trace|
        ensures |before| <= |trace[i]| && Text(RolledBack(trace[i], before)) == before
      {
        ShorterIsUndone(b, before, v, i);
      }
    } else {
      LongerLeavesTail(b, before, v);
      assert |before + v[|before|..]| == |v|;
      assert trace[|v| + 1] == Partly(b, v, |v| + 1);
    }
  }
}
