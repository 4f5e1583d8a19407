/** The shifting and copying loops of the tree operations, over one array at a time. */
module Arrays {

  ghost function InsertAt<X>(s: seq<X>, i: nat, x: X): (r: seq<X>)
    requires i <= |s|
    ensures |r| == |s| + 1
  {
    s[..i] + [x] + s[i..]
  }

  /** s with s[from..end) moved one slot to the right. */
  ghost function Shifted<X>(s: seq<X>, from: nat, end: nat): (r: seq<X>)
    requires from <= end < |s|
    ensures |r| == |s|
  {
    seq(|s|, m requires 0 <= m < |s| => if from < m <= end then s[m - 1] else s[m])
  }

  lemma ShiftedBelow<X>(s: seq<X>, from: nat, end: nat, m: nat)
    requires m <= from <= end < |s|
    ensures Shifted(s, from, end)[m] == s[m]
  {
  }

  lemma ShiftNothing<X>(s: seq<X>, i: nat)
    requires i < |s|
    ensures Shifted(s, i, i) == s
  {
  }

  /** The shifting loop, from the right: shifting from i and then copying slot i-1 is shifting from i-1. */
  lemma ShiftOneMore<X>(s: seq<X>, i: nat, end: nat)
    requires 0 < i <= end < |s|
    ensures Shifted(s, i, end)[i := Shifted(s, i, end)[i - 1]] == Shifted(s, i - 1, end)
  {
  }

  /** dst with its first n elements replaced by src[from..from+n). */
  ghost function Overlaid<X>(dst: seq<X>, src: seq<X>, from: nat, n: nat): (r: seq<X>)
    requires from + n <= |src| && n <= |dst|
    ensures |r| == |dst| && r[..n] == src[from..from + n]
  {
    src[from..from + n] + dst[n..]
  }

  lemma OverlayOneMore<X>(dst: seq<X>, src: seq<X>, from: nat, n: nat)
    requires from + n < |src| && n < |dst|
    ensures Overlaid(dst, src, from, n)[n := src[from + n]] == Overlaid(dst, src, from, n + 1)
  {
  }

  /** Shifting and then writing the gap inserts. */
  lemma ShiftThenWrite<X>(s: seq<X>, i: nat, end: nat, x: X)
    requires i <= end < |s|
    ensures Shifted(s, i, end)[i := x][..end + 1] == InsertAt(s[..end], i, x)
  {
    var a, b := Shifted(s, i, end)[i := x][..end + 1], InsertAt(s[..end], i, x);
    forall m | 0 <= m < end + 1 ensures a[m] == b[m] {}
  }

  lemma InsertInMiddle<X>(pre: seq<X>, a: seq<X>, x: X, b: seq<X>, post: seq<X>, y: X)
    ensures var row := pre + (a + [x] + b) + post;
            && row[|pre| + |a|] == x
            && pre + (a + [x, y] + b) + post == InsertAt(row, |pre| + |a| + 1, y)
  {
  }

  lemma Associative<X>(a: seq<X>, b: seq<X>, c: seq<X>)
    ensures a + (b + c) == a + b + c
  {
  }

  lemma Regroup<X>(pre: seq<X>, a: seq<X>, b: seq<X>, c: seq<X>, post: seq<X>)
    ensures pre + (a + b + c) + post == (pre + a) + b + (c + post)
  {
  }

  /** Moves a[from..end) one slot to the right, last element first. */
  method ShiftRight<X>(a: array<X>, from: nat, end: nat)
    requires from <= end < a.Length
    modifies a
    ensures forall m :: from < m <= end ==> a[m] == old(a[m - 1])
    ensures forall m :: 0 <= m < a.Length && !(from < m <= end) ==> a[m] == old(a[m])
  {
    var i := end;
    while i > from
      invariant from <= i <= end
      invariant forall m :: 0 <= m < a.Length && !(i < m <= end) ==> a[m] == old(a[m])
      invariant forall m :: i < m <= end ==> a[m] == old(a[m - 1])
    {
      a[i] := a[i - 1];
      i := i - 1;
    }
  }

  /** Opens slot i among the first end slots and puts x there. */
  method InsertSlot<X>(a: array<X>, i: nat, end: nat, x: X)
    requires i <= end < a.Length
    modifies a
    ensures a[..end + 1] == InsertAt(old(a[..end]), i, x)
  {
    ghost var s := a[..end];
    ShiftRight(a, i, end);
    a[i] := x;
    forall m | 0 <= m < end + 1
      ensures a[m] == InsertAt(s, i, x)[m]
    {
      if m > i { assert a[m] == s[m - 1]; } else if m < i { assert a[m] == s[m]; }
    }
  }

  /** Copies src[from..from+n) to the front of dst. */
  method CopyTail<X>(dst: array<X>, src: array<X>, from: nat, n: nat)
    requires from + n <= src.Length && n <= dst.Length && dst != src
    modifies dst
    ensures dst[..n] == src[from..from + n]
  {
    for i := 0 to n
      invariant forall m :: 0 <= m < i ==> dst[m] == src[m + from]
    {
      dst[i] := src[i + from];
    }
  }
}
