/** The node-level steps of a transactional insert, store by store. */
module TxNode {
  import opened Base
  import opened SortedMap
  import opened Arrays
  import opened PoolMemory
  import opened TxPool

  lemma Overwrite<K, V>(m: map<K, V>, k: K, a: V, b: V)
    ensures m[k := a][k := b] == m[k := b]
  {
  }

  /** The loop that makes room among the children. */
  method ShiftChildren(p: Pool, o: Oid, from: nat, end: nat)
    requires p.InTx() && Writable(p.st, p.exempt, o) && from <= end < |p.st.mem[o].children|
    modifies p`st, p`trace
    ensures p.InTx() && p.Stepped()
    ensures var r := old(p.st.mem[o]);
            p.st == old(p.st).(mem := old(p.st.mem)[o := r.(children := Shifted(r.children, from, end))])
  {
    hide Covered, WrittenAhead;
    var i: nat := end;
    ghost var s0, r0 := p.st, p.st.mem[o];
    ShiftNothing(r0.children, end);
    assert s0.mem == s0.mem[o := r0];
    while i > from
      invariant from <= i <= end && p.InTx() && p.Stepped()
      invariant p.st == s0.(mem := s0.mem[o := r0.(children := Shifted(r0.children, i, end))])
    {
      var r := p.st.mem[o];
      ShiftOneMore(r0.children, i, end);
      Overwrite(s0.mem, o, r, r0.(children := Shifted(r0.children, i - 1, end)));
      p.Write(o, r.(children := r.children[i := r.children[i - 1]]));
      i := i - 1;
    }
  }

  /** The loop that makes room among the entries. */
  method ShiftEntries(p: Pool, o: Oid, from: nat, end: nat)
    requires p.InTx() && Writable(p.st, p.exempt, o) && from <= end < |p.st.mem[o].entries|
    modifies p`st, p`trace
    ensures p.InTx() && p.Stepped()
    ensures var r := old(p.st.mem[o]);
            p.st == old(p.st).(mem := old(p.st.mem)[o := r.(entries := Shifted(r.entries, from, end))])
  {
    hide Covered, WrittenAhead;
    var i: nat := end;
    ghost var s0, r0 := p.st, p.st.mem[o];
    ShiftNothing(r0.entries, end);
    assert s0.mem == s0.mem[o := r0];
    while i > from
      invariant from <= i <= end && p.InTx() && p.Stepped()
      invariant p.st == s0.(mem := s0.mem[o := r0.(entries := Shifted(r0.entries, i, end))])
    {
      var r := p.st.mem[o];
      ShiftOneMore(r0.entries, i, end);
      Overwrite(s0.mem, o, r, r0.(entries := Shifted(r0.entries, i - 1, end)));
      p.Write(o, r.(entries := r.entries[i := r.entries[i - 1]]));
      i := i - 1;
    }
  }

  /** The loop that moves entries to a new sibling. */
  method CopyEntries(p: Pool, dst: Oid, src: Oid, from: nat, n: nat)
    requires p.InTx() && Writable(p.st, p.exempt, dst) && src in p.st.mem && src != dst
    requires from + n <= |p.st.mem[src].entries| && n <= |p.st.mem[dst].entries|
    modifies p`st, p`trace
    ensures p.InTx() && p.Stepped()
    ensures var r, s := old(p.st.mem[dst]), old(p.st.mem[src]);
            p.st == old(p.st).(mem := old(p.st.mem)[dst := r.(entries := Overlaid(r.entries, s.entries, from, n))])
  {
    hide Covered, WrittenAhead;
    ghost var s0, r0, c := p.st, p.st.mem[dst], p.st.mem[src];
    assert r0 == r0.(entries := Overlaid(r0.entries, c.entries, from, 0));
    assert s0.mem == s0.mem[dst := r0];
    for i := 0 to n
      invariant p.InTx() && p.Stepped()
      invariant p.st == s0.(mem := s0.mem[dst := r0.(entries := Overlaid(r0.entries, c.entries, from, i))])
    {
      var r := p.st.mem[dst];
      OverlayOneMore(r0.entries, c.entries, from, i);
      Overwrite(s0.mem, dst, r, r0.(entries := Overlaid(r0.entries, c.entries, from, i + 1)));
      p.Write(dst, r.(entries := r.entries[i := p.st.mem[src].entries[i + from]]));
    }
  }

  /** The loop that moves children to a new sibling. */
  method CopyChildren(p: Pool, dst: Oid, src: Oid, from: nat, n: nat)
    requires p.InTx() && Writable(p.st, p.exempt, dst) && src in p.st.mem && src != dst
    requires from + n <= |p.st.mem[src].children| && n <= |p.st.mem[dst].children|
    modifies p`st, p`trace
    ensures p.InTx() && p.Stepped()
    ensures var r, s := old(p.st.mem[dst]), old(p.st.mem[src]);
            p.st == old(p.st).(mem := old(p.st.mem)[dst := r.(children := Overlaid(r.children, s.children, from, n))])
  {
    hide Covered, WrittenAhead;
    ghost var s0, r0, c := p.st, p.st.mem[dst], p.st.mem[src];
    assert r0 == r0.(children := Overlaid(r0.children, c.children, from, 0));
    assert s0.mem == s0.mem[dst := r0];
    for i := 0 to n
      invariant p.InTx() && p.Stepped()
      invariant p.st == s0.(mem := s0.mem[dst := r0.(children := Overlaid(r0.children, c.children, from, i))])
    {
      var r := p.st.mem[dst];
      OverlayOneMore(r0.children, c.children, from, i);
      Overwrite(s0.mem, dst, r, r0.(children := Overlaid(r0.children, c.children, from, i + 1)));
      p.Write(dst, r.(children := r.children[i := p.st.mem[src].children[i + from]]));
    }
  }

  /** The parent's record after it took in a new child after child idx. */
  ghost function Adopted(r: NodeRec, idx: nat, sib: Oid, sep: Entry<Value>, keyOnly: bool): NodeRec
    requires idx <= r.nk < |r.entries| && |r.children| == |r.entries| + 1
  {
    var es := Shifted(r.entries, idx, r.nk);
    r.(children := Shifted(r.children, idx + 1, r.nk + 1)[idx + 1 := sib],
       entries := es[idx := if keyOnly then es[idx].(key := sep.key) else sep],
       nk := r.nk + 1)
  }

  lemma AdoptedKeys(r: NodeRec, idx: nat, sib: Oid, sep: Entry<Value>, keyOnly: bool)
    requires idx <= r.nk < |r.entries| && |r.children| == |r.entries| + 1
    ensures var r' := Adopted(r, idx, sib, sep, keyOnly);
            && Keys(r'.entries[..r'.nk]) == InsertAt(Keys(r.entries[..r.nk]), idx, sep.key)
            && r'.children[..r'.nk + 1] == InsertAt(r.children[..r.nk + 1], idx + 1, sib)
  {
    var es := Shifted(r.entries, idx, r.nk);
    var x := if keyOnly then es[idx].(key := sep.key) else sep;
    ShiftThenWrite(r.entries, idx, r.nk, x);
    ShiftThenWrite(r.children, idx + 1, r.nk + 1, sib);
    var a, b := Keys(InsertAt(r.entries[..r.nk], idx, x)), InsertAt(Keys(r.entries[..r.nk]), idx, sep.key);
    forall m | 0 <= m < |a| ensures a[m] == b[m] {}
  }

  /** The parent's part of `split_node`: the caller has made it writable. */
  method AdoptChild(p: Pool, parent: Oid, idx: nat, sib: Oid, sep: Entry<Value>, keyOnly: bool)
    requires p.InTx() && Writable(p.st, p.exempt, parent)
    requires idx <= p.st.mem[parent].nk < |p.st.mem[parent].entries|
    requires |p.st.mem[parent].children| == |p.st.mem[parent].entries| + 1
    modifies p`st, p`trace
    ensures p.InTx() && p.Stepped()
    ensures p.st == old(p.st).(mem := old(p.st.mem)[parent := Adopted(old(p.st.mem[parent]), idx, sib, sep, keyOnly)])
  {
    hide Covered, WrittenAhead;
    AdoptPointer(p, parent, idx, sib);
    AdoptSeparator(p, parent, idx, sep, keyOnly);
    var r := p.st.mem[parent];
    p.Write(parent, r.(nk := r.nk + 1));
  }

  method AdoptPointer(p: Pool, parent: Oid, idx: nat, sib: Oid)
    requires p.InTx() && Writable(p.st, p.exempt, parent)
    requires idx <= p.st.mem[parent].nk && p.st.mem[parent].nk + 1 < |p.st.mem[parent].children|
    modifies p`st, p`trace
    ensures p.InTx() && p.Stepped()
    ensures var r := old(p.st.mem[parent]);
            var cs := Shifted(r.children, idx + 1, r.nk + 1)[idx + 1 := sib];
            p.st == old(p.st).(mem := old(p.st.mem)[parent := r.(children := cs)])
  {
    ShiftChildren(p, parent, idx + 1, p.st.mem[parent].nk + 1);
    var r := p.st.mem[parent];
    p.Write(parent, r.(children := r.children[idx + 1 := sib]));
  }

  method AdoptSeparator(p: Pool, parent: Oid, idx: nat, sep: Entry<Value>, keyOnly: bool)
    requires p.InTx() && Writable(p.st, p.exempt, parent)
    requires idx <= p.st.mem[parent].nk < |p.st.mem[parent].entries|
    modifies p`st, p`trace
    ensures p.InTx() && p.Stepped()
    ensures var r := old(p.st.mem[parent]);
            var es := Shifted(r.entries, idx, r.nk);
            var x := if keyOnly then es[idx].(key := sep.key) else sep;
            p.st == old(p.st).(mem := old(p.st.mem)[parent := r.(entries := es[idx := x])])
  {
    ShiftEntries(p, parent, idx, p.st.mem[parent].nk);
    var r := p.st.mem[parent];
    p.Write(parent, r.(entries := r.entries[idx := if keyOnly then r.entries[idx].(key := sep.key) else sep]));
  }

  /** A freshly allocated node: `create_node`; its arrays are not initialised. */
  function BlankRec(leaf: bool, d: nat): NodeRec
    requires d >= 2
  {
    NodeRec(leaf, 0, seq(2 * d - 1, _ => Entry(0, "")), seq(2 * d, _ => OID_NULL), OID_NULL, OID_NULL)
  }

  /** Every object outside s is as it was; objects may have been added. */
  ghost predicate Changed(m: Mem, m': Mem, s: set<Oid>) {
    && (forall o :: o in m ==> o in m' && (o !in s ==> m'[o] == m[o]))
    && (forall o :: o in m' ==> o in m || o in s)
  }

  /** The sibling's record after it took the upper part of a full node. */
  ghost function UpperLeaf(c: NodeRec, d: nat): NodeRec
    requires d >= 2 && |c.entries| == 2 * d - 1
  {
    var b := BlankRec(true, d);
    b.(nk := d, entries := Overlaid(b.entries, c.entries, d - 1, d))
  }

  ghost function UpperInner(c: NodeRec, d: nat): NodeRec
    requires d >= 2 && |c.entries| == 2 * d - 1 && |c.children| == 2 * d
  {
    var b := BlankRec(false, d);
    b.(nk := d - 1, entries := Overlaid(b.entries, c.entries, d, d - 1),
      children := Overlaid(b.children, c.children, d, d))
  }

  /** A full node gives its upper part to a new sibling: both are in the log or allocated first. */
  method HalveLeaf(p: Pool, child: Oid, d: nat) returns (sib: Oid)
    requires p.InTx() && d >= 2 && child in p.st.mem && child !in p.exempt && p.st.mem[child].isLeaf
    requires |p.st.mem[child].entries| == 2 * d - 1
    modifies p`st, p`trace
    ensures p.InTx() && p.Stepped() && Grows(old(p.st), p.st)
    ensures sib != OID_NULL && sib !in old(p.st.mem) && sib !in p.base.mem && sib !in p.exempt
    ensures Writable(p.st, p.exempt, child) && Writable(p.st, p.exempt, sib)
    ensures Changed(old(p.st.mem), p.st.mem, {child, sib})
    ensures p.st.mem[child] == old(p.st.mem[child]).(nk := d - 1)
    ensures p.st.mem[sib] == UpperLeaf(old(p.st.mem[child]), d)
  {
    hide Covered, WrittenAhead;
    sib := p.Alloc(BlankRec(p.st.mem[child].isLeaf, d));
    p.Snapshot(child);
    p.Snapshot(sib);
    p.Write(sib, p.st.mem[sib].(nk := d));
    CopyEntries(p, sib, child, d - 1, d);
    p.Write(child, p.st.mem[child].(nk := d - 1));
  }

  method HalveInner(p: Pool, child: Oid, d: nat) returns (sib: Oid)
    requires p.InTx() && d >= 2 && child in p.st.mem && child !in p.exempt && !p.st.mem[child].isLeaf
    requires |p.st.mem[child].entries| == 2 * d - 1 && |p.st.mem[child].children| == 2 * d
    modifies p`st, p`trace
    ensures p.InTx() && p.Stepped() && Grows(old(p.st), p.st)
    ensures sib != OID_NULL && sib !in old(p.st.mem) && sib !in p.base.mem && sib !in p.exempt
    ensures Writable(p.st, p.exempt, child) && Writable(p.st, p.exempt, sib)
    ensures Changed(old(p.st.mem), p.st.mem, {child, sib})
    ensures p.st.mem[child] == old(p.st.mem[child]).(nk := d - 1)
    ensures p.st.mem[sib] == UpperInner(old(p.st.mem[child]), d)
  {
    hide Covered, WrittenAhead;
    sib := p.Alloc(BlankRec(p.st.mem[child].isLeaf, d));
    p.Snapshot(child);
    p.Snapshot(sib);
    p.Write(sib, p.st.mem[sib].(nk := d - 1));
    hide Overlaid;
    CopyEntries(p, sib, child, d, d - 1);
    CopyChildren(p, sib, child, d, d);
    p.Write(child, p.st.mem[child].(nk := d - 1));
  }

  /** Threads the new leaf into the chain; the leaf after it is snapshotted first. */
  method LinkAfter(p: Pool, child: Oid, sib: Oid)
    requires p.InTx() && Writable(p.st, p.exempt, child) && Writable(p.st, p.exempt, sib) && child != sib
    requires var next := p.st.mem[child].next;
             next != OID_NULL ==> next in p.st.mem && next !in p.exempt && next != child && next != sib
    modifies p`st, p`trace
    ensures p.InTx() && p.Stepped() && Grows(old(p.st), p.st)
    ensures Changed(old(p.st.mem), p.st.mem, {child, sib, old(p.st.mem[child].next)})
    ensures p.st.mem[child] == old(p.st.mem[child]).(next := sib)
    ensures p.st.mem[sib] == old(p.st.mem[sib]).(next := old(p.st.mem[child].next), previous := child)
    ensures var next := old(p.st.mem[child].next);
            next in old(p.st.mem) && next != OID_NULL ==> p.st.mem[next] == old(p.st.mem)[next].(previous := sib)
  {
    hide Covered, WrittenAhead;
    p.Write(sib, p.st.mem[sib].(next := p.st.mem[child].next));
    var next := p.st.mem[sib].next;
    if next != OID_NULL {
      p.Snapshot(next);
      p.Write(next, p.st.mem[next].(previous := sib));
    }
    p.Write(child, p.st.mem[child].(next := sib));
    p.Write(sib, p.st.mem[sib].(previous := child));
  }

  /** `split_node` on a full leaf. The parent is writable already; child, sibling and next leaf become so here. */
  method SplitLeaf(p: Pool, idx: nat, parent: Oid, child: Oid, d: nat) returns (sib: Oid)
    requires p.InTx() && d >= 2 && Writable(p.st, p.exempt, parent) && parent != child && parent != OID_NULL
    requires child in p.st.mem && child !in p.exempt && p.st.mem[child].isLeaf && |p.st.mem[child].entries| == 2 * d - 1
    requires |p.st.mem[parent].entries| == 2 * d - 1 && |p.st.mem[parent].children| == 2 * d
    requires idx <= p.st.mem[parent].nk < 2 * d - 1
    requires var next := p.st.mem[child].next;
             next != OID_NULL ==> next in p.st.mem && next !in p.exempt && next != child && next != parent
    modifies p`st, p`trace
    ensures p.InTx() && p.Stepped() && Grows(old(p.st), p.st)
    ensures sib != OID_NULL && sib !in old(p.st.mem) && sib !in p.base.mem && sib !in p.exempt
    ensures Writable(p.st, p.exempt, child) && Writable(p.st, p.exempt, sib)
    ensures LeafSplit(old(p.st.mem), p.st.mem, idx, parent, child, d, sib)
  {
    hide Covered, WrittenAhead;
    ghost var m, c := p.st.mem, p.st.mem[child];
    sib := HalveLeaf(p, child, d);
    assert p.st.mem[sib].entries[0] == p.st.mem[sib].entries[..d][0] == c.entries[d - 1];
    assert p.st.mem[parent] == m[parent] && (c.next != OID_NULL ==> p.st.mem[c.next] == m[c.next]);
    AdoptChild(p, parent, idx, sib, p.st.mem[sib].entries[0], true);
    LinkAfter(p, child, sib);
  }

  /** What splitting a leaf does to the memory. */
  ghost predicate LeafSplit(m: Mem, m': Mem, idx: nat, parent: Oid, child: Oid, d: nat, sib: Oid)
    requires d >= 2 && parent in m && child in m
    requires |m[child].entries| == 2 * d - 1 && |m[parent].entries| == 2 * d - 1 && |m[parent].children| == 2 * d
    requires idx <= m[parent].nk < 2 * d - 1
  {
    var c := m[child];
    && Changed(m, m', {parent, child, sib, c.next})
    && sib in m' && m'[sib] == UpperLeaf(c, d).(next := c.next, previous := child)
    && child in m' && m'[child] == c.(nk := d - 1, next := sib)
    && parent in m' && m'[parent] == Adopted(m[parent], idx, sib, c.entries[d - 1], true)
    && (c.next in m && c.next != OID_NULL ==> c.next in m' && m'[c.next] == m[c.next].(previous := sib))
  }

  /** `split_node` on a full internal node. */
  method SplitInner(p: Pool, idx: nat, parent: Oid, child: Oid, d: nat) returns (sib: Oid)
    requires p.InTx() && d >= 2 && Writable(p.st, p.exempt, parent) && parent != child
    requires child in p.st.mem && child !in p.exempt && !p.st.mem[child].isLeaf
    requires |p.st.mem[child].entries| == 2 * d - 1 && |p.st.mem[child].children| == 2 * d
    requires |p.st.mem[parent].entries| == 2 * d - 1 && |p.st.mem[parent].children| == 2 * d
    requires idx <= p.st.mem[parent].nk < 2 * d - 1
    modifies p`st, p`trace
    ensures p.InTx() && p.Stepped() && Grows(old(p.st), p.st)
    ensures sib != OID_NULL && sib !in old(p.st.mem) && sib !in p.base.mem && sib !in p.exempt
    ensures Writable(p.st, p.exempt, child) && Writable(p.st, p.exempt, sib)
    ensures InnerSplit(old(p.st.mem), p.st.mem, idx, parent, child, d, sib)
  {
    hide Covered, WrittenAhead;
    sib := HalveInner(p, child, d);
    AdoptChild(p, parent, idx, sib, p.st.mem[child].entries[d - 1], false);
  }

  /** What splitting an internal node does to the memory. */
  ghost predicate InnerSplit(m: Mem, m': Mem, idx: nat, parent: Oid, child: Oid, d: nat, sib: Oid)
    requires d >= 2 && parent in m && child in m && |m[child].entries| == 2 * d - 1 && |m[child].children| == 2 * d
    requires |m[parent].entries| == 2 * d - 1 && |m[parent].children| == 2 * d && idx <= m[parent].nk < 2 * d - 1
  {
    var c := m[child];
    && Changed(m, m', {parent, child, sib})
    && sib in m' && m'[sib] == UpperInner(c, d)
    && child in m' && m'[child] == c.(nk := d - 1)
    && parent in m' && m'[parent] == Adopted(m[parent], idx, sib, c.entries[d - 1], false)
  }

  /** The leaf case of `insert_not_full`. The leaf is writable already. */
  method InsertIntoLeaf(p: Pool, node: Oid, key: Key, value: Value)
    requires p.InTx() && Writable(p.st, p.exempt, node) && p.st.mem[node].nk < |p.st.mem[node].entries|
    requires Ascending(p.st.mem[node].entries[..p.st.mem[node].nk])
      && !HasKey(p.st.mem[node].entries[..p.st.mem[node].nk], key)
    modifies p`st, p`trace
    ensures p.InTx() && p.Stepped() && Grows(old(p.st), p.st)
    ensures Changed(old(p.st.mem), p.st.mem, {node})
    ensures LeafInsert(old(p.st.mem[node]), p.st.mem[node], key, value)
  {
    hide Covered, WrittenAhead, Ascending, HasKey;
    ghost var m, r0 := p.st.mem, p.st.mem[node];
    var i := ShiftLarger(p, node, key);
    p.Write(node, p.st.mem[node].(entries := p.st.mem[node].entries[i := p.st.mem[node].entries[i].(key := key)]));
    p.Write(node, p.st.mem[node].(entries := p.st.mem[node].entries[i := p.st.mem[node].entries[i].(value := value)]));
    p.Write(node, p.st.mem[node].(nk := p.st.mem[node].nk + 1));
    InsertPosition(r0.entries[..r0.nk], i, key, value);
    ShiftThenWrite(r0.entries, i, r0.nk, Entry(key, value));
    assert p.st.mem[node].entries == Shifted(r0.entries, i, r0.nk)[i := Entry(key, value)];
  }

  ghost predicate LeafInsert(r: NodeRec, r': NodeRec, key: Key, value: Value)
    requires r.nk < |r.entries|
  {
    && r' == r.(nk := r.nk + 1, entries := r'.entries) && |r'.entries| == |r.entries|
    && r'.entries[..r'.nk] == Upsert(r.entries[..r.nk], key, value)
  }

  /** One store of that loop. */
  method ShiftOne(p: Pool, node: Oid, i: nat, ghost s0: State, ghost r0: NodeRec)
    requires p.InTx() && Writable(p.st, p.exempt, node) && 0 < i <= r0.nk < |r0.entries| && s0.mem.Keys == p.st.mem.Keys
    requires p.st == s0.(mem := s0.mem[node := r0.(entries := Shifted(r0.entries, i, r0.nk))])
    modifies p`st, p`trace
    ensures p.InTx() && p.Stepped()
    ensures p.st == s0.(mem := s0.mem[node := r0.(entries := Shifted(r0.entries, i - 1, r0.nk))])
  {
    hide Covered, WrittenAhead;
    var r := p.st.mem[node];
    ShiftOneMore(r0.entries, i, r0.nk);
    p.Write(node, r.(entries := r.entries[i := r.entries[i - 1]]));
    Overwrite(s0.mem, node, r, r0.(entries := Shifted(r0.entries, i - 1, r0.nk)));
  }

  /** The loop that shifts the larger entries, one store at a time. */
  method ShiftLarger(p: Pool, node: Oid, key: Key) returns (i: nat)
    requires p.InTx() && Writable(p.st, p.exempt, node) && p.st.mem[node].nk < |p.st.mem[node].entries|
    modifies p`st, p`trace
    ensures p.InTx() && p.Stepped()
    ensures var r := old(p.st.mem[node]);
            && i <= r.nk && (i > 0 ==> r.entries[i - 1].key <= key)
            && (forall m :: i <= m < r.nk ==> r.entries[m].key > key)
            && p.st == old(p.st).(mem := old(p.st.mem)[node := r.(entries := Shifted(r.entries, i, r.nk))])
  {
    hide Covered, WrittenAhead, Shifted;
    ghost var s0, r0 := p.st, p.st.mem[node];
    i := p.st.mem[node].nk;
    ShiftNothing(r0.entries, i);
    assert s0.mem == s0.mem[node := r0];
    while i > 0 && p.st.mem[node].entries[i - 1].key > key
      invariant i <= r0.nk && p.InTx() && p.Stepped()
      invariant p.st == s0.(mem := s0.mem[node := r0.(entries := Shifted(r0.entries, i, r0.nk))])
      invariant forall m :: i <= m < r0.nk ==> r0.entries[m].key > key
    {
      ShiftedBelow(r0.entries, i, r0.nk, i - 1);
      ShiftOne(p, node, i, s0, r0);
      i := i - 1;
    }
    if i > 0 { ShiftedBelow(r0.entries, i, r0.nk, i - 1); }
  }
}
