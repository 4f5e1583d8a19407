/** B+-tree nodes in a persistent pool: a memory from object ids to node records. */
module PoolMemory {
  import opened Base
  import opened SortedMap
  import opened Arrays
  import opened BPlusShape

  /** `PMEMoid`; OID_NULL is 0. */
  type Oid = nat

  const OID_NULL: Oid := 0

  /** `struct bplustree_pmem_node`. */
  datatype NodeRec = NodeRec(isLeaf: bool, nk: nat, entries: seq<Entry<Value>>, children: seq<Oid>, next: Oid,
    previous: Oid)

  type Mem = map<Oid, NodeRec>
  type PShape = Tree<Oid, Value>

  /** The record at the root of t holds exactly what t says. */
  ghost predicate RecHolds(r: NodeRec, t: PShape, d: nat) {
    && |r.entries| == 2 * d - 1 && |r.children| == 2 * d
    && r.nk == t.Size() <= 2 * d - 1
    && match t
       case Leaf(_, es) => r.isLeaf && r.entries[..r.nk] == es
       case Inner(_, ks, kids) =>
         !r.isLeaf && |kids| == |ks| + 1 && Keys(r.entries[..r.nk]) == ks && r.children[..r.nk + 1] == Ids(kids)
  }

  ghost predicate PRep(mem: Mem, t: PShape, d: nat)
    decreases t
  {
    && t.id in mem && t.id != OID_NULL && RecHolds(mem[t.id], t, d)
    && (t.Inner? ==> forall i :: 0 <= i < |t.kids| ==> PRep(mem, t.kids[i], d))
  }

  /** Two records that agree on everything but their place in the chain. */
  ghost predicate SameBody(r: NodeRec, s: NodeRec) {
    r.isLeaf == s.isLeaf && r.nk == s.nk && r.entries == s.entries && r.children == s.children
  }

  lemma {:induction false} PRepFrame(mem: Mem, mem': Mem, t: PShape, d: nat)
    requires PRep(mem, t, d)
    requires forall o :: o in Nodes(t) && o in mem ==> o in mem' && SameBody(mem[o], mem'[o])
    ensures PRep(mem', t, d)
    decreases t
  {
    if t.Inner? {
      forall i | 0 <= i < |t.kids|
        ensures PRep(mem', t.kids[i], d)
      {
        KidNodes(t.kids, i);
        PRepFrame(mem, mem', t.kids[i], d);
      }
    }
  }

  /** Every node of a represented tree is allocated, and none is OID_NULL. */
  lemma {:induction false} PRepAllocated(mem: Mem, t: PShape, d: nat)
    requires PRep(mem, t, d)
    ensures Nodes(t) <= mem.Keys && OID_NULL !in Nodes(t)
    decreases t
  {
    if t.Inner? {
      forall o | o in ForestNodes(t.kids)
        ensures o in mem && o != OID_NULL
      {
        var i := NodeOf(t.kids, o);
        PRepAllocated(mem, t.kids[i], d);
      }
    }
  }

  /** ls are allocated leaves, distinct and doubly linked in order. */
  ghost predicate PChain(mem: Mem, ls: seq<Oid>) {
    && (forall i, j :: 0 <= i < j < |ls| ==> ls[i] != ls[j])
    && (forall i :: 0 <= i < |ls| ==> PLinked(mem, ls, i))
  }

  ghost predicate PLinked(mem: Mem, ls: seq<Oid>, i: nat)
    requires i < |ls|
  {
    && ls[i] in mem && ls[i] != OID_NULL && mem[ls[i]].isLeaf
    && mem[ls[i]].next == (if i + 1 < |ls| then ls[i + 1] else OID_NULL)
    && mem[ls[i]].previous == (if i > 0 then ls[i - 1] else OID_NULL)
  }

  /** Two records that agree on their place in the chain. */
  ghost predicate SamePlace(r: NodeRec, s: NodeRec) {
    r.isLeaf == s.isLeaf && r.next == s.next && r.previous == s.previous
  }

  lemma PChainFrame(mem: Mem, mem': Mem, ls: seq<Oid>)
    requires PChain(mem, ls)
    requires forall o :: o in ls && o in mem ==> o in mem' && SamePlace(mem[o], mem'[o])
    ensures PChain(mem', ls)
  {
    forall i | 0 <= i < |ls| ensures PLinked(mem', ls, i) { assert PLinked(mem, ls, i); }
  }

  /** The chain with a new leaf after position p. */
  lemma PChainInsert(mem: Mem, mem': Mem, ls: seq<Oid>, p: nat, sib: Oid)
    requires PChain(mem, ls) && p < |ls| && PLinked(mem, ls, p) && sib !in ls && sib != OID_NULL && sib in mem'
      && mem'[sib].isLeaf
    requires mem'[sib].next == mem[ls[p]].next && mem'[sib].previous == ls[p]
    requires forall o :: o in ls && o in mem ==> o in mem' && mem'[o].isLeaf == mem[o].isLeaf
    requires forall o :: o in ls && o in mem ==> mem'[o].next == if o == ls[p] then sib else mem[o].next
    requires forall o :: o in ls && o in mem ==>
      mem'[o].previous == if o == mem[ls[p]].next then sib else mem[o].previous
    ensures PChain(mem', InsertAt(ls, p + 1, sib))
  {
    var ls' := InsertAt(ls, p + 1, sib);
    forall i | 0 <= i < |ls'|
      ensures PLinked(mem', ls', i)
    {
      if i <= p { assert PLinked(mem, ls, i); } else if i > p + 1 { assert PLinked(mem, ls, i - 1); }
    }
  }
}
