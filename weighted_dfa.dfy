/**
  The node store of the layered graph built from a weighted DFA: node
  records, the structural equality and hash the node cache is keyed by, the
  (graph, index) node views, and hash-consed insertion into an arena of
  nodes with a content-to-id cache.
*/
module WeightedDfa {
  import opened Wrappers

  const TWO_32: int := 0x1_0000_0000

  newtype uint32 = x: int | 0 <= x < 0x1_0000_0000
  newtype int32 = x: int | -0x8000_0000 <= x < 0x8000_0000

  type NodeID = int

  /** One outgoing edge: value, weight and destination node. */
  datatype EInfo = EInfo(val: int32, weight: int32, dest: int32)

  /** A node record: its variable, its edge count and its edges. */
  datatype NodeInfo = NodeInfo(variable: uint32, sz: uint32, edges: seq<EInfo>)

  /** The record holds exactly `sz` edges. */
  predicate WellFormed(n: NodeInfo)
  {
    |n.edges| == n.sz as int
  }

  // ---------------------------------------------------------------------
  // eqnode
  // ---------------------------------------------------------------------

  /** Same variable, same size, and every edge agrees in value, destination and weight. */
  predicate SameContent(a: NodeInfo, b: NodeInfo)
    requires WellFormed(a) && WellFormed(b)
  {
    && a.variable == b.variable
    && a.sz == b.sz
    && forall ii :: 0 <= ii < a.sz as int ==>
         && a.edges[ii].val == b.edges[ii].val
         && a.edges[ii].dest == b.edges[ii].dest
         && a.edges[ii].weight == b.edges[ii].weight
  }

  /** The equality functor of the node cache: a scan with early exit. */
  method EqNode(a1: NodeInfo, a2: NodeInfo) returns (eq: bool)
    requires WellFormed(a1) && WellFormed(a2)
    ensures eq <==> SameContent(a1, a2)
    ensures a1.variable != a2.variable || a1.sz != a2.sz ==> !eq
  {
    if a1.variable != a2.variable {
      return false;
    }
    if a1.sz != a2.sz {
      return false;
    }
    var ii := 0;
    while ii < a1.sz as int
      invariant 0 <= ii <= a1.sz as int
      invariant forall k :: 0 <= k < ii ==>
        a1.edges[k].val == a2.edges[k].val && a1.edges[k].dest == a2.edges[k].dest
        && a1.edges[k].weight == a2.edges[k].weight
    {
      if a1.edges[ii].val != a2.edges[ii].val
        || a1.edges[ii].dest != a2.edges[ii].dest
        || a1.edges[ii].weight != a2.edges[ii].weight
      {
        return false;
      }
      ii := ii + 1;
    }
    return true;
  }

  /** On well-formed records, eqnode is exactly equality of the records. */
  lemma SameContentIsEquality(a: NodeInfo, b: NodeInfo)
    requires WellFormed(a) && WellFormed(b)
    ensures SameContent(a, b) <==> a == b
  {
  }

  lemma SameContentReflexive(a: NodeInfo)
    requires WellFormed(a)
    ensures SameContent(a, a)
  {
  }

  lemma SameContentSymmetric(a: NodeInfo, b: NodeInfo)
    requires WellFormed(a) && WellFormed(b)
    ensures SameContent(a, b) ==> SameContent(b, a)
  {
  }

  lemma SameContentTransitive(a: NodeInfo, b: NodeInfo, c: NodeInfo)
    requires WellFormed(a) && WellFormed(b) && WellFormed(c)
    ensures SameContent(a, b) && SameContent(b, c) ==> SameContent(a, c)
  {
  }

  /** No normalisation: records that differ only in one edge's weight are distinct. */
  lemma WeightDifferenceNotMerged(a: NodeInfo, b: NodeInfo, k: nat)
    requires WellFormed(a) && WellFormed(b)
    requires a.variable == b.variable && a.sz == b.sz && k < |a.edges|
    requires a.edges[k].weight != b.edges[k].weight
    ensures !SameContent(a, b)
  {
  }

  // ---------------------------------------------------------------------
  // hashnode
  // ---------------------------------------------------------------------

  /** `(h << 5) + h + c` on 32-bit unsigned integers, every operation wrapping. */
  function Djb2Step(h: uint32, c: uint32): (r: uint32)
    ensures r as int == (h as int * 33 + c as int) % TWO_32
  {
    var shifted := (h as int * 32) % TWO_32;
    var sum := (shifted + h as int) % TWO_32;
    ModAddLeft(h as int * 32, h as int);
    ModAddLeft(h as int * 33, c as int);
    ((sum + c as int) % TWO_32) as uint32
  }

  lemma ModAddLeft(a: int, b: int)
    ensures (a % TWO_32 + b) % TWO_32 == (a + b) % TWO_32
  {
  }

  /** The seed of the MurmurHash3 call: djb2 started at 5381, mixed with the variable and the size. */
  function Seed(n: NodeInfo): (s: uint32)
    ensures s as int == ((5381 * 33 + n.variable as int) * 33 + n.sz as int) % TWO_32
  {
    var h := Djb2Step(5381, n.variable);
    ModMulAdd(5381 * 33 + n.variable as int, 33, n.sz as int);
    Djb2Step(h, n.sz)
  }

  lemma ModMulAdd(a: int, m: int, c: int)
    requires 0 <= a && 0 <= m && 0 <= c
    ensures ((a % TWO_32) * m + c) % TWO_32 == (a * m + c) % TWO_32
  {
    var q, r := a / TWO_32, a % TWO_32;
    assert a * m + c == (r * m + c) + (q * m) * TWO_32;
  }

  /** The four bytes of a 32-bit two's-complement integer, least significant first. */
  function Int32Bytes(v: int32): (b: seq<bv8>)
    ensures |b| == 4
  {
    var u := if v < 0 then v as int + TWO_32 else v as int;
    [(u % 256) as bv8, (u / 0x100 % 256) as bv8, (u / 0x1_0000 % 256) as bv8, (u / 0x100_0000 % 256) as bv8]
  }

  /** The bytes of an edge array as laid out in memory: value, weight, destination, per edge. */
  function EdgeBytes(edges: seq<EInfo>): (b: seq<bv8>)
    ensures |b| == 12 * |edges|
  {
    if edges == [] then []
    else
      var e := edges[0];
      Int32Bytes(e.val) + Int32Bytes(e.weight) + Int32Bytes(e.dest) + EdgeBytes(edges[1..])
  }

  /** MurmurHash3_x86_32 over (bytes, seed), taken as a deterministic black box. */
  type Murmur3 = (seq<bv8>, uint32) -> uint32

  /**
    The hash functor of the node cache: MurmurHash3 over the 12-byte images of
    all `sz` edges, seeded with the djb2 mix of the variable and the edge count.
  */
  function HashNode(a: NodeInfo, murmur: Murmur3): (h: uint32)
    requires WellFormed(a)
    ensures h == murmur(EdgeBytes(a.edges), Seed(a))
  {
    assert a.edges[..a.sz] == a.edges;
    murmur(EdgeBytes(a.edges[..a.sz]), Seed(a))
  }

  /** The hash is consistent with the equality: eqnode-equal records hash alike. */
  lemma HashRespectsEqNode(a: NodeInfo, b: NodeInfo, murmur: Murmur3)
    requires WellFormed(a) && WellFormed(b)
    requires SameContent(a, b)
    ensures HashNode(a, murmur) == HashNode(b, murmur)
  {
    SameContentIsEquality(a, b);
  }

  // ---------------------------------------------------------------------
  // Node views
  // ---------------------------------------------------------------------

  /** A read-only view of one node of one graph. */
  datatype EVNode = EVNode(g: LayerGraph?, idx: int)

  function ViewEq(x: EVNode, y: EVNode): (b: bool)
    ensures b <==> x == y
  {
    x.g == y.g && x.idx == y.idx
  }

  function ViewNe(x: EVNode, y: EVNode): (b: bool)
    ensures b <==> x != y
  {
    !ViewEq(x, y)
  }

  // ---------------------------------------------------------------------
  // Hash-consing
  // ---------------------------------------------------------------------

  predicate Distinct(nodes: seq<NodeInfo>)
  {
    forall i, j :: 0 <= i < j < |nodes| ==> nodes[i] != nodes[j]
  }

  /** The position of `n` in `nodes`, if it is there. */
  function Find(nodes: seq<NodeInfo>, n: NodeInfo): (r: Option<nat>)
    ensures r.Some? ==> r.value < |nodes| && nodes[r.value] == n
    ensures r.None? <==> n !in nodes
  {
    if nodes == [] then None
    else if nodes[0] == n then Some(0)
    else
      match Find(nodes[1..], n)
      case None => None
      case Some(i) => Some(i + 1)
  }

  /**
    Hash-consed insertion into an arena: the id of the stored record equal to
    `n`, or else `n` appended under a fresh id.
  */
  function HashCons(nodes: seq<NodeInfo>, n: NodeInfo): (r: (seq<NodeInfo>, NodeID))
    ensures |nodes| <= |r.0| && r.0[..|nodes|] == nodes
    ensures 0 <= r.1 < |r.0| && r.0[r.1] == n
    ensures n in nodes ==> r.0 == nodes
    ensures n !in nodes ==> r.0 == nodes + [n] && r.1 == |nodes|
  {
    match Find(nodes, n)
    case Some(i) => (nodes, i)
    case None => (nodes + [n], |nodes|)
  }

  /** Insertion keeps at most one stored record per content. */
  lemma HashConsKeepsDistinct(nodes: seq<NodeInfo>, n: NodeInfo)
    requires Distinct(nodes)
    ensures Distinct(HashCons(nodes, n).0)
  {
  }

  /** Inserting content equal to a stored record yields that record's id and stores nothing. */
  lemma HashConsCanonical(nodes: seq<NodeInfo>, a: NodeInfo, b: NodeInfo)
    requires WellFormed(a) && WellFormed(b) && SameContent(a, b)
    ensures var (n1, ia) := HashCons(nodes, a);
      HashCons(n1, b) == (n1, ia)
  {
    SameContentIsEquality(a, b);
    var (n1, ia) := HashCons(nodes, a);
    var f := Find(n1, b);
    assert f.Some?;
  }

  /** Inserting content not equal to an earlier insertion yields a different id. */
  lemma HashConsSeparates(nodes: seq<NodeInfo>, a: NodeInfo, b: NodeInfo)
    requires WellFormed(a) && WellFormed(b) && !SameContent(a, b)
    ensures var (n1, ia) := HashCons(nodes, a);
      HashCons(n1, b).1 != ia
  {
    SameContentIsEquality(a, b);
  }

  // ---------------------------------------------------------------------
  // The graph store
  // ---------------------------------------------------------------------

  /** The hash-consed node arena with its content cache. */
  class LayerGraph {
    var nodes: seq<NodeInfo>
    var cache: map<NodeInfo, NodeID>

    ghost predicate Valid()
      reads this
    {
      && (forall i :: 0 <= i < |nodes| ==> WellFormed(nodes[i]))
      && Distinct(nodes)
      && (forall n :: n in cache ==> 0 <= cache[n] < |nodes| && nodes[cache[n]] == n)
      && (forall i :: 0 <= i < |nodes| ==> nodes[i] in cache)
    }

    constructor ()
      ensures Valid() && nodes == [] && cache == map[]
    {
      nodes := [];
      cache := map[];
    }

    /** The candidate record `insert` builds from a level and an edge list. */
    static function Candidate(level: uint32, edges: seq<EInfo>): (n: NodeInfo)
      requires |edges| < TWO_32
      ensures WellFormed(n) && n.variable == level && n.edges == edges
    {
      NodeInfo(level, |edges| as uint32, edges)
    }

    method Insert(level: uint32, edges: seq<EInfo>) returns (id: NodeID)
      requires Valid()
      requires |edges| < TWO_32
      modifies this
      ensures Valid()
      ensures (nodes, id) == HashCons(old(nodes), Candidate(level, edges))
      ensures cache == old(cache)[Candidate(level, edges) := id]
      ensures forall i :: 0 <= i < |old(nodes)| && SameContent(old(nodes)[i], Candidate(level, edges)) ==>
        id == i && nodes == old(nodes)
    {
      var n := Candidate(level, edges);
      forall i | 0 <= i < |nodes| {
        SameContentIsEquality(nodes[i], n);
      }
      if n in cache {
        id := cache[n];
        assert n in nodes;
        assert Find(nodes, n) == Some(id) by {
          var f := Find(nodes, n).value;
          assert nodes[f] == nodes[id];
        }
        return;
      }
      assert n !in nodes;
      id := |nodes|;
      nodes := nodes + [n];
      cache := cache[n := id];
    }

    /** The end-of-traversal view. */
    function TravEnd(): (v: EVNode)
      ensures v.g == this && v.idx < 0
    {
      EVNode(this, -1)
    }
  }

  /** The end view never equals a view of a stored node. */
  lemma TravEndIsNoNode(g: LayerGraph, i: nat)
    ensures ViewNe(g.TravEnd(), EVNode(g, i))
  {
  }
}
