/**
 * The graph index builder of the automata environment: `derive_nodes` and its
 * nested `get_or_create` (crates/envs/ce-automata/src/lib.rs). Nodes are
 * created in order of first appearance among the edge endpoints (the source
 * before the target of each edge), and every edge index is appended to the
 * `outgoing` list of its source and the `ingoing` list of its target.
 */
module NodeIndex {
  import opened Wrappers
  import opened Collections
  import opened Graph

  // ---------------------------------------------------------------------------
  // Reference definitions
  // ---------------------------------------------------------------------------

  /** The endpoint names of the first `n` edges: from0, to0, from1, to1, ... */
  function Endpoints(edges: seq<Edge>, n: nat): seq<string>
    requires n <= |edges|
  {
    if n == 0 then [] else Endpoints(edges, n - 1) + [edges[n - 1].from, edges[n - 1].to]
  }

  /** The distinct elements of `s`, in order of first appearance. */
  function Dedup(s: seq<string>): seq<string>
  {
    if |s| == 0 then []
    else
      var d := Dedup(s[..|s| - 1]);
      if s[|s| - 1] in d then d else d + [s[|s| - 1]]
  }

  /** The indices below `n` of the edges that leave `name`, ascending. */
  function OutIndices(edges: seq<Edge>, name: string, n: nat): seq<nat>
    requires n <= |edges|
  {
    if n == 0 then []
    else OutIndices(edges, name, n - 1) + (if edges[n - 1].from == name then [n - 1] else [])
  }

  /** The indices below `n` of the edges that enter `name`, ascending. */
  function InIndices(edges: seq<Edge>, name: string, n: nat): seq<nat>
    requires n <= |edges|
  {
    if n == 0 then []
    else InIndices(edges, name, n - 1) + (if edges[n - 1].to == name then [n - 1] else [])
  }

  function Names(nodes: seq<Node>): (r: seq<string>)
    ensures |r| == |nodes| && forall i :: 0 <= i < |nodes| ==> r[i] == nodes[i].name
  {
    seq(|nodes|, i requires 0 <= i < |nodes| => nodes[i].name)
  }

  /** Every node's edge lists are exactly its edges among the first `n`. */
  ghost predicate ListsUpTo(nodes: seq<Node>, edges: seq<Edge>, n: nat)
    requires n <= |edges|
  {
    forall i :: 0 <= i < |nodes| ==>
      nodes[i].outgoing == OutIndices(edges, nodes[i].name, n)
      && nodes[i].ingoing == InIndices(edges, nodes[i].name, n)
  }

  /** `nodes` is the index `derive_nodes` builds from `edges`. */
  ghost predicate IndexedBy(nodes: seq<Node>, edges: seq<Edge>)
  {
    Names(nodes) == Dedup(Endpoints(edges, |edges|)) && ListsUpTo(nodes, edges, |edges|)
  }

  /** `index_of` maps exactly the node names, each to its node's position. */
  ghost predicate IndexOfConsistent(nodes: seq<Node>, indexOf: map<string, nat>)
  {
    && (forall n :: n in indexOf ==> indexOf[n] < |nodes| && nodes[indexOf[n]].name == n)
    && (forall i :: 0 <= i < |nodes| ==> nodes[i].name in indexOf && indexOf[nodes[i].name] == i)
  }

  /** The loop invariant of `derive_nodes` after `n` edges. */
  ghost predicate Built(nodes: seq<Node>, indexOf: map<string, nat>, edges: seq<Edge>, n: nat)
    requires n <= |edges|
  {
    Names(nodes) == Dedup(Endpoints(edges, n)) && ListsUpTo(nodes, edges, n) && IndexOfConsistent(nodes, indexOf)
  }

  /** Edge `k` appended to the outgoing list of node `fi` and the ingoing list of node `ti`. */
  function Record(nodes: seq<Node>, k: nat, fi: nat, ti: nat): (r: seq<Node>)
    requires fi < |nodes| && ti < |nodes|
    ensures |r| == |nodes|
  {
    var n1 := nodes[fi := nodes[fi].(outgoing := nodes[fi].outgoing + [k])];
    n1[ti := n1[ti].(ingoing := n1[ti].ingoing + [k])]
  }

  // ---------------------------------------------------------------------------
  // The builder
  // ---------------------------------------------------------------------------

  /** `get_or_create`: the index of the node named `name`, appending a fresh node if there is none. */
  method GetOrCreate(name: string, nodes: seq<Node>, indexOf: map<string, nat>)
    returns (idx: nat, nodes': seq<Node>, indexOf': map<string, nat>)
    ensures name in indexOf ==> idx == indexOf[name] && nodes' == nodes && indexOf' == indexOf
    ensures name !in indexOf ==>
      && idx == |nodes|
      && nodes' == nodes + [Node(name, [], [])]
      && indexOf' == indexOf[name := idx]
    ensures Created(name, nodes, indexOf, idx, nodes', indexOf')
  {
    if name in indexOf {
      return indexOf[name], nodes, indexOf;
    }
    idx := |nodes|;
    nodes' := nodes + [Node(name, [], [])];
    indexOf' := indexOf[name := idx];
  }

  method DeriveNodes(edges: seq<Edge>) returns (nodes: seq<Node>)
    ensures Names(nodes) == Dedup(Endpoints(edges, |edges|))
    ensures ListsUpTo(nodes, edges, |edges|)
  {
    nodes := [];
    var indexOf: map<string, nat> := map[];
    for edgeId := 0 to |edges|
      invariant Built(nodes, indexOf, edges, edgeId)
    {
      nodes, indexOf := AddEdge(edges, edgeId, nodes, indexOf);
    }
  }

  /** The body of the loop of `derive_nodes`: look up or create both endpoints of edge `k`, then record it. */
  method AddEdge(edges: seq<Edge>, k: nat, nodes0: seq<Node>, indexOf0: map<string, nat>)
    returns (nodes: seq<Node>, indexOf: map<string, nat>)
    requires k < |edges| && Built(nodes0, indexOf0, edges, k)
    ensures Built(nodes, indexOf, edges, k + 1)
  {
    var edge := edges[k];
    var fromIdx, toIdx;
    var nodes1, indexOf1;
    fromIdx, nodes1, indexOf1 := GetOrCreate(edge.from, nodes0, indexOf0);
    toIdx, nodes, indexOf := GetOrCreate(edge.to, nodes1, indexOf1);
    EdgeStep(edges, k, nodes0, indexOf0, fromIdx, nodes1, indexOf1, toIdx, nodes, indexOf);
    ghost var nodes2 := nodes;
    nodes := nodes[fromIdx := nodes[fromIdx].(outgoing := nodes[fromIdx].outgoing + [k])];
    nodes := nodes[toIdx := nodes[toIdx].(ingoing := nodes[toIdx].ingoing + [k])];
    assert nodes == Record(nodes2, k, fromIdx, toIdx);
  }

  // ---------------------------------------------------------------------------
  // Proof steps of the builder
  // ---------------------------------------------------------------------------

  lemma {:induction false} DedupProperties(s: seq<string>)
    ensures NoDuplicates(Dedup(s))
    ensures forall x :: x in Dedup(s) <==> x in s
  {
    if |s| > 0 {
      DedupProperties(s[..|s| - 1]);
      assert s == s[..|s| - 1] + [s[|s| - 1]];
    }
  }

  lemma {:induction false} EndpointsMembership(edges: seq<Edge>, n: nat, x: string)
    requires n <= |edges|
    ensures x in Endpoints(edges, n) <==> exists k :: 0 <= k < n && (edges[k].from == x || edges[k].to == x)
  {
    if n > 0 {
      EndpointsMembership(edges, n - 1, x);
    }
  }

  lemma {:induction false} OutIndicesMembership(edges: seq<Edge>, name: string, n: nat)
    requires n <= |edges|
    ensures forall k: nat :: k in OutIndices(edges, name, n) <==> k < n && edges[k].from == name
  {
    if n > 0 {
      OutIndicesMembership(edges, name, n - 1);
    }
  }

  lemma {:induction false} InIndicesMembership(edges: seq<Edge>, name: string, n: nat)
    requires n <= |edges|
    ensures forall k: nat :: k in InIndices(edges, name, n) <==> k < n && edges[k].to == name
  {
    if n > 0 {
      InIndicesMembership(edges, name, n - 1);
    }
  }

  lemma {:induction false} OutIndicesAscending(edges: seq<Edge>, name: string, n: nat)
    requires n <= |edges|
    ensures forall a, b :: 0 <= a < b < |OutIndices(edges, name, n)| ==>
      OutIndices(edges, name, n)[a] < OutIndices(edges, name, n)[b]
  {
    if n > 0 {
      OutIndicesAscending(edges, name, n - 1);
      OutIndicesMembership(edges, name, n - 1);
      var o := OutIndices(edges, name, n - 1);
      assert forall a :: 0 <= a < |o| ==> o[a] in o;
    }
  }

  lemma {:induction false} InIndicesAscending(edges: seq<Edge>, name: string, n: nat)
    requires n <= |edges|
    ensures forall a, b :: 0 <= a < b < |InIndices(edges, name, n)| ==>
      InIndices(edges, name, n)[a] < InIndices(edges, name, n)[b]
  {
    if n > 0 {
      InIndicesAscending(edges, name, n - 1);
      InIndicesMembership(edges, name, n - 1);
      var i := InIndices(edges, name, n - 1);
      assert forall a :: 0 <= a < |i| ==> i[a] in i;
    }
  }

  /** A name that is not yet an endpoint has no edges yet. */
  lemma {:induction false} NoEndpointNoIndices(edges: seq<Edge>, name: string, n: nat)
    requires n <= |edges|
    requires name !in Endpoints(edges, n)
    ensures OutIndices(edges, name, n) == [] && InIndices(edges, name, n) == []
  {
    if n > 0 {
      NoEndpointNoIndices(edges, name, n - 1);
    }
  }

  /** What `get_or_create(name)` returns, as `GetOrCreate` ensures it. */
  ghost predicate Created(name: string, nodes: seq<Node>, indexOf: map<string, nat>,
                          idx: nat, nodes': seq<Node>, indexOf': map<string, nat>)
  {
    && (name in indexOf ==> idx == indexOf[name] && nodes' == nodes && indexOf' == indexOf)
    && (name !in indexOf ==> idx == |nodes| && nodes' == nodes + [Node(name, [], [])] && indexOf' == indexOf[name := idx])
  }

  /** The index holds one node per name of `ends` and the edges lists of the first `k` edges. */
  ghost predicate Covers(nodes: seq<Node>, indexOf: map<string, nat>, edges: seq<Edge>, k: nat, ends: seq<string>)
    requires k <= |edges|
  {
    && (forall x :: x in Endpoints(edges, k) ==> x in ends)
    && Names(nodes) == Dedup(ends) && ListsUpTo(nodes, edges, k) && IndexOfConsistent(nodes, indexOf)
  }

  /**
   * After `get_or_create(name)` the index still describes the first `k` edges,
   * covers `ends + [name]`, and `idx` is the node named `name`.
   */
  lemma CreateStep(nodes: seq<Node>, indexOf: map<string, nat>, edges: seq<Edge>, k: nat, ends: seq<string>,
                   name: string, idx: nat, nodes': seq<Node>, indexOf': map<string, nat>)
    requires k <= |edges|
    requires Covers(nodes, indexOf, edges, k, ends)
    requires Created(name, nodes, indexOf, idx, nodes', indexOf')
    ensures Covers(nodes', indexOf', edges, k, ends + [name])
    ensures idx < |nodes'| && nodes'[idx].name == name
    ensures nodes <= nodes'
  {
    if name in indexOf {
      CreateFound(nodes, indexOf, edges, k, ends, name);
    } else {
      CreateNew(nodes, indexOf, edges, k, ends, name);
    }
  }

  lemma CreateFound(nodes: seq<Node>, indexOf: map<string, nat>, edges: seq<Edge>, k: nat, ends: seq<string>,
                    name: string)
    requires k <= |edges|
    requires Covers(nodes, indexOf, edges, k, ends)
    requires name in indexOf
    ensures Covers(nodes, indexOf, edges, k, ends + [name])
  {
    DedupProperties(ends);
    assert (ends + [name])[..|ends|] == ends;
    var i := indexOf[name];
    assert Names(nodes)[i] == name;
  }

  lemma CreateNew(nodes: seq<Node>, indexOf: map<string, nat>, edges: seq<Edge>, k: nat, ends: seq<string>,
                  name: string)
    requires k <= |edges|
    requires Covers(nodes, indexOf, edges, k, ends)
    requires name !in indexOf
    ensures Covers(nodes + [Node(name, [], [])], indexOf[name := |nodes|], edges, k, ends + [name])
  {
    var nodes' := nodes + [Node(name, [], [])];
    DedupProperties(ends);
    assert (ends + [name])[..|ends|] == ends;
    assert name !in ends;
    NoEndpointNoIndices(edges, name, k);
    assert forall i :: 0 <= i < |nodes| ==> nodes'[i] == nodes[i];
    assert Names(nodes') == Names(nodes) + [name];
  }

  /** One iteration of the loop of `derive_nodes`: two `get_or_create` calls, then recording edge `k`. */
  lemma EdgeStep(edges: seq<Edge>, k: nat,
                 nodes0: seq<Node>, indexOf0: map<string, nat>,
                 fi: nat, nodes1: seq<Node>, indexOf1: map<string, nat>,
                 ti: nat, nodes2: seq<Node>, indexOf2: map<string, nat>)
    requires k < |edges|
    requires Built(nodes0, indexOf0, edges, k)
    requires Created(edges[k].from, nodes0, indexOf0, fi, nodes1, indexOf1)
    requires Created(edges[k].to, nodes1, indexOf1, ti, nodes2, indexOf2)
    ensures fi < |nodes2| && ti < |nodes2|
    ensures Built(Record(nodes2, k, fi, ti), indexOf2, edges, k + 1)
  {
    var ends := Endpoints(edges, k);
    var e := edges[k];
    CreateStep(nodes0, indexOf0, edges, k, ends, e.from, fi, nodes1, indexOf1);
    CreateStep(nodes1, indexOf1, edges, k, ends + [e.from], e.to, ti, nodes2, indexOf2);
    assert nodes2[fi] == nodes1[fi];
    assert Endpoints(edges, k + 1) == ends + [e.from] + [e.to];
    DedupProperties(Endpoints(edges, k + 1));
    RecordStep(nodes2, indexOf2, edges, k, fi, ti);
  }

  /** Appending edge `k` to its endpoints' lists extends the index from `k` to `k + 1` edges. */
  lemma RecordStep(nodes: seq<Node>, indexOf: map<string, nat>, edges: seq<Edge>, k: nat, fi: nat, ti: nat)
    requires k < |edges|
    requires ListsUpTo(nodes, edges, k) && NoDuplicates(Names(nodes)) && IndexOfConsistent(nodes, indexOf)
    requires fi < |nodes| && nodes[fi].name == edges[k].from
    requires ti < |nodes| && nodes[ti].name == edges[k].to
    ensures Names(Record(nodes, k, fi, ti)) == Names(nodes)
    ensures ListsUpTo(Record(nodes, k, fi, ti), edges, k + 1)
    ensures IndexOfConsistent(Record(nodes, k, fi, ti), indexOf)
  {
    var n2 := Record(nodes, k, fi, ti);
    forall i | 0 <= i < |n2|
      ensures n2[i].name == nodes[i].name
      ensures n2[i].outgoing == OutIndices(edges, n2[i].name, k + 1)
      ensures n2[i].ingoing == InIndices(edges, n2[i].name, k + 1)
    {
      assert i != fi ==> Names(nodes)[i] != edges[k].from;
      assert i != ti ==> Names(nodes)[i] != edges[k].to;
    }
    assert Names(n2) == Names(nodes);
  }

  lemma {:induction false} DedupFirstAppearance(s: seq<string>)
    ensures forall i, j, p :: 0 <= i < j < |Dedup(s)| && 0 <= p < |s| && s[p] == Dedup(s)[j] ==> Dedup(s)[i] in s[..p]
  {
    if |s| > 0 {
      var t := s[..|s| - 1];
      var d := Dedup(t);
      var x := s[|s| - 1];
      DedupFirstAppearance(t);
      DedupProperties(t);
      forall i, j, p | 0 <= i < j < |Dedup(s)| && 0 <= p < |s| && s[p] == Dedup(s)[j]
        ensures Dedup(s)[i] in s[..p]
      {
        if j < |d| {
          if p < |s| - 1 {
            assert t[p] == s[p] && t[..p] == s[..p];
          } else {
            assert d[j] in t;
            var q :| 0 <= q < |t| && t[q] == d[j];
            assert d[i] in t[..q];
            assert t[..q] == s[..q];
            assert s[..q] <= s[..p];
          }
        } else {
          assert x !in t;
          if p < |s| - 1 {
            assert false;
          }
          assert s[..p] == t;
          assert d[i] in d;
        }
      }
    }
  }

  // ---------------------------------------------------------------------------
  // What `derive_nodes` guarantees
  // ---------------------------------------------------------------------------

  /** The node names are pairwise distinct. */
  lemma DeriveNodesDistinct(nodes: seq<Node>, edges: seq<Edge>)
    requires IndexedBy(nodes, edges)
    ensures forall i, j :: 0 <= i < j < |nodes| ==> nodes[i].name != nodes[j].name
  {
    DedupProperties(Endpoints(edges, |edges|));
    assert forall i :: 0 <= i < |nodes| ==> nodes[i].name == Names(nodes)[i];
  }

  /** The node names are exactly the names that occur as an endpoint of some edge. */
  lemma DeriveNodesNames(nodes: seq<Node>, edges: seq<Edge>, x: string)
    requires IndexedBy(nodes, edges)
    ensures (exists i :: 0 <= i < |nodes| && nodes[i].name == x)
        <==> (exists k :: 0 <= k < |edges| && (edges[k].from == x || edges[k].to == x))
  {
    DedupProperties(Endpoints(edges, |edges|));
    EndpointsMembership(edges, |edges|, x);
    if x in Names(nodes) {
      var i :| 0 <= i < |nodes| && Names(nodes)[i] == x;
    }
  }

  /**
   * First-appearance order: when node i comes before node j, some endpoint in
   * the sequence from0, to0, from1, to1, ... before every occurrence of node
   * j's name is node i's name.
   */
  lemma DeriveNodesOrder(nodes: seq<Node>, edges: seq<Edge>)
    requires IndexedBy(nodes, edges)
    ensures var ends := Endpoints(edges, |edges|);
      forall i, j, p :: 0 <= i < j < |nodes| && 0 <= p < |ends| && ends[p] == nodes[j].name ==>
        nodes[i].name in ends[..p]
  {
    var ends := Endpoints(edges, |edges|);
    DedupFirstAppearance(ends);
    forall i, j, p | 0 <= i < j < |nodes| && 0 <= p < |ends| && ends[p] == nodes[j].name
      ensures nodes[i].name in ends[..p]
    {
      assert Dedup(ends)[j] == nodes[j].name && Dedup(ends)[i] == nodes[i].name;
    }
  }

  /**
   * Edge bookkeeping: index k is in the outgoing list of node i exactly when
   * edge k leaves node i's name, and in its ingoing list exactly when edge k
   * enters it; both lists are strictly ascending, so no index occurs twice.
   */
  lemma DeriveNodesBookkeeping(nodes: seq<Node>, edges: seq<Edge>, i: nat)
    requires IndexedBy(nodes, edges)
    requires i < |nodes|
    ensures forall k: nat :: k in nodes[i].outgoing <==> k < |edges| && edges[k].from == nodes[i].name
    ensures forall k: nat :: k in nodes[i].ingoing <==> k < |edges| && edges[k].to == nodes[i].name
    ensures forall a, b :: 0 <= a < b < |nodes[i].outgoing| ==> nodes[i].outgoing[a] < nodes[i].outgoing[b]
    ensures forall a, b :: 0 <= a < b < |nodes[i].ingoing| ==> nodes[i].ingoing[a] < nodes[i].ingoing[b]
  {
    OutIndicesMembership(edges, nodes[i].name, |edges|);
    InIndicesMembership(edges, nodes[i].name, |edges|);
    OutIndicesAscending(edges, nodes[i].name, |edges|);
    InIndicesAscending(edges, nodes[i].name, |edges|);
  }

  /** Every edge has exactly one node for its source and one for its target, and is recorded there. */
  lemma DeriveNodesEdgeHome(nodes: seq<Node>, edges: seq<Edge>, k: nat)
    requires IndexedBy(nodes, edges)
    requires k < |edges|
    ensures Position(nodes, edges[k].from).Some? && k in nodes[Position(nodes, edges[k].from).value].outgoing
    ensures Position(nodes, edges[k].to).Some? && k in nodes[Position(nodes, edges[k].to).value].ingoing
    ensures forall i :: 0 <= i < |nodes| && k in nodes[i].outgoing ==> i == Position(nodes, edges[k].from).value
    ensures forall i :: 0 <= i < |nodes| && k in nodes[i].ingoing ==> i == Position(nodes, edges[k].to).value
  {
    DeriveNodesNames(nodes, edges, edges[k].from);
    DeriveNodesNames(nodes, edges, edges[k].to);
    DeriveNodesDistinct(nodes, edges);
    var f := Position(nodes, edges[k].from).value;
    var t := Position(nodes, edges[k].to).value;
    DeriveNodesBookkeeping(nodes, edges, f);
    DeriveNodesBookkeeping(nodes, edges, t);
    forall i | 0 <= i < |nodes| && k in nodes[i].outgoing
      ensures i == f
    {
      DeriveNodesBookkeeping(nodes, edges, i);
    }
    forall i | 0 <= i < |nodes| && k in nodes[i].ingoing
      ensures i == t
    {
      DeriveNodesBookkeeping(nodes, edges, i);
    }
  }

  /** With distinct names, looking a node's name up finds that node. */
  lemma PositionOfName(nodes: seq<Node>, edges: seq<Edge>, i: nat)
    requires IndexedBy(nodes, edges)
    requires i < |nodes|
    ensures Position(nodes, nodes[i].name) == Some(i)
  {
    DeriveNodesDistinct(nodes, edges);
  }

  /** A node is a root exactly when no edge enters it, and accepting exactly when no edge leaves it. */
  lemma DeriveNodesRootAccepting(nodes: seq<Node>, edges: seq<Edge>, i: nat)
    requires IndexedBy(nodes, edges)
    requires i < |nodes|
    ensures nodes[i].IsRoot() <==> forall k :: 0 <= k < |edges| ==> edges[k].to != nodes[i].name
    ensures nodes[i].IsAccepting() <==> forall k :: 0 <= k < |edges| ==> edges[k].from != nodes[i].name
  {
    DeriveNodesBookkeeping(nodes, edges, i);
    if !nodes[i].IsRoot() {
      assert nodes[i].ingoing[0] in nodes[i].ingoing;
    }
    if !nodes[i].IsAccepting() {
      assert nodes[i].outgoing[0] in nodes[i].outgoing;
    }
  }

  /** The index `derive_nodes` builds is one `transition` and `compute_live` run on without panicking. */
  lemma DeriveNodesWellFormed(nodes: seq<Node>, edges: seq<Edge>)
    requires IndexedBy(nodes, edges)
    ensures WellFormed(nodes, edges)
  {
    forall i | 0 <= i < |nodes|
      ensures forall e :: e in nodes[i].outgoing ==> e < |edges|
      ensures forall e :: e in nodes[i].ingoing ==> e < |edges|
    {
      DeriveNodesBookkeeping(nodes, edges, i);
    }
    forall i, e | 0 <= i < |nodes| && e in nodes[i].ingoing
      ensures Position(nodes, edges[e].from).Some?
    {
      DeriveNodesEdgeHome(nodes, edges, e);
    }
  }

  /**
   * The index `derive_nodes` builds, as a value: one node per distinct
   * endpoint name in first-appearance order, with its edge lists.
   */
  function NodesOf(edges: seq<Edge>): (r: seq<Node>)
    ensures IndexedBy(r, edges) && WellFormed(r, edges)
  {
    var names := Dedup(Endpoints(edges, |edges|));
    var r := seq(|names|, i requires 0 <= i < |names| =>
      Node(names[i], InIndices(edges, names[i], |edges|), OutIndices(edges, names[i], |edges|)));
    assert Names(r) == names;
    DeriveNodesWellFormed(r, edges);
    r
  }

  /** There is only one index for a list of edges, so `derive_nodes` returns `NodesOf`. */
  lemma IndexedByUnique(nodes: seq<Node>, edges: seq<Edge>)
    requires IndexedBy(nodes, edges)
    ensures nodes == NodesOf(edges)
  {
    var r := NodesOf(edges);
    assert |nodes| == |Names(nodes)| == |Names(r)| == |r|;
    forall i | 0 <= i < |nodes|
      ensures nodes[i] == r[i]
    {
      assert nodes[i].name == Names(nodes)[i] == Names(r)[i] == r[i].name;
    }
  }

  lemma {:induction false} DedupHead(s: seq<string>)
    requires |s| > 0
    ensures |Dedup(s)| > 0 && Dedup(s)[0] == s[0]
  {
    if |s| > 1 {
      DedupHead(s[..|s| - 1]);
    }
  }

  lemma {:induction false} EndpointsHead(edges: seq<Edge>, n: nat)
    requires 0 < n <= |edges|
    ensures |Endpoints(edges, n)| > 0 && Endpoints(edges, n)[0] == edges[0].from
  {
    if n > 1 {
      EndpointsHead(edges, n - 1);
    }
  }

  /** The first node is the source of the first edge. */
  lemma FirstNodeIsFirstSource(nodes: seq<Node>, edges: seq<Edge>)
    requires IndexedBy(nodes, edges)
    requires |edges| > 0
    ensures |nodes| > 0 && nodes[0].name == edges[0].from
  {
    EndpointsHead(edges, |edges|);
    DedupHead(Endpoints(edges, |edges|));
    assert nodes[0].name == Names(nodes)[0];
  }
}
