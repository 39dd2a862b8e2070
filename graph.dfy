/**
 * The graph model of the automata environment (crates/envs/ce-automata/src/lib.rs):
 * labelled edges between named states, and nodes that record the indices of
 * their incoming and outgoing edges. Acceptance and rootness are derived from
 * those index lists, never stored.
 */
module Graph {
  import opened Wrappers

  /** A labelled transition `from -lbl-> to` (the source field `label`; `label` is a Dafny keyword). */
  datatype Edge = Edge(from: string, to: string, lbl: string)

  /** A state: its name and the indices (into the edge list) of its incoming and outgoing edges. */
  datatype Node = Node(name: string, ingoing: seq<nat>, outgoing: seq<nat>)
  {
    /** Accepting means: no outgoing edge. */
    predicate IsAccepting() { |outgoing| == 0 }

    /** A root is a node without incoming edges. */
    predicate IsRoot() { |ingoing| == 0 }
  }

  /** Rust's `Iterator::position`: the index of the first element that satisfies `p`. */
  function FirstIndex<T>(s: seq<T>, p: T -> bool): (r: Option<nat>)
    ensures r.Some? ==> r.value < |s| && p(s[r.value])
    ensures r.Some? ==> forall j :: 0 <= j < r.value ==> !p(s[j])
    ensures r.None? <==> forall j :: 0 <= j < |s| ==> !p(s[j])
  {
    if |s| == 0 then None
    else if p(s[0]) then Some(0)
    else match FirstIndex(s[1..], p)
      case None => None
      case Some(k) => Some(k + 1)
  }

  /** `nodes.iter().position(|n| n.name == name)`: the first node with that name. */
  function Position(nodes: seq<Node>, name: string): Option<nat>
  {
    FirstIndex(nodes, (n: Node) => n.name == name)
  }

  /** The index `Position` finds names that node and no earlier node has the name; `None` when no node has it. */
  lemma PositionFirstMatch(nodes: seq<Node>, name: string)
    ensures var r := Position(nodes, name);
      && (r.Some? ==> r.value < |nodes| && nodes[r.value].name == name)
      && (r.Some? ==> forall j :: 0 <= j < r.value ==> nodes[j].name != name)
      && (r.None? <==> forall j :: 0 <= j < |nodes| ==> nodes[j].name != name)
  {
    var p := (n: Node) => n.name == name;
    assert forall j :: 0 <= j < |nodes| ==> (p(nodes[j]) <==> nodes[j].name == name);
  }

  /** `nodes.iter().position(|n| n.is_root())`: the first root. */
  function FirstRoot(nodes: seq<Node>): Option<nat>
  {
    FirstIndex(nodes, (n: Node) => n.IsRoot())
  }

  /** The index `FirstRoot` finds is a root and no earlier node is; `None` when no node is a root. */
  lemma FirstRootFirstMatch(nodes: seq<Node>)
    ensures var r := FirstRoot(nodes);
      && (r.Some? ==> r.value < |nodes| && nodes[r.value].IsRoot())
      && (r.Some? ==> forall j :: 0 <= j < r.value ==> !nodes[j].IsRoot())
      && (r.None? <==> forall j :: 0 <= j < |nodes| ==> !nodes[j].IsRoot())
  {
    var p := (n: Node) => n.IsRoot();
    assert forall j :: 0 <= j < |nodes| ==> (p(nodes[j]) <==> nodes[j].IsRoot());
  }

  /** Every edge index a node records is an index into `edges` (otherwise `edges[e]` panics). */
  ghost predicate EdgeIndicesValid(nodes: seq<Node>, edges: seq<Edge>)
  {
    && (forall i, e :: 0 <= i < |nodes| && e in nodes[i].outgoing ==> e < |edges|)
    && (forall i, e :: 0 <= i < |nodes| && e in nodes[i].ingoing ==> e < |edges|)
  }

  /**
   * The source of every incoming edge names some node (otherwise the `unwrap` in
   * `compute_live` panics).
   */
  ghost predicate SourcesResolve(nodes: seq<Node>, edges: seq<Edge>)
    requires EdgeIndicesValid(nodes, edges)
  {
    forall i, e :: 0 <= i < |nodes| && e in nodes[i].ingoing ==> Position(nodes, edges[e].from).Some?
  }

  /** The inputs `transition` and `compute_live` run on without panicking. */
  ghost predicate WellFormed(nodes: seq<Node>, edges: seq<Edge>)
  {
    EdgeIndicesValid(nodes, edges) && SourcesResolve(nodes, edges)
  }
}
