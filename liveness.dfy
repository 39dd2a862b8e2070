/**
 * The liveness analysis of the automata environment: `compute_live`
 * (crates/envs/ce-automata/src/lib.rs). Starting from every accepting node
 * (no outgoing edge), a stack worklist walks incoming edges backwards and marks
 * their sources live. A source is resolved by name with `position`, which
 * picks the first node of that name.
 */
module Liveness {
  import opened Wrappers
  import opened Collections
  import opened Graph
  import NodeIndex

  /**
   * `u` is what `compute_live` finds as the source of some incoming edge of `s`:
   * the first node named like that edge's source.
   */
  ghost predicate PredecessorVia(nodes: seq<Node>, edges: seq<Edge>, s: nat, u: nat)
  {
    s < |nodes| && exists e :: e in nodes[s].ingoing && e < |edges| && Position(nodes, edges[e].from) == Some(u)
  }

  /** Following predecessor steps backwards, `u` is at most `k` steps before an accepting node. */
  ghost predicate LiveWithin(nodes: seq<Node>, edges: seq<Edge>, u: nat, k: nat)
    decreases k
  {
    u < |nodes| &&
    (nodes[u].IsAccepting()
     || (k > 0 && exists s: nat :: PredecessorVia(nodes, edges, s, u) && LiveWithin(nodes, edges, s, k - 1)))
  }

  /** Some accepting node can be reached from `u`. */
  ghost predicate IsLive(nodes: seq<Node>, edges: seq<Edge>, u: nat)
  {
    exists k :: LiveWithin(nodes, edges, u, k)
  }

  /** Every incoming edge of `s` has a live source. */
  ghost predicate Closed(nodes: seq<Node>, edges: seq<Edge>, live: seq<bool>, s: nat)
    requires WellFormed(nodes, edges) && s < |nodes| && |live| == |nodes|
  {
    forall e :: e in nodes[s].ingoing ==> live[Position(nodes, edges[e].from).value]
  }

  function CountFalse(live: seq<bool>): nat
  {
    if |live| == 0 then 0 else (if live[0] then 0 else 1) + CountFalse(live[1..])
  }

  lemma {:induction false} CountFalseMark(live: seq<bool>, u: nat)
    requires u < |live| && !live[u]
    ensures CountFalse(live[u := true]) == CountFalse(live) - 1
  {
    if u > 0 {
      assert live[u := true][1..] == live[1..][u - 1 := true];
      CountFalseMark(live[1..], u - 1);
    } else {
      assert live[u := true][1..] == live[1..];
    }
  }

  /**
   * The bookkeeping of the worklist: every node on the stack is marked, `pushed`
   * lists each marked node once, and every marked node `u` is at most
   * `depth[u]` predecessor steps before an accepting node.
   */
  ghost predicate Worklist(nodes: seq<Node>, edges: seq<Edge>, live: seq<bool>, stack: seq<nat>, pushed: seq<nat>, depth: seq<nat>)
  {
    && |live| == |nodes| && |depth| == |nodes|
    && (forall k :: 0 <= k < |stack| ==> stack[k] < |nodes| && live[stack[k]])
    && NoDuplicates(pushed)
    && (forall u: nat :: u in pushed <==> u < |nodes| && live[u])
    && (forall u {:trigger depth[u]} :: 0 <= u < |nodes| && live[u] ==> LiveWithin(nodes, edges, u, depth[u]))
  }

  /**
   * `compute_live`. The result is exactly the set of live nodes: accepting
   * nodes are live, the set is closed under predecessors, and every node in it
   * reaches an accepting node. The ghost result `pushed` lists the nodes in the
   * order they were pushed on the stack: each live node exactly once.
   */
  method ComputeLive(nodes: seq<Node>, edges: seq<Edge>) returns (live: seq<bool>, ghost pushed: seq<nat>)
    requires WellFormed(nodes, edges)
    ensures |live| == |nodes|
    ensures forall u :: 0 <= u < |nodes| && nodes[u].IsAccepting() ==> live[u]
    ensures forall s: nat, u: nat :: s < |nodes| && live[s] && PredecessorVia(nodes, edges, s, u) ==> live[u]
    ensures forall u :: 0 <= u < |nodes| ==> (live[u] <==> IsLive(nodes, edges, u))
    ensures NoDuplicates(pushed)
    ensures forall u: nat :: u in pushed <==> u < |nodes| && live[u]
  {
    var stack;
    ghost var depth;
    live, stack, pushed, depth := PushAccepting(nodes, edges);

    while |stack| > 0
      invariant Worklist(nodes, edges, live, stack, pushed, depth)
      invariant forall u :: 0 <= u < |nodes| && nodes[u].IsAccepting() ==> live[u]
      invariant forall t :: 0 <= t < |nodes| && live[t] && t !in stack ==> Closed(nodes, edges, live, t)
      decreases CountFalse(live), |stack|
    {
      var s := stack[|stack| - 1];
      ghost var live0, stack0 := live, stack;
      stack := stack[..|stack| - 1];
      live, stack, pushed, depth := PushSources(nodes, edges, s, live, stack, pushed, depth);
      PopStep(nodes, edges, s, live0, stack0, live, stack);
    }

    forall u: nat | u < |nodes| && live[u]
      ensures IsLive(nodes, edges, u)
    {
      assert LiveWithin(nodes, edges, u, depth[u]);
    }
    WorklistDone(nodes, edges, live);
  }

  /** The first loop of `compute_live`: every accepting node is marked and pushed, in index order. */
  method PushAccepting(nodes: seq<Node>, edges: seq<Edge>)
    returns (live: seq<bool>, stack: seq<nat>, ghost pushed: seq<nat>, ghost depth: seq<nat>)
    ensures Worklist(nodes, edges, live, stack, pushed, depth)
    ensures forall u :: 0 <= u < |nodes| ==> (live[u] <==> nodes[u].IsAccepting())
    ensures stack == pushed
    ensures forall a, b :: 0 <= a < b < |stack| ==> stack[a] < stack[b]
  {
    live := seq(|nodes|, _ => false);
    stack := [];
    depth := seq(|nodes|, _ => 0);
    pushed := [];
    for i := 0 to |nodes|
      invariant Worklist(nodes, edges, live, stack, pushed, depth)
      invariant forall u :: 0 <= u < i ==> (live[u] <==> nodes[u].IsAccepting())
      invariant forall u :: i <= u < |nodes| ==> !live[u]
      invariant stack == pushed
      invariant forall a :: 0 <= a < |stack| ==> stack[a] < i
      invariant forall a, b :: 0 <= a < b < |stack| ==> stack[a] < stack[b]
    {
      if nodes[i].IsAccepting() {
        assert i !in pushed;
        live := live[i := true];
        stack := stack + [i];
        pushed := pushed + [i];
      }
    }
  }

  /**
   * The inner loop of `compute_live`: every unmarked source of an incoming edge
   * of `s` is marked and pushed. Afterwards `s` is closed, the old stack is a
   * prefix of the new one and every newly marked node is on it.
   */
  method PushSources(nodes: seq<Node>, edges: seq<Edge>, s: nat, live0: seq<bool>, stack0: seq<nat>,
                     ghost pushed0: seq<nat>, ghost depth0: seq<nat>)
    returns (live: seq<bool>, stack: seq<nat>, ghost pushed: seq<nat>, ghost depth: seq<nat>)
    requires WellFormed(nodes, edges) && s < |nodes|
    requires Worklist(nodes, edges, live0, stack0, pushed0, depth0) && live0[s]
    ensures Worklist(nodes, edges, live, stack, pushed, depth)
    ensures Grown(live0, stack0, live, stack)
    ensures Closed(nodes, edges, live, s)
  {
    live, stack, pushed, depth := live0, stack0, pushed0, depth0;
    var ingoing := nodes[s].ingoing;
    assert forall jj :: 0 <= jj < |ingoing| ==> ingoing[jj] in nodes[s].ingoing;
    for j := 0 to |ingoing|
      invariant Worklist(nodes, edges, live, stack, pushed, depth)
      invariant Grown(live0, stack0, live, stack)
      invariant forall jj :: 0 <= jj < j ==> live[Position(nodes, edges[ingoing[jj]].from).value]
    {
      var e := ingoing[j];
      var from := Position(nodes, edges[e].from).value;
      if !live[from] {
        assert PredecessorVia(nodes, edges, s, from);
        MarkSource(nodes, edges, s, from, live, stack, pushed, depth);
        GrownStep(live0, stack0, live, stack, from);
        live := live[from := true];
        depth := depth[from := depth[s] + 1];
        stack := stack + [from];
        pushed := pushed + [from];
      }
    }
    forall e | e in nodes[s].ingoing
      ensures live[Position(nodes, edges[e].from).value]
    {
      var jj :| 0 <= jj < |ingoing| && ingoing[jj] == e;
    }
  }

  /**
   * From (`live0`, `stack0`) to (`live`, `stack`) nodes were only marked and
   * pushed: marks are kept, each newly marked node is on the stack, the old
   * stack is a prefix of the new one, and the stack grew only if fewer nodes
   * are unmarked.
   */
  ghost predicate Grown(live0: seq<bool>, stack0: seq<nat>, live: seq<bool>, stack: seq<nat>)
  {
    && |live| == |live0|
    && (forall u :: 0 <= u < |live0| && live0[u] ==> live[u])
    && (forall u :: 0 <= u < |live| && live[u] && !live0[u] ==> u in stack)
    && |stack0| <= |stack| && stack[..|stack0|] == stack0
    && CountFalse(live) <= CountFalse(live0)
    && (CountFalse(live) == CountFalse(live0) ==> stack == stack0)
  }

  lemma GrownStep(live0: seq<bool>, stack0: seq<nat>, live: seq<bool>, stack: seq<nat>, u: nat)
    requires Grown(live0, stack0, live, stack) && u < |live| && !live[u]
    ensures Grown(live0, stack0, live[u := true], stack + [u])
  {
    CountFalseMark(live, u);
    assert (stack + [u])[..|stack0|] == stack[..|stack0|];
  }

  /** Marking and pushing an unmarked predecessor of a marked node keeps the worklist bookkeeping. */
  lemma MarkSource(nodes: seq<Node>, edges: seq<Edge>, s: nat, u: nat,
                   live: seq<bool>, stack: seq<nat>, pushed: seq<nat>, depth: seq<nat>)
    requires Worklist(nodes, edges, live, stack, pushed, depth)
    requires s < |nodes| && live[s] && PredecessorVia(nodes, edges, s, u) && u < |nodes| && !live[u]
    ensures Worklist(nodes, edges, live[u := true], stack + [u], pushed + [u], depth[u := depth[s] + 1])
    ensures CountFalse(live[u := true]) == CountFalse(live) - 1
  {
    assert u !in pushed;
    CountFalseMark(live, u);
    assert LiveWithin(nodes, edges, u, depth[s] + 1);
  }

  /**
   * After popping `s` and pushing its unmarked sources, every marked node off
   * the stack is closed: `s` by `PushSources`, the others as before.
   */
  lemma PopStep(nodes: seq<Node>, edges: seq<Edge>, s: nat, live0: seq<bool>, stack0: seq<nat>,
                live: seq<bool>, stack: seq<nat>)
    requires WellFormed(nodes, edges) && s < |nodes| && |live0| == |nodes| && |live| == |nodes|
    requires |stack0| > 0 && stack0[|stack0| - 1] == s
    requires forall t :: 0 <= t < |nodes| && live0[t] && t !in stack0 ==> Closed(nodes, edges, live0, t)
    requires forall u :: 0 <= u < |nodes| && live0[u] ==> live[u]
    requires forall u :: 0 <= u < |nodes| && live[u] && !live0[u] ==> u in stack
    requires |stack0| - 1 <= |stack| && stack[..|stack0| - 1] == stack0[..|stack0| - 1]
    requires Closed(nodes, edges, live, s)
    ensures forall t :: 0 <= t < |nodes| && live[t] && t !in stack ==> Closed(nodes, edges, live, t)
  {
    forall t | 0 <= t < |nodes| && live[t] && t !in stack && t != s
      ensures Closed(nodes, edges, live, t)
    {
      assert t !in stack0[..|stack0| - 1];
      assert t !in stack0 by {
        assert stack0 == stack0[..|stack0| - 1] + [s];
      }
      ClosedMonotone(nodes, edges, live0, live, t);
    }
  }

  /** Marking more nodes keeps a closed node closed. */
  lemma ClosedMonotone(nodes: seq<Node>, edges: seq<Edge>, live0: seq<bool>, live: seq<bool>, t: nat)
    requires WellFormed(nodes, edges) && t < |nodes| && |live0| == |nodes| && |live| == |nodes|
    requires forall u :: 0 <= u < |nodes| && live0[u] ==> live[u]
    requires Closed(nodes, edges, live0, t)
    ensures Closed(nodes, edges, live, t)
  {
  }

  /**
   * When the stack is empty, every live node is closed; then the marked set is
   * closed under predecessors and holds exactly the live nodes.
   */
  lemma WorklistDone(nodes: seq<Node>, edges: seq<Edge>, live: seq<bool>)
    requires WellFormed(nodes, edges) && |live| == |nodes|
    requires forall u :: 0 <= u < |nodes| && nodes[u].IsAccepting() ==> live[u]
    requires forall t :: 0 <= t < |nodes| && live[t] ==> Closed(nodes, edges, live, t)
    requires forall u: nat :: u < |nodes| && live[u] ==> IsLive(nodes, edges, u)
    ensures forall s: nat, u: nat :: s < |nodes| && live[s] && PredecessorVia(nodes, edges, s, u) ==> live[u]
    ensures forall u :: 0 <= u < |nodes| ==> (live[u] <==> IsLive(nodes, edges, u))
  {
    forall s: nat, u: nat | s < |nodes| && live[s] && PredecessorVia(nodes, edges, s, u)
      ensures live[u]
    {
      var e :| e in nodes[s].ingoing && e < |edges| && Position(nodes, edges[e].from) == Some(u);
    }
    forall u | 0 <= u < |nodes|
      ensures live[u] <==> IsLive(nodes, edges, u)
    {
      if IsLive(nodes, edges, u) {
        var k :| LiveWithin(nodes, edges, u, k);
        ClosedSetContainsLive(nodes, edges, live, u, k);
      }
    }
  }

  /** A set that holds the accepting nodes and is closed under predecessors holds every live node. */
  lemma {:induction false} ClosedSetContainsLive(nodes: seq<Node>, edges: seq<Edge>, live: seq<bool>, u: nat, k: nat)
    requires WellFormed(nodes, edges) && |live| == |nodes|
    requires forall u :: 0 <= u < |nodes| && nodes[u].IsAccepting() ==> live[u]
    requires forall s: nat, u: nat :: s < |nodes| && live[s] && PredecessorVia(nodes, edges, s, u) ==> live[u]
    requires LiveWithin(nodes, edges, u, k)
    ensures u < |nodes| && live[u]
    decreases k
  {
    if !nodes[u].IsAccepting() {
      var s: nat :| PredecessorVia(nodes, edges, s, u) && LiveWithin(nodes, edges, s, k - 1);
      ClosedSetContainsLive(nodes, edges, live, s, k - 1);
    }
  }

  // ---------------------------------------------------------------------------
  // Liveness as forward reachability, on the index `derive_nodes` builds
  // ---------------------------------------------------------------------------

  /** Following outgoing edges forwards, an accepting node is reachable from `u` in at most `k` steps. */
  ghost predicate ReachesAcceptingWithin(nodes: seq<Node>, edges: seq<Edge>, u: nat, k: nat)
    decreases k
  {
    u < |nodes| &&
    (nodes[u].IsAccepting()
     || (k > 0 && exists e, t: nat :: e in nodes[u].outgoing && e < |edges| && Position(nodes, edges[e].to) == Some(t)
                                      && ReachesAcceptingWithin(nodes, edges, t, k - 1)))
  }

  /** On an indexed graph, a predecessor step backwards is an edge step forwards, and conversely. */
  lemma PredecessorIsForwardEdge(nodes: seq<Node>, edges: seq<Edge>, s: nat, u: nat)
    requires NodeIndex.IndexedBy(nodes, edges)
    ensures PredecessorVia(nodes, edges, s, u)
        <==> u < |nodes| && exists e :: e in nodes[u].outgoing && e < |edges| && Position(nodes, edges[e].to) == Some(s)
  {
    if PredecessorVia(nodes, edges, s, u) {
      var e :| e in nodes[s].ingoing && e < |edges| && Position(nodes, edges[e].from) == Some(u);
      NodeIndex.DeriveNodesEdgeHome(nodes, edges, e);
      assert e in nodes[u].outgoing;
    }
    if u < |nodes| && exists e :: e in nodes[u].outgoing && e < |edges| && Position(nodes, edges[e].to) == Some(s) {
      var e :| e in nodes[u].outgoing && e < |edges| && Position(nodes, edges[e].to) == Some(s);
      NodeIndex.DeriveNodesEdgeHome(nodes, edges, e);
      assert e in nodes[s].ingoing;
    }
  }

  /**
   * On the graph `derive_nodes` builds, `LiveWithin` is forward reachability:
   * a node is live within k steps exactly when an accepting node is reachable
   * from it along at most k edges.
   */
  lemma {:induction false} LiveIffReachesAccepting(nodes: seq<Node>, edges: seq<Edge>, u: nat, k: nat)
    requires NodeIndex.IndexedBy(nodes, edges)
    ensures LiveWithin(nodes, edges, u, k) <==> ReachesAcceptingWithin(nodes, edges, u, k)
    decreases k
  {
    if u < |nodes| && !nodes[u].IsAccepting() && k > 0 {
      if LiveWithin(nodes, edges, u, k) {
        var s: nat :| PredecessorVia(nodes, edges, s, u) && LiveWithin(nodes, edges, s, k - 1);
        PredecessorIsForwardEdge(nodes, edges, s, u);
        var e :| e in nodes[u].outgoing && e < |edges| && Position(nodes, edges[e].to) == Some(s);
        LiveIffReachesAccepting(nodes, edges, s, k - 1);
      }
      if ReachesAcceptingWithin(nodes, edges, u, k) {
        var e, t: nat :| e in nodes[u].outgoing && e < |edges| && Position(nodes, edges[e].to) == Some(t)
                         && ReachesAcceptingWithin(nodes, edges, t, k - 1);
        PredecessorIsForwardEdge(nodes, edges, t, u);
        LiveIffReachesAccepting(nodes, edges, t, k - 1);
      }
    }
  }
}
