/**
 * The equivalence check of the automata environment
 * (crates/envs/ce-automata/src/lib.rs): `transition`, `alphabet` and
 * `equivalent`, a breadth-first search over pairs of states that follows both
 * automata along the same label, pruning moves into states that are not live.
 *
 * The search is specified against the product of the two automata: `Run`
 * follows a word of labels from the start pair, and a pair is `Bad` when its two
 * states disagree on acceptance or, for some label of the joint alphabet,
 * exactly one of them has a live successor. `equivalent` answers true exactly
 * when no word leads to a bad pair.
 */
module Equivalence {
  import opened Wrappers
  import opened Graph
  import Liveness
  import NodeIndex

  /** The `j`-th edge of `out` is an edge of `edges` labelled `l`. */
  predicate Labelled(edges: seq<Edge>, out: seq<nat>, j: nat, l: string)
    requires j < |out|
  {
    out[j] < |edges| && edges[out[j]].lbl == l
  }

  /**
   * `transition`: follow the first outgoing edge of node `n` that carries label
   * `l`, and look its target up by name (first match). The result, if any, is
   * a node index; `TransitionFirstMatch` says which.
   */
  function Transition(nodes: seq<Node>, edges: seq<Edge>, n: nat, l: string): (r: Option<nat>)
    requires n < |nodes|
    requires forall e :: e in nodes[n].outgoing ==> e < |edges|
    ensures r.Some? ==> r.value < |nodes|
  {
    var out := nodes[n].outgoing;
    match FirstIndex(out, (e: nat) => e < |edges| && edges[e].lbl == l)
    case None => None
    case Some(j) => Position(nodes, edges[out[j]].to)
  }

  /**
   * `transition` is `None` when no outgoing edge of `n` carries `l`; otherwise
   * it is the first node named like the target of the first such edge, in
   * outgoing order (and `None` if no node has that name).
   */
  lemma TransitionFirstMatch(nodes: seq<Node>, edges: seq<Edge>, n: nat, l: string)
    requires n < |nodes|
    requires forall e :: e in nodes[n].outgoing ==> e < |edges|
    ensures var out := nodes[n].outgoing;
      (forall j :: 0 <= j < |out| ==> !Labelled(edges, out, j, l)) ==> Transition(nodes, edges, n, l) == None
    ensures var out := nodes[n].outgoing;
      forall j :: 0 <= j < |out| && Labelled(edges, out, j, l) && (forall i :: 0 <= i < j ==> !Labelled(edges, out, i, l))
        ==> Transition(nodes, edges, n, l) == Position(nodes, edges[out[j]].to)
  {
    var out := nodes[n].outgoing;
    var labelled := (e: nat) => e < |edges| && edges[e].lbl == l;
    assert forall j :: 0 <= j < |out| ==> (labelled(out[j]) <==> Labelled(edges, out, j, l));
    var first := FirstIndex(out, labelled);
    if first.Some? {
      assert forall j :: (0 <= j < |out| && Labelled(edges, out, j, l) && (forall i :: 0 <= i < j ==> !Labelled(edges, out, i, l)))
                         ==> j == first.value;
    }
  }

  /**
   * On a `derive_nodes` index, `transition` is `None` exactly when no edge that
   * leaves the node carries the label.
   */
  lemma TransitionNoneIff(nodes: seq<Node>, edges: seq<Edge>, n: nat, l: string)
    requires NodeIndex.IndexedBy(nodes, edges) && WellFormed(nodes, edges)
    requires n < |nodes|
    ensures Transition(nodes, edges, n, l).None?
        <==> forall k :: 0 <= k < |edges| && edges[k].from == nodes[n].name ==> edges[k].lbl != l
  {
    NodeIndex.DeriveNodesBookkeeping(nodes, edges, n);
    forall k | 0 <= k < |edges| ensures Position(nodes, edges[k].to).Some? {
      NodeIndex.DeriveNodesEdgeHome(nodes, edges, k);
    }
    TransitionNoneWhenTargetsResolve(nodes, edges, n, l);
  }

  /** `TransitionNoneIff`, from the two facts about the index it needs. */
  lemma TransitionNoneWhenTargetsResolve(nodes: seq<Node>, edges: seq<Edge>, n: nat, l: string)
    requires n < |nodes|
    requires forall k: nat :: k in nodes[n].outgoing <==> k < |edges| && edges[k].from == nodes[n].name
    requires forall k :: 0 <= k < |edges| ==> Position(nodes, edges[k].to).Some?
    ensures Transition(nodes, edges, n, l).None?
        <==> forall k :: 0 <= k < |edges| && edges[k].from == nodes[n].name ==> edges[k].lbl != l
  {
    var out := nodes[n].outgoing;
    var first := FirstIndex(out, (e: nat) => e < |edges| && edges[e].lbl == l);
    if first.Some? {
      var k := out[first.value];
      assert k in out && edges[k].lbl == l;
      assert Transition(nodes, edges, n, l) == Position(nodes, edges[k].to);
    } else {
      forall k | 0 <= k < |edges| && edges[k].from == nodes[n].name
        ensures edges[k].lbl != l
      {
        assert k in out;
        var j :| 0 <= j < |out| && out[j] == k;
      }
    }
  }

  /** `alphabet`: the set of the edges' labels. */
  function Alphabet(edges: seq<Edge>): (r: set<string>)
    ensures forall l :: l in r <==> exists k :: 0 <= k < |edges| && edges[k].lbl == l
  {
    set k | 0 <= k < |edges| :: edges[k].lbl
  }

  /** A label outside the alphabet moves nowhere. */
  lemma OutsideAlphabet(nodes: seq<Node>, edges: seq<Edge>, n: nat, l: string)
    requires n < |nodes|
    requires forall e :: e in nodes[n].outgoing ==> e < |edges|
    requires l !in Alphabet(edges)
    ensures Transition(nodes, edges, n, l) == None
  {
    TransitionFirstMatch(nodes, edges, n, l);
  }

  // ---------------------------------------------------------------------------
  // The product of two automata
  // ---------------------------------------------------------------------------

  /**
   * An automaton as `equivalent` sees it: its node index, its edges and the
   * liveness of each node.
   */
  datatype Automaton = Automaton(nodes: seq<Node>, edges: seq<Edge>, live: seq<bool>)

  ghost predicate Valid(g: Automaton)
  {
    WellFormed(g.nodes, g.edges) && |g.live| == |g.nodes|
  }

  /** The liveness of every node, as `compute_live` returns it. */
  ghost function LiveOf(nodes: seq<Node>, edges: seq<Edge>): (r: seq<bool>)
    ensures |r| == |nodes|
    ensures forall u :: 0 <= u < |nodes| ==> (r[u] <==> Liveness.IsLive(nodes, edges, u))
  {
    seq(|nodes|, (u: nat) => Liveness.IsLive(nodes, edges, u))
  }

  /** A vector that marks exactly the live nodes is `LiveOf`. */
  lemma LiveOfComputed(nodes: seq<Node>, edges: seq<Edge>, live: seq<bool>)
    requires |live| == |nodes|
    requires forall u :: 0 <= u < |nodes| ==> (live[u] <==> Liveness.IsLive(nodes, edges, u))
    ensures live == LiveOf(nodes, edges)
  {
  }

  /** The automaton `equivalent` works on, given a node index and its edges. */
  ghost function AutomatonOf(nodes: seq<Node>, edges: seq<Edge>): Automaton
  {
    Automaton(nodes, edges, LiveOf(nodes, edges))
  }

  /**
   * `transition(..).filter(|&s| live[s])`: the successor on `l`, kept only when
   * it is live.
   */
  function LiveStep(g: Automaton, s: nat, l: string): (r: Option<nat>)
    requires Valid(g) && s < |g.nodes|
    ensures r.Some? ==> r.value < |g.nodes|
  {
    match Transition(g.nodes, g.edges, s, l)
    case None => None
    case Some(t) => if g.live[t] then Some(t) else None
  }

  /** `LiveStep` moves exactly when `transition` does and its target is live, and then to that target. */
  lemma LiveStepFilter(g: Automaton, s: nat, l: string)
    requires Valid(g) && s < |g.nodes|
    ensures var t := Transition(g.nodes, g.edges, s, l);
      && (LiveStep(g, s, l).Some? <==> t.Some? && g.live[t.value])
      && (LiveStep(g, s, l).Some? ==> LiveStep(g, s, l) == t)
  {
  }

  /** What `equivalent` compares: accepting and live. */
  ghost predicate Final(g: Automaton, s: nat)
    requires Valid(g) && s < |g.nodes|
  {
    g.nodes[s].IsAccepting() && g.live[s]
  }

  ghost predicate InRange(g1: Automaton, g2: Automaton, p: (nat, nat))
  {
    p.0 < |g1.nodes| && p.1 < |g2.nodes|
  }

  /** One move of the product on label `l`: both sides must have a live successor. */
  ghost function Step(g1: Automaton, g2: Automaton, p: (nat, nat), l: string): (r: Option<(nat, nat)>)
    requires Valid(g1) && Valid(g2) && InRange(g1, g2, p)
    ensures r.Some? ==> InRange(g1, g2, r.value)
  {
    match (LiveStep(g1, p.0, l), LiveStep(g2, p.1, l))
    case (Some(a), Some(b)) => Some((a, b))
    case _ => None
  }

  /**
   * A pair the search rejects: the states differ in acceptance, or some label
   * of the joint alphabet leads to a live state on exactly one side.
   */
  ghost predicate Bad(g1: Automaton, g2: Automaton, p: (nat, nat))
    requires Valid(g1) && Valid(g2) && InRange(g1, g2, p)
  {
    || Final(g1, p.0) != Final(g2, p.1)
    || exists l :: l in Alphabet(g1.edges) + Alphabet(g2.edges) && !Agrees(g1, g2, p, l)
  }

  /** On label `l`, both states of `p` have a live successor, or neither has. */
  ghost predicate Agrees(g1: Automaton, g2: Automaton, p: (nat, nat), l: string)
    requires Valid(g1) && Valid(g2) && InRange(g1, g2, p)
  {
    LiveStep(g1, p.0, l).Some? == LiveStep(g2, p.1, l).Some?
  }

  /** The successor of `p` on `l`, if any, has been seen. */
  ghost predicate Followed(g1: Automaton, g2: Automaton, visited: set<(nat, nat)>, p: (nat, nat), l: string)
    requires Valid(g1) && Valid(g2) && InRange(g1, g2, p)
  {
    Step(g1, g2, p, l).Some? ==> Step(g1, g2, p, l).value in visited
  }

  /** The pair reached from `start` along the labels of `w`, if both sides can follow it. */
  ghost function Run(g1: Automaton, g2: Automaton, start: (nat, nat), w: seq<string>): (r: Option<(nat, nat)>)
    requires Valid(g1) && Valid(g2) && InRange(g1, g2, start)
    ensures r.Some? ==> InRange(g1, g2, r.value)
    decreases |w|
  {
    if w == [] then Some(start)
    else match Run(g1, g2, start, w[..|w| - 1])
      case None => None
      case Some(p) => Step(g1, g2, p, w[|w| - 1])
  }

  /** The word `w` leads from `start` to a bad pair. */
  ghost predicate Distinguishes(g1: Automaton, g2: Automaton, start: (nat, nat), w: seq<string>)
    requires Valid(g1) && Valid(g2) && InRange(g1, g2, start)
  {
    Run(g1, g2, start, w).Some? && Bad(g1, g2, Run(g1, g2, start, w).value)
  }

  /** A pair the search has finished with: it is not bad and its successors have been seen. */
  ghost predicate Processed(g1: Automaton, g2: Automaton, visited: set<(nat, nat)>, p: (nat, nat))
    requires Valid(g1) && Valid(g2) && InRange(g1, g2, p)
  {
    && !Bad(g1, g2, p)
    && forall l :: l in Alphabet(g1.edges) + Alphabet(g2.edges) ==> Followed(g1, g2, visited, p, l)
  }

  /** All pairs of node indices: the search can see no more pairs than these. */
  ghost function Universe(n1: nat, n2: nat): set<(nat, nat)>
  {
    set a: nat, b: nat | a < n1 && b < n2 :: (a, b)
  }

  /** A set of pairs of node indices has at most as many elements as `Universe`. */
  lemma VisitedBounded(n1: nat, n2: nat, visited: set<(nat, nat)>)
    requires forall q :: q in visited ==> q.0 < n1 && q.1 < n2
    ensures |visited| <= |Universe(n1, n2)|
  {
    forall q | q in visited
      ensures q in Universe(n1, n2)
    {
      var a: nat, b: nat := q.0, q.1;
      assert (a, b) == q;
    }
    SubsetCardinality(visited, Universe(n1, n2));
  }

  lemma {:induction false} SubsetCardinality<T>(a: set<T>, b: set<T>)
    requires a <= b
    ensures |a| <= |b|
    decreases |a|
  {
    if a != {} {
      var x :| x in a;
      SubsetCardinality(a - {x}, b - {x});
    }
  }

  /**
   * The bookkeeping of the search: every pair seen is a pair of node indices,
   * the start pair is seen, the queue holds pairs seen, and `word` records for every
   * pair seen a word that leads to it from `start`.
   */
  ghost predicate Search(g1: Automaton, g2: Automaton, start: (nat, nat),
                         visited: set<(nat, nat)>, queue: seq<(nat, nat)>, word: map<(nat, nat), seq<string>>)
  {
    && Valid(g1) && Valid(g2) && InRange(g1, g2, start)
    && start in visited
    && (forall q :: q in visited ==> InRange(g1, g2, q))
    && (forall k :: 0 <= k < |queue| ==> queue[k] in visited)
    && (forall q :: q in visited ==> q in word && Run(g1, g2, start, word[q]) == Some(q))
  }

  /**
   * `equivalent`. Answers true exactly when no word of labels leads the two
   * automata, from the start pair, to a pair of states the search rejects.
   */
  method Equivalent(nodes1: seq<Node>, edges1: seq<Edge>, nodes2: seq<Node>, edges2: seq<Edge>, start1: nat, start2: nat)
    returns (r: bool)
    requires WellFormed(nodes1, edges1) && WellFormed(nodes2, edges2)
    requires start1 < |nodes1| && start2 < |nodes2|
    ensures r <==> forall w :: !Distinguishes(AutomatonOf(nodes1, edges1), AutomatonOf(nodes2, edges2), (start1, start2), w)
  {
    var live1, live2;
    ghost var pushed1, pushed2;
    live1, pushed1 := Liveness.ComputeLive(nodes1, edges1);
    live2, pushed2 := Liveness.ComputeLive(nodes2, edges2);
    LiveOfComputed(nodes1, edges1, live1);
    LiveOfComputed(nodes2, edges2, live2);
    assert AutomatonOf(nodes1, edges1) == Automaton(nodes1, edges1, live1);
    assert AutomatonOf(nodes2, edges2) == Automaton(nodes2, edges2, live2);
    r := ProductSearch(nodes1, edges1, nodes2, edges2, live1, live2, start1, start2);
  }

  /**
   * The breadth-first search of `equivalent`, once both liveness vectors are
   * known: a queue of pairs to process and the set of pairs seen, starting
   * from the start pair.
   */
  method ProductSearch(nodes1: seq<Node>, edges1: seq<Edge>, nodes2: seq<Node>, edges2: seq<Edge>,
                       live1: seq<bool>, live2: seq<bool>, start1: nat, start2: nat)
    returns (r: bool)
    requires Valid(Automaton(nodes1, edges1, live1)) && Valid(Automaton(nodes2, edges2, live2))
    requires start1 < |nodes1| && start2 < |nodes2|
    ensures r <==> forall w :: !Distinguishes(Automaton(nodes1, edges1, live1), Automaton(nodes2, edges2, live2), (start1, start2), w)
  {
    ghost var g1, g2 := Automaton(nodes1, edges1, live1), Automaton(nodes2, edges2, live2);
    var start := (start1, start2);
    var alphabet := Alphabet(edges1) + Alphabet(edges2);
    var visited: set<(nat, nat)> := {start};
    var queue: seq<(nat, nat)> := [start];
    ghost var word: map<(nat, nat), seq<string>> := map[start := []];
    ghost var bound := |Universe(|nodes1|, |nodes2|)|;

    while |queue| > 0
      invariant Search(g1, g2, start, visited, queue, word)
      invariant |visited| <= bound
      invariant forall p :: p in visited && p !in queue ==> Processed(g1, g2, visited, p)
      decreases bound - |visited|, |queue|
    {
      var p := queue[0];
      ghost var visited0, queue0 := visited, queue;
      queue := queue[1..];
      var s1, s2 := p.0, p.1;
      if (nodes1[s1].IsAccepting() && live1[s1]) != (nodes2[s2].IsAccepting() && live2[s2]) {
        assert Distinguishes(g1, g2, start, word[p]);
        return false;
      }
      var ok;
      ok, visited, queue, word := ExploreLabels(nodes1, edges1, nodes2, edges2, live1, live2, alphabet, p,
                                                visited, queue, start, word);
      VisitedBounded(|nodes1|, |nodes2|, visited);
      if !ok {
        assert Distinguishes(g1, g2, start, word[p]);
        return false;
      }
      FinishPair(g1, g2, visited0, queue0, visited, queue, p);
    }
    NothingBadReachable(g1, g2, start, visited, word);
    return true;
  }

  /**
   * The `for label in &alphabet` loop of `equivalent`, for the pair `p` just
   * taken from the queue (whose states agree on acceptance): afterwards `p` is
   * finished, or `ok` is false and some label moves exactly one side.
   */
  method ExploreLabels(nodes1: seq<Node>, edges1: seq<Edge>, nodes2: seq<Node>, edges2: seq<Edge>,
                       live1: seq<bool>, live2: seq<bool>, alphabet: set<string>, p: (nat, nat),
                       visited0: set<(nat, nat)>, queue0: seq<(nat, nat)>,
                       ghost start: (nat, nat), ghost word0: map<(nat, nat), seq<string>>)
    returns (ok: bool, visited: set<(nat, nat)>, queue: seq<(nat, nat)>, ghost word: map<(nat, nat), seq<string>>)
    requires Search(Automaton(nodes1, edges1, live1), Automaton(nodes2, edges2, live2), start, visited0, queue0, word0)
    requires alphabet == Alphabet(edges1) + Alphabet(edges2)
    requires p in visited0 && Final(Automaton(nodes1, edges1, live1), p.0) == Final(Automaton(nodes2, edges2, live2), p.1)
    ensures Search(Automaton(nodes1, edges1, live1), Automaton(nodes2, edges2, live2), start, visited, queue, word)
    ensures Extends(visited0, queue0, visited, queue)
    ensures ok ==> Processed(Automaton(nodes1, edges1, live1), Automaton(nodes2, edges2, live2), visited, p)
    ensures !ok ==> Bad(Automaton(nodes1, edges1, live1), Automaton(nodes2, edges2, live2), p)
  {
    ghost var g1, g2 := Automaton(nodes1, edges1, live1), Automaton(nodes2, edges2, live2);
    visited, queue, word := visited0, queue0, word0;
    var rest := alphabet;
    while rest != {}
      invariant rest <= alphabet
      invariant Search(g1, g2, start, visited, queue, word)
      invariant Extends(visited0, queue0, visited, queue)
      invariant LabelsDone(g1, g2, visited, p, alphabet - rest)
      decreases rest
    {
      var l :| l in rest;
      ghost var done := alphabet - rest;
      rest := rest - {l};
      ghost var visited1, queue1 := visited, queue;
      var agrees;
      agrees, visited, queue, word := ExploreLabel(nodes1, edges1, nodes2, edges2, live1, live2, p, l,
                                                  visited, queue, start, word);
      if !agrees {
        DisagreementIsBad(g1, g2, p, l);
        return false, visited, queue, word;
      }
      ExtendsTrans(visited0, queue0, visited1, queue1, visited, queue);
      LabelsDoneStep(g1, g2, visited1, visited, p, done, l);
      assert alphabet - rest == done + {l};
    }
    AllLabelsDone(g1, g2, visited, p);
    return true, visited, queue, word;
  }

  /** A label of the joint alphabet on which exactly one side moves makes the pair bad. */
  lemma DisagreementIsBad(g1: Automaton, g2: Automaton, p: (nat, nat), l: string)
    requires Valid(g1) && Valid(g2) && InRange(g1, g2, p)
    requires l in Alphabet(g1.edges) + Alphabet(g2.edges) && !Agrees(g1, g2, p, l)
    ensures Bad(g1, g2, p)
  {
  }

  /** A pair whose states agree on acceptance and all of whose labels are done is processed. */
  lemma AllLabelsDone(g1: Automaton, g2: Automaton, visited: set<(nat, nat)>, p: (nat, nat))
    requires Valid(g1) && Valid(g2) && InRange(g1, g2, p)
    requires Final(g1, p.0) == Final(g2, p.1)
    requires LabelsDone(g1, g2, visited, p, Alphabet(g1.edges) + Alphabet(g2.edges))
    ensures Processed(g1, g2, visited, p)
  {
  }

  /** Every label of `done` agrees on both sides of `p`, and its successor pair has been seen. */
  ghost predicate LabelsDone(g1: Automaton, g2: Automaton, visited: set<(nat, nat)>, p: (nat, nat), done: set<string>)
    requires Valid(g1) && Valid(g2) && InRange(g1, g2, p)
  {
    forall l :: l in done ==> Agrees(g1, g2, p, l) && Followed(g1, g2, visited, p, l)
  }

  lemma LabelsDoneStep(g1: Automaton, g2: Automaton, visited0: set<(nat, nat)>, visited: set<(nat, nat)>,
                       p: (nat, nat), done: set<string>, l: string)
    requires Valid(g1) && Valid(g2) && InRange(g1, g2, p)
    requires visited0 <= visited
    requires LabelsDone(g1, g2, visited0, p, done)
    requires Agrees(g1, g2, p, l) && Followed(g1, g2, visited, p, l)
    ensures LabelsDone(g1, g2, visited, p, done + {l})
  {
  }

  /**
   * The growth of the search in one step: the old visited set and queue are
   * kept, every newly seen pair is queued, and as many pairs are newly seen as
   * are newly queued.
   */
  ghost predicate Extends(visited0: set<(nat, nat)>, queue0: seq<(nat, nat)>,
                          visited: set<(nat, nat)>, queue: seq<(nat, nat)>)
  {
    && visited0 <= visited
    && (forall q :: q in visited && q !in visited0 ==> q in queue)
    && |queue0| <= |queue| && queue[..|queue0|] == queue0
    && |visited| - |visited0| == |queue| - |queue0|
  }

  lemma ExtendsTrans(visited0: set<(nat, nat)>, queue0: seq<(nat, nat)>,
                     visited1: set<(nat, nat)>, queue1: seq<(nat, nat)>, visited: set<(nat, nat)>, queue: seq<(nat, nat)>)
    requires Extends(visited0, queue0, visited1, queue1) && Extends(visited1, queue1, visited, queue)
    ensures Extends(visited0, queue0, visited, queue)
  {
    assert queue[..|queue0|] == queue[..|queue1|][..|queue0|];
    forall q | q in visited && q !in visited0
      ensures q in queue
    {
      if q in visited1 {
        var k :| 0 <= k < |queue1| && queue1[k] == q;
        assert queue[k] == q;
      }
    }
  }

  /**
   * One label of the `for label in &alphabet` loop: follow `l` on both sides,
   * keeping only live successors. `agrees` is false when exactly one side
   * moves; when both move to a pair not seen yet, that pair is marked visited
   * and queued.
   */
  method ExploreLabel(nodes1: seq<Node>, edges1: seq<Edge>, nodes2: seq<Node>, edges2: seq<Edge>,
                      live1: seq<bool>, live2: seq<bool>, p: (nat, nat), l: string,
                      visited0: set<(nat, nat)>, queue0: seq<(nat, nat)>,
                      ghost start: (nat, nat), ghost word0: map<(nat, nat), seq<string>>)
    returns (agrees: bool, visited: set<(nat, nat)>, queue: seq<(nat, nat)>, ghost word: map<(nat, nat), seq<string>>)
    requires Search(Automaton(nodes1, edges1, live1), Automaton(nodes2, edges2, live2), start, visited0, queue0, word0)
    requires p in visited0
    ensures Search(Automaton(nodes1, edges1, live1), Automaton(nodes2, edges2, live2), start, visited, queue, word)
    ensures Extends(visited0, queue0, visited, queue)
    ensures agrees == Agrees(Automaton(nodes1, edges1, live1), Automaton(nodes2, edges2, live2), p, l)
    ensures agrees ==> Followed(Automaton(nodes1, edges1, live1), Automaton(nodes2, edges2, live2), visited, p, l)
  {
    var g1, g2 := Automaton(nodes1, edges1, live1), Automaton(nodes2, edges2, live2);
    visited, queue, word := visited0, queue0, word0;
    var t1 := LiveStep(g1, p.0, l);
    var t2 := LiveStep(g2, p.1, l);
    match (t1, t2)
    case (Some(a), Some(b)) =>
      agrees := true;
      if (a, b) !in visited {
        VisitStep(g1, g2, start, visited, queue, word, p, l);
        visited := visited + {(a, b)};
        queue := queue + [(a, b)];
        word := word[(a, b) := word[p] + [l]];
        assert queue[..|queue0|] == queue0;
      }
    case (None, None) =>
      agrees := true;
    case _ =>
      agrees := false;
  }

  /** Marking and queueing the new successor `q` of `p` on `l` keeps the bookkeeping of the search. */
  lemma VisitStep(g1: Automaton, g2: Automaton, start: (nat, nat),
                  visited: set<(nat, nat)>, queue: seq<(nat, nat)>, word: map<(nat, nat), seq<string>>,
                  p: (nat, nat), l: string)
    requires Search(g1, g2, start, visited, queue, word)
    requires p in visited
    requires Step(g1, g2, p, l).Some? && Step(g1, g2, p, l).value !in visited
    ensures var q := Step(g1, g2, p, l).value;
      Search(g1, g2, start, visited + {q}, queue + [q], word[q := word[p] + [l]])
  {
    var q := Step(g1, g2, p, l).value;
    RunExtends(g1, g2, start, word[p], p, l);
    SearchGrows(g1, g2, start, visited, queue, word, q, word[p] + [l]);
  }

  /** Extending a word that reaches `p` by `l` reaches the product's step from `p` on `l`. */
  lemma RunExtends(g1: Automaton, g2: Automaton, start: (nat, nat), w: seq<string>, p: (nat, nat), l: string)
    requires Valid(g1) && Valid(g2) && InRange(g1, g2, start)
    requires Run(g1, g2, start, w) == Some(p)
    ensures Run(g1, g2, start, w + [l]) == Step(g1, g2, p, l)
  {
    assert (w + [l])[..|w + [l]| - 1] == w;
  }

  /** Adding a pair reached by `w` keeps the bookkeeping of the search. */
  lemma SearchGrows(g1: Automaton, g2: Automaton, start: (nat, nat),
                    visited: set<(nat, nat)>, queue: seq<(nat, nat)>, word: map<(nat, nat), seq<string>>,
                    q: (nat, nat), w: seq<string>)
    requires Search(g1, g2, start, visited, queue, word)
    requires InRange(g1, g2, q) && Run(g1, g2, start, w) == Some(q)
    ensures Search(g1, g2, start, visited + {q}, queue + [q], word[q := w])
  {
  }

  /**
   * After the pair `p` at the head of the queue is finished, every pair seen
   * and no longer queued is finished: the pairs seen before were finished
   * already, the new ones are queued.
   */
  lemma FinishPair(g1: Automaton, g2: Automaton, visited0: set<(nat, nat)>, queue0: seq<(nat, nat)>,
                   visited: set<(nat, nat)>, queue: seq<(nat, nat)>, p: (nat, nat))
    requires Valid(g1) && Valid(g2)
    requires forall q :: q in visited ==> InRange(g1, g2, q)
    requires |queue0| > 0 && queue0[0] == p && visited0 <= visited
    requires forall q :: q in visited0 && q !in queue0 ==> Processed(g1, g2, visited0, q)
    requires forall q :: q in visited && q !in visited0 ==> q in queue
    requires |queue0| - 1 <= |queue| && queue[..|queue0| - 1] == queue0[1..]
    requires p in visited && Processed(g1, g2, visited, p)
    ensures forall q :: q in visited && q !in queue ==> Processed(g1, g2, visited, q)
  {
    forall q | q in visited && q !in queue
      ensures Processed(g1, g2, visited, q)
    {
      if q != p {
        ProcessedGrows(g1, g2, visited0, visited, q);
      }
    }
  }

  /** Seeing more pairs keeps a finished pair finished. */
  lemma ProcessedGrows(g1: Automaton, g2: Automaton, visited0: set<(nat, nat)>, visited: set<(nat, nat)>, p: (nat, nat))
    requires Valid(g1) && Valid(g2) && InRange(g1, g2, p)
    requires visited0 <= visited
    requires Processed(g1, g2, visited0, p)
    ensures Processed(g1, g2, visited, p)
  {
  }

  /**
   * When the search has finished with every pair it has seen, including the
   * start pair, no word can lead to a bad pair.
   */
  lemma NothingBadReachable(g1: Automaton, g2: Automaton, start: (nat, nat), visited: set<(nat, nat)>, word: map<(nat, nat), seq<string>>)
    requires Valid(g1) && Valid(g2) && InRange(g1, g2, start)
    requires start in visited
    requires forall p :: p in visited ==> InRange(g1, g2, p)
    requires forall p :: p in visited ==> Processed(g1, g2, visited, p)
    ensures forall w :: !Distinguishes(g1, g2, start, w)
  {
    forall w
      ensures !Distinguishes(g1, g2, start, w)
    {
      RunStaysInVisited(g1, g2, start, visited, w);
    }
  }

  /** Every pair a word reaches is one the search has seen. */
  lemma {:induction false} RunStaysInVisited(g1: Automaton, g2: Automaton, start: (nat, nat), visited: set<(nat, nat)>, w: seq<string>)
    requires Valid(g1) && Valid(g2) && InRange(g1, g2, start)
    requires start in visited
    requires forall p :: p in visited ==> InRange(g1, g2, p)
    requires forall p :: p in visited ==> Processed(g1, g2, visited, p)
    ensures Run(g1, g2, start, w).Some? ==> Run(g1, g2, start, w).value in visited
    decreases |w|
  {
    if w != [] {
      RunStaysInVisited(g1, g2, start, visited, w[..|w| - 1]);
      var l := w[|w| - 1];
      if Run(g1, g2, start, w[..|w| - 1]).Some? {
        var p := Run(g1, g2, start, w[..|w| - 1]).value;
        if l !in Alphabet(g1.edges) + Alphabet(g2.edges) {
          OutsideAlphabet(g1.nodes, g1.edges, p.0, l);
        }
      }
    }
  }

  // ---------------------------------------------------------------------------
  // Properties of the product
  // ---------------------------------------------------------------------------

  /** Running an automaton against itself from one state keeps both sides in the same state. */
  lemma {:induction false} RunDiagonal(g: Automaton, s: nat, w: seq<string>)
    requires Valid(g) && s < |g.nodes|
    ensures Run(g, g, (s, s), w).Some? ==> Run(g, g, (s, s), w).value.0 == Run(g, g, (s, s), w).value.1
    decreases |w|
  {
    if w != [] {
      RunDiagonal(g, s, w[..|w| - 1]);
    }
  }

  /** An automaton is equivalent to itself: no word distinguishes a state from itself. */
  lemma SelfEquivalence(g: Automaton, s: nat)
    requires Valid(g) && s < |g.nodes|
    ensures forall w :: !Distinguishes(g, g, (s, s), w)
  {
    forall w
      ensures !Distinguishes(g, g, (s, s), w)
    {
      RunDiagonal(g, s, w);
    }
  }

  /** Swapping the two automata swaps the pairs a word reaches. */
  lemma {:induction false} RunSymmetric(g1: Automaton, g2: Automaton, start: (nat, nat), w: seq<string>)
    requires Valid(g1) && Valid(g2) && InRange(g1, g2, start)
    ensures Run(g2, g1, (start.1, start.0), w) ==
      (if Run(g1, g2, start, w).Some? then Some((Run(g1, g2, start, w).value.1, Run(g1, g2, start, w).value.0)) else None)
    decreases |w|
  {
    if w != [] {
      RunSymmetric(g1, g2, start, w[..|w| - 1]);
    }
  }

  /** The verdict of the product does not depend on which automaton comes first. */
  lemma DistinguishesSymmetric(g1: Automaton, g2: Automaton, start: (nat, nat), w: seq<string>)
    requires Valid(g1) && Valid(g2) && InRange(g1, g2, start)
    ensures Distinguishes(g1, g2, start, w) <==> Distinguishes(g2, g1, (start.1, start.0), w)
  {
    RunSymmetric(g1, g2, start, w);
    if Run(g1, g2, start, w).Some? {
      var p := Run(g1, g2, start, w).value;
      assert Alphabet(g1.edges) + Alphabet(g2.edges) == Alphabet(g2.edges) + Alphabet(g1.edges);
      assert Bad(g1, g2, p) <==> Bad(g2, g1, (p.1, p.0));
    }
  }
}
