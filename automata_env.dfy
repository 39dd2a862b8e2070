/**
 * `AutomataEnv::run` and the part of `AutomataEnv::validate` that follows the
 * parsing of the submitted DOT text (crates/envs/ce-automata/src/lib.rs). The
 * parsed submission is its list of edges, or `None` when the text did not
 * parse. `validate` indexes both graphs with `derive_nodes`, picks a start
 * state on either side and asks `equivalent` for the verdict.
 */
module AutomataEnv {
  import opened Wrappers
  import opened Graph
  import Compiler
  import DotEncoder
  import NodeIndex
  import Equivalence
  import Liveness
  import Ascii
  import Collections

  /** Why a submission was rejected (the model keeps the kind of message, not its text). */
  datatype Reason = ParseFailed | NoInitialActual | NoInitialReference | NotEquivalent

  /** `ValidationResult`, plus the index-out-of-bounds panic `validate` can run into. */
  datatype Verdict = Correct | Mismatch(reason: Reason) | Panic

  /** `equivalent(nodes1, edges1, nodes2, edges2, s1, s2)` answers true. */
  ghost predicate EquivalentFrom(nodes1: seq<Node>, edges1: seq<Edge>, nodes2: seq<Node>, edges2: seq<Edge>, s1: nat, s2: nat)
    requires WellFormed(nodes1, edges1) && WellFormed(nodes2, edges2)
    requires s1 < |nodes1| && s2 < |nodes2|
  {
    forall w :: !Equivalence.Distinguishes(Equivalence.AutomatonOf(nodes1, edges1),
                                           Equivalence.AutomatonOf(nodes2, edges2), (s1, s2), w)
  }

  /** There is a root among the nodes. */
  predicate HasRoot(nodes: seq<Node>)
  {
    exists i :: 0 <= i < |nodes| && nodes[i].IsRoot()
  }

  /**
   * What `validate` decides, as written. The reference start is the first
   * root of the ACTUAL node list, as at lib.rs:164, so it can lie outside the
   * reference node list; `equivalent` then indexes `nodes2[s2]` out of bounds
   * and panics. The search for that second root repeats the first one and so
   * never fails: the "No initial state in reference solution" mismatch is
   * never returned.
   */
  ghost function ValidateSpec(regex: string, submission: Option<seq<Edge>>): (v: Verdict)
    ensures v == Mismatch(ParseFailed) <==> submission.None?
    ensures v != Mismatch(NoInitialReference)
  {
    match submission
    case None => Mismatch(ParseFailed)
    case Some(actualEdges) =>
      var actualNodes := NodeIndex.NodesOf(actualEdges);
      match FirstRoot(actualNodes)
      case None => Mismatch(NoInitialActual)
      case Some(actualStart) =>
        var referenceEdges := Compiler.RegexEdges(regex);
        var referenceNodes := NodeIndex.NodesOf(referenceEdges);
        var referenceStart := actualStart;
        if referenceStart >= |referenceNodes| then Panic
        else if EquivalentFrom(actualNodes, actualEdges, referenceNodes, referenceEdges, actualStart, referenceStart)
        then Correct
        else Mismatch(NotEquivalent)
  }

  /** `validate`, after parsing. */
  method Validate(regex: string, submission: Option<seq<Edge>>) returns (v: Verdict)
    ensures v == ValidateSpec(regex, submission)
  {
    if submission.None? {
      return Mismatch(ParseFailed);
    }
    var actualEdges := submission.value;
    var actualNodes := NodeIndex.DeriveNodes(actualEdges);
    NodeIndex.IndexedByUnique(actualNodes, actualEdges);
    var actualStart := FirstRoot(actualNodes);
    if actualStart.None? {
      return Mismatch(NoInitialActual);
    }

    var referenceEdges := Compiler.SplitAndCollect(regex);
    var referenceNodes := NodeIndex.DeriveNodes(referenceEdges);
    NodeIndex.IndexedByUnique(referenceNodes, referenceEdges);
    var referenceStart := FirstRoot(actualNodes);
    if referenceStart.None? {
      // the same search as above, on the same nodes
      assert false;
    }

    if referenceStart.value >= |referenceNodes| {
      return Panic;
    }
    var same := Equivalence.Equivalent(actualNodes, actualEdges, referenceNodes, referenceEdges,
                                       actualStart.value, referenceStart.value);
    if same {
      return Correct;
    }
    return Mismatch(NotEquivalent);
  }

  /**
   * `run`: the DOT text of the compiled pattern. The ghost result `annotated`
   * is the order in which the accepting states were written.
   */
  method Run(regex: string) returns (dot: string, ghost annotated: seq<string>)
    ensures Collections.NoDuplicates(annotated)
    ensures dot == DotEncoder.Header + DotEncoder.EdgeLines(Compiler.RegexEdges(regex))
                   + DotEncoder.AcceptingLines(annotated) + "}"
    ensures forall n :: n in annotated <==>
      n in DotEncoder.Targets(Compiler.RegexEdges(regex)) && n !in DotEncoder.Sources(Compiler.RegexEdges(regex))
  {
    var edges := Compiler.SplitAndCollect(regex);
    dot, annotated := DotEncoder.EdgesToDot(edges);
  }

  // ---------------------------------------------------------------------------
  // What `validate` decides
  // ---------------------------------------------------------------------------

  /**
   * The submission has no initial state exactly when every state is entered by
   * some edge: every source of an edge is also the target of an edge.
   */
  lemma NoInitialActualIff(regex: string, edges: seq<Edge>)
    ensures ValidateSpec(regex, Some(edges)) == Mismatch(NoInitialActual)
        <==> forall k :: 0 <= k < |edges| ==> exists j :: 0 <= j < |edges| && edges[j].to == edges[k].from
  {
    var nodes := NodeIndex.NodesOf(edges);
    assert ValidateSpec(regex, Some(edges)) == Mismatch(NoInitialActual) <==> FirstRoot(nodes).None?;
    if FirstRoot(nodes).None? {
      EveryStateEntered(nodes, edges);
    } else {
      SomeSourceNotEntered(nodes, edges, FirstRoot(nodes).value);
    }
  }

  lemma EveryStateEntered(nodes: seq<Node>, edges: seq<Edge>)
    requires NodeIndex.IndexedBy(nodes, edges)
    requires forall i :: 0 <= i < |nodes| ==> !nodes[i].IsRoot()
    ensures forall k :: 0 <= k < |edges| ==> exists j :: 0 <= j < |edges| && edges[j].to == edges[k].from
  {
    forall k | 0 <= k < |edges|
      ensures exists j :: 0 <= j < |edges| && edges[j].to == edges[k].from
    {
      NodeIndex.DeriveNodesNames(nodes, edges, edges[k].from);
      var i :| 0 <= i < |nodes| && nodes[i].name == edges[k].from;
      NodeIndex.DeriveNodesRootAccepting(nodes, edges, i);
    }
  }

  lemma SomeSourceNotEntered(nodes: seq<Node>, edges: seq<Edge>, i: nat)
    requires NodeIndex.IndexedBy(nodes, edges)
    requires i < |nodes| && nodes[i].IsRoot()
    ensures exists k :: 0 <= k < |edges| && forall j :: 0 <= j < |edges| ==> edges[j].to != edges[k].from
  {
    NodeIndex.DeriveNodesRootAccepting(nodes, edges, i);
    NodeIndex.DeriveNodesNames(nodes, edges, nodes[i].name);
    var k :| 0 <= k < |edges| && (edges[k].from == nodes[i].name || edges[k].to == nodes[i].name);
    assert edges[k].from == nodes[i].name;
  }

  /** A pattern with a word character compiles to a graph whose first node is the root "0". */
  lemma ReferenceStartsAtZero(regex: string)
    requires exists k :: 0 <= k < |regex| && regex[k] != '|'
    ensures var nodes := NodeIndex.NodesOf(Compiler.RegexEdges(regex));
      |nodes| > 0 && nodes[0].name == "0" && FirstRoot(nodes) == Some(0)
  {
    var edges := Compiler.RegexEdges(regex);
    var nodes := NodeIndex.NodesOf(edges);
    Compiler.RegexEdgesEmptyIff(regex);
    Compiler.FirstEdgeLeavesRoot(regex);
    Compiler.NoEdgeTargetsRoot(regex);
    NodeIndex.FirstNodeIsFirstSource(nodes, edges);
    NodeIndex.DeriveNodesRootAccepting(nodes, edges, 0);
    assert nodes[0].IsRoot();
  }

  /** The compiled pattern, submitted as the answer, is accepted. */
  lemma CompiledPatternCorrect(regex: string)
    requires exists k :: 0 <= k < |regex| && regex[k] != '|'
    ensures ValidateSpec(regex, Some(Compiler.RegexEdges(regex))) == Correct
  {
    var edges := Compiler.RegexEdges(regex);
    var nodes := NodeIndex.NodesOf(edges);
    ReferenceStartsAtZero(regex);
    Equivalence.SelfEquivalence(Equivalence.AutomatonOf(nodes, edges), 0);
  }

  /**
   * A pattern of separators only compiles to no edges and no nodes: its own
   * compilation has no initial state, and any submission that has one makes
   * `validate` panic.
   */
  lemma SeparatorsOnly(regex: string, edges: seq<Edge>)
    requires forall k :: 0 <= k < |regex| ==> regex[k] == '|'
    ensures ValidateSpec(regex, Some(Compiler.RegexEdges(regex))) == Mismatch(NoInitialActual)
    ensures HasRoot(NodeIndex.NodesOf(edges)) ==> ValidateSpec(regex, Some(edges)) == Panic
  {
    Compiler.RegexEdgesEmptyIff(regex);
    assert NodeIndex.NodesOf([]) == [];
    var nodes := NodeIndex.NodesOf(edges);
    if HasRoot(nodes) {
      var i :| 0 <= i < |nodes| && nodes[i].IsRoot();
      assert FirstRoot(nodes).Some?;
    }
  }

  // ---------------------------------------------------------------------------
  // `run` and `validate` together
  // ---------------------------------------------------------------------------

  lemma NameQuoteFree(id: nat, i: nat)
    ensures DotEncoder.QuoteFree(Compiler.SourceName(id, i)) && DotEncoder.QuoteFree(Compiler.StateName(id, i))
  {
    var a, b := Compiler.NatToString(id), Compiler.NatToString(i);
    assert Compiler.StateName(id, i) == a + "-" + b;
    assert forall k :: 0 <= k < |a + "-" + b| ==> (a + "-" + b)[k] != '"';
  }

  /** A pattern without quotes compiles to edges whose names and labels have no quotes. */
  lemma CompiledQuoteFree(regex: string)
    requires '"' !in regex
    ensures DotEncoder.EdgesQuoteFree(Compiler.RegexEdges(regex))
  {
    var words := Compiler.Split(regex, '|');
    forall e | e in Compiler.RegexEdges(regex)
      ensures DotEncoder.QuoteFree(e.from) && DotEncoder.QuoteFree(e.to) && DotEncoder.QuoteFree(e.lbl)
    {
      Compiler.RegexEdgeOrigin(regex, e);
      var id: nat, i: nat :| 0 <= id < |words| && Compiler.EdgeOfChar(e, words[id], id, i);
      NameQuoteFree(id, i);
      NameQuoteFree(id, i + 1);
      var c := words[id][i];
      Compiler.SplitChars(regex, '|', '"');
      assert c in words[id];
    }
  }

  /**
   * What `run` writes reads back as the compiled edges and the accepting
   * states, and those edges, submitted as the answer, are accepted by
   * `validate` (a pattern without quotes and with at least one word character).
   */
  lemma RunOutputAccepted(regex: string, dot: string, annotated: seq<string>)
    requires '"' !in regex
    requires dot == DotEncoder.Header + DotEncoder.EdgeLines(Compiler.RegexEdges(regex))
                    + DotEncoder.AcceptingLines(annotated) + "}"
    requires forall n :: n in annotated ==> n in DotEncoder.Targets(Compiler.RegexEdges(regex))
    ensures DotEncoder.Decode(dot) == Some((Compiler.RegexEdges(regex), annotated))
    ensures (exists k :: 0 <= k < |regex| && regex[k] != '|') ==>
      ValidateSpec(regex, Some(DotEncoder.Decode(dot).value.0)) == Correct
  {
    var edges := Compiler.RegexEdges(regex);
    CompiledQuoteFree(regex);
    forall n | n in annotated
      ensures DotEncoder.QuoteFree(n)
    {
      var e :| e in edges && e.to == n;
    }
    DotEncoder.DecodeEncode(edges, annotated);
    if exists k :: 0 <= k < |regex| && regex[k] != '|' {
      CompiledPatternCorrect(regex);
    }
  }

  /**
   * The case of crates/envs/ce-automata/src/tests.rs: the pattern "a" against
   * the single edge q0 -> q1 labelled "a" is a mismatch, because the pattern
   * also accepts "A".
   */
  lemma SingleLowerCaseEdgeMismatch()
    ensures ValidateSpec("a", Some([Edge("q0", "q1", "a")])) == Mismatch(NotEquivalent)
  {
    var actualEdges := [Edge("q0", "q1", "a")];
    var actualNodes := [Node("q0", [], [0]), Node("q1", [0], [])];
    ActualNodesOfTestCase();
    var referenceEdges := [Edge("0", "0-1", "A"), Edge("0", "0-1", "a")];
    ReferenceEdgesOfA();
    var referenceNodes := [Node("0", [], [0, 1]), Node("0-1", [0, 1], [])];
    ReferenceNodesOfA();
    assert FirstRoot(actualNodes) == Some(0);
    UpperCaseDistinguishes();
  }

  /** From the two start states, "A" leads to a live state in the pattern's graph only. */
  lemma UpperCaseDistinguishes()
    ensures var g1 := Equivalence.AutomatonOf([Node("q0", [], [0]), Node("q1", [0], [])], [Edge("q0", "q1", "a")]);
      var g2 := Equivalence.AutomatonOf([Node("0", [], [0, 1]), Node("0-1", [0, 1], [])],
                                        [Edge("0", "0-1", "A"), Edge("0", "0-1", "a")]);
      Equivalence.Valid(g1) && Equivalence.Valid(g2) && Equivalence.Distinguishes(g1, g2, (0, 0), [])
  {
    var actualEdges := [Edge("q0", "q1", "a")];
    var actualNodes := [Node("q0", [], [0]), Node("q1", [0], [])];
    var referenceEdges := [Edge("0", "0-1", "A"), Edge("0", "0-1", "a")];
    var referenceNodes := [Node("0", [], [0, 1]), Node("0-1", [0, 1], [])];
    ActualNodesOfTestCase();
    ReferenceNodesOfA();
    var g1 := Equivalence.AutomatonOf(actualNodes, actualEdges);
    var g2 := Equivalence.AutomatonOf(referenceNodes, referenceEdges);
    assert Equivalence.Transition(actualNodes, actualEdges, 0, "A") == None;
    assert Equivalence.Transition(referenceNodes, referenceEdges, 0, "A") == Some(1);
    assert Liveness.LiveWithin(referenceNodes, referenceEdges, 1, 0);
    assert g2.live[1];
    assert "A" in Equivalence.Alphabet(referenceEdges);
    assert !Equivalence.Agrees(g1, g2, (0, 0), "A");
  }

  // ---------------------------------------------------------------------------
  // The reference start at lib.rs:164
  // ---------------------------------------------------------------------------

  /**
   * The pattern "a" (two reference nodes) against a submission whose first
   * root is its third node: the reference start is 2, out of range, and
   * `validate` panics.
   */
  lemma ReferenceStartOutOfRange()
    ensures ValidateSpec("a", Some([Edge("x", "y", "a"), Edge("r", "x", "a")])) == Panic
  {
    ThirdNodeIsFirstRoot();
    ReferenceEdgesOfA();
    ReferenceNodesOfA();
  }

  lemma ThirdNodeIsFirstRoot()
    ensures FirstRoot(NodeIndex.NodesOf([Edge("x", "y", "a"), Edge("r", "x", "a")])) == Some(2)
  {
    var edges := [Edge("x", "y", "a"), Edge("r", "x", "a")];
    var nodes := [Node("x", [1], [0]), Node("y", [0], []), Node("r", [], [1])];
    NodesOfCounterexample();
    var r := FirstRoot(nodes);
    assert nodes[2].IsRoot();
    assert r.Some? && r.value <= 2;
    assert !nodes[0].IsRoot() && !nodes[1].IsRoot();
  }

  lemma NodesOfCounterexample()
    ensures NodeIndex.NodesOf([Edge("x", "y", "a"), Edge("r", "x", "a")])
         == [Node("x", [1], [0]), Node("y", [0], []), Node("r", [], [1])]
  {
    var edges := [Edge("x", "y", "a"), Edge("r", "x", "a")];
    NamesOfCounterexample();
    IndicesOfCounterexample();
    var r := NodeIndex.NodesOf(edges);
    assert |r| == 3;
    assert r[0] == Node("x", [1], [0]) && r[1] == Node("y", [0], []) && r[2] == Node("r", [], [1]);
  }

  lemma IndicesOfCounterexample()
    ensures var edges := [Edge("x", "y", "a"), Edge("r", "x", "a")];
      && NodeIndex.OutIndices(edges, "x", 2) == [0] && NodeIndex.InIndices(edges, "x", 2) == [1]
      && NodeIndex.OutIndices(edges, "y", 2) == [] && NodeIndex.InIndices(edges, "y", 2) == [0]
      && NodeIndex.OutIndices(edges, "r", 2) == [1] && NodeIndex.InIndices(edges, "r", 2) == []
  {
  }

  lemma NamesOfCounterexample()
    ensures NodeIndex.Dedup(NodeIndex.Endpoints([Edge("x", "y", "a"), Edge("r", "x", "a")], 2)) == ["x", "y", "r"]
  {
    var edges := [Edge("x", "y", "a"), Edge("r", "x", "a")];
    var s := ["x", "y", "r", "x"];
    assert NodeIndex.Endpoints(edges, 1) == s[..2];
    assert NodeIndex.Endpoints(edges, 2) == s;
    assert s[..3][..2] == s[..2] && s[..2][..1] == s[..1] && s[..1][..0] == [];
    assert NodeIndex.Dedup(s[..1]) == ["x"];
    assert NodeIndex.Dedup(s[..2]) == ["x", "y"];
    assert NodeIndex.Dedup(s[..3]) == ["x", "y", "r"];
  }

  /**
   * `validate` with the reference start taken from the reference nodes, as the
   * "No initial state in reference solution" message intends. It never
   * panics.
   */
  ghost function ValidateIntended(regex: string, submission: Option<seq<Edge>>): (v: Verdict)
    ensures v != Panic
  {
    match submission
    case None => Mismatch(ParseFailed)
    case Some(actualEdges) =>
      var actualNodes := NodeIndex.NodesOf(actualEdges);
      match FirstRoot(actualNodes)
      case None => Mismatch(NoInitialActual)
      case Some(actualStart) =>
        var referenceEdges := Compiler.RegexEdges(regex);
        var referenceNodes := NodeIndex.NodesOf(referenceEdges);
        match FirstRoot(referenceNodes)
        case None => Mismatch(NoInitialReference)
        case Some(referenceStart) =>
          if EquivalentFrom(actualNodes, actualEdges, referenceNodes, referenceEdges, actualStart, referenceStart)
          then Correct
          else Mismatch(NotEquivalent)
  }

  /**
   * The reference graph of a pattern with a word character has its root first,
   * so the code as written decides as intended whenever the submission's
   * first node is its first root (as in the compiled edges of every pattern
   * with a word character).
   */
  lemma IntendedWhenRootFirst(regex: string, edges: seq<Edge>)
    requires exists k :: 0 <= k < |regex| && regex[k] != '|'
    requires FirstRoot(NodeIndex.NodesOf(edges)) == Some(0)
    ensures ValidateSpec(regex, Some(edges)) == ValidateIntended(regex, Some(edges))
  {
    ReferenceStartsAtZero(regex);
  }

  /** With the intended start, a pattern of separators only has no reference state to start from. */
  lemma IntendedSeparatorsOnly(regex: string, edges: seq<Edge>)
    requires forall k :: 0 <= k < |regex| ==> regex[k] == '|'
    requires HasRoot(NodeIndex.NodesOf(edges))
    ensures ValidateIntended(regex, Some(edges)) == Mismatch(NoInitialReference)
  {
    Compiler.RegexEdgesEmptyIff(regex);
    assert NodeIndex.NodesOf([]) == [];
    var nodes := NodeIndex.NodesOf(edges);
    var i :| 0 <= i < |nodes| && nodes[i].IsRoot();
    assert FirstRoot(nodes).Some?;
  }

  lemma ActualNodesOfTestCase()
    ensures NodeIndex.NodesOf([Edge("q0", "q1", "a")]) == [Node("q0", [], [0]), Node("q1", [0], [])]
  {
    var edges := [Edge("q0", "q1", "a")];
    assert NodeIndex.Endpoints(edges, 1) == ["q0", "q1"];
    var s := ["q0", "q1"];
    assert s[..1] == ["q0"] && ["q0"][..0] == [];
    assert NodeIndex.Dedup(["q0"]) == ["q0"];
    assert NodeIndex.Dedup(s) == s;
    assert NodeIndex.OutIndices(edges, "q0", 1) == [0] && NodeIndex.InIndices(edges, "q0", 1) == [];
    assert NodeIndex.OutIndices(edges, "q1", 1) == [] && NodeIndex.InIndices(edges, "q1", 1) == [0];
  }

  lemma ReferenceEdgesOfA()
    ensures Compiler.RegexEdges("a") == [Edge("0", "0-1", "A"), Edge("0", "0-1", "a")]
  {
    assert "a"[1..] == "";
    assert Compiler.Split("", '|') == [""];
    assert [""][1..] == [] && ['a'] + "" == "a";
    assert Compiler.Split("a", '|') == ["a"];
    assert Compiler.NatToString(0) == "0" && Compiler.NatToString(1) == "1";
    assert Compiler.StateName(0, 1) == "0-1" && Compiler.SourceName(0, 0) == "0";
    assert Ascii.ToUpper('a') == 'A' && Ascii.ToLower('a') == 'a';
    assert Compiler.CharEdges('a', 0, 0) == [Edge("0", "0-1", "A"), Edge("0", "0-1", "a")];
    assert Compiler.WordEdges("a", 0) == Compiler.CharEdges('a', 0, 0);
    assert Compiler.WordsEdges(["a"], 1) == Compiler.WordEdges("a", 0);
  }

  lemma ReferenceNodesOfA()
    ensures NodeIndex.NodesOf([Edge("0", "0-1", "A"), Edge("0", "0-1", "a")])
         == [Node("0", [], [0, 1]), Node("0-1", [0, 1], [])]
  {
    var edges := [Edge("0", "0-1", "A"), Edge("0", "0-1", "a")];
    ReferenceNamesOfA();
    assert NodeIndex.OutIndices(edges, "0", 2) == [0, 1] && NodeIndex.InIndices(edges, "0", 2) == [];
    assert NodeIndex.OutIndices(edges, "0-1", 2) == [] && NodeIndex.InIndices(edges, "0-1", 2) == [0, 1];
  }

  lemma ReferenceNamesOfA()
    ensures NodeIndex.Dedup(NodeIndex.Endpoints([Edge("0", "0-1", "A"), Edge("0", "0-1", "a")], 2)) == ["0", "0-1"]
  {
    var edges := [Edge("0", "0-1", "A"), Edge("0", "0-1", "a")];
    var s := ["0", "0-1", "0", "0-1"];
    assert NodeIndex.Endpoints(edges, 1) == s[..2];
    assert NodeIndex.Endpoints(edges, 2) == s;
    assert s[..3][..2] == s[..2] && s[..2][..1] == s[..1] && s[..1][..0] == [];
    assert NodeIndex.Dedup(s[..1]) == ["0"];
    assert NodeIndex.Dedup(s[..2]) == ["0", "0-1"];
    assert NodeIndex.Dedup(s[..3]) == ["0", "0-1"];
  }
}
