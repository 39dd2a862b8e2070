/**
 * The DOT encoder of the automata environment: `Display for Edge` and
 * `edges_to_dot` (crates/envs/ce-automata/src/lib.rs). The text is a fixed
 * header, one statement per edge in input order, one `accepting=true`
 * statement per state that is a target but never a source (in the iteration
 * order of a hash set, modelled as an arbitrary order), and a closing brace.
 *
 * `Decode` is a reference reader for exactly this output format, written as
 * the encoder's inverse; the repository's own DOT parser is not part of this
 * model.
 */
module DotEncoder {
  import opened Wrappers
  import opened Collections
  import opened Graph

  /** The text `edges_to_dot` starts from: a leading space, a newline, four spaces. */
  const Header: string := " digraph Automaton {\n    rankdir=LR;"

  /** `Display for Edge`: `"from"->"to" [label="l"];`. */
  function EdgeToString(e: Edge): string
  {
    "\"" + e.from + "\"->\"" + e.to + "\" [label=\"" + e.lbl + "\"];"
  }

  /** The statement that marks `name` accepting: `"name" [accepting=true];`. */
  function AcceptingLine(name: string): string
  {
    "\"" + name + "\" [accepting=true];"
  }

  /** The edge statements, in edge order, with nothing between them. */
  function EdgeLines(edges: seq<Edge>): string
  {
    if |edges| == 0 then "" else EdgeToString(edges[0]) + EdgeLines(edges[1..])
  }

  /** The accepting statements, in the given order. */
  function AcceptingLines(names: seq<string>): string
  {
    if |names| == 0 then "" else AcceptingLine(names[0]) + AcceptingLines(names[1..])
  }

  function Sources(edges: seq<Edge>): set<string>
  {
    set e | e in edges :: e.from
  }

  function Targets(edges: seq<Edge>): set<string>
  {
    set e | e in edges :: e.to
  }

  lemma {:induction false} EdgeLinesAppend(edges: seq<Edge>, e: Edge)
    ensures EdgeLines(edges + [e]) == EdgeLines(edges) + EdgeToString(e)
  {
    if |edges| > 0 {
      assert (edges + [e])[1..] == edges[1..] + [e];
      EdgeLinesAppend(edges[1..], e);
    }
  }

  lemma {:induction false} AcceptingLinesAppend(names: seq<string>, n: string)
    ensures AcceptingLines(names + [n]) == AcceptingLines(names) + AcceptingLine(n)
  {
    if |names| > 0 {
      assert (names + [n])[1..] == names[1..] + [n];
      AcceptingLinesAppend(names[1..], n);
    }
  }

  lemma EndpointsAppend(edges: seq<Edge>, e: Edge)
    ensures Targets(edges + [e]) == Targets(edges) + {e.to}
    ensures Sources(edges + [e]) == Sources(edges) + {e.from}
  {
    assert forall x :: x in edges + [e] <==> x in edges || x == e;
  }

  // ---------------------------------------------------------------------------
  // The encoder
  // ---------------------------------------------------------------------------

  /**
   * `edges_to_dot`. The ghost result `annotated` is the order in which the
   * hash set produced the accepting states: each state that occurs as a
   * target and never as a source, exactly once.
   */
  method EdgesToDot(edges: seq<Edge>) returns (dot: string, ghost annotated: seq<string>)
    ensures NoDuplicates(annotated)
    ensures forall n :: n in annotated <==> n in Targets(edges) && n !in Sources(edges)
    ensures dot == Header + EdgeLines(edges) + AcceptingLines(annotated) + "}"
  {
    dot := WriteEdges(Header, edges);
    var fromNodes, toNodes := CollectEndpoints(edges);
    var lines;
    lines, annotated := AcceptingStatements(toNodes - fromNodes);
    dot := dot + lines;
    dot := dot + "}";
  }

  /** The first loop of `edges_to_dot`: one `Display` statement per edge, appended in order. */
  method WriteEdges(prefix: string, edges: seq<Edge>) returns (dot: string)
    ensures dot == prefix + EdgeLines(edges)
  {
    dot := prefix;
    for i := 0 to |edges|
      invariant dot == prefix + EdgeLines(edges[..i])
    {
      assert edges[..i + 1] == edges[..i] + [edges[i]];
      EdgeLinesAppend(edges[..i], edges[i]);
      dot := dot + EdgeToString(edges[i]);
    }
    assert edges[..|edges|] == edges;
  }

  /** The second loop of `edges_to_dot`: the sets of sources and of targets. */
  method CollectEndpoints(edges: seq<Edge>) returns (fromNodes: set<string>, toNodes: set<string>)
    ensures fromNodes == Sources(edges) && toNodes == Targets(edges)
  {
    fromNodes, toNodes := {}, {};
    for i := 0 to |edges|
      invariant toNodes == Targets(edges[..i])
      invariant fromNodes == Sources(edges[..i])
    {
      assert edges[..i + 1] == edges[..i] + [edges[i]];
      EndpointsAppend(edges[..i], edges[i]);
      toNodes := toNodes + {edges[i].to};
      fromNodes := fromNodes + {edges[i].from};
    }
    assert edges[..|edges|] == edges;
  }

  /**
   * The third loop of `edges_to_dot`: one accepting statement per element of
   * `pending`, in an order the hash set chooses; `annotated` records that order.
   */
  method AcceptingStatements(pending0: set<string>) returns (lines: string, ghost annotated: seq<string>)
    ensures NoDuplicates(annotated)
    ensures forall n :: n in annotated <==> n in pending0
    ensures lines == AcceptingLines(annotated)
  {
    var pending := pending0;
    lines, annotated := "", [];
    while pending != {}
      invariant lines == AcceptingLines(annotated)
      invariant NoDuplicates(annotated)
      invariant forall n :: n in annotated ==> n !in pending
      invariant forall n :: n in pending0 <==> n in annotated || n in pending
      decreases pending
    {
      var n :| n in pending;
      AcceptingLinesAppend(annotated, n);
      lines := lines + AcceptingLine(n);
      annotated := annotated + [n];
      pending := pending - {n};
    }
  }

  // ---------------------------------------------------------------------------
  // The reference reader
  // ---------------------------------------------------------------------------

  datatype Statement = EdgeStatement(edge: Edge) | AcceptingStatement(name: string)

  predicate QuoteFree(s: string) { '"' !in s }

  predicate EdgesQuoteFree(edges: seq<Edge>)
  {
    forall e :: e in edges ==> QuoteFree(e.from) && QuoteFree(e.to) && QuoteFree(e.lbl)
  }

  /** The text up to the next quote, and what follows that quote. */
  function ReadQuoted(s: string): (r: Option<(string, string)>)
    ensures r.Some? ==> |r.value.1| < |s|
  {
    if |s| == 0 then None
    else if s[0] == '"' then Some(("", s[1..]))
    else match ReadQuoted(s[1..])
      case None => None
      case Some((t, rest)) => Some(([s[0]] + t, rest))
  }

  /** What follows the literal `lit`, if `s` starts with it. */
  function Expect(lit: string, s: string): (r: Option<string>)
    ensures r.Some? ==> |r.value| == |s| - |lit|
  {
    if lit <= s then Some(s[|lit|..]) else None
  }

  /** Reads one edge or accepting statement from the front of `s`. */
  function ParseStatement(s: string): (r: Option<(Statement, string)>)
    ensures r.Some? ==> |r.value.1| < |s|
  {
    match Expect("\"", s)
    case None => None
    case Some(s0) =>
      match ReadQuoted(s0)
      case None => None
      case Some((name, s1)) => ParseAfterName(name, s1)
  }

  /** After the first quoted name: either `->` and the rest of an edge, or the accepting marker. */
  function ParseAfterName(name: string, s: string): (r: Option<(Statement, string)>)
    ensures r.Some? ==> |r.value.1| < |s|
  {
    match Expect("->\"", s)
    case Some(s1) => ParseEdgeTail(name, s1)
    case None =>
      match Expect(" [accepting=true];", s)
      case None => None
      case Some(s1) => Some((AcceptingStatement(name), s1))
  }

  /** After `"from"->"`: the target, then the label attribute. */
  function ParseEdgeTail(from: string, s: string): (r: Option<(Statement, string)>)
    ensures r.Some? ==> |r.value.1| < |s|
  {
    match ReadQuoted(s)
    case None => None
    case Some((to, s1)) =>
      match Expect(" [label=\"", s1)
      case None => None
      case Some(s2) => ParseLabelTail(from, to, s2)
  }

  /** After `[label="`: the label, then `"];`. */
  function ParseLabelTail(from: string, to: string, s: string): (r: Option<(Statement, string)>)
    ensures r.Some? ==> |r.value.1| < |s|
  {
    match ReadQuoted(s)
    case None => None
    case Some((lbl, s1)) =>
      match Expect("];", s1)
      case None => None
      case Some(s2) => Some((EdgeStatement(Edge(from, to, lbl)), s2))
  }

  /** Reads statements up to the closing brace: the edges and the accepting names, each in order. */
  function ParseBody(s: string): Option<(seq<Edge>, seq<string>)>
    decreases |s|
  {
    if s == "}" then Some(([], []))
    else match ParseStatement(s)
      case None => None
      case Some((st, rest)) =>
        match ParseBody(rest)
        case None => None
        case Some((es, ns)) =>
          match st
          case EdgeStatement(e) => Some(([e] + es, ns))
          case AcceptingStatement(n) => Some((es, [n] + ns))
  }

  function Decode(dot: string): Option<(seq<Edge>, seq<string>)>
  {
    match Expect(Header, dot)
    case None => None
    case Some(body) => ParseBody(body)
  }

  lemma {:induction false} ReadQuotedRoundTrip(t: string, rest: string)
    requires QuoteFree(t)
    ensures ReadQuoted(t + "\"" + rest) == Some((t, rest))
  {
    var s := t + "\"" + rest;
    if |t| == 0 {
      assert s[0] == '"' && s[1..] == rest;
    } else {
      assert s[0] == t[0] && t[0] != '"';
      assert s[1..] == t[1..] + "\"" + rest;
      ReadQuotedRoundTrip(t[1..], rest);
      assert [t[0]] + t[1..] == t;
    }
  }

  lemma ExpectPrefix(lit: string, rest: string)
    ensures Expect(lit, lit + rest) == Some(rest)
  {
    assert (lit + rest)[|lit|..] == rest;
  }

  lemma ParseLabelTailRoundTrip(from: string, to: string, lbl: string, rest: string)
    requires QuoteFree(lbl)
    ensures ParseLabelTail(from, to, lbl + "\"];" + rest) == Some((EdgeStatement(Edge(from, to, lbl)), rest))
  {
    assert lbl + "\"];" + rest == lbl + "\"" + ("];" + rest);
    ReadQuotedRoundTrip(lbl, "];" + rest);
    ExpectPrefix("];", rest);
  }

  lemma ParseEdgeTailRoundTrip(from: string, to: string, lbl: string, rest: string)
    requires QuoteFree(to) && QuoteFree(lbl)
    ensures ParseEdgeTail(from, to + "\" [label=\"" + lbl + "\"];" + rest)
         == Some((EdgeStatement(Edge(from, to, lbl)), rest))
  {
    var s2 := lbl + "\"];" + rest;
    assert to + "\" [label=\"" + lbl + "\"];" + rest == to + "\"" + (" [label=\"" + s2);
    ReadQuotedRoundTrip(to, " [label=\"" + s2);
    ExpectPrefix(" [label=\"", s2);
    ParseLabelTailRoundTrip(from, to, lbl, rest);
  }

  lemma ParseEdgeStatement(e: Edge, rest: string)
    requires QuoteFree(e.from) && QuoteFree(e.to) && QuoteFree(e.lbl)
    ensures ParseStatement(EdgeToString(e) + rest) == Some((EdgeStatement(e), rest))
  {
    var s2 := e.to + "\" [label=\"" + e.lbl + "\"];" + rest;
    var s1 := "->\"" + s2;
    var s0 := e.from + "\"" + s1;
    assert EdgeToString(e) + rest == "\"" + s0;
    ExpectPrefix("\"", s0);
    ReadQuotedRoundTrip(e.from, s1);
    ExpectPrefix("->\"", s2);
    ParseEdgeTailRoundTrip(e.from, e.to, e.lbl, rest);
  }

  lemma ParseAcceptingStatement(n: string, rest: string)
    requires QuoteFree(n)
    ensures ParseStatement(AcceptingLine(n) + rest) == Some((AcceptingStatement(n), rest))
  {
    var s1 := " [accepting=true];" + rest;
    var s0 := n + "\"" + s1;
    AcceptingLineShape(n, rest);
    ExpectPrefix("\"", s0);
    ReadQuotedRoundTrip(n, s1);
    ParseAfterNameAccepting(n, rest);
  }

  lemma AcceptingLineShape(n: string, rest: string)
    ensures AcceptingLine(n) + rest == "\"" + (n + "\"" + (" [accepting=true];" + rest))
  {
    Assoc("\"" + n + "\"", " [accepting=true];", rest);
    Assoc("\"" + n, "\"", " [accepting=true];" + rest);
    Assoc("\"", n, "\"" + (" [accepting=true];" + rest));
  }

  /** After the name, the accepting marker is not an arrow. */
  lemma ParseAfterNameAccepting(name: string, rest: string)
    ensures ParseAfterName(name, " [accepting=true];" + rest) == Some((AcceptingStatement(name), rest))
  {
    var s := " [accepting=true];" + rest;
    assert Expect("->\"", s) == None by {
      assert s[0] == ' ' && "->\""[0] == '-';
    }
    ExpectPrefix(" [accepting=true];", rest);
  }

  lemma {:induction false} ParseAcceptingBody(names: seq<string>)
    requires forall n :: n in names ==> QuoteFree(n)
    ensures ParseBody(AcceptingLines(names) + "}") == Some(([], names))
  {
    if |names| > 0 {
      var rest := AcceptingLines(names[1..]) + "}";
      assert AcceptingLines(names) + "}" == AcceptingLine(names[0]) + rest;
      ParseAcceptingStatement(names[0], rest);
      ParseAcceptingBody(names[1..]);
      assert AcceptingLine(names[0]) + rest != "}" by {
        assert |AcceptingLine(names[0])| > 1;
      }
      HeadTail(names);
    }
  }

  lemma {:induction false} ParseBodyRoundTrip(edges: seq<Edge>, names: seq<string>)
    requires EdgesQuoteFree(edges)
    requires forall n :: n in names ==> QuoteFree(n)
    ensures ParseBody(EdgeLines(edges) + AcceptingLines(names) + "}") == Some((edges, names))
  {
    if |edges| == 0 {
      assert EdgeLines(edges) + AcceptingLines(names) + "}" == AcceptingLines(names) + "}";
      ParseAcceptingBody(names);
    } else {
      var rest := EdgeLines(edges[1..]) + AcceptingLines(names) + "}";
      assert EdgeLines(edges) == EdgeToString(edges[0]) + EdgeLines(edges[1..]);
      Assoc(EdgeToString(edges[0]), EdgeLines(edges[1..]), AcceptingLines(names));
      Assoc(EdgeToString(edges[0]), EdgeLines(edges[1..]) + AcceptingLines(names), "}");
      assert edges[0] in edges;
      ParseEdgeStatement(edges[0], rest);
      assert EdgesQuoteFree(edges[1..]) by {
        forall e | e in edges[1..] ensures e in edges { }
      }
      ParseBodyRoundTrip(edges[1..], names);
      assert EdgeToString(edges[0]) + rest != "}" by {
        assert |EdgeToString(edges[0])| > 1;
      }
      HeadTail(edges);
    }
  }

  /** Reading the encoder's text gives back the edges, in order, and the accepting names, in order. */
  lemma DecodeEncode(edges: seq<Edge>, names: seq<string>)
    requires EdgesQuoteFree(edges)
    requires forall n :: n in names ==> QuoteFree(n)
    ensures Decode(Header + EdgeLines(edges) + AcceptingLines(names) + "}") == Some((edges, names))
  {
    var body := EdgeLines(edges) + AcceptingLines(names) + "}";
    Assoc(Header, EdgeLines(edges), AcceptingLines(names));
    Assoc(Header, EdgeLines(edges) + AcceptingLines(names), "}");
    ExpectPrefix(Header, body);
    ParseBodyRoundTrip(edges, names);
  }
}
