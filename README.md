# Automata oracle and hello-world environment, modelled in Dafny

This project models two small grading environments and proves properties of the models.

The first is the automata oracle (`crates/envs/ce-automata/src/lib.rs`). It has five parts:

- **Pattern compiler.** It turns a `|`-separated list of literal words into labelled edges. Word `id` becomes a chain of states "0", "id-1", "id-2", ... that share the root "0". Each character gives one edge if its upper- and lower-case forms agree. Otherwise it gives two edges: the upper-case label first, then the lower-case one.
- **DOT encoder.** It writes those edges as text: a header, one statement per edge in order, one `accepting=true` statement per state that is a target but never a source, then `}`.
- **Node index builder (`derive_nodes`).** It numbers the states by first appearance. Each state records the indices of its incoming and outgoing edges.
- **Backward liveness worklist (`compute_live`).** It marks every state from which an accepting state can be reached. A state is accepting when it has no outgoing edge.
- **Equivalence check (`equivalent`).** This is a breadth-first search over pairs of states. It fails at a pair whose "accepting and live" status differs, or where exactly one side has a live successor on some label of the joint alphabet.

`validate` applies these parts to a parsed submission. `run` prints the compiled pattern.

The second is the hello-world environment (`crates/envs/ce-hello-world/src/lib.rs`). `run` splits the source on whitespace, upper-cases the words at odd positions and joins the words with single spaces. `validate` compares a submission with the output of `run`.

## Modules

| file | module | what it holds |
|---|---|---|
| `wrappers.dfy` | `Wrappers` | `Option` |
| `collections.dfy` | `Collections` | `NoDuplicates` and four sequence facts (`HeadTail`, `PrefixSuffix`, `PrefixOfConcat`, `Assoc`) |
| `ascii.dfy` | `Ascii` | ASCII case mapping and Rust's whitespace class |
| `graph.dfy` | `Graph` | `Edge`, `Node` (`IsAccepting`, `IsRoot`), `Iterator::position` (`FirstIndex`), the well-formedness of a node index |
| `compiler.dfy` | `Compiler` | `automata_edges_from_word`, `split_and_collect` |
| `dot_encoder.dfy` | `DotEncoder` | `Display for Edge`, `edges_to_dot`, and a reader for exactly that output |
| `node_index.dfy` | `NodeIndex` | `derive_nodes` and `get_or_create` |
| `liveness.dfy` | `Liveness` | `compute_live` |
| `equivalence.dfy` | `Equivalence` | `transition`, `alphabet`, `equivalent` |
| `automata_env.dfy` | `AutomataEnv` | `AutomataEnv::run`, and `AutomataEnv::validate` after the DOT text has been parsed |
| `hello_world.dfy` | `HelloWorld` | `HelloWorldEnv::run` and `HelloWorldEnv::validate` |

**Form of the model.**

- Every loop of the automata code is a method with loop invariants: the character loop, the word loop, the DOT writer, the node index builder, the liveness worklist and the breadth-first search. Each method is proved against a reference function, or against a predicate over the whole state.
- `HashSet` iteration orders are arbitrary choices (`:|`). They are recorded in ghost results where a caller needs them, such as the order of the accepting statements.
- `transition`, `alphabet`, `is_accepting`, `is_root` and `Display` are functions.
- The hello-world environment is one iterator chain, so it is modelled as functions.

**In these points the model follows the code as written:**

- **Pattern characters.** The compiler accepts any character. It does not reject characters that are not alphanumeric.
- **Name lookups.** `transition` and `compute_live` find a state by a linear `position` scan, which takes the first node with that name. They do not use a name-to-index map.
- **Reference start.** `validate` takes the start state of the reference automaton from the submission's node list (lib.rs:164), not from the reference's own node list. This is recorded under "Findings".
- **Parse failures.** An unparsable submission is a plain `Mismatch`, not a separate structural error.

## Model

| member | source | states |
|---|---|---|
| `Graph.Node.IsAccepting` | crates/envs/ce-automata/src/lib.rs:37-39 | definition (no outgoing edge index); `NodeIndex.DeriveNodesRootAccepting` states that on a `derive_nodes` index this means no edge leaves the state |
| `Graph.Node.IsRoot` | crates/envs/ce-automata/src/lib.rs:41-43 | definition (no incoming edge index); `NodeIndex.DeriveNodesRootAccepting` states that on a `derive_nodes` index this means no edge enters the state |
| `Graph.FirstIndex` | crates/envs/ce-automata/src/lib.rs:290 | `Iterator::position`: the index found satisfies the predicate and no earlier element does; `None` exactly when no element does |
| `Graph.PositionFirstMatch` | crates/envs/ce-automata/src/lib.rs:290 | the name lookup `nodes.iter().position(\|n\| n.name == ..)` (also lib.rs:335), defined by `Graph.Position`: the index found names that node and no earlier node has the name; `None` exactly when no node has it |
| `Graph.FirstRootFirstMatch` | crates/envs/ce-automata/src/lib.rs:153-160 | the root lookup `actual_nodes.iter().position(\|n\| n.is_root())` (also lib.rs:164), defined by `Graph.FirstRoot`: the index found is a root and no earlier node is; `None` exactly when no node is a root |
| `Ascii.UpperString` | crates/envs/ce-hello-world/src/lib.rs:29 | `to_uppercase` on ASCII: same length, each character upper-cased |
| `Ascii.CaseFormsEqualIffNotLetter` | crates/envs/ce-automata/src/lib.rs:68-70 | a character's upper- and lower-case forms agree exactly when it is not a letter |
| `Ascii.ToUpperIdempotent` | crates/envs/ce-hello-world/src/lib.rs:29 | upper-casing an upper-cased character changes nothing |
| `Ascii.ToUpperKeepsWhitespaceClass` | crates/envs/ce-hello-world/src/lib.rs:25-29 | upper-casing never turns whitespace into non-whitespace, or the reverse |
| `Compiler.NatToString` | crates/envs/ce-automata/src/lib.rs:61-65 | `usize::to_string` yields a non-empty string of decimal digits |
| `Compiler.ParseNatToString` | crates/envs/ce-automata/src/lib.rs:61-65 | reading the decimal text back gives the number |
| `Compiler.NatToStringInjective` | crates/envs/ce-automata/src/lib.rs:61-65 | different numbers give different texts |
| `Compiler.StateName` | crates/envs/ce-automata/src/lib.rs:61 | definition of `format!("{}-{}", id, i)`; `Compiler.StateNameInjective` and `Compiler.StateNameNotRoot` state its properties |
| `Compiler.SourceName` | crates/envs/ce-automata/src/lib.rs:60-64 | the source of character i's edges is "0" exactly when i is 0 |
| `Compiler.CharEdgesLayout` | crates/envs/ce-automata/src/lib.rs:59-84 | the edges `Compiler.CharEdges` pushes for one character: one edge for a non-letter and two for a letter, all from `SourceName(id, i)` to "id-(i+1)"; the first carries the upper-case form and the last the lower-case form |
| `Compiler.StateNameInjective` | crates/envs/ce-automata/src/lib.rs:61-65 | `format!("{}-{}", id, i)` names differ for different (word, position) pairs |
| `Compiler.StateNameNotRoot` | crates/envs/ce-automata/src/lib.rs:65 | no "id-i" state is the root "0" |
| `Compiler.AutomataEdgesFromWord` | crates/envs/ce-automata/src/lib.rs:56-87 | the loop returns the edges of every character of the word, in character order |
| `Compiler.WordEdgesLayout` | crates/envs/ce-automata/src/lib.rs:58-85 | character i contributes one edge when its case forms agree and two otherwise; both go from `SourceName(id, i)` to "id-(i+1)", the upper-case label first and the lower-case one next, at the position given by the widths of the earlier characters |
| `Compiler.PrefixEdgesLength` | crates/envs/ce-automata/src/lib.rs:58-85 | the edge count is the sum of the characters' widths (1 or 2) |
| `Compiler.PrefixEdgesExtends` | crates/envs/ce-automata/src/lib.rs:58-85 | emission only appends: the edges of a shorter prefix are a prefix of the edges of a longer one |
| `Compiler.PrefixEdgesShape` | crates/envs/ce-automata/src/lib.rs:59-69 | every edge comes from some character i: it leaves `SourceName(id, i)`, enters "id-(i+1)" and carries a case form of that character |
| `Compiler.PrefixEdgesFirst` | crates/envs/ce-automata/src/lib.rs:60-64 | the first edge of a non-empty word leaves "0" |
| `Compiler.WordEdgesFirst` | crates/envs/ce-automata/src/lib.rs:60-64 | a word's edges are empty or start at "0" |
| `Compiler.WordEdgesEmpty` | crates/envs/ce-automata/src/lib.rs:58 | a word gives no edges exactly when it is empty |
| `Compiler.Split` | crates/envs/ce-automata/src/lib.rs:118 | `split("\|")` yields at least one part, and no part contains a separator |
| `Compiler.JoinSplit` | crates/envs/ce-automata/src/lib.rs:118 | joining the parts with the separator gives the pattern back |
| `Compiler.SplitChars` | crates/envs/ce-automata/src/lib.rs:118 | the parts hold exactly the pattern's non-separator characters |
| `Compiler.SplitAndCollect` | crates/envs/ce-automata/src/lib.rs:116-124 | the loop returns the edges of the words concatenated in word order, word i compiled with id i |
| `Compiler.WordsEdgesShape` | crates/envs/ce-automata/src/lib.rs:120-122 | every edge of the first n words comes from some character of some word id < n |
| `Compiler.RegexEdgeOrigin` | crates/envs/ce-automata/src/lib.rs:116-124 | every compiled edge comes from character i of word id: from `SourceName(id, i)` to "id-(i+1)" |
| `Compiler.NoEdgeTargetsRoot` | crates/envs/ce-automata/src/lib.rs:65 | no compiled edge enters "0" |
| `Compiler.WordsEdgesEmpty` | crates/envs/ce-automata/src/lib.rs:120-122 | the first n words give no edges exactly when they are all empty |
| `Compiler.RegexEdgesEmptyIff` | crates/envs/ce-automata/src/lib.rs:116-124 | a pattern gives no edges exactly when it consists of separators only; the empty pattern (one empty word) gives none |
| `Compiler.WordsEdgesFirst` | crates/envs/ce-automata/src/lib.rs:120-122 | the edges of the first n words are empty or start at "0" |
| `Compiler.FirstEdgeLeavesRoot` | crates/envs/ce-automata/src/lib.rs:116-124 | the first compiled edge leaves the root "0" |
| `DotEncoder.EdgeToString` | crates/envs/ce-automata/src/lib.rs:46-54 | definition of the `Display` text `"from"->"to" [label="l"];`; `DotEncoder.ParseEdgeStatement` states that it reads back as the edge |
| `DotEncoder.AcceptingLine` | crates/envs/ce-automata/src/lib.rs:107 | definition of `"name" [accepting=true];`; `DotEncoder.ParseAcceptingStatement` states that it reads back as the name |
| `DotEncoder.EdgesToDot` | crates/envs/ce-automata/src/lib.rs:89-114 | the text is the header, the edge statements in input order, one accepting statement for each state that is a target and never a source (each exactly once, in some order), then `}` |
| `DotEncoder.WriteEdges` | crates/envs/ce-automata/src/lib.rs:95-97 | the first loop appends the edge statements in input order |
| `DotEncoder.CollectEndpoints` | crates/envs/ce-automata/src/lib.rs:99-105 | the two hash sets are exactly the edges' sources and targets |
| `DotEncoder.AcceptingStatements` | crates/envs/ce-automata/src/lib.rs:106-109 | iterating over the set difference writes one statement per element, with no repeats |
| `DotEncoder.EdgeLinesAppend` | crates/envs/ce-automata/src/lib.rs:95-97 | one more edge appends exactly its statement |
| `DotEncoder.AcceptingLinesAppend` | crates/envs/ce-automata/src/lib.rs:106-109 | one more accepting state appends exactly its statement |
| `DotEncoder.EndpointsAppend` | crates/envs/ce-automata/src/lib.rs:102-105 | one more edge adds exactly its source and its target to the two sets |
| `DotEncoder.ParseEdgeStatement` | crates/envs/ce-automata/src/lib.rs:46-54 | the `Display` text of an edge whose fields have no quotes reads back as that edge |
| `DotEncoder.ParseAcceptingStatement` | crates/envs/ce-automata/src/lib.rs:107 | an accepting statement reads back as its state name |
| `DotEncoder.ParseBodyRoundTrip` | crates/envs/ce-automata/src/lib.rs:95-111 | the statements after the header read back as the edges in order and the accepting names in order |
| `DotEncoder.DecodeEncode` | crates/envs/ce-automata/src/lib.rs:89-114 | the whole text reads back as the edges and the accepting names |
| `NodeIndex.GetOrCreate` | crates/envs/ce-automata/src/lib.rs:250-267 | a known name returns its index and leaves everything unchanged; an unknown one appends a node with empty lists, maps the name to the new last index and returns that index |
| `NodeIndex.DeriveNodes` | crates/envs/ce-automata/src/lib.rs:246-278 | the node names are the distinct endpoint names in first-appearance order, and every node's lists are exactly its outgoing and incoming edge indices |
| `NodeIndex.AddEdge` | crates/envs/ce-automata/src/lib.rs:269-275 | handling edge k extends the index of the first k edges to the index of the first k+1 edges |
| `NodeIndex.DeriveNodesDistinct` | crates/envs/ce-automata/src/lib.rs:255-265 | node names are pairwise distinct |
| `NodeIndex.DeriveNodesNames` | crates/envs/ce-automata/src/lib.rs:269-271 | a name belongs to a node exactly when it is an endpoint of some edge |
| `NodeIndex.DeriveNodesOrder` | crates/envs/ce-automata/src/lib.rs:269-271 | nodes appear in first-appearance order among from0, to0, from1, to1, ... (the source before the target of each edge) |
| `NodeIndex.FirstNodeIsFirstSource` | crates/envs/ce-automata/src/lib.rs:269-270 | the first node is the source of the first edge |
| `NodeIndex.DeriveNodesBookkeeping` | crates/envs/ce-automata/src/lib.rs:273-274 | k is in a node's outgoing list exactly when edge k leaves it, and in its ingoing list exactly when edge k enters it; both lists are strictly ascending, so no index occurs twice |
| `NodeIndex.DeriveNodesEdgeHome` | crates/envs/ce-automata/src/lib.rs:269-274 | every edge index is recorded in the outgoing list of exactly one node (the one named like its source) and in the ingoing list of exactly one node (named like its target) |
| `NodeIndex.PositionOfName` | crates/envs/ce-automata/src/lib.rs:335 | looking up a node's name by first match finds that node |
| `NodeIndex.DeriveNodesRootAccepting` | crates/envs/ce-automata/src/lib.rs:36-44 | a node is a root exactly when no edge enters it, and accepting exactly when no edge leaves it |
| `NodeIndex.DeriveNodesWellFormed` | crates/envs/ce-automata/src/lib.rs:287-288 | the lists index into the edges and every incoming edge's source is a node, so `edges[e]` and the `unwrap` in `compute_live` cannot panic |
| `NodeIndex.NodesOf` | crates/envs/ce-automata/src/lib.rs:246-278 | the index as a value: it satisfies the `derive_nodes` characterisation and is well formed |
| `NodeIndex.IndexedByUnique` | crates/envs/ce-automata/src/lib.rs:246-278 | only one index satisfies that characterisation, so `derive_nodes` returns `NodesOf` |
| `Liveness.ComputeLive` | crates/envs/ce-automata/src/lib.rs:322-344 | one flag per node; accepting nodes are live; the live set is closed under taking the source of an incoming edge (first match by name); a node is live exactly when a chain of such steps leads from an accepting node to it; every live node is pushed exactly once and no other node is pushed |
| `Liveness.PushAccepting` | crates/envs/ce-automata/src/lib.rs:326-331 | the seeding loop marks and pushes exactly the accepting nodes, in ascending index order |
| `Liveness.PushSources` | crates/envs/ce-automata/src/lib.rs:334-340 | after the inner loop every incoming edge of the popped node has a live source; newly marked nodes are pushed once each, and the stack only grows on top |
| `Liveness.PredecessorIsForwardEdge` | crates/envs/ce-automata/src/lib.rs:334-335 | on a `derive_nodes` index, the backward step through an ingoing edge is a forward step through an outgoing one |
| `Liveness.LiveIffReachesAccepting` | crates/envs/ce-automata/src/lib.rs:322-344 | on a `derive_nodes` index, a node is live within k backward steps exactly when a forward path of at most k edges leads from it to an accepting node |
| `Equivalence.Transition` | crates/envs/ce-automata/src/lib.rs:281-294 | the result, if any, is a node index |
| `Equivalence.TransitionFirstMatch` | crates/envs/ce-automata/src/lib.rs:281-294 | `None` when no outgoing edge carries the label; otherwise the first node named like the target of the first edge in outgoing order that carries it |
| `Equivalence.TransitionNoneIff` | crates/envs/ce-automata/src/lib.rs:281-294 | on a `derive_nodes` index, `transition` gives `None` exactly when no edge leaving the node carries the label |
| `Equivalence.OutsideAlphabet` | crates/envs/ce-automata/src/lib.rs:287-293 | a label that no edge carries moves nowhere |
| `Equivalence.Alphabet` | crates/envs/ce-automata/src/lib.rs:296-298 | a label is in the alphabet exactly when some edge carries it |
| `Equivalence.LiveOf` | crates/envs/ce-automata/src/lib.rs:209-210 | the liveness vector marks exactly the live nodes |
| `Equivalence.LiveOfComputed` | crates/envs/ce-automata/src/lib.rs:209-210 | a vector that marks exactly the live nodes is that vector |
| `Equivalence.LiveStep` | crates/envs/ce-automata/src/lib.rs:228-229 | `transition(..).filter(\|&s\| live[s])`: any successor it gives is a node of the graph |
| `Equivalence.LiveStepFilter` | crates/envs/ce-automata/src/lib.rs:228-229 | `Equivalence.LiveStep` gives a successor exactly when `transition` gives one and it is live, and then that same successor |
| `Equivalence.Equivalent` | crates/envs/ce-automata/src/lib.rs:201-244 | true exactly when no word over labels leads from the start pair to a pair that differs in "accepting and live", or where a label of the joint alphabet has a live successor on one side only |
| `Equivalence.ProductSearch` | crates/envs/ce-automata/src/lib.rs:212-243 | the same answer for the breadth-first search itself; the loop terminates because the number of unseen pairs of indices decreases, and a pair is queued only when it is first added to `visited` |
| `Equivalence.ExploreLabels` | crates/envs/ce-automata/src/lib.rs:227-240 | the label loop either finishes the pair, with every successor seen, or finds a label that moves exactly one side, and grows `visited` and the queue together |
| `Equivalence.ExploreLabel` | crates/envs/ce-automata/src/lib.rs:228-238 | one label: reports whether both sides move or neither does, and records the successor pair if it is new |
| `Equivalence.VisitedBounded` | crates/envs/ce-automata/src/lib.rs:215-219 | the pairs seen are at most all pairs of node indices |
| `Equivalence.NothingBadReachable` | crates/envs/ce-automata/src/lib.rs:221-243 | once every seen pair is finished, no word reaches a bad pair |
| `Equivalence.SelfEquivalence` | crates/envs/ce-automata/src/lib.rs:201-244 | an automaton is equivalent to itself from any state |
| `Equivalence.DistinguishesSymmetric` | crates/envs/ce-automata/src/lib.rs:201-244 | swapping the two automata does not change which words distinguish them |
| `AutomataEnv.ValidateSpec` | crates/envs/ce-automata/src/lib.rs:142-178 | a parse failure, and nothing else, gives the parse mismatch; the "no initial state in reference solution" mismatch is never produced |
| `AutomataEnv.Validate` | crates/envs/ce-automata/src/lib.rs:142-178 | the glue code computes `ValidateSpec`: parse failure, no root in the submission, the reference start index from the submission's nodes (a panic when it lies outside the reference nodes), then the equivalence verdict |
| `AutomataEnv.Run` | crates/envs/ce-automata/src/lib.rs:134-138 | `run` writes the header, the compiled edges in order, one accepting statement per target that is never a source, then `}` |
| `AutomataEnv.NoInitialActualIff` | crates/envs/ce-automata/src/lib.rs:153-160 | a submission lacks an initial state exactly when every edge source is also some edge's target |
| `AutomataEnv.ReferenceStartsAtZero` | crates/envs/ce-automata/src/lib.rs:162-163 | for a pattern with at least one word character, the first reference node is "0" and it is the first root |
| `AutomataEnv.CompiledPatternCorrect` | crates/envs/ce-automata/src/lib.rs:162-177 | submitting the compiled edges of a pattern with a word character gives `Correct` |
| `AutomataEnv.SeparatorsOnly` | crates/envs/ce-automata/src/lib.rs:153-173 | for a pattern of separators only, its own compilation is rejected for lacking an initial state, and every submission that has one makes `validate` panic |
| `AutomataEnv.RunOutputAccepted` | crates/envs/ce-automata/src/lib.rs:134-177 | the text `run` writes for a pattern without quotes reads back as the compiled edges and accepting states; when the pattern has a word character, those edges are accepted by `validate` |
| `AutomataEnv.SingleLowerCaseEdgeMismatch` | crates/envs/ce-automata/src/tests.rs:5-25 | the pattern "a" against the single edge q0 -> q1 labelled "a" is `Mismatch` (not equivalent) |
| `AutomataEnv.UpperCaseDistinguishes` | crates/envs/ce-automata/src/tests.rs:5-25 | in that case the empty word already distinguishes the start pair: "A" moves the pattern's automaton to a live state and the submission nowhere |
| `AutomataEnv.ReferenceStartOutOfRange` | crates/envs/ce-automata/src/lib.rs:164 | the pattern "a" against the edges x -> y, r -> x makes `validate` panic |
| `AutomataEnv.ValidateIntended` | crates/envs/ce-automata/src/lib.rs:164-171 | with the reference start taken from the reference nodes, `validate` never panics |
| `AutomataEnv.IntendedWhenRootFirst` | crates/envs/ce-automata/src/lib.rs:164 | when the submission's first root is its first node and the pattern has a word character, the code as written decides as intended |
| `AutomataEnv.IntendedSeparatorsOnly` | crates/envs/ce-automata/src/lib.rs:164-171 | as intended, a pattern of separators only gives the "no initial state in reference solution" mismatch |
| `HelloWorld.SplitWhitespace` | crates/envs/ce-hello-world/src/lib.rs:25 | `split_whitespace` yields non-empty words without whitespace; `HelloWorld.SplitLayout` and `HelloWorld.LayoutSplit` state which words |
| `HelloWorld.Gaps` | crates/envs/ce-hello-world/src/lib.rs:25 | one whitespace run more than there are words |
| `HelloWorld.SplitLayout` | crates/envs/ce-hello-world/src/lib.rs:25 | every text is its words interleaved with blank runs, the runs between two words non-empty: the words are the maximal non-whitespace runs, in order, none dropped |
| `HelloWorld.LayoutSplit` | crates/envs/ce-hello-world/src/lib.rs:25 | conversely, words interleaved with such runs split back into exactly those words, so the words of every text are determined |
| `HelloWorld.JoinWords` | crates/envs/ce-hello-world/src/lib.rs:37 | `join(" ")` of words is empty exactly when there are no words |
| `HelloWorld.SplitJoin` | crates/envs/ce-hello-world/src/lib.rs:25-37 | splitting words joined by single spaces gives the words back |
| `HelloWorld.SplitBlank` | crates/envs/ce-hello-world/src/lib.rs:25 | a text has no words exactly when it is all whitespace |
| `HelloWorld.JoinTidy` | crates/envs/ce-hello-world/src/lib.rs:37 | joined words have no whitespace at either end, and each whitespace character is one space followed by a word character |
| `HelloWorld.AlternateCase` | crates/envs/ce-hello-world/src/lib.rs:26-34 | the map keeps the number of words |
| `HelloWorld.Run` | crates/envs/ce-hello-world/src/lib.rs:22-39 | the output splits back into the source's words with the odd-position ones upper-cased, and it is tidy: no whitespace at either end, each whitespace character a single space before a word character |
| `HelloWorld.RunWords` | crates/envs/ce-hello-world/src/lib.rs:23-37 | re-splitting the output gives as many words as the source, the even-position words unchanged and the odd-position words upper-cased |
| `HelloWorld.RunBlank` | crates/envs/ce-hello-world/src/lib.rs:23-37 | the output is "" exactly when the source is empty or all whitespace |
| `HelloWorld.UpperStringIdempotent` | crates/envs/ce-hello-world/src/lib.rs:29 | upper-casing a word twice is upper-casing it once |
| `HelloWorld.RunIdempotent` | crates/envs/ce-hello-world/src/lib.rs:23-37 | with ASCII case mapping, applying `run` to its own output gives the same output |
| `HelloWorld.Validate` | crates/envs/ce-hello-world/src/lib.rs:41-50 | `Correct` exactly when the submission equals the output of `run`, `Mismatch` otherwise |
| `HelloWorld.ValidateRunOutput` | crates/envs/ce-hello-world/src/lib.rs:41-50 | the output of `run` is accepted, both for the source and for that output itself as the source |

## Left out

- The DOT parser (`dot::dot_to_petgraph`, lib.rs:1 and 143) is not part of this model. A submission is the edge list it produces, or `None` for a parse error. `DotEncoder.Decode` reads only the encoder's own output format. It is not a model of that parser.
- `ParsedGraph::edges` (lib.rs:303-320) is left out. It only adapts the petgraph edge list, whose order the model takes as given.
- The `Generate` impls (ce-automata lib.rs:181-199, ce-hello-world lib.rs:53-86) are left out because they draw random numbers.
- `define_env!`, the `Input`/`Output` structs, the serde derives and the `ce_core::Result` wrapping are left out. They are harness glue. The models take and return the fields directly.
- Unicode case mapping and its multi-character expansions are left out. `to_uppercase` and `to_lowercase` act on ASCII letters only, so every label is one character.
- `split_whitespace` is modelled with the character list of Rust's `char::is_whitespace`.
- Mismatch reasons keep only their kind (`ParseFailed`, `NoInitialActual`, `NoInitialReference`, `NotEquivalent`), not their text.
- `HashSet` and `HashMap` are modelled as sets and maps. Their iteration order is an arbitrary choice. That covers the order of the accepting statements and the order in which `equivalent` tries labels.
- `usize` is modelled as an unbounded natural number. Nothing in the core comes near its width.
- `ValidationResult::TimeOut` is never produced by this code, so it is not modelled.
- `Equivalence.Equivalent`: requires both start indices to be in range. An index out of range panics at `nodes2[s2]` (lib.rs:222-223). That panic is modelled once, as the `Panic` verdict of `AutomataEnv.Validate`, the only caller that can pass such an index.
- `Equivalence.Transition`: requires the node's edge indices to be in range, because `edges[e_idx]` would panic otherwise (lib.rs:288). Indices from `derive_nodes` always are (`NodeIndex.DeriveNodesWellFormed`).
- `Liveness.ComputeLive`: requires a well-formed index, because the `unwrap` at lib.rs:335 panics when a source has no node. `derive_nodes` always builds a well-formed index.
- `AutomataEnv.RunOutputAccepted`: requires a pattern without `"`. A quote inside a label makes the DOT text ambiguous to read back, so the round trip holds only without quotes.

## Findings

| source | as written | input that shows it | evidently intended | confidence | as-written member | corrected member |
|---|---|---|---|---|---|---|
| crates/envs/ce-automata/src/lib.rs:164 | the reference start is the first root of `actual_nodes`; `equivalent` then indexes `nodes2[s2]` with it | pattern "a" (two reference nodes) and the submission x -> y, r -> x, whose first root r is its third node: index 2, and `validate` panics; likewise the empty pattern with any rooted submission. The same line can also accept a wrong answer without panicking: for pattern "ab" and the submission d -> d [q], s -> t [B], s -> t [b], the first root s is node 1, so the search starts from the reference node "0-1", and from there both sides agree, giving `Correct` although the submission does not accept "ab" | the first root of `reference_nodes`, as the "No initial state in reference solution" message implies; then `validate` never panics | not executed | `AutomataEnv.ReferenceStartOutOfRange` (and `AutomataEnv.SeparatorsOnly`) | `AutomataEnv.ValidateIntended` (with `AutomataEnv.IntendedWhenRootFirst`, `AutomataEnv.IntendedSeparatorsOnly`) |

`AutomataEnv.Validate` keeps the code as written. `AutomataEnv.ValidateIntended` is the corrected decision. `AutomataEnv.IntendedWhenRootFirst` shows the two agree whenever the pattern has a word character and the submission's first root is its first node. That holds for the compiled edges of every such pattern (`AutomataEnv.ReferenceStartsAtZero`).
