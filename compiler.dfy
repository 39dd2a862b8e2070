/**
 * The pattern compiler of the automata environment: `automata_edges_from_word`
 * and `split_and_collect` (crates/envs/ce-automata/src/lib.rs). A pattern is a
 * `|`-separated list of literal words; word `id` becomes a chain of states
 * "0", "id-1", "id-2", ..., every word leaving the shared root "0", and each
 * character becomes one edge (non-letters) or an upper-case and a lower-case
 * edge (letters) between the same two states.
 */
module Compiler {
  import opened Ascii
  import opened Graph
  import Collections

  // ---------------------------------------------------------------------------
  // State names
  // ---------------------------------------------------------------------------

  function DigitChar(d: nat): char
    requires d < 10
  {
    ('0' as int + d) as char
  }

  function DigitValue(c: char): nat
  {
    if '0' <= c <= '9' then c as int - '0' as int else 0
  }

  /** `usize::to_string`: decimal digits without leading zeros. */
  function NatToString(n: nat): (s: string)
    ensures |s| >= 1
    ensures forall k :: 0 <= k < |s| ==> '0' <= s[k] <= '9'
  {
    if n < 10 then [DigitChar(n)] else NatToString(n / 10) + [DigitChar(n % 10)]
  }

  /** Reads a string of decimal digits back as a number. */
  function ParseDecimal(s: string): nat
  {
    if |s| == 0 then 0 else ParseDecimal(s[..|s| - 1]) * 10 + DigitValue(s[|s| - 1])
  }

  lemma {:induction false} ParseNatToString(n: nat)
    ensures ParseDecimal(NatToString(n)) == n
  {
    var s := NatToString(n);
    if n >= 10 {
      assert s[..|s| - 1] == NatToString(n / 10);
      assert DigitValue(s[|s| - 1]) == n % 10;
      ParseNatToString(n / 10);
      assert ParseDecimal(s) == (n / 10) * 10 + n % 10;
    }
  }

  lemma NatToStringInjective(a: nat, b: nat)
    requires NatToString(a) == NatToString(b)
    ensures a == b
  {
    ParseNatToString(a);
    ParseNatToString(b);
  }

  /** `format!("{}-{}", id, i)`: the state after character `i` of word `id`. */
  function StateName(id: nat, i: nat): string
  {
    NatToString(id) + "-" + NatToString(i)
  }

  /**
   * The state the edges of character `i` of word `id` leave: `i.to_string()`
   * (that is, "0") for the first character, `StateName(id, i)` otherwise.
   */
  function SourceName(id: nat, i: nat): (r: string)
    ensures r == "0" <==> i == 0
  {
    StateNameNotRoot(id, i);
    if i > 0 then StateName(id, i) else NatToString(i)
  }

  /** Different (word, position) pairs give different state names. */
  lemma StateNameInjective(a: nat, b: nat, c: nat, d: nat)
    requires StateName(a, b) == StateName(c, d)
    ensures a == c && b == d
  {
    var x, y := NatToString(a), NatToString(c);
    var s := StateName(a, b);
    if |x| < |y| {
      DashAfter(x, NatToString(b), y, NatToString(d));
      assert false;
    } else if |y| < |x| {
      DashAfter(y, NatToString(d), x, NatToString(b));
      assert false;
    }
    assert x == s[..|x|] == y;
    NatToStringInjective(a, c);
    assert NatToString(b) == s[|x| + 1..] == NatToString(d);
    NatToStringInjective(b, d);
  }

  /** In `x + "-" + r`, position |x| holds the dash; below |y| the string `y + "-" + q` holds y's characters. */
  lemma DashAfter(x: string, r: string, y: string, q: string)
    ensures (x + "-" + r)[|x|] == '-'
    ensures |x| < |y| ==> (y + "-" + q)[|x|] == y[|x|]
  {
  }

  /** No state after a character is the root "0". */
  lemma StateNameNotRoot(id: nat, i: nat)
    ensures StateName(id, i) != "0"
  {
    assert |StateName(id, i)| >= 3;
  }

  // ---------------------------------------------------------------------------
  // One word
  // ---------------------------------------------------------------------------

  /** The edges the loop body of `automata_edges_from_word` pushes for character `c` at position `i`. */
  function CharEdges(c: char, id: nat, i: nat): seq<Edge>
  {
    var base := Edge(SourceName(id, i), StateName(id, i + 1), "");
    var upper := [ToUpper(c)];
    var lower := [ToLower(c)];
    if lower == upper then [base.(lbl := upper)]
    else [base.(lbl := upper), base.(lbl := lower)]
  }

  /**
   * One character gives one edge when it is not a letter and two when it is,
   * all from `SourceName(id, i)` to `StateName(id, i + 1)`; the first carries
   * the upper-case form and the last the lower-case form.
   */
  lemma CharEdgesLayout(c: char, id: nat, i: nat)
    ensures var r := CharEdges(c, id, i);
      && |r| == (if IsLetter(c) then 2 else 1)
      && (forall k :: 0 <= k < |r| ==> r[k].from == SourceName(id, i) && r[k].to == StateName(id, i + 1))
      && r[0].lbl == [ToUpper(c)] && r[|r| - 1].lbl == [ToLower(c)]
  {
    CaseFormsEqualIffNotLetter(c);
  }

  /** The edges for the first `n` characters of `word`, in emission order. */
  function PrefixEdges(word: string, id: nat, n: nat): seq<Edge>
    requires n <= |word|
  {
    if n == 0 then [] else PrefixEdges(word, id, n - 1) + CharEdges(word[n - 1], id, n - 1)
  }

  /** Everything `automata_edges_from_word(word, id)` returns. */
  function WordEdges(word: string, id: nat): seq<Edge>
  {
    PrefixEdges(word, id, |word|)
  }

  /** How many edges character `c` contributes: one when its case forms agree, two otherwise. */
  function Width(c: char): nat
  {
    if ToLower(c) == ToUpper(c) then 1 else 2
  }

  /** The number of edges emitted for the first `n` characters. */
  function EdgeCount(word: string, n: nat): nat
    requires n <= |word|
  {
    if n == 0 then 0 else EdgeCount(word, n - 1) + Width(word[n - 1])
  }

  /** Edge `e` is one of those emitted for character `i` of word `id`. */
  predicate EdgeOfChar(e: Edge, word: string, id: nat, i: nat)
  {
    && i < |word|
    && e.from == SourceName(id, i)
    && e.to == StateName(id, i + 1)
    && (e.lbl == [ToUpper(word[i])] || e.lbl == [ToLower(word[i])])
  }

  method AutomataEdgesFromWord(word: string, id: nat) returns (edges: seq<Edge>)
    ensures edges == WordEdges(word, id)
  {
    edges := [];
    for i := 0 to |word|
      invariant edges == PrefixEdges(word, id, i)
    {
      var c := word[i];
      var base := Edge(if i > 0 then StateName(id, i) else NatToString(i), StateName(id, i + 1), "");
      var upper := [ToUpper(c)];
      var lower := [ToLower(c)];
      if lower == upper {
        edges := edges + [base.(lbl := upper)];
        continue;
      }
      edges := edges + [base.(lbl := upper)];
      edges := edges + [base.(lbl := lower)];
    }
  }

  lemma {:induction false} PrefixEdgesLength(word: string, id: nat, n: nat)
    requires n <= |word|
    ensures |PrefixEdges(word, id, n)| == EdgeCount(word, n)
  {
    if n > 0 {
      PrefixEdgesLength(word, id, n - 1);
    }
  }

  lemma {:induction false} PrefixEdgesExtends(word: string, id: nat, m: nat, n: nat)
    requires m <= n <= |word|
    ensures |PrefixEdges(word, id, m)| <= |PrefixEdges(word, id, n)|
    ensures PrefixEdges(word, id, n)[..|PrefixEdges(word, id, m)|] == PrefixEdges(word, id, m)
  {
    if m < n {
      PrefixEdgesExtends(word, id, m, n - 1);
      var a, b := PrefixEdges(word, id, n - 1), CharEdges(word[n - 1], id, n - 1);
      assert PrefixEdges(word, id, n) == a + b;
      Collections.PrefixOfConcat(a, b, |PrefixEdges(word, id, m)|);
    }
  }

  /**
   * Layout of `automata_edges_from_word`: the edges of character `i` start at
   * position EdgeCount(word, i); there is one edge (the upper-case label) when
   * the character's case forms agree, and otherwise two, the upper-case label
   * first and the lower-case label second, both from SourceName(id, i) to
   * StateName(id, i + 1). The word's edges are exactly these, back to back.
   */
  lemma WordEdgesLayout(word: string, id: nat, i: nat)
    requires i < |word|
    ensures |WordEdges(word, id)| == EdgeCount(word, |word|)
    ensures EdgeCount(word, i + 1) == EdgeCount(word, i) + (if ToUpper(word[i]) == ToLower(word[i]) then 1 else 2)
    ensures EdgeCount(word, i + 1) <= |WordEdges(word, id)|
    ensures WordEdges(word, id)[EdgeCount(word, i)] == Edge(SourceName(id, i), StateName(id, i + 1), [ToUpper(word[i])])
    ensures ToUpper(word[i]) != ToLower(word[i]) ==>
      WordEdges(word, id)[EdgeCount(word, i) + 1] == Edge(SourceName(id, i), StateName(id, i + 1), [ToLower(word[i])])
  {
    WordEdgesCounts(word, id, i);
    var ce := CharEdges(word[i], id, i);
    CharEdgesCases(word[i], id, i);
    WordEdgesAt(word, id, i, ce);
  }

  lemma WordEdgesCounts(word: string, id: nat, i: nat)
    requires i < |word|
    ensures |WordEdges(word, id)| == EdgeCount(word, |word|)
    ensures EdgeCount(word, i + 1) == EdgeCount(word, i) + Width(word[i])
    ensures |PrefixEdges(word, id, i)| == EdgeCount(word, i)
    ensures |PrefixEdges(word, id, i + 1)| == EdgeCount(word, i + 1) <= |WordEdges(word, id)|
  {
    PrefixEdgesLength(word, id, |word|);
    PrefixEdgesLength(word, id, i + 1);
    PrefixEdgesLength(word, id, i);
    PrefixEdgesExtends(word, id, i + 1, |word|);
  }

  lemma WordEdgesAt(word: string, id: nat, i: nat, ce: seq<Edge>)
    requires i < |word|
    requires ce == CharEdges(word[i], id, i)
    ensures 1 <= |ce| <= 2
    ensures |PrefixEdges(word, id, i)| + |ce| <= |WordEdges(word, id)|
    ensures WordEdges(word, id)[|PrefixEdges(word, id, i)|] == ce[0]
    ensures |ce| == 2 ==> WordEdges(word, id)[|PrefixEdges(word, id, i)| + 1] == ce[1]
  {
    var w, p, q := WordEdges(word, id), PrefixEdges(word, id, i + 1), PrefixEdges(word, id, i);
    assert 1 <= |ce| <= 2 by {
      CharEdgesCases(word[i], id, i);
    }
    assert |p| <= |w| && w[..|p|] == p by {
      PrefixEdgesExtends(word, id, i + 1, |word|);
    }
    assert p == q + ce;
    AfterPrefix(w, q, ce);
  }

  /** The one or two edges of a character, written out. */
  lemma CharEdgesCases(c: char, id: nat, i: nat)
    ensures var e := Edge(SourceName(id, i), StateName(id, i + 1), [ToUpper(c)]);
      CharEdges(c, id, i) == if ToUpper(c) == ToLower(c) then [e] else [e, e.(lbl := [ToLower(c)])]
  {
    if ToUpper(c) != ToLower(c) {
      assert [ToUpper(c)] != [ToLower(c)] by {
        assert [ToUpper(c)][0] != [ToLower(c)][0];
      }
    }
  }

  /** When `w` starts with `q + ce`, the first one or two edges of `ce` sit in `w` right after `q`. */
  lemma AfterPrefix(w: seq<Edge>, q: seq<Edge>, ce: seq<Edge>)
    requires 1 <= |ce| && |q + ce| <= |w| && w[..|q + ce|] == q + ce
    ensures w[|q|] == ce[0]
    ensures |ce| >= 2 ==> w[|q| + 1] == ce[1]
  {
    assert w[|q|] == w[..|q + ce|][|q|] == (q + ce)[|q|];
    if |ce| >= 2 {
      assert w[|q| + 1] == w[..|q + ce|][|q| + 1] == (q + ce)[|q| + 1];
    }
  }

  lemma {:induction false} PrefixEdgesShape(word: string, id: nat, n: nat, e: Edge)
    requires n <= |word|
    requires e in PrefixEdges(word, id, n)
    ensures exists i :: 0 <= i < n && EdgeOfChar(e, word, id, i)
  {
    assert PrefixEdges(word, id, n) == PrefixEdges(word, id, n - 1) + CharEdges(word[n - 1], id, n - 1);
    if e in PrefixEdges(word, id, n - 1) {
      PrefixEdgesShape(word, id, n - 1, e);
    } else {
      CharEdgesShape(word, id, n - 1, e);
    }
  }

  /** Each edge emitted for one character leaves and enters that character's states and carries one of its case forms. */
  lemma CharEdgesShape(word: string, id: nat, i: nat, e: Edge)
    requires i < |word|
    requires e in CharEdges(word[i], id, i)
    ensures EdgeOfChar(e, word, id, i)
  {
  }

  lemma {:induction false} PrefixEdgesFirst(word: string, id: nat, n: nat)
    requires 0 < n <= |word|
    ensures PrefixEdges(word, id, n) != []
    ensures PrefixEdges(word, id, n)[0].from == "0"
  {
    if n > 1 {
      PrefixEdgesFirst(word, id, n - 1);
    }
  }

  /** A non-empty word compiles to edges, and the first of them leaves the root "0". */
  lemma WordEdgesFirst(word: string, id: nat)
    ensures StartsAtRoot(WordEdges(word, id))
  {
    if |word| > 0 {
      PrefixEdgesFirst(word, id, |word|);
    }
  }

  /** A word compiles to no edges exactly when it is empty. */
  lemma WordEdgesEmpty(word: string, id: nat)
    ensures |WordEdges(word, id)| == 0 <==> |word| == 0
  {
    if |word| > 0 {
      PrefixEdgesFirst(word, id, |word|);
    }
  }

  // ---------------------------------------------------------------------------
  // The whole pattern
  // ---------------------------------------------------------------------------

  /** `str::split` on a one-character separator: always at least one (possibly empty) part. */
  function Split(s: string, sep: char): (parts: seq<string>)
    ensures |parts| >= 1
    ensures forall k :: 0 <= k < |parts| ==> sep !in parts[k]
  {
    if |s| == 0 then [""]
    else
      var rest := Split(s[1..], sep);
      if s[0] == sep then [""] + rest else [[s[0]] + rest[0]] + rest[1..]
  }

  /** Joins parts with a separator; the inverse of `Split`. */
  function Join(parts: seq<string>, sep: char): string
    requires |parts| >= 1
  {
    if |parts| == 1 then parts[0] else parts[0] + [sep] + Join(parts[1..], sep)
  }

  lemma {:induction false} JoinSplit(s: string, sep: char)
    ensures Join(Split(s, sep), sep) == s
  {
    if |s| > 0 {
      JoinSplit(s[1..], sep);
      var rest := Split(s[1..], sep);
      if s[0] != sep {
        var parts := Split(s, sep);
        if |rest| > 1 {
          assert parts[1..] == rest[1..];
        }
      }
    }
  }

  /** Some part contains `c`. */
  predicate InSomePart(parts: seq<string>, c: char)
  {
    exists k :: 0 <= k < |parts| && c in parts[k]
  }

  /** A leading separator adds an empty part, which holds no character. */
  lemma InPartsAfterSeparator(rest: seq<string>, c: char)
    ensures InSomePart([""] + rest, c) <==> InSomePart(rest, c)
  {
    var parts := [""] + rest;
    if InSomePart(parts, c) {
      var k :| 0 <= k < |parts| && c in parts[k];
      assert c in rest[k - 1];
    }
    if InSomePart(rest, c) {
      var k :| 0 <= k < |rest| && c in rest[k];
      assert c in parts[k + 1];
    }
  }

  /** A leading non-separator joins the first part. */
  lemma InPartsAfterChar(h: char, rest: seq<string>, c: char)
    requires |rest| >= 1
    ensures InSomePart([[h] + rest[0]] + rest[1..], c) <==> c == h || InSomePart(rest, c)
  {
    var parts := [[h] + rest[0]] + rest[1..];
    if InSomePart(parts, c) {
      var k :| 0 <= k < |parts| && c in parts[k];
      if k == 0 {
        assert c == h || c in rest[0];
      } else {
        assert c in rest[k];
      }
    }
    if c == h {
      assert c in parts[0];
    } else if InSomePart(rest, c) {
      var k :| 0 <= k < |rest| && c in rest[k];
      assert c in parts[k];
    }
  }

  /** The characters of the parts are exactly the non-separator characters of the string. */
  lemma {:induction false} SplitChars(s: string, sep: char, c: char)
    requires c != sep
    ensures c in s <==> exists k :: 0 <= k < |Split(s, sep)| && c in Split(s, sep)[k]
  {
    if |s| > 0 {
      SplitChars(s[1..], sep, c);
      var rest := Split(s[1..], sep);
      assert c in s <==> c == s[0] || c in s[1..] by {
        assert s == [s[0]] + s[1..];
      }
      assert InSomePart(rest, c) <==> exists k :: 0 <= k < |rest| && c in rest[k];
      var parts := Split(s, sep);
      assert InSomePart(parts, c) <==> exists k :: 0 <= k < |parts| && c in parts[k];
      if s[0] == sep {
        assert parts == [""] + rest;
        InPartsAfterSeparator(rest, c);
      } else {
        assert parts == [[s[0]] + rest[0]] + rest[1..];
        InPartsAfterChar(s[0], rest, c);
      }
    }
  }

  /** The edges of the first `n` words, word `i` compiled with id `i`, in word order. */
  function WordsEdges(words: seq<string>, n: nat): seq<Edge>
    requires n <= |words|
  {
    if n == 0 then [] else WordsEdges(words, n - 1) + WordEdges(words[n - 1], n - 1)
  }

  /** Everything `split_and_collect(regex)` returns. */
  function RegexEdges(regex: string): seq<Edge>
  {
    var words := Split(regex, '|');
    WordsEdges(words, |words|)
  }

  method SplitAndCollect(regex: string) returns (edges: seq<Edge>)
    ensures edges == RegexEdges(regex)
  {
    edges := [];
    var words := Split(regex, '|');
    for i := 0 to |words|
      invariant edges == WordsEdges(words, i)
    {
      var wordEdges := AutomataEdgesFromWord(words[i], i);
      edges := edges + wordEdges;
    }
  }

  lemma {:induction false} WordsEdgesShape(words: seq<string>, n: nat, e: Edge)
    requires n <= |words|
    requires e in WordsEdges(words, n)
    ensures exists id, i :: 0 <= id < n && EdgeOfChar(e, words[id], id, i)
  {
    assert WordsEdges(words, n) == WordsEdges(words, n - 1) + WordEdges(words[n - 1], n - 1);
    if e in WordsEdges(words, n - 1) {
      WordsEdgesShape(words, n - 1, e);
      var id, i :| 0 <= id < n - 1 && EdgeOfChar(e, words[id], id, i);
      assert EdgeOfChar(e, words[id], id, i);
    } else {
      PrefixEdgesShape(words[n - 1], n - 1, |words[n - 1]|, e);
      var i :| 0 <= i < |words[n - 1]| && EdgeOfChar(e, words[n - 1], n - 1, i);
      assert EdgeOfChar(e, words[n - 1], n - 1, i);
    }
  }

  /**
   * Every compiled edge comes from some character `i` of some word `id` of the
   * pattern: it leaves SourceName(id, i), enters StateName(id, i + 1) and is
   * labelled with a case form of that character.
   */
  lemma RegexEdgeOrigin(regex: string, e: Edge)
    requires e in RegexEdges(regex)
    ensures exists id, i :: 0 <= id < |Split(regex, '|')| && EdgeOfChar(e, Split(regex, '|')[id], id, i)
  {
    var words := Split(regex, '|');
    WordsEdgesShape(words, |words|, e);
  }

  /** No compiled edge enters the root "0". */
  lemma NoEdgeTargetsRoot(regex: string)
    ensures forall e :: e in RegexEdges(regex) ==> e.to != "0"
  {
    forall e | e in RegexEdges(regex)
      ensures e.to != "0"
    {
      RegexEdgeOrigin(regex, e);
      var words := Split(regex, '|');
      var id: nat, i: nat :| 0 <= id < |words| && EdgeOfChar(e, words[id], id, i);
      StateNameNotRoot(id, i + 1);
    }
  }

  lemma {:induction false} WordsEdgesEmpty(words: seq<string>, n: nat)
    requires n <= |words|
    ensures WordsEdges(words, n) == [] <==> forall k :: 0 <= k < n ==> words[k] == ""
  {
    if n > 0 {
      WordsEdgesEmpty(words, n - 1);
      WordEdgesEmpty(words[n - 1], n - 1);
    }
  }

  /**
   * A pattern compiles to no edges exactly when it consists of separators only;
   * in particular the empty pattern (one empty word) gives no edges.
   */
  lemma RegexEdgesEmptyIff(regex: string)
    ensures RegexEdges(regex) == [] <==> forall k :: 0 <= k < |regex| ==> regex[k] == '|'
  {
    var words := Split(regex, '|');
    WordsEdgesEmpty(words, |words|);
    if RegexEdges(regex) == [] {
      forall k | 0 <= k < |regex|
        ensures regex[k] == '|'
      {
        if regex[k] != '|' {
          SplitChars(regex, '|', regex[k]);
          assert false;
        }
      }
    } else {
      var j :| 0 <= j < |words| && words[j] != "";
      var c := words[j][0];
      assert c != '|';
      assert c in Split(regex, '|')[j];
      SplitChars(regex, '|', c);
      assert c in regex;
      var k :| 0 <= k < |regex| && regex[k] == c;
    }
  }

  /** Either no edges, or the first one leaves the root "0". */
  predicate StartsAtRoot(edges: seq<Edge>)
  {
    |edges| == 0 || edges[0].from == "0"
  }

  lemma StartsAtRootConcat(a: seq<Edge>, b: seq<Edge>)
    requires StartsAtRoot(a) && StartsAtRoot(b)
    ensures StartsAtRoot(a + b)
  {
    if |a| == 0 {
      assert a + b == b;
    } else {
      assert (a + b)[0] == a[0];
    }
  }

  lemma {:induction false} WordsEdgesFirst(words: seq<string>, n: nat)
    requires n <= |words|
    ensures StartsAtRoot(WordsEdges(words, n))
  {
    if n > 0 {
      var k: nat := n - 1;
      var prefix, last := WordsEdges(words, k), WordEdges(words[k], k);
      assert WordsEdges(words, n) == prefix + last;
      WordsEdgesFirst(words, k);
      WordEdgesFirst(words[k], k);
      StartsAtRootConcat(prefix, last);
    }
  }

  /** The first compiled edge, if any, leaves the root "0". */
  lemma FirstEdgeLeavesRoot(regex: string)
    requires RegexEdges(regex) != []
    ensures RegexEdges(regex)[0].from == "0"
  {
    var words := Split(regex, '|');
    WordsEdgesFirst(words, |words|);
  }
}
