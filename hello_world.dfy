/**
 * The hello-world environment (crates/envs/ce-hello-world/src/lib.rs): `run`
 * splits the source on whitespace, upper-cases every word at an odd position
 * and joins the words with single spaces; `validate` compares a submission
 * with what `run` produces. Case mapping is ASCII only.
 */
module HelloWorld {
  import opened Ascii
  import opened Collections

  /** `ValidationResult` without the message text. */
  datatype Verdict = Correct | Mismatch

  /** A word as `split_whitespace` yields it: non-empty, without whitespace. */
  predicate IsWord(w: string)
  {
    |w| > 0 && forall k :: 0 <= k < |w| ==> !IsWhitespace(w[k])
  }

  predicate AllWords(ws: seq<string>)
  {
    forall i :: 0 <= i < |ws| ==> IsWord(ws[i])
  }

  /** The length of the run of non-whitespace characters `s` starts with. */
  function WordLength(s: string): (n: nat)
    ensures n <= |s|
    ensures forall k :: 0 <= k < n ==> !IsWhitespace(s[k])
    ensures n == |s| || IsWhitespace(s[n])
  {
    if |s| == 0 || IsWhitespace(s[0]) then 0 else 1 + WordLength(s[1..])
  }

  /** `str::split_whitespace`: the maximal runs of non-whitespace characters, in order. */
  function SplitWhitespace(s: string): (ws: seq<string>)
    ensures AllWords(ws)
    decreases |s|
  {
    if |s| == 0 then []
    else if IsWhitespace(s[0]) then SplitWhitespace(s[1..])
    else
      var n := WordLength(s);
      [s[..n]] + SplitWhitespace(s[n..])
  }

  /** `[String]::join(" ")`. Words joined this way are empty exactly when there are none. */
  function JoinWords(ws: seq<string>): (r: string)
    ensures AllWords(ws) ==> (|r| == 0 <==> |ws| == 0)
  {
    if |ws| == 0 then ""
    else if |ws| == 1 then ws[0]
    else ws[0] + " " + JoinWords(ws[1..])
  }

  /** The map step of `run`: upper-case the words at odd positions. */
  function AlternateCase(ws: seq<string>): (r: seq<string>)
    ensures |r| == |ws|
  {
    seq(|ws|, i requires 0 <= i < |ws| => if i % 2 == 1 then UpperString(ws[i]) else ws[i])
  }

  /**
   * `HelloWorldEnv::run`. Its output splits back into the alternated words, and
   * it is tidy: no whitespace at either end, single spaces between words.
   */
  function Run(source: string): (r: string)
    ensures SplitWhitespace(r) == AlternateCase(SplitWhitespace(source))
    ensures Tidy(r)
  {
    var ws := AlternateCase(SplitWhitespace(source));
    AlternateCaseWords(SplitWhitespace(source));
    SplitJoin(ws);
    JoinTidy(ws);
    JoinWords(ws)
  }

  /** `HelloWorldEnv::validate`: Correct exactly when the submission is what `run` produces. */
  function Validate(source: string, transformed: string): (v: Verdict)
    ensures v == Correct <==> transformed == Run(source)
  {
    var expected := Run(source);
    if expected == transformed then Correct else Mismatch
  }

  // ---------------------------------------------------------------------------
  // Splitting and joining
  // ---------------------------------------------------------------------------

  /** A word followed by the end of the text or by whitespace is the whole leading run. */
  lemma WordLengthOfWord(w: string, rest: string)
    requires IsWord(w)
    requires |rest| == 0 || IsWhitespace(rest[0])
    ensures WordLength(w + rest) == |w|
  {
    var s := w + rest;
    assert forall k :: 0 <= k < |w| ==> s[k] == w[k];
    assert |rest| > 0 ==> s[|w|] == rest[0];
  }

  /** Splitting words joined by single spaces gives the words back. */
  lemma {:induction false} SplitJoin(ws: seq<string>)
    requires AllWords(ws)
    ensures SplitWhitespace(JoinWords(ws)) == ws
    decreases |ws|
  {
    if |ws| == 1 {
      WordLengthOfWord(ws[0], "");
      assert ws[0] + "" == ws[0];
      assert JoinWords(ws)[|ws[0]|..] == "";
    } else if |ws| > 1 {
      var w, tail := ws[0], JoinWords(ws[1..]);
      var s := w + " " + tail;
      assert s == w + (" " + tail);
      WordLengthOfWord(w, " " + tail);
      assert s[..|w|] == w;
      assert s[|w|..] == " " + tail;
      assert (" " + tail)[1..] == tail;
      SplitJoin(ws[1..]);
      assert IsWhitespace(s[|w|]);
      assert SplitWhitespace(s[|w|..]) == SplitWhitespace(tail);
      assert ws == [w] + ws[1..];
    }
  }

  /** A text has no words exactly when all of it is whitespace. */
  lemma {:induction false} SplitBlank(s: string)
    ensures SplitWhitespace(s) == [] <==> forall k :: 0 <= k < |s| ==> IsWhitespace(s[k])
    decreases |s|
  {
    if |s| > 0 {
      if IsWhitespace(s[0]) {
        SplitBlank(s[1..]);
        assert forall k :: 1 <= k < |s| ==> s[k] == s[1..][k - 1];
      }
    }
  }

  // ---------------------------------------------------------------------------
  // What `split_whitespace` computes: the text is its words with whitespace between
  // ---------------------------------------------------------------------------

  /** All of `g` is whitespace (`g` may be empty). */
  predicate Blank(g: string)
  {
    forall k :: 0 <= k < |g| ==> IsWhitespace(g[k])
  }

  /** `gaps[0] + ws[0] + gaps[1] + ws[1] + ... + gaps[|ws|]`. */
  function Interleave(gaps: seq<string>, ws: seq<string>): string
    requires |gaps| == |ws| + 1
    decreases |ws|
  {
    if |ws| == 0 then gaps[0] else gaps[0] + ws[0] + Interleave(gaps[1..], ws[1..])
  }

  /**
   * Words and the whitespace around them: one gap more than words, every gap
   * blank, and the gaps between two words not empty.
   */
  ghost predicate Layout(gaps: seq<string>, ws: seq<string>)
  {
    && |gaps| == |ws| + 1
    && AllWords(ws)
    && (forall i :: 0 <= i < |gaps| ==> Blank(gaps[i]))
    && (forall i :: 0 < i < |ws| ==> |gaps[i]| > 0)
  }

  /** The whitespace runs of `s` around its words: leading, between, trailing. */
  function Gaps(s: string): (gaps: seq<string>)
    ensures |gaps| == |SplitWhitespace(s)| + 1
    decreases |s|
  {
    if |s| == 0 then [""]
    else if IsWhitespace(s[0]) then
      var g := Gaps(s[1..]);
      [[s[0]] + g[0]] + g[1..]
    else [""] + Gaps(s[WordLength(s)..])
  }

  /** Leading whitespace does not change the words. */
  lemma {:induction false} SplitAfterBlank(g: string, t: string)
    requires Blank(g)
    ensures SplitWhitespace(g + t) == SplitWhitespace(t)
    decreases |g|
  {
    if |g| > 0 {
      assert (g + t)[0] == g[0] && IsWhitespace(g[0]);
      assert (g + t)[1..] == g[1..] + t;
      assert Blank(g[1..]) by {
        forall k | 0 <= k < |g| - 1 ensures IsWhitespace(g[1..][k]) {
          assert g[1..][k] == g[k + 1];
        }
      }
      SplitAfterBlank(g[1..], t);
    } else {
      assert g + t == t;
    }
  }

  /** A gap prepended to the text joins the leading gap. */
  lemma PrependGap(x: string, gaps: seq<string>, ws: seq<string>)
    requires |gaps| == |ws| + 1
    ensures Interleave([x + gaps[0]] + gaps[1..], ws) == x + Interleave(gaps, ws)
  {
    var gaps' := [x + gaps[0]] + gaps[1..];
    assert gaps'[1..] == gaps[1..];
  }

  /**
   * Every text is its words and its whitespace runs, interleaved: the words
   * `split_whitespace` yields are the maximal non-whitespace runs, in order.
   */
  lemma {:induction false} SplitLayout(s: string)
    ensures Layout(Gaps(s), SplitWhitespace(s))
    ensures Interleave(Gaps(s), SplitWhitespace(s)) == s
    decreases |s|
  {
    if |s| > 0 {
      if IsWhitespace(s[0]) {
        var rest := s[1..];
        SplitLayout(rest);
        UnfoldBlank(s);
        LayoutConsBlank(s[0], rest, Gaps(rest), SplitWhitespace(rest));
      } else {
        var tail := s[WordLength(s)..];
        SplitLayout(tail);
        UnfoldWord(s);
        LayoutConsWord(s[..WordLength(s)], tail, Gaps(tail), SplitWhitespace(tail));
      }
    }
  }

  /** One step of `SplitWhitespace` and `Gaps` on a text that starts with whitespace. */
  lemma UnfoldBlank(s: string)
    requires |s| > 0 && IsWhitespace(s[0])
    ensures SplitWhitespace(s) == SplitWhitespace(s[1..])
    ensures Gaps(s) == [[s[0]] + Gaps(s[1..])[0]] + Gaps(s[1..])[1..]
    ensures [s[0]] + s[1..] == s
  {
    HeadTail(s);
  }

  /** One step of `SplitWhitespace` and `Gaps` on a text that starts with a word. */
  lemma UnfoldWord(s: string)
    requires |s| > 0 && !IsWhitespace(s[0])
    ensures SplitWhitespace(s) == [s[..WordLength(s)]] + SplitWhitespace(s[WordLength(s)..])
    ensures Gaps(s) == [""] + Gaps(s[WordLength(s)..])
    ensures s[..WordLength(s)] + s[WordLength(s)..] == s
    ensures IsWord(s[..WordLength(s)])
    ensures |SplitWhitespace(s[WordLength(s)..])| > 0 ==> |Gaps(s[WordLength(s)..])[0]| > 0
  {
    var n := WordLength(s);
    PrefixSuffix(s, n);
    assert forall k :: 0 <= k < n ==> s[..n][k] == s[k];
    GapBeforeWords(s[n..]);
  }

  /** A text that has words after leading whitespace has a non-empty leading gap. */
  lemma GapBeforeWords(t: string)
    requires |t| == 0 || IsWhitespace(t[0])
    ensures |SplitWhitespace(t)| > 0 ==> |Gaps(t)[0]| > 0
  {
  }

  /** A whitespace character in front of a text joins its leading gap. */
  lemma LayoutConsBlank(c: char, rest: string, g: seq<string>, ws: seq<string>)
    requires IsWhitespace(c) && Layout(g, ws) && Interleave(g, ws) == rest
    ensures Layout([[c] + g[0]] + g[1..], ws)
    ensures Interleave([[c] + g[0]] + g[1..], ws) == [c] + rest
  {
    PrependGap([c], g, ws);
    var g' := [[c] + g[0]] + g[1..];
    assert forall i :: 0 < i < |g'| ==> g'[i] == g[i];
    assert Blank(g'[0]) by {
      assert forall k :: 0 < k < |g'[0]| ==> g'[0][k] == g[0][k - 1];
    }
  }

  /** A word in front of a text that starts with a gap (or has no words) comes after an empty gap. */
  lemma LayoutConsWord(w: string, tail: string, g: seq<string>, ws: seq<string>)
    requires IsWord(w) && Layout(g, ws) && Interleave(g, ws) == tail
    requires |ws| > 0 ==> |g[0]| > 0
    ensures Layout([""] + g, [w] + ws)
    ensures Interleave([""] + g, [w] + ws) == w + tail
  {
    assert ([w] + ws)[1..] == ws;
    assert ([""] + g)[1..] == g;
    assert "" + w + tail == w + tail;
  }

  /**
   * Conversely, words laid out with blank gaps, non-empty between words, split
   * back into exactly those words. With `SplitLayout` this determines
   * `split_whitespace` on every text.
   */
  lemma {:induction false} LayoutSplit(gaps: seq<string>, ws: seq<string>)
    requires Layout(gaps, ws)
    ensures SplitWhitespace(Interleave(gaps, ws)) == ws
    decreases |ws|
  {
    if |ws| == 0 {
      SplitBlank(gaps[0]);
    } else {
      var rest := Interleave(gaps[1..], ws[1..]);
      assert Layout(gaps[1..], ws[1..]);
      LayoutSplit(gaps[1..], ws[1..]);
      RestAfterWord(gaps, ws);
      Assoc(gaps[0], ws[0], rest);
      SplitAfterBlank(gaps[0], ws[0] + rest);
      SplitWordThen(ws[0], rest);
      HeadTail(ws);
    }
  }

  /** After the first word of a layout comes the end of the text or whitespace. */
  lemma RestAfterWord(gaps: seq<string>, ws: seq<string>)
    requires Layout(gaps, ws) && |ws| > 0
    ensures var rest := Interleave(gaps[1..], ws[1..]);
      |rest| == 0 || IsWhitespace(rest[0])
  {
    var rest := Interleave(gaps[1..], ws[1..]);
    if |ws| > 1 {
      assert |gaps[1]| > 0;
      Assoc(gaps[1], ws[1], Interleave(gaps[2..], ws[2..]));
      assert rest[0] == gaps[1][0];
    }
  }

  /** A word followed by the end of the text or by whitespace is split off first. */
  lemma SplitWordThen(w: string, rest: string)
    requires IsWord(w)
    requires |rest| == 0 || IsWhitespace(rest[0])
    ensures SplitWhitespace(w + rest) == [w] + SplitWhitespace(rest)
  {
    WordLengthOfWord(w, rest);
    var s := w + rest;
    assert s[0] == w[0];
    assert s[..|w|] == w && s[|w|..] == rest;
  }

  /** No whitespace at either end, and every whitespace character is a single space between two words. */
  ghost predicate Tidy(r: string)
  {
    && (|r| > 0 ==> !IsWhitespace(r[0]) && !IsWhitespace(r[|r| - 1]))
    && forall k :: 0 <= k < |r| && IsWhitespace(r[k]) ==> r[k] == ' ' && k + 1 < |r| && !IsWhitespace(r[k + 1])
  }

  lemma {:induction false} JoinTidy(ws: seq<string>)
    requires AllWords(ws)
    ensures Tidy(JoinWords(ws))
    decreases |ws|
  {
    if |ws| > 1 {
      var w, tail := ws[0], JoinWords(ws[1..]);
      JoinTidy(ws[1..]);
      var s := w + " " + tail;
      assert forall k :: 0 <= k < |w| ==> s[k] == w[k];
      assert s[|w|] == ' ';
      assert forall k :: |w| < k < |s| ==> s[k] == tail[k - |w| - 1];
    }
  }

  // ---------------------------------------------------------------------------
  // What `run` guarantees
  // ---------------------------------------------------------------------------

  lemma AlternateCaseWords(ws: seq<string>)
    requires AllWords(ws)
    ensures AllWords(AlternateCase(ws))
  {
    forall i, k | 0 <= i < |ws| && i % 2 == 1 && 0 <= k < |ws[i]|
      ensures !IsWhitespace(UpperString(ws[i])[k])
    {
      ToUpperKeepsWhitespaceClass(ws[i][k]);
    }
  }

  /**
   * Re-splitting the output gives the input's words, in order: the same number
   * of them, the words at even positions unchanged and those at odd positions
   * upper-cased.
   */
  lemma RunWords(source: string)
    ensures var ws := SplitWhitespace(source);
      var out := SplitWhitespace(Run(source));
      && |out| == |ws|
      && (forall i :: 0 <= i < |ws| && i % 2 == 0 ==> out[i] == ws[i])
      && (forall i :: 0 <= i < |ws| && i % 2 == 1 ==> out[i] == UpperString(ws[i]))
  {
  }

  /** The output is empty exactly when the source is empty or all whitespace. */
  lemma RunBlank(source: string)
    ensures Run(source) == "" <==> forall k :: 0 <= k < |source| ==> IsWhitespace(source[k])
  {
    AlternateCaseWords(SplitWhitespace(source));
    SplitBlank(source);
  }

  /** Upper-casing twice is upper-casing once. */
  lemma UpperStringIdempotent(s: string)
    ensures UpperString(UpperString(s)) == UpperString(s)
  {
    forall k | 0 <= k < |s|
      ensures UpperString(UpperString(s))[k] == UpperString(s)[k]
    {
      ToUpperIdempotent(s[k]);
    }
  }

  /** With ASCII case mapping, `run` is idempotent. */
  lemma RunIdempotent(source: string)
    ensures Run(Run(source)) == Run(source)
  {
    var ws := AlternateCase(SplitWhitespace(source));
    forall i | 0 <= i < |ws| && i % 2 == 1
      ensures UpperString(ws[i]) == ws[i]
    {
      UpperStringIdempotent(SplitWhitespace(source)[i]);
    }
    assert AlternateCase(ws) == ws;
  }

  /** Submitting the output of `run` for an input that is itself such an output is accepted. */
  lemma ValidateRunOutput(source: string)
    ensures Validate(source, Run(source)) == Correct
    ensures Validate(Run(source), Run(source)) == Correct
  {
    RunIdempotent(source);
  }
}
