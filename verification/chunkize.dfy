/** The greedy line wrap `chunkize_sentence` of main.py.

    `Wrap` is the wrap the function is meant to compute: each line is the
    longest run of the remaining tokens whose space-joined text fits the
    width, and a token wider than the width stands alone on its own line.
    The source's `while` loop is modelled one iteration at a time by `Step`;
    it agrees with `Wrap` whenever every token fits, and otherwise never
    leaves the loop. */
module Chunkize {
  import opened Builtins

  /** Every token fits the width on its own. */
  predicate TokensFit(words: seq<string>, width: int) {
    forall i :: 0 <= i < |words| ==> |words[i]| <= width
  }

  /** The number of leading tokens, at most `m` and at least one, that form
      the longest prefix whose joined text fits `width` (one token when even
      the first does not fit). */
  function LongestFit(words: seq<string>, width: int, m: nat): (k: nat)
    requires 1 <= m <= |words|
    ensures 1 <= k <= m
    ensures k == 1 || |Join(words[..k])| <= width
    ensures forall j :: k < j <= m ==> |Join(words[..j])| > width
  {
    if m == 1 || |Join(words[..m])| <= width then m else LongestFit(words, width, m - 1)
  }

  /** A longer prefix never joins into a shorter text. */
  lemma JoinPrefixGrows(words: seq<string>, i: nat, j: nat)
    requires 1 <= i <= j <= |words|
    ensures |Join(words[..i])| <= |Join(words[..j])|
  {
    if i < j {
      assert words[..j] == words[..i] + words[i..j];
      JoinAppend(" ", words[..i], words[i..j]);
    }
  }

  /** Greedy wrap of a token list into lines. */
  function Wrap(words: seq<string>, width: int): (lines: seq<string>)
    ensures |lines| <= |words|
    ensures |words| >= 1 <==> |lines| >= 1
    decreases |words|
  {
    if |words| == 0 then []
    else
      var k := LongestFit(words, width, |words|);
      [Join(words[..k])] + Wrap(words[k..], width)
  }

  /** Round trip: joining the lines with single spaces gives back the joined tokens. */
  lemma {:induction false} WrapRoundTrip(words: seq<string>, width: int)
    requires |words| >= 1
    ensures Join(Wrap(words, width)) == Join(words)
    decreases |words|
  {
    var k := LongestFit(words, width, |words|);
    if k < |words| {
      var rest := Wrap(words[k..], width);
      WrapRoundTrip(words[k..], width);
      JoinAppend(" ", [Join(words[..k])], rest);
      assert words == words[..k] + words[k..];
      JoinAppend(" ", words[..k], words[k..]);
    } else {
      assert words[..k] == words;
      assert words[k..] == [];
    }
  }

  /** Every line fits the width, except a line that is one over-wide token. */
  lemma {:induction false} WrapLinesFit(words: seq<string>, width: int)
    ensures forall i :: 0 <= i < |Wrap(words, width)| ==>
              |Wrap(words, width)[i]| <= width || Wrap(words, width)[i] in words
    ensures TokensFit(words, width) ==>
              forall i :: 0 <= i < |Wrap(words, width)| ==> |Wrap(words, width)[i]| <= width
    decreases |words|
  {
    if |words| > 0 {
      var k := LongestFit(words, width, |words|);
      var lines := Wrap(words, width);
      WrapLinesFit(words[k..], width);
      assert words[..1] == [words[0]];
      forall i | 0 <= i < |lines|
        ensures |lines[i]| <= width || lines[i] in words
      {
        if i > 0 {
          assert lines[i] == Wrap(words[k..], width)[i - 1];
          if lines[i] in words[k..] {
            var j :| 0 <= j < |words[k..]| && words[k..][j] == lines[i];
            assert words[k + j] == lines[i];
          }
        }
      }
    }
  }

  /** Greedy maximality: every line but the last is full, in that adding a
      space and the first token of the next line would overflow the width. */
  lemma {:induction false} WrapGreedy(words: seq<string>, width: int)
    requires AllSpaceFree(words)
    ensures forall i :: 0 <= i < |Wrap(words, width)| - 1 ==>
              |Wrap(words, width)[i]| + 1 + |Split(Wrap(words, width)[i + 1])[0]| > width
    decreases |words|
  {
    var lines := Wrap(words, width);
    if |lines| > 1 {
      var k := LongestFit(words, width, |words|);
      var rest := words[k..];
      var k' := LongestFit(rest, width, |rest|);
      WrapGreedy(rest, width);
      assert lines == [Join(words[..k])] + Wrap(rest, width);
      assert Wrap(rest, width) == [Join(rest[..k'])] + Wrap(rest[k'..], width);
      // The first line is full.
      assert words[..k + 1] == words[..k] + [words[k]];
      JoinAppend(" ", words[..k], [words[k]]);
      SplitJoin(rest[..k']);
      assert Split(lines[1]) == rest[..k'];
      assert Split(lines[1])[0] == words[k];
      forall i | 0 <= i < |lines| - 1
        ensures |lines[i]| + 1 + |Split(lines[i + 1])[0]| > width
      {
        if i > 0 {
          assert lines[i] == Wrap(rest, width)[i - 1];
          assert lines[i + 1] == Wrap(rest, width)[i];
        }
      }
    }
  }

  /** The worked example: at width 8, "uno dos tres cuatro" wraps onto three lines. */
  lemma WrapExample()
    ensures Wrap(Split("uno dos tres cuatro"), 8) == ["uno dos", "tres", "cuatro"]
  {
    ExampleSplit();
    ExampleWrap();
  }

  lemma ExampleWrap()
    ensures Wrap(["uno", "dos", "tres", "cuatro"], 8) == ["uno dos", "tres", "cuatro"]
  {
    var ws := ["uno", "dos", "tres", "cuatro"];
    assert Join(["uno", "dos"]) == "uno dos" by {
      assert ["uno", "dos"][1..] == ["dos"];
    }
    assert |Join(["uno", "dos", "tres"])| == 12 by {
      assert ["uno", "dos", "tres"][1..] == ["dos", "tres"];
      assert ["dos", "tres"][1..] == ["tres"];
    }
    assert |Join(["tres", "cuatro"])| == 11 by {
      assert ["tres", "cuatro"][1..] == ["cuatro"];
    }
    assert ws[..3] == ["uno", "dos", "tres"] && ws[..2] == ["uno", "dos"];
    LongestFitStopsAt(ws, 8, 3);
    var r1 := ws[2..];
    assert r1 == ["tres", "cuatro"];
    assert r1[..2] == r1 && r1[..1] == ["tres"];
    LongestFitStopsAt(r1, 8, 2);
    var r2 := r1[1..];
    assert r2 == ["cuatro"] && r2[..1] == r2 && r2[1..] == [];
    assert Wrap(r2, 8) == ["cuatro"];
    assert Wrap(r1, 8) == ["tres", "cuatro"];
  }

  lemma ExampleSplit()
    ensures Split("uno dos tres cuatro") == ["uno", "dos", "tres", "cuatro"]
  {
    var ws := ["uno", "dos", "tres", "cuatro"];
    assert ws[1..] == ["dos", "tres", "cuatro"];
    assert ws[1..][1..] == ["tres", "cuatro"];
    assert ws[1..][1..][1..] == ["cuatro"];
    assert Join(ws) == "uno dos tres cuatro";
    SplitJoin(ws);
  }

  // ---------------------------------------------------------------------------
  // The loop as written.

  /** The variables of the `while` loop: `anchor`, `word_idx`, the `lines`
      appended so far, and whether the loop has taken its `break`. */
  datatype LoopState = LoopState(anchor: nat, wordIdx: nat, lines: seq<string>, stopped: bool)

  const Start := LoopState(0, 1, [], false)

  /** The slices the loop takes stay within `words`. */
  predicate InRange(words: seq<string>, s: LoopState) {
    s.anchor < |words| && 1 <= s.wordIdx && s.anchor + s.wordIdx <= |words|
  }

  /** One iteration of the loop body: an over-wide `partial` emits the tokens
      before its last one and restarts at that token; a fitting `partial` that
      reaches the end is emitted and breaks; otherwise one more token is tried. */
  function Step(words: seq<string>, width: int, s: LoopState): (t: LoopState)
    requires InRange(words, s) && !s.stopped
    ensures InRange(words, t)
    ensures s.anchor <= t.anchor
    ensures t.lines == s.lines || (|t.lines| == |s.lines| + 1 && t.lines[..|s.lines|] == s.lines)
  {
    var partial := Join(words[s.anchor .. s.anchor + s.wordIdx]);
    if |partial| > width then
      LoopState(s.anchor + s.wordIdx - 1, 1,
                s.lines + [Join(words[s.anchor .. s.anchor + s.wordIdx - 1])], false)
    else if s.anchor + s.wordIdx == |words| then
      s.(lines := s.lines + [partial], stopped := true)
    else
      s.(wordIdx := s.wordIdx + 1)
  }

  /** At most `fuel` iterations of the loop, stopping early at its `break`. */
  function Run(words: seq<string>, width: int, s: LoopState, fuel: nat): (t: LoopState)
    requires InRange(words, s)
    ensures InRange(words, t)
    ensures s.anchor <= t.anchor
    decreases fuel
  {
    if fuel == 0 || s.stopped then s else Run(words, width, Step(words, width, s), fuel - 1)
  }

  /** Once the loop stands at a token wider than the width with `word_idx` 1,
      each iteration appends an empty line and changes nothing else. */
  lemma {:induction false} LongTokenStalls(words: seq<string>, width: int, s: LoopState, fuel: nat)
    requires InRange(words, s) && !s.stopped && s.wordIdx == 1
    requires |words[s.anchor]| > width
    ensures Run(words, width, s, fuel) == s.(lines := s.lines + seq(fuel, _ => ""))
    decreases fuel
  {
    if fuel > 0 {
      assert words[s.anchor .. s.anchor + 1] == [words[s.anchor]];
      var t := Step(words, width, s);
      assert t == s.(lines := s.lines + [""]);
      LongTokenStalls(words, width, t, fuel - 1);
      assert s.lines + [""] + seq(fuel - 1, _ => "") == s.lines + seq(fuel, _ => "");
    }
  }

  /** While the tokens tried so far end at or before an over-wide token, no
      number of iterations reaches the `break`. */
  lemma {:induction false} BlockedRunNeverStops(words: seq<string>, width: int, k: nat,
                                               s: LoopState, fuel: nat)
    requires InRange(words, s) && !s.stopped
    requires k < |words| && |words[k]| > width
    requires s.anchor + s.wordIdx <= k + 1
    ensures !Run(words, width, s, fuel).stopped
    decreases fuel
  {
    if fuel > 0 {
      if s.anchor + s.wordIdx == k + 1 {
        var slice := words[s.anchor .. s.anchor + s.wordIdx];
        assert slice[s.wordIdx - 1] == words[k];
        JoinCoversToken(slice, s.wordIdx - 1);
      }
      BlockedRunNeverStops(words, width, k, Step(words, width, s), fuel - 1);
    }
  }

  /** A sentence holding a token wider than the width never leaves the loop. */
  lemma LongTokenNeverStops(sentence: string, width: int, fuel: nat)
    requires !TokensFit(Split(sentence), width)
    ensures !Run(Split(sentence), width, Start, fuel).stopped
  {
    var words := Split(sentence);
    var k :| 0 <= k < |words| && |words[k]| > width;
    BlockedRunNeverStops(words, width, k, Start, fuel);
  }

  /** The longest fitting prefix ends just before the first prefix that overflows. */
  lemma LongestFitStopsAt(words: seq<string>, width: int, w: nat)
    requires 2 <= w <= |words|
    requires |Join(words[..w - 1])| <= width < |Join(words[..w])|
    ensures LongestFit(words, width, |words|) == w - 1
  {
    var k := LongestFit(words, width, |words|);
    if k >= w {
      JoinPrefixGrows(words, w, k);
    }
  }

  /** The invariant of `ChunkizeSentence`: the lines so far followed by the
      wrap of the tokens from `anchor` on give the wrap of all tokens, and the
      tokens tried before the current one fit. */
  predicate FollowsWrap(words: seq<string>, width: int, s: LoopState)
    requires InRange(words, s)
  {
    && |Join(words[s.anchor .. s.anchor + s.wordIdx - 1])| <= width
    && (s.stopped ==> s.lines == Wrap(words, width))
    && (!s.stopped ==> s.lines + Wrap(words[s.anchor..], width) == Wrap(words, width))
  }

  /** "abcdef" at width 3: the loop as written never stops, while the greedy
      wrap puts the word alone on one line. */
  lemma LongTokenExample(fuel: nat)
    ensures !Run(Split("abcdef"), 3, Start, fuel).stopped
    ensures Wrap(Split("abcdef"), 3) == ["abcdef"]
  {
    SplitSpaceFree("abcdef");
    var ws := ["abcdef"];
    assert Split("abcdef") == ws && |ws[0]| > 3;
    LongTokenNeverStops("abcdef", 3, fuel);
    assert ws[..1] == ws && ws[1..] == [];
  }

  /** An iteration of the loop keeps `FollowsWrap` and makes progress while every token fits. */
  lemma StepFollowsWrap(words: seq<string>, width: int, s: LoopState)
    requires TokensFit(words, width) && InRange(words, s) && !s.stopped
    requires FollowsWrap(words, width, s)
    ensures FollowsWrap(words, width, Step(words, width, s))
    ensures var t := Step(words, width, s);
      || t.anchor > s.anchor
      || (t.anchor == s.anchor && t.wordIdx > s.wordIdx)
      || (t.anchor == s.anchor && t.wordIdx == s.wordIdx && t.stopped)
  {
    var a, w := s.anchor, s.wordIdx;
    if |Join(words[a .. a + w])| > width {
      assert |words[a]| <= width;
      OverflowStepFollowsWrap(words, width, s);
    } else if a + w == |words| {
      LastStepFollowsWrap(words, width, s);
    }
  }

  lemma OverflowStepFollowsWrap(words: seq<string>, width: int, s: LoopState)
    requires InRange(words, s) && !s.stopped && |words[s.anchor]| <= width
    requires FollowsWrap(words, width, s)
    requires |Join(words[s.anchor .. s.anchor + s.wordIdx])| > width
    ensures FollowsWrap(words, width, Step(words, width, s))
    ensures Step(words, width, s).anchor > s.anchor
  {
    var a, w := s.anchor, s.wordIdx;
    var line := Join(words[a .. a + w - 1]);
    var t := LoopState(a + w - 1, 1, s.lines + [line], false);
    OverflowStepShape(words, width, s);
    OverflowLinesFollowWrap(words, width, s);
    assert words[t.anchor .. t.anchor] == [];
    assert Join(words[t.anchor .. t.anchor + t.wordIdx - 1]) == "";
    assert FollowsWrap(words, width, t);
  }

  /** The state an over-wide `partial` leads to. */
  lemma OverflowStepShape(words: seq<string>, width: int, s: LoopState)
    requires InRange(words, s) && !s.stopped && |words[s.anchor]| <= width
    requires |Join(words[s.anchor .. s.anchor + s.wordIdx])| > width
    ensures s.wordIdx >= 2
    ensures Step(words, width, s)
         == LoopState(s.anchor + s.wordIdx - 1, 1,
                      s.lines + [Join(words[s.anchor .. s.anchor + s.wordIdx - 1])], false)
  {
    assert words[s.anchor .. s.anchor + 1] == [words[s.anchor]];
  }

  /** After an over-wide `partial`, the lines emitted so far followed by the
      wrap of the tokens from the new anchor still give the wrap of all tokens. */
  lemma OverflowLinesFollowWrap(words: seq<string>, width: int, s: LoopState)
    requires InRange(words, s) && !s.stopped && |words[s.anchor]| <= width
    requires FollowsWrap(words, width, s)
    requires |Join(words[s.anchor .. s.anchor + s.wordIdx])| > width
    ensures s.wordIdx >= 2
    ensures (s.lines + [Join(words[s.anchor .. s.anchor + s.wordIdx - 1])])
            + Wrap(words[s.anchor + s.wordIdx - 1..], width) == Wrap(words, width)
  {
    var a, w := s.anchor, s.wordIdx;
    OverflowFollowsWrap(words, width, s);
    var line := Join(words[a .. a + w - 1]);
    var tail := Wrap(words[a + w - 1..], width);
    assert s.lines + Wrap(words[a..], width) == Wrap(words, width);
    assert (s.lines + [line]) + tail == s.lines + ([line] + tail);
  }

  lemma LastStepFollowsWrap(words: seq<string>, width: int, s: LoopState)
    requires InRange(words, s) && !s.stopped
    requires FollowsWrap(words, width, s)
    requires |Join(words[s.anchor .. s.anchor + s.wordIdx])| <= width
    requires s.anchor + s.wordIdx == |words|
    ensures Step(words, width, s) == s.(lines := Wrap(words, width), stopped := true)
  {
    var a, w := s.anchor, s.wordIdx;
    var rest := words[a..];
    var partial := Join(words[a .. a + w]);
    assert words[a .. a + w] == rest;
    assert rest[..w] == rest && rest[w..] == [];
    assert LongestFit(rest, width, |rest|) == |rest|;
    assert Wrap(rest, width) == [partial];
  }

  /** An over-wide `partial` emits exactly the first line `Wrap` gives for the remaining tokens. */
  lemma OverflowFollowsWrap(words: seq<string>, width: int, s: LoopState)
    requires InRange(words, s) && !s.stopped && |words[s.anchor]| <= width
    requires |Join(words[s.anchor .. s.anchor + s.wordIdx - 1])| <= width
    requires |Join(words[s.anchor .. s.anchor + s.wordIdx])| > width
    ensures s.wordIdx >= 2
    ensures var rest := words[s.anchor..];
      Wrap(rest, width) == [Join(words[s.anchor .. s.anchor + s.wordIdx - 1])]
                           + Wrap(words[s.anchor + s.wordIdx - 1..], width)
  {
    var a, w := s.anchor, s.wordIdx;
    var rest := words[a..];
    assert words[a .. a + 1] == [words[a]];
    assert rest[..w] == words[a .. a + w];
    assert rest[..w - 1] == words[a .. a + w - 1];
    LongestFitStopsAt(rest, width, w);
    assert rest[w - 1..] == words[a + w - 1..];
  }

  /** `chunkize_sentence`, as written, for a sentence whose every token fits:
      it stops, and it returns the greedy wrap, whose lines rejoin to the
      sentence, fit the width and are each full. */
  method ChunkizeSentence(sentence: string, maxCharactersPerChunk: int) returns (lines: seq<string>)
    requires TokensFit(Split(sentence), maxCharactersPerChunk)
    ensures lines == Wrap(Split(sentence), maxCharactersPerChunk)
    ensures Join(lines) == sentence
    ensures forall i :: 0 <= i < |lines| ==> |lines[i]| <= maxCharactersPerChunk
    ensures forall i :: 0 <= i < |lines| - 1 ==>
              |lines[i]| + 1 + |Split(lines[i + 1])[0]| > maxCharactersPerChunk
    ensures sentence == "" ==> lines == [""]
  {
    var words := Split(sentence);
    var width := maxCharactersPerChunk;
    var s := Start;
    assert words[0..0] == [];
    assert |words[0]| <= width;
    assert words[0..] == words;
    while s.anchor <= |words| && !s.stopped
      invariant InRange(words, s)
      invariant FollowsWrap(words, width, s)
      decreases |words| - s.anchor, |words| - s.anchor - s.wordIdx, if s.stopped then 0 else 1
    {
      StepFollowsWrap(words, width, s);
      s := Step(words, width, s);
    }
    lines := s.lines;
    WrapRoundTrip(words, width);
    JoinSplit(sentence);
    WrapLinesFit(words, width);
    WrapGreedy(words, width);
  }
}
