/** The Python built-ins on strings and lists that the extension relies on:
    `str.split(" ")`, `sep.join(parts)`, `str.strip()` and the slice `xs[:n]`. */
module Builtins {

  /** True of a token produced by `split(" ")`: it holds no space. */
  predicate SpaceFree(t: string) {
    ' ' !in t
  }

  predicate AllSpaceFree(ts: seq<string>) {
    forall i :: 0 <= i < |ts| ==> SpaceFree(ts[i])
  }

  /** `sep.join(parts)`; joining no parts gives the empty string. */
  function JoinWith(sep: string, parts: seq<string>): (joined: string)
  {
    if |parts| == 0 then ""
    else if |parts| == 1 then parts[0]
    else parts[0] + sep + JoinWith(sep, parts[1..])
  }

  /** `" ".join(parts)` */
  function Join(parts: seq<string>): (joined: string)
  {
    JoinWith(" ", parts)
  }

  /** `s.split(" ")`: cuts at every single space, so consecutive, leading or
      trailing spaces produce empty tokens, and the empty string gives `[""]`. */
  function Split(s: string): (tokens: seq<string>)
    ensures |tokens| >= 1
    ensures AllSpaceFree(tokens)
    decreases |s|
  {
    if |s| == 0 then [""]
    else
      var rest := Split(s[1..]);
      if s[0] == ' ' then [""] + rest
      else [[s[0]] + rest[0]] + rest[1..]
  }

  /** Joining two non-empty lists puts one separator between the two joins. */
  lemma {:induction false} JoinAppend(sep: string, xs: seq<string>, ys: seq<string>)
    requires |xs| >= 1 && |ys| >= 1
    ensures JoinWith(sep, xs + ys) == JoinWith(sep, xs) + sep + JoinWith(sep, ys)
    decreases |xs|
  {
    if |xs| == 1 {
      assert (xs + ys)[1..] == ys;
    } else {
      assert (xs + ys)[1..] == xs[1..] + ys;
      JoinAppend(sep, xs[1..], ys);
    }
  }

  /** No token is longer than the text it is joined into. */
  lemma {:induction false} JoinCoversToken(ts: seq<string>, i: nat)
    requires i < |ts|
    ensures |ts[i]| <= |Join(ts)|
    decreases |ts|
  {
    if |ts| > 1 && i > 0 {
      JoinCoversToken(ts[1..], i - 1);
    }
  }

  /** Round trip: `" ".join(s.split(" ")) == s` for every string. */
  lemma {:induction false} JoinSplit(s: string)
    ensures Join(Split(s)) == s
    decreases |s|
  {
    if |s| > 0 {
      var rest := Split(s[1..]);
      JoinSplit(s[1..]);
      if s[0] == ' ' {
        JoinAppend(" ", [""], rest);
      } else if |rest| == 1 {
      } else {
        var head := [[s[0]] + rest[0]];
        assert rest == [rest[0]] + rest[1..];
        JoinAppend(" ", [rest[0]], rest[1..]);
        JoinAppend(" ", head, rest[1..]);
        assert Split(s) == head + rest[1..];
      }
    }
  }

  lemma {:induction false} SplitSpaceFree(a: string)
    requires SpaceFree(a)
    ensures Split(a) == [a]
    decreases |a|
  {
    if |a| > 0 {
      SplitSpaceFree(a[1..]);
      assert [a[0]] + a[1..] == a;
    }
  }

  lemma {:induction false} SplitAfterToken(a: string, b: string)
    requires SpaceFree(a)
    ensures Split(a + " " + b) == [a] + Split(b)
    decreases |a|
  {
    if |a| == 0 {
      assert a + " " + b == " " + b;
      assert (" " + b)[1..] == b;
    } else {
      SplitAfterToken(a[1..], b);
      assert (a + " " + b)[1..] == a[1..] + " " + b;
      assert [a[0]] + a[1..] == a;
    }
  }

  /** Round trip the other way: splitting a space-joined list of space-free
      tokens gives the tokens back, empty ones included. */
  lemma {:induction false} SplitJoin(ts: seq<string>)
    requires |ts| >= 1 && AllSpaceFree(ts)
    ensures Split(Join(ts)) == ts
    decreases |ts|
  {
    if |ts| == 1 {
      SplitSpaceFree(ts[0]);
    } else {
      SplitJoin(ts[1..]);
      SplitAfterToken(ts[0], Join(ts[1..]));
      assert ts == [ts[0]] + ts[1..];
    }
  }

  /** `str.isspace()` for one character: the ASCII controls tab to carriage
      return, the information separators, the space, and the Unicode spaces and
      line/paragraph separators. */
  predicate IsWhitespace(c: char) {
    || ('\U{9}' <= c <= '\U{D}')
    || ('\U{1C}' <= c <= '\U{20}')
    || c == '\U{85}' || c == '\U{A0}' || c == '\U{1680}'
    || ('\U{2000}' <= c <= '\U{200A}')
    || c == '\U{2028}' || c == '\U{2029}' || c == '\U{202F}' || c == '\U{205F}'
    || c == '\U{3000}'
  }

  predicate AllWhitespace(s: string) {
    forall k :: 0 <= k < |s| ==> IsWhitespace(s[k])
  }

  /** Neither the first nor the last character is whitespace. */
  predicate Trimmed(s: string) {
    |s| == 0 || (!IsWhitespace(s[0]) && !IsWhitespace(s[|s| - 1]))
  }

  /** `s.lstrip()`: the suffix left after dropping all leading whitespace. */
  function StripLeft(s: string): (r: string)
    ensures |r| <= |s| && r == s[|s| - |r|..]
    ensures AllWhitespace(s[..|s| - |r|])
    ensures |r| == 0 || !IsWhitespace(r[0])
    decreases |s|
  {
    if |s| > 0 && IsWhitespace(s[0]) then
      var r := StripLeft(s[1..]);
      StripLeftStep(s, r);
      r
    else s
  }

  /** `s.rstrip()`: the prefix left after dropping all trailing whitespace. */
  function StripRight(s: string): (r: string)
    ensures |r| <= |s| && r == s[..|r|]
    ensures AllWhitespace(s[|r|..])
    ensures |r| == 0 || !IsWhitespace(r[|r| - 1])
    decreases |s|
  {
    if |s| > 0 && IsWhitespace(s[|s| - 1]) then
      var r := StripRight(s[..|s| - 1]);
      StripRightStep(s, r);
      r
    else s
  }

  /** A leading whitespace character joins the whitespace `lstrip()` drops. */
  lemma {:induction false} StripLeftStep(s: string, r: string)
    requires |s| > 0 && IsWhitespace(s[0])
    requires |r| <= |s| - 1 && r == s[1..][|s| - 1 - |r|..]
    requires AllWhitespace(s[1..][..|s| - 1 - |r|])
    ensures r == s[|s| - |r|..]
    ensures AllWhitespace(s[..|s| - |r|])
  {
    assert s[..|s| - |r|] == [s[0]] + s[1..][..|s| - 1 - |r|];
  }

  /** A trailing whitespace character joins the whitespace `rstrip()` drops. */
  lemma {:induction false} StripRightStep(s: string, r: string)
    requires |s| > 0 && IsWhitespace(s[|s| - 1])
    requires |r| <= |s| - 1 && r == s[..|s| - 1][..|r|]
    requires AllWhitespace(s[..|s| - 1][|r|..])
    ensures r == s[..|r|]
    ensures AllWhitespace(s[|r|..])
  {
    assert s[|r|..] == s[..|s| - 1][|r|..] + [s[|s| - 1]];
  }

  /** `r` is an infix of `s` between a whitespace-only prefix and a
      whitespace-only suffix. */
  predicate EdgeTrimmedFrom(s: string, r: string) {
    exists i :: 0 <= i <= |s| - |r| && r == s[i..i + |r|]
                && AllWhitespace(s[..i]) && AllWhitespace(s[i + |r|..])
  }

  /** `s.strip()`: `s` without its leading and trailing whitespace. It removes
      only whitespace, and only from the two ends. */
  function Strip(s: string): (r: string)
    ensures Trimmed(r)
    ensures Trimmed(s) ==> r == s
    ensures EdgeTrimmedFrom(s, r)
  {
    var left := StripLeft(s);
    var r := StripRight(left);
    TrimmedBothEnds(s, left, r);
    assert |r| > 0 ==> r[0] == left[0];
    assert Trimmed(s) ==> left == s && r == s;
    r
  }

  /** Cutting whitespace off the front of `s` and then off the back leaves an
      infix between whitespace-only ends. */
  lemma {:induction false} TrimmedBothEnds(s: string, left: string, r: string)
    requires |left| <= |s| && left == s[|s| - |left|..] && AllWhitespace(s[..|s| - |left|])
    requires |r| <= |left| && r == left[..|r|] && AllWhitespace(left[|r|..])
    ensures EdgeTrimmedFrom(s, r)
  {
    var i := |s| - |left|;
    PrefixOfSuffix(s, i, left, r);
    WhitespaceOfSuffix(s, i, left, |r|);
    assert 0 <= i <= |s| - |r| && r == s[i..i + |r|]
           && AllWhitespace(s[..i]) && AllWhitespace(s[i + |r|..]);
  }

  /** A prefix of the suffix `s[i..]` is an infix of `s`. */
  lemma {:induction false} PrefixOfSuffix(s: string, i: int, left: string, r: string)
    requires 0 <= i <= |s| && left == s[i..]
    requires |r| <= |left| && r == left[..|r|]
    ensures i + |r| <= |s| && r == s[i..i + |r|]
  {
  }

  /** Whitespace at the end of the suffix `s[i..]` is whitespace at the end of `s`. */
  lemma {:induction false} WhitespaceOfSuffix(s: string, i: int, left: string, n: int)
    requires 0 <= i <= |s| && left == s[i..]
    requires 0 <= n <= |left| && AllWhitespace(left[n..])
    ensures i + n <= |s| && AllWhitespace(s[i + n..])
  {
    assert s[i + n..] == left[n..];
  }

  /** Conversely, the trimmed infix between whitespace-only ends is unique:
      it is what `strip()` returns. */
  lemma {:induction false} TrimmedEdgeInfixIsStrip(s: string, r: string, j: int)
    requires Trimmed(r) && 0 <= j <= |s| - |r| && r == s[j..j + |r|]
    requires AllWhitespace(s[..j]) && AllWhitespace(s[j + |r|..])
    ensures r == Strip(s)
  {
    var r0 := Strip(s);
    var i := EdgeWitness(s, r0);
    TrimmedEdgeInfixUnique(s, r, j, r0, i);
  }

  /** Where the infix of `EdgeTrimmedFrom` starts. */
  lemma EdgeWitness(s: string, r: string) returns (i: int)
    requires EdgeTrimmedFrom(s, r)
    ensures 0 <= i <= |s| - |r| && r == s[i..i + |r|]
    ensures AllWhitespace(s[..i]) && AllWhitespace(s[i + |r|..])
  {
    i :| 0 <= i <= |s| - |r| && r == s[i..i + |r|]
         && AllWhitespace(s[..i]) && AllWhitespace(s[i + |r|..]);
  }

  /** Two trimmed infixes of `s`, each between whitespace-only ends, coincide. */
  lemma {:induction false} TrimmedEdgeInfixUnique(s: string, r: string, j: int, r0: string, i: int)
    requires Trimmed(r) && 0 <= j <= |s| - |r| && r == s[j..j + |r|]
    requires AllWhitespace(s[..j]) && AllWhitespace(s[j + |r|..])
    requires Trimmed(r0) && 0 <= i <= |s| - |r0| && r0 == s[i..i + |r0|]
    requires AllWhitespace(s[..i]) && AllWhitespace(s[i + |r0|..])
    ensures r == r0
  {
    if |r0| == 0 && |r| > 0 {
      // Then every character of `s` is whitespace, the first of `r` included.
      assert s[j] == r[0];
      if j < i { WhitespaceBefore(s, i, j); } else { WhitespaceAfter(s, i, j); }
    } else if |r| == 0 && |r0| > 0 {
      assert s[i] == r0[0];
      if i < j { WhitespaceBefore(s, j, i); } else { WhitespaceAfter(s, j, i); }
    } else if |r| > 0 {
      assert s[j] == r[0] && s[j + |r| - 1] == r[|r| - 1];
      assert s[i] == r0[0] && s[i + |r0| - 1] == r0[|r0| - 1];
      // Both infixes start at the first non-whitespace character ...
      if j < i { WhitespaceBefore(s, i, j); }
      if i < j { WhitespaceBefore(s, j, i); }
      // ... and end after the last one.
      var e, e0 := j + |r|, i + |r0|;
      if e < e0 { WhitespaceAfter(s, e, e0 - 1); }
      if e0 < e { WhitespaceAfter(s, e0, e - 1); }
    }
  }

  /** A position inside a whitespace-only prefix holds whitespace. */
  lemma {:induction false} WhitespaceBefore(s: string, cut: int, k: int)
    requires 0 <= k < cut <= |s| && AllWhitespace(s[..cut])
    ensures IsWhitespace(s[k])
  {
    assert s[..cut][k] == s[k];
  }

  /** A position inside a whitespace-only suffix holds whitespace. */
  lemma {:induction false} WhitespaceAfter(s: string, cut: int, k: int)
    requires 0 <= cut <= k < |s| && AllWhitespace(s[cut..])
    ensures IsWhitespace(s[k])
  {
    assert s[cut..][k - cut] == s[k];
  }

  /** `xs[:stop]`: a non-negative stop keeps at most `stop` elements; a
      negative stop drops `-stop` elements from the end. */
  function SliceTo<T>(xs: seq<T>, stop: int): (r: seq<T>)
    ensures |r| <= |xs| && r == xs[..|r|]
    ensures 0 <= stop ==> |r| == if stop < |xs| then stop else |xs|
    ensures stop < 0 ==> |r| == if |xs| + stop < 0 then 0 else |xs| + stop
  {
    if 0 <= stop then
      (if stop < |xs| then xs[..stop] else xs)
    else
      (if |xs| + stop < 0 then [] else xs[..|xs| + stop])
  }
}
