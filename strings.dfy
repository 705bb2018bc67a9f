/**
  The handful of Python `str` operations the manuscript tools are built from:
  `isspace`, `strip`, `replace`, `split()` on whitespace, `split(sep)` on one
  character, `sep.join`, `endswith`, `os.path.basename`, `str(n)` and `int(s)`.
  Strings are sequences of Unicode scalar values, compared by code point as
  Python compares them.
 */
module Strings {
  import opened Wrappers

  /** The characters Python's `str.isspace()` accepts; `strip()` and `split()` use the same set. */
  predicate IsSpace(c: char) {
    || c == ' ' || c == '\t' || c == '\n' || c == '\r'
    || c == '\U{0B}' || c == '\U{0C}'
    || ('\U{1C}' <= c <= '\U{1F}')
    || c == '\U{85}' || c == '\U{A0}' || c == '\U{1680}'
    || ('\U{2000}' <= c <= '\U{200A}')
    || c == '\U{2028}' || c == '\U{2029}' || c == '\U{202F}' || c == '\U{205F}' || c == '\U{3000}'
  }

  predicate AllSpace(s: string) {
    forall i :: 0 <= i < |s| ==> IsSpace(s[i])
  }

  predicate NoSpace(s: string) {
    forall i :: 0 <= i < |s| ==> !IsSpace(s[i])
  }

  /** `s` is non-empty and neither begins nor ends with whitespace. */
  predicate Trimmed(s: string) {
    |s| > 0 && !IsSpace(s[0]) && !IsSpace(s[|s| - 1])
  }

  predicate StartsWith(s: string, p: string) {
    |p| <= |s| && s[..|p|] == p
  }

  /** Python's `s.endswith(p)`. */
  predicate EndsWith(s: string, p: string) {
    |p| <= |s| && s[|s| - |p|..] == p
  }

  /** Python's `p in s`: `p` occurs at some position of `s`. */
  predicate Contains(s: string, p: string)
    decreases |s|
  {
    StartsWith(s, p) || (|s| > 0 && Contains(s[1..], p))
  }

  // ---------------------------------------------------------------- strip

  /** Number of whitespace characters at the front of `s`. */
  function LeadingSpaces(s: string): (n: nat)
    ensures n <= |s| && AllSpace(s[..n])
    ensures n == |s| || !IsSpace(s[n])
  {
    if |s| > 0 && IsSpace(s[0]) then
      var m := LeadingSpaces(s[1..]);
      assert s[..1 + m] == [s[0]] + s[1..][..m];
      1 + m
    else 0
  }

  /** Number of whitespace characters at the back of `s`. */
  function TrailingSpaces(s: string): (n: nat)
    ensures n <= |s| && AllSpace(s[|s| - n..])
    ensures n == |s| || !IsSpace(s[|s| - n - 1])
  {
    if |s| > 0 && IsSpace(s[|s| - 1]) then
      var t := s[..|s| - 1];
      var m := TrailingSpaces(t);
      var k := |t| - m;
      assert forall i :: 0 <= i < m ==> s[k..][i] == t[k..][i];
      assert s[k..][m] == s[|s| - 1];
      assert k > 0 ==> s[k - 1] == t[k - 1];
      1 + m
    else 0
  }

  /**
    Python's `s.strip()`: what lies between the leading and the trailing
    whitespace. The result starts where the leading whitespace ends, only
    whitespace follows it, and it neither starts nor ends with whitespace.
   */
  function Strip(s: string): (r: string)
    ensures LeadingSpaces(s) + |r| <= |s|
    ensures r == s[LeadingSpaces(s)..LeadingSpaces(s) + |r|]
    ensures AllSpace(s[LeadingSpaces(s) + |r|..])
    ensures r == [] || Trimmed(r)
  {
    var l := LeadingSpaces(s);
    var t := s[l..];
    var n := |t| - TrailingSpaces(t);
    assert t[n..] == s[l + n..];
    assert t[..n] == s[l..l + n];
    t[..n]
  }

  /** `LeadingSpaces` is the only count with its two properties. */
  lemma {:induction false} LeadingSpacesIs(s: string, n: nat)
    requires n <= |s| && AllSpace(s[..n])
    requires n == |s| || !IsSpace(s[n])
    ensures LeadingSpaces(s) == n
  {
    if n > 0 {
      assert s[0] == s[..n][0];
      assert s[1..][..n - 1] == s[1..n];
      LeadingSpacesIs(s[1..], n - 1);
    }
  }

  /** `TrailingSpaces` is the only count with its two properties. */
  lemma {:induction false} TrailingSpacesIs(s: string, n: nat)
    requires n <= |s| && AllSpace(s[|s| - n..])
    requires n == |s| || !IsSpace(s[|s| - n - 1])
    ensures TrailingSpaces(s) == n
  {
    if n > 0 {
      assert s[|s| - 1] == s[|s| - n..][n - 1];
      var t := s[..|s| - 1];
      assert t[|t| - (n - 1)..] == s[|s| - n..|s| - 1];
      TrailingSpacesIs(t, n - 1);
    }
  }

  /** Stripping text that is already trimmed, followed by whitespace only, gives the text back. */
  lemma StripTrimmed(s: string, w: string)
    requires s == [] || Trimmed(s)
    requires AllSpace(w)
    ensures Strip(s + w) == s
  {
    var x := s + w;
    if s == [] {
      assert x == w && x[..|x|] == x;
      LeadingSpacesIs(x, |x|);
    } else {
      assert x[..0] == [] && x[0] == s[0];
      LeadingSpacesIs(x, 0);
      assert x[0..] == x;
      assert x[|x| - |w|..] == w && x[|x| - |w| - 1] == s[|s| - 1];
      TrailingSpacesIs(x, |w|);
      assert x[..|x| - |w|] == s;
    }
  }

  // ---------------------------------------------------------------- replace

  /**
    Python's `s.replace(pat, rep)`: scan from the left, replace each occurrence
    and resume after it, so occurrences never overlap and a replacement is
    never rescanned. An empty `pat` inserts `rep` before every character and at
    the end, as Python does.
   */
  function ReplaceAll(s: string, pat: string, rep: string): (r: string)
    ensures |pat| > 0 && |rep| <= |pat| ==> |r| <= |s|
    decreases |s|
  {
    if |pat| == 0 then
      if s == [] then rep else rep + [s[0]] + ReplaceAll(s[1..], pat, rep)
    else if StartsWith(s, pat) then
      assert s == s[..|pat|] + s[|pat|..];
      rep + ReplaceAll(s[|pat|..], pat, rep)
    else if s == [] then []
    else [s[0]] + ReplaceAll(s[1..], pat, rep)
  }

  /** Text in which the pattern does not occur is returned unchanged. */
  lemma {:induction false} ReplaceAbsent(s: string, pat: string, rep: string)
    requires |pat| > 0 && !Contains(s, pat)
    ensures ReplaceAll(s, pat, rep) == s
    decreases |s|
  {
    if s != [] {
      ReplaceAbsent(s[1..], pat, rep);
      assert s == [s[0]] + s[1..];
    }
  }

  /** Replacing a pattern by itself changes nothing. */
  lemma {:induction false} ReplaceSame(s: string, pat: string)
    requires |pat| > 0
    ensures ReplaceAll(s, pat, pat) == s
    decreases |s|
  {
    if StartsWith(s, pat) {
      ReplaceSame(s[|pat|..], pat);
      assert s == s[..|pat|] + s[|pat|..];
    } else if s != [] {
      ReplaceSame(s[1..], pat);
      assert s == [s[0]] + s[1..];
    }
  }

  /** A prefix holding no copy of the pattern's first character is passed through untouched. */
  lemma {:induction false} ReplaceThrough(a: string, b: string, pat: string, rep: string)
    requires |pat| > 0 && pat[0] !in a
    ensures ReplaceAll(a + b, pat, rep) == a + ReplaceAll(b, pat, rep)
    decreases |a|
  {
    var x := a + b;
    if a == [] {
      assert x == b;
    } else {
      assert x[0] == a[0] && a[0] in a;
      MismatchNotStart(x, pat, 0);
      ReplaceSkip(x, pat, rep);
      assert x[1..] == a[1..] + b;
      ReplaceThrough(a[1..], b, pat, rep);
      AppendAssoc([a[0]], a[1..], ReplaceAll(b, pat, rep));
      assert [a[0]] + a[1..] == a;
    }
  }

  /**
    When the left part ends in a character the pattern lacks, no
    occurrence can reach across the seam, so each side is replaced on its own.
   */
  lemma {:induction false} ReplaceConcat(x: string, y: string, pat: string, rep: string)
    requires |pat| > 0
    requires x == [] || x[|x| - 1] !in pat
    ensures ReplaceAll(x + y, pat, rep) == ReplaceAll(x, pat, rep) + ReplaceAll(y, pat, rep)
    decreases |x|, 1
  {
    if x == [] {
      assert x + y == y;
    } else if StartsWith(x + y, pat) {
      ReplaceConcatMatch(x, y, pat, rep);
    } else {
      ReplaceConcatSkip(x, y, pat, rep);
    }
  }

  /** An occurrence at the start of `x + y` lies inside `x` when `x` ends in a character the pattern lacks. */
  lemma MatchInside(x: string, y: string, pat: string)
    requires x != [] && x[|x| - 1] !in pat
    requires StartsWith(x + y, pat)
    ensures StartsWith(x, pat)
  {
    var s := x + y;
    assert s[|x| - 1] == x[|x| - 1];
    assert forall k :: 0 <= k < |pat| ==> s[k] == pat[k] by {
      forall k | 0 <= k < |pat| ensures s[k] == pat[k] {
        assert s[..|pat|][k] == s[k];
      }
    }
    assert x[..|pat|] == s[..|pat|];
  }

  /** `ReplaceConcat` when the pattern starts the text. */
  lemma {:induction false} ReplaceConcatMatch(x: string, y: string, pat: string, rep: string)
    requires |pat| > 0 && x != [] && x[|x| - 1] !in pat
    requires StartsWith(x + y, pat)
    ensures ReplaceAll(x + y, pat, rep) == ReplaceAll(x, pat, rep) + ReplaceAll(y, pat, rep)
    decreases |x|, 0
  {
    MatchInside(x, y, pat);
    var rest := x[|pat|..];
    assert (x + y)[|pat|..] == rest + y;
    assert rest == [] || rest[|rest| - 1] == x[|x| - 1];
    ReplaceHead(x + y, pat, rep);
    ReplaceHead(x, pat, rep);
    ReplaceConcat(rest, y, pat, rep);
    AppendAssoc(rep, ReplaceAll(rest, pat, rep), ReplaceAll(y, pat, rep));
  }

  /** `ReplaceConcat` when the pattern does not start the text. */
  lemma {:induction false} ReplaceConcatSkip(x: string, y: string, pat: string, rep: string)
    requires |pat| > 0 && x != [] && x[|x| - 1] !in pat
    requires !StartsWith(x + y, pat)
    ensures ReplaceAll(x + y, pat, rep) == ReplaceAll(x, pat, rep) + ReplaceAll(y, pat, rep)
    decreases |x|, 0
  {
    if |pat| <= |x| {
      assert x[..|pat|] == (x + y)[..|pat|];
    }
    var rest := x[1..];
    assert (x + y)[1..] == rest + y && (x + y)[0] == x[0];
    assert rest == [] || rest[|rest| - 1] == x[|x| - 1];
    ReplaceSkip(x + y, pat, rep);
    ReplaceSkip(x, pat, rep);
    ReplaceConcat(rest, y, pat, rep);
    AppendAssoc([x[0]], ReplaceAll(rest, pat, rep), ReplaceAll(y, pat, rep));
  }

  /** Where the pattern starts, it is replaced and the scan resumes after it. */
  lemma ReplaceHead(s: string, pat: string, rep: string)
    requires |pat| > 0 && StartsWith(s, pat)
    ensures ReplaceAll(s, pat, rep) == rep + ReplaceAll(s[|pat|..], pat, rep)
  {
  }

  /** Where the pattern does not start, the first character is kept. */
  lemma ReplaceSkip(s: string, pat: string, rep: string)
    requires |pat| > 0 && s != [] && !StartsWith(s, pat)
    ensures ReplaceAll(s, pat, rep) == [s[0]] + ReplaceAll(s[1..], pat, rep)
  {
  }

  /** A mismatch at position `j`, or text too short to reach it, rules `p` out as a prefix. */
  lemma MismatchNotStart(y: string, p: string, j: nat)
    requires j < |p| && (j >= |y| || y[j] != p[j])
    ensures !StartsWith(y, p)
  {
    if |p| <= |y| {
      assert y[..|p|][j] == y[j];
    }
  }

  /** `p` occurs in `u + v` only by starting inside `u` or by occurring in `v`. */
  lemma {:induction false} NotContainsConcat(u: string, v: string, p: string)
    requires forall i :: 0 <= i < |u| ==> !StartsWith((u + v)[i..], p)
    requires !Contains(v, p)
    ensures !Contains(u + v, p)
  {
    if u == [] {
      assert u + v == v;
    } else {
      assert (u + v)[0..] == u + v;
      assert (u + v)[1..] == u[1..] + v;
      forall i | 0 <= i < |u[1..]| ensures !StartsWith((u[1..] + v)[i..], p) {
        assert (u[1..] + v)[i..] == (u + v)[i + 1..];
      }
      NotContainsConcat(u[1..], v, p);
    }
  }

  /** A character that the pattern has and the text lacks rules the pattern out. */
  lemma {:induction false} MissingCharExcludes(s: string, p: string, c: char)
    requires c in p && c !in s
    ensures !Contains(s, p)
    decreases |s|
  {
    if |p| <= |s| {
      var k :| 0 <= k < |p| && p[k] == c;
      assert s[..|p|][k] != c;
    }
    if |s| > 0 {
      MissingCharExcludes(s[1..], p, c);
    }
  }

  /** A pattern holding a character the text lacks leaves the text unchanged. */
  lemma ReplaceMissingChar(s: string, pat: string, rep: string, c: char)
    requires c in pat && c !in s
    ensures ReplaceAll(s, pat, rep) == s
  {
    MissingCharExcludes(s, pat, c);
    ReplaceAbsent(s, pat, rep);
  }

  /** Whoever contains `p` contains `p` without its first, or without its last, character. */
  lemma {:induction false} ContainsShorter(s: string, p: string)
    requires |p| > 0 && Contains(s, p)
    ensures Contains(s, p[1..]) && Contains(s, p[..|p| - 1])
    decreases |s|
  {
    if StartsWith(s, p) {
      assert s[1..][..|p| - 1] == p[1..];
      assert StartsWith(s[1..], p[1..]);
      assert Contains(s[1..], p[1..]);
      assert StartsWith(s, p[..|p| - 1]);
    } else {
      ContainsShorter(s[1..], p);
    }
  }

  /** A run of `k` newlines. */
  function Newlines(k: nat): (r: string)
    ensures |r| == k && forall i :: 0 <= i < k ==> r[i] == '\n'
  {
    if k == 0 then [] else "\n" + Newlines(k - 1)
  }

  lemma {:induction false} NewlinesAppend(j: nat, k: nat)
    ensures Newlines(j + k) == Newlines(j) + Newlines(k)
  {
    if j > 0 {
      NewlinesAppend(j - 1, k);
    }
  }

  // ---------------------------------------------------------------- split() and join

  /** Length of the run of non-whitespace at the front of `s`. */
  function WordLength(s: string): (n: nat)
    ensures n <= |s| && NoSpace(s[..n])
    ensures n == |s| || IsSpace(s[n])
  {
    if |s| > 0 && !IsSpace(s[0]) then
      var m := WordLength(s[1..]);
      assert s[..1 + m] == [s[0]] + s[1..][..m];
      1 + m
    else 0
  }

  /** Tokens as `split()` makes them: non-empty, without whitespace. */
  predicate Tokens(ws: seq<string>) {
    forall w :: w in ws ==> |w| > 0 && NoSpace(w)
  }

  /** Python's `s.split()` with no separator: the maximal runs of non-whitespace, in order. */
  function Split(s: string): (r: seq<string>)
    ensures Tokens(r)
    decreases |s|
  {
    if s == [] then []
    else if IsSpace(s[0]) then Split(s[1..])
    else
      var n := WordLength(s);
      [s[..n]] + Split(s[n..])
  }

  /** `WordLength` is the only length with its two properties. */
  lemma {:induction false} WordLengthIs(s: string, n: nat)
    requires n <= |s| && NoSpace(s[..n])
    requires n == |s| || IsSpace(s[n])
    ensures WordLength(s) == n
  {
    if n > 0 {
      assert s[0] == s[..n][0];
      assert s[1..][..n - 1] == s[1..n];
      WordLengthIs(s[1..], n - 1);
    }
  }

  /** Python's `sep.join(parts)`. */
  function Join(parts: seq<string>, sep: string): string {
    if |parts| == 0 then []
    else if |parts| == 1 then parts[0]
    else parts[0] + sep + Join(parts[1..], sep)
  }

  /** Joining one more part adds the separator and the part at the end. */
  lemma {:induction false} JoinSnoc(parts: seq<string>, x: string, sep: string)
    requires parts != []
    ensures Join(parts + [x], sep) == Join(parts, sep) + sep + x
  {
    if |parts| == 1 {
      assert parts + [x] == [parts[0], x];
    } else {
      assert (parts + [x])[1..] == parts[1..] + [x];
      JoinSnoc(parts[1..], x, sep);
    }
  }

  /** Joining two non-empty lists of parts is joining each and putting the separator between. */
  lemma {:induction false} JoinAppend(a: seq<string>, b: seq<string>, sep: string)
    requires a != [] && b != []
    ensures Join(a + b, sep) == Join(a, sep) + sep + Join(b, sep)
    decreases |b|
  {
    var init := b[..|b| - 1];
    var x := b[|b| - 1];
    if init == [] {
      assert a + b == a + [x];
      JoinSnoc(a, x, sep);
      assert b == [x];
    } else {
      JoinAppend(a, init, sep);
      assert a + b == (a + init) + [x];
      assert b == init + [x];
      JoinSnoc(a + init, x, sep);
      JoinSnoc(init, x, sep);
      AppendAssoc(Join(a, sep) + sep, Join(init, sep), sep + x);
      AppendAssoc(Join(init, sep), sep, x);
      AppendAssoc(Join(a, sep) + sep + Join(init, sep), sep, x);
    }
  }

  /** The concatenation of all `parts`, i.e. `"".join(parts)`. */
  function Concat(parts: seq<string>): string {
    if parts == [] then [] else parts[0] + Concat(parts[1..])
  }

  lemma {:induction false} ConcatAppend(a: seq<string>, b: seq<string>)
    ensures Concat(a + b) == Concat(a) + Concat(b)
  {
    if a == [] {
      assert a + b == b;
    } else {
      assert (a + b)[1..] == a[1..] + b;
      ConcatAppend(a[1..], b);
    }
  }

  /** Whitespace-only text holds no token. */
  lemma {:induction false} SplitAllSpace(s: string)
    requires AllSpace(s)
    ensures Split(s) == []
    decreases |s|
  {
    if s != [] {
      SplitAllSpace(s[1..]);
    }
  }

  /** A non-empty whitespace-free word is a single token. */
  lemma SplitWord(w: string)
    requires |w| > 0 && NoSpace(w)
    ensures Split(w) == [w]
  {
    assert w[..|w|] == w;
    WordLengthIs(w, |w|);
    assert w[|w|..] == [];
  }

  lemma AppendAssoc<T>(x: seq<T>, y: seq<T>, z: seq<T>)
    ensures x + (y + z) == (x + y) + z
  {
  }

  /** No token can straddle the seam of `a + b`: one side is empty or whitespace meets it. */
  predicate SeamOnSpace(a: string, b: string) {
    a == [] || b == [] || IsSpace(a[|a| - 1]) || IsSpace(b[0])
  }

  lemma SeamSuffix(a: string, b: string, n: nat)
    requires SeamOnSpace(a, b) && n <= |a|
    ensures SeamOnSpace(a[n..], b)
  {
    if n < |a| {
      assert a[n..][|a| - n - 1] == a[|a| - 1];
    }
  }

  /** The first word of `a + b` is the first word of `a` when the seam falls on whitespace. */
  lemma WordLengthAppend(a: string, b: string)
    requires a != [] && SeamOnSpace(a, b)
    ensures WordLength(a + b) == WordLength(a)
  {
    var n := WordLength(a);
    assert (a + b)[..n] == a[..n];
    if n < |a| {
      assert (a + b)[n] == a[n];
    } else if |b| > 0 {
      assert (a + b)[n] == b[0];
      if n > 0 {
        assert a[..n][n - 1] == a[n - 1];
      }
    }
    WordLengthIs(a + b, n);
  }

  /**
    Splitting distributes over a concatenation whose seam falls on whitespace:
    no token can straddle it.
   */
  lemma {:induction false} SplitAppend(a: string, b: string)
    requires SeamOnSpace(a, b)
    ensures Split(a + b) == Split(a) + Split(b)
    decreases |a|, 1
  {
    if a == [] {
      assert a + b == b;
    } else if IsSpace(a[0]) {
      SplitAppendSpace(a, b);
    } else {
      SplitAppendWord(a, b);
    }
  }

  /** `SplitAppend` when `a` starts with whitespace. */
  lemma {:induction false} SplitAppendSpace(a: string, b: string)
    requires a != [] && IsSpace(a[0])
    requires SeamOnSpace(a, b)
    ensures Split(a + b) == Split(a) + Split(b)
    decreases |a|, 0
  {
    var t := a[1..];
    assert (a + b)[0] == a[0] && (a + b)[1..] == t + b;
    SeamSuffix(a, b, |a| - |t|);
    SplitAppend(t, b);
  }

  /** A text starting with a word splits into that word and the tokens of the rest. */
  lemma SplitHead(s: string)
    requires s != [] && !IsSpace(s[0])
    ensures Split(s) == [s[..WordLength(s)]] + Split(s[WordLength(s)..])
  {
  }

  /** The first token of `a + b` is the first word of `a`, when `a` starts with one. */
  lemma SplitAppendHead(a: string, b: string)
    requires a != [] && !IsSpace(a[0]) && SeamOnSpace(a, b)
    ensures Split(a + b) == [a[..WordLength(a)]] + Split(a[WordLength(a)..] + b)
  {
    var n := WordLength(a);
    WordLengthAppend(a, b);
    assert (a + b)[0] == a[0];
    SplitHead(a + b);
    assert (a + b)[..n] == a[..n] && (a + b)[n..] == a[n..] + b;
  }

  /** `SplitAppend` when `a` starts with a word. */
  lemma {:induction false} SplitAppendWord(a: string, b: string)
    requires a != [] && !IsSpace(a[0])
    requires SeamOnSpace(a, b)
    ensures Split(a + b) == Split(a) + Split(b)
    decreases |a|, 0
  {
    var n := WordLength(a);
    var t := a[n..];
    SplitAppendHead(a, b);
    SplitHead(a);
    SeamSuffix(a, b, n);
    SplitAppend(t, b);
    AppendAssoc([a[..n]], Split(t), Split(b));
  }

  /** Tokens of a concatenation of texts that each end in whitespace are the tokens of each in turn. */
  lemma {:induction false} SplitConcatSpaced(parts: seq<string>)
    requires forall i :: 0 <= i < |parts| ==> |parts[i]| > 0 && IsSpace(parts[i][|parts[i]| - 1])
    ensures Split(Concat(parts)) == SplitEach(parts)
  {
    if parts != [] {
      SplitConcatSpaced(parts[1..]);
      SplitAppend(parts[0], Concat(parts[1..]));
    }
  }

  /** All tokens of all `parts`, in order. */
  function SplitEach(parts: seq<string>): seq<string> {
    if parts == [] then [] else Split(parts[0]) + SplitEach(parts[1..])
  }

  /**
    Words joined by a single space split back into the same words: `split()`
    undoes `" ".join` on whitespace-free words.
   */
  lemma {:induction false} SplitJoinSpace(words: seq<string>)
    requires forall i :: 0 <= i < |words| ==> |words[i]| > 0 && NoSpace(words[i])
    ensures Split(Join(words, " ")) == words
  {
    if |words| == 1 {
      SplitWord(words[0]);
    } else if |words| > 1 {
      SplitJoinSpace(words[1..]);
      SplitWord(words[0]);
      SplitAppend(words[0], " " + Join(words[1..], " "));
      assert " " + Join(words[1..], " ") == " " + Join(words[1..], " ");
      assert Split(" " + Join(words[1..], " ")) == Split(Join(words[1..], " ")) by {
        assert (" " + Join(words[1..], " "))[1..] == Join(words[1..], " ");
      }
      assert words[0] + " " + Join(words[1..], " ") == words[0] + (" " + Join(words[1..], " "));
    }
  }

  // ---------------------------------------------------------------- split(sep)

  /** Number of copies of `c` in `s`. */
  function Occurrences(s: string, c: char): nat {
    if s == [] then 0 else (if s[0] == c then 1 else 0) + Occurrences(s[1..], c)
  }

  /**
    Python's `s.split(c)` for a one-character separator: the pieces between
    the separators, empty ones included. There is one piece more than there
    are separators, no piece holds the separator, and joining the pieces
    with it gives back `s`.
   */
  function SplitOn(s: string, c: char): (r: seq<string>)
    ensures |r| == Occurrences(s, c) + 1
    ensures forall i :: 0 <= i < |r| ==> c !in r[i]
    ensures Join(r, [c]) == s
  {
    if s == [] then [[]]
    else
      var rest := SplitOn(s[1..], c);
      if s[0] == c then
        assert s == [c] + s[1..];
        [[]] + rest
      else
        var r := [[s[0]] + rest[0]] + rest[1..];
        assert r[1..] == rest[1..];
        assert |rest| > 1 ==> Join(rest, [c]) == rest[0] + [c] + Join(rest[1..], [c]);
        assert s == [s[0]] + s[1..];
        r
  }

  /** `SplitOn` undoes `Join` with the same separator. */
  lemma {:induction false} SplitOnJoin(parts: seq<string>, c: char)
    requires |parts| > 0
    requires forall i :: 0 <= i < |parts| ==> c !in parts[i]
    ensures SplitOn(Join(parts, [c]), c) == parts
  {
    if |parts| == 1 {
      SplitOnPlain(parts[0], c);
    } else {
      SplitOnJoin(parts[1..], c);
      SplitOnPrefix(parts[0], Join(parts[1..], [c]), c);
      assert parts == [parts[0]] + parts[1..];
    }
  }

  /** Text without the separator is a single piece. */
  lemma {:induction false} SplitOnPlain(s: string, c: char)
    requires c !in s
    ensures SplitOn(s, c) == [s]
  {
    if s != [] {
      SplitOnPlain(s[1..], c);
    }
  }

  /** A separator-free head followed by the separator becomes the first piece. */
  lemma {:induction false} SplitOnPrefix(a: string, b: string, c: char)
    requires c !in a
    ensures SplitOn(a + [c] + b, c) == [a] + SplitOn(b, c)
  {
    if a == [] {
      assert a + [c] + b == [c] + b;
      assert ([c] + b)[1..] == b;
    } else {
      assert (a + [c] + b)[1..] == a[1..] + [c] + b;
      SplitOnPrefix(a[1..], b, c);
      assert [a[0]] + a[1..] == a;
    }
  }

  // ---------------------------------------------------------------- os.path.basename

  /**
    `os.path.basename(path)`: the longest suffix of `path` without a `/`; it is
    preceded by a `/` unless it is the whole path.
   */
  function Basename(path: string): (r: string)
    ensures '/' !in r && EndsWith(path, r)
    ensures |r| < |path| ==> path[|path| - |r| - 1] == '/'
  {
    if path == [] || path[|path| - 1] == '/' then []
    else
      var r := Basename(path[..|path| - 1]) + [path[|path| - 1]];
      assert path[|path| - |r|..] == path[..|path| - 1][|path| - |r|..] + [path[|path| - 1]];
      r
  }

  /** The base name of `dir/name` is `name`, whatever `dir` is. */
  lemma {:induction false} BasenameOfChild(dir: string, name: string)
    requires '/' !in name
    ensures Basename(dir + "/" + name) == name
  {
    var p := dir + "/" + name;
    if name != [] {
      var init := name[..|name| - 1];
      assert p[..|p| - 1] == dir + "/" + init;
      assert p[|p| - 1] == name[|name| - 1];
      BasenameOfChild(dir, init);
      assert name == init + [name[|name| - 1]];
    } else {
      assert p == dir + "/";
    }
  }

  // ---------------------------------------------------------------- str() and int()

  predicate IsDigit(c: char) {
    '0' <= c <= '9'
  }

  function DigitChar(d: nat): (c: char)
    requires d < 10
    ensures IsDigit(c) && c as int - '0' as int == d
  {
    (d + '0' as int) as char
  }

  /** Python's `str(n)` for a non-negative integer: its decimal digits, most significant first. */
  function Render(n: nat): (r: string)
    ensures |r| > 0 && forall i :: 0 <= i < |r| ==> IsDigit(r[i])
  {
    if n < 10 then [DigitChar(n)] else Render(n / 10) + [DigitChar(n % 10)]
  }

  /**
    Value of a digit group as Python's `int()` reads it: digits, with
    single underscores only between digits; `None` for anything else.
   */
  function GroupValue(s: string): Option<nat>
    decreases |s|
  {
    if s == [] || !IsDigit(s[|s| - 1]) then None
    else
      var d := s[|s| - 1] as int - '0' as int;
      var init := s[..|s| - 1];
      if init == [] then Some(d)
      else
        var rest := if init[|init| - 1] == '_' then init[..|init| - 1] else init;
        match GroupValue(rest)
        case None => None
        case Some(v) => Some(v * 10 + d)
  }

  /** The text holds a decimal digit. */
  predicate HasDigit(s: string) {
    exists c :: c in s && IsDigit(c)
  }

  /**
    Python's `int(s)` on text: surrounding whitespace is ignored, then an
    optional sign and one digit group. `None` stands for the `ValueError`
    Python raises on anything else.
   */
  function ParseInt(s: string): (r: Option<int>)
    ensures r.Some? ==> HasDigit(s)
    ensures r.Some? && r.value < 0 ==> '-' in s
    decreases |s|
  {
    if |s| > 0 && IsSpace(s[0]) then ParseInt(s[1..])
    else if |s| > 0 && IsSpace(s[|s| - 1]) then ParseInt(s[..|s| - 1])
    else if |s| > 0 && (s[0] == '-' || s[0] == '+') then
      match GroupValue(s[1..])
      case None => None
      case Some(v) => var x: int := v; Some(if s[0] == '-' then -x else x)
    else
      match GroupValue(s)
      case None => None
      case Some(v) => Some(v)
  }

  /** A digit group is read digit by digit, most significant first, and `str(n)` reads back as `n`. */
  lemma {:induction false} RenderValue(n: nat)
    ensures GroupValue(Render(n)) == Some(n)
  {
    var r := Render(n);
    if n >= 10 {
      RenderValue(n / 10);
      assert r[..|r| - 1] == Render(n / 10);
      var init := Render(n / 10);
      assert IsDigit(init[|init| - 1]);
    }
  }

  /** Underscores between digits do not change the value: `int("1_000") == 1000`. */
  lemma ThousandsSeparator()
    ensures ParseInt("1_000") == Some(1000)
  {
    var s := "1_000";
    assert s[..4] == "1_00" && s[..3] == "1_0" && s[..2] == "1_" && s[..1] == "1";
    assert GroupValue("1") == Some(1);
    assert GroupValue("1_0") == Some(10);
    assert GroupValue("1_00") == Some(100);
  }

  /** `int(str(n)) == n`: the ledger reads back exactly the count it wrote. */
  lemma ParseRender(n: nat)
    ensures ParseInt(Render(n)) == Some(n)
  {
    RenderValue(n);
    var r := Render(n);
    assert IsDigit(r[0]) && IsDigit(r[|r| - 1]);
  }
}
