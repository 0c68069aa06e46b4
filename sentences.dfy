/**
 * The sentence segmenter of the chunking service: `re.split(r'(?<=[.!?])\s+', text)`
 * followed by stripping every piece and dropping the blank ones.
 */
module Sentences {
  import opened Text

  predicate IsTerminator(c: char) {
    c == '.' || c == '!' || c == '?'
  }

  /** The pattern `(?<=[.!?])\s+` can start matching at position `p` of `s`. */
  predicate IsBoundary(s: string, p: int) {
    0 < p < |s| && IsTerminator(s[p - 1]) && IsSpace(s[p])
  }

  /** No `.`, `!` or `?` in `s` is immediately followed by whitespace. */
  predicate NoBoundary(s: string) {
    forall p :: 0 < p < |s| ==> !IsBoundary(s, p)
  }

  /** The leftmost position at or after `p` where the pattern matches, or `|s|` if there is none. */
  function NextBoundary(s: string, p: nat): (q: nat)
    requires p <= |s|
    ensures p <= q <= |s|
    ensures q < |s| ==> IsBoundary(s, q)
    ensures forall j :: p <= j < q ==> !IsBoundary(s, j)
    decreases |s| - p
  {
    if p == |s| || IsBoundary(s, p) then p else NextBoundary(s, p + 1)
  }

  /** Where the greedy `\s+` starting at `p` stops. */
  function SpaceRunEnd(s: string, p: nat): (q: nat)
    requires p <= |s|
    ensures p <= q <= |s| && IsBlank(s[p..q])
    ensures q == |s| || !IsSpace(s[q])
    decreases |s| - p
  {
    if p < |s| && IsSpace(s[p]) then
      var q := SpaceRunEnd(s, p + 1);
      assert s[p..q] == [s[p]] + s[p + 1..q];
      q
    else p
  }

  /** A piece of `s` cut before any boundary of `s` has no boundary of its own. */
  lemma PieceHasNoBoundary(s: string, i: nat, j: nat)
    requires i <= j <= |s|
    requires forall p :: i < p < j ==> !IsBoundary(s, p)
    ensures NoBoundary(s[i..j])
  {
    forall p | 0 < p < j - i ensures !IsBoundary(s[i..j], p) {
      assert s[i..j][p - 1] == s[i + p - 1] && s[i..j][p] == s[i + p];
      assert !IsBoundary(s, i + p);
    }
  }

  /** The non-whitespace characters of the pieces, one piece after another. */
  function NonSpaceAll(xs: seq<string>): string {
    if xs == [] then [] else NonSpace(xs[0]) + NonSpaceAll(xs[1..])
  }

  /**
   * `re.split(r'(?<=[.!?])\s+', s)`: cut `s` at every whitespace run that follows
   * `.`, `!` or `?`; the runs themselves are dropped. An `s` without such a run is
   * returned whole, so the result is never empty.
   */
  function RawSplit(s: string): (pieces: seq<string>)
    ensures |pieces| >= 1
    ensures forall k :: 0 <= k < |pieces| ==> NoBoundary(pieces[k])
    ensures NonSpaceAll(pieces) == NonSpace(s)
    decreases |s|
  {
    var p := NextBoundary(s, 0);
    if p == |s| then
      WholePiece(s);
      [s]
    else
      var q := SpaceRunEnd(s, p);
      var rest := RawSplit(s[q..]);
      CutPiece(s, p, q, rest);
      [s[..p]] + rest
  }

  /** With no boundary in `s`, `s` alone is a piece without a boundary that keeps all of `s`. */
  lemma WholePiece(s: string)
    requires NextBoundary(s, 0) == |s|
    ensures NoBoundary(s) && NonSpaceAll([s]) == NonSpace(s)
  {
    assert s[0..|s|] == s;
    PieceHasNoBoundary(s, 0, |s|);
    assert NonSpaceAll([s]) == NonSpace(s) + NonSpaceAll([]);
  }

  /**
   * Cutting `s` before its first boundary `p` and dropping the whitespace run up to
   * `q`: the first piece has no boundary, and the non-whitespace characters of the
   * piece and of the pieces of the rest are those of `s`.
   */
  lemma CutPiece(s: string, p: nat, q: nat, rest: seq<string>)
    requires p <= q <= |s| && p == NextBoundary(s, 0) && IsBlank(s[p..q])
    requires NonSpaceAll(rest) == NonSpace(s[q..])
    ensures NoBoundary(s[..p])
    ensures NonSpaceAll([s[..p]] + rest) == NonSpace(s)
  {
    assert s[0..p] == s[..p];
    PieceHasNoBoundary(s, 0, p);
    DropBlankRun(s, p, q);
    assert ([s[..p]] + rest)[1..] == rest;
  }

  /** Dropping a blank run `s[p..q]` keeps the non-whitespace characters of `s`. */
  lemma DropBlankRun(s: string, p: nat, q: nat)
    requires p <= q <= |s| && IsBlank(s[p..q])
    ensures NonSpace(s) == NonSpace(s[..p]) + NonSpace(s[q..])
  {
    var a, b, c := s[..p], s[p..q], s[q..];
    SplitThree(s, p, q);
    calc {
      NonSpace(s);
    ==
      NonSpace((a + b) + c);
    == { NonSpaceAppend(a + b, c); }
      NonSpace(a + b) + NonSpace(c);
    == { NonSpaceAppend(a, b); NonSpaceEmptyIffBlank(b); assert NonSpace(a) + [] == NonSpace(a); }
      NonSpace(a) + NonSpace(c);
    }
  }

  /** `[x.strip() for x in pieces if x.strip()]`. */
  function Clean(pieces: seq<string>): (r: seq<string>)
    requires forall k :: 0 <= k < |pieces| ==> NoBoundary(pieces[k])
    ensures |r| <= |pieces|
    ensures forall k :: 0 <= k < |r| ==> IsSentence(r[k])
    ensures NonSpaceAll(r) == NonSpaceAll(pieces)
  {
    if pieces == [] then []
    else
      var t := Strip(pieces[0]);
      var rest := Clean(pieces[1..]);
      CleanStep(pieces, rest);
      if t == [] then rest else [t] + rest
  }

  /** One step of `Clean`: the stripped first piece, if not blank, in front of the cleaned rest. */
  lemma CleanStep(pieces: seq<string>, rest: seq<string>)
    requires pieces != [] && NoBoundary(pieces[0])
    requires |rest| <= |pieces| - 1 && NonSpaceAll(rest) == NonSpaceAll(pieces[1..])
    requires forall k :: 0 <= k < |rest| ==> IsSentence(rest[k])
    ensures var t := Strip(pieces[0]); var r := if t == [] then rest else [t] + rest;
      && |r| <= |pieces|
      && (forall k :: 0 <= k < |r| ==> IsSentence(r[k]))
      && NonSpaceAll(r) == NonSpaceAll(pieces)
  {
    var x := pieces[0];
    var t := Strip(x);
    NonSpaceAllCons(pieces);
    if t != [] {
      StripKeepsNoBoundary(x);
      SentencesCons(t, rest);
      ConsAppend([t] + rest, []);
    } else {
      NonSpaceEmptyIffBlank(x);
    }
  }

  /** The non-whitespace characters of a non-empty list of pieces, first piece first. */
  lemma NonSpaceAllCons(xs: seq<string>)
    requires xs != []
    ensures NonSpaceAll(xs) == NonSpace(xs[0]) + NonSpaceAll(xs[1..])
  {
  }

  /** A sentence in front of sentences gives sentences. */
  lemma SentencesCons(t: string, rest: seq<string>)
    requires IsSentence(t) && forall k :: 0 <= k < |rest| ==> IsSentence(rest[k])
    ensures forall k :: 0 <= k < |[t] + rest| ==> IsSentence(([t] + rest)[k])
  {
    ConsIndex(t, rest);
  }

  /** What the segmenter promises of every sentence it returns. */
  predicate IsSentence(x: string) {
    x != [] && !IsSpace(x[0]) && !IsSpace(x[|x| - 1]) && NoBoundary(x)
  }

  lemma StripKeepsNoBoundary(x: string)
    requires NoBoundary(x)
    ensures NoBoundary(Strip(x))
  {
    var i := LeadingSpaces(x);
    var t := Strip(x);
    forall p | 0 < p < |t| ensures !IsBoundary(t, p) {
      assert t[p - 1] == x[i + p - 1] && t[p] == x[i + p];
      assert !IsBoundary(x, i + p);
    }
  }

  /** `ChunkingService._split_into_sentences`. */
  function SplitIntoSentences(text: string): (sentences: seq<string>)
    ensures forall k :: 0 <= k < |sentences| ==> IsSentence(sentences[k])
    ensures NonSpaceAll(sentences) == NonSpace(text)
  {
    Clean(RawSplit(text))
  }

  /** The segmenter finds no sentence exactly when the text is empty or all whitespace. */
  lemma SentencesEmptyIffBlank(text: string)
    ensures SplitIntoSentences(text) == [] <==> IsBlank(text)
  {
    var ss := SplitIntoSentences(text);
    NonSpaceEmptyIffBlank(text);
    if ss != [] {
      var x := ss[0];
      assert NonSpace(x) == [x[0]] + NonSpace(x[1..]);
      assert NonSpaceAll(ss) == NonSpace(x) + NonSpaceAll(ss[1..]);
    }
  }

  /** The greedy whitespace run starting at `p` stops at `q` when `s[p..q]` is blank and `s[q]` is not whitespace. */
  lemma {:induction false} SpaceRunEndAt(s: string, p: nat, q: nat)
    requires p <= q <= |s| && IsBlank(s[p..q]) && (q == |s| || !IsSpace(s[q]))
    ensures SpaceRunEnd(s, p) == q
    decreases q - p
  {
    if p < q {
      var run, tail := s[p..q], s[p + 1..q];
      assert s[p] == run[0];
      assert IsBlank(tail) by {
        forall i | 0 <= i < |tail| ensures IsSpace(tail[i]) { assert tail[i] == run[i + 1]; }
      }
      SpaceRunEndAt(s, p + 1, q);
    }
  }

  /**
   * A piece that ends a sentence, then a whitespace run, then text that does not
   * start with whitespace: the first piece is cut off there and the run is dropped.
   */
  lemma RawSplitAtGap(a: string, g: string, rest: string)
    requires a != [] && IsTerminator(a[|a| - 1]) && NoBoundary(a)
    requires g != [] && IsBlank(g)
    requires rest == [] || !IsSpace(rest[0])
    ensures RawSplit(a + g + rest) == [a] + RawSplit(rest)
  {
    var s := a + g + rest;
    var n := |a|;
    assert s[n - 1] == a[n - 1] && s[n] == g[0];
    assert IsBoundary(s, n);
    forall j | 0 < j < n ensures !IsBoundary(s, j) {
      assert s[j - 1] == a[j - 1] && s[j] == a[j];
      assert !IsBoundary(a, j);
    }
    var p := NextBoundary(s, 0);
    assert p == n;
    var q := n + |g|;
    assert s[n..q] == g;
    assert q < |s| ==> s[q] == rest[0];
    SpaceRunEndAt(s, n, q);
    assert s[..p] == a && s[q..] == rest;
  }

  /** A piece without a boundary is not cut. */
  lemma RawSplitWhole(s: string)
    requires NoBoundary(s)
    ensures RawSplit(s) == [s]
  {
    var p := NextBoundary(s, 0);
    assert p == |s|;
  }

  /** Stripping a sentence leaves it as it is. */
  lemma StripSentence(x: string)
    requires IsSentence(x)
    ensures Strip(x) == x
  {
    assert LeadingSpaces(x) == 0;
    assert TrailingStart(x[0..]) == |x|;
    assert x[0..|x|] == x;
  }

  /** Sentences that each end with `.`, `!` or `?`, but perhaps the last, can be rejoined with single spaces. */
  predicate Rejoinable(xs: seq<string>) {
    && (forall k :: 0 <= k < |xs| ==> IsSentence(xs[k]))
    && (forall k :: 0 <= k < |xs| - 1 ==> IsTerminator(xs[k][|xs[k]| - 1]))
  }

  /**
   * The segmenter undoes joining with single spaces: sentences that end with
   * `.`, `!` or `?` (the last one need not), joined by spaces, split back into
   * exactly those sentences.
   */
  lemma {:induction false} SplitJoinRoundTrip(xs: seq<string>)
    requires Rejoinable(xs)
    ensures SplitIntoSentences(JoinSpace(xs)) == xs
  {
    if xs == [] {
      assert RawSplit("") == [""];
      assert Strip("") == "";
    } else if |xs| == 1 {
      RawSplitWhole(xs[0]);
      StripSentence(xs[0]);
      assert Clean([xs[0]]) == [xs[0]] + Clean([]);
    } else {
      var rest := xs[1..];
      RejoinableTail(xs);
      SplitJoinRoundTrip(rest);
      SplitJoinStep(xs);
      ConsAppend(xs, []);
    }
  }

  /** Dropping the first sentence keeps a list rejoinable. */
  lemma RejoinableTail(xs: seq<string>)
    requires xs != [] && Rejoinable(xs)
    ensures Rejoinable(xs[1..])
  {
    var rest := xs[1..];
    forall k | 0 <= k < |rest| ensures IsSentence(rest[k]) { assert rest[k] == xs[k + 1]; }
    forall k | 0 <= k < |rest| - 1 ensures IsTerminator(rest[k][|rest[k]| - 1]) { assert rest[k] == xs[k + 1]; }
  }

  /** The first sentence is cut off the joined text; the rest is split as the join of the other sentences. */
  lemma SplitJoinStep(xs: seq<string>)
    requires |xs| >= 2 && Rejoinable(xs)
    ensures SplitIntoSentences(JoinSpace(xs)) == [xs[0]] + SplitIntoSentences(JoinSpace(xs[1..]))
  {
    var rest := xs[1..];
    assert IsSentence(xs[0]) && IsSentence(xs[1]);
    assert [xs[0]] + rest == xs;
    JoinAppend(" ", [xs[0]], rest);
    var tail := JoinSpace(rest);
    assert tail != [] && tail[0] == xs[1][0] by {
      if |rest| >= 2 {
        assert [rest[0]] + rest[1..] == rest;
        JoinAppend(" ", [rest[0]], rest[1..]);
      }
    }
    RawSplitAtGap(xs[0], " ", tail);
    StripSentence(xs[0]);
    var pieces := [xs[0]] + RawSplit(tail);
    assert pieces[1..] == RawSplit(tail);
  }

  /** The pieces with the whitespace runs between them: `xs[0] + gaps[0] + xs[1] + ... + xs[n - 1]`. */
  function Interleave(xs: seq<string>, gaps: seq<string>): string
    requires |xs| == |gaps| + 1
  {
    if gaps == [] then xs[0] else xs[0] + gaps[0] + Interleave(xs[1..], gaps[1..])
  }

  /** Every run is a non-empty stretch of whitespace. */
  predicate AreGaps(gaps: seq<string>) {
    forall k :: 0 <= k < |gaps| ==> gaps[k] != [] && IsBlank(gaps[k])
  }

  /**
   * Pieces as `re.split` leaves them around whitespace runs: none has a boundary,
   * each but the last ends with `.`, `!` or `?`, and each but the first is empty or
   * starts with a character that is not whitespace (the run before it is maximal).
   */
  predicate SplitPieces(xs: seq<string>) {
    && |xs| >= 1
    && (forall k :: 0 <= k < |xs| ==> NoBoundary(xs[k]))
    && (forall k :: 0 <= k < |xs| - 1 ==> xs[k] != [] && IsTerminator(xs[k][|xs[k]| - 1]))
    && (forall k :: 1 <= k < |xs| ==> xs[k] == [] || !IsSpace(xs[k][0]))
  }

  /** A text starts with its first piece. */
  lemma InterleaveHead(xs: seq<string>, gaps: seq<string>)
    requires |xs| == |gaps| + 1 && xs[0] != []
    ensures Interleave(xs, gaps) != [] && Interleave(xs, gaps)[0] == xs[0][0]
  {
  }

  /**
   * `re.split` recovers the pieces of any text built from pieces of that shape and
   * whitespace runs: where the text is cut is fixed by the pieces themselves.
   */
  lemma {:induction false} RawSplitInterleave(xs: seq<string>, gaps: seq<string>)
    requires |xs| == |gaps| + 1 && SplitPieces(xs) && AreGaps(gaps)
    ensures RawSplit(Interleave(xs, gaps)) == xs
    decreases |gaps|
  {
    if gaps == [] {
      RawSplitWhole(xs[0]);
    } else {
      var xs', gaps' := xs[1..], gaps[1..];
      SplitPiecesTail(xs);
      assert AreGaps(gaps') by {
        forall k | 0 <= k < |gaps'| ensures gaps'[k] != [] && IsBlank(gaps'[k]) { assert gaps'[k] == gaps[k + 1]; }
      }
      var rest := Interleave(xs', gaps');
      if xs'[0] != [] {
        InterleaveHead(xs', gaps');
      } else {
        assert gaps' == [];
      }
      RawSplitAtGap(xs[0], gaps[0], rest);
      RawSplitInterleave(xs', gaps');
      assert xs == [xs[0]] + xs';
    }
  }

  /** Dropping the first of at least two pieces keeps the shape. */
  lemma SplitPiecesTail(xs: seq<string>)
    requires |xs| >= 2 && SplitPieces(xs)
    ensures SplitPieces(xs[1..])
  {
    var t := xs[1..];
    forall k | 0 <= k < |t| ensures NoBoundary(t[k]) { assert t[k] == xs[k + 1]; }
    forall k | 0 <= k < |t| - 1 ensures t[k] != [] && IsTerminator(t[k][|t[k]| - 1]) { assert t[k] == xs[k + 1]; }
    forall k | 1 <= k < |t| ensures t[k] == [] || !IsSpace(t[k][0]) { assert t[k] == xs[k + 1]; }
  }

  /** The first piece is the text up to its first boundary. */
  lemma RawSplitHead(s: string)
    ensures RawSplit(s)[0] == s[..NextBoundary(s, 0)]
  {
  }

  /**
   * Every text is its `re.split` pieces with whitespace runs between them, and the
   * pieces have the shape `RawSplitInterleave` recovers: together the two lemmas
   * say that `RawSplit(s)` is the one such decomposition of `s`.
   */
  lemma {:induction false} RawSplitShape(s: string)
    ensures SplitPieces(RawSplit(s))
    ensures exists gaps :: |gaps| == |RawSplit(s)| - 1 && AreGaps(gaps) && Interleave(RawSplit(s), gaps) == s
    decreases |s|
  {
    var p := NextBoundary(s, 0);
    if p == |s| {
      WholePiece(s);
      var gaps: seq<string> := [];
      assert RawSplit(s) == [s];
      assert Interleave([s], gaps) == s;
    } else {
      var q := SpaceRunEnd(s, p);
      var rest := RawSplit(s[q..]);
      RawSplitShape(s[q..]);
      var gs :| |gs| == |rest| - 1 && AreGaps(gs) && Interleave(rest, gs) == s[q..];
      CutPiece(s, p, q, rest);
      assert RawSplit(s) == [s[..p]] + rest;
      RawSplitHead(s[q..]);
      ShapeStep(s, p, q, rest, gs);
      var gaps := [s[p..q]] + gs;
      assert |gaps| == |RawSplit(s)| - 1 && AreGaps(gaps) && Interleave(RawSplit(s), gaps) == s;
    }
  }

  /** The first piece, the run after it and the decomposition of the rest make a decomposition of `s`. */
  lemma ShapeStep(s: string, p: nat, q: nat, rest: seq<string>, gs: seq<string>)
    requires 0 < p < q <= |s| && IsTerminator(s[p - 1]) && IsBlank(s[p..q]) && NoBoundary(s[..p])
    requires SplitPieces(rest) && rest[0] == s[q..][..NextBoundary(s[q..], 0)] && (q == |s| || !IsSpace(s[q]))
    requires |gs| == |rest| - 1 && AreGaps(gs) && Interleave(rest, gs) == s[q..]
    ensures SplitPieces([s[..p]] + rest)
    ensures var gaps := [s[p..q]] + gs;
      |gaps| == |rest| && AreGaps(gaps) && Interleave([s[..p]] + rest, gaps) == s
  {
    var a, g := s[..p], s[p..q];
    assert a[|a| - 1] == s[p - 1];
    assert rest[0] != [] ==> rest[0][0] == s[q];
    PiecesCons(a, rest);
    var gaps := [g] + gs;
    ConsIndex(g, gs);
    assert AreGaps(gaps) by {
      forall k | 0 <= k < |gaps| ensures gaps[k] != [] && IsBlank(gaps[k]) {
        if k > 0 { assert gaps[k] == gs[k - 1]; }
      }
    }
    InterleaveCons(a, g, rest, gs);
    SplitThree(s, p, q);
  }

  /** The parts of a sequence cut at `p` and `q`, put back together. */
  lemma SplitThree<T>(s: seq<T>, p: nat, q: nat)
    requires p <= q <= |s|
    ensures s == s[..p] + s[p..q] + s[q..]
  {
  }

  /** The elements of a sequence with one more in front. */
  lemma ConsIndex<T>(t: T, rest: seq<T>)
    ensures ([t] + rest)[0] == t && ([t] + rest)[1..] == rest
    ensures forall k :: 0 < k <= |rest| ==> ([t] + rest)[k] == rest[k - 1]
  {
  }

  /** One more piece and run in front. */
  lemma InterleaveCons(a: string, g: string, xs: seq<string>, gs: seq<string>)
    requires |xs| == |gs| + 1
    ensures Interleave([a] + xs, [g] + gs) == a + g + Interleave(xs, gs)
  {
    assert ([a] + xs)[1..] == xs && ([g] + gs)[1..] == gs;
  }

  /** A piece that ends a sentence in front of pieces of the right shape. */
  lemma PiecesCons(a: string, rest: seq<string>)
    requires a != [] && IsTerminator(a[|a| - 1]) && NoBoundary(a)
    requires SplitPieces(rest) && (rest[0] == [] || !IsSpace(rest[0][0]))
    ensures SplitPieces([a] + rest)
  {
    var xs := [a] + rest;
    forall k | 0 <= k < |xs| ensures NoBoundary(xs[k]) { if k > 0 { assert xs[k] == rest[k - 1]; } }
    forall k | 0 <= k < |xs| - 1 ensures xs[k] != [] && IsTerminator(xs[k][|xs[k]| - 1]) {
      if k > 0 { assert xs[k] == rest[k - 1]; }
    }
    forall k | 1 <= k < |xs| ensures xs[k] == [] || !IsSpace(xs[k][0]) { assert xs[k] == rest[k - 1]; }
  }

  /** The list comprehension works piece by piece: cleaning a concatenation concatenates the results. */
  lemma {:induction false} CleanAppend(a: seq<string>, b: seq<string>)
    requires forall k :: 0 <= k < |a| ==> NoBoundary(a[k])
    requires forall k :: 0 <= k < |b| ==> NoBoundary(b[k])
    ensures Clean(a + b) == Clean(a) + Clean(b)
  {
    if a == [] {
      assert a + b == b;
    } else {
      UnbrokenParts(a, b);
      CleanAppend(a[1..], b);
      CleanAppendStep(a, b);
    }
  }

  /** Cleaning `a + b` after its first piece is cleaning the rest of `a`, then `b`. */
  lemma CleanAppendStep(a: seq<string>, b: seq<string>)
    requires a != []
    requires forall k :: 0 <= k < |a| ==> NoBoundary(a[k])
    requires forall k :: 0 <= k < |a| - 1 ==> NoBoundary(a[1..][k])
    requires forall k :: 0 <= k < |a| - 1 + |b| ==> NoBoundary((a[1..] + b)[k])
    requires forall k :: 0 <= k < |b| ==> NoBoundary(b[k])
    requires Clean(a[1..] + b) == Clean(a[1..]) + Clean(b)
    ensures Clean(a + b) == Clean(a) + Clean(b)
  {
    var x, a' := a[0], a[1..];
    var h: seq<string> := if Strip(x) == [] then [] else [Strip(x)];
    var p, q := Clean(a'), Clean(b);
    ConsAppend(a, b);
    CleanCons(x, a');
    CleanCons(x, a' + b);
    AppendAssoc(h, p, q);
  }

  lemma AppendAssoc<T>(a: seq<T>, b: seq<T>, c: seq<T>)
    ensures a + (b + c) == (a + b) + c
  {
  }

  /** A non-empty sequence is its first element and the rest, also in front of more. */
  lemma ConsAppend<T>(a: seq<T>, b: seq<T>)
    requires a != []
    ensures a == [a[0]] + a[1..] && a + b == [a[0]] + (a[1..] + b)
  {
  }

  /** The pieces after the first, and the pieces after the first followed by `b`, have no boundary. */
  lemma UnbrokenParts(a: seq<string>, b: seq<string>)
    requires a != []
    requires forall k :: 0 <= k < |a| ==> NoBoundary(a[k])
    requires forall k :: 0 <= k < |b| ==> NoBoundary(b[k])
    ensures forall k :: 0 <= k < |a| - 1 ==> NoBoundary(a[1..][k])
    ensures forall k :: 0 <= k < |a| - 1 + |b| ==> NoBoundary((a[1..] + b)[k])
  {
    var a' := a[1..];
    forall k | 0 <= k < |a'| ensures NoBoundary(a'[k]) { assert a'[k] == a[k + 1]; }
    forall k | 0 <= k < |a'| + |b| ensures NoBoundary((a' + b)[k]) {
      if k < |a'| { assert (a' + b)[k] == a[k + 1]; } else { assert (a' + b)[k] == b[k - |a'|]; }
    }
  }

  /** `Clean` on a first piece and the rest, as its definition takes it. */
  lemma CleanCons(x: string, rest: seq<string>)
    requires NoBoundary(x) && forall k :: 0 <= k < |rest| ==> NoBoundary(rest[k])
    ensures forall k :: 0 <= k < |[x] + rest| ==> NoBoundary(([x] + rest)[k])
    ensures Clean([x] + rest) == (if Strip(x) == [] then [] else [Strip(x)]) + Clean(rest)
  {
    var xs := [x] + rest;
    forall k | 0 <= k < |xs| ensures NoBoundary(xs[k]) { if k > 0 { assert xs[k] == rest[k - 1]; } }
    assert xs[0] == x && xs[1..] == rest;
  }

  /** One piece yields its stripped text, or nothing when it is blank. */
  lemma CleanOne(x: string)
    requires NoBoundary(x)
    ensures Clean([x]) == if Strip(x) == [] then [] else [Strip(x)]
  {
    assert [x][1..] == [];
  }

  /** No boundary appears when blank runs pad a sentence that, if padded at its end, does not end one. */
  lemma NoBoundaryPad(w: string, x: string, w': string)
    requires IsBlank(w) && IsBlank(w') && IsSentence(x)
    requires w' == [] || !IsTerminator(x[|x| - 1])
    ensures NoBoundary(w + x + w')
  {
    var s := w + x + w';
    var n, m := |w|, |w| + |x|;
    forall p | 0 < p < |s| ensures !IsBoundary(s, p) {
      if p < n {
        assert s[p - 1] == w[p - 1];
      } else if p == n {
        assert s[p] == x[0];
      } else if p < m {
        assert s[p - 1] == x[p - n - 1] && s[p] == x[p - n];
        assert !IsBoundary(x, p - n);
      } else if p == m {
        assert s[p - 1] == x[|x| - 1];
      } else {
        assert s[p - 1] == w'[p - 1 - m];
      }
    }
  }

  /** A sentence padded by blank runs is segmented into that sentence alone. */
  lemma PaddedSentence(w: string, x: string, w': string)
    requires IsBlank(w) && IsBlank(w') && IsSentence(x)
    ensures SplitIntoSentences(w + x + w') == [x]
  {
    if w' != [] && IsTerminator(x[|x| - 1]) {
      NoBoundaryPad(w, x, []);
      assert w + x + [] == w + x;
      assert (w + x)[|w + x| - 1] == x[|x| - 1];
      RawSplitAtGap(w + x, w', []);
      assert w + x + w' + [] == w + x + w';
      assert RawSplit([]) == [[]];
      StripPadded(w, x, []);
      assert Strip([]) == [];
      CleanAppend([w + x], [[]]);
      CleanOne(w + x);
      CleanOne([]);
    } else {
      NoBoundaryPad(w, x, w');
      RawSplitWhole(w + x + w');
      StripPadded(w, x, w');
      CleanOne(w + x + w');
    }
  }

  /**
   * The segmenter undoes any spacing: sentences that end with `.`, `!` or `?` (the
   * last one need not), separated by any whitespace runs and with any blank text
   * before and after, split back into exactly those sentences.
   */
  lemma {:induction false} SplitSpacedRoundTrip(w: string, xs: seq<string>, gaps: seq<string>, w': string)
    requires |xs| == |gaps| + 1 && Rejoinable(xs) && AreGaps(gaps)
    requires IsBlank(w) && IsBlank(w')
    ensures SplitIntoSentences(w + Interleave(xs, gaps) + w') == xs
    decreases |gaps|
  {
    if gaps == [] {
      PaddedSentence(w, xs[0], w');
    } else {
      var x, xs', gaps' := xs[0], xs[1..], gaps[1..];
      SpacedTail(xs, gaps);
      var inner := Interleave(xs', gaps');
      InterleaveHead(xs', gaps');
      var rest := inner + w';
      SpacedFront(w, xs, gaps, w');
      SpacedStep(w, x, gaps[0], rest);
      SplitSpacedRoundTrip([], xs', gaps', w');
      ConsAppend(xs, []);
      assert [] + inner == inner;
    }
  }

  /** The sentences after the first, with the runs after the first, keep the premises of the round trip. */
  lemma SpacedTail(xs: seq<string>, gaps: seq<string>)
    requires |xs| == |gaps| + 1 >= 2 && Rejoinable(xs) && AreGaps(gaps)
    ensures Rejoinable(xs[1..]) && AreGaps(gaps[1..])
    ensures IsSentence(xs[0]) && IsTerminator(xs[0][|xs[0]| - 1]) && gaps[0] != [] && IsBlank(gaps[0])
  {
    var gaps' := gaps[1..];
    RejoinableTail(xs);
    forall k | 0 <= k < |gaps'| ensures gaps'[k] != [] && IsBlank(gaps'[k]) { assert gaps'[k] == gaps[k + 1]; }
  }

  /** The padded text regrouped around its first sentence and first run. */
  lemma SpacedFront(w: string, xs: seq<string>, gaps: seq<string>, w': string)
    requires |xs| == |gaps| + 1 >= 2
    ensures w + Interleave(xs, gaps) + w' == (w + xs[0]) + gaps[0] + (Interleave(xs[1..], gaps[1..]) + w')
  {
  }

  /** A padded first sentence and the whitespace run after it are cut off the text. */
  lemma SpacedStep(w: string, x: string, g: string, rest: string)
    requires IsBlank(w) && IsSentence(x) && IsTerminator(x[|x| - 1])
    requires g != [] && IsBlank(g)
    requires rest != [] && !IsSpace(rest[0])
    ensures SplitIntoSentences((w + x) + g + rest) == [x] + SplitIntoSentences(rest)
  {
    NoBoundaryPad(w, x, []);
    assert w + x + [] == w + x;
    assert (w + x)[|w + x| - 1] == x[|x| - 1];
    RawSplitAtGap(w + x, g, rest);
    StripPadded(w, x, []);
    var pieces := [w + x] + RawSplit(rest);
    assert pieces[1..] == RawSplit(rest);
  }
}
