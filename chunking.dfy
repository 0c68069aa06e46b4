/**
 * The semantic chunker: sentences are walked in order and kept in one open chunk
 * while each is similar to the one before it and the open chunk stays within the
 * size budget; otherwise the open chunk is emitted and a new one starts.
 *
 * The embedding model and the cosine-similarity test are abstracted into one
 * oracle `similar(a, b)`, standing for "the similarity of the embeddings of the
 * sentences a and b is NOT below the threshold 0.5".
 */
module Chunking {
  import opened Wrappers
  import opened Text
  import opened Sentences

  /** `settings.chunk_size` and `settings.chunk_overlap`. */
  const DEFAULT_CHUNK_SIZE: int := 512
  const DEFAULT_CHUNK_OVERLAP: int := 50

  /** What one emitted chunk records. */
  datatype ChunkInfo = ChunkInfo(
    content: string,
    chunkIndex: nat,
    startPos: nat,
    endPos: nat,
    sentenceCount: nat)

  /** The two `ValueError`s of `chunk_text`. */
  datatype ChunkError = EmptyText | NoSentences

  /** Python's `x or default` for an optional integer: `None` and `0` are falsy. */
  function OrDefault(x: Option<int>, default: int): (r: int)
    ensures r == default || (x.Some? && r == x.value)
    ensures r == default <==> x.None? || x.value == 0 || x.value == default
  {
    if x.None? || x.value == 0 then default else x.value
  }

  /** All the sentences of a sequence of groups, in order. */
  function Flatten(gs: seq<seq<string>>): seq<string> {
    if gs == [] then [] else Flatten(gs[..|gs| - 1]) + gs[|gs| - 1]
  }

  /** A slice of one element. */
  lemma SliceOne<T>(xs: seq<T>, i: nat)
    requires i < |xs|
    ensures xs[i..i + 1] == [xs[i]]
  {
  }

  /** A non-empty sequence is its front and its last element. */
  lemma SnocLast<T>(xs: seq<T>)
    requires xs != []
    ensures xs == xs[..|xs| - 1] + [xs[|xs| - 1]]
  {
  }

  /** A prefix one longer is the shorter prefix and the next element. */
  lemma PrefixSnoc<T>(xs: seq<T>, n: nat)
    requires 1 <= n <= |xs|
    ensures xs[..n] == xs[..n - 1] + [xs[n - 1]]
  {
  }

  /** The sentence `s` that follows `prev` would not fit an open chunk `cur`, or is not similar to it. */
  predicate OpensChunk(prev: string, s: string, cur: seq<string>, chunkSize: int, similar: (string, string) -> bool) {
    !similar(prev, s) || |JoinSpace(cur)| + |s| > chunkSize
  }

  /**
   * The grouping of the first `n` sentences that the loop of `chunk_text` has built
   * when it reaches sentence `n`: the last group is the open chunk.
   */
  function Groups(sents: seq<string>, n: nat, chunkSize: int, similar: (string, string) -> bool): (gs: seq<seq<string>>)
    requires 1 <= n <= |sents|
    ensures |gs| >= 1
    ensures forall k :: 0 <= k < |gs| ==> gs[k] != []
  {
    if n == 1 then
      [[sents[0]]]
    else
      var gs := Groups(sents, n - 1, chunkSize, similar);
      var m := |gs| - 1;
      var cur := gs[m];
      if OpensChunk(sents[n - 2], sents[n - 1], cur, chunkSize, similar) then
        gs + [[sents[n - 1]]]
      else
        gs[..m] + [cur + [sents[n - 1]]]
  }

  /** The chunks of the first `n` sentences hold exactly those sentences, in order. */
  lemma {:induction false} GroupsCover(sents: seq<string>, n: nat, chunkSize: int, similar: (string, string) -> bool)
    requires 1 <= n <= |sents|
    ensures Flatten(Groups(sents, n, chunkSize, similar)) == sents[..n]
  {
    if n == 1 {
      FlattenSnoc([], [sents[0]]);
      assert [] + [[sents[0]]] == [[sents[0]]];
      PrefixSnoc(sents, 1);
      assert sents[..0] == [];
    } else {
      GroupsCover(sents, n - 1, chunkSize, similar);
      var gs := Groups(sents, n - 1, chunkSize, similar);
      if OpensChunk(sents[n - 2], sents[n - 1], gs[|gs| - 1], chunkSize, similar) {
        CoverOpen(sents, n, chunkSize, similar);
      } else {
        CoverJoin(sents, n, chunkSize, similar);
      }
    }
  }

  lemma CoverOpen(sents: seq<string>, n: nat, chunkSize: int, similar: (string, string) -> bool)
    requires 2 <= n <= |sents|
    requires var gs := Groups(sents, n - 1, chunkSize, similar);
      Flatten(gs) == sents[..n - 1] && OpensChunk(sents[n - 2], sents[n - 1], gs[|gs| - 1], chunkSize, similar)
    ensures Flatten(Groups(sents, n, chunkSize, similar)) == sents[..n]
  {
    var gs := Groups(sents, n - 1, chunkSize, similar);
    PrefixSnoc(sents, n);
    GroupsOpen(sents, n - 1, chunkSize, similar);
    FlattenSnoc(gs, [sents[n - 1]]);
  }

  lemma CoverJoin(sents: seq<string>, n: nat, chunkSize: int, similar: (string, string) -> bool)
    requires 2 <= n <= |sents|
    requires var gs := Groups(sents, n - 1, chunkSize, similar);
      Flatten(gs) == sents[..n - 1] && !OpensChunk(sents[n - 2], sents[n - 1], gs[|gs| - 1], chunkSize, similar)
    ensures Flatten(Groups(sents, n, chunkSize, similar)) == sents[..n]
  {
    var gs := Groups(sents, n - 1, chunkSize, similar);
    PrefixSnoc(sents, n);
    GroupsJoin(sents, n - 1, chunkSize, similar);
    FlattenJoin(gs, sents[n - 1]);
  }

  /** Flattening a grouping with one more group appends that group. */
  lemma FlattenSnoc(gs: seq<seq<string>>, g: seq<string>)
    ensures Flatten(gs + [g]) == Flatten(gs) + g
  {
    assert (gs + [g])[..|gs|] == gs;
  }

  /** Flattening a grouping whose last group has one more sentence appends that sentence. */
  lemma FlattenJoin(gs: seq<seq<string>>, s: string)
    requires gs != []
    ensures var m := |gs| - 1; Flatten(gs[..m] + [gs[m] + [s]]) == Flatten(gs) + [s]
  {
    var m := |gs| - 1;
    var init, last := gs[..m], gs[m];
    FlattenSnoc(init, last + [s]);
    FlattenSnoc(init, last);
    assert init + [last] == gs;
    var f := Flatten(init);
    AppendAssoc(f, last, [s]);
  }

  lemma AppendAssoc<T>(a: seq<T>, b: seq<T>, c: seq<T>)
    ensures a + (b + c) == (a + b) + c
  {
  }

  /** The last sentence of a grouping is the last sentence of its last group. */
  lemma FlattenLast(gs: seq<seq<string>>)
    requires gs != [] && gs[|gs| - 1] != []
    ensures Flatten(gs) != [] && Flatten(gs)[|Flatten(gs)| - 1] == gs[|gs| - 1][|gs[|gs| - 1]| - 1]
  {
  }

  /** Sentence `j` of group `g` was added to the open chunk: it is similar to the one before and fitted. */
  predicate JoinedAt(g: seq<string>, j: nat, chunkSize: int, similar: (string, string) -> bool)
    requires 1 <= j < |g|
  {
    !OpensChunk(g[j - 1], g[j], g[..j], chunkSize, similar)
  }

  /** Group `k` was opened because its first sentence failed a test against group `k - 1`. */
  predicate OpenedAt(gs: seq<seq<string>>, k: nat, chunkSize: int, similar: (string, string) -> bool)
    requires 1 <= k < |gs|
  {
    gs[k - 1] != [] && gs[k] != [] &&
    OpensChunk(gs[k - 1][|gs[k - 1]| - 1], gs[k][0], gs[k - 1], chunkSize, similar)
  }

  /**
   * An independent description of the chunks `chunk_text` builds: the groups cover
   * the sentences in order; inside a group every sentence is similar to the one
   * before it and passed the size test against the part of the group before it;
   * and the first sentence of every group after the first failed one of the two
   * tests against the group before it.
   */
  ghost predicate IsGreedyGrouping(sents: seq<string>, gs: seq<seq<string>>, chunkSize: int, similar: (string, string) -> bool) {
    && Flatten(gs) == sents
    && (forall k :: 0 <= k < |gs| ==> gs[k] != [])
    && (forall k, j :: 0 <= k < |gs| && 1 <= j < |gs[k]| ==> JoinedAt(gs[k], j, chunkSize, similar))
    && (forall k :: 1 <= k < |gs| ==> OpenedAt(gs, k, chunkSize, similar))
  }

  /** A step of the loop that opens a new chunk, as the definition of Groups takes it. */
  lemma GroupsOpen(sents: seq<string>, n: nat, chunkSize: int, similar: (string, string) -> bool)
    requires 1 <= n < |sents|
    requires var gs := Groups(sents, n, chunkSize, similar);
      OpensChunk(sents[n - 1], sents[n], gs[|gs| - 1], chunkSize, similar)
    ensures Groups(sents, n + 1, chunkSize, similar) == Groups(sents, n, chunkSize, similar) + [[sents[n]]]
  {
  }

  /** A step of the loop that adds to the open chunk, as the definition of Groups takes it. */
  lemma GroupsJoin(sents: seq<string>, n: nat, chunkSize: int, similar: (string, string) -> bool)
    requires 1 <= n < |sents|
    requires var gs := Groups(sents, n, chunkSize, similar);
      !OpensChunk(sents[n - 1], sents[n], gs[|gs| - 1], chunkSize, similar)
    ensures var gs := Groups(sents, n, chunkSize, similar);
      Groups(sents, n + 1, chunkSize, similar) == gs[..|gs| - 1] + [gs[|gs| - 1] + [sents[n]]]
  {
  }

  /** Opening a new chunk with `s` keeps a grouping greedy. */
  lemma GreedyAfterOpen(sents: seq<string>, gs: seq<seq<string>>, s: string, sents': seq<string>, gs': seq<seq<string>>,
                        chunkSize: int, similar: (string, string) -> bool)
    requires IsGreedyGrouping(sents, gs, chunkSize, similar) && gs != []
    requires var cur := gs[|gs| - 1]; OpensChunk(cur[|cur| - 1], s, cur, chunkSize, similar)
    requires sents' == sents + [s] && gs' == gs + [[s]]
    ensures IsGreedyGrouping(sents', gs', chunkSize, similar)
  {
    assert gs'[..|gs|] == gs;
    assert OpenedAt(gs', |gs|, chunkSize, similar);
    forall k | 1 <= k < |gs'| ensures OpenedAt(gs', k, chunkSize, similar) {
      if k < |gs| { assert OpenedAt(gs, k, chunkSize, similar); }
    }
    forall k, j | 0 <= k < |gs'| && 1 <= j < |gs'[k]| ensures JoinedAt(gs'[k], j, chunkSize, similar) {
      assert k < |gs| && JoinedAt(gs[k], j, chunkSize, similar);
    }
  }

  /** Adding `s` to the open chunk keeps a grouping greedy. */
  lemma GreedyAfterJoin(sents: seq<string>, gs: seq<seq<string>>, s: string, sents': seq<string>, gs': seq<seq<string>>,
                        chunkSize: int, similar: (string, string) -> bool)
    requires IsGreedyGrouping(sents, gs, chunkSize, similar) && gs != []
    requires var cur := gs[|gs| - 1]; !OpensChunk(cur[|cur| - 1], s, cur, chunkSize, similar)
    requires sents' == sents + [s] && gs' == gs[..|gs| - 1] + [gs[|gs| - 1] + [s]]
    ensures IsGreedyGrouping(sents', gs', chunkSize, similar)
  {
    var m := |gs| - 1;
    var cur := gs[m];
    assert gs'[..m] == gs[..m];
    assert Flatten(gs) == Flatten(gs[..m]) + cur;
    forall k | 1 <= k < |gs'| ensures OpenedAt(gs', k, chunkSize, similar) {
      assert OpenedAt(gs, k, chunkSize, similar);
    }
    forall k, j | 0 <= k < |gs'| && 1 <= j < |gs'[k]| ensures JoinedAt(gs'[k], j, chunkSize, similar) {
      if k < m {
        assert JoinedAt(gs[k], j, chunkSize, similar);
      } else if j < |cur| {
        assert gs'[k][..j] == cur[..j];
        assert JoinedAt(gs[k], j, chunkSize, similar);
      } else {
        assert gs'[k][..j] == cur;
      }
    }
  }

  /** The loop's grouping is greedy in the sense of IsGreedyGrouping. */
  lemma {:induction false} GroupsAreGreedy(sents: seq<string>, n: nat, chunkSize: int, similar: (string, string) -> bool)
    requires 1 <= n <= |sents|
    ensures IsGreedyGrouping(sents[..n], Groups(sents, n, chunkSize, similar), chunkSize, similar)
  {
    if n == 1 {
      assert Flatten([[sents[0]]]) == Flatten([]) + [sents[0]];
    } else {
      GroupsAreGreedy(sents, n - 1, chunkSize, similar);
      var prev := Groups(sents, n - 1, chunkSize, similar);
      if OpensChunk(sents[n - 2], sents[n - 1], prev[|prev| - 1], chunkSize, similar) {
        GreedyStepOpen(sents, n, chunkSize, similar);
      } else {
        GreedyStepJoin(sents, n, chunkSize, similar);
      }
    }
  }

  /** Sentence n - 1 opens a chunk: the grouping stays greedy. */
  lemma GreedyStepOpen(sents: seq<string>, n: nat, chunkSize: int, similar: (string, string) -> bool)
    requires 2 <= n <= |sents|
    requires IsGreedyGrouping(sents[..n - 1], Groups(sents, n - 1, chunkSize, similar), chunkSize, similar)
    requires var prev := Groups(sents, n - 1, chunkSize, similar);
      OpensChunk(sents[n - 2], sents[n - 1], prev[|prev| - 1], chunkSize, similar)
    ensures IsGreedyGrouping(sents[..n], Groups(sents, n, chunkSize, similar), chunkSize, similar)
  {
    var prev := Groups(sents, n - 1, chunkSize, similar);
    var s := sents[n - 1];
    GroupsOpen(sents, n - 1, chunkSize, similar);
    LastSentence(sents, n - 1, prev);
    PrefixSnoc(sents, n);
    GreedyAfterOpen(sents[..n - 1], prev, s, sents[..n], Groups(sents, n, chunkSize, similar), chunkSize, similar);
  }

  /** Sentence n - 1 joins the open chunk: the grouping stays greedy. */
  lemma GreedyStepJoin(sents: seq<string>, n: nat, chunkSize: int, similar: (string, string) -> bool)
    requires 2 <= n <= |sents|
    requires IsGreedyGrouping(sents[..n - 1], Groups(sents, n - 1, chunkSize, similar), chunkSize, similar)
    requires var prev := Groups(sents, n - 1, chunkSize, similar);
      !OpensChunk(sents[n - 2], sents[n - 1], prev[|prev| - 1], chunkSize, similar)
    ensures IsGreedyGrouping(sents[..n], Groups(sents, n, chunkSize, similar), chunkSize, similar)
  {
    var prev := Groups(sents, n - 1, chunkSize, similar);
    var s := sents[n - 1];
    GroupsJoin(sents, n - 1, chunkSize, similar);
    LastSentence(sents, n - 1, prev);
    PrefixSnoc(sents, n);
    GreedyAfterJoin(sents[..n - 1], prev, s, sents[..n], Groups(sents, n, chunkSize, similar), chunkSize, similar);
  }

  /**
   * The size test counts the sentences but not the space that joins a new sentence
   * to the open chunk, so a chunk of two or more sentences can be one character
   * longer than `chunkSize`, never more; and each of its sentences is within
   * `chunkSize`. Hence a sentence longer than `chunkSize` is a chunk on its own.
   */
  lemma SizeBound(sents: seq<string>, gs: seq<seq<string>>, chunkSize: int, similar: (string, string) -> bool)
    requires IsGreedyGrouping(sents, gs, chunkSize, similar)
    ensures forall k :: 0 <= k < |gs| && |gs[k]| >= 2 ==>
      && |JoinSpace(gs[k])| <= chunkSize + 1
      && (forall j :: 0 <= j < |gs[k]| ==> |gs[k][j]| <= chunkSize)
    ensures forall k, j :: 0 <= k < |gs| && 0 <= j < |gs[k]| && |gs[k][j]| > chunkSize ==> gs[k] == [gs[k][j]]
  {
    forall k | 0 <= k < |gs| && |gs[k]| >= 2
      ensures |JoinSpace(gs[k])| <= chunkSize + 1
      ensures forall j :: 0 <= j < |gs[k]| ==> |gs[k][j]| <= chunkSize
    {
      var g := gs[k];
      var n := |g|;
      assert JoinedAt(g, n - 1, chunkSize, similar);
      assert g == g[..n - 1] + [g[n - 1]];
      JoinSpaceSnoc(g[..n - 1], g[n - 1]);
      assert JoinedAt(g, 1, chunkSize, similar);
      assert g[..1] == [g[0]];
      forall j | 1 <= j < n ensures |g[j]| <= chunkSize {
        assert JoinedAt(g, j, chunkSize, similar);
      }
    }
  }

  /** A grouping without its last sentence (and without its last group if that held only it). */
  function DropLast(gs: seq<seq<string>>): seq<seq<string>>
    requires gs != []
  {
    var m := |gs| - 1;
    var last := gs[m];
    if |last| <= 1 then gs[..m] else gs[..m] + [last[..|last| - 1]]
  }

  /** Dropping the last sentence of a greedy grouping leaves a greedy grouping of the shorter run. */
  lemma GreedyDropLast(sents: seq<string>, n: nat, gs: seq<seq<string>>, chunkSize: int, similar: (string, string) -> bool)
    requires 2 <= n <= |sents|
    requires IsGreedyGrouping(sents[..n], gs, chunkSize, similar)
    ensures gs != [] && DropLast(gs) != []
    ensures IsGreedyGrouping(sents[..n - 1], DropLast(gs), chunkSize, similar)
  {
    assert Flatten(gs) != [];
    var m := |gs| - 1;
    var last := gs[m];
    assert gs == gs[..m] + [last];
    assert Flatten(gs) == Flatten(gs[..m]) + last;
    PrefixSnoc(sents, n);
    if |last| == 1 {
      var gs' := gs[..m];
      forall k | 1 <= k < |gs'| ensures OpenedAt(gs', k, chunkSize, similar) {
        assert OpenedAt(gs, k, chunkSize, similar);
      }
      forall k, j | 0 <= k < |gs'| && 1 <= j < |gs'[k]| ensures JoinedAt(gs'[k], j, chunkSize, similar) {
        assert JoinedAt(gs[k], j, chunkSize, similar);
      }
    } else {
      var short := last[..|last| - 1];
      var gs' := gs[..m] + [short];
      assert last == short + [last[|last| - 1]];
      assert gs'[..m] == gs[..m];
      forall k | 1 <= k < |gs'| ensures OpenedAt(gs', k, chunkSize, similar) {
        assert OpenedAt(gs, k, chunkSize, similar);
      }
      forall k, j | 0 <= k < |gs'| && 1 <= j < |gs'[k]| ensures JoinedAt(gs'[k], j, chunkSize, similar) {
        assert JoinedAt(gs[k], j, chunkSize, similar);
        if k == m {
          assert gs'[k][..j] == gs[k][..j];
        }
      }
    }
  }

  /** If a greedy grouping without its last sentence is the loop's, so is the whole grouping. */
  lemma GreedyUniqueStep(sents: seq<string>, n: nat, gs: seq<seq<string>>, chunkSize: int, similar: (string, string) -> bool)
    requires 2 <= n <= |sents|
    requires IsGreedyGrouping(sents[..n], gs, chunkSize, similar)
    requires gs != [] && DropLast(gs) == Groups(sents, n - 1, chunkSize, similar)
    ensures gs == Groups(sents, n, chunkSize, similar)
  {
    var m := |gs| - 1;
    var last := gs[m];
    GreedyLast(sents[..n], gs, chunkSize, similar);
    SplitLast(sents, n, gs);
    if |last| == 1 {
      SliceOne(sents, n - 1);
      UniqueOpenStep(sents, n, gs, chunkSize, similar);
    } else {
      UniqueJoinStep(sents, n, gs, chunkSize, similar);
    }
  }

  /** The last group of a greedy grouping is not empty, and its last sentence opened it or joined it. */
  lemma GreedyLast(sents: seq<string>, gs: seq<seq<string>>, chunkSize: int, similar: (string, string) -> bool)
    requires IsGreedyGrouping(sents, gs, chunkSize, similar) && gs != []
    ensures var last := gs[|gs| - 1];
      && last != [] && Flatten(gs) == sents
      && (|last| == 1 && |gs| >= 2 ==> OpenedAt(gs, |gs| - 1, chunkSize, similar))
      && (|last| >= 2 ==> JoinedAt(last, |last| - 1, chunkSize, similar))
  {
  }

  lemma UniqueOpenStep(sents: seq<string>, n: nat, gs: seq<seq<string>>, chunkSize: int, similar: (string, string) -> bool)
    requires 2 <= n <= |sents| && 2 <= |gs|
    requires gs[|gs| - 1] == [sents[n - 1]]
    requires DropLast(gs) == Groups(sents, n - 1, chunkSize, similar)
    requires OpenedAt(gs, |gs| - 1, chunkSize, similar)
    ensures gs == Groups(sents, n, chunkSize, similar)
  {
    var m := |gs| - 1;
    var prev := gs[..m];
    assert DropLast(gs) == prev;
    GroupsCover(sents, n - 1, chunkSize, similar);
    LastSentence(sents, n - 1, prev);
    assert prev[m - 1] == gs[m - 1];
    GroupsOpen(sents, n - 1, chunkSize, similar);
    SnocLast(gs);
  }

  lemma UniqueJoinStep(sents: seq<string>, n: nat, gs: seq<seq<string>>, chunkSize: int, similar: (string, string) -> bool)
    requires 2 <= n <= |sents| && 1 <= |gs|
    requires var last := gs[|gs| - 1]; |last| >= 2 && last[|last| - 1] == sents[n - 1] && JoinedAt(last, |last| - 1, chunkSize, similar)
    requires DropLast(gs) == Groups(sents, n - 1, chunkSize, similar)
    ensures gs == Groups(sents, n, chunkSize, similar)
  {
    var m := |gs| - 1;
    var last := gs[m];
    var short := last[..|last| - 1];
    JoinedLast(last, chunkSize, similar);
    var prev := gs[..m] + [short];
    assert DropLast(gs) == prev;
    OpenChunkEnds(sents, n, prev, short, chunkSize, similar);
    assert short[|short| - 1] == last[|last| - 2];
    JoinStepGroups(sents, n, prev, short, chunkSize, similar);
    assert prev[..m] == gs[..m];
    assert short + [sents[n - 1]] == last;
    SnocLast(gs);
  }

  /** The open chunk of the first `n - 1` sentences ends with sentence `n - 2`. */
  lemma OpenChunkEnds(sents: seq<string>, n: nat, prev: seq<seq<string>>, short: seq<string>,
                      chunkSize: int, similar: (string, string) -> bool)
    requires 2 <= n <= |sents| && prev == Groups(sents, n - 1, chunkSize, similar)
    requires prev != [] && prev[|prev| - 1] == short
    ensures short != [] && short[|short| - 1] == sents[n - 2]
  {
    GroupsCover(sents, n - 1, chunkSize, similar);
    LastSentence(sents, n - 1, prev);
  }

  /** The last sentence of a group joined its predecessors' open chunk. */
  lemma JoinedLast(last: seq<string>, chunkSize: int, similar: (string, string) -> bool)
    requires |last| >= 2 && JoinedAt(last, |last| - 1, chunkSize, similar)
    ensures !OpensChunk(last[|last| - 2], last[|last| - 1], last[..|last| - 1], chunkSize, similar)
  {
  }

  /** The step of the loop that adds sentence `n - 1` to the open chunk `short`. */
  lemma JoinStepGroups(sents: seq<string>, n: nat, prev: seq<seq<string>>, short: seq<string>, chunkSize: int, similar: (string, string) -> bool)
    requires 2 <= n <= |sents|
    requires prev == Groups(sents, n - 1, chunkSize, similar) && prev[|prev| - 1] == short
    requires !OpensChunk(sents[n - 2], sents[n - 1], short, chunkSize, similar)
    ensures Groups(sents, n, chunkSize, similar) == prev[..|prev| - 1] + [short + [sents[n - 1]]]
  {
    GroupsJoin(sents, n - 1, chunkSize, similar);
  }

  /** The last sentence of the last group of a grouping of `sents[..n]` is sentence `n - 1`. */
  lemma LastSentence(sents: seq<string>, n: nat, gs: seq<seq<string>>)
    requires 1 <= n <= |sents| && Flatten(gs) == sents[..n]
    requires gs != [] && gs[|gs| - 1] != []
    ensures gs[|gs| - 1][|gs[|gs| - 1]| - 1] == sents[n - 1]
  {
    FlattenLast(gs);
  }

  /** The last group of a grouping of `sents[..n]` is a suffix of it, the other groups cover the rest. */
  lemma SplitLast(sents: seq<string>, n: nat, gs: seq<seq<string>>)
    requires n <= |sents| && Flatten(gs) == sents[..n] && gs != []
    ensures var last := gs[|gs| - 1];
      |last| <= n && last == sents[n - |last|..n] && Flatten(gs[..|gs| - 1]) == sents[..n - |last|]
  {
    var m := |gs| - 1;
    var f, last := Flatten(gs[..m]), gs[m];
    assert Flatten(gs) == f + last;
    var k := |f|;
    assert last == (f + last)[k..] && f == (f + last)[..k];
    assert sents[..n][k..] == sents[k..n] && sents[..n][..k] == sents[..k];
  }

  /** A greedy grouping of one sentence is that sentence alone. */
  lemma GreedyUniqueBase(sents: seq<string>, gs: seq<seq<string>>)
    requires 1 <= |sents|
    requires Flatten(gs) == sents[..1] && gs != [] && forall k :: 0 <= k < |gs| ==> gs[k] != []
    ensures gs == [[sents[0]]]
  {
    var m := |gs| - 1;
    var last := gs[m];
    SplitLast(sents, 1, gs);
    assert |last| == 1;
    assert last == [sents[0]];
    assert m == 0;
    assert gs == [last];
  }

  /**
   * The greedy description determines the grouping: the loop's grouping is the only
   * one in which sentence i starts a new chunk exactly when it is not similar to
   * sentence i - 1 or does not fit the open chunk.
   */
  lemma {:induction false} GreedyGroupingUnique(sents: seq<string>, n: nat, gs: seq<seq<string>>, chunkSize: int, similar: (string, string) -> bool)
    requires 1 <= n <= |sents|
    requires IsGreedyGrouping(sents[..n], gs, chunkSize, similar)
    ensures gs == Groups(sents, n, chunkSize, similar)
  {
    assert Flatten(gs) != [];
    if n == 1 {
      GreedyUniqueBase(sents, gs);
    } else {
      GreedyDropLast(sents, n, gs, chunkSize, similar);
      GreedyGroupingUnique(sents, n - 1, DropLast(gs), chunkSize, similar);
      GreedyUniqueStep(sents, n, gs, chunkSize, similar);
    }
  }

  /** Where the next chunk starts: 0 at first, then one past the previous chunk's end. */
  function NextStart(cs: seq<ChunkInfo>): nat {
    if cs == [] then 0 else cs[|cs| - 1].endPos + 1
  }

  /**
   * The chunk records emitted for a sequence of groups: the k-th record has index k,
   * holds the k-th group joined by spaces and counts its sentences, and positions are
   * chained through the space-joined stream of contents.
   */
  function ChunkInfos(gs: seq<seq<string>>): (cs: seq<ChunkInfo>)
    ensures |cs| == |gs|
  {
    if gs == [] then []
    else
      var prev := ChunkInfos(gs[..|gs| - 1]);
      var content := JoinSpace(gs[|gs| - 1]);
      var start := NextStart(prev);
      var cs := prev + [ChunkInfo(content, |prev|, start, start + |content|, |gs[|gs| - 1]|)];
      cs
  }

  /** Emitting one more group appends one record, numbered and placed after the others. */
  lemma ChunkInfosSnoc(gs: seq<seq<string>>, g: seq<string>)
    ensures var cs := ChunkInfos(gs); var content := JoinSpace(g);
      ChunkInfos(gs + [g]) == cs + [ChunkInfo(content, |cs|, NextStart(cs), NextStart(cs) + |content|, |g|)]
  {
    assert (gs + [g])[..|gs|] == gs;
  }

  /** Appending a sentence to a non-empty chunk adds a space and the sentence. */
  lemma JoinSpaceSnoc(cur: seq<string>, s: string)
    requires cur != []
    ensures JoinSpace(cur + [s]) == JoinSpace(cur) + " " + s
  {
    assert (cur + [s])[..|cur|] == cur;
  }

  /**
   * The state of the loop of `chunk_text` when it reaches sentence `i`: the records
   * emitted so far are those of the closed groups `done`, `cur` is the open chunk,
   * `curLen` is the length of its space-joined text and `startPos` is where the next
   * record starts.
   */
  ghost predicate LoopState(sents: seq<string>, i: nat, chunkSize: int, similar: (string, string) -> bool,
                            done: seq<seq<string>>, cur: seq<string>, curLen: int, chunks: seq<ChunkInfo>, startPos: int)
  {
    && 1 <= i <= |sents|
    && done + [cur] == Groups(sents, i, chunkSize, similar)
    && chunks == ChunkInfos(done)
    && curLen == |JoinSpace(cur)|
    && startPos == NextStart(chunks)
  }

  /** The state before the loop: the first sentence is the open chunk and nothing is emitted. */
  lemma LoopStart(sents: seq<string>, chunkSize: int, similar: (string, string) -> bool)
    requires sents != []
    ensures LoopState(sents, 1, chunkSize, similar, [], [sents[0]], |sents[0]|, [], 0)
  {
  }

  /**
   * A turn of the loop in which sentence `i` closes the open chunk: the record `info`
   * emitted for it follows the others, and the sentence opens the next chunk.
   */
  lemma LoopOpen(sents: seq<string>, i: nat, chunkSize: int, similar: (string, string) -> bool,
                 done: seq<seq<string>>, cur: seq<string>, curLen: int, chunks: seq<ChunkInfo>, startPos: int, info: ChunkInfo)
    requires LoopState(sents, i, chunkSize, similar, done, cur, curLen, chunks, startPos) && i < |sents|
    requires (!similar(sents[i - 1], sents[i]) || curLen + |sents[i]| > chunkSize) && cur != []
    requires info == ChunkInfo(JoinSpace(cur), |chunks|, startPos, startPos + |JoinSpace(cur)|, |cur|)
    ensures LoopState(sents, i + 1, chunkSize, similar, done + [cur], [sents[i]], |sents[i]|, chunks + [info], info.endPos + 1)
  {
    var gs := Groups(sents, i, chunkSize, similar);
    assert cur == gs[|gs| - 1];
    GroupsOpen(sents, i, chunkSize, similar);
    ChunkInfosSnoc(done, cur);
  }

  /** A turn of the loop in which sentence `i` joins the open chunk. */
  lemma LoopJoin(sents: seq<string>, i: nat, chunkSize: int, similar: (string, string) -> bool,
                 done: seq<seq<string>>, cur: seq<string>, curLen: int, chunks: seq<ChunkInfo>, startPos: int)
    requires LoopState(sents, i, chunkSize, similar, done, cur, curLen, chunks, startPos) && i < |sents|
    requires !((!similar(sents[i - 1], sents[i]) || curLen + |sents[i]| > chunkSize) && cur != [])
    ensures LoopState(sents, i + 1, chunkSize, similar, done, cur + [sents[i]], curLen + |sents[i]| + 1, chunks, startPos)
  {
    var gs := Groups(sents, i, chunkSize, similar);
    assert cur == gs[|gs| - 1];
    assert (done + [cur])[..|done|] == done;
    GroupsJoin(sents, i, chunkSize, similar);
    JoinSpaceSnoc(cur, sents[i]);
  }

  /** After the loop the open chunk is not empty. */
  lemma LoopEnd(sents: seq<string>, chunkSize: int, similar: (string, string) -> bool,
                done: seq<seq<string>>, cur: seq<string>, curLen: int, chunks: seq<ChunkInfo>, startPos: int)
    requires LoopState(sents, |sents|, chunkSize, similar, done, cur, curLen, chunks, startPos)
    ensures cur != []
  {
    assert (done + [cur])[|done|] == cur;
  }

  /** The record of the open chunk, emitted after the loop, completes the records of the whole grouping. */
  lemma LastChunk(sents: seq<string>, chunkSize: int, similar: (string, string) -> bool,
                  done: seq<seq<string>>, cur: seq<string>, curLen: int, chunks: seq<ChunkInfo>, startPos: int, info: ChunkInfo)
    requires LoopState(sents, |sents|, chunkSize, similar, done, cur, curLen, chunks, startPos)
    requires info == ChunkInfo(JoinSpace(cur), |chunks|, startPos, startPos + |JoinSpace(cur)|, |cur|)
    ensures chunks + [info] == ChunkInfos(Groups(sents, |sents|, chunkSize, similar))
  {
    ChunkInfosSnoc(done, cur);
  }

  /** What `chunk_text` returns or raises, as a function of the text, the size budget and the oracle. */
  function ChunkTextSpec(text: string, chunkSize: int, similar: (string, string) -> bool): Result<seq<ChunkInfo>, ChunkError> {
    if IsBlank(text) then Err(EmptyText)
    else
      var sentences := SplitIntoSentences(text);
      if sentences == [] then Err(NoSentences)
      else Ok(ChunkInfos(Groups(sentences, |sentences|, chunkSize, similar)))
  }

  /** The chunk contents, in order. */
  function Contents(cs: seq<ChunkInfo>): (r: seq<string>)
    ensures |r| == |cs|
  {
    if cs == [] then [] else Contents(cs[..|cs| - 1]) + [cs[|cs| - 1].content]
  }

  /** The sum of the sentence counts. */
  function SentenceTotal(cs: seq<ChunkInfo>): nat {
    if cs == [] then 0 else SentenceTotal(cs[..|cs| - 1]) + cs[|cs| - 1].sentenceCount
  }

  /** The per-record facts of `ChunkInfosShape`, for records `cs` of groups `gs`. */
  ghost predicate RecordsShaped(gs: seq<seq<string>>, cs: seq<ChunkInfo>)
    requires |cs| == |gs|
  {
    && (forall k :: 0 <= k < |cs| ==>
          && cs[k].chunkIndex == k
          && cs[k].content == JoinSpace(gs[k])
          && cs[k].sentenceCount == |gs[k]|
          && cs[k].endPos == cs[k].startPos + |cs[k].content|)
    && (|cs| > 0 ==> cs[0].startPos == 0)
    && (forall k :: 0 <= k < |cs| - 1 ==> cs[k + 1].startPos == cs[k].endPos + 1)
  }

  /**
   * The k-th record has index k, holds the k-th group joined by spaces and counts
   * its sentences; the first starts at 0, each ends its content's length after its
   * start, and each next one starts one past the previous end.
   */
  lemma {:induction false} ChunkInfosShape(gs: seq<seq<string>>)
    ensures var cs := ChunkInfos(gs);
      && (forall k :: 0 <= k < |cs| ==>
            && cs[k].chunkIndex == k
            && cs[k].content == JoinSpace(gs[k])
            && cs[k].sentenceCount == |gs[k]|
            && cs[k].endPos == cs[k].startPos + |cs[k].content|)
      && (|cs| > 0 ==> cs[0].startPos == 0)
      && (forall k :: 0 <= k < |cs| - 1 ==> cs[k + 1].startPos == cs[k].endPos + 1)
  {
    ShapedByInduction(gs);
  }

  lemma {:induction false} ShapedByInduction(gs: seq<seq<string>>)
    ensures RecordsShaped(gs, ChunkInfos(gs))
  {
    if gs != [] {
      var prev := gs[..|gs| - 1];
      var g := gs[|gs| - 1];
      ShapedByInduction(prev);
      ChunkInfosSnoc(prev, g);
      assert gs == prev + [g];
      var pcs := ChunkInfos(prev);
      var content := JoinSpace(g);
      ShapedSnoc(prev, pcs, g, ChunkInfo(content, |pcs|, NextStart(pcs), NextStart(pcs) + |content|, |g|));
    }
  }

  /** One more group with its record keeps the records shaped. */
  lemma ShapedSnoc(gs: seq<seq<string>>, cs: seq<ChunkInfo>, g: seq<string>, c: ChunkInfo)
    requires |cs| == |gs| && RecordsShaped(gs, cs)
    requires c == ChunkInfo(JoinSpace(g), |cs|, NextStart(cs), NextStart(cs) + |JoinSpace(g)|, |g|)
    ensures RecordsShaped(gs + [g], cs + [c])
  {
    var gs', cs' := gs + [g], cs + [c];
    forall k | 0 <= k < |cs'|
      ensures cs'[k].chunkIndex == k && cs'[k].content == JoinSpace(gs'[k])
      ensures cs'[k].sentenceCount == |gs'[k]| && cs'[k].endPos == cs'[k].startPos + |cs'[k].content|
    {
      if k < |cs| {
        assert cs'[k] == cs[k] && gs'[k] == gs[k];
      }
    }
    forall k | 0 <= k < |cs'| - 1 ensures cs'[k + 1].startPos == cs'[k].endPos + 1 {
      if k + 1 < |cs| {
        assert cs'[k] == cs[k] && cs'[k + 1] == cs[k + 1];
      }
    }
  }

  /** Every record's content sits in `stream` between its start and end positions. */
  ghost predicate Placed(cs: seq<ChunkInfo>, stream: string) {
    forall k :: 0 <= k < |cs| ==>
      cs[k].startPos <= cs[k].endPos <= |stream| && stream[cs[k].startPos..cs[k].endPos] == cs[k].content
  }

  /**
   * The positions are offsets in the contents joined by single spaces: each chunk's
   * content is the slice of that stream between its start and end, and the last
   * chunk ends where the stream ends.
   */
  lemma {:induction false} PositionsInStream(gs: seq<seq<string>>)
    ensures var cs := ChunkInfos(gs); var stream := JoinSpace(Contents(cs));
      && (|cs| > 0 ==> cs[|cs| - 1].endPos == |stream|)
      && (forall k :: 0 <= k < |cs| ==>
            cs[k].startPos <= cs[k].endPos <= |stream| && stream[cs[k].startPos..cs[k].endPos] == cs[k].content)
  {
    PlacedByInduction(gs);
  }

  lemma {:induction false} PlacedByInduction(gs: seq<seq<string>>)
    ensures var cs := ChunkInfos(gs); var stream := JoinSpace(Contents(cs));
      (|cs| > 0 ==> cs[|cs| - 1].endPos == |stream|) && Placed(cs, stream)
  {
    if gs != [] {
      var prev := gs[..|gs| - 1];
      var g := gs[|gs| - 1];
      assert gs == prev + [g];
      PlacedByInduction(prev);
      ChunkInfosSnoc(prev, g);
      var pcs := ChunkInfos(prev);
      var cs := ChunkInfos(gs);
      var last := cs[|cs| - 1];
      assert cs == pcs + [last];
      assert cs[..|cs| - 1] == pcs;
      var pstream := JoinSpace(Contents(pcs));
      var stream := JoinSpace(Contents(cs));
      assert Contents(cs) == Contents(pcs) + [last.content];
      if pcs == [] {
        assert stream == last.content;
      } else {
        JoinSpaceSnoc(Contents(pcs), last.content);
        PlacedSnoc(pcs, pstream, last, stream);
      }
    }
  }

  /** A record placed one space after the stream keeps the earlier records placed. */
  lemma PlacedSnoc(cs: seq<ChunkInfo>, stream: string, c: ChunkInfo, stream': string)
    requires Placed(cs, stream) && stream' == stream + " " + c.content
    requires c.startPos == |stream| + 1 && c.endPos == c.startPos + |c.content|
    ensures Placed(cs + [c], stream')
  {
    var cs' := cs + [c];
    forall k | 0 <= k < |cs'|
      ensures cs'[k].startPos <= cs'[k].endPos <= |stream'| && stream'[cs'[k].startPos..cs'[k].endPos] == cs'[k].content
    {
      if k < |cs| {
        assert cs'[k] == cs[k];
        assert stream'[..|stream|] == stream;
      } else {
        assert stream'[c.startPos..c.endPos] == c.content;
      }
    }
  }

  /** Joining the chunk contents with spaces gives the grouped sentences joined with spaces. */
  lemma {:induction false} ContentsRejoin(gs: seq<seq<string>>)
    requires forall k :: 0 <= k < |gs| ==> gs[k] != []
    ensures JoinSpace(Contents(ChunkInfos(gs))) == JoinSpace(Flatten(gs))
    ensures SentenceTotal(ChunkInfos(gs)) == |Flatten(gs)|
  {
    if gs != [] {
      var prev := gs[..|gs| - 1];
      var g := gs[|gs| - 1];
      assert gs == prev + [g];
      ContentsRejoin(prev);
      ChunkInfosSnoc(prev, g);
      var cs := ChunkInfos(gs);
      assert cs[..|cs| - 1] == ChunkInfos(prev);
      assert Contents(cs) == Contents(ChunkInfos(prev)) + [JoinSpace(g)];
      if prev == [] {
        assert Flatten(gs) == g;
      } else {
        JoinAppend(" ", Contents(ChunkInfos(prev)), [JoinSpace(g)]);
        JoinAppend(" ", Flatten(prev), g);
      }
    }
  }

  /**
   * `chunk_text` fails exactly on a blank text, and then with the first error: the
   * second ("no sentences") cannot happen, because a text that is not blank always
   * yields at least one sentence.
   */
  lemma ChunkTextFails(text: string, chunkSize: int, similar: (string, string) -> bool)
    ensures ChunkTextSpec(text, chunkSize, similar).Err? <==> IsBlank(text)
    ensures ChunkTextSpec(text, chunkSize, similar) != Err(NoSentences)
  {
    SentencesEmptyIffBlank(text);
  }

  /**
   * On a text that is not blank, the chunks are the records of the one greedy
   * grouping of its sentences.
   */
  lemma ChunkTextIsGreedy(text: string, chunkSize: int, similar: (string, string) -> bool, gs: seq<seq<string>>)
    requires !IsBlank(text)
    requires IsGreedyGrouping(SplitIntoSentences(text), gs, chunkSize, similar)
    ensures ChunkTextSpec(text, chunkSize, similar) == Ok(ChunkInfos(gs))
  {
    var ss := SplitIntoSentences(text);
    SentencesEmptyIffBlank(text);
    assert ss[..|ss|] == ss;
    GreedyGroupingUnique(ss, |ss|, gs, chunkSize, similar);
  }

  /**
   * What the records `chunk_text` returns for the sentences `ss` promise: at least one
   * record; joined with spaces their contents give the sentences joined with spaces;
   * their sentence counts add up to the number of sentences; the k-th has index k and
   * at least one sentence; a record of two or more sentences is at most one character
   * over the size budget; and the positions are chained through the space-joined
   * stream, from 0 to its length.
   */
  ghost predicate RecordsFit(cs: seq<ChunkInfo>, ss: seq<string>, chunkSize: int) {
    && |cs| >= 1
    && JoinSpace(Contents(cs)) == JoinSpace(ss)
    && SentenceTotal(cs) == |ss|
    && (forall k :: 0 <= k < |cs| ==>
          && cs[k].chunkIndex == k
          && cs[k].sentenceCount >= 1
          && (cs[k].sentenceCount >= 2 ==> |cs[k].content| <= chunkSize + 1))
    && cs[0].startPos == 0
    && (forall k :: 0 <= k < |cs| - 1 ==> cs[k + 1].startPos == cs[k].endPos + 1)
    && cs[|cs| - 1].endPos == |JoinSpace(ss)|
  }

  /**
   * What the records returned for a text that is not blank promise: numbered 0, 1, ...
   * in order; every chunk holds at least one sentence and together they hold every
   * sentence once, in order; positions chain through the contents joined by spaces;
   * and a chunk of two or more sentences is at most one character over the budget.
   */
  lemma ChunkTextRecords(text: string, chunkSize: int, similar: (string, string) -> bool)
    requires !IsBlank(text)
    ensures ChunkTextSpec(text, chunkSize, similar).Ok?
    ensures RecordsFit(ChunkTextSpec(text, chunkSize, similar).value, SplitIntoSentences(text), chunkSize)
  {
    var ss := SplitIntoSentences(text);
    SentencesEmptyIffBlank(text);
    var gs := Groups(ss, |ss|, chunkSize, similar);
    assert ChunkTextSpec(text, chunkSize, similar) == Ok(ChunkInfos(gs));
    assert IsGreedyGrouping(ss, gs, chunkSize, similar) by {
      assert ss[..|ss|] == ss;
      GroupsAreGreedy(ss, |ss|, chunkSize, similar);
    }
    GreedyRecords(ss, gs, chunkSize, similar);
  }

  /** The records of any greedy grouping of a non-empty run of sentences. */
  lemma GreedyRecords(ss: seq<string>, gs: seq<seq<string>>, chunkSize: int, similar: (string, string) -> bool)
    requires ss != [] && IsGreedyGrouping(ss, gs, chunkSize, similar)
    ensures RecordsFit(ChunkInfos(gs), ss, chunkSize)
  {
    GroupingRecords(ss, gs);
    GreedyRecordSizes(ss, gs, chunkSize, similar);
  }

  /** The records of a grouping of a non-empty run of sentences into non-empty groups. */
  lemma GroupingRecords(ss: seq<string>, gs: seq<seq<string>>)
    requires ss != [] && Flatten(gs) == ss && forall k :: 0 <= k < |gs| ==> gs[k] != []
    ensures var cs := ChunkInfos(gs);
      && |cs| >= 1
      && JoinSpace(Contents(cs)) == JoinSpace(ss)
      && SentenceTotal(cs) == |ss|
      && (forall k :: 0 <= k < |cs| ==> cs[k].chunkIndex == k && cs[k].sentenceCount >= 1)
      && cs[0].startPos == 0
      && (forall k :: 0 <= k < |cs| - 1 ==> cs[k + 1].startPos == cs[k].endPos + 1)
      && cs[|cs| - 1].endPos == |JoinSpace(ss)|
  {
    assert gs != [];
    ChunkInfosShape(gs);
    PositionsInStream(gs);
    ContentsRejoin(gs);
  }

  /** The size bound, read off the records of a greedy grouping. */
  lemma GreedyRecordSizes(ss: seq<string>, gs: seq<seq<string>>, chunkSize: int, similar: (string, string) -> bool)
    requires IsGreedyGrouping(ss, gs, chunkSize, similar)
    ensures var cs := ChunkInfos(gs);
      forall k :: 0 <= k < |cs| && cs[k].sentenceCount >= 2 ==> |cs[k].content| <= chunkSize + 1
  {
    var cs := ChunkInfos(gs);
    ChunkInfosShape(gs);
    SizeBound(ss, gs, chunkSize, similar);
    forall k | 0 <= k < |cs| && cs[k].sentenceCount >= 2 ensures |cs[k].content| <= chunkSize + 1 {
      assert cs[k].sentenceCount == |gs[k]| && cs[k].content == JoinSpace(gs[k]);
    }
  }

  /**
   * The bound of one character over the budget is reached: two similar sentences
   * whose lengths add up to exactly the budget make one chunk one character longer
   * than the budget.
   */
  lemma SizeBoundReached(a: string, b: string, chunkSize: int, similar: (string, string) -> bool)
    requires similar(a, b) && |a| + |b| == chunkSize
    ensures ChunkInfos(Groups([a, b], 2, chunkSize, similar)) == [ChunkInfo(a + " " + b, 0, 0, chunkSize + 1, 2)]
  {
    var ss := [a, b];
    assert ss[0] == a && ss[1] == b;
    assert Groups(ss, 1, chunkSize, similar) == [[a]];
    assert !OpensChunk(a, b, [a], chunkSize, similar);
    GroupsJoin(ss, 1, chunkSize, similar);
    var g := [a] + [b];
    assert Groups(ss, 2, chunkSize, similar) == [g];
    ChunkInfosSnoc([], g);
    assert [] + [g] == [g];
    JoinSpaceSnoc([a], b);
  }

  /**
   * Four sentences joined by spaces, where only the middle pair is not similar and
   * each similar pair fits the budget, make two chunks of two sentences.
   */
  lemma TwoTopics(ss: seq<string>, chunkSize: int, similar: (string, string) -> bool)
    requires |ss| == 4 && Rejoinable(ss)
    requires similar(ss[0], ss[1]) && !similar(ss[1], ss[2]) && similar(ss[2], ss[3])
    requires |ss[0]| + |ss[1]| <= chunkSize && |ss[2]| + |ss[3]| <= chunkSize
    ensures ChunkTextSpec(JoinSpace(ss), chunkSize, similar) == Ok(ChunkInfos([[ss[0], ss[1]], [ss[2], ss[3]]]))
  {
    ChunkTextOfRejoined(ss, chunkSize, similar);
    TwoTopicsGroups(ss, chunkSize, similar);
  }

  /** The records of two groups of two sentences. */
  lemma TwoChunkInfos(g1: seq<string>, g2: seq<string>, c1: string, c2: string)
    requires |g1| == 2 && |g2| == 2 && JoinSpace(g1) == c1 && JoinSpace(g2) == c2
    ensures ChunkInfos([g1, g2]) == [ChunkInfo(c1, 0, 0, |c1|, 2), ChunkInfo(c2, 1, |c1| + 1, |c1| + 1 + |c2|, 2)]
  {
    ChunkInfosSnoc([], g1);
    assert [g1, g2] == [g1] + [g2];
    ChunkInfosSnoc([g1], g2);
  }

  /** Chunking sentences rejoined with spaces groups exactly those sentences. */
  lemma ChunkTextOfRejoined(ss: seq<string>, chunkSize: int, similar: (string, string) -> bool)
    requires ss != [] && Rejoinable(ss)
    ensures ChunkTextSpec(JoinSpace(ss), chunkSize, similar) == Ok(ChunkInfos(Groups(ss, |ss|, chunkSize, similar)))
  {
    SplitJoinRoundTrip(ss);
    SentencesEmptyIffBlank(JoinSpace(ss));
  }

  lemma JoinFour(s0: string, s1: string, s2: string, s3: string)
    ensures JoinSpace([s0, s1, s2, s3]) == s0 + " " + s1 + " " + s2 + " " + s3
  {
    JoinSpaceSnoc([s0], s1);
    JoinSpaceSnoc([s0, s1], s2);
    JoinSpaceSnoc([s0, s1, s2], s3);
    assert [s0] + [s1] == [s0, s1] && [s0, s1] + [s2] == [s0, s1, s2] && [s0, s1, s2] + [s3] == [s0, s1, s2, s3];
  }

  /** The grouping of four sentences where only the middle pair is not similar. */
  lemma TwoTopicsGroups(ss: seq<string>, chunkSize: int, similar: (string, string) -> bool)
    requires |ss| == 4
    requires similar(ss[0], ss[1]) && !similar(ss[1], ss[2]) && similar(ss[2], ss[3])
    requires |ss[0]| + |ss[1]| <= chunkSize && |ss[2]| + |ss[3]| <= chunkSize
    ensures Groups(ss, 4, chunkSize, similar) == [[ss[0], ss[1]], [ss[2], ss[3]]]
  {
    var g1 := [ss[0], ss[1]];
    FirstPairJoins(ss, chunkSize, similar);
    TopicChangeOpens(ss, g1, chunkSize, similar);
    SecondPairJoins(ss, g1, chunkSize, similar);
  }

  lemma FirstPairJoins(ss: seq<string>, chunkSize: int, similar: (string, string) -> bool)
    requires |ss| >= 2 && similar(ss[0], ss[1]) && |ss[0]| + |ss[1]| <= chunkSize
    ensures Groups(ss, 2, chunkSize, similar) == [[ss[0], ss[1]]]
  {
    assert Groups(ss, 1, chunkSize, similar) == [[ss[0]]];
    assert JoinSpace([ss[0]]) == ss[0];
    assert [ss[0]] + [ss[1]] == [ss[0], ss[1]];
    assert [[ss[0]]][..0] == [];
  }

  lemma TopicChangeOpens(ss: seq<string>, g1: seq<string>, chunkSize: int, similar: (string, string) -> bool)
    requires |ss| >= 3 && Groups(ss, 2, chunkSize, similar) == [g1] && !similar(ss[1], ss[2])
    ensures Groups(ss, 3, chunkSize, similar) == [g1, [ss[2]]]
  {
    assert [g1] + [[ss[2]]] == [g1, [ss[2]]];
  }

  lemma SecondPairJoins(ss: seq<string>, g1: seq<string>, chunkSize: int, similar: (string, string) -> bool)
    requires |ss| >= 4 && Groups(ss, 3, chunkSize, similar) == [g1, [ss[2]]]
    requires similar(ss[2], ss[3]) && |ss[2]| + |ss[3]| <= chunkSize
    ensures Groups(ss, 4, chunkSize, similar) == [g1, [ss[2], ss[3]]]
  {
    assert JoinSpace([ss[2]]) == ss[2];
    assert [ss[2]] + [ss[3]] == [ss[2], ss[3]];
    assert [g1, [ss[2]]][..1] == [g1];
  }

  /** `ChunkingService`: the size budget and the similarity oracle are fixed when it is built. */
  class ChunkingService {
    const chunkSize: int
    const chunkOverlap: int
    const similar: (string, string) -> bool

    /** `__init__`: a missing or zero size or overlap falls back to the settings. */
    constructor (chunkSize: Option<int>, chunkOverlap: Option<int>, similar: (string, string) -> bool)
      ensures this.chunkSize == OrDefault(chunkSize, DEFAULT_CHUNK_SIZE)
      ensures this.chunkOverlap == OrDefault(chunkOverlap, DEFAULT_CHUNK_OVERLAP)
      ensures this.similar == similar
    {
      this.chunkSize := OrDefault(chunkSize, DEFAULT_CHUNK_SIZE);
      this.chunkOverlap := OrDefault(chunkOverlap, DEFAULT_CHUNK_OVERLAP);
      this.similar := similar;
    }

    /** `chunk_text`: the greedy walk over the sentences. */
    method ChunkText(text: string, documentId: string) returns (r: Result<seq<ChunkInfo>, ChunkError>)
      ensures r == ChunkTextSpec(text, chunkSize, similar)
    {
      if IsBlank(text) {
        return Err(EmptyText);
      }
      var sentences := SplitIntoSentences(text);
      if |sentences| == 0 {
        return Err(NoSentences);
      }
      var chunks := ChunkSentences(sentences);
      r := Ok(chunks);
    }

    /** The loop of `chunk_text` over the sentences of a text that has at least one. */
    method ChunkSentences(sentences: seq<string>) returns (chunks: seq<ChunkInfo>)
      requires sentences != []
      ensures chunks == ChunkInfos(Groups(sentences, |sentences|, chunkSize, similar))
    {
      chunks := [];
      var currentChunk := [sentences[0]];
      var currentChunkLength := |sentences[0]|;
      var startPos := 0;
      ghost var done: seq<seq<string>> := [];
      LoopStart(sentences, chunkSize, similar);
      for i := 1 to |sentences|
        invariant LoopState(sentences, i, chunkSize, similar, done, currentChunk, currentChunkLength, chunks, startPos)
      {
        var sentenceLength := |sentences[i]|;
        var shouldCreateNewChunk :=
          !similar(sentences[i - 1], sentences[i]) ||
          currentChunkLength + sentenceLength > chunkSize;
        if shouldCreateNewChunk && currentChunk != [] {
          var chunkContent := JoinSpace(currentChunk);
          var chunkInfo := ChunkInfo(chunkContent, |chunks|, startPos, startPos + |chunkContent|, |currentChunk|);
          LoopOpen(sentences, i, chunkSize, similar, done, currentChunk, currentChunkLength, chunks, startPos, chunkInfo);
          chunks := chunks + [chunkInfo];
          done := done + [currentChunk];
          currentChunk := [sentences[i]];
          currentChunkLength := sentenceLength;
          startPos := chunkInfo.endPos + 1;
        } else {
          LoopJoin(sentences, i, chunkSize, similar, done, currentChunk, currentChunkLength, chunks, startPos);
          currentChunk := currentChunk + [sentences[i]];
          currentChunkLength := currentChunkLength + sentenceLength + 1;
        }
      }
      LoopEnd(sentences, chunkSize, similar, done, currentChunk, currentChunkLength, chunks, startPos);
      if currentChunk != [] {
        var chunkContent := JoinSpace(currentChunk);
        var chunkInfo := ChunkInfo(chunkContent, |chunks|, startPos, startPos + |chunkContent|, |currentChunk|);
        LastChunk(sentences, chunkSize, similar, done, currentChunk, currentChunkLength, chunks, startPos, chunkInfo);
        chunks := chunks + [chunkInfo];
      }
    }
  }
}
