/**
  Overlapping word-window chunking of a cleaned page (chunk_by_words in
  packages/ingest/ingest.py). The page's words are cut into windows of at
  most `maxWords` words whose starts are `overlapWords` words apart less than
  their width; a window with fewer than `minWords` words is dropped.
*/
module Chunking {
  import opened Text

  function Min(a: int, b: int): int { if a <= b then a else b }
  function Max(a: int, b: int): int { if a >= b then a else b }

  /** Ceiling of a / b for b > 0: the least r with r * b >= a. */
  function CeilDiv(a: nat, b: nat): (r: nat)
    requires b > 0
    ensures r * b >= a && (r == 0 || (r - 1) * b < a)
  {
    if a == 0 then 0 else 1 + CeilDiv(Max(0, a - b), b)
  }

  /** `words[i:i + maxWords]`: the window of at most `maxWords` words starting at word `i`. */
  function Window(words: seq<string>, i: nat, maxWords: nat): seq<string> {
    words[Min(i, |words|)..Min(i + maxWords, |words|)]
  }

  /** The window starts the scan visits from position `i` of `n` words: a
      start is visited while it is inside the text, and the scan stops after
      the first window that reaches the end. */
  function Starts(n: nat, maxWords: nat, step: nat, i: nat): seq<nat>
    requires step > 0
    decreases n - i
  {
    if i >= n then []
    else if i + maxWords >= n then [i]
    else [i] + Starts(n, maxWords, step, i + step)
  }

  /** The chunk texts of the windows at `starts`, dropping those below `minWords`. */
  function WindowTexts(words: seq<string>, starts: seq<nat>, maxWords: nat, minWords: int): seq<string> {
    if starts == [] then []
    else
      var w := Window(words, starts[0], maxWords);
      (if |w| >= minWords then [JoinWith(" ", w)] else [])
        + WindowTexts(words, starts[1..], maxWords, minWords)
  }

  /** The starts of the windows that are kept, in order. */
  function KeptStarts(words: seq<string>, starts: seq<nat>, maxWords: nat, minWords: int): seq<nat> {
    if starts == [] then []
    else
      (if |Window(words, starts[0], maxWords)| >= minWords then [starts[0]] else [])
        + KeptStarts(words, starts[1..], maxWords, minWords)
  }

  lemma {:induction false} StartsInRange(n: nat, maxWords: nat, step: nat, i: nat)
    requires step > 0
    ensures forall j :: 0 <= j < |Starts(n, maxWords, step, i)| ==>
      i <= Starts(n, maxWords, step, i)[j] < n
    decreases n - i
  {
    if i < n && i + maxWords < n {
      StartsInRange(n, maxWords, step, i + step);
    }
  }

  /** The scan ends: either the start advances, or the first window already
      reaches the last word (otherwise chunk_by_words never returns). */
  predicate Ends(text: string, maxWords: nat, overlapWords: int) {
    maxWords - overlapWords > 0 || |Words(text)| <= maxWords
  }

  /** The advance of the window start. When it is not positive the scan
      visits only the first window, for which any positive advance gives the
      same starts. */
  function Step(maxWords: nat, overlapWords: int): nat {
    if maxWords - overlapWords > 0 then maxWords - overlapWords else 1
  }

  /** What chunk_by_words returns for a page's text, whenever the scan ends. */
  function Chunks(text: string, maxWords: nat, overlapWords: int, minWords: int): seq<string> {
    var words := Words(text);
    WindowTexts(words, Starts(|words|, maxWords, Step(maxWords, overlapWords), 0), maxWords, minWords)
  }

  /** chunk_by_words: advances the window start by `maxWords - overlapWords`
      words, keeping each window of at least `minWords` words, and stops after
      the window that reaches the last word. */
  method ChunkByWords(text: string, maxWords: nat, overlapWords: int, minWords: int) returns (chunks: seq<string>)
    requires Ends(text, maxWords, overlapWords)
    ensures chunks == Chunks(text, maxWords, overlapWords, minWords)
  {
    var words := Words(text);
    ghost var st := Step(maxWords, overlapWords);
    ghost var all := Chunks(text, maxWords, overlapWords, minWords);
    assert all == Rest(words, maxWords, st, 0, minWords);
    if words == [] {
      return [];
    }
    chunks := [];
    var step: int := maxWords - overlapWords;
    var i: nat := 0;
    while i < |words|
      invariant chunks + Rest(words, maxWords, st, i, minWords) == all
      decreases |words| - i
    {
      var chunkWords := words[i..Min(i + maxWords, |words|)];
      RestUnfold(words, maxWords, st, i, minWords);
      ghost var later := if i + maxWords >= |words| then [] else Rest(words, maxWords, st, i + st, minWords);
      if |chunkWords| >= minWords {
        Associative(chunks, [JoinWith(" ", chunkWords)], later);
        chunks := chunks + [JoinWith(" ", chunkWords)];
      } else {
        assert [] + later == later;
      }
      if i + maxWords >= |words| {
        assert chunks + later == chunks;
        break;
      }
      i := i + step;
    }
  }

  /** The chunk texts of the windows the scan visits from word `i` on. */
  function Rest(words: seq<string>, maxWords: nat, step: nat, i: nat, minWords: int): seq<string>
    requires step > 0
  {
    WindowTexts(words, Starts(|words|, maxWords, step, i), maxWords, minWords)
  }

  lemma Associative(a: seq<string>, b: seq<string>, c: seq<string>)
    ensures (a + b) + c == a + (b + c)
  {
  }

  /** The windows from word `i` on: the one at `i`, then those from `i + step`. */
  lemma RestUnfold(words: seq<string>, maxWords: nat, step: nat, i: nat, minWords: int)
    requires step > 0 && i < |words|
    ensures var w := words[i..Min(i + maxWords, |words|)];
      Rest(words, maxWords, step, i, minWords)
        == (if |w| >= minWords then [JoinWith(" ", w)] else [])
           + (if i + maxWords >= |words| then [] else Rest(words, maxWords, step, i + step, minWords))
  {
    var s := Starts(|words|, maxWords, step, i);
    assert s[0] == i;
    assert s[1..] == if i + maxWords >= |words| then [] else Starts(|words|, maxWords, step, i + step);
    assert Window(words, i, maxWords) == words[i..Min(i + maxWords, |words|)];
    assert WindowTexts(words, s, maxWords, minWords)
      == (if |Window(words, i, maxWords)| >= minWords then [JoinWith(" ", Window(words, i, maxWords))] else [])
         + WindowTexts(words, s[1..], maxWords, minWords);
  }

  // ---------- properties ----------

  /** A page without words gives no chunks. */
  lemma NoWordsNoChunks(text: string, maxWords: nat, overlapWords: int, minWords: int)
    requires Words(text) == []
    ensures Chunks(text, maxWords, overlapWords, minWords) == []
  {
  }

  /** Window `j` starts at `i + j * step`. */
  lemma {:induction false} StartsAreSteps(n: nat, maxWords: nat, step: nat, i: nat)
    requires step > 0
    ensures forall j :: 0 <= j < |Starts(n, maxWords, step, i)| ==>
      Starts(n, maxWords, step, i)[j] == i + j * step
    decreases n - i
  {
    if i < n && i + maxWords < n {
      StartsAreSteps(n, maxWords, step, i + step);
      var s := Starts(n, maxWords, step, i);
      forall j | 0 < j < |s|
        ensures s[j] == i + j * step
      {
        assert s[j] == Starts(n, maxWords, step, i + step)[j - 1];
      }
    }
  }

  /** With a non-negative overlap there are 1 + ceil(max(0, n - i - maxWords) / step)
      windows from a start `i` inside the text. */
  lemma {:induction false} StartsCount(n: nat, maxWords: nat, step: nat, i: nat)
    requires 0 < step <= maxWords && i < n
    ensures |Starts(n, maxWords, step, i)| == 1 + CeilDiv(Max(0, n - i - maxWords), step)
    decreases n - i
  {
    if i + maxWords < n {
      StartsCount(n, maxWords, step, i + step);
    }
  }

  /** The number of windows of a page of `n >= 1` words. */
  lemma WindowCount(n: nat, maxWords: nat, overlapWords: int)
    requires n >= 1 && maxWords >= 1 && 0 <= overlapWords < maxWords
    ensures |Starts(n, maxWords, maxWords - overlapWords, 0)|
      == 1 + CeilDiv(Max(0, n - maxWords), maxWords - overlapWords)
  {
    StartsCount(n, maxWords, maxWords - overlapWords, 0);
  }

  /** Every window but the last one is full; the last one reaches the end of the text. */
  lemma {:induction false} OnlyLastWindowShort(n: nat, maxWords: nat, step: nat, i: nat)
    requires 0 < step <= maxWords && i < n
    ensures var s := Starts(n, maxWords, step, i);
      && (forall j :: 0 <= j < |s| - 1 ==> s[j] + maxWords < n)
      && s[|s| - 1] + maxWords >= n
    decreases n - i
  {
    if i + maxWords < n {
      var s := Starts(n, maxWords, step, i);
      OnlyLastWindowShort(n, maxWords, step, i + step);
      assert s[1..] == Starts(n, maxWords, step, i + step);
    }
  }

  /** The kept windows and the chunk texts correspond one to one. */
  lemma {:induction false} ChunksOfKeptStarts(words: seq<string>, starts: seq<nat>, maxWords: nat, minWords: int)
    requires forall j :: 0 <= j < |starts| ==> starts[j] <= |words|
    ensures var ks := KeptStarts(words, starts, maxWords, minWords);
      var cs := WindowTexts(words, starts, maxWords, minWords);
      && |ks| == |cs|
      && (forall k :: 0 <= k < |ks| ==> ks[k] in starts && ks[k] <= |words|)
      && (forall k :: 0 <= k < |ks| ==>
            var w := Window(words, ks[k], maxWords);
            cs[k] == JoinWith(" ", w) && minWords <= |w|)
  {
    if starts != [] {
      ChunksOfKeptStarts(words, starts[1..], maxWords, minWords);
    }
  }

  /** Each chunk is a run of consecutive words of the page, starting at word
      `i` and `len` words long, joined by single spaces, with between
      `minWords` and `maxWords` words; splitting it gives that run back. */
  lemma ChunkShape(text: string, maxWords: nat, overlapWords: int, minWords: int, k: nat)
    returns (i: nat, len: nat)
    requires k < |Chunks(text, maxWords, overlapWords, minWords)|
    ensures i + len <= |Words(text)| && minWords <= len <= maxWords
    ensures Chunks(text, maxWords, overlapWords, minWords)[k] == JoinWith(" ", Words(text)[i..i + len])
    ensures Words(Chunks(text, maxWords, overlapWords, minWords)[k]) == Words(text)[i..i + len]
  {
    var words := Words(text);
    var step := Step(maxWords, overlapWords);
    var s := Starts(|words|, maxWords, step, 0);
    StartsInRange(|words|, maxWords, step, 0);
    ChunksOfKeptStarts(words, s, maxWords, minWords);
    i := KeptStarts(words, s, maxWords, minWords)[k];
    var w := Window(words, i, maxWords);
    len := |w|;
    assert w == words[i..i + len];
    WordsOfJoin(w);
  }

  /** A page of at most `maxWords` words is one chunk of all its words, or
      nothing when it is below the minimum. */
  lemma ShortPage(text: string, maxWords: nat, overlapWords: int, minWords: int)
    requires 1 <= |Words(text)| <= maxWords
    ensures Chunks(text, maxWords, overlapWords, minWords)
      == if |Words(text)| >= minWords then [JoinWith(" ", Words(text))] else []
  {
    var words := Words(text);
    var s := Starts(|words|, maxWords, Step(maxWords, overlapWords), 0);
    assert s == [0] && s[1..] == [];
    assert WindowTexts(words, s[1..], maxWords, minWords) == [];
    assert Window(words, 0, maxWords) == words;
  }
}
