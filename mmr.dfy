/**
  Greedy Maximal Marginal Relevance (_mmr in apps/agent/rag/store.py).
  The embedding dot products are given: `rel[i]` is the relevance of
  document `i` to the query and `sim[i][j]` the similarity of documents `i`
  and `j`. Each round scores every remaining candidate, in ascending order,
  by lambda * rel[i] - (1 - lambda) * (largest similarity to a pick so far),
  and takes the first candidate with the largest score. The loop bound
  compares the picks with the shrinking candidate list, so a run over `n`
  documents makes at most ceil(n / 2) picks.
*/
module Mmr {

  function Min(a: int, b: int): int { if a <= b then a else b }
  function Max(a: int, b: int): int { if a >= b then a else b }

  /** The initial best score of a round; every real score must exceed it. */
  const Sentinel: real := -1000000000.0

  predicate InRange(s: seq<nat>, n: nat) {
    forall t :: 0 <= t < |s| ==> s[t] < n
  }

  predicate Distinct(s: seq<nat>) {
    forall a, b :: 0 <= a < b < |s| ==> s[a] != s[b]
  }

  predicate Increasing(s: seq<nat>) {
    forall a, b :: 0 <= a < b < |s| ==> s[a] < s[b]
  }

  /** `list.remove(x)`: drops the first occurrence of `x`. */
  function RemoveFirst(s: seq<nat>, x: nat): seq<nat> {
    if s == [] then []
    else if s[0] == x then s[1..]
    else [s[0]] + RemoveFirst(s[1..], x)
  }

  /** The documents `i..n-1` not yet picked, in ascending order. */
  function RemainingFrom(i: nat, n: nat, picked: seq<nat>): seq<nat>
    decreases n - i
  {
    if i >= n then []
    else (if i in picked then [] else [i]) + RemainingFrom(i + 1, n, picked)
  }

  /** The documents not yet picked, in ascending order. */
  function Remaining(n: nat, picked: seq<nat>): seq<nat> {
    RemainingFrom(0, n, picked)
  }

  /** Relevances, similarities and the relevance/diversity balance. */
  datatype Scoring = Scoring(rel: seq<real>, sim: seq<seq<real>>, lambda: real) {

    /** One relevance per document and a square similarity matrix. */
    predicate Valid() {
      |sim| == |rel| && forall i :: 0 <= i < |sim| ==> |sim[i]| == |rel|
    }

    function N(): nat { |rel| }

    /** Every score a round can compute lies above the sentinel. */
    predicate AboveSentinel()
      requires Valid()
    {
      && (forall i :: 0 <= i < N() ==> lambda * rel[i] > Sentinel)
      && (forall i, j :: 0 <= i < N() && 0 <= j < N() ==> lambda * rel[i] - (1.0 - lambda) * sim[i][j] > Sentinel)
    }

    /** The largest similarity of document `i` to the picks. */
    function MaxSim(i: nat, picked: seq<nat>): real
      requires Valid() && i < N() && picked != [] && InRange(picked, N())
    {
      var v := sim[i][picked[|picked| - 1]];
      if |picked| == 1 then v
      else
        var m := MaxSim(i, picked[..|picked| - 1]);
        if v > m then v else m
    }

    /** The diversity penalty of document `i`: 0 before the first pick. */
    function Div(i: nat, picked: seq<nat>): real
      requires Valid() && i < N() && InRange(picked, N())
    {
      if picked == [] then 0.0 else MaxSim(i, picked)
    }

    function Score(i: nat, picked: seq<nat>): real
      requires Valid() && i < N() && InRange(picked, N())
    {
      lambda * rel[i] - (1.0 - lambda) * Div(i, picked)
    }

    /** The candidate a round settles on: scanning in order, the best score
        so far is replaced only by a strictly larger one. */
    function FirstMax(cands: seq<nat>, picked: seq<nat>): (b: nat)
      requires Valid() && cands != [] && InRange(cands, N()) && InRange(picked, N())
      ensures b < N()
    {
      var last := cands[|cands| - 1];
      if |cands| == 1 then last
      else
        var b := FirstMax(cands[..|cands| - 1], picked);
        if Score(last, picked) > Score(b, picked) then last else b
    }

    /** `b` is what a round picks after `picked`. */
    predicate RoundChoice(picked: seq<nat>, b: nat)
      requires Valid()
    {
      var cands := Remaining(N(), picked);
      InRange(picked, N()) && cands != [] && InRange(cands, N()) && FirstMax(cands, picked) == b
    }

    /** The picks that follow `picked` when at most `k` are wanted. */
    function Greedy(k: int, picked: seq<nat>): (r: seq<nat>)
      requires Valid() && InRange(picked, N()) && Distinct(picked)
      ensures |r| >= |picked| && r[..|picked|] == picked
      ensures InRange(r, N()) && Distinct(r)
      decreases N() - |picked|
    {
      var cands := Remaining(N(), picked);
      RemainingLength(N(), picked);
      RemainingProps(0, N(), picked);
      if |picked| < Min(k, |cands|) then
        var b := FirstMax(cands, picked);
        FirstMaxIn(this, cands, picked);
        var r := Greedy(k, picked + [b]);
        assert r[..|picked|] == r[..|picked| + 1][..|picked|];
        r
      else picked
    }

    /** What _mmr returns: distinct document indices. */
    function Select(k: int): (r: seq<nat>)
      requires Valid()
      ensures InRange(r, N()) && Distinct(r)
    {
      if N() == 0 then [] else Greedy(k, [])
    }
  }

  // ---------- remaining candidates ----------

  lemma {:induction false} RemainingBounds(i: nat, n: nat, picked: seq<nat>)
    ensures forall t :: 0 <= t < |RemainingFrom(i, n, picked)| ==>
      i <= RemainingFrom(i, n, picked)[t] < n && RemainingFrom(i, n, picked)[t] !in picked
    decreases n - i
  {
    if i < n {
      RemainingBounds(i + 1, n, picked);
      var head: seq<nat> := if i in picked then [] else [i];
      var rest := RemainingFrom(i + 1, n, picked);
      var r := head + rest;
      forall t | 0 <= t < |r|
        ensures i <= r[t] < n && r[t] !in picked
      {
        if t >= |head| {
          assert r[t] == rest[t - |head|];
        }
      }
    }
  }

  lemma {:induction false} RemainingIncreasing(i: nat, n: nat, picked: seq<nat>)
    ensures Increasing(RemainingFrom(i, n, picked))
    decreases n - i
  {
    if i < n {
      RemainingIncreasing(i + 1, n, picked);
      RemainingBounds(i + 1, n, picked);
      var head: seq<nat> := if i in picked then [] else [i];
      var rest := RemainingFrom(i + 1, n, picked);
      var r := head + rest;
      forall a, b | 0 <= a < b < |r|
        ensures r[a] < r[b]
      {
        assert r[b] == rest[b - |head|];
        if a >= |head| {
          assert r[a] == rest[a - |head|];
        }
      }
    }
  }

  lemma {:induction false} RemainingComplete(i: nat, n: nat, picked: seq<nat>)
    ensures forall x: nat :: i <= x < n && x !in picked ==> x in RemainingFrom(i, n, picked)
    decreases n - i
  {
    if i < n {
      RemainingComplete(i + 1, n, picked);
    }
  }

  /** The candidates are the unpicked documents, each once, in ascending order. */
  lemma RemainingProps(i: nat, n: nat, picked: seq<nat>)
    ensures var r := RemainingFrom(i, n, picked);
      && InRange(r, n) && Increasing(r)
      && (forall t :: 0 <= t < |r| ==> i <= r[t] && r[t] !in picked)
      && (forall x: nat :: i <= x < n && x !in picked ==> x in r)
  {
    RemainingBounds(i, n, picked);
    RemainingIncreasing(i, n, picked);
    RemainingComplete(i, n, picked);
  }

  lemma {:induction false} RemainingIgnoresEarlier(i: nat, n: nat, picked: seq<nat>, b: nat)
    requires b < i
    ensures RemainingFrom(i, n, picked + [b]) == RemainingFrom(i, n, picked)
    decreases n - i
  {
    if i < n {
      assert (i in picked + [b]) == (i in picked);
      RemainingIgnoresEarlier(i + 1, n, picked, b);
    }
  }

  /** Removing a pick from the candidate list leaves the candidates of the
      longer pick list. */
  lemma {:induction false} RemoveFirstRemaining(i: nat, n: nat, picked: seq<nat>, b: nat)
    requires b !in picked
    ensures RemoveFirst(RemainingFrom(i, n, picked), b) == RemainingFrom(i, n, picked + [b])
    decreases n - i
  {
    if i < n {
      var rest := RemainingFrom(i + 1, n, picked);
      if i in picked {
        assert i in picked + [b];
        assert RemainingFrom(i, n, picked) == rest;
        assert RemainingFrom(i, n, picked + [b]) == RemainingFrom(i + 1, n, picked + [b]);
        RemoveFirstRemaining(i + 1, n, picked, b);
      } else if i == b {
        assert RemainingFrom(i, n, picked) == [i] + rest;
        RemainingIgnoresEarlier(i + 1, n, picked, b);
      } else {
        assert i !in picked + [b];
        assert RemainingFrom(i, n, picked) == [i] + rest;
        RemoveFirstRemaining(i + 1, n, picked, b);
      }
    }
  }

  lemma {:induction false} RemoveFirstLength(s: seq<nat>, x: nat)
    requires x in s
    ensures |RemoveFirst(s, x)| == |s| - 1
  {
    if s[0] != x {
      RemoveFirstLength(s[1..], x);
    }
  }

  lemma {:induction false} RemainingFromAll(i: nat, n: nat)
    requires i <= n
    ensures |RemainingFrom(i, n, [])| == n - i
    decreases n - i
  {
    if i < n {
      RemainingFromAll(i + 1, n);
    }
  }

  /** With `m` distinct picks among `n` documents, `n - m` candidates remain. */
  lemma {:induction false} RemainingLength(n: nat, picked: seq<nat>)
    requires InRange(picked, n) && Distinct(picked)
    ensures |Remaining(n, picked)| == n - |picked|
  {
    if picked == [] {
      RemainingFromAll(0, n);
    } else {
      var init := picked[..|picked| - 1];
      var b := picked[|picked| - 1];
      assert init + [b] == picked;
      RemainingLength(n, init);
      RemainingProps(0, n, init);
      assert b !in init;
      RemoveFirstRemaining(0, n, init, b);
      RemoveFirstLength(Remaining(n, init), b);
    }
  }

  /** The initial candidate list `list(range(n))`. */
  lemma {:induction false} RangeIsRemaining(i: nat, n: nat)
    requires i <= n
    ensures RemainingFrom(i, n, []) == seq(n - i, t requires 0 <= t < n - i => (i + t) as nat)
    decreases n - i
  {
    if i < n {
      RangeIsRemaining(i + 1, n);
    }
  }

  // ---------- one round ----------

  lemma {:induction false} FirstMaxIn(sc: Scoring, cands: seq<nat>, picked: seq<nat>)
    requires sc.Valid() && cands != [] && InRange(cands, sc.N()) && InRange(picked, sc.N())
    ensures sc.FirstMax(cands, picked) in cands
  {
    if |cands| > 1 {
      FirstMaxIn(sc, cands[..|cands| - 1], picked);
    }
  }

  /** The candidate a round settles on has the largest score, and every
      candidate before it scores strictly less. */
  lemma {:induction false} FirstMaxIsFirstBest(sc: Scoring, cands: seq<nat>, picked: seq<nat>) returns (p: nat)
    requires sc.Valid() && cands != [] && InRange(cands, sc.N()) && InRange(picked, sc.N())
    ensures p < |cands| && cands[p] == sc.FirstMax(cands, picked)
    ensures forall q :: 0 <= q < |cands| ==> sc.Score(cands[q], picked) <= sc.Score(cands[p], picked)
    ensures forall q :: 0 <= q < p ==> sc.Score(cands[q], picked) < sc.Score(cands[p], picked)
  {
    if |cands| == 1 {
      p := 0;
    } else {
      var init := cands[..|cands| - 1];
      var p0 := FirstMaxIsFirstBest(sc, init, picked);
      var last := cands[|cands| - 1];
      if sc.Score(last, picked) > sc.Score(sc.FirstMax(init, picked), picked) {
        p := |cands| - 1;
      } else {
        p := p0;
      }
    }
  }

  lemma FirstMaxStep(sc: Scoring, cands: seq<nat>, picked: seq<nat>, j: nat)
    requires sc.Valid() && InRange(cands, sc.N()) && InRange(picked, sc.N()) && 0 < j < |cands|
    ensures var b := sc.FirstMax(cands[..j], picked);
      sc.FirstMax(cands[..j + 1], picked)
        == if sc.Score(cands[j], picked) > sc.Score(b, picked) then cands[j] else b
  {
    assert cands[..j + 1][..j] == cands[..j];
  }

  lemma {:induction false} MaxSimAttained(sc: Scoring, i: nat, picked: seq<nat>) returns (t: nat)
    requires sc.Valid() && i < sc.N() && picked != [] && InRange(picked, sc.N())
    ensures t < |picked| && sc.MaxSim(i, picked) == sc.sim[i][picked[t]]
  {
    if |picked| == 1 {
      t := 0;
    } else {
      var t0 := MaxSimAttained(sc, i, picked[..|picked| - 1]);
      t := if sc.sim[i][picked[|picked| - 1]] > sc.MaxSim(i, picked[..|picked| - 1]) then |picked| - 1 else t0;
    }
  }

  /** Under the sentinel precondition every score beats the initial best score. */
  lemma ScoreAboveSentinel(sc: Scoring, i: nat, picked: seq<nat>)
    requires sc.Valid() && sc.AboveSentinel() && i < sc.N() && InRange(picked, sc.N())
    ensures sc.Score(i, picked) > Sentinel
  {
    if picked != [] {
      var t := MaxSimAttained(sc, i, picked);
      assert sc.Score(i, picked) == sc.lambda * sc.rel[i] - (1.0 - sc.lambda) * sc.sim[i][picked[t]];
    }
  }

  /** `max(sim[i][j] for j in picked)`. */
  method MaxSimilarity(sc: Scoring, i: nat, picked: seq<nat>) returns (m: real)
    requires sc.Valid() && i < sc.N() && picked != [] && InRange(picked, sc.N())
    ensures m == sc.MaxSim(i, picked)
  {
    m := sc.sim[i][picked[0]];
    var t := 1;
    while t < |picked|
      invariant 1 <= t <= |picked|
      invariant m == sc.MaxSim(i, picked[..t])
    {
      var v := sc.sim[i][picked[t]];
      assert picked[..t + 1][..t] == picked[..t];
      if v > m {
        m := v;
      }
      t := t + 1;
    }
    assert picked[..t] == picked;
  }

  /** One round of _mmr: the scan over the candidates. */
  method PickBest(sc: Scoring, picked: seq<nat>, cands: seq<nat>) returns (best: nat)
    requires sc.Valid() && sc.AboveSentinel()
    requires cands != [] && InRange(cands, sc.N()) && InRange(picked, sc.N())
    ensures best == sc.FirstMax(cands, picked)
  {
    var bestI: int := -1;
    var bestScore := Sentinel;
    var j := 0;
    while j < |cands|
      invariant 0 <= j <= |cands|
      invariant j == 0 ==> bestI == -1 && bestScore == Sentinel
      invariant j > 0 ==> bestI == sc.FirstMax(cands[..j], picked) && bestScore == sc.Score(bestI, picked)
    {
      var i := cands[j];
      var div := 0.0;
      if picked != [] {
        div := MaxSimilarity(sc, i, picked);
      }
      var score := sc.lambda * sc.rel[i] - (1.0 - sc.lambda) * div;
      ScoreOf(sc, i, picked, div);
      ScanStep(sc, cands, picked, j, bestI, bestScore);
      if score > bestScore {
        bestScore := score;
        bestI := i;
      }
      j := j + 1;
    }
    assert cands[..j] == cands;
    best := bestI;
  }

  /** One step of Greedy: while the pick count is below the bound, the round's
      choice is a new candidate and the picks go on from there; otherwise the
      picks are final. */
  lemma GreedyUnfold(sc: Scoring, k: int, picked: seq<nat>)
    requires sc.Valid() && InRange(picked, sc.N()) && Distinct(picked)
    ensures var cands := Remaining(sc.N(), picked);
      && |cands| == sc.N() - |picked| && InRange(cands, sc.N())
      && (|picked| < Min(k, |cands|) ==>
            var b := sc.FirstMax(cands, picked);
            && b in cands && b !in picked
            && InRange(picked + [b], sc.N()) && Distinct(picked + [b])
            && sc.Greedy(k, picked) == sc.Greedy(k, picked + [b]))
      && (|picked| >= Min(k, |cands|) ==> sc.Greedy(k, picked) == picked)
  {
    var cands := Remaining(sc.N(), picked);
    RemainingLength(sc.N(), picked);
    RemainingProps(0, sc.N(), picked);
    if |picked| < Min(k, |cands|) {
      FirstMaxIn(sc, cands, picked);
    }
  }

  lemma ScoreOf(sc: Scoring, i: nat, picked: seq<nat>, div: real)
    requires sc.Valid() && i < sc.N() && InRange(picked, sc.N())
    requires div == if picked == [] then 0.0 else sc.MaxSim(i, picked)
    ensures sc.lambda * sc.rel[i] - (1.0 - sc.lambda) * div == sc.Score(i, picked)
  {
  }

  /** One candidate of the scan: the best so far after it is the round's
      choice among the candidates up to it. */
  lemma ScanStep(sc: Scoring, cands: seq<nat>, picked: seq<nat>, j: nat, bestI: int, bestScore: real)
    requires sc.Valid() && sc.AboveSentinel()
    requires InRange(cands, sc.N()) && InRange(picked, sc.N()) && j < |cands|
    requires j == 0 ==> bestI == -1 && bestScore == Sentinel
    requires j > 0 ==> bestI == sc.FirstMax(cands[..j], picked) && bestScore == sc.Score(bestI, picked)
    ensures var s := sc.Score(cands[j], picked);
      var b := if s > bestScore then cands[j] else bestI;
      b == sc.FirstMax(cands[..j + 1], picked) && (if s > bestScore then s else bestScore) == sc.Score(b, picked)
  {
    ScoreAboveSentinel(sc, cands[j], picked);
    if j == 0 {
      assert cands[..1] == [cands[j]];
    } else {
      FirstMaxStep(sc, cands, picked, j);
    }
  }

  /** _mmr: picks until the pick count reaches min(k, number of candidates left). */
  method Mmr(rel: seq<real>, sim: seq<seq<real>>, k: int, lambda: real) returns (selected: seq<nat>)
    requires Scoring(rel, sim, lambda).Valid() && Scoring(rel, sim, lambda).AboveSentinel()
    ensures selected == Scoring(rel, sim, lambda).Select(k)
  {
    var sc := Scoring(rel, sim, lambda);
    var n := |rel|;
    if n == 0 {
      return [];
    }
    selected := [];
    var candidates: seq<nat> := seq(n, t requires 0 <= t < n => t as nat);
    RangeIsRemaining(0, n);
    while |selected| < Min(k, |candidates|)
      invariant InRange(selected, n) && Distinct(selected)
      invariant candidates == Remaining(n, selected)
      invariant sc.Greedy(k, selected) == sc.Select(k)
      decreases n - |selected|
    {
      GreedyUnfold(sc, k, selected);
      var best := PickBest(sc, selected, candidates);
      RemoveFirstRemaining(0, n, selected, best);
      selected := selected + [best];
      candidates := RemoveFirst(candidates, best);
    }
  }

  // ---------- properties of the selection ----------

  /** The number of picks the loop makes from pick count `t` on. */
  function PickCount(t: nat, n: nat, k: int): nat
    decreases n - t
  {
    if t < Min(k, n - t) then PickCount(t + 1, n, k) else t
  }

  lemma {:induction false} PickCountValue(t: nat, n: nat, k: int)
    requires t <= Max(0, Min(k, (n + 1) / 2))
    ensures PickCount(t, n, k) == Max(0, Min(k, (n + 1) / 2))
    decreases n - t
  {
    if t < Min(k, n - t) {
      PickCountValue(t + 1, n, k);
    }
  }

  /** The number of picks follows the loop bound. */
  lemma {:induction false} GreedyLength(sc: Scoring, k: int, picked: seq<nat>)
    requires sc.Valid() && InRange(picked, sc.N()) && Distinct(picked)
    ensures |sc.Greedy(k, picked)| == PickCount(|picked|, sc.N(), k)
    decreases sc.N() - |picked|
  {
    var n := sc.N();
    var cands := Remaining(n, picked);
    RemainingLength(n, picked);
    RemainingProps(0, n, picked);
    if |picked| < Min(k, |cands|) {
      var b := sc.FirstMax(cands, picked);
      FirstMaxIn(sc, cands, picked);
      GreedyLength(sc, k, picked + [b]);
    }
  }

  /** Each pick after `picked` is its round's first best candidate. */
  lemma {:induction false} GreedyChoice(sc: Scoring, k: int, picked: seq<nat>, t: nat)
    requires sc.Valid() && InRange(picked, sc.N()) && Distinct(picked)
    requires |picked| <= t < |sc.Greedy(k, picked)|
    ensures var r := sc.Greedy(k, picked);
      sc.RoundChoice(r[..t], r[t])
    decreases sc.N() - |picked|
  {
    var cands := Remaining(sc.N(), picked);
    GreedyUnfold(sc, k, picked);
    var r := sc.Greedy(k, picked);
    if |picked| < Min(k, |cands|) {
      var next := picked + [sc.FirstMax(cands, picked)];
      if t == |picked| {
        assert r[..|next|] == next;
        assert r[..t] == picked;
      } else {
        GreedyChoice(sc, k, next, t);
      }
    }
  }

  /** _mmr on no documents picks nothing. */
  lemma NoDocumentsNoPicks(sc: Scoring, k: int)
    requires sc.Valid() && sc.N() == 0
    ensures sc.Select(k) == []
  {
  }

  /** _mmr makes max(0, min(k, ceil(n / 2))) picks from n documents: the
      loop bound shrinks with the candidate list. */
  lemma SelectLength(sc: Scoring, k: int)
    requires sc.Valid()
    ensures |sc.Select(k)| == Max(0, Min(k, (sc.N() + 1) / 2))
  {
    if sc.N() > 0 {
      GreedyLength(sc, k, []);
      PickCountValue(0, sc.N(), k);
    }
  }

  /** Pick `t` is an unpicked document whose score against the earlier picks
      is the largest, and every unpicked document with a lower index scores
      strictly less. */
  lemma SelectGreedyChoice(sc: Scoring, k: int, t: nat)
    requires sc.Valid() && t < |sc.Select(k)|
    ensures var r := sc.Select(k);
      && r[t] !in r[..t]
      && (forall c :: 0 <= c < sc.N() && c !in r[..t] ==> sc.Score(c, r[..t]) <= sc.Score(r[t], r[..t]))
      && (forall c :: 0 <= c < r[t] && c !in r[..t] ==> sc.Score(c, r[..t]) < sc.Score(r[t], r[..t]))
  {
    var r := sc.Select(k);
    GreedyChoice(sc, k, [], t);
    RoundChoiceIsBest(sc, r[..t], r[t]);
  }

  /** The document a round picks is unpicked, scores highest among the
      unpicked documents, and beats every unpicked document of lower index. */
  lemma RoundChoiceIsBest(sc: Scoring, before: seq<nat>, b: nat)
    requires sc.Valid() && sc.RoundChoice(before, b)
    ensures b < sc.N() && b !in before
    ensures forall c :: 0 <= c < sc.N() && c !in before ==> sc.Score(c, before) <= sc.Score(b, before)
    ensures forall c :: 0 <= c < b && c !in before ==> sc.Score(c, before) < sc.Score(b, before)
  {
    var n := sc.N();
    var cands := Remaining(n, before);
    RemainingProps(0, n, before);
    var p := FirstMaxIsFirstBest(sc, cands, before);
    assert b == cands[p];
    forall c | 0 <= c < n && c !in before
      ensures sc.Score(c, before) <= sc.Score(b, before)
    {
      assert c in cands;
    }
    forall c | 0 <= c < b && c !in before
      ensures sc.Score(c, before) < sc.Score(b, before)
    {
      assert c in cands;
      var q :| 0 <= q < |cands| && cands[q] == c;
      assert q < p;
    }
  }

  /** The first pick is the first document of largest lambda * relevance. */
  lemma SelectFirstPick(sc: Scoring, k: int)
    requires sc.Valid() && sc.N() > 0 && k >= 1
    ensures var r := sc.Select(k);
      && |r| >= 1
      && (forall c :: 0 <= c < sc.N() ==> sc.lambda * sc.rel[c] <= sc.lambda * sc.rel[r[0]])
      && (forall c :: 0 <= c < r[0] ==> sc.lambda * sc.rel[c] < sc.lambda * sc.rel[r[0]])
  {
    var r := sc.Select(k);
    assert |r| >= 1 by {
      SelectLength(sc, k);
    }
    SelectGreedyChoice(sc, k, 0);
    var none: seq<nat> := r[..0];
    assert none == [];
    var best := r[0];
    assert sc.Score(best, none) == sc.lambda * sc.rel[best];
    forall c | 0 <= c < sc.N()
      ensures sc.lambda * sc.rel[c] <= sc.lambda * sc.rel[best]
      ensures c < best ==> sc.lambda * sc.rel[c] < sc.lambda * sc.rel[best]
    {
      assert c !in none;
      assert sc.Score(c, none) == sc.lambda * sc.rel[c];
    }
  }

  /** With lambda = 1 the diversity term vanishes and the picks come in order
      of non-increasing relevance. */
  lemma RelevanceOnlyOrder(sc: Scoring, k: int)
    requires sc.Valid() && sc.lambda == 1.0
    ensures var r := sc.Select(k);
      forall t :: 0 <= t < |r| - 1 ==> sc.rel[r[t]] >= sc.rel[r[t + 1]]
  {
    var r := sc.Select(k);
    forall t | 0 <= t < |r| - 1
      ensures sc.rel[r[t]] >= sc.rel[r[t + 1]]
    {
      SelectGreedyChoice(sc, k, t);
      var c := r[t + 1];
      assert c !in r[..t] by {
        assert forall u :: 0 <= u < t ==> r[..t][u] == r[u];
      }
      assert sc.Score(c, r[..t]) <= sc.Score(r[t], r[..t]);
    }
  }

  /** Of two near-duplicates only the more relevant one is picked, and three
      documents with k = 3 give two picks. */
  lemma NearDuplicateSkipped()
    ensures Example().Select(3) == [0, 2]
  {
    var sc := Example();
    ExampleRounds();
    assert [] + [0] == [0] && [0] + [2] == [0, 2];
    GreedyUnfold(sc, 3, []);
    GreedyUnfold(sc, 3, [0]);
    GreedyUnfold(sc, 3, [0, 2]);
  }

  /** Three documents; the first two are near-duplicates. */
  function Example(): (sc: Scoring)
    ensures sc.Valid() && sc.N() == 3
  {
    Scoring([1.0, 0.9, 0.1], [[1.0, 1.0, 0.0], [1.0, 1.0, 0.0], [0.0, 0.0, 1.0]], 0.5)
  }

  lemma ExampleRounds()
    ensures Remaining(3, []) == [0, 1, 2] && Example().FirstMax([0, 1, 2], []) == 0
    ensures Remaining(3, [0]) == [1, 2] && Example().FirstMax([1, 2], [0]) == 2
    ensures Remaining(3, [0, 2]) == [1]
  {
    var sc := Example();
    assert [0, 1, 2][..2] == [0, 1] && [0, 1][..1] == [0];
    assert [1, 2][..1] == [1];
    assert sc.MaxSim(1, [0]) == 1.0 && sc.MaxSim(2, [0]) == 0.0;
  }
}
