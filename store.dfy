/**
  The retrieval side of the vector store (RAGStore.search in
  apps/agent/rag/store.py): nearest-neighbour hits are deduplicated by a
  signature of chosen fields, re-ranked with MMR and slimmed to the fields the
  caller asked for. The table and the embedder are given as an `Index`: the
  nearest-neighbour query for the encoded question, and the dot products of
  the stored vectors with the question and with each other.
*/
module Store {
  import opened Wrappers
  import opened Text
  import Mmr

  /** A stored field value. */
  datatype Value = VStr(s: string) | VInt(i: int) | VNone

  /** A LanceDB record: field name to value. */
  type Record = map<string, Value>

  /** The opened table with the embedder, for one query. */
  datatype Index = Index(
    /** The hits of the cosine search, with the optional filter and the limit. */
    nearest: (Option<string>, int) -> seq<Record>,
    /** Dot product of a hit's vector with the query vector. */
    relevance: Record -> real,
    /** Dot product of two hits' vectors. */
    similarity: (Record, Record) -> real)

  /** The optional arguments of `search`; `None` means "use the default". */
  datatype Options = Options(
    fetchK: Option<int>,
    filter: Option<string>,
    includeFields: Option<seq<string>>,
    lambda: real,
    dedupeOn: Option<seq<string>>)

  /** `search`'s keyword defaults. */
  function DefaultOptions(): Options {
    Options(None, None, None, 0.55, None)
  }

  const DefaultK: int := 5

  /** The arguments after the defaults are filled in. */
  datatype Resolved = Resolved(fetchK: int, includeFields: seq<string>, dedupeOn: seq<string>)

  function Resolve(k: int, o: Options): (r: Resolved)
    ensures o.fetchK.None? ==> r.fetchK >= 16 && r.fetchK >= 8 * k && (r.fetchK == 16 || r.fetchK == 8 * k)
    ensures o.fetchK.Some? ==> r.fetchK == o.fetchK.value
    ensures o.includeFields.None? ==> r.includeFields == ["id", "text", "page", "chapter", "section"]
    ensures o.includeFields.Some? ==> r.includeFields == o.includeFields.value
    ensures o.dedupeOn.None? ==> r.dedupeOn == ["page", "text"]
    ensures o.dedupeOn.Some? ==> r.dedupeOn == o.dedupeOn.value
  {
    Resolved(
      o.fetchK.GetOr(if k * 8 >= 16 then k * 8 else 16),
      o.includeFields.GetOr(["id", "text", "page", "chapter", "section"]),
      o.dedupeOn.GetOr(["page", "text"]))
  }

  /** `if where:` — an empty filter string is no filter. */
  function Filter(filter: Option<string>): (r: Option<string>)
    ensures r.Some? <==> filter.Some? && filter.value != ""
    ensures r.Some? ==> r.value == filter.value
  {
    match filter
    case Some(w) => if w != "" then Some(w) else None
    case None => None
  }

  /** Python's `str()` of a field value. */
  function Str(v: Value): string {
    match v
    case VStr(s) => s
    case VInt(i) => IntToString(i)
    case VNone => "None"
  }

  /** `rec.get(f, "")`. */
  function Get(rec: Record, f: string): Value {
    if f in rec then rec[f] else VStr("")
  }

  /** The dedupe signature: the `str` of each chosen field, joined by "||". */
  function Sig(rec: Record, fields: seq<string>): string {
    JoinWith("||", seq(|fields|, i requires 0 <= i < |fields| => Str(Get(rec, fields[i]))))
  }

  /** Hit `i` is the first of its signature. */
  predicate FirstOfSig(hits: seq<Record>, fields: seq<string>, i: nat)
    requires i < |hits|
  {
    forall j :: 0 <= j < i ==> Sig(hits[j], fields) != Sig(hits[i], fields)
  }

  /** The hits that are the first of their signature, in order. */
  function Dedupe(hits: seq<Record>, fields: seq<string>): seq<Record> {
    if hits == [] then []
    else
      var last := |hits| - 1;
      Dedupe(hits[..last], fields) + (if FirstOfSig(hits, fields, last) then [hits[last]] else [])
  }

  /** The signatures of `hits`. */
  function Sigs(hits: seq<Record>, fields: seq<string>): set<string> {
    set i | 0 <= i < |hits| :: Sig(hits[i], fields)
  }

  /** The dedupe loop of `search`: a hit whose signature was seen is skipped. */
  method DedupeHits(hits: seq<Record>, fields: seq<string>) returns (uniq: seq<Record>)
    ensures uniq == Dedupe(hits, fields)
  {
    var seen: set<string> := {};
    uniq := [];
    var i := 0;
    while i < |hits|
      invariant 0 <= i <= |hits|
      invariant uniq == Dedupe(hits[..i], fields)
      invariant seen == Sigs(hits[..i], fields)
    {
      var s := Sig(hits[i], fields);
      DedupeStep(hits, fields, i);
      if s !in seen {
        seen := seen + {s};
        uniq := uniq + [hits[i]];
      }
      i := i + 1;
    }
    assert hits[..i] == hits;
  }

  /** One hit of the dedupe loop: it is kept exactly when its signature is
      not among those of the earlier hits, and its signature is then seen. */
  lemma DedupeStep(hits: seq<Record>, fields: seq<string>, i: nat)
    requires i < |hits|
    ensures var s := Sig(hits[i], fields);
      && Dedupe(hits[..i + 1], fields)
           == Dedupe(hits[..i], fields) + (if s !in Sigs(hits[..i], fields) then [hits[i]] else [])
      && Sigs(hits[..i + 1], fields) == Sigs(hits[..i], fields) + {s}
  {
    var s := Sig(hits[i], fields);
    var prefix := hits[..i + 1];
    assert prefix[..i] == hits[..i];
    assert FirstOfSig(prefix, fields, i) <==> s !in Sigs(hits[..i], fields) by {
      if s in Sigs(hits[..i], fields) {
        var j :| 0 <= j < i && Sig(hits[..i][j], fields) == s;
        assert prefix[j] == hits[..i][j];
      }
    }
    SigsAppend(hits[..i], hits[i], fields);
    assert hits[..i] + [hits[i]] == prefix;
  }

  lemma SigsAppend(hits: seq<Record>, h: Record, fields: seq<string>)
    ensures Sigs(hits + [h], fields) == Sigs(hits, fields) + {Sig(h, fields)}
  {
    var both := hits + [h];
    forall s | s in Sigs(both, fields)
      ensures s in Sigs(hits, fields) + {Sig(h, fields)}
    {
      var i :| 0 <= i < |both| && Sig(both[i], fields) == s;
      if i < |hits| {
        assert both[i] == hits[i];
      }
    }
    forall s | s in Sigs(hits, fields)
      ensures s in Sigs(both, fields)
    {
      var i :| 0 <= i < |hits| && Sig(hits[i], fields) == s;
      assert both[i] == hits[i];
    }
    assert Sig(both[|hits|], fields) == Sig(h, fields);
  }

  /** `int(value)` for the page field; `None` when Python's `int` raises. */
  function PageNumber(v: Value): Option<int> {
    match v
    case VInt(i) => Some(i)
    case VStr(s) => if s != [] && AllDigits(s) then Some(ParseDecimal(s)) else None
    case VNone => None
  }

  /** The fields of `rec` named in `fields`. */
  function Pick(rec: Record, fields: seq<string>): (m: Record)
    ensures m.Keys == rec.Keys * set f | f in fields
    ensures forall f :: f in m ==> m[f] == rec[f]
  {
    map f | f in rec.Keys && f in fields :: rec[f]
  }

  /** The record `search` returns for a hit: the requested fields, with
      "text" defaulting to "", "page" made an int (default -1) and "chapter"
      defaulting to None. Fails where `int` of the page raises. */
  function Slim(rec: Record, fields: seq<string>): Result<Record, string> {
    var m := Pick(rec, fields);
    var text := if "text" in m then m["text"] else VStr("");
    var page := if "page" in m then m["page"] else VInt(-1);
    var chapter := if "chapter" in m then m["chapter"] else VNone;
    match PageNumber(page)
    case None => Failure("int() of the page field failed")
    case Some(p) => Success(m["text" := text]["page" := VInt(p)]["chapter" := chapter])
  }

  /** Slims each selected hit in order; the first failure ends the search. */
  function SlimAll(selected: seq<Record>, fields: seq<string>): Result<seq<Record>, string> {
    if selected == [] then Success([])
    else
      match SlimAll(selected[..|selected| - 1], fields)
      case Failure(e) => Failure(e)
      case Success(out) =>
        match Slim(selected[|selected| - 1], fields)
        case Failure(e) => Failure(e)
        case Success(s) => Success(out + [s])
  }

  /** The MMR inputs for the deduplicated hits. */
  function ScoringOf(index: Index, uniq: seq<Record>, lambda: real): (sc: Mmr.Scoring)
    ensures sc.Valid() && sc.N() == |uniq|
  {
    Mmr.Scoring(
      seq(|uniq|, i requires 0 <= i < |uniq| => index.relevance(uniq[i])),
      seq(|uniq|, i requires 0 <= i < |uniq| =>
        seq(|uniq|, j requires 0 <= j < |uniq| => index.similarity(uniq[i], uniq[j]))),
      lambda)
  }

  /** The hits MMR keeps, in pick order. */
  function Selected(index: Index, uniq: seq<Record>, k: int, lambda: real): seq<Record> {
    var keep := ScoringOf(index, uniq, lambda).Select(k);
    seq(|keep|, t requires 0 <= t < |keep| => uniq[keep[t]])
  }

  /** What `search` returns. */
  function SearchResult(index: Index, k: int, o: Options): Result<seq<Record>, string> {
    var p := Resolve(k, o);
    var hits := index.nearest(Filter(o.filter), p.fetchK);
    if hits == [] then Success([])
    else
      var uniq := Dedupe(hits, p.dedupeOn);
      SlimAll(Selected(index, uniq, k, o.lambda), p.includeFields)
  }

  /** `if where:` — an empty filter string queries exactly as no filter. */
  lemma EmptyWhereIsNoWhere(index: Index, k: int, o: Options)
    ensures SearchResult(index, k, o.(filter := Some(""))) == SearchResult(index, k, o.(filter := None))
  {
    assert Resolve(k, o.(filter := Some(""))) == Resolve(k, o.(filter := None));
  }

  /** Every MMR score the index can produce beats the round's initial best
      score (which cosine similarities of normalised vectors always do). */
  ghost predicate ScoresAboveSentinel(index: Index, lambda: real) {
    && (forall a: Record :: lambda * index.relevance(a) > Mmr.Sentinel)
    && (forall a: Record, b: Record :: lambda * index.relevance(a) - (1.0 - lambda) * index.similarity(a, b) > Mmr.Sentinel)
  }

  lemma ScoringAboveSentinel(index: Index, uniq: seq<Record>, lambda: real)
    requires ScoresAboveSentinel(index, lambda)
    ensures ScoringOf(index, uniq, lambda).AboveSentinel()
  {
    var sc := ScoringOf(index, uniq, lambda);
    forall i, j | 0 <= i < |uniq| && 0 <= j < |uniq|
      ensures sc.rel[i] == index.relevance(uniq[i])
      ensures sc.sim[i][j] == index.similarity(uniq[i], uniq[j])
    {
    }
    EntriesAboveSentinel(sc, index, uniq);
  }

  /** Scores built from the index's relevance and similarity inherit its
      bound. */
  lemma EntriesAboveSentinel(sc: Mmr.Scoring, index: Index, uniq: seq<Record>)
    requires sc.Valid() && sc.N() == |uniq| && ScoresAboveSentinel(index, sc.lambda)
    requires forall i, j :: 0 <= i < |uniq| && 0 <= j < |uniq| ==>
      sc.rel[i] == index.relevance(uniq[i]) && sc.sim[i][j] == index.similarity(uniq[i], uniq[j])
    ensures sc.AboveSentinel()
  {
    forall i, j | 0 <= i < sc.N() && 0 <= j < sc.N()
      ensures sc.lambda * sc.rel[i] - (1.0 - sc.lambda) * sc.sim[i][j] > Mmr.Sentinel
    {
      PairAboveSentinel(index, sc.lambda, uniq[i], uniq[j]);
    }
    forall i | 0 <= i < sc.N()
      ensures sc.lambda * sc.rel[i] > Mmr.Sentinel
    {
      PairAboveSentinel(index, sc.lambda, uniq[i], uniq[i]);
    }
  }

  lemma PairAboveSentinel(index: Index, lambda: real, a: Record, b: Record)
    requires ScoresAboveSentinel(index, lambda)
    ensures lambda * index.relevance(a) > Mmr.Sentinel
    ensures lambda * index.relevance(a) - (1.0 - lambda) * index.similarity(a, b) > Mmr.Sentinel
  {
  }

  /** Once a hit fails to slim, the later hits do not change the outcome. */
  lemma {:induction false} SlimAllStopsAtFailure(selected: seq<Record>, fields: seq<string>, t: nat)
    requires t <= |selected| && SlimAll(selected[..t], fields).Failure?
    ensures SlimAll(selected, fields) == SlimAll(selected[..t], fields)
  {
    if t < |selected| {
      var init := selected[..|selected| - 1];
      assert init[..t] == selected[..t];
      SlimAllStopsAtFailure(init, fields, t);
    } else {
      assert selected[..t] == selected;
    }
  }

  /** The slimming loop of `search`. */
  method SlimEach(selected: seq<Record>, fields: seq<string>) returns (r: Result<seq<Record>, string>)
    ensures r == SlimAll(selected, fields)
  {
    var out: seq<Record> := [];
    var t := 0;
    while t < |selected|
      invariant 0 <= t <= |selected|
      invariant SlimAll(selected[..t], fields) == Success(out)
    {
      assert selected[..t + 1][..t] == selected[..t];
      var slim := Slim(selected[t], fields);
      if slim.Failure? {
        SlimAllStopsAtFailure(selected, fields, t + 1);
        return Failure(slim.error);
      }
      out := out + [slim.value];
      t := t + 1;
    }
    assert selected[..t] == selected;
    r := Success(out);
  }

  /** RAGStore.search. */
  method Search(index: Index, k: int, o: Options) returns (r: Result<seq<Record>, string>)
    requires ScoresAboveSentinel(index, o.lambda)
    ensures r == SearchResult(index, k, o)
  {
    var p := Resolve(k, o);
    var hits := index.nearest(Filter(o.filter), p.fetchK);
    if hits == [] {
      return Success([]);
    }
    var uniq := DedupeHits(hits, p.dedupeOn);
    var sc := ScoringOf(index, uniq, o.lambda);
    ScoringAboveSentinel(index, uniq, o.lambda);
    var keep := Mmr.Mmr(sc.rel, sc.sim, k, o.lambda);
    var selected := seq(|keep|, t requires 0 <= t < |keep| => uniq[keep[t]]);
    assert selected == Selected(index, uniq, k, o.lambda);
    r := SlimEach(selected, p.includeFields);
  }

  // ---------- properties ----------

  /** No two records share a signature. */
  predicate DistinctSigs(recs: seq<Record>, fields: seq<string>) {
    forall a, b :: 0 <= a < b < |recs| ==> Sig(recs[a], fields) != Sig(recs[b], fields)
  }

  /** Deduplication keeps one hit per signature: the kept hits come from the
      input, have pairwise different signatures and cover every signature. */
  lemma DedupeKeepsOnePerSig(hits: seq<Record>, fields: seq<string>)
    ensures var u := Dedupe(hits, fields);
      && |u| <= |hits|
      && (forall t :: 0 <= t < |u| ==> u[t] in hits)
      && DistinctSigs(u, fields)
      && Sigs(u, fields) == Sigs(hits, fields)
  {
    DedupeFromHits(hits, fields);
    DedupeSigs(hits, fields);
  }

  lemma {:induction false} DedupeFromHits(hits: seq<Record>, fields: seq<string>)
    ensures var u := Dedupe(hits, fields);
      |u| <= |hits| && forall t :: 0 <= t < |u| ==> u[t] in hits
  {
    if hits != [] {
      var last := |hits| - 1;
      var init := hits[..last];
      var u0 := Dedupe(init, fields);
      DedupeFromHits(init, fields);
      var u := Dedupe(hits, fields);
      assert hits == init + [hits[last]];
      forall t | 0 <= t < |u|
        ensures u[t] in hits
      {
        if t < |u0| {
          assert u[t] == u0[t];
        }
      }
    }
  }

  lemma {:induction false} DedupeSigs(hits: seq<Record>, fields: seq<string>)
    ensures var u := Dedupe(hits, fields);
      DistinctSigs(u, fields) && Sigs(u, fields) == Sigs(hits, fields)
  {
    if hits != [] {
      var last := |hits| - 1;
      var init := hits[..last];
      var u0 := Dedupe(init, fields);
      DedupeSigs(init, fields);
      var u := Dedupe(hits, fields);
      assert hits == init + [hits[last]];
      SigsAppend(init, hits[last], fields);
      if FirstOfSig(hits, fields, last) {
        assert u == u0 + [hits[last]];
        var s := Sig(hits[last], fields);
        forall j | 0 <= j < |init|
          ensures Sig(init[j], fields) != s
        {
          assert init[j] == hits[j];
        }
        assert s !in Sigs(init, fields);
        FreshSigKeepsDistinct(u0, hits[last], fields);
      } else {
        assert u == u0;
        var j :| 0 <= j < last && Sig(hits[j], fields) == Sig(hits[last], fields);
        assert Sig(init[j], fields) in Sigs(init, fields);
      }
    }
  }

  lemma FreshSigKeepsDistinct(u: seq<Record>, h: Record, fields: seq<string>)
    requires DistinctSigs(u, fields) && Sig(h, fields) !in Sigs(u, fields)
    ensures DistinctSigs(u + [h], fields)
    ensures Sigs(u + [h], fields) == Sigs(u, fields) + {Sig(h, fields)}
  {
    var both := u + [h];
    SigsAppend(u, h, fields);
    forall a, b | 0 <= a < b < |both|
      ensures Sig(both[a], fields) != Sig(both[b], fields)
    {
      assert both[a] == u[a];
      if b < |u| {
        assert both[b] == u[b];
      } else {
        assert Sig(u[a], fields) in Sigs(u, fields);
      }
    }
  }

  /** Hits with pairwise different signatures pass through unchanged, so
      deduplicating twice is deduplicating once. */
  lemma {:induction false} DedupeOfDistinct(hits: seq<Record>, fields: seq<string>)
    requires DistinctSigs(hits, fields)
    ensures Dedupe(hits, fields) == hits
  {
    if hits != [] {
      var last := |hits| - 1;
      assert DistinctSigs(hits[..last], fields);
      DedupeOfDistinct(hits[..last], fields);
      assert FirstOfSig(hits, fields, last);
      assert hits[..last] + [hits[last]] == hits;
    }
  }

  lemma DedupeIdempotent(hits: seq<Record>, fields: seq<string>)
    ensures Dedupe(Dedupe(hits, fields), fields) == Dedupe(hits, fields)
  {
    DedupeKeepsOnePerSig(hits, fields);
    DedupeOfDistinct(Dedupe(hits, fields), fields);
  }

  /** A search whose vector query finds nothing returns no records. */
  lemma NoHitsNoResults(index: Index, k: int, o: Options)
    requires index.nearest(Filter(o.filter), Resolve(k, o).fetchK) == []
    ensures SearchResult(index, k, o) == Success([])
  {
  }

  /** A successful slimming gives one record per hit, each that hit's slimmed form. */
  lemma {:induction false} SlimAllShape(selected: seq<Record>, fields: seq<string>)
    requires SlimAll(selected, fields).Success?
    ensures var out := SlimAll(selected, fields).value;
      |out| == |selected| && forall t :: 0 <= t < |out| ==> Slim(selected[t], fields) == Success(out[t])
  {
    if selected != [] {
      var init := selected[..|selected| - 1];
      SlimAllShape(init, fields);
      var out := SlimAll(selected, fields).value;
      forall t | 0 <= t < |out|
        ensures Slim(selected[t], fields) == Success(out[t])
      {
        if t < |init| {
          assert selected[t] == init[t];
        }
      }
    }
  }

  /** A slimmed record always has "text", "page" and "chapter", its page is an
      int, and its other keys are requested fields of the hit with their
      values unchanged. */
  lemma SlimmedRecord(rec: Record, fields: seq<string>)
    requires Slim(rec, fields).Success?
    ensures var m := Slim(rec, fields).value;
      && "text" in m && "page" in m && "chapter" in m && m["page"].VInt?
      && m["text"] == (if "text" in rec && "text" in fields then rec["text"] else VStr(""))
      && m["chapter"] == (if "chapter" in rec && "chapter" in fields then rec["chapter"] else VNone)
      && (forall f :: f in m && f != "text" && f != "page" && f != "chapter" ==>
            f in fields && f in rec && m[f] == rec[f])
      && (forall f :: f in fields && f in rec ==> f in m)
  {
  }

  /** The page of a slimmed record: the hit's int page, or -1 without one. */
  lemma SlimmedPage(rec: Record, fields: seq<string>)
    ensures "page" !in rec || "page" !in fields ==>
      Slim(rec, fields).Success? && Slim(rec, fields).value["page"] == VInt(-1)
    ensures "page" in rec && "page" in fields && rec["page"].VInt? ==>
      Slim(rec, fields).Success? && Slim(rec, fields).value["page"] == rec["page"]
    ensures "page" in rec && "page" in fields && rec["page"].VNone? ==> Slim(rec, fields).Failure?
  {
  }

  /** The MMR picks of hits with distinct signatures have distinct signatures. */
  lemma SelectedDistinctSigs(index: Index, uniq: seq<Record>, k: int, lambda: real, fields: seq<string>)
    requires DistinctSigs(uniq, fields)
    ensures DistinctSigs(Selected(index, uniq, k, lambda), fields)
  {
    var keep := ScoringOf(index, uniq, lambda).Select(k);
    var sel := Selected(index, uniq, k, lambda);
    forall a, b | 0 <= a < b < |sel|
      ensures Sig(sel[a], fields) != Sig(sel[b], fields)
    {
      assert keep[a] != keep[b];
      if keep[a] < keep[b] {
        assert Sig(uniq[keep[a]], fields) != Sig(uniq[keep[b]], fields);
      } else {
        assert Sig(uniq[keep[b]], fields) != Sig(uniq[keep[a]], fields);
      }
    }
  }

  /** A successful search returns the slimmed forms of found hits, no two of
      the same signature, and max(0, min(k, ceil(u / 2))) of them for the `u`
      distinct signatures found. */
  lemma SearchShape(index: Index, k: int, o: Options) returns (selected: seq<Record>)
    requires SearchResult(index, k, o).Success?
    ensures var p := Resolve(k, o);
      var hits := index.nearest(Filter(o.filter), p.fetchK);
      var out := SearchResult(index, k, o).value;
      && |out| == |selected| == Mmr.Max(0, Mmr.Min(k, (|Sigs(hits, p.dedupeOn)| + 1) / 2))
      && (forall t :: 0 <= t < |selected| ==> selected[t] in hits)
      && DistinctSigs(selected, p.dedupeOn)
      && (forall t :: 0 <= t < |out| ==> Slim(selected[t], p.includeFields) == Success(out[t]))
  {
    var p := Resolve(k, o);
    var hits := index.nearest(Filter(o.filter), p.fetchK);
    if hits == [] {
      selected := [];
      assert Sigs(hits, p.dedupeOn) == {};
    } else {
      var uniq := Dedupe(hits, p.dedupeOn);
      DedupeKeepsOnePerSig(hits, p.dedupeOn);
      selected := Selected(index, uniq, k, o.lambda);
      var sc := ScoringOf(index, uniq, o.lambda);
      Mmr.SelectLength(sc, k);
      DistinctSigsCount(uniq, p.dedupeOn);
      SelectedDistinctSigs(index, uniq, k, o.lambda, p.dedupeOn);
      SlimAllShape(selected, p.includeFields);
    }
  }

  /** Records with pairwise different signatures have as many signatures as records. */
  lemma {:induction false} DistinctSigsCount(recs: seq<Record>, fields: seq<string>)
    requires DistinctSigs(recs, fields)
    ensures |Sigs(recs, fields)| == |recs|
  {
    if recs != [] {
      var init := recs[..|recs| - 1];
      var last := recs[|recs| - 1];
      assert DistinctSigs(init, fields);
      DistinctSigsCount(init, fields);
      assert init + [last] == recs;
      SigsAppend(init, last, fields);
      assert Sig(last, fields) !in Sigs(init, fields);
    }
  }
}
