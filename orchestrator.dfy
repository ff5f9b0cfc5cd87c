/**
  Answer grounding (apps/agent/orchestrator.py): keyword intent routing, the
  retrieval context with its page list, the citation suffix, and the message
  lists `answer` sends to the language model. The language model, the
  nutrition lookup, the persona prompt and the vector store are given as
  `Services`; their own behaviour is not part of this model.
*/
module Orchestrator {
  import opened Wrappers
  import opened Text
  import Store

  // ---------- intent detection ----------

  datatype Intent = Nutrition | Theory | General

  const NutritionHints: seq<string> := [
    "macro", "macros", "calorie", "calories", "protein", "carb", "carbs", "fat", "fats",
    "nutrition", "kcal", "grams", "serving", "meal", "bowl"]

  const TheoryHints: seq<string> := [
    "mrv", "mev", "mv", "mav", "sra", "periodization", "fatigue", "overload", "specificity", "variation",
    "meso", "mesocycle", "microcycle", "macrocycle", "volume landmarks", "autoregul", "rpe",
    "technique", "bench", "squat", "deadlift", "chapter", "page"]

  /** The units the number-and-unit pattern accepts after a number. */
  const Units: seq<string> := ["g", "grams", "kg", "kcal", "calorie", "calories"]

  /** The upper-case acronyms searched for as whole words in the original text. */
  const Acronyms: seq<string> := ["MRV", "MEV", "MV"]

  /** Some hint occurs in `s` as a substring. */
  predicate AnyHint(s: string, hints: seq<string>) {
    exists h | 0 <= h < |hints| :: Contains(s, hints[h])
  }

  predicate WordAt(s: string, q: int) {
    0 <= q < |s| && IsWordChar(s[q])
  }

  /** The regex `\b` at position `p`: a word character on exactly one side. */
  predicate Boundary(s: string, p: int) {
    WordAt(s, p - 1) != WordAt(s, p)
  }

  /** `s[i..j]` is digits, `s[j..k]` whitespace and unit `u` starts at `k`,
      with word boundaries before the number and after the unit. */
  predicate NumberUnitAt(s: string, i: nat, j: nat, k: nat, u: nat)
    requires i < j <= k <= |s| && u < |Units|
  {
    var e := k + |Units[u]|;
    e <= |s| && Boundary(s, i) && AllDigits(s[i..j]) && Blank(s[j..k])
      && s[k..e] == Units[u] && Boundary(s, e)
  }

  /** `re.search(r"\b\d+\s*(g|grams|kg|kcal|calories?)\b", s)` finds a match. */
  predicate NumberWithUnit(s: string) {
    exists i, j, k, u | 0 <= i < j <= k <= |s| && 0 <= u < |Units| :: NumberUnitAt(s, i, j, k, u)
  }

  predicate AcronymAt(s: string, i: nat, a: nat)
    requires a < |Acronyms|
  {
    var e := i + |Acronyms[a]|;
    e <= |s| && s[i..e] == Acronyms[a] && Boundary(s, i) && Boundary(s, e)
  }

  /** `re.search(r"\b(MRV|MEV|MV)\b", s)` finds a match. */
  predicate HasAcronym(s: string) {
    exists i, a | 0 <= i <= |s| && 0 <= a < |Acronyms| :: AcronymAt(s, i, a)
  }

  /** _detect_intent as written: `None` is lower-cased as "", but the acronym
      search then receives `None` itself and raises (result `None`). */
  function DetectIntentAsWritten(text: Option<string>): Option<Intent> {
    var tl := Lower(text.GetOr(""));
    if AnyHint(tl, NutritionHints) then Some(Nutrition)
    else if NumberWithUnit(tl) then Some(Nutrition)
    else if AnyHint(tl, TheoryHints) then Some(Theory)
    else if text.None? then None
    else if HasAcronym(text.value) then Some(Theory)
    else Some(General)
  }

  /** _detect_intent with `None` read as "" throughout. */
  function DetectIntent(text: Option<string>): Intent {
    var t := text.GetOr("");
    var tl := Lower(t);
    if AnyHint(tl, NutritionHints) || NumberWithUnit(tl) then Nutrition
    else if AnyHint(tl, TheoryHints) || HasAcronym(t) then Theory
    else General
  }

  lemma {:induction false} ContainsAt(s: string, sub: string, i: nat)
    requires i + |sub| <= |s| && s[i..i + |sub|] == sub
    ensures Contains(s, sub)
  {
    if i > 0 {
      assert s[1..][i - 1..i - 1 + |sub|] == sub;
      ContainsAt(s[1..], sub, i - 1);
    } else {
      assert s[..|sub|] == sub;
    }
  }

  lemma {:induction false} ContainsPrefix(s: string, sub: string, pre: string)
    requires Contains(s, sub) && pre <= sub
    ensures Contains(s, pre)
    decreases |s|
  {
    if !(sub <= s) {
      ContainsPrefix(s[1..], sub, pre);
    }
  }

  lemma LowerSlice(s: string, i: nat, e: nat)
    requires i <= e <= |s|
    ensures Lower(s)[i..e] == Lower(s[i..e])
  {
  }

  /** A whole-word MRV, MEV or MV also puts "mrv", "mev" or "mv" in the
      lower-cased text, so the acronym search never decides the route. */
  lemma AcronymImpliesTheoryHint(t: string)
    requires HasAcronym(t)
    ensures AnyHint(Lower(t), TheoryHints)
  {
    var i, a :| 0 <= i <= |t| && 0 <= a < |Acronyms| && AcronymAt(t, i, a);
    var e := i + |Acronyms[a]|;
    LowerSlice(t, i, e);
    var h := a;
    assert Lower(Acronyms[a]) == TheoryHints[h];
    ContainsAt(Lower(t), TheoryHints[h], i);
  }

  /** Routing reads the hint lists only: nutrition hints or a number with a
      unit first, then theory hints, else general chat. */
  lemma IntentByHints(text: Option<string>)
    ensures var tl := Lower(text.GetOr(""));
      DetectIntent(text) == (if AnyHint(tl, NutritionHints) || NumberWithUnit(tl) then Nutrition
                             else if AnyHint(tl, TheoryHints) then Theory
                             else General)
  {
    if HasAcronym(text.GetOr("")) {
      AcronymImpliesTheoryHint(text.GetOr(""));
    }
  }

  /** Nutrition is checked first and "fatigue" contains "fat": a question about
      fatigue is routed to the nutrition lookup. */
  lemma FatigueRoutesToNutrition(text: Option<string>)
    requires Contains(Lower(text.GetOr("")), "fatigue")
    ensures DetectIntent(text) == Nutrition
  {
    ContainsPrefix(Lower(text.GetOr("")), "fatigue", "fat");
    assert Contains(Lower(text.GetOr("")), NutritionHints[7]);
  }

  /** The two versions agree on every string; only `None` tells them apart. */
  lemma DetectIntentOnStrings(t: string)
    ensures DetectIntentAsWritten(Some(t)) == Some(DetectIntent(Some(t)))
  {
  }

  /** `_detect_intent(None)` raises, where "" is routed to general chat. */
  lemma DetectIntentOfNone()
    ensures DetectIntentAsWritten(None) == None
    ensures DetectIntent(None) == General
  {
    var tl := Lower("");
    assert tl == "";
    forall h | 0 <= h < |NutritionHints| ensures !Contains(tl, NutritionHints[h]) {
    }
    forall h | 0 <= h < |TheoryHints| ensures !Contains(tl, TheoryHints[h]) {
    }
    assert !HasAcronym("") by {
      forall i, a | 0 <= i <= 0 && 0 <= a < |Acronyms| ensures !AcronymAt("", i, a) {
        assert |Acronyms[a]| >= 2;
      }
    }
  }

  // ---------- retrieval context ----------

  /** `(c.get("text") or "").strip()`; `None` where `strip` would raise. */
  function TextField(c: Store.Record): Option<string> {
    if "text" !in c then Some("")
    else match c["text"]
      case VStr(s) => Some(Strip(s))
      case VNone => Some("")
      case VInt(i) => if i == 0 then Some("") else None
  }

  /** The snippet of a chunk text: whole up to 400 characters, else the first
      380 characters right-stripped with " …" appended. */
  function Snippet(txt: string): (r: string)
    ensures |r| <= 400
    ensures |txt| <= 400 ==> r == txt
    ensures |txt| > 400 ==> 2 <= |r| <= 382 && r[|r| - 2..] == " \U{2026}"
    ensures |txt| > 400 ==> var kept := r[..|r| - 2];
      kept <= txt[..380] && Blank(txt[|kept|..380]) && (kept == [] || !IsSpace(kept[|kept| - 1]))
  {
    if |txt| <= 400 then txt else RStrip(txt[..380]) + " \U{2026}"
  }

  /** `int(c.get("page", -1))`; `None` where `int` raises. */
  function PageOf(c: Store.Record): Option<int> {
    Store.PageNumber(if "page" in c then c["page"] else Store.VInt(-1))
  }

  /** Reading the chunk's page and text does not raise. */
  predicate Readable(c: Store.Record) {
    PageOf(c).Some? && TextField(c).Some?
  }

  /** Some text is left after stripping the chunk's text. */
  predicate HasText(c: Store.Record) {
    TextField(c).Some? && TextField(c).value != ""
  }

  /** The positions holding `true`, in order. */
  function Positions(flags: seq<bool>): seq<nat> {
    if flags == [] then []
    else Positions(flags[..|flags| - 1]) + (if flags[|flags| - 1] then [|flags| - 1] else [])
  }

  /** The positions of the records with text, in order. */
  function TextIndices(records: seq<Store.Record>): seq<nat> {
    Positions(seq(|records|, i requires 0 <= i < |records| => HasText(records[i])))
  }

  /** The context line of a readable chunk: its page marker, then the snippet
      of its stripped text. */
  function LineOf(c: Store.Record): string
    requires Readable(c)
  {
    "- (p." + IntToString(PageOf(c).value) + ") " + Snippet(TextField(c).value)
  }

  /** `line` is the context line of page `page`: the page marker, then a
      snippet of 1 to 400 characters. */
  predicate LineOfPage(line: string, page: int) {
    var marker := "- (p." + IntToString(page) + ") ";
    marker <= line && 1 <= |line| - |marker| <= 400
  }

  /** What one chunk adds: nothing for an empty text, else its line and
      page; `Failure` where reading its page or text raises. */
  function ChunkEntry(c: Store.Record): (r: Result<Option<(string, int)>, string>)
    ensures r.Success? <==> Readable(c)
    ensures r.Success? ==> (r.value.Some? <==> HasText(c))
    ensures r.Success? && r.value.Some? ==>
      && r.value.value == (LineOf(c), PageOf(c).value)
      && LineOfPage(r.value.value.0, r.value.value.1)
  {
    match PageOf(c)
    case None => Failure("int() of the page field failed")
    case Some(pg) =>
      match TextField(c)
      case None => Failure("the text field has no strip()")
      case Some(txt) =>
        if txt == "" then Success(None)
        else
          var line := "- (p." + IntToString(pg) + ") " + Snippet(txt);
          assert line == ("- (p." + IntToString(pg) + ") ") + Snippet(txt);
          Success(Some((line, pg)))
  }

  /** The context lines and the page of each kept chunk, up to the first
      chunk whose page or text cannot be read. */
  function Collect(chunks: seq<Store.Record>): Result<(seq<string>, seq<int>), string> {
    if chunks == [] then Success(([], []))
    else
      match Collect(chunks[..|chunks| - 1])
      case Failure(e) => Failure(e)
      case Success(acc) =>
        match ChunkEntry(chunks[|chunks| - 1])
        case Failure(e) => Failure(e)
        case Success(None) => Success(acc)
        case Success(Some(entry)) => Success((acc.0 + [entry.0], acc.1 + [entry.1]))
  }

  predicate Increasing(s: seq<int>) {
    forall a, b :: 0 <= a < b < |s| ==> s[a] < s[b]
  }

  function InsertSorted(s: seq<int>, x: int): seq<int> {
    if s == [] then [x]
    else if x < s[0] then [x] + s
    else if x == s[0] then s
    else [s[0]] + InsertSorted(s[1..], x)
  }

  /** `sorted({p for p in pages if p >= 0})`. */
  function SortedPages(pages: seq<int>): seq<int> {
    if pages == [] then []
    else
      var r := SortedPages(pages[..|pages| - 1]);
      var p := pages[|pages| - 1];
      if p >= 0 then InsertSorted(r, p) else r
  }

  const ContextHeader: string := "RAG CONTEXT:\n"

  /** What _build_rag_context returns for the chunks the store found. */
  function RagContext(chunks: seq<Store.Record>): Result<(string, seq<int>), string> {
    if chunks == [] then Success(("", []))
    else
      match Collect(chunks)
      case Failure(e) => Failure(e)
      case Success(acc) => Success((ContextHeader + JoinWith("\n", acc.0), SortedPages(acc.1)))
  }

  lemma {:induction false} InsertSortedProps(s: seq<int>, x: int)
    requires Increasing(s)
    ensures Increasing(InsertSorted(s, x))
    ensures forall y :: y in InsertSorted(s, x) <==> y in s || y == x
  {
    if s != [] && x > s[0] {
      InsertSortedProps(s[1..], x);
      var r := InsertSorted(s[1..], x);
      assert InsertSorted(s, x) == [s[0]] + r;
      assert forall y :: y in s <==> y == s[0] || y in s[1..];
      forall b | 0 < b < |r| + 1
        ensures s[0] < ([s[0]] + r)[b]
      {
        assert ([s[0]] + r)[b] == r[b - 1];
        assert r[b - 1] in s[1..] || r[b - 1] == x;
      }
    }
  }

  /** The page list is strictly increasing and holds exactly the
      non-negative pages. */
  lemma {:induction false} SortedPagesProps(pages: seq<int>)
    ensures Increasing(SortedPages(pages))
    ensures forall p :: p in SortedPages(pages) <==> p in pages && p >= 0
  {
    if pages != [] {
      var init := pages[..|pages| - 1];
      SortedPagesProps(init);
      InsertSortedProps(SortedPages(init), pages[|pages| - 1]);
      assert pages == init + [pages[|pages| - 1]];
    }
  }

  /** The positions are increasing, in range, and are exactly those
      holding `true`. */
  lemma {:induction false} PositionsProps(flags: seq<bool>)
    ensures var ks := Positions(flags);
      && |ks| <= |flags|
      && (forall a, b :: 0 <= a < b < |ks| ==> ks[a] < ks[b])
      && (forall i :: 0 <= i < |ks| ==> ks[i] < |flags| && flags[ks[i]])
      && (forall t :: 0 <= t < |flags| && flags[t] ==> t in ks)
  {
    if flags != [] {
      var n := |flags|;
      var init := flags[..n - 1];
      PositionsProps(init);
      var ks0 := Positions(init);
      assert forall i :: 0 <= i < |ks0| ==> ks0[i] < n - 1 && flags[ks0[i]] == init[ks0[i]];
      assert forall t :: 0 <= t < n - 1 ==> flags[t] == init[t];
    }
  }

  /** The positions with text are increasing, in range, and are exactly
      the records whose stripped text is non-empty. */
  lemma TextIndicesProps(records: seq<Store.Record>)
    ensures var ks := TextIndices(records);
      && |ks| <= |records|
      && (forall a, b :: 0 <= a < b < |ks| ==> ks[a] < ks[b])
      && (forall i :: 0 <= i < |ks| ==> ks[i] < |records| && HasText(records[ks[i]]))
      && (forall t :: 0 <= t < |records| && HasText(records[t]) ==> t in ks)
  {
    var flags := seq(|records|, i requires 0 <= i < |records| => HasText(records[i]));
    PositionsProps(flags);
  }

  /** The chunks collect without error exactly when the page and text of
      every one of them can be read. */
  lemma {:induction false} CollectSucceeds(chunks: seq<Store.Record>)
    ensures Collect(chunks).Success? <==> forall t :: 0 <= t < |chunks| ==> Readable(chunks[t])
  {
    if chunks != [] {
      var n := |chunks|;
      var init := chunks[..n - 1];
      CollectSucceeds(init);
      assert forall t :: 0 <= t < n - 1 ==> init[t] == chunks[t];
      if Collect(chunks).Success? {
        assert Collect(init).Success? && Readable(chunks[n - 1]);
      }
    }
  }

  /** `acc` holds, position by position, the line and the page of each
      chunk with text, in chunk order. */
  predicate EntriesOf(chunks: seq<Store.Record>, acc: (seq<string>, seq<int>))
    requires forall t :: 0 <= t < |chunks| ==> Readable(chunks[t])
  {
    var ks := TextIndices(chunks);
    && |acc.0| == |ks| && |acc.1| == |ks|
    && forall i :: 0 <= i < |ks| ==>
      ks[i] < |chunks| && acc.0[i] == LineOf(chunks[ks[i]]) && acc.1[i] == PageOf(chunks[ks[i]]).value
  }

  /** The collected lines and pages are those of the chunks with text, one
      each, in chunk order; every line belongs to the page beside it. */
  lemma {:induction false} CollectProps(chunks: seq<Store.Record>)
    requires Collect(chunks).Success?
    ensures forall t :: 0 <= t < |chunks| ==> Readable(chunks[t])
    ensures EntriesOf(chunks, Collect(chunks).value)
    ensures var acc := Collect(chunks).value;
      forall t :: 0 <= t < |acc.0| ==> LineOfPage(acc.0[t], acc.1[t])
  {
    CollectSucceeds(chunks);
    if chunks != [] {
      var init := chunks[..|chunks| - 1];
      var c := chunks[|chunks| - 1];
      CollectProps(init);
      assert ChunkEntry(c).Success?;
      EntriesSnoc(chunks, Collect(init).value, Collect(chunks).value);
    }
    var acc := Collect(chunks).value;
    var ks := TextIndices(chunks);
    forall t | 0 <= t < |acc.0|
      ensures LineOfPage(acc.0[t], acc.1[t])
    {
      TextIndicesProps(chunks);
      assert ChunkEntry(chunks[ks[t]]).Success?;
    }
  }

  lemma TextIndicesSnoc(records: seq<Store.Record>)
    requires records != []
    ensures var n := |records|;
      TextIndices(records) == TextIndices(records[..n - 1]) + (if HasText(records[n - 1]) then [n - 1] else [])
  {
    var n := |records|;
    var flags := seq(n, i requires 0 <= i < n => HasText(records[i]));
    var init := records[..n - 1];
    assert flags[..n - 1] == seq(n - 1, i requires 0 <= i < n - 1 => HasText(init[i]));
  }

  /** One more chunk extends the lines and pages by its own entry. */
  lemma EntriesSnoc(chunks: seq<Store.Record>, acc0: (seq<string>, seq<int>), acc: (seq<string>, seq<int>))
    requires chunks != []
    requires forall t :: 0 <= t < |chunks| ==> Readable(chunks[t])
    requires EntriesOf(chunks[..|chunks| - 1], acc0)
    requires var c := chunks[|chunks| - 1];
      acc == if HasText(c) then (acc0.0 + [LineOf(c)], acc0.1 + [PageOf(c).value]) else acc0
    ensures EntriesOf(chunks, acc)
  {
    var n := |chunks|;
    var init := chunks[..n - 1];
    var ks0 := TextIndices(init);
    TextIndicesSnoc(chunks);
    var ks := TextIndices(chunks);
    var last := HasText(chunks[n - 1]);
    assert |ks| == |ks0| + (if last then 1 else 0) && |acc.0| == |ks| && |acc.1| == |ks|;
    forall i | 0 <= i < |ks|
      ensures ks[i] < n && acc.0[i] == LineOf(chunks[ks[i]]) && acc.1[i] == PageOf(chunks[ks[i]]).value
    {
      if i < |ks0| {
        assert ks[i] == ks0[i] && chunks[ks0[i]] == init[ks0[i]];
        assert acc.0[i] == acc0.0[i] && acc.1[i] == acc0.1[i];
      } else {
        assert ks[i] == n - 1 && acc.0[i] == LineOf(chunks[n - 1]) && acc.1[i] == PageOf(chunks[n - 1]).value;
      }
    }
  }

  /** No chunks give an empty context and no pages; otherwise the context is
      the header followed by the lines of the chunks with text, joined by
      newlines, and the pages are strictly increasing and are exactly the
      non-negative pages of those chunks. */
  lemma RagContextProps(chunks: seq<Store.Record>)
    requires RagContext(chunks).Success?
    ensures var (ctx, pages) := RagContext(chunks).value;
      && (chunks == [] ==> ctx == "" && pages == [])
      && Increasing(pages) && (forall t :: 0 <= t < |pages| ==> pages[t] >= 0)
    ensures chunks != [] ==>
      && (forall t :: 0 <= t < |chunks| ==> Readable(chunks[t]))
      && EntriesOf(chunks, Collect(chunks).value)
      && RagContext(chunks).value.0 == ContextHeader + JoinWith("\n", Collect(chunks).value.0)
      && forall p :: p in RagContext(chunks).value.1 <==> p >= 0 && p in Collect(chunks).value.1
  {
    if chunks != [] {
      CollectProps(chunks);
      var pages := SortedPages(Collect(chunks).value.1);
      SortedPagesProps(Collect(chunks).value.1);
      forall t | 0 <= t < |pages|
        ensures pages[t] >= 0
      {
        assert pages[t] in pages;
      }
    }
  }

  /** The chunk loop of _build_rag_context. */
  method CollectLines(chunks: seq<Store.Record>) returns (r: Result<(seq<string>, seq<int>), string>)
    ensures r == Collect(chunks)
  {
    var lines: seq<string> := [];
    var pages: seq<int> := [];
    var t := 0;
    while t < |chunks|
      invariant 0 <= t <= |chunks|
      invariant Collect(chunks[..t]) == Success((lines, pages))
    {
      var c := chunks[t];
      assert chunks[..t + 1][..t] == chunks[..t];
      var pg := PageOf(c);
      if pg.None? {
        CollectStopsAtFailure(chunks, t + 1);
        return Failure("int() of the page field failed");
      }
      var txt := TextField(c);
      if txt.None? {
        CollectStopsAtFailure(chunks, t + 1);
        return Failure("the text field has no strip()");
      }
      if txt.value != "" {
        var snippet := Snippet(txt.value);
        lines := lines + ["- (p." + IntToString(pg.value) + ") " + snippet];
        pages := pages + [pg.value];
      }
      t := t + 1;
    }
    assert chunks[..t] == chunks;
    r := Success((lines, pages));
  }

  lemma {:induction false} CollectStopsAtFailure(chunks: seq<Store.Record>, t: nat)
    requires t <= |chunks| && Collect(chunks[..t]).Failure?
    ensures Collect(chunks) == Collect(chunks[..t])
  {
    if t < |chunks| {
      var init := chunks[..|chunks| - 1];
      assert init[..t] == chunks[..t];
      CollectStopsAtFailure(init, t);
    } else {
      assert chunks[..t] == chunks;
    }
  }

  // ---------- citations ----------

  /** "(p." then optional whitespace then a digit, at positions `i` and `j`. */
  predicate CitationAt(s: string, i: nat, j: nat)
    requires i + 3 <= j < |s|
  {
    s[i..i + 3] == "(p." && Blank(s[i + 3..j]) && IsDigit(s[j])
  }

  /** `re.search(r"\(p\.\s*\d+", s)` finds a match. */
  predicate HasCitation(s: string) {
    exists i, j | 0 <= i && i + 3 <= j < |s| :: CitationAt(s, i, j)
  }

  predicate EndsSentence(s: string) {
    s != [] && (s[|s| - 1] == '.' || s[|s| - 1] == '!' || s[|s| - 1] == '?')
  }

  /** `", ".join(str(p) for p in pages[:6])`. */
  function Cites(pages: seq<int>): string {
    var shown := if |pages| <= 6 then pages else pages[..6];
    JoinWith(", ", seq(|shown|, t requires 0 <= t < |shown| => IntToString(shown[t])))
  }

  /** _append_citations_if_missing. */
  function AppendCitations(reply: string, pages: seq<int>): string {
    if pages == [] then reply
    else if HasCitation(reply) then reply
    else reply + (if EndsSentence(reply) then "" else ".") + " (p." + Cites(pages) + ")"
  }

  lemma {:induction false} JoinStartsWithFirst(sep: string, parts: seq<string>)
    requires parts != []
    ensures parts[0] <= JoinWith(sep, parts)
  {
  }

  /** The page list of a citation starts with a digit when the first page is non-negative. */
  lemma CitesStartsWithDigit(pages: seq<int>)
    requires pages != [] && pages[0] >= 0
    ensures Cites(pages) != [] && IsDigit(Cites(pages)[0])
  {
    var shown := if |pages| <= 6 then pages else pages[..6];
    var strs := seq(|shown|, t requires 0 <= t < |shown| => IntToString(shown[t]));
    JoinStartsWithFirst(", ", strs);
    assert strs[0] == NatToString(pages[0]);
    assert AllDigits(strs[0]);
  }

  /** A reply with pages ends up carrying a citation when the first page is
      non-negative; the reply itself is kept as a prefix. */
  lemma AppendedCitationFound(reply: string, pages: seq<int>)
    requires pages != [] && pages[0] >= 0
    ensures reply <= AppendCitations(reply, pages)
    ensures HasCitation(AppendCitations(reply, pages))
  {
    if !HasCitation(reply) {
      var cites := Cites(pages);
      CitesStartsWithDigit(pages);
      var head := reply + (if EndsSentence(reply) then "" else ".") + " ";
      var r := head + "(p." + cites + ")";
      assert AppendCitations(reply, pages) == r;
      var i := |head|;
      assert r[i..i + 3] == "(p.";
      assert r[i + 3] == cites[0];
      assert CitationAt(r, i, i + 3);
    }
  }

  /** Appending citations a second time changes nothing when the first page
      is non-negative (as every page of the context is). */
  lemma AppendCitationsIdempotent(reply: string, pages: seq<int>)
    ensures pages == [] || pages[0] >= 0 ==>
      AppendCitations(AppendCitations(reply, pages), pages) == AppendCitations(reply, pages)
  {
    if pages != [] && pages[0] >= 0 {
      AppendedCitationFound(reply, pages);
    }
  }

  /** A reply that already cites a page, or has no pages to cite, is kept. */
  lemma CitedReplyKept(reply: string, pages: seq<int>)
    requires pages == [] || HasCitation(reply)
    ensures AppendCitations(reply, pages) == reply
  {
  }

  // ---------- answer ----------

  datatype Role = System | User | Assistant

  datatype Message = Message(role: Role, content: string)

  /** The values `answer` puts in, or receives in, its metadata. */
  datatype MetaValue = MStr(s: string) | MInt(i: int) | MPages(pages: seq<int>) | MItems(items: seq<Store.Record>) | MOther

  type Meta = map<string, MetaValue>

  /** A store's `search(query, k=k)`; `Failure` where it raises. */
  datatype Searcher = Searcher(search: (string, int) -> Result<seq<Store.Record>, string>)

  /** The parts of the agent outside this model. */
  datatype Services = Services(
    /** persona.SYSTEM_PROMPT. */
    systemPrompt: string,
    /** call_llm(messages, temperature, max_output_tokens): the reply and its metadata. */
    callLlm: (seq<Message>, real, int) -> (string, Meta),
    /** lookup_macros: the food items, or `Failure` for a NutritionixError. */
    lookupMacros: string -> Result<seq<Store.Record>, string>,
    /** summarize_for_speech. */
    summarize: seq<Store.Record> -> string,
    /** What `RAGStore()` returns: the opened store, or `Failure` where the
        table cannot be opened and it raises. */
    defaultStore: Result<Searcher, string>)

  const VoicePolicy: string := "Keep replies to 1\U{2013}3 short sentences for voice."

  const CitationPolicy: string :=
    "When context is supplied below, answer concisely (1\U{2013}3 sentences) "
    + "and include page citations like (p.X). Do not invent citations."

  function FallbackMessages(prompt: string, userText: string): seq<Message> {
    [Message(System, prompt), Message(System, VoicePolicy),
     Message(User, "User asked for macros but the tool failed. Be concise and helpful: " + userText)]
  }

  function TheoryMessages(prompt: string, ctx: string, userText: string): seq<Message> {
    [Message(System, prompt), Message(System, CitationPolicy)]
      + (if ctx != "" then [Message(Assistant, ctx)] else [])
      + [Message(User, Strip(userText))]
  }

  function GeneralMessages(prompt: string, userText: string): seq<Message> {
    [Message(System, prompt), Message(System, VoicePolicy), Message(User, Strip(userText))]
  }

  /** The nutrition route: the tool's summary, or a short model reply when the tool fails. */
  function NutritionAnswer(sv: Services, userText: string): (string, Meta) {
    match sv.lookupMacros(userText)
    case Success(items) =>
      (sv.summarize(items),
       map["route" := MStr("nutrition"), "items_count" := MInt(|items|), "nutrition_items" := MItems(items)])
    case Failure(_) =>
      var (reply, meta) := sv.callLlm(FallbackMessages(sv.systemPrompt, userText), 0.5, 120);
      (reply, meta["route" := MStr("nutrition_fallback")])
  }

  /** The theory route, given what the store's search returned. */
  function TheoryAnswer(sv: Services, found: Result<seq<Store.Record>, string>, userText: string): Result<(string, Meta), string> {
    match found
    case Failure(e) => Failure(e)
    case Success(chunks) =>
      match RagContext(chunks)
      case Failure(e) => Failure(e)
      case Success(cp) =>
        var (reply, meta) := sv.callLlm(TheoryMessages(sv.systemPrompt, cp.0, userText), 0.5, 160);
        Success((AppendCitations(reply, cp.1), meta["route" := MStr("rag")]["pages" := MPages(cp.1)]))
  }

  /** The general route. */
  function GeneralAnswer(sv: Services, userText: string): (string, Meta) {
    var (reply, meta) := sv.callLlm(GeneralMessages(sv.systemPrompt, userText), 0.6, 160);
    (reply, meta["route" := MStr("llm")])
  }

  /** What `answer` returns when `store` is what ensuring the store gives
      the theory route (`Failure` where opening it raised). */
  function AnswerWith(sv: Services, store: Result<Searcher, string>, userText: string): Result<(string, Meta), string> {
    match DetectIntent(Some(userText))
    case Nutrition => Success(NutritionAnswer(sv, userText))
    case Theory =>
      (match store
       case Failure(e) => Failure(e)
       case Success(st) => TheoryAnswer(sv, st.search(userText, 4), userText))
    case General => Success(GeneralAnswer(sv, userText))
  }

  /** The route name `answer` records for an intent. */
  function RouteName(sv: Services, intent: Intent, userText: string): string {
    match intent
    case Nutrition => if sv.lookupMacros(userText).Success? then "nutrition" else "nutrition_fallback"
    case Theory => "rag"
    case General => "llm"
  }

  /** Every answer records its route, which follows the detected intent. */
  lemma AnswerRoute(sv: Services, store: Result<Searcher, string>, userText: string)
    requires AnswerWith(sv, store, userText).Success?
    ensures var meta := AnswerWith(sv, store, userText).value.1;
      "route" in meta && meta["route"] == MStr(RouteName(sv, DetectIntent(Some(userText)), userText))
  {
  }

  /** On the theory route the model sees the persona, the citation policy, the
      context (only when there is one) and the stripped question, in that
      order; a reply with context pages always carries a page citation. */
  lemma TheoryMessagesShape(prompt: string, ctx: string, userText: string)
    ensures var msgs := TheoryMessages(prompt, ctx, userText);
      && msgs[0] == Message(System, prompt) && msgs[1] == Message(System, CitationPolicy)
      && msgs[|msgs| - 1] == Message(User, Strip(userText))
      && (|msgs| == 4 <==> ctx != "") && (ctx != "" ==> msgs[2] == Message(Assistant, ctx))
  {
    var mid := if ctx != "" then [Message(Assistant, ctx)] else [];
    MessagesAround(Message(System, prompt), Message(System, CitationPolicy), mid, Message(User, Strip(userText)));
  }

  lemma MessagesAround(a: Message, b: Message, mid: seq<Message>, z: Message)
    ensures var msgs := [a, b] + mid + [z];
      && |msgs| == 3 + |mid| && msgs[0] == a && msgs[1] == b && msgs[|msgs| - 1] == z
      && (mid != [] ==> msgs[2] == mid[0])
  {
  }

  lemma TheoryRoute(sv: Services, store: Searcher, userText: string)
    requires DetectIntent(Some(userText)) == Theory
    requires store.search(userText, 4).Success?
    requires RagContext(store.search(userText, 4).value).Success?
    ensures var cp := RagContext(store.search(userText, 4).value).value;
      var answer := AnswerWith(sv, Success(store), userText);
      && answer.Success?
      && answer.value.1["pages"] == MPages(cp.1)
      && (cp.1 != [] ==> HasCitation(answer.value.0))
  {
    var chunks := store.search(userText, 4).value;
    var cp := RagContext(chunks).value;
    var reply := sv.callLlm(TheoryMessages(sv.systemPrompt, cp.0, userText), 0.5, 160).0;
    var answer := AnswerWith(sv, Success(store), userText);
    assert answer == TheoryAnswer(sv, store.search(userText, 4), userText);
    assert answer.value.0 == AppendCitations(reply, cp.1);
    if cp.1 != [] {
      RagContextProps(chunks);
      assert cp.1[0] >= 0;
      AppendedCitationFound(reply, cp.1);
    }
  }

  /** The agent's orchestrator; the store is opened on first use. */
  class Orchestrator {
    var ragStore: Option<Searcher>

    constructor(ragStore: Option<Searcher>)
      ensures this.ragStore == ragStore
    {
      this.ragStore := ragStore;
    }

    /** The store in use: the open one, else what opening the default store gives. */
    static function StoreFor(current: Option<Searcher>, sv: Services): Result<Searcher, string> {
      if current.Some? then Success(current.value) else sv.defaultStore
    }

    /** The store field after ensuring the store: the store once it is open;
        still absent when opening it failed. */
    static function StoreAfter(current: Option<Searcher>, sv: Services): Option<Searcher> {
      match StoreFor(current, sv)
      case Success(st) => Some(st)
      case Failure(_) => current
    }

    /** _ensure_store: opens the default store when none is open and keeps
        it; a failed open leaves the field unset, so the next call tries again. */
    method EnsureStore(sv: Services) returns (s: Result<Searcher, string>)
      modifies this
      ensures s == StoreFor(old(ragStore), sv)
      ensures s.Success? ==> ragStore == Some(s.value)
      ensures s.Failure? ==> old(ragStore).None? && ragStore.None?
    {
      if ragStore.None? {
        var tried := sv.defaultStore;
        if tried.Failure? {
          return Failure(tried.error);
        }
        ragStore := Some(tried.value);
      }
      s := Success(ragStore.value);
    }

    /** _build_rag_context. */
    method BuildRagContext(sv: Services, query: string, k: int) returns (r: Result<(string, seq<int>), string>)
      modifies this
      ensures ragStore == StoreAfter(old(ragStore), sv)
      ensures r == match StoreFor(old(ragStore), sv)
                   case Failure(e) => Failure(e)
                   case Success(store) =>
                     match store.search(query, k)
                     case Failure(e) => Failure(e)
                     case Success(chunks) => RagContext(chunks)
    {
      var tried := EnsureStore(sv);
      if tried.Failure? {
        return Failure(tried.error);
      }
      var store := tried.value;
      var found := store.search(query, k);
      if found.Failure? {
        return Failure(found.error);
      }
      var chunks := found.value;
      if chunks == [] {
        return Success(("", []));
      }
      var collected := CollectLines(chunks);
      if collected.Failure? {
        return Failure(collected.error);
      }
      var (lines, pages) := collected.value;
      var sorted := SortedPages(pages);
      var ctx := ContextHeader + JoinWith("\n", lines);
      r := Success((ctx, sorted));
    }

    /** answer: routes the question and returns the reply with its metadata;
        only the theory route opens the store. */
    method Answer(sv: Services, userText: string) returns (r: Result<(string, Meta), string>)
      modifies this
      ensures r == AnswerWith(sv, StoreFor(old(ragStore), sv), userText)
      ensures ragStore == if DetectIntent(Some(userText)) == Theory then StoreAfter(old(ragStore), sv) else old(ragStore)
    {
      var route := DetectIntent(Some(userText));
      if route == Nutrition {
        var items := sv.lookupMacros(userText);
        if items.Success? {
          var reply := sv.summarize(items.value);
          return Success((reply, map["route" := MStr("nutrition"), "items_count" := MInt(|items.value|),
                                     "nutrition_items" := MItems(items.value)]));
        }
        var msgs := FallbackMessages(sv.systemPrompt, userText);
        var (reply, meta) := sv.callLlm(msgs, 0.5, 120);
        meta := meta["route" := MStr("nutrition_fallback")];
        return Success((reply, meta));
      }
      if route == Theory {
        r := AnswerTheory(sv, userText);
        return;
      }
      var msgs := GeneralMessages(sv.systemPrompt, userText);
      var (reply, meta) := sv.callLlm(msgs, 0.6, 160);
      meta := meta["route" := MStr("llm")];
      r := Success((reply, meta));
    }

    /** The theory branch of `answer`. */
    method AnswerTheory(sv: Services, userText: string) returns (r: Result<(string, Meta), string>)
      modifies this
      ensures ragStore == StoreAfter(old(ragStore), sv)
      ensures r == match StoreFor(old(ragStore), sv)
                   case Failure(e) => Failure(e)
                   case Success(store) => TheoryAnswer(sv, store.search(userText, 4), userText)
    {
      var context := BuildRagContext(sv, userText, 4);
      if context.Failure? {
        return Failure(context.error);
      }
      var (ragCtx, pages) := context.value;
      var msgs := [Message(System, sv.systemPrompt), Message(System, CitationPolicy)];
      if ragCtx != "" {
        msgs := msgs + [Message(Assistant, ragCtx)];
      }
      msgs := msgs + [Message(User, Strip(userText))];
      assert msgs == TheoryMessages(sv.systemPrompt, ragCtx, userText);
      var (reply, meta) := sv.callLlm(msgs, 0.5, 160);
      reply := AppendCitations(reply, pages);
      meta := meta["route" := MStr("rag")];
      meta := meta["pages" := MPages(pages)];
      r := Success((reply, meta));
    }
  }
}
