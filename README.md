# digital-mike retrieval core, modelled in Dafny

digital-mike is a voice coach that answers strength-training questions from
one book. This project models the deterministic part of its retrieval
pipeline and proves properties of that model:

- **Corpus building** (`packages/ingest/ingest.py`). The book is read page by
  page. Each page is cleaned (running headers and footers dropped, hyphenated
  line breaks joined, whitespace collapsed) and labelled with the chapter and
  section in force. It is then cut into overlapping word windows, and each
  window becomes one row with an id of the form `source:pPAGE:cN`.
- **Re-ranking** (`apps/agent/rag/store.py`). The hits of a vector search are
  de-duplicated on a signature. Maximal Marginal Relevance (MMR) then picks a
  diverse subset, and each pick is slimmed to the requested fields.
- **Answer grounding** (`apps/agent/orchestrator.py`):
  - A question is routed by keyword hints to the nutrition lookup, the
    book-grounded ("theory") route or plain chat.
  - The theory route builds a context of page-marked snippets and sends it to
    the language model.
  - It appends `(p.X)` citations to a reply that has none.
- **Per-turn hook** (`apps/agent/main.py`). After each user turn, the voice
  agent adds a brevity instruction and up to four retrieved excerpts to the
  chat context.

Modules: `Wrappers` (Option, Result), `Text` (string helpers shared by the
rest), `IngestText`, `ChapterLabels`, `Chunking`, `Ingest`, `Mmr`, `Store`,
`Orchestrator` and `Hook`.

Each loop of the source is a method. Each method is proved equal to a
function on values, and the properties are lemmas about those functions. The
orchestrator, whose store is created lazily, is a class with a `ragStore`
field. The chat context the hook appends to is a class with a `messages`
field.

External collaborators are parameters:

- the regular expressions the ingest script compiles (header patterns, the
  chapter heading expression, the section patterns);
- the vector index (nearest records, relevance, pairwise similarity);
- the language model, the nutrition lookup and the store opener.

The small expressions the orchestrator itself matches are modelled concretely:

- a number with a unit;
- the whole-word acronyms MRV, MEV and MV;
- the citation marker `(p.` followed by a digit.

## Model

| member | source | states |
|---|---|---|
| IngestText.RomanValue | packages/ingest/ingest.py:40-52 | None exactly when the upper-cased token is empty or has a character outside IVXLCDM |
| IngestText.RomanToInt | packages/ingest/ingest.py:40-52 | the right-to-left loop (subtract a digit smaller than the largest seen so far, else add it) returns RomanValue |
| IngestText.RomanExamples | packages/ingest/ingest.py:40-52 | III=3, IV=4, IX=9 |
| IngestText.RomanLongerExamples | packages/ingest/ingest.py:40-52 | XIV=14, xiv=14, XL=40 |
| IngestText.RomanOddInputs | packages/ingest/ingest.py:40-52 | the non-canonical IIC gives 98; "I V" and "" give None |
| IngestText.RomanValueIgnoresCase | packages/ingest/ingest.py:41 | upper-casing the token first changes nothing |
| IngestText.KeptLinesSurvive | packages/ingest/ingest.py:54-64 | never more lines than the input; every kept line is non-blank after stripping and is not boilerplate |
| IngestText.StripHeadersFooters | packages/ingest/ingest.py:54-64 | the line loop returns the kept lines joined by newlines |
| IngestText.HeaderFreeLines | packages/ingest/ingest.py:54-64 | splitting the output into lines gives back exactly the kept input lines, unmodified and in order |
| IngestText.HeaderFreeIdempotent | packages/ingest/ingest.py:54-64 | stripping headers and footers twice is the same as once |
| IngestText.JoinHyphenated | packages/ingest/ingest.py:68 | joining hyphenated breaks never lengthens the text |
| IngestText.HyphenatedBreakJoined | packages/ingest/ingest.py:68 | letter, hyphen, newline, letter after any newline-free text becomes the two letters; the text before is kept and the rest is joined on its own |
| IngestText.JoinHyphenatedAfter | packages/ingest/ingest.py:68 | newline-free text followed by a letter (or nothing) passes through unchanged and the rest is joined on its own |
| IngestText.JoinHyphenatedWithoutNewline | packages/ingest/ingest.py:68 | a text without a newline is left unchanged |
| IngestText.CollapseSpaces | packages/ingest/ingest.py:72 | the result has no two neighbouring whitespace characters and starts with whitespace exactly when the input does |
| IngestText.NormalizedTextIsClean | packages/ingest/ingest.py:66-73 | a normalised page has no newline, no no-break space, no two neighbouring whitespace characters, and no leading or trailing whitespace |
| IngestText.FuzzyCaps | packages/ingest/ingest.py:95-105 | the character loop returns FuzzyPattern of the title |
| IngestText.FuzzyPatternSpellsTitle | packages/ingest/ingest.py:95-105 | the literal characters of the pattern spell the title in order, each whitespace character read as one space |
| ChapterLabels.ChapterLabel | packages/ingest/ingest.py:133-144 | every chapter label starts with "Chapter " |
| ChapterLabels.WordOfNumber | packages/ingest/ingest.py:139-140 | each of the words "one" to "twenty" maps to its number |
| ChapterLabels.SpelledChapterLabel | packages/ingest/ingest.py:138-144 | a non-decimal token that spells the number n (1 to 20) once spaces are removed and case is folded gives "Chapter n" |
| ChapterLabels.RomanChapterLabel | packages/ingest/ingest.py:138-144 | a non-decimal token that is no number word and has a non-zero Roman value v gives "Chapter v" |
| ChapterLabels.UnresolvedChapterLabel | packages/ingest/ingest.py:138-144 | a non-decimal token that is no number word and has no Roman value, or value 0, gives "Chapter " and the token in title case |
| ChapterLabels.ChapterNumeralForms | packages/ingest/ingest.py:133-144 | "3", "THREE", "T H R E E", "III" and "iii" all give "Chapter 3" |
| ChapterLabels.DecimalChapterLabel | packages/ingest/ingest.py:136-137 | a decimal heading number n >= 1 gives "Chapter n" |
| ChapterLabels.ZeroChapterLabel | packages/ingest/ingest.py:144 | the number 0 is falsy, so the token's title case is used: "Chapter 0" |
| ChapterLabels.TitleIdempotent | packages/ingest/ingest.py:144 | title-casing twice is the same as once |
| ChapterLabels.FirstMatch | packages/ingest/ingest.py:147-150 | the section is the first title whose pattern matches: it matches and no earlier title does; None when no title matches |
| Chunking.ChunkByWords | packages/ingest/ingest.py:154-168 | the window loop returns Chunks of the page |
| Chunking.NoWordsNoChunks | packages/ingest/ingest.py:155-157 | a page without words gives no chunks |
| Chunking.StartsAreSteps | packages/ingest/ingest.py:159-167 | window j starts at word j * (max_words - overlap_words) |
| Chunking.WindowCount | packages/ingest/ingest.py:159-167 | a page of n >= 1 words has 1 + ceil(max(0, n - max_words) / step) windows |
| Chunking.OnlyLastWindowShort | packages/ingest/ingest.py:161-166 | every window but the last ends before the last word; the last one reaches it |
| Chunking.ChunkShape | packages/ingest/ingest.py:162-164 | each chunk is a run of consecutive page words, between MIN_CHUNK_WORDS and max_words long, joined by single spaces; splitting it gives that run back |
| Chunking.ShortPage | packages/ingest/ingest.py:154-168 | a page of at most max_words words is one chunk of all its words, or nothing when below the minimum |
| Ingest.Basename | packages/ingest/ingest.py:201 | the source name holds no '/', ends the path, and follows its last '/' |
| Ingest.IngestPage | packages/ingest/ingest.py:204-235 | one loop iteration yields the labels and rows of PageStep |
| Ingest.AppendPageRows | packages/ingest/ingest.py:225-235 | the row loop appends exactly the page's rows, in chunk order |
| Ingest.IngestPdf | packages/ingest/ingest.py:198-241 | the page loop returns IngestRows: the rows, or the "No rows produced" exit |
| Ingest.BlankPageSkipped | packages/ingest/ingest.py:204-205 | a blank page leaves labels and rows unchanged |
| Ingest.PageLabels | packages/ingest/ingest.py:208-214 | a detected chapter replaces the chapter and clears the section; a detected section replaces the section; otherwise both are kept |
| Ingest.PageRowsAppended | packages/ingest/ingest.py:216-235 | a page's rows follow the earlier ones, are numbered from 1, name the page and source, and carry the labels in force after the page |
| Ingest.ChapterCarriedForward | packages/ingest/ingest.py:208-212 | after the pages, the chapter is the one detected on the last page that detected one |
| Ingest.SectionCarriedForward | packages/ingest/ingest.py:208-214 | after the pages, the section is the one set by the last page that detected a chapter or a section |
| Ingest.NoChapterYet | packages/ingest/ingest.py:199-210 | without a detected chapter the chapter stays None |
| Ingest.LaterPagesKeepChapter | packages/ingest/ingest.py:209-212 | pages that detect no chapter do not change it |
| Ingest.LaterPagesKeepSection | packages/ingest/ingest.py:209-214 | pages that detect neither chapter nor section do not change the section |
| Ingest.LastPageRows | packages/ingest/ingest.py:225-235 | the last page's rows are appended after the earlier rows with ids c1, c2, ... and the final labels |
| Ingest.LastPageIds | packages/ingest/ingest.py:225-227 | the last page's rows carry its page number and consecutive chunk numbers from 1 |
| Ingest.RowsCarryLabels | packages/ingest/ingest.py:225-235 | every row names the source, a page in 1..pages, the chapter in force after its page, and the section when sections are recorded |
| Ingest.RowPagesInRange | packages/ingest/ingest.py:203-229 | every row's page is one of the pages read |
| Ingest.RowsInPageOrder | packages/ingest/ingest.py:203-235 | rows of earlier pages come before rows of later pages |
| Ingest.RowIdsNumberChunks | packages/ingest/ingest.py:225-227 | the k-th row of a page has id source:pPAGE:ck |
| Ingest.RowIdInjective | packages/ingest/ingest.py:227 | two ids of one source are equal only for the same page and chunk number |
| Ingest.RowIdsDistinct | packages/ingest/ingest.py:225-227 | no two rows share an id |
| Ingest.BlankPagesNoRows | packages/ingest/ingest.py:203-205 | a document of blank pages yields no rows |
| Ingest.BlankDocumentFails | packages/ingest/ingest.py:239-241 | a document of blank pages ends with the "No rows produced" exit |
| Ingest.SuccessHasRows | packages/ingest/ingest.py:239-241 | a successful ingest never returns an empty row list |
| Mmr.Scoring.Greedy | apps/agent/rag/store.py:34-48 | the rounds extend the earlier picks, pick only documents in range, and never pick one twice |
| Mmr.Scoring.Select | apps/agent/rag/store.py:25-49 | the selection holds distinct document indices in range |
| Mmr.MaxSimilarity | apps/agent/rag/store.py:42 | the loop returns the largest similarity to the picks |
| Mmr.MaxSimAttained | apps/agent/rag/store.py:42 | that largest similarity is the similarity to one of the picks |
| Mmr.PickBest | apps/agent/rag/store.py:35-46 | the candidate loop returns FirstMax, given scores above the -1e9 sentinel |
| Mmr.FirstMaxIsFirstBest | apps/agent/rag/store.py:37-46 | the round's pick has the maximal score, and every earlier candidate scores strictly less (ties go to the first) |
| Mmr.FirstMaxIn | apps/agent/rag/store.py:44-46 | the pick is one of the candidates |
| Mmr.ScoreAboveSentinel | apps/agent/rag/store.py:36-44 | under the sentinel precondition, every score beats the initial best score |
| Mmr.Mmr | apps/agent/rag/store.py:15-49 | the selection loop returns Select(k) |
| Mmr.RemainingLength | apps/agent/rag/store.py:29-48 | after t distinct picks, n - t candidates remain |
| Mmr.RemoveFirstRemaining | apps/agent/rag/store.py:48 | removing the pick from the candidates leaves the unpicked documents in index order |
| Mmr.GreedyLength | apps/agent/rag/store.py:34 | the number of rounds is fixed by the shrinking bound min(k, remaining) |
| Mmr.GreedyChoice | apps/agent/rag/store.py:34-47 | each round picks the first unpicked document of maximal score |
| Mmr.NoDocumentsNoPicks | apps/agent/rag/store.py:25-26 | no documents give no picks |
| Mmr.SelectLength | apps/agent/rag/store.py:34 | exactly max(0, min(k, ceil(n/2))) picks, because the bound compares with the shrinking candidate list |
| Mmr.SelectGreedyChoice | apps/agent/rag/store.py:34-48 | pick t is new, has the maximal score given the earlier picks, and beats every lower-index unpicked document strictly |
| Mmr.SelectFirstPick | apps/agent/rag/store.py:38-46 | the first pick maximises lambda times relevance, the first such index winning |
| Mmr.RelevanceOnlyOrder | apps/agent/rag/store.py:43 | with lambda = 1 the picks come in non-increasing relevance |
| Mmr.NearDuplicateSkipped | apps/agent/rag/store.py:15-49 | with a near-duplicate of the best document, the second pick is the diverse document |
| Store.Resolve | apps/agent/rag/store.py:100-105 | a missing fetch_k becomes max(8k, 16); missing fields become id, text, page, chapter, section; a missing dedupe key becomes page, text; given options are kept |
| Store.EmptyWhereIsNoWhere | apps/agent/rag/store.py:111-112 | an empty filter string gives the same search result as no filter |
| Store.DedupeHits | apps/agent/rag/store.py:120-130 | the seen-set loop returns Dedupe |
| Store.DedupeKeepsOnePerSig | apps/agent/rag/store.py:120-130 | the unique hits come from the hits, have distinct signatures, and cover every signature of the hits |
| Store.DedupeOfDistinct | apps/agent/rag/store.py:120-130 | hits with distinct signatures are kept as they are |
| Store.DedupeIdempotent | apps/agent/rag/store.py:120-130 | de-duplicating twice is the same as once |
| Store.DistinctSigsCount | apps/agent/rag/store.py:120-130 | records with distinct signatures are as many as their signatures |
| Store.ScoringOf | apps/agent/rag/store.py:132-138 | the MMR input has one relevance and one similarity row per unique hit |
| Store.SlimmedRecord | apps/agent/rag/store.py:144-148 | a slimmed record always has text (default ""), an integer page and chapter (default None), and keeps every requested field |
| Store.SlimmedPage | apps/agent/rag/store.py:147 | a missing page becomes -1, an integer page is kept, a None page makes int() fail |
| Store.SlimEach | apps/agent/rag/store.py:141-151 | the slimming loop returns SlimAll, stopping at the first failure |
| Store.SlimAllShape | apps/agent/rag/store.py:141-151 | one output record per pick, each that pick's slimmed form |
| Store.Search | apps/agent/rag/store.py:81-151 | search returns SearchResult |
| Store.NoHitsNoResults | apps/agent/rag/store.py:116-117 | no hits give an empty result |
| Store.SelectedDistinctSigs | apps/agent/rag/store.py:120-139 | the MMR picks of unique hits have distinct signatures |
| Store.SearchShape | apps/agent/rag/store.py:81-151 | a result has max(0, min(k, ceil(u/2))) records for u distinct signatures among the hits; each is the slimmed form of a distinct-signature hit |
| Orchestrator.IntentByHints | apps/agent/orchestrator.py:110-118 | nutrition hints or a number with a unit route to nutrition, else theory hints to theory, else general chat |
| Orchestrator.AcronymImpliesTheoryHint | apps/agent/orchestrator.py:116 | a whole-word MRV, MEV or MV is already a theory hint once lower-cased |
| Orchestrator.FatigueRoutesToNutrition | apps/agent/orchestrator.py:89-113 | "fatigue" contains the nutrition hint "fat", so a question about fatigue goes to nutrition |
| Orchestrator.DetectIntentOnStrings | apps/agent/orchestrator.py:110-118 | the routing as written and the corrected routing agree on every string |
| Orchestrator.DetectIntentOfNone | apps/agent/orchestrator.py:111-116 | as written, None raises; corrected, it routes to general chat |
| Orchestrator.Snippet | apps/agent/orchestrator.py:139 | at most 400 characters: the whole text when it fits; else the first 380 characters with trailing whitespace removed, then " …" |
| Orchestrator.ChunkEntry | apps/agent/orchestrator.py:134-141 | a chunk fails exactly when int() of its page or stripping its text raises; it adds a line exactly when its stripped text is non-empty, and then the line is "- (p.PAGE) " and the snippet of that text, with PAGE its page |
| Orchestrator.TextIndicesProps | apps/agent/orchestrator.py:135-138 | the kept positions increase, lie in range and are exactly the chunks whose stripped text is non-empty |
| Orchestrator.CollectSucceeds | apps/agent/orchestrator.py:133-141 | the chunk loop finishes exactly when every chunk's page and text can be read |
| Orchestrator.CollectLines | apps/agent/orchestrator.py:133-141 | the chunk loop returns Collect |
| Orchestrator.CollectProps | apps/agent/orchestrator.py:133-141 | line i and page i are those of the i-th chunk with text, one per such chunk and in chunk order; each line is marked with its page |
| Orchestrator.SortedPagesProps | apps/agent/orchestrator.py:142 | the page list is strictly increasing and holds exactly the non-negative pages |
| Orchestrator.RagContextProps | apps/agent/orchestrator.py:126-144 | no chunks give ("", []); otherwise the context is "RAG CONTEXT:" and the lines of the chunks with text joined by newlines, and the pages are the sorted distinct non-negative pages of those chunks |
| Orchestrator.AppendedCitationFound | apps/agent/orchestrator.py:146-153 | the reply is kept as a prefix and the result carries a citation |
| Orchestrator.AppendCitationsIdempotent | apps/agent/orchestrator.py:146-153 | appending citations twice is the same as once when the first page is non-negative |
| Orchestrator.CitedReplyKept | apps/agent/orchestrator.py:147-150 | no pages, or a reply already citing a page, leave the reply unchanged |
| Orchestrator.AnswerRoute | apps/agent/orchestrator.py:156-205 | every answer records the route its intent and the lookup outcome select |
| Orchestrator.TheoryMessagesShape | apps/agent/orchestrator.py:183-189 | persona, citation policy, the context only when non-empty, then the stripped question |
| Orchestrator.TheoryRoute | apps/agent/orchestrator.py:176-194 | a theory answer records the context pages and cites a page whenever there are pages |
| Orchestrator.Orchestrator.constructor | apps/agent/orchestrator.py:106-107 | the store starts as given, possibly absent |
| Orchestrator.Orchestrator.EnsureStore | apps/agent/orchestrator.py:120-123 | an open store is returned as it is; otherwise the store is opened and kept, and a failed open raises and leaves the store unset |
| Orchestrator.Orchestrator.BuildRagContext | apps/agent/orchestrator.py:126-144 | the store is ensured and the result is RagContext of its search; a failed open is passed on and leaves the store unset |
| Orchestrator.Orchestrator.AnswerTheory | apps/agent/orchestrator.py:176-194 | the theory branch returns TheoryAnswer and leaves the store open, or passes on a failed open with the store still unset |
| Orchestrator.Orchestrator.Answer | apps/agent/orchestrator.py:156-205 | answer returns AnswerWith; only the theory route opens the store, and a failed open leaves it unset so the next theory question tries again |
| Hook.MsgText | apps/agent/main.py:105-112 | the message text is stripped: empty, or without leading and trailing whitespace |
| Hook.HookSnippet | apps/agent/main.py:57-58 | at most 382 characters: the whole text up to 380; else the first 380 characters with trailing whitespace removed, then " …" |
| Hook.FirstFour | apps/agent/main.py:52 | the first min(4, n) of the n results |
| Hook.ResultLine | apps/agent/main.py:53-58 | a result fails exactly when stripping its text raises; it gives a line exactly when its stripped text is non-empty, and then the line is "(p." str(page) ") " and the hook's snippet |
| Hook.LinesSucceed | apps/agent/main.py:51-59 | the excerpt loop finishes exactly when every result's text can be read |
| Hook.ExcerptLines | apps/agent/main.py:51-59 | the excerpt loop returns Lines |
| Hook.LinesShape | apps/agent/main.py:51-59 | line i is the excerpt line of the i-th result with text, one per such result and in order; each is a page marker followed by a snippet of 1 to 382 characters |
| Hook.AtMostFourExcerpts | apps/agent/main.py:52 | at most four excerpts reach the block |
| Hook.ChatContext.AddMessage | apps/agent/main.py:46 | a message is appended to the chat context |
| Hook.OnUserTurnCompleted | apps/agent/main.py:38-68 | the hook appends exactly Added(text, search outcome) to the chat context |
| Hook.NoTextNothingAdded | apps/agent/main.py:42-44 | a turn without text adds nothing |
| Hook.AddedShape | apps/agent/main.py:41-68 | a turn with text adds the brevity instruction first; then at most the excerpt block, and only when the search found something |

## Left out

- Character classes: letters, case mapping, `\w` and `\p{L}` are ASCII only. Whitespace is the character set of Python's `str.isspace`.
- Regular expressions of the ingest script are parameters. These are the header and footer patterns, the chapter heading expression and the compiled section patterns. `fuzzy_caps` is modelled, but matching a regular expression is not.
- Reading the PDF (`iter_pdf_pages`), embedding, and the LanceDB table I/O are not modelled. This covers the existing-table and `force` check, writing rows and the summary query. Pages arrive as a sequence of texts. Page p is at index p - 1.
- `total_chunks` and every `print` and log line are left out, because they only report progress.
- The default chunking settings come from the environment. They are a `Config` value, `DefaultConfig` = (900, 150, 40, true).
- Chunking.ChunkByWords: requires that the window start advances or that the page fits one window. Otherwise the source loops forever.
- Ingest.IngestPdf: requires a positive step for every page. The source also finishes when every page fits one window despite a non-positive step, and that case is not covered.
- Vector arithmetic (`numpy` dot products, float32) is abstract. Relevance and similarity are real numbers supplied by the index, so rounding is not modelled.
- Mmr.Mmr: requires every score to lie above the -1e9 sentinel. The source would then pick `None`.
- Store.Search: the query embedding and the nearest-neighbour search are one parameter of the index. The `where` string is passed through, not interpreted.
- Store.Slim: `int()` is modelled for integers, None and non-empty all-digit strings. Strings with a sign or surrounding whitespace are treated as a failure.
- Store values are limited to str, int and None. Dictionary key order is not modelled.
- `call_llm`, its retries and network errors are an abstract function returning a reply and metadata. So are the Nutritionix lookup, the speech summary and the persona prompt. Only `NutritionixError` is modelled as a failure of the lookup.
- Orchestrator.AppendCitationsIdempotent: stated only when the first page is non-negative. Pages from the context always are.
- The LiveKit session, speech and turn detection in `apps/agent/main.py` are not modelled. Neither is the async scheduling. The hook swallows every exception, so store and search failures are one `Failure` outcome.

## Findings

| source | as written | input that shows it | evidently intended | confidence | as-written member | corrected member |
|---|---|---|---|---|---|---|
| apps/agent/orchestrator.py:116 | `_detect_intent` guards the lower-cased text with `(text or "")` but passes the unguarded `text` to the acronym search, which raises TypeError | `text = None` | None is read as the empty string and routed to general chat | medium, not executed | Orchestrator.DetectIntentAsWritten (shown by Orchestrator.DetectIntentOfNone) | Orchestrator.DetectIntent (Orchestrator.IntentByHints, Orchestrator.DetectIntentOfNone) |
