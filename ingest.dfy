/**
  The page loop of ingest_pdf in packages/ingest/ingest.py: pages are
  visited in order; a chapter or section detected on a non-blank page is
  carried forward to later pages (a new chapter clears the section), and each
  chunk of the page's cleaned text becomes one row. Reading the PDF,
  embedding and writing the table are outside the model: the pages arrive as
  a sequence of texts, page `p` (from 1) at index `p - 1`.
*/
module Ingest {
  import opened Wrappers
  import opened Text
  import opened IngestText
  import opened ChapterLabels
  import opened Chunking

  /** CHUNK_WORDS, CHUNK_OVERLAP, MIN_CHUNK_WORDS and INCLUDE_SECTION. */
  datatype Config = Config(chunkWords: nat, chunkOverlap: int, minChunkWords: int, includeSection: bool) {
    /** Settings for which the window scan advances. */
    predicate Valid() {
      chunkWords - chunkOverlap > 0
    }
  }

  /** The settings used when the environment overrides none of them. */
  const DefaultConfig := Config(900, 150, 40, true)

  /** One table row. `section` is None when sections are not recorded, and
      Some(the carried section, possibly None) when they are. */
  datatype Row = Row(
    id: string, source: string, page: nat, chapter: Option<string>,
    text: string, section: Option<Option<string>>)

  /** The loop state: the carried labels and the rows produced so far. */
  datatype Acc = Acc(lastChap: Option<string>, lastSec: Option<string>, rows: seq<Row>)

  const NoRowsMessage := "No rows produced. Is the PDF text-selectable?"

  /** `os.path.basename`: the part of the path after its last '/'. */
  function Basename(path: string): (r: string)
    ensures '/' !in r && EndsWith(path, r)
    ensures |r| < |path| ==> path[|path| - |r| - 1] == '/'
  {
    if path == [] || path[|path| - 1] == '/' then []
    else Basename(path[..|path| - 1]) + [path[|path| - 1]]
  }

  /** "<source>:p<page>:c<index>". */
  function RowId(source: string, page: nat, idx: nat): string {
    source + ":p" + NatToString(page) + ":c" + NatToString(idx)
  }

  /** A page's rows: chunk `k` (from 0) gets index `k + 1` and the carried labels. */
  function PageRows(source: string, page: nat, chap: Option<string>, sec: Option<string>,
                    chunks: seq<string>, includeSection: bool): seq<Row>
  {
    seq(|chunks|, k requires 0 <= k < |chunks| =>
      Row(RowId(source, page, k + 1), source, page, chap, chunks[k],
          if includeSection then Some(sec) else None))
  }

  /** normalize_hyphens_and_spaces(strip_headers_footers(raw)). */
  function CleanPage(raw: string, det: Detectors): string {
    Normalize(HeaderFreeText(raw, det.isBoilerplate))
  }

  /** One iteration of the page loop for page number `pageNo`: a blank page
      is skipped, any other is read. */
  function PageStep(acc: Acc, pageNo: nat, raw: string, det: Detectors, cfg: Config, source: string): Acc
    requires cfg.Valid()
  {
    if Blank(raw) then acc
    else ReadPage(acc, pageNo, ExtractChapterAndSection(raw, det), CleanPage(raw, det), cfg, source)
  }

  /** Reading a non-blank page whose detected (chapter, section) are `found`
      and whose cleaned text is `cleaned`. */
  function ReadPage(acc: Acc, pageNo: nat, found: (Option<string>, Option<string>), cleaned: string,
                    cfg: Config, source: string): Acc
    requires cfg.Valid()
  {
    var (chap, sec) := found;
    var lastChap := if chap.Some? then chap else acc.lastChap;
    var lastSec := if sec.Some? then sec else if chap.Some? then None else acc.lastSec;
    var rows := if cleaned == [] then []
      else PageRows(source, pageNo, lastChap, lastSec,
                    Chunks(cleaned, cfg.chunkWords, cfg.chunkOverlap, cfg.minChunkWords),
                    cfg.includeSection);
    Acc(lastChap, lastSec, acc.rows + rows)
  }

  /** The loop state after the pages `pages` (numbered from 1). */
  function Fold(pages: seq<string>, det: Detectors, cfg: Config, source: string): Acc
    requires cfg.Valid()
  {
    if pages == [] then Acc(None, None, [])
    else PageStep(Fold(pages[..|pages| - 1], det, cfg, source), |pages|,
                  pages[|pages| - 1], det, cfg, source)
  }

  /** What ingest_pdf produces for a document: its rows, or the exit with
      status 1 when no page yields a row. */
  function IngestRows(pages: seq<string>, pdfPath: string, det: Detectors, cfg: Config): Result<seq<Row>, string>
    requires cfg.Valid()
  {
    var rows := Fold(pages, det, cfg, Basename(pdfPath)).rows;
    if rows == [] then Failure(NoRowsMessage) else Success(rows)
  }

  lemma FoldStep(pages: seq<string>, p: nat, det: Detectors, cfg: Config, source: string)
    requires cfg.Valid() && p < |pages|
    ensures Fold(pages[..p + 1], det, cfg, source)
      == PageStep(Fold(pages[..p], det, cfg, source), p + 1, pages[p], det, cfg, source)
  {
    assert pages[..p + 1][..p] == pages[..p];
  }

  /** The inner loop of ingest_pdf: one row per chunk of the page, appended in order. */
  method AppendPageRows(rows: seq<Row>, source: string, pageNo: nat, chap: Option<string>,
                        sec: Option<string>, pageChunks: seq<string>, includeSection: bool)
    returns (out: seq<Row>)
    ensures out == rows + PageRows(source, pageNo, chap, sec, pageChunks, includeSection)
  {
    ghost var all := PageRows(source, pageNo, chap, sec, pageChunks, includeSection);
    out := rows;
    var idx := 0;
    while idx < |pageChunks|
      invariant idx <= |pageChunks|
      invariant out == rows + all[..idx]
    {
      var section := if includeSection then Some(sec) else None;
      out := out + [Row(RowId(source, pageNo, idx + 1), source, pageNo, chap, pageChunks[idx], section)];
      assert all[..idx + 1] == all[..idx] + [all[idx]];
      idx := idx + 1;
    }
    assert all[..idx] == all;
  }

  /** The body of the page loop of ingest_pdf for page number `pageNo`. */
  method IngestPage(lastChap0: Option<string>, lastSec0: Option<string>, rows0: seq<Row>,
                    pageNo: nat, raw: string, det: Detectors, cfg: Config, source: string)
    returns (lastChap: Option<string>, lastSec: Option<string>, rows: seq<Row>)
    requires cfg.Valid()
    ensures Acc(lastChap, lastSec, rows)
      == PageStep(Acc(lastChap0, lastSec0, rows0), pageNo, raw, det, cfg, source)
  {
    lastChap, lastSec, rows := lastChap0, lastSec0, rows0;
    if !Blank(raw) {
      var (chap, sec) := ExtractChapterAndSection(raw, det);
      if chap.Some? {
        lastChap := chap;
        lastSec := None;
      }
      if sec.Some? {
        lastSec := sec;
      }
      var stripped := StripHeadersFooters(raw, det.isBoilerplate);
      var cleaned := Normalize(stripped);
      ReadPageParts(Acc(lastChap0, lastSec0, rows0), pageNo, (chap, sec), cleaned, cfg, source);
      if cleaned != [] {
        var pageChunks := ChunkByWords(cleaned, cfg.chunkWords, cfg.chunkOverlap, cfg.minChunkWords);
        rows := AppendPageRows(rows, source, pageNo, lastChap, lastSec, pageChunks, cfg.includeSection);
      }
    }
  }

  /** ReadPage, part by part. */
  lemma ReadPageParts(acc: Acc, pageNo: nat, found: (Option<string>, Option<string>), cleaned: string,
                      cfg: Config, source: string)
    requires cfg.Valid()
    ensures var next := ReadPage(acc, pageNo, found, cleaned, cfg, source);
      && next.lastChap == (if found.0.Some? then found.0 else acc.lastChap)
      && next.lastSec == (if found.1.Some? then found.1 else if found.0.Some? then None else acc.lastSec)
      && next.rows == acc.rows + (if cleaned == [] then []
           else PageRows(source, pageNo, next.lastChap, next.lastSec,
                         Chunks(cleaned, cfg.chunkWords, cfg.chunkOverlap, cfg.minChunkWords), cfg.includeSection))
  {
  }

  /** The page loop of ingest_pdf. */
  method IngestPdf(pages: seq<string>, pdfPath: string, det: Detectors, cfg: Config)
    returns (r: Result<seq<Row>, string>)
    requires cfg.Valid()
    ensures r == IngestRows(pages, pdfPath, det, cfg)
  {
    var lastChap: Option<string> := None;
    var lastSec: Option<string> := None;
    var rows: seq<Row> := [];
    var source := Basename(pdfPath);
    var p := 0;
    while p < |pages|
      invariant 0 <= p <= |pages|
      invariant Fold(pages[..p], det, cfg, source) == Acc(lastChap, lastSec, rows)
    {
      FoldStep(pages, p, det, cfg, source);
      lastChap, lastSec, rows := IngestPage(lastChap, lastSec, rows, p + 1, pages[p], det, cfg, source);
      p := p + 1;
    }
    assert pages[..p] == pages;
    if rows == [] {
      return Failure(NoRowsMessage);
    }
    return Success(rows);
  }

  // ---------- carry-forward of labels ----------

  /** The labels a page announces: none for a blank page, which is skipped
      before detection. */
  function Detected(raw: string, det: Detectors): (Option<string>, Option<string>) {
    if Blank(raw) then (None, None) else ExtractChapterAndSection(raw, det)
  }

  /** A blank page leaves the loop state exactly as it was. */
  lemma BlankPageSkipped(acc: Acc, pageNo: nat, raw: string, det: Detectors, cfg: Config, source: string)
    requires cfg.Valid() && Blank(raw)
    ensures PageStep(acc, pageNo, raw, det, cfg, source) == acc
  {
  }

  /** How one page changes the labels: a detected chapter replaces the chapter
      and clears the section before the page's own section is applied; a page
      that detects nothing keeps both labels. */
  lemma PageLabels(acc: Acc, pageNo: nat, raw: string, det: Detectors, cfg: Config, source: string)
    requires cfg.Valid()
    ensures var next := PageStep(acc, pageNo, raw, det, cfg, source);
      var d := Detected(raw, det);
      && next.lastChap == (if d.0.Some? then d.0 else acc.lastChap)
      && next.lastSec == (if d.1.Some? then d.1 else if d.0.Some? then None else acc.lastSec)
  {
  }

  /** The rows a page adds come after the earlier rows; they are numbered
      from 1 and carry the labels in force after the page. */
  lemma PageRowsAppended(acc: Acc, pageNo: nat, raw: string, det: Detectors, cfg: Config, source: string)
    requires cfg.Valid()
    ensures var next := PageStep(acc, pageNo, raw, det, cfg, source);
      && acc.rows <= next.rows
      && forall k :: |acc.rows| <= k < |next.rows| ==>
           && next.rows[k].id == RowId(source, pageNo, k - |acc.rows| + 1)
           && next.rows[k].source == source && next.rows[k].page == pageNo
           && next.rows[k].chapter == next.lastChap
           && next.rows[k].section == (if cfg.includeSection then Some(next.lastSec) else None)
  {
    if !Blank(raw) {
      ReadPageRows(acc, pageNo, ExtractChapterAndSection(raw, det), CleanPage(raw, det), cfg, source);
    }
  }

  lemma ReadPageRows(acc: Acc, pageNo: nat, found: (Option<string>, Option<string>), cleaned: string,
                     cfg: Config, source: string)
    requires cfg.Valid()
    ensures var next := ReadPage(acc, pageNo, found, cleaned, cfg, source);
      && acc.rows <= next.rows
      && forall k :: |acc.rows| <= k < |next.rows| ==>
           && next.rows[k].id == RowId(source, pageNo, k - |acc.rows| + 1)
           && next.rows[k].source == source && next.rows[k].page == pageNo
           && next.rows[k].chapter == next.lastChap
           && next.rows[k].section == (if cfg.includeSection then Some(next.lastSec) else None)
  {
    var next := ReadPage(acc, pageNo, found, cleaned, cfg, source);
    var added := if cleaned == [] then []
      else PageRows(source, pageNo, next.lastChap, next.lastSec,
                    Chunks(cleaned, cfg.chunkWords, cfg.chunkOverlap, cfg.minChunkWords), cfg.includeSection);
    assert next.rows == acc.rows + added;
    forall k | |acc.rows| <= k < |next.rows|
      ensures next.rows[k] == added[k - |acc.rows|]
    {
    }
  }

  lemma {:induction false} LaterPagesKeepChapter(pages: seq<string>, j: nat, det: Detectors, cfg: Config, source: string)
    requires cfg.Valid() && j <= |pages|
    requires forall q :: j <= q < |pages| ==> Detected(pages[q], det).0.None?
    ensures Fold(pages, det, cfg, source).lastChap == Fold(pages[..j], det, cfg, source).lastChap
    decreases |pages|
  {
    if |pages| > j {
      var prefix := pages[..|pages| - 1];
      assert prefix[..j] == pages[..j];
      LaterPagesKeepChapter(prefix, j, det, cfg, source);
      PageLabels(Fold(prefix, det, cfg, source), |pages|, pages[|pages| - 1], det, cfg, source);
    } else {
      assert pages[..j] == pages;
    }
  }

  lemma {:induction false} LaterPagesKeepSection(pages: seq<string>, j: nat, det: Detectors, cfg: Config, source: string)
    requires cfg.Valid() && j <= |pages|
    requires forall q :: j <= q < |pages| ==> Detected(pages[q], det) == (None, None)
    ensures Fold(pages, det, cfg, source).lastSec == Fold(pages[..j], det, cfg, source).lastSec
    decreases |pages|
  {
    if |pages| > j {
      var prefix := pages[..|pages| - 1];
      assert prefix[..j] == pages[..j];
      LaterPagesKeepSection(prefix, j, det, cfg, source);
      PageLabels(Fold(prefix, det, cfg, source), |pages|, pages[|pages| - 1], det, cfg, source);
    } else {
      assert pages[..j] == pages;
    }
  }

  /** The chapter carried after the pages is the one announced by the last
      page (number `j`) that announces a chapter. */
  lemma ChapterCarriedForward(pages: seq<string>, j: nat, det: Detectors, cfg: Config, source: string)
    requires cfg.Valid() && 1 <= j <= |pages|
    requires Detected(pages[j - 1], det).0.Some?
    requires forall q :: j <= q < |pages| ==> Detected(pages[q], det).0.None?
    ensures Fold(pages, det, cfg, source).lastChap == Detected(pages[j - 1], det).0
  {
    LaterPagesKeepChapter(pages, j, det, cfg, source);
    FoldStep(pages, j - 1, det, cfg, source);
    PageLabels(Fold(pages[..j - 1], det, cfg, source), j, pages[j - 1], det, cfg, source);
  }

  /** Before any page announces a chapter, there is no chapter label. */
  lemma NoChapterYet(pages: seq<string>, det: Detectors, cfg: Config, source: string)
    requires cfg.Valid() && forall q :: 0 <= q < |pages| ==> Detected(pages[q], det).0.None?
    ensures Fold(pages, det, cfg, source).lastChap == None
  {
    LaterPagesKeepChapter(pages, 0, det, cfg, source);
  }

  /** The section carried after the pages is the one announced by the last
      page that announces anything: its section, or none when that page
      announces only a new chapter. */
  lemma SectionCarriedForward(pages: seq<string>, j: nat, det: Detectors, cfg: Config, source: string)
    requires cfg.Valid() && 1 <= j <= |pages|
    requires Detected(pages[j - 1], det) != (None, None)
    requires forall q :: j <= q < |pages| ==> Detected(pages[q], det) == (None, None)
    ensures Fold(pages, det, cfg, source).lastSec == Detected(pages[j - 1], det).1
  {
    LaterPagesKeepSection(pages, j, det, cfg, source);
    FoldStep(pages, j - 1, det, cfg, source);
    var before := Fold(pages[..j - 1], det, cfg, source);
    var d := Detected(pages[j - 1], det);
    PageLabels(before, j, pages[j - 1], det, cfg, source);
    assert d.0.Some? || d.1.Some?;
    assert Fold(pages[..j], det, cfg, source).lastSec == d.1;
  }

  // ---------- rows ----------

  /** The rows of the last page are appended after the earlier rows; they
      are numbered from 1 and carry the labels in force after that page. */
  lemma LastPageRows(pages: seq<string>, det: Detectors, cfg: Config, source: string)
    requires cfg.Valid() && pages != []
    ensures var before := Fold(pages[..|pages| - 1], det, cfg, source).rows;
      var after := Fold(pages, det, cfg, source);
      && before <= after.rows
      && forall k :: |before| <= k < |after.rows| ==>
           && after.rows[k].id == RowId(source, |pages|, k - |before| + 1)
           && after.rows[k].source == source && after.rows[k].page == |pages|
           && after.rows[k].chapter == after.lastChap
           && after.rows[k].section == (if cfg.includeSection then Some(after.lastSec) else None)
  {
    var acc := Fold(pages[..|pages| - 1], det, cfg, source);
    assert Fold(pages, det, cfg, source) == PageStep(acc, |pages|, pages[|pages| - 1], det, cfg, source);
    PageRowsAppended(acc, |pages|, pages[|pages| - 1], det, cfg, source);
  }

  lemma LastPageIds(pages: seq<string>, det: Detectors, cfg: Config, source: string)
    requires cfg.Valid() && pages != []
    ensures var before := Fold(pages[..|pages| - 1], det, cfg, source).rows;
      var after := Fold(pages, det, cfg, source).rows;
      && before <= after
      && forall k :: |before| <= k < |after| ==>
           after[k].page == |pages| && after[k].id == RowId(source, |pages|, k - |before| + 1)
  {
    LastPageRows(pages, det, cfg, source);
  }

  /** Every row belongs to one of the pages, names the document, and carries
      the labels in force after its page was read. */
  lemma {:induction false} RowsCarryLabels(pages: seq<string>, det: Detectors, cfg: Config, source: string)
    requires cfg.Valid()
    ensures var rows := Fold(pages, det, cfg, source).rows;
      forall k :: 0 <= k < |rows| ==>
        && 1 <= rows[k].page <= |pages|
        && rows[k].source == source
        && rows[k].chapter == Fold(pages[..rows[k].page], det, cfg, source).lastChap
        && rows[k].section == (if cfg.includeSection
                               then Some(Fold(pages[..rows[k].page], det, cfg, source).lastSec)
                               else None)
    decreases |pages|
  {
    if pages != [] {
      var prefix := pages[..|pages| - 1];
      RowsCarryLabels(prefix, det, cfg, source);
      LastPageRows(pages, det, cfg, source);
      var old_rows := Fold(prefix, det, cfg, source).rows;
      var rows := Fold(pages, det, cfg, source).rows;
      assert pages[..|pages|] == pages;
      forall k | 0 <= k < |rows|
        ensures 1 <= rows[k].page <= |pages|
        ensures rows[k].chapter == Fold(pages[..rows[k].page], det, cfg, source).lastChap
        ensures rows[k].section == (if cfg.includeSection
                                    then Some(Fold(pages[..rows[k].page], det, cfg, source).lastSec)
                                    else None)
      {
        if k < |old_rows| {
          assert rows[k] == old_rows[k];
          assert rows[k].page <= |prefix|;
          assert prefix[..rows[k].page] == pages[..rows[k].page];
        }
      }
    }
  }

  /** Every row's page is one of the pages read. */
  lemma {:induction false} RowPagesInRange(pages: seq<string>, det: Detectors, cfg: Config, source: string)
    requires cfg.Valid()
    ensures var rows := Fold(pages, det, cfg, source).rows;
      forall k :: 0 <= k < |rows| ==> 1 <= rows[k].page <= |pages|
    decreases |pages|
  {
    if pages != [] {
      var prefix := pages[..|pages| - 1];
      RowPagesInRange(prefix, det, cfg, source);
      LastPageRows(pages, det, cfg, source);
      var old_rows := Fold(prefix, det, cfg, source).rows;
      var rows := Fold(pages, det, cfg, source).rows;
      forall k | 0 <= k < |rows|
        ensures 1 <= rows[k].page <= |pages|
      {
        if k < |old_rows| {
          assert rows[k] == old_rows[k];
        }
      }
    }
  }

  /** Pages never decrease along `rows`. */
  predicate PageOrdered(rows: seq<Row>) {
    forall a, b :: 0 <= a < b < |rows| ==> rows[a].page <= rows[b].page
  }

  /** Rows appear in page order: all rows of earlier pages come first. */
  lemma {:induction false} RowsInPageOrder(pages: seq<string>, det: Detectors, cfg: Config, source: string)
    requires cfg.Valid()
    ensures PageOrdered(Fold(pages, det, cfg, source).rows)
    decreases |pages|
  {
    if pages != [] {
      var prefix := pages[..|pages| - 1];
      RowsInPageOrder(prefix, det, cfg, source);
      RowPagesInRange(prefix, det, cfg, source);
      LastPageIds(pages, det, cfg, source);
      OrderedAfterAppend(Fold(prefix, det, cfg, source).rows, Fold(pages, det, cfg, source).rows, |pages|);
    }
  }

  /** Appending rows of a page no earlier than every row keeps the page order. */
  lemma OrderedAfterAppend(old_rows: seq<Row>, rows: seq<Row>, page: nat)
    requires old_rows <= rows && PageOrdered(old_rows)
    requires forall k :: 0 <= k < |old_rows| ==> old_rows[k].page <= page
    requires forall k :: |old_rows| <= k < |rows| ==> rows[k].page == page
    ensures PageOrdered(rows)
  {
    forall a, b | 0 <= a < b < |rows|
      ensures rows[a].page <= rows[b].page
    {
      if a < |old_rows| {
        assert rows[a] == old_rows[a];
        if b < |old_rows| {
          assert rows[b] == old_rows[b];
        }
      }
    }
  }

  /** How many of `rows` belong to page `page`. */
  function CountPage(rows: seq<Row>, page: nat): nat {
    if rows == [] then 0 else (if rows[0].page == page then 1 else 0) + CountPage(rows[1..], page)
  }

  lemma {:induction false} CountPageAppend(a: seq<Row>, b: seq<Row>, page: nat)
    ensures CountPage(a + b, page) == CountPage(a, page) + CountPage(b, page)
  {
    if a == [] {
      assert a + b == b;
    } else {
      assert (a + b)[0] == a[0] && (a + b)[1..] == a[1..] + b;
      CountPageAppend(a[1..], b, page);
    }
  }

  lemma {:induction false} CountPageNone(rows: seq<Row>, page: nat)
    requires forall k :: 0 <= k < |rows| ==> rows[k].page != page
    ensures CountPage(rows, page) == 0
  {
    if rows != [] {
      CountPageNone(rows[1..], page);
    }
  }

  lemma {:induction false} CountPageAll(rows: seq<Row>, page: nat)
    requires forall k :: 0 <= k < |rows| ==> rows[k].page == page
    ensures CountPage(rows, page) == |rows|
  {
    if rows != [] {
      CountPageAll(rows[1..], page);
    }
  }

  /** Each row's id names the document, the row's page and its position among
      the rows of that page, counted from 1. */
  predicate NumberedIds(rows: seq<Row>, source: string) {
    forall k :: 0 <= k < |rows| ==>
      rows[k].id == RowId(source, rows[k].page, CountPage(rows[..k], rows[k].page) + 1)
  }

  /** Row ids number the chunks of each page from 1. */
  lemma {:induction false} RowIdsNumberChunks(pages: seq<string>, det: Detectors, cfg: Config, source: string)
    requires cfg.Valid()
    ensures NumberedIds(Fold(pages, det, cfg, source).rows, source)
    decreases |pages|
  {
    if pages != [] {
      var prefix := pages[..|pages| - 1];
      RowIdsNumberChunks(prefix, det, cfg, source);
      RowPagesInRange(prefix, det, cfg, source);
      assert forall k :: 0 <= k < |Fold(prefix, det, cfg, source).rows| ==> 1 <= Fold(prefix, det, cfg, source).rows[k].page <= |prefix|;
      NumberedStep(Fold(prefix, det, cfg, source), |pages|, pages[|pages| - 1], det, cfg, source);
    }
  }

  lemma NumberedStep(acc: Acc, pageNo: nat, raw: string, det: Detectors, cfg: Config, source: string)
    requires cfg.Valid() && NumberedIds(acc.rows, source)
    requires forall k :: 0 <= k < |acc.rows| ==> acc.rows[k].page < pageNo
    ensures NumberedIds(PageStep(acc, pageNo, raw, det, cfg, source).rows, source)
  {
    if !Blank(raw) {
      NumberedRead(acc, pageNo, ExtractChapterAndSection(raw, det), CleanPage(raw, det), cfg, source);
    }
  }

  lemma NumberedRead(acc: Acc, pageNo: nat, found: (Option<string>, Option<string>), cleaned: string,
                     cfg: Config, source: string)
    requires cfg.Valid() && NumberedIds(acc.rows, source)
    requires forall k :: 0 <= k < |acc.rows| ==> acc.rows[k].page < pageNo
    ensures NumberedIds(ReadPage(acc, pageNo, found, cleaned, cfg, source).rows, source)
  {
    ReadPageRows(acc, pageNo, found, cleaned, cfg, source);
    NumberedAfterAppend(acc.rows, ReadPage(acc, pageNo, found, cleaned, cfg, source).rows, source, pageNo);
  }

  /** Appending the rows of a new page keeps every id numbered by its position
      among its page's rows. */
  lemma NumberedAfterAppend(old_rows: seq<Row>, rows: seq<Row>, source: string, page: nat)
    requires old_rows <= rows
    requires NumberedIds(old_rows, source)
    requires forall k :: 0 <= k < |old_rows| ==> old_rows[k].page < page
    requires forall k :: |old_rows| <= k < |rows| ==>
      rows[k].page == page && rows[k].id == RowId(source, page, k - |old_rows| + 1)
    ensures NumberedIds(rows, source)
  {
    forall k | 0 <= k < |rows|
      ensures rows[k].id == RowId(source, rows[k].page, CountPage(rows[..k], rows[k].page) + 1)
    {
      if k < |old_rows| {
        assert rows[k] == old_rows[k] && rows[..k] == old_rows[..k];
      } else {
        FreshRowCount(old_rows, rows, page, k);
      }
    }
  }

  /** A row of the new page is preceded by exactly the new page's rows before it. */
  lemma FreshRowCount(old_rows: seq<Row>, rows: seq<Row>, page: nat, k: nat)
    requires old_rows <= rows && |old_rows| <= k < |rows|
    requires forall k :: 0 <= k < |old_rows| ==> old_rows[k].page < page
    requires forall k :: |old_rows| <= k < |rows| ==> rows[k].page == page
    ensures CountPage(rows[..k], page) == k - |old_rows|
  {
    var fresh_rows := rows[|old_rows|..k];
    assert rows[..k] == old_rows + fresh_rows;
    CountPageAppend(old_rows, fresh_rows, page);
    CountPageNone(old_rows, page);
    CountPageAll(fresh_rows, page);
  }

  /** Length of the leading run of digits. */
  function DigitRun(s: string): (n: nat)
    ensures n <= |s|
  {
    if s == [] || !IsDigit(s[0]) then 0 else 1 + DigitRun(s[1..])
  }

  lemma {:induction false} DigitRunLength(a: string, sep: char, x: string)
    requires AllDigits(a) && !IsDigit(sep)
    ensures DigitRun(a + [sep] + x) == |a|
  {
    if a != [] {
      assert (a + [sep] + x)[1..] == a[1..] + [sep] + x;
      DigitRunLength(a[1..], sep, x);
    }
  }

  /** Two digit strings followed by a separator that is not a digit can be told apart. */
  lemma DigitsBeforeSeparator(a: string, b: string, sep: char, x: string, y: string)
    requires AllDigits(a) && AllDigits(b) && !IsDigit(sep)
    requires a + [sep] + x == b + [sep] + y
    ensures a == b && x == y
  {
    var s := a + [sep] + x;
    DigitRunLength(a, sep, x);
    DigitRunLength(b, sep, y);
    assert a == s[..|a|] && b == (b + [sep] + y)[..|b|];
    assert x == s[|a| + 1..];
  }

  /** Rendering natural numbers is injective. */
  lemma NatToStringInjective(m: nat, n: nat)
    requires NatToString(m) == NatToString(n)
    ensures m == n
  {
    ParseNatToString(m);
    ParseNatToString(n);
  }

  /** Row ids of one source determine the page and the chunk index. */
  lemma RowIdInjective(source: string, p: nat, i: nat, q: nat, j: nat)
    requires RowId(source, p, i) == RowId(source, q, j)
    ensures p == q && i == j
  {
    var tail1 := NatToString(p) + [':'] + ("c" + NatToString(i));
    var tail2 := NatToString(q) + [':'] + ("c" + NatToString(j));
    assert RowId(source, p, i) == source + ":p" + tail1;
    assert RowId(source, q, j) == source + ":p" + tail2;
    assert tail1 == RowId(source, p, i)[|source| + 2..];
    DigitsBeforeSeparator(NatToString(p), NatToString(q), ':', "c" + NatToString(i), "c" + NatToString(j));
    NatToStringInjective(p, q);
    assert NatToString(i) == ("c" + NatToString(i))[1..];
    NatToStringInjective(i, j);
  }

  /** No two rows share an id. */
  lemma RowIdsDistinct(pages: seq<string>, det: Detectors, cfg: Config, source: string)
    requires cfg.Valid()
    ensures var rows := Fold(pages, det, cfg, source).rows;
      forall a, b :: 0 <= a < b < |rows| ==> rows[a].id != rows[b].id
  {
    RowIdsNumberChunks(pages, det, cfg, source);
    NumberedIdsDistinct(Fold(pages, det, cfg, source).rows, source);
  }

  /** Ids numbered by position within the page are pairwise distinct. */
  lemma NumberedIdsDistinct(rows: seq<Row>, source: string)
    requires NumberedIds(rows, source)
    ensures forall a, b :: 0 <= a < b < |rows| ==> rows[a].id != rows[b].id
  {
    forall a, b | 0 <= a < b < |rows|
      ensures rows[a].id != rows[b].id
    {
      if rows[a].id == rows[b].id {
        var p := rows[a].page;
        var i := CountPage(rows[..a], p) + 1;
        var j := CountPage(rows[..b], rows[b].page) + 1;
        RowIdInjective(source, p, i, rows[b].page, j);
        LaterSamePageCountsMore(rows, a, b);
      }
    }
  }

  /** A later row of the same page has counted one more row of that page before it. */
  lemma LaterSamePageCountsMore(rows: seq<Row>, a: nat, b: nat)
    requires a < b < |rows| && rows[a].page == rows[b].page
    ensures CountPage(rows[..b], rows[a].page) > CountPage(rows[..a], rows[a].page)
  {
    var p := rows[a].page;
    assert rows[..b] == rows[..a] + [rows[a]] + rows[a + 1..b];
    CountPageAppend(rows[..a] + [rows[a]], rows[a + 1..b], p);
    CountPageAppend(rows[..a], [rows[a]], p);
  }

  /** A document whose pages are all blank produces no rows, so ingestion fails. */
  lemma BlankDocumentFails(pages: seq<string>, pdfPath: string, det: Detectors, cfg: Config)
    requires cfg.Valid() && forall q :: 0 <= q < |pages| ==> Blank(pages[q])
    ensures IngestRows(pages, pdfPath, det, cfg) == Failure(NoRowsMessage)
  {
    BlankPagesNoRows(pages, det, cfg, Basename(pdfPath));
  }

  lemma {:induction false} BlankPagesNoRows(pages: seq<string>, det: Detectors, cfg: Config, source: string)
    requires cfg.Valid() && forall q :: 0 <= q < |pages| ==> Blank(pages[q])
    ensures Fold(pages, det, cfg, source).rows == []
    decreases |pages|
  {
    if pages != [] {
      BlankPagesNoRows(pages[..|pages| - 1], det, cfg, source);
    }
  }

  /** Whenever ingestion succeeds it yields at least one row. */
  lemma SuccessHasRows(pages: seq<string>, pdfPath: string, det: Detectors, cfg: Config)
    requires cfg.Valid()
    ensures IngestRows(pages, pdfPath, det, cfg).Success? ==> IngestRows(pages, pdfPath, det, cfg).value != []
  {
  }
}
