/** The page loop of upload_pdf (app.py): for every page, pick the page text
    through a chain of extraction fallbacks, store one page row, and store
    the page's chunks as embedding rows -- once when the text is long enough,
    and then a second time unconditionally. The PDF library's extraction
    calls are given as input values; the tables are in-memory sequences. */
module Ingest {
  import opened Wrappers
  import opened Text
  import opened Chunker
  import opened Seqs

  /** Texts whose stripped length is below this trigger the next fallback;
      only texts whose stripped length exceeds it get the first chunk pass. */
  const ShortText: nat := 10

  /** What one call of page.extract_text(...) did: raised, or returned a
      string or None. */
  datatype TextAttempt = Raises | Returns(text: Option<string>)

  /** What page.extract_words() did: raised, or returned the words' texts. */
  datatype WordsAttempt = WordsRaise | WordsReturn(words: seq<string>)

  /** The extraction results of one page: the standard call, the call with
      x_tolerance=3, y_tolerance=3, and the word-by-word call. */
  datatype PageSource = PageSource(standard: TextAttempt, tolerant: TextAttempt, words: WordsAttempt)

  /** A row of pdf_pages. */
  datatype PageRow = PageRow(pdfId: string, pageNumber: nat, text: string)

  /** A row of embeddings; a page is identified by its number (the page's
      uuid is not modelled). */
  datatype ChunkRow = ChunkRow(pdfId: string, pageNumber: nat, text: string, chunkIndex: nat)

  /** `extract_text() or ''`. */
  function OrEmpty(t: Option<string>): string {
    t.GetOr("")
  }

  predicate IsShort(text: string) {
    |Trim(text)| < ShortText
  }

  /** The text stored for a page nothing could be extracted from. */
  function Placeholder(pageNumber: nat): string {
    "[Contenido no extraíble de la página " + NatToString(pageNumber) + "]"
  }

  /** The placeholder is not blank and long enough to be chunked twice. */
  lemma PlaceholderIsLong(pageNumber: nat)
    ensures Trim(Placeholder(pageNumber)) == Placeholder(pageNumber)
    ensures |Trim(Placeholder(pageNumber))| > ShortText
    ensures !IsBlank(Placeholder(pageNumber))
  {
    var p := Placeholder(pageNumber);
    assert p[0] == '[' && p[|p| - 1] == ']';
    assert TrimLeft(p) == p;
  }

  /** The text after the standard extraction (`extract_text() or ''`). */
  function StandardStep(src: PageSource): string {
    match src.standard
    case Raises => ""
    case Returns(t) => OrEmpty(t)
  }

  /** The text after the tolerant extraction, which is only tried when the
      standard text is short. */
  function TolerantStep(src: PageSource): string {
    var text1 := StandardStep(src);
    if !IsShort(text1) then text1
    else match src.tolerant
      case Raises => ""
      case Returns(t) => OrEmpty(t)
  }

  /** The text after the word extraction, which is only tried when the text
      is still short, and only used when it found some words. */
  function WordsStep(src: PageSource): string {
    var text2 := TolerantStep(src);
    if IsShort(text2) && src.words.WordsReturn? && src.words.words != [] then Join(src.words.words, " ")
    else text2
  }

  /** One of the extraction calls the page loop makes for this page raises. */
  predicate ExtractionRaises(src: PageSource) {
    || src.standard.Raises?
    || (IsShort(StandardStep(src)) && src.tolerant.Raises?)
    || (IsShort(TolerantStep(src)) && src.words.WordsRaise?)
  }

  /** The text upload_pdf stores for the page with 0-based index pageIndex,
      or None when one of the extraction calls it makes raises (the page is
      then skipped). */
  function PageText(src: PageSource, pageIndex: nat): (r: Option<string>)
    ensures r.None? <==> ExtractionRaises(src)
    ensures r.Some? && IsBlank(WordsStep(src)) ==> r.value == Placeholder(pageIndex + 1)
    ensures r.Some? && !IsBlank(WordsStep(src)) ==> r.value == WordsStep(src)
    ensures src.standard.Returns? && !IsShort(OrEmpty(src.standard.text)) ==>
              r == Some(OrEmpty(src.standard.text))
    ensures r.Some? ==> !IsBlank(r.value)
    ensures r.Some? ==>
              || r.value == OrEmpty(src.standard.text)
              || (src.tolerant.Returns? && r.value == OrEmpty(src.tolerant.text))
              || (src.words.WordsReturn? && r.value == Join(src.words.words, " "))
              || r.value == Placeholder(pageIndex + 1)
  {
    match src.standard
    case Raises => None
    case Returns(t0) =>
      var text1 := OrEmpty(t0);
      if IsShort(text1) && src.tolerant.Raises? then None
      else
        var text2 := if IsShort(text1) then OrEmpty(src.tolerant.text) else text1;
        if IsShort(text2) && src.words.WordsRaise? then None
        else
          var text3 := if IsShort(text2) && src.words.words != [] then Join(src.words.words, " ") else text2;
          assert text3 == WordsStep(src);
          TrimEmptyIffBlank(text3);
          PlaceholderIsLong(pageIndex + 1);
          Some(if Trim(text3) == [] then Placeholder(pageIndex + 1) else text3)
  }

  /** enumerate(chunks) as embedding rows of one page. */
  function IndexedRows(pdfId: string, pageNumber: nat, chunks: seq<string>): (rows: seq<ChunkRow>)
  {
    seq(|chunks|, i requires 0 <= i < |chunks| => ChunkRow(pdfId, pageNumber, chunks[i], i))
  }

  /** The embedding rows of a stored page: the first pass when the stripped
      text is longer than ShortText, then the unconditional second pass. */
  function ChunkRowsFor(pdfId: string, pageNumber: nat, text: string): seq<ChunkRow> {
    var rows := IndexedRows(pdfId, pageNumber, DefaultChunks(text));
    if |Trim(text)| > ShortText then rows + rows else rows
  }

  /** What the extraction fallbacks give for every page of the file. */
  function PageTexts(sources: seq<PageSource>): seq<Option<string>> {
    seq(|sources|, i requires 0 <= i < |sources| => PageText(sources[i], i))
  }

  /** The page rows one page contributes: none for a skipped page. */
  function PageRowsAt(pdfId: string, text: Option<string>, pageIndex: nat): seq<PageRow> {
    match text
    case None => []
    case Some(t) => [PageRow(pdfId, pageIndex + 1, t)]
  }

  /** The embedding rows one page contributes: none for a skipped page. */
  function ChunkRowsAt(pdfId: string, text: Option<string>, pageIndex: nat): seq<ChunkRow> {
    match text
    case None => []
    case Some(t) => ChunkRowsFor(pdfId, pageIndex + 1, t)
  }

  /** The page rows of the whole upload, page by page. */
  function UploadPageRows(pdfId: string, texts: seq<Option<string>>): seq<PageRow>
    decreases |texts|
  {
    if texts == [] then []
    else
      var n := |texts| - 1;
      UploadPageRows(pdfId, texts[..n]) + PageRowsAt(pdfId, texts[n], n)
  }

  /** The embedding rows of the whole upload, page by page. */
  function UploadChunkRows(pdfId: string, texts: seq<Option<string>>): seq<ChunkRow>
    decreases |texts|
  {
    if texts == [] then []
    else
      var n := |texts| - 1;
      UploadChunkRows(pdfId, texts[..n]) + ChunkRowsAt(pdfId, texts[n], n)
  }

  /** The page numbers that have a page row. */
  function PageNumbers(rows: seq<PageRow>): set<nat> {
    set r | r in rows :: r.pageNumber
  }

  /** The pdf_pages and embeddings tables. */
  class Store {
    var pages: seq<PageRow>
    var chunks: seq<ChunkRow>

    constructor ()
      ensures pages == [] && chunks == []
    {
      pages := [];
      chunks := [];
    }

    /** INSERT INTO pdf_pages. */
    method InsertPage(row: PageRow)
      modifies this
      ensures pages == old(pages) + [row]
      ensures chunks == old(chunks)
    {
      pages := pages + [row];
    }

    /** INSERT INTO embeddings. */
    method InsertChunk(row: ChunkRow)
      modifies this
      ensures chunks == old(chunks) + [row]
      ensures pages == old(pages)
    {
      chunks := chunks + [row];
    }
  }

  /** `for i, chunk in enumerate(chunks)`: one embedding row per chunk. */
  method InsertChunks(db: Store, pdfId: string, pageNumber: nat, chunks: seq<string>)
    modifies db
    ensures db.chunks == old(db.chunks) + IndexedRows(pdfId, pageNumber, chunks)
    ensures db.pages == old(db.pages)
  {
    var rows := IndexedRows(pdfId, pageNumber, chunks);
    for i := 0 to |chunks|
      invariant db.chunks == old(db.chunks) + rows[..i]
      invariant db.pages == old(db.pages)
    {
      db.InsertChunk(ChunkRow(pdfId, pageNumber, chunks[i], i));
      assert rows[..i + 1] == rows[..i] + [rows[i]];
    }
    assert rows[..|chunks|] == rows;
  }

  /** The text fallbacks of the page loop: standard extraction, then the
      tolerant one, then the words, then the placeholder; None when one of
      the extraction calls made raises. */
  method ExtractPageText(src: PageSource, pageIndex: nat) returns (r: Option<string>)
    ensures r == PageText(src, pageIndex)
  {
    if src.standard.Raises? {
      return None;
    }
    var text := OrEmpty(src.standard.text);
    if |Trim(text)| < ShortText {
      if src.tolerant.Raises? {
        return None;
      }
      text := OrEmpty(src.tolerant.text);
    }
    if |Trim(text)| < ShortText {
      if src.words.WordsRaise? {
        return None;
      }
      if src.words.words != [] {
        text := Join(src.words.words, " ");
      }
    }
    if Trim(text) == [] {
      text := Placeholder(pageIndex + 1);
    }
    return Some(text);
  }

  /** The two chunk passes for a stored page. */
  method StorePageChunks(db: Store, pdfId: string, pageNumber: nat, text: string)
    modifies db
    ensures db.chunks == old(db.chunks) + ChunkRowsFor(pdfId, pageNumber, text)
    ensures db.pages == old(db.pages)
  {
    if |Trim(text)| > ShortText {
      var first := ChunkText(text, DefaultChunkSize, DefaultOverlap);
      InsertChunks(db, pdfId, pageNumber, first.value);
    }
    var second := ChunkText(text, DefaultChunkSize, DefaultOverlap);
    InsertChunks(db, pdfId, pageNumber, second.value);
  }

  /** The rest of the loop body: store the page row and its embedding rows,
      or nothing when extraction raised (`continue`). */
  method StorePage(db: Store, pdfId: string, text: Option<string>, pageIndex: nat)
    modifies db
    ensures db.pages == old(db.pages) + PageRowsAt(pdfId, text, pageIndex)
    ensures db.chunks == old(db.chunks) + ChunkRowsAt(pdfId, text, pageIndex)
  {
    if text.None? {
      return;
    }
    var pageNumber := pageIndex + 1;
    db.InsertPage(PageRow(pdfId, pageNumber, text.value));
    StorePageChunks(db, pdfId, pageNumber, text.value);
  }

  /** One more page extends the rows of the pages before it. */
  lemma UploadRowsSnoc(pdfId: string, texts: seq<Option<string>>, i: nat)
    requires i < |texts|
    ensures UploadPageRows(pdfId, texts[..i + 1])
         == UploadPageRows(pdfId, texts[..i]) + PageRowsAt(pdfId, texts[i], i)
    ensures UploadChunkRows(pdfId, texts[..i + 1])
         == UploadChunkRows(pdfId, texts[..i]) + ChunkRowsAt(pdfId, texts[i], i)
  {
    assert texts[..i + 1][..i] == texts[..i];
  }

  /** The page loop of upload_pdf over all pages of the file. */
  method UploadPages(db: Store, pdfId: string, sources: seq<PageSource>)
    modifies db
    ensures db.pages == old(db.pages) + UploadPageRows(pdfId, PageTexts(sources))
    ensures db.chunks == old(db.chunks) + UploadChunkRows(pdfId, PageTexts(sources))
  {
    ghost var texts := PageTexts(sources);
    for pageIndex := 0 to |sources|
      invariant db.pages == old(db.pages) + UploadPageRows(pdfId, texts[..pageIndex])
      invariant db.chunks == old(db.chunks) + UploadChunkRows(pdfId, texts[..pageIndex])
    {
      var text := ExtractPageText(sources[pageIndex], pageIndex);
      assert text == texts[pageIndex];
      StorePage(db, pdfId, text, pageIndex);
      UploadRowsSnoc(pdfId, texts, pageIndex);
      AppendAssoc(old(db.pages), UploadPageRows(pdfId, texts[..pageIndex]), PageRowsAt(pdfId, text, pageIndex));
      AppendAssoc(old(db.chunks), UploadChunkRows(pdfId, texts[..pageIndex]), ChunkRowsAt(pdfId, text, pageIndex));
    }
    assert texts[..|sources|] == texts;
  }

  /** A stored page yields at least one chunk; its embedding rows are its
      chunks numbered from 0, once, or twice -- each pass restarting at 0 --
      when its stripped text is longer than ShortText. */
  lemma ChunkPasses(pdfId: string, pageNumber: nat, text: string)
    requires !IsBlank(text)
    ensures var chunks := DefaultChunks(text);
            var rows := ChunkRowsFor(pdfId, pageNumber, text);
            && |chunks| >= 1
            && |rows| == (if |Trim(text)| > ShortText then 2 else 1) * |chunks|
            && (forall p :: 0 <= p < |chunks| ==> rows[p] == ChunkRow(pdfId, pageNumber, chunks[p], p))
            && (|Trim(text)| > ShortText ==>
                  forall p :: 0 <= p < |chunks| ==> rows[|chunks| + p] == ChunkRow(pdfId, pageNumber, chunks[p], p))
  {
    ChunksNonBlank(text, DefaultChunkSize, DefaultOverlap);
  }

  /** Placeholder pages are always chunked twice. */
  lemma PlaceholderChunkedTwice(pdfId: string, pageNumber: nat)
    ensures var rows := IndexedRows(pdfId, pageNumber, DefaultChunks(Placeholder(pageNumber)));
            ChunkRowsFor(pdfId, pageNumber, Placeholder(pageNumber)) == rows + rows
  {
    PlaceholderIsLong(pageNumber);
  }

  /** Page rows belong to the upload, carry 1-based page numbers in
      increasing order, and hold the text extracted for their page. */
  lemma {:induction false} UploadPageRowsOrdered(pdfId: string, texts: seq<Option<string>>)
    ensures var rows := UploadPageRows(pdfId, texts);
            && (forall r :: r in rows ==>
                  r.pdfId == pdfId && 1 <= r.pageNumber <= |texts| && texts[r.pageNumber - 1] == Some(r.text))
            && (forall i, j :: 0 <= i < j < |rows| ==> rows[i].pageNumber < rows[j].pageNumber)
    decreases |texts|
  {
    if texts != [] {
      var n := |texts| - 1;
      var prev := UploadPageRows(pdfId, texts[..n]);
      var last := PageRowsAt(pdfId, texts[n], n);
      UploadPageRowsOrdered(pdfId, texts[..n]);
      assert UploadPageRows(pdfId, texts) == prev + last;
      assert forall r :: r in last ==> r.pdfId == pdfId && r.pageNumber == n + 1 && texts[n] == Some(r.text);
      assert forall i :: 0 <= i < |prev| ==> prev[i] in prev;
      assert forall i :: 0 <= i < n ==> texts[..n][i] == texts[i];
    }
  }

  /** Page i (0-based) has a row, with number i + 1 and text t, exactly when
      its extraction gave t. */
  lemma {:induction false} UploadPageRowFor(pdfId: string, texts: seq<Option<string>>, i: nat, t: string)
    requires i < |texts|
    ensures PageRow(pdfId, i + 1, t) in UploadPageRows(pdfId, texts) <==> texts[i] == Some(t)
    decreases |texts|
  {
    var n := |texts| - 1;
    var prev := UploadPageRows(pdfId, texts[..n]);
    UploadPageRowsOrdered(pdfId, texts[..n]);
    assert UploadPageRows(pdfId, texts) == prev + PageRowsAt(pdfId, texts[n], n);
    if i < n {
      UploadPageRowFor(pdfId, texts[..n], i, t);
      assert texts[..n][i] == texts[i];
    }
  }

  /** Page i (0-based) has a row exactly when its extraction gave a text,
      and then the row holds that text. */
  lemma PageStoredIff(pdfId: string, texts: seq<Option<string>>, i: nat)
    requires i < |texts|
    ensures var rows := UploadPageRows(pdfId, texts);
            && ((exists r :: r in rows && r.pageNumber == i + 1) <==> texts[i].Some?)
            && (texts[i].Some? ==> PageRow(pdfId, i + 1, texts[i].value) in rows)
  {
    UploadPageRowsOrdered(pdfId, texts);
    if texts[i].Some? {
      UploadPageRowFor(pdfId, texts, i, texts[i].value);
    }
  }

  /** Over a real upload: every stored page text is non-blank, and page i
      (0-based) is stored, as page number i + 1, exactly when none of the
      extraction calls made for it raised -- with the text after the
      fallbacks, or the placeholder when that text is blank. */
  lemma UploadStoresExtractedPages(pdfId: string, sources: seq<PageSource>, i: nat)
    requires i < |sources|
    ensures var rows := UploadPageRows(pdfId, PageTexts(sources));
            && (forall r :: r in rows ==> !IsBlank(r.text))
            && ((exists r :: r in rows && r.pageNumber == i + 1) <==> !ExtractionRaises(sources[i]))
            && (!ExtractionRaises(sources[i]) ==>
                  var t := WordsStep(sources[i]);
                  PageRow(pdfId, i + 1, if IsBlank(t) then Placeholder(i + 1) else t) in rows)
  {
    var texts := PageTexts(sources);
    var rows := UploadPageRows(pdfId, texts);
    UploadPageRowsOrdered(pdfId, texts);
    forall r | r in rows
      ensures !IsBlank(r.text)
    {
      var k := r.pageNumber - 1;
      assert texts[k] == PageText(sources[k], k) == Some(r.text);
    }
    assert texts[i] == PageText(sources[i], i);
    PageStoredIff(pdfId, texts, i);
  }

  /** The rows enumerate(chunks) yields are exactly the chunks with their
      positions. */
  lemma IndexedRowsMembers(pdfId: string, pageNumber: nat, chunks: seq<string>, c: ChunkRow)
    ensures c in IndexedRows(pdfId, pageNumber, chunks) <==>
              c.pdfId == pdfId && c.pageNumber == pageNumber &&
              c.chunkIndex < |chunks| && c.text == chunks[c.chunkIndex]
  {
    var rows := IndexedRows(pdfId, pageNumber, chunks);
    if c.chunkIndex < |chunks| {
      assert rows[c.chunkIndex] == ChunkRow(pdfId, pageNumber, chunks[c.chunkIndex], c.chunkIndex);
    }
  }

  /** The embedding rows of a stored page are those of one chunk pass. */
  lemma ChunkRowsForMembers(pdfId: string, pageNumber: nat, text: string, c: ChunkRow)
    ensures c in ChunkRowsFor(pdfId, pageNumber, text) <==>
              c.pdfId == pdfId && c.pageNumber == pageNumber &&
              c.chunkIndex < |DefaultChunks(text)| && c.text == DefaultChunks(text)[c.chunkIndex]
  {
    IndexedRowsMembers(pdfId, pageNumber, DefaultChunks(text), c);
  }

  /** c holds chunk c.chunkIndex of the text extracted for page c.pageNumber. */
  predicate ChunkOfPage(pdfId: string, texts: seq<Option<string>>, c: ChunkRow) {
    && c.pdfId == pdfId && 1 <= c.pageNumber <= |texts|
    && texts[c.pageNumber - 1].Some?
    && c.chunkIndex < |DefaultChunks(texts[c.pageNumber - 1].value)|
    && c.text == DefaultChunks(texts[c.pageNumber - 1].value)[c.chunkIndex]
  }

  /** Every embedding row holds a chunk of the text extracted for its page,
      at its position among that page's chunks. */
  lemma {:induction false} UploadChunkRowsFromPages(pdfId: string, texts: seq<Option<string>>)
    ensures forall c :: c in UploadChunkRows(pdfId, texts) ==> ChunkOfPage(pdfId, texts, c)
    decreases |texts|
  {
    if texts != [] {
      var n := |texts| - 1;
      var prev := UploadChunkRows(pdfId, texts[..n]);
      var last := ChunkRowsAt(pdfId, texts[n], n);
      UploadChunkRowsFromPages(pdfId, texts[..n]);
      assert UploadChunkRows(pdfId, texts) == prev + last;
      forall c | c in prev + last
        ensures ChunkOfPage(pdfId, texts, c)
      {
        if c in prev {
          assert ChunkOfPage(pdfId, texts[..n], c);
          assert texts[..n][c.pageNumber - 1] == texts[c.pageNumber - 1];
        } else {
          ChunkRowsForMembers(pdfId, n + 1, texts[n].value, c);
        }
      }
    }
  }

  /** Referential integrity: every embedding row points at a stored page. */
  lemma ChunkRowsReferToPages(pdfId: string, texts: seq<Option<string>>)
    ensures forall c :: c in UploadChunkRows(pdfId, texts) ==>
              c.pageNumber in PageNumbers(UploadPageRows(pdfId, texts))
  {
    var pages := UploadPageRows(pdfId, texts);
    UploadChunkRowsFromPages(pdfId, texts);
    forall c | c in UploadChunkRows(pdfId, texts)
      ensures c.pageNumber in PageNumbers(pages)
    {
      assert ChunkOfPage(pdfId, texts, c);
      var i := c.pageNumber - 1;
      PageStoredIff(pdfId, texts, i);
      var row := PageRow(pdfId, i + 1, texts[i].value);
      assert row in pages && row.pageNumber == c.pageNumber;
    }
  }

  /** Every chunk of every stored page has an embedding row with its
      position as index. */
  lemma {:induction false} EveryChunkStored(pdfId: string, texts: seq<Option<string>>)
    ensures forall r, k :: r in UploadPageRows(pdfId, texts) && 0 <= k < |DefaultChunks(r.text)| ==>
              ChunkRow(pdfId, r.pageNumber, DefaultChunks(r.text)[k], k) in UploadChunkRows(pdfId, texts)
    decreases |texts|
  {
    if texts != [] {
      var n := |texts| - 1;
      EveryChunkStored(pdfId, texts[..n]);
      assert UploadPageRows(pdfId, texts) == UploadPageRows(pdfId, texts[..n]) + PageRowsAt(pdfId, texts[n], n);
      assert UploadChunkRows(pdfId, texts) == UploadChunkRows(pdfId, texts[..n]) + ChunkRowsAt(pdfId, texts[n], n);
      if texts[n].Some? {
        var t := texts[n].value;
        forall k | 0 <= k < |DefaultChunks(t)|
          ensures ChunkRow(pdfId, n + 1, DefaultChunks(t)[k], k) in ChunkRowsAt(pdfId, texts[n], n)
        {
          IndexedRowsMembers(pdfId, n + 1, DefaultChunks(t), ChunkRow(pdfId, n + 1, DefaultChunks(t)[k], k));
        }
      }
    }
  }

  /** Over a real upload, every stored page has at least one embedding row. */
  lemma EveryPageChunked(pdfId: string, sources: seq<PageSource>)
    ensures var pages := UploadPageRows(pdfId, PageTexts(sources));
            forall r :: r in pages ==>
              |DefaultChunks(r.text)| >= 1 &&
              ChunkRow(pdfId, r.pageNumber, DefaultChunks(r.text)[0], 0) in UploadChunkRows(pdfId, PageTexts(sources))
  {
    var texts := PageTexts(sources);
    UploadPageRowsOrdered(pdfId, texts);
    EveryChunkStored(pdfId, texts);
    forall r | r in UploadPageRows(pdfId, texts)
      ensures |DefaultChunks(r.text)| >= 1
    {
      ChunksNonBlank(r.text, DefaultChunkSize, DefaultOverlap);
    }
  }
}
