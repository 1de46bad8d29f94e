/** Context packaging in chat() (app.py): from the top chunks, the
    relevant text, the distinct page numbers, the images stored for those
    pages (with their paths normalised) and the page references. */
module Retrieval {
  import opened Wrappers
  import opened Text
  import opened Ranking

  /** A row of pdf_images. */
  datatype ImageRow = ImageRow(pdfId: string, pageNumber: nat, imagePath: Option<string>)

  /** An entry of context['images']. */
  datatype ImageRef = ImageRef(pageNumber: nat, imagePath: string)

  /** An entry of context['pdfReferences']. */
  datatype PdfRef = PdfRef(pdfId: string, pageNumber: nat)

  /** The context dictionary. */
  datatype Context = Context(relevantText: string, images: seq<ImageRef>, references: seq<PdfRef>)

  /** Separator between the kept chunks' texts. */
  const ChunkSeparator: string := "\n\n"

  /** The prefix stripped from stored image paths. */
  const ImagesPrefix: string := "data/images/"

  /** path.replace('\\', '/'). */
  function ToUnixSeparators(path: string): (r: string)
    ensures |r| == |path|
  {
    if path == [] then []
    else [if path[0] == '\\' then '/' else path[0]] + ToUnixSeparators(path[1..])
  }

  /** Every backslash becomes a slash and nothing else changes. */
  lemma {:induction false} ToUnixSeparatorsSpec(path: string)
    ensures forall i :: 0 <= i < |path| ==>
              ToUnixSeparators(path)[i] == (if path[i] == '\\' then '/' else path[i])
  {
    if path != [] {
      ToUnixSeparatorsSpec(path[1..]);
    }
  }

  /** The imagePath stored in the context for a raw image_path. */
  function NormalizePath(raw: Option<string>): string {
    var path := ToUnixSeparators(raw.GetOr(""));
    if ImagesPrefix <= path then path[|ImagesPrefix|..] else path
  }

  /** A normalised path has no backslash; a leading data/images/ is removed
      once, and a path without it is only slash-converted. */
  lemma NormalizePathSpec(raw: Option<string>)
    ensures '\\' !in NormalizePath(raw)
    ensures var path := ToUnixSeparators(raw.GetOr(""));
            if ImagesPrefix <= path then ImagesPrefix + NormalizePath(raw) == path
            else NormalizePath(raw) == path
  {
    var path := ToUnixSeparators(raw.GetOr(""));
    ToUnixSeparatorsSpec(raw.GetOr(""));
    assert '\\' !in path;
    if ImagesPrefix <= path {
      var r := path[|ImagesPrefix|..];
      assert forall i :: 0 <= i < |r| ==> r[i] == path[|ImagesPrefix| + i];
      assert path == ImagesPrefix + r;
    }
  }

  lemma ToUnixAppend(a: string, b: string)
    ensures ToUnixSeparators(a + b) == ToUnixSeparators(a) + ToUnixSeparators(b)
  {
    var l := ToUnixSeparators(a + b);
    var r := ToUnixSeparators(a) + ToUnixSeparators(b);
    ToUnixSeparatorsSpec(a + b);
    ToUnixSeparatorsSpec(a);
    ToUnixSeparatorsSpec(b);
    assert forall i :: 0 <= i < |a| ==> (a + b)[i] == a[i];
    assert forall i :: |a| <= i < |a| + |b| ==> (a + b)[i] == b[i - |a|];
    assert forall i :: 0 <= i < |l| ==> l[i] == r[i];
  }

  /** A path without backslashes is left as it is. */
  lemma ToUnixIdentity(path: string)
    requires '\\' !in path
    ensures ToUnixSeparators(path) == path
  {
    ToUnixSeparatorsSpec(path);
  }

  /** The prefix written with Windows separators converts to ImagesPrefix. */
  lemma WindowsImagesPrefix()
    ensures ToUnixSeparators("data\\images\\") == ImagesPrefix
  {
    assert "data\\images\\" == "data" + ("\\" + ("images" + "\\"));
    ToUnixAppend("data", "\\" + ("images" + "\\"));
    ToUnixAppend("\\", "images" + "\\");
    ToUnixAppend("images", "\\");
    ToUnixIdentity("data");
    ToUnixIdentity("images");
    assert ToUnixSeparators("\\") == "/";
    assert "data" + ("/" + ("images" + "/")) == ImagesPrefix;
  }

  /** A path stored with Windows separators loses the prefix too. */
  lemma NormalizeWindowsPath(rest: string)
    ensures NormalizePath(Some("data\\images\\" + rest)) == ToUnixSeparators(rest)
  {
    ToUnixAppend("data\\images\\", rest);
    WindowsImagesPrefix();
    var path := ImagesPrefix + ToUnixSeparators(rest);
    assert path[|ImagesPrefix|..] == ToUnixSeparators(rest);
  }

  /** [c['text'] for c in top_chunks]. */
  function Texts(top: seq<ScoredChunk>): seq<string> {
    seq(|top|, i requires 0 <= i < |top| => top[i].text)
  }

  /** set([c['page_number'] for c in top_chunks]). */
  function PageSet(top: seq<ScoredChunk>): set<nat> {
    set c | c in top :: c.pageNumber
  }

  function Elements(s: seq<nat>): set<nat> {
    set x | x in s
  }

  predicate Distinct(s: seq<nat>) {
    forall i, j :: 0 <= i < j < |s| ==> s[i] != s[j]
  }

  /** list(set(...)): the page numbers, each once, in an order the language
      leaves unspecified (here: whichever element is picked first). */
  method DistinctPages(top: seq<ScoredChunk>) returns (pages: seq<nat>)
    ensures Distinct(pages)
    ensures Elements(pages) == PageSet(top)
    ensures |pages| == |PageSet(top)|
  {
    var remaining := PageSet(top);
    pages := [];
    while remaining != {}
      invariant Distinct(pages)
      invariant Elements(pages) !! remaining
      invariant Elements(pages) + remaining == PageSet(top)
      invariant |pages| + |remaining| == |PageSet(top)|
      decreases |remaining|
    {
      var p :| p in remaining;
      assert Elements(pages + [p]) == Elements(pages) + {p};
      pages := pages + [p];
      remaining := remaining - {p};
    }
  }

  /** Some page number comes out of a non-empty top list, so the query for
      all images of the document is never the one made. */
  lemma PageSetNonEmpty(top: seq<ScoredChunk>)
    requires top != []
    ensures PageSet(top) != {}
  {
    assert top[0].pageNumber in PageSet(top);
  }

  /** The pdf_images rows the query returns: those of the document on the
      given pages, or all of the document's rows when no page is given. */
  function ImageQuery(table: seq<ImageRow>, pdfId: string, pages: seq<nat>): seq<ImageRow>
    decreases |table|
  {
    if table == [] then []
    else
      var n := |table| - 1;
      var row := table[n];
      ImageQuery(table[..n], pdfId, pages)
        + (if row.pdfId == pdfId && (pages == [] || row.pageNumber in pages) then [row] else [])
  }

  /** A row is returned exactly when it belongs to the document and, if pages
      are given, lies on one of them. */
  lemma {:induction false} ImageQueryMembers(table: seq<ImageRow>, pdfId: string, pages: seq<nat>, row: ImageRow)
    ensures row in ImageQuery(table, pdfId, pages) <==>
              row in table && row.pdfId == pdfId && (pages == [] || row.pageNumber in pages)
    decreases |table|
  {
    if table != [] {
      var n := |table| - 1;
      ImageQueryMembers(table[..n], pdfId, pages, row);
      assert table == table[..n] + [table[n]];
    }
  }

  /** The query depends only on which pages are given, not their order. */
  lemma {:induction false} ImageQuerySamePages(table: seq<ImageRow>, pdfId: string, p: seq<nat>, q: seq<nat>)
    requires Elements(p) == Elements(q)
    ensures ImageQuery(table, pdfId, p) == ImageQuery(table, pdfId, q)
    decreases |table|
  {
    if table != [] {
      var n := |table| - 1;
      ImageQuerySamePages(table[..n], pdfId, p, q);
      assert table[n].pageNumber in p <==> table[n].pageNumber in Elements(p);
      assert table[n].pageNumber in q <==> table[n].pageNumber in Elements(q);
      assert p == [] <==> Elements(p) == {} by {
        if p != [] { assert p[0] in Elements(p); }
      }
      assert q == [] <==> Elements(q) == {} by {
        if q != [] { assert q[0] in Elements(q); }
      }
    }
  }

  /** The images list: one entry per returned row, its path normalised. */
  function NormalizedImages(rows: seq<ImageRow>): seq<ImageRef> {
    seq(|rows|, i requires 0 <= i < |rows| => ImageRef(rows[i].pageNumber, NormalizePath(rows[i].imagePath)))
  }

  /** The loop that builds the images list. */
  method NormalizeImages(rows: seq<ImageRow>) returns (images: seq<ImageRef>)
    ensures images == NormalizedImages(rows)
    ensures forall i :: 0 <= i < |images| ==>
              images[i].pageNumber == rows[i].pageNumber && '\\' !in images[i].imagePath
  {
    images := [];
    for i := 0 to |rows|
      invariant images == NormalizedImages(rows)[..i]
    {
      images := images + [ImageRef(rows[i].pageNumber, NormalizePath(rows[i].imagePath))];
    }
    forall i | 0 <= i < |images|
      ensures '\\' !in images[i].imagePath
    {
      NormalizePathSpec(rows[i].imagePath);
    }
  }

  /** [{'pdfId': pdf_id, 'pageNumber': pn} for pn in page_numbers]. */
  function References(pdfId: string, pages: seq<nat>): (r: seq<PdfRef>)
    ensures forall ref :: ref in r ==> ref.pdfId == pdfId && ref.pageNumber in pages
  {
    seq(|pages|, i requires 0 <= i < |pages| => PdfRef(pdfId, pages[i]))
  }

  function ReferencePages(refs: seq<PdfRef>): set<nat> {
    set r | r in refs :: r.pageNumber
  }

  /** One reference per page, all for the document, for the same pages. */
  lemma ReferencesSpec(pdfId: string, pages: seq<nat>)
    ensures ReferencePages(References(pdfId, pages)) == Elements(pages)
    ensures Distinct(pages) ==>
              forall i, j :: 0 <= i < j < |pages| ==> References(pdfId, pages)[i] != References(pdfId, pages)[j]
  {
    var refs := References(pdfId, pages);
    forall p | p in Elements(pages)
      ensures p in ReferencePages(refs)
    {
      var i :| 0 <= i < |pages| && pages[i] == p;
      assert refs[i] in refs;
    }
  }

  /** The images of the context are the normalised images of the
      document's rows on the given pages. */
  lemma RetrievedImages(table: seq<ImageRow>, pdfId: string, pages: seq<nat>, onPages: set<nat>)
    requires pages != [] && Elements(pages) == onPages
    ensures var images := NormalizedImages(ImageQuery(table, pdfId, pages));
            forall img :: img in images <==>
              exists row :: row in table && row.pdfId == pdfId && row.pageNumber in onPages &&
                            img == ImageRef(row.pageNumber, NormalizePath(row.imagePath))
  {
    var found := ImageQuery(table, pdfId, pages);
    var images := NormalizedImages(found);
    forall img: ImageRef
      ensures img in images <==>
                exists row :: row in table && row.pdfId == pdfId && row.pageNumber in onPages &&
                              img == ImageRef(row.pageNumber, NormalizePath(row.imagePath))
    {
      if img in images {
        var i :| 0 <= i < |images| && images[i] == img;
        ImageQueryMembers(table, pdfId, pages, found[i]);
        assert found[i] in found;
      }
      if exists row :: row in table && row.pdfId == pdfId && row.pageNumber in onPages &&
                       img == ImageRef(row.pageNumber, NormalizePath(row.imagePath)) {
        var row :| row in table && row.pdfId == pdfId && row.pageNumber in onPages &&
                   img == ImageRef(row.pageNumber, NormalizePath(row.imagePath));
        ImageQueryMembers(table, pdfId, pages, row);
        assert row.pageNumber in Elements(pages);
        var i :| 0 <= i < |found| && found[i] == row;
        assert images[i] == img;
      }
    }
  }

  /** What the retrieval block yields for the document's chunk rows and
      image table: None when no chunk could be scored, and otherwise the top
      chunks' texts joined, one distinct reference per page of the top
      chunks, and the normalised images of exactly those pages. */
  ghost predicate Retrieved(context: Option<Context>, pdfId: string, rows: seq<EmbeddingRow>, table: seq<ImageRow>) {
    && (context.None? <==> Scored(rows) == [])
    && (context.Some? ==>
              var top := TopChunks(Scored(rows));
              var c := context.value;
              && c.relevantText == Join(Texts(top), ChunkSeparator)
              && ReferencePages(c.references) == PageSet(top)
              && |c.references| == |PageSet(top)|
              && (forall i, j :: 0 <= i < j < |c.references| ==> c.references[i] != c.references[j])
              && (forall i :: 0 <= i < |c.references| ==> c.references[i].pdfId == pdfId)
              && (forall img :: img in c.images ==> '\\' !in img.imagePath)
              && (forall ps :: Elements(ps) == PageSet(top) ==>
                    c.images == NormalizedImages(ImageQuery(table, pdfId, ps)))
              && (forall img :: img in c.images <==>
                    exists row :: row in table && row.pdfId == pdfId && row.pageNumber in PageSet(top) &&
                                  img == ImageRef(row.pageNumber, NormalizePath(row.imagePath))))
  }

  /** The retrieval block under `if pdf_id:`: rank the document's chunks and
      package the context, or None when no chunk could be scored. */
  method Retrieve(pdfId: string, rows: seq<EmbeddingRow>, table: seq<ImageRow>) returns (context: Option<Context>)
    ensures Retrieved(context, pdfId, rows, table)
  {
    var chunks := CollectScored(rows);
    var top := TopChunks(chunks);
    TopChunksSpec(chunks);
    if top == [] {
      return None;
    }
    var relevantText := Join(Texts(top), ChunkSeparator);
    var pages := DistinctPages(top);
    PageSetNonEmpty(top);
    var found := ImageQuery(table, pdfId, pages);
    var images := NormalizeImages(found);
    var references := References(pdfId, pages);
    context := Some(Context(relevantText, images, references));
    ReferencesSpec(pdfId, pages);
    RetrievedImages(table, pdfId, pages, PageSet(top));
    assert images == NormalizedImages(ImageQuery(table, pdfId, pages));
    forall ps | Elements(ps) == PageSet(top)
      ensures images == NormalizedImages(ImageQuery(table, pdfId, ps))
    {
      ImageQuerySamePages(table, pdfId, pages, ps);
    }
  }
}
