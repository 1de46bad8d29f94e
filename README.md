# RAG chatbot core: chunking, ingestion, retrieval and prompt assembly

A Dafny model of the retrieval-augmented chat core of `app.py`, a Flask
service that ingests PDF files and answers questions about them through a
language model. The model covers five parts of it.

- **Chunking** (`chunker.dfy`). `chunk_text` splits a page text on
  whitespace and cuts it into windows of `chunk_size` words (500). Window
  starts advance by `chunk_size - overlap` words (450), and each window is
  re-joined with single spaces.
- **Ingestion** (`ingest.dfy`). This is the page loop of `upload_pdf`. The
  page text goes through a chain of fallbacks: the standard extraction,
  the tolerant extraction, the extracted words, then a placeholder. Each
  page whose extraction does not raise gets one `pdf_pages` row with a
  1-based number. Its chunks become
  `embeddings` rows in two passes: once when the stripped text is longer
  than 10 characters, and once more unconditionally.
- **Ranking** (`ranking.dfy`). The stored chunks of a document are scored
  against the question. Rows whose score cannot be computed are skipped.
  The rest are stable-sorted by descending score and the top 3 are kept.
- **Context packaging** (`retrieval.dfy`). From the top chunks come:
  - the relevant text, joined with blank lines;
  - the distinct page numbers, taken from `list(set(...))`;
  - the images stored for those pages, with `\` turned into `/` and a
    leading `data/images/` removed;
  - one page reference per page number.
- **Prompt assembly** (`prompt.dfy`, `chat.dfy`). The user turn is
  rewritten around the context. The outbound list is the system message,
  then the session history without its last entry, then the rewritten
  turn. The module also models the session title, the comma-joined
  `image_ids` and `pdf_references` fields stored with the answer, and the
  whole `chat()` handler over an in-memory store of sessions and messages.

Shared modules: `text.dfy` models the Python string operations the
program uses (`str.split()`, `str.strip()` with Python's whitespace set,
`str.join` and `str(n)`). It also defines `SplitOn` and `ParseNat`
(splitting on one character, reading digits back). The program does not
call these two: they are the inverses that the round-trip lemmas about the
stored comma-joined fields are stated with. `wrappers.dfy` holds `Option`
and `Result`. `seqs.dfy` holds `Min`, `Max` and two sequence identities.

Collaborators are given as values.
- Every extraction call is an input: it either raises or returns a value.
- The similarity of each stored chunk to the question is an input. It is
  `None` when decoding or comparing the embedding raised.
- Database tables are sequences of rows, in the order the queries return
  them.
- In `chat()`, the new session's id and the model's answer are inputs.
  An absent answer means the call to the model raised.

Three behaviours of the code are easy to miss.
- Every stored page's chunks are written twice when its stripped text is
  longer than 10 characters. This is the result of the first pass plus the
  unconditional second pass after the `try` block. Both passes number
  their chunks from 0 (`Ingest.ChunkPasses`).
- A page whose stripped text is 10 characters or shorter still gets its
  chunks once, from the second pass.
- A page whose extraction raises gets neither a page row nor chunk rows.
  The raise comes before the INSERT at app.py:218-221, and the `continue`
  at app.py:245 skips the second pass.

## Model

| member | source | states |
|---|---|---|
| Chunker.ChunkText | app.py:145-152 | the loop over window starts returns exactly `Chunks`. A zero step (`chunk_size == overlap`) is the ValueError of `range`, and a negative step gives no chunk |
| Chunker.ChunksErrors | app.py:148 | `chunk_text` fails exactly when `chunk_size == overlap`, and returns `[]` when the overlap exceeds the size |
| Chunker.ChunkWords | app.py:147-150 | with `a` the k-th start (`k * step`), chunk k splits back into exactly `words[a : a + chunk_size]`, clamped at the end. It has between 1 and `chunk_size` words |
| Chunker.StartIsMultiple | app.py:148 | the k-th window start is `k * (chunk_size - overlap)` |
| Chunker.ChunksCount | app.py:148 | the number of chunks is `ceil(len(words) / step)` |
| Chunker.ChunksNonBlank | app.py:146-151 | every chunk is non-blank, and there is no chunk exactly when the text is blank |
| Chunker.ChunksCover | app.py:148-150 | every word `j` of the text is word `j % step` of chunk `j / step` |
| Chunker.ChunksOverlap | app.py:148-150 | for a full window k, its last `overlap` words are the first `overlap` words of chunk k + 1 |
| Text.SplitGivesWords | app.py:147 | every piece of `str.split()` is a non-empty run without whitespace |
| Text.SplitEmptyIffBlank | app.py:147 | `str.split()` gives no piece exactly on a blank string |
| Text.SplitWord | app.py:147 | a run of non-whitespace characters splits into itself alone |
| Text.SplitAtSpace | app.py:147 | splitting at any whitespace character gives the pieces of the part before it followed by the pieces of the part after it. With `Text.SplitWord` and `Text.SplitEmptyIffBlank` this determines `str.split()` on every input |
| Text.SplitJoin | app.py:149 | splitting words joined with single spaces gives the words back |
| Text.TrimEmptyIffBlank | app.py:213 | `text.strip()` is empty exactly when the text is whitespace only |
| Text.TrimLeftRemovesLeadingSpace | app.py:202 | `lstrip` removes exactly the leading whitespace |
| Text.TrimRightRemovesTrailingSpace | app.py:202 | `rstrip` removes exactly the trailing whitespace |
| Text.SplitOnJoin | app.py:530-531 | splitting on `c` undoes joining with `c` when no part contains `c` |
| Text.NatToString | app.py:215 | `str(n)` is a non-empty string of decimal digits: `"0"` for 0, and without a leading zero otherwise. With `Text.ParseNatToString` this fixes it as the decimal form |
| Text.ParseNatToString | app.py:531 | the decimal form of a page number reads back as that number |
| Ingest.PlaceholderIsLong | app.py:213-215 | the placeholder for page n is already stripped, non-blank and longer than 10 characters |
| Ingest.PageText | app.py:192-215 | the page is skipped exactly when one of the extraction calls actually made raises: the standard one, the tolerant one when the standard text is short, or the word extraction when the text is still short. Otherwise the stored text is the text left after the fallbacks, or the placeholder `[Contenido no extraíble de la página n]` when that text is blank. A standard text of 10 or more stripped characters is kept as it is, and a stored text is never blank |
| Ingest.ExtractPageText | app.py:192-215 | the fallback chain that reassigns `text` computes exactly `PageText` |
| Ingest.Store.InsertPage | app.py:219-222 | appends one `pdf_pages` row and leaves `embeddings` unchanged |
| Ingest.Store.InsertChunk | app.py:232-235 | appends one `embeddings` row and leaves `pdf_pages` unchanged |
| Ingest.InsertChunks | app.py:227-235 | `for i, chunk in enumerate(chunks)` appends the chunks numbered from 0, in order |
| Ingest.StorePageChunks | app.py:224-257 | both chunk passes append exactly `ChunkRowsFor`: the first pass only when the stripped text exceeds 10 characters, then the second pass |
| Ingest.StorePage | app.py:217-257 | a page whose extraction raised adds nothing. Any other page adds its page row, with number `page_num + 1`, and its chunk rows |
| Ingest.UploadPages | app.py:191-257 | the page loop appends exactly the page rows and chunk rows of every page, in page order |
| Ingest.ChunkPasses | app.py:225-257 | a stored page has at least one chunk. Its rows are its chunks numbered from 0, repeated a second time (again from 0) when its stripped text exceeds 10 characters |
| Ingest.PlaceholderChunkedTwice | app.py:213-257 | a placeholder page is always chunked twice |
| Ingest.UploadPageRowsOrdered | app.py:191-222 | page rows belong to the upload, have 1-based, strictly increasing numbers, and hold the text extracted for their page |
| Ingest.UploadPageRowFor | app.py:191-245 | page i has the row `(i + 1, t)` exactly when its extraction gave `t` |
| Ingest.PageStoredIff | app.py:191-245 | page i has a row exactly when its extraction gave a text, and the row holds that text |
| Ingest.UploadStoresExtractedPages | app.py:191-245 | over an upload, every stored text is non-blank. Page i has a row exactly when none of the extraction calls made for it raised, and that row holds number i + 1 and the text after the fallbacks, or the placeholder when that text is blank |
| Ingest.IndexedRowsMembers | app.py:227-235 | the rows of one pass are exactly the chunks with their positions |
| Ingest.ChunkRowsForMembers | app.py:224-257 | the rows of a page are those of one chunk pass, as a set |
| Ingest.UploadChunkRowsFromPages | app.py:191-257 | every embedding row holds chunk `chunk_index` of the text stored for its page |
| Ingest.ChunkRowsReferToPages | app.py:219-257 | every embedding row refers to a stored page |
| Ingest.EveryChunkStored | app.py:248-257 | every chunk of every stored page has an embedding row with its position as index |
| Ingest.EveryPageChunked | app.py:248-257 | every stored page has at least one embedding row, its chunk 0 |
| Ranking.CollectScored | app.py:401-413 | the loop over the fetched rows builds exactly `Scored`, skipping the rows whose similarity raised |
| Ranking.ScoredMembers | app.py:401-413 | a row becomes a chunk exactly when its similarity is known, with its text, score and page. No chunk results exactly when no similarity is known |
| Ranking.ScoredComplete | app.py:401-413 | every row whose similarity is known yields a chunk with its text, score and page |
| Ranking.ScoredSound | app.py:401-413 | every chunk comes from a fetched row with that text, page and similarity |
| Ranking.SortDescSpec | app.py:415 | the sort is a permutation and orders by non-increasing score. For every score, the chunks with that score keep their input order (the sort is stable) |
| Ranking.InsertPermutes | app.py:415 | one insertion step adds exactly the inserted chunk |
| Ranking.InsertSorted | app.py:415 | one insertion step keeps the order by descending score |
| Ranking.InsertWithScore | app.py:415 | one insertion step puts the new chunk after the earlier ones of equal score |
| Ranking.TopChunksSpec | app.py:415-416 | `top_chunks` has `min(3, n)` elements, in non-increasing score order, drawn from the scored chunks |
| Ranking.TopChunksBest | app.py:415-416 | no kept chunk scores below a dropped one |
| Ranking.TopChunksStable | app.py:415-416 | among chunks of equal score, the kept ones are the first in input order |
| Ranking.TopChunksExample | app.py:415-416 | chunks scored 0.5, 0.5 and 0.9 come out as the 0.9 one, then the two 0.5 ones in their input order |
| Retrieval.DistinctPages | app.py:420 | `page_numbers` has no duplicates, and as a set equals the pages of `top_chunks`. Its order is left open |
| Retrieval.PageSetNonEmpty | app.py:418-435 | a non-empty `top_chunks` gives a page number, so the query for all of the document's images is not reached from here |
| Retrieval.ImageQueryMembers | app.py:423-435 | a row is returned exactly when it is of the document and lies on one of the pages, or on any page when none is given |
| Retrieval.ImageQuerySamePages | app.py:423-435 | the query depends only on the set of pages, not on their order |
| Retrieval.ToUnixSeparators | app.py:442 | `replace('\\', '/')` keeps the length |
| Retrieval.ToUnixSeparatorsSpec | app.py:442 | every backslash becomes a slash and nothing else changes |
| Retrieval.ToUnixIdentity | app.py:442 | a path without backslashes is left unchanged |
| Retrieval.NormalizePathSpec | app.py:440-445 | a normalised path has no backslash. A leading `data/images/` is removed exactly once, and any other path is only slash-converted |
| Retrieval.NormalizeWindowsPath | app.py:440-445 | a path stored as `data\images\...` loses the prefix too |
| Retrieval.NormalizeImages | app.py:438-449 | the loop builds exactly `NormalizedImages`: the same pages, and paths without backslashes |
| Retrieval.ReferencesSpec | app.py:454 | the references cover exactly the page numbers, and are distinct when the page numbers are |
| Retrieval.RetrievedImages | app.py:423-449 | the context's images are exactly the normalised images of the document's rows on the pages of `top_chunks` |
| Retrieval.Retrieve | app.py:401-455 | the context satisfies `Retrieved`: there is no context exactly when no chunk could be scored. Otherwise the context has: the top chunks' texts joined with `"\n\n"`; distinct references for the document, one per distinct page of the top chunks; backslash-free image paths; and exactly the images the query returns for those pages, in table order, whatever order the pages are listed in |
| Prompt.UserContent | app.py:483-491 | without a context or with empty relevant text, the turn is the message. Otherwise it is exactly the context block and the question, followed by the references line when there are references, and then by the images line when there are images |
| Prompt.OutboundSpec | app.py:493-496 | the outbound list has length `2 + max(len(history) - 1, 0)`. It starts with the system message, ends with the rewritten user turn, and in between has the history without its last entry, in order |
| Prompt.SessionTitle | app.py:378 | `message[:50]` is a prefix of the message: the whole message when it has at most 50 characters, and otherwise its first 50 characters |
| Prompt.RefEntryRoundTrip | app.py:531 | an entry `pdfId:page` splits on `:` into the id and the page's digits, which read back as the page |
| Prompt.PdfRefsRoundTrip | app.py:531 | the stored `pdf_references` splits on `,` into one entry per reference, each reading back as its id and page |
| Prompt.ImageIdsRoundTrip | app.py:530 | the stored `image_ids` splits on `,` back into the image paths |
| Chat.ChatStore.ReadHistory | app.py:458-470 | the history loop yields exactly the session's messages in stored order |
| Chat.HistoryMembers | app.py:458-470 | the history lists exactly the session's messages and nothing of other sessions |
| Chat.HistoryAfterStore | app.py:380-385 | storing a message of the session appends it to the history; one of another session changes nothing |
| Chat.OutboundForwardsEarlierTurns | app.py:380-385 | the history read after storing the question ends with it, and `history[:-1]` drops exactly it. The model gets the earlier turns unchanged and the question once, rewritten |
| Chat.Chat | app.py:359-545 | the request succeeds exactly when the message is non-empty and the model answers. An empty or missing message is rejected with nothing stored. A failed model call stores nothing, since nothing was committed. Otherwise: a new session, titled `message[:50]`, is added when no session id is given; the question and the answer, with its image and reference fields, are stored; and the outbound list is built from the earlier history and the rewritten question. There is no context without a document. With one, the context is one that `Retrieval.Retrieved` admits for the document's rows, as the `Retrieval.Retrieve` row describes |

## Left out

- HTTP routes, request parsing and JSON responses are not modelled. They are web plumbing.
- SQL is not modelled: the schema, connections, UUID page ids and timestamps. Tables are sequences, and a page is identified by its number rather than by its UUID.
- Query results are taken in the order the model's sequences hold them. `ORDER BY created_at` is taken to be storage order. This assumes that `created_at` strictly increases in storage order. `datetime.now()` is local wall-clock time and need not do so, for example when the clock goes back at a DST change.
- `cosine_similarity`, the sentence encoder and JSON decoding of embeddings are not modelled. They are floating point and foreign code, so each row's similarity is an input.
- Encoder failures during either chunk pass are not modelled. They are exceptions of foreign code, and `StorePageChunks` assumes the encoder succeeds.
- The PDF libraries are not modelled: PyPDF2's text and word extraction, and PyMuPDF's image extraction and file writes. Extraction outcomes are inputs, and image extraction and `check_db.py` are not part of this model.
- Progress and warning prints are not modelled, since they are console output.
- The request to the language model and the parsing of its response are not modelled. They are network I/O; the answer is an input to `Chat.Chat`, and the session's `updated_at` update is not modelled.
- `get_image` and the simplified chat route are not modelled. They are outside the retrieval and prompt core.
- Chunker.ChunkText: sizes and overlaps are natural numbers, so negative `chunk_size` or `overlap` arguments are not modelled. The program only ever calls it with 500 and 50.
- Ranking.SortDescSpec: the in-place `list.sort` is modelled on values, as an insertion sort with the same stable result. Updating in place is not captured.
- Retrieval.DistinctPages: the order of `list(set(...))` is an arbitrary choice, not CPython's hash order.
- Chat.Chat: exceptions raised inside retrieval (from the encoder or the database) are not modelled. Only a failed model call leads to the rollback path.
