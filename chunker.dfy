/** chunk_text (app.py): windows of `size` words whose starts advance by
    `size - overlap` words, each window re-joined with single spaces. */
module Chunker {
  import opened Wrappers
  import opened Text
  import opened Seqs

  /** The defaults chunk_text is always called with. */
  const DefaultChunkSize: nat := 500
  const DefaultOverlap: nat := 50

  /** range(0, n, 0) raises ValueError. */
  datatype ChunkError = ZeroStep

  /** words[a : a + size] joined with single spaces. */
  function Window(words: seq<string>, size: nat, a: nat): string
    requires a <= |words|
  {
    Join(words[a..Min(a + size, |words|)], " ")
  }

  /** The windows that start at start, start + step, start + 2 * step, ...
      below |words|: each is words[s : s + size] joined with single spaces. */
  function WindowsFrom(words: seq<string>, size: nat, step: nat, start: nat): seq<string>
    requires step > 0
    decreases |words| - start
  {
    if start >= |words| then []
    else [Window(words, size, start)] + WindowsFrom(words, size, step, start + step)
  }

  /** What chunk_text(text, size, overlap) returns. A negative step gives an
      empty range, hence no chunk. */
  function Chunks(text: string, size: nat, overlap: nat): Result<seq<string>, ChunkError> {
    var step := size - overlap;
    if step == 0 then Failure(ZeroStep)
    else if step < 0 then Success([])
    else Success(WindowsFrom(Split(text), size, step, 0))
  }

  /** The chunks of a page at the defaults (their step, 450, is never zero). */
  function DefaultChunks(text: string): seq<string> {
    Chunks(text, DefaultChunkSize, DefaultOverlap).value
  }

  /** A window of words is never blank, so the `if chunk.strip()` test
      keeps every window. */
  lemma WindowNotBlank(text: string, size: nat, step: nat, i: nat)
    requires step > 0 && size > 0 && i < |Split(text)|
    ensures var words := Split(text);
            var chunk := Window(words, size, i);
            && !IsBlank(chunk)
            && WindowsFrom(words, size, step, i) == [chunk] + WindowsFrom(words, size, step, i + step)
  {
    var words := Split(text);
    SplitGivesWords(text);
    var window := words[i..Min(i + size, |words|)];
    assert forall j :: 0 <= j < |window| ==> IsWord(window[j]) by {
      forall j | 0 <= j < |window| ensures IsWord(window[j]) {
        assert window[j] == words[i + j];
      }
    }
    JoinWordsNotBlank(window);
  }

  /** chunk_text: walks the window starts with a stride and keeps every
      window that is not blank. */
  method ChunkText(text: string, size: nat, overlap: nat) returns (r: Result<seq<string>, ChunkError>)
    ensures r == Chunks(text, size, overlap)
  {
    var words := Split(text);
    var step := size - overlap;
    if step == 0 {
      return Failure(ZeroStep);
    }
    var chunks: seq<string> := [];
    if step > 0 {
      var i: nat := 0;
      while i < |words|
        invariant chunks + WindowsFrom(words, size, step, i) == WindowsFrom(words, size, step, 0)
      {
        var window := words[i..Min(i + size, |words|)];
        var chunk := Join(window, " ");
        WindowNotBlank(text, size, step, i);
        AppendAssoc(chunks, [chunk], WindowsFrom(words, size, step, i + step));
        if !IsBlank(chunk) {
          chunks := chunks + [chunk];
        }
        i := i + step;
      }
      assert WindowsFrom(words, size, step, i) == [];
      assert chunks + [] == chunks;
    }
    return Success(chunks);
  }

  /** The k-th value of range(0, n, step): k * step, built by repeated
      addition so that proofs about windows need no multiplication. */
  function Start(k: nat, step: nat): nat {
    if k == 0 then 0 else Start(k - 1, step) + step
  }

  lemma {:induction false} StartIsMultiple(k: nat, step: nat)
    ensures Start(k, step) == k * step
  {
    if k > 0 {
      StartIsMultiple(k - 1, step);
      assert (k - 1) * step + step == k * step;
    }
  }

  lemma {:induction false} MulMonotonic(a: int, b: int, c: nat)
    requires a <= b
    ensures a * c <= b * c
  {
    assert b * c == a * c + (b - a) * c;
  }

  lemma {:induction false} BelowOneStep(d: int, step: nat)
    requires step > 0 && d * step < step
    ensures d < 1
  {
    if d >= 1 {
      MulMonotonic(1, d, step);
    }
  }

  /** x / step is the a with a * step <= x < (a + 1) * step. */
  lemma {:induction false} DivUnique(x: nat, step: nat, a: nat)
    requires step > 0 && a * step <= x < a * step + step
    ensures x / step == a
  {
    var q := x / step;
    var r := x % step;
    assert x == q * step + r;
    assert (a - q) * step == a * step - q * step;
    BelowOneStep(a - q, step);
    assert (q - a) * step == q * step - a * step;
    BelowOneStep(q - a, step);
  }

  /** Window k exists exactly when its start lies inside the text. */
  lemma {:induction false} WindowsLength(words: seq<string>, size: nat, step: nat, start: nat, k: nat)
    requires step > 0
    ensures k < |WindowsFrom(words, size, step, start)| <==> start + Start(k, step) < |words|
    decreases k
  {
    if start < |words| && k > 0 {
      WindowsLength(words, size, step, start + step, k - 1);
    }
  }

  /** Window k is the run of at most `size` words at its start, joined. */
  lemma {:induction false} WindowAt(words: seq<string>, size: nat, step: nat, start: nat, k: nat)
    requires step > 0
    requires k < |WindowsFrom(words, size, step, start)|
    ensures start + Start(k, step) < |words|
    ensures WindowsFrom(words, size, step, start)[k] == Window(words, size, start + Start(k, step))
    decreases k
  {
    WindowsLength(words, size, step, start, k);
    if k > 0 {
      WindowAt(words, size, step, start + step, k - 1);
    }
  }

  /** Chunking fails exactly when the step is zero, and a negative step
      yields no chunk. */
  lemma ChunksErrors(text: string, size: nat, overlap: nat)
    ensures Chunks(text, size, overlap).Failure? <==> size == overlap
    ensures size < overlap ==> Chunks(text, size, overlap) == Success([])
  {
  }

  /** Joined words split back into the same words, for any run of them. */
  lemma SplitJoinSlice(text: string, a: nat, b: nat)
    requires a <= b <= |Split(text)|
    ensures Split(Join(Split(text)[a..b], " ")) == Split(text)[a..b]
  {
    var words := Split(text);
    SplitGivesWords(text);
    assert forall i :: 0 <= i < b - a ==> words[a..b][i] == words[a + i];
    SplitJoin(words[a..b]);
  }

  /** Chunk k holds exactly the words of the text from the k-th start of
      range(0, len(words), step) on, `size` of them or fewer at the end, so
      at least one and at most `size` words. */
  lemma ChunkWords(text: string, size: nat, overlap: nat, k: nat)
    requires size > overlap
    requires k < |Chunks(text, size, overlap).value|
    ensures var words := Split(text);
            var a := Start(k, size - overlap);
            a < |words| &&
            Split(Chunks(text, size, overlap).value[k]) == words[a..Min(a + size, |words|)]
    ensures 1 <= |Split(Chunks(text, size, overlap).value[k])| <= size
  {
    var words := Split(text);
    var step := size - overlap;
    WindowAt(words, size, step, 0, k);
    var a := Start(k, step);
    var b := Min(a + size, |words|);
    SplitJoinSlice(text, a, b);
    assert 1 <= |words[a..b]| == b - a <= size;
  }

  /** There are ceil(len(words) / step) chunks. */
  lemma {:induction false} ChunksCount(text: string, size: nat, overlap: nat)
    requires size > overlap
    ensures |Chunks(text, size, overlap).value| == (|Split(text)| + (size - overlap) - 1) / (size - overlap)
  {
    var words := Split(text);
    var step := size - overlap;
    var c := |Chunks(text, size, overlap).value|;
    WindowsLength(words, size, step, 0, c);
    StartIsMultiple(c, step);
    if c > 0 {
      WindowsLength(words, size, step, 0, c - 1);
      StartIsMultiple(c - 1, step);
      assert (c - 1) * step + step == c * step;
    }
    DivUnique(|words| + step - 1, step, c);
  }

  /** No chunk is blank, and a text yields no chunk exactly when it is blank. */
  lemma {:induction false} ChunksNonBlank(text: string, size: nat, overlap: nat)
    requires size > overlap
    ensures forall k :: 0 <= k < |Chunks(text, size, overlap).value| ==>
              !IsBlank(Chunks(text, size, overlap).value[k])
    ensures Chunks(text, size, overlap).value == [] <==> IsBlank(text)
  {
    var chunks := Chunks(text, size, overlap).value;
    forall k | 0 <= k < |chunks| ensures !IsBlank(chunks[k]) {
      ChunkWords(text, size, overlap, k);
      SplitEmptyIffBlank(chunks[k]);
    }
    SplitEmptyIffBlank(text);
    WindowsLength(Split(text), size, size - overlap, 0, 0);
  }

  /** Every word of the text lies in some chunk whenever 0 <= overlap < size:
      word j is word j % step of chunk j / step. */
  lemma {:induction false} ChunksCover(text: string, size: nat, overlap: nat, j: nat)
    requires size > overlap
    requires j < |Split(text)|
    ensures var step := size - overlap;
            var chunks := Chunks(text, size, overlap).value;
            && j / step < |chunks|
            && j % step < |Split(chunks[j / step])|
            && Split(chunks[j / step])[j % step] == Split(text)[j]
  {
    var words := Split(text);
    var step := size - overlap;
    var k := j / step;
    StartIsMultiple(k, step);
    assert j == k * step + j % step;
    WindowsLength(words, size, step, 0, k);
    ChunkWords(text, size, overlap, k);
    var a := Start(k, step);
    assert words[a..Min(a + size, |words|)][j % step] == words[j];
  }

  /** A run of `size` items starting at a, and the run starting step items
      later, agree on the size - step items they share. */
  lemma RunsOverlap<T>(s: seq<T>, first: seq<T>, second: seq<T>, a: nat, step: nat, size: nat, d: nat)
    requires step <= size && a + size <= d <= |s|
    requires first == s[a..a + size] && second == s[a + step..d]
    ensures |first| == size && size - step <= |second|
    ensures first[step..] == second[..size - step]
  {
    assert first[step..] == s[a + step..a + size];
  }

  /** Neighbouring chunks share `overlap` words: a full chunk ends with the
      words that the next chunk starts with. */
  lemma ChunksOverlap(text: string, size: nat, overlap: nat, k: nat)
    requires size > overlap
    requires k + 1 < |Chunks(text, size, overlap).value|
    requires Start(k, size - overlap) + size <= |Split(text)|
    ensures var chunks := Chunks(text, size, overlap).value;
            && |Split(chunks[k])| == size
            && overlap <= |Split(chunks[k + 1])|
            && Split(chunks[k])[size - overlap..] == Split(chunks[k + 1])[..overlap]
  {
    var words := Split(text);
    var step := size - overlap;
    var a := Start(k, step);
    var chunks := Chunks(text, size, overlap).value;
    ChunkWords(text, size, overlap, k);
    assert Min(a + size, |words|) == a + size;
    ChunkWords(text, size, overlap, k + 1);
    assert Start(k + 1, step) == a + step;
    var first, second := Split(chunks[k]), Split(chunks[k + 1]);
    assert first == words[a..a + size];
    assert second == words[a + step..Min(a + step + size, |words|)];
    RunsOverlap(words, first, second, a, step, size, Min(a + step + size, |words|));
  }
}
