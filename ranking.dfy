/** Ranking in chat() (app.py): score every stored chunk of the document,
    sort by descending similarity with Python's stable sort, keep the top 3.
    The similarity of a row is an input: None stands for a row whose
    embedding could not be decoded or compared (the row is skipped). */
module Ranking {
  import opened Wrappers
  import opened Seqs

  /** How many chunks are kept. */
  const TopK: nat := 3

  /** A row of the embeddings/pdf_pages join, with its similarity to the
      question already computed. */
  datatype EmbeddingRow = EmbeddingRow(text: string, pageNumber: nat, score: Option<real>)

  /** An entry of the `chunks` list of chat(). */
  datatype ScoredChunk = ScoredChunk(text: string, score: real, pageNumber: nat)

  /** The chunk a row contributes, if its similarity could be computed. */
  function ScoredAt(row: EmbeddingRow): seq<ScoredChunk> {
    match row.score
    case None => []
    case Some(s) => [ScoredChunk(row.text, s, row.pageNumber)]
  }

  /** The `chunks` list after the loop over the fetched rows. */
  function Scored(rows: seq<EmbeddingRow>): seq<ScoredChunk>
    decreases |rows|
  {
    if rows == [] then []
    else
      var n := |rows| - 1;
      Scored(rows[..n]) + ScoredAt(rows[n])
  }

  /** The loop of chat() that builds `chunks`, skipping rows that raise. */
  method CollectScored(rows: seq<EmbeddingRow>) returns (chunks: seq<ScoredChunk>)
    ensures chunks == Scored(rows)
  {
    chunks := [];
    for i := 0 to |rows|
      invariant chunks == Scored(rows[..i])
    {
      assert rows[..i + 1][..i] == rows[..i];
      if rows[i].score.Some? {
        chunks := chunks + [ScoredChunk(rows[i].text, rows[i].score.value, rows[i].pageNumber)];
      }
    }
    assert rows[..|rows|] == rows;
  }

  /** Every row with a similarity gives a chunk. */
  lemma {:induction false} ScoredComplete(rows: seq<EmbeddingRow>, i: nat)
    requires i < |rows| && rows[i].score.Some?
    ensures ScoredChunk(rows[i].text, rows[i].score.value, rows[i].pageNumber) in Scored(rows)
    decreases |rows|
  {
    var n := |rows| - 1;
    if i < n {
      ScoredComplete(rows[..n], i);
    }
  }

  /** Every chunk comes from a row with that text, page and similarity. */
  lemma {:induction false} ScoredSound(rows: seq<EmbeddingRow>, c: ScoredChunk)
    requires c in Scored(rows)
    ensures EmbeddingRow(c.text, c.pageNumber, Some(c.score)) in rows
    decreases |rows|
  {
    var n := |rows| - 1;
    if c in Scored(rows[..n]) {
      ScoredSound(rows[..n], c);
      assert rows[..n] <= rows;
    }
  }

  /** Exactly the rows with a similarity become chunks, with their text,
      score and page. */
  lemma ScoredMembers(rows: seq<EmbeddingRow>)
    ensures forall i :: 0 <= i < |rows| && rows[i].score.Some? ==>
              ScoredChunk(rows[i].text, rows[i].score.value, rows[i].pageNumber) in Scored(rows)
    ensures forall c :: c in Scored(rows) ==> EmbeddingRow(c.text, c.pageNumber, Some(c.score)) in rows
    ensures Scored(rows) == [] <==> forall i :: 0 <= i < |rows| ==> rows[i].score.None?
  {
    forall i | 0 <= i < |rows| && rows[i].score.Some?
      ensures ScoredChunk(rows[i].text, rows[i].score.value, rows[i].pageNumber) in Scored(rows)
    {
      ScoredComplete(rows, i);
    }
    forall c | c in Scored(rows)
      ensures EmbeddingRow(c.text, c.pageNumber, Some(c.score)) in rows
    {
      ScoredSound(rows, c);
    }
  }

  /** Non-increasing similarity. */
  predicate SortedDesc(s: seq<ScoredChunk>) {
    forall i, j :: 0 <= i < j < |s| ==> s[i].score >= s[j].score
  }

  /** The elements of s with similarity v, in their order in s. */
  function WithScore(s: seq<ScoredChunk>, v: real): seq<ScoredChunk> {
    if s == [] then []
    else (if s[0].score == v then [s[0]] else []) + WithScore(s[1..], v)
  }

  /** Puts x after every leading element whose similarity is at least x's. */
  function Insert(x: ScoredChunk, s: seq<ScoredChunk>): (r: seq<ScoredChunk>)
    ensures |r| == |s| + 1
  {
    if s == [] then [x]
    else if s[0].score >= x.score then [s[0]] + Insert(x, s[1..])
    else [x] + s
  }

  /** chunks.sort(key=similarity, reverse=True): a stable sort by descending
      similarity, described as insertion of the elements in input order. */
  function SortDesc(s: seq<ScoredChunk>): (r: seq<ScoredChunk>)
    ensures |r| == |s|
    decreases |s|
  {
    if s == [] then []
    else
      var n := |s| - 1;
      Insert(s[n], SortDesc(s[..n]))
  }

  lemma {:induction false} InsertPermutes(x: ScoredChunk, s: seq<ScoredChunk>)
    ensures multiset(Insert(x, s)) == multiset(s) + multiset{x}
  {
    if s != [] && s[0].score >= x.score {
      InsertPermutes(x, s[1..]);
      assert s == [s[0]] + s[1..];
    }
  }

  lemma {:induction false} InsertSorted(x: ScoredChunk, s: seq<ScoredChunk>)
    requires SortedDesc(s)
    ensures SortedDesc(Insert(x, s))
  {
    if s != [] && s[0].score >= x.score {
      var r := Insert(x, s[1..]);
      InsertSorted(x, s[1..]);
      InsertPermutes(x, s[1..]);
      forall i | 0 <= i < |r|
        ensures s[0].score >= r[i].score
      {
        assert r[i] in multiset(s[1..]) + multiset{x};
      }
    }
  }

  lemma {:induction false} WithScoreAppend(a: seq<ScoredChunk>, b: seq<ScoredChunk>, v: real)
    ensures WithScore(a + b, v) == WithScore(a, v) + WithScore(b, v)
  {
    if a == [] {
      assert a + b == b;
    } else {
      var c := a + b;
      var h := if a[0].score == v then [a[0]] else [];
      assert c[0] == a[0];
      assert c[1..] == a[1..] + b;
      WithScoreAppend(a[1..], b, v);
      assert WithScore(c, v) == h + (WithScore(a[1..], v) + WithScore(b, v));
      AppendAssoc(h, WithScore(a[1..], v), WithScore(b, v));
    }
  }

  /** In a list sorted by descending similarity whose first element is below
      v, nothing has similarity v. */
  lemma {:induction false} WithScoreBelow(s: seq<ScoredChunk>, v: real)
    requires SortedDesc(s) && s != [] && s[0].score < v
    ensures WithScore(s, v) == []
  {
    if |s| > 1 {
      WithScoreBelow(s[1..], v);
    }
  }

  /** Inserting into a sorted list lets x come after the elements of equal
      similarity already there. */
  lemma {:induction false} InsertWithScore(x: ScoredChunk, s: seq<ScoredChunk>, v: real)
    requires SortedDesc(s)
    ensures WithScore(Insert(x, s), v) == WithScore(s, v) + WithScore([x], v)
  {
    var wx := if x.score == v then [x] else [];
    assert [x][1..] == [];
    assert WithScore([x], v) == wx + [];
    if s == [] {
      assert Insert(x, s) == [x];
      AppendEmpty(wx);
    } else if s[0].score >= x.score {
      var r := Insert(x, s);
      var h := if s[0].score == v then [s[0]] else [];
      assert r[0] == s[0];
      assert r[1..] == Insert(x, s[1..]);
      InsertWithScore(x, s[1..], v);
      assert WithScore(r, v) == h + (WithScore(s[1..], v) + wx);
      AppendAssoc(h, WithScore(s[1..], v), wx);
    } else {
      var r := Insert(x, s);
      assert r[0] == x;
      assert r[1..] == s;
      assert WithScore(r, v) == wx + WithScore(s, v);
      if x.score == v {
        WithScoreBelow(s, v);
        AppendEmpty(wx);
      } else {
        AppendEmpty(WithScore(s, v));
      }
    }
  }

  lemma MultisetLast(s: seq<ScoredChunk>)
    requires s != []
    ensures multiset(s) == multiset(s[..|s| - 1]) + multiset{s[|s| - 1]}
  {
    assert s == s[..|s| - 1] + [s[|s| - 1]];
  }

  /** The sort is a permutation of its input. */
  lemma {:induction false} SortDescPermutes(s: seq<ScoredChunk>)
    ensures multiset(SortDesc(s)) == multiset(s)
    decreases |s|
  {
    if s != [] {
      var n := |s| - 1;
      SortDescPermutes(s[..n]);
      InsertPermutes(s[n], SortDesc(s[..n]));
      MultisetLast(s);
    }
  }

  /** The sort orders by descending similarity. */
  lemma {:induction false} SortDescSorted(s: seq<ScoredChunk>)
    ensures SortedDesc(SortDesc(s))
    decreases |s|
  {
    if s != [] {
      var n := |s| - 1;
      SortDescSorted(s[..n]);
      InsertSorted(s[n], SortDesc(s[..n]));
    }
  }

  /** The sort keeps the input order among chunks of equal similarity. */
  lemma {:induction false} SortDescStable(s: seq<ScoredChunk>, v: real)
    ensures WithScore(SortDesc(s), v) == WithScore(s, v)
    decreases |s|
  {
    if s != [] {
      var n := |s| - 1;
      var sorted := SortDesc(s[..n]);
      SortDescStable(s[..n], v);
      SortDescSorted(s[..n]);
      InsertWithScore(s[n], sorted, v);
      WithScoreAppend(s[..n], [s[n]], v);
      assert s == s[..n] + [s[n]];
    }
  }

  /** The sort is a permutation, orders by descending similarity, and keeps
      the input order among chunks of equal similarity. */
  lemma SortDescSpec(s: seq<ScoredChunk>)
    ensures multiset(SortDesc(s)) == multiset(s)
    ensures SortedDesc(SortDesc(s))
    ensures forall v :: WithScore(SortDesc(s), v) == WithScore(s, v)
  {
    SortDescPermutes(s);
    SortDescSorted(s);
    forall v
      ensures WithScore(SortDesc(s), v) == WithScore(s, v)
    {
      SortDescStable(s, v);
    }
  }

  /** top_chunks = chunks[:3] after the sort. */
  function TopChunks(chunks: seq<ScoredChunk>): seq<ScoredChunk> {
    SortDesc(chunks)[..Min(TopK, |chunks|)]
  }

  lemma {:induction false} WithScorePrefix(a: seq<ScoredChunk>, b: seq<ScoredChunk>, v: real)
    ensures WithScore(a, v) <= WithScore(a + b, v)
  {
    WithScoreAppend(a, b, v);
  }

  /** The top chunks: min(3, n) of them, by descending similarity, drawn
      from the input. */
  lemma TopChunksSpec(chunks: seq<ScoredChunk>)
    ensures |TopChunks(chunks)| == Min(TopK, |chunks|)
    ensures SortedDesc(TopChunks(chunks))
    ensures multiset(TopChunks(chunks)) <= multiset(chunks)
  {
    var sorted := SortDesc(chunks);
    SortDescSpec(chunks);
    var k := Min(TopK, |chunks|);
    assert sorted == sorted[..k] + sorted[k..];
  }

  /** In a list sorted by descending similarity, everything before position
      k scores at least as much as everything from k on. */
  lemma SortedSplit(sorted: seq<ScoredChunk>, k: nat)
    requires SortedDesc(sorted) && k <= |sorted|
    ensures forall x, y :: x in sorted[..k] && y in sorted[k..] ==> x.score >= y.score
  {
    forall x, y | x in sorted[..k] && y in sorted[k..]
      ensures x.score >= y.score
    {
      var i :| 0 <= i < k && sorted[..k][i] == x;
      var j :| 0 <= j < |sorted| - k && sorted[k..][j] == y;
      assert sorted[i] == x && sorted[k + j] == y;
    }
  }

  /** No kept chunk scores below a dropped one. */
  lemma TopChunksBest(chunks: seq<ScoredChunk>)
    ensures var top := TopChunks(chunks);
            forall x, y :: x in top && y in multiset(chunks) - multiset(top) ==> x.score >= y.score
  {
    var sorted := SortDesc(chunks);
    SortDescSpec(chunks);
    var k := Min(TopK, |chunks|);
    SortedSplit(sorted, k);
    assert sorted == sorted[..k] + sorted[k..];
    assert multiset(chunks) - multiset(sorted[..k]) == multiset(sorted[k..]);
  }

  /** Among chunks of equal similarity, the kept ones are the first of them
      in input order. */
  lemma TopChunksStable(chunks: seq<ScoredChunk>, v: real)
    ensures WithScore(TopChunks(chunks), v) <= WithScore(chunks, v)
  {
    var sorted := SortDesc(chunks);
    SortDescSpec(chunks);
    var k := Min(TopK, |chunks|);
    assert sorted == sorted[..k] + sorted[k..];
    WithScorePrefix(sorted[..k], sorted[k..], v);
  }

  /** Two chunks at 0.5 and a later one at 0.9: the later comes first and
      the equal ones keep their order. */
  lemma TopChunksExample()
    ensures var a := ScoredChunk("a", 0.5, 1);
            var b := ScoredChunk("b", 0.5, 2);
            var c := ScoredChunk("c", 0.9, 3);
            TopChunks([a, b, c]) == [c, a, b]
  {
    var a := ScoredChunk("a", 0.5, 1);
    var b := ScoredChunk("b", 0.5, 2);
    var c := ScoredChunk("c", 0.9, 3);
    assert [a, b, c][..2] == [a, b];
    assert [a, b][..1] == [a];
    assert SortDesc([a]) == [a];
    assert SortDesc([a, b]) == Insert(b, [a]) == [a, b];
    assert Insert(c, [a, b]) == [c, a, b];
  }
}
