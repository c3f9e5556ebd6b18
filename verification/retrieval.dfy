/** The bookkeeping of the retrieval script around the chunker: turning a
    similarity search's ranked index list into chunks (`retrieve`), and
    assembling the corpus from the configured files (`main`). Reading and
    format-specific extraction, embedding and the index itself are
    parameters: `present` says whether a path exists, `read` is the
    extracted text of a path, and `hits` is the ranked index list the
    search returned. */
module Retrieval {
  import opened Seqs
  import opened Whitespace
  import opened Chunking

  /** The number of neighbours asked of the index. */
  const TopK: nat := 6

  /** The index the search reports for "no neighbour". */
  const NoMatch: int := -1

  type Path = string

  /** The search result refers to chunks only, apart from sentinels. */
  predicate ValidHits(hits: seq<int>, count: nat) {
    forall k :: 0 <= k < |hits| ==> hits[k] == NoMatch || 0 <= hits[k] < count
  }

  predicate IsMatch(h: int) {
    h != NoMatch
  }

  /** `[chunks[i] for i in hits if i != -1]`, walking the hits in ranking
      order. */
  function Retrieve(chunks: seq<string>, hits: seq<int>): (r: seq<string>)
    requires ValidHits(hits, |chunks|)
    ensures |r| <= |hits|
    ensures forall m :: 0 <= m < |r| ==> r[m] in chunks
    decreases |hits|
  {
    if hits == [] then []
    else
      ValidHitsTail(hits, |chunks|);
      (if hits[0] == NoMatch then [] else [chunks[hits[0]]]) + Retrieve(chunks, hits[1..])
  }

  lemma ValidHitsTail(hits: seq<int>, count: nat)
    requires ValidHits(hits, count) && hits != []
    ensures hits[0] == NoMatch || 0 <= hits[0] < count
    ensures ValidHits(hits[1..], count)
  {
    assert forall k :: 0 <= k < |hits| - 1 ==> hits[1..][k] == hits[k + 1];
  }

  /** The result keeps the ranking and drops exactly the sentinels: it is
      the chunk of each non-sentinel hit, in the order of the hits. */
  lemma {:induction false} RetrieveKeepsRanking(chunks: seq<string>, hits: seq<int>)
    requires ValidHits(hits, |chunks|)
    ensures |Retrieve(chunks, hits)| == |Filter(hits, IsMatch)|
    ensures forall m :: 0 <= m < |Filter(hits, IsMatch)| ==>
              0 <= Filter(hits, IsMatch)[m] < |chunks| &&
              Retrieve(chunks, hits)[m] == chunks[Filter(hits, IsMatch)[m]]
    decreases |hits|
  {
    if hits != [] {
      ValidHitsTail(hits, |chunks|);
      RetrieveKeepsRanking(chunks, hits[1..]);
      var f := Filter(hits[1..], IsMatch);
      var r := Retrieve(chunks, hits[1..]);
      if hits[0] != NoMatch {
        var fh := Filter(hits, IsMatch);
        var rh := Retrieve(chunks, hits);
        assert fh == [hits[0]] + f;
        assert rh == [chunks[hits[0]]] + r;
        forall m | 0 <= m < |fh|
          ensures 0 <= fh[m] < |chunks| && rh[m] == chunks[fh[m]]
        {
          if m > 0 {
            assert fh[m] == f[m - 1] && rh[m] == r[m - 1];
          }
        }
      } else {
        assert Filter(hits, IsMatch) == f;
        assert Retrieve(chunks, hits) == r;
      }
    }
  }

  /** A search for `k` neighbours yields at most `k` chunks, each one of the
      indexed chunks, and the sentinel never selects a chunk. */
  lemma RetrieveBounded(chunks: seq<string>, hits: seq<int>, k: nat)
    requires ValidHits(hits, |chunks|) && |hits| == k
    ensures |Retrieve(chunks, hits)| <= k
    ensures forall c :: c in Retrieve(chunks, hits) ==> c in chunks
    ensures (forall i :: 0 <= i < |hits| ==> hits[i] == NoMatch) ==> Retrieve(chunks, hits) == []
  {
    RetrieveKeepsRanking(chunks, hits);
    if forall i :: 0 <= i < |hits| ==> hits[i] == NoMatch {
      FilterNone(hits, IsMatch);
    }
  }

  /** The question-answering step asks for `TopK` neighbours, so it is
      given at most `TopK` chunks, and none when the index finds nothing. */
  lemma RetrieveTopK(chunks: seq<string>, hits: seq<int>)
    requires ValidHits(hits, |chunks|) && |hits| == TopK
    ensures |Retrieve(chunks, hits)| <= TopK
    ensures (forall i :: 0 <= i < |hits| ==> hits[i] == NoMatch) ==> Retrieve(chunks, hits) == []
  {
    RetrieveBounded(chunks, hits, TopK);
  }

  /** The chunks of the files that exist, file by file in configured order;
      a missing file contributes nothing. */
  function Corpus(paths: seq<Path>, present: Path -> bool, read: Path -> string, size: int, overlap: int): (corpus: seq<string>)
    requires ValidConfig(size, overlap)
    ensures forall m :: 0 <= m < |corpus| ==> 0 < |corpus[m]| <= size
    decreases |paths|
  {
    if paths == [] then []
    else
      (if present(paths[0]) then ChunkText(read(paths[0]), size, overlap) else [])
      + Corpus(paths[1..], present, read, size, overlap)
  }

  /** The test for a path that does not exist. */
  function Absent(present: Path -> bool): Path -> bool {
    p => !present(p)
  }

  /** The paths that do not exist, in configured order: each is warned about. */
  function Missing(paths: seq<Path>, present: Path -> bool): (r: seq<Path>)
    ensures |r| <= |paths|
    ensures forall m :: 0 <= m < |r| ==> r[m] in paths && !present(r[m])
    ensures forall k :: 0 <= k < |paths| && !present(paths[k]) ==> paths[k] in r
    decreases |paths|
  {
    if paths == [] then []
    else (if present(paths[0]) then [] else [paths[0]]) + Missing(paths[1..], present)
  }

  /** The warned paths are the missing ones in configured order. */
  lemma {:induction false} MissingInOrder(paths: seq<Path>, present: Path -> bool)
    ensures Missing(paths, present) == Filter(paths, Absent(present))
    decreases |paths|
  {
    if paths != [] {
      MissingInOrder(paths[1..], present);
    }
  }

  lemma {:induction false} CorpusAppend(a: seq<Path>, b: seq<Path>, present: Path -> bool, read: Path -> string, size: int, overlap: int)
    requires ValidConfig(size, overlap)
    ensures Corpus(a + b, present, read, size, overlap)
         == Corpus(a, present, read, size, overlap) + Corpus(b, present, read, size, overlap)
    decreases |a|
  {
    if a == [] {
      assert a + b == b;
    } else {
      var ab := a + b;
      assert ab[0] == a[0];
      assert ab[1..] == a[1..] + b;
      CorpusAppend(a[1..], b, present, read, size, overlap);
      var h := if present(a[0]) then ChunkText(read(a[0]), size, overlap) else [];
      assert Corpus(ab, present, read, size, overlap) == h + Corpus(ab[1..], present, read, size, overlap);
      assert Corpus(a, present, read, size, overlap) == h + Corpus(a[1..], present, read, size, overlap);
      ConcatAssoc(h, Corpus(a[1..], present, read, size, overlap), Corpus(b, present, read, size, overlap));
    }
  }

  lemma {:induction false} MissingAppend(a: seq<Path>, b: seq<Path>, present: Path -> bool)
    ensures Missing(a + b, present) == Missing(a, present) + Missing(b, present)
    decreases |a|
  {
    if a == [] {
      assert a + b == b;
    } else {
      var ab := a + b;
      assert ab[0] == a[0];
      assert ab[1..] == a[1..] + b;
      MissingAppend(a[1..], b, present);
      var h := if present(a[0]) then [] else [a[0]];
      assert Missing(ab, present) == h + Missing(ab[1..], present);
      assert Missing(a, present) == h + Missing(a[1..], present);
      ConcatAssoc(h, Missing(a[1..], present), Missing(b, present));
    }
  }

  /** Dropping the missing paths beforehand changes nothing. */
  lemma {:induction false} CorpusSkipsMissing(paths: seq<Path>, present: Path -> bool, read: Path -> string, size: int, overlap: int)
    requires ValidConfig(size, overlap)
    ensures Corpus(paths, present, read, size, overlap)
         == Corpus(Filter(paths, present), present, read, size, overlap)
    decreases |paths|
  {
    if paths != [] {
      CorpusSkipsMissing(paths[1..], present, read, size, overlap);
      var head := if present(paths[0]) then [paths[0]] else [];
      CorpusAppend(head, Filter(paths[1..], present), present, read, size, overlap);
      if present(paths[0]) {
        assert [paths[0]][1..] == [];
      }
    }
  }

  /** The corpus is empty exactly when every existing file extracts to
      whitespace only. */
  lemma {:induction false} CorpusEmptyIff(paths: seq<Path>, present: Path -> bool, read: Path -> string, size: int, overlap: int)
    requires ValidConfig(size, overlap)
    ensures Corpus(paths, present, read, size, overlap) == []
        <==> forall k :: 0 <= k < |paths| && present(paths[k]) ==> AllSpace(read(paths[k]))
    decreases |paths|
  {
    if paths != [] {
      var rest := paths[1..];
      CorpusEmptyIff(rest, present, read, size, overlap);
      ChunkTextEmptyIff(read(paths[0]), size, overlap);
      var head := if present(paths[0]) then ChunkText(read(paths[0]), size, overlap) else [];
      assert Corpus(paths, present, read, size, overlap) == head + Corpus(rest, present, read, size, overlap);
      assert head == [] <==> (present(paths[0]) ==> AllSpace(read(paths[0])));
      assert (forall k :: 0 <= k < |paths| && present(paths[k]) ==> AllSpace(read(paths[k])))
         <==> (present(paths[0]) ==> AllSpace(read(paths[0])))
              && (forall k :: 0 <= k < |rest| && present(rest[k]) ==> AllSpace(read(rest[k]))) by {
        assert forall k :: 1 <= k < |paths| ==> paths[k] == rest[k - 1];
      }
    }
  }

  /** One more path extends the corpus by its chunks if it exists, and the
      warnings by the path if it does not. */
  lemma AssemblyStep(paths: seq<Path>, t: nat, present: Path -> bool, read: Path -> string, size: int, overlap: int)
    requires ValidConfig(size, overlap) && t < |paths|
    ensures Corpus(paths[..t + 1], present, read, size, overlap)
         == Corpus(paths[..t], present, read, size, overlap)
            + (if present(paths[t]) then ChunkText(read(paths[t]), size, overlap) else [])
    ensures Missing(paths[..t + 1], present)
         == Missing(paths[..t], present) + (if present(paths[t]) then [] else [paths[t]])
  {
    var p := paths[t];
    assert paths[..t + 1] == paths[..t] + [p];
    CorpusAppend(paths[..t], [p], present, read, size, overlap);
    MissingAppend(paths[..t], [p], present);
    assert [p][1..] == [];
  }

  /** How start-up ends: without usable text nothing is indexed; otherwise
      the corpus is handed to the index. Both report the missing files. */
  datatype Startup =
    | NoUsableText(missing: seq<Path>)
    | Indexed(corpus: seq<string>, missing: seq<Path>)

  /** Corpus assembly and the early exit of `main`, as written: skip a
      missing path with a warning, extend the corpus with the chunks of each
      existing one (cut with the configured size and overlap), and stop
      before indexing when the corpus is empty. */
  method AssembleCorpus(paths: seq<Path>, present: Path -> bool, read: Path -> string)
    returns (outcome: Startup)
    ensures outcome.missing == Missing(paths, present)
    ensures outcome.NoUsableText? <==> Corpus(paths, present, read, ChunkSize, ChunkOverlap) == []
    ensures outcome.Indexed? ==> outcome.corpus == Corpus(paths, present, read, ChunkSize, ChunkOverlap)
  {
    assert ValidConfig(ChunkSize, ChunkOverlap);
    var corpus: seq<string> := [];
    var missing: seq<Path> := [];
    var t := 0;
    while t < |paths|
      invariant 0 <= t <= |paths|
      invariant corpus == Corpus(paths[..t], present, read, ChunkSize, ChunkOverlap)
      invariant missing == Missing(paths[..t], present)
    {
      var p := paths[t];
      AssemblyStep(paths, t, present, read, ChunkSize, ChunkOverlap);
      t := t + 1;
      if !present(p) {
        missing := missing + [p];
        continue;
      }
      var chunks := ChunkTextLoop(read(p), ChunkSize, ChunkOverlap);
      corpus := corpus + chunks;
    }
    assert paths[..t] == paths;
    if corpus == [] {
      return NoUsableText(missing);
    }
    return Indexed(corpus, missing);
  }
}
