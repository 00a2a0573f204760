/** `VectorSpaceManager.create_vector_space` of vector_space.py. The FAISS
    index is abstracted to the sequence of documents it holds: building an
    index from documents keeps them in order, and `merge_from` appends.
    Embeddings and search behaviour are not modelled. */
module VectorSpace {
  import opened Wrappers

  /** A similarity index, seen as the documents it has indexed. */
  datatype Index<T> = Index(entries: seq<T>)

  /** Building an index from no documents is refused: the embedding
      backend cannot infer a dimension from zero vectors. */
  datatype IndexError = EmptyDocuments

  /** `FAISS.from_documents(docs)`. */
  function FromDocuments<T>(docs: seq<T>): (r: Result<Index<T>, IndexError>)
    ensures r.Success? <==> |docs| > 0
    ensures r.Success? ==> r.value.entries == docs
  {
    if |docs| == 0 then Failure(EmptyDocuments) else Success(Index(docs))
  }

  /** `target.merge_from(source)`: the source's entries are added after
      the target's. */
  function MergeFrom<T>(target: Index<T>, source: Index<T>): Index<T>
  {
    Index(target.entries + source.entries)
  }

  /** Documents indexed before the batch loop starts (`documents[:2]`). */
  const SeedSize: nat := 2
  /** Documents per merged batch. */
  const BatchSize: nat := 100

  /** The slices `docs[i:i+size]` for `i` in `range(start, len(docs), size)`. */
  function Batches<T>(docs: seq<T>, start: nat, size: nat): seq<seq<T>>
    requires size > 0
    decreases |docs| - start
  {
    if start >= |docs| then []
    else [docs[start..Min(start + size, |docs|)]] + Batches(docs, start + size, size)
  }

  /** The batches laid end to end. */
  function Concat<T>(bs: seq<seq<T>>): seq<T>
  {
    if bs == [] then [] else bs[0] + Concat(bs[1..])
  }

  /** The batches starting at `start` are exactly `docs[start..]`, cut
      into pieces: nothing dropped, nothing repeated, order kept. */
  lemma {:induction false} BatchesCoverSuffix<T>(docs: seq<T>, start: nat, size: nat)
    requires size > 0
    requires start <= |docs|
    ensures Concat(Batches(docs, start, size)) == docs[start..]
    decreases |docs| - start
  {
    if start < |docs| {
      var end := Min(start + size, |docs|);
      BatchesCoverSuffix(docs, end, size);
      if start + size < |docs| {
        assert Batches(docs, start, size)[1..] == Batches(docs, end, size);
      } else {
        assert Batches(docs, start + size, size) == [];
        assert Batches(docs, end, size) == [];
      }
      assert docs[start..] == docs[start..end] + docs[end..];
    }
  }

  /** For any seed size and any positive batch size, the seed `docs[:seed]`
      followed by every batch gives back `docs` exactly. */
  lemma SeedAndBatchesPartition<T>(docs: seq<T>, seed: nat, size: nat)
    requires size > 0
    ensures docs[..Min(seed, |docs|)] + Concat(Batches(docs, seed, size)) == docs
  {
    if seed <= |docs| {
      BatchesCoverSuffix(docs, seed, size);
      assert docs[..seed] + docs[seed..] == docs;
    }
  }

  /** Every batch is non-empty and holds at most `size` documents; every
      batch but the last holds exactly `size`. */
  predicate WellSized<T>(bs: seq<seq<T>>, size: nat) {
    forall k :: 0 <= k < |bs| ==> 0 < |bs[k]| <= size && (k < |bs| - 1 ==> |bs[k]| == size)
  }

  /** The batches the loop merges are well sized. */
  lemma {:induction false} BatchesBounded<T>(docs: seq<T>, start: nat, size: nat)
    requires size > 0
    ensures WellSized(Batches(docs, start, size), size)
    decreases |docs| - start
  {
    if start < |docs| {
      BatchesBounded(docs, start + size, size);
      var bs := Batches(docs, start, size);
      var rest := Batches(docs, start + size, size);
      assert WellSized(rest, size);
      assert bs == [docs[start..Min(start + size, |docs|)]] + rest;
      forall k | 0 <= k < |bs|
        ensures 0 < |bs[k]| <= size && (k < |bs| - 1 ==> |bs[k]| == size)
      {
        if k == 0 {
          assert bs[0] == docs[start..Min(start + size, |docs|)];
          if |rest| > 0 {
            assert start + size < |docs|;
          }
        } else {
          assert bs[k] == rest[k - 1];
        }
      }
    }
  }

  /** The batch count is the least `c` with `c * size >= n - start`: `c`
      batches cover the suffix, and one fewer would not. */
  lemma {:induction false} BatchCountBounds<T>(docs: seq<T>, start: nat, size: nat)
    requires size > 0
    ensures var c := |Batches(docs, start, size)|;
      if start < |docs| then (c - 1) * size < |docs| - start <= c * size else c == 0
    decreases |docs| - start
  {
    if start < |docs| {
      BatchCountBounds(docs, start + size, size);
      var c := |Batches(docs, start + size, size)|;
      assert |Batches(docs, start, size)| == c + 1;
      assert (c + 1) * size == c * size + size;
      assert (c + 1 - 1) * size == c * size;
    }
  }

  /** With the source's constants, the batch count is `ceil((n - 2) / 100)`
      for `n > 2` and zero otherwise. */
  lemma BatchCount<T>(docs: seq<T>)
    ensures |Batches(docs, SeedSize, BatchSize)| == MergeCount(|docs|)
  {
    BatchCountBounds(docs, SeedSize, BatchSize);
  }

  /** Merges a transient index built from each batch, in order, into
      `target`. */
  function MergeAll<T>(target: Index<T>, bs: seq<seq<T>>): Result<Index<T>, IndexError>
    decreases |bs|
  {
    if bs == [] then Success(target)
    else
      var transient :- FromDocuments(bs[0]);
      MergeAll(MergeFrom(target, transient), bs[1..])
  }

  /** The batching loop for a given seed size and batch size. */
  function BuildIndex<T>(docs: seq<T>, seed: nat, size: nat): Result<Index<T>, IndexError>
    requires size > 0
  {
    var seedIndex :- FromDocuments(docs[..Min(seed, |docs|)]);
    MergeAll(seedIndex, Batches(docs, seed, size))
  }

  /** Merging non-empty batches appends their documents. */
  lemma {:induction false} MergeAllAppends<T>(target: Index<T>, bs: seq<seq<T>>)
    requires forall k :: 0 <= k < |bs| ==> |bs[k]| > 0
    ensures MergeAll(target, bs) == Success(Index(target.entries + Concat(bs)))
    decreases |bs|
  {
    if bs == [] {
      assert target.entries + Concat(bs) == target.entries;
    } else {
      var next := MergeFrom(target, Index(bs[0]));
      assert MergeAll(target, bs) == MergeAll(next, bs[1..]);
      MergeAllAppends(next, bs[1..]);
      assert next.entries + Concat(bs[1..]) == target.entries + Concat(bs);
    }
  }

  /** Batch-size invariance: whatever the batch size, and whatever the
      non-empty seed, the batched build gives the index built from all the
      documents in one step; with an empty seed it fails. */
  lemma BatchSizeInvariance<T>(docs: seq<T>, seed: nat, size: nat)
    requires size > 0
    ensures seed > 0 ==> BuildIndex(docs, seed, size) == FromDocuments(docs)
    ensures seed == 0 ==> BuildIndex(docs, seed, size).Failure?
  {
    if seed > 0 && |docs| > 0 {
      var bs := Batches(docs, seed, size);
      BatchesBounded(docs, seed, size);
      MergeAllAppends(Index(docs[..Min(seed, |docs|)]), bs);
      SeedAndBatchesPartition(docs, seed, size);
    }
  }

  /** The number of `merge_from` calls `create_vector_space` makes. */
  function MergeCount(n: nat): nat
  {
    if n > SeedSize then (n - SeedSize + BatchSize - 1) / BatchSize else 0
  }

  /** `create_vector_space(documents)`: seeds the index with
      `documents[:2]`, then builds a transient index from each slice
      `documents[i:i+100]`, `i = 2, 102, ...`, merges it in and advances
      the progress bar by the slice's length.
      The slices it merges, recorded in `merged`, are exactly
      `Batches(documents, 2, 100)`, so the lemmas about `Batches` describe
      this loop. The resulting index holds `documents` exactly, as if built
      in one step; the only failure is an empty input, whose seed is empty. The
      number of merges is determined by the length, and the progress
      counter ends at `n - min(n, 2)`: the seed is never counted, so for a
      non-empty input the bar never reaches its total `n`. */
  method CreateVectorSpace<T>(documents: seq<T>)
    returns (r: Result<Index<T>, IndexError>, merges: nat, progress: nat, ghost merged: seq<seq<T>>)
    ensures r.Failure? <==> |documents| == 0
    ensures r.Success? ==> merged == Batches(documents, SeedSize, BatchSize)
    ensures r.Success? ==> r == FromDocuments(documents)
    ensures r.Success? ==> merges == MergeCount(|documents|)
    ensures r.Success? ==> merges == |Batches(documents, SeedSize, BatchSize)|
    ensures progress == |documents| - Min(|documents|, SeedSize)
    ensures |documents| > 0 ==> progress < |documents|
  {
    merges, progress, merged := 0, 0, [];
    var n := |documents|;
    var store :- FromDocuments(documents[..Min(SeedSize, n)]);
    var i := SeedSize;
    while i < n
      invariant SeedSize <= i
      invariant store.entries == documents[..Min(i, n)]
      invariant progress == Min(i, n) - Min(n, SeedSize)
      invariant merged + Batches(documents, i, BatchSize) == Batches(documents, SeedSize, BatchSize)
      invariant merges == |merged|
      decreases n - i
    {
      var batch := documents[i..Min(i + BatchSize, n)];
      var transient :- FromDocuments(batch);
      store := MergeFrom(store, transient);
      assert documents[..Min(i + BatchSize, n)] == documents[..i] + batch;
      assert Batches(documents, i, BatchSize) == [batch] + Batches(documents, i + BatchSize, BatchSize);
      merged := merged + [batch];
      merges := merges + 1;
      progress := progress + |batch|;
      i := i + BatchSize;
    }
    assert documents[..n] == documents;
    BatchCount(documents);
    r := Success(store);
  }
}
