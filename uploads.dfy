/** The upload loop of 2_setup_embedding.py: the sections are appended to a batch one by one,
    the batch is submitted whenever the running count reaches a multiple of 1000, and whatever
    is left is submitted once more at the end. */
module Uploads {
  import opened Sections
  import Seqs

  /** "index 1000 sections at a time". */
  const BatchSize: nat := 1000

  /** The batches the loop submits, in order: full batches of BatchSize, then the non-empty
      remainder if there is one. */
  function Batches(items: seq<Section>): seq<seq<Section>>
    decreases |items|
  {
    if items == [] then []
    else if |items| <= BatchSize then [items]
    else [items[..BatchSize]] + Batches(items[BatchSize..])
  }

  /** The batches concatenated in order. */
  function Flatten(batches: seq<seq<Section>>): seq<Section>
  {
    if batches == [] then [] else batches[0] + Flatten(batches[1..])
  }

  /** Submitting the batches in order submits every section exactly once, in order. */
  lemma {:induction false} BatchesFlatten(items: seq<Section>)
    ensures Flatten(Batches(items)) == items
    decreases |items|
  {
    if |items| > BatchSize {
      BatchesFlatten(items[BatchSize..]);
      assert items[..BatchSize] + items[BatchSize..] == items;
    }
  }

  /** No batch is empty; every batch but the last holds exactly BatchSize sections; the last
      one holds `n % BatchSize` sections, or BatchSize when that is 0. */
  lemma {:induction false} BatchSizes(items: seq<Section>)
    ensures var batches := Batches(items);
      && (forall k | 0 <= k < |batches| :: 0 < |batches[k]| <= BatchSize)
      && (forall k | 0 <= k < |batches| - 1 :: |batches[k]| == BatchSize)
      && (batches != [] ==> |batches[|batches| - 1]| == if |items| % BatchSize == 0 then BatchSize else |items| % BatchSize)
    decreases |items|
  {
    if |items| > BatchSize {
      var rest := items[BatchSize..];
      BatchSizes(rest);
      var batches := Batches(items);
      assert batches == [items[..BatchSize]] + Batches(rest);
      assert |rest| % BatchSize == |items| % BatchSize;
    }
  }

  /** `ceil(n / 1000)` upload calls. */
  lemma {:induction false} BatchCount(items: seq<Section>)
    ensures |Batches(items)| == (|items| + BatchSize - 1) / BatchSize
    decreases |items|
  {
    if |items| > BatchSize {
      BatchCount(items[BatchSize..]);
    }
  }

  /** A run of at least BatchSize sections starts with one full batch. */
  lemma BatchesFront(items: seq<Section>)
    requires |items| >= BatchSize
    ensures Batches(items) == [items[..BatchSize]] + Batches(items[BatchSize..])
  {
    if |items| == BatchSize {
      assert items[..BatchSize] == items && items[BatchSize..] == [];
    }
  }

  /** Splitting the input after a number of full batches splits the batches there. */
  lemma {:induction false} BatchesSplit(items: seq<Section>, m: nat)
    requires m <= |items| && m % BatchSize == 0
    ensures Batches(items) == Batches(items[..m]) + Batches(items[m..])
    decreases m
  {
    if m == 0 {
      assert items[..m] == [] && items[m..] == items;
    } else {
      var head := items[..m];
      var tail := items[BatchSize..];
      BatchesFront(items);
      BatchesFront(head);
      BatchesSplit(tail, m - BatchSize);
      assert head[..BatchSize] == items[..BatchSize];
      assert head[BatchSize..] == tail[..m - BatchSize];
      assert items[m..] == tail[m - BatchSize..];
      Seqs.AppendAssociative([items[..BatchSize]], Batches(tail[..m - BatchSize]), Batches(tail[m - BatchSize..]));
    }
  }

  /** The first `m` sections, m a multiple of BatchSize, extended by a full batch. */
  lemma BatchesExtend(items: seq<Section>, m: nat)
    requires m % BatchSize == 0 && m + BatchSize <= |items|
    ensures Batches(items[..m + BatchSize]) == Batches(items[..m]) + [items[m..m + BatchSize]]
  {
    var prefix := items[..m + BatchSize];
    BatchesSplit(prefix, m);
    assert prefix[..m] == items[..m];
    assert prefix[m..] == items[m..m + BatchSize];
  }

  /** Past a multiple of BatchSize, the next multiple is reached exactly after BatchSize more. */
  lemma NextMultiple(start: nat, k: nat)
    requires start % BatchSize == 0 && 0 < k <= BatchSize
    ensures (start + k) % BatchSize == 0 <==> k == BatchSize
  {
    var q := start / BatchSize;
    assert start == q * BatchSize;
    if k == BatchSize {
      assert start + k == (q + 1) * BatchSize;
    } else {
      assert start + k == q * BatchSize + k && k < BatchSize;
    }
  }

  /** The loop `for s in sections` with its counter `i` and accumulator `batch`, followed by the
      final flush. Each call to the upload service is recorded as the batch it is given. */
  method UploadInBatches(sections: seq<Section>) returns (uploads: seq<seq<Section>>)
    ensures uploads == Batches(sections)
  {
    var i := 0;
    var batch: seq<Section> := [];
    uploads := [];
    ghost var start := 0;
    for n := 0 to |sections|
      invariant i == n
      invariant start % BatchSize == 0 && start <= n < start + BatchSize
      invariant batch == sections[start..n]
      invariant uploads == Batches(sections[..start])
    {
      batch := batch + [sections[n]];
      i := i + 1;
      assert batch == sections[start..i];
      NextMultiple(start, i - start);
      if i % BatchSize == 0 {
        BatchesExtend(sections, start);
        uploads := uploads + [batch];
        batch := [];
        start := i;
      }
    }
    BatchesSplit(sections, start);
    assert sections[..|sections|] == sections;
    if |batch| > 0 {
      uploads := uploads + [batch];
    } else {
      assert sections[start..] == [];
    }
  }
}
