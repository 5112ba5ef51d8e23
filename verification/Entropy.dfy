/** The entropy profile: worker i of n takes blocks i, i+n, i+2n, ...; the workers' arenas are merged
    in worker order and sorted by offset. */
module Entropy {
  import opened Arith
  import opened Blocks
  import opened Bytes
  import opened Schedule

  /** `entropy` is whatever the measure gives for the slice. */
  datatype EntropyRec = EntropyRec(offset: nat, entropy: Double)

  type Measure = Word -> Double

  /** Block `k` of the file; the last one may be short. */
  function BlockRec(text: Word, bs: nat, measure: Measure, k: nat): EntropyRec {
    EntropyRec(Off(k, bs), measure(Slice(text, Off(k, bs), bs)))
  }

  /** The profile: one record per block, in order. */
  function Profile(text: Word, bs: nat, measure: Measure, blocks: nat): (p: seq<EntropyRec>)
    ensures |p| == blocks && forall k | 0 <= k < blocks :: p[k] == BlockRec(text, bs, measure, k)
  {
    if blocks == 0 then [] else Profile(text, bs, measure, blocks - 1) + [BlockRec(text, bs, measure, blocks - 1)]
  }

  /** What worker `i` of `n` has to report of the first `blocks` blocks. */
  ghost function Share(text: Word, bs: nat, measure: Measure, i: nat, n: nat, blocks: nat): seq<EntropyRec>
    requires n > 0
  {
    if blocks == 0 then []
    else
      Share(text, bs, measure, i, n, blocks - 1) +
      (if (blocks - 1) % n == i then [BlockRec(text, bs, measure, blocks - 1)] else [])
  }

  /** The arenas in worker order. */
  ghost function MergeShares(text: Word, bs: nat, measure: Measure, m: nat, n: nat, blocks: nat): seq<EntropyRec>
    requires n > 0
  {
    if m == 0 then [] else MergeShares(text, bs, measure, m - 1, n, blocks) + Share(text, bs, measure, m - 1, n, blocks)
  }

  // ---------------------------------------------------------------- the worker

  /** Between two of its blocks a worker has nothing to report. */
  lemma {:induction false} ShareSkips(text: Word, bs: nat, measure: Measure, i: nat, n: nat, j: nat, k: nat)
    requires n > 0 && i < n && j % n == i && j < k <= j + n
    ensures Share(text, bs, measure, i, n, k) == Share(text, bs, measure, i, n, j + 1)
    decreases k
  {
    hide BlockRec;
    if j + 1 < k {
      ShareSkips(text, bs, measure, i, n, j, k - 1);
      NotMine(i, n, j, k - 1);
    }
  }

  lemma NotMine(i: nat, n: nat, j: nat, k: nat)
    requires n > 0 && j % n == i && j < k < j + n
    ensures k % n != i
  {
    assert j == (j / n) * n + j % n;
    if i + (k - j) < n {
      ModUnique(n, k, j / n, i + (k - j));
    } else {
      assert k == (j / n + 1) * n + (i + (k - j) - n);
      ModUnique(n, k, j / n + 1, i + (k - j) - n);
    }
  }

  lemma {:induction false} NothingYet(text: Word, bs: nat, measure: Measure, i: nat, n: nat, k: nat)
    requires n > 0 && k <= i < n
    ensures Share(text, bs, measure, i, n, k) == []
  {
    if k > 0 {
      NothingYet(text, bs, measure, i, n, k - 1);
      ModUnique(n, k - 1, 0, k - 1);
    }
  }

  /** One turn of the worker: report block `j`, go on to block `j + n`. */
  lemma ShareTurn(text: Word, bs: nat, measure: Measure, i: nat, n: nat, j: nat, blocks: nat)
    requires n > 0 && i < n && j % n == i && j < blocks
    ensures Share(text, bs, measure, i, n, Min(j + n, blocks)) ==
            Share(text, bs, measure, i, n, j) + [BlockRec(text, bs, measure, j)]
  {
    hide BlockRec;
    ShareSkips(text, bs, measure, i, n, j, Min(j + n, blocks));
  }

  /** The record a worker appends for the block at `off`. */
  function RecAt(text: Word, off: nat, bs: nat, measure: Measure): (r: EntropyRec)
    requires off < |text|
    ensures r == EntropyRec(off, measure(Slice(text, off, bs)))
  {
    var n := if off + bs <= |text| then bs else |text| - off;
    assert text[off..off + n] == Slice(text, off, bs);
    EntropyRec(off, measure(text[off..off + n]))
  }

  lemma Stride(j: nat, n: nat, bs: nat)
    ensures Off(j, bs) + n * bs == Off(j + n, bs)
  {
  }

  method EntropyWorker(text: Word, bs: nat, measure: Measure, i: nat, n: nat) returns (out: seq<EntropyRec>)
    requires bs > 0 && i < n
    ensures out == Share(text, bs, measure, i, n, BlockCount(|text|, bs))
  {
    hide Share, BlockCount, RecAt, Off, Slice;
    out := [];
    var off := Off(i, bs);
    ghost var j, K := i, BlockCount(|text|, bs);
    ModUnique(n, i, 0, i);
    NothingYet(text, bs, measure, i, n, Min(i, K));
    while off < |text|
      invariant off == Off(j, bs) && j % n == i
      invariant out == Share(text, bs, measure, i, n, Min(j, K))
      decreases if j < K then K - j else 0
    {
      InsideIff(|text|, bs, j);
      ShareTurn(text, bs, measure, i, n, j, K);
      out := out + [RecAt(text, off, bs, measure)];
      Stride(j, n, bs);
      ModAdd(n, j);
      off := off + n * bs;
      j := j + n;
    }
    InsideIff(|text|, bs, j);
  }

  method MergeWorkers(text: Word, blockSize: int, measure: Measure, n: nat) returns (merged: seq<EntropyRec>)
    requires n > 0
    ensures var bs := if blockSize < 64 then 64 else blockSize;
            merged == MergeShares(text, bs, measure, n, n, BlockCount(|text|, bs))
  {
    hide Share, BlockCount;
    var bs := if blockSize < 64 then 64 else blockSize;
    merged := [];
    for m := 0 to n
      invariant merged == MergeShares(text, bs, measure, m, n, BlockCount(|text|, bs))
    {
      var out := EntropyWorker(text, bs, measure, m, n);
      merged := merged + out;
    }
  }

  // ---------------------------------------------------------------- nothing lost, nothing twice

  lemma MergeAdd(text: Word, bs: nat, measure: Measure, m: nat, n: nat, blocks: nat)
    requires n > 0 && blocks > 0
    ensures multiset(Share(text, bs, measure, m, n, blocks)) ==
            multiset(Share(text, bs, measure, m, n, blocks - 1)) +
            (if (blocks - 1) % n == m then multiset{BlockRec(text, bs, measure, blocks - 1)} else multiset{})
  {
    hide BlockRec;
  }

  /** The next block goes to exactly one worker. */
  lemma {:induction false} NextBlockOnce(text: Word, bs: nat, measure: Measure, m: nat, n: nat, blocks: nat)
    requires n > 0 && blocks > 0
    ensures multiset(MergeShares(text, bs, measure, m, n, blocks)) ==
            multiset(MergeShares(text, bs, measure, m, n, blocks - 1)) +
            (if (blocks - 1) % n < m then multiset{BlockRec(text, bs, measure, blocks - 1)} else multiset{})
  {
    hide Share, BlockRec;
    if m > 0 {
      NextBlockOnce(text, bs, measure, m - 1, n, blocks);
      MergeAdd(text, bs, measure, m - 1, n, blocks);
      assert (blocks - 1) % n < m <==> (blocks - 1) % n < m - 1 || (blocks - 1) % n == m - 1;
    }
  }

  lemma {:induction false} NoShares(text: Word, bs: nat, measure: Measure, m: nat, n: nat)
    requires n > 0
    ensures MergeShares(text, bs, measure, m, n, 0) == []
  {
    if m > 0 { NoShares(text, bs, measure, m - 1, n); }
  }

  lemma {:induction false} SharesArePermutation(text: Word, bs: nat, measure: Measure, n: nat, blocks: nat)
    requires n > 0
    ensures multiset(MergeShares(text, bs, measure, n, n, blocks)) == multiset(Profile(text, bs, measure, blocks))
  {
    hide BlockRec, MergeShares;
    if blocks == 0 {
      NoShares(text, bs, measure, n, n);
    } else {
      SharesArePermutation(text, bs, measure, n, blocks - 1);
      NextBlockOnce(text, bs, measure, n, n, blocks);
    }
  }

  ghost function Offset(): EntropyRec -> int {
    (r: EntropyRec) => r.offset
  }

  lemma ProfileStrict(text: Word, bs: nat, measure: Measure, blocks: nat)
    requires bs > 0
    ensures StrictBy(Offset(), Profile(text, bs, measure, blocks))
  {
    hide Off, Slice, Profile;
    var p := Profile(text, bs, measure, blocks);
    forall i, j | 0 <= i < j < |p| ensures Offset()(p[i]) < Offset()(p[j]) {
      OffMono(i, j, bs);
    }
  }

  /** For any number of workers, sorting the merged arenas gives one record per block: record k has
      offset k·block and the entropy of its slice. */
  lemma EntropyProfileExact(text: Word, bs: nat, measure: Measure, n: nat, sorted: seq<EntropyRec>)
    requires n > 0 && bs > 0
    requires SortOf(Offset(), MergeShares(text, bs, measure, n, n, BlockCount(|text|, bs)), sorted)
    ensures |sorted| == (|text| + bs - 1) / bs
    ensures forall k | 0 <= k < |sorted| ::
              0 <= k * bs < |text| &&
                sorted[k] == EntropyRec(k * bs, measure(text[k * bs..Min(k * bs + bs, |text|)]))
  {
    hide Off, Slice, Profile, MergeShares, BlockCount, SortOf, StrictBy;
    var K := BlockCount(|text|, bs);
    var p := Profile(text, bs, measure, K);
    SharesArePermutation(text, bs, measure, n, K);
    ProfileStrict(text, bs, measure, K);
    SortCongruent(Offset(), MergeShares(text, bs, measure, n, n, K), p, sorted);
    SortUnique(Offset(), p, sorted);
    CountIs(|text|, bs);
    forall k | 0 <= k < |p|
      ensures 0 <= k * bs < |text| &&
                p[k] == EntropyRec(k * bs, measure(text[k * bs..Min(k * bs + bs, |text|)]))
    {
      InsideIff(|text|, bs, k);
      OffIs(k, bs);
      SliceIs(text, k * bs, bs);
    }
  }

  lemma CountIs(n: nat, bs: nat)
    requires bs > 0
    ensures BlockCount(n, bs) == (n + bs - 1) / bs
  {
  }

  lemma SortCongruent(key: EntropyRec -> int, a: seq<EntropyRec>, b: seq<EntropyRec>, sorted: seq<EntropyRec>)
    requires multiset(a) == multiset(b) && SortOf(key, a, sorted)
    ensures SortOf(key, b, sorted)
  {
  }
}
