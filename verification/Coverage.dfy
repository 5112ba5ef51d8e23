/** Which bytes of a file the chunked tools see, over all interleavings, and the byte histogram. */
module Coverage {
  import opened Arith
  import opened Bytes
  import opened ChunkAllocator
  import opened Schedule
  import opened Pipeline

  ghost function Offsets(b: nat, e: nat): seq<int>
    decreases e - b
  {
    if b >= e then [] else [b] + Offsets(b + 1, e)
  }

  /** The chunk "result" that just names the offsets handed out. */
  ghost function OffsetChunk(): (nat, nat) -> seq<int> {
    (b: nat, e: nat) => Offsets(b, e)
  }

  lemma {:induction false} OffsetsSplit(b: nat, m: nat, e: nat)
    requires b <= m <= e
    ensures Offsets(b, e) == Offsets(b, m) + Offsets(m, e)
    decreases m - b
  {
    if b < m { OffsetsSplit(b + 1, m, e); }
  }

  lemma {:induction false} OffsetsCount(b: nat, e: nat, x: int)
    ensures multiset(Offsets(b, e))[x] == if b <= x < e then 1 else 0
    decreases e - b
  {
    if b < e { OffsetsCount(b + 1, e, x); }
  }

  /** Any number of workers, any interleaving: on a line-safe file the chunks handed out cover
      every byte exactly once. */
  lemma EveryByteOnce(text: Word, C: nat, L: nat, n: nat, sched: seq<nat>, x: int)
    requires C > 0 && LineSafe(text, C, L) && n > 0
    requires AllDone(Run(ChunkJob(text, C, L, OffsetChunk()), n, sched))
    ensures multiset(Merged(Run(ChunkJob(text, C, L, OffsetChunk()), n, sched).workers))[x] ==
            if 0 <= x < |text| then 1 else 0
  {
    forall b: nat, m: nat | b <= m <= |text|
      ensures Offsets(b, |text|) == Offsets(b, m) + Offsets(m, |text|)
    {
      OffsetsSplit(b, m, |text|);
    }
    MergeComplete(text, C, L, OffsetChunk(), n, sched);
    OffsetsCount(0, |text|, x);
  }

  ghost predicate CoveredFrom(text: Word, C: nat, L: nat, s: nat, x: int)
    requires C > 0
  {
    exists t: nat | s <= t && Nominal(C, |text|, t) :: LeftEdge(text, C, t) <= x < RightEdge(text, C, L, t)
  }

  lemma CoveredStep(text: Word, C: nat, L: nat, s: nat, x: int)
    requires C > 0 && L <= C && Nominal(C, |text|, s)
    ensures CoveredFrom(text, C, L, s, x) <==>
              LeftEdge(text, C, s) <= x < RightEdge(text, C, L, s) || CoveredFrom(text, C, L, s + C, x)
    ensures LeftEdge(text, C, s) <= x < RightEdge(text, C, L, s) ==> !CoveredFrom(text, C, L, s + C, x)
  {
    hide LeftEdge, RightEdge;
    forall t: nat | s <= t && Nominal(C, |text|, t) && t != s
      ensures s + C <= t && RightEdge(text, C, L, s) <= LeftEdge(text, C, t)
    {
      NominalApart(C, s, t);
      ChunksDisjoint(text, C, L, s, t);
    }
  }

  lemma {:induction false} PassCount(text: Word, C: nat, L: nat, s: nat, x: int)
    requires C > 0 && L <= C && s % C == 0
    ensures multiset(OnePass(text, C, L, OffsetChunk(), s))[x] == if CoveredFrom(text, C, L, s, x) then 1 else 0
    decreases |text| - s
  {
    hide LeftEdge, RightEdge, CoveredFrom;
    if s < |text| {
      ModAdd(C, s);
      PassCount(text, C, L, s + C, x);
      CoveredStep(text, C, L, s, x);
      OffsetsCount(LeftEdge(text, C, s), RightEdge(text, C, L, s), x);
    } else {
      NothingFrom(text, C, L, s, x);
    }
  }

  lemma NothingFrom(text: Word, C: nat, L: nat, s: nat, x: int)
    requires C > 0 && s >= |text|
    ensures !CoveredFrom(text, C, L, s, x)
  {
  }

  lemma CoveredInRange(text: Word, C: nat, L: nat, x: int)
    requires C > 0 && L <= C
    ensures CoveredFrom(text, C, L, 0, x) <==> 0 <= x < |text| && !Lost(text, C, L, x)
  {
    if 0 <= x < |text| { CoveredExact(text, C, L, x); }
  }

  /** Any number of workers, any interleaving, any file whatsoever: the lost bytes are never seen
      and every other byte is seen exactly once. */
  lemma EveryByteAccounted(text: Word, C: nat, L: nat, n: nat, sched: seq<nat>, x: int)
    requires C > 0 && L <= C && n > 0
    requires AllDone(Run(ChunkJob(text, C, L, OffsetChunk()), n, sched))
    ensures multiset(Merged(Run(ChunkJob(text, C, L, OffsetChunk()), n, sched).workers))[x] ==
            if 0 <= x < |text| && !Lost(text, C, L, x) then 1 else 0
  {
    InterleavingComplete(ChunkJob(text, C, L, OffsetChunk()), n, sched);
    PassCount(text, C, L, 0, x);
    CoveredInRange(text, C, L, x);
  }

  // ---------------------------------------------------------------- histogram

  /** The bytes of a chunk. */
  ghost function ByteChunk(text: Word): (nat, nat) -> seq<byte> {
    (b: nat, e: nat) => if b <= e <= |text| then text[b..e] else []
  }

  /** The counters have grown by the occurrences in `s`. */
  ghost predicate Counts(was: seq<nat>, now: seq<nat>, s: seq<byte>) {
    |was| == |now| == 256 && forall b | 0 <= b < 256 :: now[b] == was[b] + multiset(s)[b as byte]
  }

  lemma CountsAppend(was: seq<nat>, mid: seq<nat>, now: seq<nat>, s: seq<byte>, t: seq<byte>)
    requires Counts(was, mid, s) && Counts(mid, now, t)
    ensures Counts(was, now, s + t)
  {
    forall b | 0 <= b < 256 ensures now[b] == was[b] + multiset(s + t)[b as byte] {
      assert multiset(s + t)[b as byte] == multiset(s)[b as byte] + multiset(t)[b as byte];
    }
  }

  lemma CountsNone(was: seq<nat>)
    requires |was| == 256
    ensures Counts(was, was, [])
  {
  }

  method HistChunk(text: Word, begin: nat, end: nat, hist: array<nat>)
    requires begin <= end <= |text| && hist.Length == 256
    modifies hist
    ensures Counts(old(hist[..]), hist[..], text[begin..end])
  {
    for i := begin to end
      invariant forall b | 0 <= b < 256 :: hist[b] == old(hist[b]) + multiset(text[begin..i])[b as byte]
    {
      assert text[begin..i + 1] == text[begin..i] + [text[i]];
      hist[text[i] as int] := hist[text[i] as int] + 1;
    }
  }

  /** A worker: the bytes of the chunks it was handed, whatever the other workers took. */
  method HistWorker(alloc: Allocator, hist: array<nat>) returns (ghost mine: seq<nat>)
    requires alloc.chunkSize > 0 && hist.Length == 256
    modifies alloc`next, hist
    ensures OwnOffsets(alloc.chunkSize, old(alloc.next), mine) && mine != [] && mine[|mine| - 1] >= |alloc.text|
    ensures Counts(old(hist[..]), hist[..],
                   Works(ChunkJob(alloc.text, alloc.chunkSize, alloc.lookahead, ByteChunk(alloc.text)), mine))
  {
    hide FindByte, LeftEdge, RightEdge, Works, EmptyChunks, Counts;
    ghost var text, C, L, chunk := alloc.text, alloc.chunkSize, alloc.lookahead, ByteChunk(alloc.text);
    ghost var job := ChunkJob(text, C, L, chunk);
    ByteChunkCut(text);
    WorksNothing(job);
    mine := [];
    CountsNone(hist[..]);
    while true
      invariant old(alloc.next) <= alloc.next && alloc.next % C == old(alloc.next) % C
      invariant OwnOffsets(C, old(alloc.next), mine) && forall i | 0 <= i < |mine| :: mine[i] + C <= alloc.next
      invariant Counts(old(hist[..]), hist[..], Works(job, mine))
      decreases |text| - alloc.next
    {
      ghost var from, before, seen := alloc.next, hist[..], Works(job, mine);
      var ok, begin, end, taken := alloc.GetNext();
      OwnAppend(C, old(alloc.next), mine, from, taken);
      NextWork(text, C, L, chunk, mine, taken);
      mine := mine + taken;
      if !ok {
        assert seen + [] == seen;
        break;
      }
      HistChunk(alloc.text, begin, end, hist);
      CountsAppend(old(hist[..]), before, hist[..], seen, text[begin..end]);
    }
  }

  lemma ByteChunkCut(text: Word)
    ensures EmptyChunks(text, ByteChunk(text)) && CutsAtLines(text, ByteChunk(text))
  {
  }

  /** The 256 counters for the bytes of `s`. */
  ghost function Bars(s: seq<byte>, n: nat): (bars: seq<nat>)
    requires n <= 256
    ensures |bars| == n && forall b | 0 <= b < n :: bars[b] == multiset(s)[b as byte]
  {
    if n == 0 then [] else Bars(s, n - 1) + [multiset(s)[(n - 1) as byte]]
  }

  ghost function Sum(bars: seq<nat>): nat {
    if bars == [] then 0 else Sum(bars[..|bars| - 1]) + bars[|bars| - 1]
  }

  /** A further byte raises one bar. */
  lemma {:induction false} BarRises(s: seq<byte>, x: byte, n: nat)
    requires n <= 256
    ensures Sum(Bars(s + [x], n)) == Sum(Bars(s, n)) + if x as int < n then 1 else 0
  {
    if n > 0 {
      BarRises(s, x, n - 1);
      assert Bars(s, n)[..n - 1] == Bars(s, n - 1);
      assert Bars(s + [x], n)[..n - 1] == Bars(s + [x], n - 1);
      assert multiset(s + [x])[(n - 1) as byte] == multiset(s)[(n - 1) as byte] + if x as int == n - 1 then 1 else 0;
    }
  }

  lemma {:induction false} BarsEmpty(n: nat)
    requires n <= 256
    ensures Sum(Bars([], n)) == 0
  {
    if n > 0 {
      BarsEmpty(n - 1);
      assert Bars([], n)[..n - 1] == Bars([], n - 1);
    }
  }

  /** The bars sum to the number of bytes counted. */
  lemma {:induction false} BarsSum(s: seq<byte>)
    ensures Sum(Bars(s, 256)) == |s|
  {
    if s == [] {
      BarsEmpty(256);
    } else {
      var m := |s| - 1;
      BarsSum(s[..m]);
      BarRises(s[..m], s[m], 256);
      assert s[..m] + [s[m]] == s;
    }
  }

  // The merge of the workers' counters.

  /** Counter by counter addition, as `run_hist` does it after the join. */
  method AddBars(merged: array<nat>, bars: seq<nat>)
    requires merged.Length == |bars| == 256
    modifies merged
    ensures merged[..] == Added(old(merged[..]), bars)
  {
    for k := 0 to 256
      invariant forall j | 0 <= j < k :: merged[j] == old(merged[j]) + bars[j]
      invariant forall j | k <= j < 256 :: merged[j] == old(merged[j])
    {
      merged[k] := merged[k] + bars[k];
    }
  }

  ghost function Added(a: seq<nat>, b: seq<nat>): (c: seq<nat>)
    requires |a| == |b|
    ensures |c| == |a| && forall k | 0 <= k < |a| :: c[k] == a[k] + b[k]
  {
    if a == [] then [] else Added(a[..|a| - 1], b[..|b| - 1]) + [a[|a| - 1] + b[|b| - 1]]
  }

  /** The counters of all workers, added up in worker order. */
  ghost function MergedBars(workers: seq<Worker<byte>>): (bars: seq<nat>)
    ensures |bars| == 256
  {
    if workers == [] then Bars([], 256)
    else Added(MergedBars(workers[..|workers| - 1]), Bars(workers[|workers| - 1].out, 256))
  }

  method MergeHists(hists: seq<seq<nat>>, ghost workers: seq<Worker<byte>>) returns (merged: seq<nat>)
    requires |hists| == |workers| && forall i | 0 <= i < |hists| :: hists[i] == Bars(workers[i].out, 256)
    ensures merged == MergedBars(workers)
  {
    var total := new nat[256](_ => 0);
    assert total[..] == Bars([], 256);
    for i := 0 to |hists|
      invariant total[..] == MergedBars(workers[..i])
    {
      assert workers[..i + 1][..i] == workers[..i];
      AddBars(total, hists[i]);
    }
    assert workers[..|hists|] == workers;
    merged := total[..];
  }

  lemma CountConcat(s: seq<byte>, t: seq<byte>, b: byte)
    ensures multiset(s + t)[b] == multiset(s)[b] + multiset(t)[b]
  {
  }

  /** Adding counters is counting the concatenation. */
  lemma BarsAdd(s: seq<byte>, t: seq<byte>)
    ensures Added(Bars(s, 256), Bars(t, 256)) == Bars(s + t, 256)
  {
    hide Bars, Added;
    var sum, bars := Added(Bars(s, 256), Bars(t, 256)), Bars(s + t, 256);
    forall b | 0 <= b < 256 ensures sum[b] == bars[b] { CountConcat(s, t, b as byte); }
  }

  /** The added counters are those of all the workers' bytes together. */
  lemma {:induction false} MergedBarsCount(workers: seq<Worker<byte>>)
    ensures MergedBars(workers) == Bars(Merged(workers), 256)
  {
    hide Bars, Added;
    if workers != [] {
      var n := |workers| - 1;
      MergedBarsCount(workers[..n]);
      BarsAdd(Merged(workers[..n]), workers[n].out);
    }
  }

  lemma BarsPermute(s: seq<byte>, t: seq<byte>)
    requires multiset(s) == multiset(t)
    ensures Bars(s, 256) == Bars(t, 256)
  {
  }

  /** On a line-safe file the added counters are those of the file, for every interleaving. */
  lemma HistComplete(text: Word, C: nat, L: nat, n: nat, sched: seq<nat>)
    requires C > 0 && LineSafe(text, C, L) && n > 0
    requires AllDone(Run(ChunkJob(text, C, L, ByteChunk(text)), n, sched))
    ensures MergedBars(Run(ChunkJob(text, C, L, ByteChunk(text)), n, sched).workers) == Bars(text, 256)
  {
    hide Bars;
    var workers := Run(ChunkJob(text, C, L, ByteChunk(text)), n, sched).workers;
    ByteChunkCut(text);
    MergeComplete(text, C, L, ByteChunk(text), n, sched);
    assert ByteChunk(text)(0, |text|) == text;
    MergedBarsCount(workers);
    BarsPermute(Merged(workers), text);
  }

  // The sum of the bars.

  lemma {:induction false} OffsetsLength(b: nat, e: nat)
    requires b <= e
    ensures |Offsets(b, e)| == e - b
    decreases e - b
  {
    if b < e { OffsetsLength(b + 1, e); }
  }

  lemma {:induction false} PassLengths(text: Word, C: nat, L: nat, s: nat)
    requires C > 0
    ensures |OnePass(text, C, L, ByteChunk(text), s)| == |OnePass(text, C, L, OffsetChunk(), s)|
    decreases |text| - s
  {
    hide FindByte, LeftEdge, RightEdge;
    if s < |text| {
      EdgesOrdered(text, C, L, s);
      OffsetsLength(LeftEdge(text, C, s), RightEdge(text, C, L, s));
      PassLengths(text, C, L, s + C);
    }
  }

  lemma SubmultisetSize(a: multiset<int>, b: multiset<int>)
    requires a <= b
    ensures |a| <= |b| && (|a| == |b| <==> a == b)
  {
    assert b == a + (b - a);
    assert |b| == |a| + |b - a|;
    if |a| == |b| { assert b - a == multiset{}; }
  }

  /** A list in which every number below `n` occurs at most once, and no other number occurs, has
      `n` entries exactly when none is missing. */
  lemma FullLength(s: seq<int>, n: nat)
    requires forall x :: multiset(s)[x] <= if 0 <= x < n then 1 else 0
    ensures |s| <= n
    ensures |s| == n <==> forall x | 0 <= x < n :: multiset(s)[x] == 1
  {
    var some, all := multiset(s), multiset(Offsets(0, n));
    OffsetsLength(0, n);
    forall x ensures all[x] == if 0 <= x < n then 1 else 0 { OffsetsCount(0, n, x); }
    SubmultisetSize(some, all);
    assert |some| == |s| && |all| == n;
    assert some == all <==> forall x | 0 <= x < n :: some[x] == 1;
  }

  /** The bars of a complete histogram sum to the file size exactly when no boundary of the file
      loses bytes. */
  lemma HistSumExact(text: Word, C: nat, L: nat, n: nat, sched: seq<nat>)
    requires C > 0 && L <= C && n > 0
    requires AllDone(Run(ChunkJob(text, C, L, ByteChunk(text)), n, sched))
    ensures Sum(MergedBars(Run(ChunkJob(text, C, L, ByteChunk(text)), n, sched).workers)) == |text| <==>
              forall p: nat | 0 < p && Nominal(C, |text|, p) :: !LosesAt(text, C, L, p)
  {
    hide OnePass, Merged, MergedBars, Bars, Lost, LosesAt;
    var workers := Run(ChunkJob(text, C, L, ByteChunk(text)), n, sched).workers;
    MergedBarsCount(workers);
    BarsSum(Merged(workers));
    MergedLength(text, C, L, n, sched);
    PassLengths(text, C, L, 0);
    PassFull(text, C, L);
    LossyBoundary(text, C, L);
  }

  lemma MergedLength(text: Word, C: nat, L: nat, n: nat, sched: seq<nat>)
    requires C > 0 && n > 0 && AllDone(Run(ChunkJob(text, C, L, ByteChunk(text)), n, sched))
    ensures |Merged(Run(ChunkJob(text, C, L, ByteChunk(text)), n, sched).workers)| ==
            |OnePass(text, C, L, ByteChunk(text), 0)|
  {
    InterleavingComplete(ChunkJob(text, C, L, ByteChunk(text)), n, sched);
    SameLength(Merged(Run(ChunkJob(text, C, L, ByteChunk(text)), n, sched).workers),
      OnePass(text, C, L, ByteChunk(text), 0));
  }

  /** One pass hands out as many offsets as the file has exactly when no byte is lost. */
  lemma PassFull(text: Word, C: nat, L: nat)
    requires C > 0 && L <= C
    ensures |OnePass(text, C, L, OffsetChunk(), 0)| == |text| <==> !exists x: nat | x < |text| :: Lost(text, C, L, x)
  {
    hide OnePass, Lost;
    var pass := OnePass(text, C, L, OffsetChunk(), 0);
    forall x ensures multiset(pass)[x] == if 0 <= x < |text| && !Lost(text, C, L, x) then 1 else 0 {
      PassCount(text, C, L, 0, x);
      CoveredInRange(text, C, L, x);
    }
    FullLength(pass, |text|);
  }

  lemma LossyBoundary(text: Word, C: nat, L: nat)
    requires C > 0
    ensures (exists x: nat | x < |text| :: Lost(text, C, L, x)) <==>
            exists p: nat | 0 < p && Nominal(C, |text|, p) :: LosesAt(text, C, L, p)
  {
    if p: nat :| 0 < p && Nominal(C, |text|, p) && LosesAt(text, C, L, p) {
      assert Lost(text, C, L, p);
    }
  }
}
