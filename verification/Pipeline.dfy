/** The shape shared by the chunked tools: workers take chunks from the allocator, scan each chunk
    by itself, and the outputs are merged. `chunk(b, e)` is the result of one chunk [b, e). */
module Pipeline {
  import opened Bytes
  import opened ChunkAllocator
  import opened Schedule

  ghost function ChunkJob<R>(text: Word, C: nat, L: nat, chunk: (nat, nat) -> seq<R>): Job<R> {
    Job(C, |text|, (s: nat) => if s < |text| then chunk(LeftEdge(text, C, s), RightEdge(text, C, L, s)) else [])
  }

  /** What one worker produces alone, from counter value `s` on. */
  ghost function OnePass<R>(text: Word, C: nat, L: nat, chunk: (nat, nat) -> seq<R>, s: nat): seq<R>
    requires C > 0
  {
    Sequential(ChunkJob(text, C, L, chunk), s)
  }

  ghost predicate EmptyChunks<R>(text: Word, chunk: (nat, nat) -> seq<R>) {
    forall b: nat | b <= |text| :: chunk(b, b) == []
  }

  /** Cutting at the start of a line does not change the result. */
  ghost predicate CutsAtLines<R>(text: Word, chunk: (nat, nat) -> seq<R>) {
    forall b: nat, m: nat | b <= m <= |text| && LineStart(text, m) && (b < m || m == 0) ::
      chunk(b, |text|) == chunk(b, m) + chunk(m, |text|)
  }

  lemma {:induction false} EmptyWork<R>(text: Word, C: nat, L: nat, chunk: (nat, nat) -> seq<R>, mine: seq<nat>,
        taken: seq<nat>)
    requires C > 0 && EmptyChunks(text, chunk)
    requires forall i | 0 <= i < |taken| ::
               taken[i] < |text| && LeftEdge(text, C, taken[i]) >= RightEdge(text, C, L, taken[i])
    ensures Works(ChunkJob(text, C, L, chunk), mine + taken) == Works(ChunkJob(text, C, L, chunk), mine)
  {
    hide LeftEdge, RightEdge, Works;
    if taken == [] {
      assert mine + taken == mine;
    } else {
      var n := |taken| - 1;
      EmptyWork(text, C, L, chunk, mine, taken[..n]);
      assert mine + taken == (mine + taken[..n]) + [taken[n]];
      WorksSnoc(ChunkJob(text, C, L, chunk), mine + taken[..n], taken[n]);
      EdgesOrdered(text, C, L, taken[n]);
    }
  }

  /** One call of the allocator adds the result of the chunk it hands out, and nothing else. */
  lemma NextWork<R>(text: Word, C: nat, L: nat, chunk: (nat, nat) -> seq<R>, mine: seq<nat>, taken: seq<nat>)
    requires C > 0 && EmptyChunks(text, chunk) && taken != []
    requires forall i | 0 <= i < |taken| - 1 ::
               taken[i] < |text| && LeftEdge(text, C, taken[i]) >= RightEdge(text, C, L, taken[i])
    ensures var job, s := ChunkJob(text, C, L, chunk), taken[|taken| - 1];
            Works(job, mine + taken) ==
            Works(job, mine) + if s < |text| then chunk(LeftEdge(text, C, s), RightEdge(text, C, L, s)) else []
  {
    hide LeftEdge, RightEdge, Works;
    var n := |taken| - 1;
    EmptyWork(text, C, L, chunk, mine, taken[..n]);
    assert mine + taken == (mine + taken[..n]) + [taken[n]];
    WorksSnoc(ChunkJob(text, C, L, chunk), mine + taken[..n], taken[n]);
  }

  /** On a line-safe file the chunks from the nominal offset `s` on give the result of the rest. */
  lemma {:induction false} ChunksTile<R>(text: Word, C: nat, L: nat, chunk: (nat, nat) -> seq<R>, s: nat)
    requires C > 0 && LineSafe(text, C, L) && Nominal(C, |text|, s)
    requires EmptyChunks(text, chunk) && CutsAtLines(text, chunk)
    ensures OnePass(text, C, L, chunk, s) == chunk(LeftEdge(text, C, s), |text|)
    decreases |text| - s
  {
    EdgesOrdered(text, C, L, s);
    if s + C < |text| {
      SharedEdge(text, C, L, s);
      NominalStep(C, |text|, s);
      ChunksTile(text, C, L, chunk, s + C);
      CutOnce(text, chunk, LeftEdge(text, C, s), RightEdge(text, C, L, s));
    } else {
      LastChunk(text, C, L, chunk, s);
    }
  }

  lemma CutOnce<R>(text: Word, chunk: (nat, nat) -> seq<R>, b: nat, m: nat)
    requires b <= m <= |text| && LineStart(text, m) && EmptyChunks(text, chunk) && CutsAtLines(text, chunk)
    ensures chunk(b, |text|) == chunk(b, m) + chunk(m, |text|)
  {
    if b == m {
      assert chunk(b, m) == [];
    }
  }

  lemma LastChunk<R>(text: Word, C: nat, L: nat, chunk: (nat, nat) -> seq<R>, s: nat)
    requires C > 0 && s < |text| <= s + C
    ensures RightEdge(text, C, L, s) == |text|
    ensures OnePass(text, C, L, chunk, s) == chunk(LeftEdge(text, C, s), |text|)
  {
    assert Sequential(ChunkJob(text, C, L, chunk), s + C) == [];
  }

  /** Any number of workers, any interleaving: on a line-safe file the merge is a permutation of
      the result of one pass over the whole file. */
  lemma MergeComplete<R>(text: Word, C: nat, L: nat, chunk: (nat, nat) -> seq<R>, n: nat, sched: seq<nat>)
    requires C > 0 && LineSafe(text, C, L) && n > 0
    requires EmptyChunks(text, chunk) && CutsAtLines(text, chunk)
    requires AllDone(Run(ChunkJob(text, C, L, chunk), n, sched))
    ensures multiset(Merged(Run(ChunkJob(text, C, L, chunk), n, sched).workers)) == multiset(chunk(0, |text|))
  {
    InterleavingComplete(ChunkJob(text, C, L, chunk), n, sched);
    if text != [] {
      assert Nominal(C, |text|, 0);
      ChunksTile(text, C, L, chunk, 0);
    } else {
      assert chunk(0, 0) == [];
    }
  }

  // ---------------------------------------------------------------- any file

  /** The results of a chunk have keys inside the chunk. */
  ghost predicate KeysInside<R>(text: Word, chunk: (nat, nat) -> seq<R>, key: R -> int) {
    forall b: nat, e: nat | b <= e <= |text| :: forall x | x in chunk(b, e) :: b <= key(x) < e
  }

  lemma StrictConcat<R>(key: R -> int, s: seq<R>, t: seq<R>, m: int)
    requires (forall x | x in s :: key(x) < m) && forall x | x in t :: m <= key(x)
    ensures DistinctBy(key, s) && DistinctBy(key, t) ==> DistinctBy(key, s + t)
    ensures StrictBy(key, s) && StrictBy(key, t) ==> StrictBy(key, s + t)
  {
    var u := s + t;
    forall i, j | 0 <= i < |s| <= j < |u| ensures key(u[i]) < key(u[j]) { assert u[i] in s && u[j] in t; }
  }

  lemma NextNominal(text: Word, C: nat, L: nat, s: nat)
    requires C > 0 && L <= C && s % C == 0 && s < |text|
    ensures LeftEdge(text, C, s) <= RightEdge(text, C, L, s) <= |text|
    ensures (s + C) % C == 0 && (s + C < |text| ==> RightEdge(text, C, L, s) <= LeftEdge(text, C, s + C))
  {
    hide LeftEdge, RightEdge;
    EdgesOrdered(text, C, L, s);
    NominalStep(C, |text|, s);
    if s + C < |text| { ChunksDisjoint(text, C, L, s, s + C); }
  }

  /** Chunks do not overlap, so keys that are distinct within every chunk are distinct in the whole
      pass, and keys that ascend within every chunk ascend in it. */
  lemma {:induction false} PassKeys<R>(text: Word, C: nat, L: nat, chunk: (nat, nat) -> seq<R>, key: R -> int, s: nat,
        lo: nat)
    requires C > 0 && L <= C && s % C == 0 && KeysInside(text, chunk, key)
    requires s < |text| ==> lo <= LeftEdge(text, C, s)
    ensures var pass := OnePass(text, C, L, chunk, s);
            && (forall x | x in pass :: lo <= key(x))
            && ((forall b: nat, e: nat | b <= e <= |text| :: DistinctBy(key, chunk(b, e))) ==> DistinctBy(key, pass))
            && ((forall b: nat, e: nat | b <= e <= |text| :: StrictBy(key, chunk(b, e))) ==> StrictBy(key, pass))
    decreases |text| - s
  {
    hide LeftEdge, RightEdge, DistinctBy, StrictBy;
    if s < |text| {
      var b, e := LeftEdge(text, C, s), RightEdge(text, C, L, s);
      NextNominal(text, C, L, s);
      PassKeys(text, C, L, chunk, key, s + C, e);
      StrictConcat(key, chunk(b, e), OnePass(text, C, L, chunk, s + C), e);
    } else {
      NoKeys<R>(key);
    }
  }

  lemma NoKeys<R>(key: R -> int)
    ensures DistinctBy(key, []) && StrictBy(key, [])
  {
  }

  /** On any file, when keys are distinct within every chunk, the sorted merge is the same for any
      numbers of workers and any interleavings: sorting hides the schedule. */
  lemma SortHidesSchedule<R>(text: Word, C: nat, L: nat, chunk: (nat, nat) -> seq<R>, key: R -> int,
                             n: nat, sched: seq<nat>, sorted: seq<R>, n': nat, sched': seq<nat>, sorted': seq<R>)
    requires C > 0 && L <= C && n > 0 && n' > 0 && KeysInside(text, chunk, key)
    requires forall b: nat, e: nat | b <= e <= |text| :: DistinctBy(key, chunk(b, e))
    requires AllDone(Run(ChunkJob(text, C, L, chunk), n, sched)) &&
             AllDone(Run(ChunkJob(text, C, L, chunk), n', sched'))
    requires SortOf(key, Merged(Run(ChunkJob(text, C, L, chunk), n, sched).workers), sorted)
    requires SortOf(key, Merged(Run(ChunkJob(text, C, L, chunk), n', sched').workers), sorted')
    ensures sorted == sorted' && StrictBy(key, sorted)
    ensures multiset(sorted) == multiset(OnePass(text, C, L, chunk, 0))
  {
    hide LeftEdge, RightEdge, DistinctBy, StrictBy, SortOf, KeysInside;
    InterleavingComplete(ChunkJob(text, C, L, chunk), n, sched);
    InterleavingComplete(ChunkJob(text, C, L, chunk), n', sched');
    PassKeys(text, C, L, chunk, key, 0, 0);
    DistinctSortUnique(key, OnePass(text, C, L, chunk, 0), Merged(Run(ChunkJob(text, C, L, chunk), n, sched).workers),
      sorted,
                       Merged(Run(ChunkJob(text, C, L, chunk), n', sched').workers), sorted');
  }

  /** On any file, when keys ascend within every chunk, the sorted merge is the results of the chunks
      in file order. */
  lemma SortedIsPass<R>(text: Word, C: nat, L: nat, chunk: (nat, nat) -> seq<R>, key: R -> int,
                        n: nat, sched: seq<nat>, sorted: seq<R>)
    requires C > 0 && L <= C && n > 0 && KeysInside(text, chunk, key)
    requires forall b: nat, e: nat | b <= e <= |text| :: StrictBy(key, chunk(b, e))
    requires AllDone(Run(ChunkJob(text, C, L, chunk), n, sched))
    requires SortOf(key, Merged(Run(ChunkJob(text, C, L, chunk), n, sched).workers), sorted)
    ensures sorted == OnePass(text, C, L, chunk, 0)
  {
    hide LeftEdge, RightEdge, StrictBy, KeysInside;
    InterleavingComplete(ChunkJob(text, C, L, chunk), n, sched);
    PassKeys(text, C, L, chunk, key, 0, 0);
    SortUnique(key, OnePass(text, C, L, chunk, 0), sorted);
  }

  /** `x` is in the result of a chunk at or after the nominal offset `s`. */
  ghost predicate InChunkFrom<R>(text: Word, C: nat, L: nat, chunk: (nat, nat) -> seq<R>, s: nat, x: R)
    requires C > 0
  {
    exists t: nat | s <= t && Nominal(C, |text|, t) :: x in chunk(LeftEdge(text, C, t), RightEdge(text, C, L, t))
  }

  lemma {:induction false} PassMember<R>(text: Word, C: nat, L: nat, chunk: (nat, nat) -> seq<R>, s: nat, x: R)
    requires C > 0 && s % C == 0
    ensures x in OnePass(text, C, L, chunk, s) <==> InChunkFrom(text, C, L, chunk, s, x)
    decreases |text| - s
  {
    hide LeftEdge, RightEdge;
    if s < |text| {
      NominalStep(C, |text|, s);
      PassMember(text, C, L, chunk, s + C, x);
      assert Nominal(C, |text|, s);
      forall t: nat | s <= t && Nominal(C, |text|, t) && t != s ensures s + C <= t { NominalApart(C, s, t); }
    }
  }
}
