/** g-strings: maximal printable runs, found chunk by chunk through 64-bit masks, merged from all
    workers and sorted by offset. */
module Strings {
  import opened Bytes
  import opened SimdScan
  import opened ChunkAllocator
  import opened Schedule
  import opened Pipeline

  // ---------------------------------------------------------------- runs

  datatype RunState = Outside | Inside(start: nat)

  /** A run: the printable bytes start, ..., end-1. */
  datatype Run = Run(start: nat, end: nat)

  /** The runs that a failing byte closes in [i, q), from state `st`. */
  ghost function ClosedRuns(text: Word, i: nat, q: nat, st: RunState): seq<Run>
    requires i <= q <= |text|
    decreases q - i
  {
    if i == q then []
    else if Printable(text[i]) then ClosedRuns(text, i + 1, q, if st.Outside? then Inside(i) else st)
    else (if st.Inside? then [Run(st.start, i)] else []) + ClosedRuns(text, i + 1, q, Outside)
  }

  ghost function EndState(text: Word, i: nat, q: nat, st: RunState): RunState
    requires i <= q <= |text|
    decreases q - i
  {
    if i == q then st
    else if Printable(text[i]) then EndState(text, i + 1, q, if st.Outside? then Inside(i) else st)
    else EndState(text, i + 1, q, Outside)
  }

  /** A run still open at the end counts only when the file ends there. */
  ghost function FinalRun(text: Word, e: nat, st: RunState): seq<Run> {
    if st.Inside? && e == |text| then [Run(st.start, e)] else []
  }

  /** The runs a worker reports for the chunk [b, e). */
  ghost function ChunkRuns(text: Word, b: nat, e: nat): seq<Run>
    requires b <= e <= |text|
  {
    ClosedRuns(text, b, e, Outside) + FinalRun(text, e, EndState(text, b, e, Outside))
  }

  ghost function AllRuns(text: Word): seq<Run> {
    ChunkRuns(text, 0, |text|)
  }

  /** A run that cannot be extended: to the right at all, to the left within [b, ...). */
  ghost predicate RunFrom(text: Word, b: nat, r: Run) {
    && b <= r.start < r.end <= |text|
    && (forall i | r.start <= i < r.end :: 0x20 <= text[i] <= 0x7E)
    && (r.start > b ==> !(0x20 <= text[r.start - 1] <= 0x7E))
    && (r.end < |text| ==> !(0x20 <= text[r.end] <= 0x7E))
  }

  /** A maximal printable run of the file. */
  ghost predicate MaximalRun(text: Word, r: Run) {
    RunFrom(text, 0, r)
  }

  /** `st` describes the bytes just before `i`, as far back as `b`. */
  ghost predicate StateAt(text: Word, b: nat, i: nat, st: RunState)
    requires i <= |text|
  {
    match st
    case Outside => i > b ==> !Printable(text[i - 1])
    case Inside(s) =>
      b <= s < i && (forall k | s <= k < i :: Printable(text[k])) && (s > b ==> !Printable(text[s - 1]))
  }

  ghost predicate OwnRun(i: nat, st: RunState, r: Run) {
    r.start >= i || st == Inside(r.start)
  }

  lemma {:induction false} ClosedRunsExact(text: Word, b: nat, i: nat, q: nat, st: RunState, r: Run)
    requires b <= i <= q <= |text| && StateAt(text, b, i, st)
    ensures r in ClosedRuns(text, i, q, st) <==> RunFrom(text, b, r) && i <= r.end < q && OwnRun(i, st, r)
    ensures StateAt(text, b, q, EndState(text, i, q, st))
    decreases q - i
  {
    if i < q {
      if Printable(text[i]) {
        ClosedRunsExact(text, b, i + 1, q, if st.Outside? then Inside(i) else st, r);
      } else {
        ClosedRunsExact(text, b, i + 1, q, Outside, r);
      }
    }
  }

  /** The chunk [b, e) reports exactly the runs that end in it, or with it at the end of the file. */
  lemma ChunkRunsExact(text: Word, b: nat, e: nat, r: Run)
    requires b <= e <= |text|
    ensures r in ChunkRuns(text, b, e) <==> RunFrom(text, b, r) && (r.end < e || r.end == e == |text|)
  {
    ClosedRunsExact(text, b, b, e, Outside, r);
    OpenRun(text, b, e, EndState(text, b, e, Outside), r);
  }

  /** The sequential pass reports exactly the maximal printable runs. */
  lemma AllRunsExact(text: Word, r: Run)
    ensures r in AllRuns(text) <==> MaximalRun(text, r)
  {
    ChunkRunsExact(text, 0, |text|, r);
  }

  lemma OpenRun(text: Word, b: nat, e: nat, st: RunState, r: Run)
    requires b <= e <= |text| && StateAt(text, b, e, st)
    ensures r in FinalRun(text, e, st) <==> RunFrom(text, b, r) && r.end == e == |text|
  {
    if RunFrom(text, b, r) && r.end == e == |text| {
      assert Printable(text[|text| - 1]);
    }
  }

  ghost predicate Ascending(runs: seq<Run>) {
    forall i, j | 0 <= i < j < |runs| :: runs[i].end < runs[j].start
  }

  lemma {:induction false} ClosedRunsAscend(text: Word, i: nat, q: nat, st: RunState)
    requires i <= q <= |text| && (st.Inside? ==> st.start < i)
    ensures Ascending(ClosedRuns(text, i, q, st))
    ensures forall r | r in ClosedRuns(text, i, q, st) :: OwnRun(i, st, r) && r.start < r.end < q
    ensures var z := EndState(text, i, q, st); z.Inside? ==> z.start < q
    ensures var z := EndState(text, i, q, st);
            z.Inside? ==> forall r | r in ClosedRuns(text, i, q, st) :: r.end < z.start
    ensures var z := EndState(text, i, q, st); z.Inside? ==> z == st || i <= z.start
    decreases q - i
  {
    if i < q {
      if Printable(text[i]) {
        ClosedRunsAscend(text, i + 1, q, if st.Outside? then Inside(i) else st);
      } else {
        ClosedRunsAscend(text, i + 1, q, Outside);
      }
    }
  }

  /** The runs of a chunk ascend, do not touch, and lie inside it. */
  lemma ChunkRunsAscend(text: Word, b: nat, e: nat)
    requires b <= e <= |text|
    ensures Ascending(ChunkRuns(text, b, e))
    ensures forall r | r in ChunkRuns(text, b, e) :: b <= r.start < r.end <= e
  {
    ClosedRunsAscend(text, b, e, Outside);
    var closed := ClosedRuns(text, b, e, Outside);
    assert forall i | 0 <= i < |closed| :: closed[i] in closed;
  }

  lemma AllRunsAscend(text: Word)
    ensures Ascending(AllRuns(text))
  {
    ChunkRunsAscend(text, 0, |text|);
  }

  // ---------------------------------------------------------------- cutting at newlines

  lemma {:induction false} RunsSplit(text: Word, i: nat, m: nat, q: nat, st: RunState)
    requires i <= m <= q <= |text|
    ensures ClosedRuns(text, i, q, st) ==
            ClosedRuns(text, i, m, st) + ClosedRuns(text, m, q, EndState(text, i, m, st))
    ensures EndState(text, i, q, st) == EndState(text, m, q, EndState(text, i, m, st))
    decreases m - i
  {
    if i < m {
      RunsSplit(text, i + 1, m, q,
                if Printable(text[i]) then (if st.Outside? then Inside(i) else st) else Outside);
    }
  }

  lemma {:induction false} NewlineCloses(text: Word, i: nat, q: nat, st: RunState)
    requires i < q <= |text| && text[q - 1] == NEWLINE
    ensures EndState(text, i, q, st) == Outside
    decreases q - i
  {
    if i + 1 < q {
      NewlineCloses(text, i + 1, q, if Printable(text[i]) then (if st.Outside? then Inside(i) else st) else Outside);
    }
  }

  /** A cut at the start of a line loses no run and splits none. */
  lemma RunsCut(text: Word, b: nat, m: nat, e: nat)
    requires b <= m <= e <= |text| && LineStart(text, m) && (m == 0 ==> b == 0)
    ensures m < |text| ==> ChunkRuns(text, b, e) == ChunkRuns(text, b, m) + ChunkRuns(text, m, e)
  {
    RunsSplit(text, b, m, e, Outside);
    if b < m { NewlineCloses(text, b, m, Outside); }
  }

  // ---------------------------------------------------------------- records

  /** The caller's filter; `entropy` stands for the Shannon entropy of a slice. */
  datatype Filter = Filter(minLen: nat, maxEntropy: real, entropy: Word -> real)

  /** `offset` and the run length as a 32-bit field. */
  datatype Rec = Rec(offset: nat, len: nat)

  predicate Keeps(text: Word, f: Filter, r: Run)
    requires r.start <= r.end <= |text|
  {
    && r.end - r.start >= f.minLen
    && !(f.maxEntropy >= 0.0 && f.entropy(text[r.start..r.end]) > f.maxEntropy)
  }

  function Emit(text: Word, f: Filter, r: Run): seq<Rec> {
    if r.start <= r.end <= |text| && Keeps(text, f, r) then [Rec(r.start, (r.end - r.start) % U32)] else []
  }

  ghost function EmitAll(text: Word, f: Filter, runs: seq<Run>): seq<Rec> {
    if runs == [] then [] else Emit(text, f, runs[0]) + EmitAll(text, f, runs[1..])
  }

  lemma {:induction false} EmitAllConcat(text: Word, f: Filter, a: seq<Run>, b: seq<Run>)
    ensures EmitAll(text, f, a + b) == EmitAll(text, f, a) + EmitAll(text, f, b)
  {
    if a == [] {
      assert a + b == b;
    } else {
      assert (a + b)[1..] == a[1..] + b;
      EmitAllConcat(text, f, a[1..], b);
    }
  }

  lemma {:induction false} EmitAllMember(text: Word, f: Filter, runs: seq<Run>, x: Rec)
    ensures x in EmitAll(text, f, runs) <==> exists r | r in runs :: x in Emit(text, f, r)
  {
    if runs != [] {
      EmitAllMember(text, f, runs[1..], x);
      assert runs == [runs[0]] + runs[1..];
    }
  }

  ghost function Offset(): Rec -> int {
    (r: Rec) => r.offset
  }

  lemma {:induction false} EmitAllStrict(text: Word, f: Filter, runs: seq<Run>)
    requires Ascending(runs)
    requires forall r | r in runs :: r.start < r.end
    ensures StrictBy(Offset(), EmitAll(text, f, runs))
    ensures forall x | x in EmitAll(text, f, runs) :: runs != [] && x.offset >= runs[0].start
  {
    if runs != [] {
      var rest := runs[1..];
      EmitAllStrict(text, f, rest);
      assert rest != [] ==> rest[0] == runs[1] && runs[0].end < runs[1].start;
      var s := EmitAll(text, f, rest);
      assert forall i | 0 <= i < |s| :: s[i] in s;
    }
  }

  /** The result of a sequential pass over the whole file. */
  ghost function SequentialStrings(text: Word, f: Filter): seq<Rec> {
    EmitAll(text, f, AllRuns(text))
  }

  /** What passes the filter: at least the minimum length, and an entropy of at most the maximum, unless
      the maximum is negative. */
  lemma EmitIs(text: Word, f: Filter, r: Run, x: Rec)
    ensures x in Emit(text, f, r) <==>
              && r.start <= r.end <= |text| && r.end - r.start >= f.minLen
              && (f.maxEntropy < 0.0 || f.entropy(text[r.start..r.end]) <= f.maxEntropy)
              && x == Rec(r.start, (r.end - r.start) % U32)
  {
  }

  /** The records of any list of runs. */
  lemma EmitAllIs(text: Word, f: Filter, runs: seq<Run>, x: Rec)
    ensures x in EmitAll(text, f, runs) <==>
              exists r | r in runs ::
                && r.start <= r.end <= |text| && r.end - r.start >= f.minLen
                && (f.maxEntropy < 0.0 || f.entropy(text[r.start..r.end]) <= f.maxEntropy)
                && x == Rec(r.start, (r.end - r.start) % U32)
  {
    hide Emit, EmitAll;
    EmitAllMember(text, f, runs, x);
    forall r | r in runs { EmitIs(text, f, r, x); }
  }

  /** A larger minimum, a smaller maximum, or a maximum where there was none, only removes records. */
  lemma FilterMonotone(text: Word, f: Filter, g: Filter, runs: seq<Run>, x: Rec)
    requires f.minLen <= g.minLen && f.entropy == g.entropy
    requires f.maxEntropy < 0.0 || 0.0 <= g.maxEntropy <= f.maxEntropy
    requires x in EmitAll(text, g, runs)
    ensures x in EmitAll(text, f, runs)
  {
    hide EmitAll;
    EmitAllIs(text, f, runs, x);
    EmitAllIs(text, g, runs, x);
  }

  /** What the result means: one record for each maximal run that is long enough and, when a maximal
      entropy is given, of no higher entropy. */
  lemma SequentialStringsExact(text: Word, f: Filter, x: Rec)
    ensures x in SequentialStrings(text, f) <==>
              exists e: nat | e <= |text| ::
                && MaximalRun(text, Run(x.offset, e)) && x.len == (e - x.offset) % U32
                && e - x.offset >= f.minLen
                && (f.maxEntropy < 0.0 || f.entropy(text[x.offset..e]) <= f.maxEntropy)
  {
    hide EmitAll;
    EmitAllIs(text, f, AllRuns(text), x);
    forall r | r in AllRuns(text) ensures MaximalRun(text, r) { AllRunsExact(text, r); }
    forall e: nat | e <= |text| && MaximalRun(text, Run(x.offset, e)) ensures Run(x.offset, e) in AllRuns(text) {
      AllRunsExact(text, Run(x.offset, e));
    }
  }

  lemma SequentialStringsStrict(text: Word, f: Filter)
    ensures StrictBy(Offset(), SequentialStrings(text, f))
  {
    AllRunsAscend(text);
    forall r | r in AllRuns(text) ensures r.start < r.end { AllRunsExact(text, r); }
    EmitAllStrict(text, f, AllRuns(text));
  }

  // ---------------------------------------------------------------- the worker

  ghost function AsState(inString: bool, runStart: nat): RunState {
    if inString then Inside(runStart) else Outside
  }

  /** What is still to be reported for [k, e) from state `st`. */
  ghost function Rest(text: Word, f: Filter, k: nat, e: nat, st: RunState): seq<Rec>
    requires k <= e <= |text|
  {
    EmitAll(text, f, ClosedRuns(text, k, e, st) + FinalRun(text, e, EndState(text, k, e, st)))
  }

  lemma RestUnfold(text: Word, f: Filter, k: nat, e: nat, st: RunState)
    requires k < e <= |text|
    ensures Printable(text[k]) ==>
            Rest(text, f, k, e, st) == Rest(text, f, k + 1, e, if st.Outside? then Inside(k) else st)
    ensures !Printable(text[k]) && st.Outside? ==> Rest(text, f, k, e, st) == Rest(text, f, k + 1, e, Outside)
    ensures !Printable(text[k]) && st.Inside? ==>
              Rest(text, f, k, e, st) == Emit(text, f, Run(st.start, k)) + Rest(text, f, k + 1, e, Outside)
  {
    if !Printable(text[k]) {
      var closed, final := ClosedRuns(text, k + 1, e, Outside), FinalRun(text, e, EndState(text, k, e, st));
      if st.Outside? {
        assert [] + closed == closed;
      } else {
        assert ([Run(st.start, k)] + closed) + final == [Run(st.start, k)] + (closed + final);
      }
    }
  }

  /** One byte: `isPrintable` comes from a mask bit or from a scalar test. */
  method ScanOne(text: Word, f: Filter, k: nat, ghost e: nat, isPrintable: bool, inString: bool, runStart: nat,
        out0: seq<Rec>)
    returns (inString': bool, runStart': nat, out: seq<Rec>)
    requires k < e <= |text| && isPrintable == Printable(text[k])
    ensures out + Rest(text, f, k + 1, e, AsState(inString', runStart')) ==
            out0 + Rest(text, f, k, e, AsState(inString, runStart))
  {
    RestUnfold(text, f, k, e, AsState(inString, runStart));
    inString', runStart', out := inString, runStart, out0;
    if isPrintable {
      if !inString { inString', runStart' := true, k; }
    } else if inString {
      out := out0 + Emit(text, f, Run(runStart, k));
      inString' := false;
    }
  }

  /** The low `n` bits of `bits` are the classes of the bytes from `k` on. */
  ghost predicate BitsAhead(bits: bv64, text: Word, k: nat, n: nat)
    requires n <= 64 && k + n <= |text|
  {
    forall j: nat | j < n :: Bit(bits, j) <==> Printable(text[k + j])
  }

  lemma BitsAheadNext(bits: bv64, text: Word, k: nat, n: nat) returns (next: bv64)
    requires 0 < n <= 64 && k + n <= |text| && BitsAhead(bits, text, k, n)
    ensures bits & 1 == 1 <==> Printable(text[k])
    ensures next == bits >> 1 && BitsAhead(next, text, k + 1, n - 1)
  {
    hide Bit;
    LowBit(bits);
    assert Bit(bits, 0) <==> Printable(text[k + 0]);
    next := ShrBits(bits);
    forall j: nat | j < n - 1 ensures Bit(next, j) <==> Printable(text[k + 1 + j]) {
      assert Bit(next, j) <==> Printable(text[k + (j + 1)]);
    }
  }

  /** The 64 bits of one block mask, lowest first. */
  method ScanMask(text: Word, f: Filter, i: nat, ghost e: nat, mask: bv64, inString0: bool, runStart0: nat,
        out0: seq<Rec>)
    returns (inString: bool, runStart: nat, out: seq<Rec>)
    requires i + 64 <= e <= |text| && BitsAhead(mask, text, i, 64)
    ensures out + Rest(text, f, i + 64, e, AsState(inString, runStart)) ==
            out0 + Rest(text, f, i, e, AsState(inString0, runStart0))
  {
    hide BitsAhead, Rest, AsState;
    inString, runStart, out := inString0, runStart0, out0;
    var bits := mask;
    for b := 0 to 64
      invariant BitsAhead(bits, text, i + b, 64 - b)
      invariant out + Rest(text, f, i + b, e, AsState(inString, runStart)) ==
                out0 + Rest(text, f, i, e, AsState(inString0, runStart0))
    {
      ghost var next := BitsAheadNext(bits, text, i + b, 64 - b);
      inString, runStart, out := ScanOne(text, f, i + b, e, bits & 1 == 1, inString, runStart, out);
      bits := bits >> 1;
    }
  }

  lemma MaskAhead(mask: bv64, text: Word, i: nat)
    requires i + 64 <= |text| && IsMask(mask, Lanes(PrintableByte, text[i..i + 64]))
    ensures BitsAhead(mask, text, i, 64)
  {
    hide Bit;
    var lanes := Lanes(PrintableByte, text[i..i + 64]);
    forall j: nat | j < 64 ensures Bit(mask, j) <==> Printable(text[i + j]) {
      assert lanes[j] == Printable(text[i..i + 64][j]);
    }
  }

  /** One chunk: blocks through the mask, the tail byte by byte, and the run open at the end. */
  method ScanChunk(text: Word, b: nat, e: nat, f: Filter, isa: Isa, out0: seq<Rec>) returns (out: seq<Rec>)
    requires b <= e <= |text|
    ensures out == out0 + EmitAll(text, f, ChunkRuns(text, b, e))
  {
    hide BitsAhead, IsMask, MoveMask, Rest, ChunkRuns;
    RestAll(text, f, b, e);
    var inString, runStart := false, 0;
    var i := b;
    out := out0;
    ghost var goal := out0 + Rest(text, f, b, e, Outside);
    while i + 64 <= e
      invariant b <= i <= e
      invariant out + Rest(text, f, i, e, AsState(inString, runStart)) == goal
    {
      var m := Mask64(PrintableByte, text[i..i + 64], isa);
      MaskAhead(m, text, i);
      inString, runStart, out := ScanMask(text, f, i, e, m, inString, runStart, out);
      i := i + 64;
    }
    while i < e
      invariant b <= i <= e
      invariant out + Rest(text, f, i, e, AsState(inString, runStart)) == goal
    {
      var c := text[i];
      inString, runStart, out := ScanOne(text, f, i, e, c >= 0x20 && c <= 0x7E, inString, runStart, out);
      i := i + 1;
    }
    RestEnd(text, f, e, AsState(inString, runStart));
    if inString && e == |text| {
      out := out + Emit(text, f, Run(runStart, e));
    }
  }

  lemma RestAll(text: Word, f: Filter, b: nat, e: nat)
    requires b <= e <= |text|
    ensures Rest(text, f, b, e, Outside) == EmitAll(text, f, ChunkRuns(text, b, e))
  {
  }

  lemma RestEnd(text: Word, f: Filter, e: nat, st: RunState)
    requires e <= |text|
    ensures Rest(text, f, e, e, st) == if st.Inside? && e == |text| then Emit(text, f, Run(st.start, e)) else []
  {
    if st.Inside? && e == |text| {
      var r := Run(st.start, e);
      assert EmitAll(text, f, [r]) == Emit(text, f, r) + EmitAll(text, f, []);
      assert [] + [r] == [r];
    }
  }

  // ---------------------------------------------------------------- the pipeline

  /** The records of one chunk. */
  ghost function ChunkRecs(text: Word, f: Filter): (nat, nat) -> seq<Rec> {
    (b: nat, e: nat) => if b <= e <= |text| then EmitAll(text, f, ChunkRuns(text, b, e)) else []
  }

  lemma ChunkRecsCut(text: Word, f: Filter)
    ensures EmptyChunks(text, ChunkRecs(text, f)) && CutsAtLines(text, ChunkRecs(text, f))
  {
    var chunk := ChunkRecs(text, f);
    forall b: nat, m: nat | b <= m <= |text| && LineStart(text, m) && (b < m || m == 0)
      ensures chunk(b, |text|) == chunk(b, m) + chunk(m, |text|)
    {
      RunsCut(text, b, m, |text|);
      EmitAllConcat(text, f, ChunkRuns(text, b, m), ChunkRuns(text, m, |text|));
    }
  }

  /** A worker: the records of the chunks it was handed, whatever the other workers took. */
  method StringsWorker(alloc: Allocator, f: Filter) returns (out: seq<Rec>, ghost mine: seq<nat>)
    requires alloc.chunkSize > 0
    modifies alloc`next
    ensures OwnOffsets(alloc.chunkSize, old(alloc.next), mine) && mine != [] && mine[|mine| - 1] >= |alloc.text|
    ensures out == Works(ChunkJob(alloc.text, alloc.chunkSize, alloc.lookahead, ChunkRecs(alloc.text, f)), mine)
  {
    hide ChunkRuns, EmitAll, FindByte, LeftEdge, RightEdge, Works, EmptyChunks, CutsAtLines;
    out, mine := [], [];
    ghost var text, C, L, chunk := alloc.text, alloc.chunkSize, alloc.lookahead, ChunkRecs(alloc.text, f);
    ghost var job := ChunkJob(text, C, L, chunk);
    ChunkRecsCut(text, f);
    WorksNothing(job);
    while true
      invariant old(alloc.next) <= alloc.next && alloc.next % C == old(alloc.next) % C
      invariant OwnOffsets(C, old(alloc.next), mine) && forall i | 0 <= i < |mine| :: mine[i] + C <= alloc.next
      invariant out == Works(job, mine)
      decreases |text| - alloc.next
    {
      ghost var from := alloc.next;
      var ok, begin, end, taken := alloc.GetNext();
      OwnAppend(C, old(alloc.next), mine, from, taken);
      NextWork(text, C, L, chunk, mine, taken);
      mine := mine + taken;
      if !ok { break; }
      out := ScanChunk(alloc.text, begin, end, f, alloc.isa, out);
    }
  }

  /** Any number of workers, any interleaving: on a line-safe file the sorted merge is the
      sequential result. */
  lemma StringsPipeline(text: Word, C: nat, L: nat, f: Filter, n: nat, sched: seq<nat>, sorted: seq<Rec>)
    requires C > 0 && LineSafe(text, C, L) && n > 0
    requires AllDone(Schedule.Run(ChunkJob(text, C, L, ChunkRecs(text, f)), n, sched))
    requires SortOf(Offset(), Merged(Schedule.Run(ChunkJob(text, C, L, ChunkRecs(text, f)), n, sched).workers), sorted)
    ensures sorted == SequentialStrings(text, f)
  {
    ChunkRecsCut(text, f);
    MergeComplete(text, C, L, ChunkRecs(text, f), n, sched);
    SequentialStringsStrict(text, f);
    SortUnique(Offset(), SequentialStrings(text, f), sorted);
  }

  // ---------------------------------------------------------------- any file

  lemma ChunkRecsKeys(text: Word, f: Filter)
    ensures KeysInside(text, ChunkRecs(text, f), Offset())
    ensures forall b: nat, e: nat | b <= e <= |text| :: StrictBy(Offset(), ChunkRecs(text, f)(b, e))
  {
    hide ChunkRuns, EmitAll, StrictBy, Ascending;
    forall b: nat, e: nat | b <= e <= |text|
      ensures StrictBy(Offset(), ChunkRecs(text, f)(b, e))
      ensures forall x | x in ChunkRecs(text, f)(b, e) :: b <= x.offset < e
    {
      ChunkRunsAscend(text, b, e);
      EmitAllStrict(text, f, ChunkRuns(text, b, e));
      forall x | x in ChunkRecs(text, f)(b, e) ensures b <= x.offset < e {
        EmitAllMember(text, f, ChunkRuns(text, b, e), x);
        var r :| r in ChunkRuns(text, b, e) && x in Emit(text, f, r);
      }
    }
  }

  /** Any file, any number of workers, any interleaving: the sorted merge is the records of the
      chunks in file order, so it does not depend on the schedule. */
  lemma StringsAnyFile(text: Word, C: nat, L: nat, f: Filter, n: nat, sched: seq<nat>, sorted: seq<Rec>)
    requires C > 0 && L <= C && n > 0
    requires AllDone(Schedule.Run(ChunkJob(text, C, L, ChunkRecs(text, f)), n, sched))
    requires SortOf(Offset(), Merged(Schedule.Run(ChunkJob(text, C, L, ChunkRecs(text, f)), n, sched).workers), sorted)
    ensures sorted == OnePass(text, C, L, ChunkRecs(text, f), 0)
  {
    ChunkRecsKeys(text, f);
    SortedIsPass(text, C, L, ChunkRecs(text, f), Offset(), n, sched, sorted);
  }

  /** Two runs with the same start that cannot be extended to the right are the same. */
  lemma SameRun(text: Word, b: nat, r: Run, t: Run)
    requires RunFrom(text, b, r) && RunFrom(text, b, t) && r.start == t.start
    ensures r == t
  {
  }

  /** On any file, a maximal run is reported exactly when it is long enough and of no higher entropy than
      allowed, and some chunk begins no later and goes on beyond its end, or ends with it at the end of
      the file. */
  lemma RunReported(text: Word, C: nat, L: nat, f: Filter, r: Run)
    requires C > 0 && MaximalRun(text, r)
    ensures Rec(r.start, (r.end - r.start) % U32) in OnePass(text, C, L, ChunkRecs(text, f), 0) <==>
              && r.end - r.start >= f.minLen
              && (f.maxEntropy < 0.0 || f.entropy(text[r.start..r.end]) <= f.maxEntropy)
              && exists s: nat | Nominal(C, |text|, s) ::
                   && LeftEdge(text, C, s) <= r.start
                   && (r.end < RightEdge(text, C, L, s) || r.end == RightEdge(text, C, L, s) == |text|)
  {
    hide LeftEdge, RightEdge, EmitAll, ChunkRuns, Emit, ChunkRecs;
    var x := Rec(r.start, (r.end - r.start) % U32);
    PassMember(text, C, L, ChunkRecs(text, f), 0, x);
    forall s: nat | Nominal(C, |text|, s)
      ensures x in ChunkRecs(text, f)(LeftEdge(text, C, s), RightEdge(text, C, L, s)) <==>
                && r.end - r.start >= f.minLen
                && (f.maxEntropy < 0.0 || f.entropy(text[r.start..r.end]) <= f.maxEntropy)
                && LeftEdge(text, C, s) <= r.start
                && (r.end < RightEdge(text, C, L, s) || r.end == RightEdge(text, C, L, s) == |text|)
    {
      EdgesOrdered(text, C, L, s);
      ReportedByChunk(text, f, LeftEdge(text, C, s), RightEdge(text, C, L, s), r);
    }
  }

  lemma ReportedByChunk(text: Word, f: Filter, b: nat, e: nat, r: Run)
    requires b <= e <= |text| && MaximalRun(text, r)
    ensures Rec(r.start, (r.end - r.start) % U32) in ChunkRecs(text, f)(b, e) <==>
              && r.end - r.start >= f.minLen
              && (f.maxEntropy < 0.0 || f.entropy(text[r.start..r.end]) <= f.maxEntropy)
              && b <= r.start && (r.end < e || r.end == e == |text|)
  {
    hide EmitAll, ChunkRuns, Emit;
    var x := Rec(r.start, (r.end - r.start) % U32);
    EmitAllMember(text, f, ChunkRuns(text, b, e), x);
    ChunkRunsExact(text, b, e, r);
    EmitIs(text, f, r, x);
    if t :| t in ChunkRuns(text, b, e) && x in Emit(text, f, t) {
      EmitIs(text, f, t, x);
      ChunkRunsExact(text, b, e, t);
      SameRun(text, b, r, t);
    }
  }

  /** Whatever else is reported is what is left of a run that a chunk edge cut. */
  lemma CutRun(text: Word, f: Filter, b: nat, e: nat, x: Rec)
    requires b <= e <= |text| && x in ChunkRecs(text, f)(b, e)
    ensures exists r :: RunFrom(text, b, r) && x == Rec(r.start, (r.end - r.start) % U32) &&
                        (MaximalRun(text, r) <==> r.start > b || b == 0 || !Printable(text[b - 1]))
  {
    hide EmitAll, ChunkRuns, Emit;
    EmitAllMember(text, f, ChunkRuns(text, b, e), x);
    var r :| r in ChunkRuns(text, b, e) && x in Emit(text, f, r);
    EmitIs(text, f, r, x);
    ChunkRunsExact(text, b, e, r);
  }
}
