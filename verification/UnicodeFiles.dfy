/** g-unicode on whole files: the contents on which it is the scalar scan of its chunks, and the size
    from which a file can have odd, overlapping or missing records. */
module UnicodeFiles {
  import opened Arith
  import opened Bytes
  import opened ChunkAllocator
  import opened Schedule
  import opened Pipeline
  import opened Strings
  import opened Unicode

  /** The runs that are found in the chunk of the nominal offset `s`. */
  ghost function Handed(text: Word, C: nat, L: nat, s: nat): seq<Strings.Run>
    requires C > 0 && s < |text|
  {
    EdgesOrdered(text, C, L, s);
    CodedChunk(text, LeftEdge(text, C, s), RightEdge(text, C, L, s))
  }

  // ---------------------------------------------------------------- the contents on which the scans agree

  /** All even positions of the stretch start a character. */
  ghost predicate EvenPairsFrom(text: Word, i: nat, q: nat)
    requires i < q ==> q < |text|
  {
    forall p | i <= p < q && p % 2 == 0 :: PairAt(text, p)
  }

  /** No character lies across the start of the tail. Or the chunk ends before the file, and neither
      scan reports the character that does: the only pair of the tail continues it; or it begins with
      the last byte before the tail, and its lane goes on to the end of the chunk. */
  ghost predicate TailClean(text: Word, b: nat, e: nat)
    requires b <= e <= |text| && !Aligned(b, e)
  {
    UnalignedTail(b, e);
    var m := TailStart(b, e);
    || (!PairAt(text, m - 2) && !PairAt(text, m - 1))
    || (m + 2 == e < |text| && PairAt(text, m - 2) && PairAt(text, m))
    || (e < |text| && !PairAt(text, m - 3) && PairAt(text, m - 1) && EvenPairsFrom(text, m, e - 1))
  }

  ghost predicate Clean(text: Word, b: nat, e: nat)
    requires b <= e <= |text|
  {
    Aligned(b, e) || TailClean(text, b, e)
  }

  /** An open lane has just passed a character; it began there unless another came before. */
  lemma LaneMeans(text: Word, b: nat, i: nat, d: nat, st: RunState)
    requires 0 < d && b + d + 2 <= i < |text| && LaneAt(text, b, i, d, st)
    ensures st.Inside? <==> PairAt(text, i - d)
    ensures st.Inside? ==> b <= st.start <= i - d && st.start % 2 == (i - d) % 2
    ensures st.Inside? ==> (st.start == i - d <==> !PairAt(text, i - d - 2))
  {
    hide PairAt;
    if st.Inside? {
      assert (i - d - st.start) % 2 == 0 && (i - d - 2 - st.start) % 2 == 0;
      assert PairAt(text, i - d) && (st.start != i - d ==> PairAt(text, i - d - 2));
    }
  }

  /** The lanes at the start of the tail: the one that `m` continues, and the other. */
  lemma LanesAtTail(text: Word, b: nat, e: nat) returns (cur: RunState, oth: RunState)
    requires b <= e <= |text| && !Aligned(b, e)
    ensures var m := TailStart(b, e);
            && b + 64 <= m && m + 1 < e && m % 2 == 1
            && (cur, oth) == PairEnd(text, b, m, Outside, Outside)
            && (cur.Inside? <==> PairAt(text, m - 2)) && (oth.Inside? <==> PairAt(text, m - 1))
            && (cur.Inside? ==> b <= cur.start < m && cur.start % 2 == 1)
            && (oth.Inside? ==> b <= oth.start < m && oth.start % 2 == 0)
            && (oth.Inside? ==> (oth.start == m - 1 <==> !PairAt(text, m - 3)))
            && (cur.Outside? || oth.Outside?)
  {
    hide PairAt, PairEnd, LaneAt, TailStart, Aligned;
    UnalignedTail(b, e);
    var m := TailStart(b, e);
    LanesStart(text, b, m);
    LanesEnd(text, b, b, m, Outside, Outside);
    var z := PairEnd(text, b, m, Outside, Outside);
    cur, oth := z.0, z.1;
    LaneMeans(text, b, m, 2, cur);
    LaneMeans(text, b, m, 1, oth);
  }

  /** The chunk with the tail scanned from the given lanes. */
  ghost function WithTail(text: Word, b: nat, e: nat, even: RunState, odd: RunState): seq<Strings.Run>
    requires b <= e <= |text|
  {
    var m, q := TailStart(b, e), LastPair(b, e);
    var (even', odd') := ScalarEnd(text, m, q, even, odd);
    PairRuns(text, b, m, Outside, Outside) + ScalarRuns(text, m, q, even, odd) + OpenRuns(text, e, even', odd')
  }

  /** The two scans of an unaligned chunk differ in nothing but which lane the tail takes for which. */
  lemma LanesExchanged(text: Word, b: nat, e: nat, cur: RunState, oth: RunState)
    requires b <= e <= |text| && !Aligned(b, e)
    requires (cur, oth) == PairEnd(text, b, TailStart(b, e), Outside, Outside)
    ensures CodedChunk(text, b, e) == WithTail(text, b, e, cur, oth)
    ensures ScalarChunk(text, b, e) == WithTail(text, b, e, oth, cur)
  {
    hide PairRuns, PairEnd, ScalarRuns, ScalarEnd, OpenRuns;
    UnalignedTail(b, e);
    var m, q := TailStart(b, e), LastPair(b, e);
    ScalarIsPairs(text, b, q, Outside, Outside);
    PairsSplit(text, b, m, q, Outside, Outside);
    ScalarIsPairs(text, m, q, oth, cur);
  }

  /** The first pair of an unaligned tail belongs to the lane of odd starts. */
  lemma TailFirst(text: Word, m: nat, q: nat, even: RunState, odd: RunState)
    requires m % 2 == 1 && m < q < |text|
    ensures ScalarRuns(text, m, q, even, odd) ==
            Closes(text, m, odd) + ScalarRuns(text, m + 1, q, even, Advance(text, m, odd))
    ensures ScalarEnd(text, m, q, even, odd) == ScalarEnd(text, m + 1, q, even, Advance(text, m, odd))
  {
  }

  lemma TailSecond(text: Word, i: nat, q: nat, even: RunState, odd: RunState)
    requires i % 2 == 0 && i < q < |text|
    ensures ScalarRuns(text, i, q, even, odd) ==
            Closes(text, i, even) + ScalarRuns(text, i + 1, q, Advance(text, i, even), odd)
  {
  }

  /** A tail of one pair that closes no lane, in a chunk that ends before the file, reports nothing. */
  lemma OnePairSilent(text: Word, b: nat, e: nat, even: RunState, odd: RunState)
    requires b <= e < |text| && !Aligned(b, e) && TailStart(b, e) + 2 == e && PairAt(text, TailStart(b, e))
    ensures WithTail(text, b, e, even, odd) == PairRuns(text, b, TailStart(b, e), Outside, Outside)
  {
    UnalignedTail(b, e);
    var m := TailStart(b, e);
    hide PairRuns, PairAt;
    TailFirst(text, m, m + 1, even, odd);
    assert ScalarRuns(text, m, m + 1, even, odd) == [] + [];
    var head := PairRuns(text, b, m, Outside, Outside);
    assert head + [] + [] == head;
  }

  /** A lane that goes on to the end of the stretch is not reported, and the other lane never opens. */
  lemma {:induction false} NoneClosed(text: Word, i: nat, q: nat, even: RunState)
    requires i <= q && (i < q ==> q < |text|) && EvenPairsFrom(text, i, q)
    requires i % 2 == 1 && i < q ==> !PairAt(text, i)
    ensures ScalarRuns(text, i, q, even, Outside) == []
    decreases q - i
  {
    if i < q {
      var even' := if i % 2 == 0 then Advance(text, i, even) else even;
      NoneClosed(text, i + 1, q, even');
    }
  }

  /** The lane of even starts opens just before the tail and goes on to the end of a chunk that ends
      before the file: the coded scan closes it after one byte, the scalar scan never. */
  lemma LastByteOpens(text: Word, b: nat, e: nat)
    requires b <= e < |text| && !Aligned(b, e) && PairAt(text, TailStart(b, e) - 1)
    requires EvenPairsFrom(text, TailStart(b, e), e - 1)
    ensures var m := TailStart(b, e);
            && WithTail(text, b, e, Inside(m - 1), Outside) == PairRuns(text, b, m, Outside, Outside)
            && WithTail(text, b, e, Outside, Inside(m - 1)) ==
               PairRuns(text, b, m, Outside, Outside) + [Strings.Run(m - 1, m)]
  {
    hide PairAt, PairRuns, ScalarRuns, ScalarEnd, WithTail, TailStart, LastPair, Aligned, Closes, Advance,
      EvenPairsFrom;
    UnalignedTail(b, e);
    var m, q := TailStart(b, e), LastPair(b, e);
    OpensOne(text, m - 1);
    ClosesOne(text, m, m - 1);
    EvenPairsAfter(text, m, q);
    NoneClosed(text, m, q, Inside(m - 1));
    NoneClosed(text, m + 1, q, Outside);
    TailFirst(text, m, q, Outside, Inside(m - 1));
    WithoutOpen(text, b, e, Inside(m - 1), Outside);
    WithoutOpen(text, b, e, Outside, Inside(m - 1));
  }

  lemma EvenPairsAfter(text: Word, m: nat, q: nat)
    requires m < q < |text| && EvenPairsFrom(text, m, q)
    ensures EvenPairsFrom(text, m + 1, q)
  {
  }

  /** A chunk that ends before the file reports no open lane. */
  lemma WithoutOpen(text: Word, b: nat, e: nat, even: RunState, odd: RunState)
    requires b <= e < |text|
    ensures WithTail(text, b, e, even, odd) ==
            PairRuns(text, b, TailStart(b, e), Outside, Outside) +
            ScalarRuns(text, TailStart(b, e), LastPair(b, e), even, odd)
  {
    hide PairRuns, ScalarRuns, ScalarEnd;
    var z := ScalarEnd(text, TailStart(b, e), LastPair(b, e), even, odd);
    assert OpenRuns(text, e, z.0, z.1) == [];
  }

  /** On clean contents the scans give the same records, since the tool drops runs of one byte. */
  lemma CleanAgrees(text: Word, f: Filter, b: nat, e: nat)
    requires b <= e <= |text| && Clean(text, b, e) && f.minLen >= 1
    ensures EmitAll(text, ByteFilter(f), CodedChunk(text, b, e)) ==
            EmitAll(text, ByteFilter(f), ScalarChunk(text, b, e))
  {
    hide PairAt, PairRuns, PairEnd, CodedChunk, ScalarChunk, WithTail, EmitAll, EvenPairsFrom;
    if Aligned(b, e) {
      AlignedIsScalar(text, b, e);
    } else {
      var m := TailStart(b, e);
      var cur, oth := LanesAtTail(text, b, e);
      LanesExchanged(text, b, e, cur, oth);
      if cur.Inside? {
        OnePairSilent(text, b, e, cur, oth);
        OnePairSilent(text, b, e, oth, cur);
      } else if oth.Inside? {
        LastByteOpens(text, b, e);
        EmitAllConcat(text, ByteFilter(f), PairRuns(text, b, m, Outside, Outside), [Strings.Run(m - 1, m)]);
        EmitOne(text, ByteFilter(f), Strings.Run(m - 1, m));
      }
    }
  }

  /** A run that only one of the scans reports with this start and end; what the other reports from the
      same start ends less than 2^32 bytes away. */
  ghost predicate Distinguishes(r: Strings.Run, runs: seq<Strings.Run>, others: seq<Strings.Run>) {
    && r in runs && r.start + 2 <= r.end
    && forall t | t in others && t.start == r.start :: t.end != r.end && r.end - U32 < t.end < r.end + U32
  }

  /** What the tail reports of a start known before it ends in the tail, or with the file. */
  lemma TailEnds(text: Word, b: nat, e: nat, even: RunState, odd: RunState, r: Strings.Run)
    requires b <= e <= |text| && !Aligned(b, e) && r in WithTail(text, b, e, even, odd)
    requires var (cur, oth) := PairEnd(text, b, TailStart(b, e), Outside, Outside);
             && KnownStart(TailStart(b, e), cur, oth, r.start)
             && ((even, odd) == (cur, oth) || (even, odd) == (oth, cur))
    ensures var m, q := TailStart(b, e), LastPair(b, e);
            && m <= r.end <= e <= m + 64
            && (r in ScalarRuns(text, m, q, even, odd) ||
                (var z := ScalarEnd(text, m, q, even, odd); r in OpenRuns(text, e, z.0, z.1) && r.end == e))
  {
    hide PairRuns, PairEnd, ScalarRuns, ScalarEnd;
    UnalignedTail(b, e);
    var m, q := TailStart(b, e), LastPair(b, e);
    PairStarts(text, b, b, m, Outside, Outside);
    if r in ScalarRuns(text, m, q, even, odd) { ScalarEnds(text, m, q, even, odd, r); }
  }

  /** What the tail reports first. */
  lemma TailReports(text: Word, b: nat, e: nat, even: RunState, odd: RunState, r: Strings.Run)
    requires b <= e <= |text| && r in ScalarRuns(text, TailStart(b, e), LastPair(b, e), even, odd)
    ensures r in WithTail(text, b, e, even, odd)
  {
    hide PairRuns, ScalarRuns, ScalarEnd, OpenRuns;
  }

  lemma ClosesOne(text: Word, p: nat, s: nat)
    requires p + 1 < |text| && !PairAt(text, p)
    ensures Closes(text, p, Inside(s)) == [Strings.Run(s, p)] && Closes(text, p, Outside) == []
    ensures Advance(text, p, Inside(s)) == Outside && Advance(text, p, Outside) == Outside
  {
  }

  lemma OpensOne(text: Word, p: nat)
    requires p + 1 < |text| && PairAt(text, p)
    ensures Closes(text, p, Outside) == [] && Advance(text, p, Outside) == Inside(p)
    ensures p + 2 < |text| ==> !PairAt(text, p + 1)
  {
  }

  /** The lane of even starts reaches the tail: the coded scan closes it at once, one byte too early. */
  lemma ClosedEarly(text: Word, b: nat, e: nat, s: nat)
    requires b <= e <= |text| && !Aligned(b, e)
    requires PairEnd(text, b, TailStart(b, e), Outside, Outside) == (Outside, Inside(s))
    requires s < TailStart(b, e) - 1 && s % 2 == 0 && PairAt(text, TailStart(b, e) - 1)
    ensures Distinguishes(Strings.Run(s, TailStart(b, e)), CodedChunk(text, b, e), ScalarChunk(text, b, e))
  {
    hide PairRuns, PairEnd, PairAt, ScalarRuns, ScalarEnd, CodedChunk, ScalarChunk, WithTail, Closes, Advance, OpenRuns,
      TailStart, LastPair, Aligned;
    UnalignedTail(b, e);
    var m, q := TailStart(b, e), LastPair(b, e);
    OpensOne(text, m - 1);
    LanesExchanged(text, b, e, Outside, Inside(s));
    TailFirst(text, m, q, Outside, Inside(s));
    ClosesOne(text, m, s);
    TailReports(text, b, e, Outside, Inside(s), Strings.Run(s, m));
    forall r | r in ScalarChunk(text, b, e) && r.start == s ensures m < r.end <= m + 64 {
      TailEnds(text, b, e, Inside(s), Outside, r);
      LengthsEven(text, b, e, r);
    }
  }

  /** The lane of odd starts ends with the blocks: the coded scan does not close it there. */
  lemma ClosedLate(text: Word, b: nat, e: nat, s: nat)
    requires b <= e <= |text| && !Aligned(b, e)
    requires PairEnd(text, b, TailStart(b, e), Outside, Outside) == (Inside(s), Outside)
    requires s < TailStart(b, e) && s % 2 == 1 && !PairAt(text, TailStart(b, e))
    ensures Distinguishes(Strings.Run(s, TailStart(b, e)), ScalarChunk(text, b, e), CodedChunk(text, b, e))
  {
    hide PairRuns, PairEnd, PairAt, ScalarRuns, ScalarEnd, CodedChunk, ScalarChunk, WithTail, Closes, Advance, OpenRuns,
      TailStart, LastPair, Aligned;
    UnalignedTail(b, e);
    var m, q := TailStart(b, e), LastPair(b, e);
    LanesExchanged(text, b, e, Inside(s), Outside);
    ClosesOne(text, m, s);
    TailFirst(text, m, q, Outside, Inside(s));
    TailReports(text, b, e, Outside, Inside(s), Strings.Run(s, m));
    TailFirst(text, m, q, Inside(s), Outside);
    forall r | r in CodedChunk(text, b, e) && r.start == s ensures m < r.end <= m + 64 {
      TailEnds(text, b, e, Inside(s), Outside, r);
      if r in ScalarRuns(text, m, q, Inside(s), Outside) {
        ScalarEnds(text, m + 1, q, Inside(s), Outside, r);
      }
    }
  }

  /** The lane of odd starts goes on into the tail: the coded scan closes it at the next even start. */
  lemma ClosedByOther(text: Word, b: nat, e: nat, s: nat)
    requires b <= e <= |text| && !Aligned(b, e)
    requires PairEnd(text, b, TailStart(b, e), Outside, Outside) == (Inside(s), Outside)
    requires s < TailStart(b, e) && s % 2 == 1 && TailStart(b, e) + 2 < e && PairAt(text, TailStart(b, e))
    ensures Distinguishes(Strings.Run(s, TailStart(b, e) + 1), CodedChunk(text, b, e), ScalarChunk(text, b, e))
  {
    hide PairRuns, PairEnd, PairAt, ScalarRuns, ScalarEnd, CodedChunk, ScalarChunk, WithTail, Closes, Advance, OpenRuns,
      TailStart, LastPair, Aligned;
    UnalignedTail(b, e);
    var m, q := TailStart(b, e), LastPair(b, e);
    OpensOne(text, m);
    LanesExchanged(text, b, e, Inside(s), Outside);
    TailFirst(text, m, q, Inside(s), Outside);
    TailSecond(text, m + 1, q, Inside(s), Inside(m));
    ClosesOne(text, m + 1, s);
    TailReports(text, b, e, Inside(s), Outside, Strings.Run(s, m + 1));
    forall r | r in ScalarChunk(text, b, e) && r.start == s ensures m <= r.end <= m + 64 && r.end != m + 1 {
      TailEnds(text, b, e, Outside, Inside(s), r);
      LengthsEven(text, b, e, r);
    }
  }

  /** The same at the end of the file: the coded scan has a second open lane. */
  lemma OpenTwice(text: Word, b: nat, e: nat, s: nat)
    requires b <= e == |text| && !Aligned(b, e)
    requires PairEnd(text, b, TailStart(b, e), Outside, Outside) == (Inside(s), Outside)
    requires s < TailStart(b, e) && TailStart(b, e) + 2 == e && PairAt(text, TailStart(b, e))
    ensures Distinguishes(Strings.Run(TailStart(b, e), e), CodedChunk(text, b, e), ScalarChunk(text, b, e))
  {
    UnalignedTail(b, e);
    var m, q := TailStart(b, e), LastPair(b, e);
    hide PairRuns, PairEnd, PairAt, CodedChunk, ScalarChunk;
    LanesExchanged(text, b, e, Inside(s), Outside);
    OnePairTail(text, m, Inside(s));
    TailFirst(text, m, q, Outside, Inside(s));
    hide ScalarRuns, ScalarEnd;
    forall r | r in ScalarChunk(text, b, e) ensures r.start != m {
      if r.start == m { TailEnds(text, b, e, Outside, Inside(s), r); }
    }
  }

  /** From an open lane of even starts: its end, or it stays open. */
  lemma {:induction false} EvenLane(text: Word, i: nat, q: nat, s: nat, odd: RunState) returns (p: nat)
    requires i <= q && (i < q ==> q < |text|)
    ensures i <= p <= q
    ensures p < q ==> Strings.Run(s, p) in ScalarRuns(text, i, q, Inside(s), odd)
    ensures p == q ==> EvenPairsFrom(text, i, q) && ScalarEnd(text, i, q, Inside(s), odd).0 == Inside(s)
    decreases q - i
  {
    hide PairAt;
    p := i;
    if i < q && (i % 2 == 1 || PairAt(text, i)) {
      p := EvenLane(text, i + 1, q, s, if i % 2 == 1 then Advance(text, i, odd) else odd);
    }
  }

  /** The lane of even starts opens just before the tail, and the scalar scan reports it. */
  lemma ClosedShort(text: Word, b: nat, e: nat) returns (r: Strings.Run)
    requires b <= e <= |text| && !Aligned(b, e)
    requires PairEnd(text, b, TailStart(b, e), Outside, Outside) == (Outside, Inside(TailStart(b, e) - 1))
    requires TailStart(b, e) % 2 == 1 && PairAt(text, TailStart(b, e) - 1)
    requires e == |text| || !EvenPairsFrom(text, TailStart(b, e), e - 1)
    ensures Distinguishes(r, ScalarChunk(text, b, e), CodedChunk(text, b, e))
  {
    hide PairRuns, PairEnd, PairAt, ScalarRuns, ScalarEnd, CodedChunk, ScalarChunk, WithTail, Closes, Advance,
      TailStart, LastPair, Aligned, EvenPairsFrom;
    UnalignedTail(b, e);
    var m, q := TailStart(b, e), LastPair(b, e);
    OpensOne(text, m - 1);
    LanesExchanged(text, b, e, Outside, Inside(m - 1));
    ClosesOne(text, m, m - 1);
    TailFirst(text, m, q, Inside(m - 1), Outside);
    TailFirst(text, m, q, Outside, Inside(m - 1));
    var p := EvenLane(text, m + 1, q, m - 1, Outside);
    r := Strings.Run(m - 1, if p < q then p else e);
    if p < q {
      TailReports(text, b, e, Inside(m - 1), Outside, r);
    } else {
      EvenPairsLater(text, m, q);
      OpenReports(text, b, e, Inside(m - 1), Outside, r);
    }
    TailReports(text, b, e, Outside, Inside(m - 1), Strings.Run(m - 1, m));
    CodedStarts(text, b, e);
    OneStartOnly(CodedChunk(text, b, e), Strings.Run(m - 1, m));
  }

  lemma EvenPairsLater(text: Word, m: nat, q: nat)
    requires m % 2 == 1 && m < q < |text| && EvenPairsFrom(text, m + 1, q)
    ensures EvenPairsFrom(text, m, q)
  {
  }

  lemma OneStartOnly(runs: seq<Strings.Run>, r: Strings.Run)
    requires DistinctStarts(runs) && r in runs
    ensures forall t | t in runs && t.start == r.start :: t == r
  {
  }

  lemma OpenReports(text: Word, b: nat, e: nat, even: RunState, odd: RunState, r: Strings.Run)
    requires b <= e <= |text| && !Aligned(b, e)
    requires var z := ScalarEnd(text, TailStart(b, e), LastPair(b, e), even, odd); r in OpenRuns(text, e, z.0, z.1)
    ensures r in WithTail(text, b, e, even, odd)
  {
    hide PairRuns, ScalarRuns, ScalarEnd, OpenRuns;
  }

  /** On any other content the scans differ. */
  lemma UncleanDiffers(text: Word, b: nat, e: nat) returns (r: Strings.Run, coded: bool)
    requires b <= e <= |text| && !Clean(text, b, e)
    ensures if coded then Distinguishes(r, CodedChunk(text, b, e), ScalarChunk(text, b, e))
            else Distinguishes(r, ScalarChunk(text, b, e), CodedChunk(text, b, e))
  {
    hide PairRuns, PairEnd, PairAt, ScalarRuns, ScalarEnd, CodedChunk, ScalarChunk, WithTail, Distinguishes,
      EvenPairsFrom;
    var m := TailStart(b, e);
    var cur, oth := LanesAtTail(text, b, e);
    LanesExchanged(text, b, e, cur, oth);
    if oth.Inside? && oth.start == m - 1 {
      coded := false;
      r := ClosedShort(text, b, e);
    } else if oth.Inside? {
      r, coded := Strings.Run(oth.start, m), true;
      ClosedEarly(text, b, e, oth.start);
    } else if !PairAt(text, m) {
      r, coded := Strings.Run(cur.start, m), false;
      ClosedLate(text, b, e, cur.start);
    } else if m + 2 < e {
      r, coded := Strings.Run(cur.start, m + 1), true;
      ClosedByOther(text, b, e, cur.start);
    } else {
      r, coded := Strings.Run(m, e), true;
      OpenTwice(text, b, e, cur.start);
    }
  }

  // ---------------------------------------------------------------- runs and records

  /** The most permissive filter that the tool accepts: every run of a character or more passes. */
  predicate Permissive(f: Filter) {
    f.minLen == 1 && f.maxEntropy < 0.0
  }

  /** A run of a chunk gives a record. */
  lemma RunRecorded(text: Word, C: nat, L: nat, f: Filter, s: nat, r: Strings.Run)
    requires C > 0 && Permissive(f) && Nominal(C, |text|, s) && r in Handed(text, C, L, s)
    requires r.start + 2 <= r.end
    ensures Rec(r.start, (r.end - r.start) % U32) in OnePass(text, C, L, UnicodeRecs(text, f), 0)
  {
    var b, e, x := LeftEdge(text, C, s), RightEdge(text, C, L, s), Rec(r.start, (r.end - r.start) % U32);
    EdgesOrdered(text, C, L, s);
    hide CodedChunk, LeftEdge, RightEdge, EmitAll;
    CodedStarts(text, b, e);
    assert x in Emit(text, ByteFilter(f), r);
    EmitAllMember(text, ByteFilter(f), CodedChunk(text, b, e), x);
    PassMember(text, C, L, UnicodeRecs(text, f), 0, x);
  }

  /** A record stands for a run of a chunk. */
  lemma RecordRun(text: Word, C: nat, L: nat, f: Filter, x: Rec) returns (s: nat, r: Strings.Run)
    requires C > 0 && x in OnePass(text, C, L, UnicodeRecs(text, f), 0)
    ensures Nominal(C, |text|, s) && r in Handed(text, C, L, s)
    ensures LeftEdge(text, C, s) <= r.start < r.end <= RightEdge(text, C, L, s)
    ensures x == Rec(r.start, (r.end - r.start) % U32)
  {
    hide CodedChunk, LeftEdge, RightEdge, EmitAll;
    PassMember(text, C, L, UnicodeRecs(text, f), 0, x);
    s :| Nominal(C, |text|, s) && x in UnicodeRecs(text, f)(LeftEdge(text, C, s), RightEdge(text, C, L, s));
    var b, e := LeftEdge(text, C, s), RightEdge(text, C, L, s);
    EdgesOrdered(text, C, L, s);
    EmitAllMember(text, ByteFilter(f), CodedChunk(text, b, e), x);
    r :| r in CodedChunk(text, b, e) && x in Emit(text, ByteFilter(f), r);
    CodedStarts(text, b, e);
  }

  lemma ParityKept(n: nat)
    ensures (n % U32) % 2 == n % 2 && n % U32 <= n
  {
  }

  /** Runs that only touch give records with strictly ascending offsets. */
  lemma {:induction false} EmitTouching(text: Word, f: Filter, runs: seq<Strings.Run>, b: nat, e: nat)
    requires Touching(runs) && forall r | r in runs :: b <= r.start < r.end <= e
    ensures StrictBy(Offset(), EmitAll(text, f, runs))
    ensures forall x | x in EmitAll(text, f, runs) :: b <= x.offset < e
  {
    if runs != [] {
      var rest := runs[1..];
      forall r | r in rest ensures runs[0].end <= r.start < r.end <= e {
        var k :| 0 <= k < |rest| && rest[k] == r;
        assert runs[k + 1] == r;
      }
      EmitTouching(text, f, rest, runs[0].end, e);
      var s := EmitAll(text, f, rest);
      assert forall i | 0 <= i < |s| :: s[i] in s;
    }
  }

  /** The records that the scalar scan gives for one chunk. */
  ghost function ScalarRecs(text: Word, f: Filter): (nat, nat) -> seq<Rec> {
    (b: nat, e: nat) => if b <= e <= |text| then EmitAll(text, ByteFilter(f), ScalarChunk(text, b, e)) else []
  }

  lemma ScalarKeys(text: Word, f: Filter)
    ensures KeysInside(text, ScalarRecs(text, f), Offset())
    ensures forall b: nat, e: nat | b <= e <= |text| :: StrictBy(Offset(), ScalarRecs(text, f)(b, e))
  {
    hide ScalarChunk, EmitAll, StrictBy, Touching;
    forall b: nat, e: nat | b <= e <= |text|
      ensures StrictBy(Offset(), ScalarRecs(text, f)(b, e))
      ensures forall x | x in ScalarRecs(text, f)(b, e) :: b <= x.offset < e
    {
      ScalarChunkTouch(text, b, e);
      EmitTouching(text, ByteFilter(f), ScalarChunk(text, b, e), b, e);
    }
  }

  /** A result is in the pass exactly when the chunk that holds its key has it. */
  lemma PassHere<R>(text: Word, C: nat, L: nat, chunk: (nat, nat) -> seq<R>, key: R -> int, s: nat, x: R)
    requires C > 0 && L <= C && KeysInside(text, chunk, key) && Nominal(C, |text|, s)
    requires LeftEdge(text, C, s) <= key(x) < RightEdge(text, C, L, s)
    ensures x in OnePass(text, C, L, chunk, 0) <==> x in chunk(LeftEdge(text, C, s), RightEdge(text, C, L, s))
  {
    hide LeftEdge, RightEdge, OnePass;
    PassMember(text, C, L, chunk, 0, x);
    if t: nat :| Nominal(C, |text|, t) && x in chunk(LeftEdge(text, C, t), RightEdge(text, C, L, t)) {
      EdgesOrdered(text, C, L, t);
      if t < s { ChunksDisjoint(text, C, L, t, s); } else if s < t { ChunksDisjoint(text, C, L, s, t); }
    }
  }

  /** Lengths less than 2^32 apart stay different in 32 bits. */
  lemma NearEnds(r: Strings.Run, t: Strings.Run)
    requires r.start == t.start && r.start <= r.end && t.start <= t.end
    requires t.end != r.end && r.end - U32 < t.end < r.end + U32
    ensures (r.end - r.start) % U32 != (t.end - t.start) % U32
  {
  }

  /** The record of a run that only one list has is only in the records of that list. */
  lemma OnlyIn(text: Word, f: Filter, r: Strings.Run, runs: seq<Strings.Run>, others: seq<Strings.Run>)
    requires Permissive(f) && Distinguishes(r, runs, others) && r.end <= |text|
    ensures var x := Rec(r.start, (r.end - r.start) % U32);
            x in EmitAll(text, ByteFilter(f), runs) && x !in EmitAll(text, ByteFilter(f), others)
  {
    hide EmitAll;
    var x := Rec(r.start, (r.end - r.start) % U32);
    assert x in Emit(text, ByteFilter(f), r);
    EmitAllMember(text, ByteFilter(f), runs, x);
    EmitAllMember(text, ByteFilter(f), others, x);
    forall t | t in others ensures x !in Emit(text, ByteFilter(f), t) {
      if t.start == r.start && t.start <= t.end { NearEnds(r, t); }
    }
  }

  /** The scans of a chunk give the same records, through any filter, when the content is clean; through
      the most permissive filter, only then. */
  lemma CleanExact(text: Word, f: Filter, b: nat, e: nat)
    requires b <= e <= |text| && f.minLen >= 1
    ensures Clean(text, b, e) ==> UnicodeRecs(text, f)(b, e) == ScalarRecs(text, f)(b, e)
    ensures Permissive(f) && UnicodeRecs(text, f)(b, e) == ScalarRecs(text, f)(b, e) ==> Clean(text, b, e)
  {
    hide CodedChunk, ScalarChunk, Clean, EmitAll;
    if Clean(text, b, e) {
      CleanAgrees(text, f, b, e);
    } else if Permissive(f) {
      var x := UncleanRecord(text, f, b, e);
    }
  }

  lemma UncleanRecord(text: Word, f: Filter, b: nat, e: nat) returns (x: Rec)
    requires b <= e <= |text| && Permissive(f) && !Clean(text, b, e)
    ensures b <= x.offset < e && (x in UnicodeRecs(text, f)(b, e) <==> x !in ScalarRecs(text, f)(b, e))
  {
    hide CodedChunk, ScalarChunk, Clean, EmitAll;
    var r, coded := UncleanDiffers(text, b, e);
    CodedStarts(text, b, e);
    ScalarChunkTouch(text, b, e);
    x := Rec(r.start, (r.end - r.start) % U32);
    if coded {
      OnlyIn(text, f, r, CodedChunk(text, b, e), ScalarChunk(text, b, e));
    } else {
      OnlyIn(text, f, r, ScalarChunk(text, b, e), CodedChunk(text, b, e));
    }
  }

  // ---------------------------------------------------------------- the pipeline

  /** Every chunk has clean contents. */
  ghost predicate CleanChunks(text: Word, C: nat, L: nat)
    requires C > 0
  {
    forall s: nat | Nominal(C, |text|, s) ::
      LeftEdge(text, C, s) <= RightEdge(text, C, L, s) && Clean(text, LeftEdge(text, C, s), RightEdge(text, C, L, s))
  }

  lemma {:induction false} PassScalar(text: Word, C: nat, L: nat, f: Filter, s: nat)
    requires C > 0 && s % C == 0 && CleanChunks(text, C, L) && f.minLen >= 1
    ensures OnePass(text, C, L, UnicodeRecs(text, f), s) == OnePass(text, C, L, ScalarRecs(text, f), s)
    decreases |text| - s
  {
    hide LeftEdge, RightEdge, UnicodeRecs, ScalarRecs, Clean;
    if s < |text| {
      assert Nominal(C, |text|, s);
      CleanExact(text, f, LeftEdge(text, C, s), RightEdge(text, C, L, s));
      NominalStep(C, |text|, s);
      PassScalar(text, C, L, f, s + C);
    }
  }

  /** When some chunk is not clean, a record is in one of the passes and not in the other. */
  lemma UncleanPass(text: Word, C: nat, L: nat, f: Filter) returns (x: Rec)
    requires C > 0 && L <= C && Permissive(f) && !CleanChunks(text, C, L)
    ensures x in OnePass(text, C, L, UnicodeRecs(text, f), 0) <==> x !in OnePass(text, C, L, ScalarRecs(text, f), 0)
  {
    hide LeftEdge, RightEdge, Clean, OnePass, UnicodeRecs, ScalarRecs;
    var s := UncleanChunk(text, C, L);
    x := UncleanRecord(text, f, LeftEdge(text, C, s), RightEdge(text, C, L, s));
    UnicodeKeys(text, f);
    ScalarKeys(text, f);
    PassHere(text, C, L, UnicodeRecs(text, f), Offset(), s, x);
    PassHere(text, C, L, ScalarRecs(text, f), Offset(), s, x);
  }

  lemma UncleanChunk(text: Word, C: nat, L: nat) returns (s: nat)
    requires C > 0 && !CleanChunks(text, C, L)
    ensures Nominal(C, |text|, s) && LeftEdge(text, C, s) <= RightEdge(text, C, L, s)
    ensures !Clean(text, LeftEdge(text, C, s), RightEdge(text, C, L, s))
  {
    hide LeftEdge, RightEdge, Clean;
    s :| Nominal(C, |text|, s) &&
      !(LeftEdge(text, C, s) <= RightEdge(text, C, L, s) &&
        Clean(text, LeftEdge(text, C, s), RightEdge(text, C, L, s)));
    EdgesOrdered(text, C, L, s);
  }

  /** Any number of workers, any interleaving, any file: the sorted merge is the scalar scan of the chunks
      in file order, through any filter, when every chunk is clean; through the most permissive one, only
      then. */
  lemma UnicodePipeline(text: Word, C: nat, L: nat, f: Filter, n: nat, sched: seq<nat>, sorted: seq<Rec>)
    requires C > 0 && L <= C && n > 0 && f.minLen >= 1
    requires AllDone(Schedule.Run(ChunkJob(text, C, L, UnicodeRecs(text, f)), n, sched))
    requires SortOf(Offset(), Merged(Schedule.Run(ChunkJob(text, C, L, UnicodeRecs(text, f)), n, sched).workers),
             sorted)
    ensures CleanChunks(text, C, L) ==> sorted == OnePass(text, C, L, ScalarRecs(text, f), 0)
    ensures sorted == OnePass(text, C, L, ScalarRecs(text, f), 0) && Permissive(f) ==>
              CleanChunks(text, C, L)
  {
    hide LeftEdge, RightEdge, UnicodeRecs, ScalarRecs, StrictBy, CleanChunks, KeysInside;
    var merged := Merged(Schedule.Run(ChunkJob(text, C, L, UnicodeRecs(text, f)), n, sched).workers);
    var coded, scalar := OnePass(text, C, L, UnicodeRecs(text, f), 0), OnePass(text, C, L, ScalarRecs(text, f), 0);
    InterleavingComplete(ChunkJob(text, C, L, UnicodeRecs(text, f)), n, sched);
    if CleanChunks(text, C, L) {
      PassScalar(text, C, L, f, 0);
      ScalarKeys(text, f);
      PassKeys(text, C, L, ScalarRecs(text, f), Offset(), 0, 0);
      SortUnique(Offset(), scalar, sorted);
    } else if Permissive(f) {
      var x := UncleanPass(text, C, L, f);
      Occurs(coded, x);
      Occurs(scalar, x);
    }
  }

  lemma Occurs(recs: seq<Rec>, x: Rec)
    ensures x in recs <==> multiset(recs)[x] > 0
  {
  }

  // ---------------------------------------------------------------- small files

  ghost predicate AlignedChunks(text: Word, C: nat, L: nat)
    requires C > 0
  {
    forall s: nat | Nominal(C, |text|, s) ::
      LeftEdge(text, C, s) <= RightEdge(text, C, L, s) && Aligned(LeftEdge(text, C, s), RightEdge(text, C, L, s))
  }

  lemma AlignedClean(text: Word, C: nat, L: nat)
    requires C > 0 && AlignedChunks(text, C, L)
    ensures CleanChunks(text, C, L)
  {
    hide LeftEdge, RightEdge;
  }

  lemma EvenMultiple(C: nat, s: nat)
    requires C > 0 && C % 2 == 0 && s % C == 0
    ensures s % 2 == 0
  {
    assert s == (s / C) * C == (s / C) * (C / 2) * 2;
    ModUnique(2, s, (s / C) * (C / 2), 0);
  }

  lemma SmallAligned(text: Word, C: nat, L: nat)
    requires C > 0 && C % 2 == 0 && |text| <= C + 66
    ensures AlignedChunks(text, C, L)
  {
    forall s: nat | Nominal(C, |text|, s)
      ensures LeftEdge(text, C, s) <= RightEdge(text, C, L, s)
      ensures Aligned(LeftEdge(text, C, s), RightEdge(text, C, L, s))
    {
      EdgesOrdered(text, C, L, s);
      EvenMultiple(C, s);
      if s > 0 { NominalApart(C, 0, s); }
    }
  }

  // ---------------------------------------------------------------- a second chunk that is not aligned

  /** Where the second chunk begins on the files below: one or five bytes past its nominal offset. */
  function StageLeft(C: nat, total: nat): (b: nat)
    requires 70 <= C && C + 67 <= total
    ensures b == C + 1 || b == C + 5
  {
    var d := Min(C, total - C) - 2;
    if d % 64 >= 3 || d < 68 then C + 1 else C + 5
  }

  function StageRight(C: nat, total: nat): nat {
    Min(2 * C, total)
  }

  lemma StageUnaligned(C: nat, total: nat)
    requires C % 2 == 0 && 70 <= C && C + 67 <= total
    ensures var b, e := StageLeft(C, total), StageRight(C, total);
            b <= e <= total && !Aligned(b, e) && (e == total || (e - 1 - b) % 64 >= 3)
  {
  }

  /** With its one newline just before the stage, the file has the stage as its second chunk. */
  lemma StageEdges(text: Word, C: nat, L: nat, marks: int -> bool)
    requires 70 <= C && L <= C && C + 67 <= |text|
    requires text == Marked(|text|, StageLeft(C, |text|), marks)
    ensures Nominal(C, |text|, C)
    ensures LeftEdge(text, C, C) == StageLeft(C, |text|) && RightEdge(text, C, L, C) == StageRight(C, |text|)
  {
    var b, e := StageLeft(C, |text|), StageRight(C, |text|);
    ModUnique(C, C, 1, 0);
    FindByteUnique(text, C, C + Min(|text| - C, C), NEWLINE, b - 1);
    if e < |text| {
      var hi := e + Min(|text| - e, L);
      FindByteUnique(text, e, hi, NEWLINE, hi);
    }
  }

  // ---------------------------------------------------------------- mid-file lengths

  /** A file with an odd run in mid-file. */
  ghost function OddFile(C: nat, total: nat): (text: Word)
    requires 70 <= C && C + 67 <= total
    ensures |text| == total
  {
    var m := TailStart(StageLeft(C, total), StageRight(C, total));
    Marked(total, StageLeft(C, total), (p: int) => p == m - 3 || p == m - 1)
  }

  lemma OddFileRun(C: nat, L: nat, total: nat) returns (m: nat)
    requires C % 2 == 0 && 70 <= C && L <= C && C + 67 <= total
    ensures var text := OddFile(C, total);
            && m == TailStart(StageLeft(C, total), StageRight(C, total))
            && Nominal(C, total, C) && 3 <= m && m + 2 <= RightEdge(text, C, L, C) <= m + 64
            && LeftEdge(text, C, C) <= m - 3 && Strings.Run(m - 3, m) in Handed(text, C, L, C)
  {
    hide CodedChunk, LeftEdge, RightEdge, StageLeft, StageRight, TailStart;
    var b, e := StageLeft(C, total), StageRight(C, total);
    StageUnaligned(C, total);
    m := TailStart(b, e);
    var text := OddFile(C, total);
    UnalignedTail(b, e);
    StageEdges(text, C, L, (p: int) => p == m - 3 || p == m - 1);
    OddClosed(text, b, e);
  }

  /** Records closed by a failing pair are even on every file of a size exactly up to the chunk size
      plus 66. */
  lemma ClosedEvenFiles(C: nat, L: nat, total: nat)
    requires C % 2 == 0 && 70 <= C && L <= C
    ensures total <= C + 66 <==>
              forall text: Word, s: nat, r |
                |text| == total && Nominal(C, total, s) && r in Handed(text, C, L, s) &&
                  r.end < RightEdge(text, C, L, s) ::
                EvenLength(r)
  {
    hide CodedChunk, LeftEdge, RightEdge;
    if total <= C + 66 {
      forall text: Word, s: nat, r |
        |text| == total && Nominal(C, total, s) && r in Handed(text, C, L, s) && r.end < RightEdge(text, C, L, s)
        ensures EvenLength(r)
      {
        SmallAligned(text, C, L);
        CodedLengths(text, LeftEdge(text, C, s), RightEdge(text, C, L, s), r);
        CodedStarts(text, LeftEdge(text, C, s), RightEdge(text, C, L, s));
      }
    } else {
      var m := OddFileRun(C, L, total);
      assert !EvenLength(Strings.Run(m - 3, m));
    }
  }

  // ---------------------------------------------------------------- the odd record

  /** The odd record of the file is in the coded pass and not in the scalar one. */
  lemma OddFileRecord(C: nat, L: nat, total: nat, f: Filter) returns (x: Rec)
    requires C % 2 == 0 && 70 <= C && L <= C && C + 67 <= total && Permissive(f)
    ensures var text := OddFile(C, total);
            && x == Rec(TailStart(StageLeft(C, total), StageRight(C, total)) - 3, 3)
            && x.offset + 3 < RightEdge(text, C, L, C)
            && x in OnePass(text, C, L, UnicodeRecs(text, f), 0)
            && x !in OnePass(text, C, L, ScalarRecs(text, f), 0)
  {
    hide CodedChunk, ScalarChunk, LeftEdge, RightEdge;
    var text := OddFile(C, total);
    var m := OddFileRun(C, L, total);
    x := Rec(m - 3, 3);
    RunRecorded(text, C, L, f, C, Strings.Run(m - 3, m));
    ScalarKeys(text, f);
    PassHere(text, C, L, ScalarRecs(text, f), Offset(), C, x);
    NotScalar(text, f, LeftEdge(text, C, C), RightEdge(text, C, L, C), m);
  }

  /** The scalar scan of the chunk has no record of these three bytes. */
  lemma NotScalar(text: Word, f: Filter, b: nat, e: nat, m: nat)
    requires b + 3 <= m < e <= |text| && e <= m + 64
    ensures Rec(m - 3, 3) !in ScalarRecs(text, f)(b, e)
  {
    hide ScalarChunk, EmitAll;
    EmitAllMember(text, ByteFilter(f), ScalarChunk(text, b, e), Rec(m - 3, 3));
    ScalarChunkTouch(text, b, e);
    forall r | r in ScalarChunk(text, b, e) ensures Rec(m - 3, 3) !in Emit(text, ByteFilter(f), r) {
      LengthsEven(text, b, e, r);
      ParityKept(r.end - r.start);
    }
  }

  /** For example: one newline just past the chunk size and two neighbouring characters 62 bytes on. */
  lemma OddFileExample(C: nat, L: nat, f: Filter)
    requires C % 2 == 0 && 70 <= C && L <= C && Permissive(f)
    ensures var text: Word := seq(C + 68, i => if i == C then NEWLINE else if i == C + 62 ||
            i == C + 64 then 0x41 else 0);
            Rec(C + 62, 3) in OnePass(text, C, L, UnicodeRecs(text, f), 0)
  {
    var text: Word := seq(C + 68, i => if i == C then NEWLINE else if i == C + 62 || i == C + 64 then 0x41 else 0);
    assert TailStart(StageLeft(C, C + 68), StageRight(C, C + 68)) == C + 65;
    assert text == OddFile(C, C + 68);
    var x := OddFileRecord(C, L, C + 68, f);
  }

  /** The records are those of the scalar scan of the chunks on every file of a size exactly up to the
      chunk size plus 66. */
  lemma ScalarFiles(C: nat, L: nat, total: nat)
    requires C % 2 == 0 && 70 <= C && L <= C
    ensures total <= C + 66 <==>
              forall text: Word, f: Filter | |text| == total && f.minLen >= 1 ::
                OnePass(text, C, L, UnicodeRecs(text, f), 0) == OnePass(text, C, L, ScalarRecs(text, f), 0)
  {
    if total <= C + 66 {
      forall text: Word, f: Filter | |text| == total && f.minLen >= 1
        ensures OnePass(text, C, L, UnicodeRecs(text, f), 0) == OnePass(text, C, L, ScalarRecs(text, f), 0)
      {
        SmallAligned(text, C, L);
        AlignedClean(text, C, L);
        PassScalar(text, C, L, f, 0);
      }
    } else {
      var x := OddFileRecord(C, L, total, Filter(1, -1.0, w => 0.0));
    }
  }

  // ---------------------------------------------------------------- overlap

  /** Two records share a byte of the file. */
  ghost predicate ShareByte(x: Rec, y: Rec) {
    x.offset < y.offset < x.offset + x.len
  }

  /** No byte of the file belongs to two records. */
  ghost predicate RecordsApart(recs: seq<Rec>) {
    forall x, y | x in recs && y in recs :: !ShareByte(x, y)
  }

  /** A file with two overlapping runs in mid-file. */
  ghost function OverlapFile(C: nat, total: nat): (text: Word)
    requires 70 <= C && C + 67 <= total
    ensures |text| == total
  {
    var m := TailStart(StageLeft(C, total), StageRight(C, total));
    Marked(total, StageLeft(C, total), (p: int) => p == m - 2 || p == m)
  }

  lemma OverlapFileRecords(C: nat, L: nat, total: nat, f: Filter) returns (x: Rec, y: Rec)
    requires C % 2 == 0 && 70 <= C && L <= C && C + 67 <= total && Permissive(f)
    ensures var pass := OnePass(OverlapFile(C, total), C, L, UnicodeRecs(OverlapFile(C, total), f), 0);
            x in pass && y in pass && ShareByte(x, y)
  {
    hide CodedChunk, LeftEdge, RightEdge, StageLeft, StageRight, TailStart, OnePass;
    var b, e := StageLeft(C, total), StageRight(C, total);
    StageUnaligned(C, total);
    var m := TailStart(b, e);
    var text := OverlapFile(C, total);
    UnalignedTail(b, e);
    StageEdges(text, C, L, (p: int) => p == m - 2 || p == m);
    var r, t := LanesOverlap(text, b, e);
    CodedStarts(text, b, e);
    RunRecorded(text, C, L, f, C, r);
    RunRecorded(text, C, L, f, C, t);
    x, y := Rec(r.start, (r.end - r.start) % U32), Rec(t.start, (t.end - t.start) % U32);
  }

  /** No byte belongs to two runs of aligned chunks. */
  lemma RunsApart(text: Word, C: nat, L: nat, s: nat, r: Strings.Run, t: nat, q: Strings.Run)
    requires C > 0 && L <= C && AlignedChunks(text, C, L)
    requires Nominal(C, |text|, s) && r in Handed(text, C, L, s) && r.end <= RightEdge(text, C, L, s)
    requires Nominal(C, |text|, t) && q in Handed(text, C, L, t) && LeftEdge(text, C, t) <= q.start
    requires LeftEdge(text, C, s) <= r.start && q.start < RightEdge(text, C, L, t)
    ensures !(r.start < q.start < r.end)
  {
    hide CodedChunk, ScalarChunk, LeftEdge, RightEdge, Touching;
    if s < t {
      ChunksDisjoint(text, C, L, s, t);
    } else if t < s {
      ChunksDisjoint(text, C, L, t, s);
    } else {
      var b, e := LeftEdge(text, C, s), RightEdge(text, C, L, s);
      AlignedIsScalar(text, b, e);
      ScalarChunkTouch(text, b, e);
      TouchingApart(CodedChunk(text, b, e));
    }
  }

  lemma AlignedApart(text: Word, C: nat, L: nat, f: Filter)
    requires C > 0 && L <= C && AlignedChunks(text, C, L)
    ensures RecordsApart(OnePass(text, C, L, UnicodeRecs(text, f), 0))
  {
    hide Handed, LeftEdge, RightEdge, AlignedChunks, OnePass;
    var pass := OnePass(text, C, L, UnicodeRecs(text, f), 0);
    forall x, y | x in pass && y in pass ensures !ShareByte(x, y) {
      var s, r := RecordRun(text, C, L, f, x);
      var t, q := RecordRun(text, C, L, f, y);
      RunsApart(text, C, L, s, r, t, q);
      ParityKept(r.end - r.start);
    }
  }

  /** No byte belongs to two records on every file of a size exactly up to the chunk size plus 66. */
  lemma ApartFiles(C: nat, L: nat, total: nat)
    requires C % 2 == 0 && 70 <= C && L <= C
    ensures total <= C + 66 <==>
              forall text: Word, f: Filter | |text| == total && f.minLen >= 1 ::
                RecordsApart(OnePass(text, C, L, UnicodeRecs(text, f), 0))
  {
    if total <= C + 66 {
      forall text: Word, f: Filter | |text| == total && f.minLen >= 1
        ensures RecordsApart(OnePass(text, C, L, UnicodeRecs(text, f), 0)) {
        SmallAligned(text, C, L);
        AlignedApart(text, C, L, f);
      }
    } else {
      var x, y := OverlapFileRecords(C, L, total, Filter(1, -1.0, w => 0.0));
    }
  }

  // ---------------------------------------------------------------- all lengths

  /** A run of three bytes at the end of the file. */
  lemma LastThree(text: Word, C: nat, L: nat, f: Filter, s: nat)
    requires C > 0 && Permissive(f) && Nominal(C, |text|, s) && Aligned(LeftEdge(text, C, s), |text|)
    requires RightEdge(text, C, L, s) == |text| && LeftEdge(text, C, s) + 3 <= |text|
    requires text[|text| - 3] == 0x41 && text[|text| - 2] == 0
    requires forall p | LeftEdge(text, C, s) <= p < |text| - 3 :: text[p] == 0
    ensures Rec(|text| - 3, 3) in OnePass(text, C, L, UnicodeRecs(text, f), 0)
  {
    hide CodedChunk, LeftEdge, RightEdge;
    var b, e := LeftEdge(text, C, s), |text|;
    assert forall p | b <= p < e - 1 :: PairAt(text, p) <==> p == e - 3;
    LastOpen(text, b, e);
    RunRecorded(text, C, L, f, s, Strings.Run(e - 3, e));
  }

  /** The sizes of which all files have records of even lengths only. */
  predicate EvenSize(C: nat, L: nat, total: nat) {
    total < 3 || (C < total <= C + 2 && L < total - C)
  }

  lemma ShortChunks(text: Word, C: nat, L: nat, s: nat)
    requires C % 2 == 0 && 70 <= C && EvenSize(C, L, |text|) && Nominal(C, |text|, s)
    ensures var b, e := LeftEdge(text, C, s), RightEdge(text, C, L, s);
            b <= e <= |text| && if e < |text| then Aligned(b, e) else e - b < 3
  {
    EdgesOrdered(text, C, L, s);
    if s > 0 { NominalApart(C, 0, s); }
  }

  /** Some file of any other size has a record of three bytes. */
  lemma OddSize(C: nat, L: nat, total: nat, f: Filter) returns (text: Word, x: Rec)
    requires C % 2 == 0 && 70 <= C && L <= C && Permissive(f) && !EvenSize(C, L, total)
    ensures |text| == total && x in OnePass(text, C, L, UnicodeRecs(text, f), 0) && x.len == 3
  {
    if total >= C + 67 {
      text := OddFile(C, total);
      x := OddFileRecord(C, L, total, f);
    } else {
      x := Rec(total - 3, 3);
      var s := if total <= C + 2 then 0 else C;
      var last := if total <= C || total > C + 2 then 0 else NEWLINE;
      text := seq(total, i requires 0 <= i < total => if i == total - 3 then 0x41 else if i ==
        total - 1 then last else 0);
      OddSizeEdges(text, C, L, s);
      LastThree(text, C, L, f, s);
    }
  }

  lemma OddSizeEdges(text: Word, C: nat, L: nat, s: nat)
    requires 70 <= C && L <= C && 3 <= |text| <= C + 66 && !EvenSize(C, L, |text|)
    requires s == if |text| <= C + 2 then 0 else C
    requires forall i | 0 <= i < |text| :: text[i] == NEWLINE <==> i == |text| - 1 && C < |text| <= C + 2
    ensures Nominal(C, |text|, s) && LeftEdge(text, C, s) == s && RightEdge(text, C, L, s) == |text|
  {
    ModUnique(C, C, 1, 0);
    if s == C {
      FindByteUnique(text, C, |text|, NEWLINE, |text|);
    } else if |text| > C {
      FindByteUnique(text, C, |text|, NEWLINE, |text| - 1);
    }
  }

  /** All records have even lengths on every file of exactly the sizes below three, and of one or two
      bytes more than the chunk size when the look-ahead is shorter than the excess. */
  lemma EvenFiles(C: nat, L: nat, total: nat)
    requires C % 2 == 0 && 70 <= C && L <= C
    ensures EvenSize(C, L, total) <==>
              forall text: Word, f: Filter, x |
                |text| == total && f.minLen >= 1 && x in OnePass(text, C, L, UnicodeRecs(text, f), 0) ::
                x.len % 2 == 0
  {
    hide CodedChunk, LeftEdge, RightEdge, EvenSize;
    if EvenSize(C, L, total) {
      forall text: Word, f: Filter, x |
        |text| == total && f.minLen >= 1 && x in OnePass(text, C, L, UnicodeRecs(text, f), 0)
        ensures x.len % 2 == 0
      {
        var s, r := RecordRun(text, C, L, f, x);
        ShortChunks(text, C, L, s);
        LengthsEvenExact(LeftEdge(text, C, s), RightEdge(text, C, L, s), total);
        assert EvenLength(r);
        ParityKept(r.end - r.start);
      }
    } else {
      var text, x := OddSize(C, L, total, Filter(1, -1.0, w => 0.0));
    }
  }
}
