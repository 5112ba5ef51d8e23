/** g-unicode: UTF-16LE runs of printable ASCII, found in two interleaved lanes (even and odd pair
    starts) through shifted 64-bit masks, then pair by pair in the tail of a chunk. */
module Unicode {
  import opened Bytes
  import opened SimdScan
  import opened ChunkAllocator
  import opened Schedule
  import opened Pipeline
  import opened Strings

  /** A character: a printable low byte and a zero high byte. */
  predicate PairAt(text: Word, p: nat)
    requires p + 1 < |text|
  {
    Printable(text[p]) && text[p + 1] == 0
  }

  // ---------------------------------------------------------------- two lanes

  /** One pair start: the lane of the pair opens, continues or closes. */
  ghost function Advance(text: Word, p: nat, st: RunState): RunState
    requires p + 1 < |text|
  {
    if !PairAt(text, p) then Outside else if st.Outside? then Inside(p) else st
  }

  ghost function Closes(text: Word, p: nat, st: RunState): seq<Strings.Run>
    requires p + 1 < |text|
  {
    if !PairAt(text, p) && st.Inside? then [Strings.Run(st.start, p)] else []
  }

  /** The runs closed at the pair starts i, ..., q-1; `cur` is the lane of `i`, `oth` the other. */
  ghost function PairRuns(text: Word, i: nat, q: nat, cur: RunState, oth: RunState): seq<Strings.Run>
    requires i <= q && (i < q ==> q < |text|)
    decreases q - i
  {
    if i == q then [] else Closes(text, i, cur) + PairRuns(text, i + 1, q, oth, Advance(text, i, cur))
  }

  /** The lanes of `q` and of `q + 1` after the same pair starts. */
  ghost function PairEnd(text: Word, i: nat, q: nat, cur: RunState, oth: RunState): (RunState, RunState)
    requires i <= q && (i < q ==> q < |text|)
    decreases q - i
  {
    if i == q then (cur, oth) else PairEnd(text, i + 1, q, oth, Advance(text, i, cur))
  }

  lemma {:induction false} PairsSplit(text: Word, i: nat, m: nat, q: nat, cur: RunState, oth: RunState)
    requires i <= m <= q && (i < q ==> q < |text|)
    ensures var z := PairEnd(text, i, m, cur, oth);
            && PairRuns(text, i, q, cur, oth) == PairRuns(text, i, m, cur, oth) + PairRuns(text, m, q, z.0, z.1)
            && PairEnd(text, i, q, cur, oth) == PairEnd(text, m, q, z.0, z.1)
    decreases m - i
  {
    hide Advance, Closes;
    if i < m { PairsSplit(text, i + 1, m, q, oth, Advance(text, i, cur)); }
  }

  // ---------------------------------------------------------------- the scalar reference

  /** A scan that keeps one state for even and one for odd pair starts. */
  ghost function ScalarRuns(text: Word, i: nat, q: nat, even: RunState, odd: RunState): seq<Strings.Run>
    requires i <= q && (i < q ==> q < |text|)
    decreases q - i
  {
    if i == q then []
    else if i % 2 == 0 then Closes(text, i, even) + ScalarRuns(text, i + 1, q, Advance(text, i, even), odd)
    else Closes(text, i, odd) + ScalarRuns(text, i + 1, q, even, Advance(text, i, odd))
  }

  ghost function ScalarEnd(text: Word, i: nat, q: nat, even: RunState, odd: RunState): (RunState, RunState)
    requires i <= q && (i < q ==> q < |text|)
    decreases q - i
  {
    if i == q then (even, odd)
    else if i % 2 == 0 then ScalarEnd(text, i + 1, q, Advance(text, i, even), odd)
    else ScalarEnd(text, i + 1, q, even, Advance(text, i, odd))
  }

  /** The pair starts of a chunk end one byte before the chunk. */
  function LastPair(b: nat, e: nat): (q: nat)
    requires b <= e
    ensures b <= q <= e && (b < q ==> q == e - 1)
  {
    if b + 1 < e then e - 1 else b
  }

  /** Runs still open at the end of the file end there. */
  ghost function OpenRuns(text: Word, e: nat, even: RunState, odd: RunState): seq<Strings.Run> {
    FinalRun(text, e, even) + FinalRun(text, e, odd)
  }

  /** The runs of a chunk as the scalar scan finds them. */
  ghost function ScalarChunk(text: Word, b: nat, e: nat): seq<Strings.Run>
    requires b <= e <= |text|
  {
    var z := ScalarEnd(text, b, LastPair(b, e), Outside, Outside);
    ScalarRuns(text, b, LastPair(b, e), Outside, Outside) + OpenRuns(text, e, z.0, z.1)
  }

  lemma {:induction false} ScalarIsPairs(text: Word, i: nat, q: nat, even: RunState, odd: RunState)
    requires i <= q && (i < q ==> q < |text|)
    ensures var (cur, oth) := if i % 2 == 0 then (even, odd) else (odd, even);
            && ScalarRuns(text, i, q, even, odd) == PairRuns(text, i, q, cur, oth)
            && PairEnd(text, i, q, cur, oth) ==
               (if q % 2 == 0 then ScalarEnd(text, i, q, even, odd)
                else (ScalarEnd(text, i, q, even, odd).1, ScalarEnd(text, i, q, even, odd).0))
    decreases q - i
  {
    hide Advance, Closes;
    if i < q {
      if i % 2 == 0 {
        ScalarIsPairs(text, i + 1, q, Advance(text, i, even), odd);
      } else {
        ScalarIsPairs(text, i + 1, q, even, Advance(text, i, odd));
      }
    }
  }

  // ---------------------------------------------------------------- the chunk as it is coded

  /** Where the block loop stops: the last i = b + 64k with i + 64 < e. */
  function TailStart(b: nat, e: nat): (m: nat)
    requires b <= e
    ensures b <= m <= LastPair(b, e) && m % 2 == b % 2
    ensures m == b || b + 64 <= m
    ensures b < e ==> m < e <= m + 64
  {
    if b + 65 <= e then b + 64 * ((e - 1 - b) / 64) else b
  }

  /** The block loop counts lanes from `b`; the tail loop takes the lane from the parity of the
      offset. The lanes therefore change places at the tail when `b` is odd. */
  ghost function CodedChunk(text: Word, b: nat, e: nat): seq<Strings.Run>
    requires b <= e <= |text|
  {
    var m, q := TailStart(b, e), LastPair(b, e);
    var (even, odd) := PairEnd(text, b, m, Outside, Outside);
    var (even', odd') := ScalarEnd(text, m, q, even, odd);
    PairRuns(text, b, m, Outside, Outside) + ScalarRuns(text, m, q, even, odd) + OpenRuns(text, e, even', odd')
  }

  /** On a chunk that starts at an even offset the masked loop and the tail together are the
      scalar scan. */
  lemma EvenStart(text: Word, b: nat, e: nat)
    requires b <= e <= |text| && b % 2 == 0
    ensures CodedChunk(text, b, e) == ScalarChunk(text, b, e)
  {
    hide PairRuns, PairEnd, ScalarRuns, ScalarEnd;
    var m, q := TailStart(b, e), LastPair(b, e);
    var z := PairEnd(text, b, m, Outside, Outside);
    ScalarIsPairs(text, b, q, Outside, Outside);
    PairsSplit(text, b, m, q, Outside, Outside);
    ScalarIsPairs(text, m, q, z.0, z.1);
  }

  // ---------------------------------------------------------------- what the runs are

  /** A maximal run of pairs that fails at `r.end`, within the pair starts b, ..., q-1. */
  ghost predicate MaximalPairRun(text: Word, b: nat, q: nat, r: Strings.Run)
    requires b < q ==> q < |text|
  {
    && b <= r.start < r.end < q && (r.end - r.start) % 2 == 0
    && (forall p | r.start <= p < r.end && (p - r.start) % 2 == 0 :: PairAt(text, p))
    && !PairAt(text, r.end)
    && (r.start >= b + 2 ==> !PairAt(text, r.start - 2))
  }

  /** The state of a lane whose last pair start before `i` was `i - d`. */
  ghost predicate LaneAt(text: Word, b: nat, i: nat, d: nat, st: RunState)
    requires 0 < d && b <= i && (b < i ==> i < |text|)
  {
    match st
    case Outside => i >= b + d ==> !PairAt(text, i - d)
    case Inside(s) =>
      && b <= s && s + d <= i && (i - d - s) % 2 == 0
      && (forall p | s <= p < i && (p - s) % 2 == 0 :: PairAt(text, p))
      && (s >= b + 2 ==> !PairAt(text, s - 2))
  }

  ghost predicate LanesAt(text: Word, b: nat, i: nat, cur: RunState, oth: RunState)
    requires b <= i && (b < i ==> i < |text|)
  {
    && LaneAt(text, b, i, 2, cur) && LaneAt(text, b, i, 1, oth)
    && (cur.Outside? || oth.Outside?)
  }

  /** The low byte of one lane is the high byte of the other, so they are never open together. */
  lemma LanesStep(text: Word, b: nat, i: nat, cur: RunState, oth: RunState)
    requires b <= i && i + 1 < |text| && LanesAt(text, b, i, cur, oth)
    ensures LanesAt(text, b, i + 1, oth, Advance(text, i, cur))
  {
    if oth.Inside? {
      assert (i - 1 - oth.start) % 2 == 0;
      assert PairAt(text, i - 1);
    }
  }

  lemma {:induction false} LanesEnd(text: Word, b: nat, i: nat, q: nat, cur: RunState, oth: RunState)
    requires b <= i <= q && (b < q ==> q < |text|) && LanesAt(text, b, i, cur, oth)
    ensures LanesAt(text, b, q, PairEnd(text, i, q, cur, oth).0, PairEnd(text, i, q, cur, oth).1)
    decreases q - i
  {
    if i < q {
      LanesStep(text, b, i, cur, oth);
      hide LanesAt, Advance;
      LanesEnd(text, b, i + 1, q, oth, Advance(text, i, cur));
    }
  }

  lemma ClosesExact(text: Word, b: nat, i: nat, q: nat, cur: RunState, oth: RunState, r: Strings.Run)
    requires b <= i < q < |text| && LanesAt(text, b, i, cur, oth)
    ensures r in Closes(text, i, cur) <==> MaximalPairRun(text, b, q, r) && r.end == i
  {
    if MaximalPairRun(text, b, q, r) && r.end == i {
      assert (i - 2 - r.start) % 2 == 0;
      assert PairAt(text, i - 2);
      var s := cur.start;
      assert (r.start - 2 - s) % 2 == 0 && (s - 2 - r.start) % 2 == 0;
    }
  }

  /** The closed runs are exactly the maximal ones; their lengths are therefore even. */
  lemma {:induction false} PairRunsExact(text: Word, b: nat, i: nat, q: nat, cur: RunState, oth: RunState,
        r: Strings.Run)
    requires b <= i <= q && (b < q ==> q < |text|) && LanesAt(text, b, i, cur, oth)
    ensures r in PairRuns(text, i, q, cur, oth) <==> MaximalPairRun(text, b, q, r) && i <= r.end
    decreases q - i
  {
    if i < q {
      LanesStep(text, b, i, cur, oth);
      ClosesExact(text, b, i, q, cur, oth, r);
      hide LanesAt, Advance, Closes, MaximalPairRun;
      PairRunsExact(text, b, i + 1, q, oth, Advance(text, i, cur), r);
    }
  }

  // ---------------------------------------------------------------- order and overlap

  ghost predicate Touching(runs: seq<Strings.Run>) {
    forall i, j | 0 <= i < j < |runs| :: runs[i].end <= runs[j].start
  }

  /** An open lane, or a later run, never reaches back over a closed run. */
  ghost predicate After(x: int, st: RunState) {
    st.Inside? ==> x <= st.start
  }

  lemma ClosesSpan(text: Word, b: nat, i: nat, cur: RunState, oth: RunState)
    requires b <= i && i + 1 < |text| && LanesAt(text, b, i, cur, oth) && Closes(text, i, cur) != []
    ensures cur.Inside? && cur.start < i && Closes(text, i, cur) == [Strings.Run(cur.start, i)]
    ensures oth == Outside && Advance(text, i, cur) == Outside
  {
  }

  lemma TouchCons(r: Strings.Run, runs: seq<Strings.Run>)
    requires Touching(runs) && forall t | t in runs :: r.end <= t.start
    ensures Touching([r] + runs)
  {
    var all := [r] + runs;
    forall i, j | 0 <= i < j < |all| ensures all[i].end <= all[j].start {
      assert all[j] in runs;
    }
  }

  lemma {:induction false} PairRunsTouch(text: Word, b: nat, i: nat, q: nat, cur: RunState, oth: RunState, x: nat)
    requires b <= i <= q && (b < q ==> q < |text|) && LanesAt(text, b, i, cur, oth)
    requires After(x, cur) && After(x, oth) && x <= i
    ensures var runs, z := PairRuns(text, i, q, cur, oth), PairEnd(text, i, q, cur, oth);
            && Touching(runs)
            && (forall r | r in runs :: x <= r.start < r.end < q && After(r.end, z.0) && After(r.end, z.1))
            && After(x, z.0) && After(x, z.1)
    decreases q - i
  {
    hide LanesAt, Touching;
    if i < q {
      var st := Advance(text, i, cur);
      LanesStep(text, b, i, cur, oth);
      var rest := PairRuns(text, i + 1, q, oth, st);
      if Closes(text, i, cur) == [] {
        PairRunsTouch(text, b, i + 1, q, oth, st, x);
        assert [] + rest == rest;
      } else {
        ClosesSpan(text, b, i, cur, oth);
        PairRunsTouch(text, b, i + 1, q, oth, st, i);
        TouchCons(Strings.Run(cur.start, i), rest);
      }
    } else {
      assert Touching([]) by { TouchNone(); }
    }
  }

  lemma TouchNone()
    ensures Touching([])
  {
  }

  /** The two lanes at the start of a chunk. */
  lemma LanesStart(text: Word, b: nat, q: nat)
    requires b <= q && (b < q ==> q < |text|)
    ensures LanesAt(text, b, b, Outside, Outside)
  {
  }

  lemma SwappedOpen(text: Word, e: nat, s: RunState, t: RunState)
    requires s.Outside? || t.Outside?
    ensures OpenRuns(text, e, s, t) == OpenRuns(text, e, t, s)
  {
  }

  /** A chunk is its closed runs followed by the one lane that may still be open. */
  lemma ScalarParts(text: Word, b: nat, e: nat) returns (cur: RunState, oth: RunState)
    requires b <= e <= |text|
    ensures (cur, oth) == PairEnd(text, b, LastPair(b, e), Outside, Outside)
    ensures LanesAt(text, b, LastPair(b, e), cur, oth)
    ensures ScalarChunk(text, b, e) == PairRuns(text, b, LastPair(b, e), Outside, Outside) + OpenRuns(text, e, cur, oth)
  {
    hide ScalarRuns, ScalarEnd, PairRuns, PairEnd, OpenRuns;
    var q := LastPair(b, e);
    ScalarIsPairs(text, b, q, Outside, Outside);
    LanesStart(text, b, q);
    LanesEnd(text, b, b, q, Outside, Outside);
    var z := PairEnd(text, b, q, Outside, Outside);
    cur, oth := z.0, z.1;
    SwappedOpen(text, e, cur, oth);
  }

  lemma TouchSnoc(runs: seq<Strings.Run>, more: seq<Strings.Run>)
    requires Touching(runs) && |more| <= 1
    requires forall r, t | r in runs && t in more :: r.end <= t.start
    ensures Touching(runs + more)
  {
    var all := runs + more;
    forall i, j | 0 <= i < j < |all| ensures all[i].end <= all[j].start {
      if j == |runs| { assert runs[i] in runs && more[0] in more; }
    }
  }

  lemma OpenSpan(text: Word, b: nat, e: nat, cur: RunState, oth: RunState)
    requires b <= e <= |text| && LanesAt(text, b, LastPair(b, e), cur, oth)
    ensures |OpenRuns(text, e, cur, oth)| <= 1
    ensures forall t | t in OpenRuns(text, e, cur, oth) ::
              b <= t.start < t.end == e && (cur == Inside(t.start) || oth == Inside(t.start))
  {
  }

  /** No byte of a chunk belongs to two records, whichever lanes they come from. */
  lemma ScalarChunkTouch(text: Word, b: nat, e: nat)
    requires b <= e <= |text|
    ensures Touching(ScalarChunk(text, b, e))
    ensures forall r | r in ScalarChunk(text, b, e) :: b <= r.start < r.end <= e
  {
    hide ScalarChunk, PairRuns, PairEnd, OpenRuns, LanesAt;
    var q := LastPair(b, e);
    var cur, oth := ScalarParts(text, b, e);
    LanesStart(text, b, q);
    PairRunsTouch(text, b, b, q, Outside, Outside, b);
    OpenSpan(text, b, e, cur, oth);
    TouchSnoc(PairRuns(text, b, q, Outside, Outside), OpenRuns(text, e, cur, oth));
  }

  /** Every record closed by a failing pair has an even length. A record cut by the end of the file
      has an even length exactly when the last two bytes of the file are a character. */
  lemma LengthsEven(text: Word, b: nat, e: nat, r: Strings.Run)
    requires b <= e <= |text| && r in ScalarChunk(text, b, e)
    ensures r.end < e ==> (r.end - r.start) % 2 == 0
    ensures r.end == e ==> e == |text| && b + 2 <= e && ((r.end - r.start) % 2 == 0 <==> PairAt(text, e - 2))
  {
    hide ScalarChunk, PairRuns, PairEnd, OpenRuns, LanesAt;
    var q := LastPair(b, e);
    var cur, oth := ScalarParts(text, b, e);
    LanesStart(text, b, q);
    PairRunsExact(text, b, b, q, Outside, Outside, r);
    if r in OpenRuns(text, e, cur, oth) {
      OpenLength(text, b, e, cur, oth, r);
    }
  }

  /** A maximal run of pairs that the end of the file cuts. */
  ghost predicate OpenPairRun(text: Word, b: nat, e: nat, r: Strings.Run) {
    && r.end == e == |text| && b <= r.start < e - 1
    && (forall p | r.start <= p < e - 1 && (p - r.start) % 2 == 0 :: PairAt(text, p))
    && (r.start >= b + 2 ==> !PairAt(text, r.start - 2))
  }

  /** A run that begins at `s`, has reached `q`, and has its last pair start at `q - d`. */
  ghost predicate LaneRun(text: Word, b: nat, q: nat, d: nat, s: nat)
    requires b < q ==> q < |text|
  {
    && b <= s < q && (q - d - s) % 2 == 0
    && (forall p | s <= p < q && (p - s) % 2 == 0 :: PairAt(text, p))
    && (s >= b + 2 ==> !PairAt(text, s - 2))
  }

  /** A lane is open exactly with such a run. */
  lemma LaneOpenExact(text: Word, b: nat, q: nat, d: nat, st: RunState, s: nat)
    requires 1 <= d <= 2 && b <= q && (b < q ==> q < |text|) && LaneAt(text, b, q, d, st)
    ensures st == Inside(s) <==> LaneRun(text, b, q, d, s)
  {
    hide PairAt;
    if LaneRun(text, b, q, d, s) {
      assert PairAt(text, q - d);
    }
  }

  lemma OpenExact(text: Word, b: nat, e: nat, cur: RunState, oth: RunState, r: Strings.Run)
    requires b <= e <= |text| && LanesAt(text, b, LastPair(b, e), cur, oth)
    ensures r in OpenRuns(text, e, cur, oth) <==> OpenPairRun(text, b, e, r)
  {
    hide LaneAt, PairAt, LaneRun;
    var q := LastPair(b, e);
    LaneOpenExact(text, b, q, 2, cur, r.start);
    LaneOpenExact(text, b, q, 1, oth, r.start);
    EitherLane(text, b, e, r);
  }

  lemma EitherLane(text: Word, b: nat, e: nat, r: Strings.Run)
    requires b <= e <= |text|
    ensures var q := LastPair(b, e);
            OpenPairRun(text, b, e, r) <==>
            r.end == e == |text| && (LaneRun(text, b, q, 2, r.start) || LaneRun(text, b, q, 1, r.start))
  {
    hide PairAt;
  }

  /** The scalar scan of a chunk reports exactly its maximal runs: those that a failing pair closes, and
      the one that the end of the file cuts. */
  lemma ScalarChunkExact(text: Word, b: nat, e: nat, r: Strings.Run)
    requires b <= e <= |text|
    ensures r in ScalarChunk(text, b, e) <==> MaximalPairRun(text, b, LastPair(b, e), r) || OpenPairRun(text, b, e, r)
  {
    hide ScalarChunk, PairRuns, PairEnd, OpenRuns, LanesAt, MaximalPairRun, OpenPairRun;
    var q := LastPair(b, e);
    var cur, oth := ScalarParts(text, b, e);
    LanesStart(text, b, q);
    PairRunsExact(text, b, b, q, Outside, Outside, r);
    MaximalFrom(text, b, q, r);
    OpenExact(text, b, e, cur, oth, r);
  }

  lemma MaximalFrom(text: Word, b: nat, q: nat, r: Strings.Run)
    requires b < q ==> q < |text|
    ensures MaximalPairRun(text, b, q, r) ==> b <= r.end
  {
  }

  lemma OpenLength(text: Word, b: nat, e: nat, cur: RunState, oth: RunState, r: Strings.Run)
    requires b <= e <= |text| && LanesAt(text, b, LastPair(b, e), cur, oth)
    requires r in OpenRuns(text, e, cur, oth)
    ensures r.end == e == |text| && b + 2 <= e
    ensures (r.end - r.start) % 2 == 0 <==> PairAt(text, e - 2)
  {
    var q := LastPair(b, e);
    if oth.Inside? {
      assert (q - 1 - oth.start) % 2 == 0;
    } else {
      assert (q - 2 - cur.start) % 2 == 0;
      assert PairAt(text, q - 2);
    }
  }

  // ---------------------------------------------------------------- odd starts

  /** With no block, or with a tail too short to hold a pair, an odd start does no harm. */
  lemma OddHarmless(text: Word, b: nat, e: nat)
    requires b <= e <= |text| && b % 2 == 1
    requires TailStart(b, e) == b || TailStart(b, e) == LastPair(b, e)
    ensures CodedChunk(text, b, e) == ScalarChunk(text, b, e)
  {
    var m, q := TailStart(b, e), LastPair(b, e);
    if m == q {
      ScalarIsPairs(text, b, q, Outside, Outside);
      LanesStart(text, b, q);
      LanesEnd(text, b, b, q, Outside, Outside);
      var z := PairEnd(text, b, m, Outside, Outside);
      hide PairRuns, PairEnd;
      SwappedOpen(text, e, z.0, z.1);
      assert CodedChunk(text, b, e) == PairRuns(text, b, m, Outside, Outside) + OpenRuns(text, e, z.0, z.1);
    }
  }

  lemma {:induction false} NoPairs(text: Word, i: nat, q: nat)
    requires i <= q && (i < q ==> q < |text|)
    requires forall p | i <= p < q :: !PairAt(text, p)
    ensures PairRuns(text, i, q, Outside, Outside) == []
    ensures PairEnd(text, i, q, Outside, Outside) == (Outside, Outside)
    decreases q - i
  {
    if i < q { NoPairs(text, i + 1, q); }
  }

  lemma {:induction false} ScalarEnds(text: Word, i: nat, q: nat, even: RunState, odd: RunState, r: Strings.Run)
    requires i <= q && (i < q ==> q < |text|) && r in ScalarRuns(text, i, q, even, odd)
    ensures i <= r.end < q
    decreases q - i
  {
    if i % 2 == 0 {
      if r !in Closes(text, i, even) { ScalarEnds(text, i + 1, q, Advance(text, i, even), odd, r); }
    } else {
      if r !in Closes(text, i, odd) { ScalarEnds(text, i + 1, q, even, Advance(text, i, odd), r); }
    }
  }

  /** A single character just before the tail: the scalar scan closes it, the coded one does not. */
  lemma OddMisses(text: Word, b: nat, e: nat)
    requires b <= e <= |text| && b % 2 == 1
    requires b < TailStart(b, e) < LastPair(b, e)
    requires forall p | b <= p < e :: text[p] == if p == TailStart(b, e) - 2 then 0x41 else 0
    ensures CodedChunk(text, b, e) != ScalarChunk(text, b, e)
  {
    var m, q := TailStart(b, e), LastPair(b, e);
    var r := Strings.Run(m - 2, m);
    assert PairAt(text, m - 2) && forall p | b <= p < q && p != m - 2 :: !PairAt(text, p);
    LastCharacter(text, b, m, q);
    assert r in ScalarChunk(text, b, e) by { LastCharacterFound(text, b, e, m); }
    hide PairRuns, PairEnd, PairAt, ScalarRuns, ScalarEnd;
    TailMisses(text, m, q);
  }

  /** The tail, with the open lane on the wrong side, never reports the character before it. */
  lemma TailMisses(text: Word, m: nat, q: nat)
    requires 2 <= m < q < |text| && m % 2 == 1 && !PairAt(text, m)
    ensures Strings.Run(m - 2, m) !in ScalarRuns(text, m, q, Inside(m - 2), Outside)
  {
    hide PairAt;
    var r := Strings.Run(m - 2, m);
    assert Closes(text, m, Outside) == [] && Advance(text, m, Outside) == Outside;
    if r in ScalarRuns(text, m + 1, q, Inside(m - 2), Outside) {
      ScalarEnds(text, m + 1, q, Inside(m - 2), Outside, r);
    }
  }

  lemma LastCharacterFound(text: Word, b: nat, e: nat, m: nat)
    requires b <= e <= |text| && b + 2 <= m < LastPair(b, e) && PairAt(text, m - 2)
    requires forall p | b <= p < LastPair(b, e) && p != m - 2 :: !PairAt(text, p)
    ensures Strings.Run(m - 2, m) in ScalarChunk(text, b, e)
  {
    var q := LastPair(b, e);
    var cur, oth := ScalarParts(text, b, e);
    LanesStart(text, b, q);
    PairRunsExact(text, b, b, q, Outside, Outside, Strings.Run(m - 2, m));
  }

  lemma LastCharacter(text: Word, b: nat, m: nat, q: nat)
    requires b + 2 <= m <= q < |text| && PairAt(text, m - 2)
    requires forall p | b <= p < q && p != m - 2 :: !PairAt(text, p)
    ensures PairRuns(text, b, m, Outside, Outside) == []
    ensures PairEnd(text, b, m, Outside, Outside) == (Inside(m - 2), Outside)
  {
    NoPairs(text, b, m - 2);
    PairsSplit(text, b, m - 2, m, Outside, Outside);
    var st := Inside(m - 2);
    assert Advance(text, m - 2, Outside) == st && Advance(text, m - 1, Outside) == Outside;
    assert PairEnd(text, m - 2, m, Outside, Outside) == PairEnd(text, m - 1, m, Outside, st) ==
           PairEnd(text, m, m, st, Outside);
    assert PairRuns(text, m - 2, m, Outside, Outside) == PairRuns(text, m - 1, m, Outside, st) ==
           PairRuns(text, m, m, st, Outside);
  }

  /** An even start, or no block, or no pair left for the tail. */
  predicate Aligned(b: nat, e: nat)
    requires b <= e
  {
    b % 2 == 0 || e - b < 65 || (e - 1 - b) % 64 == 0
  }

  lemma AlignedIsScalar(text: Word, b: nat, e: nat)
    requires b <= e <= |text| && Aligned(b, e)
    ensures CodedChunk(text, b, e) == ScalarChunk(text, b, e)
  {
    if b % 2 == 0 {
      EvenStart(text, b, e);
    } else {
      var m, q := TailStart(b, e), LastPair(b, e);
      assert e - b >= 65 ==> ((e - 1 - b) % 64 == 0 <==> m == q);
      OddHarmless(text, b, e);
    }
  }

  /** The coded scan of a chunk agrees with the scalar scan on every content exactly when the chunk is
      aligned; a content on which they differ has a line starting with the chunk. */
  lemma AlignmentExact(b: nat, e: nat, total: nat)
    requires b <= e <= total
    ensures Aligned(b, e) ==> forall text: Word | |text| == total :: CodedChunk(text, b, e) == ScalarChunk(text, b, e)
    ensures (forall text: Word | |text| == total && LineStart(text, b) ::
                CodedChunk(text, b, e) == ScalarChunk(text, b, e)) ==>
              Aligned(b, e)
  {
    hide CodedChunk, ScalarChunk;
    if Aligned(b, e) {
      forall text: Word | |text| == total ensures CodedChunk(text, b, e) == ScalarChunk(text, b, e) {
        AlignedIsScalar(text, b, e);
      }
    } else {
      UnalignedTail(b, e);
      var m := TailStart(b, e);
      var text := Marked(total, b, (p: int) => p == m - 2);
      OddMisses(text, b, e);
    }
  }

  /** A file of the given size with a newline just before `b`, the letter A at the given positions from
      `b` on, and zeros elsewhere. */
  ghost function Marked(total: nat, b: nat, marks: int -> bool): (text: Word)
    requires b <= total
    ensures |text| == total && LineStart(text, b)
    ensures forall p: nat | b <= p < total :: text[p] == if marks(p) then 0x41 else 0
    ensures forall p: nat | p < b - 1 :: text[p] == 0
  {
    seq(total, i requires 0 <= i < total => if i == b - 1 then NEWLINE else if b <= i && marks(i) then 0x41 else 0)
  }

  /** The shape of a chunk that is not aligned. */
  lemma UnalignedTail(b: nat, e: nat)
    requires b <= e && !Aligned(b, e)
    ensures var m, q := TailStart(b, e), LastPair(b, e);
            b + 64 <= m < q == e - 1 && m % 2 == 1 && b % 2 == 1 && q - m == (e - 1 - b) % 64
  {
  }

  // ---------------------------------------------------------------- the masks of one block

  /** Bit j of the result says whether byte j + 1 is zero: the zero mask shifted down, with bit 63
      taken from the mask loaded one byte further on. */
  function NextZeroMask(z0: bv64, z1: bv64): bv64 {
    var m0Lo := z0 | (z1 << 1);
    (m0Lo >> 1) | ((z1 >> 63) << 63)
  }

  function EvenPairs(mp: bv64, s1: bv64): bv64 {
    (mp & 0x5555_5555_5555_5555) & (s1 & 0x5555_5555_5555_5555)
  }

  /** Odd pair starts, moved down to even bit positions. */
  function OddPairs(mp: bv64, s1: bv64): bv64 {
    ((mp & 0xAAAA_AAAA_AAAA_AAAA) & (s1 & 0xAAAA_AAAA_AAAA_AAAA)) >> 1
  }

  /** The two detours of the mask cancel out. */
  lemma NextZeroSimple(z0: bv64, z1: bv64)
    ensures NextZeroMask(z0, z1) == (z0 >> 1) | z1
  {
  }

  lemma NextZeroShift(z0: bv64, z1: bv64, s: bv64)
    requires s < 64 && (s < 63 ==> (BitAt(z0, s + 1) <==> BitAt(z1, s)))
    ensures BitAt((z0 >> 1) | z1, s) <==> BitAt(z1, s)
  {
  }

  lemma EvenPairsShift(mp: bv64, s1: bv64, s: bv64)
    requires s < 64 && s & 1 == 0
    ensures BitAt(EvenPairs(mp, s1), s) <==> BitAt(mp, s) && BitAt(s1, s)
  {
  }

  lemma OddPairsShift(mp: bv64, s1: bv64, s: bv64)
    requires s < 63 && s & 1 == 0
    ensures BitAt(OddPairs(mp, s1), s) <==> BitAt(mp, s + 1) && BitAt(s1, s + 1)
  {
  }

  lemma EvenStep(s: bv64)
    requires s & 1 == 0
    ensures ((s + 1) + 1) & 1 == 0
  {
  }

  lemma LaneZero()
    ensures Lane(0) & 1 == 0
  {
  }

  lemma LaneUp(i: nat)
    ensures Lane(i + 1) == Lane(i) + 1
  {
  }

  lemma {:induction false} LaneEven(k: nat)
    ensures Lane(2 * k) & 1 == 0
  {
    hide Lane;
    LaneZero();
    if k != 0 {
      LaneEven(k - 1);
      EvenStep(Lane(2 * (k - 1)));
      LaneUp(2 * k - 2);
      LaneUp(2 * k - 1);
    }
  }

  lemma LaneNext(i: nat)
    requires i < 63
    ensures Lane(i) < 63 && Lane(i + 1) == Lane(i) + 1
  {
    LaneIs(i);
    LaneIs(i + 1);
  }

  lemma NextZeroAt(z0: bv64, z1: bv64, i: nat)
    requires i < 64 && (i < 63 ==> (Bit(z0, i + 1) <==> Bit(z1, i)))
    ensures Bit(NextZeroMask(z0, z1), i) <==> Bit(z1, i)
  {
    hide BitAt, NextZeroMask;
    LaneIs(i);
    if i < 63 { LaneNext(i); } else { assert Lane(63) == 63; }
    NextZeroSimple(z0, z1);
    NextZeroShift(z0, z1, Lane(i));
  }

  lemma PairsAt(mp: bv64, s1: bv64, k: nat)
    requires k < 32
    ensures Bit(EvenPairs(mp, s1), 2 * k) <==> Bit(mp, 2 * k) && Bit(s1, 2 * k)
    ensures Bit(OddPairs(mp, s1), 2 * k) <==> Bit(mp, 2 * k + 1) && Bit(s1, 2 * k + 1)
  {
    hide BitAt, EvenPairs, OddPairs;
    LaneEven(k);
    LaneNext(2 * k);
    EvenPairsShift(mp, s1, Lane(2 * k));
    OddPairsShift(mp, s1, Lane(2 * k));
  }

  /** Every second bit of `bits`, up to `n` of them, tests the pair starts p, p + 2, ... */
  ghost predicate PairsAhead(bits: bv64, text: Word, p: nat, n: nat)
    requires n <= 32 && p + 2 * n <= |text|
  {
    forall k: nat | k < n :: Bit(bits, 2 * k) <==> PairAt(text, p + 2 * k)
  }

  lemma ShrTwice(m: bv64, i: nat)
    requires i < 62
    ensures Bit(m >> 2, i) <==> Bit(m, i + 2)
  {
    hide Bit;
    ShrAt(m, i + 1);
    ShrAt(m >> 1, i);
    assert (m >> 1) >> 1 == m >> 2;
  }

  lemma PairsAheadNext(bits: bv64, text: Word, p: nat, n: nat)
    requires 0 < n <= 32 && p + 2 * n <= |text| && PairsAhead(bits, text, p, n)
    ensures bits & 1 == 1 <==> PairAt(text, p)
    ensures PairsAhead(bits >> 2, text, p + 2, n - 1)
  {
    hide Bit, PairAt;
    LowBit(bits);
    assert Bit(bits, 2 * 0) <==> PairAt(text, p + 2 * 0);
    forall k: nat | k < n - 1 ensures Bit(bits >> 2, 2 * k) <==> PairAt(text, p + 2 + 2 * k) {
      ShrTwice(bits, 2 * k);
      assert Bit(bits, 2 * (k + 1)) <==> PairAt(text, p + 2 * (k + 1));
    }
  }

  lemma BlockPairs(mp: bv64, z0: bv64, z1: bv64, text: Word, i: nat)
    requires i + 65 <= |text|
    requires IsMask(mp, Lanes(PrintableByte, text[i..i + 64]))
    requires IsMask(z0, Lanes(ZeroByte, text[i..i + 64]))
    requires IsMask(z1, Lanes(ZeroByte, text[i + 1..i + 65]))
    ensures PairsAhead(EvenPairs(mp, NextZeroMask(z0, z1)), text, i, 32)
    ensures PairsAhead(OddPairs(mp, NextZeroMask(z0, z1)), text, i + 1, 32)
  {
    hide Bit, NextZeroMask, EvenPairs, OddPairs;
    var s1 := NextZeroMask(z0, z1);
    forall j: nat | j < 64 ensures (Bit(mp, j) && Bit(s1, j)) <==> PairAt(text, i + j) {
      assert text[i..i + 64][j] == text[i + j] && text[i + 1..i + 65][j] == text[i + j + 1];
      if j < 63 { assert text[i..i + 64][j + 1] == text[i + 1..i + 65][j]; }
      NextZeroAt(z0, z1, j);
    }
    forall k: nat | k < 32
      ensures Bit(EvenPairs(mp, s1), 2 * k) <==> PairAt(text, i + 2 * k)
      ensures Bit(OddPairs(mp, s1), 2 * k) <==> PairAt(text, i + 1 + 2 * k)
    {
      PairsAt(mp, s1, k);
      assert (Bit(mp, 2 * k) && Bit(s1, 2 * k)) <==> PairAt(text, i + 2 * k);
      assert (Bit(mp, 2 * k + 1) && Bit(s1, 2 * k + 1)) <==> PairAt(text, i + (2 * k + 1));
    }
  }

  // ---------------------------------------------------------------- the worker

  /** The filter of the tool: the minimum counts characters of two bytes. */
  function ByteFilter(f: Filter): Filter {
    f.(minLen := 2 * f.minLen)
  }

  /** One pair start in one lane. */
  method PairStep(text: Word, f: Filter, p: nat, isPair: bool, inLane0: bool, runStart0: nat, out0: seq<Rec>)
    returns (inLane: bool, runStart: nat, out: seq<Rec>)
    requires p + 1 < |text| && isPair == PairAt(text, p)
    ensures AsState(inLane, runStart) == Advance(text, p, AsState(inLane0, runStart0))
    ensures out == out0 + EmitAll(text, f, Closes(text, p, AsState(inLane0, runStart0)))
  {
    inLane, runStart, out := inLane0, runStart0, out0;
    if isPair {
      if !inLane { inLane, runStart := true, p; }
    } else if inLane {
      EmitOne(text, f, Strings.Run(runStart, p));
      out := out + Emit(text, f, Strings.Run(runStart, p));
      inLane := false;
    }
  }

  lemma EmitOne(text: Word, f: Filter, r: Strings.Run)
    ensures EmitAll(text, f, [r]) == Emit(text, f, r)
  {
    assert EmitAll(text, f, [r]) == Emit(text, f, r) + EmitAll(text, f, [r][1..]);
  }

  /** The records of the pair starts i, ..., q-1. */
  ghost function PairRecs(text: Word, f: Filter, i: nat, q: nat, cur: RunState, oth: RunState): seq<Rec>
    requires i <= q && (i < q ==> q < |text|)
  {
    EmitAll(text, f, PairRuns(text, i, q, cur, oth))
  }

  /** Two pair starts, one in each lane. */
  lemma PairRecsTwice(text: Word, f: Filter, p: nat, q: nat, cur: RunState, oth: RunState)
    requires p + 2 <= q < |text|
    ensures PairRecs(text, f, p, q, cur, oth) ==
            (EmitAll(text, f, Closes(text, p, cur)) + EmitAll(text, f, Closes(text, p + 1, oth))) +
            PairRecs(text, f, p + 2, q, Advance(text, p, cur), Advance(text, p + 1, oth))
    ensures PairEnd(text, p, q, cur, oth) == PairEnd(text, p + 2, q, Advance(text, p, cur), Advance(text, p + 1, oth))
  {
    hide Closes, Advance, EmitAll;
    var c, d := Closes(text, p, cur), Closes(text, p + 1, oth);
    var rest := PairRuns(text, p + 2, q, Advance(text, p, cur), Advance(text, p + 1, oth));
    assert PairRuns(text, p + 1, q, oth, Advance(text, p, cur)) == d + rest;
    EmitAllConcat(text, f, c, d + rest);
    EmitAllConcat(text, f, d, rest);
  }

  lemma Regroup(out: seq<Rec>, c: seq<Rec>, d: seq<Rec>, rest: seq<Rec>)
    ensures ((out + c) + d) + rest == out + ((c + d) + rest)
  {
  }

  method UnicodeBlock(text: Word, i: nat, f: Filter, isa: Isa, in0a: bool, rs0a: nat, in1a: bool, rs1a: nat,
        outa: seq<Rec>)
    returns (in0: bool, rs0: nat, in1: bool, rs1: nat, out: seq<Rec>)
    requires i + 65 <= |text|
    ensures out == outa + PairRecs(text, f, i, i + 64, AsState(in0a, rs0a), AsState(in1a, rs1a))
    ensures (AsState(in0, rs0), AsState(in1, rs1)) == PairEnd(text, i, i + 64, AsState(in0a, rs0a), AsState(in1a, rs1a))
  {
    hide PairRecs, PairEnd, Advance, Closes, PairAt, AsState, PairsAhead, IsMask, EmitAll, NextZeroMask, EvenPairs,
      OddPairs, MoveMask;
    in0, rs0, in1, rs1, out := in0a, rs0a, in1a, rs1a, outa;
    var mp := Mask64(PrintableByte, text[i..i + 64], isa);
    var z0 := Mask64(ZeroByte, text[i..i + 64], isa);
    var z1 := Mask64(ZeroByte, text[i + 1..i + 65], isa);
    BlockPairs(mp, z0, z1, text, i);
    var b0 := EvenPairs(mp, NextZeroMask(z0, z1));
    var b1 := OddPairs(mp, NextZeroMask(z0, z1));
    ghost var q := i + 64;
    ghost var goal := outa + PairRecs(text, f, i, q, AsState(in0, rs0), AsState(in1, rs1));
    ghost var final := PairEnd(text, i, q, AsState(in0, rs0), AsState(in1, rs1));
    for k := 0 to 32
      invariant PairsAhead(b0, text, i + 2 * k, 32 - k) && PairsAhead(b1, text, i + 1 + 2 * k, 32 - k)
      invariant out + PairRecs(text, f, i + 2 * k, q, AsState(in0, rs0), AsState(in1, rs1)) == goal
      invariant PairEnd(text, i + 2 * k, q, AsState(in0, rs0), AsState(in1, rs1)) == final
    {
      ghost var p, s0, s1, before := i + 2 * k, AsState(in0, rs0), AsState(in1, rs1), out;
      PairsAheadNext(b0, text, p, 32 - k);
      PairsAheadNext(b1, text, p + 1, 32 - k);
      PairRecsTwice(text, f, p, q, s0, s1);
      in0, rs0, out := PairStep(text, f, i + 2 * k, b0 & 1 == 1, in0, rs0, out);
      in1, rs1, out := PairStep(text, f, i + 2 * k + 1, b1 & 1 == 1, in1, rs1, out);
      Regroup(before, EmitAll(text, f, Closes(text, p, s0)), EmitAll(text, f, Closes(text, p + 1, s1)),
              PairRecs(text, f, p + 2, q, AsState(in0, rs0), AsState(in1, rs1)));
      b0, b1 := b0 >> 2, b1 >> 2;
    }
    PairRecsDone(text, f, q, AsState(in0, rs0), AsState(in1, rs1));
  }

  lemma PairRecsDone(text: Word, f: Filter, q: nat, cur: RunState, oth: RunState)
    ensures PairRecs(text, f, q, q, cur, oth) == [] && PairEnd(text, q, q, cur, oth) == (cur, oth)
  {
  }

  lemma TailStartStep(b: nat, e: nat)
    requires b + 65 <= e
    ensures TailStart(b, e) == TailStart(b + 64, e)
  {
    var x := e - 1 - b;
    assert x / 64 == (x - 64) / 64 + 1;
  }

  /** The records of the pair starts i, ..., q-1 of the tail. */
  ghost function TailRecs(text: Word, f: Filter, i: nat, q: nat, even: RunState, odd: RunState): seq<Rec>
    requires i <= q && (i < q ==> q < |text|)
  {
    EmitAll(text, f, ScalarRuns(text, i, q, even, odd))
  }

  lemma TailRecsStep(text: Word, f: Filter, i: nat, q: nat, even: RunState, odd: RunState)
    requires i < q < |text|
    ensures i % 2 == 0 ==>
              TailRecs(text, f, i, q, even, odd) ==
              EmitAll(text, f, Closes(text, i, even)) + TailRecs(text, f, i + 1, q, Advance(text, i, even), odd)
    ensures i % 2 == 1 ==>
              TailRecs(text, f, i, q, even, odd) ==
              EmitAll(text, f, Closes(text, i, odd)) + TailRecs(text, f, i + 1, q, even, Advance(text, i, odd))
  {
    hide EmitAll, Closes, Advance;
    if i % 2 == 0 {
      EmitAllConcat(text, f, Closes(text, i, even), ScalarRuns(text, i + 1, q, Advance(text, i, even), odd));
    } else {
      EmitAllConcat(text, f, Closes(text, i, odd), ScalarRuns(text, i + 1, q, even, Advance(text, i, odd)));
    }
  }

  lemma Shift(out: seq<Rec>, c: seq<Rec>, rest: seq<Rec>)
    ensures (out + c) + rest == out + (c + rest)
  {
  }

  /** The tail loop, where the parity of the offset picks the lane. */
  method UnicodeTail(text: Word, m: nat, e: nat, f: Filter, in0a: bool, rs0a: nat, in1a: bool, rs1a: nat,
        outa: seq<Rec>)
    returns (in0: bool, rs0: nat, in1: bool, rs1: nat, out: seq<Rec>)
    requires m <= e <= |text|
    ensures out == outa + TailRecs(text, f, m, LastPair(m, e), AsState(in0a, rs0a), AsState(in1a, rs1a))
    ensures (AsState(in0, rs0), AsState(in1, rs1)) ==
            ScalarEnd(text, m, LastPair(m, e), AsState(in0a, rs0a), AsState(in1a, rs1a))
  {
    hide TailRecs, Advance, Closes, AsState, EmitAll;
    in0, rs0, in1, rs1, out := in0a, rs0a, in1a, rs1a, outa;
    var i := m;
    ghost var q := LastPair(m, e);
    ghost var goal := outa + TailRecs(text, f, i, q, AsState(in0, rs0), AsState(in1, rs1));
    ghost var final := ScalarEnd(text, i, q, AsState(in0, rs0), AsState(in1, rs1));
    while i + 1 < e
      invariant m <= i <= q
      invariant out + TailRecs(text, f, i, q, AsState(in0, rs0), AsState(in1, rs1)) == goal
      invariant ScalarEnd(text, i, q, AsState(in0, rs0), AsState(in1, rs1)) == final
    {
      ghost var s0, s1, before := AsState(in0, rs0), AsState(in1, rs1), out;
      TailRecsStep(text, f, i, q, s0, s1);
      var isPair := text[i] >= 0x20 && text[i] <= 0x7E && text[i + 1] == 0;
      if i % 2 == 1 {
        in1, rs1, out := PairStep(text, f, i, isPair, in1, rs1, out);
        Shift(before, EmitAll(text, f, Closes(text, i, s1)), TailRecs(text, f, i + 1, q, s0, AsState(in1, rs1)));
      } else {
        in0, rs0, out := PairStep(text, f, i, isPair, in0, rs0, out);
        Shift(before, EmitAll(text, f, Closes(text, i, s0)), TailRecs(text, f, i + 1, q, AsState(in0, rs0), s1));
      }
      i := i + 1;
    }
    TailRecsDone(text, f, q, AsState(in0, rs0), AsState(in1, rs1));
  }

  lemma TailRecsDone(text: Word, f: Filter, q: nat, even: RunState, odd: RunState)
    ensures TailRecs(text, f, q, q, even, odd) == [] && ScalarEnd(text, q, q, even, odd) == (even, odd)
  {
  }

  /** The records of a chunk come in three parts. */
  lemma CodedRecs(text: Word, f: Filter, b: nat, e: nat)
    requires b <= e <= |text|
    ensures var m, q := TailStart(b, e), LastPair(b, e);
            var (even, odd) := PairEnd(text, b, m, Outside, Outside);
            var (even', odd') := ScalarEnd(text, m, q, even, odd);
            EmitAll(text, f, CodedChunk(text, b, e)) ==
            PairRecs(text, f, b, m, Outside, Outside) + TailRecs(text, f, m, q, even, odd) +
            EmitAll(text, f, OpenRuns(text, e, even', odd'))
  {
    hide PairRuns, PairEnd, ScalarRuns, ScalarEnd, OpenRuns, EmitAll;
    var m, q := TailStart(b, e), LastPair(b, e);
    var (even, odd) := PairEnd(text, b, m, Outside, Outside);
    var (even', odd') := ScalarEnd(text, m, q, even, odd);
    EmitAllConcat(text, f, PairRuns(text, b, m, Outside, Outside) + ScalarRuns(text, m, q, even, odd),
      OpenRuns(text, e, even', odd'));
    EmitAllConcat(text, f, PairRuns(text, b, m, Outside, Outside), ScalarRuns(text, m, q, even, odd));
  }

  lemma PairRecsBlock(text: Word, f: Filter, i: nat, q: nat, cur: RunState, oth: RunState)
    requires i + 64 <= q < |text|
    ensures var z := PairEnd(text, i, i + 64, cur, oth);
            && PairRecs(text, f, i, q, cur, oth) ==
              PairRecs(text, f, i, i + 64, cur, oth) + PairRecs(text, f, i + 64, q, z.0, z.1)
            && PairEnd(text, i, q, cur, oth) == PairEnd(text, i + 64, q, z.0, z.1)
  {
    hide PairRuns, PairEnd, EmitAll;
    var z := PairEnd(text, i, i + 64, cur, oth);
    PairsSplit(text, i, i + 64, q, cur, oth);
    EmitAllConcat(text, f, PairRuns(text, i, i + 64, cur, oth), PairRuns(text, i + 64, q, z.0, z.1));
  }

  /** The block loop of a chunk, up to the start of the tail. */
  method UnicodeBlocks(text: Word, b: nat, e: nat, f: Filter, isa: Isa, outa: seq<Rec>)
    returns (i: nat, in0: bool, rs0: nat, in1: bool, rs1: nat, out: seq<Rec>)
    requires b <= e <= |text|
    ensures i == TailStart(b, e)
    ensures out == outa + PairRecs(text, f, b, i, Outside, Outside)
    ensures (AsState(in0, rs0), AsState(in1, rs1)) == PairEnd(text, b, i, Outside, Outside)
  {
    hide PairRecs, PairEnd;
    in0, rs0, in1, rs1, out := false, 0, false, 0, outa;
    i := b;
    ghost var m := TailStart(b, e);
    while i + 65 <= e
      invariant b <= i <= e && TailStart(i, e) == m
      invariant out + PairRecs(text, f, i, m, AsState(in0, rs0), AsState(in1, rs1)) ==
                outa + PairRecs(text, f, b, m, Outside, Outside)
      invariant PairEnd(text, i, m, AsState(in0, rs0), AsState(in1, rs1)) == PairEnd(text, b, m, Outside, Outside)
    {
      TailStartStep(i, e);
      ghost var before, s0, s1 := out, AsState(in0, rs0), AsState(in1, rs1);
      PairRecsBlock(text, f, i, m, s0, s1);
      in0, rs0, in1, rs1, out := UnicodeBlock(text, i, f, isa, in0, rs0, in1, rs1, out);
      Shift(before, PairRecs(text, f, i, i + 64, s0, s1),
        PairRecs(text, f, i + 64, m, AsState(in0, rs0), AsState(in1, rs1)));
      i := i + 64;
    }
    PairRecsDone(text, f, m, AsState(in0, rs0), AsState(in1, rs1));
  }

  /** One chunk: blocks, tail, and the lanes still open at the end of the file. */
  method UnicodeChunk(text: Word, b: nat, e: nat, f: Filter, isa: Isa, outa: seq<Rec>) returns (out: seq<Rec>)
    requires b <= e <= |text|
    ensures out == outa + EmitAll(text, ByteFilter(f), CodedChunk(text, b, e))
  {
    hide PairRecs, PairEnd, TailRecs, ScalarEnd, CodedChunk, EmitAll, OpenRuns, Emit;
    ghost var g := ByteFilter(f);
    CodedRecs(text, g, b, e);
    var m, in0, rs0, in1, rs1;
    m, in0, rs0, in1, rs1, out := UnicodeBlocks(text, b, e, ByteFilter(f), isa, outa);
    ghost var blocks := PairRecs(text, g, b, m, Outside, Outside);
    assert LastPair(m, e) == LastPair(b, e);
    ghost var tail := TailRecs(text, g, m, LastPair(b, e), AsState(in0, rs0), AsState(in1, rs1));
    in0, rs0, in1, rs1, out := UnicodeTail(text, m, e, ByteFilter(f), in0, rs0, in1, rs1, out);
    ghost var open := OpenRuns(text, e, AsState(in0, rs0), AsState(in1, rs1));
    OpenRecs(text, g, e, AsState(in0, rs0), AsState(in1, rs1));
    ghost var base := out;
    if in0 && e == |text| { out := out + Emit(text, ByteFilter(f), Strings.Run(rs0, e)); }
    if in1 && e == |text| { out := out + Emit(text, ByteFilter(f), Strings.Run(rs1, e)); }
    assert out == base + EmitAll(text, g, open);
    Regroup(outa, blocks, tail, EmitAll(text, g, open));
  }

  lemma OpenRecs(text: Word, f: Filter, e: nat, even: RunState, odd: RunState)
    ensures EmitAll(text, f, OpenRuns(text, e, even, odd)) ==
            (if even.Inside? && e == |text| then Emit(text, f, Strings.Run(even.start, e)) else []) +
            (if odd.Inside? && e == |text| then Emit(text, f, Strings.Run(odd.start, e)) else [])
  {
    EmitAllConcat(text, f, FinalRun(text, e, even), FinalRun(text, e, odd));
    if even.Inside? { EmitOne(text, f, Strings.Run(even.start, e)); }
    if odd.Inside? { EmitOne(text, f, Strings.Run(odd.start, e)); }
  }

  /** The records of one chunk. */
  ghost function UnicodeRecs(text: Word, f: Filter): (nat, nat) -> seq<Rec> {
    (b: nat, e: nat) => if b <= e <= |text| then EmitAll(text, ByteFilter(f), CodedChunk(text, b, e)) else []
  }

  /** What a record means: a run of the chunk of at least the minimum number of two-byte characters and,
      when a maximal entropy is given, of no higher entropy. */
  lemma UnicodeRecsExact(text: Word, f: Filter, b: nat, e: nat, x: Rec)
    requires b <= e <= |text|
    ensures x in UnicodeRecs(text, f)(b, e) <==>
              exists r | r in CodedChunk(text, b, e) ::
                && r.start < r.end <= |text| && r.end - r.start >= 2 * f.minLen
                && (f.maxEntropy < 0.0 || f.entropy(text[r.start..r.end]) <= f.maxEntropy)
                && x == Rec(r.start, (r.end - r.start) % U32)
  {
    hide CodedChunk, EmitAll;
    CodedStarts(text, b, e);
    EmitAllIs(text, ByteFilter(f), CodedChunk(text, b, e), x);
  }

  /** A worker: the records of the chunks it was handed, whatever the other workers took. */
  method UnicodeWorker(alloc: Allocator, f: Filter) returns (out: seq<Rec>, ghost mine: seq<nat>)
    requires alloc.chunkSize > 0
    modifies alloc`next
    ensures OwnOffsets(alloc.chunkSize, old(alloc.next), mine) && mine != [] && mine[|mine| - 1] >= |alloc.text|
    ensures out == Works(ChunkJob(alloc.text, alloc.chunkSize, alloc.lookahead, UnicodeRecs(alloc.text, f)), mine)
  {
    hide CodedChunk, EmitAll, FindByte, LeftEdge, RightEdge, Works, EmptyChunks;
    out, mine := [], [];
    ghost var text, C, L, chunk := alloc.text, alloc.chunkSize, alloc.lookahead, UnicodeRecs(alloc.text, f);
    ghost var job := ChunkJob(text, C, L, chunk);
    UnicodeEmpty(text, f);
    WorksNothing(job);
    while true
      invariant old(alloc.next) <= alloc.next && alloc.next % C == old(alloc.next) % C
      invariant OwnOffsets(C, old(alloc.next), mine) && forall i | 0 <= i < |mine| :: mine[i] + C <= alloc.next
      invariant out == Works(job, mine)
      decreases |text| - alloc.next
    {
      ghost var from := alloc.next;
      var ok, begin, end, taken := alloc.GetNext();
      OwnAppend(C, old(alloc.next), mine, from, taken);
      NextWork(text, C, L, chunk, mine, taken);
      mine := mine + taken;
      if !ok { break; }
      out := UnicodeChunk(alloc.text, begin, end, f, alloc.isa, out);
    }
  }

  lemma UnicodeEmpty(text: Word, f: Filter)
    ensures EmptyChunks(text, UnicodeRecs(text, f))
  {
  }

  // ---------------------------------------------------------------- distinct starts

  /** A start that a lane holds at `i`, or that is still to come. */
  ghost predicate KnownStart(i: nat, cur: RunState, oth: RunState, x: nat) {
    x >= i || cur == Inside(x) || oth == Inside(x)
  }

  /** The open lanes began before `i`, at different places. */
  ghost predicate StartsApart(b: nat, i: nat, cur: RunState, oth: RunState) {
    && (cur.Inside? ==> b <= cur.start < i)
    && (oth.Inside? ==> b <= oth.start < i)
    && (cur.Inside? ==> cur != oth)
  }

  ghost predicate DistinctStarts(runs: seq<Strings.Run>) {
    forall i, j | 0 <= i < j < |runs| :: runs[i].start != runs[j].start
  }

  lemma DistinctConcat(x: seq<Strings.Run>, y: seq<Strings.Run>)
    requires DistinctStarts(x) && DistinctStarts(y)
    requires forall r, t | r in x && t in y :: r.start != t.start
    ensures DistinctStarts(x + y)
  {
    var all := x + y;
    forall i, j | 0 <= i < j < |all| ensures all[i].start != all[j].start {
      if i < |x| <= j { assert all[i] in x && all[j] in y; }
    }
  }

  /** Every run that a stretch closes has a start of its own, inside the stretch or taken from a lane that
      was open before it; the lanes it leaves open, `x` and `y`, have starts of their own as well. */
  ghost predicate StartsOk(b: nat, i: nat, q: nat, cur: RunState, oth: RunState, runs: seq<Strings.Run>, x: RunState,
                           y: RunState)
  {
    && DistinctStarts(runs)
    && (forall r | r in runs :: b <= r.start < r.end < q && KnownStart(i, cur, oth, r.start))
    && (forall r | r in runs :: !KnownStart(q, x, y, r.start))
    && StartsApart(b, q, x, y)
    && (x.Inside? ==> KnownStart(i, cur, oth, x.start))
    && (y.Inside? ==> KnownStart(i, cur, oth, y.start))
  }

  /** A pair start that closes no lane. */
  lemma StartsPass(text: Word, b: nat, i: nat, q: nat, cur: RunState, oth: RunState, rest: seq<Strings.Run>,
                   x: RunState, y: RunState)
    requires b <= i && i + 1 < |text| && StartsApart(b, i, cur, oth) && Closes(text, i, cur) == []
    requires StartsOk(b, i + 1, q, oth, Advance(text, i, cur), rest, x, y)
    ensures StartsOk(b, i, q, cur, oth, rest, x, y)
  {
    hide PairAt, DistinctStarts;
  }

  lemma StartsClose(text: Word, b: nat, i: nat, q: nat, cur: RunState, oth: RunState, rest: seq<Strings.Run>,
                    x: RunState, y: RunState)
    requires b <= i < q && i + 1 < |text| && StartsApart(b, i, cur, oth) && Closes(text, i, cur) != []
    requires StartsOk(b, i + 1, q, oth, Advance(text, i, cur), rest, x, y)
    ensures StartsOk(b, i, q, cur, oth, Closes(text, i, cur) + rest, x, y)
  {
    hide Closes, Advance, DistinctStarts;
    ClosesRun(text, i, cur);
    var r := Strings.Run(cur.start, i);
    OneStart(r);
    assert forall t | t in [r] :: t == r;
    DistinctConcat([r], rest);
  }

  lemma ClosesRun(text: Word, i: nat, cur: RunState)
    requires i + 1 < |text| && Closes(text, i, cur) != []
    ensures cur.Inside? && Closes(text, i, cur) == [Strings.Run(cur.start, i)] && Advance(text, i, cur) == Outside
  {
  }

  lemma StartsMove(text: Word, b: nat, i: nat, cur: RunState, oth: RunState)
    requires b <= i && i + 1 < |text| && StartsApart(b, i, cur, oth)
    ensures StartsApart(b, i + 1, oth, Advance(text, i, cur))
  {
    hide PairAt;
  }

  /** Whichever lane is which. */
  lemma {:induction false} PairStarts(text: Word, b: nat, i: nat, q: nat, cur: RunState, oth: RunState)
    requires b <= i <= q && (i < q ==> q < |text|) && StartsApart(b, i, cur, oth)
    ensures var z := PairEnd(text, i, q, cur, oth);
            StartsOk(b, i, q, cur, oth, PairRuns(text, i, q, cur, oth), z.0, z.1)
    decreases q - i
  {
    if i < q {
      hide StartsOk, StartsApart, Advance, Closes;
      var next, closed := Advance(text, i, cur), Closes(text, i, cur);
      StartsMove(text, b, i, cur, oth);
      PairStarts(text, b, i + 1, q, oth, next);
      var rest, z := PairRuns(text, i + 1, q, oth, next), PairEnd(text, i + 1, q, oth, next);
      if closed == [] {
        assert closed + rest == rest;
        StartsPass(text, b, i, q, cur, oth, rest, z.0, z.1);
      } else {
        StartsClose(text, b, i, q, cur, oth, rest, z.0, z.1);
      }
    } else {
      NoStarts();
    }
  }

  lemma NoStarts()
    ensures DistinctStarts([])
  {
  }

  lemma OneStart(r: Strings.Run)
    ensures DistinctStarts([r])
  {
  }

  lemma OpenStarts(text: Word, b: nat, q: nat, e: nat, even: RunState, odd: RunState)
    requires b <= q <= e <= |text| && StartsApart(b, q, even, odd)
    ensures DistinctStarts(OpenRuns(text, e, even, odd))
    ensures forall r | r in OpenRuns(text, e, even, odd) ::
              b <= r.start < q && r.end == e == |text| && (even == Inside(r.start) || odd == Inside(r.start))
  {
  }

  /** The scalar scan of a stretch is two lanes in turn, wherever it starts. */
  lemma TailStarts(text: Word, b: nat, m: nat, q: nat, even: RunState, odd: RunState)
    requires b <= m <= q && (m < q ==> q < |text|) && StartsApart(b, m, even, odd)
    ensures var z := ScalarEnd(text, m, q, even, odd);
            StartsOk(b, m, q, even, odd, ScalarRuns(text, m, q, even, odd), z.0, z.1)
  {
    hide PairRuns, PairEnd, ScalarRuns, ScalarEnd, DistinctStarts;
    var (cur, oth) := if m % 2 == 0 then (even, odd) else (odd, even);
    ScalarIsPairs(text, m, q, even, odd);
    PairStarts(text, b, m, q, cur, oth);
  }

  /** No two records of a chunk have the same start, wherever the chunk begins. */
  lemma CodedStarts(text: Word, b: nat, e: nat)
    requires b <= e <= |text|
    ensures DistinctStarts(CodedChunk(text, b, e))
    ensures forall r | r in CodedChunk(text, b, e) ::
              b <= r.start < r.end <= e && r.start < LastPair(b, e) && (r.end == e ==> e == |text|)
  {
    hide PairRuns, PairEnd, ScalarRuns, ScalarEnd, OpenRuns, DistinctStarts;
    var m, q := TailStart(b, e), LastPair(b, e);
    PairStarts(text, b, b, m, Outside, Outside);
    var (even, odd) := PairEnd(text, b, m, Outside, Outside);
    TailStarts(text, b, m, q, even, odd);
    var (even', odd') := ScalarEnd(text, m, q, even, odd);
    OpenStarts(text, b, q, e, even', odd');
    var head, tail := PairRuns(text, b, m, Outside, Outside), ScalarRuns(text, m, q, even, odd);
    var open := OpenRuns(text, e, even', odd');
    DistinctConcat(head, tail);
    DistinctConcat(head + tail, open);
  }

  // ---------------------------------------------------------------- what the coded lengths are

  /** On an aligned chunk the lengths are those of the scalar scan. */
  lemma CodedLengths(text: Word, b: nat, e: nat, r: Strings.Run)
    requires b <= e <= |text| && Aligned(b, e) && r in CodedChunk(text, b, e)
    ensures r.end < e ==> (r.end - r.start) % 2 == 0
    ensures r.end == e ==> e == |text| && b + 2 <= e && ((r.end - r.start) % 2 == 0 <==> PairAt(text, e - 2))
  {
    hide CodedChunk, ScalarChunk;
    AlignedIsScalar(text, b, e);
    LengthsEven(text, b, e, r);
  }

  /** Two neighbouring characters of the even lane, the second just before the tail of a chunk with
      an odd start: the tail takes the lane for the odd one and closes it one byte too early. */
  lemma OddClosed(text: Word, b: nat, e: nat)
    requires b <= e <= |text| && !Aligned(b, e)
    requires var m := TailStart(b, e);
             forall p | b <= p < e :: text[p] == if p == m - 3 || p == m - 1 then 0x41 else 0
    ensures var m := TailStart(b, e); m < e && Strings.Run(m - 3, m) in CodedChunk(text, b, e)
  {
    UnalignedTail(b, e);
    var m, q := TailStart(b, e), LastPair(b, e);
    LaneBeforeTail(text, b, m);
    var r := Strings.Run(m - 3, m);
    assert Closes(text, m, Inside(m - 3)) == [r];
    assert ScalarRuns(text, m, q, Outside, Inside(m - 3)) ==
           [r] + ScalarRuns(text, m + 1, q, Outside, Advance(text, m, Inside(m - 3)));
  }

  lemma LaneBeforeTail(text: Word, b: nat, m: nat)
    requires b + 3 <= m < |text|
    requires PairAt(text, m - 3) && !PairAt(text, m - 2) && PairAt(text, m - 1)
    requires forall p | b <= p < m - 3 :: !PairAt(text, p)
    ensures PairRuns(text, b, m, Outside, Outside) == []
    ensures PairEnd(text, b, m, Outside, Outside) == (Outside, Inside(m - 3))
  {
    hide PairAt;
    NoPairs(text, b, m - 3);
    PairsSplit(text, b, m - 3, m, Outside, Outside);
    var st := Inside(m - 3);
    assert Advance(text, m - 3, Outside) == st && Advance(text, m - 2, Outside) == Outside &&
           Advance(text, m - 1, st) == st;
    assert PairEnd(text, m - 3, m, Outside, Outside) == PairEnd(text, m - 2, m, Outside, st) ==
           PairEnd(text, m - 1, m, st, Outside) == PairEnd(text, m, m, Outside, st);
    assert PairRuns(text, m - 3, m, Outside, Outside) == PairRuns(text, m - 2, m, Outside, st) ==
           PairRuns(text, m - 1, m, st, Outside) == PairRuns(text, m, m, Outside, st);
  }

  ghost predicate EvenLength(r: Strings.Run) {
    r.start <= r.end && (r.end - r.start) % 2 == 0
  }

  /** Records that a failing pair closes have even lengths on all contents exactly when the chunk is
      aligned; a content with an odd one has a line starting with the chunk. */
  lemma ClosedEvenExact(b: nat, e: nat, total: nat)
    requires b <= e <= total
    ensures Aligned(b, e) ==>
              forall text: Word, r | |text| == total && r in CodedChunk(text, b, e) && r.end < e :: EvenLength(r)
    ensures (forall text: Word, r |
                |text| == total && LineStart(text, b) && r in CodedChunk(text, b, e) && r.end < e :: EvenLength(r)) ==>
              Aligned(b, e)
  {
    hide CodedChunk;
    if Aligned(b, e) {
      forall text: Word, r | |text| == total && r in CodedChunk(text, b, e) && r.end < e ensures EvenLength(r) {
        CodedLengths(text, b, e, r);
        CodedStarts(text, b, e);
      }
    } else {
      UnalignedTail(b, e);
      var m := TailStart(b, e);
      var text := Marked(total, b, (p: int) => p == m - 3 || p == m - 1);
      OddClosed(text, b, e);
      assert !EvenLength(Strings.Run(m - 3, m));
    }
  }

  /** One character and one further byte at the end of the file: a record of three bytes. */
  lemma OddAtEnd(text: Word, b: nat, e: nat)
    requires b + 3 <= e == |text| && Aligned(b, e)
    requires forall p | b <= p < e :: text[p] == if p == e - 3 then 0x41 else 0
    ensures Strings.Run(e - 3, e) in CodedChunk(text, b, e)
  {
    assert forall p | b <= p < e - 1 :: PairAt(text, p) <==> p == e - 3;
    LastOpen(text, b, e);
  }

  /** A last character that a further byte follows leaves its lane open. */
  lemma LastOpen(text: Word, b: nat, e: nat)
    requires b + 3 <= e == |text| && Aligned(b, e)
    requires forall p | b <= p < e - 1 :: PairAt(text, p) <==> p == e - 3
    ensures Strings.Run(e - 3, e) in CodedChunk(text, b, e)
  {
    hide PairAt, PairRuns, PairEnd, ScalarChunk, CodedChunk;
    AlignedIsScalar(text, b, e);
    LastCharacter(text, b, e - 1, e - 1);
    var cur, oth := ScalarParts(text, b, e);
    assert OpenRuns(text, e, Inside(e - 3), Outside) == [Strings.Run(e - 3, e)];
  }

  /** The smallest file with an odd record: a character followed by one more byte. */
  lemma OddExample()
    ensures Strings.Run(0, 3) in CodedChunk([0x41, 0, 0x42], 0, 3)
  {
    LastOpen([0x41, 0, 0x42], 0, 3);
  }

  /** All records of a chunk have even lengths on all contents exactly when the chunk ends before the
      file and is aligned, or ends with it and is shorter than three bytes; a content with an odd one
      has a line starting with the chunk. */
  lemma LengthsEvenExact(b: nat, e: nat, total: nat)
    requires b <= e <= total
    ensures (if e < total then Aligned(b, e) else e - b < 3) ==>
              forall text: Word, r | |text| == total && r in CodedChunk(text, b, e) :: EvenLength(r)
    ensures (forall text: Word, r | |text| == total && LineStart(text, b) && r in CodedChunk(text, b, e) ::
                EvenLength(r)) ==>
              (if e < total then Aligned(b, e) else e - b < 3)
  {
    hide CodedChunk;
    ClosedEvenExact(b, e, total);
    if e < total || e - b < 3 {
      forall text: Word, r | |text| == total && r in CodedChunk(text, b, e) && Aligned(b, e) ensures EvenLength(r) {
        CodedLengths(text, b, e, r);
        CodedStarts(text, b, e);
      }
    } else if Aligned(b, e) {
      var text := Marked(total, b, (p: int) => p == e - 3);
      OddAtEnd(text, b, e);
      assert !EvenLength(Strings.Run(e - 3, e));
    }
  }

  /** Every even position of the tail holds a character and no odd one does: the lane that was taken
      for the even one stays open. */
  lemma {:induction false} WrongLaneStays(text: Word, i: nat, q: nat, s: nat)
    requires i <= q && (i < q ==> q < |text|)
    requires forall p | i <= p < q :: PairAt(text, p) <==> p % 2 == 0
    ensures ScalarEnd(text, i, q, Inside(s), Outside) == (Inside(s), Outside)
    decreases q - i
  {
    hide PairAt;
    if i < q { WrongLaneStays(text, i + 1, q, s); }
  }

  lemma OddOpen(text: Word, b: nat, e: nat)
    requires b <= e == |text| && !Aligned(b, e)
    requires var m := TailStart(b, e);
             forall p | b <= p < e :: text[p] == if p == m - 2 || (p > m && p % 2 == 0) then 0x41 else 0
    ensures Strings.Run(TailStart(b, e) - 2, e) in CodedChunk(text, b, e)
    ensures PairAt(text, e - 2) <==> e % 2 == 0
  {
    UnalignedTail(b, e);
    var m := TailStart(b, e);
    assert forall p | b <= p < m :: PairAt(text, p) <==> p == m - 2;
    assert forall p | m <= p < e - 1 :: PairAt(text, p) <==> p % 2 == 0;
    WrongOpen(text, b, e);
  }

  lemma WrongOpen(text: Word, b: nat, e: nat)
    requires b <= e == |text| && !Aligned(b, e)
    requires var m := TailStart(b, e); forall p | b <= p < m && p + 1 < e :: PairAt(text, p) <==> p == m - 2
    requires forall p | TailStart(b, e) <= p < e - 1 :: PairAt(text, p) <==> p % 2 == 0
    ensures Strings.Run(TailStart(b, e) - 2, e) in CodedChunk(text, b, e)
  {
    hide PairAt, PairRuns, PairEnd, ScalarRuns, ScalarEnd;
    UnalignedTail(b, e);
    var m, q := TailStart(b, e), LastPair(b, e);
    LastCharacter(text, b, m, m);
    WrongLaneStays(text, m, q, m - 2);
    assert OpenRuns(text, e, Inside(m - 2), Outside) == [Strings.Run(m - 2, e)];
  }

  /** The length of a record that the end of the file closes has the parity the last two bytes tell,
      on all contents, exactly when the chunk is aligned; a content with another parity has a line
      starting with the chunk. */
  lemma OpenLengthExact(b: nat, e: nat)
    requires b <= e
    ensures Aligned(b, e) ==>
              forall text: Word, r | |text| == e && r in CodedChunk(text, b, e) && r.end == e ::
                b + 2 <= e && (EvenLength(r) <==> PairAt(text, e - 2))
    ensures (forall text: Word, r |
                |text| == e && LineStart(text, b) && r in CodedChunk(text, b, e) && r.end == e ::
                b + 2 <= e && (EvenLength(r) <==> PairAt(text, e - 2))) ==>
              Aligned(b, e)
  {
    hide CodedChunk, PairAt, Aligned, EvenLength;
    if Aligned(b, e) {
      forall text: Word, r | |text| == e && r in CodedChunk(text, b, e) && r.end == e
        ensures b + 2 <= e && (EvenLength(r) <==> PairAt(text, e - 2))
      {
        OpenParity(text, b, e, r);
      }
    } else {
      var text, r := WrongParity(b, e);
    }
  }

  lemma OpenParity(text: Word, b: nat, e: nat, r: Strings.Run)
    requires b <= e == |text| && Aligned(b, e) && r in CodedChunk(text, b, e) && r.end == e
    ensures b + 2 <= e && (EvenLength(r) <==> PairAt(text, e - 2))
  {
    hide CodedChunk, PairAt, Aligned;
    CodedLengths(text, b, e, r);
    CodedStarts(text, b, e);
  }

  /** A file whose end closes a record of the other parity. */
  lemma WrongParity(b: nat, e: nat) returns (text: Word, r: Strings.Run)
    requires b <= e && !Aligned(b, e)
    ensures |text| == e && LineStart(text, b) && r in CodedChunk(text, b, e) && r.end == e
    ensures e >= 2 && !(EvenLength(r) <==> PairAt(text, e - 2))
  {
    hide CodedChunk, PairAt, Aligned, TailStart, LastPair;
    UnalignedTail(b, e);
    var m := TailStart(b, e);
    text := Marked(e, b, (p: int) => p == m - 2 || (p > m && p % 2 == 0));
    OddOpen(text, b, e);
    r := Strings.Run(m - 2, e);
  }

  // ---------------------------------------------------------------- overlap in the coded scan

  /** Two runs share a byte. */
  ghost predicate Overlapping(runs: seq<Strings.Run>) {
    exists r, t | r in runs && t in runs :: r.start < t.start < r.end
  }

  lemma TouchingApart(runs: seq<Strings.Run>)
    requires Touching(runs) && forall r | r in runs :: r.start < r.end
    ensures !Overlapping(runs)
  {
    forall r, t | r in runs && t in runs ensures !(r.start < t.start < r.end) {
      var i :| 0 <= i < |runs| && runs[i] == r;
      var j :| 0 <= j < |runs| && runs[j] == t;
      assert i < j || j <= i;
    }
  }

  /** With both lanes open across the start of the tail, two records overlap. */
  lemma LanesOverlap(text: Word, b: nat, e: nat) returns (r: Strings.Run, t: Strings.Run)
    requires b <= e <= |text| && !Aligned(b, e) && (e == |text| || (e - 1 - b) % 64 >= 3)
    requires var m := TailStart(b, e); forall p | b <= p < e :: text[p] == if p == m - 2 || p == m then 0x41 else 0
    ensures r in CodedChunk(text, b, e) && t in CodedChunk(text, b, e)
    ensures TailStart(b, e) - 2 <= r.start < t.start < r.end && t.start + 2 <= t.end
  {
    UnalignedTail(b, e);
    var m, q := TailStart(b, e), LastPair(b, e);
    LastCharacter(text, b, m, m);
    assert PairAt(text, m) && (m + 1 < q ==> !PairAt(text, m + 1)) && (m + 2 < q ==> !PairAt(text, m + 2));
    hide PairAt, PairRuns, PairEnd, ScalarRuns, ScalarEnd;
    var tail, z := ScalarRuns(text, m, q, Inside(m - 2), Outside), ScalarEnd(text, m, q, Inside(m - 2), Outside);
    assert CodedChunk(text, b, e) == [] + tail + OpenRuns(text, e, z.0, z.1);
    r, t := Strings.Run(m - 2, e), Strings.Run(m, e);
    if q == m + 1 {
      OnePairTail(text, m, Inside(m - 2));
    } else {
      TailOverlap(text, m, q);
      r := Strings.Run(m - 2, m + 1);
      assert tail[0] == r;
      if q > m + 2 {
        t := Strings.Run(m, m + 2);
        assert tail[1] == t;
      }
    }
  }

  lemma OnePairTail(text: Word, m: nat, st: RunState)
    requires m % 2 == 1 && m + 1 < |text| && PairAt(text, m)
    ensures ScalarEnd(text, m, m + 1, st, Outside) == (st, Inside(m))
  {
  }

  lemma TailOverlap(text: Word, m: nat, q: nat)
    requires 2 <= m && m % 2 == 1 && m + 2 <= q < |text|
    requires PairAt(text, m) && !PairAt(text, m + 1) && (m + 2 < q ==> !PairAt(text, m + 2))
    ensures var runs := ScalarRuns(text, m, q, Inside(m - 2), Outside);
            var z := ScalarEnd(text, m, q, Inside(m - 2), Outside);
            && |runs| >= 1 && runs[0] == Strings.Run(m - 2, m + 1)
            && (q == m + 2 ==> z == (Outside, Inside(m)))
            && (q > m + 2 ==> |runs| >= 2 && runs[1] == Strings.Run(m, m + 2))
  {
    hide PairAt;
    var st, nx := Inside(m - 2), Inside(m);
    assert ScalarRuns(text, m, q, st, Outside) == [] + ScalarRuns(text, m + 1, q, st, nx);
    assert ScalarRuns(text, m + 1, q, st, nx) == [Strings.Run(m - 2, m + 1)] + ScalarRuns(text, m + 2, q, Outside, nx);
    assert ScalarEnd(text, m, q, st, Outside) == ScalarEnd(text, m + 1, q, st, nx) ==
           ScalarEnd(text, m + 2, q, Outside, nx);
    if q > m + 2 {
      assert ScalarRuns(text, m + 2, q, Outside, nx) ==
             [Strings.Run(m, m + 2)] + ScalarRuns(text, m + 3, q, Outside, Outside);
    }
  }

  /** A tail of at most two pair starts closes at most one lane, one that was open before it. */
  lemma ShortTail(text: Word, m: nat, q: nat, even: RunState, odd: RunState)
    requires m % 2 == 1 && m <= q <= m + 2 && (m < q ==> q < |text|) && (even.Outside? || odd.Outside?)
    ensures var runs := ScalarRuns(text, m, q, even, odd);
            |runs| <= 1 && forall r | r in runs :: even == Inside(r.start) || odd == Inside(r.start)
  {
    hide PairAt;
    if m < q {
      assert ScalarRuns(text, m, q, even, odd) ==
             Closes(text, m, odd) + ScalarRuns(text, m + 1, q, even, Advance(text, m, odd));
      if m + 1 < q {
        var odd' := Advance(text, m, odd);
        assert ScalarRuns(text, m + 1, q, even, odd') ==
               Closes(text, m + 1, even) + ScalarRuns(text, m + 2, q, Advance(text, m + 1, even), odd');
      }
    }
  }

  /** No byte of a chunk belongs to two records, on all contents, exactly when the chunk is aligned, or
      ends before the file with at most two pair starts in its tail; a content with an overlap has a
      line starting with the chunk. */
  lemma CodedTouchExact(b: nat, e: nat, total: nat)
    requires b <= e <= total
    ensures Aligned(b, e) || (e < total && (e - 1 - b) % 64 <= 2) ==>
              forall text: Word | |text| == total ::
                Touching(CodedChunk(text, b, e)) && !Overlapping(CodedChunk(text, b, e))
    ensures (forall text: Word | |text| == total && LineStart(text, b) :: !Overlapping(CodedChunk(text, b, e))) ==>
              Aligned(b, e) || (e < total && (e - 1 - b) % 64 <= 2)
  {
    hide CodedChunk, Touching;
    if Aligned(b, e) || (e < total && (e - 1 - b) % 64 <= 2) {
      forall text: Word | |text| == total
        ensures Touching(CodedChunk(text, b, e)) && !Overlapping(CodedChunk(text, b, e))
      {
        if Aligned(b, e) {
          AlignedIsScalar(text, b, e);
          ScalarChunkTouch(text, b, e);
        } else {
          ShortTailTouch(text, b, e);
        }
        CodedStarts(text, b, e);
        TouchingApart(CodedChunk(text, b, e));
      }
    } else {
      UnalignedTail(b, e);
      var m := TailStart(b, e);
      var text := Marked(total, b, (p: int) => p == m - 2 || p == m);
      var r, t := LanesOverlap(text, b, e);
      assert Overlapping(CodedChunk(text, b, e));
    }
  }

  lemma ShortTailTouch(text: Word, b: nat, e: nat)
    requires b <= e < |text| && !Aligned(b, e) && (e - 1 - b) % 64 <= 2
    ensures Touching(CodedChunk(text, b, e))
  {
    hide PairRuns, PairEnd, ScalarRuns, ScalarEnd, Touching;
    UnalignedTail(b, e);
    var m, q := TailStart(b, e), LastPair(b, e);
    LanesStart(text, b, m);
    PairRunsTouch(text, b, b, m, Outside, Outside, b);
    LanesEnd(text, b, b, m, Outside, Outside);
    var (even, odd) := PairEnd(text, b, m, Outside, Outside);
    ShortTail(text, m, q, even, odd);
    var head, tail := PairRuns(text, b, m, Outside, Outside), ScalarRuns(text, m, q, even, odd);
    TouchSnoc(head, tail);
    var z := ScalarEnd(text, m, q, even, odd);
    assert OpenRuns(text, e, z.0, z.1) == [];
    assert CodedChunk(text, b, e) == head + tail + [];
    assert head + tail + [] == head + tail;
  }

  lemma {:induction false} EmitDistinct(text: Word, f: Filter, runs: seq<Strings.Run>, b: nat, e: nat)
    requires DistinctStarts(runs) && forall r | r in runs :: b <= r.start < r.end <= e
    ensures DistinctBy(Offset(), EmitAll(text, f, runs))
    ensures forall x | x in EmitAll(text, f, runs) ::
              b <= x.offset < e && exists k :: 0 <= k < |runs| && runs[k].start == x.offset
  {
    if runs != [] {
      var rest := runs[1..];
      EmitDistinct(text, f, rest, b, e);
      var s, t := Emit(text, f, runs[0]), EmitAll(text, f, rest);
      forall x | x in t ensures x.offset != runs[0].start && exists k :: 0 <= k < |runs| && runs[k].start == x.offset {
        var k :| 0 <= k < |rest| && rest[k].start == x.offset;
        assert runs[k + 1].start == x.offset;
      }
      assert runs[0].start == runs[0].start;
      assert forall k | 0 <= k < |t| :: t[k] in t;
    }
  }

  // ---------------------------------------------------------------- the pipeline

  /** The records of a chunk have different offsets, all inside it. */
  lemma UnicodeKeys(text: Word, f: Filter)
    ensures KeysInside(text, UnicodeRecs(text, f), Offset())
    ensures forall b: nat, e: nat | b <= e <= |text| :: DistinctBy(Offset(), UnicodeRecs(text, f)(b, e))
  {
    hide CodedChunk, EmitAll, DistinctBy, DistinctStarts;
    forall b: nat, e: nat | b <= e <= |text|
      ensures DistinctBy(Offset(), UnicodeRecs(text, f)(b, e))
      ensures forall x | x in UnicodeRecs(text, f)(b, e) :: b <= x.offset < e
    {
      CodedStarts(text, b, e);
      EmitDistinct(text, ByteFilter(f), CodedChunk(text, b, e), b, e);
    }
  }

  /** Any file, any two numbers of workers, any two interleavings: the sorted results are the same,
      in strictly ascending order, and hold the records of the chunks as coded. */
  lemma UnicodeAnySchedule(text: Word, C: nat, L: nat, f: Filter, n: nat, sched: seq<nat>, sorted: seq<Rec>,
                           n': nat, sched': seq<nat>, sorted': seq<Rec>)
    requires C > 0 && L <= C && n > 0 && n' > 0
    requires AllDone(Schedule.Run(ChunkJob(text, C, L, UnicodeRecs(text, f)), n, sched))
    requires AllDone(Schedule.Run(ChunkJob(text, C, L, UnicodeRecs(text, f)), n', sched'))
    requires SortOf(Offset(), Merged(Schedule.Run(ChunkJob(text, C, L, UnicodeRecs(text, f)), n, sched).workers),
             sorted)
    requires SortOf(Offset(), Merged(Schedule.Run(ChunkJob(text, C, L, UnicodeRecs(text, f)), n', sched').workers),
             sorted')
    ensures sorted == sorted' && StrictBy(Offset(), sorted)
    ensures multiset(sorted) == multiset(OnePass(text, C, L, UnicodeRecs(text, f), 0))
  {
    UnicodeKeys(text, f);
    SortHidesSchedule(text, C, L, UnicodeRecs(text, f), Offset(), n, sched, sorted, n', sched', sorted');
  }
}
