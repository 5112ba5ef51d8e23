/** When every line of a file lies in exactly one chunk. */
module LineCover {
  import opened Arith
  import opened Bytes
  import opened ChunkAllocator
  import opened Grep

  /** Where a line ends, its newline included. */
  function LineStop(text: Word, x: Line): int {
    Min(x.end + 1, |text|)
  }

  /** The chunk of the nominal offset `s` holds the line, its newline included. */
  ghost predicate Holds(text: Word, C: nat, L: nat, s: nat, x: Line)
    requires C > 0
  {
    Nominal(C, |text|, s) && LeftEdge(text, C, s) <= x.start && LineStop(text, x) <= RightEdge(text, C, L, s)
  }

  /** Some chunk holds the line. */
  ghost predicate Held(text: Word, C: nat, L: nat, x: Line)
    requires C > 0
  {
    exists s: nat :: Holds(text, C, L, s, x)
  }

  /** No line is held by two chunks. */
  lemma HeldOnce(text: Word, C: nat, L: nat, x: Line, s: nat, t: nat)
    requires C > 0 && L <= C && IsLine(text, x) && Holds(text, C, L, s, x) && Holds(text, C, L, t, x)
    ensures s == t
  {
    hide LeftEdge, RightEdge;
    if s < t { ChunksDisjoint(text, C, L, s, t); } else if t < s { ChunksDisjoint(text, C, L, t, s); }
  }

  /** The first newline at or after a position of a line is the end of the line. */
  lemma NewlineOf(text: Word, x: Line, p: nat)
    requires IsLine(text, x) && x.start <= p <= x.end && p < |text|
    ensures FindByte(text, p, |text|, NEWLINE) == x.end
  {
    FindByteUnique(text, p, |text|, NEWLINE, x.end);
  }

  /** The chunk that holds a line, when all boundaries keep lines. */
  lemma Holder(text: Word, C: nat, L: nat, x: Line) returns (s: nat)
    requires C > 0 && L <= C && IsLine(text, x)
    requires LineSafe(text, C, L)
    ensures Holds(text, C, L, s, x)
  {
    hide FindByte;
    s := NominalOf(C, |text|, x.start);
    if LeftEdge(text, C, s) <= x.start {
      HolderAhead(text, C, L, x, s);
    } else {
      s := HolderBehind(text, C, L, x, s);
    }
  }

  lemma HolderAhead(text: Word, C: nat, L: nat, x: Line, s: nat)
    requires C > 0 && L <= C && IsLine(text, x) && Nominal(C, |text|, s)
    requires LeftEdge(text, C, s) <= x.start < s + C
    requires LineSafe(text, C, L)
    ensures Holds(text, C, L, s, x)
  {
    hide LeftEdge, RightEdge, FindByte;
    var p := s + C;
    EdgeReaches(text, C, L, s);
    if p < |text| && x.end >= p {
      NominalStep(C, |text|, s);
      assert KeepsLines(text, C, L, p);
      NewlineOf(text, x, p);
      EdgesAt(text, C, L, s);
    }
  }

  lemma EdgeReaches(text: Word, C: nat, L: nat, s: nat)
    requires s < |text|
    ensures RightEdge(text, C, L, s) >= Min(s + C, |text|)
  {
  }

  lemma HolderBehind(text: Word, C: nat, L: nat, x: Line, s: nat) returns (t: nat)
    requires C > 0 && L <= C && IsLine(text, x) && Nominal(C, |text|, s) && s <= x.start < LeftEdge(text, C, s)
    requires LineSafe(text, C, L)
    ensures Holds(text, C, L, t, x)
  {
    FirstEdge(text, C);
    hide LeftEdge, RightEdge;
    assert s > 0;
    NominalBelow(C, s);
    t := s - C;
    assert KeepsLines(text, C, L, s);
    EdgesAt(text, C, L, t);
    LeftBound(text, C, t);
    hide FindByte;
    FindByteUniqueLine(text, x, s);
  }

  lemma FirstEdge(text: Word, C: nat)
    ensures |text| > 0 ==> LeftEdge(text, C, 0) == 0
  {
  }

  lemma LeftBound(text: Word, C: nat, s: nat)
    requires s < |text|
    ensures LeftEdge(text, C, s) <= s + C
  {
  }

  /** A line that starts between a position and its first newline starts at the position. */
  lemma FindByteUniqueLine(text: Word, x: Line, s: nat)
    requires IsLine(text, x) && s <= x.start <= FindByte(text, s, |text|, NEWLINE) && s < |text|
    ensures x.start == s && x.end == FindByte(text, s, |text|, NEWLINE)
  {
    if x.start == s { NewlineOf(text, x, s); }
  }

  /** The line that a position belongs to. */
  lemma {:induction false} LineAt(text: Word, p: nat, nl: nat) returns (x: Line)
    requires p <= nl <= |text| && p < |text| && (nl < |text| ==> text[nl] == NEWLINE)
    requires forall i | p <= i < nl :: text[i] != NEWLINE
    ensures IsLine(text, x) && x.start <= p && x.end == nl && (LineStart(text, p) <==> x.start == p)
    decreases p
  {
    if LineStart(text, p) { x := Line(p, nl); } else { x := LineAt(text, p - 1, nl); }
  }

  /** A boundary that does not keep lines splits one or loses one. */
  lemma LineLost(text: Word, C: nat, L: nat, p: nat) returns (x: Line)
    requires C > 0 && L <= C && 0 < p && Nominal(C, |text|, p) && !KeepsLines(text, C, L, p)
    ensures IsLine(text, x) && !Held(text, C, L, x)
  {
    var nl := FindByte(text, p, |text|, NEWLINE);
    x := LineAt(text, p, nl);
    NominalBelow(C, p);
    EdgesAt(text, C, L, p - C);
    hide FindByte, LeftEdge, RightEdge;
    forall s: nat ensures !Holds(text, C, L, s, x) { LineMissed(text, C, L, p, s, x); }
  }

  lemma LineMissed(text: Word, C: nat, L: nat, p: nat, s: nat, x: Line)
    requires C > 0 && L <= C && C <= p && Nominal(C, |text|, p) && Nominal(C, |text|, p - C)
    requires RightEdge(text, C, L, p - C) == p < LineStop(text, x)
    requires x.start < p || LeftEdge(text, C, p) > x.start
    requires x.start <= p
    ensures !Holds(text, C, L, s, x)
  {
    LeftAfter(text, C, s);
    hide FindByte, LeftEdge, RightEdge;
    if Nominal(C, |text|, s) {
      if s < p {
        NominalApart(C, s, p);
        if s != p - C {
          ChunksDisjoint(text, C, L, s, p - C);
          EdgesOrdered(text, C, L, p - C);
        }
      } else if s > p {
        NominalApart(C, p, s);
      }
    }
  }

  lemma LeftAfter(text: Word, C: nat, s: nat)
    ensures s < |text| ==> LeftEdge(text, C, s) >= s
  {
  }

  /** Every line lies in a chunk, in one piece, exactly when every boundary keeps lines. */
  lemma LinesWholeIff(text: Word, C: nat, L: nat)
    requires C > 0 && L <= C
    ensures (forall x | IsLine(text, x) :: Held(text, C, L, x)) <==> LineSafe(text, C, L)
  {
    hide KeepsLines, Holds, IsLine;
    if LineSafe(text, C, L) {
      forall x | IsLine(text, x) ensures Held(text, C, L, x) {
        var s := Holder(text, C, L, x);
      }
    } else {
      var p: nat :| 0 < p && Nominal(C, |text|, p) && !KeepsLines(text, C, L, p);
      var x := LineLost(text, C, L, p);
    }
  }

  /** A file without a newline, two chunks long: no byte is lost, and the only line is cut in two. */
  lemma SplitExample(C: nat, L: nat)
    requires C > 0 && L <= C
    ensures var text := seq(2 * C, _ => 0x61 as byte);
            && (forall i: nat | i < |text| :: Covered(text, C, L, i))
            && IsLine(text, Line(0, 2 * C)) && !Held(text, C, L, Line(0, 2 * C))
  {
    var text := seq(2 * C, _ => 0x61 as byte);
    FindByteUnique(text, C, |text|, NEWLINE, |text|);
    ModUnique(C, C, 1, 0);
    var x := LineLost(text, C, L, C);
    assert x == Line(0, 2 * C);
    forall i: nat | i < |text| ensures Covered(text, C, L, i) {
      NothingLost(text, C, L, i);
      CoveredExact(text, C, L, i);
    }
  }

  lemma NothingLost(text: Word, C: nat, L: nat, i: nat)
    requires C > 0 && i < |text| && forall k | 0 <= k < |text| :: text[k] != NEWLINE
    ensures !Lost(text, C, L, i)
  {
  }

  /** A look-ahead shorter than the chunk, and a boundary whose first newline is just out of reach:
      its line is in no chunk, and the bytes up to the newline are lost. */
  lemma LossExample(C: nat, L: nat)
    requires L < C
    ensures var text := seq(C + L, _ => 0x61 as byte) + [NEWLINE];
            && Lost(text, C, L, C) && !Covered(text, C, L, C)
            && IsLine(text, Line(0, C + L)) && !Held(text, C, L, Line(0, C + L))
  {
    var text := seq(C + L, _ => 0x61 as byte) + [NEWLINE];
    FindByteUnique(text, C, |text|, NEWLINE, C + L);
    ModUnique(C, C, 1, 0);
    assert LosesAt(text, C, L, C) && Nominal(C, |text|, C);
    CoveredExact(text, C, L, C);
    var x := LineLost(text, C, L, C);
    assert x == Line(0, C + L);
  }
}
