/** g-diff: the files are compared block by block; equal neighbours are dropped, changed neighbours
    are grouped into one record, and the blocks only one file has form a last record. */
module Diff {
  import opened Blocks
  import opened Bytes

  datatype Status = Same | Changed | Inserted | Deleted

  /** `len` is a 32-bit field. */
  datatype Rec = Rec(oa: nat, ob: nat, len: nat, st: Status)

  // ---------------------------------------------------------------- the comparison

  function Common(a: Word, b: Word, bs: nat): nat
    requires bs > 0
  {
    if BlockCount(|a|, bs) < BlockCount(|b|, bs) then BlockCount(|a|, bs) else BlockCount(|b|, bs)
  }

  predicate SameBlock(a: Word, b: Word, bs: nat, i: nat) {
    Slice(a, Off(i, bs), bs) == Slice(b, Off(i, bs), bs)
  }

  /** One turn of the grouping rule; `len` wraps at 32 bits. */
  function AddBlock(runs: seq<Rec>, off: nat, bs: nat, st: Status): seq<Rec> {
    var n := |runs| - 1;
    if runs != [] && runs[n].st == st && runs[n].ob + runs[n].len == off then
      runs[..n] + [Rec(runs[n].oa, runs[n].ob, (runs[n].len + bs) % U32, st)]
    else if st == Changed then runs + [Rec(off, off, bs % U32, Changed)]
    else runs
  }

  function BlockStatus(a: Word, b: Word, bs: nat, i: nat): Status {
    if SameBlock(a, b, bs, i) then Same else Changed
  }

  /** The records after the first `n` blocks. */
  function BlockRuns(a: Word, b: Word, bs: nat, n: nat): seq<Rec> {
    if n == 0 then [] else AddBlock(BlockRuns(a, b, bs, n - 1), Off(n - 1, bs), bs, BlockStatus(a, b, bs, n - 1))
  }

  function TailRun(a: Word, b: Word, bs: nat): seq<Rec>
    requires bs > 0
  {
    var off := Off(Common(a, b, bs), bs);
    if BlockCount(|a|, bs) > BlockCount(|b|, bs) then [Rec(off, 0, (|a| - off) % U32, Deleted)]
    else if BlockCount(|b|, bs) > BlockCount(|a|, bs) then [Rec(0, off, (|b| - off) % U32, Inserted)]
    else []
  }

  function DiffRuns(a: Word, b: Word, bs: nat): seq<Rec>
    requires bs > 0
  {
    BlockRuns(a, b, bs, Common(a, b, bs)) + TailRun(a, b, bs)
  }

  /** The common blocks start inside both files; a further block starts inside the longer one. */
  lemma TailBounds(a: Word, b: Word, bs: nat)
    requires bs > 0
    ensures var c, na, nb := Common(a, b, bs), BlockCount(|a|, bs), BlockCount(|b|, bs);
            && (na == c ==> |a| <= Off(c, bs)) && (nb == c ==> |b| <= Off(c, bs))
            && (c < na ==> Off(c, bs) < |a|) && (c < nb ==> Off(c, bs) < |b|)
            && (c > 0 ==> Off(c - 1, bs) < |a| && Off(c - 1, bs) < |b|)
  {
    hide Off, BlockCount;
    BlockCountBounds(|a|, bs);
    BlockCountBounds(|b|, bs);
    var c, na, nb := Common(a, b, bs), BlockCount(|a|, bs), BlockCount(|b|, bs);
    if c < na { OffMono(c, na - 1, bs); }
    if c < nb { OffMono(c, nb - 1, bs); }
    if 0 < c { OffMono(c - 1, na - 1, bs); OffMono(c - 1, nb - 1, bs); }
  }

  /** `run_diff`; `blockSize` is a C int. */
  method RunDiff(a: Word, b: Word, blockSize: int) returns (runs: seq<Rec>)
    ensures runs == DiffRuns(a, b, if blockSize < 1 then 4096 else blockSize)
  {
    hide BlockRuns, SameBlock, BlockCount;
    var bs := if blockSize < 1 then 4096 else blockSize;
    TailBounds(a, b, bs);
    var na, nb := BlockCount(|a|, bs), BlockCount(|b|, bs);
    var common := if na < nb then na else nb;
    runs := [];
    NoBlocks(a, b, bs);
    for i := 0 to common
      invariant runs == BlockRuns(a, b, bs, i)
    {
      OffMono(i, common - 1, bs);
      var st := CompareBlock(a, b, bs, i);
      NextBlock(a, b, bs, i);
      runs := GroupBlock(runs, Off(i, bs), bs, st);
    }
    var boff := Off(common, bs);
    if na > nb {
      runs := runs + [Rec(boff, 0, (|a| - boff) % U32, Deleted)];
    } else if nb > na {
      runs := runs + [Rec(0, boff, (|b| - boff) % U32, Inserted)];
    } else {
      assert runs == runs + [];
    }
  }

  lemma NoBlocks(a: Word, b: Word, bs: nat)
    ensures BlockRuns(a, b, bs, 0) == []
  {
  }

  lemma NextBlock(a: Word, b: Word, bs: nat, i: nat)
    ensures BlockRuns(a, b, bs, i + 1) == AddBlock(BlockRuns(a, b, bs, i), Off(i, bs), bs, BlockStatus(a, b, bs, i))
  {
  }

  /** The two lengths are compared first, then the bytes. */
  method CompareBlock(a: Word, b: Word, bs: nat, i: nat) returns (st: Status)
    requires Off(i, bs) < |a| && Off(i, bs) < |b|
    ensures st == BlockStatus(a, b, bs, i)
  {
    var boff := Off(i, bs);
    var na2, nb2 := Min(bs, |a| - boff), Min(bs, |b| - boff);
    var eq := na2 == nb2 && a[boff..boff + na2] == b[boff..boff + na2];
    st := if eq then Same else Changed;
  }

  /** Extend the last record when it has the same status and ends where the block starts. */
  method GroupBlock(runs: seq<Rec>, boff: nat, bs: nat, st: Status) returns (out: seq<Rec>)
    ensures out == AddBlock(runs, boff, bs, st)
  {
    out := runs;
    if runs != [] && runs[|runs| - 1].st == st && runs[|runs| - 1].ob + runs[|runs| - 1].len == boff {
      var last := runs[|runs| - 1];
      out := runs[..|runs| - 1] + [Rec(last.oa, last.ob, (last.len + bs) % U32, last.st)];
    } else if st == Changed {
      out := runs + [Rec(boff, boff, bs % U32, st)];
    }
  }

  // ---------------------------------------------------------------- groups of changed blocks

  /** Blocks s, ..., e-1 are changed. */
  ghost predicate Stretch(a: Word, b: Word, bs: nat, s: nat, e: nat) {
    forall i: nat | s <= i < e :: !SameBlock(a, b, bs, i)
  }

  /** A maximal group of changed blocks among the first `n`. */
  ghost predicate MaximalGroup(a: Word, b: Word, bs: nat, n: nat, s: nat, e: nat) {
    && s < e <= n
    && Stretch(a, b, bs, s, e)
    && (s > 0 ==> SameBlock(a, b, bs, s - 1))
    && (e < n ==> SameBlock(a, b, bs, e))
  }

  /** No group of changed blocks reaches 2 to the 32 bytes, and neither does the tail of `b`. */
  ghost predicate FitsB(a: Word, b: Word, bs: nat)
    requires bs > 0
  {
    ShortGroups(a, b, bs, Common(a, b, bs)) && |b| - Off(Common(a, b, bs), bs) < U32
  }

  /** Nor does the tail of `a`. */
  ghost predicate FitsU32(a: Word, b: Word, bs: nat)
    requires bs > 0
  {
    FitsB(a, b, bs) && |a| - Off(Common(a, b, bs), bs) < U32
  }

  ghost predicate ShortGroups(a: Word, b: Word, bs: nat, n: nat) {
    forall s: nat, e: nat | s <= e <= n && Stretch(a, b, bs, s, e) :: Off(e - s, bs) < U32
  }

  datatype Group = Group(s: nat, e: nat)

  /** The groups among the first `n` blocks, by block number. */
  ghost function Groups(a: Word, b: Word, bs: nat, n: nat): seq<Group> {
    if n == 0 then []
    else
      var g := Groups(a, b, bs, n - 1);
      if SameBlock(a, b, bs, n - 1) then g
      else if g != [] && g[|g| - 1].e == n - 1 then g[..|g| - 1] + [Group(g[|g| - 1].s, n)]
      else g + [Group(n - 1, n)]
  }

  ghost predicate InSome(g: seq<Group>, i: nat) {
    exists k :: 0 <= k < |g| && g[k].s <= i < g[k].e
  }

  /** The groups are the maximal ones, in ascending order, with an equal block after each. */
  ghost predicate GroupsGood(a: Word, b: Word, bs: nat, n: nat, g: seq<Group>) {
    && (forall k | 0 <= k < |g| :: MaximalGroup(a, b, bs, n, g[k].s, g[k].e))
    && (forall k, l | 0 <= k < l < |g| :: g[k].e < g[l].s)
    && (forall i: nat | i < n && !SameBlock(a, b, bs, i) :: InSome(g, i))
  }

  lemma {:induction false} GroupsAreGood(a: Word, b: Word, bs: nat, n: nat)
    ensures GroupsGood(a, b, bs, n, Groups(a, b, bs, n))
  {
    hide SameBlock, GroupsGood;
    if n == 0 {
      NoGroups(a, b, bs);
    } else {
      GroupsAreGood(a, b, bs, n - 1);
      var h := Groups(a, b, bs, n - 1);
      if SameBlock(a, b, bs, n - 1) {
        KeepGroups(a, b, bs, n, h);
      } else if h != [] && h[|h| - 1].e == n - 1 {
        GrowLast(a, b, bs, n, h);
      } else {
        NewLast(a, b, bs, n, h);
      }
    }
  }

  lemma NoGroups(a: Word, b: Word, bs: nat)
    ensures GroupsGood(a, b, bs, 0, [])
  {
  }

  lemma KeepGroups(a: Word, b: Word, bs: nat, n: nat, h: seq<Group>)
    requires n > 0 && GroupsGood(a, b, bs, n - 1, h) && SameBlock(a, b, bs, n - 1)
    ensures GroupsGood(a, b, bs, n, h)
  {
    hide SameBlock, InSome;
    forall k | 0 <= k < |h| ensures MaximalGroup(a, b, bs, n, h[k].s, h[k].e) {
      assert MaximalGroup(a, b, bs, n - 1, h[k].s, h[k].e);
    }
  }

  lemma GrowLast(a: Word, b: Word, bs: nat, n: nat, h: seq<Group>)
    requires n > 0 && GroupsGood(a, b, bs, n - 1, h) && !SameBlock(a, b, bs, n - 1)
    requires h != [] && h[|h| - 1].e == n - 1
    ensures GroupsGood(a, b, bs, n, h[..|h| - 1] + [Group(h[|h| - 1].s, n)])
  {
    hide SameBlock, InSome;
    var m := |h| - 1;
    var g := h[..m] + [Group(h[m].s, n)];
    assert MaximalGroup(a, b, bs, n - 1, h[m].s, h[m].e);
    forall k | 0 <= k < |g| ensures MaximalGroup(a, b, bs, n, g[k].s, g[k].e) {
      assert MaximalGroup(a, b, bs, n - 1, h[k].s, h[k].e);
      assert k < m ==> h[k].e < h[m].s;
    }
    forall i: nat | i < n && !SameBlock(a, b, bs, i) ensures InSome(g, i) {
      GrownOwner(h, n, i);
    }
  }

  lemma GrownOwner(h: seq<Group>, n: nat, i: nat)
    requires h != [] && h[|h| - 1].s <= h[|h| - 1].e == n - 1 && (i < n - 1 ==> InSome(h, i)) && i < n
    ensures InSome(h[..|h| - 1] + [Group(h[|h| - 1].s, n)], i)
  {
    var g := h[..|h| - 1] + [Group(h[|h| - 1].s, n)];
    if i == n - 1 {
      assert g[|h| - 1].s <= i < g[|h| - 1].e;
    } else {
      var k :| 0 <= k < |h| && h[k].s <= i < h[k].e;
      assert g[k].s <= i < g[k].e;
    }
  }

  lemma NewOwner(h: seq<Group>, n: nat, i: nat)
    requires n > 0 && (i < n - 1 ==> InSome(h, i)) && i < n
    ensures InSome(h + [Group(n - 1, n)], i)
  {
    var g := h + [Group(n - 1, n)];
    if i == n - 1 {
      assert g[|h|].s <= i < g[|h|].e;
    } else {
      var k :| 0 <= k < |h| && h[k].s <= i < h[k].e;
      assert g[k].s <= i < g[k].e;
    }
  }

  /** When the last group ended earlier, so did all, and the block before the new one is equal. */
  lemma GapBefore(a: Word, b: Word, bs: nat, n: nat, h: seq<Group>)
    requires GroupsGood(a, b, bs, n, h) && (h != [] ==> h[|h| - 1].e != n)
    ensures forall k | 0 <= k < |h| :: h[k].e < n
    ensures n > 0 ==> SameBlock(a, b, bs, n - 1)
  {
    hide SameBlock;
    forall k | 0 <= k < |h| ensures h[k].e < n {
      assert MaximalGroup(a, b, bs, n, h[k].s, h[k].e);
      assert k < |h| - 1 ==> h[k].e < h[|h| - 1].s;
      assert MaximalGroup(a, b, bs, n, h[|h| - 1].s, h[|h| - 1].e);
    }
  }

  lemma NewLast(a: Word, b: Word, bs: nat, n: nat, h: seq<Group>)
    requires n > 0 && GroupsGood(a, b, bs, n - 1, h) && !SameBlock(a, b, bs, n - 1)
    requires h != [] ==> h[|h| - 1].e != n - 1
    ensures GroupsGood(a, b, bs, n, h + [Group(n - 1, n)])
  {
    hide SameBlock, InSome;
    var g := h + [Group(n - 1, n)];
    GapBefore(a, b, bs, n - 1, h);
    forall k | 0 <= k < |g| ensures MaximalGroup(a, b, bs, n, g[k].s, g[k].e) {
      assert k < |h| ==> MaximalGroup(a, b, bs, n - 1, h[k].s, h[k].e);
    }
    forall i: nat | i < n && !SameBlock(a, b, bs, i) ensures InSome(g, i) {
      NewOwner(h, n, i);
    }
  }

  // ---------------------------------------------------------------- records are groups

  function GroupRec(g: Group, bs: nat): Rec
    requires g.s <= g.e
  {
    Rec(Off(g.s, bs), Off(g.s, bs), Off(g.e - g.s, bs), Changed)
  }

  /** The records are the groups in bytes. */
  ghost predicate AreGroups(runs: seq<Rec>, g: seq<Group>, bs: nat) {
    && |runs| == |g|
    && forall k | 0 <= k < |g| :: g[k].s <= g[k].e && runs[k] == GroupRec(g[k], bs)
  }

  lemma GroupEnd(g: Group, bs: nat, i: nat)
    requires bs > 0 && g.s <= g.e
    ensures GroupRec(g, bs).ob + GroupRec(g, bs).len == Off(g.e, bs)
    ensures Off(g.e, bs) == Off(i, bs) <==> g.e == i
  {
    hide Off;
    OffDiff(g.s, g.e, bs);
    OffMono(g.e, i, bs);
    OffMono(i, g.e, bs);
  }

  lemma GroupGrows(g: Group, bs: nat)
    requires g.s <= g.e
    ensures GroupRec(Group(g.s, g.e + 1), bs) == Rec(Off(g.s, bs), Off(g.s, bs), GroupRec(g, bs).len + bs, Changed)
    ensures GroupRec(g, bs) == Rec(Off(g.s, bs), Off(g.s, bs), GroupRec(g, bs).len, Changed)
  {
    hide Off;
    OffNext(g.e - g.s, bs);
  }

  lemma GroupStarts(i: nat, bs: nat)
    requires bs < U32
    ensures GroupRec(Group(i, i + 1), bs) == Rec(Off(i, bs), Off(i, bs), bs % U32, Changed)
  {
  }

  /** While no group is too long, the records are the groups. */
  lemma {:induction false} RunsAreGroups(a: Word, b: Word, bs: nat, n: nat)
    requires 0 < bs < U32 && ShortGroups(a, b, bs, n)
    ensures AreGroups(BlockRuns(a, b, bs, n), Groups(a, b, bs, n), bs)
  {
    hide SameBlock, GroupRec, AddBlock, Off, ShortGroups, GroupsGood, AreGroups, BlockRuns, Groups, Stretch;
    NoBlocks(a, b, bs);
    NoRecords(bs);
    NextGroup(a, b, bs, n);
    if n > 0 {
      ShortPrefix(a, b, bs, n);
      NextBlock(a, b, bs, n - 1);
      RunsAreGroups(a, b, bs, n - 1);
      GroupsAreGood(a, b, bs, n - 1);
      var h, runs := Groups(a, b, bs, n - 1), BlockRuns(a, b, bs, n - 1);
      if SameBlock(a, b, bs, n - 1) {
        AddSame(runs, h, bs, n - 1);
      } else if h != [] && h[|h| - 1].e == n - 1 {
        var s := h[|h| - 1].s;
        LastStretch(a, b, bs, n - 1, h);
        ShortAt(a, b, bs, n, s, n);
        AddToLast(runs, h, bs);
      } else {
        AddNew(runs, h, bs, n - 1);
      }
    }
  }

  lemma NoRecords(bs: nat)
    ensures AreGroups([], [], bs)
  {
  }

  lemma NextGroup(a: Word, b: Word, bs: nat, n: nat)
    ensures n == 0 ==> Groups(a, b, bs, n) == []
    ensures n > 0 && SameBlock(a, b, bs, n - 1) ==> Groups(a, b, bs, n) == Groups(a, b, bs, n - 1)
    ensures n > 0 && !SameBlock(a, b, bs, n - 1) ==>
              var h := Groups(a, b, bs, n - 1);
              Groups(a, b, bs, n) ==
              if h != [] && h[|h| - 1].e == n - 1 then h[..|h| - 1] + [Group(h[|h| - 1].s, n)]
              else h + [Group(n - 1, n)]
  {
    hide SameBlock;
  }

  lemma ShortPrefix(a: Word, b: Word, bs: nat, n: nat)
    requires n > 0 && ShortGroups(a, b, bs, n)
    ensures ShortGroups(a, b, bs, n - 1)
  {
    hide Off, Stretch;
  }

  lemma ShortAt(a: Word, b: Word, bs: nat, n: nat, s: nat, e: nat)
    requires ShortGroups(a, b, bs, n) && s <= e <= n && Stretch(a, b, bs, s, e)
    ensures Off(e - s, bs) < U32
  {
  }

  lemma LastStretch(a: Word, b: Word, bs: nat, n: nat, h: seq<Group>)
    requires GroupsGood(a, b, bs, n, h) && h != [] && h[|h| - 1].e == n && !SameBlock(a, b, bs, n)
    ensures h[|h| - 1].s < n && Stretch(a, b, bs, h[|h| - 1].s, n + 1)
  {
    hide SameBlock, InSome;
    assert MaximalGroup(a, b, bs, n, h[|h| - 1].s, h[|h| - 1].e);
  }

  lemma AddSame(runs: seq<Rec>, h: seq<Group>, bs: nat, i: nat)
    requires AreGroups(runs, h, bs)
    ensures AddBlock(runs, Off(i, bs), bs, Same) == runs
  {
    hide Off;
  }

  lemma AddToLast(runs: seq<Rec>, h: seq<Group>, bs: nat)
    requires bs > 0 && AreGroups(runs, h, bs) && h != []
    requires Off(h[|h| - 1].e + 1 - h[|h| - 1].s, bs) < U32
    ensures var g := h[|h| - 1];
            AreGroups(AddBlock(runs, Off(g.e, bs), bs, Changed), h[..|h| - 1] + [Group(g.s, g.e + 1)], bs)
  {
    hide Off, GroupRec;
    var g := h[|h| - 1];
    GroupEnd(g, bs, g.e);
    GroupGrows(g, bs);
    OffNext(g.e - g.s, bs);
    LastLen(g, bs);
  }

  lemma LastLen(g: Group, bs: nat)
    requires g.s <= g.e
    ensures GroupRec(g, bs).len == Off(g.e - g.s, bs)
  {
  }

  lemma AddNew(runs: seq<Rec>, h: seq<Group>, bs: nat, i: nat)
    requires 0 < bs < U32 && AreGroups(runs, h, bs) && (h != [] ==> h[|h| - 1].e != i)
    ensures AreGroups(AddBlock(runs, Off(i, bs), bs, Changed), h + [Group(i, i + 1)], bs)
  {
    hide Off, GroupRec;
    GroupStarts(i, bs);
    if h != [] { GroupEnd(h[|h| - 1], bs, i); }
  }

  // ---------------------------------------------------------------- what the records mean

  /** Byte `p` of a file lies in a recorded range. */
  ghost predicate InRange(r: Rec, p: nat) {
    match r.st
    case Changed => r.oa <= p < r.oa + r.len
    case Deleted => r.oa <= p < r.oa + r.len
    case Inserted => r.ob <= p < r.ob + r.len
    case Same => false
  }

  ghost predicate Covered(runs: seq<Rec>, p: nat) {
    exists k :: 0 <= k < |runs| && InRange(runs[k], p)
  }

  /** Position `p` exists in one file only, or holds two different bytes. */
  ghost predicate Differs(a: Word, b: Word, p: nat) {
    (p < |a| || p < |b|) && !(p < |a| && p < |b| && a[p] == b[p])
  }

  /** Exactly when no group and no tail needs more than 32 bits does the record list report every
      difference. */
  lemma CoversIff(a: Word, b: Word, bs: nat)
    requires 0 < bs < 0x8000_0000
    ensures (forall p: nat | Differs(a, b, p) :: Covered(DiffRuns(a, b, bs), p)) <==> FitsU32(a, b, bs)
  {
    if FitsU32(a, b, bs) {
      forall p: nat | Differs(a, b, p) ensures Covered(DiffRuns(a, b, bs), p) { FitsCovers(a, b, bs, p); }
    } else if !ShortGroups(a, b, bs, Common(a, b, bs)) {
      var p := LongGroupMissed(a, b, bs);
    } else {
      var p := LongTailMissed(a, b, bs);
    }
  }

  lemma FitsCovers(a: Word, b: Word, bs: nat, p: nat)
    requires 0 < bs < U32 && FitsB(a, b, bs) && Differs(a, b, p)
    requires p < |b| || |a| - Off(Common(a, b, bs), bs) < U32
    ensures Covered(DiffRuns(a, b, bs), p)
  {
    hide Off, SameBlock, BlockRuns, BlockCount, ShortGroups;
    var n := Common(a, b, bs);
    var runs := DiffRuns(a, b, bs);
    TailBounds(a, b, bs);
    var i := BlockOf(p, bs);
    if i < n {
      DifferentBlock(a, b, bs, i, p);
      var r := BlockCovered(a, b, bs, n, i, p);
      var k :| 0 <= k < |BlockRuns(a, b, bs, n)| && BlockRuns(a, b, bs, n)[k] == r;
      assert InRange(runs[k], p);
    } else {
      OffMono(n, i, bs);
      assert InRange(runs[|runs| - 1], p);
    }
  }

  lemma BlockCovered(a: Word, b: Word, bs: nat, n: nat, i: nat, p: nat) returns (r: Rec)
    requires 0 < bs < U32 && ShortGroups(a, b, bs, n) && i < n && !SameBlock(a, b, bs, i)
    requires Off(i, bs) <= p < Off(i, bs) + bs
    ensures r in BlockRuns(a, b, bs, n) && InRange(r, p)
  {
    hide Off, SameBlock, BlockRuns, ShortGroups, Groups, MaximalGroup;
    GroupsAreGood(a, b, bs, n);
    RunsAreGroups(a, b, bs, n);
    var g := Groups(a, b, bs, n);
    var k :| 0 <= k < |g| && g[k].s <= i < g[k].e;
    GroupEnd(g[k], bs, i);
    OffMono(g[k].s, i, bs);
    OffMono(i, g[k].e, bs);
    r := BlockRuns(a, b, bs, n)[k];
  }

  lemma DifferentBlock(a: Word, b: Word, bs: nat, i: nat, p: nat)
    requires Off(i, bs) <= p < Off(i, bs) + bs && Differs(a, b, p)
    ensures !SameBlock(a, b, bs, i)
  {
    hide Off, Slice;
    SliceAt(a, Off(i, bs), bs, p);
    SliceAt(b, Off(i, bs), bs, p);
  }

  /** A changed block holds a difference. */
  lemma ChangedDiffers(a: Word, b: Word, bs: nat, i: nat) returns (p: nat)
    requires !SameBlock(a, b, bs, i)
    ensures Off(i, bs) <= p < Off(i, bs) + bs && Differs(a, b, p)
  {
    hide Off;
    p := SliceDiffers(a, b, Off(i, bs), bs);
  }

  lemma SliceDiffers(a: Word, b: Word, off: nat, bs: nat) returns (p: nat)
    requires Slice(a, off, bs) != Slice(b, off, bs)
    ensures off <= p < off + bs && Differs(a, b, p)
  {
    var x, y := Slice(a, off, bs), Slice(b, off, bs);
    if |x| != |y| {
      p := off + if |x| < |y| then |x| else |y|;
    } else {
      var k :| 0 <= k < |x| && x[k] != y[k];
      p := off + k;
    }
    SliceAt(a, off, bs, p);
    SliceAt(b, off, bs, p);
  }

  // ---------------------------------------------------------------- what wrap-around loses

  /** The record keeps away from the block at `off`. */
  predicate Away(r: Rec, off: nat, bs: nat) {
    r.st == Changed && r.oa == r.ob && (r.ob + r.len <= off || r.ob >= off + bs)
  }

  ghost predicate Clear(runs: seq<Rec>, off: nat, bs: nat) {
    forall k | 0 <= k < |runs| :: Away(runs[k], off, bs)
  }

  /** A block further on cannot bring a record back. */
  lemma AddKeepsClear(runs: seq<Rec>, off: nat, bs: nat, at: nat, st: Status)
    requires 0 < bs < U32 && Clear(runs, off, bs) && at >= off + bs && (st == Same || st == Changed)
    ensures Clear(AddBlock(runs, at, bs, st), off, bs)
  {
  }

  lemma {:induction false} StaysClear(a: Word, b: Word, bs: nat, t: nat, i: nat, n: nat)
    requires 0 < bs < U32 && t < i <= n && Clear(BlockRuns(a, b, bs, i), Off(t, bs), bs)
    ensures Clear(BlockRuns(a, b, bs, n), Off(t, bs), bs)
    decreases n
  {
    hide Off, Clear, AddBlock, SameBlock;
    if i < n {
      StaysClear(a, b, bs, t, i, n - 1);
      OffMono(t, n - 1, bs);
      AddKeepsClear(BlockRuns(a, b, bs, n - 1), Off(t, bs), bs, Off(n - 1, bs), BlockStatus(a, b, bs, n - 1));
    }
  }

  lemma NoLongGroup(a: Word, b: Word, bs: nat)
    ensures ShortGroups(a, b, bs, 0)
  {
    OffNext(0, bs);
  }

  /** The shortest prefix with a group that is too long. */
  lemma {:induction false} FirstLong(a: Word, b: Word, bs: nat, n: nat) returns (i: nat)
    requires bs > 0 && !ShortGroups(a, b, bs, n)
    ensures 0 < i <= n && ShortGroups(a, b, bs, i - 1) && !ShortGroups(a, b, bs, i)
    decreases n
  {
    hide ShortGroups;
    NoLongGroup(a, b, bs);
    i := n;
    if !ShortGroups(a, b, bs, n - 1) {
      i := FirstLong(a, b, bs, n - 1);
    }
  }

  lemma StretchAt(a: Word, b: Word, bs: nat, s: nat, e: nat, i: int)
    requires Stretch(a, b, bs, s, e)
    ensures s <= i < e ==> !SameBlock(a, b, bs, i)
  {
  }

  lemma GroupsOrder(a: Word, b: Word, bs: nat, n: nat, h: seq<Group>, k: nat, l: nat)
    requires GroupsGood(a, b, bs, n, h) && k < |h| && l < |h|
    ensures k < l ==> h[k].e < h[l].s
  {
  }

  /** The group that ends at `n` takes in every stretch of changed blocks that ends after it. */
  lemma LastTakesAll(a: Word, b: Word, bs: nat, n: nat, h: seq<Group>, s: nat)
    requires GroupsGood(a, b, bs, n, h) && s < n && Stretch(a, b, bs, s, n + 1)
    ensures h != [] && h[|h| - 1].e == n && h[|h| - 1].s <= s
  {
    hide SameBlock;
    StretchAt(a, b, bs, s, n + 1, n - 1);
    assert InSome(h, n - 1);
    var k :| 0 <= k < |h| && h[k].s <= n - 1 < h[k].e;
    var last := h[|h| - 1];
    assert MaximalGroup(a, b, bs, n, last.s, last.e);
    GroupsOrder(a, b, bs, n, h, k, |h| - 1);
    StretchAt(a, b, bs, s, n + 1, last.s - 1);
  }

  /** The group whose length wraps at block `i`. */
  lemma WrapGroup(a: Word, b: Word, bs: nat, i: nat) returns (s: nat)
    requires 0 < bs < 0x8000_0000 && i > 0 && ShortGroups(a, b, bs, i - 1) && !ShortGroups(a, b, bs, i)
    ensures var h := Groups(a, b, bs, i - 1); h != [] && h[|h| - 1] == Group(s, i - 1)
    ensures s + 2 < i && Stretch(a, b, bs, s, i)
    ensures U32 <= Off(i - s, bs) < U32 + bs
  {
    hide SameBlock, Off, GroupsGood;
    var s0: nat, e: nat :| s0 <= e <= i && Stretch(a, b, bs, s0, e) && Off(e - s0, bs) >= U32;
    assert e == i;
    TwoBlocks(bs, i - s0);
    GroupsAreGood(a, b, bs, i - 1);
    var h := Groups(a, b, bs, i - 1);
    LastTakesAll(a, b, bs, i - 1, h, s0);
    s := h[|h| - 1].s;
    LastStretch(a, b, bs, i - 1, h);
    OffMono(i - s0, i - s, bs);
    assert Stretch(a, b, bs, s, i - 1);
    assert Off(i - 1 - s, bs) < U32;
    OffNext(i - 1 - s, bs);
  }

  lemma TwoBlocks(bs: nat, k: nat)
    requires bs < 0x8000_0000 && Off(k, bs) >= U32
    ensures k > 2
  {
    if k <= 2 { OffMono(k, 2, bs); }
  }

  lemma LongGroupMissed(a: Word, b: Word, bs: nat) returns (p: nat)
    requires 0 < bs < 0x8000_0000 && !ShortGroups(a, b, bs, Common(a, b, bs))
    ensures p < |a| && p < |b| && Differs(a, b, p) && !Covered(DiffRuns(a, b, bs), p)
  {
    hide SameBlock, Off, ShortGroups, BlockRuns, Differs, Stretch, BlockCount, Common;
    TailBounds(a, b, bs);
    var n := Common(a, b, bs);
    var i := FirstLong(a, b, bs, n);
    var s := WrapGroup(a, b, bs, i);
    StretchAt(a, b, bs, s, i, i - 1);
    WrapClears(a, b, bs, i, s);
    StaysClear(a, b, bs, s + 1, i, n);
    StretchAt(a, b, bs, s, i, s + 1);
    p := ChangedDiffers(a, b, bs, s + 1);
    OffMono(s + 1, n, bs);
    OffMono(s + 1, n - 1, bs);
    ClearMisses(a, b, bs, Off(s + 1, bs), p);
  }

  lemma ClearMisses(a: Word, b: Word, bs: nat, off: nat, p: nat)
    requires bs > 0 && Clear(BlockRuns(a, b, bs, Common(a, b, bs)), off, bs)
    requires off <= p < off + bs <= Off(Common(a, b, bs), bs)
    ensures !Covered(DiffRuns(a, b, bs), p)
  {
    hide Off, BlockRuns, BlockCount;
  }

  /** After the wrap, the second block of the long group is in no record. */
  lemma WrapClears(a: Word, b: Word, bs: nat, i: nat, s: nat)
    requires 0 < bs < 0x8000_0000 && i > 0 && ShortGroups(a, b, bs, i - 1)
    requires var h := Groups(a, b, bs, i - 1); h != [] && h[|h| - 1] == Group(s, i - 1)
    requires s < i - 1 && !SameBlock(a, b, bs, i - 1) && U32 <= Off(i - s, bs) < U32 + bs
    ensures Clear(BlockRuns(a, b, bs, i), Off(s + 1, bs), bs)
  {
    hide SameBlock, Off, GroupRec, Groups, AddBlock, ShortGroups, MaximalGroup, InSome, BlockRuns;
    RunsAreGroups(a, b, bs, i - 1);
    GroupsAreGood(a, b, bs, i - 1);
    NextBlock(a, b, bs, i - 1);
    WrapAdd(BlockRuns(a, b, bs, i - 1), Groups(a, b, bs, i - 1), bs, i, s);
  }

  lemma WrapAdd(runs: seq<Rec>, h: seq<Group>, bs: nat, i: nat, s: nat)
    requires 0 < bs < 0x8000_0000 && i > 0 && AreGroups(runs, h, bs)
    requires h != [] && h[|h| - 1] == Group(s, i - 1) && s < i - 1 && U32 <= Off(i - s, bs) < U32 + bs
    requires forall k | 0 <= k < |h| - 1 :: h[k].e < s
    ensures Clear(AddBlock(runs, Off(i - 1, bs), bs, Changed), Off(s + 1, bs), bs)
  {
    hide Off;
    var m := |h| - 1;
    GroupEnd(h[m], bs, i - 1);
    OffNext(i - 1 - s, bs);
    OffNext(s, bs);
    var next := AddBlock(runs, Off(i - 1, bs), bs, Changed);
    assert next == runs[..m] + [Rec(Off(s, bs), Off(s, bs), Off(i - s, bs) % U32, Changed)];
    forall k | 0 <= k < |next| ensures Away(next[k], Off(s + 1, bs), bs) {
      if k < m {
        GroupEnd(h[k], bs, s);
        OffMono(h[k].e, s, bs);
      }
    }
  }

  /** No record of the block loop reaches past `end`. */
  ghost predicate Within(runs: seq<Rec>, end: nat) {
    forall k | 0 <= k < |runs| :: runs[k].st == Changed && runs[k].oa == runs[k].ob && runs[k].ob + runs[k].len <= end
  }

  lemma AddWithin(runs: seq<Rec>, at: nat, bs: nat, st: Status)
    requires 0 < bs < U32 && Within(runs, at) && (st == Same || st == Changed)
    ensures Within(AddBlock(runs, at, bs, st), at + bs)
  {
  }

  lemma {:induction false} RunsEnd(a: Word, b: Word, bs: nat, n: nat)
    requires 0 < bs < U32
    ensures Within(BlockRuns(a, b, bs, n), Off(n, bs))
  {
    hide Off, AddBlock, SameBlock;
    if n > 0 {
      RunsEnd(a, b, bs, n - 1);
      AddWithin(BlockRuns(a, b, bs, n - 1), Off(n - 1, bs), bs, BlockStatus(a, b, bs, n - 1));
      OffNext(n - 1, bs);
    }
  }

  lemma LongTailMissed(a: Word, b: Word, bs: nat) returns (p: nat)
    requires 0 < bs < U32
    requires |a| - Off(Common(a, b, bs), bs) >= U32 || |b| - Off(Common(a, b, bs), bs) >= U32
    ensures Differs(a, b, p) && !Covered(DiffRuns(a, b, bs), p)
  {
    hide Off, BlockRuns, BlockCount;
    var n := Common(a, b, bs);
    TailBounds(a, b, bs);
    RunsEnd(a, b, bs, n);
    p := if |a| > |b| then |a| - 1 else |b| - 1;
  }

  // ---------------------------------------------------------------- rebuilding

  /** The bytes of `b` that a record carries: those of its range, as far as `b` goes. */
  function Payload(b: Word, r: Rec): Word {
    if r.st == Changed || r.st == Inserted then Slice(b, r.ob, r.len) else []
  }

  function Overwrite(x: Word, at: nat, w: Word): Word {
    if at + |w| <= |x| then x[..at] + w + x[at + |w|..] else x
  }

  /** Patch the records' payloads into `x`, in order. */
  function Patch(x: Word, runs: seq<Rec>, payloads: seq<Word>): Word
    requires |runs| == |payloads|
  {
    if runs == [] then x
    else
      var n := |runs| - 1;
      var y := Patch(x, runs[..n], payloads[..n]);
      if payloads[n] == [] then y else Overwrite(y, runs[n].ob, payloads[n])
  }

  function Payloads(b: Word, runs: seq<Rec>): (p: seq<Word>)
    ensures |p| == |runs| && forall k | 0 <= k < |runs| :: p[k] == Payload(b, runs[k])
  {
    if runs == [] then [] else Payloads(b, runs[..|runs| - 1]) + [Payload(b, runs[|runs| - 1])]
  }

  /** The first `n` bytes of `a`, filled up with zeros. */
  function Resize(a: Word, n: nat): (x: Word)
    ensures |x| == n && forall i | 0 <= i < n && i < |a| :: x[i] == a[i]
  {
    if n <= |a| then a[..n] else a + Fill(n - |a|, 0)
  }

  function Fill(n: nat, v: byte): (x: Word)
    ensures |x| == n && forall i | 0 <= i < n :: x[i] == v
  {
    if n == 0 then [] else Fill(n - 1, v) + [v]
  }

  /** Some record other than a DELETED one covers `p`. */
  ghost predicate Carried(runs: seq<Rec>, p: nat) {
    runs != [] &&
    (Carried(runs[..|runs| - 1], p) || (runs[|runs| - 1].st != Deleted && InRange(runs[|runs| - 1], p)))
  }

  lemma {:induction false} CarriedAt(runs: seq<Rec>, p: nat, k: nat)
    requires k < |runs| && runs[k].st != Deleted && InRange(runs[k], p)
    ensures Carried(runs, p)
  {
    hide InRange;
    if k < |runs| - 1 { CarriedAt(runs[..|runs| - 1], p, k); }
  }

  /** A patched byte is the byte of `b` in a recorded range and the old byte elsewhere. */
  lemma {:induction false} PatchAt(x: Word, b: Word, runs: seq<Rec>, p: nat)
    requires |x| == |b| && p < |b|
    requires forall k | 0 <= k < |runs| :: runs[k].st == Changed ==> runs[k].oa == runs[k].ob
    ensures var y := Patch(x, runs, Payloads(b, runs)); |y| == |b| && (y[p] == b[p] || y[p] == x[p])
    ensures Carried(runs, p) ==> Patch(x, runs, Payloads(b, runs))[p] == b[p]
  {
    hide Overwrite, Payload, InRange;
    if runs != [] {
      var n := |runs| - 1;
      PatchAt(x, b, runs[..n], p);
      var y := Patch(x, runs[..n], Payloads(b, runs[..n]));
      assert Payloads(b, runs)[..n] == Payloads(b, runs[..n]);
      OverwriteAt(y, b, runs[n], p);
    }
  }

  lemma OverwriteAt(y: Word, b: Word, r: Rec, p: nat)
    requires |y| == |b| && p < |b| && (r.st == Changed ==> r.oa == r.ob)
    ensures var w := Payload(b, r);
            var z := if w == [] then y else Overwrite(y, r.ob, w);
            && |z| == |b| && (z[p] == y[p] || z[p] == b[p]) && (y[p] == b[p] ==> z[p] == b[p])
            && (r.st != Deleted && InRange(r, p) ==> z[p] == b[p])
  {
    if r.st != Deleted && InRange(r, p) { SliceAt(b, r.ob, r.len, p); }
  }

  /** `b` is rebuilt from `a`, the size of `b`, the records, and the bytes of `b` in them. */
  lemma RebuildsB(a: Word, b: Word, bs: nat)
    requires 0 < bs < U32 && FitsB(a, b, bs)
    ensures var runs := DiffRuns(a, b, bs); Patch(Resize(a, |b|), runs, Payloads(b, runs)) == b
  {
    hide Off, BlockRuns, BlockCount, FitsB, Patch, DiffRuns;
    var runs, x := DiffRuns(a, b, bs), Resize(a, |b|);
    var y := Patch(x, runs, Payloads(b, runs));
    RunKinds(a, b, bs);
    if |b| == 0 { PatchEmpty(x, runs); } else { PatchAt(x, b, runs, 0); }
    forall p | 0 <= p < |b| ensures y[p] == b[p] {
      PatchAt(x, b, runs, p);
      if Differs(a, b, p) {
        FitsCovers(a, b, bs, p);
        var k :| 0 <= k < |runs| && InRange(runs[k], p);
        CarriedAt(runs, p, k);
      }
    }
  }

  /** A DELETED record lies behind the end of `b`; a CHANGED one has equal offsets. */
  lemma RunKinds(a: Word, b: Word, bs: nat)
    requires 0 < bs < U32
    ensures var runs := DiffRuns(a, b, bs);
            forall k | 0 <= k < |runs| :: (runs[k].st == Changed ==> runs[k].oa == runs[k].ob) &&
                                          (runs[k].st == Deleted ==> runs[k].oa >= |b|)
  {
    hide Off, BlockRuns, BlockCount;
    TailBounds(a, b, bs);
    RunsEnd(a, b, bs, Common(a, b, bs));
  }

  /** The last record tells which file has more blocks, and where they begin in that file; the offset in
      the other file is 0. All other records are CHANGED ones with equal offsets. */
  lemma TailExact(a: Word, b: Word, bs: nat, r: Rec)
    requires 0 < bs < U32
    ensures var na, nb := (|a| + bs - 1) / bs, (|b| + bs - 1) / bs;
            && (r in DiffRuns(a, b, bs) && r.st == Inserted <==>
                na < nb && r == Rec(0, na * bs, (|b| - na * bs) % U32, Inserted))
            && (r in DiffRuns(a, b, bs) && r.st == Deleted <==>
                nb < na && r == Rec(nb * bs, 0, (|a| - nb * bs) % U32, Deleted))
            && (r in DiffRuns(a, b, bs) && r.st != Inserted && r.st != Deleted ==> r.st == Changed && r.oa == r.ob)
  {
    hide BlockRuns, Off;
    var n := Common(a, b, bs);
    OffIs(n, bs);
    RunsEnd(a, b, bs, n);
    var runs, tail := BlockRuns(a, b, bs, n), TailRun(a, b, bs);
    assert r in DiffRuns(a, b, bs) <==> r in runs || r in tail;
    if r in runs {
      var k :| 0 <= k < |runs| && runs[k] == r;
    }
  }

  lemma {:induction false} PatchEmpty(x: Word, runs: seq<Rec>)
    requires x == []
    ensures Patch(x, runs, Payloads([], runs)) == []
  {
    if runs != [] {
      var n := |runs| - 1;
      PatchEmpty(x, runs[..n]);
      assert Payloads([], runs)[..n] == Payloads([], runs[..n]);
    }
  }

  /** Two files of 4 GiB that differ everywhere: their one group has length 2 to the 32, its field
      holds 0, and some difference is in no record. */
  lemma FourGiBMissed(n: nat, a: Word, b: Word)
    requires n == U32 && a == Fill(n, 0) && b == Fill(n, 1)
    ensures exists p: nat :: Differs(a, b, p) && !Covered(DiffRuns(a, b, 4096), p)
  {
    hide Fill, BlockRuns, DiffRuns, Off;
    var c := Common(a, b, 4096);
    assert c == 0x10_0000;
    TailBounds(a, b, 4096);
    forall i: nat | 0 <= i < c ensures !SameBlock(a, b, 4096, i) {
      OffMono(i, c - 1, 4096);
      DifferentBlock(a, b, 4096, i, Off(i, 4096));
    }
    assert Stretch(a, b, 4096, 0, c);
    assert c - 0 == c && Off(c, 4096) >= U32;
    var p := LongGroupMissed(a, b, 4096);
  }

  // ---------------------------------------------------------------- tightness

  ghost predicate IsGroupRec(a: Word, b: Word, bs: nat, r: Rec)
    requires bs > 0
  {
    exists s: nat, e: nat :: MaximalGroup(a, b, bs, Common(a, b, bs), s, e) && r == GroupRec(Group(s, e), bs)
  }

  /** While no group is too long, the CHANGED records are exactly the maximal groups. */
  lemma ChangedIsGroup(a: Word, b: Word, bs: nat, r: Rec)
    requires 0 < bs < U32 && ShortGroups(a, b, bs, Common(a, b, bs))
    ensures r in DiffRuns(a, b, bs) && r.st == Changed <==> IsGroupRec(a, b, bs, r)
  {
    hide SameBlock, GroupRec, BlockRuns, Off, Groups, ShortGroups, BlockCount, Stretch, InSome;
    var n := Common(a, b, bs);
    GroupsAreGood(a, b, bs, n);
    RunsAreGroups(a, b, bs, n);
    var g, runs := Groups(a, b, bs, n), BlockRuns(a, b, bs, n);
    RunsEnd(a, b, bs, n);
    if r in DiffRuns(a, b, bs) && r.st == Changed {
      assert r in runs;
      var k :| 0 <= k < |runs| && runs[k] == r;
      assert MaximalGroup(a, b, bs, n, g[k].s, g[k].e) && r == GroupRec(Group(g[k].s, g[k].e), bs);
    }
    forall s: nat, e: nat | MaximalGroup(a, b, bs, n, s, e) && r == GroupRec(Group(s, e), bs)
      ensures r in DiffRuns(a, b, bs) && r.st == Changed
    {
      var k := OwnGroup(a, b, bs, n, g, s, e);
      assert r == runs[k] && r in runs;
    }
  }

  /** A stretch that is too long lies in a maximal group that is too long for any record. */
  lemma LongGroup(a: Word, b: Word, bs: nat) returns (r: Rec)
    requires 0 < bs < U32 && !ShortGroups(a, b, bs, Common(a, b, bs))
    ensures IsGroupRec(a, b, bs, r) && r.len >= U32
  {
    hide SameBlock, Off, Groups, BlockCount, InSome;
    var n := Common(a, b, bs);
    var s: nat, e: nat :| s <= e <= n && Stretch(a, b, bs, s, e) && Off(e - s, bs) >= U32;
    OffNext(0, bs);
    assert s < e;
    GroupsAreGood(a, b, bs, n);
    var g := OwnerOf(a, b, bs, n, s);
    GroupTakesStretch(a, b, bs, n, g, s, e);
    OffMono(e - s, g.e - g.s, bs);
    r := GroupRec(g, bs);
  }

  lemma OwnerOf(a: Word, b: Word, bs: nat, n: nat, i: nat) returns (g: Group)
    requires i < n && !SameBlock(a, b, bs, i)
    ensures MaximalGroup(a, b, bs, n, g.s, g.e) && g.s <= i < g.e
  {
    hide SameBlock, Groups;
    GroupsAreGood(a, b, bs, n);
    var h := Groups(a, b, bs, n);
    assert InSome(h, i);
    var k :| 0 <= k < |h| && h[k].s <= i < h[k].e;
    g := h[k];
  }

  lemma GroupTakesStretch(a: Word, b: Word, bs: nat, n: nat, g: Group, s: nat, e: nat)
    requires MaximalGroup(a, b, bs, n, g.s, g.e) && Stretch(a, b, bs, s, e) && g.s <= s < g.e && e <= n
    ensures e <= g.e
  {
    hide SameBlock;
    StretchAt(a, b, bs, s, e, g.e);
  }

  lemma {:induction false} LensFit(a: Word, b: Word, bs: nat, n: nat)
    requires 0 < bs < U32
    ensures forall k | 0 <= k < |BlockRuns(a, b, bs, n)| :: BlockRuns(a, b, bs, n)[k].len < U32
  {
    hide Off, SameBlock;
    if n > 0 { LensFit(a, b, bs, n - 1); }
  }

  /** The CHANGED records are exactly the maximal groups of changed blocks if and only if no stretch of
      changed blocks reaches 2 to the 32 bytes. */
  lemma ChangedExact(a: Word, b: Word, bs: nat)
    requires 0 < bs < U32
    ensures (forall r :: r in DiffRuns(a, b, bs) && r.st == Changed <==> IsGroupRec(a, b, bs, r)) <==>
              ShortGroups(a, b, bs, Common(a, b, bs))
  {
    hide Off, BlockRuns, BlockCount, IsGroupRec, ShortGroups;
    if ShortGroups(a, b, bs, Common(a, b, bs)) {
      forall r ensures r in DiffRuns(a, b, bs) && r.st == Changed <==> IsGroupRec(a, b, bs, r) {
        ChangedIsGroup(a, b, bs, r);
      }
    } else {
      var r := LongGroup(a, b, bs);
      LensFit(a, b, bs, Common(a, b, bs));
      assert r !in DiffRuns(a, b, bs);
    }
  }

  lemma OwnGroup(a: Word, b: Word, bs: nat, n: nat, g: seq<Group>, s: nat, e: nat) returns (k: nat)
    requires GroupsGood(a, b, bs, n, g) && MaximalGroup(a, b, bs, n, s, e)
    ensures k < |g| && g[k] == Group(s, e)
  {
    hide SameBlock;
    StretchAt(a, b, bs, s, e, s);
    assert InSome(g, s);
    k :| 0 <= k < |g| && g[k].s <= s < g[k].e;
    assert MaximalGroup(a, b, bs, n, g[k].s, g[k].e);
    SameGroup(a, b, bs, n, s, e, g[k].s, g[k].e);
  }

  /** Two maximal groups that share a block are the same. */
  lemma SameGroup(a: Word, b: Word, bs: nat, n: nat, s: nat, e: nat, s': nat, e': nat)
    requires MaximalGroup(a, b, bs, n, s, e) && MaximalGroup(a, b, bs, n, s', e') && s' <= s < e'
    ensures s == s' && e == e'
  {
    hide SameBlock;
    StretchAt(a, b, bs, s', e', s - 1);
    StretchAt(a, b, bs, s', e', e);
    StretchAt(a, b, bs, s, e, e');
  }

  /** The records of the block loop ascend a block apart; the last one ends at `at` or a block before. */
  ghost predicate Spaced(runs: seq<Rec>, at: nat, bs: nat) {
    && (forall k, l | 0 <= k < l < |runs| :: runs[k].ob + runs[k].len + bs <= runs[l].ob)
    && (runs != [] ==>
          var last := runs[|runs| - 1];
          last.ob <= at && (last.ob + last.len == at || last.ob + last.len + bs <= at))
  }

  lemma AddSpaced(runs: seq<Rec>, at: nat, bs: nat, st: Status)
    requires 0 < bs < U32 && Spaced(runs, at, bs) && (st == Same || st == Changed)
    requires forall k | 0 <= k < |runs| :: runs[k].st == Changed && runs[k].len < U32
    ensures Spaced(AddBlock(runs, at, bs, st), at + bs, bs)
  {
    var out := AddBlock(runs, at, bs, st);
    if runs != [] {
      var n := |runs| - 1;
      if runs[n].st == st && runs[n].ob + runs[n].len == at {
        assert out[n].ob == runs[n].ob && forall k | 0 <= k < n :: out[k] == runs[k];
        if runs[n].len + bs >= U32 {
          assert (runs[n].len + bs) % U32 == runs[n].len + bs - U32;
        }
      }
    }
  }

  lemma {:induction false} RunsSpaced(a: Word, b: Word, bs: nat, n: nat)
    requires 0 < bs < U32
    ensures Spaced(BlockRuns(a, b, bs, n), Off(n, bs), bs)
  {
    hide Off, AddBlock, SameBlock, Spaced;
    if n == 0 {
      NoneSpaced(Off(0, bs), bs);
    } else {
      RunsSpaced(a, b, bs, n - 1);
      RunsEnd(a, b, bs, n - 1);
      LensFit(a, b, bs, n - 1);
      AddSpaced(BlockRuns(a, b, bs, n - 1), Off(n - 1, bs), bs, BlockStatus(a, b, bs, n - 1));
      OffNext(n - 1, bs);
    }
  }

  lemma NoneSpaced(at: nat, bs: nat)
    ensures Spaced([], at, bs)
  {
  }

  /** At any size the CHANGED records ascend, with at least a block between two. */
  lemma ChangedAscend(a: Word, b: Word, bs: nat)
    requires 0 < bs < U32
    ensures var runs := BlockRuns(a, b, bs, Common(a, b, bs));
            forall k, l | 0 <= k < l < |runs| :: runs[k].ob + runs[k].len + bs <= runs[l].ob
  {
    hide Off, BlockRuns, BlockCount;
    RunsSpaced(a, b, bs, Common(a, b, bs));
  }

  // ---------------------------------------------------------------- when the records suffice

  lemma SliceElsewhere(x: Word, p: nat, v: byte, off: nat, bs: nat)
    requires p < |x| && (p < off || off + bs <= p)
    ensures Slice(x[p := v], off, bs) == Slice(x, off, bs)
  {
    var y := x[p := v];
    if off < |x| {
      var e := if off + bs <= |x| then off + bs else |x|;
      assert Slice(x, off, bs) == x[off..e] && Slice(y, off, bs) == y[off..e];
    }
  }

  /** Changing an unrecorded byte that stays different from the one in `a` changes no block's status. */
  lemma SameStatus(a: Word, b: Word, bs: nat, p: nat, v: byte, i: nat)
    requires p < |b| && (p < |a| ==> a[p] != b[p] && a[p] != v)
    requires p < |a| || Off(i, bs) + bs <= p
    ensures SameBlock(a, b[p := v], bs, i) <==> SameBlock(a, b, bs, i)
  {
    hide Off, Slice;
    var off := Off(i, bs);
    if off <= p < off + bs {
      SliceAt(a, off, bs, p);
      SliceAt(b, off, bs, p);
      SliceAt(b[p := v], off, bs, p);
    } else {
      SliceElsewhere(b, p, v, off, bs);
    }
  }

  lemma {:induction false} SameRuns(a: Word, b: Word, bs: nat, p: nat, v: byte, n: nat)
    requires p < |b| && (p < |a| ==> a[p] != b[p] && a[p] != v) && (p < |a| || Off(n, bs) <= p)
    ensures BlockRuns(a, b[p := v], bs, n) == BlockRuns(a, b, bs, n)
  {
    hide Off, AddBlock, SameBlock;
    if n > 0 {
      OffNext(n - 1, bs);
      SameRuns(a, b, bs, p, v, n - 1);
      SameStatus(a, b, bs, p, v, n - 1);
    }
  }

  /** Then the records and all they carry stay the same. */
  lemma UnseenChange(a: Word, b: Word, bs: nat, p: nat, v: byte)
    requires bs > 0 && p < |b| && !Covered(DiffRuns(a, b, bs), p)
    requires (p < |a| ==> a[p] != b[p] && a[p] != v) && (p < |a| || Off(Common(a, b, bs), bs) <= p) && 0 < bs < U32
    ensures DiffRuns(a, b[p := v], bs) == DiffRuns(a, b, bs)
    ensures Payloads(b[p := v], DiffRuns(a, b, bs)) == Payloads(b, DiffRuns(a, b, bs))
  {
    hide Off, BlockRuns, BlockCount;
    SameRuns(a, b, bs, p, v, Common(a, b, bs));
    RunKinds(a, b, bs);
    var runs := DiffRuns(a, b, bs);
    hide DiffRuns;
    forall k | 0 <= k < |runs| ensures Payload(b[p := v], runs[k]) == Payload(b, runs[k]) {
      assert !InRange(runs[k], p);
      if runs[k].st == Changed || runs[k].st == Inserted { SliceElsewhere(b, p, v, runs[k].ob, runs[k].len); }
    }
  }

  /** `c` is a file of the size of `b` that has the same records and the same bytes in them. */
  ghost predicate Alike(a: Word, b: Word, c: Word, bs: nat)
    requires bs > 0
  {
    |c| == |b| && DiffRuns(a, c, bs) == DiffRuns(a, b, bs) &&
      Payloads(c, DiffRuns(a, b, bs)) == Payloads(b, DiffRuns(a, b, bs))
  }

  function Third(x: byte, y: byte): (v: byte)
    ensures v != x && v != y
  {
    if x != 0 && y != 0 then 0 else if x != 1 && y != 1 then 1 else 2
  }

  /** Size, records and recorded bytes determine `b` if and only if no group and no tail of `b` needs
      more than 32 bits. */
  lemma DeterminesB(a: Word, b: Word, bs: nat)
    requires 0 < bs < 0x8000_0000
    ensures (forall c | Alike(a, b, c, bs) :: c == b) <==> FitsB(a, b, bs)
  {
    hide Off, BlockRuns, DiffRuns, BlockCount, ShortGroups;
    if FitsB(a, b, bs) {
      forall c | Alike(a, b, c, bs) ensures c == b { AlikeEqual(a, b, c, bs); }
    } else {
      var p: nat;
      if !ShortGroups(a, b, bs, Common(a, b, bs)) {
        p := LongGroupMissed(a, b, bs);
      } else {
        p := TailMissed(a, b, bs);
      }
      var v := Third(b[p], if p < |a| then a[p] else b[p]);
      UnseenChange(a, b, bs, p, v);
      assert b[p := v][p] == v;
      assert Alike(a, b, b[p := v], bs);
    }
  }

  /** The last byte of a tail of `b` that is too long is in no record. */
  lemma TailMissed(a: Word, b: Word, bs: nat) returns (p: nat)
    requires 0 < bs < U32 && |b| - Off(Common(a, b, bs), bs) >= U32
    ensures |a| <= p < |b| && Off(Common(a, b, bs), bs) <= p && !Covered(DiffRuns(a, b, bs), p)
  {
    hide Off, BlockRuns, BlockCount;
    TailBounds(a, b, bs);
    RunsEnd(a, b, bs, Common(a, b, bs));
    p := |b| - 1;
  }

  /** A record shorter than a block that ends before `at`: no later block extends it. */
  ghost predicate Stuck(runs: seq<Rec>, at: nat, bs: nat) {
    exists k :: 0 <= k < |runs| && runs[k].st == Changed && runs[k].len < bs && runs[k].ob + runs[k].len < at
  }

  lemma AddStuck(runs: seq<Rec>, at: nat, bs: nat, st: Status)
    requires Stuck(runs, at, bs)
    ensures Stuck(AddBlock(runs, at, bs, st), at + bs, bs)
  {
    var k :| 0 <= k < |runs| && runs[k].st == Changed && runs[k].len < bs && runs[k].ob + runs[k].len < at;
    var out := AddBlock(runs, at, bs, st);
    assert out[k] == runs[k];
  }

  lemma {:induction false} StaysStuck(a: Word, b: Word, bs: nat, i: nat, n: nat)
    requires i <= n && Stuck(BlockRuns(a, b, bs, i), Off(i, bs), bs)
    ensures Stuck(BlockRuns(a, b, bs, n), Off(n, bs), bs)
    decreases n
  {
    hide Off, AddBlock, SameBlock, Stuck;
    if i < n {
      StaysStuck(a, b, bs, i, n - 1);
      AddStuck(BlockRuns(a, b, bs, n - 1), Off(n - 1, bs), bs, BlockStatus(a, b, bs, n - 1));
      OffNext(n - 1, bs);
    }
  }

  /** A group that is too long leaves a record shorter than a block. */
  lemma LongGroupStuck(a: Word, b: Word, bs: nat, n: nat)
    requires 0 < bs < 0x8000_0000 && !ShortGroups(a, b, bs, n)
    ensures Stuck(BlockRuns(a, b, bs, n), Off(n, bs), bs)
  {
    hide SameBlock, Off, GroupRec, Groups, AddBlock, ShortGroups, BlockRuns, Stuck, Stretch, AreGroups;
    var i := FirstLong(a, b, bs, n);
    var s := WrapGroup(a, b, bs, i);
    StretchAt(a, b, bs, s, i, i - 1);
    RunsAreGroups(a, b, bs, i - 1);
    NextBlock(a, b, bs, i - 1);
    WrapStuck(BlockRuns(a, b, bs, i - 1), Groups(a, b, bs, i - 1), bs, i, s);
    StaysStuck(a, b, bs, i, n);
  }

  lemma WrapStuck(runs: seq<Rec>, h: seq<Group>, bs: nat, i: nat, s: nat)
    requires 0 < bs < 0x8000_0000 && i > 0 && AreGroups(runs, h, bs)
    requires h != [] && h[|h| - 1] == Group(s, i - 1) && s + 2 < i && U32 <= Off(i - s, bs) < U32 + bs
    ensures Stuck(AddBlock(runs, Off(i - 1, bs), bs, Changed), Off(i, bs), bs)
  {
    hide Off;
    var m := |h| - 1;
    GroupEnd(h[m], bs, i - 1);
    OffNext(i - 1 - s, bs);
    OffNext(s, bs);
    OffMono(s + 1, i, bs);
    var next := AddBlock(runs, Off(i - 1, bs), bs, Changed);
    assert next[m] == Rec(Off(s, bs), Off(s, bs), Off(i - s, bs) % U32, Changed);
  }

  /** Records of groups are at least a block long. */
  lemma GroupLens(a: Word, b: Word, bs: nat, n: nat)
    requires 0 < bs < U32 && ShortGroups(a, b, bs, n)
    ensures forall k | 0 <= k < |BlockRuns(a, b, bs, n)| :: BlockRuns(a, b, bs, n)[k].len >= bs
  {
    hide SameBlock, BlockRuns, Off, Groups, ShortGroups, Stretch, InSome;
    GroupsAreGood(a, b, bs, n);
    RunsAreGroups(a, b, bs, n);
    var g, runs := Groups(a, b, bs, n), BlockRuns(a, b, bs, n);
    forall k | 0 <= k < |runs| ensures runs[k].len >= bs {
      assert MaximalGroup(a, b, bs, n, g[k].s, g[k].e);
      OffMono(0, g[k].e - g[k].s, bs);
    }
  }

  /** The same records come from groups that fit as well. */
  lemma AlikeFits(a: Word, b: Word, c: Word, bs: nat)
    requires 0 < bs < 0x8000_0000 && FitsB(a, b, bs) && Alike(a, b, c, bs)
    ensures FitsB(a, c, bs)
  {
    hide Off, BlockRuns, BlockCount, ShortGroups, Payloads;
    var n := Common(a, b, bs);
    GroupLens(a, b, bs, n);
    if !ShortGroups(a, c, bs, n) {
      LongGroupStuck(a, c, bs, n);
      var runs := BlockRuns(a, c, bs, n);
      var k :| 0 <= k < |runs| && runs[k].st == Changed && runs[k].len < bs;
      assert DiffRuns(a, c, bs)[k] == runs[k];
      assert DiffRuns(a, b, bs)[k] == runs[k];
      assert k < |BlockRuns(a, b, bs, n)|;
    }
  }

  /** What differs is recorded, and what is recorded is the same. */
  lemma AlikeEqual(a: Word, b: Word, c: Word, bs: nat)
    requires 0 < bs < 0x8000_0000 && FitsB(a, b, bs) && Alike(a, b, c, bs)
    ensures c == b
  {
    hide Off, BlockRuns, DiffRuns, BlockCount, FitsB, Patch;
    RebuildsB(a, b, bs);
    AlikeFits(a, b, c, bs);
    RebuildsB(a, c, bs);
  }

  /** There are no records exactly when the files are equal, whatever their sizes. */
  lemma EmptyIffEqual(a: Word, b: Word, bs: nat)
    requires 0 < bs < U32
    ensures DiffRuns(a, b, bs) == [] <==> a == b
  {
    hide Off, BlockRuns, BlockCount, SameBlock, Differs;
    var n := Common(a, b, bs);
    TailBounds(a, b, bs);
    if a == b {
      AllSame(a, b, bs, n);
    } else {
      var p := FirstDifference(a, b);
      var i := BlockOf(p, bs);
      DifferentBlock(a, b, bs, i, p);
      if i < n {
        SomeRun(a, b, bs, i, n);
      } else {
        OffMono(n, i, bs);
        assert p < |a| || p < |b| by { DiffersInside(a, b, p); }
      }
    }
  }

  lemma DiffersInside(a: Word, b: Word, p: nat)
    requires Differs(a, b, p)
    ensures p < |a| || p < |b|
  {
  }

  lemma FirstDifference(a: Word, b: Word) returns (p: nat)
    requires a != b
    ensures Differs(a, b, p)
  {
    if |a| != |b| {
      p := if |a| < |b| then |a| else |b|;
    } else {
      p :| 0 <= p < |a| && a[p] != b[p];
    }
  }

  lemma {:induction false} AllSame(a: Word, b: Word, bs: nat, n: nat)
    requires a == b
    ensures BlockRuns(a, b, bs, n) == []
  {
    hide Off, Slice;
    if n > 0 { AllSame(a, b, bs, n - 1); }
  }

  lemma AddSome(runs: seq<Rec>, at: nat, bs: nat, st: Status)
    requires runs != [] || st == Changed
    ensures AddBlock(runs, at, bs, st) != []
  {
  }

  lemma {:induction false} SomeRun(a: Word, b: Word, bs: nat, i: nat, n: nat)
    requires i < n && !SameBlock(a, b, bs, i)
    ensures BlockRuns(a, b, bs, n) != []
    decreases n
  {
    hide Off, AddBlock, SameBlock;
    if i < n - 1 { SomeRun(a, b, bs, i, n - 1); }
    AddSome(BlockRuns(a, b, bs, n - 1), Off(n - 1, bs), bs, BlockStatus(a, b, bs, n - 1));
  }

  // ---------------------------------------------------------------- swapping the inputs

  function Swapped(r: Rec): Rec {
    Rec(r.ob, r.oa, r.len, match r.st case Inserted => Deleted case Deleted => Inserted case s => s)
  }

  function SwapAll(runs: seq<Rec>): (s: seq<Rec>)
    ensures |s| == |runs| && forall k | 0 <= k < |runs| :: s[k] == Swapped(runs[k])
  {
    if runs == [] then [] else SwapAll(runs[..|runs| - 1]) + [Swapped(runs[|runs| - 1])]
  }

  lemma AddSwap(runs: seq<Rec>, at: nat, bs: nat, st: Status)
    requires Within(runs, at) && (st == Same || st == Changed)
    ensures AddBlock(SwapAll(runs), at, bs, st) == SwapAll(AddBlock(runs, at, bs, st))
  {
    hide SwapAll;
  }

  lemma {:induction false} BlockRunsSwap(a: Word, b: Word, bs: nat, n: nat)
    requires 0 < bs < U32
    ensures BlockRuns(b, a, bs, n) == SwapAll(BlockRuns(a, b, bs, n))
  {
    hide Off, AddBlock, Slice, SwapAll;
    if n > 0 {
      BlockRunsSwap(a, b, bs, n - 1);
      RunsEnd(a, b, bs, n - 1);
      AddSwap(BlockRuns(a, b, bs, n - 1), Off(n - 1, bs), bs, BlockStatus(a, b, bs, n - 1));
    }
  }

  /** Swapping the files swaps the offsets, and INSERTED with DELETED. */
  lemma DiffSwap(a: Word, b: Word, bs: nat)
    requires 0 < bs < U32
    ensures DiffRuns(b, a, bs) == SwapAll(DiffRuns(a, b, bs))
  {
    hide Off, BlockRuns, SwapAll, BlockCount;
    BlockRunsSwap(a, b, bs, Common(a, b, bs));
  }
}
