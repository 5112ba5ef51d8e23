/** The growing byte buffer that every tool writes its result into. */
module FlatArena {
  import opened Bytes

  const ALIGN: nat := 64
  const FIRST: nat := 0x10_0000

  // ---------------------------------------------------------------- the state, as a value

  /** `copied` counts the bytes that growing has moved since the arena was empty. */
  datatype State = State(contents: Word, capacity: nat, copied: nat)

  const EMPTY: State := State([], 0, 0)

  function RoundUp(n: nat): (r: nat)
    ensures r >= n && r % ALIGN == 0 && r < n + ALIGN
  {
    (n + ALIGN - 1) / ALIGN * ALIGN
  }

  /** The first of n, 2n, 4n, ... that is large enough. */
  function Doubled(n: nat, need: nat): (r: nat)
    requires n > 0
    ensures r >= need && r >= n
    ensures r == n || r < 2 * need
    ensures n % ALIGN == 0 ==> r % ALIGN == 0
    ensures n < need ==> r >= 2 * n
    decreases need - n
  {
    if n < need then Doubled(2 * n, need) else n
  }

  /** `n`, doubled `k` times. */
  function Times2(n: nat, k: nat): nat
    decreases k
  {
    if k == 0 then n else Times2(2 * n, k - 1)
  }

  /** No doubling less would do. */
  lemma {:induction false} DoubledIs(n: nat, need: nat) returns (k: nat)
    requires n > 0
    ensures Doubled(n, need) == Times2(n, k) && (k > 0 ==> Times2(n, k - 1) < need)
    decreases need - n
  {
    k := 0;
    if n < need {
      var j := DoubledIs(2 * n, need);
      k := j + 1;
    }
  }

  function Reserved(s: State, capacity: nat, alloc: bool): State {
    if capacity <= s.capacity || !alloc then s
    else State(s.contents, RoundUp(capacity), s.copied + |s.contents|)
  }

  /** The state in which `n` more bytes have room. */
  function RoomFor(s: State, n: nat): State {
    if |s.contents| + n <= s.capacity then s
    else Reserved(s, Doubled(if s.capacity == 0 then FIRST else s.capacity, |s.contents| + n), true)
  }

  /** Whether an append of `w` succeeds; `alloc` says whether the allocator would serve it. */
  predicate Fits(s: State, w: Word, alloc: bool) {
    |s.contents| + |w| <= s.capacity || alloc
  }

  function Appended(s: State, w: Word, alloc: bool): State {
    if !Fits(s, w, alloc) then s
    else
      var t := RoomFor(s, |w|);
      State(s.contents + w, t.capacity, t.copied)
  }

  lemma RoomKeeps(s: State, n: nat)
    ensures RoomFor(s, n).contents == s.contents
  {
  }

  ghost predicate Sound(s: State) {
    |s.contents| <= s.capacity && s.capacity % ALIGN == 0
  }

  // ---------------------------------------------------------------- runs of calls

  datatype Call = Reserve(capacity: nat, alloc: bool) | Append(w: Word, alloc: bool) | Reset

  function Do(s: State, c: Call): State {
    match c
    case Reserve(n, alloc) => Reserved(s, n, alloc)
    case Append(w, alloc) => Appended(s, w, alloc)
    case Reset => EMPTY
  }

  function DoAll(calls: seq<Call>): State {
    if calls == [] then EMPTY else Do(DoAll(calls[..|calls| - 1]), calls[|calls| - 1])
  }

  lemma DoSound(s: State, c: Call)
    requires Sound(s)
    ensures Sound(Do(s, c))
  {
  }

  /** After any calls, the size is within the capacity and the capacity is a multiple of 64. */
  lemma {:induction false} AlwaysSound(calls: seq<Call>)
    ensures Sound(DoAll(calls))
  {
    if calls != [] {
      AlwaysSound(calls[..|calls| - 1]);
      DoSound(DoAll(calls[..|calls| - 1]), calls[|calls| - 1]);
    }
  }

  /** Everything appended since the last reset, apart from appends that were refused. */
  ghost function Written(calls: seq<Call>): Word {
    if calls == [] then []
    else
      var before := calls[..|calls| - 1];
      match calls[|calls| - 1]
      case Reserve(_, _) => Written(before)
      case Append(w, alloc) => Written(before) + if Fits(DoAll(before), w, alloc) then w else []
      case Reset => []
  }

  /** The contents are the concatenation of the appends that were served, in order. */
  lemma {:induction false} HoldsAll(calls: seq<Call>)
    ensures DoAll(calls).contents == Written(calls)
  {
    hide Reserved, RoomFor;
    if calls != [] {
      var n := |calls| - 1;
      HoldsAll(calls[..n]);
      DoContents(DoAll(calls[..n]), calls[n]);
    }
  }

  lemma DoContents(s: State, c: Call)
    ensures Do(s, c).contents ==
            match c
            case Reserve(_, _) => s.contents
            case Append(w, alloc) => s.contents + if Fits(s, w, alloc) then w else []
            case Reset => []
  {
    if c.Append? && !Fits(s, c.w, c.alloc) { assert s.contents + [] == s.contents; }
  }

  lemma DoExtends(s: State, c: Call)
    requires !c.Reset?
    ensures s.contents <= Do(s, c).contents
  {
  }

  lemma AppendWrites(s: State, w: Word, alloc: bool)
    requires Fits(s, w, alloc)
    ensures Appended(s, w, alloc).contents == s.contents + w
  {
  }

  lemma SlicePrefix(x: Word, y: Word, i: nat, j: nat)
    requires x <= y && i <= j <= |x|
    ensures x[i..j] == y[i..j]
  {
  }

  /** Until a reset, what an append wrote stays at the offset it returned, whatever is appended or
      reserved later and whether or not that succeeds. */
  lemma {:induction false} OffsetStays(calls: seq<Call>, k: nat)
    requires k < |calls| && calls[k].Append? && Fits(DoAll(calls[..k]), calls[k].w, calls[k].alloc)
    requires forall l | k < l < |calls| :: !calls[l].Reset?
    ensures var off := |DoAll(calls[..k]).contents|;
            off + |calls[k].w| <= |DoAll(calls).contents| &&
              DoAll(calls).contents[off..off + |calls[k].w|] == calls[k].w
  {
    hide Appended, Reserved, Fits;
    var n := |calls| - 1;
    var off, e := |DoAll(calls[..k]).contents|, |DoAll(calls[..k]).contents| + |calls[k].w|;
    if k < n {
      assert calls[..n][..k] == calls[..k];
      OffsetStays(calls[..n], k);
      DoExtends(DoAll(calls[..n]), calls[n]);
      SlicePrefix(DoAll(calls[..n]).contents, DoAll(calls).contents, off, e);
    } else {
      AppendWrites(DoAll(calls[..k]), calls[k].w, calls[k].alloc);
    }
  }

  /** With appends only, the capacity is at most twice the size (or the first megabyte), and all the
      growing together has moved no more bytes than the capacity. */
  ghost predicate Frugal(s: State) {
    && s.capacity <= (if FIRST < 2 * |s.contents| then 2 * |s.contents| else FIRST)
    && s.copied <= s.capacity
  }

  lemma RoundUpExact(n: nat)
    requires n % ALIGN == 0
    ensures RoundUp(n) == n
  {
  }

  lemma AppendFrugal(s: State, w: Word, alloc: bool)
    requires Sound(s) && Frugal(s)
    ensures Frugal(Appended(s, w, alloc))
  {
    var need := |s.contents| + |w|;
    if need > s.capacity && alloc {
      var nc := Doubled(if s.capacity == 0 then FIRST else s.capacity, need);
      RoundUpExact(nc);
    }
  }

  lemma {:induction false} AppendsFrugal(calls: seq<Call>)
    requires forall k | 0 <= k < |calls| :: calls[k].Append?
    ensures Frugal(DoAll(calls))
  {
    if calls != [] {
      var n := |calls| - 1;
      AppendsFrugal(calls[..n]);
      AlwaysSound(calls[..n]);
      AppendFrugal(DoAll(calls[..n]), calls[n].w, calls[n].alloc);
    }
  }

  // ---------------------------------------------------------------- the class

  method Memcpy(dst: array<byte>, at: nat, src: Word)
    requires at + |src| <= dst.Length
    modifies dst
    ensures dst[..at] == old(dst[..at]) && dst[at..at + |src|] == src
    ensures dst[at + |src|..] == old(dst[at + |src|..])
  {
    for k := 0 to |src|
      invariant dst[..at] == old(dst[..at]) && dst[at..at + k] == src[..k]
      invariant dst[at + |src|..] == old(dst[at + |src|..])
    {
      dst[at + k] := src[k];
    }
  }

  class Arena {
    var mem: array?<byte>
    var capacity: nat
    var size: nat
    ghost var copied: nat

    ghost predicate Valid()
      reads this, mem
    {
      && size <= capacity && capacity % ALIGN == 0
      && (mem == null <==> capacity == 0)
      && (mem != null ==> mem.Length == capacity)
    }

    ghost function Value(): State
      reads this, mem
      requires Valid()
    {
      State(if mem == null then [] else mem[..size], capacity, copied)
    }

    constructor ()
      ensures Valid() && Value() == EMPTY && mem == null
    {
      mem, capacity, size, copied := null, 0, 0, 0;
    }

    /** The move constructor leaves the source empty and takes its memory. */
    constructor Move(other: Arena)
      requires other.Valid()
      modifies other
      ensures Valid() && other.Valid()
      ensures Value() == old(other.Value()) && other.Value() == EMPTY
      ensures mem == old(other.mem) && other.mem == null
    {
      mem, capacity, size, copied := other.mem, other.capacity, other.size, other.copied;
      new;
      other.mem, other.capacity, other.size, other.copied := null, 0, 0, 0;
    }

    /** Move assignment; moving an arena to itself changes nothing. */
    method Assign(other: Arena)
      requires Valid() && other.Valid() && (this == other || mem == null || mem != other.mem)
      modifies this, other
      ensures Valid() && other.Valid()
      ensures Value() == old(other.Value())
      ensures other != this ==> other.Value() == EMPTY
      ensures mem == old(other.mem)
    {
      if this != other {
        mem, capacity, size, copied := other.mem, other.capacity, other.size, other.copied;
        other.mem, other.capacity, other.size, other.copied := null, 0, 0, 0;
      }
    }

    /** A larger block is allocated, the written bytes are copied over, the old block is freed. */
    method Reserve(wanted: nat, alloc: bool) returns (ok: bool)
      requires Valid()
      modifies this
      ensures Valid() && Value() == Reserved(old(Value()), wanted, alloc)
      ensures ok == (wanted <= old(capacity) || alloc)
      ensures wanted <= old(capacity) || !alloc ==> mem == old(mem) && capacity == old(capacity)
      ensures wanted > old(capacity) && alloc ==>
                fresh(mem) && wanted <= capacity < wanted + 64 && size == old(size) && copied == old(copied) + old(size)
    {
      if wanted <= capacity { return true; }
      var rounded := RoundUp(wanted);
      if !alloc { return false; }
      var m := new byte[rounded];
      if mem != null { Memcpy(m, 0, mem[..size]); }
      copied := copied + size;
      mem, capacity := m, rounded;
      ok := true;
    }

    method Grow(need: nat, alloc: bool) returns (ok: bool)
      requires Valid() && need > capacity
      modifies this
      ensures Valid() && ok == alloc
      ensures Value() ==
              Reserved(old(Value()), Doubled(if old(capacity) == 0 then FIRST else old(capacity), need), alloc)
      ensures mem == old(mem) || fresh(mem)
      ensures !alloc ==> mem == old(mem)
    {
      hide Reserved;
      var nc := if capacity != 0 then capacity else FIRST;
      ghost var first := nc;
      while nc < need
        invariant nc > 0 && Doubled(nc, need) == Doubled(first, need)
        decreases need - nc
      {
        nc := nc * 2;
      }
      ok := Reserve(nc, alloc);
    }

    method MakeRoom(n: nat, alloc: bool) returns (ok: bool)
      requires Valid()
      modifies this
      ensures Valid() && ok == (old(size) + n <= old(capacity) || alloc)
      ensures Value() == if ok then RoomFor(old(Value()), n) else old(Value())
      ensures size == old(size) && (ok ==> size + n <= capacity)
      ensures old(size) + n <= old(capacity) || !ok ==> mem == old(mem) && capacity == old(capacity)
      ensures mem == old(mem) || fresh(mem)
    {
      ok := true;
      if size + n > capacity { ok := Grow(size + n, alloc); }
    }

    /** Copies `w` to the end and returns its offset, or -1 when there is no memory for it. */
    method Append(w: Word, alloc: bool) returns (off: int)
      requires Valid()
      modifies this, mem
      ensures Valid() && Value() == Appended(old(Value()), w, alloc)
      ensures off == if old(size) + |w| <= old(capacity) || alloc then old(size) else -1
      ensures size == if off >= 0 then old(size) + |w| else old(size)
      ensures old(size) + |w| <= old(capacity) || off < 0 ==> mem == old(mem) && capacity == old(capacity)
      ensures mem == old(mem) || fresh(mem)
    {
      hide RoomFor;
      ghost var was := Value();
      var ok := MakeRoom(|w|, alloc);
      if !ok { return -1; }
      off := size;
      ghost var room := Value();
      RoomKeeps(was, |w|);
      if mem != null {
        Memcpy(mem, off, w);
        assert mem[..off + |w|] == mem[..off] + mem[off..off + |w|];
      }
      size := size + |w|;
      assert Value().contents == was.contents + w;
    }

    method ResetAll()
      requires Valid()
      modifies this
      ensures Valid() && Value() == EMPTY && mem == null
    {
      mem, capacity, size, copied := null, 0, 0, 0;
    }
  }
}
