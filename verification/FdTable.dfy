/** The runtime shim: a reference-counted cache of mapped files and a table of fake descriptors, each
    under its own lock. The classes are proved against functions on their state; the same functions
    are the atomic steps of the two-lock system, whose invariants hold over every run. */
module FdTable {
  import opened Bytes

  const FD_BASE: int := 0x6000

  /** One more than the largest signed 64-bit offset. */
  const OFF_END: int := 0x8000_0000_0000_0000

  type Offset = x: int | -OFF_END <= x < OFF_END

  /** The cache key of a path, whatever normalisation gave it. */
  type Key = string

  /** A mapped file: the null address stands for an empty one, or for none at all. */
  datatype Slice = Slice(addr: nat, bytes: Word, id: nat)

  const NO_SLICE: Slice := Slice(0, [], 0)

  /** What mapping a file gives: nothing on failure, otherwise an address and the contents; only
      an empty file has the null address, and sizes are signed 64-bit offsets. */
  type Mapping = m: Option<(nat, Word)> |
    m.Some? ==> (m.value.0 == 0 <==> m.value.1 == []) && |m.value.1| < OFF_END witness None

  datatype Entry = Entry(slice: Slice, refs: nat)

  datatype Cache = Cache(slices: map<Key, Entry>, nextId: nat)

  datatype Handle = Handle(slice: Slice, pos: nat)

  datatype Table = Table(handles: map<int, Handle>, nextFd: int)

  // ---------------------------------------------------------------- the cache

  function IngestCache(c: Cache, key: Key, file: Mapping): (Cache, Slice) {
    if key in c.slices then
      var e := c.slices[key];
      (Cache(c.slices[key := Entry(e.slice, e.refs + 1)], c.nextId), e.slice)
    else if file.None? then (c, NO_SLICE)
    else
      var s := Slice(file.value.0, file.value.1, c.nextId);
      (Cache(c.slices[key := Entry(s, 1)], c.nextId + 1), s)
  }

  predicate Matches(e: Entry, s: Slice) {
    e.slice.id == s.id && e.slice.addr == s.addr
  }

  function Released(e: Entry): Entry {
    Entry(e.slice, if e.refs > 0 then e.refs - 1 else 0)
  }

  /** The entry of the slice loses one reference; nothing is ever unmapped here. */
  function ReleaseCache(c: Cache, s: Slice): Cache {
    Cache(map k | k in c.slices :: if Matches(c.slices[k], s) then Released(c.slices[k]) else c.slices[k], c.nextId)
  }

  predicate SliceOk(s: Slice) {
    (s.addr == 0 <==> s.bytes == []) && |s.bytes| < OFF_END
  }

  /** Identifiers are positive, below the counter, and different for different entries. */
  ghost predicate CacheOk(c: Cache) {
    && c.nextId > 0
    && (forall k | k in c.slices :: 0 < c.slices[k].slice.id < c.nextId)
    && (forall k | k in c.slices :: SliceOk(c.slices[k].slice))
    && (forall k, l | k in c.slices && l in c.slices && c.slices[k].slice.id == c.slices[l].slice.id :: k == l)
  }

  lemma ReleaseOk(c: Cache, s: Slice)
    requires CacheOk(c)
    ensures CacheOk(ReleaseCache(c, s))
  {
  }

  /** Only one entry can match. */
  lemma ReleaseOne(c: Cache, k: Key, s: Slice)
    requires CacheOk(c) && k in c.slices && Matches(c.slices[k], s)
    ensures ReleaseCache(c, s) == Cache(c.slices[k := Released(c.slices[k])], c.nextId)
    ensures c.slices[k].refs == 0 ==> ReleaseCache(c, s) == c
  {
    var d := ReleaseCache(c, s);
    assert d.slices == c.slices[k := Released(c.slices[k])];
    if c.slices[k].refs == 0 { assert d.slices == c.slices; }
  }

  /** A release lowers the references of the entry with the slice's identifier and address, and of no
      other; none is lowered below zero, and no entry goes. */
  lemma ReleaseExact(c: Cache, s: Slice, k: Key)
    ensures ReleaseCache(c, s).slices.Keys == c.slices.Keys && ReleaseCache(c, s).nextId == c.nextId
    ensures k in c.slices ==>
              var e := c.slices[k];
              ReleaseCache(c, s).slices[k] ==
              if e.slice.id == s.id && e.slice.addr == s.addr && e.refs > 0 then Entry(e.slice, e.refs - 1) else e
  {
  }

  lemma ReleaseNone(c: Cache, s: Slice)
    requires forall k | k in c.slices :: !Matches(c.slices[k], s)
    ensures ReleaseCache(c, s) == c
  {
    assert ReleaseCache(c, s).slices == c.slices;
  }

  class MmapCache {
    var slices: map<Key, Entry>
    var nextId: nat

    ghost function Value(): Cache
      reads this
    {
      Cache(slices, nextId)
    }

    constructor ()
      ensures Value() == Cache(map[], 1) && CacheOk(Value())
    {
      slices, nextId := map[], 1;
    }

    method Ingest(key: Key, file: Mapping) returns (s: Slice)
      requires CacheOk(Value())
      modifies this
      ensures (Value(), s) == IngestCache(old(Value()), key, file)
      ensures CacheOk(Value())
    {
      if key in slices {
        slices := slices[key := Entry(slices[key].slice, slices[key].refs + 1)];
        return slices[key].slice;
      }
      if file.None? { return NO_SLICE; }
      s := Slice(file.value.0, file.value.1, nextId);
      nextId := nextId + 1;
      slices := slices[key := Entry(s, 1)];
    }

    /** The entries are searched one by one; the search stops at the first match. */
    method Release(s: Slice)
      requires CacheOk(Value())
      modifies this
      ensures Value() == ReleaseCache(old(Value()), s)
      ensures CacheOk(Value())
    {
      hide ReleaseCache, CacheOk, Matches;
      ReleaseOk(Value(), s);
      var keys := slices.Keys;
      while keys != {}
        invariant slices == old(slices) && keys <= slices.Keys
        invariant forall k | k in slices && k !in keys :: !Matches(slices[k], s)
        decreases keys
      {
        var k :| k in keys;
        if Matches(slices[k], s) {
          ReleaseOne(Value(), k, s);
          if slices[k].refs > 0 { slices := slices[k := Entry(slices[k].slice, slices[k].refs - 1)]; }
          return;
        }
        keys := keys - {k};
      }
      ReleaseNone(Value(), s);
    }

    method Clear()
      modifies this
      ensures Value() == Cache(map[], old(nextId))
    {
      slices := map[];
    }
  }

  // ---------------------------------------------------------------- the table

  function InstallHandle(t: Table, s: Slice): Table {
    Table(t.handles[t.nextFd := Handle(s, 0)], t.nextFd + 1)
  }

  function EraseHandle(t: Table, fd: int): Table {
    Table(t.handles - {fd}, t.nextFd)
  }

  /** `size - pos` in unsigned 64-bit arithmetic. */
  function Avail(h: Handle): nat {
    (|h.slice.bytes| - h.pos) % U64
  }

  function Want(h: Handle, n: nat): (w: nat)
    ensures w <= n
  {
    if n < Avail(h) then n else Avail(h)
  }

  /** `Outside`: the copy would leave the slice. */
  datatype ReadOut = Data(bytes: Word) | BadFd | Outside

  function Copied(h: Handle, from: nat, n: nat): ReadOut {
    if n == 0 then Data([]) else if from + n <= |h.slice.bytes| then Data(h.slice.bytes[from..from + n]) else Outside
  }

  function ReadResult(t: Table, fd: int, n: nat): ReadOut {
    if fd !in t.handles then BadFd else Copied(t.handles[fd], t.handles[fd].pos, Want(t.handles[fd], n))
  }

  function ReadTable(t: Table, fd: int, n: nat): Table {
    if fd !in t.handles then t
    else
      var h := t.handles[fd];
      Table(t.handles[fd := Handle(h.slice, (h.pos + Want(h, n)) % U64)], t.nextFd)
  }

  datatype Whence = SeekSet | SeekCur | SeekEnd | OtherWhence

  /** A value taken into the range of a signed 64-bit offset by wrapping around. */
  function Signed(x: int): (r: int)
    ensures -(U64 as int) <= x < U64 ==> -OFF_END <= r < OFF_END
  {
    if x >= OFF_END then x - U64 else if x < -OFF_END then x + U64 else x
  }

  /** The target before it is checked. */
  function RawTarget(h: Handle, off: Offset, whence: Whence): int {
    match whence
    case SeekSet => off
    case SeekCur => Signed(Signed(h.pos) + off)
    case SeekEnd => Signed(|h.slice.bytes| + off)
    case OtherWhence => -1
  }

  /** The new position, or None for an error. */
  function SeekTarget(h: Handle, off: Offset, whence: Whence): Option<nat> {
    var target := RawTarget(h, off, whence);
    if target < 0 then None else Some(target)
  }

  function SeekTable(t: Table, fd: int, off: Offset, whence: Whence): Table {
    if fd in t.handles && SeekTarget(t.handles[fd], off, whence).Some? then
      Table(t.handles[fd := Handle(t.handles[fd].slice, SeekTarget(t.handles[fd], off, whence).value)], t.nextFd)
    else t
  }

  class Descriptors {
    var handles: map<int, Handle>
    var nextFd: int
    const cache: MmapCache

    ghost function Value(): Table
      reads this
    {
      Table(handles, nextFd)
    }

    constructor ()
      ensures Value() == Table(map[], FD_BASE) && fresh(cache) && cache.Value() == Cache(map[], 1)
    {
      handles, nextFd := map[], FD_BASE;
      cache := new MmapCache();
    }

    /** A null slice, of a file that cannot be mapped or of an empty one, gives -1. */
    method OpenRead(key: Key, file: Mapping) returns (fd: int)
      requires CacheOk(cache.Value())
      modifies this, cache
      ensures CacheOk(cache.Value())
      ensures var (c, s) := IngestCache(old(cache.Value()), key, file);
              && cache.Value() == c
              && fd == (if s.addr == 0 && s.bytes == [] then -1 else old(nextFd))
              && Value() == if s.addr == 0 && s.bytes == [] then old(Value()) else InstallHandle(old(Value()), s)
    {
      var s := cache.Ingest(key, file);
      if s.addr == 0 && |s.bytes| == 0 { return -1; }
      fd := nextFd;
      nextFd := nextFd + 1;
      handles := handles[fd := Handle(s, 0)];
    }

    method Read(fd: int, n: nat) returns (out: ReadOut)
      modifies this
      ensures out == ReadResult(old(Value()), fd, n) && Value() == ReadTable(old(Value()), fd, n)
    {
      if fd !in handles { return BadFd; }
      var h := handles[fd];
      var avail := (|h.slice.bytes| - h.pos) % U64;
      var want := if n < avail then n else avail;
      out := Data([]);
      if want != 0 {
        out := if h.pos + want <= |h.slice.bytes| then Data(h.slice.bytes[h.pos..h.pos + want]) else Outside;
      }
      handles := handles[fd := Handle(h.slice, (h.pos + want) % U64)];
    }

    /** Positioned reads never leave the slice and never move the handle. */
    method Pread(fd: int, n: nat, off: nat) returns (out: ReadOut)
      ensures out == if fd !in handles then BadFd
                     else if off >= |handles[fd].slice.bytes| then Data([])
                     else Data(handles[fd].slice.bytes[off..Min(off + n, |handles[fd].slice.bytes|)])
    {
      if fd !in handles { return BadFd; }
      var h := handles[fd];
      if off >= |h.slice.bytes| { return Data([]); }
      var avail := |h.slice.bytes| - off;
      var want := if n < avail then n else avail;
      out := Data([]);
      if want != 0 { out := Data(h.slice.bytes[off..off + want]); }
    }

    method Lseek(fd: int, off: Offset, whence: Whence) returns (r: int)
      modifies this
      ensures Value() == SeekTable(old(Value()), fd, off, whence)
      ensures r == if fd in old(handles) && SeekTarget(old(handles)[fd], off, whence).Some?
                   then SeekTarget(old(handles)[fd], off, whence).value else -1
      ensures fd in old(handles) && old(handles)[fd].pos < OFF_END && |old(handles)[fd].slice.bytes| < OFF_END ==>
                var h := old(handles)[fd];
                var t := off + if whence == SeekCur then h.pos else if whence == SeekEnd then |h.slice.bytes| else 0;
                && r == (if whence != OtherWhence && 0 <= t < OFF_END then t else -1)
                && handles == old(handles)[fd := Handle(h.slice, if r >= 0 then r else h.pos)]
    {
      if fd !in handles { return -1; }
      var h := handles[fd];
      var target;
      match whence {
        case SeekSet => target := off;
        case SeekCur => target := Signed(Signed(h.pos) + off);
        case SeekEnd => target := Signed(|h.slice.bytes| + off);
        case OtherWhence => return -1;
      }
      if target < 0 { return -1; }
      handles := handles[fd := Handle(h.slice, target)];
      r := target;
    }

    method Close(fd: int) returns (ok: bool)
      requires CacheOk(cache.Value())
      modifies this, cache
      ensures ok == (fd in old(handles)) && CacheOk(cache.Value())
      ensures Value() == if ok then EraseHandle(old(Value()), fd) else old(Value())
      ensures cache.Value() ==
              if ok then ReleaseCache(old(cache.Value()), old(handles)[fd].slice) else old(cache.Value())
    {
      if fd !in handles { return false; }
      cache.Release(handles[fd].slice);
      handles := handles - {fd};
      ok := true;
    }
  }

  // ---------------------------------------------------------------- single calls

  /** A read stays in its slice exactly when the position is within the size or nothing is asked. */
  lemma ReadInsideIff(h: Handle, n: nat)
    requires |h.slice.bytes| < U64 && h.pos < U64
    ensures Copied(h, h.pos, Want(h, n)) != Outside <==> h.pos <= |h.slice.bytes| || n == 0
  {
  }

  /** Within the size, a read returns the next min(n, rest) bytes and moves past them. */
  lemma ReadNext(t: Table, fd: int, n: nat)
    requires fd in t.handles && t.handles[fd].pos <= |t.handles[fd].slice.bytes| < U64
    ensures var h := t.handles[fd];
            var m := Min(h.pos + n, |h.slice.bytes|);
            && ReadResult(t, fd, n) == Data(h.slice.bytes[h.pos..m])
            && ReadTable(t, fd, n).handles[fd] == Handle(h.slice, m)
  {
  }

  /** Where a seek goes, in plain arithmetic: to the offset, to the position plus the offset, to the
      size plus the offset. It fails exactly when that is negative or no signed 64-bit offset, or the
      origin is unknown; only a position near 2^64 wraps around. */
  lemma SeekPlain(h: Handle, off: Offset, whence: Whence)
    requires h.pos < U64 && |h.slice.bytes| < OFF_END
    ensures whence == SeekSet ==> SeekTarget(h, off, whence) == if off >= 0 then Some(off) else None
    ensures whence == SeekCur ==>
              var t := h.pos + off;
              SeekTarget(h, off, whence) ==
              if 0 <= t < OFF_END then Some(t) else if t >= U64 then Some(t - U64) else None
    ensures whence == SeekEnd ==>
              var t := |h.slice.bytes| + off;
              SeekTarget(h, off, whence) == if 0 <= t < OFF_END then Some(t) else None
    ensures whence == OtherWhence ==> SeekTarget(h, off, whence) == None
  {
  }

  /** A read at a position past the size asks for a wrapped number of bytes, and moves on by as many. */
  lemma ReadPast(t: Table, fd: int, n: nat)
    requires fd in t.handles && |t.handles[fd].slice.bytes| < t.handles[fd].pos < U64 && n > 0
    ensures var h := t.handles[fd];
            var over := h.pos - |h.slice.bytes|;
            && ReadResult(t, fd, n) == Outside
            && ReadTable(t, fd, n).handles ==
               t.handles[fd := Handle(h.slice, (h.pos + if n < U64 - over then n else U64 - over) % U64)]
  {
  }

  // ---------------------------------------------------------------- the two-lock system

  /** What has been read since the last seek, and whether that seek stayed within the size. */
  datatype Trace = Trace(from: nat, got: Word, tame: bool)

  /** `inFlight` holds the slices of opens between their cache step and their table step; `closing`
      is the descriptor whose close holds the table lock after its release; `opens` counts the opens
      that found or made an entry, since the last clear. */
  datatype Sys = Sys(cache: Cache, table: Table, inFlight: multiset<Slice>, closing: Option<int>,
                     issued: seq<int>, traces: map<int, Trace>, opens: map<Key, nat>)

  datatype Action =
    | Ingest(key: Key, file: Mapping)
    | Install(slice: Slice)
    | Read(fd: int, n: nat)
    | Seek(fd: int, off: Offset, whence: Whence)
    | CloseRelease(fd: int)
    | CloseErase
    | Clear

  const START: Sys := Sys(Cache(map[], 1), Table(map[], FD_BASE), multiset{}, None, [], map[], map[])

  predicate IsNull(s: Slice) {
    s.addr == 0 && s.bytes == []
  }

  function NextTrace(tr: Trace, out: ReadOut): Trace {
    if out.Data? then Trace(tr.from, tr.got + out.bytes, tr.tame) else tr
  }

  function OpensOf(s: Sys, key: Key): nat {
    if key in s.opens then s.opens[key] else 0
  }

  function Cleared(s: Sys): Sys {
    Sys(Cache(map[], s.cache.nextId), s.table, s.inFlight, s.closing, s.issued, s.traces, map[])
  }

  /** No handle and no open is live. */
  predicate Idle(s: Sys) {
    s.table.handles == map[] && s.inFlight == multiset{}
  }

  /** One atomic step; a step whose lock or operand is missing does nothing. The cache may be
      cleared only when no handle and no open is live. */
  function Do(s: Sys, a: Action): Sys {
    match a
    case Ingest(key, file) =>
      var (c, slice) := IngestCache(s.cache, key, file);
      Sys(c, s.table, if IsNull(slice) then s.inFlight else s.inFlight + multiset{slice}, s.closing, s.issued, s.traces,
          if key in c.slices then s.opens[key := OpensOf(s, key) + 1] else s.opens)
    case Install(slice) =>
      if slice !in s.inFlight || s.closing.Some? then s
      else Sys(s.cache, InstallHandle(s.table, slice), s.inFlight - multiset{slice}, None,
               s.issued + [s.table.nextFd], s.traces[s.table.nextFd := Trace(0, [], true)], s.opens)
    case Read(fd, n) =>
      if fd !in s.table.handles || fd !in s.traces || s.closing.Some? then s
      else Sys(s.cache, ReadTable(s.table, fd, n), s.inFlight, None, s.issued,
               s.traces[fd := NextTrace(s.traces[fd], ReadResult(s.table, fd, n))], s.opens)
    case Seek(fd, off, whence) =>
      if fd !in s.table.handles || fd !in s.traces || s.closing.Some? then s
      else
        var h := s.table.handles[fd];
        var target := SeekTarget(h, off, whence);
        if target.None? then s
        else Sys(s.cache, SeekTable(s.table, fd, off, whence), s.inFlight, None, s.issued,
                 s.traces[fd := Trace(target.value, [], target.value <= |h.slice.bytes|)], s.opens)
    case CloseRelease(fd) =>
      if fd !in s.table.handles || s.closing.Some? then s
      else Sys(ReleaseCache(s.cache, s.table.handles[fd].slice), s.table, s.inFlight, Some(fd), s.issued, s.traces,
        s.opens)
    case CloseErase =>
      if s.closing.None? then s
      else Sys(s.cache, EraseHandle(s.table, s.closing.value), s.inFlight, None, s.issued, s.traces, s.opens)
    case Clear => if Idle(s) then Cleared(s) else s
  }

  function DoAll(actions: seq<Action>): Sys {
    if actions == [] then START else Do(DoAll(actions[..|actions| - 1]), actions[|actions| - 1])
  }

  // ---------------------------------------------------------------- the invariant

  ghost predicate Live(c: Cache, s: Slice) {
    exists k :: k in c.slices && c.slices[k].slice == s
  }

  /** The open handles on a slice whose reference is not yet given back. */
  ghost function Holders(t: Table, closing: Option<int>, s: Slice): set<int> {
    set fd | fd in t.handles && t.handles[fd].slice == s && closing != Some(fd)
  }

  ghost predicate RefsOk(s: Sys) {
    forall k | k in s.cache.slices && s.cache.slices[k].slice.bytes != [] ::
      var e := s.cache.slices[k];
      e.refs == |Holders(s.table, s.closing, e.slice)| + s.inFlight[e.slice]
  }

  /** No open of an empty file ever gives its reference back. */
  ghost predicate OpensOk(s: Sys) {
    && s.opens.Keys == s.cache.slices.Keys
    && forall k | k in s.cache.slices && s.cache.slices[k].slice.bytes == [] :: s.cache.slices[k].refs == OpensOf(s, k)
  }

  ghost predicate SlicesLive(s: Sys) {
    && (forall fd | fd in s.table.handles ::
          Live(s.cache, s.table.handles[fd].slice) && s.table.handles[fd].slice.bytes != [])
    && (forall x | x in s.inFlight :: Live(s.cache, x) && x.bytes != [])
  }

  ghost predicate FdsOk(s: Sys) {
    && s.table.nextFd == FD_BASE + |s.issued|
    && (forall i | 0 <= i < |s.issued| :: s.issued[i] == FD_BASE + i)
    && (forall fd | fd in s.table.handles :: fd in s.issued)
    && (s.closing.Some? ==> s.closing.value in s.table.handles)
  }

  ghost predicate TraceOk(h: Handle, tr: Trace) {
    && h.pos < U64
    && (tr.tame ==> tr.from <= h.pos <= |h.slice.bytes| && tr.got == h.slice.bytes[tr.from..h.pos])
  }

  ghost predicate TracesOk(s: Sys) {
    forall fd | fd in s.table.handles :: fd in s.traces && TraceOk(s.table.handles[fd], s.traces[fd])
  }

  ghost predicate Inv(s: Sys) {
    CacheOk(s.cache) && RefsOk(s) && OpensOk(s) && SlicesLive(s) && FdsOk(s) && TracesOk(s)
  }

  // ---------------------------------------------------------------- every step keeps it

  lemma LiveId(c: Cache, x: Slice)
    requires CacheOk(c) && Live(c, x)
    ensures x.id < c.nextId && SliceOk(x)
  {
  }

  lemma StillLive(c: Cache, d: Cache, x: Slice)
    requires Live(c, x) && forall k | k in c.slices :: k in d.slices && d.slices[k].slice == c.slices[k].slice
    ensures Live(d, x)
  {
    var k :| k in c.slices && c.slices[k].slice == x;
    assert d.slices[k].slice == x;
  }

  lemma SlicesStayLive(s: Sys, c: Cache)
    requires SlicesLive(s)
    requires forall k | k in s.cache.slices :: k in c.slices && c.slices[k].slice == s.cache.slices[k].slice
    ensures SlicesLive(Sys(c, s.table, s.inFlight, s.closing, s.issued, s.traces, s.opens))
  {
    hide Live;
    forall fd | fd in s.table.handles ensures Live(c, s.table.handles[fd].slice) {
      StillLive(s.cache, c, s.table.handles[fd].slice);
    }
    forall x | x in s.inFlight ensures Live(c, x) { StillLive(s.cache, c, x); }
  }

  /** A slice with a fresh identifier has no handle and no open. */
  lemma FreshSlice(s: Sys, x: Slice)
    requires CacheOk(s.cache) && SlicesLive(s) && x.id >= s.cache.nextId
    ensures |Holders(s.table, s.closing, x)| == 0 && s.inFlight[x] == 0
  {
    hide Live;
    if x in s.inFlight { LiveId(s.cache, x); }
    forall fd | fd in s.table.handles
      ensures s.table.handles[fd].slice != x
    {
      LiveId(s.cache, s.table.handles[fd].slice);
    }
    assert Holders(s.table, s.closing, x) == {};
  }

  lemma IngestInv(s: Sys, key: Key, file: Mapping)
    requires Inv(s)
    ensures Inv(Do(s, Ingest(key, file)))
  {
    hide Live, Holders, SlicesLive, FdsOk, TracesOk, RefsOk, OpensOk, CacheOk, SliceOk;
    var t := Do(s, Ingest(key, file));
    SameTable(s, t);
    IngestOpens(s, key, file);
    IngestCacheOk(s.cache, key, file);
    SlicesStayLive(s, t.cache);
    var x := IngestCache(s.cache, key, file).1;
    if key in s.cache.slices {
      EntryOk(s.cache, key);
      IngestLive(s, t, key, x);
      HitRefs(s, key, file);
    } else if file.Some? {
      IngestLive(s, t, key, x);
      MissRefs(s, key, file);
    } else {
      assert t == s;
    }
  }

  lemma IngestOpens(s: Sys, key: Key, file: Mapping)
    requires OpensOk(s)
    ensures OpensOk(Do(s, Ingest(key, file)))
  {
    var t := Do(s, Ingest(key, file));
    assert t.opens.Keys == t.cache.slices.Keys;
  }

  lemma EntryOk(c: Cache, key: Key)
    requires CacheOk(c) && key in c.slices
    ensures SliceOk(c.slices[key].slice) && (IsNull(c.slices[key].slice) <==> c.slices[key].slice.bytes == [])
  {
  }

  lemma IngestCacheOk(c: Cache, key: Key, file: Mapping)
    requires CacheOk(c)
    ensures CacheOk(IngestCache(c, key, file).0)
  {
  }

  lemma SameId(c: Cache, k: Key, l: Key)
    requires CacheOk(c) && k in c.slices && l in c.slices && c.slices[k].slice == c.slices[l].slice
    ensures k == l
  {
  }

  /** A hit adds one reference and one open in flight to one entry. */
  lemma HitRefs(s: Sys, key: Key, file: Mapping)
    requires CacheOk(s.cache) && RefsOk(s) && key in s.cache.slices
    ensures RefsOk(Do(s, Ingest(key, file)))
  {
    hide Holders, CacheOk;
    var t := Do(s, Ingest(key, file));
    EntryOk(s.cache, key);
    forall k | k in t.cache.slices && t.cache.slices[k].slice.bytes != []
      ensures t.cache.slices[k].refs ==
              |Holders(t.table, t.closing, t.cache.slices[k].slice)| + t.inFlight[t.cache.slices[k].slice]
    {
      if s.cache.slices[k].slice == s.cache.slices[key].slice { SameId(s.cache, k, key); }
    }
  }

  lemma MissRefs(s: Sys, key: Key, file: Mapping)
    requires CacheOk(s.cache) && RefsOk(s) && SlicesLive(s) && key !in s.cache.slices && file.Some?
    ensures RefsOk(Do(s, Ingest(key, file)))
  {
    hide Holders, CacheOk, SlicesLive;
    var t := Do(s, Ingest(key, file));
    var x := Slice(file.value.0, file.value.1, s.cache.nextId);
    FreshSlice(s, x);
    forall k | k in t.cache.slices && t.cache.slices[k].slice.bytes != []
      ensures t.cache.slices[k].refs ==
              |Holders(t.table, t.closing, t.cache.slices[k].slice)| + t.inFlight[t.cache.slices[k].slice]
    {
      if k != key { OldId(s.cache, k); }
    }
  }

  lemma OldId(c: Cache, k: Key)
    requires CacheOk(c) && k in c.slices
    ensures c.slices[k].slice.id < c.nextId
  {
  }

  lemma SameOpens(s: Sys, t: Sys)
    requires t.cache == s.cache && t.opens == s.opens
    ensures OpensOk(t) == OpensOk(s)
  {
  }

  lemma SameTable(s: Sys, t: Sys)
    requires t.table == s.table && t.issued == s.issued && t.closing == s.closing && t.traces == s.traces
    ensures FdsOk(t) == FdsOk(s) && TracesOk(t) == TracesOk(s)
  {
  }

  lemma IngestLive(s: Sys, t: Sys, key: Key, x: Slice)
    requires SlicesLive(Sys(t.cache, s.table, s.inFlight, s.closing, s.issued, s.traces, s.opens))
    requires t.table == s.table && t.inFlight == if IsNull(x) then s.inFlight else s.inFlight + multiset{x}
    requires !IsNull(x) ==> x.bytes != [] && key in t.cache.slices && t.cache.slices[key].slice == x
    ensures SlicesLive(t)
  {
    assert !IsNull(x) ==> Live(t.cache, x);
  }

  lemma HoldersHas(t: Table, closing: Option<int>, y: Slice, fd: int)
    ensures fd in Holders(t, closing, y) <==> fd in t.handles && t.handles[fd].slice == y && closing != Some(fd)
  {
  }

  lemma InstallHolders(t: Table, x: Slice, y: Slice)
    requires t.nextFd !in t.handles
    ensures |Holders(InstallHandle(t, x), None, y)| == |Holders(t, None, y)| + if x == y then 1 else 0
  {
    hide Holders;
    var u := InstallHandle(t, x);
    var a, b := Holders(t, None, y), Holders(u, None, y);
    HoldersHas(t, None, y, t.nextFd);
    forall fd ensures fd in b <==> fd in a || (x == y && fd == t.nextFd) {
      HoldersHas(t, None, y, fd);
      HoldersHas(u, None, y, fd);
    }
    if x == y { assert b == a + {t.nextFd}; } else { assert b == a; }
  }

  lemma InstallInv(s: Sys, x: Slice)
    requires Inv(s)
    ensures Inv(Do(s, Install(x)))
  {
    hide Live, Holders, CacheOk, OpensOk;
    SameOpens(s, Do(s, Install(x)));
    if x in s.inFlight && s.closing.None? {
      var t := Do(s, Install(x));
      forall k | k in t.cache.slices { InstallHolders(s.table, x, t.cache.slices[k].slice); }
      InstallFds(s, x);
      assert TracesOk(t);
    }
  }

  lemma InstallFds(s: Sys, x: Slice)
    requires FdsOk(s) && x in s.inFlight && s.closing.None?
    ensures FdsOk(Do(s, Install(x)))
  {
    var t := Do(s, Install(x));
    assert t.issued[|s.issued|] == s.table.nextFd;
    forall fd | fd in t.table.handles ensures fd in t.issued { assert fd == s.table.nextFd || fd in s.issued; }
  }

  /** Moving a handle leaves who holds what. */
  lemma MovedHolders(t: Table, fd: int, pos: nat, closing: Option<int>, y: Slice)
    requires fd in t.handles
    ensures Holders(Table(t.handles[fd := Handle(t.handles[fd].slice, pos)], t.nextFd), closing, y) ==
            Holders(t, closing, y)
  {
  }

  lemma MoveInv(s: Sys, fd: int, pos: nat, tr: Trace)
    requires Inv(s) && fd in s.table.handles && s.closing.None?
    requires TraceOk(Handle(s.table.handles[fd].slice, pos), tr)
    ensures Inv(Sys(s.cache, Table(s.table.handles[fd := Handle(s.table.handles[fd].slice, pos)], s.table.nextFd),
                    s.inFlight, None, s.issued, s.traces[fd := tr], s.opens))
  {
    hide Live, Holders, CacheOk, TraceOk, OpensOk;
    SameOpens(s, Sys(s.cache, Table(s.table.handles[fd := Handle(s.table.handles[fd].slice, pos)], s.table.nextFd),
                     s.inFlight, None, s.issued, s.traces[fd := tr], s.opens));
    forall k | k in s.cache.slices { MovedHolders(s.table, fd, pos, None, s.cache.slices[k].slice); }
  }

  /** Successive reads are consecutive. */
  lemma ReadTrace(h: Handle, tr: Trace, n: nat)
    requires |h.slice.bytes| < U64 && TraceOk(h, tr)
    ensures TraceOk(Handle(h.slice, (h.pos + Want(h, n)) % U64), NextTrace(tr, Copied(h, h.pos, Want(h, n))))
  {
    if tr.tame {
      var m := h.pos + Want(h, n);
      assert Avail(h) == |h.slice.bytes| - h.pos;
      assert h.slice.bytes[tr.from..m] == h.slice.bytes[tr.from..h.pos] + h.slice.bytes[h.pos..m];
    }
  }

  lemma HandleSize(s: Sys, fd: int)
    requires CacheOk(s.cache) && SlicesLive(s) && fd in s.table.handles
    ensures |s.table.handles[fd].slice.bytes| < OFF_END
  {
    hide Live;
    LiveId(s.cache, s.table.handles[fd].slice);
  }

  lemma ReadInv(s: Sys, fd: int, n: nat)
    requires Inv(s)
    ensures Inv(Do(s, Read(fd, n)))
  {
    hide TraceOk, RefsOk, OpensOk, SlicesLive, FdsOk, CacheOk, Want, Copied;
    if fd in s.table.handles && s.closing.None? {
      var h := s.table.handles[fd];
      HandleSize(s, fd);
      ReadTrace(h, s.traces[fd], n);
      MoveInv(s, fd, (h.pos + Want(h, n)) % U64, NextTrace(s.traces[fd], Copied(h, h.pos, Want(h, n))));
    }
  }

  lemma TargetBound(h: Handle, off: Offset, whence: Whence)
    requires h.pos < U64 && |h.slice.bytes| < OFF_END
    ensures SeekTarget(h, off, whence).Some? ==> SeekTarget(h, off, whence).value < OFF_END
  {
  }

  lemma SeekInv(s: Sys, fd: int, off: Offset, whence: Whence)
    requires Inv(s)
    ensures Inv(Do(s, Seek(fd, off, whence)))
  {
    hide RefsOk, OpensOk, SlicesLive, FdsOk, CacheOk, SeekTarget;
    if fd in s.table.handles && s.closing.None? {
      var h := s.table.handles[fd];
      HandleSize(s, fd);
      TargetBound(h, off, whence);
      var target := SeekTarget(h, off, whence);
      if target.Some? {
        MoveInv(s, fd, target.value, Trace(target.value, [], target.value <= |h.slice.bytes|));
      }
    }
  }

  lemma ReleaseHolders(t: Table, fd: int, y: Slice)
    requires fd in t.handles
    ensures |Holders(t, None, y)| == |Holders(t, Some(fd), y)| + if t.handles[fd].slice == y then 1 else 0
  {
    hide Holders;
    var a, b := Holders(t, None, y), Holders(t, Some(fd), y);
    HoldersHas(t, Some(fd), y, fd);
    forall g ensures g in a <==> g in b || (t.handles[fd].slice == y && g == fd) {
      HoldersHas(t, None, y, g);
      HoldersHas(t, Some(fd), y, g);
    }
    if t.handles[fd].slice == y { assert a == b + {fd}; } else { assert a == b; }
  }

  lemma MatchIsSame(c: Cache, k: Key, x: Slice)
    requires CacheOk(c) && k in c.slices && Live(c, x)
    ensures Matches(c.slices[k], x) <==> c.slices[k].slice == x
  {
  }

  lemma CloseReleaseInv(s: Sys, fd: int)
    requires Inv(s)
    ensures Inv(Do(s, CloseRelease(fd)))
  {
    hide Live, Holders, Matches, SliceOk, RefsOk, OpensOk;
    if fd in s.table.handles && s.closing.None? {
      var t := Do(s, CloseRelease(fd));
      SlicesStayLive(s, t.cache);
      ReleaseRefs(s, fd);
      ReleaseOpens(s, fd);
    }
  }

  /** A handle is never on an empty file, so a close leaves the references of empty files alone. */
  lemma ReleaseOpens(s: Sys, fd: int)
    requires CacheOk(s.cache) && OpensOk(s) && SlicesLive(s) && fd in s.table.handles && s.closing.None?
    ensures OpensOk(Do(s, CloseRelease(fd)))
  {
    hide Live, Matches, SliceOk, CacheOk;
    var t := Do(s, CloseRelease(fd));
    assert t.cache.slices.Keys == s.cache.slices.Keys;
    forall k | k in s.cache.slices && s.cache.slices[k].slice.bytes == []
      ensures t.cache.slices[k] == s.cache.slices[k]
    {
      MatchIsSame(s.cache, k, s.table.handles[fd].slice);
    }
  }

  lemma ReleaseRefs(s: Sys, fd: int)
    requires CacheOk(s.cache) && RefsOk(s) && SlicesLive(s) && fd in s.table.handles && s.closing.None?
    ensures RefsOk(Do(s, CloseRelease(fd)))
  {
    hide Live, Holders, Matches, SliceOk, CacheOk;
    var t := Do(s, CloseRelease(fd));
    forall k | k in s.cache.slices && s.cache.slices[k].slice.bytes != []
      ensures t.cache.slices[k].refs ==
              |Holders(t.table, t.closing, t.cache.slices[k].slice)| + t.inFlight[t.cache.slices[k].slice]
    {
      ReleaseHolders(s.table, fd, s.cache.slices[k].slice);
      MatchIsSame(s.cache, k, s.table.handles[fd].slice);
    }
  }

  lemma EraseHolders(t: Table, fd: int, y: Slice)
    ensures Holders(EraseHandle(t, fd), None, y) == Holders(t, Some(fd), y)
  {
  }

  lemma CloseEraseInv(s: Sys)
    requires Inv(s)
    ensures Inv(Do(s, CloseErase))
  {
    hide Live, Holders, CacheOk, OpensOk;
    SameOpens(s, Do(s, CloseErase));
    if s.closing.Some? {
      forall k | k in s.cache.slices { EraseHolders(s.table, s.closing.value, s.cache.slices[k].slice); }
    }
  }

  lemma StepInv(s: Sys, a: Action)
    requires Inv(s)
    ensures Inv(Do(s, a))
  {
    hide Inv, Do;
    match a {
      case Ingest(key, file) => IngestInv(s, key, file);
      case Install(x) => InstallInv(s, x);
      case Read(fd, n) => ReadInv(s, fd, n);
      case Seek(fd, off, whence) => SeekInv(s, fd, off, whence);
      case CloseRelease(fd) => CloseReleaseInv(s, fd);
      case CloseErase => CloseEraseInv(s);
      case Clear => ClearInv(s);
    }
  }

  lemma ClearInv(s: Sys)
    requires Inv(s)
    ensures Inv(Do(s, Clear))
  {
  }

  lemma StartInv()
    ensures Inv(START)
  {
  }

  /** In every reachable state of every interleaving: identifiers are unique; the references of an
      entry are its open handles plus its opens in flight, or, for an empty file, all the opens since
      the last clear; every handle's slice is in the cache; descriptors count up; and what a handle
      has returned since its last seek is consecutive. */
  lemma {:induction false} EveryRun(actions: seq<Action>)
    ensures Inv(DoAll(actions))
  {
    hide Inv, Do;
    StartInv();
    if actions != [] {
      EveryRun(actions[..|actions| - 1]);
      StepInv(DoAll(actions[..|actions| - 1]), actions[|actions| - 1]);
    }
  }

  // ---------------------------------------------------------------- consequences

  /** No descriptor is ever handed out twice, and none below 0x6000. */
  lemma NeverReused(actions: seq<Action>)
    ensures var issued := DoAll(actions).issued;
            forall i, j | 0 <= i < j < |issued| :: FD_BASE <= issued[i] < issued[j]
  {
    hide OpensOk, RefsOk, SlicesLive, TracesOk, CacheOk, DoAll;
    EveryRun(actions);
  }

  /** When no close is under way, an entry without open handles and without opens in flight has no
      references, and one with a reference is in use. */
  lemma UnusedIffNoRefs(actions: seq<Action>, key: Key)
    requires key in DoAll(actions).cache.slices && DoAll(actions).cache.slices[key].slice.bytes != []
    requires DoAll(actions).closing.None?
    ensures var s := DoAll(actions);
            s.cache.slices[key].refs == 0 <==>
            s.cache.slices[key].slice !in s.inFlight &&
            forall fd | fd in s.table.handles :: s.table.handles[fd].slice != s.cache.slices[key].slice
  {
    hide OpensOk, SlicesLive, TracesOk, CacheOk, DoAll, FdsOk, Holders;
    EveryRun(actions);
    var s := DoAll(actions);
    NoHolders(s.table, s.cache.slices[key].slice);
  }

  lemma NoHolders(t: Table, y: Slice)
    ensures |Holders(t, None, y)| == 0 <==> forall fd | fd in t.handles :: t.handles[fd].slice != y
  {
    var a := Holders(t, None, y);
    if |a| == 0 {
      assert a == {};
      forall fd | fd in t.handles ensures t.handles[fd].slice != y { HoldersHas(t, None, y, fd); }
    }
    if forall fd | fd in t.handles :: t.handles[fd].slice != y { assert a == {}; }
  }

  /** While the last seek on a descriptor landed within its file, the bytes returned since then are
      the file's bytes from the seek target up to the position. */
  lemma ReadsAreConsecutive(actions: seq<Action>, fd: int)
    requires fd in DoAll(actions).table.handles
    ensures var s := DoAll(actions);
            fd in s.traces &&
            var h, tr := s.table.handles[fd], s.traces[fd];
            Live(s.cache, h.slice) &&
            (tr.tame ==> tr.from <= h.pos <= |h.slice.bytes| && tr.got == h.slice.bytes[tr.from..h.pos])
  {
    hide OpensOk, RefsOk, CacheOk, DoAll, FdsOk, Live;
    EveryRun(actions);
  }

  /** In every reachable state a read leaves its slice exactly when the position is past the size and
      something is asked for. */
  lemma OutsideExactly(actions: seq<Action>, fd: int, n: nat)
    requires fd in DoAll(actions).table.handles
    ensures var t := DoAll(actions).table;
            ReadResult(t, fd, n) == Outside <==> t.handles[fd].pos > |t.handles[fd].slice.bytes| && n > 0
  {
    hide OpensOk, RefsOk, FdsOk, DoAll, Live;
    EveryRun(actions);
    HandleSize(DoAll(actions), fd);
    ReadInsideIff(DoAll(actions).table.handles[fd], n);
  }

  lemma DoAllSnoc(actions: seq<Action>, a: Action)
    ensures DoAll(actions + [a]) == Do(DoAll(actions), a)
  {
    hide Do;
    assert (actions + [a])[..|actions|] == actions;
  }

  lemma OpenSteps(key: Key, addr: nat, w: Word)
    requires addr > 0 && w != [] && |w| < OFF_END
    ensures var x := Slice(addr, w, 1);
            var s := Do(Do(START, Ingest(key, Some((addr, w)))), Install(x));
            s.table.handles == map[FD_BASE := Handle(x, 0)] && FD_BASE in s.traces && s.closing == None
  {
    var x := Slice(addr, w, 1);
    var s := Do(START, Ingest(key, Some((addr, w))));
    assert s.inFlight == multiset{x} && s.closing == None && s.table == START.table;
  }

  lemma SeekMoves(s: Sys, fd: int, pos: Offset)
    requires fd in s.table.handles && fd in s.traces && s.closing == None && pos >= 0
    ensures var t := Do(s, Seek(fd, pos, SeekSet)).table;
            fd in t.handles && t.handles[fd] == Handle(s.table.handles[fd].slice, pos)
  {
  }

  /** Such a state is reached on every non-empty file: open it, and seek past its end. */
  lemma OutsideReached(key: Key, addr: nat, w: Word, pos: int, n: nat) returns (actions: seq<Action>)
    requires addr > 0 && w != [] && |w| < pos < OFF_END && n > 0
    ensures FD_BASE in DoAll(actions).table.handles && DoAll(actions).table.handles[FD_BASE].slice.bytes == w
    ensures ReadResult(DoAll(actions).table, FD_BASE, n) == Outside
  {
    hide Do, DoAll, ReadResult;
    var a, b, c := Ingest(key, Some((addr, w))), Install(Slice(addr, w, 1)), Seek(FD_BASE, pos, SeekSet);
    actions := [a] + [b] + [c];
    NoActions();
    assert [] + [a] == [a];
    DoAllSnoc([], a);
    DoAllSnoc([a], b);
    DoAllSnoc([a] + [b], c);
    OpenSteps(key, addr, w);
    SeekMoves(DoAll([a] + [b]), FD_BASE, pos);
    OutsideExactly(actions, FD_BASE, n);
  }

  lemma NoActions()
    ensures DoAll([]) == START
  {
  }

  /** In every reachable state: a seek back from the end by at most the size, and a read of at least as
      many bytes, return the last bytes of the file, and no more. */
  lemma TailReads(actions: seq<Action>, fd: int, k: nat, n: nat)
    requires fd in DoAll(actions).table.handles && DoAll(actions).closing == None
    requires k <= |DoAll(actions).table.handles[fd].slice.bytes| && k <= n
    ensures k <= OFF_END
    ensures var w := DoAll(actions).table.handles[fd].slice.bytes;
            var t := Do(DoAll(actions), Seek(fd, 0 - k, SeekEnd)).table;
            && ReadResult(t, fd, n) == Data(w[|w| - k..])
            && fd in ReadTable(t, fd, n).handles && ReadTable(t, fd, n).handles[fd].pos == |w|
  {
    hide OpensOk, RefsOk, FdsOk, DoAll, Live, SeekTarget, ReadResult;
    EveryRun(actions);
    var s := DoAll(actions);
    HandleSize(s, fd);
    SeekPlain(s.table.handles[fd], 0 - k, SeekEnd);
    ReadNext(Do(s, Seek(fd, 0 - k, SeekEnd)).table, fd, n);
  }

  /** In every reachable state a seek by nothing from the position tells the position, if that is a
      signed offset, and never moves. */
  lemma TellStays(actions: seq<Action>, fd: int)
    requires fd in DoAll(actions).table.handles
    ensures var h := DoAll(actions).table.handles[fd];
            && SeekTarget(h, 0, SeekCur) == (if h.pos < OFF_END then Some(h.pos) else None)
            && Do(DoAll(actions), Seek(fd, 0, SeekCur)).table == DoAll(actions).table
  {
    hide OpensOk, RefsOk, FdsOk, DoAll, Live, SeekTarget;
    EveryRun(actions);
    var s := DoAll(actions);
    HandleSize(s, fd);
    SeekPlain(s.table.handles[fd], 0, SeekCur);
    SameHandle(s.table, fd);
  }

  lemma SameHandle(t: Table, fd: int)
    requires fd in t.handles
    ensures t.handles[fd := Handle(t.handles[fd].slice, t.handles[fd].pos)] == t.handles
  {
  }

  /** A seek that moves a handle leaves it within its file. */
  ghost predicate SeekWithin(s: Sys, a: Action) {
    a.Seek? && a.fd in s.table.handles && SeekTarget(s.table.handles[a.fd], a.off, a.whence).Some? ==>
      SeekTarget(s.table.handles[a.fd], a.off, a.whence).value <= |s.table.handles[a.fd].slice.bytes|
  }

  ghost predicate AllTame(s: Sys) {
    forall fd | fd in s.table.handles && fd in s.traces :: s.traces[fd].tame
  }

  lemma StepTame(s: Sys, a: Action)
    requires AllTame(s) && SeekWithin(s, a)
    ensures AllTame(Do(s, a))
  {
    hide IngestCache, ReleaseCache, SeekTarget, ReadResult;
  }

  lemma {:induction false} RunTame(actions: seq<Action>)
    requires forall k | 0 <= k < |actions| :: SeekWithin(DoAll(actions[..k]), actions[k])
    ensures AllTame(DoAll(actions))
  {
    hide Do, SeekWithin;
    if actions == [] {
      NoTraces();
    } else {
      var n := |actions| - 1;
      forall k | 0 <= k < n ensures SeekWithin(DoAll(actions[..n][..k]), actions[..n][k]) {
        assert actions[..n][..k] == actions[..k];
      }
      RunTame(actions[..n]);
      StepTame(DoAll(actions[..n]), actions[n]);
    }
  }

  lemma NoTraces()
    ensures AllTame(START)
  {
  }

  /** In a run whose seeks all land within the size of their file, no read ever leaves its slice. */
  lemma TameRunStaysInside(actions: seq<Action>, fd: int, n: nat)
    requires forall k | 0 <= k < |actions| :: SeekWithin(DoAll(actions[..k]), actions[k])
    requires fd in DoAll(actions).table.handles
    ensures ReadResult(DoAll(actions).table, fd, n) != Outside
  {
    hide SeekWithin, DoAll, ReadResult;
    RunTame(actions);
    ReadsAreConsecutive(actions, fd);
    OutsideExactly(actions, fd, n);
  }

  /** Undisturbed, the two steps of an open are what `OpenRead` does, and the two steps of a close
      are what `Close` does. */
  lemma StepsAreCalls(s: Sys, key: Key, file: Mapping, fd: int)
    requires s.closing.None?
    ensures var (c, x) := IngestCache(s.cache, key, file);
            var t := if IsNull(x) then Do(s, Ingest(key, file)) else Do(Do(s, Ingest(key, file)), Install(x));
            && t.cache == c && t.table == (if IsNull(x) then s.table else InstallHandle(s.table, x))
            && t.inFlight == s.inFlight
    ensures fd in s.table.handles ==>
              var t := Do(Do(s, CloseRelease(fd)), CloseErase);
              && t.cache == ReleaseCache(s.cache, s.table.handles[fd].slice)
              && t.table == EraseHandle(s.table, fd) && t.closing == None
  {
    hide IngestCache, ReleaseCache;
  }

  /** The steps of a read and of a seek are what `Read` and `Lseek` do. */
  lemma ReadSeekCalls(actions: seq<Action>, fd: int, n: nat, off: Offset, whence: Whence)
    requires DoAll(actions).closing.None?
    ensures var s := DoAll(actions);
            && Do(s, Read(fd, n)).table == ReadTable(s.table, fd, n)
            && Do(s, Seek(fd, off, whence)).table == SeekTable(s.table, fd, off, whence)
            && Do(s, Read(fd, n)).cache == s.cache == Do(s, Seek(fd, off, whence)).cache
  {
    hide OpensOk, RefsOk, CacheOk, DoAll, FdsOk, SlicesLive, TraceOk, SeekTarget, Want;
    EveryRun(actions);
  }

  /** Clearing the cache keeps the invariant exactly when no handle and no open is live. */
  lemma ClearExactly(s: Sys)
    requires Inv(s)
    ensures Inv(Cleared(s)) <==> Idle(s)
  {
    hide OpensOk, Live, RefsOk, CacheOk, FdsOk, TracesOk;
    ClearInv(s);
    EmptyLives(s.cache.nextId);
    if s.table.handles != map[] {
      var fd := SomeHandle(s.table.handles);
      assert !Live(Cleared(s).cache, Cleared(s).table.handles[fd].slice);
    } else if s.inFlight != multiset{} {
      var x :| x in s.inFlight;
      assert !Live(Cleared(s).cache, x);
    }
  }

  lemma SomeHandle(handles: map<int, Handle>) returns (fd: int)
    requires handles != map[]
    ensures fd in handles
  {
    assert (forall f: int :: f !in handles) ==> handles == map[];
    fd :| fd in handles;
  }

  lemma EmptyLives(nextId: nat)
    ensures forall x :: !Live(Cache(map[], nextId), x)
  {
  }

  /** Steps other than a clear keep every entry's slice. */
  lemma CachedStays(s: Sys, a: Action, key: Key)
    requires key in s.cache.slices && a != Clear
    ensures key in Do(s, a).cache.slices && Do(s, a).cache.slices[key].slice == s.cache.slices[key].slice
  {
  }

  /** No identifier is given twice, not even across a clear: only a new entry moves the counter, by one,
      and takes the number. */
  lemma IdsAscend(s: Sys, a: Action, key: Key)
    ensures Do(s, a).cache.nextId == s.cache.nextId || exists k :: Added(s, Do(s, a), k)
    ensures Added(s, Do(s, a), key) ==>
              Do(s, a).cache.slices[key].slice.id == s.cache.nextId == Do(s, a).cache.nextId - 1
  {
    if a.Ingest? && a.key !in s.cache.slices && a.file.Some? { assert Added(s, Do(s, a), a.key); }
  }

  ghost predicate Added(s: Sys, t: Sys, key: Key) {
    key in t.cache.slices && key !in s.cache.slices
  }

  function DoFrom(s: Sys, actions: seq<Action>): Sys {
    if actions == [] then s else Do(DoFrom(s, actions[..|actions| - 1]), actions[|actions| - 1])
  }

  /** Between clears, every open of a key after the first gets the first one's slice, without
      looking at the file again. */
  lemma {:induction false} SameSlice(s: Sys, actions: seq<Action>, key: Key, file: Mapping)
    requires key in s.cache.slices && Clear !in actions
    ensures key in DoFrom(s, actions).cache.slices
    ensures IngestCache(DoFrom(s, actions).cache, key, file).1 == s.cache.slices[key].slice
  {
    hide Do;
    if actions != [] {
      SameSlice(s, actions[..|actions| - 1], key, file);
      CachedStays(DoFrom(s, actions[..|actions| - 1]), actions[|actions| - 1], key);
    }
  }

  /** An open fails exactly when the entry, or the file when there is no entry, is empty or the file
      cannot be mapped; for an empty one it fails after taking a reference nobody will give back. */
  lemma OpenFailsExactly(c: Cache, key: Key, file: Mapping)
    requires CacheOk(c)
    ensures var (d, x) := IngestCache(c, key, file);
            && (IsNull(x) <==>
                  if key in c.slices then c.slices[key].slice.bytes == [] else file.None? || file.value.1 == [])
            && (key in c.slices || file.Some? ==>
                  key in d.slices && d.slices[key].refs == (if key in c.slices then c.slices[key].refs else 0) + 1)
  {
  }
}
