/** Any number of workers sharing one fetch-and-add counter. A worker repeatedly fetches an offset
    and then works on it, appending to its own output; the two steps of different workers
    interleave freely. `work(s)` is what a worker produces for the offset `s`. */
module Schedule {

  datatype Phase = Idle | Busy(s: nat) | Done

  datatype Worker<R> = Worker(phase: Phase, out: seq<R>)

  datatype State<R> = State(next: nat, workers: seq<Worker<R>>)

  /** The fixed data of a run: the stride of the counter, the file size, and the work. */
  datatype Job<!R> = Job(stride: nat, total: nat, work: nat -> seq<R>)

  ghost function InitState<R>(n: nat): State<R> {
    State(0, seq(n, i => Worker(Idle, [])))
  }

  /** One atomic step of worker `i`: the fetch-and-add, or the work on the fetched offset. */
  ghost function Step<R>(job: Job<R>, st: State<R>, i: nat): State<R> {
    if i >= |st.workers| then st
    else
      var w := st.workers[i];
      match w.phase
      case Done => st
      case Idle =>
        var phase := if st.next >= job.total then Done else Busy(st.next);
        State(st.next + job.stride, st.workers[i := Worker(phase, w.out)])
      case Busy(s) =>
        State(st.next, st.workers[i := Worker(Idle, w.out + job.work(s))])
  }

  /** The state after the schedule `sched`, which names the worker that moves at each step. */
  ghost function Run<R>(job: Job<R>, n: nat, sched: seq<nat>): State<R> {
    if sched == [] then InitState(n)
    else Step(job, Run(job, n, sched[..|sched| - 1]), sched[|sched| - 1])
  }

  ghost predicate AllDone<R>(st: State<R>) {
    forall i | 0 <= i < |st.workers| :: st.workers[i].phase == Done
  }

  /** The merge after the join: the outputs in worker order. */
  ghost function Merged<R>(workers: seq<Worker<R>>): seq<R> {
    if workers == [] then [] else Merged(workers[..|workers| - 1]) + workers[|workers| - 1].out
  }

  /** The merge keeps the outputs in worker order. */
  lemma {:induction false} MergedConcat<R>(a: seq<Worker<R>>, b: seq<Worker<R>>)
    ensures Merged(a + b) == Merged(a) + Merged(b)
  {
    var n := |b| - 1;
    if b == [] {
      assert a + b == a;
    } else {
      assert (a + b)[..|a + b| - 1] == a + b[..n] && (a + b)[|a + b| - 1] == b[n];
      MergedConcat(a, b[..n]);
      Reassociate(Merged(a), Merged(b[..n]), b[n].out);
    }
  }

  lemma Reassociate<A>(a: seq<A>, b: seq<A>, c: seq<A>)
    ensures (a + b) + c == a + (b + c)
  {
  }

  /** One pass over the offsets s, s + stride, ... by a single worker. */
  ghost function Sequential<R>(job: Job<R>, s: nat): seq<R>
    requires job.stride > 0
    decreases job.total - s
  {
    if s >= job.total then [] else job.work(s) + Sequential(job, s + job.stride)
  }

  // ---------------------------------------------------------------- conservation

  /** What worker `w` has produced or is committed to produce. */
  ghost function Share<R>(job: Job<R>, w: Worker<R>): multiset<R> {
    multiset(w.out) + if w.phase.Busy? then multiset(job.work(w.phase.s)) else multiset{}
  }

  ghost function Shares<R>(job: Job<R>, workers: seq<Worker<R>>): multiset<R> {
    if workers == [] then multiset{}
    else Shares(job, workers[..|workers| - 1]) + Share(job, workers[|workers| - 1])
  }

  /** If two totals differ from a common rest by x and y, they still do after adding z. */
  lemma AddBoth<R>(a: multiset<R>, b: multiset<R>, x: multiset<R>, y: multiset<R>, z: multiset<R>)
    requires a + x == b + y
    ensures (a + z) + x == (b + z) + y
  {
    assert (a + z) + x == (a + x) + z;
    assert (b + z) + y == (b + y) + z;
  }

  lemma {:induction false} SharesUpdate<R>(job: Job<R>, workers: seq<Worker<R>>, i: nat, w: Worker<R>)
    requires i < |workers|
    ensures Shares(job, workers[i := w]) + Share(job, workers[i]) == Shares(job, workers) + Share(job, w)
  {
    hide Share;
    var n := |workers| - 1;
    var init, last := workers[..n], workers[n];
    if i < n {
      SharesUpdate(job, init, i, w);
      assert workers[i := w][..n] == init[i := w];
      AddBoth(Shares(job, init[i := w]), Shares(job, init), Share(job, init[i]), Share(job, w), Share(job, last));
    } else {
      assert workers[i := w][..n] == init;
      assert (Shares(job, init) + Share(job, w)) + Share(job, last) ==
             (Shares(job, init) + Share(job, last)) + Share(job, w);
    }
  }

  lemma {:induction false} SharesFresh<R>(job: Job<R>, n: nat)
    ensures Shares(job, InitState<R>(n).workers) == multiset{}
  {
    if n != 0 {
      SharesFresh(job, n - 1);
      assert InitState<R>(n).workers[..n - 1] == InitState<R>(n - 1).workers;
    }
  }

  /** Whatever has been produced, is being produced, and is still to be fetched always adds up to
      the sequential result; and a worker only stops when the counter has passed the end. */
  ghost predicate Conserves<R>(job: Job<R>, st: State<R>)
    requires job.stride > 0
  {
    && Shares(job, st.workers) + multiset(Sequential(job, st.next)) == multiset(Sequential(job, 0))
    && StopsLate(job, st)
  }

  ghost predicate StopsLate<R>(job: Job<R>, st: State<R>) {
    forall i | 0 <= i < |st.workers| && st.workers[i].phase == Done :: st.next >= job.total
  }

  lemma StepStopsLate<R>(job: Job<R>, st: State<R>, i: nat)
    requires StopsLate(job, st)
    ensures StopsLate(job, Step(job, st, i))
  {
    var st' := Step(job, st, i);
    forall j | 0 <= j < |st'.workers| && st'.workers[j].phase == Done
      ensures st'.next >= job.total
    {
      if j != i { assert st.workers[j].phase == Done; }
    }
  }

  lemma Cancel<R>(a: multiset<R>, b: multiset<R>, x: multiset<R>, z: multiset<R>)
    requires b + x == a + (x + z)
    ensures b == a + z
  {
    assert a + (x + z) == (a + z) + x;
    assert (b + x) - x == b && ((a + z) + x) - x == a + z;
  }

  /** Moving `z` from one part of a whole to the other. */
  lemma Regroup<R>(a: multiset<R>, b: multiset<R>, z: multiset<R>, a': multiset<R>, b': multiset<R>, whole: multiset<R>)
    requires a + b == whole && b == z + b' && a' == a + z
    ensures a' + b' == whole
  {
    assert (a + z) + b' == a + (z + b');
  }

  lemma ShareAfterWork<R>(job: Job<R>, w: Worker<R>)
    requires w.phase.Busy?
    ensures Share(job, Worker(Idle, w.out + job.work(w.phase.s))) == Share(job, w) + multiset{}
  {
  }

  lemma ShareAfterFetch<R>(job: Job<R>, out: seq<R>, s: nat)
    ensures Share(job, Worker(if s >= job.total then Done else Busy(s), out)) ==
            Share(job, Worker(Idle, out)) + Fetched(job, s)
  {
  }

  /** A worker whose share grows by `z` makes the shares grow by `z`. */
  lemma SharesGrow<R>(job: Job<R>, workers: seq<Worker<R>>, i: nat, w: Worker<R>, z: multiset<R>)
    requires i < |workers| && Share(job, w) == Share(job, workers[i]) + z
    ensures Shares(job, workers[i := w]) == Shares(job, workers) + z
  {
    hide Share;
    SharesUpdate(job, workers, i, w);
    Cancel(Shares(job, workers), Shares(job, workers[i := w]), Share(job, workers[i]), z);
  }

  /** What the next fetch takes out of what is left. */
  ghost function Fetched<R>(job: Job<R>, s: nat): multiset<R> {
    if s < job.total then multiset(job.work(s)) else multiset{}
  }

  lemma SequentialUnfold<R>(job: Job<R>, s: nat)
    requires job.stride > 0
    ensures multiset(Sequential(job, s)) == Fetched(job, s) + multiset(Sequential(job, s + job.stride))
  {
  }

  /** Working on the fetched offset turns a commitment into output. */
  lemma WorkConserves<R>(job: Job<R>, st: State<R>, i: nat)
    requires job.stride > 0 && Conserves(job, st) && i < |st.workers| && st.workers[i].phase.Busy?
    ensures Conserves(job, Step(job, st, i))
  {
    var w' := Step(job, st, i).workers[i];
    StepStopsLate(job, st, i);
    hide Share, Shares, Sequential, StopsLate;
    ShareAfterWork(job, st.workers[i]);
    SharesGrow(job, st.workers, i, w', multiset{});
    var rest := multiset(Sequential(job, st.next));
    Regroup(Shares(job, st.workers), rest, multiset{}, Shares(job, st.workers[i := w']), rest,
      multiset(Sequential(job, 0)));
  }

  lemma FetchShares<R>(job: Job<R>, st: State<R>, i: nat, w': Worker<R>)
    requires job.stride > 0 && Conserves(job, st) && i < |st.workers| && st.workers[i].phase.Idle?
    requires w' == Worker(if st.next >= job.total then Done else Busy(st.next), st.workers[i].out)
    ensures Shares(job, st.workers[i := w']) + multiset(Sequential(job, st.next + job.stride)) ==
            multiset(Sequential(job, 0))
  {
    hide Share, Shares, Sequential, Fetched, StopsLate;
    var a, z, b' := Shares(job, st.workers), Fetched(job, st.next), multiset(Sequential(job, st.next + job.stride));
    ShareAfterFetch(job, st.workers[i].out, st.next);
    SharesGrow(job, st.workers, i, w', z);
    SequentialUnfold(job, st.next);
    Regroup(a, multiset(Sequential(job, st.next)), z, a + z, b', multiset(Sequential(job, 0)));
  }

  /** Fetching an offset takes its work out of what is left. */
  lemma FetchConserves<R>(job: Job<R>, st: State<R>, i: nat)
    requires job.stride > 0 && Conserves(job, st) && i < |st.workers| && st.workers[i].phase.Idle?
    ensures Conserves(job, Step(job, st, i))
  {
    hide Share, Shares, Sequential, Fetched, StopsLate, Step;
    var w' := Worker(if st.next >= job.total then Done else Busy(st.next), st.workers[i].out);
    StepStopsLate(job, st, i);
    FetchShares(job, st, i, w');
    StepFetch(job, st, i, w');
  }

  lemma StepFetch<R>(job: Job<R>, st: State<R>, i: nat, w': Worker<R>)
    requires i < |st.workers| && st.workers[i].phase.Idle?
    requires w' == Worker(if st.next >= job.total then Done else Busy(st.next), st.workers[i].out)
    ensures Step(job, st, i) == State(st.next + job.stride, st.workers[i := w'])
  {
  }

  lemma StepConserves<R>(job: Job<R>, st: State<R>, i: nat)
    requires job.stride > 0 && Conserves(job, st)
    ensures Conserves(job, Step(job, st, i))
  {
    if i < |st.workers| {
      match st.workers[i].phase
      case Done =>
      case Idle => FetchConserves(job, st, i);
      case Busy(_) => WorkConserves(job, st, i);
    }
  }

  lemma {:induction false} RunConserves<R>(job: Job<R>, n: nat, sched: seq<nat>)
    requires job.stride > 0
    ensures Conserves(job, Run(job, n, sched)) && |Run(job, n, sched).workers| == n
  {
    if sched == [] {
      SharesFresh(job, n);
    } else {
      RunConserves(job, n, sched[..|sched| - 1]);
      StepConserves(job, Run(job, n, sched[..|sched| - 1]), sched[|sched| - 1]);
    }
  }

  lemma {:induction false} SharesBound<R>(job: Job<R>, workers: seq<Worker<R>>)
    ensures multiset(Merged(workers)) <= Shares(job, workers)
    ensures (forall i | 0 <= i < |workers| :: workers[i].phase == Done) ==>
              multiset(Merged(workers)) == Shares(job, workers)
  {
    if workers != [] { SharesBound(job, workers[..|workers| - 1]); }
  }

  /** In every reachable state of every interleaving, no result has been produced too often. */
  lemma NothingTwice<R>(job: Job<R>, n: nat, sched: seq<nat>)
    requires job.stride > 0
    ensures multiset(Merged(Run(job, n, sched).workers)) <= multiset(Sequential(job, 0))
  {
    RunConserves(job, n, sched);
    SharesBound(job, Run(job, n, sched).workers);
  }

  /** When all workers of an interleaving have stopped, the merged outputs are a permutation of
      the sequential result. */
  lemma InterleavingComplete<R>(job: Job<R>, n: nat, sched: seq<nat>)
    requires job.stride > 0 && n > 0 && AllDone(Run(job, n, sched))
    ensures multiset(Merged(Run(job, n, sched).workers)) == multiset(Sequential(job, 0))
  {
    RunConserves(job, n, sched);
    var st := Run(job, n, sched);
    SharesBound(job, st.workers);
    assert st.workers[0].phase == Done;
  }

  // ---------------------------------------------------------------- one worker at a time

  /** The work on a list of offsets, in order; offsets past the end give nothing. */
  ghost function Works<R>(job: Job<R>, offsets: seq<nat>): seq<R> {
    if offsets == [] then []
    else
      var s := offsets[|offsets| - 1];
      Works(job, offsets[..|offsets| - 1]) + if s < job.total then job.work(s) else []
  }

  /** The offsets that worker `i` fetches in a run. */
  ghost function Took<R>(job: Job<R>, n: nat, sched: seq<nat>, i: nat): seq<nat> {
    if sched == [] then []
    else
      var m := |sched| - 1;
      var before := Run(job, n, sched[..m]);
      Took(job, n, sched[..m], i) +
      if sched[m] == i && i < |before.workers| && before.workers[i].phase == Idle then [before.next] else []
  }

  lemma WorksSnoc<R>(job: Job<R>, offsets: seq<nat>, s: nat)
    ensures Works(job, offsets + [s]) == Works(job, offsets) + if s < job.total then job.work(s) else []
  {
    assert (offsets + [s])[..|offsets|] == offsets;
  }

  /** What the output of a worker and its pending work amount to. */
  ghost predicate TookMatches<R>(job: Job<R>, w: Worker<R>, took: seq<nat>, next: nat)
  {
    && (match w.phase
        case Idle => w.out == Works(job, took)
        case Busy(s) => s < job.total && w.out + job.work(s) == Works(job, took)
        case Done => w.out == Works(job, took) && took != [] && took[|took| - 1] >= job.total)
    && (forall k | 0 <= k < |took| :: took[k] + job.stride <= next)
    && (forall k, l | 0 <= k < l < |took| :: took[k] + job.stride <= took[l])
  }

  lemma StepMatches<R>(job: Job<R>, st: State<R>, i: nat, j: nat, took: seq<nat>)
    requires i < |st.workers| && TookMatches(job, st.workers[i], took, st.next)
    ensures var fetched := if j == i && st.workers[i].phase == Idle then [st.next] else [];
            TookMatches(job, Step(job, st, j).workers[i], took + fetched, Step(job, st, j).next)
  {
    hide Works;
    if j == i && st.workers[i].phase == Idle {
      WorksSnoc(job, took, st.next);
      var all := took + [st.next];
      assert st.workers[i].out + [] == st.workers[i].out;
      assert forall k | 0 <= k < |all| :: all[k] + job.stride <= st.next + job.stride;
    } else {
      assert took + [] == took;
    }
  }

  /** In every reachable state of every interleaving, a worker's output is the work on the offsets
      it fetched, in the order in which it fetched them; a worker that has stopped last fetched one
      past the end. */
  lemma {:induction false} RunIsWorks<R>(job: Job<R>, n: nat, sched: seq<nat>, i: nat)
    requires job.stride > 0 && i < n
    ensures |Run(job, n, sched).workers| == n
    ensures TookMatches(job, Run(job, n, sched).workers[i], Took(job, n, sched, i), Run(job, n, sched).next)
  {
    hide TookMatches, Works;
    if sched == [] {
      TookNothing(job, n, i);
    } else {
      var m := |sched| - 1;
      RunIsWorks(job, n, sched[..m], i);
      StepMatches(job, Run(job, n, sched[..m]), i, sched[m], Took(job, n, sched[..m], i));
    }
  }

  lemma TookNothing<R>(job: Job<R>, n: nat, i: nat)
    requires i < n
    ensures TookMatches(job, InitState(n).workers[i], [], 0)
  {
  }

  /** The offsets s, s + stride, ..., `count` of them. */
  ghost function Consecutive(s: nat, stride: nat, count: nat): seq<nat>
    decreases count
  {
    if count == 0 then [] else [s] + Consecutive(s + stride, stride, count - 1)
  }

  lemma {:induction false} WorksCons<R>(job: Job<R>, s: nat, offsets: seq<nat>)
    ensures Works(job, [s] + offsets) == (if s < job.total then job.work(s) else []) + Works(job, offsets)
  {
    hide Works;
    var n := |offsets| - 1;
    WorksNothing(job);
    var first := if s < job.total then job.work(s) else [];
    if offsets == [] {
      WorksSnoc(job, [], s);
      assert [] + [s] == [s] + offsets;
      assert [] + first == first + [];
    } else {
      Reassociate(first, Works(job, offsets[..n]), if offsets[n] < job.total then job.work(offsets[n]) else []);
      WorksCons(job, s, offsets[..n]);
      WorksSnoc(job, [s] + offsets[..n], offsets[n]);
      assert [s] + offsets == ([s] + offsets[..n]) + [offsets[n]];
      WorksSnoc(job, offsets[..n], offsets[n]);
      assert offsets == offsets[..n] + [offsets[n]];
    }
  }

  /** A worker that meets no competition does the whole sequential work. */
  lemma {:induction false} SoloIsSequential<R>(job: Job<R>, s: nat, count: nat)
    requires job.stride > 0 && s + count * job.stride >= job.total
    ensures Works(job, Consecutive(s, job.stride, count)) == Sequential(job, s)
    decreases count
  {
    hide Works;
    if count == 0 {
      WorksNothing(job);
    } else {
      assert s + count * job.stride == (s + job.stride) + (count - 1) * job.stride;
      SoloIsSequential(job, s + job.stride, count - 1);
      WorksCons(job, s, Consecutive(s + job.stride, job.stride, count - 1));
      if s >= job.total { SequentialPast(job, s + job.stride); }
    }
  }

  lemma WorksNothing<R>(job: Job<R>)
    ensures Works(job, []) == []
  {
  }

  lemma SequentialPast<R>(job: Job<R>, s: nat)
    requires job.stride > 0 && s >= job.total
    ensures Sequential(job, s) == []
  {
  }

  // ---------------------------------------------------------------- termination

  ghost function Weight(p: Phase): nat {
    match p
    case Idle => 1
    case Busy(_) => 2
    case Done => 0
  }

  ghost function Weights<R>(workers: seq<Worker<R>>): nat {
    if workers == [] then 0 else Weights(workers[..|workers| - 1]) + Weight(workers[|workers| - 1].phase)
  }

  /** What is left of a run: two steps per byte not yet fetched, and the steps each worker still owes. */
  ghost function Remaining<R>(job: Job<R>, st: State<R>): nat {
    (if st.next < job.total then 2 * (job.total - st.next) else 0) + Weights(st.workers)
  }

  lemma {:induction false} WeightsUpdate<R>(workers: seq<Worker<R>>, i: nat, w: Worker<R>)
    requires i < |workers|
    ensures Weights(workers[i := w]) + Weight(workers[i].phase) == Weights(workers) + Weight(w.phase)
  {
    var n := |workers| - 1;
    if i < n {
      WeightsUpdate(workers[..n], i, w);
      assert workers[i := w][..n] == workers[..n][i := w];
    } else {
      assert workers[i := w][..n] == workers[..n];
    }
  }

  /** Every step of a worker that has not stopped shortens the run, so under any scheduler that
      keeps moving some unfinished worker all workers stop. */
  lemma StepProgress<R>(job: Job<R>, st: State<R>, i: nat)
    requires job.stride > 0 && i < |st.workers| && st.workers[i].phase != Done
    ensures Remaining(job, Step(job, st, i)) < Remaining(job, st)
  {
    WeightsUpdate(st.workers, i, Step(job, st, i).workers[i]);
  }

  // ---------------------------------------------------------------- sorting the merge

  /** What std::sort by the key guarantees: a permutation in non-decreasing key order. */
  ghost predicate SortOf<R>(key: R -> int, merged: seq<R>, sorted: seq<R>) {
    && multiset(sorted) == multiset(merged)
    && forall i, j | 0 <= i < j < |sorted| :: key(sorted[i]) <= key(sorted[j])
  }

  ghost predicate StrictBy<R>(key: R -> int, s: seq<R>) {
    forall i, j | 0 <= i < j < |s| :: key(s[i]) < key(s[j])
  }

  /** Two orderings of the same results start with the same one. */
  lemma SameHead<R>(key: R -> int, ordered: seq<R>, sorted: seq<R>)
    requires StrictBy(key, ordered) && ordered != [] && sorted != []
    requires SortOf(key, ordered, sorted)
    ensures ordered[0] == sorted[0]
  {
    var a, b := ordered[0], sorted[0];
    assert a in multiset(ordered) && b in multiset(sorted);
    var i :| 0 <= i < |ordered| && ordered[i] == b;
    var j :| 0 <= j < |sorted| && sorted[j] == a;
    assert key(b) <= key(a);
  }

  /** A strictly ordered sequence is the only sorted permutation of itself. */
  lemma {:induction false} SortUnique<R>(key: R -> int, ordered: seq<R>, sorted: seq<R>)
    requires StrictBy(key, ordered) && SortOf(key, ordered, sorted)
    ensures sorted == ordered
  {
    SameLength(ordered, sorted);
    if ordered != [] {
      SameHead(key, ordered, sorted);
      TailMultiset(ordered);
      TailMultiset(sorted);
      SortUnique(key, ordered[1..], sorted[1..]);
    }
  }

  lemma TailMultiset<R>(s: seq<R>)
    requires s != []
    ensures multiset(s[1..]) == multiset(s) - multiset{s[0]}
  {
    assert s == [s[0]] + s[1..];
  }

  lemma SameLength<R>(s: seq<R>, t: seq<R>)
    requires multiset(s) == multiset(t)
    ensures |s| == |t|
  {
    assert |multiset(s)| == |s| && |multiset(t)| == |t|;
  }

  /** No two results have the same key. */
  ghost predicate DistinctBy<R>(key: R -> int, s: seq<R>) {
    forall i, j | 0 <= i < j < |s| :: key(s[i]) != key(s[j])
  }

  lemma {:induction false} DistinctOnce<R>(key: R -> int, s: seq<R>, x: R)
    requires DistinctBy(key, s)
    ensures multiset(s)[x] <= 1
  {
    if s != [] {
      var n := |s| - 1;
      DistinctOnce(key, s[..n], x);
      assert s == s[..n] + [s[n]];
      assert x == s[n] ==> x !in s[..n];
    }
  }

  lemma TwoPlaces<R>(s: seq<R>, i: nat, j: nat)
    requires i < j < |s| && s[i] == s[j]
    ensures multiset(s)[s[i]] >= 2
  {
    assert s == s[..j] + s[j..];
    assert s[..j][i] in multiset(s[..j]) && s[j..][0] in multiset(s[j..]);
  }

  /** A permutation keeps the keys distinct. */
  lemma DistinctPermutes<R>(key: R -> int, s: seq<R>, t: seq<R>)
    requires DistinctBy(key, s) && multiset(t) == multiset(s)
    ensures DistinctBy(key, t)
  {
    forall i, j | 0 <= i < j < |t| ensures key(t[i]) != key(t[j]) {
      DistinctOnce(key, s, t[i]);
      if t[i] == t[j] { TwoPlaces(t, i, j); }
      assert t[i] in multiset(s) && t[j] in multiset(s);
      var k :| 0 <= k < |s| && s[k] == t[i];
      var l :| 0 <= l < |s| && s[l] == t[j];
      assert k != l;
    }
  }

  /** Results with distinct keys have one sorted order, however they were merged. */
  lemma DistinctSortUnique<R>(key: R -> int, s: seq<R>, merged: seq<R>, sorted: seq<R>, merged': seq<R>,
        sorted': seq<R>)
    requires DistinctBy(key, s) && multiset(merged) == multiset(s) && multiset(merged') == multiset(s)
    requires SortOf(key, merged, sorted) && SortOf(key, merged', sorted')
    ensures sorted == sorted' && StrictBy(key, sorted) && multiset(sorted) == multiset(s)
  {
    DistinctPermutes(key, s, sorted);
    assert SortOf(key, sorted, sorted');
    SortUnique(key, sorted, sorted');
  }
}
