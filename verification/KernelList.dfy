/** Parallel passes over a whole set, as jobs of the pool: src/pumakernel.c:99-117 and 142-166 and
    src/pumaset.c:87-118. */
module KernelLists {
  import opened ListModel
  import opened KernelWalk
  import opened Pool
  import Runs

  /** What belongs to one thread during a pass: its list, its extra data and whether it exists, and its
      entry of the array sums. */
  datatype Part = Part(list: ListState, extra: Extra, constructed: bool, sum: int)

  /** The callbacks of pumaExtraKernelData that run on a worker. */
  datatype Details = Details(initial: Extra, threadReduce: Extra -> Extra)

  function Construct(d: Details): Part -> Part { (p: Part) => p.(extra := d.initial, constructed := true) }

  /** _runKernelThread on the worker's own list. */
  function PassOf(kernel: Kernel): Part -> Part {
    (p: Part) =>
      if W(p.list) then
        var r := RunKernel(p.list, kernel, p.extra);
        p.(list := r.list, extra := r.extra)
      else p
  }

  function ThreadReduce(d: Details): Part -> Part { (p: Part) => p.(extra := d.threadReduce(p.extra)) }

  function Destruct(): Part -> Part { (p: Part) => p.(extra := [], constructed := false) }

  function AddCount(): Part -> Part { (p: Part) => p.(sum := p.sum + p.list.numElements) }

  /** _runKernelWorker */
  function WorkerJob(d: Details, kernels: seq<Kernel>): (job: seq<Part -> Part>)
    ensures |job| == |kernels| + 2
  {
    [Construct(d)] + seq(|kernels|, i requires 0 <= i < |kernels| => PassOf(kernels[i])) + [ThreadReduce(d)]
  }

  const KERNELS: nat := 0
  const CLEANUP: nat := 1
  const COUNT: nat := 2

  /** _runKernelWorker, _cleanupKernelWorker and _getNumElementsWorker. */
  function Prog(d: Details, kernels: seq<Kernel>): Programs<Part> {
    (fn: nat, arg: nat) =>
      if fn == KERNELS then WorkerJob(d, kernels)
      else if fn == CLEANUP then [Destruct()]
      else if fn == COUNT then [AddCount()]
      else []
  }

  /** The list and the extra data of a thread after the first i kernels. */
  function After(l: ListState, kernels: seq<Kernel>, i: nat, e: Extra): (r: (ListState, Extra))
    requires W(l) && i <= |kernels|
    ensures W(r.0) && r.0.numElements == l.numElements
  {
    if i == 0 then (l, e)
    else
      var before := After(l, kernels, i - 1, e);
      RunKernelVisitsAll(before.0, kernels[i - 1], before.1);
      var r := RunKernel(before.0, kernels[i - 1], before.1);
      (r.list, r.extra)
  }

  /** The elements that kernel i was handed by this thread, in order. */
  function Visited(l: ListState, kernels: seq<Kernel>, i: nat, e: Extra): seq<Element>
    requires W(l) && i < |kernels|
  {
    var before := After(l, kernels, i, e);
    RunKernel(before.0, kernels[i], before.1).visited
  }

  lemma {:induction false} JobSoFar(d: Details, kernels: seq<Kernel>, p: Part, i: nat)
    requires W(p.list) && i <= |kernels|
    ensures var a := After(p.list, kernels, i, d.initial);
      ApplyTo(WorkerJob(d, kernels), i + 1, p) == p.(list := a.0, extra := a.1, constructed := true)
  {
    hide WExcept, RunKernel;
    if i > 0 {
      JobSoFar(d, kernels, p, i - 1);
      assert WorkerJob(d, kernels)[i] == PassOf(kernels[i - 1]);
    } else {
      assert ApplyTo(WorkerJob(d, kernels), 0, p) == p;
    }
  }

  lemma WholeJob(d: Details, kernels: seq<Kernel>, p: Part)
    requires W(p.list)
    ensures var a := After(p.list, kernels, |kernels|, d.initial);
      ApplyTo(WorkerJob(d, kernels), |kernels| + 2, p)
        == p.(list := a.0, extra := d.threadReduce(a.1), constructed := true)
  {
    hide WExcept, After;
    JobSoFar(d, kernels, p, |kernels|);
    assert WorkerJob(d, kernels)[|kernels| + 1] == ThreadReduce(d);
  }

  /** After the parallel part of runKernelList, however the threads interleaved: each thread's list is what
      the kernels, one after the other, make of it, and its extra data has been reduced. */
  lemma KernelsRunInOrder(d: Details, kernels: seq<Kernel>, parts: seq<Part>, moves: seq<Move<Part>>,
                          states: seq<State<Part>>,
                          j: nat, before: seq<Act<Part>>, arg: nat)
    requires IsRun(Prog(d, kernels), parts, moves, states) && j <= |moves| && states[j].caller.pc == Idle
    requires ActsOf(moves[..j]) == before + [Call(KERNELS, arg)]
    requires forall w :: 0 <= w < |Replay(Prog(d, kernels), parts, before)| ==>
      W(Replay(Prog(d, kernels), parts, before)[w].list)
    ensures var start := Replay(Prog(d, kernels), parts, before);
      && |states[j].data| == |start|
      && forall w :: 0 <= w < |start| ==> var a := After(start[w].list, kernels, |kernels|, d.initial);
           states[j].data[w] == start[w].(list := a.0, extra := d.threadReduce(a.1), constructed := true)
  {
    hide WExcept, After, ActsOf;
    CallsAreSequential(Prog(d, kernels), parts, moves, states, j);
    var start := Replay(Prog(d, kernels), parts, before);
    assert states[j].acts[..|states[j].acts| - 1] == before;
    forall w | 0 <= w < |start|
      ensures W(start[w].list) && states[j].data[w] == ApplyTo(WorkerJob(d, kernels), |kernels| + 2, start[w])
    {
    }
    hide Replay, WorkerJob;
    forall w | 0 <= w < |start| ensures var a := After(start[w].list, kernels, |kernels|, d.initial);
      states[j].data[w] == start[w].(list := a.0, extra := d.threadReduce(a.1), constructed := true) {
      WholeJob(d, kernels, start[w]);
    }
  }

  /** The lists before kernel i. */
  function Lists(lists: seq<ListState>, kernels: seq<Kernel>, i: nat, e: Extra): (r: seq<ListState>)
    requires Runs.AllW(lists) && i <= |kernels|
    ensures |r| == |lists| && Runs.AllW(r)
  {
    seq(|lists|, w requires 0 <= w < |lists| => After(lists[w], kernels, i, e).0)
  }

  /** What all threads together hand to kernel i. */
  function AllVisited(lists: seq<ListState>, kernels: seq<Kernel>, i: nat, e: Extra): (r: Runs.Bags)
    requires Runs.AllW(lists) && i < |kernels|
    ensures |r| == |lists|
  {
    seq(|lists|, w requires 0 <= w < |lists| => multiset(Visited(lists[w], kernels, i, e)))
  }

  /** Each kernel is handed every live element of the set exactly once, by the thread that owns it, as the
      kernels before it left it; afterwards the set holds what it made of them, as many as before. The first kernel
      gets the constructor's extra data, each other what the one before it left. */
  lemma EachKernelVisitsAll(lists: seq<ListState>, kernels: seq<Kernel>, i: nat, e: Extra)
    requires Runs.AllW(lists) && i < |kernels|
    ensures AllVisited(lists, kernels, i, e) == Runs.BagsOf(Lists(lists, kernels, i, e))
    ensures forall w :: 0 <= w < |lists| ==>
      Runs.BagsOf(Lists(lists, kernels, i + 1, e))[w]
        == multiset(Apply(kernels[i], Visited(lists[w], kernels, i, e), After(lists[w], kernels, i, e).1).0)
    ensures forall w :: 0 <= w < |lists| ==>
      && After(lists[w], kernels, 0, e) == (lists[w], e)
      && After(lists[w], kernels, i + 1, e).1
        == Apply(kernels[i], Visited(lists[w], kernels, i, e), After(lists[w], kernels, i, e).1).1
    ensures Runs.Population(Lists(lists, kernels, i + 1, e)) == Runs.Population(lists)
  {
    hide WExcept, RunKernel, After;
    forall w | 0 <= w < |lists|
      ensures After(lists[w], kernels, 0, e) == (lists[w], e)
      ensures After(lists[w], kernels, i + 1, e).1
        == Apply(kernels[i], Visited(lists[w], kernels, i, e), After(lists[w], kernels, i, e).1).1
      ensures AllVisited(lists, kernels, i, e)[w] == Runs.BagsOf(Lists(lists, kernels, i, e))[w]
      ensures Runs.BagsOf(Lists(lists, kernels, i + 1, e))[w]
        == multiset(Apply(kernels[i], Visited(lists[w], kernels, i, e), After(lists[w], kernels, i, e).1).0)
    {
      VisitedIsBag(lists[w], kernels, i, e);
    }
    SamePopulation(lists, Lists(lists, kernels, i + 1, e));
  }

  lemma VisitedIsBag(l: ListState, kernels: seq<Kernel>, i: nat, e: Extra)
    requires W(l) && i < |kernels|
    ensures multiset(Visited(l, kernels, i, e)) == Runs.BagOf(After(l, kernels, i, e).0)
    ensures Runs.BagOf(After(l, kernels, i + 1, e).0)
      == multiset(Apply(kernels[i], Visited(l, kernels, i, e), After(l, kernels, i, e).1).0)
    ensures After(l, kernels, 0, e) == (l, e)
    ensures After(l, kernels, i + 1, e).1 == Apply(kernels[i], Visited(l, kernels, i, e), After(l, kernels, i, e).1).1
  {
    hide WExcept, RunKernel;
    var before := After(l, kernels, i, e);
    RunKernelVisitsAll(before.0, kernels[i], before.1);
  }

  lemma {:induction false} SamePopulation(a: seq<ListState>, b: seq<ListState>)
    requires |a| == |b| && forall w :: 0 <= w < |a| ==> a[w].numElements == b[w].numElements
    ensures Runs.Population(a) == Runs.Population(b)
  {
    if a != [] { SamePopulation(a[..|a| - 1], b[..|b| - 1]); }
  }

  // ----- The whole of runKernelList -----

  /** The global reduce works on extra data alone. */
  ghost predicate LeavesLists(reduce: seq<Part> -> seq<Part>) {
    forall ps :: |reduce(ps)| == |ps| && forall w :: 0 <= w < |ps| ==> SameList(ps[w], reduce(ps)[w])
  }

  predicate SameList(p: Part, q: Part) { q.list == p.list && q.sum == p.sum }

  lemma DataAfterCleanup(d: Details, kernels: seq<Kernel>, parts: seq<Part>, moves: seq<Move<Part>>,
                         states: seq<State<Part>>, j: nat, before: seq<Act<Part>>, b: nat)
    requires IsRun(Prog(d, kernels), parts, moves, states) && j <= |moves| && states[j].caller.pc == Idle
    requires ActsOf(moves[..j]) == before + [Call(CLEANUP, b)]
    ensures var ps := Replay(Prog(d, kernels), parts, before);
      && |states[j].data| == |ps|
      && forall w :: 0 <= w < |ps| ==> states[j].data[w] == Part(ps[w].list, [], false, ps[w].sum)
  {
    hide ActsOf, WorkerJob;
    CallsAreSequential(Prog(d, kernels), parts, moves, states, j);
    assert states[j].acts[..|states[j].acts| - 1] == before;
    var ps := Replay(Prog(d, kernels), parts, before);
    hide Replay;
    forall w | 0 <= w < |ps| ensures states[j].data[w] == Part(ps[w].list, [], false, ps[w].sum) {
      assert states[j].data[w] == ApplyTo([Destruct()], 1, ps[w]);
    }
  }

  /** After runKernelList, however the threads interleaved, each thread's list is the one that the kernels have left
      and its extra data is destroyed. The global reduce, which is move i, was given every thread's extra data as
      its kernels and then its thread reduce had left it. */
  lemma RunKernelListEnds(d: Details, kernels: seq<Kernel>, parts: seq<Part>, moves: seq<Move<Part>>,
                          states: seq<State<Part>>,
                          j: nat, before: seq<Act<Part>>, a: nat, reduce: seq<Part> -> seq<Part>, b: nat)
    returns (i: nat)
    requires IsRun(Prog(d, kernels), parts, moves, states) && j <= |moves| && states[j].caller.pc == Idle
    requires ActsOf(moves[..j]) == before + [Call(KERNELS, a), Own(reduce), Call(CLEANUP, b)] && LeavesLists(reduce)
    requires Runs.AllW(ListsOf(Replay(Prog(d, kernels), parts, before)))
    ensures i < j && moves[i] == CallerActs(reduce)
    ensures var start := Replay(Prog(d, kernels), parts, before);
      && |states[i].data| == |states[j].data| == |start|
      && forall w :: 0 <= w < |start| ==>
           && W(start[w].list)
           && var after := After(start[w].list, kernels, |kernels|, d.initial);
              && states[i].data[w] == Part(after.0, d.threadReduce(after.1), true, start[w].sum)
              && states[j].data[w] == Part(after.0, [], false, start[w].sum)
  {
    hide WExcept, ActsOf, Replay, After, WorkerJob, LeavesLists, Runs.AllW;
    var start := Replay(Prog(d, kernels), parts, before);
    i := ReduceIsGiven(d, kernels, parts, moves, states, j, before, a, reduce, [Call(CLEANUP, b)]);
    AllOfParts(start);
    assert before + [Call(KERNELS, a), Own(reduce), Call(CLEANUP, b)]
      == before + [Call(KERNELS, a), Own(reduce)] + [Call(CLEANUP, b)];
    DataAfterCleanup(d, kernels, parts, moves, states, j, before + [Call(KERNELS, a), Own(reduce)], b);
    ListsLeft(reduce, states[i].data);
  }

  /** Hence runKernelList loses and adds no element: each list holds what the last kernel made of what it was handed,
      the population is what it was before, and nobody's sum has changed. */
  lemma RunKernelListKeeps(d: Details, kernels: seq<Kernel>, parts: seq<Part>, moves: seq<Move<Part>>,
                           states: seq<State<Part>>,
                           j: nat, before: seq<Act<Part>>, a: nat, reduce: seq<Part> -> seq<Part>, b: nat)
    requires IsRun(Prog(d, kernels), parts, moves, states) && j <= |moves| && states[j].caller.pc == Idle
    requires ActsOf(moves[..j]) == before + [Call(KERNELS, a), Own(reduce), Call(CLEANUP, b)] && LeavesLists(reduce)
    requires Runs.AllW(ListsOf(Replay(Prog(d, kernels), parts, before)))
    ensures var start, end := Replay(Prog(d, kernels), parts, before), states[j].data;
      && |end| == |start| && Runs.AllW(ListsOf(end)) && Sums(end) == Sums(start)
      && Runs.Population(ListsOf(end)) == Runs.Population(ListsOf(start))
      && (kernels == [] ==> ListsOf(end) == ListsOf(start))
      && forall w :: 0 <= w < |start| && kernels != [] ==>
           var n, l := |kernels| - 1, ListsOf(start)[w];
           Runs.BagOf(ListsOf(end)[w])
             == multiset(Apply(kernels[n], Visited(l, kernels, n, d.initial), After(l, kernels, n, d.initial).1).0)
  {
    hide WExcept, ActsOf, Replay, After, Visited, Apply, WorkerJob, LeavesLists, Runs.Population, Runs.BagOf;
    var start, end := Replay(Prog(d, kernels), parts, before), states[j].data;
    var i := RunKernelListEnds(d, kernels, parts, moves, states, j, before, a, reduce, b);
    var ls := ListsOf(start);
    forall w | 0 <= w < |start| ensures ListsOf(end)[w] == After(ls[w], kernels, |kernels|, d.initial).0 {
      assert start[w].list == ls[w];
    }
    SamePopulation(ListsOf(end), ls);
    forall w | 0 <= w < |start|
      ensures kernels == [] ==> ListsOf(end)[w] == ls[w]
      ensures kernels != [] ==>
        var n := |kernels| - 1;
        Runs.BagOf(ListsOf(end)[w])
          == multiset(Apply(kernels[n], Visited(ls[w], kernels, n, d.initial), After(ls[w], kernels, n, d.initial).1).0)
    {
      if kernels == [] { NoKernels(ls[w], kernels, d.initial); } else {
        VisitedIsBag(ls[w], kernels, |kernels| - 1, d.initial);
      }
    }
  }

  lemma NoKernels(l: ListState, kernels: seq<Kernel>, e: Extra)
    requires W(l)
    ensures After(l, kernels, 0, e) == (l, e)
  {}

  lemma AllOfParts(parts: seq<Part>)
    requires Runs.AllW(ListsOf(parts))
    ensures forall w :: 0 <= w < |parts| ==> W(parts[w].list)
  {
    hide WExcept;
    assert forall w :: 0 <= w < |parts| ==> parts[w].list == ListsOf(parts)[w];
  }

  lemma ListsLeft(reduce: seq<Part> -> seq<Part>, ps: seq<Part>)
    requires LeavesLists(reduce)
    ensures |reduce(ps)| == |ps| && forall w :: 0 <= w < |ps| ==> SameList(ps[w], reduce(ps)[w])
  {}

  lemma ReduceIsGiven(d: Details, kernels: seq<Kernel>, parts: seq<Part>, moves: seq<Move<Part>>,
                      states: seq<State<Part>>,
                      j: nat, before: seq<Act<Part>>, a: nat, reduce: seq<Part> -> seq<Part>, rest: seq<Act<Part>>)
    returns (i: nat)
    requires IsRun(Prog(d, kernels), parts, moves, states) && j <= |moves|
    requires ActsOf(moves[..j]) == before + [Call(KERNELS, a), Own(reduce)] + rest
    requires Runs.AllW(ListsOf(Replay(Prog(d, kernels), parts, before)))
    ensures i < j && moves[i] == CallerActs(reduce)
    ensures Replay(Prog(d, kernels), parts, before + [Call(KERNELS, a), Own(reduce)]) == reduce(states[i].data)
    ensures var start := Replay(Prog(d, kernels), parts, before);
      && |states[i].data| == |start|
      && forall w :: 0 <= w < |start| ==>
           && W(start[w].list)
           && var after := After(start[w].list, kernels, |kernels|, d.initial);
              states[i].data[w] == Part(after.0, d.threadReduce(after.1), true, start[w].sum)
  {
    hide WExcept, ActsOf, Replay, After, WorkerJob, Runs.AllW;
    var called := before + [Call(KERNELS, a)];
    assert before + [Call(KERNELS, a), Own(reduce)] == called + [Own(reduce)];
    i := OwnHappened(Prog(d, kernels), parts, moves, states, j, called, reduce, rest);
    AllOfParts(Replay(Prog(d, kernels), parts, before));
    KernelsRunInOrder(d, kernels, parts, moves, states, i, before, a);
    DataIsReplay(Prog(d, kernels), parts, moves, states, i);
    ReplaySnoc(Prog(d, kernels), parts, called, reduce);
  }

  lemma DataIsReplay<D(!new)>(prog: Programs<D>, data0: seq<D>, moves: seq<Move<D>>, states: seq<State<D>>, i: nat)
    requires IsRun(prog, data0, moves, states) && i <= |moves| && states[i].caller.pc == Idle
    ensures states[i].data == Replay(prog, data0, ActsOf(moves[..i]))
  {
    hide Replay, ActsOf;
    CallsAreSequential(prog, data0, moves, states, i);
  }

  lemma ReplaySnoc<D>(prog: Programs<D>, data: seq<D>, acts: seq<Act<D>>, f: seq<D> -> seq<D>)
    ensures Replay(prog, data, acts + [Own(f)]) == f(Replay(prog, data, acts))
  {
    assert (acts + [Own(f)])[..|acts|] == acts;
  }

  /** Worker w has run its whole job in call r, whose kernels are n, and its destructor in the next. */
  predicate Phases(trace: seq<Entry>, r: nat, w: nat, n: nat) {
    Did(trace, r, w, n + 2) && Did(trace, r + 1, w, 1)
  }

  /** The phases of runKernelList, over all interleavings: every thread's constructor, kernels in order and
      thread reduce, each once, all before the one global reduce, and that before every destructor. */
  lemma PhasesInOrder(d: Details, kernels: seq<Kernel>, parts: seq<Part>, moves: seq<Move<Part>>,
                      states: seq<State<Part>>,
                      j: nat, before: seq<Act<Part>>, a: nat, reduce: seq<Part> -> seq<Part>, b: nat)
    requires IsRun(Prog(d, kernels), parts, moves, states) && j <= |moves| && states[j].caller.pc == Idle
    requires ActsOf(moves[..j]) == before + [Call(KERNELS, a), Own(reduce), Call(CLEANUP, b)]
    ensures var trace, r, n := states[j].trace, |Calls(before)|, |states[j].workers|;
      && (forall w :: 0 <= w < n ==> Phases(trace, r, w, |kernels|))
      && |Of(trace, 2 * r + 2, n)| == 1
      && (forall x, y :: 0 <= x < |trace| && 0 <= y < |trace| ==>
            trace[x].key == 2 * r + 1 && trace[y].key == 2 * r + 2 ==> x < y)
      && (forall x, y :: 0 <= x < |trace| && 0 <= y < |trace| ==>
            trace[x].key == 2 * r + 2 && trace[y].key == 2 * r + 3 ==> x < y)
  {
    hide Replay, Did, Of, WorkerJob, ActsOf;
    CallsAreSequential(Prog(d, kernels), parts, moves, states, j);
    RunsKeepOwns(Prog(d, kernels), parts, moves, states, j);
    var s, r := states[j], |Calls(before)|;
    ThreeActs(before, Call(KERNELS, a), Own(reduce), Call(CLEANUP, b));
    assert Prog(d, kernels)(KERNELS, a) == WorkerJob(d, kernels) && Prog(d, kernels)(CLEANUP, b) == [Destruct()];
    forall w | 0 <= w < |s.workers| ensures Phases(s.trace, r, w, |kernels|) {
      assert DidAll(Prog(d, kernels), s, r, w) && DidAll(Prog(d, kernels), s, r + 1, w);
    }
    assert |Of(s.trace, 2 * (r + 1), |s.workers|)| == Owns(s.acts, r + 1);
  }

  lemma ThreeActs<D>(before: seq<Act<D>>, x: Act<D>, y: Act<D>, z: Act<D>)
    requires x.Call? && y.Own? && z.Call?
    ensures Calls(before + [x, y, z]) == Calls(before) + [(x.fn, x.arg), (z.fn, z.arg)]
    ensures Owns(before + [x, y, z], |Calls(before)| + 1) == 1
  {
    hide Calls, Owns;
    var one := before + [x];
    var two := one + [y];
    assert before + [x, y, z] == two + [z];
    CallsSnoc(before, x);
    CallsSnoc(one, y);
    CallsSnoc(two, z);
    OwnsSnoc(before, x);
    OwnsSnoc(one, y);
    OwnsSnoc(two, z);
    NoneYet(before, |Calls(before)| + 1);
  }

  lemma {:induction false} NoneYet<D>(acts: seq<Act<D>>, r: nat)
    requires r > |Calls(acts)|
    ensures Owns(acts, r) == 0
  {
    if acts != [] { NoneYet(acts[..|acts| - 1], r); }
  }

  // ----- getNumElements -----

  function SumOf(sums: seq<int>): int {
    if sums == [] then 0 else SumOf(sums[..|sums| - 1]) + sums[|sums| - 1]
  }

  /** The loop of getNumElements over the array that the workers have filled. */
  method AddUp(sums: array<int>) returns (sum: int)
    ensures sum == SumOf(sums[..])
  {
    sum := 0;
    for i := 0 to sums.Length
      invariant sum == SumOf(sums[..i])
    {
      assert sums[..i + 1][..i] == sums[..i];
      sum := sum + sums[i];
    }
    assert sums[..sums.Length] == sums[..];
  }

  function Sums(parts: seq<Part>): (r: seq<int>)
    ensures |r| == |parts|
  {
    seq(|parts|, w requires 0 <= w < |parts| => parts[w].sum)
  }

  function ListsOf(parts: seq<Part>): (r: seq<ListState>)
    ensures |r| == |parts|
  {
    seq(|parts|, w requires 0 <= w < |parts| => parts[w].list)
  }

  /** The sums that the workers leave, counted up from zero, add up to the number of live elements in the
      set, however the threads interleaved. */
  lemma GetNumElements(d: Details, kernels: seq<Kernel>, parts: seq<Part>, moves: seq<Move<Part>>,
                       states: seq<State<Part>>,
                       j: nat, before: seq<Act<Part>>, arg: nat)
    requires IsRun(Prog(d, kernels), parts, moves, states) && j <= |moves| && states[j].caller.pc == Idle
    requires ActsOf(moves[..j]) == before + [Call(COUNT, arg)]
    requires var start := Replay(Prog(d, kernels), parts, before);
      Runs.AllW(ListsOf(start)) && forall w :: 0 <= w < |start| ==> start[w].sum == 0
    ensures var start := Replay(Prog(d, kernels), parts, before);
      && ListsOf(states[j].data) == ListsOf(start)
      && SumOf(Sums(states[j].data)) == Runs.Size(Runs.BagsOf(ListsOf(start)))
  {
    hide WExcept, ActsOf, Replay;
    var start := Replay(Prog(d, kernels), parts, before);
    DataAfterCount(d, kernels, parts, moves, states, j, before, arg);
    SumsArePopulation(Sums(states[j].data), ListsOf(start));
    Runs.PopulationIsSize(ListsOf(start));
  }

  lemma DataAfterCount(d: Details, kernels: seq<Kernel>, parts: seq<Part>, moves: seq<Move<Part>>,
                       states: seq<State<Part>>, j: nat, before: seq<Act<Part>>, arg: nat)
    requires IsRun(Prog(d, kernels), parts, moves, states) && j <= |moves| && states[j].caller.pc == Idle
    requires ActsOf(moves[..j]) == before + [Call(COUNT, arg)]
    requires forall w :: 0 <= w < |Replay(Prog(d, kernels), parts, before)| ==>
      Replay(Prog(d, kernels), parts, before)[w].sum == 0
    ensures var ps := Replay(Prog(d, kernels), parts, before);
      && |states[j].data| == |ps|
      && forall w :: 0 <= w < |ps| ==> states[j].data[w] == ps[w].(sum := ps[w].list.numElements)
  {
    hide ActsOf, WorkerJob;
    CallsAreSequential(Prog(d, kernels), parts, moves, states, j);
    assert states[j].acts[..|states[j].acts| - 1] == before;
    var ps := Replay(Prog(d, kernels), parts, before);
    hide Replay;
    forall w | 0 <= w < |ps| ensures states[j].data[w] == ps[w].(sum := ps[w].list.numElements) {
      assert states[j].data[w] == ApplyTo([AddCount()], 1, ps[w]);
    }
  }

  lemma {:induction false} SumsArePopulation(sums: seq<int>, ls: seq<ListState>)
    requires |sums| == |ls| && forall w :: 0 <= w < |sums| ==> sums[w] == ls[w].numElements
    ensures SumOf(sums) == Runs.Population(ls)
  {
    if sums != [] { SumsArePopulation(sums[..|sums| - 1], ls[..|ls| - 1]); }
  }
}
