/** Whole runs of a set's thread lists: allocation, release, stores, kernel passes and node transfers in
    any order and number. */
module Runs {
  import opened ListModel
  import opened Compaction
  import opened Allocation
  import opened KernelWalk
  import opened Transfer

  /** What a program does to list t. A store writes to an element that
      pumalloc has returned. */
  datatype Op =
    | Malloc(t: nat, garbage: seq<Element>)
    | Free(t: nat, node: int, slot: int)
    | Store(t: nat, node: int, slot: int, x: Element)
    | Pass(t: nat, kernel: Kernel, extra: Extra)
    | Give(n: nat, t: nat, to: nat)

  predicate LiveAt(l: ListState, k: int, i: int) {
    SlotInRange(l, k, i) && !l.nodes[k].free[i]
  }

  predicate Enabled(op: Op, ls: seq<ListState>) {
    && op.t < |ls|
    && match op
       case Malloc(t, garbage) => |garbage| > 0 && !Stranded(ls[t])
       case Free(t, k, i) => LiveAt(ls[t], k, i)
       case Store(t, k, i, _) => LiveAt(ls[t], k, i)
       case Pass(_, _, _) => true
       case Give(n, from, to) => to < |ls| && from != to && 0 < n <= ls[from].numNodes
  }

  predicate AllW(ls: seq<ListState>) { forall t :: 0 <= t < |ls| ==> W(ls[t]) }

  function Step(op: Op, ls: seq<ListState>): (r: seq<ListState>)
    requires AllW(ls) && Enabled(op, ls)
    ensures |r| == |ls|
  {
    match op
    case Malloc(t, garbage) => ls[t := Pumalloc(ls[t], garbage).0]
    case Free(t, k, i) => ls[t := FreeAt(ls[t], k, i)]
    case Store(t, k, i, x) => ls[t := WriteAt(ls[t], k, i, x)]
    case Pass(t, kernel, e) => ls[t := RunKernel(ls[t], kernel, e).list]
    case Give(n, from, to) =>
      TransferKeepsW(n, ls[from], ls[to]);
      TransferToFacts(n, ls[from], ls[to]);
      ls[from := TransferFrom(n, ls[from])][to := TransferTo(n, ls[from], ls[to])]
  }

  /** One step from ls to ls'. The operations are only defined on lists that satisfy W, so without it
      anything may come next. */
  predicate Next(op: Op, ls: seq<ListState>, ls': seq<ListState>) {
    Enabled(op, ls) && (AllW(ls) ==> ls' == Step(op, ls))
  }

  /** states is a run of ops that starts with zeroed lists. */
  predicate IsRun(ops: seq<Op>, states: seq<seq<ListState>>) {
    && |states| == |ops| + 1
    && (forall t :: 0 <= t < |states[0]| ==> states[0][t] == EMPTY)
    && forall j :: 0 <= j < |ops| ==> Next(ops[j], states[j], states[j + 1])
  }

  // ----- The specification: a multiset of elements for each list -----

  type Bags = seq<multiset<Element>>

  function BagOf(l: ListState): multiset<Element>
    requires W(l)
  {
    WSized(l, -1);
    Bag(l)
  }

  ghost function BagsOf(ls: seq<ListState>): (r: Bags)
    requires AllW(ls)
    ensures |r| == |ls| && forall t :: 0 <= t < |ls| ==> r[t] == BagOf(ls[t])
  {
    seq(|ls|, t requires 0 <= t < |ls| => BagOf(ls[t]))
  }

  /** What an operation does to the contents, with the bytes it is about. */
  datatype Event =
    | Added(t: nat, x: Element)
    | Removed(t: nat, x: Element)
    | Replaced(t: nat, x: Element, y: Element)
    | Mapped(t: nat, xs: seq<Element>, ys: seq<Element>)
    | Given(t: nat, to: nat, moved: multiset<Element>)

  predicate Possible(ev: Event, b: Bags) {
    && ev.t < |b|
    && match ev
       case Added(_, _) => true
       case Removed(t, x) => x in b[t]
       case Replaced(t, x, _) => x in b[t]
       case Mapped(t, xs, ys) => multiset(xs) == b[t] && |ys| == |xs|
       case Given(from, to, moved) => to < |b| && from != to && moved <= b[from]
  }

  /** The specification: every other element of every list stays. */
  function Effect(ev: Event, b: Bags): Bags
    requires Possible(ev, b)
  {
    match ev
    case Added(t, x) => b[t := b[t] + multiset{x}]
    case Removed(t, x) => b[t := b[t] - multiset{x}]
    case Replaced(t, x, y) => b[t := b[t] - multiset{x} + multiset{y}]
    case Mapped(t, _, ys) => b[t := multiset(ys)]
    case Given(from, to, moved) => b[from := b[from] - moved][to := b[to] + moved]
  }

  /** The bytes in the slot that pumalloc returns; those in the slot released or stored to; all elements in
      the order in which the traversal meets them, and what the kernel makes of them; the contents of the last
      n active nodes. */
  ghost function Observed(op: Op, ls: seq<ListState>): Event
    requires AllW(ls) && Enabled(op, ls)
  {
    match op
    case Malloc(t, garbage) =>
      var (m, at) := Pumalloc(ls[t], garbage);
      PumallocAddsOne(ls[t], garbage);
      Added(t, m.nodes[at.node].slots[at.slot])
    case Free(t, k, i) => Removed(t, ls[t].nodes[k].slots[i])
    case Store(t, k, i, y) => Replaced(t, ls[t].nodes[k].slots[i], y)
    case Pass(t, kernel, e) =>
      var xs := RunKernel(ls[t], kernel, e).visited;
      Mapped(t, xs, Apply(kernel, xs, e).0)
    case Give(n, from, to) =>
      var l := ls[from];
      TransferFromFacts(n, l);
      SizedParts(l.nodes, l.numNodes - n, l.numNodes);
      Given(from, to, multiset(Contents(l.nodes[l.numNodes - n..l.numNodes])))
  }

  /** Step does to the contents exactly what was observed. */
  ghost predicate Follows(op: Op, ls: seq<ListState>)
    requires AllW(ls) && Enabled(op, ls)
  {
    && AllW(Step(op, ls)) && Possible(Observed(op, ls), BagsOf(ls))
    && BagsOf(Step(op, ls)) == Effect(Observed(op, ls), BagsOf(ls))
  }

  lemma BagsOfChange(ls: seq<ListState>, t: nat, l: ListState)
    requires AllW(ls) && t < |ls| && W(l)
    ensures AllW(ls[t := l]) && BagsOf(ls[t := l]) == BagsOf(ls)[t := BagOf(l)]
  {}

  lemma MallocStep(op: Op, ls: seq<ListState>)
    requires op.Malloc? && AllW(ls) && Enabled(op, ls)
    ensures Follows(op, ls)
  {
    hide WExcept, Stranded, Pumalloc, Contents;
    var l := ls[op.t];
    PumallocKeepsW(l, op.garbage);
    PumallocAddsOne(l, op.garbage);
    var (m, at) := Pumalloc(l, op.garbage);
    BagsOfChange(ls, op.t, m);
    assert BagOf(m) == BagOf(l) + multiset{m.nodes[at.node].slots[at.slot]};
  }

  lemma FreeStep(op: Op, ls: seq<ListState>)
    requires op.Free? && AllW(ls) && Enabled(op, ls)
    ensures Follows(op, ls)
  {
    hide WExcept, Contents;
    var l := ls[op.t];
    UsedSlotCounts(l, -1, op.node, op.slot);
    FreeFacts(l, -1, op.node, op.slot);
    var m, x := FreeAt(l, op.node, op.slot), l.nodes[op.node].slots[op.slot];
    BagsOfChange(ls, op.t, m);
    TakeAway(BagOf(l), BagOf(m), x);
  }

  lemma TakeAway(a: multiset<Element>, b: multiset<Element>, x: Element)
    requires a == b + multiset{x}
    ensures x in a && b == a - multiset{x}
  {}

  lemma StoreStep(op: Op, ls: seq<ListState>)
    requires op.Store? && AllW(ls) && Enabled(op, ls)
    ensures Follows(op, ls)
  {
    hide WExcept, Contents, Live, FreeAt;
    var l, k, i := ls[op.t], op.node, op.slot;
    UsedSlotCounts(l, -1, k, i);
    WriteFacts(l, -1, k, i, op.x);
    FreeFacts(l, -1, k, i);
    WriteBag(l, k, i, op.x);
    var m, x := WriteAt(l, k, i, op.x), l.nodes[k].slots[i];
    BagsOfChange(ls, op.t, m);
    TakeAway(BagOf(l), Bag(FreeAt(l, k, i)), x);
    Exchanged(BagOf(m), BagOf(l), x, op.x);
  }

  lemma Exchanged(a: multiset<Element>, b: multiset<Element>, x: Element, y: Element)
    requires a + multiset{x} == b + multiset{y} && x in b
    ensures a == b - multiset{x} + multiset{y}
  {
    assert a == (a + multiset{x}) - multiset{x};
  }

  lemma PassStep(op: Op, ls: seq<ListState>)
    requires op.Pass? && AllW(ls) && Enabled(op, ls)
    ensures Follows(op, ls)
  {
    hide WExcept, RunKernel;
    var l := ls[op.t];
    RunKernelVisitsAll(l, op.kernel, op.extra);
    var r := RunKernel(l, op.kernel, op.extra);
    BagsOfChange(ls, op.t, r.list);
    assert multiset(r.visited) == BagOf(l) && BagOf(r.list) == multiset(Apply(op.kernel, r.visited, op.extra).0);
  }

  lemma GiveStep(op: Op, ls: seq<ListState>)
    requires op.Give? && AllW(ls) && Enabled(op, ls)
    ensures Follows(op, ls)
  {
    hide WExcept, TransferFrom, TransferTo, Contents;
    var from, to := ls[op.t], ls[op.to];
    GivenBags(op.n, from, to);
    TransferKeepsW(op.n, from, to);
    TransferToFacts(op.n, from, to);
    var f, t := TransferFrom(op.n, from), TransferTo(op.n, from, to);
    BagsOfChange(ls, op.t, f);
    BagsOfChange(ls[op.t := f], op.to, t);
  }

  /** The contents of the last n active nodes change lists. */
  lemma GivenBags(n: int, from: ListState, to: ListState)
    requires W(from) && W(to) && 0 < n <= from.numNodes
    ensures CanTransfer(n, from) && -1 <= to.tail < |to.nodes| && from.numNodes <= |from.nodes|
    ensures AllSized(from.nodes[from.numNodes - n..from.numNodes])
    ensures W(TransferFrom(n, from)) && W(TransferTo(n, from, to))
    ensures var moved := multiset(Contents(from.nodes[from.numNodes - n..from.numNodes]));
      && moved <= BagOf(from) && BagOf(TransferFrom(n, from)) == BagOf(from) - moved
      && BagOf(TransferTo(n, from, to)) == BagOf(to) + moved
  {
    hide WExcept, TransferFrom, TransferTo, Contents;
    TailCloses(from);
    TransferFromFacts(n, from);
    TransferToFacts(n, from, to);
    assert Moved(n, from) == from.nodes[from.numNodes - n..from.numNodes];
    assert BagOf(from) == BagOf(TransferFrom(n, from)) + multiset(Contents(Moved(n, from)));
  }

  /** Every enabled operation keeps W on every list and does to the multisets exactly what was observed: the
      element it is about comes, goes or changes, and every other stays. */
  lemma StepRefines(op: Op, ls: seq<ListState>)
    requires AllW(ls) && Enabled(op, ls)
    ensures AllW(Step(op, ls)) && Possible(Observed(op, ls), BagsOf(ls))
    ensures BagsOf(Step(op, ls)) == Effect(Observed(op, ls), BagsOf(ls))
  {
    hide Possible, Effect, Observed, Step, Enabled;
    match op
    case Malloc(_, _) => MallocStep(op, ls);
    case Free(_, _, _) => FreeStep(op, ls);
    case Store(_, _, _, _) => StoreStep(op, ls);
    case Pass(_, _, _) => PassStep(op, ls);
    case Give(_, _, _) => GiveStep(op, ls);
  }

  lemma EmptyIsInOrder()
    ensures W(EMPTY) && BagOf(EMPTY) == multiset{}
  {}

  /** In every reachable state every list satisfies W. */
  lemma {:induction false} RunsKeepW(ops: seq<Op>, states: seq<seq<ListState>>, j: nat)
    requires IsRun(ops, states) && j <= |ops|
    ensures AllW(states[j])
  {
    hide WExcept, Step, Enabled;
    if j == 0 {
      EmptyIsInOrder();
    } else {
      RunsKeepW(ops, states, j - 1);
      assert Next(ops[j - 1], states[j - 1], states[j]);
      StepRefines(ops[j - 1], states[j - 1]);
    }
  }

  /** Every run of the lists is, step by step, a run of the multiset specification from empty multisets. */
  lemma RunsRefine(ops: seq<Op>, states: seq<seq<ListState>>)
    requires IsRun(ops, states)
    ensures forall j :: 0 <= j <= |ops| ==> AllW(states[j])
    ensures forall t :: 0 <= t < |states[0]| ==> BagsOf(states[0])[t] == multiset{}
    ensures forall j :: 0 <= j < |ops| ==> Refined(ops[j], states[j], states[j + 1])
  {
    hide WExcept, Step, Enabled, Refined;
    forall j | 0 <= j <= |ops| ensures AllW(states[j]) { RunsKeepW(ops, states, j); }
    EmptyIsInOrder();
    forall j | 0 <= j < |ops| ensures Refined(ops[j], states[j], states[j + 1]) {
      assert Next(ops[j], states[j], states[j + 1]);
      StepIsRefined(ops[j], states[j], states[j + 1]);
    }
  }

  /** From ls to ls' the contents change by the effect of what op is observed to do, and in no other way. */
  ghost predicate Refined(op: Op, ls: seq<ListState>, ls': seq<ListState>) {
    && AllW(ls) && Enabled(op, ls) && AllW(ls') && Possible(Observed(op, ls), BagsOf(ls))
    && BagsOf(ls') == Effect(Observed(op, ls), BagsOf(ls))
  }

  lemma StepIsRefined(op: Op, ls: seq<ListState>, ls': seq<ListState>)
    requires AllW(ls) && Next(op, ls, ls')
    ensures Refined(op, ls, ls')
  {
    hide Possible, Effect, Observed, Step, Enabled, WExcept;
    StepRefines(op, ls);
  }

  // ----- Conservation -----

  function Population(ls: seq<ListState>): int {
    if ls == [] then 0 else Population(ls[..|ls| - 1]) + ls[|ls| - 1].numElements
  }

  function Size(b: Bags): int {
    if b == [] then 0 else Size(b[..|b| - 1]) + |b[|b| - 1]|
  }

  /** Elements allocated less elements released. */
  function Net(ops: seq<Op>): int {
    if ops == [] then 0 else Net(ops[..|ops| - 1]) + Gain(ops[|ops| - 1])
  }

  function Gain(op: Op): int {
    match op
    case Malloc(_, _) => 1
    case Free(_, _, _) => -1
    case _ => 0
  }

  lemma {:induction false} SizeOfChange(b: Bags, t: nat, m: multiset<Element>)
    requires t < |b|
    ensures Size(b[t := m]) == Size(b) - |b[t]| + |m|
  {
    var n := |b| - 1;
    if t == n {
      assert b[t := m][..n] == b[..n];
    } else {
      assert b[t := m][..n] == b[..n][t := m];
      SizeOfChange(b[..n], t, m);
    }
  }

  lemma EffectGain(ev: Event, b: Bags)
    requires Possible(ev, b)
    ensures Size(Effect(ev, b)) == Size(b) + if ev.Added? then 1 else if ev.Removed? then -1 else 0
  {
    hide Size;
    match ev
    case Added(t, x) => SizeOfChange(b, t, b[t] + multiset{x});
    case Removed(t, x) => SizeOfChange(b, t, b[t] - multiset{x});
    case Replaced(t, x, y) => SizeOfChange(b, t, b[t] - multiset{x} + multiset{y});
    case Mapped(t, xs, ys) =>
      SizeOfChange(b, t, multiset(ys));
      assert |multiset(xs)| == |xs| && |multiset(ys)| == |ys|;
    case Given(from, to, moved) =>
      SizeOfChange(b, from, b[from] - moved);
      SizeOfChange(b[from := b[from] - moved], to, b[to] + moved);
  }

  lemma {:induction false} PopulationIsSize(ls: seq<ListState>)
    requires AllW(ls)
    ensures Population(ls) == Size(BagsOf(ls))
  {
    hide WExcept;
    if ls != [] {
      var n := |ls| - 1;
      AllNodesOk(ls[n], -1);
      TotalIsLength(ls[n].nodes);
      WCounts(ls[n]);
      PopulationIsSize(ls[..n]);
      assert BagsOf(ls)[..n] == BagsOf(ls[..n]);
    }
  }

  lemma WCounts(l: ListState)
    requires W(l)
    ensures l.numElements == Total(l.nodes)
  {}

  lemma ObservedGain(op: Op, ls: seq<ListState>)
    requires AllW(ls) && Enabled(op, ls)
    ensures Gain(op) == if Observed(op, ls).Added? then 1 else if Observed(op, ls).Removed? then -1 else 0
  {}

  /** However the operations interleave, the counters of all lists add up to the allocations less the
      releases. */
  lemma {:induction false} RunsConserve(ops: seq<Op>, states: seq<seq<ListState>>, j: nat)
    requires IsRun(ops, states) && j <= |ops|
    ensures Population(states[j]) == Net(ops[..j])
  {
    hide WExcept, Step, Enabled, Possible, Effect, Observed;
    RunsKeepW(ops, states, j);
    if j == 0 {
      AllZero(states[0]);
    } else {
      RunsKeepW(ops, states, j - 1);
      RunsConserve(ops, states, j - 1);
      assert Next(ops[j - 1], states[j - 1], states[j]);
      StepRefines(ops[j - 1], states[j - 1]);
      EffectGain(Observed(ops[j - 1], states[j - 1]), BagsOf(states[j - 1]));
      ObservedGain(ops[j - 1], states[j - 1]);
      PopulationIsSize(states[j - 1]);
      PopulationIsSize(states[j]);
      assert ops[..j][..j - 1] == ops[..j - 1];
    }
  }

  lemma {:induction false} AllZero(ls: seq<ListState>)
    requires forall t :: 0 <= t < |ls| ==> ls[t] == EMPTY
    ensures Population(ls) == 0
  {
    if ls != [] { AllZero(ls[..|ls| - 1]); }
  }

  /** The contents of all lists. */
  function Together(b: Bags): multiset<Element> {
    if b == [] then multiset{} else Together(b[..|b| - 1]) + b[|b| - 1]
  }

  lemma {:induction false} TogetherOfChange(b: Bags, t: nat, m: multiset<Element>)
    requires t < |b|
    ensures Together(b[t := m]) + b[t] == Together(b) + m
  {
    var n := |b| - 1;
    if t == n {
      assert b[t := m][..n] == b[..n];
    } else {
      assert b[t := m][..n] == b[..n][t := m];
      TogetherOfChange(b[..n], t, m);
      assert b[..n][t] == b[t];
      assert Together(b[t := m]) + b[t] == (Together(b[..n][t := m]) + b[t]) + b[n];
      assert Together(b) + m == (Together(b[..n]) + m) + b[n];
    }
  }

  /** A transfer moves contents between lists but neither adds nor loses any. */
  lemma GiveKeepsTogether(op: Op, ls: seq<ListState>)
    requires op.Give? && AllW(ls) && Enabled(op, ls)
    ensures AllW(Step(op, ls)) && Together(BagsOf(Step(op, ls))) == Together(BagsOf(ls))
  {
    hide WExcept, Step;
    GiveStep(op, ls);
    var b, b', from, to := BagsOf(ls), BagsOf(Step(op, ls)), op.t, op.to;
    var moved := Observed(op, ls).moved;
    TogetherOfChange(b, from, b[from] - moved);
    TogetherOfChange(b[from := b[from] - moved], to, b[to] + moved);
    hide Together, BagsOf;
    Settle(Together(b), Together(b[from := b[from] - moved]), Together(b'), b[from], b[to], moved);
  }

  lemma Settle(a: multiset<Element>, b: multiset<Element>, c: multiset<Element>, f: multiset<Element>,
               t: multiset<Element>, m: multiset<Element>)
    requires m <= f && b + f == a + (f - m) && c + t == b + (t + m)
    ensures c == a
  {
    forall x ensures c[x] == a[x] {
      assert (b + f)[x] == (a + (f - m))[x] && (c + t)[x] == (b + (t + m))[x];
    }
  }

  // ----- The limit of W -----

  function Blank(c: nat): (r: seq<Element>)
    ensures |r| == c
  {
    seq(c, _ => [0])
  }

  /** An active block of c elements whose first used slots are taken. */
  function Block(c: nat, used: nat, watermark: nat, dirty: bool, index: nat): NodeState {
    NodeState(seq(c, i => i >= used), Blank(c), used, watermark, dirty, true, index)
  }

  /** A zeroed list after j allocations that fill up to two blocks. */
  function Filled(c: nat, j: nat): ListState
    requires 0 < c && j <= 2 * c
  {
    if j == 0 then EMPTY
    else if j <= c then ListState([Block(c, j, j, false, 0)], 0, 1, j)
    else ListState([Block(c, c, c, false, 0), Block(c, j - c, j - c, false, 1)], 1, 2, j)
  }

  /** Two full blocks after j releases, last slots first. */
  function Drained(c: nat, j: nat): ListState
    requires 0 < c && j <= 2 * c
  {
    if j <= c then ListState([Block(c, c, c, false, 0), Block(c, c - j, c, j > 0, 1)], 1, 2, 2 * c - j)
    else ListState([Block(c, 2 * c - j, c, true, 0), Block(c, 0, c, true, 1)], 1, 2, 2 * c - j)
  }

  /** The next slot of a block without holes is taken. */
  lemma TakeNext(l: ListState, c: nat, used: nat, k: nat)
    requires W(l) && k == l.tail < |l.nodes| && l.nodes[k] == Block(c, used, used, false, k) && used < c
    ensures Pumalloc(l, Blank(c)).0
      == l.(nodes := l.nodes[k := Block(c, used + 1, used + 1, false, k)], numElements := l.numElements + 1)
  {
    hide WExcept, Bag;
    WithRoomFacts(l, Blank(c));
    ReserveFacts(l);
    assert seq(c, i => i >= used)[used := false] == seq(c, i => i >= used + 1);
    var d := l.nodes[k := l.nodes[k].(firstKnownFree := used + 1)];
    assert Reserve(l) == (l.(nodes := d), used);
    assert d[k := d[k].(active := true)] == d;
    assert d[k := Block(c, used + 1, used + 1, false, k)] == l.nodes[k := Block(c, used + 1, used + 1, false, k)];
  }

  /** The first slot of a fresh block behind a full tail, or in an empty list. */
  lemma TakeFresh(l: ListState, c: nat)
    requires W(l) && c > 0 && l.tail == |l.nodes| - 1
    requires (l.tail >= 0 ==> Full(l.nodes[l.tail]) && l.nodes[l.tail].active)
    ensures Pumalloc(l, Blank(c)).0
      == l.(nodes := l.nodes + [Block(c, 1, 1, false, l.tail + 1)], tail := l.tail + 1, numNodes := l.tail + 2,
            numElements := l.numElements + 1)
  {
    hide WExcept, Pumalloc, WithRoom, Bag, Block, Full;
    AppendedFresh(l, c);
    WithRoomFacts(l, Blank(c));
    var a := WithRoom(l, Blank(c));
    SameFromRoom(l, c);
    TakeNext(a, c, 0, a.tail);
    assert a.nodes[a.tail := Block(c, 1, 1, false, a.tail)] == l.nodes + [Block(c, 1, 1, false, a.tail)];
  }

  lemma AppendedFresh(l: ListState, c: nat)
    requires W(l) && c > 0 && l.tail == |l.nodes| - 1
    requires (l.tail >= 0 ==> Full(l.nodes[l.tail]) && l.nodes[l.tail].active)
    ensures TailInRange(l) && WithRoom(l, Blank(c))
      == l.(nodes := l.nodes + [Block(c, 0, 0, false, l.tail + 1)], tail := l.tail + 1, numNodes := l.tail + 2)
  {
    if l.tail >= 0 { assert Fits(l.nodes[l.tail], l.tail, l.numNodes, -1); }
    assert FreshNode(Blank(c), l.tail + 1).free == seq(c, i => i >= 0);
  }

  /** Allocating from the list with room gives the same. */
  lemma SameFromRoom(l: ListState, c: nat)
    requires W(l) && c > 0
    ensures TailInRange(l) && W(WithRoom(l, Blank(c)))
    ensures Pumalloc(WithRoom(l, Blank(c)), Blank(c)).0 == Pumalloc(l, Blank(c)).0
  {
    hide WExcept, Bag, Reserve;
    WithRoomFacts(l, Blank(c));
  }

  lemma FillOne(c: nat, j: nat)
    requires 0 < c && j < 2 * c && W(Filled(c, j))
    ensures !Stranded(Filled(c, j)) && Pumalloc(Filled(c, j), Blank(c)).0 == Filled(c, j + 1)
  {
    hide WExcept, Pumalloc;
    var l := Filled(c, j);
    if j == 0 || j == c {
      TakeFresh(l, c);
    } else {
      TakeNext(l, c, if j < c then j else j - c, l.tail);
    }
    assert Pumalloc(l, Blank(c)).0.nodes == Filled(c, j + 1).nodes;
  }

  function Release(c: nat, j: nat): Op
    requires j < 2 * c
  {
    if j < c then Free(0, 1, c - j - 1) else Free(0, 0, 2 * c - j - 1)
  }

  lemma DrainOne(c: nat, j: nat)
    requires 0 < c && j < 2 * c
    ensures var l, op := Drained(c, j), Release(c, j);
      LiveAt(l, op.node, op.slot) && FreeAt(l, op.node, op.slot) == Drained(c, j + 1)
  {
    var l, op := Drained(c, j), Release(c, j);
    var used := if j < c then c - j else 2 * c - j;
    assert seq(c, i => i >= used)[used - 1 := true] == seq(c, i => i >= used - 1);
    var m := l.nodes[op.node := Block(c, used - 1, c, true, op.node)];
    assert ClearAt(l, op.node, op.slot).nodes == m == Drained(c, j + 1).nodes;
  }

  lemma RunSnoc(ops: seq<Op>, states: seq<seq<ListState>>, op: Op, ls: seq<ListState>)
    requires IsRun(ops, states) && Next(op, states[|ops|], ls)
    ensures IsRun(ops + [op], states + [ls])
  {
    hide Next;
    var longer, more := ops + [op], states + [ls];
    forall j | 0 <= j < |longer| ensures Next(longer[j], more[j], more[j + 1]) {
      if j < |ops| { assert Next(ops[j], states[j], states[j + 1]); }
    }
  }

  lemma {:induction false} FillUp(c: nat, j: nat) returns (ops: seq<Op>, states: seq<seq<ListState>>)
    requires 0 < c && j <= 2 * c
    ensures IsRun(ops, states) && |ops| == j && states[j] == [Filled(c, j)]
  {
    if j == 0 {
      ops, states := [], [[EMPTY]];
    } else {
      hide WExcept, Pumalloc, Stranded;
      var before, past := FillUp(c, j - 1);
      RunsKeepW(before, past, j - 1);
      assert past[j - 1][0] == Filled(c, j - 1);
      FillOne(c, j - 1);
      var op := Malloc(0, Blank(c));
      ops, states := before + [op], past + [[Filled(c, j)]];
      RunSnoc(before, past, op, [Filled(c, j)]);
    }
  }

  lemma {:induction false} Drain(c: nat, j: nat) returns (ops: seq<Op>, states: seq<seq<ListState>>)
    requires 0 < c && j <= 2 * c
    ensures IsRun(ops, states) && |ops| == 2 * c + j && states[2 * c + j] == [Drained(c, j)]
  {
    if j == 0 {
      ops, states := FillUp(c, 2 * c);
      assert Filled(c, 2 * c) == Drained(c, 0);
    } else {
      hide WExcept, FreeAt;
      var before, past := Drain(c, j - 1);
      DrainOne(c, j - 1);
      var op := Release(c, j - 1);
      ops, states := before + [op], past + [[Drained(c, j)]];
      RunSnoc(before, past, op, [Drained(c, j)]);
    }
  }

  /** The guard on Malloc is needed, however many elements a block holds: filling two blocks and releasing
      everything, last first, strands the list, and allocating once more breaks W. */
  lemma StrandedIsReachable(c: nat) returns (ops: seq<Op>, states: seq<seq<ListState>>)
    requires c > 0
    ensures IsRun(ops, states) && |ops| == 4 * c && |states[|ops|]| == 1
    ensures var l := states[|ops|][0];
      && W(l) && Stranded(l) && l.numElements == 0
      && !W(Pumalloc(l, Blank(c)).0) && LeadingActive(Pumalloc(l, Blank(c)).0.nodes) == 0
  {
    ops, states := Drain(c, 2 * c);
    hide WExcept, Pumalloc;
    RunsKeepW(ops, states, 4 * c);
    assert states[4 * c][0] == Drained(c, 2 * c);
    PumallocKeepsW(Drained(c, 2 * c), Blank(c));
    StrandedHidesElement(Drained(c, 2 * c), Blank(c));
    PumallocInTwo(c);
  }

  /** On two blocks the new element goes to the second. */
  lemma PumallocInTwo(c: nat)
    requires c > 0 && W(Drained(c, 2 * c))
    ensures Pumalloc(Drained(c, 2 * c), Blank(c)).1.node == 1
  {}
}
