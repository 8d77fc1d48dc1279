/** The load balancer on the thread lists of a set: src/internal/pumabalance.c:181-257. */
module LoadBalancer {
  import opened Bits
  import opened ListModel
  import opened ThreadLists
  import opened Balance
  import Transfer
  import TransferNodes
  import Runs

  ghost function Everything(lists: seq<ThreadList>): set<object>
    reads lists
  {
    set i, o | 0 <= i < |lists| && o in lists[i].Memory() :: o
  }

  /** The lists of a set: each in order, no two of them sharing memory. */
  ghost predicate AllValid(lists: seq<ThreadList>)
    reads lists, Everything(lists)
  {
    && (forall i, j :: 0 <= i < j < |lists| ==> lists[i] != lists[j])
    && (forall i :: 0 <= i < |lists| ==> lists[i].Valid() && W(lists[i].st))
    && (forall i, j :: 0 <= i < j < |lists| ==> lists[i].Memory() !! lists[j].Memory())
  }

  /** numNodes of every list. */
  ghost function Counts(lists: seq<ThreadList>): (r: seq<nat>)
    reads lists
    ensures |r| == |lists|
  {
    seq(|lists|, i requires 0 <= i < |lists| reads lists => lists[i].numNodes)
  }

  ghost function Memories(lists: seq<ThreadList>): (r: seq<set<object>>)
    reads lists
    ensures |r| == |lists|
  {
    seq(|lists|, i requires 0 <= i < |lists| reads lists => lists[i].Memory())
  }

  ghost predicate Apart(ms: seq<set<object>>) {
    forall i, j :: 0 <= i < j < |ms| ==> ms[i] !! ms[j]
  }

  ghost function Union(ms: seq<set<object>>): set<object> {
    set i, o | 0 <= i < |ms| && o in ms[i] :: o
  }

  /** Two of the sets exchange members. */
  lemma ExchangeKeepsApart(ms: seq<set<object>>, ns: seq<set<object>>, a: nat, b: nat)
    requires Apart(ms) && |ns| == |ms| && a < |ms| && b < |ms| && a != b
    requires forall i :: 0 <= i < |ms| && i != a && i != b ==> ns[i] == ms[i]
    requires ns[a] !! ns[b] && ns[a] + ns[b] == ms[a] + ms[b]
    ensures Apart(ns) && Union(ns) == Union(ms)
  {
    forall i, j | 0 <= i < j < |ns| ensures ns[i] !! ns[j] {
      assert ns[a] <= ms[a] + ms[b] && ns[b] <= ms[a] + ms[b];
    }
    forall o | o in Union(ms) ensures o in Union(ns) {
      var i :| 0 <= i < |ms| && o in ms[i];
      assert o in ns[i] || o in ns[a] || o in ns[b];
    }
    forall o | o in Union(ns) ensures o in Union(ms) {
      var i :| 0 <= i < |ns| && o in ns[i];
      assert o in ms[i] || o in ms[a] || o in ms[b];
    }
  }

  lemma ListsAreApart(lists: seq<ThreadList>)
    requires AllValid(lists)
    ensures Apart(Memories(lists)) && Union(Memories(lists)) == Everything(lists)
  {
    forall i, j | 0 <= i < j < |lists| ensures Memories(lists)[i] !! Memories(lists)[j] {
    }
    UnionIsEverything(lists);
  }

  lemma UnionIsEverything(lists: seq<ThreadList>)
    ensures Union(Memories(lists)) == Everything(lists)
  {
    forall o | o in Union(Memories(lists)) ensures o in Everything(lists) {
      var i :| 0 <= i < |lists| && o in Memories(lists)[i];
    }
    forall o | o in Everything(lists) ensures o in Union(Memories(lists)) {
      var i :| 0 <= i < |lists| && o in lists[i].Memory();
      assert o in Memories(lists)[i];
    }
  }

  /** _transferNNodes leaves a list alone that it was not given. */
  method TransferApart(lists: seq<ThreadList>, n: nat, a: nat, b: nat)
    requires AllValid(lists) && a < |lists| && b < |lists| && a != b && 0 < n <= lists[a].numNodes
    modifies lists, Everything(lists)
    ensures forall i :: 0 <= i < |lists| ==> lists[i].Valid() && W(lists[i].st)
    ensures forall i :: 0 <= i < |lists| && i != a && i != b ==> unchanged(lists[i])
    ensures lists[a].Memory() !! lists[b].Memory()
    ensures lists[a].Memory() + lists[b].Memory() == old(lists[a].Memory() + lists[b].Memory())
    ensures lists[a].numNodes == old(lists[a].numNodes) - n && lists[b].numNodes == old(lists[b].numNodes) + n
    ensures Transfer.CanTransfer(n, old(lists[a].st)) && -1 <= old(lists[b].st).tail < |old(lists[b].st).nodes|
    ensures lists[a].st == Transfer.TransferFrom(n, old(lists[a].st))
    ensures lists[b].st == Transfer.TransferTo(n, old(lists[a].st), old(lists[b].st))
  {
    hide WExcept, MemoryOf, ThreadList.Valid, Transfer.TransferFrom, Transfer.TransferTo;
    InEverything(lists, a);
    InEverything(lists, b);
    forall i | 0 <= i < |lists| && i != a && i != b
      ensures forall k :: 0 <= k < |lists[i].spine| ==>
        lists[i].spine[k] !in lists[a].spine && lists[i].spine[k] !in lists[b].spine
    {
      SpinesApart(lists, i, a);
      SpinesApart(lists, i, b);
    }
    TransferNodes.TransferNNodes(n, lists[a], lists[b]);
    forall i | 0 <= i < |lists| && i != a && i != b ensures unchanged(lists[i]) && lists[i].Valid() {
      lists[i].Undisturbed();
    }
  }

  lemma SpinesApart(lists: seq<ThreadList>, i: nat, a: nat)
    requires AllValid(lists) && i < |lists| && a < |lists| && i != a
    ensures forall k :: 0 <= k < |lists[i].spine| ==> lists[i].spine[k] !in lists[a].spine
  {
    hide MemoryOf;
    TransferNodes.ListsApart(lists[i], lists[a]);
  }

  lemma InEverything(lists: seq<ThreadList>, a: nat)
    requires a < |lists|
    ensures forall x :: x in lists[a].spine ==> x in Everything(lists)
  {
    lists[a].InMemory();
  }

  /** The abstract values of the lists. */
  ghost function Values(lists: seq<ThreadList>): (r: seq<ListState>)
    reads lists
    ensures |r| == |lists|
  {
    seq(|lists|, i requires 0 <= i < |lists| reads lists => lists[i].st)
  }

  /** _transferNNodes between lists a and b of the set, which is the step Give of Runs. */
  method TransferBetween(lists: seq<ThreadList>, n: nat, a: nat, b: nat)
    requires AllValid(lists) && a < |lists| && b < |lists| && a != b && 0 < n <= lists[a].numNodes
    modifies lists, Everything(lists)
    ensures AllValid(lists) && Everything(lists) == old(Everything(lists))
    ensures Counts(lists) == old(Counts(lists))[a := old(lists[a].numNodes) - n][b := old(lists[b].numNodes) + n]
    ensures Runs.AllW(old(Values(lists))) && Runs.Enabled(Runs.Give(n, a, b), old(Values(lists)))
    ensures Values(lists) == Runs.Step(Runs.Give(n, a, b), old(Values(lists)))
  {
    hide WExcept, MemoryOf, ThreadList.Valid, Transfer.TransferFrom, Transfer.TransferTo, Union;
    hide Everything, Runs.Step, Runs.Enabled;
    ghost var ms, vs, cs := Memories(lists), Values(lists), Counts(lists);
    ListsAreApart(lists);
    CountsMatch(lists, a);
    TransferApart(lists, n, a, b);
    ghost var ns := Memories(lists);
    ExchangeKeepsApart(ms, ns, a, b);
    UnionIsEverything(lists);
    forall i, j | 0 <= i < j < |lists| ensures lists[i].Memory() !! lists[j].Memory() {
      assert ns[i] !! ns[j];
    }
    IsGive(vs, Values(lists), n, a, b);
  }

  lemma CountsMatch(lists: seq<ThreadList>, a: nat)
    requires AllValid(lists) && a < |lists|
    ensures Runs.AllW(Values(lists)) && Values(lists)[a].numNodes == lists[a].numNodes
  {
    hide WExcept, MemoryOf, ThreadList.Linked, ThreadList.Abstracted, ThreadList.Separate;
  }

  lemma IsGive(vs: seq<ListState>, ws: seq<ListState>, n: nat, a: nat, b: nat)
    requires Runs.AllW(vs) && |vs| == |ws| && a < |vs| && b < |vs| && a != b && 0 < n <= vs[a].numNodes
    requires forall i :: 0 <= i < |vs| && i != a && i != b ==> ws[i] == vs[i]
    requires Transfer.CanTransfer(n, vs[a]) && -1 <= vs[b].tail < |vs[b].nodes|
    requires ws[a] == Transfer.TransferFrom(n, vs[a]) && ws[b] == Transfer.TransferTo(n, vs[a], vs[b])
    ensures Runs.Enabled(Runs.Give(n, a, b), vs) && ws == Runs.Step(Runs.Give(n, a, b), vs)
  {
    hide WExcept, Transfer.TransferFrom, Transfer.TransferTo;
  }

  // ----- Lines 205-256 -----

  /** The state of the balancer: the two stacks, of thread numbers, and rem. */
  ghost predicate Tracks(lists: seq<ThreadList>, s: State, pos: array<nat>, posSize: nat, neg: array<nat>,
                         negSize: nat, rem: nat)
    reads lists, pos, neg
  {
    && Counts(lists) == s.cnt && rem == s.rem
    && posSize <= pos.Length && pos[..posSize] == s.pos
    && negSize <= neg.Length && neg[..negSize] == s.neg
  }

  ghost predicate Planned(p: Plan, speeds: seq<real>, avg: nat) {
    && |p.tgt| == |speeds| == |p.active|
    && forall i :: 0 <= i < |speeds| ==> speeds[i] >= 0.0 && p.tgt[i] == Target(speeds[i], avg)
  }

  /** The body of the matching loop. */
  method MatchOnce(lists: seq<ThreadList>, speeds: seq<real>, avg: nat,
                   pos: array<nat>, posSize: nat, neg: array<nat>, negSize: nat, rem: nat,
                   ghost p: Plan, ghost s: State, ghost cnt0: seq<nat>, ghost rem0: nat)
    returns (posSize': nat, negSize': nat, rem': nat)
    requires AllValid(lists) && Inv(p, s, cnt0, rem0) && Planned(p, speeds, avg) && |lists| == |speeds|
    requires Tracks(lists, s, pos, posSize, neg, negSize, rem) && posSize > 0 && negSize > 0
    requires pos !in Everything(lists) && neg !in Everything(lists)
    modifies lists, Everything(lists)
    ensures AllValid(lists) && Everything(lists) == old(Everything(lists))
    ensures CanMatch(p, s) && Tracks(lists, Match(p, s), pos, posSize', neg, negSize', rem')
    ensures Runs.AllW(old(Values(lists))) && Runs.AllW(Values(lists))
    ensures Runs.Together(Runs.BagsOf(Values(lists))) == Runs.Together(Runs.BagsOf(old(Values(lists))))
  {
    hide AllValid, Everything, Inv, WExcept, Target, Match, Runs.Step, Runs.Together, Runs.BagsOf, Runs.Enabled;
    MatchIsDefined(p, s, cnt0, rem0);
    assert pos[..posSize][posSize - 1] == pos[posSize - 1] && neg[..negSize][negSize - 1] == neg[negSize - 1];
    var a, b := pos[posSize - 1], neg[negSize - 1];
    assert Counts(lists)[a] == lists[a].numNodes && Counts(lists)[b] == lists[b].numNodes;
    var posAvgNodes := Target(speeds[a], avg);
    var negAvgNodes := Target(speeds[b], avg);
    var nToTransfer := Min(negAvgNodes - lists[b].numNodes, lists[a].numNodes - (posAvgNodes + B(rem > 0)));
    ghost var vs := Values(lists);
    TransferBetween(lists, nToTransfer, a, b);
    Runs.GiveKeepsTogether(Runs.Give(nToTransfer, a, b), vs);
    assert Counts(lists)[a] == lists[a].numNodes && Counts(lists)[b] == lists[b].numNodes;
    var posIsTarget := lists[a].numNodes == posAvgNodes + B(rem > 0);
    rem' := rem - B(rem > 0 && posIsTarget);
    posSize' := posSize - B(posIsTarget);
    var negIsTarget := lists[b].numNodes == negAvgNodes;
    negSize' := negSize - B(negIsTarget);
    assert pos[..posSize - 1] == pos[..posSize][..posSize - 1] && neg[..negSize - 1] == neg[..negSize][..negSize - 1];
    IsMatch(p, s, Counts(lists), pos[..posSize'], neg[..negSize'], rem');
  }

  lemma IsMatch(p: Plan, s: State, cnt: seq<nat>, pos: seq<nat>, neg: seq<nat>, rem: nat)
    requires CanMatch(p, s)
    requires var a, b, n := Top(s.pos), Top(s.neg), ToTransfer(p, s);
      cnt == s.cnt[a := s.cnt[a] - n][b := s.cnt[b] + n]
    requires var a := Top(s.pos); var posIsTarget := cnt[a] == p.tgt[a] + B(s.rem > 0);
      rem == s.rem - B(s.rem > 0 && posIsTarget) && pos == (if posIsTarget then s.pos[..|s.pos| - 1] else s.pos)
    requires var b := Top(s.neg); neg == (if cnt[b] == p.tgt[b] then s.neg[..|s.neg| - 1] else s.neg)
    ensures var t := Match(p, s); t.cnt == cnt && t.pos == pos && t.neg == neg && t.rem == rem
  {}

  /** The matching loop. */
  method MatchStacks(lists: seq<ThreadList>, speeds: seq<real>, avg: nat,
                     pos: array<nat>, posSize: nat, neg: array<nat>, negSize: nat, rem: nat,
                     ghost p: Plan, ghost s: State, ghost cnt0: seq<nat>, ghost rem0: nat)
    returns (posSize': nat, negSize': nat, rem': nat, ghost s': State)
    requires AllValid(lists) && Inv(p, s, cnt0, rem0) && Planned(p, speeds, avg) && |lists| == |speeds|
    requires Tracks(lists, s, pos, posSize, neg, negSize, rem)
    requires pos !in Everything(lists) && neg !in Everything(lists)
    modifies lists, Everything(lists)
    ensures AllValid(lists) && Everything(lists) == old(Everything(lists))
    ensures Inv(p, s', cnt0, rem0) && Tracks(lists, s', pos, posSize', neg, negSize', rem')
    ensures posSize' == 0 || negSize' == 0
    ensures s'.seen == s.seen
    ensures Runs.AllW(old(Values(lists))) && Runs.AllW(Values(lists))
    ensures Runs.Together(Runs.BagsOf(Values(lists))) == Runs.Together(Runs.BagsOf(old(Values(lists))))
  {
    hide AllValid, Everything, Inv, WExcept, Target, Planned, Match, Runs.Together, Runs.BagsOf;
    posSize', negSize', rem', s' := posSize, negSize, rem, s;
    ghost var vs := Values(lists);
    AllValidW(lists);
    while posSize' > 0 && negSize' > 0
      invariant AllValid(lists) && Everything(lists) == old(Everything(lists))
      invariant Inv(p, s', cnt0, rem0) && Tracks(lists, s', pos, posSize', neg, negSize', rem') && s'.seen == s.seen
      invariant Runs.AllW(vs) && Runs.AllW(Values(lists))
      invariant Runs.Together(Runs.BagsOf(Values(lists))) == Runs.Together(Runs.BagsOf(vs))
      decreases posSize' + negSize'
    {
      MatchKeeps(p, s', cnt0, rem0);
      posSize', negSize', rem' := MatchOnce(lists, speeds, avg, pos, posSize', neg, negSize', rem', p, s', cnt0, rem0);
      SameSeen(p, s');
      s' := Match(p, s');
    }
  }

  lemma SameSeen(p: Plan, s: State)
    requires CanMatch(p, s)
    ensures Match(p, s).seen == s.seen
  {}

  lemma AllValidW(lists: seq<ThreadList>)
    requires AllValid(lists)
    ensures Runs.AllW(Values(lists))
  {
    hide WExcept, MemoryOf, ThreadList.Valid;
  }

  /** Lines 217-232 for list i: onto which stack, if any. */
  method ClassifyList(lists: seq<ThreadList>, i: nat, speeds: seq<real>, avg: nat,
                      pos: array<nat>, posSize: nat, neg: array<nat>, negSize: nat, rem: nat,
                      ghost p: Plan, ghost s: State, ghost cnt0: seq<nat>, ghost rem0: nat)
    returns (posSize': nat, negSize': nat, rem': nat)
    requires AllValid(lists) && Inv(p, s, cnt0, rem0) && Planned(p, speeds, avg) && |lists| == |speeds|
    requires Tracks(lists, s, pos, posSize, neg, negSize, rem) && pos != neg
    requires pos !in Everything(lists) && neg !in Everything(lists)
    requires i < |lists| && p.active[i] && !s.seen[i] && pos.Length == neg.Length == Count(p.active, true)
    modifies pos, neg
    ensures AllValid(lists) && Everything(lists) == old(Everything(lists)) && Values(lists) == old(Values(lists))
    ensures Tracks(lists, Classify(p, s, i), pos, posSize', neg, negSize', rem')
  {
    hide Inv, Runs.Together, Target, WExcept, MemoryOf, ThreadList.Linked, ThreadList.Abstracted, ThreadList.Separate;
    StacksHaveRoom(p, s, i, cnt0, rem0);
    var tlAvgNodes := Target(speeds[i], avg);
    assert Counts(lists)[i] == lists[i].numNodes;
    rem' := rem - B(rem > 0 && lists[i].numNodes == tlAvgNodes + 1);
    posSize', negSize' := posSize, negSize;
    if lists[i].numNodes > tlAvgNodes + B(rem' > 0) {
      pos[posSize] := i;
      posSize' := posSize + 1;
      assert pos[..posSize'] == s.pos + [i];
    } else if lists[i].numNodes < tlAvgNodes {
      neg[negSize] := i;
      negSize' := negSize + 1;
      assert neg[..negSize'] == s.neg + [i];
    }
  }

  /** Every thread's list stands in exactly one domain. */
  ghost predicate Partition(domains: seq<seq<nat>>, n: nat) {
    && (forall d, c :: 0 <= d < |domains| && 0 <= c < |domains[d]| ==> domains[d][c] < n)
    && (forall d, c, e, f ::
          0 <= d < |domains| && 0 <= c < |domains[d]| && 0 <= e < |domains| && 0 <= f < |domains[e]| ==>
          domains[d][c] == domains[e][f] ==> d == e && c == f)
    && forall i :: 0 <= i < n ==> InSome(domains, i)
  }

  ghost predicate InSome(domains: seq<seq<nat>>, i: nat) {
    exists d, c :: 0 <= d < |domains| && 0 <= c < |domains[d]| && domains[d][c] == i
  }

  /** The active lists looked at so far are those of the domains before d and the first c of domain d. */
  ghost predicate SeenUpTo(domains: seq<seq<nat>>, p: Plan, s: State, d: nat, c: nat) {
    && Shaped(p, s) && Partition(domains, |s.cnt|)
    && forall e, f :: 0 <= e < |domains| && 0 <= f < |domains[e]| && p.active[domains[e][f]] ==>
         (s.seen[domains[e][f]] <==> e < d || (e == d && f < c))
  }

  lemma SeenOneMore(domains: seq<seq<nat>>, p: Plan, s: State, d: nat, c: nat)
    requires SeenUpTo(domains, p, s, d, c) && d < |domains| && c < |domains[d]|
    ensures Shaped(p, s) && domains[d][c] < |s.cnt|
    ensures p.active[domains[d][c]] ==>
      !s.seen[domains[d][c]] && SeenUpTo(domains, p, Classify(p, s, domains[d][c]), d, c + 1)
    ensures !p.active[domains[d][c]] ==> SeenUpTo(domains, p, s, d, c + 1)
  {}

  lemma SeenDomain(domains: seq<seq<nat>>, p: Plan, s: State, d: nat)
    requires d < |domains| && SeenUpTo(domains, p, s, d, |domains[d]|)
    ensures SeenUpTo(domains, p, s, d + 1, 0)
  {}

  lemma SeenAll(domains: seq<seq<nat>>, p: Plan, s: State)
    requires SeenUpTo(domains, p, s, |domains|, 0)
    ensures forall i :: 0 <= i < |s.cnt| && p.active[i] ==> s.seen[i]
  {
    forall i | 0 <= i < |s.cnt| && p.active[i] ensures s.seen[i] {
      assert InSome(domains, i);
    }
  }

  lemma SeenSame(domains: seq<seq<nat>>, p: Plan, s: State, t: State, d: nat)
    requires SeenUpTo(domains, p, s, d, 0) && Shaped(p, t) && t.seen == s.seen
    ensures SeenUpTo(domains, p, t, d, 0)
  {}

  /** Lines 214-233: the lists of domain d. */
  method ClassifyDomain(lists: seq<ThreadList>, active: seq<bool>, domains: seq<seq<nat>>, d: nat, speeds: seq<real>,
                        avg: nat,
                        pos: array<nat>, posSize: nat, neg: array<nat>, negSize: nat, rem: nat,
                        ghost p: Plan, ghost s: State, ghost cnt0: seq<nat>, ghost rem0: nat)
    returns (posSize': nat, negSize': nat, rem': nat, ghost s': State)
    requires AllValid(lists) && Inv(p, s, cnt0, rem0) && Planned(p, speeds, avg) && |lists| == |speeds|
    requires active == p.active
    requires Tracks(lists, s, pos, posSize, neg, negSize, rem) && pos != neg
    requires pos !in Everything(lists) && neg !in Everything(lists)
    requires d < |domains| && SeenUpTo(domains, p, s, d, 0) && pos.Length == neg.Length == Count(active, true)
    modifies pos, neg
    ensures AllValid(lists) && Everything(lists) == old(Everything(lists)) && Values(lists) == old(Values(lists))
    ensures Inv(p, s', cnt0, rem0) && Tracks(lists, s', pos, posSize', neg, negSize', rem')
    ensures SeenUpTo(domains, p, s', d + 1, 0)
  {
    hide AllValid, Everything, Inv, Planned, SeenUpTo, Classify, WExcept, Count;
    posSize', negSize', rem', s' := posSize, negSize, rem, s;
    var c := 0;
    while c < |domains[d]|
      invariant c <= |domains[d]| && AllValid(lists) && Everything(lists) == old(Everything(lists))
      invariant Values(lists) == old(Values(lists))
      invariant Inv(p, s', cnt0, rem0) && Tracks(lists, s', pos, posSize', neg, negSize', rem')
      invariant SeenUpTo(domains, p, s', d, c)
    {
      var i := domains[d][c];
      SeenOneMore(domains, p, s', d, c);
      c := c + 1;
      if !active[i] {
        continue;
      }
      ClassifyKeeps(p, s', i, cnt0, rem0);
      posSize', negSize', rem' := ClassifyList(lists, i, speeds, avg, pos, posSize', neg, negSize', rem', p, s', cnt0,
                                               rem0);
      s' := Classify(p, s', i);
    }
    SeenDomain(domains, p, s', d);
  }

  /** Lines 183-195. */
  method ComputeTotals(lists: seq<ThreadList>, active: seq<bool>, times: seq<real>)
    returns (lastNRunTime: real, nodes: nat, numLists: nat)
    requires |lists| == |active| == |times|
    ensures lastNRunTime == TotalTime(times) && nodes == SumActive(Counts(lists), active)
    ensures numLists == Count(active, true)
  {
    lastNRunTime, nodes, numLists := 0.0, 0, 0;
    ghost var cnt := Counts(lists);
    var i := 0;
    while i < |lists|
      invariant i <= |lists|
      invariant lastNRunTime == TotalTime(times[..i]) && nodes == SumActive(cnt[..i], active[..i])
      invariant numLists == Count(active[..i], true)
    {
      assert times[..i + 1][..i] == times[..i] && cnt[..i + 1][..i] == cnt[..i] && active[..i + 1][..i] == active[..i];
      assert AllActive(i + 1)[..i] == AllActive(i);
      lastNRunTime := lastNRunTime + times[i];
      nodes := nodes + lists[i].numNodes * B(active[i]);
      numLists := numLists + B(active[i]);
      i := i + 1;
    }
    assert times[..i] == times && cnt[..i] == cnt && active[..i] == active;
  }

  /** Lines 197-203. */
  method ComputeSpeeds(active: seq<bool>, times: seq<real>, lastNRunTime: real,
                       numLists: nat) returns (relativeSpeed: array<real>)
    requires Timed(times, active) && lastNRunTime == TotalTime(times) && numLists == Count(active, true)
    ensures fresh(relativeSpeed) && relativeSpeed[..] == Speeds(times, active)
  {
    relativeSpeed := new real[|times|];
    var i := 0;
    while i < |times|
      invariant i <= |times| && relativeSpeed[..i] == Speeds(times, active)[..i]
    {
      relativeSpeed[i] := (numLists as real + 1.0) / numLists as real - times[i] / lastNRunTime;
      i := i + 1;
    }
  }

  lemma TargetsPlanned(times: seq<real>, active: seq<bool>, avg: nat)
    requires Timed(times, active)
    ensures Planned(Plan(Targets(times, active, avg), active), Speeds(times, active), avg)
  {
    hide Speeds, Target;
    forall i | 0 <= i < |times| ensures Speeds(times, active)[i] >= 0.0 {
      SpeedIsPositive(times, active, i);
    }
  }

  /** Lines 210-211 and what they mean for the targets. */
  lemma AverageAndRest(times: seq<real>, active: seq<bool>, nodes: nat)
    requires Timed(times, active) && RealSum(times, active) == TotalTime(times)
    ensures var n := Count(active, true); SumActive(Targets(times, active, nodes / n), active) + nodes % n <= nodes
  {
    hide RealSum, Targets, SumActive;
    TargetsFit(times, active, nodes / Count(active, true));
    assert Count(active, true) * (nodes / Count(active, true)) + nodes % Count(active, true) == nodes;
  }

  /** Lines 183-203: the totals and the relative speeds. */
  method Measure(lists: seq<ThreadList>, active: seq<bool>, times: seq<real>) returns (nodes: nat, numLists: nat,
                 speeds: seq<real>)
    requires |lists| == |active| && Timed(times, active)
    ensures nodes == SumActive(Counts(lists), active) && numLists == Count(active, true)
    ensures speeds == Speeds(times, active)
  {
    hide Speeds, TotalTime, Count, SumActive;
    var lastNRunTime;
    lastNRunTime, nodes, numLists := ComputeTotals(lists, active, times);
    var relativeSpeed := ComputeSpeeds(active, times, lastNRunTime, numLists);
    speeds := relativeSpeed[..];
  }

  /** Lines 205-208. */
  method NewStacks(numLists: nat, ghost others: set<object>) returns (pos: array<nat>, neg: array<nat>)
    ensures pos != neg && pos.Length == neg.Length == numLists && fresh(pos) && fresh(neg)
    ensures pos !in others && neg !in others
  {
    neg := new nat[numLists];
    pos := new nat[numLists];
  }

  /** Lines 183-208. */
  method Prepare(lists: seq<ThreadList>, active: seq<bool>, times: seq<real>)
    returns (nodes: nat, numLists: nat, speeds: seq<real>, pos: array<nat>, neg: array<nat>)
    requires AllValid(lists) && |lists| == |active| && Timed(times, active)
    ensures AllValid(lists) && Everything(lists) == old(Everything(lists)) && Values(lists) == old(Values(lists))
    ensures Counts(lists) == old(Counts(lists))
    ensures nodes == SumActive(Counts(lists), active) && numLists == Count(active, true)
    ensures speeds == Speeds(times, active) && pos != neg && pos.Length == neg.Length == numLists
    ensures pos !in Everything(lists) && neg !in Everything(lists) && fresh(pos) && fresh(neg)
  {
    hide Speeds, Timed, Count, SumActive, WExcept, MemoryOf, ThreadList.Valid;
    nodes, numLists, speeds := Measure(lists, active, times);
    pos, neg := NewStacks(numLists, Everything(lists));
    forall i | 0 <= i < |lists| ensures lists[i].Valid() {
      lists[i].Undisturbed();
    }
  }

  /** One domain: lines 212-255. */
  method BalanceDomain(lists: seq<ThreadList>, active: seq<bool>, domains: seq<seq<nat>>, d: nat, speeds: seq<real>,
                       avg: nat,
                       pos: array<nat>, posSize: nat, neg: array<nat>, negSize: nat, rem: nat,
                       ghost p: Plan, ghost s: State, ghost cnt0: seq<nat>, ghost rem0: nat)
    returns (posSize': nat, negSize': nat, rem': nat, ghost s': State)
    requires AllValid(lists) && Inv(p, s, cnt0, rem0) && Planned(p, speeds, avg) && |lists| == |speeds|
    requires active == p.active
    requires Tracks(lists, s, pos, posSize, neg, negSize, rem) && pos != neg
    requires pos !in Everything(lists) && neg !in Everything(lists)
    requires d < |domains| && SeenUpTo(domains, p, s, d, 0) && pos.Length == neg.Length == Count(active, true)
    modifies pos, neg, lists, Everything(lists)
    ensures AllValid(lists) && Everything(lists) == old(Everything(lists))
    ensures Inv(p, s', cnt0, rem0) && Tracks(lists, s', pos, posSize', neg, negSize', rem')
    ensures SeenUpTo(domains, p, s', d + 1, 0)
    ensures posSize' == 0 || negSize' == 0
    ensures Runs.AllW(old(Values(lists))) && Runs.AllW(Values(lists))
    ensures Runs.Together(Runs.BagsOf(Values(lists))) == Runs.Together(Runs.BagsOf(old(Values(lists))))
  {
    hide AllValid, Everything, Inv, Planned, SeenUpTo, WExcept, Count, Tracks, Runs.Together, Runs.BagsOf;
    ghost var t;
    posSize', negSize', rem', t := ClassifyDomain(lists, active, domains, d, speeds, avg, pos, posSize, neg, negSize,
                                                  rem, p, s, cnt0, rem0);
    posSize', negSize', rem', s' := MatchStacks(lists, speeds, avg, pos, posSize', neg, negSize', rem', p, t, cnt0,
                                                rem0);
    SameShape(p, s', cnt0, rem0);
    SeenSame(domains, p, t, s', d + 1);
  }

  lemma SameShape(p: Plan, s: State, cnt0: seq<nat>, rem0: nat)
    requires Inv(p, s, cnt0, rem0)
    ensures Shaped(p, s) && |cnt0| == |s.cnt|
  {}

  /** _autobalanceThreadLoad, when some list has run and no inactive one has; surplus is what it leaves on
      posStack. Afterwards every active list that was short or at its target has exactly its target number
      of nodes, every other one no fewer than that and no more than before, and every one that is not left
      on the surplus stack at most one more. */
  method AutobalanceThreadLoad(lists: seq<ThreadList>, active: seq<bool>, times: seq<real>, domains: seq<seq<nat>>)
    returns (surplus: seq<nat>, ghost p: Plan, ghost s: State)
    requires AllValid(lists) && |lists| == |active| && Timed(times, active)
    requires RealSum(times, active) == TotalTime(times)
    requires Partition(domains, |lists|)
    modifies lists, Everything(lists)
    ensures AllValid(lists) && Everything(lists) == old(Everything(lists))
    ensures var cnt0, n := old(Counts(lists)), Count(active, true); var nodes := SumActive(cnt0, active);
      && p == Plan(Targets(times, active, nodes / n), active)
      && s.cnt == Counts(lists) && s.pos == surplus && s.neg == []
      && Inv(p, s, cnt0, nodes % n) && Balanced(p, s, cnt0, nodes % n)
    ensures forall i :: 0 <= i < |lists| && active[i] ==> Served(times, active, old(Counts(lists)), Counts(lists), i)
    ensures EqualTimes(times, active) ==>
      forall i :: 0 <= i < |lists| && active[i] ==> Evened(active, old(Counts(lists)), Counts(lists), i)
    ensures Runs.AllW(old(Values(lists))) && Runs.AllW(Values(lists))
    ensures Runs.Together(Runs.BagsOf(Values(lists))) == Runs.Together(Runs.BagsOf(old(Values(lists))))
  {
    hide AllValid, Everything, Partition, Inv, Planned, SeenUpTo, Balanced, WExcept, Count;
    hide SumActive, Targets, Speeds, RealSum, Runs.Together, Runs.BagsOf, Served, EqualTimes, Evened;
    AllValidW(lists);
    ghost var cnt0, vs := Counts(lists), Values(lists);
    var avgNodes, numLists, speeds, pos, neg := Prepare(lists, active, times);
    var negSize: nat, posSize: nat := 0, 0;
    ghost var nodes := avgNodes;
    var rem := avgNodes % numLists;
    avgNodes := avgNodes / numLists;
    ghost var rem0 := rem;
    p := Plan(Targets(times, active, avgNodes), active);
    TargetsPlanned(times, active, avgNodes);
    s := Start(cnt0, rem);
    StartInOrder(p, cnt0, rem);
    SeenNone(domains, p, cnt0, rem);
    var d := 0;
    while d < |domains|
      invariant d <= |domains| && AllValid(lists) && Everything(lists) == old(Everything(lists))
      invariant Inv(p, s, cnt0, rem0) && Tracks(lists, s, pos, posSize, neg, negSize, rem)
      invariant SeenUpTo(domains, p, s, d, 0)
      invariant posSize == 0 || negSize == 0
      invariant Runs.AllW(vs) && Runs.AllW(Values(lists))
      invariant Runs.Together(Runs.BagsOf(Values(lists))) == Runs.Together(Runs.BagsOf(vs))
    {
      posSize, negSize, rem, s := BalanceDomain(lists, active, domains, d, speeds, avgNodes, pos, posSize, neg,
                                                negSize, rem, p, s, cnt0, rem0);
      d := d + 1;
    }
    SeenAll(domains, p, s);
    AverageAndRest(times, active, nodes);
    EndsBalanced(p, s, cnt0, rem0);
    EndsFair(p, s, times, cnt0);
    surplus := pos[..posSize];
  }

  lemma SeenNone(domains: seq<seq<nat>>, p: Plan, cnt: seq<nat>, rem: nat)
    requires |p.tgt| == |p.active| == |cnt| && Partition(domains, |cnt|)
    ensures SeenUpTo(domains, p, Start(cnt, rem), 0, 0)
  {}
}
