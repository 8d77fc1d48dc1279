/** The arithmetic of the load balancer: src/internal/pumabalance.c:175-257. Lists are numbered by thread. */
module Balance {
  import opened Bits
  import RunTimes

  function B(b: bool): nat { if b then 1 else 0 }

  function Min(a: nat, b: nat): nat { if a < b then a else b }

  /** The sum of f over the active lists. */
  function SumActive(f: seq<nat>, active: seq<bool>): nat
    requires |f| == |active|
  {
    if f == [] then 0
    else SumActive(f[..|f| - 1], active[..|f| - 1]) + if active[|f| - 1] then f[|f| - 1] else 0
  }

  /** The target number of nodes of each list, and which lists are active. */
  datatype Plan = Plan(tgt: seq<nat>, active: seq<bool>)

  /** cnt is numNodes of each list, seen the lists classified so far, pos and neg the two stacks (top last),
      and bonus the lists that were allowed one node above their target out of rem. */
  datatype State = State(cnt: seq<nat>, seen: seq<bool>, pos: seq<nat>, neg: seq<nat>, rem: nat, bonus: seq<bool>)

  predicate Shaped(p: Plan, s: State) {
    |p.tgt| == |p.active| == |s.cnt| == |s.seen| == |s.bonus|
  }

  /** The body of the loop over the lists of a domain, for an active list i. */
  function Classify(p: Plan, s: State, i: nat): State
    requires Shaped(p, s) && i < |s.cnt|
  {
    var spare := s.rem > 0 && s.cnt[i] == p.tgt[i] + 1;
    var rem := s.rem - B(spare);
    var surplus := s.cnt[i] > p.tgt[i] + B(rem > 0);
    s.(seen := s.seen[i := true], rem := rem,
       bonus := s.bonus[i := spare && !surplus],
       pos := if surplus then s.pos + [i] else s.pos,
       neg := if !surplus && s.cnt[i] < p.tgt[i] then s.neg + [i] else s.neg)
  }

  function Top(stack: seq<nat>): nat
    requires stack != []
  {
    stack[|stack| - 1]
  }

  /** nToTransfer, without the assumption that its subtractions stay above zero. */
  function ToTransfer(p: Plan, s: State): int
    requires Shaped(p, s) && s.pos != [] && s.neg != [] && Top(s.pos) < |s.cnt| && Top(s.neg) < |s.cnt|
  {
    var a := p.tgt[Top(s.neg)] as int - s.cnt[Top(s.neg)];
    var b := s.cnt[Top(s.pos)] as int - (p.tgt[Top(s.pos)] + B(s.rem > 0));
    if a < b then a else b
  }

  predicate CanMatch(p: Plan, s: State) {
    && Shaped(p, s) && s.pos != [] && s.neg != [] && Top(s.pos) < |s.cnt| && Top(s.neg) < |s.cnt|
    && Top(s.pos) != Top(s.neg) && 0 <= ToTransfer(p, s) <= s.cnt[Top(s.pos)]
  }

  /** The body of the matching loop. */
  function Match(p: Plan, s: State): State
    requires CanMatch(p, s)
  {
    var a, b, n := Top(s.pos), Top(s.neg), ToTransfer(p, s);
    var cnt := s.cnt[a := s.cnt[a] - n][b := s.cnt[b] + n];
    var posIsTarget := cnt[a] == p.tgt[a] + B(s.rem > 0);
    var negIsTarget := cnt[b] == p.tgt[b];
    var spare := s.rem > 0 && posIsTarget;
    s.(cnt := cnt, rem := s.rem - B(spare), bonus := s.bonus[a := spare],
       pos := if posIsTarget then s.pos[..|s.pos| - 1] else s.pos,
       neg := if negIsTarget then s.neg[..|s.neg| - 1] else s.neg)
  }

  // ----- The invariant -----

  predicate DistinctIn(stack: seq<nat>, n: nat) {
    && (forall k :: 0 <= k < |stack| ==> stack[k] < n)
    && forall j, k :: 0 <= j < k < |stack| ==> stack[j] != stack[k]
  }

  /** Where list i stands: surplus lists are above their target and have only lost nodes, deficit lists are
      below and have only gained, and every other list that has been looked at is at its target or, out of
      the remainder, one above, where only a list that started above can be. */
  predicate Stands(p: Plan, s: State, cnt0: seq<nat>, i: nat)
    requires Shaped(p, s) && |cnt0| == |s.cnt| && i < |s.cnt|
  {
    if !p.active[i] || !s.seen[i] then i !in s.pos && i !in s.neg && !s.bonus[i] && s.cnt[i] == cnt0[i]
    else if i in s.pos then i !in s.neg && !s.bonus[i] && p.tgt[i] + B(s.rem > 0) < s.cnt[i] <= cnt0[i]
    else if i in s.neg then !s.bonus[i] && cnt0[i] <= s.cnt[i] < p.tgt[i]
    else s.cnt[i] == p.tgt[i] + B(s.bonus[i]) && (s.bonus[i] ==> cnt0[i] > p.tgt[i])
  }

  predicate Inv(p: Plan, s: State, cnt0: seq<nat>, rem0: nat) {
    && Shaped(p, s) && |cnt0| == |s.cnt|
    && DistinctIn(s.pos, |s.cnt|) && DistinctIn(s.neg, |s.cnt|)
    && (forall i :: 0 <= i < |s.cnt| ==> Stands(p, s, cnt0, i))
    && Spent(Count(s.bonus, true), s.rem, rem0)
    && SumActive(s.cnt, p.active) == SumActive(cnt0, p.active)
  }

  /** Of the remainder rem0, bonus has been given to lists and rem is left; the last of it can be lost to a list that
      is then treated as having a surplus all the same. */
  predicate Spent(bonus: nat, rem: nat, rem0: nat) {
    bonus + rem == rem0 || (rem == 0 && bonus + 1 == rem0)
  }

  /** Before the first domain. */
  function Start(cnt: seq<nat>, rem: nat): State {
    State(cnt, seq(|cnt|, _ => false), [], [], rem, seq(|cnt|, _ => false))
  }

  lemma StartInOrder(p: Plan, cnt: seq<nat>, rem: nat)
    requires |p.tgt| == |p.active| == |cnt|
    ensures Inv(p, Start(cnt, rem), cnt, rem)
  {
    CountExtremes(Start(cnt, rem).bonus, true);
  }

  lemma CountSet(bits: seq<bool>, i: nat, v: bool)
    requires i < |bits| && !bits[i]
    ensures Count(bits[i := v], true) == Count(bits, true) + B(v)
  {
    if v { CountUpdate(bits, i, true); } else { assert bits[i := v] == bits; }
  }

  /** Classifying a list keeps the invariant. */
  lemma ClassifyKeeps(p: Plan, s: State, i: nat, cnt0: seq<nat>, rem0: nat)
    requires Inv(p, s, cnt0, rem0) && i < |s.cnt| && p.active[i] && !s.seen[i]
    ensures Inv(p, Classify(p, s, i), cnt0, rem0)
  {
    var t := Classify(p, s, i);
    assert Stands(p, s, cnt0, i);
    forall j | 0 <= j < |t.cnt| ensures Stands(p, t, cnt0, j) {
      assert Stands(p, s, cnt0, j);
    }
    CountSet(s.bonus, i, t.bonus[i]);
  }

  /** The two tops differ, and the number of nodes to transfer is what _transferNNodes asks for: neither
      subtraction goes below zero. */
  lemma MatchIsDefined(p: Plan, s: State, cnt0: seq<nat>, rem0: nat)
    requires Inv(p, s, cnt0, rem0) && s.pos != [] && s.neg != []
    ensures CanMatch(p, s) && 0 < ToTransfer(p, s) <= s.cnt[Top(s.pos)]
    ensures p.active[Top(s.pos)] && p.active[Top(s.neg)]
  {
    assert Stands(p, s, cnt0, Top(s.pos)) && Stands(p, s, cnt0, Top(s.neg));
  }

  lemma {:induction false} SumActiveUpdate(f: seq<nat>, active: seq<bool>, i: nat, x: nat)
    requires |f| == |active| && i < |f| && active[i]
    ensures SumActive(f[i := x], active) == SumActive(f, active) - f[i] + x
  {
    var n := |f| - 1;
    if i == n {
      assert f[i := x][..n] == f[..n];
    } else {
      assert f[i := x][..n] == f[..n][i := x];
      SumActiveUpdate(f[..n], active[..n], i, x);
    }
  }

  /** Only the two tops change their place. */
  lemma MatchPlaces(p: Plan, s: State, cnt0: seq<nat>, rem0: nat)
    requires Inv(p, s, cnt0, rem0) && s.pos != [] && s.neg != []
    ensures CanMatch(p, s)
    ensures var t, a, b := Match(p, s), Top(s.pos), Top(s.neg);
      && DistinctIn(t.pos, |t.cnt|) && DistinctIn(t.neg, |t.cnt|)
      && (forall j :: j in t.pos <==> j in s.pos && (j == a ==> t.cnt[a] != p.tgt[a] + B(s.rem > 0)))
      && (forall j :: j in t.neg <==> j in s.neg && (j == b ==> t.cnt[b] != p.tgt[b]))
      && |t.pos| + |t.neg| < |s.pos| + |s.neg|
  {
    MatchIsDefined(p, s, cnt0, rem0);
    hide Stands;
    Popped(s.pos, |s.cnt|);
    Popped(s.neg, |s.cnt|);
  }

  lemma MatchStands(p: Plan, s: State, cnt0: seq<nat>, rem0: nat, j: nat)
    requires Inv(p, s, cnt0, rem0) && s.pos != [] && s.neg != [] && j < |s.cnt|
    ensures CanMatch(p, s) && Stands(p, Match(p, s), cnt0, j)
  {
    MatchIsDefined(p, s, cnt0, rem0);
    MatchPlaces(p, s, cnt0, rem0);
    var a, b := Top(s.pos), Top(s.neg);
    assert a in s.pos && b in s.neg;
    assert Stands(p, s, cnt0, a) && Stands(p, s, cnt0, b) && Stands(p, s, cnt0, j);
    hide DistinctIn, SumActive;
  }

  /** A match keeps the invariant, moves nodes between the two tops only, and pops a stack. */
  lemma MatchKeeps(p: Plan, s: State, cnt0: seq<nat>, rem0: nat)
    requires Inv(p, s, cnt0, rem0) && s.pos != [] && s.neg != []
    ensures CanMatch(p, s) && Inv(p, Match(p, s), cnt0, rem0)
    ensures |Match(p, s).pos| + |Match(p, s).neg| < |s.pos| + |s.neg|
  {
    hide Stands;
    MatchIsDefined(p, s, cnt0, rem0);
    MatchPlaces(p, s, cnt0, rem0);
    MatchConserves(p, s, cnt0, rem0);
    var t := Match(p, s);
    hide Match, SumActive, Count, DistinctIn;
    forall j | 0 <= j < |t.cnt| ensures Stands(p, t, cnt0, j) {
      MatchStands(p, s, cnt0, rem0, j);
    }
  }

  lemma MatchConserves(p: Plan, s: State, cnt0: seq<nat>, rem0: nat)
    requires Inv(p, s, cnt0, rem0) && s.pos != [] && s.neg != []
    ensures CanMatch(p, s) && Shaped(p, Match(p, s))
    ensures SumActive(Match(p, s).cnt, p.active) == SumActive(s.cnt, p.active)
    ensures Count(Match(p, s).bonus, true) + Match(p, s).rem == Count(s.bonus, true) + s.rem
  {
    hide Inv, Stands, DistinctIn, SumActive, Count, ToTransfer;
    MatchIsDefined(p, s, cnt0, rem0);
    NoBonusYet(p, s, cnt0, rem0);
    CountSet(s.bonus, Top(s.pos), Match(p, s).bonus[Top(s.pos)]);
    SumOfTwo(s.cnt, p.active, Top(s.pos), Top(s.neg), ToTransfer(p, s));
  }

  lemma SumOfTwo(cnt: seq<nat>, active: seq<bool>, a: nat, b: nat, n: nat)
    requires |cnt| == |active| && a < |cnt| && b < |cnt| && a != b && active[a] && active[b] && n <= cnt[a]
    ensures SumActive(cnt[a := cnt[a] - n][b := cnt[b] + n], active) == SumActive(cnt, active)
  {
    SumActiveUpdate(cnt, active, a, cnt[a] - n);
    SumActiveUpdate(cnt[a := cnt[a] - n], active, b, cnt[b] + n);
  }

  /** A match brings the surplus list down, not below its target, and the deficit list up, not above its own,
      and one of the two arrives there; no other list changes. */
  lemma MatchApproachesTargets(p: Plan, s: State, cnt0: seq<nat>, rem0: nat)
    requires Inv(p, s, cnt0, rem0) && s.pos != [] && s.neg != []
    ensures CanMatch(p, s)
    ensures var t, a, b := Match(p, s), Top(s.pos), Top(s.neg);
      && p.tgt[a] + B(s.rem > 0) <= t.cnt[a] < s.cnt[a] && s.cnt[b] < t.cnt[b] <= p.tgt[b]
      && (t.cnt[a] == p.tgt[a] + B(s.rem > 0) || t.cnt[b] == p.tgt[b])
      && t.cnt[a] + t.cnt[b] == s.cnt[a] + s.cnt[b]
      && forall i :: 0 <= i < |s.cnt| && i != a && i != b ==> t.cnt[i] == s.cnt[i]
  {
    MatchIsDefined(p, s, cnt0, rem0);
    assert Stands(p, s, cnt0, Top(s.pos)) && Stands(p, s, cnt0, Top(s.neg));
  }

  lemma NoBonusYet(p: Plan, s: State, cnt0: seq<nat>, rem0: nat)
    requires Inv(p, s, cnt0, rem0) && s.pos != []
    ensures Top(s.pos) < |s.bonus| && !s.bonus[Top(s.pos)]
  {
    assert Stands(p, s, cnt0, Top(s.pos));
  }

  lemma Popped(stack: seq<nat>, n: nat)
    requires stack != [] && DistinctIn(stack, n)
    ensures DistinctIn(stack[..|stack| - 1], n)
    ensures forall i :: i in stack[..|stack| - 1] <==> i in stack && i != Top(stack)
  {
    var rest := stack[..|stack| - 1];
    forall i | i in stack && i != Top(stack) ensures i in rest {
      var k :| 0 <= k < |stack| && stack[k] == i;
      assert rest[k] == i;
    }
  }

  // ----- Where it ends -----

  /** A stack of distinct active lists has no more entries than there are active lists. */
  lemma {:induction false} StackFits(stack: seq<nat>, active: seq<bool>)
    requires DistinctIn(stack, |active|) && forall k :: 0 <= k < |stack| ==> active[stack[k]]
    ensures |stack| <= Count(active, true)
  {
    if stack != [] {
      var i := Top(stack);
      assert active[i := false][i := true] == active;
      CountUpdate(active[i := false], i, true);
      StackFits(stack[..|stack| - 1], active[i := false]);
    }
  }

  /** A list about to be classified finds room on either stack. */
  lemma StacksHaveRoom(p: Plan, s: State, i: nat, cnt0: seq<nat>, rem0: nat)
    requires Inv(p, s, cnt0, rem0) && i < |s.cnt| && p.active[i] && !s.seen[i]
    ensures |s.pos| < Count(p.active, true) && |s.neg| < Count(p.active, true)
  {
    assert Stands(p, s, cnt0, i);
    forall k | 0 <= k < |s.pos| ensures p.active[s.pos[k]] { assert Stands(p, s, cnt0, s.pos[k]); }
    forall k | 0 <= k < |s.neg| ensures p.active[s.neg[k]] { assert Stands(p, s, cnt0, s.neg[k]); }
    StackFits(s.pos + [i], p.active);
    StackFits(s.neg + [i], p.active);
  }

  lemma {:induction false} SumBound(cnt: seq<nat>, tgt: seq<nat>, active: seq<bool>, bonus: seq<bool>)
    requires |cnt| == |tgt| == |active| == |bonus|
    requires forall i :: 0 <= i < |cnt| && active[i] ==> cnt[i] <= tgt[i] + B(bonus[i])
    ensures SumActive(cnt, active) <= SumActive(tgt, active) + Count(bonus, true)
    ensures (exists i :: 0 <= i < |cnt| && active[i] && cnt[i] < tgt[i]) ==>
      SumActive(cnt, active) < SumActive(tgt, active) + Count(bonus, true)
  {
    if cnt != [] {
      var n := |cnt| - 1;
      SumBound(cnt[..n], tgt[..n], active[..n], bonus[..n]);
      if i :| 0 <= i < |cnt| && active[i] && cnt[i] < tgt[i] {
        assert i < n ==> active[..n][i] && cnt[..n][i] < tgt[..n][i];
      }
    }
  }

  /** When every list has been looked at and one stack is empty, no list is short, provided that the
      targets ask for no more than the nodes there are without the remainder. */
  lemma NoneShort(p: Plan, s: State, cnt0: seq<nat>, rem0: nat)
    requires Inv(p, s, cnt0, rem0) && (s.pos == [] || s.neg == [])
    requires forall i :: 0 <= i < |s.cnt| && p.active[i] ==> s.seen[i]
    requires SumActive(p.tgt, p.active) + rem0 <= SumActive(cnt0, p.active)
    ensures s.neg == []
  {
    if s.neg != [] {
      forall i | 0 <= i < |s.cnt| && p.active[i] ensures s.cnt[i] <= p.tgt[i] + B(s.bonus[i]) {
        assert Stands(p, s, cnt0, i);
      }
      assert Stands(p, s, cnt0, Top(s.neg));
      SumBound(s.cnt, p.tgt, p.active, s.bonus);
    }
  }

  /** The lists that end one node above their target without being left on the surplus stack. */
  function Above(p: Plan, s: State): (r: seq<bool>)
    requires Shaped(p, s)
    ensures |r| == |s.cnt|
  {
    seq(|s.cnt|, i requires 0 <= i < |s.cnt| => p.active[i] && i !in s.pos && s.cnt[i] == p.tgt[i] + 1)
  }

  /** What balancing does to list i, whatever the stacks held: a list that was short or at its target ends
      exactly there, any other ends no lower than its target and no higher than it was. */
  predicate Settled(p: Plan, cnt: seq<nat>, cnt0: seq<nat>, i: nat)
    requires |p.tgt| == |p.active| == |cnt| == |cnt0| && i < |cnt|
  {
    if !p.active[i] then cnt[i] == cnt0[i]
    else if cnt0[i] <= p.tgt[i] then cnt[i] == p.tgt[i]
    else p.tgt[i] <= cnt[i] <= cnt0[i]
  }

  /** What a finished balancing run has achieved. s.pos is the surplus stack that it leaves behind, and s.rem what
      it leaves of the remainder: while there is some, a list on that stack is more than one above its target. */
  predicate Balanced(p: Plan, s: State, cnt0: seq<nat>, rem0: nat) {
    && Shaped(p, s) && |cnt0| == |s.cnt|
    && (forall i :: 0 <= i < |s.cnt| ==> Settled(p, s.cnt, cnt0, i))
    && (forall i :: 0 <= i < |s.cnt| && p.active[i] ==>
          if i in s.pos then s.cnt[i] > p.tgt[i] + B(s.rem > 0) else s.cnt[i] <= p.tgt[i] + 1)
    && Spent(Count(Above(p, s), true), s.rem, rem0)
    && SumActive(s.cnt, p.active) == SumActive(cnt0, p.active)
  }

  lemma EndsBalanced(p: Plan, s: State, cnt0: seq<nat>, rem0: nat)
    requires Inv(p, s, cnt0, rem0) && (s.pos == [] || s.neg == [])
    requires forall i :: 0 <= i < |s.cnt| && p.active[i] ==> s.seen[i]
    requires SumActive(p.tgt, p.active) + rem0 <= SumActive(cnt0, p.active)
    ensures Balanced(p, s, cnt0, rem0) && s.neg == []
  {
    NoneShort(p, s, cnt0, rem0);
    forall i | 0 <= i < |s.cnt|
      ensures Settled(p, s.cnt, cnt0, i)
      ensures p.active[i] && i in s.pos ==> s.cnt[i] > p.tgt[i] + B(s.rem > 0)
      ensures p.active[i] && i !in s.pos ==> s.cnt[i] == p.tgt[i] + B(s.bonus[i])
      ensures Above(p, s)[i] == s.bonus[i]
    {
      assert Stands(p, s, cnt0, i);
    }
    assert Above(p, s) == s.bonus;
  }

  // ----- Targets from run times: lines 180-203 and 223 -----

  function RealSum(f: seq<real>, active: seq<bool>): real
    requires |f| == |active|
  {
    if f == [] then 0.0
    else RealSum(f[..|f| - 1], active[..|f| - 1]) + if active[|f| - 1] then f[|f| - 1] else 0.0
  }

  function AllActive(n: nat): seq<bool> { seq(n, _ => true) }

  /** The share of a list that took t of the total time, among n lists. */
  function RelativeSpeed(t: real, total: real, n: nat): real
    requires total > 0.0 && n > 0
  {
    (n as real + 1.0) / n as real - t / total
  }

  /** The conversion to size_t truncates. */
  function Target(speed: real, avg: nat): nat
    requires speed >= 0.0
  {
    Product(speed, avg).Floor
  }

  function Product(speed: real, avg: nat): (r: real)
    ensures speed >= 0.0 ==> r >= 0.0
  {
    speed * avg as real
  }

  predicate Timed(times: seq<real>, active: seq<bool>) {
    && |times| == |active| && Count(active, true) > 0
    && (forall i :: 0 <= i < |times| ==> times[i] >= 0.0)
    && RealSum(times, AllActive(|times|)) > 0.0
  }

  function TotalTime(times: seq<real>): real { RealSum(times, AllActive(|times|)) }

  function Speeds(times: seq<real>, active: seq<bool>): (r: seq<real>)
    requires Timed(times, active)
    ensures |r| == |times|
  {
    seq(|times|, i requires 0 <= i < |times| => RelativeSpeed(times[i], TotalTime(times), Count(active, true)))
  }

  lemma {:induction false} TimeBelowTotal(times: seq<real>, i: nat)
    requires forall j :: 0 <= j < |times| ==> times[j] >= 0.0
    ensures TotalTime(times) >= 0.0 && (i < |times| ==> times[i] <= TotalTime(times))
  {
    if times != [] {
      var n := |times| - 1;
      assert AllActive(|times|)[..n] == AllActive(n);
      TimeBelowTotal(times[..n], i);
      TimeBelowTotal(times[..n], 0);
    }
  }

  lemma PartOfWhole(t: real, total: real)
    requires t <= total && total > 0.0
    ensures t / total <= 1.0
  {
    assert t / total * total == t;
  }

  lemma OneOver(n: real)
    requires n > 0.0
    ensures (n + 1.0) / n - 1.0 == 1.0 / n > 0.0
  {}

  /** Every list gets a share of at least 1/numLists. */
  lemma SpeedIsPositive(times: seq<real>, active: seq<bool>, i: nat)
    requires Timed(times, active) && i < |times|
    ensures Speeds(times, active)[i] >= 1.0 / Count(active, true) as real > 0.0
  {
    hide RealSum, Count;
    TimeBelowTotal(times, i);
    PartOfWhole(times[i], TotalTime(times));
    OneOver(Count(active, true) as real);
  }

  /** What k lists get together that took time f: each gets c less its part of the total time. */
  function Shares(c: real, k: real, f: real, total: real): real
    requires total > 0.0
  {
    c * k - f / total
  }

  lemma DivideSum(a: real, b: real, t: real)
    requires t > 0.0
    ensures (a + b) / t == a / t + b / t
  {}

  lemma OneMoreShare(c: real, k: real, a: real, b: real, total: real)
    requires total > 0.0
    ensures Shares(c, k, a, total) + (c - b / total) == Shares(c, k + 1.0, a + b, total)
  {
    DivideSum(a, b, total);
  }

  lemma AllShares(n: real, f: real, total: real)
    requires n > 0.0 && total > 0.0
    ensures Shares((n + 1.0) / n, n, f, total) == n <==> f == total
  {
    assert (n + 1.0) / n * n == n + 1.0;
    assert f / total * total == f;
  }

  lemma {:induction false} SumOfShares(f: seq<real>, g: seq<real>, active: seq<bool>, c: real, total: real)
    requires |f| == |g| == |active| && total > 0.0
    requires forall i :: 0 <= i < |f| ==> g[i] == c - f[i] / total
    ensures RealSum(g, active) == Shares(c, Count(active, true) as real, RealSum(f, active), total)
  {
    if f != [] {
      hide Shares;
      var n := |f| - 1;
      SumOfShares(f[..n], g[..n], active[..n], c, total);
      OneMoreShare(c, Count(active[..n], true) as real, RealSum(f[..n], active[..n]), f[n], total);
    }
  }

  /** The shares of the active lists sum to numLists exactly when the other lists took no time. */
  lemma SpeedsSum(times: seq<real>, active: seq<bool>)
    requires Timed(times, active)
    ensures RealSum(Speeds(times, active), active) == Count(active, true) as real
      <==> RealSum(times, active) == TotalTime(times)
  {
    var n := Count(active, true) as real;
    SumOfShares(times, Speeds(times, active), active, (n + 1.0) / n, TotalTime(times));
    hide Shares, RealSum, Count;
    AllShares(n, RealSum(times, active), TotalTime(times));
  }

  function Targets(times: seq<real>, active: seq<bool>, avg: nat): (r: seq<nat>)
    requires Timed(times, active)
    ensures |r| == |times|
  {
    seq(|times|, i requires 0 <= i < |times| =>
      SpeedIsPositive(times, active, i);
      Target(Speeds(times, active)[i], avg))
  }

  lemma Distribute(a: real, b: real, avg: nat)
    ensures Product(a + b, avg) == Product(a, avg) + Product(b, avg)
  {}

  lemma RealProduct(n: nat, avg: nat)
    ensures Product(n as real, avg) == (n * avg) as real
  {}

  lemma {:induction false} FloorsSum(f: seq<real>, tgt: seq<nat>, active: seq<bool>, avg: nat)
    requires |f| == |tgt| == |active| && forall i :: 0 <= i < |f| ==> tgt[i] as real <= Product(f[i], avg)
    ensures SumActive(tgt, active) as real <= Product(RealSum(f, active), avg)
  {
    hide Product;
    if f != [] {
      var n := |f| - 1;
      FloorsSum(f[..n], tgt[..n], active[..n], avg);
      Distribute(RealSum(f[..n], active[..n]), f[n], avg);
    }
  }

  /** The floored targets ask for no more than numLists times the average. */
  lemma TargetsFit(times: seq<real>, active: seq<bool>, avg: nat)
    requires Timed(times, active) && RealSum(times, active) == TotalTime(times)
    ensures SumActive(Targets(times, active, avg), active) <= Count(active, true) * avg
  {
    hide Product, Speeds, Targets, RealSum, SumActive, Count;
    SpeedsSum(times, active);
    forall i | 0 <= i < |times|
      ensures Targets(times, active, avg)[i] as real <= Product(Speeds(times, active)[i], avg)
    {
      TargetBelow(times, active, avg, i);
    }
    FloorsSum(Speeds(times, active), Targets(times, active, avg), active, avg);
    RealProduct(Count(active, true), avg);
  }

  lemma TargetBelow(times: seq<real>, active: seq<bool>, avg: nat, i: nat)
    requires Timed(times, active) && i < |times|
    ensures Targets(times, active, avg)[i] as real <= Product(Speeds(times, active)[i], avg)
  {
    hide Product, RelativeSpeed, RealSum, Speeds;
    SpeedIsPositive(times, active, i);
  }

  // ----- What the targets are -----

  /** The part of avg that a list gets which took t of the total time, among n lists. */
  function Share(t: real, total: real, n: nat, avg: nat): real
    requires total > 0.0 && n > 0
  {
    ((n as real + 1.0) / n as real - t / total) * avg as real
  }

  /** A target is the whole number of nodes in the list's share of the average. */
  lemma TargetIsShare(times: seq<real>, active: seq<bool>, avg: nat, i: nat)
    requires Timed(times, active) && i < |times|
    ensures var t, n := Targets(times, active, avg)[i] as real, Count(active, true) as real;
      t <= ((n + 1.0) / n - times[i] / TotalTime(times)) * avg as real < t + 1.0
  {
    hide RealSum, Count;
    SpeedIsPositive(times, active, i);
  }

  lemma TargetInShare(times: seq<real>, active: seq<bool>, avg: nat, i: nat)
    requires Timed(times, active) && i < |times|
    ensures var t := Targets(times, active, avg)[i] as real;
      t <= Share(times[i], TotalTime(times), Count(active, true), avg) < t + 1.0
  {
    hide RealSum, Count, Targets;
    TargetIsShare(times, active, avg, i);
  }

  lemma ShareFalls(t: real, u: real, total: real, n: nat, avg: nat)
    requires total > 0.0 && n > 0 && t <= u
    ensures Share(t, total, n, avg) >= Share(u, total, n, avg)
  {
    DivideSum(t, u - t, total);
    assert (u - t) / total >= 0.0;
    assert (u - t) / total * avg as real >= 0.0;
  }

  /** A list that took no more time than another gets at least as many nodes. */
  lemma LessTimeMoreNodes(times: seq<real>, active: seq<bool>, avg: nat, i: nat, j: nat)
    requires Timed(times, active) && i < |times| && j < |times| && times[i] <= times[j]
    ensures Targets(times, active, avg)[i] >= Targets(times, active, avg)[j]
  {
    hide Targets, RealSum, Count, Share;
    TargetInShare(times, active, avg, i);
    TargetInShare(times, active, avg, j);
    ShareFalls(times[i], times[j], TotalTime(times), Count(active, true), avg);
  }

  predicate EqualTimes(times: seq<real>, active: seq<bool>)
    requires |times| == |active|
  {
    forall i, j :: 0 <= i < |times| && 0 <= j < |times| && active[i] && active[j] ==> times[i] == times[j]
  }

  lemma {:induction false} SumOfEqual(f: seq<real>, active: seq<bool>, t: real)
    requires |f| == |active| && forall i :: 0 <= i < |f| && active[i] ==> f[i] == t
    ensures RealSum(f, active) == Count(active, true) as real * t
  {
    if f != [] { SumOfEqual(f[..|f| - 1], active[..|f| - 1], t); }
  }

  lemma EqualShare(t: real, n: nat, avg: nat)
    requires n > 0 && n as real * t > 0.0
    ensures Share(t, n as real * t, n, avg) == avg as real
  {
    var r := n as real;
    assert t / (r * t) == 1.0 / r;
    assert (r + 1.0) / r - 1.0 / r == 1.0;
  }

  /** Lists that took equally long get the average. */
  lemma EqualTimesEqualTargets(times: seq<real>, active: seq<bool>, avg: nat, i: nat)
    requires Timed(times, active) && RealSum(times, active) == TotalTime(times) && EqualTimes(times, active)
    requires i < |times| && active[i]
    ensures Targets(times, active, avg)[i] == avg
  {
    hide Targets, RealSum, Count, Share;
    SumOfEqual(times, active, times[i]);
    TargetInShare(times, active, avg, i);
    EqualShare(times[i], Count(active, true), avg);
  }

  lemma {:induction false} FloorsCover(f: seq<real>, tgt: seq<nat>, active: seq<bool>, avg: nat)
    requires |f| == |tgt| == |active| && forall i :: 0 <= i < |f| ==> Product(f[i], avg) < tgt[i] as real + 1.0
    ensures Product(RealSum(f, active), avg) <= (SumActive(tgt, active) + Count(active, true)) as real
    ensures Count(active, true) > 0 ==>
      Product(RealSum(f, active), avg) < (SumActive(tgt, active) + Count(active, true)) as real
  {
    hide Product;
    if f != [] {
      var n := |f| - 1;
      FloorsCover(f[..n], tgt[..n], active[..n], avg);
      Distribute(RealSum(f[..n], active[..n]), f[n], avg);
    } else {
      RealProduct(0, avg);
    }
  }

  /** Rounding loses less than a node per list. */
  lemma TargetsCover(times: seq<real>, active: seq<bool>, avg: nat)
    requires Timed(times, active) && RealSum(times, active) == TotalTime(times)
    ensures SumActive(Targets(times, active, avg), active) > Count(active, true) * avg - Count(active, true)
  {
    hide Product, Speeds, Targets, RealSum, SumActive, Count;
    SpeedsSum(times, active);
    forall i | 0 <= i < |times|
      ensures Product(Speeds(times, active)[i], avg) < Targets(times, active, avg)[i] as real + 1.0
    {
      TargetAbove(times, active, avg, i);
    }
    FloorsCover(Speeds(times, active), Targets(times, active, avg), active, avg);
    RealProduct(Count(active, true), avg);
  }

  lemma TargetAbove(times: seq<real>, active: seq<bool>, avg: nat, i: nat)
    requires Timed(times, active) && i < |times|
    ensures Product(Speeds(times, active)[i], avg) < Targets(times, active, avg)[i] as real + 1.0
  {
    hide Product, RelativeSpeed, RealSum, Speeds;
    SpeedIsPositive(times, active, i);
  }

  // ----- What balancing achieves, from run times and node counts alone -----

  function Average(active: seq<bool>, cnt0: seq<nat>): nat
    requires |cnt0| == |active| && Count(active, true) > 0
  {
    SumActive(cnt0, active) / Count(active, true)
  }

  function Remainder(active: seq<bool>, cnt0: seq<nat>): nat
    requires |cnt0| == |active| && Count(active, true) > 0
  {
    SumActive(cnt0, active) % Count(active, true)
  }

  /** With share the list's part of the average: a list that had no more nodes than that ends with the whole
      number of them, any other with no fewer, no more than before, and with fewer than twice the number of
      lists to spare. */
  predicate Served(times: seq<real>, active: seq<bool>, cnt0: seq<nat>, cnt: seq<nat>, i: nat)
    requires Timed(times, active) && |times| == |cnt0| == |cnt| && i < |times|
  {
    var n, avg, rem := Count(active, true), Average(active, cnt0), Remainder(active, cnt0);
    var share := ((n as real + 1.0) / n as real - times[i] / TotalTime(times)) * avg as real;
    if cnt0[i] as real <= share then share - 1.0 < cnt[i] as real <= share
    else share - 1.0 < cnt[i] as real < share + (n + rem) as real && cnt[i] <= cnt0[i]
  }

  lemma {:induction false} OneExceeds(cnt: seq<nat>, tgt: seq<nat>, active: seq<bool>, i: nat)
    requires |cnt| == |tgt| == |active| && i < |cnt| && active[i]
    requires forall j :: 0 <= j < |cnt| && active[j] ==> tgt[j] <= cnt[j]
    ensures cnt[i] as int - tgt[i] <= SumActive(cnt, active) - SumActive(tgt, active)
  {
    var n := |cnt| - 1;
    if i < n {
      OneExceeds(cnt[..n], tgt[..n], active[..n], i);
    } else {
      SumAtLeast(cnt[..n], tgt[..n], active[..n]);
    }
  }

  lemma {:induction false} SumAtLeast(cnt: seq<nat>, tgt: seq<nat>, active: seq<bool>)
    requires |cnt| == |tgt| == |active|
    requires forall j :: 0 <= j < |cnt| && active[j] ==> tgt[j] <= cnt[j]
    ensures SumActive(tgt, active) <= SumActive(cnt, active)
  {
    if cnt != [] { SumAtLeast(cnt[..|cnt| - 1], tgt[..|tgt| - 1], active[..|active| - 1]); }
  }

  lemma NoneExceeds(p: Plan, s: State, cnt0: seq<nat>, rem0: nat, i: nat)
    requires Balanced(p, s, cnt0, rem0) && i < |s.cnt| && p.active[i]
    ensures p.tgt[i] <= s.cnt[i] <= p.tgt[i] + SumActive(cnt0, p.active) - SumActive(p.tgt, p.active)
    ensures if cnt0[i] <= p.tgt[i] then s.cnt[i] == p.tgt[i] else s.cnt[i] <= cnt0[i]
  {
    hide SumActive, Count, Above;
    forall j | 0 <= j < |s.cnt| && p.active[j] ensures p.tgt[j] <= s.cnt[j] {
      assert Settled(p, s.cnt, cnt0, j);
    }
    assert Settled(p, s.cnt, cnt0, i);
    OneExceeds(s.cnt, p.tgt, p.active, i);
  }

  lemma AverageOf(active: seq<bool>, cnt0: seq<nat>)
    requires |cnt0| == |active| && Count(active, true) > 0
    ensures SumActive(cnt0, active) == Count(active, true) * Average(active, cnt0) + Remainder(active, cnt0)
  {
    hide SumActive, Count;
    DivMod(SumActive(cnt0, active), Count(active, true));
  }

  lemma DivMod(a: nat, n: nat)
    requires n > 0
    ensures a == n * (a / n) + a % n
  {}

  /** The plan that the source makes for these run times and node counts. */
  predicate Made(p: Plan, times: seq<real>, cnt0: seq<nat>) {
    && Timed(times, p.active) && RealSum(times, p.active) == TotalTime(times) && |cnt0| == |times|
    && p.tgt == Targets(times, p.active, Average(p.active, cnt0))
  }

  lemma MadeCovers(p: Plan, times: seq<real>, cnt0: seq<nat>)
    requires Made(p, times, cnt0)
    ensures SumActive(cnt0, p.active) - SumActive(p.tgt, p.active) < Count(p.active, true) + Remainder(p.active, cnt0)
  {
    hide Targets, RealSum, SumActive, Count, Average, Remainder;
    TargetsCover(times, p.active, Average(p.active, cnt0));
    AverageOf(p.active, cnt0);
  }

  /** So ends every active list. */
  lemma EndsServed(p: Plan, s: State, times: seq<real>, cnt0: seq<nat>, i: nat)
    requires Made(p, times, cnt0) && Balanced(p, s, cnt0, Remainder(p.active, cnt0)) && i < |times| && p.active[i]
    ensures Served(times, p.active, cnt0, s.cnt, i)
  {
    hide Targets, RealSum, SumActive, Count, Average, Remainder, Above, Settled, Share;
    NoneExceeds(p, s, cnt0, Remainder(p.active, cnt0), i);
    MadeCovers(p, times, cnt0);
    TargetInShare(times, p.active, Average(p.active, cnt0), i);
    hide Balanced;
    InShare(times[i], TotalTime(times), Count(p.active, true), Average(p.active, cnt0), Remainder(p.active, cnt0),
            p.tgt[i], cnt0[i], s.cnt[i]);
    IsShare(times, p.active, cnt0, i);
  }

  lemma IsShare(times: seq<real>, active: seq<bool>, cnt0: seq<nat>, i: nat)
    requires Timed(times, active) && |cnt0| == |times| && i < |times|
    ensures var n, avg := Count(active, true), Average(active, cnt0);
      Share(times[i], TotalTime(times), n, avg)
        == ((n as real + 1.0) / n as real - times[i] / TotalTime(times)) * avg as real
  {}

  lemma InShare(t: real, total: real, n: nat, avg: nat, rem: nat, tgt: nat, c0: nat, c: nat)
    requires total > 0.0 && n > 0 && tgt <= c < tgt + n + rem && if c0 <= tgt then c == tgt else c <= c0
    requires tgt as real <= Share(t, total, n, avg) < tgt as real + 1.0
    ensures var share := Share(t, total, n, avg);
      if c0 as real <= share then share - 1.0 < c as real <= share
      else share - 1.0 < c as real < share + (n + rem) as real && c <= c0
  {
    hide Share;
  }

  predicate Evened(active: seq<bool>, cnt0: seq<nat>, cnt: seq<nat>, i: nat)
    requires |active| == |cnt0| == |cnt| && i < |cnt| && Count(active, true) > 0
  {
    var avg, rem := Average(active, cnt0), Remainder(active, cnt0);
    avg <= cnt[i] <= avg + rem && (cnt0[i] <= avg ==> cnt[i] == avg)
  }

  /** After equal times no active list has fewer nodes than the average, none has more than the remainder above
      it, and those that had no more than the average have exactly that. */
  lemma EndsEven(p: Plan, s: State, times: seq<real>, cnt0: seq<nat>, i: nat)
    requires Made(p, times, cnt0) && Balanced(p, s, cnt0, Remainder(p.active, cnt0)) && i < |times| && p.active[i]
    requires EqualTimes(times, p.active)
    ensures Evened(p.active, cnt0, s.cnt, i)
  {
    hide Targets, RealSum, SumActive, Count, Average, Remainder, Above, Settled;
    var avg := Average(p.active, cnt0);
    forall j | 0 <= j < |times| && p.active[j] ensures p.tgt[j] == avg {
      EqualTimesEqualTargets(times, p.active, avg, j);
    }
    SumOfSame(p.tgt, p.active, avg);
    NoneExceeds(p, s, cnt0, Remainder(p.active, cnt0), i);
    AverageOf(p.active, cnt0);
  }

  /** All of them together. */
  lemma EndsFair(p: Plan, s: State, times: seq<real>, cnt0: seq<nat>)
    requires Made(p, times, cnt0) && Balanced(p, s, cnt0, Remainder(p.active, cnt0))
    ensures forall i :: 0 <= i < |times| && p.active[i] ==> Served(times, p.active, cnt0, s.cnt, i)
    ensures EqualTimes(times, p.active) ==>
      forall i :: 0 <= i < |times| && p.active[i] ==> Evened(p.active, cnt0, s.cnt, i)
  {
    hide Served, Evened, EqualTimes, Settled, Above, RealSum, SumActive, Count, Targets, Average, Remainder;
    forall i | 0 <= i < |times| && p.active[i]
      ensures Served(times, p.active, cnt0, s.cnt, i)
      ensures EqualTimes(times, p.active) ==> Evened(p.active, cnt0, s.cnt, i)
    {
      EndsServed(p, s, times, cnt0, i);
      if EqualTimes(times, p.active) { EndsEven(p, s, times, cnt0, i); }
    }
  }

  lemma {:induction false} SumOfSame(f: seq<nat>, active: seq<bool>, x: nat)
    requires |f| == |active| && forall i :: 0 <= i < |f| && active[i] ==> f[i] == x
    ensures SumActive(f, active) == Count(active, true) * x
  {
    if f != [] { SumOfSame(f[..|f| - 1], active[..|f| - 1], x); }
  }

  /** lastNRunTime of every list, given all the run times it has recorded. */
  function LastRunTimes(histories: seq<seq<real>>): (r: seq<real>)
    ensures |r| == |histories|
  {
    seq(|histories|, i requires 0 <= i < |histories| => RunTimes.Recorded(histories[i]).lastN)
  }

  /** With every list active, whatever was recorded as long as some window is positive: every share is the
      window's, at least 1/numLists, and the shares sum to numLists. */
  lemma WindowsGiveShares(histories: seq<seq<real>>, k: nat)
    requires forall i, j :: 0 <= i < |histories| && 0 <= j < |histories[i]| ==> histories[i][j] >= 0.0
    requires k < |histories| && RunTimes.Sum(RunTimes.Window(histories[k])) > 0.0
    ensures var times, active := LastRunTimes(histories), AllActive(|histories|);
      && Timed(times, active) && Count(active, true) == |histories|
      && (forall i :: 0 <= i < |histories| ==> times[i] == RunTimes.Sum(RunTimes.Window(histories[i])))
      && (forall i :: 0 <= i < |histories| ==> Speeds(times, active)[i] >= 1.0 / |histories| as real)
      && RealSum(Speeds(times, active), active) == |histories| as real
  {
    var times, active := LastRunTimes(histories), AllActive(|histories|);
    CountExtremes(active, true);
    hide RunTimes.Window, RunTimes.Sum, RunTimes.Recorded, Speeds, Count;
    forall i | 0 <= i < |histories| ensures times[i] == RunTimes.Sum(RunTimes.Window(histories[i])) && times[i] >= 0.0 {
      RunTimes.LastNIsWindowSum(histories[i]);
      RunTimes.LastNNonNegative(histories[i]);
    }
    TimeBelowTotal(times, k);
    SpeedsSum(times, active);
    forall i | 0 <= i < |histories| ensures Speeds(times, active)[i] >= 1.0 / |histories| as real {
      SpeedIsPositive(times, active, i);
    }
  }
}
