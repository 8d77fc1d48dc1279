/** What a barrier promises: POSIX.1-2017, pthread_barrier_wait. Generation k of a barrier is everybody's
    k-th call. */
module BarrierSpec {
  import opened Bits

  /** How often each thread has arrived at the barrier and left it again. */
  datatype Uses = Uses(arrived: seq<nat>, left: seq<nat>)

  /** Who has arrived at least k times. */
  function Arrived(u: Uses, k: nat): (r: seq<bool>)
    ensures |r| == |u.arrived|
  {
    seq(|u.arrived|, t requires 0 <= t < |u.arrived| => u.arrived[t] >= k)
  }

  predicate MayArrive(u: Uses, t: nat) {
    t < |u.arrived| == |u.left| && u.left[t] == u.arrived[t]
  }

  function Arrive(u: Uses, t: nat): Uses
    requires MayArrive(u, t)
  {
    u.(arrived := u.arrived[t := u.arrived[t] + 1])
  }

  /** A thread leaves its k-th call only after trip threads have made theirs. */
  predicate MayLeave(u: Uses, trip: nat, t: nat) {
    && t < |u.arrived| == |u.left| && u.left[t] < u.arrived[t]
    && Count(Arrived(u, u.arrived[t]), true) >= trip
  }

  function Leave(u: Uses, t: nat): Uses
    requires t < |u.left|
  {
    u.(left := u.left[t := u.left[t] + 1])
  }

  /** One step of a barrier, or of nothing. */
  predicate Next(u: Uses, trip: nat, u': Uses) {
    || u' == u
    || (exists t :: 0 <= t < |u.arrived| && MayArrive(u, t) && u' == Arrive(u, t))
    || (exists t :: 0 <= t < |u.arrived| && MayLeave(u, trip, t) && u' == Leave(u, t))
  }
}

/** The hand-written barrier of include/internal/pthreadbarrier.h:19-68, one step for each access to what the
    threads share. */
module Barrier {
  import opened Bits
  import opened BarrierSpec

  /** Where a thread stands in pthread_barrier_wait. Asleep is inside pthread_cond_wait with the mutex
      released, Awake is there after the broadcast and before it has the mutex back. */
  datatype Pc =
    | Outside | Lock | Increment | Test
    | Reset | Broadcast | UnlockFirst
    | CondWait | Asleep | Awake | UnlockOther

  const NOBODY: int := -1

  /** mutex is its owner. The last three fields are history: how often each thread has arrived, what its
      calls returned, and who tripped each generation. */
  datatype State = State(pcs: seq<Pc>, mutex: int, count: int, tripCount: nat,
                         arrived: seq<nat>, results: seq<seq<int>>, trippers: seq<nat>)

  /** n threads and a barrier that pthread_barrier_init has set up for count of them. */
  function Init(n: nat, count: nat): State {
    State(seq(n, _ => Outside), NOBODY, 0, count, seq(n, _ => 0), seq(n, _ => []), [])
  }

  predicate Shaped(s: State) { |s.pcs| == |s.arrived| == |s.results| }

  predicate Enabled(s: State, t: nat) {
    && Shaped(s) && t < |s.pcs| && s.pcs[t] != Asleep
    && (s.pcs[t] == Lock || s.pcs[t] == Awake ==> s.mutex == NOBODY)
  }

  function Wake(pcs: seq<Pc>): (r: seq<Pc>)
    ensures |r| == |pcs|
  {
    seq(|pcs|, t requires 0 <= t < |pcs| => if pcs[t] == Asleep then Awake else pcs[t])
  }

  /** What thread t does next. */
  function Step(s: State, t: nat): State
    requires Enabled(s, t)
  {
    match s.pcs[t]
    case Outside => s.(pcs := s.pcs[t := Lock])
    case Lock => s.(pcs := s.pcs[t := Increment], mutex := t)
    case Increment => s.(pcs := s.pcs[t := Test], count := s.count + 1, arrived := s.arrived[t := s.arrived[t] + 1])
    case Test => s.(pcs := s.pcs[t := if s.count >= s.tripCount then Reset else CondWait])
    case Reset => s.(pcs := s.pcs[t := Broadcast], count := 0, trippers := s.trippers + [t])
    case Broadcast => s.(pcs := Wake(s.pcs)[t := UnlockFirst])
    case UnlockFirst => s.(pcs := s.pcs[t := Outside], mutex := NOBODY, results := s.results[t := s.results[t] + [1]])
    case CondWait => s.(pcs := s.pcs[t := Asleep], mutex := NOBODY)
    case Asleep => s
    case Awake => s.(pcs := s.pcs[t := UnlockOther], mutex := t)
    case UnlockOther => s.(pcs := s.pcs[t := Outside], mutex := NOBODY, results := s.results[t := s.results[t] + [0]])
  }

  // ----- The invariant -----

  predicate Holds(pc: Pc) {
    pc in {Increment, Test, Reset, Broadcast, UnlockFirst, CondWait, UnlockOther}
  }

  predicate Inside(pc: Pc) {
    pc !in {Outside, Lock, Increment}
  }

  /** The generation has been tripped but its sleepers have not been woken yet. */
  predicate Tripping(s: State) {
    0 <= s.mutex < |s.pcs| && s.pcs[s.mutex] == Broadcast
  }

  /** Thread t has arrived in the generation that has not tripped yet. */
  predicate Current(s: State, t: nat)
    requires t < |s.pcs|
  {
    s.pcs[t] in {Test, Reset, CondWait} || (s.pcs[t] == Asleep && !Tripping(s))
  }

  function Currents(s: State): (r: seq<bool>)
    ensures |r| == |s.pcs|
  {
    seq(|s.pcs|, t requires 0 <= t < |s.pcs| => Current(s, t))
  }

  predicate ThreadOk(s: State, t: nat)
    requires Shaped(s) && t < |s.pcs|
  {
    && (Holds(s.pcs[t]) <==> s.mutex == t)
    && s.arrived[t] == |s.trippers| + (if Current(s, t) then 1 else 0)
    && |s.results[t]| + (if Inside(s.pcs[t]) then 1 else 0) == s.arrived[t]
    && |s.results[t]| <= |s.trippers|
    && (forall k :: 0 <= k < |s.results[t]| ==> s.results[t][k] == if s.trippers[k] == t then 1 else 0)
    && (s.pcs[t] in {Broadcast, UnlockFirst} ==> s.trippers[|s.trippers| - 1] == t)
    && (s.pcs[t] in {Awake, UnlockOther} || (s.pcs[t] == Asleep && Tripping(s)) ==> s.trippers[|s.trippers| - 1] != t)
    && (s.pcs[t] == Reset ==> s.count >= s.tripCount)
  }

  predicate Inv(s: State) {
    && Shaped(s) && 0 < |s.pcs| <= s.tripCount
    && NOBODY <= s.mutex < |s.pcs|
    && (forall t :: 0 <= t < |s.pcs| ==> ThreadOk(s, t))
    && s.count == Count(Currents(s), true)
    && (s.count >= s.tripCount ==> s.mutex != NOBODY && s.pcs[s.mutex] in {Test, Reset})
    && (s.trippers != [] ==> |s.pcs| == s.tripCount)
    && (forall k :: 0 <= k < |s.trippers| ==> s.trippers[k] < |s.pcs|)
  }

  lemma InitInv(n: nat, count: nat)
    requires 0 < n <= count
    ensures Inv(Init(n, count))
  {
    CountExtremes(Currents(Init(n, count)), true);
  }

  lemma SameCurrents(s: State, s': State)
    requires |s.pcs| == |s'.pcs| && forall u :: 0 <= u < |s.pcs| ==> Current(s', u) == Current(s, u)
    ensures Currents(s') == Currents(s)
  {}

  /** A step that changes nobody's arrival, seen by thread u. */
  lemma QuietThread(s: State, t: nat, u: nat)
    requires Shaped(s) && NOBODY <= s.mutex < |s.pcs| && Enabled(s, t) && s.pcs[t] !in {Increment, Reset} && u < |s.pcs|
    requires ThreadOk(s, t) && ThreadOk(s, u) && (s.mutex != NOBODY ==> ThreadOk(s, s.mutex))
    ensures Current(Step(s, t), u) == Current(s, u) && ThreadOk(Step(s, t), u)
  {
    match s.pcs[t]
    case Outside =>
    case Lock => AcquireThread(s, t, u);
    case Test =>
    case Broadcast => BroadcastThread(s, t, u);
    case UnlockFirst => ReleaseThread(s, t, u);
    case CondWait => ReleaseThread(s, t, u);
    case Awake => AcquireThread(s, t, u);
    case UnlockOther => ReleaseThread(s, t, u);
  }

  /** Taking the mutex. */
  lemma AcquireThread(s: State, t: nat, u: nat)
    requires Shaped(s) && Enabled(s, t) && s.pcs[t] in {Lock, Awake} && u < |s.pcs| && ThreadOk(s, t) && ThreadOk(s, u)
    ensures Current(Step(s, t), u) == Current(s, u) && ThreadOk(Step(s, t), u)
  {}

  /** Giving it back. */
  lemma ReleaseThread(s: State, t: nat, u: nat)
    requires Shaped(s) && Enabled(s, t) && s.pcs[t] in {UnlockFirst, CondWait, UnlockOther} && u < |s.pcs|
    requires ThreadOk(s, t) && ThreadOk(s, u)
    ensures Current(Step(s, t), u) == Current(s, u) && ThreadOk(Step(s, t), u)
  {}

  /** The broadcast itself. */
  lemma BroadcastThread(s: State, t: nat, u: nat)
    requires Shaped(s) && Enabled(s, t) && s.pcs[t] == Broadcast && u < |s.pcs| && ThreadOk(s, t) && ThreadOk(s, u)
    ensures Current(Step(s, t), u) == Current(s, u) && ThreadOk(Step(s, t), u)
  {
    assert Step(s, t).pcs[u] == if u == t then UnlockFirst else if s.pcs[u] == Asleep then Awake else s.pcs[u];
  }

  lemma QuietStep(s: State, t: nat)
    requires Inv(s) && Enabled(s, t) && s.pcs[t] !in {Increment, Reset}
    ensures Inv(Step(s, t))
  {
    var s' := Step(s, t);
    hide ThreadOk, Current, Count;
    forall u | 0 <= u < |s.pcs| ensures Current(s', u) == Current(s, u) && ThreadOk(s', u) {
      QuietThread(s, t, u);
    }
    SameCurrents(s, s');
    MutexHeld(s, t);
  }

  lemma MutexHeld(s: State, t: nat)
    requires Inv(s) && t < |s.pcs|
    ensures Holds(s.pcs[t]) <==> s.mutex == t
  {
    assert ThreadOk(s, t);
  }

  lemma ArrivalThread(s: State, t: nat, u: nat)
    requires Shaped(s) && Enabled(s, t) && s.pcs[t] == Increment && u < |s.pcs| && ThreadOk(s, t) && ThreadOk(s, u)
    ensures ThreadOk(Step(s, t), u) && Current(Step(s, t), u) == (u == t || Current(s, u)) && !Current(s, t)
  {}

  lemma ArrivalStep(s: State, t: nat)
    requires Inv(s) && Enabled(s, t) && s.pcs[t] == Increment
    ensures Inv(Step(s, t))
  {
    MutexHeld(s, t);
    hide ThreadOk, Current, Count;
    var s' := Step(s, t);
    forall u | 0 <= u < |s.pcs|
      ensures ThreadOk(s', u) && Current(s', u) == (u == t || Current(s, u)) && !Current(s, t)
    {
      ArrivalThread(s, t, u);
    }
    assert Currents(s') == Currents(s)[t := true];
    CountUpdate(Currents(s), t, true);
  }

  /** The generation trips: everybody is in it, and everybody else is asleep. */
  lemma TripStep(s: State, t: nat)
    requires Inv(s) && Enabled(s, t) && s.pcs[t] == Reset
    ensures Inv(Step(s, t))
    ensures |s.pcs| == s.tripCount && forall u :: 0 <= u < |s.pcs| && u != t ==> s.pcs[u] == Asleep
  {
    var s' := Step(s, t);
    assert ThreadOk(s, t);
    CountExtremes(Currents(s), true);
    hide Count;
    forall u | 0 <= u < |s.pcs| ensures (u != t ==> s.pcs[u] == Asleep) && ThreadOk(s', u) && !Current(s', u) {
      assert ThreadOk(s, u) && Currents(s)[u];
      TripThread(s, t, u);
    }
    CountExtremes(Currents(s'), true);
  }

  lemma TripThread(s: State, t: nat, u: nat)
    requires Shaped(s) && Enabled(s, t) && s.pcs[t] == Reset && u < |s.pcs| && ThreadOk(s, t) && ThreadOk(s, u)
    requires Current(s, u)
    ensures (u != t ==> s.pcs[u] == Asleep) && ThreadOk(Step(s, t), u) && !Current(Step(s, t), u)
  {}

  lemma StepKeepsInv(s: State, t: nat)
    requires Inv(s) && Enabled(s, t)
    ensures Inv(Step(s, t))
  {
    if s.pcs[t] == Increment { ArrivalStep(s, t); }
    else if s.pcs[t] == Reset { TripStep(s, t); }
    else { QuietStep(s, t); }
  }

  // ----- Runs -----

  /** states is a run in which the threads take their steps in the order given. */
  predicate IsRun(n: nat, count: nat, order: seq<nat>, states: seq<State>) {
    && |states| == |order| + 1 && states[0] == Init(n, count)
    && forall j :: 0 <= j < |order| ==> Enabled(states[j], order[j]) && states[j + 1] == Step(states[j], order[j])
  }

  lemma {:induction false} RunsKeepInv(n: nat, count: nat, order: seq<nat>, states: seq<State>, j: nat)
    requires 0 < n <= count && IsRun(n, count, order, states) && j <= |order|
    ensures Inv(states[j])
  {
    hide Inv, Step, Enabled;
    if j == 0 {
      InitInv(n, count);
    } else {
      RunsKeepInv(n, count, order, states, j - 1);
      StepKeepsInv(states[j - 1], order[j - 1]);
      assert states[j] == Step(states[j - 1], order[j - 1]);
    }
  }

  /** count stays in [0, tripCount) whenever the mutex is free. */
  lemma CountBelowTrip(s: State)
    requires Inv(s) && s.mutex == NOBODY
    ensures 0 <= s.count < s.tripCount
  {}

  // ----- Refinement -----

  function UsesOf(s: State): (u: Uses)
    requires Shaped(s)
  {
    Uses(s.arrived, seq(|s.results|, t requires 0 <= t < |s.results| => |s.results[t]|))
  }

  /** Nobody has arrived less often than there have been generations. */
  lemma AllArrived(s: State, k: nat)
    requires Inv(s) && k <= |s.trippers|
    ensures Count(Arrived(UsesOf(s), k), true) == |s.pcs|
  {
    CountExtremes(Arrived(UsesOf(s), k), true);
    forall t | 0 <= t < |s.pcs| ensures s.arrived[t] >= k {
      assert ThreadOk(s, t);
    }
  }

  /** Every step of the implementation is a step of the barrier it is meant to be: in particular no thread
      leaves a generation before tripCount threads have arrived in it. */
  lemma StepRefines(s: State, t: nat)
    requires Inv(s) && Enabled(s, t)
    ensures Shaped(Step(s, t)) && BarrierSpec.Next(UsesOf(s), s.tripCount, UsesOf(Step(s, t)))
  {
    assert ThreadOk(s, t);
    var u, u' := UsesOf(s), UsesOf(Step(s, t));
    match s.pcs[t]
    case Increment =>
      assert MayArrive(u, t) && u' == Arrive(u, t);
    case UnlockFirst =>
      AllArrived(s, s.arrived[t]);
      assert MayLeave(u, s.tripCount, t) && u' == Leave(u, t);
    case UnlockOther =>
      AllArrived(s, s.arrived[t]);
      assert MayLeave(u, s.tripCount, t) && u' == Leave(u, t);
    case Asleep =>
    case _ =>
      assert u' == u;
  }

  /** Once a thread has returned from its k-th call, tripCount threads have made theirs. */
  lemma LeftMeansArrived(s: State, t: nat, k: nat)
    requires Inv(s) && t < |s.pcs| && 0 < k <= |s.results[t]|
    ensures Count(Arrived(UsesOf(s), k), true) == |s.pcs| == s.tripCount
  {
    assert ThreadOk(s, t);
    AllArrived(s, k);
  }

  /** Who has been told that its k-th call was the one that tripped the barrier. */
  function Firsts(s: State, k: nat): (r: seq<bool>)
    requires Shaped(s)
    ensures |r| == |s.pcs|
  {
    seq(|s.pcs|, t requires 0 <= t < |s.pcs| => k < |s.results[t]| && s.results[t][k] == 1)
  }

  /** In each generation everybody returns exactly one of 0 and 1, and exactly one thread returns 1. */
  lemma OneTripper(s: State, k: nat)
    requires Inv(s) && forall t :: 0 <= t < |s.pcs| ==> k < |s.results[t]|
    ensures forall t :: 0 <= t < |s.pcs| ==> s.results[t][k] in {0, 1}
    ensures Count(Firsts(s, k), true) == 1
  {
    forall t | 0 <= t < |s.pcs|
      ensures k < |s.trippers| && s.results[t][k] == if s.trippers[k] == t then 1 else 0
    {
      assert ThreadOk(s, t);
    }
    assert ThreadOk(s, 0);
    var none := seq(|s.pcs|, _ => false);
    CountExtremes(none, true);
    CountUpdate(none, s.trippers[k], true);
    assert Firsts(s, k) == none[s.trippers[k] := true];
  }

  // ----- Progress -----

  function Rank(pc: Pc): nat {
    match pc
    case Outside => 0
    case Lock => 9
    case Increment => 8
    case Test => 7
    case Reset => 6
    case Broadcast => 5
    case UnlockFirst => 4
    case CondWait => 6
    case Asleep => 5
    case Awake => 4
    case UnlockOther => 3
  }

  function Work(pcs: seq<Pc>): nat {
    if pcs == [] then 0 else Work(pcs[..|pcs| - 1]) + Rank(pcs[|pcs| - 1])
  }

  lemma {:induction false} WorkOfUpdate(pcs: seq<Pc>, t: nat, pc: Pc)
    requires t < |pcs|
    ensures Work(pcs[t := pc]) == Work(pcs) - Rank(pcs[t]) + Rank(pc)
  {
    var n := |pcs| - 1;
    if t == n {
      assert pcs[t := pc][..n] == pcs[..n];
    } else {
      assert pcs[t := pc][..n] == pcs[..n][t := pc];
      WorkOfUpdate(pcs[..n], t, pc);
    }
  }

  lemma {:induction false} WorkOfWake(pcs: seq<Pc>)
    ensures Work(Wake(pcs)) <= Work(pcs)
  {
    if pcs != [] {
      var n := |pcs| - 1;
      assert Wake(pcs)[..n] == Wake(pcs[..n]);
      WorkOfWake(pcs[..n]);
    }
  }

  /** A call makes only so many steps: each of them that is not the start of another call lessens the work. */
  lemma StepsAreBounded(s: State, t: nat)
    requires Enabled(s, t) && s.pcs[t] != Outside
    ensures Work(Step(s, t).pcs) < Work(s.pcs)
  {
    if s.pcs[t] == Broadcast {
      WorkOfWake(s.pcs);
      WorkOfUpdate(Wake(s.pcs), t, UnlockFirst);
    } else {
      WorkOfUpdate(s.pcs, t, Step(s, t).pcs[t]);
      assert Step(s, t).pcs == s.pcs[t := Step(s, t).pcs[t]];
    }
  }

  /** Nobody can move but by calling. */
  predicate Stuck(s: State) {
    forall t :: 0 <= t < |s.pcs| && Enabled(s, t) ==> s.pcs[t] == Outside
  }

  /** A sleeper is only ever waiting for a thread that has not made its call yet. */
  lemma SleepersWait(s: State, t: nat)
    requires Inv(s) && Stuck(s) && t < |s.pcs| && |s.pcs| == s.tripCount
    ensures s.pcs[t] in {Outside, Asleep}
    ensures s.pcs[t] == Asleep ==> exists u :: 0 <= u < |s.pcs| && s.pcs[u] == Outside && s.arrived[u] < s.arrived[t]
  {
    if s.mutex != NOBODY {
      assert ThreadOk(s, s.mutex) && Enabled(s, s.mutex);
    }
    forall u | 0 <= u < |s.pcs| ensures s.pcs[u] in {Outside, Asleep} {
      assert ThreadOk(s, u) && (Enabled(s, u) || s.pcs[u] in {Outside, Asleep});
    }
    if s.pcs[t] == Asleep {
      CountExtremes(Currents(s), true);
      var u :| 0 <= u < |s.pcs| && !Currents(s)[u];
      assert ThreadOk(s, u) && ThreadOk(s, t);
    }
  }

  // ----- Every run, by the number of threads and the count given to pthread_barrier_init -----

  lemma StepKeepsShape(s: State, t: nat)
    requires Enabled(s, t)
    ensures |Step(s, t).pcs| == |s.pcs| && Step(s, t).tripCount == s.tripCount && Shaped(Step(s, t))
  {}

  /** tripCount is that count in every state. */
  lemma {:induction false} TripCountIsCount(n: nat, count: nat, order: seq<nat>, states: seq<State>, j: nat)
    requires IsRun(n, count, order, states) && j <= |order|
    ensures |states[j].pcs| == n && states[j].tripCount == count && Shaped(states[j])
  {
    hide Step, Enabled;
    if j > 0 {
      TripCountIsCount(n, count, order, states, j - 1);
      StepKeepsShape(states[j - 1], order[j - 1]);
      assert states[j] == Step(states[j - 1], order[j - 1]);
    }
  }

  /** Every run is one of the barrier for count threads. */
  lemma RunsRefine(n: nat, count: nat, order: seq<nat>, states: seq<State>, j: nat)
    requires 0 < n <= count && IsRun(n, count, order, states) && j < |order|
    ensures Shaped(states[j]) && Shaped(states[j + 1])
    ensures BarrierSpec.Next(UsesOf(states[j]), count, UsesOf(states[j + 1]))
  {
    hide Inv, Step, Enabled;
    RunsKeepInv(n, count, order, states, j);
    TripCountIsCount(n, count, order, states, j);
    StepRefines(states[j], order[j]);
    assert states[j + 1] == Step(states[j], order[j]);
  }

  /** count stays in [0, tripCount) whenever the mutex is free. */
  lemma CountInRange(n: nat, count: nat, order: seq<nat>, states: seq<State>, j: nat)
    requires 0 < n <= count && IsRun(n, count, order, states) && j <= |order| && states[j].mutex == NOBODY
    ensures 0 <= states[j].count < count
  {
    RunsKeepInv(n, count, order, states, j);
    TripCountIsCount(n, count, order, states, j);
    CountBelowTrip(states[j]);
  }

  /** Once a thread has returned from its k-th call, all count threads have made theirs. */
  lemma NoneLeavesEarly(n: nat, count: nat, order: seq<nat>, states: seq<State>, j: nat, t: nat, k: nat)
    requires 0 < n <= count && IsRun(n, count, order, states) && j <= |order|
    requires t < |states[j].pcs| && Shaped(states[j]) && 0 < k <= |states[j].results[t]|
    ensures n == count && forall u :: 0 <= u < n ==> u < |states[j].arrived| && states[j].arrived[u] >= k
  {
    RunsKeepInv(n, count, order, states, j);
    TripCountIsCount(n, count, order, states, j);
    LeftMeansArrived(states[j], t, k);
    CountExtremes(Arrived(UsesOf(states[j]), k), true);
    forall u | 0 <= u < n ensures states[j].arrived[u] >= k {
      assert Arrived(UsesOf(states[j]), k)[u];
    }
  }

  /** Of the count threads that have returned from their k-th call one was told that it was the first, all others
      that they were not. */
  lemma ExactlyOneFirst(n: nat, count: nat, order: seq<nat>, states: seq<State>, j: nat, k: nat)
    requires 0 < n <= count && IsRun(n, count, order, states) && j <= |order| && Shaped(states[j])
    requires forall t :: 0 <= t < |states[j].pcs| ==> k < |states[j].results[t]|
    ensures |states[j].results| == count && Count(Firsts(states[j], k), true) == 1
    ensures forall t :: 0 <= t < count ==> states[j].results[t][k] in {0, 1}
  {
    RunsKeepInv(n, count, order, states, j);
    TripCountIsCount(n, count, order, states, j);
    LeftMeansArrived(states[j], 0, k + 1);
    OneTripper(states[j], k);
  }

  /** With as many threads as the count, a sleeper only ever waits for a thread that has not made its call yet. */
  lemma StuckMeansWaiting(n: nat, order: seq<nat>, states: seq<State>, j: nat, t: nat)
    requires 0 < n && IsRun(n, n, order, states) && j <= |order| && Stuck(states[j]) && t < n
    ensures var s := states[j];
      && |s.pcs| == |s.arrived| == n && s.pcs[t] in {Outside, Asleep}
      && (s.pcs[t] == Asleep ==> exists u :: 0 <= u < n && s.pcs[u] == Outside && s.arrived[u] < s.arrived[t])
  {
    RunsKeepInv(n, n, order, states, j);
    TripCountIsCount(n, n, order, states, j);
    SleepersWait(states[j], t);
  }

  /** So when all have called equally often and nobody can go on inside, everybody is through: each call has
      returned and the barrier is as at first. */
  lemma BarrierOpens(n: nat, order: seq<nat>, states: seq<State>, j: nat)
    requires 0 < n && IsRun(n, n, order, states) && j <= |order| && Stuck(states[j]) && Shaped(states[j])
    requires forall t, u :: 0 <= t < |states[j].arrived| && 0 <= u < |states[j].arrived| ==>
      states[j].arrived[t] == states[j].arrived[u]
    ensures var s := states[j];
      && |s.pcs| == n && s.count == 0 && s.mutex == NOBODY
      && forall t :: 0 <= t < n ==> s.pcs[t] == Outside && |s.results[t]| == s.arrived[t]
  {
    RunsKeepInv(n, n, order, states, j);
    TripCountIsCount(n, n, order, states, j);
    var s := states[j];
    forall t | 0 <= t < n
      ensures s.pcs[t] == Outside && |s.results[t]| == s.arrived[t] && !Currents(s)[t] && s.mutex != t
    {
      StuckMeansWaiting(n, order, states, j, t);
      assert ThreadOk(s, t);
    }
    CountExtremes(Currents(s), true);
  }

  // ----- What it relies on -----

  /** A wakeup that nobody asked for, which POSIX allows. */
  function SpuriousWakeup(s: State, t: nat): State
    requires t < |s.pcs| && s.pcs[t] == Asleep
  {
    s.(pcs := s.pcs[t := Awake])
  }

  /** How many threads have arrived in a generation that has not tripped. */
  lemma OpenGeneration(s: State, k: nat)
    requires Inv(s) && !Tripping(s) && k == |s.trippers| + 1
    ensures Count(Arrived(UsesOf(s), k), true) == s.count
  {
    forall t | 0 <= t < |s.pcs| ensures Arrived(UsesOf(s), k)[t] == Currents(s)[t] {
      assert ThreadOk(s, t);
    }
    assert Arrived(UsesOf(s), k) == Currents(s);
  }

  /** A thread inside pthread_cond_wait may rightly leave the barrier exactly when the broadcast has woken it,
      or when the thread that trips the generation has already counted itself in but not got there yet. */
  lemma MayLeaveWaitIff(s: State, t: nat)
    requires Inv(s) && t < |s.pcs| && s.pcs[t] in {Asleep, Awake}
    ensures MayLeave(UsesOf(s), s.tripCount, t) <==> s.pcs[t] == Awake || Tripping(s) || s.count >= s.tripCount
  {
    assert ThreadOk(s, t);
    if s.pcs[t] == Awake || Tripping(s) {
      AllArrived(s, s.arrived[t]);
    } else {
      OpenGeneration(s, s.arrived[t]);
    }
  }

  /** With the mutex free, it may leave if and only if the broadcast has woken it. */
  lemma WokenIffMayLeave(s: State, t: nat)
    requires Inv(s) && t < |s.pcs| && s.pcs[t] in {Asleep, Awake} && s.mutex == NOBODY
    ensures MayLeave(UsesOf(s), s.tripCount, t) <==> s.pcs[t] == Awake
  {
    MayLeaveWaitIff(s, t);
    CountBelowTrip(s);
  }

  /** Every spurious wakeup that finds the mutex free breaks the barrier, in any reachable state and for any
      number of threads: the sleeper can return at once from its call, in whose generation fewer than
      tripCount threads have arrived. */
  lemma SpuriousWakeupBreaksBarrier(s: State, t: nat)
    requires Inv(s) && t < |s.pcs| && s.pcs[t] == Asleep && s.mutex == NOBODY
    ensures var a := SpuriousWakeup(s, t);
      && Enabled(a, t) && Enabled(Step(a, t), t)
      && var b := Step(Step(a, t), t);
         && b.results == s.results[t := s.results[t] + [0]] && b.arrived == s.arrived && |b.results[t]| == b.arrived[t]
         && Count(Arrived(UsesOf(b), |b.results[t]|), true) < s.tripCount
  {
    assert ThreadOk(s, t);
    OpenGeneration(s, s.arrived[t]);
    CountBelowTrip(s);
    var b := Step(Step(SpuriousWakeup(s, t), t), t);
    assert Arrived(UsesOf(b), |b.results[t]|) == Arrived(UsesOf(s), s.arrived[t]);
  }

  /** Such a state is reached: the first of two threads goes to sleep before the second has arrived. */
  lemma SleeperIsReachable() returns (order: seq<nat>, states: seq<State>)
    ensures IsRun(2, 2, order, states)
    ensures var s := states[|order|]; s.pcs == [Asleep, Outside] && s.mutex == NOBODY && s.arrived == [1, 0]
  {
    var a := Init(2, 2);
    assert a.pcs == [Outside, Outside] && a.arrived == [0, 0];
    var b := Step(a, 0);
    var c := Step(b, 0);
    var d := Step(c, 0);
    var e := Step(d, 0);
    var f := Step(e, 0);
    assert f.pcs == [Asleep, Outside] && f.arrived == [1, 0];
    order, states := [0, 0, 0, 0, 0], [a, b, c, d, e, f];
  }
}
