/** The thread pool of src/pumathreadpool.c:147-163 and 173-213 with one caller, over two barriers
    (BarrierSpec) and a readers-writer lock. Each worker owns one part of the data; a job is a sequence of
    actions on the part of the worker that runs it. */
module Pool {
  import opened Bits
  import opened BarrierSpec

  /** What workFunction does with arg, action by action. */
  type Programs<!D> = (nat, nat) -> seq<D -> D>

  /** Where a worker stands in the loop of _threadPoolWorker. */
  datatype WorkerPc = AtWork | InWork | AtLock | ReadFunction | ReadArg | AtUnlock | Job | AtDone | InDone

  /** round is how often it has been through the loop; fn and arg are its copies; pos counts the actions
      of the job it has carried out. */
  datatype Worker = Worker(pc: WorkerPc, round: nat, fn: nat, arg: nat, pos: nat)

  /** Where the caller stands in executeOnThreadPool; Idle is outside. */
  datatype CallerPc =
    | Idle | WriteLock | SetFunction | SetArg
    | ArriveWork | WaitWork | WriteUnlock | ArriveDone | WaitDone

  /** round is how many calls have returned; fn and arg are those of the present call. */
  datatype Caller = Caller(pc: CallerPc, round: nat, fn: nat, arg: nat)

  /** What the caller does while it is outside, or a whole call. */
  datatype Act<!D> = Own(f: seq<D> -> seq<D>) | Call(fn: nat, arg: nat)

  /** acts and trace are history. An entry of the trace is one action on the data: key is 2k when the caller
      did it after k calls, and 2k + 1 when worker who did it as action pos of its job in call k. */
  datatype Entry = Entry(key: nat, who: nat, pos: nat)

  datatype State<!D> = State(workers: seq<Worker>, caller: Caller, workFunction: nat, arg: nat, data: seq<D>,
                             acts: seq<Act<D>>, trace: seq<Entry>)

  /** A worker moves, or the caller does inside a call, begins one, or acts on the data between calls. */
  datatype Move<!D> =
    | WorkerMoves(w: nat)
    | CallerMoves
    | CallBegins(fn: nat, arg: nat)
    | CallerActs(f: seq<D> -> seq<D>)

  function Init<D>(data: seq<D>): State<D> {
    State(seq(|data|, _ => Worker(AtWork, 0, 0, 0, 0)), Caller(Idle, 0, 0, 0), 0, 0, data, [], [])
  }

  // ----- The barriers: how often each thread has arrived and left; the caller comes last -----

  function WorkArrived(k: Worker): nat { k.round + if k.pc == AtWork then 0 else 1 }

  function WorkLeft(k: Worker): nat { k.round + if k.pc in {AtWork, InWork} then 0 else 1 }

  function DoneArrived(k: Worker): nat { k.round + if k.pc == InDone then 1 else 0 }

  function CallerWorkArrived(c: Caller): nat {
    c.round + if c.pc in {WaitWork, WriteUnlock, ArriveDone, WaitDone} then 1 else 0
  }

  function CallerWorkLeft(c: Caller): nat { c.round + if c.pc in {WriteUnlock, ArriveDone, WaitDone} then 1 else 0 }

  function CallerDoneArrived(c: Caller): nat { c.round + if c.pc == WaitDone then 1 else 0 }

  function WorkBarrier<D>(s: State<D>): (u: Uses)
    ensures |u.arrived| == |u.left| == |s.workers| + 1
  {
    var n := |s.workers|;
    Uses(seq(n, w requires 0 <= w < n => WorkArrived(s.workers[w])) + [CallerWorkArrived(s.caller)],
         seq(n, w requires 0 <= w < n => WorkLeft(s.workers[w])) + [CallerWorkLeft(s.caller)])
  }

  function DoneBarrier<D>(s: State<D>): (u: Uses)
    ensures |u.arrived| == |u.left| == |s.workers| + 1
  {
    var n := |s.workers|;
    Uses(seq(n, w requires 0 <= w < n => DoneArrived(s.workers[w])) + [CallerDoneArrived(s.caller)],
         seq(n, w requires 0 <= w < n => s.workers[w].round) + [s.caller.round])
  }

  predicate Writing(pc: CallerPc) { pc in {SetFunction, SetArg, ArriveWork, WaitWork, WriteUnlock} }

  predicate Reading(pc: WorkerPc) { pc in {ReadFunction, ReadArg, AtUnlock} }

  // ----- Steps -----

  predicate WorkerEnabled<D>(s: State<D>, w: nat) {
    && w < |s.workers| == |s.data|
    && match s.workers[w].pc
       case InWork => MayLeave(WorkBarrier(s), |s.workers| + 1, w)
       case AtLock => !Writing(s.caller.pc)
       case InDone => MayLeave(DoneBarrier(s), |s.workers| + 1, w)
       case _ => true
  }

  function WorkerStep<D>(prog: Programs<D>, s: State<D>, w: nat): State<D>
    requires WorkerEnabled(s, w)
  {
    var k := s.workers[w];
    var go := (pc: WorkerPc) => s.(workers := s.workers[w := k.(pc := pc)]);
    match k.pc
    case AtWork => go(InWork)
    case InWork => go(AtLock)
    case AtLock => go(ReadFunction)
    case ReadFunction => s.(workers := s.workers[w := k.(pc := ReadArg, fn := s.workFunction)])
    case ReadArg => s.(workers := s.workers[w := k.(pc := AtUnlock, arg := s.arg)])
    case AtUnlock => s.(workers := s.workers[w := k.(pc := Job, pos := 0)])
    case Job =>
      if k.pos < |prog(k.fn, k.arg)| then
        s.(workers := s.workers[w := k.(pos := k.pos + 1)],
           data := s.data[w := prog(k.fn, k.arg)[k.pos](s.data[w])],
           trace := s.trace + [Entry(2 * k.round + 1, w, k.pos)])
      else go(AtDone)
    case AtDone => go(InDone)
    case InDone => s.(workers := s.workers[w := k.(pc := AtWork, round := k.round + 1)])
  }

  predicate CallerEnabled<D>(s: State<D>) {
    match s.caller.pc
    case Idle => false
    case WriteLock => forall w :: 0 <= w < |s.workers| ==> !Reading(s.workers[w].pc)
    case WaitWork => MayLeave(WorkBarrier(s), |s.workers| + 1, |s.workers|)
    case WaitDone => MayLeave(DoneBarrier(s), |s.workers| + 1, |s.workers|)
    case _ => true
  }

  /** A step inside executeOnThreadPool. */
  function CallerStep<D>(s: State<D>): State<D>
    requires CallerEnabled(s)
  {
    var c := s.caller;
    match c.pc
    case Idle => s
    case WriteLock => s.(caller := c.(pc := SetFunction))
    case SetFunction => s.(caller := c.(pc := SetArg), workFunction := c.fn)
    case SetArg => s.(caller := c.(pc := ArriveWork), arg := c.arg)
    case ArriveWork => s.(caller := c.(pc := WaitWork))
    case WaitWork => s.(caller := c.(pc := WriteUnlock))
    case WriteUnlock => s.(caller := c.(pc := ArriveDone))
    case ArriveDone => s.(caller := c.(pc := WaitDone))
    case WaitDone => s.(caller := c.(pc := Idle, round := c.round + 1))
  }

  predicate Enabled<D>(s: State<D>, m: Move<D>) {
    match m
    case WorkerMoves(w) => WorkerEnabled(s, w)
    case CallerMoves => CallerEnabled(s)
    case CallBegins(_, _) => s.caller.pc == Idle
    case CallerActs(f) => s.caller.pc == Idle && |f(s.data)| == |s.data|
  }

  function Step<D>(prog: Programs<D>, s: State<D>, m: Move<D>): State<D>
    requires Enabled(s, m)
  {
    match m
    case WorkerMoves(w) => WorkerStep(prog, s, w)
    case CallerMoves => CallerStep(s)
    case CallBegins(fn, arg) =>
      s.(caller := s.caller.(pc := WriteLock, fn := fn, arg := arg), acts := s.acts + [Call(fn, arg)])
    case CallerActs(f) =>
      s.(data := f(s.data), acts := s.acts + [Own(f)], trace := s.trace + [Entry(2 * s.caller.round, |s.workers|, 0)])
  }

  // ----- The sequential meaning -----

  /** The first k actions of a job. */
  function ApplyTo<D>(fs: seq<D -> D>, k: nat, d: D): D
    requires k <= |fs|
  {
    if k == 0 then d else fs[k - 1](ApplyTo(fs, k - 1, d))
  }

  /** One worker after the other does the whole job on its part. */
  function RunAll<D>(fs: seq<D -> D>, data: seq<D>): (r: seq<D>)
    ensures |r| == |data|
  {
    seq(|data|, w requires 0 <= w < |data| => ApplyTo(fs, |fs|, data[w]))
  }

  function Replay<D>(prog: Programs<D>, data: seq<D>, acts: seq<Act<D>>): seq<D> {
    if acts == [] then data
    else
      var before := Replay(prog, data, acts[..|acts| - 1]);
      match acts[|acts| - 1]
      case Own(f) => f(before)
      case Call(fn, arg) => RunAll(prog(fn, arg), before)
  }

  // ----- The invariant -----

  /** A thread may leave a barrier exactly when everybody has arrived there as often as it has itself. */
  lemma LeaveIff(u: Uses, t: nat)
    requires t < |u.arrived| == |u.left|
    ensures MayLeave(u, |u.arrived|, t) <==>
      u.left[t] < u.arrived[t] && forall p :: 0 <= p < |u.arrived| ==> u.arrived[p] >= u.arrived[t]
  {
    CountExtremes(Arrived(u, u.arrived[t]), true);
    assert forall p :: 0 <= p < |u.arrived| ==> Arrived(u, u.arrived[t])[p] == (u.arrived[p] >= u.arrived[t]);
  }

  predicate InCall(c: Caller) { c.pc != Idle }

  /** Where a worker may stand, given where the caller stands. */
  predicate InStep(k: Worker, c: Caller) {
    match c.pc
    case WaitWork =>
      (k.round == c.round && k.pc in {AtWork, InWork, AtLock}) || (k.round + 1 == c.round && k.pc == InDone)
    case WriteUnlock => k.round == c.round && k.pc in {InWork, AtLock}
    case ArriveDone => k.round == c.round && k.pc != AtWork
    case WaitDone => (k.round == c.round && k.pc != AtWork) || (k.round == c.round + 1 && k.pc in {AtWork, InWork})
    case _ => (k.round == c.round && k.pc in {AtWork, InWork}) || (k.round + 1 == c.round && k.pc == InDone)
  }

  /** What a worker has copied is the present call's. */
  predicate CopiesOk(k: Worker, c: Caller) {
    && (k.pc in {ReadArg, AtUnlock, Job} ==> k.fn == c.fn)
    && (k.pc in {AtUnlock, Job} ==> k.arg == c.arg)
  }

  /** How many actions of the present call's job a worker has done. */
  function Progress(k: Worker, c: Caller, n: nat): nat {
    if c.pc !in {ArriveDone, WaitDone} then 0
    else if k.round != c.round then n
    else if k.pc == Job then k.pos
    else if k.pc in {AtDone, InDone} then n
    else 0
  }

  ghost predicate WorkerOk<D>(k: Worker, c: Caller, job: seq<D -> D>, base: D, data: D) {
    && InStep(k, c) && CopiesOk(k, c) && (k.pc == Job ==> k.pos <= |job|)
    && Progress(k, c, |job|) <= |job| && data == ApplyTo(job, Progress(k, c, |job|), base)
  }

  ghost predicate SharedOk<D>(s: State<D>) {
    && (s.caller.pc in {SetArg, ArriveWork, WaitWork, WriteUnlock, ArriveDone, WaitDone} ==>
          s.workFunction == s.caller.fn)
    && (s.caller.pc in {ArriveWork, WaitWork, WriteUnlock, ArriveDone, WaitDone} ==> s.arg == s.caller.arg)
    && (InCall(s.caller) ==> s.acts != [] && s.acts[|s.acts| - 1] == Call(s.caller.fn, s.caller.arg))
  }

  /** What the caller has done before the present call. */
  ghost function Before<D>(s: State<D>): seq<Act<D>>
    requires SharedOk(s)
  {
    if InCall(s.caller) then s.acts[..|s.acts| - 1] else s.acts
  }

  ghost predicate Inv<D>(prog: Programs<D>, data0: seq<D>, s: State<D>) {
    && SharedOk(s) && |s.workers| == |s.data| == |Replay(prog, data0, Before(s))|
    && forall w :: 0 <= w < |s.workers| ==>
         WorkerOk(s.workers[w], s.caller, prog(s.caller.fn, s.caller.arg), Replay(prog, data0, Before(s))[w], s.data[w])
  }

  lemma InitInv<D>(prog: Programs<D>, data: seq<D>)
    ensures Inv(prog, data, Init(data))
  {}

  /** A worker that passes a barrier knows that the caller has arrived there. */
  lemma WorkerPasses<D>(s: State<D>, w: nat)
    requires WorkerEnabled(s, w)
    ensures s.workers[w].pc == InWork ==> CallerWorkArrived(s.caller) > s.workers[w].round
    ensures s.workers[w].pc == InDone ==> CallerDoneArrived(s.caller) > s.workers[w].round
  {
    hide MayLeave;
    LeaveIff(WorkBarrier(s), w);
    LeaveIff(DoneBarrier(s), w);
    assert WorkBarrier(s).arrived[|s.workers|] == CallerWorkArrived(s.caller);
    assert DoneBarrier(s).arrived[|s.workers|] == CallerDoneArrived(s.caller);
  }

  /** Whether a worker's next step is an action of its job. */
  predicate Acts<D>(prog: Programs<D>, k: Worker) {
    k.pc == Job && k.pos < |prog(k.fn, k.arg)|
  }

  /** A worker's step, seen by that worker. */
  lemma WorkerStepOk<D>(prog: Programs<D>, s: State<D>, w: nat, base: D)
    requires SharedOk(s) && WorkerEnabled(s, w)
    requires WorkerOk(s.workers[w], s.caller, prog(s.caller.fn, s.caller.arg), base, s.data[w])
    ensures var k, s', job := s.workers[w], WorkerStep(prog, s, w), prog(s.caller.fn, s.caller.arg);
      && WorkerOk(s'.workers[w], s.caller, job, base, s'.data[w])
      && Progress(s'.workers[w], s.caller, |job|) == Progress(k, s.caller, |job|) + (if Acts(prog, k) then 1 else 0)
      && (Acts(prog, k) ==> k.round == s.caller.round && k.pos == Progress(k, s.caller, |job|) && InCall(s.caller))
  {
    hide MayLeave, WorkBarrier, DoneBarrier;
    WorkerPasses(s, w);
    match s.workers[w].pc
    case AtWork =>
    case InWork =>
    case AtLock =>
    case ReadFunction =>
    case ReadArg =>
    case AtUnlock =>
    case Job => JobStepOk(prog, s, w, base);
    case AtDone =>
    case InDone =>
  }

  /** Inside the job. */
  lemma JobStepOk<D>(prog: Programs<D>, s: State<D>, w: nat, base: D)
    requires SharedOk(s) && WorkerEnabled(s, w) && s.workers[w].pc == Job
    requires WorkerOk(s.workers[w], s.caller, prog(s.caller.fn, s.caller.arg), base, s.data[w])
    ensures var k, s', job := s.workers[w], WorkerStep(prog, s, w), prog(s.caller.fn, s.caller.arg);
      && WorkerOk(s'.workers[w], s.caller, job, base, s'.data[w])
      && Progress(s'.workers[w], s.caller, |job|) == Progress(k, s.caller, |job|) + (if Acts(prog, k) then 1 else 0)
      && (Acts(prog, k) ==> k.round == s.caller.round && k.pos == Progress(k, s.caller, |job|) && InCall(s.caller))
  {
    hide MayLeave, WorkBarrier, DoneBarrier;
  }

  lemma WorkerKeepsInv<D>(prog: Programs<D>, data0: seq<D>, s: State<D>, w: nat)
    requires Inv(prog, data0, s) && WorkerEnabled(s, w)
    ensures Inv(prog, data0, WorkerStep(prog, s, w))
  {
    hide WorkerOk, MayLeave, Replay, WorkBarrier, DoneBarrier;
    WorkerStepOk(prog, s, w, Replay(prog, data0, Before(s))[w]);
    var s' := WorkerStep(prog, s, w);
    assert s'.caller == s.caller && s'.acts == s.acts && s'.workFunction == s.workFunction && s'.arg == s.arg;
    assert forall u :: 0 <= u < |s.workers| && u != w ==> s'.workers[u] == s.workers[u] && s'.data[u] == s.data[u];
  }

  /** A caller that passes a barrier knows that every worker has arrived there. */
  lemma CallerPasses<D>(s: State<D>, w: nat)
    requires w < |s.workers| && CallerEnabled(s)
    ensures s.caller.pc == WaitWork ==> WorkArrived(s.workers[w]) > s.caller.round
    ensures s.caller.pc == WaitDone ==> DoneArrived(s.workers[w]) > s.caller.round
  {
    hide MayLeave;
    LeaveIff(WorkBarrier(s), |s.workers|);
    LeaveIff(DoneBarrier(s), |s.workers|);
    assert WorkBarrier(s).arrived[w] == WorkArrived(s.workers[w]);
    assert DoneBarrier(s).arrived[w] == DoneArrived(s.workers[w]);
  }

  /** A step of the caller, seen by a worker. */
  lemma CallerStepOk<D>(s: State<D>, w: nat, job: seq<D -> D>, base: D)
    requires SharedOk(s) && w < |s.workers| == |s.data| && CallerEnabled(s)
    requires WorkerOk(s.workers[w], s.caller, job, base, s.data[w])
    ensures var c' := CallerStep(s).caller;
      WorkerOk(s.workers[w], c', job, if InCall(c') then base else s.data[w], s.data[w])
    ensures !InCall(CallerStep(s).caller) ==> s.data[w] == ApplyTo(job, |job|, base)
  {
    hide MayLeave, WorkBarrier, DoneBarrier;
    CallerPasses(s, w);
    match s.caller.pc
    case WriteLock =>
    case SetFunction =>
    case SetArg =>
    case ArriveWork =>
    case WaitWork =>
    case WriteUnlock =>
    case ArriveDone =>
    case WaitDone =>
  }

  lemma CallerKeepsInv<D>(prog: Programs<D>, data0: seq<D>, s: State<D>)
    requires Inv(prog, data0, s) && CallerEnabled(s)
    ensures Inv(prog, data0, CallerStep(s))
  {
    var s', c := CallerStep(s), s.caller;
    var job, base := prog(c.fn, c.arg), Replay(prog, data0, Before(s));
    hide WorkerOk, MayLeave;
    forall w | 0 <= w < |s.workers|
      ensures WorkerOk(s.workers[w], s'.caller, job, if InCall(s'.caller) then base[w] else s.data[w], s.data[w])
      ensures !InCall(s'.caller) ==> s.data[w] == ApplyTo(job, |job|, base[w])
    {
      CallerStepOk(s, w, job, base[w]);
    }
    if !InCall(s'.caller) {
      assert Replay(prog, data0, s.acts) == RunAll(job, base);
      assert s.data == RunAll(job, base);
    }
  }

  /** Outside a call it does not matter which job comes next. */
  lemma AnyJob<D>(k: Worker, c: Caller, c': Caller, job: seq<D -> D>, job': seq<D -> D>, base: D, data: D, data': D)
    requires WorkerOk(k, c, job, base, data) && c.pc == Idle && c'.pc in {Idle, WriteLock} && c'.round == c.round
    ensures WorkerOk(k, c', job', data', data')
  {}

  lemma BeginKeepsInv<D>(prog: Programs<D>, data0: seq<D>, s: State<D>, fn: nat, arg: nat)
    requires Inv(prog, data0, s) && !InCall(s.caller)
    ensures Inv(prog, data0, Step(prog, s, CallBegins(fn, arg)))
  {
    hide Replay, WorkerOk;
    var s' := Step(prog, s, CallBegins(fn, arg));
    IdleData(prog, data0, s);
    assert Before(s') == s.acts;
    forall w | 0 <= w < |s.workers| ensures WorkerOk(s.workers[w], s'.caller, prog(fn, arg), s.data[w], s.data[w]) {
      AnyJob(s.workers[w], s.caller, s'.caller, prog(s.caller.fn, s.caller.arg), prog(fn, arg),
             Replay(prog, data0, s.acts)[w], s.data[w], s.data[w]);
    }
  }

  lemma ActKeepsInv<D>(prog: Programs<D>, data0: seq<D>, s: State<D>, f: seq<D> -> seq<D>)
    requires Inv(prog, data0, s) && !InCall(s.caller) && |f(s.data)| == |s.data|
    ensures Inv(prog, data0, Step(prog, s, CallerActs(f)))
  {
    hide WorkerOk;
    var s', job := Step(prog, s, CallerActs(f)), prog(s.caller.fn, s.caller.arg);
    IdleData(prog, data0, s);
    assert s'.acts[..|s'.acts| - 1] == s.acts;
    assert Replay(prog, data0, s'.acts) == f(s.data);
    forall w | 0 <= w < |s.workers| ensures WorkerOk(s.workers[w], s'.caller, job, s'.data[w], s'.data[w]) {
      AnyJob(s.workers[w], s.caller, s'.caller, job, job, Replay(prog, data0, s.acts)[w], s.data[w], s'.data[w]);
    }
  }

  /** Whenever the caller is outside, the data is what running every call's job on one worker after the
      other would have made of it, and no worker is inside a job. */
  lemma IdleData<D>(prog: Programs<D>, data0: seq<D>, s: State<D>)
    requires Inv(prog, data0, s) && s.caller.pc == Idle
    ensures s.data == Replay(prog, data0, s.acts)
    ensures forall w :: 0 <= w < |s.workers| ==> s.workers[w].pc in {AtWork, InWork, InDone}
  {
    hide Replay;
    var job := prog(s.caller.fn, s.caller.arg);
    forall w | 0 <= w < |s.workers|
      ensures s.data[w] == Replay(prog, data0, s.acts)[w] && s.workers[w].pc in {AtWork, InWork, InDone}
    {
      assert WorkerOk(s.workers[w], s.caller, job, Replay(prog, data0, s.acts)[w], s.data[w]);
    }
  }

  lemma StepKeepsInv<D>(prog: Programs<D>, data0: seq<D>, s: State<D>, m: Move<D>)
    requires Inv(prog, data0, s) && Enabled(s, m)
    ensures Inv(prog, data0, Step(prog, s, m))
  {
    match m
    case WorkerMoves(w) => WorkerKeepsInv(prog, data0, s, w);
    case CallerMoves => CallerKeepsInv(prog, data0, s);
    case CallBegins(fn, arg) => BeginKeepsInv(prog, data0, s, fn, arg);
    case CallerActs(f) => ActKeepsInv(prog, data0, s, f);
  }

  /** states is a run in which the threads move in the order given. */
  ghost predicate IsRun<D(!new)>(prog: Programs<D>, data0: seq<D>, moves: seq<Move<D>>, states: seq<State<D>>) {
    && |states| == |moves| + 1 && states[0] == Init(data0)
    && forall j :: 0 <= j < |moves| ==> Enabled(states[j], moves[j]) && states[j + 1] == Step(prog, states[j], moves[j])
  }

  lemma {:induction false} RunsKeepInv<D(!new)>(prog: Programs<D>, data0: seq<D>, moves: seq<Move<D>>,
                                         states: seq<State<D>>, j: nat)
    requires IsRun(prog, data0, moves, states) && j <= |moves|
    ensures Inv(prog, data0, states[j])
  {
    if j == 0 {
      InitInv(prog, data0);
    } else {
      hide Inv, Enabled, Step;
      RunsKeepInv(prog, data0, moves, states, j - 1);
      StepKeepsInv(prog, data0, states[j - 1], moves[j - 1]);
      assert states[j] == Step(prog, states[j - 1], moves[j - 1]);
    }
  }

  // ----- The order of actions -----

  /** The positions in key of worker who, in the order of the trace. */
  function Of(trace: seq<Entry>, key: nat, who: nat): seq<nat> {
    if trace == [] then []
    else
      var e := trace[|trace| - 1];
      Of(trace[..|trace| - 1], key, who) + if e.key == key && e.who == who then [e.pos] else []
  }

  function Upto(n: nat): seq<nat> { seq(n, i => i) }

  lemma OfSnoc(trace: seq<Entry>, e: Entry, key: nat, who: nat)
    ensures Of(trace + [e], key, who) == Of(trace, key, who) + if e.key == key && e.who == who then [e.pos] else []
  {
    assert (trace + [e])[..|trace|] == trace;
  }

  lemma {:induction false} NoneOf(trace: seq<Entry>, key: nat, who: nat)
    requires forall i :: 0 <= i < |trace| ==> trace[i].key != key
    ensures Of(trace, key, who) == []
  {
    if trace != [] { NoneOf(trace[..|trace| - 1], key, who); }
  }

  /** The calls among the acts. */
  ghost function Calls<D>(acts: seq<Act<D>>): seq<(nat, nat)> {
    if acts == [] then []
    else
      var a := acts[|acts| - 1];
      Calls(acts[..|acts| - 1]) + if a.Call? then [(a.fn, a.arg)] else []
  }

  function Now(c: Caller): nat { 2 * c.round + if InCall(c) then 1 else 0 }

  predicate Ordered(trace: seq<Entry>, now: nat) {
    && (forall i, j :: 0 <= i < j < |trace| ==> trace[i].key <= trace[j].key)
    && (forall i :: 0 <= i < |trace| ==> trace[i].key <= now)
  }

  ghost predicate CallsOk<D>(s: State<D>) {
    && |Calls(s.acts)| == s.caller.round + (if InCall(s.caller) then 1 else 0)
    && (InCall(s.caller) ==> Calls(s.acts)[s.caller.round] == (s.caller.fn, s.caller.arg))
  }

  /** Worker w has done the first n actions of call r's job, each once and in order, and no other. */
  predicate Did(trace: seq<Entry>, r: nat, w: nat, n: nat) {
    Of(trace, 2 * r + 1, w) == Upto(n)
  }

  /** In a call that has returned every worker has done the whole job. */
  ghost predicate DidAll<D>(prog: Programs<D>, s: State<D>, r: nat, w: nat)
    requires r < |Calls(s.acts)|
  {
    Did(s.trace, r, w, |prog(Calls(s.acts)[r].0, Calls(s.acts)[r].1)|)
  }

  ghost predicate TraceOk<D>(prog: Programs<D>, s: State<D>) {
    && Ordered(s.trace, Now(s.caller)) && CallsOk(s)
    && (forall r, w :: 0 <= r < s.caller.round && 0 <= w < |s.workers| ==> DidAll(prog, s, r, w))
    && (InCall(s.caller) ==> forall w :: 0 <= w < |s.workers| ==>
          Did(s.trace, s.caller.round, w, Progress(s.workers[w], s.caller, |prog(s.caller.fn, s.caller.arg)|)))
  }

  /** One more action of worker w in call c. */
  lemma DidOneMore(trace: seq<Entry>, c: nat, w: nat, pos: nat, r: nat, u: nat, n: nat)
    requires Did(trace, r, u, n) && (r == c && u == w ==> n == pos)
    ensures Did(trace + [Entry(2 * c + 1, w, pos)], r, u, if r == c && u == w then n + 1 else n)
  {
    OfSnoc(trace, Entry(2 * c + 1, w, pos), 2 * r + 1, u);
    assert Upto(n) + [n] == Upto(n + 1);
  }

  lemma WorkerKeepsTrace<D>(prog: Programs<D>, data0: seq<D>, s: State<D>, w: nat)
    requires Inv(prog, data0, s) && TraceOk(prog, s) && WorkerEnabled(s, w)
    ensures TraceOk(prog, WorkerStep(prog, s, w))
  {
    hide WorkerOk, MayLeave, Replay, WorkBarrier, DoneBarrier, Progress, Did, Calls;
    WorkerStepOk(prog, s, w, Replay(prog, data0, Before(s))[w]);
    var k, c, s' := s.workers[w], s.caller, WorkerStep(prog, s, w);
    forall r, u | 0 <= r < c.round && 0 <= u < |s.workers| ensures DidAll(prog, s', r, u) {
      assert DidAll(prog, s, r, u);
      if Acts(prog, k) { DidOneMore(s.trace, k.round, w, k.pos, r, u, |prog(Calls(s.acts)[r].0, Calls(s.acts)[r].1)|); }
    }
    forall u | InCall(c) && 0 <= u < |s.workers|
      ensures Did(s'.trace, c.round, u, Progress(s'.workers[u], c, |prog(c.fn, c.arg)|))
    {
      var n := Progress(s.workers[u], c, |prog(c.fn, c.arg)|);
      assert Did(s.trace, c.round, u, n);
      if Acts(prog, k) { DidOneMore(s.trace, k.round, w, k.pos, c.round, u, n); }
    }
  }

  lemma CallerKeepsTrace<D>(prog: Programs<D>, data0: seq<D>, s: State<D>)
    requires Inv(prog, data0, s) && TraceOk(prog, s) && CallerEnabled(s)
    ensures TraceOk(prog, CallerStep(s))
  {
    hide WorkerOk, MayLeave, Replay, WorkBarrier, DoneBarrier, Progress, Of;
    var c, c', job := s.caller, CallerStep(s).caller, prog(s.caller.fn, s.caller.arg);
    forall w | 0 <= w < |s.workers|
      ensures Progress(s.workers[w], c, |job|) == if InCall(c') then Progress(s.workers[w], c', |job|) else |job|
    {
      CallerStepProgress(s, w, job, Replay(prog, data0, Before(s))[w]);
    }
    forall r, w | 0 <= r < c'.round && 0 <= w < |s.workers| ensures DidAll(prog, CallerStep(s), r, w) {
      if r < c.round {
        assert DidAll(prog, s, r, w);
      } else {
        assert Did(s.trace, c.round, w, Progress(s.workers[w], c, |job|));
      }
    }
  }

  lemma CallerStepProgress<D>(s: State<D>, w: nat, job: seq<D -> D>, base: D)
    requires w < |s.workers| == |s.data| && CallerEnabled(s) && WorkerOk(s.workers[w], s.caller, job, base, s.data[w])
    ensures var c' := CallerStep(s).caller;
      Progress(s.workers[w], s.caller, |job|) == if InCall(c') then Progress(s.workers[w], c', |job|) else |job|
  {
    hide MayLeave, WorkBarrier, DoneBarrier;
    CallerPasses(s, w);
  }

  lemma BeginKeepsTrace<D>(prog: Programs<D>, data0: seq<D>, s: State<D>, fn: nat, arg: nat)
    requires Inv(prog, data0, s) && TraceOk(prog, s) && !InCall(s.caller)
    ensures TraceOk(prog, Step(prog, s, CallBegins(fn, arg)))
  {
    hide Replay, WorkerOk, Of;
    var s' := Step(prog, s, CallBegins(fn, arg));
    assert s'.acts[..|s.acts|] == s.acts;
    forall w | 0 <= w < |s.workers| ensures Did(s.trace, s.caller.round, w, 0) {
      NoneOf(s.trace, 2 * s.caller.round + 1, w);
    }
    forall r, w | 0 <= r < s'.caller.round && 0 <= w < |s.workers| ensures DidAll(prog, s', r, w) {
      assert DidAll(prog, s, r, w);
    }
  }

  lemma ActKeepsTrace<D>(prog: Programs<D>, data0: seq<D>, s: State<D>, f: seq<D> -> seq<D>)
    requires Inv(prog, data0, s) && TraceOk(prog, s) && !InCall(s.caller) && |f(s.data)| == |s.data|
    ensures TraceOk(prog, Step(prog, s, CallerActs(f)))
  {
    hide Replay, WorkerOk, Of;
    var s', e := Step(prog, s, CallerActs(f)), Entry(2 * s.caller.round, |s.workers|, 0);
    assert s'.acts[..|s.acts|] == s.acts;
    forall key: nat, u: nat | u < |s.workers| ensures Of(s'.trace, key, u) == Of(s.trace, key, u) {
      OfSnoc(s.trace, e, key, u);
    }
    forall r, w | 0 <= r < s'.caller.round && 0 <= w < |s.workers| ensures DidAll(prog, s', r, w) {
      assert DidAll(prog, s, r, w);
    }
  }

  lemma StepKeepsTrace<D>(prog: Programs<D>, data0: seq<D>, s: State<D>, m: Move<D>)
    requires Inv(prog, data0, s) && TraceOk(prog, s) && Enabled(s, m)
    ensures TraceOk(prog, Step(prog, s, m))
  {
    hide TraceOk, Inv, WorkerEnabled, CallerEnabled, WorkerStep, CallerStep;
    match m
    case WorkerMoves(w) => WorkerKeepsTrace(prog, data0, s, w);
    case CallerMoves => CallerKeepsTrace(prog, data0, s);
    case CallBegins(fn, arg) => BeginKeepsTrace(prog, data0, s, fn, arg);
    case CallerActs(f) => ActKeepsTrace(prog, data0, s, f);
  }

  lemma {:induction false} RunsKeepTrace<D(!new)>(prog: Programs<D>, data0: seq<D>, moves: seq<Move<D>>,
                                           states: seq<State<D>>, j: nat)
    requires IsRun(prog, data0, moves, states) && j <= |moves|
    ensures Inv(prog, data0, states[j]) && TraceOk(prog, states[j])
  {
    if j == 0 {
      InitInv(prog, data0);
    } else {
      hide Inv, TraceOk, Enabled, Step;
      RunsKeepTrace(prog, data0, moves, states, j - 1);
      StepKeepsInv(prog, data0, states[j - 1], moves[j - 1]);
      StepKeepsTrace(prog, data0, states[j - 1], moves[j - 1]);
      assert states[j] == Step(prog, states[j - 1], moves[j - 1]);
    }
  }

  /** What a move asks for: executeOnThreadPool with these arguments, or the caller's own function. Workers and the
      caller's steps inside a call ask for nothing. */
  ghost function Asks<D>(m: Move<D>): seq<Act<D>> {
    match m
    case CallBegins(fn, arg) => [Call(fn, arg)]
    case CallerActs(f) => [Own(f)]
    case _ => []
  }

  /** And a sequence of moves. */
  ghost function ActsOf<D>(moves: seq<Move<D>>): seq<Act<D>> {
    if moves == [] then [] else ActsOf(moves[..|moves| - 1]) + Asks(moves[|moves| - 1])
  }

  lemma StepRecords<D>(prog: Programs<D>, s: State<D>, m: Move<D>)
    requires Enabled(s, m)
    ensures Step(prog, s, m).acts == s.acts + Asks(m)
  {
    hide MayLeave, WorkBarrier, DoneBarrier;
  }

  /** The history is what the moves have asked for, in their order. */
  lemma {:induction false} ActsAreMoves<D(!new)>(prog: Programs<D>, data0: seq<D>, moves: seq<Move<D>>,
                                          states: seq<State<D>>, j: nat)
    requires IsRun(prog, data0, moves, states) && j <= |moves|
    ensures states[j].acts == ActsOf(moves[..j])
  {
    if j > 0 {
      hide Enabled, Step;
      ActsAreMoves(prog, data0, moves, states, j - 1);
      StepRecords(prog, states[j - 1], moves[j - 1]);
      assert states[j] == Step(prog, states[j - 1], moves[j - 1]);
      assert moves[..j][..j - 1] == moves[..j - 1];
    }
  }

  lemma ActsSnoc<D>(moves: seq<Move<D>>, j: nat)
    requires 0 < j <= |moves|
    ensures ActsOf(moves[..j]) == ActsOf(moves[..j - 1]) + Asks(moves[j - 1])
  {
    assert moves[..j][..j - 1] == moves[..j - 1];
  }

  /** An act of the caller's own in the history is a move of the run. */
  lemma {:induction false} OwnHappened<D(!new)>(prog: Programs<D>, data0: seq<D>, moves: seq<Move<D>>,
                                         states: seq<State<D>>, j: nat,
                                         before: seq<Act<D>>, f: seq<D> -> seq<D>, rest: seq<Act<D>>) returns (i: nat)
    requires IsRun(prog, data0, moves, states) && j <= |moves|
    requires ActsOf(moves[..j]) == before + [Own(f)] + rest
    ensures i < j && moves[i] == CallerActs(f) && states[i].caller.pc == Idle
    ensures ActsOf(moves[..i]) == before && states[i + 1].data == f(states[i].data)
  {
    hide ActsOf;
    if j > 0 {
      ActsSnoc(moves, j);
      var m := moves[j - 1];
      assert Enabled(states[j - 1], m) && states[j] == Step(prog, states[j - 1], m);
      if Asks(m) == [] {
        i := OwnHappened(prog, data0, moves, states, j - 1, before, f, rest);
      } else if rest == [] {
        LastOf(ActsOf(moves[..j - 1]), Asks(m)[0], before, Own(f));
        i := j - 1;
      } else {
        var n := |rest| - 1;
        assert before + [Own(f)] + rest == before + [Own(f)] + rest[..n] + [rest[n]];
        LastOf(ActsOf(moves[..j - 1]), Asks(m)[0], before + [Own(f)] + rest[..n], rest[n]);
        i := OwnHappened(prog, data0, moves, states, j - 1, before, f, rest[..n]);
      }
    } else {
      NoActs(moves);
    }
  }

  lemma LastOf<D>(a: seq<Act<D>>, x: Act<D>, b: seq<Act<D>>, y: Act<D>)
    requires a + [x] == b + [y]
    ensures a == b && x == y
  {
    assert (a + [x])[..|a|] == a && (b + [y])[..|b|] == b;
    assert (a + [x])[|a|] == x && (b + [y])[|b|] == y;
  }

  lemma NoActs<D>(moves: seq<Move<D>>)
    ensures ActsOf(moves[..0]) == []
  {}

  /** executeOnThreadPool is as good as running the job on one worker after the other: in every reachable
      state where no call is under way the data is what the sequential replay gives, each worker has done
      every action of every call's job exactly once and in order, all actions of a call lie between the
      caller's own before and after it, and nobody is inside a job. The calls are those that the moves began,
      with their arguments. */
  lemma CallsAreSequential<D(!new)>(prog: Programs<D>, data0: seq<D>, moves: seq<Move<D>>, states: seq<State<D>>,
                             j: nat)
    requires IsRun(prog, data0, moves, states) && j <= |moves| && states[j].caller.pc == Idle
    ensures var s := states[j];
      && s.acts == ActsOf(moves[..j]) && s.data == Replay(prog, data0, ActsOf(moves[..j]))
      && |Calls(s.acts)| == s.caller.round && Ordered(s.trace, 2 * s.caller.round)
      && (forall r, w :: 0 <= r < s.caller.round && 0 <= w < |s.workers| ==> DidAll(prog, s, r, w))
      && (forall w :: 0 <= w < |s.workers| ==> s.workers[w].pc in {AtWork, InWork, InDone})
  {
    hide Inv, Replay, ActsOf;
    ActsAreMoves(prog, data0, moves, states, j);
    RunsKeepTrace(prog, data0, moves, states, j);
    IdleData(prog, data0, states[j]);
  }

  /** Move i begins the call of fn with arg, and no other call and no act of the caller's own comes before move j. */
  ghost predicate LastBegun<D>(moves: seq<Move<D>>, i: int, j: nat, fn: nat, arg: nat) {
    && 0 <= i < j <= |moves| && moves[i] == CallBegins(fn, arg)
    && forall x :: i < x < j ==> !moves[x].CallBegins? && !moves[x].CallerActs?
  }

  /** While a worker is inside a job, it is that of the last call begun: neither a stale one nor a later one, and
      with the function and the argument that the call was given. */
  lemma JobIsPresent<D(!new)>(prog: Programs<D>, data0: seq<D>, moves: seq<Move<D>>, states: seq<State<D>>, j: nat,
                       w: nat)
    requires IsRun(prog, data0, moves, states) && j <= |moves|
    requires w < |states[j].workers| && states[j].workers[w].pc == Job
    ensures var k, c, acts := states[j].workers[w], states[j].caller, ActsOf(moves[..j]);
      && InCall(c) && k.round == c.round == |Calls(acts)| - 1
      && exists i :: LastBegun(moves, i, j, k.fn, k.arg)
  {
    hide Replay, ActsOf, Calls;
    RunsKeepTrace(prog, data0, moves, states, j);
    ActsAreMoves(prog, data0, moves, states, j);
    var s := states[j];
    var job := prog(s.caller.fn, s.caller.arg);
    assert WorkerOk(s.workers[w], s.caller, job, Replay(prog, data0, Before(s))[w], s.data[w]);
    var i := LastCall(moves, j, s.caller.fn, s.caller.arg);
  }

  lemma {:induction false} LastCall<D>(moves: seq<Move<D>>, j: nat, fn: nat, arg: nat) returns (i: nat)
    requires j <= |moves| && ActsOf(moves[..j]) != []
    requires ActsOf(moves[..j])[|ActsOf(moves[..j])| - 1] == Call(fn, arg)
    ensures LastBegun(moves, i, j, fn, arg)
  {
    hide ActsOf;
    if j == 0 {
      NoActs(moves);
      assert false;
    } else {
      ActsSnoc(moves, j);
      if Asks(moves[j - 1]) == [] {
        i := LastCall(moves, j - 1, fn, arg);
      } else {
        i := j - 1;
      }
    }
  }

  /** How many of the caller's own acts come after exactly r calls. */
  ghost function Owns<D>(acts: seq<Act<D>>, r: nat): nat {
    if acts == [] then 0
    else
      var before := acts[..|acts| - 1];
      Owns(before, r) + if acts[|acts| - 1].Own? && |Calls(before)| == r then 1 else 0
  }

  /** The trace shows the caller's own acts where they were. */
  ghost predicate OwnsOk<D>(s: State<D>) {
    forall r: nat :: |Of(s.trace, 2 * r, |s.workers|)| == Owns(s.acts, r)
  }

  lemma StepKeepsOwns<D>(prog: Programs<D>, s: State<D>, m: Move<D>)
    requires CallsOk(s) && OwnsOk(s) && Enabled(s, m) && |s.workers| == |s.data|
    ensures OwnsOk(Step(prog, s, m))
  {
    hide Of, Owns, MayLeave, WorkBarrier, DoneBarrier;
    match m
    case WorkerMoves(w) => WorkerKeepsOwns(prog, s, w);
    case CallerMoves =>
    case CallBegins(fn, arg) => OwnsSnoc(s.acts, Call(fn, arg));
    case CallerActs(f) =>
      OwnsSnoc(s.acts, Own(f));
      forall r: nat ensures |Of(Step(prog, s, m).trace, 2 * r, |s.workers|)| == Owns(s.acts + [Own(f)], r) {
        OfSnoc(s.trace, Entry(2 * s.caller.round, |s.workers|, 0), 2 * r, |s.workers|);
        assert |Of(s.trace, 2 * r, |s.workers|)| == Owns(s.acts, r);
      }
  }

  lemma CallsSnoc<D>(acts: seq<Act<D>>, a: Act<D>)
    ensures Calls(acts + [a]) == Calls(acts) + if a.Call? then [(a.fn, a.arg)] else []
  {
    assert (acts + [a])[..|acts|] == acts;
  }

  lemma OwnsSnoc<D>(acts: seq<Act<D>>, a: Act<D>)
    ensures forall r: nat :: Owns(acts + [a], r) == Owns(acts, r) + if a.Own? && |Calls(acts)| == r then 1 else 0
  {
    assert (acts + [a])[..|acts|] == acts;
  }

  lemma WorkerKeepsOwns<D>(prog: Programs<D>, s: State<D>, w: nat)
    requires OwnsOk(s) && WorkerEnabled(s, w)
    ensures OwnsOk(WorkerStep(prog, s, w))
  {
    hide Of, Owns, MayLeave, WorkBarrier, DoneBarrier;
    var k, s' := s.workers[w], WorkerStep(prog, s, w);
    forall r: nat ensures Of(s'.trace, 2 * r, |s.workers|) == Of(s.trace, 2 * r, |s.workers|) {
      OfSnoc(s.trace, Entry(2 * k.round + 1, w, k.pos), 2 * r, |s.workers|);
    }
    forall r: nat ensures |Of(s'.trace, 2 * r, |s.workers|)| == Owns(s.acts, r) {
      assert |Of(s.trace, 2 * r, |s.workers|)| == Owns(s.acts, r);
    }
  }

  lemma {:induction false} RunsKeepOwns<D(!new)>(prog: Programs<D>, data0: seq<D>, moves: seq<Move<D>>,
                                          states: seq<State<D>>, j: nat)
    requires IsRun(prog, data0, moves, states) && j <= |moves|
    ensures OwnsOk(states[j])
  {
    if j > 0 {
      hide Inv, TraceOk, Enabled, Step, OwnsOk;
      RunsKeepOwns(prog, data0, moves, states, j - 1);
      RunsKeepTrace(prog, data0, moves, states, j - 1);
      Shape(prog, data0, states[j - 1]);
      StepKeepsOwns(prog, states[j - 1], moves[j - 1]);
      assert states[j] == Step(prog, states[j - 1], moves[j - 1]);
    }
  }

  lemma Shape<D>(prog: Programs<D>, data0: seq<D>, s: State<D>)
    requires Inv(prog, data0, s) && TraceOk(prog, s)
    ensures CallsOk(s) && |s.workers| == |s.data|
  {}

  // ----- Progress -----

  /** Somebody can move while a call is under way. */
  lemma NoDeadlock<D>(prog: Programs<D>, data0: seq<D>, s: State<D>)
    requires Inv(prog, data0, s) && InCall(s.caller)
    ensures CallerEnabled(s) || exists w :: 0 <= w < |s.workers| && WorkerEnabled(s, w)
  {
    hide Replay, MayLeave;
    var n, c := |s.workers|, s.caller;
    forall w | 0 <= w < n ensures InStep(s.workers[w], c) {
      assert WorkerOk(s.workers[w], c, prog(c.fn, c.arg), Replay(prog, data0, Before(s))[w], s.data[w]);
    }
    LeaveIff(WorkBarrier(s), n);
    LeaveIff(DoneBarrier(s), n);
    if c.pc in {WaitWork, WaitDone} && !CallerEnabled(s) {
      var u := if c.pc == WaitWork then WorkBarrier(s) else DoneBarrier(s);
      var w :| 0 <= w <= n && u.arrived[w] < u.arrived[n];
      LeaveIff(WorkBarrier(s), w);
      LeaveIff(DoneBarrier(s), w);
      assert WorkerEnabled(s, w);
    }
  }

  /** A bound on the moves a worker can still make in the present call, whose job has n actions. */
  function MovesLeft(k: Worker, c: Caller, n: nat): nat {
    if k.round > c.round then if k.pc == AtWork then 1 else 0
    else if k.round < c.round then n + 11
    else
      match k.pc
      case AtWork => n + 10
      case InWork => n + 9
      case AtLock => n + 8
      case ReadFunction => n + 7
      case ReadArg => n + 6
      case AtUnlock => n + 5
      case Job => 4 + if k.pos < n then n - k.pos else 0
      case AtDone => 3
      case InDone => 2
  }

  function CallerMovesLeft(pc: CallerPc): nat {
    match pc
    case Idle => 0
    case WriteLock => 8
    case SetFunction => 7
    case SetArg => 6
    case ArriveWork => 5
    case WaitWork => 4
    case WriteUnlock => 3
    case ArriveDone => 2
    case WaitDone => 1
  }

  function AllMovesLeft(ks: seq<Worker>, c: Caller, n: nat): nat {
    if ks == [] then CallerMovesLeft(c.pc) else AllMovesLeft(ks[..|ks| - 1], c, n) + MovesLeft(ks[|ks| - 1], c, n)
  }

  lemma {:induction false} MovesOfUpdate(ks: seq<Worker>, w: nat, k: Worker, c: Caller, n: nat)
    requires w < |ks|
    ensures AllMovesLeft(ks[w := k], c, n) == AllMovesLeft(ks, c, n) - MovesLeft(ks[w], c, n) + MovesLeft(k, c, n)
  {
    var m := |ks| - 1;
    if w == m {
      assert ks[w := k][..m] == ks[..m];
    } else {
      assert ks[w := k][..m] == ks[..m][w := k];
      MovesOfUpdate(ks[..m], w, k, c, n);
    }
  }

  lemma {:induction false} MovesOfCaller(ks: seq<Worker>, c: Caller, c': Caller, n: nat)
    requires c'.round == c.round
    ensures AllMovesLeft(ks, c', n) - CallerMovesLeft(c'.pc) == AllMovesLeft(ks, c, n) - CallerMovesLeft(c.pc)
  {
    if ks != [] { MovesOfCaller(ks[..|ks| - 1], c, c', n); }
  }

  lemma WorkerMovesOn<D>(prog: Programs<D>, s: State<D>, w: nat, base: D)
    requires InCall(s.caller) && WorkerEnabled(s, w)
    requires WorkerOk(s.workers[w], s.caller, prog(s.caller.fn, s.caller.arg), base, s.data[w])
    ensures var n := |prog(s.caller.fn, s.caller.arg)|;
      MovesLeft(WorkerStep(prog, s, w).workers[w], s.caller, n) < MovesLeft(s.workers[w], s.caller, n)
  {
    hide MayLeave, WorkBarrier, DoneBarrier;
    WorkerPasses(s, w);
    match s.workers[w].pc
    case AtWork =>
    case InWork =>
    case AtLock =>
    case ReadFunction =>
    case ReadArg =>
    case AtUnlock =>
    case Job =>
    case AtDone =>
    case InDone =>
  }

  /** Every call returns, whatever the order of the moves, if its job has finitely many actions: each move
      lessens the number of moves left in it. */
  lemma MovesAreBounded<D>(prog: Programs<D>, data0: seq<D>, s: State<D>, m: Move<D>)
    requires Inv(prog, data0, s) && InCall(s.caller) && Enabled(s, m)
    ensures var s', n := Step(prog, s, m), |prog(s.caller.fn, s.caller.arg)|;
      InCall(s'.caller) ==> AllMovesLeft(s'.workers, s'.caller, n) < AllMovesLeft(s.workers, s.caller, n)
  {
    hide Replay, MayLeave, WorkBarrier, DoneBarrier, AllMovesLeft, WorkerOk, MovesLeft;
    var n, c, s' := |prog(s.caller.fn, s.caller.arg)|, s.caller, Step(prog, s, m);
    match m
    case WorkerMoves(w) =>
      WorkerMovesOn(prog, s, w, Replay(prog, data0, Before(s))[w]);
      MovesOfUpdate(s.workers, w, s'.workers[w], c, n);
      assert s'.workers == s.workers[w := s'.workers[w]];
    case CallerMoves =>
      if InCall(s'.caller) { MovesOfCaller(s.workers, c, s'.caller, n); }
    case CallBegins(_, _) =>
    case CallerActs(_) =>
  }
}
