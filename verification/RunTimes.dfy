/** The run-time ring of a thread list: src/pumakernel.c:67-72, include/internal/pumathreadlist.h:7-33. */
module RunTimes {
  const NUM_KERNEL_RUNTIMES: nat := 5

  /** kernelRunTimes, nextRunTimeSlot, lastNRunTime and latestRunTime. */
  datatype Ring = Ring(times: seq<real>, next: nat, lastN: real, latest: real)

  predicate Proper(r: Ring) { |r.times| == NUM_KERNEL_RUNTIMES && r.next < NUM_KERNEL_RUNTIMES }

  const ZERO: Ring := Ring([0.0, 0.0, 0.0, 0.0, 0.0], 0, 0.0, 0.0)

  /** The six assignments after a kernel pass that took t seconds. */
  function Record(r: Ring, t: real): (r': Ring)
    requires Proper(r)
    ensures Proper(r')
  {
    Ring(r.times[r.next := t], (r.next + 1) % NUM_KERNEL_RUNTIMES, r.lastN - r.times[r.next] + t, t)
  }

  /** A zeroed ring after passes that took ts. */
  function Recorded(ts: seq<real>): (r: Ring)
    ensures Proper(r)
  {
    if ts == [] then ZERO else Record(Recorded(ts[..|ts| - 1]), ts[|ts| - 1])
  }

  function Sum(ts: seq<real>): real {
    if ts == [] then 0.0 else Sum(ts[..|ts| - 1]) + ts[|ts| - 1]
  }

  /** The last five run times, or all of them when there are fewer. */
  function Window(ts: seq<real>): seq<real> {
    if |ts| <= NUM_KERNEL_RUNTIMES then ts else ts[|ts| - NUM_KERNEL_RUNTIMES..]
  }

  lemma {:induction false} SumOfConcat(a: seq<real>, b: seq<real>)
    ensures Sum(a + b) == Sum(a) + Sum(b)
  {
    if b == [] {
      assert a + b == a;
    } else {
      SumOfConcat(a, b[..|b| - 1]);
      assert (a + b)[..|a + b| - 1] == a + b[..|b| - 1];
    }
  }

  lemma SumOfOne(x: real)
    ensures Sum([x]) == x
  {
    assert [x][..0] == [];
  }

  /** The slots from the oldest to the newest. */
  function Ordered(r: Ring): seq<real>
    requires Proper(r)
  {
    r.times[r.next..] + r.times[..r.next]
  }

  const ZEROS: seq<real> := [0.0, 0.0, 0.0, 0.0, 0.0]

  lemma RecordShifts(r: Ring, t: real)
    requires Proper(r)
    ensures Ordered(Record(r, t)) == Ordered(r)[1..] + [t]
  {}

  /** The ring holds the last five of five zeros followed by all run times, and their sum. */
  lemma {:induction false} RingContents(ts: seq<real>)
    ensures Ordered(Recorded(ts)) == (ZEROS + ts)[|ts|..]
    ensures Recorded(ts).lastN == Sum(Ordered(Recorded(ts)))
  {
    hide Sum;
    if ts == [] {
      ZeroRing();
      assert (ZEROS + ts)[0..] == ZEROS;
    } else {
      hide Ordered, Record;
      var n, t := |ts| - 1, ts[|ts| - 1];
      RingContents(ts[..n]);
      RecordShifts(Recorded(ts[..n]), t);
      RecordKeepsSum(Recorded(ts[..n]), t);
      OneLater(ts);
    }
  }

  lemma OneLater(ts: seq<real>)
    requires ts != []
    ensures var n := |ts| - 1; (ZEROS + ts)[|ts|..] == (ZEROS + ts[..n])[n..][1..] + [ts[n]]
  {}

  lemma ZeroRing()
    ensures Ordered(ZERO) == ZEROS && Sum(ZEROS) == 0.0
  {
    SumOfZeros(5);
    assert ZEROS == seq(5, _ => 0.0);
    assert Ordered(ZERO) == ZEROS;
  }

  lemma RecordKeepsSum(r: Ring, t: real)
    requires Proper(r) && r.lastN == Sum(Ordered(r))
    ensures Record(r, t).lastN == Sum(Ordered(Record(r, t)))
  {
    RecordShifts(r, t);
    var s := Ordered(r);
    assert s == [s[0]] + s[1..];
    SumOfConcat([s[0]], s[1..]);
    SumOfConcat(s[1..], [t]);
    SumOfOne(s[0]);
    SumOfOne(t);
  }

  lemma {:induction false} SumOfZeros(m: nat)
    ensures Sum(seq(m, _ => 0.0)) == 0.0
  {
    if m > 0 {
      SumOfZeros(m - 1);
      assert seq(m, _ => 0.0)[..m - 1] == seq(m - 1, _ => 0.0);
    }
  }

  /** However many passes there were, lastNRunTime is the sum of the last five, or of all if fewer. */
  lemma LastNIsWindowSum(ts: seq<real>)
    ensures Recorded(ts).lastN == Sum(Window(ts))
  {
    RingContents(ts);
    var n := |ts|;
    if n < 5 {
      var zeros := seq(5 - n, _ => 0.0);
      assert (ZEROS + ts)[n..] == zeros + ts;
      SumOfZeros(5 - n);
      SumOfConcat(zeros, ts);
    } else {
      assert (ZEROS + ts)[n..] == Window(ts);
    }
  }

  /** Non-negative passes give a non-negative window. */
  lemma LastNNonNegative(ts: seq<real>)
    requires forall j :: 0 <= j < |ts| ==> ts[j] >= 0.0
    ensures Recorded(ts).lastN >= 0.0
  {
    LastNIsWindowSum(ts);
    SumNonNegative(Window(ts));
  }

  lemma {:induction false} SumNonNegative(ts: seq<real>)
    requires forall j :: 0 <= j < |ts| ==> ts[j] >= 0.0
    ensures Sum(ts) >= 0.0
  {
    if ts != [] { SumNonNegative(ts[..|ts| - 1]); }
  }

  /** The run-time fields of a thread list. history is every run time recorded so far. */
  class RunTimeRing {
    const kernelRunTimes: array<real>
    var nextRunTimeSlot: nat
    var lastNRunTime: real
    var latestRunTime: real
    ghost var history: seq<real>

    ghost function Value(): Ring
      reads this, kernelRunTimes
    {
      Ring(kernelRunTimes[..], nextRunTimeSlot, lastNRunTime, latestRunTime)
    }

    ghost predicate Valid()
      reads this, kernelRunTimes
    {
      Value() == Recorded(history)
    }

    constructor ()
      ensures Valid() && history == [] && fresh(kernelRunTimes)
    {
      kernelRunTimes := new real[NUM_KERNEL_RUNTIMES](_ => 0.0);
      nextRunTimeSlot, lastNRunTime, latestRunTime := 0, 0.0, 0.0;
      history := [];
      new;
      assert kernelRunTimes[..] == ZEROS;
    }

    /** src/pumakernel.c:67-72, after a pass that took elapsed seconds. */
    method RecordRunTime(elapsed: real)
      requires Valid()
      modifies this, kernelRunTimes
      ensures Valid() && history == old(history) + [elapsed]
      ensures lastNRunTime == Sum(Window(history)) && latestRunTime == elapsed
    {
      assert Value() == Recorded(history);
      lastNRunTime := lastNRunTime - kernelRunTimes[nextRunTimeSlot];
      kernelRunTimes[nextRunTimeSlot] := elapsed;
      lastNRunTime := lastNRunTime + kernelRunTimes[nextRunTimeSlot];
      latestRunTime := kernelRunTimes[nextRunTimeSlot];
      nextRunTimeSlot := nextRunTimeSlot + 1;
      nextRunTimeSlot := nextRunTimeSlot % NUM_KERNEL_RUNTIMES;
      assert kernelRunTimes[..] == old(kernelRunTimes[..])[old(nextRunTimeSlot) := elapsed];
      assert (history + [elapsed])[..|history|] == history;
      history := history + [elapsed];
      LastNIsWindowSum(history);
    }
  }
}
