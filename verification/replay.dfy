/** The replay engine: restore a keyframe, re-drive whole epochs, then part of the target epoch. */
module ReplayEngine {
  import opened Bytes

  const WHOLE_EPOCH: U64 := 0xFFFF_FFFF_FFFF_FFFF

  /** A deterministic machine and what was recorded of it: each epoch's inputs, one per step,
      and the keyframe each epoch started from. */
  datatype Recording<!S, !I> = Recording(machine: (S, I) -> S, inputs: U64 -> seq<I>, key: U64 -> S) {
    function Len(e: U64): nat {
      |inputs(e)|
    }

    /** The recorded run of epoch e, one step after the other. */
    function After(e: U64, n: nat): S
      requires n <= Len(e)
      decreases n
    {
      if n == 0 then key(e) else machine(After(e, n - 1), inputs(e)[n - 1])
    }

    /** The recorded state `offset` steps into epoch e; an epoch has no steps past its last. */
    function StateAt(e: U64, offset: nat): S {
      After(e, if offset == WHOLE_EPOCH || offset > Len(e) then Len(e) else offset)
    }

    /** Each epoch in [lo, hi) ran into the next one's keyframe. */
    ghost predicate Contiguous(lo: U64, hi: U64) {
      forall e: U64 :: lo <= e < hi ==> key(e + 1) == StateAt(e, Len(e))
    }
  }

  function Upto<T>(s: seq<T>, n: nat): seq<T> {
    if n <= |s| then s[..n] else s
  }

  /** A step limit, where the all-ones value means the whole epoch. */
  function Limited<T>(s: seq<T>, limit: nat): seq<T> {
    if limit == WHOLE_EPOCH then s else Upto(s, limit)
  }

  function RunSteps<S, I>(machine: (S, I) -> S, s: S, ins: seq<I>): S
    decreases |ins|
  {
    if ins == [] then s else RunSteps(machine, machine(s, ins[0]), ins[1..])
  }

  /** State after re-driving epochs [e, target) whole, starting from s. */
  function Through<S, I>(rec: Recording<S, I>, s: S, e: U64, target: U64): S
    requires e <= target
    decreases target - e
  {
    if e == target then s else Through(rec, RunSteps(rec.machine, s, rec.inputs(e)), e + 1, target)
  }

  /** Where a replay from keyframe kf ends. */
  function Landed<S, I>(rec: Recording<S, I>, kf: U64, target: U64, offset: U64): S
    requires kf <= target
  {
    RunSteps(rec.machine, Through(rec, rec.key(kf), kf, target), Limited(rec.inputs(target), offset))
  }

  lemma {:induction false} RunLast<S, I>(machine: (S, I) -> S, s: S, ins: seq<I>)
    requires ins != []
    ensures RunSteps(machine, s, ins) == machine(RunSteps(machine, s, ins[..|ins| - 1]), ins[|ins| - 1])
    decreases |ins|
  {
    if |ins| == 1 {
      assert ins[1..] == [] && ins[..0] == [];
    } else {
      RunLast(machine, machine(s, ins[0]), ins[1..]);
      assert ins[1..][..|ins| - 2] == ins[..|ins| - 1][1..];
    }
  }

  /** Re-driving the first n inputs from the keyframe follows the recorded run. */
  lemma {:induction false} StepsFollow<S, I>(rec: Recording<S, I>, e: U64, n: nat)
    requires n <= rec.Len(e)
    ensures RunSteps(rec.machine, rec.key(e), rec.inputs(e)[..n]) == rec.After(e, n)
    decreases n
  {
    if n > 0 {
      StepsFollow(rec, e, n - 1);
      RunLast(rec.machine, rec.key(e), rec.inputs(e)[..n]);
      assert rec.inputs(e)[..n][..n - 1] == rec.inputs(e)[..n - 1];
    }
  }

  /** Landing at an offset is that many recorded steps. */
  lemma LimitFollows<S, I>(rec: Recording<S, I>, e: U64, offset: nat)
    ensures RunSteps(rec.machine, rec.key(e), Limited(rec.inputs(e), offset)) == rec.StateAt(e, offset)
  {
    var n := if offset == WHOLE_EPOCH || offset > rec.Len(e) then rec.Len(e) else offset;
    StepsFollow(rec, e, n);
    assert rec.inputs(e)[..n] == Limited(rec.inputs(e), offset);
  }

  /** The recorded states from one step to the next. */
  lemma StateSteps<S, I>(rec: Recording<S, I>, e: U64, n: nat)
    ensures rec.StateAt(e, 0) == rec.key(e)
    ensures n < rec.Len(e) && n + 1 < WHOLE_EPOCH ==>
              rec.StateAt(e, n + 1) == rec.machine(rec.StateAt(e, n), rec.inputs(e)[n])
    ensures n >= rec.Len(e) ==> rec.StateAt(e, n) == rec.StateAt(e, rec.Len(e))
  {
  }

  lemma {:induction false} ThroughReachesKeyframe<S, I>(rec: Recording<S, I>, e: U64, target: U64)
    requires e <= target && rec.Contiguous(e, target)
    ensures Through(rec, rec.key(e), e, target) == rec.key(target)
    decreases target - e
  {
    if e < target {
      assert Limited(rec.inputs(e), rec.Len(e)) == rec.inputs(e);
      LimitFollows(rec, e, rec.Len(e));
      ThroughReachesKeyframe(rec, e + 1, target);
    }
  }

  /** Replay from any keyframe at or before the target reaches the recorded state. */
  lemma ReplayIsRecorded<S, I>(rec: Recording<S, I>, kf: U64, target: U64, offset: U64)
    requires kf <= target && rec.Contiguous(kf, target)
    ensures Landed(rec, kf, target, offset) == rec.StateAt(target, offset)
  {
    ThroughReachesKeyframe(rec, kf, target);
    LimitFollows(rec, target, offset);
  }

  /** So the choice of keyframe does not matter. */
  lemma KeyframeChoiceIrrelevant<S, I>(rec: Recording<S, I>, k1: U64, k2: U64, target: U64, offset: U64)
    requires k1 <= k2 <= target && rec.Contiguous(k1, target)
    ensures Landed(rec, k1, target, offset) == Landed(rec, k2, target, offset)
  {
    ReplayIsRecorded(rec, k1, target, offset);
    ReplayIsRecorded(rec, k2, target, offset);
  }

  datatype Code = Ok | ErrParam | ErrRestore | ErrLoad

  /** Which keyframes restore and which epochs still have a journal. */
  datatype Retained = Retained(keyframes: set<U64>, journals: set<U64>)

  predicate Loadable(ret: Retained, lo: U64, target: U64, offset: U64) {
    (forall e: U64 :: lo <= e < target ==> e in ret.journals) && (offset > 0 ==> target in ret.journals)
  }

  /** The engine over a live machine; the three hooks act on `state` and `loaded`. */
  class Engine<S, I> {
    const rec: Recording<S, I>
    const ret: Retained
    var state: S
    var loaded: seq<I>
    var currentEpoch: U64
    var epochsRun: nat
    var done: bool

    constructor (rec: Recording<S, I>, ret: Retained, boot: S)
      ensures this.rec == rec && this.ret == ret && state == boot && !done
    {
      this.rec, this.ret, state, loaded := rec, ret, boot, [];
      currentEpoch, epochsRun, done := 0, 0, false;
    }

    method RestoreKeyframe(e: U64) returns (ok: bool)
      modifies this
      ensures ok == (e in ret.keyframes) && (ok ==> state == rec.key(e))
      ensures epochsRun == old(epochsRun) && done == old(done)
    {
      ok := e in ret.keyframes;
      if ok {
        state := rec.key(e);
      }
    }

    method LoadEpoch(e: U64) returns (ok: bool)
      modifies this
      ensures ok == (e in ret.journals) && (ok ==> loaded == rec.inputs(e)) && state == old(state)
      ensures epochsRun == old(epochsRun) && done == old(done)
    {
      ok := e in ret.journals;
      if ok {
        loaded := rec.inputs(e);
      }
    }

    /** Re-drive up to `limit` of the loaded steps. */
    method RunEpoch(limit: U64)
      modifies this
      ensures state == RunSteps(rec.machine, old(state), Limited(old(loaded), limit))
      ensures epochsRun == old(epochsRun) && done == old(done)
    {
      ghost var todo := Limited(loaded, limit);
      var n: nat := if limit == WHOLE_EPOCH || limit > |loaded| then |loaded| else limit;
      assert todo == loaded[..n] && todo[0..] == todo;
      var i := 0;
      while i < n
        invariant i <= n && loaded == old(loaded) && epochsRun == old(epochsRun) && done == old(done)
        invariant RunSteps(rec.machine, state, todo[i..]) == RunSteps(rec.machine, old(state), todo)
      {
        assert todo[i..][0] == loaded[i] && todo[i..][1..] == todo[i + 1..];
        state := rec.machine(state, loaded[i]);
        i := i + 1;
      }
      assert todo[n..] == [];
    }

    method Run(kf: U64, target: U64, offset: U64) returns (rc: Code)
      modifies this
      ensures rc == if kf > target then ErrParam
                    else if kf !in ret.keyframes then ErrRestore
                    else if !Loadable(ret, kf, target, offset) then ErrLoad
                    else Ok
      ensures rc == Ok ==> state == Landed(rec, kf, target, offset) && done && currentEpoch == target
      ensures rc == Ok && rec.Contiguous(kf, target) ==> state == rec.StateAt(target, offset)
      ensures rc == Ok ==> epochsRun == target - kf + (if offset > 0 then 1 else 0)
      ensures rc != Ok && rc != ErrParam ==> !done
      ensures rc == ErrParam ==> done == old(done) && state == old(state)
    {
      if kf > target {
        return ErrParam;
      }
      epochsRun, done := 0, false;
      var ok := RestoreKeyframe(kf);
      if !ok {
        return ErrRestore;
      }
      currentEpoch := kf;
      var e := kf;
      while e < target
        invariant kf <= e <= target && !done && epochsRun == e - kf
        invariant forall x: U64 :: kf <= x < e ==> x in ret.journals
        invariant Through(rec, state, e, target) == Through(rec, rec.key(kf), kf, target)
      {
        ok := LoadEpoch(e);
        if !ok {
          return ErrLoad;
        }
        RunEpoch(WHOLE_EPOCH);
        currentEpoch := e + 1;
        epochsRun := epochsRun + 1;
        e := e + 1;
      }
      if offset > 0 {
        ok := LoadEpoch(target);
        if !ok {
          return ErrLoad;
        }
        RunEpoch(offset);
        epochsRun := epochsRun + 1;
      } else {
        assert Limited(rec.inputs(target), offset) == [];
      }
      currentEpoch, done := target, true;
      rc := Ok;
      if rec.Contiguous(kf, target) {
        ReplayIsRecorded(rec, kf, target, offset);
      }
    }
  }
}

/** The driver's whole-epoch rule: it re-drives an epoch through its last switch point. */
module ReplayDriver {
  import opened Bytes
  import opened ReplayEngine

  function LastSwitch(pts: seq<U64>): (steps: U64)
    ensures forall i :: 0 <= i < |pts| ==> pts[i] <= steps
    ensures steps == 0 || steps in pts
  {
    if pts == [] then 0
    else
      var m := LastSwitch(pts[..|pts| - 1]);
      if pts[|pts| - 1] > m then pts[|pts| - 1] else m
  }

  /** The step count loop of the run hook. */
  method WholeSteps(pts: seq<U64>) returns (steps: U64)
    ensures steps == LastSwitch(pts)
  {
    steps := 0;
    for i := 0 to |pts|
      invariant steps == LastSwitch(pts[..i])
    {
      assert pts[..i + 1][..i] == pts[..i];
      if pts[i] > steps {
        steps := pts[i];
      }
    }
    assert pts[..|pts|] == pts;
  }

  /** Epochs [e, target) as the driver runs them. */
  function DriverThrough<S, I>(rec: Recording<S, I>, points: U64 -> seq<U64>, s: S, e: U64, target: U64): S
    requires e <= target
    decreases target - e
  {
    if e == target then s
    else DriverThrough(rec, points, RunSteps(rec.machine, s, Upto(rec.inputs(e), LastSwitch(points(e)))), e + 1, target)
  }

  /** Every epoch in [lo, hi) ended on a context switch. */
  ghost predicate EndsOnSwitch<S, I>(rec: Recording<S, I>, points: U64 -> seq<U64>, lo: U64, hi: U64) {
    forall e: U64 :: lo <= e < hi ==> LastSwitch(points(e)) == rec.Len(e)
  }

  /** Switch points are ticks of their epoch. */
  ghost predicate PointsInEpoch<S, I>(rec: Recording<S, I>, points: U64 -> seq<U64>, lo: U64, hi: U64) {
    forall e: U64 :: lo <= e < hi ==> LastSwitch(points(e)) <= rec.Len(e)
  }

  /** Then the driver re-drives exactly what the engine asks for, on every machine. */
  lemma {:induction false} DriverRunsWholeEpochs<S, I>(rec: Recording<S, I>, points: U64 -> seq<U64>, s: S, e: U64, target: U64)
    requires e <= target && EndsOnSwitch(rec, points, e, target)
    ensures DriverThrough(rec, points, s, e, target) == Through(rec, s, e, target)
    decreases target - e
  {
    if e < target {
      assert Upto(rec.inputs(e), LastSwitch(points(e))) == rec.inputs(e);
      DriverRunsWholeEpochs(rec, points, RunSteps(rec.machine, s, rec.inputs(e)), e + 1, target);
    }
  }

  /** A machine whose state is the number of steps it has taken. */
  function StepCounter<I>(inputs: U64 -> seq<I>): Recording<int, I> {
    Recording((s: int, i: I) => s + 1, inputs, _ => 0)
  }

  lemma {:induction false} CounterCounts<I>(inputs: U64 -> seq<I>, s: int, ins: seq<I>)
    ensures RunSteps(StepCounter(inputs).machine, s, ins) == s + |ins|
    decreases |ins|
  {
    if ins != [] {
      CounterCounts(inputs, s + 1, ins[1..]);
    }
  }

  lemma {:induction false} CounterFallsShort<I>(inputs: U64 -> seq<I>, points: U64 -> seq<U64>, s: int, t: int, e: U64, target: U64)
    requires e <= target && s <= t && PointsInEpoch(StepCounter(inputs), points, e, target)
    ensures DriverThrough(StepCounter(inputs), points, s, e, target) <= Through(StepCounter(inputs), t, e, target)
    ensures DriverThrough(StepCounter(inputs), points, s, e, target) == Through(StepCounter(inputs), t, e, target)
       <==> s == t && EndsOnSwitch(StepCounter(inputs), points, e, target)
    decreases target - e
  {
    if e < target {
      var rec := StepCounter(inputs);
      var n := LastSwitch(points(e));
      CounterCounts(inputs, s, Upto(inputs(e), n));
      CounterCounts(inputs, t, inputs(e));
      assert n <= rec.Len(e);
      CounterFallsShort(inputs, points, s + n, t + |inputs(e)|, e + 1, target);
      if EndsOnSwitch(rec, points, e + 1, target) && n == rec.Len(e) {
        assert EndsOnSwitch(rec, points, e, target);
      }
    }
  }

  /** The driver lands where the recording did, on a machine that tells step counts apart,
      exactly when every epoch it re-drives whole ended on a context switch. */
  lemma DriverFaithful<I>(inputs: U64 -> seq<I>, points: U64 -> seq<U64>, kf: U64, target: U64)
    requires kf <= target && PointsInEpoch(StepCounter(inputs), points, kf, target)
    ensures DriverThrough(StepCounter(inputs), points, 0, kf, target) == Through(StepCounter(inputs), 0, kf, target)
       <==> EndsOnSwitch(StepCounter(inputs), points, kf, target)
  {
    CounterFallsShort(inputs, points, 0, 0, kf, target);
  }

  /** An epoch with steps but no context switch is not re-driven at all. */
  lemma SwitchlessEpochSkipped()
    ensures var rec := StepCounter((e: U64) => [true, true, true]);
            DriverThrough(rec, _ => [], 0, 4, 5) == 0 && Through(rec, 0, 4, 5) == 3
  {
    var inputs := (e: U64) => [true, true, true];
    var rec := StepCounter(inputs);
    CounterCounts(inputs, 0, inputs(4));
    assert Upto(inputs(4), 0) == [];
    assert Through(rec, 3, 5, 5) == 3;
    assert DriverThrough(rec, _ => [], 0, 5, 5) == 0;
  }

  /** Where the driver ends: whole epochs by its rule, then the offset. */
  function DriverLanded<S, I>(rec: Recording<S, I>, points: U64 -> seq<U64>, kf: U64, target: U64, offset: U64): S
    requires kf <= target
  {
    var steps := if offset == WHOLE_EPOCH then LastSwitch(points(target)) else offset;
    RunSteps(rec.machine, DriverThrough(rec, points, rec.key(kf), kf, target), Upto(rec.inputs(target), steps))
  }

  /** From any keyframe at or before the target, on every machine, the driver reaches the recorded
      state when every epoch it re-drives whole ended on a context switch. */
  lemma DriverReachesRecorded<S, I>(rec: Recording<S, I>, points: U64 -> seq<U64>, kf: U64, target: U64, offset: U64)
    requires kf <= target && rec.Contiguous(kf, target) && EndsOnSwitch(rec, points, kf, target)
    requires offset == WHOLE_EPOCH ==> LastSwitch(points(target)) == rec.Len(target)
    ensures DriverLanded(rec, points, kf, target, offset) == rec.StateAt(target, offset)
  {
    DriverRunsWholeEpochs(rec, points, rec.key(kf), kf, target);
    ReplayIsRecorded(rec, kf, target, offset);
    assert Upto(rec.inputs(target), rec.Len(target)) == rec.inputs(target);
  }
}
