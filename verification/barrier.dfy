/** The quiescent-point barrier: every CPU parks before a checkpoint is taken. */
module Barrier {
  const MAX_CPUS: nat := 8

  datatype Phase = Idle | Armed | Quiescent

  datatype Op =
    | Arm
    | Park(cpu: nat, canPark: bool)
    | Unpark(cpu: nat)
    | Release

  /** The reference machine: which CPUs are parked, as a set. */
  datatype Spec = Spec(phase: Phase, ncpus: nat, parked: set<nat>)

  function Everyone(n: nat): (s: set<nat>)
    ensures |s| == n && forall i :: i in s <==> 0 <= i < n
  {
    if n == 0 then {} else Everyone(n - 1) + {n - 1}
  }

  function Clamp(ncpus: nat): (n: nat)
    ensures 1 <= n <= MAX_CPUS
  {
    if ncpus < 1 then 1 else if ncpus > MAX_CPUS then MAX_CPUS else ncpus
  }

  function Start(ncpus: nat): Spec {
    Spec(Idle, Clamp(ncpus), {})
  }

  /** The next state and what the call returns. */
  function Next(b: Spec, op: Op): (Spec, bool) {
    match op
    case Arm => if b.phase == Idle then (Spec(Armed, b.ncpus, {}), true) else (b, false)
    case Park(cpu, canPark) =>
      if cpu >= b.ncpus || b.phase != Armed || !canPark || cpu in b.parked then (b, false)
      else
        var p := b.parked + {cpu};
        if p == Everyone(b.ncpus) then (Spec(Quiescent, b.ncpus, p), true) else (b.(parked := p), false)
    case Unpark(cpu) =>
      if cpu >= b.ncpus || b.phase == Idle || cpu !in b.parked then (b, false)
      else (Spec(Armed, b.ncpus, b.parked - {cpu}), false)
    case Release => (Spec(Idle, b.ncpus, {}), false)
  }

  ghost predicate Safe(b: Spec) {
    && 1 <= b.ncpus <= MAX_CPUS && b.parked <= Everyone(b.ncpus)
    && (b.phase == Quiescent <==> b.parked == Everyone(b.ncpus))
    && (b.phase == Idle ==> b.parked == {})
  }

  function Run(b: Spec, ops: seq<Op>): Spec
    decreases |ops|
  {
    if ops == [] then b else Run(Next(b, ops[0]).0, ops[1..])
  }

  /** Each call keeps the barrier safe; only a parking CPU that is allowed to park is added, and
      only the call that completes quiescence returns true from park. */
  lemma NextSafe(b: Spec, op: Op)
    requires Safe(b)
    ensures Safe(Next(b, op).0) && Next(b, op).0.ncpus == b.ncpus
    ensures forall c :: c in Next(b, op).0.parked && c !in b.parked ==> op == Park(c, true)
    ensures op.Park? ==>
              (Next(b, op).1 <==> b.phase != Quiescent && Next(b, op).0.phase == Quiescent)
  {
    assert 0 in Everyone(b.ncpus);
    if op.Unpark? && op.cpu in b.parked {
      assert op.cpu !in b.parked - {op.cpu} && op.cpu in Everyone(b.ncpus);
    }
  }

  lemma {:induction false} RunSafe(b: Spec, ops: seq<Op>)
    requires Safe(b)
    ensures Safe(Run(b, ops)) && Run(b, ops).ncpus == b.ncpus
    decreases |ops|
  {
    if ops != [] {
      NextSafe(b, ops[0]);
      RunSafe(Next(b, ops[0]).0, ops[1..]);
    }
  }

  /** An arming request that no release has undone. */
  ghost predicate ArmedAt(ops: seq<Op>, a: nat) {
    a < |ops| && ops[a] == Arm && forall j :: a < j < |ops| ==> ops[j] != Release
  }

  /** A park of this CPU, with no lock held, since such a request, and no unpark of it after. */
  ghost predicate ParkedAt(ops: seq<Op>, c: nat, a: nat, i: nat) {
    && ArmedAt(ops, a) && a < i < |ops| && ops[i] == Park(c, true)
    && forall j :: i < j < |ops| ==> ops[j] != Unpark(c)
  }

  ghost predicate UnderArms(ops: seq<Op>) {
    exists a :: ArmedAt(ops, a)
  }

  ghost predicate HasParked(ops: seq<Op>, c: nat) {
    exists a, i :: ParkedAt(ops, c, a, i)
  }

  lemma StartSafe(n: nat)
    ensures Safe(Start(n))
  {
    assert 0 in Everyone(Clamp(n));
  }

  lemma ArmedStep(ops: seq<Op>)
    requires ops != []
    ensures
      var init, op := ops[..|ops| - 1], ops[|ops| - 1];
      UnderArms(ops) <==> op == Arm || (UnderArms(init) && op != Release)
  {
    var init, op := ops[..|ops| - 1], ops[|ops| - 1];
    if UnderArms(ops) && op != Arm {
      var a :| ArmedAt(ops, a);
      assert ArmedAt(init, a);
    } else if op == Arm {
      assert ArmedAt(ops, |ops| - 1);
    } else if UnderArms(init) && op != Release {
      var a :| ArmedAt(init, a);
      assert ArmedAt(ops, a);
    }
  }

  lemma ParkedStep(ops: seq<Op>, c: nat)
    requires ops != []
    ensures
      var init, op := ops[..|ops| - 1], ops[|ops| - 1];
      HasParked(ops, c) <==> (if op == Park(c, true) then UnderArms(init)
                              else HasParked(init, c) && op != Unpark(c) && op != Release)
  {
    var init, op := ops[..|ops| - 1], ops[|ops| - 1];
    if HasParked(ops, c) {
      var a, i :| ParkedAt(ops, c, a, i);
      assert ArmedAt(init, a);
      if op != Park(c, true) {
        assert ParkedAt(init, c, a, i);
      }
    }
    if op == Park(c, true) && UnderArms(init) {
      var a :| ArmedAt(init, a);
      assert ArmedAt(ops, a);
      assert ParkedAt(ops, c, a, |ops| - 1);
    } else if HasParked(init, c) && op != Unpark(c) && op != Release {
      var a, i :| ParkedAt(init, c, a, i);
      assert ArmedAt(ops, a);
      assert ParkedAt(ops, c, a, i);
    }
  }

  lemma HasParkedArmed(ops: seq<Op>, c: nat)
    requires HasParked(ops, c)
    ensures UnderArms(ops)
  {
  }

  /** The history decides the state: a checkpoint is under way exactly since an arming request
      that was not released, and a CPU is parked exactly if it parked since. */
  lemma {:induction false} HistoryDecides(n: nat, ops: seq<Op>, c: nat)
    ensures Run(Start(n), ops).phase != Idle <==> UnderArms(ops)
    ensures c in Run(Start(n), ops).parked <==> c < Clamp(n) && HasParked(ops, c)
    decreases |ops|
  {
    hide UnderArms, HasParked, Everyone;
    RunSplit(Start(n), ops);
    if ops == [] {
      NoHistory(ops, c);
    } else {
      var init, op := ops[..|ops| - 1], ops[|ops| - 1];
      HistoryDecides(n, init, c);
      StartSafe(n);
      RunSafe(Start(n), init);
      ArmedStep(ops);
      ParkedStep(ops, c);
      if HasParked(init, c) {
        HasParkedArmed(init, c);
      }
      assert c in Everyone(Clamp(n)) <==> c < Clamp(n);
    }
  }

  lemma NoHistory(ops: seq<Op>, c: nat)
    requires ops == []
    ensures !UnderArms(ops) && !HasParked(ops, c)
  {
  }

  lemma {:induction false} RunSplit(b: Spec, ops: seq<Op>)
    ensures ops != [] ==> Run(b, ops) == Next(Run(b, ops[..|ops| - 1]), ops[|ops| - 1]).0
    decreases |ops|
  {
    if |ops| == 1 {
      assert ops[1..] == [] && ops[..0] == [];
    } else if |ops| > 1 {
      RunSplit(Next(b, ops[0]).0, ops[1..]);
      assert ops[1..][..|ops| - 2] == ops[..|ops| - 1][1..];
    }
  }

  /** Arming is granted exactly when no earlier grant is still unreleased. */
  lemma ArmAnswers(n: nat, ops: seq<Op>)
    ensures Next(Run(Start(n), ops), Arm).1 <==> !UnderArms(ops)
  {
    hide UnderArms, HasParked, Run;
    HistoryDecides(n, ops, 0);
  }

  /** A park completes the barrier exactly when the others have all parked already and it counts. */
  lemma ParkAnswers(n: nat, ops: seq<Op>, c: nat, canPark: bool)
    ensures Next(Run(Start(n), ops), Park(c, canPark)).1 <==>
            && canPark && c < Clamp(n) && UnderArms(ops) && !HasParked(ops, c)
            && forall o: nat :: o < Clamp(n) && o != c ==> HasParked(ops, o)
  {
    hide UnderArms, HasParked, Run, Everyone;
    StartSafe(n);
    RunSafe(Start(n), ops);
    var b := Run(Start(n), ops);
    forall o: nat ensures (b.phase != Idle <==> UnderArms(ops)) && (o in b.parked <==> o < Clamp(n) && HasParked(ops, o)) {
      HistoryDecides(n, ops, o);
    }
    assert c in Everyone(Clamp(n)) <==> c < Clamp(n);
    var all := Everyone(Clamp(n));
    if c < Clamp(n) && forall o: nat :: o < Clamp(n) && o != c ==> HasParked(ops, o) {
      assert b.parked + {c} == all;
    } else if c < Clamp(n) {
      var o: nat :| o < Clamp(n) && o != c && !HasParked(ops, o);
      assert o in all && o !in b.parked + {c};
    }
  }

  /** In every interleaving: the barrier is quiescent exactly when every CPU has parked, without a
      lock, since an arming request that was not released, and has not backed out since. */
  lemma QuiescentMeansAllParked(n: nat, ops: seq<Op>)
    ensures var b := Run(Start(n), ops);
            && Safe(b) && b.ncpus == Clamp(n)
            && (b.phase == Quiescent <==> forall c: nat :: c < Clamp(n) ==> HasParked(ops, c))
  {
    hide HasParked, Everyone;
    StartSafe(n);
    RunSafe(Start(n), ops);
    var b := Run(Start(n), ops);
    hide Run;
    forall c: nat ensures c in b.parked <==> c < Clamp(n) && HasParked(ops, c) {
      HistoryDecides(n, ops, c);
    }
    if b.phase == Quiescent {
      forall c: nat | c < Clamp(n) ensures HasParked(ops, c) {
        assert c in Everyone(Clamp(n));
      }
    }
    if forall c: nat :: c < Clamp(n) ==> HasParked(ops, c) {
      assert b.parked == Everyone(Clamp(n));
    }
  }

  lemma CardinalityDecides(s: set<nat>, n: nat)
    requires s <= Everyone(n)
    ensures |s| <= n
    ensures |s| == n <==> s == Everyone(n)
  {
    var rest := Everyone(n) - s;
    assert Everyone(n) == s + rest;
    assert |s| + |rest| == n;
    if rest == {} {
      assert s == Everyone(n);
    }
  }

  /** The barrier with its counter and flags, as the kernel keeps it. */
  class CheckpointBarrier {
    var phase: Phase
    const ncpus: nat
    var parked: nat
    const isParked: array<bool>

    ghost function Flags(): set<nat>
      reads isParked
    {
      set i | 0 <= i < isParked.Length && isParked[i]
    }

    ghost function View(): Spec
      reads this, isParked
    {
      Spec(phase, ncpus, Flags())
    }

    /** The counter is the number of raised flags. */
    ghost predicate Valid()
      reads this, isParked
    {
      isParked.Length == MAX_CPUS && Safe(View()) && parked == |Flags()|
    }

    constructor (ncpus: nat)
      ensures Valid() && View() == Start(ncpus) && fresh(isParked)
    {
      phase, this.ncpus, parked := Idle, Clamp(ncpus), 0;
      isParked := new bool[8](_ => false);
      new;
      assert Flags() == {};
      assert 0 in Everyone(this.ncpus);
    }

    method LowerAll()
      requires isParked.Length == MAX_CPUS
      modifies isParked
      ensures Flags() == {}
    {
      for i := 0 to MAX_CPUS
        invariant forall j :: 0 <= j < i ==> !isParked[j]
      {
        isParked[i] := false;
      }
    }

    method RequestCheckpoint() returns (armed: bool)
      requires Valid()
      modifies this, isParked
      ensures Valid() && (View(), armed) == Next(old(View()), Arm)
    {
      if phase != Idle {
        return false;
      }
      phase, parked := Armed, 0;
      LowerAll();
      assert 0 in Everyone(ncpus);
      armed := true;
    }

    method ParkCpu(cpu: nat, canPark: bool) returns (complete: bool)
      requires Valid()
      modifies this, isParked
      ensures Valid() && (View(), complete) == Next(old(View()), Park(cpu, canPark))
    {
      hide Everyone;
      ghost var was := View();
      assert cpu < MAX_CPUS ==> (cpu in was.parked <==> isParked[cpu]);
      if cpu >= ncpus || phase != Armed || !canPark || isParked[cpu] {
        return false;
      }
      NextSafe(was, Park(cpu, canPark));
      isParked[cpu] := true;
      ghost var now := was.parked + {cpu};
      assert Flags() == now;
      assert cpu in Everyone(ncpus);
      CardinalityDecides(now, ncpus);
      parked := parked + 1;
      assert Flags() == now;
      if parked >= ncpus {
        phase := Quiescent;
        assert View() == Spec(Quiescent, ncpus, now);
        return true;
      }
      assert View() == Spec(Armed, ncpus, now);
      complete := false;
    }

    method UnparkCpu(cpu: nat)
      requires Valid()
      modifies this, isParked
      ensures Valid() && View() == Next(old(View()), Unpark(cpu)).0
    {
      hide Everyone;
      ghost var was := View();
      assert cpu < MAX_CPUS ==> (cpu in was.parked <==> isParked[cpu]);
      if cpu >= ncpus || phase == Idle || !isParked[cpu] {
        return;
      }
      NextSafe(was, Unpark(cpu));
      isParked[cpu] := false;
      ghost var now := was.parked - {cpu};
      assert Flags() == now;
      if parked > 0 {
        parked := parked - 1;
      }
      if phase == Quiescent {
        phase := Armed;
      }
      assert View() == Spec(Armed, ncpus, now);
    }

    method ReleaseAll()
      requires Valid()
      modifies this, isParked
      ensures Valid() && View() == Next(old(View()), Release).0
    {
      phase, parked := Idle, 0;
      LowerAll();
      assert 0 in Everyone(ncpus);
    }
  }
}
