/** The checkpoint engine as the kernel runs it: state updated in place, the timer that triggers
    takes through the barrier, and the writeback that streams an epoch to the store. */
module CheckpointKernel {
  import opened Bytes
  import opened Disk
  import opened SnapshotStore
  import opened CheckpointEngine
  import opened Barrier

  /** Pages a take newly protects: writable now, in a writable region. */
  predicate Protects(p: PageState) {
    p.regionWritable && MarkPte(p.pte).1
  }

  /** The walk over every region of every live space; it counts the pages it protected. */
  method MarkPages(walk: seq<Key>, mem: map<Key, PageState>) returns (m: map<Key, PageState>, marked: nat)
    requires forall k :: k in walk <==> k in mem
    requires forall i, j :: 0 <= i < j < |walk| ==> walk[i] != walk[j]
    ensures m == map k | k in mem :: Marked(mem[k])
    ensures marked == |set k | k in mem && Protects(mem[k])|
  {
    hide MarkPte, Marked, Protects;
    m, marked := mem, 0;
    ghost var seen, done := {}, {};
    for i := 0 to |walk|
      invariant m.Keys == mem.Keys
      invariant forall j :: 0 <= j < |walk| ==> (walk[j] in seen <==> j < i)
      invariant forall k :: k in mem ==> m[k] == if k in seen then Marked(mem[k]) else mem[k]
      invariant marked == |done| && forall k :: k in done <==> k in seen && k in mem && Protects(mem[k])
    {
      var k := walk[i];
      MarkedOne(mem[k]);
      seen := seen + {k};
      if m[k].regionWritable {
        var (pte, changed) := MarkPte(m[k].pte);
        m := m[k := m[k].(pte := pte)];
        if changed {
          marked := marked + 1;
          done := done + {k};
        }
      }
    }
    assert done == set k | k in mem && Protects(mem[k]);
  }

  lemma MarkedOne(p: PageState)
    ensures Marked(p) == if p.regionWritable then p.(pte := MarkPte(p.pte).0) else p
    ensures Protects(p) <==> p.regionWritable && MarkPte(p.pte).1
  {
  }

  /** Contexts are captured eagerly, one after the other. */
  method PushContexts(procs: seq<U32>, ctx: map<U32, Context>, captures: seq<Record>) returns (log: seq<Record>)
    requires forall p :: p in procs ==> p in ctx
    ensures log == ContextRecords(procs, ctx) + captures
  {
    hide ContextRecord;
    log := captures;
    for i := 0 to |procs|
      invariant log == ContextRecords(procs[..i], ctx) + captures
    {
      assert procs[..i + 1][..i] == procs[..i];
      log := [ContextRecord(procs[i], ctx[procs[i]])] + log;
    }
    assert procs[..|procs|] == procs;
  }

  class Engine {
    var walk: seq<Key>
    var mem: map<Key, PageState>
    var procs: seq<U32>
    var ctx: map<U32, Context>
    var epoch: U64
    var open: bool
    var captures: seq<Record>
    var pagesMarked: nat
    var totalTakes: nat
    var timerEnabled: bool
    var timerInterval: nat
    var timerTicks: nat
    const barrier: CheckpointBarrier

    ghost function View(): State
      reads this
    {
      State(walk, mem, procs, ctx, epoch, open, captures)
    }

    /** A single CPU, and no checkpoint under way between ticks. */
    ghost predicate Ok()
      reads this, barrier, barrier.isParked
    {
      && CheckpointEngine.Valid(View()) && barrier.Valid() && barrier.ncpus == 1 && barrier.phase == Idle
      && timerInterval >= 1
    }

    constructor (barrier: CheckpointBarrier)
      requires barrier.Valid() && barrier.ncpus == 1 && barrier.phase == Idle
      ensures Ok() && Ready(View()) && epoch == 0 && this.barrier == barrier && !timerEnabled
    {
      walk, mem, procs, ctx := [], map[], [], map[];
      epoch, open, captures, pagesMarked, totalTakes := 0, false, [], 0, 0;
      timerEnabled, timerInterval, timerTicks := false, 1000, 0;
      this.barrier := barrier;
    }

    /** Mark every writable page, snapshot every context, open the epoch. */
    method TakeCheckpoint() returns (taken: U64)
      requires CheckpointEngine.Valid(View())
      modifies this
      ensures View() == Take(old(View())) && taken == epoch == NextEpoch(old(epoch))
      ensures timerEnabled == old(timerEnabled) && timerInterval == old(timerInterval) && timerTicks == old(timerTicks)
      ensures totalTakes == old(totalTakes) + 1
      ensures pagesMarked == |set k | k in old(mem) && Protects(old(mem)[k])|
    {
      hide CheckpointEngine.Valid, ContextRecords, Marked, Protects;
      WalkMapped(View());
      WalkCovers(View());
      var m, marked := MarkPages(walk, mem);
      var log := PushContexts(procs, ctx, captures);
      mem, captures := m, log;
      epoch, pagesMarked, totalTakes, open := NextEpoch(epoch), marked, totalTakes + 1, true;
      taken := epoch;
    }

    /** The page-fault hook, at any address of the page: true, and the page captured and writable,
        exactly on a tagged page. */
    method HandleWriteFault(pid: U32, addr: U64) returns (handled: bool)
      modifies this
      ensures
        var k := Key(pid, PageBase(addr));
        && (handled <==> k in old(mem) && old(mem)[k].pte.present && old(mem)[k].pte.cow)
        && View() == if handled then Fault(old(View()), k) else old(View())
    {
      var k := Key(pid, PageBase(addr));
      if k !in mem || !mem[k].pte.present || !mem[k].pte.cow {
        return false;
      }
      captures := [PageRecord(k, false, mem[k].contents)] + captures;
      mem := mem[k := mem[k].(pte := ResolvePte(mem[k].pte).0)];
      handled := true;
    }

    /** Stream the open epoch and commit it; only a commit drops the captures and closes the epoch. */
    method Writeback(dev: Device, g: Geometry) returns (rc: Code)
      requires g.Valid() && CheckpointEngine.Valid(View())
      modifies this, dev
      ensures
        var ck := Checkpoint(old(epoch), StreamOf(old(View())));
        && dev.disk == Cut(old(dev.disk), CheckpointWrites(old(dev.disk), g, ck), old(dev.budget))
        && (rc == SnapshotStore.Ok <==> Commits(old(dev.disk), g, Attempt(ck, old(dev.budget))))
      ensures View() == if rc == SnapshotStore.Ok then AfterCommit(old(View())) else old(View())
      ensures walk == old(walk) && mem == old(mem) && procs == old(procs) && ctx == old(ctx) && epoch == old(epoch)
    {
      hide CheckpointEngine.Valid, CheckpointWrites, Commits, Durable, Cut, CleanRecord;
      WalkMapped(View());
      var rs := captures;
      for i := 0 to |walk|
        modifies {}
        invariant rs == captures + CleanRecords(walk[..i], mem)
      {
        assert walk[..i + 1][..i] == walk[..i];
        rs := rs + CleanRecord(walk[i], mem[walk[i]]);
      }
      assert walk[..|walk|] == walk;
      rc := WriteCheckpoint(dev, g, Checkpoint(epoch, rs));
      if rc == SnapshotStore.Ok {
        captures, open := [], false;
      }
    }

    /** One timer tick: a checkpoint is taken exactly when the interval has elapsed and the
        previous one has been written back, so at most one is ever open. The answer says so,
        except for the take that wraps the epoch counter to 0. */
    method Tick() returns (taken: bool)
      requires Ok()
      modifies this, barrier, barrier.isParked
      ensures Ok()
      ensures
        var due := old(timerEnabled) && old(timerTicks) + 1 >= old(timerInterval) && !old(open);
        && View() == (if due then Take(old(View())) else old(View()))
        && (taken <==> due && epoch != 0)
        && timerTicks == if !old(timerEnabled) then old(timerTicks) else if due then 0 else old(timerTicks) + 1
    {
      hide CheckpointEngine.Valid, Take, Everyone;
      if !timerEnabled {
        return false;
      }
      timerTicks := timerTicks + 1;
      if timerTicks < timerInterval || open {
        return false;
      }
      timerTicks := 0;
      WalkMapped(View());
      TakeValid(View());
      AloneIsEveryone();
      var armed := barrier.RequestCheckpoint();
      var complete := barrier.ParkCpu(0, true);
      if complete {
        var e := TakeCheckpoint();
        barrier.ReleaseAll();
        return e != 0;
      }
      taken := false;
    }
  }

  lemma AloneIsEveryone()
    ensures {0} == Everyone(1)
  {
  }

  lemma WalkCovers(s: State)
    requires CheckpointEngine.Valid(s)
    ensures forall k :: k in s.walk <==> k in s.mem
    ensures forall i, j :: 0 <= i < j < |s.walk| ==> s.walk[i] != s.walk[j]
  {
  }
}
