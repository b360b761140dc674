/** Checkpoints are invisible to programs: over every run, with takes, write faults and commits
    anywhere in it, memory and processes are what the events alone make of them. */
module ProgramView {
  import opened Bytes
  import opened SnapshotStore
  import opened CheckpointEngine

  /** A page as its program knows it. */
  datatype Owned = Owned(present: bool, writable: bool, contents: Page)

  /** The machine without an engine. */
  datatype World = World(pages: map<Key, Owned>, procs: set<U32>, ctx: map<U32, Context>)

  function Seen(s: State): World {
    World(map k | k in s.mem :: Owned(s.mem[k].pte.present, s.mem[k].regionWritable, s.mem[k].contents),
          (set p | p in s.procs), s.ctx)
  }

  /** What an event does where no page is ever tagged and nothing is ever captured. */
  function Does(w: World, ev: Event): World {
    match ev
    case Store(k, data) =>
      if k in w.pages && w.pages[k].present && w.pages[k].writable
      then w.(pages := w.pages[k := w.pages[k].(contents := data)]) else w
    case MapPage(k, rw, data) =>
      if k in w.pages || k.pid !in w.procs then w else w.(pages := w.pages[k := Owned(true, rw, data)])
    case Unmap(k) => w.(pages := w.pages - {k})
    case Spawn(pid, c) => if pid in w.procs then w else w.(procs := w.procs + {pid}, ctx := w.ctx[pid := c])
    case Exit(pid) =>
      World(map k | k in w.pages && k.pid != pid :: w.pages[k], w.procs - {pid}, w.ctx - {pid})
    case SaveContext(pid, c) => if pid in w.ctx then w.(ctx := w.ctx[pid := c]) else w
    case Share(_) => w
    case KernelBlob(_, _, _) => w
  }

  function DoesAll(w: World, evs: seq<Event>): World
    decreases |evs|
  {
    if evs == [] then w else DoesAll(Does(w, evs[0]), evs[1..])
  }

  lemma StoreSeen(s: State, k: Key, data: Page)
    requires Valid(s)
    ensures Seen(StorePage(s, k, data)) == Does(Seen(s), Store(k, data))
  {
    hide Distinct, CaptureOk;
    if k in s.mem {
      assert PageOk(s.mem[k]);
    }
    var a, b := Seen(StorePage(s, k, data)), Does(Seen(s), Store(k, data));
    assert a.pages == b.pages;
  }

  lemma MapSeen(s: State, k: Key, rw: bool, data: Page)
    requires Valid(s)
    ensures Seen(Happen(s, MapPage(k, rw, data))) == Does(Seen(s), MapPage(k, rw, data))
  {
    hide Valid;
  }

  lemma GoneSeen(s: State, ev: Event)
    requires ev.Unmap? || ev.Exit?
    ensures Seen(Happen(s, ev)) == Does(Seen(s), ev)
  {
    var a, b := Seen(Happen(s, ev)), Does(Seen(s), ev);
    assert a.pages == b.pages;
    assert a.procs == b.procs;
  }

  lemma ProcessSeen(s: State, ev: Event)
    requires ev.Spawn? || ev.SaveContext? || ev.KernelBlob? || ev.Share?
    ensures Seen(Happen(s, ev)) == Does(Seen(s), ev)
  {
    var a, b := Seen(Happen(s, ev)), Does(Seen(s), ev);
    assert a.pages == b.pages;
    assert a.procs == b.procs;
  }

  lemma HappenSeen(s: State, ev: Event)
    requires Valid(s)
    ensures Seen(Happen(s, ev)) == Does(Seen(s), ev)
  {
    if ev.Store? {
      StoreSeen(s, ev.key, ev.data);
    } else {
      hide Valid, Happen, Does, Seen;
      if ev.MapPage? {
        MapSeen(s, ev.key, ev.regionWritable, ev.data);
      } else if ev.Unmap? || ev.Exit? {
        GoneSeen(s, ev);
      } else {
        ProcessSeen(s, ev);
      }
    }
  }

  lemma {:induction false} RunSeen(s: State, evs: seq<Event>)
    requires Valid(s)
    ensures Seen(Run(s, evs)) == DoesAll(Seen(s), evs)
    decreases |evs|
  {
    hide Valid, Happen, Does, Seen;
    if evs != [] {
      HappenSeen(s, evs[0]);
      HappenValid(s, evs[0]);
      RunSeen(Happen(s, evs[0]), evs[1..]);
    }
  }

  lemma TakeSeen(s: State)
    requires Valid(s)
    ensures Seen(Take(s)) == Seen(s)
  {
    hide Distinct, CaptureOk, ContextRecords;
  }

  lemma CommitSeen(s: State)
    ensures Seen(AfterCommit(s)) == Seen(s)
  {
  }

  lemma {:induction false} DoesJoin(w: World, a: seq<Event>, b: seq<Event>)
    ensures DoesAll(w, a + b) == DoesAll(DoesAll(w, a), b)
    decreases |a|
  {
    hide Does;
    if a == [] {
      assert a + b == b;
    } else {
      assert (a + b)[1..] == a[1..] + b;
      DoesJoin(Does(w, a[0]), a[1..], b);
    }
  }

  /** Everything that happened in a run, in order. */
  function History(cs: seq<Cycle>): seq<Event> {
    if cs == [] then [] else cs[0].closed + cs[0].open + History(cs[1..])
  }

  lemma CycleSeen(s: State, c: Cycle)
    requires Ready(s)
    ensures Seen(WritebackPoint(s, c)) == DoesAll(Seen(s), c.closed + c.open)
  {
    hide Valid, Seen, Run, Take;
    RunValid(s, c.closed);
    RunSeen(s, c.closed);
    var m := TakePoint(s, c);
    WalkMapped(m);
    TakeValid(m);
    TakeSeen(m);
    RunSeen(Take(m), c.open);
    DoesJoin(Seen(s), c.closed, c.open);
  }

  /** After any number of checkpoints the machine is what its history makes of it. */
  lemma {:induction false} CyclesSeen(boot: State, cs: seq<Cycle>)
    requires Ready(boot)
    ensures Seen(RunCycles(boot, cs)) == DoesAll(Seen(boot), History(cs))
    decreases |cs|
  {
    hide Seen, WritebackPoint, Ready;
    if cs != [] {
      var t := WritebackPoint(boot, cs[0]);
      CycleSeen(boot, cs[0]);
      CommitSeen(t);
      CommitReady(t);
      CyclesSeen(AfterCommit(t), cs[1..]);
      DoesJoin(Seen(boot), cs[0].closed + cs[0].open, History(cs[1..]));
    }
  }

  /** And so it is at every point of an open epoch, and of a closed one. */
  lemma EngineInvisible(boot: State, before: seq<Cycle>, closed: seq<Event>, open: seq<Event>)
    requires Ready(boot)
    ensures
      var s := RunCycles(boot, before);
      && Seen(Run(s, closed)) == DoesAll(Seen(boot), History(before) + closed)
      && Seen(WritebackPoint(s, Cycle(closed, open))) == DoesAll(Seen(boot), History(before) + (closed + open))
  {
    hide Seen, Valid, Run, WritebackPoint, DoesAll;
    var s := RunCycles(boot, before);
    CyclesSeen(boot, before);
    RunSeen(s, closed);
    CycleSeen(s, Cycle(closed, open));
    DoesJoin(Seen(boot), History(before), closed);
    DoesJoin(Seen(boot), History(before), closed + open);
  }

  lemma {:induction false} UntouchedStays(w: World, evs: seq<Event>, k: Key)
    requires k in w.pages && FirstTouch(evs, k) == Untouched
    ensures k in DoesAll(w, evs).pages && DoesAll(w, evs).pages[k] == w.pages[k]
    decreases |evs|
  {
    if evs != [] {
      UntouchedStays(Does(w, evs[0]), evs[1..], k);
    }
  }

  /** So a page holds its last store, whatever checkpoints came in between. */
  lemma LastStoreHolds(boot: State, cs: seq<Cycle>, past: seq<Event>, k: Key, data: Page, since: seq<Event>)
    requires Ready(boot) && History(cs) == past + ([Store(k, data)] + since)
    requires FirstTouch(since, k) == Untouched
    requires var w := DoesAll(Seen(boot), past); k in w.pages && w.pages[k].present && w.pages[k].writable
    ensures k in RunCycles(boot, cs).mem && RunCycles(boot, cs).mem[k].contents == data
  {
    hide Ready, RunCycles, FirstTouch;
    CyclesSeen(boot, cs);
    var w := DoesAll(Seen(boot), past);
    DoesJoin(Seen(boot), past, [Store(k, data)] + since);
    DoesJoin(w, [Store(k, data)], since);
    assert [Store(k, data)][1..] == [];
    UntouchedStays(Does(w, Store(k, data)), since, k);
    assert Seen(RunCycles(boot, cs)).pages[k].contents == data;
  }
}
