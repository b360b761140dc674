/** Boot restore: replaying a checkpoint's records into fresh address spaces, and what a power
    cut at any sector write leaves to restore. */
module Restore {
  import opened Bytes
  import opened Disk
  import opened SnapshotStore
  import opened CheckpointEngine

  const MAX_PROCS: nat := 64
  const CONTEXT_MAX: nat := 256

  /** One restored page and whether it is mapped read-only. */
  datatype Mapped = Mapped(contents: Page, readOnly: bool)

  /** What the boot adapter has rebuilt so far. */
  datatype Rebuilt = Rebuilt(procs: set<U32>, pages: map<Key, Mapped>, ctx: map<U32, seq<Byte>>)

  const NOTHING: Rebuilt := Rebuilt({}, map[], map[])

  /** One record. A process entry is made for every record's pid, kernel tags included; there
      are 64. Mapping a page that is already mapped is an error. */
  function ApplyRecord(b: Rebuilt, r: Record): Option<Rebuilt> {
    if r.pid !in b.procs && |b.procs| >= MAX_PROCS then None
    else
      var e := b.(procs := b.procs + {r.pid});
      if IsContext(r) then Some(e.(ctx := e.ctx[r.pid := r.data[..CONTEXT_MAX]]))
      else if IsKernel(r) then Some(e)
      else if KeyOf(r) in b.pages then None
      else Some(e.(pages := e.pages[KeyOf(r) := Mapped(r.data, IsReadOnly(r))]))
  }

  function ApplyAll(b: Rebuilt, rs: seq<Record>): Option<Rebuilt>
    decreases |rs|
  {
    if rs == [] then Some(b)
    else
      var next := ApplyRecord(b, rs[0]);
      if next.None? then None else ApplyAll(next.value, rs[1..])
  }

  function Pids(rs: seq<Record>): set<U32> {
    set r | r in rs :: r.pid
  }

  ghost predicate PagesSay(pages: map<Key, Mapped>, rs: seq<Record>) {
    && (forall k :: k in pages <==> Count(rs, OfPage(k)) >= 1)
    && (forall r :: r in rs && TagOf(r) == OfPage(KeyOf(r)) ==>
          KeyOf(r) in pages && pages[KeyOf(r)] == Mapped(r.data, IsReadOnly(r)))
  }

  ghost predicate ContextsSay(ctx: map<U32, seq<Byte>>, rs: seq<Record>) {
    && (forall p :: p in ctx <==> Count(rs, OfContext(p)) >= 1)
    && (forall p :: p in ctx ==>
          exists r :: r in rs && TagOf(r) == OfContext(p) && ctx[p] == r.data[..CONTEXT_MAX])
  }

  /** What the records of a list say, taken together: one entry per page record, and a context
      record of each process that has one. */
  ghost predicate Says(b: Rebuilt, rs: seq<Record>) {
    b.procs == Pids(rs) && PagesSay(b.pages, rs) && ContextsSay(b.ctx, rs)
  }

  ghost predicate NoDuplicates(rs: seq<Record>) {
    forall k :: Count(rs, OfPage(k)) <= 1
  }

  lemma {:induction false} ApplySplit(b: Rebuilt, rs: seq<Record>)
    requires rs != []
    ensures var most := ApplyAll(b, rs[..|rs| - 1]);
            ApplyAll(b, rs) == if most.None? then None else ApplyRecord(most.value, rs[|rs| - 1])
    decreases |rs|
  {
    hide ApplyRecord;
    if |rs| == 1 {
      assert rs[1..] == [] && rs[..0] == [];
    } else {
      var next := ApplyRecord(b, rs[0]);
      assert rs[..|rs| - 1][1..] == rs[1..][..|rs| - 2];
      if next.Some? {
        ApplySplit(next.value, rs[1..]);
      }
    }
  }

  lemma PagesStep(b: Rebuilt, rs: seq<Record>, r: Record)
    requires PagesSay(b.pages, rs) && ApplyRecord(b, r).Some?
    ensures PagesSay(ApplyRecord(b, r).value.pages, rs + [r])
  {
    hide Count, IsReadOnly;
    var e, all := ApplyRecord(b, r).value, rs + [r];
    forall k ensures k in e.pages <==> Count(all, OfPage(k)) >= 1 {
      CountLast(rs, r, OfPage(k));
    }
    forall x | x in all && TagOf(x) == OfPage(KeyOf(x))
      ensures KeyOf(x) in e.pages && e.pages[KeyOf(x)] == Mapped(x.data, IsReadOnly(x))
    {
      if x in rs {
        assert KeyOf(x) in b.pages;
      }
    }
  }

  lemma ContextsStep(b: Rebuilt, rs: seq<Record>, r: Record)
    requires ContextsSay(b.ctx, rs) && ApplyRecord(b, r).Some?
    ensures ContextsSay(ApplyRecord(b, r).value.ctx, rs + [r])
  {
    hide Count, IsReadOnly;
    var e, all := ApplyRecord(b, r).value, rs + [r];
    forall p ensures p in e.ctx <==> Count(all, OfContext(p)) >= 1 {
      CountLast(rs, r, OfContext(p));
    }
    forall p | p in e.ctx
      ensures exists x :: x in all && TagOf(x) == OfContext(p) && e.ctx[p] == x.data[..CONTEXT_MAX]
    {
      if IsContext(r) && p == r.pid {
        assert r in all;
      } else {
        var x :| x in rs && TagOf(x) == OfContext(p) && b.ctx[p] == x.data[..CONTEXT_MAX];
        assert x in all;
      }
    }
  }

  lemma SaysStep(b: Rebuilt, rs: seq<Record>, r: Record)
    requires Says(b, rs) && ApplyRecord(b, r).Some?
    ensures Says(ApplyRecord(b, r).value, rs + [r])
  {
    hide PagesSay, ContextsSay;
    PagesStep(b, rs, r);
    ContextsStep(b, rs, r);
    assert Pids(rs + [r]) == Pids(rs) + {r.pid};
  }

  lemma CountLast(rs: seq<Record>, r: Record, tag: Tag)
    ensures Count(rs + [r], tag) == Count(rs, tag) + if TagOf(r) == tag then 1 else 0
  {
    hide TagOf;
    CountAppend(rs, [r], tag);
    assert [r][1..] == [];
  }

  lemma NothingSays()
    ensures Says(NOTHING, [])
  {
  }

  /** Restoring succeeds exactly when no page occurs twice and the records name at most 64
      different pids; it then rebuilds what the records say. */
  lemma {:induction false} RestoreExact(rs: seq<Record>)
    ensures ApplyAll(NOTHING, rs).Some? <==> NoDuplicates(rs) && |Pids(rs)| <= 64
    ensures ApplyAll(NOTHING, rs).Some? ==> Says(ApplyAll(NOTHING, rs).value, rs)
    decreases |rs|
  {
    hide Count, ApplyRecord, Says;
    if rs == [] {
      NothingSays();
      NoRecords(rs);
      assert Pids(rs) == {};
    } else {
      var n := |rs| - 1;
      RestoreExact(rs[..n]);
      ApplySplit(NOTHING, rs);
      assert rs == rs[..n] + [rs[n]];
      LastRecord(rs[..n], rs[n]);
      var most := ApplyAll(NOTHING, rs[..n]);
      if most.Some? {
        ApplyDecides(most.value, rs[..n], rs[n]);
        if ApplyRecord(most.value, rs[n]).Some? {
          SaysStep(most.value, rs[..n], rs[n]);
        }
      }
    }
  }

  lemma LastRecord(rs: seq<Record>, r: Record)
    ensures NoDuplicates(rs + [r]) <==> NoDuplicates(rs) && (IsPage(r) ==> Count(rs, OfPage(KeyOf(r))) == 0)
    ensures Pids(rs + [r]) == Pids(rs) + {r.pid}
    ensures |Pids(rs + [r])| <= MAX_PROCS ==> |Pids(rs)| <= MAX_PROCS
  {
    hide Count;
    forall tag ensures Count(rs + [r], tag) == Count(rs, tag) + if TagOf(r) == tag then 1 else 0 {
      CountLast(rs, r, tag);
    }
    assert Pids(rs + [r]) == Pids(rs) + {r.pid};
    assert |Pids(rs)| <= |Pids(rs) + {r.pid}| by {
      if r.pid in Pids(rs) {
        assert Pids(rs) + {r.pid} == Pids(rs);
      }
    }
    if NoDuplicates(rs + [r]) {
      forall k ensures Count(rs, OfPage(k)) <= 1 {
        assert Count(rs + [r], OfPage(k)) <= 1;
      }
      assert Count(rs + [r], OfPage(KeyOf(r))) <= 1;
    }
  }

  lemma ApplyDecides(b: Rebuilt, rs: seq<Record>, r: Record)
    requires Says(b, rs)
    ensures ApplyRecord(b, r).Some? <==>
            (r.pid in Pids(rs) || |Pids(rs)| < MAX_PROCS) && (IsPage(r) ==> Count(rs, OfPage(KeyOf(r))) == 0)
    ensures |Pids(rs)| <= MAX_PROCS ==>
              (|Pids(rs) + {r.pid}| <= MAX_PROCS <==> r.pid in Pids(rs) || |Pids(rs)| < MAX_PROCS)
  {
    hide Count;
    if r.pid in Pids(rs) {
      assert Pids(rs) + {r.pid} == Pids(rs);
    }
  }

  // ----- Resuming a moment -----

  function PagesOf(s: State): map<Key, Mapped> {
    map k | k in s.mem && s.mem[k].pte.present :: Mapped(s.mem[k].contents, !s.mem[k].regionWritable)
  }

  function Members(s: seq<U32>): set<U32> {
    set x | x in s
  }

  function Procs(s: State): set<U32> {
    Members(s.procs)
  }

  /** The 256 restored bytes are the context and zeros after it. */
  ghost predicate Carries(bytes: seq<Byte>, c: Context) {
    |bytes| == 256 && c <= bytes && forall i :: |c| <= i < 256 ==> bytes[i] == 0
  }

  /** The rebuilt machine is the moment s: its processes and no other, its pages with their
      permissions, its contexts. */
  ghost predicate Resumes(rs: seq<Record>, s: State) {
    && ApplyAll(NOTHING, rs).Some?
    && var b := ApplyAll(NOTHING, rs).value;
    && b.procs == Procs(s)
    && b.pages == PagesOf(s)
    && (forall p :: p in b.ctx <==> p in s.procs)
    && (forall p :: p in s.procs && p in s.ctx ==> p in b.ctx && Carries(b.ctx[p], s.ctx[p]))
  }

  /** The tag of every kernel record is the pid of a process. */
  ghost predicate KernelTagsIn(rs: seq<Record>, pids: set<U32>) {
    forall r :: r in rs && TagOf(r) == OfKernel ==> r.pid in pids
  }

  /** The pids of a stream that is the moment: its processes, and the kernel tags. */
  lemma FaithfulPids(rs: seq<Record>, s: State)
    requires Valid(s) && Faithful(rs, s)
    ensures Pids(rs) == Procs(s) <==> KernelTagsIn(rs, Procs(s))
  {
    hide Count, Distinct, CaptureOk;
    forall p | p in s.procs ensures p in Pids(rs) {
      assert Part(s, OfContext(p));
      CountWitness(rs, OfContext(p));
    }
    forall r | r in rs && TagOf(r) != OfKernel ensures r.pid in s.procs {
      assert Part(s, TagOf(r)) && r == RecordOf(s, TagOf(r));
    }
    if Pids(rs) == Procs(s) {
      forall r | r in rs ensures r.pid in Procs(s) {
        assert r.pid in Pids(rs);
      }
    }
  }

  lemma {:induction false} DistinctSize(s: seq<U32>)
    requires Distinct(s)
    ensures |Members(s)| == |s|
    decreases |s|
  {
    if s == [] {
      assert Members(s) == {};
    } else {
      var n := |s| - 1;
      DistinctSize(s[..n]);
      assert s == s[..n] + [s[n]];
      assert Members(s) == Members(s[..n]) + {s[n]};
    }
  }

  lemma FaithfulPages(rs: seq<Record>, s: State, pages: map<Key, Mapped>)
    requires Faithful(rs, s) && PagesSay(pages, rs)
    ensures pages == PagesOf(s)
  {
    hide Count;
    forall k ensures k in pages <==> k in PagesOf(s) {
      assert Count(rs, OfPage(k)) == if Part(s, OfPage(k)) then 1 else 0;
    }
    forall k | k in pages ensures pages[k] == PagesOf(s)[k] {
      CountWitness(rs, OfPage(k));
      var r :| r in rs && TagOf(r) == OfPage(k);
      assert r == RecordOf(s, OfPage(k));
    }
  }

  lemma FaithfulContexts(rs: seq<Record>, s: State, ctx: map<U32, seq<Byte>>)
    requires Faithful(rs, s) && ContextsSay(ctx, rs) && forall p :: p in s.procs ==> p in s.ctx
    ensures forall p :: p in ctx <==> p in s.procs
    ensures forall p :: p in s.procs ==> p in ctx && Carries(ctx[p], s.ctx[p])
  {
    hide Count;
    forall p ensures p in ctx <==> p in s.procs {
      assert Count(rs, OfContext(p)) == if Part(s, OfContext(p)) then 1 else 0;
    }
    forall p | p in s.procs ensures p in ctx && Carries(ctx[p], s.ctx[p]) {
      var r :| r in rs && TagOf(r) == OfContext(p) && ctx[p] == r.data[..CONTEXT_MAX];
      assert r == RecordOf(s, OfContext(p));
    }
  }

  lemma FaithfulResumes(rs: seq<Record>, s: State)
    requires Faithful(rs, s) && Pids(rs) == Procs(s) && |Procs(s)| <= MAX_PROCS && forall p :: p in s.procs ==> p in s.ctx
    ensures Resumes(rs, s)
  {
    hide ApplyAll, Pids, Faithful, NoDuplicates, PagesSay, ContextsSay;
    FaithfulOnce(rs, s);
    RestoreExact(rs);
    var b := ApplyAll(NOTHING, rs).value;
    FaithfulPages(rs, s, b.pages);
    FaithfulContexts(rs, s, b.ctx);
  }

  lemma ResumesCounts(rs: seq<Record>, s: State, k: Key)
    requires Resumes(rs, s)
    ensures Count(rs, OfPage(k)) == if Part(s, OfPage(k)) then 1 else 0
  {
    hide Count, ApplyAll, Pids;
    RestoreExact(rs);
    assert k in ApplyAll(NOTHING, rs).value.pages <==> k in PagesOf(s);
    assert Count(rs, OfPage(k)) <= 1;
  }

  lemma ResumesPage(rs: seq<Record>, s: State, r: Record)
    requires Resumes(rs, s) && r in rs && IsPage(r)
    ensures
      var k := KeyOf(r);
      k in s.mem && s.mem[k].pte.present && r.data == s.mem[k].contents && IsReadOnly(r) == !s.mem[k].regionWritable
  {
    hide Count, ApplyAll, Pids;
    RestoreExact(rs);
    assert ApplyAll(NOTHING, rs).value.pages[KeyOf(r)] == PagesOf(s)[KeyOf(r)];
  }

  lemma ResumesLeftover(rs: seq<Record>, s: State, r: Record)
    requires Valid(s) && Resumes(rs, s) && r in rs && r in s.captures && IsPage(r)
    ensures LeftoverRight(s, r)
  {
    hide Resumes, Distinct, PageOk;
    ResumesPage(rs, s, r);
    assert CaptureOk(r);
  }

  lemma ResumesReadOnly(s: State, t: State, k: Key)
    requires Valid(t) && Resumes(StreamOf(t), s) && ReadOnlyAt(t, k)
    ensures ReadOnlyAt(s, k) && t.mem[k].contents == s.mem[k].contents
  {
    hide Resumes, Valid, StreamOf;
    WalkMapped(t);
    ReadOnlyStreams(t, k);
    var r := PageRecord(k, true, t.mem[k].contents);
    assert IsPage(r) && IsReadOnly(r) && KeyOf(r) == k;
    ResumesPage(StreamOf(t), s, r);
  }

  lemma ResumesFits(rs: seq<Record>, s: State)
    requires Resumes(rs, s)
    ensures |Procs(s)| <= MAX_PROCS && KernelTagsIn(rs, Procs(s))
  {
    hide ApplyAll, Count;
    RestoreExact(rs);
    assert Pids(rs) == Procs(s);
    forall r | r in rs ensures r.pid in Procs(s) {
      assert r.pid in Pids(rs);
    }
  }

  /** What resumes is the moment. */
  lemma ResumesNeedsAll(s: State, evs: seq<Event>)
    requires Valid(s) && !s.open && Valid(Run(Take(s), evs)) && Resumes(StreamOf(Run(Take(s), evs)), s)
    ensures LeftoversFit(s, evs) && SameReadOnly(s, Run(Take(s), evs))
  {
    hide Valid, StreamOf, Count, Pids, Resumes, LeftoversFit, LeftoverRight, SameReadOnly, Run, Take, Pushes;
    WalkMapped(s);
    OpenRun(s, evs);
    var t := Run(Take(s), evs);
    WalkMapped(t);
    forall k ensures Count(StreamOf(t), OfPage(k)) == if Part(s, OfPage(k)) then 1 else 0 {
      ResumesCounts(StreamOf(t), s, k);
    }
    forall r | r in s.captures && IsPage(r) ensures LeftoverRight(s, r) {
      LeftoverStreams(s, t, r);
      ResumesLeftover(StreamOf(t), s, r);
    }
    forall k | ReadOnlyAt(t, k) ensures ReadOnlyAt(s, k) && t.mem[k].contents == s.mem[k].contents {
      ResumesReadOnly(s, t, k);
    }
    FaithfulNeedsAll(s, evs);
  }

  /** Every kernel tag left over or captured while the checkpoint was open is a process's pid. */
  ghost predicate TagsAreProcesses(s: State, evs: seq<Event>) {
    && KernelTagsIn(s.captures, Procs(s))
    && forall i :: 0 <= i < |evs| && evs[i].KernelBlob? ==> evs[i].tag in Procs(s)
  }

  lemma {:induction false} RunKernelTags(u: State, evs: seq<Event>, pids: set<U32>)
    ensures KernelTagsIn(Run(u, evs).captures, pids) <==>
            KernelTagsIn(u.captures, pids) && forall i :: 0 <= i < |evs| && evs[i].KernelBlob? ==> evs[i].tag in pids
    decreases |evs|
  {
    hide Happen, KernelTagsIn;
    if evs != [] {
      var v := Happen(u, evs[0]);
      RunKernelTags(v, evs[1..], pids);
      HappenKernelTags(u, evs[0], pids);
      assert forall i :: 1 <= i < |evs| ==> evs[i] == evs[1..][i - 1];
    }
  }

  lemma HappenKernelTags(u: State, ev: Event, pids: set<U32>)
    ensures KernelTagsIn(Happen(u, ev).captures, pids) <==>
            KernelTagsIn(u.captures, pids) && (ev.KernelBlob? ==> ev.tag in pids)
  {
    var v := Happen(u, ev);
    if ev.KernelBlob? {
      var r := Record(ev.tag, REC_KERNEL, ev.vaddr, ev.data);
      assert v.captures == [r] + u.captures && TagOf(r) == OfKernel;
      assert r in v.captures && forall x :: x in u.captures ==> x in v.captures;
    } else if ev.Store? && ev.key in u.mem && u.mem[ev.key].pte.present && u.mem[ev.key].pte.cow {
      var r := PageRecord(ev.key, false, u.mem[ev.key].contents);
      assert v.captures == [r] + u.captures && TagOf(r) != OfKernel;
      assert forall x :: x in u.captures ==> x in v.captures;
    }
  }

  lemma StreamKernelTags(s: State, evs: seq<Event>)
    requires Valid(s) && Valid(Run(Take(s), evs))
    ensures KernelTagsIn(StreamOf(Run(Take(s), evs)), Procs(s)) <==> TagsAreProcesses(s, evs)
  {
    hide Count, Distinct, CaptureOk, PageOk, CleanRecords, ContextRecords, Run, TagOf;
    var t, pids := Run(Take(s), evs), Procs(s);
    RunKernelTags(Take(s), evs, pids);
    CountClean(t.walk, t.mem, OfKernel);
    forall r | r in ContextRecords(s.procs, s.ctx) ensures TagOf(r) != OfKernel {
      ContextsSound(s.procs, s.ctx, r);
      ContextRecordTag(r.pid, s.ctx[r.pid]);
    }
    TagsJoin(t.captures, CleanRecords(t.walk, t.mem), pids);
    TagsJoin(ContextRecords(s.procs, s.ctx), s.captures, pids);
  }

  lemma TagsJoin(a: seq<Record>, b: seq<Record>, pids: set<U32>)
    ensures KernelTagsIn(a + b, pids) <==> KernelTagsIn(a, pids) && KernelTagsIn(b, pids)
  {
    hide TagOf;
    assert forall r :: r in a + b <==> r in a || r in b;
  }

  /** A checkpoint restores to the moment of its take, whatever happened in between, exactly
      under the conditions of isolation, when there are at most 64 processes, and when no kernel
      tag stands for a process that is not there. */
  lemma RestoreIsTakeMoment(s: State, evs: seq<Event>)
    requires Valid(s) && !s.open
    ensures
      var t := Run(Take(s), evs);
      && Valid(t)
      && (Resumes(StreamOf(t), s) <==>
            |s.procs| <= 64 && TagsAreProcesses(s, evs) && LeftoversFit(s, evs) && SameReadOnly(s, t))
  {
    hide Valid, Faithful, StreamOf, Pids, Resumes, LeftoversFit, SameReadOnly, TagsAreProcesses, KernelTagsIn,
         Run, Take, Pushes, NothingMissed, NoStalePages;
    WalkMapped(s);
    SnapshotIsolation(s, evs);
    var t := Run(Take(s), evs);
    WalkMapped(t);
    var rs := StreamOf(t);
    ProcsSize(s);
    StreamKernelTags(s, evs);
    if Resumes(rs, s) {
      ResumesNeedsAll(s, evs);
      ResumesFits(rs, s);
    } else if Faithful(rs, s) {
      FaithfulPids(rs, s);
      if Pids(rs) == Procs(s) && |Procs(s)| <= MAX_PROCS {
        FaithfulResumes(rs, s);
      }
    }
  }

  lemma ProcsSize(s: State)
    requires Valid(s)
    ensures |Procs(s)| == |s.procs|
  {
    DistinctSize(s.procs);
  }

  /** A kept page of which a capture was left over is in the stream twice, and that checkpoint
      does not restore at all. */
  lemma StaleCaptureBreaksRestore(s: State, evs: seq<Event>, r: Record)
    requires Valid(s) && !s.open
    requires r in s.captures && IsPage(r) && Kept(s, evs, KeyOf(r))
    ensures Valid(Run(Take(s), evs)) && ApplyAll(NOTHING, StreamOf(Run(Take(s), evs))).None?
  {
    hide Valid, StreamOf, Count, Pids, ApplyAll, Kept, Run, Take;
    WalkMapped(s);
    StreamCount(s, evs, KeyOf(r));
    var t := Run(Take(s), evs);
    WalkMapped(t);
    CountPositive(s.captures, r);
    assert TagOf(r) == OfPage(KeyOf(r));
    assert Count(StreamOf(t), OfPage(KeyOf(r))) >= 2;
    RestoreExact(StreamOf(t));
  }

  /** The second checkpoint of such a run from boot does not restore. */
  lemma StaleRunDoesNotRestore(k: Key, c: Context, a: Page, b: Page)
    ensures Ready(BOOT)
    ensures
      var first, second := Cycle(Started(k, c, a), []), Cycle([Store(k, b)], []);
      var t := WritebackPoint(RunCycles(BOOT, [first]), second);
      ApplyAll(NOTHING, StreamOf(t)).None?
  {
    hide Valid, StreamOf, ApplyAll, Run, Kept, Faithful, Started;
    StaleRun(k, c, a, b);
    var first, second := Cycle(Started(k, c, a), []), Cycle([Store(k, b)], []);
    var s := RunCycles(BOOT, [first]);
    RunValid(s, second.closed);
    PageRecordIsPage(k, a);
    StaleCaptureBreaksRestore(TakePoint(s, second), second.open, PageRecord(k, false, a));
  }

  lemma PageRecordIsPage(k: Key, a: Page)
    ensures IsPage(PageRecord(k, false, a)) && KeyOf(PageRecord(k, false, a)) == k
  {
  }

  /** A run from boot whose checkpoint is the moment record for record, and that restores with a
      process the moment does not have: the tag of a kernel blob. */
  lemma PhantomProcessRun(pid: U32, c: Context, tag: U32, vaddr: U64, data: Page)
    requires tag != pid
    ensures Ready(BOOT)
    ensures
      var cy := Cycle([Spawn(pid, c)], [KernelBlob(tag, vaddr, data)]);
      var m, rs := TakePoint(BOOT, cy), StreamOf(WritebackPoint(BOOT, cy));
      && Faithful(rs, m) && tag !in m.procs
      && ApplyAll(NOTHING, rs).Some? && tag in ApplyAll(NOTHING, rs).value.procs
  {
    hide Faithful, ApplyAll, Count, SameReadOnly, LeftoversFit, StreamOf, Valid, CleanUnwritten, PagesSay, ContextsSay;
    BootReady();
    var cy := Cycle([Spawn(pid, c)], [KernelBlob(tag, vaddr, data)]);
    var m, t := TakePoint(BOOT, cy), WritebackPoint(BOOT, cy);
    WalkMapped(t);
    var rs := StreamOf(t);
    PhantomStream(pid, c, tag, vaddr, data);
    EveryCheckpointExact(BOOT, [], cy);
    NothingTagged(cy.closed);
    FaithfulOnce(rs, m);
    RestoreExact(rs);
  }

  lemma PhantomStates(pid: U32, c: Context, tag: U32, vaddr: U64, data: Page)
    ensures Ready(BOOT)
    ensures
      var cy := Cycle([Spawn(pid, c)], [KernelBlob(tag, vaddr, data)]);
      var rs := [Record(tag, REC_KERNEL, vaddr, data), ContextRecord(pid, c)];
      && TakePoint(BOOT, cy) == State([], map[], [pid], map[pid := c], 0, false, [])
      && WritebackPoint(BOOT, cy) == State([], map[], [pid], map[pid := c], 1, true, rs)
  {
    hide Valid, ContextRecord;
    BootReady();
    var cy := Cycle([Spawn(pid, c)], [KernelBlob(tag, vaddr, data)]);
    OneEvent(BOOT, Spawn(pid, c));
    var m := TakePoint(BOOT, cy);
    assert m == State([], map[], [pid], map[pid := c], 0, false, []);
    assert [pid][..0] == [];
    assert ContextRecords([pid], m.ctx) == [ContextRecord(pid, c)];
    OneEvent(Take(m), KernelBlob(tag, vaddr, data));
  }

  lemma PhantomStream(pid: U32, c: Context, tag: U32, vaddr: U64, data: Page)
    ensures Ready(BOOT)
    ensures
      var cy := Cycle([Spawn(pid, c)], [KernelBlob(tag, vaddr, data)]);
      var m, t := TakePoint(BOOT, cy), WritebackPoint(BOOT, cy);
      && m.procs == [pid] && NothingMissed(m, cy.open) && SameReadOnly(m, t)
      && tag in Pids(StreamOf(t)) && |Pids(StreamOf(t))| <= 2
  {
    hide Valid, ContextRecord, Run, Take, WritebackPoint;
    PhantomStates(pid, c, tag, vaddr, data);
    ContextRecordTag(pid, c);
    var t := WritebackPoint(BOOT, Cycle([Spawn(pid, c)], [KernelBlob(tag, vaddr, data)]));
    assert CleanRecords(t.walk, t.mem) == [];
    var rs := t.captures;
    assert StreamOf(t) == rs && rs[0] in rs && rs[1] in rs;
    assert Pids(rs) == {tag, pid};
  }

  lemma FaithfulOnce(rs: seq<Record>, s: State)
    requires Faithful(rs, s)
    ensures NoDuplicates(rs)
  {
    hide Count;
  }

  /** Power cut at any sector write of a writeback: the disk then holds this checkpoint if its
      superblock write happened and the previous one otherwise, and what it holds resumes the
      moment of its take exactly under the same conditions. */
  lemma ResumeAfterPowerCut(d: Image, g: Geometry, last: Option<Checkpoint>, s: State, evs: seq<Event>, cut: nat)
    requires g.Valid() && Durable(d, g, last)
    requires Valid(s) && !s.open
    ensures
      var t := Run(Take(s), evs);
      && Valid(t)
      && var ck := Checkpoint(t.epoch, StreamOf(t));
      var found := ReadBack(Cut(d, CheckpointWrites(d, g, ck), cut), g);
      if Commits(d, g, Attempt(ck, cut)) then
        && found == Some(ck)
        && (Resumes(found.value.records, s) <==>
              |s.procs| <= 64 && TagsAreProcesses(s, evs) && LeftoversFit(s, evs) && SameReadOnly(s, t))
      else found == last
  {
    hide Valid, Durable, ReadBack, CheckpointWrites, StreamOf, Resumes, Commits;
    hide LeftoversFit, SameReadOnly, TagsAreProcesses, Run, Take;
    WalkMapped(s);
    RestoreIsTakeMoment(s, evs);
    var t := Run(Take(s), evs);
    WalkMapped(t);
    var ck := Checkpoint(t.epoch, StreamOf(t));
    CrashStep(d, g, last, Attempt(ck, cut));
    DurableReadsBack(Cut(d, CheckpointWrites(d, g, ck), cut), g,
                     if Commits(d, g, Attempt(ck, cut)) then Some(ck) else last);
  }

  /** The restore loop over an opened checkpoint. */
  method RestoreCheckpoint(dev: Device, g: Geometry) returns (restored: Option<(U64, Rebuilt)>, applied: bool)
    requires g.Valid()
    ensures ReadBack(dev.disk, g).None? ==> restored.None? && !applied
    ensures ReadBack(dev.disk, g).Some? ==>
              var ck := ReadBack(dev.disk, g).value;
              var b := ApplyAll(NOTHING, ck.records);
              && applied == b.Some?
              && (applied ==> restored == Some((ck.epoch, b.value)))
              && (!applied ==> restored.None?)
  {
    hide ReadBack, Durable, ApplyRecord;
    var found := ReadCheckpoint(dev, g);
    if found.None? {
      return None, false;
    }
    var rs := found.value.records;
    var b := NOTHING;
    assert rs[0..] == rs;
    for i := 0 to |rs|
      invariant ApplyAll(b, rs[i..]) == ApplyAll(NOTHING, rs)
    {
      assert rs[i..][1..] == rs[i + 1..];
      var next := ApplyRecord(b, rs[i]);
      if next.None? {
        return None, false;
      }
      b := next.value;
    }
    restored, applied := Some((found.value.epoch, b)), true;
  }
}
