/** The copy-on-write checkpoint engine: take marks pages, a write fault captures a page before
    its first write, and writeback streams captures and still-clean pages. */
module CheckpointEngine {
  import opened Bytes
  import opened SnapshotStore

  const REC_CONTEXT: U32 := 1
  const REC_READONLY: U32 := 2
  const REC_KERNEL: U32 := 4
  const CONTEXT_VADDR: U64 := 0xFFFF_FFFF_FFFF_F000

  /** The three page-table bits the engine looks at. */
  datatype Pte = Pte(present: bool, writable: bool, cow: bool)

  datatype PageState = PageState(pte: Pte, regionWritable: bool, contents: Page)

  /** Address of a page: a multiple of the page size. */
  type PageAddr = n: nat | n < 0x1_0000_0000_0000_0000 && n % 4096 == 0

  /** An address rounded down to its page, as mapping and faulting do. */
  function PageBase(v: U64): PageAddr {
    v / 4096 * 4096
  }

  datatype Key = Key(pid: U32, vaddr: PageAddr)

  type Context = c: seq<Byte> | 0 < |c| <= 256 witness [0]

  /** All live user spaces (`walk` is the order regions are walked in), the processes, and the
      engine's own state. Captures are most recent first. */
  datatype State = State(walk: seq<Key>, mem: map<Key, PageState>, procs: seq<U32>, ctx: map<U32, Context>,
                         epoch: U64, open: bool, captures: seq<Record>)

  // ----- Page-table primitives -----

  function MarkPte(p: Pte): (r: (Pte, bool)) {
    if p.present && p.writable then (p.(writable := false, cow := true), true) else (p, false)
  }

  function ResolvePte(p: Pte): (r: (Pte, bool)) {
    if p.cow then (p.(writable := true, cow := false), true) else (p, false)
  }

  /** Resolving undoes marking, on every page that marking accepts and that was not tagged. */
  lemma ResolveUndoesMark(p: Pte)
    requires !p.cow
    ensures MarkPte(p).1 <==> ResolvePte(MarkPte(p).0).1
    ensures ResolvePte(MarkPte(p).0).0 == p
  {
  }

  datatype Action = Skip | PersistRw | PersistRo

  function PageAction(regionWritable: bool, p: Pte): Action {
    if !p.present then Skip
    else if regionWritable then (if p.cow then PersistRw else Skip)
    else PersistRo
  }

  // ----- Records -----

  predicate IsContext(r: Record) {
    r.flags % 2 == 1
  }

  predicate IsReadOnly(r: Record) {
    r.flags / 2 % 2 == 1
  }

  predicate IsKernel(r: Record) {
    r.flags / 4 % 2 == 1
  }

  predicate IsPage(r: Record) {
    !IsContext(r) && !IsKernel(r)
  }

  function KeyOf(r: Record): Key {
    Key(r.pid, PageBase(r.vaddr))
  }

  function PageRecord(k: Key, readOnly: bool, contents: Page): Record {
    Record(k.pid, if readOnly then REC_READONLY else 0, k.vaddr, contents)
  }

  function ContextPage(c: Context): Page {
    c + Zeros(4096 - |c|)
  }

  function ContextRecord(pid: U32, c: Context): Record {
    Record(pid, REC_CONTEXT, CONTEXT_VADDR, ContextPage(c))
  }

  // ----- Engine operations -----

  function Marked(p: PageState): PageState {
    if p.regionWritable then p.(pte := MarkPte(p.pte).0) else p
  }

  /** One context record per process, the last process first. */
  function ContextRecords(procs: seq<U32>, ctx: map<U32, Context>): seq<Record>
    requires forall p :: p in procs ==> p in ctx
  {
    if procs == [] then []
    else
      var n := |procs| - 1;
      [ContextRecord(procs[n], ctx[procs[n]])] + ContextRecords(procs[..n], ctx)
  }

  ghost predicate Distinct<T>(s: seq<T>) {
    forall i, j :: 0 <= i < j < |s| ==> s[i] != s[j]
  }

  ghost predicate PageOk(p: PageState) {
    && (p.pte.cow ==> p.pte.present && p.regionWritable && !p.pte.writable)
    && (p.pte.writable ==> p.pte.present && p.regionWritable)
  }

  /** A pending page capture carries no flag and the address of its page. */
  ghost predicate CaptureOk(r: Record) {
    IsPage(r) ==> r.flags == 0 && r.vaddr == KeyOf(r).vaddr
  }

  ghost predicate Valid(s: State) {
    && Distinct(s.walk) && (forall k :: k in s.walk <==> k in s.mem)
    && Distinct(s.procs) && (forall p :: p in s.procs ==> p in s.ctx)
    && (forall k :: k in s.mem ==> k.pid in s.procs && PageOk(s.mem[k]))
    && (forall r :: r in s.captures ==> CaptureOk(r))
    && (!s.open ==> forall r :: r in s.captures ==> !IsContext(r))
  }

  /** The epoch counter is 64 bits wide. */
  function NextEpoch(e: U64): U64 {
    if e == 0xFFFF_FFFF_FFFF_FFFF then 0 else e + 1
  }

  function Take(s: State): State
    requires forall p :: p in s.procs ==> p in s.ctx
  {
    s.(epoch := NextEpoch(s.epoch), open := true,
       mem := map k | k in s.mem :: Marked(s.mem[k]),
       captures := ContextRecords(s.procs, s.ctx) + s.captures)
  }

  /** What the rest of the machine does between engine calls. */
  datatype Event =
    | Store(key: Key, data: Page)
    | MapPage(key: Key, regionWritable: bool, data: Page)
    | Unmap(key: Key)
    | Share(key: Key)
    | Spawn(pid: U32, c: Context)
    | Exit(pid: U32)
    | SaveContext(pid: U32, c: Context)
    | KernelBlob(tag: U32, vaddr: U64, data: Page)

  /** The write-fault hook: capture the contents, then make the page writable again. */
  function Fault(s: State, k: Key): State
    requires k in s.mem
  {
    var p := s.mem[k];
    s.(captures := [PageRecord(k, false, p.contents)] + s.captures,
       mem := s.mem[k := p.(pte := ResolvePte(p.pte).0)])
  }

  /** A store instruction. A tagged page faults into the engine first; a page a fork protected is
      made writable by the memory manager; a store to a read-only region does not happen. */
  function StorePage(s: State, k: Key, data: Page): State {
    if k !in s.mem || !s.mem[k].pte.present then s
    else
      var t := if s.mem[k].pte.cow then Fault(s, k) else s;
      var p := t.mem[k];
      if p.regionWritable then
        t.(mem := t.mem[k := p.(pte := p.pte.(writable := true), contents := data)])
      else t
  }

  function Without<T(==,!new)>(s: seq<T>, gone: set<T>): (r: seq<T>)
    ensures forall x :: x in r <==> x in s && x !in gone
    ensures Distinct(s) ==> Distinct(r)
  {
    if s == [] then []
    else
      var n := |s| - 1;
      var front := Without(s[..n], gone);
      assert s == s[..n] + [s[n]];
      if s[n] in gone then front else front + [s[n]]
  }

  /** Pages leave the machine; what was captured of them stays. */
  function Forget(s: State, gone: set<Key>): State {
    s.(walk := Without(s.walk, gone), mem := s.mem - gone)
  }

  function Happen(s: State, ev: Event): State {
    match ev
    case Store(k, data) => StorePage(s, k, data)
    case MapPage(k, rw, data) =>
      if k in s.mem || k.pid !in s.procs then s
      else s.(walk := s.walk + [k], mem := s.mem[k := PageState(Pte(true, rw, false), rw, data)])
    case Share(k) =>
      if k in s.mem then s.(mem := s.mem[k := s.mem[k].(pte := s.mem[k].pte.(writable := false))]) else s
    case Unmap(k) => Forget(s, {k})
    case Spawn(pid, c) => if pid in s.procs then s else s.(procs := s.procs + [pid], ctx := s.ctx[pid := c])
    case Exit(pid) =>
      Forget(s, set k | k in s.mem && k.pid == pid).(procs := Without(s.procs, {pid}), ctx := s.ctx - {pid})
    case SaveContext(pid, c) => if pid in s.ctx then s.(ctx := s.ctx[pid := c]) else s
    case KernelBlob(tag, vaddr, data) => s.(captures := [Record(tag, REC_KERNEL, vaddr, data)] + s.captures)
  }

  function Run(s: State, evs: seq<Event>): State
    decreases |evs|
  {
    if evs == [] then s else Run(Happen(s, evs[0]), evs[1..])
  }

  function CleanRecord(k: Key, p: PageState): seq<Record> {
    match PageAction(p.regionWritable, p.pte)
    case Skip => []
    case PersistRw => [PageRecord(k, false, p.contents)]
    case PersistRo => [PageRecord(k, true, p.contents)]
  }

  function CleanRecords(walk: seq<Key>, mem: map<Key, PageState>): seq<Record>
    requires forall k :: k in walk ==> k in mem
  {
    if walk == [] then []
    else
      var n := |walk| - 1;
      CleanRecords(walk[..n], mem) + CleanRecord(walk[n], mem[walk[n]])
  }

  /** What writeback streams: every capture, then every page that is still clean or read-only. */
  function StreamOf(s: State): seq<Record>
    requires forall k :: k in s.walk ==> k in s.mem
  {
    s.captures + CleanRecords(s.walk, s.mem)
  }

  function AfterCommit(s: State): State {
    s.(captures := [], open := false)
  }

  // ----- Every operation keeps the engine's invariant -----

  /** Replacing one page's flags and contents. */
  lemma UpdateValid(s: State, k: Key, p: PageState)
    requires Valid(s) && k in s.mem && PageOk(p)
    ensures Valid(s.(mem := s.mem[k := p]))
  {
    hide Distinct, PageOk, CaptureOk, IsContext;
  }

  lemma CaptureValid(s: State, r: Record)
    requires Valid(s) && CaptureOk(r) && !IsContext(r)
    ensures Valid(s.(captures := [r] + s.captures))
  {
    hide Distinct, PageOk, CaptureOk, IsContext;
  }

  lemma MapValid(s: State, k: Key, p: PageState)
    requires Valid(s) && k !in s.mem && k.pid in s.procs && PageOk(p)
    ensures Valid(s.(walk := s.walk + [k], mem := s.mem[k := p]))
  {
    hide PageOk, CaptureOk, IsContext;
  }

  lemma FaultValid(s: State, k: Key)
    requires Valid(s) && k in s.mem && s.mem[k].pte.cow
    ensures Valid(Fault(s, k)) && Fault(s, k).mem[k] == s.mem[k].(pte := Pte(true, true, false))
  {
    hide Distinct;
    var r := PageRecord(k, false, s.mem[k].contents);
    assert PageOk(s.mem[k]);
    CaptureValid(s, r);
    UpdateValid(s.(captures := [r] + s.captures), k, s.mem[k].(pte := Pte(true, true, false)));
  }

  lemma StoreValid(s: State, k: Key, data: Page)
    requires Valid(s)
    ensures Valid(StorePage(s, k, data))
  {
    hide Distinct, CaptureOk;
    if k in s.mem && s.mem[k].pte.present {
      assert PageOk(s.mem[k]);
      if s.mem[k].pte.cow {
        FaultValid(s, k);
      }
      var t := if s.mem[k].pte.cow then Fault(s, k) else s;
      var p := t.mem[k];
      if p.regionWritable {
        UpdateValid(t, k, p.(pte := p.pte.(writable := true), contents := data));
      }
    }
  }

  lemma ForgetValid(s: State, gone: set<Key>)
    requires Valid(s)
    ensures Valid(Forget(s, gone))
  {
    hide Distinct, PageOk, CaptureOk, IsContext;
  }

  lemma ExitValid(s: State, pid: U32)
    requires Valid(s)
    ensures Valid(Happen(s, Exit(pid)))
  {
    hide Distinct, PageOk, CaptureOk, IsContext;
  }

  /** Whatever the machine does, the engine's invariant holds afterwards. */
  lemma HappenValid(s: State, ev: Event)
    requires Valid(s)
    ensures Valid(Happen(s, ev))
    ensures Happen(s, ev).open == s.open && Happen(s, ev).epoch == s.epoch
  {
    hide CaptureOk;
    match ev
    case Store(k, data) => StoreValid(s, k, data);
    case MapPage(k, rw, data) =>
      if k !in s.mem && k.pid in s.procs {
        MapValid(s, k, PageState(Pte(true, rw, false), rw, data));
      }
    case Unmap(k) => ForgetValid(s, {k});
    case Share(k) =>
      if k in s.mem {
        assert PageOk(s.mem[k]);
        UpdateValid(s, k, s.mem[k].(pte := s.mem[k].pte.(writable := false)));
      }
    case Spawn(pid, c) =>
    case Exit(pid) => ExitValid(s, pid);
    case SaveContext(pid, c) =>
    case KernelBlob(tag, vaddr, data) =>
      KernelIsNoPage(tag, vaddr, data);
      CaptureValid(s, Record(tag, REC_KERNEL, vaddr, data));
  }

  lemma KernelIsNoPage(tag: U32, vaddr: U64, data: Page)
    ensures var r := Record(tag, REC_KERNEL, vaddr, data); CaptureOk(r) && !IsContext(r) && TagOf(r) == OfKernel
  {
  }

  lemma {:induction false} RunValid(s: State, evs: seq<Event>)
    requires Valid(s)
    ensures Valid(Run(s, evs))
    ensures Run(s, evs).open == s.open && Run(s, evs).epoch == s.epoch
    decreases |evs|
  {
    hide Valid, Happen;
    if evs != [] {
      HappenValid(s, evs[0]);
      RunValid(Happen(s, evs[0]), evs[1..]);
    }
  }

  lemma TakeValid(s: State)
    requires Valid(s)
    ensures Valid(Take(s))
  {
    hide Distinct, ContextRecords;
    var t := Take(s);
    forall r | r in t.captures ensures CaptureOk(r) {
      if r !in s.captures {
        ContextsSound(s.procs, s.ctx, r);
      }
    }
    forall k | k in t.mem ensures PageOk(t.mem[k]) {
      assert PageOk(s.mem[k]);
    }
  }

  // ----- What a stream says about a moment -----

  /** What a record is a record of. */
  datatype Tag = OfContext(pid: U32) | OfKernel | OfPage(key: Key)

  function TagOf(r: Record): Tag {
    if IsContext(r) then OfContext(r.pid) else if IsKernel(r) then OfKernel else OfPage(KeyOf(r))
  }

  function Count(rs: seq<Record>, tag: Tag): nat {
    if rs == [] then 0 else (if TagOf(rs[0]) == tag then 1 else 0) + Count(rs[1..], tag)
  }

  /** The process contexts and present pages of a moment, and their records. */
  predicate Part(s: State, tag: Tag) {
    match tag
    case OfContext(pid) => pid in s.procs && pid in s.ctx
    case OfKernel => false
    case OfPage(k) => k in s.mem && s.mem[k].pte.present
  }

  function RecordOf(s: State, tag: Tag): Record
    requires Part(s, tag)
  {
    match tag
    case OfContext(pid) => ContextRecord(pid, s.ctx[pid])
    case OfPage(k) => PageRecord(k, !s.mem[k].regionWritable, s.mem[k].contents)
  }

  /** Exactly one record per context and present page of s, with the contents of that moment,
      and no other record apart from kernel blobs. */
  ghost predicate Faithful(rs: seq<Record>, s: State) {
    && (forall tag :: tag != OfKernel ==> Count(rs, tag) == if Part(s, tag) then 1 else 0)
    && (forall r :: r in rs && TagOf(r) != OfKernel ==> Part(s, TagOf(r)) && r == RecordOf(s, TagOf(r)))
  }

  lemma {:induction false} CountAppend(a: seq<Record>, b: seq<Record>, tag: Tag)
    ensures Count(a + b, tag) == Count(a, tag) + Count(b, tag)
    decreases |a|
  {
    hide TagOf;
    if a == [] {
      assert a + b == b;
    } else {
      assert (a + b)[1..] == a[1..] + b;
      CountAppend(a[1..], b, tag);
    }
  }

  lemma {:induction false} CountPositive(rs: seq<Record>, r: Record)
    requires r in rs
    ensures Count(rs, TagOf(r)) >= 1
    decreases |rs|
  {
    hide TagOf;
    if rs[0] != r {
      CountPositive(rs[1..], r);
    }
  }

  lemma {:induction false} CountWitness(rs: seq<Record>, tag: Tag)
    requires Count(rs, tag) >= 1
    ensures exists r :: r in rs && TagOf(r) == tag
    decreases |rs|
  {
    hide TagOf;
    if TagOf(rs[0]) == tag {
      assert rs[0] in rs;
    } else {
      CountWitness(rs[1..], tag);
    }
  }

  lemma CountPush(r: Record, rs: seq<Record>, tag: Tag)
    ensures Count([r] + rs, tag) == (if TagOf(r) == tag then 1 else 0) + Count(rs, tag)
  {
    hide TagOf;
    assert ([r] + rs)[1..] == rs;
  }

  lemma ContextRecordTag(pid: U32, c: Context)
    ensures TagOf(ContextRecord(pid, c)) == OfContext(pid) && IsContext(ContextRecord(pid, c))
    ensures ContextRecord(pid, c).pid == pid
  {
  }

  lemma {:induction false} CountContexts(procs: seq<U32>, ctx: map<U32, Context>, tag: Tag)
    requires Distinct(procs) && forall p :: p in procs ==> p in ctx
    ensures Count(ContextRecords(procs, ctx), tag) == if tag.OfContext? && tag.pid in procs then 1 else 0
    decreases |procs|
  {
    hide TagOf, ContextRecord, Count;
    if procs == [] {
      NoRecords([]);
    } else {
      var n := |procs| - 1;
      CountContexts(procs[..n], ctx, tag);
      CountPush(ContextRecord(procs[n], ctx[procs[n]]), ContextRecords(procs[..n], ctx), tag);
      ContextRecordTag(procs[n], ctx[procs[n]]);
      assert procs == procs[..n] + [procs[n]] && procs[n] !in procs[..n];
    }
  }

  lemma {:induction false} ContextsSound(procs: seq<U32>, ctx: map<U32, Context>, r: Record)
    requires (forall p :: p in procs ==> p in ctx) && r in ContextRecords(procs, ctx)
    ensures IsContext(r) && r.pid in procs && r == ContextRecord(r.pid, ctx[r.pid])
    decreases |procs|
  {
    hide ContextRecord, IsContext;
    var n := |procs| - 1;
    ContextRecordTag(procs[n], ctx[procs[n]]);
    if r != ContextRecord(procs[n], ctx[procs[n]]) {
      ContextsSound(procs[..n], ctx, r);
    }
  }

  lemma CleanTag(k: Key, p: PageState, tag: Tag)
    ensures Count(CleanRecord(k, p), tag) == if tag == OfPage(k) && PageAction(p.regionWritable, p.pte) != Skip then 1 else 0
    ensures forall r :: r in CleanRecord(k, p) ==>
              && TagOf(r) == OfPage(k) && PageAction(p.regionWritable, p.pte) != Skip
              && r == PageRecord(k, !p.regionWritable, p.contents)
  {
    var rs := CleanRecord(k, p);
    if rs != [] {
      assert rs[1..] == [];
    }
  }

  lemma {:induction false} CountClean(walk: seq<Key>, mem: map<Key, PageState>, tag: Tag)
    requires Distinct(walk) && forall k :: k in walk ==> k in mem
    ensures Count(CleanRecords(walk, mem), tag)
         == if tag.OfPage? && tag.key in walk && PageAction(mem[tag.key].regionWritable, mem[tag.key].pte) != Skip
            then 1 else 0
    ensures forall r :: r in CleanRecords(walk, mem) ==>
              TagOf(r) == OfPage(KeyOf(r)) && KeyOf(r) in walk
              && var p := mem[KeyOf(r)];
                 PageAction(p.regionWritable, p.pte) != Skip
                 && r == PageRecord(KeyOf(r), !p.regionWritable, p.contents)
    decreases |walk|
  {
    hide TagOf, PageAction, CleanRecord, IsPage;
    if walk != [] {
      var n := |walk| - 1;
      var k := walk[n];
      CountClean(walk[..n], mem, tag);
      CountAppend(CleanRecords(walk[..n], mem), CleanRecord(k, mem[k]), tag);
      CleanTag(k, mem[k], tag);
      assert walk == walk[..n] + [k] && k !in walk[..n];
    }
  }

  // ----- What becomes of a tagged page -----

  /** What an event does to a page. */
  datatype Touch = Untouched | Written | Gone

  function TouchOf(ev: Event, k: Key): Touch {
    match ev
    case Store(j, _) => if j == k then Written else Untouched
    case Unmap(j) => if j == k then Gone else Untouched
    case Exit(pid) => if pid == k.pid then Gone else Untouched
    case _ => Untouched
  }

  /** What happens to a page first. */
  function FirstTouch(evs: seq<Event>, k: Key): Touch {
    if evs == [] then Untouched
    else if TouchOf(evs[0], k) != Untouched then TouchOf(evs[0], k)
    else FirstTouch(evs[1..], k)
  }

  predicate Protected(s: State, k: Key) {
    k in s.mem && s.mem[k].pte.cow
  }

  /** From s to t a page's tag and captures are as its first touch says, and a tagged page has
      its old contents. */
  ghost predicate Followed(s: State, t: State, k: Key, touch: Touch) {
    && (Protected(t, k) <==> Protected(s, k) && touch == Untouched)
    && (Protected(t, k) ==> t.mem[k].contents == s.mem[k].contents)
    && Count(t.captures, OfPage(k))
       == Count(s.captures, OfPage(k)) + if Protected(s, k) && touch == Written then 1 else 0
  }

  lemma StoreFollowed(s: State, j: Key, data: Page, k: Key)
    requires Valid(s)
    ensures Followed(s, StorePage(s, j, data), k, TouchOf(Store(j, data), k))
  {
    hide Count, Distinct, CaptureOk;
    if j in s.mem {
      assert PageOk(s.mem[j]);
      if s.mem[j].pte.cow {
        var r := PageRecord(j, false, s.mem[j].contents);
        CountPush(r, s.captures, OfPage(k));
        assert StorePage(s, j, data).captures == [r] + s.captures;
      }
    }
  }

  lemma HappenFollowed(s: State, ev: Event, k: Key)
    requires Valid(s)
    ensures Followed(s, Happen(s, ev), k, TouchOf(ev, k))
  {
    hide Count, Distinct, CaptureOk, StorePage;
    match ev
    case Store(j, data) => StoreFollowed(s, j, data, k);
    case KernelBlob(tag, vaddr, data) =>
      KernelIsNoPage(tag, vaddr, data);
      CountPush(Record(tag, REC_KERNEL, vaddr, data), s.captures, OfPage(k));
    case _ =>
  }

  /** Over any run of events, checkpoint open or not: a page stays tagged, with its contents, while
      untouched; it is captured once if it is stored to first, and never if it goes first. */
  lemma {:induction false} RunFollowed(s: State, evs: seq<Event>, k: Key)
    requires Valid(s)
    ensures Followed(s, Run(s, evs), k, FirstTouch(evs, k))
    decreases |evs|
  {
    hide Valid, Happen, Count, TouchOf;
    if evs != [] {
      HappenFollowed(s, evs[0], k);
      HappenValid(s, evs[0]);
      RunFollowed(Happen(s, evs[0]), evs[1..], k);
    }
  }

  // ----- What is pushed -----

  /** Records pushed between two states. */
  function Fresh(s: State, t: State): seq<Record>
    requires |t.captures| >= |s.captures|
  {
    t.captures[..|t.captures| - |s.captures|]
  }

  /** A blob chunk, or a page tagged in s with the contents it had there. */
  ghost predicate PushedFrom(s: State, r: Record) {
    match TagOf(r)
    case OfKernel => true
    case OfContext(pid) => false
    case OfPage(k) => Protected(s, k) && r == PageRecord(k, false, s.mem[k].contents)
  }

  ghost predicate Pushes(s: State, t: State) {
    && |t.captures| >= |s.captures| && t.captures == Fresh(s, t) + s.captures
    && (forall r :: r in Fresh(s, t) ==> PushedFrom(s, r))
  }

  lemma PushOne(s: State, t: State, r: Record)
    requires t.captures == [r] + s.captures && PushedFrom(s, r)
    ensures Pushes(s, t)
  {
    hide PushedFrom;
    assert Fresh(s, t) == [r];
  }

  lemma HappenPushes(s: State, ev: Event)
    requires Valid(s)
    ensures Pushes(s, Happen(s, ev))
  {
    hide Distinct, CaptureOk;
    var t := Happen(s, ev);
    if ev.KernelBlob? {
      KernelIsNoPage(ev.tag, ev.vaddr, ev.data);
      PushOne(s, t, Record(ev.tag, REC_KERNEL, ev.vaddr, ev.data));
    } else if ev.Store? && Protected(s, ev.key) {
      assert PageOk(s.mem[ev.key]);
      PushOne(s, t, PageRecord(ev.key, false, s.mem[ev.key].contents));
    } else {
      assert Fresh(s, t) == [];
    }
  }

  lemma PushesChain(s: State, u: State, t: State)
    requires Pushes(s, u) && Pushes(u, t)
    requires forall k :: Protected(u, k) ==> Protected(s, k) && u.mem[k].contents == s.mem[k].contents
    ensures Pushes(s, t)
  {
    hide TagOf;
    assert Fresh(s, t) == Fresh(u, t) + Fresh(s, u);
  }

  /** Every page captured in a run carries the contents it was tagged with. */
  lemma {:induction false} RunPushes(s: State, evs: seq<Event>)
    requires Valid(s)
    ensures Pushes(s, Run(s, evs))
    decreases |evs|
  {
    hide Valid, Happen, Pushes, Count, TouchOf;
    if evs == [] {
      NothingPushed(s);
    } else {
      var u := Happen(s, evs[0]);
      HappenPushes(s, evs[0]);
      HappenValid(s, evs[0]);
      RunPushes(u, evs[1..]);
      forall k ensures Protected(u, k) ==> Protected(s, k) && u.mem[k].contents == s.mem[k].contents {
        HappenFollowed(s, evs[0], k);
      }
      PushesChain(s, u, Run(s, evs));
    }
  }

  lemma NothingPushed(s: State)
    ensures Pushes(s, s)
  {
    assert Fresh(s, s) == [];
  }

  // ----- From a take to its writeback -----

  /** A page the take protects: present, in a writable region, and writable or already tagged. */
  predicate Protectable(p: PageState) {
    p.pte.present && p.regionWritable && (p.pte.writable || p.pte.cow)
  }

  /** A take tags exactly the pages it can protect, and captures no page. */
  lemma TakeTags(s: State, k: Key)
    requires Valid(s)
    ensures Protected(Take(s), k) <==> k in s.mem && Protectable(s.mem[k])
    ensures k in s.mem ==> k in Take(s).mem && Take(s).mem[k].contents == s.mem[k].contents
    ensures Count(Take(s).captures, OfPage(k)) == Count(s.captures, OfPage(k))
  {
    hide Count, ContextRecords, Distinct, CaptureOk;
    CountAppend(ContextRecords(s.procs, s.ctx), s.captures, OfPage(k));
    CountContexts(s.procs, s.ctx, OfPage(k));
    if k in s.mem {
      assert PageOk(s.mem[k]);
    }
  }

  /** The page is in the stream because the take protected it and it was not gone before it could
      be captured. */
  predicate Kept(s: State, evs: seq<Event>, k: Key) {
    k in s.mem && Protectable(s.mem[k]) && FirstTouch(evs, k) != Gone
  }

  predicate ReadOnlyAt(s: State, k: Key) {
    k in s.mem && s.mem[k].pte.present && !s.mem[k].regionWritable
  }

  /** How often a page occurs in the stream: captures left over from before the take, once for a
      kept page, and once for a page that is read-only when the stream is written. */
  lemma StreamCount(s: State, evs: seq<Event>, k: Key)
    requires Valid(s)
    ensures
      var t := Run(Take(s), evs);
      && Valid(t)
      && Count(StreamOf(t), OfPage(k)) == Count(s.captures, OfPage(k))
           + (if Kept(s, evs, k) then 1 else 0) + (if ReadOnlyAt(t, k) then 1 else 0)
  {
    hide Count, Distinct, CaptureOk, CleanRecords, Take, Protectable;
    TakeValid(s);
    TakeTags(s, k);
    RunValid(Take(s), evs);
    RunFollowed(Take(s), evs, k);
    var t := Run(Take(s), evs);
    CountAppend(t.captures, CleanRecords(t.walk, t.mem), OfPage(k));
    CountClean(t.walk, t.mem, OfPage(k));
    if k in t.mem {
      assert PageOk(t.mem[k]);
    }
  }

  lemma StreamContexts(s: State, evs: seq<Event>, pid: U32)
    requires Valid(s) && !s.open
    ensures
      var t := Run(Take(s), evs);
      && Valid(t)
      && Count(StreamOf(t), OfContext(pid)) == if pid in s.procs then 1 else 0
  {
    hide Count, Distinct, CaptureOk, CleanRecords, ContextRecords, PushedFrom;
    OpenRun(s, evs);
    var u, t := Take(s), Run(Take(s), evs);
    var tag := OfContext(pid);
    CountAppend(t.captures, CleanRecords(t.walk, t.mem), tag);
    CountAppend(Fresh(u, t), u.captures, tag);
    CountAppend(ContextRecords(s.procs, s.ctx), s.captures, tag);
    CountClean(t.walk, t.mem, tag);
    CountContexts(s.procs, s.ctx, tag);
    if Count(s.captures, tag) >= 1 {
      CountWitness(s.captures, tag);
    }
    if Count(Fresh(u, t), tag) >= 1 {
      CountWitness(Fresh(u, t), tag);
      PushedNoContext(u, t, pid);
    }
  }

  lemma PushedNoContext(u: State, t: State, pid: U32)
    requires Pushes(u, t)
    ensures forall r :: r in Fresh(u, t) ==> TagOf(r) != OfContext(pid)
  {
    hide TagOf;
  }

  lemma OpenRun(s: State, evs: seq<Event>)
    requires Valid(s)
    ensures
      var t := Run(Take(s), evs);
      Valid(Take(s)) && Valid(t) && Pushes(Take(s), t) && t.open && t.epoch == NextEpoch(s.epoch)
  {
    hide Valid, Pushes;
    WalkMapped(s);
    TakeValid(s);
    RunValid(Take(s), evs);
    RunPushes(Take(s), evs);
  }

  lemma WalkMapped(t: State)
    requires Valid(t)
    ensures forall k :: k in t.walk ==> k in t.mem
    ensures forall p :: p in t.procs ==> p in t.ctx
  {
  }

  // ----- Exactly when a checkpoint is the moment it was taken at -----

  /** The read-only pages are the same, with the same contents. */
  ghost predicate SameReadOnly(s: State, t: State) {
    forall k :: ReadOnlyAt(s, k) || ReadOnlyAt(t, k) ==>
      ReadOnlyAt(s, k) && ReadOnlyAt(t, k) && t.mem[k].contents == s.mem[k].contents
  }

  /** A present page of a writable region that neither a fault nor the writeback records: the take
      could not protect it, or it was gone first. */
  predicate Missed(s: State, evs: seq<Event>, k: Key) {
    k in s.mem && s.mem[k].pte.present && s.mem[k].regionWritable && !Kept(s, evs, k)
  }

  /** Captures left over from before the take do no harm: there is one for exactly the missed
      pages, and it happens to hold what the page held at the take. */
  ghost predicate LeftoversFit(s: State, evs: seq<Event>) {
    && (forall k :: Count(s.captures, OfPage(k)) == if Missed(s, evs, k) then 1 else 0)
    && (forall r :: r in s.captures && IsPage(r) ==> LeftoverRight(s, r))
  }

  ghost predicate LeftoverRight(s: State, r: Record) {
    var k := KeyOf(r);
    k in s.mem && s.mem[k].regionWritable && r == PageRecord(k, false, s.mem[k].contents)
  }

  /** No page capture is pending. */
  ghost predicate NoStalePages(s: State) {
    forall r :: r in s.captures ==> !IsPage(r)
  }

  ghost predicate NothingMissed(s: State, evs: seq<Event>) {
    forall k :: !Missed(s, evs, k)
  }

  lemma StaleCount(s: State)
    ensures NoStalePages(s) <==> forall k :: Count(s.captures, OfPage(k)) == 0
  {
    hide Count;
    if NoStalePages(s) {
      forall k ensures Count(s.captures, OfPage(k)) == 0 {
        if Count(s.captures, OfPage(k)) >= 1 {
          CountWitness(s.captures, OfPage(k));
        }
      }
    } else {
      var r :| r in s.captures && IsPage(r);
      CountPositive(s.captures, r);
    }
  }

  /** Short of that coincidence: nothing is left over and nothing missed. */
  lemma LeftoversUsually(s: State, evs: seq<Event>)
    requires NoStalePages(s) || NothingMissed(s, evs)
    ensures LeftoversFit(s, evs) <==> NoStalePages(s) && NothingMissed(s, evs)
  {
    hide Count, IsPage, Missed;
    StaleCount(s);
    if LeftoversFit(s, evs) {
      forall k ensures Count(s.captures, OfPage(k)) == 0 && !Missed(s, evs, k) {
        assert Count(s.captures, OfPage(k)) == if Missed(s, evs, k) then 1 else 0;
      }
    }
  }

  lemma LeftoverSound(s: State, evs: seq<Event>, r: Record)
    requires LeftoversFit(s, evs) && r in s.captures && IsPage(r)
    ensures Part(s, TagOf(r)) && r == RecordOf(s, TagOf(r))
  {
    hide Count;
    CountPositive(s.captures, r);
    assert Missed(s, evs, KeyOf(r));
    assert LeftoverRight(s, r);
  }

  lemma PushedSound(s: State, r: Record)
    requires Valid(s) && PushedFrom(Take(s), r) && TagOf(r) != OfKernel
    ensures Part(s, TagOf(r)) && r == RecordOf(s, TagOf(r))
  {
    hide Distinct, CaptureOk, Count, ContextRecords, Take;
    TakeTags(s, KeyOf(r));
  }

  /** What the walk finds clean or read-only is the moment's. */
  lemma CleanSound(s: State, evs: seq<Event>, r: Record)
    requires Valid(s) && SameReadOnly(s, Run(Take(s), evs))
    requires var t := Run(Take(s), evs); Valid(t) && r in CleanRecords(t.walk, t.mem)
    ensures Part(s, TagOf(r)) && r == RecordOf(s, TagOf(r))
  {
    hide Distinct, CaptureOk, Count, CleanRecords, Take, TagOf, IsPage;
    var t, k := Run(Take(s), evs), KeyOf(r);
    CountClean(t.walk, t.mem, OfKernel);
    assert PageOk(t.mem[k]);
    if t.mem[k].regionWritable {
      TakeValid(s);
      TakeTags(s, k);
      RunFollowed(Take(s), evs, k);
    } else {
      assert ReadOnlyAt(t, k);
    }
  }

  /** Under the conditions every record is the moment's. */
  lemma StreamSound(s: State, evs: seq<Event>, r: Record)
    requires Valid(s) && !s.open && LeftoversFit(s, evs) && SameReadOnly(s, Run(Take(s), evs))
    requires var t := Run(Take(s), evs); Valid(t) && r in StreamOf(t) && TagOf(r) != OfKernel
    ensures Part(s, TagOf(r)) && r == RecordOf(s, TagOf(r))
  {
    hide Count, Distinct, CaptureOk, CleanRecords, ContextRecords, Run, SameReadOnly, PushedFrom, LeftoversFit, PageOk;
    OpenRun(s, evs);
    var u, t := Take(s), Run(Take(s), evs);
    if r in CleanRecords(t.walk, t.mem) {
      CleanSound(s, evs, r);
    } else if r in Fresh(u, t) {
      PushedSound(s, r);
    } else if r in s.captures {
      LeftoverSound(s, evs, r);
    } else {
      ContextsSound(s.procs, s.ctx, r);
    }
  }

  /** Under the conditions the stream is the moment, each page once. */
  lemma CleanRunIsFaithful(s: State, evs: seq<Event>)
    requires Valid(s) && !s.open && Valid(Run(Take(s), evs))
    requires LeftoversFit(s, evs) && SameReadOnly(s, Run(Take(s), evs))
    ensures Faithful(StreamOf(Run(Take(s), evs)), s)
  {
    hide Count, Valid, StreamOf, TagOf, Run, Take;
    WalkMapped(s);
    var t := Run(Take(s), evs);
    WalkMapped(t);
    forall tag | tag != OfKernel ensures Count(StreamOf(t), tag) == if Part(s, tag) then 1 else 0 {
      match tag
      case OfContext(pid) => StreamContexts(s, evs, pid);
      case OfPage(k) =>
        StreamCount(s, evs, k);
        assert Count(s.captures, OfPage(k)) == if Missed(s, evs, k) then 1 else 0;
    }
    forall r | r in StreamOf(t) && TagOf(r) != OfKernel
      ensures Part(s, TagOf(r)) && r == RecordOf(s, TagOf(r))
    {
      StreamSound(s, evs, r);
    }
  }

  /** And any broken condition puts a page in twice, loses one, or lets a later one in. */
  lemma FaithfulNeedsAll(s: State, evs: seq<Event>)
    requires Valid(s) && Valid(Run(Take(s), evs))
    requires forall k :: Count(StreamOf(Run(Take(s), evs)), OfPage(k)) == if Part(s, OfPage(k)) then 1 else 0
    requires forall r :: r in s.captures && IsPage(r) ==> LeftoverRight(s, r)
    requires forall k :: ReadOnlyAt(Run(Take(s), evs), k) ==>
               ReadOnlyAt(s, k) && Run(Take(s), evs).mem[k].contents == s.mem[k].contents
    ensures LeftoversFit(s, evs) && SameReadOnly(s, Run(Take(s), evs))
  {
    hide Count, Valid, StreamOf, Run, Take, IsPage, LeftoverRight, TagOf;
    WalkMapped(s);
    var t := Run(Take(s), evs);
    WalkMapped(t);
    forall k ensures Count(s.captures, OfPage(k)) == if Missed(s, evs, k) then 1 else 0
      ensures ReadOnlyAt(s, k) ==> ReadOnlyAt(t, k)
    {
      assert Count(StreamOf(t), OfPage(k)) == if Part(s, OfPage(k)) then 1 else 0;
      StreamCount(s, evs, k);
      if Count(s.captures, OfPage(k)) >= 1 {
        LeftoverWritable(s, k);
      }
    }
  }

  lemma LeftoverWritable(s: State, k: Key)
    requires Count(s.captures, OfPage(k)) >= 1
    requires forall r :: r in s.captures && IsPage(r) ==> LeftoverRight(s, r)
    ensures k in s.mem && s.mem[k].regionWritable
  {
    hide Count;
    CountWitness(s.captures, OfPage(k));
  }

  lemma FaithfulLeftover(s: State, rs: seq<Record>, r: Record)
    requires Valid(s) && Faithful(rs, s) && r in rs && r in s.captures && IsPage(r)
    ensures LeftoverRight(s, r)
  {
    hide Count, Distinct;
    assert CaptureOk(r);
    assert TagOf(r) == OfPage(KeyOf(r));
    assert r == RecordOf(s, OfPage(KeyOf(r)));
  }

  /** The walk records every read-only page. */
  lemma ReadOnlyStreams(t: State, k: Key)
    requires Valid(t) && ReadOnlyAt(t, k)
    ensures PageRecord(k, true, t.mem[k].contents) in StreamOf(t)
  {
    hide Count, Distinct, CaptureOk;
    var clean := CleanRecords(t.walk, t.mem);
    CountClean(t.walk, t.mem, OfPage(k));
    CountWitness(clean, OfPage(k));
    var r :| r in clean && TagOf(r) == OfPage(k);
    assert r == PageRecord(k, true, t.mem[k].contents);
  }

  lemma FaithfulReadOnly(s: State, t: State, k: Key)
    requires Valid(t) && Faithful(StreamOf(t), s) && ReadOnlyAt(t, k)
    ensures ReadOnlyAt(s, k) && t.mem[k].contents == s.mem[k].contents
  {
    hide Count, Valid, StreamOf;
    WalkMapped(t);
    ReadOnlyStreams(t, k);
    var r := PageRecord(k, true, t.mem[k].contents);
    assert TagOf(r) == OfPage(k);
    assert r == RecordOf(s, OfPage(k));
  }

  lemma LeftoverStreams(s: State, t: State, r: Record)
    requires Valid(s) && Valid(t) && Pushes(Take(s), t) && r in s.captures
    ensures r in StreamOf(t)
  {
    hide Count, PushedFrom, ContextRecords, CleanRecords, Distinct, CaptureOk, PageOk;
    assert r in Take(s).captures;
    assert r in t.captures;
  }

  /** Snapshot isolation, exactly: whatever happens between take and writeback, the stream is
      the moment of the take, each page once, if and only if the captures left over from before
      the take do no harm and the read-only pages are still the same. With nothing left over, or
      nothing missed, the first condition says that both are so. */
  lemma SnapshotIsolation(s: State, evs: seq<Event>)
    requires Valid(s) && !s.open
    ensures
      var t := Run(Take(s), evs);
      && Valid(t)
      && (Faithful(StreamOf(t), s) <==> LeftoversFit(s, evs) && SameReadOnly(s, t))
    ensures NoStalePages(s) || NothingMissed(s, evs) ==>
              (LeftoversFit(s, evs) <==> NoStalePages(s) && NothingMissed(s, evs))
  {
    hide Valid, Pushes, Count, StreamOf, NoStalePages, NothingMissed, SameReadOnly, LeftoversFit, LeftoverRight, Part,
         Run, Take;
    if NoStalePages(s) || NothingMissed(s, evs) {
      LeftoversUsually(s, evs);
    }
    WalkMapped(s);
    OpenRun(s, evs);
    var t := Run(Take(s), evs);
    WalkMapped(t);
    if Faithful(StreamOf(t), s) {
      forall r | r in s.captures && IsPage(r) ensures LeftoverRight(s, r) {
        LeftoverStreams(s, t, r);
        FaithfulLeftover(s, StreamOf(t), r);
      }
      forall k | ReadOnlyAt(t, k) ensures ReadOnlyAt(s, k) && t.mem[k].contents == s.mem[k].contents {
        FaithfulReadOnly(s, t, k);
      }
      FaithfulNeedsAll(s, evs);
    } else if LeftoversFit(s, evs) && SameReadOnly(s, t) {
      CleanRunIsFaithful(s, evs);
    }
  }

  /** Maps a read-only page, or takes pages away. */
  predicate Disturbs(ev: Event) {
    ev.Unmap? || ev.Exit? || (ev.MapPage? && !ev.regionWritable)
  }

  lemma HappenReadOnly(s: State, ev: Event, k: Key)
    requires Valid(s) && !Disturbs(ev)
    ensures ReadOnlyAt(Happen(s, ev), k) <==> ReadOnlyAt(s, k)
    ensures ReadOnlyAt(s, k) ==> Happen(s, ev).mem[k].contents == s.mem[k].contents
  {
    hide Distinct, CaptureOk;
    if k in s.mem {
      assert PageOk(s.mem[k]);
    }
  }

  /** Nothing short of mapping a read-only page or taking pages away changes the read-only pages:
      a store to one does not happen. */
  lemma {:induction false} ReadOnlyStays(s: State, evs: seq<Event>)
    requires Valid(s) && forall i :: 0 <= i < |evs| ==> !Disturbs(evs[i])
    ensures SameReadOnly(s, Run(s, evs))
    decreases |evs|
  {
    hide Valid, Happen, ReadOnlyAt;
    if evs != [] {
      var u := Happen(s, evs[0]);
      HappenValid(s, evs[0]);
      ReadOnlyStays(u, evs[1..]);
      forall k ensures (ReadOnlyAt(u, k) <==> ReadOnlyAt(s, k))
        && (ReadOnlyAt(s, k) ==> k in s.mem && k in u.mem && u.mem[k].contents == s.mem[k].contents)
      {
        HappenReadOnly(s, evs[0], k);
        ReadOnlyMapped(s, k);
        ReadOnlyMapped(u, k);
      }
    }
  }

  lemma ReadOnlyMapped(s: State, k: Key)
    ensures ReadOnlyAt(s, k) ==> k in s.mem
  {
  }

  // ----- Between checkpoints -----

  /** No page still tagged is stored to before it goes. */
  ghost predicate CleanUnwritten(s: State, evs: seq<Event>) {
    forall k :: Protected(s, k) ==> FirstTouch(evs, k) != Written
  }

  lemma StaleIffDirtied(s: State, evs: seq<Event>)
    requires Valid(s) && s.captures == []
    ensures NoStalePages(Run(s, evs)) <==> CleanUnwritten(s, evs)
  {
    hide Count, Valid, NoStalePages, Protected, FirstTouch, Run;
    StaleCount(Run(s, evs));
    forall k
      ensures Count(Run(s, evs).captures, OfPage(k))
           == if Protected(s, k) && FirstTouch(evs, k) == Written then 1 else 0
    {
      RunFollowed(s, evs, k);
      NoRecords(s.captures);
    }
  }

  lemma NoRecords(rs: seq<Record>)
    requires rs == []
    ensures forall tag :: Count(rs, tag) == 0
  {
  }

  // ----- Whole runs -----

  /** One period of the timer: events with no checkpoint open, a take, events with it open, and
      the writeback that closes it. */
  datatype Cycle = Cycle(closed: seq<Event>, open: seq<Event>)

  function TakePoint(s: State, c: Cycle): State {
    Run(s, c.closed)
  }

  ghost predicate Ready(s: State) {
    Valid(s) && !s.open && s.captures == []
  }

  ghost function WritebackPoint(s: State, c: Cycle): (t: State)
    requires Ready(s)
    ensures Valid(t) && t.epoch == NextEpoch(s.epoch)
  {
    RunValid(s, c.closed);
    OpenRun(TakePoint(s, c), c.open);
    Run(Take(TakePoint(s, c)), c.open)
  }

  lemma CommitReady(t: State)
    requires Valid(t)
    ensures Ready(AfterCommit(t))
  {
    hide Distinct;
  }

  ghost function RunCycles(s: State, cs: seq<Cycle>): (t: State)
    requires Ready(s)
    ensures Ready(t)
    decreases |cs|
  {
    if cs == [] then s
    else
      CommitReady(WritebackPoint(s, cs[0]));
      RunCycles(AfterCommit(WritebackPoint(s, cs[0])), cs[1..])
  }

  /** In every timer-driven run, every checkpoint is exactly the moment it was taken at, if and
      only if its leftovers fit and the read-only pages stayed the same while it was open. When no
      page the previous writeback left clean was written before the take, or no page of the moment
      is missed, the leftovers fit exactly if both are so. */
  lemma EveryCheckpointExact(boot: State, before: seq<Cycle>, c: Cycle)
    requires Ready(boot)
    ensures
      var s := RunCycles(boot, before);
      var m, t := TakePoint(s, c), WritebackPoint(s, c);
      && (Faithful(StreamOf(t), m) <==> LeftoversFit(m, c.open) && SameReadOnly(m, t))
      && (CleanUnwritten(s, c.closed) || NothingMissed(m, c.open) ==>
            (LeftoversFit(m, c.open) <==> CleanUnwritten(s, c.closed) && NothingMissed(m, c.open)))
  {
    hide Valid, Faithful, Run, CleanUnwritten, NothingMissed, SameReadOnly, NoStalePages, LeftoversFit, Take;
    var s := RunCycles(boot, before);
    var m := TakePoint(s, c);
    RunValid(s, c.closed);
    StaleIffDirtied(s, c.closed);
    SnapshotIsolation(m, c.open);
  }

  /** The n-th checkpoint of a run carries the n-th epoch after the one it started from, modulo 2^64. */
  lemma {:induction false} EpochsCount(boot: State, cs: seq<Cycle>, c: Cycle)
    requires Ready(boot)
    ensures RunCycles(boot, cs).epoch == (boot.epoch + |cs|) % 0x1_0000_0000_0000_0000
    ensures WritebackPoint(RunCycles(boot, cs), c).epoch == (boot.epoch + |cs| + 1) % 0x1_0000_0000_0000_0000
    decreases |cs|
  {
    hide Ready, WritebackPoint, Valid;
    if cs != [] {
      var t := WritebackPoint(boot, cs[0]);
      CommitReady(t);
      EpochsCount(AfterCommit(t), cs[1..], c);
      NextCounts(boot.epoch, |cs| - 1);
      NextCounts(boot.epoch, |cs|);
    }
  }

  lemma NextCounts(e: U64, n: nat)
    ensures (NextEpoch(e) + n) % 0x1_0000_0000_0000_0000 == (e + 1 + n) % 0x1_0000_0000_0000_0000
  {
  }

  // ----- Runs from boot that break each of the conditions -----

  const BOOT: State := State([], map[], [], map[], 0, false, [])

  lemma BootReady()
    ensures Ready(BOOT)
  {
  }

  /** A process with one writable page. */
  function Started(k: Key, c: Context, a: Page): seq<Event> {
    [Spawn(k.pid, c), MapPage(k, true, a)]
  }

  lemma StartedState(k: Key, c: Context, a: Page)
    ensures Ready(BOOT)
    ensures Run(BOOT, Started(k, c, a))
         == State([k], map[k := PageState(Pte(true, true, false), true, a)], [k.pid], map[k.pid := c], 0, false, [])
  {
    BootReady();
    var spawned := Happen(BOOT, Spawn(k.pid, c));
    assert spawned == State([], map[], [k.pid], map[k.pid := c], 0, false, []);
    assert Started(k, c, a)[1..] == [MapPage(k, true, a)];
    OneEvent(spawned, MapPage(k, true, a));
  }

  /** A page left clean by the first checkpoint and written before the second is taken. */
  lemma StaleRun(k: Key, c: Context, a: Page, b: Page)
    ensures Ready(BOOT)
    ensures
      var first, second := Cycle(Started(k, c, a), []), Cycle([Store(k, b)], []);
      var s := RunCycles(BOOT, [first]);
      var m := TakePoint(s, second);
      && PageRecord(k, false, a) in m.captures && Kept(m, [], k)
      && !Faithful(StreamOf(WritebackPoint(s, second)), m)
  {
    hide Faithful, StreamOf, LeftoversFit, SameReadOnly, Started, ContextRecords, Valid;
    StartedState(k, c, a);
    var first, second := Cycle(Started(k, c, a), []), Cycle([Store(k, b)], []);
    var s := RunCycles(BOOT, [first]);
    OneCycle(BOOT, first);
    OneEvent(s, Store(k, b));
    assert [Store(k, b)][0] == Store(k, b);
    var m := TakePoint(s, second);
    assert Protected(s, k) && FirstTouch(second.closed, k) == Written;
    assert NothingMissed(m, []);
    EveryCheckpointExact(BOOT, [first], second);
  }

  /** A read-only page mapped while the checkpoint is open. */
  lemma LateReadOnlyRun(k: Key, c: Context, a: Page)
    ensures Ready(BOOT)
    ensures
      var cy := Cycle([Spawn(k.pid, c)], [MapPage(k, false, a)]);
      !Faithful(StreamOf(WritebackPoint(BOOT, cy)), TakePoint(BOOT, cy))
  {
    hide Faithful, StreamOf, LeftoversFit, ContextRecords, Valid;
    BootReady();
    var cy := Cycle([Spawn(k.pid, c)], [MapPage(k, false, a)]);
    OneEvent(BOOT, Spawn(k.pid, c));
    var m := TakePoint(BOOT, cy);
    RunValid(BOOT, cy.closed);
    WalkMapped(m);
    OneEvent(Take(m), MapPage(k, false, a));
    assert ReadOnlyAt(WritebackPoint(BOOT, cy), k) && !ReadOnlyAt(m, k);
    EveryCheckpointExact(BOOT, [], cy);
  }

  /** A page a fork protected before the take, and a page unmapped before it was written. */
  lemma MissedRuns(k: Key, c: Context, a: Page)
    ensures Ready(BOOT)
    ensures
      var cy := Cycle(Started(k, c, a) + [Share(k)], []);
      !Faithful(StreamOf(WritebackPoint(BOOT, cy)), TakePoint(BOOT, cy))
    ensures
      var cy := Cycle(Started(k, c, a), [Unmap(k)]);
      !Faithful(StreamOf(WritebackPoint(BOOT, cy)), TakePoint(BOOT, cy))
  {
    hide Faithful, StreamOf, LeftoversFit, SameReadOnly, Started, Valid;
    StartedState(k, c, a);
    var one, two := Cycle(Started(k, c, a) + [Share(k)], []), Cycle(Started(k, c, a), [Unmap(k)]);
    RunAppend(BOOT, Started(k, c, a), [Share(k)]);
    OneEvent(Run(BOOT, Started(k, c, a)), Share(k));
    assert Missed(TakePoint(BOOT, one), one.open, k);
    assert [Unmap(k)][0] == Unmap(k);
    assert Missed(TakePoint(BOOT, two), two.open, k);
    NothingTagged(one.closed);
    NothingTagged(two.closed);
    EveryCheckpointExact(BOOT, [], one);
    EveryCheckpointExact(BOOT, [], two);
  }

  lemma NothingTagged(evs: seq<Event>)
    ensures CleanUnwritten(BOOT, evs)
  {
  }

  lemma OneEvent(s: State, ev: Event)
    ensures Run(s, [ev]) == Happen(s, ev)
  {
    hide Happen;
    assert [ev][1..] == [];
  }

  lemma {:induction false} RunAppend(s: State, a: seq<Event>, b: seq<Event>)
    ensures Run(s, a + b) == Run(Run(s, a), b)
    decreases |a|
  {
    hide Happen;
    if a == [] {
      assert a + b == b;
    } else {
      assert (a + b)[1..] == a[1..] + b;
      RunAppend(Happen(s, a[0]), a[1..], b);
    }
  }

  lemma OneCycle(s: State, c: Cycle)
    requires Ready(s)
    ensures RunCycles(s, [c]) == AfterCommit(WritebackPoint(s, c))
  {
    hide WritebackPoint, AfterCommit;
    assert [c][1..] == [];
  }
}
