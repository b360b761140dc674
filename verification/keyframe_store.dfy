/** N snapshot-store regions driven by the retention ring, plus the ring's on-disk index cache. */
module KeyframeStore {
  import opened Bytes
  import opened Crc32
  import opened Disk
  import opened SnapshotStore
  import opened KeyframeRing

  datatype Layout = Layout(base: nat, indexSectors: nat, capacity: U32, slotSectors: nat, version: U32) {
    ghost predicate Valid() {
      && 1 <= capacity <= RING_MAX && 3 <= indexSectors <= 4 && slotSectors >= 10
      && base + TotalSectors() <= 0x1_0000_0000
    }

    function RegionSectors(): nat {
      1 + 2 * slotSectors
    }

    function TotalSectors(): nat {
      indexSectors + capacity * RegionSectors()
    }

    function Region(i: nat): Geometry {
      Geometry(base + indexSectors + i * RegionSectors(), slotSectors, version)
    }
  }

  /** Regions lie side by side behind the index and inside the advertised total. */
  lemma RegionsApart(l: Layout, i: nat, j: nat)
    requires l.Valid() && i < l.capacity && j < l.capacity
    ensures l.Region(i).Valid()
    ensures l.base + l.indexSectors <= l.Region(i).base
    ensures l.Region(i).base + l.RegionSectors() <= l.base + l.TotalSectors()
    ensures i < j ==> l.Region(i).base + l.RegionSectors() <= l.Region(j).base
  {
    var n := l.RegionSectors();
    Spread(i, l.capacity, n);
    if i < j {
      Spread(i, j, n);
    }
  }

  /** And leave no sector between them: index, then one superblock and two slots for each. */
  lemma RegionsTile(l: Layout, i: nat)
    requires l.capacity > 0
    ensures l.Region(0).base == l.base + l.indexSectors
    ensures l.Region(i + 1).base == l.Region(i).base + 1 + 2 * l.slotSectors
    ensures l.base + l.TotalSectors() == l.Region(l.capacity - 1).base + 1 + 2 * l.slotSectors
  {
    var n, c := l.RegionSectors(), l.capacity - 1;
    assert (i + 1) * n == i * n + n && (c + 1) * n == c * n + n;
  }

  lemma {:induction false} Spread(i: nat, j: nat, n: nat)
    requires i < j
    ensures i * n + n <= j * n
  {
    if j > i + 1 {
      Spread(i, j - 1, n);
    }
    assert j * n == (j - 1) * n + n;
  }

  // ----- A store only reads and writes its own region -----

  ghost predicate SameRegion(d: Image, d': Image, g: Geometry) {
    forall at: nat :: g.base <= at < g.base + 1 + 2 * g.slotSectors ==> Read(d', at) == Read(d, at)
  }

  lemma DurableLocal(d: Image, d': Image, g: Geometry, last: Option<Checkpoint>)
    requires g.Valid() && Durable(d, g, last) && SameRegion(d, d', g)
    ensures Durable(d', g, last)
  {
    hide SuperSector, HeaderSector, StreamCrc, Stream;
    if last.Some? {
      var ck := last.value;
      var slot := if Committed(d, g, 0, ck) then 0 else 1;
      SlotsApart(g, slot, 0, 1 - slot, 0);
      assert g.Slot(slot) + 9 * |ck.records| < g.base + 1 + 2 * g.slotSectors;
      var s := Stream(ck.epoch, ck.records);
      forall i | 0 <= i < |s| ensures Read(d', g.Slot(slot) + 1 + i) == s[i] {
        assert Read(d, g.Slot(slot) + 1 + i) == s[i];
      }
      assert Committed(d', g, slot, ck);
    }
  }

  lemma WritesStayInRegion(d: Image, g: Geometry, ck: Checkpoint, i: nat)
    requires g.Valid() && i < |CheckpointWrites(d, g, ck)|
    ensures g.base <= CheckpointWrites(d, g, ck)[i].at < g.base + 1 + 2 * g.slotSectors
  {
    hide SuperSector, HeaderSector, StreamCrc, Stream, InactiveSlot;
    SlotInRegion(g, InactiveSlot(d, g));
  }

  lemma SlotInRegion(g: Geometry, slot: nat)
    requires g.Valid() && slot <= 1
    ensures g.base < g.Slot(slot)
    ensures g.Slot(slot) + 9 * g.MaxRecords() < g.base + 1 + 2 * g.slotSectors
  {
    SlotsApart(g, slot, 0, 1 - slot, 0);
    assert 9 * g.MaxRecords() <= g.slotSectors - 1;
  }

  // ----- The index cache -----

  function IndexSectors(l: Layout, r: Ring): (secs: seq<Sector>)
    requires l.indexSectors <= 4 && |r.slots| == RING_MAX
    ensures |secs| == l.indexSectors
  {
    Chop(PackRing(r) + Zeros(2048 - PACKED_SIZE))[..l.indexSectors]
  }

  function IndexWrites(l: Layout, r: Ring): seq<Write>
    requires l.indexSectors <= 4 && |r.slots| == RING_MAX
  {
    Burst(l.base, IndexSectors(l, r))
  }

  function ReadIndex(d: Image, l: Layout): Option<Ring>
    requires l.indexSectors <= 4
  {
    var parsed := UnpackRing(Concat(ReadRun(d, l.base, l.indexSectors)) + Zeros(2048 - 512 * l.indexSectors));
    if parsed.Some? && parsed.value.capacity == l.capacity then parsed else None
  }

  lemma {:induction false} ConcatChopPrefix(s: seq<Byte>, n: nat)
    requires |s| % 512 == 0 && n <= |s| / 512
    ensures Concat(Chop(s)[..n]) == s[..512 * n]
    decreases n
  {
    if n > 0 {
      ConcatChopPrefix(s[512..], n - 1);
      assert Chop(s)[..n] == [s[..512]] + Chop(s[512..])[..n - 1];
      assert Chop(s)[..n][1..] == Chop(s[512..])[..n - 1];
      assert s[..512] + s[512..][..512 * (n - 1)] == s[..512 * n];
    }
  }

  lemma IndexReadsBack(d: Image, l: Layout, r: Ring)
    requires l.Valid() && InRange(r)
    requires Holds(d, l.base, IndexSectors(l, r))
    ensures ReadIndex(d, l) == if r.capacity == l.capacity then Some(r) else None
  {
    hide PackRing, UnpackRing, Chop, Concat;
    var n := l.indexSectors;
    var all := PackRing(r) + Zeros(2048 - PACKED_SIZE);
    HoldsRun(d, l.base, IndexSectors(l, r));
    ConcatChopPrefix(all, n);
    var buf := all[..512 * n] + Zeros(2048 - 512 * n);
    assert buf == PackRing(r) + buf[PACKED_SIZE..];
    UnpackUndoesPack(r, buf[PACKED_SIZE..]);
  }

  lemma IndexLocal(d: Image, d': Image, l: Layout)
    requires l.Valid()
    requires forall at: nat :: l.base <= at < l.base + l.indexSectors ==> Read(d', at) == Read(d, at)
    ensures ReadIndex(d', l) == ReadIndex(d, l)
  {
    hide UnpackRing, Concat;
    assert ReadRun(d', l.base, l.indexSectors) == ReadRun(d, l.base, l.indexSectors);
  }

  // ----- Rebuilding the ring from the region superblocks -----

  function CountSome(es: seq<Option<U64>>, n: nat): (c: nat)
    requires n <= |es|
    ensures c <= n
  {
    if n == 0 then 0 else CountSome(es, n - 1) + (if es[n - 1].Some? then 1 else 0)
  }

  function FirstEmpty(es: seq<Option<U64>>, n: nat): (f: Option<nat>)
    requires n <= |es|
    ensures f.Some? ==> f.value < n
  {
    if n == 0 then None
    else
      var f := FirstEmpty(es, n - 1);
      if f.None? && es[n - 1].None? then Some(n - 1) else f
  }

  function OldestSlot(es: seq<Option<U64>>, n: nat): (b: Option<nat>)
    requires n <= |es|
    ensures b.Some? ==> b.value < n && es[b.value].Some?
    ensures forall i :: 0 <= i < n && es[i].Some? ==> b.Some? && es[b.value].value <= es[i].value
  {
    if n == 0 then None
    else
      var b := OldestSlot(es, n - 1);
      if es[n - 1].Some? && (b.None? || es[n - 1].value < es[b.value].value) then Some(n - 1) else b
  }

  lemma ScanStart(es: seq<Option<U64>>)
    ensures CountSome(es, 0) == 0 && FirstEmpty(es, 0) == None && OldestSlot(es, 0) == None
  {
  }

  /** One more region scanned. */
  lemma ScanStep(es: seq<Option<U64>>, n: nat)
    requires n < |es|
    ensures
      var f, b := FirstEmpty(es, n), OldestSlot(es, n);
      && CountSome(es, n + 1) == CountSome(es, n) + (if es[n].Some? then 1 else 0)
      && FirstEmpty(es, n + 1) == (if f.None? && es[n].None? then Some(n) else f)
      && OldestSlot(es, n + 1) ==
         (if es[n].Some? && (b.None? || es[n].value < es[b.value].value) then Some(n) else b)
  {
  }

  function SlotFor(e: Option<U64>): Slot {
    if e.Some? then Slot(e.value, 1, 0) else EMPTY
  }

  /** The head rule: the first empty region, or the one with the oldest epoch. */
  function RebuildHead(es: seq<Option<U64>>): nat {
    var f, b := FirstEmpty(es, |es|), OldestSlot(es, |es|);
    if f.Some? then f.value else if b.Some? then b.value else 0
  }

  function RebuildRing(es: seq<Option<U64>>): (r: Ring)
    requires 1 <= |es| <= RING_MAX
    ensures InRange(r) && r.capacity == |es|
  {
    Ring(|es|, CountSome(es, |es|), RebuildHead(es), 0, 0, 0, 0,
         seq(RING_MAX, i requires 0 <= i < RING_MAX => if i < |es| then SlotFor(es[i]) else EMPTY))
  }

  /** What each region holds, and its epoch. */
  type Contents = cs: seq<Option<Checkpoint>> | 1 <= |cs| <= RING_MAX witness [None]

  function EpochOf(c: Option<Checkpoint>): Option<U64> {
    if c.Some? then Some(c.value.epoch) else None
  }

  function EpochsOf(cs: seq<Option<Checkpoint>>): (es: seq<Option<U64>>)
    ensures |es| == |cs|
  {
    seq(|cs|, i requires 0 <= i < |cs| => EpochOf(cs[i]))
  }

  ghost predicate SlotMatches(s: Slot, c: Option<Checkpoint>) {
    (s.valid != 0 <==> c.Some?) && (c.Some? ==> c.value.epoch == s.epoch)
  }

  /** The ring describes the regions exactly. */
  ghost predicate Exact(r: Ring, cs: Contents) {
    && WellFormed(r) && r.capacity == |cs| && Increasing(Window(r))
    && forall i :: 0 <= i < |cs| ==> SlotMatches(r.slots[i], cs[i])
  }

  predicate NewerThanWindow(r: Ring, epoch: U64)
    requires InRange(r) && r.count <= r.capacity
  {
    Window(r) == [] || Window(r)[r.count - 1] < epoch
  }

  /** The index missed the last commit: the region at the head already holds a newer checkpoint. */
  ghost predicate Stale(r: Ring, cs: Contents) {
    && WellFormed(r) && r.capacity == |cs| && Increasing(Window(r))
    && cs[r.head].Some? && NewerThanWindow(r, cs[r.head].value.epoch)
    && forall i :: 0 <= i < |cs| && i != r.head ==> SlotMatches(r.slots[i], cs[i])
  }

  ghost predicate Describes(r: Ring, cs: Contents) {
    Exact(r, cs) || Stale(r, cs)
  }

  /** Two rings with the same slots, count and head. */
  ghost predicate SameIndex(a: Ring, b: Ring) {
    a.capacity == b.capacity && a.count == b.count && a.head == b.head && a.slots == b.slots
  }

  lemma {:induction false} CountPrefix(es: seq<Option<U64>>, n: nat, full: nat)
    requires n <= |es| && forall i :: 0 <= i < |es| ==> (es[i].Some? <==> i < full)
    ensures CountSome(es, n) == if n < full then n else full
    ensures FirstEmpty(es, n) == if n <= full then None else Some(full)
  {
    if n > 0 {
      CountPrefix(es, n - 1, full);
    }
  }

  /** A full ring's oldest epoch is at its head. */
  lemma OldestAtHead(t: Ring, cs: Contents)
    requires Exact(t, cs) && t.count == t.capacity
    ensures OldestSlot(EpochsOf(cs), |cs|) == Some(t.head)
  {
    var es := EpochsOf(cs);
    assert SlotMatches(t.slots[t.head], cs[t.head]);
    var b := OldestSlot(es, |cs|).value;
    assert SlotMatches(t.slots[b], cs[b]);
    SlotInWindow(t, b);
    var i :| 0 <= i < t.count && SlotOf(t, i) == b;
    assert SlotOf(t, 0) == t.head;
    assert es[b].value <= es[t.head].value;
    assert Window(t)[i] <= Window(t)[0];
  }

  /** Scanning the superblocks gives back the index the in-memory ring had. */
  lemma RebuildAgrees(t: Ring, cs: Contents)
    requires Exact(t, cs)
    ensures SameIndex(RebuildRing(EpochsOf(cs)), t)
    ensures Exact(RebuildRing(EpochsOf(cs)), cs)
    ensures var r := RebuildRing(EpochsOf(cs)); r.reclaimedValid == 0 && r.reclaimedEpoch == 0
  {
    var es := EpochsOf(cs);
    forall i | 0 <= i < |es| ensures es[i].Some? <==> i < t.count {
      assert SlotMatches(t.slots[i], cs[i]);
    }
    CountPrefix(es, |es|, t.count);
    if t.count == t.capacity {
      OldestAtHead(t, cs);
    }
    var r := RebuildRing(es);
    forall i | 0 <= i < RING_MAX ensures r.slots[i] == t.slots[i] {
      if i < |cs| {
        assert SlotMatches(t.slots[i], cs[i]);
      }
    }
    assert r.slots == t.slots;
  }

  lemma SlidesUp(w: seq<U64>, epoch: U64)
    requires Increasing(w) && (w != [] ==> w[|w| - 1] < epoch)
    ensures Increasing(w + [epoch])
    ensures w != [] ==> Increasing(w[1..] + [epoch])
  {
    if w != [] {
      assert forall i :: 0 <= i < |w| ==> w[i] <= w[|w| - 1];
    }
  }

  /** Folding a newer checkpoint into the region at the head keeps the description exact. */
  lemma AdvanceExact(r: Ring, cs: Contents, ck: Checkpoint)
    requires Describes(r, cs) && NewerThanWindow(r, ck.epoch)
    ensures Exact(Advance(r, ck.epoch), cs[r.head := Some(ck)])
  {
    var a, cs' := Advance(r, ck.epoch), cs[r.head := Some(ck)];
    forall i | 0 <= i < |cs'| ensures SlotMatches(a.slots[i], cs'[i]) {
      if i != r.head {
        assert SlotMatches(r.slots[i], cs[i]);
      }
    }
    hide Advance, Window, SlotMatches;
    AdvanceWindow(r, ck.epoch);
    SlidesUp(Window(r), ck.epoch);
  }

  lemma MissedCommitIsStale(r: Ring, cs: Contents, ck: Checkpoint)
    requires Describes(r, cs) && NewerThanWindow(r, ck.epoch)
    ensures Stale(r, cs[r.head := Some(ck)])
  {
    hide SlotMatches, Window;
  }

  // ----- Reading a keyframe -----

  datatype KeyframeLoad = Found(ck: Checkpoint) | NoKeyframe | RegionUnreadable | IndexDisagrees

  /** keyframe_store_load_epoch followed by reading the records. */
  function LoadEpoch(d: Image, l: Layout, r: Ring, target: U64): KeyframeLoad
    requires l.Valid() && Shaped(r) && r.capacity == l.capacity
  {
    var s := Find(r, target);
    if s.None? then NoKeyframe
    else
      RegionsApart(l, s.value, s.value);
      match ReadBack(d, l.Region(s.value))
      case None => RegionUnreadable
      case Some(ck) => if ck.epoch == r.slots[s.value].epoch then Found(ck) else IndexDisagrees
  }

  ghost predicate RegionsHold(d: Image, l: Layout, cs: Contents)
    requires l.Valid() && |cs| == l.capacity
  {
    forall i {:trigger cs[i]} :: 0 <= i < |cs| ==>
      l.Region(i).Valid() && Durable(d, l.Region(i), cs[i])
  }

  lemma RegionReadsBack(d: Image, l: Layout, cs: Contents, i: nat)
    requires l.Valid() && |cs| == l.capacity && RegionsHold(d, l, cs) && i < |cs|
    ensures l.Region(i).Valid() && ReadBack(d, l.Region(i)) == cs[i]
  {
    assert cs[i] == cs[i];
    DurableReadsBack(d, l.Region(i), cs[i]);
  }

  /** A load yields the exact retained checkpoint of the epoch it selects, for every slot but
      one: the slot a missed commit has overtaken reports the index disagreement instead. */
  lemma LoadsExactly(d: Image, l: Layout, r: Ring, cs: Contents, target: U64)
    requires l.Valid() && |cs| == l.capacity && RegionsHold(d, l, cs) && Describes(r, cs)
    ensures Find(r, target).None? ==> LoadEpoch(d, l, r, target) == NoKeyframe
    ensures Find(r, target).Some? ==>
              var s := Find(r, target).value;
              if Stale(r, cs) && s == r.head then LoadEpoch(d, l, r, target) == IndexDisagrees
              else cs[s].Some? && LoadEpoch(d, l, r, target) == Found(cs[s].value)
                   && cs[s].value.epoch == r.slots[s].epoch <= target
  {
    hide ReadBack, Durable, Window, SlotOf, NewerThanWindow, Increasing;
    var b := Find(r, target);
    if b.Some? {
      var s := b.value;
      RegionReadsBack(d, l, cs, s);
      if Stale(r, cs) && s == r.head {
        OvertakenSlot(r, cs);
      } else {
        assert SlotMatches(r.slots[s], cs[s]);
      }
    }
  }

  lemma OvertakenSlot(r: Ring, cs: Contents)
    requires Stale(r, cs) && r.slots[r.head].valid != 0
    ensures r.slots[r.head].epoch < cs[r.head].value.epoch
  {
    SlotInWindow(r, r.head);
    var i :| 0 <= i < r.count && SlotOf(r, i) == r.head;
    assert Window(r)[i] <= Window(r)[r.count - 1];
  }

  // ----- Machine steps, each of which may be cut off -----

  datatype Step =
    | Reload(cut: nat)
    | Checkpointed(ck: Checkpoint, cut: nat)

  /** The disk, and the ring in memory while the machine is up. */
  datatype Machine = Machine(disk: Image, mem: Option<Ring>)

  function RegionEpochs(d: Image, l: Layout): (es: seq<Option<U64>>)
    requires l.Valid()
    ensures |es| == l.capacity
  {
    seq(l.capacity, i requires 0 <= i < l.capacity =>
      RegionsApart(l, i, i); EpochOf(ReadBack(d, l.Region(i))))
  }

  lemma RegionEpochAt(d: Image, l: Layout, i: nat)
    requires l.Valid() && i < l.capacity && l.Region(i).Valid()
    ensures RegionEpochs(d, l)[i] == EpochOf(ReadBack(d, l.Region(i)))
  {
    hide ReadBack;
  }

  /** Region writes, then, only once the region committed, the republished index. */
  function CommitWrites(d: Image, l: Layout, r: Ring, ck: Checkpoint): seq<Write>
    requires l.Valid() && InRange(r) && r.capacity == l.capacity
  {
    RegionsApart(l, r.head, r.head);
    var g := l.Region(r.head);
    CheckpointWrites(d, g, ck) + (if FitsSlot(g, ck) then IndexWrites(l, Advance(r, ck.epoch)) else [])
  }

  function Fitting(l: Layout, r: Ring, ck: Checkpoint): bool
    requires l.Valid() && InRange(r) && r.capacity == l.capacity
  {
    RegionsApart(l, r.head, r.head);
    FitsSlot(l.Region(r.head), ck)
  }

  /** The number of sector writes up to and including a region's flip. */
  function FlipAt(ck: Checkpoint): nat {
    SECTORS_PER_RECORD * |ck.records| + 2
  }

  /** The superblock flip of the region was reached. */
  function Flipped(l: Layout, r: Ring, ck: Checkpoint, cut: nat): bool
    requires l.Valid() && InRange(r) && r.capacity == l.capacity
  {
    Fitting(l, r, ck) && cut >= FlipAt(ck)
  }

  ghost predicate MachineOk(s: Machine, l: Layout) {
    s.mem.Some? ==> InRange(s.mem.value) && s.mem.value.capacity == l.capacity
  }

  function ReloadRing(d: Image, l: Layout): (r: Ring)
    requires l.Valid()
  {
    match ReadIndex(d, l)
    case Some(r) => r
    case None => RebuildRing(RegionEpochs(d, l))
  }

  function ReloadWrites(d: Image, l: Layout): seq<Write>
    requires l.Valid()
  {
    if ReadIndex(d, l).Some? then [] else IndexWrites(l, RebuildRing(RegionEpochs(d, l)))
  }

  /** A cut job leaves the machine off; a checkpoint on a machine that is off does nothing. */
  function Do(s: Machine, l: Layout, step: Step): Machine
    requires l.Valid() && MachineOk(s, l)
  {
    match step
    case Reload(cut) =>
      var ws := ReloadWrites(s.disk, l);
      Machine(Cut(s.disk, ws, cut), if cut >= |ws| then Some(ReloadRing(s.disk, l)) else None)
    case Checkpointed(ck, cut) =>
      if s.mem.None? then s
      else
        var r := s.mem.value;
        var ws := CommitWrites(s.disk, l, r, ck);
        var r' := if Fitting(l, r, ck) then Advance(r, ck.epoch) else r;
        Machine(Cut(s.disk, ws, cut), if cut >= |ws| then Some(r') else None)
  }

  /** What the regions hold afterwards. */
  function After(cs: Contents, s: Machine, l: Layout, step: Step): (cs': Contents)
    requires l.Valid() && MachineOk(s, l) && |cs| == l.capacity
    ensures |cs'| == |cs|
  {
    if step.Checkpointed? && s.mem.Some? && Flipped(l, s.mem.value, step.ck, step.cut)
    then cs[s.mem.value.head := Some(step.ck)] else cs
  }

  /** The index bytes past the first sector, up to the checksum, are those of empty slots. */
  ghost predicate TailEmpty(d: Image, l: Layout) {
    Read(d, l.base + 1) == Zeros(512) && Read(d, l.base + 2)[..32] == Zeros(32)
  }

  /** Of a ring whose slots do not all lie in the first index sector, the checksum tells an index
      torn after j sectors from both whole ones. */
  ghost predicate TearNoticed(d: Image, l: Layout, r: Ring, j: nat)
    requires l.Valid() && InRange(r)
  {
    l.capacity > IN_FIRST_SECTOR && 0 < j < l.indexSectors ==>
      ReadIndex(Cut(d, IndexWrites(l, r), j), l) in {None, ReadIndex(d, l), Some(r)}
  }

  lemma IndexSectorAt(l: Layout, r: Ring, i: nat)
    requires l.Valid() && InRange(r) && i < l.indexSectors
    ensures IndexSectors(l, r)[i] == (PackRing(r) + Zeros(2048 - PACKED_SIZE))[512 * i..512 * i + 512]
  {
    hide PackRing;
    ChopAt(PackRing(r) + Zeros(2048 - PACKED_SIZE), i);
  }

  function FirstBytes(a: seq<Byte>, b: seq<Byte>, c: Sector): seq<Byte> {
    a + b + c[..32]
  }

  /** Three index sectors in the first of which a ring lies whole. */
  ghost predicate FirstHolds(r: Ring, a: Sector, b: Sector, c: Sector)
    requires InRange(r)
  {
    b == Zeros(512) && c[..32] == Zeros(32) && Body(r) == FirstBytes(a, b, c)
  }

  lemma FirstSectorHolds(l: Layout, r: Ring)
    requires l.Valid() && WellFormed(r) && r.capacity <= IN_FIRST_SECTOR
    ensures FirstHolds(r, IndexSectors(l, r)[0], IndexSectors(l, r)[1], IndexSectors(l, r)[2])
  {
    hide Body, IndexSectors;
    BodyTail(r);
    IndexSectorAt(l, r, 0);
    IndexSectorAt(l, r, 1);
    IndexSectorAt(l, r, 2);
    PackedSectors(Body(r), PackRing(r) + Zeros(2048 - PACKED_SIZE)) by {
      assert (PackRing(r) + Zeros(2048 - PACKED_SIZE))[..1056] == Body(r);
    }
  }

  lemma PackedSectors(body: seq<Byte>, all: seq<Byte>)
    requires |body| == 1056 && |all| == 2048 && all[..1056] == body && body[512..] == Zeros(544)
    ensures all[512..1024] == Zeros(512) && all[1024..1536][..32] == Zeros(32)
    ensures body == all[0..512] + all[512..1024] + all[1024..1536][..32]
  {
    assert all[512..1056] == body[512..];
    assert all[512..1024] == all[512..1056][..512];
    assert all[1024..1536][..32] == all[512..1056][512..];
  }

  /** The first 1056 index bytes, sector by sector. */
  lemma IndexBytes(d: Image, l: Layout)
    requires l.Valid()
    ensures
      var buf := Concat(ReadRun(d, l.base, l.indexSectors)) + Zeros(2048 - 512 * l.indexSectors);
      |buf| == 2048 && buf[..1056] == FirstBytes(Read(d, l.base), Read(d, l.base + 1), Read(d, l.base + 2))
  {
    hide Concat;
    var run := ReadRun(d, l.base, l.indexSectors);
    ConcatSectors(run);
    ThreeSectors(run);
    assert run[0] == Read(d, l.base + 0) && run[1] == Read(d, l.base + 1) && run[2] == Read(d, l.base + 2);
  }

  lemma ThreeSectors(run: seq<Sector>)
    requires |run| >= 3 && |Concat(run)| >= 1056
    ensures Concat(run)[..1056] == FirstBytes(run[0], run[1], run[2])
  {
    assert run[1..][0] == run[1] && run[1..][1..] == run[2..];
    assert run[2..][0] == run[2] && run[2..][1..] == run[3..];
    var a: seq<Byte>, b: seq<Byte>, c: seq<Byte> := run[0], run[1], run[2];
    assert Concat(run) == a + (b + (c + Concat(run[3..])));
  }

  /** An index write cut off anywhere leaves what was there, nothing readable, or the new ring. */
  lemma TornIndex(d: Image, l: Layout, r: Ring, j: nat)
    requires l.Valid() && WellFormed(r) && r.capacity == l.capacity && TearNoticed(d, l, r, j)
    requires l.capacity <= IN_FIRST_SECTOR ==> TailEmpty(d, l)
    ensures ReadIndex(Cut(d, IndexWrites(l, r), j), l) in {None, ReadIndex(d, l), Some(r)}
    ensures l.capacity <= IN_FIRST_SECTOR ==> TailEmpty(Cut(d, IndexWrites(l, r), j), l)
  {
    hide ReadIndex, IndexSectors, Cut, Body, FirstBytes, FirstHolds;
    var e := Cut(d, IndexWrites(l, r), j);
    if j == 0 {
      CutEmpty(d, IndexWrites(l, r));
    } else if l.capacity <= IN_FIRST_SECTOR {
      FirstSectorHolds(l, r);
      var secs := IndexSectors(l, r);
      BurstCut(d, l.base, secs, j, 0);
      BurstCut(d, l.base, secs, j, 1);
      BurstCut(d, l.base, secs, j, 2);
      assert Read(e, l.base) == Read(e, l.base + 0) == secs[0];
      EmptyTail(r, secs[0], secs[1], secs[2]);
      FirstSectorReads(e, l, r);
    } else if j >= l.indexSectors {
      CutFull(d, IndexWrites(l, r), j);
      BurstHolds(d, l.base, IndexSectors(l, r));
      IndexReadsBack(e, l, r);
    }
  }

  lemma EmptyTail(r: Ring, a: Sector, b: Sector, c: Sector)
    requires InRange(r) && FirstHolds(r, a, b, c)
    ensures Body(r) == FirstBytes(a, Zeros(512), Zeros(512)) && b == Zeros(512) && c[..32] == Zeros(32)
  {
    hide Body;
    assert Zeros(512)[..32] == Zeros(32);
  }

  lemma FirstSectorReads(e: Image, l: Layout, r: Ring)
    requires l.Valid() && InRange(r) && r.capacity == l.capacity && TailEmpty(e, l)
    requires Body(r) == FirstBytes(Read(e, l.base), Zeros(512), Zeros(512))
    ensures ReadIndex(e, l) in {None, Some(r)}
  {
    hide Body, UnpackRing, Concat, ReadRun;
    IndexBytes(e, l);
    var buf := Concat(ReadRun(e, l.base, l.indexSectors)) + Zeros(2048 - 512 * l.indexSectors);
    assert Zeros(512)[..32] == Zeros(32);
    BodyUnpacks(r, buf);
  }

  /** Epochs grow; and, of a ring too large for one sector, a torn index write is noticed. */
  ghost predicate StepAllowed(s: Machine, l: Layout, step: Step)
    requires l.Valid() && MachineOk(s, l)
  {
    match step
    case Reload(cut) =>
      ReadIndex(s.disk, l).None? ==> TearNoticed(s.disk, l, RebuildRing(RegionEpochs(s.disk, l)), cut)
    case Checkpointed(ck, cut) =>
      s.mem.Some? ==>
        var r := s.mem.value;
        && r.count <= r.capacity && NewerThanWindow(r, ck.epoch)
        && (Flipped(l, r, ck, cut) ==> TearNoticed(s.disk, l, Advance(r, ck.epoch), cut - FlipAt(ck)))
  }

  /** What holds of the disk between any two steps. */
  ghost predicate Recoverable(d: Image, l: Layout, cs: Contents)
    requires l.Valid()
  {
    && |cs| == l.capacity && RegionsHold(d, l, cs)
    && Exact(RebuildRing(EpochsOf(cs)), cs)
    && (ReadIndex(d, l).Some? ==> Describes(ReadIndex(d, l).value, cs))
    && (l.capacity <= IN_FIRST_SECTOR ==> TailEmpty(d, l))
  }

  ghost predicate Healthy(s: Machine, l: Layout, cs: Contents)
    requires l.Valid()
  {
    Recoverable(s.disk, l, cs) && (s.mem.Some? ==> ReadIndex(s.disk, l) == s.mem)
  }

  /** Writes confined to one region leave the other regions and the index alone. */
  lemma RegionCut(d: Image, l: Layout, cs: Contents, h: nat, ck: Checkpoint, cut: nat)
    requires l.Valid() && |cs| == l.capacity && RegionsHold(d, l, cs) && h < |cs|
    requires l.Region(h).Valid()
    ensures var g := l.Region(h);
            var d' := Cut(d, CheckpointWrites(d, g, ck), cut);
            && RegionsHold(d', l, if Commits(d, g, Attempt(ck, cut)) then cs[h := Some(ck)] else cs)
            && ReadIndex(d', l) == ReadIndex(d, l)
            && (TailEmpty(d, l) ==> TailEmpty(d', l))
  {
    hide Durable, CheckpointWrites, ReadIndex;
    var g := l.Region(h);
    var ws := CheckpointWrites(d, g, ck);
    var k := if cut < |ws| then cut else |ws|;
    var d' := Cut(d, ws, cut);
    assert cs[h] == cs[h];
    CrashStep(d, g, cs[h], Attempt(ck, cut));
    forall at: nat | at < g.base || g.base + l.RegionSectors() <= at
      ensures Read(d', at) == Read(d, at)
    {
      forall i | 0 <= i < k ensures ws[..k][i].at != at {
        WritesStayInRegion(d, g, ck, i);
      }
      ReadUntouched(d, ws[..k], at);
    }
    var cs' := if Commits(d, g, Attempt(ck, cut)) then cs[h := Some(ck)] else cs;
    forall i | 0 <= i < |cs'| ensures l.Region(i).Valid() && Durable(d', l.Region(i), cs'[i]) {
      assert cs[i] == cs[i];
      if i != h {
        RegionsApart(l, i, h);
        RegionsApart(l, h, i);
        DurableLocal(d, d', l.Region(i), cs[i]);
      }
    }
    RegionsApart(l, h, h);
    IndexLocal(d, d', l);
  }

  lemma IndexCut(d: Image, l: Layout, cs: Contents, r: Ring, cut: nat)
    requires l.Valid() && |cs| == l.capacity && RegionsHold(d, l, cs)
    requires InRange(r) && r.capacity == l.capacity
    ensures RegionsHold(Cut(d, IndexWrites(l, r), cut), l, cs)
    ensures cut >= |IndexWrites(l, r)| ==> ReadIndex(Cut(d, IndexWrites(l, r), cut), l) == Some(r)
  {
    hide Durable, IndexSectors, ReadIndex;
    var ws := IndexWrites(l, r);
    var k := if cut < |ws| then cut else |ws|;
    var d' := Cut(d, ws, cut);
    forall i | 0 <= i < |cs| ensures l.Region(i).Valid() && Durable(d', l.Region(i), cs[i]) {
      assert cs[i] == cs[i];
      RegionsApart(l, i, i);
      forall at: nat | l.base + l.indexSectors <= at ensures Read(d', at) == Read(d, at) {
        ReadUntouched(d, ws[..k], at);
      }
      DurableLocal(d, d', l.Region(i), cs[i]);
    }
    if cut >= |ws| {
      CutFull(d, ws, cut);
      BurstHolds(d, l.base, IndexSectors(l, r));
      IndexReadsBack(d', l, r);
    }
  }

  function IndexImage(d: Image, l: Layout): seq<Byte> {
    Concat(ReadRun(d, l.base, l.indexSectors))
  }

  lemma IndexImageLong(d: Image, l: Layout)
    requires l.Valid()
    ensures |IndexImage(d, l)| == 512 * l.indexSectors >= 1536
  {
    ConcatSectors(ReadRun(d, l.base, l.indexSectors));
  }

  /** Damage within four adjacent bytes of the index is noticed, and the rebuild from the regions
      gives the same ring back. */
  lemma DamagedIndexHeals(d: Image, e: Image, l: Layout, cs: Contents, r: Ring, i: nat)
    requires l.Valid() && |cs| == l.capacity && RegionsHold(d, l, cs) && ReadIndex(d, l) == Some(r) && Exact(r, cs)
    requires forall at: nat :: l.base + l.indexSectors <= at ==> Read(e, at) == Read(d, at)
    requires |IndexImage(d, l)| >= PACKED_SIZE && |IndexImage(e, l)| >= PACKED_SIZE
    requires DamagedAt(IndexImage(d, l)[..PACKED_SIZE], IndexImage(e, l)[..PACKED_SIZE], i)
    ensures ReadIndex(e, l) == None && SameIndex(ReloadRing(e, l), r)
  {
    hide Durable, ReadBack, UnpackRing, Concat, Exact, RebuildRing, DamagedAt, RegionEpochs;
    IndexImageLong(d, l);
    IndexImageLong(e, l);
    var pad := Zeros(2048 - 512 * l.indexSectors);
    var a, b := IndexImage(d, l) + pad, IndexImage(e, l) + pad;
    assert a[..PACKED_SIZE] == IndexImage(d, l)[..PACKED_SIZE] && b[..PACKED_SIZE] == IndexImage(e, l)[..PACKED_SIZE];
    DamagedRingRefused(a, b, i);
    forall i | 0 <= i < |cs| ensures RegionEpochs(e, l)[i] == EpochsOf(cs)[i] {
      assert cs[i] == cs[i];
      RegionsApart(l, i, i);
      DurableLocal(d, e, l.Region(i), cs[i]);
      DurableReadsBack(e, l.Region(i), cs[i]);
      RegionEpochAt(e, l, i);
    }
    assert RegionEpochs(e, l) == EpochsOf(cs);
    RebuildAgrees(r, cs);
  }

  lemma {:induction false} ApplyAgrees(d: Image, e: Image, ws: seq<Write>, at: nat)
    requires Read(d, at) == Read(e, at)
    ensures Read(Apply(d, ws), at) == Read(Apply(e, ws), at)
    decreases |ws|
  {
    if ws != [] {
      var w := ws[0];
      ApplyAgrees(d[w.at := w.data], e[w.at := w.data], ws[1..], at);
    }
  }

  /** What a cut index write leaves does not depend on the regions. */
  lemma TornIndexLocal(d: Image, e: Image, l: Layout, r: Ring, j: nat)
    requires l.Valid() && InRange(r)
    requires forall at: nat :: l.base <= at < l.base + l.indexSectors ==> Read(d, at) == Read(e, at)
    ensures ReadIndex(Cut(d, IndexWrites(l, r), j), l) == ReadIndex(Cut(e, IndexWrites(l, r), j), l)
  {
    hide IndexSectors, ReadIndex, Read, Apply;
    var ws := IndexWrites(l, r);
    var k := if j < |ws| then j else |ws|;
    forall at: nat | l.base <= at < l.base + l.indexSectors
      ensures Read(Cut(d, ws, j), at) == Read(Cut(e, ws, j), at)
    {
      ApplyAgrees(d, e, ws[..k], at);
    }
    IndexLocal(Cut(d, ws, j), Cut(e, ws, j), l);
  }

  lemma WriteCount(d: Image, g: Geometry, ck: Checkpoint)
    requires g.Valid() && FitsSlot(g, ck)
    ensures |CheckpointWrites(d, g, ck)| == SECTORS_PER_RECORD * |ck.records| + 2
  {
    hide Stream, StreamCrc, HeaderSector, SuperSector, InactiveSlot;
  }

  lemma RegionLeavesIndex(d: Image, l: Layout, h: nat, ck: Checkpoint, at: nat)
    requires l.Valid() && h < l.capacity && l.Region(h).Valid()
    requires l.base <= at < l.base + l.indexSectors
    ensures Read(Apply(d, CheckpointWrites(d, l.Region(h), ck)), at) == Read(d, at)
  {
    hide CheckpointWrites;
    var ws := CheckpointWrites(d, l.Region(h), ck);
    RegionsApart(l, h, h);
    forall i | 0 <= i < |ws| ensures ws[i].at != at {
      WritesStayInRegion(d, l.Region(h), ck, i);
    }
    ReadUntouched(d, ws, at);
  }

  /** Stopped before the flip: regions, index and window are as they were. */
  lemma BeforeFlip(s: Machine, l: Layout, cs: Contents, step: Step)
    requires l.Valid() && Healthy(s, l, cs) && MachineOk(s, l)
    requires step.Checkpointed? && s.mem.Some? && !Flipped(l, s.mem.value, step.ck, step.cut)
    ensures Healthy(Do(s, l, step), l, cs)
    ensures ReadIndex(Do(s, l, step).disk, l) == ReadIndex(s.disk, l)
  {
    hide RegionsHold, ReadIndex, Describes, Exact, Advance, RebuildRing, CheckpointWrites, IndexWrites;
    var r, ck, cut, d := s.mem.value, step.ck, step.cut, s.disk;
    RegionsApart(l, r.head, r.head);
    var g := l.Region(r.head);
    var ws := CheckpointWrites(d, g, ck);
    RegionCut(d, l, cs, r.head, ck, cut);
    if FitsSlot(g, ck) {
      WriteCount(d, g, ck);
      CutAppend(d, ws, IndexWrites(l, Advance(r, ck.epoch)), cut);
    } else {
      assert ws + [] == ws;
    }
  }

  /** Past the flip: the region holds the new checkpoint, and whatever the index reads as
      describes the regions. */
  lemma AfterFlip(s: Machine, l: Layout, cs: Contents, step: Step)
    requires l.Valid() && Healthy(s, l, cs) && MachineOk(s, l) && StepAllowed(s, l, step)
    requires step.Checkpointed? && s.mem.Some? && Flipped(l, s.mem.value, step.ck, step.cut)
    requires |cs| == l.capacity
    ensures Healthy(Do(s, l, step), l, After(cs, s, l, step))
    ensures ReadIndex(Do(s, l, step).disk, l)
         in {None, ReadIndex(s.disk, l), Some(Advance(s.mem.value, step.ck.epoch))}
  {
    hide RegionsHold, ReadIndex, Exact, Stale, Advance, RebuildRing, CheckpointWrites, IndexWrites, Cut, TailEmpty;
    var r, ck, cut, d := s.mem.value, step.ck, step.cut, s.disk;
    RegionsApart(l, r.head, r.head);
    var g := l.Region(r.head);
    var ws, r', cs' := CheckpointWrites(d, g, ck), Advance(r, ck.epoch), cs[r.head := Some(ck)];
    var d1 := Apply(d, ws);
    var j := cut - |ws|;
    WriteCount(d, g, ck);
    CutAppend(d, ws, IndexWrites(l, r'), cut);
    RegionCut(d, l, cs, r.head, ck, |ws|);
    CutFull(d, ws, |ws|);
    AdvanceExact(r, cs, ck);
    RebuildAgrees(r', cs');
    IndexCut(d1, l, cs', r', j);
    ExactShape(r', cs');
    TearStaysNoticed(d, l, r, ck, j);
    TornIndex(d1, l, r', j);
    MissedCommitIsStale(r, cs, ck);
  }

  lemma ExactShape(r: Ring, cs: Contents)
    requires Exact(r, cs)
    ensures WellFormed(r) && r.capacity == |cs|
  {
  }

  /** Noticing a torn index does not depend on what the region holds. */
  lemma TearStaysNoticed(d: Image, l: Layout, r: Ring, ck: Checkpoint, j: nat)
    requires l.Valid() && InRange(r) && r.capacity == l.capacity && l.Region(r.head).Valid()
    requires TearNoticed(d, l, Advance(r, ck.epoch), j)
    ensures TearNoticed(Apply(d, CheckpointWrites(d, l.Region(r.head), ck)), l, Advance(r, ck.epoch), j)
  {
    hide ReadIndex, Advance, CheckpointWrites, IndexWrites, Cut;
    var d1 := Apply(d, CheckpointWrites(d, l.Region(r.head), ck));
    forall at: nat | l.base <= at < l.base + l.indexSectors ensures Read(d, at) == Read(d1, at) {
      RegionLeavesIndex(d, l, r.head, ck, at);
    }
    TornIndexLocal(d, d1, l, Advance(r, ck.epoch), j);
    IndexLocal(d, d1, l);
  }

  lemma ReloadFinds(d: Image, l: Layout, cs: Contents)
    requires l.Valid() && Recoverable(d, l, cs)
    ensures RegionEpochs(d, l) == EpochsOf(cs)
    ensures Describes(ReloadRing(d, l), cs)
  {
    hide ReadBack, ReadIndex, Exact, Stale, RebuildRing, RegionEpochs;
    forall i | 0 <= i < |cs| ensures RegionEpochs(d, l)[i] == EpochsOf(cs)[i] {
      RegionReadsBack(d, l, cs, i);
      RegionEpochAt(d, l, i);
    }
    assert RegionEpochs(d, l) == EpochsOf(cs);
  }

  /** A reload leaves a ring in memory exactly when the index was there to read or was written back
      whole. */
  lemma ReloadComesUp(s: Machine, l: Layout, cut: nat)
    requires l.Valid() && MachineOk(s, l)
    ensures
      var up := ReadIndex(s.disk, l).Some? || cut >= l.indexSectors;
      Do(s, l, Reload(cut)).mem == if up then Some(ReloadRing(s.disk, l)) else None
  {
    hide ReadIndex, RebuildRing, RegionEpochs, Cut;
  }

  lemma ReloadKeepsHealth(s: Machine, l: Layout, cs: Contents, step: Step)
    requires l.Valid() && Healthy(s, l, cs) && MachineOk(s, l) && StepAllowed(s, l, step)
    requires step.Reload?
    ensures Healthy(Do(s, l, step), l, cs)
  {
    hide RegionsHold, ReadIndex, Exact, Stale, RebuildRing, RegionEpochs, IndexWrites, Cut, TailEmpty;
    var d, cut := s.disk, step.cut;
    ReloadFinds(d, l, cs);
    if ReadIndex(d, l).Some? {
      CutFull(d, [], cut);
      assert Apply(d, []) == d;
    } else {
      var r := RebuildRing(RegionEpochs(d, l));
      ExactShape(r, cs);
      IndexCut(d, l, cs, r, cut);
      TornIndex(d, l, r, cut);
    }
  }

  lemma StepKeepsHealth(s: Machine, l: Layout, cs: Contents, step: Step)
    requires l.Valid() && MachineOk(s, l) && |cs| == l.capacity
    requires Healthy(s, l, cs) && StepAllowed(s, l, step)
    ensures Healthy(Do(s, l, step), l, After(cs, s, l, step))
  {
    hide Recoverable, ReadIndex, TearNoticed;
    if step.Reload? {
      ReloadKeepsHealth(s, l, cs, step);
    } else if s.mem.Some? {
      if Flipped(l, s.mem.value, step.ck, step.cut) {
        AfterFlip(s, l, cs, step);
      } else {
        BeforeFlip(s, l, cs, step);
      }
    }
  }

  // ----- Whole runs -----

  /** The states, region contents and allowed steps of a run, from a healthy start. */
  ghost predicate RunAllowed(s: Machine, l: Layout, steps: seq<Step>)
    requires l.Valid() && MachineOk(s, l)
    decreases |steps|
  {
    steps == [] || (StepAllowed(s, l, steps[0]) && MachineOk(Do(s, l, steps[0]), l)
                    && RunAllowed(Do(s, l, steps[0]), l, steps[1..]))
  }

  function Run(s: Machine, l: Layout, steps: seq<Step>): Machine
    requires l.Valid() && MachineOk(s, l) && RunAllowed(s, l, steps)
    decreases |steps|
  {
    if steps == [] then s else Run(Do(s, l, steps[0]), l, steps[1..])
  }

  function ContentsAfter(cs: Contents, s: Machine, l: Layout, steps: seq<Step>): (cs': Contents)
    requires l.Valid() && MachineOk(s, l) && RunAllowed(s, l, steps) && |cs| == l.capacity
    ensures |cs'| == |cs|
    decreases |steps|
  {
    if steps == [] then cs
    else ContentsAfter(After(cs, s, l, steps[0]), Do(s, l, steps[0]), l, steps[1..])
  }

  /** Over any run of checkpoints and reboots, each cut off after any number of sector writes,
      the regions hold exactly what was last flipped into them and the index never lies about
      them beyond one missed commit. */
  lemma {:induction false} RunKeepsHealth(s: Machine, l: Layout, cs: Contents, steps: seq<Step>)
    requires l.Valid() && Healthy(s, l, cs) && MachineOk(s, l) && RunAllowed(s, l, steps)
    ensures Healthy(Run(s, l, steps), l, ContentsAfter(cs, s, l, steps))
    decreases |steps|
  {
    hide Healthy, StepAllowed, Do, After;
    if steps != [] {
      HealthyCount(s, l, cs);
      StepKeepsHealth(s, l, cs, steps[0]);
      RunKeepsHealth(Do(s, l, steps[0]), l, After(cs, s, l, steps[0]), steps[1..]);
    }
  }

  /** Every checkpoint of the run carries an epoch above all before it. */
  ghost predicate Growing(floor: int, steps: seq<Step>)
    decreases |steps|
  {
    steps == [] ||
    match steps[0]
    case Reload(_) => Growing(floor, steps[1..])
    case Checkpointed(ck, _) => floor < ck.epoch && Growing(ck.epoch, steps[1..])
  }

  ghost predicate EpochsUpTo(cs: Contents, floor: int) {
    forall i :: 0 <= i < |cs| && cs[i].Some? ==> cs[i].value.epoch <= floor
  }

  /** The newest retained epoch is one the regions hold, or older. */
  lemma WindowUpTo(r: Ring, cs: Contents, floor: int, epoch: U64)
    requires Describes(r, cs) && EpochsUpTo(cs, floor) && floor < epoch
    ensures WellFormed(r) && NewerThanWindow(r, epoch)
  {
    if Exact(r, cs) && r.count > 0 {
      var k := SlotOf(r, r.count - 1);
      assert SlotMatches(r.slots[k], cs[k]);
    }
  }

  /** Of a ring whose slots all lie in the first index sector, growing epochs are all a step needs. */
  lemma SmallRingStep(s: Machine, l: Layout, cs: Contents, step: Step, floor: int)
    requires l.Valid() && Healthy(s, l, cs) && l.capacity <= IN_FIRST_SECTOR && EpochsUpTo(cs, floor)
    requires step.Checkpointed? ==> floor < step.ck.epoch
    ensures MachineOk(s, l) && StepAllowed(s, l, step)
    ensures EpochsUpTo(After(cs, s, l, step), if step.Checkpointed? then step.ck.epoch else floor)
  {
    hide RegionsHold, ReadIndex, Describes, Exact, RebuildRing, NewerThanWindow, Fitting, TailEmpty;
    if s.mem.Some? {
      DescribesRange(s.mem.value, cs);
      if step.Checkpointed? {
        WindowUpTo(s.mem.value, cs, floor, step.ck.epoch);
      }
    }
  }

  /** So nothing is assumed of torn index writes: over any run with growing epochs, each step cut
      off after any number of sector writes, such a store stays healthy. */
  lemma {:induction false} SmallRingRuns(s: Machine, l: Layout, cs: Contents, steps: seq<Step>, floor: int)
    requires l.Valid() && Healthy(s, l, cs) && l.capacity <= IN_FIRST_SECTOR
    requires EpochsUpTo(cs, floor) && Growing(floor, steps)
    ensures MachineOk(s, l) && |cs| == l.capacity && RunAllowed(s, l, steps)
    ensures Healthy(Run(s, l, steps), l, ContentsAfter(cs, s, l, steps))
    decreases |steps|
  {
    hide Healthy, StepAllowed, Do, After, EpochsUpTo;
    HealthyCount(s, l, cs);
    if steps == [] {
      SmallRingStep(s, l, cs, Reload(0), floor);
    } else {
      SmallRingStep(s, l, cs, steps[0], floor);
      StepKeepsHealth(s, l, cs, steps[0]);
      SmallRingRuns(Do(s, l, steps[0]), l, After(cs, s, l, steps[0]), steps[1..],
                    if steps[0].Checkpointed? then steps[0].ck.epoch else floor);
    }
  }

  lemma HealthyCount(s: Machine, l: Layout, cs: Contents)
    requires l.Valid() && Healthy(s, l, cs)
    ensures |cs| == l.capacity
  {
  }

  /** The i-th retained epoch is the greatest not above the target. */
  ghost predicate Nearest(r: Ring, target: U64, i: nat)
    requires WellFormed(r) && i < r.count
  {
    Window(r)[i] <= target && (i + 1 < r.count ==> target < Window(r)[i + 1])
  }

  /** The exact checkpoint of the nearest retained epoch; or nothing that old is retained; or the
      nearest slot is the one a missed commit has overtaken. */
  ghost predicate Answers(a: KeyframeLoad, r: Ring, held: Contents, target: U64)
    requires WellFormed(r) && r.capacity == |held|
  {
    match a
    case Found(ck) => exists i :: 0 <= i < r.count && Nearest(r, target, i) && held[SlotOf(r, i)] == Some(ck)
    case NoKeyframe => Window(r) == [] || target < Window(r)[0]
    case IndexDisagrees => Stale(r, held) && Find(r, target) == Some(r.head)
    case RegionUnreadable => false
  }

  /** What every load answers after any crash of any run: the exact checkpoint of the nearest
      retained epoch, or why there is none. */
  lemma CrashedRunLoads(s: Machine, l: Layout, cs: Contents, steps: seq<Step>, target: U64)
    requires l.Valid() && Healthy(s, l, cs) && MachineOk(s, l) && RunAllowed(s, l, steps)
    ensures
      var end, held := Run(s, l, steps).disk, ContentsAfter(cs, s, l, steps);
      var r := ReloadRing(end, l);
      && Describes(r, held) && WellFormed(r) && r.capacity == l.capacity
      && Answers(LoadEpoch(end, l, r, target), r, held, target)
  {
    hide Answers, RegionsHold, ReloadRing, Describes, RunAllowed, WellFormed;
    RunKeepsHealth(s, l, cs, steps);
    var end, held := Run(s, l, steps).disk, ContentsAfter(cs, s, l, steps);
    ReloadFinds(end, l, held);
    var r := ReloadRing(end, l);
    DescribesRange(r, held);
    LoadAnswers(end, l, r, held, target);
  }

  lemma LoadAnswers(d: Image, l: Layout, r: Ring, held: Contents, target: U64)
    requires l.Valid() && |held| == l.capacity && RegionsHold(d, l, held) && Describes(r, held)
    requires WellFormed(r) && Increasing(Window(r))
    ensures Answers(LoadEpoch(d, l, r, target), r, held, target)
  {
    hide LoadEpoch, RegionsHold, Exact, Stale, Find, Window, SlotOf;
    LoadsExactly(d, l, r, held, target);
    FindNearest(r, target);
    if Find(r, target).Some? {
      var i :| 0 <= i < r.count && SlotOf(r, i) == Find(r, target).value && Nearest(r, target, i);
    }
  }

  lemma DescribesRange(r: Ring, cs: Contents)
    requires Describes(r, cs)
    ensures WellFormed(r) && Increasing(Window(r)) && r.capacity == |cs|
  {
  }

  // ----- Exactly when a crash costs a retained keyframe -----

  /** Every epoch of the window loads the checkpoint its region holds. */
  ghost predicate WindowLoads(d: Image, l: Layout, r: Ring, cs: Contents)
    requires l.Valid() && WellFormed(r) && r.capacity == l.capacity == |cs|
  {
    forall i {:trigger Window(r)[i]} :: 0 <= i < r.count ==>
      cs[SlotOf(r, i)].Some? && LoadEpoch(d, l, r, Window(r)[i]) == Found(cs[SlotOf(r, i)].value)
  }

  lemma FindRetained(r: Ring, i: nat)
    requires WellFormed(r) && Increasing(Window(r)) && i < r.count
    ensures Find(r, Window(r)[i]) == Some(SlotOf(r, i))
  {
    hide Find, SlotOf;
    var w := Window(r);
    FindNearest(r, w[i]);
    assert w[0] <= w[i];
    var j :| 0 <= j < r.count && SlotOf(r, j) == Find(r, w[i]).value
             && w[j] <= w[i] && (j + 1 < r.count ==> w[i] < w[j + 1]);
    assert j == i;
  }

  /** One retained epoch, in a slot no missed commit has overtaken. */
  lemma RetainedLoads(d: Image, l: Layout, r: Ring, cs: Contents, i: nat)
    requires l.Valid() && |cs| == l.capacity && RegionsHold(d, l, cs) && Describes(r, cs)
    requires WellFormed(r) && Increasing(Window(r)) && i < r.count
    requires Exact(r, cs) || SlotOf(r, i) != r.head
    ensures cs[SlotOf(r, i)].Some? && LoadEpoch(d, l, r, Window(r)[i]) == Found(cs[SlotOf(r, i)].value)
  {
    hide LoadEpoch, Find, RegionsHold, SlotOf;
    FindRetained(r, i);
    LoadsExactly(d, l, r, cs, Window(r)[i]);
    if Exact(r, cs) && SlotOf(r, i) == r.head {
      FullHead(r, i);
      if Stale(r, cs) {
        StaleNotExact(r, cs);
      }
    }
  }

  /** The head names a retained slot only of a full ring. */
  lemma FullHead(r: Ring, i: nat)
    requires WellFormed(r) && i < r.count
    ensures SlotOf(r, i) == r.head <==> r.count == r.capacity && i == 0
  {
  }

  lemma ExactWindowLoads(d: Image, l: Layout, r: Ring, cs: Contents)
    requires l.Valid() && |cs| == l.capacity && RegionsHold(d, l, cs) && Describes(r, cs)
    requires WellFormed(r) && r.capacity == l.capacity && Increasing(Window(r))
    requires Exact(r, cs) || r.count < r.capacity
    ensures WindowLoads(d, l, r, cs)
  {
    hide LoadEpoch, RegionsHold, SlotOf, Exact, Stale, Window;
    forall i | 0 <= i < r.count
      ensures cs[SlotOf(r, i)].Some? && LoadEpoch(d, l, r, Window(r)[i]) == Found(cs[SlotOf(r, i)].value)
    {
      FullHead(r, i);
      RetainedLoads(d, l, r, cs, i);
    }
  }

  lemma StaleFullLosesOne(d: Image, l: Layout, r: Ring, cs: Contents)
    requires l.Valid() && |cs| == l.capacity && RegionsHold(d, l, cs)
    requires Stale(r, cs) && r.count == r.capacity
    ensures LoadEpoch(d, l, r, Window(r)[0]) == IndexDisagrees && !WindowLoads(d, l, r, cs)
  {
    hide LoadEpoch, Find, RegionsHold;
    FindRetained(r, 0);
    assert SlotOf(r, 0) == r.head;
    LoadsExactly(d, l, r, cs, Window(r)[0]);
  }

  /** A single sector of the new index is enough: the disk no longer reads as the old one. */
  lemma IndexOverwritten(d: Image, l: Layout, r: Ring, epoch: U64, j: nat)
    requires l.Valid() && WellFormed(r) && r.capacity == l.capacity && NewerThanWindow(r, epoch) && j >= 1
    ensures ReadIndex(Cut(d, IndexWrites(l, Advance(r, epoch)), j), l) != Some(r)
  {
    hide Advance, Window, Body, UnpackRing, IndexWrites, Cut;
    var a := Advance(r, epoch);
    var e := Cut(d, IndexWrites(l, a), j);
    FirstIndexSector(d, l, a, j);
    var run := ReadRun(e, l.base, l.indexSectors);
    var buf := Concat(run) + Zeros(2048 - 512 * l.indexSectors);
    assert run[0] == Read(e, l.base + 0);
    assert Concat(run) == run[0] + Concat(run[1..]);
    assert buf[..512] == run[0];
    AdvancedUnpacks(r, epoch, buf);
  }

  lemma FirstIndexSector(d: Image, l: Layout, a: Ring, j: nat)
    requires l.Valid() && InRange(a) && j >= 1
    ensures Read(Cut(d, IndexWrites(l, a), j), l.base) == Body(a)[..512]
  {
    hide Body, Apply;
    var secs := IndexSectors(l, a);
    var ws := IndexWrites(l, a);
    var k := if j < |ws| then j else |ws|;
    assert ws[..k] == Burst(l.base, secs[..k]);
    BurstHolds(d, l.base, secs[..k]);
    assert Read(Apply(d, ws[..k]), l.base + 0) == secs[..k][0];
    var all := PackRing(a) + Zeros(2048 - PACKED_SIZE);
    assert Chop(all)[0] == all[..512] == Body(a)[..512];
  }

  /** Past the flip, the reloaded ring by the sector the cut fell on. */
  lemma CutDecidesIndex(s: Machine, l: Layout, cs: Contents, step: Step)
    requires l.Valid() && MachineOk(s, l) && |cs| == l.capacity
    requires Healthy(s, l, cs) && StepAllowed(s, l, step)
    requires step.Checkpointed? && s.mem.Some? && WellFormed(s.mem.value)
    requires Flipped(l, s.mem.value, step.ck, step.cut)
    ensures step.cut == FlipAt(step.ck) <==> ReadIndex(Do(s, l, step).disk, l) == s.mem
  {
    hide RegionsHold, ReadIndex, Describes, Exact, Advance, RebuildRing, CheckpointWrites, IndexWrites, TearNoticed, Cut;
    var r, ck, cut, d := s.mem.value, step.ck, step.cut, s.disk;
    RegionsApart(l, r.head, r.head);
    var g := l.Region(r.head);
    var ws, ix := CheckpointWrites(d, g, ck), IndexWrites(l, Advance(r, ck.epoch));
    WriteCount(d, g, ck);
    CutAppend(d, ws, ix, cut);
    CutFull(d, ws, |ws|);
    if cut == FlipAt(ck) {
      CutEmpty(Apply(d, ws), ix);
      RegionCut(d, l, cs, r.head, ck, cut);
    } else {
      IndexOverwritten(Apply(d, ws), l, r, ck.epoch, cut - |ws|);
    }
  }

  /** A checkpoint cut off anywhere and reloaded. Up to and including the flip the old window is
      back, after it the new one; and the whole window loads unless the cut fell exactly on the
      flip of a full ring, when the reclaimed epoch answers with the disagreement. */
  lemma CrashedCommitWindow(s: Machine, l: Layout, cs: Contents, step: Step)
    requires l.Valid() && MachineOk(s, l) && |cs| == l.capacity
    requires Healthy(s, l, cs) && StepAllowed(s, l, step)
    requires step.Checkpointed? && s.mem.Some? && Exact(s.mem.value, cs)
    ensures
      var r, end := s.mem.value, Do(s, l, step).disk;
      var again, lost := ReloadRing(end, l), LosesReclaimed(l, r, step);
      && WellFormed(again) && again.capacity == l.capacity
      && (if Flipped(l, r, step.ck, step.cut) && step.cut != FlipAt(step.ck)
          then SameIndex(again, Advance(r, step.ck.epoch)) else again == r)
      && (WindowLoads(end, l, again, After(cs, s, l, step)) <==> !lost)
      && (lost ==> LoadEpoch(end, l, again, Window(r)[0]) == IndexDisagrees)
  {
    hide RegionsHold, ReadIndex, WindowLoads, RebuildRing, Advance, TearNoticed, LoadEpoch;
    var r, t := s.mem.value, Do(s, l, step);
    var cs' := After(cs, s, l, step);
    StepKeepsHealth(s, l, cs, step);
    ReloadFinds(t.disk, l, cs');
    var again := ReloadRing(t.disk, l);
    DescribesRange(again, cs');
    if Flipped(l, r, step.ck, step.cut) {
      AfterFlip(s, l, cs, step);
      CutDecidesIndex(s, l, cs, step);
      AdvanceExact(r, cs, step.ck);
      MissedCommitIsStale(r, cs, step.ck);
      RebuildAgrees(Advance(r, step.ck.epoch), cs');
      if step.cut != FlipAt(step.ck) {
        SameIndexExact(again, Advance(r, step.ck.epoch), cs');
        ExactWindowLoads(t.disk, l, again, cs');
      } else if r.count == r.capacity {
        StaleFullLosesOne(t.disk, l, r, cs');
      } else {
        ExactWindowLoads(t.disk, l, again, cs');
      }
    } else {
      BeforeFlip(s, l, cs, step);
      ExactWindowLoads(t.disk, l, r, cs);
    }
  }

  /** The index retains just this epoch, and it does not load. */
  ghost predicate OnlyEpochLost(d: Image, l: Layout, epoch: U64)
    requires l.Valid()
  {
    var r := ReloadRing(d, l);
    WellFormed(r) && r.capacity == l.capacity && Window(r) == [epoch] && LoadEpoch(d, l, r, epoch) == IndexDisagrees
  }

  function Finished(l: Layout, ck: Checkpoint): Step {
    Checkpointed(ck, FlipAt(ck) + l.indexSectors)
  }

  /** A store of one region that holds one checkpoint. */
  ghost predicate HoldsOne(s: Machine, l: Layout, a: Checkpoint)
    requires l.Valid()
  {
    && s.mem == Some(Advance(Init(1), a.epoch)) && Exact(s.mem.value, [Some(a)]) && Window(s.mem.value) == [a.epoch]
    && Healthy(s, l, [Some(a)])
  }

  /** A formatted store of one region after its first finished checkpoint. */
  lemma FirstCheckpoint(start: Machine, l: Layout, a: Checkpoint)
    requires l.Valid() && l.capacity == 1 && start.mem == Some(Init(1)) && Healthy(start, l, [None])
    requires MachineOk(start, l) && Fitting(l, Init(1), a)
    ensures StepAllowed(start, l, Finished(l, a)) && HoldsOne(Do(start, l, Finished(l, a)), l, a)
  {
    hide Healthy, RegionsHold, ReadIndex, RebuildRing, TearNoticed, CheckpointWrites, IndexSectors, Cut, FitsSlot;
    var cs := [None];
    SmallRingStep(start, l, cs, Finished(l, a), -1);
    StepKeepsHealth(start, l, cs, Finished(l, a));
    assert After(cs, start, l, Finished(l, a)) == [Some(a)];
    WriteCount(start.disk, l.Region(0), a);
    assert Exact(Init(1), cs);
    AdvanceExact(Init(1), cs, a);
    assert cs[0 := Some(a)] == [Some(a)];
  }

  /** The loss is reachable: a formatted store of one region, a finished checkpoint, and a second
      one whose power fails between the flip and the first index sector. The first epoch is still
      in the reloaded index and no longer loads. */
  lemma LostKeyframeRun(start: Machine, l: Layout, a: Checkpoint, b: Checkpoint)
    requires l.Valid() && l.capacity == 1 && start.mem == Some(Init(1)) && Healthy(start, l, [None])
    requires MachineOk(start, l) && Fitting(l, Init(1), a) && Fitting(l, Advance(Init(1), a.epoch), b)
    requires a.epoch < b.epoch
    ensures StepAllowed(start, l, Finished(l, a))
    ensures
      var s, second := Do(start, l, Finished(l, a)), Checkpointed(b, FlipAt(b));
      MachineOk(s, l) && StepAllowed(s, l, second) && OnlyEpochLost(Do(s, l, second).disk, l, a.epoch)
  {
    hide Healthy, RebuildRing, TearNoticed, LoadEpoch, WindowLoads, Do, StepAllowed, ReloadRing, Exact, Fitting, Window;
    FirstCheckpoint(start, l, a);
    var s := Do(start, l, Finished(l, a));
    SmallRingStep(s, l, [Some(a)], Checkpointed(b, FlipAt(b)), a.epoch);
    CrashedCommitWindow(s, l, [Some(a)], Checkpointed(b, FlipAt(b)));
  }

  predicate LosesReclaimed(l: Layout, r: Ring, step: Step)
    requires l.Valid() && InRange(r) && r.capacity == l.capacity && step.Checkpointed?
  {
    Fitting(l, r, step.ck) && step.cut == FlipAt(step.ck) && r.count == r.capacity
  }

  /** Where the retained epochs of a ring are after an advance. */
  lemma AdvanceKeepsSlots(r: Ring, epoch: U64, i: nat)
    requires WellFormed(r) && i < r.count && (r.count == r.capacity ==> i > 0)
    ensures
      var a, j := Advance(r, epoch), if r.count == r.capacity then i - 1 else i;
      && WellFormed(a) && j < a.count
      && SlotOf(a, j) == SlotOf(r, i) != r.head && Window(a)[j] == Window(r)[i]
  {
    hide Window;
    AdvanceWindow(r, epoch);
    hide NextSlot;
  }

  /** After a crash at any sector write of a checkpoint, from any healthy state, every retained
      epoch other than the one being reclaimed still loads its exact checkpoint. */
  lemma RetainedSurviveCrash(s: Machine, l: Layout, cs: Contents, step: Step, i: nat)
    requires l.Valid() && MachineOk(s, l) && |cs| == l.capacity
    requires Healthy(s, l, cs) && StepAllowed(s, l, step)
    requires step.Checkpointed? && s.mem.Some? && WellFormed(s.mem.value)
    requires i < s.mem.value.count && (s.mem.value.count == s.mem.value.capacity ==> i > 0)
    ensures
      var r, end := s.mem.value, Do(s, l, step).disk;
      var again := ReloadRing(end, l);
      && WellFormed(again) && again.capacity == l.capacity && cs[SlotOf(r, i)].Some?
      && LoadEpoch(end, l, again, Window(r)[i]) == Found(cs[SlotOf(r, i)].value)
  {
    hide RegionsHold, ReadIndex, RebuildRing, Advance, TearNoticed, LoadEpoch, Window, SlotOf, Do;
    var r, t := s.mem.value, Do(s, l, step);
    var cs' := After(cs, s, l, step);
    StepKeepsHealth(s, l, cs, step);
    ReloadFinds(t.disk, l, cs');
    var again := ReloadRing(t.disk, l);
    DescribesRange(again, cs');
    AdvanceKeepsSlots(r, step.ck.epoch, i);
    if Flipped(l, r, step.ck, step.cut) {
      AfterFlip(s, l, cs, step);
      AdvanceExact(r, cs, step.ck);
      RebuildAgrees(Advance(r, step.ck.epoch), cs');
    } else {
      BeforeFlip(s, l, cs, step);
    }
    if again == r {
      RetainedLoads(t.disk, l, r, cs', i);
    } else {
      var a, j := Advance(r, step.ck.epoch), if r.count == r.capacity then i - 1 else i;
      SameIndexExact(again, a, cs');
      SameWindow(again, a, j);
      RetainedLoads(t.disk, l, again, cs', j);
    }
  }

  lemma SameWindow(a: Ring, b: Ring, j: nat)
    requires WellFormed(a) && WellFormed(b) && SameIndex(a, b) && j < a.count
    ensures Window(a) == Window(b) && SlotOf(a, j) == SlotOf(b, j)
  {
  }

  lemma StaleNotExact(r: Ring, cs: Contents)
    requires Stale(r, cs) && r.count == r.capacity
    ensures !Exact(r, cs)
  {
    assert Window(r)[0] == r.slots[r.head].epoch <= Window(r)[r.count - 1];
    assert !SlotMatches(r.slots[r.head], cs[r.head]);
  }

  lemma SameIndexExact(a: Ring, b: Ring, cs: Contents)
    requires Exact(b, cs) && SameIndex(a, b)
    ensures Exact(a, cs)
  {
  }

  // ----- The store as the kernel drives it -----

  class Store {
    const dev: Device
    const l: Layout
    var ring: Ring

    ghost predicate Valid()
      reads this
    {
      l.Valid() && Shaped(ring) && ring.capacity == l.capacity
    }

    constructor (dev: Device, l: Layout)
      requires l.Valid()
      ensures Valid() && this.dev == dev && this.l == l && ring == Init(l.capacity)
    {
      this.dev, this.l := dev, l;
      ring := Init(l.capacity);
    }

    /** Provision an empty store: the start every run above begins from. */
    method Format() returns (ok: bool)
      requires Valid()
      modifies this, dev
      ensures Valid() && ring == Init(l.capacity)
      ensures ok ==> Healthy(Machine(dev.disk, Some(ring)), l, seq(l.capacity, _ => None))
      ensures ok <==> old(dev.budget) >= l.capacity + l.indexSectors
    {
      hide IndexSectors, SuperSector, Healthy;
      ring := Init(l.capacity);
      assert InRange(ring);
      var empty := SuperSector(NO_SLOT, 0, 0, l.version);
      for i := 0 to l.capacity
        invariant ring == Init(l.capacity) && dev.budget == old(dev.budget) - i
        invariant forall j :: 0 <= j < i ==> Read(dev.disk, l.Region(j).base) == empty
      {
        var b := l.Region(i).base;
        ghost var before := dev.disk;
        ok := dev.WriteSectors(b, [empty]);
        if !ok {
          return;
        }
        CutFull(before, Burst(b, [empty]), dev.budget + 1);
        BurstHolds(before, b, [empty]);
        assert Read(dev.disk, b + 0) == [empty][0];
        forall j | 0 <= j < i ensures Read(dev.disk, l.Region(j).base) == empty {
          RegionsApart(l, j, i);
          ReadUntouched(before, Burst(b, [empty]), l.Region(j).base);
        }
      }
      FormattedRegions(dev.disk, l);
      ghost var cs: Contents := seq(l.capacity, _ => None);
      IndexCut(dev.disk, l, cs, ring, dev.budget);
      ghost var formatted, start := dev.disk, dev.budget;
      ok := dev.WriteSectors(l.base, IndexSectors(l, ring));
      if ok {
        FormattedTail(formatted, l, start);
        FormattedHealthy(dev.disk, l);
      }
    }

    /** One checkpoint through the ring: the next state is the one the step defines. */
    method Checkpoint(ck: Checkpoint) returns (ok: bool)
      requires Valid() && InRange(ring)
      modifies this, dev
      ensures Valid() && InRange(ring)
      ensures
        var s := Do(Machine(old(dev.disk), Some(old(ring))), l, Checkpointed(ck, old(dev.budget)));
        && dev.disk == s.disk
        && (ok ==> s.mem == Some(ring))
      ensures ok <==> (Fitting(l, old(ring), ck)
                       && old(dev.budget) >= |CommitWrites(old(dev.disk), l, old(ring), ck)|)
    {
      hide CheckpointWrites, IndexSectors, Cut, Advance, Durable, FitsSlot;
      RegionsApart(l, ring.head, ring.head);
      var g := l.Region(ring.head);
      ghost var ws := CheckpointWrites(dev.disk, g, ck);
      ghost var r' := Advance(ring, ck.epoch);
      CutAppend(dev.disk, ws, if FitsSlot(g, ck) then IndexWrites(l, r') else [], dev.budget);
      ghost var b0, d0 := dev.budget, dev.disk;
      var rc := WriteCheckpoint(dev, g, ck);
      if rc != SnapshotStore.Ok {
        assert ws + [] == ws;
        return false;
      }
      CutFull(d0, ws, b0);
      ring := Advance(ring, ck.epoch);
      ok := dev.WriteSectors(l.base, IndexSectors(l, ring));
    }

    /** The scan over the region superblocks. */
    method Rebuild() returns (r: Ring)
      requires Valid()
      ensures r == RebuildRing(RegionEpochs(dev.disk, l))
    {
      hide ReadBack, RegionEpochs, CountSome, FirstEmpty, OldestSlot;
      var es: seq<Option<U64>>, count, firstEmpty, oldest := [], 0, None, None;
      ghost var all := RegionEpochs(dev.disk, l);
      ScanStart(all);
      var slots: seq<Slot> := [];
      for i := 0 to l.capacity
        invariant es == all[..i] && |slots| == i
        invariant count == CountSome(all, i)
        invariant firstEmpty == FirstEmpty(all, i)
        invariant oldest == OldestSlot(all, i)
        invariant forall j :: 0 <= j < i ==> slots[j] == SlotFor(all[j])
      {
        RegionsApart(l, i, i);
        var found := ReadCheckpoint(dev, l.Region(i));
        RegionEpochAt(dev.disk, l, i);
        ScanStep(all, i);
        var e := EpochOf(found);
        if e.Some? {
          count := count + 1;
          if oldest.None? || e.value < es[oldest.value].value {
            oldest := Some(i);
          }
        } else if firstEmpty.None? {
          firstEmpty := Some(i);
        }
        es := es + [e];
        slots := slots + [SlotFor(e)];
      }
      assert es == all;
      var head := if firstEmpty.Some? then firstEmpty.value else if oldest.Some? then oldest.value else 0;
      r := Ring(l.capacity, count, head, 0, 0, 0, 0, slots + seq(RING_MAX - |slots|, _ => EMPTY));
      assert r.slots == RebuildRing(all).slots;
    }

    /** A good index is taken as it is, whatever its head and count; else the scan decides. */
    method LoadIndex() returns (ok: bool)
      requires Valid()
      modifies this, dev
      ensures Valid() && ring == ReloadRing(old(dev.disk), l)
      ensures
        var s := Do(Machine(old(dev.disk), None), l, Reload(old(dev.budget)));
        dev.disk == s.disk && (ok <==> s.mem.Some?)
    {
      hide RegionEpochs, RebuildRing, IndexSectors, UnpackRing, Cut;
      var parsed := ReadIndex(dev.disk, l);
      if parsed.Some? {
        ring := parsed.value;
        CutFull(dev.disk, [], dev.budget);
        return true;
      }
      ring := Rebuild();
      ok := dev.WriteSectors(l.base, IndexSectors(l, ring));
    }

    method Load(target: U64) returns (res: KeyframeLoad)
      requires Valid()
      ensures res == LoadEpoch(dev.disk, l, ring, target)
    {
      var s := Find(ring, target);
      if s.None? {
        return NoKeyframe;
      }
      RegionsApart(l, s.value, s.value);
      var found := ReadCheckpoint(dev, l.Region(s.value));
      if found.None? {
        return RegionUnreadable;
      }
      res := if found.value.epoch == ring.slots[s.value].epoch then Found(found.value) else IndexDisagrees;
    }
  }

  lemma FormattedRegions(d: Image, l: Layout)
    requires l.Valid()
    requires forall j: nat :: j < l.capacity ==>
               Read(d, l.Region(j).base) == SuperSector(NO_SLOT, 0, 0, l.version)
    ensures RegionsHold(d, l, seq(l.capacity, _ => None))
  {
    hide SuperSector;
    forall i | 0 <= i < l.capacity
      ensures l.Region(i).Valid() && Durable(d, l.Region(i), None)
    {
      RegionsApart(l, i, i);
    }
  }

  lemma FormattedTail(d: Image, l: Layout, budget: nat)
    requires l.Valid() && budget >= l.indexSectors && InRange(Init(l.capacity))
    ensures l.capacity <= IN_FIRST_SECTOR ==>
              TailEmpty(Cut(d, Burst(l.base, IndexSectors(l, Init(l.capacity))), budget), l)
  {
    hide IndexSectors;
    if l.capacity <= IN_FIRST_SECTOR {
      var r := Init(l.capacity);
      FirstSectorHolds(l, r);
      BurstCut(d, l.base, IndexSectors(l, r), budget, 1);
      BurstCut(d, l.base, IndexSectors(l, r), budget, 2);
    }
  }

  lemma FormattedHealthy(d: Image, l: Layout)
    requires l.Valid() && RegionsHold(d, l, seq(l.capacity, _ => None))
    requires ReadIndex(d, l) == Some(Init(l.capacity)) && (l.capacity <= IN_FIRST_SECTOR ==> TailEmpty(d, l))
    ensures Healthy(Machine(d, Some(Init(l.capacity))), l, seq(l.capacity, _ => None))
  {
    hide ReadIndex, RegionsHold, RebuildRing;
    var cs: Contents := seq(l.capacity, _ => None);
    var r := Init(l.capacity);
    assert Exact(r, cs);
    RebuildAgrees(r, cs);
  }
}
