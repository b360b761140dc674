/** The input journal: one epoch's events, packed sixteen to a sector, in a two-slot store. */
module JournalStore {
  import opened Bytes
  import opened Crc32
  import opened Disk
  import opened TwoSlot

  const SB_MAGIC: U64 := 0x494B_4F53_4A52_4E4C
  const SLOT_MAGIC: U64 := 0x494B_4F53_4A53_4C54
  const FORMAT_VERSION: U32 := 1
  const NO_SLOT: U32 := 0xFFFF_FFFF
  const EVENT_SIZE: nat := 32
  const EVENTS_PER_SECTOR: nat := 16

  /** One input event; the store stamps the epoch. */
  datatype Event = Event(kind: U32, lclock: U64, value: U64, len: U32)

  datatype Journal = Journal(epoch: U64, baseLclock: U64, events: seq<Event>)

  datatype Area = Area(base: nat, slotSectors: nat) {
    ghost predicate Valid() {
      slotSectors >= 2 && base + 1 + 2 * slotSectors <= 0x1_0000_0000
    }

    /** Sixteen for each event sector, in 32-bit arithmetic: a slot of more than 2^28 event
        sectors gets only the excess. */
    function MaxEvents(): (n: nat)
      requires slotSectors >= 1
      ensures n <= (slotSectors - 1) * EVENTS_PER_SECTOR && n % EVENTS_PER_SECTOR == 0 && n <= 0xFFFF_FFF0
    {
      (slotSectors - 1) % 0x1000_0000 * EVENTS_PER_SECTOR
    }

    function Slot(slot: nat): nat {
      SlotBase(base, slotSectors, slot)
    }
  }

  /** The room of a slot is what its event sectors hold exactly up to 2^28 sectors. */
  lemma RoomExact(g: Area)
    requires g.slotSectors >= 2
    ensures g.MaxEvents() == (g.slotSectors - 1) * EVENTS_PER_SECTOR <==> g.slotSectors <= 0x1000_0000
    ensures g.slotSectors <= 0x1000_0000 ==>
              forall j: Journal :: FitsSlot(g, j) <==> 1 + (|j.events| + 15) / 16 <= g.slotSectors
  {
    var n := g.slotSectors - 1;
    assert n == n / 0x1000_0000 * 0x1000_0000 + n % 0x1000_0000;
  }

  // ----- On-disk structures -----

  const SUPER_WIDTHS: seq<nat> := [8, 4, 4, 8, 4, 4]
  const HEADER_WIDTHS: seq<nat> := [8, 8, 4, 4, 8]
  const EVENT_WIDTHS: seq<nat> := [8, 8, 4, 4, 8]

  lemma Sizes()
    ensures Size(SUPER_WIDTHS) == 32 && Size(HEADER_WIDTHS) == 32 && Size(EVENT_WIDTHS) == 32
  {
    assert SUPER_WIDTHS[1..] == [4, 4, 8, 4, 4];
  }

  function SuperBody(slot: U32, epoch: U64, count: U32, crc: U32): (s: seq<Byte>)
    ensures |s| == 32
  {
    Sizes();
    Pack([SB_MAGIC, FORMAT_VERSION, slot, epoch, count, crc], SUPER_WIDTHS)
  }

  function SuperSector(slot: U32, epoch: U64, count: U32, crc: U32): Sector {
    var body := SuperBody(slot, epoch, count, crc);
    body + LE(Crc(0, body), 4) + Zeros(476)
  }

  function HeaderSector(epoch: U64, count: U32, crc: U32, baseLclock: U64): Sector {
    Sizes();
    Pack([SLOT_MAGIC, epoch, count, crc, baseLclock], HEADER_WIDTHS) + Zeros(480)
  }

  function EventBytes(epoch: U64, e: Event): (s: seq<Byte>)
    ensures |s| == EVENT_SIZE
  {
    Sizes();
    Pack([epoch, e.lclock, e.kind, e.len, e.value], EVENT_WIDTHS)
  }

  function EventsBytes(epoch: U64, es: seq<Event>): (s: seq<Byte>)
    ensures |s| == EVENT_SIZE * |es|
  {
    if es == [] then [] else EventBytes(epoch, es[0]) + EventsBytes(epoch, es[1..])
  }

  function SectorsFor(count: nat): nat {
    (count + EVENTS_PER_SECTOR - 1) % 0x1_0000_0000 / EVENTS_PER_SECTOR
  }

  /** The events with the last sector zero-filled. */
  function Padded(epoch: U64, es: seq<Event>): (s: seq<Byte>)
    ensures |s| % 512 == 0 && |s| / 512 == (|es| + 15) / 16
  {
    EventsBytes(epoch, es) + Zeros(512 * ((|es| + 15) / 16) - EVENT_SIZE * |es|)
  }

  function EventSectors(epoch: U64, es: seq<Event>): (secs: seq<Sector>)
    ensures |secs| == (|es| + 15) / 16
  {
    Chop(Padded(epoch, es))
  }

  function EventsCrc(epoch: U64, es: seq<Event>): U32 {
    Crc(0, Concat(EventSectors(epoch, es)))
  }

  // ----- Reading a disk back -----

  datatype LoadResult =
    | Loaded(slotBase: nat, epoch: U64, count: nat)
    | NoJournal
    | BadCrc

  function ReadSuper(sec: Sector): (r: Option<seq<nat>>)
    ensures r.Some? ==> |r.value| == 6 && r.value[2] < 0x1_0000_0000 && r.value[3] < 0x1_0000_0000_0000_0000
  {
    Sizes();
    FieldWidths();
    var sb := Unpack(SUPER_WIDTHS, sec);
    if sb[0] == SB_MAGIC && UnLE(sec[32..36]) == Crc(0, sec[..32]) then Some(sb) else None
  }

  function HasMagic(sec: Sector): bool {
    Sizes();
    Unpack(SUPER_WIDTHS, sec)[0] == SB_MAGIC
  }

  function SlotCrc(d: Image, slotBase: nat, count: nat): U32 {
    Crc(0, Concat(ReadRun(d, slotBase + 1, SectorsFor(count))))
  }

  function Load(d: Image, g: Area): LoadResult {
    Sizes();
    FieldWidths();
    var sec := Read(d, g.base);
    var super := ReadSuper(sec);
    if !HasMagic(sec) then NoJournal
    else if super.None? then BadCrc
    else
      var sb := super.value;
      if sb[2] == NO_SLOT then NoJournal
      else
        var slotBase := g.Slot(sb[2]) % 0x1_0000_0000;
        var hdr := Unpack(HEADER_WIDTHS, Read(d, slotBase));
        if hdr[0] != SLOT_MAGIC || hdr[1] != sb[3] || hdr[2] != sb[4] then BadCrc
        else
          var crc := SlotCrc(d, slotBase, hdr[2]);
          if crc != hdr[3] || crc != sb[5] then BadCrc else Loaded(slotBase, hdr[1], hdr[2])
  }

  function ParseEvent(s: seq<Byte>): (U64, Event)
    requires |s| == EVENT_SIZE
  {
    Sizes();
    FieldWidths();
    var f := Unpack(EVENT_WIDTHS, s);
    (f[0], Event(f[2], f[1], f[4], f[3]))
  }

  /** The i-th event: sector i / 16, entry i % 16. */
  function ReadEvent(d: Image, slotBase: nat, i: nat): (U64, Event) {
    var at := i % EVENTS_PER_SECTOR * EVENT_SIZE;
    ParseEvent(Read(d, slotBase + 1 + i / EVENTS_PER_SECTOR)[at..at + EVENT_SIZE])
  }

  function ReadEvents(d: Image, slotBase: nat, count: nat): (es: seq<Event>)
    ensures |es| == count
  {
    seq(count, i requires 0 <= i < count => ReadEvent(d, slotBase, i).1)
  }

  /** What a replay finds: the loaded epoch and its events in recorded order. */
  function ReadBack(d: Image, g: Area): Option<(U64, seq<Event>)> {
    match Load(d, g)
    case Loaded(slotBase, epoch, count) => Some((epoch, ReadEvents(d, slotBase, count)))
    case _ => None
  }

  // ----- Writing a journal -----

  function TargetSlot(d: Image, g: Area): (slot: nat)
    ensures slot <= 1
  {
    var super := ReadSuper(Read(d, g.base));
    if super.Some? && super.value[2] == 0 then 1 else 0
  }

  predicate FitsSlot(g: Area, j: Journal)
    requires g.slotSectors >= 1
  {
    |j.events| <= g.MaxEvents()
  }

  /** Every sector write of begin, append and commit; an event too many stops the job with the
      full sectors written and no header. */
  function JournalWrites(d: Image, g: Area, j: Journal): seq<Write>
    requires g.Valid()
  {
    var slot := TargetSlot(d, g);
    if FitsSlot(g, j) then
      var crc := EventsCrc(j.epoch, j.events);
      SlotWrites(g.base, g.Slot(slot), EventSectors(j.epoch, j.events),
                 HeaderSector(j.epoch, |j.events|, crc, j.baseLclock),
                 SuperSector(slot, j.epoch, |j.events|, crc))
    else
      Burst(g.Slot(slot) + 1, EventSectors(j.epoch, j.events[..g.MaxEvents()]))
  }

  datatype Attempt = Attempt(j: Journal, cut: nat)

  function RunAttempts(d: Image, g: Area, runs: seq<Attempt>): Image
    requires g.Valid()
    decreases |runs|
  {
    if runs == [] then d
    else RunAttempts(Cut(d, JournalWrites(d, g, runs[0].j), runs[0].cut), g, runs[1..])
  }

  predicate Commits(g: Area, a: Attempt)
    requires g.Valid()
  {
    FitsSlot(g, a.j) && a.cut >= (|a.j.events| + 15) / 16 + 2
  }

  function LastCommitted(g: Area, last: Option<Journal>, runs: seq<Attempt>): Option<Journal>
    requires g.Valid()
    decreases |runs|
  {
    if runs == [] then last
    else LastCommitted(g, if Commits(g, runs[0]) then Some(runs[0].j) else last, runs[1..])
  }

  // ----- What a consistent disk looks like -----

  ghost predicate Committed(d: Image, g: Area, slot: nat, j: Journal)
    requires g.Valid()
  {
    && slot <= 1 && FitsSlot(g, j)
    && var crc := EventsCrc(j.epoch, j.events);
    && Read(d, g.base) == SuperSector(slot, j.epoch, |j.events|, crc)
    && Read(d, g.Slot(slot)) == HeaderSector(j.epoch, |j.events|, crc, j.baseLclock)
    && Holds(d, g.Slot(slot) + 1, EventSectors(j.epoch, j.events))
  }

  ghost predicate Durable(d: Image, g: Area, last: Option<Journal>)
    requires g.Valid()
  {
    match last
    case None => Read(d, g.base) == SuperSector(NO_SLOT, 0, 0, 0)
    case Some(j) => Committed(d, g, 0, j) || Committed(d, g, 1, j)
  }

  // ----- Sector round trips -----

  lemma SuperRoundTrip(slot: U32, epoch: U64, count: U32, crc: U32)
    ensures HasMagic(SuperSector(slot, epoch, count, crc))
    ensures ReadSuper(SuperSector(slot, epoch, count, crc))
         == Some([SB_MAGIC, FORMAT_VERSION, slot, epoch, count, crc])
  {
    hide Crc, LE, UnLE, Pow256;
    Sizes();
    FieldWidths();
    var vals := [SB_MAGIC, FORMAT_VERSION, slot, epoch, count, crc];
    var body := SuperBody(slot, epoch, count, crc);
    var sec := SuperSector(slot, epoch, count, crc);
    assert sec == body + (LE(Crc(0, body), 4) + Zeros(476));
    UnpackPack(vals, SUPER_WIDTHS, LE(Crc(0, body), 4) + Zeros(476));
    assert sec[..32] == body && sec[32..36] == LE(Crc(0, body), 4);
    LERoundTrip(Crc(0, body), 4);
  }

  lemma Offsets()
    ensures Offset(EVENT_WIDTHS, 0) == 0 && Offset(EVENT_WIDTHS, 1) == 8 && Offset(EVENT_WIDTHS, 2) == 16
    ensures Offset(EVENT_WIDTHS, 3) == 20 && Offset(EVENT_WIDTHS, 4) == 24
  {
    var w := EVENT_WIDTHS;
    assert w[1..] == [8, 4, 4, 8] && w[1..][1..] == [4, 4, 8];
    assert Offset([4, 4, 8], 1) == 4 && Offset([4, 4, 8], 2) == 8;
    assert Offset([8, 4, 4, 8], 2) == 12 && Offset([8, 4, 4, 8], 3) == 16;
  }

  /** An event on disk, field by field. */
  lemma EventOnDisk(epoch: U64, e: Event)
    ensures
      var s := EventBytes(epoch, e);
      && s[0..8] == LE(epoch, 8) && s[8..16] == LE(e.lclock, 8) && s[16..20] == LE(e.kind, 4)
      && s[20..24] == LE(e.len, 4) && s[24..32] == LE(e.value, 8)
  {
    hide LE, Pack, Offset;
    Sizes();
    Offsets();
    var v, w := [epoch, e.lclock, e.kind, e.len, e.value], EVENT_WIDTHS;
    PackAt(v, w, 0);
    PackAt(v, w, 1);
    PackAt(v, w, 2);
    PackAt(v, w, 3);
    PackAt(v, w, 4);
  }

  lemma HeaderRoundTrip(epoch: U64, count: U32, crc: U32, baseLclock: U64)
    ensures Size(HEADER_WIDTHS) == 32
    ensures Unpack(HEADER_WIDTHS, HeaderSector(epoch, count, crc, baseLclock))
         == [SLOT_MAGIC, epoch, count, crc, baseLclock]
  {
    Sizes();
    FieldWidths();
    UnpackPack([SLOT_MAGIC, epoch, count, crc, baseLclock], HEADER_WIDTHS, Zeros(480));
  }

  lemma EventRoundTrip(epoch: U64, e: Event)
    ensures ParseEvent(EventBytes(epoch, e)) == (epoch, e)
  {
    Sizes();
    FieldWidths();
    var vals := [epoch, e.lclock, e.kind, e.len, e.value];
    UnpackPack(vals, EVENT_WIDTHS, []);
    assert EventBytes(epoch, e) + [] == EventBytes(epoch, e);
  }

  lemma {:induction false} EventsAt(epoch: U64, es: seq<Event>, i: nat)
    requires i < |es|
    ensures EventsBytes(epoch, es)[32 * i..32 * i + 32] == EventBytes(epoch, es[i])
    decreases |es|
  {
    hide EventBytes;
    var s := EventsBytes(epoch, es);
    if i > 0 {
      EventsAt(epoch, es[1..], i - 1);
      assert s[32..] == EventsBytes(epoch, es[1..]);
      assert s[32 * i..32 * i + 32] == s[32..][32 * (i - 1)..32 * (i - 1) + 32];
    }
  }

  lemma {:induction false} EventsAppend(epoch: U64, a: seq<Event>, b: seq<Event>)
    ensures EventsBytes(epoch, a + b) == EventsBytes(epoch, a) + EventsBytes(epoch, b)
    decreases |a|
  {
    hide EventBytes;
    if a == [] {
      assert a + b == b;
    } else {
      assert (a + b)[1..] == a[1..] + b;
      EventsAppend(epoch, a[1..], b);
    }
  }

  lemma {:induction false} ChopAppend(a: seq<Byte>, b: seq<Byte>)
    requires |a| % 512 == 0 && |b| % 512 == 0
    ensures Chop(a + b) == Chop(a) + Chop(b)
    decreases |a|
  {
    if a == [] {
      assert a + b == b;
    } else {
      assert (a + b)[..512] == a[..512] && (a + b)[512..] == a[512..] + b;
      ChopAppend(a[512..], b);
    }
  }

  /** Whole sectors of events stay as they are when more events follow. */
  lemma SectorsAppend(epoch: U64, a: seq<Event>, b: seq<Event>)
    requires |a| % 16 == 0
    ensures EventSectors(epoch, a + b) == EventSectors(epoch, a) + EventSectors(epoch, b)
  {
    hide EventsBytes, Chop;
    EventsAppend(epoch, a, b);
    assert (|a| + 15) / 16 == |a| / 16 && (|a + b| + 15) / 16 == |a| / 16 + (|b| + 15) / 16;
    assert Padded(epoch, a) == EventsBytes(epoch, a);
    assert Padded(epoch, a + b) == Padded(epoch, a) + Padded(epoch, b);
    ChopAppend(Padded(epoch, a), Padded(epoch, b));
  }

  lemma SliceOfSlice(s: seq<Byte>, a: nat, b: nat, c: nat, e: nat)
    requires c <= e && a + e <= b <= |s|
    ensures s[a..b][c..e] == s[a + c..a + e]
  {
    var x, y := s[a..b][c..e], s[a + c..a + e];
    forall i | 0 <= i < |x| ensures x[i] == y[i] {
      assert x[i] == s[a..b][c + i] == s[a + c + i];
    }
  }

  lemma EventReadBack(d: Image, slotBase: nat, epoch: U64, es: seq<Event>, i: nat)
    requires Holds(d, slotBase + 1, EventSectors(epoch, es)) && i < |es|
    ensures ReadEvent(d, slotBase, i) == (epoch, es[i])
  {
    hide EventsBytes, EventBytes, ParseEvent, Chop;
    var s, k, at := Padded(epoch, es), i / 16, i % 16 * 32;
    assert 512 * k + at == 32 * i && k < |s| / 512;
    assert Read(d, slotBase + 1 + k) == EventSectors(epoch, es)[k];
    ChopAt(s, k);
    SliceOfSlice(s, 512 * k, 512 * k + 512, at, at + 32);
    assert s[32 * i..32 * i + 32] == EventsBytes(epoch, es)[32 * i..32 * i + 32];
    EventsAt(epoch, es, i);
    EventRoundTrip(epoch, es[i]);
  }

  // ----- Main results -----

  /** A consistent disk reads back as exactly the journal it holds, however its last sector
      is filled. */
  lemma DurableReadsBack(d: Image, g: Area, last: Option<Journal>)
    requires g.Valid() && Durable(d, g, last)
    ensures ReadBack(d, g) == if last.None? then None else Some((last.value.epoch, last.value.events))
  {
    hide Load, Committed, EventSectors, ReadEvents;
    match last
    case None => EmptyLoads(d, g);
    case Some(j) =>
      var slot := if Committed(d, g, 0, j) then 0 else 1;
      CommittedLoads(d, g, slot, j);
      CommittedEvents(d, g, slot, j);
  }

  lemma EmptyLoads(d: Image, g: Area)
    requires Read(d, g.base) == SuperSector(NO_SLOT, 0, 0, 0)
    ensures Load(d, g) == NoJournal
  {
    hide SuperSector, ReadSuper, HasMagic, Unpack, SlotCrc;
    SuperRoundTrip(NO_SLOT, 0, 0, 0);
  }

  lemma SlotInWord(g: Area, slot: nat)
    requires g.Valid() && slot <= 1
    ensures g.Slot(slot) % 0x1_0000_0000 == g.Slot(slot)
  {
  }

  /** With a superblock that reads well, a load is a matter of the header and the checksum. */
  lemma LoadIs(d: Image, g: Area, slot: nat, epoch: U64, count: U32, crc: U32)
    requires g.Valid() && slot <= 1 && Read(d, g.base) == SuperSector(slot, epoch, count, crc)
    ensures Size(HEADER_WIDTHS) == 32
    ensures
      var at := g.Slot(slot);
      var hdr := Unpack(HEADER_WIDTHS, Read(d, at));
      Load(d, g) == if hdr[0] == SLOT_MAGIC && hdr[1] == epoch && hdr[2] == count
                       && SlotCrc(d, at, count) == hdr[3] && hdr[3] == crc
                    then Loaded(at, epoch, count) else BadCrc
  {
    hide SuperSector, SlotCrc, ReadSuper, HasMagic, Unpack, SlotBase;
    Sizes();
    SuperRoundTrip(slot, epoch, count, crc);
    SlotInWord(g, slot);
  }

  lemma CommittedLoads(d: Image, g: Area, slot: nat, j: Journal)
    requires g.Valid() && Committed(d, g, slot, j)
    ensures Load(d, g) == Loaded(g.Slot(slot), j.epoch, |j.events|)
  {
    hide Load, SuperSector, HeaderSector, EventSectors, SlotCrc, EventsCrc, Unpack, SlotBase;
    LoadIs(d, g, slot, j.epoch, |j.events|, EventsCrc(j.epoch, j.events));
    HeaderRoundTrip(j.epoch, |j.events|, EventsCrc(j.epoch, j.events), j.baseLclock);
    HeldCrc(d, g.Slot(slot), j);
  }

  /** The checksum over event sectors on disk is the one the journal was written with. */
  lemma HeldCrc(d: Image, slotBase: nat, j: Journal)
    requires Holds(d, slotBase + 1, EventSectors(j.epoch, j.events)) && |j.events| < 0xFFFF_FFF1
    ensures SlotCrc(d, slotBase, |j.events|) == EventsCrc(j.epoch, j.events)
  {
    hide EventSectors, Crc, Concat;
    HoldsRun(d, slotBase + 1, EventSectors(j.epoch, j.events));
    assert SectorsFor(|j.events|) == (|j.events| + 15) / 16;
  }

  lemma CommittedEvents(d: Image, g: Area, slot: nat, j: Journal)
    requires g.Valid() && Committed(d, g, slot, j)
    ensures ReadEvents(d, g.Slot(slot), |j.events|) == j.events
  {
    hide SuperSector, HeaderSector, EventSectors, EventsCrc, ReadEvent;
    forall i | 0 <= i < |j.events|
      ensures ReadEvents(d, g.Slot(slot), |j.events|)[i] == j.events[i]
    {
      EventReadBack(d, g.Slot(slot), j.epoch, j.events, i);
    }
  }

  /** A journal goes to the slot that is not in use, the first one to slot 0. */
  lemma TargetsOther(d: Image, g: Area, last: Option<Journal>)
    requires g.Valid() && Durable(d, g, last)
    ensures last.None? ==> TargetSlot(d, g) == 0
    ensures last.Some? ==> Committed(d, g, 1 - TargetSlot(d, g), last.value)
  {
    hide SuperSector, HeaderSector, EventSectors, EventsCrc, ReadSuper;
    match last
    case None => SuperRoundTrip(NO_SLOT, 0, 0, 0);
    case Some(j) =>
      SuperRoundTrip(0, j.epoch, |j.events|, EventsCrc(j.epoch, j.events));
      SuperRoundTrip(1, j.epoch, |j.events|, EventsCrc(j.epoch, j.events));
  }

  lemma SlotBounds(g: Area, slot: nat, n: nat)
    requires g.Valid() && slot <= 1 && n <= g.MaxEvents()
    ensures g.base < g.Slot(slot)
    ensures (n + 15) / 16 <= g.slotSectors - 1
    ensures g.Slot(0) + g.slotSectors == g.Slot(1)
  {
  }

  lemma DurableFrame(d: Image, d': Image, g: Area, last: Option<Journal>)
    requires g.Valid() && Durable(d, g, last)
    requires var at0 := g.Slot(TargetSlot(d, g));
             forall at: nat :: at < at0 || at0 + g.slotSectors <= at ==> Read(d', at) == Read(d, at)
    ensures Durable(d', g, last)
  {
    hide SuperSector, HeaderSector, EventSectors, EventsCrc, ReadSuper;
    SlotBounds(g, TargetSlot(d, g), 0);
    if last.Some? {
      var j := last.value;
      var slot := if Committed(d, g, 0, j) then 0 else 1;
      SuperRoundTrip(slot, j.epoch, |j.events|, EventsCrc(j.epoch, j.events));
      SlotBounds(g, slot, |j.events|);
      var s := EventSectors(j.epoch, j.events);
      forall i | 0 <= i < |s| ensures Read(d', g.Slot(slot) + 1 + i) == s[i] {
        assert Read(d, g.Slot(slot) + 1 + i) == s[i];
      }
      assert Committed(d', g, slot, j);
    }
  }

  lemma WriteCount(d: Image, g: Area, j: Journal)
    requires g.Valid()
    ensures FitsSlot(g, j) ==> |JournalWrites(d, g, j)| == (|j.events| + 15) / 16 + 2
    ensures !FitsSlot(g, j) ==> |JournalWrites(d, g, j)| == g.MaxEvents() / 16
  {
    hide SuperSector, HeaderSector, EventSectors, EventsCrc, TargetSlot;
  }

  /** Until the superblock write, a job touches only its slot. */
  lemma WritesInSlot(d: Image, g: Area, j: Journal, i: nat)
    requires g.Valid() && i < |JournalWrites(d, g, j)|
    requires FitsSlot(g, j) ==> i + 1 < |JournalWrites(d, g, j)|
    ensures var at0 := g.Slot(TargetSlot(d, g));
            at0 <= JournalWrites(d, g, j)[i].at < at0 + g.slotSectors
  {
    hide SuperSector, HeaderSector, EventSectors, EventsCrc, TargetSlot;
    WriteCount(d, g, j);
    SlotBounds(g, TargetSlot(d, g), if FitsSlot(g, j) then |j.events| else 0);
  }

  /** Cut anywhere, an attempt either has committed or has not happened. */
  lemma CrashStep(d: Image, g: Area, last: Option<Journal>, a: Attempt)
    requires g.Valid() && Durable(d, g, last)
    ensures Durable(Cut(d, JournalWrites(d, g, a.j), a.cut), g, if Commits(g, a) then Some(a.j) else last)
  {
    hide SuperSector, HeaderSector, EventSectors, EventsCrc, TargetSlot;
    var j, slot := a.j, TargetSlot(d, g);
    var ws := JournalWrites(d, g, j);
    var k := if a.cut < |ws| then a.cut else |ws|;
    var d' := Cut(d, ws, a.cut);
    WriteCount(d, g, j);
    SlotBounds(g, slot, 0);
    if Commits(g, a) {
      var crc := EventsCrc(j.epoch, j.events);
      CutFull(d, ws, a.cut);
      CommitHolds(d, g.base, g.Slot(slot), EventSectors(j.epoch, j.events),
                  HeaderSector(j.epoch, |j.events|, crc, j.baseLclock),
                  SuperSector(slot, j.epoch, |j.events|, crc));
      assert Committed(d', g, slot, j);
    } else {
      hide JournalWrites, Durable;
      forall at: nat | at < g.Slot(slot) || g.Slot(slot) + g.slotSectors <= at
        ensures Read(d', at) == Read(d, at)
      {
        forall i | 0 <= i < k ensures ws[..k][i].at != at {
          WritesInSlot(d, g, j, i);
        }
        ReadUntouched(d, ws[..k], at);
      }
      DurableFrame(d, d', g, last);
    }
  }

  lemma {:induction false} AttemptsDurable(d: Image, g: Area, last: Option<Journal>, runs: seq<Attempt>)
    requires g.Valid() && Durable(d, g, last)
    ensures Durable(RunAttempts(d, g, runs), g, LastCommitted(g, last, runs))
    decreases |runs|
  {
    hide Durable, JournalWrites, Commits;
    if runs != [] {
      CrashStep(d, g, last, runs[0]);
      AttemptsDurable(Cut(d, JournalWrites(d, g, runs[0].j), runs[0].cut), g,
                      if Commits(g, runs[0]) then Some(runs[0].j) else last, runs[1..]);
    }
  }

  /** Over any series of journals, each cut off anywhere, a reader gets the events of the last
      one whose superblock write happened, all of them and in order. */
  lemma CrashSafety(d: Image, g: Area, runs: seq<Attempt>)
    requires g.Valid() && Durable(d, g, None)
    ensures var last := LastCommitted(g, None, runs);
            ReadBack(RunAttempts(d, g, runs), g)
              == if last.None? then None else Some((last.value.epoch, last.value.events))
  {
    AttemptsDurable(d, g, None, runs);
    DurableReadsBack(RunAttempts(d, g, runs), g, LastCommitted(g, None, runs));
  }

  /** The superblock and a slot header on disk. */
  lemma SuperOnDisk(slot: U32, epoch: U64, count: U32, crc: U32, baseLclock: U64)
    ensures
      var s, h := SuperSector(slot, epoch, count, crc), HeaderSector(epoch, count, crc, baseLclock);
      && UnLE(s[..8]) == 0x494B_4F53_4A52_4E4C && UnLE(s[8..12]) == 1 && UnLE(s[12..16]) == slot
      && UnLE(s[16..24]) == epoch && UnLE(s[24..28]) == count && UnLE(s[28..32]) == crc
      && UnLE(h[..8]) == 0x494B_4F53_4A53_4C54 && UnLE(h[8..16]) == epoch && UnLE(h[16..20]) == count
      && UnLE(h[20..24]) == crc && UnLE(h[24..32]) == baseLclock
  {
    hide UnLE, Unpack, Pack, SuperSector, HeaderSector, ReadSuper;
    var s, h := SuperSector(slot, epoch, count, crc), HeaderSector(epoch, count, crc, baseLclock);
    SuperRoundTrip(slot, epoch, count, crc);
    HeaderRoundTrip(epoch, count, crc, baseLclock);
    SuperFields(s);
    HeaderFields(h);
    FieldAt(HEADER_WIDTHS, h, 4);
    Offsets();
  }

  lemma SuperFields(sec: Sector)
    ensures Size(SUPER_WIDTHS) == 32 && (ReadSuper(sec).Some? ==> ReadSuper(sec).value == Unpack(SUPER_WIDTHS, sec))
    ensures var f := Unpack(SUPER_WIDTHS, sec);
            && f[0] == UnLE(sec[..8]) && f[1] == UnLE(sec[8..12]) && f[2] == UnLE(sec[12..16])
            && f[3] == UnLE(sec[16..24]) && f[4] == UnLE(sec[24..28]) && f[5] == UnLE(sec[28..32])
  {
    hide UnLE, Unpack, Offset;
    Sizes();
    SuperOffsets();
    FieldAt(SUPER_WIDTHS, sec, 0);
    FieldAt(SUPER_WIDTHS, sec, 1);
    FieldAt(SUPER_WIDTHS, sec, 2);
    FieldAt(SUPER_WIDTHS, sec, 3);
    FieldAt(SUPER_WIDTHS, sec, 4);
    FieldAt(SUPER_WIDTHS, sec, 5);
    assert sec[0..8] == sec[..8];
  }

  lemma SuperOffsets()
    ensures Offset(SUPER_WIDTHS, 0) == 0 && Offset(SUPER_WIDTHS, 1) == 8 && Offset(SUPER_WIDTHS, 2) == 12
    ensures Offset(SUPER_WIDTHS, 3) == 16 && Offset(SUPER_WIDTHS, 4) == 24 && Offset(SUPER_WIDTHS, 5) == 28
  {
    var w := SUPER_WIDTHS;
    assert w[1..] == [4, 4, 8, 4, 4] && w[1..][1..] == [4, 8, 4, 4] && w[1..][1..][1..] == [8, 4, 4];
    assert [8, 4, 4][1..] == [4, 4];
    assert Offset([8, 4, 4], 1) == 8 && Offset([8, 4, 4], 2) == 12;
    assert Offset([4, 8, 4, 4], 1) == 4 && Offset([4, 8, 4, 4], 2) == 12 && Offset([4, 8, 4, 4], 3) == 16;
    assert Offset([4, 4, 8, 4, 4], 2) == 8 && Offset([4, 4, 8, 4, 4], 3) == 16 && Offset([4, 4, 8, 4, 4], 4) == 20;
  }

  // ----- Damaged disks -----

  /** The bytes of the event sectors of n events. */
  function SlotBytes(d: Image, slotBase: nat, n: nat): seq<Byte> {
    Concat(ReadRun(d, slotBase + 1, SectorsFor(n)))
  }

  /** With superblock and header as committed, a load comes down to the checksum of the events. */
  lemma LoadBySlot(d: Image, e: Image, g: Area, slot: nat, j: Journal)
    requires g.Valid() && Committed(d, g, slot, j)
    requires Read(e, g.base) == Read(d, g.base) && Read(e, g.Slot(slot)) == Read(d, g.Slot(slot))
    ensures Load(e, g) == if Crc(0, SlotBytes(e, g.Slot(slot), |j.events|)) == Crc(0, SlotBytes(d, g.Slot(slot), |j.events|))
                          then Loaded(g.Slot(slot), j.epoch, |j.events|) else BadCrc
  {
    hide Load, SuperSector, HeaderSector, EventSectors, Crc, EventsCrc, Unpack, Concat, SlotBase;
    var crc := EventsCrc(j.epoch, j.events);
    LoadIs(e, g, slot, j.epoch, |j.events|, crc);
    HeaderRoundTrip(j.epoch, |j.events|, crc, j.baseLclock);
    HeldCrc(d, g.Slot(slot), j);
  }

  /** Damage within four adjacent bytes of a committed journal's events is refused. */
  lemma DamagedEventsRefused(d: Image, e: Image, g: Area, slot: nat, j: Journal, i: nat)
    requires g.Valid() && Committed(d, g, slot, j)
    requires Read(e, g.base) == Read(d, g.base) && Read(e, g.Slot(slot)) == Read(d, g.Slot(slot))
    requires DamagedAt(SlotBytes(d, g.Slot(slot), |j.events|), SlotBytes(e, g.Slot(slot), |j.events|), i)
    ensures Load(e, g) == BadCrc
  {
    hide Load, Committed, SlotBytes, Crc, DamagedAt;
    LoadBySlot(d, e, g, slot, j);
    DamageDetected(0, SlotBytes(d, g.Slot(slot), |j.events|), SlotBytes(e, g.Slot(slot), |j.events|), i);
  }

  /** A superblock and a slot that were written for different journals: loaded exactly when epoch,
      count and checksum agree. */
  lemma MixedSlot(d: Image, g: Area, slot: nat, epoch: U64, count: U32, crc: U32, j: Journal)
    requires g.Valid() && slot <= 1 && |j.events| < 0xFFFF_FFF0
    requires Read(d, g.base) == SuperSector(slot, epoch, count, crc)
    requires Read(d, g.Slot(slot)) == HeaderSector(j.epoch, |j.events|, EventsCrc(j.epoch, j.events), j.baseLclock)
    requires Holds(d, g.Slot(slot) + 1, EventSectors(j.epoch, j.events))
    ensures Load(d, g) == if j.epoch == epoch && |j.events| == count && EventsCrc(j.epoch, j.events) == crc
                          then Loaded(g.Slot(slot), epoch, count) else BadCrc
  {
    hide Load, SuperSector, HeaderSector, EventSectors, SlotCrc, EventsCrc, Unpack, SlotBase;
    LoadIs(d, g, slot, epoch, count, crc);
    HeaderRoundTrip(j.epoch, |j.events|, EventsCrc(j.epoch, j.events), j.baseLclock);
    HeldCrc(d, g.Slot(slot), j);
  }

  lemma SuperSealed(sec: Sector)
    ensures ReadSuper(sec).Some? ==> Sealed(sec[..32], sec[32..36])
  {
  }

  /** So is damage within four adjacent bytes of the superblock: as no journal when it hits the
      magic, as a bad checksum otherwise. */
  lemma DamagedSuperRefused(d: Image, e: Image, g: Area, last: Option<Journal>, i: nat)
    requires g.Valid() && Durable(d, g, last) && DamagedAt(Read(d, g.base)[..36], Read(e, g.base)[..36], i)
    ensures Load(e, g) == if Read(e, g.base)[..8] == Read(d, g.base)[..8] then BadCrc else NoJournal
  {
    hide SuperSector, HeaderSector, EventsCrc, ReadSuper, Sealed, Unpack, DamagedAt, SlotCrc, EventSectors, HasMagic;
    var a, b := Read(d, g.base), Read(e, g.base);
    DurableSuper(d, g, last);
    SuperSealed(a);
    SuperSealed(b);
    assert a[..36] == a[..32] + a[32..36] && b[..36] == b[..32] + b[32..36];
    SealDetects(a[..32], a[32..36], b[..32], b[32..36], i);
    MagicBytes(a, b);
  }

  lemma MagicBytes(a: Sector, b: Sector)
    requires HasMagic(a)
    ensures HasMagic(b) <==> b[..8] == a[..8]
  {
    hide UnLE, Unpack;
    Sizes();
    FieldAt(SUPER_WIDTHS, a, 0);
    FieldAt(SUPER_WIDTHS, b, 0);
    assert a[0..8] == a[..8] && b[0..8] == b[..8];
    UnLERoundTrip(a[..8]);
    UnLERoundTrip(b[..8]);
  }

  lemma DurableSuper(d: Image, g: Area, last: Option<Journal>)
    requires g.Valid() && Durable(d, g, last)
    ensures ReadSuper(Read(d, g.base)).Some? && HasMagic(Read(d, g.base))
  {
    hide SuperSector, HeaderSector, EventsCrc, ReadSuper, HasMagic, EventSectors;
    match last
    case None => SuperRoundTrip(NO_SLOT, 0, 0, 0);
    case Some(j) =>
      SuperRoundTrip(0, j.epoch, |j.events|, EventsCrc(j.epoch, j.events));
      SuperRoundTrip(1, j.epoch, |j.events|, EventsCrc(j.epoch, j.events));
  }

  lemma HeaderFields(sec: Sector)
    ensures Size(HEADER_WIDTHS) == 32
    ensures var f := Unpack(HEADER_WIDTHS, sec);
            f[0] == UnLE(sec[..8]) && f[1] == UnLE(sec[8..16]) && f[2] == UnLE(sec[16..20]) && f[3] == UnLE(sec[20..24])
  {
    hide UnLE, Unpack;
    Sizes();
    assert HEADER_WIDTHS[1..] == [8, 4, 4, 8] && HEADER_WIDTHS[1..][1..] == [4, 4, 8];
    assert Offset(HEADER_WIDTHS, 1) == 8 && Offset(HEADER_WIDTHS, 2) == 16;
    assert Offset([4, 4, 8], 1) == 4;
    assert Offset(HEADER_WIDTHS, 3) == 20;
    FieldAt(HEADER_WIDTHS, sec, 0);
    FieldAt(HEADER_WIDTHS, sec, 1);
    FieldAt(HEADER_WIDTHS, sec, 2);
    FieldAt(HEADER_WIDTHS, sec, 3);
    assert sec[0..8] == sec[..8];
  }

  /** A slot header repeats what the superblock says: any damage to its magic, epoch, count or
      checksum is refused, and no other matters. */
  lemma DamagedHeader(d: Image, e: Image, g: Area, slot: nat, j: Journal)
    requires g.Valid() && Committed(d, g, slot, j)
    requires forall at :: at != g.Slot(slot) ==> Read(e, at) == Read(d, at)
    ensures
      var a, b := Read(d, g.Slot(slot)), Read(e, g.Slot(slot));
      Load(e, g) == if a[..24] == b[..24] then Loaded(g.Slot(slot), j.epoch, |j.events|) else BadCrc
  {
    hide Load, SuperSector, HeaderSector, EventSectors, Crc, EventsCrc, Unpack, Concat, SlotBase, UnLE;
    var a, b, n := Read(d, g.Slot(slot)), Read(e, g.Slot(slot)), |j.events|;
    var crc := EventsCrc(j.epoch, j.events);
    SlotBounds(g, slot, n);
    LoadIs(e, g, slot, j.epoch, n, crc);
    HeaderRoundTrip(j.epoch, n, crc, j.baseLclock);
    HeldCrc(d, g.Slot(slot), j);
    assert ReadRun(e, g.Slot(slot) + 1, SectorsFor(n)) == ReadRun(d, g.Slot(slot) + 1, SectorsFor(n));
    HeaderFields(a);
    HeaderFields(b);
    SameFields(a, b);
  }

  lemma SameFields(a: Sector, b: Sector)
    ensures a[..24] == b[..24] <==>
              && UnLE(a[..8]) == UnLE(b[..8]) && UnLE(a[8..16]) == UnLE(b[8..16])
              && UnLE(a[16..20]) == UnLE(b[16..20]) && UnLE(a[20..24]) == UnLE(b[20..24])
  {
    hide UnLE;
    UnLESame(a[..8], b[..8]);
    UnLESame(a[8..16], b[8..16]);
    UnLESame(a[16..20], b[16..20]);
    UnLESame(a[20..24], b[20..24]);
    SameSlices(a, b, 8, 24);
    SameSlices(a, b, 16, 24);
    SameSlices(a, b, 20, 24);
    SameSlices(a, b, 8, 16);
    SameSlices(a, b, 16, 20);
  }

  /** Two prefixes agree when a shorter one and the rest do. */
  lemma SameSlices(a: Sector, b: Sector, i: nat, n: nat)
    requires i <= n <= 512
    ensures a[..n] == b[..n] <==> a[..i] == b[..i] && a[i..n] == b[i..n]
  {
    assert a[..n] == a[..i] + a[i..n] && b[..n] == b[..i] + b[i..n];
    assert a[..i] == a[..n][..i] && a[i..n] == a[..n][i..] && b[..i] == b[..n][..i] && b[i..n] == b[..n][i..];
  }

  // ----- The writer -----

  datatype Code = Ok | ErrIo | ErrFull | ErrNoJournal | ErrState

  /** Sectors of the events already flushed, and the ones still in the buffer. */
  function Flushed(es: seq<Event>): (f: seq<Event>)
    ensures |f| % 16 == 0 && |f| / 16 == |es| / 16
  {
    es[..|es| / 16 * 16]
  }

  function Pending(es: seq<Event>): (p: seq<Event>)
    ensures |p| == |es| % 16 && Flushed(es) + p == es
  {
    es[|es| / 16 * 16..]
  }

  /** The buffer: pending events, then zeros. */
  function BufferOf(epoch: U64, p: seq<Event>): (s: Sector)
    requires |p| <= 16
  {
    EventsBytes(epoch, p) + Zeros(512 - 32 * |p|)
  }

  lemma BufferIsSector(epoch: U64, p: seq<Event>)
    requires 1 <= |p| <= 16
    ensures EventSectors(epoch, p) == [BufferOf(epoch, p)]
  {
    hide EventsBytes;
    var s := Padded(epoch, p);
    assert s == BufferOf(epoch, p) && s[..512] == s && s[512..] == [];
    assert Chop(s) == [s[..512]] + Chop(s[512..]);
  }

  /** Copying one event into the buffer behind the pending ones. */
  lemma BufferStep(epoch: U64, p: seq<Event>, e: Event)
    requires |p| < 16
    ensures var b, at := BufferOf(epoch, p), 32 * |p|;
            BufferOf(epoch, p + [e]) == b[..at] + EventBytes(epoch, e) + b[at + 32..]
  {
    hide EventBytes;
    EventsAppend(epoch, p, [e]);
    assert [e][1..] == [];
    assert EventsBytes(epoch, [e]) == EventBytes(epoch, e) + EventsBytes(epoch, []);
    var b, at := BufferOf(epoch, p), 32 * |p|;
    assert b[..at] == EventsBytes(epoch, p) && b[at + 32..] == Zeros(512 - 32 * (|p| + 1));
  }

  lemma CrcStep(epoch: U64, f: seq<Event>, p: seq<Event>)
    requires |f| % 16 == 0 && 1 <= |p| <= 16
    ensures EventsCrc(epoch, f + p) == Crc(EventsCrc(epoch, f), BufferOf(epoch, p))
    ensures EventSectors(epoch, f + p) == EventSectors(epoch, f) + [BufferOf(epoch, p)]
  {
    hide EventsBytes, EventSectors, Crc, BufferOf;
    SectorsAppend(epoch, f, p);
    BufferIsSector(epoch, p);
    ConcatAppend(EventSectors(epoch, f), [BufferOf(epoch, p)]);
    assert [BufferOf(epoch, p)][1..] == [];
    assert Concat([BufferOf(epoch, p)]) == BufferOf(epoch, p);
    CrcChains(0, Concat(EventSectors(epoch, f)), BufferOf(epoch, p));
  }

  /** The buffer holds the pending events and the running checksum covers the flushed ones. */
  ghost predicate Tracks(epoch: U64, es: seq<Event>, buf: seq<Byte>, crc: U32) {
    buf == BufferOf(epoch, Pending(es)) && crc == EventsCrc(epoch, Flushed(es))
  }

  lemma EmptyTracks(epoch: U64)
    ensures Tracks(epoch, [], Zeros(512), 0)
  {
    hide Crc;
    assert Padded(epoch, []) == [];
    assert EventSectors(epoch, []) == [];
    CrcOfNothing();
  }

  /** An event that leaves the sector unfinished. */
  lemma TrackBuffered(epoch: U64, es: seq<Event>, buf: seq<Byte>, crc: U32, e: Event)
    requires Tracks(epoch, es, buf, crc) && |es| % 16 < 15
    ensures |buf| == 512
    ensures var at := |es| % 16 * 32;
            Tracks(epoch, es + [e], buf[..at] + EventBytes(epoch, e) + buf[at + 32..], crc)
  {
    hide EventBytes, EventsCrc, BufferOf;
    BufferStep(epoch, Pending(es), e);
    assert Flushed(es + [e]) == Flushed(es) && Pending(es + [e]) == Pending(es) + [e];
  }

  /** The sixteenth event of a sector. */
  lemma TrackFlushed(epoch: U64, es: seq<Event>, buf: seq<Byte>, crc: U32, e: Event)
    requires Tracks(epoch, es, buf, crc) && |es| % 16 == 15
    ensures |buf| == 512
    ensures var full := buf[..480] + EventBytes(epoch, e) + buf[512..];
            && full == BufferOf(epoch, Pending(es) + [e])
            && Tracks(epoch, es + [e], Zeros(512), Crc(crc, full))
  {
    hide EventBytes, EventsCrc, BufferOf, Crc;
    BufferStep(epoch, Pending(es), e);
    CrcStep(epoch, Flushed(es), Pending(es) + [e]);
    assert Flushed(es + [e]) == es + [e] == Flushed(es) + (Pending(es) + [e]);
    EmptyTracks(epoch);
    assert Pending(es + [e]) == [] == Pending([]);
  }

  class Writer {
    const dev: Device
    const g: Area
    const slot: nat
    const epoch: U64
    const baseLclock: U64
    var eventCount: nat
    var crc: U32
    var bufEvents: nat
    var eventSector: nat
    var sectorBuf: seq<Byte>
    var active: bool
    ghost var events: seq<Event>

    ghost predicate Valid()
      reads this
    {
      && g.Valid() && slot <= 1
      && (active ==>
            && eventCount == |events| <= g.MaxEvents()
            && bufEvents == |events| % 16 && eventSector == |events| / 16
            && Tracks(epoch, events, sectorBuf, crc))
    }

    constructor Begin(dev: Device, g: Area, epoch: U64, baseLclock: U64)
      requires g.Valid()
      ensures Valid() && active && events == []
      ensures this.dev == dev && this.g == g && this.epoch == epoch && this.baseLclock == baseLclock
      ensures slot == TargetSlot(dev.disk, g)
    {
      hide Tracks, TargetSlot;
      this.dev, this.g, this.epoch, this.baseLclock := dev, g, epoch, baseLclock;
      slot := TargetSlot(dev.disk, g);
      eventCount, crc, bufEvents, eventSector, active := 0, 0, 0, 0, true;
      sectorBuf := Zeros(512);
      events := [];
      new;
      EmptyTracks(epoch);
    }

    /** Append one event; every sixteenth one writes the buffered sector out. */
    method Append(e: Event) returns (rc: Code)
      requires Valid()
      modifies this, dev
      ensures rc == if !old(active) then ErrState
                    else if old(eventCount) >= g.MaxEvents() then ErrFull
                    else if old(bufEvents) == 15 && old(dev.budget) == 0 then ErrIo
                    else Ok
      ensures Valid() && active == (rc == Ok || rc == ErrFull)
      ensures events == if rc == Ok then old(events) + [e] else old(events)
      ensures rc == Ok && old(bufEvents) == 15 ==>
                && dev.disk == Apply(old(dev.disk), [Write(g.Slot(slot) + 1 + old(eventSector),
                                                           BufferOf(epoch, Pending(old(events)) + [e]))])
                && dev.budget == old(dev.budget) - 1
      ensures rc != Ok || old(bufEvents) < 15 ==> dev.disk == old(dev.disk) && dev.budget == old(dev.budget)
    {
      hide EventBytes, BufferOf, Tracks, Crc;
      if !active {
        return ErrState;
      }
      if eventCount >= g.MaxEvents() {
        return ErrFull;
      }
      if bufEvents == 15 {
        TrackFlushed(epoch, events, sectorBuf, crc, e);
      } else {
        TrackBuffered(epoch, events, sectorBuf, crc, e);
      }
      var off := bufEvents * EVENT_SIZE;
      sectorBuf := sectorBuf[..off] + EventBytes(epoch, e) + sectorBuf[off + EVENT_SIZE..];
      bufEvents := bufEvents + 1;
      eventCount := eventCount + 1;
      if bufEvents == EVENTS_PER_SECTOR {
        var buf: Sector := sectorBuf;
        var at := g.Slot(slot) + 1 + eventSector;
        assert Burst(at, [buf]) == [Write(at, buf)];
        var ok := dev.WriteSectors(at, [buf]);
        if !ok {
          active := false;
          CutEmpty(old(dev.disk), Burst(at, [buf]));
          return ErrIo;
        }
        CutFull(old(dev.disk), Burst(at, [buf]), old(dev.budget));
        crc := Crc32.Compute(crc, buf);
        eventSector := eventSector + 1;
        bufEvents := 0;
        sectorBuf := Zeros(512);
      }
      events := events + [e];
      rc := Ok;
    }

    /** Flush the partial sector, write the header, flip the superblock. */
    method Commit() returns (rc: Code)
      requires Valid()
      modifies this, dev
      ensures Valid() && !active
      ensures !old(active) ==> rc == ErrState && dev.disk == old(dev.disk) && dev.budget == old(dev.budget)
      ensures old(active) ==>
              var crc', n := EventsCrc(epoch, old(events)), (|old(events)| + 15) / 16 - |old(events)| / 16;
              && dev.disk == Cut(old(dev.disk),
                                 Burst(g.Slot(slot) + 1 + |old(events)| / 16,
                                       EventSectors(epoch, Pending(old(events))))
                                 + [Write(g.Slot(slot), HeaderSector(epoch, |old(events)|, crc', baseLclock)),
                                    Write(g.base, SuperSector(slot, epoch, |old(events)|, crc'))],
                                 old(dev.budget))
              && rc == (if old(dev.budget) >= n + 2 then Ok else ErrIo)
    {
      hide EventsBytes, EventsCrc, Crc, HeaderSector, SuperSector, EventSectors, BufferOf, Cut;
      if !active {
        return ErrState;
      }
      ghost var f, p := Flushed(events), Pending(events);
      ghost var d0, b0, at := dev.disk, dev.budget, g.Slot(slot) + 1 + eventSector;
      ghost var crc' := EventsCrc(epoch, events);
      ghost var header', super' :=
        HeaderSector(epoch, |events|, crc', baseLclock), SuperSector(slot, epoch, |events|, crc');
      ghost var tail := [Write(g.Slot(slot), header'), Write(g.base, super')];
      ghost var head := Burst(at, EventSectors(epoch, p));
      CutAppend(d0, head, tail, b0);
      assert f + p == events;
      if bufEvents > 0 {
        CrcStep(epoch, f, p);
        BufferIsSector(epoch, p);
        var buf: Sector := sectorBuf;
        var ok := dev.WriteSectors(g.Slot(slot) + 1 + eventSector, [buf]);
        if !ok {
          active := false;
          return ErrIo;
        }
        crc := Crc32.Compute(crc, buf);
      } else {
        assert p == [] && f == events;
        CutEmpty(d0, head);
      }
      CutFull(d0, head, b0);
      ghost var b1, d1 := dev.budget, dev.disk;
      assert d1 == Apply(d0, head);
      var header := HeaderSector(epoch, eventCount, crc, baseLclock);
      var super := SuperSector(slot, epoch, eventCount, crc);
      ghost var first, second := Burst(g.Slot(slot), [header]), Burst(g.base, [super]);
      assert first + second == tail;
      CutAppend(d1, first, second, b1);
      var ok := dev.WriteSectors(g.Slot(slot), [header]);
      if !ok {
        active := false;
        return ErrIo;
      }
      CutFull(d1, first, b1);
      ok := dev.WriteSectors(g.base, [super]);
      active := false;
      rc := if ok then Ok else ErrIo;
    }
  }

  /** The write list starts with the sectors of whole groups of sixteen events. */
  lemma WritesPrefix(d: Image, g: Area, j: Journal, k: nat)
    requires g.Valid() && 16 * k <= |j.events| && 16 * k <= g.MaxEvents()
    ensures |JournalWrites(d, g, j)| >= k
    ensures JournalWrites(d, g, j)[..k]
         == Burst(g.Slot(TargetSlot(d, g)) + 1, EventSectors(j.epoch, j.events[..16 * k]))
  {
    hide EventSectors, EventsCrc, HeaderSector, SuperSector, TargetSlot, SlotBase, JournalWrites;
    var at := g.Slot(TargetSlot(d, g)) + 1;
    var es := if FitsSlot(g, j) then j.events else j.events[..g.MaxEvents()];
    assert es == es[..16 * k] + es[16 * k..] && es[..16 * k] == j.events[..16 * k];
    SectorsAppend(j.epoch, es[..16 * k], es[16 * k..]);
    BurstAppend(at, EventSectors(j.epoch, es[..16 * k]), EventSectors(j.epoch, es[16 * k..]));
    WritesStart(d, g, j, es);
    var all := Burst(at, EventSectors(j.epoch, es));
    assert JournalWrites(d, g, j)[..k] == all[..k];
  }

  /** A job's event sectors come first. */
  lemma WritesStart(d: Image, g: Area, j: Journal, es: seq<Event>)
    requires g.Valid() && es == if FitsSlot(g, j) then j.events else j.events[..g.MaxEvents()]
    ensures Burst(g.Slot(TargetSlot(d, g)) + 1, EventSectors(j.epoch, es)) <= JournalWrites(d, g, j)
  {
    hide EventSectors, EventsCrc, HeaderSector, SuperSector, TargetSlot, SlotBase;
  }

  /** Begin, append every event, commit. */
  method WriteJournal(dev: Device, g: Area, j: Journal) returns (rc: Code)
    requires g.Valid()
    modifies dev
    ensures dev.disk == Cut(old(dev.disk), JournalWrites(old(dev.disk), g, j), old(dev.budget))
    ensures rc == Ok <==> Commits(g, Attempt(j, old(dev.budget)))
    ensures !FitsSlot(g, j) && old(dev.budget) >= g.MaxEvents() / 16 ==> rc == ErrFull
  {
    hide EventsBytes, EventSectors, EventsCrc, BufferOf, HeaderSector, SuperSector, TargetSlot;
    hide JournalWrites, Apply, Cut, Burst, Flushed, Pending, Tracks;
    var w := new Writer.Begin(dev, g, j.epoch, j.baseLclock);
    ghost var d0, b0 := dev.disk, dev.budget;
    ghost var at, ws := g.Slot(w.slot) + 1, JournalWrites(d0, g, j);
    NoSectors(d0, at, j);
    WriteCount(d0, g, j);
    for i := 0 to |j.events|
      invariant w.Valid() && w.active && w.events == j.events[..i] && fresh(w)
      invariant dev.budget == b0 - i / 16
      invariant dev.disk == Apply(d0, Burst(at, EventSectors(j.epoch, Flushed(j.events[..i]))))
    {
      assert j.events[..i + 1] == j.events[..i] + [j.events[i]];
      rc := w.Append(j.events[i]);
      if rc == ErrFull {
        FullStops(d0, g, j, b0);
        return;
      }
      if rc != Ok {
        IoStops(d0, g, j, i);
        return;
      }
      FlushStep(d0, at, j.epoch, j.events[..i], j.events[i]);
    }
    assert j.events[..|j.events|] == j.events;
    CommitTail(d0, g, j, b0);
    rc := w.Commit();
  }

  lemma NoSectors(d: Image, at: nat, j: Journal)
    ensures Apply(d, Burst(at, EventSectors(j.epoch, Flushed(j.events[..0])))) == d
  {
    assert Flushed(j.events[..0]) == [];
    assert Padded(j.epoch, []) == [];
  }

  lemma IoStops(d: Image, g: Area, j: Journal, i: nat)
    requires g.Valid() && i < |j.events| && i < g.MaxEvents()
    ensures Cut(d, JournalWrites(d, g, j), i / 16)
         == Apply(d, Burst(g.Slot(TargetSlot(d, g)) + 1, EventSectors(j.epoch, Flushed(j.events[..i]))))
  {
    hide EventSectors, TargetSlot, JournalWrites;
    assert Flushed(j.events[..i]) == j.events[..16 * (i / 16)];
    WritesPrefix(d, g, j, i / 16);
  }

  lemma FullStops(d: Image, g: Area, j: Journal, budget: nat)
    requires g.Valid() && !FitsSlot(g, j) && budget >= g.MaxEvents() / 16
    ensures Cut(d, JournalWrites(d, g, j), budget)
         == Apply(d, Burst(g.Slot(TargetSlot(d, g)) + 1,
                           EventSectors(j.epoch, Flushed(j.events[..g.MaxEvents()]))))
  {
    hide EventSectors, TargetSlot;
    assert Flushed(j.events[..g.MaxEvents()]) == j.events[..g.MaxEvents()];
    CutFull(d, JournalWrites(d, g, j), budget);
  }

  /** One more event: the sixteenth of a group extends the burst, any other leaves it. */
  lemma FlushStep(d: Image, at: nat, epoch: U64, es: seq<Event>, e: Event)
    ensures |es| % 16 < 15 ==> Flushed(es + [e]) == Flushed(es)
    ensures |es| % 16 == 15 ==>
              Apply(Apply(d, Burst(at, EventSectors(epoch, Flushed(es)))),
                    [Write(at + |es| / 16, BufferOf(epoch, Pending(es) + [e]))])
              == Apply(d, Burst(at, EventSectors(epoch, Flushed(es + [e]))))
  {
    hide EventSectors, EventsCrc, BufferOf, Apply;
    if |es| % 16 == 15 {
      var f, p := Flushed(es), Pending(es) + [e];
      assert f + p == es + [e] == Flushed(es + [e]);
      CrcStep(epoch, f, p);
      var a, b := EventSectors(epoch, f), [BufferOf(epoch, p)];
      BurstAppend(at, a, b);
      assert Burst(at + |es| / 16, b) == [Write(at + |es| / 16, BufferOf(epoch, p))];
      ApplyAppend(d, Burst(at, a), Burst(at + |es| / 16, b));
    }
  }

  function TailWrites(g: Area, slot: nat, j: Journal): seq<Write>
    requires g.Valid() && slot <= 1 && FitsSlot(g, j)
  {
    var crc := EventsCrc(j.epoch, j.events);
    Burst(g.Slot(slot) + 1 + |j.events| / 16, EventSectors(j.epoch, Pending(j.events)))
    + [Write(g.Slot(slot), HeaderSector(j.epoch, |j.events|, crc, j.baseLclock)),
       Write(g.base, SuperSector(slot, j.epoch, |j.events|, crc))]
  }

  /** With all whole sectors down, what is left is the partial one, the header and the flip. */
  lemma CommitTail(d: Image, g: Area, j: Journal, budget: nat)
    requires g.Valid() && FitsSlot(g, j) && budget >= |j.events| / 16
    ensures Cut(d, JournalWrites(d, g, j), budget)
         == Cut(Apply(d, Burst(g.Slot(TargetSlot(d, g)) + 1, EventSectors(j.epoch, Flushed(j.events)))),
                TailWrites(g, TargetSlot(d, g), j), budget - |j.events| / 16)
  {
    hide EventSectors, EventsCrc, HeaderSector, SuperSector, TargetSlot, Apply, Cut;
    var at := g.Slot(TargetSlot(d, g)) + 1;
    var f, p := Flushed(j.events), Pending(j.events);
    SectorsAppend(j.epoch, f, p);
    var rest, crc := TailWrites(g, TargetSlot(d, g), j), EventsCrc(j.epoch, j.events);
    SlotWritesSplit(g.base, at - 1, EventSectors(j.epoch, f), EventSectors(j.epoch, p),
                    HeaderSector(j.epoch, |j.events|, crc, j.baseLclock),
                    SuperSector(TargetSlot(d, g), j.epoch, |j.events|, crc));
    CutAppend(d, Burst(at, EventSectors(j.epoch, f)), rest, budget);
  }

  // ----- The reader -----

  /** An open journal with its one-sector cache. */
  class Reader {
    const dev: Device
    const slotBase: nat
    const epoch: U64
    const eventCount: nat
    var nextIndex: nat
    var bufSector: U32
    var sectorBuf: Sector

    ghost predicate Valid()
      reads this, dev
    {
      && eventCount < 0x1_0000_0000
      && (bufSector != NO_SLOT ==> sectorBuf == Read(dev.disk, slotBase + 1 + bufSector))
    }

    constructor Open(dev: Device, loaded: LoadResult)
      requires loaded.Loaded? && loaded.count < 0x1_0000_0000
      ensures Valid() && this.dev == dev && slotBase == loaded.slotBase && epoch == loaded.epoch
      ensures eventCount == loaded.count && nextIndex == 0 && bufSector == NO_SLOT
    {
      this.dev := dev;
      slotBase, epoch, eventCount := loaded.slotBase, loaded.epoch, loaded.count;
      nextIndex, bufSector, sectorBuf := 0, NO_SLOT, Zeros(512);
    }

    method Next() returns (rc: Code, out: Option<Event>)
      requires Valid()
      modifies this
      ensures Valid()
      ensures rc == if old(nextIndex) < eventCount then Ok else ErrNoJournal
      ensures rc == Ok ==>
                out == Some(ReadEvent(dev.disk, slotBase, old(nextIndex)).1) && nextIndex == old(nextIndex) + 1
      ensures rc != Ok ==> out == None && nextIndex == old(nextIndex)
    {
      hide ParseEvent;
      if nextIndex >= eventCount {
        return ErrNoJournal, None;
      }
      var sector, within := nextIndex / EVENTS_PER_SECTOR, nextIndex % EVENTS_PER_SECTOR;
      if bufSector != sector {
        sectorBuf := Read(dev.disk, slotBase + 1 + sector);
        bufSector := sector;
      }
      out := Some(ParseEvent(sectorBuf[within * EVENT_SIZE..within * EVENT_SIZE + EVENT_SIZE]).1);
      nextIndex := nextIndex + 1;
      rc := Ok;
    }
  }

  lemma SlotCrcStep(d: Image, at: nat, i: nat)
    ensures Crc(Crc(0, Concat(ReadRun(d, at, i))), Read(d, at + i)) == Crc(0, Concat(ReadRun(d, at, i + 1)))
  {
    hide Crc;
    var done, last := ReadRun(d, at, i), Read(d, at + i);
    assert ReadRun(d, at, i + 1) == done + [last];
    ConcatAppend(done, [last]);
    assert [last][1..] == [];
    assert Concat([last]) == last;
    CrcChains(0, Concat(done), last);
  }

  /** The superblock, the slot header, then the checksum loop over the event sectors. */
  method LoadJournal(dev: Device, g: Area) returns (r: LoadResult)
    ensures r == Load(dev.disk, g)
  {
    hide ReadSuper, HasMagic, Unpack, Crc;
    Sizes();
    FieldWidths();
    var sec := Read(dev.disk, g.base);
    if !HasMagic(sec) {
      return NoJournal;
    }
    var super := ReadSuper(sec);
    if super.None? {
      return BadCrc;
    }
    var sb := super.value;
    if sb[2] == NO_SLOT {
      return NoJournal;
    }
    var slotBase := g.Slot(sb[2]) % 0x1_0000_0000;
    var hdr := Unpack(HEADER_WIDTHS, Read(dev.disk, slotBase));
    if hdr[0] != SLOT_MAGIC || hdr[1] != sb[3] || hdr[2] != sb[4] {
      return BadCrc;
    }
    var crc: U32 := 0;
    assert Crc(0, []) == 0 by { CrcOfNothing(); }
    for i := 0 to SectorsFor(hdr[2])
      invariant crc == Crc(0, Concat(ReadRun(dev.disk, slotBase + 1, i)))
    {
      SlotCrcStep(dev.disk, slotBase + 1, i);
      crc := Crc32.Compute(crc, Read(dev.disk, slotBase + 1 + i));
    }
    if crc != hdr[3] || crc != sb[5] {
      return BadCrc;
    }
    r := Loaded(slotBase, hdr[1], hdr[2]);
  }

  lemma LoadedCount(d: Image, g: Area)
    ensures Load(d, g).Loaded? ==> Load(d, g).count < 0x1_0000_0000
  {
    hide ReadSuper, HasMagic, SlotCrc;
    Sizes();
    FieldWidths();
  }

  /** Load, then next until the reader reports exhaustion: on a consistent disk exactly the
      events of the journal it holds. */
  method ReadJournal(dev: Device, g: Area) returns (found: Option<(U64, seq<Event>)>)
    requires g.Valid()
    ensures found == ReadBack(dev.disk, g)
    ensures forall last :: Durable(dev.disk, g, last) ==>
              found == if last.None? then None else Some((last.value.epoch, last.value.events))
  {
    hide Load, ReadEvent, Durable;
    forall last | Durable(dev.disk, g, last)
      ensures ReadBack(dev.disk, g) == if last.None? then None else Some((last.value.epoch, last.value.events))
    {
      DurableReadsBack(dev.disk, g, last);
    }
    var loaded := LoadJournal(dev, g);
    if !loaded.Loaded? {
      return None;
    }
    LoadedCount(dev.disk, g);
    var reader := new Reader.Open(dev, loaded);
    var events := [];
    while true
      invariant fresh(reader) && reader.Valid() && reader.nextIndex == |events| <= reader.eventCount
      invariant events == ReadEvents(dev.disk, loaded.slotBase, |events|)
      decreases reader.eventCount - reader.nextIndex
    {
      var rc, out := reader.Next();
      if rc != Ok {
        break;
      }
      events := events + [out.value];
    }
    found := Some((loaded.epoch, events));
  }

  /** An empty journal: the start every series of journals begins from. */
  method FormatJournal(dev: Device, g: Area) returns (ok: bool)
    requires g.Valid()
    modifies dev
    ensures ok <==> old(dev.budget) > 0
    ensures ok ==> Durable(dev.disk, g, None)
  {
    hide SuperSector;
    var empty := SuperSector(NO_SLOT, 0, 0, 0);
    ok := dev.WriteSectors(g.base, [empty]);
    if ok {
      CutFull(old(dev.disk), Burst(g.base, [empty]), old(dev.budget));
      BurstHolds(old(dev.disk), g.base, [empty]);
      assert Read(dev.disk, g.base + 0) == [empty][0];
    }
  }
}
