/** The on-disk snapshot store: a superblock and two double-buffered slots of page records. */
module SnapshotStore {
  import opened Bytes
  import opened Crc32
  import opened Disk
  import opened TwoSlot

  const SB_MAGIC: U64 := 0x494B_4F53_534E_4250
  const SLOT_MAGIC: U64 := 0x494B_4F53_534C_4F54
  const FORMAT_VERSION: U32 := 1
  const NO_SLOT: U32 := 0xFFFF_FFFF
  const PAGE_SIZE: nat := 4096
  const SECTORS_PER_RECORD: nat := 9

  type Page = s: seq<Byte> | |s| == 4096 witness Zeros(4096)

  datatype Record = Record(pid: U32, flags: U32, vaddr: U64, data: Page)

  datatype Checkpoint = Checkpoint(epoch: U64, records: seq<Record>)

  /** Where a store lives and the kernel build it is stamped with. */
  datatype Geometry = Geometry(base: nat, slotSectors: nat, version: U32) {
    ghost predicate Valid() {
      slotSectors >= 1 + SECTORS_PER_RECORD && base + 1 + 2 * slotSectors <= 0x1_0000_0000
    }

    function MaxRecords(): nat
      requires slotSectors >= 1
    {
      (slotSectors - 1) / SECTORS_PER_RECORD
    }

    function Slot(slot: nat): nat {
      SlotBase(base, slotSectors, slot)
    }
  }

  // ----- On-disk structures -----

  const SUPER_WIDTHS: seq<nat> := [8, 4, 4, 8, 4, 4]
  const HEADER_WIDTHS: seq<nat> := [8, 8, 4, 4, 8, 4, 4]
  const META_WIDTHS: seq<nat> := [8, 4, 4, 8, 4, 4]

  lemma Sizes()
    ensures Size(SUPER_WIDTHS) == 32 && Size(HEADER_WIDTHS) == 40 && Size(META_WIDTHS) == 32
  {
    assert SUPER_WIDTHS[1..] == [4, 4, 8, 4, 4] && HEADER_WIDTHS[1..] == [8, 4, 4, 8, 4, 4];
  }

  function SuperBody(slot: U32, epoch: U64, crc: U32, version: U32): (s: seq<Byte>)
    ensures |s| == 32
  {
    Sizes();
    Pack([SB_MAGIC, FORMAT_VERSION, slot, epoch, crc, version], SUPER_WIDTHS)
  }

  function SuperSector(slot: U32, epoch: U64, crc: U32, version: U32): Sector {
    var body := SuperBody(slot, epoch, crc, version);
    body + LE(Crc(0, body), 4) + Zeros(476)
  }

  function HeaderSector(epoch: U64, count: U32, crc: U32): Sector {
    Sizes();
    Pack([SLOT_MAGIC, epoch, count, 0, count, crc, 0], HEADER_WIDTHS) + Zeros(472)
  }

  function MetaSector(epoch: U64, r: Record): Sector {
    Sizes();
    Pack([epoch, r.pid, r.flags, r.vaddr, PAGE_SIZE, 0], META_WIDTHS) + Zeros(480)
  }

  function RecordSectors(epoch: U64, r: Record): (secs: seq<Sector>)
    ensures |secs| == SECTORS_PER_RECORD
  {
    [MetaSector(epoch, r)] + Chop(r.data)
  }

  /** All sectors of a list of records, in slot order. */
  function Stream(epoch: U64, rs: seq<Record>): (secs: seq<Sector>)
    ensures |secs| == SECTORS_PER_RECORD * |rs|
  {
    if rs == [] then [] else RecordSectors(epoch, rs[0]) + Stream(epoch, rs[1..])
  }

  function StreamCrc(epoch: U64, rs: seq<Record>): U32 {
    Crc(0, Concat(Stream(epoch, rs)))
  }

  // ----- Reading a disk back -----

  datatype LoadResult =
    | Loaded(slotBase: nat, epoch: U64, count: nat)
    | NoCheckpoint
    | BadVersion
    | BadCrc

  predicate SuperValid(sec: Sector) {
    Sizes();
    var sb := Unpack(SUPER_WIDTHS, sec);
    sb[0] == SB_MAGIC && sb[1] == FORMAT_VERSION && UnLE(sec[32..36]) == Crc(0, sec[..32])
  }

  function SlotCrc(d: Image, slotBase: nat, count: nat): U32 {
    Crc(0, Concat(ReadRun(d, slotBase + 1, SECTORS_PER_RECORD * count)))
  }

  function Load(d: Image, g: Geometry): LoadResult
    requires g.Valid()
  {
    Sizes();
    FieldWidths();
    var sec := Read(d, g.base);
    var sb := Unpack(SUPER_WIDTHS, sec);
    if !SuperValid(sec) then NoCheckpoint
    else if sb[5] != g.version then BadVersion
    else if sb[2] > 1 then NoCheckpoint
    else
      var slotBase := g.Slot(sb[2]);
      var sh := Unpack(HEADER_WIDTHS, Read(d, slotBase));
      if sh[0] != SLOT_MAGIC || sh[1] != sb[3] then NoCheckpoint
      else if sh[5] != sb[4] || sh[2] > g.MaxRecords() then BadCrc
      else if SlotCrc(d, slotBase, sh[2]) != sh[5] then BadCrc
      else Loaded(slotBase, sh[1], sh[2])
  }

  function ReadRecord(d: Image, slotBase: nat, i: nat): Record {
    Sizes();
    FieldWidths();
    var at := slotBase + 1 + i * SECTORS_PER_RECORD;
    var meta := Unpack(META_WIDTHS, Read(d, at));
    var secs := ReadRun(d, at + 1, 8);
    ConcatSectors(secs);
    Record(meta[1], meta[2], meta[3], Concat(secs))
  }

  function ReadRecords(d: Image, slotBase: nat, count: nat): (rs: seq<Record>)
    ensures |rs| == count
  {
    seq(count, i requires 0 <= i < count => ReadRecord(d, slotBase, i))
  }

  /** What a boot finds: the loaded checkpoint with every record read in order. */
  function ReadBack(d: Image, g: Geometry): Option<Checkpoint>
    requires g.Valid()
  {
    match Load(d, g)
    case Loaded(slotBase, epoch, count) => Some(Checkpoint(epoch, ReadRecords(d, slotBase, count)))
    case _ => None
  }

  // ----- Writing a checkpoint -----

  /** The slot a new checkpoint goes to: the one the superblock does not name. */
  function InactiveSlot(d: Image, g: Geometry): (slot: nat)
    ensures slot <= 1
  {
    Sizes();
    var sec := Read(d, g.base);
    var active := Unpack(SUPER_WIDTHS, sec)[2];
    if SuperValid(sec) && active <= 1 then 1 - active else 0
  }

  predicate FitsSlot(g: Geometry, ck: Checkpoint)
    requires g.Valid()
  {
    |ck.records| <= g.MaxRecords()
  }

  /** Every sector write of begin, add_page and commit. A checkpoint with too many records
      stops at the first one that does not fit and never reaches the header. */
  function CheckpointWrites(d: Image, g: Geometry, ck: Checkpoint): seq<Write>
    requires g.Valid()
  {
    var slotBase := g.Slot(InactiveSlot(d, g));
    if FitsSlot(g, ck) then
      var crc := StreamCrc(ck.epoch, ck.records);
      SlotWrites(g.base, slotBase, Stream(ck.epoch, ck.records),
                 HeaderSector(ck.epoch, |ck.records|, crc),
                 SuperSector(InactiveSlot(d, g), ck.epoch, crc, g.version))
    else
      Burst(slotBase + 1, Stream(ck.epoch, ck.records[..g.MaxRecords()]))
  }

  /** A checkpoint fits exactly when its slot has room for the header and nine sectors a record. */
  lemma FitsExactly(g: Geometry, ck: Checkpoint)
    requires g.Valid()
    ensures FitsSlot(g, ck) <==> 1 + 9 * |ck.records| <= g.slotSectors
  {
    var n := g.slotSectors - 1;
    assert n == 9 * (n / 9) + n % 9;
  }

  /** One checkpoint attempt, cut off after `cut` sector writes. */
  datatype Attempt = Attempt(ck: Checkpoint, cut: nat)

  predicate Commits(d: Image, g: Geometry, a: Attempt)
    requires g.Valid()
  {
    FitsSlot(g, a.ck) && a.cut >= |CheckpointWrites(d, g, a.ck)|
  }

  function RunAttempts(d: Image, g: Geometry, runs: seq<Attempt>): Image
    requires g.Valid()
    decreases |runs|
  {
    if runs == [] then d
    else RunAttempts(Cut(d, CheckpointWrites(d, g, runs[0].ck), runs[0].cut), g, runs[1..])
  }

  /** The last checkpoint whose superblock write happened. */
  function LastCommitted(g: Geometry, last: Option<Checkpoint>, runs: seq<Attempt>): Option<Checkpoint>
    requires g.Valid()
    decreases |runs|
  {
    if runs == [] then last
    else
      var a := runs[0];
      var done := FitsSlot(g, a.ck) && a.cut >= SECTORS_PER_RECORD * |a.ck.records| + 2;
      LastCommitted(g, if done then Some(a.ck) else last, runs[1..])
  }

  // ----- What a consistent disk looks like -----

  ghost predicate Committed(d: Image, g: Geometry, slot: nat, ck: Checkpoint)
    requires g.Valid()
  {
    && slot <= 1 && FitsSlot(g, ck)
    && var crc := StreamCrc(ck.epoch, ck.records);
    && Read(d, g.base) == SuperSector(slot, ck.epoch, crc, g.version)
    && Read(d, g.Slot(slot)) == HeaderSector(ck.epoch, |ck.records|, crc)
    && Holds(d, g.Slot(slot) + 1, Stream(ck.epoch, ck.records))
  }

  ghost predicate Durable(d: Image, g: Geometry, last: Option<Checkpoint>)
    requires g.Valid()
  {
    match last
    case None => Read(d, g.base) == SuperSector(NO_SLOT, 0, 0, g.version)
    case Some(ck) => Committed(d, g, 0, ck) || Committed(d, g, 1, ck)
  }

  // ----- Sector round trips -----

  lemma SuperRoundTrip(slot: U32, epoch: U64, crc: U32, version: U32)
    ensures Size(SUPER_WIDTHS) == 32 && SuperValid(SuperSector(slot, epoch, crc, version))
    ensures Unpack(SUPER_WIDTHS, SuperSector(slot, epoch, crc, version))
         == [SB_MAGIC, FORMAT_VERSION, slot, epoch, crc, version]
  {
    hide Crc, LE, UnLE, Pow256;
    Sizes();
    FieldWidths();
    var vals := [SB_MAGIC, FORMAT_VERSION, slot, epoch, crc, version];
    var body := SuperBody(slot, epoch, crc, version);
    var sec := SuperSector(slot, epoch, crc, version);
    assert sec == body + (LE(Crc(0, body), 4) + Zeros(476));
    UnpackPack(vals, SUPER_WIDTHS, LE(Crc(0, body), 4) + Zeros(476));
    assert sec[..32] == body && sec[32..36] == LE(Crc(0, body), 4);
    LERoundTrip(Crc(0, body), 4);
  }

  lemma Offsets()
    ensures Offset(SUPER_WIDTHS, 0) == 0 && Offset(SUPER_WIDTHS, 1) == 8 && Offset(SUPER_WIDTHS, 2) == 12
    ensures Offset(SUPER_WIDTHS, 3) == 16 && Offset(SUPER_WIDTHS, 4) == 24 && Offset(SUPER_WIDTHS, 5) == 28
  {
    var w := SUPER_WIDTHS;
    assert w[1..] == [4, 4, 8, 4, 4] && w[1..][1..] == [4, 8, 4, 4] && w[1..][1..][1..] == [8, 4, 4];
    assert [8, 4, 4][1..] == [4, 4];
    assert Offset([8, 4, 4], 1) == 8 && Offset([8, 4, 4], 2) == 12;
    assert Offset([4, 8, 4, 4], 1) == 4 && Offset([4, 8, 4, 4], 2) == 12 && Offset([4, 8, 4, 4], 3) == 16;
    assert Offset([4, 4, 8, 4, 4], 2) == 8 && Offset([4, 4, 8, 4, 4], 3) == 16 && Offset([4, 4, 8, 4, 4], 4) == 20;
  }

  /** The superblock on disk, byte by byte. */
  lemma SuperOnDisk(slot: U32, epoch: U64, crc: U32, version: U32)
    ensures
      var s := SuperSector(slot, epoch, crc, version);
      && s[0..8] == [0x50, 0x42, 0x4E, 0x53, 0x53, 0x4F, 0x4B, 0x49] && s[8..12] == LE(1, 4)
      && s[12..16] == LE(slot, 4) && s[16..24] == LE(epoch, 8) && s[24..28] == LE(crc, 4) && s[28..32] == LE(version, 4)
      && s[32..36] == LE(Crc(0, s[..32]), 4) && s[36..] == Zeros(476)
  {
    hide LE, Crc, Pack, Offset;
    Sizes();
    Offsets();
    var v, w := [SB_MAGIC, FORMAT_VERSION, slot, epoch, crc, version], SUPER_WIDTHS;
    var s, body := SuperSector(slot, epoch, crc, version), SuperBody(slot, epoch, crc, version);
    assert s[..32] == body && s[32..36] == LE(Crc(0, body), 4);
    PackAt(v, w, 0);
    PackAt(v, w, 1);
    PackAt(v, w, 2);
    PackAt(v, w, 3);
    PackAt(v, w, 4);
    PackAt(v, w, 5);
    assert s[0..8] == body[0..8] && s[8..12] == body[8..12] && s[12..16] == body[12..16];
    assert s[16..24] == body[16..24] && s[24..28] == body[24..28] && s[28..32] == body[28..32];
    MagicOnDisk();
  }

  /** A record's metadata on disk; its page is the eight sectors after. */
  lemma MetaOnDisk(epoch: U64, r: Record)
    ensures
      var s := MetaSector(epoch, r);
      && s[0..8] == LE(epoch, 8) && s[8..12] == LE(r.pid, 4) && s[12..16] == LE(r.flags, 4)
      && s[16..24] == LE(r.vaddr, 8) && s[24..28] == LE(4096, 4) && s[28..32] == LE(0, 4) && s[32..] == Zeros(480)
  {
    hide LE, Pack, Offset;
    Sizes();
    Offsets();
    var v, w := [epoch, r.pid, r.flags, r.vaddr, PAGE_SIZE, 0], META_WIDTHS;
    var s, body := MetaSector(epoch, r), Pack(v, w);
    PackAt(v, w, 0);
    PackAt(v, w, 1);
    PackAt(v, w, 2);
    PackAt(v, w, 3);
    PackAt(v, w, 4);
    PackAt(v, w, 5);
    assert s[0..8] == body[0..8] && s[8..12] == body[8..12] && s[12..16] == body[12..16];
    assert s[16..24] == body[16..24] && s[24..28] == body[24..28] && s[28..32] == body[28..32];
  }

  /** A slot header on disk. */
  lemma HeaderOnDisk(epoch: U64, count: U32, crc: U32)
    ensures
      var s := HeaderSector(epoch, count, crc);
      && UnLE(s[..8]) == 0x494B_4F53_534C_4F54 && UnLE(s[8..16]) == epoch && UnLE(s[16..20]) == count
      && UnLE(s[32..36]) == crc
  {
    hide UnLE, Unpack, Pack;
    HeaderRoundTrip(epoch, count, crc);
    HeaderFields(HeaderSector(epoch, count, crc));
  }

  lemma MagicOnDisk()
    ensures LE(SB_MAGIC, 8) == [0x50, 0x42, 0x4E, 0x53, 0x53, 0x4F, 0x4B, 0x49]
  {
    assert LE(0x494B_4F53, 4) == [0x53, 0x4F, 0x4B, 0x49];
    assert LE(0x494B_4F53_53, 5) == [0x53] + LE(0x494B_4F53, 4);
    assert LE(0x494B_4F53_534E, 6) == [0x4E] + LE(0x494B_4F53_53, 5);
    assert LE(0x494B_4F53_534E_42, 7) == [0x42] + LE(0x494B_4F53_534E, 6);
  }

  lemma HeaderRoundTrip(epoch: U64, count: U32, crc: U32)
    ensures Size(HEADER_WIDTHS) == 40
    ensures Unpack(HEADER_WIDTHS, HeaderSector(epoch, count, crc))
         == [SLOT_MAGIC, epoch, count, 0, count, crc, 0]
  {
    Sizes();
    FieldWidths();
    UnpackPack([SLOT_MAGIC, epoch, count, 0, count, crc, 0], HEADER_WIDTHS, Zeros(472));
  }

  lemma MetaRoundTrip(epoch: U64, r: Record)
    ensures Size(META_WIDTHS) == 32
    ensures Unpack(META_WIDTHS, MetaSector(epoch, r)) == [epoch, r.pid, r.flags, r.vaddr, PAGE_SIZE, 0]
  {
    Sizes();
    FieldWidths();
    UnpackPack([epoch, r.pid, r.flags, r.vaddr, PAGE_SIZE, 0], META_WIDTHS, Zeros(480));
  }

  lemma {:induction false} StreamAt(epoch: U64, rs: seq<Record>, i: nat)
    requires i < |rs|
    ensures Stream(epoch, rs)[9 * i..9 * i + 9] == RecordSectors(epoch, rs[i])
    decreases |rs|
  {
    var s := Stream(epoch, rs);
    if i > 0 {
      StreamAt(epoch, rs[1..], i - 1);
      assert s[9..] == Stream(epoch, rs[1..]);
      assert s[9 * i..9 * i + 9] == s[9..][9 * (i - 1)..9 * (i - 1) + 9];
    }
  }

  lemma {:induction false} StreamAppend(epoch: U64, a: seq<Record>, b: seq<Record>)
    ensures Stream(epoch, a + b) == Stream(epoch, a) + Stream(epoch, b)
    decreases |a|
  {
    if a == [] {
      assert a + b == b;
    } else {
      assert (a + b)[1..] == a[1..] + b;
      StreamAppend(epoch, a[1..], b);
    }
  }

  lemma RecordOnDisk(d: Image, slotBase: nat, epoch: U64, rs: seq<Record>, i: nat)
    requires Holds(d, slotBase + 1, Stream(epoch, rs)) && i < |rs|
    ensures Holds(d, slotBase + 1 + i * SECTORS_PER_RECORD, RecordSectors(epoch, rs[i]))
  {
    hide Stream, RecordSectors;
    var s, mine := Stream(epoch, rs), RecordSectors(epoch, rs[i]);
    StreamAt(epoch, rs, i);
    forall j | 0 <= j < 9 ensures Read(d, slotBase + 1 + i * 9 + j) == mine[j] {
      assert mine[j] == s[9 * i..9 * i + 9][j] == s[9 * i + j];
      assert Read(d, slotBase + 1 + (9 * i + j)) == s[9 * i + j];
    }
  }

  lemma RecordReadBack(d: Image, slotBase: nat, epoch: U64, rs: seq<Record>, i: nat)
    requires Holds(d, slotBase + 1, Stream(epoch, rs)) && i < |rs|
    ensures ReadRecord(d, slotBase, i) == rs[i]
  {
    hide MetaSector, Stream, Unpack, Pack, Size, Chop, Concat;
    var at := slotBase + 1 + i * 9;
    RecordOnDisk(d, slotBase, epoch, rs, i);
    assert Read(d, at + 0) == RecordSectors(epoch, rs[i])[0];
    MetaRoundTrip(epoch, rs[i]);
    forall j | 0 <= j < 8 ensures ReadRun(d, at + 1, 8)[j] == Chop(rs[i].data)[j] {
      assert Read(d, at + (1 + j)) == RecordSectors(epoch, rs[i])[1 + j];
    }
    assert ReadRun(d, at + 1, 8) == Chop(rs[i].data);
    ConcatChop(rs[i].data);
  }

  // ----- Main results -----

  /** A consistent disk loads as exactly the checkpoint it holds, record for record. */
  lemma DurableReadsBack(d: Image, g: Geometry, last: Option<Checkpoint>)
    requires g.Valid() && Durable(d, g, last)
    ensures ReadBack(d, g) == last
  {
    hide Load, Committed, ReadRecords;
    match last
    case None => NoSlotLoads(d, g, NO_SLOT, 0, 0);
    case Some(ck) =>
      var slot := if Committed(d, g, 0, ck) then 0 else 1;
      CommittedLoads(d, g, slot, ck);
      CommittedRecords(d, g, slot, ck);
  }

  /** A superblock that names neither slot holds no checkpoint. */
  lemma NoSlotLoads(d: Image, g: Geometry, slot: U32, epoch: U64, crc: U32)
    requires g.Valid() && slot > 1 && Read(d, g.base) == SuperSector(slot, epoch, crc, g.version)
    ensures Load(d, g) == NoCheckpoint
  {
    hide SuperSector, SuperValid, Unpack, SlotCrc;
    SuperRoundTrip(slot, epoch, crc, g.version);
  }

  lemma CommittedLoads(d: Image, g: Geometry, slot: nat, ck: Checkpoint)
    requires g.Valid() && Committed(d, g, slot, ck)
    ensures Load(d, g) == Loaded(g.Slot(slot), ck.epoch, |ck.records|)
  {
    hide SuperSector, HeaderSector, MetaSector, Stream, Crc, SuperValid, Unpack, Pack, Size, Concat;
    var crc := StreamCrc(ck.epoch, ck.records);
    SuperRoundTrip(slot, ck.epoch, crc, g.version);
    HeaderRoundTrip(ck.epoch, |ck.records|, crc);
    HoldsRun(d, g.Slot(slot) + 1, Stream(ck.epoch, ck.records));
  }

  lemma CommittedRecords(d: Image, g: Geometry, slot: nat, ck: Checkpoint)
    requires g.Valid() && Committed(d, g, slot, ck)
    ensures ReadRecords(d, g.Slot(slot), |ck.records|) == ck.records
  {
    hide SuperSector, HeaderSector, StreamCrc, Stream, ReadRecord;
    forall i | 0 <= i < |ck.records|
      ensures ReadRecords(d, g.Slot(slot), |ck.records|)[i] == ck.records[i]
    {
      RecordReadBack(d, g.Slot(slot), ck.epoch, ck.records, i);
    }
  }

  /** The first checkpoint goes to slot 0. */
  lemma EmptyInactive(d: Image, g: Geometry)
    requires g.Valid() && Durable(d, g, None)
    ensures InactiveSlot(d, g) == 0
  {
    hide SuperSector, SuperValid, Unpack;
    SuperRoundTrip(NO_SLOT, 0, 0, g.version);
  }

  lemma CommittedInactive(d: Image, g: Geometry, slot: nat, ck: Checkpoint)
    requires g.Valid() && Committed(d, g, slot, ck)
    ensures InactiveSlot(d, g) == 1 - slot
  {
    SuperRoundTrip(slot, ck.epoch, StreamCrc(ck.epoch, ck.records), g.version);
  }

  /** A slot never reaches the superblock or the other slot. */
  lemma SlotsApart(g: Geometry, slot: nat, n: nat, other: nat, m: nat)
    requires g.Valid() && slot <= 1 && other == 1 - slot
    requires n <= SECTORS_PER_RECORD * g.MaxRecords() && m <= SECTORS_PER_RECORD * g.MaxRecords()
    ensures g.base < g.Slot(slot) && g.base < g.Slot(other)
    ensures g.Slot(slot) + n < g.Slot(other) || g.Slot(other) + m < g.Slot(slot)
  {
    assert 9 * g.MaxRecords() <= g.slotSectors - 1;
    assert g.Slot(0) == g.base + 1 && g.Slot(1) == g.base + 1 + g.slotSectors;
  }

  /** Sectors an attempt can touch before its superblock write leave a committed checkpoint alone. */
  lemma CommittedFrame(d: Image, d': Image, g: Geometry, slot: nat, ck: Checkpoint, n: nat)
    requires g.Valid() && Committed(d, g, slot, ck) && n <= SECTORS_PER_RECORD * g.MaxRecords()
    requires forall at: nat :: at < g.Slot(1 - slot) || g.Slot(1 - slot) + n < at
                           ==> Read(d', at) == Read(d, at)
    ensures Committed(d', g, slot, ck)
  {
    hide SuperSector, HeaderSector, MetaSector, Stream, StreamCrc, Crc;
    SlotsApart(g, slot, 9 * |ck.records|, 1 - slot, n);
    var s := Stream(ck.epoch, ck.records);
    forall i | 0 <= i < |s| ensures Read(d', g.Slot(slot) + 1 + i) == s[i] {
      assert Read(d, g.Slot(slot) + 1 + i) == s[i];
    }
  }

  lemma DurableFrame(d: Image, d': Image, g: Geometry, last: Option<Checkpoint>, n: nat)
    requires g.Valid() && Durable(d, g, last) && n <= SECTORS_PER_RECORD * g.MaxRecords()
    requires forall at: nat :: at < g.Slot(InactiveSlot(d, g)) || g.Slot(InactiveSlot(d, g)) + n < at
                           ==> Read(d', at) == Read(d, at)
    ensures Durable(d', g, last)
  {
    match last
    case None =>
      SlotsApart(g, InactiveSlot(d, g), n, 1 - InactiveSlot(d, g), n);
    case Some(ck) =>
      var slot := if Committed(d, g, 0, ck) then 0 else 1;
      CommittedInactive(d, g, slot, ck);
      CommittedFrame(d, d', g, slot, ck, n);
  }

  lemma AttemptCommits(d: Image, g: Geometry, a: Attempt)
    requires g.Valid() && Commits(d, g, a)
    ensures Durable(Cut(d, CheckpointWrites(d, g, a.ck), a.cut), g, Some(a.ck))
  {
    hide SuperSector, HeaderSector, MetaSector, Stream, StreamCrc, Crc, InactiveSlot;
    hide SlotWrites, Apply, Cut, Holds, SlotBase, Read;
    var ck, slot := a.ck, InactiveSlot(d, g);
    var ws, crc := CheckpointWrites(d, g, ck), StreamCrc(ck.epoch, ck.records);
    CutFull(d, ws, a.cut);
    SlotsApart(g, slot, 0, 1 - slot, 0);
    CommitHolds(d, g.base, g.Slot(slot), Stream(ck.epoch, ck.records),
                HeaderSector(ck.epoch, |ck.records|, crc),
                SuperSector(slot, ck.epoch, crc, g.version));
    assert Committed(Cut(d, ws, a.cut), g, slot, ck);
  }

  /** Until the superblock write, an attempt touches only its slot. */
  lemma AttemptInSlot(d: Image, g: Geometry, a: Attempt, at: nat)
    requires g.Valid() && !Commits(d, g, a)
    requires at < g.Slot(InactiveSlot(d, g)) || g.Slot(InactiveSlot(d, g)) + SECTORS_PER_RECORD * g.MaxRecords() < at
    ensures Read(Cut(d, CheckpointWrites(d, g, a.ck), a.cut), at) == Read(d, at)
  {
    hide SuperSector, HeaderSector, MetaSector, Stream, StreamCrc, Crc, InactiveSlot;
    var slot, ws, n := InactiveSlot(d, g), CheckpointWrites(d, g, a.ck), SECTORS_PER_RECORD * g.MaxRecords();
    var k := if a.cut < |ws| then a.cut else |ws|;
    SlotsApart(g, slot, n, 1 - slot, n);
    assert Avoids(ws[..k], at);
    ReadUntouched(d, ws[..k], at);
  }

  /** Cut anywhere, an attempt either has committed or has not happened. */
  lemma CrashStep(d: Image, g: Geometry, last: Option<Checkpoint>, a: Attempt)
    requires g.Valid() && Durable(d, g, last)
    ensures Durable(Cut(d, CheckpointWrites(d, g, a.ck), a.cut), g,
                    if Commits(d, g, a) then Some(a.ck) else last)
  {
    hide Durable, Commits, CheckpointWrites, InactiveSlot, Cut;
    if Commits(d, g, a) {
      AttemptCommits(d, g, a);
    } else {
      var d', n := Cut(d, CheckpointWrites(d, g, a.ck), a.cut), SECTORS_PER_RECORD * g.MaxRecords();
      forall at: nat | at < g.Slot(InactiveSlot(d, g)) || g.Slot(InactiveSlot(d, g)) + n < at
        ensures Read(d', at) == Read(d, at)
      {
        AttemptInSlot(d, g, a, at);
      }
      DurableFrame(d, d', g, last, n);
    }
  }

  lemma {:induction false} AttemptsDurable(d: Image, g: Geometry, last: Option<Checkpoint>, runs: seq<Attempt>)
    requires g.Valid() && Durable(d, g, last)
    ensures Durable(RunAttempts(d, g, runs), g, LastCommitted(g, last, runs))
    decreases |runs|
  {
    if runs != [] {
      var a := runs[0];
      CrashStep(d, g, last, a);
      AttemptsDurable(Cut(d, CheckpointWrites(d, g, a.ck), a.cut), g,
                      if Commits(d, g, a) then Some(a.ck) else last, runs[1..]);
    }
  }

  /** Over any series of checkpoints, each cut off after any number of sector writes, a reload
      finds exactly the last one whose superblock write happened, with all its records in order. */
  lemma CrashSafety(d: Image, g: Geometry, runs: seq<Attempt>)
    requires g.Valid() && Durable(d, g, None)
    ensures ReadBack(RunAttempts(d, g, runs), g) == LastCommitted(g, None, runs)
  {
    AttemptsDurable(d, g, None, runs);
    DurableReadsBack(RunAttempts(d, g, runs), g, LastCommitted(g, None, runs));
  }

  // ----- Damaged disks -----

  /** The bytes of n records of a slot. */
  function SlotBytes(d: Image, slotBase: nat, n: nat): seq<Byte> {
    Concat(ReadRun(d, slotBase + 1, SECTORS_PER_RECORD * n))
  }

  /** With superblock and header as committed, a load comes down to the checksum of the records. */
  lemma LoadBySlot(d: Image, e: Image, g: Geometry, slot: nat, ck: Checkpoint)
    requires g.Valid() && Committed(d, g, slot, ck)
    requires Read(e, g.base) == Read(d, g.base) && Read(e, g.Slot(slot)) == Read(d, g.Slot(slot))
    ensures Load(e, g) == if Crc(0, SlotBytes(e, g.Slot(slot), |ck.records|)) == Crc(0, SlotBytes(d, g.Slot(slot), |ck.records|))
                          then Loaded(g.Slot(slot), ck.epoch, |ck.records|) else BadCrc
  {
    hide SuperSector, HeaderSector, MetaSector, Stream, Crc, SuperValid, Unpack, Pack, Size, Concat;
    var crc := StreamCrc(ck.epoch, ck.records);
    SuperRoundTrip(slot, ck.epoch, crc, g.version);
    HeaderRoundTrip(ck.epoch, |ck.records|, crc);
    HoldsRun(d, g.Slot(slot) + 1, Stream(ck.epoch, ck.records));
  }

  /** Damage within four adjacent bytes of a committed checkpoint's records is refused. */
  lemma DamagedRecordsRefused(d: Image, e: Image, g: Geometry, slot: nat, ck: Checkpoint, i: nat)
    requires g.Valid() && Committed(d, g, slot, ck)
    requires Read(e, g.base) == Read(d, g.base) && Read(e, g.Slot(slot)) == Read(d, g.Slot(slot))
    requires DamagedAt(SlotBytes(d, g.Slot(slot), |ck.records|), SlotBytes(e, g.Slot(slot), |ck.records|), i)
    ensures Load(e, g) == BadCrc
  {
    hide Load, Committed, SlotBytes, Crc, DamagedAt;
    LoadBySlot(d, e, g, slot, ck);
    DamageDetected(0, SlotBytes(d, g.Slot(slot), |ck.records|), SlotBytes(e, g.Slot(slot), |ck.records|), i);
  }

  /** A superblock and a slot that were written for different checkpoints, or by a store with larger
      slots: loaded exactly when epoch and checksum agree and the records fit. */
  lemma MixedSlot(d: Image, g: Geometry, slot: nat, epoch: U64, crc: U32, ck: Checkpoint)
    requires g.Valid() && slot <= 1 && |ck.records| < 0x1_0000_0000
    requires Read(d, g.base) == SuperSector(slot, epoch, crc, g.version)
    requires Read(d, g.Slot(slot)) == HeaderSector(ck.epoch, |ck.records|, StreamCrc(ck.epoch, ck.records))
    requires Holds(d, g.Slot(slot) + 1, Stream(ck.epoch, ck.records))
    ensures Load(d, g) == if ck.epoch != epoch then NoCheckpoint
                          else if StreamCrc(ck.epoch, ck.records) != crc || !FitsSlot(g, ck) then BadCrc
                          else Loaded(g.Slot(slot), epoch, |ck.records|)
  {
    hide SuperSector, HeaderSector, MetaSector, Stream, Crc, SuperValid, Unpack, Pack, Size, Concat;
    SuperRoundTrip(slot, epoch, crc, g.version);
    HeaderRoundTrip(ck.epoch, |ck.records|, StreamCrc(ck.epoch, ck.records));
    HoldsRun(d, g.Slot(slot) + 1, Stream(ck.epoch, ck.records));
  }

  /** A superblock of another format version holds no checkpoint. */
  lemma OtherFormatRefused(d: Image, g: Geometry)
    requires g.Valid() && UnLE(Read(d, g.base)[8..12]) != 1
    ensures Load(d, g) == NoCheckpoint
  {
    hide UnLE, Unpack, Offset;
    Sizes();
    Offsets();
    FieldAt(SUPER_WIDTHS, Read(d, g.base), 1);
  }

  /** A superblock is its first 32 bytes and their checksum. */
  lemma SuperSealed(sec: Sector)
    ensures SuperValid(sec) ==> Sealed(sec[..32], sec[32..36])
  {
  }

  /** So is damage within four adjacent bytes of the superblock, its own checksum included. */
  lemma DamagedSuperRefused(d: Image, e: Image, g: Geometry, last: Option<Checkpoint>, i: nat)
    requires g.Valid() && Durable(d, g, last) && DamagedAt(Read(d, g.base)[..36], Read(e, g.base)[..36], i)
    ensures Load(e, g) == NoCheckpoint
  {
    hide SuperSector, HeaderSector, StreamCrc, SuperValid, Sealed, Unpack, DamagedAt, SlotCrc, Stream;
    var a, b := Read(d, g.base), Read(e, g.base);
    DurableSuper(d, g, last);
    SuperSealed(a);
    SuperSealed(b);
    assert a[..36] == a[..32] + a[32..36] && b[..36] == b[..32] + b[32..36];
    SealDetects(a[..32], a[32..36], b[..32], b[32..36], i);
  }

  lemma DurableSuper(d: Image, g: Geometry, last: Option<Checkpoint>)
    requires g.Valid() && Durable(d, g, last)
    ensures SuperValid(Read(d, g.base))
  {
    hide SuperSector, HeaderSector, StreamCrc, SuperValid, Stream;
    match last
    case None => SuperRoundTrip(NO_SLOT, 0, 0, g.version);
    case Some(ck) =>
      SuperRoundTrip(0, ck.epoch, StreamCrc(ck.epoch, ck.records), g.version);
      SuperRoundTrip(1, ck.epoch, StreamCrc(ck.epoch, ck.records), g.version);
  }

  lemma HeaderFields(sec: Sector)
    ensures Size(HEADER_WIDTHS) == 40
    ensures var f := Unpack(HEADER_WIDTHS, sec);
            f[0] == UnLE(sec[..8]) && f[1] == UnLE(sec[8..16]) && f[2] == UnLE(sec[16..20]) && f[5] == UnLE(sec[32..36])
  {
    hide UnLE, Unpack;
    Sizes();
    assert HEADER_WIDTHS[1..] == [8, 4, 4, 8, 4, 4] && HEADER_WIDTHS[1..][1..] == [4, 4, 8, 4, 4];
    assert [4, 4, 8, 4, 4][1..] == [4, 8, 4, 4] && [4, 8, 4, 4][1..] == [8, 4, 4];
    assert Offset(HEADER_WIDTHS, 1) == 8 && Offset(HEADER_WIDTHS, 2) == 16;
    assert Offset([4, 4, 8, 4, 4], 3) == 16;
    assert Offset(HEADER_WIDTHS, 5) == 32;
    FieldAt(HEADER_WIDTHS, sec, 0);
    FieldAt(HEADER_WIDTHS, sec, 1);
    FieldAt(HEADER_WIDTHS, sec, 2);
    FieldAt(HEADER_WIDTHS, sec, 5);
    assert sec[0..8] == sec[..8];
  }

  lemma SameFields(a: Sector, b: Sector)
    ensures a[..16] == b[..16] && a[32..36] == b[32..36] <==>
              UnLE(a[..8]) == UnLE(b[..8]) && UnLE(a[8..16]) == UnLE(b[8..16]) && UnLE(a[32..36]) == UnLE(b[32..36])
  {
    hide UnLE;
    UnLESame(a[..8], b[..8]);
    UnLESame(a[8..16], b[8..16]);
    UnLESame(a[32..36], b[32..36]);
    assert a[..16] == a[..8] + a[8..16] && b[..16] == b[..8] + b[8..16];
    assert a[..8] == a[..16][..8] && a[8..16] == a[..16][8..] && b[..8] == b[..16][..8] && b[8..16] == b[..16][8..];
  }

  /** Any damage to a slot header that spares its record count: refused exactly when it touches
      the magic, the epoch or the checksum, and harmless otherwise. */
  lemma DamagedHeader(d: Image, e: Image, g: Geometry, slot: nat, ck: Checkpoint)
    requires g.Valid() && Committed(d, g, slot, ck)
    requires forall at :: at != g.Slot(slot) ==> Read(e, at) == Read(d, at)
    requires Read(e, g.Slot(slot))[16..20] == Read(d, g.Slot(slot))[16..20]
    ensures
      var a, b := Read(d, g.Slot(slot)), Read(e, g.Slot(slot));
      ReadBack(e, g) == if a[..16] == b[..16] && a[32..36] == b[32..36] then Some(ck) else None
  {
    hide Load, Committed, ReadRecords;
    LoadByHeader(d, e, g, slot, ck);
    CommittedRecords(d, g, slot, ck);
    SameRecords(d, e, g.Slot(slot), |ck.records|);
  }

  lemma LoadByHeader(d: Image, e: Image, g: Geometry, slot: nat, ck: Checkpoint)
    requires g.Valid() && Committed(d, g, slot, ck)
    requires forall at :: at != g.Slot(slot) ==> Read(e, at) == Read(d, at)
    requires Read(e, g.Slot(slot))[16..20] == Read(d, g.Slot(slot))[16..20]
    ensures
      var a, b := Read(d, g.Slot(slot)), Read(e, g.Slot(slot));
      if a[..16] == b[..16] && a[32..36] == b[32..36] then Load(e, g) == Loaded(g.Slot(slot), ck.epoch, |ck.records|)
      else !Load(e, g).Loaded?
  {
    hide SuperSector, HeaderSector, MetaSector, Stream, Crc, SuperValid, Unpack, Pack, Size, Concat, UnLE;
    var a, b, n := Read(d, g.Slot(slot)), Read(e, g.Slot(slot)), |ck.records|;
    var crc := StreamCrc(ck.epoch, ck.records);
    SuperRoundTrip(slot, ck.epoch, crc, g.version);
    HeaderRoundTrip(ck.epoch, n, crc);
    HoldsRun(d, g.Slot(slot) + 1, Stream(ck.epoch, ck.records));
    assert ReadRun(e, g.Slot(slot) + 1, 9 * n) == ReadRun(d, g.Slot(slot) + 1, 9 * n);
    HeaderFields(a);
    HeaderFields(b);
    SameFields(a, b);
  }

  lemma SameRecords(d: Image, e: Image, slotBase: nat, n: nat)
    requires forall at :: at != slotBase ==> Read(e, at) == Read(d, at)
    ensures ReadRecords(e, slotBase, n) == ReadRecords(d, slotBase, n)
  {
    forall i | 0 <= i < n ensures ReadRecord(e, slotBase, i) == ReadRecord(d, slotBase, i) {
      var at := slotBase + 1 + i * 9;
      assert ReadRun(e, at + 1, 8) == ReadRun(d, at + 1, 8);
    }
  }

  /** A store opened by another kernel build refuses what the disk holds. */
  lemma VersionGate(d: Image, g: Geometry, last: Option<Checkpoint>, version: U32)
    requires g.Valid() && Durable(d, g, last)
    ensures Load(d, g.(version := version)) == BadVersion <==> version != g.version
  {
    hide SuperSector, HeaderSector, MetaSector, Stream, StreamCrc, Crc, SuperValid, Unpack, Pack, Size, Concat, ReadRecord;
    match last
    case None => SuperRoundTrip(NO_SLOT, 0, 0, g.version);
    case Some(ck) =>
      var slot := if Committed(d, g, 0, ck) then 0 else 1;
      SuperRoundTrip(slot, ck.epoch, StreamCrc(ck.epoch, ck.records), g.version);
  }

  // ----- The writer -----

  datatype Code = Ok | ErrParam | ErrIo | ErrFull | ErrNoCheckpoint | ErrState

  /** The running checksum over one more record is the checksum of the longer stream. */
  lemma StreamCrcAppend(epoch: U64, rs: seq<Record>, r: Record)
    ensures Stream(epoch, rs + [r]) == Stream(epoch, rs) + RecordSectors(epoch, r)
    ensures StreamCrc(epoch, rs + [r])
         == Crc(Crc(StreamCrc(epoch, rs), MetaSector(epoch, r)), r.data)
  {
    hide MetaSector, Crc;
    StreamAppend(epoch, rs, [r]);
    assert [r][1..] == [];
    assert Stream(epoch, [r]) == RecordSectors(epoch, r);
    ConcatAppend(Stream(epoch, rs), RecordSectors(epoch, r));
    assert RecordSectors(epoch, r)[1..] == Chop(r.data);
    ConcatChop(r.data);
    CrcChains(StreamCrc(epoch, rs), MetaSector(epoch, r), r.data);
    CrcChains(0, Concat(Stream(epoch, rs)), MetaSector(epoch, r) + r.data);
  }

  class Writer {
    const dev: Device
    const g: Geometry
    const slot: nat
    const epoch: U64
    var recordCount: nat
    var pageCount: nat
    var crc: U32
    var active: bool
    ghost var records: seq<Record>

    ghost predicate Valid()
      reads this
    {
      && g.Valid() && slot <= 1
      && recordCount == pageCount == |records| <= g.MaxRecords()
      && crc == StreamCrc(epoch, records)
    }

    constructor Begin(dev: Device, g: Geometry, epoch: U64)
      requires g.Valid()
      ensures Valid() && active && records == []
      ensures this.dev == dev && this.g == g && this.epoch == epoch
      ensures slot == InactiveSlot(dev.disk, g)
    {
      this.dev := dev;
      this.g := g;
      this.epoch := epoch;
      slot := InactiveSlot(dev.disk, g);
      recordCount, pageCount, active := 0, 0, true;
      crc := 0;
      records := [];
      new;
      assert Feed(0xFFFF_FFFF, []) == 0xFFFF_FFFF;
    }

    method AddPage(r: Record) returns (rc: Code)
      requires Valid()
      modifies this, dev
      ensures Valid() && active == old(active)
      ensures rc == if !old(active) then ErrParam
                    else if old(recordCount) >= g.MaxRecords() then ErrFull
                    else if old(dev.budget) < SECTORS_PER_RECORD then ErrIo
                    else Ok
      ensures records == if rc == Ok then old(records) + [r] else old(records)
      ensures rc == ErrParam || rc == ErrFull ==> dev.disk == old(dev.disk) && dev.budget == old(dev.budget)
      ensures rc == Ok || rc == ErrIo ==>
                && dev.disk == Cut(old(dev.disk), Burst(g.Slot(slot) + 1 + 9 * |old(records)|,
                                                        RecordSectors(epoch, r)), old(dev.budget))
                && dev.budget == if rc == Ok then old(dev.budget) - 9 else 0
    {
      hide MetaSector, Stream, StreamCrc, Crc, RecordSectors, Chop;
      if !active {
        return ErrParam;
      }
      if recordCount >= g.MaxRecords() {
        return ErrFull;
      }
      var base := g.Slot(slot) + 1 + recordCount * SECTORS_PER_RECORD;
      var meta := MetaSector(epoch, r);
      ghost var d0, b0 := dev.disk, dev.budget;
      ghost var first, second := Burst(base, [meta]), Burst(base + 1, Chop(r.data));
      TwoBursts(base, epoch, r);
      CutAppend(d0, first, second, b0);
      var ok := dev.WriteSectors(base, [meta]);
      if !ok {
        return ErrIo;
      }
      CutFull(d0, first, b0);
      ok := dev.WriteSectors(base + 1, Chop(r.data));
      if !ok {
        return ErrIo;
      }
      StreamCrcAppend(epoch, records, r);
      crc := Crc32.Compute(crc, meta);
      crc := Crc32.Compute(crc, r.data);
      recordCount := recordCount + 1;
      pageCount := pageCount + 1;
      records := records + [r];
      rc := Ok;
    }

    method Commit() returns (rc: Code)
      requires Valid()
      modifies this, dev
      ensures rc == if !old(active) then ErrState else if old(dev.budget) < 2 then ErrIo else Ok
      ensures rc == ErrState ==> dev.disk == old(dev.disk) && dev.budget == old(dev.budget)
      ensures rc == Ok || rc == ErrIo ==>
                dev.disk == Cut(old(dev.disk),
                                [Write(g.Slot(slot), HeaderSector(epoch, |old(records)|, old(crc))),
                                 Write(g.base, SuperSector(slot, epoch, old(crc), g.version))],
                                old(dev.budget))
                && dev.budget == if rc == Ok then old(dev.budget) - 2 else 0
    {
      hide HeaderSector, SuperSector, StreamCrc;
      if !active {
        return ErrState;
      }
      var header := HeaderSector(epoch, recordCount, crc);
      var super := SuperSector(slot, epoch, crc, g.version);
      ghost var first, second := Burst(g.Slot(slot), [header]), Burst(g.base, [super]);
      assert first + second == [Write(g.Slot(slot), header), Write(g.base, super)];
      CutAppend(dev.disk, first, second, dev.budget);
      var ok := dev.WriteSectors(g.Slot(slot), [header]);
      if !ok {
        return ErrIo;
      }
      CutFull(old(dev.disk), first, old(dev.budget));
      ok := dev.WriteSectors(g.base, [super]);
      if !ok {
        return ErrIo;
      }
      active := false;
      rc := Ok;
    }
  }

  lemma TwoBursts(base: nat, epoch: U64, r: Record)
    ensures Burst(base, [MetaSector(epoch, r)]) + Burst(base + 1, Chop(r.data))
         == Burst(base, RecordSectors(epoch, r))
  {
    hide MetaSector, Chop;
    BurstAppend(base, [MetaSector(epoch, r)], Chop(r.data));
  }

  /** The write list of a checkpoint starts with the sectors of its first j records. */
  lemma WritesPrefix(d: Image, g: Geometry, ck: Checkpoint, j: nat)
    requires g.Valid() && j <= |ck.records| && j <= g.MaxRecords()
    ensures |CheckpointWrites(d, g, ck)| >= 9 * j
    ensures CheckpointWrites(d, g, ck)[..9 * j]
         == Burst(g.Slot(InactiveSlot(d, g)) + 1, Stream(ck.epoch, ck.records[..j]))
  {
    hide Stream, StreamCrc, HeaderSector, SuperSector, InactiveSlot;
    var at := g.Slot(InactiveSlot(d, g)) + 1;
    var rs := if FitsSlot(g, ck) then ck.records else ck.records[..g.MaxRecords()];
    assert rs == rs[..j] + rs[j..] && rs[..j] == ck.records[..j];
    StreamAppend(ck.epoch, rs[..j], rs[j..]);
    BurstAppend(at, Stream(ck.epoch, rs[..j]), Stream(ck.epoch, rs[j..]));
    var all := Burst(at, Stream(ck.epoch, rs));
    assert CheckpointWrites(d, g, ck)[..|all|] == all;
    assert CheckpointWrites(d, g, ck)[..9 * j] == all[..9 * j];
  }

  lemma CutByPrefix(d: Image, ws: seq<Write>, n: nat, budget: nat)
    requires budget <= n <= |ws|
    ensures Cut(d, ws, budget) == Cut(d, ws[..n], budget)
  {
    assert ws[..n][..budget] == ws[..budget];
  }

  /** Begin, add every record, commit: the loop checkpoint_writeback drives. */
  method WriteCheckpoint(dev: Device, g: Geometry, ck: Checkpoint) returns (rc: Code)
    requires g.Valid()
    modifies dev
    ensures dev.disk == Cut(old(dev.disk), CheckpointWrites(old(dev.disk), g, ck), old(dev.budget))
    ensures rc == Ok <==> Commits(old(dev.disk), g, Attempt(ck, old(dev.budget)))
    ensures rc == Ok ==> dev.budget == old(dev.budget) - |CheckpointWrites(old(dev.disk), g, ck)|
    ensures forall last :: Durable(old(dev.disk), g, last)
              ==> Durable(dev.disk, g, if rc == Ok then Some(ck) else last)
  {
    hide CheckpointWrites, Cut, Apply, Burst, Durable;
    hide Stream, StreamCrc, HeaderSector, SuperSector, InactiveSlot, RecordSectors, Crc;
    var w := new Writer.Begin(dev, g, ck.epoch);
    ghost var d0, b0 := dev.disk, dev.budget;
    ghost var ws := CheckpointWrites(d0, g, ck);
    ghost var at := g.Slot(w.slot) + 1;
    forall last | Durable(d0, g, last)
      ensures Durable(Cut(d0, ws, b0), g, if Commits(d0, g, Attempt(ck, b0)) then Some(ck) else last)
    {
      CrashStep(d0, g, last, Attempt(ck, b0));
    }
    StreamNil(d0, at, ck.epoch);
    for i := 0 to |ck.records|
      invariant w.Valid() && w.active && w.records == ck.records[..i] && fresh(w)
      invariant dev.budget == b0 - 9 * i
      invariant dev.disk == Apply(d0, Burst(at, Stream(ck.epoch, ck.records[..i])))
    {
      rc := w.AddPage(ck.records[i]);
      if rc == ErrFull {
        FullStops(d0, g, ck, b0);
        return;
      }
      WritesPrefix(d0, g, ck, i + 1);
      AddStep(d0, at, ck, i, b0);
      if rc != Ok {
        CutByPrefix(d0, ws, 9 * (i + 1), b0);
        return;
      }
      CutFull(d0, Burst(at, Stream(ck.epoch, ck.records[..i + 1])), b0);
    }
    assert ck.records[..|ck.records|] == ck.records;
    CommitTail(d0, g, ck, b0);
    rc := w.Commit();
  }

  lemma FullStops(d: Image, g: Geometry, ck: Checkpoint, budget: nat)
    requires g.Valid() && !FitsSlot(g, ck) && budget >= 9 * g.MaxRecords()
    ensures Cut(d, CheckpointWrites(d, g, ck), budget)
         == Apply(d, Burst(g.Slot(InactiveSlot(d, g)) + 1, Stream(ck.epoch, ck.records[..g.MaxRecords()])))
  {
    hide Stream, InactiveSlot;
    CutFull(d, CheckpointWrites(d, g, ck), budget);
  }

  /** With all records down, what is left of the job is the header and the superblock. */
  lemma CommitTail(d: Image, g: Geometry, ck: Checkpoint, budget: nat)
    requires g.Valid() && FitsSlot(g, ck) && budget >= 9 * |ck.records|
    ensures |CheckpointWrites(d, g, ck)| == 9 * |ck.records| + 2
    ensures
      var slot, crc := InactiveSlot(d, g), StreamCrc(ck.epoch, ck.records);
      Cut(d, CheckpointWrites(d, g, ck), budget)
         == Cut(Apply(d, Burst(g.Slot(slot) + 1, Stream(ck.epoch, ck.records))),
                [Write(g.Slot(slot), HeaderSector(ck.epoch, |ck.records|, crc)),
                 Write(g.base, SuperSector(slot, ck.epoch, crc, g.version))],
                budget - 9 * |ck.records|)
  {
    hide Stream, StreamCrc, HeaderSector, SuperSector, InactiveSlot;
    var slot, crc := InactiveSlot(d, g), StreamCrc(ck.epoch, ck.records);
    CutAppend(d, Burst(g.Slot(slot) + 1, Stream(ck.epoch, ck.records)),
              [Write(g.Slot(slot), HeaderSector(ck.epoch, |ck.records|, crc)),
               Write(g.base, SuperSector(slot, ck.epoch, crc, g.version))], budget);
  }

  lemma StreamNil(d: Image, at: nat, epoch: U64)
    ensures Apply(d, Burst(at, Stream(epoch, []))) == d
  {
  }

  /** One more record, cut or not, continues the burst. */
  lemma AddStep(d: Image, at: nat, ck: Checkpoint, i: nat, budget: nat)
    requires i < |ck.records| && budget >= 9 * i
    ensures Cut(Apply(d, Burst(at, Stream(ck.epoch, ck.records[..i]))),
                Burst(at + 9 * i, RecordSectors(ck.epoch, ck.records[i])), budget - 9 * i)
         == Cut(d, Burst(at, Stream(ck.epoch, ck.records[..i + 1])), budget)
  {
    hide Stream, StreamCrc, RecordSectors, Crc;
    assert ck.records[..i + 1] == ck.records[..i] + [ck.records[i]];
    StreamCrcAppend(ck.epoch, ck.records[..i], ck.records[i]);
    var a, b := Stream(ck.epoch, ck.records[..i]), RecordSectors(ck.epoch, ck.records[i]);
    BurstAppend(at, a, b);
    CutAppend(d, Burst(at, a), Burst(at + 9 * i, b), budget);
  }

  // ----- The reader -----

  /** The validation loop over a slot's records. */
  method ValidateSlot(dev: Device, slotBase: nat, count: nat, expected: U32) returns (ok: bool)
    ensures ok <==> SlotCrc(dev.disk, slotBase, count) == expected
  {
    hide Crc;
    var crc: U32 := 0;
    assert Crc(0, []) == 0 by { CrcOfNothing(); }
    for i := 0 to count
      invariant crc == SlotCrc(dev.disk, slotBase, i)
    {
      var at := slotBase + 1 + i * SECTORS_PER_RECORD;
      var meta, page := Read(dev.disk, at), Concat(ReadRun(dev.disk, at + 1, 8));
      SlotCrcStep(dev.disk, slotBase, i);
      crc := Crc32.Compute(crc, meta);
      crc := Crc32.Compute(crc, page);
    }
    ok := crc == expected;
  }

  lemma SlotCrcStep(d: Image, slotBase: nat, i: nat)
    ensures SlotCrc(d, slotBase, i + 1)
         == Crc(Crc(SlotCrc(d, slotBase, i), Read(d, slotBase + 1 + i * 9)),
                Concat(ReadRun(d, slotBase + 2 + i * 9, 8)))
  {
    hide Crc;
    var at := slotBase + 1 + i * 9;
    var done, page := ReadRun(d, slotBase + 1, 9 * i), ReadRun(d, at + 1, 8);
    assert ReadRun(d, slotBase + 1, 9 * (i + 1)) == done + ([Read(d, at)] + page);
    ConcatAppend(done, [Read(d, at)] + page);
    assert ([Read(d, at)] + page)[1..] == page;
    CrcChains(SlotCrc(d, slotBase, i), Read(d, at), Concat(page));
    CrcChains(0, Concat(done), Read(d, at) + Concat(page));
  }

  /** snapshot_store_load. */
  method LoadCheckpoint(dev: Device, g: Geometry) returns (r: LoadResult)
    requires g.Valid()
    ensures r == Load(dev.disk, g)
  {
    hide SlotCrc, SuperValid, Unpack;
    Sizes();
    FieldWidths();
    var sec := Read(dev.disk, g.base);
    if !SuperValid(sec) {
      return NoCheckpoint;
    }
    var sb := Unpack(SUPER_WIDTHS, sec);
    if sb[5] != g.version {
      return BadVersion;
    }
    if sb[2] > 1 {
      return NoCheckpoint;
    }
    var slotBase := g.Slot(sb[2]);
    var sh := Unpack(HEADER_WIDTHS, Read(dev.disk, slotBase));
    if sh[0] != SLOT_MAGIC || sh[1] != sb[3] {
      return NoCheckpoint;
    }
    if sh[5] != sb[4] || sh[2] > g.MaxRecords() {
      return BadCrc;
    }
    var ok := ValidateSlot(dev, slotBase, sh[2], sh[5]);
    r := if ok then Loaded(slotBase, sh[1], sh[2]) else BadCrc;
  }

  /** An open checkpoint; Next yields its records in order and then reports exhaustion. */
  class Reader {
    const dev: Device
    const slotBase: nat
    const epoch: U64
    const recordCount: nat
    var nextIndex: nat

    constructor Open(dev: Device, loaded: LoadResult)
      requires loaded.Loaded?
      ensures this.dev == dev && slotBase == loaded.slotBase && epoch == loaded.epoch
      ensures recordCount == loaded.count && nextIndex == 0
    {
      this.dev := dev;
      slotBase, epoch, recordCount := loaded.slotBase, loaded.epoch, loaded.count;
      nextIndex := 0;
    }

    method Next() returns (rc: Code, out: Option<Record>)
      modifies this
      ensures rc == if old(nextIndex) < recordCount then Ok else ErrNoCheckpoint
      ensures rc == Ok ==>
                out == Some(ReadRecord(dev.disk, slotBase, old(nextIndex))) && nextIndex == old(nextIndex) + 1
      ensures rc != Ok ==> out == None && nextIndex == old(nextIndex)
    {
      if nextIndex >= recordCount {
        return ErrNoCheckpoint, None;
      }
      out := Some(ReadRecord(dev.disk, slotBase, nextIndex));
      nextIndex := nextIndex + 1;
      rc := Ok;
    }
  }

  /** The restore loop: load, then every record until the reader is exhausted. */
  method ReadCheckpoint(dev: Device, g: Geometry) returns (found: Option<Checkpoint>)
    requires g.Valid()
    ensures found == ReadBack(dev.disk, g)
    ensures forall last :: Durable(dev.disk, g, last) ==> found == last
  {
    hide Load, ReadRecord, Durable;
    forall last | Durable(dev.disk, g, last) ensures ReadBack(dev.disk, g) == last {
      DurableReadsBack(dev.disk, g, last);
    }
    var loaded := LoadCheckpoint(dev, g);
    if !loaded.Loaded? {
      return None;
    }
    var reader := new Reader.Open(dev, loaded);
    var records := [];
    while true
      invariant fresh(reader) && reader.nextIndex == |records| <= reader.recordCount
      invariant records == ReadRecords(dev.disk, loaded.slotBase, |records|)
      decreases reader.recordCount - reader.nextIndex
    {
      var rc, out := reader.Next();
      if rc != Ok {
        break;
      }
      records := records + [out.value];
    }
    found := Some(Checkpoint(loaded.epoch, records));
  }

  // ----- snapshot_store_init -----

  /** The test snapshot_store_init applies; `needed` is a 32-bit sum. */
  predicate InitAccepts(base: U32, slotSectors: U32, sectorSize: nat, totalSectors: nat) {
    && slotSectors >= 1 + SECTORS_PER_RECORD && sectorSize == SECTOR_SIZE
    && base + (1 + 2 * slotSectors) % 0x1_0000_0000 <= totalSectors
  }

  /** A store is accepted on exactly the devices it fits, for every base and device size, exactly
      when the slot size is below 2^31: from there on the 32-bit sum wraps. A slot too short for one
      record and another sector size are never accepted. */
  lemma InitFits(slotSectors: U32)
    ensures slotSectors >= 10 ==>
              (slotSectors < 0x8000_0000 <==>
               forall base: U32, total: nat :: InitAccepts(base, slotSectors, 512, total)
                 <==> base + 1 + 2 * slotSectors <= total)
    ensures forall base: U32, size: nat, total: nat :: slotSectors < 10 || size != 512
              ==> !InitAccepts(base, slotSectors, size, total)
  {
    if slotSectors >= 0x8000_0000 {
      assert InitAccepts(0, slotSectors, 512, 1 + 2 * slotSectors - 0x1_0000_0000);
    }
  }

  /** An empty store: the start every series of checkpoints begins from. */
  method FormatStore(dev: Device, g: Geometry) returns (ok: bool)
    requires g.Valid()
    modifies dev
    ensures ok <==> old(dev.budget) > 0
    ensures ok ==> Durable(dev.disk, g, None)
  {
    hide SuperSector;
    var empty := SuperSector(NO_SLOT, 0, 0, g.version);
    ok := dev.WriteSectors(g.base, [empty]);
    if ok {
      CutFull(old(dev.disk), Burst(g.base, [empty]), old(dev.budget));
      BurstHolds(old(dev.disk), g.base, [empty]);
      assert Read(dev.disk, g.base + 0) == [empty][0];
    }
  }
}
