/** Re-attaching the disk after a power cut: is this the disk the checkpoints were written on? */
module DiskReattach {
  import opened Bytes
  import opened Disk
  import opened SnapshotStore

  datatype Outcome = Attached | NoReader | ProbeFailed | ReadFailed | WrongMagic

  /** What the drive's operations do: whether there is a re-probe and if so its result, and what
      reading a sector gives, if it can be read. */
  datatype Drive = Drive(hasReader: bool, probe: Option<bool>, readable: bool, disk: Image)

  lemma UnLEStep(s: seq<Byte>, i: nat)
    requires i < |s|
    ensures UnLE(s[i..]) == s[i] + 256 * UnLE(s[i + 1..])
  {
    assert s[i..][1..] == s[i + 1..];
  }

  const WORD64: nat := 0x1_0000_0000_0000_0000

  lemma PowGrows(w: nat)
    requires w <= 7
    ensures 256 * Pow256(w) <= WORD64
    decreases 7 - w
  {
    FieldWidths();
    if w < 7 {
      PowGrows(w + 1);
    }
  }

  /** The shifting loop, from the eighth byte down, computes the little-endian value of the first
      eight; no shift loses a bit. */
  method ReadMagic(s: Sector) returns (m: U64)
    ensures m == UnLE(s[..8])
  {
    FieldWidths();
    var b := s[..8];
    var i := 8;
    m := 0;
    while i > 0
      invariant 0 <= i <= 8 && m == UnLE(b[i..])
    {
      i := i - 1;
      UnLEStep(b, i);
      PowGrows(7 - i);
      m := m * 256 % WORD64 + s[i];
    }
    assert b[0..] == b;
  }

  method Reattach(drive: Drive, base: nat) returns (code: Outcome)
    ensures code == NoReader <==> !drive.hasReader
    ensures code == ProbeFailed <==> drive.hasReader && drive.probe == Some(false)
    ensures code == ReadFailed <==> drive.hasReader && drive.probe != Some(false) && !drive.readable
    ensures code == Attached <==> drive.hasReader && drive.probe != Some(false) && drive.readable &&
                                  UnLE(Read(drive.disk, base)[..8]) == 0x494B_4F53_534E_4250
  {
    if !drive.hasReader {
      return NoReader;
    }
    if drive.probe == Some(false) {
      return ProbeFailed;
    }
    if !drive.readable {
      return ReadFailed;
    }
    var m := ReadMagic(Read(drive.disk, base));
    code := if m == SB_MAGIC then Attached else WrongMagic;
  }

  predicate CarriesStore(d: Image, base: nat) {
    UnLE(Read(d, base)[..8]) == SB_MAGIC
  }

  lemma SuperCarries(slot: U32, epoch: U64, crc: U32, version: U32)
    ensures UnLE(SuperSector(slot, epoch, crc, version)[..8]) == SB_MAGIC
  {
    hide Pack, SuperBody, SuperSector, SuperValid;
    SuperRoundTrip(slot, epoch, crc, version);
    assert Unpack(SUPER_WIDTHS, SuperSector(slot, epoch, crc, version))[0] == SB_MAGIC;
  }

  /** No disk with a checkpoint on it is turned away. */
  lemma RefusedHoldsNothing(d: Image, g: Geometry)
    requires g.Valid() && UnLE(Read(d, g.base)[..8]) != 0x494B_4F53_534E_4250
    ensures Load(d, g) == NoCheckpoint
  {
    hide UnLE, Unpack;
    Sizes();
    FieldAt(SUPER_WIDTHS, Read(d, g.base), 0);
    assert Read(d, g.base)[0..8] == Read(d, g.base)[..8];
  }

  /** Every disk a formatted store can become, through any checkpoints, each finished or cut off
      anywhere, is recognised. */
  lemma StoreRecognised(d: Image, g: Geometry, runs: seq<Attempt>)
    requires g.Valid() && Durable(d, g, None)
    ensures CarriesStore(RunAttempts(d, g, runs), g.base)
  {
    hide SuperSector, HeaderSector, Stream, StreamCrc, UnLE, RunAttempts, LastCommitted;
    AttemptsDurable(d, g, None, runs);
    match LastCommitted(g, None, runs)
    case None => SuperCarries(NO_SLOT, 0, 0, g.version);
    case Some(ck) =>
      SuperCarries(0, ck.epoch, StreamCrc(ck.epoch, ck.records), g.version);
      SuperCarries(1, ck.epoch, StreamCrc(ck.epoch, ck.records), g.version);
  }
}
