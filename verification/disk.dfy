/** A block device as its sectors, and an execution as a list of atomic sector writes that may
    stop anywhere. */
module Disk {
  import opened Bytes

  const SECTOR_SIZE: nat := 512

  type Sector = s: seq<Byte> | |s| == 512 witness Zeros(512)

  /** Sectors never written read as zeros. */
  type Image = map<nat, Sector>

  datatype Write = Write(at: nat, data: Sector)

  function Read(d: Image, at: nat): Sector {
    if at in d then d[at] else Zeros(512)
  }

  function ReadRun(d: Image, at: nat, n: nat): (secs: seq<Sector>)
    ensures |secs| == n
  {
    seq<Sector>(n, i requires 0 <= i < n => Read(d, at + i))
  }

  function Apply(d: Image, ws: seq<Write>): Image
    decreases |ws|
  {
    if ws == [] then d else Apply(d[ws[0].at := ws[0].data], ws[1..])
  }

  /** Consecutive sectors written in ascending order. */
  function Burst(at: nat, secs: seq<Sector>): (ws: seq<Write>)
    ensures |ws| == |secs|
    ensures forall i :: 0 <= i < |secs| ==> ws[i] == Write(at + i, secs[i])
  {
    seq(|secs|, i requires 0 <= i < |secs| => Write(at + i, secs[i]))
  }

  /** What reaches the disk when only `budget` more sector writes succeed. */
  function Cut(d: Image, ws: seq<Write>, budget: nat): Image {
    Apply(d, ws[..if budget < |ws| then budget else |ws|])
  }

  ghost predicate Holds(d: Image, at: nat, secs: seq<Sector>) {
    forall i :: 0 <= i < |secs| ==> Read(d, at + i) == secs[i]
  }

  ghost predicate Avoids(ws: seq<Write>, at: nat) {
    forall i :: 0 <= i < |ws| ==> ws[i].at != at
  }

  lemma {:induction false} ApplyAppend(d: Image, a: seq<Write>, b: seq<Write>)
    ensures Apply(d, a + b) == Apply(Apply(d, a), b)
    decreases |a|
  {
    if a == [] {
      assert a + b == b;
    } else {
      assert (a + b)[1..] == a[1..] + b;
      ApplyAppend(d[a[0].at := a[0].data], a[1..], b);
    }
  }

  lemma {:induction false} ReadUntouched(d: Image, ws: seq<Write>, at: nat)
    requires Avoids(ws, at)
    ensures Read(Apply(d, ws), at) == Read(d, at)
    decreases |ws|
  {
    if ws != [] {
      assert Avoids(ws[1..], at);
      ReadUntouched(d[ws[0].at := ws[0].data], ws[1..], at);
    }
  }

  /** The last write to a sector is what it reads. */
  lemma ReadWritten(d: Image, ws: seq<Write>, i: nat)
    requires i < |ws| && Avoids(ws[i + 1..], ws[i].at)
    ensures Read(Apply(d, ws), ws[i].at) == ws[i].data
  {
    assert ws == ws[..i] + ([ws[i]] + ws[i + 1..]);
    ApplyAppend(d, ws[..i], [ws[i]] + ws[i + 1..]);
    var e := Apply(d, ws[..i]);
    ApplyAppend(e, [ws[i]], ws[i + 1..]);
    assert Apply(e, [ws[i]]) == e[ws[i].at := ws[i].data];
    ReadUntouched(Apply(e, [ws[i]]), ws[i + 1..], ws[i].at);
  }

  lemma BurstHolds(d: Image, at: nat, secs: seq<Sector>)
    ensures Holds(Apply(d, Burst(at, secs)), at, secs)
  {
    var ws := Burst(at, secs);
    forall i | 0 <= i < |secs| ensures Read(Apply(d, ws), at + i) == secs[i] {
      ReadWritten(d, ws, i);
    }
  }

  lemma BurstAppend(at: nat, a: seq<Sector>, b: seq<Sector>)
    ensures Burst(at, a + b) == Burst(at, a) + Burst(at + |a|, b)
  {
  }

  lemma CutFull(d: Image, ws: seq<Write>, budget: nat)
    requires budget >= |ws|
    ensures Cut(d, ws, budget) == Apply(d, ws)
  {
    assert ws[..|ws|] == ws;
  }

  lemma CutEmpty(d: Image, ws: seq<Write>)
    ensures Cut(d, ws, 0) == d
  {
    assert ws[..0] == [];
  }

  /** Two jobs in a row are cut as one job. */
  lemma CutAppend(d: Image, a: seq<Write>, b: seq<Write>, budget: nat)
    ensures budget <= |a| ==> Cut(d, a + b, budget) == Cut(d, a, budget)
    ensures budget >= |a| ==> Cut(d, a + b, budget) == Cut(Apply(d, a), b, budget - |a|)
  {
    if budget < |a| {
      assert (a + b)[..budget] == a[..budget];
    } else {
      var k := if budget - |a| < |b| then budget - |a| else |b|;
      var n := if budget < |a + b| then budget else |a + b|;
      assert n == |a| + k;
      assert (a + b)[..n] == a + b[..k];
      ApplyAppend(d, a, b[..k]);
      if budget == |a| {
        assert a + b[..0] == a == a[..|a|];
      }
    }
  }

  /** A burst cut off anywhere, sector by sector. */
  lemma BurstCut(d: Image, at: nat, secs: seq<Sector>, budget: nat, i: nat)
    requires i < |secs|
    ensures Read(Cut(d, Burst(at, secs), budget), at + i) == if i < budget then secs[i] else Read(d, at + i)
  {
    var ws := Burst(at, secs);
    var k := if budget < |ws| then budget else |ws|;
    if i < budget {
      ReadWritten(d, ws[..k], i);
    } else {
      ReadUntouched(d, ws[..k], at + i);
    }
  }

  lemma HoldsRun(d: Image, at: nat, secs: seq<Sector>)
    requires Holds(d, at, secs)
    ensures ReadRun(d, at, |secs|) == secs
  {
  }

  /** A buffer of whole sectors, cut into them. */
  function Chop(s: seq<Byte>): (secs: seq<Sector>)
    requires |s| % 512 == 0
    ensures |secs| == |s| / 512
    decreases |s|
  {
    if s == [] then [] else [s[..512]] + Chop(s[512..])
  }

  lemma {:induction false} ChopAt(s: seq<Byte>, k: nat)
    requires |s| % 512 == 0 && k < |s| / 512
    ensures Chop(s)[k] == s[512 * k..512 * k + 512]
    decreases k
  {
    if k > 0 {
      ChopAt(s[512..], k - 1);
      assert s[512..][512 * (k - 1)..512 * (k - 1) + 512] == s[512 * k..512 * k + 512];
    }
  }

  lemma {:induction false} ConcatChop(s: seq<Byte>)
    requires |s| % 512 == 0
    ensures Concat(Chop(s)) == s
    decreases |s|
  {
    if s != [] {
      ConcatChop(s[512..]);
      assert Chop(s)[1..] == Chop(s[512..]);
    }
  }

  lemma {:induction false} ConcatSectors(secs: seq<Sector>)
    ensures |Concat(secs)| == 512 * |secs|
    decreases |secs|
  {
    if secs != [] {
      ConcatSectors(secs[1..]);
    }
  }

  /** The device the stores write to. The power fails, or the drive starts to refuse writes,
      once `budget` further sectors have been written. */
  class Device {
    var disk: Image
    var budget: nat

    constructor (disk: Image, budget: nat)
      ensures this.disk == disk && this.budget == budget
    {
      this.disk := disk;
      this.budget := budget;
    }

    method WriteSectors(at: nat, secs: seq<Sector>) returns (ok: bool)
      modifies this
      ensures disk == Cut(old(disk), Burst(at, secs), old(budget))
      ensures ok <==> |secs| <= old(budget)
      ensures budget == if ok then old(budget) - |secs| else 0
    {
      ghost var ws := Burst(at, secs);
      var i := 0;
      while i < |secs| && budget > 0
        invariant i <= |secs| && i + budget == old(budget)
        invariant disk == Apply(old(disk), ws[..i])
      {
        assert ws[..i + 1] == ws[..i] + [ws[i]];
        ApplyAppend(old(disk), ws[..i], [ws[i]]);
        disk := disk[at + i := secs[i]];
        budget := budget - 1;
        i := i + 1;
      }
      ok := i == |secs|;
    }
  }
}

/** The double-buffered commit the snapshot store and the journal share: payload sectors and a
    header into one slot, then the superblock. */
module TwoSlot {
  import opened Disk

  function SlotBase(base: nat, slotSectors: nat, slot: nat): nat {
    base + 1 + slot * slotSectors
  }

  function SlotWrites(base: nat, slotBase: nat, payload: seq<Sector>, header: Sector, super: Sector)
    : (ws: seq<Write>)
    ensures |ws| == |payload| + 2
  {
    Burst(slotBase + 1, payload) + [Write(slotBase, header), Write(base, super)]
  }

  lemma SlotWritesSplit(base: nat, slotBase: nat, a: seq<Sector>, b: seq<Sector>, header: Sector, super: Sector)
    ensures SlotWrites(base, slotBase, a + b, header, super)
         == Burst(slotBase + 1, a)
            + (Burst(slotBase + 1 + |a|, b) + [Write(slotBase, header), Write(base, super)])
  {
    BurstAppend(slotBase + 1, a, b);
  }

  /** After the superblock write the slot holds the new image and the rest is as it was. */
  lemma CommitHolds(d: Image, base: nat, slotBase: nat, payload: seq<Sector>, header: Sector, super: Sector)
    requires base < slotBase
    ensures var d' := Apply(d, SlotWrites(base, slotBase, payload, header, super));
            && Read(d', base) == super && Read(d', slotBase) == header
            && Holds(d', slotBase + 1, payload)
            && forall at: nat :: at != base && (at < slotBase || slotBase + |payload| < at)
                 ==> Read(d', at) == Read(d, at)
  {
    var ws := SlotWrites(base, slotBase, payload, header, super);
    var d' := Apply(d, ws);
    ReadWritten(d, ws, |payload| + 1);
    ReadWritten(d, ws, |payload|);
    forall i | 0 <= i < |payload| ensures Read(d', slotBase + 1 + i) == payload[i] {
      ReadWritten(d, ws, i);
    }
    forall at: nat | at != base && (at < slotBase || slotBase + |payload| < at)
      ensures Read(d', at) == Read(d, at)
    {
      ReadUntouched(d, ws, at);
    }
  }
}
