/** The process table as a checkpoint blob: written, read back, and checked for dangling links. */
module ProcTable {
  import opened Bytes
  import opened Rows

  const MAGIC: U64 := 0x494B50524F435431
  const VERSION: U32 := 1
  const MAX: nat := 256
  const HEADER_WIDTHS: seq<nat> := [8, 4, 4]
  const PROC_WIDTHS: seq<nat> := [4, 4, 4, 4, 8, 4, 4, 1, 3, 4]
  const HEADER_SIZE: nat := 16
  const PROC_SIZE: nat := 40

  datatype Proc = Proc(pid: U32, ppid: U32, state: U32, priority: U32, alarmTime: U64, firstChild: U32,
                       nextSibling: U32, onReadyQueue: Byte, reserved: U24, readyOrder: U32)

  lemma Sizes()
    ensures Size(HEADER_WIDTHS) == HEADER_SIZE && Size(PROC_WIDTHS) == PROC_SIZE
  {
    assert Size([3, 4]) == 7;
    assert [1, 3, 4][1..] == [3, 4];
    assert [4, 1, 3, 4][1..] == [1, 3, 4];
    assert [4, 4, 1, 3, 4][1..] == [4, 1, 3, 4];
    assert PROC_WIDTHS[4..][1..] == [4, 4, 1, 3, 4];
    assert PROC_WIDTHS[3..][1..] == PROC_WIDTHS[4..];
    assert PROC_WIDTHS[2..][1..] == PROC_WIDTHS[3..];
    assert PROC_WIDTHS[1..][1..] == PROC_WIDTHS[2..];
  }

  function Fields(p: Proc): seq<nat> {
    [p.pid, p.ppid, p.state, p.priority, p.alarmTime, p.firstChild, p.nextSibling, p.onReadyQueue, p.reserved, p.readyOrder]
  }

  function PackProc(p: Proc): seq<Byte> {
    Pack(Fields(p), PROC_WIDTHS)
  }

  lemma FieldBounds(v: seq<nat>)
    requires Fits(v, PROC_WIDTHS)
    ensures v[0] < 0x1_0000_0000 && v[1] < 0x1_0000_0000 && v[2] < 0x1_0000_0000 && v[3] < 0x1_0000_0000
    ensures v[4] < 0x1_0000_0000_0000_0000 && v[5] < 0x1_0000_0000 && v[6] < 0x1_0000_0000
    ensures v[7] < 0x100 && v[8] < 0x100_0000 && v[9] < 0x1_0000_0000
  {
    hide Pow256;
    FieldWidths();
    assert forall i :: 0 <= i < 10 ==> v[i] < Pow256(PROC_WIDTHS[i]);
  }

  function UnpackProc(s: seq<Byte>): Proc
    requires |s| == PROC_SIZE
  {
    Sizes();
    var v := Unpack(PROC_WIDTHS, s);
    FieldBounds(v);
    Proc(v[0], v[1], v[2], v[3], v[4], v[5], v[6], v[7], v[8], v[9])
  }

  lemma ProcInverse()
    ensures Inverse(PackProc, UnpackProc, PROC_SIZE)
  {
    forall p: Proc ensures |PackProc(p)| == PROC_SIZE && UnpackProc(PackProc(p)) == p {
      PackedProc(p);
    }
    forall s: seq<Byte> | |s| == PROC_SIZE ensures PackProc(UnpackProc(s)) == s {
      UnpackedProc(s);
    }
  }

  lemma PackedProc(p: Proc)
    ensures |PackProc(p)| == PROC_SIZE && UnpackProc(PackProc(p)) == p
  {
    hide Pack, Unpack, Size, Pow256;
    Sizes();
    FieldWidths();
    UnpackPack(Fields(p), PROC_WIDTHS, []);
    assert PackProc(p) + [] == PackProc(p);
  }

  lemma UnpackedProc(s: seq<Byte>)
    requires |s| == PROC_SIZE
    ensures PackProc(UnpackProc(s)) == s
  {
    hide Pack, Unpack, Size, Pow256;
    Sizes();
    var v := Unpack(PROC_WIDTHS, s);
    PackUnpack(PROC_WIDTHS, s);
    assert Fields(UnpackProc(s)) == v;
    assert s[..PROC_SIZE] == s;
  }

  lemma Offsets()
    ensures Offset(PROC_WIDTHS, 0) == 0 && Offset(PROC_WIDTHS, 1) == 4 && Offset(PROC_WIDTHS, 2) == 8
    ensures Offset(PROC_WIDTHS, 3) == 12 && Offset(PROC_WIDTHS, 4) == 16 && Offset(PROC_WIDTHS, 5) == 24
    ensures Offset(PROC_WIDTHS, 6) == 28 && Offset(PROC_WIDTHS, 7) == 32 && Offset(PROC_WIDTHS, 8) == 33
    ensures Offset(PROC_WIDTHS, 9) == 36
  {
    var w := PROC_WIDTHS;
    hide Offset;
    OffsetNext(w, 0);
    OffsetNext(w, 1);
    OffsetNext(w, 2);
    OffsetNext(w, 3);
    OffsetNext(w, 4);
    OffsetNext(w, 5);
    OffsetNext(w, 6);
    OffsetNext(w, 7);
    OffsetNext(w, 8);
    OffsetStart(w);
  }

  /** A process record field by field. */
  lemma ProcOnDisk(p: Proc)
    ensures
      var s := PackProc(p);
      && |s| == 40 && s[0..4] == LE(p.pid, 4) && s[4..8] == LE(p.ppid, 4) && s[8..12] == LE(p.state, 4)
      && s[12..16] == LE(p.priority, 4) && s[16..24] == LE(p.alarmTime, 8) && s[24..28] == LE(p.firstChild, 4)
      && s[28..32] == LE(p.nextSibling, 4) && s[32..33] == LE(p.onReadyQueue, 1) && s[36..40] == LE(p.readyOrder, 4)
  {
    hide LE, Pack, Offset;
    Sizes();
    Offsets();
    var v, w := Fields(p), PROC_WIDTHS;
    PackAt(v, w, 0);
    PackAt(v, w, 1);
    PackAt(v, w, 2);
    PackAt(v, w, 3);
    PackAt(v, w, 4);
    PackAt(v, w, 5);
    PackAt(v, w, 6);
    PackAt(v, w, 7);
    PackAt(v, w, 9);
  }

  // ----- The blob -----

  function Header(count: U32): (s: seq<Byte>)
    ensures |s| == HEADER_SIZE
  {
    Sizes();
    Pack([MAGIC, VERSION, count], HEADER_WIDTHS)
  }

  function BlobSize(count: nat): nat {
    HEADER_SIZE + count * PROC_SIZE
  }

  function Blob(t: seq<Proc>): seq<Byte>
    requires |t| <= MAX
  {
    Header(|t|) + EncodeRows(PackProc, t)
  }

  function Parse(s: seq<Byte>): Option<seq<Proc>> {
    if |s| < HEADER_SIZE then None
    else
      Sizes();
      var h := Unpack(HEADER_WIDTHS, s);
      if h[0] != MAGIC || h[1] != VERSION || h[2] > MAX || |s| < BlobSize(h[2]) then None
      else Some(DecodeRows(UnpackProc, PROC_SIZE, h[2], s[HEADER_SIZE..]))
  }

  lemma BlobLength(t: seq<Proc>)
    requires |t| <= MAX
    ensures |Blob(t)| == BlobSize(|t|)
  {
    ProcInverse();
    EncodedSize(PackProc, UnpackProc, PROC_SIZE, t);
  }

  /** Which header bytes are accepted, and what they say. */
  lemma HeaderExactly(s: seq<Byte>, count: U32)
    requires |s| >= HEADER_SIZE == Size(HEADER_WIDTHS)
    ensures Unpack(HEADER_WIDTHS, s) == [MAGIC, VERSION, count] <==> s[..HEADER_SIZE] == Header(count)
  {
    hide Pack, Unpack, Size, Pow256;
    FieldWidths();
    PackUnpack(HEADER_WIDTHS, s);
    if s[..HEADER_SIZE] == Header(count) {
      assert s == Header(count) + s[HEADER_SIZE..];
      UnpackPack([MAGIC, VERSION, count], HEADER_WIDTHS, s[HEADER_SIZE..]);
    }
  }

  /** A blob is read as a table exactly when it starts with what writing that table produces. */
  lemma ParseExactly(s: seq<Byte>, t: seq<Proc>)
    ensures Parse(s) == Some(t) <==> |t| <= 256 && Blob(t) <= s
  {
    hide Unpack, Size, Header, UnpackProc, PackProc, EncodeRows, DecodeRows;
    Sizes();
    if |t| <= MAX {
      BlobLength(t);
    }
    if |s| >= HEADER_SIZE {
      var h := Unpack(HEADER_WIDTHS, s);
      assert h == [h[0], h[1], h[2]];
      FieldWidths();
      HeaderExactly(s, h[2]);
      ParseRows(s, t);
    }
  }

  lemma ParseRows(s: seq<Byte>, t: seq<Proc>)
    requires |s| >= HEADER_SIZE
    ensures Parse(s) == Some(t) <==>
              && |t| <= MAX && |s| >= BlobSize(|t|)
              && s[..HEADER_SIZE] == Header(|t|) && s[HEADER_SIZE..BlobSize(|t|)] == EncodeRows(PackProc, t)
  {
    hide Unpack, Size, Header, UnpackProc, PackProc, EncodeRows, DecodeRows;
    Sizes();
    ProcInverse();
    var h := Unpack(HEADER_WIDTHS, s);
    if |t| <= MAX && |s| >= BlobSize(|t|) {
      HeaderExactly(s, |t|);
      var body := s[HEADER_SIZE..];
      RowsExactly(PackProc, UnpackProc, PROC_SIZE, body, t);
      assert body[..|t| * PROC_SIZE] == s[HEADER_SIZE..BlobSize(|t|)];
      assert h == [MAGIC, VERSION, |t|] <==> h[0] == MAGIC && h[1] == VERSION && h[2] == |t|;
    }
  }

  /** Reading back what was written gives the table, in its order, and no shorter blob is read. */
  lemma RoundTrip(t: seq<Proc>, tail: seq<Byte>, n: nat)
    requires |t| <= MAX && n < |Blob(t)|
    ensures Parse(Blob(t) + tail) == Some(t)
    ensures Parse(Blob(t)[..n]) == None
  {
    hide Parse, Blob;
    ParseExactly(Blob(t) + tail, t);
    var short := Parse(Blob(t)[..n]);
    if short.Some? {
      ParseExactly(Blob(t)[..n], short.value);
      ParseExactly(Blob(t), short.value);
      ParseExactly(Blob(t), t);
    }
  }

  /** Every blob starts with the magic, the version and the number of processes. */
  lemma BlobStarts(t: seq<Proc>)
    requires |t| <= 256
    ensures |Blob(t)| >= 16
    ensures UnLE(Blob(t)[..8]) == 0x494B_5052_4F43_5431 && UnLE(Blob(t)[8..12]) == 1 && UnLE(Blob(t)[12..16]) == |t|
  {
    hide UnLE, Unpack, PackProc, EncodeRows, Header;
    Sizes();
    BlobLength(t);
    var s := Blob(t);
    HeaderExactly(s, |t|);
    assert s[..16] == Header(|t|);
    assert HEADER_WIDTHS[1..] == [4, 4];
    assert Offset(HEADER_WIDTHS, 1) == 8 && Offset(HEADER_WIDTHS, 2) == 12;
    FieldAt(HEADER_WIDTHS, s, 0);
    FieldAt(HEADER_WIDTHS, s, 1);
    FieldAt(HEADER_WIDTHS, s, 2);
    assert s[0..8] == s[..8];
  }

  // ----- Referential integrity -----

  ghost predicate Present(t: seq<Proc>, pid: U32) {
    exists i :: 0 <= i < |t| && t[i].pid == pid
  }

  ghost predicate LinksPresent(t: seq<Proc>, p: Proc) {
    && (p.ppid != 0 ==> Present(t, p.ppid))
    && (p.firstChild != 0 ==> Present(t, p.firstChild))
    && (p.nextSibling != 0 ==> Present(t, p.nextSibling))
  }

  ghost predicate Consistent(t: seq<Proc>) {
    && |t| <= 256
    && (forall i :: 0 <= i < |t| ==> t[i].pid != 0 && LinksPresent(t, t[i]))
    && (forall i, j :: 0 <= i < j < |t| ==> t[i].pid != t[j].pid)
  }

  /** Behind a header put in front, the rest is as it was. */
  lemma HeaderKept(was: seq<Byte>, h: seq<Byte>, n: nat)
    requires |h| == HEADER_SIZE <= n <= |was|
    ensures
      var now := was[..0] + h + was[0 + |h|..];
      |now| == |was| && now[..HEADER_SIZE] == h && now[n..] == was[n..]
  {
  }

  /** The table itself: room for 256 processes and a count, which a caller may have set too high. */
  class Table {
    const procs: array<Proc>
    var count: U32

    ghost predicate Valid() {
      procs.Length == MAX
    }

    ghost function Rows(): seq<Proc>
      requires Valid() && count <= MAX
      reads this, procs
    {
      procs[..count]
    }

    /** Writes the table, or nothing at all when the count is too high or the buffer too short. */
    method Serialize(buf: array<Byte>) returns (n: nat)
      requires Valid()
      modifies buf
      ensures n == 0 <==> count > MAX || buf.Length < BlobSize(count)
      ensures n == 0 ==> buf[..] == old(buf[..])
      ensures n > 0 ==> n <= buf.Length && buf[..] == Blob(Rows()) + old(buf[n..])
    {
      hide PackProc, Header, EncodeRows;
      if count > MAX || buf.Length < BlobSize(count) {
        return 0;
      }
      n := BlobSize(count);
      ProcInverse();
      CopyInto(buf, 0, Header(count));
      HeaderKept(old(buf[..]), Header(count), n);
      WriteFrom(buf, HEADER_SIZE, procs, PackProc, PROC_SIZE, count);
    }

    /** Takes the blob's rows when it is well formed; otherwise leaves the table as it was. */
    method Deserialize(s: seq<Byte>) returns (ok: bool)
      requires Valid()
      modifies this, procs
      ensures ok <==> Parse(s).Some?
      ensures ok ==> count <= MAX && Parse(s) == Some(Rows()) && procs[count..] == old(procs[..])[count..]
      ensures !ok ==> count == old(count) && procs[..] == old(procs[..])
    {
      hide UnpackProc, Unpack, Size, DecodeRows;
      if |s| < HEADER_SIZE {
        return false;
      }
      Sizes();
      var h := Unpack(HEADER_WIDTHS, s);
      if h[0] != MAGIC || h[1] != VERSION || h[2] > MAX {
        return false;
      }
      if |s| < BlobSize(h[2]) {
        return false;
      }
      var body := s[HEADER_SIZE..];
      ReadInto(procs, UnpackProc, PROC_SIZE, h[2], body);
      count := h[2];
      ok := true;
    }

    /** The first record with this pid. */
    method Find(pid: U32) returns (at: Option<nat>)
      requires Valid() && count <= MAX
      ensures at.None? <==> !Present(Rows(), pid)
      ensures at.Some? ==> at.value < count && procs[at.value].pid == pid &&
                           forall j :: 0 <= j < at.value ==> procs[j].pid != pid
    {
      for i := 0 to count
        invariant forall j :: 0 <= j < i ==> procs[j].pid != pid
      {
        if procs[i].pid == pid {
          assert Rows()[i].pid == pid;
          return Some(i);
        }
      }
      at := None;
    }

    /** Accepts exactly the tables whose pids are nonzero and unique and whose links all resolve. */
    method Validate() returns (ok: bool)
      requires Valid()
      ensures ok <==> count <= MAX && Consistent(Rows())
    {
      hide Present;
      if count > MAX {
        return false;
      }
      ghost var t := Rows();
      for i := 0 to count
        invariant forall j :: 0 <= j < i ==> t[j].pid != 0 && LinksPresent(t, t[j])
        invariant forall j, k :: 0 <= j < i && j < k < |t| ==> t[j].pid != t[k].pid
      {
        var r := procs[i];
        assert r == t[i];
        if r.pid == 0 {
          return false;
        }
        for j := i + 1 to count
          invariant forall k :: i < k < j ==> t[k].pid != r.pid
        {
          if procs[j].pid == r.pid {
            assert t[j].pid == t[i].pid;
            return false;
          }
        }
        var linked := Linked(r.ppid);
        if !linked {
          return false;
        }
        linked := Linked(r.firstChild);
        if !linked {
          return false;
        }
        linked := Linked(r.nextSibling);
        if !linked {
          return false;
        }
      }
      ok := true;
    }

    /** A link is none or names a process of the table. */
    method Linked(pid: U32) returns (ok: bool)
      requires Valid() && count <= MAX
      ensures ok <==> (pid != 0 ==> Present(Rows(), pid))
    {
      if pid == 0 {
        return true;
      }
      var at := Find(pid);
      ok := at.Some?;
    }
  }
}
