/** Kernel-state blobs: capture cuts a blob into page-sized records that carry the blob's size and
    their own index; boot puts the records of every blob back together in whatever order, and
    however interleaved, the checkpoint holds them. */
module KernelBlob {
  import opened Bytes
  import opened SnapshotStore
  import opened CheckpointEngine
  import opened Rows

  const CHUNK: nat := 4096
  const WORD: nat := 0x1_0000_0000
  const LARGEST: nat := 0xFFFF_F000
  const MAX_BLOBS: nat := 6

  // ----- Capture -----

  /** The chunk count the capture loop computes, in 32-bit arithmetic. */
  function ChunkCount(size: U32): nat {
    (size + 4095) % WORD / 4096
  }

  /** The loop visits exactly the chunks of the blob, unless rounding the size up wraps: then it
      visits none. */
  lemma ChunkCountExact(size: U32, i: nat)
    ensures size <= LARGEST ==> (i < ChunkCount(size) <==> i * CHUNK < size)
    ensures size > LARGEST ==> ChunkCount(size) == 0
  {
    if size <= LARGEST {
      var n := size + 4095;
      assert n % WORD == n;
      assert n == 4096 * (n / 4096) + n % 4096;
      if i < ChunkCount(size) {
        assert i + 1 <= n / 4096;
      } else {
        assert n / 4096 <= i;
      }
    } else {
      assert (size + 4095) % WORD == size + 4095 - WORD;
    }
  }

  function ChunkLen(total: nat, i: nat): (n: nat)
    requires i * CHUNK < total
    ensures 0 < n <= CHUNK && i * CHUNK + n <= total
  {
    if total - i * CHUNK < CHUNK then total - i * CHUNK else CHUNK
  }

  function ChunkData(data: seq<Byte>, i: nat): Page
    requires i * CHUNK < |data|
  {
    var n := ChunkLen(|data|, i);
    data[i * CHUNK..i * CHUNK + n] + Zeros(CHUNK - n)
  }

  /** A chunk byte by byte: the blob's, and zeros past its end. */
  lemma ChunkBytes(data: seq<Byte>, i: nat, k: nat)
    requires i * CHUNK < |data| && k < 4096
    ensures ChunkData(data, i)[k] == if 4096 * i + k < |data| then data[4096 * i + k] else 0
  {
    var n := ChunkLen(|data|, i);
    if k < n {
      assert data[i * CHUNK..i * CHUNK + n][k] == data[i * CHUNK + k];
    }
  }

  function Tagged(total: U32, i: U32): U64 {
    total * WORD + i
  }

  function TotalOf(vaddr: U64): U32 {
    vaddr / WORD
  }

  function IndexOf(vaddr: U64): U32 {
    vaddr % WORD
  }

  lemma TagRoundTrip(total: U32, i: U32)
    ensures TotalOf(Tagged(total, i)) == total && IndexOf(Tagged(total, i)) == i
  {
  }

  predicate Sized(data: seq<Byte>) {
    0 < |data| <= LARGEST
  }

  function ChunkRecord(tag: U32, data: seq<Byte>, i: nat): Record
    requires Sized(data) && i * CHUNK < |data|
  {
    Record(tag, REC_KERNEL, Tagged(|data|, i), ChunkData(data, i))
  }

  /** The capture list after a blob's first n chunks: each is pushed at the front. */
  function Captured(tag: U32, data: seq<Byte>, n: nat, captures: seq<Record>): seq<Record>
    requires Sized(data) && (n > 0 ==> (n - 1) * CHUNK < |data|)
  {
    if n == 0 then captures
    else [ChunkRecord(tag, data, n - 1)] + Captured(tag, data, n - 1, captures)
  }

  /** Capture reports success whenever there is data. A blob whose size rounds up past 32 bits is
      reported captured and leaves nothing behind. */
  method CaptureKernelBlob(tag: U32, data: seq<Byte>, captures: seq<Record>) returns (ok: bool, log: seq<Record>)
    requires |data| < WORD
    ensures ok <==> data != []
    ensures 0 < |data| <= 0xFFFF_F000 ==>
              Sized(data) && ChunkCount(|data|) > 0 && log == Captured(tag, data, ChunkCount(|data|), captures)
    ensures data == [] || |data| > 0xFFFF_F000 ==> log == captures
  {
    log := captures;
    if data == [] {
      return false, log;
    }
    ChunkCountExact(|data|, 0);
    var chunks := ChunkCount(|data|);
    for i := 0 to chunks
      invariant i > 0 ==> Sized(data) && (i - 1) * CHUNK < |data|
      invariant i == 0 ==> log == captures
      invariant Sized(data) ==> log == Captured(tag, data, i, captures)
    {
      ChunkCountExact(|data|, i);
      log := [ChunkRecord(tag, data, i)] + log;
    }
    ok := true;
  }

  // ----- Placing one chunk -----

  datatype Assembly = Assembly(buf: seq<Byte>, received: U32)

  datatype Placing = Refused | Placed | Completed

  /** Where a chunk goes, with the 32-bit product the source computes. */
  function Offset(index: U32): U32 {
    index * CHUNK % WORD
  }

  function PlaceChunk(a: Assembly, total: U32, index: U32, chunk: Page): (r: (Assembly, Placing))
    ensures |r.0.buf| == |a.buf|
  {
    if total == 0 || total > |a.buf| || Offset(index) >= total then (a, Refused)
    else
      var off := Offset(index);
      var n := if total - off > CHUNK then CHUNK else total - off;
      var received := (a.received + n) % WORD;
      (Assembly(a.buf[..off] + chunk[..n] + a.buf[off + n..], received),
       if received >= total then Completed else Placed)
  }

  /** A chunk whose index is past the end of the blob is refused for every index below 2^20; above
      that the byte offset wraps, and the chunk is judged by where the wrapped offset lands. */
  lemma RefusedExactly(a: Assembly, total: U32, index: U32, chunk: Page)
    requires 0 < total <= |a.buf|
    ensures PlaceChunk(a, total, index, chunk).1 == Refused <==> index % 0x10_0000 * CHUNK >= total
    ensures index < 0x10_0000 ==> (PlaceChunk(a, total, index, chunk).1 == Refused <==> index * CHUNK >= total)
  {
    var q := index / 0x10_0000;
    assert index * CHUNK == q * WORD + index % 0x10_0000 * CHUNK;
    WrapIs(q, index % 0x10_0000 * CHUNK);
  }

  lemma WrapIs(q: nat, r: nat)
    requires r < WORD
    ensures (q * WORD + r) % WORD == r
  {
  }

  /** Placing a chunk in the buffer itself. */
  method PlaceInBuffer(buf: array<Byte>, total: U32, index: U32, chunk: Page, received: U32)
    returns (code: Placing, count: U32)
    modifies buf
    ensures (Assembly(buf[..], count), code) == PlaceChunk(Assembly(old(buf[..]), received), total, index, chunk)
  {
    hide Offset;
    if total == 0 || total > buf.Length {
      return Refused, received;
    }
    var off := Offset(index);
    if off >= total {
      return Refused, received;
    }
    var n := total - off;
    if n > CHUNK {
      n := CHUNK;
    }
    CopyInto(buf, off, chunk[..n]);
    count := (received + n) % WORD;
    code := if count >= total then Completed else Placed;
  }

  // ----- Placing the chunks of one blob in any order -----

  predicate Indices(total: nat, order: seq<nat>) {
    forall k :: 0 <= k < |order| ==> order[k] * CHUNK < total
  }

  predicate NoRepeat(order: seq<nat>) {
    forall j, k :: 0 <= j < k < |order| ==> order[j] != order[k]
  }

  ghost predicate Covers(total: nat, order: seq<nat>) {
    forall i: nat {:trigger i in order} :: i * CHUNK < total ==> i in order
  }

  function PlaceNth(a: Assembly, data: seq<Byte>, i: nat): (Assembly, Placing)
    requires Sized(data) && i * CHUNK < |data|
  {
    PlaceChunk(a, |data|, i, ChunkData(data, i))
  }

  /** The buffer after placing the chunks named by order, first to last. */
  function Assembled(a: Assembly, data: seq<Byte>, order: seq<nat>): (r: Assembly)
    requires Sized(data) && Indices(|data|, order)
    ensures |r.buf| == |a.buf|
  {
    if order == [] then a
    else PlaceNth(Assembled(a, data, Init(order)), data, Last(order)).0
  }

  function Init<T>(s: seq<T>): seq<T>
    requires s != []
  {
    s[..|s| - 1]
  }

  function Last<T>(s: seq<T>): T
    requires s != []
  {
    s[|s| - 1]
  }

  /** What the last placement of order reports. */
  function Report(a: Assembly, data: seq<Byte>, order: seq<nat>): Placing
    requires Sized(data) && Indices(|data|, order) && order != []
  {
    PlaceNth(Assembled(a, data, Init(order)), data, Last(order)).1
  }

  lemma PlaceNthEffect(a: Assembly, data: seq<Byte>, i: nat)
    requires Sized(data) && i * CHUNK < |data| <= |a.buf|
    ensures
      var (b, code) := PlaceNth(a, data, i);
      var n := ChunkLen(|data|, i);
      && b.received == (a.received + n) % WORD
      && code == (if b.received >= |data| then Completed else Placed)
      && b.buf == a.buf[..i * CHUNK] + data[i * CHUNK..i * CHUNK + n] + a.buf[i * CHUNK + n..]
  {
    assert Offset(i) == i * CHUNK;
    var n := ChunkLen(|data|, i);
    assert ChunkData(data, i)[..n] == data[i * CHUNK..i * CHUNK + n];
  }

  lemma InChunk(total: nat, i: nat, j: nat)
    requires i * CHUNK < total
    ensures i * CHUNK <= j < i * CHUNK + ChunkLen(total, i) <==> j < total && j / CHUNK == i
  {
    assert j == j / CHUNK * CHUNK + j % CHUNK;
  }

  lemma PlaceNthByte(a: Assembly, data: seq<Byte>, i: nat, j: nat)
    requires Sized(data) && i * CHUNK < |data| <= |a.buf| && j < |a.buf|
    ensures PlaceNth(a, data, i).0.buf[j] == if j < |data| && j / CHUNK == i then data[j] else a.buf[j]
  {
    hide PlaceNth, ChunkLen;
    PlaceNthEffect(a, data, i);
    InChunk(|data|, i, j);
  }

  lemma {:induction false} AssembledBytes(a: Assembly, data: seq<Byte>, order: seq<nat>, j: nat)
    requires Sized(data) && Indices(|data|, order) && |data| <= |a.buf| && j < |a.buf|
    ensures Assembled(a, data, order).buf[j] ==
            if j < |data| && j / CHUNK in order then data[j] else a.buf[j]
  {
    hide PlaceNth;
    if order != [] {
      var i := Last(order);
      AssembledBytes(a, data, Init(order), j);
      PlaceNthByte(Assembled(a, data, Init(order)), data, i, j);
      assert order == Init(order) + [i];
    }
  }

  /** Bytes of the distinct chunks among the first m that order names. */
  function PlacedBytes(total: nat, order: seq<nat>, m: nat): nat
    requires m > 0 ==> (m - 1) * CHUNK < total
  {
    if m == 0 then 0
    else PlacedBytes(total, order, m - 1) + if m - 1 in order then ChunkLen(total, m - 1) else 0
  }

  /** Bytes of the chunks that order names again. */
  function RepeatedBytes(total: nat, order: seq<nat>): nat
    requires Indices(total, order)
  {
    if order == [] then 0
    else RepeatedBytes(total, Init(order)) + if Last(order) in Init(order) then ChunkLen(total, Last(order)) else 0
  }

  lemma {:induction false} PlacedAdd(total: nat, order: seq<nat>, i: nat, m: nat)
    requires m > 0 ==> (m - 1) * CHUNK < total
    requires i * CHUNK < total
    ensures PlacedBytes(total, order + [i], m) ==
            PlacedBytes(total, order, m) + if i < m && i !in order then ChunkLen(total, i) else 0
  {
    if m > 0 {
      PlacedAdd(total, order, i, m - 1);
    }
  }

  lemma {:induction false} PlacedNone(total: nat, m: nat)
    requires m > 0 ==> (m - 1) * CHUNK < total
    ensures PlacedBytes(total, [], m) == 0
  {
    if m > 0 {
      PlacedNone(total, m - 1);
    }
  }

  lemma {:induction false} PlacedAll(total: nat, order: seq<nat>, m: nat)
    requires m > 0 ==> (m - 1) * CHUNK < total
    ensures
      var full := if m * CHUNK < total then m * CHUNK else total;
      && PlacedBytes(total, order, m) <= full
      && (PlacedBytes(total, order, m) == full <==> forall i: nat :: i < m ==> i in order)
  {
    if m > 0 {
      PlacedAll(total, order, m - 1);
    }
  }

  /** Distinct bytes placed so far, over the whole blob. */
  function Distinctly(data: seq<Byte>, order: seq<nat>): nat
    requires Sized(data)
  {
    ChunkCountExact(|data|, ChunkCount(|data|) - (if ChunkCount(|data|) > 0 then 1 else 0));
    PlacedBytes(|data|, order, ChunkCount(|data|))
  }

  lemma DistinctlyCovers(data: seq<Byte>, order: seq<nat>)
    requires Sized(data)
    ensures Distinctly(data, order) <= |data|
    ensures Distinctly(data, order) == |data| <==> Covers(|data|, order)
  {
    var m := ChunkCount(|data|);
    ChunkCountExact(|data|, 0);
    ChunkCountExact(|data|, m - 1);
    ChunkCountExact(|data|, m);
    PlacedAll(|data|, order, m);
    if Covers(|data|, order) {
      forall i: nat | i < m ensures i in order { ChunkCountExact(|data|, i); }
    }
    if forall i: nat :: i < m ==> i in order {
      forall i: nat | i * CHUNK < |data| ensures i in order { ChunkCountExact(|data|, i); }
    }
  }

  lemma {:induction false} ReceivedBytes(a: Assembly, data: seq<Byte>, order: seq<nat>)
    requires Sized(data) && Indices(|data|, order) && |data| <= |a.buf|
    ensures Assembled(a, data, order).received ==
            (a.received + Distinctly(data, order) + RepeatedBytes(|data|, order)) % WORD
  {
    hide PlaceNth, PlacedBytes, ChunkCount, ChunkLen;
    var m := ChunkCount(|data|);
    ChunkCountExact(|data|, 0);
    ChunkCountExact(|data|, m - 1);
    if order == [] {
      PlacedNone(|data|, m);
    } else {
      var i := Last(order);
      ReceivedBytes(a, data, Init(order));
      PlaceNthEffect(Assembled(a, data, Init(order)), data, i);
      assert order == Init(order) + [i];
      PlacedAdd(|data|, Init(order), i, m);
      ChunkCountExact(|data|, i);
      AddWraps(a.received + Distinctly(data, Init(order)) + RepeatedBytes(|data|, Init(order)), ChunkLen(|data|, i));
    }
  }

  lemma AddWraps(x: nat, n: nat)
    ensures (x % WORD + n) % WORD == (x + n) % WORD
  {
  }

  lemma {:induction false} NothingRepeated(total: nat, order: seq<nat>)
    requires Indices(total, order) && NoRepeat(order)
    ensures RepeatedBytes(total, order) == 0
  {
    if order != [] {
      NothingRepeated(total, Init(order));
    }
  }

  /** A blob is reported complete exactly when the bytes placed, counted in 32 bits, reach its size:
      short of 2^32 bytes, when those of the chunks placed more than once make up for those of the
      chunks never placed. */
  lemma CompleteExactly(a: Assembly, data: seq<Byte>, order: seq<nat>)
    requires Sized(data) && Indices(|data|, order) && order != [] && |data| <= |a.buf| && a.received == 0
    ensures
      var placed, repeated := Distinctly(data, order), RepeatedBytes(|data|, order);
      && Report(a, data, order) != Refused
      && (Report(a, data, order) == Completed <==> (placed + repeated) % WORD >= |data|)
      && (placed + repeated < WORD ==>
            (Report(a, data, order) == Completed <==> repeated >= |data| - placed))
  {
    hide Distinctly, RepeatedBytes, PlaceNth;
    PlaceNthEffect(Assembled(a, data, Init(order)), data, Last(order));
    ReceivedBytes(a, data, order);
  }

  /** Each chunk placed once, in any order: completion is reported on the chunk that completes the
      blob and not before, and the buffer then holds the blob byte for byte. */
  lemma Reassembles(a: Assembly, data: seq<Byte>, order: seq<nat>)
    requires Sized(data) && Indices(|data|, order) && NoRepeat(order) && order != []
    requires |data| <= |a.buf| && a.received == 0
    ensures Report(a, data, order) == if Covers(|data|, order) then Completed else Placed
    ensures Covers(|data|, order) ==>
              Assembled(a, data, order).buf == data + a.buf[|data|..]
  {
    NothingRepeated(|data|, order);
    DistinctlyCovers(data, order);
    CompleteExactly(a, data, order);
    if Covers(|data|, order) {
      var b := Assembled(a, data, order).buf;
      forall j | 0 <= j < |b| ensures b[j] == (data + a.buf[|data|..])[j] {
        AssembledBytes(a, data, order, j);
        if j < |data| {
          assert j / CHUNK in order;
        }
      }
    }
  }

  /** Placing the first of two chunks twice reports a complete blob with the second still missing. */
  lemma RepeatCompletesEarly(a: Assembly, data: seq<Byte>)
    requires |data| == 2 * CHUNK <= |a.buf| && a.received == 0
    ensures Indices(|data|, [0, 0]) && Report(a, data, [0, 0]) == Completed
    ensures Assembled(a, data, [0, 0]).buf == data[..CHUNK] + a.buf[CHUNK..]
  {
    var order := [0, 0];
    assert Init(order) == [0] && Init([0]) == [];
    var b := Assembled(a, data, [0]);
    PlaceNthEffect(a, data, 0);
    PlaceNthEffect(b, data, 0);
    assert Assembled(a, data, []) == a;
    assert b == PlaceNth(a, data, 0).0;
  }
}
