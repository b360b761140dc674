/** The keyframe retention ring: which slot holds which epoch, and its checksummed packed form. */
module KeyframeRing {
  import opened Bytes
  import opened Crc32

  const RING_MAX: nat := 64
  const PACKED_SIZE: nat := 1060

  datatype Slot = Slot(epoch: U64, valid: U32, reserved: U32)

  const EMPTY: Slot := Slot(0, 0, 0)

  datatype Ring = Ring(capacity: U32, count: U32, head: U32, reserved: U32, reclaimedValid: U32,
                       reserved2: U32, reclaimedEpoch: U64, slots: seq<Slot>)

  /** What every ring has, whatever its bytes came from. */
  ghost predicate Shaped(r: Ring) {
    1 <= r.capacity <= RING_MAX && |r.slots| == RING_MAX
  }

  /** And what the kernel's own rings have besides: a head that names a slot. */
  ghost predicate InRange(r: Ring) {
    Shaped(r) && r.head < r.capacity
  }

  /** Slots fill from zero; once full, the head points at the oldest. */
  ghost predicate WellFormed(r: Ring) {
    && InRange(r) && r.count <= r.capacity && (r.count < r.capacity ==> r.head == r.count)
    && (forall i :: 0 <= i < r.count ==> r.slots[i].valid == 1 && r.slots[i].reserved == 0)
    && (forall i :: r.count <= i < RING_MAX ==> r.slots[i] == EMPTY)
  }

  function Init(capacity: U32): (r: Ring) {
    Ring(capacity, 0, 0, 0, 0, 0, 0, seq(RING_MAX, _ => EMPTY))
  }

  function NextSlot(head: nat, capacity: nat): (n: nat)
    requires head < capacity
    ensures n == if head + 1 == capacity then 0 else head + 1
  {
    (head + 1) % capacity
  }

  function Advance(r: Ring, epoch: U64): (a: Ring)
    requires InRange(r)
    ensures InRange(a) && a.capacity == r.capacity
  {
    var was := r.slots[r.head];
    r.(reclaimedValid := was.valid,
       reclaimedEpoch := if was.valid != 0 then was.epoch else 0,
       slots := r.slots[r.head := was.(epoch := epoch, valid := 1)],
       head := NextSlot(r.head, r.capacity),
       count := if r.count < r.capacity then r.count + 1 else r.count)
  }

  function Epochs(slots: seq<Slot>): (es: seq<U64>)
    ensures |es| == |slots|
    ensures forall i :: 0 <= i < |slots| ==> es[i] == slots[i].epoch
  {
    seq(|slots|, i requires 0 <= i < |slots| => slots[i].epoch)
  }

  /** The retained epochs, oldest first: the simple sequence the ring stands for. */
  function Window(r: Ring): (es: seq<U64>)
    requires InRange(r) && r.count <= r.capacity
    ensures |es| == r.count
  {
    if r.count < r.capacity then Epochs(r.slots[..r.count])
    else Epochs(r.slots[r.head..r.capacity] + r.slots[..r.head])
  }

  ghost predicate Increasing(es: seq<U64>) {
    forall i, j :: 0 <= i < j < |es| ==> es[i] < es[j]
  }

  lemma AdvanceFills(r: Ring, epoch: U64)
    requires WellFormed(r) && r.count < r.capacity
    ensures WellFormed(Advance(r, epoch))
    ensures Window(Advance(r, epoch)) == Window(r) + [epoch]
  {
    var a := Advance(r, epoch);
    hide NextSlot;
    assert a.slots[..a.count] == r.slots[..r.count] + [a.slots[r.count]];
    assert a.slots[0..a.count] + a.slots[..0] == a.slots[..a.count];
  }

  lemma AdvanceEvicts(r: Ring, epoch: U64)
    requires WellFormed(r) && r.count == r.capacity
    ensures WellFormed(Advance(r, epoch))
    ensures Window(Advance(r, epoch)) == Window(r)[1..] + [epoch]
    ensures Window(r)[0] == r.slots[r.head].epoch
  {
    hide NextSlot, Epochs;
    var a, h, n := Advance(r, epoch), r.head, r.capacity;
    var kept := r.slots[h + 1..n] + r.slots[..h];
    Turned(r.slots, h, n, a.slots[h]);
    EpochsJoin([r.slots[h]], kept);
    EpochsJoin(kept, [a.slots[h]]);
    EpochsOne(r.slots[h]);
    EpochsOne(a.slots[h]);
  }

  lemma EpochsJoin(x: seq<Slot>, y: seq<Slot>)
    ensures Epochs(x + y) == Epochs(x) + Epochs(y)
  {
  }

  lemma EpochsOne(x: Slot)
    ensures Epochs([x]) == [x.epoch]
  {
  }

  /** A full ring read from its head, before and after the slot at the head is replaced. */
  lemma Turned(slots: seq<Slot>, h: nat, n: nat, x: Slot)
    requires h < n <= |slots|
    ensures
      var kept, next := slots[h + 1..n] + slots[..h], slots[h := x];
      && slots[h..n] + slots[..h] == [slots[h]] + kept
      && (if h + 1 == n then next[0..n] + next[..0] else next[h + 1..n] + next[..h + 1]) == kept + [x]
  {
    var next := slots[h := x];
    assert slots[h..n] == [slots[h]] + slots[h + 1..n];
    assert next[h + 1..n] == slots[h + 1..n] && next[..h + 1] == slots[..h] + [x];
    if h + 1 == n {
      assert slots[h + 1..n] == [] && next[..0] == [] && next[0..n] == next[..h + 1];
    }
  }

  /** A claimed slot drops the oldest epoch of a full window and appends the new one; the
      reclaim report names exactly the dropped epoch. */
  lemma AdvanceWindow(r: Ring, epoch: U64)
    requires WellFormed(r)
    ensures WellFormed(Advance(r, epoch))
    ensures Window(Advance(r, epoch))
         == (if r.count == r.capacity then Window(r)[1..] else Window(r)) + [epoch]
    ensures Advance(r, epoch).reclaimedValid == if r.count == r.capacity then 1 else 0
    ensures r.count == r.capacity ==> Advance(r, epoch).reclaimedEpoch == Window(r)[0]
  {
    if r.count < r.capacity {
      AdvanceFills(r, epoch);
    } else {
      AdvanceEvicts(r, epoch);
    }
  }

  function RunAdvances(capacity: U32, es: seq<U64>): (r: Ring)
    requires 1 <= capacity <= RING_MAX
    ensures WellFormed(r) && r.capacity == capacity
  {
    if es == [] then Init(capacity)
    else
      var before := RunAdvances(capacity, es[..|es| - 1]);
      AdvanceWindow(before, es[|es| - 1]);
      Advance(before, es[|es| - 1])
  }

  lemma SuffixStep<T>(s: seq<T>, n: nat)
    requires s != [] && n >= 1
    ensures var init, last := s[..|s| - 1], s[|s| - 1];
            && (|s| <= n ==> init + [last] == s)
            && (|s| == n + 1 ==> init[1..] + [last] == s[1..])
            && (|s| > n + 1 ==> init[|init| - n..][1..] + [last] == s[|s| - n..])
  {
  }

  /** After any sequence of checkpoints the ring holds exactly the last min(k, N) epochs. */
  lemma {:induction false} RetainsLast(capacity: U32, es: seq<U64>)
    requires 1 <= capacity <= RING_MAX
    ensures Window(RunAdvances(capacity, es))
         == if |es| <= capacity then es else es[|es| - capacity..]
  {
    hide Advance, Window;
    if es == [] {
      assert Window(Init(capacity)) == [];
    } else {
      var init, e := es[..|es| - 1], es[|es| - 1];
      RetainsLast(capacity, init);
      AdvanceWindow(RunAdvances(capacity, init), e);
      SuffixStep(es, capacity);
    }
  }

  // ----- Lookup -----

  /** Slot of the greatest valid epoch at or before target among the first n slots. */
  function Best(slots: seq<Slot>, n: nat, target: U64): (b: Option<nat>)
    requires n <= |slots|
    ensures b.Some? ==> b.value < n && slots[b.value].valid != 0 && slots[b.value].epoch <= target
    ensures forall i :: 0 <= i < n && slots[i].valid != 0 && slots[i].epoch <= target
              ==> b.Some? && slots[i].epoch <= slots[b.value].epoch
                  && (slots[i].epoch == slots[b.value].epoch ==> b.value <= i)
  {
    if n == 0 then None
    else
      var b := Best(slots, n - 1, target);
      var s := slots[n - 1];
      if s.valid != 0 && s.epoch <= target && (b.None? || s.epoch > slots[b.value].epoch)
      then Some(n - 1) else b
  }

  function Find(r: Ring, target: U64): (s: Option<nat>)
    requires Shaped(r)
    ensures s.Some? ==> s.value < r.capacity && r.slots[s.value].valid != 0 && r.slots[s.value].epoch <= target
  {
    Best(r.slots, r.capacity, target)
  }

  function Newest(r: Ring): Option<U64>
    requires InRange(r)
  {
    var b := Find(r, 0xFFFF_FFFF_FFFF_FFFF);
    if r.count == 0 || b.None? then None else Some(r.slots[b.value].epoch)
  }

  /** Where the i-th oldest retained epoch lives. */
  function SlotOf(r: Ring, i: nat): (s: nat)
    requires WellFormed(r) && i < r.count
    ensures s < r.capacity && r.slots[s].valid == 1 && Window(r)[i] == r.slots[s].epoch
  {
    if r.count < r.capacity then i
    else if r.head + i < r.capacity then r.head + i else r.head + i - r.capacity
  }

  lemma SlotInWindow(r: Ring, s: nat)
    requires WellFormed(r) && s < r.capacity && r.slots[s].valid != 0
    ensures exists i :: 0 <= i < r.count && SlotOf(r, i) == s
  {
    var i := if r.count < r.capacity then s else if s >= r.head then s - r.head else s + r.capacity - r.head;
    assert i < r.count && SlotOf(r, i) == s;
  }

  /** Find returns the greatest retained epoch not above the target, and fails exactly when
      the target predates the whole window. */
  lemma FindNearest(r: Ring, target: U64)
    requires WellFormed(r) && Increasing(Window(r))
    ensures Find(r, target).None? <==> Window(r) == [] || target < Window(r)[0]
    ensures Find(r, target).Some? ==>
              exists i :: 0 <= i < r.count && SlotOf(r, i) == Find(r, target).value
                && Window(r)[i] <= target && (i + 1 < r.count ==> target < Window(r)[i + 1])
  {
    var w, b := Window(r), Find(r, target);
    if b.Some? {
      SlotInWindow(r, b.value);
      var i :| 0 <= i < r.count && SlotOf(r, i) == b.value;
      if i + 1 < r.count {
        var s := SlotOf(r, i + 1);
        assert w[i + 1] == r.slots[s].epoch && w[i] < w[i + 1];
      }
    } else if w != [] {
      var s := SlotOf(r, 0);
      assert w[0] == r.slots[s].epoch;
    }
  }

  lemma NewestIsLast(r: Ring)
    requires WellFormed(r) && Increasing(Window(r))
    ensures Newest(r) == if Window(r) == [] then None else Some(Window(r)[r.count - 1])
  {
    FindNearest(r, 0xFFFF_FFFF_FFFF_FFFF);
  }

  // ----- Packing -----

  const FIELDS: seq<nat> := [4, 4, 4, 4, 4, 4, 8]
  const SLOT_FIELDS: seq<nat> := [8, 4, 4]

  lemma FieldSizes()
    ensures Size(FIELDS) == 32 && Size(SLOT_FIELDS) == 16
  {
    assert FIELDS[1..] == [4, 4, 4, 4, 4, 8];
  }

  function PackSlots(slots: seq<Slot>): (s: seq<Byte>)
    ensures |s| == 16 * |slots|
  {
    FieldSizes();
    if slots == [] then []
    else Pack([slots[0].epoch, slots[0].valid, slots[0].reserved], SLOT_FIELDS) + PackSlots(slots[1..])
  }

  function UnpackSlots(s: seq<Byte>, n: nat): (slots: seq<Slot>)
    requires |s| == 16 * n
    ensures |slots| == n
    decreases n
  {
    FieldSizes();
    FieldWidths();
    if n == 0 then []
    else
      var f := Unpack(SLOT_FIELDS, s);
      [Slot(f[0], f[1], f[2])] + UnpackSlots(s[16..], n - 1)
  }

  function Body(r: Ring): (s: seq<Byte>)
    requires |r.slots| == RING_MAX
    ensures |s| == 1056
  {
    FieldSizes();
    Pack([r.capacity, r.count, r.head, r.reserved, r.reclaimedValid, r.reserved2, r.reclaimedEpoch], FIELDS)
      + PackSlots(r.slots)
  }

  /** The struct bytes followed by their CRC-32. */
  function PackRing(r: Ring): (s: seq<Byte>)
    requires |r.slots| == RING_MAX
    ensures |s| == PACKED_SIZE
  {
    Body(r) + LE(Crc(0, Body(r)), 4)
  }

  function ParseBody(s: seq<Byte>): Ring
    requires |s| == 1056
  {
    FieldSizes();
    FieldWidths();
    var f := Unpack(FIELDS, s);
    Ring(f[0], f[1], f[2], f[3], f[4], f[5], f[6], UnpackSlots(s[32..], RING_MAX))
  }

  function UnpackRing(buf: seq<Byte>): (u: Option<Ring>)
    ensures u.Some? ==> Shaped(u.value)
  {
    if |buf| < PACKED_SIZE then None
    else if Crc(0, buf[..1056]) != UnLE(buf[1056..1060]) then None
    else
      var r := ParseBody(buf[..1056]);
      if 1 <= r.capacity <= RING_MAX then Some(r) else None
  }

  lemma {:induction false} SlotsRoundTrip(slots: seq<Slot>)
    ensures UnpackSlots(PackSlots(slots), |slots|) == slots
    decreases |slots|
  {
    hide Pack, Unpack, Size, Pow256;
    if slots != [] {
      FieldSizes();
      FieldWidths();
      var first := [slots[0].epoch, slots[0].valid, slots[0].reserved];
      UnpackPack(first, SLOT_FIELDS, PackSlots(slots[1..]));
      assert PackSlots(slots)[16..] == PackSlots(slots[1..]);
      SlotsRoundTrip(slots[1..]);
    }
  }

  lemma BodyRoundTrip(r: Ring)
    requires |r.slots| == RING_MAX
    ensures ParseBody(Body(r)) == r
  {
    hide Pack, Unpack, PackSlots, UnpackSlots, Size;
    FieldSizes();
    FieldWidths();
    UnpackPack([r.capacity, r.count, r.head, r.reserved, r.reclaimedValid, r.reserved2, r.reclaimedEpoch],
               FIELDS, PackSlots(r.slots));
    assert Body(r)[32..] == PackSlots(r.slots);
    SlotsRoundTrip(r.slots);
  }

  /** Unpack undoes pack, whatever follows the packed bytes in the buffer. */
  lemma UnpackUndoesPack(r: Ring, tail: seq<Byte>)
    requires |r.slots| == RING_MAX && 1 <= r.capacity <= RING_MAX
    ensures UnpackRing(PackRing(r) + tail) == Some(r)
  {
    hide Body, ParseBody, Crc;
    var buf := PackRing(r) + tail;
    FieldWidths();
    assert buf[..1056] == Body(r) && buf[1056..1060] == LE(Crc(0, Body(r)), 4);
    LERoundTrip(Crc(0, Body(r)), 4);
    BodyRoundTrip(r);
  }

  /** Damage within four adjacent bytes of a packed ring, its checksum included, is refused. */
  lemma DamagedRingRefused(a: seq<Byte>, b: seq<Byte>, i: nat)
    requires UnpackRing(a).Some? && |b| >= PACKED_SIZE && DamagedAt(a[..PACKED_SIZE], b[..PACKED_SIZE], i)
    ensures UnpackRing(b) == None
  {
    hide ParseBody, Crc, DamagedAt;
    assert a[..1060] == a[..1056] + a[1056..1060] && b[..1060] == b[..1056] + b[1056..1060];
    SealDetects(a[..1056], a[1056..1060], b[..1056], b[1056..1060], i);
  }

  /** The first 48 packed bytes fix the count, the head and slot zero. */
  lemma FirstBytesFix(x: seq<Byte>, y: seq<Byte>)
    requires |x| == |y| == 1056 && x[..48] == y[..48]
    ensures ParseBody(x).count == ParseBody(y).count && ParseBody(x).head == ParseBody(y).head
    ensures ParseBody(x).slots[0] == ParseBody(y).slots[0]
  {
    hide Unpack, Size;
    FieldSizes();
    assert x[..32] == x[..48][..32] == y[..48][..32] == y[..32];
    UnpackPrefix(FIELDS, x, y);
    assert x[32..][..16] == x[..48][32..] == y[..48][32..] == y[32..][..16];
    UnpackPrefix(SLOT_FIELDS, x[32..], y[32..]);
  }

  /** An advance to a newer epoch shows in the count, the head or slot zero. */
  lemma AdvanceShows(r: Ring, epoch: U64)
    requires WellFormed(r) && (r.count > 0 ==> Window(r)[r.count - 1] < epoch)
    ensures
      var a := Advance(r, epoch);
      a.count != r.count || a.head != r.head || a.slots[0] != r.slots[0]
  {
    hide NextSlot;
    if r.count == r.capacity == 1 {
      assert Window(r)[0] == r.slots[0].epoch;
    }
  }

  /** Bytes that start with an advanced ring do not unpack to the ring it came from. */
  lemma AdvancedUnpacks(r: Ring, epoch: U64, buf: seq<Byte>)
    requires WellFormed(r) && (r.count > 0 ==> Window(r)[r.count - 1] < epoch)
    requires |buf| >= 512 && buf[..512] == Body(Advance(r, epoch))[..512]
    ensures UnpackRing(buf) != Some(r)
  {
    hide Advance, Window, Crc, Body, ParseBody;
    var a := Advance(r, epoch);
    AdvanceShows(r, epoch);
    BodyRoundTrip(a);
    if |buf| >= PACKED_SIZE {
      assert buf[..1056][..48] == buf[..512][..48] == Body(a)[..512][..48] == Body(a)[..48];
      FirstBytesFix(buf[..1056], Body(a));
    }
  }

  /** Slots 0 to 29 and all other fields lie in the first 512 packed bytes. */
  const IN_FIRST_SECTOR: nat := 30

  lemma {:induction false} ZeroField(w: nat)
    ensures LE(0, w) == Zeros(w)
  {
    if w > 0 {
      ZeroField(w - 1);
    }
  }

  lemma EmptyPacks()
    ensures Pack([EMPTY.epoch, EMPTY.valid, EMPTY.reserved], SLOT_FIELDS) == Zeros(16)
  {
    hide LE;
    ZeroField(8);
    ZeroField(4);
    var v, w := [EMPTY.epoch, EMPTY.valid, EMPTY.reserved], SLOT_FIELDS;
    assert v[1..] == [0, 0] && w[1..] == [4, 4];
    assert [0, 0][1..] == [0] && [4, 4][1..] == [4];
    assert [0][1..] == [] && [4][1..] == [];
    PackCons(0, [0, 0], w);
    PackCons(0, [0], [4, 4]);
    PackCons(0, [], [4]);
    assert [0] + [0, 0] == v && [0] + [0] == [0, 0] && [0] + [] == [0];
  }

  lemma {:induction false} EmptySlotsPack(slots: seq<Slot>)
    requires forall i :: 0 <= i < |slots| ==> slots[i] == EMPTY
    ensures PackSlots(slots) == Zeros(16 * |slots|)
  {
    hide Pack, Size;
    FieldSizes();
    if slots != [] {
      EmptyPacks();
      EmptySlotsPack(slots[1..]);
      assert Zeros(16) + Zeros(16 * (|slots| - 1)) == Zeros(16 * |slots|);
    }
  }

  lemma {:induction false} PackSlotsJoin(a: seq<Slot>, b: seq<Slot>)
    ensures PackSlots(a + b) == PackSlots(a) + PackSlots(b)
    decreases |a|
  {
    hide Pack, Size;
    FieldSizes();
    if a == [] {
      assert a + b == b;
    } else {
      assert (a + b)[0] == a[0] && (a + b)[1..] == a[1..] + b;
      PackSlotsJoin(a[1..], b);
      Regroup(Pack([a[0].epoch, a[0].valid, a[0].reserved], SLOT_FIELDS), PackSlots(a[1..]), PackSlots(b));
    }
  }

  /** Past them, a ring of at most 30 slots packs to zeros. */
  lemma BodyTail(r: Ring)
    requires WellFormed(r) && r.capacity <= IN_FIRST_SECTOR
    ensures Body(r)[512..] == Zeros(544)
  {
    hide PackSlots, Pack, Size;
    FieldSizes();
    var low, high := r.slots[..30], r.slots[30..];
    assert r.slots == low + high;
    PackSlotsJoin(low, high);
    EmptySlotsPack(high);
  }

  /** Bytes that start with a ring's body unpack to that ring or fail their checksum. */
  lemma BodyUnpacks(r: Ring, buf: seq<Byte>)
    requires Shaped(r) && |buf| >= 1056 && buf[..1056] == Body(r)
    ensures UnpackRing(buf) == None || UnpackRing(buf) == Some(r)
  {
    hide Body, ParseBody, Crc;
    BodyRoundTrip(r);
  }

  // ----- The ring as the kernel keeps it -----

  class RingIndex {
    var capacity: U32
    var count: U32
    var head: U32
    var reclaimedValid: U32
    var reclaimedEpoch: U64
    const slots: array<Slot>

    ghost predicate Valid()
      reads this, slots
    {
      slots.Length == RING_MAX && InRange(View())
    }

    ghost function View(): Ring
      reads this, slots
    {
      Ring(capacity, count, head, 0, reclaimedValid, 0, reclaimedEpoch, slots[..])
    }

    constructor (capacity: U32)
      requires 1 <= capacity <= RING_MAX
      ensures Valid() && fresh(slots) && View() == Init(capacity)
    {
      this.capacity, count, head, reclaimedValid, reclaimedEpoch := capacity, 0, 0, 0, 0;
      slots := new Slot[64](_ => EMPTY);
      new;
      assert slots[..] == Init(capacity).slots;
    }

    method Claim(epoch: U64) returns (slot: U32)
      requires Valid()
      modifies this, slots
      ensures Valid() && View() == Advance(old(View()), epoch) && slot == old(head)
    {
      slot := head;
      reclaimedValid := slots[slot].valid;
      reclaimedEpoch := if slots[slot].valid != 0 then slots[slot].epoch else 0;
      slots[slot] := slots[slot].(epoch := epoch, valid := 1);
      head := NextSlot(head, capacity);
      if count < capacity {
        count := count + 1;
      }
    }

    method Nearest(target: U64) returns (slot: Option<nat>)
      requires Valid()
      ensures slot == Find(View(), target)
    {
      slot := None;
      for i := 0 to capacity
        invariant slot == Best(slots[..], i, target)
      {
        var s := slots[i];
        if s.valid != 0 && s.epoch <= target && (slot.None? || s.epoch > slots[slot.value].epoch) {
          slot := Some(i);
        }
      }
    }
  }
}
