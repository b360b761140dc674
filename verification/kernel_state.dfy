/** The kernel-state step of the boot restore: one pass over the checkpoint's records puts every
    kernel blob back together and hands it to the subsystem that owns its tag. */
module KernelState {
  import opened Bytes
  import opened SnapshotStore
  import opened CheckpointEngine
  import opened KernelBlob

  /** One blob under reassembly. */
  datatype Slot = Slot(assembly: Assembly, complete: bool)

  datatype Delivery = Delivery(tag: U32, blob: seq<Byte>)

  /** Whether a subsystem's restorer takes its blob, given what was handed over before it. */
  type Restorers = (seq<Delivery>, Delivery) -> bool

  /** The slots in use by tag, the blobs handed over so far, and whether the pass goes on. */
  datatype Boot = Boot(slots: map<U32, Slot>, sent: seq<Delivery>, ok: bool)

  const START: Boot := Boot(map[], [], true)

  /** A new slot's buffer has the blob's size and holds whatever the allocator left there. */
  function NewSlot(total: U32, junk: nat -> Byte): Slot {
    Slot(Assembly(seq<Byte>(total, junk), 0), false)
  }

  /** One record. Records that are not kernel chunks are passed over; a seventh tag, a chunk that
      does not fit and a restorer that refuses its blob all end the pass. */
  function Step(b: Boot, r: Record, junk: nat -> Byte, accepts: Restorers): Boot {
    if !b.ok || !IsKernel(r) then b
    else if r.pid !in b.slots && |b.slots| >= MAX_BLOBS then b.(ok := false)
    else
      var total := TotalOf(r.vaddr);
      var s := if r.pid in b.slots then b.slots[r.pid] else NewSlot(total, junk);
      var (a, code) := PlaceChunk(s.assembly, total, IndexOf(r.vaddr), r.data);
      var d := Delivery(r.pid, a.buf);
      if code == Refused then b.(ok := false)
      else if code == Completed && !s.complete then
        Boot(b.slots[r.pid := Slot(a, true)], b.sent + [d], accepts(b.sent, d))
      else b.(slots := b.slots[r.pid := s.(assembly := a)])
  }

  function Pass(rs: seq<Record>, junk: nat -> Byte, accepts: Restorers): Boot {
    if rs == [] then START else Step(Pass(Init(rs), junk, accepts), Last(rs), junk, accepts)
  }

  // ----- What a checkpoint carries -----

  ghost predicate SizedBlobs(blobs: map<U32, seq<Byte>>) {
    forall t :: t in blobs ==> Sized(blobs[t])
  }

  /** r is a chunk of one of the blobs. */
  ghost predicate ChunkOf(r: Record, blobs: map<U32, seq<Byte>>)
    requires SizedBlobs(blobs)
  {
    && r.pid in blobs
    && IndexOf(r.vaddr) * CHUNK < |blobs[r.pid]|
    && r == ChunkRecord(r.pid, blobs[r.pid], IndexOf(r.vaddr))
  }

  /** The kernel records are chunks of the blobs, no chunk twice. */
  ghost predicate Fragments(rs: seq<Record>, blobs: map<U32, seq<Byte>>)
    requires SizedBlobs(blobs)
  {
    && (forall k :: 0 <= k < |rs| && IsKernel(rs[k]) ==> ChunkOf(rs[k], blobs))
    && (forall j, k :: 0 <= j < k < |rs| && IsKernel(rs[j]) ==> rs[j] != rs[k])
  }

  ghost predicate AllChunks(rs: seq<Record>, blobs: map<U32, seq<Byte>>)
    requires SizedBlobs(blobs)
  {
    forall t, i: nat :: t in blobs && i * CHUNK < |blobs[t]| ==> ChunkRecord(t, blobs[t], i) in rs
  }

  /** The records of a checkpoint hold every chunk of every blob once, anywhere among the rest. */
  ghost predicate Carries(rs: seq<Record>, blobs: map<U32, seq<Byte>>) {
    SizedBlobs(blobs) && Fragments(rs, blobs) && AllChunks(rs, blobs)
  }

  /** The chunk indices the records name for one tag, in the order they come. */
  function OrderOf(rs: seq<Record>, t: U32): seq<nat> {
    if rs == [] then []
    else OrderOf(Init(rs), t) + if IsKernel(Last(rs)) && Last(rs).pid == t then [IndexOf(Last(rs).vaddr)] else []
  }

  lemma {:induction false} OrderNames(rs: seq<Record>, t: U32, i: nat)
    ensures i in OrderOf(rs, t) <==>
              exists k :: 0 <= k < |rs| && IsKernel(rs[k]) && rs[k].pid == t && IndexOf(rs[k].vaddr) == i
  {
    if rs != [] {
      OrderNames(Init(rs), t, i);
      assert rs == Init(rs) + [Last(rs)];
      if i in OrderOf(Init(rs), t) {
        var k :| 0 <= k < |Init(rs)| && IsKernel(Init(rs)[k]) && Init(rs)[k].pid == t && IndexOf(Init(rs)[k].vaddr) == i;
        assert rs[k] == Init(rs)[k];
      }
    }
  }

  lemma ChunkIsKernel(t: U32, data: seq<Byte>, i: nat)
    requires Sized(data) && i * CHUNK < |data|
    ensures IsKernel(ChunkRecord(t, data, i)) && IndexOf(ChunkRecord(t, data, i).vaddr) == i
    ensures TotalOf(ChunkRecord(t, data, i).vaddr) == |data|
  {
    TagRoundTrip(|data|, i);
  }

  lemma {:induction false} OrderValid(rs: seq<Record>, blobs: map<U32, seq<Byte>>, t: U32)
    requires SizedBlobs(blobs) && Fragments(rs, blobs) && t in blobs
    ensures Indices(|blobs[t]|, OrderOf(rs, t)) && NoRepeat(OrderOf(rs, t))
  {
    hide ChunkRecord, IndexOf, IsKernel;
    if rs != [] {
      var r := Last(rs);
      assert Fragments(Init(rs), blobs);
      OrderValid(Init(rs), blobs, t);
      if IsKernel(r) && r.pid == t {
        var i := IndexOf(r.vaddr);
        OrderNames(Init(rs), t, i);
      }
    }
  }

  lemma OrderCovers(rs: seq<Record>, blobs: map<U32, seq<Byte>>, t: U32)
    requires Carries(rs, blobs) && t in blobs
    ensures Covers(|blobs[t]|, OrderOf(rs, t)) && OrderOf(rs, t) != []
  {
    hide ChunkRecord, IndexOf, IsKernel, OrderOf;
    forall i: nat | i * CHUNK < |blobs[t]| ensures i in OrderOf(rs, t) {
      var c := ChunkRecord(t, blobs[t], i);
      assert c in rs;
      ChunkIsKernel(t, blobs[t], i);
      OrderNames(rs, t, i);
      ChunkPid(t, blobs[t], i);
    }
    assert 0 in OrderOf(rs, t);
  }

  lemma ChunkPid(t: U32, data: seq<Byte>, i: nat)
    requires Sized(data) && i * CHUNK < |data|
    ensures ChunkRecord(t, data, i).pid == t
  {
  }

  // ----- The state of the pass after any prefix of the records -----

  ghost predicate SlotRight(s: Slot, data: seq<Byte>, order: seq<nat>, junk: nat -> Byte)
    requires Sized(data) && Indices(|data|, order)
  {
    s == Slot(Assembled(NewSlot(|data|, junk).assembly, data, order), Covers(|data|, order))
  }

  ghost predicate SlotsRight(b: Boot, rs: seq<Record>, blobs: map<U32, seq<Byte>>, junk: nat -> Byte)
    requires SizedBlobs(blobs)
  {
    && (forall t :: t in b.slots <==> t in blobs && OrderOf(rs, t) != [])
    && (forall t :: t in b.slots ==>
          Indices(|blobs[t]|, OrderOf(rs, t)) && SlotRight(b.slots[t], blobs[t], OrderOf(rs, t), junk))
  }

  /** The blobs in the order in which their last chunk comes. */
  ghost function Due(rs: seq<Record>, blobs: map<U32, seq<Byte>>): seq<Delivery> {
    if rs == [] then []
    else if Completes(rs, blobs) then Due(Init(rs), blobs) + [Delivery(Last(rs).pid, blobs[Last(rs).pid])]
    else Due(Init(rs), blobs)
  }

  /** The last record is the chunk that makes its blob whole. */
  ghost predicate Completes(rs: seq<Record>, blobs: map<U32, seq<Byte>>)
    requires rs != []
  {
    var t := Last(rs).pid;
    IsKernel(Last(rs)) && t in blobs && Covers(|blobs[t]|, OrderOf(rs, t))
  }

  /** Every restorer takes its blob when its turn comes. */
  ghost predicate AllAccepted(ds: seq<Delivery>, accepts: Restorers) {
    forall k :: 0 <= k < |ds| ==> accepts(ds[..k], ds[k])
  }

  lemma AcceptedPush(ds: seq<Delivery>, d: Delivery, accepts: Restorers)
    ensures AllAccepted(ds + [d], accepts) <==> AllAccepted(ds, accepts) && accepts(ds, d)
  {
    var all := ds + [d];
    assert all[..|ds|] == ds;
    assert forall k :: 0 <= k < |ds| ==> all[..k] == ds[..k] && all[k] == ds[k];
    if AllAccepted(all, accepts) {
      assert accepts(all[..|ds|], all[|ds|]);
      forall k | 0 <= k < |ds| ensures accepts(ds[..k], ds[k]) {
        assert accepts(all[..k], all[k]);
      }
    }
  }

  lemma SlotsFit(b: Boot, blobs: map<U32, seq<Byte>>, t: U32)
    requires |blobs| <= MAX_BLOBS && t in blobs && t !in b.slots
    requires forall u :: u in b.slots ==> u in blobs
    ensures |b.slots| < MAX_BLOBS
  {
    SubsetSize(b.slots.Keys + {t}, blobs.Keys);
    assert |b.slots.Keys + {t}| == |b.slots.Keys| + 1;
    assert |b.slots.Keys| == |b.slots| && |blobs.Keys| == |blobs|;
  }

  lemma {:induction false} SubsetSize(a: set<U32>, b: set<U32>)
    requires a <= b
    ensures |a| <= |b|
  {
    if a != {} {
      var x :| x in a;
      SubsetSize(a - {x}, b - {x});
    }
  }

  /** The slot a chunk lands in, before and after. */
  lemma SlotStep(rs: seq<Record>, blobs: map<U32, seq<Byte>>, junk: nat -> Byte, s: Slot)
    requires SizedBlobs(blobs) && Fragments(rs, blobs) && rs != [] && IsKernel(Last(rs))
    requires
      var t := Last(rs).pid;
      t in blobs && Indices(|blobs[t]|, OrderOf(Init(rs), t)) &&
      SlotRight(s, blobs[t], OrderOf(Init(rs), t), junk)
    ensures
      var r := Last(rs);
      var t, data := r.pid, blobs[r.pid];
      && TotalOf(r.vaddr) == |data|
      && OrderOf(rs, t) == OrderOf(Init(rs), t) + [IndexOf(r.vaddr)]
      && Indices(|data|, OrderOf(rs, t))
      && !s.complete
      && var (a, code) := PlaceChunk(s.assembly, |data|, IndexOf(r.vaddr), r.data);
      && code == (if Covers(|data|, OrderOf(rs, t)) then Completed else Placed)
      && a == Assembled(NewSlot(|data|, junk).assembly, data, OrderOf(rs, t))
      && (Covers(|data|, OrderOf(rs, t)) ==> a.buf == data)
  {
    hide IndexOf, TotalOf, PlaceChunk, IsKernel, ChunkData;
    var r := Last(rs);
    var t, i := r.pid, IndexOf(r.vaddr);
    var data := blobs[t];
    assert rs[|rs| - 1] == r && ChunkOf(r, blobs);
    ChunkIsKernel(t, data, i);
    OrderValid(rs, blobs, t);
    OrderValid(Init(rs), blobs, t) by { assert Fragments(Init(rs), blobs); }
    var order := OrderOf(rs, t);
    assert Init(order) == OrderOf(Init(rs), t) && Last(order) == i;
    assert i !in OrderOf(Init(rs), t);
    assert i * CHUNK < |data|;
    assert !Covers(|data|, OrderOf(Init(rs), t));
    Reassembles(NewSlot(|data|, junk).assembly, data, order);
    NewSlotSize(|data|, junk);
  }

  lemma NewSlotSize(total: U32, junk: nat -> Byte)
    ensures |NewSlot(total, junk).assembly.buf| == total
  {
  }

  lemma EmptyOrder(data: seq<Byte>, junk: nat -> Byte)
    requires Sized(data)
    ensures Indices(|data|, []) && SlotRight(NewSlot(|data|, junk), data, [], junk)
  {
    var none: seq<nat> := [];
    assert 0 * CHUNK < |data| && 0 !in none;
  }

  /** The slot the pass uses for a chunk is the right one whether it is new or not. */
  lemma SlotFor(b: Boot, rs: seq<Record>, blobs: map<U32, seq<Byte>>, junk: nat -> Byte, t: U32)
    requires SizedBlobs(blobs) && SlotsRight(b, rs, blobs, junk) && t in blobs
    ensures Indices(|blobs[t]|, OrderOf(rs, t))
    ensures SlotRight(if t in b.slots then b.slots[t] else NewSlot(|blobs[t]|, junk), blobs[t], OrderOf(rs, t), junk)
  {
    hide SlotRight, OrderOf;
    if t !in b.slots {
      assert OrderOf(rs, t) == [];
      EmptyOrder(blobs[t], junk);
    }
  }

  lemma OrderElsewhere(rs: seq<Record>, t: U32)
    requires rs != [] && !(IsKernel(Last(rs)) && Last(rs).pid == t)
    ensures OrderOf(rs, t) == OrderOf(Init(rs), t)
  {
  }

  /** After any prefix: the pass goes on exactly while every blob due was accepted; it has then
      handed over those blobs and its slots are right. */
  lemma {:induction false} PassRight(rs: seq<Record>, blobs: map<U32, seq<Byte>>, junk: nat -> Byte, accepts: Restorers)
    requires SizedBlobs(blobs) && Fragments(rs, blobs) && |blobs| <= MAX_BLOBS
    ensures
      var b := Pass(rs, junk, accepts);
      && (b.ok <==> AllAccepted(Due(rs, blobs), accepts))
      && (b.ok ==> SlotsRight(b, rs, blobs, junk) && b.sent == Due(rs, blobs))
  {
    if rs != [] {
      FragmentsInit(rs, blobs);
      hide Step, SlotsRight, AllAccepted, Completes, Fragments;
      PassRight(Init(rs), blobs, junk, accepts);
      var b := Pass(Init(rs), junk, accepts);
      if b.ok {
        StepRight(b, rs, blobs, junk, accepts);
      } else {
        Stopped(b, Last(rs), junk, accepts);
      }
      if Completes(rs, blobs) {
        CompletesTag(rs, blobs);
        AcceptedPush(Due(Init(rs), blobs), Delivery(Last(rs).pid, blobs[Last(rs).pid]), accepts);
      }
    }
  }

  lemma FragmentsInit(rs: seq<Record>, blobs: map<U32, seq<Byte>>)
    requires SizedBlobs(blobs) && Fragments(rs, blobs) && rs != []
    ensures Fragments(Init(rs), blobs)
  {
  }

  lemma CompletesTag(rs: seq<Record>, blobs: map<U32, seq<Byte>>)
    requires rs != [] && Completes(rs, blobs)
    ensures Last(rs).pid in blobs
  {
  }

  lemma Stopped(b: Boot, r: Record, junk: nat -> Byte, accepts: Restorers)
    requires !b.ok
    ensures Step(b, r, junk, accepts) == b
  {
  }

  lemma StepRight(b: Boot, rs: seq<Record>, blobs: map<U32, seq<Byte>>, junk: nat -> Byte, accepts: Restorers)
    requires SizedBlobs(blobs) && Fragments(rs, blobs) && |blobs| <= MAX_BLOBS && rs != []
    requires b.ok && SlotsRight(b, Init(rs), blobs, junk)
    ensures
      var c, t := Step(b, Last(rs), junk, accepts), Last(rs).pid;
      if Completes(rs, blobs) then
        && c.ok == accepts(b.sent, Delivery(t, blobs[t]))
        && SlotsRight(c, rs, blobs, junk) && c.sent == b.sent + [Delivery(t, blobs[t])]
      else c.ok && SlotsRight(c, rs, blobs, junk) && c.sent == b.sent
  {
    hide OrderOf, SlotRight, IsKernel, PlaceChunk, IndexOf, TotalOf, ChunkOf, Covers;
    var r := Last(rs);
    forall t | !(IsKernel(r) && r.pid == t) ensures OrderOf(rs, t) == OrderOf(Init(rs), t) {
      OrderElsewhere(rs, t);
    }
    if IsKernel(r) {
      KernelStepRight(b, rs, blobs, junk, accepts);
    }
  }

  /** What one chunk does to the pass. */
  lemma ChunkStep(b: Boot, rs: seq<Record>, blobs: map<U32, seq<Byte>>, junk: nat -> Byte, accepts: Restorers)
    requires SizedBlobs(blobs) && Fragments(rs, blobs) && |blobs| <= MAX_BLOBS && rs != [] && IsKernel(Last(rs))
    requires b.ok && SlotsRight(b, Init(rs), blobs, junk)
    ensures
      var t := Last(rs).pid;
      && t in blobs
      && OrderOf(rs, t) != [] && Indices(|blobs[t]|, OrderOf(rs, t))
      && var c, d, full := Step(b, Last(rs), junk, accepts), Delivery(t, blobs[t]), Covers(|blobs[t]|, OrderOf(rs, t));
      && t in c.slots && c.slots == b.slots[t := c.slots[t]]
      && SlotRight(c.slots[t], blobs[t], OrderOf(rs, t), junk)
      && c.sent == (if full then b.sent + [d] else b.sent)
      && c.ok == (full ==> accepts(b.sent, d))
  {
    hide OrderOf, IsKernel, PlaceChunk, IndexOf, TotalOf, NewSlot, Assembled, Covers, Indices;
    var r := Last(rs);
    var t := r.pid;
    assert rs[|rs| - 1] == r && ChunkOf(r, blobs);
    SlotFor(b, Init(rs), blobs, junk, t);
    var s := if t in b.slots then b.slots[t] else NewSlot(|blobs[t]|, junk);
    SlotStep(rs, blobs, junk, s);
    if t !in b.slots {
      SlotsFit(b, blobs, t);
    }
  }

  lemma KernelStepRight(b: Boot, rs: seq<Record>, blobs: map<U32, seq<Byte>>, junk: nat -> Byte, accepts: Restorers)
    requires SizedBlobs(blobs) && Fragments(rs, blobs) && |blobs| <= MAX_BLOBS && rs != [] && IsKernel(Last(rs))
    requires b.ok && SlotsRight(b, Init(rs), blobs, junk)
    requires forall t :: t != Last(rs).pid ==> OrderOf(rs, t) == OrderOf(Init(rs), t)
    ensures
      var c, t := Step(b, Last(rs), junk, accepts), Last(rs).pid;
      && t in blobs
      && SlotsRight(c, rs, blobs, junk)
      && var d, full := Delivery(t, blobs[t]), Covers(|blobs[t]|, OrderOf(rs, t));
      && c.sent == (if full then b.sent + [d] else b.sent)
      && c.ok == (full ==> accepts(b.sent, d))
  {
    hide OrderOf, IsKernel, Fragments, SlotRight, Step, Indices, Covers;
    ChunkStep(b, rs, blobs, junk, accepts);
  }

  /** Only blobs of the checkpoint are ever due, none twice, and only once all its chunks came. */
  lemma {:induction false} DueOnce(rs: seq<Record>, blobs: map<U32, seq<Byte>>)
    requires SizedBlobs(blobs) && Fragments(rs, blobs)
    ensures forall t :: t in blobs ==> (Delivery(t, blobs[t]) in Due(rs, blobs) <==> Covers(|blobs[t]|, OrderOf(rs, t)))
    ensures forall d :: d in Due(rs, blobs) ==> d.tag in blobs && d.blob == blobs[d.tag]
    ensures forall j, k :: 0 <= j < k < |Due(rs, blobs)| ==> Due(rs, blobs)[j].tag != Due(rs, blobs)[k].tag
  {
    hide OrderOf, IsKernel, Covers, ChunkOf;
    if rs == [] {
      forall t | t in blobs ensures !Covers(|blobs[t]|, OrderOf(rs, t)) {
        NothingCovered(blobs[t], t);
      }
    } else {
      var init, r := Init(rs), Last(rs);
      assert Fragments(init, blobs);
      DueOnce(init, blobs);
      forall t | t in blobs && !(IsKernel(r) && r.pid == t)
        ensures OrderOf(rs, t) == OrderOf(init, t)
      {
        OrderElsewhere(rs, t);
      }
      if IsKernel(r) {
        NotYetCovered(rs, blobs);
        var t := r.pid;
        var before := Due(init, blobs);
        forall k | 0 <= k < |before| ensures before[k].tag != t {
          assert before[k] in before;
          assert before[k] == Delivery(before[k].tag, blobs[before[k].tag]);
        }
      }
    }
  }

  lemma NothingCovered(data: seq<Byte>, t: U32)
    requires Sized(data)
    ensures !Covers(|data|, OrderOf([], t))
  {
    var none := OrderOf([], t);
    assert 0 * CHUNK < |data| && 0 !in none;
  }

  /** The chunk that comes last was still missing before. */
  lemma NotYetCovered(rs: seq<Record>, blobs: map<U32, seq<Byte>>)
    requires SizedBlobs(blobs) && Fragments(rs, blobs) && rs != [] && IsKernel(Last(rs))
    ensures Last(rs).pid in blobs && !Covers(|blobs[Last(rs).pid]|, OrderOf(Init(rs), Last(rs).pid))
  {
    hide IndexOf, IsKernel;
    var r := Last(rs);
    var t, i := r.pid, IndexOf(r.vaddr);
    assert rs[|rs| - 1] == r && ChunkOf(r, blobs);
    OrderValid(rs, blobs, t);
    var order := OrderOf(rs, t);
    assert Init(order) == OrderOf(Init(rs), t) && Last(order) == i;
    assert forall j :: 0 <= j < |Init(order)| ==> order[j] == Init(order)[j] != order[|order| - 1];
    assert i !in OrderOf(Init(rs), t);
  }

  ghost predicate SentOnce(b: Boot) {
    && (forall i :: 0 <= i < |b.sent| && b.ok ==> b.sent[i].tag in b.slots && b.slots[b.sent[i].tag].complete)
    && (forall i, j :: 0 <= i < j < |b.sent| ==> b.sent[i].tag != b.sent[j].tag)
  }

  /** Whatever the records are, repeated chunks included, no tag is handed over twice. */
  lemma {:induction false} NoTagTwice(rs: seq<Record>, junk: nat -> Byte, accepts: Restorers)
    ensures SentOnce(Pass(rs, junk, accepts))
  {
    if rs != [] {
      hide Step, Pass, SentOnce;
      NoTagTwice(Init(rs), junk, accepts);
      PassStep(rs, junk, accepts);
      StepSendsOnce(Pass(Init(rs), junk, accepts), Last(rs), junk, accepts);
    }
  }

  lemma StepSendsOnce(b: Boot, r: Record, junk: nat -> Byte, accepts: Restorers)
    requires SentOnce(b)
    ensures SentOnce(Step(b, r, junk, accepts))
  {
    hide PlaceChunk, IsKernel, NewSlot, TotalOf, IndexOf;
  }

  /** The tags kernel records come under. */
  function KernelTags(rs: seq<Record>): set<U32> {
    set r | r in rs && IsKernel(r) :: r.pid
  }

  /** A pass that goes on has a slot for every tag, of six. */
  lemma {:induction false} SlotsByTag(rs: seq<Record>, junk: nat -> Byte, accepts: Restorers)
    ensures var b := Pass(rs, junk, accepts); b.ok ==> b.slots.Keys == KernelTags(rs) && |b.slots| <= 6
  {
    if rs != [] {
      hide Pass, Step, IsKernel, KernelTags;
      var init, r := Init(rs), Last(rs);
      SlotsByTag(init, junk, accepts);
      PassStep(rs, junk, accepts);
      TagsPush(init, r);
      assert rs == init + [r];
      var b := Pass(init, junk, accepts);
      if b.ok {
        StepKeys(b, r, junk, accepts);
      } else {
        Stopped(b, r, junk, accepts);
      }
    } else {
      assert KernelTags(rs) == {};
    }
  }

  lemma TagsPush(rs: seq<Record>, r: Record)
    ensures KernelTags(rs + [r]) == KernelTags(rs) + if IsKernel(r) then {r.pid} else {}
  {
    hide IsKernel;
    assert forall x :: x in rs + [r] <==> x in rs || x == r;
  }

  lemma StepOpens(b: Boot, r: Record, junk: nat -> Byte, accepts: Restorers)
    requires b.ok
    ensures
      var c := Step(b, r, junk, accepts);
      if !IsKernel(r) then c == b
      else c.ok ==> && (r.pid in b.slots || |b.slots| < 6) && r.pid in c.slots
                    && c.slots == b.slots[r.pid := c.slots[r.pid]]
  {
    hide PlaceChunk, IsKernel, NewSlot, TotalOf, IndexOf;
  }

  lemma KeysPush<T>(m: map<U32, T>, t: U32, x: T)
    ensures m[t := x].Keys == m.Keys + {t}
    ensures |m[t := x]| == |m| + if t in m then 0 else 1
  {
    assert |m[t := x].Keys| == |m[t := x]| && |m.Keys| == |m|;
    if t in m {
      assert m.Keys + {t} == m.Keys;
    }
  }

  /** A record opens at most the slot of its tag, and never a seventh. */
  lemma StepKeys(b: Boot, r: Record, junk: nat -> Byte, accepts: Restorers)
    requires b.ok && |b.slots| <= 6
    ensures
      var c := Step(b, r, junk, accepts);
      c.ok ==> c.slots.Keys == b.slots.Keys + (if IsKernel(r) then {r.pid} else {}) && |c.slots| <= 6
  {
    hide Step, IsKernel;
    StepOpens(b, r, junk, accepts);
    var c := Step(b, r, junk, accepts);
    if c.ok && IsKernel(r) {
      KeysPush(b.slots, r.pid, c.slots[r.pid]);
    }
  }

  lemma PassStart(junk: nat -> Byte, accepts: Restorers)
    ensures Pass([], junk, accepts) == START
  {
  }

  lemma PassNext(rs: seq<Record>, k: nat, junk: nat -> Byte, accepts: Restorers)
    requires k < |rs|
    ensures Pass(rs[..k + 1], junk, accepts) == Step(Pass(rs[..k], junk, accepts), rs[k], junk, accepts)
  {
    hide Step;
    assert Init(rs[..k + 1]) == rs[..k] && Last(rs[..k + 1]) == rs[k];
  }

  lemma PassStep(rs: seq<Record>, junk: nat -> Byte, accepts: Restorers)
    requires rs != []
    ensures Pass(rs, junk, accepts) == Step(Pass(Init(rs), junk, accepts), Last(rs), junk, accepts)
  {
  }

  lemma CarriedTags(rs: seq<Record>, blobs: map<U32, seq<Byte>>)
    requires Carries(rs, blobs)
    ensures KernelTags(rs) == blobs.Keys
  {
    hide ChunkRecord, IsKernel;
    forall t | t in blobs ensures t in KernelTags(rs) {
      assert 0 * CHUNK < |blobs[t]|;
      var c := ChunkRecord(t, blobs[t], 0);
      assert c in rs;
      ChunkIsKernel(t, blobs[t], 0);
      ChunkPid(t, blobs[t], 0);
    }
    forall r | r in rs && IsKernel(r) ensures r.pid in blobs {
      var k :| 0 <= k < |rs| && rs[k] == r;
      assert ChunkOf(rs[k], blobs);
    }
  }

  /** Whatever the order of the records and whatever lies between them: the blobs fall due once
      each, byte for byte, and nothing else does; the pass succeeds exactly when there are at most
      six and every subsystem takes its blob after those due before it, and then it has handed over
      just these, in that order. */
  lemma KernelStateRestored(rs: seq<Record>, blobs: map<U32, seq<Byte>>, junk: nat -> Byte, accepts: Restorers)
    requires Carries(rs, blobs)
    ensures
      var b, due := Pass(rs, junk, accepts), Due(rs, blobs);
      && (forall d: Delivery :: d in due <==> d.tag in blobs && d.blob == blobs[d.tag])
      && (forall j, k :: 0 <= j < k < |due| ==> due[j].tag != due[k].tag)
      && (b.ok <==> |blobs| <= 6 && AllAccepted(due, accepts))
      && (b.ok ==> b.sent == due)
  {
    hide Pass, OrderOf, Fragments, AllChunks, Covers, Due, AllAccepted, KernelTags;
    if |blobs| <= 6 {
      PassRight(rs, blobs, junk, accepts);
    } else {
      SlotsByTag(rs, junk, accepts);
      CarriedTags(rs, blobs);
      var b := Pass(rs, junk, accepts);
      assert |b.slots.Keys| == |b.slots| && |blobs.Keys| == |blobs|;
    }
    DueOnce(rs, blobs);
    forall d: Delivery | d.tag in blobs && d.blob == blobs[d.tag] ensures d in Due(rs, blobs) {
      OrderCovers(rs, blobs, d.tag);
      assert d == Delivery(d.tag, blobs[d.tag]);
    }
  }

  // ----- The loop -----

  lemma {:induction false} PassStopped(rs: seq<Record>, k: nat, junk: nat -> Byte, accepts: Restorers)
    requires k <= |rs| && !Pass(rs[..k], junk, accepts).ok
    ensures Pass(rs, junk, accepts) == Pass(rs[..k], junk, accepts)
  {
    if k < |rs| {
      assert Init(rs)[..k] == rs[..k];
      PassStopped(Init(rs), k, junk, accepts);
    } else {
      assert rs[..k] == rs;
    }
  }

  /** The loop computes the pass, leaving it at the first failure. */
  method RestoreKernelState(rs: seq<Record>, junk: nat -> Byte, accepts: Restorers)
    returns (ok: bool, sent: seq<Delivery>)
    ensures ok == Pass(rs, junk, accepts).ok && sent == Pass(rs, junk, accepts).sent
  {
    hide PlaceChunk, IsKernel, TotalOf, IndexOf, NewSlot, Pass, Init, Last;
    var slots: map<U32, Slot> := map[];
    ok, sent := true, [];
    assert rs[..0] == [];
    PassStart(junk, accepts);
    for k := 0 to |rs|
      invariant ok && Pass(rs[..k], junk, accepts) == Boot(slots, sent, ok)
    {
      var r := rs[k];
      PassNext(rs, k, junk, accepts);
      if !IsKernel(r) {
        continue;
      }
      var total := TotalOf(r.vaddr);
      if r.pid !in slots {
        if |slots| >= MAX_BLOBS {
          PassStopped(rs, k + 1, junk, accepts);
          return false, sent;
        }
        slots := slots[r.pid := NewSlot(total, junk)];
      }
      var s := slots[r.pid];
      var (a, code) := PlaceChunk(s.assembly, total, IndexOf(r.vaddr), r.data);
      if code == Refused {
        PassStopped(rs, k + 1, junk, accepts);
        return false, sent;
      }
      slots := slots[r.pid := s.(assembly := a)];
      if code == Completed && !s.complete {
        slots := slots[r.pid := Slot(a, true)];
        var taken := accepts(sent, Delivery(r.pid, a.buf));
        sent := sent + [Delivery(r.pid, a.buf)];
        if !taken {
          PassStopped(rs, k + 1, junk, accepts);
          return false, sent;
        }
      }
    }
    assert rs[..|rs|] == rs;
  }

  // ----- Capture makes a checkpoint carry its blobs -----

  ghost predicate NoKernel(rs: seq<Record>) {
    forall k :: 0 <= k < |rs| ==> !IsKernel(rs[k])
  }

  lemma CarriesNothing(rs: seq<Record>)
    requires NoKernel(rs)
    ensures Carries(rs, map[])
  {
  }

  /** The other records of the checkpoint do not matter. */
  lemma CarriesAmong(before: seq<Record>, rs: seq<Record>, after: seq<Record>, blobs: map<U32, seq<Byte>>)
    requires NoKernel(before) && NoKernel(after) && Carries(rs, blobs)
    ensures Carries(before + rs + after, blobs)
  {
    hide IsKernel, ChunkOf, ChunkRecord;
    var all := before + rs + after;
    forall r | r in rs ensures r in all {
      var k :| 0 <= k < |rs| && rs[k] == r;
      assert all[|before| + k] == r;
    }
  }

  lemma {:induction false} CapturedHolds(t: U32, data: seq<Byte>, n: nat, captures: seq<Record>, r: Record)
    requires Sized(data) && (n > 0 ==> (n - 1) * CHUNK < |data|)
    ensures r in Captured(t, data, n, captures) <==>
              r in captures || exists i: nat {:trigger ChunkRecord(t, data, i)} :: i < n && r == ChunkRecord(t, data, i)
  {
    hide ChunkRecord;
    if n > 0 {
      CapturedHolds(t, data, n - 1, captures, r);
    }
  }

  lemma ChunksDiffer(t: U32, data: seq<Byte>, i: nat, j: nat)
    requires Sized(data) && i < j && j * CHUNK < |data|
    ensures ChunkRecord(t, data, i) != ChunkRecord(t, data, j)
  {
    ChunkIsKernel(t, data, i);
    ChunkIsKernel(t, data, j);
  }

  lemma ChunkOfIts(t: U32, data: seq<Byte>, i: nat, blobs: map<U32, seq<Byte>>)
    requires SizedBlobs(blobs) && t in blobs && blobs[t] == data && i * CHUNK < |data|
    ensures ChunkOf(ChunkRecord(t, data, i), blobs)
  {
    ChunkIsKernel(t, data, i);
  }

  lemma {:induction false} CapturedFragments(t: U32, data: seq<Byte>, n: nat, captures: seq<Record>, blobs: map<U32, seq<Byte>>)
    requires Sized(data) && (n > 0 ==> (n - 1) * CHUNK < |data|)
    requires SizedBlobs(blobs) && Fragments(captures, blobs) && t !in blobs
    ensures Fragments(Captured(t, data, n, captures), blobs[t := data])
  {
    hide IsKernel, ChunkRecord, ChunkOf;
    var more := blobs[t := data];
    if n == 0 {
      forall k | 0 <= k < |captures| && IsKernel(captures[k]) ensures ChunkOf(captures[k], more) {
        ChunkOfMore(captures[k], blobs, t, data);
      }
    } else {
      CapturedFragments(t, data, n - 1, captures, blobs);
      var c, rest := ChunkRecord(t, data, n - 1), Captured(t, data, n - 1, captures);
      ChunkOfIts(t, data, n - 1, more);
      ChunkIsKernel(t, data, n - 1);
      ChunkPid(t, data, n - 1);
      CapturedHolds(t, data, n - 1, captures, c);
      forall i: nat | i < n - 1 ensures ChunkRecord(t, data, i) != c {
        ChunksDiffer(t, data, i, n - 1);
      }
      forall k | 0 <= k < |captures| ensures captures[k] != c {
        if IsKernel(captures[k]) {
          ChunkOfNot(captures[k], blobs);
        }
      }
      assert c !in rest;
    }
  }

  lemma ChunkOfMore(r: Record, blobs: map<U32, seq<Byte>>, t: U32, data: seq<Byte>)
    requires SizedBlobs(blobs) && ChunkOf(r, blobs) && t !in blobs && Sized(data)
    ensures ChunkOf(r, blobs[t := data])
  {
  }

  lemma ChunkOfNot(r: Record, blobs: map<U32, seq<Byte>>)
    requires SizedBlobs(blobs) && ChunkOf(r, blobs)
    ensures r.pid in blobs
  {
  }

  /** Capturing one more blob, under a tag of its own, adds it to what the checkpoint carries. */
  lemma CapturedCarries(t: U32, data: seq<Byte>, captures: seq<Record>, blobs: map<U32, seq<Byte>>)
    requires Sized(data) && Carries(captures, blobs) && t !in blobs
    ensures ChunkCount(|data|) > 0 && (ChunkCount(|data|) - 1) * CHUNK < |data|
    ensures Carries(Captured(t, data, ChunkCount(|data|), captures), blobs[t := data])
  {
    hide ChunkRecord, ChunkCount, Captured, Fragments;
    ChunkCountExact(|data|, 0);
    var n := ChunkCount(|data|);
    ChunkCountExact(|data|, n - 1);
    CapturedFragments(t, data, n, captures, blobs);
    var more := blobs[t := data];
    forall u, i: nat | u in more && i * CHUNK < |more[u]|
      ensures ChunkRecord(u, more[u], i) in Captured(t, data, n, captures)
    {
      ChunkCountExact(|data|, i);
      CapturedHolds(t, data, n, captures, ChunkRecord(u, more[u], i));
    }
  }
}
