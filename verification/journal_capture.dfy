/** Writing one epoch's recorded deltas as journal events, and splitting them apart again. */
module JournalCapture {
  import opened Bytes
  import opened Disk
  import opened JournalStore

  const EV_TIMER: U32 := 3
  const EV_ENTROPY: U32 := 4
  const EV_SCHED: U32 := 5
  const EV_DIVERGE: U32 := 6
  const MAX_DELTAS: nat := 4096

  /** Injected delta sources; a missing one is skipped. */
  datatype Sources = Sources(points: Option<seq<U64>>, times: Option<seq<U64>>,
                             entropy: Option<seq<Byte>>, sums: Option<seq<(U32, U32)>>) {
    /** Counts are 32-bit in the kernel. */
    ghost predicate Counted() {
      && (times.Some? ==> |times.value| < 0x1_0000_0000)
      && (entropy.Some? ==> |entropy.value| < 0xFFFF_FFF8)
    }
  }

  datatype Deltas = Deltas(points: seq<U64>, times: seq<U64>, entropy: seq<Byte>)

  function OrEmpty<T>(o: Option<seq<T>>): seq<T> {
    if o.Some? then o.value else []
  }

  function Recorded(src: Sources): Deltas {
    Deltas(OrEmpty(src.points), OrEmpty(src.times), OrEmpty(src.entropy))
  }

  // ----- Capture -----

  function SchedEvents(pts: seq<U64>): seq<Event> {
    if pts == [] then [] else SchedEvents(pts[..|pts| - 1]) + [Event(EV_SCHED, pts[|pts| - 1], pts[|pts| - 1], 0)]
  }

  function TimerEvents(vals: seq<U64>): seq<Event>
    requires |vals| < 0x1_0000_0000
  {
    if vals == [] then []
    else TimerEvents(vals[..|vals| - 1]) + [Event(EV_TIMER, |vals| - 1, vals[|vals| - 1], 0)]
  }

  /** The chunk that ends an entropy run: one to eight bytes. */
  function LastChunk(n: nat): nat
    requires n > 0
  {
    if n % 8 == 0 then 8 else n % 8
  }

  function ChunkEvent(off: U64, chunk: seq<Byte>): Event
    requires 1 <= |chunk| <= 8
  {
    ChunkBound(chunk);
    Event(EV_ENTROPY, off, UnLE(chunk), |chunk|)
  }

  lemma ChunkBound(chunk: seq<Byte>)
    requires |chunk| <= 8
    ensures UnLE(chunk) < 0x1_0000_0000_0000_0000
  {
    FieldWidths();
    PowMonotone(|chunk|, 8);
  }

  lemma {:induction false} PowMonotone(a: nat, b: nat)
    requires a <= b
    ensures Pow256(a) <= Pow256(b)
    decreases b - a
  {
    if a < b {
      PowMonotone(a + 1, b);
    }
  }

  function EntropyEvents(bytes: seq<Byte>): seq<Event>
    requires |bytes| < 0xFFFF_FFF8
    decreases |bytes|
  {
    if bytes == [] then []
    else
      var off := |bytes| - LastChunk(|bytes|);
      EntropyEvents(bytes[..off]) + [ChunkEvent(off, bytes[off..])]
  }

  function DivergeEvents(sums: seq<(U32, U32)>): seq<Event> {
    if sums == [] then []
    else
      var last := sums[|sums| - 1];
      DivergeEvents(sums[..|sums| - 1]) + [Event(EV_DIVERGE, last.0, last.1, 0)]
  }

  /** Scheduler points, time reads, the entropy run, then the divergence checksums. */
  function CaptureEvents(src: Sources): seq<Event>
    requires src.Counted()
  {
    SchedEvents(OrEmpty(src.points)) + TimerEvents(OrEmpty(src.times))
    + EntropyEvents(OrEmpty(src.entropy)) + DivergeEvents(OrEmpty(src.sums))
  }

  lemma {:induction false} UnLEAppend(s: seq<Byte>, b: Byte)
    ensures UnLE(s + [b]) == UnLE(s) + Pow256(|s|) * b
  {
    if s == [] {
      assert s + [b] == [b];
      assert [b][1..] == [];
    } else {
      UnLEAppend(s[1..], b);
      assert (s + [b])[1..] == s[1..] + [b];
      assert 256 * (Pow256(|s| - 1) * b) == Pow256(|s|) * b;
    }
  }

  /** The byte-packing loop. */
  method PackChunk(bytes: seq<Byte>, off: nat, n: nat) returns (packed: nat)
    requires off + n <= |bytes| && n <= 8
    ensures packed == UnLE(bytes[off..off + n])
  {
    packed := 0;
    assert bytes[off..off] == [];
    for b := 0 to n
      invariant packed == UnLE(bytes[off..off + b])
    {
      assert bytes[off..off + b + 1] == bytes[off..off + b] + [bytes[off + b]];
      UnLEAppend(bytes[off..off + b], bytes[off + b]);
      packed := packed + Pow256(b) * bytes[off + b];
    }
  }

  lemma EntropyStep(bytes: seq<Byte>, off: nat, n: nat)
    requires off % 8 == 0 && 1 <= n <= 8 && off + n <= |bytes| < 0xFFFF_FFF8
    ensures EntropyEvents(bytes[..off + n]) == EntropyEvents(bytes[..off]) + [ChunkEvent(off, bytes[off..off + n])]
  {
    var upto := bytes[..off + n];
    assert LastChunk(|upto|) == n;
    assert upto[..off] == bytes[..off] && upto[off..] == bytes[off..off + n];
  }

  lemma NoEntropy(bytes: seq<Byte>)
    ensures EntropyEvents(bytes[..0]) == []
  {
  }

  method PackEntropy(bytes: seq<Byte>) returns (es: seq<Event>)
    requires |bytes| < 0xFFFF_FFF8
    ensures es == EntropyEvents(bytes)
  {
    hide UnLE, EntropyEvents;
    es := [];
    var off := 0;
    NoEntropy(bytes);
    while off < |bytes|
      invariant off <= |bytes| && (off < |bytes| ==> off % 8 == 0)
      invariant es == EntropyEvents(bytes[..off])
      decreases |bytes| - off
    {
      var n := if |bytes| - off < 8 then |bytes| - off else 8;
      var packed := PackChunk(bytes, off, n);
      EntropyStep(bytes, off, n);
      ChunkBound(bytes[off..off + n]);
      es := es + [Event(EV_ENTROPY, off, packed, n)];
      off := off + n;
    }
    assert bytes[..|bytes|] == bytes;
  }

  /** journal_capture_epoch: gather the deltas in order and commit them as one journal. */
  method CaptureEpoch(dev: Device, g: Area, epoch: U64, baseLclock: U64, src: Sources) returns (rc: Code)
    requires g.Valid() && src.Counted()
    modifies dev
    ensures dev.disk == Cut(old(dev.disk), JournalWrites(old(dev.disk), g, Journal(epoch, baseLclock, CaptureEvents(src))),
                            old(dev.budget))
    ensures rc == Ok <==> Commits(g, Attempt(Journal(epoch, baseLclock, CaptureEvents(src)), old(dev.budget)))
  {
    hide JournalWrites, Commits, Cut, EntropyEvents;
    var es: seq<Event> := [];
    var pts, vals, sums := OrEmpty(src.points), OrEmpty(src.times), OrEmpty(src.sums);
    for i := 0 to |pts|
      invariant es == SchedEvents(pts[..i])
    {
      assert pts[..i + 1][..i] == pts[..i];
      es := es + [Event(EV_SCHED, pts[i], pts[i], 0)];
    }
    assert pts[..|pts|] == pts;
    ghost var sched := es;
    for i := 0 to |vals|
      invariant es == sched + TimerEvents(vals[..i])
    {
      assert vals[..i + 1][..i] == vals[..i];
      es := es + [Event(EV_TIMER, i, vals[i], 0)];
    }
    assert vals[..|vals|] == vals;
    var chunks := PackEntropy(OrEmpty(src.entropy));
    es := es + chunks;
    ghost var before := es;
    for i := 0 to |sums|
      invariant es == before + DivergeEvents(sums[..i])
    {
      assert sums[..i + 1][..i] == sums[..i];
      es := es + [Event(EV_DIVERGE, sums[i].0, sums[i].1, 0)];
    }
    assert sums[..|sums|] == sums;
    rc := WriteJournal(dev, g, Journal(epoch, baseLclock, es));
  }

  // ----- Split -----

  /** Valid bytes of an event's payload. */
  function Payload(e: Event): (s: seq<Byte>)
    ensures |s| == if e.len <= 8 then e.len else 8
  {
    LE(e.value, if e.len <= 8 then e.len else 8)
  }

  /** An entropy event gives the first bytes of its value, never more than eight, whatever its length
      field says. */
  lemma EntropyGiven(e: Event, i: nat)
    requires e.kind == 4 && i < 8 && i < e.len
    ensures var got := SplitAll(Deltas([], [], []), [e]).entropy; |got| <= 8 && |got| <= e.len && i < |got|
    ensures SplitAll(Deltas([], [], []), [e]).entropy[i] == LE(e.value, 8)[i]
  {
    hide LE;
    assert [e][1..] == [];
    var n := if e.len <= 8 then e.len else 8;
    LEPrefix(e.value, n, 8);
    assert [] + LE(e.value, n) == LE(e.value, n);
  }

  lemma {:induction false} LEPrefix(v: nat, n: nat, m: nat)
    requires n <= m
    ensures LE(v, n) == LE(v, m)[..n]
    decreases n
  {
    if n > 0 {
      LEPrefix(v / 256, n - 1, m - 1);
    }
  }

  function Absorb(acc: Deltas, e: Event): Deltas {
    if e.kind == EV_SCHED then acc.(points := acc.points + [e.value])
    else if e.kind == EV_TIMER then acc.(times := acc.times + [e.value])
    else if e.kind == EV_ENTROPY then acc.(entropy := acc.entropy + Payload(e))
    else acc
  }

  predicate InBounds(d: Deltas) {
    |d.points| <= MAX_DELTAS && |d.times| <= MAX_DELTAS && |d.entropy| <= MAX_DELTAS
  }

  function SplitAll(acc: Deltas, es: seq<Event>): Deltas
    decreases |es|
  {
    if es == [] then acc else SplitAll(Absorb(acc, es[0]), es[1..])
  }

  /** The three delta arrays, or nothing when one of them overflows. */
  function Split(es: seq<Event>): Option<Deltas> {
    var all := SplitAll(Deltas([], [], []), es);
    if InBounds(all) then Some(all) else None
  }

  lemma {:induction false} SplitAppend(acc: Deltas, a: seq<Event>, b: seq<Event>)
    ensures SplitAll(acc, a + b) == SplitAll(SplitAll(acc, a), b)
    decreases |a|
  {
    if a == [] {
      assert a + b == b;
    } else {
      assert (a + b)[1..] == a[1..] + b;
      SplitAppend(Absorb(acc, a[0]), a[1..], b);
    }
  }

  lemma SplitLast(acc: Deltas, es: seq<Event>, e: Event)
    ensures SplitAll(acc, es + [e]) == Absorb(SplitAll(acc, es), e)
  {
    SplitAppend(acc, es, [e]);
    assert [e][1..] == [];
  }

  lemma {:induction false} Grows(acc: Deltas, es: seq<Event>)
    ensures InBounds(SplitAll(acc, es)) ==> InBounds(acc)
    decreases |es|
  {
    if es != [] {
      Grows(Absorb(acc, es[0]), es[1..]);
    }
  }

  /** replay_split_epoch over the events of a journal, with its array bounds. */
  method SplitEpoch(es: seq<Event>) returns (out: Option<Deltas>)
    ensures out == Split(es)
  {
    hide Absorb, SplitAll;
    var pts: seq<U64>, times: seq<U64>, entropy: seq<Byte> := [], [], [];
    ghost var none := Deltas([], [], []);
    assert es[..0] == [];
    SplitNone(none);
    for i := 0 to |es|
      invariant InBounds(Deltas(pts, times, entropy))
      invariant SplitAll(none, es[..i]) == Deltas(pts, times, entropy)
    {
      var ev := es[i];
      assert es[..i + 1] == es[..i] + [ev] && es == es[..i + 1] + es[i + 1..];
      SplitLast(none, es[..i], ev);
      SplitAppend(none, es[..i + 1], es[i + 1..]);
      Grows(SplitAll(none, es[..i + 1]), es[i + 1..]);
      AbsorbCases(Deltas(pts, times, entropy), ev);
      if ev.kind == EV_SCHED {
        if |pts| >= MAX_DELTAS {
          return None;
        }
        pts := pts + [ev.value];
      } else if ev.kind == EV_TIMER {
        if |times| >= MAX_DELTAS {
          return None;
        }
        times := times + [ev.value];
      } else if ev.kind == EV_ENTROPY {
        var n := if ev.len <= 8 then ev.len else 8;
        ghost var old', v := entropy, ev.value;
        var rest: nat := ev.value;
        for b := 0 to n
          invariant |entropy| <= MAX_DELTAS
          invariant |old'| + b == |entropy| && entropy + LE(rest, n - b) == old' + Payload(ev)
        {
          if |entropy| >= MAX_DELTAS {
            return None;
          }
          assert LE(rest, n - b) == [rest % 256] + LE(rest / 256, n - b - 1);
          entropy := entropy + [rest % 256];
          rest := rest / 256;
        }
      }
    }
    assert es[..|es|] == es;
    out := Some(Deltas(pts, times, entropy));
  }

  lemma SplitNone(acc: Deltas)
    ensures SplitAll(acc, []) == acc
  {
  }

  lemma AbsorbCases(acc: Deltas, e: Event)
    ensures e.kind == EV_SCHED ==> Absorb(acc, e) == acc.(points := acc.points + [e.value])
    ensures e.kind == EV_TIMER ==> Absorb(acc, e) == acc.(times := acc.times + [e.value])
    ensures e.kind == EV_ENTROPY ==> Absorb(acc, e) == acc.(entropy := acc.entropy + Payload(e))
    ensures e.kind != EV_SCHED && e.kind != EV_TIMER && e.kind != EV_ENTROPY ==> Absorb(acc, e) == acc
  {
  }

  // ----- Round trip -----

  lemma {:induction false} SchedBack(acc: Deltas, pts: seq<U64>)
    ensures SplitAll(acc, SchedEvents(pts)) == acc.(points := acc.points + pts)
    decreases |pts|
  {
    hide SplitAll;
    if pts == [] {
      SplitNone(acc);
      assert acc.points + pts == acc.points;
    } else {
      var n := |pts| - 1;
      SchedBack(acc, pts[..n]);
      SplitLast(acc, SchedEvents(pts[..n]), Event(EV_SCHED, pts[n], pts[n], 0));
      assert acc.points + pts[..n] + [pts[n]] == acc.points + pts;
    }
  }

  lemma {:induction false} TimerBack(acc: Deltas, vals: seq<U64>)
    requires |vals| < 0x1_0000_0000
    ensures SplitAll(acc, TimerEvents(vals)) == acc.(times := acc.times + vals)
    decreases |vals|
  {
    hide SplitAll;
    if vals == [] {
      SplitNone(acc);
      assert acc.times + vals == acc.times;
    } else {
      var n := |vals| - 1;
      TimerBack(acc, vals[..n]);
      SplitLast(acc, TimerEvents(vals[..n]), Event(EV_TIMER, n, vals[n], 0));
      assert acc.times + vals[..n] + [vals[n]] == acc.times + vals;
    }
  }

  lemma ChunkAbsorbed(acc: Deltas, off: U64, chunk: seq<Byte>)
    requires 1 <= |chunk| <= 8
    ensures Absorb(acc, ChunkEvent(off, chunk)) == acc.(entropy := acc.entropy + chunk)
  {
    UnLERoundTrip(chunk);
  }

  lemma {:induction false} EntropyBack(acc: Deltas, bytes: seq<Byte>)
    requires |bytes| < 0xFFFF_FFF8
    ensures SplitAll(acc, EntropyEvents(bytes)) == acc.(entropy := acc.entropy + bytes)
    decreases |bytes|
  {
    hide SplitAll, Absorb, ChunkEvent;
    if bytes == [] {
      SplitNone(acc);
      assert acc.entropy + bytes == acc.entropy;
    } else {
      var off := |bytes| - LastChunk(|bytes|);
      EntropyBack(acc, bytes[..off]);
      SplitLast(acc, EntropyEvents(bytes[..off]), ChunkEvent(off, bytes[off..]));
      ChunkAbsorbed(acc.(entropy := acc.entropy + bytes[..off]), off, bytes[off..]);
      assert acc.entropy + bytes[..off] + bytes[off..] == acc.entropy + bytes;
    }
  }

  lemma {:induction false} DivergeIgnored(acc: Deltas, sums: seq<(U32, U32)>)
    ensures SplitAll(acc, DivergeEvents(sums)) == acc
    decreases |sums|
  {
    hide SplitAll;
    if sums == [] {
      SplitNone(acc);
    } else {
      var n := |sums| - 1;
      DivergeIgnored(acc, sums[..n]);
      SplitLast(acc, DivergeEvents(sums[..n]), Event(EV_DIVERGE, sums[n].0, sums[n].1, 0));
    }
  }

  /** Splitting what capture wrote gives the recorded deltas back; it fails exactly when one of
      the three is longer than the replay arrays. */
  lemma CaptureSplits(src: Sources)
    requires src.Counted()
    ensures Split(CaptureEvents(src)) == if InBounds(Recorded(src)) then Some(Recorded(src)) else None
    ensures InBounds(Recorded(src)) <==>
            |OrEmpty(src.points)| <= 4096 && |OrEmpty(src.times)| <= 4096 && |OrEmpty(src.entropy)| <= 4096
  {
    hide SplitAll, Absorb;
    var pts, times, bytes := OrEmpty(src.points), OrEmpty(src.times), OrEmpty(src.entropy);
    var none := Deltas([], [], []);
    var a, b, c, d := SchedEvents(pts), TimerEvents(times), EntropyEvents(bytes), DivergeEvents(OrEmpty(src.sums));
    SplitAppend(none, a + b + c, d);
    SplitAppend(none, a + b, c);
    SplitAppend(none, a, b);
    SchedBack(none, pts);
    assert [] + pts == pts && [] + times == times && [] + bytes == bytes;
    TimerBack(Deltas(pts, [], []), times);
    EntropyBack(Deltas(pts, times, []), bytes);
    DivergeIgnored(Deltas(pts, times, bytes), OrEmpty(src.sums));
  }

  // ----- What is in the journal, event by event -----

  function Chunks(n: nat): nat {
    (n + 7) / 8
  }

  ghost predicate AreSwitches(es: seq<Event>, pts: seq<U64>) {
    |es| == |pts| && forall i :: 0 <= i < |es| ==> es[i] == Event(5, pts[i], pts[i], 0)
  }

  ghost predicate AreTimes(es: seq<Event>, vals: seq<U64>) {
    |es| == |vals| && forall i :: 0 <= i < |es| ==>
      es[i].kind == 3 && es[i].lclock == i && es[i].value == vals[i] && es[i].len == 0
  }

  /** Chunk i is the eight bytes from 8 * i on, or what is left of them. */
  ghost predicate IsChunk(e: Event, bytes: seq<Byte>, i: nat) {
    && 8 * i < |bytes| && e.kind == 4 && e.lclock == 8 * i
    && e.len == (if |bytes| - 8 * i < 8 then |bytes| - 8 * i else 8)
    && LE(e.value, e.len) == bytes[8 * i..8 * i + e.len]
  }

  ghost predicate AreChunks(es: seq<Event>, bytes: seq<Byte>) {
    |es| == Chunks(|bytes|) && forall i :: 0 <= i < |es| ==> IsChunk(es[i], bytes, i)
  }

  ghost predicate AreSums(es: seq<Event>, sums: seq<(U32, U32)>) {
    |es| == |sums| && forall i :: 0 <= i < |es| ==> es[i] == Event(6, sums[i].0, sums[i].1, 0)
  }

  /** The journal of an epoch: every switch point, every time read, the entropy in chunks and one
      event for each divergence checksum, in this order and nothing else. */
  ghost predicate LaidOut(es: seq<Event>, src: Sources) {
    var p, t, b, s := OrEmpty(src.points), OrEmpty(src.times), OrEmpty(src.entropy), OrEmpty(src.sums);
    var x, y, z := |p|, |p| + |t|, |p| + |t| + Chunks(|b|);
    && z <= |es| && AreSwitches(es[..x], p) && AreTimes(es[x..y], t) && AreChunks(es[y..z], b) && AreSums(es[z..], s)
  }

  lemma {:induction false} SwitchesLaid(pts: seq<U64>)
    ensures AreSwitches(SchedEvents(pts), pts)
    decreases |pts|
  {
    if pts != [] {
      SwitchesLaid(pts[..|pts| - 1]);
    }
  }

  lemma {:induction false} TimesLaid(vals: seq<U64>)
    requires |vals| < 0x1_0000_0000
    ensures AreTimes(TimerEvents(vals), vals)
    decreases |vals|
  {
    if vals != [] {
      TimesLaid(vals[..|vals| - 1]);
    }
  }

  lemma {:induction false} SumsLaid(sums: seq<(U32, U32)>)
    ensures AreSums(DivergeEvents(sums), sums)
    decreases |sums|
  {
    if sums != [] {
      SumsLaid(sums[..|sums| - 1]);
    }
  }

  /** A whole chunk does not depend on what follows it. */
  lemma ChunkExtends(e: Event, init: seq<Byte>, bytes: seq<Byte>, i: nat)
    requires IsChunk(e, init, i) && |init| % 8 == 0 && init <= bytes
    ensures IsChunk(e, bytes, i)
  {
    hide LE;
    assert e.len == 8;
    assert init[8 * i..8 * i + 8] == bytes[8 * i..8 * i + 8];
  }

  lemma LastIsChunk(bytes: seq<Byte>)
    requires 0 < |bytes| < 0xFFFF_FFF8
    ensures
      var off := |bytes| - LastChunk(|bytes|);
      off == 8 * (Chunks(|bytes|) - 1) && IsChunk(ChunkEvent(off, bytes[off..]), bytes, Chunks(|bytes|) - 1)
  {
    hide LE, UnLE;
    var off := |bytes| - LastChunk(|bytes|);
    UnLERoundTrip(bytes[off..]);
    assert bytes[off..|bytes|] == bytes[off..];
  }

  lemma {:induction false} ChunksLaid(bytes: seq<Byte>)
    requires |bytes| < 0xFFFF_FFF8
    ensures AreChunks(EntropyEvents(bytes), bytes)
    decreases |bytes|
  {
    hide IsChunk, ChunkEvent;
    if bytes != [] {
      LastIsChunk(bytes);
      var off := |bytes| - LastChunk(|bytes|);
      var init := bytes[..off];
      ChunksLaid(init);
      forall i | 0 <= i < |EntropyEvents(init)| ensures IsChunk(EntropyEvents(bytes)[i], bytes, i) {
        ChunkExtends(EntropyEvents(init)[i], init, bytes, i);
      }
    }
  }

  lemma CaptureLaidOut(src: Sources)
    requires src.Counted()
    ensures LaidOut(CaptureEvents(src), src)
  {
    hide SchedEvents, TimerEvents, EntropyEvents, DivergeEvents, IsChunk;
    var p, t, b, s := OrEmpty(src.points), OrEmpty(src.times), OrEmpty(src.entropy), OrEmpty(src.sums);
    SwitchesLaid(p);
    TimesLaid(t);
    ChunksLaid(b);
    SumsLaid(s);
    var es, x, y, z := CaptureEvents(src), |p|, |p| + |t|, |p| + |t| + Chunks(|b|);
    assert es[..x] == SchedEvents(p) && es[x..y] == TimerEvents(t);
    assert es[y..z] == EntropyEvents(b) && es[z..] == DivergeEvents(s);
  }

  /** From the recorders to the disk and back, over any earlier state of a consistent journal:
      a committed capture is what the replay side loads and splits; a capture cut off before
      its superblock write leaves the previous journal readable in full. */
  lemma CaptureReplays(d: Image, g: Area, last: Option<Journal>, epoch: U64, baseLclock: U64, src: Sources, cut: nat)
    requires g.Valid() && src.Counted() && Durable(d, g, last)
    ensures
      var j := Journal(epoch, baseLclock, CaptureEvents(src));
      var found := ReadBack(Cut(d, JournalWrites(d, g, j), cut), g);
      if Commits(g, Attempt(j, cut)) then
        && found == Some((epoch, j.events)) && LaidOut(found.value.1, src)
        && Split(found.value.1) == (if InBounds(Recorded(src)) then Some(Recorded(src)) else None)
      else found == if last.None? then None else Some((last.value.epoch, last.value.events))
  {
    hide Durable, ReadBack, JournalWrites, Split, CaptureEvents, LaidOut;
    var j := Journal(epoch, baseLclock, CaptureEvents(src));
    CrashStep(d, g, last, Attempt(j, cut));
    var d' := Cut(d, JournalWrites(d, g, j), cut);
    DurableReadsBack(d', g, if Commits(g, Attempt(j, cut)) then Some(j) else last);
    CaptureSplits(src);
    CaptureLaidOut(src);
  }
}
