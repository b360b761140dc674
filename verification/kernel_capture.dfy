/** From the capture of kernel blobs to the stream that carries them: one period of the timer in
    which, among everything else the machine does, subsystems capture their blobs. */
module KernelCapture {
  import opened Bytes
  import opened SnapshotStore
  import opened CheckpointEngine
  import opened KernelBlob
  import opened KernelState

  /** A subsystem captures its blob, or something else happens. */
  datatype Act = Other(ev: Event) | Captures(tag: U32, data: seq<Byte>)

  /** A capture is one push for each chunk. */
  function ChunkEvents(tag: U32, data: seq<Byte>, n: nat): seq<Event>
    requires Sized(data) && (n > 0 ==> (n - 1) * CHUNK < |data|)
  {
    if n == 0 then []
    else ChunkEvents(tag, data, n - 1) + [Event.KernelBlob(tag, Tagged(|data|, n - 1), ChunkData(data, n - 1))]
  }

  function EventsOf(act: Act): seq<Event> {
    match act
    case Other(ev) => [ev]
    case Captures(tag, data) =>
      if Sized(data) then
        LastChunk(data);
        ChunkEvents(tag, data, ChunkCount(|data|))
      else []
  }

  lemma LastChunk(data: seq<Byte>)
    requires Sized(data)
    ensures ChunkCount(|data|) > 0 && (ChunkCount(|data|) - 1) * CHUNK < |data|
  {
    ChunkCountExact(|data|, 0);
    ChunkCountExact(|data|, ChunkCount(|data|) - 1);
  }

  function Events(acts: seq<Act>): seq<Event> {
    if acts == [] then [] else EventsOf(acts[0]) + Events(acts[1..])
  }

  /** The blobs captured, on top of those captured before. */
  function BlobsOf(acts: seq<Act>, blobs: map<U32, seq<Byte>>): map<U32, seq<Byte>> {
    if acts == [] then blobs
    else BlobsOf(acts[1..], if acts[0].Captures? then blobs[acts[0].tag := acts[0].data] else blobs)
  }

  /** Every tag is captured at most once, with a blob that is not too large, and kernel records are
      pushed by captures only. */
  ghost predicate OnceEach(acts: seq<Act>, blobs: map<U32, seq<Byte>>) {
    if acts == [] then true
    else
      match acts[0]
      case Other(ev) => !ev.KernelBlob? && OnceEach(acts[1..], blobs)
      case Captures(tag, data) => Sized(data) && tag !in blobs && OnceEach(acts[1..], blobs[tag := data])
  }

  /** The pushes of a capture leave what the capture loop leaves. */
  lemma {:induction false} ChunkEventsRun(s: State, tag: U32, data: seq<Byte>, n: nat)
    requires Sized(data) && (n > 0 ==> (n - 1) * CHUNK < |data|)
    ensures Run(s, ChunkEvents(tag, data, n)) == s.(captures := Captured(tag, data, n, s.captures))
  {
    hide ChunkData, Tagged;
    if n > 0 {
      var ev := Event.KernelBlob(tag, Tagged(|data|, n - 1), ChunkData(data, n - 1));
      ChunkEventsRun(s, tag, data, n - 1);
      RunAppend(s, ChunkEvents(tag, data, n - 1), [ev]);
      var t := Run(s, ChunkEvents(tag, data, n - 1));
      assert [ev][1..] == [];
      assert Run(t, [ev]) == Happen(t, ev);
    }
  }

  /** Anything else pushes at most a page record. */
  lemma OtherPushes(s: State, ev: Event) returns (front: seq<Record>)
    requires !ev.KernelBlob?
    ensures Happen(s, ev).captures == front + s.captures && NoKernel(front)
  {
    if ev.Store? && ev.key in s.mem && s.mem[ev.key].pte.present && s.mem[ev.key].pte.cow {
      front := [PageRecord(ev.key, false, s.mem[ev.key].contents)];
    } else {
      front := [];
      assert [] + s.captures == s.captures;
    }
  }

  lemma {:induction false} ActsCarry(s: State, acts: seq<Act>, blobs: map<U32, seq<Byte>>)
    requires Carries(s.captures, blobs) && OnceEach(acts, blobs)
    ensures Carries(Run(s, Events(acts)).captures, BlobsOf(acts, blobs))
    decreases |acts|
  {
    hide Carries, Happen;
    if acts != [] {
      var act, rest := acts[0], acts[1..];
      RunAppend(s, EventsOf(act), Events(rest));
      match act {
        case Other(ev) =>
          var front := OtherPushes(s, ev);
          CarriesAmong(front, s.captures, [], blobs);
          assert front + s.captures + [] == Happen(s, ev).captures;
          assert [ev][1..] == [];
          assert Run(s, [ev]) == Happen(s, ev);
          ActsCarry(Happen(s, ev), rest, blobs);
        case Captures(tag, data) =>
          LastChunk(data);
          ChunkEventsRun(s, tag, data, ChunkCount(|data|));
          CapturedCarries(tag, data, s.captures, blobs);
          ActsCarry(Run(s, EventsOf(act)), rest, blobs[tag := data]);
      }
    }
  }

  lemma {:induction false} ActsSplit(a: seq<Act>, b: seq<Act>, blobs: map<U32, seq<Byte>>)
    requires OnceEach(a + b, blobs)
    ensures OnceEach(a, blobs) && OnceEach(b, BlobsOf(a, blobs))
    ensures BlobsOf(a + b, blobs) == BlobsOf(b, BlobsOf(a, blobs))
    decreases |a|
  {
    if a == [] {
      assert a + b == b;
    } else {
      assert (a + b)[1..] == a[1..] + b && (a + b)[0] == a[0];
      ActsSplit(a[1..], b, if a[0].Captures? then blobs[a[0].tag := a[0].data] else blobs);
    }
  }

  lemma ContextsNoKernel(procs: seq<U32>, ctx: map<U32, Context>)
    requires forall p :: p in procs ==> p in ctx
    ensures NoKernel(ContextRecords(procs, ctx))
  {
    var rs := ContextRecords(procs, ctx);
    forall k | 0 <= k < |rs| ensures !IsKernel(rs[k]) {
      ContextsSound(procs, ctx, rs[k]);
    }
  }

  lemma CleanNoKernel(t: State)
    requires Valid(t)
    ensures NoKernel(CleanRecords(t.walk, t.mem))
  {
    var rs := CleanRecords(t.walk, t.mem);
    CountClean(t.walk, t.mem, OfKernel);
    forall k | 0 <= k < |rs| ensures !IsKernel(rs[k]) {
      assert rs[k] in rs;
    }
  }

  /** Whatever else happens before and after the take, the stream of a period in which each tag is
      captured once carries exactly the captured blobs. */
  lemma CycleCarries(s: State, closed: seq<Act>, open: seq<Act>)
    requires Ready(s) && OnceEach(closed + open, map[])
    ensures Carries(StreamOf(WritebackPoint(s, Cycle(Events(closed), Events(open)))), BlobsOf(closed + open, map[]))
  {
    hide Carries, Valid, Run, Take, StreamOf, OnceEach, BlobsOf;
    ActsSplit(closed, open, map[]);
    var c := Cycle(Events(closed), Events(open));
    var m := TakePoint(s, c);
    CarriesNothing(s.captures) by { NothingCaptured(s.captures); }
    ActsCarry(s, closed, map[]);
    RunValid(s, c.closed);
    WalkMapped(m);
    TakeCarries(m, BlobsOf(closed, map[]));
    ActsCarry(Take(m), open, BlobsOf(closed, map[]));
    StreamCarries(WritebackPoint(s, c), BlobsOf(closed + open, map[]));
  }

  lemma TakeCarries(m: State, blobs: map<U32, seq<Byte>>)
    requires Valid(m) && Carries(m.captures, blobs)
    ensures Carries(Take(m).captures, blobs)
  {
    hide Carries, ContextRecords, NoKernel;
    var none: seq<Record> := [];
    NothingCaptured(none);
    ContextsNoKernel(m.procs, m.ctx);
    CarriesAmong(ContextRecords(m.procs, m.ctx), m.captures, none, blobs);
    assert ContextRecords(m.procs, m.ctx) + m.captures + none == Take(m).captures;
  }

  lemma StreamCarries(t: State, blobs: map<U32, seq<Byte>>)
    requires Valid(t) && Carries(t.captures, blobs)
    ensures Carries(StreamOf(t), blobs)
  {
    hide Carries, CleanRecords, NoKernel;
    var none: seq<Record> := [];
    NothingCaptured(none);
    CleanNoKernel(t);
    CarriesAmong(none, t.captures, CleanRecords(t.walk, t.mem), blobs);
    assert none + t.captures + CleanRecords(t.walk, t.mem) == StreamOf(t);
  }

  lemma NothingCaptured(rs: seq<Record>)
    requires rs == []
    ensures NoKernel(rs)
  {
  }
}
