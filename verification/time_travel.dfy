/** One epoch end to end: recorded by the three wrappers, captured to the journal, read back after a
    crash, split, loaded into the wrappers and replayed. */
module TimeTravel {
  import opened Bytes
  import opened Disk
  import opened JournalStore
  import JournalCapture
  import SchedRecord
  import TimeRecord
  import EntropyRecord

  /** What the clients of an epoch saw live: the scheduler's calls, the times read and the random
      bytes drawn. */
  datatype Epoch = Epoch(calls: seq<SchedRecord.Call>, times: seq<U64>, stream: seq<Byte>)

  /** Room in the three logs. */
  datatype Logs = Logs(points: nat, times: nat, bytes: nat)

  function Recorded(e: Epoch, logs: Logs, sums: seq<(U32, U32)>): JournalCapture.Sources {
    JournalCapture.Sources(Some(SchedRecord.Recorded(logs.points, e.calls)), Some(TimeRecord.Logged(logs.times, e.times)),
                           Some(EntropyRecord.Logged(logs.bytes, e.stream)), Some(sums))
  }

  /** What replaying clients see of the split deltas. */
  function Replayed(d: JournalCapture.Deltas, e: Epoch, last: U64): (seq<bool>, seq<U64>, seq<Byte>) {
    (SchedRecord.Replayed(d.points, e.calls), TimeRecord.Replayed(d.times, last, |e.times|),
     EntropyRecord.Served(d.entropy, |e.stream|))
  }

  /** Nothing the live run saw was lost: the switches fit their log and no call before a switch had
      reached its clock, times that did not fit repeat the last that did, bytes that did not are zero. */
  ghost predicate Kept(e: Epoch, logs: Logs)
    requires logs.times > 0
  {
    && |SchedRecord.Wanted(e.calls)| <= logs.points && SchedRecord.Clean(e.calls)
    && (forall i :: logs.times <= i < |e.times| ==> e.times[i] == e.times[logs.times - 1])
    && (forall i :: logs.bytes <= i < |e.stream| ==> e.stream[i] == 0)
  }

  /** Committed to the journal and within the replay arrays, an epoch is replayed exactly as it ran if
      and only if nothing was lost; cut off before the flip, the journal still holds the epoch
      before. */
  lemma EpochReplays(d: Image, g: Area, prev: Option<Journal>, epoch: U64, baseLclock: U64,
                     e: Epoch, logs: Logs, sums: seq<(U32, U32)>, last: U64, cut: nat)
    requires g.Valid() && Durable(d, g, prev) && logs.times > 0
    requires logs.times < 0x1_0000_0000 && logs.bytes < 0xFFFF_FFF8
    ensures
      var src := Recorded(e, logs, sums);
      && src.Counted()
      && var j := Journal(epoch, baseLclock, JournalCapture.CaptureEvents(src));
      var found := ReadBack(Cut(d, JournalWrites(d, g, j), cut), g);
      if Commits(g, Attempt(j, cut)) then
        && found.Some? && found.value.0 == epoch
        && var deltas := JournalCapture.Split(found.value.1);
        && (deltas.Some? <==> JournalCapture.InBounds(JournalCapture.Recorded(src)))
        && (deltas.Some? ==>
              (Replayed(deltas.value, e, last) == (SchedRecord.Wants(e.calls), e.times, e.stream) <==> Kept(e, logs)))
      else found == if prev.None? then None else Some((prev.value.epoch, prev.value.events))
  {
    hide Durable, ReadBack, JournalWrites, Commits, JournalCapture.Split, JournalCapture.CaptureEvents;
    hide SchedRecord.Wanted, SchedRecord.Clean, SchedRecord.Replayed, SchedRecord.Wants, SchedRecord.Recorded;
    hide TimeRecord.Replayed, EntropyRecord.Served;
    var src := Recorded(e, logs, sums);
    JournalCapture.CaptureReplays(d, g, prev, epoch, baseLclock, src, cut);
    SchedRecord.ReplayTransparent(logs.points, e.calls);
    TimeRecord.ReplayTransparent(logs.times, last, e.times);
    EntropyRecord.ReplayTransparent(logs.bytes, e.stream);
  }

  // ----- A client whose requests depend on what it was answered -----

  datatype Request = Tick | ReadClock | Draw(len: nat)

  datatype Answer = Switch(fire: bool) | Time(now: U64) | Drawn(data: seq<Byte>)

  /** A deterministic machine seen through the wrappers: what it asks next, and what an answer
      makes of it. */
  datatype Client<!P> = Client(ask: P -> Request, hear: (P, Answer) -> P)

  /** What the world would answer at one step of the live run. */
  datatype World = World(want: bool, now: U64, bytes: nat -> Byte)

  /** The logical clock advances before every scheduling decision. */
  function Advance(clock: U64): U64 {
    if clock == 0xFFFF_FFFF_FFFF_FFFF then 0 else clock + 1
  }

  function LiveAnswer(q: Request, w: World): Answer {
    match q
    case Tick => Switch(w.want)
    case ReadClock => Time(w.now)
    case Draw(len) => Drawn(seq<Byte>(len, i requires 0 <= i < len => w.bytes(i)))
  }

  function Seen(q: Request, a: Answer, clock: U64, rest: Epoch): Epoch {
    match (q, a)
    case (Tick, Switch(fire)) => rest.(calls := [SchedRecord.Call(fire, Advance(clock))] + rest.calls)
    case (ReadClock, Time(now)) => rest.(times := [now] + rest.times)
    case (Draw(_), Drawn(data)) => rest.(stream := data + rest.stream)
    case _ => rest
  }

  function Later(q: Request, clock: U64): U64 {
    if q.Tick? then Advance(clock) else clock
  }

  /** The answers of the live run and what the wrappers saw of it. */
  function Live<P>(c: Client<P>, p: P, clock: U64, worlds: seq<World>): (seq<Answer>, Epoch)
    decreases |worlds|
  {
    if worlds == [] then ([], Epoch([], [], []))
    else
      var q := c.ask(p);
      var a := LiveAnswer(q, worlds[0]);
      var (answers, rest) := Live(c, c.hear(p, a), Later(q, clock), worlds[1..]);
      ([a] + answers, Seen(q, a, clock, rest))
  }

  /** What replay still has to serve, and the last time it served. */
  datatype Left = Left(points: seq<U64>, times: seq<U64>, bytes: seq<Byte>, last: U64)

  function Serve(l: Left, q: Request, clock: U64): (Answer, Left) {
    match q
    case Tick =>
      var fire := l.points != [] && Advance(clock) >= l.points[0];
      (Switch(fire), if fire then l.(points := l.points[1..]) else l)
    case ReadClock =>
      if l.times == [] then (Time(l.last), l)
      else (Time(l.times[0]), l.(times := l.times[1..], last := l.times[0]))
    case Draw(len) =>
      (Drawn(EntropyRecord.Served(l.bytes, len)), l.(bytes := l.bytes[if len <= |l.bytes| then len else |l.bytes|..]))
  }

  /** The same client, now asking the replay for n steps; its requests are its own. */
  function Again<P>(c: Client<P>, p: P, clock: U64, l: Left, n: nat): seq<Answer>
    decreases n
  {
    if n == 0 then []
    else
      var q := c.ask(p);
      var (a, l') := Serve(l, q, clock);
      [a] + Again(c, c.hear(p, a), Later(q, clock), l', n - 1)
  }

  ghost predicate Serves(l: Left, e: Epoch) {
    && SchedRecord.Replayed(l.points, e.calls) == SchedRecord.Wants(e.calls)
    && TimeRecord.Replayed(l.times, l.last, |e.times|) == e.times
    && EntropyRecord.Served(l.bytes, |e.stream|) == e.stream
  }

  lemma TickServed(l: Left, want: bool, clock: U64, rest: Epoch)
    ensures var (a, l') := Serve(l, Tick, clock);
            Serves(l, Seen(Tick, Switch(want), clock, rest)) <==> a == Switch(want) && Serves(l', rest)
  {
    hide TimeRecord.Replayed, EntropyRecord.Served;
    var (a, l') := Serve(l, Tick, clock);
    var call := SchedRecord.Call(want, Advance(clock));
    assert ([call] + rest.calls)[1..] == rest.calls;
    assert SchedRecord.Replayed(l.points, [call] + rest.calls) == [a.fire] + SchedRecord.Replayed(l'.points, rest.calls);
    assert SchedRecord.Wants([call] + rest.calls) == [want] + SchedRecord.Wants(rest.calls);
    SchedRecord.HeadsEqual(a.fire, want, SchedRecord.Replayed(l'.points, rest.calls), SchedRecord.Wants(rest.calls));
  }

  lemma TimeServed(l: Left, now: U64, clock: U64, rest: Epoch)
    ensures var (a, l') := Serve(l, ReadClock, clock);
            Serves(l, Seen(ReadClock, Time(now), clock, rest)) <==> a == Time(now) && Serves(l', rest)
  {
    hide SchedRecord.Replayed, SchedRecord.Wants, EntropyRecord.Served;
    var (a, l') := Serve(l, ReadClock, clock);
    var n := |rest.times|;
    assert TimeRecord.Replayed(l.times, l.last, n + 1) == [a.now] + TimeRecord.Replayed(l'.times, l'.last, n);
    SchedRecord.HeadsEqual(a.now, now, TimeRecord.Replayed(l'.times, l'.last, n), rest.times);
  }

  lemma DrawServed(l: Left, len: nat, data: seq<Byte>, clock: U64, rest: Epoch)
    requires |data| == len
    ensures var (a, l') := Serve(l, Draw(len), clock);
            Serves(l, Seen(Draw(len), Drawn(data), clock, rest)) <==> a == Drawn(data) && Serves(l', rest)
  {
    hide SchedRecord.Replayed, SchedRecord.Wants, TimeRecord.Replayed, EntropyRecord.Served;
    var (a, l') := Serve(l, Draw(len), clock);
    EntropyRecord.ServedAppend(l.bytes, len, |rest.stream|);
    var x, y := a.data, EntropyRecord.Served(l'.bytes, |rest.stream|);
    assert (x + y)[..len] == x && (x + y)[len..] == y;
    assert (data + rest.stream)[..len] == data && (data + rest.stream)[len..] == rest.stream;
  }

  lemma StepServed(l: Left, q: Request, w: World, clock: U64, rest: Epoch)
    ensures
      var a := LiveAnswer(q, w);
      var (b, l') := Serve(l, q, clock);
      Serves(l, Seen(q, a, clock, rest)) <==> b == a && Serves(l', rest)
  {
    hide Serves, Serve;
    match q
    case Tick => TickServed(l, w.want, clock, rest);
    case ReadClock => TimeServed(l, w.now, clock, rest);
    case Draw(len) => DrawServed(l, len, LiveAnswer(q, w).data, clock, rest);
  }

  /** A client gets the live answers again exactly when each log, served alone, gives back what it
      saw: while the answers agree so do the requests, and the first that differs is in some log. */
  lemma {:induction false} AgainExactly<P>(c: Client<P>, p: P, clock: U64, worlds: seq<World>, l: Left)
    ensures Again(c, p, clock, l, |worlds|) == Live(c, p, clock, worlds).0
       <==> Serves(l, Live(c, p, clock, worlds).1)
    decreases |worlds|
  {
    hide Serves, Serve, Seen;
    if worlds == [] {
      NothingSeen(l);
    } else {
      var q := c.ask(p);
      var a := LiveAnswer(q, worlds[0]);
      var (b, l') := Serve(l, q, clock);
      var (answers, rest) := Live(c, c.hear(p, a), Later(q, clock), worlds[1..]);
      StepServed(l, q, worlds[0], clock, rest);
      SchedRecord.HeadsEqual(b, a, Again(c, c.hear(p, b), Later(q, clock), l', |worlds| - 1), answers);
      if a == b {
        AgainExactly(c, c.hear(p, a), Later(q, clock), worlds[1..], l');
      }
    }
  }

  lemma NothingSeen(l: Left)
    ensures Serves(l, Epoch([], [], []))
  {
  }

  /** With a clock that does not wrap, no two decisions share a tick. */
  lemma {:induction false} LiveClean<P>(c: Client<P>, p: P, clock: U64, worlds: seq<World>)
    requires clock + |worlds| < 0x1_0000_0000_0000_0000
    ensures var calls := Live(c, p, clock, worlds).1.calls;
            && (forall i :: 0 <= i < |calls| ==> clock < calls[i].lclock)
            && SchedRecord.StrictClock(calls) && SchedRecord.Clean(calls)
    decreases |worlds|
  {
    hide SchedRecord.Clean, LiveAnswer;
    if worlds != [] {
      var q := c.ask(p);
      var a := LiveAnswer(q, worlds[0]);
      LiveClean(c, c.hear(p, a), Later(q, clock), worlds[1..]);
    }
    SchedRecord.StrictClockIsClean(Live(c, p, clock, worlds).1.calls);
  }

  /** One epoch of any deterministic client, recorded, captured, read back after any power cut and
      split: started again in its first state the client gets every answer of the live run, and so
      asks and becomes the same, exactly when nothing was lost. */
  lemma ClientReplays<P>(d: Image, g: Area, prev: Option<Journal>, epoch: U64, baseLclock: U64,
                         c: Client<P>, p: P, clock: U64, worlds: seq<World>,
                         logs: Logs, sums: seq<(U32, U32)>, last: U64, cut: nat)
    requires g.Valid() && Durable(d, g, prev) && logs.times > 0
    requires logs.times < 0x1_0000_0000 && logs.bytes < 0xFFFF_FFF8
    ensures
      var (answers, e) := Live(c, p, clock, worlds);
      var src := Recorded(e, logs, sums);
      && src.Counted()
      && var j := Journal(epoch, baseLclock, JournalCapture.CaptureEvents(src));
      var found := ReadBack(Cut(d, JournalWrites(d, g, j), cut), g);
      Commits(g, Attempt(j, cut)) ==>
        && found.Some?
        && var deltas := JournalCapture.Split(found.value.1);
        && (deltas.Some? <==> JournalCapture.InBounds(JournalCapture.Recorded(src)))
        && (deltas.Some? ==>
              (Again(c, p, clock, LeftOf(deltas.value, last), |worlds|) == answers <==> Kept(e, logs)))
  {
    hide Durable, ReadBack, JournalWrites, Commits, JournalCapture.Split, JournalCapture.CaptureEvents, Again, Live;
    hide JournalCapture.InBounds, JournalCapture.Recorded, Kept, JournalStore.Area.Valid;
    var e := Live(c, p, clock, worlds).1;
    EpochReplays(d, g, prev, epoch, baseLclock, e, logs, sums, last, cut);
    var src := Recorded(e, logs, sums);
    var j := Journal(epoch, baseLclock, JournalCapture.CaptureEvents(src));
    var found := ReadBack(Cut(d, JournalWrites(d, g, j), cut), g);
    if Commits(g, Attempt(j, cut)) && JournalCapture.Split(found.value.1).Some? {
      AgainExactly(c, p, clock, worlds, LeftOf(JournalCapture.Split(found.value.1).value, last));
    }
  }

  function LeftOf(d: JournalCapture.Deltas, last: U64): Left {
    Left(d.points, d.times, d.entropy, last)
  }
}
