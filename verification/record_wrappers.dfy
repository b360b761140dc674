/** What a record wrapper does: pass through, log the live run, or serve the log. */
module RecordMode {
  datatype Mode = Off | Record | Replay
}

/** Deterministic preemption: record the logical clock of each switch, force switches there on replay. */
module SchedRecord {
  import opened Bytes
  import opened RecordMode

  /** One call of the decision hook: the policy's wish and the logical clock. */
  datatype Call = Call(want: bool, lclock: U64)

  function Wants(calls: seq<Call>): (ws: seq<bool>)
    ensures |ws| == |calls|
  {
    seq(|calls|, i requires 0 <= i < |calls| => calls[i].want)
  }

  /** The clocks at which the live run switched. */
  function Wanted(calls: seq<Call>): seq<U64> {
    if calls == [] then []
    else (if calls[0].want then [calls[0].lclock] else []) + Wanted(calls[1..])
  }

  function Recorded(capacity: nat, calls: seq<Call>): seq<U64> {
    if |Wanted(calls)| <= capacity then Wanted(calls) else Wanted(calls)[..capacity]
  }

  /** Replay's decisions: consume the next point once the clock has reached it. */
  function Replayed(points: seq<U64>, calls: seq<Call>): (ds: seq<bool>)
    ensures |ds| == |calls|
    decreases |calls|
  {
    if calls == [] then []
    else
      var fire := points != [] && calls[0].lclock >= points[0];
      [fire] + Replayed(if fire then points[1..] else points, calls[1..])
  }

  /** No call that did not switch has already reached the clock of the next switch. */
  ghost predicate Clean(calls: seq<Call>) {
    forall i :: 0 <= i < |calls| && !calls[i].want && Wanted(calls[i + 1..]) != []
      ==> calls[i].lclock < Wanted(calls[i + 1..])[0]
  }

  ghost predicate StrictClock(calls: seq<Call>) {
    forall i, j :: 0 <= i < j < |calls| ==> calls[i].lclock < calls[j].lclock
  }

  lemma CleanTail(calls: seq<Call>)
    requires calls != []
    ensures Clean(calls) <==>
            Clean(calls[1..]) && (calls[0].want || Wanted(calls[1..]) == [] || calls[0].lclock < Wanted(calls[1..])[0])
  {
    var rest := calls[1..];
    assert forall i :: 0 <= i < |rest| ==> rest[i] == calls[i + 1] && rest[i + 1..] == calls[i + 2..];
    if Clean(rest) && (calls[0].want || Wanted(rest) == [] || calls[0].lclock < Wanted(rest)[0]) {
      forall i | 0 <= i < |calls| && !calls[i].want && Wanted(calls[i + 1..]) != []
        ensures calls[i].lclock < Wanted(calls[i + 1..])[0]
      {
        if i > 0 {
          assert rest[i - 1] == calls[i] && rest[i - 1 + 1..] == calls[i + 1..];
        }
      }
    }
    if Clean(calls) {
      forall i | 0 <= i < |rest| && !rest[i].want && Wanted(rest[i + 1..]) != []
        ensures rest[i].lclock < Wanted(rest[i + 1..])[0]
      {
        assert calls[i + 1] == rest[i] && calls[i + 1 + 1..] == rest[i + 1..];
      }
    }
  }

  lemma {:induction false} FullLogReplays(calls: seq<Call>)
    ensures Replayed(Wanted(calls), calls) == Wants(calls) <==> Clean(calls)
    decreases |calls|
  {
    if calls != [] {
      hide Clean, Wanted, Wants, Replayed;
      var c, rest := calls[0], calls[1..];
      FullLogReplays(rest);
      CleanTail(calls);
      Unfolded(calls);
      HeadsEqual(if c.want then true else Wanted(rest) != [] && c.lclock >= Wanted(rest)[0], c.want,
                 Replayed(Wanted(rest), rest), Wants(rest));
    }
  }

  lemma Unfolded(calls: seq<Call>)
    requires calls != []
    ensures
      var c, rest := calls[0], calls[1..];
      var pts := Wanted(rest);
      && Wants(calls) == [c.want] + Wants(rest)
      && (c.want ==> Replayed(Wanted(calls), calls) == [true] + Replayed(pts, rest))
      && (!c.want && !(pts != [] && c.lclock >= pts[0]) ==> Replayed(Wanted(calls), calls) == [false] + Replayed(pts, rest))
      && (!c.want && pts != [] && c.lclock >= pts[0] ==> Replayed(Wanted(calls), calls)[0])
  {
    var c, rest := calls[0], calls[1..];
    if c.want {
      assert Wanted(calls)[1..] == Wanted(rest);
    } else {
      assert Wanted(calls) == Wanted(rest);
    }
  }

  lemma HeadsEqual<T>(a: T, b: T, x: seq<T>, y: seq<T>)
    ensures [a] + x == [b] + y <==> a == b && x == y
  {
    assert ([a] + x)[1..] == x && ([b] + y)[1..] == y && ([a] + x)[0] == a && ([b] + y)[0] == b;
  }

  function Trues(ds: seq<bool>): nat {
    if ds == [] then 0 else (if ds[0] then 1 else 0) + Trues(ds[1..])
  }

  lemma {:induction false} WantedCount(calls: seq<Call>)
    ensures Trues(Wants(calls)) == |Wanted(calls)|
    decreases |calls|
  {
    if calls != [] {
      WantedCount(calls[1..]);
      assert Wants(calls)[1..] == Wants(calls[1..]);
    }
  }

  lemma {:induction false} ReplayedCount(points: seq<U64>, calls: seq<Call>)
    ensures Trues(Replayed(points, calls)) <= |points|
    decreases |calls|
  {
    if calls != [] {
      var fire := points != [] && calls[0].lclock >= points[0];
      var left := if fire then points[1..] else points;
      ReplayedCount(left, calls[1..]);
      assert Replayed(points, calls)[1..] == Replayed(left, calls[1..]);
    }
  }

  /** Record then replay over the same clocks gives the same switches exactly when the log did
      not overflow and no unswitched call shares, or is past, the next switch's clock. */
  lemma ReplayTransparent(capacity: nat, calls: seq<Call>)
    ensures Replayed(Recorded(capacity, calls), calls) == Wants(calls)
       <==> |Wanted(calls)| <= capacity && Clean(calls)
  {
    if |Wanted(calls)| <= capacity {
      FullLogReplays(calls);
    } else {
      WantedCount(calls);
      ReplayedCount(Recorded(capacity, calls), calls);
    }
  }

  lemma {:induction false} WantedAfter(calls: seq<Call>, bound: U64)
    requires forall i :: 0 <= i < |calls| ==> bound < calls[i].lclock
    ensures forall k :: 0 <= k < |Wanted(calls)| ==> bound < Wanted(calls)[k]
    decreases |calls|
  {
    if calls != [] {
      WantedAfter(calls[1..], bound);
    }
  }

  /** A clock that advances on every call is always clean. */
  lemma StrictClockIsClean(calls: seq<Call>)
    requires StrictClock(calls)
    ensures Clean(calls)
  {
    forall i | 0 <= i < |calls| && !calls[i].want && Wanted(calls[i + 1..]) != []
      ensures calls[i].lclock < Wanted(calls[i + 1..])[0]
    {
      WantedAfter(calls[i + 1..], calls[i].lclock);
    }
  }

  /** Two calls on one tick: the live run switches on the second, replay on the first. */
  lemma SharedTickDiverges()
    ensures var calls := [Call(false, 7), Call(true, 7)];
            Replayed(Recorded(8, calls), calls) == [true, false] && Wants(calls) == [false, true]
  {
    var calls := [Call(false, 7), Call(true, 7)];
    assert calls[1..] == [Call(true, 7)] && [Call(true, 7)][1..] == [];
    assert Wanted([Call(true, 7)]) == [7];
    assert Wanted(calls) == [7];
    assert Replayed([], [Call(true, 7)]) == [false] + Replayed([], []);
  }

  class SchedLog {
    var mode: Mode
    var epoch: U64
    const points: array<U64>
    var count: nat
    var cursor: nat
    var overflow: nat

    ghost predicate Valid()
      reads this
    {
      cursor <= count <= points.Length
    }

    constructor (mode: Mode, buf: array<U64>)
      requires buf.Length > 0
      ensures Valid() && points == buf && this.mode == mode && count == cursor == overflow == 0
    {
      this.mode, epoch, points, count, cursor, overflow := mode, 0, buf, 0, 0, 0;
    }

    method BeginEpoch(e: U64)
      modifies this
      ensures Valid() && epoch == e && count == cursor == overflow == 0 && mode == old(mode)
    {
      epoch, count, cursor, overflow := e, 0, 0, 0;
    }

    method Load(e: U64, pts: seq<U64>) returns (ok: bool)
      requires Valid()
      modifies this, points
      ensures Valid() && mode == old(mode) && (ok <==> |pts| <= points.Length)
      ensures ok ==> points[..count] == pts && cursor == overflow == 0 && epoch == e
      ensures !ok ==> count == old(count) && cursor == old(cursor) && points[..] == old(points[..])
    {
      if |pts| > points.Length {
        return false;
      }
      epoch, count, cursor, overflow := e, |pts|, 0, 0;
      for i := 0 to |pts|
        modifies points
        invariant points[..i] == pts[..i]
      {
        points[i] := pts[i];
      }
      ok := true;
    }

    method Decide(want: bool, lclock: U64) returns (fire: bool)
      requires Valid()
      modifies this, points
      ensures Valid() && mode == old(mode) && epoch == old(epoch)
      ensures mode == Off ==> fire == want && count == old(count) && cursor == old(cursor)
      ensures mode == Record ==>
                && fire == want && cursor == old(cursor)
                && points[..count] == old(points[..count])
                     + (if want && old(count) < points.Length then [lclock] else [])
                && overflow == old(overflow) + (if want && old(count) == points.Length then 1 else 0)
      ensures mode == Replay ==>
                && count == old(count) && points[..count] == old(points[..count])
                && fire == (old(cursor) < count && lclock >= points[old(cursor)])
                && cursor == old(cursor) + (if fire then 1 else 0)
    {
      match mode
      case Record =>
        if want {
          if count < points.Length {
            points[count] := lclock;
            count := count + 1;
          } else {
            overflow := overflow + 1;
          }
        }
        fire := want;
      case Replay =>
        fire := cursor < count && lclock >= points[cursor];
        if fire {
          cursor := cursor + 1;
        }
      case Off =>
        fire := want;
    }

    /** A whole epoch of live ticks; a recording run leaves the recorded points. */
    method DriveLive(calls: seq<Call>) returns (out: seq<bool>)
      requires Valid() && mode != Replay && (mode == Record ==> count == 0)
      modifies this, points
      ensures Valid() && mode == old(mode) && out == Wants(calls)
      ensures mode == Record ==> points[..count] == Recorded(points.Length, calls)
    {
      hide Wanted, Wants, Recorded;
      out := [];
      NoCalls(calls, points.Length);
      for i := 0 to |calls|
        invariant Valid() && mode == old(mode) && out == Wants(calls[..i])
        invariant mode == Record ==> points[..count] == Recorded(points.Length, calls[..i])
      {
        assert calls[..i + 1] == calls[..i] + [calls[i]];
        RecordedLast(points.Length, calls[..i], calls[i]);
        var fire := Decide(calls[i].want, calls[i].lclock);
        out := out + [fire];
      }
      assert calls[..|calls|] == calls;
    }

    /** A whole epoch of replayed ticks decides as Replayed says. */
    method DriveReplay(calls: seq<Call>) returns (out: seq<bool>)
      requires Valid() && mode == Replay && cursor == 0
      modifies this, points
      ensures out == Replayed(old(points[..count]), calls)
    {
      hide Replayed;
      out := [];
      ghost var loaded := points[..count];
      assert loaded[0..] == loaded && calls[0..] == calls;
      for i := 0 to |calls|
        invariant Valid() && mode == Replay && |out| == i && points[..count] == loaded
        invariant out + Replayed(loaded[cursor..], calls[i..]) == Replayed(loaded, calls)
      {
        assert calls[i..][1..] == calls[i + 1..];
        ReplayStep(loaded[cursor..], calls[i..]);
        if cursor < count {
          assert loaded[cursor..][0] == points[cursor] && loaded[cursor..][1..] == loaded[cursor + 1..];
        }
        var fire := Decide(calls[i].want, calls[i].lclock);
        out := out + [fire];
      }
      assert calls[|calls|..] == [];
    }
  }

  lemma ReplayStep(points: seq<U64>, calls: seq<Call>)
    requires calls != []
    ensures var fire := points != [] && calls[0].lclock >= points[0];
            Replayed(points, calls) == [fire] + Replayed(if fire then points[1..] else points, calls[1..])
  {
  }

  lemma NoCalls(calls: seq<Call>, capacity: nat)
    ensures Wants(calls[..0]) == [] && Recorded(capacity, calls[..0]) == []
  {
  }

  lemma RecordedLast(capacity: nat, calls: seq<Call>, c: Call)
    ensures Wants(calls + [c]) == Wants(calls) + [c.want]
    ensures |Recorded(capacity, calls)| <= capacity
    ensures Recorded(capacity, calls + [c]) == Recorded(capacity, calls)
              + (if c.want && |Recorded(capacity, calls)| < capacity then [c.lclock] else [])
  {
    WantedLast(calls, c);
  }

  lemma {:induction false} WantedLast(calls: seq<Call>, c: Call)
    ensures Wanted(calls + [c]) == Wanted(calls) + (if c.want then [c.lclock] else [])
    decreases |calls|
  {
    if calls == [] {
      assert calls + [c] == [c] && [c][1..] == [];
    } else {
      var first := if calls[0].want then [calls[0].lclock] else [];
      var last := if c.want then [c.lclock] else [];
      assert (calls + [c])[0] == calls[0] && (calls + [c])[1..] == calls[1..] + [c];
      WantedLast(calls[1..], c);
      assert first + (Wanted(calls[1..]) + last) == first + Wanted(calls[1..]) + last;
    }
  }
}

/** Virtualized time reads: log what the clock returned, return it again on replay. */
module TimeRecord {
  import opened Bytes
  import opened RecordMode

  function Logged(capacity: nat, vals: seq<U64>): seq<U64> {
    if |vals| <= capacity then vals else vals[..capacity]
  }

  /** n replayed reads: the log, then its last value again and again. */
  function Replayed(log: seq<U64>, last: U64, n: nat): (vs: seq<U64>)
    ensures |vs| == n
  {
    seq(n, i requires 0 <= i < n => if i < |log| then log[i] else if log == [] then last else log[|log| - 1])
  }

  /** Every read of the live run comes back exactly when the reads that did not fit the log
      repeat the last one that did. */
  lemma ReplayTransparent(capacity: nat, last: U64, vals: seq<U64>)
    requires capacity > 0
    ensures Replayed(Logged(capacity, vals), last, |vals|) == vals
       <==> forall i :: capacity <= i < |vals| ==> vals[i] == vals[capacity - 1]
  {
    var log := Logged(capacity, vals);
    var back := Replayed(log, last, |vals|);
    forall i | 0 <= i < |vals| ensures back[i] == if i < capacity then vals[i] else vals[capacity - 1] {
    }
    if back != vals {
      assert exists i :: 0 <= i < |vals| && back[i] != vals[i];
    }
  }

  class TimeLog {
    var mode: Mode
    var epoch: U64
    const log: array<U64>
    var count: nat
    var cursor: nat
    var overflow: nat
    var underflow: nat
    var last: U64

    ghost predicate Valid()
      reads this
    {
      cursor <= count <= log.Length
    }

    constructor (mode: Mode, buf: array<U64>)
      requires buf.Length > 0
      ensures Valid() && log == buf && this.mode == mode && count == cursor == 0 && last == 0
    {
      this.mode, epoch, log := mode, 0, buf;
      count, cursor, overflow, underflow, last := 0, 0, 0, 0, 0;
    }

    /** `live` is what the hardware clock would read; replay never looks at it. */
    method Read(live: U64) returns (v: U64)
      requires Valid()
      modifies this, log
      ensures Valid() && mode == old(mode) && last == v
      ensures mode == Off ==> v == live && count == old(count) && cursor == old(cursor)
      ensures mode == Record ==>
                && v == live && cursor == old(cursor)
                && log[..count] == old(log[..count]) + (if old(count) < log.Length then [live] else [])
                && overflow == old(overflow) + (if old(count) < log.Length then 0 else 1)
      ensures mode == Replay ==>
                && count == old(count) && log[..count] == old(log[..count])
                && v == (if old(cursor) < count then log[old(cursor)] else old(last))
                && cursor == old(cursor) + (if old(cursor) < count then 1 else 0)
                && underflow == old(underflow) + (if old(cursor) < count then 0 else 1)
    {
      match mode
      case Record =>
        v := live;
        if count < log.Length {
          log[count] := v;
          count := count + 1;
        } else {
          overflow := overflow + 1;
        }
        last := v;
      case Replay =>
        if cursor < count {
          v := log[cursor];
          cursor := cursor + 1;
        } else {
          underflow := underflow + 1;
          v := last;
        }
        last := v;
      case Off =>
        v := live;
        last := v;
    }

    /** A whole epoch of reads. */
    method Drive(lives: seq<U64>) returns (out: seq<U64>)
      requires Valid() && cursor == 0 && (mode == Record ==> count == 0)
      modifies this, log
      ensures mode == old(mode)
      ensures mode != Replay ==> out == lives
      ensures mode == Record ==> Valid() && log[..count] == Logged(log.Length, lives)
      ensures mode == Replay ==> out == Replayed(old(log[..count]), old(last), |lives|)
    {
      out := [];
      ghost var loaded, last0 := log[..count], last;
      for i := 0 to |lives|
        invariant Valid() && mode == old(mode) && |out| == i
        invariant mode != Replay ==> out == lives[..i]
        invariant mode == Record ==> log[..count] == Logged(log.Length, lives[..i])
        invariant mode == Replay ==> log[..count] == loaded && cursor == if i < count then i else count
        invariant mode == Replay ==> out == Replayed(loaded, last0, i)
        invariant mode == Replay ==> last == if i == 0 then last0 else out[i - 1]
      {
        var v := Read(lives[i]);
        out := out + [v];
      }
    }
  }
}

/** Deterministic entropy: a byte stream logged on a live run and served again on replay. */
module EntropyRecord {
  import opened Bytes
  import opened RecordMode

  function Logged(capacity: nat, stream: seq<Byte>): seq<Byte> {
    if |stream| <= capacity then stream else stream[..capacity]
  }

  /** The first n bytes replay hands out: the log, then zeros. */
  function Served(log: seq<Byte>, n: nat): (s: seq<Byte>)
    ensures |s| == n
  {
    if n <= |log| then log[..n] else log + Zeros(n - |log|)
  }

  function Total(lens: seq<nat>): nat {
    if lens == [] then 0 else Total(lens[..|lens| - 1]) + lens[|lens| - 1]
  }

  /** The stream comes back, for every way of splitting the reads, exactly when the bytes that
      did not fit the log were zeros. */
  lemma ReplayTransparent(capacity: nat, stream: seq<Byte>)
    ensures Served(Logged(capacity, stream), |stream|) == stream
       <==> forall i :: capacity <= i < |stream| ==> stream[i] == 0
  {
    var back := Served(Logged(capacity, stream), |stream|);
    forall i | 0 <= i < |stream| ensures back[i] == if i < capacity then stream[i] else 0 {
    }
    if back != stream {
      assert exists i :: 0 <= i < |stream| && back[i] != stream[i];
    }
  }

  class EntropyLog {
    var mode: Mode
    var epoch: U64
    const log: array<Byte>
    var count: nat
    var cursor: nat
    var overflow: nat
    var underflow: nat

    ghost predicate Valid()
      reads this
    {
      cursor <= count <= log.Length
    }

    constructor (mode: Mode, buf: array<Byte>)
      requires buf.Length > 0
      ensures Valid() && log == buf && this.mode == mode && count == cursor == 0
    {
      this.mode, epoch, log := mode, 0, buf;
      count, cursor, overflow, underflow := 0, 0, 0, 0;
    }

    /** `live` is what the source would draw, or nothing when the source fails. A failed draw
        logs nothing; replay never draws. */
    method Fill(live: Option<seq<Byte>>, len: nat) returns (out: Option<seq<Byte>>)
      requires Valid() && (live.Some? ==> |live.value| == len)
      modifies this, log
      ensures Valid() && mode == old(mode)
      ensures mode != Replay ==> out == live && cursor == old(cursor)
      ensures mode == Off || (mode == Record && live.None?) ==>
                count == old(count) && log[..] == old(log[..]) && overflow == old(overflow)
      ensures mode == Record && live.Some? ==>
                && log[..count] == Logged(log.Length, old(log[..count]) + live.value)
                && overflow - old(overflow) == old(count) + len - count
      ensures mode == Replay ==>
                && count == old(count) && log[..count] == old(log[..count])
                && out == Some(Served(log[old(cursor)..count], len))
                && cursor == (if old(cursor) + len <= count then old(cursor) + len else count)
                && underflow - old(underflow) == old(cursor) + len - cursor
    {
      match mode
      case Record =>
        out := live;
        if live.None? {
          return;
        }
        ghost var base, all := log[..count], log[..count] + live.value;
        for i := 0 to len
          invariant Valid() && mode == old(mode) && cursor == old(cursor)
          invariant log[..count] == Logged(log.Length, base + live.value[..i])
          invariant overflow - old(overflow) == |base| + i - count
        {
          assert base + live.value[..i + 1] == base + live.value[..i] + [live.value[i]];
          if count < log.Length {
            log[count] := live.value[i];
            count := count + 1;
          } else {
            overflow := overflow + 1;
          }
        }
        assert live.value[..len] == live.value;
      case Replay =>
        var o := Serve(len);
        out := Some(o);
      case Off =>
        out := live;
    }

    /** Replay's loop: the log from the cursor on, then zeros. */
    method Serve(len: nat) returns (o: seq<Byte>)
      requires Valid()
      modifies `cursor, `underflow
      ensures Valid() && o == Served(log[old(cursor)..count], len)
      ensures cursor == if old(cursor) + len <= count then old(cursor) + len else count
      ensures underflow - old(underflow) == old(cursor) + len - cursor
    {
      o := [];
      ghost var rest := log[cursor..count];
      for i := 0 to len
        invariant Valid()
        invariant cursor == if old(cursor) + i <= count then old(cursor) + i else count
        invariant underflow - old(underflow) == old(cursor) + i - cursor
        invariant o == Served(rest, i)
      {
        if cursor < count {
          o := o + [log[cursor]];
          cursor := cursor + 1;
        } else {
          o := o + [0];
          underflow := underflow + 1;
        }
      }
    }

    /** A replaying client that reads in pieces of any sizes gets the served stream. */
    method ReplayReads(lens: seq<nat>) returns (all: seq<Byte>)
      requires Valid() && mode == Replay && cursor == 0
      modifies this, log
      ensures all == Served(old(log[..count]), Total(lens))
    {
      hide Served;
      all := [];
      ghost var loaded := log[..count];
      assert lens[..0] == [];
      ServedNothing(loaded);
      for i := 0 to |lens|
        invariant Valid() && mode == Replay && log[..count] == loaded
        invariant all == Served(loaded, Total(lens[..i]))
        invariant cursor == if Total(lens[..i]) <= count then Total(lens[..i]) else count
      {
        assert lens[..i + 1][..i] == lens[..i];
        ghost var c, n := cursor, Total(lens[..i]);
        var piece := Fill(None, lens[i]);
        ServedAppend(loaded, n, lens[i]);
        assert log[c..count] == loaded[c..];
        all := all + piece.value;
      }
      assert lens[..|lens|] == lens;
    }
  }

  lemma ServedNothing(log: seq<Byte>)
    ensures Served(log, 0) == []
  {
  }

  lemma ServedAppend(log: seq<Byte>, n: nat, m: nat)
    ensures var c := if n <= |log| then n else |log|;
            Served(log, n + m) == Served(log, n) + Served(log[c..], m)
  {
  }
}
