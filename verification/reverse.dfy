/** Rewind, reverse execution, and reverse breakpoints and watchpoints over the retained window. */
module Reverse {
  import opened Bytes
  import opened KeyframeRing
  import opened ReplayEngine

  /** A moment: a keyframe epoch and how many steps past it. */
  datatype Pos = Pos(epoch: U64, offset: U64)

  predicate Less(p: Pos, q: Pos) {
    p.epoch < q.epoch || (p.epoch == q.epoch && p.offset < q.offset)
  }

  ghost predicate IsRetained(r: Ring, e: U64)
    requires InRange(r)
  {
    exists i :: 0 <= i < r.capacity && r.slots[i].valid != 0 && r.slots[i].epoch == e
  }

  type Lengths = U64 -> U64

  /** The retained moments before `cur`: earlier steps of its own epoch, and every step of
      every earlier retained keyframe. An epoch without steps contributes none. */
  ghost predicate Before(r: Ring, len: Lengths, p: Pos, cur: Pos)
    requires InRange(r)
  {
    || (p.epoch == cur.epoch && p.offset < cur.offset)
    || (p.epoch < cur.epoch && IsRetained(r, p.epoch) && p.offset < len(p.epoch))
  }

  /** The last step of the nearest earlier keyframe that has steps. */
  function LastStepBefore(r: Ring, len: Lengths, epoch: U64): (p: Option<Pos>)
    requires InRange(r)
    decreases epoch
  {
    if epoch == 0 then None
    else
      var s := Find(r, epoch - 1);
      if s.None? then None
      else
        var kf := r.slots[s.value].epoch;
        if len(kf) > 0 then Some(Pos(kf, len(kf) - 1)) else LastStepBefore(r, len, kf)
  }

  function Prev(r: Ring, len: Lengths, cur: Pos): Option<Pos>
    requires InRange(r)
  {
    if cur.offset > 0 then Some(Pos(cur.epoch, cur.offset - 1)) else LastStepBefore(r, len, cur.epoch)
  }

  lemma {:induction false} LastStepIsGreatest(r: Ring, len: Lengths, epoch: U64)
    requires InRange(r)
    ensures
      var p := LastStepBefore(r, len, epoch);
      && (p.Some? ==> p.value.epoch < epoch && Before(r, len, p.value, Pos(epoch, 0)))
      && forall q :: Before(r, len, q, Pos(epoch, 0)) ==> p.Some? && (q == p.value || Less(q, p.value))
    decreases epoch
  {
    if epoch > 0 {
      var s := Find(r, epoch - 1);
      if s.Some? {
        var kf := r.slots[s.value].epoch;
        assert IsRetained(r, kf);
        forall q | Before(r, len, q, Pos(epoch, 0)) ensures q.epoch <= kf {
          var i :| 0 <= i < r.capacity && r.slots[i].valid != 0 && r.slots[i].epoch == q.epoch;
          assert r.slots[i].epoch <= epoch - 1;
        }
        if len(kf) == 0 {
          LastStepIsGreatest(r, len, kf);
          assert forall q :: Before(r, len, q, Pos(epoch, 0)) ==> Before(r, len, q, Pos(kf, 0));
        }
      }
    }
  }

  /** One step back is the latest retained moment before the current one, and there is none
      exactly when nothing earlier is retained. */
  lemma PrevIsGreatest(r: Ring, len: Lengths, cur: Pos)
    requires InRange(r)
    ensures
      var p := Prev(r, len, cur);
      && (p.Some? ==> Before(r, len, p.value, cur) && Less(p.value, cur))
      && forall q :: Before(r, len, q, cur) ==> p.Some? && (q == p.value || Less(q, p.value))
  {
    if cur.offset == 0 {
      LastStepIsGreatest(r, len, cur.epoch);
    }
  }

  /** What is before an earlier moment is what is before this one and below it. */
  lemma BeforeChains(r: Ring, len: Lengths, p: Pos, cur: Pos, q: Pos)
    requires InRange(r) && Before(r, len, p, cur)
    ensures Before(r, len, q, p) <==> Before(r, len, q, cur) && Less(q, p)
  {
  }

  function NthPrev(r: Ring, len: Lengths, cur: Pos, n: nat): Option<Pos>
    requires InRange(r)
    decreases n
  {
    if n == 0 then Some(cur)
    else
      var p := Prev(r, len, cur);
      if p.None? then None else NthPrev(r, len, p.value, n - 1)
  }

  // ----- Rewind -----

  datatype RewindCode = RewindOk | OutOfRange | ErrReplay

  /** The ring, the journals and the recording belong together: every retained keyframe
      restores, every epoch of the window has its journal, and consecutive epochs join up. */
  ghost predicate Tape<S, I>(r: Ring, rec: Recording<S, I>, ret: Retained) {
    && WellFormed(r) && Increasing(Window(r))
    && (forall i :: 0 <= i < r.count ==> Window(r)[i] in ret.keyframes)
    && (r.count > 0 ==>
          var lo, hi := Window(r)[0], Window(r)[r.count - 1];
          rec.Contiguous(lo, hi) && forall e: U64 :: lo <= e <= hi ==> e in ret.journals)
  }

  ghost predicate InWindow(r: Ring, e: U64)
    requires InRange(r) && r.count <= r.capacity
  {
    r.count > 0 && Window(r)[0] <= e <= Window(r)[r.count - 1]
  }

  /** Not past the newest retained keyframe, and one at or before it is retained. */
  predicate InReach(r: Ring, e: U64)
    requires InRange(r)
  {
    Newest(r).Some? && e <= Newest(r).value && Find(r, e).Some?
  }

  function NearestKeyframe(r: Ring, e: U64): (kf: U64)
    requires InRange(r) && InReach(r, e)
    ensures kf <= e
  {
    r.slots[Find(r, e).value].epoch
  }

  /** The nearest keyframe restores, and every journal from there to the moment is there. */
  predicate Lands(r: Ring, ret: Retained, target: Pos)
    requires InRange(r)
  {
    && InReach(r, target.epoch)
    && var kf := NearestKeyframe(r, target.epoch);
       kf in ret.keyframes && Loadable(ret, kf, target.epoch, target.offset)
  }

  /** What is in reach is the window, from its oldest epoch to its newest. */
  lemma ReachIsWindow(r: Ring, e: U64)
    requires WellFormed(r) && Increasing(Window(r))
    ensures InReach(r, e) <==> InWindow(r, e)
  {
    hide Find, Newest, SlotOf;
    NewestIsLast(r);
    FindNearest(r, e);
  }

  /** With the journal of one epoch only: keyframes themselves, the steps of that epoch from its
      own keyframe, and its end. */
  lemma OneJournalLands(r: Ring, ret: Retained, j: U64, target: Pos)
    requires InRange(r) && ret.journals == {j} && InReach(r, target.epoch)
    ensures
      var kf := NearestKeyframe(r, target.epoch);
      Lands(r, ret, target) <==>
        && kf in ret.keyframes
        && (if target.offset > 0 then target.epoch == kf == j else target.epoch == kf || (kf == j && target.epoch == j + 1))
  {
    hide Find, Newest;
    var kf := NearestKeyframe(r, target.epoch);
    if Lands(r, ret, target) && kf < target.epoch {
      assert kf in ret.journals;
      assert kf + 1 < target.epoch ==> kf + 1 in ret.journals;
    }
  }

  lemma RewindLands<S, I>(r: Ring, rec: Recording<S, I>, ret: Retained, target: Pos)
    requires Tape(r, rec, ret)
    ensures InReach(r, target.epoch) <==> InWindow(r, target.epoch)
    ensures InWindow(r, target.epoch) ==>
              && Lands(r, ret, target)
              && Landed(rec, NearestKeyframe(r, target.epoch), target.epoch, target.offset)
                 == rec.StateAt(target.epoch, target.offset)
  {
    hide Find, Newest, SlotOf, Landed;
    var w := Window(r);
    ReachIsWindow(r, target.epoch);
    FindNearest(r, target.epoch);
    if InWindow(r, target.epoch) {
      var i :| 0 <= i < r.count && SlotOf(r, i) == Find(r, target.epoch).value && w[i] <= target.epoch;
      assert w[0] <= w[i];
      assert rec.Contiguous(w[i], target.epoch);
      ReplayIsRecorded(rec, w[i], target.epoch, target.offset);
    }
  }

  class Rewinder<S, I> {
    const ring: Ring
    const engine: Engine<S, I>
    var landedKeyframe: U64
    var landed: Pos
    var runnable: bool

    ghost predicate OnTape()
    {
      Tape(ring, engine.rec, engine.ret)
    }

    constructor (ring: Ring, engine: Engine<S, I>)
      ensures this.ring == ring && this.engine == engine && !runnable
    {
      this.ring, this.engine := ring, engine;
      landedKeyframe, landed, runnable := 0, Pos(0, 0), false;
    }

    /** Land on a past moment: out of range, landed by replay from the nearest keyframe, or not
        replayable, each exactly when. On a consistent tape this succeeds exactly inside the
        window, and the machine is then in the recorded state. */
    method To(target: Pos) returns (rc: RewindCode)
      requires InRange(ring)
      modifies this, engine
      ensures rc == if !InReach(ring, target.epoch) then OutOfRange
                    else if Lands(ring, engine.ret, target) then RewindOk else ErrReplay
      ensures rc == RewindOk ==>
                && landed == target && runnable && landedKeyframe == NearestKeyframe(ring, target.epoch)
                && engine.state == Landed(engine.rec, landedKeyframe, target.epoch, target.offset)
      ensures rc != RewindOk ==> !runnable
      ensures OnTape() ==>
                && rc == (if InWindow(ring, target.epoch) then RewindOk else OutOfRange)
                && (rc == RewindOk ==> engine.state == engine.rec.StateAt(target.epoch, target.offset))
    {
      hide Window, Find, Newest;
      runnable := false;
      if OnTape() {
        RewindLands(ring, engine.rec, engine.ret, target);
      }
      var newest := Newest(ring);
      if newest.None? || target.epoch > newest.value {
        return OutOfRange;
      }
      var s := Find(ring, target.epoch);
      if s.None? {
        return OutOfRange;
      }
      var kf := ring.slots[s.value].epoch;
      var code := engine.Run(kf, target.epoch, target.offset);
      if code != ReplayEngine.Ok {
        return ErrReplay;
      }
      landedKeyframe, landed := kf, target;
      runnable := engine.done;
      rc := RewindOk;
    }
  }

  // ----- Reverse execution -----

  datatype ReverseCode = StepOk | AtStart | ErrRewind
  datatype WatchCode = Hit | NotFound | WatchErr

  /** Stepping from a visited moment to its predecessor leaves no retained moment out. */
  lemma StepDown(r: Ring, len: Lengths, start: Pos, cur: Pos)
    requires InRange(r) && (cur == start || Before(r, len, cur, start))
    ensures
      var p := Prev(r, len, cur);
      && (p.Some? ==> Before(r, len, p.value, start) && Less(p.value, cur))
      && forall q :: Before(r, len, q, start) ==>
           || q == cur || Less(cur, q)
           || (p.Some? && (q == p.value || Less(q, p.value)))
  {
    hide Before, Prev;
    PrevIsGreatest(r, len, cur);
    var p := Prev(r, len, cur);
    if cur != start {
      if p.Some? {
        BeforeChains(r, len, cur, start, p.value);
      }
      forall q | Before(r, len, q, start) && Less(q, cur) ensures Before(r, len, q, cur) {
        BeforeChains(r, len, cur, start, q);
      }
    } else {
      forall q | Before(r, len, q, start) ensures Less(q, start) {
        BeforeLess(r, len, q, start);
      }
    }
  }

  lemma BeforeLess(r: Ring, len: Lengths, q: Pos, p: Pos)
    requires InRange(r) && Before(r, len, q, p)
    ensures Less(q, p)
  {
  }

  lemma PrevInWindow(r: Ring, len: Lengths, cur: Pos)
    requires WellFormed(r) && Increasing(Window(r)) && Prev(r, len, cur).Some?
    requires InWindow(r, cur.epoch)
    ensures InWindow(r, Prev(r, len, cur).value.epoch)
  {
    var p := Prev(r, len, cur).value;
    if cur.offset == 0 {
      LastStepIsGreatest(r, len, cur.epoch);
      var s :| 0 <= s < r.capacity && r.slots[s].valid != 0 && r.slots[s].epoch == p.epoch;
      SlotInWindow(r, s);
      var i :| 0 <= i < r.count && SlotOf(r, i) == s;
      assert Window(r)[0] <= Window(r)[i] <= Window(r)[r.count - 1];
    }
  }

  lemma StepsAgain<S, I>(r: Ring, rec: Recording<S, I>, ret: Retained, len: Lengths, from: Pos)
    requires Tape(r, rec, ret) && InWindow(r, from.epoch) && Prev(r, len, from).Some?
    requires var p := Prev(r, len, from).value; p.offset < rec.Len(p.epoch) < WHOLE_EPOCH
    ensures
      var p := Prev(r, len, from).value;
      var again := rec.machine(rec.StateAt(p.epoch, p.offset), rec.inputs(p.epoch)[p.offset]);
      && (p.epoch == from.epoch ==> again == rec.StateAt(from.epoch, from.offset))
      && (p.epoch < from.epoch && len(p.epoch) == rec.Len(p.epoch) ==> p.epoch < WHOLE_EPOCH && again == rec.key(p.epoch + 1))
  {
    hide Window, Find, LastStepBefore, Before, Tape, InWindow, WellFormed;
    TapeShape(r, rec, ret);
    InRangeToo(r);
    var p := Prev(r, len, from).value;
    StateSteps(rec, p.epoch, p.offset);
    PrevInWindow(r, len, from);
    if from.offset == 0 {
      LastStepEnds(r, len, from.epoch);
      if len(p.epoch) == rec.Len(p.epoch) {
        EpochsJoin(r, rec, ret, p.epoch, from.epoch);
      }
    }
  }

  lemma InRangeToo(r: Ring)
    requires WellFormed(r)
    ensures InRange(r)
  {
  }

  lemma EpochsJoin<S, I>(r: Ring, rec: Recording<S, I>, ret: Retained, e: U64, later: U64)
    requires Tape(r, rec, ret) && InWindow(r, e) && InWindow(r, later) && e < later
    ensures rec.key(e + 1) == rec.StateAt(e, rec.Len(e))
  {
    hide Window;
  }

  lemma {:induction false} LastStepEnds(r: Ring, len: Lengths, epoch: U64)
    requires InRange(r) && LastStepBefore(r, len, epoch).Some?
    ensures var p := LastStepBefore(r, len, epoch).value; p.epoch < epoch && p.offset + 1 == len(p.epoch)
    decreases epoch
  {
    var kf := r.slots[Find(r, epoch - 1).value].epoch;
    if len(kf) == 0 {
      LastStepEnds(r, len, kf);
    }
  }

  class Debugger<S, I> {
    const rw: Rewinder<S, I>
    const len: Lengths
    var cur: Pos

    ghost predicate Valid() {
      InRange(rw.ring)
    }

    /** A consistent tape with the current moment inside its window. */
    ghost predicate OnTape()
      reads this
    {
      rw.OnTape() && InWindow(rw.ring, cur.epoch)
    }

    ghost function Recorded(p: Pos): S {
      rw.engine.rec.StateAt(p.epoch, p.offset)
    }

    constructor (rw: Rewinder<S, I>, len: Lengths)
      ensures this.rw == rw && this.len == len && cur == Pos(0, 0)
    {
      this.rw, this.len, cur := rw, len, Pos(0, 0);
    }

    method SetPosition(p: Pos)
      modifies this
      ensures cur == p
    {
      cur := p;
    }

    /** The walk over keyframes, skipping epochs without steps. */
    method FindPrev() returns (p: Option<Pos>)
      requires Valid()
      ensures p == Prev(rw.ring, len, cur)
    {
      if cur.offset > 0 {
        return Some(Pos(cur.epoch, cur.offset - 1));
      }
      var epoch := cur.epoch;
      while epoch > 0
        invariant LastStepBefore(rw.ring, len, epoch) == Prev(rw.ring, len, cur)
      {
        var s := Find(rw.ring, epoch - 1);
        if s.None? {
          return None;
        }
        var kf := rw.ring.slots[s.value].epoch;
        if len(kf) > 0 {
          return Some(Pos(kf, len(kf) - 1));
        }
        epoch := kf;
      }
      p := None;
    }

    /** One step back. Taking the recorded step again undoes it: inside an epoch that gives the
        moment it came from, at the end of an earlier one the next keyframe. */
    method Step() returns (rc: ReverseCode)
      requires Valid()
      modifies this, rw, rw.engine
      ensures rc == AtStart <==> Prev(rw.ring, len, old(cur)).None?
      ensures rc == StepOk <==>
                Prev(rw.ring, len, old(cur)).Some? && Lands(rw.ring, rw.engine.ret, Prev(rw.ring, len, old(cur)).value)
      ensures cur == if rc == StepOk then Prev(rw.ring, len, old(cur)).value else old(cur)
      ensures old(OnTape()) ==> rc != ErrRewind && OnTape()
      ensures old(OnTape()) && rc == StepOk ==> rw.engine.state == Recorded(cur)
      ensures old(OnTape()) && rc == StepOk && cur.offset < rw.engine.rec.Len(cur.epoch) < WHOLE_EPOCH ==>
                var again := rw.engine.rec.machine(rw.engine.state, rw.engine.rec.inputs(cur.epoch)[cur.offset]);
                && (cur.epoch == old(cur).epoch ==> again == Recorded(old(cur)))
                && (cur.epoch < old(cur).epoch && len(cur.epoch) == rw.engine.rec.Len(cur.epoch) ==>
                      again == rw.engine.rec.key(cur.epoch + 1))
    {
      hide Prev, Window, Tape;
      var p := FindPrev();
      if p.None? {
        return AtStart;
      }
      if OnTape() {
        TapeShape(rw.ring, rw.engine.rec, rw.engine.ret);
        PrevInWindow(rw.ring, len, cur);
      }
      var code := rw.To(p.value);
      if code != RewindOk {
        return ErrRewind;
      }
      cur := p.value;
      rc := StepOk;
      if old(OnTape()) && cur.offset < rw.engine.rec.Len(cur.epoch) < WHOLE_EPOCH {
        StepsAgain(rw.ring, rw.engine.rec, rw.engine.ret, len, old(cur));
      }
    }

    /** Repeated steps do not drift: n of them are one rewind to the n-th predecessor, and they
        stop short exactly when fewer than n moments are retained before the start. */
    method StepBack(n: nat) returns (rc: ReverseCode)
      requires Valid()
      modifies this, rw, rw.engine
      ensures rc == StepOk ==> NthPrev(rw.ring, len, old(cur), n) == Some(cur)
      ensures rc == AtStart ==> NthPrev(rw.ring, len, old(cur), n).None? && Prev(rw.ring, len, cur).None?
      ensures old(OnTape()) ==> rc != ErrRewind && OnTape()
      ensures old(OnTape()) && rc == StepOk && n > 0 ==> rw.engine.state == Recorded(cur)
    {
      hide Prev, Window, Tape;
      ghost var tape := OnTape();
      var i := 0;
      rc := StepOk;
      while i < n
        invariant 0 <= i <= n && rc == StepOk
        invariant NthPrev(rw.ring, len, cur, n - i) == NthPrev(rw.ring, len, old(cur), n)
        invariant tape ==> OnTape() && (i > 0 ==> rw.engine.state == Recorded(cur))
      {
        rc := Step();
        if rc != StepOk {
          return;
        }
        i := i + 1;
      }
    }

    /** Run backward to a stop. The stop found is the latest one before the start; `visited` is
        every retained moment from the start down to where the run ended, newest first. */
    method Continue(stop: (Pos, S) -> bool) returns (rc: ReverseCode, ghost visited: seq<Pos>)
      requires Valid()
      modifies this, rw, rw.engine
      ensures forall i, j :: 0 <= i < j < |visited| ==> Less(visited[j], visited[i])
      ensures forall q :: q in visited <==> Before(rw.ring, len, q, old(cur)) && !Less(q, cur)
      ensures rc == AtStart ==> forall q :: Before(rw.ring, len, q, old(cur)) ==> q in visited
      ensures old(OnTape()) ==>
                && rc != ErrRewind && OnTape()
                && (rc == StepOk ==> cur in visited && stop(cur, Recorded(cur)) && rw.engine.state == Recorded(cur))
                && forall q :: q in visited && (rc == StepOk ==> q != cur) ==> !stop(q, Recorded(q))
    {
      hide Prev, Window, Tape, Before;
      ghost var start, tape := cur, OnTape();
      visited := [];
      BeforeIrreflexive(rw.ring, len, start);
      while true
        invariant cur == start || Before(rw.ring, len, cur, start)
        invariant forall i, j :: 0 <= i < j < |visited| ==> Less(visited[j], visited[i])
        invariant forall q :: q in visited <==> Before(rw.ring, len, q, start) && !Less(q, cur)
        invariant tape ==> OnTape() && forall q :: q in visited ==> !stop(q, Recorded(q))
        decreases cur.epoch, cur.offset
      {
        StepDown(rw.ring, len, start, cur);
        rc := Step();
        if rc != StepOk {
          return;
        }
        forall i | 0 <= i < |visited| ensures Less(cur, visited[i]) {
          assert visited[i] in visited;
        }
        visited := visited + [cur];
        if stop(cur, rw.engine.state) {
          return;
        }
      }
    }

    /** Run backward to where a condition on the machine state last held. */
    method Breakpoint(cond: S -> bool) returns (rc: WatchCode, hit: Pos)
      requires Valid()
      modifies this, rw, rw.engine
      ensures hit == cur
      ensures old(OnTape()) ==> rc != WatchErr && OnTape()
      ensures old(OnTape()) && rc == Hit ==>
                && Before(rw.ring, len, cur, old(cur)) && cond(Recorded(cur)) && rw.engine.state == Recorded(cur)
                && forall q :: Before(rw.ring, len, q, old(cur)) && Less(cur, q) ==> !cond(Recorded(q))
      ensures old(OnTape()) ==>
                (rc == NotFound <==> forall q :: Before(rw.ring, len, q, old(cur)) ==> !cond(Recorded(q)))
    {
      hide Prev, Window, Tape, Before;
      ghost var start, seen := cur, [];
      var code;
      code, seen := Continue((p: Pos, s: S) => cond(s));
      hit := cur;
      if code == StepOk {
        forall q | Before(rw.ring, len, q, start) && Less(cur, q) ensures q in seen {
        }
        return Hit, cur;
      }
      rc := if code == AtStart then NotFound else WatchErr;
    }

    /** Run backward to the last change of a probed value. The hit is the latest moment at or
        before the start whose predecessor reads differently; from there to the start the value
        never changes. There is no hit exactly when it never changed in the window. */
    method Watchpoint(probe: S -> U64) returns (rc: WatchCode, hit: Pos)
      requires Valid()
      modifies this, rw, rw.engine
      ensures hit == cur
      ensures old(OnTape()) ==> rc != WatchErr && OnTape()
      ensures old(OnTape()) && rc == Hit ==>
                && (cur == old(cur) || Before(rw.ring, len, cur, old(cur)))
                && rw.engine.state == Recorded(cur)
                && Prev(rw.ring, len, cur).Some?
                && probe(Recorded(Prev(rw.ring, len, cur).value)) != probe(Recorded(cur))
                && probe(Recorded(cur)) == probe(Recorded(old(cur)))
                && forall q :: Before(rw.ring, len, q, old(cur)) && !Less(q, cur)
                     ==> probe(Recorded(q)) == probe(Recorded(old(cur)))
      ensures old(OnTape()) ==>
                (rc == NotFound <==> forall q :: Before(rw.ring, len, q, old(cur))
                                       ==> probe(Recorded(q)) == probe(Recorded(old(cur))))
    {
      hide Prev, Window, Tape, Before;
      ghost var start, tape := cur, OnTape();
      BeforeIrreflexive(rw.ring, len, start);
      var code := rw.To(cur);
      if code != RewindOk {
        return WatchErr, cur;
      }
      var newer := probe(rw.engine.state);
      while true
        invariant cur == start || Before(rw.ring, len, cur, start)
        invariant tape ==> OnTape() && newer == probe(Recorded(cur)) == probe(Recorded(start))
        invariant tape ==> forall q :: Before(rw.ring, len, q, start) && !Less(q, cur) ==> probe(Recorded(q)) == newer
        decreases cur.epoch, cur.offset
      {
        var before := cur;
        StepDown(rw.ring, len, start, cur);
        var step := Step();
        if step == AtStart {
          return NotFound, cur;
        }
        if step != StepOk {
          return WatchErr, cur;
        }
        var older := probe(rw.engine.state);
        if older != newer {
          assert Before(rw.ring, len, cur, start);
          code := rw.To(before);
          if code != RewindOk {
            return WatchErr, cur;
          }
          cur := before;
          return Hit, before;
        }
        newer := older;
      }
    }
  }

  lemma TapeShape<S, I>(r: Ring, rec: Recording<S, I>, ret: Retained)
    requires Tape(r, rec, ret)
    ensures WellFormed(r) && Increasing(Window(r))
  {
  }

  lemma BeforeIrreflexive(r: Ring, len: Lengths, start: Pos)
    requires InRange(r)
    ensures forall q :: Before(r, len, q, start) ==> Less(q, start)
  {
  }
}
