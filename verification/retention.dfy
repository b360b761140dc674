/** The checkpoint engine writing back through the keyframe store. */
module Retention {
  import opened Bytes
  import opened SnapshotStore
  import opened CheckpointEngine
  import KeyframeStore
  import KeyframeRing

  /** The keyframe of one period. */
  ghost function KeyframeOf(s: State, c: Cycle): Checkpoint
    requires Ready(s)
  {
    var t := WritebackPoint(s, c);
    WalkMapped(t);
    Checkpoint(t.epoch, StreamOf(t))
  }

  /** The store's steps in one session, each keyframe cut off after so many sector writes. */
  ghost function Session(s: State, cs: seq<Cycle>, cuts: seq<nat>): seq<KeyframeStore.Step>
    requires Ready(s) && |cuts| == |cs|
    decreases |cs|
  {
    if cs == [] then []
    else
      CommitReady(WritebackPoint(s, cs[0]));
      [KeyframeStore.Checkpointed(KeyframeOf(s, cs[0]), cuts[0])]
      + Session(AfterCommit(WritebackPoint(s, cs[0])), cs[1..], cuts[1..])
  }

  /** While the epoch counter does not wrap, the epochs of a session grow; above what is retained
      already exactly when the session resumes at or past it. */
  lemma {:induction false} SessionGrows(s: State, cs: seq<Cycle>, cuts: seq<nat>, floor: int)
    requires Ready(s) && |cuts| == |cs| && s.epoch + |cs| < 0x1_0000_0000_0000_0000
    ensures KeyframeStore.Growing(floor, Session(s, cs, cuts)) <==> cs == [] || floor <= s.epoch
    decreases |cs|
  {
    hide Ready, StreamOf;
    if cs != [] {
      var t := WritebackPoint(s, cs[0]);
      EpochsCount(s, [], cs[0]);
      CommitReady(t);
      SessionGrows(AfterCommit(t), cs[1..], cuts[1..], t.epoch);
      var steps := Session(s, cs, cuts);
      assert steps[0] == KeyframeStore.Checkpointed(KeyframeOf(s, cs[0]), cuts[0]);
      assert steps[1..] == Session(AfterCommit(t), cs[1..], cuts[1..]);
    }
  }

  /** So a session that resumes at or past every retained epoch keeps a store of up to 30 regions
      healthy, wherever its power fails. */
  lemma SessionKeepsHealth(m: KeyframeStore.Machine, l: KeyframeStore.Layout, held: KeyframeStore.Contents,
                           s: State, cs: seq<Cycle>, cuts: seq<nat>)
    requires l.Valid() && KeyframeStore.Healthy(m, l, held) && l.capacity <= KeyframeRing.IN_FIRST_SECTOR
    requires Ready(s) && |cuts| == |cs| && s.epoch + |cs| < 0x1_0000_0000_0000_0000
    requires KeyframeStore.EpochsUpTo(held, s.epoch)
    ensures
      var steps := Session(s, cs, cuts);
      && KeyframeStore.MachineOk(m, l) && |held| == l.capacity && KeyframeStore.RunAllowed(m, l, steps)
      && KeyframeStore.Healthy(KeyframeStore.Run(m, l, steps), l, KeyframeStore.ContentsAfter(held, m, l, steps))
  {
    hide Ready, KeyframeStore.Healthy, KeyframeStore.EpochsUpTo, Session, KeyframeStore.Growing;
    SessionGrows(s, cs, cuts, s.epoch);
    KeyframeStore.SmallRingRuns(m, l, held, Session(s, cs, cuts), s.epoch);
  }
}
