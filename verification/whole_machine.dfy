/** From the capture of the kernel's tables, through any power cuts, to the tables again: the disk
    is recognised, the last committed checkpoint is found, its kernel blobs are put together and
    handed to the restorers, and the tables are read out of them. */
module WholeMachine {
  import opened Bytes
  import opened Disk
  import opened SnapshotStore
  import opened CheckpointEngine
  import opened KernelBlob
  import opened KernelState
  import opened KernelCapture
  import DiskReattach
  import ProcTable
  import IpcTable

  const TAG_PROCS: U32 := 1
  const TAG_IPC: U32 := 3

  /** The process and IPC restorers refuse a blob that does not parse and a table that is not
      consistent. What the other tags' restorers do is left open; it may depend on what was
      restored before. */
  ghost predicate Takes(others: Restorers, before: seq<Delivery>, d: Delivery) {
    if d.tag == TAG_PROCS then
      ProcTable.Parse(d.blob).Some? && ProcTable.Consistent(ProcTable.Parse(d.blob).value)
    else if d.tag == TAG_IPC then
      IpcTable.Parse(d.blob).Some? && IpcTable.Consistent(IpcTable.Parse(d.blob).value)
    else others(before, d)
  }

  ghost function RestorersWith(others: Restorers): Restorers {
    (before, d) => Takes(others, before, d)
  }

  ghost predicate OthersTake(due: seq<Delivery>, others: Restorers) {
    forall k :: 0 <= k < |due| && due[k].tag != TAG_PROCS && due[k].tag != TAG_IPC ==> others(due[..k], due[k])
  }

  /** What a period in which the machine did these things would commit. */
  ghost function CheckpointOf(s: State, closed: seq<Act>, open: seq<Act>): Checkpoint
    requires Ready(s)
  {
    var t := WritebackPoint(s, Cycle(Events(closed), Events(open)));
    WalkMapped(t);
    Checkpoint(t.epoch, StreamOf(t))
  }

  lemma AcceptedExactly(due: seq<Delivery>, others: Restorers, p: Delivery, i: Delivery)
    requires p in due && i in due && p.tag == TAG_PROCS && i.tag == TAG_IPC
    requires forall j, k :: 0 <= j < k < |due| ==> due[j].tag != due[k].tag
    ensures AllAccepted(due, RestorersWith(others)) <==>
              Takes(others, [], p) && Takes(others, [], i) && OthersTake(due, others)
  {
    hide ProcTable.Parse, ProcTable.Consistent, IpcTable.Parse, IpcTable.Consistent;
    var a, b :| 0 <= a < |due| && 0 <= b < |due| && due[a] == p && due[b] == i;
    var acc := RestorersWith(others);
    assert forall k :: 0 <= k < |due| ==> acc(due[..k], due[k]) == Takes(others, due[..k], due[k]);
    assert forall k :: 0 <= k < |due| && due[k].tag == TAG_PROCS ==> due[k] == p;
    assert forall k :: 0 <= k < |due| && due[k].tag == TAG_IPC ==> due[k] == i;
    if AllAccepted(due, acc) {
      assert acc(due[..a], due[a]) && acc(due[..b], due[b]);
      forall k | 0 <= k < |due| && due[k].tag != TAG_PROCS && due[k].tag != TAG_IPC
        ensures others(due[..k], due[k])
      {
        assert acc(due[..k], due[k]);
      }
    }
  }

  /** Over any series of checkpoints cut off anywhere: if in the period of the last one to commit
      the process and IPC tables were captured, among whatever else went on, then at the next boot
      the disk is re-attached and the checkpoint found; the kernel-state pass succeeds exactly when
      there are at most six blobs, both tables are consistent and every other restorer takes its blob in its turn; and then what
      was handed over parses to exactly those tables. */
  lemma TablesSurvivePowerCuts(
      d: Image, g: Geometry, runs: seq<Attempt>, s: State, closed: seq<Act>, open: seq<Act>,
      procs: seq<ProcTable.Proc>, ipc: IpcTable.Ipc, others: Restorers, junk: nat -> Byte)
    requires g.Valid() && Durable(d, g, None)
    requires Ready(s) && OnceEach(closed + open, map[])
    requires LastCommitted(g, None, runs) == Some(CheckpointOf(s, closed, open))
    requires
      var blobs := BlobsOf(closed + open, map[]);
      && |procs| <= ProcTable.MAX && TAG_PROCS in blobs && blobs[TAG_PROCS] == ProcTable.Blob(procs)
      && IpcTable.Small(ipc) && TAG_IPC in blobs && blobs[TAG_IPC] == IpcTable.Blob(ipc)
    ensures
      var after, ck := RunAttempts(d, g, runs), CheckpointOf(s, closed, open);
      var b, due := Pass(ck.records, junk, RestorersWith(others)), Due(ck.records, BlobsOf(closed + open, map[]));
      && DiskReattach.CarriesStore(after, g.base)
      && ReadBack(after, g) == Some(ck)
      && (b.ok <==> |BlobsOf(closed + open, map[])| <= 6 && ProcTable.Consistent(procs) && IpcTable.Consistent(ipc) && OthersTake(due, others))
      && (b.ok ==>
            && b.sent == due
            && (exists k :: 0 <= k < |due| && due[k].tag == TAG_PROCS && ProcTable.Parse(due[k].blob) == Some(procs))
            && (exists k :: 0 <= k < |due| && due[k].tag == TAG_IPC && IpcTable.Parse(due[k].blob) == Some(ipc)))
  {
    hide Durable, LastCommitted, RunAttempts, ReadBack, Carries, Pass, Due, AllAccepted, OthersTake, RestorersWith;
    hide ProcTable.Parse, IpcTable.Parse, ProcTable.Consistent, IpcTable.Consistent, BlobsOf, OnceEach, Ready;
    hide ProcTable.Blob, IpcTable.Blob, DiskReattach.CarriesStore, CheckpointOf;
    var blobs, ck := BlobsOf(closed + open, map[]), CheckpointOf(s, closed, open);
    DiskReattach.StoreRecognised(d, g, runs);
    CrashSafety(d, g, runs);
    ProcsParse(procs);
    IpcParse(ipc);
    CheckpointCarries(s, closed, open);
    KernelStateRestored(ck.records, blobs, junk, RestorersWith(others));
    var due := Due(ck.records, blobs);
    var p, i := Delivery(TAG_PROCS, blobs[TAG_PROCS]), Delivery(TAG_IPC, blobs[TAG_IPC]);
    assert p in due && i in due;
    AcceptedExactly(due, others, p, i);
  }

  lemma CheckpointCarries(s: State, closed: seq<Act>, open: seq<Act>)
    requires Ready(s) && OnceEach(closed + open, map[])
    ensures Carries(CheckpointOf(s, closed, open).records, BlobsOf(closed + open, map[]))
  {
    hide Carries, OnceEach, BlobsOf, StreamOf, Valid;
    CycleCarries(s, closed, open);
  }

  lemma ProcsParse(procs: seq<ProcTable.Proc>)
    requires |procs| <= ProcTable.MAX
    ensures ProcTable.Parse(ProcTable.Blob(procs)) == Some(procs)
  {
    hide ProcTable.Parse, ProcTable.Blob;
    ProcTable.ParseExactly(ProcTable.Blob(procs), procs);
  }

  lemma IpcParse(ipc: IpcTable.Ipc)
    requires IpcTable.Small(ipc)
    ensures IpcTable.Parse(IpcTable.Blob(ipc)) == Some(ipc)
  {
    hide IpcTable.Parse, IpcTable.Blob;
    IpcTable.BlobLength(ipc);
    IpcTable.RoundTrip(ipc, [], 0);
    assert IpcTable.Blob(ipc) + [] == IpcTable.Blob(ipc);
  }
}
