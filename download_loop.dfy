/** A node's download loop (node.go), one pass at a time: decide whether
    to stop, to wait for a finished transfer, to poll again, or to start a
    transfer, and apply that decision to the node's state. The segmented
    file's `plannedComplete` and `transferInProgress` are observations
    passed in, and the finished transfer the node would receive on its
    channel is a parameter. */
module DownloadLoop {
  import opened SegmentedFile
  import opened Peer
  import opened Coordinator

  datatype Decision =
    | Finish    // all segments planned complete, nothing in flight: set `complete` and stop
    | Block     // wait for one finished transfer and account for it
    | Repoll    // no peer and nothing in flight: go round again
    | Schedule  // a peer was found: start a transfer from it

  /** The loop's choice. The loop exits only when everything is planned
      complete and nothing is in flight; it waits only while a transfer is
      in flight; with no peer and nothing in flight it polls again; and it
      starts a transfer only for a peer it was given. */
  function Decide(plannedComplete: bool, inProgress: bool, peerFound: bool): (d: Decision)
    ensures d == Finish <==> plannedComplete && !inProgress
    ensures d == Block ==> inProgress
    ensures d == Repoll <==> !plannedComplete && !peerFound && !inProgress
    ensures d == Schedule <==> !plannedComplete && peerFound
  {
    if plannedComplete then
      if !inProgress then Finish else Block
    else if !peerFound then
      if inProgress then Block else Repoll
    else Schedule
  }

  /** Whether `start` launches the loop: only for a node not yet complete. */
  method Start(n: Node) returns (launched: bool)
    ensures launched <==> !n.complete
  {
    launched := !n.complete;
  }

  /** A node is created and started: the download loop is launched
      exactly when the node was not created with availability ratio 1,
      that is, exactly when it did not start out complete. */
  method NewNodeAndStart(counter: NodeCounter, numDataChunks: nat, segmentSize: int, maxBandwidth: real,
                         bandwidthRatio: real, availabilityRatio: real, perm: seq<int>)
    returns (n: Node, launched: bool)
    requires segmentSize > 0
    requires SeedableRatio(availabilityRatio, numDataChunks)
    requires IsPermutation(perm, numDataChunks)
    modifies counter
    ensures launched <==> availabilityRatio != 1.0
    ensures |n.dataChunkAvailability| == numDataChunks
    ensures !launched ==> forall i :: 0 <= i < numDataChunks ==> n.dataChunkAvailability[i] == Available
  {
    n := NewNode(counter, numDataChunks, segmentSize, maxBandwidth, bandwidthRatio, availabilityRatio, perm);
    launched := Start(n);
  }

  /** The upload counters of `nodes`. */
  function UploadCounters(nodes: set<Node>): set<Bandwidth>
  {
    set p | p in nodes :: p.currentUploadBw
  }

  /** One pass of the loop for node `n`. When the loop waits, it receives
      `next`; its clock becomes the later of its own time and the
      transfer's finish time, and the transfer is accounted as done. */
  method Iterate(n: Node, sv: Supervisor, plannedComplete: bool, inProgress: bool, next: TransferResult)
    returns (d: Decision, act: Action)
    requires n.Valid()
    requires !plannedComplete ==> sv.CoversFile(n)
    requires forall p :: p in sv.pool ==> p.currentUploadBw != n.currentDownloadBw
    requires inProgress ==> next.act.p != null && next.act.p.currentUploadBw != n.currentDownloadBw
    modifies n`complete, n`simTime, n`chunkStatus, n`connectedNodes, n.currentDownloadBw
    modifies UploadCounters(sv.pool), if next.act.p != null then {next.act.p.currentUploadBw} else {}
    ensures d == Decide(plannedComplete, inProgress, act.p != null)
    ensures n.simTime >= old(n.simTime)
    ensures n.complete == (old(n.complete) || d == Finish)
    ensures !plannedComplete && act.p != null ==>
              act.p in sv.pool && sv.Candidate(n, old(n.connectedNodes), act.p, act.chk.idx)
    ensures !plannedComplete && act.p != null ==>
              forall i :: 0 <= i < act.chk.idx ==> !sv.Candidate(n, old(n.connectedNodes), act.p, i)
    ensures !plannedComplete && act.p == null ==>
              forall p, i :: p in sv.pool && 0 <= i < sv.file.numDataChunks ==> !sv.Candidate(n, old(n.connectedNodes), p, i)
    ensures d == Schedule ==>
              && n.chunkStatus == old(n.chunkStatus)[n.Address(act.chk) := PartiallyAvailable]
              && n.connectedNodes == old(n.connectedNodes) + {act.p}
              && n.currentDownloadBw.value == old(n.currentDownloadBw.value) + act.bw
              && act.p.currentUploadBw.value == old(act.p.currentUploadBw.value) + act.bw
              && n.simTime == old(n.simTime)
    ensures d == Block ==>
              && n.simTime == Max(old(n.simTime), next.finishTime)
              && n.chunkStatus == old(n.chunkStatus)[n.Address(next.act.chk) := Available]
              && n.connectedNodes == old(n.connectedNodes) - {next.act.p}
              && n.currentDownloadBw.value == old(n.currentDownloadBw.value) - next.act.bw
              && next.act.p.currentUploadBw.value == old(next.act.p.currentUploadBw.value) - next.act.bw
    ensures d == Schedule ==>
              forall b :: b in UploadCounters(sv.pool) && b != act.p.currentUploadBw ==> b.value == old(b.value)
    ensures d == Block ==>
              forall b :: b in UploadCounters(sv.pool) && b != next.act.p.currentUploadBw ==> b.value == old(b.value)
    ensures d == Finish || d == Repoll ==>
              && n.simTime == old(n.simTime) && n.chunkStatus == old(n.chunkStatus)
              && n.connectedNodes == old(n.connectedNodes)
              && n.currentDownloadBw.value == old(n.currentDownloadBw.value)
    ensures d == Finish || d == Repoll ==> forall p :: p in sv.pool ==> p.currentUploadBw.value == old(p.currentUploadBw.value)
    ensures d != Block && next.act.p != null && (d != Schedule || next.act.p.currentUploadBw != act.p.currentUploadBw) ==>
              next.act.p.currentUploadBw.value == old(next.act.p.currentUploadBw.value)
  {
    act := Action(null, Chunk(0, 0), 0.0);
    if plannedComplete {
      if !inProgress {
        n.complete := true;
        d := Finish;
        return;
      }
    } else {
      act := sv.GetOptimalAction(n, n.connectedNodes);
      if act.p == null {
        if !inProgress {
          d := Repoll;
          return;
        }
      } else {
        n.PrepareTransfer(act);
        d := Schedule;
        return;
      }
    }
    // block: one finished transfer arrives
    d := Block;
    n.simTime := Max(n.simTime, next.finishTime);
    n.TransferDone(next.act);
  }
}
