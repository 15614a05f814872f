/** A peer of the swarm (node.go): its bandwidth counters, the set of
    peers it is connected to, its simulated clock, and the chunk statuses
    it writes into its segmented file. */
module Peer {
  import opened SegmentedFile

  /** Availability of a chunk at a node; the Go zero value is `NotAvailable`. */
  datatype Status = NotAvailable | PartiallyAvailable | Available

  /** node.go's chunk address: segment, redundancy level, position in the segment. */
  datatype ChunkId = ChunkId(sIdx: int, rIdx: int, cIdx: int)

  /** A scheduling decision: the peer to pull from (`null` for none), the
      chunk, and the bandwidth the transfer uses. */
  datatype Action = Action(p: Node?, chk: Chunk, bw: real)

  /** What a finished transfer reports on the node's channel. */
  datatype TransferResult = TransferResult(act: Action, finishTime: real)

  /** The address that seeding gives flat data chunk `idx` (node.go:80):
      segment `idx / segmentSize`, level 0, position `idx % segmentSize`. */
  function SeedAddress(idx: int, segmentSize: int): ChunkId
    requires segmentSize > 0
  {
    ChunkId(idx / segmentSize, 0, idx % segmentSize)
  }

  /** Seeding addresses invert the layout's numbering: the chunk numbered
      `i * segmentLength + j` is found at segment `i`, position `j`. */
  lemma SeedAddressOfLayout(fileSize: int, segmentLength: int, chunkSize: int, i: nat, j: nat)
    requires ValidDescriptor(fileSize, segmentLength, chunkSize)
    requires i < Layout(fileSize, segmentLength, chunkSize).numSegments
    requires j < |Layout(fileSize, segmentLength, chunkSize).segments[i].dataChunks|
    ensures SeedAddress(Layout(fileSize, segmentLength, chunkSize).segments[i].dataChunks[j].idx, segmentLength)
            == ChunkId(i, 0, j)
  {
    SegmentSizes(fileSize, segmentLength, chunkSize, i);
    var idx := i * segmentLength + j;
    assert Layout(fileSize, segmentLength, chunkSize).segments[i].dataChunks[j].idx == idx;
    DivModUnique(idx, segmentLength, i, j);
  }

  /** Quotient and remainder are determined by `q * d + r` with `0 <= r < d`. */
  lemma DivModUnique(x: int, d: int, q: int, r: int)
    requires d > 0 && 0 <= r < d && x == q * d + r
    ensures x / d == q && x % d == r
  {
    var q', r' := x / d, x % d;
    assert x == q' * d + r';
    var e := q - q';
    assert e * d == r' - r by {
      assert q * d - q' * d == (q - q') * d;
    }
    if e >= 1 {
      MulAtLeast(e, d);
      assert false;
    } else if e <= -1 {
      MulAtLeast(-e, d);
      assert false;
    }
  }

  /** A positive multiple of `d` is at least `d`. */
  lemma MulAtLeast(e: int, d: int)
    requires e >= 1 && d > 0
    ensures e * d >= d
  {
    assert e * d == (e - 1) * d + d;
    assert (e - 1) * d >= 0;
  }

  /** Distinct non-negative flat indices get distinct addresses. */
  lemma SeedAddressInjective(a: int, b: int, segmentSize: int)
    requires segmentSize > 0 && a >= 0 && b >= 0
    requires SeedAddress(a, segmentSize) == SeedAddress(b, segmentSize)
    ensures a == b
  {
    assert a == (a / segmentSize) * segmentSize + a % segmentSize;
    assert b == (b / segmentSize) * segmentSize + b % segmentSize;
  }

  /** `perm` is a permutation of `0 .. n - 1`. */
  predicate IsPermutation(perm: seq<int>, n: nat)
  {
    && |perm| == n
    && (forall i :: 0 <= i < n ==> 0 <= perm[i] < n)
    && (forall i, j :: 0 <= i < j < n ==> perm[i] != perm[j])
  }

  /** Go's conversion of a float to `int`, which truncates toward zero
      (`.Floor` rounds toward negative infinity). */
  function GoInt(x: real): (r: int)
    ensures x >= 0.0 ==> r as real <= x < r as real + 1.0
    ensures x < 0.0 ==> r as real - 1.0 < x <= r as real
  {
    if x >= 0.0 then x.Floor else -((-x).Floor)
  }

  /** The ratios seeding accepts: the slice `perm[:int(ratio * n)]` has a
      bound within `0 .. n` (any other bound panics). */
  predicate SeedableRatio(ratio: real, n: nat)
  {
    0 <= GoInt(ratio * n as real) <= n
  }

  /** Every ratio in [0, 1] is accepted. */
  lemma UnitRatioSeedable(ratio: real, n: nat)
    requires 0.0 <= ratio <= 1.0
    ensures SeedableRatio(ratio, n)
  {
    assert ratio * n as real <= 1.0 * n as real;
  }

  /** A ratio just above 1 is accepted too, yet its count is `n`: with 24
      chunks, ratio 1.02 seeds all of them. */
  lemma SlightlyAboveOneSeedsAll()
    ensures SeedableRatio(1.02, 24) && GoInt(1.02 * 24 as real) == 24
  {
    assert 1.02 * 24 as real == 24.48;
  }

  /** The number of chunks seeded for an availability ratio: Go's
      `int(ratio * n)`. */
  function SeedCount(ratio: real, n: nat): (k: nat)
    requires SeedableRatio(ratio, n)
    ensures k <= n
    ensures ratio * n as real >= 0.0 ==> k as real <= ratio * n as real < k as real + 1.0
    ensures ratio * n as real < 0.0 ==> k == 0
  {
    GoInt(ratio * n as real)
  }

  /** The addresses seeded from the first `k` entries of the permutation. */
  function Seeded(perm: seq<int>, k: nat, segmentSize: int): set<ChunkId>
    requires segmentSize > 0 && k <= |perm|
  {
    set t | 0 <= t < k :: SeedAddress(perm[t], segmentSize)
  }

  /** Seeding from a permutation marks exactly `k` distinct chunks. */
  lemma {:induction false} SeededCount(perm: seq<int>, k: nat, segmentSize: int)
    requires segmentSize > 0 && IsPermutation(perm, |perm|) && k <= |perm|
    ensures |Seeded(perm, k, segmentSize)| == k
  {
    if k > 0 {
      SeededCount(perm, k - 1, segmentSize);
      var a := SeedAddress(perm[k - 1], segmentSize);
      assert Seeded(perm, k, segmentSize) == Seeded(perm, k - 1, segmentSize) + {a};
      if a in Seeded(perm, k - 1, segmentSize) {
        var t :| 0 <= t < k - 1 && SeedAddress(perm[t], segmentSize) == a;
        SeedAddressInjective(perm[t], perm[k - 1], segmentSize);
        assert false;
      }
    }
  }

  /** The statuses after seeding the first `k` entries of `perm`, one
      `setChunk(address, Available)` at a time. */
  function SeedStatuses(base: map<ChunkId, Status>, perm: seq<int>, k: nat, segmentSize: int): map<ChunkId, Status>
    requires segmentSize > 0 && k <= |perm|
  {
    if k == 0 then base
    else SeedStatuses(base, perm, k - 1, segmentSize)[SeedAddress(perm[k - 1], segmentSize) := Available]
  }

  /** Seeding writes Available at exactly the seeded addresses and leaves
      every other recorded status alone. */
  lemma {:induction false} SeedStatusesMeaning(base: map<ChunkId, Status>, perm: seq<int>, k: nat, segmentSize: int)
    requires segmentSize > 0 && k <= |perm|
    ensures SeedStatuses(base, perm, k, segmentSize).Keys == base.Keys + Seeded(perm, k, segmentSize)
    ensures forall a :: a in SeedStatuses(base, perm, k, segmentSize) ==>
              SeedStatuses(base, perm, k, segmentSize)[a]
              == if a in Seeded(perm, k, segmentSize) then Available else base[a]
  {
    if k > 0 {
      SeedStatusesMeaning(base, perm, k - 1, segmentSize);
      assert Seeded(perm, k, segmentSize)
             == Seeded(perm, k - 1, segmentSize) + {SeedAddress(perm[k - 1], segmentSize)};
    }
  }

  /** The flat availability list after seeding the first `k` entries of `perm`. */
  function SeedFlat(before: seq<Status>, perm: seq<int>, k: nat): (after: seq<Status>)
    requires k <= |perm| && forall t :: 0 <= t < k ==> 0 <= perm[t] < |before|
    ensures |after| == |before|
  {
    if k == 0 then before else SeedFlat(before, perm, k - 1)[perm[k - 1] := Available]
  }

  /** Seeding marks Available exactly the flat indices among the first `k`
      entries of `perm`. */
  lemma {:induction false} SeedFlatMeaning(before: seq<Status>, perm: seq<int>, k: nat, i: nat)
    requires k <= |perm| && forall t :: 0 <= t < k ==> 0 <= perm[t] < |before|
    requires i < |before|
    ensures SeedFlat(before, perm, k)[i] == if i in perm[..k] then Available else before[i]
  {
    if k > 0 {
      SeedFlatMeaning(before, perm, k - 1, i);
      assert perm[..k] == perm[..k - 1] + [perm[k - 1]];
    }
  }

  /** At ratio 1 every chunk is seeded. */
  lemma FullSeedCount(n: nat)
    ensures SeedableRatio(1.0, n) && SeedCount(1.0, n) == n
  {
    assert 1.0 * n as real == n as real;
  }

  /** The values taken by the first `k` entries of `perm`. */
  function Image(perm: seq<int>, k: nat): set<int>
    requires k <= |perm|
  {
    set t | 0 <= t < k :: perm[t]
  }

  /** Distinct entries: the first `k` of them take `k` values. */
  lemma {:induction false} ImageCount(perm: seq<int>, k: nat)
    requires IsPermutation(perm, |perm|) && k <= |perm|
    ensures |Image(perm, k)| == k
  {
    if k > 0 {
      ImageCount(perm, k - 1);
      assert Image(perm, k) == Image(perm, k - 1) + {perm[k - 1]};
      assert perm[k - 1] !in Image(perm, k - 1);
    }
  }

  /** The integers `0 .. n - 1`, as a set. */
  function Below(n: nat): (s: set<int>)
    ensures forall x :: x in s <==> 0 <= x < n
  {
    if n == 0 then {} else Below(n - 1) + {n - 1}
  }

  lemma {:induction false} BelowCount(n: nat)
    ensures |Below(n)| == n
  {
    if n > 0 {
      BelowCount(n - 1);
    }
  }

  /** A permutation of `0 .. n - 1` takes every value in that range. */
  lemma PermutationCovers(perm: seq<int>, n: nat, x: int)
    requires IsPermutation(perm, n) && 0 <= x < n
    ensures x in perm
  {
    ImageCount(perm, n);
    BelowCount(n);
    assert Image(perm, n) <= Below(n);
    assert Image(perm, n) * Below(n) == Image(perm, n);
    assert |Below(n) - Image(perm, n)| == 0;
    assert x !in Below(n) - Image(perm, n);
    var t :| 0 <= t < n && perm[t] == x;
  }

  function Max(a: real, b: real): (m: real)
    ensures m >= a && m >= b && (m == a || m == b)
  {
    if a >= b then a else b
  }

  /** A bandwidth counter. */
  class Bandwidth {
    var value: real

    constructor (v: real)
      ensures value == v
    {
      value := v;
    }

    /** Adds `deltaBw` (negative to release bandwidth). */
    method Update(deltaBw: real)
      modifies this
      ensures value == old(value) + deltaBw
    {
      value := value + deltaBw;
    }

    function Get(): real
      reads this
    {
      value
    }
  }

  /** The process-wide id counter `nodeIdx`. */
  class NodeCounter {
    var nodeIdx: int

    constructor ()
      ensures nodeIdx == 0
    {
      nodeIdx := 0;
    }
  }

  class Node {
    const id: int
    const numDataChunks: nat
    const segmentSize: int
    const currentDownloadBw: Bandwidth
    const currentUploadBw: Bandwidth
    const maxBw: real
    const maxBwRatio: real
    var connectedNodes: set<Node>
    var complete: bool
    var simTime: real
    /** The status last written for each chunk address through the
        segmented file's `setChunk`. */
    var chunkStatus: map<ChunkId, Status>
    /** The flat per-chunk availability list that the coordinator reads.
        node.go's `node` does not declare it; here it has one entry per
        data chunk, starts NotAvailable, and only seeding writes it. */
    var dataChunkAvailability: seq<Status>

    ghost predicate Valid()
      reads this
    {
      segmentSize > 0 && currentDownloadBw != currentUploadBw && |dataChunkAvailability| == numDataChunks
    }

    /** The node record as first built: no connections, counters at 0,
        clock at 0, not complete, nothing written yet. */
    constructor (id: int, numDataChunks: nat, segmentSize: int, maxBandwidth: real, bandwidthRatio: real)
      requires segmentSize > 0
      ensures Valid()
      ensures fresh(currentDownloadBw) && fresh(currentUploadBw)
      ensures this.id == id && this.numDataChunks == numDataChunks && this.segmentSize == segmentSize
      ensures maxBw == maxBandwidth && maxBwRatio == bandwidthRatio
      ensures currentDownloadBw.value == 0.0 && currentUploadBw.value == 0.0
      ensures connectedNodes == {} && !complete && simTime == 0.0
      ensures chunkStatus == map[]
      ensures dataChunkAvailability == seq(numDataChunks, _ => NotAvailable)
    {
      this.id := id;
      this.numDataChunks := numDataChunks;
      this.segmentSize := segmentSize;
      currentDownloadBw := new Bandwidth(0.0);
      currentUploadBw := new Bandwidth(0.0);
      maxBw := maxBandwidth;
      maxBwRatio := bandwidthRatio;
      connectedNodes := {};
      complete := false;
      simTime := 0.0;
      chunkStatus := map[];
      dataChunkAvailability := seq(numDataChunks, _ => NotAvailable);
    }

    /** The address of a flat chunk in this node's segmented file. */
    function Address(c: Chunk): ChunkId
      requires segmentSize > 0
    {
      ChunkId(c.idx / segmentSize, c.r, c.idx % segmentSize)
    }

    /** Download and upload capacity split `maxBw` between them. */
    function MaxDownloadBw(): (r: real)
      ensures r + MaxUploadBw() == maxBw
      ensures 0.0 <= maxBwRatio <= 1.0 && maxBw >= 0.0 ==> 0.0 <= r <= maxBw
    {
      maxBw * maxBwRatio
    }

    function MaxUploadBw(): real
    {
      maxBw * (1.0 - maxBwRatio)
    }

    /** The segmented file's `setChunk`, seen only through the status it records. */
    method SetChunk(chkId: ChunkId, status: Status)
      modifies this`chunkStatus
      ensures chunkStatus == old(chunkStatus)[chkId := status]
    {
      chunkStatus := chunkStatus[chkId := status];
    }

    /** Marks the first `SeedCount(ratio, numDataChunks)` chunks of the
        permutation `perm` Available. */
    method GetRandomAvailability(ratio: real, perm: seq<int>)
      requires Valid()
      requires SeedableRatio(ratio, numDataChunks)
      requires IsPermutation(perm, numDataChunks)
      modifies this`chunkStatus, this`dataChunkAvailability
      ensures Valid()
      ensures chunkStatus == SeedStatuses(old(chunkStatus), perm, SeedCount(ratio, numDataChunks), segmentSize)
      ensures dataChunkAvailability == SeedFlat(old(dataChunkAvailability), perm, SeedCount(ratio, numDataChunks))
    {
      var k := SeedCount(ratio, numDataChunks);
      for t := 0 to k
        invariant |dataChunkAvailability| == numDataChunks
        invariant chunkStatus == SeedStatuses(old(chunkStatus), perm, t, segmentSize)
        invariant dataChunkAvailability == SeedFlat(old(dataChunkAvailability), perm, t)
      {
        var idx := perm[t];
        SetChunk(SeedAddress(idx, segmentSize), Available);
        dataChunkAvailability := dataChunkAvailability[idx := Available];
      }
    }

    /** Before a transfer: the chunk is marked in flight, the peer joins the
        connected set, and the action's bandwidth is added to this node's
        download counter and the peer's upload counter. */
    method PrepareTransfer(act: Action)
      requires Valid() && act.p != null
      requires act.p.currentUploadBw != currentDownloadBw
      modifies this`chunkStatus, this`connectedNodes, currentDownloadBw, act.p.currentUploadBw
      ensures chunkStatus == old(chunkStatus)[Address(act.chk) := PartiallyAvailable]
      ensures connectedNodes == old(connectedNodes) + {act.p}
      ensures currentDownloadBw.value == old(currentDownloadBw.value) + act.bw
      ensures act.p.currentUploadBw.value == old(act.p.currentUploadBw.value) + act.bw
    {
      SetChunk(Address(act.chk), PartiallyAvailable);
      connectedNodes := connectedNodes + {act.p};
      currentDownloadBw.Update(act.bw);
      act.p.currentUploadBw.Update(act.bw);
    }

    /** After a transfer: the chunk is Available, the peer leaves the
        connected set, and both counters give the bandwidth back. */
    method TransferDone(act: Action)
      requires Valid() && act.p != null
      requires act.p.currentUploadBw != currentDownloadBw
      modifies this`chunkStatus, this`connectedNodes, currentDownloadBw, act.p.currentUploadBw
      ensures chunkStatus == old(chunkStatus)[Address(act.chk) := Available]
      ensures connectedNodes == old(connectedNodes) - {act.p}
      ensures currentDownloadBw.value == old(currentDownloadBw.value) - act.bw
      ensures act.p.currentUploadBw.value == old(act.p.currentUploadBw.value) - act.bw
    {
      SetChunk(Address(act.chk), Available);
      connectedNodes := connectedNodes - {act.p};
      currentDownloadBw.Update(-act.bw);
      act.p.currentUploadBw.Update(-act.bw);
    }

    /** A transfer's whole bookkeeping: prepared, then done. Both counters
        are back where they were, the chunk is Available, and the connected
        set is restored when the peer was not connected before. */
    method TransferCycle(act: Action)
      requires Valid() && act.p != null
      requires act.p.currentUploadBw != currentDownloadBw
      modifies this`chunkStatus, this`connectedNodes, currentDownloadBw, act.p.currentUploadBw
      ensures chunkStatus == old(chunkStatus)[Address(act.chk) := Available]
      ensures act.p !in old(connectedNodes) ==> connectedNodes == old(connectedNodes)
      ensures currentDownloadBw.value == old(currentDownloadBw.value)
      ensures act.p.currentUploadBw.value == old(act.p.currentUploadBw.value)
    {
      PrepareTransfer(act);
      TransferDone(act);
    }
  }

  /** Creates a node with the next id from the counter, seeds it from the
      permutation `perm` (which stands for the random permutation), and
      marks it complete when its availability ratio is 1. */
  method NewNode(counter: NodeCounter, numDataChunks: nat, segmentSize: int, maxBandwidth: real,
                 bandwidthRatio: real, availabilityRatio: real, perm: seq<int>)
    returns (n: Node)
    requires segmentSize > 0
    requires SeedableRatio(availabilityRatio, numDataChunks)
    requires IsPermutation(perm, numDataChunks)
    modifies counter
    ensures fresh(n) && fresh(n.currentDownloadBw) && fresh(n.currentUploadBw) && n.Valid()
    ensures n.id == old(counter.nodeIdx) && counter.nodeIdx == old(counter.nodeIdx) + 1
    ensures n.segmentSize == segmentSize && n.numDataChunks == numDataChunks
    ensures n.complete <==> availabilityRatio == 1.0
    ensures n.connectedNodes == {} && n.simTime == 0.0
    ensures n.currentDownloadBw.value == 0.0 && n.currentUploadBw.value == 0.0
    ensures n.maxBw == maxBandwidth && n.maxBwRatio == bandwidthRatio
    ensures n.chunkStatus.Keys == Seeded(perm, SeedCount(availabilityRatio, numDataChunks), segmentSize)
    ensures forall a :: a in n.chunkStatus ==> n.chunkStatus[a] == Available
    ensures |Seeded(perm, SeedCount(availabilityRatio, numDataChunks), segmentSize)|
            == SeedCount(availabilityRatio, numDataChunks)
    ensures |n.dataChunkAvailability| == numDataChunks
    ensures forall i :: 0 <= i < numDataChunks ==>
              n.dataChunkAvailability[i]
              == if i in perm[..SeedCount(availabilityRatio, numDataChunks)] then Available else NotAvailable
    ensures n.complete ==> forall i :: 0 <= i < numDataChunks ==> n.dataChunkAvailability[i] == Available
  {
    n := new Node(counter.nodeIdx, numDataChunks, segmentSize, maxBandwidth, bandwidthRatio);
    n.GetRandomAvailability(availabilityRatio, perm);
    if availabilityRatio == 1.0 {
      n.complete := true;
    }
    counter.nodeIdx := counter.nodeIdx + 1;
    var k := SeedCount(availabilityRatio, numDataChunks);
    SeededCount(perm, k, segmentSize);
    SeedStatusesMeaning(map[], perm, k, segmentSize);
    forall i | 0 <= i < numDataChunks
      ensures n.dataChunkAvailability[i] == if i in perm[..k] then Available else NotAvailable
    {
      SeedFlatMeaning(seq(numDataChunks, _ => NotAvailable), perm, k, i);
    }
    if availabilityRatio == 1.0 {
      FullSeedCount(numDataChunks);
      assert perm[..k] == perm;
      forall i | 0 <= i < numDataChunks
        ensures n.dataChunkAvailability[i] == Available
      {
        PermutationCovers(perm, numDataChunks, i);
      }
    }
  }

  /** Two successive node creations draw distinct, increasing ids. */
  method NewNodePair(counter: NodeCounter, numDataChunks: nat, segmentSize: int, maxBandwidth: real,
                     bandwidthRatio: real, ratio1: real, ratio2: real, perm: seq<int>)
    returns (n1: Node, n2: Node)
    requires segmentSize > 0
    requires SeedableRatio(ratio1, numDataChunks) && SeedableRatio(ratio2, numDataChunks)
    requires IsPermutation(perm, numDataChunks)
    modifies counter
    ensures n1 != n2 && n1.id < n2.id
    ensures counter.nodeIdx == old(counter.nodeIdx) + 2
  {
    n1 := NewNode(counter, numDataChunks, segmentSize, maxBandwidth, bandwidthRatio, ratio1, perm);
    n2 := NewNode(counter, numDataChunks, segmentSize, maxBandwidth, bandwidthRatio, ratio2, perm);
  }
}
