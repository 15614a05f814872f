/** The supervisor (supervisor.go): the pool of live nodes, the
    availability table it keeps for them, and the search for a peer to
    pull a chunk from. */
module Coordinator {
  import opened SegmentedFile
  import opened Peer

  class Supervisor {
    var pool: set<Node>
    var availabilityTable: map<Node, seq<Status>>
    const file: Segfile

    /** The pool and the table always cover the same nodes. */
    ghost predicate Valid()
      reads this
    {
      pool == availabilityTable.Keys
    }

    constructor (file: Segfile)
      ensures Valid() && pool == {} && availabilityTable == map[] && this.file == file
    {
      pool := {};
      availabilityTable := map[];
      this.file := file;
    }

    /** Admits `n` with its availability list; no other node's entry changes. */
    method AddNode(n: Node)
      modifies this`pool, this`availabilityTable
      ensures pool == old(pool) + {n}
      ensures availabilityTable == old(availabilityTable)[n := n.dataChunkAvailability]
      ensures old(Valid()) ==> Valid()
    {
      pool := pool + {n};
      availabilityTable := availabilityTable[n := n.dataChunkAvailability];
    }

    /** Drops `n` from both the pool and the table; no other node's entry changes. */
    method RemoveNode(n: Node)
      modifies this`pool, this`availabilityTable
      ensures pool == old(pool) - {n}
      ensures availabilityTable == old(availabilityTable) - {n}
      ensures old(Valid()) ==> Valid()
    {
      pool := pool - {n};
      availabilityTable := availabilityTable - {n};
    }

    /** `p` is a peer `n` may pull data chunk `i` from: another pool member,
        not already connected to `n`, complete, and holding the chunk `n`
        lacks. */
    predicate Candidate(n: Node, connectedNodes: set<Node>, p: Node, i: int)
      reads this, p
    {
      && p in pool && p != n && p !in connectedNodes && p.complete
      && 0 <= i < file.numDataChunks
      && n in availabilityTable && p in availabilityTable
      && i < |availabilityTable[n]| && i < |availabilityTable[p]|
      && availabilityTable[n][i] == NotAvailable && availabilityTable[p][i] == Available
    }

    /** The table rows the search reads are long enough to index. */
    predicate CoversFile(n: Node)
      reads this
    {
      && n in availabilityTable && |availabilityTable[n]| >= file.numDataChunks
      && forall p :: p in pool ==> p in availabilityTable && |availabilityTable[p]| >= file.numDataChunks
    }

    /** Searches the pool, in an unspecified order, for a candidate peer;
        for the first one found it returns the lowest chunk index it can
        give, at level 0. The action's bandwidth is the zero value: this
        search does not negotiate one. With no candidate at all it returns
        the empty action. The pool and table are only read. */
    method GetOptimalAction(n: Node, connectedNodes: set<Node>) returns (act: Action)
      requires CoversFile(n)
      ensures act.p == null ==> act == Action(null, Chunk(0, 0), 0.0)
      ensures act.p == null <==>
                forall p, i :: p in pool && 0 <= i < file.numDataChunks ==> !Candidate(n, connectedNodes, p, i)
      ensures act.p != null ==>
                && act.chk.r == 0 && act.bw == 0.0
                && Candidate(n, connectedNodes, act.p, act.chk.idx)
                && forall i :: 0 <= i < act.chk.idx ==> !Candidate(n, connectedNodes, act.p, i)
    {
      var rest := pool;
      while rest != {}
        invariant rest <= pool
        invariant forall p, i :: p in pool - rest && 0 <= i < file.numDataChunks ==> !Candidate(n, connectedNodes, p, i)
        decreases rest
      {
        var p :| p in rest;
        if p != n && p !in connectedNodes && p.complete {
          var i := 0;
          while i < file.numDataChunks
            invariant 0 <= i && (i == 0 || i <= file.numDataChunks)
            invariant forall k :: 0 <= k < i ==> !Candidate(n, connectedNodes, p, k)
          {
            if availabilityTable[n][i] == NotAvailable && availabilityTable[p][i] == Available {
              assert Candidate(n, connectedNodes, p, i);
              return Action(p, Chunk(i, 0), 0.0);
            }
            i := i + 1;
          }
        }
        rest := rest - {p};
      }
      return Action(null, Chunk(0, 0), 0.0);
    }

    /** Records a new status for one chunk of `n`; nothing else changes. */
    method UpdateAvailability(n: Node, chk: Chunk, status: Status)
      requires n in availabilityTable && 0 <= chk.idx < |availabilityTable[n]|
      modifies this`availabilityTable
      ensures availabilityTable == old(availabilityTable)[n := old(availabilityTable)[n][chk.idx := status]]
      ensures pool == old(pool)
      ensures old(Valid()) ==> Valid()
    {
      availabilityTable := availabilityTable[n := availabilityTable[n][chk.idx := status]];
    }
  }
}
