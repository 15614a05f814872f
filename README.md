# dyrest-sim in Dafny

A model of the core of dyrest-sim, a simulator of peer-to-peer file
distribution. A file is cut into segments of numbered data chunks. Nodes
hold some of the chunks. A supervisor keeps the pool of nodes and a table
of which chunks each node has, and it picks a peer to pull a missing chunk
from. Each node runs a download loop that schedules transfers, waits for
them to finish, and keeps its bandwidth counters, its connected peers and
its simulated clock up to date. A separate experiment measures how many
rounds of a matrix-exchange game a set of nodes needs to converge.

The model has five modules, one per concern:

- `SegmentedFile` (`segmented_file.dfy`, file.go):
  - the size constants;
  - the `Chunk`, `Segment` and `Segfile` records;
  - `NewSegfile`, which fills arrays in nested loops and is proved equal to the layout function `Layout`;
  - the counting and numbering lemmas about `Layout`.
- `Convergence` (`convergence.dfy`, test.go):
  - `IsConverged`;
  - one round of `converge`, as a method `Converge`/`ConvergeRow` over a copy of the matrix, proved equal to `ConvergeSpec`;
  - `GetConvergenceSpeed`, whose loop is proved to terminate, with a bound on its step count.
- `Peer` (`peer.dfy`, node.go):
  - the `Bandwidth` counter class;
  - the `Node` class with its connected set, counters, clock, completion flag and recorded chunk statuses;
  - `NewNode` with the global id counter;
  - seeding from a permutation;
  - `PrepareTransfer` and `TransferDone`.
- `Coordinator` (`coordinator.dfy`, supervisor.go): the `Supervisor` class with its pool and availability table, and the peer search.
- `DownloadLoop` (`download_loop.dfy`, node.go): the loop's decision and one pass of it, plus `start`.

The repository's files come from different revisions of the program, so some
glue is needed between them:

- One `Chunk(idx, r)` record serves both file.go's `chunk{id}` (as `Chunk(id, 0)`) and the supervisor's `chunk{i, 0}`.
- One `Action(p, chk, bw)` record carries the peer, the chunk and the bandwidth that node.go reads from an action.
- supervisor.go never sets a bandwidth, so its actions carry Go's zero value `0.0`.
- node.go addresses chunks as (segment, level, position). `Node.Address` derives that address from a flat chunk the same way seeding does: `(idx / segmentSize, r, idx % segmentSize)`.
- The supervisor reads `n.dataChunkAvailability`, which node.go's `node` does not declare. It is a `Node` field here, with one entry per data chunk. It starts as all `NotAvailable`, and seeding sets the seeded entries to `Available`. Both are assumptions about the revision that declares the field (see "## Left out").

## Model

| member | source | states |
|---|---|---|
| SegmentedFile.NewSegfile | file.go:31-56 | The file built by the nested loops is exactly the layout `Layout(fileSize, segmentLength, chunkSize)`. |
| SegmentedFile.LayoutCounts | file.go:32-38 | `numDataChunks` is the number of whole chunks in the file, and `chunkSize` is kept. There are `numSegments` segments, the least number of full-length segments that hold every chunk. `numSegments` is one more than the number of whole segments exactly when there is a remainder. |
| SegmentedFile.SegmentSizes | file.go:42-52 | Segment `i` has id `i` and no parity chunks. Every segment but the last is full. The last holds the remainder when there is one, and is full otherwise. |
| SegmentedFile.IdsPrefix | file.go:48-50 | The first `k` segments hold exactly the chunk ids `0 .. k*segmentLength - 1`, in order, cut off at the number of chunks. |
| SegmentedFile.IdsAreAllChunks | file.go:42-53 | Read segment after segment, the chunk ids are exactly `0 .. numDataChunks - 1`, each once and in order. |
| SegmentedFile.SegmentSizesSum | file.go:42-53 | The data-chunk counts of all segments add up to `numDataChunks`. |
| SegmentedFile.ExampleFile | file.go:3-9 | With `KB = 1024` and `MB = 1024*KB`, a 12 MB file in 512 KB chunks with 10 chunks per segment has 24 chunks in 3 segments of 10, 10 and 4. |
| Convergence.RowConverged | test.go:210-214 | The row scan succeeds iff every entry of the row is at least 1. |
| Convergence.IsConverged | test.go:208-217 | The test succeeds iff every entry of every row is at least 1. The empty matrix is converged. |
| Convergence.FirstGap | test.go:193-200 | The giver scan finds the first slot the giver holds (> 0) and the taker lacks (< 1), or reports that there is none. |
| Convergence.Received | test.go:185-202 | The taker's row after the givers scan keeps its length. Its contents are stated by `ReceivedCell`. |
| Convergence.NewRow | test.go:163-202 | A round keeps the length of every row. Its contents are stated by `ConvergeCells`. |
| Convergence.ConvergeSpec | test.go:144-205 | A round returns a matrix with as many rows as its input, and all rows have equal length. |
| Convergence.Converge | test.go:144-205 | The loop over takers computes exactly the round `ConvergeSpec`. Its second result is true iff the round changed nothing. |
| Convergence.ConvergeRow | test.go:158-202 | One taker's row: the count, fill and giver loops produce the row `NewRow` describes. The changed flag is set iff the row differs from its input. |
| Convergence.ReceivedCell | test.go:185-201 | A slot that no other node gives keeps its value. Otherwise it holds the value of the last node that gives it, because every decision reads the round's input and not the copy. |
| Convergence.ConvergeCells | test.go:163-201 | Entries of at least 1 are never changed. Only entries below 1 are written, always with a positive value. A complete row gets 3 in its 0 entries and nothing else. Any other row changes at a slot iff some other node gives that slot. |
| Convergence.RowProgress | test.go:170-198 | A row whose changes only raise entries from below 1 to at least 1 lacks no more slots than before, and strictly fewer if it changed. |
| Convergence.ConvergeProgress | test.go:144-205 | A round never adds missing entries. A round that changes the matrix removes at least one. |
| Convergence.GetConvergenceSpeed | test.go:115-141 | The loop terminates. `steps` is at most the number of entries initially below 1, and no round before `steps` was converged. If `failed` is false, the matrix after `steps` rounds is converged. If `failed` is true, that matrix is unconverged and a further round leaves it unchanged. Every one of the `steps` counted rounds changed the matrix, which fixes `steps`. |
| Peer.SeedAddressOfLayout | node.go:80 | The seeding address of the chunk numbered `i*segmentLength + j` in the layout is segment `i`, level 0, position `j`. Seeding inverts the file's numbering. |
| Peer.SeedAddressInjective | node.go:80 | Distinct non-negative flat indices get distinct addresses. |
| Peer.GoInt | node.go:79 | Go's float-to-`int` conversion truncates toward zero. The result is within 1 of its argument, on the zero side. |
| Peer.UnitRatioSeedable | node.go:79 | Every ratio in [0, 1] gives a slice bound within `0 .. n`. |
| Peer.SlightlyAboveOneSeedsAll | node.go:79 | Ratio 1.02 with 24 chunks is accepted and seeds all 24 chunks. |
| Peer.SeedCount | node.go:79 | For any ratio the slice accepts, the count is at most the number of chunks. For a non-negative product it is the whole part of `ratio * n`. For a product in (-1, 0) it is 0. |
| Peer.SeededCount | node.go:79-81 | Seeding from a permutation marks exactly `int(ratio * n)` distinct chunk addresses. |
| Peer.SeedStatusesMeaning | node.go:79-81 | After seeding, the recorded addresses are the old ones plus the seeded ones. Seeded addresses are Available, and every other recorded status is unchanged. |
| Peer.SeedFlat | node.go:79-81 | Seeding keeps the length of the flat availability list. Its contents are stated by `SeedFlatMeaning`. |
| Peer.SeedFlatMeaning | node.go:79-81 | After seeding, a flat index is Available iff it is among the permutation's first `k` entries. Otherwise it keeps its old status. |
| Peer.FullSeedCount | node.go:79 | At ratio 1 every chunk is seeded. |
| Peer.ImageCount | node.go:79 | The first `k` entries of a permutation take `k` distinct values. |
| Peer.PermutationCovers | node.go:79 | A permutation of `0 .. n-1` contains every value in that range, so a full seeding reaches every chunk. |
| Peer.Max | node.go:130 | `math.Max`: the result is at least both arguments and is one of them. |
| Peer.Bandwidth.constructor | node.go:59-60 | A counter starts at the given value. |
| Peer.Bandwidth.Update | node.go:24-29 | `update(d)` adds `d` to the value. |
| Peer.NodeCounter.constructor | node.go:57 | The global id counter starts at 0, the zero value Go gives the package-level `nodeIdx` (its declaration is not part of this model). |
| Peer.Node.constructor | node.go:56-67 | A new node has no connections, both counters at 0, its clock at 0, is not complete, has no recorded chunk status, and has every chunk NotAvailable. |
| Peer.Node.MaxDownloadBw | node.go:85-91 | Over reals, the download and upload capacities add up to `maxBw`. For a ratio in [0, 1] and `maxBw >= 0`, the download capacity lies in `[0, maxBw]`. |
| Peer.Node.SetChunk | node.go:81 | Records one status at one address. Nothing else changes. |
| Peer.Node.GetRandomAvailability | node.go:76-83 | The loop over the permutation's first `int(ratio*n)` entries leaves exactly the seeded statuses in both the address map and the flat list. |
| Peer.Node.PrepareTransfer | node.go:137-142 | The chunk is marked PartiallyAvailable and the peer joins the connected set. `act.bw` is added to the node's download counter and to the peer's upload counter. |
| Peer.Node.TransferDone | node.go:153-158 | The chunk is marked Available and the peer leaves the connected set. `act.bw` is subtracted from both counters. |
| Peer.Node.TransferCycle | node.go:137-158 | Prepare followed by done leaves the chunk Available and puts both counters back where they were. It restores the connected set when the peer was not connected before. |
| Peer.NewNode | node.go:55-74 | The node gets the counter's current id, and the counter goes up by one. The node is complete iff the availability ratio is 1. The node keeps the given `segmentSize` and `numDataChunks`, so the seeded addresses are the ones `Node.Address` gives. Exactly `int(ratio*n)` distinct chunks are recorded Available. The flat list is Available exactly at the seeded indices. A complete node has every chunk. |
| Peer.NewNodePair | node.go:57-72 | Two successive creations yield distinct nodes with strictly increasing ids. |
| Coordinator.Supervisor.constructor | supervisor.go:5-11 | An empty pool, an empty table and the given file. |
| Coordinator.Supervisor.AddNode | supervisor.go:18-26 | `n` joins the pool, and its table entry is its availability list. No other entry changes. The pool and the table keep the same key set. |
| Coordinator.Supervisor.RemoveNode | supervisor.go:28-36 | `n` leaves both the pool and the table. No other entry changes. The pool and the table keep the same key set. |
| Coordinator.Supervisor.GetOptimalAction | supervisor.go:38-54 | The result is the empty action iff no (peer, index) pair qualifies. A qualifying pair is: a pool member other than `n`, not connected, complete, holding chunk `i` that `n` lacks. Otherwise the result is such a peer with its least qualifying index, at level 0. Neither map is changed. |
| Coordinator.Supervisor.UpdateAvailability | supervisor.go:56-60 | Only entry `chk.idx` of `n`'s row changes. The pool is unchanged, so the pool and the table keep the same key set. |
| DownloadLoop.Decide | node.go:104-125 | The loop finishes iff all is planned complete and nothing is in flight. It blocks only while a transfer is in flight. It re-polls iff no peer was found, nothing is planned complete and nothing is in flight. It schedules iff a peer was found and the file is not planned complete. |
| DownloadLoop.Start | node.go:93-99 | The download loop is launched iff the node is not complete. Its partner is `NewNodeAndStart`. |
| DownloadLoop.NewNodeAndStart | node.go:69-71 | A node created and then started launches its download loop iff its availability ratio is not 1. A node that does not launch holds every chunk. |
| DownloadLoop.Iterate | node.go:101-135 | One pass follows `Decide`. The clock never goes back, and on a block it becomes the later of itself and the finish time. `complete` is set only on finish. When the file is not planned complete, the pass finds a peer iff some (peer, index) pair qualifies. A scheduled peer is a qualifying candidate, and its chunk is that peer's least qualifying index. Scheduling and blocking apply exactly the prepare and done bookkeeping. No other upload counter changes: neither another pool member's nor, unless it is the one in use, the received transfer's peer's. The other decisions change nothing. |

## Left out

- test.go `getCost` and `unmain`: floating-point cost weights, an infinity sentinel, and printing. They are outside the core.
- web.go, logger.go, main.go and supervisor_test.go:
  - web.go is HTTP and websocket transport;
  - logger.go is JSON logging over a channel;
  - main.go is bootstrap, used only for the 12 MB / 10 / 512 KB example;
  - supervisor_test.go refers to fields that supervisor.go does not declare.
- Concurrency is not modelled. This covers the goroutines (`go n.downloadLoop`, `go n.transfer`), the channel `n.c`, the `WaitGroup` and the read/write locks. The loop is modelled one pass at a time, and the result received on the channel is a parameter of that pass.
- `transfer` (node.go:144-151): its duration is a float division, and it sleeps on the wall clock. Its finish time is the `finishTime` of the received result.
- Randomness: `rand.Seed`/`rand.Perm` become a permutation parameter `perm`, constrained by `IsPermutation`.
- Go map iteration order:
  - `GetConvergenceSpeed` takes the order in which the map's rows are copied as a parameter `keys`;
  - `GetOptimalAction` visits the pool in an arbitrary order, by a choice (`:|`). Its contract holds for every order.
- The segmented file methods `setChunk`, `plannedComplete` and `transferInProgress` belong to a revision of file.go that is not part of this model:
  - `setChunk` is seen only through the status it records, in `Node.chunkStatus`;
  - `plannedComplete` and `transferInProgress` are boolean inputs of `Decide` and `Iterate`.
- `Node` carries `numDataChunks` and `segmentSize` as its own constants. They stand for the `segfileInfo` descriptor of a later revision of file.go, which is not part of this model.
- Floating point: bandwidths, ratios and times are reals. Rounding is not modelled. `int(ratio * n)` is the exact product truncated toward zero (`GoInt`).
- Node.dataChunkAvailability: its length (`numDataChunks`), its initial `NotAvailable` entries and its update by seeding are assumptions about a revision that is not part of this model. In Go a slice field starts as `nil`, and node.go:79-81 writes statuses only through `setChunk`. `PrepareTransfer` and `TransferDone` leave the list unchanged, because node.go:137-158 shows no write to it, so the supervisor's table does not follow transfers in this model.
- Go slice aliasing between a node's `dataChunkAvailability` and the supervisor's table entry is not modelled. `AddNode` stores a copy of the list's value, so later writes through one are not seen through the other.
- `converge`'s `completedMarker` is dead: entry `i` is read before it is ever written, so it is always false when read. It is omitted.
- `converge` returns a fresh matrix and `getConvergenceSpeed` copies its rows. Dafny sequences are values, so "the input is never modified" holds by construction.
- Printing: the `fmt.Println`/`fmt.Printf` calls in `getConvergenceSpeed` (test.go:129, 132), `start` (node.go:94) and `downloadLoop` (node.go:107, 120) are dropped. They only write to standard output.
- NodeCounter: `nodeIdx` is read and incremented at node.go:57 and 72, but no file in this model declares it. Its start at 0 assumes Go's zero value for a package-level `int`.
- Bandwidth.Get: returns the counter's value. It has no contract of its own and no row.
- SegmentedFile.NewSegfile: requires positive `segmentLength` and `chunkSize` and `fileSize >= 0`. Go panics on a zero divisor, on a negative segment count (`make([]segment, numSegments)`, file.go:40), and on any negative segment length (`make([]chunk, segLen)`, file.go:47; for example `newSegfile(-35, -10, 1)`). It returns for some other inputs: `newSegfile(0, 10, -1)` gives an empty file, and `newSegfile(-45, 10, 3)` gives `numDataChunks = -15` with no segments, by truncating division. Dafny's `/` and `%` are Euclidean (the remainder is never negative), while Go's truncate toward zero, so such inputs would model differently. The one caller (main.go:25) passes positive values.
- Convergence.GetConvergenceSpeed: requires every row to have the same length. Go can panic only when a giver's row is longer than the taker's, and tolerates the other ragged shapes.
- Convergence.ConvergeSpec: its own contract states the row count and rectangularity. Each row's length is stated by `NewRow`.
- Coordinator.Supervisor.GetOptimalAction: requires `n` and every pool member to have a table row covering the file. Go would panic only on rows it actually indexes.
- Peer.NewNode: requires `SeedableRatio`, that `int(ratio * n)` (truncated toward zero) lies in `0 .. n`. That is exactly when the slice at node.go:79 does not panic. Ratios just above 1 are admitted: with 24 chunks, ratio 1.02 seeds every chunk but leaves the node not complete, since node.go:69 tests `ratio == 1`. `SlightlyAboveOneSeedsAll` states that case.
- Peer.Node.PrepareTransfer: requires the peer's upload counter to be a different object from the node's download counter. In Go each node embeds its `bandwidth` counters by value (node.go:40-41), so two counters of different nodes, or a node's two own counters, are never the same. The model's counters are shared objects, so the separation is a precondition: `Node.Valid` keeps a node's own two counters apart, and `Iterate` requires it for every pool member and for the received transfer's peer.
- DownloadLoop.Iterate: models one pass. The loop as a whole is not proved to terminate, because its termination depends on the other nodes and on the abstract segmented file.
