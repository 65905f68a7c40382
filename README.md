# Link-state router core, modelled in Dafny

This project models the core of a small link-state router written in C. Each router floods 8-byte advertisements describing its links to its neighbours. Every router stores the advertisements it receives in a topology graph. From that graph it computes shortest routes with Dijkstra's algorithm.

## Modules

| module | file | models |
|---|---|---|
| `LsPacket` | `packet.dfy` | The packet codec of `lsPacket.c`, plus the countdown loop of `test.c`. |
| `LsGraph` | `graph.dfy` | The topology store of `lsGraph.c`. |
| `LsHeap` | `heap.dfy` | The indexed binary min-heap of `lsDijkstra.c`. |
| `LsDijkstra` | `dijkstra.dfy` | The `dijkstra` function of `lsDijkstra.c`. |
| `LsNetwork` | `network.dfy` | The outgoing packet queue, the neighbour list and `queueNeighbors` of `lsNetwork.c`. |
| `Wrappers` | `wrappers.dfy` | `Option`. |

### LsPacket

- Bytes are the integers 0..255 and labels are one-byte characters.
- C `int` is the 32-bit range `Int32`.
- C's truncating `%` is written out as `CRem`.
- `memset` stores its argument modulo 256.
- The getters read bytes 0 and 1 back through a plain `char`, which the model takes to be signed (as with gcc on x86), so the values come back as -128..127.
- The cost travels in network byte order.
- `buildLSPacket` and `decrementHopCount` write a caller's array in place. The getters are functions over the byte sequence.

### LsGraph

- `Graph` is a class whose `vertices` field is a sequence of `Vertex` values. Each vertex holds its `edges`, in C list order.
- An edge's `connectsTo` pointer is the label of the target vertex. This is sound because labels are unique, which is part of `WellFormed`.
- The list walks (`findVertex`, `findEdge`) are loops.
- `addEdge` is proved equal to a pure function, `AddEdgeModel`, and the graph's properties are proved about that function.

### LsHeap

- The heap is a class over two arrays, `slots` (the C `array`) and `pos`.
- The ghost map `Costs` gives the contents of the heap.
- The ghost set `Tracked` holds the keys for which `isInHeap` answers correctly.

### LsDijkstra

- The graph is abstract: `key` labels the nodes and `adj` lists each node's `(dest, cost)` entries in list order.
- `cost[]` and `path[]` are sequences.
- Correctness is stated against paths made of hops.

### LsNetwork

- The queue and the neighbour list are linked lists of objects.
- Each has a ghost spine `Nodes`, and `Contents` holds the queued packets.

## Where the code and its intent differ

The packet interface documents hop count and sequence number as counters in 0..255 (lsPacket.h:28-30). `node.c` advances a link's sequence number as `(seqN + 1) % 256` (node.c:247). The code differs from this intent in three places, and the model follows the code. The first two points assume that plain `char` is signed, as with gcc on x86; see "## Left out".

- **Counters read back as signed.** Hop count and sequence number are stored modulo 256 but read back through a signed `char`. A built packet therefore returns its counters unchanged only for values in -128..127, not for 0..255 (`LsPacket.DecodeEncodeCounters`).
- **Sequence gate uses 255.** `updateExistingEdge` tests `(old + 1) % 255` (lsGraph.c:120), not `% 256`.
  - Together with the signed reading, this stalls a link in the store of lsGraph.c. Once the link's stored sequence number is 127, the next advertisement arrives as -128 (`LsPacket.SequenceAfter127`).
  - No packet can carry 128, so every later advertisement for that link is discarded and leaves the store unchanged (`LsGraph.SequenceStallsAfter127`).
  - Over any sequence of processed packets, the link keeps its cost and sequence number (`LsGraph.StalledLinkNeverChanges`).
  - `node.c` feeds received packets to `addEdgeFromPacket` (node.c:142), which is not part of this model. The stall is therefore a property of `processLinkStatePacket` in lsGraph.c.
- **No mirrored edges.** `addEdge` stores only the directed edge `from -> to`; no mirrored entry is created.

Two further points about the heap:

- **Unused siftUp guard.** `siftUp` returns early when `index > size` (lsDijkstra.c:53-54). Every caller passes a position below `size`, so `SiftUp` requires that and the guard is not modelled.
- **isInHeap after a reinsert.** `isInHeap` compares `pos[index]` with `size` (lsDijkstra.c:166). After an extract, a later insert can make an extracted key look present again. The heap therefore tracks the keys for which the answer is accurate (`Tracked`, `Retracked`). In `dijkstra` every key is inserted exactly once, before any extract, so there it is accurate for every key.

## Model

| member | source | states |
|---|---|---|
| LsPacket.CRem | lsPacket.c:14-15 | C's remainder, which truncates toward zero: its magnitude is below the divisor; on a non-negative operand it is the mathematical remainder; on a negative operand it is at most 0 and is minus the remainder of the operand's magnitude (so `CRem(-1, 256)` is -1, not 255) |
| LsPacket.ToByte | lsPacket.c:14-17 | the byte `memset` stores differs from its argument by a multiple of 256 |
| LsPacket.SignedChar | lsPacket.c:23-39 | a byte read through a signed `char` lies in -128..127 and is stored back as the same byte |
| LsPacket.ToUnsigned32 | lsPacket.c:19 | an `int` as the 32-bit word `htonl` sees: unchanged when non-negative, plus 2^32 when negative |
| LsPacket.ToSigned32 | lsPacket.c:65 | the word `ntohl` returns, seen as an `int`, is the one whose unsigned view is that word |
| LsPacket.BigEndian | lsPacket.c:19-20 | network byte order gives four bytes |
| LsPacket.FromBigEndian | lsPacket.c:65 | the word `ntohl` reads from four bytes is a 32-bit word |
| LsPacket.BigEndianRoundTrip | lsPacket.c:19-20 | reading four bytes in network order gives back the 32-bit word that was written |
| LsPacket.BigEndianOnto | lsPacket.c:59-66 | the other direction: writing the word read from any four bytes gives back those bytes |
| LsPacket.Encode | lsPacket.c:12-21 | a built advertisement is eight bytes long |
| LsPacket.HopCount | lsPacket.c:23-30 | the hop count read back lies in -128..127 and is exactly byte 0 |
| LsPacket.SequenceNumber | lsPacket.c:32-39 | the sequence number read back lies in -128..127 and is exactly byte 1 |
| LsPacket.SourceID | lsPacket.c:41-48 | getSourceID returns the character whose code is byte 2 |
| LsPacket.DestinationID | lsPacket.c:50-57 | getDestinationID returns the character whose code is byte 3 |
| LsPacket.Cost | lsPacket.c:59-66 | getCost returns the `int` whose 32-bit word, in network byte order, is exactly bytes 4..7 |
| LsPacket.DecodeEncodeFields | lsPacket.c:12-66 | the source, destination and cost read back are exactly those built, for every input |
| LsPacket.SignedByteRoundTrip | lsPacket.c:14-15 | a value stored modulo 256 reads back through a signed `char` unchanged if and only if it lies in -128..127 |
| LsPacket.DecodeEncodeCounters | lsPacket.c:12-39 | the hop count and sequence number read back equal those built if and only if they lie in -128..127 |
| LsPacket.SequenceAfter127 | lsPacket.c:15 | the advertisement built with sequence number 127 + 1 reads back as -128, with labels and cost intact |
| LsPacket.BuildLSPacket | lsPacket.c:12-21 | the first eight bytes of the buffer become the encoded advertisement, and the rest of the buffer is untouched |
| LsPacket.DecrementHopCount | lsPacket.c:87-96 | returns the old hop count minus one, stores it modulo 256 in byte 0, and leaves the other bytes as they were; the new packet is `Decremented` of the old, so `DecrementedFields` applies to it |
| LsPacket.Decremented | lsPacket.c:87-96 | decrementing keeps the packet's length |
| LsPacket.DecrementedFields | lsPacket.c:87-96 | after a decrement, the hop count reads one less if and only if it was not -128 (the byte wraps); sequence number, source, destination and cost read as before |
| LsPacket.CountDownHops | test.c:11-17 | the countdown runs exactly max(hop count, 0) times, ends at hop count 0 when it ran at all (otherwise the hop count is unchanged), and touches only byte 0 |
| LsPacket.CountDownScenario | test.c:5-17 | the packet built with hop count 3 and cost 2142352 is decremented three times and keeps its cost |
| LsGraph.NextSequence | lsGraph.c:120 | the sequence number the gate accepts after `s`, `(s + 1) % 255` with C's `%`: in 0..254 and congruent to s + 1 modulo 255 when s + 1 >= 0, in -254..0 and congruent otherwise; exactly s + 1 for -1 <= s < 254 |
| LsGraph.VertexIndex | lsGraph.c:53-66 | the first vertex with the label, or -1 exactly when no vertex has it |
| LsGraph.EdgeIndex | lsGraph.c:86-99 | the first edge to the target, or -1 exactly when no edge points to it |
| LsGraph.Labels | lsGraph.c:69-84 | the vertex labels in list order |
| LsGraph.WithVertex | lsGraph.c:133-139 | after find-or-insert the label is present, the old list is a prefix, and one vertex `(label, no edges)` is appended exactly when the label was missing |
| LsGraph.UpsertEdge | lsGraph.c:141-149 | the status is 0 or 1; the edge list grows by at most one edge; status 1 leaves the list unchanged (all of its behaviour is in `UpsertEdgeFacts`) |
| LsGraph.AddEdgeModel | lsGraph.c:128-150 | the status is 0 or 1 and the vertex list grows by at most two vertices (all of its behaviour is in the AddEdge lemmas below) |
| LsGraph.WithVertexKeepsWellFormed | lsGraph.c:69-84 | inserting a missing vertex keeps labels unique and every edge pointing into the store |
| LsGraph.AddEdgeNames | lsGraph.c:128-150 | addEdge leaves the vertex names and positions of the extended list unchanged |
| LsGraph.AddEdgeKeepsPositions | lsGraph.c:128-150 | addEdge keeps every vertex already in the store at the position it had |
| LsGraph.ReplaceEdgesKeepsWellFormed | lsGraph.c:101-126 | rewriting one vertex's edges with a duplicate-free list of edges into the store keeps the store well formed |
| LsGraph.WithVertexLabels | lsGraph.c:69-84 | find-or-insert appends the label exactly when it was missing |
| LsGraph.UpsertEdgeFacts | lsGraph.c:141-149 | on one edge list: the edge to the target is created when missing (status 0); an existing edge is overwritten exactly when the sequence number is `(old + 1) % 255` (status 0), otherwise it is kept (status 1); every other target's edge is unchanged |
| LsGraph.AddEdgeKeepsWellFormed | lsGraph.c:128-150 | addEdge keeps labels unique, keeps at most one edge per ordered pair, and keeps every edge pointing to a vertex of the store |
| LsGraph.AddEdgeVertices | lsGraph.c:133-139 | after addEdge both endpoints are present; the list is the old one, followed by `to` if it was missing, then by `from` if it was missing |
| LsGraph.WithVertexEdgesFrom | lsGraph.c:69-84 | inserting a vertex changes no label's outgoing edges |
| LsGraph.ReplaceEdgesFrom | lsGraph.c:101-126 | rewriting one vertex's edge list changes only that label's outgoing edges |
| LsGraph.AddEdgeEdgesFrom | lsGraph.c:128-150 | after addEdge, `from`'s outgoing list is the upserted one and every other label's list is unchanged |
| LsGraph.AddEdgeGate | lsGraph.c:118-150 | the sequence gate: a missing link is always stored; an existing link is overwritten if and only if the new sequence number is `(old + 1) % 255`; status 0 means the new cost and sequence number are stored, status 1 means nothing changed |
| LsGraph.AddEdgeOnlyTouchesFromTo | lsGraph.c:128-150 | every edge other than `from -> to` reads as before, every vertex other than `from` keeps its edges, and a new edge goes to the tail of `from`'s list |
| LsGraph.AddEdgeRejectedKeepsStore | lsGraph.c:118-121 | an advertisement for an existing link that fails the gate leaves the whole store unchanged and returns 1 |
| LsGraph.SequenceStallsAfter127 | lsGraph.c:118-121 | once a link holds sequence number 127, every packet for that link is rejected by processLinkStatePacket and leaves the store unchanged, because no packet decodes to sequence number 128 |
| LsGraph.ProcessPacket | lsGraph.c:152-160 | processLinkStatePacket on one packet grows the store by at most two vertices and keeps every vertex already present at its position |
| LsGraph.ProcessPackets | lsGraph.c:152-160 | processLinkStatePacket called on each packet in turn never shortens the vertex list |
| LsGraph.ProcessPacketsKeepVertices | lsGraph.c:152-160 | processLinkStatePacket called on each packet in turn never removes or moves a vertex that was in the store |
| LsGraph.StalledLinkStep | lsGraph.c:152-160 | one processed packet, for any link, keeps the store well formed and a link stalled at 127 exactly as it was |
| LsGraph.StalledExample | lsGraph.c:118-121 | a well-formed store whose `A -> B` link holds sequence number 127 exists, so the stall lemmas' preconditions can be met |
| LsGraph.StalledLinkNeverChanges | lsGraph.c:118-160 | a link stalled at 127 keeps its cost and sequence number after any sequence of processed packets |
| LsGraph.Graph.constructor | lsGraph.c:12-22 | a new graph has no vertices |
| LsGraph.Graph.FindVertex | lsGraph.c:53-66 | the walk returns the first vertex with the label, or -1 exactly when there is none |
| LsGraph.Graph.InsertNewVertex | lsGraph.c:69-84 | appends `(label, no edges)` at the tail and returns its position |
| LsGraph.Graph.FindEdge | lsGraph.c:86-99 | the walk over `from`'s edges returns the first edge to the target, or -1 exactly when there is none |
| LsGraph.Graph.InsertNewEdge | lsGraph.c:101-116 | appends the new edge at the tail of `from`'s list and returns its position; nothing else changes |
| LsGraph.Graph.UpdateExistingEdge | lsGraph.c:118-126 | returns 0 and overwrites cost and sequence number if and only if the new number is `(old + 1) % 255`; otherwise returns 1 and changes nothing |
| LsGraph.Graph.FindOrInsertVertex | lsGraph.c:133-139 | the store becomes the find-or-insert result, and the returned position holds the label |
| LsGraph.Graph.AddEdge | lsGraph.c:128-150 | the new store and the status are exactly `AddEdgeModel`'s, whose properties are the lemmas above |
| LsGraph.Graph.ProcessLinkStatePacket | lsGraph.c:152-160 | the new store is `ProcessPacket` of the old one, so the stall lemmas apply to it, and the status is addEdge's on the source, destination, cost and signed sequence number decoded from the packet |
| LsHeap.IndexRelations | lsDijkstra.h:19-21 | PARENT, LCHILD and RCHILD describe one tree: for a slot i >= 0 both children follow it, RCHILD is LCHILD + 1, and both have i as PARENT; every slot i > 0 has its PARENT before it and is one of that parent's children |
| LsHeap.Swap | lsDijkstra.c:111-117 | the two slots are exchanged and every other slot is unchanged |
| LsHeap.SwapKeepsInverse | lsDijkstra.c:68-72 | swapping two slots together with their keys' `pos` entries keeps `pos` and the array inverse to each other |
| LsHeap.SiftUpStep | lsDijkstra.c:60-75 | one siftUp swap moves the only order violation to the parent's slot |
| LsHeap.SiftDownStep | lsDijkstra.c:86-107 | one siftDown swap with the cheaper child moves the only order violation to that child's slot |
| LsHeap.SiftDownDone | lsDijkstra.c:90-96 | when no child is cheaper, the heap is fully ordered |
| LsHeap.RootIsMinimum | lsDijkstra.c:136 | in an ordered heap the root costs no more than any occupied slot |
| LsHeap.RetrackedAccurate | lsDijkstra.c:124-125 | after insert fills slot `size`, `isInHeap`'s test `pos[k] < size` answers correctly for the inserted key and for every tracked key kept in `Retracked`; each key dropped is out of the heap yet would be reported present |
| LsHeap.InsertKeepsInverse | lsDijkstra.c:124-126 | putting the node in the first free slot keeps `pos` and the array inverse, and the heap ordered except at that slot |
| LsHeap.ExtractKeepsInverse | lsDijkstra.c:136-143 | moving the last node to the root removes the root's key, keeps `pos` and the array inverse, and leaves the heap ordered except at the root |
| LsHeap.UpdateKeepsInverse | lsDijkstra.c:151-154 | overwriting a key's cost keeps `pos` and the array inverse, with order broken only at that slot: towards the parent when the cost fell, towards the children otherwise |
| LsHeap.MinHeap.constructor | lsDijkstra.c:12-36 | a new heap is empty and has the requested capacity |
| LsHeap.MinHeap.SiftUp | lsDijkstra.c:51-79 | restores full heap order from an order violation at `index` towards its parent |
| LsHeap.MinHeap.SiftDown | lsDijkstra.c:81-109 | restores full heap order from an order violation at `index` towards its children |
| LsHeap.MinHeap.IsEmpty | lsDijkstra.c:169-172 | true if and only if the heap holds no key, i.e. its size is 0 |
| LsHeap.MinHeap.IsInHeap | lsDijkstra.c:164-167 | for a tracked key, true if and only if the key is in the heap |
| LsHeap.MinHeap.Insert | lsDijkstra.c:119-129 | a full heap is left unchanged; otherwise the key is added with its cost, size grows by 1, and order is kept |
| LsHeap.MinHeap.Extract | lsDijkstra.c:131-147 | None on an empty heap; otherwise returns a key of minimum cost with that cost, removes it, and size drops by 1 |
| LsHeap.MinHeap.UpdateHeap | lsDijkstra.c:149-162 | the key's cost becomes the new one; the key set, the size and the order are kept |
| LsDijkstra.MaxEdgeCost | lsDijkstra.c:202-215 | an upper bound on the costs of one adjacency list |
| LsDijkstra.MaxCost | lsDijkstra.c:207 | an upper bound on every entry cost, used for the no-overflow precondition |
| LsDijkstra.KeyIndex | lsDijkstra.c:180 | the index of the first node carrying the source label, or -1 exactly when none does |
| LsDijkstra.Report | lsDijkstra.c:221-223 | no more lines than nodes, and none with cost INT_MAX |
| LsDijkstra.Reached | lsDijkstra.c:221-222 | the indices of the reached nodes: strictly increasing, each below INT_MAX in cost, and containing every node whose cost is below INT_MAX |
| LsDijkstra.ReportInOrder | lsDijkstra.c:221-223 | the printed lines are one per reached node in index order: the k-th line is the label, cost and first hop of the k-th reached node |
| LsDijkstra.ReportLines | lsDijkstra.c:221-223 | a line is printed if and only if it is `(key, cost, path)` of a node whose cost is not INT_MAX |
| LsDijkstra.PathCostNonNegative | lsDijkstra.c:207-209 | with non-negative entry costs every path costs at least 0 |
| LsDijkstra.PositivePathCost | lsDijkstra.c:199 | with positive entry costs every non-empty path costs more than 0 |
| LsDijkstra.PathStartsInGraph | lsDijkstra.c:180-190 | a path can only start at a node of the graph, so an unknown source reaches nothing |
| LsDijkstra.PathExtend | lsDijkstra.c:205-210 | following one entry extends a path, adds the entry's cost, and keeps the first hop |
| LsDijkstra.InitialState | lsDijkstra.c:187-192 | the state after the first loop satisfies the main loop's invariant |
| LsDijkstra.NoShorterPath | lsDijkstra.c:194-197 | when every heap node costs at least m, every path into the heap costs at least m |
| LsDijkstra.SettleCheapest | lsDijkstra.c:196-197 | once the cheapest heap node is taken out, it and every node settled before cost no more than any path to them, and are finite when reachable |
| LsDijkstra.WitnessedNextStep | lsDijkstra.c:194-219 | every finite cost stays witnessed by a path, and within the bound, as one more node is settled |
| LsDijkstra.ExtractHops | lsDijkstra.c:199-200 | the fix-up `path[u] = key[u]` keeps every first hop recorded |
| LsDijkstra.ExtractStep | lsDijkstra.c:194-200 | extracting the cheapest node settles it and keeps the invariant, the cost bound and the first hops |
| LsDijkstra.RelaxSkip | lsDijkstra.c:207 | an entry that fails the relaxation test is already relaxed |
| LsDijkstra.RelaxWitnessed | lsDijkstra.c:209-210 | the lowered cost is that of the witness path through `u` extended by the entry, and stays within the bound |
| LsDijkstra.RelaxInv | lsDijkstra.c:207-212 | relaxing an entry keeps the whole path invariant |
| LsDijkstra.RelaxRelaxed | lsDijkstra.c:207-212 | relaxing entry j relaxes it and keeps the earlier entries relaxed |
| LsDijkstra.RelaxHops | lsDijkstra.c:210 | `path[v] = path[u]` hands `u`'s first hop on to `v` |
| LsDijkstra.RelaxApply | lsDijkstra.c:207-212 | one relaxing pass keeps the invariant, the relaxation progress and the first hops |
| LsDijkstra.TimesIsProduct | lsDijkstra.c:209 | the repeated-addition bound equals multiplication |
| LsDijkstra.TimesMonotone | lsDijkstra.c:209 | the bound grows with the number of settled nodes |
| LsDijkstra.FinalState | lsDijkstra.c:194-223 | with an empty heap, costs are finite exactly for reachable nodes, no larger than any path's cost and achieved by a path; with positive costs and no '-' label, first hops are correct |
| LsDijkstra.AllNodes | lsDijkstra.c:187-191 | the node indices 0..n-1 |
| LsDijkstra.Seed | lsDijkstra.c:185-192 | every node gets cost INT_MAX (the source 0) and first hop '-', and every node is in the heap with its cost |
| LsDijkstra.Lower | lsDijkstra.c:207-212 | `cost[v]` becomes `cost[u]` plus the entry cost, `path[v]` becomes `path[u]`, nothing else changes, and the heap mirrors the new costs |
| LsDijkstra.RelaxEntry | lsDijkstra.c:205-213 | one inner pass keeps the heap mirroring the costs, keeps the invariant, and relaxes one more entry |
| LsDijkstra.RelaxEntries | lsDijkstra.c:202-215 | after the inner loop every entry of `u` is relaxed, and the main loop's invariant holds again |
| LsDijkstra.Routes | lsDijkstra.c:221-223 | the output lines are `Report` of the final arrays |
| LsDijkstra.ExtractCheapest | lsDijkstra.c:196-200 | the extracted node has minimum cost among the heap's nodes, is settled, and gets its own label as first hop when it had none and a positive cost |
| LsDijkstra.Start | lsDijkstra.c:180-192 | the first loop establishes the main loop's invariant |
| LsDijkstra.SettleAll | lsDijkstra.c:194-219 | once the heap is empty, the costs are shortest path costs, INT_MAX exactly for unreachable nodes, 0 for the source, and, with positive costs and no '-' label, the first hops are correct |
| LsDijkstra.Dijkstra | lsDijkstra.c:174-226 | every cost is in 0..INT_MAX; a cost is below INT_MAX if and only if the node is reachable from the source (nothing is, for an unknown source), is at most any path's cost and is achieved by a path; a known source costs 0 with first hop '-'; with positive costs and no '-' label, `path[v]` is the label of the first node after the source on a shortest path; the printed lines are exactly the reached nodes |
| LsNetwork.QueueNode.constructor | lsNetwork.c:61-72 | the node holds a copy of the packet and links nowhere |
| LsNetwork.FifoQueue.constructor | lsNetwork.c:47-59 | a new queue is empty, with size 0 and no head or tail |
| LsNetwork.FifoQueue.IsEmptyQueue | lsNetwork.c:110-113 | true if and only if the size is 0, i.e. the queue holds no packet |
| LsNetwork.FifoQueue.Push | lsNetwork.c:74-90 | the packet's eight bytes go to the back of the queue and size grows by 1 |
| LsNetwork.FifoQueue.Pop | lsNetwork.c:92-108 | on an empty queue nothing changes; otherwise the head packet is copied into the buffer's first eight bytes, the queue becomes its old tail and size drops by 1; the tail pointer is null exactly when the queue is empty |
| LsNetwork.CopyPacket | lsNetwork.c:105 | the buffer's first eight bytes become the packet; the rest of the buffer is untouched |
| LsNetwork.PushPopScenario | lsNetwork.c:74-108 | a packet pushed onto an empty queue is the one popped, and the queue is then empty |
| LsNetwork.FifoOrderScenario | lsNetwork.c:74-108 | two pushed packets are popped in the order they were pushed |
| LsNetwork.Neighbor.constructor | lsNetwork.c:25-38 | records label, address, port and cost |
| LsNetwork.NeighborList.constructor | lsNetwork.c:12-23 | a new list is empty, with size 0 and no head |
| LsNetwork.NeighborList.AddToList | lsNetwork.c:40-45 | the neighbour becomes the head, the old list follows unchanged, and size grows by 1 |
| LsNetwork.Advert | lsNetwork.c:262 | the advertisement for one neighbour is eight bytes |
| LsNetwork.NeighborPackets | lsNetwork.c:254-268 | one advertisement per neighbour |
| LsNetwork.NeighborPacketsDecode | lsNetwork.c:254-268 | the i-th advertisement is the i-th neighbour's, and decodes to hop count 6, sequence number 0, the local label as source, and the neighbour's label and cost |
| LsNetwork.PushAdvert | lsNetwork.c:262-263 | the neighbour's advertisement is appended to the queue |
| LsNetwork.QueueNeighbors | lsNetwork.c:254-268 | the queue becomes its old contents followed by one advertisement per neighbour, in list order, and its size grows by the number of neighbours |

## Left out

- node.c is not part of this model. It holds the router's threads, locks, timers, random delays and command-line parsing.
- Socket and file I/O in lsNetwork.c are not modelled: `initializeSocket`, `sendPacket`, `floodPacket`, `getAddress` and `processTextFile`.
- Printing is not modelled: `printLSPacket`, `printGraph`, and the `printf` calls of `dijkstra` and `test.c`.
  - Instead of printing, `dijkstra` returns the lines it would print (`Routes`, `Report`).
- Allocation failure is not modelled. Allocation always succeeds, so the `NULL` / `-1` returns after a failed `malloc` are absent, including addEdge's -1.
- Freeing memory is not modelled. A popped queue node stays in the queue's ghost footprint.
- `getIndex` and the `struct Graph` that `dijkstra` reads are not part of this model. The graph is abstract (`LsDijkstra.Graph`), and `KeyIndex` is the lookup `dijkstra` relies on.
- LsDijkstra.Dijkstra: requires non-negative entry costs (`WellFormed`). The C `dijkstra` also runs on negative costs and still returns costs, but those are not shortest-path costs, and nothing is promised about them here.
- LsDijkstra.Dijkstra: requires `n * MaxCost(adj) < INT_MAX`, which rules out the overflow of `adjNode->cost + cost[u]`. Behaviour with wrapping costs is not modelled.
- LsDijkstra.Dijkstra: the first-hop property is stated only when entry costs are positive and no node is labelled '-'. With zero-cost entries or a node labelled '-', the code's `path[u] == '-' && cost[u] > 0` fix-up can leave or record a different label.
- LsHeap.Parent: uses Dafny's division, so it gives -1 at slot 0 where C's PARENT gives 0. siftUp only applies PARENT to slots greater than 0, where the two agree.
- LsHeap.MinHeap.Insert: requires that the key is not already in the heap (unless the heap is full). The C code does not check this, and a second insert of a present key would corrupt `pos`; `dijkstra` inserts each key once.
- LsHeap.MinHeap.SiftUp: requires `index < size` instead of modelling the unused early return for `index > size`.
- LsNetwork.Neighbor.constructor: the address is an unbounded string. The C `strcpy` into a 16-byte buffer assumes it fits.
- LsNetwork.Neighbor.constructor: says nothing about `next`, which `newNeighbor` leaves uninitialised. `addToList` sets it before the node is used.
- LsNetwork.FifoQueue.Pop: the popped node is not freed; it stays in the queue's ghost footprint, so the footprint only shrinks or stays the same.
- LsNetwork.NeighborList.AddToList: requires that the neighbour is not already in the list. Adding it twice would make the C list cyclic.
- LsNetwork.FifoQueue.Push: `size` is an unbounded integer. C `int` overflow of the queue size is not modelled.
- LsPacket.HopCount: assumes plain `char` is signed, as with gcc on x86. Where `char` is unsigned (ARM or PowerPC Linux, for example), getHopCount returns 0..255 and hop counts round-trip for 0..255.
- LsPacket.SequenceNumber: assumes plain `char` is signed, as with gcc on x86. Where `char` is unsigned, getSequenceNumber returns 0..255. The stall then happens at 254 rather than 127: the next packet carries 255, while the gate of lsGraph.c:120 expects `(254 + 1) % 255 = 0`.
- LsGraph.NextSequence: computes `s + 1` over unbounded integers. In C, `sequenceNum + 1` overflows at INT_MAX, which is undefined behaviour.
