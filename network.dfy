// The in-memory half of lsNetwork.c: the FIFO queue of outgoing link-state
// packets, the neighbor list read from the configuration file, and
// queueNeighbors, which turns the list into one advertisement per neighbor.
module LsNetwork {
  import opened LsPacket

  /** struct QueueNode: a copy of one packet and the link to the next node. */
  class QueueNode {
    const packet: seq<Byte>
    var next: QueueNode?

    /** newQueueNode: copies the packet bytes; the new node links nowhere. */
    constructor (packet: seq<Byte>)
      ensures this.packet == packet && next == null
    {
      this.packet := packet;
      next := null;
    }
  }

  /**
   * struct FifoQueue: a singly linked list with head and tail pointers.
   * `Nodes` is the spine of the list in order and `Contents` the packets it holds.
   */
  class FifoQueue {
    var size: int
    var head: QueueNode?
    var tail: QueueNode?
    ghost var Contents: seq<seq<Byte>>
    ghost var Nodes: seq<QueueNode>
    ghost var Repr: set<QueueNode>

    ghost predicate Valid()
      reads this, Repr
    {
      && (forall i :: 0 <= i < |Nodes| ==> Nodes[i] in Repr)
      && size == |Nodes| == |Contents|
      && (forall i :: 0 <= i < |Nodes| ==> Nodes[i].packet == Contents[i] && |Contents[i]| == LS_PACKET_SIZE)
      && (forall i {:trigger Nodes[i].next} :: 0 <= i < |Nodes| - 1 ==> Nodes[i].next == Nodes[i + 1])
      && (if Nodes == [] then head == null && tail == null
          else head == Nodes[0] && tail == Nodes[|Nodes| - 1] && tail.next == null)
    }

    /** newFifoQueue: an empty queue, with size 0 and no head or tail. */
    constructor ()
      ensures Valid() && Contents == [] && size == 0
      ensures head == null && tail == null && fresh(Repr)
    {
      size := 0;
      head := null;
      tail := null;
      Contents := [];
      Nodes := [];
      Repr := {};
    }

    /** isEmptyQueue: the queue is empty exactly when its size is 0. */
    method IsEmptyQueue() returns (r: bool)
      ensures r <==> size == 0
      ensures Valid() ==> (r <==> Contents == [])
    {
      r := size == 0;
    }

    /** push: a copy of the packet's eight bytes goes to the back of the queue. */
    method Push(packet: array<Byte>)
      requires Valid() && packet.Length >= LS_PACKET_SIZE
      modifies this, Repr
      ensures Valid() && fresh(Repr - old(Repr))
      ensures Contents == old(Contents) + [packet[..LS_PACKET_SIZE]]
      ensures size == old(size) + 1
    {
      var node := new QueueNode(packet[..LS_PACKET_SIZE]);
      var empty := IsEmptyQueue();
      if empty {
        head := node;
        tail := node;
      } else {
        tail.next := node;
        tail := node;
      }
      size := size + 1;
      Nodes := Nodes + [node];
      Contents := Contents + [node.packet];
      Repr := Repr + {node};
    }

    /**
     * pop: on an empty queue nothing happens; otherwise the head packet is
     * copied into the first eight bytes of `buffer` and its node is unlinked,
     * the tail being cleared when the queue becomes empty.
     */
    method Pop(buffer: array<Byte>)
      requires Valid() && buffer.Length >= LS_PACKET_SIZE
      modifies this, buffer
      ensures Valid() && Repr <= old(Repr)
      ensures old(Contents) == [] ==> unchanged(this) && unchanged(buffer)
      ensures old(Contents) != [] ==>
                && Contents == old(Contents)[1..]
                && size == old(size) - 1
                && buffer[..LS_PACKET_SIZE] == old(Contents)[0]
                && buffer[LS_PACKET_SIZE..] == old(buffer[LS_PACKET_SIZE..])
      ensures tail == null <==> Contents == []
    {
      var empty := IsEmptyQueue();
      if empty {
        return;
      }
      var node := head;
      assert node.packet == Contents[0];
      head := node.next;
      size := size - 1;
      empty := IsEmptyQueue();
      if empty {
        tail := null;
      }
      Nodes := Nodes[1..];
      Contents := Contents[1..];
      assert Valid();
      CopyPacket(buffer, node.packet);
    }
  }

  /** memcpy of one packet: the first eight bytes of `buffer` become `packet`, the rest stay. */
  method CopyPacket(buffer: array<Byte>, packet: seq<Byte>)
    requires buffer.Length >= LS_PACKET_SIZE && |packet| == LS_PACKET_SIZE
    modifies buffer
    ensures buffer[..LS_PACKET_SIZE] == packet
    ensures buffer[LS_PACKET_SIZE..] == old(buffer[LS_PACKET_SIZE..])
  {
    forall i | 0 <= i < LS_PACKET_SIZE {
      buffer[i] := packet[i];
    }
  }

  /** A packet pushed onto an empty queue is the one popped back, and the queue is empty again. */
  method PushPopScenario(packet: array<Byte>, buffer: array<Byte>) returns (popped: seq<Byte>, emptyAfter: bool)
    requires packet.Length >= LS_PACKET_SIZE && buffer.Length >= LS_PACKET_SIZE && packet != buffer
    modifies buffer
    ensures popped == packet[..LS_PACKET_SIZE] && emptyAfter
  {
    var queue := new FifoQueue();
    queue.Push(packet);
    queue.Pop(buffer);
    popped := buffer[..LS_PACKET_SIZE];
    emptyAfter := queue.IsEmptyQueue();
  }

  /** Two packets come out of the queue in the order they went in. */
  method FifoOrderScenario(first: array<Byte>, second: array<Byte>, buffer: array<Byte>)
    returns (out1: seq<Byte>, out2: seq<Byte>)
    requires first.Length >= LS_PACKET_SIZE && second.Length >= LS_PACKET_SIZE && buffer.Length >= LS_PACKET_SIZE
    requires buffer != first && buffer != second
    modifies buffer
    ensures out1 == old(first[..LS_PACKET_SIZE]) && out2 == old(second[..LS_PACKET_SIZE])
  {
    var queue := new FifoQueue();
    queue.Push(first);
    queue.Push(second);
    queue.Pop(buffer);
    out1 := buffer[..LS_PACKET_SIZE];
    queue.Pop(buffer);
    out2 := buffer[..LS_PACKET_SIZE];
  }

  /** struct Neighbor: one directly attached router, as read from the configuration file. */
  class Neighbor {
    const name: Label
    const address: string
    const port: Int32
    const cost: Int32
    var next: Neighbor?

    /** newNeighbor: records the label, address, port and cost; `next` is set by addToList. */
    constructor (name: Label, address: string, port: Int32, cost: Int32)
      ensures this.name == name && this.address == address
      ensures this.port == port && this.cost == cost
    {
      this.name := name;
      this.address := address;
      this.port := port;
      this.cost := cost;
    }
  }

  /** struct NeighborList: a singly linked list; `Nodes` is its spine from the head. */
  class NeighborList {
    var size: int
    var head: Neighbor?
    ghost var Nodes: seq<Neighbor>
    ghost var Repr: set<Neighbor>

    ghost predicate Valid()
      reads this, Repr
    {
      && (forall n :: n in Repr ==> n in Nodes)
      && (forall i :: 0 <= i < |Nodes| ==> Nodes[i] in Repr)
      && size == |Nodes|
      && (forall i {:trigger Nodes[i].next} :: 0 <= i < |Nodes| - 1 ==> Nodes[i].next == Nodes[i + 1])
      && (if Nodes == [] then head == null else head == Nodes[0] && Nodes[|Nodes| - 1].next == null)
    }

    /** newNeighborList: an empty list. */
    constructor ()
      ensures Valid() && Nodes == [] && size == 0 && head == null
    {
      size := 0;
      head := null;
      Nodes := [];
      Repr := {};
    }

    /** addToList: the neighbor becomes the new head; the rest of the list follows it unchanged. */
    method AddToList(node: Neighbor)
      requires Valid() && node !in Repr
      modifies this, node
      ensures Valid() && Nodes == [node] + old(Nodes) && size == old(size) + 1
      ensures Repr == old(Repr) + {node}
    {
      node.next := head;
      head := node;
      size := size + 1;
      Nodes := [node] + Nodes;
      Repr := Repr + {node};
    }
  }

  /** The advertisement queueNeighbors builds for one neighbor. */
  function Advert(localName: Label, n: Neighbor): (p: seq<Byte>)
    ensures |p| == LS_PACKET_SIZE
  {
    Encode(6, 0, localName, n.name, n.cost)
  }

  /** The advertisements for a run of neighbors, in list order. */
  function NeighborPackets(ns: seq<Neighbor>, localName: Label): (ps: seq<seq<Byte>>)
    ensures |ps| == |ns|
  {
    if ns == [] then [] else NeighborPackets(ns[..|ns| - 1], localName) + [Advert(localName, ns[|ns| - 1])]
  }

  /**
   * The i-th advertisement is the one for the i-th neighbor, and it decodes to
   * hop count 6, sequence number 0, the local label as source, and the
   * neighbor's label and link cost.
   */
  lemma {:induction false} NeighborPacketsDecode(ns: seq<Neighbor>, localName: Label)
    ensures forall i :: 0 <= i < |ns| ==> NeighborPackets(ns, localName)[i] == Advert(localName, ns[i])
    ensures forall i :: 0 <= i < |ns| ==>
              var p := Advert(localName, ns[i]);
              && HopCount(p) == 6 && SequenceNumber(p) == 0
              && SourceID(p) == localName && DestinationID(p) == ns[i].name && Cost(p) == ns[i].cost
  {
    if ns != [] {
      var init := ns[..|ns| - 1];
      NeighborPacketsDecode(init, localName);
      forall i | 0 <= i < |ns|
        ensures NeighborPackets(ns, localName)[i] == Advert(localName, ns[i])
      {
        if i < |ns| - 1 {
          assert ns[i] == init[i];
        }
      }
      forall n | n in ns
        ensures var p := Advert(localName, n);
                && HopCount(p) == 6 && SequenceNumber(p) == 0
                && SourceID(p) == localName && DestinationID(p) == n.name && Cost(p) == n.cost
      {
        DecodeEncodeFields(6, 0, localName, n.name, n.cost);
        DecodeEncodeCounters(6, 0, localName, n.name, n.cost);
      }
    }
  }

  /** One more neighbor walked adds its advertisement after those already queued. */
  lemma NeighborPacketsExtend(queued: seq<seq<Byte>>, ns: seq<Neighbor>, i: int, localName: Label)
    requires 0 <= i < |ns|
    ensures queued + NeighborPackets(ns[..i + 1], localName)
            == queued + NeighborPackets(ns[..i], localName) + [Advert(localName, ns[i])]
  {
    assert ns[..i + 1][..i] == ns[..i];
  }

  /** The body of queueNeighbors' loop: build the neighbor's advertisement in `packet` and push it. */
  method PushAdvert(queue: FifoQueue, packet: array<Byte>, localName: Label, n: Neighbor)
    requires queue.Valid() && packet.Length == LS_PACKET_SIZE
    modifies queue, queue.Repr, packet
    ensures queue.Valid() && fresh(queue.Repr - old(queue.Repr))
    ensures queue.Contents == old(queue.Contents) + [Advert(localName, n)]
  {
    BuildLSPacket(packet, 6, 0, localName, n.name, n.cost);
    queue.Push(packet);
  }

  /**
   * queueNeighbors: walks the list from its head and pushes one advertisement
   * per neighbor onto the queue, in list order.
   */
  method QueueNeighbors(neighbors: NeighborList, queue: FifoQueue, localName: Label)
    requires neighbors.Valid() && queue.Valid()
    modifies queue, queue.Repr
    ensures queue.Valid() && fresh(queue.Repr - old(queue.Repr))
    ensures queue.Contents == old(queue.Contents) + NeighborPackets(neighbors.Nodes, localName)
    ensures queue.size == old(queue.size) + neighbors.size
  {
    var packet := new Byte[LS_PACKET_SIZE];
    var neighbor := neighbors.head;
    ghost var ns := neighbors.Nodes;
    ghost var i := 0;
    while neighbor != null
      invariant 0 <= i <= |ns|
      invariant neighbor == (if i < |ns| then ns[i] else null)
      invariant queue.Valid() && fresh(queue.Repr - old(queue.Repr))
      invariant queue.Contents == old(queue.Contents) + NeighborPackets(ns[..i], localName)
      invariant queue.size == old(queue.size) + i
      decreases |ns| - i
    {
      assert neighbor.next == if i + 1 < |ns| then ns[i + 1] else null;
      PushAdvert(queue, packet, localName, neighbor);
      NeighborPacketsExtend(old(queue.Contents), ns, i, localName);
      neighbor := neighbor.next;
      i := i + 1;
    }
    assert ns[..i] == ns;
  }
}
