/**
 * The topology store of lsGraph.c: a list of vertices keyed by a one-character
 * label, each owning a list of directed edges with a cost and a sequence number.
 * The C linked lists are the sequences `Graph.vertices` and `Vertex.edges`; an
 * edge's `connectsTo` pointer is the label of the vertex it points to, which
 * identifies that vertex because labels are unique (an invariant, `WellFormed`).
 */
module LsGraph {
  import opened Wrappers
  import opened LsPacket

  /** edgeT: `newEdge` is this constructor. */
  datatype Edge = Edge(connectsTo: Label, cost: Int32, sequenceNum: Int32)

  /** vertexT: `newVertex(label)` is `Vertex(label, [])`. */
  datatype Vertex = Vertex(name: Label, edges: seq<Edge>)

  /** The sequence number updateExistingEdge accepts after `s`: `(s + 1) % 255` in C. */
  function NextSequence(s: Int32): (r: int)
    ensures s + 1 >= 0 ==> 0 <= r < 255 && (r - (s + 1)) % 255 == 0
    ensures s + 1 < 0 ==> -255 < r <= 0 && (r - (s + 1)) % 255 == 0
    ensures -1 <= s < 254 ==> r == s + 1
  {
    CRem(s + 1, 255)
  }

  /** Position of the first vertex labelled `name`, or -1 (findVertex's NULL). */
  function VertexIndex(vs: seq<Vertex>, name: Label): (i: int)
    ensures -1 <= i < |vs|
    ensures 0 <= i ==> vs[i].name == name && forall j :: 0 <= j < i ==> vs[j].name != name
    ensures i == -1 <==> forall j :: 0 <= j < |vs| ==> vs[j].name != name
    decreases |vs|
  {
    if |vs| == 0 then -1
    else if vs[0].name == name then 0
    else
      var k := VertexIndex(vs[1..], name);
      if k < 0 then -1 else k + 1
  }

  /** Position of the first edge pointing to `to`, or -1 (findEdge's NULL). */
  function EdgeIndex(es: seq<Edge>, to: Label): (i: int)
    ensures -1 <= i < |es|
    ensures 0 <= i ==> es[i].connectsTo == to && forall j :: 0 <= j < i ==> es[j].connectsTo != to
    ensures i == -1 <==> forall j :: 0 <= j < |es| ==> es[j].connectsTo != to
    decreases |es|
  {
    if |es| == 0 then -1
    else if es[0].connectsTo == to then 0
    else
      var k := EdgeIndex(es[1..], to);
      if k < 0 then -1 else k + 1
  }

  /** The vertex labels in list order. */
  function Labels(vs: seq<Vertex>): (ls: seq<Label>)
    ensures |ls| == |vs| && forall i :: 0 <= i < |vs| ==> ls[i] == vs[i].name
  {
    if |vs| == 0 then [] else Labels(vs[..|vs| - 1]) + [vs[|vs| - 1].name]
  }

  /** The edge of `es` pointing to `to`, if any. */
  function EdgeTo(es: seq<Edge>, to: Label): Option<Edge>
  {
    var k := EdgeIndex(es, to);
    if k < 0 then None else Some(es[k])
  }

  /** The outgoing edges of the vertex labelled `from`; none when there is no such vertex. */
  function EdgesFrom(vs: seq<Vertex>, from: Label): seq<Edge>
  {
    var i := VertexIndex(vs, from);
    if i < 0 then [] else vs[i].edges
  }

  /** The `from -> to` edge, if the store holds one. */
  function EdgeOf(vs: seq<Vertex>, from: Label, to: Label): Option<Edge>
  {
    EdgeTo(EdgesFrom(vs, from), to)
  }

  ghost predicate UniqueLabels(vs: seq<Vertex>)
  {
    forall i, j :: 0 <= i < j < |vs| ==> vs[i].name != vs[j].name
  }

  /** At most one edge per ordered pair of vertices. */
  ghost predicate UniqueTargets(es: seq<Edge>)
  {
    forall i, j :: 0 <= i < j < |es| ==> es[i].connectsTo != es[j].connectsTo
  }

  /** Every edge points to a vertex of the store. */
  ghost predicate EdgesClosed(vs: seq<Vertex>)
  {
    forall i, k :: 0 <= i < |vs| && 0 <= k < |vs[i].edges| ==> VertexIndex(vs, vs[i].edges[k].connectsTo) >= 0
  }

  ghost predicate WellFormed(vs: seq<Vertex>)
  {
    && UniqueLabels(vs)
    && (forall i :: 0 <= i < |vs| ==> UniqueTargets(vs[i].edges))
    && EdgesClosed(vs)
  }

  /** The vertex list after `findVertex(label)` and, when it fails, `insertNewVertex(label)`. */
  function WithVertex(vs: seq<Vertex>, name: Label): (r: seq<Vertex>)
    ensures VertexIndex(r, name) >= 0
    ensures |vs| <= |r| <= |vs| + 1 && r[..|vs|] == vs
    ensures |r| == |vs| + 1 <==> VertexIndex(vs, name) < 0
    ensures |r| == |vs| + 1 ==> r[|vs|] == Vertex(name, [])
  {
    if VertexIndex(vs, name) >= 0 then vs
    else
      var r := vs + [Vertex(name, [])];
      assert r[|vs|].name == name;
      r
  }

  /**
   * findEdge followed by insertNewEdge or updateExistingEdge on one edge list:
   * the new list and addEdge's status.
   */
  function UpsertEdge(es: seq<Edge>, to: Label, cost: Int32, sequenceNum: Int32): (r: (seq<Edge>, int))
    ensures r.1 == 0 || r.1 == 1
    ensures |es| <= |r.0| <= |es| + 1
    ensures r.1 == 1 ==> r.0 == es
  {
    var k := EdgeIndex(es, to);
    if k < 0 then
      (es + [Edge(to, cost, sequenceNum)], 0)
    else if NextSequence(es[k].sequenceNum) == sequenceNum then
      (es[k := Edge(to, cost, sequenceNum)], 0)
    else
      (es, 1)
  }

  /**
   * What addEdge does to the vertex list and what it returns: create the `to`
   * vertex, then the `from` vertex, when missing; then upsert the `from -> to`
   * edge in `from`'s list.
   */
  function AddEdgeModel(vs: seq<Vertex>, from: Label, to: Label, cost: Int32, sequenceNum: Int32)
    : (r: (seq<Vertex>, int))
    ensures r.1 == 0 || r.1 == 1
    ensures |vs| <= |r.0| <= |vs| + 2
  {
    var vs1 := WithVertex(WithVertex(vs, to), from);
    var f := VertexIndex(vs1, from);
    var u := UpsertEdge(vs1[f].edges, to, cost, sequenceNum);
    (vs1[f := Vertex(from, u.0)], u.1)
  }

  lemma SameNamesSameIndex(vs: seq<Vertex>, ws: seq<Vertex>)
    requires |vs| == |ws| && forall i :: 0 <= i < |vs| ==> vs[i].name == ws[i].name
    ensures forall l :: VertexIndex(vs, l) == VertexIndex(ws, l)
  {
    forall l ensures VertexIndex(vs, l) == VertexIndex(ws, l) {
      var a, b := VertexIndex(vs, l), VertexIndex(ws, l);
      if a >= 0 { assert ws[a].name == l; }
      if b >= 0 { assert vs[b].name == l; }
    }
  }

  lemma PrefixKeepsIndex(vs: seq<Vertex>, ws: seq<Vertex>, l: Label)
    requires |vs| <= |ws| && ws[..|vs|] == vs && VertexIndex(vs, l) >= 0
    ensures VertexIndex(ws, l) == VertexIndex(vs, l)
  {
    var a := VertexIndex(vs, l);
    assert ws[a] == vs[a];
    forall j | 0 <= j < a ensures ws[j].name != l { assert ws[j] == vs[j]; }
  }

  lemma WithVertexKeepsWellFormed(vs: seq<Vertex>, name: Label)
    requires WellFormed(vs)
    ensures WellFormed(WithVertex(vs, name))
  {
    var r := WithVertex(vs, name);
    if |r| > |vs| {
      forall i, j | 0 <= i < j < |r| ensures r[i].name != r[j].name {
        if j < |vs| { assert r[i] == vs[i] && r[j] == vs[j]; } else { assert r[i] == vs[i]; }
      }
      forall i | 0 <= i < |r| ensures UniqueTargets(r[i].edges) {
        if i < |vs| { assert r[i] == vs[i]; }
      }
      forall i, k | 0 <= i < |r| && 0 <= k < |r[i].edges|
        ensures VertexIndex(r, r[i].edges[k].connectsTo) >= 0
      {
        assert i < |vs| && r[i] == vs[i];
        PrefixKeepsIndex(vs, r, vs[i].edges[k].connectsTo);
      }
    }
  }

  /** addEdge only rewrites the `from` vertex's edge list: names and positions are those of the extended list. */
  lemma AddEdgeNames(vs: seq<Vertex>, from: Label, to: Label, cost: Int32, sequenceNum: Int32)
    ensures var vs1 := WithVertex(WithVertex(vs, to), from);
            var r := AddEdgeModel(vs, from, to, cost, sequenceNum).0;
            Labels(r) == Labels(vs1) && forall l :: VertexIndex(r, l) == VertexIndex(vs1, l)
  {
    var vs1 := WithVertex(WithVertex(vs, to), from);
    var r := AddEdgeModel(vs, from, to, cost, sequenceNum).0;
    assert |r| == |vs1| && forall i :: 0 <= i < |r| ==> r[i].name == vs1[i].name;
    SameNamesSameIndex(vs1, r);
    assert Labels(r) == Labels(vs1);
  }

  /** addEdge keeps every vertex already in the store at its position, and adds at most two. */
  lemma AddEdgeKeepsPositions(vs: seq<Vertex>, from: Label, to: Label, cost: Int32, sequenceNum: Int32)
    ensures var r := AddEdgeModel(vs, from, to, cost, sequenceNum).0;
            forall l :: VertexIndex(vs, l) >= 0 ==> VertexIndex(r, l) == VertexIndex(vs, l)
  {
    var vs0 := WithVertex(vs, to);
    var vs1 := WithVertex(vs0, from);
    AddEdgeNames(vs, from, to, cost, sequenceNum);
    forall l | VertexIndex(vs, l) >= 0
      ensures VertexIndex(vs1, l) == VertexIndex(vs, l)
    {
      PrefixKeepsIndex(vs, vs0, l);
      PrefixKeepsIndex(vs0, vs1, l);
    }
  }

  /** Replacing one vertex's edge list by a duplicate-free list into the store keeps the store well formed. */
  lemma ReplaceEdgesKeepsWellFormed(vs: seq<Vertex>, f: int, es: seq<Edge>)
    requires WellFormed(vs) && 0 <= f < |vs| && UniqueTargets(es)
    requires forall k :: 0 <= k < |es| ==> VertexIndex(vs, es[k].connectsTo) >= 0
    ensures WellFormed(vs[f := Vertex(vs[f].name, es)])
  {
    var r := vs[f := Vertex(vs[f].name, es)];
    SameNamesSameIndex(vs, r);
    forall i, j | 0 <= i < j < |r| ensures r[i].name != r[j].name {
      assert r[i].name == vs[i].name && r[j].name == vs[j].name;
    }
    forall i | 0 <= i < |r| ensures UniqueTargets(r[i].edges) {
      if i != f { assert r[i] == vs[i]; }
    }
    forall i, k | 0 <= i < |r| && 0 <= k < |r[i].edges|
      ensures VertexIndex(r, r[i].edges[k].connectsTo) >= 0
    {
      if i != f { assert r[i] == vs[i]; }
    }
  }

  /** findVertex/insertNewVertex appends the label exactly when it was missing. */
  lemma WithVertexLabels(vs: seq<Vertex>, name: Label)
    ensures Labels(WithVertex(vs, name)) == Labels(vs) + (if VertexIndex(vs, name) < 0 then [name] else [])
  {
    var r := WithVertex(vs, name);
    var want := Labels(vs) + (if VertexIndex(vs, name) < 0 then [name] else []);
    forall i | 0 <= i < |r| ensures Labels(r)[i] == want[i] {
      if i < |vs| { assert r[i] == vs[i]; }
    }
    assert Labels(r) == want;
  }

  /** What an upsert does to one edge list, target by target. */
  lemma UpsertEdgeFacts(es: seq<Edge>, to: Label, cost: Int32, sequenceNum: Int32)
    requires UniqueTargets(es)
    ensures var (es', status) := UpsertEdge(es, to, cost, sequenceNum);
            && UniqueTargets(es')
            && |es| <= |es'|
            && (forall e :: 0 <= e < |es'| ==> es'[e].connectsTo == (if e < |es| then es[e].connectsTo else to))
            && (forall b :: b != to ==> EdgeTo(es', b) == EdgeTo(es, b))
            && (status == 0 || status == 1)
            && (status == 0 <==> EdgeTo(es, to).None? || sequenceNum == NextSequence(EdgeTo(es, to).value.sequenceNum))
            && EdgeTo(es', to) == (if status == 0 then Some(Edge(to, cost, sequenceNum)) else EdgeTo(es, to))
            && (EdgeTo(es, to).None? ==> es' == es + [Edge(to, cost, sequenceNum)])
  {
    var (es', status) := UpsertEdge(es, to, cost, sequenceNum);
    var k := EdgeIndex(es, to);
    if k < 0 {
      assert es'[|es|].connectsTo == to;
      assert EdgeIndex(es', to) == |es|;
      forall b | b != to ensures EdgeTo(es', b) == EdgeTo(es, b) {
        var m := EdgeIndex(es, b);
        if m >= 0 { assert es'[m] == es[m]; }
        var m' := EdgeIndex(es', b);
        if m' >= 0 { assert m' < |es| && es[m'] == es'[m']; }
      }
    } else if status == 0 {
      assert es'[k].connectsTo == to;
      assert EdgeIndex(es', to) == k;
      forall b | b != to ensures EdgeTo(es', b) == EdgeTo(es, b) {
        var m := EdgeIndex(es, b);
        if m >= 0 { assert es'[m] == es[m]; }
        var m' := EdgeIndex(es', b);
        if m' >= 0 { assert m' != k && es[m'] == es'[m']; }
      }
    }
  }

  /** addEdge keeps labels unique, at most one edge per ordered pair, and every edge pointing into the store. */
  lemma {:induction false} AddEdgeKeepsWellFormed(vs: seq<Vertex>, from: Label, to: Label, cost: Int32, sequenceNum: Int32)
    requires WellFormed(vs)
    ensures WellFormed(AddEdgeModel(vs, from, to, cost, sequenceNum).0)
  {
    var vs0 := WithVertex(vs, to);
    WithVertexKeepsWellFormed(vs, to);
    var vs1 := WithVertex(vs0, from);
    WithVertexKeepsWellFormed(vs0, from);
    PrefixKeepsIndex(vs0, vs1, to);
    var f := VertexIndex(vs1, from);
    UpsertEdgeFacts(vs1[f].edges, to, cost, sequenceNum);
    var es := UpsertEdge(vs1[f].edges, to, cost, sequenceNum).0;
    forall k | 0 <= k < |es| ensures VertexIndex(vs1, es[k].connectsTo) >= 0 {
      if k < |vs1[f].edges| { assert es[k].connectsTo == vs1[f].edges[k].connectsTo; }
    }
    ReplaceEdgesKeepsWellFormed(vs1, f, es);
  }

  /**
   * After addEdge both endpoint labels are in the store; the list is the old one
   * followed by `to` when it was missing and then `from` when it was missing.
   */
  lemma {:induction false} AddEdgeVertices(vs: seq<Vertex>, from: Label, to: Label, cost: Int32, sequenceNum: Int32)
    ensures Labels(AddEdgeModel(vs, from, to, cost, sequenceNum).0)
            == Labels(vs)
               + (if VertexIndex(vs, to) < 0 then [to] else [])
               + (if VertexIndex(vs, from) < 0 && from != to then [from] else [])
    ensures VertexIndex(AddEdgeModel(vs, from, to, cost, sequenceNum).0, from) >= 0
    ensures VertexIndex(AddEdgeModel(vs, from, to, cost, sequenceNum).0, to) >= 0
  {
    var vs0 := WithVertex(vs, to);
    AddEdgeNames(vs, from, to, cost, sequenceNum);
    WithVertexLabels(vs, to);
    WithVertexLabels(vs0, from);
    if VertexIndex(vs, from) < 0 && from != to {
      assert VertexIndex(vs0, from) < 0 by {
        forall j | 0 <= j < |vs0| ensures vs0[j].name != from {
          if j < |vs| { assert vs0[j] == vs[j]; }
        }
      }
    } else if VertexIndex(vs, from) >= 0 {
      PrefixKeepsIndex(vs, vs0, from);
    }
  }

  /** Inserting a vertex adds no edge: every label's outgoing list reads as before. */
  lemma WithVertexEdgesFrom(vs: seq<Vertex>, name: Label)
    ensures forall a :: EdgesFrom(WithVertex(vs, name), a) == EdgesFrom(vs, a)
  {
    var r := WithVertex(vs, name);
    forall a ensures EdgesFrom(r, a) == EdgesFrom(vs, a) {
      if VertexIndex(vs, a) >= 0 {
        PrefixKeepsIndex(vs, r, a);
      }
    }
  }

  /** Replacing the edge list of the vertex found for its own label changes only that label's list. */
  lemma ReplaceEdgesFrom(vs: seq<Vertex>, f: int, es: seq<Edge>)
    requires 0 <= f < |vs| && VertexIndex(vs, vs[f].name) == f
    ensures forall a :: EdgesFrom(vs[f := Vertex(vs[f].name, es)], a) == if a == vs[f].name then es else EdgesFrom(vs, a)
  {
    var r := vs[f := Vertex(vs[f].name, es)];
    SameNamesSameIndex(vs, r);
    forall a ensures EdgesFrom(r, a) == if a == vs[f].name then es else EdgesFrom(vs, a) {
      var i := VertexIndex(vs, a);
      if 0 <= i && i != f { assert r[i] == vs[i]; }
    }
  }

  /**
   * addEdge seen label by label: `from`'s outgoing list is the upserted one and
   * every other label's list is unchanged; the status is the upsert's.
   */
  lemma AddEdgeEdgesFrom(vs: seq<Vertex>, from: Label, to: Label, cost: Int32, sequenceNum: Int32)
    ensures var r := AddEdgeModel(vs, from, to, cost, sequenceNum);
            var u := UpsertEdge(EdgesFrom(vs, from), to, cost, sequenceNum);
            && r.1 == u.1
            && forall a :: EdgesFrom(r.0, a) == if a == from then u.0 else EdgesFrom(vs, a)
  {
    var vs0 := WithVertex(vs, to);
    var vs1 := WithVertex(vs0, from);
    var f := VertexIndex(vs1, from);
    WithVertexEdgesFrom(vs, to);
    WithVertexEdgesFrom(vs0, from);
    assert vs1[f].edges == EdgesFrom(vs1, from);
    ReplaceEdgesFrom(vs1, f, UpsertEdge(vs1[f].edges, to, cost, sequenceNum).0);
  }

  /**
   * The sequence gate: a missing edge is always created; an existing edge is
   * overwritten exactly when the new sequence number is `(old + 1) % 255`;
   * the status is 0 when the edge now holds the new cost and sequence number
   * and 1 when it was left as it was.
   */
  lemma {:induction false} AddEdgeGate(vs: seq<Vertex>, from: Label, to: Label, cost: Int32, sequenceNum: Int32)
    requires WellFormed(vs)
    ensures var (vs', status) := AddEdgeModel(vs, from, to, cost, sequenceNum);
            && (status == 0 || status == 1)
            && (status == 0 <==> (EdgeOf(vs, from, to).None?
                                  || sequenceNum == NextSequence(EdgeOf(vs, from, to).value.sequenceNum)))
            && EdgeOf(vs', from, to) == (if status == 0 then Some(Edge(to, cost, sequenceNum)) else EdgeOf(vs, from, to))
  {
    AddEdgeEdgesFrom(vs, from, to, cost, sequenceNum);
    UpsertEdgeFacts(EdgesFrom(vs, from), to, cost, sequenceNum);
  }

  /**
   * addEdge is directed and local: every edge other than `from -> to` reads as
   * before, and every vertex other than `from` keeps its edge list. A new edge
   * goes to the tail of `from`'s list.
   */
  lemma {:induction false} AddEdgeOnlyTouchesFromTo(vs: seq<Vertex>, from: Label, to: Label, cost: Int32, sequenceNum: Int32)
    requires WellFormed(vs)
    ensures var r := AddEdgeModel(vs, from, to, cost, sequenceNum).0;
            && (forall a, b :: (a != from || b != to) ==> EdgeOf(r, a, b) == EdgeOf(vs, a, b))
            && (forall a :: a != from ==> EdgesFrom(r, a) == EdgesFrom(vs, a))
            && (EdgeOf(vs, from, to).None? ==> EdgesFrom(r, from) == EdgesFrom(vs, from) + [Edge(to, cost, sequenceNum)])
  {
    AddEdgeEdgesFrom(vs, from, to, cost, sequenceNum);
    UpsertEdgeFacts(EdgesFrom(vs, from), to, cost, sequenceNum);
  }

  /** An advertisement for an existing link that fails the sequence gate leaves the store exactly as it was. */
  lemma {:induction false} AddEdgeRejectedKeepsStore(vs: seq<Vertex>, from: Label, to: Label, cost: Int32, sequenceNum: Int32)
    requires WellFormed(vs)
    requires EdgeOf(vs, from, to).Some? && sequenceNum != NextSequence(EdgeOf(vs, from, to).value.sequenceNum)
    ensures AddEdgeModel(vs, from, to, cost, sequenceNum) == (vs, 1)
  {
    var f := VertexIndex(vs, from);
    var k := EdgeIndex(vs[f].edges, to);
    assert VertexIndex(vs, to) >= 0;
    assert WithVertex(WithVertex(vs, to), from) == vs;
    assert UpsertEdge(vs[f].edges, to, cost, sequenceNum) == (vs[f].edges, 1);
    assert vs[f := Vertex(from, vs[f].edges)] == vs;
  }

  /**
   * Sequence numbers reach the store through a signed `char`, so no packet
   * carries 128 = `(127 + 1) % 255`: once a link holds sequence number 127,
   * every advertisement for it is discarded and leaves the store unchanged.
   */
  lemma SequenceStallsAfter127(vs: seq<Vertex>, p: seq<Byte>)
    requires WellFormed(vs) && |p| >= LS_PACKET_SIZE
    requires EdgeOf(vs, SourceID(p), DestinationID(p)).Some?
    requires EdgeOf(vs, SourceID(p), DestinationID(p)).value.sequenceNum == 127
    ensures AddEdgeModel(vs, SourceID(p), DestinationID(p), Cost(p), SequenceNumber(p)) == (vs, 1)
  {
    assert NextSequence(127) == 128;
    AddEdgeRejectedKeepsStore(vs, SourceID(p), DestinationID(p), Cost(p), SequenceNumber(p));
  }

  /** The store after processLinkStatePacket on one packet: a vertex already present keeps its position. */
  function ProcessPacket(vs: seq<Vertex>, p: seq<Byte>): (r: seq<Vertex>)
    requires |p| >= LS_PACKET_SIZE
    ensures |vs| <= |r| <= |vs| + 2
    ensures forall l :: VertexIndex(vs, l) >= 0 ==> VertexIndex(r, l) == VertexIndex(vs, l)
  {
    AddEdgeKeepsPositions(vs, SourceID(p), DestinationID(p), Cost(p), SequenceNumber(p));
    AddEdgeModel(vs, SourceID(p), DestinationID(p), Cost(p), SequenceNumber(p)).0
  }

  /** The store after processLinkStatePacket has been called on each packet of `ps` in turn. */
  function ProcessPackets(vs: seq<Vertex>, ps: seq<seq<Byte>>): (r: seq<Vertex>)
    requires forall i :: 0 <= i < |ps| ==> |ps[i]| >= LS_PACKET_SIZE
    ensures |vs| <= |r|
    decreases |ps|
  {
    if ps == [] then vs else ProcessPackets(ProcessPacket(vs, ps[0]), ps[1..])
  }

  /** No sequence of processed packets moves or removes a vertex that was in the store. */
  lemma {:induction false} ProcessPacketsKeepVertices(vs: seq<Vertex>, ps: seq<seq<Byte>>, l: Label)
    requires forall i :: 0 <= i < |ps| ==> |ps[i]| >= LS_PACKET_SIZE
    requires VertexIndex(vs, l) >= 0
    ensures VertexIndex(ProcessPackets(vs, ps), l) == VertexIndex(vs, l)
    decreases |ps|
  {
    if ps != [] {
      var vs1 := ProcessPacket(vs, ps[0]);
      ProcessPacketsKeepVertices(vs1, ps[1..], l);
    }
  }

  /** A well-formed store whose `from -> to` link holds sequence number 127. */
  ghost predicate Stalled(vs: seq<Vertex>, from: Label, to: Label)
  {
    WellFormed(vs) && EdgeOf(vs, from, to).Some? && EdgeOf(vs, from, to).value.sequenceNum == 127
  }

  /** One processed packet keeps a stalled link, and the store around it well formed, as it was. */
  lemma StalledLinkStep(vs: seq<Vertex>, p: seq<Byte>, from: Label, to: Label)
    requires Stalled(vs, from, to) && |p| >= LS_PACKET_SIZE
    ensures Stalled(ProcessPacket(vs, p), from, to) && EdgeOf(ProcessPacket(vs, p), from, to) == EdgeOf(vs, from, to)
  {
    AddEdgeKeepsWellFormed(vs, SourceID(p), DestinationID(p), Cost(p), SequenceNumber(p));
    if SourceID(p) == from && DestinationID(p) == to {
      SequenceStallsAfter127(vs, p);
    } else {
      AddEdgeOnlyTouchesFromTo(vs, SourceID(p), DestinationID(p), Cost(p), SequenceNumber(p));
    }
  }

  /** A stalled store exists: A's link to B holds sequence number 127. */
  lemma StalledExample()
    ensures Stalled([Vertex('B', []), Vertex('A', [Edge('B', 4, 127)])], 'A', 'B')
  {
    var vs := [Vertex('B', []), Vertex('A', [Edge('B', 4, 127)])];
    assert VertexIndex(vs, 'B') == 0;
    assert VertexIndex(vs, 'A') == 1;
    assert EdgeIndex(vs[1].edges, 'B') == 0;
  }

  /** A link stalled at sequence number 127 keeps its cost and sequence number whatever packets follow. */
  lemma {:induction false} StalledLinkNeverChanges(vs: seq<Vertex>, ps: seq<seq<Byte>>, from: Label, to: Label)
    requires Stalled(vs, from, to) && forall i :: 0 <= i < |ps| ==> |ps[i]| >= LS_PACKET_SIZE
    ensures EdgeOf(ProcessPackets(vs, ps), from, to) == EdgeOf(vs, from, to)
    decreases |ps|
  {
    if ps != [] {
      StalledLinkStep(vs, ps[0], from, to);
      StalledLinkNeverChanges(ProcessPacket(vs, ps[0]), ps[1..], from, to);
    }
  }

  /** graphT: the vertex list. */
  class Graph {
    var vertices: seq<Vertex>

    /** newGraph */
    constructor ()
      ensures vertices == []
    {
      vertices := [];
    }

    /** findVertex: walks the list and returns the first vertex with the name. */
    method FindVertex(name: Label) returns (i: int)
      ensures -1 <= i < |vertices|
      ensures 0 <= i ==> vertices[i].name == name && forall j :: 0 <= j < i ==> vertices[j].name != name
      ensures i == -1 <==> forall j :: 0 <= j < |vertices| ==> vertices[j].name != name
    {
      var n := 0;
      while n < |vertices|
        invariant 0 <= n <= |vertices|
        invariant forall j :: 0 <= j < n ==> vertices[j].name != name
      {
        if vertices[n].name == name {
          return n;
        }
        n := n + 1;
      }
      return -1;
    }

    /** insertNewVertex: appends a fresh vertex at the tail of the list. */
    method InsertNewVertex(name: Label) returns (i: int)
      modifies this
      ensures vertices == old(vertices) + [Vertex(name, [])]
      ensures i == |old(vertices)|
    {
      vertices := vertices + [Vertex(name, [])];
      i := |vertices| - 1;
    }

    /** findEdge: walks the edge list of vertex `from` for an edge pointing to `to`. */
    method FindEdge(from: nat, to: Label) returns (k: int)
      requires from < |vertices|
      ensures -1 <= k < |vertices[from].edges|
      ensures 0 <= k ==> vertices[from].edges[k].connectsTo == to
                         && forall j :: 0 <= j < k ==> vertices[from].edges[j].connectsTo != to
      ensures k == -1 <==> forall j :: 0 <= j < |vertices[from].edges| ==> vertices[from].edges[j].connectsTo != to
    {
      var es := vertices[from].edges;
      var n := 0;
      while n < |es|
        invariant 0 <= n <= |es|
        invariant forall j :: 0 <= j < n ==> es[j].connectsTo != to
      {
        if es[n].connectsTo == to {
          return n;
        }
        n := n + 1;
      }
      return -1;
    }

    /** insertNewEdge: appends a new edge at the tail of `from`'s edge list. */
    method InsertNewEdge(from: nat, to: Label, cost: Int32, sequenceNum: Int32) returns (k: int)
      requires from < |vertices|
      modifies this
      ensures vertices == old(vertices)[from := Vertex(old(vertices)[from].name,
                                                      old(vertices)[from].edges + [Edge(to, cost, sequenceNum)])]
      ensures k == |old(vertices)[from].edges|
    {
      var v := vertices[from];
      vertices := vertices[from := Vertex(v.name, v.edges + [Edge(to, cost, sequenceNum)])];
      k := |v.edges|;
    }

    /**
     * updateExistingEdge: applies the new cost and sequence number only when the
     * sequence number is the next one modulo 255; returns 0 when applied, 1 otherwise.
     */
    method UpdateExistingEdge(from: nat, k: nat, cost: Int32, sequenceNum: Int32) returns (r: int)
      requires from < |vertices| && k < |vertices[from].edges|
      modifies this
      ensures r == 0 <==> sequenceNum == NextSequence(old(vertices)[from].edges[k].sequenceNum)
      ensures r == 0 || r == 1
      ensures r == 0 ==> vertices == old(vertices)[from := Vertex(old(vertices)[from].name,
                          old(vertices)[from].edges[k := Edge(old(vertices)[from].edges[k].connectsTo, cost, sequenceNum)])]
      ensures r == 1 ==> vertices == old(vertices)
    {
      var v := vertices[from];
      var edge := v.edges[k];
      if NextSequence(edge.sequenceNum) != sequenceNum {
        return 1;
      }
      vertices := vertices[from := Vertex(v.name, v.edges[k := Edge(edge.connectsTo, cost, sequenceNum)])];
      return 0;
    }

    /**
     * addEdge's `if (!(v = findVertex(..))) v = insertNewVertex(..)`: the
     * vertex called `name`, appended when missing.
     */
    method FindOrInsertVertex(name: Label) returns (i: int)
      modifies this
      ensures vertices == WithVertex(old(vertices), name)
      ensures i == VertexIndex(vertices, name) && 0 <= i < |vertices| && vertices[i].name == name
    {
      i := FindVertex(name);
      if i < 0 {
        i := InsertNewVertex(name);
        assert vertices[i].name == name;
      }
    }

    /** addEdge: inserts or updates the directed edge `from -> to`. */
    method AddEdge(from: Label, to: Label, cost: Int32, sequenceNum: Int32) returns (r: int)
      modifies this
      ensures (vertices, r) == AddEdgeModel(old(vertices), from, to, cost, sequenceNum)
    {
      var vTo := FindOrInsertVertex(to);
      var vFrom := FindOrInsertVertex(from);
      ghost var vs1 := vertices;
      ghost var u := UpsertEdge(vs1[vFrom].edges, to, cost, sequenceNum);
      assert AddEdgeModel(old(vertices), from, to, cost, sequenceNum) == (vs1[vFrom := Vertex(from, u.0)], u.1);
      var edge := FindEdge(vFrom, to);
      assert edge == EdgeIndex(vertices[vFrom].edges, to);
      if edge < 0 {
        edge := InsertNewEdge(vFrom, to, cost, sequenceNum);
        assert vertices == vs1[vFrom := Vertex(from, u.0)] && u.1 == 0;
        return 0;
      } else {
        r := UpdateExistingEdge(vFrom, edge, cost, sequenceNum);
        if r == 0 {
          assert vertices == vs1[vFrom := Vertex(from, u.0)] && u.1 == 0;
        } else {
          assert vertices == vs1[vFrom := Vertex(from, u.0)] && u.1 == 1;
        }
      }
    }

    /** processLinkStatePacket: addEdge on the decoded source, destination, cost and sequence number. */
    method ProcessLinkStatePacket(lsPacket: seq<Byte>) returns (r: int)
      requires |lsPacket| >= LS_PACKET_SIZE
      modifies this
      ensures vertices == ProcessPacket(old(vertices), lsPacket)
      ensures r == AddEdgeModel(old(vertices), SourceID(lsPacket), DestinationID(lsPacket),
                                Cost(lsPacket), SequenceNumber(lsPacket)).1
    {
      var from := SourceID(lsPacket);
      var to := DestinationID(lsPacket);
      var cost := Cost(lsPacket);
      var sequenceNum := SequenceNumber(lsPacket);
      r := AddEdge(from, to, cost, sequenceNum);
    }
  }
}
