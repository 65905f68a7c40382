/**
 * The indexed binary min-heap of lsDijkstra.c. `slots` is the C `array` of
 * heap nodes, `pos` maps a key (a graph node index) to its slot. The ghost map
 * `Costs` is what the heap holds: the key of every occupied slot and its cost.
 * The ghost set `Tracked` holds the keys for which `isInHeap` answers
 * correctly: every key inserted so far, except those whose stale `pos` entry an
 * insert after an extract has brought back under `size`.
 */
module LsHeap {
  import opened Wrappers

  /** struct HeapNode; `newHeapNode(index, cost)` is this constructor. */
  datatype HeapNode = HeapNode(index: int, cost: int)

  /**
   * PARENT(i), which siftUp applies only to positions i > 0; there C's
   * truncating division and Dafny's agree.
   */
  function Parent(i: int): int
  {
    (i - 1) / 2
  }

  /** LCHILD(i) */
  function LChild(i: int): int
  {
    i * 2 + 1
  }

  /** RCHILD(i) */
  function RChild(i: int): int
  {
    i * 2 + 2
  }

  /**
   * The three index macros describe one tree: a slot's children lie after it
   * and have it as parent, and every slot but the root has its parent before it.
   */
  lemma IndexRelations(i: int)
    ensures i >= 0 ==> i < LChild(i) && RChild(i) == LChild(i) + 1
    ensures i >= 0 ==> Parent(LChild(i)) == i && Parent(RChild(i)) == i
    ensures i > 0 ==> 0 <= Parent(i) < i && (i == LChild(Parent(i)) || i == RChild(Parent(i)))
  {
  }

  /** swap: exchanges two heap-node pointers, here two slots of the array. */
  method Swap(a: array<HeapNode>, i: int, j: int)
    requires 0 <= i < a.Length && 0 <= j < a.Length
    modifies a
    ensures a[..] == old(a[..])[i := old(a[j])][j := old(a[i])]
  {
    var temp := a[i];
    a[i] := a[j];
    a[j] := temp;
  }

  /** Heap order on the first `n` slots: every slot costs at least its parent. */
  ghost predicate HeapOrder(a: seq<HeapNode>, n: int)
    requires 0 <= n <= |a|
  {
    forall s :: 0 < s < n ==> a[Parent(s)].cost <= a[s].cost
  }

  /** Heap order except between slot `k` and its parent; `k`'s children still cost at least `k`'s parent. */
  ghost predicate HeapOrderExceptUp(a: seq<HeapNode>, n: int, k: int)
    requires 0 <= n <= |a|
  {
    && (forall s :: 0 < s < n && s != k ==> a[Parent(s)].cost <= a[s].cost)
    && (0 < k < n ==> forall c :: 0 < c < n && Parent(c) == k ==> a[Parent(k)].cost <= a[c].cost)
  }

  /** Heap order except between slot `k` and its children; `k`'s children still cost at least `k`'s parent. */
  ghost predicate HeapOrderExceptDown(a: seq<HeapNode>, n: int, k: int)
    requires 0 <= n <= |a|
  {
    && (forall s :: 0 < s < n && Parent(s) != k ==> a[Parent(s)].cost <= a[s].cost)
    && (0 < k < n ==> forall c :: 0 < c < n && Parent(c) == k ==> a[Parent(k)].cost <= a[c].cost)
  }

  /**
   * `pos` and `array` are inverse on the first `n` slots, and those slots hold
   * exactly `costs`. A tracked key out of the heap has its `pos` at or beyond `n`.
   */
  ghost predicate Inverse(a: seq<HeapNode>, p: seq<int>, n: int, costs: map<int, int>, tracked: set<int>)
    requires 0 <= n <= |a| == |p|
  {
    && (forall s :: 0 <= s < n ==>
          && 0 <= a[s].index < |p|
          && p[a[s].index] == s
          && a[s].index in costs
          && costs[a[s].index] == a[s].cost)
    && (forall k :: k in costs ==> 0 <= k < |p| && 0 <= p[k] < n && a[p[k]].index == k)
    && costs.Keys <= tracked
    && (forall k :: k in tracked ==> 0 <= k < |p| && (k !in costs ==> p[k] >= n))
  }

  /** Swapping two occupied slots together with their keys' `pos` entries keeps the two arrays inverse. */
  lemma SwapKeepsInverse(a: seq<HeapNode>, p: seq<int>, n: int, costs: map<int, int>, tracked: set<int>, i: int, j: int)
    requires 0 <= n <= |a| == |p| && Inverse(a, p, n, costs, tracked)
    requires 0 <= i < n && 0 <= j < n
    ensures var p' := p[a[i].index := p[a[j].index]][a[j].index := p[a[i].index]];
            Inverse(a[i := a[j]][j := a[i]], p', n, costs, tracked)
  {
    var a' := a[i := a[j]][j := a[i]];
    var p' := p[a[i].index := p[a[j].index]][a[j].index := p[a[i].index]];
    forall k | k in costs ensures 0 <= p'[k] < n && a'[p'[k]].index == k {
      if k != a[i].index && k != a[j].index {
        assert p'[k] == p[k];
      }
    }
    forall k | k in tracked && k !in costs ensures p'[k] >= n {
      assert p'[k] == p[k];
    }
  }

  /** One step of siftUp: swapping `k` with its costlier parent moves the exception to the parent. */
  lemma {:induction false} SiftUpStep(a: seq<HeapNode>, n: int, k: int)
    requires 0 <= n <= |a| && 0 < k < n && HeapOrderExceptUp(a, n, k)
    requires a[k].cost < a[Parent(k)].cost
    ensures HeapOrderExceptUp(a[k := a[Parent(k)]][Parent(k) := a[k]], n, Parent(k))
  {
    var p := Parent(k);
    var a' := a[k := a[p]][p := a[k]];
    forall s | 0 < s < n && s != p ensures a'[Parent(s)].cost <= a'[s].cost {
      if s == k {
      } else if Parent(s) == k {
        assert a'[s] == a[s];
      } else if Parent(s) == p {
        assert a'[s] == a[s];
      } else {
        assert a'[s] == a[s];
      }
    }
    if 0 < p {
      forall c | 0 < c < n && Parent(c) == p ensures a'[Parent(p)].cost <= a'[c].cost {
        assert a'[Parent(p)] == a[Parent(p)];
        if c != k {
          assert a'[c] == a[c];
        }
      }
    }
  }

  /** One step of siftDown: swapping `k` with its cheapest child moves the exception to that child. */
  lemma {:induction false} SiftDownStep(a: seq<HeapNode>, n: int, k: int, small: int)
    requires 0 <= n <= |a| && 0 <= k && HeapOrderExceptDown(a, n, k)
    requires small == LChild(k) || small == RChild(k)
    requires small < n && a[small].cost < a[k].cost
    requires LChild(k) < n ==> a[small].cost <= a[LChild(k)].cost
    requires RChild(k) < n ==> a[small].cost <= a[RChild(k)].cost
    ensures HeapOrderExceptDown(a[k := a[small]][small := a[k]], n, small)
  {
    var a' := a[k := a[small]][small := a[k]];
    IndexRelations(k);
    forall s | 0 < s < n && Parent(s) != small ensures a'[Parent(s)].cost <= a'[s].cost {
      IndexRelations(s);
      if s == small {
      } else if s == k {
        assert a'[Parent(s)] == a[Parent(s)];
      } else if Parent(s) == k {
        assert s == LChild(k) || s == RChild(k);
        assert a'[s] == a[s];
      } else {
        assert a'[s] == a[s];
        assert Parent(s) != k;
      }
    }
    forall c | 0 < c < n && Parent(c) == small ensures a'[Parent(small)].cost <= a'[c].cost {
      assert a'[c] == a[c];
    }
  }

  /** When neither child is cheaper, the exception at `k` is no exception at all. */
  lemma {:induction false} SiftDownDone(a: seq<HeapNode>, n: int, k: int)
    requires 0 <= n <= |a| && 0 <= k && HeapOrderExceptDown(a, n, k)
    requires LChild(k) < n ==> a[k].cost <= a[LChild(k)].cost
    requires RChild(k) < n ==> a[k].cost <= a[RChild(k)].cost
    ensures HeapOrder(a, n)
  {
    forall s | 0 < s < n ensures a[Parent(s)].cost <= a[s].cost {
      if Parent(s) == k {
        assert s == LChild(k) || s == RChild(k);
      }
    }
  }

  /** The root of an ordered heap costs no more than any occupied slot. */
  lemma {:induction false} RootIsMinimum(a: seq<HeapNode>, n: int, s: int)
    requires 0 <= n <= |a| && HeapOrder(a, n) && 0 <= s < n
    ensures a[0].cost <= a[s].cost
    decreases s
  {
    if s > 0 {
      RootIsMinimum(a, n, Parent(s));
    }
  }

  /**
   * The keys `isInHeap` still answers for once a node with key `index` takes
   * slot `n`: a tracked key out of the heap whose stale `pos` entry is `n`
   * would now be reported as present, so it drops out.
   */
  ghost function Retracked(tracked: set<int>, costs: map<int, int>, p: seq<int>, n: int, index: int): (r: set<int>)
    ensures forall k :: k in r <==> k == index || (k in tracked && (k in costs || !(0 <= k < |p|) || p[k] != n))
  {
    (set k | k in tracked && (k in costs || !(0 <= k < |p|) || p[k] != n)) + {index}
  }

  /**
   * After insert's first step, isInHeap's test `pos[k] < size` is accurate for
   * every key in Retracked, which holds the inserted key; a tracked key that
   * drops out is one the test would wrongly report as present.
   */
  lemma RetrackedAccurate(a: seq<HeapNode>, p: seq<int>, n: int, costs: map<int, int>, tracked: set<int>, node: HeapNode)
    requires 0 <= n < |a| == |p| && Inverse(a, p, n, costs, tracked)
    requires 0 <= node.index < |p| && node.index !in costs
    ensures var r, p' := Retracked(tracked, costs, p, n, node.index), p[node.index := n];
            && node.index in r && r <= tracked + {node.index}
            && (forall k :: k in r ==> 0 <= k < |p'| && (p'[k] < n + 1 <==> k in costs[node.index := node.cost]))
            && (forall k :: k in tracked && k !in r ==> k !in costs && p'[k] < n + 1)
  {
  }

  /** insert's first step: the node in the first free slot, its `pos` pointing there; only that slot may be out of order. */
  lemma InsertKeepsInverse(a: seq<HeapNode>, p: seq<int>, n: int, costs: map<int, int>, tracked: set<int>, node: HeapNode)
    requires 0 <= n < |a| == |p| && Inverse(a, p, n, costs, tracked) && HeapOrder(a, n)
    requires 0 <= node.index < |p| && node.index !in costs
    ensures Inverse(a[n := node], p[node.index := n], n + 1, costs[node.index := node.cost], Retracked(tracked, costs, p, n, node.index))
            && HeapOrderExceptUp(a[n := node], n + 1, n)
  {
    var a' := a[n := node];
    var p' := p[node.index := n];
    var costs' := costs[node.index := node.cost];
    var tracked' := Retracked(tracked, costs, p, n, node.index);
    forall s | 0 <= s < n + 1
      ensures 0 <= a'[s].index < |p'| && p'[a'[s].index] == s && a'[s].index in costs' && costs'[a'[s].index] == a'[s].cost
    {
      if s < n {
        assert a'[s] == a[s];
        assert a[s].index != node.index;
      }
    }
    forall k | k in costs' ensures 0 <= k < |p'| && 0 <= p'[k] < n + 1 && a'[p'[k]].index == k {
      if k != node.index {
        assert p'[k] == p[k];
      }
    }
    forall k | k in tracked' && k !in costs' ensures p'[k] >= n + 1 {
      assert p'[k] == p[k];
    }
  }

  /** extract's first step: the last node moved to the root, the root's key sent out of the heap; only the root may be out of order. */
  lemma ExtractKeepsInverse(a: seq<HeapNode>, p: seq<int>, n: int, costs: map<int, int>, tracked: set<int>)
    requires 0 < n <= |a| == |p| && Inverse(a, p, n, costs, tracked) && HeapOrder(a, n)
    ensures var a' := a[0 := a[n - 1]];
            var p' := p[a[0].index := n - 1][a[n - 1].index := 0];
            && Inverse(a', p', n - 1, costs - {a[0].index}, tracked)
            && HeapOrderExceptDown(a', n - 1, 0)
  {
    var a' := a[0 := a[n - 1]];
    var p' := p[a[0].index := n - 1][a[n - 1].index := 0];
    var costs' := costs - {a[0].index};
    forall s | 0 <= s < n - 1
      ensures 0 <= a'[s].index < |p'| && p'[a'[s].index] == s && a'[s].index in costs' && costs'[a'[s].index] == a'[s].cost
    {
      if s > 0 {
        assert a'[s] == a[s];
        assert a[s].index != a[0].index && a[s].index != a[n - 1].index;
      }
    }
    forall k | k in costs' ensures 0 <= k < |p'| && 0 <= p'[k] < n - 1 && a'[p'[k]].index == k {
      if k != a[n - 1].index {
        assert p'[k] == p[k];
        assert p[k] != 0 && p[k] != n - 1;
      }
    }
    forall k | k in tracked && k !in costs' ensures p'[k] >= n - 1 {
      if k != a[0].index && k != a[n - 1].index {
        assert p'[k] == p[k];
      }
    }
    forall s | 0 < s < n - 1 && Parent(s) != 0 ensures a'[Parent(s)].cost <= a'[s].cost {
      assert a'[s] == a[s] && a'[Parent(s)] == a[Parent(s)];
    }
  }

  /**
   * updateHeap's first step: the key's slot gets the new cost; only that slot
   * may be out of order, towards its parent when the cost fell and towards its
   * children otherwise.
   */
  lemma UpdateKeepsInverse(a: seq<HeapNode>, p: seq<int>, n: int, costs: map<int, int>, tracked: set<int>, index: int, cost: int)
    requires 0 <= n <= |a| == |p| && Inverse(a, p, n, costs, tracked) && HeapOrder(a, n)
    requires index in costs
    ensures var i := p[index];
            var a' := a[i := HeapNode(index, cost)];
            && 0 <= i < n && a[i].index == index
            && Inverse(a', p, n, costs[index := cost], tracked)
            && (a[i].cost > cost ==> HeapOrderExceptUp(a', n, i))
            && (a[i].cost <= cost ==> HeapOrderExceptDown(a', n, i))
  {
    var i := p[index];
    var a' := a[i := HeapNode(index, cost)];
    var costs' := costs[index := cost];
    forall s | 0 <= s < n
      ensures 0 <= a'[s].index < |p| && p[a'[s].index] == s && a'[s].index in costs' && costs'[a'[s].index] == a'[s].cost
    {
      if s != i {
        assert a'[s] == a[s];
        assert a[s].index != index;
      }
    }
    if a[i].cost > cost {
      forall c | 0 < c < n && Parent(c) == i && 0 < i ensures a'[Parent(i)].cost <= a'[c].cost {
        assert a'[c] == a[c];
      }
    } else {
      forall c | 0 < c < n && Parent(c) == i && 0 < i ensures a'[Parent(i)].cost <= a'[c].cost {
        assert a'[c] == a[c];
      }
    }
  }

  class MinHeap {
    var size: int
    const cap: int
    const pos: array<int>
    const slots: array<HeapNode>
    ghost var Costs: map<int, int>
    ghost var Tracked: set<int>

    ghost predicate Shape()
      reads this
    {
      0 <= size <= cap && slots.Length == cap && pos.Length == cap
    }

    ghost predicate Indexed()
      reads this, pos, slots
      requires Shape()
    {
      Inverse(slots[..], pos[..], size, Costs, Tracked)
    }

    ghost predicate Ordered()
      reads this, slots
      requires Shape()
    {
      HeapOrder(slots[..], size)
    }

    ghost predicate Valid()
      reads this, pos, slots
    {
      Shape() && Indexed() && Ordered()
    }

    /** newMinHeap: an empty heap of capacity `cap`. */
    constructor (cap: int)
      requires cap >= 0
      ensures Valid() && this.cap == cap && size == 0
      ensures Costs == map[] && Tracked == {}
      ensures fresh(pos) && fresh(slots)
    {
      this.cap := cap;
      pos := new int[cap];
      slots := new HeapNode[cap](_ => HeapNode(0, 0));
      size := 0;
      Costs := map[];
      Tracked := {};
    }

    /**
     * siftUp: moves the node at `index` towards the root while it costs less
     * than its parent, swapping the two `pos` entries with the two slots.
     */
    method SiftUp(index: int)
      requires Shape() && Indexed() && 0 <= index < size && HeapOrderExceptUp(slots[..], size, index)
      modifies pos, slots
      ensures Valid() && unchanged(this)
    {
      var ind := index;
      while ind > 0
        invariant 0 <= ind < size
        invariant Shape() && Indexed() && HeapOrderExceptUp(slots[..], size, ind)
        decreases ind
      {
        var parent := Parent(ind);
        if slots[ind].cost < slots[parent].cost {
          ghost var a, p := slots[..], pos[..];
          SwapKeepsInverse(a, p, size, Costs, Tracked, ind, parent);
          SiftUpStep(a, size, ind);
          var indNode := slots[ind];
          var parentNode := slots[parent];
          var temp := pos[indNode.index];
          pos[indNode.index] := pos[parentNode.index];
          pos[parentNode.index] := temp;
          Swap(slots, ind, parent);
          assert pos[..] == p[a[ind].index := p[a[parent].index]][a[parent].index := p[a[ind].index]];
          ind := parent;
        } else {
          break;
        }
      }
    }

    /**
     * siftDown: swaps the node at `index` with its cheaper child while that
     * child costs less, then continues from the child's slot.
     */
    method SiftDown(index: int)
      requires Shape() && Indexed() && 0 <= index && HeapOrderExceptDown(slots[..], size, index)
      modifies pos, slots
      ensures Valid() && unchanged(this)
      decreases size - index
    {
      var small := index;
      var lChild := LChild(small);
      var rChild := RChild(small);

      if lChild < size && slots[lChild].cost < slots[small].cost {
        small := lChild;
      }
      if rChild < size && slots[rChild].cost < slots[small].cost {
        small := rChild;
      }

      if small != index {
        ghost var a, p := slots[..], pos[..];
        SwapKeepsInverse(a, p, size, Costs, Tracked, index, small);
        SiftDownStep(a, size, index, small);
        var indexNode := slots[index];
        var smallNode := slots[small];
        var temp := pos[indexNode.index];
        pos[indexNode.index] := pos[smallNode.index];
        pos[smallNode.index] := temp;
        Swap(slots, index, small);
        assert pos[..] == p[a[index].index := p[a[small].index]][a[small].index := p[a[index].index]];
        SiftDown(small);
      } else {
        SiftDownDone(slots[..], size, index);
      }
    }

    /** isEmpty */
    method IsEmpty() returns (r: bool)
      requires Valid()
      ensures r <==> Costs == map[]
      ensures r <==> size == 0
    {
      r := size == 0;
      if size > 0 {
        assert slots[..][0].index in Costs;
      } else {
        assert forall k :: k !in Costs;
      }
    }

    /** isInHeap: accurate for every tracked key. */
    method IsInHeap(index: int) returns (r: bool)
      requires Valid() && index in Tracked
      ensures r <==> index in Costs
    {
      r := pos[index] < size;
    }

    /**
     * insert: a full heap is left as it is; otherwise the node goes to the
     * first free slot and is sifted up. Keys whose stale `pos` entry equals the
     * old size stop being tracked, since `isInHeap` would now report them.
     */
    method Insert(node: HeapNode)
      requires Valid() && 0 <= node.index < cap
      requires node.index in Costs ==> size >= cap
      modifies this, pos, slots
      ensures Valid()
      ensures old(size) >= cap ==> size == old(size) && Costs == old(Costs) && Tracked == old(Tracked)
      ensures old(size) < cap ==>
                && size == old(size) + 1
                && Costs == old(Costs)[node.index := node.cost]
                && Tracked == Retracked(old(Tracked), old(Costs), old(pos[..]), old(size), node.index)
    {
      if size >= cap {
        return;
      }
      ghost var a, p := slots[..], pos[..];
      InsertKeepsInverse(a, p, size, Costs, Tracked, node);
      Tracked := Retracked(Tracked, Costs, p, size, node.index);
      slots[size] := node;
      pos[node.index] := size;
      assert slots[..] == a[size := node] && pos[..] == p[node.index := size];
      size := size + 1;
      Costs := Costs[node.index := node.cost];
      SiftUp(size - 1);
    }

    /**
     * extract: NULL (None) on an empty heap; otherwise removes and returns the
     * root, a node of minimum cost, moving the last node to the root and
     * sifting it down.
     */
    method Extract() returns (r: Option<HeapNode>)
      requires Valid()
      modifies this, pos, slots
      ensures Valid() && Tracked == old(Tracked)
      ensures old(size) == 0 ==> r == None && size == old(size) && Costs == old(Costs)
                                  && pos[..] == old(pos[..]) && slots[..] == old(slots[..])
      ensures old(size) > 0 ==>
                && r.Some? && r.value.index in old(Costs)
                && r.value.cost == old(Costs)[r.value.index]
                && (forall k :: k in old(Costs) ==> r.value.cost <= old(Costs)[k])
                && Costs == old(Costs) - {r.value.index}
                && size == old(size) - 1
    {
      var empty := IsEmpty();
      if empty {
        return None;
      }
      ghost var a, p := slots[..], pos[..];
      var node := slots[0];
      forall k | k in Costs
        ensures node.cost <= Costs[k]
      {
        RootIsMinimum(a, size, p[k]);
      }
      ExtractKeepsInverse(a, p, size, Costs, Tracked);
      slots[0] := slots[size - 1];
      pos[node.index] := size - 1;
      pos[slots[0].index] := 0;
      assert pos[..] == p[a[0].index := size - 1][a[size - 1].index := 0];
      size := size - 1;
      Costs := Costs - {node.index};
      SiftDown(0);
      return Some(node);
    }

    /**
     * updateHeap: gives key `index` the new cost and restores the order,
     * sifting up when the cost fell and down otherwise.
     */
    method UpdateHeap(index: int, cost: int)
      requires Valid() && index in Costs
      modifies this, pos, slots
      ensures Valid()
      ensures Costs == old(Costs)[index := cost]
      ensures size == old(size) && Tracked == old(Tracked)
    {
      UpdateKeepsInverse(slots[..], pos[..], size, Costs, Tracked, index, cost);
      var i := pos[index];
      var op := slots[i].cost > cost;
      slots[i] := HeapNode(slots[i].index, cost);
      Costs := Costs[index := cost];
      if op {
        SiftUp(i);
      } else {
        SiftDown(i);
      }
    }
  }
}
