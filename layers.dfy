/**
 * The concentric layer assignment of the graph service: nodes, in their given
 * order, are packed greedily into rings whose capacities grow with the ring
 * index, and the ring indices are then inverted so that the first node gets
 * the largest "concentric" value, i.e. the centre of the layout.
 */
module Layers {

  type NodeId = string

  // ---------------------------------------------------------------------------
  // Layer capacity
  // ---------------------------------------------------------------------------

  function Pow8(k: nat): (r: nat)
    ensures r >= 1
  {
    if k == 0 then 1 else 8 * Pow8(k - 1)
  }

  /** Integer floor of the base-8 logarithm; it stands for
      `Math.floor(Math.log2(n) / Math.log2(8))`. */
  function FloorLog8(n: nat): nat
    requires n >= 1
  {
    if n < 8 then 0 else 1 + FloorLog8(n / 8)
  }

  /** FloorLog8 is the base-8 logarithm rounded down. */
  lemma {:induction false} FloorLog8Bounds(n: nat)
    requires n >= 1
    ensures Pow8(FloorLog8(n)) <= n < Pow8(FloorLog8(n) + 1)
  {
    if n >= 8 {
      var q := n / 8;
      FloorLog8Bounds(q);
      var f := FloorLog8(q);
      assert Pow8(f) <= q < Pow8(f + 1);
      assert Pow8(f + 1) == 8 * Pow8(f);
      assert Pow8(f + 2) == 8 * Pow8(f + 1);
      assert n == 8 * q + n % 8;
    }
  }

  lemma {:induction false} Pow8Monotone(i: nat, j: nat)
    requires i <= j
    ensures Pow8(i) <= Pow8(j)
    decreases j - i
  {
    if i < j {
      Pow8Monotone(i, j - 1);
    }
  }

  /** Any k with 8^k <= n < 8^(k+1) is FloorLog8(n): the two definitions agree. */
  lemma FloorLog8Unique(n: nat, k: nat)
    requires n >= 1
    requires Pow8(k) <= n < Pow8(k + 1)
    ensures FloorLog8(n) == k
  {
    FloorLog8Bounds(n);
    var f := FloorLog8(n);
    if f < k {
      Pow8Monotone(f + 1, k);
    } else if f > k {
      Pow8Monotone(k + 1, f);
    }
  }

  lemma {:induction false} FloorLog8Below(n: nat)
    requires n >= 1
    ensures FloorLog8(n) < n
  {
    if n >= 8 {
      FloorLog8Below(n / 8);
    }
  }

  /** The number of nodes a layer can hold (getMaxNodesInLayer). */
  function MaxNodesInLayer(layer: nat): (r: nat)
    ensures r >= 1
    ensures layer >= 3 ==> r >= 4 * (layer - 1)
  {
    match layer
    case 0 => 1
    case 1 => 4
    case 2 => 12
    case _ =>
      FloorLog8Below(layer);
      8 * (layer - 1) - 4 * FloorLog8(layer)
  }

  /** Capacity is 1, 4 and 12 for the first three layers and
      8(L-1) - 4 floor(log8 L) from layer 3 on, e.g. 16 for layer 3 and
      52 for layer 8. */
  lemma CapacityValues()
    ensures MaxNodesInLayer(0) == 1 && MaxNodesInLayer(1) == 4 && MaxNodesInLayer(2) == 12
    ensures MaxNodesInLayer(3) == 16 && MaxNodesInLayer(7) == 48
    ensures MaxNodesInLayer(8) == 52 && MaxNodesInLayer(64) == 496
  {
    FloorLog8Unique(3, 0);
    FloorLog8Unique(7, 0);
    FloorLog8Unique(8, 1);
    FloorLog8Unique(64, 2);
  }

  /** FloorLog8 grows by at most one from n to n + 1. */
  lemma FloorLog8Step(n: nat)
    requires n >= 1
    ensures FloorLog8(n) <= FloorLog8(n + 1) <= FloorLog8(n) + 1
  {
    FloorLog8Bounds(n);
    var f := FloorLog8(n);
    if n + 1 < Pow8(f + 1) {
      FloorLog8Unique(n + 1, f);
    } else {
      assert Pow8(f + 2) == 8 * Pow8(f + 1);
      FloorLog8Unique(n + 1, f + 1);
    }
  }

  /** Capacities strictly increase with the layer index. */
  lemma CapacityIncreasing(layer: nat)
    ensures MaxNodesInLayer(layer) < MaxNodesInLayer(layer + 1)
  {
    if layer >= 3 {
      FloorLog8Step(layer);
    } else if layer == 2 {
      FloorLog8Unique(3, 0);
    }
  }

  // ---------------------------------------------------------------------------
  // Greedy packing, as a specification
  // ---------------------------------------------------------------------------

  /** The counters of buildLayer: the current layer and how many nodes it holds. */
  datatype Packing = Packing(layerIndex: nat, nodesInLayer: nat)

  /** The counters after k nodes have been placed. */
  function PackAfter(k: nat): Packing
  {
    if k == 0 then Packing(0, 0)
    else
      var p := PackAfter(k - 1);
      if p.nodesInLayer + 1 == MaxNodesInLayer(p.layerIndex) then Packing(p.layerIndex + 1, 0)
      else Packing(p.layerIndex, p.nodesInLayer + 1)
  }

  /** The raw layer the node at position i is placed in. */
  function RawLayer(i: nat): nat
  {
    PackAfter(i).layerIndex
  }

  /** The first position of layer L: the sum of the capacities of layers 0 .. L-1. */
  function LayerStart(layer: nat): nat
  {
    if layer == 0 then 0 else LayerStart(layer - 1) + MaxNodesInLayer(layer - 1)
  }

  /** After k nodes the counters point at position k: k = start of the current
      layer + the nodes already in it, and the current layer is not full. */
  lemma {:induction false} PackAfterPosition(k: nat)
    ensures k == LayerStart(PackAfter(k).layerIndex) + PackAfter(k).nodesInLayer
    ensures PackAfter(k).nodesInLayer < MaxNodesInLayer(PackAfter(k).layerIndex)
  {
    if k > 0 {
      PackAfterPosition(k - 1);
    }
  }

  lemma {:induction false} LayerStartMonotone(a: nat, b: nat)
    requires a <= b
    ensures LayerStart(a) <= LayerStart(b)
    decreases b - a
  {
    if a < b {
      LayerStartMonotone(a, b - 1);
    }
  }

  /** Layers occupy disjoint position intervals, in increasing order. */
  lemma LayerEndBeforeStart(a: nat, b: nat)
    requires a < b
    ensures LayerStart(a) + MaxNodesInLayer(a) <= LayerStart(b)
  {
    LayerStartMonotone(a + 1, b);
  }

  /** Layer L holds exactly the positions LayerStart(L) .. LayerStart(L) + capacity(L) - 1. */
  lemma RawLayerInterval(i: nat, layer: nat)
    ensures RawLayer(i) == layer <==> LayerStart(layer) <= i < LayerStart(layer) + MaxNodesInLayer(layer)
  {
    PackAfterPosition(i);
    var l := RawLayer(i);
    var lo, hi := LayerStart(l), LayerStart(l) + MaxNodesInLayer(l);
    assert lo <= i < hi;
    if l < layer {
      LayerEndBeforeStart(l, layer);
    } else if l > layer {
      LayerEndBeforeStart(layer, l);
    }
  }

  /** Raw layers never decrease along the input order. */
  lemma {:induction false} RawLayerMonotone(i: nat, j: nat)
    requires i <= j
    ensures RawLayer(i) <= RawLayer(j)
    decreases j - i
  {
    if i < j {
      RawLayerMonotone(i, j - 1);
    }
  }

  /** How many of the first n positions land in the given layer. */
  function LayerCount(n: nat, layer: nat): nat
  {
    if n == 0 then 0 else LayerCount(n - 1, layer) + (if RawLayer(n - 1) == layer then 1 else 0)
  }

  /** The count is the overlap of [0, n) with the layer's interval of positions. */
  lemma {:induction false} LayerCountOverlap(n: nat, layer: nat)
    ensures var lo, hi := LayerStart(layer), LayerStart(layer) + MaxNodesInLayer(layer);
            LayerCount(n, layer) == if n <= lo then 0 else if n >= hi then hi - lo else n - lo
  {
    if n > 0 {
      LayerCountOverlap(n - 1, layer);
      RawLayerInterval(n - 1, layer);
    }
  }

  /** Every raw layer holds at most its capacity; every layer before the one of
      the last node holds exactly its capacity. */
  lemma LayerOccupancy(n: nat, layer: nat)
    requires n >= 1
    ensures LayerCount(n, layer) <= MaxNodesInLayer(layer)
    ensures layer < RawLayer(n - 1) ==> LayerCount(n, layer) == MaxNodesInLayer(layer)
  {
    LayerCountOverlap(n, layer);
    if layer < RawLayer(n - 1) {
      RawLayerInterval(n - 1, RawLayer(n - 1));
      LayerStartMonotone(layer + 1, RawLayer(n - 1));
    }
  }

  // ---------------------------------------------------------------------------
  // The layer map
  // ---------------------------------------------------------------------------

  /** The dictionary buildLayer fills during its first pass: each id maps to the
      raw layer of its (last) position. */
  function RawLayerMap(ids: seq<NodeId>): map<NodeId, int>
  {
    if ids == [] then map[]
    else RawLayerMap(ids[..|ids| - 1])[ids[|ids| - 1] := RawLayer(|ids| - 1)]
  }

  /** The final layer index after all nodes are placed. */
  function FinalLayerIndex(n: nat): nat
  {
    PackAfter(n).layerIndex
  }

  /** The dictionary buildLayer returns: the raw layers inverted against the
      final layer index. */
  function ConcentricLayers(ids: seq<NodeId>): map<NodeId, int>
  {
    var raw := RawLayerMap(ids);
    map id | id in raw :: FinalLayerIndex(|ids|) + 1 - raw[id]
  }

  /** position i is the last occurrence of its id */
  predicate LastOccurrence(ids: seq<NodeId>, i: nat)
    requires i < |ids|
  {
    forall j :: i < j < |ids| ==> ids[j] != ids[i]
  }

  /** Every id of the input, and nothing else, gets a raw layer. */
  lemma {:induction false} RawLayerMapKeys(ids: seq<NodeId>)
    ensures RawLayerMap(ids).Keys == set i | 0 <= i < |ids| :: ids[i]
  {
    if ids != [] {
      var n := |ids|;
      var pre := ids[..n - 1];
      RawLayerMapKeys(pre);
      assert (set i | 0 <= i < n :: ids[i]) == (set i | 0 <= i < n - 1 :: pre[i]) + {ids[n - 1]};
    }
  }

  /** An id's raw layer is that of its last position. */
  lemma {:induction false} RawLayerMapAt(ids: seq<NodeId>, i: nat)
    requires i < |ids| && LastOccurrence(ids, i)
    ensures ids[i] in RawLayerMap(ids) && RawLayerMap(ids)[ids[i]] == RawLayer(i)
  {
    var n := |ids|;
    if i < n - 1 {
      var pre := ids[..n - 1];
      assert pre[i] == ids[i];
      assert LastOccurrence(pre, i);
      RawLayerMapAt(pre, i);
    }
  }

  /** Raw layers lie between 0 and the raw layer of the last node. */
  lemma {:induction false} RawLayerMapRange(ids: seq<NodeId>)
    ensures forall id :: id in RawLayerMap(ids) ==> 0 <= RawLayerMap(ids)[id] <= RawLayer(|ids| - 1)
  {
    if |ids| >= 2 {
      var n := |ids|;
      RawLayerMapRange(ids[..n - 1]);
      RawLayerMonotone(n - 2, n - 1);
    }
  }

  /** The raw layer of the last node is the final index, or one below it when
      the last node filled its layer. */
  lemma FinalLayerIndexBounds(n: nat)
    requires n >= 1
    ensures RawLayer(n - 1) <= FinalLayerIndex(n) <= RawLayer(n - 1) + 1
  {
  }

  /** After inversion every id keeps its key and gets FinalLayerIndex + 1 - raw,
      a value in 1 .. FinalLayerIndex + 1; a first node whose id does not
      reappear gets the largest value, the centre of the concentric layout. */
  lemma ConcentricLayersProperties(ids: seq<NodeId>)
    ensures ConcentricLayers(ids).Keys == set i | 0 <= i < |ids| :: ids[i]
    ensures forall id :: id in ConcentricLayers(ids) ==>
              1 <= ConcentricLayers(ids)[id] <= FinalLayerIndex(|ids|) + 1
    ensures forall i :: 0 <= i < |ids| && LastOccurrence(ids, i) ==>
              ConcentricLayers(ids)[ids[i]] == FinalLayerIndex(|ids|) + 1 - RawLayer(i)
    ensures |ids| > 0 && LastOccurrence(ids, 0) ==>
              ConcentricLayers(ids)[ids[0]] == FinalLayerIndex(|ids|) + 1
    ensures |ids| > 0 && LastOccurrence(ids, 0) ==>
              forall id :: id in ConcentricLayers(ids) ==> ConcentricLayers(ids)[id] <= ConcentricLayers(ids)[ids[0]]
  {
    RawLayerMapKeys(ids);
    RawLayerMapRange(ids);
    forall i | 0 <= i < |ids| && LastOccurrence(ids, i)
      ensures ids[i] in RawLayerMap(ids) && RawLayerMap(ids)[ids[i]] == RawLayer(i)
    {
      RawLayerMapAt(ids, i);
    }
    if |ids| > 0 {
      FinalLayerIndexBounds(|ids|);
    }
  }

  function Min(a: int, b: int): int
  {
    if a <= b then a else b
  }

  /** The "balance the last two layers" expression as written:
      `remaining * (cur / cur + next)` is `remaining * (1 + next)`, which
      exceeds cur, so the minimum is always cur itself. */
  lemma ShrinkKeepsCapacity(remaining: int, cur: int, next: int)
    requires cur >= 1 && next >= 1 && remaining > cur
    ensures Min(remaining * (cur / cur + next), cur) == cur
  {
    assert cur / cur == 1;
    assert remaining * (1 + next) == remaining + remaining * next;
    assert remaining * next >= 0;
  }

  /** buildLayer: packs the ids greedily into layers and inverts the layer map in place. */
  method BuildLayer(ids: seq<NodeId>) returns (layer: map<NodeId, int>)
    ensures layer == ConcentricLayers(ids)
  {
    layer := map[];
    var nodesInLayer: nat := 0;
    var layerIndex: nat := 0;
    var counter: nat := 0;
    var remaining := |ids|;

    for i := 0 to |ids|
      invariant counter == i
      invariant Packing(layerIndex, nodesInLayer) == PackAfter(i)
      invariant layer == RawLayerMap(ids[..i])
    {
      assert ids[..i + 1][..i] == ids[..i];
      nodesInLayer := nodesInLayer + 1;
      counter := counter + 1;
      layer := layer[ids[i] := layerIndex];

      var maxNodesInCurrentLayer := MaxNodesInLayer(layerIndex);
      var maxNodesInNextLayer := MaxNodesInLayer(layerIndex + 1);

      if nodesInLayer == maxNodesInCurrentLayer {
        remaining := |ids| - counter;
        nodesInLayer := 0;
        layerIndex := layerIndex + 1;

        if remaining > maxNodesInCurrentLayer && remaining < maxNodesInCurrentLayer + maxNodesInNextLayer {
          ShrinkKeepsCapacity(remaining, maxNodesInCurrentLayer, maxNodesInNextLayer);
          maxNodesInCurrentLayer := Min(remaining * (maxNodesInCurrentLayer / maxNodesInCurrentLayer + maxNodesInNextLayer),
                                        maxNodesInCurrentLayer);
        }
      }
    }
    assert ids[..|ids|] == ids;

    // in-place inversion of every key
    ghost var raw := layer;
    var keys := layer.Keys;
    while keys != {}
      invariant keys <= raw.Keys
      invariant layer.Keys == raw.Keys
      invariant forall id :: id in raw && id !in keys ==> layer[id] == layerIndex + 1 - raw[id]
      invariant forall id :: id in keys ==> layer[id] == raw[id]
      decreases keys
    {
      var key :| key in keys;
      layer := layer[key := layerIndex + 1 - layer[key]];
      keys := keys - {key};
    }
  }
}
