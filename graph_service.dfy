/**
 * The graph service: the rendered graph's node and edge records, the style
 * sheet it appends to, and the concentric layers computed at start-up. Each
 * operation is proved against the value-level functions of GraphModel.
 */
module GraphService {
  import opened Common
  import opened GraphModel
  import Style
  import Layers

  /** The colour rules visualizeOne adds for the colour-by property: by its
      type; a boolean property only produces a diagnostic. */
  function ColouringRules(colorBy: Option<Style.Property>): seq<Style.Rule>
  {
    match colorBy
    case None => []
    case Some(p) =>
      match p.ptype
      case Continuous => Style.ContinuousRules(p.mapping)
      case Discrete => Style.DiscreteRules(p.mapping)
      case Boolean => []
  }

  /** How many rules each kind of colour-by property adds. */
  lemma ColouringRulesByType(colorBy: Option<Style.Property>)
    ensures colorBy.None? ==> ColouringRules(colorBy) == []
    ensures colorBy.Some? && colorBy.value.ptype == Style.Boolean ==> ColouringRules(colorBy) == []
    ensures colorBy.Some? && colorBy.value.ptype == Style.Continuous ==>
              |ColouringRules(colorBy)| == if |colorBy.value.mapping| == 0 then 0 else |colorBy.value.mapping| + 1
    ensures colorBy.Some? && colorBy.value.ptype == Style.Discrete ==>
              |ColouringRules(colorBy)| == 3 * |colorBy.value.mapping|
  {
    if colorBy.Some? {
      var m := colorBy.value.mapping;
      if colorBy.value.ptype == Style.Continuous {
        if |m| == 0 {
          Style.ContinuousRulesEmpty(m);
        } else {
          Style.ContinuousRulesShape(m);
        }
      } else if colorBy.value.ptype == Style.Discrete {
        Style.DiscreteRulesLayout(m, |m|);
      }
    }
  }

  /** The rules layoutPatient appends after the mtb rule: each clear adds the
      size reset; for one group, its colour rules follow. */
  function LayoutRules(a: seq<PatientItem>, b: seq<PatientItem>, colorBy: Option<Style.Property>): seq<Style.Rule>
  {
    if |a| > 0 && |b| > 0 then [Style.ResetSizeRule(), Style.ResetSizeRule()]
    else if |a| > 0 || |b| > 0 then [Style.ResetSizeRule()] + ColouringRules(colorBy)
    else [Style.ResetSizeRule()]
  }

  class GraphCore {
    var nodes: array<NodeData>
    var edges: array<EdgeData>
    var rules: seq<Style.Rule>
    var layers: map<NodeId, int>

    ghost predicate Valid()
      reads this, nodes, edges
    {
      UniqueIds(nodes[..]) && EdgesWithin(edges[..], nodes.Length)
    }

    /** initializeCore: load the nodes and edges, install the default style
        and the concentric layers, and mark every element shown. */
    constructor (ids: seq<NodeId>, links: seq<(nat, nat)>, properties: seq<Style.Property>, highlight: string)
      requires forall i, j :: 0 <= i < j < |ids| ==> ids[i] != ids[j]
      requires forall j :: 0 <= j < |links| ==> links[j].0 < |ids| && links[j].1 < |ids|
      ensures Valid()
      ensures fresh(nodes) && fresh(edges)
      ensures nodes[..] == seq(|ids|, i requires 0 <= i < |ids| => LoadedNode(ids[i]).(shown := true))
      ensures edges[..] == seq(|links|, j requires 0 <= j < |links| => EdgeData(links[j].0, links[j].1, true, false))
      ensures rules == Style.DefaultRules(highlight) + Style.BooleanRules(properties)
      ensures layers == Layers.ConcentricLayers(ids)
    {
      var style := Style.GetStyle(properties, highlight);
      var layer := Layers.BuildLayer(ids);
      var ns := new NodeData[|ids|](i requires 0 <= i < |ids| => LoadedNode(ids[i]));
      for k := 0 to ns.Length
        modifies ns
        invariant forall i :: 0 <= i < k ==> ns[i] == LoadedNode(ids[i]).(shown := true)
        invariant forall i :: k <= i < ns.Length ==> ns[i] == LoadedNode(ids[i])
      {
        ns[k] := ns[k].(shown := true);
      }
      var es := new EdgeData[|links|](j requires 0 <= j < |links| => EdgeData(links[j].0, links[j].1, false, false));
      for k := 0 to es.Length
        modifies es
        invariant forall j :: 0 <= j < k ==> es[j] == EdgeData(links[j].0, links[j].1, true, false)
        invariant forall j :: k <= j < es.Length ==> es[j] == EdgeData(links[j].0, links[j].1, false, false)
      {
        es[k] := es[k].(shown := true);
      }
      assert ns[..] == seq(|ids|, i requires 0 <= i < |ids| => LoadedNode(ids[i]).(shown := true));
      nodes := ns;
      edges := es;
      rules := style;
      layers := layer;
    }

    /** getElementById: the position of the node with the given id, or -1. */
    method IndexOf(id: NodeId) returns (k: int)
      ensures -1 <= k < nodes.Length
      ensures k >= 0 ==> nodes[k].id == id
      ensures k < 0 ==> forall i :: 0 <= i < nodes.Length ==> nodes[i].id != id
    {
      k := 0;
      while k < nodes.Length
        invariant 0 <= k <= nodes.Length
        invariant forall i :: 0 <= i < k ==> nodes[i].id != id
      {
        if nodes[k].id == id {
          return;
        }
        k := k + 1;
      }
      k := -1;
    }

    /** clear: strip every node's encoding and append the size reset rule. */
    method Clear()
      requires Valid()
      modifies nodes, this`rules
      ensures Valid()
      ensures nodes[..] == ClearAll(old(nodes[..]))
      ensures rules == old(rules) + [Style.ResetSizeRule()]
    {
      ghost var before := nodes[..];
      for k := 0 to nodes.Length
        modifies nodes
        invariant forall i :: 0 <= i < k ==> nodes[i] == Cleared(before[i])
        invariant forall i :: k <= i < nodes.Length ==> nodes[i] == before[i]
      {
        nodes[k] := Cleared(nodes[k]);
      }
      assert nodes[..] == ClearAll(before);
      SameIdsUnique(before, nodes[..]);
      rules := rules + [Style.ResetSizeRule()];
    }

    /** The item loop of visualizeOne and visualizeTwo. */
    method WriteItems(items: seq<PatientItem>, visible: seq<NodeId>, kind: Encoding)
      requires Valid()
      modifies nodes
      ensures Valid()
      ensures nodes[..] == ApplyItems(old(nodes[..]), items, visible, kind)
    {
      ghost var before := nodes[..];
      for i := 0 to |items|
        invariant Valid()
        invariant nodes[..] == ApplyItems(before, items[..i], visible, kind)
      {
        var item := items[i];
        assert items[..i + 1][..i] == items[..i];
        ghost var current := nodes[..];
        if item.id in visible {
          var k := IndexOf(item.id);
          if k >= 0 {
            ApplyItemAt(current, item, visible, kind, k);
            nodes[k] := Mark(kind, nodes[k], item);
            SameIdsUnique(current, nodes[..]);
          } else {
            ApplyItemAbsent(current, item, visible, kind);
          }
        }
      }
      assert items[..|items|] == items;
    }

    /** visualizeOne: clear, add the colour rules of the colour-by property,
        and write the single-group encoding of the items. */
    method VisualizeOne(items: seq<PatientItem>, colorBy: Option<Style.Property>, visible: seq<NodeId>)
      requires Valid()
      modifies nodes, this`rules
      ensures Valid()
      ensures nodes[..] == ApplyItems(ClearAll(old(nodes[..])), items, visible, Single)
      ensures rules == old(rules) + [Style.ResetSizeRule()] + ColouringRules(colorBy)
    {
      Clear();
      if colorBy.Some? {
        var p := colorBy.value;
        match p.ptype {
          case Continuous =>
            var added := Style.SetColorContinuous(p);
            rules := rules + added;
          case Discrete =>
            var added := Style.SetColorDiscrete(p);
            rules := rules + added;
          case Boolean =>
        }
      }
      WriteItems(items, visible, Single);
    }

    /** visualizeTwo: clear, then write group A's items as the A side and
        group B's as the B side of the split encoding. */
    method VisualizeTwo(a: seq<PatientItem>, b: seq<PatientItem>, visible: seq<NodeId>)
      requires Valid()
      modifies nodes, this`rules
      ensures Valid()
      ensures nodes[..] == ApplyItems(ApplyItems(ClearAll(old(nodes[..])), a, visible, SideA), b, visible, SideB)
      ensures rules == old(rules) + [Style.ResetSizeRule()]
    {
      Clear();
      WriteItems(a, visible, SideA);
      WriteItems(b, visible, SideB);
    }

    /** updateMtbNodes: append the mtb border rule. */
    method UpdateMtbNodes(showMtbResults: bool)
      modifies this`rules
      ensures rules == old(rules) + [Style.MtbRule(showMtbResults)]
    {
      rules := rules + [Style.MtbRule(showMtbResults)];
    }

    /** updateShownNodes: recompute every node's and edge's visibility from
        membership, the background rule and the exclusive split nodes. */
    method UpdateShownNodes(showAllNodes: bool, showOnlySharedNodes: bool, patientSelected: bool)
      requires Valid()
      modifies nodes, edges
      ensures Valid()
      ensures nodes[..] == ReconcileNodes(old(nodes[..]), showAllNodes, showOnlySharedNodes, patientSelected)
      ensures edges[..] == ReconcileEdges(old(nodes[..]), old(edges[..]), showAllNodes, showOnlySharedNodes, patientSelected)
    {
      PassesReconcile(nodes[..], edges[..], showAllNodes, showOnlySharedNodes, patientSelected);
      var background := Background(showAllNodes, patientSelected);
      ShowNodesByMembership(background);
      ShowMemberEdges();
      ShowNonMemberEdges(background);
      HideExclusiveNodes(showOnlySharedNodes);
      HideExclusiveEdges(showOnlySharedNodes);
    }

    method ShowNodesByMembership(background: bool)
      requires Valid()
      modifies nodes
      ensures Valid()
      ensures nodes[..] == MembershipPass(old(nodes[..]), background)
    {
      ghost var ns0 := nodes[..];
      for k := 0 to nodes.Length
        modifies nodes
        invariant forall i :: 0 <= i < k ==> nodes[i] == ns0[i].(shown := if ns0[i].member then true else background)
        invariant forall i :: k <= i < nodes.Length ==> nodes[i] == ns0[i]
      {
        nodes[k] := nodes[k].(shown := if nodes[k].member then true else background);
      }
      assert nodes[..] == MembershipPass(ns0, background);
      SameIdsUnique(ns0, nodes[..]);
    }

    method ShowMemberEdges()
      requires Valid()
      modifies edges
      ensures Valid()
      ensures edges[..] == MemberEdgesPass(nodes[..], old(edges[..]))
    {
      ghost var ns := nodes[..];
      ghost var es0 := edges[..];
      for j := 0 to edges.Length
        modifies edges
        invariant forall i :: 0 <= i < j ==>
                    edges[i] == es0[i].(shown := if ns[es0[i].source].member || ns[es0[i].target].member then true
                                                 else es0[i].shown)
        invariant forall i :: j <= i < edges.Length ==> edges[i] == es0[i]
      {
        if nodes[edges[j].source].member || nodes[edges[j].target].member {
          edges[j] := edges[j].(shown := true);
        }
      }
      assert edges[..] == MemberEdgesPass(ns, es0);
    }

    method ShowNonMemberEdges(background: bool)
      requires Valid()
      modifies edges
      ensures Valid()
      ensures edges[..] == NonMemberEdgesPass(nodes[..], old(edges[..]), background)
    {
      ghost var ns := nodes[..];
      ghost var es0 := edges[..];
      for j := 0 to edges.Length
        modifies edges
        invariant forall i :: 0 <= i < j ==>
                    edges[i] == es0[i].(shown := if !ns[es0[i].source].member || !ns[es0[i].target].member then background
                                                 else es0[i].shown)
        invariant forall i :: j <= i < edges.Length ==> edges[i] == es0[i]
      {
        if !nodes[edges[j].source].member || !nodes[edges[j].target].member {
          edges[j] := edges[j].(shown := background);
        }
      }
      assert edges[..] == NonMemberEdgesPass(ns, es0, background);
    }

    method HideExclusiveNodes(showOnlySharedNodes: bool)
      requires Valid()
      modifies nodes
      ensures Valid()
      ensures nodes[..] == ExclusiveNodesPass(old(nodes[..]), showOnlySharedNodes)
    {
      ghost var ns0 := nodes[..];
      for k := 0 to nodes.Length
        modifies nodes
        invariant forall i :: 0 <= i < k ==>
                    nodes[i] == ns0[i].(shown := if Exclusive(ns0[i]) then !showOnlySharedNodes else ns0[i].shown)
        invariant forall i :: k <= i < nodes.Length ==> nodes[i] == ns0[i]
      {
        var n := nodes[k];
        if n.split && ((n.colorA && !n.colorB) || (!n.colorA && n.colorB)) {
          nodes[k] := n.(shown := !showOnlySharedNodes);
        }
      }
      assert nodes[..] == ExclusiveNodesPass(ns0, showOnlySharedNodes);
      SameIdsUnique(ns0, nodes[..]);
    }

    method HideExclusiveEdges(showOnlySharedNodes: bool)
      requires Valid()
      modifies edges
      ensures Valid()
      ensures edges[..] == ExclusiveEdgesPass(nodes[..], old(edges[..]), showOnlySharedNodes)
    {
      ghost var ns := nodes[..];
      ghost var es0 := edges[..];
      for j := 0 to edges.Length
        modifies edges
        invariant forall i :: 0 <= i < j ==>
                    edges[i] == es0[i].(shown := if es0[i].shown && (Exclusive(ns[es0[i].source]) || Exclusive(ns[es0[i].target]))
                                                 then !showOnlySharedNodes else es0[i].shown)
        invariant forall i :: j <= i < edges.Length ==> edges[i] == es0[i]
      {
        var e := edges[j];
        if e.shown && (Exclusive(nodes[e.source]) || Exclusive(nodes[e.target])) {
          edges[j] := e.(shown := !showOnlySharedNodes);
        }
      }
      assert edges[..] == ExclusiveEdgesPass(ns, es0, showOnlySharedNodes);
    }

    /** Mark every node shown (the no-group branch of layoutPatient). */
    method ShowAllNodes()
      requires Valid()
      modifies nodes
      ensures Valid()
      ensures nodes[..] == ShowAll(old(nodes[..]))
    {
      ghost var before := nodes[..];
      for k := 0 to nodes.Length
        modifies nodes
        invariant forall i :: 0 <= i < k ==> nodes[i] == before[i].(shown := true)
        invariant forall i :: k <= i < nodes.Length ==> nodes[i] == before[i]
      {
        nodes[k] := nodes[k].(shown := true);
      }
      assert nodes[..] == ShowAll(before);
      SameIdsUnique(before, nodes[..]);
    }

    /** layoutPatient: the mtb rule, then the encoding for two groups, one
        group or none, then updateShownNodes with "a patient is selected"
        meaning at least one group is non-empty. */
    method LayoutPatient(a: seq<PatientItem>, b: seq<PatientItem>, visible: seq<NodeId>,
                         colorBy: Option<Style.Property>, showAllNodes: bool, showOnlySharedNodes: bool,
                         showMtbResults: bool)
      requires Valid()
      modifies nodes, edges, this`rules
      ensures Valid()
      ensures |Encoded(old(nodes[..]), a, b, visible)| == nodes.Length
      ensures nodes[..] == ReconcileNodes(Encoded(old(nodes[..]), a, b, visible),
                                          showAllNodes, showOnlySharedNodes, |a| > 0 || |b| > 0)
      ensures edges[..] == ReconcileEdges(Encoded(old(nodes[..]), a, b, visible), old(edges[..]),
                                          showAllNodes, showOnlySharedNodes, |a| > 0 || |b| > 0)
      ensures rules == old(rules) + [Style.MtbRule(showMtbResults)] + LayoutRules(a, b, colorBy)
    {
      UpdateMtbNodes(showMtbResults);
      if |a| > 0 && |b| > 0 {
        Clear();
        VisualizeTwo(a, b, visible);
      } else if |a| > 0 {
        VisualizeOne(a, colorBy, visible);
      } else if |b| > 0 {
        VisualizeOne(b, colorBy, visible);
      } else {
        Clear();
        ShowAllNodes();
      }
      var patientSelected := |a| > 0 || |b| > 0;
      UpdateShownNodes(showAllNodes, showOnlySharedNodes, patientSelected);
    }

    /** highlightNode: the highlight class on exactly the marked nodes and on
        every edge connected to one of them. */
    method HighlightNode(marked: seq<NodeId>)
      requires Valid()
      modifies nodes, edges
      ensures Valid()
      ensures nodes[..] == HighlightNodes(old(nodes[..]), marked)
      ensures edges[..] == HighlightEdges(old(nodes[..]), old(edges[..]), marked)
    {
      ghost var ns0 := nodes[..];
      ghost var es0 := edges[..];
      for k := 0 to nodes.Length
        modifies nodes
        invariant forall i :: 0 <= i < k ==> nodes[i] == ns0[i].(highlight := false)
        invariant forall i :: k <= i < nodes.Length ==> nodes[i] == ns0[i]
      {
        nodes[k] := nodes[k].(highlight := false);
      }
      for j := 0 to edges.Length
        modifies edges
        invariant nodes[..] == HighlightNodes(ns0, [])
        invariant forall i :: 0 <= i < j ==> edges[i] == es0[i].(highlight := false)
        invariant forall i :: j <= i < edges.Length ==> edges[i] == es0[i]
      {
        edges[j] := edges[j].(highlight := false);
      }
      for m := 0 to |marked|
        invariant nodes[..] == HighlightNodes(ns0, marked[..m])
        invariant edges[..] == HighlightEdges(ns0, es0, marked[..m])
      {
        HighlightStep(ns0, es0, marked, m);
      }
      assert marked[..|marked|] == marked;
    }

    /** The highlight class added to every edge connected to node position k. */
    method HighlightEdgesAt(k: nat)
      modifies edges
      ensures var es1 := old(edges[..]);
              edges[..] == seq(|es1|, i requires 0 <= i < |es1| =>
                                 es1[i].(highlight := es1[i].highlight || es1[i].source == k || es1[i].target == k))
    {
      ghost var es1 := edges[..];
      for j := 0 to edges.Length
        invariant forall i :: 0 <= i < j ==>
                    edges[i] == es1[i].(highlight := es1[i].highlight || es1[i].source == k || es1[i].target == k)
        invariant forall i :: j <= i < edges.Length ==> edges[i] == es1[i]
      {
        if edges[j].source == k || edges[j].target == k {
          edges[j] := edges[j].(highlight := true);
        }
      }
    }

    /** One marked id: its node and that node's connected edges. */
    method HighlightStep(ghost ns0: seq<NodeData>, ghost es0: seq<EdgeData>, marked: seq<NodeId>, m: nat)
      requires m < |marked|
      requires UniqueIds(ns0) && EdgesWithin(es0, |ns0|)
      requires nodes[..] == HighlightNodes(ns0, marked[..m])
      requires edges[..] == HighlightEdges(ns0, es0, marked[..m])
      modifies nodes, edges
      ensures nodes[..] == HighlightNodes(ns0, marked[..m + 1])
      ensures edges[..] == HighlightEdges(ns0, es0, marked[..m + 1])
    {
      var id := marked[m];
      assert marked[..m + 1] == marked[..m] + [id];
      var k := IndexOf(id);
      if k >= 0 {
        HighlightOneMore(ns0, es0, marked[..m], k);
        nodes[k] := nodes[k].(highlight := true);
        HighlightEdgesAt(k);
      } else {
        HighlightUnknownIdIgnored(ns0, es0, marked[..m], id);
      }
    }
  }
}
