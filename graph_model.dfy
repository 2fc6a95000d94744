/**
 * The derived state the graph service keeps on the rendered graph, as values:
 * one record per node holding the data fields and style classes the service
 * writes, one record per edge, and the functions that say what each
 * operation of the service leaves in them.
 */
module GraphModel {

  type NodeId = string

  /** The derived state of one node. `color`, `colorA`, `colorB` and `size`
      record only whether the data field is present (holds a defined value);
      `split`, `mtb` and `highlight` are style classes. */
  datatype NodeData = NodeData(
    id: NodeId,
    member: bool,
    shown: bool,
    color: bool,
    colorA: bool,
    colorB: bool,
    size: bool,
    split: bool,
    mtb: bool,
    highlight: bool)

  /** An edge between the nodes at positions `source` and `target`. */
  datatype EdgeData = EdgeData(source: nat, target: nat, shown: bool, highlight: bool)

  /** One row of patient data: the node it refers to, its mtb flag, and whether
      it holds a defined value under the empty-string key, which is the key
      both the colour and the size field are read from. */
  datatype PatientItem = PatientItem(id: NodeId, mtb: bool, emptyKeyValue: bool)

  predicate UniqueIds(ns: seq<NodeData>)
  {
    forall i, j :: 0 <= i < j < |ns| ==> ns[i].id != ns[j].id
  }

  predicate EdgesWithin(es: seq<EdgeData>, n: nat)
  {
    forall j :: 0 <= j < |es| ==> es[j].source < n && es[j].target < n
  }

  /** Two node lists with the same ids, position by position. */
  predicate SameIds(a: seq<NodeData>, b: seq<NodeData>)
  {
    |a| == |b| && forall k :: 0 <= k < |a| ==> a[k].id == b[k].id
  }

  lemma SameIdsUnique(a: seq<NodeData>, b: seq<NodeData>)
    requires SameIds(a, b) && UniqueIds(a)
    ensures UniqueIds(b)
  {
  }

  /** A freshly loaded node: no derived field yet. */
  function LoadedNode(id: NodeId): NodeData
  {
    NodeData(id, false, false, false, false, false, false, false, false, false)
  }

  // ---------------------------------------------------------------------------
  // clear
  // ---------------------------------------------------------------------------

  /** clear on one node: drops member, the four value fields and the mtb and split classes. */
  function Cleared(n: NodeData): NodeData
  {
    n.(member := false, color := false, colorA := false, colorB := false, size := false, mtb := false, split := false)
  }

  function ClearAll(ns: seq<NodeData>): (r: seq<NodeData>)
    ensures SameIds(ns, r)
  {
    seq(|ns|, k requires 0 <= k < |ns| => Cleared(ns[k]))
  }

  /** After clear no node carries any encoding, while `shown` and `highlight`
      are untouched; a second clear changes nothing. */
  lemma ClearAllEffect(ns: seq<NodeData>)
    ensures |ClearAll(ns)| == |ns|
    ensures forall k :: 0 <= k < |ns| ==>
              var c := ClearAll(ns)[k];
              !c.member && !c.color && !c.colorA && !c.colorB && !c.size && !c.mtb && !c.split &&
              c.id == ns[k].id && c.shown == ns[k].shown && c.highlight == ns[k].highlight
    ensures ClearAll(ClearAll(ns)) == ClearAll(ns)
  {
  }

  // ---------------------------------------------------------------------------
  // Writing patient items (visualizeOne, visualizeTwo)
  // ---------------------------------------------------------------------------

  /** Which writes an item makes: single-group colour and size, or one side of the split encoding. */
  datatype Encoding = Single | SideA | SideB

  /** The writes one visible item makes on the node with its id. */
  function Mark(kind: Encoding, n: NodeData, item: PatientItem): (r: NodeData)
    ensures r.id == n.id && r.member && r.shown && r.highlight == n.highlight
    ensures r.mtb <==> n.mtb || item.mtb
    ensures r.split <==> n.split || kind != Single
  {
    var v := item.emptyKeyValue;
    var marked := n.(member := true, shown := true, mtb := n.mtb || item.mtb);
    match kind
    case Single => marked.(size := v, color := v)
    case SideA => marked.(split := true, colorA := v)
    case SideB => marked.(split := true, colorB := v)
  }

  /** One item: if its id is visible, mark the node with that id (if any). */
  function ApplyItem(ns: seq<NodeData>, item: PatientItem, visible: seq<NodeId>, kind: Encoding): (r: seq<NodeData>)
    ensures SameIds(ns, r)
  {
    if item.id in visible then
      seq(|ns|, k requires 0 <= k < |ns| => if ns[k].id == item.id then Mark(kind, ns[k], item) else ns[k])
    else ns
  }

  /** The items, in order. */
  function ApplyItems(ns: seq<NodeData>, items: seq<PatientItem>, visible: seq<NodeId>, kind: Encoding): (r: seq<NodeData>)
    ensures SameIds(ns, r)
    decreases |items|
  {
    if items == [] then ns
    else ApplyItem(ApplyItems(ns, items[..|items| - 1], visible, kind), items[|items| - 1], visible, kind)
  }

  /** With unique ids, an item touches exactly the node carrying its id. */
  lemma ApplyItemAt(ns: seq<NodeData>, item: PatientItem, visible: seq<NodeId>, kind: Encoding, k: nat)
    requires UniqueIds(ns) && k < |ns| && ns[k].id == item.id && item.id in visible
    ensures ApplyItem(ns, item, visible, kind) == ns[k := Mark(kind, ns[k], item)]
  {
  }

  /** An item whose id no node has is skipped. */
  lemma ApplyItemAbsent(ns: seq<NodeData>, item: PatientItem, visible: seq<NodeId>, kind: Encoding)
    requires forall k :: 0 <= k < |ns| ==> ns[k].id != item.id
    ensures ApplyItem(ns, item, visible, kind) == ns
  {
  }

  /** Some item carries the id, and the id is visible. */
  ghost predicate Carries(items: seq<PatientItem>, visible: seq<NodeId>, id: NodeId)
  {
    id in visible && exists j :: 0 <= j < |items| && items[j].id == id
  }

  /** Some item carrying the (visible) id has the mtb flag. */
  ghost predicate CarriesMtb(items: seq<PatientItem>, visible: seq<NodeId>, id: NodeId)
  {
    id in visible && exists j :: 0 <= j < |items| && items[j].id == id && items[j].mtb
  }

  /** The value the last item carrying the id writes, or `prior` when none does. */
  function LastValue(items: seq<PatientItem>, id: NodeId, prior: bool): bool
    decreases |items|
  {
    if items == [] then prior
    else if items[|items| - 1].id == id then items[|items| - 1].emptyKeyValue
    else LastValue(items[..|items| - 1], id, prior)
  }

  /** No item carries the id: the prior value stays. */
  lemma {:induction false} LastValueNoWrite(items: seq<PatientItem>, id: NodeId, prior: bool)
    requires forall j :: 0 <= j < |items| ==> items[j].id != id
    ensures LastValue(items, id, prior) == prior
    decreases |items|
  {
    if items != [] {
      var pre := items[..|items| - 1];
      assert forall j :: 0 <= j < |pre| ==> pre[j].id == items[j].id;
      LastValueNoWrite(pre, id, prior);
    }
  }

  /** Item j is the last one carrying the id: its value wins. */
  lemma {:induction false} LastValueLastWrite(items: seq<PatientItem>, id: NodeId, prior: bool, j: nat)
    requires j < |items| && items[j].id == id
    requires forall j' :: j < j' < |items| ==> items[j'].id != id
    ensures LastValue(items, id, prior) == items[j].emptyKeyValue
    decreases |items|
  {
    var n := |items|;
    if j < n - 1 {
      var pre := items[..n - 1];
      assert pre[j] == items[j];
      assert forall j' :: j < j' < |pre| ==> pre[j'].id == items[j'].id;
      LastValueLastWrite(pre, id, prior, j);
    }
  }

  /** When every item carries a defined value, the last write is `true`
      exactly when some item carries the id. */
  lemma LastValueAllDefined(items: seq<PatientItem>, id: NodeId)
    requires forall j :: 0 <= j < |items| ==> items[j].emptyKeyValue
    ensures LastValue(items, id, false) <==> exists j :: 0 <= j < |items| && items[j].id == id
    decreases |items|
  {
    if items != [] {
      var pre := items[..|items| - 1];
      LastValueAllDefined(pre, id);
      if exists j :: 0 <= j < |pre| && pre[j].id == id {
        var j :| 0 <= j < |pre| && pre[j].id == id;
        assert items[j].id == id;
      }
      if exists j :: 0 <= j < |items| && items[j].id == id {
        var j :| 0 <= j < |items| && items[j].id == id;
        if j < |items| - 1 {
          assert pre[j].id == id;
        }
      }
    }
  }

  /** One item, seen from node k. */
  lemma ApplyItemStep(s: seq<NodeData>, item: PatientItem, visible: seq<NodeId>, kind: Encoding, k: nat)
    requires k < |s|
    ensures |ApplyItem(s, item, visible, kind)| == |s|
    ensures ApplyItem(s, item, visible, kind)[k] ==
              if item.id in visible && s[k].id == item.id then Mark(kind, s[k], item) else s[k]
  {
  }

  lemma CarriesSnoc(items: seq<PatientItem>, visible: seq<NodeId>, id: NodeId)
    requires items != []
    ensures Carries(items, visible, id) <==>
              Carries(items[..|items| - 1], visible, id) || (id in visible && items[|items| - 1].id == id)
  {
    var pre := items[..|items| - 1];
    if Carries(pre, visible, id) {
      var j :| 0 <= j < |pre| && pre[j].id == id;
      assert items[j].id == id;
    }
    if Carries(items, visible, id) && items[|items| - 1].id != id {
      var j :| 0 <= j < |items| && items[j].id == id;
      assert pre[j].id == id;
    }
  }

  lemma CarriesMtbSnoc(items: seq<PatientItem>, visible: seq<NodeId>, id: NodeId)
    requires items != []
    ensures CarriesMtb(items, visible, id) <==>
              CarriesMtb(items[..|items| - 1], visible, id) ||
              (id in visible && items[|items| - 1].id == id && items[|items| - 1].mtb)
  {
    var pre := items[..|items| - 1];
    if CarriesMtb(pre, visible, id) {
      var j :| 0 <= j < |pre| && pre[j].id == id && pre[j].mtb;
      assert items[j].id == id && items[j].mtb;
    }
    if CarriesMtb(items, visible, id) && !(items[|items| - 1].id == id && items[|items| - 1].mtb) {
      var j :| 0 <= j < |items| && items[j].id == id && items[j].mtb;
      assert pre[j].id == id && pre[j].mtb;
    }
  }

  /** What a run of items leaves on one node: member, shown and mtb are added
      when some visible item carries its id; split too for the two-group
      sides; the encoding's value field holds the last write; nothing else changes. */
  predicate Effect(n: NodeData, r: NodeData, kind: Encoding, carried: bool, carriedMtb: bool,
                   vis: bool, last: bool -> bool)
  {
    && r.id == n.id && r.highlight == n.highlight
    && r.member == (n.member || carried)
    && r.shown == (n.shown || carried)
    && r.mtb == (n.mtb || carriedMtb)
    && r.split == (n.split || (kind != Single && carried))
    && r.color == (if kind == Single && vis then last(n.color) else n.color)
    && r.size == (if kind == Single && vis then last(n.size) else n.size)
    && r.colorA == (if kind == SideA && vis then last(n.colorA) else n.colorA)
    && r.colorB == (if kind == SideB && vis then last(n.colorB) else n.colorB)
  }

  lemma {:induction false} ApplyItemsEffect(ns: seq<NodeData>, items: seq<PatientItem>, visible: seq<NodeId>,
                                           kind: Encoding, k: nat)
    requires k < |ns|
    ensures |ApplyItems(ns, items, visible, kind)| == |ns|
    ensures Effect(ns[k], ApplyItems(ns, items, visible, kind)[k], kind,
                   Carries(items, visible, ns[k].id), CarriesMtb(items, visible, ns[k].id),
                   ns[k].id in visible, prior => LastValue(items, ns[k].id, prior))
    decreases |items|
  {
    if items != [] {
      var m := |items|;
      var pre := items[..m - 1];
      ApplyItemsEffect(ns, pre, visible, kind, k);
      ApplyItemStep(ApplyItems(ns, pre, visible, kind), items[m - 1], visible, kind, k);
      CarriesSnoc(items, visible, ns[k].id);
      CarriesMtbSnoc(items, visible, ns[k].id);
    }
  }
  // ---------------------------------------------------------------------------
  // updateShownNodes
  // ---------------------------------------------------------------------------

  /** Visibility of elements that no member node vouches for. */
  function Background(showAllNodes: bool, patientSelected: bool): bool
  {
    if patientSelected then showAllNodes else true
  }

  /** A split node with exactly one of the two group values: it belongs to one group only. */
  predicate Exclusive(n: NodeData)
  {
    n.split && n.colorA != n.colorB
  }

  /** The final visibility of a node, in the order of the overrides: exclusive
      split nodes follow "only shared"; other members are shown; the rest
      follow the background rule. */
  function NodeShown(n: NodeData, showAllNodes: bool, showOnlySharedNodes: bool, patientSelected: bool): bool
  {
    if Exclusive(n) then !showOnlySharedNodes
    else if n.member then true
    else Background(showAllNodes, patientSelected)
  }

  /** The final visibility of an edge: shown when both endpoints are members,
      else by the background rule; an edge touching an exclusive node is
      then hidden when only shared nodes are shown. */
  function EdgeShown(ns: seq<NodeData>, e: EdgeData, showAllNodes: bool, showOnlySharedNodes: bool,
                     patientSelected: bool): bool
    requires e.source < |ns| && e.target < |ns|
  {
    var s, t := ns[e.source], ns[e.target];
    var base := if s.member && t.member then true else Background(showAllNodes, patientSelected);
    base && !((Exclusive(s) || Exclusive(t)) && showOnlySharedNodes)
  }

  function ReconcileNodes(ns: seq<NodeData>, showAllNodes: bool, showOnlySharedNodes: bool,
                          patientSelected: bool): (r: seq<NodeData>)
    ensures SameIds(ns, r)
  {
    seq(|ns|, k requires 0 <= k < |ns| =>
          ns[k].(shown := NodeShown(ns[k], showAllNodes, showOnlySharedNodes, patientSelected)))
  }

  function ReconcileEdges(ns: seq<NodeData>, es: seq<EdgeData>, showAllNodes: bool, showOnlySharedNodes: bool,
                          patientSelected: bool): (r: seq<EdgeData>)
    requires EdgesWithin(es, |ns|)
    ensures SameEnds(es, r)
  {
    seq(|es|, j requires 0 <= j < |es| =>
          es[j].(shown := EdgeShown(ns, es[j], showAllNodes, showOnlySharedNodes, patientSelected)))
  }

  /** Two edge lists with the same endpoints, position by position. */
  predicate SameEnds(a: seq<EdgeData>, b: seq<EdgeData>)
  {
    |a| == |b| && forall j :: 0 <= j < |a| ==> a[j].source == b[j].source && a[j].target == b[j].target
  }

  // The passes of updateShownNodes, in order.

  /** node[member] is shown; node[!member] follows the background rule. */
  function MembershipPass(ns: seq<NodeData>, background: bool): (r: seq<NodeData>)
    ensures SameIds(ns, r)
  {
    seq(|ns|, k requires 0 <= k < |ns| => ns[k].(shown := if ns[k].member then true else background))
  }

  /** Edges connected to a member node are shown. */
  function MemberEdgesPass(ns: seq<NodeData>, es: seq<EdgeData>): (r: seq<EdgeData>)
    requires EdgesWithin(es, |ns|)
    ensures SameEnds(es, r)
  {
    seq(|es|, j requires 0 <= j < |es| =>
          es[j].(shown := if ns[es[j].source].member || ns[es[j].target].member then true else es[j].shown))
  }

  /** Edges connected to a non-member node follow the background rule. */
  function NonMemberEdgesPass(ns: seq<NodeData>, es: seq<EdgeData>, background: bool): (r: seq<EdgeData>)
    requires EdgesWithin(es, |ns|)
    ensures SameEnds(es, r)
  {
    seq(|es|, j requires 0 <= j < |es| =>
          es[j].(shown := if !ns[es[j].source].member || !ns[es[j].target].member then background else es[j].shown))
  }

  /** node.split[colorA][^colorB] and node.split[^colorA][colorB] follow "only shared nodes". */
  function ExclusiveNodesPass(ns: seq<NodeData>, showOnlySharedNodes: bool): (r: seq<NodeData>)
    ensures SameIds(ns, r)
  {
    seq(|ns|, k requires 0 <= k < |ns| =>
          ns[k].(shown := if Exclusive(ns[k]) then !showOnlySharedNodes else ns[k].shown))
  }

  /** Shown edges connected to an exclusive split node follow "only shared nodes". */
  function ExclusiveEdgesPass(ns: seq<NodeData>, es: seq<EdgeData>, showOnlySharedNodes: bool): (r: seq<EdgeData>)
    requires EdgesWithin(es, |ns|)
    ensures SameEnds(es, r)
  {
    seq(|es|, j requires 0 <= j < |es| =>
          es[j].(shown := if es[j].shown && (Exclusive(ns[es[j].source]) || Exclusive(ns[es[j].target]))
                          then !showOnlySharedNodes else es[j].shown))
  }

  /** The passes of updateShownNodes, run in the source's order, compute the
      reference visibility rules NodeShown and EdgeShown. */
  lemma PassesReconcile(ns: seq<NodeData>, es: seq<EdgeData>, showAll: bool, showShared: bool, selected: bool)
    requires EdgesWithin(es, |ns|)
    ensures var bg := Background(showAll, selected);
            var ns1 := MembershipPass(ns, bg);
            var es2 := NonMemberEdgesPass(ns1, MemberEdgesPass(ns1, es), bg);
            var ns2 := ExclusiveNodesPass(ns1, showShared);
            ExclusiveNodesPass(ns1, showShared) == ReconcileNodes(ns, showAll, showShared, selected) &&
            ExclusiveEdgesPass(ns2, es2, showShared) == ReconcileEdges(ns, es, showAll, showShared, selected)
  {
    var bg := Background(showAll, selected);
    var ns1 := MembershipPass(ns, bg);
    var es1 := MemberEdgesPass(ns1, es);
    var es2 := NonMemberEdgesPass(ns1, es1, bg);
    var ns2 := ExclusiveNodesPass(ns1, showShared);
    assert forall k :: 0 <= k < |ns| ==> ns1[k].member == ns[k].member && Exclusive(ns1[k]) == Exclusive(ns[k]);
    assert forall k :: 0 <= k < |ns| ==> Exclusive(ns2[k]) == Exclusive(ns[k]);
    forall j | 0 <= j < |es|
      ensures ExclusiveEdgesPass(ns2, es2, showShared)[j] == ReconcileEdges(ns, es, showAll, showShared, selected)[j]
    {
      assert es2[j] == es[j].(shown := if ns[es[j].source].member && ns[es[j].target].member then true else bg);
    }
  }

  /** Two node lists that agree on everything but `shown`. */
  predicate SameButShown(a: seq<NodeData>, b: seq<NodeData>)
  {
    |a| == |b| && forall k :: 0 <= k < |a| ==> a[k].(shown := false) == b[k].(shown := false)
  }

  /** The result does not depend on the visibility flags it overwrites, so
      reconciling twice gives the same flags as reconciling once. */
  lemma ReconcileIgnoresPriorShown(a: seq<NodeData>, b: seq<NodeData>, ea: seq<EdgeData>, eb: seq<EdgeData>,
                                   showAll: bool, showShared: bool, selected: bool)
    requires SameButShown(a, b)
    requires |ea| == |eb| && forall j :: 0 <= j < |ea| ==> ea[j].(shown := false) == eb[j].(shown := false)
    requires EdgesWithin(ea, |a|)
    ensures EdgesWithin(eb, |b|)
    ensures ReconcileNodes(a, showAll, showShared, selected) == ReconcileNodes(b, showAll, showShared, selected)
    ensures ReconcileEdges(a, ea, showAll, showShared, selected) == ReconcileEdges(b, eb, showAll, showShared, selected)
  {
    assert forall j :: 0 <= j < |ea| ==> ea[j].source == eb[j].source && ea[j].target == eb[j].target;
    assert forall k :: 0 <= k < |a| ==>
      a[k].member == b[k].member && Exclusive(a[k]) == Exclusive(b[k]) && a[k].(shown := false) == b[k].(shown := false);
    var ra := ReconcileNodes(a, showAll, showShared, selected);
    var rb := ReconcileNodes(b, showAll, showShared, selected);
    forall k | 0 <= k < |a| ensures ra[k] == rb[k] {
      assert a[k].(shown := false) == b[k].(shown := false);
    }
  }

  /** updateShownNodes is idempotent. */
  lemma ReconcileIdempotent(ns: seq<NodeData>, es: seq<EdgeData>, showAll: bool, showShared: bool, selected: bool)
    requires EdgesWithin(es, |ns|)
    ensures var ns', es' := ReconcileNodes(ns, showAll, showShared, selected), ReconcileEdges(ns, es, showAll, showShared, selected);
            EdgesWithin(es', |ns'|) &&
            ReconcileNodes(ns', showAll, showShared, selected) == ns' &&
            ReconcileEdges(ns', es', showAll, showShared, selected) == es'
  {
    var ns' := ReconcileNodes(ns, showAll, showShared, selected);
    var es' := ReconcileEdges(ns, es, showAll, showShared, selected);
    ReconcileIgnoresPriorShown(ns, ns', es, es', showAll, showShared, selected);
    assert ReconcileNodes(ns', showAll, showShared, selected) == ns' by {
      forall k | 0 <= k < |ns| ensures ReconcileNodes(ns', showAll, showShared, selected)[k] == ns'[k] {
      }
    }
    assert ReconcileEdges(ns', es', showAll, showShared, selected) == es' by {
      forall j | 0 <= j < |es| ensures ReconcileEdges(ns', es', showAll, showShared, selected)[j] == es'[j] {
        assert ns'[es[j].source].(shown := false) == ns[es[j].source].(shown := false);
        assert ns'[es[j].target].(shown := false) == ns[es[j].target].(shown := false);
      }
    }
  }

  /** When only shared nodes are shown, an exclusive node is hidden, and so is
      every edge touching one; an edge between two non-exclusive members is shown. */
  lemma OnlySharedHidesExclusive(ns: seq<NodeData>, es: seq<EdgeData>, showAll: bool, selected: bool)
    requires EdgesWithin(es, |ns|)
    ensures forall k :: 0 <= k < |ns| && Exclusive(ns[k]) ==>
              !ReconcileNodes(ns, showAll, true, selected)[k].shown
    ensures forall j :: 0 <= j < |es| && (Exclusive(ns[es[j].source]) || Exclusive(ns[es[j].target])) ==>
              !ReconcileEdges(ns, es, showAll, true, selected)[j].shown
    ensures forall j :: (0 <= j < |es| && ns[es[j].source].member && ns[es[j].target].member &&
                         !Exclusive(ns[es[j].source]) && !Exclusive(ns[es[j].target])) ==>
              ReconcileEdges(ns, es, showAll, true, selected)[j].shown
  {
  }

  /** No edge is shown unless its endpoints' rule would show it: an edge whose
      endpoints are both hidden background nodes stays hidden. */
  lemma EdgeNeedsVisibleBase(ns: seq<NodeData>, es: seq<EdgeData>, showAll: bool, showShared: bool, selected: bool)
    requires EdgesWithin(es, |ns|)
    ensures forall j :: 0 <= j < |es| && ReconcileEdges(ns, es, showAll, showShared, selected)[j].shown ==>
              (ns[es[j].source].member && ns[es[j].target].member) || Background(showAll, selected)
  {
  }

  // ---------------------------------------------------------------------------
  // layoutPatient
  // ---------------------------------------------------------------------------

  /** Every node shown. */
  function ShowAll(ns: seq<NodeData>): (r: seq<NodeData>)
    ensures SameIds(ns, r)
  {
    seq(|ns|, k requires 0 <= k < |ns| => ns[k].(shown := true))
  }

  /** The node state layoutPatient hands to updateShownNodes: two groups are
      cleared (twice) and written as the split encoding; one group is written
      with the single-group encoding; with no group the graph is cleared and
      every node shown. */
  function Encoded(ns: seq<NodeData>, a: seq<PatientItem>, b: seq<PatientItem>, visible: seq<NodeId>): (r: seq<NodeData>)
    ensures SameIds(ns, r)
  {
    if |a| > 0 && |b| > 0 then ApplyItems(ApplyItems(ClearAll(ClearAll(ns)), a, visible, SideA), b, visible, SideB)
    else if |a| > 0 then ApplyItems(ClearAll(ns), a, visible, Single)
    else if |b| > 0 then ApplyItems(ClearAll(ns), b, visible, Single)
    else ShowAll(ClearAll(ns))
  }

  /** Two groups: no single-group field survives; a node is a split member
      exactly when a visible item of either group carries it, and each side
      holds its group's last write. */
  lemma EncodedTwoGroups(ns: seq<NodeData>, a: seq<PatientItem>, b: seq<PatientItem>, visible: seq<NodeId>, k: nat)
    requires |a| > 0 && |b| > 0 && k < |ns|
    ensures |Encoded(ns, a, b, visible)| == |ns|
    ensures var r, id := Encoded(ns, a, b, visible)[k], ns[k].id;
            && !r.color && !r.size
            && r.member == (Carries(a, visible, id) || Carries(b, visible, id))
            && r.split == r.member
            && r.shown == (ns[k].shown || r.member)
            && r.colorA == (id in visible && LastValue(a, id, false))
            && r.colorB == (id in visible && LastValue(b, id, false))
            && r.mtb == (CarriesMtb(a, visible, id) || CarriesMtb(b, visible, id))
            && r.highlight == ns[k].highlight
  {
    var c := ClearAll(ClearAll(ns));
    ClearAllEffect(ns);
    ClearAllEffect(ClearAll(ns));
    ApplyItemsEffect(c, a, visible, SideA, k);
    ApplyItemsEffect(ApplyItems(c, a, visible, SideA), b, visible, SideB, k);
  }

  /** One group: no split field survives, and colour and size hold the
      group's last write. */
  lemma EncodedOneGroup(ns: seq<NodeData>, a: seq<PatientItem>, b: seq<PatientItem>, visible: seq<NodeId>, k: nat)
    requires (|a| > 0) != (|b| > 0) && k < |ns|
    ensures |Encoded(ns, a, b, visible)| == |ns|
    ensures var r, id, ds := Encoded(ns, a, b, visible)[k], ns[k].id, if |a| > 0 then a else b;
            && !r.split && !r.colorA && !r.colorB
            && r.member == Carries(ds, visible, id)
            && r.shown == (ns[k].shown || r.member)
            && r.color == (id in visible && LastValue(ds, id, false))
            && r.size == r.color
            && r.mtb == CarriesMtb(ds, visible, id)
            && r.highlight == ns[k].highlight
  {
    ClearAllEffect(ns);
    ApplyItemsEffect(ClearAll(ns), if |a| > 0 then a else b, visible, Single, k);
  }

  /** Two groups: a node is exclusive to one group exactly when its two
      sides' last writes differ. */
  lemma ExclusiveTwoGroups(ns: seq<NodeData>, a: seq<PatientItem>, b: seq<PatientItem>, visible: seq<NodeId>, k: nat)
    requires |a| > 0 && |b| > 0 && k < |ns|
    ensures |Encoded(ns, a, b, visible)| == |ns|
    ensures Exclusive(Encoded(ns, a, b, visible)[k]) <==>
              ns[k].id in visible && LastValue(a, ns[k].id, false) != LastValue(b, ns[k].id, false)
  {
    var id := ns[k].id;
    EncodedTwoGroups(ns, a, b, visible, k);
    if id in visible && LastValue(a, id, false) {
      assert Carries(a, visible, id) by {
        if forall j :: 0 <= j < |a| ==> a[j].id != id {
          LastValueNoWrite(a, id, false);
        }
      }
    }
    if id in visible && LastValue(b, id, false) {
      assert Carries(b, visible, id) by {
        if forall j :: 0 <= j < |b| ==> b[j].id != id {
          LastValueNoWrite(b, id, false);
        }
      }
    }
  }

  /** With one group or none, "only shared nodes" changes nothing: no node is split. */
  lemma SharedOnlyNeedsTwoGroups(ns: seq<NodeData>, es: seq<EdgeData>, a: seq<PatientItem>, b: seq<PatientItem>,
                                 visible: seq<NodeId>, showAll: bool, selected: bool)
    requires !(|a| > 0 && |b| > 0)
    requires EdgesWithin(es, |ns|)
    ensures var e := Encoded(ns, a, b, visible);
            |e| == |ns| &&
            ReconcileNodes(e, showAll, true, selected) == ReconcileNodes(e, showAll, false, selected) &&
            ReconcileEdges(e, es, showAll, true, selected) == ReconcileEdges(e, es, showAll, false, selected)
  {
    var e := Encoded(ns, a, b, visible);
    forall k | 0 <= k < |ns| ensures !Exclusive(e[k]) {
      if |a| > 0 || |b| > 0 {
        EncodedOneGroup(ns, a, b, visible, k);
      }
    }
  }

  /** No group: every node and every edge ends up shown. */
  lemma LayoutNoGroupShowsAll(ns: seq<NodeData>, es: seq<EdgeData>, visible: seq<NodeId>, showAll: bool, showShared: bool)
    requires EdgesWithin(es, |ns|)
    ensures var e := Encoded(ns, [], [], visible);
            |e| == |ns| &&
            (forall k :: 0 <= k < |ns| ==> ReconcileNodes(e, showAll, showShared, false)[k].shown) &&
            (forall j :: 0 <= j < |es| ==> ReconcileEdges(e, es, showAll, showShared, false)[j].shown)
  {
  }

  /** Two groups with showAllNodes and showOnlySharedNodes both off: exactly
      the nodes some visible item of either group carries are shown. */
  lemma LayoutTwoGroupsShowsMembers(ns: seq<NodeData>, a: seq<PatientItem>, b: seq<PatientItem>, visible: seq<NodeId>, k: nat)
    requires |a| > 0 && |b| > 0 && k < |ns|
    ensures |Encoded(ns, a, b, visible)| == |ns|
    ensures ReconcileNodes(Encoded(ns, a, b, visible), false, false, true)[k].shown <==>
              Carries(a, visible, ns[k].id) || Carries(b, visible, ns[k].id)
  {
    EncodedTwoGroups(ns, a, b, visible, k);
  }

  // ---------------------------------------------------------------------------
  // highlightNode
  // ---------------------------------------------------------------------------

  function HighlightNodes(ns: seq<NodeData>, marked: seq<NodeId>): (r: seq<NodeData>)
    ensures SameIds(ns, r)
  {
    seq(|ns|, k requires 0 <= k < |ns| => ns[k].(highlight := ns[k].id in marked))
  }

  function HighlightEdges(ns: seq<NodeData>, es: seq<EdgeData>, marked: seq<NodeId>): (r: seq<EdgeData>)
    requires EdgesWithin(es, |ns|)
    ensures SameEnds(es, r)
  {
    seq(|es|, j requires 0 <= j < |es| =>
          es[j].(highlight := ns[es[j].source].id in marked || ns[es[j].target].id in marked))
  }

  /** Marking one more id that node k carries: node k gains the highlight
      class, and so do the edges connected to it. */
  lemma HighlightOneMore(ns: seq<NodeData>, es: seq<EdgeData>, marked: seq<NodeId>, k: nat)
    requires UniqueIds(ns) && EdgesWithin(es, |ns|) && k < |ns|
    ensures HighlightNodes(ns, marked + [ns[k].id]) == HighlightNodes(ns, marked)[k := ns[k].(highlight := true)]
    ensures var h := HighlightEdges(ns, es, marked);
            HighlightEdges(ns, es, marked + [ns[k].id]) ==
            seq(|es|, j requires 0 <= j < |es| =>
                  h[j].(highlight := h[j].highlight || es[j].source == k || es[j].target == k))
  {
    assert forall x :: x in marked + [ns[k].id] <==> x in marked || x == ns[k].id;
  }

  /** Marking an id that no node has changes nothing; the result depends only
      on which node ids are marked, not on order or repetition. */
  lemma HighlightUnknownIdIgnored(ns: seq<NodeData>, es: seq<EdgeData>, marked: seq<NodeId>, id: NodeId)
    requires EdgesWithin(es, |ns|)
    requires forall k :: 0 <= k < |ns| ==> ns[k].id != id
    ensures HighlightNodes(ns, marked + [id]) == HighlightNodes(ns, marked)
    ensures HighlightEdges(ns, es, marked + [id]) == HighlightEdges(ns, es, marked)
  {
    assert forall x :: x in marked + [id] <==> x in marked || x == id;
  }

  /** Highlighting touches nothing but the highlight class, a second call
      with the same list changes nothing, and an empty list clears the
      highlight of every node and every edge. */
  lemma HighlightOnlyHighlight(ns: seq<NodeData>, es: seq<EdgeData>, marked: seq<NodeId>)
    requires EdgesWithin(es, |ns|)
    ensures forall k :: 0 <= k < |ns| ==> HighlightNodes(ns, marked)[k].(highlight := false) == ns[k].(highlight := false)
    ensures forall j :: 0 <= j < |es| ==> HighlightEdges(ns, es, marked)[j].(highlight := false) == es[j].(highlight := false)
    ensures HighlightNodes(HighlightNodes(ns, marked), marked) == HighlightNodes(ns, marked)
    ensures HighlightEdges(HighlightNodes(ns, marked), HighlightEdges(ns, es, marked), marked) == HighlightEdges(ns, es, marked)
    ensures marked == [] ==> forall k :: 0 <= k < |ns| ==> !HighlightNodes(ns, marked)[k].highlight
    ensures marked == [] ==> forall j :: 0 <= j < |es| ==> !HighlightEdges(ns, es, marked)[j].highlight
  {
  }
}
