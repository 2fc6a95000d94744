/**
 * The sidebar slice of the application state: the sidebar's own visibility
 * and one visibility per panel, and the reducer that replaces them.
 */
module SidebarReducer {

  /** A component visibility. The reducer names only `full` and `button`;
      every other value is carried by its tag. */
  datatype Visibility = Full | Button | OtherVisibility(tag: string)

  /** The eight panels of the sidebar. */
  datatype Panel = Import | Patients | Threshold | Nodes | Layout | Download | Generator | Impressum

  datatype SidebarState = SidebarState(
    visibility: Visibility,
    visibilityImport: Visibility,
    visibilityPatients: Visibility,
    visibilityThreshold: Visibility,
    visibilityNodes: Visibility,
    visibilityLayout: Visibility,
    visibilityDownload: Visibility,
    visibilityGenerator: Visibility,
    visibilityImpressum: Visibility)

  /** The nine values restored by hydration, under the payload's own names. */
  datatype HydratedVisibility = HydratedVisibility(
    visibility: Visibility,
    cmpImportVis: Visibility,
    cmpPatientsVis: Visibility,
    cmpThresholdVis: Visibility,
    cmpNodesVis: Visibility,
    cmpLayoutVis: Visibility,
    cmpDownloadVis: Visibility,
    cmpGeneratorVis: Visibility,
    cmpImpressumVis: Visibility)

  /** The actions the reducer handles; the eight per-panel toggles are told
      apart by their panel, and `Unhandled` stands for every other action. */
  datatype Action =
    | ToggleSidebarVisibility(visibility: Visibility)
    | TogglePanel(panel: Panel, panelVisibility: Visibility)
    | SetSidebarVisibility(newVisibility: Visibility)
    | HydrateSidebarVisibilitySuccess(payload: HydratedVisibility)
    | Unhandled

  function InitialState(): SidebarState
  {
    SidebarState(Full, Button, Button, Button, Button, Button, Button, Button, Button)
  }

  /** The field of a panel. */
  function PanelVisibility(s: SidebarState, p: Panel): Visibility
  {
    match p
    case Import => s.visibilityImport
    case Patients => s.visibilityPatients
    case Threshold => s.visibilityThreshold
    case Nodes => s.visibilityNodes
    case Layout => s.visibilityLayout
    case Download => s.visibilityDownload
    case Generator => s.visibilityGenerator
    case Impressum => s.visibilityImpressum
  }

  /** The state with the field of one panel replaced. */
  function WithPanel(s: SidebarState, p: Panel, v: Visibility): SidebarState
  {
    match p
    case Import => s.(visibilityImport := v)
    case Patients => s.(visibilityPatients := v)
    case Threshold => s.(visibilityThreshold := v)
    case Nodes => s.(visibilityNodes := v)
    case Layout => s.(visibilityLayout := v)
    case Download => s.(visibilityDownload := v)
    case Generator => s.(visibilityGenerator := v)
    case Impressum => s.(visibilityImpressum := v)
  }

  function Reduce(s: SidebarState, a: Action): (r: SidebarState)
    ensures a.TogglePanel? || a.Unhandled? ==> r.visibility == s.visibility
    ensures !a.HydrateSidebarVisibilitySuccess? ==>
              forall p: Panel :: (a.TogglePanel? && a.panel == p) || PanelVisibility(r, p) == PanelVisibility(s, p)
  {
    match a
    case ToggleSidebarVisibility(v) => s.(visibility := v)
    case TogglePanel(p, v) => WithPanel(s, p, v)
    case SetSidebarVisibility(v) => s.(visibility := v)
    case HydrateSidebarVisibilitySuccess(h) =>
      s.(visibility := h.visibility,
         visibilityImport := h.cmpImportVis,
         visibilityPatients := h.cmpPatientsVis,
         visibilityThreshold := h.cmpThresholdVis,
         visibilityNodes := h.cmpNodesVis,
         visibilityLayout := h.cmpLayoutVis,
         visibilityDownload := h.cmpDownloadVis,
         visibilityGenerator := h.cmpGeneratorVis,
         visibilityImpressum := h.cmpImpressumVis)
    case Unhandled => s
  }

  /** The payload field that hydration copies into a panel. */
  function HydratedPanel(h: HydratedVisibility, p: Panel): Visibility
  {
    match p
    case Import => h.cmpImportVis
    case Patients => h.cmpPatientsVis
    case Threshold => h.cmpThresholdVis
    case Nodes => h.cmpNodesVis
    case Layout => h.cmpLayoutVis
    case Download => h.cmpDownloadVis
    case Generator => h.cmpGeneratorVis
    case Impressum => h.cmpImpressumVis
  }

  /** The sidebar starts fully shown, with every panel collapsed to its button. */
  lemma InitialStateFields()
    ensures InitialState().visibility == Full
    ensures forall p: Panel :: PanelVisibility(InitialState(), p) == Button
  {
  }

  /** A panel toggle sets its own panel and changes nothing else. */
  lemma TogglePanelOnlyOwn(s: SidebarState, p: Panel, v: Visibility)
    ensures PanelVisibility(Reduce(s, TogglePanel(p, v)), p) == v
    ensures forall q: Panel :: q != p ==> PanelVisibility(Reduce(s, TogglePanel(p, v)), q) == PanelVisibility(s, q)
    ensures Reduce(s, TogglePanel(p, v)).visibility == s.visibility
  {
  }

  /** Two states with the same sidebar visibility and the same panels are equal. */
  lemma StateByFields(s: SidebarState, t: SidebarState)
    requires s.visibility == t.visibility
    requires forall p: Panel :: PanelVisibility(s, p) == PanelVisibility(t, p)
    ensures s == t
  {
    assert PanelVisibility(s, Import) == PanelVisibility(t, Import);
    assert PanelVisibility(s, Patients) == PanelVisibility(t, Patients);
    assert PanelVisibility(s, Threshold) == PanelVisibility(t, Threshold);
    assert PanelVisibility(s, Nodes) == PanelVisibility(t, Nodes);
    assert PanelVisibility(s, Layout) == PanelVisibility(t, Layout);
    assert PanelVisibility(s, Download) == PanelVisibility(t, Download);
    assert PanelVisibility(s, Generator) == PanelVisibility(t, Generator);
    assert PanelVisibility(s, Impressum) == PanelVisibility(t, Impressum);
  }

  /** Toggling and setting the sidebar visibility have the same effect: the
      sidebar visibility is replaced and every panel stays. */
  lemma ToggleLikeSet(s: SidebarState, v: Visibility)
    ensures Reduce(s, ToggleSidebarVisibility(v)) == Reduce(s, SetSidebarVisibility(v))
    ensures Reduce(s, SetSidebarVisibility(v)).visibility == v
    ensures forall p: Panel :: PanelVisibility(Reduce(s, SetSidebarVisibility(v)), p) == PanelVisibility(s, p)
  {
  }

  /** Hydration overwrites all nine fields from the payload, so its result
      does not depend on the state it starts from. */
  lemma HydrateOverwritesAll(s: SidebarState, t: SidebarState, h: HydratedVisibility)
    ensures Reduce(s, HydrateSidebarVisibilitySuccess(h)).visibility == h.visibility
    ensures forall p: Panel :: PanelVisibility(Reduce(s, HydrateSidebarVisibilitySuccess(h)), p) == HydratedPanel(h, p)
    ensures Reduce(s, HydrateSidebarVisibilitySuccess(h)) == Reduce(t, HydrateSidebarVisibilitySuccess(h))
  {
  }

  /** Applying an action a second time with the same payload changes nothing. */
  lemma ReduceIdempotent(s: SidebarState, a: Action)
    ensures Reduce(Reduce(s, a), a) == Reduce(s, a)
  {
    if a.TogglePanel? {
      var r := Reduce(s, a);
      TogglePanelOnlyOwn(s, a.panel, a.panelVisibility);
      TogglePanelOnlyOwn(r, a.panel, a.panelVisibility);
      StateByFields(Reduce(r, a), r);
    }
  }

  /** Toggling two different panels commutes. */
  lemma TogglesCommute(s: SidebarState, p: Panel, v: Visibility, q: Panel, w: Visibility)
    requires p != q
    ensures Reduce(Reduce(s, TogglePanel(p, v)), TogglePanel(q, w)) == Reduce(Reduce(s, TogglePanel(q, w)), TogglePanel(p, v))
  {
    var pq := Reduce(Reduce(s, TogglePanel(p, v)), TogglePanel(q, w));
    var qp := Reduce(Reduce(s, TogglePanel(q, w)), TogglePanel(p, v));
    TogglePanelOnlyOwn(s, p, v);
    TogglePanelOnlyOwn(s, q, w);
    TogglePanelOnlyOwn(Reduce(s, TogglePanel(p, v)), q, w);
    TogglePanelOnlyOwn(Reduce(s, TogglePanel(q, w)), p, v);
    StateByFields(pq, qp);
  }
}
