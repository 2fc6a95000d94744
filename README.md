# MetaRelSubNetVis graph engine, in Dafny

This project models the core of the MetaRelSubNetVis network viewer. The model has five parts:

- **The graph service** (`graph.service.ts`). It assigns concentric layers to the nodes. It builds the style rules for properties and colour mappings. It writes the patient encoding onto nodes (`member`, `shown`, `color`, `colorA`, `colorB`, `size`, and the `split` and `mtb` classes). It reconciles node and edge visibility, highlights selected nodes, and names and dispatches image exports.
- **The threshold effect** (`threshold.effects.ts`). It decides which threshold actions to emit when the patient group selection is set.
- **The threshold reducer** (`threshold.reducer.ts`).
- **The sidebar reducer** (`sidebar.reducer.ts`).
- **Decimal text of integers** (`number_text.dfy`), standing in for `Number.prototype.toString`.

The files:

- `common.dfy`: `Option` and the patient selection (`NoGroup`, `GroupA`, `GroupB`, `Both`).
- `layers.dfy`: layer capacity (`getMaxNodesInLayer`, with an integer floor of log base 8) and the packing counters as a reference function. `BuildLayer` is the counter loop plus the in-place inversion loop over the layer map.
- `style.dfy`: style rules as values (selector, declarations). It has the default style and boolean rules of `getStyle`, the range rules of `setColorContinuous` and the per-category rules of `setColorDiscrete`. Each is a loop method proved equal to a reference function, with lemmas about which rule a value matches.
- `graph_model.dfy`: the derived node and edge state as values. It holds the reference functions for clear, item writing, the passes of `updateShownNodes`, the `layoutPatient` encoding and highlighting, and the lemmas about them.
- `graph_service.dfy`: class `GraphCore`. Its fields are a node array, an edge array (endpoints as node positions), the style sheet (`rules`) and the layer map. Each service operation is a method that updates the arrays in place over ordered passes. Each is proved against the functions of `graph_model.dfy`.
- `export.dfy`: the download file name, the render request, and the SVG text wrapping.
- `number_text.dfy`: `IntToString` and its inverse `ParseInt`.
- `threshold_reducer.dfy`, `threshold_effects.dfy`, `sidebar_reducer.dfy`: the threshold state, the threshold decision and the sidebar state, as functions over records.

## Behaviour of the code worth noting

- Layer capacity from layer 3 on is `8·(L−1) − 4·⌊log8 L⌋`, so capacity(3) = 8·2 − 4·0 = 16 and capacity(8) = 8·7 − 4·1 = 52 (`Layers.CapacityValues`).
- The "balance the last two layers" branch has no effect. Its expression `remaining * (cur / cur + next)` is `remaining * (1 + next)`, so the `Math.min` returns `cur`, and the variable it assigns is re-read from `getMaxNodesInLayer` on the next step. Packing is greedy by capacity (`Layers.ShrinkKeepsCapacity`, `Layers.BuildLayer`).
- The last continuous rule uses a strict `color > k[n-1]`: a value equal to the last key matches no rule (`Style.ContinuousLastKeyUnmatched`).
- Every edge connected to a marked node is highlighted (`GraphModel.HighlightEdges`).
- The threshold reducer has no handler for `setLabelMin`. After the threshold effect runs, `labelMin` is the text of the defined value, and the `"-"` placeholder emitted by the effect never reaches the state (`ThresholdEffects.EffectThenReducer`).

## Model

| member | source | states |
|---|---|---|
| Layers.PackAfter | src/app/core/service/graph.service.ts:58-84 | the layer index and the count of nodes in the current layer after the first k nodes of the buildLayer loop; a full layer opens the next one (defines the raw layers, see the lemmas below) |
| Layers.ConcentricLayers | src/app/core/service/graph.service.ts:50-91 | the map buildLayer returns: each id of the input maps to layerIndex + 1 minus its raw layer |
| Layers.MaxNodesInLayer | src/app/core/service/graph.service.ts:97-108 | capacity is at least 1 for every layer, and at least 4·(L−1) from layer 3 on, so packing always advances |
| Layers.CapacityValues | src/app/core/service/graph.service.ts:97-108 | capacities 1, 4, 12 for layers 0–2 and the formula's values 16, 48, 52, 496 for layers 3, 7, 8, 64 |
| Layers.CapacityIncreasing | src/app/core/service/graph.service.ts:97-108 | every layer holds more nodes than the one inside it |
| Layers.FloorLog8Bounds | src/app/core/service/graph.service.ts:106 | the integer log is the largest k with 8^k ≤ n, in place of `Math.floor(Math.log2(L) / Math.log2(8))` |
| Layers.PackAfterPosition | src/app/core/service/graph.service.ts:58-84 | after k nodes the counters stand at position k (layer start + nodes in the layer), and the current layer is never full |
| Layers.RawLayerInterval | src/app/core/service/graph.service.ts:58-84 | node i is in raw layer L exactly when i lies in L's interval of capacity(L) positions |
| Layers.RawLayerMonotone | src/app/core/service/graph.service.ts:58-84 | raw layers never decrease along the input order |
| Layers.LayerOccupancy | src/app/core/service/graph.service.ts:58-84 | each raw layer holds at most its capacity, and every layer before the last node's layer holds exactly its capacity |
| Layers.ShrinkKeepsCapacity | src/app/core/service/graph.service.ts:72-82 | the shrink expression as written always yields the current capacity |
| Layers.RawLayerMapKeys | src/app/core/service/graph.service.ts:58-62 | every input id, and nothing else, gets a raw layer |
| Layers.RawLayerMapAt | src/app/core/service/graph.service.ts:62 | an id's raw layer is that of its last occurrence in the input |
| Layers.ConcentricLayersProperties | src/app/core/service/graph.service.ts:86-88 | after inversion every value is layerIndex + 1 − raw, in [1, layerIndex + 1]; the first node (when its id does not recur) gets the maximum, the centre |
| Layers.BuildLayer | src/app/core/service/graph.service.ts:50-91 | the counter loop and in-place inversion produce exactly the reference concentric layer map |
| Style.DefaultRules | src/app/core/service/graph.service.ts:114-196 | the eight fixed rules getStyle starts with: all nodes, all edges, nodes with colour fields, hidden nodes, hidden edges, highlighted nodes and edges (in the highlight colour), and split nodes |
| Style.MtbRule | src/app/core/service/graph.service.ts:802-808 | the `node.mtb` rule updateMtbNodes sets: a 7px border when mtb results are shown, 0px otherwise |
| Style.ResetSizeRule | src/app/core/service/graph.service.ts:762-770 | the `node[?member]` rule removeSizeMap sets: width and height 50px, font size 18px |
| Style.GetStyle | src/app/core/service/graph.service.ts:114-214 | the style is the eight default rules followed by one rule per boolean property, in property order |
| Style.BooleanRulesPerProperty | src/app/core/service/graph.service.ts:197-210 | one border rule per boolean property, in order, and none for other types |
| Style.BooleanRuleSelector | src/app/core/service/graph.service.ts:200-201 | the selector is the class selector exactly when the first mapping key is "true", otherwise the `[!name]` selector |
| Style.SetColorContinuous | src/app/core/service/graph.service.ts:537-577 | the loop appends exactly the reference list of continuous rules |
| Style.ContinuousRulesShape | src/app/core/service/graph.service.ts:542-575 | n ≥ 1 breakpoints give n + 1 rules: `color < k0`, one `[k_i, k_(i+1))` range per adjacent pair, and `color > k_(n−1)` |
| Style.ContinuousRulesEmpty | src/app/core/service/graph.service.ts:542 | an empty mapping adds no rule |
| Style.ContinuousMatchAt | src/app/core/service/graph.service.ts:550-573 | a value matches rule j exactly when it lies in rule j's interval |
| Style.ContinuousInsideOneRange | src/app/core/service/graph.service.ts:566-573 | with ascending keys, every value in [k0, k_(n−1)) matches exactly one range rule |
| Style.ContinuousLastKeyUnmatched | src/app/core/service/graph.service.ts:559-565 | with ascending keys, a value equal to the last key matches no rule |
| Style.ContinuousOutsideRange | src/app/core/service/graph.service.ts:550-565 | below the first key only the first rule matches; above the last key only the last rule matches |
| Style.SetColorDiscrete | src/app/core/service/graph.service.ts:597-608 | the loop appends exactly the reference list of per-category rules |
| Style.DiscreteRulesLayout | src/app/core/service/graph.service.ts:597-608 | three rules per category, in mapping order: colour, split side A (pie 2), split side B (pie 1) |
| Style.DiscreteCategoryRule | src/app/core/service/graph.service.ts:601-603 | with distinct keys, category i's colour rule paints its value and is the only rule selecting that category |
| GraphModel.ClearAll | src/app/core/service/graph.service.ts:725-738 | every node in its cleared form, ids in place (its effect is `GraphModel.ClearAllEffect`) |
| GraphModel.Mark | src/app/core/service/graph.service.ts:422-451 | the writes of one visible item on its node: member and shown set, mtb added when the item has it, split set for the two-group sides; highlight and id unchanged |
| GraphModel.ApplyItems | src/app/core/service/graph.service.ts:520-533 | the item loop of visualizeOne and visualizeTwo: each item visible and carried by a node marks that node, in order; ids stay in place |
| GraphModel.ClearAllEffect | src/app/core/service/graph.service.ts:725-738 | clear drops member, the four value fields and the mtb and split classes on every node; shown and highlight stay; a second clear changes nothing |
| GraphModel.ApplyItemAt | src/app/core/service/graph.service.ts:422-434 | a visible item changes only the node carrying its id |
| GraphModel.ApplyItemAbsent | src/app/core/service/graph.service.ts:424-426 | an item whose id no node has changes nothing |
| GraphModel.ApplyItemsEffect | src/app/core/service/graph.service.ts:393-535 | node k becomes member and shown iff a visible item carries its id; mtb iff such an item has mtb; split too for the two-group sides; the value field holds the last write; nothing else changes |
| GraphModel.LastValueNoWrite | src/app/core/service/graph.service.ts:520-533 | with no item for the id the field keeps its value |
| GraphModel.LastValueLastWrite | src/app/core/service/graph.service.ts:520-533 | the last item carrying the id decides the field |
| GraphModel.LastValueAllDefined | src/app/core/service/graph.service.ts:422-451 | when all items carry a value, the field is present exactly when some item carries the id |
| GraphModel.ReconcileNodes | src/app/core/service/graph.service.ts:776-796 | every node with shown replaced by the closed-form visibility rule; ids in place |
| GraphModel.ReconcileEdges | src/app/core/service/graph.service.ts:776-796 | every edge with shown replaced by the closed-form edge rule; endpoints in place |
| GraphModel.PassesReconcile | src/app/core/service/graph.service.ts:776-796 | the five ordered passes compute the reference rule: an exclusive split node gets !showOnlyShared, else a member true, else the background rule; an edge is base && !(touches exclusive && showOnlyShared) |
| GraphModel.ReconcileIgnoresPriorShown | src/app/core/service/graph.service.ts:776-796 | the result does not depend on the prior shown values |
| GraphModel.ReconcileIdempotent | src/app/core/service/graph.service.ts:776-796 | running the visibility update twice equals running it once |
| GraphModel.OnlySharedHidesExclusive | src/app/core/service/graph.service.ts:788-794 | with only shared nodes shown, an exclusive node and every edge touching one are hidden, and edges between non-exclusive members are shown |
| GraphModel.EdgeNeedsVisibleBase | src/app/core/service/graph.service.ts:780-787 | a shown edge has two member endpoints, or the background rule shows it |
| GraphModel.Encoded | src/app/core/service/graph.service.ts:349-386 | the nodes layoutPatient leaves before the visibility update: split encoding for two groups, single encoding for one, all shown for none; ids in place |
| GraphModel.EncodedTwoGroups | src/app/core/service/graph.service.ts:349-362 | two groups: no single-group colour or size survives; split members are exactly the nodes either group carries; each side holds its group's last write |
| GraphModel.EncodedOneGroup | src/app/core/service/graph.service.ts:363-378 | one group: no split field survives; colour and size hold the group's last write |
| GraphModel.ExclusiveTwoGroups | src/app/core/service/graph.service.ts:422-451 | with two groups, a node is exclusive to one group exactly when the two sides' last writes differ |
| GraphModel.SharedOnlyNeedsTwoGroups | src/app/core/service/graph.service.ts:349-386 | with one group or none, the "only shared" toggle changes no node and no edge |
| GraphModel.LayoutNoGroupShowsAll | src/app/core/service/graph.service.ts:379-386 | with no group selected every node and every edge ends up shown |
| GraphModel.LayoutTwoGroupsShowsMembers | src/app/core/service/graph.service.ts:349-386 | with two groups and both toggles off, a node is shown exactly when a visible item of either group carries it |
| GraphModel.HighlightNodes | src/app/core/service/graph.service.ts:815-829 | every node with highlight set exactly when its id is marked; ids in place |
| GraphModel.HighlightEdges | src/app/core/service/graph.service.ts:815-829 | every edge with highlight set exactly when one of its endpoints is marked; endpoints in place |
| GraphModel.HighlightOneMore | src/app/core/service/graph.service.ts:820-827 | marking a node's id highlights that node and its connected edges |
| GraphModel.HighlightUnknownIdIgnored | src/app/core/service/graph.service.ts:820-827 | an id no node has changes no highlight |
| GraphModel.HighlightOnlyHighlight | src/app/core/service/graph.service.ts:815-829 | only the highlight class changes; repeating the call changes nothing; an empty list clears the highlight of every node and every edge |
| GraphService.ColouringRules | src/app/core/service/graph.service.ts:487-500 | the rules visualizeOne adds for the colouring property: setColorContinuous for continuous, setColorDiscrete for discrete, none otherwise |
| GraphService.ColouringRulesByType | src/app/core/service/graph.service.ts:487-500 | no property or a boolean property adds no rule; continuous adds n + 1 rules (none when empty); discrete adds 3 per category |
| GraphService.GraphCore.constructor | src/app/core/service/graph.service.ts:240-253 | nodes and edges as loaded, all shown; style from getStyle; layers from buildLayer |
| GraphService.GraphCore.IndexOf | src/app/core/service/graph.service.ts:424-426 | the position of the node with the id, or −1 when no node has it |
| GraphService.GraphCore.Clear | src/app/core/service/graph.service.ts:725-738 | nodes become their cleared form and the size reset rule is appended |
| GraphService.GraphCore.WriteItems | src/app/core/service/graph.service.ts:520-533 | the item loop leaves exactly the reference encoding |
| GraphService.GraphCore.VisualizeOne | src/app/core/service/graph.service.ts:455-535 | clear, the colour rules of the property, then the single-group encoding |
| GraphService.GraphCore.VisualizeTwo | src/app/core/service/graph.service.ts:393-453 | clear, then group A as side A and group B as side B of the split encoding |
| GraphService.GraphCore.UpdateMtbNodes | src/app/core/service/graph.service.ts:802-808 | appends the mtb border rule (7px shown, 0px hidden) |
| GraphService.GraphCore.UpdateShownNodes | src/app/core/service/graph.service.ts:776-796 | the in-place passes leave exactly the reference visibility of nodes and edges |
| GraphService.GraphCore.ShowNodesByMembership | src/app/core/service/graph.service.ts:778-779 | member nodes shown, the others by the background rule |
| GraphService.GraphCore.ShowMemberEdges | src/app/core/service/graph.service.ts:780-783 | edges connected to a member node shown |
| GraphService.GraphCore.ShowNonMemberEdges | src/app/core/service/graph.service.ts:784-787 | edges connected to a non-member node by the background rule |
| GraphService.GraphCore.HideExclusiveNodes | src/app/core/service/graph.service.ts:788-789 | exclusive split nodes follow "only shared" |
| GraphService.GraphCore.HideExclusiveEdges | src/app/core/service/graph.service.ts:790-794 | shown edges connected to an exclusive node follow "only shared" |
| GraphService.GraphCore.ShowAllNodes | src/app/core/service/graph.service.ts:381 | every node shown, nothing else changed |
| GraphService.GraphCore.LayoutPatient | src/app/core/service/graph.service.ts:333-387 | the mtb rule, the encoding for two, one or no groups, then the visibility update with "patient selected" meaning a non-empty group |
| GraphService.GraphCore.HighlightNode | src/app/core/service/graph.service.ts:815-829 | a node is highlighted iff its id is marked; an edge iff an endpoint is marked |
| GraphService.GraphCore.HighlightStep | src/app/core/service/graph.service.ts:820-827 | one marked id adds its node and that node's connected edges |
| GraphService.GraphCore.HighlightEdgesAt | src/app/core/service/graph.service.ts:825-826 | the edges connected to one node gain the highlight class; every other edge and every other field stays |
| Export.BaseName | src/app/core/service/graph.service.ts:264-285 | the file name before the extension, chosen from the selection and the patients |
| Export.Filename | src/app/core/service/graph.service.ts:264-286 | the base name, a dot and the extension |
| Export.GetImage | src/app/core/service/graph.service.ts:309-321 | the render request for the configuration: PNG, JPEG or SVG |
| Export.DownloadImage | src/app/core/service/graph.service.ts:258-302 | the file name and the payload of a download; SVG text is wrapped as a blob |
| Export.FilenameCases | src/app/core/service/graph.service.ts:264-286 | the name of a present patient, or both names joined by "_vs_"; "Network" for no group; "network.ts" when a selected group's patient is missing |
| Export.FilenameSuffix | src/app/core/service/graph.service.ts:286 | every file name ends with "." and the extension |
| Export.ExtensionRecovered | src/app/core/service/graph.service.ts:286 | a dot-free extension is exactly the text after the file name's last dot |
| Export.ComparisonExample | src/app/core/service/graph.service.ts:277-279 | patients P1 and P2 compared and exported as PNG give "P1_vs_P2.PNG" |
| Export.GetImageDispatch | src/app/core/service/graph.service.ts:309-321 | PNG carries the background (transparent or white) and the scale; JPEG only the scale; anything else is SVG |
| Export.GetImageKeepsScale | src/app/core/service/graph.service.ts:309-321 | a raster export (PNG, JPEG) passes the configured scale to the renderer and an SVG export passes none; the PNG background is transparent exactly when the configuration asks for it |
| Export.DownloadImageIgnoresPatients | src/app/core/service/graph.service.ts:264-293 | the downloaded payload depends on the configuration alone; patients and selection only name the file |
| Export.DownloadPayload | src/app/core/service/graph.service.ts:288-293 | SVG is wrapped as text, PNG and JPEG are rendered images, and any other extension gets the unwrapped SVG render |
| NumberText.IntToString | src/app/data/state/threshold/threshold.reducer.ts:38 | the decimal text of an integer, as `toString` gives it; it is always a well-formed number text |
| NumberText.IntToStringExamples | src/app/data/state/threshold/threshold.reducer.ts:38 | the texts of 0, −7 and 42 are "0", "-7" and "42" |
| NumberText.IntToStringRoundTrip | src/app/data/state/threshold/threshold.reducer.ts:38 | the decimal text of a threshold reads back as the same number |
| NumberText.IntToStringInjective | src/app/data/state/threshold/threshold.reducer.ts:38 | distinct thresholds get distinct labels |
| NumberText.IntToStringSign | src/app/data/state/threshold/threshold.effects.ts:56 | a label starts with '-' exactly for negative values and is never the bare placeholder "-" |
| ThresholdReducer.InitialState | src/app/data/state/threshold/threshold.reducer.ts:10-18 | the initial threshold state |
| ThresholdReducer.Reduce | src/app/data/state/threshold/threshold.reducer.ts:20-41 | the reducer: no action changes the multiplier; only loadDataSuccess changes the ranges and labelMax; only setDefined and hydrateThresholdSuccess change defined and labelMin; only the two load actions change isLoading |
| ThresholdReducer.InitialStateFields | src/app/data/state/threshold/threshold.reducer.ts:10-18 | nothing loaded, defined or labelled, not loading, multiplier 1000000000 |
| ThresholdReducer.LoadQueryParamsOnlyLoading | src/app/data/state/threshold/threshold.reducer.ts:22 | loadQueryParams sets isLoading and changes nothing else |
| ThresholdReducer.LoadDataSuccessEffect | src/app/data/state/threshold/threshold.reducer.ts:23-31 | stores both ranges, clears isLoading, labels the larger maximum; defined, labelMin and multiplier stay |
| ThresholdReducer.SetDefinedLikeHydrate | src/app/data/state/threshold/threshold.reducer.ts:32-40 | setDefined and hydrateThresholdSuccess have the same effect: defined and its label, nothing else |
| ThresholdReducer.SetLabelMinIgnored | src/app/data/state/threshold/threshold.reducer.ts:20-41 | setLabelMin leaves the threshold state unchanged |
| ThresholdReducer.ReduceIdempotent | src/app/data/state/threshold/threshold.reducer.ts:20-41 | each action applied twice equals applying it once |
| ThresholdReducer.MultiplierInvariant | src/app/data/state/threshold/threshold.reducer.ts:20-41 | no run of actions changes the multiplier |
| ThresholdReducer.LabelTracksDefined | src/app/data/state/threshold/threshold.reducer.ts:32-40 | once defined, the threshold stays defined and labelMin is always its text |
| ThresholdEffects.ResetDefined | src/app/data/state/threshold/threshold.effects.ts:24-72 | the output is one setDefined, followed by a setLabelMin exactly when the selection changed |
| ThresholdEffects.ChangedSelection | src/app/data/state/threshold/threshold.effects.ts:26-58 | a changed selection emits the selected groups' minimum with its own text, or MIN_SAFE_INTEGER with "-" when none is available |
| ThresholdEffects.BothTakesSmallerMinimum | src/app/data/state/threshold/threshold.effects.ts:27-34 | for both groups the defined value is the smaller of the two minima |
| ThresholdEffects.UnchangedSelection | src/app/data/state/threshold/threshold.effects.ts:60-71 | an unchanged selection re-emits the defined value, or MIN_SAFE_INTEGER when none, and no label |
| ThresholdEffects.EffectThenReducer | src/app/data/state/threshold/threshold.effects.ts:24-72 | reduced by the threshold reducer, the emitted actions leave the defined value labelled with its own text, never "-" |
| ThresholdEffects.UnchangedSelectionKeepsState | src/app/data/state/threshold/threshold.effects.ts:60-66 | an unchanged selection leaves a consistent threshold state as it was |
| SidebarReducer.InitialState | src/app/data/state/sidebar/sidebar.reducer.ts:18-28 | the initial sidebar state |
| SidebarReducer.Reduce | src/app/data/state/sidebar/sidebar.reducer.ts:30-122 | the reducer: panel toggles and unhandled actions keep the sidebar visibility; every action except hydration changes at most its own panel |
| SidebarReducer.InitialStateFields | src/app/data/state/sidebar/sidebar.reducer.ts:18-28 | the sidebar is full and every panel is a button |
| SidebarReducer.TogglePanelOnlyOwn | src/app/data/state/sidebar/sidebar.reducer.ts:39-84 | a panel toggle sets its own panel and nothing else |
| SidebarReducer.TogglesCommute | src/app/data/state/sidebar/sidebar.reducer.ts:39-84 | toggles of two different panels commute |
| SidebarReducer.ToggleLikeSet | src/app/data/state/sidebar/sidebar.reducer.ts:32-91 | toggleSidebarVisibility and setSidebarVisibility both replace only the sidebar visibility, with the same result |
| SidebarReducer.HydrateOverwritesAll | src/app/data/state/sidebar/sidebar.reducer.ts:92-121 | hydration sets all nine fields from the payload, whatever the prior state |
| SidebarReducer.ReduceIdempotent | src/app/data/state/sidebar/sidebar.reducer.ts:30-122 | an action applied twice with the same payload equals applying it once |

## Left out

- Rendering by the graph library: drawing, layout geometry, `mapData` colour interpolation, PNG/JPEG/SVG generation and `fit`. Style rules are kept as data, and render requests as values.
- How the graph library treats `data(key, undefined)`. The colour, side and size fields are written from the empty-string key of each item. They are modelled as present or absent per item (`PatientItem.emptyKeyValue`), with the last write deciding.
- GraphModel.Mark: assumes `data(key, value)` always returns the node collection. In the library, `data(key, undefined)` is the getter form and returns the field's value instead. So where an item's empty-string value is undefined, the program behaves differently from the model:
  - In `visualizeTwo` (graph.service.ts:430-433), the `mtb` class is not added when the field is empty, and `addClass` fails when it holds a value. The model still sets `mtb` and goes on to the next item.
  - In `visualizeOne` (graph.service.ts:527-528), `.data('color', …)` is called on the returned value and fails at the first visible item. The model writes every item. The item loop it would abort is `GraphModel.ApplyItems`, and `GraphModel.ApplyItemsEffect` states the result of the uninterrupted loop.
- The stored colour and size values themselves. Only their presence is modelled, since they are read from the empty-string key.
- The Blob / object-URL / anchor download and all `console.log` output: browser I/O.
- The default split rules and the `font-weight` bypass at the start of `setColorDiscrete` (graph.service.ts:584-595). They call into the library outside the style sheet; only the per-category rules are modelled.
- `setSplitColorMap`, `setColorMap` and `setSizeMap`: their callers are commented out. `removeSizeMap` is the fixed rule `Style.ResetSizeRule` appended by `Clear`.
- The unused `layoutPatient` parameters (patient groups, network, `defined`, `nodeSizeBy`) and the unused `defined` and `nodeColorBy` of `visualizeTwo`.
- `null` patient collections: an absent collection is modelled as the empty sequence.
- `initializeCore`: a network whose node ids repeat or whose edges name unknown nodes is excluded by the constructor's preconditions. Node data from the network other than the id is not modelled.
- The effects wiring: RxJS, `concatLatestFrom`, and the debounce of graph updates. `ResetDefined` takes the selected store values as parameters.
- `Number(rawKey)` parsing of continuous keys, NaN, and floating-point comparison. Each mapping entry carries its key text and its numeric reading as a `real`.
- Layers.MaxNodesInLayer: uses an exact integer floor of log base 8. It does not model the floating-point `Math.log2(L) / Math.log2(8)`, which can round differently when L is a power of 8.
- NumberText.IntToString: decimal digits only. It does not model `toString`'s exponent form for magnitudes of 10^21 and above, or its rendering of fractions. Thresholds are integers here.
- `hydrateSidebarVisibilitySuccess` is declared with only a `visibility` payload (src/app/data/state/hydrator/hydrator.actions.ts:77-80). The reducer reads nine fields, and the model follows the reducer.
