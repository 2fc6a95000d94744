/**
 * Style rules the graph service hands to the renderer, as plain values: a
 * selector, and the declarations (property, value) it applies. The renderer
 * itself (how a rule list turns into pixels) is not part of this model; only
 * which rules are produced, in which order, and which nodes a numeric colour
 * selector picks out.
 */
module Style {
  import opened Common

  /** Element selectors the service writes. */
  datatype Selector =
    | AllNodes                          // node
    | AllEdges                          // edge
    | ColourFieldsPresent               // node[color], node[colorA], node[colorB]
    | NodeHidden                        // node[!shown]
    | EdgeHidden                        // edge[!shown]
    | NodeClass(cls: string)            // node.<cls>
    | EdgeClass(cls: string)            // edge.<cls>
    | NotData(field: string)            // node[!<field>]
    | MemberNodes                       // node[?member]
    | ColorLt(k: real)                  // node[color<k]
    | ColorRange(lo: real, hi: real)    // node[color>=lo][color<hi]
    | ColorGt(k: real)                  // node[color>k]
    | ColorEq(key: string)              // node[color='key']
    | SplitAEq(key: string)             // node.split[colorA=key]
    | SplitBEq(key: string)             // node.split[colorB=key]

  /** A declaration's value: a literal, JavaScript's `undefined`, or a
      `mapData(field, lo, hi, from, to)` interpolation whose upper ends are
      `undefined` after the last breakpoint. */
  datatype StyleValue =
    | Text(s: string)
    | Undefined
    | MapData(field: string, lowKey: real, highKey: Option<real>, lowValue: string, highValue: Option<string>)

  datatype Decl = Decl(property: string, value: StyleValue)

  datatype Rule = Rule(selector: Selector, decls: seq<Decl>)

  datatype PropertyType = Continuous | Discrete | Boolean

  /** One entry of a property's mapping. `number` is the numeric reading of
      the key (`Number(key)`), used by continuous properties only. */
  datatype Entry = Entry(key: string, number: real, value: string)

  /** A visualisable property with its mapping, in the order of its entries. */
  datatype Property = Property(name: string, ptype: PropertyType, mapping: seq<Entry>)

  const Gray := "#888"

  // ---------------------------------------------------------------------------
  // The initial stylesheet (getStyle)
  // ---------------------------------------------------------------------------

  /** The fixed rules at the head of the initial stylesheet. */
  function DefaultRules(highlight: string): (r: seq<Rule>)
    ensures |r| == 8
  {
    [ Rule(AllNodes, [Decl("label", Text("data(name)")), Decl("text-valign", Text("center")),
                      Decl("background-color", Text(Gray)), Decl("color", Text("#fff")),
                      Decl("text-outline-color", Text(Gray)), Decl("text-outline-width", Text("5px")),
                      Decl("width", Text("50px")), Decl("height", Text("50px"))]),
      Rule(AllEdges, [Decl("width", Text("3")), Decl("line-color", Text("#ccc")),
                      Decl("target-arrow-color", Text("#ccc")), Decl("target-arrow-shape", Text("triangle"))]),
      Rule(ColourFieldsPresent, [Decl("color", Text("#383838")), Decl("font-weight", Text("bold"))]),
      Rule(NodeHidden, [Decl("visibility", Text("hidden"))]),
      Rule(EdgeHidden, [Decl("visibility", Text("hidden"))]),
      Rule(NodeClass("highlight"), [Decl("border-width", Text("13px")), Decl("border-color", Text(highlight))]),
      Rule(EdgeClass("highlight"), [Decl("width", Text("3")), Decl("line-color", Text(highlight))]),
      Rule(NodeClass("split"), [Decl("text-outline-width", Text("0px")), Decl("text-outline-color", Text(Gray)),
                                Decl("text-outline-opacity", Text("0.3")), Decl("width", Text("80px")),
                                Decl("height", Text("80px")), Decl("pie-size", Text("100%")),
                                Decl("pie-1-background-color", Text("green")), Decl("pie-1-background-size", Text("50%")),
                                Decl("pie-2-background-color", Text("green")), Decl("pie-2-background-size", Text("50%"))])
    ]
  }

  /** The border rule of a boolean property: its first mapping key decides
      whether nodes carrying the class, or nodes lacking the data field, are
      marked; an empty mapping reads key and colour as `undefined`. */
  function BooleanRule(p: Property): Rule
  {
    var selector := if |p.mapping| > 0 && p.mapping[0].key == "true" then NodeClass(p.name) else NotData(p.name);
    var colour := if |p.mapping| > 0 then Text(p.mapping[0].value) else Undefined;
    Rule(selector, [Decl("border-width", Text("15px")), Decl("border-color", colour)])
  }

  /** The border rules of the boolean properties, in property order. */
  function BooleanRules(properties: seq<Property>): seq<Rule>
  {
    if properties == [] then []
    else
      var last := properties[|properties| - 1];
      BooleanRules(properties[..|properties| - 1]) + (if last.ptype == Boolean then [BooleanRule(last)] else [])
  }

  /** The boolean properties of a list, in order. */
  function BooleanProperties(properties: seq<Property>): seq<Property>
  {
    if properties == [] then []
    else
      var last := properties[|properties| - 1];
      BooleanProperties(properties[..|properties| - 1]) + (if last.ptype == Boolean then [last] else [])
  }

  /** One border rule per boolean property, in order; other properties add nothing. */
  lemma {:induction false} BooleanRulesPerProperty(properties: seq<Property>)
    ensures |BooleanRules(properties)| == |BooleanProperties(properties)|
    ensures forall j :: 0 <= j < |BooleanRules(properties)| ==>
              BooleanProperties(properties)[j].ptype == Boolean &&
              BooleanRules(properties)[j] == BooleanRule(BooleanProperties(properties)[j])
  {
    if properties != [] {
      BooleanRulesPerProperty(properties[..|properties| - 1]);
    }
  }

  /** A boolean property whose first key is "true" marks the nodes carrying its
      class; any other first key (or none) marks the nodes lacking the field. */
  lemma BooleanRuleSelector(p: Property)
    ensures BooleanRule(p).selector == NodeClass(p.name) <==> |p.mapping| > 0 && p.mapping[0].key == "true"
    ensures BooleanRule(p).selector != NodeClass(p.name) ==> BooleanRule(p).selector == NotData(p.name)
  {
  }

  /** getStyle: the default rules followed by one border rule per boolean
      property, built by appending in a loop. */
  method GetStyle(properties: seq<Property>, highlight: string) returns (style: seq<Rule>)
    ensures style == DefaultRules(highlight) + BooleanRules(properties)
  {
    style := DefaultRules(highlight);
    for i := 0 to |properties|
      invariant style == DefaultRules(highlight) + BooleanRules(properties[..i])
    {
      assert properties[..i + 1][..i] == properties[..i];
      var property := properties[i];
      if property.ptype == Boolean {
        style := style + [BooleanRule(property)];
      }
    }
    assert properties[..|properties|] == properties;
  }

  // ---------------------------------------------------------------------------
  // Continuous colouring (setColorContinuous)
  // ---------------------------------------------------------------------------

  /** Background and outline painted with the same value. */
  function Paint(v: StyleValue): seq<Decl>
  {
    [Decl("background-color", v), Decl("text-outline-color", v)]
  }

  /** The interpolation written for entry `index`: from this breakpoint to the
      next, whose key and colour are `undefined` after the last entry. */
  function Interpolation(m: seq<Entry>, index: nat): StyleValue
    requires index < |m|
  {
    var next := index + 1 < |m|;
    MapData("color", m[index].number,
            if next then Some(m[index + 1].number) else None,
            m[index].value,
            if next then Some(m[index + 1].value) else None)
  }

  /** The rules written for mapping entry `index`: the first entry adds a rule
      below its key; the last adds a rule strictly above its key; every other
      entry a half-open range up to the next key. */
  function ContinuousRulesAt(m: seq<Entry>, index: nat): seq<Rule>
    requires index < |m|
  {
    var v := Interpolation(m, index);
    (if index == 0 then [Rule(ColorLt(m[0].number), Paint(v))] else [])
    + (if index == |m| - 1 then [Rule(ColorGt(m[index].number), Paint(v))]
       else [Rule(ColorRange(m[index].number, m[index + 1].number), Paint(v))])
  }

  /** The rules written for the first `count` entries. */
  function ContinuousRulesUpTo(m: seq<Entry>, count: nat): seq<Rule>
    requires count <= |m|
  {
    if count == 0 then [] else ContinuousRulesUpTo(m, count - 1) + ContinuousRulesAt(m, count - 1)
  }

  function ContinuousRules(m: seq<Entry>): seq<Rule>
  {
    ContinuousRulesUpTo(m, |m|)
  }

  /** The selector at position j of the continuous rule list of n breakpoints:
      first `color < k0`, then the ranges [k(j-1), kj), last `color > k(n-1)`. */
  function ContinuousSelectorAt(m: seq<Entry>, j: nat): Selector
    requires 1 <= |m| && j <= |m|
  {
    if j == 0 then ColorLt(m[0].number)
    else if j == |m| then ColorGt(m[|m| - 1].number)
    else ColorRange(m[j - 1].number, m[j].number)
  }

  lemma {:induction false} ContinuousRulesUpToShape(m: seq<Entry>, count: nat)
    requires 1 <= count <= |m|
    ensures |ContinuousRulesUpTo(m, count)| == count + 1
    ensures forall j :: 0 <= j <= count ==>
              ContinuousRulesUpTo(m, count)[j].selector == ContinuousSelectorAt(m, j)
  {
    if count > 1 {
      ContinuousRulesUpToShape(m, count - 1);
      var pre := ContinuousRulesUpTo(m, count - 1);
      assert ContinuousRulesUpTo(m, count) == pre + ContinuousRulesAt(m, count - 1);
    }
  }

  /** n breakpoints give exactly n + 1 rules: one below the first key, one
      range per adjacent pair, one strictly above the last key. */
  lemma ContinuousRulesShape(m: seq<Entry>)
    requires |m| >= 1
    ensures |ContinuousRules(m)| == |m| + 1
    ensures forall j :: 0 <= j <= |m| ==> ContinuousRules(m)[j].selector == ContinuousSelectorAt(m, j)
  {
    ContinuousRulesUpToShape(m, |m|);
  }

  /** An empty mapping writes no rule. */
  lemma ContinuousRulesEmpty(m: seq<Entry>)
    requires |m| == 0
    ensures ContinuousRules(m) == []
  {
  }

  /** Whether a numeric colour selector picks out a node whose `color` is v. */
  predicate NumericMatch(sel: Selector, v: real)
  {
    match sel
    case ColorLt(k) => v < k
    case ColorRange(lo, hi) => lo <= v < hi
    case ColorGt(k) => v > k
    case _ => false
  }

  predicate Ascending(m: seq<Entry>)
  {
    forall i, j :: 0 <= i < j < |m| ==> m[i].number < m[j].number
  }

  lemma AscendingWeak(m: seq<Entry>)
    requires Ascending(m)
    ensures forall i, j :: 0 <= i <= j < |m| ==> m[i].number <= m[j].number
  {
  }

  /** Which numeric rules pick out v, by position: position 0 iff v < k0, the
      last position iff v > k(n-1), position j in between iff k(j-1) <= v < kj. */
  lemma ContinuousMatchAt(m: seq<Entry>, v: real, j: nat)
    requires 1 <= |m| && j <= |m|
    ensures |ContinuousRules(m)| == |m| + 1
    ensures NumericMatch(ContinuousRules(m)[j].selector, v) <==>
              if j == 0 then v < m[0].number
              else if j == |m| then v > m[|m| - 1].number
              else m[j - 1].number <= v < m[j].number
  {
    ContinuousRulesShape(m);
  }

  /** With ascending keys, a value in [k0, k(n-1)) is picked out by exactly one
      rule, and that rule is the range of its breakpoint interval. */
  lemma ContinuousInsideOneRange(m: seq<Entry>, v: real)
    requires |m| >= 1 && Ascending(m)
    requires m[0].number <= v < m[|m| - 1].number
    ensures |ContinuousRules(m)| == |m| + 1
    ensures exists j :: 1 <= j < |m| && NumericMatch(ContinuousRules(m)[j].selector, v) &&
              m[j - 1].number <= v < m[j].number
    ensures forall j, j' ::
              (0 <= j <= |m| && 0 <= j' <= |m| &&
               NumericMatch(ContinuousRules(m)[j].selector, v) &&
               NumericMatch(ContinuousRules(m)[j'].selector, v)) ==> j == j'
  {
    ContinuousRulesShape(m);
    var j := FindInterval(m, v, 1);
    ContinuousMatchAt(m, v, j);
    AscendingWeak(m);
    forall j, j' | 0 <= j <= |m| && 0 <= j' <= |m| &&
                   NumericMatch(ContinuousRules(m)[j].selector, v) &&
                   NumericMatch(ContinuousRules(m)[j'].selector, v)
      ensures j == j'
    {
      ContinuousMatchAt(m, v, j);
      ContinuousMatchAt(m, v, j');
    }
  }

  /** The breakpoint interval containing v, searched from position `from`. */
  lemma FindInterval(m: seq<Entry>, v: real, from: nat) returns (j: nat)
    requires 1 <= from < |m| && Ascending(m)
    requires m[from - 1].number <= v < m[|m| - 1].number
    ensures from <= j < |m| && m[j - 1].number <= v < m[j].number
    decreases |m| - from
  {
    if v < m[from].number {
      j := from;
    } else {
      j := FindInterval(m, v, from + 1);
    }
  }

  /** A value equal to the last key is picked out by no rule (the last rule
      compares strictly with `>`), so such a node keeps the default colour. */
  lemma ContinuousLastKeyUnmatched(m: seq<Entry>)
    requires |m| >= 1 && Ascending(m)
    ensures |ContinuousRules(m)| == |m| + 1
    ensures forall j :: 0 <= j <= |m| ==>
              !NumericMatch(ContinuousRules(m)[j].selector, m[|m| - 1].number)
  {
    ContinuousRulesShape(m);
    AscendingWeak(m);
    forall j | 0 <= j <= |m|
      ensures !NumericMatch(ContinuousRules(m)[j].selector, m[|m| - 1].number)
    {
      ContinuousMatchAt(m, m[|m| - 1].number, j);
    }
  }

  /** A value below the first key is picked out by the first rule only; a value
      above the last key by the last rule only. */
  lemma ContinuousOutsideRange(m: seq<Entry>, v: real)
    requires |m| >= 1 && Ascending(m)
    ensures |ContinuousRules(m)| == |m| + 1
    ensures v < m[0].number ==>
              forall j :: 0 <= j <= |m| ==> (NumericMatch(ContinuousRules(m)[j].selector, v) <==> j == 0)
    ensures v > m[|m| - 1].number ==>
              forall j :: 0 <= j <= |m| ==> (NumericMatch(ContinuousRules(m)[j].selector, v) <==> j == |m|)
  {
    ContinuousRulesShape(m);
    AscendingWeak(m);
    forall j | 0 <= j <= |m|
      ensures v < m[0].number ==> (NumericMatch(ContinuousRules(m)[j].selector, v) <==> j == 0)
      ensures v > m[|m| - 1].number ==> (NumericMatch(ContinuousRules(m)[j].selector, v) <==> j == |m|)
    {
      ContinuousMatchAt(m, v, j);
    }
  }

  /** setColorContinuous: walks the mapping entries once, appending each entry's rules. */
  method SetColorContinuous(property: Property) returns (rules: seq<Rule>)
    ensures rules == ContinuousRules(property.mapping)
  {
    var m := property.mapping;
    rules := [];
    for index := 0 to |m|
      invariant rules == ContinuousRulesUpTo(m, index)
    {
      var mapped := Interpolation(m, index);
      if index == 0 {
        rules := rules + [Rule(ColorLt(m[0].number), Paint(mapped))];
      }
      if index == |m| - 1 {
        rules := rules + [Rule(ColorGt(m[index].number), Paint(mapped))];
      } else {
        rules := rules + [Rule(ColorRange(m[index].number, m[index + 1].number), Paint(mapped))];
      }
    }
  }

  // ---------------------------------------------------------------------------
  // Discrete colouring (setColorDiscrete, per mapping entry)
  // ---------------------------------------------------------------------------

  /** The three rules of one category: single-group fill and outline, and the
      two halves of a split node. */
  function DiscreteRulesOf(e: Entry): seq<Rule>
  {
    [ Rule(ColorEq(e.key), Paint(Text(e.value))),
      Rule(SplitAEq(e.key), [Decl("pie-2-background-color", Text(e.value))]),
      Rule(SplitBEq(e.key), [Decl("pie-1-background-color", Text(e.value))]) ]
  }

  function DiscreteRulesUpTo(m: seq<Entry>, count: nat): seq<Rule>
    requires count <= |m|
  {
    if count == 0 then [] else DiscreteRulesUpTo(m, count - 1) + DiscreteRulesOf(m[count - 1])
  }

  function DiscreteRules(m: seq<Entry>): seq<Rule>
  {
    DiscreteRulesUpTo(m, |m|)
  }

  /** Position j of the discrete rules holds rule j mod 3 of entry j div 3. */
  lemma {:induction false} DiscreteRulesLayout(m: seq<Entry>, count: nat)
    requires count <= |m|
    ensures |DiscreteRulesUpTo(m, count)| == 3 * count
    ensures forall j :: 0 <= j < 3 * count ==>
              DiscreteRulesUpTo(m, count)[j] == DiscreteRulesOf(m[j / 3])[j % 3]
  {
    if count > 0 {
      DiscreteRulesLayout(m, count - 1);
      var pre := DiscreteRulesUpTo(m, count - 1);
      var r := DiscreteRulesUpTo(m, count);
      assert r == pre + DiscreteRulesOf(m[count - 1]);
      forall j | 0 <= j < 3 * count
        ensures r[j] == DiscreteRulesOf(m[j / 3])[j % 3]
      {
        if j < 3 * (count - 1) {
          assert r[j] == pre[j];
        } else {
          assert j / 3 == count - 1;
          assert r[j] == DiscreteRulesOf(m[count - 1])[j - 3 * (count - 1)];
        }
      }
    }
  }

  predicate DistinctKeys(m: seq<Entry>)
  {
    forall i, j :: 0 <= i < j < |m| ==> m[i].key != m[j].key
  }

  /** With distinct category keys (as an object's keys are), the single-group
      rule for a category is the only `color='key'` rule, and paints that
      category's colour. */
  lemma DiscreteCategoryRule(m: seq<Entry>, i: nat)
    requires i < |m| && DistinctKeys(m)
    ensures |DiscreteRules(m)| == 3 * |m|
    ensures DiscreteRules(m)[3 * i] == Rule(ColorEq(m[i].key), Paint(Text(m[i].value)))
    ensures forall j :: 0 <= j < |DiscreteRules(m)| && DiscreteRules(m)[j].selector == ColorEq(m[i].key) ==> j == 3 * i
  {
    DiscreteRulesLayout(m, |m|);
    var r := DiscreteRules(m);
    forall j | 0 <= j < |r| && r[j].selector == ColorEq(m[i].key)
      ensures j == 3 * i
    {
      var q := j / 3;
      assert r[j] == DiscreteRulesOf(m[q])[j % 3];
      assert j % 3 == 0;
      assert m[q].key == m[i].key;
    }
    assert r[3 * i] == DiscreteRulesOf(m[i])[0];
  }

  /** setColorDiscrete's per-entry rules, appended in a loop over the mapping. */
  method SetColorDiscrete(property: Property) returns (rules: seq<Rule>)
    ensures rules == DiscreteRules(property.mapping)
  {
    var m := property.mapping;
    rules := [];
    for i := 0 to |m|
      invariant rules == DiscreteRulesUpTo(m, i)
    {
      var key, value := m[i].key, m[i].value;
      rules := rules + [Rule(ColorEq(key), Paint(Text(value)))];
      rules := rules + [Rule(SplitAEq(key), [Decl("pie-2-background-color", Text(value))])];
      rules := rules + [Rule(SplitBEq(key), [Decl("pie-1-background-color", Text(value))])];
    }
  }

  // ---------------------------------------------------------------------------
  // Fixed rules pushed by other operations
  // ---------------------------------------------------------------------------

  /** updateMtbNodes: the mtb border is 7px when mtb results are shown, 0px otherwise. */
  function MtbRule(showMtbResults: bool): Rule
  {
    Rule(NodeClass("mtb"), [Decl("border-width", Text(if showMtbResults then "7px" else "0px"))])
  }

  /** removeSizeMap: members go back to the default node and font size. */
  function ResetSizeRule(): Rule
  {
    Rule(MemberNodes, [Decl("width", Text("50px")), Decl("height", Text("50px")), Decl("font-size", Text("18px"))])
  }
}
