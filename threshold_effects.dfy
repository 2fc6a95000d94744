/**
 * The decision made when the patient group selection is set: which
 * threshold actions to emit, from the previous selection, the current one,
 * the two groups' minima and the currently defined threshold.
 */
module ThresholdEffects {
  import opened Common
  import opened ThresholdReducer
  import NumberText

  /** Number.MIN_SAFE_INTEGER, -(2^53 - 1). */
  const MinSafeInteger: int := -9007199254740991

  function MinInt(a: int, b: int): int
  {
    if a <= b then a else b
  }

  /** The body of resetDefined$. */
  function ResetDefined(previousSelection: PatientSelection, selection: PatientSelection,
                        minA: Option<int>, minB: Option<int>, defined: Option<int>): (r: seq<Action>)
    ensures 1 <= |r| <= 2 && r[0].SetDefined?
    ensures |r| == 2 <==> previousSelection != selection
    ensures |r| == 2 ==> r[1].SetLabelMin?
  {
    if previousSelection != selection then
      if selection == Both && minA.Some? && minB.Some? then
        [SetDefined(MinInt(minA.value, minB.value)), SetLabelMin(NumberText.IntToString(MinInt(minA.value, minB.value)))]
      else if selection == GroupA && minA.Some? then
        [SetDefined(minA.value), SetLabelMin(NumberText.IntToString(minA.value))]
      else if selection == GroupB && minB.Some? then
        [SetDefined(minB.value), SetLabelMin(NumberText.IntToString(minB.value))]
      else
        [SetDefined(MinSafeInteger), SetLabelMin("-")]
    else if defined.Some? then
      [SetDefined(defined.value)]
    else
      [SetDefined(MinSafeInteger)]
  }

  /** The minimum the selected groups supply, if they do. */
  function SelectedMinimum(selection: PatientSelection, minA: Option<int>, minB: Option<int>): Option<int>
  {
    match selection
    case Both => if minA.Some? && minB.Some? then Some(MinInt(minA.value, minB.value)) else None
    case GroupA => minA
    case GroupB => minB
    case NoGroup => None
  }

  /** A changed selection defines the selected groups' minimum, labelled with
      its own text, or the safe minimum labelled with the placeholder "-"
      when the selection supplies no minimum. */
  lemma ChangedSelection(previousSelection: PatientSelection, selection: PatientSelection,
                         minA: Option<int>, minB: Option<int>, defined: Option<int>)
    requires previousSelection != selection
    ensures var r := ResetDefined(previousSelection, selection, minA, minB, defined);
            var m := SelectedMinimum(selection, minA, minB);
            |r| == 2 &&
            (m.Some? ==> r[0].defined == m.value && r[1].labelMin == NumberText.IntToString(m.value) &&
                         r[1].labelMin != "-" && NumberText.ParseInt(r[1].labelMin) == m.value) &&
            (m.None? ==> r[0].defined == MinSafeInteger && r[1].labelMin == "-")
  {
    var m := SelectedMinimum(selection, minA, minB);
    if m.Some? {
      NumberText.IntToStringSign(m.value);
      NumberText.IntToStringRoundTrip(m.value);
    }
  }

  /** With both groups selected, the defined threshold is the smaller minimum. */
  lemma BothTakesSmallerMinimum(previousSelection: PatientSelection, a: int, b: int, defined: Option<int>)
    requires previousSelection != Both
    ensures var d := ResetDefined(previousSelection, Both, Some(a), Some(b), defined)[0].defined;
            d <= a && d <= b && (d == a || d == b)
  {
  }

  /** An unchanged selection re-emits the defined threshold, or the safe
      minimum when none is defined, and no label. */
  lemma UnchangedSelection(selection: PatientSelection, minA: Option<int>, minB: Option<int>, defined: Option<int>)
    ensures ResetDefined(selection, selection, minA, minB, defined) ==
              [SetDefined(if defined.Some? then defined.value else MinSafeInteger)]
  {
  }

  /** Fed to the threshold reducer, the emitted actions define the threshold
      and label it with its own text: the reducer has no handler for
      setLabelMin, so the "-" placeholder never reaches the state. */
  lemma EffectThenReducer(s: ThresholdState, previousSelection: PatientSelection, selection: PatientSelection,
                          minA: Option<int>, minB: Option<int>, defined: Option<int>)
    ensures var r := ResetDefined(previousSelection, selection, minA, minB, defined);
            var t := ReduceAll(s, r);
            t.defined == Some(r[0].defined) &&
            t.labelMin == Some(NumberText.IntToString(r[0].defined)) &&
            t.labelMin != Some("-") &&
            t.multiplier == s.multiplier && t.groupA == s.groupA && t.groupB == s.groupB
  {
    var r := ResetDefined(previousSelection, selection, minA, minB, defined);
    NumberText.IntToStringSign(r[0].defined);
    if |r| == 2 {
      ReduceAllTwo(s, r[0], r[1]);
      assert r == [r[0], r[1]];
    } else {
      ReduceAllOne(s, r[0]);
      assert r == [r[0]];
    }
  }

  /** An unchanged selection leaves a consistent defined threshold as it was. */
  lemma UnchangedSelectionKeepsState(s: ThresholdState, selection: PatientSelection, minA: Option<int>, minB: Option<int>)
    requires s.defined.Some? && s.labelMin == Some(NumberText.IntToString(s.defined.value))
    ensures ReduceAll(s, ResetDefined(selection, selection, minA, minB, s.defined)) == s
  {
    ReduceAllOne(s, SetDefined(s.defined.value));
  }
}
