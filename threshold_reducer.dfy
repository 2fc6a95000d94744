/**
 * The threshold slice of the application state and its reducer: each
 * handled action returns a copy of the state with some fields replaced.
 */
module ThresholdReducer {
  import opened Common
  import NumberText

  /** The threshold range of one patient group. */
  datatype Threshold = Threshold(min: int, max: int)

  datatype ThresholdState = ThresholdState(
    groupA: Option<Threshold>,
    groupB: Option<Threshold>,
    defined: Option<int>,
    multiplier: int,
    isLoading: bool,
    labelMin: Option<string>,
    labelMax: Option<string>)

  /** The fixed-point multiplier of the threshold values. */
  const Multiplier: int := 1000000000

  /** The actions the reducer sees; `Unhandled` stands for every action it has no handler for. */
  datatype Action =
    | LoadQueryParams
    | LoadDataSuccess(thresholdA: Threshold, thresholdB: Threshold)
    | SetDefined(defined: int)
    | HydrateThresholdSuccess(hydrated: int)
    | SetLabelMin(labelMin: string)
    | Unhandled

  function InitialState(): ThresholdState
  {
    ThresholdState(None, None, None, Multiplier, false, None, None)
  }

  function MaxInt(a: int, b: int): int
  {
    if a >= b then a else b
  }

  function Reduce(s: ThresholdState, a: Action): (r: ThresholdState)
    ensures r.multiplier == s.multiplier
    ensures !a.LoadDataSuccess? ==> r.groupA == s.groupA && r.groupB == s.groupB && r.labelMax == s.labelMax
    ensures !(a.SetDefined? || a.HydrateThresholdSuccess?) ==> r.defined == s.defined && r.labelMin == s.labelMin
    ensures !(a.LoadQueryParams? || a.LoadDataSuccess?) ==> r.isLoading == s.isLoading
  {
    match a
    case LoadQueryParams => s.(isLoading := true)
    case LoadDataSuccess(ta, tb) =>
      s.(isLoading := false, groupA := Some(ta), groupB := Some(tb),
         labelMax := Some(NumberText.IntToString(MaxInt(ta.max, tb.max))))
    case SetDefined(d) => s.(defined := Some(d), labelMin := Some(NumberText.IntToString(d)))
    case HydrateThresholdSuccess(d) => s.(defined := Some(d), labelMin := Some(NumberText.IntToString(d)))
    case SetLabelMin(_) => s
    case Unhandled => s
  }

  /** A run of actions, in order. */
  function ReduceAll(s: ThresholdState, actions: seq<Action>): ThresholdState
    decreases |actions|
  {
    if actions == [] then s else ReduceAll(Reduce(s, actions[0]), actions[1..])
  }

  /** Runs of one and two actions. */
  lemma ReduceAllOne(s: ThresholdState, a: Action)
    ensures ReduceAll(s, [a]) == Reduce(s, a)
  {
    assert [a][1..] == [];
  }

  lemma ReduceAllTwo(s: ThresholdState, a: Action, b: Action)
    ensures ReduceAll(s, [a, b]) == Reduce(Reduce(s, a), b)
  {
    assert [a, b][1..] == [b];
    ReduceAllOne(Reduce(s, a), b);
  }

  /** Nothing is loaded or defined at start, and the multiplier is 10^9. */
  lemma InitialStateFields()
    ensures var s := InitialState();
            s.groupA.None? && s.groupB.None? && s.defined.None? && s.labelMin.None? && s.labelMax.None? &&
            !s.isLoading && s.multiplier == 1000000000
  {
  }

  /** loadQueryParams raises the loading flag and changes nothing else. */
  lemma LoadQueryParamsOnlyLoading(s: ThresholdState)
    ensures var r := Reduce(s, LoadQueryParams);
            r.isLoading && r.groupA == s.groupA && r.groupB == s.groupB && r.defined == s.defined &&
            r.multiplier == s.multiplier && r.labelMin == s.labelMin && r.labelMax == s.labelMax
  {
  }

  /** loadDataSuccess stores both ranges, clears the loading flag, and labels
      the larger of the two maxima; defined, labelMin and multiplier stay. */
  lemma LoadDataSuccessEffect(s: ThresholdState, ta: Threshold, tb: Threshold)
    ensures var r := Reduce(s, LoadDataSuccess(ta, tb));
            && !r.isLoading && r.groupA == Some(ta) && r.groupB == Some(tb)
            && r.defined == s.defined && r.labelMin == s.labelMin && r.multiplier == s.multiplier
            && r.labelMax.Some?
            && var top := NumberText.ParseInt(r.labelMax.value);
               top >= ta.max && top >= tb.max && (top == ta.max || top == tb.max)
  {
    NumberText.IntToStringRoundTrip(MaxInt(ta.max, tb.max));
  }

  /** setDefined and hydrateThresholdSuccess have the same effect: the value
      is stored and labelled with its own text; nothing else changes. */
  lemma SetDefinedLikeHydrate(s: ThresholdState, d: int)
    ensures Reduce(s, SetDefined(d)) == Reduce(s, HydrateThresholdSuccess(d))
    ensures var r := Reduce(s, SetDefined(d));
            r.defined == Some(d) && r.labelMin.Some? && NumberText.ParseInt(r.labelMin.value) == d &&
            r.groupA == s.groupA && r.groupB == s.groupB && r.isLoading == s.isLoading &&
            r.multiplier == s.multiplier && r.labelMax == s.labelMax
  {
    NumberText.IntToStringRoundTrip(d);
  }

  /** setLabelMin has no handler here: the state is unchanged. */
  lemma SetLabelMinIgnored(s: ThresholdState, text: string)
    ensures Reduce(s, SetLabelMin(text)) == s
  {
  }

  /** Every action gives the same state when applied a second time. */
  lemma ReduceIdempotent(s: ThresholdState, a: Action)
    ensures Reduce(Reduce(s, a), a) == Reduce(s, a)
  {
  }

  /** No action changes the multiplier, so every reachable state keeps 10^9. */
  lemma {:induction false} MultiplierInvariant(s: ThresholdState, actions: seq<Action>)
    ensures ReduceAll(s, actions).multiplier == s.multiplier
    decreases |actions|
  {
    if actions != [] {
      MultiplierInvariant(Reduce(s, actions[0]), actions[1..]);
    }
  }

  /** Once defined, a threshold stays defined and always carries its own text as label. */
  lemma {:induction false} LabelTracksDefined(s: ThresholdState, actions: seq<Action>)
    requires s.defined.Some? ==> s.labelMin == Some(NumberText.IntToString(s.defined.value))
    ensures var r := ReduceAll(s, actions);
            (r.defined.Some? ==> r.labelMin == Some(NumberText.IntToString(r.defined.value))) &&
            (s.defined.Some? ==> r.defined.Some?)
    decreases |actions|
  {
    if actions != [] {
      LabelTracksDefined(Reduce(s, actions[0]), actions[1..]);
    }
  }
}
