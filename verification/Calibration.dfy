/**
  The calibration table of a weighing channel: points of weight, raw value and slope, changed by the
  zero, gain, zero-correction and maximum-load commands. Slopes are real numbers here.
 */
module Calibration {
  const RC_OK := 0
  const PARAM_ERROR := -2
  const SYSTEM_NOT_CONFIGURATION := -5
  const NO_IN_SERVICE_MODE := -6
  const EXECUTION_SEQUENCE_ERROR := -7
  const CHANNEL_ERROR := -9

  /** A quotient of the C code; a zero divisor gives no number. */
  datatype Ratio = Number(value: real) | Undefined

  datatype Section = Section(raw: int, weight: int, ratio: Ratio)

  /** The fields of Channel_t that the commands use. */
  datatype State = State(rawData: bool, zero: int, diff: int, max: int, sections: seq<Section>)

  // ---- what the commands compute ----

  function Slope(a: Section, b: Section): Ratio {
    if a.raw == b.raw then Undefined else Number((b.weight - a.weight) as real / (b.raw - a.raw) as real)
  }

  /** The slope from the point to the next; the last point has the slope of the one before it. */
  function RatioAt(s: seq<Section>, i: nat): Ratio
    requires i < |s|
  {
    if i + 1 < |s| then Slope(s[i], s[i + 1]) else if i > 0 then Slope(s[i - 1], s[i]) else s[i].ratio
  }

  function Recalculated(s: seq<Section>): (r: seq<Section>)
    ensures |r| == |s|
    ensures forall i :: 0 <= i < |s| ==> r[i] == s[i].(ratio := RatioAt(s, i))
  {
    seq(|s|, i requires 0 <= i < |s| => s[i].(ratio := RatioAt(s, i)))
  }

  /** The point of the weight is replaced, or added in front of the first greater weight. */
  function Inserted(s: seq<Section>, raw: int, weight: int): seq<Section> {
    if s == [] then [Section(raw, weight, Number(0.0))]
    else if s[0].weight < weight then [s[0]] + Inserted(s[1..], raw, weight)
    else if s[0].weight == weight then [s[0].(raw := raw)] + s[1..]
    else [Section(raw, weight, Number(0.0))] + s
  }

  function Shifted(s: seq<Section>, diff: int): (r: seq<Section>)
    ensures |r| == |s|
  {
    seq(|s|, i requires 0 <= i < |s| => s[i].(raw := s[i].raw - diff))
  }

  /** The points whose raw value is not above the maximum weight, in their order. */
  function AtMost(s: seq<Section>, max: int): seq<Section> {
    if s == [] then [] else AtMost(s[..|s| - 1], max) + if max < s[|s| - 1].raw then [] else [s[|s| - 1]]
  }

  datatype Command = Zero(v: int) | Correction(v: int) | Gain(raw: int, weight: int) | Maximum(max: int)

  /** The command on its channel, past the checks of the system flags: new state and return code. */
  function Apply(st: State, c: Command): (State, int) {
    match c
    case Zero(v) =>
      if st.rawData then (st.(zero := v, diff := 0, sections := [Section(v, 0, Number(0.0))]), RC_OK) else (st, RC_OK)
    case Correction(v) =>
      if !st.rawData then (st, RC_OK)
      else if st.zero == -1 then (st, EXECUTION_SEQUENCE_ERROR)
      else (st.(diff := st.zero - v, zero := v, sections := Shifted(st.sections, st.zero - v)), RC_OK)
    case Gain(raw, weight) =>
      if !st.rawData then (st, RC_OK)
      else if st.zero == -1 then (st, EXECUTION_SEQUENCE_ERROR)
      else if weight > st.max then (st, PARAM_ERROR)
      else
        var s := Recalculated(Inserted(st.sections, raw, weight));
        (st.(sections := s), |s|)
    case Maximum(max) =>
      (st.(max := max, sections := if st.rawData then AtMost(st.sections, max) else st.sections), RC_OK)
  }

  // ---- the classes ----

  class Channel {
    const id: int
    var rawData: bool
    var zeroCalibrationValue: int
    var diffZeroValue: int
    var maxWeightValue: int
    var linearSections: seq<Section>

    constructor (id: int, rawData: bool, zero: int, max: int)
      ensures this.id == id && Value() == State(rawData, zero, 0, max, [])
    {
      this.id, this.rawData, zeroCalibrationValue, diffZeroValue, maxWeightValue := id, rawData, zero, 0, max;
      linearSections := [];
    }

    function Value(): State
      reads this
    {
      State(rawData, zeroCalibrationValue, diffZeroValue, maxWeightValue, linearSections)
    }

    method InitLinearSections()
      modifies this`linearSections
      ensures linearSections == [Section(zeroCalibrationValue, 0, Number(0.0))]
    {
      linearSections := if linearSections == [] then [Section(0, 0, Number(0.0))] else linearSections[..1];
      linearSections := linearSections[0 := linearSections[0].(raw := zeroCalibrationValue)];
      linearSections := linearSections[0 := linearSections[0].(weight := 0)];
      linearSections := linearSections[0 := linearSections[0].(ratio := Number(0.0))];
    }

    method CorrectionZeroLinearSections()
      modifies this`linearSections
      ensures linearSections == Shifted(old(linearSections), diffZeroValue)
    {
      ghost var s := linearSections;
      for i := 0 to |linearSections|
        invariant |linearSections| == |s|
        invariant forall j :: 0 <= j < i ==> linearSections[j] == Shifted(s, diffZeroValue)[j]
        invariant forall j :: i <= j < |s| ==> linearSections[j] == s[j]
      {
        linearSections := linearSections[i := linearSections[i].(raw := linearSections[i].raw - diffZeroValue)];
      }
    }

    method CalcLinearRatio()
      modifies this`linearSections
      ensures linearSections == Recalculated(old(linearSections))
    {
      ghost var s := linearSections;
      for i := 0 to |linearSections|
        invariant |linearSections| == |s|
        invariant forall j :: 0 <= j < i ==> linearSections[j] == Recalculated(s)[j]
        invariant forall j :: i <= j < |s| ==> linearSections[j] == s[j]
      {
        if i + 1 < |linearSections| {
          var ratio := Slope(linearSections[i], linearSections[i + 1]);
          linearSections := linearSections[i := linearSections[i].(ratio := ratio)];
        } else if i > 0 {
          linearSections := linearSections[i := linearSections[i].(ratio := linearSections[i - 1].ratio)];
        }
      }
    }

    method SetCalibrationGane(raw: int, weight: int) returns (rc: int)
      modifies this`linearSections
      ensures linearSections == Recalculated(Inserted(old(linearSections), raw, weight)) && rc == |linearSections|
    {
      hide Recalculated, Inserted;
      ghost var s := linearSections;
      assert s[0..] == s && s[..0] == [];
      for i := 0 to |linearSections|
        invariant linearSections == s && Inserted(s, raw, weight) == s[..i] + Inserted(s[i..], raw, weight)
      {
        InsertedNext(s, raw, weight, i);
        if linearSections[i].weight < weight {
          continue;
        }
        if linearSections[i].weight == weight {
          linearSections := linearSections[i := linearSections[i].(raw := raw)];
          assert linearSections == s[..i] + ([s[i].(raw := raw)] + s[i + 1..]);
          CalcLinearRatio();
          return |linearSections|;
        }
        linearSections := linearSections[..i] + [Section(raw, weight, Number(0.0))] + linearSections[i..];
        assert linearSections == s[..i] + ([Section(raw, weight, Number(0.0))] + s[i..]);
        CalcLinearRatio();
        return |linearSections|;
      }
      assert s[..|s|] == s && s[|s|..] == [];
      InsertedAtEnd(raw, weight);
      linearSections := linearSections + [Section(raw, weight, Number(0.0))];
      CalcLinearRatio();
      rc := |linearSections|;
    }

    method EraseAbove()
      modifies this`linearSections
      ensures linearSections == AtMost(old(linearSections), maxWeightValue)
    {
      ghost var s := linearSections;
      var i := |linearSections| - 1;
      assert s[..|s|] == s;
      while i >= 0
        invariant -1 <= i < |s| && i < |linearSections| && linearSections[..i + 1] == s[..i + 1]
        invariant AtMost(s[..i + 1], maxWeightValue) + linearSections[i + 1..] == AtMost(s, maxWeightValue)
        decreases i
      {
        ghost var rest := linearSections[i + 1..];
        assert s[..i + 1][..i] == s[..i] && s[..i + 1][i] == s[i] == linearSections[i];
        if maxWeightValue < linearSections[i].raw {
          linearSections := linearSections[..i] + linearSections[i + 1..];
          assert linearSections[i..] == rest;
        } else {
          assert linearSections[i..] == [s[i]] + rest;
        }
        assert linearSections[..i] == s[..i];
        i := i - 1;
      }
    }

    /** The command handlers of the channel. */
    method Perform(c: Command) returns (rc: int)
      modifies this
      ensures (Value(), rc) == Apply(old(Value()), c)
    {
      hide Recalculated, Inserted, Shifted, AtMost;
      rc := RC_OK;
      match c
      case Zero(v) =>
        if rawData {
          zeroCalibrationValue := v;
          diffZeroValue := 0;
          InitLinearSections();
        }
      case Correction(v) =>
        if rawData {
          if zeroCalibrationValue == -1 {
            return EXECUTION_SEQUENCE_ERROR;
          }
          diffZeroValue := zeroCalibrationValue - v;
          zeroCalibrationValue := v;
          CorrectionZeroLinearSections();
        }
      case Gain(raw, weight) =>
        if rawData {
          if zeroCalibrationValue == -1 {
            return EXECUTION_SEQUENCE_ERROR;
          }
          if weight > maxWeightValue {
            return PARAM_ERROR;
          }
          rc := SetCalibrationGane(raw, weight);
        }
      case Maximum(max) =>
        maxWeightValue := max;
        if rawData {
          EraseAbove();
        }
    }
  }

  lemma InsertedAtEnd(raw: int, weight: int)
    ensures Inserted([], raw, weight) == [Section(raw, weight, Number(0.0))]
  {}

  lemma InsertedNext(s: seq<Section>, raw: int, weight: int, i: nat)
    requires i < |s|
    ensures s[i].weight < weight ==>
              s[..i] + Inserted(s[i..], raw, weight) == s[..i + 1] + Inserted(s[i + 1..], raw, weight)
    ensures s[i].weight == weight ==> Inserted(s[i..], raw, weight) == [s[i].(raw := raw)] + s[i + 1..]
    ensures s[i].weight > weight ==> Inserted(s[i..], raw, weight) == [Section(raw, weight, Number(0.0))] + s[i..]
  {
    assert s[i..][0] == s[i] && s[i..][1..] == s[i + 1..];
    assert s[..i + 1] == s[..i] + [s[i]];
  }
}
