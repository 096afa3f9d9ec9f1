/** Whole runs of calibration commands over a configuration of channels. */
module CalibrationRuns {
  import opened Calibration

  // ---- the configuration ----

  datatype Config = Config(ready: bool, service: bool, ids: seq<int>, states: seq<State>)

  /** The first channel with the number, or -1. */
  function IndexOf(ids: seq<int>, channel: int): (i: int)
    ensures -1 <= i < |ids|
    ensures i >= 0 ==> ids[i] == channel && channel !in ids[..i]
    ensures i == -1 ==> channel !in ids
  {
    if ids == [] then -1
    else if ids[0] == channel then 0
    else
      var i := IndexOf(ids[1..], channel);
      if i == -1 then -1 else i + 1
  }

  datatype Request = Request(channel: int, command: Command)

  /** The checks of the handlers, and the command on the channel. */
  function Dispatch(cfg: Config, r: Request): (Config, int)
    requires |cfg.ids| == |cfg.states|
  {
    var i := IndexOf(cfg.ids, r.channel);
    if !cfg.ready then (cfg, SYSTEM_NOT_CONFIGURATION)
    else if !r.command.Maximum? && !cfg.service then (cfg, NO_IN_SERVICE_MODE)
    else if i == -1 then (cfg, if r.command.Zero? || r.command.Correction? then PARAM_ERROR else CHANNEL_ERROR)
    else
      var a := Apply(cfg.states[i], r.command);
      (cfg.(states := cfg.states[i := a.0]), a.1)
  }

  class System {
    var ready: bool
    var service: bool
    var channels: seq<Channel>

    constructor (ready: bool, service: bool, channels: seq<Channel>)
      requires forall i, j :: 0 <= i < j < |channels| ==> channels[i] != channels[j]
      ensures Valid() && this.ready == ready && this.service == service && this.channels == channels
    {
      this.ready, this.service, this.channels := ready, service, channels;
    }

    ghost predicate Valid()
      reads this
    {
      forall i, j :: 0 <= i < j < |channels| ==> channels[i] != channels[j]
    }

    ghost function Value(): Config
      reads this, channels
    {
      Config(ready, service, seq(|channels|, i requires 0 <= i < |channels| reads this => channels[i].id),
             seq(|channels|, i requires 0 <= i < |channels| reads this, channels => channels[i].Value()))
    }

    method GetIdxChannel(channel: int) returns (idx: int)
      ensures idx == IndexOf(Value().ids, channel)
    {
      idx := -1;
      ghost var ids := Value().ids;
      assert ids[0..] == ids;
      var i := 0;
      while i < |channels|
        invariant 0 <= i <= |channels| && idx == -1 && channel !in ids[..i]
      {
        if channels[i].id == channel {
          idx := i;
          break;
        }
        assert ids[..i + 1] == ids[..i] + [ids[i]];
        i := i + 1;
      }
      assert ids[..|ids|] == ids;
      FirstIs(ids, channel, idx);
    }

    /** setCalibrateZero, setCalibrateZeroCorrection, setCalibrateGane and setMaximumChannel */
    method Handle(r: Request) returns (rc: int)
      requires Valid()
      modifies channels
      ensures Valid() && (Value(), rc) == Dispatch(old(Value()), r)
    {
      hide Apply;
      ghost var before := Value();
      if !ready {
        return SYSTEM_NOT_CONFIGURATION;
      }
      if !r.command.Maximum? && !service {
        return NO_IN_SERVICE_MODE;
      }
      var idx := GetIdxChannel(r.channel);
      if idx == -1 {
        return if r.command.Zero? || r.command.Correction? then PARAM_ERROR else CHANNEL_ERROR;
      }
      rc := channels[idx].Perform(r.command);
      assert Value().ids == before.ids;
      assert Value().states == before.states[idx := channels[idx].Value()];
    }
  }

  lemma {:induction false} FirstIs(ids: seq<int>, channel: int, i: int)
    requires -1 <= i < |ids| && (i == -1 ==> channel !in ids) && (i >= 0 ==> ids[i] == channel && channel !in ids[..i])
    ensures IndexOf(ids, channel) == i
    decreases |ids|
  {
    if i > 0 {
      assert ids[..i][0] == ids[0];
      assert forall j :: 0 <= j < i - 1 ==> ids[1..][j] == ids[..i][j + 1];
      FirstIs(ids[1..], channel, i - 1);
    } else if i == -1 && ids != [] {
      FirstIs(ids[1..], channel, -1);
    }
  }

  // ---- the maximum ----

  /** The positions of the points whose raw value is not above the maximum weight, in ascending order. */
  function Kept(s: seq<Section>, max: int): (k: seq<nat>)
    ensures forall i :: i in k <==> 0 <= i < |s| && s[i].raw <= max
    ensures forall t, u :: 0 <= t < u < |k| ==> k[t] < k[u]
  {
    if s == [] then []
    else
      var last := |s| - 1;
      var front := Kept(s[..last], max);
      assert forall t :: 0 <= t < |front| ==> front[t] in front;
      if max < s[last].raw then front else front + [last]
  }

  /**
    Setting the maximum removes exactly the points whose raw value is above it, whatever their weight; the
    others stay once each, in their order.
   */
  lemma {:induction false} MaximumFiltersRaw(s: seq<Section>, max: int)
    ensures var k := Kept(s, max);
            && (forall t :: 0 <= t < |k| ==> k[t] < |s|)
            && |AtMost(s, max)| == |k| && forall t :: 0 <= t < |k| ==> AtMost(s, max)[t] == s[k[t]]
    decreases |s|
  {
    var k := Kept(s, max);
    assert forall t :: 0 <= t < |k| ==> k[t] in k;
    if s == [] {
    } else {
      MaximumFiltersRaw(s[..|s| - 1], max);
    }
  }

  // ---- weights ----

  /** Weights strictly increase along the table. */
  ghost predicate Increasing(s: seq<Section>) {
    forall i, j :: 0 <= i < j < |s| ==> s[i].weight < s[j].weight
  }

  lemma {:induction false} InsertedMembers(s: seq<Section>, raw: int, weight: int)
    requires Increasing(s)
    ensures Increasing(Inserted(s, raw, weight))
    ensures forall i :: 0 <= i < |Inserted(s, raw, weight)| ==>
              Inserted(s, raw, weight)[i].weight == weight || exists j :: 0 <= j < |s| && s[j].weight == Inserted(s, raw, weight)[i].weight
    decreases |s|
  {
    if s == [] || s[0].weight >= weight {
    } else {
      InsertedMembers(s[1..], raw, weight);
      var r := Inserted(s[1..], raw, weight);
      forall i | 0 <= i < |r|
        ensures s[0].weight < r[i].weight && (r[i].weight == weight || exists j :: 0 <= j < |s| && s[j].weight == r[i].weight)
      {
        if r[i].weight != weight {
          var j :| 0 <= j < |s[1..]| && s[1..][j].weight == r[i].weight;
          assert s[j + 1].weight == r[i].weight;
        }
      }
    }
  }

  lemma AtMostIncreasing(s: seq<Section>, max: int)
    requires Increasing(s)
    ensures Increasing(AtMost(s, max))
  {
    hide AtMost, Kept;
    MaximumFiltersRaw(s, max);
  }

  /** Every command keeps the weights strictly increasing. */
  lemma IncreasingKept(st: State, c: Command)
    requires Increasing(st.sections)
    ensures Increasing(Apply(st, c).0.sections)
  {
    match c
    case Gain(raw, weight) => InsertedMembers(st.sections, raw, weight);
    case Maximum(max) => AtMostIncreasing(st.sections, max);
    case _ =>
  }

  /** A run of requests; the flags of the system stay as they are. */
  function Run(cfg: Config, rs: seq<Request>): Config
    requires |cfg.ids| == |cfg.states|
    decreases |rs|
  {
    if rs == [] then cfg else Run(Dispatch(cfg, rs[0]).0, rs[1..])
  }

  ghost predicate AllIncreasing(cfg: Config) {
    forall i :: 0 <= i < |cfg.states| ==> Increasing(cfg.states[i].sections)
  }

  /** In every run, from tables as they are at the start or after a zero calibration, all tables stay sorted. */
  lemma {:induction false} RunIncreasing(cfg: Config, rs: seq<Request>)
    requires |cfg.ids| == |cfg.states| && AllIncreasing(cfg)
    ensures AllIncreasing(Run(cfg, rs))
    decreases |rs|
  {
    hide Apply, Increasing;
    if rs == [] {
    } else {
      var i := IndexOf(cfg.ids, rs[0].channel);
      if i >= 0 {
        IncreasingKept(cfg.states[i], rs[0].command);
      }
      RunIncreasing(Dispatch(cfg, rs[0]).0, rs[1..]);
    }
  }

  // ---- each channel for itself ----

  /** A run of commands on one channel. */
  function RunOne(st: State, cs: seq<Command>): State
    decreases |cs|
  {
    if cs == [] then st else RunOne(Apply(st, cs[0]).0, cs[1..])
  }

  /** The flags let the request through to its channel. */
  predicate Admitted(ready: bool, service: bool, c: Command) {
    ready && (service || c.Maximum?)
  }

  /** The commands of a run of requests that get through to the channel with the number. */
  function CommandsFor(ready: bool, service: bool, number: int, rs: seq<Request>): seq<Command> {
    if rs == [] then []
    else
      (if rs[0].channel == number && Admitted(ready, service, rs[0].command) then [rs[0].command] else [])
      + CommandsFor(ready, service, number, rs[1..])
  }

  /**
    After any run of requests, the first channel with a number is where just the commands for this number
    lead it; another one with the same number stays as it was. Flags and numbers never change.
   */
  lemma {:induction false} RunPerChannel(cfg: Config, rs: seq<Request>, j: nat)
    requires j < |cfg.ids| == |cfg.states|
    ensures var r := Run(cfg, rs);
            && r.ready == cfg.ready && r.service == cfg.service && r.ids == cfg.ids && |r.states| == |cfg.states|
            && r.states[j] == if cfg.ids[j] in cfg.ids[..j] then cfg.states[j]
                              else RunOne(cfg.states[j], CommandsFor(cfg.ready, cfg.service, cfg.ids[j], rs))
    decreases |rs|
  {
    hide Apply;
    if rs == [] {
    } else {
      var next := Dispatch(cfg, rs[0]).0;
      RunPerChannel(next, rs[1..], j);
      OnlyFirst(cfg.ids, rs[0].channel, j);
      var tail := CommandsFor(cfg.ready, cfg.service, cfg.ids[j], rs[1..]);
      assert ([rs[0].command] + tail)[1..] == tail && [] + tail == tail;
    }
  }

  /** The index of a number is that of the first channel with it. */
  lemma OnlyFirst(ids: seq<int>, channel: int, j: nat)
    requires j < |ids|
    ensures IndexOf(ids, channel) == j <==> ids[j] == channel && ids[j] !in ids[..j]
  {
    if ids[j] == channel && ids[j] !in ids[..j] {
      FirstIs(ids, channel, j);
    }
  }

  /** The point at which the codes of the channel itself begin: the first channel with the number, past the flags. */
  predicate Reaches(cfg: Config, r: Request, j: nat)
    requires j < |cfg.ids|
  {
    Admitted(cfg.ready, cfg.service, r.command) && cfg.ids[j] == r.channel && r.channel !in cfg.ids[..j]
  }

  /** What a request for a channel that is not there is told, and one that the flags hold back. */
  lemma HeldBack(cfg: Config, r: Request)
    requires |cfg.ids| == |cfg.states|
    ensures var d := Dispatch(cfg, r);
            && (d.1 == SYSTEM_NOT_CONFIGURATION <==> !cfg.ready)
            && (d.1 == NO_IN_SERVICE_MODE <==> cfg.ready && !cfg.service && !r.command.Maximum?)
            && (d.1 == CHANNEL_ERROR <==>
                  Admitted(cfg.ready, cfg.service, r.command) && r.channel !in cfg.ids && (r.command.Gain? || r.command.Maximum?))
            && (r.channel !in cfg.ids || !Admitted(cfg.ready, cfg.service, r.command) ==> d.0 == cfg)
            && (r.channel !in cfg.ids && Admitted(cfg.ready, cfg.service, r.command) && (r.command.Zero? || r.command.Correction?) ==>
                  d.1 == PARAM_ERROR)
  {
    ChannelCodes(cfg, r);
  }

  lemma ChannelCodes(cfg: Config, r: Request)
    requires |cfg.ids| == |cfg.states|
    ensures forall i :: 0 <= i < |cfg.states| ==>
              Apply(cfg.states[i], r.command).1 !in {SYSTEM_NOT_CONFIGURATION, NO_IN_SERVICE_MODE, CHANNEL_ERROR}
  {
    hide Recalculated, Inserted, Shifted, AtMost;
  }

  /** What a request that reaches its channel is told, and exactly when. */
  lemma ReachedCodes(cfg: Config, r: Request, j: nat)
    requires j < |cfg.ids| == |cfg.states| && Reaches(cfg, r, j)
    ensures var st, code, gain := cfg.states[j], Dispatch(cfg, r).1, r.command.Gain?;
            && (code == EXECUTION_SEQUENCE_ERROR <==> st.rawData && st.zero == -1 && (gain || r.command.Correction?))
            && (code == PARAM_ERROR <==> st.rawData && st.zero != -1 && gain && r.command.weight > st.max)
            && (code > 0 <==> st.rawData && st.zero != -1 && gain && r.command.weight <= st.max)
            && (code > 0 ==> code == |Dispatch(cfg, r).0.states[j].sections|)
            && (code != EXECUTION_SEQUENCE_ERROR && code != PARAM_ERROR && code <= 0 ==> code == RC_OK)
  {
    OnlyFirst(cfg.ids, r.channel, j);
    hide Inserted, Shifted, AtMost;
    if r.command.Gain? {
      InsertedSome(cfg.states[j].sections, r.command.raw, r.command.weight);
    }
  }

  lemma InsertedSome(s: seq<Section>, raw: int, weight: int)
    ensures |Inserted(s, raw, weight)| > 0
  {}

  /** What a channel is after a zero calibration, whatever it was; without raw data only a new maximum changes it. */
  lemma ZeroStarts(st: State, v: int)
    ensures var r := Apply(st, Zero(v)).0;
            && r.rawData == st.rawData && r.max == st.max
            && if st.rawData then r.zero == v && r.diff == 0 && |r.sections| == 1 && r.sections[0].raw == v && r.sections[0].weight == 0
               else r == st
    ensures forall c: Command :: !st.rawData && !c.Maximum? ==> Apply(st, c).0 == st
    ensures forall max :: Apply(st, Maximum(max)).0.max == max && Apply(st, Maximum(max)).0.zero == st.zero
  {}

  /** A zero correction that is accepted keeps the value and its distance from the one before. */
  lemma CorrectionTaken(st: State, v: int)
    requires st.rawData && st.zero != -1
    ensures var r := Apply(st, Correction(v)).0; r.zero == v && r.diff == st.zero - v && r.max == st.max
  {}

  // ---- the table as a map ----

  /** What raw value each calibrated weight has. */
  ghost function Table(s: seq<Section>): map<int, int>
    requires Increasing(s)
  {
    map i | 0 <= i < |s| :: s[i].weight := s[i].raw
  }

  lemma TableHead(s: seq<Section>)
    requires Increasing(s) && s != []
    ensures Table(s) == Table(s[1..])[s[0].weight := s[0].raw] && s[0].weight !in Table(s[1..])
  {
    assert forall i :: 1 <= i < |s| ==> s[i] == s[1..][i - 1];
    assert forall w :: w in Table(s) ==> w == s[0].weight || w in Table(s[1..]);
  }

  lemma {:induction false} InsertedTable(s: seq<Section>, raw: int, weight: int)
    requires Increasing(s)
    ensures Increasing(Inserted(s, raw, weight)) && Table(Inserted(s, raw, weight)) == Table(s)[weight := raw]
    decreases |s|
  {
    hide Table;
    InsertedMembers(s, raw, weight);
    var r := Inserted(s, raw, weight);
    TableHead(r);
    if s == [] {
      EmptyTable();
      assert r[1..] == [];
    } else {
      TableHead(s);
      if s[0].weight < weight {
        InsertedTable(s[1..], raw, weight);
        assert r[1..] == Inserted(s[1..], raw, weight);
      } else if s[0].weight == weight {
        assert r[1..] == s[1..];
      } else {
        assert r[1..] == s;
      }
    }
  }

  lemma EmptyTable()
    ensures Increasing([]) && Table([]) == map[]
  {}

  lemma RecalculatedTable(s: seq<Section>)
    requires Increasing(s)
    ensures Increasing(Recalculated(s)) && Table(Recalculated(s)) == Table(s)
  {}

  /** An accepted gain calibration is an update of the map, and a refused one changes nothing. */
  lemma GainIsMapUpdate(st: State, raw: int, weight: int)
    requires Increasing(st.sections)
    ensures var r := Apply(st, Gain(raw, weight));
            && Increasing(r.0.sections)
            && Table(r.0.sections) == (if st.rawData && st.zero != -1 && weight <= st.max
                                       then Table(st.sections)[weight := raw] else Table(st.sections))
            && r.0.zero == st.zero && r.0.max == st.max
  {
    InsertedTable(st.sections, raw, weight);
    RecalculatedTable(Inserted(st.sections, raw, weight));
  }

  // ---- zero corrections ----

  /** The distance of every point from the zero. */
  function Offsets(st: State): seq<int> {
    seq(|st.sections|, i requires 0 <= i < |st.sections| => st.sections[i].raw - st.zero)
  }

  /** Zero corrections to the given values, one after the other. */
  function Corrections(vs: seq<int>): seq<Command> {
    seq(|vs|, i requires 0 <= i < |vs| => Correction(vs[i]))
  }

  lemma CorrectionsNext(st: State, vs: seq<int>)
    requires vs != []
    ensures RunOne(st, Corrections(vs)) == RunOne(Apply(st, Correction(vs[0])).0, Corrections(vs[1..]))
  {
    hide Apply;
    assert Corrections(vs)[1..] == Corrections(vs[1..]);
  }

  lemma CorrectionMoves(st: State, v: int)
    ensures var r := Apply(st, Correction(v)).0;
            Offsets(r) == Offsets(st) && r.rawData == st.rawData && |r.sections| == |st.sections|
            && forall i :: 0 <= i < |st.sections| ==>
                 r.sections[i].weight == st.sections[i].weight && r.sections[i].ratio == st.sections[i].ratio
  {}

  /** Consecutive zero corrections telescope: no point moves against the zero, and nothing else moves. */
  lemma {:induction false} CorrectionsTelescope(st: State, vs: seq<int>)
    ensures var r := RunOne(st, Corrections(vs));
            Offsets(r) == Offsets(st) && |r.sections| == |st.sections|
            && forall i :: 0 <= i < |st.sections| ==>
                 r.sections[i].weight == st.sections[i].weight && r.sections[i].ratio == st.sections[i].ratio
    decreases |vs|
  {
    if vs == [] {
    } else {
      CorrectionsNext(st, vs);
      CorrectionMoves(st, vs[0]);
      CorrectionsTelescope(Apply(st, Correction(vs[0])).0, vs[1..]);
    }
  }

  /**
    The value -1 stands for "no zero yet": after a correction to it, no zero correction and no gain
    calibration changes the channel any more, in any order.
   */
  lemma {:induction false} StuckAtMinusOne(st: State, cs: seq<Command>)
    requires st.rawData && st.zero == -1 && forall c :: c in cs ==> c.Correction? || c.Gain?
    ensures RunOne(st, cs) == st
    decreases |cs|
  {
    if cs == [] {
    } else {
      assert cs[0] in cs;
      StuckAtMinusOne(st, cs[1..]);
    }
  }

  /** Corrections end where the last one alone would lead, unless one before it was to -1. */
  lemma {:induction false} CorrectionsEnd(st: State, vs: seq<int>)
    requires st.rawData && st.zero != -1 && vs != []
    ensures var last := vs[|vs| - 1];
            RunOne(st, Corrections(vs)).zero == last <==> last == -1 || -1 !in vs[..|vs| - 1]
    decreases |vs|
  {
    var st1 := Apply(st, Correction(vs[0])).0;
    CorrectionsNext(st, vs);
    if vs[0] == -1 {
      StuckAtMinusOne(st1, Corrections(vs[1..]));
      if |vs| > 1 {
        assert vs[..|vs| - 1][0] == -1;
      }
    } else if |vs| > 1 {
      CorrectionsEnd(st1, vs[1..]);
      assert vs[..|vs| - 1] == [vs[0]] + vs[1..][..|vs| - 2];
    } else {
      assert Corrections(vs[1..]) == [];
    }
  }

  // ---- slopes ----

  /** Every slope is the one between its point and the next; the last point has the slope of the one before it. */
  ghost predicate Slopes(s: seq<Section>) {
    |s| >= 2 ==>
      && (forall i :: 0 <= i < |s| - 1 ==> s[i].ratio == Slope(s[i], s[i + 1]))
      && s[|s| - 1].ratio == Slope(s[|s| - 2], s[|s| - 1])
  }

  /** Between points with different raw values the slope is a number, and following it leads to the next point. */
  lemma SlopeExact(a: Section, b: Section)
    ensures Slope(a, b).Number? <==> a.raw != b.raw
    ensures Slope(a, b).Number? ==> a.weight as real + Slope(a, b).value * (b.raw - a.raw) as real == b.weight as real
  {}

  /** Every command but the one that sets the maximum keeps the slopes. */
  lemma SlopesKept(st: State, c: Command)
    requires Slopes(st.sections) && !c.Maximum?
    ensures Slopes(Apply(st, c).0.sections)
  {
    match c
    case Correction(v) => ShiftedSlopes(st.sections, st.zero - v);
    case Gain(raw, weight) => RecalculatedSlopes(Inserted(st.sections, raw, weight));
    case _ =>
  }

  lemma SameSlope(a: Section, b: Section, c: Section, d: Section)
    requires a.raw == c.raw && a.weight == c.weight && b.raw == d.raw && b.weight == d.weight
    ensures Slope(a, b) == Slope(c, d)
  {}

  lemma RecalculatedSlopes(s: seq<Section>)
    ensures Slopes(Recalculated(s))
  {
    hide Slope, Recalculated;
    var r := Recalculated(s);
    if |s| >= 2 {
      forall i | 0 <= i < |s| - 1 ensures r[i].ratio == Slope(r[i], r[i + 1]) {
        RecalculatedAt(s, i);
        SameSlope(r[i], r[i + 1], s[i], s[i + 1]);
      }
      RecalculatedAt(s, |s| - 1);
      SameSlope(r[|s| - 2], r[|s| - 1], s[|s| - 2], s[|s| - 1]);
    }
  }

  lemma RecalculatedAt(s: seq<Section>, i: nat)
    requires i < |s|
    ensures Recalculated(s)[i] == s[i].(ratio := RatioAt(s, i))
  {
    hide RatioAt;
  }

  lemma ShiftedSlopes(s: seq<Section>, diff: int)
    requires Slopes(s)
    ensures Slopes(Shifted(s, diff))
  {
    forall i | 0 <= i < |s| - 1 ensures Slope(Shifted(s, diff)[i], Shifted(s, diff)[i + 1]) == Slope(s[i], s[i + 1]) {}
  }

  /** After a zero calibration on a raw-data channel, any run without a new maximum keeps table and slopes right. */
  lemma {:induction false} RunFromZero(st: State, v: int, cs: seq<Command>)
    requires st.rawData && forall c :: c in cs ==> !c.Maximum?
    ensures var r := RunOne(Apply(st, Zero(v)).0, cs); Increasing(r.sections) && Slopes(r.sections)
  {
    RunKeepsIncreasing(Apply(st, Zero(v)).0, cs);
    RunKeepsSlopes(Apply(st, Zero(v)).0, cs);
  }

  lemma {:induction false} RunKeepsSlopes(st: State, cs: seq<Command>)
    requires Slopes(st.sections) && forall c :: c in cs ==> !c.Maximum?
    ensures Slopes(RunOne(st, cs).sections)
    decreases |cs|
  {
    hide Apply, Slopes;
    if cs == [] {
    } else {
      SlopesKept(st, cs[0]);
      RunKeepsSlopes(Apply(st, cs[0]).0, cs[1..]);
    }
  }

  lemma {:induction false} RunKeepsIncreasing(st: State, cs: seq<Command>)
    requires Increasing(st.sections)
    ensures Increasing(RunOne(st, cs).sections)
    decreases |cs|
  {
    hide Apply, Increasing;
    if cs == [] {
    } else {
      IncreasingKept(st, cs[0]);
      RunKeepsIncreasing(Apply(st, cs[0]).0, cs[1..]);
    }
  }

  // ---- the maximum and the slopes ----

  /**
    The table filtered by a maximum has the right slopes: two kept points that were no neighbours lie on one
    line with the point behind the first, and the last kept point, unless its slope is the old last one, has
    the slope of the one before it.
   */
  ghost predicate SlopesSurvive(s: seq<Section>, k: seq<nat>)
    requires forall t :: 0 <= t < |k| ==> k[t] < |s|
    requires forall t, u :: 0 <= t < u < |k| ==> k[t] < k[u]
  {
    var m := |k|;
    m < 2
    || ((forall t :: 0 <= t < m - 1 && k[t + 1] != k[t] + 1 ==>
           Slope(s[k[t]], s[k[t] + 1]) == Slope(s[k[t]], s[k[t + 1]]))
        && (k[m - 2] == |s| - 2 || s[k[m - 1]].ratio == Slope(s[k[m - 2]], s[k[m - 1]])))
  }

  /** Setting the maximum does not recompute slopes. For every table with right slopes, this is when they stay right. */
  lemma MaximumSlopes(s: seq<Section>, max: int)
    requires Slopes(s)
    ensures forall t :: 0 <= t < |Kept(s, max)| ==> Kept(s, max)[t] < |s|
    ensures Slopes(AtMost(s, max)) <==> SlopesSurvive(s, Kept(s, max))
  {
    hide Slope, AtMost, Kept;
    MaximumFiltersRaw(s, max);
  }

  /** An accepted gain calibration makes every slope right, whatever the table was, until the next new maximum. */
  lemma {:induction false} GainRepairsSlopes(st: State, raw: int, weight: int, cs: seq<Command>)
    requires st.rawData && st.zero != -1 && weight <= st.max && forall c :: c in cs ==> !c.Maximum?
    ensures Slopes(RunOne(Apply(st, Gain(raw, weight)).0, cs).sections)
  {
    RecalculatedSlopes(Inserted(st.sections, raw, weight));
    RunKeepsSlopes(Apply(st, Gain(raw, weight)).0, cs);
  }

  /**
    A table that requests can build, with raw values that do not increase, whose middle slope is the one
    to a point that is gone after the maximum is set.
   */
  lemma MaximumLeavesStaleSlope()
    ensures var st := RunOne(State(true, 0, 0, 100, []), [Zero(0), Gain(100, 10), Gain(50, 20), Maximum(60)]);
            st.sections == [Section(0, 0, Number(0.1)), Section(50, 20, Number(-0.2))] && !Slopes(st.sections)
  {
    var st0 := State(true, 0, 0, 100, [Section(0, 0, Number(0.0))]);
    var s1 := [Section(0, 0, Number(0.1)), Section(100, 10, Number(0.1))];
    var s2 := [Section(0, 0, Number(0.1)), Section(100, 10, Number(-0.2)), Section(50, 20, Number(-0.2))];
    var st1, st2 := st0.(sections := s1), st0.(sections := s2);
    assert Apply(State(true, 0, 0, 100, []), Zero(0)).0 == st0;
    assert Apply(st0, Gain(100, 10)).0 == st1;
    assert Apply(st1, Gain(50, 20)).0 == st2 by {
      assert s1[1..] == [s1[1]];
      assert Inserted(s1, 50, 20) == s1 + [Section(50, 20, Number(0.0))];
    }
    assert AtMost(s2, 60) == [s2[0], s2[2]] by {
      assert [s2[0]][..0] == [] && AtMost([s2[0]], 60) == [s2[0]];
      assert [s2[0], s2[1]][..1] == [s2[0]] && AtMost([s2[0], s2[1]], 60) == [s2[0]];
      assert s2[..2] == [s2[0], s2[1]];
    }
  }
}
