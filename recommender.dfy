/**
 * The rule-based recommender (recomendacao_ia): trailing 6 h and 24 h
 * windows, a recent efficiency, a pump-on baseline, and four threshold
 * rules evaluated in a fixed order that append messages and overwrite
 * the severity.
 */
module Recommender {
  import opened Telemetry

  datatype Severity = Success | Info | Warning | Error

  /** A recommendation: the rule that produced it and the values it cites. */
  datatype Message =
    | RainHold(rain24hMm: real)
    | HighDepth(depthCm: real)
    | LowDepth(depthCm: real)
    | EfficiencyDrop(recent: real, baseline: real)
    | WithinNorms

  /**
   * The historical pump-on efficiency. Below the row threshold there is
   * none; above it the energy sum is divided by the volume sum without a
   * guard, and a zero volume sum is kept as its own case.
   */
  datatype Baseline = TooFewPumpRows | ZeroPumpVolume | Rate(value: real)

  /** Everything the four rules read. */
  datatype Features = Features(
    rain24hMm: real,
    depthNowCm: real,
    recent: Option<real>,
    baseline: Baseline)

  datatype Rule = RainRule | HighDepthRule | LowDepthRule | EfficiencyRule

  const MinPumpRows: nat := 10
  const RainHoldMm: real := 10.0
  const HighDepthCm: real := 9.5
  const LowDepthCm: real := 6.0
  const EfficiencyTolerance: real := 1.15

  function BaselineOf(s: seq<Obs>): (b: Baseline)
    ensures b != TooFewPumpRows <==> PumpHours(s) > MinPumpRows
    ensures b == ZeroPumpVolume <==> PumpHours(s) > MinPumpRows && Total(PumpRows(s), Flow) == 0.0
    ensures b.Rate? ==> b.value * Total(PumpRows(s), Flow) == Total(PumpRows(s), Energy)
  {
    var on := PumpRows(s);
    PumpRowsCount(s);
    if |on| > MinPumpRows then
      var volume := Total(on, Flow);
      if volume == 0.0 then ZeroPumpVolume else Rate(Total(on, Energy) / volume)
    else TooFewPumpRows
  }

  /** The rule inputs of a series: rain of the last 24 h, the last row's depth, 6 h efficiency, baseline. */
  function FeaturesOf(s: seq<Obs>): (f: Features)
    requires |s| > 0
    ensures f.recent.Some? <==> Total(Trailing(s, RecentHours), Flow) > 0.0
    ensures f.recent.Some? ==>
      f.recent.value * Total(Trailing(s, RecentHours), Flow) == Total(Trailing(s, RecentHours), Energy)
  {
    var recent := Trailing(s, RecentHours);
    Features(
      Total(Trailing(s, DayHours), Rain),
      s[|s| - 1].depthCm,
      Ratio(Total(recent, Energy), Total(recent, Flow)),
      BaselineOf(s))
  }

  predicate Fires(f: Features, r: Rule)
  {
    match r
    case RainRule => f.rain24hMm >= RainHoldMm
    case HighDepthRule => f.depthNowCm >= HighDepthCm
    case LowDepthRule => f.depthNowCm <= LowDepthCm
    case EfficiencyRule =>
      f.recent.Some? && f.baseline.Rate? && f.recent.value > f.baseline.value * EfficiencyTolerance
  }

  /** Position of a rule in the evaluation order. */
  function Order(r: Rule): nat
  {
    match r
    case RainRule => 0
    case HighDepthRule => 1
    case LowDepthRule => 2
    case EfficiencyRule => 3
  }

  /** The message a fired rule appends, citing the values the rule compared. */
  function MessageOf(f: Features, r: Rule): (m: Message)
    requires Fires(f, r)
    ensures Position(m) == Order(r)
  {
    match r
    case RainRule => RainHold(f.rain24hMm)
    case HighDepthRule => HighDepth(f.depthNowCm)
    case LowDepthRule => LowDepth(f.depthNowCm)
    case EfficiencyRule => EfficiencyDrop(f.recent.value, f.baseline.value)
  }

  /** The severity a fired rule assigns. */
  function LevelOf(r: Rule): Severity
  {
    if r == LowDepthRule then Error else Warning
  }

  /** The position, in the evaluation order, of the rule behind a message; the fallback comes after all. */
  function Position(m: Message): nat
  {
    match m
    case RainHold(_) => 0
    case HighDepth(_) => 1
    case LowDepth(_) => 2
    case EfficiencyDrop(_, _) => 3
    case WithinNorms => 4
  }

  /** The rule at a position of the evaluation order. */
  function RuleAt(k: nat): (r: Rule)
    requires k < 4
    ensures Order(r) == k
  {
    if k == 0 then RainRule else if k == 1 then HighDepthRule else if k == 2 then LowDepthRule else EfficiencyRule
  }

  /** The rules from position k on that fire, in evaluation order. */
  function FiredFrom(f: Features, k: nat): seq<Rule>
    decreases 4 - k
  {
    if k >= 4 then []
    else (if Fires(f, RuleAt(k)) then [RuleAt(k)] else []) + FiredFrom(f, k + 1)
  }

  /** The rules that fire, in evaluation order. */
  function Fired(f: Features): seq<Rule>
  {
    FiredFrom(f, 0)
  }

  /** What rule k contributes to the message list: its message if it fires, else nothing. */
  function Appended(f: Features, k: nat): seq<Message>
    requires k < 4
  {
    if Fires(f, RuleAt(k)) then [MessageOf(f, RuleAt(k))] else []
  }

  /** What rule k makes of the severity so far: its own level if it fires, else the level unchanged. */
  function Overwritten(f: Features, k: nat, current: Severity): Severity
    requires k < 4
  {
    if Fires(f, RuleAt(k)) then LevelOf(RuleAt(k)) else current
  }

  /** The messages the rules from position k on append, in evaluation order. */
  function MessagesFrom(f: Features, k: nat): seq<Message>
    decreases 4 - k
  {
    if k >= 4 then []
    else Appended(f, k) + MessagesFrom(f, k + 1)
  }

  /** The severity after running the rules from position k on, starting from `current`: each firing rule overwrites it. */
  function LevelFrom(f: Features, k: nat, current: Severity): Severity
    decreases 4 - k
  {
    if k >= 4 then current
    else LevelFrom(f, k + 1, Overwritten(f, k, current))
  }

  /** The message list: the fired rules' messages, or the single fallback when none fired. */
  function Messages(f: Features): seq<Message>
  {
    if Fired(f) == [] then [WithinNorms] else MessagesFrom(f, 0)
  }

  /** The final severity: the last fired rule's, starting from info, or success when none fired. */
  function Level(f: Features): Severity
  {
    if Fired(f) == [] then Success else LevelFrom(f, 0, Info)
  }

  /**
   * The rule cascade: each fired rule appends its message and overwrites
   * the severity; the fallback applies when nothing was appended.
   */
  method ApplyRules(f: Features) returns (level: Severity, msgs: seq<Message>)
    ensures level == Level(f)
    ensures msgs == Messages(f)
  {
    msgs := [];
    level := Info;
    if f.rain24hMm >= RainHoldMm {
      msgs := msgs + [RainHold(f.rain24hMm)];
      level := Warning;
    }
    assert msgs == Appended(f, 0) && level == Overwritten(f, 0, Info);
    ghost var was := level;
    if f.depthNowCm >= HighDepthCm {
      msgs := msgs + [HighDepth(f.depthNowCm)];
      level := Warning;
    }
    assert msgs == Appended(f, 0) + Appended(f, 1) && level == Overwritten(f, 1, was);
    was := level;
    if f.depthNowCm <= LowDepthCm {
      msgs := msgs + [LowDepth(f.depthNowCm)];
      level := Error;
    }
    assert msgs == Appended(f, 0) + Appended(f, 1) + Appended(f, 2) && level == Overwritten(f, 2, was);
    was := level;
    if f.recent.Some? && f.baseline.Rate? {
      if f.recent.value > f.baseline.value * EfficiencyTolerance {
        msgs := msgs + [EfficiencyDrop(f.recent.value, f.baseline.value)];
        level := Warning;
      }
    }
    assert msgs == Appended(f, 0) + Appended(f, 1) + Appended(f, 2) + Appended(f, 3);
    assert level == Overwritten(f, 3, was);
    MessagesSteps(f);
    LevelSteps(f);
    MessagesFromCount(f, 0);
    if msgs == [] {
      msgs := [WithinNorms];
      level := Success;
    }
  }

  /**
   * The recommender: the trailing windows, the last row's depth, the
   * recent efficiency and the baseline, then the rule cascade over them.
   */
  method Recommend(s: seq<Obs>) returns (level: Severity, msgs: seq<Message>)
    requires |s| > 0
    ensures level == Level(FeaturesOf(s))
    ensures msgs == Messages(FeaturesOf(s))
  {
    level, msgs := ApplyRules(FeaturesOf(s));
  }

  // ---------------------------------------------------------------------
  // Properties of the rule cascade

  /** The severity after the four rules is the four overwrites applied in order to info. */
  lemma LevelSteps(f: Features)
    ensures LevelFrom(f, 0, Info) ==
      Overwritten(f, 3, Overwritten(f, 2, Overwritten(f, 1, Overwritten(f, 0, Info))))
  {

  }

  /** The messages of the four rules are their four contributions appended in order. */
  lemma MessagesSteps(f: Features)
    ensures MessagesFrom(f, 0) == Appended(f, 0) + Appended(f, 1) + Appended(f, 2) + Appended(f, 3)
  {

  }

  lemma {:induction false} FiredFromExactly(f: Features, k: nat)
    ensures forall r :: r in FiredFrom(f, k) <==> Fires(f, r) && Order(r) >= k
    ensures forall i :: 0 <= i < |FiredFrom(f, k)| ==> Order(FiredFrom(f, k)[i]) >= k
    ensures forall i, j :: 0 <= i < j < |FiredFrom(f, k)| ==> Order(FiredFrom(f, k)[i]) < Order(FiredFrom(f, k)[j])
    decreases 4 - k
  {
    if k < 4 {
      FiredFromExactly(f, k + 1);
      var rest := FiredFrom(f, k + 1);
      var here := if Fires(f, RuleAt(k)) then [RuleAt(k)] else [];
      assert FiredFrom(f, k) == here + rest;
      assert forall r :: Order(r) >= k <==> r == RuleAt(k) || Order(r) >= k + 1;
    }
  }

  /** A rule is among the fired ones exactly when its condition holds, and they come in evaluation order. */
  lemma FiredExactly(f: Features)
    ensures forall r :: r in Fired(f) <==> Fires(f, r)
    ensures forall i, j :: 0 <= i < j < |Fired(f)| ==> Order(Fired(f)[i]) < Order(Fired(f)[j])
  {
    FiredFromExactly(f, 0);
  }

  /** The rules from position k on contribute one message per fired rule. */
  lemma {:induction false} MessagesFromCount(f: Features, k: nat)
    ensures |MessagesFrom(f, k)| == |FiredFrom(f, k)|
    decreases 4 - k
  {
    if k < 4 {
      MessagesFromCount(f, k + 1);
    }
  }

  /** Each message from position k on cites a rule at or after k, in strictly increasing rule order. */
  lemma {:induction false} MessagesFromOrdered(f: Features, k: nat)
    ensures forall i :: 0 <= i < |MessagesFrom(f, k)| ==> k <= Position(MessagesFrom(f, k)[i]) < 4
    ensures forall i, j :: 0 <= i < j < |MessagesFrom(f, k)| ==>
      Position(MessagesFrom(f, k)[i]) < Position(MessagesFrom(f, k)[j])
    decreases 4 - k
  {
    if k < 4 {
      MessagesFromOrdered(f, k + 1);
      var rest := MessagesFrom(f, k + 1);
      var here := Appended(f, k);
      assert MessagesFrom(f, k) == here + rest;
      assert forall m :: m in here ==> Position(m) == k;
    }
  }

  /** From position k on, a rule's message is present exactly when the rule fires. */
  lemma {:induction false} MessagesFromExactly(f: Features, k: nat)
    ensures forall r :: Fires(f, r) && Order(r) >= k ==> MessageOf(f, r) in MessagesFrom(f, k)
    ensures forall i :: 0 <= i < |MessagesFrom(f, k)| ==>
      Position(MessagesFrom(f, k)[i]) < 4 && Fires(f, RuleAt(Position(MessagesFrom(f, k)[i])))
    decreases 4 - k
  {
    if k < 4 {
      MessagesFromExactly(f, k + 1);
      var rest := MessagesFrom(f, k + 1);
      var here := Appended(f, k);
      assert MessagesFrom(f, k) == here + rest;
      assert forall r :: Order(r) >= k ==> r == RuleAt(k) || Order(r) >= k + 1;
      assert forall m :: m in here ==> Position(m) == k;
    }
  }

  /** Some rule fired exactly when one of the four conditions holds. */
  lemma FiredEmptyIff(f: Features)
    ensures Fired(f) == [] <==>
      !(Fires(f, RainRule) || Fires(f, HighDepthRule) || Fires(f, LowDepthRule) || Fires(f, EfficiencyRule))
  {

  }

  /** The list is never empty: one message per fired rule, else only the fallback. */
  lemma MessagesCount(f: Features)
    ensures |Messages(f)| >= 1
    ensures |Messages(f)| == if Fired(f) == [] then 1 else |Fired(f)|
  {
    MessagesFromCount(f, 0);
  }

  /** The fallback message appears exactly when no rule fired, and is then the only message. */
  lemma FallbackExactlyWhenNoneFired(f: Features)
    ensures WithinNorms in Messages(f) <==> Fired(f) == []
    ensures Fired(f) == [] <==> Messages(f) == [WithinNorms]
  {
    MessagesFromOrdered(f, 0);
    var ms := MessagesFrom(f, 0);
    assert forall i :: 0 <= i < |ms| ==> ms[i] != WithinNorms;
  }

  /** A fired rule's message is in the list. */
  lemma FiredRuleHasMessage(f: Features, r: Rule)
    requires Fires(f, r)
    ensures MessageOf(f, r) in Messages(f)
  {
    FiredEmptyIff(f);
    MessagesFromExactly(f, 0);
  }

  /** A message citing a rule is in the list only when that rule fired. */
  lemma MessageOnlyWhenFired(f: Features, i: nat)
    requires i < |Messages(f)| && Messages(f)[i] != WithinNorms
    ensures Position(Messages(f)[i]) < 4 && Fires(f, RuleAt(Position(Messages(f)[i])))
  {
    MessagesFromExactly(f, 0);
  }

  /** Messages appear in rule order: rain, high depth, low depth, efficiency. */
  lemma MessagesInRuleOrder(f: Features)
    ensures forall i, j :: 0 <= i < j < |Messages(f)| ==> Position(Messages(f)[i]) < Position(Messages(f)[j])
  {
    MessagesFromOrdered(f, 0);
  }

  /** The messages of the four rules, checked one after the other. */
  lemma MessagesUnfolded(f: Features)
    ensures MessagesFrom(f, 0) ==
      (if Fires(f, RainRule) then [RainHold(f.rain24hMm)] else [])
      + (if Fires(f, HighDepthRule) then [HighDepth(f.depthNowCm)] else [])
      + (if Fires(f, LowDepthRule) then [LowDepth(f.depthNowCm)] else [])
      + (if Fires(f, EfficiencyRule) then [EfficiencyDrop(f.recent.value, f.baseline.value)] else [])
  {

  }

  /** Running the four rules from info overwrites the severity in order, so the last firing rule decides. */
  lemma LevelUnfolded(f: Features)
    ensures LevelFrom(f, 0, Info) ==
      if Fires(f, EfficiencyRule) then Warning
      else if Fires(f, LowDepthRule) then Error
      else if Fires(f, HighDepthRule) || Fires(f, RainRule) then Warning
      else Info
  {

  }

  /**
   * The final severity: never the initial info; success exactly when no rule
   * fired; error exactly when the low-depth rule fired and the efficiency
   * rule did not; warning otherwise.
   */
  lemma LevelIsLastFired(f: Features)
    ensures Level(f) != Info
    ensures Level(f) == Success <==> Fired(f) == []
    ensures Level(f) == Error <==> Fires(f, LowDepthRule) && !Fires(f, EfficiencyRule)
    ensures Level(f) == Warning <==>
      (Fires(f, RainRule) || Fires(f, HighDepthRule) || Fires(f, EfficiencyRule))
      && !(Fires(f, LowDepthRule) && !Fires(f, EfficiencyRule))
  {
    FiredEmptyIff(f);
    LevelUnfolded(f);
  }

  /** The high-depth and low-depth rules never fire together. */
  lemma DepthRulesExclusive(f: Features)
    ensures !(Fires(f, HighDepthRule) && Fires(f, LowDepthRule))
    ensures !(HighDepth(f.depthNowCm) in Messages(f) && LowDepth(f.depthNowCm) in Messages(f))
  {
    var ms := Messages(f);
    if HighDepth(f.depthNowCm) in ms {
      var i :| 0 <= i < |ms| && ms[i] == HighDepth(f.depthNowCm);
      MessageOnlyWhenFired(f, i);
    }
  }

  /**
   * Severity is overwritten, not raised: a low depth with an efficiency
   * breach ends in a warning, since the efficiency rule runs last.
   */
  lemma LowDepthThenEfficiencyIsWarning(f: Features)
    requires Fires(f, LowDepthRule) && Fires(f, EfficiencyRule)
    ensures !Fires(f, HighDepthRule)
    ensures Messages(f)[|Messages(f)| - 2] == LowDepth(f.depthNowCm)
    ensures Messages(f)[|Messages(f)| - 1] == EfficiencyDrop(f.recent.value, f.baseline.value)
    ensures Level(f) == Warning
  {
    MessagesUnfolded(f);
    FiredEmptyIff(f);
    LevelUnfolded(f);
  }

  /** Rain and high depth together give exactly their two messages and a warning. */
  lemma RainAndHighDepth(f: Features)
    requires Fires(f, RainRule) && Fires(f, HighDepthRule) && !Fires(f, EfficiencyRule)
    ensures Messages(f) == [RainHold(f.rain24hMm), HighDepth(f.depthNowCm)]
    ensures Level(f) == Warning
  {
    MessagesUnfolded(f);
    FiredEmptyIff(f);
    LevelUnfolded(f);
  }

  /** Heavy rain with a depth inside (6.0, 9.5) and no efficiency breach: only the rain message. */
  lemma RainOnly(f: Features)
    requires f.rain24hMm >= RainHoldMm && LowDepthCm < f.depthNowCm < HighDepthCm
    requires !Fires(f, EfficiencyRule)
    ensures Messages(f) == [RainHold(f.rain24hMm)] && Level(f) == Warning
  {
    MessagesUnfolded(f);
    FiredEmptyIff(f);
    LevelUnfolded(f);
  }

  /** At most ten pump-on rows give no baseline, so the efficiency rule cannot fire. */
  lemma NoBaselineNoEfficiencyRule(s: seq<Obs>)
    requires |s| > 0 && PumpHours(s) <= MinPumpRows
    ensures FeaturesOf(s).baseline == TooFewPumpRows
    ensures !Fires(FeaturesOf(s), EfficiencyRule)
  {
    var f := FeaturesOf(s);
    assert f.baseline == BaselineOf(s);
  }
}
