/** The value-taking flags of `sapwood run`: three extraction passes over an argument vector, the
    staged validation that runs them one after another, and the stop configuration recomputed later
    from the whole vector. */
module RunFlags {
  import opened Options

  const CONFIG := "--config"
  const MILESTONE := "--milestone"
  const STOP_ISSUES := "--stop-after-issues"
  const STOP_PRS := "--stop-after-prs"
  const STOP_MILESTONE := "--stop-on-milestone"
  const STOP_SPEND := "--stop-after-spend"

  predicate IsStopFlag(t: string) {
    t == STOP_ISSUES || t == STOP_PRS || t == STOP_MILESTONE || t == STOP_SPEND
  }

  predicate IsValueFlag(t: string) { t == CONFIG || t == MILESTONE || IsStopFlag(t) }

  predicate FlagShaped(t: string) { t != "" && t[0] == '-' }

  predicate HasOperand(argv: seq<string>)
    requires argv != []
  {
    |argv| > 1 && !FlagShaped(argv[1])
  }

  // ---- the two single-flag passes ----

  /** What is left, the last value given, and whether an operand was missing. */
  datatype Extracted = Extracted(rest: seq<string>, value: Option<string>, error: bool)

  function Extract(flag: string, argv: seq<string>): Extracted {
    if argv == [] then Extracted([], None, false)
    else if argv[0] != flag then Join([argv[0]], None, Extract(flag, argv[1..]))
    else if !HasOperand(argv) then Extracted([], None, true)
    else Join([], Some(argv[1]), Extract(flag, argv[2..]))
  }

  /** Put what has been read so far in front of what the rest of the vector yields. */
  function Join(rest: seq<string>, value: Option<string>, later: Extracted): Extracted {
    Extracted(rest + later.rest, if later.error || later.value.Some? then later.value else value, later.error)
  }

  method ExtractFlag(flag: string, argv: seq<string>) returns (r: Extracted)
    ensures r == Extract(flag, argv)
  {
    var rest: seq<string> := [];
    var value: Option<string> := None;
    var i := 0;
    while i < |argv|
      invariant 0 <= i <= |argv|
      invariant Extract(flag, argv) == Join(rest, value, Extract(flag, argv[i..]))
    {
      var token := argv[i];
      assert argv[i..][1..] == argv[i + 1..];
      if token != flag {
        rest := rest + [token];
        i := i + 1;
        continue;
      }
      if i + 1 == |argv| || FlagShaped(argv[i + 1]) {
        return Extracted(rest, None, true);
      }
      assert argv[i..][2..] == argv[i + 2..];
      value := Some(argv[i + 1]);
      i := i + 2;
    }
    assert argv[i..] == [];
    r := Extracted(rest, value, false);
  }

  method ParseRunConfigFlag(argv: seq<string>) returns (r: Extracted)
    ensures r == Extract(CONFIG, argv)
  {
    r := ExtractFlag(CONFIG, argv);
  }

  method ParseMilestoneFlag(argv: seq<string>) returns (r: Extracted)
    ensures r == Extract(MILESTONE, argv)
  {
    r := ExtractFlag(MILESTONE, argv);
  }

  // ---- the stop pass ----

  /** What `Number(text)` gives: the reader itself is a parameter of everything below. */
  datatype Numeric = NotFinite | Finite(r: real)

  datatype StopConfig = StopConfig(afterIssues: Option<real>, afterPRs: Option<real>,
                                   onMilestone: Option<string>, afterSpend: Option<real>)

  const NO_STOP := StopConfig(None, None, None, None)

  datatype StopError = NoError | MissingValue(flag: string) | BadValue(flag: string)

  datatype StopParse = StopParse(rest: seq<string>, stop: StopConfig, error: StopError)

  predicate PositiveInteger(n: Numeric) { n.Finite? && n.r > 0.0 && n.r.Floor as real == n.r }

  predicate PositiveNumber(n: Numeric) { n.Finite? && n.r > 0.0 }

  /** The configuration with one more flag folded in, unless its value is refused. */
  function SetStop(num: string -> Numeric, stop: StopConfig, flag: string, value: string): Option<StopConfig> {
    if flag == STOP_MILESTONE then Some(stop.(onMilestone := Some(value)))
    else if flag == STOP_SPEND then
      if PositiveNumber(num(value)) then Some(stop.(afterSpend := Some(num(value).r))) else None
    else if !PositiveInteger(num(value)) then None
    else if flag == STOP_ISSUES then Some(stop.(afterIssues := Some(num(value).r)))
    else Some(stop.(afterPRs := Some(num(value).r)))
  }

  function Stops(num: string -> Numeric, argv: seq<string>, stop: StopConfig): StopParse {
    if argv == [] then StopParse([], stop, NoError)
    else if !IsStopFlag(argv[0]) then Prepend([argv[0]], Stops(num, argv[1..], stop))
    else if !HasOperand(argv) then StopParse([], stop, MissingValue(argv[0]))
    else
      match SetStop(num, stop, argv[0], argv[1])
      case None => StopParse([], stop, BadValue(argv[0]))
      case Some(next) => Stops(num, argv[2..], next)
  }

  function Prepend(rest: seq<string>, later: StopParse): StopParse {
    later.(rest := rest + later.rest)
  }

  method ParseStopFlags(num: string -> Numeric, argv: seq<string>) returns (r: StopParse)
    ensures r == Stops(num, argv, NO_STOP)
  {
    var rest: seq<string> := [];
    var stop := NO_STOP;
    var i := 0;
    while i < |argv|
      invariant 0 <= i <= |argv|
      invariant Stops(num, argv, NO_STOP) == Prepend(rest, Stops(num, argv[i..], stop))
    {
      var token := argv[i];
      assert argv[i..][1..] == argv[i + 1..];
      if !IsStopFlag(token) {
        rest := rest + [token];
        i := i + 1;
        continue;
      }
      if i + 1 == |argv| || FlagShaped(argv[i + 1]) {
        return StopParse(rest, stop, MissingValue(token));
      }
      var next := SetStop(num, stop, token, argv[i + 1]);
      if next.None? {
        return StopParse(rest, stop, BadValue(token));
      }
      assert argv[i..][2..] == argv[i + 2..];
      stop := next.value;
      i := i + 2;
    }
    assert argv[i..] == [];
    r := StopParse(rest, stop, NoError);
  }

  // ---- the staged validation and the later recomputation ----

  datatype Refusal =
    | ConfigOperand | MilestoneOperand | StopOperand | TwoMilestones | UnknownFlags | DryRunWithMode | DryRunWithStop

  datatype Decision = Help | Refused(why: Refusal) | Accepted(configPath: Option<string>)

  predicate IsRunFlag(t: string) { t == "--once" || t == "--until-idle" || t == "--dry-run" }

  function AfterConfig(flags: seq<string>): Extracted { Extract(CONFIG, flags) }

  function AfterMilestone(flags: seq<string>): Extracted { Extract(MILESTONE, AfterConfig(flags).rest) }

  function AfterStops(num: string -> Numeric, flags: seq<string>): StopParse {
    Stops(num, AfterMilestone(flags).rest, NO_STOP)
  }

  function DecideRun(num: string -> Numeric, flags: seq<string>): Decision {
    if "--help" in flags || "-h" in flags then Help
    else if AfterConfig(flags).error then Refused(ConfigOperand)
    else if AfterMilestone(flags).error then Refused(MilestoneOperand)
    else
      var milestone, stops := AfterMilestone(flags).value, AfterStops(num, flags);
      if stops.error != NoError then Refused(StopOperand)
      else if milestone.Some? && stops.stop.onMilestone.Some? then Refused(TwoMilestones)
      else if exists t :: t in stops.rest && !IsRunFlag(t) then Refused(UnknownFlags)
      else if "--dry-run" in flags && ("--once" in flags || "--until-idle" in flags) then Refused(DryRunWithMode)
      else if "--dry-run" in flags && (stops.stop != NO_STOP || milestone.Some?) then Refused(DryRunWithStop)
      else Accepted(AfterConfig(flags).value)
  }

  function OrElse<T>(a: Option<T>, b: Option<T>): Option<T> { if a.Some? then a else b }

  function Merge(flags: StopConfig, milestone: Option<string>, cfg: StopConfig): StopConfig {
    StopConfig(OrElse(flags.afterIssues, cfg.afterIssues),
               OrElse(flags.afterPRs, cfg.afterPRs),
               OrElse(flags.onMilestone, OrElse(milestone, cfg.onMilestone)),
               OrElse(flags.afterSpend, cfg.afterSpend))
  }

  /** Recomputed from the whole vector; the errors of both passes are dropped. */
  function ResolveStopConfig(num: string -> Numeric, argv: seq<string>, cfg: StopConfig): StopConfig {
    Merge(Stops(num, argv, NO_STOP).stop, Extract(MILESTONE, argv).value, cfg)
  }

  // ---- vectors in which every value flag is directly followed by its operand ----

  predicate Adjacent(argv: seq<string>) {
    argv == [] ||
    if IsValueFlag(argv[0]) then HasOperand(argv) && Adjacent(argv[2..]) else Adjacent(argv[1..])
  }

  datatype Item = Word(t: string) | Flag(t: string, value: string)

  function Items(argv: seq<string>): seq<Item>
    requires Adjacent(argv)
  {
    if argv == [] then []
    else if IsValueFlag(argv[0]) then [Flag(argv[0], argv[1])] + Items(argv[2..])
    else [Word(argv[0])] + Items(argv[1..])
  }

  function Tokens(item: Item): seq<string> {
    if item.Word? then [item.t] else [item.t, item.value]
  }

  function Flatten(items: seq<Item>): seq<string> {
    if items == [] then [] else Tokens(items[0]) + Flatten(items[1..])
  }

  predicate Regular(item: Item) {
    if item.Word? then !IsValueFlag(item.t) else IsValueFlag(item.t) && !FlagShaped(item.value)
  }

  ghost predicate AllRegular(items: seq<Item>) {
    forall i :: 0 <= i < |items| ==> Regular(items[i])
  }

  lemma {:induction false} ItemsFlatten(argv: seq<string>)
    requires Adjacent(argv)
    ensures Flatten(Items(argv)) == argv && AllRegular(Items(argv))
  {
    if argv == [] {
    } else if IsValueFlag(argv[0]) {
      ItemsFlatten(argv[2..]);
      assert argv == [argv[0], argv[1]] + argv[2..];
    } else {
      ItemsFlatten(argv[1..]);
      assert argv == [argv[0]] + argv[1..];
    }
  }

  /** The items that are not `flag`. */
  function Without(flag: string, items: seq<Item>): seq<Item> {
    if items == [] then []
    else if items[0].Flag? && items[0].t == flag then Without(flag, items[1..])
    else [items[0]] + Without(flag, items[1..])
  }

  function LastValue(flag: string, items: seq<Item>): Option<string> {
    if items == [] then None
    else
      var later := LastValue(flag, items[1..]);
      if later.None? && items[0].Flag? && items[0].t == flag then Some(items[0].value) else later
  }

  lemma {:induction false} FlattenWithout(flag: string, items: seq<Item>)
    requires AllRegular(items)
    ensures AllRegular(Without(flag, items))
  {
    if items != [] { FlattenWithout(flag, items[1..]); }
  }

  lemma {:induction false} FlattenCons(x: Item, items: seq<Item>)
    ensures Flatten([x] + items) == Tokens(x) + Flatten(items)
  {
    assert ([x] + items)[1..] == items;
  }

  /** A pass takes its own flag with its operand, and steps over another's. */
  lemma {:induction false} ExtractPair(flag: string, t: string, v: string, tail: seq<string>)
    requires v != flag && !FlagShaped(v)
    ensures Extract(flag, [t, v] + tail) ==
            if t == flag then Join([], Some(v), Extract(flag, tail)) else Join([t, v], None, Extract(flag, tail))
  {
    var all := [t, v] + tail;
    assert all[2..] == tail && all[1..] == [v] + tail && ([v] + tail)[1..] == tail;
    var later := Extract(flag, tail);
    assert [t] + ([v] + later.rest) == [t, v] + later.rest;
  }

  /** On adjacent vectors a single-flag pass is a filter of items. */
  lemma {:induction false} ExtractItems(flag: string, items: seq<Item>)
    requires AllRegular(items) && (flag == CONFIG || flag == MILESTONE)
    ensures Extract(flag, Flatten(items)) == Extracted(Flatten(Without(flag, items)), LastValue(flag, items), false)
  {
    if items != [] {
      var tail, kept := Flatten(items[1..]), Without(flag, items[1..]);
      ExtractItems(flag, items[1..]);
      FlattenCons(items[0], kept);
      match items[0]
      case Word(t) =>
        assert ([t] + tail)[1..] == tail;
      case Flag(t, v) =>
        ExtractPair(flag, t, v, tail);
        hide Extract;
        assert [] + Flatten(kept) == Flatten(kept);
    }
  }

  /** What the stop pass makes of the items: the configuration, and whether a value was refused. */
  function StopItems(num: string -> Numeric, items: seq<Item>, stop: StopConfig): (StopConfig, StopError) {
    if items == [] then (stop, NoError)
    else if items[0].Flag? && IsStopFlag(items[0].t) then
      match SetStop(num, stop, items[0].t, items[0].value)
      case None => (stop, BadValue(items[0].t))
      case Some(next) => StopItems(num, items[1..], next)
    else StopItems(num, items[1..], stop)
  }

  function WithoutStops(items: seq<Item>): seq<Item> {
    if items == [] then []
    else if items[0].Flag? && IsStopFlag(items[0].t) then WithoutStops(items[1..])
    else [items[0]] + WithoutStops(items[1..])
  }

  lemma {:induction false} StopsItems(num: string -> Numeric, items: seq<Item>, stop: StopConfig)
    requires AllRegular(items)
    ensures var r := Stops(num, Flatten(items), stop);
      && r.stop == StopItems(num, items, stop).0 && r.error == StopItems(num, items, stop).1
      && (r.error == NoError ==> r.rest == Flatten(WithoutStops(items)))
  {
    if items != [] {
      var tail, kept := Flatten(items[1..]), WithoutStops(items[1..]);
      FlattenCons(items[0], kept);
      match items[0]
      case Word(t) =>
        assert ([t] + tail)[1..] == tail;
        StopsItems(num, items[1..], stop);
      case Flag(t, v) =>
        var all := [t, v] + tail;
        assert all[2..] == tail && all[1..] == [v] + tail && ([v] + tail)[1..] == tail;
        if !IsStopFlag(t) {
          StopsItems(num, items[1..], stop);
          StopsSkipTwo(num, t, v, tail, stop);
        } else if SetStop(num, stop, t, v).Some? {
          StopsItems(num, items[1..], SetStop(num, stop, t, v).value);
        }
    }
  }

  lemma {:induction false} StopsSkipTwo(num: string -> Numeric, t: string, v: string, tail: seq<string>,
                                        stop: StopConfig)
    requires !IsStopFlag(t) && !FlagShaped(v)
    ensures Stops(num, [t, v] + tail, stop) == Prepend([t, v], Stops(num, tail, stop))
  {
    var all, r := [t, v] + tail, Stops(num, tail, stop);
    assert all[1..] == [v] + tail && ([v] + tail)[1..] == tail;
    assert [t] + ([v] + r.rest) == [t, v] + r.rest;
  }

  // ---- the passes do not disturb one another ----

  lemma {:induction false} WithoutKeepsOthers(num: string -> Numeric, f: string, g: string, items: seq<Item>,
                                              stop: StopConfig)
    requires f != g && !IsStopFlag(f)
    ensures LastValue(g, Without(f, items)) == LastValue(g, items)
    ensures StopItems(num, Without(f, items), stop) == StopItems(num, items, stop)
    decreases |items|
  {
    if items != [] {
      var kept := Without(f, items[1..]);
      assert ([items[0]] + kept)[1..] == kept;
      WithoutKeepsOthers(num, f, g, items[1..], stop);
      if items[0].Flag? && IsStopFlag(items[0].t) && SetStop(num, stop, items[0].t, items[0].value).Some? {
        WithoutKeepsOthers(num, f, g, items[1..], SetStop(num, stop, items[0].t, items[0].value).value);
      }
    }
  }

  lemma {:induction false} FiltersCommute(f: string, g: string, items: seq<Item>)
    requires !IsStopFlag(f)
    ensures Without(f, Without(g, items)) == Without(g, Without(f, items))
    ensures Without(f, WithoutStops(items)) == WithoutStops(Without(f, items))
    ensures LastValue(f, WithoutStops(items)) == LastValue(f, items)
  {
    if items != [] {
      FiltersCommute(f, g, items[1..]);
      var a, b, c := Without(f, items[1..]), Without(g, items[1..]), WithoutStops(items[1..]);
      assert ([items[0]] + a)[1..] == a && ([items[0]] + b)[1..] == b && ([items[0]] + c)[1..] == c;
    }
  }

  lemma {:induction false} WithoutStopsRegular(items: seq<Item>)
    requires AllRegular(items)
    ensures AllRegular(WithoutStops(items))
  {
    if items != [] { WithoutStopsRegular(items[1..]); }
  }

  /** When every value flag is directly followed by its operand the three passes commute: each takes out its own
      flags and leaves the other tokens in their original order, any order of the passes leaves the same tokens,
      and all read the same values. The stop pass leaves tokens behind only when it refuses no value. */
  lemma {:induction false} PassesCommute(num: string -> Numeric, argv: seq<string>)
    requires Adjacent(argv)
    ensures var c, m := Extract(CONFIG, argv), Extract(MILESTONE, argv);
      && c.rest == Flatten(Without(CONFIG, Items(argv))) && m.rest == Flatten(Without(MILESTONE, Items(argv)))
      && Extract(CONFIG, m.rest).rest == Extract(MILESTONE, c.rest).rest
      && Extract(CONFIG, m.rest).value == c.value && Extract(MILESTONE, c.rest).value == m.value
      && !c.error && !m.error
    ensures var c, m, s := Extract(CONFIG, argv), Extract(MILESTONE, argv), Stops(num, argv, NO_STOP);
      && Stops(num, c.rest, NO_STOP).stop == Stops(num, m.rest, NO_STOP).stop == s.stop
      && Stops(num, c.rest, NO_STOP).error == Stops(num, m.rest, NO_STOP).error == s.error
    ensures var c, m, s := Extract(CONFIG, argv), Extract(MILESTONE, argv), Stops(num, argv, NO_STOP);
      s.error == NoError ==>
        && s.rest == Flatten(WithoutStops(Items(argv)))
        && Extract(CONFIG, s.rest).rest == Stops(num, c.rest, NO_STOP).rest
        && Extract(MILESTONE, s.rest).rest == Stops(num, m.rest, NO_STOP).rest
        && Extract(CONFIG, s.rest).value == c.value && Extract(MILESTONE, s.rest).value == m.value
  {
    var items := Items(argv);
    ItemsFlatten(argv);
    ExtractItems(CONFIG, items);
    ExtractItems(MILESTONE, items);
    StopsItems(num, items, NO_STOP);
    FlattenWithout(CONFIG, items);
    FlattenWithout(MILESTONE, items);
    WithoutStopsRegular(items);
    ExtractItems(CONFIG, Without(MILESTONE, items));
    ExtractItems(CONFIG, WithoutStops(items));
    ExtractItems(MILESTONE, Without(CONFIG, items));
    ExtractItems(MILESTONE, WithoutStops(items));
    StopsItems(num, Without(CONFIG, items), NO_STOP);
    StopsItems(num, Without(MILESTONE, items), NO_STOP);
    WithoutKeepsOthers(num, CONFIG, MILESTONE, items, NO_STOP);
    WithoutKeepsOthers(num, MILESTONE, CONFIG, items, NO_STOP);
    FiltersCommute(CONFIG, MILESTONE, items);
    FiltersCommute(MILESTONE, CONFIG, items);
  }

  // ---- when the recomputation agrees with the validation ----

  /** The full passes run over the process's vector: program, script and subcommand come first. */
  ghost predicate IsPrelude(prelude: seq<string>) {
    forall i :: 0 <= i < |prelude| ==> !IsValueFlag(prelude[i])
  }

  lemma {:induction false} PreludePasses(num: string -> Numeric, prelude: seq<string>, flags: seq<string>)
    requires IsPrelude(prelude)
    ensures Extract(MILESTONE, prelude + flags).value == Extract(MILESTONE, flags).value
    ensures Extract(MILESTONE, prelude + flags).error == Extract(MILESTONE, flags).error
    ensures Stops(num, prelude + flags, NO_STOP).stop == Stops(num, flags, NO_STOP).stop
    ensures Stops(num, prelude + flags, NO_STOP).error == Stops(num, flags, NO_STOP).error
  {
    if prelude == [] {
      assert prelude + flags == flags;
    } else {
      assert (prelude + flags)[1..] == prelude[1..] + flags;
      PreludePasses(num, prelude[1..], flags);
    }
  }

  lemma {:induction false} StagedOnItems(num: string -> Numeric, flags: seq<string>)
    requires Adjacent(flags)
    ensures AfterMilestone(flags).value == Extract(MILESTONE, flags).value
    ensures AfterStops(num, flags).stop == Stops(num, flags, NO_STOP).stop
    ensures AfterStops(num, flags).error == Stops(num, flags, NO_STOP).error
    ensures !Extract(MILESTONE, flags).error
  {
    var items := Items(flags);
    var c := Without(CONFIG, items);
    ItemsFlatten(flags);
    ExtractItems(CONFIG, items);
    ExtractItems(MILESTONE, items);
    FlattenWithout(CONFIG, items);
    ExtractItems(MILESTONE, c);
    FlattenWithout(MILESTONE, c);
    StopsItems(num, Without(MILESTONE, c), NO_STOP);
    StopsItems(num, items, NO_STOP);
    WithoutKeepsOthers(num, CONFIG, MILESTONE, items, NO_STOP);
    WithoutKeepsOthers(num, MILESTONE, CONFIG, c, NO_STOP);
  }

  /** Every vector the validation accepts and in which operands directly follow their flags resolves,
      from the whole process vector, to the configuration that was validated stage by stage. */
  lemma {:induction false} ResolvedIsValidated(num: string -> Numeric, prelude: seq<string>, flags: seq<string>,
                                               cfg: StopConfig)
    requires IsPrelude(prelude) && Adjacent(flags) && DecideRun(num, flags).Accepted?
    ensures ResolveStopConfig(num, prelude + flags, cfg)
         == Merge(AfterStops(num, flags).stop, AfterMilestone(flags).value, cfg)
  {
    PreludePasses(num, prelude, flags);
    StagedOnItems(num, flags);
  }

  lemma {:induction false} ErrorFreeIsAdjacent(num: string -> Numeric, argv: seq<string>, stop: StopConfig)
    requires !Extract(CONFIG, argv).error && !Extract(MILESTONE, argv).error
    requires Stops(num, argv, stop).error == NoError
    ensures Adjacent(argv)
    decreases |argv|
  {
    if argv == [] {
    } else if !IsValueFlag(argv[0]) {
      ErrorFreeIsAdjacent(num, argv[1..], stop);
    } else {
      assert argv[1..][1..] == argv[2..];
      if IsStopFlag(argv[0]) {
        ErrorFreeIsAdjacent(num, argv[2..], SetStop(num, stop, argv[0], argv[1]).value);
      } else {
        ErrorFreeIsAdjacent(num, argv[2..], stop);
      }
    }
  }

  /** On an accepted vector the errors that the recomputation drops are absent exactly when every
      value flag is directly followed by its operand. */
  lemma {:induction false} NothingDroppedIff(num: string -> Numeric, prelude: seq<string>, flags: seq<string>)
    requires IsPrelude(prelude) && DecideRun(num, flags).Accepted?
    ensures (Stops(num, prelude + flags, NO_STOP).error == NoError && !Extract(MILESTONE, prelude + flags).error)
        <==> Adjacent(flags)
  {
    PreludePasses(num, prelude, flags);
    if Adjacent(flags) {
      StagedOnItems(num, flags);
    }
    if Stops(num, flags, NO_STOP).error == NoError && !Extract(MILESTONE, flags).error {
      ErrorFreeIsAdjacent(num, flags, NO_STOP);
    }
  }

  // ---- exactly when the recomputation agrees ----

  /** The stop flags with their operands, up to the first one that is not directly followed by its operand. */
  function UnsplitStops(argv: seq<string>): seq<(string, string)> {
    if argv == [] then []
    else if !IsStopFlag(argv[0]) then UnsplitStops(argv[1..])
    else if HasOperand(argv) then [(argv[0], argv[1])] + UnsplitStops(argv[2..])
    else []
  }

  /** The last operand given to a flag. */
  function LastOperand(pairs: seq<(string, string)>, flag: string): Option<string> {
    if pairs == [] then None
    else
      var later := LastOperand(pairs[1..], flag);
      if later.None? && pairs[0].0 == flag then Some(pairs[0].1) else later
  }

  /** A flag that is not directly followed by its operand: it comes last, or before another flag. */
  ghost predicate Split(flag: string, argv: seq<string>) {
    exists i :: 0 <= i < |argv| && argv[i] == flag && (i + 1 == |argv| || "-" <= argv[i + 1])
  }

  lemma {:induction false} FlagShapedIs(t: string)
    ensures FlagShaped(t) <==> "-" <= t
  {
  }

  /** Both absent, or both give the flag one value: the text for a milestone, the number otherwise. */
  predicate SameValue(num: string -> Numeric, flag: string, a: Option<string>, b: Option<string>) {
    a.Some? == b.Some? && (a.Some? ==> if flag == STOP_MILESTONE then a == b else num(a.value) == num(b.value))
  }

  predicate Acceptable(num: string -> Numeric, pair: (string, string)) {
    IsStopFlag(pair.0) && SetStop(num, NO_STOP, pair.0, pair.1).Some?
  }

  ghost predicate AllAcceptable(num: string -> Numeric, pairs: seq<(string, string)>) {
    forall i :: 0 <= i < |pairs| ==> Acceptable(num, pairs[i])
  }

  lemma {:induction false} SetStopAccepts(num: string -> Numeric, stop: StopConfig, flag: string, value: string)
    ensures SetStop(num, stop, flag, value).Some? <==> SetStop(num, NO_STOP, flag, value).Some?
  {
  }

  /** The configuration in which each flag has its last operand's value and falls back on `stop`. */
  function ReadStops(num: string -> Numeric, pairs: seq<(string, string)>, stop: StopConfig): StopConfig {
    StopConfig(Amount(num, LastOperand(pairs, STOP_ISSUES), stop.afterIssues),
               Amount(num, LastOperand(pairs, STOP_PRS), stop.afterPRs),
               OrElse(LastOperand(pairs, STOP_MILESTONE), stop.onMilestone),
               Amount(num, LastOperand(pairs, STOP_SPEND), stop.afterSpend))
  }

  function Amount(num: string -> Numeric, operand: Option<string>, otherwise: Option<real>): Option<real> {
    if operand.Some? && num(operand.value).Finite? then Some(num(operand.value).r) else otherwise
  }

  lemma {:induction false} FlagNamesDiffer()
    ensures STOP_ISSUES != STOP_PRS && STOP_ISSUES != STOP_MILESTONE && STOP_ISSUES != STOP_SPEND
    ensures STOP_PRS != STOP_MILESTONE && STOP_PRS != STOP_SPEND && STOP_MILESTONE != STOP_SPEND
  {
    assert STOP_ISSUES[13] == 'i' && STOP_PRS[13] == 'p' && STOP_MILESTONE[13] == 'e' && STOP_SPEND[13] == 's';
  }

  lemma {:induction false} LastAcceptable(num: string -> Numeric, pairs: seq<(string, string)>, flag: string)
    requires AllAcceptable(num, pairs) && LastOperand(pairs, flag).Some?
    ensures Acceptable(num, (flag, LastOperand(pairs, flag).value))
  {
    if LastOperand(pairs[1..], flag).Some? { LastAcceptable(num, pairs[1..], flag); }
  }

  lemma {:induction false} ReadFirst(num: string -> Numeric, pairs: seq<(string, string)>, stop: StopConfig)
    requires pairs != [] && AllAcceptable(num, pairs)
    ensures SetStop(num, stop, pairs[0].0, pairs[0].1).Some?
    ensures ReadStops(num, pairs[1..], SetStop(num, stop, pairs[0].0, pairs[0].1).value) == ReadStops(num, pairs, stop)
  {
    FlagNamesDiffer();
    SetStopAccepts(num, stop, pairs[0].0, pairs[0].1);
    assert Acceptable(num, pairs[0]);
    forall flag | flag != STOP_MILESTONE && IsStopFlag(flag) && LastOperand(pairs[1..], flag).Some?
      ensures num(LastOperand(pairs[1..], flag).value).Finite?
    {
      LastAcceptable(num, pairs[1..], flag);
    }
  }

  /** The stop pass reads exactly the unsplit stop flags, each flag's last operand winning. */
  lemma {:induction false} StopsRead(num: string -> Numeric, argv: seq<string>, stop: StopConfig)
    requires AllAcceptable(num, UnsplitStops(argv))
    ensures Stops(num, argv, stop).stop == ReadStops(num, UnsplitStops(argv), stop)
    decreases |argv|
  {
    if argv == [] {
    } else if !IsStopFlag(argv[0]) {
      StopsRead(num, argv[1..], stop);
    } else if HasOperand(argv) {
      var pairs := UnsplitStops(argv);
      assert pairs[1..] == UnsplitStops(argv[2..]);
      ReadFirst(num, pairs, stop);
      hide ReadStops, SetStop;
      StopsRead(num, argv[2..], SetStop(num, stop, argv[0], argv[1]).value);
    }
  }

  lemma {:induction false} ErrorFreeIsAcceptable(num: string -> Numeric, argv: seq<string>, stop: StopConfig)
    requires Stops(num, argv, stop).error == NoError
    ensures AllAcceptable(num, UnsplitStops(argv))
    decreases |argv|
  {
    if argv == [] {
    } else if !IsStopFlag(argv[0]) {
      ErrorFreeIsAcceptable(num, argv[1..], stop);
    } else {
      SetStopAccepts(num, stop, argv[0], argv[1]);
      ErrorFreeIsAcceptable(num, argv[2..], SetStop(num, stop, argv[0], argv[1]).value);
    }
  }

  lemma {:induction false} StepOverPair(flag: string, argv: seq<string>)
    requires argv != [] && argv[0] != flag && HasOperand(argv) && FlagShaped(flag)
    ensures var r, later := Extract(flag, argv), Extract(flag, argv[2..]);
      r.rest == [argv[0], argv[1]] + later.rest && r.error == later.error && r.value == later.value
  {
    assert argv == [argv[0], argv[1]] + argv[2..];
    ExtractPair(flag, argv[0], argv[1], argv[2..]);
  }

  /** Taking a flag out may join split stop flags with their operands: it only adds pairs at the end. */
  lemma {:induction false} ExtractKeepsUnsplit(flag: string, argv: seq<string>)
    requires flag == CONFIG || flag == MILESTONE
    requires !Extract(flag, argv).error
    ensures UnsplitStops(argv) <= UnsplitStops(Extract(flag, argv).rest)
    decreases |argv|
  {
    if argv == [] {
    } else if argv[0] == flag {
      assert argv[1..][1..] == argv[2..];
      ExtractKeepsUnsplit(flag, argv[2..]);
      assert [] + Extract(flag, argv[2..]).rest == Extract(flag, argv[2..]).rest;
    } else if IsStopFlag(argv[0]) && HasOperand(argv) {
      StepOverPair(flag, argv);
      hide Extract;
      ExtractKeepsUnsplit(flag, argv[2..]);
      var rest := Extract(flag, argv[2..]).rest;
      assert ([argv[0], argv[1]] + rest)[2..] == rest;
    } else if IsStopFlag(argv[0]) {
    } else {
      ExtractKeepsUnsplit(flag, argv[1..]);
      var rest := Extract(flag, argv[1..]).rest;
      assert Extract(flag, argv).rest == [argv[0]] + rest;
      assert ([argv[0]] + rest)[1..] == rest;
    }
  }

  lemma {:induction false} ExtractErrorIff(flag: string, argv: seq<string>)
    requires FlagShaped(flag)
    ensures Extract(flag, argv).error <==> Split(flag, argv)
    decreases |argv|
  {
    if argv != [] {
      if |argv| > 1 { FlagShapedIs(argv[1]); }
      if argv[0] == flag && HasOperand(argv) {
        ExtractErrorIff(flag, argv[2..]);
        SplitTail(flag, argv, 2);
      } else if argv[0] != flag {
        ExtractErrorIff(flag, argv[1..]);
        SplitTail(flag, argv, 1);
      }
    }
  }

  lemma {:induction false} SplitTail(flag: string, argv: seq<string>, n: nat)
    requires n <= |argv|
    requires forall i :: 0 <= i < n && argv[i] == flag ==> i + 1 < |argv| && !("-" <= argv[i + 1])
    ensures Split(flag, argv) <==> Split(flag, argv[n..])
  {
    var tail := argv[n..];
    if Split(flag, argv) {
      var i :| 0 <= i < |argv| && argv[i] == flag && (i + 1 == |argv| || "-" <= argv[i + 1]);
      assert tail[i - n] == flag && (i + 1 < |argv| ==> tail[i - n + 1] == argv[i + 1]);
    }
    if Split(flag, tail) {
      var i :| 0 <= i < |tail| && tail[i] == flag && (i + 1 == |tail| || "-" <= tail[i + 1]);
      assert argv[n + i] == flag && (i + 1 < |tail| ==> argv[n + i + 1] == tail[i + 1]);
    }
  }

  /** Taking the config flag out leaves the milestone's value, unless its operand was behind a config flag. */
  lemma {:induction false} ConfigKeepsMilestone(argv: seq<string>)
    requires !Extract(CONFIG, argv).error && !Extract(MILESTONE, argv).error
    ensures Extract(MILESTONE, Extract(CONFIG, argv).rest).value == Extract(MILESTONE, argv).value
    ensures !Extract(MILESTONE, Extract(CONFIG, argv).rest).error
    decreases |argv|
  {
    if argv == [] {
    } else if argv[0] == CONFIG {
      assert argv[1..][1..] == argv[2..];
      ConfigKeepsMilestone(argv[2..]);
      assert [] + Extract(CONFIG, argv[2..]).rest == Extract(CONFIG, argv[2..]).rest;
    } else if argv[0] == MILESTONE {
      StepOverPair(CONFIG, argv);
      ConfigKeepsMilestone(argv[2..]);
      var rest := Extract(CONFIG, argv[2..]).rest;
      assert ([argv[0], argv[1]] + rest)[2..] == rest;
    } else {
      ConfigKeepsMilestone(argv[1..]);
      var rest := Extract(CONFIG, argv[1..]).rest;
      assert Extract(CONFIG, argv).rest == [argv[0]] + rest;
      assert ([argv[0]] + rest)[1..] == rest;
    }
  }

  lemma {:induction false} MilestoneSurvives(argv: seq<string>)
    requires !Extract(CONFIG, argv).error && MILESTONE in argv
    ensures MILESTONE in Extract(CONFIG, argv).rest
    decreases |argv|
  {
    if argv[0] == CONFIG {
      assert argv == [argv[0], argv[1]] + argv[2..];
      MilestoneSurvives(argv[2..]);
    } else if argv[0] != MILESTONE {
      assert argv == [argv[0]] + argv[1..];
      MilestoneSurvives(argv[1..]);
    }
  }

  lemma {:induction false} GivenIsRead(argv: seq<string>)
    requires !Extract(MILESTONE, argv).error && MILESTONE in argv
    ensures Extract(MILESTONE, argv).value.Some?
    decreases |argv|
  {
    if argv[0] != MILESTONE {
      assert argv == [argv[0]] + argv[1..];
      GivenIsRead(argv[1..]);
    }
  }

  /** What the milestone pass reads of an accepted vector: the staged value, or nothing when one is split, and then
      the staged value is there. */
  lemma {:induction false} MilestoneReread(flags: seq<string>)
    requires !AfterConfig(flags).error && !AfterMilestone(flags).error
    ensures if Split(MILESTONE, flags) then Extract(MILESTONE, flags).value == None && AfterMilestone(flags).value.Some?
            else Extract(MILESTONE, flags).value == AfterMilestone(flags).value
  {
    ExtractErrorIff(MILESTONE, flags);
    if Split(MILESTONE, flags) {
      ErrorHasNoValue(flags);
      MilestoneSurvives(flags);
      GivenIsRead(AfterConfig(flags).rest);
    } else {
      ConfigKeepsMilestone(flags);
    }
  }

  lemma {:induction false} ErrorHasNoValue(argv: seq<string>)
    requires Extract(MILESTONE, argv).error
    ensures Extract(MILESTONE, argv).value == None
    decreases |argv|
  {
    if argv[0] != MILESTONE {
      ErrorHasNoValue(argv[1..]);
    } else if HasOperand(argv) {
      ErrorHasNoValue(argv[2..]);
    }
  }

  /** What the two readings of an accepted vector's stop flags have in common. */
  lemma {:induction false} StopsReread(num: string -> Numeric, flags: seq<string>)
    requires DecideRun(num, flags).Accepted?
    ensures var first, whole := UnsplitStops(flags), UnsplitStops(AfterMilestone(flags).rest);
      && first <= whole && AllAcceptable(num, first) && AllAcceptable(num, whole)
      && Stops(num, flags, NO_STOP).stop == ReadStops(num, first, NO_STOP)
      && AfterStops(num, flags).stop == ReadStops(num, whole, NO_STOP)
  {
    var first, whole := UnsplitStops(flags), UnsplitStops(AfterMilestone(flags).rest);
    ExtractKeepsUnsplit(CONFIG, flags);
    ExtractKeepsUnsplit(MILESTONE, AfterConfig(flags).rest);
    ErrorFreeIsAcceptable(num, AfterMilestone(flags).rest, NO_STOP);
    assert forall i :: 0 <= i < |first| ==> first[i] == whole[i];
    StopsRead(num, flags, NO_STOP);
    StopsRead(num, AfterMilestone(flags).rest, NO_STOP);
  }

  lemma {:induction false} SameReadingIff(num: string -> Numeric, a: seq<(string, string)>, b: seq<(string, string)>)
    requires AllAcceptable(num, a) && AllAcceptable(num, b)
    ensures ReadStops(num, a, NO_STOP) == ReadStops(num, b, NO_STOP)
      <==> forall flag :: IsStopFlag(flag) ==> SameValue(num, flag, LastOperand(a, flag), LastOperand(b, flag))
  {
    FlagNamesDiffer();
    forall flag | IsStopFlag(flag)
      ensures LastOperand(a, flag).Some? ==> Acceptable(num, (flag, LastOperand(a, flag).value))
      ensures LastOperand(b, flag).Some? ==> Acceptable(num, (flag, LastOperand(b, flag).value))
    {
      if LastOperand(a, flag).Some? { LastAcceptable(num, a, flag); }
      if LastOperand(b, flag).Some? { LastAcceptable(num, b, flag); }
    }
    if ReadStops(num, a, NO_STOP) == ReadStops(num, b, NO_STOP) {
      assert IsStopFlag(STOP_ISSUES) && IsStopFlag(STOP_PRS) && IsStopFlag(STOP_MILESTONE) && IsStopFlag(STOP_SPEND);
    }
  }

  lemma {:induction false} PrefixLast(a: seq<(string, string)>, b: seq<(string, string)>, flag: string)
    requires a <= b && LastOperand(b, flag).None?
    ensures LastOperand(a, flag).None?
  {
    if a != [] { PrefixLast(a[1..], b[1..], flag); }
  }

  /** Whether two readings of flags and milestone come to one configuration whatever the file configures. */
  lemma {:induction false} MergesAgreeIff(a: StopConfig, m: Option<string>, b: StopConfig, n: Option<string>)
    ensures (forall cfg :: Merge(a, m, cfg) == Merge(b, n, cfg))
      <==> a.afterIssues == b.afterIssues && a.afterPRs == b.afterPRs && a.afterSpend == b.afterSpend
           && OrElse(a.onMilestone, m) == OrElse(b.onMilestone, n)
  {
    if forall cfg :: Merge(a, m, cfg) == Merge(b, n, cfg) {
      assert Merge(a, m, NO_STOP) == Merge(b, n, NO_STOP);
    }
  }

  /** On an accepted vector the recomputed configuration is the validated one, whatever the file configures,
      exactly when no milestone flag is split from its operand and, for each stop flag, the last operand before
      the first split stop flag has the value of the last operand of all. */
  lemma {:induction false} ResolvedIsValidatedIff(num: string -> Numeric, prelude: seq<string>, flags: seq<string>)
    requires IsPrelude(prelude) && DecideRun(num, flags).Accepted?
    ensures (forall cfg :: ResolveStopConfig(num, prelude + flags, cfg)
                        == Merge(AfterStops(num, flags).stop, AfterMilestone(flags).value, cfg))
      <==> !Split(MILESTONE, flags)
           && forall flag :: IsStopFlag(flag) ==>
                SameValue(num, flag, LastOperand(UnsplitStops(flags), flag),
                          LastOperand(UnsplitStops(AfterMilestone(flags).rest), flag))
  {
    var first, whole := UnsplitStops(flags), UnsplitStops(AfterMilestone(flags).rest);
    PreludePasses(num, prelude, flags);
    StopsReread(num, flags);
    MilestoneReread(flags);
    SameReadingIff(num, first, whole);
    var a, b := ReadStops(num, first, NO_STOP), ReadStops(num, whole, NO_STOP);
    MergesAgreeIff(a, Extract(MILESTONE, flags).value, b, AfterMilestone(flags).value);
    OneMilestone(num, flags, first, whole);
    hide ReadStops, SameValue, UnsplitStops, LastOperand, Stops, Extract, DecideRun, Split, Merge;
  }

  /** Accepted vectors give the milestone in one way only, so a milestone and a stop milestone never meet. */
  lemma {:induction false} OneMilestone(num: string -> Numeric, flags: seq<string>,
                                        first: seq<(string, string)>, whole: seq<(string, string)>)
    requires DecideRun(num, flags).Accepted? && first <= whole
    requires AfterStops(num, flags).stop == ReadStops(num, whole, NO_STOP)
    ensures AfterMilestone(flags).value.Some? ==>
      ReadStops(num, first, NO_STOP).onMilestone == None && ReadStops(num, whole, NO_STOP).onMilestone == None
  {
    if AfterMilestone(flags).value.Some? { PrefixLast(first, whole, STOP_MILESTONE); }
  }

  /** The stages on a vector in which a config flag stands between a stop flag and its operand. */
  lemma {:induction false} SplitVectorStages(num: string -> Numeric, path: string, value: string)
    requires !FlagShaped(path) && !FlagShaped(value) && PositiveInteger(num(value))
    ensures var flags := [STOP_ISSUES, CONFIG, path, value];
      && AfterConfig(flags) == Extracted([STOP_ISSUES, value], Some(path), false)
      && AfterMilestone(flags) == Extracted([STOP_ISSUES, value], None, false)
      && AfterStops(num, flags) == StopParse([], NO_STOP.(afterIssues := Some(num(value).r)), NoError)
  {
    var flags, left := [STOP_ISSUES, CONFIG, path, value], [STOP_ISSUES, value];
    assert Extract(CONFIG, flags) == Extracted(left, Some(path), false) by {
      assert flags[1..] == [CONFIG, path, value] && flags[1..][2..] == [value];
      OneWord(CONFIG, value);
      assert Extract(CONFIG, flags[1..]) == Join([], Some(path), Extract(CONFIG, [value]));
      assert [STOP_ISSUES] + ([] + [value]) == left;
    }
    assert left[1..] == [value] && left[2..] == [] && [STOP_ISSUES] + [value] == left;
    OneWord(MILESTONE, value);
    hide Extract, PositiveInteger;
    assert Stops(num, left, NO_STOP) == Stops(num, [], NO_STOP.(afterIssues := Some(num(value).r)));
  }

  lemma {:induction false} OneWord(flag: string, word: string)
    requires word != flag
    ensures Extract(flag, [word]) == Extracted([word], None, false)
  {
    assert [word][1..] == [] && [word] + [] == [word];
  }

  /** What is lost otherwise: a stop condition that was validated and then never applied. */
  lemma {:induction false} SplitOperandLosesStop(num: string -> Numeric, path: string, value: string, cfg: StopConfig)
    requires !FlagShaped(path) && !FlagShaped(value) && PositiveInteger(num(value))
    ensures var flags := [STOP_ISSUES, CONFIG, path, value];
      && DecideRun(num, flags) == Accepted(Some(path))
      && AfterStops(num, flags).stop.afterIssues == Some(num(value).r)
      && ResolveStopConfig(num, flags, cfg).afterIssues == cfg.afterIssues
  {
    SplitVectorStages(num, path, value);
    hide AfterConfig, AfterMilestone, AfterStops, Extract;
    assert Stops(num, [STOP_ISSUES, CONFIG, path, value], NO_STOP).stop == NO_STOP;
  }

  // ---- the decision and the configuration, token by token ----

  /** The `i`th token is the last occurrence of the flag, and something follows it. */
  ghost predicate LastGiven(argv: seq<string>, flag: string, i: nat) {
    i + 1 < |argv| && argv[i] == flag && forall j :: i < j < |argv| ==> argv[j] != flag
  }

  /** The value does not suit the flag: the count flags want a positive integer, the spend flag a positive number. */
  ghost predicate Unsuitable(num: string -> Numeric, flag: string, value: string) {
    || (flag in {"--stop-after-issues", "--stop-after-prs"}
        && !(num(value).Finite? && num(value).r > 0.0 && num(value).r.Floor as real == num(value).r))
    || (flag == "--stop-after-spend" && !(num(value).Finite? && num(value).r > 0.0))
  }

  /** Every value flag is directly followed by an operand that is no flag itself. */
  ghost predicate Unsplit(argv: seq<string>) {
    forall i :: 0 <= i < |argv| && argv[i] in {"--config", "--milestone", "--stop-after-issues", "--stop-after-prs",
                                               "--stop-on-milestone", "--stop-after-spend"} ==>
      i + 1 < |argv| && !("-" <= argv[i + 1])
  }

  lemma {:induction false} UnsplitIsAdjacent(argv: seq<string>)
    ensures Unsplit(argv) <==> Adjacent(argv)
    decreases |argv|
  {
    if argv != [] {
      FlagsAre(argv[0]);
      if |argv| > 1 {
        FlagShapedIs(argv[1]);
        FlagsAre(argv[1]);
      }
      if !IsValueFlag(argv[0]) {
        UnsplitIsAdjacent(argv[1..]);
        UnsplitTail(argv, 1);
      } else if HasOperand(argv) {
        UnsplitIsAdjacent(argv[2..]);
        UnsplitTail(argv, 2);
      }
    }
  }

  lemma {:induction false} UnsplitTail(argv: seq<string>, n: nat)
    requires n <= |argv|
    requires forall i :: 0 <= i < n && IsValueFlag(argv[i]) ==> i + 1 < |argv| && !("-" <= argv[i + 1])
    ensures Unsplit(argv) <==> Unsplit(argv[n..])
  {
    var tail := argv[n..];
    assert forall j :: 0 <= j < |tail| ==> tail[j] == argv[j + n];
    forall t ensures IsValueFlag(t) <==> t in {"--config", "--milestone", "--stop-after-issues", "--stop-after-prs",
                                               "--stop-on-milestone", "--stop-after-spend"} { FlagsAre(t); }
    hide IsValueFlag;
    if Unsplit(tail) {
      forall i | n <= i < |argv| && IsValueFlag(argv[i]) ensures i + 1 < |argv| && !("-" <= argv[i + 1]) {
        assert IsValueFlag(tail[i - n]);
      }
    }
  }

  lemma {:induction false} FlagsAre(t: string)
    ensures IsStopFlag(t) <==>
      t in {"--stop-after-issues", "--stop-after-prs", "--stop-on-milestone", "--stop-after-spend"}
    ensures IsValueFlag(t) <==> t in {"--config", "--milestone", "--stop-after-issues", "--stop-after-prs",
                                      "--stop-on-milestone", "--stop-after-spend"}
    ensures IsValueFlag(t) ==> FlagShaped(t)
  {
  }

  /** Past a flag with its operand, or past a word, the rest of an adjacent vector is adjacent. */
  lemma {:induction false} AdjacentRest(argv: seq<string>)
    requires Adjacent(argv) && argv != []
    ensures IsValueFlag(argv[0]) ==> |argv| >= 2 && !IsValueFlag(argv[1]) && Adjacent(argv[2..])
    ensures !IsValueFlag(argv[0]) ==> Adjacent(argv[1..])
  {
  }

  lemma {:induction false} NotGiven(argv: seq<string>, flag: string)
    requires Adjacent(argv) && IsValueFlag(flag) && flag !in argv
    ensures IsStopFlag(flag) ==> LastOperand(UnsplitStops(argv), flag) == None
    ensures !IsStopFlag(flag) ==> Extract(flag, argv).value == None
    decreases |argv|
  {
    if argv != [] {
      AdjacentRest(argv);
      FlagsAre(flag);
      assert argv[1..] == argv[1..] && forall j :: 0 <= j < |argv[1..]| ==> argv[1..][j] == argv[j + 1];
      if IsValueFlag(argv[0]) {
        assert argv[1..][1..] == argv[2..];
        NotGiven(argv[2..], flag);
      } else {
        NotGiven(argv[1..], flag);
      }
    }
  }

  /** On an adjacent vector what is read of a flag is the operand behind its last occurrence. */
  lemma {:induction false} LastGivenIsRead(argv: seq<string>, flag: string, i: nat)
    requires Adjacent(argv) && IsValueFlag(flag) && LastGiven(argv, flag, i)
    ensures IsStopFlag(flag) ==> LastOperand(UnsplitStops(argv), flag) == Some(argv[i + 1])
    ensures !IsStopFlag(flag) ==> Extract(flag, argv).value == Some(argv[i + 1])
    decreases |argv|
  {
    AdjacentRest(argv);
    FlagsAre(flag);
    var n := if IsValueFlag(argv[0]) then 2 else 1;
    assert argv[1..][1..] == argv[2..];
    assert forall j :: 0 <= j < |argv[n..]| ==> argv[n..][j] == argv[j + n];
    if i < n {
      assert i == 0;
      NotGiven(argv[2..], flag);
      AdjacentIsErrorFree(argv[2..], flag);
    } else {
      assert LastGiven(argv[n..], flag, i - n);
      LastGivenIsRead(argv[n..], flag, i - n);
    }
  }

  lemma {:induction false} AdjacentIsErrorFree(argv: seq<string>, flag: string)
    requires Adjacent(argv) && IsValueFlag(flag)
    ensures !Extract(flag, argv).error
    decreases |argv|
  {
    if argv != [] {
      AdjacentRest(argv);
      FlagsAre(flag);
      if IsValueFlag(argv[0]) {
        assert argv[1..][1..] == argv[2..];
        AdjacentIsErrorFree(argv[2..], flag);
      } else {
        AdjacentIsErrorFree(argv[1..], flag);
      }
    }
  }

  /** A flag in an adjacent vector has a last occurrence with an operand behind it. */
  lemma {:induction false} GivenSomewhere(argv: seq<string>, flag: string)
    requires Adjacent(argv) && IsValueFlag(flag) && flag in argv
    ensures exists i :: 0 <= i < |argv| && LastGiven(argv, flag, i)
    decreases |argv|
  {
    AdjacentRest(argv);
    var n := if IsValueFlag(argv[0]) then 2 else 1;
    assert forall j :: 0 <= j < |argv[n..]| ==> argv[n..][j] == argv[j + n];
    if flag in argv[n..] {
      GivenSomewhere(argv[n..], flag);
      var i :| 0 <= i < |argv[n..]| && LastGiven(argv[n..], flag, i);
      assert LastGiven(argv, flag, i + n);
    } else {
      assert LastGiven(argv, flag, 0);
    }
  }

  /** What each field of a resolved configuration is, on an accepted adjacent vector behind any prelude: the value of
      its flag's last operand when the flag is given, and the configured one otherwise. The milestone is the stop
      milestone's operand, else the milestone's, else the configured one. */
  lemma {:induction false} FlagsWin(num: string -> Numeric, prelude: seq<string>, flags: seq<string>, cfg: StopConfig)
    requires IsPrelude(prelude) && Unsplit(flags) && DecideRun(num, flags).Accepted?
    ensures var r := ResolveStopConfig(num, prelude + flags, cfg);
      && ("--stop-after-issues" !in flags ==> r.afterIssues == cfg.afterIssues)
      && (forall i :: 0 <= i < |flags| && LastGiven(flags, "--stop-after-issues", i) ==>
            num(flags[i + 1]).Finite? && r.afterIssues == Some(num(flags[i + 1]).r))
      && ("--stop-after-prs" !in flags ==> r.afterPRs == cfg.afterPRs)
      && (forall i :: 0 <= i < |flags| && LastGiven(flags, "--stop-after-prs", i) ==>
            num(flags[i + 1]).Finite? && r.afterPRs == Some(num(flags[i + 1]).r))
      && ("--stop-after-spend" !in flags ==> r.afterSpend == cfg.afterSpend)
      && (forall i :: 0 <= i < |flags| && LastGiven(flags, "--stop-after-spend", i) ==>
            num(flags[i + 1]).Finite? && r.afterSpend == Some(num(flags[i + 1]).r))
    ensures var r := ResolveStopConfig(num, prelude + flags, cfg);
      && (forall i :: 0 <= i < |flags| && LastGiven(flags, "--stop-on-milestone", i) ==>
            r.onMilestone == Some(flags[i + 1]))
      && (forall i :: 0 <= i < |flags| && "--stop-on-milestone" !in flags && LastGiven(flags, "--milestone", i) ==>
            r.onMilestone == Some(flags[i + 1]))
      && ("--stop-on-milestone" !in flags && "--milestone" !in flags ==> r.onMilestone == cfg.onMilestone)
    ensures forall flag :: flag in flags && IsValueFlag(flag) ==>
      exists i :: 0 <= i < |flags| && LastGiven(flags, flag, i)
  {
    UnsplitIsAdjacent(flags);
    PreludePasses(num, prelude, flags);
    StopsReread(num, flags);
    forall flag | flag in flags && IsValueFlag(flag) ensures exists i :: 0 <= i < |flags| && LastGiven(flags, flag, i) {
      GivenSomewhere(flags, flag);
    }
    var pairs := UnsplitStops(flags);
    hide Stops, Extract, UnsplitStops, DecideRun, AfterStops, AfterMilestone, Adjacent, Unsplit, LastGiven;
    FlagRead(num, flags, pairs, STOP_ISSUES);
    FlagRead(num, flags, pairs, STOP_PRS);
    FlagRead(num, flags, pairs, STOP_SPEND);
    FlagRead(num, flags, pairs, STOP_MILESTONE);
    FlagRead(num, flags, pairs, MILESTONE);
    hide LastOperand;
  }

  lemma {:induction false} FlagRead(num: string -> Numeric, flags: seq<string>, pairs: seq<(string, string)>,
                                    flag: string)
    requires Adjacent(flags) && IsValueFlag(flag) && pairs == UnsplitStops(flags) && AllAcceptable(num, pairs)
    ensures var read := if IsStopFlag(flag) then LastOperand(pairs, flag) else Extract(flag, flags).value;
      && (flag !in flags ==> read == None)
      && (forall i :: 0 <= i < |flags| && LastGiven(flags, flag, i) ==> read == Some(flags[i + 1]))
      && (IsStopFlag(flag) && flag != STOP_MILESTONE && read.Some? ==> num(read.value).Finite?)
  {
    hide Extract, UnsplitStops, LastOperand;
    if flag !in flags { NotGiven(flags, flag); }
    forall i | 0 <= i < |flags| && LastGiven(flags, flag, i)
      ensures (if IsStopFlag(flag) then LastOperand(pairs, flag) else Extract(flag, flags).value) == Some(flags[i + 1])
    {
      LastGivenIsRead(flags, flag, i);
    }
    if IsStopFlag(flag) && LastOperand(pairs, flag).Some? { LastAcceptable(num, pairs, flag); }
  }

  /** Some operand does not suit its flag. */
  ghost predicate AnyUnsuitable(num: string -> Numeric, flags: seq<string>) {
    exists i :: 0 <= i < |flags| - 1 && Unsuitable(num, flags[i], flags[i + 1])
  }

  /** Some token is neither a value flag nor its operand nor one of the three bare flags. */
  ghost predicate AnyUnknown(flags: seq<string>) { exists i :: 0 <= i < |flags| && UnknownAt(flags, i) }

  ghost predicate UnknownAt(flags: seq<string>, i: nat)
    requires i < |flags|
  {
    && !IsValueFlag(flags[i]) && (i == 0 || !IsValueFlag(flags[i - 1]))
    && flags[i] !in {"--once", "--until-idle", "--dry-run"}
  }

  lemma {:induction false} UnsuitableTail(num: string -> Numeric, flags: seq<string>, n: nat)
    requires Adjacent(flags) && flags != [] && n == if IsValueFlag(flags[0]) then 2 else 1
    ensures n <= |flags|
    ensures AnyUnsuitable(num, flags) <==>
      (IsValueFlag(flags[0]) && Unsuitable(num, flags[0], flags[1])) || AnyUnsuitable(num, flags[n..])
  {
    AdjacentRest(flags);
    FlagsAre(flags[0]);
    if n == 2 { FlagsAre(flags[1]); }
    hide Unsuitable;
    var tail := flags[n..];
    assert forall j :: 0 <= j < |tail| ==> tail[j] == flags[j + n];
    if AnyUnsuitable(num, flags) {
      var i :| 0 <= i < |flags| - 1 && Unsuitable(num, flags[i], flags[i + 1]);
      OnlyFlagsUnsuitable(num, flags[i], flags[i + 1]);
      if i >= n { assert Unsuitable(num, tail[i - n], tail[i - n + 1]); }
    }
    if AnyUnsuitable(num, tail) {
      var i :| 0 <= i < |tail| - 1 && Unsuitable(num, tail[i], tail[i + 1]);
      assert Unsuitable(num, flags[i + n], flags[i + n + 1]);
    }
  }

  lemma {:induction false} OnlyFlagsUnsuitable(num: string -> Numeric, flag: string, value: string)
    requires Unsuitable(num, flag, value)
    ensures IsValueFlag(flag)
  {
  }

  /** The stop pass refuses an adjacent vector exactly when some operand does not suit its flag. */
  lemma {:induction false} StopsErrorIff(num: string -> Numeric, flags: seq<string>, stop: StopConfig)
    requires Adjacent(flags)
    ensures Stops(num, flags, stop).error == NoError <==> !AnyUnsuitable(num, flags)
    decreases |flags|
  {
    if flags != [] {
      AdjacentRest(flags);
      UnsuitableTail(num, flags, if IsValueFlag(flags[0]) then 2 else 1);
      FlagsAre(flags[0]);
      if !IsValueFlag(flags[0]) {
        StopsErrorIff(num, flags[1..], stop);
      } else if !IsStopFlag(flags[0]) {
        assert flags[1..][1..] == flags[2..];
        assert !Unsuitable(num, flags[0], flags[1]);
        StopsErrorIff(num, flags[2..], stop);
      } else {
        SuitableIff(num, stop, flags[0], flags[1]);
        if SetStop(num, stop, flags[0], flags[1]).Some? {
          StopsErrorIff(num, flags[2..], SetStop(num, stop, flags[0], flags[1]).value);
        }
      }
    }
  }

  lemma {:induction false} SuitableIff(num: string -> Numeric, stop: StopConfig, flag: string, value: string)
    requires IsStopFlag(flag)
    ensures SetStop(num, stop, flag, value).Some? <==> !Unsuitable(num, flag, value)
  {
    FlagNamesDiffer();
  }

  /** What the three passes leave of an adjacent vector is unknown exactly when some bare token is. */
  lemma {:induction false} LeftoversAre(items: seq<Item>)
    requires AllRegular(items)
    ensures (exists t :: t in Flatten(WithoutStops(Without(MILESTONE, Without(CONFIG, items)))) && !IsRunFlag(t))
        <==> exists i :: 0 <= i < |items| && items[i].Word? && !IsRunFlag(items[i].t)
  {
    var left := WithoutStops(Without(MILESTONE, Without(CONFIG, items)));
    WordsLeft(items);
    FlattenWords(left);
    hide Without, WithoutStops, Flatten;
  }

  lemma {:induction false} WordsLeft(items: seq<Item>)
    requires AllRegular(items)
    ensures var left := WithoutStops(Without(MILESTONE, Without(CONFIG, items)));
      && (forall x :: x in left <==> x in items && x.Word?)
  {
    if items != [] {
      WordsLeft(items[1..]);
      assert items == [items[0]] + items[1..];
      var a := Without(CONFIG, items[1..]);
      var b := Without(MILESTONE, a);
      assert ([items[0]] + a)[1..] == a && ([items[0]] + b)[1..] == b;
    }
  }

  lemma {:induction false} FlattenWords(items: seq<Item>)
    requires forall x :: x in items ==> x.Word?
    ensures forall t :: t in Flatten(items) <==> Word(t) in items
  {
    if items != [] {
      assert items == [items[0]] + items[1..];
      FlattenWords(items[1..]);
    }
  }

  lemma {:induction false} WordsAreBare(flags: seq<string>)
    requires Adjacent(flags)
    ensures (exists i :: 0 <= i < |Items(flags)| && Items(flags)[i].Word? && !IsRunFlag(Items(flags)[i].t))
        <==> AnyUnknown(flags)
    decreases |flags|
  {
    if flags != [] {
      AdjacentRest(flags);
      var n := if IsValueFlag(flags[0]) then 2 else 1;
      var tail, items, rest := flags[n..], Items(flags), Items(flags[n..]);
      WordsAreBare(tail);
      assert items == [items[0]] + rest;
      assert items[0].Word? <==> !IsValueFlag(flags[0]);
      assert items[0].Word? ==> items[0].t == flags[0];
      hide Items, AnyUnknown, IsRunFlag, Adjacent;
      if i :| 0 <= i < |rest| && rest[i].Word? && !IsRunFlag(rest[i].t) { assert items[i + 1] == rest[i]; }
      if i :| 0 <= i < |items| && items[i].Word? && !IsRunFlag(items[i].t) {
        if i > 0 { assert rest[i - 1] == items[i]; }
      }
      UnknownTail(flags, n);
    }
  }

  lemma {:induction false} UnknownTail(flags: seq<string>, n: nat)
    requires Adjacent(flags) && flags != [] && n == (if IsValueFlag(flags[0]) then 2 else 1)
    ensures n <= |flags|
    ensures AnyUnknown(flags) <==> (!IsValueFlag(flags[0]) && !IsRunFlag(flags[0])) || AnyUnknown(flags[n..])
  {
    AdjacentRest(flags);
    var tail := flags[n..];
    assert forall j :: 0 <= j < |tail| ==> tail[j] == flags[j + n];
    assert !IsValueFlag(flags[n - 1]);
    hide IsValueFlag, Adjacent;
    assert UnknownAt(flags, 0) <==> !IsValueFlag(flags[0]) && !IsRunFlag(flags[0]);
    forall k | n <= k < |flags| ensures UnknownAt(flags, k) <==> UnknownAt(tail, k - n) {
      assert tail[k - n] == flags[k];
      assert k > n ==> tail[k - n - 1] == flags[k - 1];
    }
    if AnyUnknown(flags) {
      var k :| 0 <= k < |flags| && UnknownAt(flags, k);
      if k >= n { assert UnknownAt(tail, k - n); }
    }
    if AnyUnknown(tail) {
      var k :| 0 <= k < |tail| && UnknownAt(tail, k);
      assert UnknownAt(flags, k + n);
    }
  }

  /** What is read of a flag that an adjacent, suitable vector gives, and only then. */
  lemma {:induction false} ReadIffGiven(num: string -> Numeric, flags: seq<string>, flag: string)
    requires Adjacent(flags) && IsValueFlag(flag)
    ensures var read := if IsStopFlag(flag) then LastOperand(UnsplitStops(flags), flag) else Extract(flag, flags).value;
      read.Some? <==> flag in flags
  {
    hide Extract, UnsplitStops, LastOperand;
    if flag in flags {
      GivenSomewhere(flags, flag);
      var i :| 0 <= i < |flags| && LastGiven(flags, flag, i);
      LastGivenIsRead(flags, flag, i);
    } else {
      NotGiven(flags, flag);
    }
  }

  lemma {:induction false} StopGivenIff(num: string -> Numeric, flags: seq<string>)
    requires Adjacent(flags) && !AnyUnsuitable(num, flags)
    ensures var stop := Stops(num, flags, NO_STOP).stop;
      && (stop.onMilestone.Some? <==> STOP_MILESTONE in flags)
      && (stop == NO_STOP <==>
            STOP_ISSUES !in flags && STOP_PRS !in flags && STOP_MILESTONE !in flags && STOP_SPEND !in flags)
  {
    StopsErrorIff(num, flags, NO_STOP);
    ErrorFreeIsAcceptable(num, flags, NO_STOP);
    StopsRead(num, flags, NO_STOP);
    var pairs := UnsplitStops(flags);
    forall flag | IsStopFlag(flag)
      ensures LastOperand(pairs, flag).Some? <==> flag in flags
      ensures flag != STOP_MILESTONE && LastOperand(pairs, flag).Some? ==> num(LastOperand(pairs, flag).value).Finite?
    {
      ReadIffGiven(num, flags, flag);
      FlagRead(num, flags, pairs, flag);
    }
    hide Stops, LastOperand, UnsplitStops, AnyUnsuitable, Adjacent;
    assert IsStopFlag(STOP_ISSUES) && IsStopFlag(STOP_PRS) && IsStopFlag(STOP_MILESTONE) && IsStopFlag(STOP_SPEND);
  }

  lemma {:induction false} RestIs(num: string -> Numeric, flags: seq<string>)
    requires Adjacent(flags)
    ensures !AfterConfig(flags).error && !AfterMilestone(flags).error
    ensures AfterStops(num, flags).error == NoError ==>
      AfterStops(num, flags).rest == Flatten(WithoutStops(Without(MILESTONE, Without(CONFIG, Items(flags)))))
  {
    var items := Items(flags);
    var c := Without(CONFIG, items);
    ItemsFlatten(flags);
    ExtractItems(CONFIG, items);
    FlattenWithout(CONFIG, items);
    ExtractItems(MILESTONE, c);
    FlattenWithout(MILESTONE, c);
    StopsItems(num, Without(MILESTONE, c), NO_STOP);
  }

  /** The stages of an adjacent vector, in its own tokens. */
  lemma {:induction false} StagesAre(num: string -> Numeric, flags: seq<string>)
    requires Adjacent(flags)
    ensures !AfterConfig(flags).error && !AfterMilestone(flags).error
    ensures AfterMilestone(flags).value.Some? <==> MILESTONE in flags
    ensures AfterStops(num, flags).error == NoError <==> !AnyUnsuitable(num, flags)
    ensures !AnyUnsuitable(num, flags) ==>
      && ((exists t :: t in AfterStops(num, flags).rest && !IsRunFlag(t)) <==> AnyUnknown(flags))
      && (AfterStops(num, flags).stop.onMilestone.Some? <==> STOP_MILESTONE in flags)
      && (AfterStops(num, flags).stop == NO_STOP <==>
            STOP_ISSUES !in flags && STOP_PRS !in flags && STOP_MILESTONE !in flags && STOP_SPEND !in flags)
  {
    StagedOnItems(num, flags);
    RestIs(num, flags);
    StopsErrorIff(num, flags, NO_STOP);
    ReadIffGiven(num, flags, MILESTONE);
    ItemsFlatten(flags);
    hide AfterConfig, AfterMilestone, AfterStops, Stops, Extract, Items, AnyUnsuitable, Adjacent, IsRunFlag, Flatten,
        AllRegular;
    if !AnyUnsuitable(num, flags) {
      StopGivenIff(num, flags);
      LeftoversAre(Items(flags));
      WordsAreBare(flags);
    }
  }

  /** The whole decision on an adjacent vector, refusal by refusal in their order. */
  lemma {:induction false} DecisionIs(num: string -> Numeric, flags: seq<string>)
    requires Unsplit(flags)
    ensures var d := DecideRun(num, flags);
      if "--help" in flags || "-h" in flags then d == Help
      else if AnyUnsuitable(num, flags) then d == Refused(StopOperand)
      else if "--milestone" in flags && "--stop-on-milestone" in flags then d == Refused(TwoMilestones)
      else if AnyUnknown(flags) then d == Refused(UnknownFlags)
      else if "--dry-run" in flags && ("--once" in flags || "--until-idle" in flags) then d == Refused(DryRunWithMode)
      else if "--dry-run" in flags
              && ("--stop-after-issues" in flags || "--stop-after-prs" in flags || "--stop-on-milestone" in flags
                  || "--stop-after-spend" in flags || "--milestone" in flags) then d == Refused(DryRunWithStop)
      else d.Accepted? && (d.configPath.Some? <==> "--config" in flags)
           && forall i :: 0 <= i < |flags| && LastGiven(flags, "--config", i) ==> d.configPath == Some(flags[i + 1])
  {
    UnsplitIsAdjacent(flags);
    StagesAre(num, flags);
    ReadIffGiven(num, flags, CONFIG);
    hide AfterMilestone, AfterStops, Extract, AnyUnsuitable, AnyUnknown, Adjacent, Unsplit, LastGiven, IsRunFlag;
    forall i | 0 <= i < |flags| && LastGiven(flags, "--config", i)
      ensures Extract(CONFIG, flags).value == Some(flags[i + 1])
    {
      LastGivenIsRead(flags, CONFIG, i);
    }
  }

  /** Other vectors: a config flag without its operand is refused before all else, and a milestone flag without one
      among what the config pass leaves is refused next. */
  lemma {:induction false} SplitIsRefused(num: string -> Numeric, flags: seq<string>)
    requires "--help" !in flags && "-h" !in flags
    ensures DecideRun(num, flags) == Refused(ConfigOperand) <==> Split("--config", flags)
    ensures !Split("--config", flags) ==>
      (DecideRun(num, flags) == Refused(MilestoneOperand) <==> Split("--milestone", Extract("--config", flags).rest))
  {
    ExtractErrorIff(CONFIG, flags);
    ExtractErrorIff(MILESTONE, AfterConfig(flags).rest);
    hide Extract, Split, AfterStops;
  }
}
