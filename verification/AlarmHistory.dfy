/**
  The alarm engine against its history. ConditionOf, Raises, Ends and IsActive speak of
  the events alone: what the last good value said, when an edge occurred, what ended an
  alarm. EngineFollowsHistory says that the engine's flags and dictionaries hold exactly
  that after every run of configuring, values and acknowledgements.
 */
module AlarmHistory {
  import opened Wrappers
  import opened VisuAlarms

  datatype Event = Configure(definitions: seq<Alarm>, getter: Getter) | Value(ev: ValueEvent) | Acknowledge(id: string)

  /** Stored definitions are validated: their ids are unique and every alarm can end. */
  ghost predicate ValidHistory(h: seq<Event>) {
    forall e :: e in h && e.Configure? ==> UniqueIds(e.definitions) && forall a :: a in e.definitions ==>
        a.ackButton || a.endOnClear
  }

  // ---- what the events say -----------------------------------------------------------------------

  /** The enabled definition in force. */
  function Definition(h: seq<Event>, id: string): Option<Alarm> {
    if h == [] then None
    else if h[|h| - 1].Configure? then Lookup(Enabled(h[|h| - 1].definitions), id)
    else Definition(h[..|h| - 1], id)
  }

  /** A good value of the alarm's datapoint. */
  predicate Concerns(e: Event, a: Alarm) {
    e.Value? && e.ev.good && e.ev.datapoint == a.datapoint
  }

  datatype Knowledge = Undefined | Unknown | Known(met: bool)

  /** The condition at the last good value since the last configuration, or else at that configuration. */
  function ConditionOf(h: seq<Event>, id: string, met: Test): Knowledge {
    if h == [] then Undefined
    else
      var (past, e) := (h[..|h| - 1], h[|h| - 1]);
      match Definition(h, id)
      case None => Undefined
      case Some(a) =>
        if e.Configure? then (match CurrentCondition(a, e.getter, met) case None => Unknown case Some(b) => Known(b))
        else if Concerns(e, a) then Known(met(a, e.ev.value))
        else ConditionOf(past, id, met)
  }

  /** The last event is a rising edge: a good, non-initial value makes a condition true that was known to be false. */
  predicate Raises(h: seq<Event>, id: string, met: Test)
    requires h != []
  {
    var (past, e) := (h[..|h| - 1], h[|h| - 1]);
    match Definition(past, id)
    case None => false
    case Some(a) =>
      Concerns(e, a) && !e.ev.initialization && met(a, e.ev.value)
      && ConditionOf(past, id, met) == Known(false)
  }

  /** The last event ends an active alarm: acknowledged, withdrawn or clear at a configuration, or a falling edge. */
  predicate Ends(h: seq<Event>, id: string, met: Test)
    requires h != []
  {
    var (past, e) := (h[..|h| - 1], h[|h| - 1]);
    match e
    case Acknowledge(x) => x == id && Definition(past, id).Some? && Definition(past, id).value.ackButton
    case Configure(_, _) => Definition(h, id).None?
        || (!Definition(h, id).value.ackButton && ConditionOf(h, id, met) == Known(false))
    case Value(ev) =>
      match Definition(past, id)
      case None => false
      case Some(a) =>
        Concerns(e, a) && a.endOnClear && !met(a, ev.value)
        && (ConditionOf(past, id, met) == Unknown || (!ev.initialization && ConditionOf(past, id, met) == Known(true)))
  }

  predicate IsActive(h: seq<Event>, id: string, met: Test) {
    h != [] && (Raises(h, id, met) || (IsActive(h[..|h| - 1], id, met) && !Ends(h, id, met)))
  }

  /** When the active alarm was raised. */
  function Since(h: seq<Event>, id: string, met: Test): int
    requires IsActive(h, id, met)
  {
    if IsActive(h[..|h| - 1], id, met) then Since(h[..|h| - 1], id, met) else h[|h| - 1].ev.clock(id)
  }

  // ---- what the engine does ------------------------------------------------------------------------

  function Apply(c: Core, e: Event, met: Test): Core {
    match e
    case Configure(definitions, getter) => Configured(c, definitions, getter, met)
    case Value(ev) => Handled(c, ev, met)
    case Acknowledge(id) => Acknowledged(c, id)
  }

  function RunCore(h: seq<Event>, met: Test): Core {
    if h == [] then IDLE else Apply(RunCore(h[..|h| - 1], met), h[|h| - 1], met)
  }

  /** What the engine holds of one alarm. */
  datatype Slice = Slice(was: bool, unknown: bool, active: Option<Active>)

  function SliceOf(c: Core, id: string): Slice {
    Slice(Was(c, id), id in c.unknown, Find(c.active, id))
  }

  function SliceStep(s: Slice, a: Alarm, ev: ValueEvent, met: Test): Slice {
    var now := met(a, ev.value);
    var ended := !now && a.endOnClear && s.active.Some?;
    if s.unknown then Slice(now, false, if ended then None else s.active)
    else if ev.initialization then s.(was := now)
    else if now && !s.was && s.active.None? then Slice(now, false, Some(Active(a, ev.clock(a.id))))
    else if ended && s.was then Slice(now, false, None)
    else s.(was := now)
  }

  lemma StepSlicesOwn(c: Core, a: Alarm, ev: ValueEvent, met: Test)
    ensures SliceOf(AlarmStep(c, a, ev, met), a.id) == SliceStep(SliceOf(c, a.id), a, ev, met)
  {
    var raised := Active(a, ev.clock(a.id));
    FindWithout(c.active, a.id, a.id);
    FindAppend(c.active, raised, a.id);
    var next := AlarmStep(c, a, ev, met);
    assert Was(next, a.id) == met(a, ev.value);
    if a.id in c.unknown {
    } else if ev.initialization {
    } else if met(a, ev.value) && !Was(c, a.id) && Find(c.active, a.id).None? {
      assert next.active == c.active + [raised];
    } else {
    }
  }

  lemma StepSlicesOther(c: Core, a: Alarm, ev: ValueEvent, met: Test, id: string)
    requires id != a.id
    ensures SliceOf(AlarmStep(c, a, ev, met), id) == SliceOf(c, id)
  {
    var next := AlarmStep(c, a, ev, met);
    FindWithout(c.active, a.id, id);
    FindAppend(c.active, Active(a, ev.clock(a.id)), id);
    assert Was(next, id) == Was(c, id);
    assert id in next.unknown <==> id in c.unknown;
    assert next.active == c.active || next.active == Without(c.active, a.id)
        || next.active == c.active + [Active(a, ev.clock(a.id))];
  }

  /** A step for one alarm changes what the engine holds of that alarm, and of no other. */
  lemma StepSlices(c: Core, a: Alarm, ev: ValueEvent, met: Test, id: string)
    ensures SliceOf(AlarmStep(c, a, ev, met), id) == if id == a.id then SliceStep(SliceOf(c, id), a, ev, met)
        else SliceOf(c, id)
    ensures AlarmStep(c, a, ev, met).alarms == c.alarms
  {
    if id == a.id { StepSlicesOwn(c, a, ev, met); } else { StepSlicesOther(c, a, ev, met, id); }
  }

  lemma {:induction false} StepsSlices(c: Core, alarms: seq<Alarm>, ev: ValueEvent, met: Test, id: string)
    requires UniqueIds(alarms)
    ensures SliceOf(AlarmSteps(c, alarms, ev, met), id)
            == (match Lookup(alarms, id)
                case None => SliceOf(c, id)
                case Some(a) => SliceStep(SliceOf(c, id), a, ev, met))
    ensures AlarmSteps(c, alarms, ev, met).alarms == c.alarms
  {
    if alarms != [] {
      var n := |alarms| - 1;
      StepsSlices(c, alarms[..n], ev, met, id);
      StepSlices(AlarmSteps(c, alarms[..n], ev, met), alarms[n], ev, met, id);
    }
  }

  lemma LookupOfDatapoint(alarms: seq<Alarm>, dp: string, id: string)
    requires UniqueIds(alarms)
    ensures Lookup(OfDatapoint(alarms, dp), id)
            == (match Lookup(alarms, id) case None => None case Some(a) => if a.datapoint == dp then Some(a) else None)
  {
    OfDatapointUnique(alarms, dp);
    match Lookup(alarms, id)
    case None =>
    case Some(a) =>
      if a.datapoint == dp {
        LookupUnique(OfDatapoint(alarms, dp), a);
      } else if Lookup(OfDatapoint(alarms, dp), id).Some? {
        LookupUnique(alarms, Lookup(OfDatapoint(alarms, dp), id).value);
      }
  }

  // ---- the refinement ----------------------------------------------------------------------------------

  /** What the engine should hold of an alarm, from the history alone. */
  function SliceFor(h: seq<Event>, id: string, met: Test): Slice {
    Slice(ConditionOf(h, id, met) == Known(true), ConditionOf(h, id, met) == Unknown,
          if IsActive(h, id, met) && Definition(h, id).Some?
              then Some(Active(Definition(h, id).value, Since(h, id, met))) else None)
  }

  lemma {:induction false} ActiveIsDefined(h: seq<Event>, id: string, met: Test)
    ensures IsActive(h, id, met) ==> Definition(h, id).Some?
    ensures ConditionOf(h, id, met) == Undefined <==> Definition(h, id).None?
  {
    if h != [] {
      ActiveIsDefined(h[..|h| - 1], id, met);
    }
  }

  lemma {:induction false} DefinitionsFollow(h: seq<Event>, met: Test)
    requires ValidHistory(h)
    ensures UniqueIds(RunCore(h, met).alarms)
    ensures forall id :: Lookup(RunCore(h, met).alarms, id) == Definition(h, id)
    ensures forall a :: a in RunCore(h, met).alarms ==> a.ackButton || a.endOnClear
  {
    if h != [] {
      var (past, e) := (h[..|h| - 1], h[|h| - 1]);
      assert e in h && forall x :: x in past ==> x in h;
      DefinitionsFollow(past, met);
      var c := RunCore(past, met);
      match e
      case Configure(definitions, _) => EnabledUnique(definitions);
      case Value(ev) =>
        OfDatapointUnique(c.alarms, ev.datapoint);
        StepsSlices(c, OfDatapoint(c.alarms, ev.datapoint), ev, met, "");
      case Acknowledge(_) =>
    }
  }

  /** What is known of an alarm's condition at a configuration; an alarm not defined counts as false. */
  function KnownAt(enabled: seq<Alarm>, getter: Getter, met: Test, id: string): Option<bool> {
    if Lookup(enabled, id).None? then Some(false) else CurrentCondition(Lookup(enabled, id).value, getter, met)
  }

  lemma BaselineSlices(enabled: seq<Alarm>, getter: Getter, met: Test, id: string)
    requires UniqueIds(enabled)
    ensures (id in Baseline(enabled, getter, met) && Baseline(enabled, getter, met)[id])
        == (KnownAt(enabled, getter, met, id) == Some(true))
    ensures id in NotKnown(enabled, getter, met) <==> KnownAt(enabled, getter, met, id).None?
  {
    assert id in AlarmIds(enabled) <==> Lookup(enabled, id).Some?;
    if Lookup(enabled, id).Some? {
      forall b | b in enabled && b.id == id ensures Some(b) == Lookup(enabled, id) {
        LookupUnique(enabled, b);
      }
    }
  }

  lemma ConfigureSlices(c: Core, definitions: seq<Alarm>, getter: Getter, met: Test, id: string)
    requires UniqueIds(definitions)
    ensures var (defined, known) := (Lookup(Enabled(definitions), id), KnownAt(Enabled(definitions), getter, met, id));
            SliceOf(Configured(c, definitions, getter, met), id)
            == Slice(known == Some(true), known.None?,
                     if defined.Some? && Find(c.active, id).Some? && (defined.value.ackButton || known != Some(false))
                     then Some(Active(defined.value, Find(c.active, id).value.since)) else None)
  {
    var enabled := Enabled(definitions);
    EnabledUnique(definitions);
    BaselineSlices(enabled, getter, met, id);
    var (condition, unknown) := (Baseline(enabled, getter, met), NotKnown(enabled, getter, met));
    assert Configured(c, definitions, getter, met)
        == Core(enabled, condition, unknown, Kept(c.active, enabled, condition, unknown));
    KeptSlices(c.active, enabled, condition, unknown, id, KnownAt(enabled, getter, met, id));
  }

  lemma KeptSlices(
    active: seq<Active>, enabled: seq<Alarm>, condition: map<string, bool>, unknown: set<string>, id: string,
    known: Option<bool>)
    requires (id in condition && condition[id]) == (known == Some(true)) && (id in unknown <==> known.None?)
    ensures var defined := Lookup(enabled, id);
            Find(Kept(active, enabled, condition, unknown), id)
            == if defined.Some? && Find(active, id).Some? && (defined.value.ackButton || known != Some(false))
               then Some(Active(defined.value, Find(active, id).value.since)) else None
  {
    FindKept(active, enabled, condition, unknown, id);
    var stays := id in unknown || (id in condition && condition[id]);
    assert stays <==> known != Some(false) by {
      match known
      case None =>
      case Some(b) =>
    }
    match Lookup(enabled, id)
    case None =>
    case Some(a) =>
      match Find(active, id)
      case None =>
      case Some(x) => assert (a.ackButton || id in unknown || (id in condition && condition[id]))
          == (a.ackButton || stays);
  }

  lemma ConfigureFollows(past: seq<Event>, definitions: seq<Alarm>, getter: Getter, id: string, met: Test)
    requires UniqueIds(definitions)
    requires SliceOf(RunCore(past, met), id) == SliceFor(past, id, met)
    ensures SliceOf(Configured(RunCore(past, met), definitions, getter, met), id)
        == SliceFor(past + [Configure(definitions, getter)], id, met)
  {
    var h := past + [Configure(definitions, getter)];
    assert h[..|past|] == past;
    ActiveIsDefined(past, id, met);
    ConfigureSlices(RunCore(past, met), definitions, getter, met, id);
    var (defined, known) := (Lookup(Enabled(definitions), id), KnownAt(Enabled(definitions), getter, met, id));
    assert Definition(h, id) == defined;
    assert ConditionOf(h, id, met) == if defined.None? then Undefined else if known.None? then Unknown
        else Known(known.value);
    assert IsActive(h, id, met) <==> IsActive(past, id, met) && !Ends(h, id, met);
  }

  lemma AcknowledgeFollows(past: seq<Event>, x: string, id: string, met: Test)
    requires SliceOf(RunCore(past, met), id) == SliceFor(past, id, met)
    requires Lookup(RunCore(past, met).alarms, id) == Definition(past, id)
    ensures SliceOf(Acknowledged(RunCore(past, met), x), id) == SliceFor(past + [Acknowledge(x)], id, met)
  {
    var h, c := past + [Acknowledge(x)], RunCore(past, met);
    assert h[..|past|] == past;
    ActiveIsDefined(past, id, met);
    FindWithout(c.active, x, id);
    assert IsActive(h, id, met) <==> IsActive(past, id, met) && !Ends(h, id, met);
  }

  lemma ValueFollows(past: seq<Event>, ev: ValueEvent, id: string, met: Test)
    requires SliceOf(RunCore(past, met), id) == SliceFor(past, id, met)
    requires UniqueIds(RunCore(past, met).alarms) && Lookup(RunCore(past, met).alarms, id) == Definition(past, id)
    ensures SliceOf(Handled(RunCore(past, met), ev, met), id) == SliceFor(past + [Value(ev)], id, met)
  {
    var h, c := past + [Value(ev)], RunCore(past, met);
    assert h[..|past|] == past && h[|past|] == Value(ev);
    ActiveIsDefined(past, id, met);
    var own := OfDatapoint(c.alarms, ev.datapoint);
    OfDatapointUnique(c.alarms, ev.datapoint);
    LookupOfDatapoint(c.alarms, ev.datapoint, id);
    StepsSlices(c, own, ev, met, id);
    assert Definition(h, id) == Definition(past, id);
    if !ev.good || Lookup(own, id).None? {
      assert SliceOf(Handled(c, ev, met), id) == SliceOf(c, id);
    } else {
      ConcernedFollows(past, ev, Definition(past, id).value, met);
    }
  }

  /** The edge logic: one good value of the alarm's own datapoint. */
  lemma ConcernedFollows(past: seq<Event>, ev: ValueEvent, a: Alarm, met: Test)
    requires Definition(past, a.id) == Some(a) && Concerns(Value(ev), a)
    ensures SliceStep(SliceFor(past, a.id, met), a, ev, met) == SliceFor(past + [Value(ev)], a.id, met)
  {
    var h := past + [Value(ev)];
    assert h[..|past|] == past && h[|past|] == Value(ev);
    ActiveIsDefined(past, a.id, met);
    assert Definition(h, a.id) == Some(a);
    assert ConditionOf(h, a.id, met) == Known(met(a, ev.value));
    assert IsActive(h, a.id, met) <==> Raises(h, a.id, met) || (IsActive(past, a.id, met) && !Ends(h, a.id, met));
  }

  /** After every run, the engine holds exactly what the history says, for every alarm. */
  lemma {:induction false} EngineFollowsHistory(h: seq<Event>, id: string, met: Test)
    requires ValidHistory(h)
    ensures SliceOf(RunCore(h, met), id) == SliceFor(h, id, met)
  {
    if h != [] {
      var (past, e) := (h[..|h| - 1], h[|h| - 1]);
      assert h == past + [e] && e in h && forall x :: x in past ==> x in h;
      EngineFollowsHistory(past, id, met);
      DefinitionsFollow(past, met);
      match e
      case Configure(definitions, getter) => ConfigureFollows(past, definitions, getter, id, met);
      case Acknowledge(x) => AcknowledgeFollows(past, x, id, met);
      case Value(ev) => ValueFollows(past, ev, id, met);
    }
  }

  // ---- consequences for whole runs -----------------------------------------------------------------------

  /** An alarm becomes active exactly at a rising edge: configuring and acknowledging never raise one. */
  lemma RaisedExactlyAtEdges(h: seq<Event>, id: string, met: Test)
    requires ValidHistory(h) && h != []
    ensures Find(RunCore(h[..|h| - 1], met).active, id).None? && Find(RunCore(h, met).active, id).Some?
            <==> Raises(h, id, met) && !IsActive(h[..|h| - 1], id, met)
  {
    assert forall x :: x in h[..|h| - 1] ==> x in h;
    EngineFollowsHistory(h, id, met);
    EngineFollowsHistory(h[..|h| - 1], id, met);
    ActiveIsDefined(h, id, met);
    ActiveIsDefined(h[..|h| - 1], id, met);
  }

  /** Events that neither configure nor carry a good value of the datapoint leave what is known alone. */
  ghost predicate Quiet(events: seq<Event>, a: Alarm) {
    forall e :: e in events ==> !e.Configure? && !Concerns(e, a)
  }

  lemma {:induction false} QuietKeepsCondition(h: seq<Event>, quiet: seq<Event>, a: Alarm, met: Test)
    requires Definition(h, a.id) == Some(a) && Quiet(quiet, a)
    ensures Definition(h + quiet, a.id) == Some(a)
    ensures ConditionOf(h + quiet, a.id, met) == ConditionOf(h, a.id, met)
    decreases |quiet|
  {
    if quiet == [] {
      assert h + quiet == h;
    } else {
      var n := |quiet| - 1;
      assert (h + quiet)[..|h + quiet| - 1] == h + quiet[..n];
      assert quiet[n] in quiet && forall e :: e in quiet[..n] ==> e in quiet;
      QuietKeepsCondition(h, quiet[..n], a, met);
    }
  }

  /** The engine's condition is that of the last good value since the definition came into force. */
  lemma ConditionIsThatOfTheLastGoodValue(h: seq<Event>, ev: ValueEvent, quiet: seq<Event>, a: Alarm, met: Test)
    requires ValidHistory(h + [Value(ev)] + quiet)
    requires Definition(h, a.id) == Some(a) && Concerns(Value(ev), a) && Quiet(quiet, a)
    ensures var c := RunCore(h + [Value(ev)] + quiet, met); Was(c, a.id) == met(a, ev.value) && a.id !in c.unknown
  {
    var upto := h + [Value(ev)];
    assert upto[..|h|] == h && upto[|h|] == Value(ev);
    QuietKeepsCondition(upto, quiet, a, met);
    EngineFollowsHistory(upto + quiet, a.id, met);
  }

  /**
    Configuring: only enabled alarms are watched. One whose datapoint has no reading, no
    value or no good one is unknown; otherwise its condition is that of the value, and
    without a registry false.
   */
  lemma ConfiguredExactly(h: seq<Event>, definitions: seq<Alarm>, getter: Getter, a: Alarm, met: Test)
    requires ValidHistory(h + [Configure(definitions, getter)]) && a in definitions
    ensures var c := RunCore(h + [Configure(definitions, getter)], met);
            && (a in c.alarms <==> a.enabled)
            && (!a.enabled ==> a.id !in c.unknown && !Was(c, a.id) && Find(c.active, a.id).None?)
            && (a.enabled ==>
                  match getter
                  case None => a.id !in c.unknown && !Was(c, a.id)
                  case Some(get) =>
                    match get(a.datapoint)
                    case None => a.id in c.unknown
                    case Some(state) =>
                      if state.value == NoValue || !state.good then a.id in c.unknown
                      else a.id !in c.unknown && Was(c, a.id) == met(a, state.value))
  {
    var e := Configure(definitions, getter);
    var all := h + [e];
    assert all[..|h|] == h && e in all;
    var enabled := Enabled(definitions);
    EnabledUnique(definitions);
    ConfigureSlices(RunCore(h, met), definitions, getter, met, a.id);
    if a.enabled {
      LookupUnique(enabled, a);
    } else {
      forall b | b in enabled ensures b.id != a.id {
        assert b in definitions && b != a;
      }
    }
  }

  /**
    The first good value after a configuration that knew nothing is the baseline: it raises
    nothing, and of an alarm still active it ends one that clears and is not met.
   */
  lemma FirstValueIsTheBaseline(
    h: seq<Event>, definitions: seq<Alarm>, get: string -> Option<Reading>, quiet: seq<Event>, ev: ValueEvent,
    a: Alarm, met: Test)
    requires var past := h + [Configure(definitions, Some(get))] + quiet; ValidHistory(past + [Value(ev)])
    requires a in definitions && a.enabled && Quiet(quiet, a) && Concerns(Value(ev), a)
    requires var state := get(a.datapoint); state.None? || state.value.value == NoValue || !state.value.good
    ensures var past := h + [Configure(definitions, Some(get))] + quiet;
            var (c, d) := (RunCore(past, met), RunCore(past + [Value(ev)], met));
            && a.id in c.unknown && a.id !in d.unknown && Was(d, a.id) == met(a, ev.value)
            && (Find(d.active, a.id).Some?
                <==> Find(c.active, a.id).Some? && !(a.endOnClear && !met(a, ev.value)))
  {
    var first := h + [Configure(definitions, Some(get))];
    var past := first + quiet;
    var all := past + [Value(ev)];
    assert all[..|past|] == past && forall e :: e in past ==> e in all;
    assert first[..|h|] == h && forall e :: e in first ==> e in past;
    assert ValidHistory(past) && ValidHistory(first);
    assert Configure(definitions, Some(get)) in first;
    EnabledUnique(definitions);
    LookupUnique(Enabled(definitions), a);
    ConfiguredExactly(h, definitions, Some(get), a, met);
    EngineFollowsHistory(first, a.id, met);
    QuietKeepsCondition(first, quiet, a, met);
    EngineFollowsHistory(past, a.id, met);
    EngineFollowsHistory(all, a.id, met);
    ActiveIsDefined(past, a.id, met);
    ActiveIsDefined(all, a.id, met);
  }

  /** An active alarm that can only end by clearing, although its condition is known to be false. */
  predicate Stuck(h: seq<Event>, id: string, met: Test) {
    IsActive(h, id, met) && Definition(h, id).Some? && !Definition(h, id).value.ackButton
        && ConditionOf(h, id, met) == Known(false)
  }

  lemma {:induction false} DefinitionsAreValid(h: seq<Event>, id: string)
    requires ValidHistory(h)
    ensures Definition(h, id).Some? ==> Definition(h, id).value.ackButton || Definition(h, id).value.endOnClear
  {
    if h != [] {
      assert h[|h| - 1] in h && forall x :: x in h[..|h| - 1] ==> x in h;
      DefinitionsAreValid(h[..|h| - 1], id);
    }
  }

  /** It gets stuck exactly when an initialization value lowers a condition that was known to be true. */
  lemma StuckExactlyByInitialization(h: seq<Event>, id: string, met: Test)
    requires ValidHistory(h) && h != [] && !Stuck(h[..|h| - 1], id, met)
    ensures var (past, e) := (h[..|h| - 1], h[|h| - 1]);
            Stuck(h, id, met)
            <==> && Definition(past, id).Some? && !Definition(past, id).value.ackButton && IsActive(past, id, met)
                 && ConditionOf(past, id, met) == Known(true)
                 && Concerns(e, Definition(past, id).value) && e.ev.initialization
                     && !met(Definition(past, id).value, e.ev.value)
  {
    var past := h[..|h| - 1];
    assert forall x :: x in past ==> x in h;
    DefinitionsAreValid(past, id);
    ActiveIsDefined(past, id, met);
    ActiveIsDefined(h, id, met);
  }

  ghost predicate NoInitialization(h: seq<Event>) {
    forall e :: e in h ==> !(e.Value? && e.ev.initialization)
  }

  /** Without initialization values, an alarm without an acknowledge button never outlives its condition. */
  lemma {:induction false} NeverStuckWithoutInitialization(h: seq<Event>, id: string, met: Test)
    requires ValidHistory(h) && NoInitialization(h)
    ensures !Stuck(h, id, met)
    ensures var c := RunCore(h, met);
            Find(c.active, id).Some? && !Find(c.active, id).value.alarm.ackButton ==> Was(c, id) || id in c.unknown
  {
    if h != [] {
      assert h[|h| - 1] in h && forall x :: x in h[..|h| - 1] ==> x in h;
      NeverStuckWithoutInitialization(h[..|h| - 1], id, met);
      StuckExactlyByInitialization(h, id, met);
    }
    EngineFollowsHistory(h, id, met);
    ActiveIsDefined(h, id, met);
  }

  /** With one it can: raised by a value, then lowered by an initialization value, the alarm stays. */
  lemma InitializationCanStrand(met: Test, on: VisuAlarms.Value, off: VisuAlarms.Value)
    requires var a := Alarm("a", "dp", true, "==", "1", false, true, ""); met(a, on) && !met(a, off)
    ensures var a := Alarm("a", "dp", true, "==", "1", false, true, "");
            exists h :: ValidHistory(h) && Stuck(h, "a", met)
  {
    var a := Alarm("a", "dp", true, "==", "1", false, true, "");
    var h1 := [Configure([a], None)];
    assert [a][..0] == [] && Enabled([a][..0]) == [];
    assert Enabled([a]) == [] + [a] == [a];
    assert Definition(h1, "a") == Some(a) && ConditionOf(h1, "a", met) == Known(false);
    var h2 := h1 + [Value(ValueEvent("dp", on, true, false, (_: string) => 0))];
    assert h2[..1] == h1;
    assert Raises(h2, "a", met) && ConditionOf(h2, "a", met) == Known(true);
    var h3 := h2 + [Value(ValueEvent("dp", off, true, true, (_: string) => 0))];
    assert h3[..2] == h2 && h3[2].ev.initialization && h3[2].ev.value == off;
    assert ValidHistory(h3);
    assert Definition(h2, "a") == Some(a) && IsActive(h2, "a", met);
    StuckExactlyByInitialization(h3, "a", met);
  }
}
