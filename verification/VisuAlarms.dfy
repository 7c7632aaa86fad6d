/**
  VisuAlarmEngine (obs/visu_alarms.py): edge-triggered alarms over datapoints. This file
  holds the engine's state and one step of each kind, with the class that performs them
  by updating its fields and feeding the listeners' queues; AlarmHistory.dfy relates
  whole runs to a specification over the history of events.
 */
module VisuAlarms {
  import opened Wrappers

  datatype Value = NoValue | Data(content: string)

  /** A validated definition; `display` stands for everything the Visu shows. */
  datatype Alarm = Alarm(
    id: string, datapoint: string, enabled: bool, operator: string, compare: string,
    ackButton: bool, endOnClear: bool, display: string)

  datatype Active = Active(alarm: Alarm, since: int)

  /** evaluate_condition: any pure test of a value against an alarm's definition. */
  type Test = (Alarm, Value) -> bool

  datatype Reading = Reading(value: Value, good: bool)

  /** The registry's current values; None when no registry is wired. */
  type Getter = Option<string -> Option<Reading>>

  /** `clock` gives the instant at which the event raises an alarm. */
  datatype ValueEvent = ValueEvent(datapoint: string, value: Value, good: bool, initialization: bool,
      clock: string -> int)

  ghost predicate UniqueIds(alarms: seq<Alarm>) {
    forall i, j :: 0 <= i < j < |alarms| ==> alarms[i].id != alarms[j].id
  }

  function Enabled(alarms: seq<Alarm>): (r: seq<Alarm>)
    ensures forall a :: a in r <==> a in alarms && a.enabled
  {
    if alarms == [] then []
    else Enabled(alarms[..|alarms| - 1]) + if alarms[|alarms| - 1].enabled then [alarms[|alarms| - 1]] else []
  }

  lemma {:induction false} EnabledUnique(alarms: seq<Alarm>)
    requires UniqueIds(alarms)
    ensures UniqueIds(Enabled(alarms))
  {
    if alarms != [] {
      var n := |alarms| - 1;
      EnabledUnique(alarms[..n]);
      forall x | x in alarms[..n] ensures x.id != alarms[n].id {
        var i :| 0 <= i < n && alarms[i] == x;
      }
    }
  }

  function Lookup(alarms: seq<Alarm>, id: string): (r: Option<Alarm>)
    ensures r.Some? ==> r.value in alarms && r.value.id == id
    ensures r.None? ==> forall a :: a in alarms ==> a.id != id
  {
    if alarms == [] then None
    else if alarms[|alarms| - 1].id == id then Some(alarms[|alarms| - 1])
    else Lookup(alarms[..|alarms| - 1], id)
  }

  lemma LookupUnique(alarms: seq<Alarm>, a: Alarm)
    requires UniqueIds(alarms) && a in alarms
    ensures Lookup(alarms, a.id) == Some(a)
  {
  }

  function OfDatapoint(alarms: seq<Alarm>, datapoint: string): (r: seq<Alarm>)
    ensures forall a :: a in r <==> a in alarms && a.datapoint == datapoint
  {
    if alarms == [] then []
    else OfDatapoint(alarms[..|alarms| - 1], datapoint)
         + if alarms[|alarms| - 1].datapoint == datapoint then [alarms[|alarms| - 1]] else []
  }

  lemma {:induction false} OfDatapointEmpty(alarms: seq<Alarm>, datapoint: string)
    ensures (forall a :: a in alarms ==> a.datapoint != datapoint) ==> OfDatapoint(alarms, datapoint) == []
  {
    if alarms != [] {
      OfDatapointEmpty(alarms[..|alarms| - 1], datapoint);
    }
  }

  lemma {:induction false} OfDatapointUnique(alarms: seq<Alarm>, datapoint: string)
    requires UniqueIds(alarms)
    ensures UniqueIds(OfDatapoint(alarms, datapoint))
  {
    if alarms != [] {
      var n := |alarms| - 1;
      OfDatapointUnique(alarms[..n], datapoint);
      forall x | x in alarms[..n] ensures x.id != alarms[n].id {
        var i :| 0 <= i < n && alarms[i] == x;
      }
    }
  }

  /** The condition for the current value; None when it is not known. */
  function CurrentCondition(a: Alarm, getter: Getter, met: Test): Option<bool> {
    match getter
    case None => Some(false)
    case Some(get) =>
      match get(a.datapoint)
      case None => None
      case Some(state) => if state.value == NoValue || !state.good then None else Some(met(a, state.value))
  }

  // ---- the active alarms, in order of insertion ------------------------------------------------

  function Find(active: seq<Active>, id: string): (r: Option<Active>)
    ensures r.Some? ==> r.value in active && r.value.alarm.id == id
    ensures r.None? ==> forall x :: x in active ==> x.alarm.id != id
  {
    if active == [] then None else if active[0].alarm.id == id then Some(active[0]) else Find(active[1..], id)
  }

  function Without(active: seq<Active>, id: string): (r: seq<Active>)
    ensures forall x :: x in r <==> x in active && x.alarm.id != id
  {
    if active == [] then [] else (if active[0].alarm.id == id then [] else [active[0]]) + Without(active[1..], id)
  }

  lemma {:induction false} FindWithout(active: seq<Active>, id: string, other: string)
    ensures Find(Without(active, id), id) == None
    ensures other != id ==> Find(Without(active, id), other) == Find(active, other)
  {
    if active != [] {
      var rest := Without(active[1..], id);
      FindWithout(active[1..], id, other);
      if active[0].alarm.id == id {
        assert [] + rest == rest;
      } else {
        assert ([active[0]] + rest)[1..] == rest;
      }
    }
  }

  lemma {:induction false} FindAppend(active: seq<Active>, x: Active, id: string)
    ensures Find(active + [x], id) == if Find(active, id).Some? then Find(active, id) else if x.alarm.id == id
        then Some(x) else None
  {
    if active != [] {
      assert (active + [x])[1..] == active[1..] + [x];
      FindAppend(active[1..], x, id);
    }
  }

  /** What configuring keeps of the active alarms, each with its new definition. */
  function Kept(
    active: seq<Active>, alarms: seq<Alarm>, condition: map<string, bool>, unknown: set<string>): seq<Active>
  {
    if active == [] then []
    else
      var id := active[0].alarm.id;
      var rest := Kept(active[1..], alarms, condition, unknown);
      match Lookup(alarms, id)
      case None => rest
      case Some(a) => if a.ackButton || id in unknown || (id in condition && condition[id])
          then [Active(a, active[0].since)] + rest else rest
  }

  lemma {:induction false} FindKept(
    active: seq<Active>, alarms: seq<Alarm>, condition: map<string, bool>, unknown: set<string>, id: string)
    ensures Find(Kept(active, alarms, condition, unknown), id)
            == match (Find(active, id), Lookup(alarms, id))
               case (Some(x), Some(a)) => if a.ackButton || id in unknown || (id in condition && condition[id])
                   then Some(Active(a, x.since)) else None
               case _ => None
  {
    if active != [] {
      FindKept(active[1..], alarms, condition, unknown, id);
    }
  }

  ghost predicate UniqueActive(active: seq<Active>) {
    forall i, j :: 0 <= i < j < |active| ==> active[i].alarm.id != active[j].alarm.id
  }

  lemma {:induction false} KeptUnique(
    active: seq<Active>, alarms: seq<Alarm>, condition: map<string, bool>, unknown: set<string>)
    requires UniqueActive(active)
    ensures UniqueActive(Kept(active, alarms, condition, unknown))
    ensures forall x :: x in Kept(active, alarms, condition, unknown) ==>
        exists y :: y in active && y.alarm.id == x.alarm.id
  {
    if active != [] {
      KeptUnique(active[1..], alarms, condition, unknown);
    }
  }

  lemma {:induction false} WithoutUnique(active: seq<Active>, id: string)
    requires UniqueActive(active)
    ensures UniqueActive(Without(active, id))
  {
    if active != [] {
      WithoutUnique(active[1..], id);
    }
  }

  // ---- one step --------------------------------------------------------------------------------

  datatype Core = Core(alarms: seq<Alarm>, condition: map<string, bool>, unknown: set<string>, active: seq<Active>)

  const IDLE := Core([], map[], {}, [])

  function AlarmIds(alarms: seq<Alarm>): set<string> {
    set a | a in alarms :: a.id
  }

  function Baseline(alarms: seq<Alarm>, getter: Getter, met: Test): map<string, bool> {
    map id | id in AlarmIds(alarms) :: CurrentCondition(Lookup(alarms, id).value, getter, met) == Some(true)
  }

  function NotKnown(alarms: seq<Alarm>, getter: Getter, met: Test): set<string> {
    set a | a in alarms && CurrentCondition(a, getter, met).None? :: a.id
  }

  lemma IdsGrow(alarms: seq<Alarm>, a: Alarm)
    ensures forall x :: x in alarms + [a] <==> x in alarms || x == a
    ensures AlarmIds(alarms + [a]) == AlarmIds(alarms) + {a.id}
  {
  }

  lemma BaselineGrows(alarms: seq<Alarm>, a: Alarm, getter: Getter, met: Test)
    ensures Baseline(alarms + [a], getter, met)
        == Baseline(alarms, getter, met)[a.id := CurrentCondition(a, getter, met) == Some(true)]
  {
    var all := alarms + [a];
    IdsGrow(alarms, a);
    assert all[..|all| - 1] == alarms;
    forall id | id in AlarmIds(all) ensures Lookup(all, id) == if id == a.id then Some(a) else Lookup(alarms, id) {
    }
  }

  lemma NotKnownGrows(alarms: seq<Alarm>, a: Alarm, getter: Getter, met: Test)
    ensures NotKnown(alarms + [a], getter, met)
        == NotKnown(alarms, getter, met) + if CurrentCondition(a, getter, met).None? then {a.id} else {}
  {
    IdsGrow(alarms, a);
  }

  function Configured(c: Core, alarms: seq<Alarm>, getter: Getter, met: Test): Core {
    var enabled := Enabled(alarms);
    var (condition, unknown) := (Baseline(enabled, getter, met), NotKnown(enabled, getter, met));
    Core(enabled, condition, unknown, Kept(c.active, enabled, condition, unknown))
  }

  function Was(c: Core, id: string): bool {
    id in c.condition && c.condition[id]
  }

  /** One alarm of the event's datapoint. */
  function AlarmStep(c: Core, a: Alarm, ev: ValueEvent, met: Test): Core {
    var now := met(a, ev.value);
    var next := c.(condition := c.condition[a.id := now]);
    var active := Find(c.active, a.id).Some?;
    if a.id in c.unknown then
      next.(unknown := c.unknown - {a.id},
            active := if !now && a.endOnClear && active then Without(c.active, a.id) else c.active)
    else if ev.initialization then next
    else if now && !Was(c, a.id) && !active then next.(active := c.active + [Active(a, ev.clock(a.id))])
    else if !now && Was(c, a.id) && a.endOnClear && active then next.(active := Without(c.active, a.id))
    else next
  }

  function AlarmSteps(c: Core, alarms: seq<Alarm>, ev: ValueEvent, met: Test): Core {
    if alarms == [] then c
    else AlarmStep(AlarmSteps(c, alarms[..|alarms| - 1], ev, met), alarms[|alarms| - 1], ev, met)
  }

  function Handled(c: Core, ev: ValueEvent, met: Test): Core {
    if !ev.good then c else AlarmSteps(c, OfDatapoint(c.alarms, ev.datapoint), ev, met)
  }

  function Acknowledged(c: Core, id: string): Core {
    match Find(c.active, id)
    case Some(x) => if x.alarm.ackButton then c.(active := Without(c.active, id)) else c
    case None => c
  }

  // ---- the list a Visu receives -----------------------------------------------------------------

  function InsertBySince(x: Active, sorted: seq<Active>): (r: seq<Active>)
    ensures multiset(r) == multiset(sorted) + multiset{x}
  {
    if sorted == [] || x.since >= sorted[0].since then [x] + sorted
    else
      assert sorted == [sorted[0]] + sorted[1..];
      [sorted[0]] + InsertBySince(x, sorted[1..])
  }

  /** Latest first; alarms of one instant in order of insertion. */
  function ActiveList(active: seq<Active>): (r: seq<Active>)
    ensures multiset(r) == multiset(active)
  {
    if active == [] then []
    else
      assert active == [active[0]] + active[1..];
      InsertBySince(active[0], ActiveList(active[1..]))
  }

  ghost predicate LatestFirst(list: seq<Active>) {
    forall i, j :: 0 <= i < j < |list| ==> list[i].since >= list[j].since
  }

  lemma {:induction false} InsertKeepsLatestFirst(x: Active, sorted: seq<Active>)
    requires LatestFirst(sorted)
    ensures LatestFirst(InsertBySince(x, sorted))
  {
    if sorted != [] && x.since < sorted[0].since {
      InsertKeepsLatestFirst(x, sorted[1..]);
      var r := InsertBySince(x, sorted[1..]);
      forall y | y in r ensures sorted[0].since >= y.since {
        assert y in multiset(r);
        assert y == x || y in sorted[1..];
      }
    }
  }

  lemma {:induction false} ActiveListLatestFirst(active: seq<Active>)
    ensures LatestFirst(ActiveList(active))
    ensures forall x :: x in ActiveList(active) <==> x in active
  {
    if active != [] {
      ActiveListLatestFirst(active[1..]);
      InsertKeepsLatestFirst(active[0], ActiveList(active[1..]));
    }
    forall x ensures x in ActiveList(active) <==> x in active {
      assert x in ActiveList(active) <==> x in multiset(ActiveList(active));
    }
  }

  // ---- listeners ----------------------------------------------------------------------------------

  /** A bounded queue of snapshots, read by one open Visu channel. */
  class Channel {
    var items: seq<seq<Active>>

    constructor ()
      ensures items == []
    {
      items := [];
    }

    method GetNowait() returns (snapshot: seq<Active>)
      requires items != []
      modifies this
      ensures snapshot == old(items)[0] && items == old(items)[1..]
    {
      snapshot := items[0];
      items := items[1..];
    }

    method PutNowait(snapshot: seq<Active>)
      requires |items| < 16
      modifies this
      ensures items == old(items) + [snapshot]
    {
      items := items + [snapshot];
    }
  }

  class Engine {
    const met: Test
    var alarms: seq<Alarm>
    var byDatapoint: map<string, seq<Alarm>>
    var condition: map<string, bool>
    var unknown: set<string>
    var active: seq<Active>
    var listeners: set<Channel>

    constructor (met: Test)
      ensures Valid() && State() == IDLE && listeners == {} && this.met == met
    {
      this.met := met;
      alarms, byDatapoint, condition, unknown, active, listeners := [], map[], map[], {}, [], {};
    }

    function State(): Core
      reads this
    {
      Core(alarms, condition, unknown, active)
    }

    /** The index by datapoint is that of the definitions, and every queue is empty or holds just the current list. */
    ghost predicate Valid()
      reads this, listeners
    {
      && UniqueIds(alarms)
      && UniqueActive(active)
      && (forall x :: x in active ==> x.alarm in alarms)
      && byDatapoint == Index(alarms)
      && (forall c :: c in listeners ==> c.items == [] || c.items == [ActiveList(active)])
    }

    method RebuildIndex()
      modifies this`byDatapoint
      ensures byDatapoint == Index(alarms)
    {
      byDatapoint := map[];
      for i := 0 to |alarms|
        invariant byDatapoint == Index(alarms[..i])
      {
        assert alarms[..i + 1] == alarms[..i] + [alarms[i]];
        var dp := alarms[i].datapoint;
        IndexGrows(alarms[..i], alarms[i]);
        byDatapoint := byDatapoint[dp := (if dp in byDatapoint then byDatapoint[dp] else []) + [alarms[i]]];
      }
      assert alarms[..|alarms|] == alarms;
    }

    /** The baseline of every alarm: its current condition, false and marked if it is not known. */
    method ReadConditions(getter: Getter)
      modifies this`condition, this`unknown
      ensures condition == Baseline(alarms, getter, met) && unknown == NotKnown(alarms, getter, met)
    {
      condition, unknown := map[], {};
      for i := 0 to |alarms|
        invariant condition == Baseline(alarms[..i], getter, met) && unknown == NotKnown(alarms[..i], getter, met)
      {
        assert alarms[..i + 1] == alarms[..i] + [alarms[i]];
        BaselineGrows(alarms[..i], alarms[i], getter, met);
        NotKnownGrows(alarms[..i], alarms[i], getter, met);
        var now := CurrentCondition(alarms[i], getter, met);
        if now.None? {
          unknown := unknown + {alarms[i].id};
        }
        condition := condition[alarms[i].id := now == Some(true)];
      }
      assert alarms[..|alarms|] == alarms;
    }

    /** New definitions; `getter` reads the values the registry holds at this moment. */
    method Configure(definitions: seq<Alarm>, getter: Getter)
      requires Valid() && UniqueIds(definitions)
      modifies this, listeners
      ensures Valid() && listeners == old(listeners)
      ensures State() == Configured(old(State()), definitions, getter, met)
      ensures forall c :: c in listeners ==> c.items == [ActiveList(active)]
    {
      alarms := Enabled(definitions);
      EnabledUnique(definitions);
      RebuildIndex();
      ReadConditions(getter);
      KeptUnique(active, alarms, condition, unknown);
      KeptAreDefined(active, alarms, condition, unknown);
      active := Kept(active, alarms, condition, unknown);
      Notify();
    }

    /** The loop body of handle_value_event; tells whether the active alarms changed. */
    method HandleAlarm(a: Alarm, ev: ValueEvent) returns (changed: bool)
      requires UniqueActive(active) && a in alarms && forall x :: x in active ==> x.alarm in alarms
      modifies this`condition, this`unknown, this`active
      ensures UniqueActive(active) && forall x :: x in active ==> x.alarm in alarms
      ensures State() == AlarmStep(old(State()), a, ev, met)
      ensures !changed ==> active == old(active)
    {
      changed := false;
      var now := met(a, ev.value);
      var was := a.id in condition && condition[a.id];
      condition := condition[a.id := now];
      WithoutUnique(active, a.id);
      if a.id in unknown {
        unknown := unknown - {a.id};
        if !now && a.endOnClear && Find(active, a.id).Some? {
          active := Without(active, a.id);
          changed := true;
        }
        return;
      }
      if ev.initialization {
        return;
      }
      if now && !was && Find(active, a.id).None? {
        active := active + [Active(a, ev.clock(a.id))];
        changed := true;
      } else if !now && was && a.endOnClear && Find(active, a.id).Some? {
        active := Without(active, a.id);
        changed := true;
      }
    }

    method HandleAlarms(own: seq<Alarm>, ev: ValueEvent) returns (changed: bool)
      requires UniqueActive(active) && (forall a :: a in own ==> a in alarms) && forall x :: x in active ==>
          x.alarm in alarms
      modifies this`condition, this`unknown, this`active
      ensures UniqueActive(active) && forall x :: x in active ==> x.alarm in alarms
      ensures State() == AlarmSteps(old(State()), own, ev, met)
      ensures !changed ==> active == old(active)
    {
      changed := false;
      for i := 0 to |own|
        invariant State() == AlarmSteps(old(State()), own[..i], ev, met)
        invariant UniqueActive(active) && forall x :: x in active ==> x.alarm in alarms
        invariant !changed ==> active == old(active)
      {
        assert own[..i + 1][..i] == own[..i];
        var here := HandleAlarm(own[i], ev);
        changed := changed || here;
      }
      assert own[..|own|] == own;
    }

    method HandleValueEvent(ev: ValueEvent)
      requires Valid()
      modifies this, listeners
      ensures Valid() && listeners == old(listeners)
      ensures State() == Handled(old(State()), ev, met)
    {
      if !ev.good {
        return;
      }
      if ev.datapoint !in byDatapoint {
        OfDatapointEmpty(alarms, ev.datapoint);
        return;
      }
      OfDatapointUnique(alarms, ev.datapoint);
      var changed := HandleAlarms(byDatapoint[ev.datapoint], ev);
      if changed {
        Notify();
      }
    }

    method Acknowledge(id: string) returns (ended: bool)
      requires Valid()
      modifies this, listeners
      ensures Valid() && listeners == old(listeners)
      ensures State() == Acknowledged(old(State()), id)
      ensures ended <==> Find(old(active), id).Some? && Find(old(active), id).value.alarm.ackButton
    {
      var found := Find(active, id);
      if found.None? || !found.value.alarm.ackButton {
        return false;
      }
      WithoutUnique(active, id);
      active := Without(active, id);
      Notify();
      return true;
    }

    method Listen() returns (c: Channel)
      requires Valid()
      modifies this`listeners
      ensures Valid() && fresh(c) && listeners == old(listeners) + {c} && c.items == []
    {
      c := new Channel();
      listeners := listeners + {c};
    }

    method Unlisten(c: Channel)
      requires Valid()
      modifies this`listeners
      ensures Valid() && listeners == old(listeners) - {c}
    {
      listeners := listeners - {c};
    }

    /** Every listener gets the current list, and only that. */
    method Notify()
      modifies listeners
      ensures forall c :: c in listeners ==> c.items == [ActiveList(active)]
    {
      var snapshot := ActiveList(active);
      var rest := listeners;
      while rest != {}
        invariant rest <= listeners
        invariant forall c :: c in listeners - rest ==> c.items == [snapshot]
        decreases |rest|
      {
        var c :| c in rest;
        while c.items != []
          invariant forall d :: d in listeners - rest ==> d.items == [snapshot]
          decreases |c.items|
        {
          var stale := c.GetNowait();
        }
        c.PutNowait(snapshot);
        rest := rest - {c};
      }
    }
  }

  function Datapoints(alarms: seq<Alarm>): (r: set<string>)
    ensures forall a :: a in alarms ==> a.datapoint in r
  {
    if alarms == [] then {} else Datapoints(alarms[..|alarms| - 1]) + {alarms[|alarms| - 1].datapoint}
  }

  /** The definitions by datapoint. */
  function Index(alarms: seq<Alarm>): map<string, seq<Alarm>> {
    map dp | dp in Datapoints(alarms) :: OfDatapoint(alarms, dp)
  }

  lemma DatapointGrows(alarms: seq<Alarm>, a: Alarm, dp: string)
    ensures OfDatapoint(alarms + [a], dp) == OfDatapoint(alarms, dp) + if a.datapoint == dp then [a] else []
    ensures Datapoints(alarms + [a]) == Datapoints(alarms) + {a.datapoint}
  {
    assert (alarms + [a])[..|alarms|] == alarms;
  }

  lemma IndexGrows(alarms: seq<Alarm>, a: Alarm)
    ensures Index(alarms + [a])
            == Index(alarms)[a.datapoint :=
                (if a.datapoint in Index(alarms) then Index(alarms)[a.datapoint] else []) + [a]]
  {
    var dp := a.datapoint;
    var before := Index(alarms);
    var after := before[dp := (if dp in before then before[dp] else []) + [a]];
    DatapointGrows(alarms, a, dp);
    if dp !in before { OfDatapointEmpty(alarms, dp); }
    forall d | d in after ensures after[d] == OfDatapoint(alarms + [a], d) {
      DatapointGrows(alarms, a, d);
      if d != dp { assert OfDatapoint(alarms, d) + [] == OfDatapoint(alarms, d); }
    }
    assert after.Keys == Datapoints(alarms + [a]);
  }

  lemma {:induction false} KeptAreDefined(
    active: seq<Active>, alarms: seq<Alarm>, condition: map<string, bool>, unknown: set<string>)
    ensures forall x :: x in Kept(active, alarms, condition, unknown) ==> x.alarm in alarms
  {
    if active != [] {
      KeptAreDefined(active[1..], alarms, condition, unknown);
    }
  }
}
