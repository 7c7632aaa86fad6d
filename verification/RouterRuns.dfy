/**
  Whole runs of the write router. BindingFollowsItsOwnAttempts reduces any sequence of
  calls, over any bindings, to the attempts that concern one binding; the rate bounds,
  the variation bound and the refinement of a cache of whole values are proved there.
 */
module RouterRuns {
  import opened Wrappers
  import opened WriteRouter

  // ---- from router calls to the attempts of one binding -------------------------------------

  datatype Call =
    | Propagate(rows: seq<Row>, attempts: seq<Attempt>, value: Value, skip: Option<Id>)
    | Targeted(rows: seq<Row>, attempts: seq<Attempt>, value: Value, target: Id)

  /** One attempt per row; binding ids are a primary key, and a targeted call reads only its target's row. */
  ghost predicate ValidCall(call: Call) {
    && |call.attempts| == |call.rows|
    && DistinctBindings(call.rows)
    && (call.Targeted? ==> forall row :: row in call.rows && row.Row? ==> row.binding.id == call.target)
  }

  ghost predicate ValidCalls(calls: seq<Call>) {
    forall call :: call in calls ==> ValidCall(call)
  }

  function SkipOf(call: Call): Option<Id> {
    if call.Propagate? then call.skip else None
  }

  function OnlyOf(call: Call): Option<Id> {
    if call.Targeted? then Some(call.target) else None
  }

  /** A targeted call starts by forgetting its target. */
  function Start(c: Caches, call: Call): Caches {
    if call.Targeted? then Put(c, call.target, Cell(None, None)) else c
  }

  /** The call as far as its loop gets. */
  ghost function Done(c: Caches, call: Call, os: Platform): (d: Call)
    requires ValidCall(call)
    ensures ValidCall(d) && d.value == call.value && SkipOf(d) == SkipOf(call) && OnlyOf(d) == OnlyOf(call)
    ensures |d.rows| <= |call.rows| && d.rows == call.rows[..|d.rows|] && d.attempts == call.attempts[..|d.rows|]
  {
    var k := Reached(Start(c, call), call.rows, call.attempts, call.value, SkipOf(call), OnlyOf(call), os);
    call.(rows := call.rows[..k], attempts := call.attempts[..k])
  }

  ghost function Perform(c: Caches, call: Call, os: Platform): Caches
    requires ValidCall(call)
  {
    var d := Done(c, call, os);
    RowsStep(Start(c, call), d.rows, d.attempts, call.value, SkipOf(call), OnlyOf(call), os)
  }

  ghost function PerformAll(c: Caches, calls: seq<Call>, os: Platform): Caches
    requires ValidCalls(calls)
    decreases |calls|
  {
    if calls == [] then c else PerformAll(Perform(c, calls[0], os), calls[1..], os)
  }

  /** What happens to one binding: an attempt to send a value, or the reset by a targeted write. */
  datatype Try = Reset | Try(binding: Binding, value: Value, attempt: Attempt)

  function TryStep(cell: Cell, t: Try, os: Platform): Cell {
    match t
    case Reset => Cell(None, None)
    case Try(b, v, a) => Step(b, cell, v, a, os)
  }

  function Run(cell: Cell, tries: seq<Try>, os: Platform): Cell
    decreases |tries|
  {
    if tries == [] then cell else Run(TryStep(cell, tries[0], os), tries[1..], os)
  }

  function TriesIn(
    rows: seq<Row>, attempts: seq<Attempt>, v: Value, skip: Option<Id>, only: Option<Id>, id: Id): seq<Try>
    requires |attempts| == |rows|
  {
    if rows == [] then []
    else
      var n := |rows| - 1;
      TriesIn(rows[..n], attempts[..n], v, skip, only, id)
      + if Eligible(rows[n], skip, only) && rows[n].binding.id == id then [Try(rows[n].binding, v, attempts[n])] else []
  }

  function TriesOf(call: Call, id: Id): seq<Try>
    requires |call.attempts| == |call.rows|
  {
    (if OnlyOf(call) == Some(id) then [Reset] else [])
    + TriesIn(call.rows, call.attempts, call.value, SkipOf(call), OnlyOf(call), id)
  }

  ghost function AllTries(c: Caches, calls: seq<Call>, id: Id, os: Platform): seq<Try>
    requires ValidCalls(calls)
    decreases |calls|
  {
    if calls == [] then []
    else TriesOf(Done(c, calls[0], os), id) + AllTries(Perform(c, calls[0], os), calls[1..], id, os)
  }

  lemma {:induction false} RunAppend(cell: Cell, a: seq<Try>, b: seq<Try>, os: Platform)
    ensures Run(cell, a + b, os) == Run(Run(cell, a, os), b, os)
    decreases |a|
  {
    if a == [] {
      assert a + b == b;
    } else {
      assert (a + b)[1..] == a[1..] + b;
      RunAppend(TryStep(cell, a[0], os), a[1..], b, os);
    }
  }

  lemma {:induction false} RowsAreIndependent(
    c: Caches, rows: seq<Row>, attempts: seq<Attempt>, v: Value, skip: Option<Id>, only: Option<Id>, id: Id,
        os: Platform)
    requires |attempts| == |rows|
    ensures CellOf(RowsStep(c, rows, attempts, v, skip, only, os), id)
            == Run(CellOf(c, id), TriesIn(rows, attempts, v, skip, only, id), os)
  {
    if rows != [] {
      var n := |rows| - 1;
      RowsAreIndependent(c, rows[..n], attempts[..n], v, skip, only, id, os);
      var before := RowsStep(c, rows[..n], attempts[..n], v, skip, only, os);
      var tries := TriesIn(rows[..n], attempts[..n], v, skip, only, id);
      if Eligible(rows[n], skip, only) {
        var b := rows[n].binding;
        PutElsewhere(before, b.id, Step(b, CellOf(before, b.id), v, attempts[n], os), id);
        RunAppend(CellOf(c, id), tries, [Try(b, v, attempts[n])], os);
        assert Run(CellOf(before, id), [Try(b, v, attempts[n])], os)
            == TryStep(CellOf(before, id), Try(b, v, attempts[n]), os);
      }
      assert tries + [] == tries;
    }
  }

  lemma StartOfBinding(c: Caches, call: Call, id: Id, os: Platform)
    ensures CellOf(Start(c, call), id) == Run(CellOf(c, id), if OnlyOf(call) == Some(id) then [Reset] else [], os)
  {
    if call.Targeted? {
      PutElsewhere(c, call.target, Cell(None, None), id);
      assert [Reset][1..] == [];
      assert Run(CellOf(c, id), [Reset], os) == Cell(None, None);
    }
  }

  lemma CallIsItsTries(c: Caches, call: Call, id: Id, os: Platform)
    requires ValidCall(call)
    ensures CellOf(Perform(c, call, os), id) == Run(CellOf(c, id), TriesOf(Done(c, call, os), id), os)
  {
    var d := Done(c, call, os);
    var tries := TriesIn(d.rows, d.attempts, call.value, SkipOf(call), OnlyOf(call), id);
    StartOfBinding(c, call, id, os);
    RowsAreIndependent(Start(c, call), d.rows, d.attempts, call.value, SkipOf(call), OnlyOf(call), id, os);
    RunAppend(CellOf(c, id), if OnlyOf(call) == Some(id) then [Reset] else [], tries, os);
  }

  /** After any calls, what is remembered of a binding is what its own attempts and resets make of it. */
  lemma {:induction false} BindingFollowsItsOwnAttempts(c: Caches, calls: seq<Call>, id: Id, os: Platform)
    requires ValidCalls(calls)
    ensures CellOf(PerformAll(c, calls, os), id) == Run(CellOf(c, id), AllTries(c, calls, id, os), os)
    decreases |calls|
  {
    if calls != [] {
      var next := Perform(c, calls[0], os);
      BindingFollowsItsOwnAttempts(next, calls[1..], id, os);
      CallIsItsTries(c, calls[0], id, os);
      RunAppend(CellOf(c, id), TriesOf(Done(c, calls[0], os), id), AllTries(next, calls[1..], id, os), os);
    }
  }

  /** A call tries a binding at most once. */
  lemma {:induction false} OneTryPerCall(
    rows: seq<Row>, attempts: seq<Attempt>, v: Value, skip: Option<Id>, only: Option<Id>, id: Id)
    requires |attempts| == |rows| && DistinctBindings(rows)
    ensures var tries := TriesIn(rows, attempts, v, skip, only, id);
            |tries| <= 1 && (tries != [] ==>
                exists k :: 0 <= k < |rows| && Eligible(rows[k], skip, only) && rows[k].binding.id == id
                                                         && tries == [Try(rows[k].binding, v, attempts[k])])
  {
    if rows != [] {
      var n := |rows| - 1;
      OneTryPerCall(rows[..n], attempts[..n], v, skip, only, id);
    }
  }

  // ---- what is sent ------------------------------------------------------------------------------

  /** One send: when, the value offered, the value written, and whether it is the first after a reset. */
  datatype Sent = Sent(at: real, value: Value, written: Value, afterReset: bool)

  /** The successful sends of a run; `reset` says that nothing was sent since the last reset. */
  function SentBy(cell: Cell, tries: seq<Try>, reset: bool, os: Platform): seq<Sent>
    decreases |tries|
  {
    if tries == [] then []
    else match tries[0]
      case Reset => SentBy(Cell(None, None), tries[1..], true, os)
      case Try(b, v, a) =>
        if Sends(b, cell, v, a, os)
        then [Sent(a.sentAt, v, b.transform(v), reset)] + SentBy(Step(b, cell, v, a, os), tries[1..], false, os)
        else SentBy(cell, tries[1..], reset, os)
  }

  /** Whether nothing was sent since the last reset, after these tries. */
  function ResetAfter(cell: Cell, tries: seq<Try>, reset: bool, os: Platform): bool
    decreases |tries|
  {
    if tries == [] then reset
    else match tries[0]
      case Reset => ResetAfter(Cell(None, None), tries[1..], true, os)
      case Try(b, v, a) => ResetAfter(Step(b, cell, v, a, os), tries[1..], reset && !Sends(b, cell, v, a, os), os)
  }

  lemma {:induction false} SentByAppend(cell: Cell, a: seq<Try>, b: seq<Try>, reset: bool, os: Platform)
    ensures SentBy(cell, a + b, reset, os)
            == SentBy(cell, a, reset, os) + SentBy(Run(cell, a, os), b, ResetAfter(cell, a, reset, os), os)
    decreases |a|
  {
    if a == [] {
      assert a + b == b;
    } else {
      assert (a + b)[1..] == a[1..] + b;
      match a[0]
      case Reset =>
        SentByAppend(Cell(None, None), a[1..], b, true, os);
      case Try(binding, v, attempt) =>
        var next := Step(binding, cell, v, attempt, os);
        SentByAppend(next, a[1..], b, reset && !Sends(binding, cell, v, attempt, os), os);
    }
  }

  function Written(sends: seq<Sent>): seq<Value> {
    if sends == [] then [] else Written(sends[..|sends| - 1]) + [sends[|sends| - 1].written]
  }

  lemma {:induction false} WrittenAppend(a: seq<Sent>, b: seq<Sent>)
    ensures Written(a + b) == Written(a) + Written(b)
    ensures |Written(a)| == |a|
  {
    if b == [] {
      assert a + b == a;
      if a != [] {
        WrittenAppend(a[..|a| - 1], []);
      }
    } else {
      WrittenAppend(a, b[..|b| - 1]);
      assert (a + b)[..|a + b| - 1] == a + b[..|b| - 1];
    }
  }

  function WritesTo(writes: seq<(Id, Value)>, id: Id): seq<Value> {
    if writes == [] then []
    else WritesTo(writes[..|writes| - 1], id)
         + if writes[|writes| - 1].0 == id then [writes[|writes| - 1].1] else []
  }

  lemma WritesToAppend(writes: seq<(Id, Value)>, more: seq<(Id, Value)>, id: Id)
    requires |more| <= 1
    ensures WritesTo(writes + more, id) == WritesTo(writes, id) + if more != [] && more[0].0 == id then [more[0].1]
        else []
  {
    if more != [] {
      assert (writes + more)[..|writes + more| - 1] == writes;
    } else {
      assert writes + more == writes;
    }
  }

  lemma OneTrySends(cell: Cell, b: Binding, v: Value, a: Attempt, reset: bool, os: Platform)
    ensures Written(SentBy(cell, [Try(b, v, a)], reset, os)) == if Sends(b, cell, v, a, os) then [b.transform(v)]
        else []
  {
    var t := [Try(b, v, a)];
    assert t[1..] == [];
    if Sends(b, cell, v, a, os) {
      var s := Sent(a.sentAt, v, b.transform(v), reset);
      assert SentBy(cell, t, reset, os) == [s] && [s][..0] == [];
    }
  }

  /** The writes that rows hand to adapters for one binding are exactly that binding's successful sends, in order. */
  lemma {:induction false} WritesAreSends(
    c: Caches, rows: seq<Row>, attempts: seq<Attempt>, v: Value, skip: Option<Id>, only: Option<Id>, id: Id,
        reset: bool, os: Platform)
    requires |attempts| == |rows|
    ensures WritesTo(Writes(c, rows, attempts, v, skip, only, os), id)
            == Written(SentBy(CellOf(c, id), TriesIn(rows, attempts, v, skip, only, id), reset, os))
  {
    if rows != [] {
      var n := |rows| - 1;
      var (row, a, cell) := (rows[n], attempts[n], CellOf(c, id));
      var before := RowsStep(c, rows[..n], attempts[..n], v, skip, only, os);
      var tries := TriesIn(rows[..n], attempts[..n], v, skip, only, id);
      WritesAreSends(c, rows[..n], attempts[..n], v, skip, only, id, reset, os);
      RowsAreIndependent(c, rows[..n], attempts[..n], v, skip, only, id, os);
      WritesToAppend(Writes(c, rows[..n], attempts[..n], v, skip, only, os),
          WritesOfRow(before, row, a, v, skip, only, os), id);
      if Eligible(row, skip, only) && row.binding.id == id {
        var t := Try(row.binding, v, a);
        SentByAppend(cell, tries, [t], reset, os);
        WrittenAppend(SentBy(cell, tries, reset, os),
            SentBy(CellOf(before, id), [t], ResetAfter(cell, tries, reset, os), os));
        OneTrySends(CellOf(before, id), row.binding, v, a, ResetAfter(cell, tries, reset, os), os);
      } else {
        assert tries + [] == tries;
      }
    }
  }

  ghost function CallWrites(c: Caches, call: Call, os: Platform): seq<(Id, Value)>
    requires ValidCall(call)
  {
    var d := Done(c, call, os);
    Writes(Start(c, call), d.rows, d.attempts, call.value, SkipOf(call), OnlyOf(call), os)
  }

  /** What a run of calls writes to one binding. */
  ghost function AllWritesTo(c: Caches, calls: seq<Call>, id: Id, os: Platform): seq<Value>
    requires ValidCalls(calls)
    decreases |calls|
  {
    if calls == [] then []
    else WritesTo(CallWrites(c, calls[0], os), id) + AllWritesTo(Perform(c, calls[0], os), calls[1..], id, os)
  }

  lemma CallWritesAreSends(c: Caches, call: Call, id: Id, reset: bool, os: Platform)
    requires ValidCall(call)
    ensures WritesTo(CallWrites(c, call, os), id)
            == Written(SentBy(CellOf(c, id), TriesOf(Done(c, call, os), id), reset, os))
  {
    var d := Done(c, call, os);
    var tries := TriesIn(d.rows, d.attempts, call.value, SkipOf(call), OnlyOf(call), id);
    StartOfBinding(c, call, id, os);
    if OnlyOf(call) == Some(id) {
      assert ([Reset] + tries)[1..] == tries;
      assert SentBy(CellOf(c, id), [Reset] + tries, reset, os) == SentBy(Cell(None, None), tries, true, os);
      WritesAreSends(Start(c, call), d.rows, d.attempts, call.value, SkipOf(call), OnlyOf(call), id, true, os);
    } else {
      assert [] + tries == tries;
      WritesAreSends(Start(c, call), d.rows, d.attempts, call.value, SkipOf(call), OnlyOf(call), id, reset, os);
    }
  }

  /** What any run of calls writes to a binding are the sends of that binding's own tries, in order. */
  lemma {:induction false} RunWritesAreSends(c: Caches, calls: seq<Call>, id: Id, reset: bool, os: Platform)
    requires ValidCalls(calls)
    ensures AllWritesTo(c, calls, id, os) == Written(SentBy(CellOf(c, id), AllTries(c, calls, id, os), reset, os))
    decreases |calls|
  {
    if calls != [] {
      var (next, first, cell) := (Perform(c, calls[0], os), TriesOf(Done(c, calls[0], os), id), CellOf(c, id));
      var (rest, after) := (AllTries(next, calls[1..], id, os), ResetAfter(cell, first, reset, os));
      CallIsItsTries(c, calls[0], id, os);
      CallWritesAreSends(c, calls[0], id, reset, os);
      RunWritesAreSends(next, calls[1..], id, after, os);
      SentByAppend(cell, first, rest, reset, os);
      WrittenAppend(SentBy(cell, first, reset, os), SentBy(CellOf(next, id), rest, after, os));
    }
  }

  ghost predicate Uses(tries: seq<Try>, b: Binding) {
    forall t :: t in tries && t.Try? ==> t.binding == b
  }

  ghost predicate NoReset(tries: seq<Try>) {
    forall t :: t in tries ==> t.Try?
  }

  /** Calls complete one at a time and the clock does not run backwards. */
  predicate Timely(tries: seq<Try>, now: real) {
    tries == []
    || (tries[0].Reset? && Timely(tries[1..], now))
    || (tries[0].Try? && now <= tries[0].attempt.checkedAt <= tries[0].attempt.sentAt
        && Timely(tries[1..], tries[0].attempt.sentAt))
  }

  /** The loop of a call passes its rows in order, and the next call starts after it. */
  ghost predicate InOrder(attempts: seq<Attempt>, now: real) {
    && (forall i :: 0 <= i < |attempts| ==> now <= attempts[i].checkedAt <= attempts[i].sentAt)
    && forall i, j :: 0 <= i < j < |attempts| ==> attempts[i].sentAt <= attempts[j].checkedAt
  }

  function EndOf(attempts: seq<Attempt>, now: real): real {
    if attempts == [] then now else attempts[|attempts| - 1].sentAt
  }

  ghost predicate OneAtATime(calls: seq<Call>, now: real)
    decreases |calls|
  {
    calls == [] || (InOrder(calls[0].attempts, now) && OneAtATime(calls[1..], EndOf(calls[0].attempts, now)))
  }

  lemma {:induction false} TimelyEarlier(tries: seq<Try>, now: real, earlier: real)
    requires Timely(tries, now) && earlier <= now
    ensures Timely(tries, earlier)
  {
    if tries != [] && tries[0].Reset? {
      TimelyEarlier(tries[1..], now, earlier);
    }
  }

  lemma {:induction false} FewTriesAreTimely(call: Call, id: Id, now: real, rest: seq<Try>)
    requires ValidCall(call) && InOrder(call.attempts, now) && Timely(rest, EndOf(call.attempts, now))
    ensures Timely(TriesOf(call, id) + rest, now)
  {
    var tries := TriesIn(call.rows, call.attempts, call.value, SkipOf(call), OnlyOf(call), id);
    OneTryPerCall(call.rows, call.attempts, call.value, SkipOf(call), OnlyOf(call), id);
    var end := EndOf(call.attempts, now);
    assert Timely(tries + rest, now) by {
      if tries == [] {
        TimelyEarlier(rest, end, now);
        assert tries + rest == rest;
      } else {
        var t := tries[0];
        TimelyEarlier(rest, end, t.attempt.sentAt);
        assert (tries + rest)[1..] == rest;
      }
    }
    if OnlyOf(call) == Some(id) {
      assert ([Reset] + tries + rest)[1..] == tries + rest;
    } else {
      assert [] + tries + rest == tries + rest;
    }
  }

  /** Calls that complete one at a time try a binding at times that do not run backwards. */
  lemma {:induction false} CallsAreTimely(c: Caches, calls: seq<Call>, now: real, id: Id, os: Platform)
    requires ValidCalls(calls) && OneAtATime(calls, now)
    ensures Timely(AllTries(c, calls, id, os), now)
    decreases |calls|
  {
    if calls != [] {
      var (d, next) := (Done(c, calls[0], os), Perform(c, calls[0], os));
      var end := EndOf(calls[0].attempts, now);
      CallsAreTimely(next, calls[1..], end, id, os);
      TimelyEarlier(AllTries(next, calls[1..], id, os), end, EndOf(d.attempts, now));
      FewTriesAreTimely(d, id, now, AllTries(next, calls[1..], id, os));
    }
  }

  /** The binding keeps its configuration over the run, and no targeted write resets it. */
  ghost predicate Steady(calls: seq<Call>, b: Binding) {
    forall call :: call in calls ==>
      OnlyOf(call) != Some(b.id) && forall row :: row in call.rows && row.Row? && row.binding.id == b.id ==>
          row.binding == b
  }

  /** A call tries a steady binding at most once, and with the value it offers. */
  lemma SteadyTry(call: Call, b: Binding)
    requires ValidCall(call) && Steady([call], b)
    ensures var tries := TriesOf(call, b.id);
            |tries| <= 1 && (tries != [] ==> tries[0].Try? && tries[0].binding == b && tries[0].value == call.value)
  {
    assert call in [call];
    OneTryPerCall(call.rows, call.attempts, call.value, SkipOf(call), OnlyOf(call), b.id);
    assert TriesOf(call, b.id) == TriesIn(call.rows, call.attempts, call.value, SkipOf(call), OnlyOf(call), b.id);
  }

  lemma DoneIsSteady(c: Caches, calls: seq<Call>, b: Binding, os: Platform)
    requires calls != [] && ValidCalls(calls) && Steady(calls, b)
    ensures Steady([Done(c, calls[0], os)], b) && Steady(calls[1..], b)
  {
    var d := Done(c, calls[0], os);
    assert calls[0] in calls && forall row :: row in d.rows ==> row in calls[0].rows;
  }

  lemma {:induction false} SteadyTries(c: Caches, calls: seq<Call>, b: Binding, os: Platform)
    requires ValidCalls(calls) && Steady(calls, b)
    ensures Uses(AllTries(c, calls, b.id, os), b) && NoReset(AllTries(c, calls, b.id, os))
    decreases |calls|
  {
    if calls != [] {
      DoneIsSteady(c, calls, b, os);
      SteadyTry(Done(c, calls[0], os), b);
      SteadyTries(Perform(c, calls[0], os), calls[1..], b, os);
    }
  }

  /** The binding keeps its configuration over the run; targeted writes may reset it. */
  ghost predicate Configured(calls: seq<Call>, b: Binding) {
    forall call :: call in calls ==> forall row :: row in call.rows && row.Row? && row.binding.id == b.id ==>
        row.binding == b
  }

  ghost predicate Configures(rows: seq<Row>, b: Binding) {
    exists row :: row in rows && row.Row? && row.binding == b
  }

  lemma {:induction false} TriesAreOfRows(
    rows: seq<Row>, attempts: seq<Attempt>, v: Value, skip: Option<Id>, only: Option<Id>, id: Id)
    requires |attempts| == |rows|
    ensures forall t :: t in TriesIn(rows, attempts, v, skip, only, id) ==>
              t.Try? && t.value == v && t.binding.id == id && Configures(rows, t.binding)
  {
    if rows != [] {
      var n := |rows| - 1;
      TriesAreOfRows(rows[..n], attempts[..n], v, skip, only, id);
      assert rows[n] in rows && forall row :: row in rows[..n] ==> row in rows;
    }
  }

  /** A call tries a binding with the value it offers and the configuration of its row. */
  lemma TriesAreOffered(call: Call, id: Id)
    requires |call.attempts| == |call.rows|
    ensures forall t :: t in TriesOf(call, id) && t.Try? ==>
              t.value == call.value && t.binding.id == id && Configures(call.rows, t.binding)
  {
    TriesAreOfRows(call.rows, call.attempts, call.value, SkipOf(call), OnlyOf(call), id);
  }

  /** Over a run of calls a binding is tried as configured, with values that the calls offer. */
  lemma {:induction false} ConfiguredTries(c: Caches, calls: seq<Call>, b: Binding, os: Platform)
    requires ValidCalls(calls) && Configured(calls, b)
    ensures Uses(AllTries(c, calls, b.id, os), b)
    ensures forall t :: t in AllTries(c, calls, b.id, os) && t.Try? ==> t.value in ValuesOf(calls)
    decreases |calls|
  {
    if calls != [] {
      var d := Done(c, calls[0], os);
      assert calls[0] in calls && forall row :: row in d.rows ==> row in calls[0].rows;
      TriesAreOffered(d, b.id);
      ConfiguredTries(Perform(c, calls[0], os), calls[1..], b, os);
      assert forall v :: v in ValuesOf(calls[1..]) ==> v in ValuesOf(calls) by {
        forall v | v in ValuesOf(calls[1..]) ensures v in ValuesOf(calls) {
          var i :| 0 <= i < |calls[1..]| && calls[1..][i].value == v;
          assert calls[i + 1].value == v;
        }
      }
    }
  }

  ghost predicate Spaced(sends: seq<Sent>, width: real) {
    forall i :: 0 < i < |sends| ==> sends[i].at - sends[i - 1].at >= width
  }

  /** A throttled binding never sends twice within its interval. */
  lemma {:induction false} ThrottleSpacesSends(
    b: Binding, cell: Cell, tries: seq<Try>, now: real, reset: bool, os: Platform)
    requires Uses(tries, b) && NoReset(tries) && Timely(tries, now)
    requires Interval(b).Some? && (cell.sentAt.Some? ==> cell.sentAt.value <= now)
    ensures var sends := SentBy(cell, tries, reset, os);
            && Spaced(sends, Interval(b).value)
            && (sends != [] && cell.sentAt.Some? ==> sends[0].at - cell.sentAt.value >= Interval(b).value)
    decreases |tries|
  {
    if tries != [] {
      var t := tries[0];
      assert t in tries && forall u :: u in tries[1..] ==> u in tries;
      var next := Step(b, cell, t.value, t.attempt, os);
      if Sends(b, cell, t.value, t.attempt, os) {
        ThrottleSpacesSends(b, next, tries[1..], t.attempt.sentAt, false, os);
      } else {
        ThrottleSpacesSends(b, cell, tries[1..], t.attempt.sentAt, reset, os);
      }
    }
  }

  lemma {:induction false} SpacingAddsUp(sends: seq<Sent>, width: real, i: nat, j: nat)
    requires Spaced(sends, width) && i <= j < |sends|
    ensures sends[j].at - sends[i].at >= (j - i) as real * width
    decreases j - i
  {
    if i < j {
      SpacingAddsUp(sends, width, i, j - 1);
      assert (j - i) as real * width == (j - 1 - i) as real * width + width;
    }
  }

  /** At most T / interval + 1 sends fall into any window of length T. */
  lemma WindowHoldsFewSends(
    b: Binding, cell: Cell, tries: seq<Try>, now: real, os: Platform, i: nat, j: nat, window: real)
    requires Uses(tries, b) && NoReset(tries) && Timely(tries, now)
    requires Interval(b).Some? && Interval(b).value > 0.0 && (cell.sentAt.Some? ==> cell.sentAt.value <= now)
    requires i <= j < |SentBy(cell, tries, false, os)|
    requires SentBy(cell, tries, false, os)[j].at - SentBy(cell, tries, false, os)[i].at <= window
    ensures (j - i + 1) as real <= window / Interval(b).value + 1.0
  {
    var sends, width := SentBy(cell, tries, false, os), Interval(b).value;
    ThrottleSpacesSends(b, cell, tries, now, false, os);
    SpacingAddsUp(sends, width, i, j);
    DivideBound((j - i) as real, window, width);
  }

  /** Over any run of calls, the writes to a throttled binding are sends that are at least its interval apart. */
  lemma CallsAreSpaced(b: Binding, c: Caches, calls: seq<Call>, now: real, os: Platform)
    requires ValidCalls(calls) && Steady(calls, b) && OneAtATime(calls, now)
    requires Interval(b).Some? && (b.id in c.sentAt ==> c.sentAt[b.id] <= now)
    ensures var sends := SentBy(CellOf(c, b.id), AllTries(c, calls, b.id, os), false, os);
            AllWritesTo(c, calls, b.id, os) == Written(sends) && Spaced(sends, Interval(b).value)
  {
    var tries := AllTries(c, calls, b.id, os);
    RunWritesAreSends(c, calls, b.id, false, os);
    CallsAreTimely(c, calls, now, b.id, os);
    SteadyTries(c, calls, b, os);
    ThrottleSpacesSends(b, CellOf(c, b.id), tries, now, false, os);
  }

  /** So at most T / interval + 1 of them fall into any window of length T. */
  lemma CallsInWindow(b: Binding, c: Caches, calls: seq<Call>, now: real, os: Platform, i: nat, j: nat, window: real)
    requires ValidCalls(calls) && Steady(calls, b) && OneAtATime(calls, now)
    requires Interval(b).Some? && Interval(b).value > 0.0 && (b.id in c.sentAt ==> c.sentAt[b.id] <= now)
    requires var sends := SentBy(CellOf(c, b.id), AllTries(c, calls, b.id, os), false, os);
             i <= j < |sends| && sends[j].at - sends[i].at <= window
    ensures (j - i + 1) as real <= window / Interval(b).value + 1.0
  {
    CallsAreTimely(c, calls, now, b.id, os);
    SteadyTries(c, calls, b, os);
    WindowHoldsFewSends(b, CellOf(c, b.id), AllTries(c, calls, b.id, os), now, os, i, j, window);
  }

  lemma DivideBound(n: real, total: real, width: real)
    requires width > 0.0 && n * width <= total
    ensures n <= total / width
  {
    var slack := total / width - n;
    assert slack * width == total - n * width;
    PositiveFactor(slack, width);
  }

  lemma PositiveFactor(x: real, width: real)
    requires width > 0.0 && x * width >= 0.0
    ensures x >= 0.0
  {
  }

  // ---- the delta filter ---------------------------------------------------------------------------

  /** A number that a float can hold and whose rendering the cache keeps as it is. */
  predicate PlainNumber(v: Value, os: Platform) {
    v.Num? && !os.tooLarge(v) && |os.repr(v)| <= MAX_CACHED_VALUE_CHARS
  }

  ghost predicate PlainNumbers(tries: seq<Try>, os: Platform) {
    forall t :: t in tries ==> t.Try? && PlainNumber(t.value, os)
  }

  /** A number remembered from a plain number: the delta filter can read it. */
  predicate Readable(cell: Cell, os: Platform) {
    cell.cached.Some? ==> cell.cached.value.Num? && !os.tooLarge(cell.cached.value)
  }

  /** How much the offered values move in total. */
  function Variation(tries: seq<Try>): real
    requires forall t :: t in tries ==> t.Try? && t.value.Num?
  {
    if |tries| <= 1 then 0.0 else Abs(tries[1].value.val - tries[0].value.val) + Variation(tries[1..])
  }

  /** n times d, added up. */
  function Cost(n: nat, d: real): real {
    if n == 0 then 0.0 else d + Cost(n - 1, d)
  }

  function Multiple(n: nat, d: real): real {
    n as real * d
  }

  lemma {:induction false} CostIsProduct(n: nat, d: real)
    ensures Cost(n, d) == Multiple(n, d)
  {
    if n > 0 {
      CostIsProduct(n - 1, d);
      assert Multiple(n, d) == Multiple(n - 1, d) + d;
    }
  }

  lemma Triangle(x: real, y: real, z: real)
    ensures Abs(x - z) <= Abs(y - z) + Abs(x - y)
  {
  }

  /** A send under the delta filter has moved by d, and the number sent is what is remembered. */
  lemma SendMoves(b: Binding, cell: Cell, v: Value, a: Attempt, os: Platform)
    requires b.minDelta.Some? && PlainNumber(v, os) && Sends(b, cell, v, a, os)
    ensures Step(b, cell, v, a, os).cached == Some(v)
    ensures cell.cached.Some? && Readable(cell, os) ==> Abs(v.val - cell.cached.value.val) >= b.minDelta.value
  {
  }

  /** With the cell holding the number last sent, every further send costs d of movement. */
  lemma {:induction false} EachSendCosts(b: Binding, cell: Cell, tries: seq<Try>, reset: bool, os: Platform)
    requires Uses(tries, b) && PlainNumbers(tries, os) && tries != []
    requires b.minDelta.Some? && cell.cached.Some? && Readable(cell, os)
    ensures Cost(|SentBy(cell, tries, reset, os)|, b.minDelta.value)
            <= Abs(tries[0].value.val - cell.cached.value.val) + Variation(tries)
    decreases |tries|
  {
    var t, d, rest := tries[0], b.minDelta.value, tries[1..];
    assert t in tries && forall u :: u in rest ==> u in tries;
    var sends := Sends(b, cell, t.value, t.attempt, os);
    var next := if sends then Step(b, cell, t.value, t.attempt, os) else cell;
    var later := SentBy(next, rest, if sends then false else reset, os);
    if sends {
      SendMoves(b, cell, t.value, t.attempt, os);
    }
    if rest == [] {
      assert later == [];
    } else {
      EachSendCosts(b, next, rest, if sends then false else reset, os);
      Triangle(rest[0].value.val, t.value.val, cell.cached.value.val);
    }
  }

  lemma {:induction false} FirstSendIsFree(b: Binding, cell: Cell, tries: seq<Try>, reset: bool, os: Platform)
    requires Uses(tries, b) && PlainNumbers(tries, os)
    requires b.minDelta.Some? && cell.cached.None?
    ensures var n := |SentBy(cell, tries, reset, os)|; n > 0 ==> Cost(n - 1, b.minDelta.value) <= Variation(tries)
    decreases |tries|
  {
    if tries != [] {
      var t, rest := tries[0], tries[1..];
      assert t in tries && forall u :: u in rest ==> u in tries;
      if !Sends(b, cell, t.value, t.attempt, os) {
        FirstSendIsFree(b, cell, rest, reset, os);
      } else {
        SendMoves(b, cell, t.value, t.attempt, os);
        if rest != [] {
          EachSendCosts(b, Step(b, cell, t.value, t.attempt, os), rest, false, os);
        }
      }
    }
  }

  /** With a minimum delta d, n sends take a movement of at least (n - 1) * d in the values. */
  lemma DeltaBoundsSends(b: Binding, cell: Cell, tries: seq<Try>, os: Platform)
    requires Uses(tries, b) && PlainNumbers(tries, os)
    requires b.minDelta.Some? && cell.cached.None?
    ensures var n := |SentBy(cell, tries, false, os)|;
            n > 0 ==> Multiple(n - 1, b.minDelta.value) <= Variation(tries)
  {
    FirstSendIsFree(b, cell, tries, false, os);
    var n := |SentBy(cell, tries, false, os)|;
    if n > 0 { CostIsProduct(n - 1, b.minDelta.value); }
  }

  ghost predicate OffersNumbers(calls: seq<Call>, os: Platform) {
    forall call :: call in calls ==> call.value.Num? && PlainNumber(call.value, os)
  }

  /** How much the values offered by calls move in total. */
  function Movement(calls: seq<Call>): real
    requires forall call :: call in calls ==> call.value.Num?
  {
    if |calls| <= 1 then 0.0 else Abs(calls[1].value.val - calls[0].value.val) + Movement(calls[1..])
  }

  lemma {:induction false} MovementNonNegative(calls: seq<Call>)
    requires forall call :: call in calls ==> call.value.Num?
    ensures Movement(calls) >= 0.0
  {
    if |calls| > 1 {
      MovementNonNegative(calls[1..]);
    }
  }

  predicate MovesWithin(tries: seq<Try>, from: real, limit: real)
    requires forall t :: t in tries ==> t.Try? && t.value.Num?
  {
    Variation(tries) <= limit && (tries != [] ==> Abs(tries[0].value.val - from) + Variation(tries) <= limit)
  }

  /** One value later, tried or not, the tries still move no more than the values. */
  lemma OneMoreValue(first: seq<Try>, v: real, rest: seq<Try>, next: real, limit: real)
    requires |first| <= 1 && (forall t :: t in first + rest ==> t.Try? && t.value.Num?)
    requires (forall t :: t in first ==> t.value.val == v) && (forall t :: t in rest ==> t.Try? && t.value.Num?)
    requires MovesWithin(rest, next, limit) && limit >= 0.0
    ensures MovesWithin(first + rest, v, Abs(next - v) + limit)
  {
    if first == [] {
      assert first + rest == rest;
    } else {
      assert (first + rest)[1..] == rest && first[0] in first;
    }
    if rest != [] {
      Triangle(rest[0].value.val, next, v);
    }
  }

  lemma {:induction false} TriesArePlain(b: Binding, c: Caches, calls: seq<Call>, os: Platform)
    requires ValidCalls(calls) && Steady(calls, b) && OffersNumbers(calls, os)
    ensures PlainNumbers(AllTries(c, calls, b.id, os), os)
    decreases |calls|
  {
    if calls != [] {
      DoneIsSteady(c, calls, b, os);
      SteadyTry(Done(c, calls[0], os), b);
      TriesArePlain(b, Perform(c, calls[0], os), calls[1..], os);
      assert calls[0] in calls;
    }
  }

  ghost predicate MovesWithinCalls(tries: seq<Try>, calls: seq<Call>, os: Platform) {
    PlainNumbers(tries, os) && OffersNumbers(calls, os)
    && (calls == [] ==> tries == [])
    && (calls != [] ==> MovesWithin(tries, calls[0].value.val, Movement(calls)))
  }

  lemma OneMoreCall(call: Call, first: seq<Try>, rest: seq<Try>, calls: seq<Call>, os: Platform)
    requires OffersNumbers([call] + calls, os) && MovesWithinCalls(rest, calls, os) && PlainNumbers(first, os)
    requires |first| <= 1 && (first != [] ==> first[0].value == call.value)
    ensures MovesWithinCalls(first + rest, [call] + calls, os)
  {
    var all := [call] + calls;
    assert call == all[0] && call in all && all[1..] == calls;
    assert PlainNumbers(first + rest, os);
    MovementNonNegative(calls);
    if calls == [] {
      OneMoreValue(first, call.value.val, rest, call.value.val, 0.0);
    } else {
      OneMoreValue(first, call.value.val, rest, calls[0].value.val, Movement(calls));
    }
  }

  /** A binding is tried with some of the values in their order, so these move no more than all of them. */
  lemma {:induction false} TriesMoveLess(b: Binding, c: Caches, calls: seq<Call>, os: Platform)
    requires ValidCalls(calls) && Steady(calls, b) && OffersNumbers(calls, os)
    ensures MovesWithinCalls(AllTries(c, calls, b.id, os), calls, os)
    decreases |calls|
  {
    TriesArePlain(b, c, calls, os);
    if calls != [] {
      var (first, rest) := (TriesOf(Done(c, calls[0], os), b.id),
          AllTries(Perform(c, calls[0], os), calls[1..], b.id, os));
      DoneIsSteady(c, calls, b, os);
      SteadyTry(Done(c, calls[0], os), b);
      TriesMoveLess(b, Perform(c, calls[0], os), calls[1..], os);
      assert PlainNumbers(first, os) by {
        assert forall t :: t in first ==> t in first + rest;
      }
      assert calls == [calls[0]] + calls[1..];
      OneMoreCall(calls[0], first, rest, calls[1..], os);
    }
  }

  /** Over any run of calls, n writes under a minimum delta d take values that move by at least (n - 1) * d. */
  lemma DeltaBoundsCalls(b: Binding, c: Caches, calls: seq<Call>, os: Platform)
    requires ValidCalls(calls) && Steady(calls, b) && OffersNumbers(calls, os)
    requires b.minDelta.Some? && b.id !in c.cached
    ensures var n := |AllWritesTo(c, calls, b.id, os)|;
            n > 0 ==> Multiple(n - 1, b.minDelta.value) <= Movement(calls)
  {
    var (cell, tries) := (CellOf(c, b.id), AllTries(c, calls, b.id, os));
    RunWritesAreSends(c, calls, b.id, false, os);
    WrittenAppend(SentBy(cell, tries, false, os), []);
    SteadyTries(c, calls, b, os);
    TriesMoveLess(b, c, calls, os);
    DeltaBoundsSends(b, cell, tries, os);
  }

  // ---- numbers too large for a float -----------------------------------------------------------------

  lemma {:induction false} NoRowNoTry(
    rows: seq<Row>, attempts: seq<Attempt>, v: Value, skip: Option<Id>, only: Option<Id>, id: Id)
    requires |attempts| == |rows| && forall row :: row in rows && row.Row? ==> row.binding.id != id
    ensures TriesIn(rows, attempts, v, skip, only, id) == []
  {
    if rows != [] {
      var n := |rows| - 1;
      assert rows[n] in rows && forall row :: row in rows[..n] ==> row in rows;
      NoRowNoTry(rows[..n], attempts[..n], v, skip, only, id);
    }
  }

  /** An eligible row is what its binding is tried with. */
  lemma {:induction false} TheTry(
    rows: seq<Row>, attempts: seq<Attempt>, v: Value, skip: Option<Id>, only: Option<Id>, i: nat)
    requires |attempts| == |rows| && DistinctBindings(rows) && i < |rows| && Eligible(rows[i], skip, only)
    ensures TriesIn(rows, attempts, v, skip, only, rows[i].binding.id) == [Try(rows[i].binding, v, attempts[i])]
  {
    var n := |rows| - 1;
    if i < n {
      TheTry(rows[..n], attempts[..n], v, skip, only, i);
    } else {
      NoRowNoTry(rows[..n], attempts[..n], v, skip, only, rows[i].binding.id);
    }
  }

  /** A targeted write, whose target remembers nothing, never raises. */
  lemma TargetedNeverRaises(c: Caches, call: Call, os: Platform)
    requires ValidCall(call) && call.Targeted?
    ensures |Done(c, call, os).rows| == |call.rows|
  {
    var (start, only) := (Start(c, call), OnlyOf(call));
    PutElsewhere(c, call.target, NOTHING, call.target);
    assert forall row :: row in call.rows && row.Row? ==> CellOf(start, row.binding.id) == NOTHING;
    OverflowEndsTheLoop(start, call.rows, call.attempts, call.value, None, only, os);
  }

  /** A row that is read, not the origin's, no observer's, and has an instance to be written through. */
  ghost predicate Writable(call: Call, i: nat)
    requires i < |call.rows|
  {
    var row := call.rows[i];
    && row.Row? && !row.observer
    && (call.Propagate? ==> call.skip != Some(row.binding.id))
    && (|| (row.hasInstanceId && row.foundById)
        || (row.foundByType && (call.Propagate? || !row.hasInstanceId)))
  }

  /** Exactly such rows are tried, as far as the loop gets, once each, with the value of the call. */
  lemma TriedExactly(c: Caches, call: Call, i: nat, os: Platform)
    requires ValidCall(call) && i < |Done(c, call, os).rows| && call.rows[i].Row?
    ensures var b := call.rows[i].binding;
            TriesOf(Done(c, call, os), b.id)
            == (if call.Targeted? && call.target == b.id then [Reset] else [])
               + (if Writable(call, i) then [Try(b, call.value, call.attempts[i])] else [])
  {
    var (d, b) := (Done(c, call, os), call.rows[i].binding);
    assert d.rows[i] == call.rows[i] && d.attempts[i] == call.attempts[i];
    if Writable(call, i) {
      TheTry(d.rows, d.attempts, d.value, SkipOf(d), OnlyOf(d), i);
    } else {
      NotTried(d.rows, d.attempts, d.value, SkipOf(d), OnlyOf(d), i);
    }
  }

  lemma {:induction false} NotTried(
    rows: seq<Row>, attempts: seq<Attempt>, v: Value, skip: Option<Id>, only: Option<Id>, i: nat)
    requires |attempts| == |rows| && DistinctBindings(rows) && i < |rows| && rows[i].Row?
    requires !Eligible(rows[i], skip, only)
    ensures TriesIn(rows, attempts, v, skip, only, rows[i].binding.id) == []
  {
    var n := |rows| - 1;
    if i < n {
      NotTried(rows[..n], attempts[..n], v, skip, only, i);
    } else {
      NoRowNoTry(rows[..n], attempts[..n], v, skip, only, rows[i].binding.id);
    }
  }

  /** A binding of which no row is writable gets nothing, and what is remembered of it stays unless it is the target. */
  lemma UnwritableGetsNothing(c: Caches, call: Call, id: Id, os: Platform)
    requires ValidCall(call)
    requires forall i :: 0 <= i < |call.rows| && call.rows[i].Row? && call.rows[i].binding.id == id ==>
        !Writable(call, i)
    ensures WritesTo(CallWrites(c, call, os), id) == []
    ensures OnlyOf(call) != Some(id) ==> CellOf(Perform(c, call, os), id) == CellOf(c, id)
  {
    var d := Done(c, call, os);
    CallWritesAreSends(c, call, id, false, os);
    CallIsItsTries(c, call, id, os);
    if i :| 0 <= i < |d.rows| && d.rows[i].Row? && d.rows[i].binding.id == id {
      assert d.rows[i] == call.rows[i];
      TriedExactly(c, call, i, os);
    } else {
      NoRowNoTry(d.rows, d.attempts, d.value, SkipOf(d), OnlyOf(d), id);
    }
    assert TriesOf(d, id) == if OnlyOf(call) == Some(id) then [Reset] else [];
    assert [Reset][1..] == [];
  }

  /** A value never goes back to the binding it came from: over any calls from there it gets nothing. */
  lemma {:induction false} OriginGetsNothing(c: Caches, calls: seq<Call>, id: Id, os: Platform)
    requires ValidCalls(calls) && forall call :: call in calls ==> call.Propagate? && call.skip == Some(id)
    ensures AllWritesTo(c, calls, id, os) == []
    ensures CellOf(PerformAll(c, calls, os), id) == CellOf(c, id)
    decreases |calls|
  {
    if calls != [] {
      assert calls[0] in calls && forall call :: call in calls[1..] ==> call in calls;
      UnwritableGetsNothing(c, calls[0], id, os);
      OriginGetsNothing(Perform(c, calls[0], os), calls[1..], id, os);
    }
  }

  /** What a call does to the binding of a row it reaches. */
  lemma CallStepsBinding(c: Caches, call: Call, i: nat, os: Platform)
    requires ValidCall(call) && i < |Done(c, call, os).rows| && Eligible(call.rows[i], SkipOf(call), OnlyOf(call))
    ensures var b := call.rows[i].binding;
            CellOf(Perform(c, call, os), b.id)
            == Step(b, CellOf(Start(c, call), b.id), call.value, call.attempts[i], os)
  {
    RowsActAlone(Start(c, call), call.rows, call.attempts, call.value, SkipOf(call), OnlyOf(call), os,
        |Done(c, call, os).rows|, i);
  }

  /** The bindings from where a call is cut short on get nothing, and nothing of them changes. */
  lemma CutOffRowsGetNothing(c: Caches, call: Call, i: nat, os: Platform)
    requires ValidCall(call) && |Done(c, call, os).rows| <= i < |call.rows| && call.rows[i].Row?
    ensures var id := call.rows[i].binding.id;
            && WritesTo(CallWrites(c, call, os), id) == []
            && CellOf(Perform(c, call, os), id) == CellOf(c, id)
  {
    var (d, id) := (Done(c, call, os), call.rows[i].binding.id);
    if call.Targeted? {
      TargetedNeverRaises(c, call, os);
    } else {
      forall row | row in d.rows && row.Row? ensures row.binding.id != id {
        var j :| 0 <= j < |d.rows| && d.rows[j] == row;
        assert call.rows[j] == row;
      }
      NoRowNoTry(d.rows, d.attempts, d.value, SkipOf(d), OnlyOf(d), id);
      assert TriesOf(d, id) == [];
      CallWritesAreSends(c, call, id, false, os);
      CallIsItsTries(c, call, id, os);
    }
  }

  /**
    A number too large for a float, of a length the cache keeps, is sent to a delta-filtered
    binding that remembers nothing, and from then on remembered.
   */
  lemma LargeNumberIsRemembered(c: Caches, call: Call, i: nat, os: Platform)
    requires ValidCall(call) && i < |Done(c, call, os).rows| && Eligible(call.rows[i], SkipOf(call), OnlyOf(call))
    requires HasDelta(call.rows[i].binding) && TooLarge(call.value, os) && !Long(call.value, os)
    requires var (b, a) := (call.rows[i].binding, call.attempts[i]);
             var cell := CellOf(Start(c, call), b.id);
             a.delivered && !Waits(b, cell, a.checkedAt) && (cell.cached.None? || cell.cached.value == Null)
    ensures var id := call.rows[i].binding.id;
            && CellOf(Perform(c, call, os), id) == Cell(Some(call.attempts[i].sentAt), Some(call.value))
  {
    CallStepsBinding(c, call, i, os);
  }

  /** What makes a binding forget a number too large: exactly a value that float() refuses, sent to it. */
  lemma ReleasedExactly(b: Binding, cell: Cell, v: Value, a: Attempt, os: Platform)
    requires HasDelta(b) && cell.cached.Some? && TooLarge(cell.cached.value, os)
    ensures var next := Step(b, cell, v, a, os);
            && (Sends(b, cell, v, a, os) <==> a.delivered && !Waits(b, cell, a.checkedAt) && ToFloat(v, os).Refused?)
            && (Sends(b, cell, v, a, os) <==> !(next.cached.Some? && TooLarge(next.cached.value, os)))
            && (!Sends(b, cell, v, a, os) ==> next == cell)
  {
  }

  lemma {:induction false} LargeNumberStays(b: Binding, cell: Cell, tries: seq<Try>, reset: bool, os: Platform)
    requires Uses(tries, b) && NoReset(tries) && forall t :: t in tries ==> !ToFloat(t.value, os).Refused?
    requires HasDelta(b) && cell.cached.Some? && TooLarge(cell.cached.value, os)
    ensures Run(cell, tries, os) == cell && SentBy(cell, tries, reset, os) == []
    decreases |tries|
  {
    if tries != [] {
      var t := tries[0];
      assert t in tries && forall u :: u in tries[1..] ==> u in tries;
      ReleasedExactly(b, cell, t.value, t.attempt, os);
      LargeNumberStays(b, cell, tries[1..], reset, os);
    }
  }

  /** Values that float() accepts, or is overflown by: numbers and texts of numbers. */
  ghost predicate OffersFloats(calls: seq<Call>, os: Platform) {
    forall call :: call in calls ==> !ToFloat(call.value, os).Refused?
  }

  /** Through any such calls but targeted ones the binding gets nothing and goes on remembering it. */
  lemma LargeNumberBlocksBinding(b: Binding, c: Caches, calls: seq<Call>, os: Platform)
    requires ValidCalls(calls) && Steady(calls, b) && OffersFloats(calls, os)
    requires HasDelta(b) && b.id in c.cached && TooLarge(c.cached[b.id], os)
    ensures AllWritesTo(c, calls, b.id, os) == []
    ensures CellOf(PerformAll(c, calls, os), b.id) == CellOf(c, b.id)
  {
    var tries := AllTries(c, calls, b.id, os);
    SteadyTries(c, calls, b, os);
    ConfiguredTries(c, calls, b, os);
    forall t | t in tries ensures !ToFloat(t.value, os).Refused? {
      var i :| 0 <= i < |calls| && calls[i].value == t.value;
      assert calls[i] in calls;
    }
    LargeNumberStays(b, CellOf(c, b.id), tries, false, os);
    BindingFollowsItsOwnAttempts(c, calls, b.id, os);
    RunWritesAreSends(c, calls, b.id, false, os);
  }

  /**
    And after them every call with a row for the binding overflows there unless the throttle
    or the on-change filter stops it first; then the rows from there on get nothing.
   */
  lemma LargeNumberCutsLaterCalls(b: Binding, c: Caches, calls: seq<Call>, call: Call, i: nat, os: Platform)
    requires ValidCalls(calls) && Steady(calls, b) && OffersFloats(calls, os)
    requires HasDelta(b) && b.id in c.cached && TooLarge(c.cached[b.id], os)
    requires ValidCall(call) && call.Propagate? && !ToFloat(call.value, os).Refused?
    requires i < |call.rows| && Eligible(call.rows[i], call.skip, None) && call.rows[i].binding == b
    ensures var now := PerformAll(c, calls, os);
            var overflows := RowOverflows(now, call.rows[i], call.attempts[i], call.value, call.skip, None, os);
            && (overflows <==> !Waits(b, CellOf(c, b.id), call.attempts[i].checkedAt)
                               && !(b.onChange && PyEq(call.value, c.cached[b.id])))
            && (overflows ==> forall k :: i <= k < |call.rows| && call.rows[k].Row? ==>
                  var id := call.rows[k].binding.id;
                  WritesTo(CallWrites(now, call, os), id) == []
                  && CellOf(Perform(now, call, os), id) == CellOf(now, id))
  {
    var now := PerformAll(c, calls, os);
    LargeNumberBlocksBinding(b, c, calls, os);
    assert CellOf(now, b.id) == CellOf(c, b.id);
    if RowOverflows(now, call.rows[i], call.attempts[i], call.value, call.skip, None, os) {
      OverflowEndsTheLoop(now, call.rows, call.attempts, call.value, call.skip, None, os);
      forall k | i <= k < |call.rows| && call.rows[k].Row?
        ensures WritesTo(CallWrites(now, call, os), call.rows[k].binding.id) == []
        ensures CellOf(Perform(now, call, os), call.rows[k].binding.id) == CellOf(now, call.rows[k].binding.id)
      {
        CutOffRowsGetNothing(now, call, k, os);
      }
    }
  }

  /**
    So one such number sent to a binding that remembers nothing cuts every later call short
    at that binding, once its throttle lets a value pass that is not the same number again.
   */
  lemma OneLargeNumberCutsLaterCalls(
    b: Binding, c: Caches, first: Call, j: nat, calls: seq<Call>, call: Call, i: nat, os: Platform)
    requires ValidCall(first) && j < |Done(c, first, os).rows| && Eligible(first.rows[j], SkipOf(first), OnlyOf(first))
    requires first.rows[j].binding == b && HasDelta(b) && TooLarge(first.value, os) && !Long(first.value, os)
    requires var cell := CellOf(Start(c, first), b.id);
             first.attempts[j].delivered && !Waits(b, cell, first.attempts[j].checkedAt)
             && (cell.cached.None? || cell.cached.value == Null)
    requires ValidCalls(calls) && Steady(calls, b) && OffersFloats(calls, os)
    requires ValidCall(call) && call.Propagate? && !ToFloat(call.value, os).Refused?
    requires i < |call.rows| && Eligible(call.rows[i], call.skip, None) && call.rows[i].binding == b
    requires !Waits(b, Cell(Some(first.attempts[j].sentAt), None), call.attempts[i].checkedAt)
    requires !(b.onChange && PyEq(call.value, first.value))
    ensures var now := PerformAll(Perform(c, first, os), calls, os);
            && AllWritesTo(Perform(c, first, os), calls, b.id, os) == []
            && (forall k :: i <= k < |call.rows| && call.rows[k].Row? ==>
                  WritesTo(CallWrites(now, call, os), call.rows[k].binding.id) == [])
  {
    var next := Perform(c, first, os);
    LargeNumberIsRemembered(c, first, j, os);
    assert CellOf(next, b.id) == Cell(Some(first.attempts[j].sentAt), Some(first.value));
    LargeNumberBlocksBinding(b, next, calls, os);
    LargeNumberCutsLaterCalls(b, next, calls, call, i, os);
  }

  /** Caches that hold no number too large for a float. */
  ghost predicate HoldsNoLarge(c: Caches, os: Platform) {
    forall id :: id in c.cached ==> !TooLarge(c.cached[id], os)
  }

  ghost predicate OffersNoLarge(calls: seq<Call>, os: Platform) {
    forall call :: call in calls ==> !TooLarge(call.value, os)
  }

  lemma {:induction false} RowsHoldNoLarge(
    c: Caches, rows: seq<Row>, attempts: seq<Attempt>, v: Value, skip: Option<Id>, only: Option<Id>, os: Platform)
    requires |attempts| == |rows| && HoldsNoLarge(c, os) && !TooLarge(v, os)
    ensures HoldsNoLarge(RowsStep(c, rows, attempts, v, skip, only, os), os)
  {
    if rows != [] {
      var n := |rows| - 1;
      RowsHoldNoLarge(c, rows[..n], attempts[..n], v, skip, only, os);
    }
  }

  lemma {:induction false} RunsHoldNoLarge(c: Caches, calls: seq<Call>, os: Platform)
    requires ValidCalls(calls) && HoldsNoLarge(c, os) && OffersNoLarge(calls, os)
    ensures HoldsNoLarge(PerformAll(c, calls, os), os)
    decreases |calls|
  {
    if calls != [] {
      var (call, d) := (calls[0], Done(c, calls[0], os));
      RowsHoldNoLarge(Start(c, call), d.rows, d.attempts, call.value, SkipOf(call), OnlyOf(call), os);
      RunsHoldNoLarge(Perform(c, call, os), calls[1..], os);
    }
  }

  /** Only such numbers raise: in a run that never offers one every loop completes. */
  lemma OnlyLargeNumbersRaise(c: Caches, calls: seq<Call>, call: Call, os: Platform)
    requires ValidCalls(calls) && HoldsNoLarge(c, os) && OffersNoLarge(calls, os)
    requires ValidCall(call) && !TooLarge(call.value, os)
    ensures Done(PerformAll(c, calls, os), call, os) == call
  {
    var now := PerformAll(c, calls, os);
    var start := Start(now, call);
    RunsHoldNoLarge(c, calls, os);
    OverflowEndsTheLoop(start, call.rows, call.attempts, call.value, SkipOf(call), OnlyOf(call), os);
  }

  // ---- what the receiver last got ---------------------------------------------------------------------

  const NOTHING := Cell(None, None)

  /** What a run remembers is what it sent last, or what was remembered before if it sent nothing. */
  lemma {:induction false} CacheIsLastSent(b: Binding, cell: Cell, tries: seq<Try>, reset: bool, os: Platform)
    requires Uses(tries, b) && NoReset(tries) && NeedsValueCache(b)
    ensures var sends := SentBy(cell, tries, reset, os);
            Run(cell, tries, os).cached == if sends == [] then cell.cached
                else Some(ToCached(sends[|sends| - 1].value, os))
    decreases |tries|
  {
    if tries != [] {
      var t := tries[0];
      assert t in tries && forall u :: u in tries[1..] ==> u in tries;
      var next := Step(b, cell, t.value, t.attempt, os);
      CacheIsLastSent(b, next, tries[1..], reset && !Sends(b, cell, t.value, t.attempt, os), os);
    }
  }

  /** From empty caches on, with resets in between: what is remembered, if anything, was sent last. */
  lemma {:induction false} RememberedWasSentLast(b: Binding, tries: seq<Try>, os: Platform)
    requires Uses(tries, b) && NeedsValueCache(b)
    ensures var (cell, sends) := (Run(NOTHING, tries, os), SentBy(NOTHING, tries, false, os));
            cell.cached.Some? ==> sends != [] && cell.cached == Some(ToCached(sends[|sends| - 1].value, os))
    decreases |tries|
  {
    if tries != [] {
      var (front, t) := (tries[..|tries| - 1], tries[|tries| - 1]);
      assert tries == front + [t] && t in tries && forall u :: u in front ==> u in tries;
      RememberedWasSentLast(b, front, os);
      LastTry(front, t, os);
    }
  }

  lemma LastTry(front: seq<Try>, t: Try, os: Platform)
    ensures var cell := Run(NOTHING, front, os);
            && Run(NOTHING, front + [t], os) == TryStep(cell, t, os)
            && |SentBy(NOTHING, front + [t], false, os)|
               == |SentBy(NOTHING, front, false, os)|
                   + (if t.Try? && Sends(t.binding, cell, t.value, t.attempt, os) then 1 else 0)
            && SentBy(NOTHING, front, false, os) <= SentBy(NOTHING, front + [t], false, os)
            && (t.Try? && Sends(t.binding, cell, t.value, t.attempt, os) ==>
                  var sends := SentBy(NOTHING, front + [t], false, os); sends[|sends| - 1].value == t.value)
  {
    RunAppend(NOTHING, front, [t], os);
    SentByAppend(NOTHING, front, [t], false, os);
    assert [t][1..] == [];
  }

  /** The percentage filter keeps back a change that the minimum delta would let through. */
  predicate HeldBack(b: Binding, v: Value, last: Value)
    requires b.minDelta.Some? && v.Num? && last.Num?
  {
    && b.minDeltaPct.Some? && !(b.onChange && PyEq(v, last))
    && Abs(v.val - last.val) >= b.minDelta.value && Percent(last.val, v.val) < b.minDeltaPct.value
  }

  lemma VerdictOnNumbers(b: Binding, cell: Cell, v: Value, now: real, os: Platform)
    requires b.minDelta.Some? && b.minDelta.value > 0.0 && PlainNumber(v, os) && Readable(cell, os)
    requires Decide(b, cell, v, now, os) != Throttled
    ensures cell.cached.None? ==> Decide(b, cell, v, now, os) == Send
    ensures cell.cached.Some? && Decide(b, cell, v, now, os) != Send ==>
              (Abs(v.val - cell.cached.value.val) < b.minDelta.value <==> !HeldBack(b, v, cell.cached.value))
    ensures cell.cached.Some? && Decide(b, cell, v, now, os) == Send ==> !HeldBack(b, v, cell.cached.value)
  {
    if cell.cached.Some? {
      var last := cell.cached.value;
      assert CachedEquals(v, last, os) <==> PyEq(v, last);
      EqualNumbersAreClose(v, last);
      assert ToFloat(v, os) == Converted(v.val) && ToFloat(last, os) == Converted(last.val);
    }
  }

  lemma EqualNumbersAreClose(v: Value, last: Value)
    requires v.Num? && last.Num?
    ensures PyEq(v, last) ==> Abs(v.val - last.val) == 0.0
  {
  }

  /** Numbers to one binding, from empty caches on, the last one offered unthrottled and without a failure. */
  ghost predicate EndsUnthrottled(b: Binding, tries: seq<Try>, os: Platform) {
    && Uses(tries, b) && (forall t :: t in tries && t.Try? ==> PlainNumber(t.value, os))
    && tries != []
    && var t := tries[|tries| - 1];
       t.Try? && t.attempt.delivered
       && Decide(b, Run(NOTHING, tries[..|tries| - 1], os), t.value, t.attempt.checkedAt, os) != Throttled
  }

  /** What is remembered after plain numbers is the last one sent, and the delta filter can read it. */
  lemma RememberedIsReadable(b: Binding, tries: seq<Try>, os: Platform)
    requires Uses(tries, b) && NeedsValueCache(b) && forall t :: t in tries && t.Try? ==> PlainNumber(t.value, os)
    ensures var (cell, sends) := (Run(NOTHING, tries, os), SentBy(NOTHING, tries, false, os));
            && (forall s :: s in sends ==> s.value.Num?)
            && Readable(cell, os)
            && (cell.cached.Some? ==> sends != [] && cell.cached.value == sends[|sends| - 1].value)
  {
    var (cell, sends) := (Run(NOTHING, tries, os), SentBy(NOTHING, tries, false, os));
    RememberedWasSentLast(b, tries, os);
    SentValuesAreOffered(NOTHING, tries, false, os);
    forall s | s in sends ensures PlainNumber(s.value, os) {
      var t :| t in tries && t.Try? && t.value == s.value;
    }
    if cell.cached.Some? {
      assert sends[|sends| - 1] in sends;
    }
  }

  /** The last number sent is less than d from v, exactly unless the percentage filter held v back. */
  ghost predicate CloseUnlessHeldBack(b: Binding, v: Value, before: Option<Value>, sends: seq<Sent>)
    requires b.minDelta.Some?
  {
    && v.Num? && sends != [] && sends[|sends| - 1].value.Num? && (before.Some? ==> before.value.Num?)
    && (Abs(v.val - sends[|sends| - 1].value.val) < b.minDelta.value
        <==> !(before.Some? && HeldBack(b, v, before.value)))
  }

  /**
    After any run, resets included, whose last try was neither throttled nor failed, the
    value last sent is less than d from the current one, exactly unless the percentage
    filter held the current one back.
   */
  lemma ReceiverIsClose(b: Binding, tries: seq<Try>, os: Platform)
    requires b.minDelta.Some? && b.minDelta.value > 0.0 && EndsUnthrottled(b, tries, os)
    ensures var (v, sends) := (tries[|tries| - 1].value, SentBy(NOTHING, tries, false, os));
            var before := Run(NOTHING, tries[..|tries| - 1], os).cached;
            CloseUnlessHeldBack(b, v, before, sends)
  {
    var (front, t) := (tries[..|tries| - 1], tries[|tries| - 1]);
    assert tries == front + [t] && t in tries && forall u :: u in front ==> u in tries;
    RememberedIsReadable(b, front, os);
    LastTry(front, t, os);
    VerdictOnNumbers(b, Run(NOTHING, front, os), t.value, t.attempt.checkedAt, os);
  }

  lemma {:induction false} SentValuesAreOffered(cell: Cell, tries: seq<Try>, reset: bool, os: Platform)
    ensures forall s :: s in SentBy(cell, tries, reset, os) ==> exists t :: t in tries && t.Try? && t.value == s.value
    decreases |tries|
  {
    if tries != [] {
      var t := tries[0];
      var after := if t.Reset? then true else reset && !Sends(t.binding, cell, t.value, t.attempt, os);
      var later := SentBy(TryStep(cell, t, os), tries[1..], after, os);
      SentValuesAreOffered(TryStep(cell, t, os), tries[1..], after, os);
      forall s | s in SentBy(cell, tries, reset, os) ensures exists u :: u in tries && u.Try? && u.value == s.value {
        if s in later {
          var u :| u in tries[1..] && u.Try? && u.value == s.value;
          assert u in tries;
        } else {
          assert t in tries && t.Try? && t.value == s.value;
        }
      }
    }
  }

  /** Without a percentage filter the receiver is always less than d behind. */
  lemma ReceiverIsCloseByDelta(b: Binding, tries: seq<Try>, os: Platform)
    requires b.minDelta.Some? && b.minDelta.value > 0.0 && b.minDeltaPct.None? && EndsUnthrottled(b, tries, os)
    ensures var sends := SentBy(NOTHING, tries, false, os);
            && sends != [] && sends[|sends| - 1].value.Num?
            && Abs(tries[|tries| - 1].value.val - sends[|sends| - 1].value.val) < b.minDelta.value
  {
    ReceiverIsClose(b, tries, os);
  }

  lemma {:induction false} OneCallMore(c: Caches, calls: seq<Call>, call: Call, id: Id, os: Platform)
    requires ValidCalls(calls) && ValidCall(call)
    ensures ValidCalls(calls + [call])
    ensures AllTries(c, calls + [call], id, os)
            == AllTries(c, calls, id, os) + TriesOf(Done(PerformAll(c, calls, os), call, os), id)
    decreases |calls|
  {
    var all := calls + [call];
    forall k | k in all ensures ValidCall(k) {}
    if calls == [] {
      assert all[1..] == [] && AllTries(c, all, id, os) == TriesOf(Done(c, call, os), id) + [];
    } else {
      assert all[1..] == calls[1..] + [call];
      OneCallMore(Perform(c, calls[0], os), calls[1..], call, id, os);
    }
  }

  /** A call that tries the binding adds one try to the run, on what the binding's cell is by then. */
  lemma LastTryOfCalls(b: Binding, calls: seq<Call>, call: Call, i: nat, os: Platform) returns (front: seq<Try>)
    requires ValidCalls(calls) && ValidCall(call) && OffersNumbers(calls + [call], os)
    requires i < |call.rows| && Eligible(call.rows[i], SkipOf(call), OnlyOf(call)) && call.rows[i].binding == b
    ensures ValidCalls(calls + [call])
    ensures AllTries(EMPTY, calls + [call], b.id, os) == front + [Try(b, call.value, call.attempts[i])]
    ensures Run(NOTHING, front, os) == CellOf(Start(PerformAll(EMPTY, calls, os), call), b.id)
  {
    var (tries, first) := (AllTries(EMPTY, calls, b.id, os), ResetOf(call, b.id));
    front := tries + first;
    PlainCallCompletes(calls, call, os);
    OneCallMore(EMPTY, calls, call, b.id, os);
    TheTry(call.rows, call.attempts, call.value, SkipOf(call), OnlyOf(call), i);
    assert AllTries(EMPTY, calls + [call], b.id, os) == front + [Try(b, call.value, call.attempts[i])];
    CellAtStart(calls, call, b.id, os);
  }

  function ResetOf(call: Call, id: Id): seq<Try> {
    if OnlyOf(call) == Some(id) then [Reset] else []
  }

  lemma PlainCallCompletes(calls: seq<Call>, call: Call, os: Platform)
    requires ValidCalls(calls) && ValidCall(call) && OffersNumbers(calls + [call], os)
    ensures Done(PerformAll(EMPTY, calls, os), call, os) == call
  {
    assert call in calls + [call] && forall k :: k in calls ==> k in calls + [call];
    OnlyLargeNumbersRaise(EMPTY, calls, call, os);
  }

  lemma CellAtStart(calls: seq<Call>, call: Call, id: Id, os: Platform)
    requires ValidCalls(calls)
    ensures Run(NOTHING, AllTries(EMPTY, calls, id, os) + ResetOf(call, id), os)
            == CellOf(Start(PerformAll(EMPTY, calls, os), call), id)
  {
    BindingFollowsItsOwnAttempts(EMPTY, calls, id, os);
    RunAppend(NOTHING, AllTries(EMPTY, calls, id, os), ResetOf(call, id), os);
    StartOfBinding(PerformAll(EMPTY, calls, os), call, id, os);
  }

  lemma PlainTriesOfCalls(b: Binding, calls: seq<Call>, os: Platform)
    requires ValidCalls(calls) && Configured(calls, b) && OffersNumbers(calls, os)
    ensures var tries := AllTries(EMPTY, calls, b.id, os);
            Uses(tries, b) && forall t :: t in tries && t.Try? ==> PlainNumber(t.value, os)
  {
    ConfiguredTries(EMPTY, calls, b, os);
    forall t | t in AllTries(EMPTY, calls, b.id, os) && t.Try? ensures PlainNumber(t.value, os) {
      var k :| 0 <= k < |calls| && calls[k].value == t.value;
      assert calls[k] in calls;
    }
  }

  lemma EndsWithTry(b: Binding, tries: seq<Try>, front: seq<Try>, t: Try, os: Platform)
    requires tries == front + [t] && t.Try? && t.attempt.delivered
    requires Uses(tries, b) && forall u :: u in tries && u.Try? ==> PlainNumber(u.value, os)
    requires !Waits(b, Run(NOTHING, front, os), t.attempt.checkedAt)
    ensures EndsUnthrottled(b, tries, os)
    ensures tries[..|tries| - 1] == front && tries[|tries| - 1] == t
  {
    assert tries[..|tries| - 1] == front && tries[|tries| - 1] == t;
    assert Decide(b, Run(NOTHING, front, os), t.value, t.attempt.checkedAt, os) != Throttled;
  }

  /**
    For router calls: from empty caches on, whatever else they write, after one that offers a
    number to the binding unthrottled and does not fail, the last number written to it is
    less than d from that, exactly unless the percentage filter held it back.
   */
  lemma CallsReceiverIsClose(b: Binding, calls: seq<Call>, call: Call, i: nat, os: Platform)
    requires ValidCalls(calls) && ValidCall(call) && Configured(calls + [call], b) && OffersNumbers(calls + [call], os)
    requires b.minDelta.Some? && b.minDelta.value > 0.0
    requires i < |call.rows| && Eligible(call.rows[i], SkipOf(call), OnlyOf(call)) && call.rows[i].binding == b
    requires var cell := CellOf(Start(PerformAll(EMPTY, calls, os), call), b.id);
             call.attempts[i].delivered && !Waits(b, cell, call.attempts[i].checkedAt)
    ensures ValidCalls(calls + [call])
    ensures var before := CellOf(Start(PerformAll(EMPTY, calls, os), call), b.id).cached;
            var sends := SentBy(NOTHING, AllTries(EMPTY, calls + [call], b.id, os), false, os);
            && AllWritesTo(EMPTY, calls + [call], b.id, os) == Written(sends)
            && CloseUnlessHeldBack(b, call.value, before, sends)
  {
    var all := calls + [call];
    assert call in all;
    var front := LastTryOfCalls(b, calls, call, i, os);
    PlainTriesOfCalls(b, all, os);
    RunWritesAreSends(EMPTY, all, b.id, false, os);
    var tries := AllTries(EMPTY, all, b.id, os);
    EndsWithTry(b, tries, front, Try(b, call.value, call.attempts[i]), os);
    ReceiverIsClose(b, tries, os);
  }

  /** With one it need not be: after 100, with a minimum delta of 1 and 2 percent, 101 is not sent. */
  lemma PercentFilterHoldsBack(b: Binding, os: Platform)
    requires b.throttleMs.None? && b.minDelta == Some(1.0) && b.minDeltaPct == Some(2.0)
    requires PlainNumber(Num(100.0, 0), os) && PlainNumber(Num(101.0, 0), os)
    ensures var tries := [Try(b, Num(100.0, 0), Attempt(0.0, 0.0, true)),
        Try(b, Num(101.0, 0), Attempt(1.0, 1.0, true))];
            && EndsUnthrottled(b, tries, os)
            && var sends := SentBy(NOTHING, tries, false, os);
               |sends| == 1 && sends[0].value == Num(100.0, 0) && Abs(101.0 - 100.0) >= b.minDelta.value
  {
    var (last, next) := (Num(100.0, 0), Num(101.0, 0));
    var (first, second) := (Try(b, last, Attempt(0.0, 0.0, true)), Try(b, next, Attempt(1.0, 1.0, true)));
    var tries := [first, second];
    var cell := Step(b, NOTHING, last, first.attempt, os);
    assert tries[..1] == [first] && tries[1..] == [second] && [first][1..] == [] && [second][1..] == [];
    assert Run(NOTHING, [first], os) == cell && cell.cached == Some(last);
    assert Percent(100.0, 101.0) == 1.0 by {
      assert Abs(101.0 - 100.0) == 1.0 && Abs(100.0) == 100.0;
    }
    assert Decide(b, cell, next, 1.0, os) == BelowPercent;
    assert SentBy(cell, [second], false, os) == [];
  }

  // ---- the compacted cache refines a cache of whole values ------------------------------------------

  function DecideWhole(b: Binding, cell: Cell, v: Value, now: real, os: Platform): Verdict {
    if Waits(b, cell, now) then Throttled
    else if cell.cached.None? || cell.cached.value == Null then Send
    else if b.onChange && PyEq(v, cell.cached.value) then Unchanged
    else DecideByDelta(b, v, cell.cached.value, os)
  }

  predicate SendsWhole(b: Binding, cell: Cell, v: Value, a: Attempt, os: Platform) {
    DecideWhole(b, cell, v, a.checkedAt, os) == Send && a.delivered
  }

  function WholeStep(cell: Cell, t: Try, os: Platform): Cell {
    match t
    case Reset => NOTHING
    case Try(b, v, a) =>
      if SendsWhole(b, cell, v, a, os) then Cell(Some(a.sentAt), if NeedsValueCache(b) then Some(v) else None)
          else cell
  }

  function RunWhole(cell: Cell, tries: seq<Try>, os: Platform): Cell
    decreases |tries|
  {
    if tries == [] then cell else RunWhole(WholeStep(cell, tries[0], os), tries[1..], os)
  }

  /** The sends of a router that keeps whole values and compares them by equality. */
  function SentByWhole(cell: Cell, tries: seq<Try>, reset: bool, os: Platform): seq<Sent>
    decreases |tries|
  {
    if tries == [] then []
    else
      var next := WholeStep(cell, tries[0], os);
      match tries[0]
      case Reset => SentByWhole(next, tries[1..], true, os)
      case Try(b, v, a) =>
        if SendsWhole(b, cell, v, a, os)
        then [Sent(a.sentAt, v, b.transform(v), reset)] + SentByWhole(next, tries[1..], false, os)
        else SentByWhole(next, tries[1..], reset, os)
  }

  /**
    Deciding on v is the same with w remembered compacted or whole: for the on-change
    filter they compare faithfully, for a delta filter w is kept as it is, or is no number.
   */
  predicate KeepsDecision(b: Binding, v: Value, w: Value, os: Platform) {
    && (b.onChange ==> ComparesFaithfully(v, w, os))
    && (HasDelta(b) ==> ToCached(w, os) == w || ToFloat(w, os).Refused?)
  }

  /** Deciding on any value of the run is the same with any other remembered. */
  ghost predicate Faithful(tries: seq<Try>, offered: set<Value>, os: Platform) {
    forall t :: t in tries && t.Try? ==>
      t.value in offered && forall w :: w in offered ==> KeepsDecision(t.binding, t.value, w, os)
  }

  ghost predicate OneOf(cell: Cell, offered: set<Value>) {
    cell.cached.Some? ==> cell.cached.value in offered
  }

  predicate Compacts(compact: Cell, whole: Cell, os: Platform) {
    && compact.sentAt == whole.sentAt
    && compact.cached == if whole.cached.None? then None else Some(ToCached(whole.cached.value, os))
  }

  /** Both routers decide alike. */
  lemma CompactDecides(b: Binding, compact: Cell, whole: Cell, v: Value, now: real, os: Platform)
    requires os.CollisionFree() && |os.repr(Null)| <= MAX_CACHED_VALUE_CHARS && Compacts(compact, whole, os)
    requires whole.cached.Some? ==> KeepsDecision(b, v, whole.cached.value, os)
    ensures Decide(b, compact, v, now, os) == DecideWhole(b, whole, v, now, os)
  {
    if whole.cached.Some? && b.onChange {
      CompactionIsFaithful(v, whole.cached.value, os);
    }
  }

  /**
    Over any run, resets included, the compacted cache sends exactly what a cache of whole
    values sends, and goes on remembering the same, compacted.
   */
  lemma {:induction false} CompactCacheRefinesWhole(
    compact: Cell, whole: Cell, tries: seq<Try>, offered: set<Value>, reset: bool, os: Platform)
    requires os.CollisionFree() && |os.repr(Null)| <= MAX_CACHED_VALUE_CHARS
    requires Faithful(tries, offered, os) && Compacts(compact, whole, os) && OneOf(whole, offered)
    ensures SentBy(compact, tries, reset, os) == SentByWhole(whole, tries, reset, os)
    ensures Compacts(Run(compact, tries, os), RunWhole(whole, tries, os), os)
    ensures OneOf(RunWhole(whole, tries, os), offered)
    decreases |tries|
  {
    if tries != [] {
      var t := tries[0];
      assert t in tries && forall u :: u in tries[1..] ==> u in tries;
      var (next, nextWhole) := (TryStep(compact, t, os), WholeStep(whole, t, os));
      match t
      case Reset =>
        CompactCacheRefinesWhole(next, nextWhole, tries[1..], offered, true, os);
      case Try(b, v, a) =>
        CompactDecides(b, compact, whole, v, a.checkedAt, os);
        CompactCacheRefinesWhole(next, nextWhole, tries[1..], offered, reset && !Sends(b, compact, v, a, os), os);
    }
  }

  // ---- a whole router that remembers whole values ------------------------------------------------------

  /** What it remembers of every binding. */
  type Memory = Id -> Cell

  function WholeStart(m: Memory, call: Call): Memory {
    (id: Id) => if OnlyOf(call) == Some(id) then NOTHING else m(id)
  }

  predicate WholeEscapes(m: Memory, call: Call, i: nat, os: Platform)
    requires i < |call.rows| == |call.attempts|
  {
    && Eligible(call.rows[i], SkipOf(call), OnlyOf(call))
    && var b := call.rows[i].binding;
       DecideWhole(b, WholeStart(m, call)(b.id), call.value, call.attempts[i].checkedAt, os) == Escapes
  }

  /** The first row from i on whose conversion overflows, on what is remembered before the call. */
  function WholeReached(m: Memory, call: Call, i: nat, os: Platform): (k: nat)
    requires i <= |call.rows| == |call.attempts|
    ensures i <= k <= |call.rows|
    decreases |call.rows| - i
  {
    if i == |call.rows| || WholeEscapes(m, call, i, os) then i else WholeReached(m, call, i + 1, os)
  }

  function WholeDone(m: Memory, call: Call, os: Platform): (d: Call)
    requires |call.rows| == |call.attempts|
    ensures |d.rows| == |d.attempts|
  {
    var k := WholeReached(m, call, 0, os);
    call.(rows := call.rows[..k], attempts := call.attempts[..k])
  }

  function PerformWhole(m: Memory, call: Call, os: Platform): Memory
    requires |call.rows| == |call.attempts|
  {
    var d := WholeDone(m, call, os);
    (id: Id) => RunWhole(m(id), TriesOf(d, id), os)
  }

  /** What it writes to one binding over a run of calls. */
  ghost function AllWritesWhole(m: Memory, calls: seq<Call>, id: Id, os: Platform): seq<Value>
    requires ValidCalls(calls)
    decreases |calls|
  {
    if calls == [] then []
    else
      assert ValidCall(calls[0]);
      Written(SentByWhole(m(id), TriesOf(WholeDone(m, calls[0], os), id), false, os))
      + AllWritesWhole(PerformWhole(m, calls[0], os), calls[1..], id, os)
  }

  ghost predicate FaithfulCalls(calls: seq<Call>, offered: set<Value>, os: Platform) {
    forall call :: call in calls ==> FaithfulCall(call, offered, os)
  }

  ghost predicate FaithfulCall(call: Call, offered: set<Value>, os: Platform) {
    && call.value in offered
    && forall row, w :: row in call.rows && row.Row? && w in offered ==> KeepsDecision(row.binding, call.value, w, os)
  }

  ghost predicate InStep(c: Caches, m: Memory, offered: set<Value>, os: Platform) {
    forall id: Id :: Compacts(CellOf(c, id), m(id), os) && OneOf(m(id), offered)
  }

  lemma WholeReachedIsFirst(m: Memory, call: Call, i: nat, k: nat, os: Platform)
    requires i <= k <= |call.rows| == |call.attempts|
    requires forall j: nat :: i <= j < k ==> !WholeEscapes(m, call, j, os)
    requires k < |call.rows| ==> WholeEscapes(m, call, k, os)
    ensures WholeReached(m, call, i, os) == k
    decreases k - i
  {
    if i < k {
      WholeReachedIsFirst(m, call, i + 1, k, os);
    }
  }

  /** Both loops end at the same row. */
  lemma DoneAlike(c: Caches, m: Memory, call: Call, offered: set<Value>, os: Platform)
    requires os.CollisionFree() && |os.repr(Null)| <= MAX_CACHED_VALUE_CHARS
    requires ValidCall(call) && FaithfulCall(call, offered, os) && InStep(c, m, offered, os)
    ensures WholeDone(m, call, os) == Done(c, call, os)
  {
    var (start, skip, only) := (Start(c, call), SkipOf(call), OnlyOf(call));
    forall i: nat | i < |call.rows|
      ensures WholeEscapes(m, call, i, os) <==>
              RowOverflows(start, call.rows[i], call.attempts[i], call.value, skip, only, os)
    {
      var row := call.rows[i];
      if Eligible(row, skip, only) {
        var (b, now) := (row.binding, call.attempts[i].checkedAt);
        assert row in call.rows && Compacts(CellOf(c, b.id), m(b.id), os) && OneOf(m(b.id), offered);
        StartOfBinding(c, call, b.id, os);
        assert Compacts(CellOf(start, b.id), WholeStart(m, call)(b.id), os) by {
          if call.Targeted? { PutElsewhere(c, call.target, NOTHING, b.id); }
        }
        CompactDecides(b, CellOf(start, b.id), WholeStart(m, call)(b.id), call.value, now, os);
        EscapesExactly(b, CellOf(start, b.id), call.value, now, os);
      }
    }
    OverflowEndsTheLoop(start, call.rows, call.attempts, call.value, skip, only, os);
    WholeReachedIsFirst(m, call, 0, Reached(start, call.rows, call.attempts, call.value, skip, only, os), os);
  }

  lemma CallStaysInStep(c: Caches, m: Memory, call: Call, offered: set<Value>, os: Platform)
    requires os.CollisionFree() && |os.repr(Null)| <= MAX_CACHED_VALUE_CHARS
    requires ValidCall(call) && FaithfulCall(call, offered, os) && InStep(c, m, offered, os)
    ensures InStep(Perform(c, call, os), PerformWhole(m, call, os), offered, os)
    ensures forall id :: WritesTo(CallWrites(c, call, os), id)
                         == Written(SentByWhole(m(id), TriesOf(WholeDone(m, call, os), id), false, os))
  {
    DoneAlike(c, m, call, offered, os);
    var d := Done(c, call, os);
    forall id: Id
      ensures Compacts(CellOf(Perform(c, call, os), id), PerformWhole(m, call, os)(id), os)
      ensures OneOf(PerformWhole(m, call, os)(id), offered)
      ensures WritesTo(CallWrites(c, call, os), id) == Written(SentByWhole(m(id), TriesOf(d, id), false, os))
    {
      TriesAreOffered(d, id);
      assert Faithful(TriesOf(d, id), offered, os) by {
        assert forall row :: row in d.rows ==> row in call.rows;
      }
      assert Compacts(CellOf(c, id), m(id), os) && OneOf(m(id), offered);
      CompactCacheRefinesWhole(CellOf(c, id), m(id), TriesOf(d, id), offered, false, os);
      CallIsItsTries(c, call, id, os);
      CallWritesAreSends(c, call, id, false, os);
    }
  }

  lemma {:induction false} CallsStayInStep(
    c: Caches, m: Memory, calls: seq<Call>, offered: set<Value>, id: Id, os: Platform)
    requires os.CollisionFree() && |os.repr(Null)| <= MAX_CACHED_VALUE_CHARS
    requires ValidCalls(calls) && FaithfulCalls(calls, offered, os) && InStep(c, m, offered, os)
    ensures AllWritesTo(c, calls, id, os) == AllWritesWhole(m, calls, id, os)
    decreases |calls|
  {
    if calls != [] {
      CallStaysInStep(c, m, calls[0], offered, os);
      CallsStayInStep(Perform(c, calls[0], os), PerformWhole(m, calls[0], os), calls[1..], offered, id, os);
    }
  }

  ghost function ValuesOf(calls: seq<Call>): set<Value> {
    set i | 0 <= i < |calls| :: calls[i].value
  }

  const EMPTY := Caches(map[], map[])

  /**
    From empty caches on, any run of calls writes to every binding what a router writes that
    remembers whole values and ends its own loops by them.
   */
  lemma CallsWriteAsWithWholeCache(calls: seq<Call>, id: Id, os: Platform)
    requires os.CollisionFree() && |os.repr(Null)| <= MAX_CACHED_VALUE_CHARS
    requires ValidCalls(calls) && FaithfulCalls(calls, ValuesOf(calls), os)
    ensures AllWritesTo(EMPTY, calls, id, os) == AllWritesWhole(_ => NOTHING, calls, id, os)
  {
    CallsStayInStep(EMPTY, _ => NOTHING, calls, ValuesOf(calls), id, os);
  }

  // ---- no repeats ---------------------------------------------------------------------------------------

  /** Two sends in a row carry different values, unless the first is null or a reset lies between. */
  ghost predicate NoRepeats(sends: seq<Sent>) {
    forall i :: 0 < i < |sends| && !sends[i].afterReset && sends[i - 1].value != Null ==>
        !PyEq(sends[i].value, sends[i - 1].value)
  }

  lemma {:induction false} WholeCacheNeverRepeats(b: Binding, cell: Cell, tries: seq<Try>, reset: bool, os: Platform)
    requires Uses(tries, b) && b.onChange
    ensures var sends := SentByWhole(cell, tries, reset, os);
            && NoRepeats(sends)
            && (sends != [] && (sends[0].afterReset ==> reset) && cell.cached.Some? && !sends[0].afterReset
                && cell.cached.value != Null
                ==> !PyEq(sends[0].value, cell.cached.value))
    ensures var sends := SentByWhole(cell, tries, reset, os); sends != [] && reset ==> sends[0].afterReset
    decreases |tries|
  {
    if tries != [] {
      var t := tries[0];
      assert t in tries && forall u :: u in tries[1..] ==> u in tries;
      var after := if t.Reset? then true else reset && !SendsWhole(b, cell, t.value, t.attempt, os);
      WholeCacheNeverRepeats(b, WholeStep(cell, t, os), tries[1..], after, os);
    }
  }

  /** So an on-change binding never repeats a value: the compacted cache loses nothing that matters. */
  lemma OnChangeNeverRepeats(b: Binding, tries: seq<Try>, offered: set<Value>, os: Platform)
    requires os.CollisionFree() && |os.repr(Null)| <= MAX_CACHED_VALUE_CHARS
    requires Uses(tries, b) && b.onChange && Faithful(tries, offered, os)
    ensures NoRepeats(SentBy(NOTHING, tries, false, os))
  {
    CompactCacheRefinesWhole(NOTHING, NOTHING, tries, offered, false, os);
    WholeCacheNeverRepeats(b, NOTHING, tries, false, os);
  }

  /** Nor does any run of calls, targeted ones included, write it a value twice in a row. */
  lemma CallsNeverRepeat(b: Binding, c: Caches, calls: seq<Call>, os: Platform)
    requires os.CollisionFree() && |os.repr(Null)| <= MAX_CACHED_VALUE_CHARS
    requires ValidCalls(calls) && Configured(calls, b) && b.onChange && CellOf(c, b.id) == NOTHING
    requires forall v, w :: v in ValuesOf(calls) && w in ValuesOf(calls) ==> KeepsDecision(b, v, w, os)
    ensures var sends := SentBy(NOTHING, AllTries(c, calls, b.id, os), false, os);
            AllWritesTo(c, calls, b.id, os) == Written(sends) && NoRepeats(sends)
  {
    var tries := AllTries(c, calls, b.id, os);
    RunWritesAreSends(c, calls, b.id, false, os);
    ConfiguredTries(c, calls, b, os);
    OnChangeNeverRepeats(b, tries, ValuesOf(calls), os);
  }
}
