/**
  Reloading adapter bindings (obs/adapters/registry.py): loading the readable rows, and
  nested blocks that postpone reloads to their end, even if their body raises. The
  registry and the pending sets are objects, as in the source; DeferredStep says what a
  block of edits, reload requests and nested blocks does, Immediate what it does without
  the blocks, and the lemmas compare the two.
 */
module BindingReloads {
  import opened Wrappers
  import opened Enumeration

  type Id = string

  datatype Binding = Binding(id: string, payload: string)

  datatype Issue = Issue(bindingId: string, reason: string)

  /**
    A stored row: it converts to a binding, or it names what is wrong with it, or converting
    it raises what nobody expects.
   */
  datatype Row = Readable(binding: Binding) | Broken(issue: Issue) | Fatal(exception: string)

  function Readables(rows: seq<Row>): seq<Binding> {
    if rows == [] then []
    else Readables(rows[..|rows| - 1]) + if rows[|rows| - 1].Readable? then [rows[|rows| - 1].binding] else []
  }

  function Issues(rows: seq<Row>): seq<Issue> {
    if rows == [] then []
    else Issues(rows[..|rows| - 1]) + if rows[|rows| - 1].Broken? then [rows[|rows| - 1].issue] else []
  }

  predicate Loadable(rows: seq<Row>) {
    forall i :: 0 <= i < |rows| ==> !rows[i].Fatal?
  }

  /** Malformed rows are skipped one by one, and every row is accounted for; an unexpected exception ends the load. */
  method LoadValidBindings(rows: seq<Row>) returns (r: Result<(seq<Binding>, seq<Issue>), string>)
    ensures r.Ok? <==> Loadable(rows)
    ensures r.Ok? ==> r.value == (Readables(rows), Issues(rows)) && |Readables(rows)| + |Issues(rows)| == |rows|
    ensures r.Err? ==> exists i :: 0 <= i < |rows| && Loadable(rows[..i]) && rows[i] == Fatal(r.error)
  {
    var bindings, issues := [], [];
    for i := 0 to |rows|
      invariant bindings == Readables(rows[..i]) && issues == Issues(rows[..i])
      invariant |bindings| + |issues| == i && Loadable(rows[..i])
    {
      assert rows[..i + 1][..i] == rows[..i];
      match rows[i] {
        case Readable(b) => bindings := bindings + [b];
        case Broken(issue) => issues := issues + [issue];
        case Fatal(exception) => return Err(exception);
      }
    }
    assert rows[..|rows|] == rows;
    return Ok((bindings, issues));
  }

  // ---- what a program does -----------------------------------------------------------------

  /**
    The committed rows of each instance, the bindings each running instance was last handed,
    the reloads tried so far, and whether an adapter, having been handed bindings at the
    n-th of these, raises.
   */
  datatype World = World(
    rows: map<Id, seq<Row>>, loaded: map<Id, seq<Binding>>, log: seq<Id>,
    adapterRaises: (nat, Id, seq<Binding>) -> bool)
  {
    function RowsOf(id: Id): seq<Row> {
      if id in rows then rows[id] else []
    }

    /** A reload reaches a running instance only; rows that do not load leave it as it was. */
    function Load(id: Id): World {
      if id !in loaded then this
      else this.(loaded := if Loadable(RowsOf(id)) then loaded[id := Readables(RowsOf(id))]
          else loaded, log := log + [id])
    }

    predicate LoadRaises(id: Id) {
      id in loaded && (!Loadable(RowsOf(id)) || adapterRaises(|log|, id, Readables(RowsOf(id))))
    }
  }

  datatype Op = Edit(id: Id, rows: seq<Row>) | Reload(id: Id) | Block(body: seq<Op>) | Raise

  /** Whether a program inside a block raises: only its own operations do, as reloads are merely collected. */
  predicate Raises(ops: seq<Op>)
    decreases ops
  {
    ops != []
    && var n := |ops| - 1;
       Raises(ops[..n]) || ops[n].Raise? || (ops[n].Block? && Raises(ops[n].body))
  }

  /** The program as far as it gets. */
  function Done(ops: seq<Op>): seq<Op>
    decreases ops
  {
    if ops == [] then []
    else
      var n := |ops| - 1;
      if Raises(ops[..n]) then Done(ops[..n])
      else
        Done(ops[..n])
        + match ops[n]
          case Raise => []
          case Block(body) => [Block(Done(body))]
          case _ => [ops[n]]
  }

  predicate OpRaises(op: Op) {
    op.Raise? || (op.Block? && Raises(op.body))
  }

  /** What is done up to a raise is all that is done. */
  lemma {:induction false} DoneStops(ops: seq<Op>, k: nat)
    requires k <= |ops| && Raises(ops[..k])
    ensures Raises(ops) && Done(ops) == Done(ops[..k])
  {
    if k == |ops| {
      assert ops[..k] == ops;
    } else {
      assert ops[..|ops| - 1][..k] == ops[..k];
      DoneStops(ops[..|ops| - 1], k);
    }
  }

  function LoadAll(w: World, order: seq<Id>): World
    decreases |order|
  {
    if order == [] then w else LoadAll(w.Load(order[0]), order[1..])
  }

  /** Inside a block nothing is loaded: the edits happen, the requests are collected. */
  function EditsOf(w: World, ops: seq<Op>): World
    decreases ops
  {
    if ops == [] then w
    else
      var n := |ops| - 1;
      var before := EditsOf(w, ops[..n]);
      match ops[n]
      case Edit(id, rows) => before.(rows := before.rows[id := rows])
      case Block(body) => EditsOf(before, body)
      case _ => before
  }

  function Requested(ops: seq<Op>): set<Id>
    decreases ops
  {
    if ops == [] then {}
    else
      var n := |ops| - 1;
      Requested(ops[..n])
      + match ops[n]
        case Reload(id) => {id}
        case Block(body) => Requested(body)
        case _ => {}
  }

  /** What one operation inside a block does, and which reloads it asks for. */
  function EditsOfOne(w: World, op: Op): World {
    match op
    case Edit(id, rows) => w.(rows := w.rows[id := rows])
    case Block(body) => EditsOf(w, Done(body))
    case _ => w
  }

  function RequestedByOne(op: Op): set<Id> {
    match op
    case Reload(id) => {id}
    case Block(body) => Requested(Done(body))
    case _ => {}
  }

  lemma DoneStep(w: World, ops: seq<Op>, i: nat)
    requires i < |ops| && !Raises(ops[..i])
    ensures Raises(ops[..i + 1]) == OpRaises(ops[i])
    ensures EditsOf(w, Done(ops[..i + 1])) == EditsOfOne(EditsOf(w, Done(ops[..i])), ops[i])
    ensures Requested(Done(ops[..i + 1])) == Requested(Done(ops[..i])) + RequestedByOne(ops[i])
  {
    var (front, all) := (ops[..i], ops[..i + 1]);
    assert all[..i] == front;
    if !ops[i].Raise? {
      var last := if ops[i].Block? then Block(Done(ops[i].body)) else ops[i];
      var done := Done(all);
      assert done == Done(front) + [last] && done[..|done| - 1] == Done(front);
    } else {
      assert Done(all) == Done(front) + [] == Done(front);
    }
  }

  /** The same program with every reload done at once, those that raise being passed over as at the end of a block. */
  function Immediate(w: World, ops: seq<Op>): World
    decreases ops
  {
    if ops == [] then w
    else
      var n := |ops| - 1;
      var before := Immediate(w, ops[..n]);
      match ops[n]
      case Edit(id, rows) => before.(rows := before.rows[id := rows])
      case Reload(id) => before.Load(id)
      case Block(body) => Immediate(before, body)
      case Raise => before
  }

  // ---- the running registry -------------------------------------------------------------------

  /** The set a block collects into; tasks started inside the block may keep it after the block has ended. */
  class PendingReloads {
    var ids: set<Id>
    var closed: bool

    constructor ()
      ensures ids == {} && !closed
    {
      ids, closed := {}, false;
    }
  }

  class Registry {
    var rows: map<Id, seq<Row>>
    var loaded: map<Id, seq<Binding>>
    var log: seq<Id>
    const adapterRaises: (nat, Id, seq<Binding>) -> bool

    constructor (
      rows: map<Id, seq<Row>>, loaded: map<Id, seq<Binding>>, adapterRaises: (nat, Id, seq<Binding>) -> bool)
      ensures Value() == World(rows, loaded, [], adapterRaises)
    {
      this.rows, this.loaded, this.log, this.adapterRaises := rows, loaded, [], adapterRaises;
    }

    ghost function Value(): World
      reads this
    {
      World(rows, loaded, log, adapterRaises)
    }

    /** A request made in a context: postponed while its block is open, done at once otherwise. */
    method ReloadInstanceBindings(id: Id, pending: PendingReloads?) returns (raised: bool)
      modifies this`loaded, this`log, pending
      ensures pending != null && !old(pending.closed) ==>
                !raised && Value() == old(Value()) && pending.ids == old(pending.ids) + {id} && !pending.closed
      ensures pending == null || old(pending.closed) ==>
                raised == old(Value()).LoadRaises(id) && Value() == old(Value()).Load(id)
      ensures pending != null && old(pending.closed) ==> pending.ids == old(pending.ids) && pending.closed
    {
      if pending != null && !pending.closed {
        pending.ids := pending.ids + {id};
        return false;
      }
      if id !in loaded {
        return false;
      }
      var stored := if id in rows then rows[id] else [];
      var tried := |log|;
      log := log + [id];
      var outcome := LoadValidBindings(stored);
      if outcome.Err? {
        return true;
      }
      loaded := loaded[id := outcome.value.0];
      return adapterRaises(tried, id, outcome.value.0);
    }

    /**
      Runs a program in an open block up to its first raise; each block has a set of its own,
      handed on when it ends.
     */
    method ExecuteInside(ops: seq<Op>, pending: PendingReloads) returns (raised: bool)
      requires !pending.closed
      modifies this, pending
      ensures !pending.closed && raised == Raises(ops)
      ensures Value() == EditsOf(old(Value()), Done(ops)) && pending.ids == old(pending.ids) + Requested(Done(ops))
      decreases ops, 0
    {
      ghost var start := Value();
      for i := 0 to |ops|
        invariant !pending.closed && !Raises(ops[..i])
        invariant Value() == EditsOf(start, Done(ops[..i]))
            && pending.ids == old(pending.ids) + Requested(Done(ops[..i]))
      {
        DoneStep(start, ops, i);
        raised := ExecuteOne(ops[i], pending);
        if raised {
          DoneStops(ops, i + 1);
          return;
        }
      }
      raised := false;
      assert ops[..|ops|] == ops;
    }

    /** Runs a program outside of any block up to its first raise. */
    method ExecuteOutside(ops: seq<Op>) returns (raised: bool)
      modifies this
      ensures Deferred(old(Value()), ops, Value(), raised)
      decreases ops, 0
    {
      ghost var (between, start) := ([Value()], Value());
      for i := 0 to |ops|
        invariant |between| == i + 1 && between[i] == Value() && Trace(start, ops, between)
        invariant forall k :: 0 <= k < i ==> !StepRaises(between[k], ops[k])
      {
        raised := ExecuteOne(ops[i], null);
        between := between + [Value()];
        if raised {
          TookSteps(start, ops, between, Value(), raised);
          return;
        }
      }
      raised := false;
      TookSteps(start, ops, between, Value(), raised);
    }

    method ExecuteOne(op: Op, pending: PendingReloads?) returns (raised: bool)
      requires pending != null ==> !pending.closed
      modifies this, pending
      ensures pending != null ==>
                && !pending.closed && raised == OpRaises(op)
                && Value() == EditsOfOne(old(Value()), op) && pending.ids == old(pending.ids) + RequestedByOne(op)
      ensures pending == null ==> raised == StepRaises(old(Value()), op) && DeferredStep(old(Value()), op, Value())
      decreases op, 2
    {
      raised := false;
      match op {
        case Edit(id, newRows) => rows := rows[id := newRows];
        case Reload(id) => raised := ReloadInstanceBindings(id, pending);
        case Block(body) => raised := DeferredBindingReloads(body, pending);
        case Raise => raised := true;
      }
    }

    /**
      A block: run the body with a fresh set, close it, then, whether or not the body
      raised, request each collected reload in the outer context. A reload that raises
      there neither fails the block nor skips the others.
     */
    method DeferredBindingReloads(body: seq<Op>, outer: PendingReloads?) returns (raised: bool)
      requires outer != null ==> !outer.closed
      modifies this, outer
      ensures raised == Raises(body)
      ensures outer != null ==>
                && !outer.closed && Value() == EditsOf(old(Value()), Done(body))
                && outer.ids == old(outer.ids) + Requested(Done(body))
      ensures outer == null ==> DeferredStep(old(Value()), Block(body), Value())
      decreases body, 1
    {
      var pending := new PendingReloads();
      raised := ExecuteInside(body, pending);
      pending.closed := true;
      var order := Sorted(pending.ids);
      ghost var edited := Value();
      for i := 0 to |order|
        invariant outer != null ==>
            !outer.closed && Value() == edited && outer.ids == old(outer.ids) + (set k | 0 <= k < i :: order[k])
        invariant outer == null ==> LoadAll(Value(), order[i..]) == LoadAll(edited, order)
      {
        assert order[i..][0] == order[i] && order[i..][1..] == order[i + 1..];
        var ignored := ReloadInstanceBindings(order[i], outer);
      }
    }
  }

  // ---- outside of any block ----------------------------------------------------------------------

  ghost predicate DeferredStep(w: World, op: Op, w': World) {
    match op
    case Edit(id, rows) => w' == w.(rows := w.rows[id := rows])
    case Reload(id) => w' == w.Load(id)
    case Block(body) =>
      exists order ::
        Enumerates(order, Requested(Done(body)))
        && w' == LoadAll(EditsOf(w, Done(body)), order)
    case Raise => w' == w
  }

  predicate StepRaises(w: World, op: Op) {
    match op
    case Edit(_, _) => false
    case Reload(id) => w.LoadRaises(id)
    case Block(body) => Raises(body)
    case Raise => true
  }

  /** The worlds before and after each step taken. */
  ghost predicate Trace(w: World, ops: seq<Op>, between: seq<World>) {
    && 1 <= |between| <= |ops| + 1 && between[0] == w
    && forall k :: 0 <= k < |between| - 1 ==> DeferredStep(between[k], ops[k], between[k + 1])
  }

  /** Steps are taken to the end of the program, or up to and including the first that raises. */
  ghost predicate Ends(w: World, ops: seq<Op>, between: seq<World>, w': World, raised: bool) {
    && Trace(w, ops, between) && between[|between| - 1] == w'
    && var steps := |between| - 1;
       && (forall k :: 0 <= k < steps - 1 ==> !StepRaises(between[k], ops[k]))
       && (if raised then steps > 0 && StepRaises(between[steps - 1], ops[steps - 1])
           else steps == |ops| && (steps > 0 ==> !StepRaises(between[steps - 1], ops[steps - 1])))
  }

  ghost predicate Deferred(w: World, ops: seq<Op>, w': World, raised: bool) {
    exists between :: Ends(w, ops, between, w', raised)
  }

  lemma TookSteps(w: World, ops: seq<Op>, between: seq<World>, w': World, raised: bool)
    requires Ends(w, ops, between, w', raised)
    ensures Deferred(w, ops, w', raised)
  {
  }

  lemma TookOneMore(w: World, op: Op, ops: seq<Op>, m: World, w': World, raised: bool)
    requires DeferredStep(w, op, m) && !StepRaises(w, op) && Deferred(m, ops, w', raised)
    ensures Deferred(w, [op] + ops, w', raised)
  {
    var rest :| Ends(m, ops, rest, w', raised);
    var (between, all) := ([w] + rest, [op] + ops);
    forall k | 0 <= k < |between| - 1 ensures DeferredStep(between[k], all[k], between[k + 1]) {
      if k > 0 {
        assert between[k] == rest[k - 1] && between[k + 1] == rest[k] && all[k] == ops[k - 1];
      }
    }
    forall k | 0 < k < |between| - 1 ensures StepRaises(between[k], all[k]) == StepRaises(rest[k - 1], ops[k - 1]) {
    }
    assert Ends(w, all, between, w', raised);
  }

  lemma TraceOfRest(w: World, op: Op, ops: seq<Op>, between: seq<World>)
    requires Trace(w, [op] + ops, between) && |between| >= 2
    ensures DeferredStep(w, op, between[1]) && Trace(between[1], ops, between[1..])
  {
    var (all, rest) := ([op] + ops, between[1..]);
    assert DeferredStep(between[0], all[0], between[0 + 1]);
    forall k | 0 <= k < |rest| - 1 ensures DeferredStep(rest[k], ops[k], rest[k + 1]) {
      assert DeferredStep(between[k + 1], all[k + 1], between[k + 1 + 1]);
    }
  }

  lemma EndsOfRest(w: World, op: Op, ops: seq<Op>, between: seq<World>, w': World, raised: bool)
    requires Ends(w, [op] + ops, between, w', raised) && !StepRaises(w, op)
    ensures |between| >= 2 && Ends(between[1], ops, between[1..], w', raised)
  {
    var (all, rest) := ([op] + ops, between[1..]);
    assert between[0] == w && all[0] == op;
    TraceOfRest(w, op, ops, between);
    forall k | 0 <= k < |rest| - 1 ensures StepRaises(rest[k], ops[k]) == StepRaises(between[k + 1], all[k + 1]) {
    }
  }

  lemma TookFirst(w: World, op: Op, ops: seq<Op>, w': World, raised: bool) returns (m: World)
    requires Deferred(w, [op] + ops, w', raised)
    ensures DeferredStep(w, op, m)
    ensures if StepRaises(w, op) then w' == m && raised else Deferred(m, ops, w', raised)
  {
    var between :| Ends(w, [op] + ops, between, w', raised);
    assert between[0] == w && ([op] + ops)[0] == op;
    if StepRaises(w, op) {
      assert |between| == 2;
    } else {
      EndsOfRest(w, op, ops, between, w', raised);
    }
    m := between[1];
    TraceOfRest(w, op, ops, between);
  }

  /** An empty program outside of any block does nothing; any other takes a step, and goes on unless that raises. */
  lemma DeferredExactly(w: World, op: Op, ops: seq<Op>, w': World, raised: bool)
    ensures Deferred(w, [], w', raised) <==> w' == w && !raised
    ensures Deferred(w, [op] + ops, w', raised)
            <==> exists m :: DeferredStep(w, op, m)
                             && if StepRaises(w, op) then w' == m && raised else Deferred(m, ops, w', raised)
  {
    if w' == w && !raised {
      assert Ends(w, [], [w], w, false);
    }
    if Deferred(w, [op] + ops, w', raised) {
      var m := TookFirst(w, op, ops, w', raised);
    }
    if m :| DeferredStep(w, op, m) && if StepRaises(w, op) then w' == m && raised else Deferred(m, ops, w', raised) {
      if StepRaises(w, op) {
        assert Ends(w, [op] + ops, [w, m], m, true);
      } else {
        TookOneMore(w, op, ops, m, w', raised);
      }
    }
  }

  function Count(log: seq<Id>, id: Id): nat {
    if log == [] then 0 else (if log[0] == id then 1 else 0) + Count(log[1..], id)
  }

  lemma {:induction false} CountAppend(a: seq<Id>, b: seq<Id>, id: Id)
    ensures Count(a + b, id) == Count(a, id) + Count(b, id)
  {
    if a == [] {
      assert a + b == b;
    } else {
      assert (a + b)[1..] == a[1..] + b;
      CountAppend(a[1..], b, id);
    }
  }

  /** Loading distinct instances: each running one gets its current rows, once; nothing else changes. */
  lemma {:induction false} LoadAllLoadsEachOnce(w: World, order: seq<Id>, id: Id)
    requires forall i, j :: 0 <= i < j < |order| ==> order[i] != order[j]
    ensures var w' := LoadAll(w, order);
            && w'.rows == w.rows
            && w'.loaded.Keys == w.loaded.Keys
            && (id in w.loaded ==>
                  w'.loaded[id] == if id in order && Loadable(w.RowsOf(id)) then Readables(w.RowsOf(id))
                      else w.loaded[id])
            && Count(w'.log, id) == Count(w.log, id) + if id in order && id in w.loaded then 1 else 0
    decreases |order|
  {
    if order != [] {
      LoadAllLoadsEachOnce(w.Load(order[0]), order[1..], id);
      CountAppend(w.log, [order[0]], id);
      assert id in order <==> id == order[0] || id in order[1..];
    }
  }

  lemma {:induction false} EditsOnlyEdit(w: World, ops: seq<Op>)
    ensures EditsOf(w, ops).loaded == w.loaded && EditsOf(w, ops).log == w.log
    decreases ops
  {
    if ops != [] {
      var n := |ops| - 1;
      EditsOnlyEdit(w, ops[..n]);
      if ops[n].Block? {
        EditsOnlyEdit(EditsOf(w, ops[..n]), ops[n].body);
      }
    }
  }

  /**
    At its outermost end a block, however nested and even if it raises, tries to reload
    every running instance requested so far once, from the rows as they are then.
   */
  lemma BlockReloadsEachOnce(w: World, body: seq<Op>, w': World, id: Id)
    requires DeferredStep(w, Block(body), w')
    ensures var done := Done(body);
            && w'.rows == EditsOf(w, done).rows && w'.loaded.Keys == w.loaded.Keys
            && Count(w'.log, id) == Count(w.log, id) + (if id in Requested(done) && id in w.loaded then 1 else 0)
            && (id in w.loaded ==>
                  w'.loaded[id] == if id in Requested(done) && Loadable(w'.RowsOf(id)) then Readables(w'.RowsOf(id))
                      else w.loaded[id])
  {
    var done := Done(body);
    var edited := EditsOf(w, done);
    var order :| Enumerates(order, Requested(done)) && w' == LoadAll(edited, order);
    EditsOnlyEdit(w, done);
    LoadAllLoadsEachOnce(edited, order, id);
  }

  // ---- compared with reloading at once ----------------------------------------------------------------

  /** The rows an instance had when it was last requested. */
  function AtLastRequest(w: World, ops: seq<Op>, id: Id): Option<seq<Row>>
    decreases ops
  {
    if ops == [] then None
    else
      var n := |ops| - 1;
      var before := AtLastRequest(w, ops[..n], id);
      match ops[n]
      case Reload(other) => if other == id then Some(EditsOf(w, ops[..n]).RowsOf(id)) else before
      case Block(body) => if id in Requested(body) then AtLastRequest(EditsOf(w, ops[..n]), body, id) else before
      case _ => before
  }

  lemma {:induction false} RequestsAreSeen(w: World, ops: seq<Op>, id: Id)
    ensures AtLastRequest(w, ops, id).Some? <==> id in Requested(ops)
    decreases ops
  {
    if ops != [] {
      var n := |ops| - 1;
      RequestsAreSeen(w, ops[..n], id);
      if ops[n].Block? {
        RequestsAreSeen(EditsOf(w, ops[..n]), ops[n].body, id);
      }
    }
  }

  /** What an instance has loaded after its requests, each loading the rows of its moment unless that raises. */
  function LoadedAtOnce(w: World, ops: seq<Op>, id: Id, before: seq<Binding>): seq<Binding>
    decreases ops
  {
    if ops == [] then before
    else
      var n := |ops| - 1;
      var earlier := LoadedAtOnce(w, ops[..n], id, before);
      match ops[n]
      case Reload(other) => if other == id then LoadedFrom(EditsOf(w, ops[..n]).RowsOf(id), earlier) else earlier
      case Block(body) => LoadedAtOnce(EditsOf(w, ops[..n]), body, id, earlier)
      case _ => earlier
  }

  function LoadedFrom(rows: seq<Row>, before: seq<Binding>): seq<Binding> {
    if Loadable(rows) then Readables(rows) else before
  }

  lemma {:induction false} EditsDependOnRows(w: World, v: World, ops: seq<Op>)
    requires w.rows == v.rows
    ensures EditsOf(w, ops).rows == EditsOf(v, ops).rows
    decreases ops
  {
    if ops != [] {
      var n := |ops| - 1;
      EditsDependOnRows(w, v, ops[..n]);
      if ops[n].Block? {
        EditsDependOnRows(EditsOf(w, ops[..n]), EditsOf(v, ops[..n]), ops[n].body);
      }
    }
  }

  lemma {:induction false} LoadsDependOnRows(w: World, v: World, ops: seq<Op>, id: Id, before: seq<Binding>)
    requires w.rows == v.rows
    ensures LoadedAtOnce(w, ops, id, before) == LoadedAtOnce(v, ops, id, before)
    decreases ops
  {
    if ops != [] {
      var n := |ops| - 1;
      EditsDependOnRows(w, v, ops[..n]);
      LoadsDependOnRows(w, v, ops[..n], id, before);
      if ops[n].Block? {
        var earlier := LoadedAtOnce(w, ops[..n], id, before);
        LoadsDependOnRows(EditsOf(w, ops[..n]), EditsOf(v, ops[..n]), ops[n].body, id, earlier);
      }
    }
  }

  lemma {:induction false} ImmediateLoadsAtOnce(w: World, ops: seq<Op>, id: Id)
    ensures var w' := Immediate(w, ops);
            && w'.rows == EditsOf(w, ops).rows && w'.loaded.Keys == w.loaded.Keys
            && (id in w.loaded ==> w'.loaded[id] == LoadedAtOnce(w, ops, id, w.loaded[id]))
    decreases ops
  {
    if ops != [] {
      var n := |ops| - 1;
      var before := Immediate(w, ops[..n]);
      ImmediateLoadsAtOnce(w, ops[..n], id);
      if ops[n].Block? {
        var body := ops[n].body;
        ImmediateLoadsAtOnce(before, body, id);
        EditsDependOnRows(before, EditsOf(w, ops[..n]), body);
        if id in w.loaded {
          LoadsDependOnRows(before, EditsOf(w, ops[..n]), body, id, before.loaded[id]);
        }
      }
    }
  }

  /** If the rows at the last request load, they are what immediate reloads leave. */
  lemma {:induction false} LastRequestCounts(w: World, ops: seq<Op>, id: Id, before: seq<Binding>)
    ensures AtLastRequest(w, ops, id).None? ==> LoadedAtOnce(w, ops, id, before) == before
    ensures AtLastRequest(w, ops, id).Some? && Loadable(AtLastRequest(w, ops, id).value) ==>
              LoadedAtOnce(w, ops, id, before) == Readables(AtLastRequest(w, ops, id).value)
    decreases ops
  {
    if ops != [] {
      var n := |ops| - 1;
      LastRequestCounts(w, ops[..n], id, before);
      if ops[n].Block? {
        LastRequestCounts(EditsOf(w, ops[..n]), ops[n].body, id, LoadedAtOnce(w, ops[..n], id, before));
        RequestsAreSeen(EditsOf(w, ops[..n]), ops[n].body, id);
      }
    }
  }

  /** Reloading at once leaves each instance with the rows of its last request, if these load. */
  lemma ImmediateKeepsLastRequest(w: World, ops: seq<Op>, id: Id)
    requires id in w.loaded
    ensures var w' := Immediate(w, ops);
            && w'.rows == EditsOf(w, ops).rows && w'.loaded.Keys == w.loaded.Keys
            && match AtLastRequest(w, ops, id)
               case None => w'.loaded[id] == w.loaded[id]
               case Some(rows) => Loadable(rows) ==> w'.loaded[id] == Readables(rows)
  {
    ImmediateLoadsAtOnce(w, ops, id);
    LastRequestCounts(w, ops, id, w.loaded[id]);
  }

  /**
    A postponed reload ends with the bindings of an immediate one exactly when loading the
    rows at the block's end gives what loading at every request gave; where both load, when
    the rows at the end read like those at the last request.
   */
  lemma DeferredAgreesWithImmediate(w: World, body: seq<Op>, w': World, id: Id)
    requires DeferredStep(w, Block(body), w') && id in w.loaded
    ensures var done := Done(body);
            && id in w'.loaded && id in Immediate(w, done).loaded
            && var (end, last) := (EditsOf(w, done).RowsOf(id), AtLastRequest(w, done, id));
            && (last.None? ==> w'.loaded[id] == Immediate(w, done).loaded[id])
            && (last.Some? ==>
                  (w'.loaded[id] == Immediate(w, done).loaded[id]
                   <==> LoadedFrom(end, w.loaded[id]) == LoadedAtOnce(w, done, id, w.loaded[id])))
            && (last.Some? && Loadable(end) && Loadable(last.value) ==>
                  (w'.loaded[id] == Immediate(w, done).loaded[id] <==> Readables(end) == Readables(last.value)))
  {
    var done := Done(body);
    BlockReloadsEachOnce(w, body, w', id);
    ImmediateLoadsAtOnce(w, done, id);
    LastRequestCounts(w, done, id, w.loaded[id]);
    RequestsAreSeen(w, done, id);
  }

  lemma RequestThenEdit(w: World, id: Id, rows: seq<Row>)
    ensures var body := [Reload(id), Edit(id, rows)];
            && Done(body) == body && Requested(body) == {id}
            && EditsOf(w, body) == w.(rows := w.rows[id := rows])
            && AtLastRequest(w, body, id) == Some(w.RowsOf(id))
  {
    var (r, body) := ([Reload(id)], [Reload(id), Edit(id, rows)]);
    assert r[..0] == [] && body[..1] == r;
    assert Done(r) == Done([]) + r == r && Done(body) == r + [Edit(id, rows)];
    assert Requested(r) == Requested([]) + {id};
    assert Requested(body) == Requested(r) + {};
    assert EditsOf(w, r) == EditsOf(w, []) == w;
    assert AtLastRequest(w, r, id) == Some(EditsOf(w, []).RowsOf(id));
  }

  /** They can differ: the rows of a running instance change after its only request. */
  lemma EditAfterTheRequestMakesADifference(w: World, w': World, id: Id, rows: seq<Row>)
    requires id in w.loaded && Loadable(w.RowsOf(id)) && Loadable(rows) && Readables(rows) != Readables(w.RowsOf(id))
    requires DeferredStep(w, Block([Reload(id), Edit(id, rows)]), w')
    ensures var immediate := Immediate(w, [Reload(id), Edit(id, rows)]);
            && id in immediate.loaded && immediate.loaded[id] == Readables(w.RowsOf(id))
            && id in w'.loaded && w'.loaded[id] == Readables(rows)
  {
    var body := [Reload(id), Edit(id, rows)];
    RequestThenEdit(w, id, rows);
    BlockReloadsEachOnce(w, body, w', id);
    ImmediateKeepsLastRequest(w, body, id);
  }

  /** Whether the instance's rows were edited after its last request. */
  predicate Unsettled(ops: seq<Op>, id: Id)
    decreases ops
  {
    if ops == [] then false
    else
      var n := |ops| - 1;
      match ops[n]
      case Edit(other, _) => other == id || Unsettled(ops[..n], id)
      case Reload(other) => other != id && Unsettled(ops[..n], id)
      case Block(body) => Unsettled(body, id) || (id !in Requested(body) && Unsettled(ops[..n], id))
      case Raise => Unsettled(ops[..n], id)
  }

  /** A program that requests a reload after each edit. */
  function Import(edits: seq<(Id, seq<Row>)>): seq<Op> {
    if edits == [] then []
    else
      var (id, rows) := edits[|edits| - 1];
      Import(edits[..|edits| - 1]) + [Edit(id, rows), Reload(id)]
  }

  /** In it no rows change after the last request for them, nor if it stands in a block. */
  lemma {:induction false} ImportsAreSettled(edits: seq<(Id, seq<Row>)>, id: Id)
    ensures !Unsettled(Import(edits), id) && !Unsettled([Block(Import(edits))], id)
    decreases |edits|
  {
    if edits != [] {
      ImportsAreSettled(edits[..|edits| - 1], id);
      var (other, rows) := edits[|edits| - 1];
      var front := Import(edits[..|edits| - 1]);
      var all := front + [Edit(other, rows), Reload(other)];
      assert all[..|all| - 1] == front + [Edit(other, rows)];
      assert (front + [Edit(other, rows)])[..|front|] == front;
    }
    assert [Block(Import(edits))][..0] == [];
  }

  lemma {:induction false} SettledRowsAreTheLast(w: World, ops: seq<Op>, id: Id)
    requires !Unsettled(ops, id)
    ensures EditsOf(w, ops).RowsOf(id) == AtLastRequest(w, ops, id).GetOr(w.RowsOf(id))
    decreases ops
  {
    if ops != [] {
      var n := |ops| - 1;
      match ops[n]
      case Edit(_, _) => SettledRowsAreTheLast(w, ops[..n], id);
      case Reload(other) => if other != id { SettledRowsAreTheLast(w, ops[..n], id); }
      case Block(body) =>
        SettledRowsAreTheLast(EditsOf(w, ops[..n]), body, id);
        RequestsAreSeen(EditsOf(w, ops[..n]), body, id);
        if id !in Requested(body) { SettledRowsAreTheLast(w, ops[..n], id); }
      case Raise => SettledRowsAreTheLast(w, ops[..n], id);
    }
  }

  /**
    A bulk import, which requests a reload after every edit, ends with the bindings of
    immediate reloads, unless the rows at its end do not load.
   */
  lemma ImportEndsAsIfImmediate(w: World, body: seq<Op>, w': World, id: Id)
    requires DeferredStep(w, Block(body), w') && id in w.loaded && !Unsettled(Done(body), id)
    ensures id in w'.loaded && id in Immediate(w, Done(body)).loaded
    ensures Loadable(w'.RowsOf(id)) || id !in Requested(Done(body)) ==>
        w'.loaded[id] == Immediate(w, Done(body)).loaded[id]
  {
    BlockReloadsEachOnce(w, body, w', id);
    DeferredAgreesWithImmediate(w, body, w', id);
    SettledRowsAreTheLast(w, Done(body), id);
    RequestsAreSeen(w, Done(body), id);
  }
}
