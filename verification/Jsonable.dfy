/**
  JSON-compatible copies of runtime values (obs/core/json.py). Containers live on a heap
  and may be shared or contain themselves. The walk ends on every heap, leaves its set of
  active containers as it found it, and puts a recursion marker exactly where a container
  lies inside itself; whatever is merely shared is copied in full.
 */
module Jsonable {
  import opened Wrappers

  type Id = nat

  datatype Value = Scalar(atom: int) | Moment(iso: string) | Ref(id: Id)

  /** Dictionary keys: strings, other JSON atoms, dates and times, anything else by its text. */
  datatype Key = TextKey(s: string) | AtomKey(atom: int) | MomentKey(iso: string) | OtherKey(text: string)

  datatype Entry = Entry(key: Key, value: Value)

  datatype Container = Dict(entries: seq<Entry>) | List(items: seq<Value>) | Tuple(items: seq<Value>)

  type Heap = map<Id, Container>

  datatype JsonKey = JsonText(s: string) | JsonAtom(atom: int)

  datatype Json = Atom(atom: int) | Text(s: string) | Object(entries: seq<JsonEntry>) | Array(items: seq<Json>)
  datatype JsonEntry = JsonEntry(key: JsonKey, value: Json)

  predicate Live(heap: Heap, v: Value) {
    v.Ref? ==> v.id in heap
  }

  /** No container refers to anything that is not on the heap. */
  predicate Closed(heap: Heap) {
    forall id :: id in heap ==>
      match heap[id]
      case Dict(entries) => forall i :: 0 <= i < |entries| ==> Live(heap, entries[i].value)
      case List(items) => forall i :: 0 <= i < |items| ==> Live(heap, items[i])
      case Tuple(items) => forall i :: 0 <= i < |items| ==> Live(heap, items[i])
  }

  function JsonKeyOf(key: Key): JsonKey {
    match key
    case TextKey(s) => JsonText(s)
    case AtomKey(a) => JsonAtom(a)
    case MomentKey(iso) => JsonText(iso)
    case OtherKey(text) => JsonText(text)
  }

  function Marker(c: Container): string {
    match c
    case Dict(_) => "<recursive dict>"
    case List(_) => "<recursive list>"
    case Tuple(_) => "<recursive tuple>"
  }

  /** Assignment into a dictionary: an existing key keeps its place. */
  function Put(entries: seq<JsonEntry>, key: JsonKey, value: Json): seq<JsonEntry> {
    if entries == [] then [JsonEntry(key, value)]
    else if entries[0].key == key then [JsonEntry(key, value)] + entries[1..]
    else [entries[0]] + Put(entries[1..], key, value)
  }

  function Lookup(entries: seq<JsonEntry>, key: JsonKey): Option<Json> {
    if entries == [] then None
    else if entries[0].key == key then Some(entries[0].value)
    else Lookup(entries[1..], key)
  }

  lemma {:induction false} LookupPut(entries: seq<JsonEntry>, key: JsonKey, value: Json, other: JsonKey)
    ensures Lookup(Put(entries, key, value), other) == if other == key then Some(value) else Lookup(entries, other)
  {
    if entries != [] && entries[0].key != key {
      LookupPut(entries[1..], key, value, other);
    }
  }

  // ---- the copy ---------------------------------------------------------------------------------------

  lemma {:induction false} FewerLeft(heap: Heap, active: set<Id>, id: Id)
    requires id in heap && id !in active
    ensures |heap.Keys - (active + {id})| < |heap.Keys - active|
  {
    assert heap.Keys - active == (heap.Keys - (active + {id})) + {id};
  }

  /** The copy of v below the active containers. */
  function Copy(heap: Heap, v: Value, active: set<Id>): Json
    requires Closed(heap) && Live(heap, v)
    decreases |heap.Keys - active|, 0
  {
    match v
    case Scalar(a) => Atom(a)
    case Moment(iso) => Text(iso)
    case Ref(id) =>
      if id in active then Text(Marker(heap[id]))
      else
        FewerLeft(heap, active, id);
        match heap[id]
        case Dict(entries) => Object(CopyEntries(heap, entries, active + {id}))
        case List(items) => Array(CopyItems(heap, items, active + {id}))
        case Tuple(items) => Array(CopyItems(heap, items, active + {id}))
  }

  function CopyItems(heap: Heap, items: seq<Value>, active: set<Id>): (r: seq<Json>)
    requires Closed(heap) && forall i :: 0 <= i < |items| ==> Live(heap, items[i])
    ensures |r| == |items| && forall i :: 0 <= i < |items| ==> r[i] == Copy(heap, items[i], active)
    decreases |heap.Keys - active|, |items|
  {
    if items == [] then []
    else CopyItems(heap, items[..|items| - 1], active) + [Copy(heap, items[|items| - 1], active)]
  }

  function CopyEntries(heap: Heap, entries: seq<Entry>, active: set<Id>): seq<JsonEntry>
    requires Closed(heap) && forall i :: 0 <= i < |entries| ==> Live(heap, entries[i].value)
    decreases |heap.Keys - active|, |entries|
  {
    if entries == [] then []
    else
      var last := entries[|entries| - 1];
      Put(CopyEntries(heap, entries[..|entries| - 1], active), JsonKeyOf(last.key), Copy(heap, last.value, active))
  }

  class Walker {
    var active: set<Id>

    constructor ()
      ensures active == {}
    {
      active := {};
    }

    method Walk(heap: Heap, v: Value) returns (r: Json)
      requires Closed(heap) && Live(heap, v)
      modifies this
      ensures active == old(active)
      ensures r == Copy(heap, v, old(active))
      decreases |heap.Keys - active|, 0
    {
      match v {
        case Scalar(a) => r := Atom(a);
        case Moment(iso) => r := Text(iso);
        case Ref(id) =>
          if id in active {
            return Text(Marker(heap[id]));
          }
          FewerLeft(heap, active, id);
          ghost var before := active;
          active := active + {id};
          match heap[id] {
            case Dict(entries) => var copied := WalkEntries(heap, entries); r := Object(copied);
            case List(items) => var copied := WalkItems(heap, items); r := Array(copied);
            case Tuple(items) => var copied := WalkItems(heap, items); r := Array(copied);
          }
          active := active - {id};
          assert active == before;
      }
    }

    method WalkItems(heap: Heap, items: seq<Value>) returns (r: seq<Json>)
      requires Closed(heap) && forall i :: 0 <= i < |items| ==> Live(heap, items[i])
      modifies this
      ensures active == old(active)
      ensures r == CopyItems(heap, items, old(active))
      decreases |heap.Keys - active|, 1
    {
      r := [];
      for i := 0 to |items|
        invariant active == old(active)
        invariant r == CopyItems(heap, items[..i], active)
      {
        var item := Walk(heap, items[i]);
        assert items[..i + 1][..i] == items[..i];
        r := r + [item];
      }
      assert items[..|items|] == items;
    }

    method WalkEntries(heap: Heap, entries: seq<Entry>) returns (r: seq<JsonEntry>)
      requires Closed(heap) && forall i :: 0 <= i < |entries| ==> Live(heap, entries[i].value)
      modifies this
      ensures active == old(active)
      ensures r == CopyEntries(heap, entries, old(active))
      decreases |heap.Keys - active|, 1
    {
      r := [];
      for i := 0 to |entries|
        invariant active == old(active)
        invariant r == CopyEntries(heap, entries[..i], active)
      {
        var value := Walk(heap, entries[i].value);
        assert entries[..i + 1][..i] == entries[..i];
        r := Put(r, JsonKeyOf(entries[i].key), value);
      }
      assert entries[..|entries|] == entries;
    }
  }

  method Jsonable(heap: Heap, v: Value) returns (r: Json)
    requires Closed(heap) && Live(heap, v)
    ensures r == Copy(heap, v, {})
  {
    var walker := new Walker();
    r := walker.Walk(heap, v);
  }

  // ---- following paths -----------------------------------------------------------------------------------

  /** One step down: to a position of a list or tuple, or to a key of a dictionary. */
  datatype Step = Index(i: nat) | Under(key: JsonKey)

  /** Of the entries whose keys become this key, the last one counts. */
  function LastUnder(entries: seq<Entry>, key: JsonKey): Option<Value> {
    if entries == [] then None
    else if JsonKeyOf(entries[|entries| - 1].key) == key then Some(entries[|entries| - 1].value)
    else LastUnder(entries[..|entries| - 1], key)
  }

  function Down(heap: Heap, v: Value, step: Step): Option<Value> {
    if v.Ref? && v.id in heap then
      match (heap[v.id], step)
      case (Dict(entries), Under(key)) => LastUnder(entries, key)
      case (List(items), Index(i)) => if i < |items| then Some(items[i]) else None
      case (Tuple(items), Index(i)) => if i < |items| then Some(items[i]) else None
      case (_, _) => None
    else None
  }

  /** The value a path leads to. */
  function Follow(heap: Heap, v: Value, path: seq<Step>): Option<Value>
    decreases |path|
  {
    if path == [] then Some(v)
    else match Down(heap, v, path[0])
      case None => None
      case Some(next) => Follow(heap, next, path[1..])
  }

  /** The containers a path leads through, outermost first, its end not included. */
  function Through(heap: Heap, v: Value, path: seq<Step>): seq<Id>
    decreases |path|
  {
    if path == [] || Down(heap, v, path[0]).None? then []
    else [v.id] + Through(heap, Down(heap, v, path[0]).value, path[1..])
  }

  predicate NoRepeats(ids: seq<Id>) {
    forall i, j :: 0 <= i < j < |ids| ==> ids[i] != ids[j]
  }

  function At(json: Json, path: seq<Step>): Option<Json>
    decreases |path|
  {
    if path == [] then Some(json)
    else if json.Array? && path[0].Index? && path[0].i < |json.items| then At(json.items[path[0].i], path[1..])
    else if json.Object? && path[0].Under? && Lookup(json.entries, path[0].key).Some? then
      At(Lookup(json.entries, path[0].key).value, path[1..])
    else None
  }

  /** What the copy of v looks like at its top, below the containers `above`. */
  predicate Shows(heap: Heap, v: Value, above: set<Id>, json: Json)
    requires Live(heap, v)
  {
    match v
    case Scalar(a) => json == Atom(a)
    case Moment(iso) => json == Text(iso)
    case Ref(id) =>
      if id in above then json == Text(Marker(heap[id]))
      else if heap[id].Dict? then json.Object?
      else json.Array? && |json.items| == |heap[id].items|
  }

  lemma {:induction false} LookupCopied(heap: Heap, entries: seq<Entry>, active: set<Id>, key: JsonKey)
    requires Closed(heap) && forall i :: 0 <= i < |entries| ==> Live(heap, entries[i].value)
    ensures var last := LastUnder(entries, key);
            && (last.Some? ==> Live(heap, last.value))
            && Lookup(CopyEntries(heap, entries, active), key) == if last.Some?
                then Some(Copy(heap, last.value, active)) else None
  {
    if entries != [] {
      var (front, last) := (entries[..|entries| - 1], entries[|entries| - 1]);
      LookupCopied(heap, front, active, key);
      LookupPut(CopyEntries(heap, front, active), JsonKeyOf(last.key), Copy(heap, last.value, active), key);
    }
  }

  lemma DownIsLive(heap: Heap, v: Value, step: Step)
    requires Closed(heap)
    ensures Down(heap, v, step).Some? ==> Live(heap, Down(heap, v, step).value)
  {
    if v.Ref? && v.id in heap && heap[v.id].Dict? && step.Under? {
      LookupCopied(heap, heap[v.id].entries, {}, step.key);
    }
  }

  /** One step into a copied container is the copy of one step down, with that container active. */
  lemma CopyOneStep(heap: Heap, id: Id, active: set<Id>, step: Step, rest: seq<Step>)
    requires Closed(heap) && id in heap && id !in active
    ensures var next := Down(heap, Ref(id), step);
            && (next.Some? ==> Live(heap, next.value))
            && At(Copy(heap, Ref(id), active), [step] + rest)
               == if next.Some? then At(Copy(heap, next.value, active + {id}), rest) else None
  {
    FewerLeft(heap, active, id);
    var path := [step] + rest;
    assert path[0] == step && path[1..] == rest;
    if heap[id].Dict? && step.Under? {
      LookupCopied(heap, heap[id].entries, active + {id}, step.key);
    }
  }

  predicate Apart(ids: seq<Id>, active: set<Id>) {
    NoRepeats(ids) && forall i :: 0 <= i < |ids| ==> ids[i] !in active
  }

  lemma ApartCons(id: Id, ids: seq<Id>, active: set<Id>)
    ensures Apart([id] + ids, active) <==> id !in active && Apart(ids, active + {id})
  {
    var all := [id] + ids;
    if Apart(all, active) {
      assert all[0] == id && forall i :: 0 <= i < |ids| ==> all[i + 1] == ids[i];
      forall i, j | 0 <= i < j < |ids| ensures ids[i] != ids[j] {
        assert all[i + 1] != all[j + 1];
      }
    }
    if id !in active && Apart(ids, active + {id}) {
      forall i | 1 <= i < |all| ensures all[i] == ids[i - 1] {}
    }
  }

  function Elements(ids: seq<Id>): set<Id> {
    set id | id in ids
  }

  lemma {:induction false} CopyAlongPath(heap: Heap, v: Value, path: seq<Step>, active: set<Id>)
    requires Closed(heap) && Live(heap, v)
    ensures var (target, ids, shown) :=
        (Follow(heap, v, path), Through(heap, v, path), At(Copy(heap, v, active), path));
            && (shown.Some? <==> target.Some? && Apart(ids, active))
            && (shown.Some? ==>
                Live(heap, target.value)
                && Shows(heap, target.value, active + Elements(ids), shown.value))
    decreases |path|
  {
    if path == [] {
      assert active + Elements([]) == active;
    } else {
      var next := Down(heap, v, path[0]);
      assert path == [path[0]] + path[1..];
      DownIsLive(heap, v, path[0]);
      if next.Some? {
        var ids := Through(heap, next.value, path[1..]);
        ApartCons(v.id, ids, active);
        CopyAlongPath(heap, next.value, path[1..], active + {v.id});
        assert active + {v.id} + Elements(ids) == active + Elements([v.id] + ids);
      }
      if v.Ref? && v.id !in active {
        CopyOneStep(heap, v.id, active, path[0], path[1..]);
      }
    }
  }

  /**
    The copy has something at a path exactly when the original has, and the path leads
    through no container twice. There it shows the original, or the marker if the path
    ends at a container it has come through.
   */
  lemma MarkedExactlyInsideItself(heap: Heap, v: Value, path: seq<Step>)
    requires Closed(heap) && Live(heap, v)
    ensures var (target, ids, shown) := (Follow(heap, v, path), Through(heap, v, path), At(Copy(heap, v, {}), path));
            && (shown.Some? <==> target.Some? && NoRepeats(ids))
            && (shown.Some? ==> Live(heap, target.value) && Shows(heap, target.value, Elements(ids), shown.value))
  {
    CopyAlongPath(heap, v, path, {});
    assert {} + Elements(Through(heap, v, path)) == Elements(Through(heap, v, path));
  }

  // ---- keys ---------------------------------------------------------------------------------------------------

  /** What a key is called in JSON, if it is called by a text: itself, its ISO form, or its str(). */
  function TextOf(key: Key): Option<string> {
    if key.AtomKey? then None
    else Some(if key.TextKey? then key.s else if key.MomentKey? then key.iso else key.text)
  }

  /**
    An entry of a dictionary is found in its copy under its own key, as the copy of its
    value: a text under itself, a moment under its ISO form, anything else that is no atom
    under its text; unless a later entry is called the same.
   */
  lemma {:induction false} EntryIsFound(heap: Heap, entries: seq<Entry>, active: set<Id>, i: nat)
    requires Closed(heap) && i < |entries|
    requires forall k :: 0 <= k < |entries| ==> Live(heap, entries[k].value)
    requires forall k :: i < k < |entries| ==>
        if entries[i].key.AtomKey? then entries[k].key != entries[i].key
        else TextOf(entries[k].key) != TextOf(entries[i].key)
    ensures var (key, copied) := (entries[i].key, CopyEntries(heap, entries, active));
            Lookup(copied, if key.AtomKey? then JsonAtom(key.atom) else JsonText(TextOf(key).value))
            == Some(Copy(heap, entries[i].value, active))
  {
    var n := |entries| - 1;
    var (front, last) := (entries[..n], entries[n]);
    var key := entries[i].key;
    var found := if key.AtomKey? then JsonAtom(key.atom) else JsonText(TextOf(key).value);
    LookupPut(CopyEntries(heap, front, active), JsonKeyOf(last.key), Copy(heap, last.value, active), found);
    if i < n {
      EntryIsFound(heap, front, active, i);
    }
  }

  /** The markers name the kind of container. */
  lemma MarkersExactly(heap: Heap, id: Id, active: set<Id>)
    requires Closed(heap) && id in heap && id in active
    ensures Copy(heap, Ref(id), active) == Text(
        "<recursive " + (if heap[id].Dict? then "dict" else if heap[id].List? then "list" else "tuple") + ">")
  {
  }

  // ---- without cycles -----------------------------------------------------------------------------------------

  /** What a container holds directly ranks below it. */
  ghost predicate RanksAbove(heap: Heap, rank: Id -> nat, v: Value) {
    forall step :: v.Ref? && Down(heap, v, step).Some? && Down(heap, v, step).value.Ref? ==>
      rank(Down(heap, v, step).value.id) < rank(v.id)
  }

  /** No container that v leads to contains itself, however much is shared and whatever else is on the heap. */
  ghost predicate Acyclic(heap: Heap, rank: Id -> nat, v: Value) {
    forall path :: Follow(heap, v, path).Some? ==> RanksAbove(heap, rank, Follow(heap, v, path).value)
  }

  lemma AcyclicBelow(heap: Heap, rank: Id -> nat, v: Value, step: Step)
    requires Acyclic(heap, rank, v) && Down(heap, v, step).Some?
    ensures RanksAbove(heap, rank, v) && Acyclic(heap, rank, Down(heap, v, step).value)
  {
    var next := Down(heap, v, step).value;
    assert Follow(heap, v, []) == Some(v);
    forall path | Follow(heap, next, path).Some? ensures RanksAbove(heap, rank, Follow(heap, next, path).value) {
      assert ([step] + path)[1..] == path;
      assert Follow(heap, v, [step] + path) == Follow(heap, next, path);
    }
  }

  lemma {:induction false} RanksFall(heap: Heap, rank: Id -> nat, v: Value, path: seq<Step>)
    requires Acyclic(heap, rank, v)
    ensures var (ids, target) := (Through(heap, v, path), Follow(heap, v, path));
            && (ids != [] ==> v == Ref(ids[0]))
            && (forall i, j :: 0 <= i < j < |ids| ==> rank(ids[j]) < rank(ids[i]))
            && (target.Some? && target.value.Ref? ==> forall i :: 0 <= i < |ids| ==>
                rank(target.value.id) < rank(ids[i]))
    decreases |path|
  {
    if path != [] && Down(heap, v, path[0]).Some? {
      AcyclicBelow(heap, rank, v, path[0]);
      RanksFall(heap, rank, Down(heap, v, path[0]).value, path[1..]);
    }
  }

  /**
    Without cycles below it the copy is complete: every path of the original is one of the
    copy, and no marker appears.
   */
  lemma AcyclicIsCopiedInFull(heap: Heap, rank: Id -> nat, v: Value, path: seq<Step>)
    requires Closed(heap) && Live(heap, v) && Acyclic(heap, rank, v)
    ensures var (target, shown) := (Follow(heap, v, path), At(Copy(heap, v, {}), path));
            && (shown.Some? <==> target.Some?)
            && (shown.Some? ==> Live(heap, target.value) && Shows(heap, target.value, {}, shown.value))
  {
    RanksFall(heap, rank, v, path);
    MarkedExactlyInsideItself(heap, v, path);
  }
}
