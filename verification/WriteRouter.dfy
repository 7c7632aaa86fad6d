/**
  WriteRouter (obs/core/write_router.py): propagating a value to the destination
  bindings of a datapoint, with a send throttle, an on-change filter and delta filters
  over a compacted cache of the last sent value. The class updates its two
  dictionaries in a loop over the bindings; the lemmas follow one binding through a
  whole run of calls.
 */
module WriteRouter {
  import opened Wrappers

  // ---- values and the compacted cache ------------------------------------------------

  /**
    A Python value as the router sees it. Numbers with one mathematical value, and
    objects with one content, are equal in every form (True, 1 and 1.0), yet their
    forms may render differently. Triple is a 3-tuple of a text, a size and a text.
   */
  datatype Value =
    | Null
    | Str(text: string)
    | Num(val: real, form: int)
    | Obj(content: int, shape: int)
    | Triple(tag: string, size: int, hash: string)

  const MAX_CACHED_VALUE_CHARS := 8192
  const STR_DIGEST := "__str_digest__"
  const REPR_DIGEST := "__repr_digest__"

  /**
    What the platform supplies: repr(), the digest, float() of a text, and which integers
    are too large for a float.
   */
  datatype Platform = Platform(
    repr: Value -> string, digest: string -> string, parse: string -> Option<real>, tooLarge: Value -> bool) {
    ghost predicate CollisionFree() {
      forall a, b {:trigger digest(a), digest(b)} :: |a| == |b| && digest(a) == digest(b) ==> a == b
    }
  }

  /** There are such digests, and under them texts of one length that differ are told apart. */
  lemma CollisionFreeExactly(os: Platform, a: string, b: string)
    requires forall s :: os.digest(s) == s
    ensures os.CollisionFree()
    ensures |a| == |b| && a != b ==> os.digest(a) != os.digest(b)
  {
  }

  predicate PyEq(a: Value, b: Value) {
    match (a, b)
    case (Num(x, _), Num(y, _)) => x == y
    case (Obj(x, _), Obj(y, _)) => x == y
    case _ => a == b
  }

  function ToCached(v: Value, os: Platform): Value {
    if v.Str? then
      if |v.text| <= MAX_CACHED_VALUE_CHARS then v else Triple(STR_DIGEST, |v.text|, os.digest(v.text))
    else if |os.repr(v)| > MAX_CACHED_VALUE_CHARS then Triple(REPR_DIGEST, |os.repr(v)|, os.digest(os.repr(v)))
    else v
  }

  predicate CachedEquals(current: Value, cached: Value, os: Platform) {
    if cached.Triple? && cached.tag == STR_DIGEST then
      current.Str? && |current.text| == cached.size && os.digest(current.text) == cached.hash
    else if cached.Triple? && cached.tag == REPR_DIGEST then
      |os.repr(current)| == cached.size && os.digest(os.repr(current)) == cached.hash
    else PyEq(current, cached)
  }

  /** A tuple that reads like one of the cache's own fingerprints. */
  predicate Mimics(v: Value) {
    v.Triple? && v.tag in {STR_DIGEST, REPR_DIGEST}
  }

  predicate Long(v: Value, os: Platform) {
    !v.Str? && |os.repr(v)| > MAX_CACHED_VALUE_CHARS
  }

  /** Comparing with the compacted value is equality, except that long non-strings are compared by their rendering. */
  lemma CachedEqualsExactly(current: Value, v: Value, os: Platform)
    requires os.CollisionFree() && (Long(v, os) || !Mimics(v))
    ensures CachedEquals(current, ToCached(v, os), os)
            <==> if Long(v, os) then os.repr(current) == os.repr(v) else PyEq(current, v)
  {
  }

  /** Short values are kept whole; a long one by its kind, its length and its digest, so what is kept stays short. */
  lemma CompactedExactly(v: Value, os: Platform)
    ensures var kept := ToCached(v, os);
            && (v.Str? ==> kept == if |v.text| <= 8192 then v
                  else Triple("__str_digest__", |v.text|, os.digest(v.text)))
            && (!v.Str? ==> kept == if |os.repr(v)| <= 8192 then v
                  else Triple("__repr_digest__", |os.repr(v)|, os.digest(os.repr(v))))
  {
  }

  /** Whether a tuple that mimics a fingerprint describes a value: its text, or its rendering. */
  predicate Describes(v: Value, current: Value, os: Platform)
    requires Mimics(v)
  {
    if v.tag == STR_DIGEST then current.Str? && |current.text| == v.size && os.digest(current.text) == v.hash
    else |os.repr(current)| == v.size && os.digest(os.repr(current)) == v.hash
  }

  /**
    A long cached value is compared by its rendering, a short one that mimics a fingerprint
    by what it describes, any other by equality.
   */
  predicate ComparesFaithfully(current: Value, v: Value, os: Platform) {
    if Long(v, os) then os.repr(current) == os.repr(v) <==> PyEq(current, v)
    else Mimics(v) ==> (Describes(v, current, os) <==> current == v)
  }

  /** So that is exactly when comparing with the compacted value is equality. */
  lemma CompactionIsFaithful(current: Value, v: Value, os: Platform)
    requires os.CollisionFree()
    ensures ComparesFaithfully(current, v, os) <==>
            (CachedEquals(current, ToCached(v, os), os) <==> PyEq(current, v))
  {
    if Long(v, os) || !Mimics(v) { CachedEqualsExactly(current, v, os); }
  }

  /** A value equals its own cached form unless it is short, mimics a fingerprint, and not its own. */
  lemma EqualToItselfExactly(v: Value, os: Platform)
    requires os.CollisionFree()
    ensures CachedEquals(v, ToCached(v, os), os) <==>
            Long(v, os) || !Mimics(v)
            || (v.tag == REPR_DIGEST && |os.repr(v)| == v.size && os.digest(os.repr(v)) == v.hash)
  {
    CompactionIsFaithful(v, v, os);
  }

  /** In particular a short tuple that mimics the fingerprint of a text is not equal to itself. */
  lemma MimicIsNotEqualToItself(os: Platform)
    requires |os.repr(Triple(STR_DIGEST, 0, ""))| <= MAX_CACHED_VALUE_CHARS
    ensures var v := Triple(STR_DIGEST, 0, ""); PyEq(v, v) && !CachedEquals(v, ToCached(v, os), os)
  {
  }

  // ---- one binding --------------------------------------------------------------------------

  type Id = string

  datatype Binding = Binding(
    id: Id, throttleMs: Option<int>, onChange: bool, minDelta: Option<real>, minDeltaPct: Option<real>,
        transform: Value -> Value)

  /** What the router remembers of a binding: when it last sent, and what (compacted). */
  datatype Cell = Cell(sentAt: Option<real>, cached: Option<Value>)

  /** One attempt: the clock when the throttle looks, the clock after the write, and whether the write succeeded. */
  datatype Attempt = Attempt(checkedAt: real, sentAt: real, delivered: bool)

  /** Escapes: the conversion for the delta filter raises an overflow, which nothing in the loop catches. */
  datatype Verdict = Throttled | Unchanged | BelowDelta | BelowPercent | Send | Escapes

  /** What float() does: a number, a type or value error, or an overflow. */
  datatype Conversion = Converted(x: real) | Refused | Overflows

  function ToFloat(v: Value, os: Platform): Conversion {
    match v
    case Num(x, _) => if os.tooLarge(v) then Overflows else Converted(x)
    case Str(t) => if os.parse(t).Some? then Converted(os.parse(t).value) else Refused
    case _ => Refused
  }

  function Abs(x: real): real {
    if x < 0.0 then -x else x
  }

  function Interval(b: Binding): Option<real> {
    if b.throttleMs.Some? && b.throttleMs.value != 0 then Some(b.throttleMs.value as real / 1000.0) else None
  }

  function Percent(last: real, next: real): real {
    var base := if last != 0.0 then Abs(last) else Abs(next);
    if base != 0.0 then Abs(next - last) / base * 100.0 else 0.0
  }

  /** The throttle holds the binding back. */
  predicate Waits(b: Binding, cell: Cell, now: real) {
    Interval(b).Some? && cell.sentAt.Some? && now - cell.sentAt.value < Interval(b).value
  }

  predicate HasDelta(b: Binding) {
    b.minDelta.Some? || b.minDeltaPct.Some?
  }

  function Decide(b: Binding, cell: Cell, v: Value, now: real, os: Platform): Verdict {
    if Waits(b, cell, now) then Throttled
    else if cell.cached.None? || cell.cached.value == Null then Send
    else if b.onChange && CachedEquals(v, cell.cached.value, os) then Unchanged
    else DecideByDelta(b, v, cell.cached.value, os)
  }

  function DecideByDelta(b: Binding, v: Value, last: Value, os: Platform): Verdict {
    if !HasDelta(b) then Send
    else match ToFloat(v, os)
      case Refused => Send
      case Overflows => Escapes
      case Converted(next) =>
        match ToFloat(last, os)
        case Refused => Send
        case Overflows => Escapes
        case Converted(prior) =>
          if b.minDelta.Some? && Abs(next - prior) < b.minDelta.value then BelowDelta
          else if b.minDeltaPct.Some? && Percent(prior, next) < b.minDeltaPct.value then BelowPercent
          else Send
  }

  function Distance(x: real, y: real): real {
    if x >= y then x - y else y - x
  }

  /** A change is measured in percent of the last number, or, from zero on, counts as all of it. */
  predicate UnderPercent(x: real, y: real, pct: real) {
    if y != 0.0 then Distance(x, y) * 100.0 < pct * Distance(y, 0.0)
    else if x != 0.0 then 100.0 < pct
    else 0.0 < pct
  }

  /** What the delta filters make of two numbers, y being the last one sent: the absolute one first. */
  lemma DeltaExactly(b: Binding, v: Value, last: Value, x: real, y: real, os: Platform)
    requires ToFloat(v, os) == Converted(x) && ToFloat(last, os) == Converted(y)
    ensures DecideByDelta(b, v, last, os)
            == if b.minDelta.Some? && Distance(x, y) < b.minDelta.value then BelowDelta
               else if b.minDeltaPct.Some? && UnderPercent(x, y, b.minDeltaPct.value) then BelowPercent
               else Send
  {
    assert Abs(x - y) == Distance(x, y);
    if b.minDeltaPct.Some? {
      PercentExactly(x, y, b.minDeltaPct.value);
    }
  }

  lemma PercentExactly(x: real, y: real, pct: real)
    ensures Percent(y, x) < pct <==> UnderPercent(x, y, pct)
  {
    if y != 0.0 {
      QuotientBelow(Distance(x, y), Distance(y, 0.0), pct);
    } else if x != 0.0 {
      var d := Abs(x);
      assert d > 0.0 && Abs(x - y) == d && d / d == 1.0;
    }
  }

  lemma QuotientBelow(d: real, base: real, pct: real)
    requires base > 0.0
    ensures d / base * 100.0 < pct <==> d * 100.0 < pct * base
  {
    var q := d / base;
    assert q * base == d;
    Scale(q * 100.0, pct, base);
    assert q * 100.0 * base == d * 100.0;
  }

  lemma Scale(p: real, q: real, base: real)
    requires base > 0.0
    ensures p < q <==> p * base < q * base
  {
  }

  /** A throttle of some milliseconds holds back what comes sooner after the last send; none, or zero, nothing. */
  lemma ThrottleExactly(b: Binding, cell: Cell, v: Value, now: real, os: Platform)
    ensures Decide(b, cell, v, now, os) == Throttled
            <==> && b.throttleMs.Some? && b.throttleMs.value != 0 && cell.sentAt.Some?
                 && (now - cell.sentAt.value) * 1000.0 < b.throttleMs.value as real
  {
    if b.throttleMs.Some? && cell.sentAt.Some? {
      InMilliseconds(now - cell.sentAt.value, b.throttleMs.value as real);
    }
  }

  lemma InMilliseconds(elapsed: real, ms: real)
    ensures elapsed < ms / 1000.0 <==> elapsed * 1000.0 < ms
  {
  }

  predicate NeedsValueCache(b: Binding) {
    b.onChange || HasDelta(b)
  }

  predicate Sends(b: Binding, cell: Cell, v: Value, a: Attempt, os: Platform) {
    Decide(b, cell, v, a.checkedAt, os) == Send && a.delivered
  }

  function Step(b: Binding, cell: Cell, v: Value, a: Attempt, os: Platform): Cell {
    if !Sends(b, cell, v, a, os) then cell
    else Cell(Some(a.sentAt), if NeedsValueCache(b) then Some(ToCached(v, os)) else None)
  }

  // ---- the loop over the bindings of a datapoint --------------------------------------------

  /** A row of the bindings table: one that cannot be read, or a binding and which adapter instances exist for it. */
  datatype Row =
    | Malformed
    | Row(binding: Binding, observer: bool, hasInstanceId: bool, foundById: bool, foundByType: bool)

  datatype Caches = Caches(sentAt: map<Id, real>, cached: map<Id, Value>)

  function CellOf(c: Caches, id: Id): Cell {
    Cell(if id in c.sentAt then Some(c.sentAt[id]) else None, if id in c.cached then Some(c.cached[id]) else None)
  }

  /**
    Whether the row is written at all: readable, not the originating binding, no observer,
    and an instance to write through.
   */
  predicate Eligible(row: Row, skip: Option<Id>, only: Option<Id>) {
    && row.Row?
    && (skip.Some? ==> row.binding.id != skip.value)
    && !row.observer
    && ((row.hasInstanceId && row.foundById) || (!(only.Some? && row.hasInstanceId) && row.foundByType))
  }

  ghost predicate DistinctBindings(rows: seq<Row>) {
    forall i, j :: 0 <= i < j < |rows| && rows[i].Row? && rows[j].Row? ==> rows[i].binding.id != rows[j].binding.id
  }

  function Put(c: Caches, id: Id, cell: Cell): Caches {
    Caches(if cell.sentAt.Some? then c.sentAt[id := cell.sentAt.value] else c.sentAt - {id},
           if cell.cached.Some? then c.cached[id := cell.cached.value] else c.cached - {id})
  }

  function RowStep(
    c: Caches, row: Row, a: Attempt, v: Value, skip: Option<Id>, only: Option<Id>, os: Platform): Caches
  {
    if Eligible(row, skip, only) then Put(c, row.binding.id, Step(row.binding, CellOf(c, row.binding.id), v, a, os))
        else c
  }

  function RowsStep(
    c: Caches, rows: seq<Row>, attempts: seq<Attempt>, v: Value, skip: Option<Id>, only: Option<Id>, os: Platform)
    : Caches
    requires |attempts| == |rows|
  {
    if rows == [] then c
    else
      var n := |rows| - 1;
      RowStep(RowsStep(c, rows[..n], attempts[..n], v, skip, only, os), rows[n], attempts[n], v, skip, only, os)
  }

  function WritesOfRow(
    c: Caches, row: Row, a: Attempt, v: Value, skip: Option<Id>, only: Option<Id>, os: Platform): seq<(Id, Value)>
  {
    if Eligible(row, skip, only) && Sends(row.binding, CellOf(c, row.binding.id), v, a, os)
    then [(row.binding.id, row.binding.transform(v))] else []
  }

  /** The values handed to adapters, each with its binding, in order. */
  function Writes(
    c: Caches, rows: seq<Row>, attempts: seq<Attempt>, v: Value, skip: Option<Id>, only: Option<Id>, os: Platform)
    : seq<(Id, Value)>
    requires |attempts| == |rows|
  {
    if rows == [] then []
    else
      var n := |rows| - 1;
      var before := RowsStep(c, rows[..n], attempts[..n], v, skip, only, os);
      var row := rows[n];
      Writes(c, rows[..n], attempts[..n], v, skip, only, os)
      + WritesOfRow(before, row, attempts[n], v, skip, only, os)
  }

  /** How many rows the loop completes: all of them, or those before the first whose conversion escapes. */
  function Reached(
    c: Caches, rows: seq<Row>, attempts: seq<Attempt>, v: Value, skip: Option<Id>, only: Option<Id>, os: Platform)
    : (k: nat)
    requires |attempts| == |rows|
    ensures k <= |rows|
  {
    if rows == [] then 0
    else
      var n := |rows| - 1;
      var k := Reached(c, rows[..n], attempts[..n], v, skip, only, os);
      var before := RowsStep(c, rows[..n], attempts[..n], v, skip, only, os);
      if k < n then k else if RowEscapes(before, rows[n], attempts[n], v, skip, only, os) then n else n + 1
  }

  predicate RowEscapes(c: Caches, row: Row, a: Attempt, v: Value, skip: Option<Id>, only: Option<Id>, os: Platform) {
    Eligible(row, skip, only) && Decide(row.binding, CellOf(c, row.binding.id), v, a.checkedAt, os) == Escapes
  }

  lemma OneMoreRow(
    c: Caches, rows: seq<Row>, attempts: seq<Attempt>, v: Value, skip: Option<Id>, only: Option<Id>, os: Platform,
        i: nat)
    requires |attempts| == |rows| && i < |rows|
    ensures var before := RowsStep(c, rows[..i], attempts[..i], v, skip, only, os);
            && RowsStep(c, rows[..i + 1], attempts[..i + 1], v, skip, only, os)
               == RowStep(before, rows[i], attempts[i], v, skip, only, os)
            && Writes(c, rows[..i + 1], attempts[..i + 1], v, skip, only, os)
               == Writes(c, rows[..i], attempts[..i], v, skip, only, os)
                  + WritesOfRow(before, rows[i], attempts[i], v, skip, only, os)
            && (Reached(c, rows[..i], attempts[..i], v, skip, only, os) == i
                && !RowEscapes(before, rows[i], attempts[i], v, skip, only, os) ==>
                  Reached(c, rows[..i + 1], attempts[..i + 1], v, skip, only, os) == i + 1)
  {
    assert rows[..i + 1][..i] == rows[..i] && attempts[..i + 1][..i] == attempts[..i];
  }

  /** An escape at row i, after i rows without one, is where the loop ends, however many rows follow. */
  lemma {:induction false} ReachedStops(
    c: Caches, rows: seq<Row>, attempts: seq<Attempt>, v: Value, skip: Option<Id>, only: Option<Id>, os: Platform,
    i: nat)
    requires |attempts| == |rows| && i < |rows|
    requires Reached(c, rows[..i], attempts[..i], v, skip, only, os) == i
    requires RowEscapes(RowsStep(c, rows[..i], attempts[..i], v, skip, only, os),
        rows[i], attempts[i], v, skip, only, os)
    ensures Reached(c, rows, attempts, v, skip, only, os) == i
  {
    var n := |rows| - 1;
    if i < n {
      assert rows[..n][..i] == rows[..i] && attempts[..n][..i] == attempts[..i];
      ReachedStops(c, rows[..n], attempts[..n], v, skip, only, os, i);
    }
  }

  // ---- numbers too large for a float ----------------------------------------------------------

  predicate TooLarge(v: Value, os: Platform) {
    v.Num? && os.tooLarge(v)
  }

  /**
    When the conversion for a delta filter overflows: the filter is reached, and the new
    number is too large, or it is not and the one remembered is.
   */
  predicate Overflowing(b: Binding, cell: Cell, v: Value, now: real, os: Platform) {
    && HasDelta(b) && !Waits(b, cell, now)
    && cell.cached.Some? && cell.cached.value != Null && !(b.onChange && CachedEquals(v, cell.cached.value, os))
    && (TooLarge(v, os) || (ToFloat(v, os).Converted? && TooLarge(cell.cached.value, os)))
  }

  lemma EscapesExactly(b: Binding, cell: Cell, v: Value, now: real, os: Platform)
    ensures Decide(b, cell, v, now, os) == Escapes <==> Overflowing(b, cell, v, now, os)
  {
  }

  predicate RowOverflows(
    c: Caches, row: Row, a: Attempt, v: Value, skip: Option<Id>, only: Option<Id>, os: Platform)
  {
    Eligible(row, skip, only) && Overflowing(row.binding, CellOf(c, row.binding.id), v, a.checkedAt, os)
  }

  /** Rows of other bindings leave a binding's entries alone. */
  lemma {:induction false} OtherRowsElsewhere(
    c: Caches, rows: seq<Row>, attempts: seq<Attempt>, v: Value, skip: Option<Id>, only: Option<Id>, os: Platform,
    id: Id)
    requires |attempts| == |rows| && forall i :: 0 <= i < |rows| && rows[i].Row? ==> rows[i].binding.id != id
    ensures CellOf(RowsStep(c, rows, attempts, v, skip, only, os), id) == CellOf(c, id)
  {
    if rows != [] {
      var n := |rows| - 1;
      var (row, before) := (rows[n], RowsStep(c, rows[..n], attempts[..n], v, skip, only, os));
      OtherRowsElsewhere(c, rows[..n], attempts[..n], v, skip, only, os, id);
      if Eligible(row, skip, only) {
        PutElsewhere(before, row.binding.id,
            Step(row.binding, CellOf(before, row.binding.id), v, attempts[n], os), id);
      }
    }
  }

  /** Whether the last row escapes is decided by the caches as they are before the call. */
  lemma LastRowAlone(
    c: Caches, rows: seq<Row>, attempts: seq<Attempt>, v: Value, skip: Option<Id>, only: Option<Id>, os: Platform)
    requires |attempts| == |rows| > 0 && DistinctBindings(rows)
    ensures var n := |rows| - 1;
            RowEscapes(RowsStep(c, rows[..n], attempts[..n], v, skip, only, os),
                rows[n], attempts[n], v, skip, only, os)
            <==> RowOverflows(c, rows[n], attempts[n], v, skip, only, os)
  {
    var n := |rows| - 1;
    if Eligible(rows[n], skip, only) {
      var b := rows[n].binding;
      OtherRowsElsewhere(c, rows[..n], attempts[..n], v, skip, only, os, b.id);
      EscapesExactly(b, CellOf(c, b.id), v, attempts[n].checkedAt, os);
    }
  }

  /**
    The loop ends before the first row whose conversion overflows, as the caches are before
    the call; if there is none it completes.
   */
  lemma {:induction false} OverflowEndsTheLoop(
    c: Caches, rows: seq<Row>, attempts: seq<Attempt>, v: Value, skip: Option<Id>, only: Option<Id>, os: Platform)
    requires |attempts| == |rows| && DistinctBindings(rows)
    ensures var k := Reached(c, rows, attempts, v, skip, only, os);
            && (forall i :: 0 <= i < k ==> !RowOverflows(c, rows[i], attempts[i], v, skip, only, os))
            && (k < |rows| ==> RowOverflows(c, rows[k], attempts[k], v, skip, only, os))
  {
    if rows != [] {
      var n := |rows| - 1;
      OverflowEndsTheLoop(c, rows[..n], attempts[..n], v, skip, only, os);
      LastRowAlone(c, rows, attempts, v, skip, only, os);
    }
  }

  /** So the call raises exactly if some row overflows on the caches as they are before it. */
  lemma RaisesExactly(
    c: Caches, rows: seq<Row>, attempts: seq<Attempt>, v: Value, skip: Option<Id>, only: Option<Id>, os: Platform)
    requires |attempts| == |rows| && DistinctBindings(rows)
    ensures Reached(c, rows, attempts, v, skip, only, os) < |rows|
            <==> exists i :: 0 <= i < |rows| && RowOverflows(c, rows[i], attempts[i], v, skip, only, os)
  {
    OverflowEndsTheLoop(c, rows, attempts, v, skip, only, os);
  }

  /** Each row the loop reaches acts on its own binding as if it were alone; the others get nothing. */
  lemma {:induction false} RowsActAlone(
    c: Caches, rows: seq<Row>, attempts: seq<Attempt>, v: Value, skip: Option<Id>, only: Option<Id>, os: Platform,
    k: nat, i: nat)
    requires |attempts| == |rows| && DistinctBindings(rows) && k <= |rows| && i < |rows| && rows[i].Row?
    ensures var (b, cell) := (rows[i].binding, CellOf(c, rows[i].binding.id));
            CellOf(RowsStep(c, rows[..k], attempts[..k], v, skip, only, os), b.id)
            == if i < k && Eligible(rows[i], skip, only) then Step(b, cell, v, attempts[i], os) else cell
    decreases k
  {
    if i >= k {
      OtherRowsElsewhere(c, rows[..k], attempts[..k], v, skip, only, os, rows[i].binding.id);
    } else {
      var n := k - 1;
      OneMoreRow(c, rows, attempts, v, skip, only, os, n);
      RowsActAlone(c, rows, attempts, v, skip, only, os, n, i);
      var (row, before) := (rows[n], RowsStep(c, rows[..n], attempts[..n], v, skip, only, os));
      if Eligible(row, skip, only) {
        PutElsewhere(before, row.binding.id, Step(row.binding, CellOf(before, row.binding.id), v, attempts[n], os),
            rows[i].binding.id);
      }
    }
  }

  lemma PutSame(c: Caches, id: Id)
    ensures Put(c, id, CellOf(c, id)) == c
  {
  }

  lemma PutElsewhere(c: Caches, id: Id, cell: Cell, other: Id)
    ensures CellOf(Put(c, id, cell), id) == cell
    ensures other != id ==> CellOf(Put(c, id, cell), other) == CellOf(c, other)
  {
  }

  class Router {
    var lastSent: map<Id, real>
    var lastValue: map<Id, Value>

    constructor ()
      ensures lastSent == map[] && lastValue == map[]
    {
      lastSent, lastValue := map[], map[];
    }

    function State(): Caches
      reads this
    {
      Caches(lastSent, lastValue)
    }

    method Remember(b: Binding, at: real, v: Value, os: Platform)
      modifies this
      ensures State() == Put(old(State()), b.id,
          Cell(Some(at), if NeedsValueCache(b) then Some(ToCached(v, os)) else None))
    {
      lastSent := lastSent[b.id := at];
      if NeedsValueCache(b) {
        lastValue := lastValue[b.id := ToCached(v, os)];
      } else {
        lastValue := lastValue - {b.id};
      }
    }

    /** One binding: the throttle, the value filters, the write, and what is remembered of it. */
    method WriteOne(b: Binding, a: Attempt, v: Value, os: Platform) returns (verdict: Verdict)
      modifies this
      ensures verdict == Decide(b, CellOf(old(State()), b.id), v, a.checkedAt, os)
      ensures State() == Put(old(State()), b.id, Step(b, CellOf(old(State()), b.id), v, a, os))
    {
      PutSame(State(), b.id);
      ghost var cell := CellOf(State(), b.id);
      assert Waits(b, cell, a.checkedAt) <==>
             Interval(b).Some? && b.id in lastSent && a.checkedAt - lastSent[b.id] < Interval(b).value;
      if Interval(b).Some? && b.id in lastSent && a.checkedAt - lastSent[b.id] < Interval(b).value {
        return Throttled;
      }
      if b.id in lastValue && lastValue[b.id] != Null {
        var last := lastValue[b.id];
        if b.onChange && CachedEquals(v, last, os) {
          return Unchanged;
        }
        var byDelta := CheckDelta(b, v, last, os);
        if byDelta != Send {
          return byDelta;
        }
      }
      verdict := Send;
      if a.delivered {
        Remember(b, a.sentAt, v, os);
      }
    }

    /** The delta filters, for a binding that has them. */
    method CheckDelta(b: Binding, v: Value, last: Value, os: Platform) returns (verdict: Verdict)
      ensures verdict == DecideByDelta(b, v, last, os)
    {
      if b.minDelta.None? && b.minDeltaPct.None? {
        return Send;
      }
      var next := ToFloat(v, os);
      if !next.Converted? {
        return if next.Overflows? then Escapes else Send;
      }
      var prior := ToFloat(last, os);
      if !prior.Converted? {
        return if prior.Overflows? then Escapes else Send;
      }
      if b.minDelta.Some? && Abs(next.x - prior.x) < b.minDelta.value {
        return BelowDelta;
      }
      if b.minDeltaPct.Some? && Percent(prior.x, next.x) < b.minDeltaPct.value {
        return BelowPercent;
      }
      return Send;
    }

    /** The shared helper: one eligible binding after the other, up to a conversion that escapes. */
    method WriteToDestBindings(
      rows: seq<Row>, attempts: seq<Attempt>, v: Value, skip: Option<Id>, only: Option<Id>, os: Platform)
      returns (written: seq<(Id, Value)>, raised: bool)
      requires |attempts| == |rows|
      modifies this
      ensures var k := Reached(old(State()), rows, attempts, v, skip, only, os);
              && raised == (k < |rows|)
              && State() == RowsStep(old(State()), rows[..k], attempts[..k], v, skip, only, os)
              && written == Writes(old(State()), rows[..k], attempts[..k], v, skip, only, os)
    {
      written := [];
      ghost var start := State();
      for i := 0 to |rows|
        invariant Reached(start, rows[..i], attempts[..i], v, skip, only, os) == i
        invariant State() == RowsStep(start, rows[..i], attempts[..i], v, skip, only, os)
        invariant written == Writes(start, rows[..i], attempts[..i], v, skip, only, os)
      {
        OneMoreRow(start, rows, attempts, v, skip, only, os, i);
        var row := rows[i];
        if !Eligible(row, skip, only) {
          continue;
        }
        ghost var before := State();
        var verdict := WriteOne(row.binding, attempts[i], v, os);
        if verdict == Escapes {
          ReachedStops(start, rows, attempts, v, skip, only, os, i);
          PutSame(before, row.binding.id);
          return written, true;
        }
        if verdict == Send && attempts[i].delivered {
          written := written + [(row.binding.id, row.binding.transform(v))];
        }
      }
      assert rows[..|rows|] == rows && attempts[..|attempts|] == attempts;
      raised := false;
    }

    /** A targeted write treats the binding as new: both of its entries are dropped first. */
    method WriteBinding(id: Id, rows: seq<Row>, attempts: seq<Attempt>, v: Value, os: Platform)
      returns (written: seq<(Id, Value)>, raised: bool)
      requires |attempts| == |rows|
      modifies this
      ensures var cleared := Put(old(State()), id, Cell(None, None));
              var k := Reached(cleared, rows, attempts, v, None, Some(id), os);
              && raised == (k < |rows|)
              && State() == RowsStep(cleared, rows[..k], attempts[..k], v, None, Some(id), os)
              && written == Writes(cleared, rows[..k], attempts[..k], v, None, Some(id), os)
      ensures DistinctBindings(rows) && (forall row :: row in rows && row.Row? ==> row.binding.id == id) ==> !raised
    {
      lastValue := lastValue - {id};
      lastSent := lastSent - {id};
      assert State() == Put(old(State()), id, Cell(None, None));
      if DistinctBindings(rows) {
        OverflowEndsTheLoop(State(), rows, attempts, v, None, Some(id), os);
      }
      written, raised := WriteToDestBindings(rows, attempts, v, None, Some(id), os);
    }
  }
}
