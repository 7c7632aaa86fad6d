/**
  MessageArchiveStore.query_entries: compiling a structured query into SQL text with
  positional parameters. BuildQuery does it as the source does, appending to two
  lists; Compile is what it computes; QueryMeansPredicate says that the database,
  reading that text with those parameters, selects exactly the rows that the query
  describes (Selects), and that it accepts the statement exactly when a read-state
  filter comes with a user.
 */
module MessageQuery {
  import opened Wrappers
  import opened TextOrder
  import opened Timestamps
  import opened ArchiveModel
  import opened SqlText

  datatype EntryPredicate = EntryPredicate(
    archiveIds: Option<seq<string>>, kinds: Option<seq<string>>, severities: Option<seq<string>>,
    statuses: Option<seq<string>>, sources: Option<seq<string>>)

  datatype ReadState = Read | Unread

  datatype EntryQuery = EntryQuery(
    archiveIds: Option<seq<string>>, fromTs: Option<string>, toTs: Option<string>,
    status: Option<string>, statuses: Option<seq<string>>, readState: Option<ReadState>,
    kind: Option<string>, kinds: Option<seq<string>>, severity: Option<string>, severities: Option<seq<string>>,
    source: Option<string>, sources: Option<seq<string>>, text: Option<string>,
    limit: int, offset: int, ascending: bool, username: Option<string>, predicates: Option<seq<EntryPredicate>>)

  datatype QueryError = BadArchive(archive: ArchiveError) | BadTime(time: TimestampError)

  datatype Compiled = Compiled(join: bool, where: seq<seq<Token>>, params: seq<Param>)

  predicate Truthy(value: Option<string>) {
    value.Some? && value.value != ""
  }

  predicate TruthyList(values: Option<seq<string>>) {
    values.Some? && values.value != []
  }

  const PREDICATE_COLUMNS: seq<Column> := [ArchiveId, Kind, Severity, Status, Source]

  function FieldValues(p: EntryPredicate, k: nat): Option<seq<string>>
    requires k < 5
  {
    match k
    case 0 => p.archiveIds
    case 1 => p.kinds
    case 2 => p.severities
    case 3 => p.statuses
    case _ => p.sources
  }

  // ---- what the query describes ----------------------------------------------------

  /** A non-empty listed value denotes the column's value; archive ids in their normal form. */
  predicate Denotes(v: string, c: Column, e: Entry, os: Platform) {
    v != "" && if c == ArchiveId then NormalizeArchiveId(v, os) == Ok(e.archiveId) else v == Get(e, c)
  }

  predicate Listed(values: seq<string>, c: Column, e: Entry, os: Platform) {
    exists v :: v in values && Denotes(v, c, e, os)
  }

  predicate Matches(p: EntryPredicate, e: Entry, os: Platform) {
    forall k :: 0 <= k < 5 ==> FieldValues(p, k).Some? ==> Listed(FieldValues(p, k).value, PREDICATE_COLUMNS[k], e, os)
  }

  /** A plural filter wins over its singular form; neither means no constraint. */
  predicate Chosen(many: Option<seq<string>>, one: Option<string>, actual: string) {
    if TruthyList(many) then actual in many.value
    else Truthy(one) ==> actual == one.value
  }

  ghost predicate Selects(q: EntryQuery, row: Row, os: Platform, like: Like)
    requires os.Valid()
  {
    var e := row.entry;
    && (q.predicates.Some? ==> exists p :: p in q.predicates.value && Matches(p, e, os))
    && (TruthyList(q.archiveIds) ==>
        exists v :: v in q.archiveIds.value && NormalizeArchiveId(v, os) == Ok(e.archiveId))
    && (Truthy(q.fromTs) ==>
        NormalizeTimestamp(q.fromTs, os).Ok?
        && !Less(e.createdAt, NormalizeTimestamp(q.fromTs, os).value))
    && (Truthy(q.toTs) ==>
        NormalizeTimestamp(q.toTs, os).Ok?
        && !Less(NormalizeTimestamp(q.toTs, os).value, e.createdAt))
    && Chosen(q.statuses, q.status, e.status)
    && Chosen(q.kinds, q.kind, e.kind)
    && Chosen(q.severities, q.severity, e.severity)
    && Chosen(q.sources, q.source, e.source)
    && (Truthy(q.text) ==> like("%" + q.text.value + "%", e.title) || like("%" + q.text.value + "%", e.message))
    && (q.readState == Some(Read) ==> row.readAt.Some?)
    && (q.readState == Some(Unread) ==> row.readAt.None?)
  }

  /** A predicate, field by field: each list given must name the column's value, which is never empty. */
  lemma PredicateExactly(p: EntryPredicate, e: Entry, os: Platform)
    ensures Matches(p, e, os)
            <==> && (p.archiveIds.Some? ==>
                       exists v :: v in p.archiveIds.value && v != "" && NormalizeArchiveId(v, os) == Ok(e.archiveId))
                 && (p.kinds.Some? ==> e.kind != "" && e.kind in p.kinds.value)
                 && (p.severities.Some? ==> e.severity != "" && e.severity in p.severities.value)
                 && (p.statuses.Some? ==> e.status != "" && e.status in p.statuses.value)
                 && (p.sources.Some? ==> e.source != "" && e.source in p.sources.value)
  {
    assert Matches(p, e, os) <==>
        && (FieldValues(p, 0).Some? ==> Listed(FieldValues(p, 0).value, PREDICATE_COLUMNS[0], e, os))
        && (FieldValues(p, 1).Some? ==> Listed(FieldValues(p, 1).value, PREDICATE_COLUMNS[1], e, os))
        && (FieldValues(p, 2).Some? ==> Listed(FieldValues(p, 2).value, PREDICATE_COLUMNS[2], e, os))
        && (FieldValues(p, 3).Some? ==> Listed(FieldValues(p, 3).value, PREDICATE_COLUMNS[3], e, os))
        && (FieldValues(p, 4).Some? ==> Listed(FieldValues(p, 4).value, PREDICATE_COLUMNS[4], e, os));
  }

  /** One of a pair of filters: a list with something in it decides alone, else a text that is not empty. */
  lemma ChosenExactly(many: Option<seq<string>>, one: Option<string>, actual: string)
    ensures Chosen(many, one, actual)
            <==> if many.Some? && |many.value| >= 1 then actual in many.value
                 else one.None? || |one.value| == 0 || actual == one.value
  {
  }

  /** The other filters, an empty text or list being none: archives, both bounds included, texts, read state. */
  lemma FiltersExactly(q: EntryQuery, row: Row, os: Platform, like: Like)
    requires os.Valid()
    ensures Selects(q, row, os, like)
            <==> var e := row.entry;
                 && (q.predicates.Some? ==> exists p :: p in q.predicates.value && Matches(p, e, os))
                 && (q.archiveIds.Some? && |q.archiveIds.value| >= 1 ==>
                     exists v :: v in q.archiveIds.value && NormalizeArchiveId(v, os) == Ok(e.archiveId))
                 && (q.fromTs.Some? && |q.fromTs.value| >= 1 ==>
                     var from := NormalizeTimestamp(q.fromTs, os); from.Ok? && !Less(e.createdAt, from.value))
                 && (q.toTs.Some? && |q.toTs.value| >= 1 ==>
                     var to := NormalizeTimestamp(q.toTs, os); to.Ok? && !Less(to.value, e.createdAt))
                 && Chosen(q.statuses, q.status, e.status) && Chosen(q.kinds, q.kind, e.kind)
                 && Chosen(q.severities, q.severity, e.severity) && Chosen(q.sources, q.source, e.source)
                 && (q.text.Some? && |q.text.value| >= 1 ==>
                     like("%" + q.text.value + "%", e.title) || like("%" + q.text.value + "%", e.message))
                 && (q.readState == Some(Read) ==> row.readAt.Some?)
                 && (q.readState == Some(Unread) ==> row.readAt.None?)
  {
  }

  /** On an entry that carries the text of an instant the bounds are bounds on that instant, themselves included. */
  lemma BoundsFollowTime(bound: Option<string>, t: int, dt: DateTime, os: Platform)
    requires os.Valid() && dt.Valid() && MeansInstant(bound, t, os) && NormalizeTimestamp(bound, os).Ok?
    ensures !Less(Iso(dt), NormalizeTimestamp(bound, os).value) <==> t <= Instant(dt)
    ensures !Less(NormalizeTimestamp(bound, os).value, Iso(dt)) <==> Instant(dt) <= t
  {
    var b := NormalizedMeansInstant(bound, os);
    TextOrderIsTimeOrder(dt, b);
    TextOrderIsTimeOrder(b, dt);
  }

  // ---- the compiled form ------------------------------------------------------------

  function LiftArchive<T>(r: Result<T, ArchiveError>): Result<T, QueryError> {
    if r.Ok? then Ok(r.value) else Err(BadArchive(r.error))
  }

  function LiftTime<T>(r: Result<T, TimestampError>): Result<T, QueryError> {
    if r.Ok? then Ok(r.value) else Err(BadTime(r.error))
  }

  /** The non-empty values, normalized where the column holds archive ids. */
  function Clean(values: seq<string>, c: Column, os: Platform): Result<seq<string>, QueryError> {
    if values == [] then Ok([])
    else if values[0] == "" then Clean(values[1..], c, os)
    else
      var v :- if c == ArchiveId then LiftArchive(NormalizeArchiveId(values[0], os)) else Ok(values[0]);
      var rest :- Clean(values[1..], c, os);
      Ok([v] + rest)
  }

  function NormalizeAll(values: seq<string>, os: Platform): (r: Result<seq<string>, QueryError>)
    ensures r.Ok? ==> |r.value| == |values|
  {
    if values == [] then Ok([])
    else
      var v :- LiftArchive(NormalizeArchiveId(values[0], os));
      var rest :- NormalizeAll(values[1..], os);
      Ok([v] + rest)
  }

  function ListPiece(c: Column, values: seq<string>): Piece {
    if values == [] then Piece([Zero], []) else Piece(InText(c, |values|), AsParams(values))
  }

  /** The pieces of one predicate from its k-th field on. */
  function GroupPieces(p: EntryPredicate, k: nat, os: Platform): Result<seq<Piece>, QueryError>
    requires k <= 5
    decreases 5 - k
  {
    if k == 5 then Ok([])
    else if FieldValues(p, k).None? then GroupPieces(p, k + 1, os)
    else
      var cleaned :- Clean(FieldValues(p, k).value, PREDICATE_COLUMNS[k], os);
      var rest :- GroupPieces(p, k + 1, os);
      Ok([ListPiece(PREDICATE_COLUMNS[k], cleaned)] + rest)
  }

  function GroupPiece(group: seq<Piece>): Piece {
    if group == [] then Piece([One], []) else Parenthesized(group, AndKw)
  }

  function PredicatePieces(ps: seq<EntryPredicate>, os: Platform): Result<seq<Piece>, QueryError> {
    if ps == [] then Ok([])
    else
      var group :- GroupPieces(ps[0], 0, os);
      var rest :- PredicatePieces(ps[1..], os);
      Ok([GroupPiece(group)] + rest)
  }

  function PredicateClause(ps: Option<seq<EntryPredicate>>, os: Platform): Result<seq<Piece>, QueryError> {
    if ps.None? then Ok([])
    else
      var pieces :- PredicatePieces(ps.value, os);
      Ok([if pieces == [] then Piece([Zero], []) else Parenthesized(pieces, OrKw)])
  }

  function ArchiveClause(ids: Option<seq<string>>, os: Platform): Result<seq<Piece>, QueryError> {
    if !TruthyList(ids) then Ok([])
    else
      var normalized :- NormalizeAll(ids.value, os);
      Ok([Piece(InText(ArchiveId, |ids.value|), AsParams(normalized))])
  }

  function TimeClause(value: Option<string>, op: Token, os: Platform): Result<seq<Piece>, QueryError>
    requires os.Valid()
  {
    if !Truthy(value) then Ok([])
    else
      var bound :- LiftTime(NormalizeTimestamp(value, os));
      Ok([Piece([Col(CreatedAt), op, Mark], [Text(bound)])])
  }

  function ChoiceClause(c: Column, many: Option<seq<string>>, one: Option<string>): seq<Piece> {
    if TruthyList(many) then [Piece(InText(c, |many.value|), AsParams(many.value))]
    else if Truthy(one) then [Piece([Col(c), EqOp, Mark], [Text(one.value)])]
    else []
  }

  const LIKE_TEXT := [LParen, Col(Title), LikeKw, Mark, OrKw, Col(Message), LikeKw, Mark, RParen]

  function TextClause(text: Option<string>): seq<Piece> {
    if !Truthy(text) then []
    else [Piece(LIKE_TEXT, [Text("%" + text.value + "%"), Text("%" + text.value + "%")])]
  }

  function ReadClause(state: Option<ReadState>): seq<Piece> {
    match state
    case None => []
    case Some(Read) => [Piece([ReadAt, IsNotNull], [])]
    case Some(Unread) => [Piece([ReadAt, IsNull], [])]
  }

  /** Every clause but the read state, in the order of the text. */
  function EntryClauses(q: EntryQuery, os: Platform): Result<seq<Piece>, QueryError>
    requires os.Valid()
  {
    var predicates :- PredicateClause(q.predicates, os);
    var archives :- ArchiveClause(q.archiveIds, os);
    var from :- TimeClause(q.fromTs, GeOp, os);
    var to :- TimeClause(q.toTs, LeOp, os);
    Ok(predicates + archives + from + to
       + ChoiceClause(Status, q.statuses, q.status) + ChoiceClause(Kind, q.kinds, q.kind)
       + ChoiceClause(Severity, q.severities, q.severity) + ChoiceClause(Source, q.sources, q.source)
       + TextClause(q.text))
  }

  function UserParams(username: Option<string>): seq<Param> {
    if Truthy(username) then [Text(username.value)] else []
  }

  function Compile(q: EntryQuery, os: Platform): Result<Compiled, QueryError>
    requires os.Valid()
  {
    var clauses :- EntryClauses(q, os);
    var pieces := clauses + ReadClause(q.readState);
    Ok(Compiled(Truthy(q.username), Texts(pieces), UserParams(q.username) + Params(pieces)))
  }

  // ---- building it step by step ------------------------------------------------------

  /** The two lists the source appends to. */
  datatype Draft = Draft(where: seq<seq<Token>>, params: seq<Param>)

  function Extend(d: Draft, pieces: seq<Piece>): Draft {
    Draft(d.where + Texts(pieces), d.params + Params(pieces))
  }

  function ExtendBy(d: Draft, pieces: Result<seq<Piece>, QueryError>): Result<Draft, QueryError> {
    if pieces.Ok? then Ok(Extend(d, pieces.value)) else Err(pieces.error)
  }

  lemma ExtendTwice(d: Draft, a: seq<Piece>, b: seq<Piece>)
    ensures Extend(Extend(d, a), b) == Extend(d, a + b)
  {
    TextsAppend(a, b);
    Regroup(d.where, Texts(a), Texts(b), []);
    Regroup(d.params, Params(a), Params(b), []);
  }

  lemma ExtendOne(d: Draft, p: Piece)
    ensures Extend(d, [p]) == Draft(d.where + [p.text], d.params + p.params)
  {
    assert Texts([p]) == [p.text] && Params([p]) == p.params + [];
  }

  lemma ExtendNone(d: Draft)
    ensures Extend(d, []) == d
  {
    assert d.where + [] == d.where && d.params + [] == d.params;
  }

  function Prepend(done: seq<Piece>, r: Result<seq<Piece>, QueryError>): Result<seq<Piece>, QueryError> {
    if r.Ok? then Ok(done + r.value) else r
  }

  lemma PrependStep(done: seq<Piece>, p: Piece, r: Result<seq<Piece>, QueryError>)
    ensures Prepend(done + [p], r) == Prepend(done, if r.Ok? then Ok([p] + r.value) else r)
  {
    if r.Ok? { assert done + [p] + r.value == done + ([p] + r.value); }
  }

  lemma PrependEnds(done: seq<Piece>, r: Result<seq<Piece>, QueryError>)
    ensures Prepend([], r) == r
    ensures Prepend(done, Ok([])) == Ok(done)
  {
    if r.Ok? { assert [] + r.value == r.value; }
    assert done + [] == done;
  }

  /** One predicate: the loop over its five fields, then its parentheses. */
  method BuildGroup(p: EntryPredicate, params0: seq<Param>, os: Platform)
    returns (r: Result<(seq<Token>, seq<Param>), QueryError>)
    ensures r == (match GroupPieces(p, 0, os)
                  case Ok(pieces) => Ok((GroupPiece(pieces).text, params0 + GroupPiece(pieces).params))
                  case Err(e) => Err(e))
  {
    var group, params := [], params0;
    ghost var start, done: seq<Piece> := Draft([], params0), [];
    PrependEnds([], GroupPieces(p, 0, os));
    ExtendNone(start);
    for k := 0 to 5
      invariant Draft(group, params) == Extend(start, done)
      invariant GroupPieces(p, 0, os) == Prepend(done, GroupPieces(p, k, os))
    {
      var values := FieldValues(p, k);
      if values.None? {
        continue;
      }
      var cleaned := Clean(values.value, PREDICATE_COLUMNS[k], os);
      if cleaned.Err? {
        return Err(cleaned.error);
      }
      ghost var piece := ListPiece(PREDICATE_COLUMNS[k], cleaned.value);
      PrependStep(done, piece, GroupPieces(p, k + 1, os));
      ExtendOne(Draft(group, params), piece);
      ExtendTwice(start, done, [piece]);
      done := done + [piece];
      if cleaned.value == [] {
        group := group + [[Zero]];
        assert params + [] == params;
        continue;
      }
      group := group + [InText(PREDICATE_COLUMNS[k], |cleaned.value|)];
      params := params + AsParams(cleaned.value);
    }
    PrependEnds(done, Ok([]));
    assert group == [] + Texts(done) == Texts(done);
    assert params0 + [] == params0;
    return Ok((if group != [] then [LParen] + Join(group, AndKw) + [RParen] else [One], params));
  }

  /** The predicates are alternatives: the loop over their groups, then their parentheses. */
  method AddPredicates(d: Draft, ps: Option<seq<EntryPredicate>>, os: Platform) returns (r: Result<Draft, QueryError>)
    ensures r == ExtendBy(d, PredicateClause(ps, os))
  {
    if ps.None? {
      ExtendNone(d);
      return Ok(d);
    }
    var predicateSql, params := [], d.params;
    ghost var start, done: seq<Piece> := Draft([], d.params), [];
    PrependEnds([], PredicatePieces(ps.value, os));
    ExtendNone(start);
    for i := 0 to |ps.value|
      invariant Draft(predicateSql, params) == Extend(start, done)
      invariant PredicatePieces(ps.value, os) == Prepend(done, PredicatePieces(ps.value[i..], os))
    {
      ghost var tail := ps.value[i..];
      assert tail[0] == ps.value[i] && tail[1..] == ps.value[i + 1..];
      var group := BuildGroup(ps.value[i], params, os);
      if group.Err? {
        return Err(group.error);
      }
      ghost var piece := GroupPiece(GroupPieces(ps.value[i], 0, os).value);
      PrependStep(done, piece, PredicatePieces(ps.value[i + 1..], os));
      ExtendOne(Draft(predicateSql, params), piece);
      ExtendTwice(start, done, [piece]);
      done := done + [piece];
      predicateSql, params := predicateSql + [group.value.0], group.value.1;
    }
    PrependEnds(done, Ok([]));
    assert predicateSql == [] + Texts(done) == Texts(done);
    assert d.params + [] == d.params;
    r := Ok(Draft(d.where
        + [if predicateSql != [] then [LParen] + Join(predicateSql, OrKw) + [RParen] else [Zero]], params));
    ExtendOne(d, PredicateClause(ps, os).value[0]);
  }

  method AddArchives(d: Draft, ids: Option<seq<string>>, os: Platform) returns (r: Result<Draft, QueryError>)
    ensures r == ExtendBy(d, ArchiveClause(ids, os))
  {
    ExtendNone(d);
    if !TruthyList(ids) {
      return Ok(d);
    }
    var normalized :- NormalizeAll(ids.value, os);
    r := Ok(Draft(d.where + [InText(ArchiveId, |ids.value|)], d.params + AsParams(normalized)));
    ExtendOne(d, ArchiveClause(ids, os).value[0]);
  }

  method AddTime(d: Draft, value: Option<string>, op: Token, os: Platform) returns (r: Result<Draft, QueryError>)
    requires os.Valid()
    ensures r == ExtendBy(d, TimeClause(value, op, os))
  {
    ExtendNone(d);
    if !Truthy(value) {
      return Ok(d);
    }
    var bound :- LiftTime(NormalizeTimestamp(value, os));
    r := Ok(Draft(d.where + [[Col(CreatedAt), op, Mark]], d.params + [Text(bound)]));
    ExtendOne(d, TimeClause(value, op, os).value[0]);
  }

  function ChoicesBefore(q: EntryQuery, k: nat): seq<Piece>
    requires k <= 4
  {
    if k == 0 then []
    else
      ChoicesBefore(q, k - 1)
      + ChoiceClause(ChoiceAt(q, k - 1).0, ChoiceAt(q, k - 1).1, ChoiceAt(q, k - 1).2)
  }

  function ChoiceAt(q: EntryQuery, k: nat): (Column, Option<seq<string>>, Option<string>)
    requires k < 4
  {
    match k
    case 0 => (Status, q.statuses, q.status)
    case 1 => (Kind, q.kinds, q.kind)
    case 2 => (Severity, q.severities, q.severity)
    case _ => (Source, q.sources, q.source)
  }

  /** The loop over the four fields that have a plural and a singular filter. */
  method AddChoices(d: Draft, q: EntryQuery) returns (r: Draft)
    ensures r == Extend(d, ChoicesBefore(q, 4))
  {
    var where, params := d.where, d.params;
    ExtendNone(d);
    for k := 0 to 4
      invariant Draft(where, params) == Extend(d, ChoicesBefore(q, k))
    {
      var (column, many, one) := ChoiceAt(q, k);
      ghost var clause := ChoiceClause(column, many, one);
      ExtendTwice(d, ChoicesBefore(q, k), clause);
      if clause == [] { ExtendNone(Draft(where, params)); } else { ExtendOne(Draft(where, params), clause[0]); }
      if TruthyList(many) {
        where := where + [InText(column, |many.value|)];
        params := params + AsParams(many.value);
        continue;
      }
      if Truthy(one) {
        where := where + [[Col(column), EqOp, Mark]];
        params := params + [Text(one.value)];
      }
    }
    r := Draft(where, params);
  }

  method AddText(d: Draft, text: Option<string>) returns (r: Draft)
    ensures r == Extend(d, TextClause(text))
  {
    r := d;
    if Truthy(text) {
      var like := "%" + text.value + "%";
      r := Draft(d.where + [LIKE_TEXT], d.params + [Text(like), Text(like)]);
    }
    ExtendAtMostOne(d, TextClause(text));
  }

  method AddReadState(d: Draft, state: Option<ReadState>) returns (r: Draft)
    ensures r == Extend(d, ReadClause(state))
  {
    r := d;
    if state == Some(Read) {
      r := Draft(d.where + [[ReadAt, IsNotNull]], d.params);
    } else if state == Some(Unread) {
      r := Draft(d.where + [[ReadAt, IsNull]], d.params);
    }
    ExtendAtMostOne(d, ReadClause(state));
    assert d.params + [] == d.params;
  }

  method BuildQuery(q: EntryQuery, os: Platform) returns (r: Result<Compiled, QueryError>)
    requires os.Valid()
    ensures r == Compile(q, os)
  {
    var params := [];
    if Truthy(q.username) {
      params := params + [Text(q.username.value)];
    }
    assert params == UserParams(q.username);
    var start := Draft([], params);
    var d :- AddPredicates(start, q.predicates, os);
    d :- AddArchives(d, q.archiveIds, os);
    d :- AddTime(d, q.fromTs, GeOp, os);
    d :- AddTime(d, q.toTs, LeOp, os);
    d := AddChoices(d, q);
    d := AddText(d, q.text);
    d := AddReadState(d, q.readState);
    r := Ok(Compiled(Truthy(q.username), d.where, d.params));
    DraftIsCompiled(q, os, PredicateClause(q.predicates, os).value, ArchiveClause(q.archiveIds, os).value,
                    TimeClause(q.fromTs, GeOp, os).value, TimeClause(q.toTs, LeOp, os).value);
  }

  lemma ExtendAtMostOne(d: Draft, clause: seq<Piece>)
    requires |clause| <= 1
    ensures Extend(d, clause) == if clause == [] then d
        else Draft(d.where + [clause[0].text], d.params + clause[0].params)
  {
    if clause == [] { ExtendNone(d); } else { ExtendOne(d, clause[0]); }
  }

  lemma ExtendSeven(
    d: Draft, a: seq<Piece>, b: seq<Piece>, c: seq<Piece>, e: seq<Piece>, f: seq<Piece>, g: seq<Piece>, h: seq<Piece>)
    ensures Extend(Extend(Extend(Extend(Extend(Extend(Extend(d, a), b), c), e), f), g), h)
            == Extend(d, a + b + c + e + f + g + h)
  {
    ExtendTwice(d, a, b);
    ExtendTwice(d, a + b, c);
    ExtendTwice(d, a + b + c, e);
    ExtendTwice(d, a + b + c + e, f);
    ExtendTwice(d, a + b + c + e + f, g);
    ExtendTwice(d, a + b + c + e + f + g, h);
  }

  /** The drafts of the single steps put together are the compiled query. */
  lemma DraftIsCompiled(q: EntryQuery, os: Platform, a: seq<Piece>, b: seq<Piece>, c: seq<Piece>, e: seq<Piece>)
    requires os.Valid()
    requires PredicateClause(q.predicates, os) == Ok(a) && ArchiveClause(q.archiveIds, os) == Ok(b)
    requires TimeClause(q.fromTs, GeOp, os) == Ok(c) && TimeClause(q.toTs, LeOp, os) == Ok(e)
    ensures var d := Extend(Extend(Extend(Extend(Extend(Extend(Extend(Draft([], UserParams(q.username)), a), b), c), e),
                                          ChoicesBefore(q, 4)), TextClause(q.text)), ReadClause(q.readState));
            Compile(q, os) == Ok(Compiled(Truthy(q.username), d.where, d.params))
  {
    var start := Draft([], UserParams(q.username));
    ExtendSeven(start, a, b, c, e, ChoicesBefore(q, 4), TextClause(q.text), ReadClause(q.readState));
    FourChoices(q, a + b + c + e);
    var pieces := EntryClauses(q, os).value + ReadClause(q.readState);
    assert [] + Texts(pieces) == Texts(pieces);
  }

  lemma FourChoices(q: EntryQuery, f: seq<Piece>)
    ensures f + ChoicesBefore(q, 4)
            == f + ChoiceClause(Status, q.statuses, q.status) + ChoiceClause(Kind, q.kinds, q.kind)
               + ChoiceClause(Severity, q.severities, q.severity) + ChoiceClause(Source, q.sources, q.source)
  {
    var a, b, c, d := ChoiceClause(Status, q.statuses, q.status), ChoiceClause(Kind, q.kinds, q.kind),
      ChoiceClause(Severity, q.severities, q.severity), ChoiceClause(Source, q.sources, q.source);
    assert ChoicesBefore(q, 1) == ChoicesBefore(q, 0) + a == a;
    assert ChoicesBefore(q, 2) == a + b;
    assert ChoicesBefore(q, 3) == a + b + c;
    assert ChoicesBefore(q, 4) == a + b + c + d;
    assert f + (a + b + c + d) == f + a + b + c + d;
  }
}
