/**
  What the database makes of a compiled query. QueryMeansPredicate: the count and the
  page are those of the rows the query describes; StatementNeedsUser: without a user, a
  read-state filter is rejected; EveryMarkTakesOneParameter: the reader of the text
  uses up exactly one parameter per placeholder.
 */
module QueryMeaning {
  import opened Wrappers
  import opened TextOrder
  import opened Timestamps
  import opened ArchiveModel
  import opened SqlText
  import opened MessageQuery

  /** The three tables; an entry's primary key is its id, a read state's is entry and user. */
  datatype Db = Db(archives: map<string, Settings>, entries: seq<Entry>, readStates: map<(string, string), string>)

  datatype SqlError = Rejected

  function JoinedRow(db: Db, user: Option<string>, e: Entry): Row {
    Row(e, user.Some?, if user.Some? && (e.id, user.value) in db.readStates
        then Some(db.readStates[(e.id, user.value)]) else None)
  }

  const BLANK := Entry("", "", "", "", "", "", "", "", "")

  /** The truth of the WHERE clause on one row, with the parameters it leaves over; None when it is rejected. */
  function Verdict(where: seq<seq<Token>>, ps: seq<Param>, row: Row, like: Like): Option<(bool, seq<Param>)> {
    if where == [] then Some((true, ps))
    else match ReadOr(Join(where, AndKw), ps, row, like)
      case Bad => None
      case Done(v, rest, left) => if rest == [] then Some((v, left)) else None
  }

  /** The entries with an archive on which the clause holds, in table order. */
  function Matching(
    db: Db, rows: seq<Entry>, user: Option<string>, where: seq<seq<Token>>, ps: seq<Param>, like: Like): seq<Entry>
  {
    if rows == [] then []
    else
      var rest := Matching(db, rows[1..], user, where, ps, like);
      var verdict := Verdict(where, ps, JoinedRow(db, user, rows[0]), like);
      if rows[0].archiveId in db.archives && verdict.Some? && verdict.value.0 then [rows[0]] + rest else rest
  }

  /** Binds the parameters from left to right: the joined user, the WHERE clause, then LIMIT and OFFSET if paged. */
  function Execute(
    db: Db, c: Compiled, params: seq<Param>, paged: bool, ascending: bool, like: Like): Result<seq<Entry>, SqlError>
  {
    if c.join && (params == [] || !params[0].Text?) then Err(Rejected)
    else
      var user := if c.join then Some(params[0].text) else None;
      var ps := if c.join then params[1..] else params;
      match Verdict(c.where, ps, JoinedRow(db, user, BLANK), like)
      case None => Err(Rejected)
      case Some((_, left)) =>
        var rows := Matching(db, db.entries, user, c.where, ps, like);
        if !paged then (if left == [] then Ok(rows) else Err(Rejected))
        else if |left| == 2 && left[0].Number? && left[1].Number?
            then Ok(Page(Sort(rows, ascending), left[0].number, left[1].number))
        else Err(Rejected)
  }

  function CountRows(db: Db, c: Compiled, q: EntryQuery, like: Like): Result<seq<Entry>, SqlError> {
    Execute(db, c, c.params, false, q.ascending, like)
  }

  function PageRows(db: Db, c: Compiled, q: EntryQuery, like: Like): Result<seq<Entry>, SqlError> {
    Execute(db, c, c.params + [Number(q.limit), Number(q.offset)], true, q.ascending, like)
  }

  // ---- conjunctions of pieces -----------------------------------------------------------

  ghost predicate Conjunction(pieces: seq<Piece>, row: Row, like: Like, v: bool) {
    exists vs :: Operands(pieces, row, like, vs) && v == (false !in vs)
  }

  lemma ConjunctionAppend(a: seq<Piece>, b: seq<Piece>, row: Row, like: Like, v: bool, w: bool)
    requires Conjunction(a, row, like, v) && Conjunction(b, row, like, w)
    ensures Conjunction(a + b, row, like, v && w)
  {
    var vs :| Operands(a, row, like, vs) && v == (false !in vs);
    var ws :| Operands(b, row, like, ws) && w == (false !in ws);
    assert Operands(a + b, row, like, vs + ws);
  }

  lemma ConjunctionOne(p: Piece, row: Row, like: Like, v: bool)
    requires Operand(p, row, like, v)
    ensures Conjunction([p], row, like, v)
  {
    assert Operands([p], row, like, [v]);
  }

  lemma ConjunctionNone(row: Row, like: Like)
    ensures Conjunction([], row, like, true)
  {
    assert Operands([], row, like, []);
  }

  // ---- each clause means its part of the query ---------------------------------------------

  lemma {:induction false} CleanMeans(values: seq<string>, c: Column, e: Entry, os: Platform)
    requires Clean(values, c, os).Ok?
    ensures Get(e, c) in Clean(values, c, os).value <==> Listed(values, c, e, os)
  {
    if values != [] {
      CleanMeans(values[1..], c, e, os);
      assert values == [values[0]] + values[1..];
      assert Listed(values, c, e, os) <==> Denotes(values[0], c, e, os) || Listed(values[1..], c, e, os);
    }
  }

  lemma ListPieceMeans(c: Column, values: seq<string>, row: Row, like: Like)
    ensures Operand(ListPiece(c, values), row, like, Get(row.entry, c) in values)
  {
    if values == [] { ConstantIsOperand(row, like); } else { InIsOperand(c, values, row, like); }
  }

  predicate MatchesFrom(p: EntryPredicate, k: nat, e: Entry, os: Platform)
    requires k <= 5
  {
    forall j :: k <= j < 5 ==> FieldValues(p, j).Some? ==> Listed(FieldValues(p, j).value, PREDICATE_COLUMNS[j], e, os)
  }

  lemma {:induction false} GroupMeans(p: EntryPredicate, k: nat, row: Row, like: Like, os: Platform)
    requires k <= 5 && GroupPieces(p, k, os).Ok?
    ensures Conjunction(GroupPieces(p, k, os).value, row, like, MatchesFrom(p, k, row.entry, os))
    decreases 5 - k
  {
    if k == 5 {
      ConjunctionNone(row, like);
    } else {
      GroupMeans(p, k + 1, row, like, os);
      if FieldValues(p, k).Some? {
        var c, values := PREDICATE_COLUMNS[k], FieldValues(p, k).value;
        var cleaned := Clean(values, c, os).value;
        CleanMeans(values, c, row.entry, os);
        ListPieceMeans(c, cleaned, row, like);
        var here, later := Listed(values, c, row.entry, os), MatchesFrom(p, k + 1, row.entry, os);
        ConjunctionOne(ListPiece(c, cleaned), row, like, here);
        ConjunctionAppend([ListPiece(c, cleaned)], GroupPieces(p, k + 1, os).value, row, like, here, later);
        assert MatchesFrom(p, k, row.entry, os) == (here && later);
      } else {
        assert MatchesFrom(p, k, row.entry, os) == MatchesFrom(p, k + 1, row.entry, os);
      }
    }
  }

  lemma GroupPieceMeans(p: EntryPredicate, row: Row, like: Like, os: Platform)
    requires GroupPieces(p, 0, os).Ok?
    ensures Operand(GroupPiece(GroupPieces(p, 0, os).value), row, like, Matches(p, row.entry, os))
  {
    var pieces := GroupPieces(p, 0, os).value;
    GroupMeans(p, 0, row, like, os);
    assert MatchesFrom(p, 0, row.entry, os) == Matches(p, row.entry, os);
    var vs :| Operands(pieces, row, like, vs) && Matches(p, row.entry, os) == (false !in vs);
    if pieces == [] { ConstantIsOperand(row, like); } else { ParenthesizedIsOperand(pieces, row, like, vs); }
  }

  lemma OperandsCons(p: Piece, pieces: seq<Piece>, row: Row, like: Like, v: bool, vs: seq<bool>)
    requires Operand(p, row, like, v) && Operands(pieces, row, like, vs)
    ensures Operands([p] + pieces, row, like, [v] + vs)
  {
  }

  lemma {:induction false} PredicatePiecesMean(
    ps: seq<EntryPredicate>, row: Row, like: Like, os: Platform) returns (vs: seq<bool>)
    requires PredicatePieces(ps, os).Ok?
    ensures Operands(PredicatePieces(ps, os).value, row, like, vs)
    ensures true in vs <==> exists p :: p in ps && Matches(p, row.entry, os)
  {
    if ps == [] {
      vs := [];
    } else {
      var rest := PredicatePiecesMean(ps[1..], row, like, os);
      GroupPieceMeans(ps[0], row, like, os);
      vs := [Matches(ps[0], row.entry, os)] + rest;
      OperandsCons(GroupPiece(GroupPieces(ps[0], 0, os).value), PredicatePieces(ps[1..], os).value,
          row, like, vs[0], rest);
      assert forall p :: p in ps <==> p == ps[0] || p in ps[1..];
    }
  }

  predicate AnyMatches(ps: Option<seq<EntryPredicate>>, e: Entry, os: Platform) {
    ps.Some? ==> exists p :: p in ps.value && Matches(p, e, os)
  }

  lemma PredicateClauseMeans(ps: Option<seq<EntryPredicate>>, row: Row, like: Like, os: Platform)
    requires PredicateClause(ps, os).Ok?
    ensures Conjunction(PredicateClause(ps, os).value, row, like, AnyMatches(ps, row.entry, os))
  {
    if ps.None? {
      ConjunctionNone(row, like);
    } else {
      var vs := PredicatePiecesMean(ps.value, row, like, os);
      var pieces := PredicatePieces(ps.value, os).value;
      ConstantIsOperand(row, like);
      if pieces != [] { ParenthesizedIsOperand(pieces, row, like, vs); }
      ConjunctionOne(PredicateClause(ps, os).value[0], row, like, AnyMatches(ps, row.entry, os));
    }
  }

  predicate InArchives(ids: Option<seq<string>>, e: Entry, os: Platform) {
    TruthyList(ids) ==> exists v :: v in ids.value && NormalizeArchiveId(v, os) == Ok(e.archiveId)
  }

  lemma {:induction false} NormalizeAllMeans(values: seq<string>, e: Entry, os: Platform)
    requires NormalizeAll(values, os).Ok?
    ensures e.archiveId in NormalizeAll(values, os).value
        <==> exists v :: v in values && NormalizeArchiveId(v, os) == Ok(e.archiveId)
  {
    if values != [] {
      NormalizeAllMeans(values[1..], e, os);
      assert values == [values[0]] + values[1..];
    }
  }

  lemma ArchiveClauseMeans(ids: Option<seq<string>>, row: Row, like: Like, os: Platform)
    requires ArchiveClause(ids, os).Ok?
    ensures Conjunction(ArchiveClause(ids, os).value, row, like, InArchives(ids, row.entry, os))
  {
    ConjunctionNone(row, like);
    if TruthyList(ids) {
      NormalizeAllMeans(ids.value, row.entry, os);
      InIsOperand(ArchiveId, NormalizeAll(ids.value, os).value, row, like);
      ConjunctionOne(ArchiveClause(ids, os).value[0], row, like, InArchives(ids, row.entry, os));
    }
  }

  ghost predicate TimeBound(value: Option<string>, op: Token, e: Entry, os: Platform)
    requires os.Valid() && op in {GeOp, LeOp}
  {
    Truthy(value) ==> NormalizeTimestamp(value, os).Ok?
                      && if op == GeOp then !Less(e.createdAt, NormalizeTimestamp(value, os).value)
                         else !Less(NormalizeTimestamp(value, os).value, e.createdAt)
  }

  lemma TimeClauseMeans(
    value: Option<string>, op: Token, clause: seq<Piece>, row: Row, like: Like, os: Platform, v: bool)
    requires os.Valid() && op in {GeOp, LeOp} && TimeClause(value, op, os) == Ok(clause)
    requires v == TimeBound(value, op, row.entry, os)
    ensures Conjunction(clause, row, like, v)
  {
    ConjunctionNone(row, like);
    if Truthy(value) {
      BoundMeans(op, NormalizeTimestamp(value, os).value, row, like);
    }
  }

  lemma BoundMeans(op: Token, bound: string, row: Row, like: Like)
    requires op in {GeOp, LeOp}
    ensures Conjunction([Piece([Col(CreatedAt), op, Mark], [Text(bound)])], row, like,
                        if op == GeOp then !Less(row.entry.createdAt, bound) else !Less(bound, row.entry.createdAt))
  {
    var v := if op == GeOp then !Less(row.entry.createdAt, bound) else !Less(bound, row.entry.createdAt);
    ComparisonIsOperand(CreatedAt, op, bound, row, like);
    ConjunctionOne(Piece([Col(CreatedAt), op, Mark], [Text(bound)]), row, like, v);
  }

  lemma ChoiceClauseMeans(
    c: Column, many: Option<seq<string>>, one: Option<string>, row: Row, like: Like, actual: string)
    requires actual == Get(row.entry, c)
    ensures Conjunction(ChoiceClause(c, many, one), row, like, Chosen(many, one, actual))
  {
    ConjunctionNone(row, like);
    if TruthyList(many) {
      InIsOperand(c, many.value, row, like);
      ConjunctionOne(ChoiceClause(c, many, one)[0], row, like, Chosen(many, one, actual));
    } else if Truthy(one) {
      ComparisonIsOperand(c, EqOp, one.value, row, like);
      ConjunctionOne(ChoiceClause(c, many, one)[0], row, like, Chosen(many, one, actual));
    }
  }

  predicate TextFound(text: Option<string>, e: Entry, like: Like) {
    Truthy(text) ==> like("%" + text.value + "%", e.title) || like("%" + text.value + "%", e.message)
  }

  lemma LikePieces(bound: string) returns (pieces: seq<Piece>)
    ensures pieces == [Piece([Col(Title), LikeKw, Mark], [Text(bound)]),
        Piece([Col(Message), LikeKw, Mark], [Text(bound)])]
    ensures Parenthesized(pieces, OrKw) == Piece(LIKE_TEXT, [Text(bound), Text(bound)])
  {
    var title, message := Piece([Col(Title), LikeKw, Mark], [Text(bound)]),
        Piece([Col(Message), LikeKw, Mark], [Text(bound)]);
    pieces := [title, message];
    assert pieces[1..] == [message] && [message][1..] == [];
    assert Texts([message]) == [message.text] && Params([message]) == message.params + [];
    assert Texts(pieces) == [title.text] + [message.text];
    assert Texts(pieces)[1..] == [message.text];
    assert Join(Texts(pieces), OrKw) == title.text + [OrKw] + message.text;
  }

  lemma TextClauseMeans(text: Option<string>, row: Row, like: Like)
    ensures Conjunction(TextClause(text), row, like, TextFound(text, row.entry, like))
  {
    if !Truthy(text) {
      ConjunctionNone(row, like);
    } else {
      var bound := "%" + text.value + "%";
      var pieces := LikePieces(bound);
      ComparisonIsOperand(Title, LikeKw, bound, row, like);
      ComparisonIsOperand(Message, LikeKw, bound, row, like);
      var vs := [like(bound, row.entry.title), like(bound, row.entry.message)];
      ParenthesizedIsOperand(pieces, row, like, vs);
      ConjunctionOne(Parenthesized(pieces, OrKw), row, like, true in vs);
    }
  }

  predicate ReadAsAsked(state: Option<ReadState>, row: Row) {
    (state == Some(Read) ==> row.readAt.Some?) && (state == Some(Unread) ==> row.readAt.None?)
  }

  lemma ReadClauseMeans(state: Option<ReadState>, row: Row, like: Like)
    requires state.Some? ==> row.joined
    ensures Conjunction(ReadClause(state), row, like, ReadAsAsked(state, row))
  {
    ConjunctionNone(row, like);
    if state.Some? {
      var p, v := ReadClause(state)[0], ReadAsAsked(state, row);
      forall rest: seq<Token>, more: seq<Param>
        ensures ReadAtom(p.text + rest, p.params + more, row, like) == Done(v, rest, more)
      {
        assert (p.text + rest)[2..] == rest && [] + more == more;
      }
      ConjunctionOne(p, row, like, v);
    }
  }

  ghost predicate EntrySelected(q: EntryQuery, e: Entry, os: Platform, like: Like)
    requires os.Valid()
  {
    && AnyMatches(q.predicates, e, os) && InArchives(q.archiveIds, e, os)
    && TimeBound(q.fromTs, GeOp, e, os) && TimeBound(q.toTs, LeOp, e, os)
    && Chosen(q.statuses, q.status, e.status) && Chosen(q.kinds, q.kind, e.kind)
    && Chosen(q.severities, q.severity, e.severity) && Chosen(q.sources, q.source, e.source)
    && TextFound(q.text, e, like)
  }

  lemma EntryClausesMean(q: EntryQuery, row: Row, os: Platform, like: Like)
    requires os.Valid() && EntryClauses(q, os).Ok?
    ensures Conjunction(EntryClauses(q, os).value, row, like, EntrySelected(q, row.entry, os, like))
  {
    var e := row.entry;
    assert Get(e, Status) == e.status && Get(e, Kind) == e.kind && Get(e, Severity) == e.severity
        && Get(e, Source) == e.source;
    var a, b := PredicateClause(q.predicates, os).value, ArchiveClause(q.archiveIds, os).value;
    var c, d := TimeClause(q.fromTs, GeOp, os).value, TimeClause(q.toTs, LeOp, os).value;
    var va, vb := AnyMatches(q.predicates, e, os), InArchives(q.archiveIds, e, os);
    var vc, vd := TimeBound(q.fromTs, GeOp, e, os), TimeBound(q.toTs, LeOp, e, os);
    var f, g := ChoiceClause(Status, q.statuses, q.status), ChoiceClause(Kind, q.kinds, q.kind);
    var h, i := ChoiceClause(Severity, q.severities, q.severity), ChoiceClause(Source, q.sources, q.source);
    var vf, vg := Chosen(q.statuses, q.status, e.status), Chosen(q.kinds, q.kind, e.kind);
    var vh, vi := Chosen(q.severities, q.severity, e.severity), Chosen(q.sources, q.source, e.source);
    var j, vj := TextClause(q.text), TextFound(q.text, e, like);
    assert EntryClauses(q, os).value == a + b + c + d + f + g + h + i + j;
    assert EntrySelected(q, e, os, like) == (va && vb && vc && vd && vf && vg && vh && vi && vj);
    PredicateClauseMeans(q.predicates, row, like, os);
    ArchiveClauseMeans(q.archiveIds, row, like, os);
    TimeClauseMeans(q.fromTs, GeOp, c, row, like, os, vc);
    TimeClauseMeans(q.toTs, LeOp, d, row, like, os, vd);
    ChoiceClauseMeans(Status, q.statuses, q.status, row, like, e.status);
    ChoiceClauseMeans(Kind, q.kinds, q.kind, row, like, e.kind);
    ChoiceClauseMeans(Severity, q.severities, q.severity, row, like, e.severity);
    ChoiceClauseMeans(Source, q.sources, q.source, row, like, e.source);
    TextClauseMeans(q.text, row, like);
    Append9(a, b, c, d, f, g, h, i, j, row, like, va, vb, vc, vd, vf, vg, vh, vi, vj);
    ConjunctionSame(a + b + c + d + f + g + h + i + j, EntryClauses(q, os).value, row, like,
                    va && vb && vc && vd && vf && vg && vh && vi && vj, EntrySelected(q, e, os, like));
  }

  lemma ConjunctionSame(a: seq<Piece>, b: seq<Piece>, row: Row, like: Like, v: bool, w: bool)
    requires Conjunction(a, row, like, v) && a == b && v == w
    ensures Conjunction(b, row, like, w)
  {
  }

  lemma Append5(a: seq<Piece>, b: seq<Piece>, c: seq<Piece>, d: seq<Piece>, f: seq<Piece>, row: Row, like: Like,
                va: bool, vb: bool, vc: bool, vd: bool, vf: bool)
    requires Conjunction(a, row, like, va) && Conjunction(b, row, like, vb)
    requires Conjunction(c, row, like, vc) && Conjunction(d, row, like, vd)
    requires Conjunction(f, row, like, vf)
    ensures Conjunction(a + b + c + d + f, row, like, va && vb && vc && vd && vf)
  {
    ConjunctionAppend(a, b, row, like, va, vb);
    ConjunctionAppend(a + b, c, row, like, va && vb, vc);
    ConjunctionAppend(a + b + c, d, row, like, va && vb && vc, vd);
    ConjunctionAppend(a + b + c + d, f, row, like, va && vb && vc && vd, vf);
  }

  lemma Append9(a: seq<Piece>, b: seq<Piece>, c: seq<Piece>, d: seq<Piece>, f: seq<Piece>, g: seq<Piece>,
      h: seq<Piece>, i: seq<Piece>, j: seq<Piece>,
                row: Row, like: Like, va: bool, vb: bool, vc: bool, vd: bool, vf: bool, vg: bool, vh: bool, vi: bool,
                    vj: bool)
    requires Conjunction(a, row, like, va) && Conjunction(b, row, like, vb)
    requires Conjunction(c, row, like, vc) && Conjunction(d, row, like, vd)
    requires Conjunction(f, row, like, vf) && Conjunction(g, row, like, vg)
    requires Conjunction(h, row, like, vh) && Conjunction(i, row, like, vi)
    requires Conjunction(j, row, like, vj)
    ensures Conjunction(a + b + c + d + f + g + h + i + j, row, like, va && vb && vc && vd && vf && vg && vh && vi
        && vj)
  {
    Append5(a, b, c, d, f, row, like, va, vb, vc, vd, vf);
    Append5(a + b + c + d + f, g, h, i, j, row, like, va && vb && vc && vd && vf, vg, vh, vi, vj);
  }

  // ---- the statement as a whole ------------------------------------------------------------

  lemma WhereReads(pieces: seq<Piece>, row: Row, like: Like, v: bool, more: seq<Param>)
    requires Conjunction(pieces, row, like, v)
    ensures Verdict(Texts(pieces), Params(pieces) + more, row, like) == Some((v, more))
  {
    var vs :| Operands(pieces, row, like, vs) && v == (false !in vs);
    if pieces == [] {
      assert [] + more == more;
    } else {
      var toks := Join(Texts(pieces), AndKw);
      AndReads(pieces, row, like, vs, [], more);
      assert toks + [] == toks;
      AndIsOr(toks, Params(pieces) + more, row, like, v, [], more);
    }
  }

  function UserOf(q: EntryQuery): Option<string> {
    if Truthy(q.username) then q.username else None
  }

  lemma RowVerdict(q: EntryQuery, clauses: seq<Piece>, row: Row, os: Platform, like: Like, more: seq<Param>)
    requires os.Valid() && EntryClauses(q, os) == Ok(clauses)
    requires q.readState.Some? ==> row.joined
    ensures var pieces := clauses + ReadClause(q.readState);
            Verdict(Texts(pieces), Params(pieces) + more, row, like) == Some((Selects(q, row, os, like), more))
  {
    var v, w := EntrySelected(q, row.entry, os, like), ReadAsAsked(q.readState, row);
    assert Selects(q, row, os, like) == (v && w);
    EntryClausesMean(q, row, os, like);
    ReadClauseMeans(q.readState, row, like);
    ConjunctionAppend(clauses, ReadClause(q.readState), row, like, v, w);
    WhereReads(clauses + ReadClause(q.readState), row, like, v && w, more);
  }

  /** The rows the query describes, in table order. */
  ghost function Described(db: Db, rows: seq<Entry>, q: EntryQuery, os: Platform, like: Like): seq<Entry>
    requires os.Valid()
  {
    if rows == [] then []
    else
      var rest := Described(db, rows[1..], q, os, like);
      if rows[0].archiveId in db.archives && Selects(q, JoinedRow(db, UserOf(q), rows[0]), os, like)
          then [rows[0]] + rest else rest
  }

  lemma {:induction false} MatchingIsDescribed(
    db: Db, rows: seq<Entry>, q: EntryQuery, clauses: seq<Piece>, os: Platform, like: Like, more: seq<Param>)
    requires os.Valid() && EntryClauses(q, os) == Ok(clauses)
    requires q.readState.Some? ==> Truthy(q.username)
    ensures var pieces := clauses + ReadClause(q.readState);
            Matching(db, rows, UserOf(q), Texts(pieces), Params(pieces) + more, like)
                == Described(db, rows, q, os, like)
  {
    if rows != [] {
      MatchingIsDescribed(db, rows[1..], q, clauses, os, like, more);
      RowVerdict(q, clauses, JoinedRow(db, UserOf(q), rows[0]), os, like, more);
    }
  }

  lemma BindsUser(q: EntryQuery, params: seq<Param>, more: seq<Param>)
    ensures var all := UserParams(q.username) + params + more;
            if Truthy(q.username) then all != [] && all[0] == Text(q.username.value) && all[1..] == params + more
                else all == params + more
  {
    assert [] + params + more == params + more;
    if Truthy(q.username) {
      assert ([Text(q.username.value)] + params + more)[1..] == params + more;
    }
  }

  /** What executing a statement comes to, once its user and parameters are bound and its condition reads to the end. */
  lemma ExecuteBound(
    db: Db, c: Compiled, all: seq<Param>, user: Option<string>, ps: seq<Param>, v: bool, left: seq<Param>,
    ascending: bool, like: Like)
    requires if c.join
             then all != [] && all[0].Text? && user == Some(all[0].text) && ps == all[1..]
             else user == None && ps == all
    requires Verdict(c.where, ps, JoinedRow(db, user, BLANK), like) == Some((v, left))
    ensures left == [] ==>
              Execute(db, c, all, false, ascending, like) == Ok(Matching(db, db.entries, user, c.where, ps, like))
    ensures |left| == 2 && left[0].Number? && left[1].Number? ==>
              Execute(db, c, all, true, ascending, like)
              == Ok(Page(Sort(Matching(db, db.entries, user, c.where, ps, like), ascending), left[0].number,
                  left[1].number))
  {
  }

  lemma ExecutionIs(
    q: EntryQuery, c: Compiled, db: Db, like: Like, pieces: seq<Piece>, v: bool, paging: seq<Param>, rows: seq<Entry>)
    requires c == Compiled(Truthy(q.username), Texts(pieces), UserParams(q.username) + Params(pieces))
    requires Verdict(Texts(pieces), Params(pieces) + paging, JoinedRow(db, UserOf(q), BLANK), like) == Some((v, paging))
    requires Matching(db, db.entries, UserOf(q), Texts(pieces), Params(pieces) + paging, like) == rows
    ensures paging == [] ==> CountRows(db, c, q, like) == Ok(rows)
    ensures paging == [Number(q.limit), Number(q.offset)] ==>
              PageRows(db, c, q, like) == Ok(Page(Sort(rows, q.ascending), q.limit, q.offset))
  {
    BindsUser(q, Params(pieces), paging);
    ExecuteBound(db, c, c.params + paging, UserOf(q), Params(pieces) + paging, v, paging, q.ascending, like);
    assert c.params + [] == c.params;
  }

  lemma CompiledIs(q: EntryQuery, c: Compiled, os: Platform) returns (clauses: seq<Piece>)
    requires os.Valid() && Compile(q, os) == Ok(c)
    ensures EntryClauses(q, os) == Ok(clauses)
    ensures var pieces := clauses + ReadClause(q.readState);
            c == Compiled(Truthy(q.username), Texts(pieces), UserParams(q.username) + Params(pieces))
  {
    clauses := EntryClauses(q, os).value;
  }

  lemma ClausesMeanPredicate(q: EntryQuery, c: Compiled, clauses: seq<Piece>, db: Db, os: Platform, like: Like)
    requires os.Valid() && EntryClauses(q, os) == Ok(clauses)
    requires q.readState.Some? ==> Truthy(q.username)
    requires var pieces := clauses + ReadClause(q.readState);
             c == Compiled(Truthy(q.username), Texts(pieces), UserParams(q.username) + Params(pieces))
    ensures CountRows(db, c, q, like) == Ok(Described(db, db.entries, q, os, like))
    ensures PageRows(db, c, q, like)
        == Ok(Page(Sort(Described(db, db.entries, q, os, like), q.ascending), q.limit, q.offset))
  {
    var (pieces, row) := (clauses + ReadClause(q.readState), JoinedRow(db, UserOf(q), BLANK));
    var paging := [Number(q.limit), Number(q.offset)];
    var (v, rows) := (Selects(q, row, os, like), Described(db, db.entries, q, os, like));
    RowVerdict(q, clauses, row, os, like, []);
    RowVerdict(q, clauses, row, os, like, paging);
    MatchingIsDescribed(db, db.entries, q, clauses, os, like, []);
    MatchingIsDescribed(db, db.entries, q, clauses, os, like, paging);
    ExecutionIs(q, c, db, like, pieces, v, [], rows);
    ExecutionIs(q, c, db, like, pieces, v, paging, rows);
  }

  /**
    Counting and listing with the compiled statement give exactly the described rows: the
    count all of them, the page a slice of them in the order asked for.
   */
  lemma QueryMeansPredicate(q: EntryQuery, c: Compiled, db: Db, os: Platform, like: Like)
    requires os.Valid() && Compile(q, os) == Ok(c)
    requires q.readState.Some? ==> Truthy(q.username)
    ensures CountRows(db, c, q, like) == Ok(Described(db, db.entries, q, os, like))
    ensures PageRows(db, c, q, like)
        == Ok(Page(Sort(Described(db, db.entries, q, os, like), q.ascending), q.limit, q.offset))
  {
    var clauses := CompiledIs(q, c, os);
    ClausesMeanPredicate(q, c, clauses, db, os, like);
  }

  /** A last operand that cannot be read spoils the whole conjunction. */
  lemma {:induction false} BadLastOperand(
    pieces: seq<Piece>, last: Piece, row: Row, like: Like, vs: seq<bool>, more: seq<Param>)
    requires Operands(pieces, row, like, vs)
    requires ReadAtom(last.text, last.params + more, row, like) == Bad
    ensures ReadAnd(Join(Texts(pieces + [last]), AndKw), Params(pieces + [last]) + more, row, like) == Bad
  {
    var all := pieces + [last];
    JoinUnfolds(all, AndKw, [], more);
    assert Join(Texts(all), AndKw) + [] == Join(Texts(all), AndKw);
    if pieces == [] {
      assert last.text + [] == last.text && Params(all[1..]) + more == more;
    } else {
      assert all[1..] == pieces[1..] + [last];
      BadLastOperand(pieces[1..], last, row, like, vs[1..], more);
      var tail := Join(Texts(all[1..]), AndKw);
      assert tail + [] == tail;
      ReadsInFront(pieces[0], row, like, vs[0], tail, Params(all[1..]) + more);
    }
  }

  /** A read-state filter without a user names a table the statement does not join: the database rejects it. */
  lemma StatementNeedsUser(q: EntryQuery, c: Compiled, db: Db, os: Platform, like: Like)
    requires os.Valid() && Compile(q, os) == Ok(c)
    ensures CountRows(db, c, q, like).Ok? <==> (q.readState.Some? ==> Truthy(q.username))
  {
    var clauses := CompiledIs(q, c, os);
    if q.readState.Some? && !Truthy(q.username) {
      WithoutUserRejected(q, c, clauses, db, os, like);
    } else {
      ClausesMeanPredicate(q, c, clauses, db, os, like);
    }
  }

  lemma WithoutUserRejected(q: EntryQuery, c: Compiled, clauses: seq<Piece>, db: Db, os: Platform, like: Like)
    requires os.Valid() && EntryClauses(q, os) == Ok(clauses)
    requires q.readState.Some? && !Truthy(q.username)
    requires var pieces := clauses + ReadClause(q.readState);
             c == Compiled(Truthy(q.username), Texts(pieces), UserParams(q.username) + Params(pieces))
    ensures CountRows(db, c, q, like) == Err(Rejected)
  {
    var (last, row) := (ReadClause(q.readState)[0], JoinedRow(db, None, BLANK));
    EntryClausesMean(q, row, os, like);
    var vs :| Operands(clauses, row, like, vs) && EntrySelected(q, BLANK, os, like) == (false !in vs);
    BadLastOperand(clauses, last, row, like, vs, []);
    BindsUser(q, Params(clauses + [last]), []);
    assert c.params + [] == c.params;
  }

  // ---- placeholders and parameters -----------------------------------------------------------

  function CountMarks(toks: seq<Token>): nat {
    if toks == [] then 0 else (if toks[0] == Mark then 1 else 0) + CountMarks(toks[1..])
  }

  /** A reading that succeeds has passed as many placeholders as it took parameters. */
  predicate Balanced(r: Reading, toks: seq<Token>, ps: seq<Param>) {
    r.Done? ==> CountMarks(toks) - CountMarks(r.rest) == |ps| - |r.left|
  }

  /** Whatever the reader accepts, the placeholders it passes are the parameters it takes. */
  lemma {:induction false} EveryMarkTakesOneParameter(toks: seq<Token>, ps: seq<Param>, row: Row, like: Like)
    ensures Balanced(ReadOr(toks, ps, row, like), toks, ps)
    decreases |toks|, 2
  {
    AndMarks(toks, ps, row, like);
    var r := ReadAnd(toks, ps, row, like);
    if r.Done? && r.rest != [] && r.rest[0] == OrKw {
      EveryMarkTakesOneParameter(r.rest[1..], r.left, row, like);
    }
  }

  lemma {:induction false} AndMarks(toks: seq<Token>, ps: seq<Param>, row: Row, like: Like)
    ensures Balanced(ReadAnd(toks, ps, row, like), toks, ps)
    decreases |toks|, 1
  {
    AtomMarks(toks, ps, row, like);
    var r := ReadAtom(toks, ps, row, like);
    if r.Done? && r.rest != [] && r.rest[0] == AndKw {
      AndMarks(r.rest[1..], r.left, row, like);
    }
  }

  lemma {:induction false} AtomMarks(toks: seq<Token>, ps: seq<Param>, row: Row, like: Like)
    ensures Balanced(ReadAtom(toks, ps, row, like), toks, ps)
    decreases |toks|, 0
  {
    if toks == [] {
    } else if toks[0] == LParen {
      EveryMarkTakesOneParameter(toks[1..], ps, row, like);
    } else if toks[0].Col? {
      ComparisonMarks(Get(row.entry, toks[0].column), toks[1..], ps, like);
    } else if toks[0] == ReadAt && |toks| >= 2 {
      assert toks[2..] == toks[1..][1..];
    }
  }

  lemma ComparisonMarks(actual: string, toks: seq<Token>, ps: seq<Param>, like: Like)
    ensures Balanced(ReadComparison(actual, toks, ps, like), toks, ps)
  {
    if |toks| >= 2 {
      assert toks[1..][1..] == toks[2..];
      ListMarks(actual, toks[2..], ps);
    }
  }

  lemma {:induction false} ListMarks(actual: string, toks: seq<Token>, ps: seq<Param>)
    ensures Balanced(ReadList(actual, toks, ps), toks, ps)
  {
    if |toks| >= 2 && ps != [] {
      assert toks[1..][1..] == toks[2..];
      ListMarks(actual, toks[2..], ps[1..]);
    }
  }

  /** Text and bindings agree: one parameter per placeholder, the joined user's included. */
  lemma PlaceholdersMatchParameters(q: EntryQuery, c: Compiled, db: Db, os: Platform, like: Like)
    requires os.Valid() && Compile(q, os) == Ok(c)
    requires q.readState.Some? ==> Truthy(q.username)
    ensures |c.params| == (if c.join then 1 else 0) + CountMarks(Join(c.where, AndKw))
  {
    var clauses := CompiledIs(q, c, os);
    var pieces := clauses + ReadClause(q.readState);
    var row := JoinedRow(db, UserOf(q), BLANK);
    RowVerdict(q, clauses, row, os, like, []);
    assert Params(pieces) + [] == Params(pieces);
    EveryMarkTakesOneParameter(Join(c.where, AndKw), Params(pieces), row, like);
  }

  /** Every page of one query is a slice of one and the same ordered list. */
  lemma PagesShareOneList(q: EntryQuery, c: Compiled, db: Db, os: Platform, like: Like, limit: int, offset: int)
    requires os.Valid() && Compile(q, os) == Ok(c)
    requires q.readState.Some? ==> Truthy(q.username)
    ensures PageRows(db, c, q.(limit := limit, offset := offset), like)
            == Ok(Page(Sort(Described(db, db.entries, q, os, like), q.ascending), limit, offset))
  {
    var page := q.(limit := limit, offset := offset);
    assert EntryClauses(page, os) == EntryClauses(q, os) && Compile(page, os) == Compile(q, os);
    QueryMeansPredicate(page, c, db, os, like);
    SameDescription(db, db.entries, q, page, os, like);
  }

  /** That list holds each described row once, in order, and its consecutive pages put together are all of it. */
  lemma PagesCoverDescribedRows(db: Db, q: EntryQuery, os: Platform, like: Like, limit: nat)
    requires os.Valid() && limit > 0 && DistinctIds(db.entries)
    ensures var rows := Sort(Described(db, db.entries, q, os, like), q.ascending);
            && PagesFrom(rows, limit, 0) == rows
            && Ordered(rows, q.ascending)
            && forall e :: e in rows
                <==> e in db.entries && e.archiveId in db.archives && Selects(q, JoinedRow(db, UserOf(q), e), os, like)
  {
    var described := Described(db, db.entries, q, os, like);
    DescribedIsDistinct(db, db.entries, q, os, like);
    SortOrdered(described, q.ascending);
    PagesConcatenate(Sort(described, q.ascending), limit, 0);
    forall e ensures e in Sort(described, q.ascending) <==> e in described {
      InSort(described, q.ascending, e);
    }
  }

  /** The page asked for does not change which rows are described. */
  lemma {:induction false} SameDescription(
    db: Db, rows: seq<Entry>, q: EntryQuery, page: EntryQuery, os: Platform, like: Like)
    requires os.Valid() && page == q.(limit := page.limit, offset := page.offset)
    ensures Described(db, rows, page, os, like) == Described(db, rows, q, os, like)
  {
    if rows != [] {
      SameDescription(db, rows[1..], q, page, os, like);
      var row := JoinedRow(db, UserOf(q), rows[0]);
      assert Selects(page, row, os, like) == Selects(q, row, os, like);
    }
  }

  lemma {:induction false} DescribedIsDistinct(db: Db, rows: seq<Entry>, q: EntryQuery, os: Platform, like: Like)
    requires os.Valid() && DistinctIds(rows)
    ensures DistinctIds(Described(db, rows, q, os, like))
    ensures forall e :: e in Described(db, rows, q, os, like) <==>
              e in rows && e.archiveId in db.archives && Selects(q, JoinedRow(db, UserOf(q), e), os, like)
  {
    if rows != [] {
      DescribedIsDistinct(db, rows[1..], q, os, like);
      assert rows == [rows[0]] + rows[1..];
    }
  }
}
