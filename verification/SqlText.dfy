/**
  The WHERE text that the message archive sends to the database, as tokens, and a
  reading of that text with the database's own grammar: OR binds weaker than AND,
  parentheses group, and each '?' takes the next positional parameter. A fragment
  that lacks its parentheses, or a parameter in the wrong place, changes what this
  reading returns.
 */
module SqlText {
  import opened Wrappers
  import opened TextOrder
  import opened ArchiveModel

  datatype Column = ArchiveId | Kind | Severity | Status | Source | CreatedAt | Title | Message

  datatype Token =
    | LParen | RParen | AndKw | OrKw | Comma | Mark | Zero | One
    | Col(column: Column) | InKw | GeOp | LeOp | EqOp | LikeKw
    | ReadAt | IsNull | IsNotNull

  datatype Param = Text(text: string) | Number(number: int)

  /** One result row of the joins: the entry, and its read time when the read states are joined. */
  datatype Row = Row(entry: Entry, joined: bool, readAt: Option<string>)

  type Like = (string, string) -> bool

  function Get(e: Entry, c: Column): string {
    match c
    case ArchiveId => e.archiveId
    case Kind => e.kind
    case Severity => e.severity
    case Status => e.status
    case Source => e.source
    case CreatedAt => e.createdAt
    case Title => e.title
    case Message => e.message
  }

  // ---- reading the text -----------------------------------------------------------

  /** Either the database rejects the text or its bindings, or it yields a truth value and what is left. */
  datatype Reading = Bad | Done(value: bool, rest: seq<Token>, left: seq<Param>)

  function ReadOr(toks: seq<Token>, ps: seq<Param>, row: Row, like: Like): (r: Reading)
    ensures r.Done? ==> |r.rest| < |toks|
    decreases |toks|, 2
  {
    match ReadAnd(toks, ps, row, like)
    case Bad => Bad
    case Done(v, rest, left) =>
      if rest != [] && rest[0] == OrKw then
        match ReadOr(rest[1..], left, row, like)
        case Bad => Bad
        case Done(w, rest', left') => Done(v || w, rest', left')
      else Done(v, rest, left)
  }

  function ReadAnd(toks: seq<Token>, ps: seq<Param>, row: Row, like: Like): (r: Reading)
    ensures r.Done? ==> |r.rest| < |toks|
    decreases |toks|, 1
  {
    match ReadAtom(toks, ps, row, like)
    case Bad => Bad
    case Done(v, rest, left) =>
      if rest != [] && rest[0] == AndKw then
        match ReadAnd(rest[1..], left, row, like)
        case Bad => Bad
        case Done(w, rest', left') => Done(v && w, rest', left')
      else Done(v, rest, left)
  }

  function ReadAtom(toks: seq<Token>, ps: seq<Param>, row: Row, like: Like): (r: Reading)
    ensures r.Done? ==> |r.rest| < |toks|
    decreases |toks|, 0
  {
    if toks == [] then Bad
    else match toks[0]
      case Zero => Done(false, toks[1..], ps)
      case One => Done(true, toks[1..], ps)
      case LParen => (
        match ReadOr(toks[1..], ps, row, like)
        case Bad => Bad
        case Done(v, rest, left) =>
          if rest != [] && rest[0] == RParen then Done(v, rest[1..], left) else Bad)
      case Col(c) => ReadComparison(Get(row.entry, c), toks[1..], ps, like)
      case ReadAt =>
        if !row.joined || |toks| < 2 then Bad
        else if toks[1] == IsNull then Done(row.readAt.None?, toks[2..], ps)
        else if toks[1] == IsNotNull then Done(row.readAt.Some?, toks[2..], ps)
        else Bad
      case _ => Bad
  }

  function ReadComparison(actual: string, toks: seq<Token>, ps: seq<Param>, like: Like): (r: Reading)
    ensures r.Done? ==> |r.rest| < |toks|
  {
    if |toks| < 2 then Bad
    else if toks[0] == InKw then
      if toks[1] == LParen then ReadList(actual, toks[2..], ps) else Bad
    else if toks[1] != Mark || ps == [] || !ps[0].Text? then Bad
    else
      var bound := ps[0].text;
      if toks[0] in {GeOp, LeOp, EqOp, LikeKw} then Done(Compare(toks[0], actual, bound, like), toks[2..], ps[1..])
          else Bad
  }

  predicate Compare(op: Token, actual: string, bound: string, like: Like)
    requires op in {GeOp, LeOp, EqOp, LikeKw}
  {
    match op
    case GeOp => !Less(actual, bound)
    case LeOp => !Less(bound, actual)
    case EqOp => actual == bound
    case _ => like(bound, actual)
  }

  /** "?, ?, … )" after "IN (". */
  function ReadList(actual: string, toks: seq<Token>, ps: seq<Param>): (r: Reading)
    ensures r.Done? ==> |r.rest| < |toks|
  {
    if |toks| < 2 || toks[0] != Mark || ps == [] || !ps[0].Text? then Bad
    else
      var here := actual == ps[0].text;
      if toks[1] == RParen then Done(here, toks[2..], ps[1..])
      else if toks[1] == Comma then
        match ReadList(actual, toks[2..], ps[1..])
        case Bad => Bad
        case Done(v, rest, left) => Done(here || v, rest, left)
      else Bad
  }

  // ---- writing the text -----------------------------------------------------------

  /** A fragment and the parameters its placeholders take, in order. */
  datatype Piece = Piece(text: seq<Token>, params: seq<Param>)

  function Texts(pieces: seq<Piece>): (r: seq<seq<Token>>)
    ensures |r| == |pieces|
  {
    if pieces == [] then [] else [pieces[0].text] + Texts(pieces[1..])
  }

  function Params(pieces: seq<Piece>): seq<Param> {
    if pieces == [] then [] else pieces[0].params + Params(pieces[1..])
  }

  /** ' AND '.join / ' OR '.join. */
  function Join(texts: seq<seq<Token>>, separator: Token): seq<Token> {
    if texts == [] then []
    else if |texts| == 1 then texts[0]
    else texts[0] + [separator] + Join(texts[1..], separator)
  }

  function Marks(n: nat): seq<Token>
    requires n > 0
  {
    if n == 1 then [Mark] else [Mark, Comma] + Marks(n - 1)
  }

  function AsParams(values: seq<string>): (r: seq<Param>)
    ensures |r| == |values|
    ensures forall i :: 0 <= i < |r| ==> r[i] == Text(values[i])
  {
    seq(|values|, i requires 0 <= i < |values| => Text(values[i]))
  }

  function InText(c: Column, n: nat): seq<Token>
    requires n > 0
  {
    [Col(c), InKw, LParen] + Marks(n) + [RParen]
  }

  lemma TextsAppend(a: seq<Piece>, b: seq<Piece>)
    ensures Texts(a + b) == Texts(a) + Texts(b)
    ensures Params(a + b) == Params(a) + Params(b)
  {
    OnlyTextsAppend(a, b);
    ParamsAppend(a, b);
  }

  lemma {:induction false} OnlyTextsAppend(a: seq<Piece>, b: seq<Piece>)
    ensures Texts(a + b) == Texts(a) + Texts(b)
  {
    if a == [] {
      assert a + b == b;
    } else {
      assert (a + b)[0] == a[0] && (a + b)[1..] == a[1..] + b;
      OnlyTextsAppend(a[1..], b);
    }
  }

  lemma {:induction false} ParamsAppend(a: seq<Piece>, b: seq<Piece>)
    ensures Params(a + b) == Params(a) + Params(b)
  {
    if a == [] {
      assert a + b == b;
    } else {
      assert (a + b)[0] == a[0] && (a + b)[1..] == a[1..] + b;
      ParamsAppend(a[1..], b);
    }
  }

  // ---- what a fragment means ---------------------------------------------------

  /** Wherever it stands, the piece reads as one operand with value v and takes exactly its own parameters. */
  ghost predicate Operand(p: Piece, row: Row, like: Like, v: bool) {
    forall rest, more {:trigger ReadAtom(p.text + rest, p.params + more, row, like)} ::
      ReadAtom(p.text + rest, p.params + more, row, like) == Done(v, rest, more)
  }

  lemma {:induction false} ListReads(actual: string, values: seq<string>, rest: seq<Token>, more: seq<Param>)
    requires values != []
    ensures ReadList(actual, Marks(|values|) + [RParen] + rest, AsParams(values) + more)
            == Done(actual in values, rest, more)
  {
    var toks, ps := Marks(|values|) + [RParen] + rest, AsParams(values) + more;
    assert ps[0] == Text(values[0]);
    assert ps[1..] == AsParams(values[1..]) + more;
    if |values| == 1 {
      assert toks[2..] == rest && AsParams(values[1..]) + more == more;
    } else {
      assert toks[2..] == Marks(|values[1..]|) + [RParen] + rest;
      ListReads(actual, values[1..], rest, more);
      assert actual in values <==> actual == values[0] || actual in values[1..];
    }
  }

  lemma InReads(c: Column, values: seq<string>, rest: seq<Token>, more: seq<Param>, row: Row, like: Like)
    requires values != []
    ensures ReadAtom(InText(c, |values|) + rest, AsParams(values) + more, row, like)
        == Done(Get(row.entry, c) in values, rest, more)
  {
    var toks := InText(c, |values|) + rest;
    assert toks[1..][2..] == Marks(|values|) + [RParen] + rest;
    ListReads(Get(row.entry, c), values, rest, more);
  }

  lemma InIsOperand(c: Column, values: seq<string>, row: Row, like: Like)
    requires values != []
    ensures Operand(Piece(InText(c, |values|), AsParams(values)), row, like, Get(row.entry, c) in values)
  {
    var v := Get(row.entry, c) in values;
    forall rest, more
      ensures ReadAtom(InText(c, |values|) + rest, AsParams(values) + more, row, like) == Done(v, rest, more)
    {
      InReads(c, values, rest, more, row, like);
    }
  }

  lemma ComparisonIsOperand(c: Column, op: Token, bound: string, row: Row, like: Like)
    requires op in {GeOp, LeOp, EqOp, LikeKw}
    ensures Operand(Piece([Col(c), op, Mark], [Text(bound)]), row, like, Compare(op, Get(row.entry, c), bound, like))
  {
    var v := Compare(op, Get(row.entry, c), bound, like);
    forall rest: seq<Token>, more: seq<Param>
      ensures ReadAtom([Col(c), op, Mark] + rest, [Text(bound)] + more, row, like) == Done(v, rest, more)
    {
      var toks := [Col(c), op, Mark] + rest;
      assert toks[1..][2..] == rest && ([Text(bound)] + more)[1..] == more;
    }
  }

  lemma ConstantIsOperand(row: Row, like: Like)
    ensures Operand(Piece([Zero], []), row, like, false)
    ensures Operand(Piece([One], []), row, like, true)
  {
    forall rest: seq<Token>, more: seq<Param>
      ensures ReadAtom([Zero] + rest, [] + more, row, like) == Done(false, rest, more)
      ensures ReadAtom([One] + rest, [] + more, row, like) == Done(true, rest, more)
    {
      assert ([Zero] + rest)[1..] == rest && ([One] + rest)[1..] == rest && [] + more == more;
    }
  }

  /** Pieces with values vs, one for one. */
  ghost predicate Operands(pieces: seq<Piece>, row: Row, like: Like, vs: seq<bool>) {
    |vs| == |pieces| && forall i :: 0 <= i < |pieces| ==> Operand(pieces[i], row, like, vs[i])
  }

  /** One more piece in front of text that already reads as a conjunction or a disjunction. */
  lemma ReadsInFront(p: Piece, row: Row, like: Like, v: bool, text: seq<Token>, ps: seq<Param>)
    requires Operand(p, row, like, v)
    ensures ReadAnd(p.text + ([AndKw] + text), p.params + ps, row, like)
            == (match ReadAnd(text, ps, row, like) case Bad => Bad case Done(w, rest, left) => Done(v && w, rest, left))
    ensures ReadOr(p.text + ([OrKw] + text), p.params + ps, row, like)
            == (match ReadOr(text, ps, row, like) case Bad => Bad case Done(w, rest, left) => Done(v || w, rest, left))
  {
    var andTail, orTail := [AndKw] + text, [OrKw] + text;
    assert andTail[1..] == text && orTail[1..] == text;
    assert ReadAtom(p.text + andTail, p.params + ps, row, like) == Done(v, andTail, ps);
    assert ReadAtom(p.text + orTail, p.params + ps, row, like) == Done(v, orTail, ps);
  }

  lemma ReadsAlone(p: Piece, row: Row, like: Like, v: bool, rest: seq<Token>, more: seq<Param>)
    requires Operand(p, row, like, v)
    requires rest == [] || rest[0] != AndKw
    ensures ReadAnd(p.text + rest, p.params + more, row, like) == Done(v, rest, more)
    ensures rest == [] || rest[0] != OrKw ==> ReadOr(p.text + rest, p.params + more, row, like) == Done(v, rest, more)
  {
    assert ReadAtom(p.text + rest, p.params + more, row, like) == Done(v, rest, more);
  }

  lemma JoinUnfolds(pieces: seq<Piece>, separator: Token, rest: seq<Token>, more: seq<Param>)
    requires pieces != []
    ensures Params(pieces) + more == pieces[0].params + (Params(pieces[1..]) + more)
    ensures Join(Texts(pieces), separator) + rest
            == pieces[0].text + (if |pieces| == 1 then rest
                else [separator] + (Join(Texts(pieces[1..]), separator) + rest))
  {
    var texts := Texts(pieces);
    var head, tail := pieces[0], Texts(pieces[1..]);
    assert texts[0] == head.text && texts[1..] == tail;
    Regroup(head.params, Params(pieces[1..]), more, []);
    if |pieces| > 1 {
      Regroup(head.text, [separator], Join(tail, separator), rest);
    }
  }

  lemma Regroup<T>(a: seq<T>, b: seq<T>, c: seq<T>, d: seq<T>)
    ensures a + b + c == a + (b + c)
    ensures a + b + c + d == a + (b + (c + d))
  {
  }

  lemma {:induction false} AndReads(
    pieces: seq<Piece>, row: Row, like: Like, vs: seq<bool>, rest: seq<Token>, more: seq<Param>)
    requires pieces != [] && Operands(pieces, row, like, vs)
    requires rest == [] || rest[0] != AndKw
    ensures ReadAnd(Join(Texts(pieces), AndKw) + rest, Params(pieces) + more, row, like)
            == Done(false !in vs, rest, more)
  {
    JoinUnfolds(pieces, AndKw, rest, more);
    assert vs == [vs[0]] + vs[1..];
    if |pieces| == 1 {
      assert Params(pieces[1..]) + more == more;
      ReadsAlone(pieces[0], row, like, vs[0], rest, more);
    } else {
      AndReads(pieces[1..], row, like, vs[1..], rest, more);
      ReadsInFront(pieces[0], row, like, vs[0], Join(Texts(pieces[1..]), AndKw) + rest, Params(pieces[1..]) + more);
    }
  }

  lemma {:induction false} OrReads(
    pieces: seq<Piece>, row: Row, like: Like, vs: seq<bool>, rest: seq<Token>, more: seq<Param>)
    requires pieces != [] && Operands(pieces, row, like, vs)
    requires rest == [] || (rest[0] != AndKw && rest[0] != OrKw)
    ensures ReadOr(Join(Texts(pieces), OrKw) + rest, Params(pieces) + more, row, like)
            == Done(true in vs, rest, more)
  {
    JoinUnfolds(pieces, OrKw, rest, more);
    assert vs == [vs[0]] + vs[1..];
    if |pieces| == 1 {
      assert Params(pieces[1..]) + more == more;
      ReadsAlone(pieces[0], row, like, vs[0], rest, more);
    } else {
      OrReads(pieces[1..], row, like, vs[1..], rest, more);
      ReadsInFront(pieces[0], row, like, vs[0], Join(Texts(pieces[1..]), OrKw) + rest, Params(pieces[1..]) + more);
    }
  }

  function Parenthesized(pieces: seq<Piece>, separator: Token): Piece {
    Piece([LParen] + Join(Texts(pieces), separator) + [RParen], Params(pieces))
  }

  /** A single conjunction is also a disjunction. */
  lemma AndIsOr(toks: seq<Token>, ps: seq<Param>, row: Row, like: Like, v: bool, rest: seq<Token>, left: seq<Param>)
    requires ReadAnd(toks, ps, row, like) == Done(v, rest, left)
    requires rest == [] || rest[0] != OrKw
    ensures ReadOr(toks, ps, row, like) == Done(v, rest, left)
  {
  }

  lemma ClosesParenthesis(
    inner: seq<Token>, ps: seq<Param>, row: Row, like: Like, v: bool, rest: seq<Token>, left: seq<Param>)
    requires ReadOr(inner + ([RParen] + rest), ps, row, like) == Done(v, [RParen] + rest, left)
    ensures ReadAtom(([LParen] + inner + [RParen]) + rest, ps, row, like) == Done(v, rest, left)
  {
    assert (([LParen] + inner + [RParen]) + rest)[1..] == inner + ([RParen] + rest);
    assert ([RParen] + rest)[1..] == rest;
  }

  /** In parentheses, a conjunction or a disjunction is a single operand. */
  lemma ParenthesizedIsOperand(pieces: seq<Piece>, row: Row, like: Like, vs: seq<bool>)
    requires pieces != [] && Operands(pieces, row, like, vs)
    ensures Operand(Parenthesized(pieces, AndKw), row, like, false !in vs)
    ensures Operand(Parenthesized(pieces, OrKw), row, like, true in vs)
  {
    var every, some := false !in vs, true in vs;
    var ands, ors := Join(Texts(pieces), AndKw), Join(Texts(pieces), OrKw);
    forall rest: seq<Token>, more: seq<Param>
      ensures ReadAtom(([LParen] + ands + [RParen]) + rest, Params(pieces) + more, row, like) == Done(every, rest, more)
      ensures ReadAtom(([LParen] + ors + [RParen]) + rest, Params(pieces) + more, row, like) == Done(some, rest, more)
    {
      var close := [RParen] + rest;
      AndReads(pieces, row, like, vs, close, more);
      AndIsOr(ands + close, Params(pieces) + more, row, like, every, close, more);
      ClosesParenthesis(ands, Params(pieces) + more, row, like, every, rest, more);
      OrReads(pieces, row, like, vs, close, more);
      ClosesParenthesis(ors, Params(pieces) + more, row, like, some, rest, more);
    }
  }
}
