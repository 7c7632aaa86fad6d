/**
  The tables of the message archive (obs/message_archive.py): archives, entries and
  read states, the normal form of archive ids, and the order "created_at, id" that
  every listing and the retention rule use.
 */
module ArchiveModel {
  import opened Wrappers
  import opened TextOrder
  import opened Timestamps

  datatype Entry = Entry(
    id: string, archiveId: string, createdAt: string, kind: string, severity: string,
    status: string, source: string, title: string, message: string)

  datatype Settings = Settings(defaultType: Option<string>, maxEntries: Option<int>, maxAgeDays: Option<int>)

  datatype ArchiveError = EmptyId | IdTooLong | IllegalCharacter | ReservedId

  const RESERVED_ARCHIVE_IDS := {"entries", "export", "import", "integrity-check"}

  function NormalizeArchiveId(value: string, os: Platform): (r: Result<string, ArchiveError>) {
    var id := os.lower(Strip(value, os.isSpace));
    if id == "" then Err(EmptyId)
    else if |id| > 80 then Err(IdTooLong)
    else if exists c :: c in id && !IsIdChar(c) then Err(IllegalCharacter)
    else if id in RESERVED_ARCHIVE_IDS then Err(ReservedId)
    else Ok(id)
  }

  /** Normalizing twice is normalizing once, so the layers that each normalize agree on the key. */
  lemma NormalizeIsIdempotent(value: string, os: Platform)
    requires os.Valid() && NormalizeArchiveId(value, os).Ok?
    ensures NormalizeArchiveId(NormalizeArchiveId(value, os).value, os) == NormalizeArchiveId(value, os)
  {
    var id := NormalizeArchiveId(value, os).value;
    assert id[0] in id && id[|id| - 1] in id;
    assert Strip(id, os.isSpace) == id;
    assert os.lower(id) == id;
  }

  /** Which ids are accepted, and why the others are not: the first reason counts. */
  lemma ArchiveIdExactly(value: string, os: Platform)
    ensures var id := os.lower(Strip(value, os.isSpace));
            NormalizeArchiveId(value, os)
            == if id == "" then Err(EmptyId)
               else if |id| >= 81 then Err(IdTooLong)
               else if !(forall c :: c in id ==> 'a' <= c <= 'z' || '0' <= c <= '9' || c == '.' || c == '_' || c == '-')
                    then Err(IllegalCharacter)
               else if id == "entries" || id == "export" || id == "import" || id == "integrity-check"
                    then Err(ReservedId)
               else Ok(id)
  {
  }

  // ---- the order created_at, id -------------------------------------------------

  predicate Older(a: Entry, b: Entry) {
    Less(a.createdAt, b.createdAt) || (a.createdAt == b.createdAt && Less(a.id, b.id))
  }

  lemma OlderIsStrictOrder(a: Entry, b: Entry, c: Entry)
    ensures !Older(a, a)
    ensures Older(a, b) ==> !Older(b, a)
    ensures Older(a, b) && Older(b, c) ==> Older(a, c)
    ensures a.id != b.id ==> Older(a, b) || Older(b, a)
  {
    LessIrreflexive(a.createdAt);
    LessIrreflexive(a.id);
    LessTotal(a.createdAt, b.createdAt);
    LessTotal(a.id, b.id);
    if Less(a.createdAt, b.createdAt) { LessAsymmetric(a.createdAt, b.createdAt); }
    if Less(a.id, b.id) { LessAsymmetric(a.id, b.id); }
    if Less(a.createdAt, b.createdAt)
        && Less(b.createdAt, c.createdAt) { LessTransitive(a.createdAt, b.createdAt, c.createdAt); }
    if Less(a.id, b.id) && Less(b.id, c.id) { LessTransitive(a.id, b.id, c.id); }
  }

  predicate Precedes(a: Entry, b: Entry, ascending: bool) {
    if ascending then Older(a, b) else Older(b, a)
  }

  /** The primary key: no two rows share an id. */
  ghost predicate DistinctIds(rows: seq<Entry>) {
    forall i, j :: 0 <= i < j < |rows| ==> rows[i].id != rows[j].id
  }

  ghost predicate Ordered(rows: seq<Entry>, ascending: bool) {
    forall i, j :: 0 <= i < j < |rows| ==> Precedes(rows[i], rows[j], ascending)
  }

  function Insert(e: Entry, rows: seq<Entry>, ascending: bool): (r: seq<Entry>)
    ensures multiset(r) == multiset(rows) + multiset{e}
    ensures |r| == |rows| + 1
  {
    if rows == [] then [e]
    else if Precedes(e, rows[0], ascending) then [e] + rows
    else
      assert rows == [rows[0]] + rows[1..];
      [rows[0]] + Insert(e, rows[1..], ascending)
  }

  function Sort(rows: seq<Entry>, ascending: bool): (r: seq<Entry>)
    ensures multiset(r) == multiset(rows)
    ensures |r| == |rows|
  {
    if rows == [] then []
    else
      assert rows == [rows[0]] + rows[1..];
      Insert(rows[0], Sort(rows[1..], ascending), ascending)
  }

  lemma InSort(rows: seq<Entry>, ascending: bool, e: Entry)
    ensures e in Sort(rows, ascending) <==> e in rows
  {
    assert e in Sort(rows, ascending) <==> e in multiset(Sort(rows, ascending));
  }

  lemma PrecedesIsStrictOrder(a: Entry, b: Entry, c: Entry, ascending: bool)
    ensures Precedes(a, b, ascending) && Precedes(b, c, ascending) ==> Precedes(a, c, ascending)
    ensures a.id != b.id ==> Precedes(a, b, ascending) || Precedes(b, a, ascending)
    ensures !(Precedes(a, b, ascending) && Precedes(b, a, ascending))
  {
    OlderIsStrictOrder(a, b, c);
    OlderIsStrictOrder(c, b, a);
  }

  lemma OrderedCons(e: Entry, rows: seq<Entry>, ascending: bool)
    requires Ordered(rows, ascending)
    requires forall x :: x in rows ==> Precedes(e, x, ascending)
    ensures Ordered([e] + rows, ascending)
  {
    var all := [e] + rows;
    forall i, j | 0 <= i < j < |all| ensures Precedes(all[i], all[j], ascending) {
      if i > 0 { assert all[i] == rows[i - 1] && all[j] == rows[j - 1]; }
    }
  }

  lemma {:induction false} InsertOrdered(e: Entry, rows: seq<Entry>, ascending: bool)
    requires Ordered(rows, ascending)
    requires forall x :: x in rows ==> x.id != e.id
    ensures Ordered(Insert(e, rows, ascending), ascending)
  {
    if rows == [] {
    } else if Precedes(e, rows[0], ascending) {
      forall x | x in rows ensures Precedes(e, x, ascending) {
        var i :| 0 <= i < |rows| && rows[i] == x;
        PrecedesIsStrictOrder(e, rows[0], x, ascending);
      }
      OrderedCons(e, rows, ascending);
    } else {
      PrecedesIsStrictOrder(e, rows[0], e, ascending);
      var r := Insert(e, rows[1..], ascending);
      InsertOrdered(e, rows[1..], ascending);
      forall x | x in r ensures Precedes(rows[0], x, ascending) {
        assert x in multiset(r);
        assert x == e || x in rows[1..];
      }
      OrderedCons(rows[0], r, ascending);
    }
  }

  lemma {:induction false} SortOrdered(rows: seq<Entry>, ascending: bool)
    requires DistinctIds(rows)
    ensures Ordered(Sort(rows, ascending), ascending)
  {
    if rows != [] {
      SortOrdered(rows[1..], ascending);
      var r := Sort(rows[1..], ascending);
      forall x | x in r ensures x.id != rows[0].id {
        InSort(rows[1..], ascending, x);
      }
      InsertOrdered(rows[0], r, ascending);
    }
  }

  /** Ascending is oldest first, descending newest first. */
  lemma SortedExactly(rows: seq<Entry>, i: nat, j: nat)
    requires DistinctIds(rows) && i < j < |rows|
    ensures var (up, down) := (Sort(rows, true), Sort(rows, false));
            && (Less(up[i].createdAt, up[j].createdAt)
                || (up[i].createdAt == up[j].createdAt && Less(up[i].id, up[j].id)))
            && (Less(down[j].createdAt, down[i].createdAt)
                || (down[j].createdAt == down[i].createdAt && Less(down[j].id, down[i].id)))
  {
    SortOrdered(rows, true);
    SortOrdered(rows, false);
    assert Precedes(Sort(rows, true)[i], Sort(rows, true)[j], true);
    assert Precedes(Sort(rows, false)[i], Sort(rows, false)[j], false);
  }

  // ---- paging -------------------------------------------------------------------

  /** LIMIT and OFFSET as the database reads them: a negative limit is none, a negative offset is zero. */
  function Page<T>(rows: seq<T>, limit: int, offset: int): (r: seq<T>)
    ensures limit >= 0 ==> |r| <= limit
  {
    var from := if offset < 0 then 0 else if offset < |rows| then offset else |rows|;
    var to := if limit < 0 || from + limit > |rows| then |rows| else from + limit;
    rows[from..to]
  }

  function PagesFrom<T>(rows: seq<T>, limit: nat, offset: nat): seq<T>
    requires limit > 0
    decreases |rows| - offset
  {
    if offset >= |rows| then [] else Page(rows, limit, offset) + PagesFrom(rows, limit, offset + limit)
  }

  /** Consecutive pages put together are the whole list from the first one's offset on. */
  lemma {:induction false} PagesConcatenate<T>(rows: seq<T>, limit: nat, offset: nat)
    requires limit > 0 && offset <= |rows|
    ensures PagesFrom(rows, limit, offset) == rows[offset..]
    decreases |rows| - offset
  {
    if offset + limit <= |rows| && offset < |rows| {
      PagesConcatenate(rows, limit, offset + limit);
    }
  }
}
