/**
  MessageArchiveStore: recording entries and enforcing retention. The store's methods
  change the tables step by step; Kept says what retention leaves, and the lemmas say
  that this is exactly the newest entries that are not too old, that doing it twice
  changes nothing more, and that text comparisons are comparisons of instants.
 */
module MessageStore {
  import opened Wrappers
  import opened TextOrder
  import opened Timestamps
  import opened ArchiveModel
  import opened SqlText
  import opened MessageQuery
  import opened QueryMeaning

  datatype StoreError =
    | Archive(archive: ArchiveError)
    | Time(time: TimestampError)
    | DuplicateId
    | RemovedByRetention
    | QueryFailed(query: QueryError)
    | Sql(sql: SqlError)

  // ---- what retention leaves --------------------------------------------------------

  /** The limits in force for one archive: an oldest text still kept, and a number of entries. */
  datatype Limits = Limits(cutoff: Option<string>, most: Option<nat>)

  predicate Positive(n: Option<int>) {
    n.Some? && n.value > 0
  }

  /** Settings that are missing, zero or negative do not limit; an age beyond the calendar overflows. */
  function LimitsOf(s: Settings, now: DateTime): Result<Limits, TimestampError>
    requires now.Valid()
  {
    var most: Option<nat> := if Positive(s.maxEntries) then Some(s.maxEntries.value) else None;
    if !Positive(s.maxAgeDays) then Ok(Limits(None, most))
    else
      var cutoff :- Cutoff(now, s.maxAgeDays.value);
      Ok(Limits(Some(cutoff), most))
  }

  /** A number of one or more limits, anything else does not; a day has 86,400 seconds. */
  lemma LimitsExactly(s: Settings, now: DateTime)
    requires now.Valid()
    ensures var (limited, aged) := (s.maxEntries.Some? && s.maxEntries.value >= 1,
                                    s.maxAgeDays.Some? && s.maxAgeDays.value >= 1);
            var r := LimitsOf(s, now);
            && (r.Err? <==> aged && s.maxAgeDays.value * 86_400_000_000 > Instant(now))
            && (r.Ok? ==>
                  && (if limited then r.value.most.Some? && r.value.most.value == s.maxEntries.value
                      else r.value.most.None?)
                  && (if aged then
                        exists dt: DateTime :: dt.Valid() && r.value.cutoff == Some(Iso(dt))
                          && Instant(dt) == Instant(now) - s.maxAgeDays.value * 86_400_000_000
                      else r.value.cutoff.None?))
  {
  }

  predicate Fresh(e: Entry, cutoff: Option<string>) {
    cutoff.Some? ==> !Less(e.createdAt, cutoff.value)
  }

  /** The entries of the archive that outrank e: not too old, and later by (created_at, id). */
  function Newer(rows: seq<Entry>, archive: string, cutoff: Option<string>, e: Entry): set<Entry> {
    set x | x in rows && x.archiveId == archive && Fresh(x, cutoff) && Older(e, x)
  }

  predicate Retained(rows: seq<Entry>, archive: string, limits: Limits, e: Entry) {
    e.archiveId != archive
    || (Fresh(e, limits.cutoff) && (limits.most.Some? ==> |Newer(rows, archive, limits.cutoff, e)| < limits.most.value))
  }

  function Filter(rows: seq<Entry>, keep: Entry -> bool): (r: seq<Entry>)
    ensures |r| <= |rows|
    ensures forall e :: e in r <==> e in rows && keep(e)
  {
    if rows == [] then []
    else if keep(rows[0]) then [rows[0]] + Filter(rows[1..], keep)
    else Filter(rows[1..], keep)
  }

  function InArchive(archive: string): Entry -> bool {
    (e: Entry) => e.archiveId == archive
  }

  function IsRetained(rows: seq<Entry>, archive: string, limits: Limits): Entry -> bool {
    (e: Entry) => Retained(rows, archive, limits, e)
  }

  /** What enforcing the limits leaves of the table, in table order. */
  function Kept(rows: seq<Entry>, archive: string, limits: Limits): seq<Entry> {
    Filter(rows, IsRetained(rows, archive, limits))
  }

  lemma DistinctCons(e: Entry, rows: seq<Entry>)
    requires DistinctIds(rows) && forall x :: x in rows ==> x.id != e.id
    ensures DistinctIds([e] + rows)
  {
    var all := [e] + rows;
    forall i, j | 0 <= i < j < |all| ensures all[i].id != all[j].id {
      assert all[j] == rows[j - 1];
      if i > 0 { assert all[i] == rows[i - 1]; }
    }
  }

  lemma {:induction false} FilterDistinct(rows: seq<Entry>, keep: Entry -> bool)
    requires DistinctIds(rows)
    ensures DistinctIds(Filter(rows, keep))
  {
    if rows != [] {
      FilterDistinct(rows[1..], keep);
      forall x | x in rows[1..] ensures x.id != rows[0].id {
        var i :| 0 <= i < |rows[1..]| && rows[1..][i] == x;
        assert rows[i + 1] == x;
      }
      DistinctCons(rows[0], Filter(rows[1..], keep));
    }
  }

  lemma {:induction false} FilterTwice(rows: seq<Entry>, p: Entry -> bool, q: Entry -> bool, both: Entry -> bool)
    requires forall e :: e in rows ==> both(e) == (p(e) && q(e))
    ensures Filter(Filter(rows, p), q) == Filter(rows, both)
  {
    if rows != [] {
      FilterTwice(rows[1..], p, q, both);
      assert rows[0] in rows && forall e :: e in rows[1..] ==> e in rows;
    }
  }

  lemma {:induction false} FilterSame(rows: seq<Entry>, p: Entry -> bool, q: Entry -> bool)
    requires forall e :: e in rows ==> p(e) == q(e)
    ensures Filter(rows, p) == Filter(rows, q)
  {
    if rows != [] {
      FilterSame(rows[1..], p, q);
      assert rows[0] in rows && forall e :: e in rows[1..] ==> e in rows;
    }
  }

  lemma {:induction false} FilterAll(rows: seq<Entry>, p: Entry -> bool)
    requires forall e :: e in rows ==> p(e)
    ensures Filter(rows, p) == rows
  {
    if rows != [] {
      FilterAll(rows[1..], p);
    }
  }

  // ---- the ordered subselect and its first rows ------------------------------------------

  function Elements(rows: seq<Entry>): set<Entry> {
    set x | x in rows
  }

  lemma {:induction false} DistinctCardinality(rows: seq<Entry>)
    requires forall i, j :: 0 <= i < j < |rows| ==> rows[i] != rows[j]
    ensures |Elements(rows)| == |rows|
  {
    if rows != [] {
      DistinctCardinality(rows[1..]);
      assert Elements(rows) == {rows[0]} + Elements(rows[1..]);
    }
  }

  /** In a list sorted newest first, the position of an entry is the number of entries newer than it. */
  lemma PositionIsRank(sorted: seq<Entry>, k: nat)
    requires Ordered(sorted, false) && k < |sorted|
    ensures |set x | x in sorted && Older(sorted[k], x)| == k
  {
    OrderedIsDistinct(sorted);
    DistinctCardinality(sorted[..k]);
    forall x ensures x in sorted && Older(sorted[k], x) <==> x in sorted[..k] {
      OlderIsStrictOrder(sorted[k], x, x);
      if x in sorted {
        var i :| 0 <= i < |sorted| && sorted[i] == x;
        if i < k { assert Precedes(sorted[i], sorted[k], false); }
        if i > k { assert Precedes(sorted[k], sorted[i], false); }
      }
    }
    assert (set x | x in sorted && Older(sorted[k], x)) == Elements(sorted[..k]);
  }

  lemma OrderedIsDistinct(sorted: seq<Entry>)
    requires Ordered(sorted, false)
    ensures forall i, j :: 0 <= i < j < |sorted| ==> sorted[i] != sorted[j]
  {
    forall i, j | 0 <= i < j < |sorted| ensures sorted[i] != sorted[j] {
      assert Precedes(sorted[i], sorted[j], false);
      OlderIsStrictOrder(sorted[i], sorted[j], sorted[i]);
    }
  }

  /** In a sequence without repetition, being among the first n is standing at a position below n. */
  lemma AmongFirstIsPosition(s: seq<Entry>, n: nat, k: nat)
    requires forall i, j :: 0 <= i < j < |s| ==> s[i] != s[j]
    requires n <= |s| && k < |s|
    ensures s[k] in s[..n] <==> k < n
  {
    if k < n {
      assert s[..n][k] == s[k];
    }
    if s[k] in s[..n] {
      var i :| 0 <= i < n && s[..n][i] == s[k];
      assert s[i] == s[k];
    }
  }

  lemma SortedRank(rows: seq<Entry>, e: Entry)
    requires DistinctIds(rows)
    ensures (set x | x in Sort(rows, false) && Older(e, x)) == (set x | x in rows && Older(e, x))
    ensures e in Sort(rows, false) <==> e in rows
  {
    forall x ensures x in Sort(rows, false) <==> x in rows {
      InSort(rows, false, x);
    }
  }

  /** Being among the first n of the sorted rows is having fewer than n newer rows. */
  lemma AmongFirst(rows: seq<Entry>, n: nat, e: Entry)
    requires DistinctIds(rows) && e in rows && n <= |rows|
    ensures e in Sort(rows, false)[..n] <==> |set x | x in rows && Older(e, x)| < n
  {
    var sorted := Sort(rows, false);
    SortOrdered(rows, false);
    OrderedIsDistinct(sorted);
    SortedRank(rows, e);
    var k :| 0 <= k < |sorted| && sorted[k] == e;
    PositionIsRank(sorted, k);
    AmongFirstIsPosition(sorted, n, k);
  }

  /** The rows the subselect yields: the first n of the archive's entries, newest first. */
  function Newest(rows: seq<Entry>, archive: string, n: nat): seq<Entry> {
    Page(Sort(Filter(rows, InArchive(archive)), false), n, 0)
  }

  function Ids(rows: seq<Entry>): set<string> {
    set e | e in rows :: e.id
  }

  /** An entry is among the first n exactly when fewer than n entries outrank it. */
  lemma NewestIsByRank(rows: seq<Entry>, archive: string, n: nat, e: Entry)
    requires DistinctIds(rows) && e in rows && e.archiveId == archive
    ensures e.id in Ids(Newest(rows, archive, n)) <==> |Newer(rows, archive, None, e)| < n
  {
    var own := Filter(rows, InArchive(archive));
    FilterDistinct(rows, InArchive(archive));
    var m := if n < |own| then n else |own|;
    AmongFirst(own, m, e);
    AmongFirst(own, |own|, e);
    var page := Newest(rows, archive, n);
    assert page == Sort(own, false)[..m];
    assert Sort(own, false)[..|own|] == Sort(own, false);
    InSort(own, false, e);
    assert (set x | x in own && Older(e, x)) == Newer(rows, archive, None, e);
    if e.id in Ids(page) {
      var x :| x in page && x.id == e.id;
      assert x in Sort(own, false);
      InSort(own, false, x);
      SameIdSameEntry(own, x, e);
    }
  }

  // ---- the properties of what is kept ------------------------------------------------------

  lemma KeptIs(rows: seq<Entry>, archive: string, limits: Limits, e: Entry)
    ensures e in Kept(rows, archive, limits) <==> e in rows && Retained(rows, archive, limits, e)
  {
  }

  /** Of the archive's entries that are not too old, a kept one is newer than every removed one. */
  lemma KeptAreNewest(rows: seq<Entry>, archive: string, limits: Limits, kept: Entry, removed: Entry)
    requires DistinctIds(rows)
    requires kept in Kept(rows, archive, limits) && kept.archiveId == archive
    requires removed in rows && removed.archiveId == archive && Fresh(removed, limits.cutoff)
    requires removed !in Kept(rows, archive, limits)
    ensures Older(removed, kept)
  {
    KeptIs(rows, archive, limits, kept);
    KeptIs(rows, archive, limits, removed);
    OlderIsStrictOrder(kept, removed, kept);
    if kept.id == removed.id { SameIdSameEntry(rows, kept, removed); }
    if !Older(removed, kept) {
      var above, below := Newer(rows, archive, limits.cutoff, removed), Newer(rows, archive, limits.cutoff, kept);
      forall x | x in above ensures x in below {
        OlderIsStrictOrder(kept, removed, x);
      }
      SubsetCardinality(above, below);
    }
  }

  lemma SameIdSameEntry(rows: seq<Entry>, a: Entry, b: Entry)
    requires DistinctIds(rows) && a in rows && b in rows && a.id == b.id
    ensures a == b
  {
  }

  lemma {:induction false} SubsetCardinality<T>(a: set<T>, b: set<T>)
    requires a <= b
    ensures |a| <= |b|
  {
    if a != {} {
      var x :| x in a;
      SubsetCardinality(a - {x}, b - {x});
    }
  }

  function YoungOf(rows: seq<Entry>, archive: string, cutoff: Option<string>): set<Entry> {
    set x | x in rows && x.archiveId == archive && Fresh(x, cutoff)
  }

  function KeptOf(rows: seq<Entry>, archive: string, limits: Limits): set<Entry> {
    set x | x in Kept(rows, archive, limits) && x.archiveId == archive
  }

  /** The archive's entries that are not too old: with a limit of n, min(n, all of them) are kept. */
  lemma KeptCount(rows: seq<Entry>, archive: string, limits: Limits)
    requires DistinctIds(rows)
    ensures var (young, kept) := (YoungOf(rows, archive, limits.cutoff), KeptOf(rows, archive, limits));
            && kept <= young
            && (limits.most.None? ==> kept == young)
            && (limits.most.Some? ==> |kept| == if limits.most.value < |young| then limits.most.value else |young|)
  {
    var own := Filter(rows, IsFreshIn(archive, limits.cutoff));
    var n := if limits.most.Some? && limits.most.value < |own| then limits.most.value else |own|;
    FirstAreKept(rows, archive, limits, own, n, KeptOf(rows, archive, limits));
    FirstCount(own, n);
    YoungAreFiltered(rows, archive, limits.cutoff);
  }

  lemma YoungAreFiltered(rows: seq<Entry>, archive: string, cutoff: Option<string>)
    ensures YoungOf(rows, archive, cutoff) == Elements(Filter(rows, IsFreshIn(archive, cutoff)))
  {
  }

  /** The first n sorted rows are n, and all of them are the rows themselves. */
  lemma FirstCount(own: seq<Entry>, n: nat)
    requires DistinctIds(own) && n <= |own|
    ensures n <= |Sort(own, false)| && |Elements(Sort(own, false)[..n])| == n
    ensures Elements(Sort(own, false)[..n]) <= Elements(own) && |Elements(own)| == |own|
    ensures n == |own| ==> Elements(Sort(own, false)[..n]) == Elements(own)
  {
    var sorted := Sort(own, false);
    SortOrdered(own, false);
    OrderedIsDistinct(sorted);
    DistinctCardinality(sorted[..n]);
    DistinctCardinality(sorted);
    forall x ensures x in own <==> x in sorted {
      InSort(own, false, x);
    }
    assert Elements(own) == Elements(sorted) && |sorted| == |own|;
    assert n == |own| ==> sorted[..n] == sorted;
  }

  lemma FirstAreKept(rows: seq<Entry>, archive: string, limits: Limits, own: seq<Entry>, n: nat, kept: set<Entry>)
    requires DistinctIds(rows) && own == Filter(rows, IsFreshIn(archive, limits.cutoff))
    requires n == if limits.most.Some? && limits.most.value < |own| then limits.most.value else |own|
    requires kept == KeptOf(rows, archive, limits)
    ensures DistinctIds(own)
    ensures n <= |Sort(own, false)| && kept == Elements(Sort(own, false)[..n])
  {
    FilterDistinct(rows, IsFreshIn(archive, limits.cutoff));
    forall x ensures x in kept <==> x in Sort(own, false)[..n] {
      KeptIsAmongFirst(rows, archive, limits, own, n, x);
    }
  }

  lemma KeptIsAmongFirst(rows: seq<Entry>, archive: string, limits: Limits, own: seq<Entry>, n: nat, x: Entry)
    requires own == Filter(rows, IsFreshIn(archive, limits.cutoff)) && DistinctIds(own)
    requires n == if limits.most.Some? && limits.most.value < |own| then limits.most.value else |own|
    ensures x in KeptOf(rows, archive, limits) <==> x in Sort(own, false)[..n]
  {
    var sorted := Sort(own, false);
    InSort(own, false, x);
    if x in sorted[..n] { assert x in sorted; }
    if x in own {
      AmongFirst(own, n, x);
      AmongFirst(own, |own|, x);
      assert sorted[..|own|] == sorted;
      assert (set y | y in own && Older(x, y)) == Newer(rows, archive, limits.cutoff, x);
    }
  }

  function IsFreshIn(archive: string, cutoff: Option<string>): Entry -> bool {
    (e: Entry) => e.archiveId == archive && Fresh(e, cutoff)
  }

  lemma OtherArchivesKept(rows: seq<Entry>, archive: string, limits: Limits, other: string)
    requires other != archive
    ensures Filter(Kept(rows, archive, limits), InArchive(other)) == Filter(rows, InArchive(other))
  {
    FilterTwice(rows, IsRetained(rows, archive, limits), InArchive(other), InArchive(other));
  }

  /** Enforcing the same limits again removes nothing. */
  lemma KeepingIsIdempotent(rows: seq<Entry>, archive: string, limits: Limits)
    ensures var once := Kept(rows, archive, limits); Kept(once, archive, limits) == once
  {
    var once := Kept(rows, archive, limits);
    forall e | e in once ensures Retained(once, archive, limits, e) {
      SubsetCardinality(Newer(once, archive, limits.cutoff, e), Newer(rows, archive, limits.cutoff, e));
    }
    FilterAll(once, IsRetained(once, archive, limits));
  }

  /** Deleting the too old first and then all but the newest n is what Kept describes. */
  lemma TwoDeletions(rows: seq<Entry>, archive: string, limits: Limits, afterAge: seq<Entry>, afterCount: seq<Entry>)
    requires DistinctIds(rows)
    requires afterAge == Filter(rows, NotTooOld(archive, limits.cutoff))
    requires limits.most.None? ==> afterCount == afterAge
    requires limits.most.Some? ==>
        afterCount == Filter(afterAge, NotOutranked(archive, Ids(Newest(afterAge, archive, limits.most.value))))
    ensures afterCount == Kept(rows, archive, limits)
  {
    FilterDistinct(rows, NotTooOld(archive, limits.cutoff));
    if limits.most.None? {
      FilterSame(rows, NotTooOld(archive, limits.cutoff), IsRetained(rows, archive, limits));
    } else {
      var n := limits.most.value;
      var keep := NotOutranked(archive, Ids(Newest(afterAge, archive, n)));
      var direct := IsRetained(rows, archive, limits);
      forall e | e in rows ensures direct(e) == (NotTooOld(archive, limits.cutoff)(e) && keep(e)) {
        if e.archiveId == archive && Fresh(e, limits.cutoff) {
          assert e in afterAge;
          NewestIsByRank(afterAge, archive, n, e);
          assert Newer(afterAge, archive, None, e) == Newer(rows, archive, limits.cutoff, e);
        }
      }
      FilterTwice(rows, NotTooOld(archive, limits.cutoff), keep, direct);
    }
  }

  /** What the first DELETE leaves, and what the second. */
  function AfterAge(rows: seq<Entry>, archive: string, cutoff: Option<string>): seq<Entry> {
    Filter(rows, NotTooOld(archive, cutoff))
  }

  function AfterCount(rows: seq<Entry>, archive: string, most: Option<nat>): seq<Entry> {
    if most.None? then rows else Filter(rows, NotOutranked(archive, Ids(Newest(rows, archive, most.value))))
  }

  /** Together they leave what Kept says, and so do the read states. */
  lemma BothDeletions(rows: seq<Entry>, states: map<(string, string), string>, archive: string, limits: Limits)
    requires DistinctIds(rows)
    ensures var (afterAge, kept) := (AfterAge(rows, archive, limits.cutoff), Kept(rows, archive, limits));
            && AfterCount(afterAge, archive, limits.most) == kept
            && Cascade(Cascade(states, afterAge), kept) == Cascade(states, kept)
  {
    var afterAge := AfterAge(rows, archive, limits.cutoff);
    var after := AfterCount(afterAge, archive, limits.most);
    TwoDeletions(rows, archive, limits, afterAge, after);
    CascadeTwice(states, afterAge, after);
  }

  function NotTooOld(archive: string, cutoff: Option<string>): Entry -> bool {
    (e: Entry) => e.archiveId != archive || Fresh(e, cutoff)
  }

  function NotOutranked(archive: string, ids: set<string>): Entry -> bool {
    (e: Entry) => e.archiveId != archive || e.id in ids
  }

  // ---- in terms of time ------------------------------------------------------------------------

  ghost predicate IsIso(text: string) {
    exists dt: DateTime :: dt.Valid() && text == Iso(dt)
  }

  /** Every entry carries the text of an instant. */
  ghost predicate Timed(rows: seq<Entry>) {
    forall e :: e in rows ==> IsIso(e.createdAt)
  }

  lemma NormalizedIsIso(value: Option<string>, os: Platform)
    requires os.Valid()
    ensures NormalizeTimestamp(value, os).Ok? ==> IsIso(NormalizeTimestamp(value, os).value)
  {
  }

  ghost function InstantOf(text: string): int
    requires IsIso(text)
  {
    var dt: DateTime :| dt.Valid() && text == Iso(dt);
    Instant(dt)
  }

  lemma IsoOrder(a: string, b: string)
    requires IsIso(a) && IsIso(b)
    ensures Less(a, b) <==> InstantOf(a) < InstantOf(b)
    ensures a == b <==> InstantOf(a) == InstantOf(b)
  {
    var da: DateTime :| da.Valid() && a == Iso(da) && Instant(da) == InstantOf(a);
    var db: DateTime :| db.Valid() && b == Iso(db) && Instant(db) == InstantOf(b);
    TextOrderIsTimeOrder(da, db);
  }

  /** Recorded later, or at the same instant under a greater id. */
  ghost predicate Later(x: Entry, e: Entry)
    requires IsIso(x.createdAt) && IsIso(e.createdAt)
  {
    InstantOf(x.createdAt) > InstantOf(e.createdAt)
        || (InstantOf(x.createdAt) == InstantOf(e.createdAt) && Less(e.id, x.id))
  }

  ghost predicate Young(e: Entry, s: Settings, now: DateTime)
    requires IsIso(e.createdAt) && now.Valid()
  {
    Positive(s.maxAgeDays) ==> InstantOf(e.createdAt) >= Instant(now) - s.maxAgeDays.value * MICROS_PER_DAY
  }

  /** The archive's entries that are not too old and later than e. */
  ghost function LaterOnes(rows: seq<Entry>, archive: string, s: Settings, now: DateTime, e: Entry): set<Entry>
    requires Timed(rows) && IsIso(e.createdAt) && now.Valid()
  {
    set x | x in rows && x.archiveId == archive && Young(x, s, now) && Later(x, e)
  }

  ghost predicate RetainedByTime(rows: seq<Entry>, archive: string, s: Settings, now: DateTime, e: Entry)
    requires Timed(rows) && e in rows && now.Valid()
  {
    e.archiveId != archive
    || (Young(e, s, now) && (Positive(s.maxEntries) ==> |LaterOnes(rows, archive, s, now, e)| < s.maxEntries.value))
  }

  lemma FreshIsYoung(e: Entry, s: Settings, now: DateTime)
    requires IsIso(e.createdAt) && now.Valid() && LimitsOf(s, now).Ok?
    ensures Fresh(e, LimitsOf(s, now).value.cutoff) <==> Young(e, s, now)
  {
    if Positive(s.maxAgeDays) {
      var text := Cutoff(now, s.maxAgeDays.value).value;
      var dt: DateTime :| dt.Valid() && text == Iso(dt)
          && Instant(dt) == Instant(now) - s.maxAgeDays.value * MICROS_PER_DAY;
      var de: DateTime :| de.Valid() && e.createdAt == Iso(de) && Instant(de) == InstantOf(e.createdAt);
      TextOrderIsTimeOrder(de, dt);
    }
  }

  lemma OlderIsLater(e: Entry, x: Entry)
    requires IsIso(e.createdAt) && IsIso(x.createdAt)
    ensures Older(e, x) <==> Later(x, e)
  {
    IsoOrder(e.createdAt, x.createdAt);
  }

  lemma NewerAreLater(rows: seq<Entry>, archive: string, s: Settings, now: DateTime, e: Entry)
    requires Timed(rows) && e in rows && now.Valid() && LimitsOf(s, now).Ok?
    ensures Newer(rows, archive, LimitsOf(s, now).value.cutoff, e) == LaterOnes(rows, archive, s, now, e)
  {
    var cutoff := LimitsOf(s, now).value.cutoff;
    forall x ensures x in Newer(rows, archive, cutoff, e) <==> x in LaterOnes(rows, archive, s, now, e) {
      if x in rows {
        FreshIsYoung(x, s, now);
        OlderIsLater(e, x);
      }
    }
  }

  /** Comparing the stored texts, retention keeps exactly what comparing the instants would keep. */
  lemma RetentionFollowsTime(rows: seq<Entry>, archive: string, s: Settings, now: DateTime, e: Entry)
    requires Timed(rows) && e in rows && now.Valid() && LimitsOf(s, now).Ok?
    ensures Retained(rows, archive, LimitsOf(s, now).value, e) <==> RetainedByTime(rows, archive, s, now, e)
  {
    FreshIsYoung(e, s, now);
    NewerAreLater(rows, archive, s, now, e);
  }

  ghost predicate KeptByTime(rows: seq<Entry>, kept: seq<Entry>, archive: string, s: Settings, now: DateTime)
    requires Timed(rows) && now.Valid()
  {
    forall e :: e in rows ==> (e in kept <==> RetainedByTime(rows, archive, s, now, e))
  }

  /** So what EnforceRetention keeps of entries in time are the newest by instant and id that are not too old. */
  lemma KeptFollowsTime(rows: seq<Entry>, archive: string, s: Settings, now: DateTime)
    requires Timed(rows) && now.Valid() && LimitsOf(s, now).Ok?
    ensures KeptByTime(rows, Kept(rows, archive, LimitsOf(s, now).value), archive, s, now)
  {
    forall e | e in rows
      ensures e in Kept(rows, archive, LimitsOf(s, now).value) <==> RetainedByTime(rows, archive, s, now, e)
    {
      RetentionFollowsTime(rows, archive, s, now, e);
    }
  }

  // ---- the store ---------------------------------------------------------------------------

  function Cascade(states: map<(string, string), string>, rows: seq<Entry>): map<(string, string), string> {
    map k | k in states && k.0 in Ids(rows) :: states[k]
  }

  /** Which archive a retention run concerns, and its limits; none for an archive that does not exist. */
  function RetentionTarget(
    archives: map<string, Settings>, archiveId: string, os: Platform): Result<Option<(string, Limits)>, StoreError>
    requires os.Valid()
  {
    match NormalizeArchiveId(archiveId, os)
    case Err(e) => Err(Archive(e))
    case Ok(id) =>
      if id !in archives then Ok(None)
      else match LimitsOf(archives[id], os.now)
        case Err(e) => Err(Time(e))
        case Ok(limits) => Ok(Some((id, limits)))
  }

  class ArchiveStore {
    var archives: map<string, Settings>
    var entries: seq<Entry>
    var readStates: map<(string, string), string>

    /** Primary keys are unique and foreign keys resolve. */
    ghost predicate Valid()
      reads this
    {
      && DistinctIds(entries)
      && (forall e :: e in entries ==> e.archiveId in archives)
      && (forall k :: k in readStates ==> k.0 in Ids(entries))
    }

    /** Every stored entry carries the text of an instant; only CreateEntry adds entries, and it keeps this. */
    ghost predicate InTime()
      reads this
    {
      Timed(entries)
    }

    constructor ()
      ensures Valid() && InTime() && archives == map[] && entries == [] && readStates == map[]
    {
      archives, entries, readStates := map[], [], map[];
    }

    function Tables(): Db
      reads this
    {
      Db(archives, entries, readStates)
    }

    method EnsureArchive(archive: string)
      requires Valid()
      modifies this`archives
      ensures Valid()
      ensures archives == if archive in old(archives) then old(archives)
          else old(archives)[archive := Settings(None, None, None)]
    {
      if archive !in archives {
        archives := archives[archive := Settings(None, None, None)];
      }
    }

    /** DELETE … WHERE NOT keep: the read states of deleted entries go with them. */
    method DeleteUnless(keep: Entry -> bool) returns (rowcount: nat)
      requires Valid()
      modifies this`entries, this`readStates
      ensures Valid()
      ensures entries == Filter(old(entries), keep) && readStates == Cascade(old(readStates), entries)
      ensures rowcount == |old(entries)| - |entries|
    {
      var before := entries;
      entries := Filter(entries, keep);
      readStates := Cascade(readStates, entries);
      rowcount := |before| - |entries|;
      FilterDistinct(before, keep);
    }

    method EnforceRetention(archiveId: string, os: Platform) returns (r: Result<nat, StoreError>)
      requires Valid() && os.Valid()
      modifies this`entries, this`readStates
      ensures Valid() && (old(InTime()) ==> InTime())
      ensures match RetentionTarget(archives, archiveId, os)
              case Err(e) => r == Err(e) && unchanged(this)
              case Ok(None) => r == Ok(0) && unchanged(this)
              case Ok(Some((id, limits))) =>
                && entries == Kept(old(entries), id, limits)
                && readStates == Cascade(old(readStates), entries)
                && r == Ok(|old(entries)| - |entries|)
    {
      r := EnforceOn(RetentionTarget(archives, archiveId, os));
    }

    method EnforceOn(target: Result<Option<(string, Limits)>, StoreError>) returns (r: Result<nat, StoreError>)
      requires Valid()
      modifies this`entries, this`readStates
      ensures Valid() && (old(InTime()) ==> InTime())
      ensures match target
              case Err(e) => r == Err(e) && unchanged(this)
              case Ok(None) => r == Ok(0) && unchanged(this)
              case Ok(Some((id, limits))) =>
                && entries == Kept(old(entries), id, limits)
                && readStates == Cascade(old(readStates), entries)
                && r == Ok(|old(entries)| - |entries|)
    {
      match target {
        case Err(e) => r := Err(e);
        case Ok(None) => r := Ok(0);
        case Ok(Some((id, limits))) =>
          var deleted := EnforceLimits(id, limits);
          r := Ok(deleted);
      }
    }

    method EnforceLimits(id: string, limits: Limits) returns (deleted: nat)
      requires Valid()
      modifies this`entries, this`readStates
      ensures Valid() && (old(InTime()) ==> InTime())
      ensures entries == Kept(old(entries), id, limits)
      ensures readStates == Cascade(old(readStates), entries)
      ensures deleted == |old(entries)| - |entries|
    {
      BothDeletions(entries, readStates, id, limits);
      var aged := PruneByAge(id, limits.cutoff);
      var more := PruneByCount(id, limits.most);
      deleted := aged + more;
    }

    /** The first DELETE: entries of the archive older than its age limit. */
    method PruneByAge(id: string, cutoff: Option<string>) returns (deleted: nat)
      requires Valid()
      modifies this`entries, this`readStates
      ensures Valid()
      ensures entries == AfterAge(old(entries), id, cutoff)
      ensures readStates == Cascade(old(readStates), entries)
      ensures deleted == |old(entries)| - |entries|
    {
      if cutoff.Some? {
        deleted := DeleteUnless(NotTooOld(id, cutoff));
      } else {
        FilterAll(entries, NotTooOld(id, None));
        CascadeAll(readStates, entries);
        deleted := 0;
      }
    }

    /** The second DELETE: entries of the archive beyond its newest. */
    method PruneByCount(id: string, most: Option<nat>) returns (deleted: nat)
      requires Valid()
      modifies this`entries, this`readStates
      ensures Valid()
      ensures entries == AfterCount(old(entries), id, most)
      ensures readStates == Cascade(old(readStates), entries)
      ensures deleted == |old(entries)| - |entries|
    {
      if most.Some? {
        var newest := Newest(entries, id, most.value);
        deleted := DeleteUnless(NotOutranked(id, Ids(newest)));
      } else {
        CascadeAll(readStates, entries);
        deleted := 0;
      }
    }

    /** Records one entry; its id is the fresh one the platform drew. */
    method CreateEntry(body: Entry, createdAt: Option<string>, entryId: string, kind: Option<string>, os: Platform)
      returns (r: Result<Entry, StoreError>)
      requires Valid() && os.Valid()
      modifies this
      ensures Valid() && (old(InTime()) ==> InTime())
      ensures match NormalizeArchiveId(body.archiveId, os)
              case Err(e) => r == Err(Archive(e)) && unchanged(this)
              case Ok(id) =>
                && archives == (if id in old(archives) then old(archives)
                    else old(archives)[id := Settings(None, None, None)])
                && match NormalizeTimestamp(createdAt, os)
                   case Err(e) => r == Err(Time(e)) && entries == old(entries) && readStates == old(readStates)
                   case Ok(text) =>
                     var entry := NewEntry(body, id, text, entryId, kind, archives[id]);
                     var rows := old(entries) + [entry];
                     if entryId in Ids(old(entries)) then r == Err(DuplicateId) && entries == old(entries)
                         && readStates == old(readStates)
                     else match LimitsOf(archives[id], os.now)
                       case Err(e) => r == Err(Time(e)) && entries == rows && readStates == old(readStates)
                       case Ok(limits) =>
                         && entries == Kept(rows, id, limits) && readStates == Cascade(old(readStates), entries)
                         && r == if Retained(rows, id, limits, entry) then Ok(entry) else Err(RemovedByRetention)
    {
      var normalized := NormalizeArchiveId(body.archiveId, os);
      if normalized.Err? {
        return Err(Archive(normalized.error));
      }
      var id := normalized.value;
      NormalizeIsIdempotent(body.archiveId, os);
      EnsureArchive(id);
      var text := NormalizeTimestamp(createdAt, os);
      if text.Err? {
        return Err(Time(text.error));
      }
      if entryId in Ids(entries) {
        return Err(DuplicateId);
      }
      NormalizedIsIso(createdAt, os);
      r := Insert(NewEntry(body, id, text.value, entryId, kind, archives[id]), os);
    }

    /** The INSERT and what follows it: retention may remove the new entry at once. */
    method Insert(entry: Entry, os: Platform) returns (r: Result<Entry, StoreError>)
      requires Valid() && os.Valid()
      requires entry.archiveId in archives && NormalizeArchiveId(entry.archiveId, os) == Ok(entry.archiveId)
      requires entry.id !in Ids(entries)
      modifies this`entries, this`readStates
      ensures Valid() && (old(InTime()) && IsIso(entry.createdAt) ==> InTime())
      ensures var rows := old(entries) + [entry];
              match LimitsOf(archives[entry.archiveId], os.now)
              case Err(e) => r == Err(Time(e)) && entries == rows && readStates == old(readStates)
              case Ok(limits) =>
                && entries == Kept(rows, entry.archiveId, limits) && readStates == Cascade(old(readStates), entries)
                && r == if Retained(rows, entry.archiveId, limits, entry) then Ok(entry) else Err(RemovedByRetention)
    {
      ghost var rows := entries + [entry];
      IdsGrow(entries, entry);
      entries := entries + [entry];
      var deleted := EnforceRetention(entry.archiveId, os);
      if deleted.Err? {
        return Err(deleted.error);
      }
      if entry.id !in Ids(entries) {
        return Err(RemovedByRetention);
      }
      if e :| e in entries && e.id == entry.id {
        SameIdSameEntry(rows, e, entry);
        return Ok(e);
      }
    }

    /** Builds the statement once, counts with it and lists one page with it. */
    method QueryEntries(q: EntryQuery, os: Platform, like: Like) returns (r: Result<(seq<Entry>, nat), StoreError>)
      requires Valid() && os.Valid()
      ensures Compile(q, os).Err? ==> r == Err(QueryFailed(Compile(q, os).error))
      ensures Compile(q, os).Ok? && q.readState.Some? && !Truthy(q.username) ==> r == Err(Sql(Rejected))
      ensures Compile(q, os).Ok? && (q.readState.Some? ==> Truthy(q.username)) ==>
                var rows := Described(Tables(), entries, q, os, like);
                r == Ok((Page(Sort(rows, q.ascending), q.limit, q.offset), |rows|))
    {
      var built := BuildQuery(q, os);
      if built.Err? {
        return Err(QueryFailed(built.error));
      }
      var c := built.value;
      StatementNeedsUser(q, c, Tables(), os, like);
      var counted := CountRows(Tables(), c, q, like);
      if counted.Err? {
        return Err(Sql(counted.error));
      }
      QueryMeansPredicate(q, c, Tables(), os, like);
      var page := PageRows(Tables(), c, q, like);
      return Ok((page.value, |counted.value|));
    }
  }

  function NewEntry(body: Entry, id: string, text: string, entryId: string, kind: Option<string>, s: Settings): Entry {
    body.(id := entryId, archiveId := id, createdAt := text,
          kind := if Truthy(kind) then kind.value else if Truthy(s.defaultType) then s.defaultType.value else "system")
  }

  /** What was sent is recorded under its new id, archive and instant, of the kind given or the archive's own. */
  lemma NewEntryExactly(
    body: Entry, id: string, text: string, entryId: string, kind: Option<string>, s: Settings)
    ensures var e := NewEntry(body, id, text, entryId, kind, s);
            && e.id == entryId && e.archiveId == id && e.createdAt == text
            && e.severity == body.severity && e.status == body.status && e.source == body.source
            && e.title == body.title && e.message == body.message
            && (if kind.Some? && |kind.value| >= 1 then e.kind == kind.value
                else if s.defaultType.Some? && |s.defaultType.value| >= 1 then e.kind == s.defaultType.value
                else e.kind == "system")
  {
  }

  lemma IdsGrow(rows: seq<Entry>, e: Entry)
    ensures Ids(rows + [e]) == Ids(rows) + {e.id}
  {
    assert forall x :: x in rows + [e] <==> x in rows || x == e;
  }

  lemma CascadeAll(states: map<(string, string), string>, rows: seq<Entry>)
    requires forall k :: k in states ==> k.0 in Ids(rows)
    ensures Cascade(states, rows) == states
  {
  }

  lemma CascadeTwice(states: map<(string, string), string>, more: seq<Entry>, fewer: seq<Entry>)
    requires forall e :: e in fewer ==> e in more
    ensures Cascade(Cascade(states, more), fewer) == Cascade(states, fewer)
  {
  }
}
