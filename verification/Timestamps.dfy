/**
  Entry timestamps (obs/message_archive.py): every stored text is the ISO form of a
  UTC instant, with no fraction when the microseconds are zero and six fraction
  digits otherwise. The main result is TextOrderIsTimeOrder: comparing two stored
  texts is comparing the instants they denote.
 */
module Timestamps {
  import opened Wrappers
  import opened TextOrder

  const MICROS_PER_DAY: int := 86_400_000_000
  const MAX_YEAR := 9999

  datatype DateTime = DateTime(year: int, month: int, day: int, hour: int, minute: int, second: int, micro: int) {
    predicate Valid() {
      && 1 <= year <= MAX_YEAR
      && 1 <= month <= 12
      && 1 <= day <= DaysInMonth(year, month)
      && 0 <= hour < 24
      && 0 <= minute < 60
      && 0 <= second < 60
      && 0 <= micro < 1_000_000
    }
  }

  datatype TimestampError = NotIso | OutOfRange

  /** What the ISO parser reads: a wall-clock reading and, if present, its UTC offset in microseconds. */
  datatype Parsed = Parsed(local: DateTime, offset: Option<int>)

  // ---- the proleptic Gregorian calendar --------------------------------------

  predicate IsLeap(year: int) {
    year % 4 == 0 && (year % 100 != 0 || year % 400 == 0)
  }

  function DaysInYear(year: int): (n: int)
    ensures 365 <= n <= 366
  {
    if IsLeap(year) then 366 else 365
  }

  function DaysInMonth(year: int, month: int): (n: int)
    requires 1 <= month <= 12
    ensures 28 <= n <= 31
  {
    if month == 2 then (if IsLeap(year) then 29 else 28)
    else if month in {4, 6, 9, 11} then 30 else 31
  }

  function DaysBeforeMonth(year: int, month: int): (n: int)
    requires 1 <= month <= 13
    ensures n >= 0
    decreases month
  {
    if month == 1 then 0 else DaysBeforeMonth(year, month - 1) + DaysInMonth(year, month - 1)
  }

  function DaysBeforeYear(year: int): int {
    365 * (year - 1) + (year - 1) / 4 - (year - 1) / 100 + (year - 1) / 400
  }

  /** Days since 0001-01-01. */
  function DayNumber(dt: DateTime): int
    requires dt.Valid()
  {
    DaysBeforeYear(dt.year) + DaysBeforeMonth(dt.year, dt.month) + dt.day - 1
  }

  function MicroOfDay(dt: DateTime): int {
    ((dt.hour * 60 + dt.minute) * 60 + dt.second) * 1_000_000 + dt.micro
  }

  /** The instant a UTC reading denotes: microseconds since 0001-01-01T00:00:00. */
  function Instant(dt: DateTime): int
    requires dt.Valid()
  {
    DayNumber(dt) * MICROS_PER_DAY + MicroOfDay(dt)
  }

  const END_OF_TIME: int := DaysBeforeYear(MAX_YEAR + 1) * MICROS_PER_DAY

  lemma YearLength(year: int)
    ensures DaysBeforeYear(year + 1) == DaysBeforeYear(year) + DaysInYear(year)
  {
    assert (year - 1) / 4 == year / 4 - (if year % 4 == 0 then 1 else 0);
    assert (year - 1) / 100 == year / 100 - (if year % 100 == 0 then 1 else 0);
    assert (year - 1) / 400 == year / 400 - (if year % 400 == 0 then 1 else 0);
    CenturiesAreMultiples(year);
  }

  lemma FourFolds(k: int)
    ensures 4 * k % 4 == 0
  {
  }

  lemma HundredFolds(k: int)
    ensures 100 * k % 100 == 0
  {
  }

  lemma CenturiesAreMultiples(year: int)
    ensures year % 100 == 0 ==> year % 4 == 0
    ensures year % 400 == 0 ==> year % 100 == 0
  {
    if year % 100 == 0 {
      FourFolds(25 * (year / 100));
    }
    if year % 400 == 0 {
      HundredFolds(4 * (year / 400));
    }
  }

  lemma {:induction false} YearsAreOrdered(a: int, b: int)
    requires a <= b
    ensures DaysBeforeYear(a) <= DaysBeforeYear(b)
    decreases b - a
  {
    if a < b {
      YearsAreOrdered(a, b - 1);
      YearLength(b - 1);
    }
  }

  lemma {:induction false} MonthsAreOrdered(year: int, a: int, b: int)
    requires 1 <= a <= b <= 13
    ensures DaysBeforeMonth(year, a) <= DaysBeforeMonth(year, b)
    decreases b - a
  {
    if a < b {
      MonthsAreOrdered(year, a, b - 1);
    }
  }

  lemma MonthsFillYear(year: int)
    ensures DaysBeforeMonth(year, 13) == DaysInYear(year)
  {
    assert DaysBeforeMonth(year, 4) == 59 + 31 + (if IsLeap(year) then 1 else 0);
    assert DaysBeforeMonth(year, 7) == DaysBeforeMonth(year, 4) + 91;
    assert DaysBeforeMonth(year, 10) == DaysBeforeMonth(year, 7) + 92;
    assert DaysBeforeMonth(year, 13) == DaysBeforeMonth(year, 10) + 92;
  }

  predicate DateBefore(a: DateTime, b: DateTime) {
    a.year < b.year || (a.year == b.year && (a.month < b.month || (a.month == b.month && a.day < b.day)))
  }

  /** The days up to a date lie within its year. */
  lemma WithinYear(a: DateTime)
    requires a.Valid()
    ensures DaysBeforeYear(a.year) <= DayNumber(a) < DaysBeforeYear(a.year + 1)
  {
    YearLength(a.year);
    MonthsAreOrdered(a.year, 1, a.month);
    MonthsAreOrdered(a.year, a.month + 1, 13);
    MonthsFillYear(a.year);
  }

  lemma DateOrder(a: DateTime, b: DateTime)
    requires a.Valid() && b.Valid() && DateBefore(a, b)
    ensures DayNumber(a) < DayNumber(b)
  {
    if a.year < b.year {
      WithinYear(a);
      WithinYear(b);
      YearsAreOrdered(a.year + 1, b.year);
    } else if a.month < b.month {
      MonthsAreOrdered(a.year, a.month + 1, b.month);
    }
  }

  predicate SameDate(a: DateTime, b: DateTime) {
    a.year == b.year && a.month == b.month && a.day == b.day
  }

  lemma LaterDay(a: DateTime, b: DateTime)
    requires a.Valid() && b.Valid() && DateBefore(a, b)
    ensures Instant(a) < Instant(b)
  {
    DateOrder(a, b);
    assert 0 <= MicroOfDay(a) < MICROS_PER_DAY && 0 <= MicroOfDay(b) < MICROS_PER_DAY;
    assert (DayNumber(a) + 1) * MICROS_PER_DAY <= DayNumber(b) * MICROS_PER_DAY;
  }

  lemma SameClock(a: DateTime, b: DateTime)
    requires a.Valid() && b.Valid() && MicroOfDay(a) == MicroOfDay(b)
    ensures a.hour == b.hour && a.minute == b.minute && a.second == b.second && a.micro == b.micro
  {
  }

  /** Calendar order and clock order together are the order of instants. */
  lemma InstantOrder(a: DateTime, b: DateTime)
    requires a.Valid() && b.Valid()
    ensures Instant(a) < Instant(b) <==> DateBefore(a, b) || (SameDate(a, b) && MicroOfDay(a) < MicroOfDay(b))
    ensures Instant(a) == Instant(b) ==> a == b
  {
    if DateBefore(a, b) {
      LaterDay(a, b);
    } else if DateBefore(b, a) {
      LaterDay(b, a);
    } else {
      assert SameDate(a, b) && DayNumber(a) == DayNumber(b);
      if MicroOfDay(a) == MicroOfDay(b) {
        SameClock(a, b);
      }
    }
  }

  /** The lengths of the months. */
  lemma MonthsExactly(year: int, month: int)
    requires 1 <= month <= 12
    ensures var february := if year % 400 == 0 || (year % 4 == 0 && year % 100 != 0) then 29 else 28;
            DaysInMonth(year, month) == [31, february, 31, 30, 31, 30, 31, 31, 30, 31, 30, 31][month - 1]
  {
    CenturiesAreMultiples(year);
  }

  lemma NewYear(dt: DateTime)
    requires dt.Valid() && dt.month == 1 && dt.day == 1 && MicroOfDay(dt) == 0
    ensures Instant(dt) == DaysBeforeYear(dt.year) * MICROS_PER_DAY
  {
  }

  /** Time starts at midnight of 1 January of year one; 1970 began 719162 days later. */
  lemma EpochsExactly(dt: DateTime)
    requires dt.Valid() && dt.month == 1 && dt.day == 1 && MicroOfDay(dt) == 0
    ensures dt.year == 1 ==> Instant(dt) == 0
    ensures dt.year == 1970 ==> Instant(dt) == 719162 * MICROS_PER_DAY
  {
    NewYear(dt);
    assert DaysBeforeYear(1) == 0 && DaysBeforeYear(1970) == 365 * 1969 + 492 - 19 + 4;
  }

  // ---- from an instant back to a reading -------------------------------------

  /** The year holding day n counted from 1 January of `year`, and the day inside it. */
  function YearOf(n: nat, year: int): (r: (int, int))
    ensures r.0 >= year && 0 <= r.1 < DaysInYear(r.0)
    ensures DaysBeforeYear(r.0) + r.1 == DaysBeforeYear(year) + n
    decreases n
  {
    YearLength(year);
    if n < DaysInYear(year) then (year, n) else YearOf(n - DaysInYear(year), year + 1)
  }

  function MonthOf(n: nat, year: int, month: int): (r: (int, int))
    requires 1 <= month <= 12
    requires DaysBeforeMonth(year, month) + n < DaysInYear(year)
    ensures month <= r.0 <= 12 && 0 <= r.1 < DaysInMonth(year, r.0)
    ensures DaysBeforeMonth(year, r.0) + r.1 == DaysBeforeMonth(year, month) + n
    decreases n
  {
    MonthsFillYear(year);
    if n < DaysInMonth(year, month) then (month, n)
    else MonthOf(n - DaysInMonth(year, month), year, month + 1)
  }

  lemma ClockFields(rest: int)
    requires 0 <= rest < MICROS_PER_DAY
    ensures rest / 60_000_000 == rest / 1_000_000 / 60
    ensures 0 <= rest / 60_000_000 / 60 < 24
    ensures ((rest / 60_000_000 / 60 * 60 + rest / 60_000_000 % 60) * 60 + rest / 1_000_000 % 60) * 1_000_000
        + rest % 1_000_000 == rest
  {
    var seconds := rest / 1_000_000;
    assert rest == seconds * 1_000_000 + rest % 1_000_000;
    assert seconds == seconds / 60 * 60 + seconds % 60;
    assert rest / 60_000_000 == seconds / 60;
  }

  function FromInstant(t: int): (dt: DateTime)
    requires 0 <= t < END_OF_TIME
    ensures dt.Valid() && Instant(dt) == t
  {
    var (days, rest) := (t / MICROS_PER_DAY, t % MICROS_PER_DAY);
    var (year, inYear) := YearOf(days, 1);
    var (month, inMonth) := MonthOf(inYear, year, 1);
    assert year <= MAX_YEAR by {
      if year > MAX_YEAR { YearsAreOrdered(MAX_YEAR + 1, year); }
    }
    var (minutes, seconds) := (rest / 60_000_000, rest / 1_000_000);
    ClockFields(rest);
    DateTime(year, month, inMonth + 1, minutes / 60, minutes % 60, seconds % 60, rest % 1_000_000)
  }

  // ---- the stored text --------------------------------------------------------

  /** The fraction is left out when it is zero; the offset is always that of UTC. */
  function Fraction(micro: int): string
    requires 0 <= micro < 1_000_000
  {
    if micro == 0 then "+00:00" else "." + (Digits(micro, 6) + "+00:00")
  }

  function IsoTime(dt: DateTime): string
    requires dt.Valid()
  {
    Digits(dt.hour, 2) + (":" + (Digits(dt.minute, 2) + (":" + (Digits(dt.second, 2) + Fraction(dt.micro)))))
  }

  function Iso(dt: DateTime): string
    requires dt.Valid()
  {
    Digits(dt.year, 4) + ("-" + (Digits(dt.month, 2) + ("-" + (Digits(dt.day, 2) + ("T" + IsoTime(dt))))))
  }

  lemma FieldOrder(m: nat, n: nat, width: nat, x: string, y: string)
    requires m < Pow10(width) && n < Pow10(width)
    ensures Less(Digits(m, width) + x, Digits(n, width) + y) <==> m < n || (m == n && Less(x, y))
  {
    LessAppend(Digits(m, width), Digits(n, width), x, y);
    DigitsOrder(m, n, width);
  }

  lemma SeparatorOrder(c: char, x: string, y: string)
    ensures Less([c] + x, [c] + y) <==> Less(x, y)
  {
    LessAppend([c], [c], x, y);
    LessIrreflexive([c]);
  }

  /** '+' sorts before '.', so a whole second sorts before any fraction of it. */
  lemma FractionOrder(m: int, n: int)
    requires 0 <= m < 1_000_000 && 0 <= n < 1_000_000
    ensures Less(Fraction(m), Fraction(n)) <==> m < n
  {
    LessIrreflexive("+00:00");
    if m > 0 && n > 0 {
      SeparatorOrder('.', Digits(m, 6) + "+00:00", Digits(n, 6) + "+00:00");
      FieldOrder(m, n, 6, "+00:00", "+00:00");
    }
  }

  lemma TimeTextOrder(a: DateTime, b: DateTime)
    requires a.Valid() && b.Valid()
    ensures Less(IsoTime(a), IsoTime(b)) <==> MicroOfDay(a) < MicroOfDay(b)
  {
    FractionOrder(a.micro, b.micro);
    var sa, sb := Digits(a.second, 2) + Fraction(a.micro), Digits(b.second, 2) + Fraction(b.micro);
    FieldOrder(a.second, b.second, 2, Fraction(a.micro), Fraction(b.micro));
    SeparatorOrder(':', sa, sb);
    var ma, mb := Digits(a.minute, 2) + (":" + sa), Digits(b.minute, 2) + (":" + sb);
    FieldOrder(a.minute, b.minute, 2, ":" + sa, ":" + sb);
    SeparatorOrder(':', ma, mb);
    FieldOrder(a.hour, b.hour, 2, ":" + ma, ":" + mb);
  }

  /** The stored texts are ordered exactly as the instants they denote, whatever their fraction lengths. */
  lemma TextOrderIsTimeOrder(a: DateTime, b: DateTime)
    requires a.Valid() && b.Valid()
    ensures Less(Iso(a), Iso(b)) <==> Instant(a) < Instant(b)
    ensures Iso(a) == Iso(b) <==> Instant(a) == Instant(b)
  {
    DateTextOrder(a, b);
    InstantOrder(a, b);
    InstantOrder(b, a);
    LessIrreflexive(Iso(a));
    if Iso(a) == Iso(b) {
      DateTextOrder(b, a);
    }
  }

  lemma DateTextOrder(a: DateTime, b: DateTime)
    requires a.Valid() && b.Valid()
    ensures Less(Iso(a), Iso(b)) <==> Instant(a) < Instant(b)
  {
    TimeTextOrder(a, b);
    var ta, tb := "T" + IsoTime(a), "T" + IsoTime(b);
    SeparatorOrder('T', IsoTime(a), IsoTime(b));
    var da, db := Digits(a.day, 2) + ta, Digits(b.day, 2) + tb;
    FieldOrder(a.day, b.day, 2, ta, tb);
    SeparatorOrder('-', da, db);
    var ma, mb := Digits(a.month, 2) + ("-" + da), Digits(b.month, 2) + ("-" + db);
    FieldOrder(a.month, b.month, 2, "-" + da, "-" + db);
    SeparatorOrder('-', ma, mb);
    FieldOrder(a.year, b.year, 4, "-" + ma, "-" + mb);
    InstantOrder(a, b);
  }

  lemma FiveParts(a: string, b: string, c: string, d: string, e: string)
    ensures a + (b + (c + (d + e))) == a + b + c + d + e
  {
  }

  lemma IsoTimeExactly(dt: DateTime)
    requires dt.Valid()
    ensures var end := (if dt.micro == 0 then "" else "." + Digits(dt.micro, 6)) + "+00:00";
            IsoTime(dt) == Digits(dt.hour, 2) + ":" + Digits(dt.minute, 2) + ":" + (Digits(dt.second, 2) + end)
  {
    var end := (if dt.micro == 0 then "" else "." + Digits(dt.micro, 6)) + "+00:00";
    assert end == Fraction(dt.micro);
    FiveParts(Digits(dt.hour, 2), ":", Digits(dt.minute, 2), ":", Digits(dt.second, 2) + end);
  }

  /** The text field by field: four digits of the year and two of the rest, six of a fraction, the offset of UTC. */
  lemma IsoExactly(dt: DateTime)
    requires dt.Valid()
    ensures var end := (if dt.micro == 0 then "" else "." + Digits(dt.micro, 6)) + "+00:00";
            var clock := Digits(dt.hour, 2) + ":" + Digits(dt.minute, 2) + ":" + (Digits(dt.second, 2) + end);
            && Iso(dt) == Digits(dt.year, 4) + "-" + Digits(dt.month, 2) + "-" + (Digits(dt.day, 2) + ("T" + clock))
            && |Iso(dt)| == if dt.micro == 0 then 25 else 32
  {
    IsoTimeExactly(dt);
    FiveParts(Digits(dt.year, 4), "-", Digits(dt.month, 2), "-", Digits(dt.day, 2) + ("T" + IsoTime(dt)));
  }

  // ---- normalization ------------------------------------------------------------

  function Strip(s: string, isSpace: char -> bool): (r: string)
    decreases |s|
  {
    if s == [] then s
    else if isSpace(s[0]) then Strip(s[1..], isSpace)
    else if isSpace(s[|s| - 1]) then Strip(s[..|s| - 1], isSpace)
    else s
  }

  /** A reading with an offset is moved to UTC; one without is taken as UTC. */
  function ToUtc(p: Parsed): (r: Result<DateTime, TimestampError>)
    requires p.local.Valid()
    ensures r.Ok? ==> r.value.Valid() && Instant(r.value) == Instant(p.local) - p.offset.GetOr(0)
    ensures r.Err? <==> !(0 <= Instant(p.local) - p.offset.GetOr(0) < END_OF_TIME)
  {
    InstantInRange(p.local);
    match p.offset
    case None => Ok(p.local)
    case Some(offset) =>
      var t := Instant(p.local) - offset;
      if 0 <= t < END_OF_TIME then Ok(FromInstant(t)) else Err(OutOfRange)
  }

  lemma InstantInRange(dt: DateTime)
    requires dt.Valid()
    ensures 0 <= Instant(dt) < END_OF_TIME
  {
    YearsAreOrdered(1, dt.year);
    YearLength(dt.year);
    YearsAreOrdered(dt.year + 1, MAX_YEAR + 1);
    MonthsAreOrdered(dt.year, dt.month + 1, 13);
    MonthsFillYear(dt.year);
  }

  /** The characters an archive id may consist of. */
  predicate IsIdChar(c: char) {
    'a' <= c <= 'z' || '0' <= c <= '9' || c in "._-"
  }

  /** The platform the store runs on: its whitespace, its case folding, its ISO parser and its clock. */
  datatype Platform = Platform(isSpace: char -> bool, lower: string -> string, parseIso: string -> Option<Parsed>,
      now: DateTime) {
    ghost predicate Valid() {
      && now.Valid()
      && (forall s :: parseIso(s).Some? ==> parseIso(s).value.local.Valid())
      && (forall c :: IsIdChar(c) ==> !isSpace(c))
      && (forall s :: (forall c :: c in s ==> IsIdChar(c)) ==> lower(s) == s)
    }
  }

  function Reading(value: Option<string>, os: Platform): (r: Result<DateTime, TimestampError>)
    requires os.Valid()
    ensures r.Ok? ==> r.value.Valid()
  {
    if value.None? || Strip(value.value, os.isSpace) == "" then Ok(os.now)
    else
      var stripped := Strip(value.value, os.isSpace);
      var raw := if stripped[|stripped| - 1] == 'Z' then stripped[..|stripped| - 1] + "+00:00" else stripped;
      match os.parseIso(raw)
      case None => Err(NotIso)
      case Some(p) => ToUtc(p)
  }

  function NormalizeTimestamp(value: Option<string>, os: Platform): (r: Result<string, TimestampError>)
    requires os.Valid()
  {
    var dt :- Reading(value, os);
    Ok(Iso(dt))
  }

  /** Nothing but spaces stands outside i to j, and no space at the ends of what is inside. */
  ghost predicate StrippedAt(s: string, i: nat, j: nat, isSpace: char -> bool) {
    && i <= j <= |s|
    && (forall k :: 0 <= k < i || j <= k < |s| ==> isSpace(s[k]))
    && (i < j ==> !isSpace(s[i]) && !isSpace(s[j - 1]))
  }

  /** Stripping leaves what is inside, */
  lemma {:induction false} StripExactly(s: string, i: nat, j: nat, isSpace: char -> bool)
    requires StrippedAt(s, i, j, isSpace)
    ensures Strip(s, isSpace) == s[i..j]
    decreases |s|
  {
    var n := |s| - 1;
    if i > 0 {
      StripExactly(s[1..], i - 1, j - 1, isSpace);
      assert s[1..][i - 1..j - 1] == s[i..j];
    } else if j <= n && i == j {
      StripExactly(s[1..], 0, 0, isSpace);
    } else if j <= n {
      StripExactly(s[..n], i, j, isSpace);
      assert s[..n][i..j] == s[i..j];
    }
  }

  /** and there always is such an inside. */
  lemma {:induction false} StripsSomewhere(s: string, isSpace: char -> bool) returns (i: nat, j: nat)
    ensures StrippedAt(s, i, j, isSpace)
    decreases |s|
  {
    var n := |s| - 1;
    if s == [] || (!isSpace(s[0]) && !isSpace(s[n])) {
      i, j := 0, |s|;
    } else if isSpace(s[0]) {
      i, j := StripsSomewhere(s[1..], isSpace);
      i, j := i + 1, j + 1;
    } else {
      i, j := StripsSomewhere(s[..n], isSpace);
    }
  }

  predicate Blank(value: Option<string>, os: Platform) {
    value.None? || forall k :: 0 <= k < |value.value| ==> os.isSpace(value.value[k])
  }

  lemma BlankStripsToNothing(value: Option<string>, os: Platform)
    ensures Blank(value, os) <==> value.None? || Strip(value.value, os.isSpace) == ""
  {
    if value.Some? {
      var i, j := StripsSomewhere(value.value, os.isSpace);
      StripExactly(value.value, i, j, os.isSpace);
      if Blank(value, os) {
        StripExactly(value.value, 0, 0, os.isSpace);
      }
    }
  }

  /** A text as it is given to the ISO parser: a final Z is written as the offset of UTC. */
  function WithOffset(text: string): string
    requires text != ""
  {
    var n := |text| - 1;
    if text[n] == 'Z' then text[..n] + "+00:00" else text
  }

  lemma WithOffsetExactly(front: string, last: char)
    ensures WithOffset(front + [last]) == if last == 'Z' then front + "+00:00" else front + [last]
  {
    assert (front + [last])[..|front|] == front;
  }

  /** What an input that is not blank parses to. */
  function ParsedFrom(value: string, os: Platform): Option<Parsed>
    requires Strip(value, os.isSpace) != ""
  {
    os.parseIso(WithOffset(Strip(value, os.isSpace)))
  }

  /**
    The instant that an input denotes: of a blank one the present, of any other what it
    parses to, less its offset if it has one.
   */
  ghost predicate MeansInstant(value: Option<string>, t: int, os: Platform)
    requires os.Valid()
  {
    BlankStripsToNothing(value, os);
    if Blank(value, os) then t == Instant(os.now)
    else
      && ParsedFrom(value.value, os).Some?
      && var p := ParsedFrom(value.value, os).value; t == Instant(p.local) - p.offset.GetOr(0)
  }

  /** Nothing, or nothing but spaces, is the present. */
  lemma BlankIsNow(value: Option<string>, os: Platform)
    requires os.Valid() && Blank(value, os)
    ensures NormalizeTimestamp(value, os) == Ok(Iso(os.now))
  {
    BlankStripsToNothing(value, os);
  }

  /**
    Any other text is parsed; the result is the text of its instant in UTC, and an error
    exactly if it does not parse or that instant leaves the calendar.
   */
  lemma NormalizedExactly(value: string, os: Platform) returns (dt: DateTime)
    requires os.Valid() && Strip(value, os.isSpace) != ""
    ensures var r := NormalizeTimestamp(Some(value), os);
            match ParsedFrom(value, os)
            case None => r == Err(NotIso)
            case Some(p) =>
              var t := Instant(p.local) - p.offset.GetOr(0);
              if 0 <= t < END_OF_TIME then dt.Valid() && Instant(dt) == t && r == Ok(Iso(dt))
              else r == Err(OutOfRange)
  {
    var text := Strip(value, os.isSpace);
    dt := os.now;
    match os.parseIso(WithOffset(text)) {
      case None =>
      case Some(p) =>
        if ToUtc(p).Ok? {
          dt := ToUtc(p).value;
        }
    }
  }

  /** Every accepted input denotes an instant, and the text is the text of that instant. */
  lemma NormalizedMeansInstant(value: Option<string>, os: Platform) returns (dt: DateTime)
    requires os.Valid() && NormalizeTimestamp(value, os).Ok?
    ensures dt.Valid() && NormalizeTimestamp(value, os) == Ok(Iso(dt)) && MeansInstant(value, Instant(dt), os)
  {
    BlankStripsToNothing(value, os);
    if Blank(value, os) {
      BlankIsNow(value, os);
      dt := os.now;
    } else {
      dt := NormalizedExactly(value.value, os);
    }
  }

  /** Any two normalized timestamps compare as texts exactly as the instants compare that the inputs denote. */
  lemma NormalizedTextsFollowTime(a: Option<string>, b: Option<string>, s: int, t: int, os: Platform)
    requires os.Valid() && MeansInstant(a, s, os) && MeansInstant(b, t, os)
    requires NormalizeTimestamp(a, os).Ok? && NormalizeTimestamp(b, os).Ok?
    ensures Less(NormalizeTimestamp(a, os).value, NormalizeTimestamp(b, os).value) <==> s < t
    ensures NormalizeTimestamp(a, os).value == NormalizeTimestamp(b, os).value <==> s == t
  {
    var x := NormalizedMeansInstant(a, os);
    var y := NormalizedMeansInstant(b, os);
    TextOrderIsTimeOrder(x, y);
  }

  /** The cutoff text of an age limit, or the overflow the date arithmetic raises. */
  function Cutoff(now: DateTime, days: nat): (r: Result<string, TimestampError>)
    requires now.Valid()
    ensures r.Ok? <==> days * MICROS_PER_DAY <= Instant(now)
    ensures r.Ok? ==>
        exists dt: DateTime :: dt.Valid() && r.value == Iso(dt)
          && Instant(dt) == Instant(now) - days * MICROS_PER_DAY
  {
    InstantInRange(now);
    var t := Instant(now) - days * MICROS_PER_DAY;
    if t >= 0 then Ok(Iso(FromInstant(t))) else Err(OutOfRange)
  }
}
