/** The incremental-sync watermark: the newest `start_date` already stored,
    read back as a naive `datetime` from six fixed slices of its ISO text. */
module Watermark {
  import opened Base
  import opened Records
  import opened Decimal

  /** `int(s)` on the ASCII digit strings this model admits: it raises
      unless `s` is a non-empty string of digits, and the number it reads, zero-padded back
      to the width of `s`, is `s` again. */
  function ParseInt(s: string): (r: Option<nat>)
    ensures r.Some? <==> s != [] && AllDigits(s)
    ensures r.Some? ==> r.value < Pow10(|s|) && Padded(r.value, |s|) == s
  {
    if s != [] && AllDigits(s) then
      ValueBound(s);
      ValueInjective(Padded(Value(s), |s|), s);
      Some(Value(s))
    else None
  }

  /** A naive `datetime(year, month, day, hour, minute, second)`. */
  datatype DateTime = DateTime(year: int, month: int, day: int, hour: int, minute: int, second: int)

  predicate IsLeap(y: int) {
    y % 4 == 0 && (y % 100 != 0 || y % 400 == 0)
  }

  function DaysInMonth(y: int, m: int): (d: int)
    requires 1 <= m <= 12
    ensures 28 <= d <= 31
    ensures d == 29 <==> m == 2 && IsLeap(y)
    ensures d == 28 <==> m == 2 && !IsLeap(y)
    ensures d == 30 <==> m == 4 || m == 6 || m == 9 || m == 11
  {
    if m == 2 then (if IsLeap(y) then 29 else 28)
    else if m == 4 || m == 6 || m == 9 || m == 11 then 30
    else 31
  }

  /** The field ranges `datetime()` accepts; outside them it raises `ValueError`. */
  predicate ValidDateTime(dt: DateTime) {
    1 <= dt.year <= 9999 && 1 <= dt.month <= 12 &&
    1 <= dt.day <= DaysInMonth(dt.year, dt.month) &&
    0 <= dt.hour <= 23 && 0 <= dt.minute <= 59 && 0 <= dt.second <= 59
  }

  /** What `SELECT MAX(start_date)` through `rows_where` yields: no row at all
      when the activities table is missing, NULL when it is empty, else the
      greatest stored text. */
  datatype MaxStartDate = NoActivitiesTable | Null | Text(s: string)

  /** SQLite's default (binary) ordering of text, for ASCII strings. */
  predicate TextLe(a: string, b: string)
    decreases |a|
  {
    a == [] || (b != [] && (a[0] < b[0] || (a[0] == b[0] && TextLe(a[1..], b[1..]))))
  }

  /** `q` is what the aggregate query returns on a table that is `present` or
      not and holds `rows`. */
  ghost predicate IsMaxStartDate(q: MaxStartDate, present: bool, rows: map<int, Activity>) {
    match q
    case NoActivitiesTable => !present
    case Null => present && rows == map[]
    case Text(s) =>
      present &&
      (exists id :: id in rows && rows[id].startDate == s) &&
      (forall id :: id in rows ==> TextLe(rows[id].startDate, s))
  }

  /** The `try` block of the `activities` command: the missing table (an
      `IndexError` on the empty row list) means no watermark; a NULL maximum
      raises `TypeError`; a slice that is not a number, or fields out of
      range, raise `ValueError`. */
  function ReadWatermark(q: MaxStartDate): (r: Result<Option<DateTime>, Error>)
    ensures r == Ok(None) <==> q.NoActivitiesTable?
    ensures r == Err(NullMaxStartDate) <==> q.Null?
    ensures r.Ok? && r.value.Some? ==> ValidDateTime(r.value.value)
    ensures r.Err? ==> r.error == NullMaxStartDate || r.error == MalformedStartDate
  {
    match q
    case NoActivitiesTable => Ok(None)
    case Null => Err(NullMaxStartDate)
    case Text(s) =>
      var year, month, day := ParseInt(Slice(s, 0, 4)), ParseInt(Slice(s, 5, 7)), ParseInt(Slice(s, 8, 10));
      var hour, minute, second := ParseInt(Slice(s, 11, 13)), ParseInt(Slice(s, 14, 16)), ParseInt(Slice(s, 17, 19));
      if year.None? || month.None? || day.None? || hour.None? || minute.None? || second.None? then
        Err(MalformedStartDate)
      else
        var dt := DateTime(year.value, month.value, day.value, hour.value, minute.value, second.value);
        if ValidDateTime(dt) then Ok(Some(dt)) else Err(MalformedStartDate)
  }

  /** `YYYY-MM-DDTHH:MM:SS`, the form in which the API reports `start_date`
      (before its trailing `Z`). */
  function FormatIso(dt: DateTime): (r: string)
    requires ValidDateTime(dt)
    ensures |r| == 19
  {
    Padded(dt.year, 4) + "-" + Padded(dt.month, 2) + "-" + Padded(dt.day, 2) + "T" +
    Padded(dt.hour, 2) + ":" + Padded(dt.minute, 2) + ":" + Padded(dt.second, 2)
  }

  /** Reading a zero-padded field back gives the number that was printed. */
  lemma ParseIntPadded(n: nat, w: nat)
    requires 1 <= w && n < Pow10(w)
    ensures ParseInt(Padded(n, w)) == Some(n)
  {
  }

  /** A stored timestamp that the API wrote (any suffix, such as `Z`) reads
      back as the same date and time. */
  lemma WatermarkRoundTrip(dt: DateTime, suffix: string)
    requires ValidDateTime(dt)
    ensures ReadWatermark(Text(FormatIso(dt) + suffix)) == Ok(Some(dt))
  {
    var y, mo, d := Padded(dt.year, 4), Padded(dt.month, 2), Padded(dt.day, 2);
    var h, mi, se := Padded(dt.hour, 2), Padded(dt.minute, 2), Padded(dt.second, 2);
    var s := FormatIso(dt) + suffix;
    assert s == y + "-" + mo + "-" + d + "T" + h + ":" + mi + ":" + se + suffix;
    FieldsAt(s, y, mo, d, h, mi, se, suffix);
    ParseIntPadded(dt.year, 4);
    ParseIntPadded(dt.month, 2);
    ParseIntPadded(dt.day, 2);
    ParseIntPadded(dt.hour, 2);
    ParseIntPadded(dt.minute, 2);
    ParseIntPadded(dt.second, 2);
  }

  /** Where the six slices fall in `YYYY-MM-DDTHH:MM:SS`. */
  lemma FieldsAt(s: string, y: string, mo: string, d: string, h: string, mi: string, se: string, suffix: string)
    requires |y| == 4 && |mo| == 2 && |d| == 2 && |h| == 2 && |mi| == 2 && |se| == 2
    requires s == y + "-" + mo + "-" + d + "T" + h + ":" + mi + ":" + se + suffix
    ensures Slice(s, 0, 4) == y && Slice(s, 5, 7) == mo && Slice(s, 8, 10) == d
    ensures Slice(s, 11, 13) == h && Slice(s, 14, 16) == mi && Slice(s, 17, 19) == se
  {
    assert s[0..4] == y;
    assert s[5..7] == mo;
    assert s[8..10] == d;
    assert s[11..13] == h;
    assert s[14..16] == mi;
    assert s[17..19] == se;
  }

  /** Only the first 19 characters of the stored text are read. */
  lemma WatermarkReadsNineteen(s: string, t: string)
    requires |s| >= 19 && |t| >= 19 && s[..19] == t[..19]
    ensures ReadWatermark(Text(s)) == ReadWatermark(Text(t))
  {
    assert Slice(s, 0, 4) == Slice(t, 0, 4);
    assert Slice(s, 5, 7) == Slice(t, 5, 7);
    assert Slice(s, 8, 10) == Slice(t, 8, 10);
    assert Slice(s, 11, 13) == Slice(t, 11, 13);
    assert Slice(s, 14, 16) == Slice(t, 14, 16);
    assert Slice(s, 17, 19) == Slice(t, 17, 19);
  }

  /** A stored text too short to reach the seconds field makes `int('')` raise. */
  lemma ShortTextIsMalformed(s: string)
    requires |s| <= 17
    ensures ReadWatermark(Text(s)) == Err(MalformedStartDate)
  {
    assert Slice(s, 17, 19) == [];
  }

  /** Without an activities table the sync starts with no watermark. */
  lemma MissingTableHasNoWatermark(q: MaxStartDate, rows: map<int, Activity>)
    requires IsMaxStartDate(q, false, rows)
    ensures ReadWatermark(q) == Ok(None)
  {
  }

  /** On a table that exists but holds no row the maximum is NULL, and
      slicing it raises before `--all-activities` is even looked at. */
  lemma EmptyTableRaises(q: MaxStartDate)
    requires IsMaxStartDate(q, true, map[])
    ensures ReadWatermark(q) == Err(NullMaxStartDate)
  {
  }

  /** Two texts that are each at most the other are equal. */
  lemma {:induction false} TextLeAntisymmetric(a: string, b: string)
    requires TextLe(a, b) && TextLe(b, a)
    ensures a == b
    decreases |a|
  {
    if a != [] {
      TextLeAntisymmetric(a[1..], b[1..]);
      assert a == [a[0]] + a[1..] && b == [b[0]] + b[1..];
    }
  }

  /** When the newest stored start date is the API's text for `dt`, the
      watermark is `dt`. */
  lemma NewestStartDateIsWatermark(
    q: MaxStartDate, rows: map<int, Activity>, newest: int, dt: DateTime, suffix: string)
    requires IsMaxStartDate(q, true, rows)
    requires ValidDateTime(dt) && newest in rows && rows[newest].startDate == FormatIso(dt) + suffix
    requires forall id :: id in rows ==> TextLe(rows[id].startDate, rows[newest].startDate)
    ensures ReadWatermark(q) == Ok(Some(dt))
  {
    assert q.Text?;
    var id :| id in rows && rows[id].startDate == q.s;
    TextLeAntisymmetric(q.s, rows[newest].startDate);
    WatermarkRoundTrip(dt, suffix);
  }
}
