/**
 * The UTC timestamp field YYYYMMDD-HH:MM:SS.mmm: the clock's seconds split
 * into a day number and a time of day, the day turned into a civil date
 * through a one-entry cache keyed by the day number, and the 21 characters
 * written at fixed positions after the tag.
 */
module Timestamp {
  import opened Ascii
  import opened DigitPairs
  import opened Writing
  import opened Calendar

  /** Seconds since the epoch split into whole days and a time of day. */
  datatype UtcTime = UtcTime(days: nat, hour: nat, minute: nat, second: nat)

  /** Splits a count of seconds since 1970-01-01T00:00:00 UTC. */
  function SplitSeconds(secs: nat): (t: UtcTime)
    ensures t.hour < 24 && t.minute < 60 && t.second < 60
    ensures t.days * 86_400 + t.hour * 3_600 + t.minute * 60 + t.second == secs
  {
    var secOfDay := secs % 86_400;
    var remaining := secOfDay % 3_600;
    UtcTime(secs / 86_400, secOfDay / 3_600, remaining / 60, remaining % 60)
  }

  /** The split is the only one with an in-range time of day: recomposing and splitting again is the identity. */
  lemma SplitSecondsUnique(t: UtcTime)
    requires t.hour < 24 && t.minute < 60 && t.second < 60
    ensures SplitSeconds(t.days * 86_400 + t.hour * 3_600 + t.minute * 60 + t.second) == t
  {
    var secOfDay := t.hour * 3_600 + t.minute * 60 + t.second;
    var secs := t.days * 86_400 + secOfDay;
    DivModUnique(secs, 86_400, t.days, secOfDay);
    DivModUnique(secOfDay, 3_600, t.hour, t.minute * 60 + t.second);
    DivModUnique(t.minute * 60 + t.second, 60, t.minute, t.second);
  }

  /** The date as the writer holds it: a 16-bit year and byte-sized month and day. */
  datatype DateParts = DateParts(year: u16, month: u8, day: u8)

  /**
   * The date of a day number as the writer computes it: the conversion with
   * its year adjustment as written (one year back for January and February,
   * where one year forward is meant), the year truncated to 16 bits.
   */
  function DateOfDay(days: nat): (d: DateParts)
    ensures 1 <= d.month <= 12 && 1 <= d.day <= 31
  {
    var civil := CivilFromDaysAsWritten(days);
    CivilFromDaysValid(days);
    AsWrittenMisdatesJanuaryAndFebruary(days);
    DateParts(civil.year % TWO_16, civil.month, civil.day)
  }

  /**
   * Against the Gregorian date of the day: month and day are right, the year
   * is right from March to December and two too small in January and
   * February (when it fits 16 bits, so nothing is truncated).
   */
  lemma DateOfDayMisdatesJanuaryAndFebruary(days: nat)
    requires 2 <= CivilFromDays(days).year < TWO_16
    ensures var d := DateOfDay(days); var c := CivilFromDays(days);
      d.month == c.month && d.day == c.day &&
      d.year == (if c.month <= 2 then c.year - 2 else c.year)
  {
    var c := CivilFromDays(days);
    AsWrittenMisdatesJanuaryAndFebruary(days);
    var y := CivilFromDaysAsWritten(days).year;
    DivModUnique(y, TWO_16, 0, y);
  }

  /**
   * The cache word: year in bits 32..47, month in bits 16..23, day in bits
   * 0..7. The fields do not overlap, so the bitwise or is this sum.
   */
  function Pack(d: DateParts): (p: u64)
    ensures Unpack(p) == d
  {
    var p := d.year * TWO_32 + d.month * TWO_16 + d.day;
    DivModUnique(p, TWO_32, d.year, d.month * TWO_16 + d.day);
    DivModUnique(p / TWO_32, TWO_16, 0, d.year);
    DivModUnique(p, TWO_16, d.year * TWO_16 + d.month, d.day);
    DivModUnique(p / TWO_16, 0x100, d.year * 0x100, d.month);
    DivModUnique(p, 0x100, d.year * 0x100_0000 + d.month * 0x100, d.day);
    p
  }

  /** Reads the cache word back with the writer's shifts and masks. */
  function Unpack(p: u64): DateParts {
    DateParts((p / TWO_32) % TWO_16, (p / TWO_16) % 0x100, p % 0x100)
  }

  /**
   * The one-entry date cache: the last day number converted and its packed
   * date. Day 0 doubles as "empty", so 1970-01-01 is never served from the
   * cache.
   */
  class DateCache {
    var cachedDay: u64
    var cachedBytes: u64

    ghost predicate Valid()
      reads this
    {
      cachedDay != 0 ==> Unpack(cachedBytes) == DateOfDay(cachedDay)
    }

    constructor ()
      ensures Valid() && cachedDay == 0 && cachedBytes == 0
    {
      cachedDay := 0;
      cachedBytes := 0;
    }

    /**
     * The date of a day number. A hit (same nonzero day as cached) unpacks
     * the cached word; a miss converts the day and stores it with its packed
     * date. Either way the date is that day's date.
     */
    method Lookup(currentDay: u64) returns (date: DateParts)
      requires Valid()
      modifies this
      ensures Valid()
      ensures date == DateOfDay(currentDay)
      ensures cachedDay == currentDay
      ensures old(cachedDay) == currentDay && currentDay != 0 ==> cachedBytes == old(cachedBytes)
      ensures !(old(cachedDay) == currentDay && currentDay != 0) ==> cachedBytes == Pack(date)
    {
      if currentDay == cachedDay && cachedDay != 0 {
        date := Unpack(cachedBytes);
      } else {
        date := DateOfDay(currentDay);
        cachedDay := currentDay;
        cachedBytes := Pack(date);
      }
    }
  }

  /** The eight date characters YYYYMMDD. */
  function DateText(d: DateParts): seq<u8> {
    Padded(d.year, 4) + Padded(d.month, 2) + Padded(d.day, 2)
  }

  /** The thirteen time characters -HH:MM:SS.mmm. */
  function TimeText(t: UtcTime, millis: nat): seq<u8> {
    [MINUS] + Padded(t.hour, 2) + [COLON] + Padded(t.minute, 2) + [COLON] + Padded(t.second, 2) + [DOT] + Padded(millis, 3)
  }

  /** The timestamp value YYYYMMDD-HH:MM:SS.mmm. */
  function TimestampText(d: DateParts, t: UtcTime, millis: nat): seq<u8> {
    DateText(d) + TimeText(t, millis)
  }

  /** The fixed format: 21 characters, separators at 8, 11, 14 and 17, digits everywhere else. */
  lemma TimestampFormat(d: DateParts, t: UtcTime, millis: nat)
    ensures var s := TimestampText(d, t, millis);
      |s| == 21 && s[8] == MINUS && s[11] == COLON && s[14] == COLON && s[17] == DOT &&
      forall j :: 0 <= j < 21 && j != 8 && j != 11 && j != 14 && j != 17 ==> IsDigit(s[j])
  {
    var s := TimestampText(d, t, millis);
    var y, mo, da := Padded(d.year, 4), Padded(d.month, 2), Padded(d.day, 2);
    var h, mi, se, ms := Padded(t.hour, 2), Padded(t.minute, 2), Padded(t.second, 2), Padded(millis, 3);
    assert s == y + mo + da + [MINUS] + h + [COLON] + mi + [COLON] + se + [DOT] + ms;
    forall j | 0 <= j < 21 && j != 8 && j != 11 && j != 14 && j != 17
      ensures IsDigit(s[j])
    {
      if j < 4 { assert s[j] == y[j]; }
      else if j < 6 { assert s[j] == mo[j - 4]; }
      else if j < 8 { assert s[j] == da[j - 6]; }
      else if j < 11 { assert s[j] == h[j - 9]; }
      else if j < 14 { assert s[j] == mi[j - 12]; }
      else if j < 17 { assert s[j] == se[j - 15]; }
      else { assert s[j] == ms[j - 18]; }
    }
  }

  lemma PaddedExact(n: nat, w: nat)
    requires n < Pow10(w)
    ensures DecimalValue(Padded(n, w)) == n
  {
    PaddedValue(n, w);
    DivModUnique(n, Pow10(w), 0, n);
  }

  /** The date columns read back as year, month and day. */
  lemma DateReadBack(d: DateParts)
    requires d.year < 10_000 && d.month < 100 && d.day < 100
    ensures var s := DateText(d);
      |s| == 8 && DecimalValue(s[0..4]) == d.year && DecimalValue(s[4..6]) == d.month && DecimalValue(s[6..8]) == d.day
  {
    var s := DateText(d);
    assert s[0..4] == Padded(d.year, 4) && s[4..6] == Padded(d.month, 2) && s[6..8] == Padded(d.day, 2);
    assert Pow10(2) == 100 && Pow10(4) == 10_000;
    PaddedExact(d.year, 4);
    PaddedExact(d.month, 2);
    PaddedExact(d.day, 2);
  }

  /** The time columns read back as hour, minute, second and milliseconds. */
  lemma TimeReadBack(t: UtcTime, millis: nat)
    requires t.hour < 24 && t.minute < 60 && t.second < 60 && millis < 1000
    ensures var s := TimeText(t, millis);
      |s| == 13 && DecimalValue(s[1..3]) == t.hour && DecimalValue(s[4..6]) == t.minute &&
      DecimalValue(s[7..9]) == t.second && DecimalValue(s[10..13]) == millis
  {
    var s := TimeText(t, millis);
    assert s[1..3] == Padded(t.hour, 2) && s[4..6] == Padded(t.minute, 2);
    assert s[7..9] == Padded(t.second, 2) && s[10..13] == Padded(millis, 3);
    assert Pow10(2) == 100 && Pow10(3) == 1000;
    PaddedExact(t.hour, 2);
    PaddedExact(t.minute, 2);
    PaddedExact(t.second, 2);
    PaddedExact(millis, 3);
  }

  /** Every field of a timestamp reads back from its columns. */
  lemma TimestampReadBack(d: DateParts, t: UtcTime, millis: nat)
    requires d.year < 10_000 && d.month < 100 && d.day < 100
    requires t.hour < 24 && t.minute < 60 && t.second < 60 && millis < 1000
    ensures var s := TimestampText(d, t, millis);
      |s| == 21 &&
      DecimalValue(s[0..4]) == d.year && DecimalValue(s[4..6]) == d.month && DecimalValue(s[6..8]) == d.day &&
      DecimalValue(s[9..11]) == t.hour && DecimalValue(s[12..14]) == t.minute &&
      DecimalValue(s[15..17]) == t.second && DecimalValue(s[18..21]) == millis
  {
    var s, ds, ts := TimestampText(d, t, millis), DateText(d), TimeText(t, millis);
    DateReadBack(d);
    TimeReadBack(t, millis);
    assert s[0..4] == ds[0..4] && s[4..6] == ds[4..6] && s[6..8] == ds[6..8];
    assert s[9..11] == ts[1..3] && s[12..14] == ts[4..6] && s[15..17] == ts[7..9] && s[18..21] == ts[10..13];
  }

  /** Second 0 is midnight of day 0, which the writer dates 1968-01-01. */
  lemma EpochFields()
    ensures DateOfDay(0) == DateParts(1968, 1, 1)
    ensures SplitSeconds(0) == UtcTime(0, 0, 0, 0)
  {
    AsWrittenEpochIs1968();
  }

  /** The value written for second 0 is "19680101-00:00:00.000", not "19700101-00:00:00.000". */
  lemma EpochText()
    ensures TimestampText(DateOfDay(0), SplitSeconds(0), 0)
      == [49, 57, 54, 56, ZERO, 49, ZERO, 49] + [MINUS, ZERO, ZERO, COLON, ZERO, ZERO, COLON, ZERO, ZERO, DOT, ZERO, ZERO, ZERO]
  {
    EpochFields();
    EpochDateText();
    EpochTimeText();
  }

  lemma EpochDateText()
    ensures DateText(DateParts(1968, 1, 1)) == [49, 57, 54, 56, ZERO, 49, ZERO, 49]
  {
    assert Padded(1, 1) == [49];
    assert Padded(19, 2) == Padded(1, 1) + [57];
    assert Padded(196, 3) == Padded(19, 2) + [54];
    assert Padded(1968, 4) == Padded(196, 3) + [56];
    assert Padded(0, 1) == [ZERO];
    assert Padded(1, 2) == Padded(0, 1) + [49];
  }

  lemma EpochTimeText()
    ensures TimeText(UtcTime(0, 0, 0, 0), 0) == [MINUS, ZERO, ZERO, COLON, ZERO, ZERO, COLON, ZERO, ZERO, DOT, ZERO, ZERO, ZERO]
  {
    assert Padded(0, 1) == [ZERO];
    assert Padded(0, 2) == Padded(0, 1) + [ZERO];
    assert Padded(0, 3) == Padded(0, 2) + [ZERO];
  }

  /** Appends the two digits of k (from the digit-pair table) after the bytes written so far. */
  method AppendPair(buf: array<u8>, ghost before: seq<u8>, start: nat, ghost written: seq<u8>, at: nat, k: nat)
    requires at == start + |written| && k < 100 && at + 2 <= buf.Length == |before|
    requires buf[..] == Splice(before, start, written)
    modifies buf
    ensures buf[..] == Splice(before, start, written + Padded(k, 2))
  {
    PutPair(buf, at, k);
    SpliceAdjacent(before, start, written, Padded(k, 2));
  }

  /** Appends one byte after the bytes written so far. */
  method AppendByte(buf: array<u8>, ghost before: seq<u8>, start: nat, ghost written: seq<u8>, at: nat, b: u8)
    requires at == start + |written| && at + 1 <= buf.Length == |before|
    requires buf[..] == Splice(before, start, written)
    modifies buf
    ensures buf[..] == Splice(before, start, written + [b])
  {
    PutByte(buf, at, b);
    SpliceAdjacent(before, start, written, [b]);
  }

  /** Writes YYYYMMDD at p: the year as two pairs, then month and day. */
  method WriteDate(buf: array<u8>, p: nat, d: DateParts)
    requires d.year < 10_000 && d.month < 100 && d.day < 100
    requires p + 8 <= buf.Length
    modifies buf
    ensures buf[..] == Splice(old(buf[..]), p, DateText(d))
  {
    ghost var before := buf[..];
    AppendPair(buf, before, p, [], p, d.year / 100);
    AppendPair(buf, before, p, Padded(d.year / 100, 2), p + 2, d.year % 100);
    PaddedPeelPair(d.year, 2);
    AppendPair(buf, before, p, Padded(d.year, 4), p + 4, d.month);
    AppendPair(buf, before, p, Padded(d.year, 4) + Padded(d.month, 2), p + 6, d.day);
  }

  /** Appends a separator and the two digits of k. */
  method AppendSeparatedPair(buf: array<u8>, ghost before: seq<u8>, start: nat, ghost written: seq<u8>, at: nat, sep: u8, k: nat)
    requires at == start + |written| && k < 100 && at + 3 <= buf.Length == |before|
    requires buf[..] == Splice(before, start, written)
    modifies buf
    ensures buf[..] == Splice(before, start, written + [sep] + Padded(k, 2))
  {
    AppendByte(buf, before, start, written, at, sep);
    AppendPair(buf, before, start, written + [sep], at + 1, k);
  }

  /** Writes -HH:MM:SS.mmm at p: the millisecond hundreds and tens as a pair, the units as one digit. */
  method WriteTime(buf: array<u8>, p: nat, t: UtcTime, millis: nat)
    requires t.hour < 24 && t.minute < 60 && t.second < 60 && millis < 1000
    requires p + 13 <= buf.Length
    modifies buf
    ensures buf[..] == Splice(old(buf[..]), p, TimeText(t, millis))
  {
    ghost var before := buf[..];
    ghost var hh := [MINUS] + Padded(t.hour, 2);
    ghost var mm := hh + [COLON] + Padded(t.minute, 2);
    ghost var ss := mm + [COLON] + Padded(t.second, 2);
    ghost var frac := ss + [DOT] + Padded(millis / 10, 2);
    AppendSeparatedPair(buf, before, p, [], p, MINUS, t.hour);
    assert [] + [MINUS] + Padded(t.hour, 2) == hh;
    AppendSeparatedPair(buf, before, p, hh, p + 3, COLON, t.minute);
    AppendSeparatedPair(buf, before, p, mm, p + 6, COLON, t.second);
    AppendSeparatedPair(buf, before, p, ss, p + 9, DOT, millis / 10);
    AppendByte(buf, before, p, frac, p + 12, ZERO + millis % 10);
    assert Padded(millis, 3) == Padded(millis / 10, 2) + [ZERO + millis % 10];
    assert frac + [ZERO + millis % 10] == TimeText(t, millis);
  }

  /** Writes the 21 timestamp characters and the closing SOH at p. */
  method WriteTimestampValue(buf: array<u8>, p: nat, date: DateParts, t: UtcTime, millis: nat)
    requires date.year < 10_000 && date.month < 100 && date.day < 100
    requires t.hour < 24 && t.minute < 60 && t.second < 60 && millis < 1000
    requires p + 22 <= buf.Length
    modifies buf
    ensures buf[..] == Splice(old(buf[..]), p, TimestampText(date, t, millis) + [SOH])
  {
    ghost var before := buf[..];
    WriteDate(buf, p, date);
    WriteTime(buf, p + 8, t, millis);
    SpliceAdjacent(before, p, DateText(date), TimeText(t, millis));
    PutByte(buf, p + 21, SOH);
    SpliceAdjacent(before, p, TimestampText(date, t, millis), [SOH]);
  }

  /** Writes tag ++ the timestamp of the given date and time ++ SOH. */
  method WriteTimestampField(bytes: array<u8>, offset: nat, tagAndEq: seq<u8>, date: DateParts, t: UtcTime, millis: nat)
    returns (len: nat)
    requires date.year < 10_000 && date.month < 100 && date.day < 100
    requires t.hour < 24 && t.minute < 60 && t.second < 60 && millis < 1000
    requires offset + |tagAndEq| + 22 <= bytes.Length
    modifies bytes
    ensures len == |tagAndEq| + 22
    ensures bytes[..] == Splice(old(bytes[..]), offset, Field(tagAndEq, TimestampText(date, t, millis)))
  {
    ghost var before := bytes[..];
    CopyBytes(bytes, offset, tagAndEq);
    WriteTimestampValue(bytes, offset + |tagAndEq|, date, t, millis);
    SpliceAdjacent(before, offset, tagAndEq, TimestampText(date, t, millis) + [SOH]);
    assert tagAndEq + (TimestampText(date, t, millis) + [SOH]) == Field(tagAndEq, TimestampText(date, t, millis));
    len := |tagAndEq| + 22;
  }

  /**
   * Writes tag ++ YYYYMMDD-HH:MM:SS.mmm ++ SOH for the clock reading
   * (secs, millis) and returns |tag| + 22. The date comes through the cache.
   * The year must have four digits: a larger one would index past the end
   * of the digit-pair table.
   */
  method WriteTagAndTimestamp(cache: DateCache, bytes: array<u8>, offset: nat, tagAndEq: seq<u8>, secs: nat, millis: nat)
    returns (len: nat)
    requires cache.Valid()
    requires secs < 0x8000_0000_0000_0000 && millis < 1000
    requires DateOfDay(secs / 86_400).year < 10_000
    requires offset + |tagAndEq| + 22 <= bytes.Length
    modifies cache, bytes
    ensures cache.Valid() && cache.cachedDay == secs / 86_400
    ensures len == |tagAndEq| + 22
    ensures bytes[..] == Splice(old(bytes[..]), offset,
      Field(tagAndEq, TimestampText(DateOfDay(secs / 86_400), SplitSeconds(secs), millis)))
  {
    var days := secs / 86_400;
    var t := SplitSeconds(secs);
    var date := cache.Lookup(days);
    len := WriteTimestampField(bytes, offset, tagAndEq, date, t, millis);
  }
}
