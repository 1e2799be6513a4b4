/** UTC instants at microsecond resolution, as Python's `datetime` holds them:
    the conversion from Unix milliseconds (`utcfromtimestamp(ms / 1000.0)`,
    done here in exact integer arithmetic), the way back, and the RFC 3339
    text that `isoformat()` writes for an instant tagged with `+00:00`,
    together with a reader for that text. */
module Timestamp {
  import opened Wrappers
  import opened Decimal
  import opened Calendar
  import opened Arith

  /** Python's `datetime.MAXYEAR`; `datetime.MINYEAR` is 1. */
  const MaxYear := 9999

  /** Day count (from 0001-01-01) of the Unix epoch, 1970-01-01. */
  const EpochDayNumber := 719162

  const MillisPerDay := 86400000

  datatype DateTime = DateTime(date: Date, hour: int, minute: int, second: int, microsecond: int)

  predicate ValidDateTime(t: DateTime) {
    && ValidDate(t.date) && t.date.year <= MaxYear
    && 0 <= t.hour < 24 && 0 <= t.minute < 60 && 0 <= t.second < 60
    && 0 <= t.microsecond < 1000000
  }

  /** The UTC instant `ms` milliseconds after the epoch, or None when it falls
      outside the years 1 .. 9999 that a Python `datetime` can hold (where
      `utcfromtimestamp` raises). Division floors, as Python's does. */
  function UtcFromMillis(ms: int): Option<DateTime> {
    var secs := ms / 1000;
    var n := EpochDayNumber + secs / 86400;
    var sod := secs % 86400;
    if n < 0 then None
    else
      var d := CivilFromDayNumber(n);
      if d.year > MaxYear then None
      else Some(DateTime(d, sod / 3600, sod % 3600 / 60, sod % 60, ms % 1000 * 1000))
  }

  /** Milliseconds since the epoch of an instant (sub-millisecond part dropped). */
  function ToMillis(t: DateTime): int
    requires ValidDateTime(t)
  {
    ((DayNumber(t.date) - EpochDayNumber) * 86400 + t.hour * 3600 + t.minute * 60 + t.second) * 1000
      + t.microsecond / 1000
  }

  /** The first and one past the last millisecond a `datetime` can represent. */
  const MinMillis := -EpochDayNumber * MillisPerDay
  const EndMillis := (DaysBeforeYear(MaxYear + 1) - EpochDayNumber) * MillisPerDay

  /** `isoformat()` of an aware UTC datetime:
      `YYYY-MM-DDTHH:MM:SS[.ffffff]+00:00`, the fraction only when non-zero. */
  function FormatIso(t: DateTime): string
    requires ValidDateTime(t)
  {
    IsoHead(t) + IsoFraction(t.microsecond) + "+00:00"
  }

  /** The 19-character `YYYY-MM-DDTHH:MM:SS` part. */
  function IsoHead(t: DateTime): string
    requires ValidDateTime(t)
  {
    Pad(t.date.year, 4) + "-" + Pad(t.date.month, 2) + "-" + Pad(t.date.day, 2)
      + "T" + Pad(t.hour, 2) + ":" + Pad(t.minute, 2) + ":" + Pad(t.second, 2)
  }

  /** `.ffffff`, or nothing for a whole second. */
  function IsoFraction(us: nat): string
    requires us < 1000000
  {
    if us == 0 then "" else "." + Pad(us, 6)
  }

  /** The number written in `s[i..j]`. */
  function Field(s: string, i: nat, j: nat): int
    requires i <= j <= |s|
  {
    DigitsValue(s[i..j])
  }

  /** Positions of the digits in the 19-character `YYYY-MM-DDTHH:MM:SS` head. */
  predicate DigitAt(k: int) {
    0 <= k < 19 && k != 4 && k != 7 && k != 10 && k != 13 && k != 16
  }

  /** The head has digits and separators where `isoformat` puts them. */
  predicate WellShapedHead(h: string) {
    && |h| == 19
    && h[4] == '-' && h[7] == '-' && h[10] == 'T' && h[13] == ':' && h[16] == ':'
    && forall k :: 0 <= k < 19 && DigitAt(k) ==> IsDigit(h[k])
  }

  /** Reads back the text `FormatIso` writes; None for any other text,
      including a zero fraction written out, which `isoformat` never does. */
  function ParseIso(s: string): Option<DateTime> {
    if |s| != 25 && |s| != 32 then None
    else
      var head, frac, zone := s[..19], s[19..|s| - 6], s[|s| - 6..];
      if !WellShapedHead(head) || zone != "+00:00" then None
      else if |frac| == 7 && (frac[0] != '.' || !AllDigits(frac[1..])) then None
      else
        var t := DateTime(Date(Field(head, 0, 4), Field(head, 5, 7), Field(head, 8, 10)),
                          Field(head, 11, 13), Field(head, 14, 16), Field(head, 17, 19),
                          if |frac| == 0 then 0 else DigitsValue(frac[1..]));
        if ValidDateTime(t) && (|frac| == 7 <==> t.microsecond != 0) then Some(t) else None
  }

  // ----- Lemmas ----------------------------------------------------------

  lemma EpochIs1970()
    ensures ValidDate(Date(1970, 1, 1)) && DayNumber(Date(1970, 1, 1)) == EpochDayNumber
  {
  }

  /** The hour, minute and second of a second-of-day. */
  lemma ClockOfSecond(sod: int)
    requires 0 <= sod < 86400
    ensures 0 <= sod / 3600 < 24 && 0 <= sod % 3600 / 60 < 60 && 0 <= sod % 60 < 60
    ensures sod / 3600 * 3600 + sod % 3600 / 60 * 60 + sod % 60 == sod
  {
    var rest := sod % 3600;
    assert sod == sod / 3600 * 3600 + rest;
    assert rest == rest / 60 * 60 + rest % 60;
    DivModUnique(sod, 60, sod / 3600 * 60 + rest / 60, rest % 60);
  }

  /** A second-of-day rebuilt from its clock reading splits back into it. */
  lemma SecondOfClock(h: int, m: int, s: int)
    requires 0 <= h < 24 && 0 <= m < 60 && 0 <= s < 60
    ensures var sod := h * 3600 + m * 60 + s;
      && 0 <= sod < 86400 && sod / 3600 == h && sod % 3600 / 60 == m && sod % 60 == s
  {
    var sod := h * 3600 + m * 60 + s;
    DivModUnique(sod, 3600, h, m * 60 + s);
    DivModUnique(m * 60 + s, 60, m, s);
    DivModUnique(sod, 60, h * 60 + m, s);
  }

  /** Milliseconds split into whole days, second of day and millisecond. */
  lemma SplitMillis(ms: int)
    ensures var secs := ms / 1000;
      && 0 <= secs % 86400 < 86400 && 0 <= ms % 1000 < 1000
      && (secs / 86400 * 86400 + secs % 86400) * 1000 + ms % 1000 == ms
  {
  }

  /** Whole days, second of day and millisecond joined into milliseconds
      split back into the same parts. */
  lemma JoinMillis(days: int, sod: int, milli: int)
    requires 0 <= sod < 86400 && 0 <= milli < 1000
    ensures var ms := (days * 86400 + sod) * 1000 + milli;
      ms / 1000 / 86400 == days && ms / 1000 % 86400 == sod && ms % 1000 == milli
  {
    var secs := days * 86400 + sod;
    DivModUnique((days * 86400 + sod) * 1000 + milli, 1000, secs, milli);
    DivModUnique(secs, 86400, days, sod);
  }

  /** An instant converted from milliseconds is a valid datetime whose
      milliseconds are the ones it came from. */
  lemma MillisRoundTrip(ms: int)
    ensures UtcFromMillis(ms).Some? ==>
      var t := UtcFromMillis(ms).value;
      ValidDateTime(t) && t.microsecond % 1000 == 0 && ToMillis(t) == ms
  {
    var secs := ms / 1000;
    var days := secs / 86400;
    var sod := secs % 86400;
    var n := EpochDayNumber + days;
    if n >= 0 {
      CivilFromDayNumberSound(n);
      var d := CivilFromDayNumber(n);
      if d.year <= MaxYear {
        var milli := ms % 1000;
        var t := DateTime(d, sod / 3600, sod % 3600 / 60, sod % 60, milli * 1000);
        assert UtcFromMillis(ms) == Some(t);
        SplitMillis(ms);
        ClockOfSecond(sod);
        DivOfMultiple(milli, 1000);
        assert ToMillis(t) == (days * 86400 + sod) * 1000 + milli;
      }
    }
  }

  /** Every valid whole-millisecond instant is what its milliseconds convert to. */
  lemma MillisOfDateTime(t: DateTime)
    requires ValidDateTime(t) && t.microsecond % 1000 == 0
    ensures UtcFromMillis(ToMillis(t)) == Some(t)
  {
    CivilOfDayNumber(t.date);
    var days := DayNumber(t.date) - EpochDayNumber;
    var milli := t.microsecond / 1000;
    SecondOfClock(t.hour, t.minute, t.second);
    var sod := t.hour * 3600 + t.minute * 60 + t.second;
    assert ToMillis(t) == (days * 86400 + sod) * 1000 + milli;
    JoinMillis(days, sod, milli);
    assert milli * 1000 == t.microsecond;
  }

  /** The conversion succeeds exactly for the milliseconds from 0001-01-01
      up to the end of 9999-12-31. */
  lemma UtcFromMillisRange(ms: int)
    ensures UtcFromMillis(ms).Some? <==> MinMillis <= ms < EndMillis
  {
    var secs := ms / 1000;
    var days := secs / 86400;
    var n := EpochDayNumber + days;
    assert days == ms / MillisPerDay by {
      DivModUnique(ms, MillisPerDay, days, (secs % 86400) * 1000 + ms % 1000);
    }
    assert n < 0 <==> ms < MinMillis;
    if n >= 0 {
      YearBelow(n, MaxYear + 1);
      assert n < DaysBeforeYear(MaxYear + 1) <==> ms < EndMillis;
    }
  }

  /** 1700000000000 ms is 2023-11-14 22:13:20 UTC. */
  lemma ExampleInstant()
    ensures UtcFromMillis(1700000000000) == Some(DateTime(Date(2023, 11, 14), 22, 13, 20, 0))
  {
    var t := DateTime(Date(2023, 11, 14), 22, 13, 20, 0);
    assert DaysBeforeYear(2023) == 738520;
    assert DaysBeforeMonth(2023, 11) == 304;
    assert DayNumber(t.date) == 738837;
    assert ToMillis(t) == 1700000000000;
    MillisOfDateTime(t);
  }

  /** ... and `isoformat` writes it as 2023-11-14T22:13:20+00:00. */
  lemma ExampleText()
    ensures FormatIso(DateTime(Date(2023, 11, 14), 22, 13, 20, 0)) == "2023-11-14T22:13:20+00:00"
  {
    var t := DateTime(Date(2023, 11, 14), 22, 13, 20, 0);
    ExampleDateFields();
    ExampleTimeFields();
    ExampleJoin(Pad(2023, 4), Pad(11, 2), Pad(14, 2), Pad(22, 2), Pad(13, 2), Pad(20, 2));
    assert FormatIso(t) == IsoHead(t) + "+00:00";
  }

  lemma ExampleDateFields()
    ensures Pad(2023, 4) == "2023" && Pad(11, 2) == "11" && Pad(14, 2) == "14"
  {
    assert Pad(2, 1) == "2";
    assert Pad(20, 2) == "20";
    assert Pad(202, 3) == "202";
  }

  lemma ExampleTimeFields()
    ensures Pad(22, 2) == "22" && Pad(13, 2) == "13" && Pad(20, 2) == "20"
  {
  }

  lemma ExampleJoin(y: string, mo: string, d: string, h: string, mi: string, se: string)
    requires y == "2023" && mo == "11" && d == "14" && h == "22" && mi == "13" && se == "20"
    ensures y + "-" + mo + "-" + d + "T" + h + ":" + mi + ":" + se + "+00:00" == "2023-11-14T22:13:20+00:00"
  {
  }

  lemma FormatIsoLength(t: DateTime)
    requires ValidDateTime(t)
    ensures |FormatIso(t)| == if t.microsecond == 0 then 25 else 32
  {
  }

  /** Six digit fields joined with the `isoformat` separators: where each
      field sits in the 19-character head. */
  lemma HeadLayout(y: string, mo: string, d: string, h: string, mi: string, se: string)
    requires |y| == 4 && |mo| == 2 && |d| == 2 && |h| == 2 && |mi| == 2 && |se| == 2
    requires AllDigits(y) && AllDigits(mo) && AllDigits(d) && AllDigits(h) && AllDigits(mi) && AllDigits(se)
    ensures var head := y + "-" + mo + "-" + d + "T" + h + ":" + mi + ":" + se;
      && WellShapedHead(head)
      && head[0..4] == y && head[5..7] == mo && head[8..10] == d
      && head[11..13] == h && head[14..16] == mi && head[17..19] == se
  {
    var head := y + "-" + mo + "-" + d + "T" + h + ":" + mi + ":" + se;
    forall k | 0 <= k < 19 && DigitAt(k) ensures IsDigit(head[k]) {
      if k < 4 { assert head[k] == y[k]; }
      else if k < 7 { assert head[k] == mo[k - 5]; }
      else if k < 10 { assert head[k] == d[k - 8]; }
      else if k < 13 { assert head[k] == h[k - 11]; }
      else if k < 16 { assert head[k] == mi[k - 14]; }
      else { assert head[k] == se[k - 17]; }
    }
  }

  /** The text `isoformat` writes reads back as the same instant. */
  lemma ParseFormatIso(t: DateTime)
    requires ValidDateTime(t)
    ensures ParseIso(FormatIso(t)) == Some(t)
  {
    var head, frac := IsoHead(t), IsoFraction(t.microsecond);
    var s := FormatIso(t);
    HeadLayout(Pad(t.date.year, 4), Pad(t.date.month, 2), Pad(t.date.day, 2),
               Pad(t.hour, 2), Pad(t.minute, 2), Pad(t.second, 2));
    assert s[..19] == head && s[19..|s| - 6] == frac && s[|s| - 6..] == "+00:00";
    PadValue(t.date.year, 4);
    PadValue(t.date.month, 2);
    PadValue(t.date.day, 2);
    PadValue(t.hour, 2);
    PadValue(t.minute, 2);
    PadValue(t.second, 2);
    if t.microsecond != 0 {
      assert frac[1..] == Pad(t.microsecond, 6);
      PadValue(t.microsecond, 6);
    }
  }

  /** Only the text `isoformat` writes is read: whatever `ParseIso` accepts is
      exactly what `FormatIso` writes for the instant it reads. */
  lemma FormatParsedIso(s: string)
    requires ParseIso(s).Some?
    ensures FormatIso(ParseIso(s).value) == s
  {
    var t := ParseIso(s).value;
    var head, frac, zone := s[..19], s[19..|s| - 6], s[|s| - 6..];
    ParsedParts(s);
    HeadOfFields(t, head);
    FractionOfDigits(t.microsecond, frac);
    SplitThree(s, 19, |s| - 6);
  }

  lemma SplitThree(s: string, i: nat, j: nat)
    requires i <= j <= |s|
    ensures s == s[..i] + s[i..j] + s[j..]
  {
  }

  /** A datetime whose fields are those of a well-shaped head is written
      with that head. */
  lemma HeadOfFields(t: DateTime, head: string)
    requires ValidDateTime(t) && WellShapedHead(head)
    requires t.date == Date(Field(head, 0, 4), Field(head, 5, 7), Field(head, 8, 10))
    requires t.hour == Field(head, 11, 13) && t.minute == Field(head, 14, 16) && t.second == Field(head, 17, 19)
    ensures IsoHead(t) == head
  {
    HeadFields(head);
  }

  /** A fraction `ParseIso` accepts is written back the same way. */
  lemma FractionOfDigits(us: nat, frac: string)
    requires us < 1000000
    requires |frac| == 0 || |frac| == 7
    requires |frac| == 7 ==> frac[0] == '.' && AllDigits(frac[1..])
    requires us == (if |frac| == 0 then 0 else DigitsValue(frac[1..]))
    requires |frac| == 7 <==> us != 0
    ensures IsoFraction(us) == frac
  {
    if |frac| == 7 {
      PadOfValue(frac[1..]);
      assert frac == "." + frac[1..];
    }
  }

  /** What an accepted text consists of. */
  lemma ParsedParts(s: string)
    requires ParseIso(s).Some?
    ensures |s| == 25 || |s| == 32
    ensures var head, frac := s[..19], s[19..|s| - 6];
      && WellShapedHead(head) && s[|s| - 6..] == "+00:00"
      && (|frac| == 7 ==> frac[0] == '.' && AllDigits(frac[1..]))
      && var t := ParseIso(s).value;
      && t.date == Date(Field(head, 0, 4), Field(head, 5, 7), Field(head, 8, 10))
      && t.hour == Field(head, 11, 13) && t.minute == Field(head, 14, 16) && t.second == Field(head, 17, 19)
      && t.microsecond == (if |frac| == 0 then 0 else DigitsValue(frac[1..]))
      && ValidDateTime(t) && (|frac| == 7 <==> t.microsecond != 0)
  {
  }

  /** The six numeric fields of a well-shaped head, written back at their
      widths, give the head again. */
  lemma HeadFields(h: string)
    requires WellShapedHead(h)
    ensures Field(h, 0, 4) >= 0 && Field(h, 5, 7) >= 0 && Field(h, 8, 10) >= 0
    ensures Field(h, 11, 13) >= 0 && Field(h, 14, 16) >= 0 && Field(h, 17, 19) >= 0
    ensures h == Pad(Field(h, 0, 4), 4) + "-" + Pad(Field(h, 5, 7), 2) + "-" + Pad(Field(h, 8, 10), 2)
      + "T" + Pad(Field(h, 11, 13), 2) + ":" + Pad(Field(h, 14, 16), 2) + ":" + Pad(Field(h, 17, 19), 2)
  {
    DigitField(h, 0, 4);
    DigitField(h, 5, 7);
    DigitField(h, 8, 10);
    DigitField(h, 11, 13);
    DigitField(h, 14, 16);
    DigitField(h, 17, 19);
    var parts := h[0..4] + [h[4]] + h[5..7] + [h[7]] + h[8..10] + [h[10]]
      + h[11..13] + [h[13]] + h[14..16] + [h[16]] + h[17..19];
    assert |parts| == 19;
    forall k | 0 <= k < 19 ensures parts[k] == h[k] {
    }
    assert h == parts;
  }

  lemma DigitField(h: string, i: nat, j: nat)
    requires WellShapedHead(h)
    requires i <= j <= 19 && forall k :: i <= k < j ==> DigitAt(k)
    ensures Field(h, i, j) >= 0 && Pad(Field(h, i, j), j - i) == h[i..j]
  {
    assert forall k :: 0 <= k < j - i ==> h[i..j][k] == h[i + k] && DigitAt(i + k);
    PadOfValue(h[i..j]);
  }
}
