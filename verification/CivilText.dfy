/** Dates as text: `YYYY-MM-DD` (civil.rs) and the `YYYYMMDD-HHMMSS` stamp that
    names backups (dbtools.rs). Text is a sequence of bytes, one `char` each. */
module CivilText {
  import opened Options
  import opened StringOrder
  import opened Decimal
  import opened Civil

  const I32_MAX := 0x7fff_ffff
  const U32_MAX := 0xffff_ffff

  /** `{y:04}`: the sign counts toward the width. */
  function PaddedYear(y: int): string {
    if y < 0 then "-" + Padded(-y, 3) else Padded(y, 4)
  }

  function Display(dt: Date): string
    requires Valid(dt)
  {
    PaddedYear(dt.y) + "-" + Padded(dt.m, 2) + "-" + Padded(dt.d, 2)
  }

  function Parse(s: string): (dt: Option<Date>)
    ensures dt.Some? ==> |s| == 10 && Valid(dt.value)
  {
    if |s| != 10 || s[4] != '-' || s[7] != '-' then None
    else
      match (ParseSigned(s[0..4], I32_MAX), ParseUnsigned(s[5..7], U32_MAX), ParseUnsigned(s[8..10], U32_MAX))
      case (Some(y), Some(m), Some(d)) =>
        var date := Date(y, m, d);
        RoundTripIffValid(date);
        if m >= 1 && d >= 1 && FromDays(ToDays(date)) == date then Some(date) else None
      case _ => None
  }

  /** Only calendar dates are accepted, and every one that the fields can spell. */
  lemma ParseAcceptsCalendarDates(s: string, dt: Date)
    ensures Parse(s) == Some(dt) <==>
            && |s| == 10 && s[4] == '-' && s[7] == '-' && Valid(dt)
            && ParseSigned(s[0..4], I32_MAX) == Some(dt.y)
            && ParseUnsigned(s[5..7], U32_MAX) == Some(dt.m)
            && ParseUnsigned(s[8..10], U32_MAX) == Some(dt.d)
  {
    RoundTripIffValid(dt);
  }

  predicate Signed(s: string) {
    s != "" && (s[0] == '+' || s[0] == '-')
  }

  lemma UnsignedForm(s: string, max: nat)
    ensures ParseUnsigned(s, max).Some? ==>
            s != "" && (AllDigits(s) <==> s[0] != '+') && (AllDigits(s) ==> ParseUnsigned(s, max).value == Value(s))
  {
  }

  lemma SignedForm(s: string, max: nat)
    ensures ParseSigned(s, max).Some? ==>
            s != "" && (AllDigits(s) <==> !Signed(s)) && (AllDigits(s) ==> ParseSigned(s, max).value == Value(s))
  {
    hide Value;
    UnsignedForm(s, max);
  }

  /** A text that parses has the form `YYYY-MM-DD` exactly when no field carries a sign; it is
      then what the date prints. */
  lemma DateForm(s: string)
    requires Parse(s).Some?
    ensures var iso := AllDigits(s[0..4]) && AllDigits(s[5..7]) && AllDigits(s[8..10]);
            && (iso <==> !Signed(s[0..4]) && s[5] != '+' && s[8] != '+')
            && (iso ==> Display(Parse(s).value) == s)
  {
    hide Value, Valid, Parse, ParseSigned, ParseUnsigned, AllDigits, Display, Signed;
    var dt := Parse(s).value;
    ParseAcceptsCalendarDates(s, dt);
    SignedForm(s[0..4], I32_MAX);
    UnsignedForm(s[5..7], U32_MAX);
    UnsignedForm(s[8..10], U32_MAX);
    assert s[5..7][0] == s[5] && s[8..10][0] == s[8];
    if AllDigits(s[0..4]) && AllDigits(s[5..7]) && AllDigits(s[8..10]) {
      DigitsDisplay(s[0..4], s[5..7], s[8..10], dt);
      assert s == s[0..4] + "-" + s[5..7] + "-" + s[8..10];
    }
  }

  lemma DigitsDisplay(y: string, m: string, d: string, dt: Date)
    requires |y| == 4 && |m| == |d| == 2 && AllDigits(y) && AllDigits(m) && AllDigits(d)
    requires Valid(dt) && dt == Date(Value(y), Value(m), Value(d))
    ensures Display(dt) == y + "-" + m + "-" + d
  {
    hide Value, Padded, Valid, AllDigits;
    PaddedDigits(y);
    PaddedDigits(m);
    PaddedDigits(d);
  }

  /** A text that parses and is not of that form. */
  lemma SignsParse()
    ensures Parse("+999-+1-+1") == Some(Date(999, 1, 1))
  {
    hide Value, ParseSigned, ParseUnsigned, Parse;
    var s := "+999-+1-+1";
    assert s[0..4] == "+999" && s[5..7] == "+1" && s[8..10] == "+1";
    NineNineNine();
    ParseAcceptsCalendarDates(s, Date(999, 1, 1));
  }

  lemma NineNineNine()
    ensures ParseSigned("+999", I32_MAX) == Some(999) && ParseUnsigned("+1", U32_MAX) == Some(1)
  {
    hide ParseSigned, ParseUnsigned, Value;
    PrintedNines();
    ReadsPrinted(999, I32_MAX);
    ReadsPrinted(1, U32_MAX);
    assert "+" + "999" == "+999" && "+" + "1" == "+1";
    SignedPlus("+999", I32_MAX);
  }

  lemma PrintedNines()
    ensures Print(999) == "999" && Print(1) == "1"
  {
    assert Print(9) == "9" && Print(99) == "9" + "9";
  }

  lemma SignedPlus(s: string, max: nat)
    requires s != "" && s[0] == '+'
    ensures ParseSigned(s, max) == match ParseUnsigned(s, max) case Some(v) => Some(v) case None => None
  {
  }

  /** A date is read back from what it prints exactly when its year fits the
      four characters `parse` looks at, a sign included. */
  lemma DisplayParse(dt: Date)
    requires Valid(dt)
    ensures Parse(Display(dt)) == Some(dt) <==> -999 <= dt.y <= 9999
  {
    hide ToDays, FromDays, Value, ParseSigned, ParseUnsigned, Padded;
    var s, y := Display(dt), PaddedYear(dt.y);
    TwoDigits(dt.m);
    TwoDigits(dt.d);
    YearWidth(dt.y);
    assert |s| == |y| + 6;
    if |y| == 4 {
      assert s[0..4] == y && s[5..7] == Padded(dt.m, 2) && s[8..10] == Padded(dt.d, 2);
      ParsePadded(dt.m, 2, U32_MAX);
      ParsePadded(dt.d, 2, U32_MAX);
      ParseAcceptsCalendarDates(s, dt);
    }
  }

  lemma TwoDigits(n: nat)
    requires n < 100
    ensures |Padded(n, 2)| == 2
  {
    PaddedValue(n, 2);
  }

  lemma YearWidth(y: int)
    ensures |PaddedYear(y)| == 4 <==> -999 <= y <= 9999
    ensures -999 <= y <= 9999 ==> ParseSigned(PaddedYear(y), I32_MAX) == Some(y)
  {
    assert Pow10(4) == 10000 && Pow10(3) == 1000;
    if y < 0 {
      PaddedValue(-y, 3);
      assert PaddedYear(y)[1..] == Padded(-y, 3);
    } else {
      PaddedValue(y, 4);
      if y <= 9999 { ParsePadded(y, 4, I32_MAX); }
    }
  }

  // ---- stamps ------------------------------------------------------------------

  /** The first second of the year 10000. */
  const STAMP_LIMIT := 253402300800

  /** Length of a stamp before the year 10000. */
  const STAMP_LENGTH := 15

  function Stamp(secs: nat): string {
    FromDaysInverse(secs / 86400);
    var d := FromUnix(secs);
    var sod := secs % 86400;
    PaddedYear(d.y) + Padded(d.m, 2) + Padded(d.d, 2) + "-"
    + Padded(sod / 3600, 2) + Padded(sod % 3600 / 60, 2) + Padded(sod % 60, 2)
  }

  /** The stamps' string order is the order of time. */
  lemma StampOrder(s: nat, t: nat)
    requires s < STAMP_LIMIT && t < STAMP_LIMIT
    ensures |Stamp(s)| == |Stamp(t)| == STAMP_LENGTH
    ensures Less(Stamp(s), Stamp(t)) <==> s < t
    ensures Stamp(s) == Stamp(t) <==> s == t
  {
    hide Stamp, DateField, TimeField, Less, ToDays, FromUnix;
    StampYear(s);
    StampYear(t);
    var d, e := FromUnix(s), FromUnix(t);
    DateOrder(d, e);
    ToDaysMonotone(d, e);
    ToDaysMonotone(e, d);
    TimeOrder(s % 86400, t % 86400);
    SecondsOrder(s, t);
    StampShape(s);
    StampShape(t);
    FieldOrder(DateField(d), DateField(e), "-" + TimeField(s % 86400), "-" + TimeField(t % 86400));
    FieldOrder("-", "-", TimeField(s % 86400), TimeField(t % 86400));
    LessIrreflexive("-");
  }

  lemma StampShape(s: nat)
    requires Valid(FromUnix(s))
    ensures Stamp(s) == DateField(FromUnix(s)) + ("-" + TimeField(s % 86400))
  {
    hide Padded, PaddedYear, FromUnix, Valid;
  }

  lemma SecondsOrder(s: nat, t: nat)
    ensures s < t <==> s / 86400 < t / 86400 || (s / 86400 == t / 86400 && s % 86400 < t % 86400)
    ensures s == t <==> s / 86400 == t / 86400 && s % 86400 == t % 86400
  {
  }

  function DateField(d: Date): string
    requires Valid(d)
  {
    PaddedYear(d.y) + Padded(d.m, 2) + Padded(d.d, 2)
  }

  function TimeField(sod: nat): string {
    Clock(sod / 3600, sod % 3600 / 60, sod % 60)
  }

  function Clock(h: nat, m: nat, s: nat): string {
    Padded(h, 2) + Padded(m, 2) + Padded(s, 2)
  }

  lemma StampYear(secs: nat)
    requires secs < STAMP_LIMIT
    ensures Valid(FromUnix(secs)) && 0 <= FromUnix(secs).y <= 9999
    ensures ToDays(FromUnix(secs)) == secs / 86400
  {
    var days := secs / 86400;
    assert 0 <= days < STAMP_LIMIT / 86400;
    StampYearOfDay(days, FromDays(days));
  }

  lemma StampYearOfDay(days: nat, d: Date)
    requires days < STAMP_LIMIT / 86400 && d == FromDays(days)
    ensures Valid(d) && 0 <= d.y <= 9999 && ToDays(d) == days
  {
    FromDaysInverse(days);
    LimitDays();
    ToDaysMonotone(d, Date(1970, 1, 1));
    ToDaysMonotone(Date(9999, 12, 31), d);
  }

  /** No second falls before 1970. */
  lemma StampSince(secs: nat)
    ensures Valid(FromUnix(secs)) && FromUnix(secs).y >= 1970
  {
    FromDaysInverse(secs / 86400);
    LimitDays();
    ToDaysMonotone(FromUnix(secs), Date(1970, 1, 1));
  }

  lemma LimitDays()
    ensures ToDays(Date(1970, 1, 1)) == 0 && ToDays(Date(9999, 12, 31)) == STAMP_LIMIT / 86400 - 1
  {
    hide ToDays;
    FirstDay();
    LastDay();
  }

  lemma FirstDay()
    ensures ToDays(Date(1970, 1, 1)) == 0
  {
  }

  lemma LastDay()
    ensures ToDays(Date(9999, 12, 31)) == 2932896
  {
  }

  /** Text that starts with fields of one width is ordered by the field, then by the rest. */
  lemma FieldOrder(p: string, q: string, a: string, b: string)
    requires |p| == |q|
    ensures Less(p + a, q + b) <==> Less(p, q) || (p == q && Less(a, b))
    ensures p + a == q + b <==> p == q && a == b
  {
    LessTotal(p, q);
    assert (p + a)[..|p|] == p && (q + b)[..|q|] == q && (p + a)[|p|..] == a && (q + b)[|q|..] == b;
    if Less(p, q) {
      LessByPrefix(p, q, a, b);
    } else if Less(q, p) {
      LessByPrefix(q, p, b, a);
      LessAsymmetric(q + b, p + a);
      LessAsymmetric(q, p);
    } else {
      LessAfterPrefix(p, a, b);
    }
  }

  lemma DateOrder(d: Date, e: Date)
    requires Valid(d) && Valid(e) && 0 <= d.y <= 9999 && 0 <= e.y <= 9999
    ensures |DateField(d)| == |DateField(e)| == 8
    ensures Less(DateField(d), DateField(e)) <==> Before(d, e)
    ensures DateField(d) == DateField(e) <==> d == e
  {
    YearWidth(d.y);
    YearWidth(e.y);
    TwoDigits(d.m);
    TwoDigits(e.m);
    TwoDigits(d.d);
    TwoDigits(e.d);
    assert Pow10(4) == 10000 && Pow10(2) == 100;
    PaddedOrder(d.y, e.y, 4);
    PaddedOrder(d.m, e.m, 2);
    PaddedOrder(d.d, e.d, 2);
    FieldOrder(PaddedYear(d.y) + Padded(d.m, 2), PaddedYear(e.y) + Padded(e.m, 2), Padded(d.d, 2), Padded(e.d, 2));
    FieldOrder(PaddedYear(d.y), PaddedYear(e.y), Padded(d.m, 2), Padded(e.m, 2));
  }

  lemma TimeOrder(s: nat, t: nat)
    requires s < 86400 && t < 86400
    ensures |TimeField(s)| == |TimeField(t)| == 6
    ensures Less(TimeField(s), TimeField(t)) <==> s < t
    ensures TimeField(s) == TimeField(t) <==> s == t
  {
    hide Less, Clock, TimeField;
    var h, m, c := ClockOf(s);
    var i, n, d := ClockOf(t);
    PartsOrder(h, m, c, i, n, d);
    FieldsOrder(h, m, c, i, n, d);
  }

  /** The hour, minute and second that are printed. */
  lemma ClockOf(s: nat) returns (h: nat, m: nat, c: nat)
    requires s < 86400
    ensures TimeField(s) == Clock(h, m, c) && s == 3600 * h + 60 * m + c && h < 24 && m < 60 && c < 60
  {
    hide Clock;
    h, m, c := s / 3600, s % 3600 / 60, s % 60;
    ClockParts(s);
  }

  lemma ClockParts(s: nat)
    ensures s == 3600 * (s / 3600) + 60 * (s % 3600 / 60) + s % 60 && s % 3600 / 60 < 60
  {
    var u := s % 3600;
    assert u == 60 * (u / 60) + u % 60;
    Remainder(s, 60 * (s / 3600) + u / 60, u % 60);
  }

  lemma Remainder(a: nat, q: nat, r: nat)
    requires a == 60 * q + r && r < 60
    ensures a % 60 == r
  {
  }

  lemma PartsOrder(h: nat, m: nat, c: nat, i: nat, n: nat, d: nat)
    requires m < 60 && c < 60 && n < 60 && d < 60
    ensures 3600 * h + 60 * m + c < 3600 * i + 60 * n + d <==> h < i || (h == i && (m < n || (m == n && c < d)))
    ensures 3600 * h + 60 * m + c == 3600 * i + 60 * n + d <==> h == i && m == n && c == d
  {
  }

  lemma FieldsOrder(h: nat, m: nat, c: nat, i: nat, n: nat, d: nat)
    requires h < 100 && m < 100 && c < 100 && i < 100 && n < 100 && d < 100
    ensures var x, y := Clock(h, m, c), Clock(i, n, d);
            && |x| == |y| == 6 && (x == y <==> h == i && m == n && c == d)
            && (Less(x, y) <==> h < i || (h == i && (m < n || (m == n && c < d))))
  {
    hide Less, Padded;
    TwoDigits(h);
    TwoDigits(i);
    TwoDigits(m);
    TwoDigits(n);
    TwoDigits(c);
    TwoDigits(d);
    assert Pow10(2) == 100;
    PaddedOrder(h, i, 2);
    PaddedOrder(m, n, 2);
    PaddedOrder(c, d, 2);
    FieldOrder(Padded(h, 2) + Padded(m, 2), Padded(i, 2) + Padded(n, 2), Padded(c, 2), Padded(d, 2));
    FieldOrder(Padded(h, 2), Padded(i, 2), Padded(m, 2), Padded(n, 2));
  }

  /** The fields of a stamp: the date of the day it falls in, and the time of that day. */
  lemma StampFields(secs: nat)
    requires secs < STAMP_LIMIT
    ensures var s := Stamp(secs);
            && |s| == 15 && s[8] == '-'
            && AllDigits(s[0..4]) && AllDigits(s[4..6]) && AllDigits(s[6..8])
            && AllDigits(s[9..11]) && AllDigits(s[11..13]) && AllDigits(s[13..15])
            && var d := Date(Value(s[0..4]), Value(s[4..6]), Value(s[6..8]));
               && Valid(d) && DayCount(d) == secs / 86400
               && Value(s[9..11]) < 24 && Value(s[11..13]) < 60 && Value(s[13..15]) < 60
               && secs % 86400 == 3600 * Value(s[9..11]) + 60 * Value(s[11..13]) + Value(s[13..15])
  {
    hide Stamp, ToDays, FromUnix, Valid, DayCount, Value, DateField, TimeField;
    StampYear(secs);
    var d, sod := FromUnix(secs), secs % 86400;
    ToDaysCounts(d);
    StampShape(secs);
    DatePrinted(d);
    TimePrinted(sod);
    StampSlices(Stamp(secs), DateField(d), TimeField(sod));
  }

  lemma StampSlices(s: string, date: string, time: string)
    requires |date| == 8 && |time| == 6 && s == date + ("-" + time)
    ensures |s| == 15 && s[8] == '-' && s[0..8] == date && s[9..15] == time
    ensures s[0..4] == date[0..4] && s[4..6] == date[4..6] && s[6..8] == date[6..8]
    ensures s[9..11] == time[0..2] && s[11..13] == time[2..4] && s[13..15] == time[4..6]
  {
  }

  lemma TimePrinted(sod: nat)
    requires sod < 86400
    ensures var s := TimeField(sod);
            && |s| == 6 && AllDigits(s) && AllDigits(s[0..2]) && AllDigits(s[2..4]) && AllDigits(s[4..6])
            && Value(s[0..2]) < 24 && Value(s[2..4]) < 60 && Value(s[4..6]) < 60
            && sod == 3600 * Value(s[0..2]) + 60 * Value(s[2..4]) + Value(s[4..6])
  {
    hide Clock, Value, TimeField;
    var h, m, c := ClockOf(sod);
    ClockPrinted(h, m, c);
  }

  lemma DatePrinted(d: Date)
    requires Valid(d) && 0 <= d.y <= 9999
    ensures var s := DateField(d);
            && |s| == 8 && AllDigits(s) && AllDigits(s[0..4]) && AllDigits(s[4..6]) && AllDigits(s[6..8])
            && Date(Value(s[0..4]), Value(s[4..6]), Value(s[6..8])) == d
  {
    hide Padded, Value;
    YearWidth(d.y);
    TwoDigits(d.m);
    TwoDigits(d.d);
    PaddedValue(d.y, 4);
    PaddedValue(d.m, 2);
    PaddedValue(d.d, 2);
    var s := DateField(d);
    assert s[0..4] == Padded(d.y, 4) && s[4..6] == Padded(d.m, 2) && s[6..8] == Padded(d.d, 2);
  }

  lemma ClockPrinted(h: nat, m: nat, c: nat)
    requires h < 100 && m < 100 && c < 100
    ensures var s := Clock(h, m, c);
            && |s| == 6 && AllDigits(s) && AllDigits(s[0..2]) && AllDigits(s[2..4]) && AllDigits(s[4..6])
            && Value(s[0..2]) == h && Value(s[2..4]) == m && Value(s[4..6]) == c
  {
    hide Padded, Value;
    TwoDigits(h);
    TwoDigits(m);
    TwoDigits(c);
    PaddedValue(h, 2);
    PaddedValue(m, 2);
    PaddedValue(c, 2);
    var s := Clock(h, m, c);
    assert s[0..2] == Padded(h, 2) && s[2..4] == Padded(m, 2) && s[4..6] == Padded(c, 2);
  }
}
