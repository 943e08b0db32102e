/** Laws of the wire form of datetimes and dates, each with the exact range of years it holds for. */
module DateTimeLaws {
  import opened Calendar
  import opened Common
  import opened DateTime

  // ---- The text tells what was printed ----

  lemma YearText(n: int)
    requires n >= 0
    ensures |Pad(n, 4)| >= 4 && AllDigits(Pad(n, 4)) && DecimalValue(Pad(n, 4)) == n
  {
    DecimalLength(n);
    DecimalRoundTrip(n);
    if n < 10000 { PadIsExact(n, 4); }
  }

  /** The text without its first k characters, which belong to the year. */
  lemma FormatWithoutYearFront(y: string, mo: string, d: string, h: string, mi: string, se: string, frac: string,
                               k: nat)
    requires k <= |y|
    ensures var s := Format(y, mo, d, h, mi, se, frac, "Z");
            |s| >= k && s[..k] == y[..k] && s[k..] == Format(y[k..], mo, d, h, mi, se, frac, "Z")
  {
    var rest := "-" + mo + "-" + d + "T" + h + ":" + mi + ":" + se + "." + frac + "Z";
    FormatIsYearAndRest(y, mo, d, h, mi, se, frac);
    FormatIsYearAndRest(y[k..], mo, d, h, mi, se, frac);
    assert (y + rest)[..k] == y[..k] && (y + rest)[k..] == y[k..] + rest;
  }

  lemma FormatIsYearAndRest(y: string, mo: string, d: string, h: string, mi: string, se: string, frac: string)
    ensures Format(y, mo, d, h, mi, se, frac, "Z") ==
            y + ("-" + mo + "-" + d + "T" + h + ":" + mi + ":" + se + "." + frac + "Z")
  {
  }

  lemma YearEnds(y: string, mo: string, d: string, h: string, mi: string, se: string, frac: string)
    requires AllDigits(y)
    ensures DigitRun(Format(y, mo, d, h, mi, se, frac, "Z")) == |y|
  {
    FormatIsYearAndRest(y, mo, d, h, mi, se, frac);
    DigitRunStops(y, "-" + mo + "-" + d + "T" + h + ":" + mi + ":" + se + "." + frac + "Z");
  }

  lemma SameYearWidth(y: string, mo: string, d: string, h: string, mi: string, se: string, frac: string,
                      y': string, mo': string, d': string, h': string, mi': string, se': string, frac': string)
    requires AllDigits(y) && AllDigits(y')
    requires Format(y, mo, d, h, mi, se, frac, "Z") == Format(y', mo', d', h', mi', se', frac', "Z")
    ensures |y| == |y'|
  {
    YearEnds(y, mo, d, h, mi, se, frac);
    YearEnds(y', mo', d', h', mi', se', frac');
  }

  /** Fields of the right width can be told from the text, however long the year. */
  lemma FormatTells(y: string, mo: string, d: string, h: string, mi: string, se: string, frac: string,
                    y': string, mo': string, d': string, h': string, mi': string, se': string, frac': string)
    requires |y| >= 4 && AllDigits(y) && |y'| >= 4 && AllDigits(y')
    requires TwoDigits(mo) && TwoDigits(d) && TwoDigits(h) && TwoDigits(mi) && TwoDigits(se)
    requires TwoDigits(mo') && TwoDigits(d') && TwoDigits(h') && TwoDigits(mi') && TwoDigits(se')
    requires 1 <= |frac| <= 9 && AllDigits(frac) && 1 <= |frac'| <= 9 && AllDigits(frac')
    requires Format(y, mo, d, h, mi, se, frac, "Z") == Format(y', mo', d', h', mi', se', frac', "Z")
    ensures y == y' && mo == mo' && d == d' && h == h' && mi == mi' && se == se' && frac == frac'
  {
    SameYearWidth(y, mo, d, h, mi, se, frac, y', mo', d', h', mi', se', frac');
    var k := |y| - 4;
    FormatWithoutYearFront(y, mo, d, h, mi, se, frac, k);
    FormatWithoutYearFront(y', mo', d', h', mi', se', frac', k);
    FormatReadsBack(y[k..], mo, d, h, mi, se, frac, "Z");
    FormatReadsBack(y'[k..], mo', d', h', mi', se', frac', "Z");
    WholeText(y, k);
    WholeText(y', k);
  }

  lemma WholeText(y: string, k: nat)
    requires k <= |y|
    ensures y == y[..k] + y[k..]
  {
  }

  /** Different clock readings or fractions never print the same text. */
  lemma ClockTextTells(c: Clock, frac: string, c': Clock, frac': string)
    requires ValidClock(c) && ValidClock(c') && c.date.year >= 0 && c'.date.year >= 0
    requires 1 <= |frac| <= 9 && AllDigits(frac) && 1 <= |frac'| <= 9 && AllDigits(frac')
    requires FormatClock(c, frac, "Z") == FormatClock(c', frac', "Z")
    ensures c == c' && frac == frac'
  {
    YearText(c.date.year);
    YearText(c'.date.year);
    FieldsFit(c);
    FieldsFit(c');
    FormatTells(Pad(c.date.year, 4), Pad(c.date.month, 2), Pad(c.date.day, 2), Pad(c.hour, 2), Pad(c.minute, 2),
                Pad(c.second, 2), frac,
                Pad(c'.date.year, 4), Pad(c'.date.month, 2), Pad(c'.date.day, 2), Pad(c'.hour, 2), Pad(c'.minute, 2),
                Pad(c'.second, 2), frac');
  }

  lemma FieldsFit(c: Clock)
    requires ValidClock(c)
    ensures TwoDigits(Pad(c.date.month, 2)) && DecimalValue(Pad(c.date.month, 2)) == c.date.month
    ensures TwoDigits(Pad(c.date.day, 2)) && DecimalValue(Pad(c.date.day, 2)) == c.date.day
    ensures TwoDigits(Pad(c.hour, 2)) && DecimalValue(Pad(c.hour, 2)) == c.hour
    ensures TwoDigits(Pad(c.minute, 2)) && DecimalValue(Pad(c.minute, 2)) == c.minute
    ensures TwoDigits(Pad(c.second, 2)) && DecimalValue(Pad(c.second, 2)) == c.second
  {
    PadIsExact(c.date.month, 2);
    PadIsExact(c.date.day, 2);
    PadIsExact(c.hour, 2);
    PadIsExact(c.minute, 2);
    PadIsExact(c.second, 2);
  }

  // ---- Datetimes with an offset ----

  /** Outputs are canonical: two inputs print the same text exactly when Date.UTC takes them to the same instant and
      their fraction digits are the same. Those are the instants they denote exactly when their years are at least
      100. */
  lemma OutputsAreCanonical(s: string, p: Parts, s': string, p': Parts)
    requires ParseDateTime(s) == Some(p) && p.offset.Some?
    requires ParseDateTime(s') == Some(p') && p'.offset.Some?
    ensures HasOffset(p) && HasOffset(p')
    ensures SerializeDateTime(s) == SerializeDateTime(s') <==>
            UtcSeconds(p) == UtcSeconds(p') && Fraction(p) == Fraction(p')
    ensures UtcSeconds(p) == Instant(p) <==> ClockOf(p).date.year >= 100
    ensures UtcSeconds(p') == Instant(p') <==> ClockOf(p').date.year >= 100
  {
    OutputText(s, p);
    OutputText(s', p');
    RemapMovesEarlyYears(p);
    RemapMovesEarlyYears(p');
    if SerializeDateTime(s) == SerializeDateTime(s') {
      ClockTextTells(ClockAt(UtcSeconds(p)), Fraction(p), ClockAt(UtcSeconds(p')), Fraction(p'));
      ClockShowsInstant(UtcSeconds(p));
      ClockShowsInstant(UtcSeconds(p'));
    }
  }

  /** Serialising an output again changes nothing exactly when its year is between 100 and 9999: an earlier year is
      moved by Date.UTC, a later one is no datetime text. */
  lemma OutputIsStable(s: string, p: Parts)
    requires ParseDateTime(s) == Some(p) && p.offset.Some?
    ensures HasOffset(p) && SerializeDateTime(s).Ok?
    ensures SerializeDateTime(SerializeDateTime(s).value) == SerializeDateTime(s) <==>
            100 <= ClockAt(UtcSeconds(p)).date.year <= 9999
  {
    OffsetOutput(s, p);
    var out := SerializeDateTime(s).value;
    if ClockAt(UtcSeconds(p)).date.year <= 9999 {
      var q := ParseDateTime(out).value;
      RemapMovesEarlyYears(q);
      if ClockOf(q).date.year >= 100 {
        OutputText(out, q);
        ClockIsUnique(ClockOf(q));
        OutputText(s, p);
      } else {
        OutputText(out, q);
        OutputText(s, p);
        MovedClockShows(q, UtcSeconds(p));
      }
    }
  }

  /** A text in the years 0 to 99 does not print itself. */
  lemma MovedClockShows(q: Parts, t: int)
    requires HasOffset(q) && UtcSeconds(q) != t && ClockAt(t).date.year >= 0 && ClockAt(UtcSeconds(q)).date.year >= 0
    requires 1 <= |Fraction(q)| <= 9 && AllDigits(Fraction(q))
    ensures FormatClock(ClockAt(UtcSeconds(q)), Fraction(q), "Z") != FormatClock(ClockAt(t), Fraction(q), "Z")
  {
    ClockShowsInstant(t);
    ClockShowsInstant(UtcSeconds(q));
    if FormatClock(ClockAt(UtcSeconds(q)), Fraction(q), "Z") == FormatClock(ClockAt(t), Fraction(q), "Z") {
      ClockTextTells(ClockAt(UtcSeconds(q)), Fraction(q), ClockAt(t), Fraction(q));
    }
  }

  /** Without an offset nothing is interpreted: the same digits come back, in one fixed arrangement, and stay put. */
  lemma NaivePassesThrough(s: string, p: Parts)
    requires ParseDateTime(s) == Some(p) && p.offset.None?
    ensures SerializeDateTime(s).Ok?
    ensures var out := SerializeDateTime(s).value;
            && ParseDateTime(out) == Some(p.(frac := Some(Fraction(p))))
            && SerializeDateTime(out) == Ok(out)
  {
    var fields := [p.mo, p.d, p.h, p.mi, p.se];
    assert fields[0] in fields && fields[1] in fields && fields[2] in fields;
    assert fields[3] in fields && fields[4] in fields;
    FormatReadsBack(p.y, p.mo, p.d, p.h, p.mi, p.se, Fraction(p), "");
  }

  // ---- Dates ----

  /** A date text: four digits, two, two. */
  function ReadDate(s: string): Option<Date> {
    if |s| == 10 && s[4] == '-' && s[7] == '-' && AllDigits(s[0..4]) && AllDigits(s[5..7]) && AllDigits(s[8..10]) then
      Some(Date(DecimalValue(s[0..4]), DecimalValue(s[5..7]), DecimalValue(s[8..10])))
    else None
  }

  /** A date prints as a date text exactly when its year has at most four digits and is not negative, and then the text
      names the valid calendar date whose day contains the instant. */
  lemma DateOutput(ms: int)
    ensures ReadDate(SerializeDate(ms)).Some? <==> 0 <= DateFromDay(ms / 86_400_000).year <= 9999
    ensures ReadDate(SerializeDate(ms)).Some? ==>
              var d := ReadDate(SerializeDate(ms)).value;
              ValidDate(d) && 86_400_000 * DayNumber(d) <= ms < 86_400_000 * (DayNumber(d) + 1)
  {
    var d := DateFromDay(ms / 86_400_000);
    DayNumberOfDate(ms / 86_400_000);
    PadIsExact(d.month, 2);
    PadIsExact(d.day, 2);
    if 0 <= d.year <= 9999 {
      PadIsExact(d.year, 4);
      DateShape(Pad(d.year, 4), Pad(d.month, 2), Pad(d.day, 2));
      DayHolds(ms);
    } else {
      OddYearText(d.year);
      OddYearIsNoDate(Pad(d.year, 4), Pad(d.month, 2), Pad(d.day, 2));
    }
  }

  lemma DateShape(y: string, mo: string, d: string)
    requires |y| == 4 && |mo| == 2 && |d| == 2
    ensures var out := y + "-" + mo + "-" + d;
            && |out| == 10 && out[4] == '-' && out[7] == '-'
            && out[0..4] == y && out[5..7] == mo && out[8..10] == d
  {
  }

  lemma DayHolds(ms: int)
    ensures 86_400_000 * (ms / 86_400_000) <= ms < 86_400_000 * (ms / 86_400_000 + 1)
  {
  }

  lemma OddYearText(n: int)
    requires n < 0 || n > 9999
    ensures |Pad(n, 4)| > 4 || (|Pad(n, 4)| == 4 && '-' in Pad(n, 4))
  {
    if n < 0 {
      DecimalLength(-n);
      assert NumberText(n)[0] == '-';
      if |NumberText(n)| < 4 {
        var k := 4 - |NumberText(n)|;
        assert Pad(n, 4)[k] == '-';
      }
    } else {
      DecimalLength(n);
    }
  }

  lemma OddYearIsNoDate(y: string, mo: string, d: string)
    requires |y| > 4 || (|y| == 4 && '-' in y)
    requires |mo| == 2 && |d| == 2
    ensures ReadDate(y + "-" + mo + "-" + d) == None
  {
    var out := y + "-" + mo + "-" + d;
    if |y| == 4 {
      DateShape(y, mo, d);
      var i :| 0 <= i < 4 && y[i] == '-';
      assert !IsDigit(y[i]);
    }
  }

  // ---- Witnesses ----

  lemma FourDigits(s: string)
    requires |s| == 4 && AllDigits(s)
    ensures DecimalValue(s) ==
            1000 * DigitValue(s[0]) + 100 * DigitValue(s[1]) + 10 * DigitValue(s[2]) + DigitValue(s[3])
  {
    TwoMore(s);
    var t := s[..2];
    assert s[..3][..2] == t;
    TwoMore(t);
    assert t[..0] == "";
  }

  lemma TwoMore(s: string)
    requires |s| >= 2 && AllDigits(s)
    ensures DecimalValue(s) == 100 * DecimalValue(s[..|s| - 2]) + 10 * DigitValue(s[|s| - 2]) + DigitValue(s[|s| - 1])
  {
    var t := s[..|s| - 1];
    assert t[..|t| - 1] == s[..|s| - 2] && t[|t| - 1] == s[|s| - 2];
  }

  /** A text like 0050-01-01T00:00:00.0Z. */
  function NewYearText(y: string): string {
    Format(y, "01", "01", "00", "00", "00", "0", "Z")
  }

  /** Years 50 and 1950 print the same text. */
  lemma EarlyYearCollides()
    ensures SerializeDateTime(NewYearText("0050")) == SerializeDateTime(NewYearText("1950"))
  {
    FourDigits("0050");
    FourDigits("1950");
    SameNewYear("0050", "1950");
  }

  lemma SameNewYear(y: string, y': string)
    requires |y| == 4 && AllDigits(y) && |y'| == 4 && AllDigits(y')
    requires UtcYear(DecimalValue(y)) == UtcYear(DecimalValue(y'))
    ensures SerializeDateTime(NewYearText(y)) == SerializeDateTime(NewYearText(y'))
  {
    FormatReadsBack(y, "01", "01", "00", "00", "00", "0", "Z");
    FormatReadsBack(y', "01", "01", "00", "00", "00", "0", "Z");
    var p, p' := ParseDateTime(NewYearText(y)).value, ParseDateTime(NewYearText(y')).value;
    NewYearOf(p, DecimalValue(y));
    NewYearOf(p', DecimalValue(y'));
    OutputsAreCanonical(NewYearText(y), p, NewYearText(y'), p');
  }

  lemma NewYearOf(p: Parts, year: nat)
    requires |p.y| == 4 && AllDigits(p.y) && DecimalValue(p.y) == year
    requires p.mo == p.d == "01" && p.h == p.mi == p.se == "00" && p.offset == Some("Z")
    ensures ClockOf(p) == Clock(Date(year, 1, 1), 0, 0, 0)
    ensures UtcSeconds(p) == ClockSeconds(Clock(Date(UtcYear(year), 1, 1), 0, 0, 0))
  {
    SmallFieldsRead();
  }

  lemma UtcOfReading(p: Parts, shown: Clock, minutes: int)
    requires HasOffset(p) && ClockOf(p) == shown && shown.date.year >= 100 && OffsetMinutes(p) == minutes
    ensures UtcSeconds(p) == ClockSeconds(shown) - 60 * minutes
  {
    RemapMovesEarlyYears(p);
  }

  lemma OutputClock(p: Parts, shown: Clock, minutes: int, c: Clock)
    requires HasOffset(p) && ClockOf(p) == shown && shown.date.year >= 100 && OffsetMinutes(p) == minutes
    requires ValidClock(c) && ClockSeconds(c) == ClockSeconds(shown) - 60 * minutes
    ensures ClockAt(UtcSeconds(p)) == c
  {
    UtcOfReading(p, shown, minutes);
    ShowsItself(c, UtcSeconds(p));
  }

  lemma ShowsItself(c: Clock, t: int)
    requires ValidClock(c) && ClockSeconds(c) == t
    ensures ClockAt(t) == c
  {
    ClockIsUnique(c);
  }

  /** From the last hour of a year to an hour of the next. */
  lemma OverNewYear(year: int, hour: int)
    requires 0 <= hour < 24
    ensures var before, later := Clock(Date(year, 12, 31), 23, 0, 0), Clock(Date(year + 1, 1, 1), hour, 0, 0);
            && ValidClock(before) && ValidClock(later)
            && ClockSeconds(later) == ClockSeconds(before) + 3600 * (hour + 1)
  {
    ValidReading(Clock(Date(year, 12, 31), 23, 0, 0));
    ValidReading(Clock(Date(year + 1, 1, 1), hour, 0, 0));
    YearLength(year);
    MonthLength(year, 12);
  }

  lemma SmallFieldsRead()
    ensures DecimalValue("00") == 0 && DecimalValue("01") == 1 && DecimalValue("02") == 2
    ensures DecimalValue("12") == 12 && DecimalValue("23") == 23 && DecimalValue("31") == 31
  {
    TwoMore("00");
    TwoMore("01");
    TwoMore("02");
    TwoMore("12");
    TwoMore("23");
    TwoMore("31");
  }

  /** 0100-01-01T00:00:00.0+01:00 */
  function YearHundredText(): string {
    Format("0100", "01", "01", "00", "00", "00", "0", "+01:00")
  }

  /** An output in the year 99, one hour before the year 100: serialising it again moves it. */
  lemma YearNinetyNineIsUnstable()
    ensures SerializeDateTime(YearHundredText()).Ok?
    ensures SerializeDateTime(SerializeDateTime(YearHundredText()).value) != SerializeDateTime(YearHundredText())
  {
    OneHourAhead();
    FormatReadsBack("0100", "01", "01", "00", "00", "00", "0", "+01:00");
    HourBeforeYearHundred(ParseDateTime(YearHundredText()).value);
    OutputIsStable(YearHundredText(), ParseDateTime(YearHundredText()).value);
  }

  lemma HourBeforeYearHundred(p: Parts)
    requires p == Parts("0100", "01", "01", "00", "00", "00", Some("0"), Some("+01:00"))
    ensures HasOffset(p) && ClockAt(UtcSeconds(p)).date.year == 99
  {
    OneHourAhead();
    YearHundredFields(p);
    OverNewYear(99, 0);
    OutputClock(p, Clock(Date(100, 1, 1), 0, 0, 0), 60, Clock(Date(99, 12, 31), 23, 0, 0));
  }

  lemma YearHundredFields(p: Parts)
    requires p == Parts("0100", "01", "01", "00", "00", "00", Some("0"), Some("+01:00"))
    ensures AllDigits(p.y) && TwoDigits(p.mo) && TwoDigits(p.h) && ClockOf(p) == Clock(Date(100, 1, 1), 0, 0, 0)
  {
    FourDigits("0100");
    SmallFieldsRead();
  }

  lemma OneHourAhead()
    ensures NumericOffset("+01:00") && ParseOffsetMinutes("+01:00") == 60
  {
    SmallFieldsRead();
    assert "+01:00"[1..] == "01:00" && WithoutColon("01:00") == "0100";
    assert "0100"[0..2] == "01" && "0100"[2..4] == "00";
  }

  /** 9999-12-31T23:00:00.0-02:00 */
  function YearEndText(): string {
    Format("9999", "12", "31", "23", "00", "00", "0", "-02:00")
  }

  /** An output in the year 10000, two hours after the last valid one: it is no datetime text. */
  lemma YearTenThousandIsNoDateTime()
    ensures SerializeDateTime(YearEndText()).Ok?
    ensures ParseDateTime(SerializeDateTime(YearEndText()).value) == None
  {
    TwoHoursBehind();
    FormatReadsBack("9999", "12", "31", "23", "00", "00", "0", "-02:00");
    TwoHoursOn(ParseDateTime(YearEndText()).value);
    OffsetOutput(YearEndText(), ParseDateTime(YearEndText()).value);
  }

  lemma TwoHoursOn(p: Parts)
    requires p == Parts("9999", "12", "31", "23", "00", "00", Some("0"), Some("-02:00"))
    ensures HasOffset(p) && ClockAt(UtcSeconds(p)).date.year == 10000
  {
    TwoHoursBehind();
    YearEndFields(p);
    OverNewYear(9999, 1);
    OutputClock(p, Clock(Date(9999, 12, 31), 23, 0, 0), -120, Clock(Date(10000, 1, 1), 1, 0, 0));
  }

  lemma YearEndFields(p: Parts)
    requires p == Parts("9999", "12", "31", "23", "00", "00", Some("0"), Some("-02:00"))
    ensures AllDigits(p.y) && TwoDigits(p.mo) && TwoDigits(p.h) && ClockOf(p) == Clock(Date(9999, 12, 31), 23, 0, 0)
  {
    FourDigits("9999");
    SmallFieldsRead();
  }

  lemma TwoHoursBehind()
    ensures NumericOffset("-02:00") && ParseOffsetMinutes("-02:00") == -120
  {
    SmallFieldsRead();
    assert "-02:00"[1..] == "02:00" && WithoutColon("02:00") == "0200";
    assert "0200"[0..2] == "02" && "0200"[2..4] == "00";
  }

}
