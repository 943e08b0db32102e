/** The exact wire form of date and datetime values: parsed by hand, moved to UTC, printed back. */
module DateTime {
  import opened Common
  import opened Calendar

  // ---- Parsing: yyyy-mm-dd[T ]hh:mm:ss, an optional fraction of 1 to 9 digits, spaces, an optional offset ----

  datatype Parts = Parts(
    y: string, mo: string, d: string, h: string, mi: string, se: string,
    frac: Option<string>,
    offset: Option<string>)

  predicate Shape(s: string) {
    && |s| >= 19
    && AllDigits(s[0..4]) && s[4] == '-' && AllDigits(s[5..7]) && s[7] == '-' && AllDigits(s[8..10])
    && (s[10] == 'T' || s[10] == ' ')
    && AllDigits(s[11..13]) && s[13] == ':' && AllDigits(s[14..16]) && s[16] == ':' && AllDigits(s[17..19])
  }

  predicate NumericOffset(s: string) {
    && 5 <= |s| <= 6
    && (s[0] == '+' || s[0] == '-')
    && AllDigits(s[1..3])
    && (|s| == 6 ==> s[3] == ':')
    && AllDigits(s[|s| - 2..])
  }

  /** None when what follows the fraction is not an offset, Some(None) when nothing does. */
  function ParseOffset(t: string): Option<Option<string>> {
    var rest := SkipSpaces(t);
    if rest == "" then Some(None) else if rest == "Z" || NumericOffset(rest) then Some(Some(rest)) else None
  }

  function ParseTail(t: string): (r: Option<(Option<string>, Option<string>)>)
    ensures r.Some? && r.value.0.Some? ==> 1 <= |r.value.0.value| <= 9 && AllDigits(r.value.0.value)
    ensures r.Some? && r.value.1.Some? ==> r.value.1.value == "Z" || NumericOffset(r.value.1.value)
  {
    if t != "" && t[0] == '.' then
      var k := DigitRun(t[1..]);
      if 1 <= k <= 9 then
        assert t[1..][..k] == t[1..1 + k];
        match ParseOffset(t[1 + k..])
        case None => None
        case Some(offset) => Some((Some(t[1..1 + k]), offset))
      else None
    else
      match ParseOffset(t)
      case None => None
      case Some(offset) => Some((None, offset))
  }

  function ParseDateTime(s: string): (r: Option<Parts>)
    ensures r.Some? ==>
              && |r.value.y| == 4 && AllDigits(r.value.y)
              && (forall f :: f in [r.value.mo, r.value.d, r.value.h, r.value.mi, r.value.se] ==>
                    |f| == 2 && AllDigits(f))
              && (r.value.frac.Some? ==> 1 <= |r.value.frac.value| <= 9 && AllDigits(r.value.frac.value))
              && (r.value.offset.Some? ==> r.value.offset.value == "Z" || NumericOffset(r.value.offset.value))
  {
    if !Shape(s) then None
    else
      match ParseTail(s[19..])
      case None => None
      case Some((frac, offset)) =>
        Some(Parts(s[0..4], s[5..7], s[8..10], s[11..13], s[14..16], s[17..19], frac, offset))
  }

  // ---- What the parts denote ----

  datatype Clock = Clock(date: Date, hour: int, minute: int, second: int)

  function ClockOf(p: Parts): Clock
    requires AllDigits(p.y) && AllDigits(p.mo) && AllDigits(p.d) && AllDigits(p.h) && AllDigits(p.mi) && AllDigits(p.se)
  {
    Clock(Date(DecimalValue(p.y), DecimalValue(p.mo), DecimalValue(p.d)),
          DecimalValue(p.h), DecimalValue(p.mi), DecimalValue(p.se))
  }

  predicate ValidClock(c: Clock) {
    ValidDate(c.date) && 0 <= c.hour < 24 && 0 <= c.minute < 60 && 0 <= c.second < 60
  }

  /** Seconds since the epoch on a clock that shows UTC; fields outside their range roll over. */
  function ClockSeconds(c: Clock): int {
    86400 * MakeDay(c.date.year, c.date.month - 1, c.date.day) + 3600 * c.hour + 60 * c.minute + c.second
  }

  /** Date.UTC takes a year below 100 to mean 1900 plus that year. */
  function UtcYear(y: int): int {
    if 0 <= y <= 99 then 1900 + y else y
  }

  function DateUtcSeconds(c: Clock): int {
    ClockSeconds(c.(date := c.date.(year := UtcYear(c.date.year))))
  }

  function WithoutColon(s: string): string {
    if |s| == 5 && s[2] == ':' then s[..2] + s[3..] else s
  }

  function ParseOffsetMinutes(offset: string): int
    requires NumericOffset(offset)
  {
    var sign := if offset[0] == '-' then -1 else 1;
    var digits := WithoutColon(offset[1..]);
    assert |digits| == 4 && digits[0..2] == offset[1..3] && digits[2..4] == offset[|offset| - 2..];
    sign * (60 * DecimalValue(digits[0..2]) + DecimalValue(digits[2..4]))
  }

  function OffsetMinutes(p: Parts): int
    requires p.offset.Some? && (p.offset.value == "Z" || NumericOffset(p.offset.value))
  {
    if p.offset.value == "Z" then 0 else ParseOffsetMinutes(p.offset.value)
  }

  function ClockAt(t: int): Clock {
    var s := t % 86400;
    Clock(DateFromDay(t / 86400), s / 3600, s / 60 % 60, s % 60)
  }

  lemma SplitSeconds(s: int)
    requires 0 <= s < 86400
    ensures s == 3600 * (s / 3600) + 60 * (s / 60 % 60) + s % 60
    ensures 0 <= s / 3600 < 24
  {
    assert s / 60 == 60 * (s / 3600) + s / 60 % 60;
  }

  /** The clock at an instant shows that instant. */
  lemma ClockShowsInstant(t: int)
    ensures ValidClock(ClockAt(t)) && ClockSeconds(ClockAt(t)) == t
  {
    DayNumberOfDate(t / 86400);
    MakeDayOfValidDate(DateFromDay(t / 86400));
    SplitSeconds(t % 86400);
  }

  lemma ClockDigits(h: int, mi: int, se: int)
    requires 0 <= h < 24 && 0 <= mi < 60 && 0 <= se < 60
    ensures var s := 3600 * h + 60 * mi + se;
            0 <= s < 86400 && s / 3600 == h && s / 60 % 60 == mi && s % 60 == se
  {
    assert (3600 * h + 60 * mi + se) / 60 == 60 * h + mi;
  }

  lemma DayAndSeconds(t: int, n: int, s: int)
    requires t == 86400 * n + s && 0 <= s < 86400
    ensures t / 86400 == n && t % 86400 == s
  {
  }

  /** No other valid clock does. */
  lemma ClockIsUnique(c: Clock)
    requires ValidClock(c)
    ensures ClockAt(ClockSeconds(c)) == c
  {
    ValidReading(c);
    DateOfDayNumber(c.date);
    ClockIsUniqueOn(c, ClockSeconds(c), DayNumber(c.date));
  }

  lemma ClockIsUniqueOn(c: Clock, t: int, n: int)
    requires 0 <= c.hour < 24 && 0 <= c.minute < 60 && 0 <= c.second < 60
    requires t == 86400 * n + (3600 * c.hour + 60 * c.minute + c.second) && DateFromDay(n) == c.date
    ensures ClockAt(t) == c
  {
    ClockDigits(c.hour, c.minute, c.second);
    DayAndSeconds(t, n, 3600 * c.hour + 60 * c.minute + c.second);
  }

  lemma ValidReading(c: Clock)
    requires ValidClock(c)
    ensures ClockSeconds(c) == 86400 * DayNumber(c.date) + (3600 * c.hour + 60 * c.minute + c.second)
    ensures 0 <= 3600 * c.hour + 60 * c.minute + c.second < 86400
  {
    MakeDayOfValidDate(c.date);
  }

  // ---- Printing ----

  function Zeros(n: nat): (s: string)
    ensures |s| == n && AllDigits(s)
  {
    if n == 0 then "" else "0" + Zeros(n - 1)
  }

  function NumberText(n: int): string {
    if n < 0 then "-" + Decimal(-n) else Decimal(n)
  }

  function Pad(n: int, width: nat): string {
    var s := NumberText(n);
    if |s| < width then Zeros(width - |s|) + s else s
  }

  function Format(y: string, mo: string, d: string, h: string, mi: string, se: string, frac: string, tail: string)
    : string
  {
    y + "-" + mo + "-" + d + "T" + h + ":" + mi + ":" + se + "." + frac + tail
  }

  function FormatClock(c: Clock, frac: string, tail: string): string {
    Format(Pad(c.date.year, 4), Pad(c.date.month, 2), Pad(c.date.day, 2),
           Pad(c.hour, 2), Pad(c.minute, 2), Pad(c.second, 2), frac, tail)
  }

  // ---- The serializer ----

  datatype SerializationError = InvalidDateTime(text: string)

  /** The largest time value a Date can hold, in milliseconds. */
  const MAX_TIME := 8_640_000_000_000_000

  predicate InTimeRange(seconds: int) {
    -MAX_TIME <= 1000 * seconds <= MAX_TIME
  }

  function Fraction(p: Parts): string {
    if p.frac.Some? then p.frac.value else "000"
  }

  /** The instant the output shows, before it is printed. */
  function UtcSeconds(p: Parts): int
    requires AllDigits(p.y) && AllDigits(p.mo) && AllDigits(p.d) && AllDigits(p.h) && AllDigits(p.mi) && AllDigits(p.se)
    requires p.offset.Some? && (p.offset.value == "Z" || NumericOffset(p.offset.value))
  {
    DateUtcSeconds(ClockOf(p)) - 60 * OffsetMinutes(p)
  }

  function SerializeDateTime(s: string): Result<string, SerializationError> {
    match ParseDateTime(s)
    case None => Err(InvalidDateTime(s))
    case Some(p) =>
      if p.offset.None? then Ok(Format(p.y, p.mo, p.d, p.h, p.mi, p.se, Fraction(p), ""))
      else if !InTimeRange(DateUtcSeconds(ClockOf(p))) || !InTimeRange(UtcSeconds(p)) then Err(InvalidDateTime(s))
      else Ok(FormatClock(ClockAt(UtcSeconds(p)), Fraction(p), "Z"))
  }

  /** The "date" case: the UTC calendar date of a time value in milliseconds. */
  function SerializeDate(ms: int): string {
    var date := DateFromDay(ms / 86_400_000);
    Pad(date.year, 4) + "-" + Pad(date.month, 2) + "-" + Pad(date.day, 2)
  }

  // ---- Numerals of fixed width ----

  lemma {:induction false} ZerosAddNothing(n: nat, s: string)
    requires AllDigits(s)
    ensures AllDigits(Zeros(n) + s) && DecimalValue(Zeros(n) + s) == DecimalValue(s)
    decreases n, |s|
  {
    var t := Zeros(n) + s;
    if s != "" {
      assert t[..|t| - 1] == Zeros(n) + s[..|s| - 1];
      ZerosAddNothing(n, s[..|s| - 1]);
    } else if n > 0 {
      ZerosEnd(n);
      assert t == Zeros(n) && t[..|t| - 1] == Zeros(n - 1) + "";
      ZerosAddNothing(n - 1, "");
    }
  }

  lemma {:induction false} ZerosEnd(n: nat)
    requires n > 0
    ensures Zeros(n) == Zeros(n - 1) + "0"
  {
    if n > 1 { ZerosEnd(n - 1); }
  }

  lemma DecimalLength(n: nat)
    ensures n < 10 ==> |Decimal(n)| == 1
    ensures 10 <= n < 100 ==> |Decimal(n)| == 2
    ensures 100 <= n < 1000 ==> |Decimal(n)| == 3
    ensures 1000 <= n < 10000 ==> |Decimal(n)| == 4
    ensures 10000 <= n ==> |Decimal(n)| >= 5
  {
    if n >= 10 {
      assert |Decimal(n)| == |Decimal(n / 10)| + 1;
      if n >= 100 {
        assert |Decimal(n / 10)| == |Decimal(n / 10 / 10)| + 1;
        if n >= 1000 {
          assert |Decimal(n / 10 / 10)| == |Decimal(n / 10 / 10 / 10)| + 1;
          if n >= 10000 {
            assert |Decimal(n / 10 / 10 / 10)| == |Decimal(n / 10 / 10 / 10 / 10)| + 1;
          }
        }
      }
    }
  }

  predicate Fits(n: int, width: nat) {
    (width == 2 && 0 <= n < 100) || (width == 4 && 0 <= n < 10000)
  }

  lemma PadIsExact(n: int, width: nat)
    requires Fits(n, width)
    ensures |Pad(n, width)| == width && AllDigits(Pad(n, width)) && DecimalValue(Pad(n, width)) == n
  {
    DecimalLength(n);
    DecimalRoundTrip(n);
    if |Decimal(n)| < width { ZerosAddNothing(width - |Decimal(n)|, Decimal(n)); }
  }

  // ---- Printing and parsing ----

  predicate TwoDigits(s: string) {
    |s| == 2 && AllDigits(s)
  }

  lemma FormatShape(y: string, mo: string, d: string, h: string, mi: string, se: string, frac: string, tail: string)
    requires |y| == 4 && AllDigits(y)
    requires TwoDigits(mo) && TwoDigits(d) && TwoDigits(h) && TwoDigits(mi) && TwoDigits(se)
    ensures var s := Format(y, mo, d, h, mi, se, frac, tail);
            && Shape(s)
            && s[0..4] == y && s[5..7] == mo && s[8..10] == d && s[11..13] == h && s[14..16] == mi && s[17..19] == se
            && s[19..] == "." + frac + tail
  {
    var s := Format(y, mo, d, h, mi, se, frac, tail);
    var date := y + "-" + mo + "-" + d;
    var time := h + ":" + mi + ":" + se;
    assert s == date + "T" + time + ("." + frac + tail);
    assert |date| == 10 && |time| == 8;
    assert s[0..4] == y && s[5..7] == mo && s[8..10] == d;
    assert s[11..13] == h && s[14..16] == mi && s[17..19] == se;
  }

  predicate OffsetText(tail: string) {
    tail == "" || tail == "Z" || NumericOffset(tail)
  }

  lemma TailReadsBack(frac: string, tail: string)
    requires 1 <= |frac| <= 9 && AllDigits(frac) && OffsetText(tail)
    ensures ParseTail("." + frac + tail) == Some((Some(frac), if tail == "" then None else Some(tail)))
  {
    var t := "." + frac + tail;
    assert t[1..] == frac + tail;
    DigitRunStops(frac, tail);
    assert t[1 + |frac|..] == tail && t[1..1 + |frac|] == frac;
  }

  /** Whatever is printed in this format is read back field by field. */
  lemma FormatReadsBack(y: string, mo: string, d: string, h: string, mi: string, se: string, frac: string, tail: string)
    requires |y| == 4 && AllDigits(y)
    requires TwoDigits(mo) && TwoDigits(d) && TwoDigits(h) && TwoDigits(mi) && TwoDigits(se)
    requires 1 <= |frac| <= 9 && AllDigits(frac) && OffsetText(tail)
    ensures ParseDateTime(Format(y, mo, d, h, mi, se, frac, tail)) ==
            Some(Parts(y, mo, d, h, mi, se, Some(frac), if tail == "" then None else Some(tail)))
  {
    FormatShape(y, mo, d, h, mi, se, frac, tail);
    TailReadsBack(frac, tail);
  }

  // ---- What the output denotes ----

  /** Parts as they come out of the parser, with an offset. */
  predicate HasOffset(p: Parts) {
    && |p.y| == 4 && AllDigits(p.y)
    && TwoDigits(p.mo) && TwoDigits(p.d) && TwoDigits(p.h) && TwoDigits(p.mi) && TwoDigits(p.se)
    && (p.frac.Some? ==> 1 <= |p.frac.value| <= 9 && AllDigits(p.frac.value))
    && p.offset.Some? && (p.offset.value == "Z" || NumericOffset(p.offset.value))
  }

  /** What an offset states, digit by digit: hours and minutes east of UTC, or west behind a minus sign. */
  function StatedMinutes(offset: string): int
    requires offset == "Z" || NumericOffset(offset)
  {
    if offset == "Z" then 0
    else
      var n := |offset|;
      var hours := 10 * DigitValue(offset[1]) + DigitValue(offset[2]);
      var minutes := 10 * DigitValue(offset[n - 2]) + DigitValue(offset[n - 1]);
      if offset[0] == '-' then -(60 * hours + minutes) else 60 * hours + minutes
  }

  /** The instant a datetime with an offset denotes, in seconds since the epoch: its clock reading minus the offset it
      states. */
  function Instant(p: Parts): int
    requires HasOffset(p)
  {
    ClockSeconds(ClockOf(p)) - 60 * StatedMinutes(p.offset.value)
  }

  lemma TwoDigitsValue(s: string)
    requires TwoDigits(s)
    ensures DecimalValue(s) == 10 * DigitValue(s[0]) + DigitValue(s[1])
  {
    assert DecimalValue(s) == 10 * DecimalValue(s[..1]) + DigitValue(s[1]);
    assert s[..1][..0] == "" && DecimalValue(s[..1]) == DigitValue(s[0]);
  }

  lemma OffsetReadsAsStated(offset: string)
    requires NumericOffset(offset)
    ensures ParseOffsetMinutes(offset) == StatedMinutes(offset)
  {
    var n, digits := |offset|, WithoutColon(offset[1..]);
    assert digits[0..2] == offset[1..3] && digits[2..4] == offset[n - 2..];
    TwoDigitsValue(offset[1..3]);
    TwoDigitsValue(offset[n - 2..]);
  }

  lemma MinutesAreStated(p: Parts)
    requires HasOffset(p)
    ensures OffsetMinutes(p) == StatedMinutes(p.offset.value)
  {
    if p.offset.value != "Z" { OffsetReadsAsStated(p.offset.value); }
  }

  /** The text of an offset of so many minutes, with a colon or without. */
  function OffsetFor(minutes: int, colon: bool): string
    requires -5999 <= minutes <= 5999
  {
    var size := if minutes < 0 then -minutes else minutes;
    (if minutes < 0 then "-" else "+") + Pad(size / 60, 2) + (if colon then ":" else "") + Pad(size % 60, 2)
  }

  /** Every such text reads back as the minutes it was printed for. */
  lemma OffsetReadsBack(minutes: int, colon: bool)
    requires -5999 <= minutes <= 5999
    ensures NumericOffset(OffsetFor(minutes, colon)) && ParseOffsetMinutes(OffsetFor(minutes, colon)) == minutes
  {
    var size := if minutes < 0 then -minutes else minutes;
    var hh, mm := Pad(size / 60, 2), Pad(size % 60, 2);
    var offset := OffsetFor(minutes, colon);
    PadIsExact(size / 60, 2);
    PadIsExact(size % 60, 2);
    assert offset[1..3] == hh && offset[|offset| - 2..] == mm;
    var digits := WithoutColon(offset[1..]);
    assert digits[0..2] == hh && digits[2..4] == mm;
  }

  lemma TwoDigitsBound(s: string)
    requires TwoDigits(s)
    ensures 0 <= DecimalValue(s) <= 99
  {
    TwoDigitsValue(s);
  }

  lemma YearBound(s: string)
    requires |s| == 4 && AllDigits(s)
    ensures 0 <= DecimalValue(s) <= 9999
  {
    assert s[..3][..2] == s[..2];
    TwoDigitsBound(s[..2]);
    assert DecimalValue(s[..3]) == 10 * DecimalValue(s[..2]) + DigitValue(s[2]);
  }

  predicate SmallFields(c: Clock) {
    && 0 <= c.date.month <= 99 && 0 <= c.date.day <= 99
    && 0 <= c.hour <= 99 && 0 <= c.minute <= 99 && 0 <= c.second <= 99
  }

  lemma FieldsAreSmall(p: Parts)
    requires HasOffset(p)
    ensures 0 <= ClockOf(p).date.year <= 9999 && SmallFields(ClockOf(p)) && -6039 <= OffsetMinutes(p) <= 6039
  {
    YearBound(p.y);
    TwoDigitsBound(p.mo);
    TwoDigitsBound(p.d);
    TwoDigitsBound(p.h);
    TwoDigitsBound(p.mi);
    TwoDigitsBound(p.se);
    if p.offset.value != "Z" {
      var digits := WithoutColon(p.offset.value[1..]);
      assert digits[0..2] == p.offset.value[1..3] && digits[2..4] == p.offset.value[|p.offset.value| - 2..];
      TwoDigitsBound(digits[0..2]);
      TwoDigitsBound(digits[2..4]);
    }
  }

  /** However the fields roll over, the reading stays within a few years of the year it names. */
  lemma ReadingStaysNear(c: Clock, offset: int)
    requires SmallFields(c) && -6039 <= offset <= 6039
    ensures DayFromYear(c.date.year - 1) - 6 <= (ClockSeconds(c) - 60 * offset) / 86400 <= DayFromYear(c.date.year + 10)
  {
    var day := MakeDay(c.date.year, c.date.month - 1, c.date.day);
    DayStaysNear(c.date.year, c.date.month - 1, c.date.day);
    FewDaysAway(ClockSeconds(c) - 60 * offset, day, 3600 * c.hour + 60 * c.minute + c.second - 60 * offset);
  }

  lemma DayStaysNear(year: int, month: int, date: int)
    requires -1 <= month <= 98 && 0 <= date <= 99
    ensures DayFromYear(year - 1) - 1 <= MakeDay(year, month, date) <= DayFromYear(year + 10) - 266
  {
    MakeDayInYear(year, month, date);
    YearsAscend(year - 1, year + month / 12);
    YearsAscend(year + month / 12, year + 10);
  }

  lemma MakeDayInYear(year: int, month: int, date: int)
    requires -1 <= month <= 98 && 0 <= date <= 99
    ensures -1 <= month / 12 <= 8
    ensures DayFromYear(year + month / 12) - 1 <= MakeDay(year, month, date) <= DayFromYear(year + month / 12) + 464
  {
  }

  lemma FewDaysAway(t: int, day: int, s: int)
    requires t == 86400 * day + s && -362340 <= s <= 3600 * 99 + 60 * 99 + 99 + 362340
    ensures day - 5 <= t / 86400 <= day + 9
  {
  }

  lemma YearOfOutput(p: Parts)
    requires HasOffset(p)
    ensures InTimeRange(DateUtcSeconds(ClockOf(p))) && InTimeRange(UtcSeconds(p))
    ensures 0 <= ClockAt(UtcSeconds(p)).date.year
  {
    FieldsAreSmall(p);
    var c := ClockOf(p);
    var remapped := c.(date := c.date.(year := UtcYear(c.date.year)));
    DayOfOutput(remapped, 0);
    DayOfOutput(remapped, OffsetMinutes(p));
    InRangeAfterYearZero(DateUtcSeconds(c));
    InRangeAfterYearZero(UtcSeconds(p));
  }

  lemma DayOfOutput(c: Clock, offset: int)
    requires SmallFields(c) && 100 <= c.date.year <= 9999 && -6039 <= offset <= 6039
    ensures DayFromYear(0) <= (ClockSeconds(c) - 60 * offset) / 86400 <= DayFromYear(10009)
  {
    ReadingStaysNear(c, offset);
    YearsAscend(0, 99);
    YearsAscend(99, c.date.year - 1);
    YearsAscend(c.date.year + 10, 10009);
  }

  lemma InRangeAfterYearZero(t: int)
    requires DayFromYear(0) <= t / 86400 <= DayFromYear(10009)
    ensures InTimeRange(t) && 0 <= ClockAt(t).date.year
  {
    YearFromDayZero(t / 86400);
  }

  lemma YearFromDayZero(n: int)
    requires DayFromYear(0) <= n
    ensures 0 <= YearFromDay(n)
  {
    var y := YearFromDay(n);
    if y < 0 { YearsAscend(y + 1, 0); }
  }

  /** Date.UTC keeps the year exactly from the year 100 on. */
  lemma RemapMovesEarlyYears(p: Parts)
    requires HasOffset(p)
    ensures UtcSeconds(p) == Instant(p) <==> ClockOf(p).date.year >= 100
  {
    FieldsAreSmall(p);
    MinutesAreStated(p);
    RemapMovesClocks(ClockOf(p));
  }

  lemma RemapMovesClocks(c: Clock)
    requires 0 <= c.date.year && SmallFields(c)
    ensures DateUtcSeconds(c) == ClockSeconds(c) <==> c.date.year >= 100
  {
    if c.date.year < 100 {
      LaterYearsAreLater(c.date.year, c.date.month - 1, c.date.day);
      LaterDaysAreLater(c, c.(date := c.date.(year := c.date.year + 1900)));
    } else {
      assert c.(date := c.date.(year := UtcYear(c.date.year))) == c;
    }
  }

  lemma LaterDaysAreLater(c: Clock, d: Clock)
    requires MakeDay(c.date.year, c.date.month - 1, c.date.day) < MakeDay(d.date.year, d.date.month - 1, d.date.day)
    requires c.hour == d.hour && c.minute == d.minute && c.second == d.second
    ensures ClockSeconds(c) < ClockSeconds(d)
  {
  }

  lemma LaterYearsAreLater(year: int, month: int, day: int)
    ensures MakeDay(year, month, day) < MakeDay(year + 1900, month, day)
  {
    var y, m := year + month / 12, month % 12 + 1;
    YearsAscend(y, y + 1900);
    MonthStartBounds(y, m);
    MonthStartBounds(y + 1900, m);
  }

  lemma MonthStartBounds(y: int, m: int)
    requires 1 <= m <= 12
    ensures 0 <= MonthStart(y, m) <= 335
  {
  }

  lemma OutputText(s: string, p: Parts)
    requires ParseDateTime(s) == Some(p) && p.offset.Some?
    ensures HasOffset(p) && SerializeDateTime(s) == Ok(FormatClock(ClockAt(UtcSeconds(p)), Fraction(p), "Z"))
    ensures ValidClock(ClockAt(UtcSeconds(p))) && ClockAt(UtcSeconds(p)).date.year >= 0
    ensures 1 <= |Fraction(p)| <= 9 && AllDigits(Fraction(p))
  {
    HasOffsetWhenParsed(s, p);
    YearOfOutput(p);
    ClockShowsInstant(UtcSeconds(p));
  }

  /** A printed clock of a year of four digits denotes its own reading. */
  lemma PrintedInstant(c: Clock, frac: string)
    requires ValidClock(c) && 0 <= c.date.year <= 9999 && 1 <= |frac| <= 9 && AllDigits(frac)
    ensures var q := ParseDateTime(FormatClock(c, frac, "Z"));
            && q.Some? && HasOffset(q.value) && q.value.offset == Some("Z") && q.value.frac == Some(frac)
            && ClockOf(q.value) == c && Instant(q.value) == ClockSeconds(c)
  {
    ClockReadsBack(c, frac, "Z");
  }

  /** The output of a datetime with an offset: it is always produced; it is a date-time text of its own exactly when its
      year has four digits; then it ends in Z, carries the fraction digits unchanged, shows a valid calendar date and
      time, and denotes the same instant as the input exactly when the input's year is at least 100. */
  lemma OffsetOutput(s: string, p: Parts)
    requires ParseDateTime(s) == Some(p) && p.offset.Some?
    ensures HasOffset(p) && SerializeDateTime(s).Ok?
    ensures var out, year := SerializeDateTime(s).value, ClockAt(UtcSeconds(p)).date.year;
            && (ParseDateTime(out).Some? <==> year <= 9999)
            && (year <= 9999 ==>
                  var q := ParseDateTime(out).value;
                  && HasOffset(q) && q.offset == Some("Z") && q.frac == Some(Fraction(p))
                  && ClockOf(q) == ClockAt(UtcSeconds(p)) && ValidClock(ClockOf(q))
                  && Instant(q) == UtcSeconds(p)
                  && (Instant(q) == Instant(p) <==> ClockOf(p).date.year >= 100))
  {
    OutputText(s, p);
    RemapMovesEarlyYears(p);
    ClockShowsInstant(UtcSeconds(p));
    var c := ClockAt(UtcSeconds(p));
    if c.date.year <= 9999 {
      PrintedInstant(c, Fraction(p));
    } else {
      LongYearDoesNotReadBack(c, Fraction(p));
    }
  }

  lemma HasOffsetWhenParsed(s: string, p: Parts)
    requires ParseDateTime(s) == Some(p) && p.offset.Some?
    ensures HasOffset(p)
  {
    var fields := [p.mo, p.d, p.h, p.mi, p.se];
    assert fields[0] in fields && fields[1] in fields && fields[2] in fields;
    assert fields[3] in fields && fields[4] in fields;
  }

  lemma ClockReadsBack(c: Clock, frac: string, tail: string)
    requires ValidClock(c) && 0 <= c.date.year <= 9999
    requires 1 <= |frac| <= 9 && AllDigits(frac) && (tail == "" || tail == "Z")
    ensures var q := ParseDateTime(FormatClock(c, frac, tail));
            && q.Some? && q.value.frac == Some(frac) && q.value.offset == (if tail == "" then None else Some(tail))
            && |q.value.y| == 4 && AllDigits(q.value.y)
            && TwoDigits(q.value.mo) && TwoDigits(q.value.d) && TwoDigits(q.value.h)
            && TwoDigits(q.value.mi) && TwoDigits(q.value.se)
            && ClockOf(q.value) == c
  {
    PadIsExact(c.date.year, 4);
    PadIsExact(c.date.month, 2);
    PadIsExact(c.date.day, 2);
    PadIsExact(c.hour, 2);
    PadIsExact(c.minute, 2);
    PadIsExact(c.second, 2);
    FormatReadsBack(Pad(c.date.year, 4), Pad(c.date.month, 2), Pad(c.date.day, 2),
                    Pad(c.hour, 2), Pad(c.minute, 2), Pad(c.second, 2), frac, tail);
  }

  lemma LongYearDoesNotReadBack(c: Clock, frac: string)
    requires c.date.year > 9999
    ensures ParseDateTime(FormatClock(c, frac, "Z")).None?
  {
    DecimalLength(c.date.year);
    assert FormatClock(c, frac, "Z")[4] == Pad(c.date.year, 4)[4];
  }

  /** Every valid calendar date and time from the year 101 to the year 9998 is safely inside those limits. */
  lemma OrdinaryYearsAreExact(s: string, p: Parts)
    requires ParseDateTime(s) == Some(p) && p.offset.Some? && HasOffset(p)
    requires ValidClock(ClockOf(p)) && 101 <= ClockOf(p).date.year <= 9998
    ensures 100 <= ClockAt(UtcSeconds(p)).date.year <= 9999
    ensures SerializeDateTime(s).Ok? && ParseDateTime(SerializeDateTime(s).value).Some?
    ensures var q := ParseDateTime(SerializeDateTime(s).value).value;
            HasOffset(q) && q.offset == Some("Z") && q.frac == Some(Fraction(p)) && ValidClock(ClockOf(q))
            && Instant(q) == Instant(p)
  {
    OrdinaryYearsStay(p);
    OffsetOutput(s, p);
  }

  lemma OrdinaryYearsStay(p: Parts)
    requires HasOffset(p) && ValidClock(ClockOf(p)) && 101 <= ClockOf(p).date.year <= 9998
    ensures 100 <= ClockAt(UtcSeconds(p)).date.year <= 9999
  {
    FieldsAreSmall(p);
    OrdinaryClocksStay(ClockOf(p), OffsetMinutes(p), UtcSeconds(p));
  }

  lemma OrdinaryClocksStay(c: Clock, minutes: int, t: int)
    requires ValidClock(c) && 101 <= c.date.year <= 9998 && -6039 <= minutes <= 6039
    requires t == DateUtcSeconds(c) - 60 * minutes
    ensures 100 <= ClockAt(t).date.year <= 9999
  {
    assert c.(date := c.date.(year := UtcYear(c.date.year))) == c;
    ReadingStaysInYear(c);
    Shifted(86400 * DayFromYear(c.date.year), ClockSeconds(c), 86400 * DayFromYear(c.date.year + 1), minutes);
    YearWithinDays(t, c.date.year);
  }

  lemma Shifted(a: int, s: int, b: int, minutes: int)
    requires a <= s < b && -6039 <= minutes <= 6039
    ensures a - 362340 <= s - 60 * minutes < b + 362340
  {
  }

  lemma ReadingStaysInYear(c: Clock)
    requires ValidClock(c)
    ensures 86400 * DayFromYear(c.date.year) <= ClockSeconds(c) < 86400 * DayFromYear(c.date.year + 1)
  {
    DayWithinYear(c.date);
    ValidReading(c);
    SecondsBetween(DayFromYear(c.date.year), DayNumber(c.date), DayFromYear(c.date.year + 1),
                   3600 * c.hour + 60 * c.minute + c.second);
  }

  lemma SecondsBetween(a: int, day: int, b: int, s: int)
    requires a <= day < b && 0 <= s < 86400
    ensures 86400 * a <= 86400 * day + s < 86400 * b
  {
  }

  lemma YearWithinDays(t: int, year: int)
    requires 101 <= year <= 9998
    requires 86400 * DayFromYear(year) - 362340 <= t < 86400 * DayFromYear(year + 1) + 362340
    ensures 100 <= ClockAt(t).date.year <= 9999
  {
    var day, y := t / 86400, ClockAt(t).date.year;
    YearsAscend(101, year);
    YearsAscend(year + 1, 9999);
    assert DayFromYear(101) - 5 <= day <= DayFromYear(9999) + 5;
    YearLength(100);
    YearLength(9999);
    if y < 100 { YearsAscend(y + 1, 100); } else if y > 9999 { YearsAscend(10000, y); }
  }
}
