/** Which texts are datetimes, stated as a grammar, and that the parser takes exactly these. */
module DateTimeTexts {
  import opened Common
  import opened DateTime

  /** Z, or a sign, two digits, a colon or none, and two digits. */
  ghost predicate OffsetWritten(offset: string) {
    || offset == "Z"
    || exists sign, hours, minutes ::
         && sign in "+-" && TwoDigits(hours) && TwoDigits(minutes)
         && (offset == [sign] + hours + minutes || offset == [sign] + hours + ":" + minutes)
  }

  ghost function FractionPart(p: Parts): string {
    if p.frac.Some? then "." + p.frac.value else ""
  }

  ghost function OffsetPart(p: Parts): string {
    if p.offset.Some? then p.offset.value else ""
  }

  ghost predicate FieldsFit(p: Parts) {
    && |p.y| == 4 && AllDigits(p.y)
    && TwoDigits(p.mo) && TwoDigits(p.d) && TwoDigits(p.h) && TwoDigits(p.mi) && TwoDigits(p.se)
    && (p.frac.Some? ==> 1 <= |p.frac.value| <= 9 && AllDigits(p.frac.value))
    && (p.offset.Some? ==> OffsetWritten(p.offset.value))
  }

  /** The text: the fields, a T or a space in the middle, and white space or none in front of the offset. */
  ghost predicate Writes(s: string, p: Parts, middle: char, blank: string) {
    && FieldsFit(p) && (middle == 'T' || middle == ' ') && Blank(blank)
    && s == p.y + "-" + p.mo + "-" + p.d + [middle] + p.h + ":" + p.mi + ":" + p.se
            + (FractionPart(p) + (blank + OffsetPart(p)))
  }

  lemma OffsetIsWritten(offset: string)
    ensures OffsetWritten(offset) <==> offset == "Z" || NumericOffset(offset)
  {
    if offset != "Z" && OffsetWritten(offset) {
      var sign, hours, minutes :|
        && sign in "+-" && TwoDigits(hours) && TwoDigits(minutes)
        && (offset == [sign] + hours + minutes || offset == [sign] + hours + ":" + minutes);
      assert offset[1..3] == hours && offset[|offset| - 2..] == minutes;
    }
    if NumericOffset(offset) {
      var sign, hours, minutes := offset[0], offset[1..3], offset[|offset| - 2..];
      assert sign == "+-"[0] || sign == "+-"[1];
      assert TwoDigits(hours) && TwoDigits(minutes);
      if |offset| == 5 {
        assert offset == [sign] + hours + minutes;
      } else {
        assert offset == [sign] + hours + ":" + minutes;
      }
    }
  }

  // ---- The part behind the seconds ----

  lemma {:induction false} SpacesSkipped(s: string) returns (blank: string)
    ensures Blank(blank) && s == blank + SkipSpaces(s)
  {
    if s != "" && IsSpace(s[0]) {
      var rest := SpacesSkipped(s[1..]);
      blank := [s[0]] + rest;
    } else {
      blank := "";
    }
  }

  /** An offset does not begin like white space, a digit or a fraction. */
  lemma OffsetBegins(blank: string, offset: string)
    requires Blank(blank) && (offset == "" || OffsetWritten(offset))
    ensures offset != "" ==> !IsSpace(offset[0])
    ensures var t := blank + offset; t != "" ==> !IsDigit(t[0]) && t[0] != '.'
    ensures ParseOffset(blank + offset) == Some(if offset == "" then None else Some(offset))
  {
    OffsetIsWritten(offset);
    SkipsBlanks(blank, offset);
  }

  lemma FractionIsRead(frac: string, rest: string, offset: Option<string>)
    requires 1 <= |frac| <= 9 && AllDigits(frac)
    requires (rest != "" ==> !IsDigit(rest[0])) && ParseOffset(rest) == Some(offset)
    ensures ParseTail("." + frac + rest) == Some((Some(frac), offset))
  {
    var t := "." + frac + rest;
    DigitRunStops(frac, rest);
    assert t[1..] == frac + rest && t[1 + |frac|..] == rest && t[1..1 + |frac|] == frac;
  }

  lemma TailIsRead(p: Parts, blank: string)
    requires FieldsFit(p) && Blank(blank)
    ensures ParseTail(FractionPart(p) + (blank + OffsetPart(p))) == Some((p.frac, p.offset))
  {
    var rest := blank + OffsetPart(p);
    OffsetBegins(blank, OffsetPart(p));
    if p.frac.Some? {
      FractionIsRead(p.frac.value, rest, p.offset);
    } else {
      assert FractionPart(p) + rest == rest;
    }
  }

  lemma TailIsWritten(t: string, p: Parts) returns (blank: string)
    requires ParseTail(t) == Some((p.frac, p.offset))
    ensures Blank(blank) && t == FractionPart(p) + (blank + OffsetPart(p))
    ensures p.frac.Some? ==> 1 <= |p.frac.value| <= 9 && AllDigits(p.frac.value)
    ensures p.offset.Some? ==> OffsetWritten(p.offset.value)
  {
    var k := if t != "" && t[0] == '.' then 1 + DigitRun(t[1..]) else 0;
    blank := SpacesSkipped(t[k..]);
    assert t == t[..k] + t[k..];
    if p.offset.Some? { OffsetIsWritten(p.offset.value); }
    if k > 0 { assert t[..k] == "." + t[1..k]; }
  }

  // ---- The whole ----

  lemma TextHasShape(p: Parts, middle: char, tail: string)
    requires FieldsFit(p) && (middle == 'T' || middle == ' ')
    ensures var s := p.y + "-" + p.mo + "-" + p.d + [middle] + p.h + ":" + p.mi + ":" + p.se + tail;
            && Shape(s) && s[19..] == tail
            && s[0..4] == p.y && s[5..7] == p.mo && s[8..10] == p.d
            && s[11..13] == p.h && s[14..16] == p.mi && s[17..19] == p.se
  {
    var date := p.y + "-" + p.mo + "-" + p.d;
    var time := p.h + ":" + p.mi + ":" + p.se;
    var s := p.y + "-" + p.mo + "-" + p.d + [middle] + p.h + ":" + p.mi + ":" + p.se + tail;
    assert s == date + [middle] + time + tail;
    assert |date| == 10 && |time| == 8;
    assert s[0..4] == p.y && s[5..7] == p.mo && s[8..10] == p.d;
    assert s[11..13] == p.h && s[14..16] == p.mi && s[17..19] == p.se;
  }

  lemma ShapeIsText(s: string)
    requires Shape(s)
    ensures s == s[0..4] + "-" + s[5..7] + "-" + s[8..10] + [s[10]] + s[11..13] + ":" + s[14..16] + ":" + s[17..19]
                 + s[19..]
  {
  }

  /** The parser takes exactly the texts of the grammar, and gives the fields they were put together from. */
  lemma DatetimesAreRead(s: string, p: Parts)
    ensures ParseDateTime(s) == Some(p) <==> exists middle, blank :: Writes(s, p, middle, blank)
  {
    if exists middle, blank :: Writes(s, p, middle, blank) {
      var middle, blank :| Writes(s, p, middle, blank);
      TextHasShape(p, middle, FractionPart(p) + (blank + OffsetPart(p)));
      TailIsRead(p, blank);
    }
    if ParseDateTime(s) == Some(p) {
      var blank := TailIsWritten(s[19..], p);
      ShapeIsText(s);
      assert Writes(s, p, s[10], blank);
    }
  }

  ghost predicate IsDatetime(s: string) {
    exists p, middle, blank :: Writes(s, p, middle, blank)
  }

  /** The serializer gives an error for every other text, and for no text of the grammar, whatever its digits. */
  lemma DatetimesAreSerialised(s: string)
    ensures SerializeDateTime(s).Ok? <==> IsDatetime(s)
  {
    if IsDatetime(s) {
      var p, middle, blank :| Writes(s, p, middle, blank);
      DatetimesAreRead(s, p);
      if p.offset.Some? { OffsetOutput(s, p); }
    }
    if SerializeDateTime(s).Ok? {
      DatetimesAreRead(s, ParseDateTime(s).value);
    }
  }
}
