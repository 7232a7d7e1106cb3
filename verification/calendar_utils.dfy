/** `CalendarUtils.format`: the ISO 8601 profile of the W3C note
    "Date and Time Formats" (NOTE-datetime), `yyyy-MM-ddThh:mm:ss[.sss]`
    followed by `Z` or `+hh:mm` / `-hh:mm`.

    The conversion of an epoch instant into calendar fields is the JVM's
    `GregorianCalendar`; the model starts from the fields it yields and
    from the zone offset in milliseconds. */
module CalendarUtils {
  import opened Outcomes
  import Text

  /** The `Calendar` fields the formatter reads; `month` is
      `Calendar.MONTH`, which counts from 0. */
  datatype CalendarFields = CalendarFields(
    year: int, month: int, dayOfMonth: int,
    hourOfDay: int, minute: int, second: int, millisecond: int)

  /** `padInt`: the decimal form of `value`, left-padded with '0' up to
      `length` characters; a longer rendering is kept whole. */
  function PadInt(value: int, length: int): (s: string)
    ensures |s| >= length && |s| >= 1
  {
    var d := Text.IntToDecimal(value);
    Text.Zeros(if length > |d| then length - |d| else 0) + d
  }

  /** `padInt` writes exactly `max(length, digits)` characters: zeros, then
      the decimal form unchanged. */
  lemma PadIntShape(value: int, length: int)
    ensures var d := Text.IntToDecimal(value);
            var s := PadInt(value, length);
            && |s| == (if length > |d| then length else |d|)
            && s[|s| - |d|..] == d
            && (forall i :: 0 <= i < |s| - |d| ==> s[i] == '0')
  {
  }

  /** A value that fits in `length` digits comes back from its padded
      form: `padInt` adds nothing but leading zeros. */
  lemma PadIntReadsBack(value: int, length: int)
    requires 1 <= length && 0 <= value < Text.Pow10(length)
    ensures |PadInt(value, length)| == length
    ensures Text.AllDigits(PadInt(value, length))
    ensures Text.ParseDigits(PadInt(value, length)) == value
  {
    var d := Text.NatToDecimal(value);
    Text.NatToDecimalFits(value, length);
    Text.ParseIgnoresLeadingZeros(length - |d|, d);
    Text.ParseNatToDecimal(value);
  }

  /** Numbers already `length` digits or longer are not padded. */
  lemma PadIntKeepsLongNumbers(value: int, length: int)
    requires |Text.IntToDecimal(value)| >= length
    ensures PadInt(value, length) == Text.IntToDecimal(value)
  {
  }

  // ---------------------------------------------------------------------
  // The zone offset: JVM `Int` division truncates toward zero
  // ---------------------------------------------------------------------

  function Abs(x: int): nat {
    if x < 0 then -x else x
  }

  /** `a / b` on JVM integers, for a positive divisor. */
  function TruncDiv(a: int, b: int): int
    requires b > 0
  {
    if a >= 0 then a / b else -((-a) / b)
  }

  /** `a % b` on JVM integers: the remainder takes the sign of `a`. */
  function TruncRem(a: int, b: int): int
    requires b > 0
  {
    a - b * TruncDiv(a, b)
  }

  /** `abs(offset / (60 * 1000) / 60)` */
  function OffsetHours(offset: int): nat {
    Abs(TruncDiv(TruncDiv(offset, 60 * 1000), 60))
  }

  /** `abs(offset / (60 * 1000) % 60)` */
  function OffsetMinutes(offset: int): nat {
    Abs(TruncRem(TruncDiv(offset, 60 * 1000), 60))
  }

  /** The printed `hh:mm` is the absolute offset in whole minutes (seconds
      dropped) split into hours and minutes below 60, the same for `+` and
      `-`. */
  lemma OffsetIsWholeMinutesOfAbsolute(offset: int)
    ensures OffsetMinutes(offset) < 60
    ensures OffsetHours(offset) * 60 + OffsetMinutes(offset) == Abs(offset) / 60000
    ensures OffsetHours(-offset) == OffsetHours(offset)
    ensures OffsetMinutes(-offset) == OffsetMinutes(offset)
  {
    var m := Abs(offset) / 60000;
    assert TruncDiv(offset, 60000) == (if offset >= 0 then m else -m);
    assert TruncDiv(-offset, 60000) == (if offset >= 0 then -m else m);
    assert TruncDiv(m, 60) == m / 60;
    assert TruncDiv(-m, 60) == -(m / 60) by {
      if m > 0 {
        assert -m < 0;
      }
    }
    assert TruncRem(m, 60) == m % 60;
    assert TruncRem(-m, 60) == -(m % 60);
  }

  // ---------------------------------------------------------------------
  // The pattern `yyyy-MM-ddThh:mm:ss[.sss][Z|[+-]hh:mm]`
  // ---------------------------------------------------------------------

  /** A pattern such as `yyyy-MM-dd`: numbers zero-padded to a width and
      literal characters, in order. */
  datatype Layout = Done | Num(width: nat, next: Layout) | Lit(c: char, next: Layout)

  function NumCount(layout: Layout): nat {
    match layout
    case Done => 0
    case Num(_, next) => 1 + NumCount(next)
    case Lit(_, next) => NumCount(next)
  }

  /** `yyyy-MM-ddThh:mm:ss` */
  const DateLayout := Num(4, Lit('-', Num(2, Lit('-', Num(2, Lit('T', Num(2, Lit(':', Num(2, Lit(':', Num(2, Done)))))))))))
  /** `.sss` */
  const FractionLayout := Lit('.', Num(3, Done))
  /** `hh:mm` after the sign of the offset */
  const ZoneLayout := Num(2, Lit(':', Num(2, Done)))

  /** The `padInt`/`append` sequence of `format`: each literal appended,
      each number written by `padInt` with its field's width. */
  function Write(layout: Layout, vals: seq<int>): (s: string)
    requires NumCount(layout) == |vals|
  {
    match layout
    case Done => ""
    case Lit(c, next) => [c] + Write(next, vals)
    case Num(w, next) => PadInt(vals[0], w) + Write(next, vals[1..])
  }

  /** Every number is non-negative and fits the width of its token. */
  predicate Fits(layout: Layout, vals: seq<int>)
    requires NumCount(layout) == |vals|
  {
    match layout
    case Done => true
    case Lit(_, next) => Fits(next, vals)
    case Num(w, next) => 1 <= w && 0 <= vals[0] < Text.Pow10(w) && Fits(next, vals[1..])
  }

  /** Reads a prefix of `s` laid out as `layout`: the numbers and what
      follows them. */
  function Read(layout: Layout, s: string): (r: Option<(seq<int>, string)>)
    ensures r.Some? ==> |r.value.0| == NumCount(layout)
  {
    match layout
    case Done => Some(([], s))
    case Lit(c, next) => if |s| >= 1 && s[0] == c then Read(next, s[1..]) else None
    case Num(w, next) =>
      if |s| >= w && Text.AllDigits(s[..w]) then
        match Read(next, s[w..])
        case None => None
        case Some((vs, rest)) => Some(([Text.ParseDigits(s[..w])] + vs, rest))
      else None
  }

  /** What `Write` lays out, `Read` takes apart again, leaving whatever
      followed untouched. */
  lemma {:induction false} ReadWrite(layout: Layout, vals: seq<int>, rest: string)
    requires NumCount(layout) == |vals| && Fits(layout, vals)
    ensures Read(layout, Write(layout, vals) + rest) == Some((vals, rest))
  {
    match layout
    case Done =>
      assert Write(layout, vals) + rest == rest;
    case Lit(c, next) =>
      var tail := Write(next, vals);
      ReadWrite(next, vals, rest);
      assert Write(layout, vals) + rest == [c] + (tail + rest);
      assert ([c] + (tail + rest))[1..] == tail + rest;
    case Num(w, next) =>
      var tail := Write(next, vals[1..]);
      ReadWrite(next, vals[1..], rest);
      PadIntReadsBack(vals[0], w);
      var p := PadInt(vals[0], w);
      assert Write(layout, vals) + rest == p + (tail + rest);
      ReadNumStep(layout, p, tail + rest);
      assert [vals[0]] + vals[1..] == vals;
  }

  lemma ReadNumStep(layout: Layout, p: string, t: string)
    requires layout.Num? && layout.width == |p| && Text.AllDigits(p)
    ensures Read(layout, p + t)
            == match Read(layout.next, t)
               case None => None
               case Some((vs, rest)) => Some(([Text.ParseDigits(p)] + vs, rest))
  {
    ConcatSplits(p, t);
  }

  lemma ConcatSplits(a: string, b: string)
    ensures (a + b)[..|a|] == a && (a + b)[|a|..] == b
  {
  }

  // ---------------------------------------------------------------------
  // format
  // ---------------------------------------------------------------------

  function DateValues(f: CalendarFields): seq<int> {
    [f.year, f.month + 1, f.dayOfMonth, f.hourOfDay, f.minute, f.second]
  }

  /** `yyyy-MM-ddThh:mm:ss`, the month counted from 1. */
  function DatePart(f: CalendarFields): string {
    assert NumCount(DateLayout) == 6;
    Write(DateLayout, DateValues(f))
  }

  /** `.sss` when millisecond precision is asked for. */
  function FractionPart(f: CalendarFields, millis: bool): string {
    assert NumCount(FractionLayout) == 1;
    if millis then Write(FractionLayout, [f.millisecond]) else ""
  }

  /** `Z` for a zero offset, otherwise the sign and `hh:mm`. */
  function ZonePart(offset: int): string {
    assert NumCount(ZoneLayout) == 2;
    if offset != 0 then [if offset < 0 then '-' else '+'] + Write(ZoneLayout, [OffsetHours(offset), OffsetMinutes(offset)])
    else "Z"
  }

  /** `format(date, millis, timezone)`, from the calendar fields of `date`
      in `timezone` and the zone's offset at that instant. */
  function Format(f: CalendarFields, millis: bool, offset: int): (r: string)
    ensures |r| >= 1
    ensures offset == 0 <==> r[|r| - 1] == 'Z'
  {
    ZonePartEnds(offset);
    DatePart(f) + (FractionPart(f, millis) + ZonePart(offset))
  }

  lemma ZonePartEnds(offset: int)
    ensures |ZonePart(offset)| >= 1
    ensures offset == 0 <==> ZonePart(offset)[|ZonePart(offset)| - 1] == 'Z'
  {
    if offset != 0 {
      var m := OffsetMinutes(offset);
      var d := Text.IntToDecimal(m);
      PadIntShape(m, 2);
      var p := PadInt(m, 2);
      var z := ZonePart(offset);
      ZoneSpelled(OffsetHours(offset), m);
      assert z == [z[0]] + (PadInt(OffsetHours(offset), 2) + (":" + p));
      assert z[|z| - 1] == p[|p| - 1] == d[|d| - 1];
      assert Text.IsDigit(d[|d| - 1]);
    }
  }

  /** `hh:mm` is `padInt(hours, 2)`, `':'`, `padInt(minutes, 2)`. */
  lemma ZoneSpelled(h: int, m: int)
    ensures Write(ZoneLayout, [h, m]) == PadInt(h, 2) + (":" + PadInt(m, 2))
  {
    WriteNum(ZoneLayout, [h, m]);
    WriteLit(ZoneLayout.next, [m]);
    WriteNum(Num(2, Done), [m]);
    assert PadInt(m, 2) + "" == PadInt(m, 2);
  }

  lemma FitsNum(layout: Layout, vals: seq<int>)
    requires layout.Num? && NumCount(layout) == |vals|
    ensures Fits(layout, vals) <==> 1 <= layout.width && 0 <= vals[0] < Text.Pow10(layout.width) && Fits(layout.next, vals[1..])
  {
  }

  lemma FitsLit(layout: Layout, vals: seq<int>)
    requires layout.Lit? && NumCount(layout) == |vals|
    ensures Fits(layout, vals) <==> Fits(layout.next, vals)
  {
  }

  /** Calendar fields in range fit the widths of `yyyy-MM-ddThh:mm:ss`. */
  lemma DateFits(f: CalendarFields)
    requires InRange(f)
    ensures Fits(DateLayout, DateValues(f))
  {
    assert Text.Pow10(2) == 100 && Text.Pow10(4) == 10000;
    var t := Lit(':', Num(2, Done));
    FitsNum(Num(2, Done), [f.second]);
    FitsLit(t, [f.second]);
    FitsNum(Num(2, t), [f.minute, f.second]);
    FitsLit(Lit(':', Num(2, t)), [f.minute, f.second]);
    var l3 := Num(2, Lit(':', Num(2, t)));
    FitsNum(l3, [f.hourOfDay, f.minute, f.second]);
    FitsLit(Lit('T', l3), [f.hourOfDay, f.minute, f.second]);
    var l2 := Num(2, Lit('T', l3));
    FitsNum(l2, [f.dayOfMonth, f.hourOfDay, f.minute, f.second]);
    FitsLit(Lit('-', l2), [f.dayOfMonth, f.hourOfDay, f.minute, f.second]);
    var l1 := Num(2, Lit('-', l2));
    FitsNum(l1, [f.month + 1, f.dayOfMonth, f.hourOfDay, f.minute, f.second]);
    FitsLit(Lit('-', l1), [f.month + 1, f.dayOfMonth, f.hourOfDay, f.minute, f.second]);
    assert DateValues(f)[1..] == [f.month + 1, f.dayOfMonth, f.hourOfDay, f.minute, f.second];
    FitsNum(DateLayout, DateValues(f));
  }

  // ---------------------------------------------------------------------
  // Reading a formatted timestamp back
  // ---------------------------------------------------------------------

  datatype Zone = Utc | Offset(negative: bool, hours: int, minutes: int)

  /** The fields a `yyyy-MM-ddThh:mm:ss[.sss](Z|±hh:mm)` string spells out;
      `month` is the printed month, counting from 1. */
  datatype Stamp = Stamp(date: seq<int>, millisecond: Option<int>, zone: Zone)

  /** Reads `Z`, `+hh:mm` or `-hh:mm` and nothing after it. */
  function DecodeZone(s: string): Option<Zone> {
    if s == "Z" then Some(Utc)
    else if |s| >= 1 && (s[0] == '+' || s[0] == '-') then
      match Read(ZoneLayout, s[1..])
      case Some((v, "")) => Some(Offset(s[0] == '-', v[0], v[1]))
      case _ => None
    else None
  }

  /** Reads a whole timestamp in the format `format` writes. */
  function Decode(s: string): Option<Stamp> {
    match Read(DateLayout, s)
    case None => None
    case Some((date, rest)) =>
      var fraction := Read(FractionLayout, rest);
      var zone := DecodeZone(if fraction.Some? then fraction.value.1 else rest);
      if zone.None? then None
      else Some(Stamp(date, if fraction.Some? then Some(fraction.value.0[0]) else None, zone.value))
  }

  /** The calendar ranges `GregorianCalendar` produces for years of at most
      four digits. */
  predicate InRange(f: CalendarFields) {
    && 0 <= f.year <= 9999 && 0 <= f.month <= 11 && 1 <= f.dayOfMonth <= 31
    && 0 <= f.hourOfDay <= 23 && 0 <= f.minute <= 59 && 0 <= f.second <= 59
    && 0 <= f.millisecond <= 999
  }

  /** What a formatted timestamp should read back as. */
  function Expected(f: CalendarFields, millis: bool, offset: int): Stamp {
    Stamp(DateValues(f), if millis then Some(f.millisecond) else None,
          if offset == 0 then Utc else Offset(offset < 0, OffsetHours(offset), OffsetMinutes(offset)))
  }

  lemma {:induction false} ZonePartDecodes(offset: int)
    requires Abs(offset) < 100 * 60 * 60000
    ensures DecodeZone(ZonePart(offset)) == Some(Expected(CalendarFields(0, 0, 1, 0, 0, 0, 0), false, offset).zone)
  {
    if offset != 0 {
      OffsetIsWholeMinutesOfAbsolute(offset);
      var v := [OffsetHours(offset), OffsetMinutes(offset)];
      assert Text.Pow10(2) == 100;
      FitsNum(ZoneLayout, v);
      FitsLit(ZoneLayout.next, v[1..]);
      FitsNum(Num(2, Done), v[1..]);
      ReadWrite(ZoneLayout, v, "");
      var w := Write(ZoneLayout, v);
      assert w + "" == w;
      assert ZonePart(offset)[1..] == w;
    }
  }

  lemma DatePartReads(f: CalendarFields, rest: string)
    requires InRange(f)
    ensures Read(DateLayout, DatePart(f) + rest) == Some((DateValues(f), rest))
  {
    DateFits(f);
    ReadWrite(DateLayout, DateValues(f), rest);
  }

  /** After the date: the fraction exactly when it was written, then the
      zone. */
  lemma RestReads(f: CalendarFields, millis: bool, offset: int)
    requires InRange(f) && Abs(offset) < 100 * 60 * 60000
    ensures var rest := FractionPart(f, millis) + ZonePart(offset);
            var fraction := Read(FractionLayout, rest);
            && fraction.Some? == millis
            && (millis ==> fraction.value == ([f.millisecond], ZonePart(offset)))
            && DecodeZone(if millis then ZonePart(offset) else rest) == Some(Expected(f, millis, offset).zone)
  {
    var zone := ZonePart(offset);
    ZonePartDecodes(offset);
    if millis {
      assert Text.Pow10(3) == 1000;
      FitsLit(FractionLayout, [f.millisecond]);
      FitsNum(FractionLayout.next, [f.millisecond]);
      ReadWrite(FractionLayout, [f.millisecond], zone);
    } else {
      assert FractionPart(f, millis) + zone == zone;
      assert zone[0] != '.';
    }
  }

  /** `format` loses nothing it prints: reading its output back gives the
      date fields (month counted from 1), the milliseconds exactly when
      they were asked for, and `Z` or the signed whole-minute offset. */
  lemma {:induction false} FormatDecodes(f: CalendarFields, millis: bool, offset: int)
    requires InRange(f) && Abs(offset) < 100 * 60 * 60000
    ensures Decode(Format(f, millis, offset)) == Some(Expected(f, millis, offset))
  {
    var rest := FractionPart(f, millis) + ZonePart(offset);
    DatePartReads(f, rest);
    RestReads(f, millis, offset);
    assert Format(f, millis, offset) == DatePart(f) + rest;
  }

  /** The layout spells out the source's sequence of `padInt` and
      `append` calls for the date and time. */
  lemma DatePartSpelled(f: CalendarFields)
    ensures DatePart(f) == PadInt(f.year, 4) + ("-" + (PadInt(f.month + 1, 2) + ("-" + (PadInt(f.dayOfMonth, 2)
                           + ("T" + (PadInt(f.hourOfDay, 2) + (":" + (PadInt(f.minute, 2) + (":" + PadInt(f.second, 2))))))))))
  {
    var vals := DateValues(f);
    var l5 := Num(2, Done);
    var l4 := Num(2, Lit(':', l5));
    var l3 := Num(2, Lit(':', l4));
    var l2 := Num(2, Lit('T', l3));
    var l1 := Num(2, Lit('-', l2));
    WriteNumLit(DateLayout, vals);
    WriteNumLit(l1, vals[1..]);
    WriteNumLit(l2, vals[2..]);
    WriteNumLit(l3, vals[3..]);
    WriteNumLit(l4, vals[4..]);
    WriteNum(l5, vals[5..]);
    assert vals[1..][1..] == vals[2..] && vals[2..][1..] == vals[3..];
    assert vals[3..][1..] == vals[4..] && vals[4..][1..] == vals[5..];
    assert PadInt(f.second, 2) + "" == PadInt(f.second, 2);
  }

  /** A number followed by a literal character. */
  lemma WriteNumLit(layout: Layout, vals: seq<int>)
    requires layout.Num? && layout.next.Lit? && NumCount(layout) == |vals|
    ensures Write(layout, vals) == PadInt(vals[0], layout.width) + ([layout.next.c] + Write(layout.next.next, vals[1..]))
  {
    WriteNum(layout, vals);
    WriteLit(layout.next, vals[1..]);
  }

  lemma WriteNum(layout: Layout, vals: seq<int>)
    requires layout.Num? && NumCount(layout) == |vals|
    ensures Write(layout, vals) == PadInt(vals[0], layout.width) + Write(layout.next, vals[1..])
  {
  }

  lemma WriteLit(layout: Layout, vals: seq<int>)
    requires layout.Lit? && NumCount(layout) == |vals|
    ensures Write(layout, vals) == [layout.c] + Write(layout.next, vals)
  {
  }

  /** Padding to a width: one zero before a one-digit day, two before a
      one-digit millisecond count, none when the digits fill the width. */
  lemma PadIntExamples()
    ensures PadInt(3, 2) == "03"
    ensures PadInt(7, 3) == "007"
    ensures PadInt(789, 3) == "789"
  {
    PadTwo(3);
    PadThree(789);
    assert Text.NatToDecimal(7) == "7";
  }

  /** The formatter's test timestamp, 3 October 2019 23:21:30.789 in GMT
      (`Calendar.MONTH` is 9 for October): without milliseconds it prints
      to the second, with them it adds `.789`. */
  lemma FormatExample()
    ensures Format(CalendarFields(2019, 9, 3, 23, 21, 30, 789), false, 0) == "2019-10-03T23:21:30Z"
    ensures Format(CalendarFields(2019, 9, 3, 23, 21, 30, 789), true, 0) == "2019-10-03T23:21:30.789Z"
  {
    var f, offset := CalendarFields(2019, 9, 3, 23, 21, 30, 789), 0;
    var d, z := DatePart(f), ZonePart(offset);
    ExampleDate(f, d);
    ExampleFraction(f);
    ExampleParts(f, offset, d, z);
    ExampleJoin(d, z);
  }

  lemma ExampleDate(f: CalendarFields, d: string)
    requires f == CalendarFields(2019, 9, 3, 23, 21, 30, 789) && d == DatePart(f)
    ensures d == "2019-10-03T23:21:30"
  {
    DatePartSpelled(f);
    ExamplePads(f);
    assert d == "2019" + ("-" + ("10" + ("-" + ("03" + ("T" + ("23" + (":" + ("21" + (":" + "30")))))))));
  }

  lemma ExamplePads(f: CalendarFields)
    requires f == CalendarFields(2019, 9, 3, 23, 21, 30, 789)
    ensures PadInt(f.year, 4) == "2019" && PadInt(f.month + 1, 2) == "10" && PadInt(f.dayOfMonth, 2) == "03"
    ensures PadInt(f.hourOfDay, 2) == "23" && PadInt(f.minute, 2) == "21" && PadInt(f.second, 2) == "30"
  {
    PadFour(f.year);
    PadTwo(f.month + 1);
    PadTwo(f.dayOfMonth);
    PadTwo(f.hourOfDay);
    PadTwo(f.minute);
    PadTwo(f.second);
  }

  lemma ExampleFraction(f: CalendarFields)
    requires f == CalendarFields(2019, 9, 3, 23, 21, 30, 789)
    ensures FractionPart(f, true) == ".789"
  {
    WriteLit(FractionLayout, [f.millisecond]);
    WriteNum(FractionLayout.next, [f.millisecond]);
    PadThree(f.millisecond);
  }

  lemma ExampleParts(f: CalendarFields, offset: int, d: string, z: string)
    requires offset == 0 && d == DatePart(f) && z == ZonePart(offset)
    ensures z == "Z"
    ensures Format(f, false, offset) == d + ("" + z)
    ensures Format(f, true, offset) == d + (FractionPart(f, true) + z)
  {
  }

  lemma ExampleJoin(d: string, z: string)
    requires d == "2019-10-03T23:21:30" && z == "Z"
    ensures d + ("" + z) == "2019-10-03T23:21:30Z"
    ensures d + (".789" + z) == "2019-10-03T23:21:30.789Z"
  {
  }

  /** The zone designators of the formatter's tests: GMT, GMT+02:00 and
      GMT-02:00. */
  lemma ZoneExamples()
    ensures ZonePart(0) == "Z"
    ensures ZonePart(2 * 3600000) == "+02:00"
    ensures ZonePart(-2 * 3600000) == "-02:00"
  {
    assert ZonePart(2 * 3600000) == "+02:00" by { PlusTwoHours(); }
    assert ZonePart(-2 * 3600000) == "-02:00" by { MinusTwoHours(); }
  }

  lemma PlusTwoHours()
    ensures ZonePart(2 * 3600000) == "+02:00"
  {
    assert OffsetHours(2 * 3600000) == 2 && OffsetMinutes(2 * 3600000) == 0;
    assert PadInt(2, 2) == "02" && PadInt(0, 2) == "00";
    ZoneSpelled(2, 0);
  }

  lemma MinusTwoHours()
    ensures ZonePart(-2 * 3600000) == "-02:00"
  {
    assert OffsetHours(-2 * 3600000) == 2 && OffsetMinutes(-2 * 3600000) == 0;
    assert PadInt(2, 2) == "02" && PadInt(0, 2) == "00";
    ZoneSpelled(2, 0);
  }

  lemma PadTwo(v: nat)
    requires v < 100
    ensures PadInt(v, 2) == [Text.DigitChar(v / 10), Text.DigitChar(v % 10)]
  {
    if v < 10 {
      assert Text.NatToDecimal(v) == [Text.DigitChar(v)];
      assert Text.Zeros(1) == "0";
    } else {
      assert Text.NatToDecimal(v) == [Text.DigitChar(v / 10), Text.DigitChar(v % 10)];
    }
  }

  lemma PadThree(v: nat)
    requires 100 <= v < 1000
    ensures PadInt(v, 3) == [Text.DigitChar(v / 100), Text.DigitChar(v / 10 % 10), Text.DigitChar(v % 10)]
  {
    assert Text.NatToDecimal(v) == Text.NatToDecimal(v / 10) + [Text.DigitChar(v % 10)];
    assert Text.NatToDecimal(v / 10) == [Text.DigitChar(v / 100), Text.DigitChar(v / 10 % 10)];
  }

  lemma PadFour(v: nat)
    requires 1000 <= v < 10000
    ensures PadInt(v, 4) == [Text.DigitChar(v / 1000), Text.DigitChar(v / 100 % 10), Text.DigitChar(v / 10 % 10), Text.DigitChar(v % 10)]
  {
    assert Text.NatToDecimal(v) == Text.NatToDecimal(v / 10) + [Text.DigitChar(v % 10)];
    assert Text.NatToDecimal(v / 10) == Text.NatToDecimal(v / 100) + [Text.DigitChar(v / 10 % 10)];
    assert Text.NatToDecimal(v / 100) == [Text.DigitChar(v / 1000), Text.DigitChar(v / 100 % 10)];
  }
}
