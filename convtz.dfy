/**
  `ConvertTimezone.parse_timeformat`: the timestamp's format is detected, a
  zone is picked, `strptime` reads the detected text, the result is taken as
  wall-clock time of the picked zone and converted to an epoch with
  `calendar.timegm`, and the epoch is shown on the UTC line of
  `covert_epochtime`.

  The zone database is not modelled: `offset(zone)` is the number of seconds
  the zone's clock is ahead of UTC, fixed for all dates.
*/
module ConvertTimezone {
  import opened Wrappers
  import opened Civil
  import opened Zones
  import opened Patterns
  import opened Strptime
  import opened FormatDetection

  /** `strptime` raised, or the instant lies outside the years 1 to 9999 (`astimezone` overflows). */
  datatype Failure = BadTimestamp(error: StrptimeError) | Overflow

  /** The epoch of the detected text, read as wall-clock time of a zone `offset` seconds ahead of UTC. */
  function DetectionEpoch(detected: Detection, offset: int): Result<int, Failure> {
    match Parse(detected.text, detected.template)
    case Err(e) => Err(BadTimestamp(e))
    case Ok(dt) =>
      var epoch := Timegm(dt) - offset;
      if MinEpoch <= epoch <= MaxEpoch then Ok(epoch) else Err(Overflow)
  }

  /** The epoch `parse_timeformat` computes for a timestamp. */
  function TimestampEpoch(catalog: seq<string>, asciiTimestamp: string, tzone: Option<string>, offset: string -> int): Result<int, Failure> {
    DetectionEpoch(Detect(asciiTimestamp), offset(PickZone(catalog, tzone)))
  }

  /** `%Z%z` of the zone UTC */
  const UtcSuffix: string := " UTC+0000"

  /** The UTC line of `covert_epochtime`, `%Y-%m-%d %H:%M:%S %Z%z`; `fromtimestamp` fails outside the years 1 to 9999. */
  function UtcLine(epoch: int): Option<string> {
    if MinEpoch <= epoch <= MaxEpoch then
      YearRangeIff(epoch);
      Some(Format(UtcFields(epoch), SecondsTemplate) + UtcSuffix)
    else None
  }

  /**
    `parse_timeformat`: the zone it picks, whether it prints that it could not
    parse the timestamp, and the epoch it hands to `covert_epochtime`.
  */
  method ParseTimeformat(catalog: seq<string>, asciiTimestamp: string, tzone: Option<string>, offset: string -> int)
    returns (pickedTzone: string, notice: bool, epoch: Result<int, Failure>)
    ensures pickedTzone == PickZone(catalog, tzone)
    ensures notice <==> forall j :: 0 <= j < |Formats| ==> !Matches(Formats, j, asciiTimestamp)
    ensures epoch == TimestampEpoch(catalog, asciiTimestamp, tzone, offset)
  {
    var dateTimeStr, strpTimeFormat;
    dateTimeStr, strpTimeFormat, notice := DetectFormat(asciiTimestamp);
    pickedTzone := PickTimezone(catalog, tzone);
    var dt := Parse(dateTimeStr, strpTimeFormat);
    if dt.Err? {
      epoch := Err(BadTimestamp(dt.error));
      assert epoch == DetectionEpoch(Detection(dateTimeStr, strpTimeFormat), offset(pickedTzone));
      return;
    }
    var e := Timegm(dt.value) - offset(pickedTzone);
    if !(MinEpoch <= e <= MaxEpoch) {
      epoch := Err(Overflow);
    } else {
      epoch := Ok(e);
    }
    assert epoch == DetectionEpoch(Detection(dateTimeStr, strpTimeFormat), offset(pickedTzone));
  }

  /** The epoch, read on the picked zone's clock, shows the wall-clock time `strptime` read. */
  lemma {:induction false} EpochShowsWallClock(catalog: seq<string>, s: string, tzone: Option<string>, offset: string -> int)
    requires TimestampEpoch(catalog, s, tzone, offset).Ok?
    ensures var epoch := TimestampEpoch(catalog, s, tzone, offset).value;
      Parse(Detect(s).text, Detect(s).template) == Ok(UtcFields(epoch + offset(PickZone(catalog, tzone))))
  {
    var dt := Parse(Detect(s).text, Detect(s).template).value;
    var z := PickZone(catalog, tzone);
    assert TimestampEpoch(catalog, s, tzone, offset).value + offset(z) == Timegm(dt);
    CivilRoundTrip(dt);
  }

  /** In a zone with no offset (UTC, the default), a timestamp `strptime` reads converts to its `timegm` epoch. */
  lemma {:induction false} UtcEpoch(catalog: seq<string>, s: string, tzone: Option<string>, offset: string -> int, dt: DateTime)
    requires offset(PickZone(catalog, tzone)) == 0
    requires Parse(Detect(s).text, Detect(s).template) == Ok(dt)
    ensures TimestampEpoch(catalog, s, tzone, offset) == Ok(Timegm(dt))
  {
    TimegmInRange(dt);
  }

  /** Without a match, the timestamp is taken to be epoch zero in a zone with no offset. */
  lemma {:induction false} FallbackEpochZero(catalog: seq<string>, s: string, tzone: Option<string>, offset: string -> int)
    requires forall j :: 0 <= j < |Formats| ==> !Matches(Formats, j, s)
    requires offset(PickZone(catalog, tzone)) == 0
    ensures TimestampEpoch(catalog, s, tzone, offset) == Ok(0)
  {
    DetectFallback(s);
    var zero := DateTime(1970, 1, 1, 0, 0, 0);
    FallbackIsEpochZero();
    DashSpaceConsistent();
    ParseFormat(SecondsTemplate, zero);
    UtcEpoch(catalog, s, tzone, offset, zero);
  }

  /** The fallback text is what `strftime` writes for 1970-01-01 00:00:00. */
  lemma {:induction false} FallbackIsEpochZero()
    ensures FallbackText == Format(DateTime(1970, 1, 1, 0, 0, 0), SecondsTemplate)
    ensures Timegm(DateTime(1970, 1, 1, 0, 0, 0)) == 0
  {
    FallbackPieces();
    Join19("1970", "01", "01", "00", "00", "00");
  }

  lemma {:induction false} FallbackFields()
    ensures var zero := DateTime(1970, 1, 1, 0, 0, 0);
      && Piece(zero, Year) == "1970" && Piece(zero, Month) == "01" && Piece(zero, Day) == "01"
      && Piece(zero, Hour) == "00" && Piece(zero, Minute) == "00" && Piece(zero, Second) == "00"
      && Piece(zero, Lit('-')) == "-" && Piece(zero, Blank) == " " && Piece(zero, Lit(':')) == ":"
  {
  }

  lemma {:induction false} FallbackPieces()
    ensures Format(DateTime(1970, 1, 1, 0, 0, 0), SecondsTemplate)
         == "1970" + "-" + "01" + "-" + "01" + " " + ("00" + ":" + "00" + ":" + "00")
  {
    var zero := DateTime(1970, 1, 1, 0, 0, 0);
    SecondsText(zero);
    ClockText(zero);
    FallbackFields();
  }

  /** In a zone with no offset, every format from 1 to 6 gives back the epoch of the date-time it was written from. */
  lemma {:induction false} OwnFormatEpoch(catalog: seq<string>, i: int, dt: DateTime, tail: string, tzone: Option<string>, offset: string -> int)
    requires IsValid(dt) && InYearRange(dt) && 0 <= i < 6
    requires offset(PickZone(catalog, tzone)) == 0
    ensures TimestampEpoch(catalog, Format(dt, Formats[i].template) + tail, tzone, offset) == Ok(Timegm(dt))
  {
    OwnFormatDetected(i, dt, tail);
    UtcEpoch(catalog, Format(dt, Formats[i].template) + tail, tzone, offset, dt);
  }

  /** The UTC line of the epoch of a date-time shows that date-time. */
  lemma {:induction false} UtcLineOfTimegm(dt: DateTime)
    requires IsValid(dt) && InYearRange(dt)
    ensures UtcLine(Timegm(dt)) == Some(Format(dt, SecondsTemplate) + UtcSuffix)
  {
    CivilRoundTrip(dt);
    YearRangeIff(Timegm(dt));
  }

  /**
    Feeding the UTC line of an epoch back in as a timestamp, in a zone with
    no offset, gives the same epoch.
  */
  lemma {:induction false} UtcLineRoundTrip(catalog: seq<string>, epoch: int, tzone: Option<string>, offset: string -> int)
    requires MinEpoch <= epoch <= MaxEpoch
    requires offset(PickZone(catalog, tzone)) == 0
    ensures UtcLine(epoch).Some?
    ensures TimestampEpoch(catalog, UtcLine(epoch).value, tzone, offset) == Ok(epoch)
  {
    YearRangeIff(epoch);
    var dt := UtcFields(epoch);
    assert Formats[1].template == SecondsTemplate;
    OwnFormatEpoch(catalog, 1, dt, UtcSuffix, tzone, offset);
    EpochRoundTrip(epoch);
  }

  /** A timestamp `dd/Mon/yyyy hh:mm:ss` is detected by the seventh format and then rejected, in any zone. */
  lemma {:induction false} AccessLogTimestampRejected(catalog: seq<string>, dt: DateTime, tail: string, tzone: Option<string>, offset: string -> int)
    requires InFieldRanges(dt)
    ensures TimestampEpoch(catalog, Format(dt, AccessLogBlankTemplate) + tail, tzone, offset) == Err(BadTimestamp(DataMismatch))
  {
    AccessLogQuirk(dt, tail);
  }

  /** A timestamp `dd/Mon/yyyy:hh:mm:ss`, as the docstring writes it, falls back to epoch zero in a zone with no offset. */
  lemma {:induction false} AccessLogDocstringFallsBack(catalog: seq<string>, dt: DateTime, tail: string, tzone: Option<string>, offset: string -> int)
    requires InFieldRanges(dt)
    requires offset(PickZone(catalog, tzone)) == 0
    ensures forall j :: 0 <= j < |Formats| ==> !Matches(Formats, j, Format(dt, AccessLogFormat.template) + tail)
    ensures TimestampEpoch(catalog, Format(dt, AccessLogFormat.template) + tail, tzone, offset) == Ok(0)
  {
    AccessLogOwnOutputFallsBack(dt, tail);
    FallbackEpochZero(catalog, Format(dt, AccessLogFormat.template) + tail, tzone, offset);
  }

  /**
    A timestamp `yyyy-mm-dd hh:mm:ss` whose seconds are two digits past 61 is
    detected by the second format and then rejected, in any zone: the last
    digit is left unconverted.
  */
  lemma {:induction false} SecondsPastRangeTimestamp(catalog: seq<string>, dt: DateTime, w: string, tail: string, tzone: Option<string>, offset: string -> int)
    requires InFieldRanges(dt)
    requires |w| == 2 && AllIn(Digit, w) && DecimalValue(w) > 61
    ensures TimestampEpoch(catalog, Format(dt, SecondsHead) + w + tail, tzone, offset) == Err(BadTimestamp(UnconvertedData))
  {
    SecondsDetected(dt, w, tail);
    SecondsPastRangeRejected(dt, w);
  }

  /**
    A timestamp that formats 1 to 6 write for fields each in its directive's
    range, but not together a valid date-time in the years 1 to 9999, is
    detected and then rejected by `strptime` as out of range, in any zone.
  */
  lemma {:induction false} OutOfRangeTimestamp(catalog: seq<string>, i: int, dt: DateTime, tail: string, tzone: Option<string>, offset: string -> int)
    requires InFieldRanges(dt) && !(IsValid(dt) && InYearRange(dt)) && 0 <= i < 6
    ensures TimestampEpoch(catalog, Format(dt, Formats[i].template) + tail, tzone, offset) == Err(BadTimestamp(OutOfRange))
  {
    OwnFormatOutOfRange(i, dt, tail);
  }

  /** `strftime` with a template of five directives, piece by piece. */
  lemma {:induction false} FormatFive(d: DateTime, a: Directive, b: Directive, c: Directive, e: Directive, f: Directive)
    requires InFieldRanges(d)
    ensures Format(d, [a, b, c, e, f]) == Piece(d, a) + Piece(d, b) + Piece(d, c) + Piece(d, e) + Piece(d, f)
  {
    FormatOne(d, a);
    FormatSnoc(d, [a], b);
    FormatSnoc(d, [a, b], c);
    FormatSnoc(d, [a, b, c], e);
    FormatSnoc(d, [a, b, c, e], f);
    assert [a] + [b] == [a, b];
    assert [a, b] + [c] == [a, b, c];
    assert [a, b, c] + [e] == [a, b, c, e];
    assert [a, b, c, e] + [f] == [a, b, c, e, f];
  }

  /** `strftime` with `%H:%M:%S`, piece by piece. */
  lemma {:induction false} ClockText(d: DateTime)
    requires InFieldRanges(d)
    ensures Format(d, ClockTemplate) == Piece(d, Hour) + Piece(d, Lit(':')) + Piece(d, Minute) + Piece(d, Lit(':')) + Piece(d, Second)
  {
    FormatFive(d, Hour, Lit(':'), Minute, Lit(':'), Second);
  }

  /** `strftime` with five directives, a separator and `%H:%M:%S`. */
  lemma {:induction false} DateClockText(d: DateTime, date: Template, sep: Directive)
    requires InFieldRanges(d)
    ensures Format(d, date + [sep] + ClockTemplate) == Format(d, date) + Piece(d, sep) + Format(d, ClockTemplate)
  {
    FormatAppend(d, date + [sep], ClockTemplate);
    FormatSnoc(d, date, sep);
  }

  /** `strftime` with `%Y-%m-%d %H:%M:%S`, piece by piece. */
  lemma {:induction false} SecondsText(d: DateTime)
    requires InFieldRanges(d)
    ensures Format(d, SecondsTemplate) == Piece(d, Year) + Piece(d, Lit('-')) + Piece(d, Month) + Piece(d, Lit('-')) + Piece(d, Day) + Piece(d, Blank) + Format(d, ClockTemplate)
  {
    DateClockText(d, DateTemplate, Blank);
    FormatFive(d, Year, Lit('-'), Month, Lit('-'), Day);
  }

  /** `strftime` with `%d/%b/%Y`, a separator and `%H:%M:%S`, piece by piece. */
  lemma {:induction false} DayMonthText(d: DateTime, sep: Directive)
    requires InFieldRanges(d)
    ensures Format(d, [Day, Lit('/'), MonthAbbr, Lit('/'), Year, sep] + ClockTemplate) == Piece(d, Day) + Piece(d, Lit('/')) + Piece(d, MonthAbbr) + Piece(d, Lit('/')) + Piece(d, Year) + Piece(d, sep) + Format(d, ClockTemplate)
  {
    assert [Day, Lit('/'), MonthAbbr, Lit('/'), Year, sep] == [Day, Lit('/'), MonthAbbr, Lit('/'), Year] + [sep];
    DateClockText(d, [Day, Lit('/'), MonthAbbr, Lit('/'), Year], sep);
    FormatFive(d, Day, Lit('/'), MonthAbbr, Lit('/'), Year);
  }

  lemma {:induction false} MonthNameTemplateSplit()
    ensures MonthNameFormat.template == ([MonthAbbr, Blank, Day, Lit(','), Blank] + [Year]) + [Blank] + ClockTemplate
  {
  }

  /** `strftime` with `%b %d, %Y %H:%M:%S`, piece by piece. */
  lemma {:induction false} MonthNameText(d: DateTime)
    requires InFieldRanges(d)
    ensures Format(d, MonthNameFormat.template) == Piece(d, MonthAbbr) + Piece(d, Blank) + Piece(d, Day) + Piece(d, Lit(',')) + Piece(d, Blank) + Piece(d, Year) + Piece(d, Blank) + Format(d, ClockTemplate)
  {
    var five := [MonthAbbr, Blank, Day, Lit(','), Blank];
    MonthNameTemplateSplit();
    DateClockText(d, five + [Year], Blank);
    FormatSnoc(d, five, Year);
    FormatFive(d, MonthAbbr, Blank, Day, Lit(','), Blank);
  }

  lemma {:induction false} Join19(y: string, mo: string, da: string, h: string, mi: string, se: string)
    requires |y| == 4 && |mo| == |da| == |h| == |mi| == |se| == 2
    ensures y + "-" + mo + "-" + da + " " + (h + ":" + mi + ":" + se)
         == [y[0], y[1], y[2], y[3], '-', mo[0], mo[1], '-', da[0], da[1], ' ', h[0], h[1], ':', mi[0], mi[1], ':', se[0], se[1]]
  {
  }

  lemma {:induction false} DashSpaceExampleFields()
    ensures var d := DateTime(2018, 1, 1, 15, 43, 52);
      && Piece(d, Year) == "2018" && Piece(d, Month) == "01" && Piece(d, Day) == "01"
      && Piece(d, Hour) == "15" && Piece(d, Minute) == "43" && Piece(d, Second) == "52"
      && Piece(d, Lit('-')) == "-" && Piece(d, Blank) == " " && Piece(d, Lit(':')) == ":"
  {
  }

  lemma {:induction false} DashSpaceExamplePieces()
    ensures Format(DateTime(2018, 1, 1, 15, 43, 52), SecondsTemplate)
         == "2018" + "-" + "01" + "-" + "01" + " " + ("15" + ":" + "43" + ":" + "52")
  {
    var d := DateTime(2018, 1, 1, 15, 43, 52);
    SecondsText(d);
    ClockText(d);
    DashSpaceExampleFields();
  }

  lemma {:induction false} DashSpaceExampleText()
    ensures Format(DateTime(2018, 1, 1, 15, 43, 52), SecondsTemplate) == "2018-01-01 15:43:52"
  {
    DashSpaceExamplePieces();
    Join19("2018", "01", "01", "15", "43", "52");
  }

  lemma {:induction false} DashSpaceExampleEpoch()
    ensures Timegm(DateTime(2018, 1, 1, 15, 43, 52)) == 1514821432
  {
  }

  /** `2018-01-01 15:43:52` in the default zone is epoch 1514821432. */
  lemma {:induction false} DashSpaceExample(catalog: seq<string>, offset: string -> int)
    requires offset(DefaultZone) == 0
    ensures TimestampEpoch(catalog, "2018-01-01 15:43:52", None, offset) == Ok(1514821432)
  {
    var dt := DateTime(2018, 1, 1, 15, 43, 52);
    DashSpaceExampleText();
    var text := Format(dt, SecondsTemplate);
    assert text + "" == text;
    assert Formats[1].template == SecondsTemplate;
    PickWithoutFilter(catalog, None);
    OwnFormatEpoch(catalog, 1, dt, "", None, offset);
    DashSpaceExampleEpoch();
  }

  /** The UTC line of epoch 1514821432 shows `2018-01-01 15:43:52`. */
  lemma {:induction false} DashSpaceExampleLine()
    ensures UtcLine(1514821432) == Some("2018-01-01 15:43:52" + UtcSuffix)
  {
    var dt := DateTime(2018, 1, 1, 15, 43, 52);
    DashSpaceExampleText();
    DashSpaceExampleEpoch();
    UtcLineOfTimegm(dt);
  }

  lemma {:induction false} MonthNameExampleFields()
    ensures var d := DateTime(2018, 12, 18, 15, 43, 52);
      && Piece(d, MonthAbbr) == "Dec" && Piece(d, Day) == "18" && Piece(d, Year) == "2018"
      && Piece(d, Hour) == "15" && Piece(d, Minute) == "43" && Piece(d, Second) == "52"
      && Piece(d, Lit(',')) == "," && Piece(d, Blank) == " " && Piece(d, Lit(':')) == ":"
  {
  }

  lemma {:induction false} MonthNameExamplePieces()
    ensures Format(DateTime(2018, 12, 18, 15, 43, 52), MonthNameFormat.template)
         == "Dec" + " " + "18" + "," + " " + "2018" + " " + ("15" + ":" + "43" + ":" + "52")
  {
    var d := DateTime(2018, 12, 18, 15, 43, 52);
    MonthNameText(d);
    ClockText(d);
    MonthNameExampleFields();
  }

  lemma {:induction false} MonthNameExampleText()
    ensures Format(DateTime(2018, 12, 18, 15, 43, 52), MonthNameFormat.template) == "Dec 18, 2018 15:43:52"
  {
    MonthNameExamplePieces();
    JoinMonthName("Dec", "18", "2018", "15", "43", "52");
    assert "Dec 18, 2018 15:43:52" == ['D', 'e', 'c', ' ', '1', '8', ',', ' ', '2', '0', '1', '8', ' ', '1', '5', ':', '4', '3', ':', '5', '2'];
  }

  lemma {:induction false} JoinMonthName(mon: string, da: string, y: string, h: string, mi: string, se: string)
    requires |mon| == 3 && |y| == 4 && |da| == |h| == |mi| == |se| == 2
    ensures mon + " " + da + "," + " " + y + " " + (h + ":" + mi + ":" + se)
         == [mon[0], mon[1], mon[2], ' ', da[0], da[1], ',', ' ', y[0], y[1], y[2], y[3], ' ', h[0], h[1], ':', mi[0], mi[1], ':', se[0], se[1]]
  {
  }

  lemma {:induction false} MonthNameExampleEpoch()
    ensures Timegm(DateTime(2018, 12, 18, 15, 43, 52)) == 1545147832
  {
  }

  /** `Dec 18, 2018 15:43:52.504364000` in the default zone is epoch 1545147832: the fraction is not captured. */
  lemma {:induction false} MonthNameExample(catalog: seq<string>, offset: string -> int)
    requires offset(DefaultZone) == 0
    ensures TimestampEpoch(catalog, "Dec 18, 2018 15:43:52.504364000", None, offset) == Ok(1545147832)
  {
    var dt := DateTime(2018, 12, 18, 15, 43, 52);
    MonthNameExampleText();
    assert "Dec 18, 2018 15:43:52" + ".504364000" == "Dec 18, 2018 15:43:52.504364000";
    assert Formats[0] == MonthNameFormat;
    PickWithoutFilter(catalog, None);
    OwnFormatEpoch(catalog, 0, dt, ".504364000", None, offset);
    MonthNameExampleEpoch();
  }

  lemma {:induction false} JoinDayMonth(da: string, mon: string, y: string, sep: string, h: string, mi: string, se: string)
    requires |mon| == 3 && |y| == 4 && |sep| == 1 && |da| == |h| == |mi| == |se| == 2
    ensures da + "/" + mon + "/" + y + sep + (h + ":" + mi + ":" + se)
         == [da[0], da[1], '/', mon[0], mon[1], mon[2], '/', y[0], y[1], y[2], y[3], sep[0], h[0], h[1], ':', mi[0], mi[1], ':', se[0], se[1]]
  {
  }

  lemma {:induction false} AccessLogExampleFields()
    ensures var d := DateTime(2016, 5, 2, 14, 59, 39);
      && Piece(d, Day) == "02" && Piece(d, MonthAbbr) == "May" && Piece(d, Year) == "2016"
      && Piece(d, Hour) == "14" && Piece(d, Minute) == "59" && Piece(d, Second) == "39"
      && Piece(d, Lit('/')) == "/" && Piece(d, Lit(':')) == ":"
  {
  }

  lemma {:induction false} AccessLogExamplePieces(sep: Directive, c: char)
    requires Piece(DateTime(2016, 5, 2, 14, 59, 39), sep) == [c]
    ensures Format(DateTime(2016, 5, 2, 14, 59, 39), [Day, Lit('/'), MonthAbbr, Lit('/'), Year, sep] + ClockTemplate)
         == "02" + "/" + "May" + "/" + "2016" + [c] + ("14" + ":" + "59" + ":" + "39")
  {
    var d := DateTime(2016, 5, 2, 14, 59, 39);
    DayMonthText(d, sep);
    ClockText(d);
    AccessLogExampleFields();
  }

  lemma {:induction false} AccessLogExampleText(sep: Directive, c: char)
    requires Piece(DateTime(2016, 5, 2, 14, 59, 39), sep) == [c]
    ensures Format(DateTime(2016, 5, 2, 14, 59, 39), [Day, Lit('/'), MonthAbbr, Lit('/'), Year, sep] + ClockTemplate)
         == ['0', '2', '/', 'M', 'a', 'y', '/', '2', '0', '1', '6', c, '1', '4', ':', '5', '9', ':', '3', '9']
  {
    AccessLogExamplePieces(sep, c);
    JoinDayMonth("02", "May", "2016", [c], "14", "59", "39");
  }

  /** The docstring's own example `02/May/2016:14:59:39` matches no format and falls back to epoch zero. */
  lemma {:induction false} AccessLogDocstringExample(catalog: seq<string>, offset: string -> int)
    requires offset(DefaultZone) == 0
    ensures forall j :: 0 <= j < |Formats| ==> !Matches(Formats, j, "02/May/2016:14:59:39")
    ensures TimestampEpoch(catalog, "02/May/2016:14:59:39", None, offset) == Ok(0)
  {
    var dt := DateTime(2016, 5, 2, 14, 59, 39);
    assert Piece(dt, Lit(':')) == [':'];
    AccessLogExampleText(Lit(':'), ':');
    assert "02/May/2016:14:59:39" == ['0', '2', '/', 'M', 'a', 'y', '/', '2', '0', '1', '6', ':', '1', '4', ':', '5', '9', ':', '3', '9'];
    assert "02/May/2016:14:59:39" + "" == "02/May/2016:14:59:39";
    PickWithoutFilter(catalog, None);
    AccessLogDocstringFallsBack(catalog, dt, "", None, offset);
  }

  /** `02/May/2016 14:59:39` is detected by the seventh format and then rejected. */
  lemma {:induction false} AccessLogBlankExample(catalog: seq<string>, tzone: Option<string>, offset: string -> int)
    ensures TimestampEpoch(catalog, "02/May/2016 14:59:39", tzone, offset) == Err(BadTimestamp(DataMismatch))
  {
    var dt := DateTime(2016, 5, 2, 14, 59, 39);
    assert Piece(dt, Blank) == [' '];
    AccessLogExampleText(Blank, ' ');
    assert "02/May/2016 14:59:39" == ['0', '2', '/', 'M', 'a', 'y', '/', '2', '0', '1', '6', ' ', '1', '4', ':', '5', '9', ':', '3', '9'];
    assert "02/May/2016 14:59:39" + "" == "02/May/2016 14:59:39";
    AccessLogTimestampRejected(catalog, dt, "", tzone, offset);
  }

  lemma {:induction false} SecondsHeadExampleText()
    ensures Format(DateTime(2018, 1, 1, 15, 43, 52), SecondsHead) == "2018-01-01 15:43:"
  {
    var d := DateTime(2018, 1, 1, 15, 43, 52);
    var head := Format(d, SecondsHead);
    DashSpaceExampleText();
    DashSpaceExampleFields();
    SecondsHeadSplit();
    FormatSnoc(d, SecondsHead, Second);
    assert head + "52" == "2018-01-01 15:43:52";
    assert head == (head + "52")[..|head|];
  }

  /** `2018-01-01 15:43:62` is rejected: `%S` reads the `6` and leaves the `2`. */
  lemma {:induction false} SecondsPastRangeExample(catalog: seq<string>, tzone: Option<string>, offset: string -> int)
    ensures TimestampEpoch(catalog, "2018-01-01 15:43:62", tzone, offset) == Err(BadTimestamp(UnconvertedData))
  {
    SecondsHeadExampleText();
    assert AllIn(Digit, "62") && DecimalValue("62") == 62;
    SecondsPastRangeTimestamp(catalog, DateTime(2018, 1, 1, 15, 43, 52), "62", [], tzone, offset);
    assert "2018-01-01 15:43:" + "62" + [] == "2018-01-01 15:43:62";
  }

  lemma {:induction false} February31ExampleText()
    ensures Format(DateTime(2018, 2, 31, 0, 0, 0), SecondsTemplate) == "2018-02-31 00:00:00"
  {
    var d := DateTime(2018, 2, 31, 0, 0, 0);
    SecondsText(d);
    ClockText(d);
    assert && Piece(d, Year) == "2018" && Piece(d, Month) == "02" && Piece(d, Day) == "31"
      && Piece(d, Hour) == "00" && Piece(d, Minute) == "00" && Piece(d, Second) == "00"
      && Piece(d, Lit('-')) == "-" && Piece(d, Blank) == " " && Piece(d, Lit(':')) == ":";
    Join19("2018", "02", "31", "00", "00", "00");
  }

  /** `2018-02-31 00:00:00` is detected by the second format and rejected: February has no 31st. */
  lemma {:induction false} February31Example(catalog: seq<string>, tzone: Option<string>, offset: string -> int)
    ensures TimestampEpoch(catalog, "2018-02-31 00:00:00", tzone, offset) == Err(BadTimestamp(OutOfRange))
  {
    var dt := DateTime(2018, 2, 31, 0, 0, 0);
    February31ExampleText();
    assert DaysInMonth(2018, 2) == 28;
    assert "2018-02-31 00:00:00" + "" == "2018-02-31 00:00:00";
    assert Formats[1].template == SecondsTemplate;
    OutOfRangeTimestamp(catalog, 1, dt, "", tzone, offset);
  }
}
