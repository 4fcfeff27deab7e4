/** The time endpoint of the toolkit, `/tools/time/convert`: a UNIX
    timestamp becomes an ISO 8601 date string, and an ISO date string
    becomes a UNIX timestamp. The host's local time zone is taken to be UTC,
    so a timestamp counts the seconds since 1970-01-01T00:00:00. */
module TimeTools {
  import opened Common
  import opened Calendar

  /** The ordinal of 1970-01-01. */
  const EpochOrdinal: int := 719163
  /** The timestamps of 0001-01-01T00:00:00 and 9999-12-31T23:59:59, the ends
      of the range of `datetime`. */
  const FirstInstant: int := -62135596800
  const MaxTimestamp: int := 253402300799
  /** A naive conversion between a timestamp and a datetime also looks up the
      local time this many seconds earlier, to detect a fold in local time;
      the look-up fails when it lands before year 1. */
  const FoldProbe: int := 86400
  /** So the smallest timestamp either conversion accepts is that of
      0001-01-02T00:00:00. */
  const MinTimestamp: int := -62135510400

  const InvalidInput: string := "Invalid input. Use a UNIX timestamp or an ISO date string."
  const ProvideEither: string := "Provide either 'timestamp' or 'date_string'."

  /** A naive `datetime` with whole seconds. */
  datatype DateTime = DateTime(date: Date, hour: int, minute: int, second: int)

  predicate Valid(dt: DateTime) {
    && ValidDate(dt.date)
    && 0 <= dt.hour < 24 && 0 <= dt.minute < 60 && 0 <= dt.second < 60
  }

  /** Seconds since the start of the day. */
  function SecondOfDay(dt: DateTime): int {
    dt.hour * 3600 + dt.minute * 60 + dt.second
  }

  /** The seconds from the epoch to `dt` at UTC; every valid datetime lies
      in the range of `datetime`. */
  function UnixTime(dt: DateTime): (r: int)
    requires Valid(dt)
    ensures FirstInstant <= r <= MaxTimestamp
  {
    OrdinalRange(dt.date);
    (ToOrdinal(dt.date) - EpochOrdinal) * 86400 + SecondOfDay(dt)
  }

  /** Naive `datetime.timestamp()` at UTC: the seconds from the epoch to
      `dt`, or a failure when the fold probe before it leaves year 1. It
      fails exactly on the first day, 0001-01-01. */
  function Timestamp(dt: DateTime): (r: Option<int>)
    requires Valid(dt)
    ensures r.Some? <==> ToOrdinal(dt.date) >= 2
    ensures r.Some? ==> r.value == UnixTime(dt) && MinTimestamp <= r.value <= MaxTimestamp
  {
    var u := UnixTime(dt);
    UnixTimeRange(dt);
    if u - FoldProbe < FirstInstant then None else Some(u)
  }

  /** Naive `datetime.fromtimestamp(t)` at UTC: the day is `t` divided by
      86400, rounded down, and the time of day the remainder. It fails when
      that day, or the day the fold probe looks at, is outside years 1 to
      9999; what it yields has the timestamp `t`. */
  function FromTimestamp(t: int): (r: Option<DateTime>)
    ensures r.Some? <==> MinTimestamp <= t <= MaxTimestamp
    ensures r.Some? ==> Valid(r.value) && Timestamp(r.value) == Some(t)
  {
    if t < FirstInstant || t > MaxTimestamp then None
    else if t - FoldProbe < FirstInstant then None
    else
      var days, secs := t / 86400, t % 86400;
      DaySplit(t);
      ToOrdinalFromOrdinal(EpochOrdinal + days);
      Some(DateTime(FromOrdinal(EpochOrdinal + days), secs / 3600, secs / 60 % 60, secs % 60))
  }

  /** A convertible timestamp is a day after the first one and a time of
      day. */
  lemma DaySplit(t: int)
    requires MinTimestamp <= t <= MaxTimestamp
    ensures 2 <= EpochOrdinal + t / 86400 <= MaxOrdinal
    ensures var secs := t % 86400;
      t == t / 86400 * 86400 + secs / 3600 * 3600 + secs / 60 % 60 * 60 + secs % 60
  {
    var secs := t % 86400;
    assert secs / 60 == secs / 3600 * 60 + secs / 60 % 60;
  }

  // ---------------------------------------------------------------------
  // ISO 8601 text

  function Digit(n: int): (c: char)
    requires 0 <= n < 10
    ensures IsDigit(c)
  {
    (48 + n) as char
  }

  function DigitValue(c: char): (n: int)
    requires IsDigit(c)
    ensures 0 <= n < 10 && Digit(n) == c
  {
    c as int - 48
  }

  /** The number written by the two digits at `i`. */
  function Number2(s: string, i: int): (n: int)
    requires 0 <= i && i + 2 <= |s| && IsDigit(s[i]) && IsDigit(s[i + 1])
    ensures 0 <= n < 100
  {
    10 * DigitValue(s[i]) + DigitValue(s[i + 1])
  }

  /** The number written by the four digits at `i`. */
  function Number4(s: string, i: int): (n: int)
    requires 0 <= i && i + 4 <= |s|
    requires IsDigit(s[i]) && IsDigit(s[i + 1]) && IsDigit(s[i + 2]) && IsDigit(s[i + 3])
    ensures 0 <= n < 10000
  {
    1000 * DigitValue(s[i]) + 100 * DigitValue(s[i + 1])
      + 10 * DigitValue(s[i + 2]) + DigitValue(s[i + 3])
  }

  /** `datetime.isoformat()` of a whole-second naive datetime:
      `YYYY-MM-DDTHH:MM:SS`, each field zero-padded. */
  function Format(dt: DateTime): (s: string)
    requires Valid(dt)
    ensures |s| == 19 && s[4] == '-' && s[7] == '-' && s[10] == 'T' && s[13] == ':' && s[16] == ':'
  {
    var y, mo, d := dt.date.year, dt.date.month, dt.date.day;
    [ Digit(y / 1000), Digit(y / 100 % 10), Digit(y / 10 % 10), Digit(y % 10), '-',
      Digit(mo / 10), Digit(mo % 10), '-',
      Digit(d / 10), Digit(d % 10), 'T',
      Digit(dt.hour / 10), Digit(dt.hour % 10), ':',
      Digit(dt.minute / 10), Digit(dt.minute % 10), ':',
      Digit(dt.second / 10), Digit(dt.second % 10) ]
  }

  /** The shape `Parse` reads: `YYYY-MM-DD`, optionally followed by any one
      separator character and `HH:MM:SS`. */
  predicate IsoShape(s: string) {
    && (|s| == 10 || (|s| == 19 && s[13] == ':' && s[16] == ':'))
    && s[4] == '-' && s[7] == '-'
    && IsDigit(s[0]) && IsDigit(s[1]) && IsDigit(s[2]) && IsDigit(s[3])
    && IsDigit(s[5]) && IsDigit(s[6]) && IsDigit(s[8]) && IsDigit(s[9])
    && (|s| == 19 ==>
          && IsDigit(s[11]) && IsDigit(s[12]) && IsDigit(s[14]) && IsDigit(s[15])
          && IsDigit(s[17]) && IsDigit(s[18]))
  }

  /** `datetime.fromisoformat` on the date and date-time forms without
      fractions or offsets: the fields must form a valid date and time, and
      a missing time is midnight. */
  function Parse(s: string): (r: Option<DateTime>)
    ensures r.Some? ==> IsoShape(s) && Valid(r.value)
  {
    if !IsoShape(s) then None
    else
      var date := Date(Number4(s, 0), Number2(s, 5), Number2(s, 8));
      var dt :=
        if |s| == 19 then DateTime(date, Number2(s, 11), Number2(s, 14), Number2(s, 17))
        else DateTime(date, 0, 0, 0);
      if Valid(dt) then Some(dt) else None
  }

  // ---------------------------------------------------------------------
  // The endpoint

  /** The request body: either field may be missing. */
  datatype Request = Request(timestamp: Option<int>, dateString: Option<string>)

  datatype Response =
    | DateStringResult(dateString: string)
    | TimestampResult(timestamp: int)
    | BadRequest(detail: string)

  /** What the `try` block does: return a response, fail in a conversion,
      or raise the 400 error about missing fields. */
  datatype Outcome = Returns(response: Response) | ConversionFails | RaisesHttp(detail: string)

  /** The `try` block of `convert_time`: `timestamp` first, then
      `date_string`, then the error for a request with neither. */
  function ConvertBody(req: Request): (r: Outcome)
    ensures r.RaisesHttp? <==> req.timestamp.None? && req.dateString.None?
    ensures r.RaisesHttp? ==> r.detail == ProvideEither
    ensures r.Returns? ==> !r.response.BadRequest?
  {
    match req.timestamp
    case Some(t) =>
      (match FromTimestamp(t)
       case None => ConversionFails
       case Some(dt) => Returns(DateStringResult(Format(dt))))
    case None =>
      match req.dateString
      case Some(s) =>
        (match Parse(s)
         case None => ConversionFails
         case Some(dt) =>
           match Timestamp(dt)
           case None => ConversionFails
           case Some(u) => Returns(TimestampResult(u)))
      case None => RaisesHttp(ProvideEither)
  }

  /** `convert_time` as written: its `except Exception` catches every
      failure of the `try` block, the 400 error raised inside it included,
      and answers with one message. */
  function Convert(req: Request): (r: Response)
    ensures r.BadRequest? <==> !ConvertBody(req).Returns?
    ensures r.BadRequest? ==> r.detail == InvalidInput
  {
    match ConvertBody(req)
    case Returns(r) => r
    case ConversionFails => BadRequest(InvalidInput)
    case RaisesHttp(_) => BadRequest(InvalidInput)
  }

  /** `convert_time` as evidently intended: the 400 error about missing
      fields reaches the client with its own message. */
  function ConvertIntended(req: Request): (r: Response)
    ensures r.BadRequest? <==> Convert(req).BadRequest?
  {
    match ConvertBody(req)
    case Returns(r) => r
    case ConversionFails => BadRequest(InvalidInput)
    case RaisesHttp(detail) => BadRequest(detail)
  }

  // ---------------------------------------------------------------------
  // Properties

  lemma EpochOrdinalIsEpoch()
    ensures ValidDate(Date(1970, 1, 1)) && ToOrdinal(Date(1970, 1, 1)) == EpochOrdinal
  {
  }

  /** The ends of the range are reached exactly at the first second of the
      first ordinal day (0001-01-01, by `FirstDay`), the first second of the
      second one (0001-01-02, by `SecondDay`), and the last second of the
      last one (9999-12-31, by `LastDay`). */
  lemma TimestampBounds(dt: DateTime)
    requires Valid(dt)
    ensures UnixTime(dt) == FirstInstant <==> ToOrdinal(dt.date) == 1 && SecondOfDay(dt) == 0
    ensures UnixTime(dt) == MinTimestamp <==> ToOrdinal(dt.date) == 2 && SecondOfDay(dt) == 0
    ensures UnixTime(dt) == MaxTimestamp <==>
      ToOrdinal(dt.date) == MaxOrdinal && SecondOfDay(dt) == 86399
  {
    OrdinalRange(dt.date);
  }

  lemma FirstDay()
    ensures ValidDate(Date(1, 1, 1)) && ToOrdinal(Date(1, 1, 1)) == 1
  {
    assert DaysBeforeYear(1) == 0;
  }

  lemma SecondDay()
    ensures ValidDate(Date(1, 1, 2)) && ToOrdinal(Date(1, 1, 2)) == 2
  {
    assert DaysBeforeYear(1) == 0;
  }

  lemma LastDay()
    ensures ValidDate(Date(9999, 12, 31)) && ToOrdinal(Date(9999, 12, 31)) == MaxOrdinal
  {
    assert DaysBeforeYear(9999) == 3651694;
    assert !IsLeap(9999);
  }

  /** The datetimes from `MinTimestamp` on are exactly those after the
      first day. */
  lemma UnixTimeRange(dt: DateTime)
    requires Valid(dt)
    ensures UnixTime(dt) >= MinTimestamp <==> ToOrdinal(dt.date) >= 2
  {
    var o := ToOrdinal(dt.date);
    OrdinalRange(dt.date);
    if o >= 2 {
      assert (o - EpochOrdinal) * 86400 >= (2 - EpochOrdinal) * 86400;
    } else {
      assert UnixTime(dt) == (1 - EpochOrdinal) * 86400 + SecondOfDay(dt);
    }
  }

  /** `fromtimestamp` undoes `timestamp`, and fails on the timestamps of the
      first day. */
  lemma FromTimestampOfUnixTime(dt: DateTime)
    requires Valid(dt)
    ensures FromTimestamp(UnixTime(dt)) == if ToOrdinal(dt.date) >= 2 then Some(dt) else None
  {
    UnixTimeRange(dt);
    if ToOrdinal(dt.date) >= 2 {
      ReadBack(dt, UnixTime(dt));
    }
  }

  lemma ReadBack(dt: DateTime, t: int)
    requires Valid(dt) && t == UnixTime(dt) && MinTimestamp <= t
    ensures FromTimestamp(t) == Some(dt)
  {
    var o := ToOrdinal(dt.date);
    TimeOfDay(o - EpochOrdinal, dt.hour, dt.minute, dt.second);
    FromOrdinalToOrdinal(dt.date);
    var secs := t % 86400;
    assert EpochOrdinal + t / 86400 == o;
    assert DateTime(FromOrdinal(o), secs / 3600, secs / 60 % 60, secs % 60) == dt;
  }

  /** The day and the time of day are read back from a timestamp. */
  lemma TimeOfDay(days: int, hour: int, minute: int, second: int)
    requires 0 <= hour < 24 && 0 <= minute < 60 && 0 <= second < 60
    ensures var t := days * 86400 + hour * 3600 + minute * 60 + second;
      var secs := t % 86400;
      && t / 86400 == days && secs == hour * 3600 + minute * 60 + second
      && secs / 3600 == hour && secs / 60 % 60 == minute && secs % 60 == second
  {
    var secs := hour * 3600 + minute * 60 + second;
    assert secs / 60 == hour * 60 + minute;
  }

  /** Two datetimes with the same timestamp are the same. With the lemma
      above and the contract of `FromTimestamp`, `fromtimestamp` and
      `timestamp` are inverse bijections between the timestamps from
      `MinTimestamp` to `MaxTimestamp` and the valid datetimes after
      0001-01-01. */
  lemma TimestampInjective(dt1: DateTime, dt2: DateTime)
    requires Valid(dt1) && Valid(dt2)
    requires Timestamp(dt1).Some? && Timestamp(dt1) == Timestamp(dt2)
    ensures dt1 == dt2
  {
    FromTimestampOfUnixTime(dt1);
    FromTimestampOfUnixTime(dt2);
  }

  lemma Number2Digits(n: int)
    requires 0 <= n < 100
    ensures DigitValue(Digit(n / 10)) * 10 + DigitValue(Digit(n % 10)) == n
  {
  }

  lemma Number4Digits(n: int)
    requires 0 <= n < 10000
    ensures 1000 * (n / 1000) + 100 * (n / 100 % 10) + 10 * (n / 10 % 10) + n % 10 == n
  {
    assert n / 100 == 10 * (n / 1000) + n / 100 % 10;
    assert n / 10 == 10 * (n / 100) + n / 10 % 10;
  }

  /** Reading back a formatted datetime gives it back. */
  lemma ParseFormat(dt: DateTime)
    requires Valid(dt)
    ensures Parse(Format(dt)) == Some(dt)
  {
    var s := Format(dt);
    Number4Digits(dt.date.year);
    assert Number4(s, 0) == dt.date.year;
    assert Number2(s, 5) == dt.date.month;
    assert Number2(s, 8) == dt.date.day;
    assert Number2(s, 11) == dt.hour;
    assert Number2(s, 14) == dt.minute;
    assert Number2(s, 17) == dt.second;
  }

  lemma DigitsOfNumber2(s: string, i: int)
    requires 0 <= i && i + 2 <= |s| && IsDigit(s[i]) && IsDigit(s[i + 1])
    ensures Digit(Number2(s, i) / 10) == s[i] && Digit(Number2(s, i) % 10) == s[i + 1]
  {
  }

  lemma DigitsOfNumber4(s: string, i: int)
    requires 0 <= i && i + 4 <= |s|
    requires IsDigit(s[i]) && IsDigit(s[i + 1]) && IsDigit(s[i + 2]) && IsDigit(s[i + 3])
    ensures var n := Number4(s, i);
      && Digit(n / 1000) == s[i] && Digit(n / 100 % 10) == s[i + 1]
      && Digit(n / 10 % 10) == s[i + 2] && Digit(n % 10) == s[i + 3]
  {
    var a, b, c, d := DigitValue(s[i]), DigitValue(s[i + 1]), DigitValue(s[i + 2]), DigitValue(s[i + 3]);
    var n := Number4(s, i);
    assert n == 1000 * a + 100 * b + 10 * c + d;
    assert n / 1000 == a;
    assert n / 100 == 10 * a + b;
    assert n / 10 == 100 * a + 10 * b + c;
  }

  /** A date-time string in the form `isoformat` writes is written back
      unchanged; a date alone comes back with midnight appended. */
  lemma FormatParse(s: string)
    requires Parse(s).Some?
    ensures |s| == 19 && s[10] == 'T' ==> Format(Parse(s).value) == s
    ensures |s| == 10 ==> Format(Parse(s).value) == s + "T00:00:00"
  {
    var f := Format(Parse(s).value);
    DigitsOfNumber4(s, 0);
    DigitsOfNumber2(s, 5);
    DigitsOfNumber2(s, 8);
    if |s| == 19 {
      DigitsOfNumber2(s, 11);
      DigitsOfNumber2(s, 14);
      DigitsOfNumber2(s, 17);
      if s[10] == 'T' {
        assert forall i :: 0 <= i < 19 ==> f[i] == s[i];
      }
    } else {
      assert forall i :: 0 <= i < 19 ==> f[i] == (s + "T00:00:00")[i];
    }
  }

  /** A timestamp wins over a date string: with a timestamp, the answer is
      its date string when it is in range and the single error otherwise. */
  lemma TimestampFirst(req: Request)
    requires req.timestamp.Some?
    ensures var t := req.timestamp.value;
      && (Convert(req).DateStringResult? <==> MinTimestamp <= t <= MaxTimestamp)
      && (Convert(req).DateStringResult? ==> Convert(req) == DateStringResult(Format(FromTimestamp(t).value)))
      && (!Convert(req).DateStringResult? ==> Convert(req) == BadRequest(InvalidInput))
  {
  }

  /** With a date string only, the answer is its timestamp when it parses to
      a datetime after the first day, and the single error otherwise. */
  lemma DateStringSecond(s: string)
    ensures Convert(Request(None, Some(s))).TimestampResult? <==>
      Parse(s).Some? && ToOrdinal(Parse(s).value.date) >= 2
    ensures Convert(Request(None, Some(s))).TimestampResult? ==>
      Convert(Request(None, Some(s))) == TimestampResult(UnixTime(Parse(s).value))
    ensures !Convert(Request(None, Some(s))).TimestampResult? ==>
      Convert(Request(None, Some(s))) == BadRequest(InvalidInput)
  {
  }

  /** A request with neither field: the code as written answers with the
      generic message, where the message raised for this case was evidently
      meant to reach the client. The two agree on every other request. */
  lemma MissingFieldsMessage(req: Request)
    ensures Convert(Request(None, None)) == BadRequest(InvalidInput)
    ensures ConvertIntended(Request(None, None)) == BadRequest(ProvideEither)
    ensures req.timestamp.Some? || req.dateString.Some? ==> ConvertIntended(req) == Convert(req)
  {
  }

  /** As intended, the message about missing fields is answered exactly
      for a request with neither field, and every other failure carries the
      generic message. */
  lemma IntendedMessages(req: Request)
    ensures ConvertIntended(req) == BadRequest(ProvideEither) <==>
      req.timestamp.None? && req.dateString.None?
    ensures ConvertIntended(req).BadRequest? && (req.timestamp.Some? || req.dateString.Some?) ==>
      ConvertIntended(req).detail == InvalidInput
  {
    assert |InvalidInput| != |ProvideEither|;
  }

  /** Round trip through the endpoint: the date string answered for a
      timestamp converts back to that timestamp. */
  lemma ConvertRoundTrip(t: int)
    requires MinTimestamp <= t <= MaxTimestamp
    ensures Convert(Request(Some(t), None)).DateStringResult?
    ensures Convert(Request(None, Some(Convert(Request(Some(t), None)).dateString)))
      == TimestampResult(t)
  {
    var dt := FromTimestamp(t).value;
    ParseFormat(dt);
  }

  /** The other way: a date-time string in the written form converts to a
      timestamp that converts back to the same string. */
  lemma ConvertRoundTripString(s: string)
    requires |s| == 19 && s[10] == 'T'
    requires Convert(Request(None, Some(s))).TimestampResult?
    ensures Convert(Request(Some(Convert(Request(None, Some(s))).timestamp), None))
      == DateStringResult(s)
  {
    var dt := Parse(s).value;
    FromTimestampOfUnixTime(dt);
    FormatParse(s);
  }

  /** The date string answered for the timestamp of a datetime is that
      datetime's text, except on the first day, which fails. */
  lemma ConvertTimestampOf(dt: DateTime)
    requires Valid(dt)
    ensures Convert(Request(Some(UnixTime(dt)), None)) ==
      if ToOrdinal(dt.date) >= 2 then DateStringResult(Format(dt)) else BadRequest(InvalidInput)
  {
    FromTimestampOfUnixTime(dt);
  }

  /** The timestamp answered for the text of a datetime is that datetime's
      timestamp, except on the first day, which fails. */
  lemma ConvertFormatOf(dt: DateTime)
    requires Valid(dt)
    ensures Convert(Request(None, Some(Format(dt)))) ==
      if ToOrdinal(dt.date) >= 2 then TimestampResult(UnixTime(dt)) else BadRequest(InvalidInput)
  {
    ParseFormat(dt);
  }

  /** The case the toolkit's own tests check: 1609459200 is
      2021-01-01T00:00:00 at UTC, both ways. */
  lemma NewYear2021(t: int, s: string)
    requires t == 1609459200 && s == "2021-01-01T00:00:00"
    ensures Convert(Request(Some(t), None)) == DateStringResult(s)
    ensures Convert(Request(None, Some(s))) == TimestampResult(t)
  {
    NewYear2021Text();
    NewYear2021Time();
    NewYear2021Ordinal();
    ConvertTimestampOf(DateTime(Date(2021, 1, 1), 0, 0, 0));
    ConvertFormatOf(DateTime(Date(2021, 1, 1), 0, 0, 0));
  }

  lemma NewYear2021Time()
    ensures Valid(DateTime(Date(2021, 1, 1), 0, 0, 0))
    ensures UnixTime(DateTime(Date(2021, 1, 1), 0, 0, 0)) == 1609459200
  {
    NewYear2021Ordinal();
    UnixTimeOfOrdinal(DateTime(Date(2021, 1, 1), 0, 0, 0), 737791);
  }

  lemma NewYear2021Ordinal()
    ensures ValidDate(Date(2021, 1, 1)) && ToOrdinal(Date(2021, 1, 1)) == 737791
  {
    assert DaysBeforeYear(2021) == 737790;
  }

  lemma UnixTimeOfOrdinal(dt: DateTime, o: int)
    requires Valid(dt) && ToOrdinal(dt.date) == o && SecondOfDay(dt) == 0
    ensures UnixTime(dt) == (o - EpochOrdinal) * 86400
  {
  }

  lemma NewYear2021Text()
    ensures Format(DateTime(Date(2021, 1, 1), 0, 0, 0)) == "2021-01-01T00:00:00"
  {
  }
}
