# Developer toolkit API: the four tool handlers in Dafny

This project models the handlers of the developer toolkit API that hold
logic of their own. Each one is stated and proved against the standard its
library call implements.

- **Base64 tools** (`/tools/base64/encode`, `/tools/base64/decode`).
  - A text is UTF-8 encoded (RFC 3629) and then Base64 encoded with the
    standard alphabet and `=` padding (section 4 of RFC 4648). The decode
    endpoint reverses both steps.
  - Each endpoint has one fixed 400 message for every failure.
  - Modules `Utf8`, `Base64` and `Base64Tools`. A Python `str` is a sequence
    of code points (surrogates included), and bytes are `seq<Byte>`.
- **Password tool** (`/tools/password/generate`).
  - The query selects character classes. The handler builds a pool from
    them step by step and refuses an empty pool with a 400.
  - It then draws `length` characters from the pool, with `length` in
    4..128; other lengths get the 422 of query validation.
  - Module `PasswordTools`. `BuildPool` and `GeneratePassword` are methods,
    proved against the functions `Pool` and `Generate`. `random.choices` is
    a parameter `draw`: the k-th draw picks position `draw(k) % |pool|`.
- **Time tool** (`/tools/time/convert`).
  - A UNIX timestamp becomes an ISO 8601 date string, and a date string
    becomes a timestamp. `timestamp` wins when both are present.
  - The local time zone is fixed at UTC.
  - Module `Calendar` holds the proleptic Gregorian arithmetic of Python's
    `datetime`: `ymd_to_ord` as `ToOrdinal` and `ord_to_ymd` as
    `FromOrdinal`, with its 400/100/4/1-year cycles and its month estimate.
  - Module `TimeTools` holds `fromtimestamp`, `timestamp`, `isoformat`,
    `fromisoformat` and the handler with its `try`/`except`.
- **UUID tool** (`/tools/uuid/generate`).
  - 16 random bytes, given as a parameter, get the version 4 and variant
    bits (sections 4.1.1, 4.1.3 and 4.4 of RFC 4122).
  - The result is written in the 8-4-4-4-12 lowercase hex form (section 3
    of RFC 4122).
  - Module `UuidTools`.

Module `Common` holds the byte and code point types and `Option`.

What is proved:
- **Base64:**
  - Both round trips of UTF-8 and of Base64.
  - The round trip through the two Base64 endpoints in both directions, the
    second one on canonical input.
  - Length and alphabet of the encoding, and exactly when each endpoint
    of the model fails (Base64 decoding is modelled strictly, see below).
  - The test vectors "f", "fo", "foo" and "hello world".
- **Password:**
  - Pool contents, order, size and distinctness.
  - Exactly which queries get 422, 400 or a password.
  - The length and allowed characters of every password.
  - Every allowed string is reachable by some draws.
- **Time:**
  - That `fromtimestamp` and `timestamp` are inverse bijections between the
    timestamps from 0001-01-02T00:00:00 to 9999-12-31T23:59:59 and the valid
    datetimes after 0001-01-01. Every instant of 0001-01-01 is refused both
    ways, because both conversions also look at the local time one day
    earlier, which lies in year 0.
  - That `ord_to_ymd` and `ymd_to_ord` are inverse.
  - That `fromisoformat` and `isoformat` are inverse on the canonical form.
  - The dispatch order of the handler, and the 2021-01-01 example both ways.
- **UUID:**
  - The shape of the text and the version and variant digits.
  - That parsing inverts formatting.
  - That two inputs give the same UUID exactly when they agree on the 122
    free bits.

## Model

| member | source | states |
|---|---|---|
| Utf8.Encode | app/routes/base64_tools.py:16 | `str.encode("utf-8")` succeeds exactly when the text has no lone surrogate; it yields 1 to 4 bytes per code point |
| Utf8.Decode | app/routes/base64_tools.py:28 | `bytes.decode("utf-8")` yields only Unicode scalar values, never more code points than bytes |
| Utf8.EncodeScalar | app/routes/base64_tools.py:16 | a scalar value is written in its RFC 3629 width, 1 to 4 bytes; `DecodeFirstOfEncoded` reads it back |
| Utf8.DecodeFirst | app/routes/base64_tools.py:28 | the first sequence the decoder accepts yields a scalar value and is exactly that value's RFC 3629 width; `DecodeFirstIsCanonical` shows it is that value's encoding |
| Utf8.DecodeEncode | app/routes/base64_tools.py:27-28 | decoding the UTF-8 encoding of any scalar text gives the text back |
| Utf8.EncodeDecode | app/routes/base64_tools.py:28 | every byte string that decodes is the encoding of what it decodes to (strict UTF-8 is injective) |
| Utf8.DecodeFirstOfEncoded | app/routes/base64_tools.py:28 | decoding the first sequence of an encoding gives the encoded code point and its RFC 3629 width, whatever follows |
| Utf8.DecodeFirstIsCanonical | app/routes/base64_tools.py:28 | every byte sequence the decoder accepts is the RFC 3629 encoding of the code point it yields (no overlong or surrogate forms) |
| Utf8.DecodeAscii | app/routes/base64_tools.py:16 | ASCII bytes decode to the same values, so the `.decode("utf-8")` of Base64 output cannot fail |
| Utf8.EncodeAscii | app/routes/base64_tools.py:27 | ASCII code points encode to the same byte values |
| Base64.Symbol | app/routes/base64_tools.py:16 | the symbol of a 6-bit value is ASCII and never `=` |
| Base64.Value | app/routes/base64_tools.py:27 | the value of an alphabet symbol is the one whose symbol it is |
| Base64.ValueOfSymbol | app/routes/base64_tools.py:27 | symbols and values correspond one to one (RFC 4648 Table 1) |
| Base64.JoinSplitGroup | app/routes/base64_tools.py:27 | joining the four 6-bit values of a 24-bit group gives its three bytes back |
| Base64.SplitJoinGroup | app/routes/base64_tools.py:16 | splitting the three bytes of four 6-bit values gives the values back |
| Base64.Split | app/routes/base64_tools.py:16 | the 6-bit groups of n bytes number 4 per whole group plus 2 or 3 for a final 8 or 16 bits |
| Base64.Join | app/routes/base64_tools.py:27 | 6-bit values, never 1 more than a multiple of 4, give three quarters as many bytes |
| Base64.JoinSplit | app/routes/base64_tools.py:27 | joining the 6-bit groups of any bytes gives the bytes back |
| Base64.SplitJoin | app/routes/base64_tools.py:16 | splitting the bytes of 6-bit values whose final pad bits are zero gives the values back |
| Base64.Encode | app/routes/base64_tools.py:16 | `b64encode` of n bytes is 4 * ceil(n / 3) ASCII symbols |
| Base64.EncodedLength | app/routes/base64_tools.py:16 | symbols and padding together make 4 * ceil(n / 3), with at most two `=` |
| Base64.EncodeShape | app/routes/base64_tools.py:16 | every encoding is well formed, padded with `=` to a multiple of 4, and its data part is the symbols of the 6-bit groups |
| Base64.Decode | app/routes/base64_tools.py:27 | `b64decode` succeeds exactly on well-formed input and yields 3 bytes per 4 symbols less one per `=` |
| Base64.WellFormedAscii | app/routes/base64_tools.py:27 | all input the decoder accepts is ASCII |
| Base64.DataAndPadding | app/routes/base64_tools.py:27 | well-formed input is its alphabet symbols followed by its `=` padding |
| Base64.DecodedPadCount | app/routes/base64_tools.py:27 | the decoded length needs exactly as many `=` as the input had |
| Base64.ValuesSymbols | app/routes/base64_tools.py:27 | reading back symbols gives the 6-bit values |
| Base64.SymbolsValues | app/routes/base64_tools.py:16 | writing out the values of alphabet symbols gives the symbols |
| Base64.SymbolsAppend | app/routes/base64_tools.py:16 | the symbols of two runs of values are the symbols of each, in order |
| Base64.DecodeEncode | app/routes/base64_tools.py:27 | decoding the encoding of any bytes gives the bytes back |
| Base64.EncodeDecode | app/routes/base64_tools.py:16 | well-formed input with zero pad bits is exactly the encoding of what it decodes to |
| Base64.EncodeAppend | app/routes/base64_tools.py:16 | encoding works 3 bytes at a time: a whole group followed by more is encoded group first |
| Base64.EncodeGroup | app/routes/base64_tools.py:16 | a whole 24-bit group is the four symbols of its 6-bit values, unpadded |
| Base64.EncodeFinal2 | app/routes/base64_tools.py:16 | a final 16 bits is three symbols and one `=` |
| Base64.EncodeFinal1 | app/routes/base64_tools.py:16 | a final 8 bits is two symbols and `==` |
| Base64.TestVectors | app/routes/base64_tools.py:16 | "" is "", "f" is "Zg==", "fo" is "Zm8=" and "foo" is "Zm9v" (section 10 of RFC 4648) |
| Base64.HelloWorld | tests/test_base64_tools.py:10-12 | the bytes of "hello world" encode to "aGVsbG8gd29ybGQ=" |
| Base64Tools.AsciiBytes | app/routes/base64_tools.py:27 | the UTF-8 encoding of ASCII text is its code points, one byte each |
| Base64Tools.EncodeBase64 | app/routes/base64_tools.py:13-19 | the encode endpoint answers exactly when the text has no lone surrogate, otherwise "Failed to encode string to Base64."; its answer is ASCII of length 4 * ceil(n / 3) for n UTF-8 bytes |
| Base64Tools.DecodeBase64 | app/routes/base64_tools.py:24-31 | every failure answers "Failed to decode Base64 string."; the endpoint succeeds exactly when the input is ASCII, well-formed Base64, and its decoded bytes are UTF-8; the text answered is the one whose UTF-8 encoding is those bytes |
| Base64Tools.AsciiEncoding | app/routes/base64_tools.py:27 | a text whose UTF-8 encoding is ASCII is those bytes, code point for byte |
| Base64Tools.AsciiOnly | app/routes/base64_tools.py:27 | a text whose UTF-8 bytes decode as Base64 is ASCII |
| Base64Tools.EncodeBase64Text | app/routes/base64_tools.py:16 | the encode endpoint answers the Base64 of the UTF-8 bytes, character for byte |
| Base64Tools.DecodeEncodeBase64 | app/routes/base64_tools.py:16-28 | the decode endpoint gives back every text the encode endpoint accepts |
| Base64Tools.EncodeDecodeBase64 | app/routes/base64_tools.py:24-29 | encoding what a canonical Base64 text decodes to gives that text back |
| Base64Tools.HelloWorld | tests/test_base64_tools.py:10-20 | the endpoints map "hello world" to "aGVsbG8gd29ybGQ=" and back |
| PasswordTools.Run | app/routes/password_tools.py:46-52 | each class constant is its ASCII range, character by character |
| PasswordTools.InRun | app/routes/password_tools.py:46-52 | a character is in a run exactly when it lies in its range |
| PasswordTools.ClassMembers | app/routes/password_tools.py:46-52 | `ascii_lowercase`, `ascii_uppercase`, `digits` and `punctuation` hold exactly the lowercase letters, uppercase letters, digits and ASCII punctuation |
| PasswordTools.Pool | app/routes/password_tools.py:42-52 | the pool as a value, the classes appended in the order of the code; its contents are stated by `PoolMembers`, `PoolEmpty`, `PoolSize` and `PoolDistinct`, and `BuildPool` is proved to build it |
| PasswordTools.BuildPool | app/routes/password_tools.py:42-52 | appending the selected classes in turn builds lowercase, uppercase, digits, punctuation, each present exactly when its flag is set |
| PasswordTools.PoolMembers | app/routes/password_tools.py:42-52 | a character is in the pool exactly when the query allows its class |
| PasswordTools.PoolEmpty | app/routes/password_tools.py:55 | the pool is empty exactly when no class is selected |
| PasswordTools.PoolSize | app/routes/password_tools.py:45-52 | the pool has 26, 26, 10 and 32 characters for the selected classes |
| PasswordTools.DistinctAppend | app/routes/password_tools.py:45-52 | disjoint strings without repeats concatenate to one without repeats |
| PasswordTools.PunctuationDistinct | app/routes/password_tools.py:52 | `string.punctuation` has no repeated character |
| PasswordTools.PoolDistinct | app/routes/password_tools.py:45-52 | the pool never repeats a character |
| PasswordTools.Choices | app/routes/password_tools.py:62 | `random.choices(pool, k=n)` yields n characters, all from the pool |
| PasswordTools.Generate | app/routes/password_tools.py:22-63 | the answer of the handler as a value; `GenerateOutcome` states exactly when it is 422, 400 or a password and what the password holds, `Reachable` that every allowed string is possible, and `GeneratePassword` is proved to compute it |
| PasswordTools.GeneratePassword | app/routes/password_tools.py:22-63 | the handler (validation, pool building, empty check, loop of draws) answers `Generate`: its loop keeps the password equal to the first k choices |
| PasswordTools.GenerateOutcome | app/routes/password_tools.py:22-62 | 422 exactly for a length outside 4..128; otherwise 400 "At least one character set must be selected." exactly when no flag is set; otherwise a password of the requested length whose every character is allowed |
| PasswordTools.NoSymbols | tests/test_password_tools.py:18-22 | without symbols every character is a letter or a digit |
| PasswordTools.DefaultLengths | tests/test_password_tools.py:6-16 | the default query gives a 12-character password, length 20 gives 20 |
| PasswordTools.IndexOf | app/routes/password_tools.py:62 | every pool character has a position in the pool |
| PasswordTools.ChoicesOf | app/routes/password_tools.py:62 | draws that pick the characters of a string one by one yield that string |
| PasswordTools.DrawsOf | app/routes/password_tools.py:62 | for any string over the pool there are draws picking its characters |
| PasswordTools.ChoicesReach | app/routes/password_tools.py:62 | every string over the pool is what some draws choose |
| PasswordTools.Reachable | app/routes/password_tools.py:62 | every string of the requested length over the allowed characters is a possible password |
| Calendar.DaysInMonth | app/routes/time_tools.py:30 | every month has 28 to 31 days |
| Calendar.ToOrdinal | app/routes/time_tools.py:31 | `ymd_to_ord`; its range is stated by `OrdinalRange`, its injectivity by `ToOrdinalInjective`, and `FromOrdinalToOrdinal` shows `FromOrdinal` undoes it |
| Calendar.FromOrdinal | app/routes/time_tools.py:25 | `ord_to_ymd`; `ToOrdinalFromOrdinal` shows it yields a valid date whose ordinal is the input |
| Calendar.YearStep | app/routes/time_tools.py:31 | the days before year y + 1 are those before y plus the length of y |
| Calendar.LeapCount | app/routes/time_tools.py:31 | a year has 366 days exactly when it adds one to the multiples of 4, less those of 100, plus those of 400 |
| Calendar.FloorStep4 | app/routes/time_tools.py:31 | the count of multiples of 4 up to y grows by one exactly at a multiple |
| Calendar.FloorStep100 | app/routes/time_tools.py:31 | likewise for multiples of 100 |
| Calendar.FloorStep400 | app/routes/time_tools.py:31 | likewise for multiples of 400 |
| Calendar.YearsIncrease | app/routes/time_tools.py:31 | later years begin after earlier years end |
| Calendar.YearCycles | app/routes/time_tools.py:25 | the days before a year are counted by its whole 400-, 100-, 4- and 1-year cycles |
| Calendar.LeapOfCycles | app/routes/time_tools.py:25 | a year is leap exactly when it is the last of a 4-year cycle that is not a century, or the last of a 400-year cycle |
| Calendar.MonthOfLeap | app/routes/time_tools.py:25 | month lengths and offsets are the common-year ones plus the leap day |
| Calendar.MonthOfCorrect | app/routes/time_tools.py:25 | the `(n + 50) / 32` estimate with its correction gives a month and the days before it |
| Calendar.MonthStep | app/routes/time_tools.py:31 | a month adds its own length to the days before it |
| Calendar.MonthsIncrease | app/routes/time_tools.py:31 | later months begin after earlier months end |
| Calendar.OrdinalInYear | app/routes/time_tools.py:31 | the ordinal of a date lies within its year |
| Calendar.OrdinalRange | app/routes/time_tools.py:31 | valid dates have ordinals 1 to 3652059 |
| Calendar.ToOrdinalInjective | app/routes/time_tools.py:31 | distinct valid dates have distinct ordinals |
| Calendar.CycleBounds | app/routes/time_tools.py:25 | the cycle counts of a day count add back up to it and stay within their bounds |
| Calendar.LastDayOfCycle | app/routes/time_tools.py:25 | the last day of a 4- or 400-year cycle, which the cycle counts report as a fifth year or fourth century, is December 31 of the year before, with the right ordinal |
| Calendar.DayOfYear | app/routes/time_tools.py:25 | every other day is found within its year and has the right ordinal |
| Calendar.ToOrdinalFromOrdinal | app/routes/time_tools.py:25 | `ord_to_ymd` yields a valid date whose ordinal is the input |
| Calendar.LastDayOfYear | app/routes/time_tools.py:25 | December 31 of a year has the ordinal of the days before the next |
| Calendar.FromOrdinalToOrdinal | app/routes/time_tools.py:25-31 | `ord_to_ymd(ymd_to_ord(d)) == d` for every valid date |
| TimeTools.FromTimestamp | app/routes/time_tools.py:25 | naive `fromtimestamp(t)` at UTC succeeds exactly for t from 0001-01-02T00:00:00 to 9999-12-31T23:59:59, the day before being probed for a fold; it yields a valid datetime whose `timestamp()` succeeds and is t |
| TimeTools.UnixTime | app/routes/time_tools.py:31 | the seconds from the epoch of every valid datetime lie between 0001-01-01T00:00:00 and 9999-12-31T23:59:59 |
| TimeTools.Timestamp | app/routes/time_tools.py:31 | naive `timestamp()` at UTC fails exactly on 0001-01-01, where its fold probe one day earlier leaves year 1, and otherwise gives the seconds from the epoch, from 0001-01-02T00:00:00 to 9999-12-31T23:59:59 |
| TimeTools.DaySplit | app/routes/time_tools.py:25 | a convertible timestamp is a day from 0001-01-02 on and a time of day |
| TimeTools.EpochOrdinalIsEpoch | app/routes/time_tools.py:25 | day 719163 is 1970-01-01 |
| TimeTools.TimestampBounds | app/routes/time_tools.py:25-31 | the range of `datetime` starts exactly at the first second of day 1, the convertible timestamps at the first second of day 2, and both end at the last second of day 3652059 |
| TimeTools.FirstDay | app/routes/time_tools.py:25 | 0001-01-01 is valid and is day 1 |
| TimeTools.SecondDay | app/routes/time_tools.py:25 | 0001-01-02 is valid and is day 2 |
| TimeTools.LastDay | app/routes/time_tools.py:25 | 9999-12-31 is valid and is day 3652059 |
| TimeTools.UnixTimeRange | app/routes/time_tools.py:31 | a datetime's seconds from the epoch reach 0001-01-02T00:00:00 exactly when its day is after the first |
| TimeTools.FromTimestampOfUnixTime | app/routes/time_tools.py:25-31 | `fromtimestamp(dt.timestamp()) == dt` for every valid datetime after 0001-01-01; on that first day `fromtimestamp` fails |
| TimeTools.ReadBack | app/routes/time_tools.py:25 | the seconds from the epoch of a datetime after the first day are read back as that datetime |
| TimeTools.TimeOfDay | app/routes/time_tools.py:25 | hours, minutes and seconds are read back from a timestamp's remainder |
| TimeTools.TimestampInjective | app/routes/time_tools.py:31 | two valid datetimes whose `timestamp()` succeeds with the same value are equal |
| TimeTools.Digit | app/routes/time_tools.py:26 | the character of a decimal digit is a digit |
| TimeTools.DigitValue | app/routes/time_tools.py:30 | the value of a digit character is the digit it writes |
| TimeTools.Format | app/routes/time_tools.py:26 | `isoformat()` of a whole-second datetime is 19 characters with `-`, `-`, `T`, `:`, `:` in place |
| TimeTools.Parse | app/routes/time_tools.py:30 | `fromisoformat` succeeds only on the date or date-time shape and yields a valid datetime |
| TimeTools.Number2Digits | app/routes/time_tools.py:26 | a two-digit field reads back its number |
| TimeTools.Number4Digits | app/routes/time_tools.py:26 | a four-digit field reads back its number |
| TimeTools.DigitsOfNumber2 | app/routes/time_tools.py:30 | writing a two-digit field that was read gives its characters |
| TimeTools.DigitsOfNumber4 | app/routes/time_tools.py:30 | writing a four-digit field that was read gives its characters |
| TimeTools.ParseFormat | app/routes/time_tools.py:26-30 | `fromisoformat(dt.isoformat()) == dt` for every valid datetime |
| TimeTools.FormatParse | app/routes/time_tools.py:26-30 | a date-time text with `T` is written back unchanged; a date alone comes back with `T00:00:00` |
| TimeTools.TimestampFirst | app/routes/time_tools.py:23-26 | with a timestamp, whatever the date string, the answer is its date string when in range and the generic error otherwise |
| TimeTools.DateStringSecond | app/routes/time_tools.py:28-31 | with only a date string, the answer is its timestamp exactly when it parses to a datetime after 0001-01-01, the generic error otherwise |
| TimeTools.ConvertBody | app/routes/time_tools.py:22-34 | the `try` block raises the missing-fields error, with "Provide either 'timestamp' or 'date_string'.", exactly for a request with neither field; what it returns is never an error |
| TimeTools.Convert | app/routes/time_tools.py:22-36 | the handler as written fails exactly when the `try` block does not return, and every failure carries "Invalid input. Use a UNIX timestamp or an ISO date string." |
| TimeTools.ConvertIntended | app/routes/time_tools.py:22-36 | the handler as intended fails on exactly the requests the handler as written fails on |
| TimeTools.MissingFieldsMessage | app/routes/time_tools.py:33-36 | as written, a request with neither field answers the generic message, where the handler as intended answers "Provide either 'timestamp' or 'date_string'."; the two agree on every other request |
| TimeTools.IntendedMessages | app/routes/time_tools.py:33-34 | as intended, the missing-fields message is answered exactly for a request with neither field |
| TimeTools.ConvertRoundTrip | app/routes/time_tools.py:25-31 | a timestamp from 0001-01-02T00:00:00 to 9999-12-31T23:59:59 converts to a date string that converts back to it |
| TimeTools.ConvertRoundTripString | app/routes/time_tools.py:25-31 | a `YYYY-MM-DDTHH:MM:SS` string that converts to a timestamp comes back unchanged |
| TimeTools.ConvertTimestampOf | app/routes/time_tools.py:23-26 | the timestamp of a valid datetime converts to that datetime's text, except on 0001-01-01, which answers the generic error |
| TimeTools.ConvertFormatOf | app/routes/time_tools.py:28-31 | the text of a valid datetime converts to that datetime's timestamp, except on 0001-01-01, which answers the generic error |
| TimeTools.NewYear2021 | tests/test_time_tools.py:10-20 | 1609459200 converts to "2021-01-01T00:00:00" and back |
| TimeTools.NewYear2021Time | tests/test_time_tools.py:18-20 | 2021-01-01T00:00:00 has timestamp 1609459200 |
| TimeTools.NewYear2021Ordinal | tests/test_time_tools.py:18-20 | 2021-01-01 is day 737791 |
| TimeTools.NewYear2021Text | tests/test_time_tools.py:10-12 | 2021-01-01T00:00:00 is written "2021-01-01T00:00:00" |
| UuidTools.Hex | app/routes/uuid_tools.py:28 | a nibble is written as a lowercase hex digit |
| UuidTools.HexValue | app/routes/uuid_tools.py:28 | a lowercase hex digit reads back as the nibble it writes |
| UuidTools.HexOf | app/routes/uuid_tools.py:28 | the hex of n bytes is 2n digits |
| UuidTools.Group | app/routes/uuid_tools.py:28 | 32 digits grouped with hyphens are 36 characters |
| UuidTools.Unhex | app/routes/uuid_tools.py:28 | 2n hex digits read back as n bytes |
| UuidTools.Ungroup | app/routes/uuid_tools.py:28 | dropping the hyphens of UUID text leaves 32 digits |
| UuidTools.SetVersion | app/routes/uuid_tools.py:28 | `uuid4`'s setting of the version and variant; `SetVersionBits` states which bits it sets and keeps, `SetVersionIdempotent` that it leaves a version 4 UUID alone |
| UuidTools.Format | app/routes/uuid_tools.py:28 | `str(uuid)`; `FormatIsUuidText` states its form, and `ParseFormat` and `FormatParse` that `Parse` inverts it |
| UuidTools.Parse | app/routes/uuid_tools.py:28 | `UUID(s)` on canonical text, the bytes its digits write; `ParseFormat` and `FormatParse` state that it inverts `Format` |
| UuidTools.GenerateUuid | app/routes/uuid_tools.py:21-28 | `str(uuid.uuid4())` of the random bytes; `GeneratedShape` states its form and its version and variant digits, `GenerateInjective` when two inputs give the same text |
| UuidTools.HexOfAt | app/routes/uuid_tools.py:28 | byte i is written at digits 2i and 2i + 1, high nibble first |
| UuidTools.HexOfAllHex | app/routes/uuid_tools.py:28 | the hex of any bytes is lowercase hex digits only |
| UuidTools.UnhexHexOf | app/routes/uuid_tools.py:28 | reading back hex digits gives the bytes |
| UuidTools.HexOfUnhex | app/routes/uuid_tools.py:28 | writing out bytes read from hex digits gives the digits |
| UuidTools.HexPair | app/routes/uuid_tools.py:28 | the byte two hex digits write has them as its nibbles |
| UuidTools.UngroupGroup | app/routes/uuid_tools.py:28 | dropping the hyphens of grouped digits gives the digits |
| UuidTools.GroupUngroup | app/routes/uuid_tools.py:28 | regrouping the digits of UUID text gives the text |
| UuidTools.UngroupHex | app/routes/uuid_tools.py:28 | the digits of UUID text are hex digits |
| UuidTools.FormatIsUuidText | app/routes/uuid_tools.py:28 | `str(uuid)` is 36 characters, hyphens at 8, 13, 18 and 23, lowercase hex elsewhere |
| UuidTools.ParseFormat | app/routes/uuid_tools.py:28 | `UUID(str(u)) == u` |
| UuidTools.FormatParse | app/routes/uuid_tools.py:28 | `str(UUID(s)) == s` on canonical text |
| UuidTools.GeneratedShape | tests/test_uuid_tools.py:14 | the generated text has the canonical 36-character form, `4` at index 14 and one of `8`, `9`, `a`, `b` at index 19 |
| UuidTools.SetVersionBits | app/routes/uuid_tools.py:28 | the version nibble becomes 4 and the variant bits 10; the other 122 bits are kept |
| UuidTools.SetVersionIdempotent | app/routes/uuid_tools.py:28 | bytes that already are a version 4 UUID are left as they are |
| UuidTools.GenerateInjective | app/routes/uuid_tools.py:28 | two random inputs give the same UUID text exactly when they agree on the 122 free bits |

## Left out

- `app/main.py` (building the application and the welcome route) and `app/routes/json_tools.py` (a wrapper over `json.loads` and `json.dumps`) are not part of this model.
- HTTP itself is left out: routing, status codes, JSON bodies and query-string parsing. Answers are datatypes carrying the message, and Pydantic's 422 for a length outside 4..128 is the bare `Unprocessable` answer.
- Base64.Decode: strict RFC 4648 decoding. `b64decode` without `validate=True` first discards characters outside the alphabet, so agreement is claimed only on well-formed input. The model rejects some input Python would accept.
- Base64.Decode accepts non-zero pad bits as Python does. The round trip back to the text is stated for zero pad bits (`Canonical`).
- PasswordTools.Choices: `random.choices` picks position `floor(random() * n)` from a Mersenne Twister. Here the k-th pick is `draw(k) % n` for a draw function given by the caller. Nothing about the distribution is modelled, only which passwords are possible.
- PasswordTools: the class constants are written as ASCII ranges (`Run`), not as string literals. Their doc comments spell out the literals, and `ClassMembers` proves their contents.
- UuidTools.GenerateUuid: the 16 bytes `uuid4` takes from the operating system are a parameter.
- TimeTools: the host's local time zone is fixed at UTC. Offsets and daylight saving time are left out. At UTC the fold probe of the naive conversions finds no fold, and only its failure on 0001-01-01 is modelled (`FoldProbe`).
- TimeTools.UnixTime: `timestamp()` returns a float that `int()` truncates. For whole-second datetimes this is exact, so the model uses integers.
- TimeTools.Parse: only `YYYY-MM-DD` and `YYYY-MM-DD?HH:MM:SS` with any one separator character. Fractional seconds, UTC offsets, shortened times, week dates and the compact forms `fromisoformat` also reads are not modelled; the model rejects them.
- TimeTools.FromTimestamp: an integer too large for the platform's `time_t` fails in CPython with `OverflowError` or `OSError` rather than `ValueError`. The model fails for every timestamp outside 0001-01-02T00:00:00 to 9999-12-31T23:59:59 without telling the errors apart, and all of them end in the same message.
- TimeTools.InvalidInput is the message the code writes, "Invalid input. Use a UNIX timestamp or an ISO date string.".

## Findings

| source | as written | input that shows it | evidently intended | confidence | as-written member | corrected member |
|---|---|---|---|---|---|---|
| app/routes/time_tools.py:33-36 | the 400 error for a request with neither field is raised inside the `try`, so the `except Exception` at line 35 catches it and answers the generic message instead | `{}`, i.e. `Request(None, None)` | the answer "Provide either 'timestamp' or 'date_string'." | not executed | TimeTools.MissingFieldsMessage | TimeTools.IntendedMessages |

`TimeTools.Convert` models the handler as written and `TimeTools.ConvertIntended` the corrected one. `TimeTools.MissingFieldsMessage` also proves that the two answer alike on every request that has a field. So the dispatch and round-trip lemmas stated for `Convert` hold for the corrected handler too.
