# A verified model of the Xively C library and of its AVR simulator

This Dafny project models four parts of the Xively C client library and of the AVR simulator that
ships with it, and proves what they promise.

* **Calendar time** (`CInt`, `Calendar`, `XiTime`). `xi_mktime` normalises broken-down time with
  fields of any size and sign and counts seconds with a closed formula; `xi_gmtime` counts years and
  months off a second number. `Calendar` is the independent specification: the Gregorian calendar
  counted one year and one month at a time.
* **CSV codec** (`CText`, `Xively`, `CsvValue`, `CsvPoint`, `CsvData`, `CsvFeed`, `FeedReturns`,
  `StampShape`, `StampOrder`). Datapoints and feeds are printed into bounded buffers and read back by a
  scanner and by an automaton that guesses the type of a value. `StampShape` states the printed bytes
  one by one. `CText` specifies the few C library functions this needs:
  `snprintf`, `strstr`, `sscanf` with bounded `%d`, `atoi`.
* **HTTP framing** (`XiErr`, `HttpReader`, `HttpEncode`, `HttpParser`, `HttpRender`). Requests are
  concatenated piece by piece, and taken apart again by an independent reader; the response parser
  moves a cursor to a blank line found beforehand.
* **AVR simulator** (`AvrFlags`, `AvrArith`, `AvrStack`, `AvrCpu`, `AvrOpcode`, `AvrFormats`,
  `AvrExact`, `AvrDecode`, `AvrProgram`). Flags are looked up in generated tables, instructions are chained for numbers of
  several bytes, the stack lives in data memory, and flash is decoded once before execution.

Code that changes state is modelled by classes and methods with loops (`Tm`, `Clock`, `Datapoint`,
`Feed`, `Response`, `Queries`, `Transport`, `Cpu`, `Simulator`, and the buffers as arrays). Every
method states its new state through a pure function, and the theorems are lemmas about those
functions. A byte string is a `string`; the NUL that ends it in memory is not part of it. Host, user
agent, API key and the sizes of the request buffers are parameters; the sizes of `xi_config.h` that
shape the structures are constants.

## Where the code is not what its text suggests

* `csv_decode_feed` rejects every body the encoder writes, because the final newline makes it look for
  one more line (`CsvFeed.FinalNewlineFails`, `CsvFeed.EncodedFeedIsRejected`). Without that newline
  `FeedReturns.FeedReturns` says exactly which feeds come back.
* The size check on a datastream id in `csv_decode_feed` never fires: longer ids are silently cut to 15
  bytes.
* A datapoint without a timestamp, one whose second is congruent to -1 modulo 2^32, one after the year
  9999, and a string that looks like a number do not survive a round trip. `CsvPoint.PointRoundTrip`
  gives the exact condition.
* `sscanf` does not look at what follows the digits of a timestamp: a missing `Z` or a zone offset in
  its place goes unnoticed (`CText.TrailerIsNotRead`, `CsvPoint.ZoneIsIgnored`).
* `xi_gmtime` counts years in an `int`. It is defined exactly for times from the epoch to the end of the
  year INT_MAX; a negative time becomes a number far beyond (`XiTime.GmtimeIsDefined`).
* Storing a decoded number overwrites the first bytes of the text it was decoded from, and copying a text
  overwrites the number, also when the call then fails (`CsvValue.DecodeValue`).
* The table for subtraction takes the half carry from the formula for addition. `AvrFlags.SubHalfCarry`
  says for exactly which operands it is the borrow out of the low nibble; `AvrFlags.SubHalfCarryFails`
  is a case where it is not.
* The stack check of `push_PC` looks at the first byte only. A three-byte counter pushed at the first
  unreserved address loses its high byte, and at that address, or one above for three bytes, the push
  overwrites the status register, with two-byte counters too. `AvrStack.GuardedPushReturns` and
  `AvrStack.PushOverwritesStatus` give both conditions exactly.
* `classify_header` tries six names only; "age" and "vary" are always unknown, and their names are in
  another order than the enumeration.
* `parse_http` takes any error left in the error cell before the call for one of its own. A reason
  phrase of 32 bytes or more overruns its array and a header with nothing after the colon makes a
  negative length: the model calls both undefined and says nothing more about them.
  `HttpRender.RenderedResponse` and `HttpRender.EmptyHeaderIsUndefined` show which responses get there.
* Content headers that do not fit their buffer leave an error behind although the request is built
  (`HttpEncode.Transport.EncodeUpdateFeed`).
* `http_construct_datastream` returns the length of the last segment only.

## Model

| member | source | states |
|---|---|---|
| CInt.ToInt32 | src/libxively/csv_data.c:239 | a cast to `int` is the one 32-bit number congruent modulo 2^32 |
| CInt.ToInt32IsMinusOne | src/libxively/csv_data.c:369 | the cast `(int)timestamp` is -1 for exactly the instants congruent to -1 modulo 2^32 |
| Calendar.EarlierIffBefore | src/libxively/xi_time.c:27-114 | canonical fields, compared from the year down, are ordered exactly like the seconds they denote |
| Calendar.CanonicalUnique | src/libxively/xi_time.c:27-66 | a second has at most one canonical form, so normalisation has one possible result |
| Calendar.EpochSplit | src/libxively/xi_time.c:67-68 | a canonical time is before the epoch exactly when its year is below 1970, which is all the code tests |
| Calendar.CivilOf | src/libxively/xi_time.c:117-151 | every second, negative ones too, has canonical fields that denote it |
| Calendar.CivilOfInstant | src/libxively/xi_time.c:27-66 | normalising leaves the fields alone if and only if each was already in its calendar range |
| Calendar.ClosedFormIsCount | src/libxively/xi_time.c:82-92 | the /4, /100, /400 formula with its C corrections equals the year-by-year sum of year sizes, for every year from 1970 on |
| Calendar.PosixFormula | src/libxively/xi_time.c:82-114 | the counted seconds agree with "Seconds Since the Epoch", section 4.16 of the Base Definitions of IEEE Std 1003.1-2017 |
| Calendar.GregorianCycle | src/libxively/xi_time.c:125-147 | 146097 days later month, day, weekday, day of year and time of day repeat and the year is 400 more |
| Calendar.YearHoldsDay | src/libxively/xi_time.c:133-136 | a day lies before the start of a year exactly when its own year is an earlier one, which is what lets the loop stop |
| Calendar.MonthTable | src/libxively/xi_time.c:15-17 | the days before each month, one more from March on in leap years |
| Calendar.WeekDays | src/libxively/xi_time.c:104 | day 0 was a Thursday and the weekdays follow each other |
| XiTime.LeapYearIsLeap | src/libxively/xi_time.c:57-60 | the leap-year macro with C's remainder is the Gregorian rule for years of either sign |
| XiTime.CarryIsFloor | src/libxively/xi_time.c:27-50 | truncating division with the sign correction is floor division |
| XiTime.NoOverflow | src/libxively/xi_time.c:84-113 | with a 64-bit `long` and a year up to INT_MAX no intermediate overflows and no overflow guard fires |
| XiTime.CarryClock | src/libxively/xi_time.c:27-44 | seconds, minutes and hours land in range and, with the carried days, denote the same number of seconds |
| XiTime.CarryMonths | src/libxively/xi_time.c:45-50 | the month lands in range and carries whole years, for negative months too |
| XiTime.WalkToMonth | src/libxively/xi_time.c:52-65 | both day loops end, with the day inside the named month, and denote the day they started from |
| XiTime.SumMonths | src/libxively/xi_time.c:94-98 | the loop sums the sizes of the months before the given one |
| XiTime.CountDays | src/libxively/xi_time.c:82-92 | the formula as coded is the year-by-year day count, and its guards stay silent up to the year INT_MAX |
| XiTime.CountSeconds | src/libxively/xi_time.c:67-114 | for canonical fields: the Gregorian second count or -1 before the epoch, the weekday and the day of year, with guards and closed form as in the code |
| XiTime.Mktime | src/libxively/xi_time.c:19-115 | for any fields: the structure ends canonical, denotes the same instant, and the result is the Gregorian second count of the caller's fields, or -1 exactly if that is negative |
| XiTime.CountYears | src/libxively/xi_time.c:123-136 | the loop ends in the year that contains the day, and that year fits an `int` exactly for days before the year after INT_MAX |
| XiTime.CountMonths | src/libxively/xi_time.c:140-145 | the loop ends in the month that contains the day of the year and never runs past December |
| XiTime.Clock.Gmtime | src/libxively/xi_time.c:117-151 | the static structure holds the canonical fields, weekday and day of year of the given second |
| XiTime.GmtimeIsDefined | src/libxively/xi_time.c:121-136 | among all 64-bit times the year stays in an `int` if and only if the time is from the epoch to the end of the year INT_MAX |
| XiTime.MutualInverses | src/libxively/xi_time.c:19-151 | `xi_mktime` undoes `xi_gmtime` from the epoch on, and `xi_gmtime` gives back a caller's fields if and only if they were canonical and from 1970 on |
| XiTime.RoundTrip | src/libxively/xi_time.c:19-151 | on the objects: what `xi_gmtime` fills from the result is the structure `xi_mktime` left, weekday and day of year included |
| XiErr.ErrorCell.GetLast | src/libxively/xi_err.c:58-63 | reading the last error hands it out and clears it |
| CText.Snprintf | src/libxively/csv_data.c:231-239 | the text cut to the size and its NUL are stored, nothing outside changes, and the full length is returned |
| CText.Append | src/libxively/xi_macros.h:33-38 | a checked `snprintf` appends the whole text and keeps the offset below the size, or sets the error; it succeeds exactly if text and NUL fit |
| CText.ScanAfterPrint | src/libxively/csv_data.c:349-351 | reading with a format what was printed with it returns every number, whatever follows, if each fits its field width |
| CText.ScannedFits | src/libxively/csv_data.c:349-354 | numbers read with bounded widths are bounded by them |
| CText.TrailerIsNotRead | src/libxively/csv_data.c:349-354 | for every text the numbers read are the same with and without the characters behind the last conversion |
| CText.PrintIntForm | src/libxively/csv_data.c:34-35 | `%d` prints a hyphen for negative numbers and the shortest digits that write the rest |
| CText.ScanMeaning | src/libxively/csv_data.c:349-351 | what a conversion makes of white space, a sign, digits and whatever follows, within its width |
| CText.AtoiMeaning | src/libxively/csv_data.c:190 | `atoi` of white space, a sign and digits, leading zeros or not, is the number they write |
| CText.AtoiPrinted | src/libxively/csv_data.c:190 | `atoi` of a printed integer is that integer |
| CsvValue.RunIsStateOf | src/libxively/csv_data.c:132-172 | the state table recognises the languages -?[0-9]+, -?[0-9]*\\. and -?[0-9]*\\.[0-9]+ on text without carriage return and vertical tab |
| CsvValue.RunAfterReset | src/libxively/csv_data.c:61-63 | a vertical tab makes the automaton forget everything before it |
| CsvValue.CopyValue | src/libxively/csv_data.c:145-172 | the loop copies the line, keeping old bytes at vertical tabs, and fails exactly on lines of 32 bytes and more |
| CsvValue.DecodeValue | src/libxively/csv_data.c:118-203 | value, type and error cell after the call; what the text buffer holds, but for the bytes a decoded number overwrites, and in the failing case too |
| CsvValue.AtoiOfInteger | src/libxively/csv_data.c:189-191 | every text of -?[0-9]+ is decoded to the number its digits write |
| CsvValue.LineStops | src/libxively/csv_data.c:148 | a value ends before the first newline, NUL or carriage return |
| CsvValue.Classification | src/libxively/csv_data.c:118-203 | without a vertical tab: fails exactly beyond 31 bytes; otherwise the number an integer text writes, the float of a float text, or the identical string, by the language of the text |
| CsvValue.ClassificationAfterReset | src/libxively/csv_data.c:159-172 | with vertical tabs only the text after the last one decides the type |
| CsvPoint.ScannedRanges | src/libxively/csv_data.c:349-365 | the ranges the format leaves to the seven scanned numbers |
| CsvPoint.StampScans | src/libxively/csv_data.c:226-239 | the digits of a stamp up to the year 9999 are scanned back to its broken-down time and microseconds, whatever follows them |
| CsvPoint.LongYearFails | src/libxively/csv_data.c:349-354 | a stamp after the year 9999 stops the scanner after one conversion |
| CsvPoint.ValueRoundTrip | src/libxively/csv_data.c:118-203 | a held value comes back from its line if and only if it fits 31 bytes, has no line end or vertical tab and does not read as another type; a float is known by its printed text, and infinities and NaN do not return |
| CsvPoint.StampedRoundTrip | src/libxively/csv_data.c:330-386 | the same for a stamped datapoint with any further lines behind it |
| CsvPoint.ZoneIsIgnored | src/libxively/csv_data.c:349-354 | the same with any comma-free text in the place of the final `Z` |
| CsvPoint.UnstampedIsLost | src/libxively/csv_data.c:226-242 | a datapoint printed without a stamp never comes back |
| CsvPoint.DecodedPointMeaning | src/libxively/csv_data.c:340-382 | a decoded text has a comma and seven numbers in front, and its datapoint is their instant, the last of them and the value behind the comma; without a comma it fails |
| CsvPoint.PointRoundTrip | src/libxively/csv_data.c:214-254 | for every datapoint a program can hold, floats being known by their printed text: decoding its line gives the datapoint if and only if stamp and value meet the stated condition |
| CsvData.EncodeStamp | src/libxively/csv_data.c:226-242 | the stamp column is written in full or the call fails; nothing outside the given bytes changes |
| CsvData.EncodeDatapointInPlace | src/libxively/csv_data.c:214-254 | writes exactly the datapoint's line and returns its length if and only if it fits and the value has a type |
| CsvData.EncodeDatapoint | src/libxively/csv_data.c:205-212 | the local buffer holds the line if and only if it fits |
| CsvData.EncodeCreateDatastream | src/libxively/csv_data.c:256-278 | the buffer holds id, comma and line if and only if they fit |
| CsvData.ScannedYear | src/libxively/csv_data.c:356-367 | whatever was scanned, the year `xi_mktime` normalises to fits an `int` |
| CsvData.DecodeDatapoint | src/libxively/csv_data.c:330-386 | the structure, the error cell and the result for every text; a bad stamp leaves the structure alone |
| CsvFeed.Until | src/libxively/xi_helpers.c:38-45 | the copied prefix is delimiter-free and maximal |
| CsvFeed.CopyUntil | src/libxively/xi_helpers.c:31-49 | the destination holds that prefix, a NUL and its old bytes |
| CsvFeed.DecodeLine | src/libxively/csv_data.c:293-316 | one datastream is read or the parser error is set, for every text |
| CsvFeed.DecodedLineMeaning | src/libxively/csv_data.c:299-317 | the id of a line is what precedes its first comma, cut to 15 bytes, and the datapoint is decoded from what follows |
| CsvFeed.DecodeFeed | src/libxively/csv_data.c:280-328 | ids, datapoints, one datapoint each, count and error cell after the call, for every text; unused datastreams keep their values |
| CsvFeed.LineRoundTrip | src/libxively/csv_data.c:299-317 | a line reads back to its id and datapoint whatever lines follow, and its newline is the first |
| CsvFeed.FeedRoundTrip | src/libxively/csv_data.c:280-328 | the body of a feed update without its last newline decodes to its entries in order, for 1 to 15 entries, and fails for more; ids return whole exactly up to 15 bytes |
| FeedReturns.DecodedLines | src/libxively/csv_data.c:291-321 | a text that decodes has exactly one newline fewer than entries, and fewer than 16 entries |
| FeedReturns.PointMustReturn | src/libxively/csv_data.c:299-317 | in front of a stamped line or the end, a datapoint that was read back is stamped and returns by itself; one without a stamp reads into the line after it |
| FeedReturns.FeedReturns | src/libxively/http_transport_layer.c:234-258 | for every feed with ids free of separators and times from the epoch on: the body without its last newline decodes to the feed if and only if it has at most 15 entries, ids of at most 15 bytes, and every datapoint returns by itself |
| CsvFeed.FinalNewlineFails | src/libxively/csv_data.c:291-317 | no text that ends with a newline decodes |
| CsvFeed.EncodedFeedIsRejected | src/libxively/http_transport_layer.c:234-258 | so no body as built by the encoder decodes |
| StampShape.StampBytes | src/libxively/csv_data.c:231-239 | the 27 bytes of a stamp: each separator in its place, and digits that write the fields of the instant and the microseconds |
| StampShape.StampIsRead | src/libxively/csv_data.c:349-351 | every text that starts with such bytes, whatever the digits, is scanned to exactly the seven numbers they write |
| StampShape.StampedLineIsDecoded | src/libxively/csv_data.c:330-386 | such bytes, a comma and a value decode to the instant they denote and the value, or to the error of a time before the epoch or -1 as an `int` |
| StampShape.LineBytes | src/libxively/csv_data.c:214-254 | the bytes of a datapoint's line: stamp and comma unless the timestamp is zero, the value, an integer with sign and shortest digits, and a newline |
| StampOrder.StampOrder | src/libxively/csv_data.c:226-239 | up to the year 9999 printed stamps compared as strings are ordered exactly like (second, microsecond) pairs, section 5.1 of RFC 3339 |
| StampOrder.LexOfPrinted | src/libxively/csv_data.c:231-239 | texts printed with one padded format are ordered like their arguments |
| HttpEncode.EncodeConcat | src/libxively/http_transport_layer.c:26-68 | succeeds with exactly the concatenated request if and only if it and its NUL fit |
| HttpEncode.Queries.ConstructSegment | src/libxively/http_layer_queries.c:36-84 | a slash and a segment are added behind the given offset if and only if they fit |
| HttpEncode.Queries.ConstructDatastream | src/libxively/http_layer_queries.c:103-133 | the buffer holds the whole path although the returned length is that of the last segment |
| HttpEncode.Queries.ConstructHttpQuery | src/libxively/http_layer_queries.c:171-192 | the query buffer holds the query for the path in the id buffer if and only if it fits |
| HttpEncode.Queries.ConstructRequestDatastream | src/libxively/http_layer_queries.c:219-240 | succeeds with exactly the query for the datastream if and only if path and query fit, in spite of the length mixed up on the way, and sets the error of the one that does not fit |
| HttpEncode.Queries.ConstructRequestFeed | src/libxively/http_layer_queries.c:242-261 | the same for a feed and a query suffix |
| HttpEncode.Queries.ConstructContent | src/libxively/http_layer_queries.c:263-277 | the content headers are handed out if and only if they fit |
| HttpEncode.ContentAlwaysFits | src/libxively/http_layer_queries.c:263-277 | they always fit the default 64 bytes |
| HttpEncode.PrefixDecides | src/libxively/http_transport_layer.c:234-258 | stopping at the first entry that does not fit or has no type is right: the whole feed does not fit or is not typed |
| HttpEncode.FeedBody | src/libxively/http_transport_layer.c:227-259 | the nested loop writes the text of all entries in order if and only if it fits and all are typed |
| HttpEncode.JoinBody | src/libxively/http_transport_layer.c:295-313 | the loop writes the joined ids if and only if they fit |
| HttpEncode.QueryIsRead | src/libxively/http_layer_queries.c:20-24 | a reader takes any query apart into method, target and version and exactly the fields Host, User-Agent, Accept and X-ApiKey with their own values |
| HttpEncode.SizedRequestIsRead | src/libxively/http_transport_layer.c:26-68 | with a body the reader finds two more fields, the content type and the length of the body, and the body behind the blank line |
| HttpEncode.BareRequestIsRead | src/libxively/http_transport_layer.c:26-68 | without content headers there are four fields and no body |
| HttpEncode.DatastreamTarget | src/libxively/http_layer_queries.c:103-133 | the target names the feed by its decimal id, then its datastreams or one of them |
| HttpEncode.JoinSplits | src/libxively/http_transport_layer.c:302-312 | the suffix is `?datastreams=` and a list that splits at its commas into the ids |
| HttpEncode.Transport.EncodeUpdateFeed | src/libxively/http_transport_layer.c:210-277 | succeeds with exactly the request for the feed if and only if body, path, query and request fit their buffers and all values are typed; a reader of the buffer finds the PUT line, the six fields, the true length and the body; the error cell afterwards in every case |
| HttpParser.ClassifyHeader | src/libxively/http_layer_parser.c:39-48 | the type of the first tried name equal but for letter case |
| HttpParser.FoldingIsSameButCase | src/libxively/http_layer_parser.c:43 | folding compares two names as `strcasecmp` does: of one length, and at every index the same character or the two cases of one letter |
| HttpParser.SixNames | src/libxively/http_layer_parser.c:26-48 | "date", "content-type", "content-length", "connection", "x-request-id" and "cache-control" in any case are classified as their types, and every other name is unknown |
| HttpParser.CursorStep | src/libxively/http_layer_parser.c:82-156 | a header moves the cursor strictly forward and not past the blank line; on the blank line there is no header |
| HttpParser.CursorLandsOnBlank | src/libxively/http_layer_parser.c:181-183 | all cursors of the loop climb strictly and stay up to the blank line, and a loop that does not fail ends exactly on it |
| HttpParser.ReplyCursor | src/libxively/http_layer_parser.c:158-196 | the same from the status line on, for every response text |
| HttpParser.Response.ParseStatus | src/libxively/http_layer_parser.c:50-80 | status fields, cursor and error for every text |
| HttpParser.Response.ParseHeader | src/libxively/http_layer_parser.c:82-156 | one header more, with the checklist referring to the last header of each type, or the error |
| HttpParser.Response.ReadAll | src/libxively/http_layer_parser.c:181-183 | the loop ends and reads the headers up to the blank line in order, or reports the error |
| HttpParser.Response.Parse | src/libxively/http_layer_parser.c:158-196 | the whole response structure or the error; each of the six checklist slots refers to the last header of its literal name in any case; what an error left in the cell does to a good response |
| HttpParser.LastOfMeaning | src/libxively/http_layer_parser.c:132-137 | the entry of a type is its last header, and is missing only if it has none |
| HttpRender.RenderedResponse | src/libxively/http_layer_parser.c:158-196 | for all responses with good status and headers: 1 to 15 headers and a reason up to 31 bytes are read back, with names and values in order and the payload up to 192 bytes; a longer reason is undefined, and exactly then; other header counts are errors |
| HttpRender.NoHeaders | src/libxively/http_layer_parser.c:181-187 | a response without a header is an error |
| HttpRender.BareField | src/libxively/http_layer_parser.c:82-119 | a header line is undefined if and only if nothing follows its colon, and an error beyond 64 bytes; else the byte behind the colon is dropped |
| HttpRender.EmptyHeaderIsUndefined | src/libxively/http_layer_parser.c:106-115 | a response whose last header, after up to 15 good ones, has nothing behind its colon is undefined |
| HttpRender.ParsedIsResponse | src/libxively/http_layer_parser.c:158-196 | whatever is parsed starts with HTTP/, has 1 to 15 lines before its first blank line, each with the name before and the value behind its colon, and the payload behind it; without a blank line parsing fails |
| HttpRender.ChecklistFindsNames | src/libxively/http_layer_parser.c:127-143 | after any parsed response each of the six slots refers to the last header of that name but for letter case, and is empty if and only if there is none |
| HttpRender.OtherSlotsStayEmpty | src/libxively/http_layer_parser.c:26-48 | the remaining slots are empty after any response |
| AvrFlags.GenerateAdd8 | src/import/avrtest/gen-flag-tables.c:96-114 | the loop emits the flags of every index |
| AvrFlags.GenerateSub8 | src/import/avrtest/gen-flag-tables.c:116-134 | the same for subtraction |
| AvrFlags.GenerateRor8 | src/import/avrtest/gen-flag-tables.c:136-149 | the same for rotation |
| AvrFlags.IndexFields | src/import/avrtest/avrtest.c:517-522 | the index keeps result, signs and nibble bits of the operands apart |
| AvrFlags.AddFlags | src/import/avrtest/gen-flag-tables.c:96-114 | all six looked-up flags are those of the integer sum, for all operands and carries |
| AvrFlags.SubFlags | src/import/avrtest/gen-flag-tables.c:116-134 | C, Z, N, V and S are those of the integer difference |
| AvrFlags.SubHalfCarry | src/import/avrtest/gen-flag-tables.c:127-130 | the half carry of a subtraction is the nibble borrow if and only if, in the operands, bit 3 of the subtrahend is set exactly when the lower three bits borrow |
| AvrFlags.SubHalfCarryFails | src/import/avrtest/gen-flag-tables.c:127-130 | 8 - 1 sets the half carry although the low nibble does not borrow |
| AvrFlags.RorFlags | src/import/avrtest/gen-flag-tables.c:136-149 | the looked-up flags are those of the shifted nine bits |
| AvrArith.SubChainMeaning | src/import/avrtest/avrtest.c:617-629 | `SUB` then `SBC` on n bytes: the difference modulo 256^n, with C, Z, N, V, S of the whole numbers, for every n |
| AvrArith.CompareChain | src/import/avrtest/avrtest.c:875-885 | `CP` then `CPC` on n bytes: C is unsigned less, Z is equal, S is signed less |
| AvrArith.AddChainMeaning | src/import/avrtest/avrtest.c:856-866 | `ADD` then `ADC` on n bytes: the sum, with C its carry and V its signed overflow |
| AvrArith.ShiftChainMeaning | src/import/avrtest/avrtest.c:713-721 | `LSR` or `ASR` then `ROR` from the top byte: unsigned or signed floor division by two with C the remainder |
| AvrArith.AddStepMeaning | src/import/avrtest/avrtest.c:600-614 | one step sets all six flags of the byte sum, the half carry too, and keeps T and I |
| AvrArith.SubStepMeaning | src/import/avrtest/avrtest.c:617-629 | one step sets the flags of the byte difference, the half carry as AvrFlags.SubHalfCarry says, and keeps T and I |
| AvrArith.AdiwFlags | src/import/avrtest/avrtest.c:1324-1340 | the 8-bit addition table gives `ADIW` the flags of the 16-bit sum, and H, T and I are kept |
| AvrArith.SbiwFlags | src/import/avrtest/avrtest.c:1342-1358 | the 8-bit subtraction table gives `SBIW` the flags of the 16-bit difference, and H, T and I are kept |
| AvrStack.PushKeeps | src/import/avrtest/avrtest.c:537-576 | a push adds one frame to the stack memory represents and changes nothing outside it |
| AvrStack.PopKeeps | src/import/avrtest/avrtest.c:549-596 | a pop returns the top frame and leaves the others |
| AvrStack.StackRefinesSequence | src/import/avrtest/avrtest.c:537-596 | every well-nested run of byte and counter pushes and pops runs to its end, returns at each pop what was pushed, and restores the pointer |
| AvrStack.GuardedPushReturns | src/import/avrtest/avrtest.c:558-596 | a counter that passes the stack check is popped again unchanged if and only if it is not a three-byte counter of 65536 or more pushed at the first unreserved address; the pointer returns in any case |
| AvrStack.PushAtTheReservedArea | src/import/avrtest/avrtest.c:559-576 | at the edge of the reserved area the guard passes and the counter comes back modulo 65536 |
| AvrStack.PushOverwritesStatus | src/import/avrtest/avrtest.c:559-576 | a guarded push replaces the status register by a byte of the counter at the first unreserved address, and at the next one for three bytes, and nowhere else |
| AvrStack.GuardedByteReturns | src/import/avrtest/avrtest.c:537-556 | a byte that passes the check always returns and never touches the status register |
| AvrStack.WhenPopsFail | src/import/avrtest/avrtest.c:549-596 | exactly where a pop is not modelled, standard input and the end of memory, or gives up on a counter out of bounds |
| AvrStack.CounterInMemory | src/import/avrtest/avrtest.c:558-576 | the bytes of a pushed counter at their addresses, the lowest highest, the pointer in 0x5D and 0x5E, and all other memory kept |
| AvrCpu.SregRoundTrip | src/import/avrtest/avrtest.c:500-506 | the status byte and the set of its flags determine each other |
| AvrCpu.SregBits | src/import/avrtest/avrtest.c:500-512 | which bit of the status byte each flag is |
| AvrCpu.Cpu.UpdateStatus | src/import/avrtest/avrtest.c:500-506 | the masked flags are replaced and all other memory is kept |
| AvrCpu.Cpu.DoAddition8 | src/import/avrtest/avrtest.c:599-614 | register and status after the table lookup are those of one step of the addition chain; nothing else changes |
| AvrCpu.Cpu.DoSubtraction8 | src/import/avrtest/avrtest.c:616-629 | difference and status are those of one step of the subtraction chain |
| AvrCpu.Cpu.RotateRight | src/import/avrtest/avrtest.c:713-721 | register and status are those of one step of the shift chain |
| AvrCpu.Cpu.Add | src/import/avrtest/avrtest.c:856-866 | `ADD` and `ADC` take no carry and the carry in the status register |
| AvrCpu.Cpu.Sub | src/import/avrtest/avrtest.c:919-930 | `SUB` and `SBC` likewise, `SBC` keeping Z |
| AvrCpu.Cpu.Compare | src/import/avrtest/avrtest.c:875-885 | `CP` and `CPC` change the status register only |
| AvrCpu.Cpu.Lsr | src/import/avrtest/avrtest.c:1040-1044 | one step of the shift chain with a clear top bit |
| AvrCpu.Cpu.Asr | src/import/avrtest/avrtest.c:933-938 | one step of the shift chain that repeats the sign bit |
| AvrCpu.Cpu.Ror | src/import/avrtest/avrtest.c:1112-1116 | one step of the shift chain that takes the carry of the step before |
| AvrCpu.Cpu.Adiw | src/import/avrtest/avrtest.c:1324-1340 | the register pair holds the 16-bit sum and the status has its flags |
| AvrCpu.Cpu.Sbiw | src/import/avrtest/avrtest.c:1342-1358 | the same for the difference |
| AvrCpu.Cpu.PushByte | src/import/avrtest/avrtest.c:537-547 | memory after the push, or unchanged when the simulator gives up |
| AvrCpu.Cpu.PopByte | src/import/avrtest/avrtest.c:549-556 | the value and the memory after the pop |
| AvrCpu.Cpu.PushPc | src/import/avrtest/avrtest.c:558-576 | memory after two or three bytes are pushed |
| AvrCpu.Cpu.PopPc | src/import/avrtest/avrtest.c:578-596 | counter and memory after the pop, or both unchanged for a counter out of bounds |
| AvrOpcode.NeverDummy | src/import/avrtest/avrtest.c:1906-2077 | every pair of words decodes to some instruction, at worst the illegal one |
| AvrOpcode.DecodeTwoRegister | src/import/avrtest/avrtest.c:1922-1929 | every two-register instruction word decodes to its instruction and both registers |
| AvrOpcode.DecodeOneRegister | src/import/avrtest/avrtest.c:1931-1941 | every one-register instruction word decodes to its instruction, its register and the next word |
| AvrOpcode.DecodeImmediates | src/import/avrtest/avrtest.c:1943-1955 | every instruction word with a constant decodes to its instruction, register and constant |
| AvrOpcode.DecodeRelative | src/import/avrtest/avrtest.c:2043-2049 | relative jumps and calls decode to their address, with the leftover register bits |
| AvrFormats.DecodeNoOperands | src/import/avrtest/avrtest.c:1833-1847 | each of the thirteen words without operands decodes to its instruction |
| AvrFormats.DecodeRegisterBits | src/import/avrtest/avrtest.c:1957-1966 | `BLD`, `BST`, `SBRC` and `SBRS` decode to register and bit |
| AvrFormats.DecodeBranches | src/import/avrtest/avrtest.c:1968-1975 | `BRBC` and `BRBS` decode to their own instruction, distance and bit |
| AvrFormats.DecodeDisplacements | src/import/avrtest/avrtest.c:1977-1993 | loads and stores through Y and Z decode to register and displacement |
| AvrFormats.DecodeAddresses | src/import/avrtest/avrtest.c:1995-2002 | `CALL` and `JMP` decode to the upper bits of the address and the second word |
| AvrFormats.DecodeStatusBits | src/import/avrtest/avrtest.c:2004-2012 | `BCLR` and `BSET` decode to their bit |
| AvrFormats.DecodePairs | src/import/avrtest/avrtest.c:2014-2021 | `ADIW` and `SBIW` decode to register pair and constant |
| AvrFormats.DecodePortBits | src/import/avrtest/avrtest.c:2023-2032 | `CBI`, `SBI`, `SBIC` and `SBIS` decode to port and bit |
| AvrFormats.DecodePorts | src/import/avrtest/avrtest.c:2034-2041 | `IN` and `OUT` decode to register and port |
| AvrFormats.DecodeMovw | src/import/avrtest/avrtest.c:2051-2057 | `MOVW` decodes to two even registers |
| AvrFormats.DecodeMuls | src/import/avrtest/avrtest.c:2058-2061 | `MULS` decodes to two upper registers |
| AvrFormats.DecodeMultiplications | src/import/avrtest/avrtest.c:2064-2073 | `MULSU`, `FMUL`, `FMULS` and `FMULSU` decode to two registers from 16 to 23 |
| AvrExact.DecodeIsExact | src/import/avrtest/avrtest.c:1906-2077 | for every word: it decodes to an instruction and its operands if and only if it encodes them in one of the formats, so exactly the words that encode nothing are illegal |
| AvrDecode.Simulator.DecodeFlash | src/import/avrtest/avrtest.c:2079-2094 | every table entry is what decoding its two flash words gives, and entries beyond the program stay empty |
| AvrDecode.Simulator.DoStep | src/import/avrtest/avrtest.c:2099-2117 | a step from the table has the outcome of fetching and decoding at the counter |
| AvrDecode.Simulator.Execute | src/import/avrtest/avrtest.c:2119-2140 | the limited loop has the outcome of that many fetch-decode-execute steps from address zero, and leaves with the timeout if they all ran |
| AvrDecode.TableIsDirect | src/import/avrtest/avrtest.c:2099-2117 | for any instruction functions one step from the table equals one step that decodes what it fetches |
| AvrDecode.RunsAgree | src/import/avrtest/avrtest.c:2079-2140 | so do runs of any length from any state |
| AvrDecode.AbortsOutsideProgram | src/import/avrtest/avrtest.c:2105-2108 | the abort fires if and only if the counter is outside the program |
| AvrDecode.LowByteFirst | src/import/avrtest/avrtest.c:2085-2089 | a word in flash has its low byte first |
| AvrProgram.StepPerforms | src/import/avrtest/avrtest.c:2105-2115 | for any instruction: the counter moves by its size and its cycles are added before its function runs, which learns the size of the instruction behind it, as skips need |
| AvrProgram.ProgramStep | src/import/avrtest/avrtest.c:2099-2117 | one machine step on an encoded arithmetic instruction in flash advances one word, adds its cycles and does to memory what the processor method does |
| AvrProgram.ProgramRuns | src/import/avrtest/avrtest.c:2079-2117 | a straight program of any length in flash, fetched, decoded and executed, leaves memory as its instructions one by one do and adds their cycles |
| AvrProgram.SumProgram | src/import/avrtest/avrtest.c:856-866 | one `ADD` and n - 1 `ADC` in flash put the n-byte sum into registers, with carry and signed overflow, and change nothing else but the status register |
| AvrProgram.DifferenceProgram | src/import/avrtest/avrtest.c:919-930 | the same for `SUB`, `SBC` and the difference, with the flags of the comparison |
| AvrProgram.HalfProgram | src/import/avrtest/avrtest.c:713-721 | `LSR` or `ASR` and n - 1 `ROR` in flash halve the unsigned or signed n-byte number in registers, with the remainder in C |
| AvrProgram.CompareProgram | src/import/avrtest/avrtest.c:875-885 | a program of one `CP` and n - 1 `CPC` in flash compares two n-byte numbers in registers and changes only the status register |

## Left out

- XiTime.Mktime: the field arithmetic is on unbounded integers; a field sum or a year beyond the range of `int` is undefined in C, so the result is stated for normalised years up to INT_MAX only. A 32-bit `long` is not modelled.
- XiTime.Clock.Gmtime: takes times from the epoch on; beyond the end of the year INT_MAX, where the count of years is undefined in C, it states the unbounded result. `tm_gmtoff` and `tm_zone` are not modelled.
- XiTime.NoOverflow: speaks of a `long` of 64 bits.
- CText.Snprintf: results beyond INT_MAX, which `snprintf` cannot return, are not modelled.
- CText.ScannedFits: reading a `%d` without a width that exceeds `int` is undefined in C and is read as the unbounded number.
- CsvValue.DecodeValue: a floating-point value is represented by its text, as `%f` and `atof` are library behaviour, so floats printed alike are one value; an integer text beyond `int` is read by `atoi` as the unbounded number; the bytes a number leaves in the storage it shares with the text are left open.
- CsvData.EncodeDatapointInPlace: needs a timestamp from the epoch on, as `xi_gmtime` does.
- CsvFeed.DecodeFeed: the datapoint half-filled by a failing line is not described; datastreams are values with the one datapoint the decoder fills; the id buffer is taken as cleared before.
- FeedReturns.FeedReturns: ids contain no comma, newline or NUL; with one of these the text means other entries.
- HttpEncode.Queries.ConstructDatastream: feed ids are printed as 32-bit integers, as `%d` does; a null feed id is not modelled.
- HttpEncode.Transport.EncodeUpdateFeed: key, host and user agent contain no NUL, and for the reader no carriage return; timestamps are from the epoch on.
- HttpParser.Response.Parse: what follows undefined behaviour (a reason of 32 bytes, nothing after a colon) is not described, nor are the fields left by a failing status line; text beyond the content array is cut without a NUL, and the content is described by the bytes copied.
- HttpRender.RenderedResponse: headers are rendered with a colon and one space, as the parser skips that byte unseen; no part of the response contains a NUL, which would end it.
- AvrFlags.SubFlags: leaves the half carry to AvrFlags.SubHalfCarry, which gives the exact condition under which it is right.
- AvrStack.StackRefinesSequence: needs all frames above the reserved area and inside data memory, and counters that fit the pushed width; AvrStack.GuardedPushReturns says what a single push does at the edge, and stacks that overlap input and output ports are excluded.
- AvrCpu.Cpu.PopByte: pops that run past data memory or read the standard input port are excluded.
- AvrDecode.Simulator.DecodeFlash: the program ends at least two bytes before the end of flash, as the last turn of its loop reads beyond the array otherwise.
- AvrDecode.Simulator.DoStep: instruction functions are a parameter that sees flash but cannot change it, as no instruction of the simulator writes flash or the table; a counter beyond the table counts as outside the program.
- AvrDecode.Simulator.Execute: the unlimited loop, which a limit of zero selects, is not modelled; its steps are those of AvrDecode.RunsAgree.
- AvrProgram.SumProgram: the registers of the second operand are not ones the chain overwrites before it reads them; the same for AvrProgram.DifferenceProgram.
- Half-carry meaning after `ADC` chains, and Z after `ADC`, which speaks of the last byte only.
- Multiplications, skips, branches, loads, stores and logical instructions of the simulator: each is one short body; sizes, cycle counts and functions of all instructions are parameters of the stepping model.
- XMEGA instructions, the ELF loader, port input and output, logging and argument parsing of the simulator.
- `http_construct_datapoint` and `http_construct_request_datapoint`: they build on the returned length of the last segment, and the transport layer does not use them.
- The encoders for single datastreams and datapoints and for deleting ranges, and the rest of `http_encode_get_feed`: sequences of members modelled here.
- `xi_replace_with`, `xi_str_dup` and the table of error messages: no property beyond their bodies.
- Communication layers, request context, the macros of `xively.c`, the test library and the examples: input and output and thin wrappers.
