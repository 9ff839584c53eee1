/** The datapoint encoder and decoder of `csv_data.c`. */
module CsvPoint {
  import opened CInt
  import opened XiErr
  import opened CText
  import opened Calendar
  import opened XiTime
  import opened Xively
  import opened CsvValue

  // ----- timestamps -------------------------------------------------------------------------

  /** "%04d-%02d-%02dT%02d:%02d:%02d.%06dZ": the date-time form in section 5.6 of RFC 3339. */
  const STAMP_FORMAT :=
    Num(4, Chr('-', Num(2, Chr('-', Num(2, Chr('T',
    Num(2, Chr(':', Num(2, Chr(':', Num(2, Chr('.', Num(6, Chr('Z', End))))))))))))))

  lemma StampConversions()
    ensures Conversions(STAMP_FORMAT) == 7
    ensures !HasChr(STAMP_FORMAT, ',')
    ensures !HasChr(STAMP_FORMAT, '\n')
  {
  }

  /** The numbers printed for an instant and its microseconds. */
  function StampArgs(t: int, micro: int): (args: seq<int>)
    ensures |args| == 7
  {
    var c := CivilOf(t);
    [c.year + YEAR0, c.mon + 1, c.mday, c.hour, c.min, c.sec, ToInt32(micro)]
  }

  function StampText(t: int, micro: int): string {
    StampConversions();
    Print(STAMP_FORMAT, StampArgs(t, micro))
  }

  /** The fields `csv_decode_datapoint` hands to `xi_mktime`. */
  function ScannedFields(ns: seq<int>): Civil
    requires |ns| == 7
  {
    Civil(ns[5], ns[4], ns[3], ns[2], ns[1] - 1, ns[0] - YEAR0)
  }

  // ----- the texts and what they decode to --------------------------------------------------

  function ValueText(v: Value): string
    requires !v.NoValue?
  {
    match v
    case I32(n) => PrintInt(n, 0)
    case F32(text) => text
    case Str(s) => s
  }

  function StampColumn(p: Point): string {
    if p.timestamp != 0 then StampText(p.timestamp, p.micro) + [','] else []
  }

  /** The line of a datapoint; a zero timestamp is left out. */
  function PointText(p: Point): string
    requires !p.value.NoValue?
  {
    StampColumn(p) + ValueText(p.value) + ['\n']
  }

  /** What `csv_decode_datapoint` makes of a text, given what its string buffer held. */
  function DecodedPoint(buffer: string, stale: string): Result<Point>
    requires |stale| == VALUE_STRING_MAX_SIZE
  {
    var comma := Find(buffer, [','], 0);
    var ns := Scan(STAMP_FORMAT, buffer);
    if comma < 0 || |ns| != 7 then Err(CsvDecodeDatapointParserError)
    else
      var t := MktimeValue(ScannedFields(ns));
      if ToInt32(t) == -1 then Err(CsvTimeConvertionError)
      else
        match DecodedValue(buffer[comma + 1..], stale)
        case Err(_) => Err(CsvDecodeDatapointParserError)
        case Ok(v) => Ok(Point(v, t, ns[6]))
  }

  /** What was decoded of a text: it has a comma and seven numbers in front, and the value behind the comma. */
  lemma DecodedPointMeaning(buffer: string, stale: string)
    requires |stale| == VALUE_STRING_MAX_SIZE
    ensures match DecodedPoint(buffer, stale)
            case Err(e) => e == CsvTimeConvertionError || e == CsvDecodeDatapointParserError
            case Ok(p) =>
              var ns := Scan(STAMP_FORMAT, buffer);
              && |ns| == 7 && p.micro == ns[6]
              && p.timestamp == MktimeValue(Civil(sec := ns[5], min := ns[4], hour := ns[3], mday := ns[2], mon := ns[1] - 1, year := ns[0] - 1900))
              && p.timestamp % 0x1_0000_0000 != 0xFFFF_FFFF
              && exists comma ::
                   && 0 <= comma < |buffer| && buffer[comma] == ',' && ',' !in buffer[..comma]
                   && DecodedValue(buffer[comma + 1..], stale) == Ok(p.value)
    ensures ',' !in buffer ==> DecodedPoint(buffer, stale) == Err(CsvDecodeDatapointParserError)
  {
    hide Scan, DecodedValue, MktimeValue, Find;
    var comma := Find(buffer, [','], 0);
    if comma >= 0 {
      NotBefore(buffer, ',', comma);
      assert buffer[comma..comma + 1][0] == ',';
    }
    if |Scan(STAMP_FORMAT, buffer)| == 7 {
      ToInt32IsMinusOne(MktimeValue(ScannedFields(Scan(STAMP_FORMAT, buffer))));
    }
  }

  // ----- which datapoints come back ---------------------------------------------------------

  /**
    What `%f` prints for infinities and for what is not a number, section 7.21.6.1 of ISO C11: an
    optional sign and a word of letters, digits, underscores and parentheses that starts with `inf`
    or `nan`; its first letter is enough here.
   */
  predicate IsFloatWord(text: string) {
    var word := Body(text);
    && word != [] && (word[0] == 'i' || word[0] == 'n')
    && forall i :: 0 <= i < |word| ==> IsWordChar(word[i])
  }

  predicate IsWordChar(c: char) {
    'a' <= c <= 'z' || 'A' <= c <= 'Z' || IsDigit(c) || c == '_' || c == '(' || c == ')'
  }

  /**
    The values a C program can hold: 32-bit integers, floats and NUL-terminated strings. A float is
    known by the text `%f` prints for it, so that floats printed alike, such as 0 and 1e-10, are one
    value here.
   */
  predicate Held(v: Value) {
    match v
    case I32(n) => IsInt32(n)
    case F32(text) => IsFloat(text) || IsFloatWord(text)
    case Str(s) => '\0' !in s
    case NoValue => false
  }

  /** A string must not read as a number, and the words for special floats read as strings. */
  predicate ValueReturns(v: Value)
    requires Held(v)
  {
    match v
    case I32(_) => true
    case F32(text) => |text| < VALUE_STRING_MAX_SIZE && IsFloat(text)
    case Str(s) =>
      && |s| < VALUE_STRING_MAX_SIZE
      && '\n' !in s && '\r' !in s && VT !in s
      && !IsInteger(s) && !IsFloat(s)
  }

  predicate StampReturns(t: int, micro: int) {
    && 0 < t
    && CivilOf(t).year + YEAR0 <= 9999
    && t % 0x1_0000_0000 != 0xFFFF_FFFF
    && -99999 <= micro <= 999999
  }

  predicate PointReturns(p: Point)
    requires Held(p.value)
  {
    StampReturns(p.timestamp, p.micro) && ValueReturns(p.value)
  }

  // ----- the stamp --------------------------------------------------------------------------

  lemma PowersOfTen()
    ensures Pow10(1) == 10 && Pow10(2) == 100 && Pow10(3) == 1000 && Pow10(4) == 10000 && Pow10(5) == 100000 && Pow10(6) == 1000000
  {
    assert Pow10(4) == 10000;
  }

  /** The ranges the widths of the format leave to the scanned fields. */
  lemma ScannedRanges(s: string)
    ensures var ns := Scan(STAMP_FORMAT, s);
            |ns| == 7 ==>
              && -999 <= ns[0] <= 9999
              && (forall i :: 1 <= i < 6 ==> -9 <= ns[i] <= 99)
              && -99999 <= ns[6] <= 999999
  {
    hide Scan, Pow10;
    var ns := Scan(STAMP_FORMAT, s);
    StampConversions();
    PowersOfTen();
    if |ns| == 7 {
      ScannedFits(STAMP_FORMAT, s);
      FitsSeven(ns);
    }
  }

  lemma FitsSeven(a: seq<int>)
    requires |a| == 7 == Conversions(STAMP_FORMAT)
    ensures FitsFormat(STAMP_FORMAT, a) <==>
              FitsWidth(a[0], 4) && (forall i :: 1 <= i < 6 ==> FitsWidth(a[i], 2)) && FitsWidth(a[6], 6)
  {
    hide FitsWidth;
    var f6 := Num(6, Chr('Z', End));
    assert FitsFormat(f6, a[6..]) <==> FitsWidth(a[6], 6) by { assert FitsFormat(Chr('Z', End), a[6..][1..]); }
    var f5 := Num(2, Chr('.', f6));
    assert FitsFormat(f5, a[5..]) <==> FitsWidth(a[5], 2) && FitsFormat(f6, a[6..]) by { assert a[5..][1..] == a[6..]; }
    var f4 := Num(2, Chr(':', f5));
    assert FitsFormat(f4, a[4..]) <==> FitsWidth(a[4], 2) && FitsFormat(f5, a[5..]) by { assert a[4..][1..] == a[5..]; }
    var f3 := Num(2, Chr(':', f4));
    assert FitsFormat(f3, a[3..]) <==> FitsWidth(a[3], 2) && FitsFormat(f4, a[4..]) by { assert a[3..][1..] == a[4..]; }
    var f2 := Num(2, Chr('T', f3));
    assert FitsFormat(f2, a[2..]) <==> FitsWidth(a[2], 2) && FitsFormat(f3, a[3..]) by { assert a[2..][1..] == a[3..]; }
    var f1 := Num(2, Chr('-', f2));
    assert FitsFormat(f1, a[1..]) <==> FitsWidth(a[1], 2) && FitsFormat(f2, a[2..]) by { assert a[1..][1..] == a[2..]; }
  }

  lemma CanonicalRanges(c: Civil)
    requires Canonical(c) && Instant(c) >= 0
    ensures EPOCH_YR <= c.year + YEAR0 && 1 <= c.mon + 1 <= 12 && 1 <= c.mday <= 31
    ensures 0 <= c.hour < 24 && 0 <= c.min < 60 && 0 <= c.sec < 60
  {
    EpochSplit(c);
  }

  lemma StampFits(t: int, micro: int)
    requires 0 <= t && CivilOf(t).year + YEAR0 <= 9999 && -99999 <= micro <= 999999
    ensures Conversions(STAMP_FORMAT) == 7 && FitsFormat(STAMP_FORMAT, StampArgs(t, micro))
    ensures StampArgs(t, micro)[6] == micro
  {
    hide CivilOf, Instant, Pow10, IsLeap;
    StampConversions();
    PowersOfTen();
    CanonicalRanges(CivilOf(t));
    FitsSeven(StampArgs(t, micro));
  }

  /** A stamp without its final `Z`. */
  function StampDigits(t: int, micro: int): string {
    StampConversions();
    Print(UpToLastNumber(STAMP_FORMAT), StampArgs(t, micro))
  }

  lemma StampEndsInZ(t: int, micro: int)
    ensures StampText(t, micro) == StampDigits(t, micro) + ['Z']
  {
    hide Print, CivilOf;
    StampConversions();
    TrailerIsPrinted(STAMP_FORMAT, StampArgs(t, micro));
    assert Trailer(STAMP_FORMAT) == ['Z'];
  }

  /** A stamp up to the year 9999 is scanned back to its fields, whatever follows its digits. */
  lemma StampScans(t: int, micro: int, tail: string)
    requires 0 <= t && CivilOf(t).year + YEAR0 <= 9999 && -99999 <= micro <= 999999
    ensures var ns := Scan(STAMP_FORMAT, StampDigits(t, micro) + tail);
            |ns| == 7 && ScannedFields(ns) == CivilOf(t) && ns[6] == micro
  {
    hide CivilOf, Scan, Print, FitsFormat, UpToLastNumber;
    StampFits(t, micro);
    TrailerIsPrinted(STAMP_FORMAT, StampArgs(t, micro));
    TrailerIsNotRead(STAMP_FORMAT, StampDigits(t, micro) + tail);
    ScanAfterPrint(UpToLastNumber(STAMP_FORMAT), StampArgs(t, micro), tail);
  }

  /** A year beyond 9999 has a fifth digit where the scanner wants a hyphen. */
  lemma LongYearFails(t: int, micro: int, tail: string)
    requires 0 <= t && CivilOf(t).year + YEAR0 > 9999
    ensures |Scan(STAMP_FORMAT, StampDigits(t, micro) + tail)| == 1
  {
    hide CivilOf, Dec, Print, Scan;
    var a := StampArgs(t, micro);
    StampConversions();
    PowersOfTen();
    DecLength(a[0], 4);
    var rest := Print(UpToLastNumber(STAMP_FORMAT.rest), a[1..]);
    assert StampDigits(t, micro) == PrintInt(a[0], 4) + rest by {
      PrintNum(4, UpToLastNumber(STAMP_FORMAT.rest), a);
    }
    assert PrintInt(a[0], 4) == Dec(a[0]);
    assert Dec(a[0]) + rest + tail == Dec(a[0]) + (rest + tail);
    FifthDigitStops(Dec(a[0]), rest + tail);
  }

  lemma PrintNum(width: nat, rest: Format, args: seq<int>)
    requires |args| == 1 + Conversions(rest)
    ensures Print(Num(width, rest), args) == PrintInt(args[0], width) + Print(rest, args[1..])
  {
  }

  lemma FifthDigitStops(digits: string, rest: string)
    requires |digits| > 4 && AllDigits(digits)
    ensures |Scan(STAMP_FORMAT, digits + rest)| == 1
  {
    hide ScanInt;
    var behind := digits[4..] + rest;
    assert digits + rest == digits[..4] + behind;
    ScanDigits(digits[..4], behind, 4);
    assert behind[0] == digits[4];
  }

  // ----- the value --------------------------------------------------------------------------

  predicate Numeral(t: string) {
    forall i :: 0 <= i < |t| ==> IsDigit(t[i]) || t[i] == '-' || t[i] == '.'
  }

  lemma NumbersAreNumerals(t: string)
    requires IsInteger(t) || IsFloat(t)
    ensures Numeral(t)
  {
    var b := Body(t);
    assert Numeral(b) ==> Numeral(t) by {
      assert t != b ==> t == ['-'] + b;
    }
    if IsFloat(t) {
      var k :| 0 <= k < |b| && SplitsAt(b, k);
      assert b == b[..k] + [b[k]] + b[k + 1..];
    }
  }

  lemma WordIsNoNumber(text: string)
    requires IsFloatWord(text)
    ensures !IsInteger(text) && !IsFloat(text)
    ensures forall i :: 0 <= i < |text| ==> IsWordChar(text[i]) || text[i] == '-'
  {
    var b := Body(text);
    assert text == b || text == ['-'] + b;
    assert !IsDigit(b[0]) && b[0] != '.';
    forall k | 0 <= k < |b|
      ensures !SplitsAt(b, k)
    {
      assert k > 0 ==> b[..k][0] == b[0];
    }
  }

  /** The text of a number, printed or decoded, has no byte that ends a value or a column. */
  lemma NumberTextIsFree(v: Value, c: char)
    requires Held(v) && !v.Str?
    requires EndsValue(c) || c == VT || c == ','
    ensures c !in ValueText(v)
  {
    hide IsInteger, IsFloat, IsFloatWord, PrintInt;
    match v
    case I32(n) => PrintIntIsFreeOf(n, 0, c);
    case F32(text) =>
      if IsFloat(text) {
        NumbersAreNumerals(text);
      } else {
        WordIsNoNumber(text);
      }
  }

  lemma PrintedIntIsInteger(n: int)
    ensures IsInteger(PrintInt(n, 0))
  {
    hide Dec;
    if n < 0 {
      assert PrintInt(n, 0)[1..] == Dec(-n);
    } else {
      assert IsDigit(Dec(n)[0]);
    }
  }

  lemma Int32Length(n: int)
    requires IsInt32(n)
    ensures |PrintInt(n, 0)| <= 11
  {
    hide Dec;
    assert Pow10(4) == 10000;
    assert Pow10(8) == 100000000;
    assert Pow10(10) == 10000000000;
    DecLength(if n < 0 then -n else n, 10);
  }

  predicate Plain(t: string) {
    forall i :: 0 <= i < |t| ==> !EndsValue(t[i]) && t[i] != VT
  }

  lemma NumberTextIsPlain(v: Value)
    requires Held(v) && !v.Str?
    ensures Plain(ValueText(v))
  {
    hide ValueText;
    var t := ValueText(v);
    forall i | 0 <= i < |t|
      ensures !EndsValue(t[i]) && t[i] != VT
    {
      if EndsValue(t[i]) || t[i] == VT {
        NumberTextIsFree(v, t[i]);
      }
    }
  }

  /** A value comes back from its line exactly when it fits and its text does not look like another type. */
  lemma ValueRoundTrip(v: Value, tail: string, stale: string)
    requires Held(v) && |stale| == VALUE_STRING_MAX_SIZE && VT !in stale
    requires tail == [] || EndsValue(tail[0])
    ensures DecodedValue(ValueText(v) + tail, stale) == Ok(v) <==> ValueReturns(v)
  {
    hide IsInteger, IsFloat, IsFloatWord, Atoi, PrintInt, DecodedValue, Line, CText.Value;
    var t := ValueText(v);
    if v.I32? {
      PrintedIntIsInteger(v.n);
      Int32Length(v.n);
      AtoiPrinted(v.n);
      AtoiOfInteger(t);
    }
    if !v.Str? {
      NumberTextIsPlain(v);
    }
    if v.F32? && !IsFloat(t) {
      WordIsNoNumber(t);
    }
    if Plain(t) {
      LineOf(t, tail);
      Classification(t + tail, stale);
      Disjoint(t);
    } else {
      BadStringIsLost(v.s, tail, stale);
    }
  }

  lemma DecodedStr(text: string, stale: string)
    requires |stale| == VALUE_STRING_MAX_SIZE
    ensures var r := DecodedValue(text, stale);
            r.Ok? && r.value.Str? ==>
              && |Line(text)| < VALUE_STRING_MAX_SIZE
              && r.value.s <= Stored(Line(text), stale)
  {
  }

  /** A string with a line end or a vertical tab comes back cut or changed. */
  lemma BadStringIsLost(s: string, tail: string, stale: string)
    requires '\0' !in s && !Plain(s)
    requires |stale| == VALUE_STRING_MAX_SIZE && VT !in stale
    ensures DecodedValue(s + tail, stale) != Ok(Str(s))
  {
    hide DecodedValue, Run;
    var text := s + tail;
    var i :| 0 <= i < |s| && (EndsValue(s[i]) || s[i] == VT);
    DecodedStr(text, stale);
    var r := DecodedValue(text, stale);
    if r.Ok? && r.value.Str? && |r.value.s| == |s| {
      assert Line(text)[i] == s[i];
      assert r.value.s[i] == stale[i];
    }
  }

  // ----- the datapoint ----------------------------------------------------------------------

  lemma StampTextIsFree(t: int, micro: int)
    ensures ',' !in StampText(t, micro) && '\n' !in StampText(t, micro)
  {
    StampConversions();
    PrintIsFreeOf(STAMP_FORMAT, StampArgs(t, micro), ',');
    PrintIsFreeOf(STAMP_FORMAT, StampArgs(t, micro), '\n');
  }

  /** The first comma of a stamped line follows the stamp. */
  lemma FirstComma(stamp: string, rest: string)
    requires ',' !in stamp
    ensures Find(stamp + [','] + rest, [','], 0) == |stamp|
    ensures (stamp + [','] + rest)[|stamp| + 1..] == rest
  {
    var text := stamp + [','] + rest;
    assert text[0..|stamp|] == stamp;
    FindChar(text, ',', 0, |stamp|);
  }

  /**
    What follows the digits of a stamp, up to the comma, is not looked at: with any text in the place
    of the `Z`, a zone offset too, the datapoint comes back exactly when its stamp and its value do.
   */
  lemma ZoneIsIgnored(p: Point, zone: string, tail: string, stale: string)
    requires Held(p.value) && 0 < p.timestamp && ',' !in zone
    requires |stale| == VALUE_STRING_MAX_SIZE && VT !in stale
    requires tail == [] || EndsValue(tail[0])
    ensures var text := StampDigits(p.timestamp, p.micro) + zone + [','] + (ValueText(p.value) + tail);
            DecodedPoint(text, stale) == Ok(p) <==> PointReturns(p)
  {
    hide StampText, StampDigits, Scan, DecodedValue, CivilOf, ValueText, Find, ValueReturns;
    var digits, rest := StampDigits(p.timestamp, p.micro), ValueText(p.value) + tail;
    var buffer := digits + zone + [','] + rest;
    StampEndsInZ(p.timestamp, p.micro);
    StampTextIsFree(p.timestamp, p.micro);
    FirstComma(digits + zone, rest);
    ValueRoundTrip(p.value, tail, stale);
    assert buffer == digits + (zone + [','] + rest);
    if CivilOf(p.timestamp).year + YEAR0 > 9999 {
      LongYearFails(p.timestamp, p.micro, zone + [','] + rest);
    } else if -99999 <= p.micro <= 999999 {
      StampScans(p.timestamp, p.micro, zone + [','] + rest);
      ToInt32IsMinusOne(p.timestamp);
    } else {
      ScannedRanges(buffer);
    }
  }

  /** A stamped datapoint comes back exactly when its stamp and its value do. */
  lemma StampedRoundTrip(p: Point, tail: string, stale: string)
    requires Held(p.value) && 0 < p.timestamp
    requires |stale| == VALUE_STRING_MAX_SIZE && VT !in stale
    requires tail == [] || EndsValue(tail[0])
    ensures DecodedPoint(StampColumn(p) + ValueText(p.value) + tail, stale) == Ok(p) <==> PointReturns(p)
  {
    hide StampText, StampDigits, DecodedPoint, ValueText, PointReturns;
    ZoneIsIgnored(p, ['Z'], tail, stale);
    StampEndsInZ(p.timestamp, p.micro);
    RegroupText(StampDigits(p.timestamp, p.micro) + ['Z'] + [','], ValueText(p.value), tail);
  }

  lemma RegroupText(a: string, b: string, c: string)
    ensures a + b + c == a + (b + c)
  {
  }

  /** Without a stamp the decoder takes a part of the value for the stamp, or finds none. */
  lemma UnstampedIsLost(p: Point, stale: string)
    requires Held(p.value) && p.timestamp == 0
    requires |stale| == VALUE_STRING_MAX_SIZE
    ensures DecodedPoint(PointText(p), stale) != Ok(p)
  {
    var text := PointText(p);
    var comma := Find(text, [','], 0);
    if comma >= 0 {
      assert text[comma..comma + 1][0] == ',';
      var rest := text[comma + 1..];
      DecodedStr(rest, stale);
      assert rest[|rest| - 1] == '\n';
      if !p.value.Str? {
        NumberTextIsFree(p.value, ',');
      }
    }
  }

  /**
    For every datapoint a program can hold, floats being known by their text: `csv_decode_datapoint` of what
    `csv_encode_datapoint_in_place` wrote is the same datapoint if and only if its stamp is after the
    epoch, prints in the format's widths and is not -1 as an `int`, and its value fits the buffer and
    does not read as another type; a float is then finite.
   */
  lemma PointRoundTrip(p: Point, stale: string)
    requires Held(p.value) && 0 <= p.timestamp
    requires |stale| == VALUE_STRING_MAX_SIZE && VT !in stale
    ensures DecodedPoint(PointText(p), stale) == Ok(p) <==> PointReturns(p)
  {
    hide DecodedPoint, StampColumn, ValueText;
    if p.timestamp == 0 {
      UnstampedIsLost(p, stale);
    } else {
      StampedRoundTrip(p, ['\n'], stale);
    }
  }
}
