/** The bytes of a timestamp and of a datapoint's line, position by position; section 5.6 of RFC 3339. */
module StampShape {
  import opened CInt
  import opened XiErr
  import opened CText
  import opened Calendar
  import opened XiTime
  import opened Xively
  import opened CsvValue
  import opened CsvPoint
  import opened CsvData

  /** YYYY-MM-DDThh:mm:ss.uuuuuuZ, with any digits. */
  predicate IsStamp(s: string) {
    && |s| == 27
    && s[4] == '-' && s[7] == '-' && s[10] == 'T' && s[13] == ':' && s[16] == ':' && s[19] == '.' && s[26] == 'Z'
    && AllDigits(s[..4]) && AllDigits(s[5..7]) && AllDigits(s[8..10]) && AllDigits(s[11..13])
    && AllDigits(s[14..16]) && AllDigits(s[17..19]) && AllDigits(s[20..26])
  }

  // ----- what is printed --------------------------------------------------------------------

  /** A stretch of `n` digits that write a number. */
  predicate Writes(s: string, n: int, width: nat) {
    |s| == width && AllDigits(s) && CText.Value(s) == n
  }

  /** From some position on a text is a number of fixed width, a character and the rest of a format. */
  lemma NumberAt(s: string, at: nat, width: nat, c: char, rest: Format, args: seq<int>, k: nat)
    requires k + 1 + Conversions(rest) == |args| && at <= |s|
    requires width >= 1 && 0 <= args[k] < Pow10(width)
    requires s[at..] == Print(Num(width, Chr(c, rest)), args[k..])
    ensures var behind := at + width;
            && behind + 1 <= |s| && Writes(s[at..behind], args[k], width) && s[behind] == c
            && s[behind + 1..] == Print(rest, args[k + 1..])
  {
    hide PadLeft, Dec, CText.Value, Pow10;
    PaddedExact(args[k], width);
    var first := PrintInt(args[k], width);
    assert args[k..][1..] == args[k + 1..];
    var tail := s[at..];
    assert tail == first + ([c] + Print(rest, args[k + 1..]));
    assert s[at..at + width] == tail[..width] == first;
    assert s[at + width] == tail[width];
    assert s[at + width + 1..] == tail[width + 1..];
  }

  /** The 27 bytes of a printed stamp: the separators in their places, and digits that write the fields. */
  lemma StampBytes(t: int, micro: int)
    requires 0 <= t && CivilOf(t).year + 1900 <= 9999 && 0 <= micro <= 999999
    ensures var s, c := StampText(t, micro), CivilOf(t);
            && IsStamp(s)
            && CText.Value(s[..4]) == c.year + 1900 && CText.Value(s[5..7]) == c.mon + 1
            && CText.Value(s[8..10]) == c.mday && CText.Value(s[11..13]) == c.hour
            && CText.Value(s[14..16]) == c.min && CText.Value(s[17..19]) == c.sec
            && CText.Value(s[20..26]) == micro
  {
    hide CivilOf, Instant, Print, CText.Value, Pow10, IsLeap;
    StampConversions();
    CanonicalRanges(CivilOf(t));
    PowersOfTen();
    StampParts(StampArgs(t, micro), StampText(t, micro));
  }

  lemma StampParts(a: seq<int>, s: string)
    requires |a| == 7 == Conversions(STAMP_FORMAT) && s == Print(STAMP_FORMAT, a)
    requires 0 <= a[0] < Pow10(4) && 0 <= a[6] < Pow10(6)
    requires forall i :: 1 <= i < 6 ==> 0 <= a[i] < Pow10(2)
    ensures |s| == 27
    ensures s[4] == '-' && s[7] == '-' && s[10] == 'T' && s[13] == ':' && s[16] == ':' && s[19] == '.' && s[26] == 'Z'
    ensures Writes(s[..4], a[0], 4) && Writes(s[5..7], a[1], 2) && Writes(s[8..10], a[2], 2) && Writes(s[11..13], a[3], 2)
    ensures Writes(s[14..16], a[4], 2) && Writes(s[17..19], a[5], 2) && Writes(s[20..26], a[6], 6)
  {
    var f6 := Num(6, Chr('Z', End));
    var f5 := Num(2, Chr('.', f6));
    var f4 := Num(2, Chr(':', f5));
    var f3 := Num(2, Chr(':', f4));
    var f2 := Num(2, Chr('T', f3));
    var f1 := Num(2, Chr('-', f2));
    assert STAMP_FORMAT == Num(4, Chr('-', f1));
    assert Conversions(f3) == 4 && Conversions(f1) == 6;
    assert Print(End, a[7..]) == [];
    hide Print, Writes, Pow10, Conversions;
    assert s[0..] == s && a[0..] == a;
    NumberAt(s, 0, 4, '-', f1, a, 0);
    NumberAt(s, 5, 2, '-', f2, a, 1);
    NumberAt(s, 8, 2, 'T', f3, a, 2);
    NumberAt(s, 11, 2, ':', f4, a, 3);
    NumberAt(s, 14, 2, ':', f5, a, 4);
    NumberAt(s, 17, 2, '.', f6, a, 5);
    NumberAt(s, 20, 6, 'Z', End, a, 6);
    assert s[27..] == [];
    assert s[0..4] == s[..4];
  }

  // ----- what is read -----------------------------------------------------------------------

  /** Digits of the full width, then a character the format wants. */
  lemma ScanAt(s: string, at: nat, width: nat, c: char, rest: Format)
    requires width >= 1 && at + width + 1 <= |s| && AllDigits(s[at..at + width]) && s[at + width] == c
    ensures Scan(Num(width, Chr(c, rest)), s[at..])
            == [CText.Value(s[at..at + width]) as int] + Scan(rest, s[at + width + 1..])
  {
    hide CText.Value, ScanInt;
    var digits, behind := s[at..at + width], s[at + width..];
    assert s[at..] == digits + behind;
    ScanDigits(digits, behind, width);
    assert behind[0] == c && behind[1..] == s[at + width + 1..];
  }

  /** Every text that starts with a stamp, whatever its digits, is read as the seven numbers they write. */
  lemma StampIsRead(s: string, rest: string)
    requires IsStamp(s)
    ensures Scan(STAMP_FORMAT, s + rest) ==
            [CText.Value(s[..4]), CText.Value(s[5..7]), CText.Value(s[8..10]), CText.Value(s[11..13]),
             CText.Value(s[14..16]), CText.Value(s[17..19]), CText.Value(s[20..26])]
  {
    var text := s + rest;
    SlicesOf(s, rest);
    assert |text| >= 27;
    var f6 := Num(6, Chr('Z', End));
    var f5 := Num(2, Chr('.', f6));
    var f4 := Num(2, Chr(':', f5));
    var f3 := Num(2, Chr(':', f4));
    var f2 := Num(2, Chr('T', f3));
    var f1 := Num(2, Chr('-', f2));
    assert STAMP_FORMAT == Num(4, Chr('-', f1));
    assert Scan(End, text[27..]) == [];
    hide Scan, CText.Value;
    ScanAt(text, 0, 4, '-', f1);
    ScanAt(text, 5, 2, '-', f2);
    ScanAt(text, 8, 2, 'T', f3);
    ScanAt(text, 11, 2, ':', f4);
    ScanAt(text, 14, 2, ':', f5);
    ScanAt(text, 17, 2, '.', f6);
    ScanAt(text, 20, 6, 'Z', End);
    assert text[0..] == text;
    Seven(CText.Value(s[..4]), CText.Value(s[5..7]), CText.Value(s[8..10]), CText.Value(s[11..13]),
      CText.Value(s[14..16]), CText.Value(s[17..19]), CText.Value(s[20..26]));
  }

  lemma Seven(a: int, b: int, c: int, d: int, e: int, f: int, g: int)
    ensures [a] + ([b] + ([c] + ([d] + ([e] + ([f] + ([g] + [])))))) == [a, b, c, d, e, f, g]
  {
  }

  lemma SlicesOf(s: string, rest: string)
    requires |s| == 27
    ensures var text := s + rest;
            && text[0..4] == s[..4] && text[5..7] == s[5..7] && text[8..10] == s[8..10] && text[11..13] == s[11..13]
            && text[14..16] == s[14..16] && text[17..19] == s[17..19] && text[20..26] == s[20..26]
            && forall i :: 0 <= i < 27 ==> text[i] == s[i]
  {
  }

  /** The instant the digits of a stamp denote, fields out of range carried as `xi_mktime` does. */
  function InstantOf(s: string): int
    requires IsStamp(s)
  {
    Instant(Civil(sec := CText.Value(s[17..19]), min := CText.Value(s[14..16]), hour := CText.Value(s[11..13]),
                  mday := CText.Value(s[8..10]), mon := CText.Value(s[5..7]) - 1, year := CText.Value(s[..4]) - 1900))
  }

  /**
    A stamp, a comma and a value are decoded to the instant and microseconds the digits write and the
    value behind the comma, unless the instant is before the epoch or -1 as an `int`.
   */
  lemma StampedLineIsDecoded(s: string, rest: string, stale: string)
    requires IsStamp(s) && |stale| == VALUE_STRING_MAX_SIZE
    ensures var r, t := DecodedPoint(s + "," + rest, stale), InstantOf(s);
            if t < 0 || t % 0x1_0000_0000 == 0xFFFF_FFFF then r == Err(CsvTimeConvertionError)
            else match DecodedValue(rest, stale)
                 case Err(_) => r == Err(CsvDecodeDatapointParserError)
                 case Ok(v) => r == Ok(Point(v, t, CText.Value(s[20..26])))
  {
    hide Scan, CText.Value, DecodedValue, Instant, Find;
    assert s + "," + rest == s + ("," + rest);
    StampIsRead(s, "," + rest);
    StampHasNoComma(s);
    FirstComma(s, rest);
    ToInt32IsMinusOne(InstantOf(s));
  }

  lemma StampHasNoComma(s: string)
    requires IsStamp(s)
    ensures ',' !in s
  {
    assert s == s[..4] + [s[4]] + s[5..7] + [s[7]] + s[8..10] + [s[10]] + s[11..13] + [s[13]]
                + s[14..16] + [s[16]] + s[17..19] + [s[19]] + s[20..26] + [s[26]];
  }

  // ----- the line ---------------------------------------------------------------------------

  /** A value and the newline: an integer is a hyphen if it is negative and the shortest digits. */
  predicate IsValueLine(v: Value, s: string) {
    match v
    case I32(n) =>
      if n < 0 then s != [] && s[0] == '-' && IsNumberLine(-n, s[1..]) else IsNumberLine(n, s)
    case F32(text) => s == text + "\n"
    case Str(text) => s == text + "\n"
    case NoValue => false
  }

  predicate IsNumberLine(n: nat, s: string) {
    && |s| >= 2 && s[|s| - 1] == '\n'
    && AllDigits(s[..|s| - 1]) && CText.Value(s[..|s| - 1]) == n && (s[0] == '0' ==> |s| == 2)
  }

  /** A stamp with its comma, and what is behind it. */
  predicate IsStampedLine(p: Point, line: string) {
    && |line| >= 28 && IsStamp(line[..27]) && line[27] == ','
    && InstantOf(line[..27]) == p.timestamp && CText.Value(line[..27][20..26]) == p.micro
    && IsValueLine(p.value, line[28..])
  }

  /** The bytes of a datapoint's line: a stamp and a comma, unless the timestamp is zero, and the value. */
  lemma LineBytes(p: Point)
    requires 0 <= p.timestamp && CivilOf(p.timestamp).year + 1900 <= 9999 && 0 <= p.micro <= 999999
    requires !p.value.NoValue?
    ensures if p.timestamp == 0 then IsValueLine(p.value, PointText(p)) else IsStampedLine(p, PointText(p))
  {
    hide CivilOf, Instant, StampText, CText.Value, PrintInt, IsValueLine, InstantOf;
    var line, v := PointText(p), ValueText(p.value) + "\n";
    ValueColumn(p.value);
    if p.timestamp > 0 {
      var stamp := StampText(p.timestamp, p.micro);
      StampBytes(p.timestamp, p.micro);
      StampOf(p.timestamp, stamp);
      assert line == stamp + [','] + v;
      BehindStamp(stamp, v);
    } else {
      assert line == v;
    }
  }

  lemma BehindStamp(stamp: string, rest: string)
    requires |stamp| == 27
    ensures var line := stamp + [','] + rest;
            |line| >= 28 && line[..27] == stamp && line[27] == ',' && line[28..] == rest
  {
  }

  lemma ValueColumn(v: Value)
    requires !v.NoValue?
    ensures IsValueLine(v, ValueText(v) + "\n")
  {
    hide IsNumberLine, PrintInt;
    if v.I32? {
      var text := PrintInt(v.n, 0);
      PrintIntForm(v.n);
      if v.n < 0 {
        NumberLine(-v.n, text[1..]);
        assert (text + "\n")[1..] == text[1..] + "\n";
      } else {
        NumberLine(v.n, text);
      }
    }
  }

  lemma NumberLine(n: nat, digits: string)
    requires digits != [] && AllDigits(digits) && CText.Value(digits) == n && (digits[0] == '0' ==> |digits| == 1)
    ensures IsNumberLine(n, digits + "\n")
  {
    hide CText.Value;
    assert (digits + "\n")[..|digits|] == digits;
  }

  lemma StampOf(t: int, s: string)
    requires IsStamp(s)
    requires var c := CivilOf(t);
             && CText.Value(s[..4]) == c.year + 1900 && CText.Value(s[5..7]) == c.mon + 1
             && CText.Value(s[8..10]) == c.mday && CText.Value(s[11..13]) == c.hour
             && CText.Value(s[14..16]) == c.min && CText.Value(s[17..19]) == c.sec
    ensures InstantOf(s) == t
  {
    hide CText.Value, IsStamp, Instant;
    var c := CivilOf(t);
    assert Civil(sec := c.sec, min := c.min, hour := c.hour, mday := c.mday, mon := c.mon, year := c.year) == c;
  }
}
