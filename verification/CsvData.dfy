/** `csv_data.c`: the encoders, which write bounded buffers in place, and the datapoint decoder. */
module CsvData {
  import opened CInt
  import opened XiErr
  import opened CText
  import opened Calendar
  import opened XiTime
  import opened Xively
  import opened CsvValue
  import opened CsvPoint

  /** Whether a datapoint's line and its NUL fit `size` bytes. */
  predicate PointFits(p: Point, size: nat) {
    !p.value.NoValue? && |PointText(p)| < size
  }

  /** The first part of the encoder: the timestamp column, unless the timestamp is zero. */
  method EncodeStamp(buffer: array<char>, at: nat, size: nat, p: Point, clock: Clock, err: ErrorCell)
    returns (ok: bool, offset: nat)
    requires at + size <= buffer.Length && 0 <= p.timestamp
    modifies buffer, clock.brTime, err
    ensures SameOutside(old(buffer[..]), buffer[..], at, size)
    ensures ok <==> p.timestamp == 0 || |StampColumn(p)| < size
    ensures ok ==> offset == |StampColumn(p)| <= size && buffer[at..at + offset] == StampColumn(p)
    ensures err.last == if ok then old(err.last) else CsvEncodeDatapointBufferOverrun
  {
    hide Print, CivilOf, Canonical, Instant, YearDay, StampColumn;
    ok, offset := true, 0;
    if p.timestamp != 0 {
      var gmtinfo := clock.Gmtime(p.timestamp);
      StampConversions();
      var text := Print(STAMP_FORMAT,
        [gmtinfo.year + 1900, gmtinfo.mon + 1, gmtinfo.mday, gmtinfo.hour, gmtinfo.min, gmtinfo.sec,
         ToInt32(p.micro)]) + [','];
      StampOfFields(p, gmtinfo.Fields());
      assert text == StampColumn(p);
      ok, offset := Append(buffer, at, size, offset, text, err, CsvEncodeDatapointBufferOverrun);
    } else {
      NoStamp(p);
    }
  }

  /**
    `csv_encode_datapoint_in_place` on the `size` bytes from `at`: it writes exactly the datapoint's
    line, or fails when the line and its NUL do not fit or the value has no type.
   */
  method EncodeDatapointInPlace(buffer: array<char>, at: nat, size: nat, p: Point, clock: Clock, err: ErrorCell)
    returns (r: int)
    requires at + size <= buffer.Length && 0 <= p.timestamp
    modifies buffer, clock.brTime, err
    ensures SameOutside(old(buffer[..]), buffer[..], at, size)
    ensures if PointFits(p, size)
            then r == |PointText(p)| && err.last == old(err.last)
                 && Holds(old(buffer[..]), buffer[..], at, size, PointText(p))
            else r == -1 && err.last == CsvEncodeDatapointBufferOverrun
  {
    hide SameOutside, ValueText, StampColumn;
    NoStamp(p);
    ghost var b0 := buffer[..];
    var ok, offset := EncodeStamp(buffer, at, size, p, clock, err);
    if !ok {
      return -1;
    }
    if p.value.NoValue? {
      err.Set(CsvEncodeDatapointBufferOverrun);
      return -1;
    }
    ghost var b1 := buffer[..];
    ok, offset := Append(buffer, at, size, offset, ValueText(p.value), err, CsvEncodeDatapointBufferOverrun);
    SameOutsideTwice(b0, b1, buffer[..], at, size);
    if !ok {
      return -1;
    }
    ghost var b2 := buffer[..];
    ok, offset := Append(buffer, at, size, offset, ['\n'], err, CsvEncodeDatapointBufferOverrun);
    SameOutsideTwice(b0, b2, buffer[..], at, size);
    if !ok {
      return -1;
    }
    assert buffer[..][at..at + offset] == buffer[at..at + offset] == PointText(p);
    return offset;
  }

  lemma NoStamp(p: Point)
    ensures p.timestamp == 0 ==> StampColumn(p) == []
  {
  }

  lemma StampOfFields(p: Point, c: Civil)
    requires c == CivilOf(p.timestamp) && p.timestamp != 0 && Conversions(STAMP_FORMAT) == 7
    ensures Print(STAMP_FORMAT, [c.year + 1900, c.mon + 1, c.mday, c.hour, c.min, c.sec, ToInt32(p.micro)]) + [',']
            == StampColumn(p)
  {
    hide Print, CivilOf;
  }

  /** `csv_encode_datapoint`: the same on a buffer of its own. */
  method EncodeDatapoint(local: array<char>, p: Point, clock: Clock, err: ErrorCell) returns (ok: bool)
    requires 0 <= p.timestamp
    modifies local, clock.brTime, err
    ensures ok <==> PointFits(p, local.Length)
    ensures ok ==> CStr(local[..]) == CStr(PointText(p)) && PointText(p) <= local[..]
    ensures err.last == if ok then old(err.last) else CsvEncodeDatapointBufferOverrun
  {
    hide PointText;
    var r := EncodeDatapointInPlace(local, 0, local.Length, p, clock, err);
    ok := r != -1;
    if ok {
      BufferReads(local[..], PointText(p));
    }
  }

  lemma BufferReads(buffer: string, text: string)
    requires |text| < |buffer| && buffer[0..0 + |text|] == text && buffer[|text|] == '\0'
    ensures CStr(buffer) == CStr(text) && text <= buffer
  {
    CStrPrefix(text, buffer[|text|..]);
    assert buffer == text + buffer[|text|..];
  }

  /** The body of a request that creates a datastream: the id, a comma and the datapoint's line. */
  function DatastreamText(id: string, p: Point): string
    requires !p.value.NoValue?
  {
    id + [','] + PointText(p)
  }

  /** `csv_encode_create_datastream`. */
  method EncodeCreateDatastream(local: array<char>, id: string, p: Point, clock: Clock, err: ErrorCell)
    returns (ok: bool)
    requires 0 <= p.timestamp
    modifies local, clock.brTime, err
    ensures ok <==> !p.value.NoValue? && |DatastreamText(id, p)| < local.Length
    ensures ok ==> Holds(old(local[..]), local[..], 0, local.Length, DatastreamText(id, p))
    ensures err.last == if ok then old(err.last) else CsvEncodeDatastreamBufferOverrun
  {
    hide PointText;
    var size, offset := local.Length, 0;
    ok, offset := Append(local, 0, size, offset, id + [','], err, CsvEncodeDatastreamBufferOverrun);
    if !ok {
      return false;
    }
    ghost var before := local[..];
    assert before[..offset] == id + [','] by {
      assert local[0..0 + offset] == local[..][..offset];
    }
    var s := EncodeDatapointInPlace(local, offset, size - offset, p, clock, err);
    if s >= size - offset || s < 0 {
      err.Set(CsvEncodeDatastreamBufferOverrun);
      return false;
    }
    assert local[..][..offset + s] == DatastreamText(id, p);
    ok := true;
  }

  // ----- csv_decode_datapoint ---------------------------------------------------------------

  lemma {:induction false} YearBounds(y: int)
    requires y >= EPOCH_YR
    ensures 365 * (y - EPOCH_YR) <= DaysBeforeYear(y) <= 366 * (y - EPOCH_YR)
    decreases y
  {
    if y > EPOCH_YR {
      YearBounds(y - 1);
    }
  }

  /** Scanned fields are far from the range of `int`. */
  lemma ScannedYear(s: string)
    requires |Scan(STAMP_FORMAT, s)| == 7
    ensures CivilOf(Instant(ScannedFields(Scan(STAMP_FORMAT, s)))).year + YEAR0 <= INT_MAX
  {
    hide Scan, CivilOf, IsLeap, DaysBeforeYear, DaysBeforeMonth;
    var c := ScannedFields(Scan(STAMP_FORMAT, s));
    ScannedRanges(s);
    var y := YEAR0 + c.year + c.mon / 12;
    assert y <= 10010;
    YearsUpTo(y);
    MonthStartsInYear(y, c.mon % 12);
    assert DayOf(c) <= 366 * 10000;
    var d := CivilOf(Instant(c));
    if d.year + YEAR0 > 20000 {
      MonthStartsInYear(d.year + YEAR0, d.mon);
      YearBounds(d.year + YEAR0);
      DayInMonth(d);
    }
  }

  lemma YearsUpTo(y: int)
    requires y <= 10010
    ensures DaysBeforeYear(y) <= 366 * 8040
  {
    YearBounds(10010);
    if y < 10010 {
      YearsGrow(y, 10010);
    }
  }

  /** Whether the stamp of a text is read without an error. */
  predicate StampReads(buffer: string) {
    var ns := Scan(STAMP_FORMAT, buffer);
    Find(buffer, [','], 0) >= 0 && |ns| == 7 && ToInt32(MktimeValue(ScannedFields(ns))) != -1
  }

  /** `csv_decode_datapoint`. */
  method DecodeDatapoint(buffer: string, p: Datapoint, err: ErrorCell) returns (ok: bool)
    requires p.Valid()
    modifies p, p.str, err
    ensures match old(DecodedPoint(buffer, p.str[..]))
            case Ok(q) => ok && p.GetPoint() == q && err.last == old(err.last)
            case Err(e) => !ok && err.last == e
    ensures !StampReads(buffer) ==> unchanged(p) && unchanged(p.str)
  {
    hide Find, Scan, MktimeValue, CivilOf, Instant, DecodedValue;
    var comma := Find(buffer, [','], 0);
    if comma < 0 {
      err.Set(CsvDecodeDatapointParserError);
      return false;
    }
    var ns := Scan(STAMP_FORMAT, buffer);
    if |ns| != 7 {
      err.Set(CsvDecodeDatapointParserError);
      return false;
    }
    var timeinfo := new Tm(ScannedFields(ns));
    ScannedYear(buffer);
    var timestamp := Mktime(timeinfo);
    if ToInt32(timestamp) == -1 {
      err.Set(CsvTimeConvertionError);
      return false;
    }
    p.timestamp := timestamp;
    p.micro := ns[6];
    FindInside(buffer, ',');
    ok := DecodeValue(buffer[comma + 1..], p, err);
    if !ok {
      err.Set(CsvDecodeDatapointParserError);
    }
  }
}
