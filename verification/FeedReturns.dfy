/** Exactly which feeds come back from the body of a feed update. */
module FeedReturns {
  import opened XiErr
  import opened CText
  import opened XiTime
  import opened Xively
  import opened CsvValue
  import opened CsvPoint
  import opened CsvData
  import opened CsvFeed

  /** An entry a program can hold, its id free of the characters that separate columns and lines. */
  predicate Separable(e: Entry) {
    && ',' !in e.id && '\n' !in e.id && '\0' !in e.id
    && Held(e.point.value) && 0 <= e.point.timestamp
  }

  predicate AllSeparable(entries: seq<Entry>) {
    forall i :: 0 <= i < |entries| ==> Separable(entries[i])
  }

  // ----- lines and newlines -----------------------------------------------------------------

  function Newlines(s: string): nat {
    if s == [] then 0 else (if s[0] == '\n' then 1 else 0) + Newlines(s[1..])
  }

  lemma {:induction false} NewlinesOfBoth(a: string, b: string)
    ensures Newlines(a + b) == Newlines(a) + Newlines(b)
  {
    if a == [] {
      assert a + b == b;
    } else {
      assert (a + b)[1..] == a[1..] + b;
      NewlinesOfBoth(a[1..], b);
    }
  }

  lemma {:induction false} NoNewlines(s: string)
    ensures Newlines(s) == 0 <==> '\n' !in s
  {
    if s != [] {
      NoNewlines(s[1..]);
      assert s == [s[0]] + s[1..];
    }
  }

  /** A text that decodes has a newline between any two of its entries and no other. */
  lemma {:induction false} DecodedLines(current: string, counter: nat)
    ensures var read := DecodedFeed(current, counter);
            read.Some? ==> |read.value| == Newlines(current) + 1 && (counter < MAX_DATASTREAMS ==> counter + |read.value| < MAX_DATASTREAMS)
    decreases |current|
  {
    hide DecodedLine;
    FindInside(current, '\n');
    var end := Find(current, ['\n'], 0);
    if DecodedFeed(current, counter).Some? {
      if end < 0 {
        NotBefore(current, '\n', |current|);
        assert current[..|current|] == current;
        NoNewlines(current);
      } else {
        NotBefore(current, '\n', end);
        NoNewlines(current[..end]);
        assert current[end..end + 1][0] == '\n';
        assert current == current[..end] + (['\n'] + current[end + 1..]);
        NewlinesOfBoth(current[..end], ['\n'] + current[end + 1..]);
        assert (['\n'] + current[end + 1..])[1..] == current[end + 1..];
        DecodedLines(current[end + 1..], counter + 1);
      }
    }
  }

  lemma {:induction false} FeedNewlines(entries: seq<Entry>)
    requires AllSeparable(entries)
    ensures Newlines(FeedText(entries)) >= |entries|
    ensures Newlines(FeedText(entries)) == |entries| ==>
              forall i :: 0 <= i < |entries| ==> '\n' !in LineText(entries[i])
  {
    hide LineText, FeedText, Separable;
    if entries == [] {
      EmptyFeed();
    } else {
      AllTypedHere(entries);
      var line, rest := LineText(entries[0]), FeedText(entries[1..]);
      FeedTextFirst(entries);
      NewlinesOfBoth(line, ['\n'] + rest);
      assert (['\n'] + rest)[1..] == rest;
      NoNewlines(line);
      FeedNewlines(entries[1..]);
      assert forall i :: 1 <= i < |entries| ==> entries[i] == entries[1..][i - 1];
    }
  }

  lemma AllTypedHere(entries: seq<Entry>)
    requires AllSeparable(entries)
    ensures AllTyped(entries)
  {
  }

  lemma EmptyFeed()
    ensures FeedText([]) == [] && Newlines([]) == 0
  {
  }

  // ----- datapoints without a stamp ---------------------------------------------------------

  /** A decimal conversion that has nothing to skip ends at the latest behind the last digit. */
  lemma ScannedLength(s: string, width: nat) returns (k: nat)
    requires s != [] && !IsSpace(s[0]) && ScanInt(s, width).Some?
    ensures 1 <= k <= |s| && ScanInt(s, width).value.1 == s[k..]
    ensures forall i :: 1 <= i < k ==> IsDigit(s[i])
  {
    NoSpace(s);
    if (s[0] == '-' || s[0] == '+') && width > 0 {
      var n := DigitRun(s[1..], width - 1);
      k := 1 + n;
      assert forall i :: 1 <= i < k ==> s[1..][..n][i - 1] == s[i];
    } else {
      k := DigitRun(s, width);
      assert forall i :: 0 <= i < k ==> s[..k][i] == s[i];
    }
  }

  /** The text of a number does not start with white space and has a hyphen at its front only. */
  lemma NumberShape(v: Value)
    requires Held(v) && !v.Str?
    ensures var t := ValueText(v); t != [] && !IsSpace(t[0]) && '-' !in t[1..]
  {
    var t := ValueText(v);
    if v.I32? {
      hide Dec;
      assert v.n < 0 ==> t[1..] == Dec(-v.n);
      assert AllDigits(Dec(if v.n < 0 then -v.n else v.n));
    } else {
      BodyOrHyphen(t);
      if IsFloat(t) {
        FloatBody(t);
      }
    }
  }

  lemma FloatBody(t: string)
    requires IsFloat(t)
    ensures forall i :: 0 <= i < |Body(t)| ==> IsDigit(Body(t)[i]) || Body(t)[i] == '.'
  {
    var b := Body(t);
    var k :| 0 <= k < |b| && SplitsAt(b, k);
    hide Body;
    assert b == b[..k] + [b[k]] + b[k + 1..];
  }

  lemma BodyOrHyphen(t: string)
    ensures t == Body(t) || t == ['-'] + Body(t)
  {
  }

  /** A number is not taken for a stamp: the hyphen behind the year is missing. */
  lemma NumberIsNoStamp(v: Value, tail: string)
    requires Held(v) && !v.Str? && (tail == [] || tail[0] == '\n')
    ensures |Scan(STAMP_FORMAT, ValueText(v) + tail)| <= 1
  {
    NumberShape(v);
    hide ValueText, Held, ScanInt;
    var t, s := ValueText(v), ValueText(v) + tail;
    if ScanInt(s, 4).Some? {
      var k := ScannedLength(s, 4);
      assert tail != [] ==> s[|t|] == '\n';
      assert k <= |t|;
      assert k < |t| ==> s[k] == t[1..][k - 1];
    }
  }

  /** The comma before the value lies in the value itself: what is decoded is shorter. */
  lemma CommaInside(p: Point, tail: string)
    requires Held(p.value) && (tail == [] || tail[0] == '\n')
    requires Find(ValueText(p.value) + tail, [','], 0) < |ValueText(p.value)|
    ensures DecodedPoint(ValueText(p.value) + tail, Cleared()) != Ok(p)
  {
    hide Scan, ValueText, IsFloat, IsFloatWord, DecodedValue, Find, MktimeValue;
    var t := ValueText(p.value);
    var text := t + tail;
    var comma := Find(text, [','], 0);
    if comma >= 0 {
      assert text[comma..comma + 1][0] == ',';
      if !p.value.Str? {
        NumberTextIsFree(p.value, ',');
      } else {
        StrTextIsItself(p.value);
      }
      ShorterLine(t, tail, comma);
      DecodedStr(text[comma + 1..], Cleared());
    }
  }

  lemma ShorterLine(t: string, tail: string, comma: nat)
    requires comma < |t| && (tail == [] || tail[0] == '\n')
    ensures |Line((t + tail)[comma + 1..])| < |t|
  {
    hide Line;
    var rest, j := (t + tail)[comma + 1..], |t| - comma - 1;
    assert tail != [] ==> rest[j] == '\n';
  }

  lemma StampIsFreeOf(t: int, micro: int, c: char)
    requires EndsValue(c) || c == VT || c == ','
    ensures c !in StampText(t, micro)
  {
    StampConversions();
    PrintIsFreeOf(STAMP_FORMAT, StampArgs(t, micro), c);
  }

  lemma StampIsOneValue(t: int, micro: int)
    ensures var stamp := StampText(t, micro) + [','];
            forall i :: 0 <= i < |stamp| ==> !EndsValue(stamp[i]) && stamp[i] != VT
  {
    hide StampText;
    var stamp := StampText(t, micro) + [','];
    forall i | 0 <= i < |stamp|
      ensures !EndsValue(stamp[i]) && stamp[i] != VT
    {
      if EndsValue(stamp[i]) || stamp[i] == VT {
        StampIsFreeOf(t, micro, stamp[i]);
      }
    }
  }

  /** A decoded string starts with what the text starts with. */
  lemma DecodedStart(a: string, rest: string)
    requires forall i :: 0 <= i < |a| ==> !EndsValue(a[i]) && a[i] != VT
    ensures var r := DecodedValue(a + rest, Cleared());
            r.Ok? && r.value.Str? ==> a <= r.value.s
  {
    hide Line, CStr, Run;
    var text := a + rest;
    var line := Line(text);
    assert forall i :: 0 <= i < |a| ==> text[i] == a[i];
    assert |a| <= |line|;
    assert forall i :: 0 <= i < |a| ==> line[i] == a[i];
    if |line| < VALUE_STRING_MAX_SIZE {
      var stored := Stored(line, Cleared());
      assert forall i :: 0 <= i < |a| ==> stored[i] == a[i];
      assert |a| <= |CStr(stored)|;
    }
  }

  /** The comma before the value lies in a stamped line behind: the stamp is decoded with its comma. */
  lemma CommaBehind(p: Point, id: string, t: int, micro: int, rest: string)
    requires Held(p.value) && ',' !in ValueText(p.value) && ',' !in id
    ensures var tail := ['\n'] + id + [','] + (StampText(t, micro) + [','] + rest);
            DecodedPoint(ValueText(p.value) + tail, Cleared()) != Ok(p)
  {
    hide StampText, Scan, DecodedValue, Find, ValueText;
    var v := ValueText(p.value);
    var stamp := StampText(t, micro) + [','];
    var tail := ['\n'] + id + [','] + (stamp + rest);
    if p.value.Str? {
      StampIsOneValue(t, micro);
      DecodedStart(stamp, rest);
      assert ',' !in v + ['\n'] + id by {
        NoCommaInBoth(v, id);
      }
      FirstComma(v + ['\n'] + id, stamp + rest);
      RegroupLine(v, id, stamp + rest);
      StrTextIsItself(p.value);
      assert stamp[|stamp| - 1] == ',';
    } else {
      NumberIsNoStamp(p.value, tail);
    }
  }

  lemma NoCommaInBoth(v: string, id: string)
    requires ',' !in v && ',' !in id
    ensures ',' !in v + ['\n'] + id
  {
  }

  lemma RegroupLine(v: string, id: string, rest: string)
    ensures v + (['\n'] + id + [','] + rest) == v + ['\n'] + id + [','] + rest
  {
  }

  lemma StrTextIsItself(v: Value)
    requires v.Str?
    ensures ValueText(v) == v.s
  {
  }

  // ----- the exact condition ----------------------------------------------------------------

  /** The line behind an entry carries a stamp. */
  ghost predicate StampedNext(tail: string, next: Option<Entry>) {
    match next
    case None => tail == []
    case Some(e) =>
      && Separable(e) && 0 < e.point.timestamp
      && exists rest :: tail == ['\n'] + (LineText(e) + rest)
  }

  lemma TailOfNext(e: Entry, rest: string)
    requires Held(e.point.value) && e.point.timestamp != 0
    ensures ['\n'] + (LineText(e) + rest)
            == ['\n'] + e.id + [','] + (StampText(e.point.timestamp, e.point.micro) + [','] + (ValueText(e.point.value) + rest))
  {
    hide StampText, ValueText;
  }

  /** An entry that was read back is stamped, and its stamp and value return. */
  lemma PointMustReturn(p: Point, tail: string, next: Option<Entry>)
    requires Held(p.value) && 0 <= p.timestamp && StampedNext(tail, next)
    ensures DecodedPoint(StampColumn(p) + ValueText(p.value) + tail, Cleared()) == Ok(p) ==> PointReturns(p)
  {
    hide ValueText, DecodedPoint, PointReturns, StampText, IsFloat, IsFloatWord, LineText, Find;
    var v := ValueText(p.value);
    if DecodedPoint(StampColumn(p) + ValueText(p.value) + tail, Cleared()) == Ok(p) {
      assert tail == [] || tail[0] == '\n';
      if p.timestamp > 0 {
        StampedRoundTrip(p, tail, Cleared());
      } else {
        assert StampColumn(p) + v + tail == v + tail;
        if Find(v + tail, [','], 0) < |v| {
          CommaInside(p, tail);
        } else {
          NotBefore(v + tail, ',', |v|);
          assert (v + tail)[..|v|] == v;
          if next.None? {
            FindInside(v + tail, ',');
          } else {
            var rest :| tail == ['\n'] + (LineText(next.value) + rest);
            var q := next.value.point;
            TailOfNext(next.value, rest);
            CommaBehind(p, next.value.id, q.timestamp, q.micro, ValueText(q.value) + rest);
          }
        }
      }
    }
  }

  /** A line that is read back to its entry has an id of at most 15 bytes and a datapoint that returns. */
  lemma LineMustReturn(e: Entry, tail: string, next: Option<Entry>)
    requires Separable(e) && StampedNext(tail, next)
    ensures DecodedLine(LineText(e) + tail) == Some(e) ==> EntryReturns(e) && |e.id| <= 15
  {
    hide DecodedPoint, StampColumn, ValueText, PointReturns, StampedNext, IsFloat, IsFloatWord, Find, Until;
    var rest := StampColumn(e.point) + ValueText(e.point.value) + tail;
    SplitAtComma(e.id, StampColumn(e.point), ValueText(e.point.value), tail);
    FirstSeparator(e.id, rest);
    PointMustReturn(e.point, tail, next);
  }

  /** From the last entry up: the entries of a feed that was read back all return. */
  lemma {:induction false} EntriesMustReturn(entries: seq<Entry>, counter: nat)
    requires entries != [] && AllSeparable(entries)
    requires forall i :: 0 <= i < |entries| ==> '\n' !in LineText(entries[i])
    ensures var text := FeedText(entries);
            |text| > 0 && DecodedFeed(text[..|text| - 1], counter) == Some(entries) ==>
              forall i :: 0 <= i < |entries| ==> EntryReturns(entries[i]) && |entries[i].id| <= 15
  {
    hide LineText, FeedText, EntryReturns, DecodedLine, Find, Separable;
    AllTypedHere(entries);
    FeedTextSplit(entries);
    var e, text, rest := entries[0], FeedText(entries), FeedText(entries[1..]);
    var tail := if |entries| == 1 then [] else ['\n'] + rest[..|rest| - 1];
    var current := text[..|text| - 1];
    assert current == LineText(e) + tail;
    if DecodedFeed(current, counter) == Some(entries) {
      LineEnds(LineText(e), tail);
      assert Separable(e);
      if |entries| == 1 {
        LineMustReturn(e, tail, None);
      } else {
        assert current[|LineText(e)| + 1..] == rest[..|rest| - 1];
        PrependedOne(DecodedLine(current), DecodedFeed(rest[..|rest| - 1], counter + 1), entries);
        assert forall i :: 0 <= i < |entries[1..]| ==> entries[1..][i] == entries[i + 1];
        EntriesMustReturn(entries[1..], counter + 1);
        NextIsStamped(entries[1..]);
        LineMustReturn(e, tail, Some(entries[1]));
        assert forall i :: 1 <= i < |entries| ==> entries[i] == entries[1..][i - 1];
      }
    }
  }

  lemma PrependedOne(line: Option<Entry>, rest: Option<seq<Entry>>, entries: seq<Entry>)
    requires line.Some? && entries != [] && Prepend([line.value], rest) == Some(entries)
    ensures line.value == entries[0] && rest == Some(entries[1..])
  {
    assert ([line.value] + rest.value)[1..] == rest.value;
  }

  /** A feed whose first entry returns starts with a stamped line. */
  lemma NextIsStamped(entries: seq<Entry>)
    requires entries != [] && AllSeparable(entries) && EntryReturns(entries[0])
    ensures var text := FeedText(entries);
            |text| > 0 && StampedNext(['\n'] + text[..|text| - 1], Some(entries[0]))
  {
    hide LineText, FeedText, Held, ValueReturns;
    AllTypedHere(entries);
    FeedTextSplit(entries);
    assert Separable(entries[0]);
    var e, text, rest := entries[0], FeedText(entries), FeedText(entries[1..]);
    var behind := if |entries| == 1 then [] else ['\n'] + rest[..|rest| - 1];
    assert text[..|text| - 1] == LineText(e) + behind;
  }

  /**
    For every feed with ids free of commas, newlines and NULs, held values and timestamps from the
    epoch on: the body of the feed update without its last newline decodes to the feed if and only if
    it has at most 15 entries, every id at most 15 bytes, and every datapoint returns by itself.
   */
  lemma FeedReturns(entries: seq<Entry>)
    requires entries != [] && AllSeparable(entries)
    ensures var text := FeedText(entries);
            && |text| > 0
            && (DecodedFeed(text[..|text| - 1], 0) == Some(entries) <==>
                  |entries| <= 15
                  && forall i :: 0 <= i < |entries| ==> |entries[i].id| <= 15 && PointReturns(entries[i].point))
  {
    hide FeedText, LineText, DecodedFeed, PointReturns;
    AllTypedHere(entries);
    FeedTextEnds(entries);
    var text := FeedText(entries);
    if DecodedFeed(text[..|text| - 1], 0) == Some(entries) {
      DecodedLines(text[..|text| - 1], 0);
      assert text == text[..|text| - 1] + ['\n'];
      NewlinesOfBoth(text[..|text| - 1], ['\n']);
      FeedNewlines(entries);
      EntriesMustReturn(entries, 0);
    } else if |entries| <= 15 && forall i :: 0 <= i < |entries| ==> |entries[i].id| <= 15 && PointReturns(entries[i].point) {
      FeedRoundTrip(entries);
    }
  }
}
