/** The feed decoder of `csv_data.c`, with the copy helper of `xi_helpers.c`. */
module CsvFeed {
  import opened CInt
  import opened XiErr
  import opened CText
  import opened Xively
  import opened CsvValue
  import opened CsvPoint
  import opened CsvData

  /** One line of a feed: a datastream id and a datapoint. */
  datatype Entry = Entry(id: string, point: Point)

  // ----- xi_str_copy_untiln -----------------------------------------------------------------

  /** The longest prefix of at most `max` bytes without the delimiter. */
  function Until(src: string, delim: char, max: nat): (prefix: string)
    ensures |prefix| <= max && |prefix| <= |src| && prefix == src[..|prefix|] && delim !in prefix
    ensures |prefix| == max || |prefix| == |src| || src[|prefix|] == delim
  {
    if max == 0 || src == [] || src[0] == delim then [] else [src[0]] + Until(src[1..], delim, max - 1)
  }

  lemma UntilUnique(src: string, delim: char, max: nat, k: nat)
    requires k <= max && k <= |src| && delim !in src[..k]
    requires k == max || k == |src| || src[k] == delim
    ensures Until(src, delim, max) == src[..k]
  {
    var prefix := Until(src, delim, max);
    assert forall i :: 0 <= i < k ==> src[..k][i] == src[i];
    assert forall i :: 0 <= i < |prefix| ==> prefix[i] == src[i];
  }

  /** `xi_str_copy_untiln` for a destination of `dst.Length` bytes. */
  method CopyUntil(dst: array<char>, src: string, delim: char) returns (counter: nat)
    requires dst.Length > 1 && '\0' !in src
    modifies dst
    ensures counter == |Until(src, delim, dst.Length - 1)|
    ensures dst[..] == Until(src, delim, dst.Length - 1) + ['\0'] + old(dst[counter + 1..])
  {
    counter := 0;
    var real_size := dst.Length - 1;
    while CharAt(src, counter) != delim && counter < real_size && CharAt(src, counter) != '\0'
      invariant counter <= real_size && counter <= |src|
      invariant delim !in src[..counter]
      invariant dst[..counter] == src[..counter]
      invariant forall i :: counter <= i < dst.Length ==> dst[i] == old(dst[i])
      decreases real_size - counter
    {
      dst[counter] := src[counter];
      counter := counter + 1;
    }
    UntilUnique(src, delim, real_size, counter);
    dst[counter] := '\0';
  }

  // ----- what a feed text decodes to --------------------------------------------------------

  /** A string buffer cleared with `memset`. */
  function Cleared(): (s: string)
    ensures |s| == VALUE_STRING_MAX_SIZE
    ensures forall i :: 0 <= i < |s| ==> s[i] == '\0'
  {
    seq(VALUE_STRING_MAX_SIZE, _ => '\0')
  }

  /** The datastream read at `current`; the search for the commas does not stop at the end of the line. */
  function DecodedLine(current: string): Option<Entry> {
    var comma := Find(current, [','], 0);
    if comma < 0 then None
    else
      match DecodedPoint(current[comma + 1..], Cleared())
      case Err(_) => None
      case Ok(point) => Some(Entry(Until(current, ',', MAX_DATASTREAM_NAME - 1), point))
  }

  /** The lines of a text from `current`, `counter` datastreams having been read before. */
  function DecodedFeed(current: string, counter: nat): Option<seq<Entry>>
    decreases |current|
  {
    var end_of_line := Find(current, ['\n'], 0);
    var line := DecodedLine(current);
    if line.None? || counter + 1 == MAX_DATASTREAMS then None
    else if end_of_line < 0 then Some([line.value])
    else Prepend([line.value], DecodedFeed(current[end_of_line + 1..], counter + 1))
  }

  function Prepend(read: seq<Entry>, rest: Option<seq<Entry>>): Option<seq<Entry>> {
    match rest
    case None => None
    case Some(entries) => Some(read + entries)
  }

  /** `xi_datastream_t` with the one datapoint the decoder fills. */
  datatype Datastream = Datastream(id: string, datapoint_count: nat, point: Point)

  /** `xi_feed_t`. */
  class Feed {
    var datastream_count: nat
    var datastreams: array<Datastream>

    constructor ()
      ensures datastreams.Length == MAX_DATASTREAMS && fresh(datastreams)
    {
      datastream_count := 0;
      datastreams := new Datastream[MAX_DATASTREAMS](_ => Datastream([], 0, Point(I32(0), 0, 0)));
    }
  }

  function Filled(e: Entry): Datastream {
    Datastream(e.id, 1, e.point)
  }

  /** The part of the loop of `csv_decode_feed` that reads one datastream. */
  method DecodeLine(current: string, err: ErrorCell) returns (ok: bool, d: Datastream)
    requires '\0' !in current
    modifies err
    ensures match DecodedLine(current)
            case None => !ok && err.last == CsvDecodeFeedParserError
            case Some(entry) =>
              && ok && err.last == old(err.last)
              && d.id == entry.id && d.datapoint_count == 1 && d.point == entry.point
  {
    hide DecodedPoint, Find, Until;
    d := Datastream([], 0, Point(I32(0), 0, 0));
    var p := new Datapoint();
    assert p.str[..] == Cleared();
    var end_of_id := Find(current, [','], 0);
    if end_of_id < 0 {
      err.Set(CsvDecodeFeedParserError);
      return false, d;
    }
    var id := new char[MAX_DATASTREAM_NAME](_ => '\0');
    var s := CopyUntil(id, current, ',');
    // the size check that follows in the source never fires: a longer id was cut
    assert 0 <= s < MAX_DATASTREAM_NAME;
    IdReads(current, id[..]);
    FindInside(current, ',');
    ok := DecodeDatapoint(current[end_of_id + 1..], p, err);
    if !ok {
      err.Set(CsvDecodeFeedParserError);
      return false, d;
    }
    d := Datastream(CStr(id[..]), 1, p.GetPoint());
  }

  /** `csv_decode_feed`. */
  method DecodeFeed(buffer: string, feed: Feed, err: ErrorCell) returns (ok: bool)
    requires feed.datastreams.Length == MAX_DATASTREAMS && '\0' !in buffer
    modifies feed`datastream_count, feed.datastreams, err
    ensures match DecodedFeed(buffer, 0)
            case None => !ok && err.last == CsvDecodeFeedParserError
            case Some(entries) =>
              && ok && err.last == old(err.last)
              && feed.datastream_count == |entries| < MAX_DATASTREAMS
              && (forall i :: 0 <= i < |entries| ==>
                    && feed.datastreams[i].id == entries[i].id && feed.datastreams[i].datapoint_count == 1
                    && feed.datastreams[i].point == entries[i].point)
              && (forall i :: |entries| <= i < MAX_DATASTREAMS ==> feed.datastreams[i] == old(feed.datastreams[i]))
    ensures !ok ==> feed.datastream_count == old(feed.datastream_count)
  {
    hide Find, DecodedLine, Prepend, DecodedFeed;
    var current := buffer;
    var counter := 0;
    var end_of_line := 0;
    ghost var read: seq<Entry> := [];
    PrependNothing(DecodedFeed(buffer, 0));
    while end_of_line >= 0
      invariant counter == |read| < MAX_DATASTREAMS && '\0' !in current
      invariant forall i :: 0 <= i < counter ==> feed.datastreams[i] == Filled(read[i])
      invariant forall i :: counter <= i < MAX_DATASTREAMS ==> feed.datastreams[i] == old(feed.datastreams[i])
      invariant DecodedFeed(buffer, 0) ==
                if end_of_line >= 0 then Prepend(read, DecodedFeed(current, counter)) else Some(read)
      invariant err.last == old(err.last) && feed.datastream_count == old(feed.datastream_count)
      decreases if end_of_line >= 0 then |current| + 1 else 0
    {
      end_of_line := Find(current, ['\n'], 0);
      var line;
      ok, line := DecodeLine(current, err);
      PrependStep(read, current, counter);
      assert ok ==> line == Filled(DecodedLine(current).value);
      if !ok {
        return false;
      }
      feed.datastreams[counter] := line;
      counter := counter + 1;
      if counter == MAX_DATASTREAMS {
        err.Set(CsvDecodeFeedParserError);
        return false;
      }
      read := read + [DecodedLine(current).value];
      if end_of_line >= 0 {
        current := current[end_of_line + 1..];
      }
    }
    feed.datastream_count := counter;
    ok := true;
  }

  /** One turn of the loop: what is read moves from the rest of the text to the entries. */
  lemma PrependStep(read: seq<Entry>, current: string, counter: nat)
    ensures var end_of_line, line := Find(current, ['\n'], 0), DecodedLine(current);
            && end_of_line < |current|
            && Prepend(read, DecodedFeed(current, counter)) ==
               if line.None? || counter + 1 == MAX_DATASTREAMS then None
               else if end_of_line < 0 then Some(read + [line.value])
               else Prepend(read + [line.value], DecodedFeed(current[end_of_line + 1..], counter + 1))
  {
    hide DecodedLine, Find;
    FindInside(current, '\n');
    var end_of_line, line := Find(current, ['\n'], 0), DecodedLine(current);
    if line.Some? && end_of_line >= 0 {
      var rest := DecodedFeed(current[end_of_line + 1..], counter + 1);
      if rest.Some? {
        assert read + ([line.value] + rest.value) == read + [line.value] + rest.value;
      }
    }
  }

  lemma PrependNothing(rest: Option<seq<Entry>>)
    ensures Prepend([], rest) == rest
  {
    if rest.Some? {
      assert [] + rest.value == rest.value;
    }
  }

  lemma IdReads(current: string, id: string)
    requires '\0' !in current
    requires |id| == MAX_DATASTREAM_NAME
    requires var s := |Until(current, ',', MAX_DATASTREAM_NAME - 1)|;
             s + 1 <= |id| && id == Until(current, ',', MAX_DATASTREAM_NAME - 1) + ['\0'] + id[s + 1..]
    ensures CStr(id) == Until(current, ',', MAX_DATASTREAM_NAME - 1)
  {
    var prefix := Until(current, ',', MAX_DATASTREAM_NAME - 1);
    assert id == prefix + (['\0'] + id[|prefix| + 1..]);
    CStrOf(prefix, ['\0'] + id[|prefix| + 1..]);
  }

  /**
    What was read of a line: the id is what precedes the first comma, cut to 15 bytes, and the
    datapoint is decoded from what follows that comma.
   */
  lemma DecodedLineMeaning(current: string)
    ensures match DecodedLine(current)
            case None => true
            case Some(e) =>
              && |e.id| <= 15 && ',' !in e.id && e.id <= current
              && exists comma ::
                   && |e.id| <= comma < |current| && current[comma] == ',' && ',' !in current[..comma]
                   && (|e.id| < 15 ==> comma == |e.id|)
                   && DecodedPoint(current[comma + 1..], Cleared()) == Ok(e.point)
  {
    hide DecodedPoint, Find;
    var comma := Find(current, [','], 0);
    if comma >= 0 {
      NotBefore(current, ',', comma);
      assert current[comma..comma + 1][0] == ',';
      var id := Until(current, ',', MAX_DATASTREAM_NAME - 1);
      assert forall i :: 0 <= i < |id| ==> current[i] == id[i];
      assert |id| <= comma;
      assert forall i :: 0 <= i < comma ==> current[..comma][i] == current[i];
    }
  }

  // ----- the text of a feed, and what comes back --------------------------------------------

  /** Every entry has a value of a known type. */
  predicate AllTyped(entries: seq<Entry>) {
    forall i :: 0 <= i < |entries| ==> !entries[i].point.value.NoValue?
  }

  /** The body of a request that updates a feed: a line for every entry. */
  function FeedText(entries: seq<Entry>): string
    requires AllTyped(entries)
  {
    if entries == [] then []
    else DatastreamText(entries[0].id, entries[0].point) + FeedText(entries[1..])
  }

  predicate EntryReturns(e: Entry) {
    && ',' !in e.id && '\n' !in e.id && '\0' !in e.id
    && Held(e.point.value) && PointReturns(e.point)
  }

  /** The entry that comes back: an id is cut to the size of its buffer. */
  function Cut(e: Entry): Entry {
    Entry(if |e.id| < MAX_DATASTREAM_NAME then e.id else e.id[..MAX_DATASTREAM_NAME - 1], e.point)
  }

  function CutAll(entries: seq<Entry>): (cut: seq<Entry>)
    ensures |cut| == |entries|
  {
    seq(|entries|, i requires 0 <= i < |entries| => Cut(entries[i]))
  }

  /** The line of an entry without its newline. */
  function LineText(e: Entry): string
    requires !e.point.value.NoValue?
  {
    e.id + [','] + StampColumn(e.point) + ValueText(e.point.value)
  }

  lemma LineHasNoNewline(e: Entry)
    requires '\n' !in e.id && Held(e.point.value) && '\n' !in ValueText(e.point.value)
    ensures '\n' !in LineText(e)
  {
    hide StampText, ValueText;
    StampTextIsFree(e.point.timestamp, e.point.micro);
  }

  lemma ReturningValueHasNoNewline(v: Value)
    requires Held(v) && ValueReturns(v)
    ensures '\n' !in ValueText(v)
  {
    if !v.Str? {
      NumberTextIsFree(v, '\n');
    }
  }

  /** One line is read back, whatever lines follow it. */
  lemma LineRoundTrip(e: Entry, tail: string)
    requires EntryReturns(e)
    requires tail == [] || tail[0] == '\n'
    ensures DecodedLine(LineText(e) + tail) == Some(Cut(e))
    ensures Find(LineText(e) + tail, ['\n'], 0) == if tail == [] then -1 else |LineText(e)|
  {
    var rest := StampColumn(e.point) + ValueText(e.point.value) + tail;
    PointReadBack(e, tail);
    ReturningValueHasNoNewline(e.point.value);
    LineHasNoNewline(e);
    LineEnds(LineText(e), tail);
    hide StampColumn, ValueText, DecodedPoint, PointReturns, DecodedLine, EntryReturns, Cut;
    SplitAtComma(e.id, StampColumn(e.point), ValueText(e.point.value), tail);
    DecodedAfterId(e, rest);
  }

  lemma SplitAtComma(id: string, stamp: string, value: string, tail: string)
    ensures id + [','] + stamp + value + tail == id + ([','] + (stamp + value + tail))
  {
  }

  /** The datapoint of a line is read back from behind the id. */
  lemma PointReadBack(e: Entry, tail: string)
    requires EntryReturns(e)
    requires tail == [] || tail[0] == '\n'
    ensures DecodedPoint(StampColumn(e.point) + ValueText(e.point.value) + tail, Cleared()) == Ok(e.point)
  {
    hide StampColumn, ValueText, DecodedPoint, PointReturns;
    PositiveStamp(e.point);
    StampedRoundTrip(e.point, tail, Cleared());
  }

  /** A line splits at its first comma. */
  lemma DecodedAfterId(e: Entry, rest: string)
    requires ',' !in e.id
    requires DecodedPoint(rest, Cleared()) == Ok(e.point)
    ensures DecodedLine(e.id + ([','] + rest)) == Some(Cut(e))
  {
    hide DecodedPoint, Find, Until;
    FirstSeparator(e.id, rest);
  }

  lemma LineEnds(line: string, tail: string)
    requires '\n' !in line && (tail == [] || tail[0] == '\n')
    ensures Find(line + tail, ['\n'], 0) == if tail == [] then -1 else |line|
  {
    var current := line + tail;
    if tail == [] {
      assert current[0..] == line;
      FindNoChar(current, '\n', 0);
    } else {
      assert current[0..|line|] == line;
      FindChar(current, '\n', 0, |line|);
    }
  }

  lemma PositiveStamp(p: Point)
    requires Held(p.value) && PointReturns(p)
    ensures 0 < p.timestamp
  {
  }

  lemma FirstSeparator(id: string, rest: string)
    requires ',' !in id
    ensures var current := id + ([','] + rest);
            && Find(current, [','], 0) == |id| && current[|id| + 1..] == rest
            && Until(current, ',', MAX_DATASTREAM_NAME - 1) == Cut(Entry(id, Point(NoValue, 0, 0))).id
  {
    var current := id + ([','] + rest);
    assert current[0..|id|] == id;
    FindChar(current, ',', 0, |id|);
    var k := if |id| < MAX_DATASTREAM_NAME then |id| else MAX_DATASTREAM_NAME - 1;
    assert current[..k] == id[..k];
    UntilUnique(current, ',', MAX_DATASTREAM_NAME - 1, k);
  }

  lemma {:induction false} FeedTextEnds(entries: seq<Entry>)
    requires entries != [] && AllTyped(entries)
    ensures var text := FeedText(entries); |text| > 0 && text[|text| - 1] == '\n'
  {
    hide StampColumn, ValueText;
    if |entries| > 1 {
      FeedTextEnds(entries[1..]);
    }
  }

  /** The feed text is its first line and the rest; both in full and without the last newline. */
  lemma FeedTextSplit(entries: seq<Entry>)
    requires entries != [] && AllTyped(entries)
    ensures var e, text, rest := entries[0], FeedText(entries), FeedText(entries[1..]);
            && text == LineText(e) + (['\n'] + rest)
            && (|entries| == 1 ==> text[..|text| - 1] == LineText(e))
            && (|entries| > 1 ==> |rest| > 0 && text[..|text| - 1] == LineText(e) + (['\n'] + rest[..|rest| - 1]))
  {
    hide LineText, StampColumn, ValueText;
    FeedTextFirst(entries);
    DropLast(LineText(entries[0]), FeedText(entries[1..]));
    if |entries| > 1 {
      FeedTextEnds(entries[1..]);
    } else {
      assert entries[1..] == [];
    }
  }

  lemma FeedTextFirst(entries: seq<Entry>)
    requires entries != [] && AllTyped(entries)
    ensures FeedText(entries) == LineText(entries[0]) + (['\n'] + FeedText(entries[1..]))
  {
    hide StampColumn, ValueText;
    var e := entries[0];
    LineFirst(e.id, StampColumn(e.point), ValueText(e.point.value), FeedText(entries[1..]));
  }

  lemma LineFirst(id: string, stamp: string, value: string, rest: string)
    ensures id + [','] + (stamp + value + ['\n']) + rest == id + [','] + stamp + value + (['\n'] + rest)
  {
  }

  lemma DropLast(line: string, rest: string)
    ensures var text := line + (['\n'] + rest);
            text[..|text| - 1] == if rest == [] then line else line + (['\n'] + rest[..|rest| - 1])
  {
  }

  lemma {:induction false} LinesRoundTrip(entries: seq<Entry>, counter: nat)
    requires entries != [] && counter < MAX_DATASTREAMS && AllTyped(entries)
    requires forall i :: 0 <= i < |entries| ==> EntryReturns(entries[i])
    ensures var text := FeedText(entries);
            |text| > 0
            && DecodedFeed(text[..|text| - 1], counter) ==
               if counter + |entries| < MAX_DATASTREAMS then Some(CutAll(entries)) else None
  {
    hide LineText, FeedText, EntryReturns, DecodedLine, Find, Cut;
    var e, text, rest := entries[0], FeedText(entries), FeedText(entries[1..]);
    FeedTextSplit(entries);
    var tail := if |entries| == 1 then [] else ['\n'] + rest[..|rest| - 1];
    assert EntryReturns(e);
    LineRoundTrip(e, tail);
    var current := LineText(e) + tail;
    assert tail == [] ==> current == LineText(e);
    if |entries| == 1 {
      assert CutAll(entries) == [Cut(e)];
    } else {
      assert current[|LineText(e)| + 1..] == rest[..|rest| - 1];
      if counter + 1 < MAX_DATASTREAMS {
        LinesRoundTrip(entries[1..], counter + 1);
        assert CutAll(entries) == [Cut(e)] + CutAll(entries[1..]);
      }
    }
  }

  /**
    The body of a feed update without its last newline decodes to its entries, in order, when there
    are at most 15 of them, and fails when there are more. Ids come back whole up to 15 bytes.
   */
  lemma FeedRoundTrip(entries: seq<Entry>)
    requires entries != [] && AllTyped(entries)
    requires forall i :: 0 <= i < |entries| ==> EntryReturns(entries[i])
    ensures var text := FeedText(entries);
            |text| > 0
            && DecodedFeed(text[..|text| - 1], 0) == if |entries| <= 15 then Some(CutAll(entries)) else None
    ensures CutAll(entries) == entries <==> forall i :: 0 <= i < |entries| ==> |entries[i].id| <= 15
  {
    LinesRoundTrip(entries, 0);
    forall i | 0 <= i < |entries|
      ensures CutAll(entries)[i] == entries[i] <==> |entries[i].id| <= 15
    {
    }
  }

  /** A text that ends with a newline never decodes: the decoder looks for one more line. */
  lemma {:induction false} FinalNewlineFails(current: string, counter: nat)
    requires current != [] && current[|current| - 1] == '\n'
    ensures DecodedFeed(current, counter) == None
    decreases |current|
  {
    hide DecodedLine;
    var end_of_line := Find(current, ['\n'], 0);
    var last := |current| - 1;
    assert OccursAt(current, ['\n'], last) by {
      assert current[last..last + 1] == ['\n'];
    }
    FindInside(current, '\n');
    var rest := current[end_of_line + 1..];
    if rest == [] {
      NothingToRead();
    } else {
      FinalNewlineFails(rest, counter + 1);
    }
  }

  lemma NothingToRead()
    ensures DecodedLine([]) == None
  {
  }

  /** So the decoder rejects every body the encoder builds, as it stands. */
  lemma EncodedFeedIsRejected(entries: seq<Entry>)
    requires AllTyped(entries)
    ensures DecodedFeed(FeedText(entries), 0) == None
  {
    if entries == [] {
      NothingToRead();
    } else {
      FeedTextEnds(entries);
      FinalNewlineFails(FeedText(entries), 0);
    }
  }
}
