/** `http_layer_queries.c` and the encoders of `http_transport_layer.c`: requests in bounded buffers. */
module HttpEncode {
  import opened CInt
  import opened XiErr
  import opened CText
  import opened XiTime
  import opened Xively
  import opened CsvPoint
  import opened CsvData
  import opened CsvFeed
  import opened HttpReader

  const CRLF := "\r\n"

  // ----- the texts --------------------------------------------------------------------------

  function OrEmpty(s: Option<string>): string {
    if s.Some? then s.value else []
  }

  /** A request: the query, the content headers, a blank line and, after content headers, the data. */
  function ConcatText(query: string, content: Option<string>, data: Option<string>): string {
    query + OrEmpty(content) + CRLF + (if content.Some? then OrEmpty(data) else []) + CRLF
  }

  /** The header lines that announce a body of `size` bytes. */
  function ContentText(size: int): string {
    "Content-Type: text/plain\r\nContent-Length: " + PrintInt(size, 0) + CRLF
  }

  /** A feed id is printed with `%d`. */
  function FeedIdText(feed_id: nat): string {
    "/" + PrintInt(ToInt32(feed_id), 0)
  }

  function DatastreamIdText(feed_id: nat, datastream: Option<string>): string {
    FeedIdText(feed_id) + "/datastreams" + (if datastream.Some? then "/" + datastream.value else [])
  }

  function QueryText(http_method: string, id: string, suffix: string, host: string, agent: string, key: string): string {
    http_method + " /v2/feeds" + id + ".csv" + suffix + " HTTP/1.1" + CRLF
    + ("Host: " + host + CRLF + ("User-Agent: " + agent + CRLF + ("Accept: */*" + CRLF + ("X-ApiKey: " + key + CRLF))))
  }

  /** The query suffix that asks for some datastreams of a feed. */
  function JoinText(ids: seq<string>): string {
    if ids == [] then []
    else JoinText(ids[..|ids| - 1]) + (if |ids| == 1 then "?datastreams=" else ",") + ids[|ids| - 1]
  }

  /** The entries of a feed's datastreams, datastream by datastream. */
  datatype Stream = Stream(id: string, points: seq<Point>)

  function EntriesOf(id: string, points: seq<Point>): (entries: seq<Entry>)
    ensures |entries| == |points|
  {
    seq(|points|, i requires 0 <= i < |points| => Entry(id, points[i]))
  }

  function Flatten(streams: seq<Stream>): seq<Entry> {
    if streams == [] then []
    else Flatten(streams[..|streams| - 1]) + EntriesOf(streams[|streams| - 1].id, streams[|streams| - 1].points)
  }

  // ----- how a reader takes the texts apart -------------------------------------------------

  lemma OneField(f: Field)
    ensures FieldsText([f]) == f.name + ": " + f.value + "\r\n"
  {
    assert [f][1..] == [];
  }

  lemma FirstField(f: Field, fields: seq<Field>)
    ensures FieldsText([f] + fields) == f.name + ": " + f.value + "\r\n" + FieldsText(fields)
  {
    assert ([f] + fields)[1..] == fields;
  }

  /** The line and the four fields of a query, in their order. */
  lemma QueryParts(http_method: string, id: string, suffix: string, host: string, agent: string, key: string)
    ensures QueryText(http_method, id, suffix, host, agent, key)
            == http_method + " " + ("/v2/feeds" + id + ".csv" + suffix) + " " + "HTTP/1.1" + "\r\n"
               + FieldsText([Field("Host", host), Field("User-Agent", agent), Field("Accept", "*/*"), Field("X-ApiKey", key)])
  {
    var a, b, c, d := Field("Host", host), Field("User-Agent", agent), Field("Accept", "*/*"), Field("X-ApiKey", key);
    OneField(d);
    FirstField(c, [d]);
    FirstField(b, [c, d]);
    FirstField(a, [b, c, d]);
    assert [c] + [d] == [c, d] && [b] + [c, d] == [b, c, d] && [a] + [b, c, d] == [a, b, c, d];
    hide FieldsText;
    RequestLineParts(http_method, id, suffix);
    assert "Host" + ": " == "Host: " && "User-Agent" + ": " == "User-Agent: ";
    assert "Accept" + ": " + "*/*" == "Accept: */*" && "X-ApiKey" + ": " == "X-ApiKey: ";
  }

  lemma RequestLineParts(http_method: string, id: string, suffix: string)
    ensures http_method + " /v2/feeds" + id + ".csv" + suffix + " HTTP/1.1"
            == http_method + " " + ("/v2/feeds" + id + ".csv" + suffix) + " " + "HTTP/1.1"
  {
    assert " /v2/feeds" == " " + "/v2/feeds" && " HTTP/1.1" == " " + "HTTP/1.1";
    PutTogether(http_method, " ", "/v2/feeds", id, ".csv", suffix, " ", "HTTP/1.1");
  }

  /** A query of any method, followed by a blank line, is read as its line and exactly four fields. */
  lemma QueryIsRead(http_method: string, id: string, suffix: string, host: string, agent: string, key: string, rest: string)
    requires ' ' !in http_method && '\r' !in http_method && '\r' !in id && '\r' !in suffix
    requires '\r' !in host && '\r' !in agent && '\r' !in key
    ensures ReadRequest(QueryText(http_method, id, suffix, host, agent, key) + "\r\n" + rest)
            == Some(Request(http_method, "/v2/feeds" + id + ".csv" + suffix, "HTTP/1.1",
                            [Field("Host", host), Field("User-Agent", agent), Field("Accept", "*/*"), Field("X-ApiKey", key)],
                            rest))
  {
    hide QueryText, ReadRequest, FieldsText, AllReadable;
    var target := "/v2/feeds" + id + ".csv" + suffix;
    FourReadable(host, agent, key);
    var fields := [Field("Host", host), Field("User-Agent", agent), Field("Accept", "*/*"), Field("X-ApiKey", key)];
    QueryParts(http_method, id, suffix, host, agent, key);
    RequestIsRead(Request(http_method, target, "HTTP/1.1", fields, rest));
    Behind(http_method + " " + target + " " + "HTTP/1.1" + "\r\n", FieldsText(fields), "\r\n", rest);
  }

  lemma Behind(line: string, fields: string, blank: string, rest: string)
    ensures line + fields + blank + rest == line + (fields + (blank + rest))
  {
  }

  lemma ContentParts(size: int)
    ensures ContentText(size)
            == FieldsText([Field("Content-Type", "text/plain"), Field("Content-Length", PrintInt(size, 0))])
  {
    hide PrintInt;
    var a, b := Field("Content-Type", "text/plain"), Field("Content-Length", PrintInt(size, 0));
    OneField(b);
    FirstField(a, [b]);
    assert [a] + [b] == [a, b];
    hide FieldsText;
    ContentLabel();
    Behind("Content-Type" + ": " + "text/plain" + "\r\n", "Content-Length" + ": ", PrintInt(size, 0), "\r\n");
  }

  lemma ContentLabel()
    ensures "Content-Type: text/plain\r\nContent-Length: "
            == "Content-Type" + ": " + "text/plain" + "\r\n" + ("Content-Length" + ": ")
  {
  }

  /** A query with content headers, a blank line, a body and the line end behind it. */
  lemma SizedRequestIsRead(http_method: string, id: string, suffix: string, host: string, agent: string, key: string, body: string)
    requires ' ' !in http_method && '\r' !in http_method && '\r' !in id && '\r' !in suffix
    requires '\r' !in host && '\r' !in agent && '\r' !in key
    ensures ReadRequest(ConcatText(QueryText(http_method, id, suffix, host, agent, key), Some(ContentText(|body|)), Some(body)))
            == Some(Request(http_method, "/v2/feeds" + id + ".csv" + suffix, "HTTP/1.1",
                            [Field("Host", host), Field("User-Agent", agent), Field("Accept", "*/*"), Field("X-ApiKey", key),
                             Field("Content-Type", "text/plain"), Field("Content-Length", PrintInt(|body|, 0))],
                            body + "\r\n"))
  {
    hide QueryText, ContentText, ReadRequest, FieldsText, PrintInt, AllReadable;
    var target := "/v2/feeds" + id + ".csv" + suffix;
    var query := [Field("Host", host), Field("User-Agent", agent), Field("Accept", "*/*"), Field("X-ApiKey", key)];
    var content := [Field("Content-Type", "text/plain"), Field("Content-Length", PrintInt(|body|, 0))];
    QueryParts(http_method, id, suffix, host, agent, key);
    ContentParts(|body|);
    FieldsTextAppend(query, content);
    FourReadable(host, agent, key);
    ContentReadable(|body|);
    BothReadable(query, content);
    RequestIsRead(Request(http_method, target, "HTTP/1.1", query + content, body + "\r\n"));
    WithBody(http_method + " " + target + " " + "HTTP/1.1" + "\r\n", FieldsText(query), FieldsText(content), body);
    assert query + content == [Field("Host", host), Field("User-Agent", agent), Field("Accept", "*/*"), Field("X-ApiKey", key),
                               Field("Content-Type", "text/plain"), Field("Content-Length", PrintInt(|body|, 0))];
  }

  lemma FourReadable(host: string, agent: string, key: string)
    requires '\r' !in host && '\r' !in agent && '\r' !in key
    ensures AllReadable([Field("Host", host), Field("User-Agent", agent), Field("Accept", "*/*"), Field("X-ApiKey", key)])
  {
    assert Readable(Field("Host", host));
    assert Readable(Field("User-Agent", agent));
    assert Readable(Field("Accept", "*/*"));
    assert Readable(Field("X-ApiKey", key));
    hide Readable;
  }

  lemma ContentReadable(size: int)
    ensures AllReadable([Field("Content-Type", "text/plain"), Field("Content-Length", PrintInt(size, 0))])
  {
    hide PrintInt;
    PrintIntIsFreeOf(size, 0, '\r');
    assert Readable(Field("Content-Type", "text/plain"));
    assert Readable(Field("Content-Length", PrintInt(size, 0)));
    hide Readable;
  }

  lemma BothReadable(a: seq<Field>, b: seq<Field>)
    requires AllReadable(a) && AllReadable(b)
    ensures AllReadable(a + b)
  {
    hide Readable;
  }

  lemma WithBody(line: string, query: string, content: string, body: string)
    ensures line + query + content + CRLF + body + CRLF == line + (query + content + ("\r\n" + (body + "\r\n")))
  {
  }

  /** Without content headers the body is left out too. */
  lemma BareRequestIsRead(http_method: string, id: string, suffix: string, host: string, agent: string, key: string, data: Option<string>)
    requires ' ' !in http_method && '\r' !in http_method && '\r' !in id && '\r' !in suffix
    requires '\r' !in host && '\r' !in agent && '\r' !in key
    ensures ReadRequest(ConcatText(QueryText(http_method, id, suffix, host, agent, key), None, data))
            == Some(Request(http_method, "/v2/feeds" + id + ".csv" + suffix, "HTTP/1.1",
                            [Field("Host", host), Field("User-Agent", agent), Field("Accept", "*/*"), Field("X-ApiKey", key)],
                            "\r\n"))
  {
    hide QueryText, ReadRequest;
    QueryIsRead(http_method, id, suffix, host, agent, key, "\r\n");
    var query := QueryText(http_method, id, suffix, host, agent, key);
    assert query + [] + CRLF + [] + CRLF == query + "\r\n" + "\r\n";
  }

  /** The target of a request for a datastream, or for the list of a feed's datastreams. */
  lemma DatastreamTarget(feed_id: nat, datastream: Option<string>)
    ensures "/v2/feeds" + DatastreamIdText(feed_id, datastream) + ".csv"
            == "/v2/feeds/" + PrintInt(ToInt32(feed_id), 0) + "/datastreams"
               + (if datastream.Some? then "/" + datastream.value else "") + ".csv"
  {
    hide PrintInt;
    assert "/v2/feeds/" == "/v2/feeds" + "/";
  }

  /** The query suffix for some datastreams: what follows the equals sign splits into their ids. */
  lemma {:induction false} JoinSplits(ids: seq<string>)
    requires ids != [] && forall i :: 0 <= i < |ids| ==> ',' !in ids[i]
    ensures var text := JoinText(ids);
            |text| >= 13 && text[..13] == "?datastreams=" && Split(text[13..]) == ids
    decreases |ids|
  {
    hide Split;
    var init, last := ids[..|ids| - 1], ids[|ids| - 1];
    var text := JoinText(ids);
    if |ids| == 1 {
      assert JoinText(init) == [];
      assert text == "?datastreams=" + last;
      assert text[13..] == last;
      SplitOne(last);
    } else {
      JoinSplits(init);
      var before := JoinText(init);
      assert text == before + "," + last;
      assert text[13..] == before[13..] + "," + last;
      SplitLast(before[13..], last);
      assert init + [last] == ids;
    }
  }

  lemma PutTogether(a: string, b: string, c: string, d: string, e: string, f: string, g: string, h: string)
    ensures a + (b + c) + d + e + f + (g + h) == a + b + (c + d + e + f) + g + h
  {
    assert a + (b + c) == a + b + c;
    assert a + b + c + d + e + f == a + b + (c + d + e + f);
  }

  // ----- http_encode_concat -----------------------------------------------------------------

  /** `http_encode_concat` writes exactly the request, or fails when it and its NUL do not fit. */
  method EncodeConcat(buffer: array<char>, query: string, content: Option<string>, data: Option<string>, err: ErrorCell)
    returns (ok: bool)
    modifies buffer, err
    ensures ok <==> |ConcatText(query, content, data)| < buffer.Length
    ensures ok ==> var text := ConcatText(query, content, data); buffer[..|text|] == text && buffer[|text|] == '\0'
    ensures err.last == if ok then old(err.last) else HttpEncodeCreateDatastream
  {
    hide SameOutside, ConcatText;
    ConcatPieces(query, content, data);
    var offset;
    ok, offset := AppendIf(buffer, 0, Some(query), err);
    if !ok {
      return false;
    }
    ok, offset := AppendIf(buffer, offset, content, err);
    if !ok {
      return false;
    }
    ghost var head := query + OrEmpty(content);
    assert buffer[..offset] == head;
    ok, offset := AppendIf(buffer, offset, Some(CRLF), err);
    if !ok {
      return false;
    }
    ok, offset := AppendIf(buffer, offset, if content.Some? then data else None, err);
    if !ok {
      return false;
    }
    ghost var most := head + CRLF + (if content.Some? then OrEmpty(data) else []);
    assert buffer[..offset] == most;
    ok, offset := AppendIf(buffer, offset, Some(CRLF), err);
    if !ok {
      return false;
    }
    assert buffer[..offset] == most + CRLF;
  }

  /** One guarded `snprintf` of `http_encode_concat`: a missing piece is left out. */
  method AppendIf(buffer: array<char>, offset: nat, piece: Option<string>, err: ErrorCell) returns (ok: bool, next: nat)
    requires offset <= buffer.Length
    modifies buffer, err
    ensures ok <==> piece.None? || offset + |piece.value| < buffer.Length
    ensures ok ==> next == offset + |OrEmpty(piece)| && buffer[..next] == old(buffer[..offset]) + OrEmpty(piece)
    ensures ok && piece.Some? ==> buffer[next] == '\0'
    ensures err.last == if ok then old(err.last) else HttpEncodeCreateDatastream
  {
    ok, next := true, offset;
    if piece.Some? {
      ok, next := Append(buffer, 0, buffer.Length, offset, piece.value, err, HttpEncodeCreateDatastream);
      assert buffer[..next] == buffer[0..0 + next];
      assert old(buffer[..offset]) == old(buffer[0..0 + offset]);
    }
  }

  /** The pieces before the last line end are shorter than the request. */
  lemma ConcatPieces(query: string, content: Option<string>, data: Option<string>)
    ensures var text, head := ConcatText(query, content, data), query + OrEmpty(content);
            var most := head + CRLF + (if content.Some? then OrEmpty(data) else []);
            text == most + CRLF && |head| + 2 <= |most| && |most| + 2 == |text|
  {
  }

  // ----- http_layer_queries.c ---------------------------------------------------------------

  /** The static buffers of the query builder; host and user agent are fixed at build time. */
  class Queries {
    const idBuffer: array<char>
    const queryBuffer: array<char>
    const contentBuffer: array<char>
    const host: string
    const agent: string

    constructor (idSize: nat, querySize: nat, contentSize: nat, host: string, agent: string)
      requires idSize > 0 && querySize > 0 && contentSize > 0
      ensures Valid() && fresh(idBuffer) && fresh(queryBuffer) && fresh(contentBuffer)
      ensures idBuffer.Length == idSize && queryBuffer.Length == querySize && contentBuffer.Length == contentSize
      ensures this.host == host && this.agent == agent
    {
      idBuffer := new char[idSize](_ => '\0');
      queryBuffer := new char[querySize](_ => '\0');
      contentBuffer := new char[contentSize](_ => '\0');
      this.host, this.agent := host, agent;
    }

    predicate Valid() {
      && idBuffer != queryBuffer && idBuffer != contentBuffer && queryBuffer != contentBuffer
      && idBuffer.Length > 0 && queryBuffer.Length > 0 && contentBuffer.Length > 0
    }

    /** `http_construct_string` and `http_construct_int`: a slash and a segment, in the bytes from `at`. */
    method ConstructSegment(at: nat, segment: string, err: ErrorCell) returns (s: int)
      requires at <= idBuffer.Length
      modifies idBuffer, err
      ensures if at + 1 + |segment| < idBuffer.Length
              then s == 1 + |segment| && err.last == old(err.last)
                   && idBuffer[..at + s] == old(idBuffer[..at]) + "/" + segment && idBuffer[at + s] == '\0'
              else s == -1 && err.last == HttpConstructRequestBufferOverrun
    {
      var size := idBuffer.Length - at;
      s := Snprintf(idBuffer, at, size, "/" + segment);
      if s >= size || s < 0 {
        err.Set(HttpConstructRequestBufferOverrun);
        return -1;
      }
      assert idBuffer[..at + s] == idBuffer[..][..at + s];
    }

    /**
      `http_construct_datastream` leaves the whole path in the buffer. With a datastream id it
      returns the length of the last segment only, which its callers merely compare with the size.
     */
    method ConstructDatastream(feed_id: nat, datastream: Option<string>, err: ErrorCell) returns (s: int)
      requires Valid()
      modifies idBuffer, err
      ensures var text := DatastreamIdText(feed_id, datastream);
              if |text| < idBuffer.Length
              then s == (if datastream.Some? then 1 + |datastream.value| else |text|) && err.last == old(err.last)
                   && idBuffer[..|text|] == text && idBuffer[|text|] == '\0'
              else s == -1 && err.last == HttpConstructRequestBufferOverrun
    {
      hide PrintInt;
      s := ConstructSegment(0, PrintInt(ToInt32(feed_id), 0), err);
      var size, offset := idBuffer.Length, 0;
      if s >= size - offset || s < 0 {
        err.Set(HttpConstructRequestBufferOverrun);
        return -1;
      }
      offset := offset + s;
      assert idBuffer[..offset] == FeedIdText(feed_id);
      s := ConstructSegment(offset, "datastreams", err);
      if s >= size - offset || s < 0 {
        err.Set(HttpConstructRequestBufferOverrun);
        return -1;
      }
      offset := offset + s;
      assert idBuffer[..offset] == FeedIdText(feed_id) + "/datastreams";
      if datastream.Some? {
        s := ConstructSegment(offset, datastream.value, err);
        assert FeedIdText(feed_id) + "/datastreams" + "/" + datastream.value == DatastreamIdText(feed_id, datastream);
        return s;
      }
      assert FeedIdText(feed_id) + "/datastreams" + [] == DatastreamIdText(feed_id, datastream);
      return offset;
    }

    /** `http_construct_http_query` for the id in the id buffer. */
    method ConstructHttpQuery(http_method: string, suffix: Option<string>, key: string, err: ErrorCell) returns (ok: bool)
      requires Valid()
      modifies queryBuffer, err
      ensures var text := QueryText(http_method, CStr(idBuffer[..]), OrEmpty(suffix), host, agent, key);
              && (ok <==> |text| < queryBuffer.Length)
              && (ok ==> queryBuffer[..|text|] == text && queryBuffer[|text|] == '\0')
      ensures err.last == if ok then old(err.last) else HttpConstructRequestBufferOverrun
    {
      hide QueryText, CStr;
      var text := QueryText(http_method, CStr(idBuffer[..]), OrEmpty(suffix), host, agent, key);
      var s := Snprintf(queryBuffer, 0, queryBuffer.Length, text);
      if s >= queryBuffer.Length || s < 0 {
        err.Set(HttpConstructRequestBufferOverrun);
        return false;
      }
      assert queryBuffer[..|text|] == queryBuffer[..][..|text|];
      ok := true;
    }

    /** `http_construct_request_datastream`. */
    method ConstructRequestDatastream(http_method: string, feed_id: nat, datastream: Option<string>, key: string, err: ErrorCell)
      returns (ok: bool)
      requires Valid() && (datastream.Some? ==> '\0' !in datastream.value)
      modifies idBuffer, queryBuffer, err
      ensures var id := DatastreamIdText(feed_id, datastream);
              var text := QueryText(http_method, id, [], host, agent, key);
              && (ok <==> |id| < idBuffer.Length && |text| < queryBuffer.Length)
              && (ok ==> queryBuffer[..|text|] == text && queryBuffer[|text|] == '\0')
              && err.last == if ok then old(err.last)
                             else if |id| < idBuffer.Length then HttpConstructRequestBufferOverrun
                             else HttpConstructContentBufferOverrun
    {
      hide QueryText, PrintInt;
      var s := ConstructDatastream(feed_id, datastream, err);
      if s >= idBuffer.Length || s < 0 {
        err.Set(HttpConstructContentBufferOverrun);
        return false;
      }
      IdHasNoNul(feed_id, datastream);
      ReadsBack(idBuffer[..], DatastreamIdText(feed_id, datastream));
      ok := ConstructHttpQuery(http_method, None, key, err);
    }

    /** `http_construct_request_feed`. */
    method ConstructRequestFeed(http_method: string, feed_id: nat, key: string, suffix: Option<string>, err: ErrorCell)
      returns (ok: bool)
      requires Valid()
      modifies idBuffer, queryBuffer, err
      ensures var id := FeedIdText(feed_id);
              var text := QueryText(http_method, id, OrEmpty(suffix), host, agent, key);
              && (ok <==> |id| < idBuffer.Length && |text| < queryBuffer.Length)
              && (ok ==> queryBuffer[..|text|] == text && queryBuffer[|text|] == '\0')
              && err.last == if ok then old(err.last)
                             else if |id| < idBuffer.Length then HttpConstructRequestBufferOverrun
                             else HttpConstructContentBufferOverrun
    {
      hide QueryText, PrintInt;
      var s := ConstructSegment(0, PrintInt(ToInt32(feed_id), 0), err);
      if s >= idBuffer.Length || s < 0 {
        err.Set(HttpConstructContentBufferOverrun);
        return false;
      }
      PrintIntIsFreeOf(ToInt32(feed_id), 0, '\0');
      assert idBuffer[..s] == FeedIdText(feed_id);
      ReadsBack(idBuffer[..], FeedIdText(feed_id));
      ok := ConstructHttpQuery(http_method, suffix, key, err);
    }

    /** `http_construct_content`. */
    method ConstructContent(content_size: int, err: ErrorCell) returns (content: Option<string>)
      requires Valid()
      modifies contentBuffer, err
      ensures content == if |ContentText(content_size)| < contentBuffer.Length then Some(ContentText(content_size)) else None
      ensures err.last == if content.Some? then old(err.last) else HttpConstructContentBufferOverrun
    {
      hide PrintInt;
      var text := ContentText(content_size);
      var s := Snprintf(contentBuffer, 0, contentBuffer.Length, text);
      if s >= contentBuffer.Length || s < 0 {
        err.Set(HttpConstructContentBufferOverrun);
        return None;
      }
      ContentHasNoNul(content_size);
      assert contentBuffer[..][..|text|] == text;
      ReadsBack(contentBuffer[..], text);
      return Some(CStr(contentBuffer[..]));
    }
  }

  lemma ReadsBack(buffer: string, text: string)
    requires |text| < |buffer| && buffer[..|text|] == text && buffer[|text|] == '\0' && '\0' !in text
    ensures CStr(buffer) == text
  {
    CStrOf(text, buffer[|text|..]);
    assert buffer == text + buffer[|text|..];
  }

  lemma IdHasNoNul(feed_id: nat, datastream: Option<string>)
    requires datastream.Some? ==> '\0' !in datastream.value
    ensures '\0' !in DatastreamIdText(feed_id, datastream)
  {
    hide PrintInt;
    PrintIntIsFreeOf(ToInt32(feed_id), 0, '\0');
  }

  lemma ContentHasNoNul(size: int)
    ensures '\0' !in ContentText(size)
  {
    hide PrintInt;
    PrintIntIsFreeOf(size, 0, '\0');
    assert '\0' !in "Content-Type: text/plain\r\nContent-Length: ";
  }

  /** With the default buffer of 64 bytes the content headers of every 32-bit size fit. */
  lemma ContentAlwaysFits(size: int)
    requires IsInt32(size)
    ensures |ContentText(size)| < 64
  {
    hide PrintInt;
    Int32Length(size);
  }

  // ----- the bodies -------------------------------------------------------------------------

  lemma {:induction false} FeedTextAppend(a: seq<Entry>, b: seq<Entry>)
    requires AllTyped(a) && AllTyped(b)
    ensures AllTyped(a + b) && FeedText(a + b) == FeedText(a) + FeedText(b)
  {
    hide PointText;
    if a == [] {
      assert a + b == b;
    } else {
      assert (a + b)[1..] == a[1..] + b;
      FeedTextAppend(a[1..], b);
    }
  }

  lemma FeedTextOfOne(e: Entry)
    requires !e.point.value.NoValue?
    ensures FeedText([e]) == DatastreamText(e.id, e.point)
  {
    hide PointText;
    assert [e][1..] == [];
  }

  /** The body of the nested loop of `http_encode_update_feed`: one entry at the end of the data. */
  method AppendEntry(buffer: array<char>, offset: nat, e: Entry, clock: Clock, err: ErrorCell) returns (ok: bool, next: nat)
    requires offset < buffer.Length && 0 <= e.point.timestamp
    modifies buffer, clock.brTime, err
    ensures ok <==> !e.point.value.NoValue? && offset + |DatastreamText(e.id, e.point)| < buffer.Length
    ensures ok ==> next == offset + |DatastreamText(e.id, e.point)| && buffer[next] == '\0'
                   && buffer[..next] == old(buffer[..offset]) + DatastreamText(e.id, e.point)
    ensures err.last == if ok then old(err.last) else HttpEncodeUpdateFeed
  {
    hide PointText;
    var size := buffer.Length;
    ok, next := Append(buffer, 0, size, offset, e.id + [','], err, HttpEncodeUpdateFeed);
    if !ok {
      return false, next;
    }
    ghost var before := buffer[..];
    assert before[..next] == old(buffer[..offset]) + (e.id + [',']) by {
      assert buffer[0..0 + next] == before[..next];
      assert old(buffer[0..0 + offset]) == old(buffer[..offset]);
    }
    var s := EncodeDatapointInPlace(buffer, next, if size - next < 0 then 0 else size - next, e.point, clock, err);
    if s >= size - next || s < 0 {
      err.Set(HttpEncodeUpdateFeed);
      return false, next;
    }
    assert buffer[..next + s] == before[..next] + PointText(e.point) by {
      assert buffer[..next + s] == buffer[..][..next] + buffer[..][next..next + s];
    }
    assert buffer[next + s] == buffer[..][next + s];
    next := next + s;
  }

  lemma EntriesSoFar(done: seq<Entry>, id: string, points: seq<Point>, j: nat)
    requires j < |points|
    ensures done + EntriesOf(id, points[..j + 1]) == done + EntriesOf(id, points[..j]) + [Entry(id, points[j])]
  {
  }

  lemma FlattenStep(streams: seq<Stream>, i: nat)
    requires i < |streams|
    ensures Flatten(streams[..i + 1]) == Flatten(streams[..i]) + EntriesOf(streams[i].id, streams[i].points)
  {
    assert streams[..i + 1][..i] == streams[..i];
  }

  lemma {:induction false} FlattenPrefix(streams: seq<Stream>, i: nat, j: nat)
    requires i < |streams| && j <= |streams[i].points|
    ensures Flatten(streams[..i]) + EntriesOf(streams[i].id, streams[i].points[..j]) <= Flatten(streams)
    decreases |streams|
  {
    var n := |streams| - 1;
    if i < n {
      FlattenPrefix(streams[..n], i, j);
      assert streams[..n][..i] == streams[..i];
    }
  }

  /** Where an entry lies in the flattened feed. */
  lemma EntryOfFeed(streams: seq<Stream>, i: nat, j: nat)
    requires i < |streams| && j < |streams[i].points|
    ensures var k := |Flatten(streams[..i])| + j;
            k < |Flatten(streams)| && Flatten(streams)[k] == Entry(streams[i].id, streams[i].points[j])
            && Flatten(streams)[..k + 1] == Flatten(streams[..i]) + EntriesOf(streams[i].id, streams[i].points[..j + 1])
  {
    FlattenPrefix(streams, i, j + 1);
  }

  /** A feed whose first entries are typed and fit, but not one more, does not fit or is not typed. */
  lemma PrefixDecides(entries: seq<Entry>, k: nat, size: nat)
    requires k < |entries| && AllTyped(entries[..k])
    requires entries[k].point.value.NoValue?
             || |FeedText(entries[..k])| + |DatastreamText(entries[k].id, entries[k].point)| >= size
    ensures !(AllTyped(entries) && |FeedText(entries)| < size)
  {
    hide PointText, FeedText;
    if AllTyped(entries) {
      assert entries == entries[..k] + ([entries[k]] + entries[k + 1..]);
      FeedTextAppend(entries[..k], [entries[k]] + entries[k + 1..]);
      FeedTextAppend([entries[k]], entries[k + 1..]);
      FeedTextOfOne(entries[k]);
    }
  }

  /** Timestamps from the epoch on, as `xi_gmtime` needs them. */
  predicate FromEpoch(streams: seq<Stream>) {
    forall i, j :: 0 <= i < |streams| && 0 <= j < |streams[i].points| ==> 0 <= streams[i].points[j].timestamp
  }

  /** The buffer holds the text of some entries, and its NUL. */
  predicate HoldsFeed(buffer: string, entries: seq<Entry>, offset: nat) {
    AllTyped(entries) && offset == |FeedText(entries)| < |buffer|
    && buffer[..offset] == FeedText(entries) && buffer[offset] == '\0'
  }

  /** Whether the text of a feed's entries and its NUL fit. */
  predicate FeedFits(entries: seq<Entry>, size: nat) {
    AllTyped(entries) && |FeedText(entries)| < size
  }

  lemma HoldsOneMore(before: string, after: string, entries: seq<Entry>, e: Entry, offset: nat, next: nat)
    requires HoldsFeed(before, entries, offset) && !e.point.value.NoValue?
    requires next == offset + |DatastreamText(e.id, e.point)| < |after| && after[next] == '\0'
    requires after[..next] == before[..offset] + DatastreamText(e.id, e.point)
    ensures HoldsFeed(after, entries + [e], next)
  {
    hide DatastreamText, FeedText;
    FeedTextAppend(entries, [e]);
    FeedTextOfOne(e);
  }

  /** The inner loop of `http_encode_update_feed`: the datapoints of one datastream. */
  method StreamBody(buffer: array<char>, start: nat, streams: seq<Stream>, i: nat, clock: Clock, err: ErrorCell)
    returns (ok: bool, offset: nat)
    requires i < |streams| && FromEpoch(streams)
    requires HoldsFeed(buffer[..], Flatten(streams[..i]), start)
    modifies buffer, clock.brTime, err
    ensures ok ==> HoldsFeed(buffer[..], Flatten(streams[..i + 1]), offset) && err.last == old(err.last)
    ensures !ok ==> !FeedFits(Flatten(streams), buffer.Length) && err.last == HttpEncodeUpdateFeed
  {
    hide HoldsFeed, FeedText, Flatten, DatastreamText, FeedFits;
    offset := start;
    var stream := streams[i];
    ghost var done := Flatten(streams[..i]);
    var j := 0;
    assert done + EntriesOf(stream.id, stream.points[..0]) == done;
    while j < |stream.points|
      invariant 0 <= j <= |stream.points|
      invariant HoldsFeed(buffer[..], done + EntriesOf(stream.id, stream.points[..j]), offset)
      invariant err.last == old(err.last)
    {
      ghost var read := done + EntriesOf(stream.id, stream.points[..j]);
      ghost var before := buffer[..];
      var e := Entry(stream.id, stream.points[j]);
      HoldsBounds(before, read, offset);
      EntriesSoFar(done, stream.id, stream.points, j);
      var next;
      ok, next := AppendEntry(buffer, offset, e, clock, err);
      if !ok {
        FeedStops(streams, i, j, offset, buffer.Length, before);
        return false, offset;
      }
      HoldsOneMore(before, buffer[..], read, e, offset, next);
      offset := next;
      j := j + 1;
    }
    assert stream.points[..j] == stream.points;
    FlattenStep(streams, i);
    ok := true;
  }

  lemma HoldsBounds(buffer: string, entries: seq<Entry>, offset: nat)
    requires HoldsFeed(buffer, entries, offset)
    ensures offset < |buffer|
  {
  }

  lemma FeedStops(streams: seq<Stream>, i: nat, j: nat, offset: nat, size: nat, before: string)
    requires i < |streams| && j < |streams[i].points| && |before| == size
    requires HoldsFeed(before, Flatten(streams[..i]) + EntriesOf(streams[i].id, streams[i].points[..j]), offset)
    requires var p := streams[i].points[j]; p.value.NoValue? || offset + |DatastreamText(streams[i].id, p)| >= size
    ensures !FeedFits(Flatten(streams), size)
  {
    hide DatastreamText, FeedText, Flatten;
    var entries, k := Flatten(streams), |Flatten(streams[..i])| + j;
    EntryOfFeed(streams, i, j);
    EntriesSoFar(Flatten(streams[..i]), streams[i].id, streams[i].points, j);
    var read := Flatten(streams[..i]) + EntriesOf(streams[i].id, streams[i].points[..j]);
    assert entries[..k] == entries[..k + 1][..k] == read;
    PrefixDecides(entries, k, size);
  }

  /** The data part of `http_encode_update_feed`, on a cleared buffer. */
  method FeedBody(buffer: array<char>, streams: seq<Stream>, clock: Clock, err: ErrorCell) returns (ok: bool)
    requires buffer.Length > 0 && FromEpoch(streams)
    modifies buffer, clock.brTime, err
    ensures ok <==> FeedFits(Flatten(streams), buffer.Length)
    ensures ok ==> HoldsFeed(buffer[..], Flatten(streams), |FeedText(Flatten(streams))|)
    ensures err.last == if ok then old(err.last) else HttpEncodeUpdateFeed
  {
    hide FeedText;
    forall i | 0 <= i < buffer.Length {
      buffer[i] := '\0';
    }
    var offset := 0;
    var i := 0;
    EmptyFeedText();
    assert Flatten(streams[..0]) == [];
    hide Flatten, FeedFits, HoldsFeed;
    assert HoldsFeed(buffer[..], Flatten(streams[..0]), 0) by {
      NothingHeld(buffer[..]);
    }
    while i < |streams|
      invariant 0 <= i <= |streams|
      invariant HoldsFeed(buffer[..], Flatten(streams[..i]), offset)
      invariant err.last == old(err.last)
    {
      ok, offset := StreamBody(buffer, offset, streams, i, clock, err);
      if !ok {
        return false;
      }
      i := i + 1;
    }
    assert streams[..i] == streams;
    HoldsFits(buffer[..], Flatten(streams), offset);
    ok := true;
  }

  lemma EmptyFeedText()
    ensures FeedText([]) == []
  {
  }

  lemma NothingHeld(buffer: string)
    requires |buffer| > 0 && buffer[0] == '\0'
    ensures HoldsFeed(buffer, [], 0)
  {
  }

  lemma HoldsFits(buffer: string, entries: seq<Entry>, offset: nat)
    requires HoldsFeed(buffer, entries, offset)
    ensures FeedFits(entries, |buffer|) && offset == |FeedText(entries)|
  {
  }

  /** The loop of `http_encode_get_feed` that joins the ids, on a cleared buffer. */
  method JoinBody(buffer: array<char>, ids: seq<string>, err: ErrorCell) returns (ok: bool)
    requires buffer.Length > 0
    modifies buffer, err
    ensures ok <==> |JoinText(ids)| < buffer.Length
    ensures ok ==> buffer[..|JoinText(ids)|] == JoinText(ids) && buffer[|JoinText(ids)|] == '\0'
    ensures err.last == if ok then old(err.last) else HttpEncodeUpdateFeed
  {
    forall i | 0 <= i < buffer.Length {
      buffer[i] := '\0';
    }
    assert JoinText(ids[..0]) == [];
    hide JoinText;
    var offset := 0;
    var i := 0;
    while i < |ids|
      invariant 0 <= i <= |ids| && offset == |JoinText(ids[..i])| < buffer.Length
      invariant buffer[..offset] == JoinText(ids[..i]) && buffer[offset] == '\0'
      invariant err.last == old(err.last)
    {
      JoinStep(ids, i);
      ghost var before := buffer[..];
      ok, offset := Append(buffer, 0, buffer.Length, offset, (if i == 0 then "?datastreams=" else ",") + ids[i],
                           err, HttpEncodeUpdateFeed);
      if !ok {
        return false;
      }
      assert buffer[..offset] == buffer[0..0 + offset];
      i := i + 1;
    }
    assert ids[..i] == ids;
    ok := true;
  }

  lemma JoinStep(ids: seq<string>, i: nat)
    requires i < |ids|
    ensures JoinText(ids[..i + 1]) == JoinText(ids[..i]) + ((if i == 0 then "?datastreams=" else ",") + ids[i])
    ensures |JoinText(ids)| >= |JoinText(ids[..i + 1])|
  {
    assert ids[..i + 1][..i] == ids[..i];
    JoinGrows(ids, i + 1);
  }

  lemma {:induction false} JoinGrows(ids: seq<string>, i: nat)
    requires i <= |ids|
    ensures JoinText(ids[..i]) <= JoinText(ids)
    decreases |ids|
  {
    if i < |ids| {
      JoinGrows(ids[..|ids| - 1], i);
      assert ids[..|ids| - 1][..i] == ids[..i];
    } else {
      assert ids[..i] == ids;
    }
  }

  // ----- whole requests ---------------------------------------------------------------------

  /**
    A request that updates a feed, as a reader sees it: the line, exactly the six fields, the length of
    the body among them, and the body behind the blank line; or four fields and no body.
   */
  predicate IsUpdate(r: Request, feed_id: nat, host: string, agent: string, key: string, body: string, sized: bool) {
    && r.verb == "PUT" && r.target == "/v2/feeds/" + PrintInt(ToInt32(feed_id), 0) + ".csv" && r.version == "HTTP/1.1"
    && |r.fields| == (if sized then 6 else 4)
    && r.fields[0] == Field("Host", host) && r.fields[1] == Field("User-Agent", agent)
    && r.fields[2] == Field("Accept", "*/*") && r.fields[3] == Field("X-ApiKey", key)
    && (if sized
        then r.fields[4] == Field("Content-Type", "text/plain")
             && r.fields[5].name == "Content-Length" && Atoi(r.fields[5].value) == |body|
             && r.rest == body + "\r\n"
        else r.rest == "\r\n")
  }

  lemma UpdateIsRead(feed_id: nat, host: string, agent: string, key: string, body: string, sized: bool)
    requires '\r' !in host && '\r' !in agent && '\r' !in key
    ensures var query := QueryText("PUT", FeedIdText(feed_id), [], host, agent, key);
            var content := if sized then Some(ContentText(|body|)) else None;
            var r := ReadRequest(ConcatText(query, content, Some(body)));
            r.Some? && IsUpdate(r.value, feed_id, host, agent, key, body, sized)
  {
    hide QueryText, ContentText, ReadRequest, ConcatText, PrintInt, Atoi;
    var id := FeedIdText(feed_id);
    PrintIntIsFreeOf(ToInt32(feed_id), 0, '\r');
    AtoiPrinted(|body|);
    FeedTarget(feed_id);
    if sized {
      SizedRequestIsRead("PUT", id, [], host, agent, key, body);
    } else {
      BareRequestIsRead("PUT", id, [], host, agent, key, Some(body));
    }
  }

  lemma FeedTarget(feed_id: nat)
    ensures "/v2/feeds" + FeedIdText(feed_id) + ".csv" + [] == "/v2/feeds/" + PrintInt(ToInt32(feed_id), 0) + ".csv"
  {
    hide PrintInt;
    assert "/v2/feeds/" == "/v2/feeds" + "/";
  }

  lemma RequestHasNoNul(query: string, content: Option<string>, body: string)
    requires '\0' !in query && '\0' !in body && (content.Some? ==> '\0' !in content.value)
    ensures '\0' !in ConcatText(query, content, Some(body))
  {
  }

  /** The static buffers of `http_transport_layer.c`. */
  class Transport {
    const queries: Queries
    const buffer: array<char>
    const data: array<char>
    const clock: Clock

    constructor (queries: Queries, bufferSize: nat, dataSize: nat)
      requires queries.Valid() && bufferSize > 0 && dataSize > 0
      ensures Valid() && fresh(buffer) && fresh(data) && fresh(clock) && fresh(clock.brTime) && this.queries == queries
      ensures buffer.Length == bufferSize && data.Length == dataSize
    {
      this.queries := queries;
      buffer := new char[bufferSize](_ => '\0');
      data := new char[dataSize](_ => '\0');
      clock := new Clock();
    }

    predicate Valid() {
      && queries.Valid() && buffer.Length > 0 && data.Length > 0 && buffer != data
      && queries.idBuffer != data && queries.queryBuffer != data && queries.contentBuffer != data
      && queries.idBuffer != buffer && queries.queryBuffer != buffer && queries.contentBuffer != buffer
    }

    /** The query line and headers of the request that updates a feed. */
    function UpdateQuery(feed_id: nat, key: string): string {
      QueryText("PUT", FeedIdText(feed_id), [], queries.host, queries.agent, key)
    }

    /** The content headers for the text of a feed. */
    function UpdateContent(entries: seq<Entry>): string
      requires AllTyped(entries)
    {
      ContentText(|CStr(FeedText(entries))|)
    }

    /** The request that updates a feed; content headers that do not fit their buffer are left out with the body. */
    function UpdateRequest(feed_id: nat, entries: seq<Entry>, key: string): string
      requires AllTyped(entries)
    {
      var headers := UpdateContent(entries);
      var content := if |headers| < queries.contentBuffer.Length then Some(headers) else None;
      ConcatText(UpdateQuery(feed_id, key), content, Some(CStr(FeedText(entries))))
    }

    /**
      `http_encode_update_feed` writes exactly the request, or fails when the feed's text, the id, the
      query or the request does not fit its buffer or a value has no type. Content headers that do not
      fit leave an error behind although the call succeeds.
     */
    method EncodeUpdateFeed(feed_id: nat, streams: seq<Stream>, key: string, err: ErrorCell) returns (ok: bool)
      requires Valid() && FromEpoch(streams)
      requires '\0' !in key && '\0' !in queries.host && '\0' !in queries.agent
      modifies buffer, data, queries.idBuffer, queries.queryBuffer, queries.contentBuffer, clock.brTime, err
      ensures ok <==>
                && FeedFits(Flatten(streams), data.Length)
                && |FeedIdText(feed_id)| < queries.idBuffer.Length
                && |UpdateQuery(feed_id, key)| < queries.queryBuffer.Length
                && |UpdateRequest(feed_id, Flatten(streams), key)| < buffer.Length
      ensures ok ==> var text := UpdateRequest(feed_id, Flatten(streams), key);
                     buffer[..|text|] == text && buffer[|text|] == '\0'
      ensures err.last ==
              if !FeedFits(Flatten(streams), data.Length) then HttpEncodeUpdateFeed
              else if |FeedIdText(feed_id)| >= queries.idBuffer.Length then HttpConstructContentBufferOverrun
              else if |UpdateQuery(feed_id, key)| >= queries.queryBuffer.Length then HttpConstructRequestBufferOverrun
              else if !ok then HttpEncodeCreateDatastream
              else if |UpdateContent(Flatten(streams))| >= queries.contentBuffer.Length then HttpConstructContentBufferOverrun
              else old(err.last)
      ensures ok && '\r' !in key && '\r' !in queries.host && '\r' !in queries.agent ==>
                var sized := |UpdateContent(Flatten(streams))| < queries.contentBuffer.Length;
                var r := ReadRequest(CStr(buffer[..]));
                r.Some? && IsUpdate(r.value, feed_id, queries.host, queries.agent, key, CStr(FeedText(Flatten(streams))), sized)
    {
      hide QueryText, ConcatText, ContentText, FeedText, Flatten, FeedIdText, FeedFits, HoldsFeed;
      ok := FeedBody(data, streams, clock, err);
      FitsTyped(Flatten(streams), data.Length);
      if !ok {
        return false;
      }
      FeedReads(data[..], Flatten(streams), |FeedText(Flatten(streams))|);
      ok := queries.ConstructRequestFeed("PUT", feed_id, key, None, err);
      if !ok {
        return false;
      }
      var body := CStr(data[..]);
      var content := queries.ConstructContent(|body|, err);
      FeedIdHasNoNul(feed_id);
      QueryHasNoNul("PUT", FeedIdText(feed_id), [], queries.host, queries.agent, key);
      ReadsBack(queries.queryBuffer[..], UpdateQuery(feed_id, key));
      ok := EncodeConcat(buffer, CStr(queries.queryBuffer[..]), content, Some(body), err);
      if ok {
        ContentHasNoNul(|body|);
        RequestHasNoNul(UpdateQuery(feed_id, key), content, body);
        ReadsBack(buffer[..], UpdateRequest(feed_id, Flatten(streams), key));
        if '\r' !in key && '\r' !in queries.host && '\r' !in queries.agent {
          UpdateIsRead(feed_id, queries.host, queries.agent, key, body, content.Some?);
        }
      }
    }
  }

  lemma FitsTyped(entries: seq<Entry>, size: nat)
    ensures FeedFits(entries, size) ==> AllTyped(entries)
  {
  }

  lemma FeedIdHasNoNul(feed_id: nat)
    ensures '\0' !in FeedIdText(feed_id)
  {
    hide PrintInt;
    PrintIntIsFreeOf(ToInt32(feed_id), 0, '\0');
  }

  lemma FeedReads(data: string, entries: seq<Entry>, offset: nat)
    requires HoldsFeed(data, entries, offset)
    ensures CStr(data) == CStr(FeedText(entries))
  {
    hide FeedText;
    BufferReads(data, FeedText(entries));
  }

  lemma QueryHasNoNul(http_method: string, id: string, suffix: string, host: string, agent: string, key: string)
    requires '\0' !in http_method && '\0' !in id && '\0' !in suffix && '\0' !in host && '\0' !in agent && '\0' !in key
    ensures '\0' !in QueryText(http_method, id, suffix, host, agent, key)
  {
  }
}
