/** What the response parser reads back from a well-formed response, and from its checklist. */
module HttpRender {
  import opened XiErr
  import opened CText
  import opened HttpReader
  import opened HttpEncode
  import opened HttpParser

  // ----- rendered responses -----------------------------------------------------------------

  /** The status line, section 6.1 of RFC 2616, without its line end. */
  function StatusLine(s: Status): string {
    "HTTP/" + (PrintInt(s.version1, 0) + ("." + (PrintInt(s.version2, 0)
    + (" " + (PrintInt(s.status, 0) + (" " + s.reason))))))
  }

  function ResponseText(s: Status, fields: seq<Field>, payload: string): string {
    StatusLine(s) + CRLF + (FieldsText(fields) + (CRLF + payload))
  }

  /** Neither a line end nor the end of the string. */
  predicate OneLine(s: string) {
    '\r' !in s && '\n' !in s && '\0' !in s
  }

  /** A status whose line can be scanned; its reason may be too long for its array. */
  predicate GoodStatus(s: Status) {
    && s.version1 >= 0 && s.version2 >= 0 && s.status >= 0
    && s.reason != [] && OneLine(s.reason) && !IsSpace(s.reason[0])
  }

  predicate ReasonFits(s: Status) {
    |s.reason| <= 31
  }

  predicate GoodFields(fields: seq<Field>) {
    forall i :: 0 <= i < |fields| ==> GoodField(fields[i])
  }

  predicate GoodField(f: Field) {
    && OneLine(f.name) && ':' !in f.name && |f.name| <= 63
    && OneLine(f.value) && |f.value| <= 63
  }

  // ----- finding line ends and the blank line -----------------------------------------------

  /** A search may start behind places where the pattern does not occur. */
  lemma FindBehind(s: string, pat: string, k: nat)
    requires k <= |s| && forall i :: 0 <= i < k ==> !OccursAt(s, pat, i)
    ensures var r := Find(s[k..], pat, 0); Find(s, pat, 0) == if r < 0 then -1 else k + r
  {
    var r := Find(s[k..], pat, 0);
    forall j | 0 <= j
      ensures OccursAt(s, pat, k + j) <==> OccursAt(s[k..], pat, j)
    {
      if k + j + |pat| <= |s| {
        assert s[k..][j..j + |pat|] == s[k + j..k + j + |pat|];
      }
    }
    forall i | 0 <= i && (r < 0 || i < k + r)
      ensures !OccursAt(s, pat, i)
    {
      if i >= k {
        assert !OccursAt(s[k..], pat, i - k);
        assert !OccursAt(s, pat, k + (i - k));
      }
    }
    if r >= 0 {
      FindFirst(s, pat, 0, k + r);
    }
  }

  lemma NoBlankInLine(line: string, rest: string)
    requires '\r' !in line && rest != [] && rest[0] != '\r'
    ensures forall i :: 0 <= i < |line| + 2 ==> !OccursAt(line + CRLF + rest, CRLFX2, i)
  {
    var s := line + CRLF + rest;
    forall i | 0 <= i < |line| + 2
      ensures !OccursAt(s, CRLFX2, i)
    {
      if i != |line| {
        StartsWithReturn(s, i);
      } else if i + 4 <= |s| {
        assert s[i..i + 4][2] == rest[0];
      }
    }
  }

  /** A line followed by another line does not end with the blank line. */
  lemma BlankBehindLine(line: string, rest: string)
    requires '\r' !in line && rest != [] && rest[0] != '\r'
    ensures var r, k := Find(rest, CRLFX2, 0), |line| + 2;
            Find(line + CRLF + rest, CRLFX2, 0) == if r < 0 then -1 else k + r
  {
    hide OccursAt, Find;
    var s := line + CRLF + rest;
    NoBlankInLine(line, rest);
    assert s[|line| + 2..] == rest;
    FindBehind(s, CRLFX2, |line| + 2);
  }

  lemma BlankAfterLine(line: string, rest: string)
    requires '\r' !in line
    ensures Find(line + CRLF + (CRLF + rest), CRLFX2, 0) == |line|
  {
    var s := line + CRLF + (CRLF + rest);
    forall i | 0 <= i < |line|
      ensures !OccursAt(s, CRLFX2, i)
    {
      StartsWithReturn(s, i);
    }
    BlankThere(line, rest);
    hide OccursAt, Find;
    FindFirst(s, CRLFX2, 0, |line|);
  }

  lemma BlankThere(line: string, rest: string)
    ensures OccursAt(line + CRLF + (CRLF + rest), CRLFX2, |line|)
  {
    var s := line + CRLF + (CRLF + rest);
    assert s[|line|..|line| + 4] == CRLFX2;
  }

  lemma FieldLineIsOneLine(f: Field)
    requires GoodField(f)
    ensures '\r' !in FieldLine(f) && FieldLine(f) != [] && FieldLine(f)[0] != '\r'
  {
  }

  /** The blank line of a response is the one behind its headers. */
  lemma {:induction false} BlankBehindFields(fields: seq<Field>, payload: string)
    requires fields != [] && GoodFields(fields)
    ensures var text := FieldsText(fields) + (CRLF + payload);
            && |FieldsText(fields)| >= 2 && text[0] != '\r'
            && Find(text, CRLFX2, 0) == |FieldsText(fields)| - 2
  {
    hide FieldLine, GoodField, Find;
    var line, rest := FieldLine(fields[0]), FieldsText(fields[1..]);
    assert GoodField(fields[0]);
    FieldLineIsOneLine(fields[0]);
    var text := FieldsText(fields) + (CRLF + payload);
    assert text == line + CRLF + (rest + (CRLF + payload));
    if |fields| == 1 {
      assert rest + (CRLF + payload) == CRLF + payload;
      BlankAfterLine(line, payload);
    } else {
      BlankBehindFields(fields[1..], payload);
      BlankBehindLine(line, rest + (CRLF + payload));
    }
  }

  // ----- the status line --------------------------------------------------------------------

  /** As much of a reason as the scanner takes. */
  function Taken(reason: string, max: nat): string {
    if |reason| < max then reason else reason[..max]
  }

  lemma {:induction false} ScanReasonOf(reason: string, rest: string, max: nat)
    requires OneLine(reason) && rest != [] && rest[0] == '\r'
    ensures ScanReason(reason + rest, max) == Taken(reason, max)
  {
    if reason == [] {
      assert reason + rest == rest;
    } else if max > 0 {
      assert (reason + rest)[1..] == reason[1..] + rest;
      ScanReasonOf(reason[1..], rest, max - 1);
      assert Taken(reason, max) == [reason[0]] + Taken(reason[1..], max - 1);
    }
  }

  lemma ScanNumberOf(n: nat, rest: string)
    requires rest != [] && !IsDigit(rest[0])
    ensures ScanNumber(PrintInt(n, 0) + rest) == Some((n, rest))
  {
    hide Dec, ScanInt;
    ScanDigits(Dec(n), rest, |Dec(n) + rest|);
  }

  lemma SpaceBefore(s: string)
    requires s != [] && !IsSpace(s[0])
    ensures SkipSpace(" " + s) == s
  {
    assert (" " + s)[1..] == s;
  }

  lemma ScanStatusOf(s: Status, rest: string)
    requires GoodStatus(s)
    ensures ScanStatus(StatusLine(s) + (CRLF + rest)) == Some(s.(reason := Taken(s.reason, STATUS_STRING_SIZE)))
  {
    hide ScanNumber, PrintInt, SkipSpace, ScanReason;
    var tail := CRLF + rest;
    var t4 := s.reason + tail;
    var t3 := " " + t4;
    var t2 := PrintInt(s.status, 0) + t3;
    var t1 := PrintInt(s.version2, 0) + (" " + t2);
    var t0 := PrintInt(s.version1, 0) + ("." + t1);
    var text := StatusLine(s) + tail;
    StatusLineSplits(s, tail);
    assert text[5..] == t0;
    ScanNumberOf(s.version1, "." + t1);
    assert ("." + t1)[1..] == t1;
    ScanNumberOf(s.version2, " " + t2);
    PrintedDigit(s.status);
    SpaceBefore(t2);
    ScanNumberOf(s.status, t3);
    SpaceBefore(t4);
    ScanReasonOf(s.reason, tail, STATUS_STRING_SIZE);
  }

  lemma StatusLineSplits(s: Status, tail: string)
    ensures StatusLine(s) + tail
            == "HTTP/" + (PrintInt(s.version1, 0) + ("." + (PrintInt(s.version2, 0)
               + (" " + (PrintInt(s.status, 0) + (" " + (s.reason + tail)))))))
  {
    hide PrintInt;
  }

  lemma PrintedDigit(n: nat)
    ensures |PrintInt(n, 0)| > 0 && !IsSpace(PrintInt(n, 0)[0])
  {
    hide Dec;
    assert IsDigit(Dec(n)[0]);
  }

  lemma StatusLineIsOneLine(s: Status)
    requires GoodStatus(s)
    ensures '\r' !in StatusLine(s)
  {
    hide PrintInt;
    PrintIntIsFreeOf(s.version1, 0, '\r');
    PrintIntIsFreeOf(s.version2, 0, '\r');
    PrintIntIsFreeOf(s.status, 0, '\r');
  }

  // ----- the headers ------------------------------------------------------------------------

  function TypedField(f: Field): Header {
    TypedHeader(f.name, f.value)
  }

  function TypedFields(fields: seq<Field>): (headers: seq<Header>)
    ensures |headers| == |fields|
  {
    seq(|fields|, i requires 0 <= i < |fields| => TypedField(fields[i]))
  }

  /** One header line is read back whatever follows it. */
  lemma ReadField(f: Field, rest: string)
    requires GoodField(f)
    ensures ReadHeader(FieldLine(f) + CRLF + rest) == Done((TypedField(f), |FieldLine(f)| + 2))
  {
    hide Find, TypeOf;
    var text := FieldLine(f) + CRLF + rest;
    FieldLineIsOneLine(f);
    FindLineEnd(FieldLine(f), rest);
    assert text[0..|f.name|] == f.name;
    FindChar(text, ':', 0, |f.name|);
    assert text[..|f.name|] == f.name;
    assert text[|f.name| + 2..|FieldLine(f)|] == f.value;
  }

  lemma FirstField(pre: string, fields: seq<Field>, tail: string)
    requires fields != []
    ensures var line, rest := FieldLine(fields[0]) + CRLF, FieldsText(fields[1..]);
            var content := pre + (FieldsText(fields) + tail);
            && |FieldsText(fields)| == |line| + |rest| && |pre| <= |content|
            && content == pre + line + (rest + tail)
            && content[|pre|..] == line + (rest + tail)
  {
    var line, rest := FieldLine(fields[0]) + CRLF, FieldsText(fields[1..]);
    assert FieldsText(fields) == line + rest;
    hide FieldLine, FieldsText;
    Regroup(pre, line, rest, tail);
  }

  lemma Regroup(a: string, b: string, c: string, d: string)
    ensures a + (b + c + d) == a + b + (c + d)
    ensures (a + (b + c + d))[|a|..] == b + (c + d)
  {
  }

  lemma FirstTypedField(fields: seq<Field>)
    requires fields != []
    ensures TypedFields(fields) == [TypedField(fields[0])] + TypedFields(fields[1..])
  {
    hide TypedField;
  }

  /** A run of headers is read up to its end, unless there are too many. */
  lemma {:induction false} ReadFields(pre: string, fields: seq<Field>, payload: string, count: nat)
    requires fields != [] && GoodFields(fields)
    ensures ReadHeaders(pre + (FieldsText(fields) + (CRLF + payload)), |pre|, |pre| + |FieldsText(fields)|, count)
            == if count + |fields| < MAX_HEADERS then Done(TypedFields(fields)) else Failed(HttpHeaderParseError)
    decreases |fields|
  {
    hide FieldLine, GoodField, ReadHeader, TypedField, ReadHeaders, FieldsText, TypedFields;
    var line, rest, tail := FieldLine(fields[0]) + CRLF, FieldsText(fields[1..]), CRLF + payload;
    var content := pre + (FieldsText(fields) + tail);
    assert GoodField(fields[0]);
    FirstField(pre, fields, tail);
    ReadField(fields[0], rest + tail);
    ReadHeadersStep(content, |pre|, |pre| + |FieldsText(fields)|, count, TypedField(fields[0]), |line|);
    FirstTypedField(fields);
    if |fields| == 1 {
      NoFields(fields[1..]);
      assert [TypedField(fields[0])] + [] == [TypedField(fields[0])];
    } else {
      BlankBehindFields(fields[1..], payload);
      ReadFields(pre + line, fields[1..], payload, count + 1);
    }
  }

  lemma NoFields(fields: seq<Field>)
    requires fields == []
    ensures FieldsText(fields) == [] && TypedFields(fields) == []
  {
  }

  // ----- the whole response -----------------------------------------------------------------

  /** The blank line of a response, and what its status line is read as. */
  lemma ResponseStart(s: Status, rest: string)
    requires GoodStatus(s)
    ensures ReadStatus(StatusLine(s) + CRLF + rest)
            == if ReasonFits(s) then Done((s, |StatusLine(s)| + 2)) else Undefined
  {
    hide StatusLine, ScanStatus, Find;
    var line := StatusLine(s);
    StatusLineIsOneLine(s);
    FindLineEnd(line, rest);
    assert line + CRLF + rest == line + (CRLF + rest);
    ScanStatusOf(s, rest);
  }

  lemma ResponseBlank(s: Status, fields: seq<Field>, payload: string)
    requires GoodStatus(s) && GoodFields(fields)
    ensures var text := ResponseText(s, fields, payload);
            var blank := |StatusLine(s)| + |FieldsText(fields)|;
            Find(text, CRLFX2, 0) == blank && blank + 4 <= |text| && text[blank + 4..] == payload
  {
    hide StatusLine, FieldLine, Find, GoodField, GoodStatus;
    StatusLineIsOneLine(s);
    var rest := FieldsText(fields) + (CRLF + payload);
    if fields == [] {
      assert rest == CRLF + payload;
      BlankAfterLine(StatusLine(s), payload);
    } else {
      BlankBehindFields(fields, payload);
      BlankBehindLine(StatusLine(s), rest);
    }
  }

  /**
    What a response with good status and headers is read as. With 1 to 15 headers and a reason of at
    most 31 bytes everything comes back: the status, every header name and value in order, and the
    payload up to the size of the content array. A longer reason overruns its array, whatever follows;
    otherwise no header, or more than 15, is an error.
   */
  lemma RenderedResponse(s: Status, fields: seq<Field>, payload: string)
    requires GoodStatus(s) && GoodFields(fields) && '\0' !in payload
    ensures ReadReply(ResponseText(s, fields, payload)) ==
            if !ReasonFits(s) then Undefined
            else if 1 <= |fields| <= 15 then Done(Reply(s, TypedFields(fields), Kept(payload)))
            else Failed(HttpHeaderParseError)
  {
    hide GoodStatus, StatusLine, FieldsText, ReadStatus, ReadHeaders, Find, TypedFields;
    var line := StatusLine(s);
    var rest := FieldsText(fields) + (CRLF + payload);
    var text := line + CRLF + rest;
    ResponseStart(s, rest);
    ResponseBlank(s, fields, payload);
    if fields == [] {
      NoFields(fields);
      NothingOnBlank(s, payload);
    } else {
      ReadFields(line + CRLF, fields, payload, 0);
      PayloadKept(text, |line| + |FieldsText(fields)| + 4, payload);
    }
  }

  /** What the content array holds of a payload. */
  function Kept(payload: string): string {
    if |payload| < 192 then payload else payload[..192]
  }

  lemma PayloadKept(text: string, begin: nat, payload: string)
    requires begin <= |text| && text[begin..] == payload
    ensures Payload(text, begin) == Kept(payload)
  {
    if |payload| >= MAX_CONTENT_SIZE {
      assert text[begin..begin + MAX_CONTENT_SIZE] == payload[..MAX_CONTENT_SIZE];
    }
  }

  /** On the blank line there is no header to read. */
  lemma NothingOnBlank(s: Status, payload: string)
    requires GoodStatus(s)
    ensures var text := ResponseText(s, [], payload);
            |StatusLine(s)| + 2 <= |text|
            && ReadHeaders(text, |StatusLine(s)| + 2, |StatusLine(s)| + 2, 0) == Failed(HttpHeaderParseError)
  {
    hide StatusLine, Find, GoodStatus, ReadHeader;
    var line := StatusLine(s);
    var text := ResponseText(s, [], payload);
    assert text == line + CRLF + (CRLF + payload);
    ResponseBlank(s, [], payload);
    LineEndChars(text, |line|);
    CursorStep(text, |line| + 2, |line|);
  }

  /** With no header at all a response is an error. */
  lemma NoHeaders(s: Status, payload: string)
    requires GoodStatus(s) && ReasonFits(s) && '\0' !in payload
    ensures ReadReply(ResponseText(s, [], payload)) == Failed(HttpHeaderParseError)
  {
    RenderedResponse(s, [], payload);
  }

  // ----- headers without a value ------------------------------------------------------------

  /**
    The line of a header with any text behind its colon: the byte behind the colon is skipped unseen,
    up to 63 more are the value, and with nothing there the copy has a negative length.
   */
  lemma BareField(name: string, behind: string, rest: string)
    requires OneLine(name) && ':' !in name && |name| <= 63 && OneLine(behind)
    ensures ReadHeader(name + ":" + behind + CRLF + rest)
            == if behind == [] then Undefined
               else if |behind| <= 64 then Done((TypedHeader(name, behind[1..]), |name| + 1 + |behind| + 2))
               else Failed(HttpHeaderParseError)
  {
    hide Find, TypeOf;
    var line := name + ":" + behind;
    var text := line + CRLF + rest;
    FindLineEnd(line, rest);
    assert text[0..|name|] == name;
    FindChar(text, ':', 0, |name|);
    assert text[..|name|] == name;
    if behind != [] {
      assert text[|name| + 2..|line|] == behind[1..];
    }
  }

  /** After some headers the loop goes on with what is behind them. */
  lemma {:induction false} FieldsThen(pre: string, fields: seq<Field>, tail: string, headers_end: nat, count: nat)
    requires GoodFields(fields) && count + |fields| < MAX_HEADERS
    requires |pre| + |FieldsText(fields)| < headers_end
    ensures var content := pre + (FieldsText(fields) + tail);
            ReadHeaders(content, |pre|, headers_end, count)
            == Preceded(TypedFields(fields),
                        ReadHeaders(content, |pre| + |FieldsText(fields)|, headers_end, count + |fields|))
    decreases |fields|
  {
    hide FieldLine, GoodField, ReadHeader, TypedField, ReadHeaders, FieldsText, TypedFields;
    var content := pre + (FieldsText(fields) + tail);
    if fields == [] {
      NoFields(fields);
      PrecededTwice([], NO_HEADER, ReadHeaders(content, |pre|, headers_end, count));
    } else {
      var line, rest := FieldLine(fields[0]) + CRLF, FieldsText(fields[1..]);
      assert GoodField(fields[0]);
      FirstField(pre, fields, tail);
      ReadField(fields[0], rest + tail);
      ReadHeadersStep(content, |pre|, headers_end, count, TypedField(fields[0]), |line|);
      FieldsThen(pre + line, fields[1..], tail, headers_end, count + 1);
      FirstTypedField(fields);
      PrecededAll(TypedField(fields[0]), TypedFields(fields[1..]),
        ReadHeaders(content, |pre| + |FieldsText(fields)|, headers_end, count + |fields|));
    }
  }

  lemma PrecededAll(h: Header, read: seq<Header>, rest: Parsed<seq<Header>>)
    ensures Preceded([h], Preceded(read, rest)) == Preceded([h] + read, rest)
  {
    if rest.Done? {
      assert [h] + (read + rest.value) == [h] + read + rest.value;
    }
  }

  lemma {:induction false} BlankBehindLines(fields: seq<Field>, tail: string)
    requires GoodFields(fields) && tail != [] && tail[0] != '\r' && Find(tail, CRLFX2, 0) >= 0
    ensures var text := FieldsText(fields) + tail;
            text[0] != '\r' && Find(text, CRLFX2, 0) == |FieldsText(fields)| + Find(tail, CRLFX2, 0)
  {
    hide FieldLine, GoodField, Find;
    if fields == [] {
      assert FieldsText(fields) + tail == tail;
    } else {
      var line, rest := FieldLine(fields[0]), FieldsText(fields[1..]);
      assert GoodField(fields[0]);
      FieldLineIsOneLine(fields[0]);
      assert FieldsText(fields) + tail == line + CRLF + (rest + tail);
      BlankBehindLines(fields[1..], tail);
      BlankBehindLine(line, rest + tail);
    }
  }

  /** A response in which a header with nothing behind its colon is the last one. */
  function EmptyHeaderText(s: Status, fields: seq<Field>, name: string, payload: string): string {
    StatusLine(s) + CRLF + (FieldsText(fields) + EmptyHeaderTail(name, payload))
  }

  function EmptyHeaderTail(name: string, payload: string): string {
    name + ":" + CRLF + (CRLF + payload)
  }

  lemma EmptyHeaderBlank(s: Status, fields: seq<Field>, name: string, payload: string)
    requires GoodStatus(s) && GoodFields(fields) && OneLine(name)
    ensures Find(EmptyHeaderText(s, fields, name, payload), CRLFX2, 0)
            == |StatusLine(s)| + 2 + |FieldsText(fields)| + |name| + 1
  {
    hide StatusLine, FieldsText, Find, GoodField, GoodStatus;
    var tail := EmptyHeaderTail(name, payload);
    StatusLineIsOneLine(s);
    BlankAfterLine(name + ":", payload);
    BlankBehindLines(fields, tail);
    BlankBehindLine(StatusLine(s), FieldsText(fields) + tail);
  }

  lemma EmptyHeaderRead(pre: string, fields: seq<Field>, name: string, payload: string, headers_end: nat)
    requires GoodFields(fields) && |fields| <= 15
    requires OneLine(name) && ':' !in name && |name| <= 63
    requires |pre| + |FieldsText(fields)| < headers_end
    ensures ReadHeaders(pre + (FieldsText(fields) + EmptyHeaderTail(name, payload)), |pre|, headers_end, 0).Undefined?
  {
    hide FieldsText, ReadHeaders, ReadHeader, TypedFields, GoodField;
    var tail := EmptyHeaderTail(name, payload);
    var content, at := pre + (FieldsText(fields) + tail), |pre| + |FieldsText(fields)|;
    FieldsThen(pre, fields, tail, headers_end, 0);
    assert content[at..] == tail;
    assert name + ":" + [] + CRLF + (CRLF + payload) == tail;
    BareField(name, [], CRLF + payload);
    ReadHeadersStop(content, at, headers_end, |fields|);
    PrecededFailure(TypedFields(fields), HttpHeaderParseError);
  }

  /** Up to 15 good headers followed by one with nothing behind its colon, whatever its name. */
  lemma EmptyHeaderIsUndefined(s: Status, fields: seq<Field>, name: string, payload: string)
    requires GoodStatus(s) && GoodFields(fields) && |fields| <= 15
    requires OneLine(name) && ':' !in name && |name| <= 63
    ensures ReadReply(EmptyHeaderText(s, fields, name, payload)).Undefined?
  {
    hide StatusLine, FieldsText, ReadStatus, ReadHeaders, Find, GoodFields, GoodStatus, EmptyHeaderTail;
    EmptyHeaderBlank(s, fields, name, payload);
    ResponseStart(s, FieldsText(fields) + EmptyHeaderTail(name, payload));
    EmptyHeaderRead(StatusLine(s) + CRLF, fields, name, payload, |StatusLine(s)| + 2 + |FieldsText(fields)| + |name| + 3);
  }

  // ----- what a parsed response must look like ----------------------------------------------

  /** From `c` to `d` the text is the line of a header: its name, a colon, a byte unseen, its value and CRLF. */
  predicate IsHeaderLine(text: string, c: nat, d: nat, h: Header) {
    var colon := c + |h.name|;
    && colon + 4 <= d <= |text|
    && text[c..colon] == h.name && ':' !in h.name && text[colon] == ':'
    && text[colon + 2..d - 2] == h.value && text[d - 2] == '\r' && text[d - 1] == '\n'
    && |h.name| <= 63 && |h.value| <= 63
    && forall i :: c <= i < d - 2 ==> !(text[i] == '\r' && text[i + 1] == '\n')
  }

  lemma ReadLine(text: string)
    ensures match ReadHeader(text)
            case Done((h, moved)) => IsHeaderLine(text, 0, moved, h)
            case _ => true
  {
    hide TypeOf, Find;
    var end, colon := Find(text, CRLF, 0), Find(text, ":", 0);
    if ReadHeader(text).Done? {
      LineEndChars(text, end);
      assert text[colon..colon + 1][0] == ':';
      forall i | 0 <= i < end
        ensures !(text[i] == '\r' && text[i + 1] == '\n')
      {
        LineEndChars(text, i);
      }
      forall i | 0 <= i < colon
        ensures text[i] != ':'
      {
        assert !OccursAt(text, ":", i);
        assert text[i..i + 1] == [text[i]];
      }
    }
  }

  lemma LineShifts(text: string, at: nat, d: nat, h: Header)
    requires at <= |text| && IsHeaderLine(text[at..], 0, d, h)
    ensures IsHeaderLine(text, at, at + d, h)
  {
    var s, colon := text[at..], |h.name|;
    SliceOfSuffix(text, at, 0, colon);
    SliceOfSuffix(text, at, colon + 2, d - 2);
    forall i | at <= i < at + d - 2
      ensures !(text[i] == '\r' && text[i + 1] == '\n')
    {
      assert s[i - at] == text[i] && s[i - at + 1] == text[i + 1];
    }
  }

  lemma SliceOfSuffix(text: string, at: nat, i: nat, j: nat)
    requires at <= |text| && i <= j <= |text| - at
    ensures text[at..][i..j] == text[at + i..at + j]
  {
  }

  /** Consecutive lines from the first cursor to the last give the headers in order. */
  predicate AreHeaderLines(text: string, cursors: seq<nat>, headers: seq<Header>) {
    |cursors| == |headers| + 1
    && forall i :: 0 <= i < |headers| ==> IsHeaderLine(text, cursors[i], cursors[i + 1], headers[i])
  }

  lemma MoreHeaderLines(text: string, c: nat, h: Header, cursors: seq<nat>, headers: seq<Header>)
    requires AreHeaderLines(text, cursors, headers) && IsHeaderLine(text, c, cursors[0], h)
    ensures AreHeaderLines(text, [c] + cursors, [h] + headers)
  {
    hide IsHeaderLine;
    forall i | 0 <= i < |[h] + headers|
      ensures IsHeaderLine(text, ([c] + cursors)[i], ([c] + cursors)[i + 1], ([h] + headers)[i])
    {
      if i > 0 {
        assert IsHeaderLine(text, cursors[i - 1], cursors[i], headers[i - 1]);
      }
    }
  }

  lemma {:induction false} HeadersAreLines(text: string, ptr: nat, headers_end: nat, count: nat)
    requires ptr <= |text|
    ensures var read, cursors := ReadHeaders(text, ptr, headers_end, count), Cursors(text, ptr, headers_end, count);
            read.Done? ==>
              && AreHeaderLines(text, cursors, read.value) && cursors[0] == ptr && cursors[|cursors| - 1] == headers_end
              && 1 <= |read.value| && count + |read.value| < 16
    decreases |text| - ptr
  {
    hide ReadHeader, IsHeaderLine, AreHeaderLines;
    ReadLine(text[ptr..]);
    HeaderMoves(text[ptr..]);
    var got := ReadHeader(text[ptr..]);
    if got.Done? && ReadHeaders(text, ptr, headers_end, count).Done? {
      var (h, moved) := got.value;
      LineShifts(text, ptr, moved, h);
      if ptr + moved == headers_end {
        NoHeaderLines(text, headers_end);
        MoreHeaderLines(text, ptr, h, [headers_end], []);
        assert [ptr] + [headers_end] == [ptr, headers_end] && [h] + [] == [h];
      } else {
        HeadersAreLines(text, ptr + moved, headers_end, count + 1);
        var rest := ReadHeaders(text, ptr + moved, headers_end, count + 1);
        MoreHeaderLines(text, ptr, h, Cursors(text, ptr + moved, headers_end, count + 1), rest.value);
      }
    }
  }

  lemma NoHeaderLines(text: string, at: nat)
    ensures AreHeaderLines(text, [at], [])
  {
  }

  /** A response as the parser accepts it, taken apart at the given places. */
  ghost predicate IsResponse(text: string, cursors: seq<nat>, reply: Reply) {
    && |text| >= 5 && text[..5] == "HTTP/"
    && 1 <= |reply.headers| <= 15 && AreHeaderLines(text, cursors, reply.headers)
    && var first, last := cursors[0], cursors[|cursors| - 1];
       && 7 <= first <= |text| && text[first - 2..first] == "\r\n"
       && 2 <= last <= |text| - 2 && text[last - 2..last + 2] == "\r\n\r\n"
       && (forall i :: 0 <= i < last - 2 ==> !OccursAt(text, "\r\n\r\n", i))
       && reply.content == if |text| - (last + 2) < 192 then text[last + 2..] else text[last + 2..last + 194]
  }

  /**
    Whatever is parsed starts with `HTTP/`, has 1 to 15 header lines between its first line and the
    first blank line, each giving the name and value of its header, and the payload behind it. Without
    a blank line parsing fails.
   */
  lemma ParsedIsResponse(text: string)
    ensures ReadReply(text).Done? ==> exists cursors :: IsResponse(text, cursors, ReadReply(text).value)
    ensures (forall i :: !OccursAt(text, "\r\n\r\n", i)) ==> ReadReply(text) == Failed(HttpParseError)
  {
    hide ReadReply, IsResponse;
    if ReadReply(text).Done? {
      ParsedParts(text);
    }
    NoBlankFails(text);
  }

  lemma NoBlankFails(text: string)
    ensures (forall i :: !OccursAt(text, "\r\n\r\n", i)) ==> ReadReply(text) == Failed(HttpParseError)
  {
    hide ReadHeaders, ReadStatus;
    assert CRLFX2 == "\r\n\r\n";
  }

  lemma ParsedParts(text: string)
    requires ReadReply(text).Done?
    ensures exists cursors :: IsResponse(text, cursors, ReadReply(text).value)
  {
    hide ReadReply, ReadHeaders, Cursors, ReadStatus, AreHeaderLines, OccursAt, Find, Payload;
    ReplyParts(text);
    var blank, ptr := Find(text, CRLFX2, 0), ReadStatus(text).value.1;
    var cursors := Cursors(text, ptr, blank + 2, 0);
    HeadersAreLines(text, ptr, blank + 2, 0);
    StatusLineStarts(text);
    BlankIsFirst(text, blank);
    PayloadIs(text, blank + 4);
    assert IsResponse(text, cursors, ReadReply(text).value);
  }

  /** What a parsed response is made of. */
  lemma ReplyParts(text: string)
    requires ReadReply(text).Done?
    ensures var blank, reply := Find(text, CRLFX2, 0), ReadReply(text).value;
            && 0 <= blank && blank + 4 <= |text| && ReadStatus(text).Done? && ReadStatus(text).value.1 <= |text|
            && ReadHeaders(text, ReadStatus(text).value.1, blank + 2, 0) == Done(reply.headers)
            && reply.content == Payload(text, blank + 4)
  {
    StatusMoves(text);
    hide ReadHeaders, ReadStatus, Payload;
  }

  lemma PayloadIs(text: string, begin: nat)
    requires begin <= |text|
    ensures Payload(text, begin) == if |text| - begin < 192 then text[begin..] else text[begin..begin + 192]
  {
  }

  lemma StatusLineStarts(text: string)
    requires ReadStatus(text).Done?
    ensures var ptr := ReadStatus(text).value.1;
            |text| >= 5 && text[..5] == "HTTP/" && 7 <= ptr <= |text| && text[ptr - 2..ptr] == "\r\n"
  {
    hide ScanNumber, SkipSpace, ScanReason;
    var end := Find(text, CRLF, 0);
    assert OccursAt(text, CRLF, end);
    LineEndChars(text, end);
    assert forall i :: 0 <= i < 5 ==> text[i] == "HTTP/"[i];
    assert end >= 5;
  }

  lemma BlankIsFirst(text: string, blank: int)
    requires BlankAt(text, blank)
    ensures blank + 4 <= |text| && text[blank..blank + 4] == "\r\n\r\n"
    ensures forall i :: 0 <= i < blank ==> !OccursAt(text, "\r\n\r\n", i)
  {
    assert OccursAt(text, CRLFX2, blank);
  }

  // ----- the checklist ----------------------------------------------------------------------

  /**
    Whatever response was parsed: the entry of each of the six types refers to the last header whose
    name is the type's but for letter case, and is empty if and only if there is none.
   */
  lemma ChecklistFindsNames(content: string)
    ensures ReadReply(content).Done? ==>
              var headers := ReadReply(content).value.headers;
              && SlotFor(LastOf(headers, Date), headers, "date")
              && SlotFor(LastOf(headers, ContentType), headers, "content-type")
              && SlotFor(LastOf(headers, ContentLength), headers, "content-length")
              && SlotFor(LastOf(headers, Connection), headers, "connection")
              && SlotFor(LastOf(headers, XRequestId), headers, "x-request-id")
              && SlotFor(LastOf(headers, CacheControl), headers, "cache-control")
  {
    hide ReadReply, LastOf, SlotFor, AllTypedHeaders;
    ReplyTyped(content);
    if ReadReply(content).Done? {
      LastHeaders(ReadReply(content).value.headers);
    }
  }

  /** The slots of the other types stay empty, as no name is classified as theirs. */
  lemma OtherSlotsStayEmpty(content: string, t: HeaderType)
    requires t == Vary || t == Count || t == Age
    ensures ReadReply(content).Done? ==> LastOf(ReadReply(content).value.headers, t) == None
  {
    hide ReadReply, LastOf, AllTypedHeaders;
    ReplyTyped(content);
    if ReadReply(content).Done? {
      NoneOf(ReadReply(content).value.headers, t);
    }
  }
}
