/** `http_layer_parser.c`: the parser of HTTP responses. */
module HttpParser {
  import opened XiErr
  import opened CText
  import opened HttpEncode

  const MAX_HEADERS := 16
  const STATUS_STRING_SIZE := 32
  const NAME_MAX_SIZE := 64
  const VALUE_MAX_SIZE := 64
  const MAX_CONTENT_SIZE := 192
  const CRLFX2 := "\r\n\r\n"

  /** What a C function did, or that the standard does not say what it does. */
  datatype Parsed<+T> = Done(value: T) | Failed(error: Error) | Undefined

  // ----- header types -----------------------------------------------------------------------

  /** `http_header_type_t`, in its order. */
  datatype HeaderType =
    | Date | ContentType | ContentLength | Connection | XRequestId | CacheControl
    | Vary | Count | Age | UnknownHeader

  const ENUMERATION: seq<HeaderType> :=
    [Date, ContentType, ContentLength, Connection, XRequestId, CacheControl, Vary, Count, Age, UnknownHeader]

  /** The names a header is compared with; from the seventh on they are not those of `ENUMERATION`. */
  const TOKEN_NAMES: seq<string> :=
    ["date", "content-type", "content-length", "connection", "x-request-id", "cache-control", "age", "vary", "unknown"]

  /** `XI_HTTP_HEADER_COUNT - 1`: the number of names that are tried. */
  const TRIED := 6

  function LowerChar(c: char): char {
    if 'A' <= c <= 'Z' then (c as int + 32) as char else c
  }

  function Lower(s: string): (r: string)
    ensures |r| == |s|
  {
    seq(|s|, i requires 0 <= i < |s| => LowerChar(s[i]))
  }

  /** The type of a header name: that of the first tried name equal to it but for letter case. */
  function TypeOf(name: string, from: nat): HeaderType
    decreases TRIED - from
  {
    if from >= TRIED then UnknownHeader
    else if Lower(name) == TOKEN_NAMES[from] then ENUMERATION[from]
    else TypeOf(name, from + 1)
  }

  /** `classify_header`. */
  method ClassifyHeader(header: string) returns (ht: HeaderType)
    ensures ht == TypeOf(header, 0)
  {
    var i := 0;
    while i < TRIED
      invariant 0 <= i <= TRIED
      invariant TypeOf(header, 0) == TypeOf(header, i)
    {
      if Lower(header) == TOKEN_NAMES[i] {
        return ENUMERATION[i];
      }
      i := i + 1;
    }
    return UnknownHeader;
  }

  /** The same character, or the two cases of one letter. */
  predicate SameButCaseChar(a: char, b: char) {
    || a == b
    || ('A' <= a <= 'Z' && b as int == a as int + 32)
    || ('A' <= b <= 'Z' && a as int == b as int + 32)
  }

  /** Equal as `strcasecmp` compares: of one length, and the same but for letter case at every index. */
  predicate SameButCase(s: string, t: string) {
    |s| == |t| && forall i :: 0 <= i < |s| ==> SameButCaseChar(s[i], t[i])
  }

  predicate NoCapitals(t: string) {
    forall i :: 0 <= i < |t| ==> !('A' <= t[i] <= 'Z')
  }

  /** Folding compares as `strcasecmp` does. */
  lemma FoldingIsSameButCase(s: string, t: string)
    requires NoCapitals(t)
    ensures Lower(s) == t <==> SameButCase(s, t)
  {
    if |s| == |t| {
      forall i | 0 <= i < |s|
        ensures Lower(s)[i] == t[i] <==> SameButCaseChar(s[i], t[i])
      {
        FoldedChar(s[i], t[i]);
      }
    }
  }

  lemma FoldedChar(a: char, b: char)
    requires !('A' <= b <= 'Z')
    ensures LowerChar(a) == b <==> SameButCaseChar(a, b)
  {
    assert 'A' <= a <= 'Z' ==> LowerChar(a) as int == a as int + 32;
  }

  /** The six names that are recognised, with the types they stand for. */
  lemma TriedNames()
    ensures TOKEN_NAMES[..6] == ["date", "content-type", "content-length", "connection", "x-request-id", "cache-control"]
    ensures ENUMERATION[..6] == [Date, ContentType, ContentLength, Connection, XRequestId, CacheControl]
    ensures forall k :: 0 <= k < 6 ==> NoCapitals(TOKEN_NAMES[k])
  {
    CapitalFree("date");
    CapitalFree("content-type");
    CapitalFree("content-length");
    CapitalFree("connection");
    CapitalFree("x-request-id");
    CapitalFree("cache-control");
  }

  lemma CapitalFree(t: string)
    requires t in ["date", "content-type", "content-length", "connection", "x-request-id", "cache-control"]
    ensures NoCapitals(t)
  {
  }

  /** By index: each of the types tried stands for its own name. */
  lemma ByIndex(name: string)
    ensures forall k :: 0 <= k < TRIED ==> (TypeOf(name, 0) == ENUMERATION[k] <==> Lower(name) == TOKEN_NAMES[k])
    ensures TypeOf(name, 0) == UnknownHeader <==> forall k :: 0 <= k < TRIED ==> Lower(name) != TOKEN_NAMES[k]
    ensures TypeOf(name, 0) in ENUMERATION[..TRIED] + [UnknownHeader]
  {
    NamesDiffer();
    assert TypeOf(name, 5) == if Lower(name) == TOKEN_NAMES[5] then CacheControl else UnknownHeader;
    assert TypeOf(name, 3) == if Lower(name) == TOKEN_NAMES[3] then Connection
                              else if Lower(name) == TOKEN_NAMES[4] then XRequestId else TypeOf(name, 5);
    assert TypeOf(name, 1) == if Lower(name) == TOKEN_NAMES[1] then ContentType
                              else if Lower(name) == TOKEN_NAMES[2] then ContentLength else TypeOf(name, 3);
  }

  /**
    A header is of a recognised type if and only if its name is that type's but for letter case; every
    other name, "age" and "vary" too, is unknown.
   */
  lemma SixNames(name: string)
    ensures TypeOf(name, 0) == Date <==> SameButCase(name, "date")
    ensures TypeOf(name, 0) == ContentType <==> SameButCase(name, "content-type")
    ensures TypeOf(name, 0) == ContentLength <==> SameButCase(name, "content-length")
    ensures TypeOf(name, 0) == Connection <==> SameButCase(name, "connection")
    ensures TypeOf(name, 0) == XRequestId <==> SameButCase(name, "x-request-id")
    ensures TypeOf(name, 0) == CacheControl <==> SameButCase(name, "cache-control")
    ensures TypeOf(name, 0) in {Date, ContentType, ContentLength, Connection, XRequestId, CacheControl, UnknownHeader}
  {
    hide TypeOf, Lower, SameButCase;
    ByIndex(name);
    TriedNames();
    forall k | 0 <= k < 6
      ensures Lower(name) == TOKEN_NAMES[k] <==> SameButCase(name, TOKEN_NAMES[k])
    {
      FoldingIsSameButCase(name, TOKEN_NAMES[k]);
    }
    assert TOKEN_NAMES[..6][0] == TOKEN_NAMES[0] && TOKEN_NAMES[..6][1] == TOKEN_NAMES[1] && TOKEN_NAMES[..6][2] == TOKEN_NAMES[2];
    assert TOKEN_NAMES[..6][3] == TOKEN_NAMES[3] && TOKEN_NAMES[..6][4] == TOKEN_NAMES[4] && TOKEN_NAMES[..6][5] == TOKEN_NAMES[5];
  }

  lemma NamesDiffer()
    ensures forall i, j :: 0 <= i < j < TRIED ==> TOKEN_NAMES[i] != TOKEN_NAMES[j]
  {
    assert |TOKEN_NAMES[0]| == 4 && |TOKEN_NAMES[1]| == 12 && |TOKEN_NAMES[2]| == 14;
    assert |TOKEN_NAMES[3]| == 10 && |TOKEN_NAMES[4]| == 12 && |TOKEN_NAMES[5]| == 13;
    assert TOKEN_NAMES[1][0] == 'c' && TOKEN_NAMES[4][0] == 'x';
  }

  // ----- the status line --------------------------------------------------------------------

  datatype Status = Status(version1: int, version2: int, status: int, reason: string)

  /** `%32[^\r\n]`: up to 32 characters before a line end character. */
  function ScanReason(s: string, max: nat): (reason: string)
    ensures |reason| <= max && |reason| <= |s| && reason == s[..|reason|]
    ensures '\r' !in reason && '\n' !in reason
    ensures |reason| == max || |reason| == |s| || s[|reason|] == '\r' || s[|reason|] == '\n'
  {
    if max == 0 || s == [] || s[0] == '\r' || s[0] == '\n' then [] else [s[0]] + ScanReason(s[1..], max - 1)
  }

  /** `%d` without a width. */
  function ScanNumber(s: string): Option<(int, string)> {
    ScanInt(s, |s|)
  }

  /** `sscanf` with "HTTP/%d.%d %d %32[^\r\n]\r\n"; nothing unless all four conversions succeed. */
  function ScanStatus(content: string): Option<Status> {
    if !("HTTP/" <= content) then None
    else
      match ScanNumber(content[5..])
      case None => None
      case Some((v1, t1)) =>
        if t1 == [] || t1[0] != '.' then None
        else
          match ScanNumber(t1[1..])
          case None => None
          case Some((v2, t2)) =>
            match ScanNumber(SkipSpace(t2))
            case None => None
            case Some((status, t3)) =>
              var reason := ScanReason(SkipSpace(t3), STATUS_STRING_SIZE);
              if reason == [] then None else Some(Status(v1, v2, status, reason))
  }

  /** `parse_http_status`: the status and how far the cursor moves; a reason of 32 bytes overruns its array. */
  function ReadStatus(content: string): Parsed<(Status, nat)> {
    var header_end := Find(content, CRLF, 0);
    if header_end < 0 || ScanStatus(content).None? then Failed(HttpStatusParseError)
    else if |ScanStatus(content).value.reason| >= STATUS_STRING_SIZE then Undefined
    else Done((ScanStatus(content).value, header_end + 2))
  }

  // ----- one header -------------------------------------------------------------------------

  datatype Header = Header(header_type: HeaderType, name: string, value: string)

  function TypedHeader(name: string, value: string): Header {
    Header(TypeOf(name, 0), name, value)
  }

  /**
    The line `parse_http_header` reads at the cursor, and how far the cursor moves. The byte after the
    colon is skipped unseen; without one the length passed to `memcpy` would be negative.
   */
  function ReadHeader(content: string): Parsed<(Header, nat)> {
    var header_end := Find(content, CRLF, 0);
    var name_end := Find(content, ":", 0);
    if header_end < 0 || name_end < 0 || name_end > header_end then Failed(HttpHeaderParseError)
    else if name_end > NAME_MAX_SIZE - 1 then Failed(HttpHeaderParseError)
    else if header_end - (name_end + 2) > VALUE_MAX_SIZE - 1 then Failed(HttpHeaderParseError)
    else if header_end < name_end + 2 then Undefined
    else Done((TypedHeader(content[..name_end], content[name_end + 2..header_end]), header_end + 2))
  }

  /** The loop of `parse_http`, `count` headers having been read before; the sixteenth is an error. */
  function ReadHeaders(content: string, ptr: nat, headers_end: nat, count: nat): Parsed<seq<Header>>
    requires ptr <= |content|
    decreases |content| - ptr
  {
    match ReadHeader(content[ptr..])
    case Failed(e) => Failed(e)
    case Undefined => Undefined
    case Done((header, moved)) =>
      if count + 1 >= MAX_HEADERS then Failed(HttpHeaderParseError)
      else if ptr + moved == headers_end then Done([header])
      else Preceded([header], ReadHeaders(content, ptr + moved, headers_end, count + 1))
  }

  /** Headers read before in front of what is read next. */
  function Preceded(read: seq<Header>, rest: Parsed<seq<Header>>): Parsed<seq<Header>> {
    match rest
    case Done(headers) => Done(read + headers)
    case Failed(e) => Failed(e)
    case Undefined => Undefined
  }

  datatype Reply = Reply(status: Status, headers: seq<Header>, content: string)

  /** `strncpy` of the payload into the content array. */
  function Payload(content: string, begin: nat): string
    requires begin <= |content|
  {
    if |content| - begin < MAX_CONTENT_SIZE then content[begin..] else content[begin..begin + MAX_CONTENT_SIZE]
  }

  /** What `parse_http` makes of a response when the last error is clear. */
  function ReadReply(content: string): Parsed<Reply> {
    var blank := Find(content, CRLFX2, 0);
    if blank < 0 then Failed(HttpParseError)
    else
      match ReadStatus(content)
      case Failed(_) => Failed(HttpParseError)
      case Undefined => Undefined
      case Done((status, ptr)) =>
        match ReadHeaders(content, ptr, blank + 2, 0)
        case Failed(e) => Failed(e)
        case Undefined => Undefined
        case Done(headers) => Done(Reply(status, headers, Payload(content, blank + 4)))
  }

  // ----- the cursor -------------------------------------------------------------------------

  /** The blank line found by the initial search. */
  ghost predicate BlankAt(content: string, blank: int) {
    blank == Find(content, CRLFX2, 0) && blank >= 0
  }

  /** A cursor that has just passed a line end. */
  predicate AfterLine(content: string, ptr: int) {
    2 <= ptr <= |content| && content[ptr - 2] == '\r' && content[ptr - 1] == '\n'
  }

  lemma BlankChars(content: string, blank: int)
    requires BlankAt(content, blank)
    ensures blank + 4 <= |content|
    ensures content[blank] == '\r' && content[blank + 1] == '\n' && content[blank + 2] == '\r' && content[blank + 3] == '\n'
  {
    var four := content[blank..blank + 4];
    assert four == CRLFX2;
    assert four[0] == content[blank] && four[1] == content[blank + 1];
    assert four[2] == content[blank + 2] && four[3] == content[blank + 3];
  }

  lemma LineEndChars(content: string, at: int)
    ensures OccursAt(content, CRLF, at) <==>
              0 <= at && at + 2 <= |content| && content[at] == '\r' && content[at + 1] == '\n'
  {
    if 0 <= at && at + 2 <= |content| {
      var two := content[at..at + 2];
      assert two[0] == content[at] && two[1] == content[at + 1];
    }
  }

  /** The first line end at or before the blank line: the cursor cannot jump over it. */
  lemma LineEndsByBlank(content: string, ptr: nat, blank: int)
    requires BlankAt(content, blank) && ptr <= blank + 2
    ensures ptr <= |content|
    ensures var s := content[ptr..]; var end := Find(s, CRLF, 0);
            && 0 <= end && AfterLine(content, ptr + end + 2)
            && (ptr <= blank ==> ptr + end <= blank)
            && (ptr == blank + 2 ==> end == 0)
  {
    BlankChars(content, blank);
    var s := content[ptr..];
    var at := if ptr <= blank then blank - ptr else blank + 2 - ptr;
    LineEndChars(s, at);
    LineEndChars(s, Find(s, CRLF, 0));
  }

  /** Cursors after a line end never stop between the two line ends of the blank line. */
  lemma CursorSkipsMiddle(content: string, ptr: nat, blank: int)
    requires BlankAt(content, blank) && AfterLine(content, ptr) && ptr <= blank + 2
    ensures ptr <= blank || ptr == blank + 2
  {
    BlankChars(content, blank);
  }

  /**
    From a cursor before the blank line a header moves the cursor strictly forward and at most to the
    blank line; from a cursor on it there is no header to read.
   */
  lemma CursorStep(content: string, ptr: nat, blank: int)
    requires BlankAt(content, blank) && AfterLine(content, ptr) && ptr <= blank + 2
    ensures match ReadHeader(content[ptr..])
            case Done((_, moved)) => ptr < ptr + moved <= blank + 2 && AfterLine(content, ptr + moved) && ptr <= blank
            case _ => ptr == blank + 2 ==> ReadHeader(content[ptr..]) == Failed(HttpHeaderParseError)
  {
    CursorSkipsMiddle(content, ptr, blank);
    LineEndsByBlank(content, ptr, blank);
    BlankChars(content, blank);
    var s := content[ptr..];
    if ptr == blank + 2 && Find(s, ":", 0) >= 0 {
      assert s[0] == '\r';
      assert OccursAt(s, ":", Find(s, ":", 0));
      assert s[Find(s, ":", 0)..Find(s, ":", 0) + 1][0] == ':';
    }
  }

  /** The cursors of the loop, from the one before the first header to the last one. */
  function Cursors(content: string, ptr: nat, headers_end: nat, count: nat): (cursors: seq<nat>)
    requires ptr <= |content|
    ensures |cursors| >= 1 && cursors[0] == ptr
    decreases |content| - ptr
  {
    match ReadHeader(content[ptr..])
    case Done((_, moved)) =>
      if count + 1 >= MAX_HEADERS || ptr + moved == headers_end then [ptr, ptr + moved]
      else [ptr] + Cursors(content, ptr + moved, headers_end, count + 1)
    case _ => [ptr]
  }

  /** Cursors that move strictly forward and never past a limit. */
  predicate Climbs(cursors: seq<nat>, limit: int) {
    |cursors| >= 1 && cursors[0] <= limit
    && forall i :: 0 < i < |cursors| ==> cursors[i - 1] < cursors[i] <= limit
  }

  lemma ClimbsFrom(ptr: nat, rest: seq<nat>, limit: int)
    requires Climbs(rest, limit) && ptr < rest[0]
    ensures Climbs([ptr] + rest, limit)
  {
    var cursors := [ptr] + rest;
    forall i | 0 < i < |cursors|
      ensures cursors[i - 1] < cursors[i] <= limit
    {
      assert cursors[i] == rest[i - 1];
      if i > 1 {
        assert cursors[i - 1] == rest[i - 2];
      }
    }
  }

  /**
    The loop either fails or ends with the cursor exactly on the blank line; every cursor on the way
    is beyond the one before and none is past the blank line.
   */
  lemma {:induction false} CursorLandsOnBlank(content: string, ptr: nat, blank: int, count: nat)
    requires BlankAt(content, blank) && AfterLine(content, ptr) && ptr <= blank + 2
    ensures var cursors, read := Cursors(content, ptr, blank + 2, count), ReadHeaders(content, ptr, blank + 2, count);
            && Climbs(cursors, blank + 2)
            && (read.Done? ==> cursors[|cursors| - 1] == blank + 2 && |cursors| == |read.value| + 1 >= 2)
    decreases |content| - ptr
  {
    hide ReadHeader, Climbs;
    CursorStep(content, ptr, blank);
    ClimbsAlone(ptr, blank + 2);
    match ReadHeader(content[ptr..])
    case Done((_, moved)) =>
      ClimbsAlone(ptr + moved, blank + 2);
      ClimbsFrom(ptr, [ptr + moved], blank + 2);
      assert [ptr, ptr + moved] == [ptr] + [ptr + moved];
      if count + 1 < MAX_HEADERS && ptr + moved != blank + 2 {
        CursorLandsOnBlank(content, ptr + moved, blank, count + 1);
        ClimbsFrom(ptr, Cursors(content, ptr + moved, blank + 2, count + 1), blank + 2);
      }
    case _ =>
  }

  lemma ClimbsAlone(ptr: nat, limit: int)
    requires ptr <= limit
    ensures Climbs([ptr], limit)
  {
  }

  /** For a whole response: from the end of the status line the cursor climbs to the blank line, or parsing fails. */
  lemma ReplyCursor(content: string)
    ensures var blank := Find(content, CRLFX2, 0);
            blank >= 0 && ReadStatus(content).Done? ==>
              var ptr := ReadStatus(content).value.1;
              && ptr <= blank + 2 <= |content|
              && var cursors := Cursors(content, ptr, blank + 2, 0);
                 && Climbs(cursors, blank + 2)
                 && (ReadReply(content).Done? ==> cursors[|cursors| - 1] == blank + 2 && |cursors| >= 2)
  {
    hide ReadHeaders, Cursors, ReadStatus, Find, Climbs, AfterLine;
    var blank := Find(content, CRLFX2, 0);
    if blank >= 0 && ReadStatus(content).Done? {
      StatusCursor(content, blank);
      BlankChars(content, blank);
      CursorLandsOnBlank(content, ReadStatus(content).value.1, blank, 0);
    }
  }

  /** The status line ends at or before the blank line. */
  lemma StatusCursor(content: string, blank: int)
    requires BlankAt(content, blank) && ReadStatus(content).Done?
    ensures var ptr := ReadStatus(content).value.1; ptr <= blank + 2 && AfterLine(content, ptr)
  {
    hide ScanStatus, Find;
    LineEndsByBlank(content, 0, blank);
    assert content[0..] == content;
  }

  // ----- the response structure -------------------------------------------------------------

  /** The last header of a type. */
  function LastOf(headers: seq<Header>, t: HeaderType): Option<nat> {
    if headers == [] then None
    else if headers[|headers| - 1].header_type == t then Some(|headers| - 1)
    else LastOf(headers[..|headers| - 1], t)
  }

  function TypeIndex(t: HeaderType): (i: nat)
    ensures i < |ENUMERATION| && ENUMERATION[i] == t
  {
    match t
    case Date => 0
    case ContentType => 1
    case ContentLength => 2
    case Connection => 3
    case XRequestId => 4
    case CacheControl => 5
    case Vary => 6
    case Count => 7
    case Age => 8
    case UnknownHeader => 9
  }

  lemma {:induction false} LastOfMeaning(headers: seq<Header>, t: HeaderType)
    ensures match LastOf(headers, t)
            case None => forall i :: 0 <= i < |headers| ==> headers[i].header_type != t
            case Some(k) =>
              && k < |headers| && headers[k].header_type == t
              && forall i :: k < i < |headers| ==> headers[i].header_type != t
  {
    if headers != [] && headers[|headers| - 1].header_type != t {
      var init := headers[..|headers| - 1];
      LastOfMeaning(init, t);
      assert forall i :: 0 <= i < |init| ==> headers[i] == init[i];
    }
  }

  predicate AllTypedHeaders(headers: seq<Header>) {
    forall i :: 0 <= i < |headers| ==> headers[i].header_type == TypeOf(headers[i].name, 0)
  }

  lemma {:induction false} ReadHeadersTyped(content: string, ptr: nat, headers_end: nat, count: nat)
    requires ptr <= |content|
    ensures var read := ReadHeaders(content, ptr, headers_end, count); read.Done? ==> AllTypedHeaders(read.value)
    decreases |content| - ptr
  {
    hide TypeOf, Find;
    HeaderMoves(content[ptr..]);
    if ReadHeader(content[ptr..]).Done? {
      ReadHeadersTyped(content, ptr + ReadHeader(content[ptr..]).value.1, headers_end, count + 1);
    }
  }

  lemma ReplyTyped(content: string)
    ensures ReadReply(content).Done? ==> AllTypedHeaders(ReadReply(content).value.headers)
  {
    hide ReadHeaders, ReadStatus, TypeOf, Find, AllTypedHeaders;
    if ReadReply(content).Done? {
      StatusMoves(content);
      ReadHeadersTyped(content, ReadStatus(content).value.1, Find(content, CRLFX2, 0) + 2, 0);
    }
  }

  /** A slot refers to the last header of a name, letter case aside, and is empty if there is none. */
  predicate SlotFor(slot: Option<nat>, headers: seq<Header>, name: string) {
    match slot
    case None => forall i :: 0 <= i < |headers| ==> !SameButCase(headers[i].name, name)
    case Some(k) =>
      && k < |headers| && SameButCase(headers[k].name, name)
      && forall i :: k < i < |headers| ==> !SameButCase(headers[i].name, name)
  }

  /** The checklist by the names it stands for; four slots have none. */
  predicate ChecklistByName(slots: seq<Option<nat>>, headers: seq<Header>) {
    && |slots| == 10
    && SlotFor(slots[0], headers, "date") && SlotFor(slots[1], headers, "content-type")
    && SlotFor(slots[2], headers, "content-length") && SlotFor(slots[3], headers, "connection")
    && SlotFor(slots[4], headers, "x-request-id") && SlotFor(slots[5], headers, "cache-control")
    && slots[6] == slots[7] == slots[8] == slots[9] == None
  }

  lemma SlotByName(headers: seq<Header>, t: HeaderType, name: string)
    requires AllTypedHeaders(headers)
    requires forall n :: TypeOf(n, 0) == t <==> SameButCase(n, name)
    ensures SlotFor(LastOf(headers, t), headers, name)
  {
    hide TypeOf, SameButCase, LastOf;
    LastOfMeaning(headers, t);
  }

  /** The last headers of the types are the last headers of the names. */
  lemma LastHeaders(headers: seq<Header>)
    requires AllTypedHeaders(headers)
    ensures SlotFor(LastOf(headers, Date), headers, "date") && SlotFor(LastOf(headers, ContentType), headers, "content-type")
    ensures SlotFor(LastOf(headers, ContentLength), headers, "content-length")
    ensures SlotFor(LastOf(headers, Connection), headers, "connection")
    ensures SlotFor(LastOf(headers, XRequestId), headers, "x-request-id")
    ensures SlotFor(LastOf(headers, CacheControl), headers, "cache-control")
    ensures LastOf(headers, Vary) == LastOf(headers, Count) == LastOf(headers, Age) == None
  {
    hide TypeOf, SameButCase, LastOf, SlotFor, AllTypedHeaders;
    forall n: string
      ensures TypeOf(n, 0) == Date <==> SameButCase(n, "date")
      ensures TypeOf(n, 0) == ContentType <==> SameButCase(n, "content-type")
      ensures TypeOf(n, 0) == ContentLength <==> SameButCase(n, "content-length")
      ensures TypeOf(n, 0) == Connection <==> SameButCase(n, "connection")
      ensures TypeOf(n, 0) == XRequestId <==> SameButCase(n, "x-request-id")
      ensures TypeOf(n, 0) == CacheControl <==> SameButCase(n, "cache-control")
    {
      SixNames(n);
    }
    SlotByName(headers, Date, "date");
    SlotByName(headers, ContentType, "content-type");
    SlotByName(headers, ContentLength, "content-length");
    SlotByName(headers, Connection, "connection");
    SlotByName(headers, XRequestId, "x-request-id");
    SlotByName(headers, CacheControl, "cache-control");
    NoneOf(headers, Vary);
    NoneOf(headers, Count);
    NoneOf(headers, Age);
  }

  lemma NoneOf(headers: seq<Header>, t: HeaderType)
    requires AllTypedHeaders(headers) && (t == Vary || t == Count || t == Age)
    ensures LastOf(headers, t) == None
  {
    hide TypeOf, SameButCase, LastOf;
    LastOfMeaning(headers, t);
    if LastOf(headers, t).Some? {
      SixNames(headers[LastOf(headers, t).value].name);
    }
  }

  /** A checklist kept by type is one kept by name. */
  lemma IndexedByName(slots: seq<Option<nat>>, headers: seq<Header>)
    requires AllTypedHeaders(headers) && |slots| == |ENUMERATION|
    requires forall i :: 0 <= i < |ENUMERATION| ==>
               slots[i] == if i == TypeIndex(UnknownHeader) then None else LastOf(headers, ENUMERATION[i])
    ensures ChecklistByName(slots, headers)
  {
    hide AllTypedHeaders, LastOf, SlotFor;
    LastHeaders(headers);
    assert ENUMERATION[0] == Date && ENUMERATION[1] == ContentType && ENUMERATION[2] == ContentLength;
    assert ENUMERATION[3] == Connection && ENUMERATION[4] == XRequestId && ENUMERATION[5] == CacheControl;
    assert ENUMERATION[6] == Vary && ENUMERATION[7] == Count && ENUMERATION[8] == Age;
  }

  const NO_STATUS := Status(0, 0, 0, [])
  const NO_HEADER := Header(Date, [], [])

  /** `http_response_t`; a checklist slot refers to a header by its index. */
  class Response {
    var status: Status
    const headers: array<Header>
    var headers_size: nat
    const checklist: array<Option<nat>>
    var content: string

    constructor ()
      ensures Valid() && fresh(headers) && fresh(checklist) && headers_size == 0
    {
      status, headers_size, content := NO_STATUS, 0, [];
      headers := new Header[MAX_HEADERS](_ => NO_HEADER);
      checklist := new Option<nat>[|ENUMERATION|](_ => None);
    }

    predicate Valid()
      reads this
    {
      headers.Length == MAX_HEADERS && checklist.Length == |ENUMERATION| && headers_size <= MAX_HEADERS
    }

    function Headers(): (h: seq<Header>)
      requires Valid()
      reads this, headers
      ensures |h| == headers_size
    {
      headers[..headers_size]
    }

    /** Every slot refers to the last header of its type, and is empty if there is none. */
    predicate Indexed()
      requires Valid()
      reads this, headers, checklist
    {
      forall i :: 0 <= i < |ENUMERATION| ==>
        checklist[i] == if i == TypeIndex(UnknownHeader) then None else LastOf(Headers(), ENUMERATION[i])
    }

    /** `memset` of the whole structure. */
    method Clear()
      requires Valid()
      modifies this, headers, checklist
      ensures Valid() && Indexed() && headers_size == 0 && status == NO_STATUS && content == []
    {
      status, headers_size, content := NO_STATUS, 0, [];
      forall i | 0 <= i < headers.Length {
        headers[i] := NO_HEADER;
      }
      forall i | 0 <= i < checklist.Length {
        checklist[i] := None;
      }
    }

    /** `parse_http_status`. */
    method ParseStatus(text: string, err: ErrorCell) returns (moved: Parsed<nat>)
      requires Valid()
      modifies this`status, err
      ensures match ReadStatus(text)
              case Done((s, k)) => moved == Done(k) && status == s && err.last == old(err.last)
              case Undefined => moved == Undefined
              case Failed(e) => moved == Failed(e) && err.last == e
    {
      hide Find, ScanStatus;
      var header_end := Find(text, CRLF, 0);
      if header_end < 0 {
        err.Set(HttpStatusParseError);
        return Failed(HttpStatusParseError);
      }
      header_end := header_end + 2;
      var c := ScanStatus(text);
      if c.None? {
        err.Set(HttpStatusParseError);
        return Failed(HttpStatusParseError);
      }
      if |c.value.reason| >= STATUS_STRING_SIZE {
        return Undefined;
      }
      status := c.value;
      return Done(header_end);
    }

    /** The end of `parse_http_header`: the header in the next slot is classified, entered and counted. */
    method FinishHeader()
      requires Valid() && Indexed() && headers_size < MAX_HEADERS
      modifies this`headers_size, headers, checklist
      ensures Valid() && Indexed()
      ensures Headers() == old(Headers()) + [old(TypedHeader(headers[headers_size].name, headers[headers_size].value))]
    {
      hide LastOf, TypeOf, Lower;
      ghost var before := Headers();
      var slot := headers_size;
      var ht := ClassifyHeader(headers[slot].name);
      if ht != UnknownHeader {
        checklist[TypeIndex(ht)] := Some(slot);
      }
      headers[slot] := headers[slot].(header_type := ht);
      headers_size := headers_size + 1;
      assert Headers() == before + [headers[slot]];
      IndexedOneMore(before, headers[slot]);
    }

    /** `parse_http_header`: one more header, entered in the checklist unless its type is unknown. */
    method ParseHeader(text: string, err: ErrorCell) returns (moved: Parsed<nat>)
      requires Valid() && Indexed() && headers_size < MAX_HEADERS
      modifies this`headers_size, headers, checklist, err
      ensures Valid()
      ensures match ReadHeader(text)
              case Failed(e) => moved == Failed(e) && err.last == e && Headers() == old(Headers())
              case Undefined => moved == Undefined
              case Done((h, k)) =>
                && Headers() == old(Headers()) + [h] && Indexed()
                && (if headers_size >= MAX_HEADERS
                    then moved == Failed(HttpHeaderParseError) && err.last == HttpHeaderParseError
                    else moved == Done(k) && err.last == old(err.last))
    {
      hide Find, LastOf, TypeOf;
      var header_end := Find(text, CRLF, 0);
      var name_end := Find(text, ":", 0);
      if header_end < 0 || name_end < 0 || name_end > header_end {
        err.Set(HttpHeaderParseError);
        return Failed(HttpHeaderParseError);
      }
      if name_end > NAME_MAX_SIZE - 1 {
        err.Set(HttpHeaderParseError);
        return Failed(HttpHeaderParseError);
      }
      ghost var before := Headers();
      var slot := headers_size;
      headers[slot] := headers[slot].(name := text[..name_end]);
      assert headers[..slot] == before;
      var value_begin := name_end + 2;
      if header_end - value_begin > VALUE_MAX_SIZE - 1 {
        err.Set(HttpHeaderParseError);
        return Failed(HttpHeaderParseError);
      }
      if header_end < value_begin {
        return Undefined;
      }
      headers[slot] := headers[slot].(value := text[value_begin..header_end]);
      FinishHeader();
      if headers_size >= MAX_HEADERS {
        err.Set(HttpHeaderParseError);
        return Failed(HttpHeaderParseError);
      }
      return Done(header_end + 2);
    }

    /**
      `parse_http`. Whatever error was left in the cell before the call makes a good response fail.
     */
    method Parse(text: string, err: ErrorCell) returns (r: Parsed<()>)
      requires Valid()
      modifies this, headers, checklist, err
      ensures Valid()
      ensures match ReadReply(text)
              case Undefined => r == Undefined
              case Failed(e) => r == Failed(e) && err.last == e
              case Done(reply) =>
                && Headers() == reply.headers && status == reply.status
                && Indexed() && ChecklistByName(checklist[..], Headers())
                && (if old(err.last) == NoErr
                    then r == Done(()) && err.last == NoErr && content == reply.content
                    else r == Failed(old(err.last)) && err.last == old(err.last))
    {
      hide Find, ReadStatus, ReadHeader, LastOf, TypeOf, ChecklistByName, AllTypedHeaders;
      Clear();
      var blank := Find(text, CRLFX2, 0);
      if blank < 0 {
        err.Set(HttpParseError);
        return Failed(HttpParseError);
      }
      BlankChars(text, blank);
      var headers_end := blank + 2;
      var payload_begin := headers_end + 2;
      var moved := ParseStatus(text, err);
      if moved.Undefined? {
        return Undefined;
      }
      if moved.Failed? {
        err.Set(HttpParseError);
        return Failed(HttpParseError);
      }
      StatusMoves(text);
      var ptr := moved.value;
      moved := ReadAll(text, ptr, headers_end, err);
      if moved.Undefined? {
        return Undefined;
      }
      ReplyTyped(text);
      if moved.Done? {
        IndexedByName(checklist[..], Headers());
      }
      var e := err.GetLast();
      if e != NoErr {
        err.Set(e);
        return Failed(e);
      }
      content := Payload(text, payload_begin);
      return Done(());
    }

    /** The loop of `parse_http`. */
    method ReadAll(text: string, start: nat, headers_end: nat, err: ErrorCell) returns (moved: Parsed<nat>)
      requires Valid() && Indexed() && headers_size == 0 && start <= |text|
      modifies this`headers_size, headers, checklist, err
      ensures Valid()
      ensures match ReadHeaders(text, start, headers_end, 0)
              case Undefined => moved == Undefined
              case Failed(e) => moved == Failed(e) && err.last == e && e != NoErr
              case Done(h) => moved.Done? && Headers() == h && Indexed() && err.last == old(err.last)
    {
      hide ReadHeader, LastOf, ReadHeaders, Preceded;
      var ptr := start;
      moved := Done(0);
      PrecededTwice([], NO_HEADER, ReadHeaders(text, start, headers_end, 0));
      assert Headers() == [];
      while true
        invariant Valid() && Indexed() && headers_size < MAX_HEADERS && ptr <= |text|
        invariant err.last == old(err.last)
        invariant ReadHeaders(text, start, headers_end, 0)
                  == Preceded(Headers(), ReadHeaders(text, ptr, headers_end, headers_size))
        decreases |text| - ptr
      {
        ghost var read := Headers();
        ghost var got := ReadHeader(text[ptr..]);
        HeaderMoves(text[ptr..]);
        ReadHeadersStop(text, ptr, headers_end, headers_size);
        if got.Done? {
          ReadHeadersStep(text, ptr, headers_end, headers_size, got.value.0, got.value.1);
          PrecededTwice(read, got.value.0, ReadHeaders(text, ptr + got.value.1, headers_end, headers_size + 1));
          PrecededDone(read, got.value.0);
        }
        PrecededFailure(read, HttpHeaderParseError);
        moved := ParseHeader(text[ptr..], err);
        if moved.Undefined? || moved.Failed? {
          return;
        }
        ptr := ptr + moved.value;
        if ptr == headers_end {
          return;
        }
      }
    }
  }

  lemma StatusMoves(text: string)
    ensures ReadStatus(text).Done? ==> ReadStatus(text).value.1 <= |text|
  {
    hide ScanStatus;
    assert OccursAt(text, CRLF, Find(text, CRLF, 0)) || Find(text, CRLF, 0) == -1;
  }

  lemma HeaderMoves(text: string)
    ensures ReadHeader(text).Done? ==> 0 < ReadHeader(text).value.1 <= |text|
    ensures ReadHeader(text).Failed? ==> ReadHeader(text).error == HttpHeaderParseError
  {
  }

  lemma PrecededTwice(read: seq<Header>, h: Header, rest: Parsed<seq<Header>>)
    ensures Preceded(read, Preceded([h], rest)) == Preceded(read + [h], rest)
    ensures Preceded([], rest) == rest
  {
    if rest.Done? {
      assert read + ([h] + rest.value) == read + [h] + rest.value;
      assert [] + rest.value == rest.value;
    }
  }

  lemma ReadHeadersStop(content: string, ptr: nat, headers_end: nat, count: nat)
    requires ptr <= |content|
    ensures match ReadHeader(content[ptr..])
            case Failed(e) => ReadHeaders(content, ptr, headers_end, count) == Failed(e)
            case Undefined => ReadHeaders(content, ptr, headers_end, count) == Undefined
            case Done(_) => true
  {
    hide ReadHeader;
  }

  lemma ReadHeadersStep(content: string, ptr: nat, headers_end: nat, count: nat, h: Header, moved: nat)
    requires ptr <= |content| && ReadHeader(content[ptr..]) == Done((h, moved))
    ensures ptr + moved <= |content|
    ensures ReadHeaders(content, ptr, headers_end, count)
            == if count + 1 >= MAX_HEADERS then Failed(HttpHeaderParseError)
               else if ptr + moved == headers_end then Done([h])
               else Preceded([h], ReadHeaders(content, ptr + moved, headers_end, count + 1))
  {
    hide ReadHeader, Preceded;
    HeaderMoves(content[ptr..]);
    var got := ReadHeader(content[ptr..]);
    assert got.Done? && got.value.0 == h && got.value.1 == moved;
  }

  lemma PrecededDone(read: seq<Header>, h: Header)
    ensures Preceded(read, Done([h])) == Done(read + [h])
    ensures Preceded(read, Failed(HttpHeaderParseError)) == Failed(HttpHeaderParseError)
  {
  }

  lemma PrecededFailure(read: seq<Header>, e: Error)
    ensures Preceded(read, Failed(e)) == Failed(e)
    ensures Preceded(read, Undefined) == Undefined
  {
  }

  /** One more header becomes the last of its own type, and of no other. */
  lemma IndexedOneMore(headers: seq<Header>, h: Header)
    ensures forall t :: LastOf(headers + [h], t) == if h.header_type == t then Some(|headers|) else LastOf(headers, t)
  {
    assert (headers + [h])[..|headers|] == headers;
  }
}
