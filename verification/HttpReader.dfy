/**
  A small reader of HTTP requests, against which the encoders are stated: lines end with CRLF, a field
  is a name, a colon and a space, and a value, and a blank line ends the fields.
 */
module HttpReader {
  import opened XiErr
  import opened CText

  datatype Field = Field(name: string, value: string)

  datatype Request = Request(verb: string, target: string, version: string, fields: seq<Field>, rest: string)

  // ----- the reader -------------------------------------------------------------------------

  /** The text up to the first line end, and what is behind it. */
  function FirstLine(text: string): (r: Option<(string, string)>)
    ensures r.Some? ==> |r.value.1| < |text|
  {
    var at := Find(text, "\r\n", 0);
    if at < 0 then None else Some((text[..at], text[at + 2..]))
  }

  function ReadField(line: string): Option<Field> {
    var at := Find(line, ": ", 0);
    if at < 0 then None else Some(Field(line[..at], line[at + 2..]))
  }

  /** The fields up to the blank line, and what is behind it. */
  function ReadFields(text: string): Option<(seq<Field>, string)>
    decreases |text|
  {
    match FirstLine(text)
    case None => None
    case Some((line, rest)) =>
      if line == [] then Some(([], rest))
      else
        match ReadField(line)
        case None => None
        case Some(field) =>
          match ReadFields(rest)
          case None => None
          case Some((fields, behind)) => Some(([field] + fields, behind))
  }

  /** The first line: a word, a target and a word; the target may contain spaces. */
  function ReadRequestLine(line: string): Option<(string, string, string)> {
    var first, last := Find(line, " ", 0), LastSpace(line);
    if first < 0 || first >= last then None else Some((line[..first], line[first + 1..last], line[last + 1..]))
  }

  function LastSpace(s: string): (r: int)
    ensures r < |s|
  {
    if s == [] then -1 else if s[|s| - 1] == ' ' then |s| - 1 else LastSpace(s[..|s| - 1])
  }

  function ReadRequest(text: string): Option<Request> {
    match FirstLine(text)
    case None => None
    case Some((line, behind)) =>
      match ReadRequestLine(line)
      case None => None
      case Some((verb, target, version)) =>
        match ReadFields(behind)
        case None => None
        case Some((fields, rest)) => Some(Request(verb, target, version, fields, rest))
  }

  // ----- what it reads ----------------------------------------------------------------------

  lemma StartsWithReturn(s: string, i: int)
    requires 0 <= i < |s| && s[i] != '\r'
    ensures !OccursAt(s, "\r\n", i) && !OccursAt(s, "\r\n\r\n", i)
  {
    if i + 2 <= |s| {
      assert s[i..i + 2][0] == s[i];
    }
    if i + 4 <= |s| {
      assert s[i..i + 4][0] == s[i];
    }
  }

  lemma FindLineEnd(line: string, rest: string)
    requires '\r' !in line
    ensures Find(line + "\r\n" + rest, "\r\n", 0) == |line|
  {
    var s := line + "\r\n" + rest;
    forall i | 0 <= i < |line|
      ensures !OccursAt(s, "\r\n", i)
    {
      StartsWithReturn(s, i);
    }
    assert s[|line|..|line| + 2] == "\r\n";
    FindFirst(s, "\r\n", 0, |line|);
  }

  lemma LineIsFirst(line: string, rest: string)
    requires '\r' !in line
    ensures FirstLine(line + "\r\n" + rest) == Some((line, rest))
  {
    hide Find;
    FindLineEnd(line, rest);
    var text := line + "\r\n" + rest;
    assert text[..|line|] == line && text[|line| + 2..] == rest;
  }

  /** A header line without its line end. */
  function FieldLine(f: Field): string {
    f.name + ": " + f.value
  }

  function FieldsText(fields: seq<Field>): string {
    if fields == [] then [] else FieldLine(fields[0]) + "\r\n" + FieldsText(fields[1..])
  }

  predicate Readable(f: Field) {
    '\r' !in f.name && ':' !in f.name && '\r' !in f.value
  }

  predicate AllReadable(fields: seq<Field>) {
    forall i :: 0 <= i < |fields| ==> Readable(fields[i])
  }

  lemma FieldIsRead(f: Field)
    requires Readable(f)
    ensures ReadField(FieldLine(f)) == Some(f)
    ensures '\r' !in FieldLine(f) && FieldLine(f) != []
  {
    var line := FieldLine(f);
    forall i | 0 <= i < |f.name|
      ensures !OccursAt(line, ": ", i)
    {
      assert line[i] == f.name[i];
      if i + 2 <= |line| {
        assert line[i..i + 2][0] == line[i];
      }
    }
    assert line[|f.name|..|f.name| + 2] == ": ";
    FindFirst(line, ": ", 0, |f.name|);
    assert line[..|f.name|] == f.name && line[|f.name| + 2..] == f.value;
  }

  lemma {:induction false} FieldsAreRead(fields: seq<Field>, rest: string)
    requires AllReadable(fields)
    ensures ReadFields(FieldsText(fields) + ("\r\n" + rest)) == Some((fields, rest))
    decreases |fields|
  {
    hide FirstLine, ReadField, FieldLine, Readable;
    if fields == [] {
      assert FieldsText(fields) + ("\r\n" + rest) == [] + "\r\n" + rest;
      LineIsFirst([], rest);
    } else {
      var f, behind := fields[0], FieldsText(fields[1..]) + ("\r\n" + rest);
      assert Readable(f);
      FieldIsRead(f);
      assert FieldsText(fields) + ("\r\n" + rest) == FieldLine(f) + "\r\n" + behind;
      LineIsFirst(FieldLine(f), behind);
      FieldsAreRead(fields[1..], rest);
      assert [f] + fields[1..] == fields;
    }
  }

  lemma {:induction false} LastSpaceOf(s: string, word: string)
    requires ' ' !in word
    ensures LastSpace(s + " " + word) == |s|
    decreases |word|
  {
    var text := s + " " + word;
    if word != [] {
      assert text[..|text| - 1] == s + " " + word[..|word| - 1];
      LastSpaceOf(s, word[..|word| - 1]);
    }
  }

  lemma RequestLineIsRead(verb: string, target: string, version: string)
    requires ' ' !in verb && ' ' !in version
    ensures ReadRequestLine(verb + " " + target + " " + version) == Some((verb, target, version))
  {
    hide Find, LastSpace;
    var line := verb + " " + target + " " + version;
    assert line[0..|verb|] == verb;
    FindChar(line, ' ', 0, |verb|);
    LastSpaceOf(verb + " " + target, version);
    assert line[|verb| + 1..|verb| + 1 + |target|] == target;
    assert line[|verb| + 1 + |target| + 1..] == version;
  }

  /** A request put together from its parts is read as those parts. */
  lemma RequestIsRead(r: Request)
    requires ' ' !in r.verb && ' ' !in r.version
    requires '\r' !in r.verb && '\r' !in r.target && '\r' !in r.version && AllReadable(r.fields)
    ensures ReadRequest(r.verb + " " + r.target + " " + r.version + "\r\n" + (FieldsText(r.fields) + ("\r\n" + r.rest))) == Some(r)
  {
    hide FirstLine, ReadFields, FieldsText, ReadRequestLine, Readable;
    LineIsFirst(r.verb + " " + r.target + " " + r.version, FieldsText(r.fields) + ("\r\n" + r.rest));
    RequestLineIsRead(r.verb, r.target, r.version);
    FieldsAreRead(r.fields, r.rest);
  }

  lemma {:induction false} FieldsTextAppend(a: seq<Field>, b: seq<Field>)
    ensures FieldsText(a + b) == FieldsText(a) + FieldsText(b)
  {
    hide FieldLine;
    if a == [] {
      assert a + b == b;
    } else {
      assert (a + b)[1..] == a[1..] + b;
      FieldsTextAppend(a[1..], b);
    }
  }

  // ----- lists in a query -------------------------------------------------------------------

  /** A text split at its commas. */
  function Split(s: string): seq<string>
    decreases |s|
  {
    var at := Find(s, ",", 0);
    if at < 0 then [s] else [s[..at]] + Split(s[at + 1..])
  }

  lemma {:induction false} SplitLast(s: string, last: string)
    requires ',' !in last
    ensures Split(s + "," + last) == Split(s) + [last]
    decreases |s|
  {
    hide Find;
    var text := s + "," + last;
    var at := Find(s, ",", 0);
    FindInside(s, ',');
    if at < 0 {
      NotBefore(s, ',', |s|);
      assert text[0..|s|] == s == s[..|s|];
      FindChar(text, ',', 0, |s|);
      assert text[|s| + 1..] == last;
      assert last[0..] == last;
      FindNoChar(last, ',', 0);
    } else {
      CommaFound(s, at);
      assert text[0..at] == s[..at] && text[at] == s[at];
      FindChar(text, ',', 0, at);
      assert text[at + 1..] == s[at + 1..] + "," + last;
      SplitLast(s[at + 1..], last);
      assert [s[..at]] + (Split(s[at + 1..]) + [last]) == [s[..at]] + Split(s[at + 1..]) + [last];
    }
  }

  lemma SplitOne(s: string)
    requires ',' !in s
    ensures Split(s) == [s]
  {
    assert s[0..] == s;
    FindNoChar(s, ',', 0);
  }

  lemma CommaFound(s: string, at: nat)
    requires at == Find(s, ",", 0)
    ensures at < |s| && s[at] == ',' && ',' !in s[..at]
  {
    NotBefore(s, ',', at);
    assert s[at..at + 1][0] == ',';
  }
}
