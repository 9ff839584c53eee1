/** The value decoder of `csv_data.c`: a table-driven automaton that guesses the type of a value. */
module CsvValue {
  import opened XiErr
  import opened CText
  import opened Xively

  const VT: char := '\U{0B}'

  datatype CharType = Unknown | Number | Letter | Dot | Space | Newline | Tab | Minus

  datatype State = Initial | InMinus | InNumber | InFloat | InDot | InString

  function ClassifyChar(c: char): CharType {
    if c == '\r' || c == VT then Newline
    else if c == '\t' then Tab
    else if c == ' ' then Space
    else if c == '-' then Minus
    else if c == '.' then Dot
    else if '0' <= c <= '9' then Number
    else if 'A' <= c <= 'Z' || 'a' <= c <= 'z' then Letter
    else Unknown
  }

  function CharTypeIndex(ct: CharType): (i: nat)
    ensures i < 8
  {
    match ct
    case Unknown => 0
    case Number => 1
    case Letter => 2
    case Dot => 3
    case Space => 4
    case Newline => 5
    case Tab => 6
    case Minus => 7
  }

  function StateIndex(s: State): (i: nat)
    ensures i < 6
  {
    match s
    case Initial => 0
    case InMinus => 1
    case InNumber => 2
    case InFloat => 3
    case InDot => 4
    case InString => 5
  }

  /** One row per character type, one column per state. */
  const STATES: seq<seq<State>> := [
    [InString, InString, InString, InString, InString, InString],
    [InNumber, InNumber, InNumber, InFloat, InFloat, InString],
    [InString, InString, InString, InString, InString, InString],
    [InDot, InDot, InDot, InString, InString, InString],
    [InString, InString, InString, InString, InString, InString],
    [Initial, Initial, Initial, Initial, Initial, Initial],
    [InString, InString, InString, InString, InString, InString],
    [InMinus, InString, InString, InString, InString, InString]]

  function Next(s: State, c: char): State {
    STATES[CharTypeIndex(ClassifyChar(c))][StateIndex(s)]
  }

  /** The state after a text. */
  function Run(text: string): State {
    if text == [] then Initial else Next(Run(text[..|text| - 1]), text[|text| - 1])
  }

  // ----- the languages the states stand for -------------------------------------------------

  function Body(t: string): string {
    if t != [] && t[0] == '-' then t[1..] else t
  }

  /** -?[0-9]+ */
  predicate IsInteger(t: string) {
    Body(t) != [] && AllDigits(Body(t))
  }

  /** -?[0-9]*\. */
  predicate IsDotted(t: string) {
    var b := Body(t);
    b != [] && b[|b| - 1] == '.' && AllDigits(b[..|b| - 1])
  }

  predicate SplitsAt(b: string, k: int) {
    0 <= k < |b| - 1 && b[k] == '.' && AllDigits(b[..k]) && AllDigits(b[k + 1..])
  }

  /** -?[0-9]*\.[0-9]+ */
  predicate IsFloat(t: string) {
    exists k :: 0 <= k < |Body(t)| && SplitsAt(Body(t), k)
  }

  predicate BareSign(t: string) {
    t == [] || t == ['-']
  }

  function StateOf(t: string): State {
    if t == [] then Initial
    else if t == ['-'] then InMinus
    else if IsInteger(t) then InNumber
    else if IsDotted(t) then InDot
    else if IsFloat(t) then InFloat
    else InString
  }

  lemma BodyStep(u: string, c: char)
    ensures u != [] ==> Body(u + [c]) == Body(u) + [c]
    ensures u == [] ==> Body(u + [c]) == if c == '-' then [] else [c]
  {
    if u != [] {
      assert (u + [c])[1..] == u[1..] + [c];
    } else {
      assert u + [c] == [c];
    }
  }

  lemma DigitsStep(b: string, c: char)
    ensures AllDigits(b + [c]) <==> AllDigits(b) && IsDigit(c)
  {
    if AllDigits(b + [c]) {
      assert IsDigit((b + [c])[|b|]);
      assert forall i :: 0 <= i < |b| ==> (b + [c])[i] == b[i];
    }
  }

  lemma DigitsOfBody(u: string)
    ensures Body(u) == [] <==> BareSign(u)
    ensures AllDigits(Body(u)) <==> BareSign(u) || IsInteger(u)
  {
  }

  lemma IntegerStep(u: string, c: char)
    ensures IsInteger(u + [c]) <==> IsDigit(c) && (BareSign(u) || IsInteger(u))
  {
    BodyStep(u, c);
    DigitsStep(Body(u), c);
    DigitsOfBody(u);
  }

  lemma DottedStep(u: string, c: char)
    ensures IsDotted(u + [c]) <==> c == '.' && (BareSign(u) || IsInteger(u))
  {
    hide IsInteger, AllDigits;
    BodyStep(u, c);
    DigitsOfBody(u);
    if u != [] {
      assert (Body(u) + [c])[..|Body(u)|] == Body(u);
    } else if c == '.' {
      assert Body(u + [c])[..0] == Body(u);
    }
  }

  lemma FloatStep(u: string, c: char)
    ensures IsFloat(u + [c]) <==> IsDigit(c) && (IsDotted(u) || IsFloat(u))
  {
    BodyStep(u, c);
    var b := Body(u);
    if u == [] {
    } else {
      if IsFloat(u + [c]) {
        var k :| 0 <= k < |b + [c]| && SplitsAt(b + [c], k);
        SplitStep(b, c, k);
      }
      if IsDigit(c) && IsDotted(u) {
        SplitStep(b, c, |b| - 1);
      }
      if IsDigit(c) && IsFloat(u) {
        var k :| 0 <= k < |b| && SplitsAt(b, k);
        SplitStep(b, c, k);
      }
    }
  }

  lemma SplitStep(b: string, c: char, k: int)
    requires 0 <= k < |b| + 1
    ensures SplitsAt(b + [c], k) <==>
              IsDigit(c) && (SplitsAt(b, k) || (k == |b| - 1 && b[k] == '.' && AllDigits(b[..k])))
  {
    if k < |b| {
      assert (b + [c])[..k] == b[..k];
      assert (b + [c])[k + 1..] == b[k + 1..] + [c];
      DigitsStep(b[k + 1..], c);
    }
  }

  /** The languages of the accepting states have no text in common. */
  lemma Disjoint(t: string)
    ensures !(IsInteger(t) && IsDotted(t)) && !(IsInteger(t) && IsFloat(t)) && !(IsDotted(t) && IsFloat(t))
  {
    var b := Body(t);
    if IsFloat(t) {
      var k :| 0 <= k < |b| && SplitsAt(b, k);
      assert !IsDigit(b[k]);
      assert IsDigit(b[k + 1..][|b| - 2 - k]);
    }
  }

  lemma StateStep(u: string, c: char)
    requires c != '\r' && c != VT
    ensures StateOf(u + [c]) == Next(StateOf(u), c)
  {
    hide IsInteger, IsDotted, IsFloat;
    IntegerStep(u, c);
    DottedStep(u, c);
    FloatStep(u, c);
    Disjoint(u);
    assert u + [c] == ['-'] <==> u == [] && c == '-' by {
      assert u == [] ==> u + [c] == [c];
      assert u != [] ==> |u + [c]| > 1;
    }
    if BareSign(u) {
      SignIsNoNumber(u);
    }
  }

  lemma SignIsNoNumber(u: string)
    requires BareSign(u)
    ensures !IsInteger(u) && !IsDotted(u) && !IsFloat(u)
  {
  }

  predicate ResetFree(t: string) {
    '\r' !in t && VT !in t
  }

  /** The automaton computes the language of a text without carriage return and vertical tab. */
  lemma {:induction false} RunIsStateOf(t: string)
    requires ResetFree(t)
    ensures Run(t) == StateOf(t)
  {
    if t != [] {
      hide StateOf, Next;
      var u, c := t[..|t| - 1], t[|t| - 1];
      RunIsStateOf(u);
      StateStep(u, c);
      assert u + [c] == t;
    }
  }

  /** A vertical tab forgets what came before it. */
  lemma {:induction false} RunAfterReset(a: string, b: string)
    ensures Run(a + [VT] + b) == Run(b)
  {
    var t := a + [VT] + b;
    if b == [] {
      assert t[|t| - 1] == VT;
    } else {
      assert t[..|t| - 1] == a + [VT] + b[..|b| - 1];
      RunAfterReset(a, b[..|b| - 1]);
    }
  }

  // ----- csv_decode_value -------------------------------------------------------------------

  predicate EndsValue(c: char) {
    c == '\n' || c == '\0' || c == '\r'
  }

  /** The text of the value: what precedes the end of the line. */
  function Line(text: string): (line: string)
    ensures |line| <= |text| && line == text[..|line|]
    ensures forall i :: 0 <= i < |line| ==> !EndsValue(line[i])
    ensures |line| < |text| ==> EndsValue(text[|line|])
  {
    if text == [] || EndsValue(text[0]) then [] else [text[0]] + Line(text[1..])
  }

  /** The bytes that end a value: newline, NUL and carriage return. */
  lemma LineStops(text: string)
    ensures forall i :: 0 <= i < |Line(text)| ==> text[i] != '\n' && text[i] != '\0' && text[i] != '\r'
    ensures |Line(text)| < |text| ==> text[|Line(text)|] in ['\n', '\0', '\r']
  {
    var line := Line(text);
    assert forall i :: 0 <= i < |line| ==> text[i] == line[i];
  }

  lemma {:induction false} LineOf(value: string, rest: string)
    requires forall i :: 0 <= i < |value| ==> !EndsValue(value[i])
    requires rest == [] || EndsValue(rest[0])
    ensures Line(value + rest) == value
  {
    if value == [] {
      assert value + rest == rest;
    } else {
      assert (value + rest)[1..] == value[1..] + rest;
      LineOf(value[1..], rest);
    }
  }

  /** The bytes copied for a line: a vertical tab leaves the byte that was there before. */
  function Stored(line: string, stale: string): (stored: string)
    requires |line| <= |stale|
    ensures |stored| == |line|
  {
    seq(|line|, i requires 0 <= i < |line| => if line[i] == VT then stale[i] else line[i])
  }

  /** The value decoded from a text into a buffer that held `stale`. */
  function DecodedValue(text: string, stale: string): Result<Value>
    requires |stale| == VALUE_STRING_MAX_SIZE
  {
    var line := Line(text);
    if |line| >= VALUE_STRING_MAX_SIZE then Err(DatapointValueBufferOverflow)
    else
      var stored := CStr(Stored(line, stale));
      match Run(line)
      case InNumber => Ok(I32(Atoi(stored)))
      case InFloat => Ok(F32(stored))
      case _ => Ok(Str(stored))
  }

  /** `*(buffer + i)`: the byte after the text is the NUL. */
  function CharAt(buffer: string, i: nat): char {
    if i < |buffer| then buffer[i] else '\0'
  }

  lemma LineSoFar(buffer: string, i: nat)
    requires i <= |Line(buffer)|
    ensures EndsValue(CharAt(buffer, i)) <==> |Line(buffer)| == i
    ensures !EndsValue(CharAt(buffer, i)) ==> i < |buffer| && Line(buffer)[i] == buffer[i]
  {
  }

  /** The loop: copy the line into the buffer while the automaton runs over it. */
  method CopyValue(buffer: string, p: Datapoint, err: ErrorCell) returns (ok: bool, counter: nat, s: State)
    requires p.Valid()
    modifies p.str, err
    ensures ok <==> |Line(buffer)| < VALUE_STRING_MAX_SIZE
    ensures counter == if ok then |Line(buffer)| else VALUE_STRING_MAX_SIZE - 1
    ensures ok ==> s == Run(Line(buffer))
    ensures err.last == if ok then old(err.last) else DatapointValueBufferOverflow
    ensures p.str[..counter] == Stored(Line(buffer)[..counter], old(p.str[..]))
    ensures forall i :: counter <= i < VALUE_STRING_MAX_SIZE - 1 ==> p.str[i] == old(p.str[i])
    ensures p.str[VALUE_STRING_MAX_SIZE - 1] == '\0'
  {
    hide Line, Run, Next;
    ghost var stale := p.str[..];
    ghost var line := Line(buffer);
    p.str[VALUE_STRING_MAX_SIZE - 1] := '\0';
    counter := 0;
    var c := CharAt(buffer, 0);
    s := Initial;
    RunOfNothing();
    while !EndsValue(c)
      invariant counter < VALUE_STRING_MAX_SIZE && counter <= |line|
      invariant c == CharAt(buffer, counter)
      invariant s == Run(line[..counter])
      invariant forall i :: 0 <= i < counter ==> p.str[i] == if line[i] == VT then stale[i] else line[i]
      invariant forall i :: counter <= i < VALUE_STRING_MAX_SIZE - 1 ==> p.str[i] == stale[i]
      invariant p.str[VALUE_STRING_MAX_SIZE - 1] == '\0'
      invariant err.last == old(err.last)
      decreases |buffer| - counter
    {
      LineSoFar(buffer, counter);
      RunStep(line, counter);
      if counter >= VALUE_STRING_MAX_SIZE - 1 {
        err.Set(DatapointValueBufferOverflow);
        return false, counter, s;
      }
      s := Next(s, c);
      if s != Initial {
        p.str[counter] := c;
      }
      counter := counter + 1;
      c := CharAt(buffer, counter);
    }
    LineSoFar(buffer, counter);
    assert line[..counter] == line;
    ok := true;
  }

  /**
    `csv_decode_value`. The members of the value share their storage: copying the text overwrites the
    numbers, and storing a number overwrites the first bytes of the text, with bytes that depend on the
    machine.
   */
  method DecodeValue(buffer: string, p: Datapoint, err: ErrorCell) returns (ok: bool)
    requires p.Valid()
    modifies p.str, p`i32, p`f32, p`kind, err
    ensures var result, line, stale := old(DecodedValue(buffer, p.str[..])), Line(buffer), old(p.str[..]);
            if result.Ok? then
              && ok && err.last == old(err.last)
              && p.GetValue() == result.value
              && (result.value.Str? ==> p.str[..|line|] == Stored(line, stale) && p.str[|line|] == '\0')
              && (forall i :: (if result.value.Str? then |line| + 1 else NUMBER_SIZE) <= i < VALUE_STRING_MAX_SIZE - 1 ==>
                    p.str[i] == if i < |line| then Stored(line, stale)[i] else if i == |line| then '\0' else stale[i])
            else
              && !ok && err.last == result.error
              && p.kind == old(p.kind)
              && p.str[..] == Stored(line[..VALUE_STRING_MAX_SIZE - 1], stale) + ['\0']
  {
    hide Line, Run, Stored, Atoi, CStr;
    ghost var stale := p.str[..];
    var counter, s;
    ok, counter, s := CopyValue(buffer, p, err);
    p.i32, p.f32 := *, *;
    if !ok {
      return false;
    }
    ghost var stored := p.str[..counter];
    assert stored == Stored(Line(buffer), stale) by {
      assert Line(buffer)[..counter] == Line(buffer);
    }
    p.str[counter] := '\0';
    assert p.str[..] == stored + p.str[counter..];
    CStrPrefix(stored, p.str[counter..]);

    if s == InMinus || s == InDot || s == Initial {
      s := InString;
    }
    if s == InNumber {
      var number := Atoi(CStr(p.str[..]));
      OverwriteText(p);
      p.i32 := number;
      p.kind := TypeI32;
    } else if s == InFloat {
      var text := CStr(p.str[..]);
      OverwriteText(p);
      p.f32 := text;
      p.kind := TypeF32;
    } else {
      p.kind := TypeStr;
    }
  }

  /** What storing a number of `NUMBER_SIZE` bytes does to the text it shares storage with. */
  method OverwriteText(p: Datapoint)
    requires p.Valid()
    modifies p.str
    ensures forall i :: NUMBER_SIZE <= i < VALUE_STRING_MAX_SIZE ==> p.str[i] == old(p.str[i])
  {
    p.str[0], p.str[1], p.str[2], p.str[3] := *, *, *, *;
  }

  lemma RunOfNothing()
    ensures Run([]) == Initial
  {
  }

  lemma RunStep(line: string, i: nat)
    requires i < |line| && !EndsValue(line[i])
    ensures Run(line[..i + 1]) == Next(Run(line[..i]), line[i])
    ensures Run(line[..i + 1]) == Initial <==> line[i] == VT
  {
    assert line[..i + 1][..i] == line[..i];
    NextIsInitial(line[..i], line[i]);
  }

  /** Only a reset leads back to the initial state. */
  lemma NextIsInitial(u: string, c: char)
    requires c != '\r'
    ensures Next(Run(u), c) == Initial <==> c == VT
  {
  }

  lemma {:induction false} CStrPrefix(s: string, tail: string)
    requires tail != [] && tail[0] == '\0'
    ensures CStr(s + tail) == CStr(s)
  {
    if s == [] {
      assert s + tail == tail;
    } else {
      assert (s + tail)[1..] == s[1..] + tail;
      CStrPrefix(s[1..], tail);
    }
  }

  // ----- what the decoder recognises --------------------------------------------------------

  lemma StoredVerbatim(line: string, stale: string)
    requires |line| <= |stale| && VT !in line && '\0' !in line
    ensures CStr(Stored(line, stale)) == line
  {
    assert Stored(line, stale) == line;
    assert line + [] == line;
    CStrOf(line, []);
  }

  /** The number an integer text writes. */
  function Written(t: string): int
    requires IsInteger(t)
  {
    if t[0] == '-' then -(CText.Value(t[1..]) as int) else CText.Value(t)
  }

  /** `atoi` reads every text of -?[0-9]+ as the number it writes, leading zeros or not. */
  lemma AtoiOfInteger(t: string)
    requires IsInteger(t)
    ensures Atoi(t) == if t[0] == '-' then -(CText.Value(t[1..]) as int) else CText.Value(t)
  {
    hide Atoi, CText.Value;
    if t[0] == '-' {
      assert t == [] + (['-'] + (t[1..] + []));
      AtoiMeaning([], ['-'], t[1..], []);
    } else {
      assert t == [] + ([] + (t + []));
      AtoiMeaning([], [], t, []);
    }
  }

  /** The typed value of a text, by its language. */
  function Guess(line: string): Value {
    if IsInteger(line) then I32(Written(line))
    else if IsFloat(line) then F32(line)
    else Str(line)
  }

  lemma StateIsLanguage(t: string)
    ensures StateOf(t) == InNumber <==> IsInteger(t)
    ensures StateOf(t) == InFloat <==> IsFloat(t)
    ensures !(IsInteger(t) && IsFloat(t))
  {
    hide IsInteger, IsDotted, IsFloat;
    Disjoint(t);
    if BareSign(t) {
      SignIsNoNumber(t);
    }
  }

  /** Without a vertical tab a value fails exactly when it is too long; its type is its language. */
  lemma Classification(text: string, stale: string)
    requires |stale| == VALUE_STRING_MAX_SIZE && VT !in Line(text)
    ensures var line, result := Line(text), DecodedValue(text, stale);
            && (result.Err? <==> |line| > 31)
            && (result.Ok? ==> result.value == Guess(line))
  {
    hide IsInteger, IsDotted, IsFloat, Line, Atoi, CStr, Stored, CText.Value, Run, StateOf;
    var line := Line(text);
    assert ResetFree(line) && '\0' !in line;
    RunIsStateOf(line);
    StateIsLanguage(line);
    if |line| < VALUE_STRING_MAX_SIZE {
      StoredVerbatim(line, stale);
    }
    if IsInteger(line) {
      AtoiOfInteger(line);
    }
  }

  /** With a vertical tab only the text after the last one decides the type. */
  lemma ClassificationAfterReset(text: string, stale: string, a: string, b: string)
    requires |stale| == VALUE_STRING_MAX_SIZE
    requires Line(text) == a + [VT] + b && VT !in b && |Line(text)| <= 31
    ensures var result := DecodedValue(text, stale);
            && result.Ok?
            && (result.value.I32? <==> IsInteger(b))
            && (result.value.F32? <==> IsFloat(b))
  {
    hide IsInteger, IsDotted, IsFloat, Line, Stored, CStr, Atoi;
    assert forall i :: 0 <= i < |b| ==> b[i] == Line(text)[|a| + 1 + i];
    RunAfterReset(a, b);
    RunIsStateOf(b);
    StateIsLanguage(b);
  }
}
