/**
  C strings, and the parts of `snprintf`, `sscanf`, `strstr` and `atoi` the modelled code uses.
  A `string` stands for the bytes before the terminating NUL.
 */
module CText {
  import opened XiErr

  // ----- buffers ----------------------------------------------------------------------------

  /** The string a NUL-terminated buffer holds; the whole buffer if nothing terminates it. */
  function CStr(buffer: string): (s: string)
    ensures |s| <= |buffer| && s == buffer[..|s|]
    ensures '\0' !in s
    ensures |s| < |buffer| ==> buffer[|s|] == '\0'
  {
    if buffer == [] || buffer[0] == '\0' then [] else [buffer[0]] + CStr(buffer[1..])
  }

  lemma {:induction false} CStrOf(s: string, tail: string)
    requires '\0' !in s
    requires tail == [] || tail[0] == '\0'
    ensures CStr(s + tail) == s
  {
    if s == [] {
      assert s + tail == tail;
    } else {
      assert (s + tail)[1..] == s[1..] + tail;
      CStrOf(s[1..], tail);
    }
  }

  /** What `snprintf` stores for a text in a buffer of `size` bytes. */
  function Fitted(text: string, size: nat): (stored: string)
    ensures |stored| <= size
  {
    if size == 0 then []
    else if |text| < size then text + ['\0']
    else text[..size - 1] + ['\0']
  }

  /**
    `snprintf(buffer + at, size, ...)` for the text the format produces: it stores as much as fits,
    always with a NUL, and returns the length of the whole text.
   */
  method Snprintf(buffer: array<char>, at: nat, size: nat, text: string) returns (s: int)
    requires at + size <= buffer.Length
    modifies buffer
    ensures s == |text|
    ensures buffer[..] == old(buffer[..at]) + Fitted(text, size) + old(buffer[at + |Fitted(text, size)|..])
  {
    hide Fitted;
    var stored := Fitted(text, size);
    var i := 0;
    while i < |stored|
      invariant 0 <= i <= |stored|
      invariant forall j :: 0 <= j < at || at + i <= j < buffer.Length ==> buffer[j] == old(buffer[j])
      invariant forall j :: at <= j < at + i ==> buffer[j] == stored[j - at]
    {
      buffer[at + i] := stored[i];
      i := i + 1;
    }
    s := |text|;
  }

  /** Nothing but the `size` bytes from `at` differs. */
  predicate SameOutside(before: string, after: string, at: nat, size: nat) {
    |before| == |after| && at + size <= |before|
    && after[..at] == before[..at] && after[at + size..] == before[at + size..]
  }

  lemma SameOutsideTwice(a: string, b: string, c: string, at: nat, size: nat)
    requires SameOutside(a, b, at, size) && SameOutside(b, c, at, size)
    ensures SameOutside(a, c, at, size)
  {
  }

  /** The `size` bytes from `at` hold a text and its NUL, and nothing else differs. */
  predicate Holds(before: string, after: string, at: nat, size: nat, text: string) {
    && SameOutside(before, after, at, size) && |text| < size
    && after[at..at + |text|] == text && after[at + |text|] == '\0'
  }

  /**
    `snprintf` at an offset into the `size` bytes from `at`, followed by the macro `XI_CHECK_S`: the
    offset advances by the length of the text, unless the text and its NUL do not fit.
   */
  method Append(buffer: array<char>, at: nat, size: nat, offset: nat, text: string, err: ErrorCell, e: Error)
    returns (ok: bool, next: nat)
    requires offset <= size && at + size <= buffer.Length
    modifies buffer, err
    ensures ok <==> offset + |text| < size
    ensures next == if ok then offset + |text| else offset
    ensures SameOutside(old(buffer[..]), buffer[..], at, size)
    ensures ok ==> buffer[at..at + next] == old(buffer[at..at + offset]) + text && buffer[at + next] == '\0'
    ensures err.last == if ok then old(err.last) else e
  {
    hide Fitted, SameOutside;
    next := offset;
    ghost var before := buffer[..];
    var s := Snprintf(buffer, at + offset, size - offset, text);
    Appended(before, buffer[..], at, size, offset, text);
    if s >= size - offset || s < 0 {
      err.Set(e);
      return false, next;
    }
    next := offset + s;
    ok := true;
    assert buffer[at..at + next] == buffer[..][at..at + next];
    assert before[at..at + offset] == old(buffer[at..at + offset]);
    assert buffer[at + next] == buffer[..][at + next];
  }

  /** Storing a text at an offset into a region. */
  lemma Appended(before: string, after: string, at: nat, size: nat, offset: nat, text: string)
    requires offset <= size && at + size <= |before|
    requires var stored := Fitted(text, size - offset);
             after == before[..at + offset] + stored + before[at + offset + |stored|..]
    ensures SameOutside(before, after, at, size)
    ensures offset + |text| < size ==>
              && after[at..at + offset + |text|] == before[at..at + offset] + text
              && after[at + offset + |text|] == '\0'
  {
    var stored := Fitted(text, size - offset);
    assert |after| == |before|;
    assert after[..at] == before[..at];
    assert after[at + size..] == before[at + size..];
    if offset + |text| < size {
      assert after[at + offset..at + offset + |text|] == stored[..|text|] == text;
      assert after[at..at + offset] == before[at..at + offset];
      assert after[at..at + offset + |text|] == after[at..at + offset] + after[at + offset..at + offset + |text|];
      assert after[at + offset + |text|] == stored[|text|];
    }
  }

  // ----- searching --------------------------------------------------------------------------

  ghost predicate OccursAt(s: string, pat: string, i: int) {
    0 <= i && i + |pat| <= |s| && s[i..i + |pat|] == pat
  }

  /** `strstr(s + from, pat)` as an index into `s`, or -1. */
  function Find(s: string, pat: string, from: nat): (r: int)
    ensures r == -1 || (from <= r && OccursAt(s, pat, r))
    ensures forall i :: from <= i && (r == -1 || i < r) ==> !OccursAt(s, pat, i)
    decreases |s| - from
  {
    if from + |pat| > |s| then -1
    else if s[from..from + |pat|] == pat then from
    else Find(s, pat, from + 1)
  }

  /** `Find` is determined by what it finds. */
  lemma FindFirst(s: string, pat: string, from: nat, at: int)
    requires from <= at && OccursAt(s, pat, at)
    requires forall i :: from <= i < at ==> !OccursAt(s, pat, i)
    ensures Find(s, pat, from) == at
  {
    var r := Find(s, pat, from);
    assert r != -1 && !(r < at) && !(at < r);
  }

  lemma FindChar(s: string, c: char, from: nat, at: nat)
    requires from <= at < |s| && s[at] == c
    requires c !in s[from..at]
    ensures Find(s, [c], from) == at
  {
    forall i | from <= i < at
      ensures !OccursAt(s, [c], i)
    {
      assert s[i] == s[from..at][i - from];
      assert s[i..i + 1] == [s[i]];
    }
    assert s[at..at + 1] == [c];
    FindFirst(s, [c], from, at);
  }

  /** Before its first place a character does not occur. */
  lemma NotBefore(s: string, c: char, k: nat)
    requires k <= |s| && (Find(s, [c], 0) < 0 || k <= Find(s, [c], 0))
    ensures c !in s[..k]
  {
    forall i | 0 <= i < k
      ensures s[i] != c
    {
      assert !OccursAt(s, [c], i);
      assert s[i..i + 1] == [s[i]];
    }
  }

  lemma FindInside(s: string, c: char)
    ensures Find(s, [c], 0) < |s|
  {
  }

  lemma FindNoChar(s: string, c: char, from: nat)
    requires from <= |s| && c !in s[from..]
    ensures Find(s, [c], from) == -1
  {
    forall i | from <= i < |s|
      ensures !OccursAt(s, [c], i)
    {
      assert s[i] == s[from..][i - from];
      assert s[i..i + 1] == [s[i]];
    }
  }

  // ----- decimal numbers --------------------------------------------------------------------

  predicate IsDigit(c: char) {
    '0' <= c <= '9'
  }

  predicate AllDigits(s: string) {
    forall i :: 0 <= i < |s| ==> IsDigit(s[i])
  }

  function Pow10(k: nat): (p: int)
    ensures p >= 1 && (k == 0 ==> p == 1)
  {
    if k == 0 then 1 else 10 * Pow10(k - 1)
  }

  /** The number a string of digits writes. */
  function Value(s: string): (n: nat)
    requires AllDigits(s)
  {
    if s == [] then 0 else Value(s[..|s| - 1]) * 10 + (s[|s| - 1] as int - '0' as int)
  }

  function Dec(n: nat): (s: string)
    ensures |s| >= 1 && AllDigits(s)
    ensures Value(s) == n
  {
    var d := ('0' as int + n % 10) as char;
    if n < 10 then [d] else
      var s := Dec(n / 10) + [d];
      assert s[..|s| - 1] == Dec(n / 10);
      s
  }

  function Zeros(k: nat): (s: string)
    ensures |s| == k && AllDigits(s)
  {
    seq(k, _ => '0')
  }

  function PadLeft(s: string, width: nat): string {
    if |s| < width then Zeros(width - |s|) + s else s
  }

  /** The conversion `%0<width>d`; `%d` is width 0. */
  function PrintInt(n: int, width: nat): string {
    if n < 0 then ['-'] + PadLeft(Dec(-n), if width == 0 then 0 else width - 1) else PadLeft(Dec(n), width)
  }

  lemma {:induction false} ValueOfPadded(k: nat, s: string)
    requires AllDigits(s)
    ensures AllDigits(Zeros(k) + s) && Value(Zeros(k) + s) == Value(s)
    decreases k, |s|
  {
    var t := Zeros(k) + s;
    if s != [] {
      ValueOfPadded(k, s[..|s| - 1]);
      assert t[..|t| - 1] == Zeros(k) + s[..|s| - 1];
    } else if k > 0 {
      ValueOfPadded(k - 1, []);
      assert t[..|t| - 1] == Zeros(k - 1) + [];
    }
  }

  lemma {:induction false} ValueBound(s: string)
    requires AllDigits(s)
    ensures Value(s) < Pow10(|s|)
  {
    if s != [] {
      ValueBound(s[..|s| - 1]);
    }
  }

  /** A number has at most `w` digits exactly when it is below the w-th power of ten. */
  lemma {:induction false} DecLength(n: nat, w: nat)
    requires w >= 1
    ensures |Dec(n)| <= w <==> n < Pow10(w)
    decreases w
  {
    if w == 1 {
      assert Pow10(1) == 10;
    } else if n >= 10 {
      DecLength(n / 10, w - 1);
    } else {
      DecLength(n, w - 1);
    }
  }

  /** A number is written without leading zeros. */
  lemma {:induction false} DecIsShortest(n: nat)
    ensures n >= 10 ==> Dec(n)[0] != '0'
    ensures n < 10 ==> |Dec(n)| == 1
  {
    if n >= 10 {
      DecIsShortest(n / 10);
      if n < 100 {
        assert Value(Dec(n / 10)) == n / 10;
        assert Dec(n / 10) == [Dec(n / 10)[0]];
        assert Value([]) == 0;
      }
    }
  }

  /** What `%d` prints: a hyphen for negative numbers, and the shortest digits that write the rest. */
  lemma PrintIntForm(n: int)
    ensures var text := PrintInt(n, 0);
            var digits := if n < 0 then text[1..] else text;
            && text != [] && (n < 0 ==> text[0] == '-')
            && digits != [] && AllDigits(digits) && Value(digits) == (if n < 0 then -n else n)
            && (digits[0] == '0' ==> |digits| == 1)
  {
    hide Dec, Value;
    DecIsShortest(if n < 0 then -n else n);
    if n < 0 {
      assert PrintInt(n, 0)[1..] == Dec(-n);
    }
  }

  /** A padded number that fits has exactly the width asked for, and the value printed. */
  lemma PaddedExact(n: nat, w: nat)
    requires w >= 1 && n < Pow10(w)
    ensures var s := PadLeft(Dec(n), w); |s| == w && AllDigits(s) && Value(s) == n
  {
    DecLength(n, w);
    if |Dec(n)| < w {
      ValueOfPadded(w - |Dec(n)|, Dec(n));
    }
  }

  // ----- scanning ---------------------------------------------------------------------------

  predicate IsSpace(c: char) {
    c == ' ' || '\t' as int <= c as int <= '\r' as int
  }

  function SkipSpace(s: string): (r: string)
    ensures |r| <= |s| && (r == [] || !IsSpace(r[0]))
  {
    if s != [] && IsSpace(s[0]) then SkipSpace(s[1..]) else s
  }

  lemma NoSpace(s: string)
    requires s != [] && !IsSpace(s[0])
    ensures SkipSpace(s) == s
  {
  }

  /** How many of the first `max` characters are digits. */
  function DigitRun(s: string, max: nat): (k: nat)
    ensures k <= max && k <= |s| && AllDigits(s[..k])
    ensures k == max || k == |s| || !IsDigit(s[k])
  {
    if max == 0 || s == [] || !IsDigit(s[0]) then 0 else
      var k := DigitRun(s[1..], max - 1) + 1;
      assert forall i :: 1 <= i < k ==> s[..k][i] == s[1..][..k - 1][i - 1];
      k
  }

  lemma {:induction false} DigitRunOf(digits: string, rest: string, max: nat)
    requires AllDigits(digits) && |digits| <= max
    requires |digits| == max || rest == [] || !IsDigit(rest[0])
    ensures DigitRun(digits + rest, max) == |digits|
  {
    if digits == [] {
      assert digits + rest == rest;
    } else {
      assert (digits + rest)[1..] == digits[1..] + rest;
      DigitRunOf(digits[1..], rest, max - 1);
    }
  }

  /** An unsigned number of at most `width` digits, and what follows it. */
  function ScanNat(t: string, width: nat): Option<(nat, string)> {
    var k := DigitRun(t, width);
    if k == 0 then None else Some((Value(t[..k]), t[k..]))
  }

  /**
    The conversion `%<width>d` of `sscanf`: white space is skipped, then an optional sign and at
    least one digit, `width` characters at the most. The result is the number and what follows it.
   */
  function ScanInt(s: string, width: nat): (r: Option<(int, string)>) {
    var t := SkipSpace(s);
    if t != [] && (t[0] == '-' || t[0] == '+') && width > 0 then
      match ScanNat(t[1..], width - 1)
      case None => None
      case Some((n, rest)) => Some((if t[0] == '-' then -(n as int) else n, rest))
    else
      match ScanNat(t, width)
      case None => None
      case Some((n, rest)) => Some((n, rest))
  }

  predicate FitsWidth(n: int, width: nat) {
    width >= 1 && -Pow10(width - 1) < n < Pow10(width)
  }

  lemma ScanNatOf(digits: string, rest: string, width: nat)
    requires AllDigits(digits) && 1 <= |digits| <= width
    requires |digits| == width || rest == [] || !IsDigit(rest[0])
    ensures ScanNat(digits + rest, width) == Some((Value(digits), rest))
  {
    hide Value, DigitRun;
    var t := digits + rest;
    DigitRunOf(digits, rest, width);
    assert t[..|digits|] == digits && t[|digits|..] == rest;
  }

  lemma ScanDigits(digits: string, rest: string, width: nat)
    requires AllDigits(digits) && 1 <= |digits| <= width
    requires |digits| == width || rest == [] || !IsDigit(rest[0])
    ensures ScanInt(digits + rest, width) == Some((Value(digits), rest))
  {
    hide Value, ScanNat, SkipSpace;
    assert IsDigit(digits[0]);
    NoSpace(digits + rest);
    ScanNatOf(digits, rest, width);
  }

  lemma ScanNegative(digits: string, rest: string, width: nat)
    requires AllDigits(digits) && 1 <= |digits| < width
    requires |digits| == width - 1 || rest == [] || !IsDigit(rest[0])
    ensures ScanInt(['-'] + digits + rest, width) == Some((-(Value(digits) as int), rest))
  {
    hide Value, ScanNat, SkipSpace, AllDigits;
    var t := ['-'] + digits + rest;
    NoSpace(t);
    ScanNatOf(digits, rest, width - 1);
    assert t[1..] == digits + rest;
  }

  /** A number printed with the width it is scanned with comes back, whatever follows it. */
  lemma ScanPrinted(n: int, width: nat, rest: string)
    requires FitsWidth(n, width)
    ensures |PrintInt(n, width)| == width
    ensures ScanInt(PrintInt(n, width) + rest, width) == Some((n, rest))
  {
    hide ScanInt, Dec, PadLeft, Pow10;
    if n < 0 {
      PaddedExact(-n, width - 1);
      ScanNegative(PadLeft(Dec(-n), width - 1), rest, width);
    } else {
      PaddedExact(n, width);
      ScanDigits(PadLeft(Dec(n), width), rest, width);
    }
  }

  /** What a conversion of limited width can return. */
  lemma ScanBound(s: string, width: nat)
    requires width >= 1
    ensures ScanInt(s, width).Some? ==> FitsWidth(ScanInt(s, width).value.0, width)
  {
    var t := SkipSpace(s);
    NatBound(t, width);
    if t != [] {
      NatBound(t[1..], width - 1);
    }
    Pow10Grows(width - 1, width);
  }

  lemma NatBound(t: string, width: nat)
    ensures ScanNat(t, width).Some? ==> ScanNat(t, width).value.0 < Pow10(width)
  {
    var k := DigitRun(t, width);
    ValueBound(t[..k]);
    Pow10Grows(k, width);
  }

  lemma {:induction false} Pow10Grows(j: nat, k: nat)
    requires j <= k
    ensures Pow10(j) <= Pow10(k)
    decreases k
  {
    if j < k {
      Pow10Grows(j, k - 1);
    }
  }

  /** `atoi`: like `%d`, with 0 when there is no number. */
  function Atoi(s: string): int {
    match ScanInt(s, |s|)
    case None => 0
    case Some((n, _)) => n
  }

  /** The white space `%d` and `atoi` skip. */
  predicate Blank(s: string) {
    forall i :: 0 <= i < |s| ==> s[i] in [' ', '\t', '\n', '\U{0B}', '\U{0C}', '\r']
  }

  predicate IsSign(s: string) {
    s == [] || s == ['-'] || s == ['+']
  }

  lemma {:induction false} SkipBlank(blank: string, s: string)
    requires Blank(blank) && (s == [] || s[0] !in [' ', '\t', '\n', '\U{0B}', '\U{0C}', '\r'])
    ensures SkipSpace(blank + s) == s
  {
    if blank == [] {
      assert blank + s == s;
    } else {
      assert (blank + s)[1..] == blank[1..] + s;
      SkipBlank(blank[1..], s);
    }
  }

  /** What `%d` makes of blanks, a sign, digits and whatever follows them. */
  lemma ScanMeaning(blank: string, sign: string, digits: string, rest: string, width: nat)
    requires Blank(blank) && IsSign(sign) && AllDigits(digits) && digits != [] && |sign| + |digits| <= width
    requires |sign| + |digits| == width || rest == [] || !('0' <= rest[0] <= '9')
    ensures ScanInt(blank + (sign + (digits + rest)), width)
            == Some((if sign == ['-'] then -(Value(digits) as int) else Value(digits), rest))
  {
    hide Value, ScanInt, SkipSpace;
    var t := sign + (digits + rest);
    assert t[0] == if sign == [] then digits[0] else sign[0];
    SkipBlank(blank, t);
    SkippedScan(blank, t, width);
    if sign == [] {
      assert t == digits + rest;
      ScanDigits(digits, rest, width);
    } else if sign == ['-'] {
      assert t == ['-'] + digits + rest;
      ScanNegative(digits, rest, width);
    } else {
      assert t == ['+'] + digits + rest;
      ScanPositive(digits, rest, width);
    }
  }

  lemma SkippedScan(blank: string, t: string, width: nat)
    requires SkipSpace(blank + t) == t && t != [] && !IsSpace(t[0])
    ensures ScanInt(blank + t, width) == ScanInt(t, width)
  {
    hide ScanNat, SkipSpace;
    NoSpace(t);
  }

  lemma ScanPositive(digits: string, rest: string, width: nat)
    requires AllDigits(digits) && 1 <= |digits| < width
    requires |digits| == width - 1 || rest == [] || !IsDigit(rest[0])
    ensures ScanInt(['+'] + digits + rest, width) == Some((Value(digits), rest))
  {
    hide Value, ScanNat, SkipSpace, AllDigits;
    var t := ['+'] + digits + rest;
    NoSpace(t);
    ScanNatOf(digits, rest, width - 1);
    assert t[1..] == digits + rest;
  }

  /** What `atoi` makes of blanks, a sign and digits up to the first other character. */
  lemma AtoiMeaning(blank: string, sign: string, digits: string, rest: string)
    requires Blank(blank) && IsSign(sign) && AllDigits(digits)
    requires rest == [] || !('0' <= rest[0] <= '9')
    ensures digits != [] ==>
              Atoi(blank + (sign + (digits + rest))) == if sign == ['-'] then -(Value(digits) as int) else Value(digits)
  {
    hide ScanInt, Value;
    var t := sign + (digits + rest);
    if digits != [] {
      ScanMeaning(blank, sign, digits, rest, |blank + t|);
    }
  }

  lemma AtoiPrinted(n: int)
    ensures Atoi(PrintInt(n, 0)) == n
  {
    hide ScanInt, Dec;
    if n < 0 {
      var t := ['-'] + Dec(-n);
      assert t + [] == t;
      ScanNegative(Dec(-n), [], |t|);
    } else {
      assert Dec(n) + [] == Dec(n);
      ScanDigits(Dec(n), [], |Dec(n)|);
    }
  }

  // ----- formats ----------------------------------------------------------------------------

  /** The formats that are both printed and scanned. */
  datatype Format = End | Num(width: nat, rest: Format) | Chr(c: char, rest: Format)

  function Conversions(fmt: Format): nat {
    match fmt
    case End => 0
    case Chr(_, rest) => Conversions(rest)
    case Num(_, rest) => 1 + Conversions(rest)
  }

  function Print(fmt: Format, args: seq<int>): string
    requires |args| == Conversions(fmt)
  {
    match fmt
    case End => []
    case Chr(c, rest) => [c] + Print(rest, args)
    case Num(w, rest) => PrintInt(args[0], w) + Print(rest, args[1..])
  }

  /** The numbers `sscanf` converts before the first directive that fails. */
  function Scan(fmt: Format, s: string): (r: seq<int>)
    ensures |r| <= Conversions(fmt)
  {
    match fmt
    case End => []
    case Chr(c, rest) => if s != [] && s[0] == c then Scan(rest, s[1..]) else []
    case Num(w, rest) =>
      match ScanInt(s, w)
      case None => []
      case Some((n, tail)) => [n] + Scan(rest, tail)
  }

  predicate FitsFormat(fmt: Format, args: seq<int>)
    requires |args| == Conversions(fmt)
  {
    match fmt
    case End => true
    case Chr(_, rest) => FitsFormat(rest, args)
    case Num(w, rest) => FitsWidth(args[0], w) && FitsFormat(rest, args[1..])
  }

  lemma ScanChr(c: char, rest: Format, s: string)
    ensures Scan(Chr(c, rest), [c] + s) == Scan(rest, s)
  {
    assert ([c] + s)[1..] == s;
  }

  lemma ScanNum(w: nat, rest: Format, n: int, s: string)
    requires FitsWidth(n, w)
    ensures Scan(Num(w, rest), PrintInt(n, w) + s) == [n] + Scan(rest, s)
  {
    hide PrintInt, ScanInt;
    ScanPrinted(n, w, s);
  }

  /** Scanning what was printed with the same format returns the arguments that fit their widths. */
  lemma {:induction false} ScanAfterPrint(fmt: Format, args: seq<int>, tail: string)
    requires |args| == Conversions(fmt) && FitsFormat(fmt, args)
    ensures Scan(fmt, Print(fmt, args) + tail) == args
  {
    hide PrintInt, Scan;
    match fmt
    case End =>
      assert Scan(fmt, tail) == [];
    case Chr(c, rest) =>
      assert Print(fmt, args) + tail == [c] + (Print(rest, args) + tail);
      ScanChr(c, rest, Print(rest, args) + tail);
      ScanAfterPrint(rest, args, tail);
    case Num(w, rest) =>
      var next := Print(rest, args[1..]) + tail;
      assert Print(fmt, args) + tail == PrintInt(args[0], w) + next;
      ScanNum(w, rest, args[0], next);
      ScanAfterPrint(rest, args[1..], tail);
      assert args == [args[0]] + args[1..];
  }

  /** A format without the characters behind its last number. */
  function UpToLastNumber(fmt: Format): (cut: Format)
    ensures Conversions(cut) == Conversions(fmt)
  {
    match fmt
    case End => End
    case Num(w, rest) => Num(w, UpToLastNumber(rest))
    case Chr(c, rest) => if Conversions(fmt) == 0 then End else Chr(c, UpToLastNumber(rest))
  }

  /** The characters behind the last number. */
  function Trailer(fmt: Format): string {
    match fmt
    case End => []
    case Num(_, rest) => Trailer(rest)
    case Chr(c, rest) => if Conversions(fmt) == 0 then [c] + Trailer(rest) else Trailer(rest)
  }

  /** `sscanf` returns the same numbers whether or not it finds the characters behind the last one. */
  lemma {:induction false} TrailerIsNotRead(fmt: Format, s: string)
    ensures Scan(fmt, s) == Scan(UpToLastNumber(fmt), s)
  {
    hide ScanInt;
    match fmt
    case End =>
    case Chr(c, rest) =>
      if s != [] && s[0] == c {
        TrailerIsNotRead(rest, s[1..]);
      }
    case Num(w, rest) =>
      if ScanInt(s, w).Some? {
        TrailerIsNotRead(rest, ScanInt(s, w).value.1);
      }
  }

  lemma {:induction false} TrailerIsPrinted(fmt: Format, args: seq<int>)
    requires |args| == Conversions(fmt)
    ensures Print(fmt, args) == Print(UpToLastNumber(fmt), args) + Trailer(fmt)
    ensures FitsFormat(fmt, args) <==> FitsFormat(UpToLastNumber(fmt), args)
  {
    hide PrintInt, FitsWidth;
    match fmt
    case End =>
    case Chr(c, rest) =>
      TrailerIsPrinted(rest, args);
      if Conversions(fmt) == 0 {
        NothingUpTo(rest);
      }
    case Num(w, rest) =>
      TrailerIsPrinted(rest, args[1..]);
  }

  lemma NothingUpTo(fmt: Format)
    requires Conversions(fmt) == 0
    ensures UpToLastNumber(fmt) == End
  {
  }

  predicate PositiveWidths(fmt: Format) {
    match fmt
    case End => true
    case Chr(_, rest) => PositiveWidths(rest)
    case Num(w, rest) => w >= 1 && PositiveWidths(rest)
  }

  /** Whatever is scanned fits the widths it was scanned with. */
  lemma {:induction false} ScannedFits(fmt: Format, s: string)
    requires PositiveWidths(fmt) && |Scan(fmt, s)| == Conversions(fmt)
    ensures FitsFormat(fmt, Scan(fmt, s))
  {
    hide ScanInt;
    match fmt
    case End =>
    case Chr(c, rest) =>
      ScannedFits(rest, if s != [] && s[0] == c then s[1..] else []);
    case Num(w, rest) =>
      ScanBound(s, w);
      if ScanInt(s, w).Some? {
        ScannedFits(rest, ScanInt(s, w).value.1);
        assert Scan(fmt, s)[1..] == Scan(rest, ScanInt(s, w).value.1);
      }
  }

  predicate HasChr(fmt: Format, c: char) {
    match fmt
    case End => false
    case Chr(d, rest) => c == d || HasChr(rest, c)
    case Num(_, rest) => HasChr(rest, c)
  }

  /** Printed text consists of digits, signs and the characters of the format. */
  lemma {:induction false} PrintIsFreeOf(fmt: Format, args: seq<int>, c: char)
    requires |args| == Conversions(fmt)
    requires !IsDigit(c) && c != '-' && !HasChr(fmt, c)
    ensures c !in Print(fmt, args)
  {
    match fmt
    case End =>
    case Chr(_, rest) =>
      PrintIsFreeOf(rest, args, c);
    case Num(w, rest) =>
      PrintIsFreeOf(rest, args[1..], c);
      PrintIntIsFreeOf(args[0], w, c);
  }

  lemma PrintIntIsFreeOf(n: int, width: nat, c: char)
    requires !IsDigit(c) && c != '-'
    ensures c !in PrintInt(n, width)
  {
    hide Dec;
  }
}
