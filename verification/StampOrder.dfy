/** The order of printed timestamps, as section 5.1 of RFC 3339 describes it. */
module StampOrder {
  import opened CInt
  import opened CText
  import opened Calendar
  import opened CsvPoint

  /** Lexicographic order of strings, as `strcmp` has it. */
  predicate LexLess(a: string, b: string) {
    if b == [] then false
    else if a == [] then true
    else if a[0] != b[0] then a[0] < b[0]
    else LexLess(a[1..], b[1..])
  }

  lemma {:induction false} LexOfConcatenation(a: string, b: string, c: string, d: string)
    requires |a| == |c|
    ensures LexLess(a + b, c + d) <==> LexLess(a, c) || (a == c && LexLess(b, d))
  {
    if a == [] {
      assert a + b == b && c + d == d;
    } else {
      assert (a + b)[1..] == a[1..] + b && (c + d)[1..] == c[1..] + d;
      LexOfConcatenation(a[1..], b, c[1..], d);
      assert a == [a[0]] + a[1..] && c == [c[0]] + c[1..];
    }
  }

  /** Digit strings of one length are ordered like the numbers they write. */
  lemma {:induction false} LexOfDigits(a: string, b: string)
    requires |a| == |b| && AllDigits(a) && AllDigits(b)
    ensures LexLess(a, b) <==> Value(a) < Value(b)
    ensures a == b <==> Value(a) == Value(b)
  {
    if a != [] {
      var n := |a| - 1;
      LexOfDigits(a[..n], b[..n]);
      LexOfConcatenation(a[..n], [a[n]], b[..n], [b[n]]);
      assert a == a[..n] + [a[n]] && b == b[..n] + [b[n]];
    }
  }

  lemma LexOfNumbers(m: nat, n: nat, width: nat)
    requires width >= 1 && m < Pow10(width) && n < Pow10(width)
    ensures |PrintInt(m, width)| == |PrintInt(n, width)|
    ensures LexLess(PrintInt(m, width), PrintInt(n, width)) <==> m < n
    ensures PrintInt(m, width) == PrintInt(n, width) <==> m == n
  {
    PaddedExact(m, width);
    PaddedExact(n, width);
    LexOfDigits(PadLeft(Dec(m), width), PadLeft(Dec(n), width));
  }

  /** Lexicographic order of the printed numbers. */
  predicate ArgsLess(a: seq<int>, b: seq<int>)
    requires |a| == |b|
  {
    if a == [] then false
    else if a[0] != b[0] then a[0] < b[0]
    else ArgsLess(a[1..], b[1..])
  }

  predicate NonNegative(a: seq<int>) {
    forall i :: 0 <= i < |a| ==> 0 <= a[i]
  }

  /** Texts printed with one format from arguments that fit are ordered like their arguments. */
  lemma {:induction false} LexOfPrinted(fmt: Format, a: seq<int>, b: seq<int>)
    requires |a| == |b| == Conversions(fmt)
    requires FitsFormat(fmt, a) && FitsFormat(fmt, b) && NonNegative(a) && NonNegative(b)
    ensures LexLess(Print(fmt, a), Print(fmt, b)) <==> ArgsLess(a, b)
  {
    hide PrintInt;
    match fmt
    case End =>
    case Chr(c, rest) =>
      LexOfPrinted(rest, a, b);
      LexOfConcatenation([c], Print(rest, a), [c], Print(rest, b));
    case Num(w, rest) =>
      LexOfPrinted(rest, a[1..], b[1..]);
      LexOfNumbers(a[0], b[0], w);
      LexOfConcatenation(PrintInt(a[0], w), Print(rest, a[1..]), PrintInt(b[0], w), Print(rest, b[1..]));
  }

  lemma ArgsOfSeven(a: seq<int>, b: seq<int>)
    requires |a| == |b| == 7
    ensures ArgsLess(a, b) <==> exists k :: 0 <= k < 7 && FirstDifference(a, b, k)
  {
    ArgsFrom(a, b, 0);
    assert a[0..] == a && b[0..] == b;
  }

  predicate FirstDifference(a: seq<int>, b: seq<int>, k: int)
    requires |a| == |b| && 0 <= k < |a|
  {
    a[k] < b[k] && forall i :: 0 <= i < k ==> a[i] == b[i]
  }

  lemma {:induction false} ArgsFrom(a: seq<int>, b: seq<int>, k: nat)
    requires |a| == |b| && k <= |a| && forall i :: 0 <= i < k ==> a[i] == b[i]
    ensures ArgsLess(a[k..], b[k..]) <==> exists j :: k <= j < |a| && FirstDifference(a, b, j)
    decreases |a| - k
  {
    if k < |a| {
      assert a[k..][1..] == a[k + 1..] && b[k..][1..] == b[k + 1..];
      if a[k] == b[k] {
        ArgsFrom(a, b, k + 1);
      } else if a[k] < b[k] {
        assert FirstDifference(a, b, k);
      }
    }
  }

  /**
    Up to the year 9999 the emitted timestamps, compared as strings, are ordered exactly like the
    instants and microseconds they stand for.
   */
  lemma StampOrder(t: int, micro: int, u: int, nano: int)
    requires 0 <= t && CivilOf(t).year + YEAR0 <= 9999 && 0 <= micro <= 999999
    requires 0 <= u && CivilOf(u).year + YEAR0 <= 9999 && 0 <= nano <= 999999
    ensures LexLess(StampText(t, micro), StampText(u, nano)) <==> t < u || (t == u && micro < nano)
  {
    hide CivilOf, Instant, Print, FitsFormat;
    var a, b := StampArgs(t, micro), StampArgs(u, nano);
    StampFits(t, micro);
    StampFits(u, nano);
    CanonicalRanges(CivilOf(t));
    CanonicalRanges(CivilOf(u));
    LexOfPrinted(STAMP_FORMAT, a, b);
    ArgsOfStamps(t, micro, u, nano);
  }

  lemma ArgsOfStamps(t: int, micro: int, u: int, nano: int)
    requires 0 <= micro <= 999999 && 0 <= nano <= 999999
    ensures ArgsLess(StampArgs(t, micro), StampArgs(u, nano)) <==> t < u || (t == u && micro < nano)
  {
    hide CivilOf, Instant, ArgsLess, Canonical;
    var a, b := StampArgs(t, micro), StampArgs(u, nano);
    var c, d := CivilOf(t), CivilOf(u);
    ArgsOfSeven(a, b);
    EarlierIffBefore(c, d);
    CanonicalSame(t, u);
    if t < u || (t == u && micro < nano) {
      var k := if c.year < d.year then 0
               else if c.mon < d.mon then 1
               else if c.mday < d.mday then 2
               else if c.hour < d.hour then 3
               else if c.min < d.min then 4
               else if c.sec < d.sec then 5
               else 6;
      assert FirstDifference(a, b, k);
    }
    if ArgsLess(a, b) {
      var k :| 0 <= k < 7 && FirstDifference(a, b, k);
      assert k > 0 ==> a[0] == b[0];
      assert k > 1 ==> a[1] == b[1];
      assert k > 2 ==> a[2] == b[2];
      assert k > 3 ==> a[3] == b[3];
      assert k > 4 ==> a[4] == b[4];
      assert k > 5 ==> a[5] == b[5];
    }
  }

  lemma CanonicalSame(t: int, u: int)
    ensures CivilOf(t) == CivilOf(u) <==> t == u
  {
  }
}
