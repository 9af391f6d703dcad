/**
 * The integer time and date string helpers of `TimeUtils`: seconds to `hh:mm:ss`, its
 * millisecond and microsecond wrappers, zero-padding a short date and swapping the ends of a
 * dash-separated date. Java's `long`/`Integer` parameters, its truncating `/` and `%`, and the
 * `(int)` casts are written out explicitly.
 */
module TimeUtils {
  import opened Wrappers
  import opened Strings

  const TWO_31: int := 0x8000_0000
  const TWO_63: int := 0x8000_0000_0000_0000

  /** Java `long`. */
  type Long = x: int | -TWO_63 <= x < TWO_63
  /** Java `int` / `Integer` (never null where the model uses it). */
  type Int32 = x: int | -TWO_31 <= x < TWO_31

  /** Java `a / b` for a positive divisor: the quotient is truncated toward zero. */
  function JavaDiv(a: int, b: int): (q: int)
    requires b > 0
    ensures a >= 0 ==> q * b <= a < q * b + b
    ensures a < 0 ==> q * b - b < a <= q * b
  {
    if a >= 0 then a / b else -((-a) / b)
  }

  /** Java `a % b` for a positive divisor: the remainder takes the sign of `a`. */
  function JavaRem(a: int, b: int): (r: int)
    requires b > 0
    ensures a >= 0 ==> r == a % b
    ensures a < 0 ==> r <= 0
    ensures -b < r < b
    ensures JavaDiv(a, b) * b + r == a
  {
    a - b * JavaDiv(a, b)
  }

  /** The `(int)` narrowing cast: keeps the low 32 bits, read as a signed number. */
  function Int32Cast(x: int): (r: Int32)
    ensures -TWO_31 <= x < TWO_31 ==> r == x
    ensures (x - r) % (2 * TWO_31) == 0
  {
    (x + TWO_31) % (2 * TWO_31) - TWO_31
  }

  // ---------------------------------------------------------------- convertSecondsInTime

  /** Inputs below this bound keep the hours count inside `int` range. */
  const CLOCK_LIMIT: int := TWO_31 * 3600

  function HoursOf(time: Long): int { Int32Cast(JavaDiv(time, 3600)) }
  function MinutesOf(time: Long): int { Int32Cast(JavaDiv(JavaRem(time, 3600), 60)) }
  function SecondsOf(time: Long): int { Int32Cast(JavaRem(time, 60)) }

  /** The string `convertSecondsInTime(time)` returns: each field left-padded with '0' to two characters. */
  function SecondsInTime(time: Long): string
  {
    LeftPad(IntToString(HoursOf(time)), 2) + ":"
      + LeftPad(IntToString(MinutesOf(time)), 2) + ":"
      + LeftPad(IntToString(SecondsOf(time)), 2)
  }

  /** `convertSecondsInTime`: formats the three fields, then pads them in a loop run twice. */
  method ConvertSecondsInTime(time: Long) returns (r: string)
    ensures r == SecondsInTime(time)
  {
    var seconds := IntToString(SecondsOf(time));
    var minutes := IntToString(MinutesOf(time));
    var hours := IntToString(HoursOf(time));
    ghost var seconds0, minutes0, hours0 := seconds, minutes, hours;
    for i := 0 to 2
      invariant LeftPad(seconds, 2) == LeftPad(seconds0, 2) && |seconds| >= Min(2, |seconds0| + i)
      invariant LeftPad(minutes, 2) == LeftPad(minutes0, 2) && |minutes| >= Min(2, |minutes0| + i)
      invariant LeftPad(hours, 2) == LeftPad(hours0, 2) && |hours| >= Min(2, |hours0| + i)
    {
      if |seconds| < 2 {
        seconds := "0" + seconds;
      }
      if |minutes| < 2 {
        minutes := "0" + minutes;
      }
      if |hours| < 2 {
        hours := "0" + hours;
      }
    }
    r := hours + ":" + minutes + ":" + seconds;
  }

  function Min(a: int, b: int): int { if a < b then a else b }

  /** Reads `h:m:s` back into a number of seconds (`h` of any length). */
  function ParseClock(s: string): Option<nat>
  {
    var p := SplitAll(s, ':');
    if |p| == 3 && ParseNat(p[0]).Some? && ParseNat(p[1]).Some? && ParseNat(p[2]).Some? then
      Some(ParseNat(p[0]).value * 3600 + ParseNat(p[1]).value * 60 + ParseNat(p[2]).value)
    else
      None
  }

  lemma ClockArithmetic(time: nat)
    ensures time == (time / 3600) * 3600 + ((time % 3600) / 60) * 60 + time % 60
    ensures (time % 3600) / 60 < 60
  {
    var h, r := time / 3600, time % 3600;
    assert time == h * 3600 + r;
    assert r == (r / 60) * 60 + r % 60;
    assert time % 60 == r % 60 by {
      assert time == (h * 60) * 60 + r;
    }
  }

  /** A digit field padded to two places still reads as the same number, and is two long below 100. */
  lemma PaddedField(n: nat)
    ensures AllDigits(LeftPad(NatToString(n), 2)) && ':' !in LeftPad(NatToString(n), 2)
    ensures ParseNat(LeftPad(NatToString(n), 2)) == Some(n)
    ensures |LeftPad(NatToString(n), 2)| >= 2
    ensures n < 100 ==> |LeftPad(NatToString(n), 2)| == 2
    ensures n >= 100 ==> |LeftPad(NatToString(n), 2)| >= 3
  {
    NatToStringRoundTrip(n);
    NatToStringLength(n);
    LeftPadValue(NatToString(n), 2);
    LeftPadShape(NatToString(n), 2);
    DigitsHaveNoColon(LeftPad(NatToString(n), 2));
  }

  lemma DigitsHaveNoColon(s: string)
    requires AllDigits(s)
    ensures ':' !in s
  {
    assert forall i :: 0 <= i < |s| ==> s[i] != ':' by {
      forall i | 0 <= i < |s| ensures s[i] != ':' { assert IsDigit(s[i]); }
    }
  }

  /** Where the pieces of `H:M:S` sit when minutes and seconds are two characters each. */
  lemma ClockLayout(H: string, M: string, S: string)
    requires |M| == 2 && |S| == 2
    ensures var r := H + ":" + M + ":" + S; var n := |r|;
      n == |H| + 6 && r[n - 6] == ':' && r[n - 3] == ':'
      && r[n - 5..n - 3] == M && r[n - 2..] == S && r[..n - 6] == H
  {
  }

  /** For a time inside the `int` hours range the three fields are the plain quotient and remainders. */
  lemma FieldsOfNonNegative(time: Long)
    requires 0 <= time < CLOCK_LIMIT
    ensures HoursOf(time) == time / 3600
    ensures MinutesOf(time) == (time % 3600) / 60 && SecondsOf(time) == time % 60
  {
  }

  /**
   * `r` reads `H:MM:SS`: minutes `m` and seconds `s` are exactly two digits each, and the hours
   * part is `h` in decimal padded to two digits (never cut).
   */
  ghost predicate ClockShape(r: string, h: nat, m: nat, s: nat)
  {
    var n := |r|;
    n >= 8 && r[n - 6] == ':' && r[n - 3] == ':'
    && AllDigits(r[n - 5..n - 3]) && DigitsValue(r[n - 5..n - 3]) == m
    && AllDigits(r[n - 2..]) && DigitsValue(r[n - 2..]) == s
    && r[..n - 6] == LeftPad(NatToString(h), 2)
  }

  /**
   * The layout of `convertSecondsInTime(time)` for `0 <= time < 2^31 * 3600`: minutes and seconds
   * are exactly two digits holding a value below 60; hours are `time / 3600` padded to two
   * digits and never cut, so they take three or more digits from 360000 seconds on.
   */
  lemma {:induction false} SecondsInTimeFields(time: Long)
    requires 0 <= time < CLOCK_LIMIT
    ensures ClockShape(SecondsInTime(time), time / 3600, (time % 3600) / 60, time % 60)
    ensures (time % 3600) / 60 < 60 && time % 60 < 60
    ensures |SecondsInTime(time)| >= 9 <==> time >= 360000
  {
    var h, m, s := time / 3600, (time % 3600) / 60, time % 60;
    assert m < 60 && s < 60 by { ClockArithmetic(time); }
    assert h >= 100 <==> time >= 360000;
    SecondsInTimeIsClock(time);
    ClockFields(h, m, s);
  }

  /** The padded `h:m:s` text of three non-negative fields. */
  function Clock(h: nat, m: nat, s: nat): string
  {
    LeftPad(NatToString(h), 2) + ":" + LeftPad(NatToString(m), 2) + ":" + LeftPad(NatToString(s), 2)
  }

  lemma SecondsInTimeIsClock(time: Long)
    requires 0 <= time < CLOCK_LIMIT
    ensures SecondsInTime(time) == Clock(time / 3600, (time % 3600) / 60, time % 60)
  {
    FieldsOfNonNegative(time);
  }

  lemma ClockFields(h: nat, m: nat, s: nat)
    requires m < 60 && s < 60
    ensures ClockShape(Clock(h, m, s), h, m, s)
    ensures |Clock(h, m, s)| >= 9 <==> h >= 100
  {
    PaddedField(h);
    PaddedField(m);
    PaddedField(s);
    var H, M, S := LeftPad(NatToString(h), 2), LeftPad(NatToString(m), 2), LeftPad(NatToString(s), 2);
    ClockLayout(H, M, S);
  }

  /** Decoding the output of `convertSecondsInTime` gives back its input. */
  lemma {:induction false} SecondsInTimeRoundTrip(time: Long)
    requires 0 <= time < CLOCK_LIMIT
    ensures ParseClock(SecondsInTime(time)) == Some(time)
  {
    FieldsOfNonNegative(time);
    ClockArithmetic(time);
    var h, m, s := time / 3600, (time % 3600) / 60, time % 60;
    PaddedField(h);
    PaddedField(m);
    PaddedField(s);
    var H, M, S := LeftPad(NatToString(h), 2), LeftPad(NatToString(m), 2), LeftPad(NatToString(s), 2);
    assert SecondsInTime(time) == H + [':'] + (M + [':'] + S);
    SplitAllJoin(H, ':', M + [':'] + S);
    SplitAllJoin(M, ':', S);
    SplitAllWithout(S, ':');
    assert SplitAll(SecondsInTime(time), ':') == [H, M, S];
  }

  /** For a non-negative time the output holds digits and colons only. */
  lemma SecondsInTimeCharacters(time: Long)
    requires 0 <= time < CLOCK_LIMIT
    ensures forall i :: 0 <= i < |SecondsInTime(time)| ==> IsDigit(SecondsInTime(time)[i]) || SecondsInTime(time)[i] == ':'
  {
    SecondsInTimeIsClock(time);
    var h, m, s := time / 3600, (time % 3600) / 60, time % 60;
    PaddedField(h);
    PaddedField(m);
    PaddedField(s);
  }

  // ---------------------------------------------------------------- the two wrappers

  /** `convertMillisecondInTime`: whole seconds of a millisecond count (Java division). */
  function MillisecondInTime(millisecond: Int32): string
  {
    SecondsInTime(JavaDiv(millisecond, 1000))
  }

  /** `convertMicrosecondInTime`: whole seconds of a microsecond count (Java division). */
  function MicrosecondInTime(microsecond: Int32): string
  {
    SecondsInTime(JavaDiv(microsecond, 1000000))
  }

  /** For a non-negative count the millisecond wrapper is the seconds formatter on `ms / 1000`, and decodes to it. */
  lemma MillisecondInTimeRoundTrip(millisecond: Int32)
    requires millisecond >= 0
    ensures MillisecondInTime(millisecond) == SecondsInTime(millisecond / 1000)
    ensures ParseClock(MillisecondInTime(millisecond)) == Some(millisecond / 1000)
  {
    SecondsInTimeRoundTrip(millisecond / 1000);
  }

  /** For a non-negative count the microsecond wrapper is the seconds formatter on `us / 1000000`, and decodes to it. */
  lemma MicrosecondInTimeRoundTrip(microsecond: Int32)
    requires microsecond >= 0
    ensures MicrosecondInTime(microsecond) == SecondsInTime(microsecond / 1000000)
    ensures ParseClock(MicrosecondInTime(microsecond)) == Some(microsecond / 1000000)
  {
    SecondsInTimeRoundTrip(microsecond / 1000000);
  }

  /** Zero seconds is midnight. */
  lemma SecondsInTimeZero(time: Long)
    requires time == 0
    ensures SecondsInTime(time) == "00:00:00"
  {
    SecondsInTimeIsClock(time);
    PaddedZero(time / 3600);
    Midnight();
  }

  lemma PaddedZero(n: nat)
    requires n == 0
    ensures Clock(n, n, n) == "00" + ":" + "00" + ":" + "00"
  {
    assert NatToString(n) == "0";
    LeftPadShape("0", 2);
  }

  lemma Midnight()
    ensures "00" + ":" + "00" + ":" + "00" == "00:00:00"
  {
  }

  /**
   * Java's division truncates toward zero: any count of less than one second either side of zero,
   * negative ones included, formats as midnight.
   */
  lemma MillisecondInTimeTruncates(millisecond: Int32)
    requires -1000 < millisecond < 1000
    ensures MillisecondInTime(millisecond) == "00:00:00"
  {
    SecondsInTimeZero(JavaDiv(millisecond, 1000));
  }

  lemma MicrosecondInTimeTruncates(microsecond: Int32)
    requires -1000000 < microsecond < 1000000
    ensures MicrosecondInTime(microsecond) == "00:00:00"
  {
    SecondsInTimeZero(JavaDiv(microsecond, 1000000));
  }

  // ---------------------------------------------------------------- normalizeShortDate

  /** One '0' in front of a month or day shorter than two characters. */
  function PadOnce(s: string): string
  {
    if |s| < 2 then "0" + s else s
  }

  /** The string `normalizeShortDate(year, month, day)` returns. */
  function NormalizedShortDate(year: string, month: string, day: string): string
  {
    LeftPad(year, 4) + "-" + PadOnce(month) + "-" + PadOnce(day)
  }

  /** `normalizeShortDate`: a loop pads the year to four characters, month and day get at most one '0'. */
  method NormalizeShortDate(year: string, month: string, day: string) returns (r: string)
    ensures r == NormalizedShortDate(year, month, day)
  {
    var y, m, d := year, month, day;
    var i := |y|;
    while i < 4
      invariant |y| == i && LeftPad(y, 4) == LeftPad(year, 4)
      decreases 4 - i
    {
      y := "0" + y;
      i := i + 1;
    }
    if |m| < 2 {
      m := "0" + m;
    }
    if |d| < 2 {
      d := "0" + d;
    }
    r := y + "-" + m + "-" + d;
  }

  /**
   * A normalized date of dash-free parts splits back into its three fields: the year is the
   * input behind zeros making it exactly four long when shorter, and unchanged otherwise; month
   * and day carry one extra leading '0' exactly when shorter than two.
   */
  lemma {:induction false} NormalizedShortDateFields(year: string, month: string, day: string)
    requires '-' !in year && '-' !in month && '-' !in day
    ensures JavaSplit(NormalizedShortDate(year, month, day), '-')
      == [LeftPad(year, 4), PadOnce(month), PadOnce(day)]
    ensures LeftPad(year, 4) == Repeat('0', if |year| < 4 then 4 - |year| else 0) + year
    ensures PadOnce(month) == Repeat('0', if |month| < 2 then 1 else 0) + month
    ensures PadOnce(day) == Repeat('0', if |day| < 2 then 1 else 0) + day
  {
    LeftPadShape(year, 4);
    assert Repeat('0', 1) == "0";
    assert Repeat('0', 0) + month == month && Repeat('0', 0) + day == day;
    var Y, M, D := LeftPad(year, 4), PadOnce(month), PadOnce(day);
    PrefixedDashFree(Repeat('0', if |year| < 4 then 4 - |year| else 0), year);
    PrefixedDashFree(if |month| < 2 then "0" else "", month);
    PrefixedDashFree(if |day| < 2 then "0" else "", day);
    SplitThree(Y, M, D);
  }

  /** Three dash-free fields, the last non-empty, joined by dashes split back into the three. */
  lemma SplitThree(Y: string, M: string, D: string)
    requires '-' !in Y && '-' !in M && '-' !in D && D != []
    ensures JavaSplit(Y + "-" + M + "-" + D, '-') == [Y, M, D]
  {
    var r := Y + "-" + M + "-" + D;
    assert r == Y + ['-'] + (M + ['-'] + D);
    SplitAllJoin(Y, '-', M + ['-'] + D);
    SplitAllJoin(M, '-', D);
    SplitAllWithout(D, '-');
    assert r[|Y|] == '-';
  }

  lemma PrefixedDashFree(z: string, s: string)
    requires forall i :: 0 <= i < |z| ==> z[i] == '0'
    requires '-' !in s
    ensures '-' !in z + s
  {
    assert forall i :: 0 <= i < |z + s| ==> (z + s)[i] != '-' by {
      forall i | 0 <= i < |z + s| ensures (z + s)[i] != '-' {
        if i >= |z| { assert (z + s)[i] == s[i - |z|]; }
      }
    }
  }

  /** Padding does not change what the year, month and day read as numbers. */
  lemma NormalizedShortDateValues(year: string, month: string, day: string)
    requires year != [] && AllDigits(year) && month != [] && AllDigits(month) && day != [] && AllDigits(day)
    ensures ParseNat(LeftPad(year, 4)) == ParseNat(year)
    ensures ParseNat(PadOnce(month)) == ParseNat(month) && ParseNat(PadOnce(day)) == ParseNat(day)
  {
    LeftPadValue(year, 4);
    LeadingZeroValue(month);
    LeadingZeroValue(day);
  }

  // ---------------------------------------------------------------- convertItalianToEnglishDate

  /** `convertItalianToEnglishDate`: `p2-p1-p0` when the Java split on '-' gives exactly three parts, else null. */
  function ItalianToEnglishDate(italianDate: string): (r: Option<string>)
    ensures r.Some? ==> '-' in italianDate && multiset(r.value)['-'] == 2
  {
    var p := JavaSplit(italianDate, '-');
    if |p| == 3 then Some(p[2] + "-" + p[1] + "-" + p[0]) else None
  }

  function Empties(k: nat): (r: seq<string>)
    ensures |r| == k && forall i :: 0 <= i < k ==> r[i] == []
  {
    seq(k, _ => [])
  }

  lemma {:induction false} SplitDashes(k: nat)
    ensures SplitAll(Repeat('-', k), '-') == Empties(k + 1)
  {
    if k > 0 {
      SplitDashes(k - 1);
      assert Repeat('-', k)[1..] == Repeat('-', k - 1);
    }
  }

  lemma {:induction false} DropEmpties(p: seq<string>, k: nat)
    requires p != [] && p[|p| - 1] != []
    ensures DropTrailingEmpty(p + Empties(k)) == p
  {
    if k > 0 {
      assert (p + Empties(k))[..|p| + k - 1] == p + Empties(k - 1);
      DropEmpties(p, k - 1);
    } else {
      assert p + Empties(0) == p;
    }
  }

  /**
   * `a-b-c` with dash-free parts and a non-empty last part (trailing dashes are dropped by the
   * split) comes back with its outer parts swapped.
   */
  lemma {:induction false} ItalianToEnglishOnTriple(a: string, b: string, c: string, k: nat)
    requires '-' !in a && '-' !in b && '-' !in c && c != []
    ensures ItalianToEnglishDate(a + "-" + b + "-" + c + Repeat('-', k)) == Some(c + "-" + b + "-" + a)
  {
    var s := a + "-" + b + "-" + c + Repeat('-', k);
    SplitTriple(a, b, c, k);
    DropEmpties([a, b, c], k);
    assert s[|a|] == '-';
  }

  lemma SplitTriple(a: string, b: string, c: string, k: nat)
    requires '-' !in a && '-' !in b && '-' !in c
    ensures SplitAll(a + "-" + b + "-" + c + Repeat('-', k), '-') == [a, b, c] + Empties(k)
  {
    var tail := c + Repeat('-', k);
    assert a + "-" + b + "-" + c + Repeat('-', k) == a + ['-'] + (b + ['-'] + tail);
    SplitAllJoin(a, '-', b + ['-'] + tail);
    SplitAllJoin(b, '-', tail);
    SplitTail(c, k);
  }

  lemma SplitTail(c: string, k: nat)
    requires '-' !in c
    ensures SplitAll(c + Repeat('-', k), '-') == [c] + Empties(k)
  {
    if k == 0 {
      assert c + Repeat('-', k) == c;
      SplitAllWithout(c, '-');
    } else {
      assert c + Repeat('-', k) == c + ['-'] + Repeat('-', k - 1);
      SplitAllJoin(c, '-', Repeat('-', k - 1));
      SplitDashes(k - 1);
    }
  }

  /** Applying the conversion twice to `a-b-c` (dash-free, non-empty outer parts) gives the date back. */
  lemma ItalianToEnglishInvolution(a: string, b: string, c: string)
    requires '-' !in a && '-' !in b && '-' !in c && a != [] && c != []
    ensures ItalianToEnglishDate(a + "-" + b + "-" + c).Some?
    ensures ItalianToEnglishDate(ItalianToEnglishDate(a + "-" + b + "-" + c).value) == Some(a + "-" + b + "-" + c)
  {
    ItalianToEnglishOnTriple(a, b, c, 0);
    ItalianToEnglishOnTriple(c, b, a, 0);
    assert a + "-" + b + "-" + c + Repeat('-', 0) == a + "-" + b + "-" + c;
    assert c + "-" + b + "-" + a + Repeat('-', 0) == c + "-" + b + "-" + a;
  }

  lemma {:induction false} SplitAllCount(s: string, sep: char)
    ensures |SplitAll(s, sep)| == multiset(s)[sep] + 1
  {
    if s != [] {
      SplitAllCount(s[1..], sep);
      assert s == [s[0]] + s[1..];
      assert multiset(s) == multiset([s[0]]) + multiset(s[1..]);
    }
  }

  lemma {:induction false} SplitAllLastPiece(s: string, sep: char)
    requires s != [] && s[|s| - 1] != sep
    ensures var p := SplitAll(s, sep); p[|p| - 1] != []
  {
    if |s| > 1 {
      SplitAllLastPiece(s[1..], sep);
    }
  }

  /**
   * For a date that does not end in '-', the conversion succeeds exactly when the date holds two
   * dashes; with fewer than two dashes it always returns null.
   */
  lemma ItalianToEnglishNeedsTwoDashes(italianDate: string)
    ensures multiset(italianDate)['-'] < 2 ==> ItalianToEnglishDate(italianDate) == None
    ensures italianDate != [] && italianDate[|italianDate| - 1] != '-' ==>
      (ItalianToEnglishDate(italianDate).Some? <==> multiset(italianDate)['-'] == 2)
  {
    SplitAllCount(italianDate, '-');
    if italianDate != [] && italianDate[|italianDate| - 1] != '-' {
      SplitAllLastPiece(italianDate, '-');
    }
    if '-' !in italianDate {
      assert multiset(italianDate)['-'] == 0;
    }
  }

  /** A normalized date of dash-free parts is turned around field by field. */
  lemma NormalizedDateToEnglish(year: string, month: string, day: string)
    requires '-' !in year && '-' !in month && '-' !in day
    ensures ItalianToEnglishDate(NormalizedShortDate(year, month, day))
      == Some(PadOnce(day) + "-" + PadOnce(month) + "-" + LeftPad(year, 4))
  {
    NormalizedShortDateFields(year, month, day);
    var p := JavaSplit(NormalizedShortDate(year, month, day), '-');
    assert p == [LeftPad(year, 4), PadOnce(month), PadOnce(day)];
    assert p[2] + "-" + p[1] + "-" + p[0] == PadOnce(day) + "-" + PadOnce(month) + "-" + LeftPad(year, 4);
  }
}
