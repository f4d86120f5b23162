/**
 * The clip window of one request (`Requester.set_start` and
 * `Requester.set_duration`): reading `HH:MM:SS` text into seconds by fixed
 * slices, the seek option, and the duration option printed back as
 * zero-padded `HH:MM:SS`.
 */
module TimeWindow {
  import opened Wrappers
  import opened Text

  /** The time text meaning "no value" for both ends of the window. */
  const NoTime: string := "00:00:00"

  /** Durations below this many seconds print with two-digit hours. */
  const TwoDigitHours: nat := 360000

  /** Python's `s[lo:hi]` for `0 <= lo <= hi`: out-of-range bounds are clamped. */
  function Slice(s: string, lo: nat, hi: nat): (r: string)
    requires lo <= hi
    ensures |r| <= hi - lo
    ensures hi <= |s| ==> r == s[lo..hi]
  {
    if hi <= |s| then s[lo..hi] else if lo <= |s| then s[lo..] else ""
  }

  /** `int(s)` on a slice: defined for a non-empty run of ASCII digits. */
  function Int(s: string): (r: Option<nat>)
    ensures r.Some? <==> IsDigits(s)
  {
    if IsDigits(s) then Some(DecimalValue(s)) else None
  }

  /** Seconds of a time text read as `t[:2]` hours, `t[3:5]` minutes, `t[6:8]` seconds. */
  function Seconds(t: string): Option<nat>
  {
    match (Int(Slice(t, 0, 2)), Int(Slice(t, 3, 5)), Int(Slice(t, 6, 8)))
    case (Some(h), Some(m), Some(s)) => Some(h * 3600 + m * 60 + s)
    case _ => None
  }

  /** `f"{n:02d}"`: exactly two digits below 100, all of `str(n)` from 100 on. */
  function Pad2(n: nat): string
  {
    if n < 100 then [DigitChar(n / 10), DigitChar(n % 10)] else NatToString(n)
  }

  /** `d` seconds as `HH:MM:SS` (hours may take more than two digits). */
  function Clock(d: nat): string
  {
    Pad2(d / 3600) + ":" + Pad2(d % 3600 / 60) + ":" + Pad2(d % 60)
  }

  /** The seek option: none for `NoTime`, else `-ss` and the start text unchanged. */
  function Seek(start: string): (option: string)
    ensures option == "" <==> start == NoTime
    ensures option != "" ==> StartsWith(option, "-ss ") && option[4..] == start
  {
    if start == NoTime then "" else "-ss " + start
  }

  /** Why no duration option could be made. */
  datatype TimeError =
    | NotAnInteger   // a slice `int()` rejects: a ValueError the tool does not catch
    | CheckDuration  // the window is empty or reversed: the tool's assertion fails

  /**
   * The duration option: none when the end is `NoTime`; otherwise both ends
   * are read into seconds, the window must be positive, and the option is
   * `-t` followed by the elapsed time.
   */
  function Duration(start: string, end: string): (r: Result<string, TimeError>)
    ensures end == NoTime ==> r == Success("")
    ensures end != NoTime && (Seconds(start).None? || Seconds(end).None?) ==> r == Failure(NotAnInteger)
    ensures end != NoTime && Seconds(start).Some? && Seconds(end).Some? ==>
              (r.Success? <==> Seconds(start).value < Seconds(end).value)
    ensures r.Success? && end != NoTime ==>
              StartsWith(r.value, "-t ") && Seconds(end).value - Seconds(start).value > 0
  {
    if end == NoTime then Success("")
    else match (Seconds(start), Seconds(end))
      case (Some(s), Some(e)) =>
        var elapsed := e as int - s as int;
        if elapsed > 0 then Success("-t " + Clock(elapsed)) else Failure(CheckDuration)
      case _ => Failure(NotAnInteger)
  }

  /** `Pad2` is zero-padding of `str(n)` to width two. */
  lemma Pad2Format(n: nat)
    ensures Pad2(n) == if n < 10 then "0" + NatToString(n) else NatToString(n)
  {
    if 10 <= n < 100 {
      assert NatToString(n / 10) == [DigitChar(n / 10)];
    }
  }

  lemma ReadTwoDigits(n: nat)
    requires n < 100
    ensures Int(Pad2(n)) == Some(n)
  {
    var s := Pad2(n);
    assert s[..1] == [DigitChar(n / 10)];
    assert s[..1][..0] == [];
    assert DecimalValue(s[..1]) == n / 10;
  }

  /**
   * Printing `d` and reading the text back through the same slices gives `d`
   * again, the text is eight characters with colons at 2 and 5, and its
   * minute and second fields stay below 60.
   */
  lemma ClockRoundTrip(d: nat)
    requires d < TwoDigitHours
    ensures |Clock(d)| == 8 && Clock(d)[2] == ':' && Clock(d)[5] == ':'
    ensures Seconds(Clock(d)) == Some(d)
    ensures Int(Clock(d)[3..5]).Some? && Int(Clock(d)[3..5]).value < 60
    ensures Int(Clock(d)[6..8]).Some? && Int(Clock(d)[6..8]).value < 60
  {
    var h, m, s := d / 3600, d % 3600 / 60, d % 60;
    JoinSeconds(d, h, m, s);
    ReadFields(Clock(d), h, m, s);
  }

  /** Hours, minutes and seconds of `d` add up to `d` again. */
  lemma JoinSeconds(d: nat, h: nat, m: nat, s: nat)
    requires d < TwoDigitHours
    requires h == d / 3600 && m == d % 3600 / 60 && s == d % 60
    ensures h < 100 && m < 60 && s < 60
    ensures h * 3600 + m * 60 + s == d
  {
  }

  /** Three padded fields joined by colons read back through the fixed slices. */
  lemma ReadFields(c: string, h: nat, m: nat, s: nat)
    requires h < 100 && m < 60 && s < 60
    requires c == Pad2(h) + ":" + Pad2(m) + ":" + Pad2(s)
    ensures |c| == 8 && c[2] == ':' && c[5] == ':'
    ensures Seconds(c) == Some(h * 3600 + m * 60 + s)
    ensures Int(c[3..5]) == Some(m) && Int(c[6..8]) == Some(s)
  {
    ReadTwoDigits(h);
    ReadTwoDigits(m);
    ReadTwoDigits(s);
    assert c[0..2] == Pad2(h);
    assert c[3..5] == Pad2(m);
    assert c[6..8] == Pad2(s);
  }

  /** `t` is canonical `HH:MM:SS`: two-digit fields, minutes and seconds below 60. */
  predicate Canonical(t: string)
  {
    && |t| == 8 && t[2] == ':' && t[5] == ':'
    && IsDigits(t[0..2]) && IsDigits(t[3..5]) && IsDigits(t[6..8])
    && DecimalValue(t[3..5]) < 60 && DecimalValue(t[6..8]) < 60
  }

  lemma PrintTwoDigits(f: string)
    requires |f| == 2 && IsDigits(f)
    ensures DecimalValue(f) < 100
    ensures Pad2(DecimalValue(f)) == f
  {
    var hi, lo := f[0] as int - '0' as int, f[1] as int - '0' as int;
    TwoDigitValue(f);
    DigitsOf(hi, lo);
    assert DigitChar(hi) == f[0] && DigitChar(lo) == f[1];
  }

  /** The value of a two-digit text. */
  lemma TwoDigitValue(f: string)
    requires |f| == 2 && IsDigits(f)
    ensures DecimalValue(f) == (f[0] as int - '0' as int) * 10 + (f[1] as int - '0' as int)
  {
    assert f[..1][..0] == [];
    assert DecimalValue(f[..1]) == f[0] as int - '0' as int;
  }

  lemma DigitsOf(hi: nat, lo: nat)
    requires hi < 10 && lo < 10
    ensures (hi * 10 + lo) / 10 == hi && (hi * 10 + lo) % 10 == lo
  {
  }

  lemma SplitSeconds(h: nat, m: nat, s: nat)
    requires m < 60 && s < 60
    ensures (h * 3600 + m * 60 + s) / 3600 == h
    ensures (h * 3600 + m * 60 + s) % 3600 / 60 == m
    ensures (h * 3600 + m * 60 + s) % 60 == s
  {
    var d := h * 3600 + m * 60 + s;
    assert 0 <= m * 60 + s < 3600;
    assert d % 3600 == m * 60 + s;
    assert d % 60 == s;
  }

  /** A canonical time text is printed back exactly from its seconds. */
  lemma CanonicalRoundTrip(t: string)
    requires Canonical(t)
    ensures Seconds(t).Some?
    ensures Clock(Seconds(t).value) == t
  {
    var h, m, s := CanonicalParts(t);
    ClockOf(h, m, s);
  }

  /** The three fields of a canonical text, each printed back exactly. */
  lemma CanonicalParts(t: string) returns (h: nat, m: nat, s: nat)
    requires Canonical(t)
    ensures m < 60 && s < 60
    ensures Seconds(t) == Some(h * 3600 + m * 60 + s)
    ensures t == Pad2(h) + ":" + Pad2(m) + ":" + Pad2(s)
  {
    h, m, s := DecimalValue(t[0..2]), DecimalValue(t[3..5]), DecimalValue(t[6..8]);
    CanonicalSeconds(t);
    PrintTwoDigits(t[0..2]);
    PrintTwoDigits(t[3..5]);
    PrintTwoDigits(t[6..8]);
    CanonicalFields(t);
  }

  /** A canonical text is its three fields joined by colons. */
  lemma CanonicalFields(t: string)
    requires Canonical(t)
    ensures t == t[0..2] + ":" + t[3..5] + ":" + t[6..8]
  {
  }

  /** A canonical text reads as the seconds of its three fields. */
  lemma CanonicalSeconds(t: string)
    requires Canonical(t)
    ensures Seconds(t) == Some(DecimalValue(t[0..2]) * 3600 + DecimalValue(t[3..5]) * 60 + DecimalValue(t[6..8]))
  {
    assert Slice(t, 0, 2) == t[0..2];
  }

  /** The clock text of a time given in fields prints those fields. */
  lemma ClockOf(h: nat, m: nat, s: nat)
    requires m < 60 && s < 60
    ensures Clock(h * 3600 + m * 60 + s) == Pad2(h) + ":" + Pad2(m) + ":" + Pad2(s)
  {
    SplitSeconds(h, m, s);
  }

  /**
   * The duration option of a window shorter than 100 hours reads back, after
   * its `-t ` prefix, as exactly the elapsed seconds.
   */
  lemma DurationRoundTrip(start: string, end: string, s: nat, e: nat)
    requires end != NoTime && Seconds(start) == Some(s) && Seconds(end) == Some(e)
    requires s < e < s + TwoDigitHours
    ensures Duration(start, end).Success?
    ensures Seconds(Duration(start, end).value[3..]) == Some(e - s)
  {
    var d: nat := e - s;
    DurationText(start, end, s, e);
    AfterFlag(Clock(d));
    ClockRoundTrip(d);
  }

  /*
   * The worked example and its helpers take their texts as parameters pinned
   * by `requires`: with the literals written into the statements the verifier
   * unfolds `Seconds`, `Clock` and `Pad2` on them all at once and runs out of
   * resource.
   */

  /** The worked window 00:16:41 to 00:22:35 gives the options `-ss 00:16:41` and `-t 00:05:54`. */
  lemma DurationExample(start: string, end: string)
    requires start == "00:16:41" && end == "00:22:35"
    ensures Seek(start) == "-ss 00:16:41"
    ensures Duration(start, end) == Success("-t 00:05:54")
  {
    ExampleEnds(start, end);
    ExampleElapsed("00:05:54");
    DurationText(start, end, 1001, 1355);
    ExampleOptionText("00:05:54");
  }

  lemma ExampleOptionText(c: string)
    requires c == "00:05:54"
    ensures "-t " + c == "-t 00:05:54"
  {
  }

  lemma ExampleEnds(start: string, end: string)
    requires start == "00:16:41" && end == "00:22:35"
    ensures end != NoTime
    ensures Seconds(start) == Some(1001) && Seconds(end) == Some(1355)
  {
    assert end[3] != NoTime[3];
    ReadClock(start, 1001, 0, 16, 41);
    ReadClock(end, 1355, 0, 22, 35);
  }

  lemma ExampleElapsed(c: string)
    requires c == "00:05:54"
    ensures Clock(1355 - 1001) == c
  {
    ClockExample(354, c, 0, 5, 54);
  }

  /** A clock text spelled digit by digit reads as its seconds. */
  lemma ReadClock(t: string, d: nat, h: nat, m: nat, s: nat)
    requires h < 100 && m < 60 && s < 60 && d == h * 3600 + m * 60 + s
    requires t == [DigitChar(h / 10), DigitChar(h % 10), ':', DigitChar(m / 10), DigitChar(m % 10), ':', DigitChar(s / 10), DigitChar(s % 10)]
    ensures Seconds(t) == Some(d)
  {
    ClockExample(d, t, h, m, s);
    ClockRoundTrip(d);
  }

  /** A positive window's duration option is `-t ` and the clock text of its length. */
  lemma DurationText(start: string, end: string, s: nat, e: nat)
    requires end != NoTime && Seconds(start) == Some(s) && Seconds(end) == Some(e)
    requires s < e
    ensures Duration(start, end) == Success("-t " + Clock(e - s))
  {
  }

  lemma AfterFlag(c: string)
    ensures ("-t " + c)[3..] == c
  {
  }

  /** The clock text of `h` hours, `m` minutes and `s` seconds, digit by digit. */
  lemma ClockExample(d: nat, t: string, h: nat, m: nat, s: nat)
    requires h < 100 && m < 60 && s < 60 && d == h * 3600 + m * 60 + s
    requires t == [DigitChar(h / 10), DigitChar(h % 10), ':', DigitChar(m / 10), DigitChar(m % 10), ':', DigitChar(s / 10), DigitChar(s % 10)]
    ensures Clock(d) == t
  {
    SplitSeconds(h, m, s);
  }

  /** An end at or before the start never yields a duration option. */
  lemma EmptyWindowRejected(start: string, end: string)
    requires end != NoTime && Seconds(start).Some? && Seconds(end).Some?
    requires Seconds(end).value <= Seconds(start).value
    ensures Duration(start, end) == Failure(CheckDuration)
  {
  }
}
