/** The two time encodings of the FCPXML writer: a limited-denominator fraction
    for offsets and audio durations, and a frame-aligned multiple of the frame
    duration for video durations. Both are rendered as `"<num>/<den>s"`. */
module Timing {
  import opened Wrappers
  import opened Text
  import opened Rationals

  /** The default `timebase` of `_seconds_to_rational`. */
  const DefaultTimebase: int := 1000

  /** The bound `limit_denominator` is given when it rounds a video duration. */
  const DurationBound: int := 100000

  /** `Fraction(seconds).limit_denominator(timebase * 100)`; a bound below one
      raises ValueError. */
  function SecondsToRational(seconds: Rat, timebase: int): (r: Result<Fraction>)
    ensures r.Success? <==> timebase >= 1
    ensures r.Success? ==> Normalized(r.value) && 0 < r.value.den <= timebase * 100
    ensures r.Success? && seconds.den <= timebase * 100 ==> SameValue(r.value, seconds)
    ensures r.Success? && seconds.num >= 0 ==> r.value.num >= 0
  {
    if timebase * 100 < 1 then Failure(DenominatorBoundTooSmall)
    else Success(LimitDenominator(seconds, timebase * 100))
  }

  /** `_seconds_to_rational(seconds)` with its default timebase, as every caller
      in the writer uses it. */
  function RationalTime(seconds: Rat): (r: Fraction)
    ensures Normalized(r) && 0 < r.den <= DefaultTimebase * 100
    ensures seconds.num >= 0 ==> r.num >= 0
  {
    SecondsToRational(seconds, DefaultTimebase).value
  }

  /** A time whose denominator is within the time base's reach is kept exactly. */
  lemma RationalTimeExact(seconds: Rat)
    requires seconds.den <= DefaultTimebase * 100
    ensures SameValue(RationalTime(seconds), seconds)
  {
    assert RationalTime(seconds) == SecondsToRational(seconds, DefaultTimebase).value;
  }

  /** `round(duration / frame_duration)`, where `duration` is `d` and the frame
      duration is `fpsDen/fpsNum`: the nearest whole number of frames, a tie
      going to the even count. */
  function FrameCount(d: Rat, fpsNum: int, fpsDen: int): int
    requires fpsNum != 0 && fpsDen != 0
  {
    var q := Reduce(d.num * fpsNum, d.den * fpsDen);
    RoundHalfEven(q.num, q.den)
  }

  /** The frame count is within half a frame of `d`, and an exact tie went to
      the even count. */
  lemma FrameCountRounds(d: Rat, fpsNum: int, fpsDen: int)
    requires fpsNum != 0 && fpsDen != 0
    ensures var f := FrameCount(d, fpsNum, fpsDen);
      && 2 * Abs(d.num * fpsNum - f * (d.den * fpsDen)) <= Abs(d.den * fpsDen)
      && (2 * Abs(d.num * fpsNum - f * (d.den * fpsDen)) == Abs(d.den * fpsDen) ==> f % 2 == 0)
  {
    var n, m := d.num * fpsNum, d.den * fpsDen;
    var q := Reduce(n, m);
    ScaleDistance(n, m, q.num, q.den, RoundHalfEven(q.num, q.den));
  }

  /** Moving from `qn/qd` to the same value `n/m` scales the distance to any
      integer `f` by the same factor on both sides. */
  lemma ScaleDistance(n: int, m: int, qn: int, qd: int, f: int)
    requires m != 0 && qd > 0 && qn * m == n * qd
    requires 2 * Abs(qn - f * qd) <= qd
    ensures 2 * Abs(n - f * m) <= Abs(m)
    ensures 2 * Abs(n - f * m) == Abs(m) ==> 2 * Abs(qn - f * qd) == qd
  {
    var e, eq := n - f * m, qn - f * qd;
    assert e * qd == eq * m;
    AbsProduct(e, qd);
    AbsProduct(eq, m);
    assert Abs(e) * qd == Abs(eq) * Abs(m);
    ScaleCompare(Abs(e), Abs(eq), qd, Abs(m));
  }

  lemma AbsProduct(a: int, b: int)
    ensures Abs(a * b) == Abs(a) * Abs(b)
  {
    if a < 0 && b >= 0 {
      assert a * b == -((-a) * b);
    } else if a < 0 {
      assert a * b == (-a) * (-b);
    } else if b < 0 {
      assert a * b == -(a * (-b));
    }
  }

  lemma ScaleCompare(e: nat, eq: nat, qd: int, m: nat)
    requires qd > 0 && m > 0 && e * qd == eq * m && 2 * eq <= qd
    ensures 2 * e <= m
    ensures 2 * e == m ==> 2 * eq == qd
  {
    assert 2 * e * qd == 2 * eq * m;
    MulStrict(2 * e, m, qd);
    MulStrict(qd, 2 * eq, m);
  }

  lemma MulStrict(x: int, y: int, c: int)
    requires c > 0
    ensures x > y ==> x * c > y * c
    ensures x <= y ==> x * c <= y * c
  {
  }

  /** `_duration_rational(seconds, fps_num, fps_den)`: the limited duration
      rounded to a whole number of frames of `fps_den/fps_num` seconds. A zero
      frame-rate component raises ZeroDivisionError. */
  function DurationRational(seconds: Rat, fpsNum: int, fpsDen: int): (r: Result<Fraction>)
    ensures r.Success? <==> fpsNum != 0 && fpsDen != 0
    ensures r.Success? ==> Normalized(r.value)
  {
    if fpsNum == 0 || fpsDen == 0 then Failure(ZeroDivision)
    else
      var d := LimitDenominator(seconds, DurationBound);
      var f := FrameCount(d, fpsNum, fpsDen);
      Success(Reduce(f * fpsDen, fpsNum))
  }

  /** A rounded duration is a whole number `f` of frames of `fpsDen/fpsNum`
      seconds, within half a frame of the limited duration. */
  lemma DurationFrames(seconds: Rat, fpsNum: int, fpsDen: int)
    requires fpsNum != 0 && fpsDen != 0
    ensures var r := DurationRational(seconds, fpsNum, fpsDen).value;
      var d := LimitDenominator(seconds, DurationBound);
      var f := FrameCount(d, fpsNum, fpsDen);
      && r.num * fpsNum == f * fpsDen * r.den
      && 2 * Abs(d.num * fpsNum - f * (d.den * fpsDen)) <= Abs(d.den * fpsDen)
  {
    FrameCountRounds(LimitDenominator(seconds, DurationBound), fpsNum, fpsDen);
  }

  // ---------------------------------------------------------------------------
  // The rendered form
  // ---------------------------------------------------------------------------

  /** Reads `"<num>/<den>s"` back. */
  function ParseTimeText(s: string): (r: Option<Fraction>)
    ensures r.Some? ==> |s| > 0 && s[|s| - 1] == 's'
  {
    if |s| == 0 || s[|s| - 1] != 's' then None
    else
      var parts := Split(s[..|s| - 1], '/');
      if |parts| != 2 then None
      else match (ParseInt(parts[0]), ParseInt(parts[1]))
        case (Success(n), Success(d)) => Some(Fraction(n, d))
        case _ => None
  }

  /** The time text determines the fraction: no two fractions share a text. */
  lemma TimeTextRoundTrip(f: Fraction)
    ensures ParseTimeText(TimeText(f)) == Some(f)
  {
    var a, b := IntToString(f.num), IntToString(f.den);
    var s := TimeText(f);
    assert s == a + "/" + b + "s";
    assert s[..|s| - 1] == a + ['/'] + b;
    IntTextHasNoSlash(f.num);
    IntTextHasNoSlash(f.den);
    SplitAtSeparator(a, b, '/');
    SplitWithoutSeparator(b, '/');
    IntStringRoundTrip(f.num);
    IntStringRoundTrip(f.den);
  }

  lemma IntTextHasNoSlash(n: int)
    ensures '/' !in IntToString(n)
  {
    var s := NatToString(Abs(n));
    assert forall i :: 0 <= i < |s| ==> s[i] != '/';
    if n < 0 {
      assert IntToString(n) == "-" + s;
    }
  }

  /** Python's examples: 1.0, 0.5 and 0.0 seconds. */
  lemma RationalTimeExamples()
    ensures TimeText(RationalTime(Fraction(1, 1))) == "1/1s"
    ensures TimeText(RationalTime(Fraction(1, 2))) == "1/2s"
    ensures TimeText(RationalTime(Fraction(0, 1))) == "0/1s"
  {
  }
}
