/**
 * `framesToTimecode`: a frame count and a frame rate become an
 * `HH:MM:SS:FF` string, and such a string is read back into its four
 * integer fields.
 *
 * Floating point is replaced by exact real arithmetic: `int(x)` truncates
 * toward zero (`Trunc`), `//` and `%` on floats floor (`FloorDiv`,
 * `FloorMod`). The arithmetic is defined for every integer frame count and
 * every non-zero rate, as in the source; the properties below name the
 * ranges they hold on.
 */
module FrameTimecode {
  import opened PyText

  /** The four fields of a timecode, in the order they are printed. */
  datatype Timecode = Timecode(hours: int, minutes: int, seconds: int, frames: int)

  /** `int(x)` on a float: the integer part, rounded toward zero. */
  function Trunc(x: real): (i: int)
    ensures x >= 0.0 ==> i as real <= x < i as real + 1.0
    ensures x < 0.0 ==> i as real - 1.0 < x <= i as real
  {
    if x >= 0.0 then x.Floor else -((-x).Floor)
  }

  /** `x // d` on floats, for a positive divisor: the quotient rounded down. */
  function FloorDiv(x: real, d: real): (q: int)
    requires d > 0.0
    ensures q as real * d <= x < (q + 1) as real * d
  {
    var q := (x / d).Floor;
    ScaledBetween(q as real, x, (q + 1) as real, d);
    q
  }

  /** `x % d` on floats, for a positive divisor: what is left above the last multiple of `d`. */
  function FloorMod(x: real, d: real): (r: real)
    requires d > 0.0
    ensures 0.0 <= r < d
    ensures (x - r) / d == FloorDiv(x, d) as real
  {
    x - d * FloorDiv(x, d) as real
  }

  /**
   * The frame field of `framesToTimecode`: the fractional second scaled by
   * the rate and truncated, then clamped below `int(frameRate)` (the guard
   * the source adds against rounding error).
   */
  function FrameField(totalSeconds: real, frameRate: real): (f: int)
    ensures f < Trunc(frameRate)
  {
    var f := Trunc(FractionInFrames(totalSeconds, frameRate));
    if f >= Trunc(frameRate) then Trunc(frameRate) - 1 else f
  }

  /** The fractional part of the elapsed seconds, scaled back to frames. */
  function FractionInFrames(totalSeconds: real, frameRate: real): real {
    (totalSeconds - Trunc(totalSeconds) as real) * frameRate
  }

  /** The fields `framesToTimecode` computes from the elapsed seconds before it formats them. */
  function TimecodeAt(totalSeconds: real, frameRate: real): Timecode {
    Timecode(
      FloorDiv(totalSeconds, 3600.0),
      FloorDiv(FloorMod(totalSeconds, 3600.0), 60.0),
      Trunc(FloorMod(totalSeconds, 60.0)),
      FrameField(totalSeconds, frameRate))
  }

  /** `totalSeconds = frameCount / frameRate`, then the four fields. */
  function TimecodeOf(frameCount: int, frameRate: real): Timecode
    requires frameRate != 0.0
  {
    TimecodeAt(frameCount as real / frameRate, frameRate)
  }

  /** `f"{h:02}:{m:02}:{s:02}:{f:02}"` */
  function Render(tc: Timecode): string {
    Pad2(tc.hours) + ":" + Pad2(tc.minutes) + ":" + Pad2(tc.seconds) + ":" + Pad2(tc.frames)
  }

  /**
   * `h, m, s, f = map(int, tc.split(":"))`: exactly four fields, each an
   * integer numeral; `None` stands for the `ValueError` of a wrong field
   * count or a bad numeral.
   */
  function ParseTimecode(text: string): Option<Timecode> {
    var parts := Split(text, ':');
    if |parts| != 4 then None
    else
      match (ParseInt(parts[0]), ParseInt(parts[1]), ParseInt(parts[2]), ParseInt(parts[3]))
      case (Some(h), Some(m), Some(s), Some(f)) => Some(Timecode(h, m, s, f))
      case _ => None
  }

  /** `framesToTimecode(frameCount, frameRate)`; what it prints reads back as the fields it computed. */
  function FramesToTimecode(frameCount: int, frameRate: real): (text: string)
    requires frameRate != 0.0
    ensures ParseTimecode(text) == Some(TimecodeOf(frameCount, frameRate))
  {
    RenderParses(TimecodeOf(frameCount, frameRate));
    Render(TimecodeOf(frameCount, frameRate))
  }

  /** The whole seconds a timecode names, `h * 3600 + m * 60 + s`. */
  function WholeSeconds(tc: Timecode): int {
    tc.hours * 3600 + tc.minutes * 60 + tc.seconds
  }

  /** The start-frame count of a parsed timecode, `int((h*3600 + m*60 + s) * frameRate + f)`. */
  function FrameTotal(tc: Timecode, frameRate: real): int {
    Trunc(WholeSeconds(tc) as real * frameRate + tc.frames as real)
  }

  // ---------------------------------------------------------------------
  // Properties

  /** Four numerals joined by colons read back as their four values. */
  lemma FieldsParse(h: string, m: string, s: string, f: string, tc: Timecode)
    requires ':' !in h && ':' !in m && ':' !in s && ':' !in f
    requires ParseInt(h) == Some(tc.hours) && ParseInt(m) == Some(tc.minutes)
    requires ParseInt(s) == Some(tc.seconds) && ParseInt(f) == Some(tc.frames)
    ensures ParseTimecode(h + ":" + m + ":" + s + ":" + f) == Some(tc)
  {
    SplitFour(h, m, s, f);
  }

  /** Four pieces free of colons, joined by colons, split back into the four pieces. */
  lemma SplitFour(h: string, m: string, s: string, f: string)
    requires ':' !in h && ':' !in m && ':' !in s && ':' !in f
    ensures Split(h + ":" + m + ":" + s + ":" + f, ':') == [h, m, s, f]
  {
    var sf := s + [':'] + f;
    assert Split(sf, ':') == [s, f] by {
      SplitAtSep(s, ':', f);
      SplitWithoutSep(f, ':');
    }
    var msf := m + [':'] + sf;
    assert Split(msf, ':') == [m, s, f] by {
      SplitAtSep(m, ':', sf);
    }
    assert h + ":" + m + ":" + s + ":" + f == h + [':'] + msf;
    SplitAtSep(h, ':', msf);
  }

  /** A printed integer holds neither `:` nor `;`. */
  lemma NumeralHasNoSeparator(text: string)
    requires forall i :: 0 <= i < |text| ==> IsNumeralChar(text[i])
    ensures ':' !in text && ';' !in text
  {
  }

  /** What `framesToTimecode` prints reads back as the fields it printed. */
  lemma RenderParses(tc: Timecode)
    ensures ParseTimecode(Render(tc)) == Some(tc)
  {
    NumeralHasNoSeparator(Pad2(tc.hours));
    NumeralHasNoSeparator(Pad2(tc.minutes));
    NumeralHasNoSeparator(Pad2(tc.seconds));
    NumeralHasNoSeparator(Pad2(tc.frames));
    ParsePad2(tc.hours);
    ParsePad2(tc.minutes);
    ParsePad2(tc.seconds);
    ParsePad2(tc.frames);
    FieldsParse(Pad2(tc.hours), Pad2(tc.minutes), Pad2(tc.seconds), Pad2(tc.frames), tc);
  }

  /** `t // 3600` is the whole hours of the whole seconds in `t`. */
  lemma HoursOfWhole(t: real)
    requires t >= 0.0
    ensures FloorDiv(t, 3600.0) == t.Floor / 3600
  {
    var w, h, q := t.Floor, FloorDiv(t, 3600.0), t.Floor / 3600;
    assert 3600 * q <= w < 3600 * q + 3600;
    assert 3600 * h <= w < 3600 * h + 3600;
  }

  /** `(t % 3600) // 60` is the whole minutes left over from the hours. */
  lemma MinutesOfWhole(t: real)
    requires t >= 0.0
    ensures FloorDiv(FloorMod(t, 3600.0), 60.0) == (t.Floor % 3600) / 60
  {
    var w := t.Floor;
    HoursOfWhole(t);
    var rest := FloorMod(t, 3600.0);
    assert rest == t - (3600 * (w / 3600)) as real;
    assert rest.Floor == w % 3600;
    var m, q := FloorDiv(rest, 60.0), rest.Floor / 60;
    assert 60 * q <= rest.Floor < 60 * q + 60;
    assert 60 * m <= rest.Floor < 60 * m + 60;
  }

  /** `int(t % 60)` is the whole seconds left over from the minutes. */
  lemma SecondsOfWhole(t: real)
    requires t >= 0.0
    ensures Trunc(FloorMod(t, 60.0)) == t.Floor % 60
  {
    var w := t.Floor;
    var q := w / 60;
    assert 60 * q <= w < 60 * q + 60;
    assert q as real <= t / 60.0 < q as real + 1.0;
    assert FloorDiv(t, 60.0) == q;
    var rest := t - (60 * q) as real;
    assert FloorMod(t, 60.0) == rest;
    assert rest >= 0.0 && rest.Floor == w % 60;
  }

  /**
   * The split into hours, minutes and seconds loses no whole second:
   * hours are unbounded (no wrap at 24), minutes and seconds are in [0, 60).
   */
  lemma WholeSecondsKept(totalSeconds: real, frameRate: real)
    requires totalSeconds >= 0.0
    ensures var tc := TimecodeAt(totalSeconds, frameRate);
      && tc.hours == totalSeconds.Floor / 3600
      && 0 <= tc.minutes < 60
      && 0 <= tc.seconds < 60
      && WholeSeconds(tc) == totalSeconds.Floor
  {
    var tc := TimecodeAt(totalSeconds, frameRate);
    var w := totalSeconds.Floor;
    assert tc.hours == w / 3600 by {
      HoursOfWhole(totalSeconds);
    }
    assert tc.minutes == (w % 3600) / 60 by {
      MinutesOfWhole(totalSeconds);
    }
    assert tc.seconds == w % 60 by {
      SecondsOfWhole(totalSeconds);
    }
    HmsOfWhole(w);
  }

  /** Whole hours, the minutes and the seconds left over add back up to the whole seconds. */
  lemma HmsOfWhole(w: int)
    requires w >= 0
    ensures (w / 3600) * 3600 + ((w % 3600) / 60) * 60 + w % 60 == w
    ensures 0 <= (w % 3600) / 60 < 60
  {
    var a, b := w / 3600, w % 3600;
    var c, d := b / 60, b % 60;
    assert w == 3600 * a + b && 0 <= b < 3600;
    assert b == 60 * c + d && 0 <= d < 60;
    DivModUnique(w, 60 * a + c, d, 60);
  }

  /** The same for a frame count: the whole seconds are `floor(frameCount / frameRate)`. */
  lemma WholeSecondsOfFrames(frameCount: int, frameRate: real)
    requires frameCount >= 0 && frameRate > 0.0
    ensures var tc := TimecodeOf(frameCount, frameRate);
      && tc.hours == (frameCount as real / frameRate).Floor / 3600
      && 0 <= tc.minutes < 60
      && 0 <= tc.seconds < 60
      && WholeSeconds(tc) == (frameCount as real / frameRate).Floor
  {
    QuotientScaled(frameCount as real, frameRate);
    WholeSecondsKept(frameCount as real / frameRate, frameRate);
  }

  /**
   * The fractional second times the rate lies in [0, rate): it is the
   * frames elapsed since the last whole second.
   */
  lemma FractionalFrames(t: real, frameRate: real, n: real)
    requires t >= 0.0 && frameRate > 0.0 && t * frameRate == n
    ensures FractionInFrames(t, frameRate) == n - t.Floor as real * frameRate
    ensures 0.0 <= FractionInFrames(t, frameRate) < frameRate
  {
    var w := t.Floor as real;
    var f := t - w;
    assert Trunc(t) as real == w;
    Distribute(t, w, frameRate);
    FractionScaled(f, frameRate);
    assert FractionInFrames(t, frameRate) == f * frameRate;
  }

  /**
   * For a rate of at least one frame per second the frame field lies in
   * [0, int(frameRate)).
   */
  lemma FrameFieldInRange(frameCount: int, frameRate: real)
    requires frameCount >= 0 && frameRate >= 1.0
    ensures 0 <= TimecodeOf(frameCount, frameRate).frames < frameRate.Floor
  {
    var t := frameCount as real / frameRate;
    assert t >= 0.0 && t * frameRate == frameCount as real by {
      QuotientScaled(frameCount as real, frameRate);
    }
    ClampedField(t, frameRate, frameCount as real);
  }

  /**
   * The frame field for elapsed seconds `t` that are `n` frames at the
   * rate: the frames into the current second, `n - floor(t) * rate`,
   * rounded down, unless the clamp sent an overshoot to `int(frameRate) - 1`.
   */
  lemma ClampedField(t: real, frameRate: real, n: real)
    requires t >= 0.0 && frameRate >= 1.0 && t * frameRate == n
    ensures 0 <= FrameField(t, frameRate) < frameRate.Floor
    ensures FrameField(t, frameRate) == (n - t.Floor as real * frameRate).Floor
      || FrameField(t, frameRate) == frameRate.Floor - 1
  {
    var x := FractionInFrames(t, frameRate);
    assert x == n - t.Floor as real * frameRate && 0.0 <= x < frameRate by {
      FractionalFrames(t, frameRate, n);
    }
    assert Trunc(x) == x.Floor;
    assert Trunc(frameRate) == frameRate.Floor;
  }

  /**
   * Without that guard, a rate in (0, 1) makes `int(frameRate)` zero and
   * the clamp writes a frame field of -1, printed as `-1`.
   */
  lemma RateBelowOneGivesMinusOne(frameCount: int, frameRate: real)
    requires frameCount >= 0 && 0.0 < frameRate < 1.0
    ensures TimecodeOf(frameCount, frameRate).frames == -1
    ensures Pad2(TimecodeOf(frameCount, frameRate).frames) == "-1"
  {
    var t := frameCount as real / frameRate;
    QuotientScaled(frameCount as real, frameRate);
    FractionalFrames(t, frameRate, frameCount as real);
    assert Str(-1) == "-" + Decimal(1);
  }

  /**
   * With a whole-number rate `r` the frame field is `frameCount % r` and
   * the whole seconds are `frameCount / r`: the clamp never fires.
   */
  lemma WholeRateFields(frameCount: int, rate: int)
    requires frameCount >= 0 && rate >= 1
    ensures var tc := TimecodeOf(frameCount, rate as real);
      && tc.frames == frameCount % rate
      && WholeSeconds(tc) == frameCount / rate
  {
    var r := rate as real;
    assert frameCount as real / r >= 0.0 && (frameCount as real / r) * r == frameCount as real by {
      QuotientScaled(frameCount as real, r);
    }
    WholeRateFieldsAt(frameCount as real / r, rate, frameCount);
  }

  lemma WholeRateFieldsAt(t: real, rate: int, frameCount: int)
    requires rate >= 1 && t >= 0.0 && t * rate as real == frameCount as real
    ensures var tc := TimecodeAt(t, rate as real);
      && tc.frames == frameCount % rate
      && WholeSeconds(tc) == frameCount / rate
  {
    var k := WholeRateFrame(t, rate, frameCount);
    WholeSecondsKept(t, rate as real);
    DivModUnique(frameCount, t.Floor, k, rate);
  }

  /**
   * With a whole-number rate, recomputing the start frame from the fields
   * `framesToTimecode` computes, as `getVideoTimeCode` does, gives the frame
   * count back.
   */
  lemma FieldsRoundTrip(frameCount: int, rate: int)
    requires frameCount >= 0 && rate >= 1
    ensures FrameTotal(TimecodeOf(frameCount, rate as real), rate as real) == frameCount
  {
    var tc := TimecodeOf(frameCount, rate as real);
    WholeRateFields(frameCount, rate);
    WholeRateTotal(tc, rate);
    Recompose(frameCount, rate, WholeSeconds(tc), tc.frames);
  }

  /**
   * Frame count -> timecode string -> frame count is the identity for a
   * whole-number rate: the string reads back, and the start frame computed
   * from it is the frame count again.
   */
  lemma FramesRoundTrip(frameCount: int, rate: int)
    requires frameCount >= 0 && rate >= 1
    ensures var parsed := ParseTimecode(FramesToTimecode(frameCount, rate as real));
      parsed.Some? && FrameTotal(parsed.value, rate as real) == frameCount
  {
    FieldsRoundTrip(frameCount, rate);
  }

  /**
   * Timecode -> frame count -> timecode is the identity for a whole-number
   * rate, on every timecode whose fields are in range.
   */
  lemma TimecodeRoundTrip(tc: Timecode, rate: int)
    requires rate >= 1
    requires tc.hours >= 0 && 0 <= tc.minutes < 60 && 0 <= tc.seconds < 60 && 0 <= tc.frames < rate
    ensures TimecodeOf(FrameTotal(tc, rate as real), rate as real) == tc
  {
    var n := WholeSeconds(tc) * rate + tc.frames;
    WholeRateTotal(tc, rate);
    DivModUnique(n, WholeSeconds(tc), tc.frames, rate);
    WholeRateFields(n, rate);
    WholeSecondsOfFrames(n, rate as real);
    var back := TimecodeOf(n, rate as real);
    HmsUnique(back.hours, back.minutes, back.seconds, tc.hours, tc.minutes, tc.seconds);
  }

  /** Hours do not wrap at 24 and print with as many digits as they need. */
  lemma HoursDoNotWrap()
    ensures FramesToTimecode(9000000, 25.0) == "100:00:00:00"
  {
    HundredHours();
    RenderHundredHours();
  }

  lemma RenderHundredHours()
    ensures Render(Timecode(100, 0, 0, 0)) == "100:00:00:00"
  {
    assert Pad2(100) == "100" by {
      assert DigitChar(0) == '0' && DigitChar(1) == '1';
      assert Decimal(10) == "10";
    }
    assert Pad2(0) == "00" by {
      assert DigitChar(0) == '0';
    }
  }

  lemma HundredHours()
    ensures TimecodeOf(9000000, 25.0) == Timecode(100, 0, 0, 0)
  {
    WholeRateFields(9000000, 25);
    WholeSecondsOfFrames(9000000, 25.0);
    var tc := TimecodeOf(9000000, 25.0);
    HmsUnique(tc.hours, tc.minutes, tc.seconds, 100, 0, 0);
  }

  /**
   * At 30000/1001 frames per second the 30th frame of the first second
   * still starts inside it, where the clamp folds it onto the 29th: two
   * frame counts give the same timecode.
   */
  lemma ClampFoldsFrames()
    ensures TimecodeOf(28, 30000.0 / 1001.0) == TimecodeOf(29, 30000.0 / 1001.0) == Timecode(0, 0, 0, 28)
  {
  }

  // ---------------------------------------------------------------------
  // Arithmetic facts the proofs above cite

  /** Bounds on a quotient, multiplied back by its positive divisor. */
  lemma ScaledBetween(lo: real, x: real, hi: real, d: real)
    requires d > 0.0 && lo <= x / d < hi
    ensures lo * d <= x < hi * d
  {
    QuotientScaled(x, d);
    var y := x / d;
    assert lo * d <= y * d < hi * d;
  }

  lemma QuotientScaled(x: real, r: real)
    requires r > 0.0
    ensures (x / r) * r == x
    ensures x >= 0.0 ==> x / r >= 0.0
  {
  }

  lemma FractionScaled(frac: real, r: real)
    requires 0.0 <= frac < 1.0 && r > 0.0
    ensures 0.0 <= frac * r < r
  {
  }

  lemma Distribute(t: real, w: real, r: real)
    ensures (t - w) * r == t * r - w * r
  {
  }

  lemma CastMul(a: int, b: int)
    ensures (a * b) as real == a as real * b as real
  {
  }

  /**
   * For a whole-number rate the frames since the last whole second are a
   * whole number below the rate, and the clamp leaves them alone.
   */
  lemma WholeRateFrame(t: real, d: int, n: int) returns (k: int)
    requires d >= 1 && t >= 0.0 && t * d as real == n as real
    ensures k == n - t.Floor * d && 0 <= k < d
    ensures FrameField(t, d as real) == k
  {
    FractionalFrames(t, d as real, n as real);
    k := n - t.Floor * d;
    CastMul(t.Floor, d);
    var wd := t.Floor * d;
    assert k as real == n as real - wd as real;
    assert FractionInFrames(t, d as real) == k as real;
    assert Trunc(d as real) == d;
  }

  /** With a whole-number rate the start-frame count is computed without rounding. */
  lemma WholeRateTotal(tc: Timecode, rate: int)
    ensures FrameTotal(tc, rate as real) == WholeSeconds(tc) * rate + tc.frames
  {
    var ws := WholeSeconds(tc);
    CastMul(ws, rate);
    var x := (ws * rate + tc.frames) as real;
    assert ws as real * rate as real + tc.frames as real == x;
  }

  lemma Recompose(n: int, d: int, q: int, r: int)
    requires d > 0 && q == n / d && r == n % d
    ensures q * d + r == n
  {
  }

  lemma MulAtLeast(k: int, d: int)
    requires d > 0
    ensures k >= 1 ==> k * d >= d
  {
  }

  lemma DivModUnique(n: int, q: int, r: int, d: int)
    requires d > 0 && n == q * d + r && 0 <= r < d
    ensures n / d == q && n % d == r
  {
    var q2, r2 := n / d, n % d;
    assert (q - q2) * d == r2 - r;
    assert (q2 - q) * d == r - r2;
    MulAtLeast(q - q2, d);
    MulAtLeast(q2 - q, d);
  }

  lemma HmsUnique(h: int, m: int, s: int, h2: int, m2: int, s2: int)
    requires 0 <= m < 60 && 0 <= s < 60 && 0 <= m2 < 60 && 0 <= s2 < 60
    requires h * 3600 + m * 60 + s == h2 * 3600 + m2 * 60 + s2
    ensures h == h2 && m == m2 && s == s2
  {
  }
}
