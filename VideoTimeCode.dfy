/**
 * The part of `getVideoTimeCode` that runs once the three ffprobe results
 * are known: the start timecode tag of the first video stream, the
 * duration in seconds and the frame rate. They are parameters here.
 *
 * An empty start tag gives no timecodes. Otherwise the start tag is read
 * as `HH:MM:SS:FF` (a `;` anywhere marks drop-frame notation and is read as
 * `:`), the start and end frame counts are computed, and the end frame is
 * printed by `framesToTimecode`. In drop-frame notation both strings are
 * printed again with an unpadded hour and a `;` before the frames; no
 * frame numbers are skipped.
 */
module VideoTimeCode {
  import opened PyText
  import opened FrameTimecode

  /** The exceptions `getVideoTimeCode` can raise once the probes have answered. */
  datatype ClipError =
    | MalformedTimecode  // `ValueError`: the start tag is not four integer fields
    | DivisionByZero     // `ZeroDivisionError`: a frame rate of zero reaches `framesToTimecode`

  /** `(None, None)` or `(startTc, endTc)`. */
  datatype ClipTimecodes = NoTimecode | Timecodes(start: string, end: string)

  datatype Result = Ok(value: ClipTimecodes) | Err(error: ClipError)

  /** The start tag with every `;` read as `:`; a tag without `;` is left as it is. */
  function Normalize(startTc: string): (text: string)
    ensures ';' !in text
    ensures text == ReplaceChar(startTc, ';', ':')
  {
    if ';' in startTc then ReplaceChar(startTc, ';', ':')
    else
      ReplaceAbsent(startTc, ';', ':');
      startTc
  }

  /** `int((h*3600 + m*60 + s) * frameRate + f) + int(durationSec * frameRate)` */
  function EndFrames(start: Timecode, durationSec: real, frameRate: real): int {
    FrameTotal(start, frameRate) + Trunc(durationSec * frameRate)
  }

  /** `f"{h}:{m:02}:{s:02};{f:02}"`: the drop-frame form, hour unpadded. */
  function DropFrameRender(tc: Timecode): string {
    Str(tc.hours) + ":" + Pad2(tc.minutes) + ":" + Pad2(tc.seconds) + ";" + Pad2(tc.frames)
  }

  /**
   * `getVideoTimeCode` after the probes. The outcome is no timecode exactly
   * when the start tag is empty, and an error exactly when the tag does not
   * read as four integer fields or the rate is zero, in that order.
   */
  function GetVideoTimeCode(startTc: string, durationSec: real, frameRate: real): (r: Result)
    ensures r == Ok(NoTimecode) <==> startTc == []
    ensures r == Err(MalformedTimecode) <==> startTc != [] && ParseTimecode(Normalize(startTc)).None?
    ensures r == Err(DivisionByZero) <==>
      startTc != [] && ParseTimecode(Normalize(startTc)).Some? && frameRate == 0.0
  {
    if startTc == [] then Ok(NoTimecode)
    else
      var dropFrame := ';' in startTc;
      match ParseTimecode(Normalize(startTc))
      case None => Err(MalformedTimecode)
      case Some(start) =>
        if frameRate == 0.0 then Err(DivisionByZero)
        else
          var endTc := FramesToTimecode(EndFrames(start, durationSec, frameRate), frameRate);
          if !dropFrame then Ok(Timecodes(startTc, endTc))
          else
            var end := ParseTimecode(endTc).value;
            Ok(Timecodes(DropFrameRender(start), DropFrameRender(end)))
  }

  // ---------------------------------------------------------------------
  // Properties

  /** The drop-frame form holds one `;`, before the frames, and colons between the other fields. */
  lemma DropFrameShape(tc: Timecode)
    ensures var parts := Split(DropFrameRender(tc), ';');
      && |parts| == 2
      && Split(parts[0], ':') == [Str(tc.hours), Pad2(tc.minutes), Pad2(tc.seconds)]
      && parts[1] == Pad2(tc.frames)
  {
    var (h, m, s, f) := (Str(tc.hours), Pad2(tc.minutes), Pad2(tc.seconds), Pad2(tc.frames));
    NumeralHasNoSeparator(h);
    NumeralHasNoSeparator(m);
    NumeralHasNoSeparator(s);
    NumeralHasNoSeparator(f);
    var hms := h + ":" + m + ":" + s;
    assert Split(DropFrameRender(tc), ';') == [hms, f] by {
      assert DropFrameRender(tc) == hms + ";" + f;
      SplitTwo(hms, f, ';');
    }
    assert Split(hms, ':') == [h, m, s] by {
      SplitThree(h, m, s);
    }
  }

  lemma SplitTwo(a: string, b: string, sep: char)
    requires sep !in a && sep !in b
    ensures Split(a + [sep] + b, sep) == [a, b]
  {
    SplitAtSep(a, sep, b);
    SplitWithoutSep(b, sep);
  }

  lemma SplitThree(h: string, m: string, s: string)
    requires ':' !in h && ':' !in m && ':' !in s
    ensures Split(h + ":" + m + ":" + s, ':') == [h, m, s]
  {
    var ms := m + [':'] + s;
    assert Split(ms, ':') == [m, s] by {
      SplitTwo(m, s, ':');
    }
    assert h + ":" + m + ":" + s == h + [':'] + ms;
    SplitAtSep(h, ':', ms);
  }

  /** Reading the drop-frame form back, with `;` as `:`, gives the fields it printed. */
  lemma DropFrameReadsBack(tc: Timecode)
    ensures ';' in DropFrameRender(tc)
    ensures ParseTimecode(Normalize(DropFrameRender(tc))) == Some(tc)
  {
    var (h, m, s, f) := (Str(tc.hours), Pad2(tc.minutes), Pad2(tc.seconds), Pad2(tc.frames));
    DropFrameNormalized(tc);
    NumeralHasNoSeparator(h);
    NumeralHasNoSeparator(m);
    NumeralHasNoSeparator(s);
    NumeralHasNoSeparator(f);
    ParseStr(tc.hours);
    ParsePad2(tc.minutes);
    ParsePad2(tc.seconds);
    ParsePad2(tc.frames);
    FieldsParse(h, m, s, f, tc);
  }

  /** Reading `;` as `:` turns the drop-frame form into four colon-separated fields. */
  lemma DropFrameNormalized(tc: Timecode)
    ensures ';' in DropFrameRender(tc)
    ensures Normalize(DropFrameRender(tc)) == Str(tc.hours) + ":" + Pad2(tc.minutes) + ":" + Pad2(tc.seconds) + ":" + Pad2(tc.frames)
  {
    var (h, m, s, f) := (Str(tc.hours), Pad2(tc.minutes), Pad2(tc.seconds), Pad2(tc.frames));
    NumeralHasNoSeparator(h);
    NumeralHasNoSeparator(m);
    NumeralHasNoSeparator(s);
    NumeralHasNoSeparator(f);
    var hms := h + ":" + m + ":" + s;
    assert DropFrameRender(tc) == hms + [';'] + f;
    SemicolonBeforeFrames(hms, f);
  }

  /** A single `;` before the last field is read as `:`. */
  lemma SemicolonBeforeFrames(hms: string, f: string)
    requires ';' !in hms && ';' !in f
    ensures ';' in hms + [';'] + f
    ensures Normalize(hms + [';'] + f) == hms + [':'] + f
  {
    assert (hms + [';'] + f)[|hms|] == ';';
    ReplaceConcat(hms + [';'], f, ';', ':');
    ReplaceConcat(hms, [';'], ';', ':');
    ReplaceAbsent(hms, ';', ':');
    ReplaceAbsent(f, ';', ':');
    assert ReplaceChar([';'], ';', ':') == [':'];
  }

  /**
   * Whenever the start tag reads as a timecode and the rate is not zero,
   * both strings come back, each reading as the fields it stands for: the
   * start as the fields of the tag, the end as the fields `framesToTimecode`
   * computes for the end frame. Both are in drop-frame form exactly when
   * the tag is.
   */
  lemma ResultFields(startTc: string, durationSec: real, frameRate: real, start: Timecode)
    requires ParseTimecode(Normalize(startTc)) == Some(start) && frameRate != 0.0
    ensures var r := GetVideoTimeCode(startTc, durationSec, frameRate);
      && r.Ok? && r.value.Timecodes?
      && ParseTimecode(Normalize(r.value.start)) == Some(start)
      && ParseTimecode(Normalize(r.value.end)) == Some(TimecodeOf(EndFrames(start, durationSec, frameRate), frameRate))
      && (';' in r.value.start <==> ';' in startTc)
      && (';' in r.value.end <==> ';' in startTc)
  {
    var r := GetVideoTimeCode(startTc, durationSec, frameRate);
    var endTc := FramesToTimecode(EndFrames(start, durationSec, frameRate), frameRate);
    var end := TimecodeOf(EndFrames(start, durationSec, frameRate), frameRate);
    if ';' in startTc {
      assert r == Ok(Timecodes(DropFrameRender(start), DropFrameRender(end)));
      DropFrameReadsBack(start);
      DropFrameReadsBack(end);
    } else {
      assert r == Ok(Timecodes(startTc, endTc));
      NoSemicolonInRender(end);
    }
  }

  /**
   * The two strings of a successful call: the tag itself and the printed
   * end frame, or both in drop-frame form.
   */
  lemma Outcome(startTc: string, durationSec: real, frameRate: real, start: Timecode)
    requires ParseTimecode(Normalize(startTc)) == Some(start) && frameRate != 0.0
    ensures var n := EndFrames(start, durationSec, frameRate);
      GetVideoTimeCode(startTc, durationSec, frameRate) ==
        if ';' in startTc then Ok(Timecodes(DropFrameRender(start), DropFrameRender(TimecodeOf(n, frameRate))))
        else Ok(Timecodes(startTc, FramesToTimecode(n, frameRate)))
  {
  }

  /** `framesToTimecode` never prints a `;`. */
  lemma NoSemicolonInRender(tc: Timecode)
    ensures ';' !in Render(tc)
  {
    NumeralHasNoSeparator(Pad2(tc.hours));
    NumeralHasNoSeparator(Pad2(tc.minutes));
    NumeralHasNoSeparator(Pad2(tc.seconds));
    NumeralHasNoSeparator(Pad2(tc.frames));
  }

  /** A start tag without `;` is returned exactly as it was given. */
  lemma StartPassesThrough(startTc: string, durationSec: real, frameRate: real)
    requires ';' !in startTc
    ensures var r := GetVideoTimeCode(startTc, durationSec, frameRate);
      r.Ok? && r.value.Timecodes? ==> r.value.start == startTc
  {
  }

  /**
   * Feeding the start string of a result back in gives the same result:
   * the drop-frame form reads as the fields it was printed from.
   */
  lemma StartIsStable(startTc: string, durationSec: real, frameRate: real)
    requires GetVideoTimeCode(startTc, durationSec, frameRate).Ok?
    requires GetVideoTimeCode(startTc, durationSec, frameRate).value.Timecodes?
    ensures var r := GetVideoTimeCode(startTc, durationSec, frameRate);
      GetVideoTimeCode(r.value.start, durationSec, frameRate) == r
  {
    var r := GetVideoTimeCode(startTc, durationSec, frameRate);
    if ';' in startTc {
      var start := ParseTimecode(Normalize(startTc)).value;
      assert r.value.start == DropFrameRender(start);
      DropFrameReadsBack(start);
    }
  }

  /**
   * With a whole-number rate, a start tag whose fields are not negative and
   * a duration that is not negative, the end string reads back as the
   * frame that lies the duration's frames after the start frame.
   */
  lemma EndFollowsStart(startTc: string, durationSec: real, rate: int, start: Timecode)
    requires ParseTimecode(Normalize(startTc)) == Some(start)
    requires start.hours >= 0 && start.minutes >= 0 && start.seconds >= 0 && start.frames >= 0
    requires durationSec >= 0.0 && rate >= 1
    ensures var r := GetVideoTimeCode(startTc, durationSec, rate as real);
      && r.Ok? && r.value.Timecodes?
      && var end := ParseTimecode(Normalize(r.value.end));
      && end.Some?
      && FrameTotal(end.value, rate as real) == EndFrames(start, durationSec, rate as real)
  {
    var n := EndFrames(start, durationSec, rate as real);
    assert n >= 0 by {
      EndFramesNonNegative(start, durationSec, rate as real);
    }
    var r := GetVideoTimeCode(startTc, durationSec, rate as real);
    assert r.Ok? && r.value.Timecodes? && ParseTimecode(Normalize(r.value.end)) == Some(TimecodeOf(n, rate as real)) by {
      ResultFields(startTc, durationSec, rate as real, start);
    }
    assert FrameTotal(TimecodeOf(n, rate as real), rate as real) == n by {
      FieldsRoundTrip(n, rate);
    }
  }

  /**
   * With a rate of at least one frame per second and an end frame that is
   * not negative, the end string's minutes and seconds are in [0, 60), its
   * frames in [0, int(frameRate)), and its whole seconds are the end frame
   * divided by the rate, rounded down.
   */
  lemma EndFieldsInRange(startTc: string, durationSec: real, frameRate: real, start: Timecode)
    requires ParseTimecode(Normalize(startTc)) == Some(start)
    requires frameRate >= 1.0 && EndFrames(start, durationSec, frameRate) >= 0
    ensures var r := GetVideoTimeCode(startTc, durationSec, frameRate);
      && r.Ok? && r.value.Timecodes?
      && var end := ParseTimecode(Normalize(r.value.end));
      && end.Some?
      && 0 <= end.value.minutes < 60 && 0 <= end.value.seconds < 60
      && 0 <= end.value.frames < frameRate.Floor
      && WholeSeconds(end.value) == (EndFrames(start, durationSec, frameRate) as real / frameRate).Floor
  {
    var n := EndFrames(start, durationSec, frameRate);
    var r := GetVideoTimeCode(startTc, durationSec, frameRate);
    assert r.Ok? && r.value.Timecodes? && ParseTimecode(Normalize(r.value.end)) == Some(TimecodeOf(n, frameRate)) by {
      ResultFields(startTc, durationSec, frameRate, start);
    }
    var end := TimecodeOf(n, frameRate);
    assert 0 <= end.minutes < 60 && 0 <= end.seconds < 60 && WholeSeconds(end) == (n as real / frameRate).Floor by {
      WholeSecondsOfFrames(n, frameRate);
    }
    assert 0 <= end.frames < frameRate.Floor by {
      FrameFieldInRange(n, frameRate);
    }
  }

  /**
   * A start with no negative field, a duration that is not negative and a
   * rate that is not negative end at a frame that is not negative.
   */
  lemma EndFramesNonNegative(start: Timecode, durationSec: real, frameRate: real)
    requires start.hours >= 0 && start.minutes >= 0 && start.seconds >= 0 && start.frames >= 0
    requires durationSec >= 0.0 && frameRate >= 0.0
    ensures EndFrames(start, durationSec, frameRate) >= 0
  {
    var ws := WholeSeconds(start);
    assert ws as real * frameRate >= 0.0 by {
      ScaleNonNegative(ws as real, frameRate);
    }
    assert durationSec * frameRate >= 0.0 by {
      ScaleNonNegative(durationSec, frameRate);
    }
  }

  /**
   * `EndFieldsInRange` for any rate of at least one frame per second, whole
   * or not, once the start fields and the duration are not negative.
   */
  lemma EndFieldsFromInputs(startTc: string, durationSec: real, frameRate: real, start: Timecode)
    requires ParseTimecode(Normalize(startTc)) == Some(start)
    requires start.hours >= 0 && start.minutes >= 0 && start.seconds >= 0 && start.frames >= 0
    requires durationSec >= 0.0 && frameRate >= 1.0
    ensures var r := GetVideoTimeCode(startTc, durationSec, frameRate);
      && r.Ok? && r.value.Timecodes?
      && var end := ParseTimecode(Normalize(r.value.end));
      && end.Some?
      && 0 <= end.value.minutes < 60 && 0 <= end.value.seconds < 60
      && 0 <= end.value.frames < frameRate.Floor
      && WholeSeconds(end.value) == (EndFrames(start, durationSec, frameRate) as real / frameRate).Floor
  {
    EndFramesNonNegative(start, durationSec, frameRate);
    EndFieldsInRange(startTc, durationSec, frameRate, start);
  }

  lemma ScaleNonNegative(a: real, b: real)
    requires a >= 0.0 && b >= 0.0
    ensures a * b >= 0.0
  {
  }

  // ---------------------------------------------------------------------
  // Worked cases

  /** A ten-hour start tag at 25 frames per second and a clip of 3661 seconds. */
  lemma TenHourClip()
    ensures GetVideoTimeCode("10:00:00:00", 3661.0, 25.0) == Ok(Timecodes("10:00:00:00", "11:01:01:00"))
  {
    var start := Timecode(10, 0, 0, 0);
    TenHourTag();
    assert EndFrames(start, 3661.0, 25.0) == 991525 by {
      WholeRateTotal(start, 25);
    }
    ElevenHourEnd();
    Outcome("10:00:00:00", 3661.0, 25.0, start);
  }

  lemma TenHourTag()
    ensures ';' !in "10:00:00:00"
    ensures ParseTimecode(Normalize("10:00:00:00")) == Some(Timecode(10, 0, 0, 0))
  {
    var start := Timecode(10, 0, 0, 0);
    assert Render(start) == "10:00:00:00" by {
      SmallNumerals();
    }
    assert ';' !in "10:00:00:00" by {
      NoSemicolonInRender(start);
    }
    assert ParseTimecode("10:00:00:00") == Some(start) by {
      RenderParses(start);
    }
    assert Normalize("10:00:00:00") == "10:00:00:00";
  }

  lemma ElevenHourEnd()
    ensures FramesToTimecode(991525, 25.0) == "11:01:01:00"
  {
    var end := Timecode(11, 1, 1, 0);
    assert TimecodeOf(991525, 25.0) == end by {
      WholeRateTotal(end, 25);
      TimecodeRoundTrip(end, 25);
    }
    ElevenHourText();
  }

  /**
   * A one-hour start tag in drop-frame notation and a ten-second clip: both
   * strings come back with the hour unpadded and `;` before the frames.
   */
  lemma OneHourDropFrameClip()
    ensures GetVideoTimeCode("01:00:00;00", 10.0, 25.0) == Ok(Timecodes("1:00:00;00", "1:00:10;00"))
  {
    var start := Timecode(1, 0, 0, 0);
    OneHourTag();
    assert EndFrames(start, 10.0, 25.0) == 90250 by {
      WholeRateTotal(start, 25);
    }
    OneHourTenSecondsEnd();
    OneHourDropFrameText();
    OneHourTenDropFrameText();
    Outcome("01:00:00;00", 10.0, 25.0, start);
  }

  lemma OneHourTag()
    ensures ';' in "01:00:00;00"
    ensures ParseTimecode(Normalize("01:00:00;00")) == Some(Timecode(1, 0, 0, 0))
  {
    var start := Timecode(1, 0, 0, 0);
    assert Render(start) == "01:00:00:00" by {
      SmallNumerals();
    }
    assert ParseTimecode("01:00:00:00") == Some(start) by {
      RenderParses(start);
    }
    OneHourNormalized();
  }

  lemma OneHourNormalized()
    ensures ';' in "01:00:00;00"
    ensures Normalize("01:00:00;00") == "01:00:00:00"
  {
    var (h, z) := (Pad2(1), Pad2(0));
    var hms := h + ":" + z + ":" + z;
    assert hms == "01:00:00" && z == "00" by {
      SmallNumerals();
    }
    assert "01:00:00;00" == hms + [';'] + z;
    assert "01:00:00:00" == hms + [':'] + z;
    NumeralHasNoSeparator(h);
    NumeralHasNoSeparator(z);
    SemicolonBeforeFrames(hms, z);
  }

  lemma OneHourTenSecondsEnd()
    ensures TimecodeOf(90250, 25.0) == Timecode(1, 0, 10, 0)
  {
    var end := Timecode(1, 0, 10, 0);
    WholeRateTotal(end, 25);
    TimecodeRoundTrip(end, 25);
  }

  /**
   * The same tag at 30000/1001 frames per second: the end lands 29.16
   * frames into its second, and the clamp writes 28.
   */
  lemma NtscDropFrameClip()
    ensures GetVideoTimeCode("01:00:00;00", 10.0, 30000.0 / 1001.0) == Ok(Timecodes("1:00:00;00", "1:00:09;28"))
  {
    var start := Timecode(1, 0, 0, 0);
    OneHourTag();
    NtscEnd();
    OneHourDropFrameText();
    NtscDropFrameText();
    Outcome("01:00:00;00", 10.0, 30000.0 / 1001.0, start);
  }

  lemma NtscEnd()
    ensures EndFrames(Timecode(1, 0, 0, 0), 10.0, 30000.0 / 1001.0) == 108191
    ensures TimecodeOf(108191, 30000.0 / 1001.0) == Timecode(1, 0, 9, 28)
  {
  }

  /** A start tag with three fields is malformed, whatever the duration and rate. */
  lemma ThreeFieldsAreMalformed(durationSec: real, frameRate: real)
    ensures GetVideoTimeCode("10:00:00", durationSec, frameRate) == Err(MalformedTimecode)
  {
    ThreeFieldTag();
  }

  lemma ThreeFieldTag()
    ensures ';' !in "10:00:00"
    ensures |Split("10:00:00", ':')| == 3
  {
    var (h, m) := (Pad2(10), Pad2(0));
    assert "10:00:00" == h + ":" + m + ":" + m by {
      SmallNumerals();
    }
    NumeralHasNoSeparator(h);
    NumeralHasNoSeparator(m);
    SplitThree(h, m, m);
  }

  /** The strings the worked cases print. */
  lemma ElevenHourText()
    ensures Render(Timecode(11, 1, 1, 0)) == "11:01:01:00"
  {
    SmallNumerals();
  }

  lemma OneHourDropFrameText()
    ensures DropFrameRender(Timecode(1, 0, 0, 0)) == "1:00:00;00"
  {
    SmallNumerals();
  }

  lemma OneHourTenDropFrameText()
    ensures DropFrameRender(Timecode(1, 0, 10, 0)) == "1:00:10;00"
  {
    SmallNumerals();
  }

  lemma NtscDropFrameText()
    ensures DropFrameRender(Timecode(1, 0, 9, 28)) == "1:00:09;28"
  {
    SmallNumerals();
  }

  /** The numerals the worked cases print. */
  lemma SmallNumerals()
    ensures Pad2(0) == "00" && Pad2(1) == "01" && Pad2(10) == "10" && Pad2(11) == "11"
    ensures Pad2(9) == "09" && Pad2(28) == "28"
    ensures Str(1) == "1"
  {
    assert DigitChar(0) == '0' && DigitChar(1) == '1' && DigitChar(2) == '2';
    assert DigitChar(8) == '8' && DigitChar(9) == '9';
    assert Decimal(10) == "10";
    assert Decimal(11) == "11";
    assert Decimal(28) == "28";
  }
}
