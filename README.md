# Video timecode extraction, modelled in Dafny

`videoTimeCodeExtractor.py` reads three facts about a video through
ffprobe: the SMPTE start timecode tag of the first video stream, the
duration in seconds, and the frame rate. It then returns the clip's start
and end timecodes as strings. This project models the arithmetic and text
handling that follow the probes:

- `framesToTimecode` turns a frame count and a frame rate into
  `HH:MM:SS:FF`. It takes hours, minutes and seconds from the elapsed
  seconds and takes the frame field from the fraction of the last second.
  The frame field is clamped below `int(frameRate)`, and every field is
  zero-padded to two digits. Hours never wrap at 24.
- `getVideoTimeCode`, from the empty-tag test on, behaves as follows.
  - An empty tag gives `(None, None)`.
  - A `;` in the tag marks drop-frame notation and is read as `:`.
  - The tag must split into exactly four integer fields.
  - The start frame total is `int((h*3600 + m*60 + s) * rate + f)`. The end
    frame total adds `int(duration * rate)`, and the end is printed by
    `framesToTimecode`.
  - In drop-frame notation both strings are printed again as
    `{h}:{mm}:{ss};{ff}`. No frame numbers are skipped.

The modules are:

- `PyText`: the Python built-ins the code relies on, over `seq<char>`.
  These are `str(n)`, the format spec `{n:02}`, `int(text)` (white space,
  sign, underscores between digits), `str.split` and `str.replace`.
- `FrameTimecode`: `framesToTimecode`, split into the four computed fields
  (`TimecodeOf`), their printing (`Render`) and the reading of four
  `:`-separated integer fields (`ParseTimecode`).
- `VideoTimeCode`: the rest of `getVideoTimeCode` (`GetVideoTimeCode`).
  Its outcomes are no timecode, a pair of strings, or an error.
  - `MalformedTimecode` stands for Python's `ValueError`.
  - `DivisionByZero` stands for the `ZeroDivisionError` a zero frame rate
    causes inside `framesToTimecode`.

The model uses exact numbers in place of floating point. The duration and
the frame rate are `real`s. The frame count and the fields are unbounded
integers. Python's operations are written out:

- `int(x)` truncates toward zero (`Trunc`).
- `//` and `%` on floats by a positive constant floor (`FloorDiv`,
  `FloorMod`).

The functions are defined for every input Python accepts, including
negative counts and negative rates. The conditions `frameCount >= 0`,
`frameRate >= 1` and `durationSec >= 0` appear only on the lemmas that need
them.

Three details of the code are easy to misread:

- The frame field is clamped below `int(frameRate)` (line 24). It is not
  bounded by the rounded rate.
- The start frame total truncates once, after the frame field is added
  (`int(seconds * rate + f)`, line 85). It is not `floor(seconds * rate) + f`.
- In drop-frame form the end hour is printed unpadded (`{h}`, line 93),
  like the start hour.

With exact arithmetic the clamp still fires for a rate that is not a whole
number. At 30000/1001 frames per second, frame 29 of a second is written
as 28 (`ClampFoldsFrames`, `NtscDropFrameClip`). So the frame count →
timecode → frame count round trip holds for whole-number rates only.

## Model

| member | source | states |
|---|---|---|
| PyText.Str | videoTimeCodeExtractor.py:90 | `{h}`: a minus sign exactly for a negative value, then digits only, with no leading zero unless the value is 0 (so unpadded, unlike `{h:02}`); with `ParseStr` this pins `str(x)` |
| PyText.Pad2 | videoTimeCodeExtractor.py:27 | `{x:02}`: two digits for 0..99, zero-filled below 10; the full numeral for wider or negative values; width is max(2, len(str(x))) |
| PyText.Decimal | videoTimeCodeExtractor.py:90 | the numeral of a natural number is non-empty, all digits, starts with `0` only for zero, and has one digit exactly below 10 |
| PyText.Split | videoTimeCodeExtractor.py:84 | `split(":")` gives at least one piece and no piece holds the separator |
| PyText.ReplaceChar | videoTimeCodeExtractor.py:81 | `replace(";", ":")` keeps the length and replaces exactly the occurrences of `;` |
| PyText.ParseInt | videoTimeCodeExtractor.py:84 | definition of `int(text)`: white space stripped, an optional sign, digits with single underscores between them, `None` for `ValueError`; its properties are `ParseUnsigned`, `ParseSigned`, `ParseStr`, `ParsePad2` and `FileSeparatorRejected` |
| PyText.FileSeparatorRejected | videoTimeCodeExtractor.py:84 | `int("\x1c0")` fails: the ASCII separators `\x1c` to `\x1f` are not white space to `int()` |
| PyText.TrimStart | videoTimeCodeExtractor.py:84 | the white space `int()` skips is removed from the front only, and the result is a suffix of the input |
| PyText.TrimEnd | videoTimeCodeExtractor.py:84 | the white space `int()` skips is removed from the back only, and the result is a prefix of the input |
| PyText.DecimalValue | videoTimeCodeExtractor.py:90-92 | reading back the numeral of `n` gives `n` |
| PyText.ParseUnsigned | videoTimeCodeExtractor.py:84 | `int()` of a digit run (underscores between digits allowed) is the run's value |
| PyText.ParseSigned | videoTimeCodeExtractor.py:84 | `int()` of `-` followed by a digit run is the negated value |
| PyText.ParseStr | videoTimeCodeExtractor.py:90-93 | `int(str(x)) == x` for every integer, negative ones included |
| PyText.ParsePad2 | videoTimeCodeExtractor.py:92 | `int(f"{x:02}") == x` for every integer: padding zeros are read as leading zeros |
| PyText.SplitWithoutSep | videoTimeCodeExtractor.py:84 | a string without the separator splits into itself alone |
| PyText.SplitAtSep | videoTimeCodeExtractor.py:84 | a separator after a separator-free piece ends that piece |
| PyText.JoinSplit | videoTimeCodeExtractor.py:84 | joining the pieces of a split with the separator gives the string back |
| PyText.SplitJoin | videoTimeCodeExtractor.py:84 | splitting a join of separator-free pieces gives the pieces back |
| PyText.ReplaceAbsent | videoTimeCodeExtractor.py:79-81 | replacing a character that does not occur changes nothing |
| PyText.ReplaceConcat | videoTimeCodeExtractor.py:81 | replacement acts piecewise on a concatenation |
| FrameTimecode.Trunc | videoTimeCodeExtractor.py:18-23 | `int(x)` rounds toward zero: down for non-negative `x`, up for negative `x` |
| FrameTimecode.FloorDiv | videoTimeCodeExtractor.py:18-19 | `x // d` for d > 0 is the integer q with q*d <= x < (q+1)*d |
| FrameTimecode.FloorMod | videoTimeCodeExtractor.py:19-20 | `x % d` for d > 0 lies in [0, d) and x minus it is the multiple `(x // d) * d` |
| FrameTimecode.FractionInFrames | videoTimeCodeExtractor.py:23 | definition of `(totalSeconds - int(totalSeconds)) * frameRate`; its properties are `FractionalFrames` and `ClampedField` |
| FrameTimecode.FrameField | videoTimeCodeExtractor.py:23-25 | the clamped frame field is always below `int(frameRate)`; its range and value are `ClampedField`, `FrameFieldInRange`, `WholeRateFrame` and `RateBelowOneGivesMinusOne` |
| FrameTimecode.TimecodeAt | videoTimeCodeExtractor.py:18-25 | definition of the four fields from the elapsed seconds; its properties are `WholeSecondsKept`, `ClampedField` and `WholeRateFieldsAt` |
| FrameTimecode.TimecodeOf | videoTimeCodeExtractor.py:17-25 | definition of the four fields from a frame count; its properties are `WholeSecondsOfFrames`, `FrameFieldInRange`, `WholeRateFields`, `FieldsRoundTrip` and `TimecodeRoundTrip` |
| FrameTimecode.Render | videoTimeCodeExtractor.py:27 | definition of `f"{h:02}:{m:02}:{s:02}:{f:02}"`; its properties are `RenderParses` and `NoSemicolonInRender` |
| FrameTimecode.ParseTimecode | videoTimeCodeExtractor.py:84 | definition of `map(int, tc.split(":"))` into exactly four fields, `None` for `ValueError`; its properties are `FieldsParse`, `RenderParses` and `ThreeFieldsAreMalformed` |
| FrameTimecode.FrameTotal | videoTimeCodeExtractor.py:85 | definition of `int((h*3600 + m*60 + s) * frameRate + f)`; its properties are `WholeRateTotal`, `FieldsRoundTrip` and `TimecodeRoundTrip` |
| FrameTimecode.FramesToTimecode | videoTimeCodeExtractor.py:16-27 | the printed string reads back as four integer fields equal to the computed hours, minutes, seconds and frames |
| FrameTimecode.RenderParses | videoTimeCodeExtractor.py:27 | every `HH:MM:SS:FF` string printed reads back as exactly the four fields it printed |
| FrameTimecode.FieldsParse | videoTimeCodeExtractor.py:84 | four colon-free integer texts joined by `:` read as those four fields |
| FrameTimecode.NumeralHasNoSeparator | videoTimeCodeExtractor.py:27 | a printed integer holds neither `:` nor `;` |
| FrameTimecode.HoursOfWhole | videoTimeCodeExtractor.py:18 | `int(t // 3600)` is the whole seconds divided by 3600 |
| FrameTimecode.MinutesOfWhole | videoTimeCodeExtractor.py:19 | `int((t % 3600) // 60)` is the minute within the hour of the whole seconds |
| FrameTimecode.SecondsOfWhole | videoTimeCodeExtractor.py:20 | `int(t % 60)` is the second within the minute of the whole seconds |
| FrameTimecode.HmsOfWhole | videoTimeCodeExtractor.py:18-20 | hours, minutes and seconds of a whole-second count add back to it, with minutes in [0, 60) |
| FrameTimecode.WholeSecondsKept | videoTimeCodeExtractor.py:18-20 | for `t >= 0`: hours = floor(t) / 3600 (no wrap), minutes and seconds in [0, 60), and h*3600 + m*60 + s = floor(t) |
| FrameTimecode.WholeSecondsOfFrames | videoTimeCodeExtractor.py:17-20 | the same for `t = frameCount / frameRate`: h*3600 + m*60 + s = floor(frameCount / frameRate) |
| FrameTimecode.FractionalFrames | videoTimeCodeExtractor.py:23 | the fraction of the last second, in frames, is `n - floor(t) * rate` and lies in [0, rate) |
| FrameTimecode.ClampedField | videoTimeCodeExtractor.py:23-25 | for rate >= 1 the frame field is in [0, int(rate)) and is either the floor of the fractional frames or the clamp value int(rate) - 1 |
| FrameTimecode.FrameFieldInRange | videoTimeCodeExtractor.py:23-25 | for frameCount >= 0 and rate >= 1 the frame field is in [0, int(rate)) |
| FrameTimecode.RateBelowOneGivesMinusOne | videoTimeCodeExtractor.py:24-25 | for 0 < rate < 1 the clamp sets the frame field to -1, printed as `-1` |
| FrameTimecode.WholeRateFields | videoTimeCodeExtractor.py:17-25 | for a whole-number rate r: frames = frameCount % r and h*3600 + m*60 + s = frameCount / r |
| FrameTimecode.WholeRateFieldsAt | videoTimeCodeExtractor.py:17-25 | the same, stated for the elapsed seconds `t` with `t * r == frameCount` |
| FrameTimecode.WholeRateFrame | videoTimeCodeExtractor.py:23-25 | for a whole-number rate the clamp never fires and the frame field is `n - floor(t) * r`, in [0, r) |
| FrameTimecode.WholeRateTotal | videoTimeCodeExtractor.py:85 | for a whole-number rate, `int((h*3600+m*60+s) * r + f)` is exactly `(h*3600+m*60+s) * r + f` |
| FrameTimecode.FieldsRoundTrip | videoTimeCodeExtractor.py:17-25 | frame count → fields → frame total gives the frame count back, for a whole-number rate |
| FrameTimecode.FramesRoundTrip | videoTimeCodeExtractor.py:16-27 | the printed timecode reads back and its frame total is the original frame count, for a whole-number rate |
| FrameTimecode.TimecodeRoundTrip | videoTimeCodeExtractor.py:17-25 | fields in range (minutes, seconds < 60, frames < r) → frame total → fields gives the same fields |
| FrameTimecode.HmsUnique | videoTimeCodeExtractor.py:18-20 | an h/m/s split with minutes and seconds in [0, 60) is unique |
| FrameTimecode.HoursDoNotWrap | videoTimeCodeExtractor.py:18-27 | 9000000 frames at 25 fps print as `100:00:00:00`: hours pass 24 and 99 unwrapped |
| FrameTimecode.HundredHours | videoTimeCodeExtractor.py:17-25 | 9000000 frames at 25 fps are 100 hours exactly |
| FrameTimecode.RenderHundredHours | videoTimeCodeExtractor.py:27 | hour 100 prints with three digits |
| FrameTimecode.ClampFoldsFrames | videoTimeCodeExtractor.py:22-25 | at 30000/1001 fps, frames 28 and 29 both print as second 0, frame 28 |
| VideoTimeCode.Normalize | videoTimeCodeExtractor.py:79-81 | the normalised tag holds no `;` and is the tag with every `;` replaced by `:` |
| VideoTimeCode.EndFrames | videoTimeCodeExtractor.py:85-86 | definition of the end frame total, start total plus `int(durationSec * frameRate)`; its properties are `EndFramesNonNegative`, `EndFollowsStart`, `EndFieldsInRange` and `EndFieldsFromInputs` |
| VideoTimeCode.DropFrameRender | videoTimeCodeExtractor.py:90-93 | definition of `f"{h}:{m:02}:{s:02};{f:02}"`; its properties are `DropFrameShape`, `DropFrameNormalized` and `DropFrameReadsBack` |
| VideoTimeCode.GetVideoTimeCode | videoTimeCodeExtractor.py:71-95 | no timecode exactly when the tag is empty; `MalformedTimecode` exactly when a non-empty tag does not read as four integer fields; `DivisionByZero` exactly when it does and the rate is 0 |
| VideoTimeCode.Outcome | videoTimeCodeExtractor.py:84-95 | for a readable tag and a non-zero rate: without `;`, the tag itself and the printed end; with `;`, both start and end fields in drop-frame form |
| VideoTimeCode.ResultFields | videoTimeCodeExtractor.py:79-95 | both returned strings read back: the start as the parsed start fields, the end as the fields of the end frame total; each has a `;` exactly when the tag had one |
| VideoTimeCode.StartPassesThrough | videoTimeCodeExtractor.py:79-95 | a tag without `;` is returned unchanged as the start |
| VideoTimeCode.StartIsStable | videoTimeCodeExtractor.py:78-95 | feeding the returned start back in gives the same result again |
| VideoTimeCode.EndFramesNonNegative | videoTimeCodeExtractor.py:85-86 | non-negative start fields, duration and rate give a non-negative end frame total |
| VideoTimeCode.EndFieldsFromInputs | videoTimeCodeExtractor.py:84-88 | for non-negative start fields and duration and any real rate >= 1 (30000/1001 included), the end reads back with minutes and seconds in [0, 60), frames in [0, int(rate)) and h*3600+m*60+s = floor(endFrames / rate) |
| VideoTimeCode.EndFollowsStart | videoTimeCodeExtractor.py:84-88 | for a whole-number rate the end string's frame total equals `int((h*3600+m*60+s)*r + f) + int(duration*r)` |
| VideoTimeCode.EndFieldsInRange | videoTimeCodeExtractor.py:86-88 | for rate >= 1 the end reads back with minutes and seconds in [0, 60), frames in [0, int(rate)) and h*3600+m*60+s = floor(endFrames / rate) |
| VideoTimeCode.DropFrameShape | videoTimeCodeExtractor.py:89-93 | a drop-frame string is `{h}:{mm}:{ss}` and `{ff}` around one `;`, the hour unpadded |
| VideoTimeCode.DropFrameNormalized | videoTimeCodeExtractor.py:89-93 | a drop-frame string holds `;`, and normalising it gives `{h}:{mm}:{ss}:{ff}` |
| VideoTimeCode.DropFrameReadsBack | videoTimeCodeExtractor.py:89-93 | a drop-frame string holds `;` and reads back as exactly the fields it printed |
| VideoTimeCode.SemicolonBeforeFrames | videoTimeCodeExtractor.py:79-81 | a single `;` before the frame field is detected and normalised to `:` |
| VideoTimeCode.NoSemicolonInRender | videoTimeCodeExtractor.py:27 | the `framesToTimecode` string never holds `;` |
| VideoTimeCode.TenHourClip | videoTimeCodeExtractor.py:84-88 | `10:00:00:00`, 3661 s, 25 fps gives (`10:00:00:00`, `11:01:01:00`) |
| VideoTimeCode.TenHourTag | videoTimeCodeExtractor.py:79-84 | `10:00:00:00` has no `;` and reads as 10 h 0 m 0 s 0 f |
| VideoTimeCode.ElevenHourEnd | videoTimeCodeExtractor.py:16-27 | 991525 frames at 25 fps print as `11:01:01:00` |
| VideoTimeCode.OneHourDropFrameClip | videoTimeCodeExtractor.py:89-93 | `01:00:00;00`, 10 s, 25 fps gives (`1:00:00;00`, `1:00:10;00`) |
| VideoTimeCode.OneHourTag | videoTimeCodeExtractor.py:79-84 | `01:00:00;00` holds `;` and reads as 1 h 0 m 0 s 0 f |
| VideoTimeCode.OneHourNormalized | videoTimeCodeExtractor.py:79-81 | `01:00:00;00` normalises to `01:00:00:00` |
| VideoTimeCode.OneHourTenSecondsEnd | videoTimeCodeExtractor.py:17-25 | 90250 frames at 25 fps are 1 h 0 m 10 s 0 f |
| VideoTimeCode.NtscDropFrameClip | videoTimeCodeExtractor.py:89-93 | `01:00:00;00`, 10 s, 30000/1001 fps gives (`1:00:00;00`, `1:00:09;28`): the clamp turns frame 29 into 28 |
| VideoTimeCode.NtscEnd | videoTimeCodeExtractor.py:85-88 | that clip ends at frame 108191, which is 1 h 0 m 9 s, frame 28 |
| VideoTimeCode.ThreeFieldsAreMalformed | videoTimeCodeExtractor.py:84 | `10:00:00` is `MalformedTimecode` for every duration and rate |
| VideoTimeCode.ThreeFieldTag | videoTimeCodeExtractor.py:84 | `10:00:00` has no `;` and splits into three pieces |
| VideoTimeCode.ElevenHourText | videoTimeCodeExtractor.py:27 | fields 11, 1, 1, 0 print as `11:01:01:00` |
| VideoTimeCode.OneHourDropFrameText | videoTimeCodeExtractor.py:90 | fields 1, 0, 0, 0 print in drop-frame form as `1:00:00;00` |
| VideoTimeCode.OneHourTenDropFrameText | videoTimeCodeExtractor.py:93 | fields 1, 0, 10, 0 print in drop-frame form as `1:00:10;00` |
| VideoTimeCode.NtscDropFrameText | videoTimeCodeExtractor.py:93 | fields 1, 0, 9, 28 print in drop-frame form as `1:00:09;28` |
| VideoTimeCode.SmallNumerals | videoTimeCodeExtractor.py:27 | `{x:02}` of 0, 1, 9, 10, 11, 28 and `{h}` of 1 as Python prints them |

## Left out

- `runFfprobe`, `getStartTimeCode`, `getVideoDuration` and `getFrameRate` (lines 8-65) run ffprobe as a subprocess. Their results (tag, duration, rate) are parameters of `GetVideoTimeCode`, and the `RuntimeError` for a failing ffprobe is not modelled.
- `ffprobePath` (line 5) is process configuration and plays no part in the model.
- IEEE-754 floating point: rounding drift, overflow, and NaN or infinite durations are not modelled. Duration and rate are exact `real`s, so the clamp at lines 22-25 is studied under exact arithmetic.
- `float(Fraction(...))` (line 64) is not modelled. The rate is taken as an already parsed number, so the `ZeroDivisionError` of a `N/0` rate string is out of scope. A rate of zero is still covered, where it reaches `framesToTimecode`.
- `int()` on text: non-ASCII digits and white space outside the Latin-1 range are not modelled.
- The kinds of `ValueError` (wrong number of fields, a field that is not an integer) are merged into one `MalformedTimecode`.
- True SMPTE drop-frame numbering, which skips frame numbers, is not modelled. The code does not do it either: it only changes the separator.
- FrameTimecode.FramesRoundTrip: holds only for whole-number rates. For other rates the clamp merges frame numbers (see `ClampFoldsFrames`), so no round trip exists.
- FrameTimecode.FieldsRoundTrip: only for whole-number rates, for the same reason.
- FrameTimecode.TimecodeRoundTrip: only for whole-number rates and fields already in range.
- FrameTimecode.FrameFieldInRange: needs `frameCount >= 0` and `frameRate >= 1`. Below a rate of 1 the field is -1 (`RateBelowOneGivesMinusOne`). Negative counts give negative fields.
- VideoTimeCode.EndFollowsStart: stated for whole-number rates and non-negative start fields and duration.
- VideoTimeCode.EndFieldsInRange: needs `frameRate >= 1` and a non-negative end frame total; `EndFieldsFromInputs` derives the latter from non-negative start fields and duration, for any real rate >= 1.
