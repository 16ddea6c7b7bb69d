# BigTime watch firmware — a Dafny model

This project models the firmware of the BigTime watch. The watch has a four-digit,
seven-segment display, a single button and a touch pad with an LED.

The processor sleeps most of the time. A 32.768 kHz crystal overflows Timer 2
every eight seconds, and that interrupt adds eight seconds to the clock. It
then carries seconds into minutes and minutes into hours, and wraps the hour
into the 12-hour or 24-hour range.

- A press of the button raises `show_the_time`. The main loop then shows
  `hours * 100 + minutes` for a few seconds.
- If the button is still held once the time has been shown, the loop enters
  `setTime`. There every cycle with the button down adds a minute, and from
  the tenth consecutive cycle it jumps to the next multiple of ten. The mode
  ends after nine released cycles following the last press, or after ten
  cycles if the button is never pressed in it.
- A touch on the pad raises `led_on`. The loop then toggles the LED on every
  low poll for two seconds.

The display is multiplexed. `displayNumber` and `displayLetters` select one
position at a time and latch its segments. After each position,
`displayNumber` blanks the segments and de-selects all four positions.
`displayLetters` blanks the segments and de-selects positions 1-3 only, so its
sweep ends with position 4 still selected. Segment lines
are active low and digit lines are active high.

Modules:

- `CInt`: C's truncating `/` and `%`, which agree with Dafny's on the
  non-negative values the clock holds.
- `Maybe`: an option type.
- `Clock`: the time variables, the normalisation shared by the timer
  interrupt and `setTime`, and the tick. A time's `Reading` is its position
  on the clock face, in seconds modulo the 12-hour or 24-hour period. It is
  the reference that normalisation and the tick are measured against, and
  `TimeAt` is its inverse.
- `Segments`: `lightNumber`'s table of glyphs and the pin levels it writes.
  A 7-bit `ReadDigit` recovers a digit from a lit pattern.
- `Display`: the segment and digit latches (`Lines`), `displayNumber` and
  `displayLetters` as sequences of frames, and `ReadNumber`, which reads a
  number back off the frames.
- `TimeEditor`: `setTime`, one loop cycle at a time, as a fold over the
  button reads, and as a session that stops when the idle counter reaches
  2000.
- `Controller`: the three interrupt handlers, `showTime`, the LED window
  and one pass of `loop`.

Inputs the firmware reads from pins are passed in as sequences of booleans,
where `true` means the pin reads LOW (pressed or touched). A time window
measured with `millis()` becomes a number of polls. When the supplied reads
run out before a wait or a window ends, the result is `None`.

## Model

| member | source | states |
|---|---|---|
| CInt.Quot | firmware/src/main.cpp:90-92 | C's `/` by a positive divisor rounds toward zero: the remainder it leaves is below the divisor and has the sign of the dividend |
| CInt.Rem | firmware/src/main.cpp:91-93 | C's `%` by a positive divisor: it recombines with `Quot` into the dividend, and lies in 0..b-1 for a non-negative dividend, in -(b-1)..0 for a negative one |
| Clock.WrapHours | firmware/src/main.cpp:96-103 | the hour-wrap loop ends with the hour at most 12 (or 23), at least 1 (0 in 24-hour mode) when it had to wrap, unchanged when it did not, and changed by a whole number of 12 (or 24) hour cycles |
| Clock.Normalise | firmware/src/main.cpp:89-103 | the carry into minutes and hours keeps the clock-face reading; for non-negative fields (hour at least 1 in 12-hour mode) the result is a normal time; seconds and minutes always end up carried |
| Clock.NormaliseIdempotent | firmware/src/main.cpp:517-531 | normalising twice is normalising once, for every input; this is what lets `setTime` repeat the normalisation after the interrupt has already done it |
| Clock.NormaliseFixesNormal | firmware/src/main.cpp:517-531 | a normal time is left unchanged |
| Clock.Tick | firmware/src/main.cpp:86-104 | the timer interrupt keeps a valid time normal and moves the reading forward by exactly 8 seconds modulo the period |
| Clock.TimeAt | firmware/src/main.cpp:95-103 | the reference clock face: for every reading in a period there is a normal time with that reading |
| Clock.TimeAtReading | firmware/src/main.cpp:95-103 | a normal time is the one at its reading, so normal times and readings correspond one to one |
| Clock.TickIsEightSecondsLater | firmware/src/main.cpp:86-104 | from a normal time, the tick yields the normal time 8 seconds later on the face |
| Clock.TickTwentyFour | firmware/src/main.cpp:86-104 | in 24-hour mode the tick adds 8 to the seconds since midnight modulo 86400 |
| Clock.TickExamples | firmware/src/main.cpp:86-103 | 23:59:55 ticks to 0:00:03 in 24-hour mode; in 12-hour mode 11:59:55 ticks to 12:00:03 and 12:59:55 to 1:00:03 |
| Clock.CarryExample | firmware/src/main.cpp:90-93 | the carry worked in the interrupt's comments: 12 h 58 min and 2317 s normalise to 1:36:37 in 12-hour mode |
| Clock.CombinedTimeSplits | firmware/src/main.cpp:460 | for a normal time the combined value lies in 0..2359 (0..1259 in 12-hour mode) and splits back into hours and minutes |
| Segments.LightNumber | firmware/src/main.cpp:115-349 | no segment is written exactly when the code is unknown; blank codes drive all seven segments off; every other known code drives only segments on |
| Segments.GlyphIsLit | firmware/src/main.cpp:129-348 | the glyph of a code is exactly the set of segments `lightNumber` drives low |
| Segments.GlyphEmpty | firmware/src/main.cpp:115-349 | the glyph is empty exactly for unknown and blank codes |
| Segments.DigitsLight | firmware/src/main.cpp:131-208 | each of the ten digits lights at least one segment |
| Segments.DigitsReadBack | firmware/src/main.cpp:131-208 | the ten digit glyphs are pairwise distinct: reading a digit's glyph back gives that digit |
| Segments.GlyphTable | firmware/src/main.cpp:129-348 | 1 lights B and C; 8 lights all seven segments; 10 and ' ' drive all seven off |
| Segments.LetterGlyphs | firmware/src/main.cpp:230-283 | 'Z' lights all seven segments; 'A' lights all but D; 'R' lights A, B, E and F |
| Segments.LettersThatReadAsDigits | firmware/src/main.cpp:230-291 | 'Z', 'g' and 'S' light the same segments as 8, 9 and 5 |
| Segments.LettersThatReadAsNoDigit | firmware/src/main.cpp:239-283 | 'A' and 'R' light patterns 0x77 and 0x33, which are not digits; the code is followed over the comments beside them |
| Display.DrawLatches | firmware/src/main.cpp:115-349 | after `lightNumber`, a segment is lit iff it was written low, or it was not written and was already lit; the digit lines are untouched |
| Display.Blanked | firmware/src/main.cpp:384-395 | blanking the segments and de-selecting all four positions leaves the display dark, whatever it showed |
| Display.DisplayNumber | firmware/src/main.cpp:351-397 | four frames and, after each, the display is fully dark |
| Display.NumberFrame | firmware/src/main.cpp:356-382 | frame i selects only position 4-i and lights the glyph of the i-th decimal digit, or nothing for a leading 0 in position 1 |
| Display.DisplayNumberShows | firmware/src/main.cpp:356-382 | positions 4, 3 and 2 show the units, tens and hundreds of the number |
| Display.DisplayNumberThousands | firmware/src/main.cpp:375-380 | position 1 shows the thousands digit, and it is dark iff that digit is 0 |
| Display.DisplayNumberIgnoresColon | firmware/src/main.cpp:351-397 | the colon argument has no effect on anything `displayNumber` does |
| Display.DisplayNumberReadsBack | firmware/src/main.cpp:351-397 | reading the four frames back yields the number modulo 10000 |
| Display.DecimalDigits | firmware/src/main.cpp:376-382 | the digit `displayNumber` shows in the k-th frame is the k-th decimal digit of the number |
| Display.DisplayLettersAfter | firmware/src/main.cpp:404-436 | positions 1-3 are dark after their frames, but position 4 is still selected after the last frame |
| Display.DisplayLettersShows | firmware/src/main.cpp:400-437 | position k shows the glyph of the k-th character; position 4 is de-selected before the first |
| Display.DisplayLetters | firmware/src/main.cpp:400-437 | four frames, one per character, each with the latches left by its clean-up; what they show is stated by `Display.DisplayLettersShows` and `Display.DisplayLettersAfter` |
| TimeEditor.NextTen | firmware/src/main.cpp:556-558 | the fast step lands on a multiple of ten strictly above the minutes and at most ten above them |
| TimeEditor.NextTenExample | firmware/src/main.cpp:556-558 | 46 becomes 50, 50 becomes 60 and 0 becomes 10 |
| TimeEditor.Cycle | firmware/src/main.cpp:513-564 | a press resets the idle counter to one step and counts the hold; a release adds a step, resets the hold and only normalises the time; a valid time stays valid |
| TimeEditor.SlowPressAddsMinute | firmware/src/main.cpp:550-552 | during the first nine held cycles a press moves the reading one minute forward |
| TimeEditor.FastPressJumpsToTen | firmware/src/main.cpp:553-559 | from the tenth held cycle a press moves the minutes to the next multiple of ten, and the reading forward by the minutes skipped |
| TimeEditor.ReleaseKeepsReading | firmware/src/main.cpp:561-562 | a released cycle keeps the reading and resets the hold counter |
| TimeEditor.Counters | firmware/src/main.cpp:505-564 | after any sequence of reads the hold counter is the number of trailing presses, and the idle counter counts the cycles since the last press (all of them if there was none) |
| TimeEditor.StopsWhenExpired | firmware/src/main.cpp:513 | the loop condition fails iff there were 9 releases after the last press, or 10 cycles with no press at all |
| TimeEditor.Run | firmware/src/main.cpp:503-566 | `setTime` over the button reads: it uses at most the reads supplied and records one displayed value per cycle it ran |
| TimeEditor.RunIsLoop | firmware/src/main.cpp:513-565 | the session's final state is the fold of the cycles it ran, every earlier state kept the loop running, and it stops early only when the loop condition fails |
| TimeEditor.RunShows | firmware/src/main.cpp:535-544 | each cycle displays the combined value of the time as it stands after normalisation |
| TimeEditor.ExitsWhenExpired | firmware/src/main.cpp:505-565 | no earlier prefix of the reads was expired; the session ends before the reads run out only on an expired prefix, and its final state stops the loop iff its reads are expired |
| TimeEditor.SessionEnds | firmware/src/main.cpp:505-565 | `setTime` entered on a run of button reads finishes iff some prefix of them has expired, and then it has consumed the shortest such prefix |
| TimeEditor.ExitTimeIsNormal | firmware/src/main.cpp:517-564 | when `setTime` returns, the time is normal, because the last cycle was a release, which only normalises |
| TimeEditor.ShownIsTime | firmware/src/main.cpp:535 | every value `setTime` displays lies in 0..2359 |
| Controller.PowerOnIsNormal | firmware/src/main.cpp:43-52 | the power-on time 12:00:01 is normal in both modes, with neither request flag raised and the LED low |
| Controller.OnTick | firmware/src/main.cpp:86-104 | the timer interrupt makes a valid time normal, moves the reading forward 8 s modulo the period, and changes nothing else in the state |
| Controller.OnButton | firmware/src/main.cpp:107-111 | `INT0_vect` raises `show_the_time` and changes nothing else |
| Controller.OnPinChange | firmware/src/main.cpp:80-83 | `PCINT1_vect` raises `led_on` and changes nothing else |
| Controller.InterruptsKeepNormal | firmware/src/main.cpp:80-111 | the timer interrupt keeps the time normal and adds 8 seconds to the reading; the button and pin-change interrupts set their own flag and change nothing else |
| Controller.WaitRelease | firmware/src/main.cpp:651-653 | the wait consumes the leading low reads and the first high one, or all reads if none is high |
| Controller.WaitReleaseCounts | firmware/src/main.cpp:651-653 | a release wait runs out of reads iff none of them is a release; otherwise the reads it consumes hold exactly one release |
| Controller.Debounce | firmware/src/main.cpp:650-653 | the debounce runs out of reads iff they hold fewer than two releases; otherwise it consumes exactly two releases, the last read it consumes being one, and leaves the remaining reads as a suffix |
| Controller.ShowTime | firmware/src/main.cpp:439-482 | `showTime` polls at most as often as the window allows and the reads supply, and at least once when both are non-empty |
| Controller.ShowFrom | firmware/src/main.cpp:466-480 | the `showTime` loop from a given poll never polls past the window or the supplied reads |
| Controller.ShowTimeEndsAtTap | firmware/src/main.cpp:462-480 | `showTime` returns at the first release after a press inside the window, and otherwise runs for the whole window |
| Controller.ShowFromEndsAtTap | firmware/src/main.cpp:466-480 | the loop keeps `buttonPreviouslyHit` equal to "a press has been read", and returns only at a release after one |
| Controller.LedWindow | firmware/src/main.cpp:666-671 | the LED window: with no low poll the LED keeps its level (the general parity law is `Controller.LedParity`) |
| Controller.LedParity | firmware/src/main.cpp:667-671 | over the LED window the LED ends at its initial level iff the number of low polls is even |
| Controller.LedPolls | firmware/src/main.cpp:664-671 | the LED window is missed iff every release of the touch pad is followed by fewer reads than the window needs; otherwise the window is the reads right after the first release |
| Controller.LoopBody | firmware/src/main.cpp:644-675 | one pass of `loop` after a wake: when a flag was raised or the display is always on, it ends with both flags clear; with neither, it changes nothing and shows nothing |
| Controller.LoopBodyCompletes | firmware/src/main.cpp:644-675 | a pass fails to complete exactly when the supplied reads run out: the debounce finds fewer than two releases, `showTime` uses up the reads, a held button enters `setTime` on reads no prefix of which expires, or every touch release leaves too few reads for the LED window |
| Controller.ShowBranchCompletes | firmware/src/main.cpp:648-662 | the time branch fails to complete exactly on the three read shortages of the time branch named for `Controller.LoopBodyCompletes` |
| Controller.AfterShowEffect | firmware/src/main.cpp:655-661 | after `showTime`: a release keeps the time and shows nothing more; a press completes iff some prefix of the later reads expires, and then the time is the one `setTime` reaches on the shortest such prefix, with one frame per cycle showing the time that cycle started from |
| Controller.ReleaseKeepsTime | firmware/src/main.cpp:648-662 | a completed time-branch pass whose read after `showTime` is a release keeps the time and shows only `showTime`'s frame |
| Controller.PressEditsTime | firmware/src/main.cpp:648-662 | a completed time-branch pass whose read after `showTime` is a press leaves the time `setTime` reaches on the shortest expired prefix of the later reads, and shows `showTime`'s frame followed by that session's frames |
| Controller.IdlePassChangesNothing | firmware/src/main.cpp:644-675 | a pass with neither flag raised, and the display not always on, changes and shows nothing |
| Controller.TickOnlyWake | firmware/src/main.cpp:86-104 | a wake by the timer alone changes only the time, and the pass that follows shows nothing |
| Controller.ShowBeatsLed | firmware/src/main.cpp:648-662 | when the button flag is raised or the display is always on, the time branch runs even if a touch is pending: when the show window is non-empty the first value shown is the current time, and the pass ends with the LED low and both flags clear |
| Controller.LedBranchParity | firmware/src/main.cpp:663-674 | the LED branch flips the LED iff the window saw an odd number of low polls, and clears `led_on` only |
| Controller.LoopKeepsNormal | firmware/src/main.cpp:648-662 | a pass of the loop, with or without `setTime`, leaves the time normal and shows only values in 0..2359 |
| Controller.AfterShowKeepsNormal | firmware/src/main.cpp:656-661 | the held-button check and `setTime` return a normal time, and show only times |
| Controller.TimeOnFace | firmware/src/main.cpp:460-467 | `showTime` puts the minute digits in positions 4 and 3 and the hour digits in positions 2 and 1, with position 1 dark for one-digit hours, and the face reads back as the time |

## Left out

- Integer widths: `hours`, `minutes`, `idleMiliseconds` and `buttonHold` are 16-bit `int`s and `seconds` is a `long`, but the model uses unbounded integers. Every value a normal time and the editor reach fits easily. The exception is `buttonHold`, which would overflow only after about 32767 held cycles (roughly 1.8 hours of holding).
- `setup` and the peripheral configuration are not modelled: pin modes, the timer and its prescaler, the power-reduction registers, and the interrupt enables. Neither are the pin numbers. The loop starts from `PowerOn`.
- `delay`, `delayMicroseconds`, `millis()` and the brightness constant are not modelled. Each time window (`show_time_length`, the 2-second LED window) is a number of polls supplied by the caller.
- `sleep_mode` is not modelled: `LoopBody` is the pass that follows a wake.
- LED during the time branch: only the LED level at the end of a pass is modelled. The time branch drives the LED high before `showTime` and low after it, so the LED is lit while the time is shown. `Step` keeps only the final low level.
- The model does not interleave interrupts with the interactive loops. A tick or a flag raised while `showTime`, `setTime` or the LED window runs is a separate step, and the `cli`/`sei` race is not modelled.
- `Controller.ShowTimeEndsAtTap` and `Controller.ShowFromEndsAtTap`: one read per poll. Once a press has been seen, a poll whose first read finds the button released reads it a second time. The second read is evaluated only because `buttonPreviouslyHit` is true, since `&&` short-circuits. If that second read finds the button pressed again, the source keeps looping instead of returning. The model takes a single read per iteration and returns at that first released read.
- The startup message sequence and `showColor` are not modelled. The model keeps `displayLetters` itself.
- `TimeEditor.RunShows`: `setTime` draws the time twenty times per cycle, ten with the colon argument set and ten without. The model records one displayed value per cycle. In the same way, `showTime` contributes one value to the record when it makes at least one sweep, however many it makes. A window of zero polls makes none, although the source's 2000 ms window always makes at least one. `Display.DisplayNumberIgnoresColon` shows the colon argument changes nothing.
- `Display.DisplayLetters` requires at least four characters: the source indexes `colorName[0..3]` without checking.
- Facts about the code that the model keeps as they are:
  - `displayNumber` sweeps position 4 (units) first and position 1 (thousands) last.
  - The only zero it suppresses is the thousands digit, in position 1.
  - `displayLetters` clears the digit line of position 4 once, before the first position (main.cpp:404). The clean-up after each position (:433-435) clears positions 1-3 only, so the sweep ends with position 4 selected and its segments off.
  - The comments beside the 'A' and 'R' cases name segments the code does not write. The model follows the writes.
- `Clock.Normalise` promises a normal result only for admissible inputs: non-negative fields, with the hour at least 1 in 12-hour mode. An hour of 0 in 12-hour mode is left at 0, as in the source, but no reachable state has one.
- `Display.DisplayNumberReadsBack` and `Controller.TimeOnFace` require the segment latches to start cleared. Every sweep leaves them cleared. `setup`'s pin configuration writes every pin LOW, which is the lit level for a segment. The startup sweeps of `showColor` and the final `showTime` in `setup` then blank the segments before `loop` runs. A sweep that starts from lit segments shows their union with the first digit.
