/**
 The clock engine: the globals `hours`, `minutes`, `seconds`, the carry and
 hour-wrap block that normalises them, and the timer-overflow interrupt that
 adds 8 seconds before normalising.
 */
module Clock {
  import opened CInt

  /** The compile-time `TwelveHourMode` switch. */
  datatype HourMode = Twelve | TwentyFour

  /** The three time globals. The model keeps them as unbounded integers. */
  datatype Time = Time(hours: int, minutes: int, seconds: int)

  /** The power-on values of the globals: 12:00 and one second. */
  const PowerOnTime := Time(12, 0, 1)

  /** Seconds added by one timer-2 overflow (the timer is clocked to overflow every 8 s). */
  const TickSeconds := 8

  /** The largest hour the wrap loop lets through. */
  function HourLimit(mode: HourMode): int {
    if mode == Twelve then 12 else 23
  }

  /** The amount the wrap loop subtracts from an hour that is too large. */
  function HourCycle(mode: HourMode): int {
    if mode == Twelve then 12 else 24
  }

  /** The smallest hour a normalised time shows: 12-hour mode runs 12, 1, ..., 11, 12. */
  function LowestHour(mode: HourMode): int {
    if mode == Twelve then 1 else 0
  }

  /** Length in seconds of one full turn of the clock face. */
  function Period(mode: HourMode): int {
    HourCycle(mode) * 3600
  }

  /** A fully carried time: every field inside the range the face can show. */
  predicate IsNormal(mode: HourMode, t: Time) {
    && 0 <= t.seconds < 60
    && 0 <= t.minutes < 60
    && LowestHour(mode) <= t.hours <= HourLimit(mode)
  }

  /**
   The states the firmware can be in before normalisation: nothing negative,
   and in 12-hour mode no hour 0 (the hour starts at 12 and only grows or wraps).
   */
  predicate Admissible(mode: HourMode, t: Time) {
    t.seconds >= 0 && t.minutes >= 0 && t.hours >= LowestHour(mode)
  }

  /**
   A time the carry block leaves alone: seconds and minutes strictly inside
   (-60, 60) and the hour at most the limit. Every normal time is one, and so
   is every result of the carry block, whatever its input.
   */
  predicate Carried(mode: HourMode, t: Time) {
    && -60 < t.seconds < 60
    && -60 < t.minutes < 60
    && t.hours <= HourLimit(mode)
  }

  /** Seconds of wall time the three fields add up to. */
  function WallSeconds(t: Time): int {
    t.hours * 3600 + t.minutes * 60 + t.seconds
  }

  /**
   The reference reading of a time: seconds past the start of the clock
   face's period. In 12-hour mode hour 12 therefore reads as hour 0.
   */
  function Reading(mode: HourMode, t: Time): int {
    WallSeconds(t) % Period(mode)
  }

  /** The hour-wrap loop: `while (hours > limit) hours -= cycle`. */
  function WrapHours(mode: HourMode, h: int): (r: int)
    ensures r <= HourLimit(mode)
    ensures h > HourLimit(mode) ==> r >= LowestHour(mode)
    ensures h <= HourLimit(mode) ==> r == h
    ensures (h - r) % HourCycle(mode) == 0
    decreases h
  {
    if h > HourLimit(mode) then
      var r := WrapHours(mode, h - HourCycle(mode));
      OneMoreCycle(h - HourCycle(mode) - r, HourCycle(mode));
      r
    else h
  }

  /** A multiple of `c` plus `c` is again a multiple of `c`. */
  lemma OneMoreCycle(x: int, c: int)
    requires c > 0 && x % c == 0
    ensures (x + c) % c == 0
  {
    DivideExactly(x + c, c, x / c + 1, 0);
  }

  /**
   The carry block shared by the timer interrupt and the set-time loop:
   seconds carry into minutes, minutes into hours, then the hour wraps.
   */
  function Normalise(mode: HourMode, t: Time): (r: Time)
    ensures Admissible(mode, t) ==> IsNormal(mode, r)
    ensures Reading(mode, r) == Reading(mode, t)
    ensures Carried(mode, r)
  {
    var minutes := t.minutes + Quot(t.seconds, 60);
    var seconds := Rem(t.seconds, 60);
    var hours := t.hours + Quot(minutes, 60);
    var r := Time(WrapHours(mode, hours), Rem(minutes, 60), seconds);
    NormalisePreservesReading(mode, t, r);
    r
  }

  /** The carry block changes the wall time only by whole turns of the face. */
  lemma NormalisePreservesReading(mode: HourMode, t: Time, r: Time)
    requires r.seconds == Rem(t.seconds, 60)
    requires r.minutes == Rem(t.minutes + Quot(t.seconds, 60), 60)
    requires r.hours == WrapHours(mode, t.hours + Quot(t.minutes + Quot(t.seconds, 60), 60))
    ensures Reading(mode, r) == Reading(mode, t)
  {
    var minutes := t.minutes + Quot(t.seconds, 60);
    var hours := t.hours + Quot(minutes, 60);
    assert t.seconds == Quot(t.seconds, 60) * 60 + r.seconds;
    assert minutes == Quot(minutes, 60) * 60 + r.minutes;
    assert WallSeconds(t) == hours * 3600 + r.minutes * 60 + r.seconds;
    var turns := (hours - r.hours) / HourCycle(mode);
    assert hours - r.hours == turns * HourCycle(mode);
    assert WallSeconds(t) - WallSeconds(r) == (hours - r.hours) * 3600;
    if mode == Twelve {
      assert (hours - r.hours) * 3600 == turns * 12 * 3600;
    } else {
      assert (hours - r.hours) * 3600 == turns * 24 * 3600;
    }
    ShiftByPeriods(mode, WallSeconds(t), turns);
  }

  /** Whole periods do not change a reading. */
  lemma ShiftByPeriods(mode: HourMode, x: int, k: int)
    ensures (x - k * Period(mode)) % Period(mode) == x % Period(mode)
  {
  }

  /** The timer-2 overflow interrupt: add the tick to the seconds, then normalise. */
  function Tick(mode: HourMode, t: Time): (r: Time)
    ensures Admissible(mode, t) ==> IsNormal(mode, r)
    ensures Reading(mode, r) == (Reading(mode, t) + TickSeconds) % Period(mode)
  {
    var later := t.(seconds := t.seconds + TickSeconds);
    AddToReading(mode, WallSeconds(t), TickSeconds);
    Normalise(mode, later)
  }

  /** Adding to a time and then reading it is adding to the reading, modulo the period. */
  lemma AddToReading(mode: HourMode, x: int, d: int)
    ensures (x + d) % Period(mode) == (x % Period(mode) + d) % Period(mode)
  {
    var k := x / Period(mode);
    assert x % Period(mode) + d == (x + d) - k * Period(mode);
    ShiftByPeriods(mode, x + d, k);
  }

  /** A carried time is a fixed point of the carry block. */
  lemma NormaliseFixesCarried(mode: HourMode, t: Time)
    requires Carried(mode, t)
    ensures Normalise(mode, t) == t
  {
    assert Quot(t.seconds, 60) == 0;
    assert Quot(t.minutes, 60) == 0;
  }

  /** Normalising twice is normalising once, for every input (non-negative or not). */
  lemma NormaliseIdempotent(mode: HourMode, t: Time)
    ensures Normalise(mode, Normalise(mode, t)) == Normalise(mode, t)
  {
    NormaliseFixesCarried(mode, Normalise(mode, t));
  }

  /** The carry block leaves an already normal time unchanged. */
  lemma NormaliseFixesNormal(mode: HourMode, t: Time)
    requires IsNormal(mode, t)
    ensures Normalise(mode, t) == t
  {
    NormaliseFixesCarried(mode, t);
  }

  /** The normal time that shows a given reading: the inverse of `Reading`. */
  function TimeAt(mode: HourMode, x: int): (t: Time)
    requires 0 <= x < Period(mode)
    ensures IsNormal(mode, t)
    ensures Reading(mode, t) == x
  {
    FaceTimeFits(mode, x);
    FaceTime(mode, x)
  }

  /** The hour, minute and second digits of a reading; hour 0 shows as 12 in 12-hour mode. */
  function FaceTime(mode: HourMode, x: int): Time {
    var h := x / 3600;
    Time(if mode == Twelve && h == 0 then 12 else h, (x / 60) % 60, x % 60)
  }

  lemma FaceTimeFits(mode: HourMode, x: int)
    requires 0 <= x < Period(mode)
    ensures IsNormal(mode, FaceTime(mode, x))
    ensures Reading(mode, FaceTime(mode, x)) == x
  {
    var t := FaceTime(mode, x);
    MixedRadix(x);
    assert x / 3600 < HourCycle(mode);
    if mode == Twelve && x / 3600 == 0 {
      assert WallSeconds(t) == 1 * Period(mode) + x;
      DivideExactly(WallSeconds(t), Period(mode), 1, x);
    } else {
      assert WallSeconds(t) == 0 * Period(mode) + x;
      DivideExactly(WallSeconds(t), Period(mode), 0, x);
    }
  }

  /** Splitting a count of seconds into hours, minutes and seconds. */
  lemma MixedRadix(x: int)
    requires x >= 0
    ensures x == (x / 3600) * 3600 + ((x / 60) % 60) * 60 + x % 60
  {
    var y := x / 60;
    assert x == y * 60 + x % 60;
    assert y == (y / 60) * 60 + y % 60;
    assert y / 60 == x / 3600;
  }

  /** Reading a normal time and turning the reading back into a time gives the time back. */
  lemma TimeAtReading(mode: HourMode, t: Time)
    requires IsNormal(mode, t)
    ensures TimeAt(mode, Reading(mode, t)) == t
  {
    var h := if mode == Twelve && t.hours == 12 then 0 else t.hours;
    var x := h * 3600 + t.minutes * 60 + t.seconds;
    assert 0 <= x < Period(mode);
    assert WallSeconds(t) == x || WallSeconds(t) == x + Period(mode);
    assert Reading(mode, t) == x;
    SplitSeconds(h, t.minutes, t.seconds);
  }

  /** The hour, minute and second of a count of seconds are its mixed-radix digits. */
  lemma SplitSeconds(h: int, m: int, s: int)
    requires h >= 0 && 0 <= m < 60 && 0 <= s < 60
    ensures (h * 3600 + m * 60 + s) / 3600 == h
    ensures ((h * 3600 + m * 60 + s) / 60) % 60 == m
    ensures (h * 3600 + m * 60 + s) % 60 == s
  {
    var x := h * 3600 + m * 60 + s;
    DivideExactly(x, 60, h * 60 + m, s);
    DivideExactly(h * 60 + m, 60, h, m);
    DivideExactly(x, 3600, h, m * 60 + s);
  }

  /** Two normal times with the same reading are the same time. */
  lemma ReadingDeterminesTime(mode: HourMode, a: Time, b: Time)
    requires IsNormal(mode, a) && IsNormal(mode, b)
    requires Reading(mode, a) == Reading(mode, b)
    ensures a == b
  {
    TimeAtReading(mode, a);
    TimeAtReading(mode, b);
  }

  /**
   One tick moves any admissible time to the normal time exactly eight
   seconds later on the clock face.
   */
  lemma TickIsEightSecondsLater(mode: HourMode, t: Time)
    requires Admissible(mode, t)
    ensures Tick(mode, t) == TimeAt(mode, (Reading(mode, t) + TickSeconds) % Period(mode))
  {
    var later := TimeAt(mode, (Reading(mode, t) + TickSeconds) % Period(mode));
    ReadingDeterminesTime(mode, Tick(mode, t), later);
  }

  /** In 24-hour mode a normal time's reading is its wall time, so a tick adds 8 s modulo a day. */
  lemma TickTwentyFour(t: Time)
    requires IsNormal(TwentyFour, t)
    ensures WallSeconds(Tick(TwentyFour, t)) == (WallSeconds(t) + TickSeconds) % 86400
  {
    var r := Tick(TwentyFour, t);
    assert Period(TwentyFour) == 86400;
    assert Reading(TwentyFour, r) == (Reading(TwentyFour, t) + TickSeconds) % 86400;
    DayReading(t);
    DayReading(r);
  }

  /** In 24-hour mode a normal time reads as its own wall time. */
  lemma DayReading(t: Time)
    requires IsNormal(TwentyFour, t)
    ensures Reading(TwentyFour, t) == WallSeconds(t)
  {
    DivideExactly(WallSeconds(t), 86400, 0, WallSeconds(t));
  }

  /** Worked ticks: across midnight in 24-hour mode, and across 11 and 12 o'clock in 12-hour mode. */
  lemma TickExamples()
    ensures Tick(TwentyFour, Time(23, 59, 55)) == Time(0, 0, 3)
    ensures Tick(Twelve, Time(11, 59, 55)) == Time(12, 0, 3)
    ensures Tick(Twelve, Time(12, 59, 55)) == Time(1, 0, 3)
  {
  }

  /** The carry worked through in the interrupt's comments: 12:58 and 2317 seconds is 1:36:37. */
  lemma CarryExample()
    ensures Normalise(Twelve, Time(12, 58, 2317)) == Time(1, 36, 37)
  {
  }

  /** The four-digit number `showTime` and `setTime` display: hours and minutes side by side. */
  function CombinedTime(t: Time): int {
    t.hours * 100 + t.minutes
  }

  /**
   For a normal time the combined number stays within four digits (and well
   inside a 16-bit `int`), and its hundreds and units split back into the hour
   and the minute.
   */
  lemma CombinedTimeSplits(mode: HourMode, t: Time)
    requires IsNormal(mode, t)
    ensures 0 <= CombinedTime(t) <= HourLimit(mode) * 100 + 59 <= 2359
    ensures CombinedTime(t) / 100 == t.hours
    ensures CombinedTime(t) % 100 == t.minutes
  {
  }
}
