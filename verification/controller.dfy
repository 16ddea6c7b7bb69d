/**
 The main loop and the interrupt handlers that drive it: the button
 interrupt raises `show_the_time`, the pin-change interrupt raises
 `led_on`, the timer interrupt advances the clock; `loop` then shows the
 time (and hands over to `setTime` if the button is still held) or runs the
 LED window. Pin reads are supplied as sequences of levels, `true` meaning
 the pin reads LOW (button pressed, touch pad touched); each time window of
 the source is a number of polls.
 */
module Controller {
  import opened CInt
  import opened Maybe
  import opened Clock
  import opened Segments
  import opened Display
  import opened TimeEditor

  /** The compile-time settings `TwelveHourMode` and `always_on`. */
  datatype Config = Config(mode: HourMode, alwaysOn: bool)

  /** The globals shared by the interrupts and the loop, and the latch of the LED pin. */
  datatype Watch = Watch(time: Time, showTheTime: bool, ledOn: bool, led: Level)

  /** The state `setup` hands to the loop: the power-on time, both flags clear, the LED low. */
  const PowerOn := Watch(PowerOnTime, false, false, Low)

  /**
   The loop starts from a normal time with no request pending, so the
   invariant `LoopKeepsNormal` and `InterruptsKeepNormal` carry holds from
   the first pass on.
   */
  lemma PowerOnIsNormal(mode: HourMode)
    ensures IsNormal(mode, PowerOn.time)
    ensures !PowerOn.showTheTime && !PowerOn.ledOn && PowerOn.led == Low
  {
  }

  /** `TIMER2_OVF_vect`: eight more seconds, normalised. */
  function OnTick(cfg: Config, w: Watch): (r: Watch)
    ensures Admissible(cfg.mode, w.time) ==> IsNormal(cfg.mode, r.time)
    ensures Reading(cfg.mode, r.time) == (Reading(cfg.mode, w.time) + TickSeconds) % Period(cfg.mode)
    ensures r.(time := w.time) == w
  {
    w.(time := Tick(cfg.mode, w.time))
  }

  /** `INT0_vect`, the falling edge of the button: request the time display. */
  function OnButton(w: Watch): (r: Watch)
    ensures r.showTheTime && r.(showTheTime := w.showTheTime) == w
  {
    w.(showTheTime := true)
  }

  /** `PCINT1_vect`, a change on the touch pin: request the LED window. */
  function OnPinChange(w: Watch): (r: Watch)
    ensures r.ledOn && r.(ledOn := w.ledOn) == w
  {
    w.(ledOn := true)
  }

  /** The interrupts keep the time normal and each touches only its own variable. */
  lemma InterruptsKeepNormal(cfg: Config, w: Watch)
    requires IsNormal(cfg.mode, w.time)
    ensures IsNormal(cfg.mode, OnTick(cfg, w).time)
    ensures Reading(cfg.mode, OnTick(cfg, w).time) == (Reading(cfg.mode, w.time) + TickSeconds) % Period(cfg.mode)
    ensures OnButton(w).showTheTime && OnButton(w).(showTheTime := w.showTheTime) == w
    ensures OnPinChange(w).ledOn && OnPinChange(w).(ledOn := w.ledOn) == w
  {
  }

  /**
   `while (digitalRead(pin) == LOW);`: the number of reads up to and
   including the first high one, or `None` if every supplied read is low.
   */
  function WaitRelease(s: seq<bool>): (r: Option<nat>)
    ensures r.Some? ==> 0 < r.value <= |s| && !s[r.value - 1] && forall j | 0 <= j < r.value - 1 :: s[j]
    ensures r.None? ==> forall j | 0 <= j < |s| :: s[j]
    decreases |s|
  {
    if |s| == 0 then None
    else if !s[0] then Some(1)
    else match WaitRelease(s[1..])
      case None => None
      case Some(k) => Some(k + 1)
  }

  /** The number of reads in `s` that find the line released (high). */
  function Releases(s: seq<bool>): nat {
    if |s| == 0 then 0 else (if s[0] then 0 else 1) + Releases(s[1..])
  }

  /** Counting releases distributes over joining two stretches of reads. */
  lemma {:induction false} ReleasesAppend(a: seq<bool>, b: seq<bool>)
    ensures Releases(a + b) == Releases(a) + Releases(b)
  {
    if |a| > 0 {
      assert (a + b)[1..] == a[1..] + b;
      ReleasesAppend(a[1..], b);
    } else {
      assert a + b == b;
    }
  }

  /**
   `WaitRelease` finds nothing exactly when no read is a release; otherwise
   the reads it consumes hold exactly one release, the last of them.
   */
  lemma {:induction false} WaitReleaseCounts(s: seq<bool>)
    ensures WaitRelease(s).None? <==> Releases(s) == 0
    ensures WaitRelease(s).Some? ==> var a := WaitRelease(s).value;
      Releases(s[..a]) == 1 && Releases(s) == 1 + Releases(s[a..])
    decreases |s|
  {
    if |s| > 0 {
      if !s[0] {
        assert s[..1][1..] == [];
        assert s[1..] == s[1..];
      } else {
        WaitReleaseCounts(s[1..]);
        match WaitRelease(s[1..])
        case None =>
        case Some(k) =>
          assert s[..k + 1][1..] == s[1..][..k];
          assert s[k + 1..] == s[1..][k..];
      }
    }
  }

  /** A release read at poll j after a press at an earlier poll: what ends `showTime` early. */
  predicate TapEndsAt(s: seq<bool>, j: int) {
    0 <= j < |s| && !s[j] && true in s[..j]
  }

  /**
   The loop of `showTime` from poll i, `hit` being `buttonPreviouslyHit`:
   each poll paints the time once and reads the button; the loop returns
   after the first release that follows a press, or when the window of
   `window` polls (or the supplied reads) is used up. The result is the
   number of polls made.
   */
  function ShowFrom(s: seq<bool>, window: nat, i: nat, hit: bool): (n: nat)
    requires i <= |s|
    ensures i <= n <= |s|
    ensures i <= window ==> n <= window
    decreases |s| - i
  {
    if i >= window || i == |s| then i
    else if s[i] then ShowFrom(s, window, i + 1, true)
    else if hit then i + 1
    else ShowFrom(s, window, i + 1, false)
  }

  /** `showTime()`: the number of display sweeps it makes on the button reads `s`. */
  function ShowTime(s: seq<bool>, window: nat): (n: nat)
    ensures n <= window && n <= |s|
    ensures 0 < window && 0 < |s| ==> 0 < n
  {
    ShowFrom(s, window, 0, false)
  }

  function Min(a: int, b: int): int {
    if a <= b then a else b
  }

  /**
   `showTime` runs for the whole window unless the button is pressed and
   then released inside it, in which case it returns at the first such
   release.
   */
  lemma ShowTimeEndsAtTap(s: seq<bool>, window: nat)
    ensures var n := ShowTime(s, window);
      && n <= Min(window, |s|)
      && (forall j | 0 <= j < n - 1 :: !TapEndsAt(s, j))
      && (n < Min(window, |s|) ==> n > 0 && TapEndsAt(s, n - 1))
  {
    ShowFromEndsAtTap(s, window, 0, false);
  }

  /** The invariant of the `showTime` loop: `buttonPreviouslyHit` records a press among the polls so far. */
  lemma {:induction false} ShowFromEndsAtTap(s: seq<bool>, window: nat, i: nat, hit: bool)
    requires i <= |s| && i <= window
    requires hit <==> true in s[..i]
    requires forall j | 0 <= j < i :: !TapEndsAt(s, j)
    ensures var n := ShowFrom(s, window, i, hit);
      && n <= Min(window, |s|)
      && (forall j | 0 <= j < n - 1 :: !TapEndsAt(s, j))
      && (n < Min(window, |s|) ==> n > 0 && TapEndsAt(s, n - 1))
    decreases |s| - i
  {
    if i < window && i < |s| {
      assert s[..i + 1] == s[..i] + [s[i]];
      if s[i] {
        assert !TapEndsAt(s, i);
        ShowFromEndsAtTap(s, window, i + 1, true);
      } else if !hit {
        assert !TapEndsAt(s, i);
        ShowFromEndsAtTap(s, window, i + 1, false);
      }
    }
  }

  /** The LED pin after `digitalWrite(led, !digitalRead(led))`. */
  function Toggle(l: Level): Level {
    if l == Low then High else Low
  }

  /** The LED window: every poll that reads the touch pin low toggles the LED. */
  function LedWindow(led: Level, touch: seq<bool>): (r: Level)
    ensures !(true in touch) ==> r == led
    decreases |touch|
  {
    if |touch| == 0 then led else LedWindow(if touch[0] then Toggle(led) else led, touch[1..])
  }

  /** The LED ends the window toggled exactly when an odd number of polls read low. */
  lemma {:induction false} LedParity(led: Level, touch: seq<bool>)
    ensures LedWindow(led, touch) == if multiset(touch)[true] % 2 == 0 then led else Toggle(led)
    decreases |touch|
  {
    if |touch| > 0 {
      assert touch == [touch[0]] + touch[1..];
      assert multiset(touch) == multiset{touch[0]} + multiset(touch[1..]);
      LedParity(if touch[0] then Toggle(led) else led, touch[1..]);
    }
  }

  /**
   The pin reads one pass of `loop` consumes: the button (debounce waits,
   `showTime`, the check for a held button, `setTime`) and the touch pin
   (release wait, LED window), with the number of polls that fit in the
   time windows of `showTime` and of the LED.
   */
  datatype Inputs = Inputs(button: seq<bool>, showPolls: nat, touch: seq<bool>, ledPolls: nat)

  /**
   One completed pass of `loop`: the state it leaves and the values passed to
   `displayNumber`, first by `showTime` and then by each cycle of `setTime`.
   */
  datatype Step = Step(watch: Watch, shown: seq<int>)

  /**
   The debounce before the time is shown: wait for the button to be
   released, wait 100 ms, wait for a release again. The result is the reads
   left afterwards, or `None` if the supplied reads run out first.
   */
  function Debounce(button: seq<bool>): (r: Option<seq<bool>>)
    ensures r.None? <==> Releases(button) < 2
    ensures r.Some? ==> |r.value| + 2 <= |button| && r.value == button[|button| - |r.value|..]
    ensures r.Some? ==> var k := |button| - |r.value|;
      Releases(button[..k]) == 2 && !button[k - 1]
  {
    WaitReleaseCounts(button);
    match WaitRelease(button)
    case None => None
    case Some(a) =>
      WaitReleaseCounts(button[a..]);
      match WaitRelease(button[a..])
      case None => None
      case Some(b) =>
        assert button[..a + b] == button[..a] + button[a..][..b];
        ReleasesAppend(button[..a], button[a..][..b]);
        Some(button[a + b..])
  }

  /**
   After `showTime`: drive the LED low, enter `setTime` if the next read
   finds the button pressed, clear both flags. `painted` records what
   `showTime` displayed and `after` holds the reads left once it has
   returned; `None` if they run out first.
   */
  function AfterShow(cfg: Config, w: Watch, painted: seq<int>, after: seq<bool>): Option<Step> {
    if |after| == 0 then None
    else if !after[0] then Some(Step(Watch(w.time, false, false, Low), painted))
    else
      var session := Run(cfg.mode, Start(w.time), after[1..]);
      if Running(session.final) then None
      else Some(Step(Watch(session.final.time, false, false, Low), painted + session.shown))
  }

  /**
   The record of `showTime` making `sweeps` sweeps: the combined time, once,
   if it painted the display at all.
   */
  function Painted(w: Watch, sweeps: nat): seq<int> {
    if sweeps > 0 then [CombinedTime(w.time)] else []
  }

  /**
   The time branch: debounce, show the time with the LED high, then
   `AfterShow`. `None` when the supplied reads run out first.
   */
  function ShowBranch(cfg: Config, w: Watch, button: seq<bool>, showPolls: nat): Option<Step> {
    match Debounce(button)
    case None => None
    case Some(rest) =>
      var sweeps := ShowTime(rest, showPolls);
      AfterShow(cfg, w, Painted(w, sweeps), rest[sweeps..])
  }

  /**
   The touch polls of the LED window: the `ledPolls` reads after the first
   release of the touch pad. `None` when no release leaves that many reads.
   */
  function LedPolls(touch: seq<bool>, ledPolls: nat): (r: Option<seq<bool>>)
    ensures r.None? <==> forall j | 0 <= j < |touch| && !touch[j] :: |touch| - j - 1 < ledPolls
    ensures r.Some? ==> exists j | 0 <= j < |touch| && !touch[j] ::
      && (forall i | 0 <= i < j :: touch[i])
      && j + 1 + ledPolls <= |touch| && r.value == touch[j + 1..j + 1 + ledPolls]
  {
    match WaitRelease(touch)
    case None => None
    case Some(a) =>
      if |touch| - a < ledPolls then None
      else
        assert !touch[a - 1];
        Some(touch[a..a + ledPolls])
  }

  /** The LED branch: toggle the LED on every low poll of the window, then clear `led_on`. */
  function LedBranch(w: Watch, touch: seq<bool>, ledPolls: nat): Option<Step> {
    match LedPolls(touch, ledPolls)
    case None => None
    case Some(polls) => Some(Step(w.(ledOn := false, led := LedWindow(w.led, polls)), []))
  }

  /**
   The body of `loop` after the processor wakes: the time branch when a
   button press was flagged or the display is always on, else the LED
   branch when a touch was flagged, else nothing.
   */
  function LoopBody(cfg: Config, w: Watch, input: Inputs): (r: Option<Step>)
    ensures r.Some? ==> !r.value.watch.showTheTime || !(w.showTheTime || w.ledOn || cfg.alwaysOn)
    ensures r.Some? ==> !r.value.watch.ledOn || !(w.showTheTime || w.ledOn || cfg.alwaysOn)
    ensures r.Some? && !(w.showTheTime || w.ledOn || cfg.alwaysOn) ==> r.value == Step(w, [])
  {
    if w.showTheTime || cfg.alwaysOn then ShowBranch(cfg, w, input.button, input.showPolls)
    else if w.ledOn then LedBranch(w, input.touch, input.ledPolls)
    else Some(Step(w, []))
  }

  /** With no flag raised and the display not always on, a pass of the loop changes and shows nothing. */
  lemma IdlePassChangesNothing(cfg: Config, w: Watch, input: Inputs)
    requires !w.showTheTime && !w.ledOn && !cfg.alwaysOn
    ensures LoopBody(cfg, w, input) == Some(Step(w, []))
  {
  }

  /**
   A wake by the timer alone advances the clock and nothing else: the pass
   of the loop that follows it shows nothing and changes nothing.
   */
  lemma TickOnlyWake(cfg: Config, w: Watch, input: Inputs)
    requires !w.showTheTime && !w.ledOn && !cfg.alwaysOn
    ensures LoopBody(cfg, OnTick(cfg, w), input) == Some(Step(OnTick(cfg, w), []))
    ensures OnTick(cfg, w).(time := w.time) == w
  {
  }

  /**
   The time branch takes precedence over a pending LED request: it first
   shows the current time, and leaves the LED low with both flags cleared.
   */
  lemma ShowBeatsLed(cfg: Config, w: Watch, input: Inputs)
    requires w.showTheTime || cfg.alwaysOn
    ensures var r := LoopBody(cfg, w, input);
      r.Some? ==>
        && !r.value.watch.showTheTime && !r.value.watch.ledOn
        && r.value.watch.led == Low
        && (input.showPolls > 0 ==> |r.value.shown| > 0 && r.value.shown[0] == CombinedTime(w.time))
  {
  }

  /**
   The LED branch toggles the LED once per low poll of the window, so it
   ends at the initial level exactly when the number of low polls is even;
   the time and the display request are untouched and `led_on` is cleared.
   */
  lemma LedBranchParity(cfg: Config, w: Watch, input: Inputs)
    requires !w.showTheTime && !cfg.alwaysOn && w.ledOn
    ensures var r := LoopBody(cfg, w, input);
      r.Some? ==>
        && LedPolls(input.touch, input.ledPolls).Some?
        && var lows := multiset(LedPolls(input.touch, input.ledPolls).value)[true];
        && r.value.watch == w.(ledOn := false, led := if lows % 2 == 0 then w.led else Toggle(w.led))
        && r.value.shown == []
  {
    match LedPolls(input.touch, input.ledPolls)
    case None =>
    case Some(polls) =>
      LedParity(w.led, polls);
  }

  /**
   When a pass of the loop completes. The idle pass always does. The LED
   branch does unless every release of the touch pad leaves fewer reads than
   the window needs. The time branch does unless the debounce finds fewer
   than two releases, `showTime` uses up the reads, or the button is held on
   leaving it and no prefix of the later reads brings `setTime` to its exit.
   */
  lemma LoopBodyCompletes(cfg: Config, w: Watch, input: Inputs)
    ensures LoopBody(cfg, w, input).None? <==>
      if w.showTheTime || cfg.alwaysOn then
        || Releases(input.button) < 2
        || (var rest := Debounce(input.button).value;
            var n := ShowTime(rest, input.showPolls);
            || n == |rest|
            || (rest[n] && NeverExpires(rest[n + 1..])))
      else
        w.ledOn && forall j | 0 <= j < |input.touch| && !input.touch[j] :: |input.touch| - j - 1 < input.ledPolls
  {
    if w.showTheTime || cfg.alwaysOn {
      ShowBranchCompletes(cfg, w, input.button, input.showPolls);
    }
  }

  /** The time-branch half of `LoopBodyCompletes`. */
  lemma ShowBranchCompletes(cfg: Config, w: Watch, button: seq<bool>, showPolls: nat)
    ensures ShowBranch(cfg, w, button, showPolls).None? <==>
      || Releases(button) < 2
      || (var rest := Debounce(button).value;
          var n := ShowTime(rest, showPolls);
          || n == |rest|
          || (rest[n] && NeverExpires(rest[n + 1..])))
  {
    match Debounce(button)
    case None =>
    case Some(rest) =>
      var n := ShowTime(rest, showPolls);
      var r := AfterShow(cfg, w, Painted(w, n), rest[n..]);
      assert ShowBranch(cfg, w, button, showPolls) == r;
      AfterShowEffect(cfg, w, Painted(w, n), rest[n..]);
      if n < |rest| {
        assert rest[n..][1..] == rest[n + 1..];
        assert r.None? <==> rest[n] && NeverExpires(rest[n + 1..]);
      }
  }

  /** `shown` is what `setTime`, entered with the time `t`, displays on its first `u` cycles over the levels `s`. */
  predicate SessionShows(mode: HourMode, t: Time, s: seq<bool>, u: nat, shown: seq<int>)
    requires u <= |s|
  {
    |shown| == u && forall i | 0 <= i < u :: shown[i] == CombinedTime(Normalise(mode, Steps(mode, Start(t), s[..i]).time))
  }

  /**
   `setTime`, entered with the time `t`, finishes on the levels `s` with the
   time `t'` after showing `shown`: it runs the cycles of the shortest
   expired prefix of `s`.
   */
  predicate EditedTo(mode: HourMode, t: Time, s: seq<bool>, t': Time, shown: seq<int>) {
    exists u: nat | u <= |s| :: ExitsAfter(s, u) && t' == Steps(mode, Start(t), s[..u]).time && SessionShows(mode, t, s, u, shown)
  }

  /**
   What the time branch does once `showTime` has returned with the reads
   `after` left. With none left the pass does not complete. A release
   leaves the time as it was and adds nothing to what was shown. A press
   enters `setTime`: the pass completes exactly when some prefix of the
   later reads has expired, and then the time is the one that editing
   session reached on the shortest such prefix and each of its cycles
   showed the time it started from.
   */
  lemma AfterShowEffect(cfg: Config, w: Watch, painted: seq<int>, after: seq<bool>)
    ensures var r := AfterShow(cfg, w, painted, after);
      r.None? <==> |after| == 0 || (after[0] && NeverExpires(after[1..]))
    ensures var r := AfterShow(cfg, w, painted, after);
      r.Some? && !after[0] ==> r.value == Step(w.(showTheTime := false, ledOn := false, led := Low), painted)
    ensures var r := AfterShow(cfg, w, painted, after);
      r.Some? && after[0] ==>
        && !r.value.watch.showTheTime && !r.value.watch.ledOn && r.value.watch.led == Low
        && r.value.shown[..|painted|] == painted
        && EditedTo(cfg.mode, w.time, after[1..], r.value.watch.time, r.value.shown[|painted|..])
  {
    if |after| > 0 && after[0] {
      var s := after[1..];
      var session := Run(cfg.mode, Start(w.time), s);
      SessionEnds(cfg.mode, w.time, s);
      if !Running(session.final) {
        RunIsLoop(cfg.mode, Start(w.time), s);
        RunShows(cfg.mode, Start(w.time), s);
        var shown := (painted + session.shown)[|painted|..];
        assert shown == session.shown;
        assert SessionShows(cfg.mode, w.time, s, session.used, shown);
        assert EditedTo(cfg.mode, w.time, s, session.final.time, shown);
      }
    }
  }

  /**
   Over a completed pass of the time branch the debounce found its two
   releases and `showTime` returned with reads left; if the next read finds
   the button released, the time is kept and only `showTime`'s frame was
   shown.
   */
  lemma ReleaseKeepsTime(cfg: Config, w: Watch, input: Inputs)
    requires w.showTheTime || cfg.alwaysOn
    ensures var r := LoopBody(cfg, w, input);
      r.Some? ==>
        && Debounce(input.button).Some?
        && var rest := Debounce(input.button).value;
        && var n := ShowTime(rest, input.showPolls);
        && n < |rest|
        && (!rest[n] ==> r.value.watch.time == w.time && r.value.shown == Painted(w, n))
  {
    match Debounce(input.button)
    case None =>
    case Some(rest) =>
      var n := ShowTime(rest, input.showPolls);
      assert LoopBody(cfg, w, input) == AfterShow(cfg, w, Painted(w, n), rest[n..]);
      AfterShowEffect(cfg, w, Painted(w, n), rest[n..]);
  }

  /**
   If the read after `showTime` finds the button held, a completed pass of
   the time branch leaves the time `setTime` reached on the shortest expired
   prefix of the reads after it, and the frames shown are `showTime`'s
   followed by one per cycle of that session.
   */
  lemma PressEditsTime(cfg: Config, w: Watch, input: Inputs)
    requires w.showTheTime || cfg.alwaysOn
    ensures var r := LoopBody(cfg, w, input);
      r.Some? ==>
        && Debounce(input.button).Some?
        && var rest := Debounce(input.button).value;
        && var n := ShowTime(rest, input.showPolls);
        && n < |rest|
        && (rest[n] ==>
          && r.value.shown[..|Painted(w, n)|] == Painted(w, n)
          && EditedTo(cfg.mode, w.time, rest[n + 1..], r.value.watch.time, r.value.shown[|Painted(w, n)|..]))
  {
    match Debounce(input.button)
    case None =>
    case Some(rest) =>
      var n := ShowTime(rest, input.showPolls);
      var painted := Painted(w, n);
      var r := AfterShow(cfg, w, painted, rest[n..]);
      assert LoopBody(cfg, w, input) == r;
      AfterShowEffect(cfg, w, painted, rest[n..]);
      if r.Some? && rest[n] {
        assert rest[n..][1..] == rest[n + 1..];
        assert EditedTo(cfg.mode, w.time, rest[n + 1..], r.value.watch.time, r.value.shown[|painted|..]);
      }
  }

  /**
   A pass of the loop keeps the time normal, whether or not it went through
   `setTime`, and every value it shows is a time of at most 2359.
   */
  lemma LoopKeepsNormal(cfg: Config, w: Watch, input: Inputs)
    requires IsNormal(cfg.mode, w.time)
    ensures var r := LoopBody(cfg, w, input);
      r.Some? ==>
        && IsNormal(cfg.mode, r.value.watch.time)
        && forall i | 0 <= i < |r.value.shown| :: 0 <= r.value.shown[i] <= 2359
  {
    if w.showTheTime || cfg.alwaysOn {
      match Debounce(input.button)
      case None =>
      case Some(rest) =>
        var sweeps := ShowTime(rest, input.showPolls);
        CombinedTimeSplits(cfg.mode, w.time);
        AfterShowKeepsNormal(cfg, w, Painted(w, sweeps), rest[sweeps..]);
    }
  }

  /** The end of the time branch returns a normal time and shows only times. */
  lemma AfterShowKeepsNormal(cfg: Config, w: Watch, painted: seq<int>, after: seq<bool>)
    requires IsNormal(cfg.mode, w.time)
    requires forall i | 0 <= i < |painted| :: 0 <= painted[i] <= 2359
    ensures var r := AfterShow(cfg, w, painted, after);
      r.Some? ==>
        && IsNormal(cfg.mode, r.value.watch.time)
        && forall i | 0 <= i < |r.value.shown| :: 0 <= r.value.shown[i] <= 2359
  {
    if |after| > 0 && after[0] {
      var session := Run(cfg.mode, Start(w.time), after[1..]);
      ExitTimeIsNormal(cfg.mode, w.time, after[1..]);
      ShownIsTime(cfg.mode, w.time, after[1..]);
      TimesJoined(painted, session.shown);
    }
  }

  /** Two records of times joined are a record of times. */
  lemma TimesJoined(a: seq<int>, b: seq<int>)
    requires forall i | 0 <= i < |a| :: 0 <= a[i] <= 2359
    requires forall i | 0 <= i < |b| :: 0 <= b[i] <= 2359
    ensures forall i | 0 <= i < |a + b| :: 0 <= (a + b)[i] <= 2359
  {
    assert forall i | |a| <= i < |a + b| :: (a + b)[i] == b[i - |a|];
  }

  /**
   What `showTime` puts on the face for a normal time: the tens of the hour
   in position 1, dark when the hour has one digit, the units of the hour in
   position 2, and the two minute digits in positions 3 and 4.
   */
  lemma TimeOnFace(mode: HourMode, t: Time, l: Lines)
    requires IsNormal(mode, t) && l.lit == {}
    ensures var r := DisplayNumber(CombinedTime(t), true, l);
      && r.frames[0].lit == Glyph(t.minutes % 10)
      && r.frames[1].lit == Glyph(t.minutes / 10)
      && r.frames[2].lit == Glyph(t.hours % 10)
      && r.frames[3].lit == (if t.hours < 10 then {} else Glyph(t.hours / 10))
      && (r.frames[3].lit == {} <==> t.hours < 10)
      && ReadNumber(r) == Some(CombinedTime(t))
  {
    var c := CombinedTime(t);
    CombinedTimeSplits(mode, t);
    DisplayNumberShows(c, true, l);
    DisplayNumberThousands(c, true, l);
    DisplayNumberReadsBack(c, true, l);
    HundredsOfTime(c, t.hours, t.minutes);
  }

  /** The digits of hours * 100 + minutes are those of the hours followed by those of the minutes. */
  lemma HundredsOfTime(c: int, h: int, m: int)
    requires 0 <= h <= 23 && 0 <= m < 60 && c == h * 100 + m
    ensures c % 10 == m % 10 && (c / 10) % 10 == m / 10
    ensures (c / 100) % 10 == h % 10 && (c / 1000) % 10 == h / 10 && c % 10000 == c
  {
    DivideExactly(c, 10, h * 10 + m / 10, m % 10);
    DivideExactly(c / 10, 10, h, m / 10);
    DivideExactly(c, 100, h, m);
    DivideExactly(c, 1000, h / 10, (h % 10) * 100 + m);
    DivideExactly(h / 10, 10, 0, h / 10);
    DivideExactly(c, 10000, 0, c);
  }
}
