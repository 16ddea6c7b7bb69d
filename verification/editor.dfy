/**
 The time-setting mode `setTime`: while the button is held the minutes
 advance, one per cycle for the first nine held cycles and then in jumps to
 the next multiple of ten; two seconds without a press end the mode. Each
 cycle normalises the time, shows it for twenty display sweeps, then reads
 the button once. The model replaces the clock of the source (each cycle
 counts as 200 ms of inactivity) by the sequence of button levels read at
 the end of successive cycles, `true` meaning pressed (the pin reads LOW).
 */
module TimeEditor {
  import opened CInt
  import opened Clock

  /** `idleMiliseconds` at which the loop stops. */
  const IdleLimit := 2000

  /** What one cycle adds to `idleMiliseconds`. */
  const IdleStep := 200

  /** The hold count from which a press jumps to the next ten minutes. */
  const FastHold := 10

  /** The time globals together with the locals `idleMiliseconds` and `buttonHold`. */
  datatype Editor = Editor(time: Time, idle: int, hold: int)

  /** Both locals start at 0. */
  function Start(t: Time): Editor {
    Editor(t, 0, 0)
  }

  /** The loop condition `idleMiliseconds < 2000`. */
  predicate Running(e: Editor) {
    e.idle < IdleLimit
  }

  /**
   The fast branch: `minutes /= 10; minutes *= 10; minutes += 10`. For a
   non-negative value it is the smallest multiple of ten above it.
   */
  function NextTen(m: int): (r: int)
    ensures m >= 0 ==> r % 10 == 0 && m < r && r - 10 <= m
  {
    Quot(m, 10) * 10 + 10
  }

  /** The minutes after a press, given the hold count the press has just raised. */
  function Advanced(m: int, hold: int): int {
    if hold < FastHold then m + 1 else NextTen(m)
  }

  /**
   One pass of the loop body: normalise the time, show it, then read the
   button. A press restarts the idle count at one step, counts the hold and
   advances the minutes; a release resets the hold and adds a step of idle
   time. Only the minutes can move away from the normalised time.
   */
  function Cycle(mode: HourMode, e: Editor, pressed: bool): (r: Editor)
    ensures pressed ==> r.idle == IdleStep && r.hold == e.hold + 1
    ensures !pressed ==> r.idle == e.idle + IdleStep && r.hold == 0 && r.time == Normalise(mode, e.time)
    ensures Admissible(mode, e.time) ==> Admissible(mode, r.time)
  {
    var t := Normalise(mode, e.time);
    if pressed then
      Editor(t.(minutes := Advanced(t.minutes, e.hold + 1)), 0 + IdleStep, e.hold + 1)
    else
      Editor(t, e.idle + IdleStep, 0)
  }

  /**
   The first nine held cycles each move the clock face on by exactly one
   minute, whatever carry into the hour or wrap of the hour that implies.
   */
  lemma SlowPressAddsMinute(mode: HourMode, e: Editor)
    requires e.hold + 1 < FastHold
    ensures Reading(mode, Cycle(mode, e, true).time) == (Reading(mode, e.time) + 60) % Period(mode)
  {
    var t := Normalise(mode, e.time);
    assert WallSeconds(Cycle(mode, e, true).time) == WallSeconds(t) + 60;
    AddToReading(mode, WallSeconds(t), 60);
  }

  /**
   From the tenth held cycle on, a press sets the minutes of the normalised
   time to the next multiple of ten, moving the face on by the difference.
   */
  lemma FastPressJumpsToTen(mode: HourMode, e: Editor)
    requires Admissible(mode, e.time)
    requires e.hold + 1 >= FastHold
    ensures var m := Normalise(mode, e.time).minutes;
      var r := Cycle(mode, e, true).time.minutes;
      && r % 10 == 0 && m < r && r - 10 <= m
      && Reading(mode, Cycle(mode, e, true).time) == (Reading(mode, e.time) + (r - m) * 60) % Period(mode)
  {
    var t := Normalise(mode, e.time);
    var r := Cycle(mode, e, true).time;
    assert WallSeconds(r) == WallSeconds(t) + (r.minutes - t.minutes) * 60;
    AddToReading(mode, WallSeconds(t), (r.minutes - t.minutes) * 60);
  }

  /** A release leaves the clock face where it was. */
  lemma ReleaseKeepsReading(mode: HourMode, e: Editor)
    ensures Reading(mode, Cycle(mode, e, false).time) == Reading(mode, e.time)
    ensures Cycle(mode, e, false).hold == 0
  {
  }

  /** The worked example of the fast branch: 46 minutes become 50. */
  lemma NextTenExample()
    ensures NextTen(46) == 50 && NextTen(50) == 60 && NextTen(0) == 10
  {
  }

  /** The state after the loop body has run once for each level in `p`, ignoring the loop condition. */
  function Steps(mode: HourMode, e: Editor, p: seq<bool>): Editor
    decreases |p|
  {
    if |p| == 0 then e else Steps(mode, Cycle(mode, e, p[0]), p[1..])
  }

  /** Running one more cycle after `p` is one more application of `Cycle`. */
  lemma {:induction false} StepsSnoc(mode: HourMode, e: Editor, p: seq<bool>, b: bool)
    ensures Steps(mode, e, p + [b]) == Cycle(mode, Steps(mode, e, p), b)
    decreases |p|
  {
    if |p| == 0 {
      assert (p + [b])[1..] == [];
    } else {
      assert (p + [b])[1..] == p[1..] + [b];
      StepsSnoc(mode, Cycle(mode, e, p[0]), p[1..], b);
    }
  }

  /** The number of presses at the end of `p`. */
  function TrailingPresses(p: seq<bool>): nat
    decreases |p|
  {
    if |p| == 0 || !p[|p| - 1] then 0 else 1 + TrailingPresses(p[..|p| - 1])
  }

  /** The number of releases at the end of `p`. */
  function TrailingReleases(p: seq<bool>): nat
    decreases |p|
  {
    if |p| == 0 || p[|p| - 1] then 0 else 1 + TrailingReleases(p[..|p| - 1])
  }

  /**
   The idle count after the cycles of `p`, stated from the button history:
   the releases since the last press plus the step of the press itself, or
   every cycle when there was no press at all.
   */
  function IdleAfter(p: seq<bool>): int {
    if true in p then IdleStep * (1 + TrailingReleases(p)) else IdleStep * |p|
  }

  /**
   After any history of levels, `buttonHold` counts the presses since the
   last release and `idleMiliseconds` is as `IdleAfter` says.
   */
  lemma {:induction false} Counters(mode: HourMode, t: Time, p: seq<bool>)
    ensures Steps(mode, Start(t), p).hold == TrailingPresses(p)
    ensures Steps(mode, Start(t), p).idle == IdleAfter(p)
    decreases |p|
  {
    if |p| > 0 {
      var q, b := p[..|p| - 1], p[|p| - 1];
      assert p == q + [b];
      StepsSnoc(mode, Start(t), q, b);
      Counters(mode, t, q);
      assert true in p <==> b || true in q;
    }
  }

  /**
   The exit rule of the mode, stated from the button history: nine
   releases in a row after a press, or ten cycles with no press at all.
   */
  predicate Expired(p: seq<bool>) {
    if true in p then TrailingReleases(p) >= 9 else |p| >= 10
  }

  /** The loop condition fails after the cycles of `p` exactly when `p` has expired. */
  lemma StopsWhenExpired(mode: HourMode, t: Time, p: seq<bool>)
    ensures !Running(Steps(mode, Start(t), p)) <==> Expired(p)
  {
    Counters(mode, t, p);
  }

  /** The cycles of a history keep the time admissible. */
  lemma {:induction false} StepsAdmissible(mode: HourMode, e: Editor, p: seq<bool>)
    requires Admissible(mode, e.time)
    ensures Admissible(mode, Steps(mode, e, p).time)
    decreases |p|
  {
    if |p| > 0 {
      StepsAdmissible(mode, Cycle(mode, e, p[0]), p[1..]);
    }
  }

  /**
   A session of the editor: the state it ends in, how many button levels
   it consumed, and the value shown during each cycle.
   */
  datatype Session = Session(final: Editor, used: nat, shown: seq<int>)

  /**
   `setTime` run on the levels `s`, stopping at the loop condition or when
   the levels run out (the button history supplied is finite).
   */
  function Run(mode: HourMode, e: Editor, s: seq<bool>): (r: Session)
    ensures r.used <= |s| && |r.shown| == r.used
    decreases |s|
  {
    if !Running(e) || |s| == 0 then Session(e, 0, [])
    else
      var rest := Run(mode, Cycle(mode, e, s[0]), s[1..]);
      Session(rest.final, rest.used + 1, [CombinedTime(Normalise(mode, e.time))] + rest.shown)
  }

  /** Splitting off the first level of a prefix. */
  lemma StepsFront(mode: HourMode, e: Editor, s: seq<bool>, n: nat)
    requires n < |s|
    ensures Steps(mode, e, s[..n + 1]) == Steps(mode, Cycle(mode, e, s[0]), s[1..][..n])
  {
    assert s[..n + 1][1..] == s[1..][..n];
  }

  /**
   `Run` is the loop: it performs the cycles of the shortest prefix after
   which the loop condition fails, or all the levels if there is none.
   */
  lemma RunIsLoop(mode: HourMode, e: Editor, s: seq<bool>)
    ensures var r := Run(mode, e, s);
      && r.final == Steps(mode, e, s[..r.used])
      && (forall n | 0 <= n < r.used :: Running(Steps(mode, e, s[..n])))
      && (r.used < |s| ==> !Running(r.final))
  {
    RunFinal(mode, e, s);
    RunKeepsRunning(mode, e, s);
    RunStopsEarly(mode, e, s);
  }

  /** The state `Run` ends in is the fold of the cycles it performed. */
  lemma {:induction false} RunFinal(mode: HourMode, e: Editor, s: seq<bool>)
    ensures var r := Run(mode, e, s);
      r.final == Steps(mode, e, s[..r.used])
    decreases |s|
  {
    if Running(e) && |s| > 0 {
      var next := Cycle(mode, e, s[0]);
      RunFinal(mode, next, s[1..]);
      StepsFront(mode, e, s, Run(mode, next, s[1..]).used);
    }
  }

  /** Every cycle `Run` performed started with the loop condition true. */
  lemma {:induction false} RunKeepsRunning(mode: HourMode, e: Editor, s: seq<bool>)
    ensures var r := Run(mode, e, s);
      forall n | 0 <= n < r.used :: Running(Steps(mode, e, s[..n]))
    decreases |s|
  {
    var r := Run(mode, e, s);
    if Running(e) && |s| > 0 {
      var next := Cycle(mode, e, s[0]);
      RunKeepsRunning(mode, next, s[1..]);
      forall n | 0 < n < r.used ensures Running(Steps(mode, e, s[..n])) {
        StepsFront(mode, e, s, n - 1);
      }
    }
  }

  /** `Run` stops before the levels run out only when the loop condition has failed. */
  lemma {:induction false} RunStopsEarly(mode: HourMode, e: Editor, s: seq<bool>)
    ensures var r := Run(mode, e, s);
      r.used < |s| ==> !Running(r.final)
    decreases |s|
  {
    if Running(e) && |s| > 0 {
      RunStopsEarly(mode, Cycle(mode, e, s[0]), s[1..]);
    }
  }

  /** Each cycle of `Run` shows the time it starts from, normalised and combined. */
  lemma {:induction false} RunShows(mode: HourMode, e: Editor, s: seq<bool>)
    ensures var r := Run(mode, e, s);
      forall i | 0 <= i < r.used :: r.shown[i] == CombinedTime(Normalise(mode, Steps(mode, e, s[..i]).time))
    decreases |s|
  {
    var r := Run(mode, e, s);
    if Running(e) && |s| > 0 {
      var next := Cycle(mode, e, s[0]);
      RunShows(mode, next, s[1..]);
      forall i | 0 < i < r.used
        ensures r.shown[i] == CombinedTime(Normalise(mode, Steps(mode, e, s[..i]).time))
      {
        StepsFront(mode, e, s, i - 1);
      }
    }
  }

  /**
   `setTime` entered with a fresh editor ends after exactly the first
   prefix of the button history that has expired: nine releases after the
   last press, or ten cycles if the button was never pressed.
   */
  lemma ExitsWhenExpired(mode: HourMode, t: Time, s: seq<bool>)
    ensures var r := Run(mode, Start(t), s);
      && (forall n | 0 <= n < r.used :: !Expired(s[..n]))
      && (r.used < |s| ==> Expired(s[..r.used]))
      && (Expired(s[..r.used]) <==> !Running(r.final))
  {
    var r := Run(mode, Start(t), s);
    RunIsLoop(mode, Start(t), s);
    forall n | 0 <= n < r.used ensures !Expired(s[..n]) {
      StopsWhenExpired(mode, t, s[..n]);
    }
    StopsWhenExpired(mode, t, s[..r.used]);
  }

  /**
   An expired history ends on a release, so the last cycle left the time
   as its normalisation produced it: the mode always returns a normal time.
   */
  lemma ExitTimeIsNormal(mode: HourMode, t: Time, s: seq<bool>)
    requires Admissible(mode, t)
    ensures var r := Run(mode, Start(t), s);
      !Running(r.final) ==> IsNormal(mode, r.final.time)
  {
    var r := Run(mode, Start(t), s);
    RunIsLoop(mode, Start(t), s);
    var p := s[..r.used];
    if !Running(r.final) {
      assert |p| > 0;
      var q, b := p[..|p| - 1], p[|p| - 1];
      assert p == q + [b];
      StepsSnoc(mode, Start(t), q, b);
      StepsAdmissible(mode, Start(t), q);
    }
  }

  /**
   Every value the mode shows is a normal time combined as hours * 100 +
   minutes, so it never exceeds 2359 and splits back into its hour and
   minute.
   */
  lemma ShownIsTime(mode: HourMode, t: Time, s: seq<bool>)
    requires Admissible(mode, t)
    ensures var r := Run(mode, Start(t), s);
      forall i | 0 <= i < r.used :: 0 <= r.shown[i] <= 2359
  {
    var r := Run(mode, Start(t), s);
    RunShows(mode, Start(t), s);
    forall i | 0 <= i < r.used ensures 0 <= r.shown[i] <= 2359 {
      StepsAdmissible(mode, Start(t), s[..i]);
      CombinedTimeSplits(mode, Normalise(mode, Steps(mode, Start(t), s[..i]).time));
    }
  }

  /** `u` is the length of the shortest prefix of `s` that has expired. */
  predicate ExitsAfter(s: seq<bool>, u: nat) {
    u <= |s| && Expired(s[..u]) && forall k | 0 <= k < u :: !Expired(s[..k])
  }

  /** No prefix of the levels `s`, `s` itself included, has expired. */
  predicate NeverExpires(s: seq<bool>) {
    forall k | 0 <= k <= |s| :: !Expired(s[..k])
  }

  /**
   `setTime` entered with a fresh editor finishes on the levels `s` exactly
   when some prefix of them has expired, and then it has consumed the
   shortest such prefix.
   */
  lemma SessionEnds(mode: HourMode, t: Time, s: seq<bool>)
    ensures var r := Run(mode, Start(t), s);
      && (Running(r.final) <==> NeverExpires(s))
      && (!Running(r.final) ==> ExitsAfter(s, r.used))
  {
    var r := Run(mode, Start(t), s);
    ExitsWhenExpired(mode, t, s);
    if Running(r.final) {
      assert r.used == |s|;
      forall k | 0 <= k <= |s| ensures !Expired(s[..k]) {
        if k == |s| {
          assert s[..k] == s[..r.used];
        }
      }
    }
  }
}
