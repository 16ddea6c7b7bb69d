/**
 The display driver: one multiplex sweep over the four digit positions,
 either of a number (`displayNumber`) or of four characters
 (`displayLetters`). The model follows the output latches of the eleven
 display lines and records their state while each position dwells.
 */
module Display {
  import opened CInt
  import opened Maybe
  import opened Segments

  /** The four digit positions, 1 leftmost (thousands) to 4 rightmost (units). */
  datatype Position = P1 | P2 | P3 | P4

  /** Digit-select polarity: a position is selected when its line is high. */
  const DigitOn: Level := High
  const DigitOff: Level := Low

  const AllPositions: set<Position> := {P1, P2, P3, P4}

  /**
   The output latches of the eleven display lines. Every line sits at one of
   two levels, so the latches are recorded as the segment lines at the lit
   level and the digit-select lines at the selected level.
   */
  datatype Lines = Lines(lit: set<Segment>, selected: set<Position>)

  /** `AllPositions` names every position. */
  lemma EveryPosition(p: Position)
    ensures p in AllPositions
  {
    match p
    case P1 => case P2 => case P3 => case P4 =>
  }

  /** Deselecting every position leaves none selected. */
  lemma AllPositionsCover(ps: set<Position>)
    ensures ps - AllPositions == {}
  {
    forall p | p in ps ensures p in AllPositions {
      EveryPosition(p);
    }
  }

  /** Nothing lit and nothing selected: no current flows through the display. */
  predicate Dark(l: Lines) {
    l.lit == {} && l.selected == {}
  }

  /** The one dark latch state. */
  const AllOff := Lines({}, {})

  /**
   `lightNumber(code)` acting on the latches: a blank code turns every
   segment off, any other code adds its glyph to what is lit; the
   digit-select lines are untouched.
   */
  function Draw(l: Lines, code: int): Lines {
    l.(lit := if IsBlank(code) then {} else l.lit + Glyph(code))
  }

  /**
   `Draw` is what the pin writes of `lightNumber` do to the segment latches:
   a written line takes the written level, every other line keeps its own.
   */
  lemma DrawLatches(l: Lines, code: int)
    ensures Draw(l, code).selected == l.selected
    ensures forall s: Segment :: s in Draw(l, code).lit <==>
      if s in LightNumber(code) then LightNumber(code)[s] == SegmentOn else s in l.lit
  {
    GlyphIsLit(code);
    forall s: Segment ensures s in Draw(l, code).lit <==>
      if s in LightNumber(code) then LightNumber(code)[s] == SegmentOn else s in l.lit
    {
      EverySegment(s);
    }
  }

  /** `digitalWrite(digitN, DIGIT_ON)`. */
  function Select(l: Lines, p: Position): Lines {
    l.(selected := l.selected + {p})
  }

  /** `digitalWrite(digitN, DIGIT_OFF)` for every position in `ps`. */
  function Deselect(l: Lines, ps: set<Position>): Lines {
    l.(selected := l.selected - ps)
  }

  /** The position a loop counter value 1 to 4 selects. */
  function PositionAt(k: int): Position
    requires 1 <= k <= 4
  {
    if k == 1 then P1 else if k == 2 then P2 else if k == 3 then P3 else P4
  }

  /**
   One sweep: `frames[i]` is the latch state while the i-th position of the
   sweep dwells, `after[i]` the state once that position has been cleaned up.
   */
  datatype Sweep = Sweep(frames: seq<Lines>, after: seq<Lines>)

  /** `toDisplay` after the loop has divided it by ten n times, truncating as C does. */
  function Remaining(v: int, n: nat): (r: int)
    ensures v >= 0 ==> 0 <= r <= v
    decreases n
  {
    if n == 0 then v else Quot(Remaining(v, n - 1), 10)
  }

  /** The decimal digit `displayNumber` draws in the i-th position it visits (units first). */
  function DigitAt(v: int, i: nat): (d: int)
    ensures v >= 0 ==> 0 <= d <= 9
  {
    Rem(Remaining(v, i), 10)
  }

  /** What position k lights for digit d: a zero is suppressed only in position 1. */
  function Shown(k: int, d: int): set<Segment> {
    if k > 1 || d != 0 then Glyph(d) else {}
  }

  /**
   The latches while position k dwells: the position is selected and, unless
   it is position 1 showing a zero, the units digit of what is left is drawn.
   */
  function Dwell(k: int, v: int, l: Lines): (r: Lines)
    requires 1 <= k <= 4
    ensures r.selected == l.selected + {PositionAt(k)}
    ensures r.lit == l.lit + Shown(k, Rem(v, 10))
  {
    var on := Select(l, PositionAt(k));
    if k > 1 || Rem(v, 10) != 0 then Draw(on, Rem(v, 10)) else on
  }

  /** The latches once a number position is done: segments blanked, every position deselected. */
  function Blanked(frame: Lines): (r: Lines)
    ensures r == AllOff
  {
    var r := Deselect(Draw(frame, BlankCode), AllPositions);
    AllPositionsCover(frame.selected);
    r
  }

  /**
   `displayNumber(toDisplay, displayColon)`: the loop over positions 4, 3, 2,
   1, each visited with what is left of the value after the divisions so
   far. The colon flag is never read. Every position is cleaned up before
   the next one is selected, so the display is dark between positions and
   after the sweep.
   */
  function DisplayNumber(v: int, colon: bool, l: Lines): (r: Sweep)
    ensures |r.frames| == |r.after| == 4
    ensures forall i | 0 <= i < 4 :: Dark(r.after[i])
  {
    var f4 := Dwell(4, Remaining(v, 0), l);
    var f3 := Dwell(3, Remaining(v, 1), Blanked(f4));
    var f2 := Dwell(2, Remaining(v, 2), Blanked(f3));
    var f1 := Dwell(1, Remaining(v, 3), Blanked(f2));
    Sweep([f4, f3, f2, f1], [Blanked(f4), Blanked(f3), Blanked(f2), Blanked(f1)])
  }

  /**
   What one `displayNumber` sweep of a non-negative value shows in positions
   4, 3 and 2: its units, tens and hundreds digits, each always drawn. Only
   the first frame can carry over segments or positions left on by the
   caller.
   */
  lemma DisplayNumberShows(v: int, colon: bool, l: Lines)
    requires v >= 0
    ensures var r := DisplayNumber(v, colon, l);
      && r.frames[0].selected == l.selected + {P4}
      && r.frames[0].lit == l.lit + Glyph(v % 10)
      && r.frames[1].selected == {P3} && r.frames[1].lit == Glyph((v / 10) % 10)
      && r.frames[2].selected == {P2} && r.frames[2].lit == Glyph((v / 100) % 10)
  {
    NumberFrame(v, colon, l, 0);
    NumberFrame(v, colon, l, 1);
    NumberFrame(v, colon, l, 2);
    DecimalDigits(v);
  }

  /** Position 1 shows the thousands digit of a non-negative value and is dark exactly when that digit is 0. */
  lemma DisplayNumberThousands(v: int, colon: bool, l: Lines)
    requires v >= 0
    ensures var r := DisplayNumber(v, colon, l);
      && r.frames[3].selected == {P1}
      && r.frames[3].lit == (if (v / 1000) % 10 == 0 then {} else Glyph((v / 1000) % 10))
      && (r.frames[3].lit == {} <==> (v / 1000) % 10 == 0)
  {
    NumberFrame(v, colon, l, 3);
    DecimalDigits(v);
    DigitsLight((v / 1000) % 10);
  }

  /** The colon flag makes no difference to what a sweep does. */
  lemma DisplayNumberIgnoresColon(v: int, l: Lines)
    ensures DisplayNumber(v, true, l) == DisplayNumber(v, false, l)
  {
  }

  /**
   The i-th frame of a sweep: position 4 - i selected and lighting the
   digit left after i divisions. Only the first frame starts from the
   caller's latches; every later one starts dark.
   */
  lemma NumberFrame(v: int, colon: bool, l: Lines, i: nat)
    requires i < 4
    ensures var start := if i == 0 then l else AllOff;
      && DisplayNumber(v, colon, l).frames[i].selected == start.selected + {PositionAt(4 - i)}
      && DisplayNumber(v, colon, l).frames[i].lit == start.lit + Shown(4 - i, DigitAt(v, i))
  {
    var r := DisplayNumber(v, colon, l);
    if i == 0 {
      assert r.frames[0] == Dwell(4, Remaining(v, 0), l);
    } else {
      assert r.frames[i] == Dwell(4 - i, Remaining(v, i), AllOff);
    }
  }

  /** `DigitAt` of a non-negative value is its ordinary decimal digit. */
  lemma DecimalDigits(v: int)
    requires v >= 0
    ensures DigitAt(v, 0) == v % 10
    ensures DigitAt(v, 1) == (v / 10) % 10
    ensures DigitAt(v, 2) == (v / 100) % 10
    ensures DigitAt(v, 3) == (v / 1000) % 10
  {
    NonNegativeDivision(v, 10);
    NonNegativeDivision(v / 10, 10);
    NonNegativeDivision(v / 100, 10);
    NonNegativeDivision(v / 1000, 10);
    DivideExactly(v, 100, (v / 10) / 10, v - ((v / 10) / 10) * 100);
    DivideExactly(v, 1000, (v / 100) / 10, v - ((v / 100) / 10) * 1000);
    assert Remaining(v, 1) == v / 10;
    assert Remaining(v, 2) == v / 100;
    assert Remaining(v, 3) == v / 1000;
  }

  /**
   Reading the digit in position k the way a person would: the standard
   shape of a digit, where a dark position 1 reads as a leading 0.
   */
  function ReadPosition(k: int, lit: set<Segment>): Option<int> {
    if k == 1 && lit == {} then Some(0) else ReadDigit(lit)
  }

  /** The number four decimal digits spell, units first. */
  function Spell(u: int, t: int, h: int, th: int): int {
    1000 * th + 100 * h + 10 * t + u
  }

  /** Reading a number off a sweep: every position must read as a digit. */
  function ReadNumber(r: Sweep): Option<int>
    requires |r.frames| == 4
  {
    match (ReadPosition(4, r.frames[0].lit), ReadPosition(3, r.frames[1].lit),
           ReadPosition(2, r.frames[2].lit), ReadPosition(1, r.frames[3].lit))
    case (Some(u), Some(t), Some(h), Some(th)) => Some(Spell(u, t, h, th))
    case _ => None
  }

  /**
   A sweep of a non-negative value started with no segment lit reads back
   as the value's last four decimal digits.
   */
  lemma DisplayNumberReadsBack(v: int, colon: bool, l: Lines)
    requires v >= 0 && l.lit == {}
    ensures ReadNumber(DisplayNumber(v, colon, l)) == Some(v % 10000)
  {
    FrameReads(v, colon, l, 0);
    FrameReads(v, colon, l, 1);
    FrameReads(v, colon, l, 2);
    FrameReads(v, colon, l, 3);
    Spelled(DisplayNumber(v, colon, l), DigitAt(v, 0), DigitAt(v, 1), DigitAt(v, 2), DigitAt(v, 3));
    DecimalExpansion(v);
  }

  /** A sweep whose positions read as four digits reads as the number they spell. */
  lemma Spelled(r: Sweep, u: int, t: int, h: int, th: int)
    requires |r.frames| == 4
    requires ReadPosition(4, r.frames[0].lit) == Some(u) && ReadPosition(3, r.frames[1].lit) == Some(t)
    requires ReadPosition(2, r.frames[2].lit) == Some(h) && ReadPosition(1, r.frames[3].lit) == Some(th)
    ensures ReadNumber(r) == Some(Spell(u, t, h, th))
  {
  }

  /** Each frame of a sweep of a non-negative value, started unlit, reads as the digit drawn there. */
  lemma FrameReads(v: int, colon: bool, l: Lines, i: nat)
    requires v >= 0 && l.lit == {} && i < 4
    ensures ReadPosition(4 - i, DisplayNumber(v, colon, l).frames[i].lit) == Some(DigitAt(v, i))
  {
    NumberFrame(v, colon, l, i);
    var lit := DisplayNumber(v, colon, l).frames[i].lit;
    assert lit == Shown(4 - i, DigitAt(v, i));
    ShownReads(4 - i, DigitAt(v, i));
  }

  /** What a position shows reads back as the digit it was given. */
  lemma ShownReads(k: int, d: int)
    requires 1 <= k <= 4 && 0 <= d <= 9
    ensures ReadPosition(k, Shown(k, d)) == Some(d)
  {
    if k > 1 || d != 0 {
      DigitsReadBack(d);
    }
  }

  /** The last four decimal digits of a non-negative value, written out. */
  lemma DecimalExpansion(v: int)
    requires v >= 0
    ensures v % 10000 == Spell(DigitAt(v, 0), DigitAt(v, 1), DigitAt(v, 2), DigitAt(v, 3))
  {
    DecimalDigits(v);
    var a, b, c, d := v % 10, (v / 10) % 10, (v / 100) % 10, (v / 1000) % 10;
    var q := (v / 1000) / 10;
    assert v == 10 * (v / 10) + a;
    assert v / 10 == 10 * (v / 100) + b by {
      DivideExactly(v, 100, (v / 10) / 10, v - ((v / 10) / 10) * 100);
    }
    assert v / 100 == 10 * (v / 1000) + c by {
      DivideExactly(v, 1000, (v / 100) / 10, v - ((v / 100) / 10) * 1000);
    }
    assert v / 1000 == 10 * q + d;
    assert v == 10000 * q + (1000 * d + 100 * c + 10 * b + a);
    DivideExactly(v, 10000, q, 1000 * d + 100 * c + 10 * b + a);
  }

  /** `digitalWrite(digitN, DIGIT_ON)` then `lightNumber(code)` for one letter position. */
  function Letter(p: Position, c: char, l: Lines): Lines {
    Draw(Select(l, p), c as int)
  }

  /**
   The latches once a letter position is done: segments blanked and
   positions 1 to 3 deselected. Position 4 is not written here.
   */
  function Cleared(frame: Lines): Lines {
    Deselect(Draw(frame, BlankCode), {P1, P2, P3})
  }

  /**
   `displayLetters(colorName)`: position 4 is deselected once, then
   positions 1 to 4 each show one character, left to right. The function
   reads exactly four characters of the string.
   */
  function DisplayLetters(text: seq<char>, l: Lines): (r: Sweep)
    requires |text| >= 4
    ensures |r.frames| == |r.after| == 4
  {
    var f1 := Letter(P1, text[0], Deselect(l, {P4}));
    var f2 := Letter(P2, text[1], Cleared(f1));
    var f3 := Letter(P3, text[2], Cleared(f2));
    var f4 := Letter(P4, text[3], Cleared(f3));
    Sweep([f1, f2, f3, f4], [Cleared(f1), Cleared(f2), Cleared(f3), Cleared(f4)])
  }

  /**
   Each letter position starts dark: after positions 1 to 3 the display is
   dark, and the sweep ends with no segment lit but position 4 still
   selected, because the clean-up never deselects it.
   */
  lemma DisplayLettersAfter(text: seq<char>, l: Lines)
    requires |text| >= 4
    ensures var r := DisplayLetters(text, l);
      && Dark(r.after[0]) && Dark(r.after[1]) && Dark(r.after[2])
      && r.after[3] == Lines({}, {P4})
  {
    var r := DisplayLetters(text, l);
    AllPositionsCover(l.selected);
    assert r.after[0].selected == {};
  }

  /**
   What one `displayLetters` sweep shows: character j in position j + 1,
   left justified. Only the first frame can carry over segments left lit
   by the caller; a blank character lights nothing.
   */
  lemma DisplayLettersShows(text: seq<char>, l: Lines)
    requires |text| >= 4
    ensures var r := DisplayLetters(text, l);
      && r.frames[0].selected == (l.selected - {P4}) + {P1}
      && r.frames[0].lit == (if IsBlank(text[0] as int) then {} else l.lit + Glyph(text[0] as int))
      && r.frames[1].selected == {P2} && r.frames[1].lit == Glyph(text[1] as int)
      && r.frames[2].selected == {P3} && r.frames[2].lit == Glyph(text[2] as int)
      && r.frames[3].selected == {P4} && r.frames[3].lit == Glyph(text[3] as int)
  {
    DisplayLettersAfter(text, l);
  }
}
