/**
 The segment encoder `lightNumber`: for one symbol code it drives a fixed
 set of the seven segment lines. The lines are active-low, so a lit segment
 is a line pulled low.
 */
module Segments {
  import opened Maybe

  /**
   The seven segments of one cell:
      A
    F   B
      G
    E   C
      D
   */
  datatype Segment = A | B | C | D | E | F | G

  /** The level of an output line. */
  datatype Level = Low | High

  /** Segment polarity: a segment lights when its line is low. */
  const SegmentOn: Level := Low
  const SegmentOff: Level := High

  const AllSegments: set<Segment> := {A, B, C, D, E, F, G}

  /** `AllSegments` names every segment. */
  lemma EverySegment(s: Segment)
    ensures s in AllSegments
  {
    match s
    case A => case B => case C => case D => case E => case F => case G =>
  }

  /** The code `displayNumber` passes to clear the cell between positions. */
  const BlankCode := 10

  /**
   The shape each lighting case of the encoder's switch draws, keyed by the
   code: the digits 0 to 9 and the letters of the start-up message.
   */
  const Shapes: map<int, set<Segment>> := map[
    0 := {A, B, C, D, E, F},
    1 := {B, C},
    2 := {A, B, D, E, G},
    3 := {A, B, C, D, G},
    4 := {B, C, F, G},
    5 := {A, C, D, F, G},
    6 := {A, C, D, E, F, G},
    7 := {A, B, C},
    8 := {A, B, C, D, E, F, G},
    9 := {A, B, C, D, F, G},
    'Z' as int := {A, B, C, D, E, F, G},
    'A' as int := {A, B, C, E, F, G},
    'b' as int := {C, D, E, F, G},
    'L' as int := {D, E, F},
    'u' as int := {C, D, E},
    'g' as int := {A, B, C, D, F, G},
    'r' as int := {E, G},
    'R' as int := {A, B, E, F},
    'S' as int := {A, C, D, F, G},
    'K' as int := {A, C, E, F, G},
    'n' as int := {C, E, G},
    'e' as int := {A, D, E, F, G},
    'd' as int := {B, C, D, E, G},
    'y' as int := {B, C, D, F, G},
    'o' as int := {C, D, E, G}
  ]

  /** The codes whose case turns every segment off rather than lighting some. */
  predicate IsBlank(code: int) {
    code == BlankCode || code == ' ' as int
  }

  /** Every code the encoder's switch names; any other code falls through it. */
  const KnownCodes: set<int> := Shapes.Keys + {BlankCode, ' ' as int}

  /** The pin writes that light exactly `segs`. */
  function Light(segs: set<Segment>): (w: map<Segment, Level>)
    ensures w.Keys == segs
    ensures forall s | s in w :: w[s] == SegmentOn
  {
    map s | s in segs :: SegmentOn
  }

  /** The pin writes that turn every segment off. */
  function Clear(): (w: map<Segment, Level>)
    ensures w.Keys == AllSegments
    ensures forall s | s in w :: w[s] == SegmentOff
  {
    map s | s in AllSegments :: SegmentOff
  }

  /**
   `lightNumber`: the writes the switch performs for one code. A lighting
   case pulls its shape's lines low and leaves the others alone; the blank
   codes drive all seven lines high; a code with no case writes nothing.
   */
  function LightNumber(code: int): (w: map<Segment, Level>)
    ensures w == map[] <==> code !in KnownCodes
    ensures IsBlank(code) ==> w == Clear()
    ensures !IsBlank(code) ==> forall s | s in w :: w[s] == SegmentOn
  {
    if IsBlank(code) then Clear()
    else if code in Shapes then
      assert Shapes[code] != {};
      Light(Shapes[code])
    else map[]
  }

  /** The segments a code lights: its shape, or none for a blank or unknown code. */
  function Glyph(code: int): (lit: set<Segment>)
    ensures lit <= AllSegments
  {
    if !IsBlank(code) && code in Shapes then Shapes[code] else {}
  }

  /** The lines `lightNumber` pulls low are exactly the code's glyph. */
  lemma GlyphIsLit(code: int)
    ensures Glyph(code) == set s | s in LightNumber(code) && LightNumber(code)[s] == SegmentOn
  {
    var w := LightNumber(code);
    if IsBlank(code) {
      assert forall s :: s in w ==> w[s] == SegmentOff;
    }
  }

  /** A code lights nothing exactly when it is a blank code or has no case. */
  lemma GlyphEmpty(code: int)
    ensures Glyph(code) == {} <==> code !in KnownCodes || IsBlank(code)
  {
  }

  /** The lit segments as a 7-bit pattern, segment A in bit 0 up to segment G in bit 6. */
  function Pattern(lit: set<Segment>): (p: int)
    ensures 0 <= p < 128
  {
    (if A in lit then 1 else 0) + (if B in lit then 2 else 0) + (if C in lit then 4 else 0)
    + (if D in lit then 8 else 0) + (if E in lit then 16 else 0) + (if F in lit then 32 else 0)
    + (if G in lit then 64 else 0)
  }

  /**
   Reading a digit off a lit cell, the way a person looking at the watch
   would: the standard seven-segment shapes of 0 to 9, as bit patterns.
   */
  function ReadDigit(lit: set<Segment>): Option<int> {
    match Pattern(lit)
    case 0x3F => Some(0)
    case 0x06 => Some(1)
    case 0x5B => Some(2)
    case 0x4F => Some(3)
    case 0x66 => Some(4)
    case 0x6D => Some(5)
    case 0x7D => Some(6)
    case 0x07 => Some(7)
    case 0x7F => Some(8)
    case 0x6F => Some(9)
    case _ => None
  }

  /** Every decimal digit lights at least one segment. */
  lemma DigitsLight(d: int)
    requires 0 <= d <= 9
    ensures Glyph(d) != {}
  {
  }

  /** Every digit the encoder draws reads back as that digit, so no two digits look alike. */
  lemma DigitsReadBack(d: int)
    requires 0 <= d <= 9
    ensures ReadDigit(Glyph(d)) == Some(d)
  {
    if d < 5 {
      LowDigitsReadBack(d);
    } else {
      HighDigitsReadBack(d);
    }
  }

  lemma LowDigitsReadBack(d: int)
    requires 0 <= d <= 4
    ensures ReadDigit(Glyph(d)) == Some(d)
  {
    if d == 0 {
      assert Pattern(Glyph(0)) == 0x3F;
    } else if d == 1 {
      assert Pattern(Glyph(1)) == 0x06;
    } else if d == 2 {
      assert Pattern(Glyph(2)) == 0x5B;
    } else if d == 3 {
      assert Pattern(Glyph(3)) == 0x4F;
    } else {
      assert Pattern(Glyph(4)) == 0x66;
    }
  }

  lemma HighDigitsReadBack(d: int)
    requires 5 <= d <= 9
    ensures ReadDigit(Glyph(d)) == Some(d)
  {
    if d == 5 {
      assert Pattern(Glyph(5)) == 0x6D;
    } else if d == 6 {
      assert Pattern(Glyph(6)) == 0x7D;
    } else if d == 7 {
      assert Pattern(Glyph(7)) == 0x07;
    } else if d == 8 {
      assert Pattern(Glyph(8)) == 0x7F;
    } else {
      assert Pattern(Glyph(9)) == 0x6F;
    }
  }

  /** Digit and blank entries of the table worth stating on their own. */
  lemma GlyphTable()
    ensures Glyph(1) == {B, C}
    ensures Glyph(8) == AllSegments
    ensures LightNumber(BlankCode) == LightNumber(' ' as int) == Clear()
  {
  }

  /** Three letters of the start-up message, as the code draws them. */
  lemma LetterGlyphs()
    ensures Glyph('Z' as int) == AllSegments
    ensures Glyph('A' as int) == {A, B, C, E, F, G}
    ensures Glyph('R' as int) == {A, B, E, F}
  {
  }

  /** Three letters of the start-up message share a digit's shape: 'Z' is an 8, 'g' a 9, 'S' a 5. */
  lemma LettersThatReadAsDigits()
    ensures ReadDigit(Glyph('Z' as int)) == Some(8)
    ensures ReadDigit(Glyph('g' as int)) == Some(9)
    ensures ReadDigit(Glyph('S' as int)) == Some(5)
  {
    assert Glyph('Z' as int) == Glyph(8);
    assert Glyph('g' as int) == Glyph(9);
    assert Glyph('S' as int) == Glyph(5);
    DigitsReadBack(8);
    DigitsReadBack(9);
    DigitsReadBack(5);
  }

  /** 'A' and 'R' of the message read as no digit at all. */
  lemma LettersThatReadAsNoDigit()
    ensures ReadDigit(Glyph('A' as int)) == None
    ensures ReadDigit(Glyph('R' as int)) == None
  {
    assert Pattern(Glyph('A' as int)) == 0x77;
    assert Pattern(Glyph('R' as int)) == 0x33;
  }
}
