/** The glyph ramps: ordered glyph sequences from densest to blankest, one of
    which is chosen once per run. */
module GlyphRamp {

  /** The 10-glyph ramp of the "simple" mode. */
  const SimpleRamp: string := "@%#*+=-:. "

  /** The 70-glyph ramp used for every other mode, written ten glyphs at a time. */
  const ComplexRamp: string :=
    "$@B%8&WM#*" + "oahkbdpqwm" + "ZO0QLCJUYX" + "zcvunxrjft" +
    "/\\|()1{}[]" + "?-_+~<>i!l" + "I;:,\"^`'. "

  /** A usable ramp: at least two glyphs, none of them a line break, ending in
      the blank glyph that stands for full brightness. */
  predicate WellFormed(ramp: string) {
    |ramp| >= 2 && '\n' !in ramp && ramp[|ramp| - 1] == ' '
  }

  /** `get_char_list(mode)`: the short ramp for "simple", the long one otherwise. */
  function GetCharList(mode: string): (r: string)
    ensures WellFormed(r)
    ensures mode == "simple" ==> |r| == 10 && r[0] == '@' && r[5] == '='
    ensures mode != "simple" ==> |r| == 70 && r[0] == '$'
  {
    if mode == "simple" then SimpleRamp else ComplexRamp
  }
}
