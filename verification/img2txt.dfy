/** img2txt: a grayscale image becomes `num_rows` lines of `num_cols` glyphs,
    written to a text file one line per row. */
module Img2Txt {
  import opened Raster
  import opened CellSampler
  import opened GlyphRamp
  import opened BrightnessMapper
  import opened GlyphGrid

  /** The grid of `convert_image_to_ascii`: cells twice as tall as wide, or the
      6x12 grid when too many columns are asked for. */
  function TextLayout(width: nat, height: nat, numCols: nat): (g: Layout)
    requires width >= 1 && numCols >= 1
    ensures g == FittedLayout(width, height, numCols, 2.0)
    ensures numCols <= width ==> g.cols == numCols && g.cellHeight == 2.0 * g.cellWidth &&
                                 g.rows as real * g.cellHeight <= height as real < g.rows as real * g.cellHeight + g.cellHeight
    ensures numCols > width ==> g.cellWidth == 6.0 && g.cellHeight == 12.0 && g.cols == width / 6 && g.rows == height / 12
  {
    FittedLayout(width, height, numCols, 2.0)
  }

  /** With the grid above, the nested loops can sample the image. */
  lemma TextLayoutSampleable(img: seq<seq<int>>, ramp: string, numCols: nat)
    requires IsGray(img) && |ramp| >= 1 && numCols >= 1
    ensures Sampleable(img, ramp, TextLayout(Width(img), |img|, numCols))
  {
    FittedSampleable(img, ramp, numCols, 2.0);
  }

  /** `convert_image_to_ascii`: for each row, the line built glyph by glyph,
      appended to the list of lines. */
  method ConvertImageToAscii(img: seq<seq<int>>, ramp: string, numCols: nat) returns (art: seq<string>)
    requires IsGray(img) && |ramp| >= 1 && numCols >= 1
    ensures Sampleable(img, ramp, TextLayout(Width(img), |img|, numCols))
    ensures art == TextGrid(img, ramp, TextLayout(Width(img), |img|, numCols), Fractional)
  {
    var g := TextLayout(Width(img), |img|, numCols);
    TextLayoutSampleable(img, ramp, numCols);
    ghost var grid := TextGrid(img, ramp, g, Fractional);
    art := [];
    var i := 0;
    while i < g.rows
      invariant 0 <= i <= g.rows
      invariant art == grid[..i]
    {
      var row := BuildLine(img, ramp, g, Fractional, i);
      assert grid[..i + 1] == grid[..i] + [row];
      art := art + [row];
      i := i + 1;
    }
    assert grid[..g.rows] == grid;
  }

  /** The text file contents: each line followed by a line break, in order. */
  function Serialized(lines: seq<string>): (text: string)
    ensures |text| >= |lines|
    decreases |lines|
  {
    if |lines| == 0 then "" else lines[0] + "\n" + Serialized(lines[1..])
  }

  /** Writing one more line appends it and its break to the file. */
  lemma {:induction false} SerializedAppend(lines: seq<string>, line: string)
    ensures Serialized(lines + [line]) == Serialized(lines) + line + "\n"
    decreases |lines|
  {
    if |lines| > 0 {
      assert (lines + [line])[1..] == lines[1..] + [line];
      SerializedAppend(lines[1..], line);
    }
  }

  /** `save_ascii_art` without the file: `write(row + "\n")` for each row. */
  method SaveAsciiArt(art: seq<string>) returns (text: string)
    ensures text == Serialized(art)
  {
    text := "";
    var i := 0;
    while i < |art|
      invariant 0 <= i <= |art|
      invariant text == Serialized(art[..i])
    {
      SerializedAppend(art[..i], art[i]);
      assert art[..i + 1] == art[..i] + [art[i]];
      text := text + art[i] + "\n";
      i := i + 1;
    }
    assert art[..|art|] == art;
  }

  /** The position of the first line break in `text`, or `|text|` if none. */
  function FirstBreak(text: string): (k: nat)
    ensures k <= |text|
    ensures k < |text| ==> text[k] == '\n'
    ensures forall i :: 0 <= i < k ==> text[i] != '\n'
    decreases |text|
  {
    if |text| == 0 || text[0] == '\n' then 0 else 1 + FirstBreak(text[1..])
  }

  /** Reading a text file back line by line, each line without its break; a
      final line lacking a break still counts. */
  function Lines(text: string): (lines: seq<string>)
    ensures |text| == 0 <==> |lines| == 0
    decreases |text|
  {
    if |text| == 0 then []
    else
      var k := FirstBreak(text);
      [text[..k]] + (if k < |text| then Lines(text[k + 1..]) else [])
  }

  /** A line without breaks ends at the break appended to it. */
  lemma {:induction false} BreakAfterLine(line: string, rest: string)
    requires '\n' !in line
    ensures FirstBreak(line + "\n" + rest) == |line|
    decreases |line|
  {
    if |line| > 0 {
      assert (line + "\n" + rest)[1..] == line[1..] + "\n" + rest;
      BreakAfterLine(line[1..], rest);
    }
  }

  /** Reading the file back gives the lines written, whenever no line holds a
      line break. */
  lemma {:induction false} SerializedRoundTrip(lines: seq<string>)
    requires forall i :: 0 <= i < |lines| ==> '\n' !in lines[i]
    ensures Lines(Serialized(lines)) == lines
    decreases |lines|
  {
    if |lines| > 0 {
      var text := Serialized(lines);
      var rest := Serialized(lines[1..]);
      assert text == lines[0] + "\n" + rest;
      BreakAfterLine(lines[0], rest);
      assert text[..|lines[0]|] == lines[0];
      assert text[|lines[0]| + 1..] == rest;
      SerializedRoundTrip(lines[1..]);
    }
  }

  /** The glyphs of the text grid come from the ramp. */
  lemma GridGlyphsFromRamp(img: seq<seq<int>>, ramp: string, g: Layout, rule: IndexRule, i: nat)
    requires IsGray(img) && Sampleable(img, ramp, g) && i < g.rows
    ensures forall c :: c in TextGrid(img, ramp, g, rule)[i] ==> c in ramp
  {
    var row := TextGrid(img, ramp, g, rule)[i];
    forall c | c in row ensures c in ramp {
      var j :| 0 <= j < |row| && row[j] == c;
      assert c == ramp[CellIndex(img, ramp, g, rule, i, j)];
    }
  }

  /** The text file img2txt writes for either mode reads back as exactly the
      grid computed: `num_rows` lines of `num_cols` glyphs. */
  lemma {:induction false} TextFileRoundTrip(img: seq<seq<int>>, mode: string, numCols: nat)
    requires IsGray(img) && numCols >= 1
    ensures var ramp := GetCharList(mode);
            var g := TextLayout(Width(img), |img|, numCols);
            Sampleable(img, ramp, g) &&
            Lines(Serialized(TextGrid(img, ramp, g, Fractional))) == TextGrid(img, ramp, g, Fractional) &&
            |TextGrid(img, ramp, g, Fractional)| == g.rows &&
            forall i :: 0 <= i < g.rows ==> |TextGrid(img, ramp, g, Fractional)[i]| == g.cols
  {
    var ramp := GetCharList(mode);
    var g := TextLayout(Width(img), |img|, numCols);
    TextLayoutSampleable(img, ramp, numCols);
    var grid := TextGrid(img, ramp, g, Fractional);
    forall i | 0 <= i < |grid| ensures '\n' !in grid[i] {
      GridGlyphsFromRamp(img, ramp, g, Fractional, i);
    }
    SerializedRoundTrip(grid);
  }

  /** An image of uniform mid-gray 128 in simple mode comes out as `=`
      everywhere: index `int(128 * 10 / 255) = 5`. */
  lemma {:induction false} UniformMidGraySimple(img: seq<seq<int>>, numCols: nat)
    requires IsGray(img) && numCols >= 1
    requires UniformBlock(img, 0, |img|, 0, Width(img), 128)
    ensures var g := TextLayout(Width(img), |img|, numCols);
            Sampleable(img, GetCharList("simple"), g) &&
            forall i, j :: 0 <= i < g.rows && 0 <= j < g.cols ==>
              TextGrid(img, GetCharList("simple"), g, Fractional)[i][j] == '='
  {
    var ramp := GetCharList("simple");
    var g := TextLayout(Width(img), |img|, numCols);
    TextLayoutSampleable(img, ramp, numCols);
    UniformTextGrid(img, ramp, g, Fractional, 128);
    MidGrayIndex();
    assert GlyphIndex(128 as real, |ramp|, Fractional) == 5;
  }
}
