/**
 * The integer layout of `add_text_to_image`: the wrapping width, the height of
 * the text block, where it starts, where each line is centred and how far the
 * pen moves down after it, and the five draws per line (a black outline at the
 * four diagonal offsets, then the white text).
 *
 * The font enters only through `font(s)`, the box `font.getbbox(s)` returns;
 * the image only through its width and height. Drawing is recorded as the
 * sequence of `draw.text` calls made, in order.
 */
module Layout {
  import opened Text
  import opened Wrap

  /** `font.getbbox(s)`: left, top, right and bottom, in pixels. */
  datatype BBox = BBox(left: int, top: int, right: int, bottom: int)

  datatype Color = Black | White

  /** One `draw.text((x, y), line, font=font, fill=color)` call. */
  datatype Draw = Draw(x: int, y: int, line: string, color: Color)

  /** Margin kept free on the left and on the right of the text. */
  const Padding: int := 55

  /** Gap added below every line. */
  const LinePadding: int := 30

  /** How far the block is moved down from its computed start. */
  const StartShift: int := 20

  /** Where the outline copies are drawn, relative to the text. */
  const StrokeOffsets: seq<(int, int)> := [(-5, -5), (-5, 5), (5, -5), (5, 5)]

  function TextWidth(font: string -> BBox, s: string): int {
    font(s).right - font(s).left
  }

  function LineHeight(font: string -> BBox, s: string): int {
    font(s).bottom - font(s).top
  }

  /** The width function the wrapper measures with. */
  function Measure(font: string -> BBox): string -> int {
    s => TextWidth(font, s)
  }

  /** `max_width`: the image width less the padding on both sides. */
  function MaxWidth(imageWidth: int): int {
    imageWidth - 2 * Padding
  }

  /** `text_height`: the sum of the heights of the lines. */
  function TotalHeight(font: string -> BBox, lines: seq<string>): int {
    if lines == [] then 0
    else TotalHeight(font, lines[..|lines| - 1]) + LineHeight(font, lines[|lines| - 1])
  }

  /** How far the pen has moved down after drawing `lines`. */
  function Advance(font: string -> BBox, lines: seq<string>): int {
    if lines == [] then 0
    else Advance(font, lines[..|lines| - 1]) + LineHeight(font, lines[|lines| - 1]) + LinePadding
  }

  /** The first `y_position`; `//` by 3 is floor division, which Dafny's `/` by a positive divisor is too. */
  function StartY(imageHeight: int, font: string -> BBox, lines: seq<string>): int {
    imageHeight / 3 - (TotalHeight(font, lines) / 3 - StartShift)
  }

  /** `x_position` of a line: the left margin that centres it, rounded down. */
  function CenteredX(imageWidth: int, font: string -> BBox, line: string): (x: int)
    ensures var right := imageWidth - (x + TextWidth(font, line));
      x <= right <= x + 1
  {
    (imageWidth - TextWidth(font, line)) / 2
  }

  /** The black draws at the first |offsets| stroke offsets around (x, y). */
  function Outline(line: string, x: int, y: int, offsets: seq<(int, int)>): (draws: seq<Draw>)
    ensures |draws| == |offsets|
  {
    if offsets == [] then []
    else
      var o := offsets[|offsets| - 1];
      Outline(line, x, y, offsets[..|offsets| - 1]) + [Draw(x + o.0, y + o.1, line, Black)]
  }

  /** The draws for one line placed at (x, y). */
  function LineDraws(line: string, x: int, y: int): (draws: seq<Draw>)
    ensures |draws| == 5
  {
    Outline(line, x, y, StrokeOffsets) + [Draw(x, y, line, White)]
  }

  /** The draws for `lines` when the first is placed at height `y0`. */
  function Placed(imageWidth: int, font: string -> BBox, lines: seq<string>, y0: int): (draws: seq<Draw>)
    ensures |draws| == 5 * |lines|
  {
    if lines == [] then []
    else
      var n := |lines|;
      var line := lines[n - 1];
      Placed(imageWidth, font, lines[..n - 1], y0)
        + LineDraws(line, CenteredX(imageWidth, font, line), y0 + Advance(font, lines[..n - 1]))
  }

  /** The wrapped lines `add_text_to_image` lays out for an image `imageWidth` wide. */
  function TextLines(imageWidth: int, text: string, font: string -> BBox): seq<string> {
    Wrapped(text, Measure(font), MaxWidth(imageWidth))
  }

  /** Everything `add_text_to_image` draws on an image of the given size. */
  function Rendered(imageWidth: int, imageHeight: int, text: string, font: string -> BBox): seq<Draw> {
    var lines := TextLines(imageWidth, text, font);
    Placed(imageWidth, font, lines, StartY(imageHeight, font, lines))
  }

  /** The outline loop over the stroke offsets and the white draw after it, for one line. */
  method DrawLine(line: string, x: int, y: int) returns (draws: seq<Draw>)
    ensures draws == LineDraws(line, x, y)
  {
    draws := [];
    for o := 0 to |StrokeOffsets|
      invariant draws == Outline(line, x, y, StrokeOffsets[..o])
    {
      var offset := StrokeOffsets[o];
      assert StrokeOffsets[..o + 1][..o] == StrokeOffsets[..o];
      draws := draws + [Draw(x + offset.0, y + offset.1, line, Black)];
    }
    assert StrokeOffsets[..|StrokeOffsets|] == StrokeOffsets;
    draws := draws + [Draw(x, y, line, White)];
  }

  /** `add_text_to_image` up to the save: wraps the text and draws it line by line, moving `y_position` down. */
  method AddTextToImage(imageWidth: int, imageHeight: int, text: string, font: string -> BBox)
    returns (draws: seq<Draw>)
    ensures draws == Rendered(imageWidth, imageHeight, text, font)
  {
    var maxWidth := imageWidth - 2 * Padding;
    var wrappedText := WrapText(text, Measure(font), maxWidth);
    assert wrappedText == TextLines(imageWidth, text, font);
    var textHeight := TotalHeight(font, wrappedText);
    var yPosition := imageHeight / 3 - (textHeight / 3 - StartShift);
    ghost var y0 := yPosition;
    assert y0 == StartY(imageHeight, font, wrappedText);
    draws := [];
    for k := 0 to |wrappedText|
      invariant draws == Placed(imageWidth, font, wrappedText[..k], y0)
      invariant yPosition == y0 + Advance(font, wrappedText[..k])
    {
      var line := wrappedText[k];
      var textBox := font(line);
      var textWidth := textBox.right - textBox.left;
      var lineHeight := textBox.bottom - textBox.top;
      var xPosition := (imageWidth - textWidth) / 2;
      assert xPosition == CenteredX(imageWidth, font, line);
      assert lineHeight == LineHeight(font, line);
      var lineDraws := DrawLine(line, xPosition, yPosition);
      PlacedStep(imageWidth, font, wrappedText, y0, k);
      AdvanceStep(font, wrappedText, k);
      draws := draws + lineDraws;
      yPosition := yPosition + lineHeight + LinePadding;
    }
    assert wrappedText[..|wrappedText|] == wrappedText;
  }

  lemma PlacedStep(imageWidth: int, font: string -> BBox, lines: seq<string>, y0: int, k: nat)
    requires k < |lines|
    ensures Placed(imageWidth, font, lines[..k + 1], y0) == Placed(imageWidth, font, lines[..k], y0)
      + LineDraws(lines[k], CenteredX(imageWidth, font, lines[k]), y0 + Advance(font, lines[..k]))
  {
    assert lines[..k + 1][..k] == lines[..k];
  }

  // ---------------------------------------------------------------------------
  // Properties of the layout
  // ---------------------------------------------------------------------------

  /** Four black copies at (x-5, y-5), (x-5, y+5), (x+5, y-5), (x+5, y+5), then the white text at (x, y). */
  lemma LineDrawsOrder(line: string, x: int, y: int)
    ensures LineDraws(line, x, y) == [
      Draw(x - 5, y - 5, line, Black), Draw(x - 5, y + 5, line, Black),
      Draw(x + 5, y - 5, line, Black), Draw(x + 5, y + 5, line, Black),
      Draw(x, y, line, White)]
  {
    var o := StrokeOffsets;
    assert o[..1][..0] == [] && o[..2][..1] == o[..1] && o[..3][..2] == o[..2] && o[..4][..3] == o[..3];
    assert Outline(line, x, y, o[..1]) == [Draw(x - 5, y - 5, line, Black)];
    assert Outline(line, x, y, o[..2]) == Outline(line, x, y, o[..1]) + [Draw(x - 5, y + 5, line, Black)];
    assert Outline(line, x, y, o[..3]) == Outline(line, x, y, o[..2]) + [Draw(x + 5, y - 5, line, Black)];
    assert Outline(line, x, y, o) == Outline(line, x, y, o[..3]) + [Draw(x + 5, y + 5, line, Black)];
  }

  /** Line k's five draws are the k-th group of five, at its centred x and at y0 plus the advance of the lines above. */
  lemma {:induction false} PlacedLine(imageWidth: int, font: string -> BBox, lines: seq<string>, y0: int, k: nat)
    requires k < |lines|
    ensures var draws := Placed(imageWidth, font, lines, y0);
      draws[5 * k..5 * k + 5] == LineDraws(lines[k], CenteredX(imageWidth, font, lines[k]), y0 + Advance(font, lines[..k]))
    decreases |lines|
  {
    var n := |lines|;
    var init := lines[..n - 1];
    var a := Placed(imageWidth, font, init, y0);
    var b := LineDraws(lines[n - 1], CenteredX(imageWidth, font, lines[n - 1]), y0 + Advance(font, init));
    assert Placed(imageWidth, font, lines, y0) == a + b;
    if k < n - 1 {
      PlacedLine(imageWidth, font, init, y0, k);
      assert init[k] == lines[k];
      assert init[..k] == lines[..k];
      assert (a + b)[5 * k..5 * k + 5] == a[5 * k..5 * k + 5];
    } else {
      assert (a + b)[5 * k..5 * k + 5] == b;
    }
  }

  /** The pen moves down by the height of a line plus the line padding before the next one is drawn. */
  lemma AdvanceStep(font: string -> BBox, lines: seq<string>, k: nat)
    requires k < |lines|
    ensures Advance(font, lines[..k + 1]) == Advance(font, lines[..k]) + LineHeight(font, lines[k]) + LinePadding
  {
    assert lines[..k + 1][..k] == lines[..k];
  }

  /** With boxes of non-negative height, every line is drawn at least the line padding below the one before. */
  lemma {:induction false} AdvanceGrows(font: string -> BBox, lines: seq<string>, j: nat, k: nat)
    requires forall s :: LineHeight(font, s) >= 0
    requires j <= k <= |lines|
    ensures Advance(font, lines[..k]) >= Advance(font, lines[..j]) + (k - j) * LinePadding
    decreases k - j
  {
    if j < k {
      AdvanceGrows(font, lines, j, k - 1);
      AdvanceStep(font, lines, k - 1);
    }
  }

  /**
   * What `add_text_to_image` draws: five calls per wrapped line; those of line k
   * place it centred, at the start height `h//3 - (H//3 - 20)` plus the advance
   * over the lines above it.
   */
  lemma RenderedLine(imageWidth: int, imageHeight: int, text: string, font: string -> BBox, k: nat)
    requires k < |TextLines(imageWidth, text, font)|
    ensures var lines := TextLines(imageWidth, text, font);
      var draws := Rendered(imageWidth, imageHeight, text, font);
      && |draws| == 5 * |lines|
      && draws[5 * k..5 * k + 5] == LineDraws(lines[k], CenteredX(imageWidth, font, lines[k]),
                                              StartY(imageHeight, font, lines) + Advance(font, lines[..k]))
  {
    var lines := TextLines(imageWidth, text, font);
    PlacedLine(imageWidth, font, lines, StartY(imageHeight, font, lines), k);
  }

  /**
   * What the padding is for: a wrapped line that is neither "" nor a single
   * overlong word is drawn in white at least `Padding` pixels from both edges.
   */
  lemma RenderedWithinPadding(imageWidth: int, imageHeight: int, text: string, font: string -> BBox, k: nat)
    requires k < |TextLines(imageWidth, text, font)|
    requires var line := TextLines(imageWidth, text, font)[k]; line != "" && !IsWord(line)
    ensures var line := TextLines(imageWidth, text, font)[k];
      var white := Rendered(imageWidth, imageHeight, text, font)[5 * k + 4];
      && white.color == White && white.line == line
      && Padding <= white.x && white.x + TextWidth(font, line) <= imageWidth - Padding
  {
    var lines := TextLines(imageWidth, text, font);
    WrappedWidth(text, Measure(font), MaxWidth(imageWidth));
    assert TextWidth(font, lines[k]) <= MaxWidth(imageWidth);
    RenderedLine(imageWidth, imageHeight, text, font, k);
    var x := CenteredX(imageWidth, font, lines[k]);
    var y := StartY(imageHeight, font, lines) + Advance(font, lines[..k]);
    LineDrawsOrder(lines[k], x, y);
    var draws := Rendered(imageWidth, imageHeight, text, font);
    assert draws[5 * k + 4] == draws[5 * k..5 * k + 5][4];
  }

  /** The blank separator line closes the drawing: the last five draws are of "". */
  lemma RenderedEndsBlank(imageWidth: int, imageHeight: int, text: string, font: string -> BBox)
    ensures var draws := Rendered(imageWidth, imageHeight, text, font);
      |draws| >= 10 && forall i :: |draws| - 5 <= i < |draws| ==> draws[i].line == ""
  {
    var lines := TextLines(imageWidth, text, font);
    WrappedShape(text, Measure(font), MaxWidth(imageWidth));
    var k := |lines| - 1;
    RenderedLine(imageWidth, imageHeight, text, font, k);
    var draws := Rendered(imageWidth, imageHeight, text, font);
    var x := CenteredX(imageWidth, font, lines[k]);
    var y := StartY(imageHeight, font, lines) + Advance(font, lines[..k]);
    LineDrawsOrder(lines[k], x, y);
    forall i | |draws| - 5 <= i < |draws| ensures draws[i].line == "" {
      assert draws[i] == draws[5 * k..5 * k + 5][i - 5 * k];
    }
  }
}
