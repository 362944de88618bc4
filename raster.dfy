/**
 * What the drawing primitives of main/display.cpp put on the screen,
 * pixel by pixel: a paint is one call of fill, draw_image or draw_font, and
 * a pixel shows the colour of the last paint that covers it (or what it
 * showed before, if none does).
 */
module Raster {
  import opened StdInt
  import opened Wrappers
  import opened Resources
  import opened Decimal

  /** A colour as the LCD driver's color888 packs it: 0xRRGGBB in a uint32_t. */
  type Color = uint32

  datatype Paint =
    | Rect(x: nat, y: nat, width: nat, height: nat, color: Color)     // fill
    | Bitmap(img: Image, x: nat, y: nat, color: Color)                // draw_image
    | Glyph(font: Font, index: nat, x: nat, y: nat, color: Color)     // draw_font

  /** A paint whose mask reads stay inside the mask. */
  ghost predicate Drawable(p: Paint)
  {
    match p
    case Rect(_, _, _, _, _) => true
    case Bitmap(img, _, _, _) => WellFormedImage(img)
    case Glyph(font, index, _, _, _) => WellFormedFont(font) && index < FONT_SYMBOLS
  }

  ghost predicate AllDrawable(ps: seq<Paint>)
  {
    forall i :: 0 <= i < |ps| ==> Drawable(ps[i])
  }

  /** The colour a paint writes at (px, py), if it writes there at all. */
  ghost function PaintAt(p: Paint, px: nat, py: nat): (c: Option<Color>)
    requires Drawable(p)
    ensures p.Rect? ==> (c.Some? <==> p.x <= px < p.x + p.width && p.y <= py < p.y + p.height)
    ensures p.Rect? && c.Some? ==> c.value == p.color
    ensures p.Bitmap? ==> (c.Some? <==> p.x <= px < p.x + p.img.width && p.y <= py < p.y + p.img.height)
    ensures p.Glyph? ==> (c.Some? <==> p.x <= px < p.x + p.font.width && p.y <= py < p.y + p.font.height)
    ensures c.Some? ==> c.value == 0 || c.value == p.color
  {
    match p
    case Rect(x, y, w, h, color) =>
      if x <= px < x + w && y <= py < y + h then Some(color) else None
    case Bitmap(img, x, y, color) =>
      if x <= px < x + img.width && y <= py < y + img.height
      then Some(color * ImageBit(img, px - x, py - y)) else None
    case Glyph(font, index, x, y, color) =>
      if x <= px < x + font.width && y <= py < y + font.height
      then Some(color * FontBit(font, index, px - x, py - y)) else None
  }

  /** The colour of (px, py) after the paints `ps`, in order, over a pixel that showed `base`. */
  ghost function Layers(ps: seq<Paint>, px: nat, py: nat, base: Color): Color
    requires AllDrawable(ps)
  {
    if ps == [] then base
    else
      match PaintAt(ps[|ps| - 1], px, py)
      case Some(c) => c
      case None => Layers(ps[..|ps| - 1], px, py, base)
  }

  /** Painting `a` and then `b` is painting `b` over the result of `a`. */
  lemma {:induction false} LayersAppend(a: seq<Paint>, b: seq<Paint>, px: nat, py: nat, base: Color)
    requires AllDrawable(a) && AllDrawable(b)
    ensures AllDrawable(a + b)
    ensures Layers(a + b, px, py, base) == Layers(b, px, py, Layers(a, px, py, base))
  {
    if b == [] {
      assert a + b == a;
    } else {
      var ab := a + b;
      assert ab[..|ab| - 1] == a + b[..|b| - 1];
      assert ab[|ab| - 1] == b[|b| - 1];
      LayersAppend(a, b[..|b| - 1], px, py, base);
    }
  }

  /** Painting the prefix ps[..i + 1] is painting ps[i] over the prefix ps[..i]. */
  lemma LayersPush(ps: seq<Paint>, i: nat, px: nat, py: nat, base: Color)
    requires AllDrawable(ps) && i < |ps|
    ensures AllDrawable(ps[..i]) && AllDrawable([ps[i]])
    ensures Layers(ps[..i + 1], px, py, base) == Layers([ps[i]], px, py, Layers(ps[..i], px, py, base))
  {
    assert ps[..i + 1] == ps[..i] + [ps[i]];
    LayersAppend(ps[..i], [ps[i]], px, py, base);
  }

  /** A pixel that no paint covers keeps its colour. */
  lemma {:induction false} LayersUncovered(ps: seq<Paint>, px: nat, py: nat, base: Color)
    requires AllDrawable(ps)
    requires forall i :: 0 <= i < |ps| ==> PaintAt(ps[i], px, py).None?
    ensures Layers(ps, px, py, base) == base
  {
    if ps != [] {
      LayersUncovered(ps[..|ps| - 1], px, py, base);
    }
  }

  /** The glyphs of a digit row, glyph i at x + (width + spacing) * i on the same baseline. */
  function GlyphRow(font: Font, x: nat, y: nat, color: Color, ds: seq<nat>): (ps: seq<Paint>)
    ensures |ps| == |ds|
    ensures forall i :: 0 <= i < |ps| ==> ps[i] == Glyph(font, ds[i], x + (font.width + font.spacing) * i, y, color)
  {
    seq(|ds|, i requires 0 <= i < |ds| => Glyph(font, ds[i], x + (font.width + font.spacing) * i, y, color))
  }

  /** What draw_number paints: the glyphs of `value` padded to `minDigits` places. */
  function NumberPaints(font: Font, x: nat, y: nat, color: Color, value: nat, minDigits: nat): (ps: seq<Paint>)
    ensures WellFormedFont(font) ==> AllDrawable(ps)
  {
    GlyphRow(font, x, y, color, Padded(value, minDigits))
  }

  /** The digits a row of glyph paints shows, left to right. */
  function GlyphDigits(ps: seq<Paint>): (ds: seq<nat>)
    requires forall i :: 0 <= i < |ps| ==> ps[i].Glyph?
    ensures |ds| == |ps|
  {
    seq(|ps|, i requires 0 <= i < |ps| => ps[i].index)
  }

  /**
   * draw_number paints max(digit count, minDigits) glyphs, each a digit
   * 0..9, left to right at a fixed pitch on one baseline, and read in that
   * order they spell `value` in decimal.
   */
  lemma NumberPaintsSpellValue(font: Font, x: nat, y: nat, color: Color, value: nat, minDigits: nat)
    ensures var ps := NumberPaints(font, x, y, color, value, minDigits);
      && |ps| == Max(|Digits(value)|, minDigits)
      && (forall i :: 0 <= i < |ps| ==>
            && ps[i].Glyph? && ps[i].index < FONT_SYMBOLS
            && ps[i].x == x + (font.width + font.spacing) * i && ps[i].y == y)
      && ValueOf(GlyphDigits(ps)) == value
  {
    var ps := NumberPaints(font, x, y, color, value, minDigits);
    assert GlyphDigits(ps) == Padded(value, minDigits);
    PaddedSpellsValue(value, minDigits);
  }

  /** With value 0, draw_number paints exactly `minDigits` zero glyphs, so nothing for minDigits 0. */
  lemma NumberPaintsOfZero(font: Font, x: nat, y: nat, color: Color, minDigits: nat)
    ensures |NumberPaints(font, x, y, color, 0, minDigits)| == minDigits
    ensures forall i :: 0 <= i < minDigits ==> NumberPaints(font, x, y, color, 0, minDigits)[i].index == 0
  {
    PaddedSpellsValue(0, minDigits);
  }
}
