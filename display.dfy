/**
 * The display of main/display.cpp: the LCD is a 480 x 320 framebuffer,
 * `lcd.writePixel` a write into it that ignores pixels off the screen, and
 * `ind_spacing` the width of one indicator slot along the bottom edge.
 * Every drawing method states the new framebuffer as the old one with the
 * paints of Raster laid over it, and nothing else changed.
 */
module Display {
  import opened StdInt
  import opened DisplayTypes
  import opened Resources
  import opened Decimal
  import opened Raster

  const HEIGHT_INDICATOR: nat := 33

  // The colours the display uses, each written color888(r, g, b) in the source.
  const Black: Color := 0x000000        // color888(0, 0, 0)
  const MainColor: Color := 0x64dbff    // color888(100, 219, 255)
  const Yellow: Color := 0xffff0b       // color888(0xff, 0xff, 0x0b)
  const IconYellow: Color := 0xffff32   // color888(255, 255, 50)
  const Red: Color := 0xff3232          // color888(255, 50, 50)
  const Green: Color := 0x28ff28        // color888(40, 255, 40)

  /** display_indicator's switch: black when off, yellow when on, red when connected. */
  function IndicatorColor(s: Indicator): (c: Color)
    ensures c == Black <==> s == Off
    ensures c == Red <==> s == Connected
  {
    match s
    case Off => Black
    case On => Yellow
    case Connected => Red
  }

  /** display_icon's switch, whose yellow differs from display_indicator's. */
  function IconColor(s: Indicator): (c: Color)
    ensures c == IndicatorColor(s) <==> s != On
  {
    match s
    case Off => Black
    case On => IconYellow
    case Connected => Red
  }

  /** display_price's switch on the raw enum value, with its default branch. */
  function PriceColor(level: int): (c: Color)
    ensures c == Green <==> level == PriceLevelValue(Low)
    ensures c == Red <==> level == PriceLevelValue(High)
    ensures c != Green && c != Red ==> c == MainColor
  {
    if level == PriceLevelValue(Low) then Green
    else if level == PriceLevelValue(Normal) then MainColor
    else if level == PriceLevelValue(High) then Red
    else MainColor
  }

  /** A level outside the enumeration is shown in the "normal" colour. */
  lemma PriceColorDefault(level: int)
    requires level != PriceLevelValue(Low) && level != PriceLevelValue(High)
    ensures PriceColor(level) == PriceColor(PriceLevelValue(Normal))
  {
  }

  /** Each state has its own indicator colour and its own icon colour. */
  lemma IndicatorColorsDistinct(a: Indicator, b: Indicator)
    requires a != b
    ensures IndicatorColor(a) != IndicatorColor(b) && IconColor(a) != IconColor(b)
  {
  }

  /** The three price levels have three colours. */
  lemma PriceColorsDistinct(l: PriceLevel, m: PriceLevel)
    requires l != m
    ensures PriceColor(PriceLevelValue(l)) != PriceColor(PriceLevelValue(m))
  {
  }

  /** The indicator slot `index`: columns [index * spacing, (index + 1) * spacing) of the bottom 33 rows. */
  function IndicatorSlot(index: nat, spacing: nat, color: Color): (p: Paint)
    ensures p.Rect? && p.color == color
    ensures p.y + p.height == DISPLAY_HEIGHT && p.x + p.width == (index + 1) * spacing
  {
    Rect(index * spacing, DISPLAY_HEIGHT - HEIGHT_INDICATOR, spacing, HEIGHT_INDICATOR, color)
  }

  /** display_indicatoramount: the screen width shared among `amount` slots (480 / amount). */
  function IndicatorSpacing(amount: int): (sp: int)
    requires amount != 0
    ensures amount > 0 ==> 0 <= sp && sp * amount <= DISPLAY_WIDTH < (sp + 1) * amount
    ensures amount < 0 ==> sp <= 0 && -sp * -amount <= DISPLAY_WIDTH < (-sp + 1) * -amount
  {
    // C truncates toward zero; with the dividend 480 positive, Dafny's division agrees.
    DISPLAY_WIDTH as int / amount
  }

  /** With a positive amount of slots, slot `index` < amount stays inside the screen width. */
  lemma IndicatorSlotsFit(amount: int, index: nat)
    requires 0 < amount && index < amount
    ensures var sp := IndicatorSpacing(amount);
      sp >= 0 && (index + 1) * sp <= DISPLAY_WIDTH
  {
    var sp := IndicatorSpacing(amount);
    assert amount * sp <= DISPLAY_WIDTH;
    MulLe(sp, index + 1, amount);
  }

  /** Two different slots never share a pixel. */
  lemma IndicatorSlotsDisjoint(i: nat, j: nat, spacing: nat, c: Color, d: Color, px: nat, py: nat)
    requires i != j
    ensures !(PaintAt(IndicatorSlot(i, spacing, c), px, py).Some? && PaintAt(IndicatorSlot(j, spacing, d), px, py).Some?)
  {
    if i < j {
      MulLe(spacing, i + 1, j);
    } else {
      MulLe(spacing, j + 1, i);
    }
  }

  /** The two glyphs of a time field: tens, then units. */
  lemma TimeFieldGlyphs(font: Font, x: nat, y: nat, color: Color, n: uint8)
    requires n < 100
    ensures GlyphDigits(NumberPaints(font, x, y, color, n, 2)) == [n / 10, n % 10]
  {
    PaddedExact(n, 2);
    PaddedAt(n, 2, 0);
    PaddedAt(n, 2, 1);
  }

  /** A level below 1000 is drawn as exactly three glyphs: hundreds, tens, units. */
  lemma LevelGlyphs(font: Font, x: nat, y: nat, color: Color, level: nat)
    requires level < 1000
    ensures GlyphDigits(NumberPaints(font, x, y, color, level, 3)) == [level / 100, level / 10 % 10, level % 10]
  {
    var ds := Padded(level, 3);
    assert Pow10(3) == 1000 && Pow10(2) == 100 && Pow10(1) == 10 && Pow10(0) == 1;
    PaddedExact(level, 3);
    assert GlyphDigits(NumberPaints(font, x, y, color, level, 3)) == ds;
    PaddedAt(level, 3, 0);
    assert ds[0] == level / 100;
    PaddedAt(level, 3, 1);
    PaddedAt(level, 3, 2);
  }

  /**
   * Every nibble draw_number's drawing loop reads, most significant first,
   * is the matching place of the padded digit row.
   */
  lemma NibblesArePaddedDigits(value: nat, minDigits: nat)
    ensures var ds := Padded(value, minDigits);
      forall i :: 0 <= i < |ds| ==> (Bcd(value) / Pow2((|ds| - i - 1) * 4)) % 16 == ds[i] < FONT_SYMBOLS
  {
    var ds := Padded(value, minDigits);
    forall i | 0 <= i < |ds|
      ensures (Bcd(value) / Pow2((|ds| - i - 1) * 4)) % 16 == ds[i]
    {
      NibbleIsPaddedDigit(value, minDigits, i);
    }
  }

  /** The icon of display_icon: drawn 3 pixels right of the left edge of slot `index`, on the slot's top row. */
  function IconPaint(img: Image, index: nat, spacing: nat, color: Color): (p: Paint)
    ensures p.Bitmap? && p.img == img && p.color == color
    ensures p.x == IndicatorSlot(index, spacing, color).x + 3 && p.y == IndicatorSlot(index, spacing, color).y
  {
    Bitmap(img, index * spacing + 3, DISPLAY_HEIGHT - HEIGHT_INDICATOR, color)
  }

  /** What display_time paints: hours then minutes, two digits each, in the main colour. */
  function TimePaints(font: Font, time: NtpTime): (ps: seq<Paint>)
    ensures WellFormedFont(font) ==> AllDrawable(ps)
  {
    NumberPaints(font, 10, 20, MainColor, time.hours, 2) + NumberPaints(font, 270, 20, MainColor, time.minutes, 2)
  }

  /**
   * An icon at most `spacing - 3` wide and at most 33 high lies inside its
   * indicator slot: every pixel it covers is a pixel of slot `index`.
   */
  lemma IconInsideSlot(img: Image, index: nat, spacing: nat, c: Color, d: Color, px: nat, py: nat)
    requires WellFormedImage(img) && img.width + 3 <= spacing && img.height <= HEIGHT_INDICATOR
    requires PaintAt(IconPaint(img, index, spacing, c), px, py).Some?
    ensures PaintAt(IndicatorSlot(index, spacing, d), px, py).Some?
  {
    assert (index + 1) * spacing == index * spacing + spacing;
  }

  /**
   * A wall-clock time shows as four glyphs: hour tens, hour units, minute
   * tens, minute units; the minutes start 260 pixels right of the hours.
   */
  lemma TimePaintsSpellClock(font: Font, time: NtpTime)
    requires time.hours < 24 && time.minutes < 60
    ensures var ps := TimePaints(font, time);
      && |ps| == 4
      && GlyphDigits(ps) == [time.hours / 10, time.hours % 10, time.minutes / 10, time.minutes % 10]
      && ps[0].x == 10 && ps[2].x == 270 && ps[1].y == ps[3].y == 20
  {
    var hours := NumberPaints(font, 10, 20, MainColor, time.hours, 2);
    var minutes := NumberPaints(font, 270, 20, MainColor, time.minutes, 2);
    TimeFieldGlyphs(font, 10, 20, MainColor, time.hours);
    TimeFieldGlyphs(font, 270, 20, MainColor, time.minutes);
    assert GlyphDigits(hours + minutes) == GlyphDigits(hours) + GlyphDigits(minutes);
  }

  /** A framebuffer's worth of colours: DISPLAY_WIDTH columns of DISPLAY_HEIGHT pixels. */
  ghost predicate IsFrame(frame: seq<seq<Color>>)
  {
    |frame| == DISPLAY_WIDTH && forall px | 0 <= px < DISPLAY_WIDTH :: |frame[px]| == DISPLAY_HEIGHT
  }

  class Screen {
    /** The LCD framebuffer, column-major: pixels[x, y]. */
    const pixels: array2<Color>
    /** The compiled-in `.xbm` assets behind get_image and get_font. */
    const assets: Assets
    /** ind_spacing */
    var indSpacing: int

    ghost predicate Valid()
    {
      pixels.Length0 == DISPLAY_WIDTH && pixels.Length1 == DISPLAY_HEIGHT
    }

    /** The framebuffer now shows the paints `ps` laid over what it showed before. */
    twostate predicate Painted(ps: seq<Paint>)
      requires Valid() && AllDrawable(ps)
      reads pixels
    {
      forall px, py | 0 <= px < DISPLAY_WIDTH && 0 <= py < DISPLAY_HEIGHT ::
        pixels[px, py] == Layers(ps, px, py, old(pixels[px, py]))
    }

    /** The framebuffer's contents as a value, column by column. */
    ghost function Snapshot(): (frame: seq<seq<Color>>)
      requires Valid()
      reads pixels
      ensures IsFrame(frame)
      ensures forall px, py | 0 <= px < DISPLAY_WIDTH && 0 <= py < DISPLAY_HEIGHT :: frame[px][py] == pixels[px, py]
    {
      seq(DISPLAY_WIDTH, px requires 0 <= px < DISPLAY_WIDTH reads pixels =>
        seq(DISPLAY_HEIGHT, py requires 0 <= py < DISPLAY_HEIGHT reads pixels => pixels[px, py]))
    }

    /** The framebuffer shows the first n paints of `ps` laid over the contents `base`. */
    ghost predicate PaintedOver(ps: seq<Paint>, n: nat, base: seq<seq<Color>>)
      requires Valid() && AllDrawable(ps) && n <= |ps| && IsFrame(base)
      reads pixels
    {
      forall px, py | 0 <= px < DISPLAY_WIDTH && 0 <= py < DISPLAY_HEIGHT ::
        pixels[px, py] == Layers(ps[..n], px, py, base[px][py])
    }

    /** Painting p = ps[i] over a screen that showed ps[..i] over `base` shows ps[..i + 1] over it. */
    twostate lemma PaintedExtend(new ps: seq<Paint>, i: nat, new p: Paint, new base: seq<seq<Color>>)
      requires Valid() && AllDrawable(ps) && i < |ps| && p == ps[i] && IsFrame(base)
      requires old(PaintedOver(ps, i, base))
      requires Painted([p])
      ensures PaintedOver(ps, i + 1, base)
    {
      forall px, py | 0 <= px < DISPLAY_WIDTH && 0 <= py < DISPLAY_HEIGHT
        ensures pixels[px, py] == Layers(ps[..i + 1], px, py, base[px][py])
      {
        LayersPush(ps, i, px, py, base[px][py]);
      }
    }

    /** Paints laid over the screen as it was before are Painted. */
    twostate lemma PaintedFromSnapshot(new ps: seq<Paint>, new base: seq<seq<Color>>)
      requires Valid() && AllDrawable(ps) && IsFrame(base)
      requires forall px, py | 0 <= px < DISPLAY_WIDTH && 0 <= py < DISPLAY_HEIGHT :: base[px][py] == old(pixels[px, py])
      requires PaintedOver(ps, |ps|, base)
      ensures Painted(ps)
    {
      assert ps[..|ps|] == ps;
    }

    /** A paint's pixels, exactly where it covers the screen, over the old contents: Painted([p]). */
    twostate lemma PaintedOne(p: Paint)
      requires Valid() && Drawable(p)
      requires forall px, py | 0 <= px < DISPLAY_WIDTH && 0 <= py < DISPLAY_HEIGHT ::
        pixels[px, py] == match PaintAt(p, px, py) case Some(c) => c case None => old(pixels[px, py])
      ensures Painted([p])
    {
      forall px, py | 0 <= px < DISPLAY_WIDTH && 0 <= py < DISPLAY_HEIGHT
        ensures pixels[px, py] == Layers([p], px, py, old(pixels[px, py]))
      {
        assert [p][..0] == [];
      }
    }

    /** display_init, with ind_spacing at its initial 10. */
    constructor (assets: Assets)
      ensures Valid() && fresh(pixels) && this.assets == assets && indSpacing == 10
    {
      pixels := new Color[DISPLAY_WIDTH, DISPLAY_HEIGHT];
      this.assets := assets;
      indSpacing := 10;
    }

    /** lcd.writePixel: sets one pixel; coordinates off the screen are clipped. */
    method WritePixel(x: nat, y: nat, color: Color)
      requires Valid()
      modifies pixels
      ensures forall px, py | 0 <= px < DISPLAY_WIDTH && 0 <= py < DISPLAY_HEIGHT ::
        pixels[px, py] == if px == x && py == y then color else old(pixels[px, py])
    {
      if x < DISPLAY_WIDTH && y < DISPLAY_HEIGHT {
        pixels[x, y] := color;
      }
    }

    /** fill: exactly the pixels with x <= px < x + width and y <= py < y + height become `color`. */
    method Fill(x: nat, y: nat, width: nat, height: nat, color: Color)
      requires Valid()
      modifies pixels
      ensures Painted([Rect(x, y, width, height, color)])
    {
      var maxX, maxY := x + width, y + height;
      var row := y;
      while row < maxY
        invariant y <= row <= maxY
        invariant forall px, py | 0 <= px < DISPLAY_WIDTH && 0 <= py < DISPLAY_HEIGHT ::
          pixels[px, py] == if x <= px < maxX && y <= py < row then color else old(pixels[px, py])
      {
        var col := x;
        while col < maxX
          invariant x <= col <= maxX
          invariant forall px, py | 0 <= px < DISPLAY_WIDTH && 0 <= py < DISPLAY_HEIGHT ::
            pixels[px, py] ==
              if (x <= px < maxX && y <= py < row) || (py == row && x <= px < col) then color else old(pixels[px, py])
        {
          WritePixel(col, row, color);
          col := col + 1;
        }
        row := row + 1;
      }
      PaintedOne(Rect(x, y, width, height, color));
    }

    /** draw_image: the width x height box at (x, y) gets `color` where the mask bit is 1 and 0 where it is 0. */
    method DrawImage(img: Image, x: nat, y: nat, color: Color)
      requires Valid() && WellFormedImage(img)
      modifies pixels
      ensures Painted([Bitmap(img, x, y, color)])
    {
      var dy := 0;
      while dy < img.height
        invariant dy <= img.height
        invariant forall px, py | 0 <= px < DISPLAY_WIDTH && 0 <= py < DISPLAY_HEIGHT ::
          pixels[px, py] ==
            if x <= px < x + img.width && y <= py < y + dy then color * ImageBit(img, px - x, py - y)
            else old(pixels[px, py])
      {
        var dispY := dy + y;
        var dx := 0;
        while dx < img.width
          invariant dx <= img.width
          invariant forall px, py | 0 <= px < DISPLAY_WIDTH && 0 <= py < DISPLAY_HEIGHT ::
            pixels[px, py] ==
              if (x <= px < x + img.width && y <= py < y + dy) || (py == dispY && x <= px < x + dx)
              then color * ImageBit(img, px - x, py - y)
              else old(pixels[px, py])
        {
          var pixel := color * ImageBit(img, dx, dy);
          WritePixel(dx + x, dispY, pixel);
          dx := dx + 1;
        }
        dy := dy + 1;
      }
      PaintedOne(Bitmap(img, x, y, color));
    }

    /** draw_font: as draw_image, for glyph `index` of the font's strip. */
    method DrawFont(font: Font, index: nat, x: nat, y: nat, color: Color)
      requires Valid() && WellFormedFont(font) && index < FONT_SYMBOLS
      modifies pixels
      ensures Painted([Glyph(font, index, x, y, color)])
    {
      var dy := 0;
      while dy < font.height
        invariant dy <= font.height
        invariant forall px, py | 0 <= px < DISPLAY_WIDTH && 0 <= py < DISPLAY_HEIGHT ::
          pixels[px, py] ==
            if x <= px < x + font.width && y <= py < y + dy then color * FontBit(font, index, px - x, py - y)
            else old(pixels[px, py])
      {
        var dispY := dy + y;
        var dx := 0;
        while dx < font.width
          invariant dx <= font.width
          invariant forall px, py | 0 <= px < DISPLAY_WIDTH && 0 <= py < DISPLAY_HEIGHT ::
            pixels[px, py] ==
              if (x <= px < x + font.width && y <= py < y + dy) || (py == dispY && x <= px < x + dx)
              then color * FontBit(font, index, px - x, py - y)
              else old(pixels[px, py])
        {
          var pixel := color * FontBit(font, index, dx, dy);
          WritePixel(dx + x, dispY, pixel);
          dx := dx + 1;
        }
        dy := dy + 1;
      }
      PaintedOne(Glyph(font, index, x, y, color));
    }

    /**
     * The packing loop of draw_number: `value` in BCD, least significant
     * digit in the low nibble, and the count of its decimal digits. The word
     * `bcd` is a 32-bit size_t, so at most eight digits fit.
     */
    static method PackBcd(value: size_t) returns (bcd: size_t, digits: size_t)
      requires value < 100_000_000
      ensures bcd == Bcd(value) && digits == |Digits(value)|
    {
      AtMostEightDigits(value);
      BcdBound(value);
      Pow2Monotone(4 * |Digits(value)|, 32);
      Pow2Nibbles(0);
      bcd, digits := 0, 0;
      var v: size_t := value;
      while v > 0
        invariant bcd + Bcd(v) * Pow2(4 * digits) == Bcd(value)
        invariant digits + |Digits(v)| == |Digits(value)|
        invariant bcd < Pow2(4 * digits)
      {
        var nibble := Pow2(4 * digits);
        Pow2Nibbles(digits);
        BcdStep(bcd, v, nibble);
        MulMonotone(v % 10, 15, nibble);
        // The shifted digit lands on the zero bits above `bcd`.
        BitOrDisjoint(bcd, v % 10, 4 * digits);
        bcd := BitOr(bcd, (v % 10) * nibble);
        v := v / 10;
        digits := digits + 1;
      }
    }

    /**
     * The drawing loop of draw_number: nibble i of `bcd`, counted from the
     * top of `digits` nibbles, is drawn as glyph i at x + (width + spacing) * i.
     * `ds` names the digits the nibbles hold.
     */
    method DrawDigits(font: Font, x: nat, y: nat, color: Color, bcd: size_t, digits: size_t, ghost ds: seq<nat>)
      requires Valid() && WellFormedFont(font)
      requires |ds| == digits <= 8
      requires forall i :: 0 <= i < |ds| ==> (bcd / Pow2((digits - i - 1) * 4)) % 16 == ds[i] < FONT_SYMBOLS
      modifies pixels
      ensures Painted(GlyphRow(font, x, y, color, ds))
    {
      ghost var ps := GlyphRow(font, x, y, color, ds);
      ghost var base := Snapshot();
      assert ps[..0] == [];
      var i: size_t := 0;
      while i < digits
        invariant i <= digits
        invariant PaintedOver(ps, i, base)
      {
        var startBit: size_t := (digits - i - 1) * 4;
        // `(bcd >> start_bit) & 0xf`
        var digit: uint8 := (bcd / Pow2(startBit)) % 16;
        var xOffset := x + (font.width + font.spacing) * i;
        assert digit == ds[i];
        label before:
        DrawFont(font, digit, xOffset, y, color);
        PaintedExtend@before(ps, i, Glyph(font, digit, xOffset, y, color), base);
        i := i + 1;
      }
      PaintedFromSnapshot(ps, base);
    }

    /**
     * draw_number: packs `value` into BCD, pads the digit count to
     * `minDigits`, then draws the nibbles most significant first.
     */
    method DrawNumber(font: Font, x: nat, y: nat, color: Color, value: size_t, minDigits: size_t)
      requires Valid() && WellFormedFont(font)
      requires value < 100_000_000 && minDigits <= 8
      modifies pixels
      ensures Painted(NumberPaints(font, x, y, color, value, minDigits))
    {
      var bcd, digits := PackBcd(value);
      AtMostEightDigits(value);
      if digits < minDigits {
        digits := minDigits;
      }
      NibblesArePaddedDigits(value, minDigits);
      DrawDigits(font, x, y, color, bcd, digits, Padded(value, minDigits));
    }

    /** display_indicatoramount: `amount` slots share the screen width. */
    method SetIndicatorAmount(amount: int32)
      requires amount != 0
      modifies this
      ensures indSpacing == IndicatorSpacing(amount)
    {
      indSpacing := DISPLAY_WIDTH as int / amount;
    }

    /** display_indicator: slot `index` of the bottom row takes the state's colour. */
    method DisplayIndicator(state: Indicator, index: nat)
      requires Valid() && indSpacing >= 0
      modifies pixels
      ensures Painted([IndicatorSlot(index, indSpacing, IndicatorColor(state))])
    {
      var color := Black;
      match state {
        case Off => color := Black;
        case On => color := Yellow;
        case Connected => color := Red;
      }
      Fill(index * indSpacing, DISPLAY_HEIGHT - HEIGHT_INDICATOR, indSpacing, HEIGHT_INDICATOR, color);
    }

    /** display_icon: the image `itype` drawn 3 pixels into slot `index`, in the state's icon colour. */
    method DisplayIcon(state: Indicator, itype: ImageType, index: nat)
      requires Valid() && indSpacing >= 0 && WellFormedImage(GetImage(assets, itype))
      modifies pixels
      ensures Painted([IconPaint(GetImage(assets, itype), index, indSpacing, IconColor(state))])
    {
      var color := Black;
      match state {
        case Off => color := Black;
        case On => color := IconYellow;
        case Connected => color := Red;
      }
      var image := GetImage(assets, itype);
      DrawImage(image, index * indSpacing + 3, DISPLAY_HEIGHT - HEIGHT_INDICATOR, color);
    }

    /** display_level: the level in font28 at (160, 170), at least three digits. */
    method DisplayLevel(level: size_t)
      requires Valid() && WellFormedFont(GetFont(assets, Font28)) && level < 100_000_000
      modifies pixels
      ensures Painted(NumberPaints(GetFont(assets, Font28), 160, 170, MainColor, level, 3))
    {
      DrawNumber(GetFont(assets, Font28), 160, 170, MainColor, level, 3);
    }

    /** display_time: hours at (10, 20) and minutes at (270, 20) in font100, two digits each. */
    method DisplayTime(time: NtpTime)
      requires Valid() && WellFormedFont(GetFont(assets, Font100))
      modifies pixels
      ensures Painted(TimePaints(GetFont(assets, Font100), time))
    {
      var font := GetFont(assets, Font100);
      ghost var hours := NumberPaints(font, 10, 20, MainColor, time.hours, 2);
      ghost var minutes := NumberPaints(font, 270, 20, MainColor, time.minutes, 2);
      DrawNumber(font, 10, 20, MainColor, time.hours, 2);
      label drawnHours:
      DrawNumber(font, 270, 20, MainColor, time.minutes, 2);
      forall px, py | 0 <= px < DISPLAY_WIDTH && 0 <= py < DISPLAY_HEIGHT
        ensures pixels[px, py] == Layers(hours + minutes, px, py, old(pixels[px, py]))
      {
        assert pixels[px, py] == Layers(minutes, px, py, old@drawnHours(pixels[px, py]));
        assert old@drawnHours(pixels[px, py]) == Layers(hours, px, py, old(pixels[px, py]));
        LayersAppend(hours, minutes, px, py, old(pixels[px, py]));
      }
      assert TimePaints(font, time) == hours + minutes;
    }
  }
}
