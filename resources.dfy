/**
 * Masked images and digit fonts (main/resources.h, main/resources.c).
 *
 * Every mask is an X BitMap: rows padded to a whole number of bytes, the
 * least significant bit of a byte is the leftmost pixel. A font is one XBM
 * strip holding the ten glyphs 0..9 side by side. The `.xbm` assets are
 * not part of this model: their sizes and bits are the parameter `Assets`.
 */
module Resources {
  import opened StdInt

  datatype ImageType = ImageWifi | ImageNtp | ImageCelsius | ImagePercent | ImageMm

  datatype FontSize = Font28 | Font60 | Font100

  /** `struct image`: `stride` is the row length in bits. */
  datatype Image = Image(width: nat, height: nat, stride: nat, mask: seq<uint8>)

  /** `struct font`: `width` is one glyph's width, `stride` the strip's row length in bits. */
  datatype Font = Font(width: nat, height: nat, spacing: nat, stride: nat, mask: seq<uint8>)

  /** One `.xbm` asset as the compiler sees it: `<name>_width`, `<name>_height`, `<name>_bits`. */
  datatype Xbm = Xbm(width: nat, height: nat, bits: seq<uint8>)

  datatype Assets = Assets(
    font28: Xbm, font60: Xbm, font100: Xbm,
    wifi: Xbm, ntp: Xbm, celsius: Xbm, percent: Xbm, mm: Xbm)

  const FONT_SYMBOLS: nat := 10

  /** XBM_STRIDE: a row of `w` pixels rounded up to whole bytes, in bits. */
  function XbmStride(w: nat): (s: nat)
    ensures s % 8 == 0 && w <= s < w + 8
  {
    ((w + 7) / 8) * 8
  }

  /** XBM_STRIDE(w) is the least multiple of 8 that holds `w` pixels. */
  lemma XbmStrideIsLeast(w: nat, m: nat)
    requires m % 8 == 0 && w <= m
    ensures XbmStride(w) <= m
  {
  }

  /** FONT_SPACING: one two-hundredth of `w` (w / 10 / 20 in integer division). */
  function FontSpacing(w: nat): (s: nat)
    ensures s * 200 <= w < (s + 1) * 200
  {
    w / FONT_SYMBOLS / 20
  }

  /** The asset has exactly the bytes its dimensions call for. */
  ghost predicate WellFormedXbm(a: Xbm)
  {
    |a.bits| == XbmStride(a.width) / 8 * a.height
  }

  ghost predicate WellFormedAssets(a: Assets)
  {
    && WellFormedXbm(a.font28) && WellFormedXbm(a.font60) && WellFormedXbm(a.font100)
    && WellFormedXbm(a.wifi) && WellFormedXbm(a.ntp) && WellFormedXbm(a.celsius)
    && WellFormedXbm(a.percent) && WellFormedXbm(a.mm)
  }

  /** Well formed: every row of the box lies within the stride, and all rows within the mask. */
  ghost predicate WellFormedImage(img: Image)
  {
    img.width <= img.stride && img.height * img.stride <= 8 * |img.mask|
  }

  /** Well formed: all ten glyphs fit in a row of the strip, and all rows within the mask. */
  ghost predicate WellFormedFont(f: Font)
  {
    FONT_SYMBOLS * f.width <= f.stride && f.height * f.stride <= 8 * |f.mask|
  }

  /** The strip behind each font size. */
  function FontAsset(a: Assets, size: FontSize): Xbm
  {
    match size
    case Font28 => a.font28
    case Font60 => a.font60
    case Font100 => a.font100
  }

  /**
   * The `fonts[]` table: a glyph is a tenth of the strip (integer division),
   * the stride is the strip's, and font28 spaces its glyphs by its width while
   * font60 and font100 space theirs by their height.
   */
  function GetFont(a: Assets, size: FontSize): (f: Font)
    ensures f.width == FontAsset(a, size).width / FONT_SYMBOLS && f.height == FontAsset(a, size).height
    ensures f.stride == XbmStride(FontAsset(a, size).width) && f.mask == FontAsset(a, size).bits
    ensures size == Font28 ==> f.spacing == FontSpacing(a.font28.width)
    ensures size == Font60 ==> f.spacing == FontSpacing(a.font60.height)
    ensures size == Font100 ==> f.spacing == FontSpacing(a.font100.height)
  {
    match size
    case Font28 =>
      Font(a.font28.width / FONT_SYMBOLS, a.font28.height, FontSpacing(a.font28.width),
           XbmStride(a.font28.width), a.font28.bits)
    case Font60 =>
      Font(a.font60.width / FONT_SYMBOLS, a.font60.height, FontSpacing(a.font60.height),
           XbmStride(a.font60.width), a.font60.bits)
    case Font100 =>
      Font(a.font100.width / FONT_SYMBOLS, a.font100.height, FontSpacing(a.font100.height),
           XbmStride(a.font100.width), a.font100.bits)
  }

  /** The asset behind each image type. */
  function ImageAsset(a: Assets, t: ImageType): Xbm
  {
    match t
    case ImageWifi => a.wifi
    case ImageNtp => a.ntp
    case ImageCelsius => a.celsius
    case ImagePercent => a.percent
    case ImageMm => a.mm
  }

  /** The `images[]` table: each entry takes its asset's size and bits; image_ntp takes wifi's stride. */
  function GetImage(a: Assets, t: ImageType): (img: Image)
    ensures img.width == ImageAsset(a, t).width && img.height == ImageAsset(a, t).height
    ensures img.mask == ImageAsset(a, t).bits
    ensures img.stride == XbmStride(if t == ImageNtp then a.wifi.width else img.width)
  {
    match t
    case ImageWifi => Image(a.wifi.width, a.wifi.height, XbmStride(a.wifi.width), a.wifi.bits)
    case ImageNtp => Image(a.ntp.width, a.ntp.height, XbmStride(a.wifi.width), a.ntp.bits)
    case ImageCelsius => Image(a.celsius.width, a.celsius.height, XbmStride(a.celsius.width), a.celsius.bits)
    case ImagePercent => Image(a.percent.width, a.percent.height, XbmStride(a.percent.width), a.percent.bits)
    case ImageMm => Image(a.mm.width, a.mm.height, XbmStride(a.mm.width), a.mm.bits)
  }

  /** `(b >> k) & 1`: bit `k` of a byte, bit 0 being the least significant. */
  function BitOf(b: uint8, k: nat): (bit: nat)
    requires k < 8
    ensures bit < 2
    ensures k == 0 ==> (bit == 1 <==> b % 2 == 1)
  {
    (b / Pow2(k)) % 2
  }

  /** A bit at index `row * stride + col` of a mask holding `height` rows is in the mask. */
  lemma BitIndexInMask(stride: nat, height: nat, len: nat, row: nat, col: nat)
    requires col < stride && row < height && height * stride <= 8 * len
    ensures (row * stride + col) / 8 < len
  {
    assert row * stride + col < (row + 1) * stride;
    assert (row + 1) * stride <= height * stride by {
      MulMonotone(row + 1, height, stride);
    }
  }

  lemma MulMonotone(a: nat, b: nat, c: nat)
    requires a <= b
    ensures a * c <= b * c
  {
  }

  /** The bit index image_bit reads for pixel (x, y). */
  function ImageBitIndex(img: Image, x: nat, y: nat): nat
  {
    y * img.stride + x
  }

  /** Every pixel of the width x height box reads a bit inside the mask. */
  ghost predicate ReadsInMask(img: Image)
  {
    forall x: nat, y: nat | x < img.width && y < img.height :: ImageBitIndex(img, x, y) < 8 * |img.mask|
  }

  /** image_bit: the mask bit at bit index `y * stride + x`, read LSB first within its byte. */
  function ImageBit(img: Image, x: nat, y: nat): (bit: nat)
    requires x < img.stride && y < img.height && img.height * img.stride <= 8 * |img.mask|
    ensures bit < 2
  {
    BitIndexInMask(img.stride, img.height, |img.mask|, y, x);
    var bitIndex := ImageBitIndex(img, x, y);
    BitOf(img.mask[bitIndex / 8], bitIndex % 8)
  }

  /** The bit index font_bit reads for pixel (x, y) of glyph `index`. */
  function FontBitIndex(f: Font, index: nat, x: nat, y: nat): nat
  {
    y * f.stride + index * f.width + x
  }

  /** Glyph `index` starts at column `index * width` of the strip, so its columns stay inside a row. */
  lemma GlyphColumnInRow(f: Font, index: nat, x: nat)
    requires index < FONT_SYMBOLS && x < f.width && FONT_SYMBOLS * f.width <= f.stride
    ensures index * f.width + x < f.stride
  {
    assert (index + 1) * f.width <= FONT_SYMBOLS * f.width by {
      MulMonotone(index + 1, FONT_SYMBOLS, f.width);
    }
  }

  /** font_bit: the strip bit at column `index * width + x` of row `y`. */
  function FontBit(f: Font, index: nat, x: nat, y: nat): (bit: nat)
    requires WellFormedFont(f) && index < FONT_SYMBOLS && x < f.width && y < f.height
    ensures bit < 2
  {
    GlyphColumnInRow(f, index, x);
    BitIndexInMask(f.stride, f.height, |f.mask|, y, index * f.width + x);
    var bitIndex := FontBitIndex(f, index, x, y);
    BitOf(f.mask[bitIndex / 8], bitIndex % 8)
  }

  /** The whole strip of a font, seen as an image of ten glyphs. */
  function Strip(f: Font): Image
  {
    Image(FONT_SYMBOLS * f.width, f.height, f.stride, f.mask)
  }

  /** Glyph `index` of a font is the strip cut at column `index * width`. */
  lemma FontBitIsStripBit(f: Font, index: nat, x: nat, y: nat)
    requires WellFormedFont(f) && index < FONT_SYMBOLS && x < f.width && y < f.height
    ensures index * f.width + x < f.stride
    ensures FontBit(f, index, x, y) == ImageBit(Strip(f), index * f.width + x, y)
  {
    GlyphColumnInRow(f, index, x);
  }

  /** Distinct pixels of the strip's glyphs read distinct bits of the mask. */
  lemma {:induction false} FontBitIndexInjective(f: Font, i1: nat, x1: nat, y1: nat, i2: nat, x2: nat, y2: nat)
    requires FONT_SYMBOLS * f.width <= f.stride
    requires i1 < FONT_SYMBOLS && x1 < f.width && i2 < FONT_SYMBOLS && x2 < f.width
    requires (i1, x1, y1) != (i2, x2, y2)
    ensures FontBitIndex(f, i1, x1, y1) != FontBitIndex(f, i2, x2, y2)
  {
    GlyphColumnInRow(f, i1, x1);
    GlyphColumnInRow(f, i2, x2);
    var c1, c2 := i1 * f.width + x1, i2 * f.width + x2;
    if y1 < y2 {
      RowsApart(f.stride, y1, c1, y2, c2);
    } else if y2 < y1 {
      RowsApart(f.stride, y2, c2, y1, c1);
    } else if i1 != i2 {
      ColumnsApart(f.width, i1, x1, i2, x2);
    }
  }

  lemma RowsApart(stride: nat, y1: nat, c1: nat, y2: nat, c2: nat)
    requires c1 < stride && c2 < stride && y1 < y2
    ensures y1 * stride + c1 < y2 * stride + c2
  {
    assert (y1 + 1) * stride <= y2 * stride by {
      MulMonotone(y1 + 1, y2, stride);
    }
  }

  lemma ColumnsApart(w: nat, i1: nat, x1: nat, i2: nat, x2: nat)
    requires x1 < w && x2 < w && i1 != i2
    ensures i1 * w + x1 != i2 * w + x2
  {
    if i1 < i2 {
      MulMonotone(i1 + 1, i2, w);
    } else {
      MulMonotone(i2 + 1, i1, w);
    }
  }

  /** In an XBM mask, pixel (x, y) is bit x % 8 of byte x / 8 of row y. */
  lemma XbmRowLayout(img: Image, x: nat, y: nat)
    requires img.stride % 8 == 0
    requires x < img.stride && y < img.height && img.height * img.stride <= 8 * |img.mask|
    ensures y * (img.stride / 8) + x / 8 < |img.mask|
    ensures ImageBit(img, x, y) == BitOf(img.mask[y * (img.stride / 8) + x / 8], x % 8)
  {
    var rowBytes := img.stride / 8;
    assert y * img.stride == (y * rowBytes) * 8;
    var bitIndex := y * img.stride + x;
    assert bitIndex == (y * rowBytes + x / 8) * 8 + x % 8;
    assert bitIndex / 8 == y * rowBytes + x / 8;
    assert bitIndex % 8 == x % 8;
    BitIndexInMask(img.stride, img.height, |img.mask|, y, x);
  }

  /** An asset of the right size has 8 * |bits| == height * stride. */
  lemma XbmBitsCover(a: Xbm)
    requires WellFormedXbm(a)
    ensures a.height * XbmStride(a.width) == 8 * |a.bits|
  {
    var s := XbmStride(a.width);
    assert s == (s / 8) * 8;
  }

  /** Every font of assets of the declared sizes is well formed. */
  lemma GetFontWellFormed(a: Assets, size: FontSize)
    requires WellFormedAssets(a)
    ensures WellFormedFont(GetFont(a, size))
  {
    var x := FontAsset(a, size);
    XbmBitsCover(x);
    assert FONT_SYMBOLS * (x.width / FONT_SYMBOLS) <= x.width;
  }

  /** Every image of assets of the declared sizes, except image_ntp, is well formed. */
  lemma GetImageWellFormed(a: Assets, t: ImageType)
    requires WellFormedAssets(a) && t != ImageNtp
    ensures WellFormedImage(GetImage(a, t))
  {
    XbmBitsCover(ImageAsset(a, t));
  }

  /**
   * image_ntp is laid out with wifi's stride: it is well formed (each row
   * within the stride, all rows within its own mask) exactly when the two
   * assets round up to the same row length.
   */
  lemma NtpImageWellFormedIff(a: Assets)
    requires WellFormedAssets(a) && a.ntp.height > 0
    ensures WellFormedImage(GetImage(a, ImageNtp)) <==> XbmStride(a.wifi.width) == XbmStride(a.ntp.width)
  {
    var sw, sn := XbmStride(a.wifi.width), XbmStride(a.ntp.width);
    var img := GetImage(a, ImageNtp);
    assert img.width == a.ntp.width && img.height == a.ntp.height;
    assert img.stride == sw && img.mask == a.ntp.bits;
    XbmBitsCover(a.ntp);
    if sw < sn {
      StrideBelowWidth(a.ntp.width, sw);
    } else if sw > sn {
      RowsOverrunMask(a.ntp.height, sn, sw, |a.ntp.bits|);
    }
  }

  /**
   * Every read draw_image makes for image_ntp stays inside ntp_bits exactly
   * when wifi's stride is no longer than ntp's own, or the icon has a single
   * row. A shorter wifi stride keeps the reads in bounds but shears the icon.
   */
  lemma NtpReadsInMaskIff(a: Assets)
    requires WellFormedAssets(a) && a.ntp.width > 0
    ensures ReadsInMask(GetImage(a, ImageNtp)) <==> XbmStride(a.wifi.width) <= XbmStride(a.ntp.width) || a.ntp.height < 2
  {
    var sw, sn := XbmStride(a.wifi.width), XbmStride(a.ntp.width);
    var img := GetImage(a, ImageNtp);
    var w, h := a.ntp.width, a.ntp.height;
    assert img.width == w && img.height == h && img.stride == sw && img.mask == a.ntp.bits;
    XbmBitsCover(a.ntp);
    if sw <= sn || h < 2 {
      forall x: nat, y: nat | x < w && y < h
        ensures ImageBitIndex(img, x, y) < 8 * |img.mask|
      {
        RowReadInBounds(x, y, w, h, sw, sn);
      }
    } else {
      ShearedRowsOverrun(w, h, sn, sw);
      assert ImageBitIndex(img, w - 1, h - 1) >= 8 * |img.mask|;
    }
  }

  /** Pixel (x, y) at stride `stride` lies inside h rows of `own` when the stride is no longer, or y is row 0. */
  lemma RowReadInBounds(x: nat, y: nat, w: nat, h: nat, stride: nat, own: nat)
    requires x < w <= own && y < h && (stride <= own || h < 2)
    ensures y * stride + x < h * own
  {
    if stride <= own {
      MulLeft(y, stride, own);
      MulMonotone(y + 1, h, own);
    }
  }

  /** y * a <= y * b for a <= b. */
  lemma MulLeft(y: nat, a: nat, b: nat)
    requires a <= b
    ensures y * a <= y * b
  {
  }

  /** The last pixel of `h` >= 2 rows laid out at a longer stride lies past h rows of the shorter one. */
  lemma ShearedRowsOverrun(w: nat, h: nat, short: nat, long: nat)
    requires w > 0 && h >= 2 && short == XbmStride(w) && long % 8 == 0 && short < long
    ensures (h - 1) * long + (w - 1) >= h * short
  {
    assert long >= short + 8;
    MulLeft(h - 1, short + 8, long);
    assert (h - 1) * (short + 8) == (h - 1) * short + 8 * (h - 1);
  }

  /** A multiple of 8 below XbmStride(w) is shorter than w. */
  lemma StrideBelowWidth(w: nat, m: nat)
    requires m % 8 == 0 && m < XbmStride(w)
    ensures m < w
  {
    if w <= m {
      XbmStrideIsLeast(w, m);
    }
  }

  /** Rows longer than the ones the mask was sized for run past its end. */
  lemma RowsOverrunMask(h: nat, short: nat, long: nat, len: nat)
    requires h > 0 && short < long && h * short == 8 * len
    ensures h * long > 8 * len
  {
    MulMonotone(short + 1, long, h);
  }
}
