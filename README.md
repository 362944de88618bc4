# monitor: a verified model of the display and message core

The firmware runs on an ESP32 board with a 480 x 320 LCD. It reads JSON
messages from MQTT and a wall clock. It turns them into `struct measurement`
values and puts them on a queue. A consumer loop then hands each one to a
display routine. The routines draw digits and icons pixel by pixel, using
X BitMap masks.

This project models that core in Dafny and proves what it does:

- `wrappers.dfy` (module `Wrappers`): the `Option` type.
- `std_int.dfy` (module `StdInt`): the fixed-width C integer types of the
  32-bit target, powers of two, which stand in for the source's shifts, and
  the bitwise or of unsigned values.
- `display_types.dfy` (module `DisplayTypes`): the enumerations, the payload
  structs and the tagged union `struct measurement` of `main/display.h`. The
  union is a datatype with one constructor per tag.
- `resources.dfy` (module `Resources`): the `struct image` / `struct font`
  descriptors and the `XBM_STRIDE` and `FONT_SPACING` macros. It also holds
  the `fonts[]` and `images[]` tables with `get_font` / `get_image`, and
  `image_bit` / `font_bit` (`main/resources.h`, `main/resources.c`). The
  `.xbm` assets are a parameter, `Assets`.
- `decimal.dfy` (module `Decimal`): the decimal digits of a value, the
  zero-padded digit row, and the BCD word that `draw_number` packs.
- `raster.dfy` (module `Raster`): what a drawing call puts on the screen. A
  `Paint` is one `fill`, `draw_image` or `draw_font` call. `Layers` gives
  the colour a pixel shows after a sequence of paints: the last paint that
  covers it wins. `NumberPaints` is the row of glyphs `draw_number` draws.
- `display.dfy` (module `Display`): `main/display.cpp`.
  - The class `Screen` holds the LCD framebuffer as a 480 x 320 `array2`.
    `lcd.writePixel` is a write into it that ignores pixels off the screen.
  - The static `ind_spacing` is a field of `Screen`.
  - `fill`, `draw_image`, `draw_font` and `draw_number` are methods with
    their nested loops. Every drawing method states the whole new
    framebuffer: the old one with its paints laid over it.
- `monitor.dfy` (module `Monitor`): `main/main.c`.
  - The cJSON accessors. A parsed object is a map from field name to a JSON
    value.
  - `handleJson`, as the sequence of measurements one message sends.
  - The measurement producers.
  - The wifi/ntp flags of the static `info`, as the class `Info` whose
    callbacks update them.
  - The tag switch of the consumer loop in `app_main`.

## Model

| member | source | states |
|---|---|---|
| DisplayTypes.IndicatorValue | main/display.h:14-18 | the indicator enumerators take the values 0, 1, 2 |
| DisplayTypes.IndicatorOfValue | main/display.h:14-18 | an integer names an indicator exactly when it is 0, 1 or 2, and then names the one with that value |
| DisplayTypes.PriceLevelValue | main/display.h:20-24 | low, normal and high take values below 3 |
| DisplayTypes.MeasTypeValue | main/display.h:26-39 | the eleven tags COMM .. PRICE take values below 11 |
| DisplayTypes.MeasTypeOfValue | main/display.h:26-39 | an integer names a tag exactly when it is in 0 .. 10, and then names the tag with that value |
| DisplayTypes.Tag | main/display.h:64-73 | the `id` field of `struct measurement` names the live member of its union: each tag holds exactly for its own payload |
| DisplayTypes.EnumValuesRoundTrip | main/display.h:14-39 | value and decoding are inverse for indicators and tags; distinct price levels have distinct values |
| Resources.XbmStride | main/resources.c:15 | the stride is a multiple of 8, at least w and less than w + 8 |
| Resources.XbmStrideIsLeast | main/resources.c:15 | no multiple of 8 that holds w pixels is below XBM_STRIDE(w) |
| Resources.FontSpacing | main/resources.c:18 | FONT_SPACING(w) is w / 200 rounded down: s * 200 <= w < (s + 1) * 200 |
| Resources.GetFont | main/resources.c:20-42 | glyph width is the strip width / 10, the stride is the strip's XBM stride; font28 is spaced by its width, font60 and font100 by their height |
| Resources.GetImage | main/resources.c:44-75 | each image has its asset's size and bits and its own stride, except image_ntp, which takes wifi's stride |
| Resources.GetFontWellFormed | main/resources.c:20-42 | with assets of the declared sizes, every font is well formed: its ten glyphs fit in a row and all rows fit in the mask |
| Resources.GetImageWellFormed | main/resources.c:44-75 | with assets of the declared sizes, every image except image_ntp is well formed: each row within the stride, all rows within the mask |
| Resources.NtpImageWellFormedIff | main/resources.c:51-56 | image_ntp is well formed exactly when the wifi and ntp widths round up to the same stride |
| Resources.NtpReadsInMaskIff | main/resources.c:51-56 | every bit draw_image reads for image_ntp lies inside ntp_bits exactly when wifi's stride is no longer than ntp's, or the icon has one row |
| Resources.BitOf | main/resources.h:67 | `(b >> k) & 1` is 0 or 1, and for k = 0 it is 1 exactly for odd bytes |
| Resources.BitIndexInMask | main/resources.h:65-67 | for x < stride and y < height, the byte read lies inside a mask of height * stride bits |
| Resources.ImageBit | main/resources.h:63-68 | image_bit is 0 or 1, and its byte read stays in bounds under the stated precondition |
| Resources.XbmRowLayout | main/resources.h:63-68 | with a byte-padded stride, pixel (x, y) is bit x % 8 of byte x / 8 of row y: least significant bit leftmost |
| Resources.GlyphColumnInRow | main/resources.h:80 | for glyph i < 10 and x < width, the strip column i * width + x is below the stride |
| Resources.FontBit | main/resources.h:77-83 | font_bit is 0 or 1, and its byte read stays in bounds for a well-formed font |
| Resources.FontBitIsStripBit | main/resources.h:77-83 | font_bit(f, i, x, y) is the strip image's bit at column i * width + x of row y |
| Resources.FontBitIndexInjective | main/resources.h:80 | distinct (glyph, x, y) of a strip read distinct bit indices |
| Decimal.Digits | main/display.cpp:71-75 | each digit is below 10; there are none exactly for 0; the first digit is never 0 |
| Decimal.Padded | main/display.cpp:76-78 | the row has max(digit count, min_digits) places, each below 10 |
| Decimal.DigitsSpellValue | main/display.cpp:71-75 | the digits of n, read left to right, spell n |
| Decimal.DigitsOfValue | main/display.cpp:71-75 | a digit row without a leading zero is the digit row of the value it spells, so the decomposition is unique |
| Decimal.DigitsBounds | main/display.cpp:71-75 | n has d digits exactly when 10^(d-1) <= n < 10^d |
| Decimal.PaddedSpellsValue | main/display.cpp:69-85 | the padded row spells n, carries no zeros beyond the padding, and is all zeros for n = 0 |
| Decimal.PaddedAt | main/display.cpp:80-82 | place i of the padded row is (n / 10^(count-1-i)) % 10, 0 in the padding |
| Decimal.PaddedExact | main/display.cpp:76-78 | a value below 10^k padded to k places takes exactly k places |
| Decimal.AtMostEightDigits | main/display.cpp:72 | a value below 10^8 has at most eight digits, so every nibble shift stays below 32 |
| Decimal.Bcd | main/display.cpp:69-75 | the BCD word is zero exactly for 0 and its low nibble is the units digit; BcdNibble and BcdBound give the rest |
| Decimal.BcdNibble | main/display.cpp:72 | nibble j of the BCD word is decimal digit j of n, counted from the least significant end |
| Decimal.BcdStep | main/display.cpp:72-74 | one packing step keeps the word plus the unpacked rest equal, and the word never shrinks |
| Decimal.BcdBound | main/display.cpp:72 | the BCD word of n fits in 4 bits per digit |
| Decimal.NibbleIsPaddedDigit | main/display.cpp:81-82 | `(bcd >> (digits - i - 1) * 4) & 0xf` is place i of the padded row, zero nibbles included |
| Raster.PaintAt | main/display.cpp:25-56 | a rectangle colours exactly its box; a masked paint writes 0 or its colour, only inside its box |
| Raster.LayersAppend | main/display.cpp:191-192 | two drawing calls in a row show the second one's paints over the first one's |
| Raster.LayersUncovered | main/display.cpp:94-104 | a pixel no paint covers keeps its colour |
| Raster.GlyphRow | main/display.cpp:80-85 | glyph i is at x + (width + spacing) * i, on row y, for digit i |
| Raster.NumberPaints | main/display.cpp:66-86 | every glyph draw_number draws is drawable with a well-formed font |
| Raster.NumberPaintsSpellValue | main/display.cpp:69-85 | draw_number draws max(digit count, min_digits) glyphs, each 0..9, at a fixed pitch on one row, and read left to right they spell the value |
| Raster.NumberPaintsOfZero | main/display.cpp:71-78 | the value 0 is drawn as exactly min_digits zeros, so nothing when min_digits is 0 |
| Display.PriceColor | main/display.cpp:139-156 | display_price's switch: green exactly for `low`, red exactly for `high`, and the main colour for `normal` and any other value |
| Display.IndicatorColor | main/display.cpp:258-278 | display_indicator's switch: black exactly when off and red exactly when connected; IndicatorColorsDistinct separates all three states |
| Display.IconColor | main/display.cpp:236-251 | display_icon's switch agrees with display_indicator's except when on, where its yellow differs |
| Display.IndicatorSpacing | main/display.cpp:229-232 | 480 / amount truncated toward zero: the most slots of that width fit in 480 columns, with the sign of amount |
| Display.IndicatorSlot | main/display.cpp:280 | the fill of slot `index`: bottom-aligned, in the given colour, ending where slot index + 1 starts |
| Display.IconPaint | main/display.cpp:252-254 | the image drawn 3 pixels right of the left edge of slot `index`, on the slot's top row, in the given colour |
| Display.PriceColorDefault | main/display.cpp:139-156 | a price level outside the enumeration gets the "normal" colour |
| Display.PriceColorsDistinct | main/display.cpp:139-152 | low, normal and high have three different colours |
| Display.IndicatorColorsDistinct | main/display.cpp:234-278 | OFF, ON and CONNECTED have three different indicator colours and three different icon colours |
| Display.IndicatorSlotsFit | main/display.cpp:229-232 | with amount > 0 slots of 480 / amount columns, slot index < amount ends inside the screen |
| Display.IndicatorSlotsDisjoint | main/display.cpp:280 | two different indicator slots share no pixel |
| Display.IconInsideSlot | main/display.cpp:254 | an icon at most spacing - 3 wide and 33 high lies inside its indicator slot |
| Display.NibblesArePaddedDigits | main/display.cpp:80-82 | every nibble the drawing loop reads, most significant first, is the matching place of the zero-padded digit row, a digit 0..9 |
| Display.TimeFieldGlyphs | main/display.cpp:191-192 | a time field below 100 is drawn as its tens then its units |
| Display.LevelGlyphs | main/display.cpp:182 | a level below 1000 is drawn as hundreds, tens and units |
| Display.TimePaints | main/display.cpp:186-195 | the paints of display_time are drawable with a well-formed font |
| Display.TimePaintsSpellClock | main/display.cpp:186-195 | a valid clock time is drawn as four digits, hour tens to minute units; hours at x = 10, minutes at x = 270, both on row 20 |
| Display.Screen.constructor | main/display.cpp:16-17 | a fresh 480 x 320 framebuffer, with ind_spacing 10 |
| Display.Screen.WritePixel | main/display.cpp:101 | exactly the one pixel (x, y) changes, and only when it is on the screen |
| Display.Screen.Fill | main/display.cpp:94-104 | the pixels with x <= px < x + width and y <= py < y + height become the colour; no other pixel changes |
| Display.Screen.DrawImage | main/display.cpp:25-36 | every pixel of the image box gets the colour where the mask bit is 1 and 0 where it is 0; no other pixel changes |
| Display.Screen.DrawFont | main/display.cpp:45-56 | the same for glyph `index` of the font strip |
| StdInt.BitOr | main/display.cpp:72 | C's bitwise or on unsigned values; or-ing into 0 gives the other operand, and BitOrDisjoint gives the value on disjoint bits |
| StdInt.BitOrDisjoint | main/display.cpp:72 | with `StdInt.BitOr` as C's bitwise or on unsigned values, or-ing a word below 2^k with a digit shifted up by k bits equals adding them, so the or-assignment sets only zero bits |
| Display.Screen.PackBcd | main/display.cpp:69-75 | the packing loop leaves the BCD word of the value and its count of decimal digits; each or-assignment lands above the nibbles already packed |
| Display.Screen.DrawDigits | main/display.cpp:80-85 | glyph i, holding nibble i from the top, is drawn at x + (width + spacing) * i; the screen shows that glyph row laid over its old contents |
| Display.Screen.DrawNumber | main/display.cpp:66-86 | the screen shows the glyph row NumberPaints laid over its old contents; no other pixel changes |
| Display.Screen.SetIndicatorAmount | main/display.cpp:229-232 | ind_spacing becomes 480 / amount |
| Display.Screen.DisplayIndicator | main/display.cpp:258-282 | slot `index` of the bottom 33 rows is filled with the state's colour; no other pixel changes |
| Display.Screen.DisplayIcon | main/display.cpp:234-256 | the image is drawn 3 pixels into slot `index`, in the state's icon colour; no other pixel changes |
| Display.Screen.DisplayLevel | main/display.cpp:177-184 | the level is drawn in font28 at (160, 170) with at least three digits |
| Display.Screen.DisplayTime | main/display.cpp:186-195 | hours, then minutes, are drawn in font100 with two digits each |
| Monitor.TypeCode | main/main.c:58 | cJSON's type codes are single bits, and code 2 is exactly JSON true |
| Monitor.CString | main/main.c:279 | the string a buffer holds is its prefix before the first NUL |
| Monitor.GetJsonStr | main/main.c:37-50 | the result holds no NUL: it is a C string |
| Monitor.GetJsonStrCases | main/main.c:37-50 | a present string field is returned as is; a missing or non-string field gives the empty string |
| Monitor.GetJsonState | main/main.c:52-66 | true exactly when the field is present and is JSON true |
| Monitor.GetJsonInt | main/main.c:69-89 | reports a change and writes the field's integer exactly when the field is present, numeric and differs from `*val`; otherwise `*val` stays |
| Monitor.GetJsonFloat | main/main.c:91-112 | the same change detection on valuedouble, with exact equality |
| Monitor.GetJsonUpdateSettles | main/main.c:69-112 | reading a field again into the value just written reports no change |
| Monitor.DispTemperature | main/main.c:245-251 | a TEMPERATURE measurement carrying the temperature |
| Monitor.DispLevel | main/main.c:253-259 | a LEVEL measurement carrying the level |
| Monitor.DispState | main/main.c:261-267 | a CARHEATER measurement carrying the indicator state |
| Monitor.ToUint8 | main/main.c:118-120 | the conversion to uint8_t keeps values in 0..255 and otherwise reduces modulo 256 |
| Monitor.DispTime | main/main.c:114-122 | a TIME measurement; for a valid `struct tm` it carries the hour, minute and second unchanged |
| Monitor.TemperatureBranch | main/main.c:281-298 | the temperature branch sends at most one measurement |
| Monitor.ThermostatBranch | main/main.c:299-309 | the thermostat branch sends at most one measurement |
| Monitor.RelayBranch | main/main.c:311-339 | the relay branch sends at most one measurement |
| Monitor.HandleJson | main/main.c:270-343 | every message sends at most one measurement, and an unparsable one sends none |
| Monitor.UnknownIdSendsNothing | main/main.c:279-339 | an id other than temperature, thermostat and relay sends nothing |
| Monitor.RelayOff | main/main.c:314-320 | a relay message (any id whose C string is "relay") whose state is not true sends exactly CARHEATER OFF |
| Monitor.RelayOn | main/main.c:321-337 | with state true: CONNECTED for power above 10.0, ON for power at most 10.0, nothing for a missing, non-numeric or -1.0 power |
| Monitor.TemperatureSent | main/main.c:281-298 | TEMPERATURE t is sent exactly for id temperature, sensor ntc and a numeric value t other than 0 |
| Monitor.LevelSent | main/main.c:299-309 | LEVEL l is sent exactly for id thermostat and a numeric value l other than 0 |
| Monitor.Step | main/main.c:176-209 | STA_START and STA_DISCONNECTED clear both flags; GOT_IP sets wifi and a time sync sets ntp, each keeping the other flag |
| Monitor.Replay | main/main.c:176-209 | after a run of callbacks a flag is set only if it was set already or its setter occurred; ReplayFlags gives the exact condition |
| Monitor.ReplayFlags | main/main.c:193-209 | after any run of callbacks, wifi is set exactly when GOT_IP came after the last STA_START / STA_DISCONNECTED; ntp likewise for a time sync |
| Monitor.ToUnsignedLong | main/main.c:489 | the level reaches display_level as an unsigned long: unchanged when non-negative, plus 2^32 when negative |
| Monitor.Render | main/main.c:478-501 | a received measurement leads to a display call exactly when its tag is TEMPERATURE, LEVEL, CARHEATER or TIME |
| Monitor.RenderPassesPayload | main/main.c:482-500 | each display call receives the payload its tag names |
| Monitor.Dispatch | main/main.c:472-507 | every display call comes from a received measurement whose tag is rendered; DispatchAppend and DispatchCount give order and count |
| Monitor.ConsumerLoop | main/main.c:472-507 | the loop makes the calls Dispatch specifies, in order; a timeout makes none |
| Monitor.DispatchAppend | main/main.c:472-507 | receiving a then b makes a's calls then b's |
| Monitor.DispatchCount | main/main.c:476-506 | exactly one call per received measurement with a rendered tag, so never more calls than receives |
| Monitor.ProducedIsRendered | main/main.c:478-501 | every measurement handleJson and dispTime send leads to a display call |
| Monitor.Info.constructor | main/main.c:26 | the static `info` starts with both flags false and all fields zero |
| Monitor.Info.OnNetEvent | main/main.c:193-209 | STA_START / STA_DISCONNECTED clear both flags, GOT_IP sets wifi only, other events change nothing; the other fields stay |
| Monitor.Info.OnTimeSync | main/main.c:177-181 | the NTP sync sets ntp; nothing else changes |
| Monitor.Info.OnClockTick | main/main.c:126-155 | sends one TIME measurement and keeps its hour, minute and second in `info`; the flags stay |
| Monitor.Info.OnMqttData | main/main.c:270-343 | sends what handleJson sends; a sent temperature is kept in `info.temperature` and a sent level in `info.pressure` |

## Left out

- WiFi, SNTP and MQTT setup and subscription, and the initialisation in `app_main`. These are platform I/O. The event and sync callbacks are modelled only through their effect on the flags. The calls they make (`esp_wifi_connect`, `ntp_init`) are not modelled.
- The FreeRTOS queue. A producer is modelled as the sequence of measurements it sends. The consumer is modelled as a finite sequence of receive results, with None standing for a timeout; its `while (1)` runs over that sequence.
- cJSON parsing and lookup. A parsed object is a map from field name to value, so cJSON's case-insensitive lookup and duplicate keys are not modelled. A number carries both `valueint` and `valuedouble` as given.
- Floating point. Temperatures, powers and prices are reals, so float/double rounding is not modelled. The humidity split, and the whole/fraction splits of `display_temperature` and `display_price`, are not modelled either.
- `display_temperature`, the drawing part of `display_price`, `display_static_elements` and `display_init`'s LCD set-up are not modelled; only the colour switch of `display_price` is. `display_comm` uses an image type missing from `enum image_type` and is not modelled. `display_redraw` is declared but not defined and is not part of this model.
- The LCD driver: colours are constants (`color888` packed as 0xRRGGBB), and `startWrite` / `endWrite` are not modelled.
- The `.xbm` asset contents and sizes are the parameter `Assets`.
- The return value of `handleJson` is always 0 and is not modelled.
- `main/main.c` calls `display_indicator` with the state only, although the header declares an index too. `Monitor.Render` records the call with its state, and no index.
- Monitor.HandleJson: requires the `id` string to be at most 19 long, because `strcpy` into `char id[20]` overflows beyond that. Each `char` of a `JString` stands for one byte of the C string, so the bound is on bytes; the model does not encode text as UTF-8.
- Display.Screen.DrawNumber: requires a value below 10^8 and at most 8 minimum digits. A ninth digit would shift by 32 or more in a 32-bit `size_t`, which C leaves undefined.
- Display.Screen.DisplayLevel: requires a level below 10^8, for the same reason. A negative level reaches `display_level` as a large unsigned long, and that case is not modelled. It also requires font28 to be well formed; `Resources.GetFontWellFormed` gives this for assets of the declared sizes.
- Display.Screen.DisplayTime: requires font100 to be well formed, as `Resources.GetFontWellFormed` gives for assets of the declared sizes.
- Display.Screen.DisplayIcon: requires the image to be well formed (each row within the stride, all rows within the mask), because `Resources.ImageBit` is defined only there. For image_ntp this excludes more than out-of-bounds reads: `Resources.NtpReadsInMaskIff` shows that a wifi stride shorter than ntp's keeps every read inside ntp_bits but draws a sheared icon, and the model does not draw that case.
- Display.Screen.DisplayIndicator: requires a non-negative `ind_spacing`. A negative amount gives a negative spacing, and the conversion of `index * ind_spacing` to `size_t` is not modelled.
- Display.Screen.Fill: coordinates are unbounded naturals, so a `size_t` wrap-around of `x + width` or `y + height` is not modelled. The same holds for `dx + x` and `dy + y` in Display.Screen.DrawImage and Display.Screen.DrawFont, for `index * ind_spacing + 3` in Display.Screen.DisplayIcon, and for `x + (font->width + font->spacing) * i` in Display.Screen.DrawDigits and Display.Screen.DrawNumber.
- Monitor.Info: the humidity field is left out, since only the floating-point split writes it.
