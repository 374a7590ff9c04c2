# WayColor color picker — a Dafny model

This project models the core of a desktop color picker written in Rust: the
color value type with its conversions, and the event handlers of the picker
window.

The color (`src/color.rs`) holds RGB channels in 0..255, a hue in 0..360,
saturation and value in 0..100, and a hex string. The constructors
`from_rgb`, `from_hsv` and `from_hex` clamp or validate their inputs and
derive the other representation. The free functions convert RGB to HSV, HSL
and CMYK and HSV to RGB through the 0..1 float scale, truncating back to
`u16`. `get_hex` writes `#` and the three channels in uppercase hexadecimal
without zero padding.

The window (`src/app.rs`) keeps the current color, the hex text, the open
tab, a "dragging" flag for the saturation/value plane and one per slider,
and a text buffer per slider. A drag on the plane sets saturation and value
from the pointer; a drag on a slider sets that channel; a scroll tick moves
a slider's channel by one; editing a slider text or the hex text sets the
color when the text parses. Every change goes through `set_color`, which
rewrites the hex text and the six slider texts.

Files:

- `rust_prims.dfy` (module `Prims`) holds the Rust primitives the code relies on:
  - `u16` and its clamp;
  - the saturating `as u16` cast of a float;
  - the `f32` remainder;
  - `u32::from_str_radix` in base 16;
  - the UTF-8 byte length that `String::len` counts;
  - `{:X}` and decimal formatting of integers.
- `color.dfy` (module `ColorModel`) holds the color value and its conversions.
  It is written as functions and lemmas, as the source is pure.
- `color_examples.dfy` (module `ColorExamples`) holds worked examples on concrete inputs.
- `app.dfy` (module `PickerApp`) holds the window state.
  - The state is a class `App` whose methods change its fields.
  - The pure parts of the handlers are functions beside it: `change_color_value`, `get_fixed_color_value`, the click-flag step and the drag arithmetic.
  - The egui `Response` is a record: the widget's interaction rectangle (`interact_rect`, which the handlers read), the pointer position if any, and two flags, "pointer over the widget" and "button held down on it".

Floats are exact reals. Every `as u16` cast is written out as `AsU16`. This
cast truncates toward zero, sends negative values to 0 and saturates at
65535.

Some behaviour of the code is easy to overlook; the model follows the code:

- `from_hex` accepts `#+12345`. `u32::from_str_radix` allows a leading `+`,
  so a sign and five digits pass as well as six digits.
- `from_hex` keeps the text it was given as the hex string, lower-case
  letters included. Hex text is therefore not always the canonical encoding
  of the channels.
- `get_hex` does not pad: black is `#000`. The hex string is six digits only
  when every channel is at least 16. Only then does `from_hex` read it back.
- `from_hsv` clamps the hue to 0..360, so a hue of exactly 360 is kept.
  Scrolling a hue of 360 up leaves it at 360.
- `from_hex` counts the length in UTF-8 bytes. A 7-character text with a
  non-ASCII character is rejected by the length test, even before the
  digits are read.

## Model

| member | source | states |
|---|---|---|
| `ColorModel.FromRgb` | src/color.rs:18-33 | every channel is its input clamped to 0..255; HSV is `rgb_to_hsv` of the clamped channels with hue below 360; hex is `get_hex` of them; the result is in range |
| `ColorModel.FromHsv` | src/color.rs:35-50 | hue is clamped to 0..360, saturation and value to 0..100; RGB is `hsv_to_rbg` of the clamped values; hex is `get_hex` of RGB; every RGB channel is at most 255 |
| `ColorModel.FromHex` | src/color.rs:52-73 | an accepted text gives an in-range color whose HSV is derived from its RGB and whose hex is the input text itself |
| `ColorModel.Color.Dim` | src/color.rs:75-80 | hue becomes `(h + 180) % 360`, saturation 30 and value `100 - v`; the addition may not overflow `u16` |
| `ColorModel.Color.Inv` | src/color.rs:82-87 | hue becomes `(h + 180) % 360`, saturation 85 and value 75, in range |
| `ColorModel.Color.ValueByName` | src/color.rs:93-103 | a name outside r, g, b, h, s, v gives 0; for an in-range color a named channel is at most that channel's maximum |
| `ColorModel.Color.FloatByName` | src/color.rs:105-115 | any name other than r, g, b, h, s, v gives 0 |
| `ColorModel.Color.FloatByNameScale` | src/color.rs:107-112 | a named channel's float is its value over the channel's maximum: 255 for r, g, b, 360 for h, 100 for s, v |
| `ColorModel.Color.FloatByNameUnit` | src/color.rs:105-115 | for an in-range color every name gives a float in 0..1 |
| `ColorModel.Hue` | src/color.rs:125-134 | the hue lies in 0..360 (exclusive) and is 0 when the chroma is at most 0.0001 |
| `ColorModel.RgbToHsv` | src/color.rs:118-142 | the hue is below 360 |
| `ColorModel.RgbToHsvReference` | src/color.rs:135-141 | on 0..255 channels: value is `100 * max / 255`; saturation is 0 when max is 0, else `100 * (max - min) / max`, truncated |
| `ColorModel.RgbToHsvBounds` | src/color.rs:135-141 | on 0..255 channels saturation and value are at most 100 |
| `ColorModel.RgbToHsvGray` | src/color.rs:126-127 | equal channels give hue 0 and saturation 0 |
| `ColorModel.RgbToHsvPrimaries` | src/color.rs:118-142 | pure red, green and blue give hues 0, 120, 240 at saturation and value 100 |
| `ColorModel.PrimaryHues` | src/color.rs:128-133 | the hue branches place the unit primaries red, green and blue at 0, 120 and 240 |
| `ColorModel.RgbToHsl` | src/color.rs:144-168 | the hue is below 360 |
| `ColorModel.RgbToHslReference` | src/color.rs:144-167 | lightness is `50 * (max + min) / 255`; a gray has hue and saturation 0; otherwise saturation is `100 * (max - min) / (255 - abs(max + min - 255))`, truncated |
| `ColorModel.RgbToHslBounds` | src/color.rs:161-167 | on 0..255 channels saturation and lightness are at most 100 |
| `ColorModel.RgbToHslRed` | src/color.rs:144-168 | pure red is (0, 100, 50) |
| `ColorModel.RgbToCymkReference` | src/color.rs:170-179 | `k` is `100 * (255 - max) / 255`; black is (0, 0, 0, 100) because the 0/0 inks cast to 0; other colors have inks `100 * (max - x) / max` in the order c, y, m |
| `ColorModel.RgbToCymkBounds` | src/color.rs:170-179 | on 0..255 channels every component is at most 100 |
| `ColorModel.RgbToCymkOrder` | src/color.rs:178 | the tuple order is (c, y, m, k): yellow gives (0, 100, 0, 0) |
| `ColorModel.RgbToCymk` | src/color.rs:170-179 | carries no ensures of its own; its properties are the lemmas `RgbToCymkReference`, `RgbToCymkBounds` and `RgbToCymkOrder` |
| `ColorModel.HsvToRgb` | src/color.rs:181-204 | carries no ensures of its own; its properties are the lemmas `HsvToRgbValue`, `HsvToRgbBounds`, `HsvToRgbGray`, `HsvToRgbFullCircle` and `HsvToRgbPrimaries` |
| `ColorModel.SectorWeight` | src/color.rs:185 | the factor `1 - abs((h / 60) % 2 - 1)` lies in 0..1 |
| `ColorModel.Band` | src/color.rs:187-199 | each component of the band's placement is the chroma, the second component or 0, and one of them is the chroma |
| `ColorModel.HsvParts` | src/color.rs:182-186 | for saturation and value up to 100, `0 <= x <= c <= v <= 1` |
| `ColorModel.HsvToRgbValue` | src/color.rs:181-204 | the largest RGB channel is `255 * v / 100`, truncated |
| `ColorModel.PlacementMax` | src/color.rs:187-203 | whatever the band, the largest cast channel is the one carrying the chroma |
| `ColorModel.HsvToRgbBounds` | src/color.rs:200-203 | every RGB channel is at most 255 |
| `ColorModel.HsvToRgbGray` | src/color.rs:181-204 | zero saturation gives three equal channels `255 * v / 100` |
| `ColorModel.HsvToRgbFullCircle` | src/color.rs:187-199 | hue 360 falls in the last band and gives the same RGB as hue 0 |
| `ColorModel.HsvToRgbPrimaries` | src/color.rs:181-204 | hues 0, 120, 240 at full saturation and value give pure red, green, blue |
| `ColorModel.HsvValueRoundTrip` | src/color.rs:181-204 | HSV to RGB and back to HSV loses at most one unit of value and never gains |
| `ColorModel.GetHex` | src/color.rs:206-208 | the text starts with `#`, has at least 4 characters and at most 7 for 0..255 channels |
| `ColorModel.FromHexAccepts` | src/color.rs:52-60 | accepted exactly when the text has 7 characters, starts with `#`, and continues with six hex digits or with `+` and five |
| `ColorModel.FromHexSigned` | src/color.rs:57-65 | after `#+` the five digits are one number; red is its top byte, below 16 |
| `ColorModel.FromHexWord` | src/color.rs:52-70 | once the length is 7 bytes, the text starts with `#` and the rest reads as x, red, green and blue are the three low big-endian bytes of x and the text is kept |
| `ColorModel.HexTextAscii` | src/color.rs:53 | a `#` followed by six hex digits, or by `+` and five, is 7 bytes long |
| `ColorModel.FromHexBytes` | src/color.rs:52-70 | for `#` and three pairs of hex digits, red, green and blue are the values of the pairs in order and the text is kept |
| `ColorModel.ParseSixDigits` | src/color.rs:57-58 | three pairs of hex digits read together as `(a * 256 + b) * 256 + c` of the pairs' values |
| `ColorModel.LowBytes` | src/color.rs:58 | the big-endian bytes of `(a * 256 + b) * 256 + c` below the top one are a, b and c when each is below 256 |
| `ColorModel.HexRoundTrip` | src/color.rs:206-208 | `from_hex(get_hex(r, g, b))` succeeds exactly when every channel is at least 16, and then gives `from_rgb(r, g, b)` |
| `ColorModel.HalfTurn` | src/color.rs:76 | the opposite hue `(h + 180) % 360` lies in 0..360 |
| `ColorModel.HalfTurnTwice` | src/color.rs:76 | two half turns return any hue below 360 |
| `ColorModel.InvTwice` | src/color.rs:82-87 | the contrasting color of the contrasting color has the original hue |
| `ColorModel.DimTwice` | src/color.rs:75-80 | dimming twice restores the value |
| `ColorExamples.FromHexDodgerBlue` | src/color.rs:52-73 | `#1E90FF` gives (30, 144, 255) and keeps its text |
| `ColorExamples.FromHexRejects` | src/color.rs:53-55 | `bad`, `#12345` and `1234567` are rejected |
| `ColorExamples.FromHexPlusSign` | src/color.rs:57-58 | `#+12345` is accepted as (1, 0x23, 0x45) |
| `ColorExamples.Bytes` | src/color.rs:52-70 | `#` and six hex digit characters give the channels of the three digit pairs |
| `ColorExamples.Signed` | src/color.rs:57-65 | `#+` and five digits reading as `(r * 256 + g) * 256 + b` give the channels r, g, b |
| `ColorExamples.HsvSaturationDrift` | src/color.rs:135-139 | HSV (0, 50, 2) becomes RGB (5, 2, 2), which reads back with saturation 60 |
| `ColorExamples.BlackHexIsShort` | src/color.rs:206-208 | black is written `#000`, which `from_hex` rejects |
| `Prims.AsU16` | src/color.rs:141 | the cast truncates inputs in 0..65536, gives 0 below 1 and saturates at 65535 |
| `Prims.AsU16Quotient` | src/color.rs:141 | casting a quotient of naturals is integer division |
| `Prims.FRem` | src/color.rs:129 | the `f32` remainder by a positive divisor lies in 0..y for a non-negative x, is x itself below y, and keeps the sign of x |
| `Prims.Clamp` | src/color.rs:19-21 | the result is within bounds, equals x inside them and the nearer bound outside |
| `Prims.QuotientInUnit` | src/app.rs:310-315 | a non-negative number over a larger positive one lies in 0..1, is 0 for 0 and 1 for itself |
| `Prims.ScaleDown` | src/color.rs:184-185 | a non-negative number scaled by a weight in 0..1 lies between 0 and itself |
| `Prims.ClampReal` | src/app.rs:305-306 | the result is within bounds and equals x inside them |
| `Prims.Utf8Len` | src/color.rs:53 | the byte length is at least the character count, and equal exactly when every character is ASCII |
| `Prims.StripPrefix` | src/color.rs:56 | present exactly when the text starts with the character, and then the rest of the text |
| `Prims.ParseHexDigits` | src/color.rs:57 | defined exactly on strings of hex digits, with a value below `16^n` |
| `Prims.ParseHexAppend` | src/color.rs:57 | one more hex digit multiplies the value by 16 and adds the digit |
| `Prims.ParseHexConcat` | src/color.rs:57 | reading `a + b` shifts the value of `a` by the length of `b` and adds the value of `b` |
| `Prims.FromStrRadix16` | src/color.rs:57 | an accepted text has a value below 2^32 |
| `Prims.FromStrRadix16Digits` | src/color.rs:57 | a non-empty run of hex digits whose value fits in 32 bits is accepted with that value |
| `Prims.UpperHex` | src/color.rs:207 | at least one hex digit, each one of `0`-`9` or uppercase `A`-`F`; one exactly below 16, at most two below 256 |
| `Prims.UpperHexParses` | src/color.rs:207 | reading back the digits `{:X}` writes gives the number |
| `Prims.Decimal` | src/app.rs:517 | `to_string` of a number is a non-empty string of decimal digits |
| `Prims.DecimalRoundTrip` | src/app.rs:517 | reading back the decimal text gives the number |
| `PickerApp.GetFixedColorValue` | src/app.rs:378-384 | the result is in 0..max; non-positive t gives 0, and so does unscaled t below 1 |
| `PickerApp.FixedScaled` | src/app.rs:378-384 | scaled, a t in 0..1 gives `floor(t * max)` |
| `PickerApp.FixedScaledAbove` | src/app.rs:378-384 | scaled, a t from 1 up gives max |
| `PickerApp.FixedUnscaled` | src/app.rs:378-384 | unscaled, a t in 0..max gives `floor(t)` and a t from max up gives max |
| `PickerApp.FractionOfMax` | src/app.rs:380 | `t * max` is non-positive for non-positive t, in 0..max for t in 0..1, and at least max for t from 1 up |
| `PickerApp.ChangeColorValue` | src/app.rs:342-376 | the new color is in range |
| `PickerApp.ChangeSetsChannel` | src/app.rs:342-373 | the named channel becomes `get_fixed_color_value` of t for that channel's maximum |
| `PickerApp.ChangeUnknownIsRed` | src/app.rs:374 | any other name gives `from_rgb(255, 0, 0)` |
| `PickerApp.ChangeRgbKeepsOthers` | src/app.rs:344-358 | changing r, g or b keeps the other two RGB channels of an in-range color and derives HSV and hex from RGB |
| `PickerApp.ChangeHsvKeepsOthers` | src/app.rs:359-373 | changing h, s or v keeps the other two HSV channels of an in-range color and derives RGB and hex from HSV |
| `PickerApp.ClickNext` | src/app.rs:289-297 | the flag is set only with the button down, is newly set only with the pointer over the widget, and stays or becomes set whenever the button is down and it was set or the pointer is over |
| `PickerApp.Rect.ClampPos` | src/app.rs:302-307 | the clamped pointer lies in the rectangle and is unchanged inside it |
| `PickerApp.Fraction` | src/app.rs:310-315 | the pointer's fraction across a range lies in 0..1, is 0 at the low end and 1 at the high end; an empty range gives the NaN of 0/0 |
| `PickerApp.Percent` | src/app.rs:310-312 | the cast of a fraction times 100 is its truncated percentage, NaN giving 0 |
| `PickerApp.DragColor` | src/app.rs:302-318 | on the plane the hue is kept, and the right or left edge gives saturation 100 or 0, the top or bottom edge value 100 or 0; on a slider the slider position is applied scaled |
| `PickerApp.SliderPosition` | src/app.rs:314-315 | the slider parameter lies in 0..1, 0 at or left of the left edge and 1 at or right of the right edge |
| `PickerApp.DragMainCorners` | src/app.rs:302-313 | the top-right corner gives saturation and value 100, the bottom-left 0 and 0, the hue kept |
| `PickerApp.DragMainInside` | src/app.rs:304-312 | inside the plane, saturation and value are the truncated percentages across and up the rectangle |
| `PickerApp.DragSliderValue` | src/app.rs:314-317 | a slider drag sets the channel to `floor(t * max)` of the pointer's fraction t across the slider, at most max |
| `PickerApp.DragSliderEnds` | src/app.rs:314-317 | a drag at or left of the slider's left end gives 0, at or right of a non-empty slider's right end the channel's maximum |
| `PickerApp.ScrolledColor` | src/app.rs:335-337 | the color after a scroll tick is in range |
| `PickerApp.ScrollStep` | src/app.rs:335-337 | a tick sets the channel to its value plus or minus one, clamped to the channel's range |
| `PickerApp.ScrollSaturates` | src/app.rs:329-338 | at the top of the range a tick up stays (hue 360 stays 360), at 0 a tick down stays 0, otherwise it moves by one |
| `PickerApp.TextEditColor` | src/app.rs:524-531 | a text that does not parse keeps the color; a parsed number gives an in-range color |
| `PickerApp.SyncedTexts` | src/app.rs:514-519 | the keys are kept and every entry that is not a channel label is kept |
| `PickerApp.SyncedTextsReadBack` | src/app.rs:517 | each synced label text is all digits and reads back as the channel's value |
| `PickerApp.SyncedPrefix` | src/app.rs:515-519 | the texts after part of the loop keep their keys |
| `PickerApp.SyncedPrefixStep` | src/app.rs:515-518 | one turn of the loop rewrites the next label's text when present |
| `PickerApp.SyncedPrefixAll` | src/app.rs:514-519 | after all six labels the loop has produced the synced texts |
| `PickerApp.SyncedTextsFixed` | src/app.rs:77-80 | texts already holding each label's decimal are unchanged by a sync |
| `PickerApp.SyncedTextsIdempotent` | src/app.rs:511-520 | syncing twice with the same color equals syncing once |
| `PickerApp.App.constructor` | src/app.rs:45-81 | the color is `from_rgb(22, 22, 33)`, the tab HSV, no flag set, hex and texts in step with the color |
| `PickerApp.App.SetColor` | src/app.rs:511-520 | the color is replaced, hex becomes its hex, the texts become the synced texts, tab and flags are unchanged |
| `PickerApp.App.HandleGradientClick` | src/app.rs:288-320 | the gradient's flag moves by `ClickNext`, other flags unchanged; with the flag set and a pointer the color becomes the drag color with texts in step, otherwise nothing else changes |
| `PickerApp.App.HandleGradientScroll` | src/app.rs:322-340 | with no vertical delta, the pointer outside or the main plane nothing changes; otherwise the slider's channel takes one tick and the texts follow |
| `PickerApp.App.OnSliderTextChanged` | src/app.rs:522-533 | for a label with a text, a parsed text applies its number unscaled and a failed parse keeps the color; either way the texts are resynced; an unknown label changes nothing |
| `PickerApp.App.EditSliderText` | src/app.rs:180-190 | the typed text is stored in the slider's field and handled as `on_slider_text_changed` does: the color becomes the text-edit color of the parsed text, with texts in step and tab and flags unchanged |
| `PickerApp.App.OnHexEdited` | src/app.rs:492-502 | the hex text is kept as typed; the color changes, with texts in step, only when `from_hex` accepts the text |
| `PickerApp.App.SetOpen` | src/app.rs:505-509 | an open toggle makes its key the tab; a closed one changes nothing |

## Left out

- `src/gradient.rs` is not part of this model. It creates and paints the OpenGL programs, and its per-pixel math is shader text run on the GPU.
- `src/theme.rs` (constant styling) and `src/main.rs` (window start-up) are not part of this model.
- The egui drawing in `src/app.rs` is left out:
  - `update`, `on_exit`, `draw_sliders`, `draw_slider` (apart from its text field, which is `App.EditSliderText`) and `draw_gradient`;
  - `draw_main_gradient`, `draw_slider_gradient`, `draw_gradient_frame` and `draw_gradient_canvas`;
  - `draw_gradient_handle`, `draw_values`, the footer's button and swatch, and `Color::to_color32`.
  - Only what the handlers read of a widget's `Response` is kept.
- `draw_tab_toggle` is not modelled: the toggle widget is egui's. Only the `set_open` it calls is.
- The layout fields of `App` and the gradient objects it holds are left out. These are the spacing, the gradient and slider sizes, the handle radii, and the `Arc<Mutex<Gradient>>` values.
- `run_hyprpicker` is left out because it runs a subprocess. What it does with the result is the same `from_hex` then `set_color` path as `App.OnHexEdited`.
- `f32` rounding is not modelled: every float is an exact real. A result that `f32` rounds just below an integer truncates one lower in Rust than here.
- NaN and infinity appear only where exact arithmetic divides by zero:
  - 0/0 in the CMYK inks of black, and on a zero-size rectangle, cast to 0;
  - a positive number over 0 in `PercentOf`, cast to 65535.
- `str::parse::<f32>` is the parameter `parse` of `App.OnSliderTextChanged` and `App.EditSliderText`, and it returns a finite real. Texts such as `nan` or `inf` that Rust parses to non-finite floats are not modelled.
- `ColorModel.Color.Inv` and `ColorModel.Color.Dim` require `h + 180` (and, for `Dim`, `100 - v`) to stay inside `u16`. Rust panics on that overflow in a debug build, and the model does not follow a release build's wrap-around.
- `PickerApp.App.HandleGradientClick` requires the rectangle to have `min <= max` on both axes, because `f32::clamp` panics otherwise. It also requires a slider's name to have a click flag, because `unwrap` panics otherwise.
- `PickerApp.App.EditSliderText` requires the slider to have a text field, because `unwrap` panics otherwise.
- `ColorModel.HsvValueRoundTrip` covers only value. Saturation does not survive an HSV to RGB to HSV round trip: `ColorExamples.HsvSaturationDrift` shows a drift of 10 units, from 50 to 60. Hue is not claimed either.
- `ColorModel.Hue`: its last branch, no channel equal to the maximum, cannot happen with exact reals. It is modelled as written, returning 0.
