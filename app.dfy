/** The picker's interaction state (src/app.rs): the current color, the hex
    text, the open tab, the "dragging" flags of the main gradient and of each
    slider, and the text buffer beside each slider. The egui widgets are
    reduced to what the handlers read of them: a `Response` holding the
    widget's rectangle, the pointer position, whether the pointer is over the
    widget and whether a button is held down on it. */
module PickerApp {
  import opened Prims
  import opened ColorModel

  /** Which gradient a response belongs to: the saturation/value plane, or the
      slider of one named channel. */
  datatype GradientType = Gradient | Slider(name: string)

  datatype Pos = Pos(x: real, y: real)

  /** An egui rectangle; `f32::clamp` panics unless `min <= max` on both axes. */
  datatype Rect = Rect(min: Pos, max: Pos)
  {
    predicate Ordered() { min.x <= max.x && min.y <= max.y }

    function Width(): real { max.x - min.x }

    function Height(): real { max.y - min.y }

    /** The point clamped into the rectangle. */
    function ClampPos(p: Pos): (q: Pos)
      requires Ordered()
      ensures min.x <= q.x <= max.x && min.y <= q.y <= max.y
      ensures min.x <= p.x <= max.x && min.y <= p.y <= max.y ==> q == p
    {
      Pos(ClampReal(p.x, min.x, max.x), ClampReal(p.y, min.y, max.y))
    }
  }

  /** What a handler reads of an egui `Response`. */
  datatype Response = Response(rect: Rect, hoverPos: Option<Pos>, containsPointer: bool, buttonDownOn: bool)

  // ---------------------------------------------------------------------
  // Pure logic of the handlers
  // ---------------------------------------------------------------------

  /** `get_fixed_color_value`: the `u16` cast of `t` (of `t * max` when
      scaled), clamped to `0..max`. */
  function GetFixedColorValue(t: real, max: U16, scaled: bool): (x: U16)
    ensures x <= max
    ensures t <= 0.0 ==> x == 0
    ensures !scaled && t < 1.0 ==> x == 0
  {
    if scaled then
      FractionOfMax(t, max);
      Clamp(AsU16(Scaled(t, max)), 0, max)
    else
      Clamp(AsU16(t), 0, max)
  }

  /** A slider position in 0..1 becomes that fraction of the range, rounded down. */
  lemma FixedScaled(t: real, max: U16)
    requires 0.0 <= t <= 1.0
    ensures GetFixedColorValue(t, max, true) == Scaled(t, max).Floor
  {
    FractionOfMax(t, max);
    var y := Scaled(t, max);
    assert AsU16(y) as real <= y < AsU16(y) as real + 1.0;
  }

  /** A slider position at or past the right end gives the top of the range. */
  lemma FixedScaledAbove(t: real, max: U16)
    requires 1.0 <= t
    ensures GetFixedColorValue(t, max, true) == max
  {
    FractionOfMax(t, max);
    var y := Scaled(t, max);
    AsU16Monotonic(max as real, y);
    assert (max as real).Floor == max;
    assert max <= AsU16(y);
  }

  /** An unscaled value is truncated and then kept within 0..max. */
  lemma FixedUnscaled(t: real, max: U16)
    ensures 0.0 <= t <= max as real ==> GetFixedColorValue(t, max, false) == t.Floor
    ensures max as real <= t ==> GetFixedColorValue(t, max, false) == max
  {
    if 0.0 <= t <= max as real {
      assert AsU16(t) as real <= t < AsU16(t) as real + 1.0;
    } else if max as real <= t {
      AsU16Monotonic(max as real, t);
      assert AsU16(max as real) == max;
    }
  }

  /** The slider fraction `t` applied to the range `max`. */
  function Scaled(t: real, max: U16): real
  {
    t * max as real
  }

  lemma FractionOfMax(t: real, max: U16)
    ensures t <= 0.0 ==> Scaled(t, max) <= 0.0
    ensures 0.0 <= t <= 1.0 ==> 0.0 <= Scaled(t, max) <= max as real
    ensures 1.0 <= t ==> max as real <= Scaled(t, max)
  {
    if 0.0 <= t <= 1.0 {
      ScaleDown(max as real, t);
    } else if max > 0 {
      if t < 0.0 {
        MulMonotonic(max as real, t, 0.0);
      } else {
        MulMonotonic(max as real, 1.0, t);
      }
    }
  }

  /** `change_color_value`: the color with the channel `channel` set to the
      fixed value of `t`, rebuilt from RGB for r, g, b and from HSV for h, s, v;
      any other channel gives pure red. */
  function ChangeColorValue(c: Color, channel: string, t: real, scaled: bool): (n: Color)
    ensures n.InRange()
  {
    if channel == "r" then FromRgb(GetFixedColorValue(t, 255, scaled), c.g, c.b)
    else if channel == "g" then FromRgb(c.r, GetFixedColorValue(t, 255, scaled), c.b)
    else if channel == "b" then FromRgb(c.r, c.g, GetFixedColorValue(t, 255, scaled))
    else if channel == "h" then FromHsv(GetFixedColorValue(t, 360, scaled), c.s, c.v)
    else if channel == "s" then FromHsv(c.h, GetFixedColorValue(t, 100, scaled), c.v)
    else if channel == "v" then FromHsv(c.h, c.s, GetFixedColorValue(t, 100, scaled))
    else FromRgb(255, 0, 0)
  }

  /** The click flag after one frame: it is set when the button goes down
      with the pointer over the widget, and cleared as soon as the button is
      no longer down on it. */
  function ClickNext(click: bool, response: Response): (b: bool)
    ensures b ==> response.buttonDownOn
    ensures b && !click ==> response.containsPointer
    ensures response.buttonDownOn && (click || response.containsPointer) ==> b
  {
    if response.containsPointer && response.buttonDownOn && !click then true
    else if !response.buttonDownOn && click then false
    else click
  }

  /** The position of `p` across `lo..hi` as a fraction; on an empty range
      the source divides 0 by 0, and the NaN it gets turns into 0 at every
      later `u16` cast, which is what `None` stands for here. */
  function Fraction(p: real, lo: real, hi: real): (f: Option<real>)
    requires lo <= p <= hi
    ensures f.None? <==> lo == hi
    ensures f.Some? ==> 0.0 <= f.value <= 1.0
    ensures f.Some? && p == lo ==> f.value == 0.0
    ensures f.Some? && p == hi ==> f.value == 1.0
  {
    if lo == hi then None
    else
      var f := (p - lo) / (hi - lo);
      QuotientInUnit(p - lo, hi - lo);
      Some(f)
  }

  /** The `u16` cast of `f * 100`, NaN giving 0. */
  function Percent(f: Option<real>): (x: U16)
    ensures f.Some? && 0.0 <= f.value <= 1.0 ==> x <= 100 && x == (f.value * 100.0).Floor
    ensures f.None? ==> x == 0
  {
    match f
    case None => 0
    case Some(q) => AsU16(q * 100.0)
  }

  /** The color a drag sets, with the pointer `pos` clamped into `rect`: on
      the main plane the hue is kept, the horizontal fraction becomes the
      saturation and the vertical one, counted from the bottom, the value; on
      a slider the horizontal fraction is applied scaled to that channel. */
  function DragColor(c: Color, gtype: GradientType, rect: Rect, pos: Pos): (n: Color)
    requires rect.Ordered()
    ensures n.InRange()
    ensures gtype.Gradient? ==> n.h == Clamp(c.h, 0, 360) && n.s <= 100 && n.v <= 100
    ensures gtype.Gradient? && pos.x >= rect.max.x && rect.min.x < rect.max.x ==> n.s == 100
    ensures gtype.Gradient? && pos.x <= rect.min.x ==> n.s == 0
    ensures gtype.Gradient? && pos.y <= rect.min.y && rect.min.y < rect.max.y ==> n.v == 100
    ensures gtype.Gradient? && pos.y >= rect.max.y ==> n.v == 0
    ensures gtype.Slider? ==> n == ChangeColorValue(c, gtype.name, SliderPosition(rect, pos), true)
  {
    var q := rect.ClampPos(pos);
    match gtype
    case Gradient =>
      var s := Percent(Fraction(q.x, rect.min.x, rect.max.x));
      var fy := Fraction(q.y, rect.min.y, rect.max.y);
      var v := if fy.None? then 0 else Percent(Some(1.0 - fy.value));
      FromHsv(c.h, s, v)
    case Slider(name) =>
      ChangeColorValue(c, name, SliderPosition(rect, pos), true)
  }

  /** The slider parameter `t`: the clamped pointer's horizontal fraction, in
      0..1 (0 on an empty rectangle, where the NaN of 0/0 casts to 0 as 0 does). */
  function SliderPosition(rect: Rect, pos: Pos): (t: real)
    requires rect.Ordered()
    ensures 0.0 <= t <= 1.0
    ensures pos.x <= rect.min.x ==> t == 0.0
    ensures pos.x >= rect.max.x && rect.min.x < rect.max.x ==> t == 1.0
  {
    var q := rect.ClampPos(pos);
    match Fraction(q.x, rect.min.x, rect.max.x)
    case None => 0.0
    case Some(f) => f
  }

  /** The channel value one scroll tick asks for: the current value plus
      one when scrolling up, minus one otherwise (an `i32` sum that cannot
      overflow here), applied unscaled. */
  function ScrolledColor(c: Color, name: string, up: bool): (n: Color)
    ensures n.InRange()
  {
    var value := c.ValueByName(name) + if up then 1 else -1;
    ChangeColorValue(c, name, value as real, false)
  }

  /** The color after a slider text edit: the parsed number applied to the
      channel unscaled, or the same color when the text does not parse. */
  function TextEditColor(c: Color, channel: string, parsed: Option<real>): (n: Color)
    ensures parsed.None? ==> n == c
    ensures parsed.Some? ==> n.InRange()
  {
    match parsed
    case Some(t) => ChangeColorValue(c, channel, t, false)
    case None => c
  }

  /** The slider texts after `set_color(c)`: each channel present gets the
      decimal of its channel; every other entry, and the set of keys, stay. */
  function SyncedTexts(texts: map<string, string>, c: Color): (t: map<string, string>)
    ensures t.Keys == texts.Keys
    ensures forall k :: k in texts && k !in Labels ==> t[k] == texts[k]
  {
    map k | k in texts :: if k in Labels then Decimal(c.ValueByName(k)) else texts[k]
  }

  // ---------------------------------------------------------------------
  // Properties of the handlers
  // ---------------------------------------------------------------------

  /** Each synced text reads back as the channel value it was written from. */
  lemma SyncedTextsReadBack(texts: map<string, string>, c: Color, k: string)
    requires k in texts && k in Labels
    ensures var t := SyncedTexts(texts, c);
      forall i :: 0 <= i < |t[k]| ==> '0' <= t[k][i] <= '9'
    ensures DecimalValue(SyncedTexts(texts, c)[k]) == c.ValueByName(k)
  {
    DecimalRoundTrip(c.ValueByName(k));
  }

  /** The slider texts after the first `i` labels of the loop in `set_color`. */
  function SyncedPrefix(texts: map<string, string>, c: Color, i: nat): (t: map<string, string>)
    requires i <= |Labels|
    ensures t.Keys == texts.Keys
  {
    map k | k in texts :: if k in Labels[..i] then Decimal(c.ValueByName(k)) else texts[k]
  }

  /** One more turn of the loop rewrites the text of the next label, if present. */
  lemma SyncedPrefixStep(texts: map<string, string>, c: Color, i: nat)
    requires i < |Labels|
    ensures var t, k := SyncedPrefix(texts, c, i), Labels[i];
      SyncedPrefix(texts, c, i + 1) == if k in t then t[k := Decimal(c.ValueByName(k))] else t
  {
    assert Labels[..i + 1] == Labels[..i] + [Labels[i]];
  }

  /** After all six labels the loop has produced `SyncedTexts`. */
  lemma SyncedPrefixAll(texts: map<string, string>, c: Color)
    ensures SyncedPrefix(texts, c, |Labels|) == SyncedTexts(texts, c)
  {
    assert Labels[..|Labels|] == Labels;
  }

  /** Texts that already hold the decimal of every label are left as they are. */
  lemma SyncedTextsFixed(texts: map<string, string>, c: Color)
    requires forall k :: k in texts && k in Labels ==> texts[k] == Decimal(c.ValueByName(k))
    ensures SyncedTexts(texts, c) == texts
  {
  }

  /** Syncing twice with the same color is the same as syncing once. */
  lemma SyncedTextsIdempotent(texts: map<string, string>, c: Color)
    ensures SyncedTexts(SyncedTexts(texts, c), c) == SyncedTexts(texts, c)
  {
  }

  /** A slider drag sets its channel to the truncation of `t * max`, where
      `t` is the pointer's fraction across the slider; the left end gives 0
      and the right end the channel's maximum. */
  lemma DragSliderValue(c: Color, name: string, rect: Rect, pos: Pos)
    requires rect.Ordered() && name in Labels
    ensures var n := DragColor(c, Slider(name), rect, pos);
      n.ValueByName(name) == Scaled(SliderPosition(rect, pos), ChannelMax(name)).Floor <= ChannelMax(name)
  {
    var t, max := SliderPosition(rect, pos), ChannelMax(name);
    var n := DragColor(c, Slider(name), rect, pos);
    assert n == ChangeColorValue(c, name, t, true);
    ChangeSetsChannel(c, name, t, true);
    assert n.ValueByName(name) == GetFixedColorValue(t, max, true);
    FixedScaled(t, max);
  }

  /** Dragging to the left end of a slider gives 0, to the right end the top of its range. */
  lemma DragSliderEnds(c: Color, name: string, rect: Rect, pos: Pos)
    requires rect.Ordered() && name in Labels
    ensures pos.x <= rect.min.x ==> DragColor(c, Slider(name), rect, pos).ValueByName(name) == 0
    ensures pos.x >= rect.max.x && rect.min.x < rect.max.x ==>
      DragColor(c, Slider(name), rect, pos).ValueByName(name) == ChannelMax(name)
  {
    DragSliderValue(c, name, rect, pos);
    var t := SliderPosition(rect, pos);
    if pos.x <= rect.min.x {
      assert t == 0.0;
    }
    if pos.x >= rect.max.x && rect.min.x < rect.max.x {
      assert t == 1.0;
    }
  }


  /** Dragging to the top-right corner of the main plane gives full
      saturation and value, and to the bottom-left corner none, the hue kept. */
  lemma DragMainCorners(c: Color, rect: Rect)
    requires rect.min.x < rect.max.x && rect.min.y < rect.max.y && c.h <= 360
    ensures var n := DragColor(c, Gradient, rect, Pos(rect.max.x, rect.min.y));
      n.h == c.h && n.s == 100 && n.v == 100
    ensures var n := DragColor(c, Gradient, rect, Pos(rect.min.x, rect.max.y));
      n.h == c.h && n.s == 0 && n.v == 0
  {
  }

  /** Inside the main plane, saturation and value are the truncated
      percentages of the pointer's position across and up the rectangle. */
  lemma DragMainInside(c: Color, rect: Rect, pos: Pos)
    requires rect.min.x < rect.max.x && rect.min.y < rect.max.y
    requires rect.min.x <= pos.x <= rect.max.x && rect.min.y <= pos.y <= rect.max.y
    ensures var n := DragColor(c, Gradient, rect, pos);
      n.s == ((pos.x - rect.min.x) / rect.Width() * 100.0).Floor &&
      n.v == ((1.0 - (pos.y - rect.min.y) / rect.Height()) * 100.0).Floor
  {
    var fx := Fraction(pos.x, rect.min.x, rect.max.x);
    var fy := Fraction(pos.y, rect.min.y, rect.max.y);
    assert 0.0 <= 1.0 - fy.value <= 1.0;
  }

  /** A scroll tick sets the channel to its value plus or minus one,
      clamped to the channel's range. */
  lemma ScrollStep(c: Color, name: string, up: bool)
    requires name in Labels
    ensures ScrolledColor(c, name, up).ValueByName(name) ==
      Clamp(c.ValueByName(name) + (if up then 1 else -1), 0, ChannelMax(name))
  {
    var value := c.ValueByName(name) + if up then 1 else -1;
    ChangeSetsChannel(c, name, value as real, false);
    assert (value as real).Floor == value;
  }

  /** A scroll tick at the top of a channel's range leaves it there, and one
      at 0 going down leaves it at 0 (hue 360 scrolled up stays 360); in
      between it moves the channel by one. */
  lemma ScrollSaturates(c: Color, name: string)
    requires c.InRange() && name in Labels
    ensures c.ValueByName(name) == ChannelMax(name) ==> ScrolledColor(c, name, true).ValueByName(name) == ChannelMax(name)
    ensures c.ValueByName(name) == 0 ==> ScrolledColor(c, name, false).ValueByName(name) == 0
    ensures c.ValueByName(name) < ChannelMax(name) ==> ScrolledColor(c, name, true).ValueByName(name) == c.ValueByName(name) + 1
    ensures 0 < c.ValueByName(name) ==> ScrolledColor(c, name, false).ValueByName(name) == c.ValueByName(name) - 1
  {
    ScrollStep(c, name, true);
    ScrollStep(c, name, false);
  }

  /** Changing a named channel sets it to the fixed value of `t` for that
      channel's maximum. */
  lemma ChangeSetsChannel(c: Color, channel: string, t: real, scaled: bool)
    requires channel in Labels
    ensures ChangeColorValue(c, channel, t, scaled).ValueByName(channel) == GetFixedColorValue(t, ChannelMax(channel), scaled)
  {
    if channel in RgbLabels {
      assert channel == "r" || channel == "g" || channel == "b";
    } else {
      assert channel == "h" || channel == "s" || channel == "v";
    }
  }

  /** Any name other than the six channels gives pure red. */
  lemma ChangeUnknownIsRed(c: Color, channel: string, t: real, scaled: bool)
    requires channel !in Labels
    ensures ChangeColorValue(c, channel, t, scaled) == FromRgb(255, 0, 0)
  {
    assert channel != "r" && channel != "g" && channel != "b";
    assert channel != "h" && channel != "s" && channel != "v";
  }

  /** Changing an RGB channel keeps the other two RGB channels of an
      in-range color and derives HSV and hex from the new RGB. */
  lemma ChangeRgbKeepsOthers(c: Color, channel: string, t: real, scaled: bool)
    requires c.InRange() && channel in RgbLabels
    ensures var n := ChangeColorValue(c, channel, t, scaled);
      forall other :: other in RgbLabels && other != channel ==> n.ValueByName(other) == c.ValueByName(other)
    ensures var n := ChangeColorValue(c, channel, t, scaled);
      (n.h, n.s, n.v) == RgbToHsv(n.r, n.g, n.b) && n.hex == GetHex(n.r, n.g, n.b)
  {
    assert channel == "r" || channel == "g" || channel == "b";
  }

  /** Changing an HSV channel keeps the other two HSV channels of an
      in-range color and derives RGB and hex from the new HSV. */
  lemma ChangeHsvKeepsOthers(c: Color, channel: string, t: real, scaled: bool)
    requires c.InRange() && channel in HsvLabels
    ensures var n := ChangeColorValue(c, channel, t, scaled);
      forall other :: other in HsvLabels && other != channel ==> n.ValueByName(other) == c.ValueByName(other)
    ensures var n := ChangeColorValue(c, channel, t, scaled);
      (n.r, n.g, n.b) == HsvToRgb(n.h, n.s, n.v) && n.hex == GetHex(n.r, n.g, n.b)
  {
    assert channel == "h" || channel == "s" || channel == "v";
  }

  // ---------------------------------------------------------------------
  // The application state
  // ---------------------------------------------------------------------

  /** The set of slider labels. */
  const LabelSet: set<string> := set k | k in Labels

  class App {
    var tab: string
    var color: Color
    var hex: string
    var gradientClick: bool
    var sliderClicks: map<string, bool>
    var sliderTexts: map<string, string>

    /** The shape `App::new` sets up and every handler keeps: one click flag
        and one text per slider channel, and a color within its domains. */
    predicate Valid()
      reads this
    {
      sliderClicks.Keys == LabelSet && sliderTexts.Keys == LabelSet && color.InRange()
    }

    /** The texts shown agree with the color: the hex field is the color's
        hex text and each slider text is the decimal of its channel. */
    predicate InSync()
      reads this
    {
      hex == color.hex && sliderTexts == SyncedTexts(sliderTexts, color)
    }

    /** `App::new`: the color (22, 22, 33), the HSV tab, no drag in progress
        and every text in step with the color. */
    constructor ()
      ensures Valid() && InSync()
      ensures color == FromRgb(22, 22, 33) && tab == "HSV"
      ensures !gradientClick && forall k :: k in sliderClicks ==> !sliderClicks[k]
    {
      var c := FromRgb(22, 22, 33);
      tab := "HSV";
      color := c;
      hex := c.hex;
      gradientClick := false;
      sliderClicks := map k | k in LabelSet :: false;
      var texts := map k | k in LabelSet :: Decimal(c.ValueByName(k));
      SyncedTextsFixed(texts, c);
      sliderTexts := texts;
    }

    /** `set_color`: the color is replaced, the hex text becomes its hex and
        every present slider text is rewritten from the new color, one channel
        at a time. Tab and click flags are untouched. */
    method SetColor(c: Color)
      modifies this
      ensures color == c && hex == c.hex
      ensures sliderTexts == SyncedTexts(old(sliderTexts), c)
      ensures InSync()
      ensures tab == old(tab) && gradientClick == old(gradientClick) && sliderClicks == old(sliderClicks)
    {
      color := c;
      hex := color.hex;
      var i := 0;
      while i < |Labels|
        invariant 0 <= i <= |Labels|
        invariant color == c && hex == c.hex
        invariant tab == old(tab) && gradientClick == old(gradientClick) && sliderClicks == old(sliderClicks)
        invariant sliderTexts == SyncedPrefix(old(sliderTexts), c, i)
      {
        var channel := Labels[i];
        SyncedPrefixStep(old(sliderTexts), c, i);
        if channel in sliderTexts {
          sliderTexts := sliderTexts[channel := Decimal(color.ValueByName(channel))];
        }
        i := i + 1;
      }
      SyncedPrefixAll(old(sliderTexts), c);
      SyncedTextsIdempotent(old(sliderTexts), c);
    }

    /** `handle_gradient_click`: the gradient's click flag moves by
        `ClickNext`; while it is set and the pointer is known, the color
        becomes the one the drag points at and every text follows it. */
    method HandleGradientClick(response: Response, gtype: GradientType)
      requires Valid() && response.rect.Ordered()
      requires gtype.Slider? ==> gtype.name in sliderClicks
      modifies this
      ensures Valid() && tab == old(tab)
      ensures gtype.Gradient? ==>
        gradientClick == ClickNext(old(gradientClick), response) && sliderClicks == old(sliderClicks)
      ensures gtype.Slider? ==>
        sliderClicks == old(sliderClicks)[gtype.name := ClickNext(old(sliderClicks)[gtype.name], response)] &&
        gradientClick == old(gradientClick)
      ensures var click := if gtype.Gradient? then gradientClick else sliderClicks[gtype.name];
        if click && response.hoverPos.Some? then
          color == DragColor(old(color), gtype, response.rect, response.hoverPos.value) && InSync()
        else
          color == old(color) && hex == old(hex) && sliderTexts == old(sliderTexts)
    {
      var click: bool;
      match gtype {
        case Gradient =>
          gradientClick := ClickNext(gradientClick, response);
          click := gradientClick;
        case Slider(name) =>
          sliderClicks := sliderClicks[name := ClickNext(sliderClicks[name], response)];
          click := sliderClicks[name];
      }
      if !click {
        return;
      }
      match response.hoverPos {
        case None =>
        case Some(pos) =>
          SetColor(DragColor(color, gtype, response.rect, pos));
      }
    }

    /** `handle_gradient_scroll`: with a non-zero vertical scroll over a
        slider, its channel moves one step in the scroll's direction; the
        main gradient and everything else are left as they are. */
    method HandleGradientScroll(scrollDeltaY: real, response: Response, gtype: GradientType)
      requires Valid()
      modifies this
      ensures Valid()
      ensures tab == old(tab) && gradientClick == old(gradientClick) && sliderClicks == old(sliderClicks)
      ensures scrollDeltaY == 0.0 || !response.containsPointer || gtype.Gradient? ==>
        color == old(color) && hex == old(hex) && sliderTexts == old(sliderTexts)
      ensures scrollDeltaY != 0.0 && response.containsPointer && gtype.Slider? ==>
        color == ScrolledColor(old(color), gtype.name, scrollDeltaY > 0.0) && InSync()
    {
      if scrollDeltaY == 0.0 || !response.containsPointer {
        return;
      }
      match gtype {
        case Gradient =>
        case Slider(name) =>
          SetColor(ScrolledColor(color, name, scrollDeltaY > 0.0));
      }
    }

    /** `on_slider_text_changed`: when `channel` has a text, a text that parses
        sets that channel to the parsed number, unscaled; one that does not
        parse puts the texts back in step with the unchanged color. `parse`
        stands for `str::parse::<f32>`. */
    method OnSliderTextChanged(channel: string, parse: string -> Option<real>)
      requires Valid()
      modifies this
      ensures Valid()
      ensures tab == old(tab) && gradientClick == old(gradientClick) && sliderClicks == old(sliderClicks)
      ensures channel !in old(sliderTexts) ==> color == old(color) && hex == old(hex) && sliderTexts == old(sliderTexts)
      ensures channel in old(sliderTexts) ==> InSync()
      ensures channel in old(sliderTexts) ==> color == TextEditColor(old(color), channel, parse(old(sliderTexts)[channel]))
    {
      if channel in sliderTexts {
        SetColor(TextEditColor(color, channel, parse(sliderTexts[channel])));
      }
    }

    /** Typing `text` into a slider's text field: the field stores the text,
        then `on_slider_text_changed` runs on it. The field exists for every
        slider, as `unwrap` demands. */
    method EditSliderText(channel: string, text: string, parse: string -> Option<real>)
      requires Valid() && channel in sliderTexts
      modifies this
      ensures Valid() && InSync()
      ensures tab == old(tab) && gradientClick == old(gradientClick) && sliderClicks == old(sliderClicks)
      ensures color == TextEditColor(old(color), channel, parse(text))
    {
      sliderTexts := sliderTexts[channel := text];
      OnSliderTextChanged(channel, parse);
    }

    /** The hex field of the footer after an edit: the text is kept as typed,
        and only a text `from_hex` accepts replaces the color. */
    method OnHexEdited(text: string)
      requires Valid()
      modifies this
      ensures Valid()
      ensures tab == old(tab) && gradientClick == old(gradientClick) && sliderClicks == old(sliderClicks)
      ensures hex == text
      ensures FromHex(text).Some? ==> color == FromHex(text).value && InSync()
      ensures FromHex(text).None? ==> color == old(color) && sliderTexts == old(sliderTexts)
    {
      hex := text;
      match FromHex(hex) {
        case Some(c) =>
          SetColor(c);
        case None =>
      }
    }

    /** `set_open`: a toggle that is on opens its tab; one that is off changes nothing. */
    method SetOpen(key: string, isOpen: bool)
      modifies this`tab
      ensures tab == if isOpen then key else old(tab)
    {
      if isOpen && tab != key {
        tab := key;
      }
    }
  }
}
