/** Anchored-position geometry (lib/Css.js, lines 274-364): where an anchor point
    lies on an element's outer box, measured from each of its four edges. */
module CssAnchor {
  import opened Base
  import opened Numbers
  import CssBox

  /** An anchor specification: a keyword or percentage string, or a fixed number. */
  datatype AnchorSpec = Str(s: string) | Num(n: real)

  /** The outer size of the element (padding and borders included). */
  datatype Size = Size(width: real, height: real)

  /** The result object. `left`/`top` locate the anchor from the left/top edge and
      `right`/`bottom` are their inverted counterparts; the specs are returned after
      `start`/`end` have been resolved. */
  datatype Position = Position(left: real, top: real, right: real, bottom: real,
                               xSpec: AnchorSpec, ySpec: AnchorSpec)

  /** The inputs the function reads from the element: the target for the size getters
      and whether its computed `direction` is `rtl`. */
  datatype AnchorElement = AnchorElement(target: CssBox.Target, computedRtl: bool)

  /** `parseFloat(spec) || 0`: a number is itself, a string is parsed, `NaN` becomes 0. */
  function SpecNumber(spec: AnchorSpec): (v: real)
    ensures spec.Num? ==> v == spec.n
    ensures spec.Str? && ParseFloat(spec.s).None? ==> v == 0.0
    ensures spec.Str? && ParseFloat(spec.s).Some? ==> v == ParseFloat(spec.s).value
  {
    match spec
    case Num(n) => n
    case Str(s) => ParseFloat(s).GetOr(0.0)
  }

  /** The fraction a percentage stands for: its leading number over 100, or 0 when no
      number can be read from it. */
  function Fraction(spec: AnchorSpec): (f: real)
    ensures spec.Str? && ParseFloat(spec.s).None? ==> f == 0.0
    ensures spec.Str? && ParseFloat(spec.s).Some? ==> f * 100.0 == ParseFloat(spec.s).value
  {
    SpecNumber(spec) / 100.0
  }

  /** Whether the spec is a percentage: a non-empty string whose last character is `%`. */
  predicate IsPercent(spec: AnchorSpec)
  {
    spec.Str? && |spec.s| > 0 && spec.s[|spec.s| - 1] == '%'
  }

  /** The outer size read when none is given: `getElementWidth(el, true, true)` for both
      dimensions, as line 290 is written. */
  function AutoSizeAsWritten(el: AnchorElement): (sz: Size)
    ensures sz.width == AutoSize(el).width && sz.height == sz.width
  {
    var w := CssBox.ElementSize(el.target, CssBox.Horizontal, false, CssBox.Flags(true, true, false));
    Size(w, w)
  }

  /** The outer size read when none is given, with the height taken from the height
      getter as the documentation of `size` describes it. */
  function AutoSize(el: AnchorElement): (sz: Size)
    ensures sz.width == CssBox.ElementSize(el.target, CssBox.Horizontal, false, CssBox.Flags(true, true, false))
    ensures sz.height == CssBox.ElementSize(el.target, CssBox.Vertical, false, CssBox.Flags(true, true, false))
  {
    Size(CssBox.ElementSize(el.target, CssBox.Horizontal, false, CssBox.Flags(true, true, false)),
         CssBox.ElementSize(el.target, CssBox.Vertical, false, CssBox.Flags(true, true, false)))
  }

  /** `start` is `right` under RTL and `left` otherwise; `end` is the opposite; every other
      spec is left as it is. */
  function ResolveStartEnd(xSpec: AnchorSpec, rtl: bool): (r: AnchorSpec)
    ensures xSpec != Str("start") && xSpec != Str("end") ==> r == xSpec
    ensures r != Str("start") && r != Str("end")
  {
    if xSpec == Str("start") then (if rtl then Str("right") else Str("left"))
    else if xSpec == Str("end") then (if rtl then Str("left") else Str("right"))
    else xSpec
  }

  /** The horizontal pair (left, right) for an already resolved spec. */
  function AnchorX(xSpec: AnchorSpec, width: real, rtl: bool): (real, real)
  {
    if xSpec == Str("right") then (width, 0.0)
    else if xSpec == Str("center") then (width / 2.0, width / 2.0)
    else if xSpec == Str("left") then (0.0, width)
    else if IsPercent(xSpec) then
      var x := width * Fraction(xSpec);
      if rtl then (width - x, width - (width - x)) else (x, -x)
    else
      var x := SpecNumber(xSpec);
      (x, -x)
  }

  /** The vertical pair (top, bottom); percentages are never mirrored. */
  function AnchorY(ySpec: AnchorSpec, height: real): (real, real)
  {
    if ySpec == Str("bottom") then (height, 0.0)
    else if ySpec == Str("center") then (height / 2.0, height / 2.0)
    else if ySpec == Str("top") then (0.0, height)
    else if IsPercent(ySpec) then
      var y := height * Fraction(ySpec);
      (y, -y)
    else
      var y := SpecNumber(ySpec);
      (y, -y)
  }

  /** The geometry for a known size. The direction is the caller's `rtl`, or the
      element's computed direction when `rtl` is `null`/`undefined`. */
  function Anchor(el: AnchorElement, xSpec: AnchorSpec, ySpec: AnchorSpec, size: Size, rtl: Option<bool>): (p: Position)
    ensures p.xSpec == ResolveStartEnd(xSpec, rtl.GetOr(el.computedRtl)) && p.ySpec == ySpec
  {
    var dir := rtl.GetOr(el.computedRtl);
    var resolved := ResolveStartEnd(xSpec, dir);
    var x := AnchorX(resolved, size.width, dir);
    var y := AnchorY(ySpec, size.height);
    Position(x.0, y.0, x.1, y.1, resolved, ySpec)
  }

  /** anchoredPosition as written: a missing size is measured with the width getter
      for both dimensions. */
  function AnchoredPositionAsWritten(el: AnchorElement, xSpec: AnchorSpec, ySpec: AnchorSpec,
                                     size: Option<Size>, rtl: Option<bool>): Position
  {
    Anchor(el, xSpec, ySpec, size.GetOr(AutoSizeAsWritten(el)), rtl)
  }

  /** anchoredPosition with the missing height measured by the height getter. */
  function AnchoredPosition(el: AnchorElement, xSpec: AnchorSpec, ySpec: AnchorSpec,
                            size: Option<Size>, rtl: Option<bool>): Position
  {
    Anchor(el, xSpec, ySpec, size.GetOr(AutoSize(el)), rtl)
  }

  /** The keywords and fixed numbers: `left` is (0, w), `right` is (w, 0), `center` is
      (w/2, w/2), a number n is (n, -n); likewise vertically with the height. */
  lemma AnchorKeywords(el: AnchorElement, size: Size, rtl: Option<bool>, n: real, m: real)
    ensures var p := Anchor(el, Str("left"), Str("top"), size, rtl);
      p.left == 0.0 && p.right == size.width && p.top == 0.0 && p.bottom == size.height
    ensures var p := Anchor(el, Str("right"), Str("bottom"), size, rtl);
      p.left == size.width && p.right == 0.0 && p.top == size.height && p.bottom == 0.0
    ensures var p := Anchor(el, Str("center"), Str("center"), size, rtl);
      p.left == size.width / 2.0 && p.right == size.width / 2.0
      && p.top == size.height / 2.0 && p.bottom == size.height / 2.0
    ensures var p := Anchor(el, Num(n), Num(m), size, rtl);
      p.left == n && p.right == -n && p.top == m && p.bottom == -m
  {
  }

  /** `start`/`end` resolve to `right`/`left` under RTL and to `left`/`right` under LTR,
      and the resolved keyword is what the result reports. */
  lemma StartEndResolution(el: AnchorElement, ySpec: AnchorSpec, size: Size, rtl: Option<bool>)
    ensures var dir := rtl.GetOr(el.computedRtl);
      var p := Anchor(el, Str("start"), ySpec, size, rtl);
      p == Anchor(el, if dir then Str("right") else Str("left"), ySpec, size, rtl)
      && p.xSpec == (if dir then Str("right") else Str("left"))
    ensures var dir := rtl.GetOr(el.computedRtl);
      var p := Anchor(el, Str("end"), ySpec, size, rtl);
      p == Anchor(el, if dir then Str("left") else Str("right"), ySpec, size, rtl)
      && p.xSpec == (if dir then Str("left") else Str("right"))
  {
  }

  /** A horizontal percentage q% gives left = w·q/100 and right = -w·q/100 under LTR, and
      is mirrored under RTL: left = w - w·q/100, right = w·q/100. */
  lemma AnchorXPercent(xSpec: AnchorSpec, width: real, rtl: bool)
    requires IsPercent(xSpec)
    ensures AnchorX(xSpec, width, rtl).0 == if rtl then width - width * Fraction(xSpec) else width * Fraction(xSpec)
    ensures AnchorX(xSpec, width, rtl).1 == if rtl then width * Fraction(xSpec) else -(width * Fraction(xSpec))
  {
    PercentIsNoKeyword(xSpec);
  }

  /** A vertical percentage is measured from the top under either direction, and the
      bottom offset is its negation. */
  lemma AnchorYPercent(el: AnchorElement, xSpec: AnchorSpec, ySpec: AnchorSpec, size: Size, rtl: Option<bool>)
    requires IsPercent(ySpec)
    ensures var p := Anchor(el, xSpec, ySpec, size, rtl);
      p.top == size.height * Fraction(ySpec) && p.bottom == -p.top
  {
    AnchorYOfPercent(ySpec, size.height);
  }

  lemma AnchorYOfPercent(ySpec: AnchorSpec, height: real)
    requires IsPercent(ySpec)
    ensures AnchorY(ySpec, height) == (height * Fraction(ySpec), -(height * Fraction(ySpec)))
  {
    PercentIsNoKeyword(ySpec);
  }

  /** On a 200x100 box, `25%` lies 50 from the left edge under LTR and 150 under RTL. */
  lemma AnchorPercentExample(el: AnchorElement)
    ensures Anchor(el, Str("25%"), Str("top"), Size(200.0, 100.0), Some(false)).left == 50.0
    ensures Anchor(el, Str("25%"), Str("top"), Size(200.0, 100.0), Some(true)).left == 150.0
  {
    assert NatToString(25) == "25";
    ParseFloatOfNat(25, "%");
    assert "25%" == NatToString(25) + "%";
    PercentIsNoKeyword(Str("25%"));
    assert Fraction(Str("25%")) == 0.25;
  }

  /** A percentage ends in `%`, so it is none of the keywords. */
  lemma PercentIsNoKeyword(spec: AnchorSpec)
    requires IsPercent(spec)
    ensures spec != Str("left") && spec != Str("center") && spec != Str("right")
    ensures spec != Str("top") && spec != Str("bottom") && spec != Str("start") && spec != Str("end")
  {
    var last := spec.s[|spec.s| - 1];
    assert last == '%';
    assert "left"[3] != '%' && "center"[5] != '%' && "right"[4] != '%';
    assert "top"[2] != '%' && "bottom"[5] != '%' && "start"[4] != '%' && "end"[2] != '%';
  }

  /** The two horizontal values are complementary (they add up to the width) for the
      keywords and for a mirrored percentage, and opposite (they add up to 0) for fixed
      numbers and unmirrored percentages; likewise vertically. */
  lemma AnchorOpposite(el: AnchorElement, xSpec: AnchorSpec, ySpec: AnchorSpec, size: Size, rtl: Option<bool>)
    ensures var p := Anchor(el, xSpec, ySpec, size, rtl);
      var complementary := p.xSpec in {Str("left"), Str("center"), Str("right")}
                           || (IsPercent(p.xSpec) && rtl.GetOr(el.computedRtl));
      p.left + p.right == (if complementary then size.width else 0.0)
    ensures var p := Anchor(el, xSpec, ySpec, size, rtl);
      p.top + p.bottom == (if ySpec in {Str("top"), Str("center"), Str("bottom")} then size.height else 0.0)
  {
    var dir := rtl.GetOr(el.computedRtl);
    var resolved := ResolveStartEnd(xSpec, dir);
    if IsPercent(resolved) {
      PercentIsNoKeyword(resolved);
    }
    if IsPercent(ySpec) {
      PercentIsNoKeyword(ySpec);
    }
  }

  /** The corrected function measures a missing size on both axes: a `bottom` anchor
      lies at the element's outer height. */
  lemma AutoSizeBottomIsHeight(el: AnchorElement, xSpec: AnchorSpec, rtl: Option<bool>)
    ensures AnchoredPosition(el, xSpec, Str("bottom"), None, rtl).top
            == CssBox.ElementSize(el.target, CssBox.Vertical, false, CssBox.Flags(true, true, false))
  {
  }

  /** As written, a `bottom` anchor on a 100x50 window (its document element's client size)
      lies at 100, the width, instead of 50. */
  lemma AsWrittenBottomIsWidth(xSpec: AnchorSpec, rtl: Option<bool>)
    ensures var el := AnchorElement(CssBox.WindowTarget(100.0, 50.0), false);
      AnchoredPositionAsWritten(el, xSpec, Str("bottom"), None, rtl).top == 100.0
      && AnchoredPosition(el, xSpec, Str("bottom"), None, rtl).top == 50.0
  {
  }
}
