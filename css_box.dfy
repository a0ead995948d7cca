/** Box metrics and inline style writes (lib/Css.js, lines 1-253).

    The host's measurements (bounding rect, computed style, client and offset
    sizes) are inputs: an `ElementBox` is what the browser reports for one
    element, with every CSS length already parsed to a number of pixels. */
module CssBox {
  import opened Base

  /** Width uses the left and right edges, height the top and bottom edges. */
  datatype Axis = Horizontal | Vertical

  function DimName(axis: Axis): string
  {
    if axis == Horizontal then "width" else "height"
  }

  /** The caller's inclusion policy. */
  datatype Flags = Flags(paddings: bool, borders: bool, margins: bool)

  /** The computed `width`/`height`: the keyword `auto` or a parsed length. */
  datatype RawSize = Auto | Length(px: real)

  /** What the host reports for one element along one axis. */
  datatype AxisMetrics = AxisMetrics(
    rect: real,          // getBoundingClientRect()[dim]
    raw: RawSize,        // getComputedStyle(el)[dim]
    client: real,        // el.client{Dim}
    offset: real,        // el.offset{Dim}
    paddingStart: real, paddingEnd: real,
    borderStart: real, borderEnd: real,
    marginStart: real, marginEnd: real)

  function PaddingSum(m: AxisMetrics): real { m.paddingStart + m.paddingEnd }
  function BorderSum(m: AxisMetrics): real { m.borderStart + m.borderEnd }
  function MarginSum(m: AxisMetrics): real { m.marginStart + m.marginEnd }

  /** One element: whether it has `getBoundingClientRect`, whether its computed
      `box-sizing` is `border-box`, whether it is an `HTMLElement`, its computed style
      as strings, and its metrics along both axes. */
  datatype ElementBox = ElementBox(hasRectApi: bool, borderBox: bool, isHtmlElement: bool,
                                   computed: map<string, string>,
                                   horizontal: AxisMetrics, vertical: AxisMetrics)

  function Along(box: ElementBox, axis: Axis): AxisMetrics
  {
    if axis == Horizontal then box.horizontal else box.vertical
  }

  /** The sizes the document target takes the maximum of. */
  datatype DocumentAxis = DocumentAxis(bodyScroll: real, docScroll: real, bodyOffset: real,
                                       docOffset: real, docClient: real)

  /** `el.style`: the element's inline style declarations. */
  class InlineStyle {
    var props: map<string, CssValue>

    constructor ()
      ensures props == map[]
    {
      props := map[];
    }

    /** setCssProps: every entry is written, `null`/`undefined` as the empty string,
        any other value as its `String(value)`. */
    method SetCssProps(entries: map<string, Option<string>>)
      modifies this
      ensures props == WithCssProps(old(props), entries)
    {
      var remaining := entries.Keys;
      while remaining != {}
        invariant remaining <= entries.Keys
        invariant props.Keys == old(props).Keys + (entries.Keys - remaining)
        invariant forall k :: k in entries.Keys - remaining ==> props[k] == CssText(entries[k])
        invariant forall k :: k in old(props) && k !in entries.Keys - remaining ==> props[k] == old(props)[k]
        decreases remaining
      {
        var key :| key in remaining;
        props := props[key := CssText(entries[key])];
        remaining := remaining - {key};
      }
    }
  }

  /** An inline style value: text, or `value + 'px'` for a number of pixels. */
  datatype CssValue = Text(text: string) | Pixels(px: real)

  /** The inline style after setCssProps: every entry is set, every other property
      is kept. */
  function WithCssProps(props: map<string, CssValue>, entries: map<string, Option<string>>): (r: map<string, CssValue>)
    ensures r.Keys == props.Keys + entries.Keys
    ensures forall k :: k in entries ==> r[k] == CssText(entries[k])
    ensures forall k :: k in props && k !in entries ==> r[k] == props[k]
  {
    props + map k | k in entries :: CssText(entries[k])
  }

  function CssText(v: Option<string>): (r: CssValue)
    ensures v.None? ==> r == Text("")
    ensures v.Some? ==> r == Text(v.value)
  {
    Text(v.GetOr(""))
  }

  /** The first argument of the size getters and setters: the window, a document, or an element. */
  datatype Target =
    | WindowTarget(documentClientWidth: real, documentClientHeight: real)
    | DocumentTarget(width: DocumentAxis, height: DocumentAxis)
    | ElementTarget(box: ElementBox, style: InlineStyle)

  function Max2(a: real, b: real): real { if a < b then b else a }

  function DocumentSize(d: DocumentAxis): (r: real)
    ensures r >= d.bodyScroll && r >= d.docScroll && r >= d.bodyOffset && r >= d.docOffset && r >= d.docClient
    ensures r == d.bodyScroll || r == d.docScroll || r == d.bodyOffset || r == d.docOffset || r == d.docClient
  {
    Max2(Max2(Max2(Max2(d.bodyScroll, d.docScroll), d.bodyOffset), d.docOffset), d.docClient)
  }

  /** The measured value before reconciliation, and which layers it already includes. */
  datatype Measured = Measured(value: real, includesPadding: bool, includesBorders: bool)

  /** The rect path (not for pseudo-elements) counts as padding- and border-inclusive.
      Otherwise the computed size is used; `auto` falls back to the padding-inclusive client
      size; `border-box` marks both layers included. */
  function Measure(box: ElementBox, axis: Axis, pseudo: bool): (r: Measured)
    ensures !pseudo && box.hasRectApi ==> r == Measured(Along(box, axis).rect, true, true)
    ensures (pseudo || !box.hasRectApi) ==>
      var m := Along(box, axis);
      && r.value == (if m.raw.Auto? then m.client else m.raw.px)
      && r.includesPadding == (box.borderBox || m.raw.Auto?)
      && r.includesBorders == box.borderBox
  {
    var m := Along(box, axis);
    if !pseudo && box.hasRectApi then Measured(m.rect, true, true)
    else
      var value := if m.raw.Auto? then m.client else m.raw.px;
      if box.borderBox then Measured(value, true, true)
      else Measured(value, m.raw.Auto?, false)
  }

  /** The adjustment for one layer: add it when requested and not included, subtract it
      when included and not requested. */
  function LayerDelta(requested: bool, included: bool, sum: real): (d: real)
    ensures requested && !included ==> d == sum
    ensures !requested && included ==> d == -sum
    ensures requested == included ==> d == 0.0
  {
    if requested == included then 0.0 else if requested then sum else -sum
  }

  function Clamp(v: real): (r: real)
    ensures r >= 0.0 && r >= v
    ensures v >= 0.0 ==> r == v
  {
    if v < 0.0 then 0.0 else v
  }

  /** The value after padding and border reconciliation, before the clamp. */
  function Unclamped(box: ElementBox, axis: Axis, pseudo: bool, flags: Flags): real
  {
    var m := Along(box, axis);
    var b := Measure(box, axis, pseudo);
    b.value + LayerDelta(flags.paddings, b.includesPadding, PaddingSum(m))
            + LayerDelta(flags.borders, b.includesBorders, BorderSum(m))
  }

  /** The element size the getter returns: reconciled, clamped at 0, then margins added. */
  function BoxSize(box: ElementBox, axis: Axis, pseudo: bool, flags: Flags): (r: real)
    ensures r == Clamp(Unclamped(box, axis, pseudo, flags)) + (if flags.margins then MarginSum(Along(box, axis)) else 0.0)
    ensures !flags.margins ==> r >= 0.0
  {
    var c := Clamp(Unclamped(box, axis, pseudo, flags));
    if flags.margins then c + MarginSum(Along(box, axis)) else c
  }

  /** getElementWidth / getElementHeight / getPseudoElementWidth / getPseudoElementHeight. */
  function ElementSize(t: Target, axis: Axis, pseudo: bool, flags: Flags): (r: real)
    ensures t.WindowTarget? ==> r == (if axis == Horizontal then t.documentClientWidth else t.documentClientHeight)
    ensures t.DocumentTarget? ==> r == DocumentSize(if axis == Horizontal then t.width else t.height)
    ensures t.ElementTarget? && !flags.margins ==> r >= 0.0
  {
    match t
    case WindowTarget(w, h) => if axis == Horizontal then w else h
    case DocumentTarget(w, h) => DocumentSize(if axis == Horizontal then w else h)
    case ElementTarget(box, _) => BoxSize(box, axis, pseudo, flags)
  }

  /** The getter as the source writes it: `value` and the `includes*` flags updated step by step. */
  method GetElementSize(t: Target, axis: Axis, pseudo: bool, flags: Flags) returns (value: real)
    ensures value == ElementSize(t, axis, pseudo, flags)
  {
    match t {
      case WindowTarget(w, h) =>
        value := if axis == Horizontal then w else h;
      case DocumentTarget(w, h) =>
        value := DocumentSize(if axis == Horizontal then w else h);
      case ElementTarget(box, _) =>
        value := GetBoxSize(box, axis, pseudo, flags);
    }
  }

  /** The first half of the element branch: the base value and the layers it includes. */
  method MeasureBox(box: ElementBox, axis: Axis, pseudo: bool)
    returns (value: real, includesPadding: bool, includesBorders: bool)
    ensures Measured(value, includesPadding, includesBorders) == Measure(box, axis, pseudo)
  {
    var m := Along(box, axis);
    var hasValue := false;
    includesPadding, includesBorders := false, false;
    value := 0.0;
    if !pseudo && box.hasRectApi {
      value := m.rect;
      hasValue := true;
      includesPadding, includesBorders := true, true;
    }
    if !hasValue {
      if m.raw.Auto? {
        value := m.client;
        includesPadding := true;
      } else {
        value := m.raw.px;
      }
      if box.borderBox {
        includesPadding, includesBorders := true, true;
      }
    }
  }

  /** The second half: padding and border reconciliation, the clamp, then margins. */
  method GetBoxSize(box: ElementBox, axis: Axis, pseudo: bool, flags: Flags) returns (value: real)
    ensures value == BoxSize(box, axis, pseudo, flags)
  {
    var m := Along(box, axis);
    var includesPadding, includesBorders;
    value, includesPadding, includesBorders := MeasureBox(box, axis, pseudo);
    if flags.paddings != includesPadding {
      if flags.paddings { value := value + PaddingSum(m); } else { value := value - PaddingSum(m); }
    }
    if flags.borders != includesBorders {
      if flags.borders { value := value + BorderSum(m); } else { value := value - BorderSum(m); }
    }
    if value < 0.0 {
      value := 0.0;
    }
    if flags.margins {
      value := value + MarginSum(m);
    }
  }

  /** The window and document targets ignore the inclusion policy. */
  lemma NonElementTargetsIgnoreFlags(t: Target, axis: Axis, pseudo: bool, f: Flags, g: Flags)
    requires !t.ElementTarget?
    ensures ElementSize(t, axis, pseudo, f) == ElementSize(t, axis, pseudo, g)
  {
  }

  /** Margins are added after the clamp: requesting them adds exactly the margin sum. */
  lemma MarginsAfterClamp(box: ElementBox, axis: Axis, pseudo: bool, flags: Flags)
    ensures BoxSize(box, axis, pseudo, flags.(margins := true))
            == BoxSize(box, axis, pseudo, flags.(margins := false)) + MarginSum(Along(box, axis))
  {
  }

  /** A negative reconciled value reads as exactly 0 when margins are not requested. */
  lemma NegativeClampsToZero(box: ElementBox, axis: Axis, pseudo: bool, flags: Flags)
    requires !flags.margins && Unclamped(box, axis, pseudo, flags) < 0.0
    ensures BoxSize(box, axis, pseudo, flags) == 0.0
  {
  }

  /** With no padding, border or margin every inclusion policy reads the same value. */
  lemma ZeroLayersPolicyIndependent(box: ElementBox, axis: Axis, pseudo: bool, f: Flags, g: Flags)
    requires PaddingSum(Along(box, axis)) == 0.0 && BorderSum(Along(box, axis)) == 0.0
    requires MarginSum(Along(box, axis)) == 0.0
    ensures BoxSize(box, axis, pseudo, f) == BoxSize(box, axis, pseudo, g)
  {
  }

  /** The value the size setter writes to `el.style[dim]` (before the `'px'` suffix):
      margins first, then padding and border inverted relative to the getter, then the clamp. */
  function StyleSize(box: ElementBox, axis: Axis, flags: Flags, value: real): (r: real)
    ensures r >= 0.0
    ensures var m := Along(box, axis);
      var v := value - (if flags.margins then MarginSum(m) else 0.0)
                     - LayerDelta(flags.paddings, box.borderBox, PaddingSum(m))
                     - LayerDelta(flags.borders, box.borderBox, BorderSum(m));
      r == Clamp(v)
  {
    var m := Along(box, axis);
    var v := value - (if flags.margins then MarginSum(m) else 0.0);
    var v' := v - LayerDelta(flags.paddings, box.borderBox, PaddingSum(m));
    Clamp(v' - LayerDelta(flags.borders, box.borderBox, BorderSum(m)))
  }

  /** setElementWidth / setElementHeight: a no-op for the window and documents; for an
      element, writes `StyleSize(...) + 'px'` to the inline dimension and nothing else. */
  method SetElementSize(t: Target, axis: Axis, value: real, flags: Flags)
    modifies if t.ElementTarget? then {t.style} else {}
    ensures t.ElementTarget? ==>
      t.style.props == old(t.style.props)[DimName(axis) := Pixels(StyleSize(t.box, axis, flags, value))]
  {
    if t.WindowTarget? {
      return;
    }
    if t.DocumentTarget? {
      return;
    }
    var box := t.box;
    var m := Along(box, axis);
    var includesPaddingAndBorders := box.borderBox;
    var v := value;
    if flags.margins {
      v := v - MarginSum(m);
    }
    if flags.paddings != includesPaddingAndBorders {
      if flags.paddings { v := v - PaddingSum(m); } else { v := v + PaddingSum(m); }
    }
    if flags.borders != includesPaddingAndBorders {
      if flags.borders { v := v - BorderSum(m); } else { v := v + BorderSum(m); }
    }
    if v < 0.0 {
      v := 0.0;
    }
    t.style.props := t.style.props[DimName(axis) := Pixels(v)];
  }

  /** The style size that reproduces the measured size under the element's box-sizing:
      the measured value with the layers it includes taken off, and padding and border put
      back for `border-box`. */
  function NaturalSize(box: ElementBox, axis: Axis, pseudo: bool): real
  {
    var m := Along(box, axis);
    var b := Measure(box, axis, pseudo);
    var layers := PaddingSum(m) + BorderSum(m);
    b.value - (if b.includesPadding then PaddingSum(m) else 0.0)
            - (if b.includesBorders then BorderSum(m) else 0.0)
            + (if box.borderBox then layers else 0.0)
  }

  /** Setting what the getter read, under the same policy, writes the natural size,
      whatever the policy, as long as neither clamp fires. */
  lemma SetterUndoesGetter(box: ElementBox, axis: Axis, pseudo: bool, flags: Flags)
    requires Unclamped(box, axis, pseudo, flags) >= 0.0
    requires NaturalSize(box, axis, pseudo) >= 0.0
    ensures StyleSize(box, axis, flags, BoxSize(box, axis, pseudo, flags)) == NaturalSize(box, axis, pseudo)
  {
  }

  /** Content-box with a numeric computed size and no rect path: the round trip writes
      back the computed size. */
  lemma ContentBoxRoundTrip(box: ElementBox, axis: Axis, pseudo: bool, flags: Flags)
    requires pseudo || !box.hasRectApi
    requires !box.borderBox && Along(box, axis).raw.Length? && Along(box, axis).raw.px >= 0.0
    requires Unclamped(box, axis, pseudo, flags) >= 0.0
    ensures StyleSize(box, axis, flags, BoxSize(box, axis, pseudo, flags)) == Along(box, axis).raw.px
  {
    SetterUndoesGetter(box, axis, pseudo, flags);
  }

  /** Border-box: the round trip writes back the measured value (rect, computed size or
      client size). */
  lemma BorderBoxRoundTrip(box: ElementBox, axis: Axis, pseudo: bool, flags: Flags)
    requires box.borderBox
    requires Measure(box, axis, pseudo).value >= 0.0
    requires Unclamped(box, axis, pseudo, flags) >= 0.0
    ensures StyleSize(box, axis, flags, BoxSize(box, axis, pseudo, flags)) == Measure(box, axis, pseudo).value
  {
    SetterUndoesGetter(box, axis, pseudo, flags);
  }

  /** A content-box element whose `auto` size is read through `clientWidth`
      (50 px, padding 5 px on each side) reads as 40 without padding. */
  lemma AutoClientExample(box: ElementBox)
    requires !box.hasRectApi && !box.borderBox
    requires box.horizontal.raw == Auto && box.horizontal.client == 50.0
    requires box.horizontal.paddingStart == 5.0 && box.horizontal.paddingEnd == 5.0
    ensures BoxSize(box, Horizontal, false, Flags(false, false, false)) == 40.0
  {
  }

  /** On the rect path, asking for the content size subtracts padding (8) and border (2). */
  lemma RectPathExample(box: ElementBox)
    requires box.hasRectApi && box.horizontal.rect == 100.0
    requires PaddingSum(box.horizontal) == 8.0 && BorderSum(box.horizontal) == 2.0
    ensures BoxSize(box, Horizontal, false, Flags(false, false, false)) == 90.0
  {
  }

  /** The result type of getCssProps: a computed style string, a number, or `undefined`
      for a property the computed style does not have. */
  datatype PropValue = Missing | Str(s: string) | Number(n: real)

  /** One entry of getCssProps: the computed value, except that an `auto` width or height
      of an HTML element becomes its offset size, minus padding and border (clamped at 0)
      unless it is `border-box`. */
  function CssPropValue(box: ElementBox, prop: string): (r: PropValue)
    ensures r.Number? <==> (prop == "width" || prop == "height") && prop in box.computed
                           && box.computed[prop] == "auto" && box.isHtmlElement
    ensures r.Number? && !box.borderBox ==>
      var m := Along(box, if prop == "width" then Horizontal else Vertical);
      r.n == Clamp(m.offset - PaddingSum(m) - BorderSum(m))
    ensures r.Number? && box.borderBox ==> r.n == Along(box, if prop == "width" then Horizontal else Vertical).offset
    ensures !r.Number? ==> r == (if prop in box.computed then Str(box.computed[prop]) else Missing)
  {
    var val := if prop in box.computed then Str(box.computed[prop]) else Missing;
    if (prop == "width" || prop == "height") && val == Str("auto") && box.isHtmlElement then
      var m := Along(box, if prop == "width" then Horizontal else Vertical);
      if box.borderBox then Number(m.offset)
      else Number(Clamp(m.offset - PaddingSum(m) - BorderSum(m)))
    else val
  }

  /** getCssProps: one entry per requested property. */
  method GetCssProps(box: ElementBox, props: seq<string>) returns (res: map<string, PropValue>)
    ensures res.Keys == set p | p in props
    ensures forall p :: p in res ==> res[p] == CssPropValue(box, p)
  {
    res := map[];
    var i := 0;
    while i < |props|
      invariant 0 <= i <= |props|
      invariant res.Keys == set p | p in props[..i]
      invariant forall p :: p in res ==> res[p] == CssPropValue(box, p)
    {
      var prop := props[i];
      var val := if prop in box.computed then Str(box.computed[prop]) else Missing;
      if (prop == "width" || prop == "height") && val == Str("auto") && box.isHtmlElement {
        var m := Along(box, if prop == "width" then Horizontal else Vertical);
        var n := m.offset;
        if !box.borderBox {
          n := n - PaddingSum(m) - BorderSum(m);
          if n < 0.0 {
            n := 0.0;
          }
        }
        val := Number(n);
      }
      res := res[prop := val];
      assert props[..i + 1] == props[..i] + [prop];
      i := i + 1;
    }
    assert props[..i] == props;
  }
}
