/** RTL-aware horizontal scroll normalisation (lib/ScrollHelper.js).

    Browsers report `scrollLeft` of a right-to-left element in one of three
    conventions. The module probes the convention once, caches it, and maps
    between the native value and two logical coordinates: "left" (distance of
    the viewport from the left edge of the content) and "horz" (distance
    scrolled from the start of the reading direction). */
module ScrollHelper {
  import opened Base

  /** The three native conventions for `scrollLeft` under `direction: rtl`. */
  datatype RtlScrollType = Default | Negative | Reverse

  /** The direction resolved for one call, with the cached convention when it is RTL. */
  datatype ScrollMode = Ltr | Rtl(kind: RtlScrollType)

  /** The probe's verdict from its two readings: `scrollLeft` of a fresh RTL box, and
      `scrollLeft` read back after assigning 1 to it. */
  function ClassifyProbe(initialScrollLeft: real, afterAssigningOne: real): (t: RtlScrollType)
    ensures t == Default <==> initialScrollLeft > 0.0
    ensures t == Negative <==> initialScrollLeft <= 0.0 && afterAssigningOne.Floor == 0
    ensures t == Reverse <==> initialScrollLeft <= 0.0 && afterAssigningOne.Floor != 0
  {
    if initialScrollLeft > 0.0 then Default
    else if afterAssigningOne.Floor == 0 then Negative
    else Reverse
  }

  /** The logical "left" coordinate for a native `scrollLeft` value (getScrollLeft). */
  function LeftFromNative(mode: ScrollMode, scrollWidth: real, clientWidth: real, native: real): real
  {
    match mode
    case Ltr => native
    case Rtl(Default) => native
    case Rtl(Negative) => native + scrollWidth - clientWidth
    case Rtl(Reverse) => scrollWidth - native - clientWidth
  }

  /** The native `scrollLeft` for a logical "left" coordinate
      (calculateNativeScrollLeftForLeft); `LeftFromNative` undoes it. */
  function NativeForLeft(mode: ScrollMode, scrollWidth: real, clientWidth: real, left: real): (native: real)
    ensures LeftFromNative(mode, scrollWidth, clientWidth, native) == left
    ensures mode == Ltr || mode == Rtl(Default) ==> native == left
  {
    match mode
    case Ltr => left
    case Rtl(Default) => left
    case Rtl(Negative) => left - scrollWidth + clientWidth
    case Rtl(Reverse) => scrollWidth - left - clientWidth
  }

  /** The logical "horz" coordinate for a native value (getScrollHorz). */
  function HorzFromNative(mode: ScrollMode, scrollWidth: real, clientWidth: real, native: real): (horz: real)
    ensures mode.Ltr? ==> horz == LeftFromNative(mode, scrollWidth, clientWidth, native)
    ensures mode.Rtl? ==> horz == scrollWidth - clientWidth - LeftFromNative(mode, scrollWidth, clientWidth, native)
  {
    if mode.Rtl? then scrollWidth - clientWidth - LeftFromNative(mode, scrollWidth, clientWidth, native)
    else LeftFromNative(mode, scrollWidth, clientWidth, native)
  }

  /** The native value for a logical "horz" coordinate (calculateNativeScrollLeftForHorz);
      `HorzFromNative` undoes it. */
  function NativeForHorz(mode: ScrollMode, scrollWidth: real, clientWidth: real, horz: real): (native: real)
    ensures HorzFromNative(mode, scrollWidth, clientWidth, native) == horz
  {
    if mode.Rtl? then NativeForLeft(mode, scrollWidth, clientWidth, scrollWidth - clientWidth - horz)
    else NativeForLeft(mode, scrollWidth, clientWidth, horz)
  }

  /** Reading a native value and converting back gives the native value again. */
  lemma NativeLeftNative(mode: ScrollMode, scrollWidth: real, clientWidth: real, native: real)
    ensures NativeForLeft(mode, scrollWidth, clientWidth, LeftFromNative(mode, scrollWidth, clientWidth, native)) == native
  {
  }

  lemma NativeHorzNative(mode: ScrollMode, scrollWidth: real, clientWidth: real, native: real)
    ensures NativeForHorz(mode, scrollWidth, clientWidth, HorzFromNative(mode, scrollWidth, clientWidth, native)) == native
  {
  }

  /** Under the `reverse` convention one formula serves both directions and is its own inverse. */
  lemma ReverseSelfInverse(scrollWidth: real, clientWidth: real, x: real)
    ensures NativeForLeft(Rtl(Reverse), scrollWidth, clientWidth, x) == LeftFromNative(Rtl(Reverse), scrollWidth, clientWidth, x)
    ensures NativeForLeft(Rtl(Reverse), scrollWidth, clientWidth, NativeForLeft(Rtl(Reverse), scrollWidth, clientWidth, x)) == x
  {
  }

  /** The `negative` convention: scrollWidth 500, clientWidth 100, native 300 is logical 700. */
  lemma NegativeExample()
    ensures LeftFromNative(Rtl(Negative), 500.0, 100.0, 300.0) == 700.0
    ensures NativeForLeft(Rtl(Negative), 500.0, 100.0, 700.0) == 300.0
  {
  }

  /** A scrollable element as the conversions see it. The widths are host measurements. */
  class ScrollElement {
    var scrollLeft: real
    const scrollWidth: real
    const clientWidth: real
    /** Whether `getComputedStyle(el).direction === 'rtl'`. */
    const computedRtl: bool

    constructor (scrollLeft: real, scrollWidth: real, clientWidth: real, computedRtl: bool)
      ensures this.scrollLeft == scrollLeft && this.scrollWidth == scrollWidth
      ensures this.clientWidth == clientWidth && this.computedRtl == computedRtl
    {
      this.scrollLeft := scrollLeft;
      this.scrollWidth := scrollWidth;
      this.clientWidth := clientWidth;
      this.computedRtl := computedRtl;
    }
  }

  /** The module-level `rtlScrollType` cache, with the readings the host's probe element
      would give. `probes` counts how often the probe ran. */
  class ScrollEnv {
    var rtlScrollType: Option<RtlScrollType>
    const probeInitial: real
    const probeAfterOne: real
    ghost var probes: nat

    ghost predicate Valid()
      reads this
    {
      && probes <= 1
      && (rtlScrollType.None? <==> probes == 0)
      && (rtlScrollType.Some? ==> rtlScrollType.value == ClassifyProbe(probeInitial, probeAfterOne))
    }

    /** Page load: nothing probed yet. */
    constructor (probeInitial: real, probeAfterOne: real)
      ensures Valid() && rtlScrollType == None && probes == 0
      ensures this.probeInitial == probeInitial && this.probeAfterOne == probeAfterOne
    {
      this.probeInitial := probeInitial;
      this.probeAfterOne := probeAfterOne;
      rtlScrollType := None;
      probes := 0;
    }

    /** The convention a conversion uses. Under RTL the scroll type is probed the first
        time it is needed and cached; under LTR nothing is probed. */
    method ResolveMode(rtl: bool) returns (mode: ScrollMode)
      requires Valid()
      modifies this
      ensures Valid()
      ensures old(rtlScrollType).Some? ==> rtlScrollType == old(rtlScrollType) && probes == old(probes)
      ensures !rtl ==> rtlScrollType == old(rtlScrollType) && probes == old(probes)
      ensures rtl ==> rtlScrollType == Some(ClassifyProbe(probeInitial, probeAfterOne))
      ensures mode == if rtl then Rtl(rtlScrollType.value) else Ltr
    {
      if rtl && rtlScrollType.None? {
        rtlScrollType := Some(ClassifyProbe(probeInitial, probeAfterOne));
        probes := probes + 1;
      }
      mode := if rtl then Rtl(rtlScrollType.value) else Ltr;
    }
  }

  /** `rtl === undefined` means: read the computed direction. */
  function ResolveRtl(el: ScrollElement, rtl: Option<bool>): bool
    reads el
  {
    rtl.GetOr(el.computedRtl)
  }

  /** The mode a call uses once the cache is filled: the cached convention under RTL. */
  function ModeFor(env: ScrollEnv, el: ScrollElement, rtl: Option<bool>): ScrollMode
    reads env, el
    requires env.Valid()
  {
    if ResolveRtl(el, rtl) then Rtl(ClassifyProbe(env.probeInitial, env.probeAfterOne)) else Ltr
  }

  method CalculateNativeScrollLeftForLeft(env: ScrollEnv, el: ScrollElement, left: real, rtl: Option<bool>)
    returns (native: real)
    requires env.Valid()
    modifies env
    ensures env.Valid()
    ensures old(env.rtlScrollType).Some? ==> env.rtlScrollType == old(env.rtlScrollType) && env.probes == old(env.probes)
    ensures !ResolveRtl(el, rtl) ==> env.rtlScrollType == old(env.rtlScrollType) && env.probes == old(env.probes)
    ensures native == NativeForLeft(ModeFor(env, el, rtl), el.scrollWidth, el.clientWidth, left)
  {
    var r := ResolveRtl(el, rtl);
    var mode := env.ResolveMode(r);
    native := NativeForLeft(mode, el.scrollWidth, el.clientWidth, left);
  }

  method GetScrollLeft(env: ScrollEnv, el: ScrollElement, rtl: Option<bool>) returns (left: real)
    requires env.Valid()
    modifies env
    ensures env.Valid()
    ensures old(env.rtlScrollType).Some? ==> env.rtlScrollType == old(env.rtlScrollType) && env.probes == old(env.probes)
    ensures !ResolveRtl(el, rtl) ==> env.rtlScrollType == old(env.rtlScrollType) && env.probes == old(env.probes)
    ensures left == LeftFromNative(ModeFor(env, el, rtl), el.scrollWidth, el.clientWidth, el.scrollLeft)
  {
    var r := ResolveRtl(el, rtl);
    var mode := env.ResolveMode(r);
    left := LeftFromNative(mode, el.scrollWidth, el.clientWidth, el.scrollLeft);
  }

  /** Assigns `scrollLeft`; the host is taken to store the value exactly. */
  method SetScrollLeft(env: ScrollEnv, el: ScrollElement, left: real, rtl: Option<bool>)
    requires env.Valid()
    modifies env, el
    ensures env.Valid()
    ensures old(env.rtlScrollType).Some? ==> env.rtlScrollType == old(env.rtlScrollType) && env.probes == old(env.probes)
    ensures !ResolveRtl(el, rtl) ==> env.rtlScrollType == old(env.rtlScrollType) && env.probes == old(env.probes)
    ensures el.scrollLeft == NativeForLeft(ModeFor(env, el, rtl), el.scrollWidth, el.clientWidth, left)
  {
    var native := CalculateNativeScrollLeftForLeft(env, el, left, rtl);
    el.scrollLeft := native;
  }

  method CalculateNativeScrollLeftForHorz(env: ScrollEnv, el: ScrollElement, horz: real, rtl: Option<bool>)
    returns (native: real)
    requires env.Valid()
    modifies env
    ensures env.Valid()
    ensures old(env.rtlScrollType).Some? ==> env.rtlScrollType == old(env.rtlScrollType) && env.probes == old(env.probes)
    ensures !ResolveRtl(el, rtl) ==> env.rtlScrollType == old(env.rtlScrollType) && env.probes == old(env.probes)
    ensures native == NativeForHorz(ModeFor(env, el, rtl), el.scrollWidth, el.clientWidth, horz)
  {
    var r := ResolveRtl(el, rtl);
    if r {
      native := CalculateNativeScrollLeftForLeft(env, el, el.scrollWidth - el.clientWidth - horz, Some(r));
    } else {
      native := CalculateNativeScrollLeftForLeft(env, el, horz, Some(r));
    }
  }

  method GetScrollHorz(env: ScrollEnv, el: ScrollElement, rtl: Option<bool>) returns (horz: real)
    requires env.Valid()
    modifies env
    ensures env.Valid()
    ensures old(env.rtlScrollType).Some? ==> env.rtlScrollType == old(env.rtlScrollType) && env.probes == old(env.probes)
    ensures !ResolveRtl(el, rtl) ==> env.rtlScrollType == old(env.rtlScrollType) && env.probes == old(env.probes)
    ensures horz == HorzFromNative(ModeFor(env, el, rtl), el.scrollWidth, el.clientWidth, el.scrollLeft)
  {
    var r := ResolveRtl(el, rtl);
    var left := GetScrollLeft(env, el, Some(r));
    if r {
      horz := el.scrollWidth - el.clientWidth - left;
    } else {
      horz := left;
    }
  }

  method SetScrollHorz(env: ScrollEnv, el: ScrollElement, horz: real, rtl: Option<bool>)
    requires env.Valid()
    modifies env, el
    ensures env.Valid()
    ensures old(env.rtlScrollType).Some? ==> env.rtlScrollType == old(env.rtlScrollType) && env.probes == old(env.probes)
    ensures !ResolveRtl(el, rtl) ==> env.rtlScrollType == old(env.rtlScrollType) && env.probes == old(env.probes)
    ensures el.scrollLeft == NativeForHorz(ModeFor(env, el, rtl), el.scrollWidth, el.clientWidth, horz)
  {
    var native := CalculateNativeScrollLeftForHorz(env, el, horz, rtl);
    el.scrollLeft := native;
  }

  /** What a caller can rely on: after `setScrollLeft(el, left, rtl)`, `getScrollLeft(el, rtl)`
      gives `left` back, and after `setScrollHorz(el, h, rtl)`, `getScrollHorz(el, rtl)` gives `h`;
      the probe has run at most once however often these are called. */
  method RoundTrips(env: ScrollEnv, el: ScrollElement, left: real, horz: real, rtl: Option<bool>)
    returns (leftBack: real, horzBack: real)
    requires env.Valid()
    modifies env, el
    ensures env.Valid() && env.probes <= 1
    ensures leftBack == left && horzBack == horz
  {
    SetScrollLeft(env, el, left, rtl);
    leftBack := GetScrollLeft(env, el, rtl);
    SetScrollHorz(env, el, horz, rtl);
    horzBack := GetScrollHorz(env, el, rtl);
  }
}
