/** The touch-tap detector (lib/Touches.js): a two-state machine over the
    closure variables `currentTouchId` and `downPos`, plus the listeners it
    attaches to its element. */
module Touches {
  import opened Base

  datatype Point = Point(x: real, y: real)

  /** One entry of `changedTouches`. */
  datatype Touch = Touch(identifier: int, pageX: real, pageY: real)

  /** The parts of a touch event the handlers read. `changedTouches` is `None` when the
      event carries no list. */
  datatype TouchEvent = TouchEvent(changedTouches: Option<seq<Touch>>, pageX: real, pageY: real)

  /** `options.distance`: `null` switches the check off; `undefined` and 0 fall back to 1. */
  datatype Distance = NullDistance | UndefinedDistance | Threshold(d: real)

  /** The three handlers the detector can attach. */
  datatype Listener = TouchStart | TouchEnd | TouchCancel

  /** The largest movement, exclusive, that still counts as a tap: the given distance,
      or 1 when it is omitted or 0. */
  function DistanceThreshold(distance: Distance): (t: real)
    requires !distance.NullDistance?
    ensures distance.UndefinedDistance? ==> t == 1.0
    ensures distance.Threshold? ==> t == (if distance.d == 0.0 then 1.0 else distance.d)
  {
    match distance
    case UndefinedDistance => 1.0
    case Threshold(d) => if d == 0.0 then 1.0 else d
  }

  /** Whether the handler fires for a touch that moved by (dx, dy):
      `Math.hypot(|dx|, |dy|) < threshold`, compared on squares. */
  predicate Fires(distance: Distance, dx: real, dy: real)
  {
    distance.NullDistance? || WithinThreshold(DistanceThreshold(distance), dx, dy)
  }

  predicate WithinThreshold(t: real, dx: real, dy: real)
  {
    t > 0.0 && dx * dx + dy * dy < t * t
  }

  /** The square comparison agrees with comparing the Euclidean length `h` against the threshold. */
  lemma FiresIffWithinThreshold(distance: Distance, dx: real, dy: real, h: real)
    requires h >= 0.0 && h * h == dx * dx + dy * dy
    ensures Fires(distance, dx, dy) <==> distance.NullDistance? || h < DistanceThreshold(distance)
  {
    if !distance.NullDistance? {
      var t := DistanceThreshold(distance);
      if t > 0.0 {
        if h < t {
          SquareLess(h, t);
        } else {
          SquareLessEq(t, h);
        }
      }
    }
  }

  lemma PosMul(a: real, b: real)
    requires a > 0.0 && b > 0.0
    ensures a * b > 0.0
  {
  }

  lemma SquareLess(h: real, t: real)
    requires 0.0 <= h < t
    ensures h * h < t * t
  {
    PosMul(t - h, t + h);
    assert t * t - h * h == (t - h) * (t + h);
  }

  lemma SquareLessEq(t: real, h: real)
    requires 0.0 < t <= h
    ensures t * t <= h * h
  {
    if t < h {
      SquareLess(t, h);
    }
  }

  /** A touch that did not move fires unless the threshold is a negative number. */
  lemma FiresWithoutMove(distance: Distance)
    ensures Fires(distance, 0.0, 0.0) <==> !(distance.Threshold? && distance.d < 0.0)
  {
    if !distance.NullDistance? {
      var t := DistanceThreshold(distance);
      if t > 0.0 {
        PosMul(t, t);
      }
    }
  }

  /** An omitted distance gives threshold 1: a move of 2 pixels suppresses the tap. */
  lemma OmittedDistanceIsOne()
    ensures !Fires(UndefinedDistance, 2.0, 0.0)
    ensures Fires(UndefinedDistance, 0.5, 0.5)
  {
  }

  /** The threshold the parameter documentation announces: an omitted distance means 9;
      a given distance is read as by `DistanceThreshold`. */
  function DocumentedThreshold(distance: Distance): (t: real)
    requires !distance.NullDistance?
    ensures distance.UndefinedDistance? ==> t == 9.0
    ensures distance.Threshold? ==> t == DistanceThreshold(distance)
    ensures t >= DistanceThreshold(distance)
  {
    if distance.UndefinedDistance? then 9.0 else DistanceThreshold(distance)
  }

  /** `Fires` with the documented default. */
  predicate FiresDocumented(distance: Distance, dx: real, dy: real)
  {
    distance.NullDistance? || WithinThreshold(DocumentedThreshold(distance), dx, dy)
  }

  /** With the documented default, a move of 2 pixels still taps and a move of 9 does not;
      with the default as written (`OmittedDistanceIsOne`) the move of 2 already suppresses it. */
  lemma OmittedDistanceIsNine()
    ensures FiresDocumented(UndefinedDistance, 2.0, 0.0) && !Fires(UndefinedDistance, 2.0, 0.0)
    ensures !FiresDocumented(UndefinedDistance, 9.0, 0.0)
  {
  }

  /** The documented default only widens the tap: whatever taps as written taps with it. */
  lemma FiresDocumentedWider(distance: Distance, dx: real, dy: real)
    requires Fires(distance, dx, dy)
    ensures FiresDocumented(distance, dx, dy)
  {
    if !distance.NullDistance? {
      var t, u := DistanceThreshold(distance), DocumentedThreshold(distance);
      if t < u {
        SquareLess(t, u);
      }
    }
  }

  /** The `for (let item of evt.changedTouches)` loop: the first touch with the tracked id. */
  method FindTouch(touches: seq<Touch>, id: int) returns (found: Option<nat>)
    ensures found.Some? ==> found.value < |touches| && touches[found.value].identifier == id
    ensures found.Some? ==> forall k :: 0 <= k < found.value ==> touches[k].identifier != id
    ensures found.None? ==> forall k :: 0 <= k < |touches| ==> touches[k].identifier != id
  {
    var i := 0;
    while i < |touches|
      invariant 0 <= i <= |touches|
      invariant forall k :: 0 <= k < i ==> touches[k].identifier != id
    {
      if touches[i].identifier == id {
        return Some(i);
      }
      i := i + 1;
    }
    return None;
  }

  /** Where `touchend` takes the current position from: the changed touch with the tracked
      id, else the first changed touch, else the event's own page coordinates. */
  function EndPosition(evt: TouchEvent, id: int): (p: Point)
    ensures evt.changedTouches.None? || |evt.changedTouches.value| == 0 ==> p == Point(evt.pageX, evt.pageY)
    ensures evt.changedTouches.Some? ==> var ts := evt.changedTouches.value;
      forall k :: 0 <= k < |ts| && ts[k].identifier == id && (forall j :: 0 <= j < k ==> ts[j].identifier != id)
        ==> p == Point(ts[k].pageX, ts[k].pageY)
    ensures evt.changedTouches.Some? && |evt.changedTouches.value| > 0 ==> var ts := evt.changedTouches.value;
      (forall k :: 0 <= k < |ts| ==> ts[k].identifier != id) ==> p == Point(ts[0].pageX, ts[0].pageY)
  {
    match evt.changedTouches
    case None => Point(evt.pageX, evt.pageY)
    case Some(touches) =>
      match FirstWithId(touches, id)
      case Some(k) => Point(touches[k].pageX, touches[k].pageY)
      case None =>
        if |touches| > 0 then Point(touches[0].pageX, touches[0].pageY) else Point(evt.pageX, evt.pageY)
  }

  function FirstWithId(touches: seq<Touch>, id: int): (found: Option<nat>)
    ensures found.Some? ==> found.value < |touches| && touches[found.value].identifier == id
    ensures found.Some? ==> forall k :: 0 <= k < found.value ==> touches[k].identifier != id
    ensures found.None? ==> forall k :: 0 <= k < |touches| ==> touches[k].identifier != id
  {
    if |touches| == 0 then None
    else if touches[0].identifier == id then Some(0)
    else match FirstWithId(touches[1..], id)
      case Some(k) => Some(k + 1)
      case None => None
  }

  /** `bindTouchTap(el, options)`: the closure state, the element's attached listeners and
      the events the user handler received. */
  class TouchTap {
    var currentTouchId: Option<int>
    var downPos: Option<Point>
    const distance: Distance
    const hasHandler: bool
    ghost var attached: set<Listener>
    ghost var fired: seq<TouchEvent>

    /** Idle and tracked states: an id is tracked exactly when a start position is stored. */
    ghost predicate Valid()
      reads this
    {
      currentTouchId.Some? <==> downPos.Some?
    }

    /** Binding attaches the `touchstart` listener and starts idle. */
    constructor (distance: Distance, hasHandler: bool)
      ensures Valid() && currentTouchId.None? && downPos.None?
      ensures attached == {TouchStart} && fired == []
      ensures this.distance == distance && this.hasHandler == hasHandler
    {
      currentTouchId := None;
      downPos := None;
      this.distance := distance;
      this.hasHandler := hasHandler;
      attached := {TouchStart};
      fired := [];
    }

    /** `startHandler`, delivered only while `touchstart` is attached: ignored while a touch is tracked; otherwise tracks the first changed
        touch and attaches `touchend`/`touchcancel`. `ok` is false when there is no changed
        touch, where reading `touch.identifier` throws before anything is stored. */
    method Start(touches: seq<Touch>) returns (ok: bool)
      requires Valid() && TouchStart in attached
      modifies this
      ensures Valid() && fired == old(fired)
      ensures ok == (old(currentTouchId).Some? || |touches| > 0)
      ensures old(currentTouchId).Some? || |touches| == 0 ==>
        currentTouchId == old(currentTouchId) && downPos == old(downPos) && attached == old(attached)
      ensures old(currentTouchId).None? && |touches| > 0 ==>
        && currentTouchId == Some(touches[0].identifier)
        && downPos == Some(Point(touches[0].pageX, touches[0].pageY))
        && attached == old(attached) + {TouchEnd, TouchCancel}
    {
      if currentTouchId.Some? {
        return true;
      }
      if |touches| == 0 {
        return false;
      }
      var touch := touches[0];
      currentTouchId := Some(touch.identifier);
      downPos := Some(Point(touch.pageX, touch.pageY));
      attached := attached + {TouchEnd, TouchCancel};
      ok := true;
    }

    /** `endHandler`, delivered only while `touchend` is attached: with nothing tracked it does nothing. Otherwise it clears the state
        first and then fires the user handler iff the touch moved less than the threshold
        (or the check is off). `touchend`/`touchcancel` stay attached. */
    method End(evt: TouchEvent) returns (tapped: bool)
      requires Valid() && TouchEnd in attached
      modifies this
      ensures Valid() && attached == old(attached)
      ensures old(currentTouchId).None? ==> !tapped && currentTouchId.None? && downPos.None? && fired == old(fired)
      ensures old(currentTouchId).Some? ==> currentTouchId.None? && downPos.None?
      ensures old(currentTouchId).Some? ==>
        var p := EndPosition(evt, old(currentTouchId).value);
        tapped == Fires(distance, p.x - old(downPos).value.x, p.y - old(downPos).value.y)
      ensures fired == if tapped && hasHandler then old(fired) + [evt] else old(fired)
    {
      if currentTouchId.None? {
        return false;
      }
      var id := currentTouchId.value;
      var current := Point(evt.pageX, evt.pageY);
      if evt.changedTouches.Some? {
        var touches := evt.changedTouches.value;
        var found := FindTouch(touches, id);
        assert found.None? <==> FirstWithId(touches, id).None?;
        if found.Some? {
          FirstWithIdIsFirst(touches, id, found.value);
          current := Point(touches[found.value].pageX, touches[found.value].pageY);
        } else if |touches| > 0 {
          current := Point(touches[0].pageX, touches[0].pageY);
        }
      }
      var start := downPos.value;
      currentTouchId := None;
      downPos := None;
      tapped := Fires(distance, current.x - start.x, current.y - start.y);
      if tapped && hasHandler {
        fired := fired + [evt];
      }
    }

    /** `cancelHandler`, delivered only while `touchcancel` is attached: clears the state and detaches `touchend`/`touchcancel`. */
    method Cancel()
      requires TouchCancel in attached
      modifies this
      ensures Valid() && currentTouchId.None? && downPos.None?
      ensures attached == old(attached) - {TouchEnd, TouchCancel} && fired == old(fired)
    {
      currentTouchId := None;
      downPos := None;
      attached := attached - {TouchEnd, TouchCancel};
    }

    /** `unbind`: detaches all three listeners; the closure state is left as it was. */
    method Unbind()
      modifies this
      ensures attached == {} && fired == old(fired)
      ensures currentTouchId == old(currentTouchId) && downPos == old(downPos)
    {
      attached := {};
    }
  }

  lemma {:induction false} FirstWithIdIsFirst(touches: seq<Touch>, id: int, k: nat)
    requires k < |touches| && touches[k].identifier == id
    requires forall j :: 0 <= j < k ==> touches[j].identifier != id
    ensures FirstWithId(touches, id) == Some(k)
  {
    if k > 0 {
      FirstWithIdIsFirst(touches[1..], id, k - 1);
    }
  }

  /** A tap: start and end at the same place fires whatever the threshold, unless the
      threshold is a negative number. */
  method TapInPlace(t: TouchTap, p: Touch) returns (tapped: bool)
    requires t.Valid() && t.currentTouchId.None? && TouchStart in t.attached
    modifies t
    ensures tapped <==> !(t.distance.Threshold? && t.distance.d < 0.0)
    ensures t.currentTouchId.None?
  {
    var _ := t.Start([p]);
    tapped := t.End(TouchEvent(Some([p]), p.pageX, p.pageY));
    FiresWithoutMove(t.distance);
    assert FirstWithId([p], p.identifier) == Some(0);
  }
}
