/** The GestureController component's hover tracker: a record of where the pointer is (in client,
    element-local and element-fraction coordinates), how far it moved since the last event and how
    fast, together with the last pointer position and timestamp it measures from. Each DOM handler is
    a transition that returns the new tracker and the callbacks it invokes, in order. The element
    reference is `Null` before mount; the clock (performance.now) is an input. */
module GestureController {
  import opened Glsl
  import opened Js
  import Scene

  datatype HoverData = HoverData(
    world: Vec2,
    local: Vec2,
    normalized: Vec2,
    delta: Vec2,
    normalizedDelta: Vec2,
    speed: real)

  /** The hover record before any event: everything zero except the normalised position, which is
      the centre. */
  const InitialHover := HoverData(Vec2(0.0, 0.0), Vec2(0.0, 0.0), Vec2(0.5, 0.5), Vec2(0.0, 0.0), Vec2(0.0, 0.0), 0.0)

  /** The three refs the handlers share. */
  datatype Tracker = Tracker(hover: HoverData, lastPos: Vec2, lastTime: real)

  const InitialTracker := Tracker(InitialHover, Vec2(0.0, 0.0), 0.0)

  /** The optional callback props. */
  datatype Callback = GestureMove | GestureEnter | GestureLeave | GestureDown | GestureUp

  /** One callback invocation and the hover record it receives. */
  datatype Notice = Notice(callback: Callback, data: HoverData)

  datatype Outcome = Outcome(tracker: Tracker, notices: seq<Notice>)

  /** `callback?.(data)`: an invocation when that prop was given, nothing otherwise. */
  function Notify(given: set<Callback>, callback: Callback, data: HoverData): (n: seq<Notice>)
    ensures callback in given <==> n == [Notice(callback, data)]
    ensures callback !in given <==> n == []
  {
    if callback in given then [Notice(callback, data)] else []
  }

  /** The element's bounding rectangle, when there is one, has a non-zero size. */
  predicate Measurable(element: Nullable<Scene.Rect>) {
    element.Value? ==> element.value.HasArea()
  }

  /** `dist` is the Euclidean length of the pointer's displacement from the tracker's last position. */
  predicate IsDisplacement(t: Tracker, client: Vec2, dist: real) {
    IsLength(dist, Vec2(client.x - t.lastPos.x, client.y - t.lastPos.y))
  }

  /** The hover record updateHoverData computes for a pointer at `client` at time `now`, measured
      against the element rectangle and against the position `from` and time `since` of the previous
      event. `dist` stands for the Math.sqrt of the squared displacement (see SpeedIsRate). */
  function Measure(rect: Scene.Rect, from: Vec2, since: real, client: Vec2, now: real, dist: real): (h: HoverData)
    requires rect.HasArea() && 0.0 <= dist
    ensures h.world == client
    ensures rect.x + h.local.x == client.x && rect.y + h.local.y == client.y
    ensures h.local.x == h.normalized.x * rect.width && h.local.y == h.normalized.y * rect.height
    ensures from.x + h.delta.x == client.x && from.y + h.delta.y == client.y
    ensures h.delta.x == h.normalizedDelta.x * rect.width && h.delta.y == h.normalizedDelta.y * rect.height
    ensures 0.0 <= h.speed
    ensures now - since > 0.0 ==> h.speed * (now - since) == dist
    ensures now - since <= 0.0 || dist == 0.0 ==> h.speed == 0.0
    ensures client == from ==> h.delta == Vec2(0.0, 0.0)
  {
    var dt := now - since;
    var local := Vec2(client.x - rect.x, client.y - rect.y);
    var delta := Vec2(client.x - from.x, client.y - from.y);
    var speed := if dt > 0.0 then Speed(dist, dt) else 0.0;
    HoverData(client, local, Vec2(local.x / rect.width, local.y / rect.height), delta,
              Vec2(delta.x / rect.width, delta.y / rect.height), speed)
  }

  /** updateHoverData: the new hover record, the move callback, and the pointer and time remembered
      for the next event. Without an element nothing happens. */
  function Update(t: Tracker, element: Nullable<Scene.Rect>, client: Vec2, now: real, dist: real,
                  given: set<Callback>): (o: Outcome)
    requires Measurable(element) && 0.0 <= dist
    ensures element.Null? ==> o == Outcome(t, [])
    ensures element.Value? ==>
              && o.tracker.hover == Measure(element.value, t.lastPos, t.lastTime, client, now, dist)
              && o.tracker.lastPos == client && o.tracker.lastTime == now
              && o.notices == Notify(given, GestureMove, o.tracker.hover)
  {
    match element
    case Null => Outcome(t, [])
    case Value(rect) =>
      var h := Measure(rect, t.lastPos, t.lastTime, client, now, dist);
      Outcome(Tracker(h, client, now), Notify(given, GestureMove, h))
  }

  /** When `dist` is the length of the displacement since the last event, the reported speed is that
      length per unit of elapsed time, and the reported delta is that displacement. */
  lemma SpeedIsRate(t: Tracker, rect: Scene.Rect, client: Vec2, now: real, dist: real, given: set<Callback>)
    requires rect.HasArea() && IsDisplacement(t, client, dist)
    ensures var h := Update(t, Value(rect), client, now, dist, given).tracker.hover;
            IsLength(dist, h.delta)
            && (now - t.lastTime > 0.0 ==> IsLength(h.speed * (now - t.lastTime), h.delta))
            && (now - t.lastTime <= 0.0 ==> h.speed == 0.0)
  {
    var h := Update(t, Value(rect), client, now, dist, given).tracker.hover;
    assert h.delta == Vec2(client.x - t.lastPos.x, client.y - t.lastPos.y);
  }

  /** Distance over elapsed time. */
  function Speed(dist: real, dt: real): (v: real)
    requires 0.0 <= dist && 0.0 < dt
    ensures 0.0 <= v && v * dt == dist
    ensures dist == 0.0 ==> v == 0.0
  {
    var v := dist / dt;
    DivideByPositive(-dist, dt);
    v
  }

  /** The hover record's normalised position is the pointer's fraction of the element rectangle, the
      same map the Scene component normalises from. */
  lemma NormalizedIsFraction(t: Tracker, rect: Scene.Rect, client: Vec2, now: real, dist: real,
                             given: set<Callback>)
    requires rect.HasArea() && 0.0 <= dist
    ensures Update(t, Value(rect), client, now, dist, given).tracker.hover.normalized
         == Scene.Fractions(rect, client)
  {
  }

  /** After an update the tracker measures from the reported point, so an immediate repeat at the
      same point reports no motion and zero speed. */
  lemma RepeatIsStill(t: Tracker, rect: Scene.Rect, client: Vec2, now: real, later: real,
                      dist: real, given: set<Callback>)
    requires rect.HasArea() && 0.0 <= dist
    ensures var t1 := Update(t, Value(rect), client, now, dist, given).tracker;
            IsDisplacement(t1, client, 0.0)
            && Update(t1, Value(rect), client, later, 0.0, given).tracker.hover.delta == Vec2(0.0, 0.0)
            && Update(t1, Value(rect), client, later, 0.0, given).tracker.hover.speed == 0.0
  {
  }

  /** resetHoverData: the pointer is placed at the element's centre, with no motion. The remembered
      pointer and time are kept. */
  function Reset(t: Tracker, element: Nullable<Scene.Rect>): (r: Tracker)
    ensures r.lastPos == t.lastPos && r.lastTime == t.lastTime
    ensures element.Null? ==> r == t
    ensures element.Value? ==>
              var rect := element.value;
              && r.hover.normalized == Vec2(0.5, 0.5)
              && r.hover.local.x * 2.0 == rect.width && r.hover.local.y * 2.0 == rect.height
              && r.hover.world == Vec2(rect.x + r.hover.local.x, rect.y + r.hover.local.y)
              && r.hover.delta == Vec2(0.0, 0.0) && r.hover.normalizedDelta == Vec2(0.0, 0.0)
              && r.hover.speed == 0.0
  {
    match element
    case Null => t
    case Value(rect) =>
      var centre := Vec2(rect.width / 2.0, rect.height / 2.0);
      t.(hover := HoverData(Vec2(rect.x + centre.x, rect.y + centre.y), centre, Vec2(0.5, 0.5),
                            Vec2(0.0, 0.0), Vec2(0.0, 0.0), 0.0))
  }

  /** The reset record is exactly what an update reports for a motionless pointer at the centre. */
  lemma {:induction false} ResetIsStillCentre(t: Tracker, rect: Scene.Rect, now: real)
    requires rect.HasArea()
    ensures var centre := Vec2(rect.x + rect.width / 2.0, rect.y + rect.height / 2.0);
            var t0 := t.(lastPos := centre);
            IsDisplacement(t0, centre, 0.0)
            && Update(t0, Value(rect), centre, now, 0.0, {}).tracker.hover == Reset(t, Value(rect)).hover
  {
    var centre := Vec2(rect.x + rect.width / 2.0, rect.y + rect.height / 2.0);
    var t0 := t.(lastPos := centre);
    var h := Update(t0, Value(rect), centre, now, 0.0, {}).tracker.hover;
    assert h == Measure(rect, centre, t.lastTime, centre, now, 0.0);
    assert h.local == Vec2(rect.width / 2.0, rect.height / 2.0);
    Half(rect.width);
    Half(rect.height);
    assert h.normalized == Vec2(0.5, 0.5);
  }

  lemma Half(w: real)
    requires 0.0 < w
    ensures (w / 2.0) / w == 0.5
  {
  }

  /** The tracker as the component mounts: the effect resets the initial record to the centre. */
  function Mount(element: Nullable<Scene.Rect>): (t: Tracker)
    ensures t.lastPos == Vec2(0.0, 0.0) && t.lastTime == 0.0
    ensures element.Null? ==> t.hover == InitialHover
    ensures element.Value? ==> t.hover == Reset(InitialTracker, element).hover
  {
    Reset(InitialTracker, element)
  }

  /** handleMouseEnter: the tracker first measures from the entry point at time `enteredAt`, then
      updates at time `now`; then the enter callback sees the record. */
  function Enter(t: Tracker, element: Nullable<Scene.Rect>, client: Vec2, enteredAt: real, now: real,
                 given: set<Callback>): (o: Outcome)
    requires Measurable(element)
    ensures element.Value? ==> o.tracker.hover.delta == Vec2(0.0, 0.0) && o.tracker.hover.speed == 0.0
    ensures element.Value? ==> o.tracker.lastPos == client && o.tracker.lastTime == now
    ensures element.Null? ==> o.tracker == t.(lastPos := client, lastTime := enteredAt)
    ensures o.notices == (if element.Value? then Notify(given, GestureMove, o.tracker.hover) else [])
                         + Notify(given, GestureEnter, o.tracker.hover)
  {
    var t0 := t.(lastPos := client, lastTime := enteredAt);
    var u := Update(t0, element, client, now, 0.0, given);
    Outcome(u.tracker, u.notices + Notify(given, GestureEnter, u.tracker.hover))
  }

  /** handleMouseMove: over an element, the hover record is measured from the remembered pointer
      and time, the pointer and time are remembered, and only the move callback fires, with the new
      record; without an element nothing happens. */
  function Move(t: Tracker, element: Nullable<Scene.Rect>, client: Vec2, now: real, dist: real,
                given: set<Callback>): (o: Outcome)
    requires Measurable(element) && 0.0 <= dist
    ensures element.Null? ==> o.tracker == t && o.notices == []
    ensures element.Value? ==>
              && o.tracker == Tracker(Measure(element.value, t.lastPos, t.lastTime, client, now, dist), client, now)
              && o.notices == Notify(given, GestureMove, o.tracker.hover)
  {
    Update(t, element, client, now, dist, given)
  }

  /** handleMouseLeave: a reset only when resetOnLeave is set, then the leave callback. */
  function Leave(t: Tracker, element: Nullable<Scene.Rect>, resetOnLeave: bool, given: set<Callback>): (o: Outcome)
    ensures !resetOnLeave ==> o.tracker == t
    ensures resetOnLeave ==> o.tracker == Reset(t, element)
    ensures o.tracker.lastPos == t.lastPos && o.tracker.lastTime == t.lastTime
    ensures o.notices == Notify(given, GestureLeave, o.tracker.hover)
  {
    var t1 := if resetOnLeave then Reset(t, element) else t;
    Outcome(t1, Notify(given, GestureLeave, t1.hover))
  }

  /** handleMouseDown: the current record passes through to the down callback. */
  function Down(t: Tracker, given: set<Callback>): (o: Outcome)
    ensures o.tracker == t
    ensures forall i :: 0 <= i < |o.notices| ==> o.notices[i] == Notice(GestureDown, t.hover)
    ensures |o.notices| == (if GestureDown in given then 1 else 0)
  {
    Outcome(t, Notify(given, GestureDown, t.hover))
  }

  /** handleMouseUp (registered on the window): the current record passes through to the up callback. */
  function Up(t: Tracker, given: set<Callback>): (o: Outcome)
    ensures o.tracker == t
    ensures forall i :: 0 <= i < |o.notices| ==> o.notices[i] == Notice(GestureUp, t.hover)
    ensures |o.notices| == (if GestureUp in given then 1 else 0)
  {
    Outcome(t, Notify(given, GestureUp, t.hover))
  }

  /** Two transitions in sequence: the tracker threads through and the notices concatenate. */
  function Then(first: Outcome, second: Tracker -> Outcome): (o: Outcome)
    ensures o.tracker == second(first.tracker).tracker
    ensures o.notices == first.notices + second(first.tracker).notices
  {
    var s := second(first.tracker);
    Outcome(s.tracker, first.notices + s.notices)
  }

  /** handleTouchStart: with at least one touch, the first touch enters and then presses; with none,
      nothing happens. */
  function TouchStart(t: Tracker, element: Nullable<Scene.Rect>, touches: seq<Vec2>, enteredAt: real,
                      now: real, given: set<Callback>): (o: Outcome)
    requires Measurable(element)
    ensures |touches| == 0 ==> o == Outcome(t, [])
    ensures 0 < |touches| && element.Value? ==>
              o.tracker.hover.delta == Vec2(0.0, 0.0) && o.tracker.hover.speed == 0.0
  {
    if |touches| > 0 then
      var e := Enter(t, element, touches[0], enteredAt, now, given);
      Outcome(e.tracker, e.notices + Notify(given, GestureDown, e.tracker.hover))
    else
      Outcome(t, [])
  }

  /** A touch start is a mouse enter at the first touch followed by a mouse down. */
  lemma TouchStartIsEnterThenDown(t: Tracker, element: Nullable<Scene.Rect>, touches: seq<Vec2>,
                                  enteredAt: real, now: real, given: set<Callback>)
    requires Measurable(element) && 0 < |touches|
    ensures TouchStart(t, element, touches, enteredAt, now, given)
         == Then(Enter(t, element, touches[0], enteredAt, now, given), (t1: Tracker) => Down(t1, given))
  {
  }

  /** handleTouchMove: the first touch moves; with no touches nothing happens. */
  function TouchMove(t: Tracker, element: Nullable<Scene.Rect>, touches: seq<Vec2>, now: real, dist: real,
                     given: set<Callback>): (o: Outcome)
    requires Measurable(element)
    requires 0.0 <= dist
    ensures |touches| == 0 ==> o == Outcome(t, [])
    ensures 0 < |touches| ==> o == Move(t, element, touches[0], now, dist, given)
  {
    if |touches| > 0 then Update(t, element, touches[0], now, dist, given) else Outcome(t, [])
  }

  /** handleTouchEnd: the optional reset, then the leave callback and the up callback on the same
      record. */
  function TouchEnd(t: Tracker, element: Nullable<Scene.Rect>, resetOnLeave: bool, given: set<Callback>): (o: Outcome)
    ensures o.tracker == (if resetOnLeave then Reset(t, element) else t)
  {
    var t1 := if resetOnLeave then Reset(t, element) else t;
    Outcome(t1, Notify(given, GestureLeave, t1.hover) + Notify(given, GestureUp, t1.hover))
  }

  /** A touch end is a mouse leave followed by a mouse up. */
  lemma TouchEndIsLeaveThenUp(t: Tracker, element: Nullable<Scene.Rect>, resetOnLeave: bool, given: set<Callback>)
    ensures TouchEnd(t, element, resetOnLeave, given)
         == Then(Leave(t, element, resetOnLeave, given), (t1: Tracker) => Up(t1, given))
  {
  }
}
