/** The per-frame controller interaction resolver as functions on values:
    what one controller does in one frame (Step) and what a whole pass over
    the controllers does (Frame). The imperative pass in module World is
    proved to compute exactly Frame. */
module Resolver {
  import opened Records

  // ---------------------------------------------------------------------
  // Nearest hit
  // ---------------------------------------------------------------------

  /** A hit can replace the current best when the ray meets the widget, the
      point is inside its bounds and it is strictly nearer than `bound`. */
  predicate Qualifies(h: Hit, bound: real) {
    h.hit && h.inWidget && h.distance < bound
  }

  /** The widget the scan over `hits` settles on: it starts with no widget
      and the far clip distance as bound, and takes each later hit that
      qualifies against the distance of the current best. */
  function Nearest(hits: seq<Hit>, farClip: real): (r: Option<nat>)
    ensures r.Some? ==> r.value < |hits| && Qualifies(hits[r.value], farClip)
    decreases |hits|
  {
    if |hits| == 0 then None
    else
      var n := |hits| - 1;
      var prev := Nearest(hits[..n], farClip);
      var bound := if prev.Some? then hits[prev.value].distance else farClip;
      if Qualifies(hits[n], bound) then Some(n) else prev
  }

  /** The widget chosen is the first of the nearest qualifying ones: no
      widget is chosen exactly when none qualifies; otherwise it is strictly
      nearer than every earlier qualifying widget and no farther than any
      later one. */
  lemma {:induction false} NearestIsFirstMinimum(hits: seq<Hit>, farClip: real)
    ensures Nearest(hits, farClip).None? <==>
              forall j :: 0 <= j < |hits| ==> !Qualifies(hits[j], farClip)
    ensures Nearest(hits, farClip).Some? ==>
              var k := Nearest(hits, farClip).value;
              (forall j :: 0 <= j < k && Qualifies(hits[j], farClip) ==> hits[k].distance < hits[j].distance) &&
              (forall j :: k < j < |hits| && Qualifies(hits[j], farClip) ==> hits[k].distance <= hits[j].distance)
    decreases |hits|
  {
    if |hits| > 0 {
      var n := |hits| - 1;
      var front := hits[..n];
      NearestIsFirstMinimum(front, farClip);
      assert forall j :: 0 <= j < n ==> front[j] == hits[j];
    }
  }

  /** The first-minimum description determines the choice: any index that
      meets it is the one Nearest returns. */
  lemma NearestUnique(hits: seq<Hit>, farClip: real, k: nat)
    requires k < |hits| && Qualifies(hits[k], farClip)
    requires forall j :: 0 <= j < k && Qualifies(hits[j], farClip) ==> hits[k].distance < hits[j].distance
    requires forall j :: k < j < |hits| && Qualifies(hits[j], farClip) ==> hits[k].distance <= hits[j].distance
    ensures Nearest(hits, farClip) == Some(k)
  {
    NearestIsFirstMinimum(hits, farClip);
  }

  /** Any qualifying hit in the list, wherever it sits, bounds the chosen
      distance from above. */
  lemma NearestAtMost(hits: seq<Hit>, farClip: real, x: Hit)
    requires x in multiset(hits) && Qualifies(x, farClip)
    ensures Nearest(hits, farClip).Some?
    ensures hits[Nearest(hits, farClip).value].distance <= x.distance
  {
    NearestIsFirstMinimum(hits, farClip);
    var j :| 0 <= j < |hits| && hits[j] == x;
  }

  /** Whatever order the widgets are in, the same distance is chosen, and a
      widget is chosen under one order exactly when under the other. */
  lemma NearestDistanceIgnoresOrder(a: seq<Hit>, b: seq<Hit>, farClip: real)
    requires multiset(a) == multiset(b)
    ensures Nearest(a, farClip).Some? <==> Nearest(b, farClip).Some?
    ensures Nearest(a, farClip).Some? ==>
              a[Nearest(a, farClip).value].distance == b[Nearest(b, farClip).value].distance
  {
    if Nearest(a, farClip).Some? {
      NearestAtMost(b, farClip, a[Nearest(a, farClip).value]);
      NearestAtMost(a, farClip, b[Nearest(b, farClip).value]);
    } else if Nearest(b, farClip).Some? {
      NearestAtMost(a, farClip, b[Nearest(b, farClip).value]);
    }
  }

  // ---------------------------------------------------------------------
  // Motion: dispatch on change
  // ---------------------------------------------------------------------

  /** The new (widget, x, y, pressed) differs from the last dispatched one;
      coordinates are compared exactly. */
  predicate Changed(rec: ControllerRecord, handle: uint32, x: real, y: real, pressed: bool) {
    rec.xx != x || rec.yy != y || rec.pressed != pressed || rec.widget != handle
  }

  /** Motion edge detection for a controller on a widget: one Motion event
      exactly when the tuple changed, and afterwards the record holds the new
      tuple whether or not an event was sent. */
  function Dispatch(rec: ControllerRecord, handle: uint32, x: real, y: real, pressed: bool)
    : (r: (ControllerRecord, seq<Event>))
    ensures r.0 == rec.(widget := handle, xx := x, yy := y, pressed := pressed)
    ensures |r.1| <= 1
    ensures r.1 != [] <==> Changed(rec, handle, x, y, pressed)
    ensures r.1 != [] ==> r.1[0] == Motion(handle, rec.index, pressed, x, y)
  {
    if Changed(rec, handle, x, y, pressed) then
      (rec.(widget := handle, xx := x, yy := y, pressed := pressed), [Motion(handle, rec.index, pressed, x, y)])
    else
      (rec, [])
  }

  // ---------------------------------------------------------------------
  // Scroll state machine
  // ---------------------------------------------------------------------

  /** The touch-pad step: with a sample, a Scroll event carrying the scaled
      difference to the previous sample is sent only if the pad was already
      touched and the button is up, and the sample becomes the new baseline;
      without a sample, the pad is no longer touched. */
  function ScrollUpdate(rec: ControllerRecord, s: ScrollSample): (r: (ControllerRecord, seq<Event>))
    ensures s.Scrolled? ==> r.0 == rec.(touched := true, touchPadX := s.x, touchPadY := s.y)
    ensures s.NotScrolled? ==> r.0 == rec.(touched := false)
    ensures |r.1| <= 1
    ensures r.1 != [] <==> s.Scrolled? && rec.touched && !rec.pressed
    ensures r.1 != [] ==>
              r.1[0] == Scroll(rec.widget, rec.index,
                               (s.x - rec.touchPadX) * ScrollFactor, (s.y - rec.touchPadY) * ScrollFactor)
  {
    match s
    case Scrolled(x, y) =>
      var events :=
        if rec.touched && !rec.pressed then
          [Scroll(rec.widget, rec.index, (x - rec.touchPadX) * ScrollFactor, (y - rec.touchPadY) * ScrollFactor)]
        else [];
      (rec.(touched := true, touchPadX := x, touchPadY := y), events)
    case NotScrolled =>
      (rec.(touched := false), [])
  }

  /** The first sample of a touch only sets the baseline; a second sample
      five units further along each axis, with the button up, scrolls by
      one hundred on each axis. */
  lemma ScrollBaseline(rec: ControllerRecord, x: real, y: real)
    requires !rec.touched
    ensures ScrollUpdate(rec, Scrolled(x, y)).1 == []
    ensures var first := ScrollUpdate(rec, Scrolled(x, y)).0;
            !first.pressed ==>
              ScrollUpdate(first, Scrolled(x + 5.0, y + 5.0)).1 == [Scroll(rec.widget, rec.index, 100.0, 100.0)]
  {
  }

  /** Feeding a run of samples to the scroll step of one controller. */
  function ScrollRun(rec: ControllerRecord, samples: seq<ScrollSample>): (r: (ControllerRecord, seq<Event>))
    decreases |samples|
  {
    if |samples| == 0 then (rec, [])
    else
      var first := ScrollUpdate(rec, samples[0]);
      var rest := ScrollRun(first.0, samples[1..]);
      (rest.0, first.1 + rest.1)
  }

  /** Sum of the horizontal and vertical deltas of the Scroll events. */
  function ScrolledX(events: seq<Event>): real {
    if |events| == 0 then 0.0
    else (if events[0].Scroll? then events[0].dx else 0.0) + ScrolledX(events[1..])
  }

  function ScrolledY(events: seq<Event>): real {
    if |events| == 0 then 0.0
    else (if events[0].Scroll? then events[0].dy else 0.0) + ScrolledY(events[1..])
  }

  /** No touch-pad movement is lost or counted twice: over a run of samples
      with the button up, the deltas sent add up to the distance from the
      baseline (the last sample before the run when the pad was already
      touched, otherwise the run's first sample) to the run's last sample,
      scaled by ScrollFactor. */
  lemma {:induction false} ScrollRunTelescopes(rec: ControllerRecord, samples: seq<ScrollSample>)
    requires |samples| > 0 && !rec.pressed
    requires forall i :: 0 <= i < |samples| ==> samples[i].Scrolled?
    ensures var base := if rec.touched then (rec.touchPadX, rec.touchPadY) else (samples[0].x, samples[0].y);
            var last := samples[|samples| - 1];
            var events := ScrollRun(rec, samples).1;
            ScrolledX(events) == (last.x - base.0) * ScrollFactor &&
            ScrolledY(events) == (last.y - base.1) * ScrollFactor
    decreases |samples|
  {
    var first := ScrollUpdate(rec, samples[0]);
    if |samples| == 1 {
      assert ScrollRun(first.0, []).1 == [];
    } else {
      ScrollRunTelescopes(first.0, samples[1..]);
    }
    ScrolledAppend(first.1, ScrollRun(first.0, samples[1..]).1);
  }

  lemma {:induction false} ScrolledAppend(a: seq<Event>, b: seq<Event>)
    ensures ScrolledX(a + b) == ScrolledX(a) + ScrolledX(b)
    ensures ScrolledY(a + b) == ScrolledY(a) + ScrolledY(b)
    decreases |a|
  {
    if |a| > 0 {
      assert (a + b)[0] == a[0];
      assert (a + b)[1..] == a[1..] + b;
      ScrolledAppend(a[1..], b);
    } else {
      assert a + b == b;
    }
  }

  // ---------------------------------------------------------------------
  // Gestures
  // ---------------------------------------------------------------------

  /** The host's code of a gesture kind; -1 for kinds that are not forwarded. */
  function GestureCode(k: GestureKind): (c: int)
    ensures c >= 0 <==> k != OtherGesture
    ensures k == SwipeLeft ==> c == GestureSwipeLeft as int
    ensures k == SwipeRight ==> c == GestureSwipeRight as int
  {
    match k
    case SwipeLeft => GestureSwipeLeft as int
    case SwipeRight => GestureSwipeRight as int
    case OtherGesture => -1
  }

  /** The Gesture events one walk over the classifier's gestures sends, when
      the gesture method is present or not. */
  function GestureEvents(kinds: seq<GestureKind>, handle: bool): (r: seq<Event>)
    ensures |r| <= |kinds|
    decreases |kinds|
  {
    if |kinds| == 0 then []
    else
      var n := |kinds| - 1;
      var code := GestureCode(kinds[n]);
      GestureEvents(kinds[..n], handle) + (if code >= 0 && handle then [Gesture(code as int32)] else [])
  }

  /** Forwarding keeps the classifier's order: the events of two runs of
      gestures are the events of the first followed by those of the second. */
  lemma {:induction false} GestureEventsAppend(a: seq<GestureKind>, b: seq<GestureKind>, handle: bool)
    ensures GestureEvents(a + b, handle) == GestureEvents(a, handle) + GestureEvents(b, handle)
    decreases |b|
  {
    if |b| > 0 {
      var n := |b| - 1;
      assert (a + b)[..|a| + n] == a + b[..n];
      assert (a + b)[|a| + n] == b[n];
      GestureEventsAppend(a, b[..n], handle);
    } else {
      assert a + b == a;
    }
  }

  /** An event is forwarded exactly when the gesture method is present and
      the classifier reported a swipe with that code; nothing else is sent. */
  lemma {:induction false} GestureEventsMembers(kinds: seq<GestureKind>, handle: bool, e: Event)
    ensures e in GestureEvents(kinds, handle) <==>
              handle && exists i :: 0 <= i < |kinds| && kinds[i] != OtherGesture && e == Gesture(GestureCode(kinds[i]) as int32)
    decreases |kinds|
  {
    if |kinds| > 0 {
      var n := |kinds| - 1;
      GestureEventsMembers(kinds[..n], handle, e);
      assert forall i :: 0 <= i < n ==> kinds[..n][i] == kinds[i];
      if handle && kinds[n] != OtherGesture && e == Gesture(GestureCode(kinds[n]) as int32) {
        assert e in GestureEvents(kinds, handle);
      }
    }
  }

  /** Gesture forwarding sends nothing but Gesture events. */
  lemma {:induction false} GestureEventsOnlyGestures(kinds: seq<GestureKind>, handle: bool)
    ensures forall e :: e in GestureEvents(kinds, handle) ==> e.Gesture?
    decreases |kinds|
  {
    if |kinds| > 0 {
      GestureEventsOnlyGestures(kinds[..|kinds| - 1], handle);
    }
  }

  /** Without the gesture method nothing is forwarded. */
  lemma {:induction false} GestureEventsWithoutHandle(kinds: seq<GestureKind>)
    ensures GestureEvents(kinds, false) == []
    decreases |kinds|
  {
    if |kinds| > 0 {
      GestureEventsWithoutHandle(kinds[..|kinds| - 1]);
    }
  }

  /** A swipe left then a swipe right reach the host as codes 0 then 1. */
  lemma SwipeLeftThenRight()
    ensures GestureEvents([SwipeLeft, SwipeRight], true) == [Gesture(0), Gesture(1)]
  {
    assert [SwipeLeft, SwipeRight][..1] == [SwipeLeft];
    assert [SwipeLeft][..0] == [];
  }

  // ---------------------------------------------------------------------
  // One controller, one frame
  // ---------------------------------------------------------------------

  /** What the pass reads besides the controller records: the widgets in
      order, the far clip distance, which host methods are present, whether
      there is a gesture classifier, and what it reports this frame. */
  datatype PassContext = PassContext(
    widgets: seq<Widget>,
    farClip: real,
    methods: Methods,
    gesturesOn: bool,
    gestures: seq<GestureKind>)

  /** The inputs give one Hit per widget for every controller. */
  predicate WellFormed(inputs: seq<ControllerInput>, ctx: PassContext) {
    forall k :: 0 <= k < |inputs| ==> |inputs[k].hits| == |ctx.widgets|
  }

  /** Gesture events sent while one controller is processed. */
  function FrameGestures(ctx: PassContext): seq<Event> {
    if ctx.gesturesOn then GestureEvents(ctx.gestures, ctx.methods.gesture) else []
  }

  /** The outcome of one controller: its new record, the events it sent in
      order, and the widget whose pointer it asks to show. */
  datatype StepResult = StepResult(rec: ControllerRecord, events: seq<Event>, active: Option<nat>)

  /** One controller in one frame: gestures first, then, when the motion
      method is present and a widget is hit, motion on change and the scroll
      step. Without a target the record is left exactly as it was. */
  function Step(rec: ControllerRecord, input: ControllerInput, ctx: PassContext): (r: StepResult)
    requires |input.hits| == |ctx.widgets|
    ensures r.rec.index == rec.index
    ensures r.active.Some? <==> ctx.methods.motion && Nearest(input.hits, ctx.farClip).Some?
    ensures r.active.Some? ==> r.active == Nearest(input.hits, ctx.farClip) && r.active.value < |ctx.widgets|
    ensures r.active.None? ==> r.rec == rec && r.events == FrameGestures(ctx)
    ensures r.active.Some? ==>
              var k := r.active.value;
              r.rec.widget == ctx.widgets[k].handle && r.rec.pressed == input.pressed &&
              r.rec.xx == input.hits[k].localX && r.rec.yy == input.hits[k].localY &&
              r.rec.touched == input.scroll.Scrolled?
  {
    var chosen := Nearest(input.hits, ctx.farClip);
    var gestures := FrameGestures(ctx);
    if ctx.methods.motion && chosen.Some? then
      var k := chosen.value;
      var hit := input.hits[k];
      var moved := Dispatch(rec, ctx.widgets[k].handle, hit.localX, hit.localY, input.pressed);
      var scrolled := ScrollUpdate(moved.0, input.scroll);
      StepResult(scrolled.0, gestures + moved.1 + scrolled.1, Some(k))
    else
      StepResult(rec, gestures, None)
  }

  /** No Motion event in a list of events. */
  predicate NoMotion(events: seq<Event>) {
    forall e :: e in events ==> !e.Motion?
  }

  /** De-duplication: a controller that reports the same thing two frames in
      a row sends no Motion event in the second. */
  lemma StepRepeatEmitsNoMotion(rec: ControllerRecord, input: ControllerInput, ctx: PassContext)
    requires |input.hits| == |ctx.widgets|
    ensures NoMotion(Step(Step(rec, input, ctx).rec, input, ctx).events)
  {
    var once := Step(rec, input, ctx);
    var twice := Step(once.rec, input, ctx);
    if ctx.gesturesOn {
      GestureEventsOnlyGestures(ctx.gestures, ctx.methods.gesture);
    }
    if twice.active.Some? {
      var k := twice.active.value;
      assert !Changed(once.rec, ctx.widgets[k].handle, input.hits[k].localX, input.hits[k].localY, input.pressed);
    }
  }

  /** Leaving every widget does not reset the record, so coming back to the
      same widget at the same point with the same button state sends no
      Motion event. */
  lemma ReentryAtSameTupleIsSilent(rec: ControllerRecord, enter: ControllerInput, away: ControllerInput, ctx: PassContext)
    requires |enter.hits| == |ctx.widgets| && |away.hits| == |ctx.widgets|
    requires Nearest(away.hits, ctx.farClip).None?
    ensures var inside := Step(rec, enter, ctx).rec;
            var outside := Step(inside, away, ctx);
            outside.rec == inside && NoMotion(outside.events) &&
            NoMotion(Step(outside.rec, enter, ctx).events)
  {
    var inside := Step(rec, enter, ctx).rec;
    StepRepeatEmitsNoMotion(rec, enter, ctx);
    if ctx.gesturesOn {
      GestureEventsOnlyGestures(ctx.gestures, ctx.methods.gesture);
    }
  }

  /** The scroll call is not guarded by the scroll method: whether that
      method was found makes no difference to what a controller sends. */
  lemma ScrollIgnoresScrollMethod(rec: ControllerRecord, input: ControllerInput, ctx: PassContext)
    requires |input.hits| == |ctx.widgets|
    ensures Step(rec, input, ctx) == Step(rec, input, ctx.(methods := ctx.methods.(scroll := !ctx.methods.scroll)))
  {
  }

  // ---------------------------------------------------------------------
  // A whole pass
  // ---------------------------------------------------------------------

  /** The outcome of a pass: new records, events in order, and the widgets
      collected for showing the pointer, in the order they were collected. */
  datatype FrameResult = FrameResult(recs: seq<ControllerRecord>, events: seq<Event>, active: seq<nat>)

  /** A pass over the controllers in order; each controller's step reads
      only its own record. */
  function Frame(recs: seq<ControllerRecord>, inputs: seq<ControllerInput>, ctx: PassContext): (r: FrameResult)
    requires |inputs| == |recs| && WellFormed(inputs, ctx)
    ensures |r.recs| == |recs|
    ensures forall a :: a in r.active ==> a < |ctx.widgets|
    decreases |recs|
  {
    if |recs| == 0 then FrameResult([], [], [])
    else
      var n := |recs| - 1;
      var prev := Frame(recs[..n], inputs[..n], ctx);
      var s := Step(recs[n], inputs[n], ctx);
      FrameResult(prev.recs + [s.rec], prev.events + s.events,
                  prev.active + (if s.active.Some? then [s.active.value] else []))
  }

  /** Each controller's new record is its own step's record: a controller's
      step reads no other controller's record. */
  lemma {:induction false} FrameRecords(recs: seq<ControllerRecord>, inputs: seq<ControllerInput>, ctx: PassContext)
    requires |inputs| == |recs| && WellFormed(inputs, ctx)
    ensures forall k :: 0 <= k < |recs| ==> Frame(recs, inputs, ctx).recs[k] == Step(recs[k], inputs[k], ctx).rec
    decreases |recs|
  {
    if |recs| > 0 {
      var n := |recs| - 1;
      FrameRecords(recs[..n], inputs[..n], ctx);
    }
  }

  /** Extending a pass by one controller adds that controller's step. */
  lemma FrameExtend(recs: seq<ControllerRecord>, inputs: seq<ControllerInput>, ctx: PassContext, i: nat)
    requires |inputs| == |recs| && WellFormed(inputs, ctx) && i < |recs|
    ensures var prev := Frame(recs[..i], inputs[..i], ctx);
            var s := Step(recs[i], inputs[i], ctx);
            Frame(recs[..i + 1], inputs[..i + 1], ctx) ==
              FrameResult(prev.recs + [s.rec], prev.events + s.events,
                          prev.active + (if s.active.Some? then [s.active.value] else []))
  {
    assert recs[..i + 1][..i] == recs[..i];
    assert inputs[..i + 1][..i] == inputs[..i];
  }

  /** The widget a controller's step collects, if any: its nearest hit,
      provided the motion method is present. */
  function Target(input: ControllerInput, ctx: PassContext): (r: Option<nat>)
  {
    if ctx.methods.motion then Nearest(input.hits, ctx.farClip) else None
  }

  /** The widgets a pass collects, controller by controller. */
  function Collected(inputs: seq<ControllerInput>, ctx: PassContext): seq<nat>
    decreases |inputs|
  {
    if |inputs| == 0 then []
    else
      var n := |inputs| - 1;
      var t := Target(inputs[n], ctx);
      Collected(inputs[..n], ctx) + (if t.Some? then [t.value] else [])
  }

  /** The pass collects the targets of its controllers in order. */
  lemma {:induction false} FrameActiveIsCollected(recs: seq<ControllerRecord>, inputs: seq<ControllerInput>, ctx: PassContext)
    requires |inputs| == |recs| && WellFormed(inputs, ctx)
    ensures Frame(recs, inputs, ctx).active == Collected(inputs, ctx)
    decreases |recs|
  {
    if |recs| > 0 {
      var n := |recs| - 1;
      FrameActiveIsCollected(recs[..n], inputs[..n], ctx);
    }
  }

  /** A widget is collected exactly when some controller targets it. */
  lemma {:induction false} CollectedIffTargeted(inputs: seq<ControllerInput>, ctx: PassContext, w: nat)
    ensures w in Collected(inputs, ctx) <==> exists k :: 0 <= k < |inputs| && Target(inputs[k], ctx) == Some(w)
    decreases |inputs|
  {
    if |inputs| > 0 {
      var n := |inputs| - 1;
      var front := inputs[..n];
      CollectedIffTargeted(front, ctx, w);
      if exists k :: 0 <= k < n && Target(front[k], ctx) == Some(w) {
        var k :| 0 <= k < n && Target(front[k], ctx) == Some(w);
        assert front[k] == inputs[k];
      }
      if exists k :: 0 <= k < |inputs| && Target(inputs[k], ctx) == Some(w) {
        var k :| 0 <= k < |inputs| && Target(inputs[k], ctx) == Some(w);
        if k < n {
          assert front[k] == inputs[k];
        }
      }
    }
  }

  /** Once every host method is gone, a pass sends nothing and changes no
      record. */
  lemma {:induction false} FrameSilentWithoutMethods(recs: seq<ControllerRecord>, inputs: seq<ControllerInput>, ctx: PassContext)
    requires |inputs| == |recs| && WellFormed(inputs, ctx)
    requires ctx.methods == NoMethods
    ensures Frame(recs, inputs, ctx).events == []
    ensures Frame(recs, inputs, ctx).recs == recs
    decreases |recs|
  {
    if |recs| > 0 {
      var n := |recs| - 1;
      FrameSilentWithoutMethods(recs[..n], inputs[..n], ctx);
      GestureEventsWithoutHandle(ctx.gestures);
      assert recs[..n] + [recs[n]] == recs;
    }
  }

  /** `n` copies of `s`, one after the other. */
  function Repeat(s: seq<Event>, n: nat): (r: seq<Event>)
    ensures |r| == n * |s|
  {
    if n == 0 then [] else Repeat(s, n - 1) + s
  }

  /** The gesture walk sits inside the controller loop: without the motion
      method, a pass sends the frame's gestures once per controller and
      nothing else. */
  lemma {:induction false} FrameGesturesOncePerController(recs: seq<ControllerRecord>, inputs: seq<ControllerInput>, ctx: PassContext)
    requires |inputs| == |recs| && WellFormed(inputs, ctx)
    requires !ctx.methods.motion
    ensures Frame(recs, inputs, ctx).events == Repeat(FrameGestures(ctx), |recs|)
    decreases |recs|
  {
    if |recs| > 0 {
      var n := |recs| - 1;
      FrameGesturesOncePerController(recs[..n], inputs[..n], ctx);
    }
  }

  /** The Gesture events of a list of events, in order. */
  function GesturesOf(events: seq<Event>): (r: seq<Event>)
    ensures |r| <= |events|
    ensures forall e :: e in r ==> e.Gesture?
    decreases |events|
  {
    if |events| == 0 then []
    else (if events[0].Gesture? then [events[0]] else []) + GesturesOf(events[1..])
  }

  lemma {:induction false} GesturesOfAppend(a: seq<Event>, b: seq<Event>)
    ensures GesturesOf(a + b) == GesturesOf(a) + GesturesOf(b)
    decreases |a|
  {
    if |a| > 0 {
      assert (a + b)[0] == a[0];
      assert (a + b)[1..] == a[1..] + b;
      GesturesOfAppend(a[1..], b);
    } else {
      assert a + b == b;
    }
  }

  /** Filtering a list of Gesture events keeps all of it; filtering a list
      without one keeps nothing. */
  lemma {:induction false} GesturesOfPure(events: seq<Event>)
    ensures (forall e :: e in events ==> e.Gesture?) ==> GesturesOf(events) == events
    ensures (forall e :: e in events ==> !e.Gesture?) ==> GesturesOf(events) == []
    decreases |events|
  {
    if |events| > 0 {
      assert events[0] in events;
      assert forall e :: e in events[1..] ==> e in events;
      GesturesOfPure(events[1..]);
    }
  }

  /** Whatever else a controller sends, its Gesture events are exactly the
      frame's gestures: the walk runs before, and independently of, the
      motion test. */
  lemma StepGestures(rec: ControllerRecord, input: ControllerInput, ctx: PassContext)
    requires |input.hits| == |ctx.widgets|
    ensures GesturesOf(Step(rec, input, ctx).events) == FrameGestures(ctx)
  {
    var gestures := FrameGestures(ctx);
    if ctx.gesturesOn {
      GestureEventsOnlyGestures(ctx.gestures, ctx.methods.gesture);
    }
    GesturesOfPure(gestures);
    var chosen := Nearest(input.hits, ctx.farClip);
    if ctx.methods.motion && chosen.Some? {
      var k := chosen.value;
      var hit := input.hits[k];
      var moved := Dispatch(rec, ctx.widgets[k].handle, hit.localX, hit.localY, input.pressed);
      var scrolled := ScrollUpdate(moved.0, input.scroll);
      GesturesOfPure(moved.1);
      GesturesOfPure(scrolled.1);
      GesturesOfAppend(gestures, moved.1);
      GesturesOfAppend(gestures + moved.1, scrolled.1);
    }
  }

  /** The gesture walk sits inside the controller loop: a pass sends the
      frame's gestures once per controller, in every case. */
  lemma {:induction false} FrameGesturesEveryController(recs: seq<ControllerRecord>, inputs: seq<ControllerInput>, ctx: PassContext)
    requires |inputs| == |recs| && WellFormed(inputs, ctx)
    ensures GesturesOf(Frame(recs, inputs, ctx).events) == Repeat(FrameGestures(ctx), |recs|)
    decreases |recs|
  {
    if |recs| > 0 {
      var n := |recs| - 1;
      var prev := Frame(recs[..n], inputs[..n], ctx).events;
      var last := Step(recs[n], inputs[n], ctx).events;
      assert Frame(recs, inputs, ctx).events == prev + last;
      FrameGesturesEveryController(recs[..n], inputs[..n], ctx);
      StepGestures(recs[n], inputs[n], ctx);
      GesturesOfAppend(prev, last);
      assert Repeat(FrameGestures(ctx), |recs|) == Repeat(FrameGestures(ctx), n) + FrameGestures(ctx);
    }
  }

  lemma NoMotionAppend(a: seq<Event>, b: seq<Event>)
    requires NoMotion(a) && NoMotion(b)
    ensures NoMotion(a + b)
  {
  }

  /** De-duplication for a whole pass: repeating a frame with unchanged
      inputs sends no Motion event. */
  lemma {:induction false} FrameRepeatEmitsNoMotion(recs: seq<ControllerRecord>, inputs: seq<ControllerInput>, ctx: PassContext)
    requires |inputs| == |recs| && WellFormed(inputs, ctx)
    ensures NoMotion(Frame(Frame(recs, inputs, ctx).recs, inputs, ctx).events)
    decreases |recs|
  {
    if |recs| > 0 {
      var n := |recs| - 1;
      var after := Frame(recs, inputs, ctx).recs;
      var front := Frame(recs[..n], inputs[..n], ctx).recs;
      FrameRecords(recs, inputs, ctx);
      FrameRecords(recs[..n], inputs[..n], ctx);
      assert after[..n] == front;
      FrameRepeatEmitsNoMotion(recs[..n], inputs[..n], ctx);
      StepRepeatEmitsNoMotion(recs[n], inputs[n], ctx);
      NoMotionAppend(Frame(after[..n], inputs[..n], ctx).events, Step(after[n], inputs[n], ctx).events);
    }
  }

  /** The widgets after the pointers are toggled: with no controller the
      pass touches no pointer; otherwise every pointer is hidden and then
      shown on the collected widgets. */
  function TogglePointers(ws: seq<Widget>, anyController: bool, active: seq<nat>): (r: seq<Widget>)
    ensures |r| == |ws|
    ensures forall w :: 0 <= w < |ws| ==> r[w] == ws[w].(pointer := r[w].pointer)
    ensures !anyController ==> r == ws
  {
    seq(|ws|, w requires 0 <= w < |ws| => ws[w].(pointer := if anyController then w in active else ws[w].pointer))
  }

  /** After a pass with at least one controller, a widget shows its pointer
      exactly when it is some controller's target. */
  lemma PointerShownIffTargeted(recs: seq<ControllerRecord>, inputs: seq<ControllerInput>, ctx: PassContext, w: nat)
    requires |inputs| == |recs| && WellFormed(inputs, ctx) && |recs| > 0 && w < |ctx.widgets|
    ensures TogglePointers(ctx.widgets, true, Frame(recs, inputs, ctx).active)[w].pointer <==>
              ctx.methods.motion && exists k :: 0 <= k < |recs| && Nearest(inputs[k].hits, ctx.farClip) == Some(w)
  {
    FrameActiveIsCollected(recs, inputs, ctx);
    CollectedIffTargeted(inputs, ctx, w);
  }

  // ---------------------------------------------------------------------
  // Surface textures
  // ---------------------------------------------------------------------

  /** The first widget whose surface texture has the given name. */
  function FirstNamed(ws: seq<Widget>, name: string): (r: Option<nat>)
    ensures r.Some? ==> r.value < |ws| && ws[r.value].surfaceName == name &&
                        forall j :: 0 <= j < r.value ==> ws[j].surfaceName != name
    ensures r.None? ==> forall j :: 0 <= j < |ws| ==> ws[j].surfaceName != name
    decreases |ws|
  {
    if |ws| == 0 then None
    else if ws[0].surfaceName == name then Some(0)
    else
      match FirstNamed(ws[1..], name)
      case None => None
      case Some(k) => Some(k + 1)
  }

  /** The event that announces a surface: sent, for the first widget with
      that name, only when the host context and the create method exist. */
  function Announce(ws: seq<Widget>, name: string, surface: SurfaceRef, enabled: bool): (r: seq<Event>)
    ensures |r| <= 1
    ensures r != [] <==> enabled && exists j :: 0 <= j < |ws| && ws[j].surfaceName == name
    ensures r != [] ==>
              var k := FirstNamed(ws, name).value;
              r[0] == CreateWidget(ws[k].kind, ws[k].handle, surface, ws[k].width, ws[k].height)
  {
    if !enabled then []
    else
      match FirstNamed(ws, name)
      case Some(k) => [CreateWidget(ws[k].kind, ws[k].handle, surface, ws[k].width, ws[k].height)]
      case None => []
  }

  /** The surface the factory holds under a name, or null. */
  function Lookup(surfaces: map<string, SurfaceRef>, name: string): SurfaceRef {
    if name in surfaces then surfaces[name] else NullSurface
  }

  /** Events sent when GL comes up and the surfaces already created for the
      first `n` widgets are announced again. */
  function RestoreSurfaces(ws: seq<Widget>, n: nat, surfaces: map<string, SurfaceRef>, enabled: bool): (r: seq<Event>)
    requires n <= |ws|
    ensures forall e :: e in r ==> e.CreateWidget?
  {
    if n == 0 then []
    else
      var name := ws[n - 1].surfaceName;
      var surface := Lookup(surfaces, name);
      RestoreSurfaces(ws, n - 1, surfaces, enabled) +
        (if surface != NullSurface then Announce(ws, name, surface, enabled) else [])
  }

  /** Indices among the first n widgets whose surface exists. */
  function Restorable(ws: seq<Widget>, n: nat, surfaces: map<string, SurfaceRef>): (r: set<nat>)
    requires n <= |ws|
    ensures forall j: nat :: j in r <==> j < n && Lookup(surfaces, ws[j].surfaceName) != NullSurface
  {
    set j: nat | j < n && Lookup(surfaces, ws[j].surfaceName) != NullSurface
  }

  /** One more widget adds one index exactly when its surface exists. */
  lemma RestorableStep(ws: seq<Widget>, n: nat, surfaces: map<string, SurfaceRef>)
    requires 0 < n <= |ws|
    ensures |Restorable(ws, n, surfaces)| ==
      |Restorable(ws, n - 1, surfaces)| + (if Lookup(surfaces, ws[n - 1].surfaceName) != NullSurface then 1 else 0)
  {
    if Lookup(surfaces, ws[n - 1].surfaceName) != NullSurface {
      assert Restorable(ws, n, surfaces) == Restorable(ws, n - 1, surfaces) + {n - 1};
    } else {
      assert Restorable(ws, n, surfaces) == Restorable(ws, n - 1, surfaces);
    }
  }

  /** One more widget adds one announcement exactly when its surface exists:
      the widget itself carries the name, so the lookup by name finds a
      widget. */
  lemma RestoreSurfacesStep(ws: seq<Widget>, n: nat, surfaces: map<string, SurfaceRef>)
    requires 0 < n <= |ws|
    ensures |RestoreSurfaces(ws, n, surfaces, true)| ==
      |RestoreSurfaces(ws, n - 1, surfaces, true)| + (if Lookup(surfaces, ws[n - 1].surfaceName) != NullSurface then 1 else 0)
  {
    var name := ws[n - 1].surfaceName;
    if Lookup(surfaces, name) != NullSurface {
      assert ws[n - 1].surfaceName == name;
    }
  }

  /** Each widget whose surface exists is announced once, through the first
      widget with its name; widgets without a surface send nothing. */
  lemma {:induction false} RestoreSurfacesCount(ws: seq<Widget>, n: nat, surfaces: map<string, SurfaceRef>)
    requires n <= |ws|
    ensures |RestoreSurfaces(ws, n, surfaces, true)| == |Restorable(ws, n, surfaces)|
    ensures |RestoreSurfaces(ws, n, surfaces, false)| == 0
    decreases n
  {
    if n > 0 {
      RestoreSurfacesCount(ws, n - 1, surfaces);
      RestorableStep(ws, n, surfaces);
      RestoreSurfacesStep(ws, n, surfaces);
    }
  }
}
