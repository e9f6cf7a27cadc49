/** The browser world: the lifecycle flags, the host method ids, the
    controller records and the widgets, and the per-frame pass that resolves
    controller interaction. Calls into the host application are appended to
    `log`, in order. */
module World {
  import opened Records
  import opened Resolver

  /** A fresh controller record. The record is built with the index and
      widget 0 and moved into the list; the move copies only those two fields
      (and the scene node), so the others hold whatever `leftover` says. */
  function NewRecord(ix: int32, leftover: ControllerRecord): (r: ControllerRecord)
    ensures r.index == ix && r.widget == 0
    ensures r.pressed == leftover.pressed && r.touched == leftover.touched
    ensures r.xx == leftover.xx && r.yy == leftover.yy
    ensures r.touchPadX == leftover.touchPadX && r.touchPadY == leftover.touchPadY
  {
    leftover.(index := ix, widget := 0)
  }

  /** The records InitializeJava creates: indices 0 to count - 1, in order. */
  function FreshRecords(count: int32, leftover: nat -> ControllerRecord): (r: seq<ControllerRecord>)
    requires count >= 0
    ensures |r| == count as int
    ensures forall k :: 0 <= k < |r| ==> r[k] == NewRecord(k as int32, leftover(k))
  {
    seq(count as int, ix requires 0 <= ix < count as int => NewRecord(ix as int32, leftover(ix)))
  }

  class BrowserWorld {
    var paused: bool
    var glInitialized: bool
    var hasDevice: bool
    var hasGestures: bool
    var controllerCount: int32
    var controllers: seq<ControllerRecord>
    var widgets: seq<Widget>
    var env: bool
    var activity: bool
    var methods: Methods
    var log: seq<Event>

    /** Records are indexed densely from 0 in list order, and without a
        device there are no records and no gesture classifier. */
    ghost predicate Valid()
      reads this
    {
      (forall k :: 0 <= k < |controllers| ==> controllers[k].index as int == k) &&
      (!hasDevice ==> controllers == [] && controllerCount == 0 && !hasGestures)
    }

    /** What the pass reads besides the records. */
    function Context(gestures: seq<GestureKind>): PassContext
      reads this
    {
      PassContext(widgets, FarClip, methods, hasGestures, gestures)
    }

    /** A new world starts paused, without GL, device, host or events. */
    constructor ()
      ensures Valid()
      ensures paused && !glInitialized && !hasDevice && !hasGestures
      ensures controllerCount == 0 && controllers == [] && widgets == []
      ensures !env && !activity && methods == NoMethods && log == []
    {
      paused := true;
      glInitialized := false;
      hasDevice := false;
      hasGestures := false;
      controllerCount := 0;
      controllers := [];
      widgets := [];
      env := false;
      activity := false;
      methods := NoMethods;
      log := [];
    }

    /** Installing a device takes its controller count and gesture
        classifier and keeps the records; removing it drops the records. */
    method RegisterDeviceDelegate(present: bool, count: int32, gestureDelegate: bool)
      requires Valid()
      modifies this`hasDevice, this`controllerCount, this`hasGestures, this`controllers
      ensures Valid()
      ensures hasDevice == present
      ensures present ==> controllerCount == count && hasGestures == gestureDelegate && controllers == old(controllers)
      ensures !present ==> controllers == [] && controllerCount == 0 && !hasGestures
    {
      hasDevice := present;
      if present {
        controllerCount := count;
        hasGestures := gestureDelegate;
      } else {
        controllers := [];
        controllerCount := 0;
        hasGestures := false;
      }
    }

    method Pause()
      modifies this`paused
      ensures IsPaused()
    {
      paused := true;
    }

    method Resume()
      modifies this`paused
      ensures !IsPaused()
    {
      paused := false;
    }

    /** Whether the world is paused: set by Pause, cleared by Resume. */
    function IsPaused(): (r: bool)
      reads this
      ensures r <==> paused
    {
      paused
    }

    /** Binding to the host: remembers the environment and the activity,
        stopping at the first of them (or the activity's class) that is
        missing; then records which methods were found, adds the browser and
        URL-bar widgets, and creates one record per controller if there are
        none yet. */
    method InitializeJava(envPresent: bool, activityRef: bool, classFound: bool, found: Methods,
                          browser: Widget, urlBar: Widget, leftover: nat -> ControllerRecord)
      requires Valid()
      modifies this`env, this`activity, this`methods, this`widgets, this`controllers
      ensures Valid()
      ensures env == envPresent
      ensures activity == if envPresent then activityRef else old(activity)
      ensures var bound := envPresent && activityRef && classFound;
              methods == (if bound then found else old(methods)) &&
              widgets == old(widgets) + (if bound then [browser.(kind := WidgetTypeBrowser), urlBar.(kind := WidgetTypeURLBar)] else []) &&
              controllers == (if bound && old(controllers) == [] && controllerCount > 0
                              then FreshRecords(controllerCount, leftover)
                              else old(controllers))
    {
      env := envPresent;
      if !env {
        return;
      }
      activity := activityRef;
      if !activity {
        return;
      }
      if !classFound {
        return;
      }
      methods := found;
      widgets := widgets + [browser.(kind := WidgetTypeBrowser)];
      widgets := widgets + [urlBar.(kind := WidgetTypeURLBar)];
      if |controllers| == 0 && controllerCount > 0 {
        var ix: int32 := 0;
        while ix < controllerCount
          invariant 0 <= ix <= controllerCount
          invariant controllers == FreshRecords(ix, leftover)
          modifies this`controllers
        {
          controllers := controllers + [NewRecord(ix, leftover(ix as int))];
          ix := ix + 1;
        }
      }
    }

    /** Bringing GL up does nothing once it is up; when it comes up, every
        widget whose surface texture already exists is announced again. */
    method InitializeGL(glOk: bool, surfaces: map<string, SurfaceRef>)
      modifies this`glInitialized, this`log
      ensures old(glInitialized) ==> glInitialized && log == old(log)
      ensures !old(glInitialized) ==> glInitialized == glOk
      ensures !old(glInitialized) ==>
                log == old(log) + (if glOk then RestoreSurfaces(widgets, |widgets|, surfaces, env && activity && methods.createWidget) else [])
    {
      if !glInitialized {
        glInitialized := glOk;
        if !glInitialized {
          return;
        }
        var i := 0;
        while i < |widgets|
          invariant 0 <= i <= |widgets|
          invariant log == old(log) + RestoreSurfaces(widgets, i, surfaces, env && activity && methods.createWidget)
          modifies this`log
        {
          var name := widgets[i].surfaceName;
          var surface := Lookup(surfaces, name);
          if surface != NullSurface {
            SetSurfaceTexture(name, surface);
          }
          i := i + 1;
        }
      }
    }

    /** Dropping the host binding: every method id and the activity become
        null, so no event can be sent until the next binding. */
    method ShutdownJava()
      modifies this`env, this`activity, this`methods
      ensures !env && !activity && methods == NoMethods
    {
      activity := false;
      methods := NoMethods;
      env := false;
    }

    method ShutdownGL()
      modifies this`glInitialized
      ensures !glInitialized
    {
      glInitialized := false;
    }

    /** A surface texture was created (or destroyed, with a null surface):
        announce it for the first widget with that name, if the host can be
        called. */
    method SetSurfaceTexture(name: string, surface: SurfaceRef)
      modifies this`log
      ensures log == old(log) + Announce(widgets, name, surface, env && activity && methods.createWidget)
    {
      if env && activity && methods.createWidget {
        var i := 0;
        while i < |widgets|
          invariant 0 <= i <= |widgets|
          invariant log == old(log)
          invariant forall j :: 0 <= j < i ==> widgets[j].surfaceName != name
          modifies this`log
        {
          var widget := widgets[i];
          if name == widget.surfaceName {
            log := log + [CreateWidget(widget.kind, widget.handle, surface, widget.width, widget.height)];
            return;
          }
          i := i + 1;
        }
      }
    }

    /** The widget scan for one controller: every pointer is hidden, and the
        nearest qualifying widget is found, starting from the far clip
        distance and keeping the first of equally near widgets. */
    method ScanWidgets(input: ControllerInput) returns (hitWidget: Option<nat>)
      requires |input.hits| == |widgets|
      modifies this`widgets
      ensures hitWidget == Nearest(input.hits, FarClip)
      ensures widgets == HidePointers(old(widgets))
    {
      hitWidget := None;
      var hitDistance := FarClip;
      var j := 0;
      while j < |widgets|
        invariant 0 <= j <= |widgets| == |old(widgets)|
        invariant hitWidget == Nearest(input.hits[..j], FarClip)
        invariant hitDistance == if hitWidget.Some? then input.hits[hitWidget.value].distance else FarClip
        invariant forall w :: 0 <= w < |widgets| ==>
                    widgets[w] == old(widgets[w]).(pointer := if w < j then false else old(widgets[w].pointer))
      {
        widgets := widgets[j := widgets[j].(pointer := false)];
        var hit := input.hits[j];
        assert input.hits[..j + 1][..j] == input.hits[..j];
        if hit.hit {
          if hit.inWidget && hit.distance < hitDistance {
            hitWidget := Some(j);
            hitDistance := hit.distance;
          }
        }
        j := j + 1;
      }
      assert input.hits[..j] == input.hits;
      assert widgets == HidePointers(old(widgets));
    }

    /** Forwarding the classifier's gestures, as done once per controller:
        swipes become codes 0 and 1, other kinds are dropped, and nothing is
        sent without the gesture method. */
    method ForwardGestures(gestures: seq<GestureKind>)
      modifies this`log
      ensures log == old(log) + (if hasGestures then GestureEvents(gestures, methods.gesture) else [])
    {
      if hasGestures {
        var c := 0;
        while c < |gestures|
          invariant 0 <= c <= |gestures|
          invariant log == old(log) + GestureEvents(gestures[..c], methods.gesture)
        {
          var code := GestureCode(gestures[c]);
          assert gestures[..c + 1][..c] == gestures[..c];
          if code >= 0 && methods.gesture {
            log := log + [Gesture(code as int32)];
          }
          c := c + 1;
        }
        assert gestures[..c] == gestures;
      }
    }

    /** Motion and scroll for controller `i` on widget `k`: a Motion event
        when (widget, x, y, pressed) changed, then the touch-pad step, which
        reads the pressed flag just stored. */
    method TrackController(i: nat, input: ControllerInput, k: nat)
      requires i < |controllers| && k < |widgets| && k < |input.hits|
      modifies this`controllers, this`log
      ensures var hit := input.hits[k];
              var moved := Dispatch(old(controllers[i]), widgets[k].handle, hit.localX, hit.localY, input.pressed);
              var scrolled := ScrollUpdate(moved.0, input.scroll);
              controllers == old(controllers)[i := scrolled.0] && log == old(log) + moved.1 + scrolled.1
    {
      var rec := controllers[i];
      var theX, theY := input.hits[k].localX, input.hits[k].localY;
      var pressed := input.pressed;
      var handle := widgets[k].handle;
      if rec.xx != theX || rec.yy != theY || rec.pressed != pressed || rec.widget != handle {
        log := log + [Motion(handle, rec.index, pressed, theX, theY)];
        rec := rec.(widget := handle, xx := theX, yy := theY, pressed := pressed);
      }
      match input.scroll {
        case Scrolled(scrollX, scrollY) =>
          if rec.touched && !rec.pressed {
            log := log + [Scroll(rec.widget, rec.index, (scrollX - rec.touchPadX) * ScrollFactor,
                                 (scrollY - rec.touchPadY) * ScrollFactor)];
          }
          rec := rec.(touched := true, touchPadX := scrollX, touchPadY := scrollY);
        case NotScrolled =>
          rec := rec.(touched := false);
      }
      controllers := controllers[i := rec];
    }

    /** One controller's turn in the pass: the widget scan, the gestures,
        and, on a target with the motion method present, motion and scroll.
        Its effect is exactly Step; `ctx` is what the pass read at its start,
        whose widgets differ from the current ones only in their pointers. */
    method ProcessController(i: nat, input: ControllerInput, gestures: seq<GestureKind>, ghost ctx: PassContext)
      returns (target: Option<nat>)
      requires i < |controllers| && |input.hits| == |widgets| == |ctx.widgets|
      requires ctx.farClip == FarClip && ctx.methods == methods && ctx.gesturesOn == hasGestures && ctx.gestures == gestures
      requires Handles(widgets) == Handles(ctx.widgets)
      modifies this`controllers, this`widgets, this`log
      ensures var s := Step(old(controllers[i]), input, ctx);
              target == s.active &&
              controllers == old(controllers)[i := s.rec] && log == old(log) + s.events
      ensures widgets == HidePointers(old(widgets))
    {
      ghost var s := Step(controllers[i], input, ctx);
      var hitWidget := ScanWidgets(input);
      ForwardGestures(gestures);
      ghost var afterGestures := log;
      target := None;
      if methods.motion && hitWidget.Some? {
        var k := hitWidget.value;
        assert widgets[k].handle == Handles(old(widgets))[k] == Handles(ctx.widgets)[k];
        target := Some(k);
        ghost var hit := input.hits[k];
        ghost var moved := Dispatch(controllers[i], ctx.widgets[k].handle, hit.localX, hit.localY, input.pressed);
        ghost var scrolled := ScrollUpdate(moved.0, input.scroll);
        TrackController(i, input, k);
        assert s.events == FrameGestures(ctx) + moved.1 + scrolled.1;
        AppendAssoc(old(log), FrameGestures(ctx), moved.1, scrolled.1);
      }
    }

    /** Controller `i` takes its turn within a pass: the records, the log
        and the collected widgets go from the pass over the first `i`
        controllers to the pass over the first `i + 1`. */
    method AdvancePass(i: nat, inputs: seq<ControllerInput>, gestures: seq<GestureKind>, ghost ctx: PassContext,
                       ghost recs0: seq<ControllerRecord>, ghost pre: seq<Event>)
      returns (target: Option<nat>)
      requires |inputs| == |recs0| && WellFormed(inputs, ctx) && i < |recs0|
      requires ctx.farClip == FarClip && ctx.methods == methods && ctx.gesturesOn == hasGestures && ctx.gestures == gestures
      requires |widgets| == |ctx.widgets| && Handles(widgets) == Handles(ctx.widgets)
      requires controllers == Frame(recs0[..i], inputs[..i], ctx).recs + recs0[i..]
      requires log == pre + Frame(recs0[..i], inputs[..i], ctx).events
      modifies this`controllers, this`widgets, this`log
      ensures var f := Frame(recs0[..i], inputs[..i], ctx);
              var g := Frame(recs0[..i + 1], inputs[..i + 1], ctx);
              controllers == g.recs + recs0[i + 1..] && log == pre + g.events &&
              g.active == f.active + (if target.Some? then [target.value] else [])
      ensures widgets == HidePointers(old(widgets))
    {
      FrameAdvance(recs0, inputs, ctx, i, pre);
      target := ProcessController(i, inputs[i], gestures, ctx);
    }

    /** The controller loop of the pass: every controller in order takes
        its turn; returns the widgets collected for showing the pointer. */
    method RunControllers(inputs: seq<ControllerInput>, gestures: seq<GestureKind>, ghost ctx: PassContext)
      returns (active: seq<nat>)
      requires ctx == Context(gestures)
      requires |inputs| == |controllers| && WellFormed(inputs, ctx)
      modifies this`controllers, this`widgets, this`log
      ensures var f := Frame(old(controllers), inputs, ctx);
              controllers == f.recs && log == old(log) + f.events && active == f.active
      ensures widgets == if old(controllers) == [] then old(widgets) else HidePointers(old(widgets))
    {
      ghost var recs0 := controllers;
      ghost var ws := widgets;
      HidePointersStable(ws);
      active := [];
      var i := 0;
      while i < |controllers|
        invariant 0 <= i <= |recs0| && |recs0[..i]| == i
        invariant controllers == Frame(recs0[..i], inputs[..i], ctx).recs + recs0[i..]
        invariant log == old(log) + Frame(recs0[..i], inputs[..i], ctx).events
        invariant active == Frame(recs0[..i], inputs[..i], ctx).active
        invariant widgets == if i == 0 then ws else HidePointers(ws)
      {
        var target := AdvancePass(i, inputs, gestures, ctx, recs0, old(log));
        if target.Some? {
          active := active + [target.value];
        }
        i := i + 1;
      }
      assert recs0[..i] == recs0 && inputs[..i] == inputs;
    }

    /** The per-frame pass: the controller loop, then the deferred pointer
        toggle. The result is exactly Frame. */
    method UpdateControllers(inputs: seq<ControllerInput>, gestures: seq<GestureKind>)
      requires Valid()
      requires |inputs| == |controllers| && WellFormed(inputs, Context(gestures))
      modifies this`controllers, this`widgets, this`log
      ensures Valid()
      ensures var f := Frame(old(controllers), inputs, old(Context(gestures)));
              controllers == f.recs && log == old(log) + f.events &&
              widgets == TogglePointers(old(widgets), old(controllers) != [], f.active)
    {
      ghost var ctx := Context(gestures);
      ghost var f := Frame(controllers, inputs, ctx);
      ghost var ws := widgets;
      var active := RunControllers(inputs, gestures, ctx);
      FrameRecords(old(controllers), inputs, ctx);
      ShowPointers(active);
      assert widgets == TogglePointers(ws, old(controllers) != [], f.active) by {
        var toggled := TogglePointers(ws, old(controllers) != [], f.active);
        forall w | 0 <= w < |ws| ensures widgets[w] == toggled[w] {
        }
      }
      active := [];
    }

    /** The deferred toggle: after every controller is done, the pointer of
        each collected widget is shown; no other widget changes. */
    method ShowPointers(active: seq<nat>)
      requires forall x :: x in active ==> x < |widgets|
      modifies this`widgets
      ensures |widgets| == |old(widgets)|
      ensures forall w :: 0 <= w < |widgets| ==>
                widgets[w] == old(widgets[w]).(pointer := old(widgets[w].pointer) || w in active)
    {
      var a := 0;
      while a < |active|
        invariant 0 <= a <= |active| && |widgets| == |old(widgets)|
        invariant forall w :: 0 <= w < |widgets| ==>
                    widgets[w] == old(widgets[w]).(pointer := old(widgets[w].pointer) || w in active[..a])
      {
        assert active[..a + 1] == active[..a] + [active[a]];
        assert active[a] in active;
        widgets := widgets[active[a] := widgets[active[a]].(pointer := true)];
        a := a + 1;
      }
      assert active[..a] == active;
    }

    /** One frame: nothing happens without a device, while paused, or when GL
        cannot be brought up; otherwise the controller pass runs and, if the
        audio method is present, the head pose is sent. */
    method Draw(glOk: bool, inputs: seq<ControllerInput>, gestures: seq<GestureKind>, head: HeadPose)
      requires Valid()
      requires |inputs| == |controllers| && WellFormed(inputs, Context(gestures))
      modifies this`glInitialized, this`controllers, this`widgets, this`log
      ensures Valid()
      ensures !old(hasDevice) || old(paused) ==> glInitialized == old(glInitialized)
      ensures old(hasDevice) && !old(paused) ==> glInitialized == (old(glInitialized) || glOk)
      ensures var drawn := old(hasDevice) && !old(paused) && (old(glInitialized) || glOk);
              var f := Frame(old(controllers), inputs, old(Context(gestures)));
              if drawn then
                controllers == f.recs &&
                widgets == TogglePointers(old(widgets), old(controllers) != [], f.active) &&
                log == old(log) + f.events + (if methods.audio then [AudioPose(head)] else [])
              else
                controllers == old(controllers) && widgets == old(widgets) && log == old(log)
    {
      if !hasDevice {
        return;
      }
      if paused {
        return;
      }
      if !glInitialized {
        glInitialized := glOk;
        if !glInitialized {
          return;
        }
      }
      UpdateControllers(inputs, gestures);
      if methods.audio {
        log := log + [AudioPose(head)];
      }
    }
  }

  /** The widgets with every pointer hidden. */
  function HidePointers(ws: seq<Widget>): (r: seq<Widget>)
    ensures |r| == |ws|
    ensures forall w :: 0 <= w < |ws| ==> r[w] == ws[w].(pointer := false)
  {
    seq(|ws|, w requires 0 <= w < |ws| => ws[w].(pointer := false))
  }

  /** The widget handles, in widget order. */
  function Handles(ws: seq<Widget>): (r: seq<uint32>)
    ensures |r| == |ws|
    ensures forall w :: 0 <= w < |ws| ==> r[w] == ws[w].handle
  {
    seq(|ws|, w requires 0 <= w < |ws| => ws[w].handle)
  }

  /** Hiding pointers keeps the handles and hiding twice is hiding once. */
  lemma HidePointersStable(ws: seq<Widget>)
    ensures Handles(HidePointers(ws)) == Handles(ws)
    ensures HidePointers(HidePointers(ws)) == HidePointers(ws)
  {
    assert forall w :: 0 <= w < |ws| ==> Handles(HidePointers(ws))[w] == Handles(ws)[w];
    assert forall w :: 0 <= w < |ws| ==> HidePointers(HidePointers(ws))[w] == HidePointers(ws)[w];
  }

  /** The loop's bookkeeping for one more controller: the spliced record
      list, the log and the collected widgets all become the longer pass. */
  lemma FrameAdvance(recs: seq<ControllerRecord>, inputs: seq<ControllerInput>, ctx: PassContext, i: nat, pre: seq<Event>)
    requires |inputs| == |recs| && WellFormed(inputs, ctx) && i < |recs|
    ensures var f := Frame(recs[..i], inputs[..i], ctx);
            var g := Frame(recs[..i + 1], inputs[..i + 1], ctx);
            var s := Step(recs[i], inputs[i], ctx);
            |f.recs| == i &&
            (f.recs + recs[i..])[i := s.rec] == g.recs + recs[i + 1..] &&
            pre + f.events + s.events == pre + g.events &&
            g.active == f.active + (if s.active.Some? then [s.active.value] else [])
  {
    var f := Frame(recs[..i], inputs[..i], ctx);
    var s := Step(recs[i], inputs[i], ctx);
    FrameExtend(recs, inputs, ctx, i);
    assert (f.recs + recs[i..])[i := s.rec] == (f.recs + [s.rec]) + recs[i + 1..];
    assert pre + f.events + s.events == pre + (f.events + s.events);
  }

  lemma AppendAssoc<T>(a: seq<T>, b: seq<T>, c: seq<T>, d: seq<T>)
    ensures a + b + c + d == a + (b + c + d)
  {
  }
}
