# Browser world: per-frame controller interaction resolver

This project models the core of the VR browser's `BrowserWorld`: the per-frame
pass `UpdateControllers` and the lifecycle around it.

Each frame, for every tracked controller, the pass does four things:

- It scans the widgets (the browser panel and the URL bar) for the nearest hit
  that lies inside a widget and strictly nearer than the far clip plane, and
  hides every pointer along the way.
- It forwards the gesture classifier's swipes to the host application.
- When the host's motion method exists and a widget is hit, it sends a Motion
  event only if (widget, x, y, pressed) changed since the last one sent.
- It then runs the touch-pad scroll state machine, which sends scaled deltas
  between consecutive samples while the pad is touched and the button is up.

After all controllers, the pointers of the collected widgets are shown. Around
the pass, the model covers:

- device registration;
- pause and resume;
- binding to and unbinding from the host, including widget and controller-record
  creation;
- GL bring-up and shutdown, with surface textures announced again;
- `Draw`, with its early returns and the head pose sent for audio.

Files:

- `records.dfy` (module `Records`): the values. This covers the controller
  record, widgets, what the device and widgets report each frame, host events and
  the source's constants: widget type tags 0 and 1, gesture codes 0 and 1, scroll
  factor 20 and far clip 100.
- `resolver.dfy` (module `Resolver`): the pass as functions on values. `Step` is
  one controller in one frame and `Frame` is the whole pass. Lemmas state the
  resolver's promises: first-nearest choice, change-only motion, telescoping
  scroll deltas, gesture forwarding, pointer visibility and de-duplication across
  frames.
- `world.dfy` (module `World`): class `BrowserWorld`, whose fields are the
  lifecycle flags, the host method ids, the records, the widgets and a log of
  host calls. Its methods mirror the C++ methods step by step, loops included.
  `UpdateControllers` is proved to produce exactly the records and events of
  `Frame`, and the pointers that `TogglePointers` derives from the widgets
  `Frame` collects.

Inputs from outside the core are method parameters:

- a `Hit` per (controller, widget): whether the ray meets the widget, whether it
  is inside it, the distance, and the widget-local point;
- each controller's button state and touch-pad sample;
- the gesture classifier's list;
- whether GL came up;
- the surface factory's map.

Every call into the host application is appended to `log` in order. A host
method that was not found is a `false` in `Methods`.

A frame without a hit leaves the record as it was. Returning to the same widget
at the same point with the same button state is therefore not a change, and no
Motion event is sent. `ReentryAtSameTupleIsSilent` states this.

## Model

| member | source | states |
|---|---|---|
| Resolver.Nearest | app/src/main/cpp/BrowserWorld.cpp:219-234 | the chosen widget is within bounds, its ray meets the widget, the hit is inside it and nearer than the far clip |
| Resolver.NearestIsFirstMinimum | app/src/main/cpp/BrowserWorld.cpp:219-234 | no widget is chosen iff none qualifies; otherwise the choice is strictly nearer than every earlier qualifying widget and no farther than any later one (first of the nearest) |
| Resolver.NearestUnique | app/src/main/cpp/BrowserWorld.cpp:219-234 | any index meeting the first-nearest description is exactly the widget the scan chooses |
| Resolver.NearestAtMost | app/src/main/cpp/BrowserWorld.cpp:227-232 | any qualifying hit bounds the chosen distance from above |
| Resolver.NearestDistanceIgnoresOrder | app/src/main/cpp/BrowserWorld.cpp:219-234 | reordering the widgets changes neither whether a widget is hit nor the distance of the chosen hit |
| Resolver.Dispatch | app/src/main/cpp/BrowserWorld.cpp:252-264 | one Motion(handle, index, pressed, x, y) event exactly when the tuple changed; the record then holds the new tuple either way |
| Resolver.ScrollUpdate | app/src/main/cpp/BrowserWorld.cpp:265-276 | a Scroll event with deltas (new - last) * 20 exactly when a sample is present, the pad was touched and the button is up; a sample always becomes the new baseline; no sample clears `touched` |
| Resolver.ScrollBaseline | app/src/main/cpp/BrowserWorld.cpp:265-276 | the first sample of a touch only sets the baseline; a second sample (5, 5) further on with the button up scrolls by (100, 100) |
| Resolver.ScrollRunTelescopes | app/src/main/cpp/BrowserWorld.cpp:265-276 | over a run of samples with the button up, the deltas sent add up to (last sample - baseline) * 20: no movement is lost or counted twice |
| Resolver.GestureCode | app/src/main/cpp/BrowserWorld.cpp:238-244 | swipe left maps to 0, swipe right to 1, anything else to a negative code |
| Resolver.GestureEvents | app/src/main/cpp/BrowserWorld.cpp:237-248 | one walk over the classifier's gestures makes at most one host call per reported gesture |
| Resolver.GestureEventsAppend | app/src/main/cpp/BrowserWorld.cpp:235-249 | gestures are forwarded in the classifier's order |
| Resolver.GestureEventsMembers | app/src/main/cpp/BrowserWorld.cpp:235-249 | an event is forwarded iff the gesture method exists and some reported gesture is a swipe with that code |
| Resolver.GestureEventsOnlyGestures | app/src/main/cpp/BrowserWorld.cpp:245-247 | gesture forwarding sends only Gesture events |
| Resolver.GestureEventsWithoutHandle | app/src/main/cpp/BrowserWorld.cpp:245 | without the gesture method nothing is forwarded |
| Resolver.SwipeLeftThenRight | app/src/main/cpp/BrowserWorld.cpp:240-246 | a left then a right swipe reach the host as codes 0 then 1 |
| Resolver.Step | app/src/main/cpp/BrowserWorld.cpp:214-277 | one controller: the index is kept; a target exists iff the motion method exists and a widget qualifies, and it is the nearest; without one the record is unchanged and only gestures are sent; with one the record holds the target's handle, the point, the button and whether the pad is touched |
| Resolver.StepRepeatEmitsNoMotion | app/src/main/cpp/BrowserWorld.cpp:257-264 | de-duplication: the same report two frames in a row sends no Motion event the second time |
| Resolver.ReentryAtSameTupleIsSilent | app/src/main/cpp/BrowserWorld.cpp:250-277 | a frame without a hit leaves the record unchanged and sends no Motion event; coming back at the same tuple sends none either |
| Resolver.ScrollIgnoresScrollMethod | app/src/main/cpp/BrowserWorld.cpp:266-270 | whether the scroll method was found does not change what a controller sends |
| Resolver.Frame | app/src/main/cpp/BrowserWorld.cpp:211-283 | the pass yields one record per controller, and every collected widget is a valid widget index |
| Resolver.FrameRecords | app/src/main/cpp/BrowserWorld.cpp:214 | each controller's new record is its own step's record; no controller reads another's record |
| Resolver.FrameActiveIsCollected | app/src/main/cpp/BrowserWorld.cpp:250-251 | the pass collects its controllers' targets in controller order |
| Resolver.CollectedIffTargeted | app/src/main/cpp/BrowserWorld.cpp:250-251 | a widget is collected iff some controller targets it |
| Resolver.FrameSilentWithoutMethods | app/src/main/cpp/BrowserWorld.cpp:438-444 | with every host method null, a pass sends nothing and changes no record |
| Resolver.FrameGesturesOncePerController | app/src/main/cpp/BrowserWorld.cpp:214-249 | without the motion method, a pass sends the frame's gestures once per controller and nothing else |
| Resolver.StepGestures | app/src/main/cpp/BrowserWorld.cpp:235-277 | whether or not the controller has a target, the Gesture events it sends are exactly the frame's gestures; motion and scroll add no Gesture event |
| Resolver.FrameGesturesEveryController | app/src/main/cpp/BrowserWorld.cpp:214-249 | in every case, the Gesture events of a pass are the frame's gestures repeated once per controller |
| Resolver.FrameRepeatEmitsNoMotion | app/src/main/cpp/BrowserWorld.cpp:211-283 | repeating a whole frame with unchanged inputs sends no Motion event |
| Resolver.TogglePointers | app/src/main/cpp/BrowserWorld.cpp:222-281 | the hiding at :223 and the showing at :279-281: toggling changes nothing but each widget's pointer (handle, type, surface name and size stay) and keeps the widget count; with no controller the widgets come back unchanged |
| Resolver.PointerShownIffTargeted | app/src/main/cpp/BrowserWorld.cpp:279-281 | after a pass with controllers, a widget shows its pointer iff the motion method exists and some controller's nearest hit is that widget |
| Resolver.FirstNamed | app/src/main/cpp/BrowserWorld.cpp:502-503 | the first widget with the name, or none when no widget has it |
| Resolver.Announce | app/src/main/cpp/BrowserWorld.cpp:498-512 | at most one CreateWidget event, sent iff env, activity and create method exist and some widget has the name; it carries the first such widget's type, handle, size and the surface |
| Resolver.RestoreSurfaces | app/src/main/cpp/BrowserWorld.cpp:421-427 | the re-announcement loop sends only CreateWidget events |
| Resolver.RestoreSurfacesCount | app/src/main/cpp/BrowserWorld.cpp:420-427 | bringing GL up announces exactly one event per widget whose surface already exists, and none when the host cannot be called |
| World.NewRecord | app/src/main/cpp/BrowserWorld.cpp:109-112 | a record moved into the list keeps its index and widget 0; its other fields are whatever the destination held |
| World.FreshRecords | app/src/main/cpp/BrowserWorld.cpp:394-405 | the created records are count records, with indices 0 to count - 1 in order |
| World.BrowserWorld.constructor | app/src/main/cpp/BrowserWorld.cpp:172-173 | a new world is paused, has no GL, device, controllers, host binding or events |
| World.BrowserWorld.RegisterDeviceDelegate | app/src/main/cpp/BrowserWorld.cpp:300-321 | a device sets the controller count and gesture classifier and keeps the records; no device clears records, count and classifier |
| World.BrowserWorld.Pause | app/src/main/cpp/BrowserWorld.cpp:323-326 | the world is paused afterwards |
| World.BrowserWorld.IsPaused | app/src/main/cpp/BrowserWorld.cpp:333-336 | reports the paused flag, which Pause sets and Resume clears |
| World.BrowserWorld.Resume | app/src/main/cpp/BrowserWorld.cpp:328-331 | the world is not paused afterwards |
| World.BrowserWorld.InitializeJava | app/src/main/cpp/BrowserWorld.cpp:338-409 | stops at a missing environment, activity or class; otherwise records the methods found, appends the browser and URL-bar widgets with their type tags, and creates records 0 to count - 1 only when there are none and count > 0; records stay densely indexed |
| World.BrowserWorld.InitializeGL | app/src/main/cpp/BrowserWorld.cpp:411-430 | a no-op once GL is up; otherwise GL takes the given outcome and, on success, each widget whose surface exists is announced |
| World.BrowserWorld.ShutdownJava | app/src/main/cpp/BrowserWorld.cpp:432-445 | environment, activity and every host method become null |
| World.BrowserWorld.ShutdownGL | app/src/main/cpp/BrowserWorld.cpp:447-454 | GL is no longer initialised |
| World.BrowserWorld.SetSurfaceTexture | app/src/main/cpp/BrowserWorld.cpp:498-512 | the loop sends exactly Announce: one CreateWidget for the first widget with the name, if the host can be called |
| World.BrowserWorld.ScanWidgets | app/src/main/cpp/BrowserWorld.cpp:219-234 | the widget loop finds Nearest and leaves every pointer hidden |
| World.BrowserWorld.ForwardGestures | app/src/main/cpp/BrowserWorld.cpp:235-249 | the gesture loop sends exactly GestureEvents when a classifier exists, nothing otherwise |
| World.BrowserWorld.TrackController | app/src/main/cpp/BrowserWorld.cpp:252-276 | motion then scroll for a targeted controller, exactly Dispatch followed by ScrollUpdate; only that controller's record changes |
| World.BrowserWorld.ProcessController | app/src/main/cpp/BrowserWorld.cpp:214-277 | one controller's turn computes exactly Step: its target, its new record in place and its events appended to the log |
| World.BrowserWorld.AdvancePass | app/src/main/cpp/BrowserWorld.cpp:214-278 | one more controller takes the records, the log and the collected widgets from the pass over the first i controllers to the pass over i + 1 |
| World.BrowserWorld.RunControllers | app/src/main/cpp/BrowserWorld.cpp:213-278 | the controller loop yields exactly Frame's records, events and collected widgets, and hides every pointer when there are controllers |
| World.BrowserWorld.ShowPointers | app/src/main/cpp/BrowserWorld.cpp:279-282 | the collected widgets show their pointer; no other widget changes |
| World.BrowserWorld.UpdateControllers | app/src/main/cpp/BrowserWorld.cpp:211-283 | the whole pass: records, log and widgets equal Frame and TogglePointers; records stay densely indexed |
| World.BrowserWorld.Draw | app/src/main/cpp/BrowserWorld.cpp:456-496 | nothing changes without a device, while paused or when GL fails to come up; otherwise the pass runs and the head pose is sent iff the audio method exists |

## Left out

- Geometry: ray casting, `TestControllerIntersection` and `ConvertToWidgetCoordinates` belong to Widget.cpp, which is not part of this model. Their answers come in as a `Hit` per controller and widget.
- Floating point: positions, distances and scroll deltas are `real`. Single-precision rounding of `(scrollX - touchPadX) * kScrollFactor` and of the comparisons is not modelled.
- `ControllerRecord.touched` is a `float` in the source; it is a `bool` here. Once the pass writes it (:271, :275) it holds 0 or 1. Before that, a record inserted by the move constructor (:112, via :404) holds an indeterminate value, which `leftover` in `NewRecord` supplies. The test at :267 reads any non-zero value as true, which is what the `bool` captures.
- The pose source: controller and head transforms, setting the controller node's transform, and extracting the quaternion and translation for audio. The head pose is an input.
- The scene graph, cameras, clear colour, clip planes handed to the device, `CreateFloor`, `AddControllerPointer`, controller model loading and rendering in `Draw`. None of these affects the events or the records.
- JNI plumbing: global references, method lookup by name and signature, `displayDensity` and the URL-bar size derived from it. The widgets `InitializeWindows` adds are inputs, with their type tags set as the source does.
- The diagnostic message after the scroll-method lookup (:371) is printed when the method is found rather than when it is missing. It affects logging only.
- `SurfaceObserver` callbacks and the surface texture factory. The factory's contents are a map from name to surface.
- The rendering context is assumed to exist, so the `if (m.context)` guards always pass.
- The gesture classifier is taken to report the same list for every controller within one frame.
- The environment is taken to exist whenever a host method does. Calling a method through a null environment is undefined and is not modelled.
- The code issues the scroll call without checking that the scroll method was found. A call through a null method id is undefined JNI behaviour; here it is recorded as a Scroll event like any other, and `ScrollIgnoresScrollMethod` states that.
