/** The values shared by the interaction resolver and the browser world: the
    per-controller record, a widget as the resolver sees it, what the device
    and the widgets report each frame, and the events sent to the host
    application. */
module Records {

  /** The C++ integer widths of the record and event fields. */
  type uint32 = x: int | 0 <= x < 0x1_0000_0000
  type int32 = x: int | -0x8000_0000 <= x < 0x8000_0000

  /** Widget type tags, kept in step with the host application. */
  const WidgetTypeBrowser: int32 := 0
  const WidgetTypeURLBar: int32 := 1

  /** Codes of the forwarded gestures. */
  const GestureSwipeLeft: int32 := 0
  const GestureSwipeRight: int32 := 1

  /** Multiplier applied to touch-pad deltas before they are sent as scroll. */
  const ScrollFactor: real := 20.0

  /** Far clip plane of the world; a hit must lie strictly nearer. */
  const FarClip: real := 100.0

  datatype Option<T> = None | Some(value: T)

  /** Last dispatched state of one controller, used only for change detection
      (widget handle, local coordinates, pressed) and for scroll deltas
      (touched flag and the last touch-pad sample). */
  datatype ControllerRecord = ControllerRecord(
    index: int32,
    widget: uint32,
    pressed: bool,
    xx: real,
    yy: real,
    touched: bool,
    touchPadX: real,
    touchPadY: real)

  /** A widget: its handle, type tag, surface texture name and size, and
      whether its pointer is shown. */
  datatype Widget = Widget(
    handle: uint32,
    kind: int32,
    surfaceName: string,
    width: int32,
    height: int32,
    pointer: bool)

  /** What a widget answers about one controller's ray this frame: whether the
      ray meets its plane, whether the point is inside its bounds, the
      distance along the ray, and the point in widget coordinates. */
  datatype Hit = Hit(hit: bool, inWidget: bool, distance: real, localX: real, localY: real)

  /** What the device reports of a controller's touch pad. */
  datatype ScrollSample = NotScrolled | Scrolled(x: real, y: real)

  /** Everything the device and the widgets report about one controller in
      one frame: one Hit per widget, in widget order, the primary button, and
      the touch pad. */
  datatype ControllerInput = ControllerInput(hits: seq<Hit>, pressed: bool, scroll: ScrollSample)

  /** Kinds of gestures the classifier reports; only swipes are forwarded. */
  datatype GestureKind = SwipeLeft | SwipeRight | OtherGesture

  /** A surface texture object held by the host; it may be null. */
  datatype SurfaceRef = NullSurface | SurfaceTexture(id: nat)

  /** Head orientation (a quaternion) and position, as sent for audio. */
  datatype HeadPose = HeadPose(qx: real, qy: real, qz: real, qw: real, px: real, py: real, pz: real)

  /** One call into the host application, with its exact arguments. */
  datatype Event =
    | CreateWidget(kind: int32, handle: uint32, surface: SurfaceRef, width: int32, height: int32)
    | Motion(handle: uint32, index: int32, pressed: bool, x: real, y: real)
    | Scroll(handle: uint32, index: int32, dx: real, dy: real)
    | Gesture(code: int32)
    | AudioPose(pose: HeadPose)

  /** Which host methods were found; an absent one is a null method id. */
  datatype Methods = Methods(createWidget: bool, motion: bool, scroll: bool, audio: bool, gesture: bool)

  const NoMethods: Methods := Methods(false, false, false, false, false)
}
