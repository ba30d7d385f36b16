/** The pointer handling and button states of the image editor component:
    the crop selection drawn with the mouse, the before/after split slider,
    and which of Undo, Redo and Apply Crop are enabled.

    Pointer positions are given as the event's client coordinates together
    with the bounding box of the element that received it.
 */
module ImageEditor {
  import opened Wrappers
  import opened Geometry
  import opened EditHistory

  /** A position normalised to the element: (0, 0) is its top-left corner,
      (1, 1) its bottom-right corner. */
  datatype Position = Position(x: real, y: real)

  /** An element's bounding box in client coordinates. */
  datatype Box = Box(left: real, top: real, width: real, height: real)

  predicate NonEmptyBox(b: Box) {
    b.width > 0.0 && b.height > 0.0
  }

  /** The crop fields of the editor state. */
  datatype CropState = CropState(mode: bool, start: Option<Position>, end: Option<Position>, preview: Option<Rect>)

  predicate InUnitSquare(p: Position) {
    0.0 <= p.x <= 1.0 && 0.0 <= p.y <= 1.0
  }

  function Min(a: real, b: real): (m: real)
    ensures m <= a && m <= b && (m == a || m == b)
  {
    if a <= b then a else b
  }

  function Max(a: real, b: real): (m: real)
    ensures m >= a && m >= b && (m == a || m == b)
  {
    if a >= b then a else b
  }

  function Abs(a: real): (m: real)
    ensures m >= 0.0 && (m == a || m == -a)
  {
    if a >= 0.0 then a else -a
  }

  /** `Math.min(hi, Math.max(0, v))`. */
  function Clamp(v: real, hi: real): (c: real)
    requires hi >= 0.0
    ensures 0.0 <= c <= hi
    ensures 0.0 <= v <= hi ==> c == v
    ensures v < 0.0 ==> c == 0.0
    ensures v > hi ==> c == hi
  {
    Min(hi, Max(0.0, v))
  }

  /** The pointer position relative to an element, unclamped. */
  function Normalise(b: Box, cx: real, cy: real): (p: Position)
    requires NonEmptyBox(b)
    ensures b.left <= cx <= b.left + b.width && b.top <= cy <= b.top + b.height ==> InUnitSquare(p)
    ensures p.x * b.width == cx - b.left && p.y * b.height == cy - b.top
  {
    Position((cx - b.left) / b.width, (cy - b.top) / b.height)
  }

  /** `handleCropMouseDown`: in crop mode, anchor the selection at the
      pointer and forget any end point and preview; otherwise nothing. */
  function MouseDown(s: CropState, b: Box, cx: real, cy: real): (s': CropState)
    requires NonEmptyBox(b)
    ensures !s.mode ==> s' == s
    ensures s.mode ==> s'.mode && s'.start == Some(Normalise(b, cx, cy)) && s'.end.None? && s'.preview.None?
  {
    if !s.mode then s
    else CropState(s.mode, Some(Normalise(b, cx, cy)), None, None)
  }

  /** The live selection between an anchor and the pointer: top-left at the
      smaller coordinates, size the distance between them. */
  function Selection(a: Position, e: Position): (r: Rect)
    ensures r.width >= 0.0 && r.height >= 0.0
    ensures r.x == Min(a.x, e.x) && r.x + r.width == Max(a.x, e.x)
    ensures r.y == Min(a.y, e.y) && r.y + r.height == Max(a.y, e.y)
  {
    Rect(Min(a.x, e.x), Min(a.y, e.y), Abs(a.x - e.x), Abs(a.y - e.y))
  }

  /** `handleCropMouseMove`: with crop mode on and an anchor set, clamp the
      pointer into the element, record it as the end point, and publish the
      selection between anchor and end; otherwise nothing. */
  function MouseMove(s: CropState, b: Box, cx: real, cy: real): (s': CropState)
    requires NonEmptyBox(b)
    ensures !s.mode || s.start.None? ==> s' == s
    ensures s.mode && s.start.Some? ==>
      s'.mode && s'.start == s.start && s'.end.Some? && InUnitSquare(s'.end.value) &&
      s'.preview == Some(Selection(s.start.value, s'.end.value))
  {
    if !s.mode || s.start.None? then s
    else
      var p := Normalise(b, cx, cy);
      var e := Position(Clamp(p.x, 1.0), Clamp(p.y, 1.0));
      CropState(s.mode, s.start, Some(e), Some(Selection(s.start.value, e)))
  }

  /** `handleCropMouseUp`, also bound to mouse-leave: every path returns
      without touching state. */
  function MouseUp(s: CropState): (s': CropState)
    ensures s'.preview == s.preview && s'.start == s.start && s'.end == s.end && s'.mode == s.mode
  {
    s
  }

  /** A selection whose anchor lies on the element stays inside the image:
      both coordinates and both far edges are within [0, 1]. */
  lemma SelectionInside(a: Position, e: Position)
    requires InUnitSquare(a) && InUnitSquare(e)
    ensures var r := Selection(a, e);
      0.0 <= r.x && r.x + r.width <= 1.0 && 0.0 <= r.y && r.y + r.height <= 1.0
  {
  }

  /** The selection contains both the anchor and the end point, and is the
      smallest rectangle that does. */
  lemma SelectionSpansCorners(a: Position, e: Position)
    ensures var r := Selection(a, e);
      r.x <= a.x <= r.x + r.width && r.x <= e.x <= r.x + r.width &&
      r.y <= a.y <= r.y + r.height && r.y <= e.y <= r.y + r.height &&
      (r.x == a.x || r.x == e.x) && (r.x + r.width == a.x || r.x + r.width == e.x)
  {
  }

  /** Dragging from an anchor on the element gives a preview inside the
      image, whatever the pointer does. */
  lemma {:induction false} DragStaysInside(s: CropState, b: Box, cx: real, cy: real)
    requires NonEmptyBox(b) && s.mode && s.start.Some? && InUnitSquare(s.start.value)
    ensures var r := MouseMove(s, b, cx, cy).preview.value;
      0.0 <= r.x && r.x + r.width <= 1.0 && 0.0 <= r.y && r.y + r.height <= 1.0
  {
    var s' := MouseMove(s, b, cx, cy);
    SelectionInside(s.start.value, s'.end.value);
  }

  /** The anchor is not clamped: a press reported outside the element's box
      anchors outside the image, and the selection then runs past its
      edge. */
  lemma AnchorNotClamped(s: CropState, b: Box)
    requires s.mode && b == Box(0.0, 0.0, 100.0, 100.0)
    ensures MouseDown(s, b, 150.0, 50.0).start == Some(Position(1.5, 0.5))
    ensures MouseMove(MouseDown(s, b, 150.0, 50.0), b, 100.0, 100.0).preview == Some(Rect(1.0, 0.5, 0.5, 0.5))
  {
  }

  /** A press and a move to the same point give an empty selection, which
      is published like any other and enables Apply Crop. */
  lemma EmptySelectionAccepted(s: CropState, b: Box)
    requires s.mode && b == Box(0.0, 0.0, 100.0, 100.0)
    ensures MouseMove(MouseDown(s, b, 50.0, 50.0), b, 50.0, 50.0).preview == Some(Rect(0.5, 0.5, 0.0, 0.0))
    ensures !ApplyCropDisabled(MouseMove(MouseDown(s, b, 50.0, 50.0), b, 50.0, 50.0).preview)
  {
  }

  /** Releasing the button keeps the selection drawn so far. */
  lemma {:induction false} ReleaseKeepsSelection(s: CropState, b: Box, cx: real, cy: real)
    requires NonEmptyBox(b) && s.mode && s.start.Some?
    ensures MouseUp(MouseMove(s, b, cx, cy)).preview.Some?
  {
  }

  /** `handleBeforeAfterMove`: the pointer's distance from the left edge as
      a percentage of the width, clamped to [0, 100]. */
  function SplitPosition(b: Box, cx: real): (pos: real)
    requires b.width > 0.0
    ensures 0.0 <= pos <= 100.0
    ensures b.left <= cx <= b.left + b.width ==> pos * b.width == (cx - b.left) * 100.0
    ensures cx <= b.left ==> pos == 0.0
    ensures cx >= b.left + b.width ==> pos == 100.0
  {
    var v := (cx - b.left) / b.width * 100.0;
    SplitBounds(cx - b.left, b.width);
    Max(0.0, Min(100.0, v))
  }

  lemma SplitBounds(x: real, w: real)
    requires w > 0.0
    ensures 0.0 <= x <= w ==> 0.0 <= x / w * 100.0 <= 100.0 && x / w * 100.0 * w == x * 100.0
    ensures x <= 0.0 ==> x / w * 100.0 <= 0.0
    ensures x >= w ==> x / w * 100.0 >= 100.0
  {
    var q := x / w;
    assert q * w == x;
    if 0.0 <= x <= w {
      assert q <= 1.0;
    }
    if x >= w {
      assert q >= 1.0;
    }
  }

  /** `handleBeforeAfterTouch`: the first touch moves the split like the
      mouse does; an event with no touches changes nothing. */
  function TouchSplit(b: Box, touchesX: seq<real>, pos: real): (pos': real)
    requires b.width > 0.0
    ensures touchesX == [] ==> pos' == pos
    ensures touchesX != [] ==> 0.0 <= pos' <= 100.0 && pos' == SplitPosition(b, touchesX[0])
  {
    if |touchesX| == 0 then pos else SplitPosition(b, touchesX[0])
  }

  /** The Undo button: disabled at the first entry, before any entry, and
      in crop mode. */
  predicate UndoDisabled(historyIndex: int, cropMode: bool) {
    historyIndex <= 0 || cropMode
  }

  /** The Redo button: disabled at the last entry and in crop mode. */
  predicate RedoDisabled(historyIndex: int, historyLength: int, cropMode: bool) {
    historyIndex >= historyLength - 1 || cropMode
  }

  /** The Apply Crop button: disabled until a selection exists. */
  predicate ApplyCropDisabled(preview: Option<Rect>) {
    preview.None?
  }

  /** Undo is enabled exactly when crop mode is off and undo would move. */
  lemma UndoEnabledIffActs<T>(h: History<T>, cropMode: bool)
    requires Valid(h)
    ensures !UndoDisabled(h.cursor, cropMode) <==> !cropMode && Undo(h).0 != h
  {
  }

  /** Redo is enabled exactly when crop mode is off and redo would move. */
  lemma RedoEnabledIffActs<T>(h: History<T>, cropMode: bool)
    requires Valid(h)
    ensures !RedoDisabled(h.cursor, |h.entries|, cropMode) <==> !cropMode && Redo(h).0 != h
  {
  }
}
