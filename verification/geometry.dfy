/** Geometry of the rotate, flip and crop operations of the image processor
    hook. The pixels these operations produce come from the canvas
    `drawImage` call and stay abstract; what is modelled is the transform
    state (rotation counter and flip flag), the size of the output canvas,
    and, for rotate and flip, the orientation of the drawn content relative
    to the image first loaded, as an element of the symmetry group of the
    square.
 */
module Geometry {
  import opened Channel

  /** Width and height of an image or canvas, in pixels. */
  datatype Dims = Dims(width: int, height: int)

  function Swap(d: Dims): Dims {
    Dims(d.height, d.width)
  }

  /** The values the rotation counter can take. */
  predicate IsQuarterTurn(r: int) {
    r == 0 || r == 90 || r == 180 || r == 270
  }

  /** `a % 360` on numbers that hold integers: the remainder has the sign
      of the dividend. */
  function Remainder360(a: int): (r: int)
    ensures a >= 0 ==> 0 <= r < 360
    ensures a < 0 ==> -360 < r <= 0
    ensures -360 < a < 360 ==> r == a
    ensures (a - r) % 360 == 0
  {
    if a >= 0 then a % 360 else -((-a) % 360)
  }

  /** `(prev + 90) % 360`: the next value of the rotation counter. */
  function NextRotation(r: int): (r': int)
    ensures IsQuarterTurn(r) ==> IsQuarterTurn(r')
    ensures IsQuarterTurn(r) ==> (r' == r + 90 || (r == 270 && r' == 0))
    ensures r >= 0 ==> 0 <= r' < 360
  {
    Remainder360(r + 90)
  }

  /** The canvas size chosen by a rotate: the current image's size, with
      width and height swapped exactly when the new rotation is 90 or 270. */
  function RotatedDims(newRotation: int, d: Dims): (c: Dims)
    ensures c == d || c == Swap(d)
    ensures c == Swap(d) && d != Swap(d) <==> (newRotation == 90 || newRotation == 270) && d != Swap(d)
  {
    if newRotation == 90 || newRotation == 270 then Swap(d) else d
  }

  /** One rotate: the counter and the size of the image it produces. */
  function RotateStep(rotation: int, d: Dims): (res: (int, Dims))
    ensures IsQuarterTurn(rotation) ==> IsQuarterTurn(res.0)
    ensures res.1 == d || res.1 == Swap(d)
  {
    var r' := NextRotation(rotation);
    (r', RotatedDims(r', d))
  }

  function RotateSteps(n: nat, rotation: int, d: Dims): (res: (int, Dims))
    decreases n
  {
    if n == 0 then (rotation, d)
    else
      var s := RotateStep(rotation, d);
      RotateSteps(n - 1, s.0, s.1)
  }

  /** Four rotates bring back both the rotation counter and the image size,
      from any counter value: on the way exactly two of the four new
      rotations are 90 or 270. */
  lemma {:induction false} FourRotatesRestoreDims(rotation: int, d: Dims)
    requires IsQuarterTurn(rotation)
    ensures RotateSteps(4, rotation, d) == (rotation, d)
  {
    var s1 := RotateStep(rotation, d);
    var s2 := RotateStep(s1.0, s1.1);
    var s3 := RotateStep(s2.0, s2.1);
    var s4 := RotateStep(s3.0, s3.1);
    assert RotateSteps(4, rotation, d) == RotateSteps(0, s4.0, s4.1);
    if rotation == 0 || rotation == 180 {
      assert s1.1 == Swap(d) && s2.1 == Swap(d) && s3.1 == d && s4.1 == d;
    } else {
      assert s1.1 == d && s2.1 == Swap(d) && s3.1 == Swap(d) && s4.1 == Swap(Swap(d));
    }
  }

  /** The largest value a reflected `unsigned long` attribute accepts. */
  const MaxReflected: int := 0x7FFF_FFFF

  /** Assigning a number to `canvas.width` or `canvas.height`. The WebIDL
      `unsigned long` conversion truncates towards zero and reduces modulo
      2^32; the attribute is then reflected as a content attribute, which
      replaces any value above 2^31 - 1 by the attribute's default (300 for
      the width, 150 for the height). */
  function CanvasLength(x: real, default: nat): (n: int)
    requires default <= MaxReflected
    ensures 0 <= n <= MaxReflected
    ensures 0.0 <= x < 2147483648.0 ==> n as real <= x < n as real + 1.0
    ensures 2147483648.0 <= x < 4294967296.0 ==> n == default
    ensures -1.0 < x < 0.0 ==> n == 0
    ensures x <= -1.0 && -2147483648.0 < x ==> n == default
  {
    var u := Trunc(x) % 0x1_0000_0000;
    if u <= MaxReflected then u else default
  }

  /** The wrap-around is visible just above 2^32: the conversion keeps only
      the low 32 bits, which then fit the attribute. */
  lemma CanvasLengthWraps(x: real)
    requires x == 4294967301.5
    ensures CanvasLength(x, 300) == 5
  {
    assert Trunc(x) == 4294967301;
  }

  /** A crop selection in coordinates normalised to the displayed image. */
  datatype Rect = Rect(x: real, y: real, width: real, height: real)

  /** The canvas size `applyCrop` produces: the selection's width and height
      scaled by the image size, assigned to the canvas. Nothing is rejected:
      an empty or overhanging selection gives whatever size these products
      give. */
  function CropDims(preview: Rect, d: Dims): (c: Dims)
    requires d.width >= 0 && d.height >= 0
    ensures d.width <= MaxReflected && 0.0 <= preview.width <= 1.0 ==>
      0 <= c.width && c.width as real <= preview.width * d.width as real < c.width as real + 1.0
    ensures d.height <= MaxReflected && 0.0 <= preview.height <= 1.0 ==>
      0 <= c.height && c.height as real <= preview.height * d.height as real < c.height as real + 1.0
  {
    Dims(ScaledLength(preview.width, d.width, 300), ScaledLength(preview.height, d.height, 150))
  }

  /** A fraction of a length, assigned to a canvas length. */
  function ScaledLength(f: real, n: int, default: nat): (m: int)
    requires n >= 0 && default <= MaxReflected
    ensures n <= MaxReflected && 0.0 <= f <= 1.0 ==>
      0 <= m && m as real <= f * n as real < m as real + 1.0
  {
    if 0.0 <= f <= 1.0 && n <= MaxReflected then
      ScaleBelow(f, n);
      CanvasLength(f * n as real, default)
    else
      CanvasLength(f * n as real, default)
  }

  /** A fraction of a length the attribute accepts is accepted too. */
  lemma ScaleBelow(f: real, n: int)
    requires 0.0 <= f <= 1.0 && 0 <= n <= MaxReflected
    ensures 0.0 <= f * n as real < 2147483648.0
  {
    FractionBelow(f, n as real);
  }

  /** A fraction of a non-negative number lies between 0 and that number. */
  lemma FractionBelow(f: real, y: real)
    requires 0.0 <= f <= 1.0 && 0.0 <= y
    ensures 0.0 <= f * y <= y
  {
    MulNonneg(f, y);
    MulLe(f, 1.0, y);
  }

  /** Selecting the whole image keeps its size. */
  lemma CropWholeImage(d: Dims)
    requires 0 <= d.width <= MaxReflected && 0 <= d.height <= MaxReflected
    ensures CropDims(Rect(0.0, 0.0, 1.0, 1.0), d) == d
  {
  }

  /** The centre quarter of a 400 by 400 image is 200 by 200. */
  lemma CropCentreQuarter(preview: Rect, d: Dims)
    requires preview == Rect(0.25, 0.25, 0.5, 0.5) && d == Dims(400, 400)
    ensures CropDims(preview, d) == Dims(200, 200)
  {
    assert preview.width * d.width as real == 200.0;
  }

  /** A selection running past the right edge is not rejected: its size is
      taken as it is. */
  lemma CropOverhangKept(preview: Rect, d: Dims)
    requires preview == Rect(0.9, 0.0, 0.2, 0.2) && d == Dims(100, 100)
    ensures CropDims(preview, d) == Dims(20, 20)
  {
    assert preview.width * d.width as real == 20.0;
  }

  /** A product past 2^31 - 1 is not kept: the canvas falls back to its
      default size. */
  lemma CropTooLargeFallsBack(preview: Rect, d: Dims)
    requires preview == Rect(0.0, 0.0, 1.0, 1.0) && d == Dims(3000000000, 3000000000)
    ensures CropDims(preview, d) == Dims(300, 150)
  {
    assert Trunc(3000000000.0) == 3000000000;
  }

  /** An empty selection is not rejected either: it gives an empty canvas. */
  lemma CropEmptyKept(preview: Rect, d: Dims)
    requires preview.width == 0.0 && preview.height == 0.0
    requires d.width >= 0 && d.height >= 0
    ensures CropDims(preview, d) == Dims(0, 0)
  {
  }

  // Orientation of drawn content. A point is an offset from the centre of
  // the canvas, with y pointing down as on a canvas.

  datatype Point = Point(x: int, y: int)

  /** `ctx.rotate` by a quarter turn: clockwise on screen. */
  function Quarter(p: Point): Point {
    Point(-p.y, p.x)
  }

  /** `ctx.scale(-1, 1)`: a horizontal mirror. */
  function Mirror(p: Point): Point {
    Point(-p.x, p.y)
  }

  function Turn(k: nat, p: Point): Point
    decreases k
  {
    if k == 0 then p else Quarter(Turn(k - 1, p))
  }

  /** An element of the symmetry group of the square: draw mirrored (when
      `mirrored`), then turn by `quarters` quarter turns. This is the order
      in which the transform set up by `rotate` then `scale` acts on the
      drawn image. */
  datatype Orientation = Orientation(quarters: int, mirrored: bool)

  predicate ValidOrientation(o: Orientation) {
    0 <= o.quarters < 4
  }

  const Upright := Orientation(0, false)

  /** Where a point of the drawn image lands: the reference meaning of an
      orientation. */
  function Act(o: Orientation, p: Point): Point
    requires ValidOrientation(o)
  {
    Turn(o.quarters, if o.mirrored then Mirror(p) else p)
  }

  /** The transform applied by drawing with angle `rotation` and the mirror
      flag `mirrored`. */
  function DrawTransform(rotation: int, mirrored: bool): (o: Orientation)
    requires IsQuarterTurn(rotation)
    ensures ValidOrientation(o) && o.mirrored == mirrored
    ensures o.quarters * 90 == rotation
  {
    Orientation(rotation / 90, mirrored)
  }

  /** `a` after `b`, computed in the group: a mirror reverses the direction
      of the turns that come before it. */
  function Compose(a: Orientation, b: Orientation): (c: Orientation)
    requires ValidOrientation(a) && ValidOrientation(b)
    ensures ValidOrientation(c)
    ensures c.mirrored == (a.mirrored != b.mirrored)
  {
    Orientation((a.quarters + (if a.mirrored then 4 - b.quarters else b.quarters)) % 4, a.mirrored != b.mirrored)
  }

  lemma {:induction false} TurnAdd(i: nat, j: nat, p: Point)
    ensures Turn(i + j, p) == Turn(i, Turn(j, p))
    decreases i
  {
    if i > 0 {
      TurnAdd(i - 1, j, p);
    }
  }

  lemma TurnFour(p: Point)
    ensures Turn(4, p) == p
  {
    assert Turn(1, p) == Quarter(p);
    assert Turn(2, p) == Quarter(Quarter(p));
    assert Turn(3, p) == Quarter(Quarter(Quarter(p)));
  }

  lemma {:induction false} TurnFull(k: nat, p: Point)
    ensures Turn(k, p) == Turn(k % 4, p)
    decreases k
  {
    if k >= 4 {
      var j: nat := k - 4;
      assert j % 4 == k % 4;
      TurnFull(j, p);
      TurnAdd(j, 4, p);
      TurnFour(p);
      assert Turn(k, p) == Turn(j, p);
    }
  }

  /** A mirror turns a quarter turn into three. */
  lemma {:induction false} MirrorTurn(k: nat, p: Point)
    ensures Mirror(Turn(k, p)) == Turn(3 * k, Mirror(p))
    decreases k
  {
    if k > 0 {
      MirrorTurn(k - 1, p);
      var q := Turn(k - 1, p);
      assert Mirror(Quarter(q)) == Turn(3, Mirror(q));
      TurnAdd(3, 3 * (k - 1), Mirror(p));
    }
  }

  /** Composition in the group is composition of the point maps. */
  lemma {:induction false} ComposeActs(a: Orientation, b: Orientation, p: Point)
    requires ValidOrientation(a) && ValidOrientation(b)
    ensures Act(Compose(a, b), p) == Act(a, Act(b, p))
  {
    var pb := if b.mirrored then Mirror(p) else p;
    var c := Compose(a, b);
    assert Act(b, p) == Turn(b.quarters, pb);
    if a.mirrored {
      MirroredAfter(a.quarters, b.quarters, pb);
      assert Mirror(pb) == (if c.mirrored then Mirror(p) else p);
    } else {
      TurnAdd(a.quarters, b.quarters, pb);
      TurnFull(a.quarters + b.quarters, pb);
      assert c.quarters == (a.quarters + b.quarters) % 4;
    }
  }

  /** Turning by `i` after mirroring content turned by `j` is turning the
      mirrored content by `i - j`. */
  lemma {:induction false} MirroredAfter(i: nat, j: nat, q: Point)
    requires i < 4 && j < 4
    ensures Turn(i, Mirror(Turn(j, q))) == Turn((i + 4 - j) % 4, Mirror(q))
  {
    var k: nat := i + 3 * j;
    assert k % 4 == (i + 4 - j) % 4 by {
      assert k == (i + 4 - j) + 4 * (j - 1);
    }
    var mq := Mirror(q);
    MirrorTurn(j, q);
    TurnAdd(i, 3 * j, mq);
    TurnFull(k, mq);
  }

  /** The transform state of the editor together with the abstract content
      of the current image: `view` is the orientation of that content
      relative to the image first loaded, `dims` the size of its canvas. */
  datatype Transform = Transform(rotation: int, flipped: bool, view: Orientation, dims: Dims)

  predicate ValidTransform(t: Transform) {
    IsQuarterTurn(t.rotation) && ValidOrientation(t.view)
  }

  /** The state right after loading an image of size `d`. */
  function Loaded(d: Dims): (t: Transform)
    ensures ValidTransform(t)
  {
    Transform(0, false, Upright, d)
  }

  /** The orientation the transform state claims for the current image. */
  predicate Consistent(t: Transform)
    requires ValidTransform(t)
  {
    t.view == DrawTransform(t.rotation, t.flipped)
  }

  /** Content with an odd number of quarter turns needs the loaded size
      swapped to fit its canvas. */
  predicate Fits(original: Dims, t: Transform) {
    t.dims == (if t.view.quarters % 2 == 1 then Swap(original) else original)
  }

  /** `rotateImage` as written: the CURRENT image is drawn turned by the new
      absolute angle, mirrored when the flag is set, on a canvas sized by
      the new angle. */
  function RotateAsWritten(t: Transform): (t': Transform)
    requires ValidTransform(t)
    ensures ValidTransform(t')
    ensures t'.rotation == NextRotation(t.rotation) && t'.flipped == t.flipped
  {
    var r := NextRotation(t.rotation);
    Transform(r, t.flipped, Compose(DrawTransform(r, t.flipped), t.view), RotatedDims(r, t.dims))
  }

  /** `flipImage` as written: the CURRENT image is drawn turned by the
      current angle and mirrored when the new flag is set, on a canvas of
      the current image's size. */
  function FlipAsWritten(t: Transform): (t': Transform)
    requires ValidTransform(t)
    ensures ValidTransform(t')
    ensures t'.rotation == t.rotation && t'.flipped == !t.flipped && t'.dims == t.dims
  {
    Transform(t.rotation, !t.flipped, Compose(DrawTransform(t.rotation, !t.flipped), t.view), t.dims)
  }

  /** Rotate as the transform state means it: the content ends turned and
      mirrored by exactly the new state, which is the current image turned
      a further quarter turn, on a canvas with width and height swapped. */
  function Rotate(t: Transform): (t': Transform)
    requires ValidTransform(t)
    ensures ValidTransform(t')
    ensures t'.rotation == NextRotation(t.rotation) && t'.flipped == t.flipped
    ensures t'.dims == Swap(t.dims)
  {
    Transform(NextRotation(t.rotation), t.flipped, Compose(Orientation(1, false), t.view), Swap(t.dims))
  }

  /** Flip as the transform state means it: the mirror is applied to the
      loaded image, before the current rotation, and the size is kept. */
  function Flip(t: Transform): (t': Transform)
    requires ValidTransform(t)
    ensures ValidTransform(t')
    ensures t'.rotation == t.rotation && t'.flipped == !t.flipped && t'.dims == t.dims
  {
    Transform(t.rotation, !t.flipped, Compose(t.view, Orientation(0, true)), t.dims)
  }

  /** The corrected rotate and flip keep the content in the orientation the
      state claims, and keep it fitting its canvas. */
  lemma RotateKeepsConsistent(t: Transform)
    requires ValidTransform(t) && Consistent(t)
    ensures Consistent(Rotate(t))
  {
  }

  lemma RotateKeepsFit(original: Dims, t: Transform)
    requires ValidTransform(t) && Fits(original, t)
    ensures Fits(original, Rotate(t))
  {
  }

  lemma FlipKeepsConsistent(t: Transform)
    requires ValidTransform(t) && Consistent(t)
    ensures Consistent(Flip(t))
  {
  }

  lemma FlipKeepsFit(original: Dims, t: Transform)
    requires ValidTransform(t) && Fits(original, t)
    ensures Fits(original, Flip(t))
  {
  }

  /** Corrected: four rotates give back the loaded image, and so do two
      flips. */
  lemma {:induction false} FourRotatesIdentity(t: Transform)
    requires ValidTransform(t) && Consistent(t)
    ensures Rotate(Rotate(Rotate(Rotate(t)))) == t
  {
    var t1 := Rotate(t);
    RotateKeepsConsistent(t);
    var t2 := Rotate(t1);
    RotateKeepsConsistent(t1);
    var t3 := Rotate(t2);
    RotateKeepsConsistent(t2);
    var t4 := Rotate(t3);
    RotateKeepsConsistent(t3);
    assert t4.rotation == t.rotation;
    assert t4.dims == Swap(Swap(Swap(Swap(t.dims)))) == t.dims;
  }

  lemma TwoFlipsIdentity(t: Transform)
    requires ValidTransform(t) && Consistent(t)
    ensures Flip(Flip(t)) == t
  {
  }

  /** As written, the rotate compounds: the second rotate turns the already
      turned image by 180 degrees, leaving it at 270 while the counter says
      180; four rotates leave the image upside down. */
  lemma RotateAsWrittenCompounds(d: Dims)
    ensures RotateAsWritten(RotateAsWritten(Loaded(d))).rotation == 180
    ensures RotateAsWritten(RotateAsWritten(Loaded(d))).view == Orientation(3, false)
    ensures !Consistent(RotateAsWritten(RotateAsWritten(Loaded(d))))
    ensures RotateAsWritten(RotateAsWritten(RotateAsWritten(RotateAsWritten(Loaded(d))))).view == Orientation(2, false)
  {
  }

  /** As written, a second flip mirrors the image a second time with the
      mirror switched off, so it stays mirrored while the flag says it is
      not. */
  lemma FlipAsWrittenSticks(d: Dims)
    ensures FlipAsWritten(FlipAsWritten(Loaded(d))).flipped == false
    ensures FlipAsWritten(FlipAsWritten(Loaded(d))).view == Orientation(0, true)
  {
  }

  /** As written, a flip after one rotate draws content turned a quarter
      turn onto a canvas of the unturned size, so it no longer fits. */
  lemma FlipAsWrittenClips(d: Dims)
    requires d.width != d.height
    ensures Fits(d, RotateAsWritten(Loaded(d)))
    ensures !Fits(d, FlipAsWritten(RotateAsWritten(Loaded(d))))
  {
  }
}
