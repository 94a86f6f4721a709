/**
 * The letterbox transform of `Window.run` (main.py): the 750x1200 virtual canvas is
 * scaled uniformly into the physical window and centred; a mouse position given in window
 * pixels is mapped back into canvas coordinates and clamped into the canvas.
 */
module Viewport {
  import opened Options
  import opened Geometry

  const AppWidth: real := 750.0
  const AppHeight: real := 1200.0

  /** Physical window size in pixels, as `get_screen_width()` / `get_screen_height()` report it. */
  datatype Screen = Screen(width: nat, height: nat)

  /** `min(W / APP_WIDTH, H / APP_HEIGHT)`: the largest uniform factor at which the canvas fits. */
  function Scale(s: Screen): (k: real)
    ensures 0.0 <= k
    ensures AppWidth * k <= s.width as real && AppHeight * k <= s.height as real
    ensures AppWidth * k == s.width as real || AppHeight * k == s.height as real
    ensures s.width > 0 && s.height > 0 <==> k > 0.0
  {
    Min(s.width as real / AppWidth, s.height as real / AppHeight)
  }

  /** The centring offset `((W - 750 k) / 2, (H - 1200 k) / 2)`: the width of the letterbox bars. */
  function Offset(s: Screen): (o: Vec2)
    ensures 0.0 <= o.x && 0.0 <= o.y
    ensures o.x == 0.0 || o.y == 0.0
    ensures 2.0 * o.x + AppWidth * Scale(s) == s.width as real
    ensures 2.0 * o.y + AppHeight * Scale(s) == s.height as real
  {
    var k := Scale(s);
    Vec2((s.width as real - AppWidth * k) * 0.5, (s.height as real - AppHeight * k) * 0.5)
  }

  /** The destination rectangle the canvas texture is drawn into. */
  function Destination(s: Screen): (d: Rect)
    ensures d.width * AppHeight == d.height * AppWidth
    ensures Within(d, Rect(0.0, 0.0, s.width as real, s.height as real))
    ensures d.width == s.width as real || d.height == s.height as real
    ensures Centre(d) == Vec2(s.width as real / 2.0, s.height as real / 2.0)
  {
    var k := Scale(s);
    var o := Offset(s);
    Rect(o.x, o.y, AppWidth * k, AppHeight * k)
  }

  /**
   * Where the canvas point `p` lands on the screen when the texture is drawn into
   * `Destination(s)`: a point is on the canvas exactly when it lands on that rectangle.
   */
  function ToPhysical(s: Screen, p: Vec2): (q: Vec2)
    ensures s.width > 0 && s.height > 0 ==> (InClosed(Canvas, p) <==> InClosed(Destination(s), q))
  {
    var k := Scale(s);
    var o := Offset(s);
    var q := Vec2(AxisToPhysical(p.x, o.x, k), AxisToPhysical(p.y, o.y, k));
    if k > 0.0 then
      AxisImage(p.x, o.x, k, AppWidth);
      AxisImage(p.y, o.y, k, AppHeight);
      q
    else
      q
  }

  function AxisToPhysical(v: real, o: real, k: real): real
  {
    o + v * k
  }

  /** One coordinate of the mouse mapping: shift by the bar, divide by the scale, clamp into `[0, extent]`. */
  function AxisToVirtual(m: real, o: real, k: real, extent: real): (v: real)
    requires k != 0.0 && extent >= 0.0
    ensures 0.0 <= v <= extent
  {
    Clamp((m - o) / k, 0.0, extent)
  }

  /**
   * The virtual mouse: a mouse position in window pixels shifted by the offset, divided by
   * the scale, then clamped into the canvas. A window of zero width or height makes the
   * scale zero, and the division raises in the source: that case yields `None`.
   * The source feeds this mapping raylib's mouse position, which is in window pixels only
   * until raylib's own mouse offset and scale are first set at main.py:171-172, right after
   * this mapping on the first frame.
   */
  function VirtualMouse(s: Screen, mouse: Vec2): (v: Option<Vec2>)
    ensures v.Some? <==> s.width > 0 && s.height > 0
    ensures v.Some? ==> 0.0 <= v.value.x <= AppWidth && 0.0 <= v.value.y <= AppHeight
  {
    var k := Scale(s);
    if k == 0.0 then None
    else
      var o := Offset(s);
      Some(Vec2(AxisToVirtual(mouse.x, o.x, k, AppWidth), AxisToVirtual(mouse.y, o.y, k, AppHeight)))
  }

  /** The canvas itself, as a rectangle in virtual coordinates. */
  const Canvas := Rect(0.0, 0.0, AppWidth, AppHeight)

  /** Closed containment: the clamp of line 170 keeps the far edges of the canvas. */
  predicate InClosed(r: Rect, p: Vec2)
  {
    r.x <= p.x <= r.x + r.width && r.y <= p.y <= r.y + r.height
  }

  /** On one axis, `o + v * k` (k > 0) lies in `[o, o + extent * k]` exactly when `v` lies in `[0, extent]`. */
  lemma AxisImage(v: real, o: real, k: real, extent: real)
    requires k > 0.0
    ensures 0.0 <= v <= extent <==> o <= AxisToPhysical(v, o, k) <= o + extent * k
  {
    if 0.0 <= v { assert v * k >= 0.0; } else { assert (0.0 - v) * k > 0.0; }
    if v <= extent { assert (extent - v) * k >= 0.0; } else { assert (v - extent) * k > 0.0; }
  }

  /** On one axis, reading back a drawn coordinate gives the coordinate. */
  lemma AxisRoundTrip(v: real, o: real, k: real, extent: real)
    requires k > 0.0 && 0.0 <= v <= extent
    ensures AxisToVirtual(AxisToPhysical(v, o, k), o, k, extent) == v
  {
    assert (AxisToPhysical(v, o, k) - o) / k == v;
  }

  /** On one axis, a physical coordinate over the drawn canvas is reproduced by drawing its virtual image. */
  lemma AxisInverse(q: real, o: real, k: real, extent: real)
    requires k > 0.0 && extent >= 0.0
    requires o <= q <= o + extent * k
    ensures AxisToPhysical(AxisToVirtual(q, o, k, extent), o, k) == q
  {
    var r := (q - o) / k;
    assert r * k == q - o;
    AxisImage(r, o, k, extent);
  }

  /** On one axis, a coordinate beyond the drawn canvas resolves to the nearer edge. */
  lemma AxisOutside(q: real, o: real, k: real, extent: real)
    requires k > 0.0 && extent >= 0.0
    ensures q < o ==> AxisToVirtual(q, o, k, extent) == 0.0
    ensures o + extent * k < q ==> AxisToVirtual(q, o, k, extent) == extent
  {
    var r := (q - o) / k;
    assert r * k == q - o;
    AxisImage(r, o, k, extent);
  }

  /**
   * Round trip: a canvas point drawn at `offset + p * scale` and read back through the
   * mouse mapping is the same canvas point.
   */
  lemma RoundTrip(s: Screen, p: Vec2)
    requires s.width > 0 && s.height > 0
    requires InClosed(Canvas, p)
    ensures VirtualMouse(s, ToPhysical(s, p)) == Some(p)
  {
    var k, o := Scale(s), Offset(s);
    AxisRoundTrip(p.x, o.x, k, AppWidth);
    AxisRoundTrip(p.y, o.y, k, AppHeight);
  }

  /**
   * The other direction: a mouse position inside the drawn canvas, mapped into the canvas and
   * drawn again, lands on the same physical point, so no clamping happens there.
   */
  lemma InverseOnDestination(s: Screen, q: Vec2)
    requires s.width > 0 && s.height > 0
    requires InClosed(Destination(s), q)
    ensures VirtualMouse(s, q).Some? && ToPhysical(s, VirtualMouse(s, q).value) == q
  {
    var k, o := Scale(s), Offset(s);
    AxisInverse(q.x, o.x, k, AppWidth);
    AxisInverse(q.y, o.y, k, AppHeight);
  }

  /**
   * Each coordinate is mapped on its own: beyond an edge of the drawn canvas it resolves to
   * that edge, and within the drawn span it is the exact inverse of drawing, even when the
   * other coordinate lies in a letterbox bar. So every mouse position resolves to the
   * nearest canvas point.
   */
  lemma OutsideClampsToEdge(s: Screen, q: Vec2)
    requires s.width > 0 && s.height > 0
    ensures Offset(s).x <= q.x <= Offset(s).x + AppWidth * Scale(s) ==>
              AxisToPhysical(VirtualMouse(s, q).value.x, Offset(s).x, Scale(s)) == q.x
    ensures Offset(s).y <= q.y <= Offset(s).y + AppHeight * Scale(s) ==>
              AxisToPhysical(VirtualMouse(s, q).value.y, Offset(s).y, Scale(s)) == q.y
    ensures q.x < Offset(s).x ==> VirtualMouse(s, q).value.x == 0.0
    ensures q.y < Offset(s).y ==> VirtualMouse(s, q).value.y == 0.0
    ensures Offset(s).x + AppWidth * Scale(s) < q.x ==> VirtualMouse(s, q).value.x == AppWidth
    ensures Offset(s).y + AppHeight * Scale(s) < q.y ==> VirtualMouse(s, q).value.y == AppHeight
  {
    var k, o := Scale(s), Offset(s);
    AxisOutside(q.x, o.x, k, AppWidth);
    AxisOutside(q.y, o.y, k, AppHeight);
    if o.x <= q.x <= o.x + AppWidth * k { AxisInverse(q.x, o.x, k, AppWidth); }
    if o.y <= q.y <= o.y + AppHeight * k { AxisInverse(q.y, o.y, k, AppHeight); }
  }
}
