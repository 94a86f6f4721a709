/** Points and axis-aligned rectangles in raylib's sense (`Vector2`, `Rectangle`), over exact reals. */
module Geometry {

  datatype Vec2 = Vec2(x: real, y: real)

  /** `Rectangle(x, y, width, height)`: top-left corner and extent. */
  datatype Rect = Rect(x: real, y: real, width: real, height: real)

  /** raylib's point-in-rectangle test: closed on the top-left edges, open on the bottom-right ones. */
  predicate Contains(r: Rect, p: Vec2)
  {
    r.x <= p.x < r.x + r.width && r.y <= p.y < r.y + r.height
  }

  /** Every point of `inner` is a point of `outer` (for rectangles of non-negative extent). */
  predicate Within(inner: Rect, outer: Rect)
  {
    outer.x <= inner.x && inner.x + inner.width <= outer.x + outer.width &&
    outer.y <= inner.y && inner.y + inner.height <= outer.y + outer.height
  }

  /** The two rectangles share no point. */
  predicate Disjoint(a: Rect, b: Rect)
  {
    a.x + a.width <= b.x || b.x + b.width <= a.x ||
    a.y + a.height <= b.y || b.y + b.height <= a.y
  }

  function Centre(r: Rect): Vec2
  {
    Vec2(r.x + r.width / 2.0, r.y + r.height / 2.0)
  }

  function Min(a: real, b: real): (m: real)
    ensures m <= a && m <= b && (m == a || m == b)
  {
    if a <= b then a else b
  }

  /** raymath's `Clamp`: `min(hi, max(lo, v))`. */
  function Clamp(v: real, lo: real, hi: real): (c: real)
    requires lo <= hi
    ensures lo <= c <= hi
    ensures lo <= v <= hi ==> c == v
    ensures v < lo ==> c == lo
    ensures hi < v ==> c == hi
  {
    if v < lo then lo else if hi < v then hi else v
  }

  lemma ContainsWithin(inner: Rect, outer: Rect, p: Vec2)
    requires Within(inner, outer) && Contains(inner, p)
    ensures Contains(outer, p)
  {
  }

  lemma DisjointNoCommonPoint(a: Rect, b: Rect, p: Vec2)
    requires Disjoint(a, b)
    ensures !(Contains(a, p) && Contains(b, p))
  {
  }
}
