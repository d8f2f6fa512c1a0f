/**
 * The parts of SFML's geometry the collision core relies on, over the reals:
 * sf::Vector2f, sf::FloatRect (SFML 2.x `intersects` and `contains`) and
 * sf::Transform restricted to 2D affine maps.
 */
module Geometry {

  datatype Vec = Vec(x: real, y: real)

  /** sf::FloatRect: a corner plus a (possibly negative) width and height. */
  datatype Rect = Rect(left: real, top: real, width: real, height: real)

  /** Result of FloatRect::intersects(other, intersection): the flag and the written rectangle. */
  datatype Overlap = Overlap(hit: bool, area: Rect)

  const ZeroRect := Rect(0.0, 0.0, 0.0, 0.0)

  function Min(a: real, b: real): real { if a < b then a else b }
  function Max(a: real, b: real): real { if a < b then b else a }

  function MinX(r: Rect): real { Min(r.left, r.left + r.width) }
  function MaxX(r: Rect): real { Max(r.left, r.left + r.width) }
  function MinY(r: Rect): real { Min(r.top, r.top + r.height) }
  function MaxY(r: Rect): real { Max(r.top, r.top + r.height) }

  /**
   * FloatRect::contains(point) of SFML 2.x: half-open on both axes, so a point on
   * the right or bottom edge is outside.
   */
  function Contains(r: Rect, p: Vec): (b: bool)
    ensures b ==> r.width != 0.0 && r.height != 0.0
    ensures p.x == MaxX(r) || p.y == MaxY(r) ==> !b
    ensures r.width != 0.0 && r.height != 0.0 && p == Vec(MinX(r), MinY(r)) ==> b
  {
    MinX(r) <= p.x < MaxX(r) && MinY(r) <= p.y < MaxY(r)
  }

  /**
   * FloatRect::intersects(other, intersection) of SFML 2.x: strict overlap of the
   * normalised rectangles; on failure the intersection is set to the zero rectangle.
   */
  function Intersects(a: Rect, b: Rect): (o: Overlap)
    ensures o.hit ==> o.area.width > 0.0 && o.area.height > 0.0
    ensures !o.hit ==> o.area == ZeroRect
    ensures o.hit ==> forall p :: Contains(o.area, p) <==> Contains(a, p) && Contains(b, p)
  {
    var l := Max(MinX(a), MinX(b));
    var t := Max(MinY(a), MinY(b));
    var r := Min(MaxX(a), MaxX(b));
    var bt := Min(MaxY(a), MaxY(b));
    if l < r && t < bt then Overlap(true, Rect(l, t, r - l, bt - t))
    else Overlap(false, ZeroRect)
  }

  /** The overlap test and its rectangle do not depend on argument order. */
  lemma IntersectsSymmetric(a: Rect, b: Rect)
    ensures Intersects(a, b) == Intersects(b, a)
  {
  }

  /** Two rectangles sharing a point of both always intersect; a miss means no shared point. */
  lemma SharedPointIntersects(a: Rect, b: Rect, p: Vec)
    requires Contains(a, p) && Contains(b, p)
    ensures Intersects(a, b).hit
  {
  }

  /**
   * sf::Transform restricted to the affine maps SFML builds:
   * p |-> (a*x + b*y + tx, c*x + d*y + ty).
   */
  datatype Affine = Affine(a: real, b: real, c: real, d: real, tx: real, ty: real)

  const Identity := Affine(1.0, 0.0, 0.0, 1.0, 0.0, 0.0)

  function Apply(t: Affine, p: Vec): Vec
  {
    Vec(t.a * p.x + t.b * p.y + t.tx, t.c * p.x + t.d * p.y + t.ty)
  }

  function Det(t: Affine): real { t.a * t.d - t.b * t.c }

  /** sf::Transform::getInverse: the inverse matrix, or the identity when the determinant is zero. */
  function Inverse(t: Affine): (r: Affine)
    ensures Det(t) == 0.0 ==> r == Identity
  {
    var det := Det(t);
    if det == 0.0 then Identity
    else Affine(t.d / det, -t.b / det, -t.c / det, t.a / det,
                (t.b * t.ty - t.d * t.tx) / det, (t.c * t.tx - t.a * t.ty) / det)
  }

  /** The numerator of the inverse's first coordinate collapses to det * x. */
  lemma NumeratorX(a: real, b: real, c: real, d: real, tx: real, ty: real, x: real, y: real, qx: real, qy: real)
    requires qx == a * x + b * y + tx && qy == c * x + d * y + ty
    ensures d * qx + -b * qy + (b * ty - d * tx) == (a * d - b * c) * x
  {
  }

  /** The numerator of the inverse's second coordinate collapses to det * y. */
  lemma NumeratorY(a: real, b: real, c: real, d: real, tx: real, ty: real, x: real, y: real, qx: real, qy: real)
    requires qx == a * x + b * y + tx && qy == c * x + d * y + ty
    ensures -c * qx + a * qy + (c * tx - a * ty) == (a * d - b * c) * y
  {
  }

  lemma DivSum(u: real, v: real, w: real, det: real)
    requires det != 0.0
    ensures u / det + v / det + w / det == (u + v + w) / det
  {
  }

  lemma MulDiv(u: real, v: real, det: real)
    requires det != 0.0
    ensures (u / det) * v == (u * v) / det
  {
  }

  lemma DivCancel(x: real, det: real)
    requires det != 0.0
    ensures (det * x) / det == x
  {
  }

  /** First coordinate of inverse-after-forward, on plain reals. */
  lemma InverseX(a: real, b: real, c: real, d: real, tx: real, ty: real, x: real, y: real,
                 ia: real, ib: real, itx: real, qx: real, qy: real)
    requires a * d - b * c != 0.0
    requires ia == d / (a * d - b * c) && ib == -b / (a * d - b * c)
    requires itx == (b * ty - d * tx) / (a * d - b * c)
    requires qx == a * x + b * y + tx && qy == c * x + d * y + ty
    ensures ia * qx + ib * qy + itx == x
  {
    var det := a * d - b * c;
    MulDiv(d, qx, det);
    MulDiv(-b, qy, det);
    DivSum(d * qx, -b * qy, b * ty - d * tx, det);
    NumeratorX(a, b, c, d, tx, ty, x, y, qx, qy);
    DivCancel(x, det);
  }

  /** Second coordinate of inverse-after-forward, on plain reals. */
  lemma InverseY(a: real, b: real, c: real, d: real, tx: real, ty: real, x: real, y: real,
                 ic: real, id: real, ity: real, qx: real, qy: real)
    requires a * d - b * c != 0.0
    requires ic == -c / (a * d - b * c) && id == a / (a * d - b * c)
    requires ity == (c * tx - a * ty) / (a * d - b * c)
    requires qx == a * x + b * y + tx && qy == c * x + d * y + ty
    ensures ic * qx + id * qy + ity == y
  {
    var det := a * d - b * c;
    MulDiv(-c, qx, det);
    MulDiv(a, qy, det);
    DivSum(-c * qx, a * qy, c * tx - a * ty, det);
    NumeratorY(a, b, c, d, tx, ty, x, y, qx, qy);
    DivCancel(y, det);
  }

  lemma InverseUndoesX(t: Affine, p: Vec)
    requires Det(t) != 0.0
    ensures Apply(Inverse(t), Apply(t, p)).x == p.x
  {
    var q := Apply(t, p);
    var inv := Inverse(t);
    InverseX(t.a, t.b, t.c, t.d, t.tx, t.ty, p.x, p.y, inv.a, inv.b, inv.tx, q.x, q.y);
  }

  lemma InverseUndoesY(t: Affine, p: Vec)
    requires Det(t) != 0.0
    ensures Apply(Inverse(t), Apply(t, p)).y == p.y
  {
    var q := Apply(t, p);
    var inv := Inverse(t);
    InverseY(t.a, t.b, t.c, t.d, t.tx, t.ty, p.x, p.y, inv.c, inv.d, inv.ty, q.x, q.y);
  }

  /** The inverse is also a right inverse: mapping through it and then through the transform returns the point. */
  lemma RightInverse(t: Affine, q: Vec)
    requires Det(t) != 0.0
    ensures Apply(t, Apply(Inverse(t), q)) == q
  {
    InverseFields(t, Inverse(t));
    RightFromFields(t, Inverse(t), q);
  }

  /** Transform-after-inverse, given the inverse's entries. */
  lemma RightFromFields(t: Affine, inv: Affine, q: Vec)
    requires Det(t) != 0.0
    requires inv.a == t.d / Det(t) && inv.b == -t.b / Det(t) && inv.tx == (t.b * t.ty - t.d * t.tx) / Det(t)
    requires inv.c == -t.c / Det(t) && inv.d == t.a / Det(t) && inv.ty == (t.c * t.tx - t.a * t.ty) / Det(t)
    ensures Apply(t, Apply(inv, q)) == q
  {
    var p := Apply(inv, q);
    RightOnReals(t.a, t.b, t.c, t.d, t.tx, t.ty, q.x, q.y, Det(t), inv.a, inv.b, inv.tx, inv.c, inv.d, inv.ty, p.x, p.y);
  }

  /** The six entries of a non-singular transform's inverse. */
  lemma InverseFields(t: Affine, inv: Affine)
    requires Det(t) != 0.0 && inv == Inverse(t)
    ensures inv.a == t.d / Det(t) && inv.b == -t.b / Det(t) && inv.tx == (t.b * t.ty - t.d * t.tx) / Det(t)
    ensures inv.c == -t.c / Det(t) && inv.d == t.a / Det(t) && inv.ty == (t.c * t.tx - t.a * t.ty) / Det(t)
  {
  }

  /** Transform-after-inverse, on plain reals, for both coordinates. */
  lemma RightOnReals(a: real, b: real, c: real, d: real, tx: real, ty: real, qx: real, qy: real, det: real,
                     ia: real, ib: real, itx: real, ic: real, id: real, ity: real, px: real, py: real)
    requires det == a * d - b * c && det != 0.0
    requires ia == d / det && ib == -b / det && itx == (b * ty - d * tx) / det
    requires ic == -c / det && id == a / det && ity == (c * tx - a * ty) / det
    requires px == ia * qx + ib * qy + itx && py == ic * qx + id * qy + ity
    ensures a * px + b * py + tx == qx
    ensures c * px + d * py + ty == qy
  {
    var nx := d * qx + -b * qy + (b * ty - d * tx);
    var ny := -c * qx + a * qy + (c * tx - a * ty);
    InverseAsQuotient(d, -b, b * ty - d * tx, qx, qy, det);
    assert px == nx / det;
    InverseAsQuotient(-c, a, c * tx - a * ty, qx, qy, det);
    assert py == ny / det;
    RightNumerators(a, b, c, d, tx, ty, qx, qy, nx, ny, det);
    Recombine(a, b, nx, ny, qx - tx, det, px, py);
    Recombine(c, d, nx, ny, qy - ty, det, px, py);
  }

  /** One coordinate of the inverse, u/det * x + v/det * y + w/det, as a single quotient. */
  lemma InverseAsQuotient(u: real, v: real, w: real, x: real, y: real, det: real)
    requires det != 0.0
    ensures (u / det) * x + (v / det) * y + w / det == (u * x + v * y + w) / det
  {
    MulDiv(u, x, det);
    MulDiv(v, y, det);
    DivSum(u * x, v * y, w, det);
  }

  /** The forward map applied to the inverse's numerators gives det times the translated point. */
  lemma RightNumerators(a: real, b: real, c: real, d: real, tx: real, ty: real, qx: real, qy: real,
                        nx: real, ny: real, det: real)
    requires nx == d * qx + -b * qy + (b * ty - d * tx)
    requires ny == -c * qx + a * qy + (c * tx - a * ty)
    requires det == a * d - b * c
    ensures a * nx + b * ny == det * (qx - tx)
    ensures c * nx + d * ny == det * (qy - ty)
  {
  }

  /** a * px + b * py is r when px, py are nx/det, ny/det and a*nx + b*ny is det * r. */
  lemma Recombine(a: real, b: real, nx: real, ny: real, r: real, det: real, px: real, py: real)
    requires det != 0.0 && a * nx + b * ny == det * r
    requires px == nx / det && py == ny / det
    ensures a * px + b * py == r
  {
    MulDiv(nx, a, det);
    MulDiv(ny, b, det);
    DivSum(nx * a, ny * b, 0.0, det);
    DivCancel(r, det);
  }

  /** Mapping a point through an invertible transform and then through its inverse returns it. */
  lemma InverseUndoes(t: Affine, p: Vec)
    requires Det(t) != 0.0
    ensures Apply(Inverse(t), Apply(t, p)) == p
  {
    InverseUndoesX(t, p);
    InverseUndoesY(t, p);
  }
}
