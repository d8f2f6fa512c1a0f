/**
 * The three-tier narrowing pipeline of CollisionSystem::didCollide: a world-space
 * bounding-box overlap, an oriented-box corner containment test, and a
 * separating-axis test in each box's local frame.
 */
module Narrowing {
  import opened Geometry

  /** CollisionSystem::Level, ordered by precision and cost. */
  datatype Level = AABB | BB | SAT

  function Rank(l: Level): nat
  {
    match l
    case AABB => 0
    case BB => 1
    case SAT => 2
  }

  /**
   * What the pipeline reads from an IEntity: its address (`id`), its dynamic type
   * (`kind`), getGlobalBounds(), getGlobalTransform() and getLocalBounds().
   */
  datatype Body = Body(id: nat, kind: nat, globalBounds: Rect, transform: Affine, localBounds: Rect)

  /** Result of didCollide: the returned flag and the final value of the out-parameter `rect`. */
  datatype Collision = Collision(hit: bool, rect: Rect)

  function Size(r: Rect): Vec { Vec(r.width, r.height) }

  /**
   * The four corners (0,0), (w,0), (w,h), (0,h) of `from`'s local size, taken to the
   * world by `from`'s transform and back into another body's local frame by `toInverse`,
   * that body's inverted transform; listed bottom-left, bottom-right, top-right,
   * top-left as the point arrays of the separating-axis tier are.
   */
  function Corners(from: Body, toInverse: Affine): (pts: seq<Vec>)
    ensures |pts| == 4
  {
    var size := Size(from.localBounds);
    [ Apply(toInverse, Apply(from.transform, Vec(0.0, size.y))),
      Apply(toInverse, Apply(from.transform, size)),
      Apply(toInverse, Apply(from.transform, Vec(size.x, 0.0))),
      Apply(toInverse, Apply(from.transform, Vec(0.0, 0.0))) ]
  }

  /** `from`'s corners expressed in `to`'s local frame. */
  function Mapped(from: Body, to: Body): (pts: seq<Vec>)
    ensures |pts| == 4
  {
    Corners(from, Inverse(to.transform))
  }

  /**
   * A body's own corners, taken to the world and back by its own invertible transform,
   * are the corners of its local size: the round trip the oriented tier relies on.
   */
  lemma CornersInOwnFrame(b: Body)
    requires Det(b.transform) != 0.0
    ensures Mapped(b, b) == [Vec(0.0, Size(b.localBounds).y), Size(b.localBounds),
                             Vec(Size(b.localBounds).x, 0.0), Vec(0.0, 0.0)]
  {
    var size := Size(b.localBounds);
    InverseUndoes(b.transform, Vec(0.0, size.y));
    InverseUndoes(b.transform, size);
    InverseUndoes(b.transform, Vec(size.x, 0.0));
    InverseUndoes(b.transform, Vec(0.0, 0.0));
  }

  /**
   * The points didCollide tests against another body's local bounds are `from`'s corners
   * expressed in `to`'s frame: taken back to the world by `to`'s invertible transform they
   * are `from`'s local-size corners (0,h), (w,h), (w,0), (0,0) under `from`'s transform.
   */
  lemma CornersInOtherFrame(from: Body, to: Body)
    requires Det(to.transform) != 0.0
    ensures forall k :: 0 <= k < 4 ==>
      Apply(to.transform, Mapped(from, to)[k]) ==
      Apply(from.transform, [Vec(0.0, Size(from.localBounds).y), Size(from.localBounds),
                             Vec(Size(from.localBounds).x, 0.0), Vec(0.0, 0.0)][k])
  {
    var size := Size(from.localBounds);
    RightInverse(to.transform, Apply(from.transform, Vec(0.0, size.y)));
    RightInverse(to.transform, Apply(from.transform, size));
    RightInverse(to.transform, Apply(from.transform, Vec(size.x, 0.0)));
    RightInverse(to.transform, Apply(from.transform, Vec(0.0, 0.0)));
  }

  /** Some point of `pts` lies in `r` (FloatRect::contains). */
  predicate AnyInside(r: Rect, pts: seq<Vec>)
  {
    exists i :: 0 <= i < |pts| && Contains(r, pts[i])
  }

  /** Tier 0: the world-space bounding boxes overlap. */
  predicate AabbHit(lhs: Body, rhs: Body)
  {
    Intersects(lhs.globalBounds, rhs.globalBounds).hit
  }

  /** Tier 1: a corner of either box, mapped into the other's frame, lies in the other's local bounds. */
  predicate OrientedHit(lhs: Body, rhs: Body)
  {
    AnyInside(lhs.localBounds, Mapped(rhs, lhs)) || AnyInside(rhs.localBounds, Mapped(lhs, rhs))
  }

  predicate AllLeft(pts: seq<Vec>)  { forall i :: 0 <= i < |pts| ==> pts[i].x < 0.0 }
  predicate AllAbove(pts: seq<Vec>) { forall i :: 0 <= i < |pts| ==> pts[i].y < 0.0 }
  predicate AllRight(size: Vec, pts: seq<Vec>) { forall i :: 0 <= i < |pts| ==> pts[i].x > size.x }
  predicate AllBelow(size: Vec, pts: seq<Vec>) { forall i :: 0 <= i < |pts| ==> pts[i].y > size.y }

  /**
   * The rectangle [0, size.x] x [0, size.y] and the points are separated along an
   * axis: every point lies strictly on one and the same side of it.
   */
  predicate Separated(size: Vec, pts: seq<Vec>)
  {
    AllLeft(pts) || AllRight(size, pts) || AllAbove(pts) || AllBelow(size, pts)
  }

  /** Tier 2: no separating axis in either box's local frame. */
  predicate SatHit(lhs: Body, rhs: Body)
  {
    !Separated(Size(rhs.localBounds), Mapped(lhs, rhs)) && !Separated(Size(lhs.localBounds), Mapped(rhs, lhs))
  }

  /**
   * satRectangleAndPoints: one pass over the points clearing four "all on this side"
   * flags; the answer is true exactly when no side keeps its flag.
   */
  method SatRectangleAndPoints(size: Vec, pts: seq<Vec>) returns (r: bool)
    ensures r <==> !Separated(size, pts)
    ensures (exists i :: 0 <= i < |pts| && 0.0 <= pts[i].x <= size.x && 0.0 <= pts[i].y <= size.y) ==> r
  {
    var left, right, above, below := true, true, true, true;
    var k := 0;
    while k < |pts|
      invariant 0 <= k <= |pts|
      invariant left <==> AllLeft(pts[..k])
      invariant right <==> AllRight(size, pts[..k])
      invariant above <==> AllAbove(pts[..k])
      invariant below <==> AllBelow(size, pts[..k])
    {
      var p := pts[k];
      if p.x >= 0.0 { left := false; }
      if p.x <= size.x { right := false; }
      if p.y >= 0.0 { above := false; }
      if p.y <= size.y { below := false; }
      assert pts[..k + 1] == pts[..k] + [p];
      k := k + 1;
    }
    assert pts[..k] == pts;
    r := !(above || below || left || right);
  }

  /**
   * CollisionSystem::didCollide. `rect` is the caller's rectangle; it is overwritten
   * by the bounding-box tier and by nothing else.
   */
  function DidCollide(level: Level, lhs: Body, rhs: Body, rect: Rect): (c: Collision)
    ensures lhs.id == rhs.id ==> c == Collision(false, rect)
    ensures lhs.id != rhs.id ==> c.rect == Intersects(lhs.globalBounds, rhs.globalBounds).area
    ensures c.hit ==> AabbHit(lhs, rhs)
    ensures lhs.id != rhs.id && level == AABB ==> (c.hit <==> AabbHit(lhs, rhs))
    ensures lhs.id != rhs.id && level == BB ==> (c.hit <==> AabbHit(lhs, rhs) && OrientedHit(lhs, rhs))
    ensures lhs.id != rhs.id && level == SAT ==>
      (c.hit <==> AabbHit(lhs, rhs) && OrientedHit(lhs, rhs) && SatHit(lhs, rhs))
  {
    if lhs.id == rhs.id then
      Collision(false, rect)
    else
      var level0 := Intersects(lhs.globalBounds, rhs.globalBounds);
      if !level0.hit || level == AABB then
        Collision(level0.hit, level0.area)
      else
        var level1 := OrientedHit(lhs, rhs);
        if !level1 || level == BB then
          Collision(level1, level0.area)
        else
          Collision(SatHit(lhs, rhs), level0.area)
  }

  /** A finer level never reports a pair that a coarser level rejects. */
  lemma TiersMonotone(coarse: Level, fine: Level, lhs: Body, rhs: Body, rect: Rect)
    requires Rank(coarse) <= Rank(fine)
    ensures DidCollide(fine, lhs, rhs, rect).hit ==> DidCollide(coarse, lhs, rhs, rect).hit
    ensures DidCollide(fine, lhs, rhs, rect).rect == DidCollide(coarse, lhs, rhs, rect).rect
  {
  }

  /** The pipeline's answer and rectangle do not depend on which body comes first. */
  lemma DidCollideSymmetric(level: Level, lhs: Body, rhs: Body, rect: Rect)
    ensures DidCollide(level, lhs, rhs, rect) == DidCollide(level, rhs, lhs, rect)
  {
    IntersectsSymmetric(lhs.globalBounds, rhs.globalBounds);
  }

  /** A body whose local bounds have no area (half-open containment) never passes the oriented tier. */
  lemma FlatBoundsContainNothing(r: Rect, pts: seq<Vec>)
    requires r.width == 0.0 || r.height == 0.0
    ensures !AnyInside(r, pts)
  {
  }

  /** Two bodies with area-free local bounds never collide above the bounding-box level. */
  lemma FlatBodiesNeverCollide(level: Level, lhs: Body, rhs: Body, rect: Rect)
    requires level != AABB
    requires lhs.localBounds.width == 0.0 || lhs.localBounds.height == 0.0
    requires rhs.localBounds.width == 0.0 || rhs.localBounds.height == 0.0
    ensures !DidCollide(level, lhs, rhs, rect).hit
  {
    FlatBoundsContainNothing(lhs.localBounds, Mapped(rhs, lhs));
    FlatBoundsContainNothing(rhs.localBounds, Mapped(lhs, rhs));
  }

  /** An axis-aligned 10 x 10 box at (x, y). */
  function Box(id: nat, x: real, y: real): Body
  {
    Body(id, 0, Rect(x, y, 10.0, 10.0), Affine(1.0, 0.0, 0.0, 1.0, x, y), Rect(0.0, 0.0, 10.0, 10.0))
  }

  /** 10 x 10 boxes at (0,0) and (100,100) collide at no level: the coarse tier already rejects them. */
  lemma ScenarioFarApart()
    ensures forall level :: !DidCollide(level, Box(1, 0.0, 0.0), Box(2, 100.0, 100.0), ZeroRect).hit
  {
  }

  /**
   * 10 x 10 boxes at (0,0) and (5,5) collide at every level, over the 5 x 5 square at
   * (5,5): each box has a corner inside the other, and no axis separates them.
   */
  lemma ScenarioOverlap()
    ensures forall level ::
      DidCollide(level, Box(1, 0.0, 0.0), Box(2, 5.0, 5.0), ZeroRect) == Collision(true, Rect(5.0, 5.0, 5.0, 5.0))
  {
    var l, r := Box(1, 0.0, 0.0), Box(2, 5.0, 5.0);
    assert Intersects(l.globalBounds, r.globalBounds) == Overlap(true, Rect(5.0, 5.0, 5.0, 5.0));
    forall level
      ensures DidCollide(level, l, r, ZeroRect) == Collision(true, Rect(5.0, 5.0, 5.0, 5.0))
    {
      TranslatedBoxesCollide(level, l, r, 0.0, 0.0, 5.0, 5.0);
    }
  }

  /**
   * Two different axis-aligned 10 x 10 boxes whose world bounds overlap, the second moved
   * right and down of the first by less than a box, collide at every level.
   */
  lemma TranslatedBoxesCollide(level: Level, l: Body, r: Body, dx: real, dy: real, ex: real, ey: real)
    requires l.id != r.id && AabbHit(l, r)
    requires l.localBounds == Rect(0.0, 0.0, 10.0, 10.0) && r.localBounds == Rect(0.0, 0.0, 10.0, 10.0)
    requires l.transform == Affine(1.0, 0.0, 0.0, 1.0, dx, dy) && r.transform == Affine(1.0, 0.0, 0.0, 1.0, ex, ey)
    requires 0.0 <= ex - dx < 10.0 && 0.0 <= ey - dy < 10.0
    ensures DidCollide(level, l, r, ZeroRect).hit
  {
    TranslatedCornerInside(r, l, ex, ey, dx, dy);
    TranslatedNotSeparated(l, r, dx, dy, ex, ey);
    TranslatedNotSeparated(r, l, ex, ey, dx, dy);
  }

  /** The inverse of a translation by (dx, dy) is the translation by (-dx, -dy). */
  lemma ShiftInverse(t: Affine, dx: real, dy: real)
    requires t == Affine(1.0, 0.0, 0.0, 1.0, dx, dy)
    ensures Inverse(t) == Affine(1.0, 0.0, 0.0, 1.0, -dx, -dy)
  {
    assert Det(t) == 1.0;
  }

  /** The corners of a 10 x 10 box, moved by its translation and then by the translation `inv`. */
  lemma ShiftedBoxCorners(b: Body, inv: Affine, dx: real, dy: real, ex: real, ey: real)
    requires b.localBounds == Rect(0.0, 0.0, 10.0, 10.0)
    requires b.transform == Affine(1.0, 0.0, 0.0, 1.0, dx, dy)
    requires inv == Affine(1.0, 0.0, 0.0, 1.0, ex, ey)
    ensures Corners(b, inv) == [Vec(dx + ex, 10.0 + dy + ey), Vec(10.0 + dx + ex, 10.0 + dy + ey),
                                Vec(10.0 + dx + ex, dy + ey), Vec(dx + ex, dy + ey)]
  {
  }

  /** The corners of a 10 x 10 square at (x, y) that reaches into [0, 10] x [0, 10]. */
  lemma NotSeparated(size: Vec, pts: seq<Vec>, x: real, y: real)
    requires size == Vec(10.0, 10.0) && -10.0 <= x <= 10.0 && -10.0 <= y <= 10.0
    requires pts == [Vec(x, y + 10.0), Vec(x + 10.0, y + 10.0), Vec(x + 10.0, y), Vec(x, y)]
    ensures !Separated(size, pts)
  {
    assert !AllLeft(pts) by { assert pts[1].x >= 0.0; }
    assert !AllRight(size, pts) by { assert pts[3].x <= 10.0; }
    assert !AllAbove(pts) by { assert pts[0].y >= 0.0; }
    assert !AllBelow(size, pts) by { assert pts[3].y <= 10.0; }
  }

  /** A 10 x 10 box moved by (dx, dy), seen from one moved by (ex, ey), sits at (dx - ex, dy - ey). */
  lemma TranslatedCorners(from: Body, to: Body, dx: real, dy: real, ex: real, ey: real)
    requires from.localBounds == Rect(0.0, 0.0, 10.0, 10.0)
    requires from.transform == Affine(1.0, 0.0, 0.0, 1.0, dx, dy) && to.transform == Affine(1.0, 0.0, 0.0, 1.0, ex, ey)
    ensures Mapped(from, to) == [Vec(dx - ex, dy - ey + 10.0), Vec(dx - ex + 10.0, dy - ey + 10.0),
                                 Vec(dx - ex + 10.0, dy - ey), Vec(dx - ex, dy - ey)]
  {
    ShiftInverse(to.transform, ex, ey);
    ShiftedBoxCorners(from, Inverse(to.transform), dx, dy, -ex, -ey);
  }

  /** Translated 10 x 10 boxes less than a box apart: no axis separates one from the other's frame. */
  lemma TranslatedNotSeparated(from: Body, to: Body, dx: real, dy: real, ex: real, ey: real)
    requires from.localBounds == Rect(0.0, 0.0, 10.0, 10.0) && to.localBounds == Rect(0.0, 0.0, 10.0, 10.0)
    requires from.transform == Affine(1.0, 0.0, 0.0, 1.0, dx, dy) && to.transform == Affine(1.0, 0.0, 0.0, 1.0, ex, ey)
    requires -10.0 <= dx - ex <= 10.0 && -10.0 <= dy - ey <= 10.0
    ensures !Separated(Size(to.localBounds), Mapped(from, to))
  {
    TranslatedCorners(from, to, dx, dy, ex, ey);
    NotSeparated(Size(to.localBounds), Mapped(from, to), dx - ex, dy - ey);
  }

  /** The origin corner of a translated box lies in the other's bounds when the offset is within [0, 10). */
  lemma TranslatedCornerInside(from: Body, to: Body, dx: real, dy: real, ex: real, ey: real)
    requires from.localBounds == Rect(0.0, 0.0, 10.0, 10.0) && to.localBounds == Rect(0.0, 0.0, 10.0, 10.0)
    requires from.transform == Affine(1.0, 0.0, 0.0, 1.0, dx, dy) && to.transform == Affine(1.0, 0.0, 0.0, 1.0, ex, ey)
    requires 0.0 <= dx - ex < 10.0 && 0.0 <= dy - ey < 10.0
    ensures AnyInside(to.localBounds, Mapped(from, to))
  {
    TranslatedCorners(from, to, dx, dy, ex, ey);
    assert Contains(to.localBounds, Mapped(from, to)[3]);
  }

  /** The box rotated by the angle with cosine 3/5 and sine 4/5 and moved to (16, 8). */
  function TiltedBox(id: nat): Body
  {
    Body(id, 0, Rect(8.0, 8.0, 14.0, 14.0), Affine(0.6, -0.8, 0.8, 0.6, 16.0, 8.0), Rect(0.0, 0.0, 10.0, 10.0))
  }

  lemma TiltedInverse(t: Affine)
    requires t == TiltedBox(2).transform
    ensures Inverse(t) == Affine(0.6, 0.8, -0.8, 0.6, -16.0, 8.0)
  {
  }

  lemma NoneInside(r: Rect, pts: seq<Vec>)
    requires r == Rect(0.0, 0.0, 10.0, 10.0)
    requires pts == [Vec(8.0, 14.0), Vec(14.0, 22.0), Vec(22.0, 16.0), Vec(16.0, 8.0)]
          || pts == [Vec(-8.0, 14.0), Vec(-2.0, 6.0), Vec(-10.0, 0.0), Vec(-16.0, 8.0)]
    ensures !AnyInside(r, pts)
  {
  }

  lemma TiltedCornersInBoxFrame(r: Body, inv: Affine)
    requires r == TiltedBox(2) && inv == Identity
    ensures Corners(r, inv) == [Vec(8.0, 14.0), Vec(14.0, 22.0), Vec(22.0, 16.0), Vec(16.0, 8.0)]
  {
  }

  lemma BoxCornersInTiltedFrame(l: Body, inv: Affine)
    requires l == Box(1, 0.0, 0.0) && inv == Affine(0.6, 0.8, -0.8, 0.6, -16.0, 8.0)
    ensures Corners(l, inv) == [Vec(-8.0, 14.0), Vec(-2.0, 6.0), Vec(-10.0, 0.0), Vec(-16.0, 8.0)]
  {
    assert Size(l.localBounds) == Vec(10.0, 10.0);
    IdentityFixes(l.transform, Vec(0.0, 10.0));
    IdentityFixes(l.transform, Vec(10.0, 10.0));
    IdentityFixes(l.transform, Vec(10.0, 0.0));
    IdentityFixes(l.transform, Vec(0.0, 0.0));
    TiltedBack(inv);
  }

  /** The inverse tilt on the four corners of a 10 x 10 box. */
  lemma TiltedBack(inv: Affine)
    requires inv == Affine(0.6, 0.8, -0.8, 0.6, -16.0, 8.0)
    ensures Apply(inv, Vec(0.0, 10.0)) == Vec(-8.0, 14.0)
    ensures Apply(inv, Vec(10.0, 10.0)) == Vec(-2.0, 6.0)
    ensures Apply(inv, Vec(10.0, 0.0)) == Vec(-10.0, 0.0)
    ensures Apply(inv, Vec(0.0, 0.0)) == Vec(-16.0, 8.0)
  {
  }

  lemma IdentityFixes(t: Affine, p: Vec)
    requires t == Identity
    ensures Apply(t, p) == p
  {
  }

  lemma TiltedBoundsOverlap(l: Body, r: Body)
    requires l == Box(1, 0.0, 0.0) && r == TiltedBox(2)
    ensures AabbHit(l, r)
  {
  }

  lemma CornersMiss(l: Body, r: Body)
    requires l == Box(1, 0.0, 0.0) && r == TiltedBox(2)
    ensures !OrientedHit(l, r)
  {
    assert Inverse(l.transform) == Identity;
    TiltedInverse(r.transform);
    TiltedCornersInBoxFrame(r, Inverse(l.transform));
    BoxCornersInTiltedFrame(l, Inverse(r.transform));
    NoneInside(l.localBounds, Mapped(r, l));
    NoneInside(r.localBounds, Mapped(l, r));
  }

  /**
   * The tilted box's world bounds overlap the axis-aligned box at the origin, yet
   * no corner of either lies in the other, so every level above the coarse one
   * rejects the pair.
   */
  lemma ScenarioRotatedMiss(l: Body, r: Body)
    requires l == Box(1, 0.0, 0.0) && r == TiltedBox(2)
    ensures AabbHit(l, r) && !OrientedHit(l, r)
  {
    TiltedBoundsOverlap(l, r);
    CornersMiss(l, r);
  }
}
