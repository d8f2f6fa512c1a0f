/**
 * CollisionSystem::checkCollisions and update: the exhaustive pairwise scan that runs
 * the narrowing pipeline on every unordered pair of registered entities and hands each
 * confirmed collision to handleCollision.
 */
module Scan {
  import opened Wrappers
  import opened Geometry
  import opened Narrowing
  import opened Handlers

  /** The facade's state: the detection level, the handler registry and entities_ in registration order. */
  datatype CollisionSystem = CollisionSystem(level: Level, handlers: Registry, entities: seq<Body>)

  /** A pair of positions in entities_, visited as (*first, *next). */
  datatype Pair = Pair(i: nat, j: nat)

  predicate LexLess(p: Pair, q: Pair)
  {
    p.i < q.i || (p.i == q.i && p.j < q.j)
  }

  /** Row i of the scan up to (not including) position j: (i, i+1), ..., (i, j-1). */
  function RowUpTo(i: nat, j: nat): seq<Pair>
  {
    if j <= i + 1 then [] else RowUpTo(i, j - 1) + [Pair(i, j - 1)]
  }

  /** Rows 0 .. i-1 of the scan over n entities. */
  function Rows(i: nat, n: nat): seq<Pair>
  {
    if i == 0 then [] else Rows(i - 1, n) + RowUpTo(i - 1, n)
  }

  /** The pairs the nested loops visit, in order. */
  function LexPairs(n: nat): seq<Pair>
  {
    Rows(n, n)
  }

  lemma {:induction false} RowUpToShape(i: nat, j: nat)
    ensures forall k :: 0 <= k < |RowUpTo(i, j)| ==> RowUpTo(i, j)[k].i == i && i < RowUpTo(i, j)[k].j < j
    ensures forall b :: i < b < j ==> Pair(i, b) in RowUpTo(i, j)
    ensures forall k, l :: 0 <= k < l < |RowUpTo(i, j)| ==> RowUpTo(i, j)[k].j < RowUpTo(i, j)[l].j
  {
    if j > i + 1 {
      RowUpToShape(i, j - 1);
      var r := RowUpTo(i, j);
      assert r == RowUpTo(i, j - 1) + [Pair(i, j - 1)];
      forall b | i < b < j
        ensures Pair(i, b) in r
      {
        if b < j - 1 {
          assert Pair(i, b) in RowUpTo(i, j - 1);
        } else {
          assert r[|r| - 1] == Pair(i, b);
        }
      }
    }
  }

  lemma {:induction false} RowsInRange(i: nat, n: nat)
    ensures forall k :: 0 <= k < |Rows(i, n)| ==> Rows(i, n)[k].i < i && Rows(i, n)[k].i < Rows(i, n)[k].j < n
  {
    if i > 0 {
      RowsInRange(i - 1, n);
      RowUpToShape(i - 1, n);
    }
  }

  lemma {:induction false} RowsCover(i: nat, n: nat)
    ensures forall a: nat, b: nat :: a < i && a < b < n ==> Pair(a, b) in Rows(i, n)
  {
    if i > 0 {
      RowsCover(i - 1, n);
      RowUpToShape(i - 1, n);
      var front := Rows(i - 1, n);
      var row := RowUpTo(i - 1, n);
      forall a: nat, b: nat | a < i && a < b < n
        ensures Pair(a, b) in Rows(i, n)
      {
        if a < i - 1 {
          assert Pair(a, b) in front;
        } else {
          assert Pair(a, b) in row;
        }
      }
    }
  }

  lemma {:induction false} RowsSorted(i: nat, n: nat)
    ensures forall k, l :: 0 <= k < l < |Rows(i, n)| ==> LexLess(Rows(i, n)[k], Rows(i, n)[l])
  {
    if i > 0 {
      RowsSorted(i - 1, n);
      RowsInRange(i - 1, n);
      RowUpToShape(i - 1, n);
      var front := Rows(i - 1, n);
      var row := RowUpTo(i - 1, n);
      var r := Rows(i, n);
      forall k, l | 0 <= k < l < |r|
        ensures LexLess(r[k], r[l])
      {
        if k >= |front| {
          assert r[k] == row[k - |front|] && r[l] == row[l - |front|];
        } else if l >= |front| {
          assert r[k] == front[k] && r[l] == row[l - |front|];
        } else {
          assert r[k] == front[k] && r[l] == front[l];
        }
      }
    }
  }

  /**
   * The scan visits exactly the pairs i < j < n, each once, in lexicographic order;
   * it never pairs a position with itself.
   */
  lemma LexPairsExact(n: nat)
    ensures forall k :: 0 <= k < |LexPairs(n)| ==> LexPairs(n)[k].i < LexPairs(n)[k].j < n
    ensures forall a: nat, b: nat :: a < b < n ==> Pair(a, b) in LexPairs(n)
    ensures forall k, l :: 0 <= k < l < |LexPairs(n)| ==> LexLess(LexPairs(n)[k], LexPairs(n)[l])
  {
    RowsInRange(n, n);
    RowsCover(n, n);
    RowsSorted(n, n);
  }

  /** Fewer than two entities: nothing to pair. */
  lemma {:induction false} LexPairsSmall(n: nat)
    requires n < 2
    ensures LexPairs(n) == []
  {
    if n == 1 {
      assert Rows(1, 1) == Rows(0, 1) + RowUpTo(0, 1);
    }
  }

  predicate InRange(sys: CollisionSystem, p: Pair)
  {
    p.i < |sys.entities| && p.j < |sys.entities|
  }

  /**
   * What visiting one pair does: run didCollide on a fresh rectangle and, on a hit,
   * handleCollision; the result is the callback invocation, if any.
   */
  function Outcome(sys: CollisionSystem, p: Pair): Option<Call>
  {
    if !InRange(sys, p) then None else
    var lhs := sys.entities[p.i];
    var rhs := sys.entities[p.j];
    var c := DidCollide(sys.level, lhs, rhs, ZeroRect);
    if c.hit then HandleCollision(sys.handlers, lhs, rhs, c.rect) else None
  }

  function Visit(sys: CollisionSystem, p: Pair): seq<Call>
  {
    match Outcome(sys, p)
    case Some(call) => [call]
    case None => []
  }

  /** The callbacks fired, in order, while visiting `ps`. */
  function Fire(sys: CollisionSystem, ps: seq<Pair>): seq<Call>
  {
    if ps == [] then [] else Fire(sys, ps[..|ps| - 1]) + Visit(sys, ps[|ps| - 1])
  }

  /** The pair collides at the system's level and its kinds have a handler. */
  predicate Reported(sys: CollisionSystem, p: Pair)
    requires InRange(sys, p)
  {
    var lhs := sys.entities[p.i];
    var rhs := sys.entities[p.j];
    DidCollide(sys.level, lhs, rhs, ZeroRect).hit && MinMax(lhs.kind, rhs.kind) in sys.handlers
  }

  /**
   * A visited pair fires a callback exactly when it is reported; the callback gets the
   * pair's two entities and their world-bounds intersection.
   */
  lemma OutcomeExact(sys: CollisionSystem, p: Pair)
    requires InRange(sys, p)
    ensures Outcome(sys, p).Some? <==> Reported(sys, p)
    ensures Outcome(sys, p).Some? ==>
      var c := Outcome(sys, p).value;
      {c.first, c.second} == {sys.entities[p.i], sys.entities[p.j]}
      && c.rect == Intersects(sys.entities[p.i].globalBounds, sys.entities[p.j].globalBounds).area
  {
  }

  /** Every fired callback is the outcome of some visited pair. */
  lemma {:induction false} FireSound(sys: CollisionSystem, ps: seq<Pair>, c: Call)
    requires c in Fire(sys, ps)
    ensures exists k :: 0 <= k < |ps| && Outcome(sys, ps[k]) == Some(c)
  {
    var front := ps[..|ps| - 1];
    if c in Fire(sys, front) {
      FireSound(sys, front, c);
      var k :| 0 <= k < |front| && Outcome(sys, front[k]) == Some(c);
      assert ps[k] == front[k];
    } else {
      assert Outcome(sys, ps[|ps| - 1]) == Some(c);
    }
  }

  /** Every visited pair with an outcome fires it. */
  lemma {:induction false} FireComplete(sys: CollisionSystem, ps: seq<Pair>, k: nat)
    requires k < |ps| && Outcome(sys, ps[k]).Some?
    ensures Outcome(sys, ps[k]).value in Fire(sys, ps)
  {
    var front := ps[..|ps| - 1];
    if k < |front| {
      assert ps[k] == front[k];
      FireComplete(sys, front, k);
    }
  }

  /**
   * CollisionSystem::checkCollisions, written with the source's nested loops. Returns
   * the pairs passed to didCollide, in order, and the callbacks that ran.
   */
  method CheckCollisions(sys: CollisionSystem) returns (tested: seq<Pair>, calls: seq<Call>)
    ensures tested == LexPairs(|sys.entities|)
    ensures calls == Fire(sys, tested)
  {
    tested, calls := [], [];
    var n := |sys.entities|;
    if n < 2 {
      LexPairsSmall(n);
      return;
    }
    var i := 0;
    while i < n
      invariant 0 <= i <= n
      invariant tested == Rows(i, n)
      invariant calls == Fire(sys, tested)
    {
      tested, calls := ScanRow(sys, i, tested, calls);
      i := i + 1;
    }
  }

  /** The inner loop of checkCollisions: pair position i with every later position. */
  method ScanRow(sys: CollisionSystem, i: nat, tested0: seq<Pair>, calls0: seq<Call>)
    returns (tested: seq<Pair>, calls: seq<Call>)
    requires i < |sys.entities|
    requires calls0 == Fire(sys, tested0)
    ensures tested == tested0 + RowUpTo(i, |sys.entities|)
    ensures calls == Fire(sys, tested)
  {
    var n := |sys.entities|;
    tested, calls := tested0, calls0;
    var j := i + 1;
    while j < n
      invariant i + 1 <= j <= n
      invariant tested == tested0 + RowUpTo(i, j)
      invariant calls == Fire(sys, tested)
    {
      var p := Pair(i, j);
      var fired := VisitPair(sys, p);
      FireSnoc(sys, tested, p);
      assert RowUpTo(i, j + 1) == RowUpTo(i, j) + [p];
      assert tested0 + RowUpTo(i, j + 1) == tested + [p];
      tested, calls := tested + [p], calls + fired;
      j := j + 1;
    }
  }

  /** The body of the inner loop: didCollide on a fresh rectangle, then handleCollision on a hit. */
  method VisitPair(sys: CollisionSystem, p: Pair) returns (fired: seq<Call>)
    requires InRange(sys, p)
    ensures fired == Visit(sys, p)
    ensures |fired| <= 1
  {
    fired := [];
    var rect := ZeroRect;
    var c := DidCollide(sys.level, sys.entities[p.i], sys.entities[p.j], rect);
    if c.hit {
      var h := HandleCollision(sys.handlers, sys.entities[p.i], sys.entities[p.j], c.rect);
      if h.Some? {
        fired := [h.value];
      }
    }
  }

  lemma FireSnoc(sys: CollisionSystem, ps: seq<Pair>, p: Pair)
    ensures Fire(sys, ps + [p]) == Fire(sys, ps) + Visit(sys, p)
  {
    assert (ps + [p])[..|ps|] == ps;
  }

  /** CollisionSystem::update: the scan, whatever the elapsed time `dt`. */
  method Update(sys: CollisionSystem, dt: real) returns (calls: seq<Call>)
    ensures calls == Fire(sys, LexPairs(|sys.entities|))
    ensures forall c :: c in calls ==>
      exists a: nat, b: nat :: a < b < |sys.entities| && Outcome(sys, Pair(a, b)) == Some(c)
    ensures forall a: nat, b: nat :: a < b < |sys.entities| && Reported(sys, Pair(a, b)) ==>
      Outcome(sys, Pair(a, b)).Some? && Outcome(sys, Pair(a, b)).value in calls
  {
    var tested;
    tested, calls := CheckCollisions(sys);
    LexPairsExact(|sys.entities|);
    forall c | c in calls
      ensures exists a: nat, b: nat :: a < b < |sys.entities| && Outcome(sys, Pair(a, b)) == Some(c)
    {
      FireSound(sys, tested, c);
      var k :| 0 <= k < |tested| && Outcome(sys, tested[k]) == Some(c);
      assert tested[k].i < tested[k].j < |sys.entities|;
    }
    forall a: nat, b: nat | a < b < |sys.entities| && Reported(sys, Pair(a, b))
      ensures Outcome(sys, Pair(a, b)).Some? && Outcome(sys, Pair(a, b)).value in calls
    {
      OutcomeExact(sys, Pair(a, b));
      assert Pair(a, b) in tested;
      var k :| 0 <= k < |tested| && tested[k] == Pair(a, b);
      FireComplete(sys, tested, k);
    }
  }
}
