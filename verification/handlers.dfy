/**
 * The handler registry of CollisionSystem: addHandler<T1,T2>, find, the Dispatcher
 * adapter and handleCollision. Kinds are natural numbers whose `<` stands for the
 * order of the type_info pointers the source compares.
 */
module Handlers {
  import opened Wrappers
  import opened Geometry
  import opened Narrowing

  type Kind = nat

  /** Identity of a user callback taking (T1&, T2&, const FloatRect&). */
  type CallbackId = nat

  /** TypeIDs: a pair of kinds; registry keys are always stored as std::minmax of the two. */
  datatype Key = Key(lo: Kind, hi: Kind)

  /** std::minmax(t1, t2). */
  function MinMax(t1: Kind, t2: Kind): (k: Key)
    ensures k.lo <= k.hi
    ensures {k.lo, k.hi} == {t1, t2}
  {
    if t2 < t1 then Key(t2, t1) else Key(t1, t2)
  }

  /** The lambda addHandler stores: a Dispatcher<T1, T2> around the user's callback. */
  datatype Adapter = Adapter(first: Kind, second: Kind, callback: CallbackId)

  /** CollisionSystem::Handler: the orientation flag `t2 < t1` and the adapter. */
  datatype Handler = Handler(swapped: bool, adapter: Adapter)

  type Registry = map<Key, Handler>

  /** One invocation of a user callback: the two entities in parameter order and the rectangle. */
  datatype Call = Call(callback: CallbackId, first: Body, second: Body, rect: Rect)

  /**
   * What addHandler guarantees of every entry: stored under the minmax of its declared
   * kinds, with the flag recording whether the declared order is the reverse of the key's.
   */
  ghost predicate WellFormed(reg: Registry)
  {
    forall k :: k in reg ==>
      k == MinMax(reg[k].adapter.first, reg[k].adapter.second)
      && reg[k].swapped == (reg[k].adapter.second < reg[k].adapter.first)
  }

  /** CollisionSystem::addHandler<T1, T2>(callback). */
  function AddHandler(reg: Registry, t1: Kind, t2: Kind, callback: CallbackId): (r: Registry)
    ensures MinMax(t1, t2) in r && MinMax(t2, t1) in r
    ensures r[MinMax(t1, t2)].adapter == Adapter(t1, t2, callback)
    ensures r[MinMax(t1, t2)].swapped <==> t2 < t1
    ensures r.Keys == reg.Keys + {MinMax(t2, t1)}
    ensures forall k :: k in reg && k != MinMax(t1, t2) ==> r[k] == reg[k]
  {
    reg[MinMax(t1, t2):= Handler(t2 < t1, Adapter(t1, t2, callback))]
  }

  /** Registration keeps every entry well formed. */
  lemma AddHandlerWellFormed(reg: Registry, t1: Kind, t2: Kind, callback: CallbackId)
    requires WellFormed(reg)
    ensures WellFormed(AddHandler(reg, t1, t2, callback))
  {
  }

  /**
   * Last write wins: after registering for (t1, t2) and then for the same unordered
   * pair in either order, only the second callback can be found.
   */
  lemma LastWriteWins(reg: Registry, t1: Kind, t2: Kind, cb1: CallbackId, u1: Kind, u2: Kind, cb2: CallbackId)
    requires {u1, u2} == {t1, t2}
    ensures Find(AddHandler(AddHandler(reg, t1, t2, cb1), u1, u2, cb2), MinMax(t1, t2))
         == Some(Handler(u2 < u1, Adapter(u1, u2, cb2)))
  {
    assert MinMax(u1, u2) == MinMax(t1, t2);
  }

  /** CollisionSystem::find: the handler stored under the key, or the empty Handler(). */
  function Find(reg: Registry, k: Key): (h: Option<Handler>)
    ensures h.Some? <==> k in reg
    ensures h.Some? ==> h.value == reg[k]
  {
    if k in reg then Some(reg[k]) else None
  }

  /** Dispatcher<T1, T2>::operator(): casts the two entities and forwards the rectangle. */
  function Dispatch(a: Adapter, e1: Body, e2: Body, rect: Rect): (c: Call)
    ensures c.callback == a.callback && c.rect == rect
    ensures c.first == e1 && c.second == e2
  {
    Call(a.callback, e1, e2, rect)
  }

  /**
   * CollisionSystem::handleCollision: look up the handler for the pair's kinds and,
   * if one is registered, call it with the arguments in the order its flag selects.
   */
  function HandleCollision(reg: Registry, lhs: Body, rhs: Body, rect: Rect): (r: Option<Call>)
    ensures r.None? <==> MinMax(lhs.kind, rhs.kind) !in reg
    ensures r.Some? ==> r.value.rect == rect
    ensures r.Some? ==> r.value.callback == reg[MinMax(lhs.kind, rhs.kind)].adapter.callback
    ensures r.Some? ==>
      var flag := reg[MinMax(lhs.kind, rhs.kind)].swapped;
      if (rhs.kind < lhs.kind) == flag then r.value.first == lhs && r.value.second == rhs
      else r.value.first == rhs && r.value.second == lhs
  {
    var t1 := lhs.kind;
    var t2 := rhs.kind;
    match Find(reg, MinMax(t1, t2))
    case None => None
    case Some(h) =>
      if (t2 < t1) == h.swapped then Some(Dispatch(h.adapter, lhs, rhs, rect))
      else Some(Dispatch(h.adapter, rhs, lhs, rect))
  }

  /**
   * In a well-formed registry the callback always receives an entity of its first
   * declared kind first and one of its second declared kind second, whichever order
   * the pair was discovered in (equal kinds included).
   */
  lemma DeclaredOrder(reg: Registry, lhs: Body, rhs: Body, rect: Rect)
    requires WellFormed(reg)
    requires MinMax(lhs.kind, rhs.kind) in reg
    ensures HandleCollision(reg, lhs, rhs, rect).Some?
    ensures var c := HandleCollision(reg, lhs, rhs, rect).value;
      var a := reg[MinMax(lhs.kind, rhs.kind)].adapter;
      c.first.kind == a.first && c.second.kind == a.second
      && {c.first, c.second} == {lhs, rhs}
  {
  }

  /** For entities of different kinds, the call does not depend on discovery order. */
  lemma DiscoveryOrderIrrelevant(reg: Registry, lhs: Body, rhs: Body, rect: Rect)
    requires lhs.kind != rhs.kind
    ensures HandleCollision(reg, lhs, rhs, rect) == HandleCollision(reg, rhs, lhs, rect)
  {
    assert MinMax(lhs.kind, rhs.kind) == MinMax(rhs.kind, lhs.kind);
  }

  /**
   * A handler registered for (Circle, Rectangle), with Circle's kind above
   * Rectangle's; the pair is found as (rectangle, circle) and the callback still
   * gets the circle first.
   */
  lemma ScenarioCircleRectangle(circle: Body, rectangle: Body, rect: Rect, cb: CallbackId)
    requires circle.kind == 7 && rectangle.kind == 3
    ensures HandleCollision(AddHandler(map[], 7, 3, cb), rectangle, circle, rect)
         == Some(Call(cb, circle, rectangle, rect))
  {
  }
}
