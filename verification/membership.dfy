/**
 * The two-way membership between systems and entities: ISystem::addEntity /
 * dropEntity and IEntity::addSystem / dropSystem. Each side keeps a vector without
 * duplicates; the `callback` flag makes one side call the other once, and the
 * reverse call passes `false` so the chain stops there.
 */
module Membership {
  import opened Seqs

  type SystemId = nat
  type EntityId = nat

  /**
   * Every system's entities_ and every entity's systems_, plus the log of
   * ISystem::addProperties calls (the per-system hook run before an entity joins).
   */
  datatype World = World(entitiesOf: map<SystemId, seq<EntityId>>,
                         systemsOf: map<EntityId, seq<SystemId>>,
                         hooked: seq<(SystemId, EntityId)>)

  function EntitiesOf(w: World, s: SystemId): seq<EntityId>
  {
    if s in w.entitiesOf then w.entitiesOf[s] else []
  }

  function SystemsOf(w: World, e: EntityId): seq<SystemId>
  {
    if e in w.systemsOf then w.systemsOf[e] else []
  }

  /** Both sides agree on who belongs to whom. */
  ghost predicate Consistent(w: World)
  {
    forall s, e :: e in EntitiesOf(w, s) <==> s in SystemsOf(w, e)
  }

  /** No vector on either side holds an element twice. */
  ghost predicate Unique(w: World)
  {
    (forall s :: NoDups(EntitiesOf(w, s))) && (forall e :: NoDups(SystemsOf(w, e)))
  }

  /** ISystem::addEntity(entity, callback). */
  function AddEntity(w: World, s: SystemId, e: EntityId, callback: bool): (r: World)
    decreases callback
    ensures e in EntitiesOf(w, s) ==> r == w
    ensures e !in EntitiesOf(w, s) ==> EntitiesOf(r, s) == EntitiesOf(w, s) + [e]
    ensures e !in EntitiesOf(w, s) ==> r.hooked == w.hooked + [(s, e)]
    ensures e !in EntitiesOf(w, s) && callback ==> s in SystemsOf(r, e)
    ensures !callback ==> SystemsOf(r, e) == SystemsOf(w, e)
    ensures forall t :: t != s ==> EntitiesOf(r, t) == EntitiesOf(w, t)
    ensures forall f :: f != e ==> SystemsOf(r, f) == SystemsOf(w, f)
  {
    if e in EntitiesOf(w, s) then w
    else
      var w1 := w.(hooked := w.hooked + [(s, e)]);
      var w2 := w1.(entitiesOf := w1.entitiesOf[s := EntitiesOf(w1, s) + [e]]);
      if callback then AddSystem(w2, e, s, false) else w2
  }

  /** IEntity::addSystem(system, callback). */
  function AddSystem(w: World, e: EntityId, s: SystemId, callback: bool): (r: World)
    decreases callback
    ensures s in SystemsOf(w, e) ==> r == w
    ensures s !in SystemsOf(w, e) ==> SystemsOf(r, e) == SystemsOf(w, e) + [s]
    ensures s !in SystemsOf(w, e) && callback ==> e in EntitiesOf(r, s)
    ensures !callback ==> EntitiesOf(r, s) == EntitiesOf(w, s) && r.hooked == w.hooked
    ensures forall t :: t != s ==> EntitiesOf(r, t) == EntitiesOf(w, t)
    ensures forall f :: f != e ==> SystemsOf(r, f) == SystemsOf(w, f)
  {
    if s in SystemsOf(w, e) then w
    else
      var w1 := w.(systemsOf := w.systemsOf[e := SystemsOf(w, e) + [s]]);
      if callback then AddEntity(w1, s, e, false) else w1
  }

  /** ISystem::dropEntity(entity, callback). */
  function DropEntity(w: World, s: SystemId, e: EntityId, callback: bool): (r: World)
    decreases callback
    ensures e !in EntitiesOf(w, s) ==> r == w
    ensures e in EntitiesOf(w, s) ==> EntitiesOf(r, s) == RemoveFirst(EntitiesOf(w, s), e)
    ensures e in EntitiesOf(w, s) && callback ==> SystemsOf(r, e) == RemoveFirst(SystemsOf(w, e), s)
    ensures !callback ==> SystemsOf(r, e) == SystemsOf(w, e)
    ensures r.hooked == w.hooked
    ensures forall t :: t != s ==> EntitiesOf(r, t) == EntitiesOf(w, t)
    ensures forall f :: f != e ==> SystemsOf(r, f) == SystemsOf(w, f)
  {
    if e !in EntitiesOf(w, s) then w
    else
      var w1 := w.(entitiesOf := w.entitiesOf[s := RemoveFirst(EntitiesOf(w, s), e)]);
      if callback then DropSystem(w1, e, s, false) else w1
  }

  /** IEntity::dropSystem(system, callback). */
  function DropSystem(w: World, e: EntityId, s: SystemId, callback: bool): (r: World)
    decreases callback
    ensures s !in SystemsOf(w, e) ==> r == w
    ensures s in SystemsOf(w, e) ==> SystemsOf(r, e) == RemoveFirst(SystemsOf(w, e), s)
    ensures s in SystemsOf(w, e) && callback ==> EntitiesOf(r, s) == RemoveFirst(EntitiesOf(w, s), e)
    ensures !callback ==> EntitiesOf(r, s) == EntitiesOf(w, s)
    ensures r.hooked == w.hooked
    ensures forall t :: t != s ==> EntitiesOf(r, t) == EntitiesOf(w, t)
    ensures forall f :: f != e ==> SystemsOf(r, f) == SystemsOf(w, f)
  {
    if s !in SystemsOf(w, e) then w
    else
      var w1 := w.(systemsOf := w.systemsOf[e := RemoveFirst(SystemsOf(w, e), s)]);
      if callback then DropEntity(w1, s, e, false) else w1
  }

  /** Adding from the system side keeps both vectors duplicate-free and both sides in agreement. */
  lemma AddEntityKeepsInvariants(w: World, s: SystemId, e: EntityId)
    requires Unique(w) && Consistent(w)
    ensures Unique(AddEntity(w, s, e, true)) && Consistent(AddEntity(w, s, e, true))
  {
    var r := AddEntity(w, s, e, true);
    if e !in EntitiesOf(w, s) {
      assert s !in SystemsOf(w, e);
      AppendNoDups(EntitiesOf(w, s), e);
      AppendNoDups(SystemsOf(w, e), s);
      assert SystemsOf(r, e) == SystemsOf(w, e) + [s];
    }
  }

  /** Adding from the entity side keeps both vectors duplicate-free and both sides in agreement. */
  lemma AddSystemKeepsInvariants(w: World, e: EntityId, s: SystemId)
    requires Unique(w) && Consistent(w)
    ensures Unique(AddSystem(w, e, s, true)) && Consistent(AddSystem(w, e, s, true))
  {
    var r := AddSystem(w, e, s, true);
    if s !in SystemsOf(w, e) {
      assert e !in EntitiesOf(w, s);
      AppendNoDups(EntitiesOf(w, s), e);
      AppendNoDups(SystemsOf(w, e), s);
      assert EntitiesOf(r, s) == EntitiesOf(w, s) + [e];
    }
  }

  /** Dropping from the system side keeps both vectors duplicate-free and both sides in agreement. */
  lemma DropEntityKeepsInvariants(w: World, s: SystemId, e: EntityId)
    requires Unique(w) && Consistent(w)
    ensures Unique(DropEntity(w, s, e, true)) && Consistent(DropEntity(w, s, e, true))
    ensures e !in EntitiesOf(DropEntity(w, s, e, true), s) && s !in SystemsOf(DropEntity(w, s, e, true), e)
  {
    RemoveFirstNoDups(EntitiesOf(w, s), e);
    RemoveFirstNoDups(SystemsOf(w, e), s);
  }

  /** Dropping from the entity side keeps both vectors duplicate-free and both sides in agreement. */
  lemma DropSystemKeepsInvariants(w: World, e: EntityId, s: SystemId)
    requires Unique(w) && Consistent(w)
    ensures Unique(DropSystem(w, e, s, true)) && Consistent(DropSystem(w, e, s, true))
    ensures e !in EntitiesOf(DropSystem(w, e, s, true), s) && s !in SystemsOf(DropSystem(w, e, s, true), e)
  {
    RemoveFirstNoDups(EntitiesOf(w, s), e);
    RemoveFirstNoDups(SystemsOf(w, e), s);
  }

  /**
   * Joining from either side runs the system's addProperties hook exactly once for a
   * new pair, and not at all for an existing one.
   */
  lemma HookRunsOnce(w: World, s: SystemId, e: EntityId)
    requires Consistent(w)
    ensures e !in EntitiesOf(w, s) ==>
      AddEntity(w, s, e, true).hooked == w.hooked + [(s, e)] && AddSystem(w, e, s, true).hooked == w.hooked + [(s, e)]
    ensures e in EntitiesOf(w, s) ==>
      AddEntity(w, s, e, true).hooked == w.hooked && AddSystem(w, e, s, true).hooked == w.hooked
  {
  }

  /** Joining and then leaving again, each from the system side, restores both sides' vectors. */
  lemma AddThenDropRestores(w: World, s: SystemId, e: EntityId)
    requires Consistent(w)
    requires e !in EntitiesOf(w, s)
    ensures forall t :: EntitiesOf(DropEntity(AddEntity(w, s, e, true), s, e, true), t) == EntitiesOf(w, t)
    ensures forall f :: SystemsOf(DropEntity(AddEntity(w, s, e, true), s, e, true), f) == SystemsOf(w, f)
  {
    assert s !in SystemsOf(w, e);
    RemoveFirstAppended(EntitiesOf(w, s), e);
    RemoveFirstAppended(SystemsOf(w, e), s);
  }
}
