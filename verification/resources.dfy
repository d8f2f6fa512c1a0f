/**
 * ResourceManager<ID, Resource>: resources loaded from files and held by id. Reading
 * a file is outside the model: `loader` stands for Resource::loadFromFile, giving the
 * loaded resource or None when loading fails.
 */
module Resources {
  import opened Wrappers

  /** The outcome of load: its return value, or the runtime_error it throws. */
  datatype LoadResult<ID, R> = Loaded(ok: bool, store: map<ID, R>) | Thrown(message: string)

  /** ResourceManager::find: the resource, or null when the id is absent. */
  function Find<ID, R>(store: map<ID, R>, id: ID): (r: Option<R>)
    ensures r.None? <==> id !in store
    ensures r.Some? ==> r.value == store[id]
  {
    if id in store then Some(store[id]) else None
  }

  /** ResourceManager::get: the stored resource; the source reports a missing id as a failed expectation. */
  function Get<ID, R>(store: map<ID, R>, id: ID): (r: R)
    requires id in store
    ensures Find(store, id) == Some(r)
  {
    store[id]
  }

  /**
   * ResourceManager::load: false and no change for an id already loaded; otherwise the
   * file is loaded, and a failure throws "failed to load file: " + filename.
   */
  function Load<ID, R>(store: map<ID, R>, id: ID, filename: string, loader: string -> Option<R>): (r: LoadResult<ID, R>)
    ensures id in store ==> r == Loaded(false, store)
    ensures id !in store && loader(filename).None? ==> r == Thrown("failed to load file: " + filename)
    ensures id !in store && loader(filename).Some? ==> r.Loaded? && r.ok && r.store == store[id := loader(filename).value]
  {
    if id in store then Loaded(false, store)
    else match loader(filename)
      case None => Thrown("failed to load file: " + filename)
      case Some(res) => Loaded(true, store[id := res])
  }

  /** A load that returns true makes the id findable with the loaded resource; one that returns false changes nothing. */
  lemma LoadThenFind<ID, R>(store: map<ID, R>, id: ID, filename: string, loader: string -> Option<R>)
    ensures Load(store, id, filename, loader).Loaded? && Load(store, id, filename, loader).ok ==>
              Find(Load(store, id, filename, loader).store, id) == loader(filename)
    ensures Load(store, id, filename, loader).Loaded? && !Load(store, id, filename, loader).ok ==>
              Load(store, id, filename, loader).store == store
  {
  }

  /** Loading one id never changes what another id finds. */
  lemma LoadFrame<ID, R>(store: map<ID, R>, id: ID, other: ID, filename: string, loader: string -> Option<R>)
    requires other != id
    requires Load(store, id, filename, loader).Loaded?
    ensures Find(Load(store, id, filename, loader).store, other) == Find(store, other)
  {
  }

  /** A second load of the same id returns false and keeps the first resource, whatever the file. */
  lemma SecondLoadRejected<ID, R>(store: map<ID, R>, id: ID, f1: string, f2: string, loader: string -> Option<R>)
    requires Load(store, id, f1, loader).Loaded?
    requires Load(store, id, f1, loader).ok
    ensures Load(Load(store, id, f1, loader).store, id, f2, loader) == Loaded(false, Load(store, id, f1, loader).store)
    ensures Get(Load(store, id, f1, loader).store, id) == loader(f1).value
  {
  }
}
