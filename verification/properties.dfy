/**
 * PropertyManager: named, typed values attached to an entity. A property's C++ type is
 * fixed when it is added; a lookup succeeds only when the name exists AND the requested
 * type is the stored one. The closed set of value types stands for the template
 * parameter Type.
 */
module Properties {
  import opened Wrappers

  datatype TypeTag = IntType | RealType | BoolType | StringType

  datatype Value = IntValue(i: int) | RealValue(r: real) | BoolValue(b: bool) | StringValue(s: string)

  /** The properties by name; the stored value's tag is the property's type. */
  type Store = map<string, Value>

  function TypeOf(v: Value): TypeTag
  {
    match v
    case IntValue(_) => IntType
    case RealValue(_) => RealType
    case BoolValue(_) => BoolType
    case StringValue(_) => StringType
  }

  /** Type(): the value-initialised object of each type. */
  function Default(t: TypeTag): (v: Value)
    ensures TypeOf(v) == t
  {
    match t
    case IntType => IntValue(0)
    case RealType => RealValue(0.0)
    case BoolType => BoolValue(false)
    case StringType => StringValue("")
  }

  /** find<Type>(name): the property when the name exists with exactly that type. */
  function Find(s: Store, name: string, t: TypeTag): (r: Option<Value>)
    ensures r.Some? <==> name in s && TypeOf(s[name]) == t
    ensures r.Some? ==> r.value == s[name] && TypeOf(r.value) == t
  {
    if name in s && TypeOf(s[name]) == t then Some(s[name]) else None
  }

  /** add<Type>(name, value): silently ignored when a property of that name exists, of any type. */
  function Add(s: Store, name: string, v: Value): (r: Store)
    ensures name in s ==> r == s
    ensures name !in s ==> r == s[name := v]
  {
    if name in s then s else s[name := v]
  }

  /** add<Type>(name) with the defaulted value argument. */
  function AddDefault(s: Store, name: string, t: TypeTag): (r: Store)
    ensures name !in s ==> Find(r, name, t) == Some(Default(t))
    ensures name in s ==> r == s
  {
    Add(s, name, Default(t))
  }

  /** set<Type>(name, value): silently ignored unless the name exists with that type. */
  function Set(s: Store, name: string, v: Value): (r: Store)
    ensures r.Keys == s.Keys
    ensures forall m :: m in r ==> TypeOf(r[m]) == TypeOf(s[m])
    ensures Find(s, name, TypeOf(v)).Some? ==> r[name] == v
    ensures Find(s, name, TypeOf(v)).None? ==> r == s
  {
    if Find(s, name, TypeOf(v)).Some? then s[name := v] else s
  }

  /** get<Type>(name): the value, or Type() when the name is missing or has another type. */
  function Get(s: Store, name: string, t: TypeTag): (v: Value)
    ensures TypeOf(v) == t
    ensures Find(s, name, t).Some? ==> v == s[name]
    ensures Find(s, name, t).None? ==> v == Default(t)
  {
    match Find(s, name, t)
    case Some(x) => x
    case None => Default(t)
  }

  /**
   * cref<Type>(name) (and the const ref): the stored value. The source dereferences a
   * null pointer after reporting a missing property, so callers must ensure it exists.
   */
  function Cref(s: Store, name: string, t: TypeTag): (v: Value)
    requires Find(s, name, t).Some?
    ensures v == s[name] && TypeOf(v) == t
  {
    s[name]
  }

  /**
   * ref<Type>(name) followed by an assignment through the reference: the same effect as
   * set, under the precondition ref demands.
   */
  function AssignThroughRef(s: Store, name: string, v: Value): (r: Store)
    requires Find(s, name, TypeOf(v)).Some?
    ensures Find(r, name, TypeOf(v)) == Some(v)
    ensures forall m :: m != name ==> (m in r <==> m in s) && (m in s ==> r[m] == s[m])
  {
    s[name := v]
  }

  /** Reading a property back after set gives the value set, when the set took effect. */
  lemma GetAfterSet(s: Store, name: string, v: Value)
    ensures Find(s, name, TypeOf(v)).Some? ==> Get(Set(s, name, v), name, TypeOf(v)) == v
    ensures Find(s, name, TypeOf(v)).None? ==> Get(Set(s, name, v), name, TypeOf(v)) == Default(TypeOf(v))
  {
  }

  /** set changes no other (name, type) lookup. */
  lemma SetFrame(s: Store, name: string, v: Value, other: string, t: TypeTag)
    requires other != name || t != TypeOf(v)
    ensures Get(Set(s, name, v), other, t) == Get(s, other, t)
  {
  }

  /** A property added under a fresh name reads back as added, under its own type only. */
  lemma GetAfterAdd(s: Store, name: string, v: Value, t: TypeTag)
    requires name !in s
    ensures Get(Add(s, name, v), name, t) == if t == TypeOf(v) then v else Default(t)
  {
  }

  /** Adding twice keeps the first value and type: the second add is ignored. */
  lemma FirstAddWins(s: Store, name: string, v: Value, w: Value)
    requires name !in s
    ensures Add(Add(s, name, v), name, w) == Add(s, name, v)
    ensures Get(Add(Add(s, name, v), name, w), name, TypeOf(v)) == v
  {
  }

  /** set after set under the same type: the later value wins, and set is idempotent. */
  lemma SetTwice(s: Store, name: string, v: Value, w: Value)
    requires TypeOf(v) == TypeOf(w)
    ensures Set(Set(s, name, v), name, w) == Set(s, name, w)
    ensures Set(Set(s, name, v), name, v) == Set(s, name, v)
  {
  }

  /** A float property "fuel" read with the wrong type yields the default. */
  lemma WrongTypeReadsDefault(s: Store)
    requires s == Add(map[], "fuel", RealValue(2.5))
    ensures Get(s, "fuel", RealType) == RealValue(2.5)
    ensures Get(s, "fuel", IntType) == IntValue(0)
    ensures Set(s, "fuel", IntValue(3)) == s
  {
  }
}
