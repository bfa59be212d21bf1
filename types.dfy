/** Identity of bindable values, the parameter and result plans a constructor
    declares, and the graph node that wraps one constructor. */
module Types {

  /** A stable, comparable stand-in for a Go `reflect.Type`. */
  type TypeId = nat

  /** An opaque handle for a constructed value (a `reflect.Value`). */
  type Value = int

  datatype Option<T> = None | Some(value: T)

  datatype Result<T, E> = Success(value: T) | Failure(error: E)

  /** A type tag plus a name or a group; only one of the two is set. */
  datatype Key = Key(t: TypeId, name: string, group: string)

  /** The key of a plain or named value. */
  function PlainKey(t: TypeId, name: string): Key
  {
    Key(t, name, "")
  }

  /** The key of a value group. */
  function GroupKey(t: TypeId, group: string): Key
  {
    Key(t, "", group)
  }

  /** The list stored under `k`, or the empty list when `k` is absent
      (Go's zero value for a missing map entry). */
  function Get<V>(m: map<Key, seq<V>>, k: Key): seq<V>
  {
    if k in m then m[k] else []
  }

  /** One entry of a parameter plan: a single (possibly optional) value, or a
      whole value group. */
  datatype Param =
    | Single(name: string, t: TypeId, optional: bool)
    | Grouped(group: string, t: TypeId)

  function ParamKey(p: Param): Key
  {
    match p
    case Single(name, t, _) => PlainKey(t, name)
    case Grouped(group, t) => GroupKey(t, group)
  }

  /** One entry of a result plan: a single value (also exposed under each
      `As` type, with the same name), or a contribution to a value group. */
  datatype ResultEntry =
    | ResultSingle(name: string, t: TypeId, asTypes: seq<TypeId>)
    | ResultGrouped(group: string, t: TypeId)

  /** A node of the dependency graph: one user constructor with its plans and
      its one-shot `called` flag. `successes` counts the constructor runs
      whose outputs were committed. */
  class Node {
    const id: nat
    const params: seq<Param>
    const results: seq<ResultEntry>
    var called: bool
    ghost var successes: nat

    /** A committed run sets `called`, and at most one run is ever committed. */
    ghost predicate Valid()
      reads this
    {
      successes <= 1 && (successes == 1 ==> called)
    }

    constructor (id: nat, params: seq<Param>, results: seq<ResultEntry>)
      ensures Valid()
      ensures this.id == id && this.params == params && this.results == results
      ensures !called && successes == 0
    {
      this.id := id;
      this.params := params;
      this.results := results;
      called := false;
      successes := 0;
    }
  }
}
