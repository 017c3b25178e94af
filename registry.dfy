/**
 * What parsing a struct, enum or bitmask body leaves in the world: the entities
 * it creates in the scope of the type, and the diagnostics it logs.
 */
module Registry {
  import opened CText
  import opened Syntax
  import opened TypeLookup

  /** A member entity: its name and its EcsMember component (type and count). */
  datatype Member = Member(name: seq<char>, typ: Entity, count: int)

  /** A constant entity: its name and the value of its EcsConstant pair. */
  datatype Constant = Constant(name: seq<char>, value: int)

  /**
   * The end of a parse: the returned status (0 or -1), the entities registered,
   * in order, the diagnostics logged, whether the scope that was current before
   * the parse was set back, and the name of a member entity that was created
   * but never got its EcsMember because its type lookup failed. `Undefined` is a
   * parse that reached undefined behaviour in a scanner.
   */
  datatype Outcome<T> =
    | Outcome(status: int, items: seq<T>, log: seq<Diag>, scopeRestored: bool, orphan: Option<seq<char>>)
    | Undefined
}
