/**
 * ecs_meta_from_desc: the kind of a type decides which body parser, if any,
 * reads its description, and any nonzero status of that parser becomes -1.
 */
module FromDesc {
  import opened CText
  import opened Syntax
  import opened TypeLookup
  import opened Registry
  import opened Structs
  import opened Constants

  /** ecs_type_kind_t; `InvalidKind` is any value outside the enumeration. */
  datatype TypeKind =
    | PrimitiveType
    | BitmaskType
    | EnumType
    | StructType
    | ArrayType
    | VectorType
    | OpaqueType
    | InvalidKind

  /**
   * What ecs_meta_from_desc returns, with what the body parser it called
   * registered and logged. `Undefined` is a parse that reached undefined
   * behaviour in a scanner; `Thrown` is the ecs_throw for an invalid kind.
   */
  datatype Described =
    | Described(status: int, members: seq<Member>, constants: seq<Constant>, log: seq<Diag>)
    | Undefined
    | Thrown

  /** The kinds whose description is not parsed at all. */
  predicate IsUnparsedKind(kind: TypeKind) {
    kind.PrimitiveType? || kind.ArrayType? || kind.VectorType? || kind.OpaqueType?
  }

  /** The status the switch returns for a body parser's status: -1 for anything nonzero. */
  function ErrorStatus(status: int): (r: int)
    ensures r == 0 || r == -1
    ensures r == 0 <==> status == 0
  {
    if status != 0 then -1 else 0
  }

  /**
   * ecs_meta_from_desc(world, component, kind, desc) in a world whose symbols
   * are `w` and whose names for the component are `n`.
   */
  function FromDescSpec(w: World, n: Naming, kind: TypeKind, desc: seq<char>): (r: Described)
    ensures r.Described? ==> r.status == 0 || r.status == -1
    ensures r.Thrown? <==> kind.InvalidKind?
    ensures IsUnparsedKind(kind) ==> r == Described(0, [], [], [])
    ensures r.Described? && r.status == -1 ==> kind.StructType? || kind.EnumType? || kind.BitmaskType?
  {
    match kind
    case StructType =>
      var o := StructSpec(w, desc);
      if o.Undefined? then Described.Undefined else Described(ErrorStatus(o.status), o.items, [], o.log)
    case EnumType =>
      var o := EnumSpec(n, desc);
      if o.Undefined? then Described.Undefined else Described(ErrorStatus(o.status), [], o.items, o.log)
    case BitmaskType =>
      var o := BitmaskSpec(n, desc);
      if o.Undefined? then Described.Undefined else Described(ErrorStatus(o.status), [], o.items, o.log)
    case InvalidKind => Thrown
    case _ => Described(0, [], [], [])
  }

  // ---------------------------------------------------------------------------
  // Properties
  // ---------------------------------------------------------------------------

  /**
   * A struct description: ecs_meta_from_desc returns the status of
   * flecs_meta_utils_parse_struct unchanged (it is 0 or -1) and registers its
   * members and nothing else.
   */
  lemma StructStatusPassesThrough(w: World, n: Naming, desc: seq<char>)
    ensures var o := StructSpec(w, desc);
      var r := FromDescSpec(w, n, StructType, desc);
      (o.Undefined? <==> r.Undefined?)
      && (o.Outcome? ==> r == Described(o.status, o.items, [], o.log))
  {
  }

  /** An enum description: the status of flecs_meta_utils_parse_enum, and its constants. */
  lemma EnumStatusPassesThrough(w: World, n: Naming, desc: seq<char>)
    ensures var o := EnumSpec(n, desc);
      var r := FromDescSpec(w, n, EnumType, desc);
      (o.Undefined? <==> r.Undefined?)
      && (o.Outcome? ==> r == Described(o.status, [], o.items, o.log))
  {
  }

  /** A bitmask description: the status of flecs_meta_utils_parse_bitmask, and its constants. */
  lemma BitmaskStatusPassesThrough(w: World, n: Naming, desc: seq<char>)
    ensures var o := BitmaskSpec(n, desc);
      var r := FromDescSpec(w, n, BitmaskType, desc);
      (o.Undefined? <==> r.Undefined?)
      && (o.Outcome? ==> r == Described(o.status, [], o.items, o.log))
  {
  }

  /**
   * An enum description: the constants registered are those parse_constant
   * returns, in order, each under its stripped name and with the i32 cast of its explicit value or of one more than
   * the value before it, counting from 0.
   */
  lemma EnumDescriptionValues(w: World, n: Naming, desc: seq<char>)
    ensures var r := FromDescSpec(w, n, EnumType, desc);
      var ts := ConstantTokens(desc, 0);
      r.Described? ==>
        |r.constants| == |ts|
        && forall j :: 0 <= j < |ts| ==>
             r.constants[j] == Constant(StripNames(n, ts[j].name), ToI32(ValueOf(ts, j, 0)))
  {
    EnumValuesFollowStream(n, desc);
  }
}
