/**
 * flecs_meta_utils_lookup and the collection lookups it dispatches to: the type
 * name of a member becomes a type entity.
 *
 * The world is seen through two things only: `ecs_lookup_symbol`, modelled as a
 * map from symbol or path to the entity it finds, and the anonymous array and
 * vector types that the lookups create, modelled as values that record the
 * element type and count they are created with.
 */
module TypeLookup {
  import opened CText
  import opened Syntax
  import opened Identifier
  import opened Tokens

  /** The builtin primitive types of the meta addon (`ecs_id(ecs_i32_t)` and so on). */
  datatype Prim =
    | Byte | Char | Bool
    | I8 | I16 | I32 | I64
    | U8 | U16 | U32 | U64
    | F32 | F64
    | EntityId | IdType
    | String | UPtr

  /**
   * A type entity, or `Zero` for the entity id 0. `ArrayOf` and `VectorOf` are
   * the anonymous entities that get an EcsArray or EcsVector component.
   */
  datatype Entity =
    | Zero
    | Builtin(prim: Prim)
    | Symbol(path: seq<char>)
    | ArrayOf(elem: Entity, count: int)
    | VectorOf(elem: Entity)

  /** What ecs_lookup_symbol(world, name, true, true) finds for each name. */
  type World = map<seq<char>, Entity>

  function Resolve(w: World, name: seq<char>): (e: Entity)
    ensures name !in w ==> e == Zero
    ensures name in w ==> e == w[name]
  {
    if name in w then w[name] else Zero
  }

  // ---------------------------------------------------------------------------
  // The decision chain on the type name
  // ---------------------------------------------------------------------------

  /** The branch of flecs_meta_utils_lookup taken for a type that is not a pointer. */
  datatype TypeClass =
    | ArrayClass
    | VectorClass
    | BitmaskClass
    | PrimitiveClass(prim: Prim)
    | SymbolClass

  /** The chain of strcmp tests on the type name, in the order the C code makes them. */
  function Classify(name: seq<char>): TypeClass {
    if name == "ecs_array" then ArrayClass
    else if name == "ecs_vector" || name == "flecs::vector" then VectorClass
    else if name == "flecs::bitmask" then BitmaskClass
    else if name == "flecs::byte" then PrimitiveClass(Byte)
    else if name == "char" then PrimitiveClass(Char)
    else if name == "bool" || name == "_Bool" then PrimitiveClass(Bool)
    else if name == "int8_t" then PrimitiveClass(I8)
    else if name == "int16_t" then PrimitiveClass(I16)
    else if name == "int32_t" then PrimitiveClass(I32)
    else if name == "int64_t" then PrimitiveClass(I64)
    else if name == "uint8_t" then PrimitiveClass(U8)
    else if name == "uint16_t" then PrimitiveClass(U16)
    else if name == "uint32_t" then PrimitiveClass(U32)
    else if name == "uint64_t" then PrimitiveClass(U64)
    else if name == "float" then PrimitiveClass(F32)
    else if name == "double" then PrimitiveClass(F64)
    else if name == "ecs_entity_t" then PrimitiveClass(EntityId)
    else if name == "ecs_id_t" then PrimitiveClass(IdType)
    else if name == "char*" then PrimitiveClass(String)
    else SymbolClass
  }

  /** The C type names with a builtin type, as a table. */
  const PrimitiveNames: map<seq<char>, Prim> := map[
    "flecs::byte" := Byte, "char" := Char, "bool" := Bool, "_Bool" := Bool,
    "int8_t" := I8, "int16_t" := I16, "int32_t" := I32, "int64_t" := I64,
    "uint8_t" := U8, "uint16_t" := U16, "uint32_t" := U32, "uint64_t" := U64,
    "float" := F32, "double" := F64,
    "ecs_entity_t" := EntityId, "ecs_id_t" := IdType, "char*" := String]

  /** The type names that name a collection whose parameters are looked up in turn. */
  const CollectionNames: set<seq<char>> := {"ecs_array", "ecs_vector", "flecs::vector", "flecs::bitmask"}

  /**
   * The decision chain agrees with the table: a name has a builtin type exactly
   * when the table lists it, and then it is the listed one.
   */
  lemma ClassifyAgreesWithTable(name: seq<char>)
    ensures Classify(name).PrimitiveClass? <==> name in PrimitiveNames
    ensures name in PrimitiveNames ==> Classify(name) == PrimitiveClass(PrimitiveNames[name])
  {
  }

  /** The collection names and every name the table does not list are looked up as symbols otherwise. */
  lemma ClassifyLooksUpTheRest(name: seq<char>)
    ensures Classify(name).SymbolClass? <==> name !in PrimitiveNames && name !in CollectionNames
  {
  }

  /** `bool` and `_Bool` name the same builtin type. */
  lemma BoolAndUnderscoreBoolAgree()
    ensures Classify("bool") == Classify("_Bool") == PrimitiveClass(Bool)
  {
  }

  /**
   * The `char*` branch of the chain is never taken for a parsed type: the
   * identifier scanner stops at `*`, so no type name holds one.
   */
  lemma {:induction false} CharStarNeverClassified(s: seq<char>, p: nat)
    requires TypeSpec(s, p).Ok?
    ensures Classify(TypeSpec(s, p).value.name) != PrimitiveClass(String)
  {
    var name := TypeSpec(s, p).value.name;
    OnlyCharStarIsString(name);
    if |name| == 5 {
      assert IsNameChar(name[4]);
    }
  }

  /** Only `char*` takes the string branch of the chain. */
  lemma OnlyCharStarIsString(name: seq<char>)
    ensures Classify(name) == PrimitiveClass(String) ==> name == "char*"
  {
  }

  // ---------------------------------------------------------------------------
  // Lookups
  // ---------------------------------------------------------------------------

  /** A lookup: the returned entity (Zero for 0) and the diagnostics logged on the way. */
  datatype Resolution = Resolved(entity: Entity, log: seq<Diag>) | Undefined

  /** The symbol looked up for a pointer type: `char *` is a string, anything else a uptr. */
  function PointerSymbol(name: seq<char>): (path: seq<char>)
    ensures path == "flecs.meta.string" <==> name == "char"
    ensures path != "flecs.meta.string" ==> path == "flecs.meta.uptr"
  {
    if name == "char" then "flecs.meta.string" else "flecs.meta.uptr"
  }

  /** The name an "unknown type" error quotes: the substituted symbol for a pointer. */
  function ReportedName(token: TypeToken): seq<char> {
    if token.isPtr then PointerSymbol(token.name) else token.name
  }

  /** A world in which the meta addon's string and uptr types are registered. */
  predicate StandardWorld(w: World) {
    "flecs.meta.string" in w && w["flecs.meta.string"] == Builtin(String)
    && "flecs.meta.uptr" in w && w["flecs.meta.uptr"] == Builtin(UPtr)
  }

  /**
   * flecs_meta_utils_lookup(world, token, ptr, count, ctx), where `at` is the
   * offset `ptr - ctx->desc` its error is logged at. A count other than 1 wraps
   * the type in a new array type; a type that comes out as 0 is an unknown type.
   */
  function Lookup(w: World, token: TypeToken, at: nat, count: int): (r: Resolution)
    ensures r.Resolved? && count != 1 ==> r.entity.ArrayOf? && r.entity.count == ToI32(count)
    ensures r.Resolved? && r.entity == Zero ==>
              |r.log| > 0 && r.log[|r.log| - 1] == Diag(Some(at), UnknownType(ReportedName(token)))
    ensures !token.isPtr && Classify(token.name).PrimitiveClass? && count == 1 ==>
              r == Resolved(Builtin(Classify(token.name).prim), [])
    ensures token.isPtr ==> r.Resolved? && |r.log| <= 1
    decreases |token.params|, 1
  {
    var found :=
      if token.isPtr then Resolved(Resolve(w, PointerSymbol(token.name)), [])
      else match Classify(token.name)
        case ArrayClass => LookupArray(w, token.params)
        case VectorClass => LookupVector(w, token.params)
        case BitmaskClass => LookupBitmask(w, token.params)
        case PrimitiveClass(prim) => Resolved(Builtin(prim), [])
        case SymbolClass => Resolved(Resolve(w, token.name), []);
    match found
    case Undefined => Resolution.Undefined
    case Resolved(e, log) =>
      var typ := if count != 1 then ArrayOf(e, ToI32(count)) else e;
      if typ == Zero then Resolved(Zero, log + [Diag(Some(at), UnknownType(ReportedName(token)))])
      else Resolved(typ, log)
  }

  /**
   * flecs_meta_utils_lookup_array on the parameter text `t` of `ecs_array(T, N)`:
   * the size must be given and not 0; the element type is looked up as a symbol
   * and a missing one is logged but still gives an array (of 0).
   */
  function LookupArray(w: World, t: seq<char>): (r: Resolution)
    ensures r.Resolved? && r.entity != Zero ==>
              var params := CollectionSpec(t);
              params.Ok? && params.value.size.Some? && params.value.size.value > 0
              && r.entity == ArrayOf(Resolve(w, params.value.elem.name), ToI32(params.value.size.value))
    ensures r.Resolved? ==> |r.log| <= 1
    ensures r.Resolved? && r.entity == Zero ==> |r.log| == 1
    ensures var params := CollectionSpec(t);
      params.Ok? && params.value.size.Some? && params.value.size.value != 0 ==>
        var elem := Resolve(w, params.value.elem.name);
        r.Resolved? && r.entity == ArrayOf(elem, ToI32(params.value.size.value))
        && (r.log == [Diag(None, UnknownElementType(params.value.elem.name))] <==> elem == Zero)
        && (elem != Zero <==> r.log == [])
    decreases |t|, 0
  {
    match CollectionSpec(t)
    case Undefined => Resolution.Undefined
    case Err(d) => Resolved(Zero, [d])
    case Ok(_, params) =>
      if params.size.None? then Resolved(Zero, [Diag(None, MissingArraySize)])
      else if params.size.value == 0 then Resolved(Zero, [Diag(None, InvalidArraySize)])
      else
        var elem := Resolve(w, params.elem.name);
        var log := if elem == Zero then [Diag(None, UnknownElementType(params.elem.name))] else [];
        Resolved(ArrayOf(elem, ToI32(params.size.value)), log)
  }

  /**
   * flecs_meta_utils_lookup_vector on the parameter text of `ecs_vector(T)`: a
   * key/value list is refused; the element type gets a full lookup (reported at
   * offset 0 of the parameter text), and the vector is created even when that
   * lookup gives 0.
   */
  function LookupVector(w: World, t: seq<char>): (r: Resolution)
    ensures r.Resolved? && r.entity != Zero ==>
              r.entity.VectorOf? && CollectionSpec(t).Ok? && CollectionSpec(t).value.key.None?
    ensures r.Resolved? && r.entity == Zero ==> |r.log| == 1
    decreases |t|, 0
  {
    match CollectionSpec(t)
    case Undefined => Resolution.Undefined
    case Err(d) => Resolved(Zero, [d])
    case Ok(_, params) =>
      if params.key.Some? then Resolved(Zero, [Diag(None, KeyValueForVector)])
      else match Lookup(w, params.elem, 0, 1)
        case Undefined => Resolution.Undefined
        case Resolved(e, log) => Resolved(VectorOf(e), log)
  }

  /**
   * flecs_meta_utils_lookup_bitmask on the parameter text of `flecs::bitmask(T)`:
   * neither a key/value list nor a size is accepted, and the result is the lookup
   * of the element type itself.
   */
  function LookupBitmask(w: World, t: seq<char>): (r: Resolution)
    ensures r.Resolved? && r.entity != Zero ==>
              var params := CollectionSpec(t);
              params.Ok? && params.value.key.None? && params.value.size.None?
              && r == Lookup(w, params.value.elem, 0, 1)
    ensures var params := CollectionSpec(t);
      params.Ok? && params.value.key.None? && params.value.size.None? ==> r == Lookup(w, params.value.elem, 0, 1)
    decreases |t|, 0
  {
    match CollectionSpec(t)
    case Undefined => Resolution.Undefined
    case Err(d) => Resolved(Zero, [d])
    case Ok(_, params) =>
      if params.key.Some? then Resolved(Zero, [Diag(None, KeyValueForBitmask)])
      else if params.size.Some? then Resolved(Zero, [Diag(None, SizeForBitmask)])
      else Lookup(w, params.elem, 0, 1)
  }

  // ---------------------------------------------------------------------------
  // Properties of the lookup
  // ---------------------------------------------------------------------------

  /**
   * A name that is neither builtin nor a collection, and that the world knows
   * as a nonzero entity, resolves to that entity with nothing logged: the path
   * of every user-defined member type.
   */
  lemma FoundSymbolResolves(w: World, token: TypeToken, at: nat)
    requires !token.isPtr && Classify(token.name).SymbolClass?
    requires token.name in w && w[token.name] != Zero
    ensures Lookup(w, token, at, 1) == Resolved(w[token.name], [])
  {
  }

  /** `int32_t` is the builtin i32 type, whatever the world holds, and nothing is logged. */
  lemma Int32IsBuiltin(w: World, at: nat)
    ensures Lookup(w, TypeToken("int32_t", [], false, false), at, 1) == Resolved(Builtin(I32), [])
  {
    var name := "int32_t";
    assert name != "int16_t" by { assert name[4] != "int16_t"[4]; }
    assert name != "uint8_t" by { assert name[0] != "uint8_t"[0]; }
    assert Classify(name) == PrimitiveClass(I32);
  }

  /**
   * In a world with the meta addon's types, a pointer is a uptr, except a
   * pointer to `char`, which is a string; the lookup then logs nothing.
   */
  lemma PointersAreStringOrUPtr(w: World, token: TypeToken, at: nat)
    requires StandardWorld(w) && token.isPtr
    ensures Lookup(w, token, at, 1) == Resolved(Builtin(if token.name == "char" then String else UPtr), [])
  {
  }

  /** A name that is neither builtin, nor a collection, nor a known symbol is an unknown type. */
  lemma UnknownNameIsReported(w: World, token: TypeToken, at: nat)
    requires !token.isPtr && Classify(token.name).SymbolClass? && token.name !in w
    ensures Lookup(w, token, at, 1) == Resolved(Zero, [Diag(Some(at), UnknownType(token.name))])
  {
  }

  /**
   * With a count other than 1 the lookup wraps the type the count-1 lookup
   * resolves, 0 included, in an array of the i32 cast of the count, so it never
   * fails with "unknown type".
   */
  lemma CountWrapsInArray(w: World, token: TypeToken, at: nat, count: int)
    requires count != 1 && Lookup(w, token, at, count).Resolved?
    ensures Lookup(w, token, at, count).entity.ArrayOf?
    ensures Lookup(w, token, at, count).entity.count == ToI32(count)
    ensures Lookup(w, token, at, 1).Resolved?
    ensures Lookup(w, token, at, count).entity == ArrayOf(Lookup(w, token, at, 1).entity, ToI32(count))
    ensures Lookup(w, token, at, count).log == Lookup(w, token, at, 1).log
              || Lookup(w, token, at, 1).entity == Zero
  {
  }

  /**
   * A vector is created around whatever the full lookup of its element type
   * gives, 0 included, and it keeps that lookup's diagnostics.
   */
  lemma VectorWrapsElementLookup(w: World, t: seq<char>)
    requires CollectionSpec(t).Ok? && CollectionSpec(t).value.key.None?
    requires Lookup(w, CollectionSpec(t).value.elem, 0, 1).Resolved?
    ensures LookupVector(w, t) == Resolved(
              VectorOf(Lookup(w, CollectionSpec(t).value.elem, 0, 1).entity),
              Lookup(w, CollectionSpec(t).value.elem, 0, 1).log)
  {
  }
}
