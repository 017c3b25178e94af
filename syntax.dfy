/**
 * The values the scanners of the C type-description parser exchange: the
 * diagnostics that ecs_meta_error logs, the outcome of each scanning step, and the
 * token structs the scanners fill through their out-parameters.
 */
module Syntax {
  import opened CText

  /** One message of ecs_meta_error; the text of each is given beside it. */
  datatype ErrorKind =
    | MaxNesting                   // "maximum level of nesting reached"
    | Mismatching(c: char)         // "mismatching %c in identifier"
    | InvalidIdentifier(c: char)   // "invalid identifier (starts with '%c')"
    | UnexpectedChar(c: char)      // "unexpected %c"
    | UnexpectedEndOfToken         // "unexpected end of token"
    | MissingOpenBrace             // "missing '{' in struct definition"
    | MissingCloseBrace            // "missing '}' at end of struct definition"
    | StrayCharacters              // "stray characters after struct definition"
    | MissingComma                 // "missing , after enum constant"
    | MissingCloseBracket          // "missing ']'"
    | DynamicSizeArray             // "dynamic size arrays are not supported"
    | MissingSemicolon             // "missing ; after member declaration"
    | ExpectedOpenParen            // "expected '(' at start of collection definition"
    | ExpectedCloseParen           // "expected ')' at end of collection definition"
    | MissingArraySize             // "missing size for array"
    | InvalidArraySize             // "invalid array size"
    | UnknownElementType(name: seq<char>)  // "unknown element type '%s'"
    | KeyValueForVector            // "unexpected key value parameters for vector"
    | KeyValueForBitmask           // "unexpected key value parameters for bitmask"
    | SizeForBitmask               // "unexpected size for bitmask"
    | UnknownType(name: seq<char>) // "unknown type '%s'"
    | BitmaskRequiresValue         // "bitmask requires explicit value assignment"

  /** The errors flecs_meta_utils_open_scope reports, the only ones that set `*error`. */
  predicate IsScopeError(k: ErrorKind) {
    k.MissingOpenBrace? || k.MissingCloseBrace? || k.StrayCharacters?
  }

  /**
   * A logged diagnostic: the byte offset `ptr - ctx->desc` and the message.
   * The offset is None where the C code subtracts two pointers into different
   * buffers (a position in a parameter buffer minus the start of the description),
   * which has no defined value.
   */
  datatype Diag = Diag(offset: Option<nat>, kind: ErrorKind)

  /**
   * The result of a scanner that returns a pointer or NULL: `Ok` carries the
   * returned position and what was written to the out-parameter, `Err` the
   * diagnostic logged before NULL was returned, and `Undefined` stands for the
   * paths on which the C code goes on with a null pointer (undefined behaviour).
   */
  datatype Scan<+T> = Ok(next: nat, value: T) | Err(diag: Diag) | Undefined

  /**
   * The result of a scanner that also reports through a `bool *error` out-parameter
   * (flecs_meta_utils_open_scope and the member and constant scanners built on it):
   * `Next` is a returned pointer with the filled token, `AtEnd` a returned pointer
   * to the terminator before any member name was read, `Null` a returned NULL with
   * the logged diagnostic (if any) and the value left in `*error`.
   */
  datatype Step<+T> =
    | Next(next: nat, token: T)
    | AtEnd(at: nat)
    | Null(log: Option<Diag>, error: bool)
    | Undefined

  function LogOf(d: Option<Diag>): (log: seq<Diag>)
    ensures |log| <= 1
    ensures d.Some? ==> log == [d.value]
    ensures d.None? ==> log == []
  {
    if d.Some? then [d.value] else []
  }

  /** The identifier scanned by parse_c_identifier: the name and the last bracketed parameter text. */
  datatype Ident = Ident(name: seq<char>, params: seq<char>)

  /** flecs_meta_utils_type_t. */
  datatype TypeToken = TypeToken(name: seq<char>, params: seq<char>, isConst: bool, isPtr: bool)

  /** flecs_meta_utils_member_t (is_partial is never read in this file and is left out). */
  datatype MemberToken = MemberToken(typ: TypeToken, name: seq<char>, count: int)

  /** flecs_meta_utils_constant_t: `value` is Some exactly when is_value_set. */
  datatype ConstantToken = ConstantToken(name: seq<char>, value: Option<int>)

  /**
   * flecs_meta_utils_params_t: `key` is Some exactly when is_key_value, `size` is
   * Some exactly when is_fixed_size.
   */
  datatype CollectionParams = CollectionParams(elem: TypeToken, key: Option<TypeToken>, size: Option<int>)
}
