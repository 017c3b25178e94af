# flecs meta: the C type-description parser

This project models the parser in flecs's meta addon that turns a C-like
description of a type into reflection data (`src/addons/meta/c_utils.c`):

- a struct body such as `{ int32_t x; int32_t y[4]; }` becomes member entities,
  each with a type entity and an element count;
- an enum or bitmask body such as `{ RED = 1, GREEN, BLUE = 5 }` becomes constant
  entities, with implicit values counting on from the previous one;
- the parameters of a collection type, `(T)`, `(T, N)` or `(K, V)`, are parsed by
  `flecs_meta_utils_parse_desc`;
- type names are resolved to the builtin primitive types, to the string and uptr
  types for pointers, to array, vector and bitmask types, or to a symbol of the world;
- `ecs_meta_from_desc` dispatches on the kind of the type.

The text is a `seq<char>` and a `const char *` into it is an index; reading past
the end gives `'\0'`, so the end of the sequence and an embedded NUL both act as
the C terminator. Each scanner that fills a token through an out-parameter and
returns the advanced pointer or NULL (`skip_scope`, `parse_c_identifier`,
`parse_constant`, `parse_type`, `parse_member`, `parse_desc`) is a method proved
equal to a function that specifies it; the loops of `parse_struct` and
`parse_constants` are methods whose loop invariant ties their state to the
specification function of the remaining text. Results are `Ok`/`Next` with the
new index and the token, `Err`/`Null` with a diagnostic whose offset is the
`ptr - desc` that `ecs_meta_error` reports, or `Undefined` where the C code goes
on with a NULL pointer. What the world would record becomes returned data: the
members or constants registered, in order, the diagnostics logged, whether the
scope was set back, and the member entity left without a type when its lookup
fails. `ecs_lookup_symbol` is a map from name to entity.

Modules: `CText` (C string view, white space, strchr, strtol, atoi, the 32-bit
casts), `Syntax` (diagnostics and token types), `Scope` (skip_scope),
`Identifier` (parse_c_identifier), `Tokens` (open_scope, parse_c_digit,
parse_constant, parse_type, parse_member, parse_desc), `TypeLookup` (the lookup
family), `Registry` (what a parse registers), `Structs` (parse_struct),
`Constants` (parse_constants, parse_enum, parse_bitmask) and `FromDesc`
(ecs_meta_from_desc).

The example bodies `{ int32_t x; int32_t y; }`, `{ int32_t x[4]; }`,
`{ int32_t x int32_t y; }`, `{ RED, GREEN, BLUE }` and `{ RED = 1, GREEN, BLUE = 5 }`
are worked through to their full result (`Structs.TwoMembersRegistered`,
`Structs.ArrayMemberRegistered`, `Structs.NoSemicolonRegistersNothing`,
`Constants.ColorsCountFromZero`, `Constants.SpacedValuesCountOn`).

Behaviour of the code as written that a reader might not expect, all modelled as written:

- A malformed member or constant (a missing `;`, a missing `]`, a bad name, a
  missing `,`) is logged, but `open_scope` has already set `*error` to false, so
  `parse_struct` and `parse_constants` return 0. `{ int32_t x int32_t y; }` logs
  "missing ; after member declaration" and returns 0 with no member registered;
  it does not return -1 (`Structs.MemberErrorReturnsZero`).
- The `{` check only applies when the text does not start with white space.
- A member whose declaration ends the text (`{ int32_t x;`) is not registered:
  the loop stops when `parse_member` returns a pointer to the terminator, so the
  missing `}` is never reported either, and the parse returns 0 with nothing
  logged (`Structs.UnclosedBodyReportsNothing`).
- The "dynamic size arrays are not supported" branch can never be taken, and
  `x [];` declares `x` with a count of 0 (`Tokens.DynamicSizeNeverReported`,
  `Tokens.EmptyBracketsCountZero`).
- A bitmask constant without a value ends the parse with -1 and leaves the scope
  of the bitmask current; so does a member whose type is unknown.
- `=` does not end an identifier, so a value must be set off by white space:
  `{ RED = 1, GREEN, BLUE = 5 }` counts 1, 2, 5, but `{ RED=1, GREEN, BLUE=5 }`
  registers constants named `RED=1`, `GREEN` and `BLUE=5` with the values 0, 1, 2.
  Examples of the parser's use that expect 1, 2, 5 for the second spelling do
  not match the code, and the model follows the code (`Constants.JoinedValuesBecomeNames`,
  `Constants.SpacedValuesCountOn`).
- In the pointer branch of `flecs_meta_utils_lookup` the `char*` and
  `flecs::string` test is never reached, and the `char*` test of the non-pointer
  chain can never match a parsed type name, since identifiers stop at `*`.

## Model

| member | source | states |
|---|---|---|
| Scope.SkipScope | src/addons/meta/c_utils.c:51-86 | the scan over a 256-entry stack array with stack pointer `sp` returns exactly what SkipScopeSpec gives |
| Scope.SkipScopeSpec | src/addons/meta/c_utils.c:51-86 | skip_scope is never undefined; from a non-terminator it moves forward and stays within the text, a non-bracket character alone is skipped by one; an error lies within the text at or after the start |
| Scope.SkipScopeClosesFirstOpener | src/addons/meta/c_utils.c:57-83 | from an opener, success stops just after the first closer that brings the bracket depth back to zero (a closer of the opener's kind) or at the terminator with the group still open, and the text skipped is well nested by kind: every closer closes the bracket opened last at the depth it returns to, and fewer than 256 brackets are open; a failure is either "maximum level of nesting" at the opener that makes the depth 256 or "mismatching" at a closer that does not close its own opener, with the text before it well nested |
| Scope.SkipScopeSkipsGroup | src/addons/meta/c_utils.c:57-83 | conversely, a well-nested group that is closed, or cut off by the terminator, is skipped whole |
| Scope.SkipScopeReportsMismatch | src/addons/meta/c_utils.c:66-73 | conversely, the first closer that does not close its own opener, after a well-nested stretch, is reported as "mismatching" at its position |
| Scope.SkipScopeReportsNesting | src/addons/meta/c_utils.c:59-64 | conversely, the opener that makes the depth 256 after a well-nested stretch is reported as "maximum level of nesting" at its position |
| Scope.WrongKindInsideGroup | src/addons/meta/c_utils.c:66-73 | in `((>)` the `>` closes a `(`, so the scan fails there with "mismatching" although the depth is still positive |
| Identifier.ParseIdentifier | src/addons/meta/c_utils.c:108-165 | the copy loop over `bptr` and the params buffer returns exactly what IdentifierSpec gives |
| Identifier.IdentifierSpec | src/addons/meta/c_utils.c:125-160 | "invalid identifier" at the first non-blank character exactly when it is neither a letter nor `_`; on success the identifier stops at white space or one of `; , ) > } *`, starts with that first character and holds only name characters; without a params buffer the name is exactly the text scanned and the params are empty; an undefined result needs a params buffer |
| Identifier.IdentLoop | src/addons/meta/c_utils.c:138-160 | the loop only fails with "unexpected end of token" at the terminator, or "unexpected" at a bracket when there is no params buffer; it only appends name characters, and appends exactly the text it passes when there is no params buffer |
| Identifier.IdentLoopCopiesRun | src/addons/meta/c_utils.c:133-160 | over a run of name characters that ends at a stop character the loop copies exactly that run and stops at its end |
| Identifier.ScansWord | src/addons/meta/c_utils.c:108-165 | a word that starts with a letter or `_` after the white space is returned as the identifier, ending where the word ends, with no parameters |
| Identifier.WordRunsOut | src/addons/meta/c_utils.c:133-160 | a name whose run of name characters reaches the terminator (the end of the text or an embedded NUL) is "unexpected end of token" at that terminator |
| Identifier.BracketWithoutParams | src/addons/meta/c_utils.c:133-141 | without a params buffer, a `(` or `<` right after the run of name characters is "unexpected" at that bracket |
| Identifier.TypeNameWithGroup | src/addons/meta/c_utils.c:133-163 | with a params buffer, a name followed by a bracket group that skip_scope skips and then a stop character is returned with the name before the bracket and the whole group, brackets included, as the parameter text, stopping after the group |
| Tokens.OpenScope | src/addons/meta/c_utils.c:168-210 | open_scope returns a position that holds neither `}` nor white space, or NULL; NULL with `*error` set exactly when a diagnostic is logged, and that diagnostic is one of the scope errors |
| Tokens.OpenScopeEnds | src/addons/meta/c_utils.c:173-209 | a text that does not start with `{` is "missing '{'" at offset 0 with `*error` set; otherwise, at the next non-blank character, the terminator is "missing '}'" there, a `}` followed by more than white space is "stray characters" where that text starts, both with `*error` set, and any other character is returned; the parse ends quietly (NULL, no error, nothing logged) exactly when that character is a `}` followed only by white space |
| Tokens.ParseCDigit | src/addons/meta/c_utils.c:88-105 | parse_c_digit succeeds exactly when the first non-blank character starts a number (a digit or `-`), and then returns a later position in the text that holds no white space |
| Tokens.ExpectCommaOrBrace | src/addons/meta/c_utils.c:245-255 | after a constant a `,` is consumed and a `}` is left in place; anything else is "missing , after enum constant" with `*error` false |
| Tokens.ConstantSpec | src/addons/meta/c_utils.c:213-258 | parse_constant never returns the "end of text before a name" result that parse_member has; when it returns a constant it has advanced, at most to the end of the text (`{ RED,` returns a pointer to the terminator), and the name is not empty; a NULL with `*error` set comes with a scope error |
| Tokens.ConstantValue | src/addons/meta/c_utils.c:232-249 | after the name, a constant carries that name and ends after a `,` or at a `}`; otherwise the only error is "missing , after enum constant" |
| Tokens.DecimalNumber | src/addons/meta/c_utils.c:88-105 | a number whose first digit is 1 to 9 is its whole run of digits read in decimal (clamped to 64 bits), and parse_c_digit stops after the white space behind it |
| Tokens.NegativeNumber | src/addons/meta/c_utils.c:88-105 | a `-` followed by a digit 1 to 9 is the negated decimal value of the digits after it |
| Tokens.OctalNumber | src/addons/meta/c_utils.c:88-105 | a number with a leading 0 is octal: `010` reads as 8 |
| Tokens.OctalStopsAtNine | src/addons/meta/c_utils.c:88-105 | an octal number stops at the first 8 or 9: `019` reads as 1 |
| Tokens.OneDigitNumber | src/addons/meta/c_utils.c:88-105 | a one-digit number other than 0 reads as the value of that digit, and parse_c_digit stops after the white space behind it |
| Tokens.ConstantWord | src/addons/meta/c_utils.c:213-231 | a constant name that is a plain word is read up to the first stop character, so parsing goes on with that name after it |
| Tokens.UnvaluedConstant | src/addons/meta/c_utils.c:213-258 | a constant word with no `=` after it is returned without a value, and `,` or `}` must follow |
| Tokens.ValuedConstant | src/addons/meta/c_utils.c:213-258 | a constant word followed by `=` and a number is returned with that number as its value, and `,` or `}` must follow the number |
| Tokens.TypeSpec | src/addons/meta/c_utils.c:261-302 | parse_type advances within the text and gives a non-empty name of name characters; ECS_PRIVATE (not after `const`) moves to the end of the text; an error is the error of the identifier scanner |
| Tokens.TypeTokenFields | src/addons/meta/c_utils.c:261-302 | `is_const` is set exactly when the first identifier is `const`; the name and parameters are those of the identifier read, the one after `const` when there is one |
| Tokens.TypeTokenPointer | src/addons/meta/c_utils.c:277-296 | `is_ptr` is set exactly when a `*` follows the identifier read (the one after `const` when there is one) after white space, apart from ECS_PRIVATE |
| Tokens.ExpectSemicolon | src/addons/meta/c_utils.c:373-379 | a `;` is consumed exactly when present; otherwise "missing ; after member declaration" at that position |
| Tokens.ArraySuffix | src/addons/meta/c_utils.c:340-379 | an accepted member ends just after a `;`, keeps its type, and its name holds no `[`; a count other than 1 needs a `[` in the name or right after it |
| Tokens.PlainMemberCountsOne | src/addons/meta/c_utils.c:316-379 | with no `[` in or after the name the count is 1 and the `;` must follow the name |
| Tokens.BracketInNameGivesCount | src/addons/meta/c_utils.c:340-371 | a name `base[tail` with a `]` in the tail is cut at the `[`, its count is atoi of the text after the `[`, and the `;` must follow |
| Tokens.BracketAfterNameGivesCount | src/addons/meta/c_utils.c:344-366 | a `[` after the name closed by a `]` gives the count atoi of the text after the `[`, and the `;` must follow the `]` |
| Tokens.UnclosedBracketFails | src/addons/meta/c_utils.c:352-355 | a `[` after the name with no `]` before the end of the text is "missing ']'" |
| Tokens.UnclosedBracketInName | src/addons/meta/c_utils.c:340-355 | a `[` inside the name with no `]` after it in the name is "missing ']'", whatever follows the name |
| Tokens.UnclosedFourInName | src/addons/meta/c_utils.c:340-355 | the name `x[4` read from `int32_t x[4;` is "missing ']'" |
| Tokens.DynamicSizeNeverReported | src/addons/meta/c_utils.c:357-360 | the "dynamic size arrays are not supported" error is never produced |
| Tokens.EmptyBracketsCountZero | src/addons/meta/c_utils.c:357-366 | `x [];` declares `x` with a count of 0 |
| Tokens.SpacedArrayOfFour | src/addons/meta/c_utils.c:344-379 | `x [4];` declares `x` with a count of 4 |
| Tokens.JoinedArrayOfFour | src/addons/meta/c_utils.c:340-379 | `x[4];` declares `x` with a count of 4, the same as `x [4];` |
| Tokens.MissingSemicolonReported | src/addons/meta/c_utils.c:373-379 | a member name followed by neither `[` nor `;` is "missing ; after member declaration" at the next non-blank character, with `*error` false |
| Tokens.TypeOfWord | src/addons/meta/c_utils.c:261-302 | a plain word other than `ECS_PRIVATE` and `const`, not followed by `*`, is the type, and parsing goes on after the white space behind it |
| Tokens.MemberOfWords | src/addons/meta/c_utils.c:305-340 | a member `type name` of two plain words is read as that type and that name, and what follows the name decides the count and the `;` |
| Tokens.Int32Member | src/addons/meta/c_utils.c:305-382 | `int32_t c;` is a member `c` of type `int32_t` with a count of 1, and parsing goes on after the `;` |
| Tokens.Int32ArrayMember | src/addons/meta/c_utils.c:305-382 | `int32_t x[4];` is one member `x` of type `int32_t` with a count of 4, and parsing goes on after the `;` |
| Tokens.Int32MemberWithoutSemicolon | src/addons/meta/c_utils.c:305-382 | `int32_t x` followed by another word is "missing ; after member declaration" where that word starts, with `*error` false |
| Tokens.MemberSpec | src/addons/meta/c_utils.c:305-382 | parse_member advances within the text and returns a name without `[`; a NULL with `*error` set comes with a scope error |
| Tokens.ExpectClose | src/addons/meta/c_utils.c:434-440 | the parameter list is accepted exactly when it stands at `)` or `>`, and otherwise "expected ')'" is reported there |
| Tokens.CollectionSpec | src/addons/meta/c_utils.c:385-443 | parse_desc succeeds only on a list that opens with `(` or `<` and stands at `)` or `>` at the end; it never gives both a key type and a size, and a size is not negative; a list that does not open with a bracket is "expected '('" at its first non-blank character |
| Tokens.CollectionAfterFirst | src/addons/meta/c_utils.c:393-408 | after the opening bracket the first type is read; when it is read the list goes on after it with T as that type, and when it fails parse_desc fails with the same result |
| Tokens.RestOfElement | src/addons/meta/c_utils.c:408-440 | `(T)`: with no `,` after the first type the element type is T with neither key type nor size, and the list must then stand at `)` or `>` |
| Tokens.RestIsSecond | src/addons/meta/c_utils.c:410-412 | a `,` after the first type moves on to the next non-blank character after it |
| Tokens.SecondIsSize | src/addons/meta/c_utils.c:414-422 | `(T, N)`: a digit after the `,` gives element type T and the size parse_c_digit reads there, and the list must then stand at `)` or `>` after it |
| Tokens.SecondIsElement | src/addons/meta/c_utils.c:423-440 | `(K, V)`: any other text after the `,` gives key type K and the second type read as element type, and the list must stand at `)` or `>` after the white space behind it; a second type that is not read leaves the result undefined |
| Tokens.FixedSize | src/addons/meta/c_utils.c:414-422 | at a digit parse_c_digit cannot fail and the size it reads is not negative |
| TypeLookup.ClassifyAgreesWithTable | src/addons/meta/c_utils.c:600-656 | the chain of name tests gives a builtin type exactly for the seventeen C type names with one, and the builtin type listed for that name |
| TypeLookup.ClassifyLooksUpTheRest | src/addons/meta/c_utils.c:600-656 | a name is looked up as a symbol exactly when it is neither a builtin type name nor a collection name |
| TypeLookup.BoolAndUnderscoreBoolAgree | src/addons/meta/c_utils.c:618-621 | `bool` and `_Bool` give the same builtin type |
| TypeLookup.Int32IsBuiltin | src/addons/meta/c_utils.c:627-628 | `int32_t` with a count of 1 is the builtin i32 type, and nothing is logged |
| TypeLookup.CharStarNeverClassified | src/addons/meta/c_utils.c:652-653 | no type name parse_type returns takes the `char*` branch |
| TypeLookup.PointerSymbol | src/addons/meta/c_utils.c:657-671 | a pointer to `char` is looked up as flecs.meta.string and every other pointer as flecs.meta.uptr |
| TypeLookup.Lookup | src/addons/meta/c_utils.c:584-687 | a count other than 1 gives an array of the i32 cast of the count; a 0 result has "unknown type" last in its log, quoting the looked-up name; a builtin name with count 1 gives its builtin type and logs nothing; a pointer lookup is always defined and logs at most once |
| TypeLookup.PointersAreStringOrUPtr | src/addons/meta/c_utils.c:657-671 | in a world with the meta types, a `char` pointer is the string type and every other pointer the uptr type, with nothing logged |
| TypeLookup.UnknownNameIsReported | src/addons/meta/c_utils.c:679-682 | a non-pointer name that is not builtin, not a collection and not a symbol gives 0 and "unknown type" at the member |
| TypeLookup.FoundSymbolResolves | src/addons/meta/c_utils.c:654-687 | a non-pointer name that is neither builtin nor a collection and that the world holds as a nonzero entity resolves, with a count of 1, to that entity with nothing logged |
| TypeLookup.CountWrapsInArray | src/addons/meta/c_utils.c:673-677 | with a count other than 1 the result is an array of the i32 cast of the count around exactly the type the count-1 lookup resolves, 0 included; the log is that of the count-1 lookup unless that one failed |
| TypeLookup.LookupArray | src/addons/meta/c_utils.c:454-497 | an array is created exactly for a parameter list with a size that is not 0: around the symbol of the element type and the i32 cast of the size, logging "unknown element type" exactly when that symbol is not found and nothing otherwise; every failure logs one diagnostic |
| TypeLookup.LookupVector | src/addons/meta/c_utils.c:500-534 | a vector is only created for a parameter list without a key type; a failure logs one diagnostic |
| TypeLookup.VectorWrapsElementLookup | src/addons/meta/c_utils.c:521-531 | a vector wraps whatever the full lookup of its element type gives, 0 included, and keeps that lookup's log |
| TypeLookup.LookupBitmask | src/addons/meta/c_utils.c:537-581 | a parameter list with neither key type nor size gives exactly the full lookup of the element type; any other list gives no bitmask type |
| Structs.StructSpec | src/addons/meta/c_utils.c:690-729 | parse_struct returns 0 or -1; 0 only with the scope set back and no member left without a type; every registered member has a type entity and a name without `[` |
| Structs.ParseStruct | src/addons/meta/c_utils.c:690-729 | the loop over parse_member and the lookup returns exactly what StructSpec gives |
| Structs.MissingOpenBraceFails | src/addons/meta/c_utils.c:176-182 | a struct body that does not start with `{` gives -1, "missing '{'" at offset 0 and no member |
| Structs.EmptyBodySucceeds | src/addons/meta/c_utils.c:193-203 | `{ }` with any white space gives 0, no member and nothing logged |
| Structs.MemberErrorReturnsZero | src/addons/meta/c_utils.c:706-726 | a member parse_member rejects after open_scope ends the parse with 0, its diagnostic logged, the members before it kept and the scope set back |
| Structs.StructMembersFollowStream | src/addons/meta/c_utils.c:690-729 | parse_struct registers the members parse_member returns, in order, each under its name with the type the lookup (count 1) finds and the i32 cast of its count, until a type is not found: then it returns -1, leaves that member's entity without a type and the scope not set back; when all are registered it returns -1 exactly when parse_member set `*error`, and sets the scope back |
| Structs.RegistersMember | src/addons/meta/c_utils.c:707-721 | an accepted member followed by more text whose type is found is registered with that type and the i32 cast of its count, the lookup's log is kept, and the loop goes on after it |
| Structs.UnknownTypeStops | src/addons/meta/c_utils.c:707-728 | a member whose type is not found ends the loop with -1, the lookup's log kept, that member's entity left without a type and the scope not set back |
| Structs.LastMemberAtEndDropped | src/addons/meta/c_utils.c:707-726 | a member whose declaration ends the text is not registered, and the loop ends with 0 |
| Structs.ClosingBraceEnds | src/addons/meta/c_utils.c:706-726 | a `}` followed only by white space ends the loop with 0, the members registered so far and the scope set back |
| Structs.TwoMembersRegistered | src/addons/meta/c_utils.c:690-729 | `{ int32_t x; int32_t y; }` gives 0 and the members `x` and `y`, both i32 with a count of 1, in that order, with nothing logged |
| Structs.ArrayMemberRegistered | src/addons/meta/c_utils.c:690-729 | `{ int32_t x[4]; }` gives 0 and one member `x` of type i32 with a count of 4 |
| Structs.NoSemicolonRegistersNothing | src/addons/meta/c_utils.c:690-729 | `{ int32_t x int32_t y; }` registers no member, logs "missing ; after member declaration" at offset 12 and returns 0 |
| Structs.UnclosedBodyReportsNothing | src/addons/meta/c_utils.c:690-729 | `{ int32_t x;` returns 0, registers nothing and logs nothing: the missing `}` is not reported |
| Constants.StripLeading | src/addons/meta/c_utils.c:769-779 | a name that starts with the C string of the prefix loses exactly that prefix, any other name is kept |
| Constants.StripsPrefixThenTypeName | src/addons/meta/c_utils.c:769-779 | a constant spelled prefix, type name, rest is registered as the rest |
| Constants.TypeNameBeforePrefixKeepsPrefix | src/addons/meta/c_utils.c:769-779 | a constant spelled type name, prefix, rest keeps the prefix: the type name is stripped only after the prefix |
| Constants.Stored | src/addons/meta/c_utils.c:785-791 | a bitmask value is stored as a u32 and an enum value as an i32 |
| Constants.ConstantsSpec | src/addons/meta/c_utils.c:732-801 | parse_constants returns 0 or -1, 0 only with the scope set back, and never leaves an entity without a value |
| Constants.ParseConstants | src/addons/meta/c_utils.c:732-801 | the loop over parse_constant with `last_value` and the in-place name stripping returns exactly what ConstantsSpec gives |
| Constants.EnumSpec | src/addons/meta/c_utils.c:804-816 | an enum parse always sets the scope back |
| Constants.BitmaskSpec | src/addons/meta/c_utils.c:819-826 | a bitmask parse never leaves an entity without a value |
| Constants.Registered | src/addons/meta/c_utils.c:760-794 | an enum registers one constant per token and a bitmask one per token of its leading run of valued tokens |
| Constants.RegisterFollows | src/addons/meta/c_utils.c:760-794 | the loop registers, after the constants before it, exactly the constants Registered describes for the tokens it meets; a bitmask token without a value ends it with -1, the scope left current and "bitmask requires explicit value assignment" last in the log |
| Constants.ImplicitValuesCountOn | src/addons/meta/c_utils.c:760-793 | `RED, GREEN, BLUE` counts 0, 1, 2 and `RED = 1, GREEN, BLUE = 5` counts 1, 2, 5 |
| Constants.EnumValuesFollowStream | src/addons/meta/c_utils.c:760-794 | an enum registers every constant parse_constant returns, in order, the `j`th under its stripped name and with the i32 cast of its explicit value or of one more than the value before it, counting from 0 |
| Constants.BitmaskValuesAreExplicit | src/addons/meta/c_utils.c:760-794 | a bitmask registers its leading valued constants under their stripped names with the u32 cast of their value; a constant without a value after them gives -1 and "bitmask requires explicit value assignment" |
| Constants.RegistersThree | src/addons/meta/c_utils.c:760-801 | three constants followed by the end of the body are registered as an enum in order, each under its stripped name with its explicit value or one more than the value before it, and the status is 0 |
| Constants.ColorsCountFromZero | src/addons/meta/c_utils.c:732-816 | the enum `{ RED, GREEN, BLUE }` registers RED, GREEN and BLUE with the values 0, 1 and 2 and returns 0 |
| Constants.SpacedValuesCountOn | src/addons/meta/c_utils.c:732-816 | the enum `{ RED = 1, GREEN, BLUE = 5 }` registers RED = 1, GREEN = 2 and BLUE = 5 and returns 0 |
| Constants.JoinedValuesBecomeNames | src/addons/meta/c_utils.c:732-816 | the enum `{ RED=1, GREEN, BLUE=5 }` registers constants named `RED=1`, `GREEN` and `BLUE=5` with the values 0, 1 and 2 |
| FromDesc.ErrorStatus | src/addons/meta/c_utils.c:836-861 | a nonzero status of a body parser becomes -1 and 0 stays 0 |
| FromDesc.FromDescSpec | src/addons/meta/c_utils.c:828-863 | ecs_meta_from_desc returns 0 or -1; it throws exactly for an invalid kind; primitive, array, vector and opaque kinds return 0 without parsing; only struct, enum and bitmask kinds can return -1 |
| FromDesc.StructStatusPassesThrough | src/addons/meta/c_utils.c:835-839 | for a struct kind the status, members and log are those of parse_struct |
| FromDesc.EnumStatusPassesThrough | src/addons/meta/c_utils.c:840-844 | for an enum kind the status, constants and log are those of parse_enum |
| FromDesc.BitmaskStatusPassesThrough | src/addons/meta/c_utils.c:845-849 | for a bitmask kind the status, constants and log are those of parse_bitmask |
| FromDesc.EnumDescriptionValues | src/addons/meta/c_utils.c:840-844 | for an enum kind the constants are those parse_constant returns, in order, with their stripped names and counted i32 values |

## Left out

- World side effects are returned data: `ecs_entity`, `ecs_set`, `ecs_set_pair_second`, `ecs_insert`, `ecs_new` and `ecs_add` become the returned members, constants and entity values; entities are not shared, so a name registered twice appears twice.
- `ecs_set_scope` is recorded only as whether the old scope is set back; `ecs_get_name` and the world name prefix are the parameters of `Constants.Naming`.
- `ecs_lookup_symbol` is a map from name to entity; the types a lookup creates are values recording their element type and count.
- `flecs_parse_ws_eol`, `flecs_parse_digit`, `strtol` and `atoi` are not part of this model; they are modelled on their C meaning: skip `isspace` characters; an optional `-` and a run of decimal digits; base 0 conversion (a leading 0 reads octal) saturating to 64 bits; decimal atoi.
- The 256-byte token buffers, the 24-byte number buffer and the unchecked `bptr` writes: names and parameter texts are unbounded sequences, so an overlong identifier is not an overflow here.
- CText.Atoi: is unbounded, while C's atoi returns an `int` and is undefined for a count outside its range; a count that large is carried whole up to the i32 cast at registration.
- `last_value` is unbounded: the int64 increment does not wrap; only the casts at registration are modelled.
- `ecs_check`, `ecs_assert` and `ecs_throw`: an invalid kind is the `Thrown` outcome; otherwise the model follows a FLECS_NDEBUG build, in which every `ecs_check` (c_utils.c:490, 569, 574-575, 674) does nothing. So the count bound checks and the bitmask checks (c_utils.c:569-576) are left out: for `flecs::bitmask(T)` with an unknown T, "unknown type" is logged once for T and once for the outer name.
- The message texts of `ecs_parser_error` and `ctx->name` are not modelled: a diagnostic is an error kind (with the name it quotes) and an offset, `None` where the C code subtracts pointers into different buffers.
- `is_partial` of the member token is written but never read and is left out.
- The EcsEnum and EcsBitmask components that `parse_enum` and `parse_bitmask` add before parsing are left out.
- `float` and `double` are only names mapped to builtin types.
- Paths where the C code goes on with a NULL pointer (a failing skip_scope inside an identifier, `const` without a type, `=` without a number, a key type without an element type) are an explicit `Undefined` result, not a behaviour.
- Offsets: the C offsets are byte offsets, while here each `char` is one Unicode code point, so on text outside ASCII the offsets differ; and C's `isalpha`/`isspace` on a negative `char` (a byte of a multi-byte character) is undefined, while `IsAlpha` and `IsSpace` here only accept ASCII letters and white space.
- `include/flecs/private/table.h` is not part of this model: it holds declarations only.
