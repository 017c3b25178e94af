/**
 * The token scanners of the C type-description parser: the opening of each
 * declaration (flecs_meta_utils_open_scope), numbers (parse_c_digit), enum
 * constants, member types, member declarations and collection parameters
 * (flecs_meta_utils_parse_desc).
 *
 * Each C scanner fills a token struct through an out-parameter and returns the
 * advanced pointer or NULL; here each is a method that returns both, proved equal
 * to the function that specifies it.
 */
module Tokens {
  import opened CText
  import opened Syntax
  import opened Identifier

  // ---------------------------------------------------------------------------
  // flecs_meta_utils_open_scope
  // ---------------------------------------------------------------------------

  /** The text from `q` on is `}`, optional white space, and the terminator. */
  predicate ClosesCleanly(s: seq<char>, q: nat) {
    At(s, q) == '}' && At(s, SkipWs(s, q + 1)) == NUL
  }

  /**
   * The start of every member or constant: at the very start of the text a `{`
   * is demanded; the terminator is a missing `}`; a `}` followed by anything but
   * white space is stray text, and a `}` at the end ends the parse without error
   * (NULL with `*error` false).
   */
  function OpenScope(s: seq<char>, p: nat): (r: Step<()>)
    ensures r.Next? || r.Null?
    ensures r.Next? ==> p <= r.next < |s| && At(s, r.next) != '}' && !IsSpace(At(s, r.next))
    ensures r.Null? ==> (r.error <==> r.log.Some?)
    ensures r.Null? && r.log.Some? ==>
              IsScopeError(r.log.value.kind)
  {
    var q := SkipWs(s, p);
    if q == 0 && At(s, 0) != '{' then Null(Some(Diag(Some(0), MissingOpenBrace)), true)
    else
      var q1 := if q == 0 then SkipWs(s, 1) else q;
      if At(s, q1) == NUL then Null(Some(Diag(Some(q1), MissingCloseBrace)), true)
      else if At(s, q1) == '}' then
        var q2 := SkipWs(s, q1 + 1);
        if At(s, q2) != NUL then Null(Some(Diag(Some(q2), StrayCharacters)), true)
        else Null(None, false)
      else Next(q1, ())
  }

  /**
   * A text that does not start with `{` is refused at offset 0. Otherwise, at
   * the next non-blank character: the terminator is a missing `}`, a `}`
   * followed by more than white space is stray text (reported where that text
   * starts), and anything else starts a member or constant there. The parse
   * ends quietly (NULL, no error, nothing logged) exactly when that character
   * is a `}` with only white space after it.
   */
  lemma OpenScopeEnds(s: seq<char>, p: nat)
    ensures p == 0 && At(s, 0) != '{' && !IsSpace(At(s, 0)) ==>
              OpenScope(s, p) == Null(Some(Diag(Some(0), MissingOpenBrace)), true)
    ensures var q := SkipWs(s, p); var q1 := if q == 0 then SkipWs(s, 1) else q;
      (q != 0 || At(s, 0) == '{') ==>
        (At(s, q1) == NUL ==> OpenScope(s, p) == Null(Some(Diag(Some(q1), MissingCloseBrace)), true))
        && (At(s, q1) == '}' && At(s, SkipWs(s, q1 + 1)) != NUL ==>
              OpenScope(s, p) == Null(Some(Diag(Some(SkipWs(s, q1 + 1)), StrayCharacters)), true))
        && (At(s, q1) != NUL && At(s, q1) != '}' ==> OpenScope(s, p) == Next(q1, ()))
    ensures OpenScope(s, p) == Null(None, false) <==>
              var q := SkipWs(s, p);
              (q != 0 || At(s, 0) == '{') && ClosesCleanly(s, if q == 0 then SkipWs(s, 1) else q)
  {
  }

  // ---------------------------------------------------------------------------
  // parse_c_digit
  // ---------------------------------------------------------------------------

  /** flecs_parse_digit accepts a number that starts with a digit or '-'. */
  predicate StartsNumber(c: char) {
    IsDigit(c) || c == '-'
  }

  /**
   * parse_c_digit: skip white space, read the number token (a leading character
   * that is a digit or '-', then a run of decimal digits), convert it with
   * strtol(token, NULL, 0), and skip the white space after it.
   */
  function ParseCDigit(s: seq<char>, p: nat): (r: Option<(nat, int)>)
    ensures r.Some? <==> StartsNumber(At(s, SkipWs(s, p)))
    ensures r.Some? ==> p < r.value.0 <= |s| && !IsSpace(At(s, r.value.0))
  {
    var q := SkipWs(s, p);
    if !StartsNumber(At(s, q)) then None
    else
      var e := DigitRunEnd(s, q + 1);
      Some((SkipWs(s, e), StrToL(NumberToken(s, q))))
  }

  /** The characters flecs_parse_digit copies into its token buffer. */
  function NumberToken(s: seq<char>, q: nat): (token: seq<char>)
    requires StartsNumber(At(s, q))
    ensures |token| > 0 && token[0] == At(s, q)
    ensures forall k :: 0 <= k < |token| ==> IsDigit(token[k]) || (k == 0 && token[k] == '-')
  {
    var e := DigitRunEnd(s, q + 1);
    var token := s[q..e];
    forall k | 0 < k < |token| ensures IsDigit(token[k]) {
      assert token[k] == At(s, q + k);
    }
    token
  }

  /** A run of decimal digits is valid in base 10 to its end. */
  lemma {:induction false} DecimalDigitsAllValid(d: seq<char>)
    requires forall k :: 0 <= k < |d| ==> IsDigit(d[k])
    ensures ValidPrefixLength(d, 10) == |d|
  {
    if |d| > 0 {
      DecimalDigitsAllValid(d[1..]);
    }
  }

  /** The number token starts at `q` and runs to the end of the digits after it. */
  lemma NumberTokenSpan(s: seq<char>, q: nat)
    requires StartsNumber(At(s, q))
    ensures var e := DigitRunEnd(s, q + 1);
      q < e <= |s| && NumberToken(s, q) == s[q..e]
  {
  }

  /** The run of decimal digits that starts at `q`. */
  function DecimalRun(s: seq<char>, q: nat): (d: seq<char>)
    requires IsDigit(At(s, q))
    ensures |d| > 0 && q + |d| == DigitRunEnd(s, q) <= |s|
    ensures forall k :: 0 <= k < |d| ==> IsDigit(d[k])
  {
    var e := DigitRunEnd(s, q);
    var d := s[q..e];
    forall k | 0 <= k < |d| ensures IsDigit(d[k]) {
      assert d[k] == At(s, q + k);
    }
    d
  }

  /** A number whose first digit is 1 to 9 is its run of digits read in decimal. */
  lemma DecimalNumber(s: seq<char>, p: nat)
    requires '1' <= At(s, SkipWs(s, p)) <= '9'
    ensures var d := DecimalRun(s, SkipWs(s, p));
      ParseCDigit(s, p) == Some((SkipWs(s, SkipWs(s, p) + |d|), SaturateLong(Positional(d, 10))))
  {
    var q := SkipWs(s, p);
    NumberTokenSpan(s, q);
    var d := DecimalRun(s, q);
    assert NumberToken(s, q) == d;
    DecimalDigitsAllValid(d);
    assert d[..|d|] == d;
  }

  /** A `-` followed by a digit 1 to 9 is the negated decimal number. */
  lemma NegativeNumber(s: seq<char>, p: nat)
    requires At(s, SkipWs(s, p)) == '-' && '1' <= At(s, SkipWs(s, p) + 1) <= '9'
    ensures var d := DecimalRun(s, SkipWs(s, p) + 1);
      ParseCDigit(s, p) == Some((SkipWs(s, SkipWs(s, p) + 1 + |d|), SaturateLong(-(Positional(d, 10) as int))))
  {
    var q := SkipWs(s, p);
    NumberTokenSpan(s, q);
    var d := DecimalRun(s, q + 1);
    assert NumberToken(s, q)[1..] == d;
    DecimalDigitsAllValid(d);
    assert d[..|d|] == d;
  }

  /** A number whose first digit is 0 is octal: `010` is 8. */
  lemma OctalNumber()
    ensures ParseCDigit("010", 0) == Some((3, 8))
  {
    var s := "010";
    assert SkipWs(s, 0) == 0 && DigitRunEnd(s, 1) == 3 && SkipWs(s, 3) == 3;
    NumberTokenSpan(s, 0);
    assert ValidPrefixLength(s, 8) == 3;
    assert s[..3] == s;
    assert Positional(s, 8) == 8 by {
      assert s[..2] == "01" && s[..2][..1] == "0" && s[..2][..1][..0] == [];
    }
  }

  /** Octal conversion stops at the first 8 or 9: `019` is 1. */
  lemma OctalStopsAtNine()
    ensures ParseCDigit("019", 0) == Some((3, 1))
  {
    var s := "019";
    assert SkipWs(s, 0) == 0 && DigitRunEnd(s, 1) == 3 && SkipWs(s, 3) == 3;
    NumberTokenSpan(s, 0);
    assert NumberToken(s, 0) == s[0..3] == s;
    assert s[1..] == "19" && s[1..][1..] == "9";
    assert ValidPrefixLength("9", 8) == 0;
    assert ValidPrefixLength(s, 8) == 2;
    var zero, one := "0", "01";
    assert zero[..0] == [] && one[..1] == zero && s[..2] == one;
    assert Positional(zero, 8) == 0;
    assert Positional(one, 8) == 1;
    assert StrToL(s) == 1;
  }

  // ---------------------------------------------------------------------------
  // flecs_meta_utils_parse_constant
  // ---------------------------------------------------------------------------

  /** After a constant: a `,` is consumed, a `}` is left for the next call. */
  function ExpectCommaOrBrace(s: seq<char>, q: nat, token: ConstantToken): (r: Step<ConstantToken>)
    ensures r.Next? ==> (At(s, q) == ',' && r.next == q + 1) || (At(s, q) == '}' && r.next == q)
    ensures r.Null? ==> r == Null(Some(Diag(Some(q), MissingComma)), false)
    ensures r.Next? || r.Null?
  {
    if At(s, q) != ',' && At(s, q) != '}' then Null(Some(Diag(Some(q), MissingComma)), false)
    else if At(s, q) == ',' then Next(q + 1, token)
    else Next(q, token)
  }

  /** flecs_meta_utils_parse_constant: `NAME`, `NAME = number`, then `,` or `}`. */
  function ConstantSpec(s: seq<char>, p: nat): (r: Step<ConstantToken>)
    ensures !r.AtEnd?
    ensures r.Next? ==> p < r.next <= |s| && |r.token.name| > 0
    ensures r.Null? && r.error ==> r.log.Some? && IsScopeError(r.log.value.kind)
  {
    match OpenScope(s, p)
    case Next(q, _) => ConstantBody(s, q)
    case Null(d, e) => Null(d, e)
    case _ => Step.Undefined  // open_scope returns a pointer or NULL
  }

  /** The constant after its open_scope: the name, then the rest of the declaration. */
  function ConstantBody(s: seq<char>, q: nat): (r: Step<ConstantToken>)
    ensures !r.AtEnd?
    ensures r.Next? ==> q < r.next <= |s| && (At(s, r.next - 1) == ',' || At(s, r.next) == '}')
    ensures r.Next? ==> |r.token.name| > 0
    ensures r.Null? ==> !r.error && r.log.Some?
  {
    match IdentifierSpec(s, q, false)
    case Ok(q1, id) => ConstantValue(s, q1, id.name)
    case Err(d) => Null(Some(d), false)
    case Undefined => Step.Undefined
  }

  /** After the constant's name: an optional `= value`, then the separator. */
  function ConstantValue(s: seq<char>, q1: nat, name: seq<char>): (r: Step<ConstantToken>)
    ensures !r.AtEnd?
    ensures r.Next? ==> q1 <= r.next <= |s|
    ensures r.Next? ==> At(s, r.next) == '}' || (q1 < r.next && At(s, r.next - 1) == ',')
    ensures r.Next? ==> r.token.name == name
    ensures r.Null? ==> !r.error && r.log.Some? && r.log.value.kind == MissingComma
  {
    var q2 := SkipWs(s, q1);
    if At(s, q2) == '=' then ExplicitValue(s, q2, name)
    else ExpectCommaOrBrace(s, q2, ConstantToken(name, None))
  }

  /** `= value` at `q2`: parse_c_digit, then the separator. */
  function ExplicitValue(s: seq<char>, q2: nat, name: seq<char>): (r: Step<ConstantToken>)
    ensures !r.AtEnd?
    ensures r.Next? ==> q2 < r.next <= |s|
    ensures r.Next? ==> At(s, r.next) == '}' || At(s, r.next - 1) == ','
    ensures r.Next? ==> r.token == ConstantToken(name, r.token.value) && r.token.value.Some?
    ensures r.Null? ==> !r.error && r.log.Some? && r.log.value.kind == MissingComma
  {
    var digit := ParseCDigit(s, q2 + 1);
    if digit.None? then Step.Undefined  // `*ptr` is read from the NULL that parse_c_digit returned
    else ExpectCommaOrBrace(s, digit.value.0, ConstantToken(name, Some(digit.value.1)))
  }

  method ParseConstant(s: seq<char>, p: nat) returns (r: Step<ConstantToken>)
    ensures r == ConstantSpec(s, p)
  {
    var open := OpenScope(s, p);
    if open.Null? {
      return Null(open.log, open.error);
    }
    assert ConstantSpec(s, p) == ConstantBody(s, open.next);
    var id := ParseIdentifier(s, open.next, false);
    if id.Err? {
      return Null(Some(id.diag), false);
    }
    if id.Undefined? {
      return Step.Undefined;
    }
    assert ConstantSpec(s, p) == ConstantValue(s, id.next, id.value.name);
    r := ParseConstantValue(s, id.next, id.value.name);
  }

  /** The rest of parse_constant after the name: the explicit value assignment and the separator. */
  method ParseConstantValue(s: seq<char>, q1: nat, name: seq<char>) returns (r: Step<ConstantToken>)
    ensures r == ConstantValue(s, q1, name)
  {
    var ptr := SkipWs(s, q1);
    var value: Option<int> := None;
    if At(s, ptr) == '=' {
      var digit := ParseCDigit(s, ptr + 1);
      if digit.None? {
        return Step.Undefined;
      }
      ptr, value := digit.value.0, Some(digit.value.1);
    }
    r := ExpectCommaOrBrace(s, ptr, ConstantToken(name, value));
  }

  // ---------------------------------------------------------------------------
  // flecs_meta_utils_parse_type
  // ---------------------------------------------------------------------------

  /** One `*` after the type name (with white space before it) marks a pointer. */
  function PointerSuffix(s: seq<char>, q: nat, token: TypeToken): (r: Scan<TypeToken>)
    ensures r.Ok? && r.value.name == token.name && r.value.params == token.params
    ensures r.value.isConst == token.isConst
    ensures r.value.isPtr <==> token.isPtr || At(s, SkipWs(s, q)) == '*'
    ensures r.next == if At(s, SkipWs(s, q)) == '*' then SkipWs(s, q) + 1 else SkipWs(s, q)
  {
    var q1 := SkipWs(s, q);
    if At(s, q1) == '*' then Ok(q1 + 1, token.(isPtr := true)) else Ok(q1, token)
  }

  /**
   * flecs_meta_utils_parse_type: a type name with its parameters, possibly after
   * `const`, possibly followed by `*`. The name ECS_PRIVATE moves to the end of
   * the text: the members after it are not described.
   */
  function TypeSpec(s: seq<char>, p: nat): (r: Scan<TypeToken>)
    ensures r.Ok? ==> p < r.next <= |s| && |r.value.params| + p < |s|
    ensures r.Ok? ==> |r.value.name| > 0 && forall k :: 0 <= k < |r.value.name| ==> IsNameChar(r.value.name[k])
    ensures r.Ok? && r.value.name == "ECS_PRIVATE" && !r.value.isConst ==> At(s, r.next) == NUL
    ensures r.Err? ==> IdentifierSpec(s, p, true).Err?
  {
    var q := SkipWs(s, p);
    match IdentifierSpec(s, q, true)
    case Ok(q1, id) =>
      if id.name == "ECS_PRIVATE" then
        Ok(StrEnd(s, q1), TypeToken(id.name, id.params, false, false))
      else if id.name == "const" then
        match IdentifierSpec(s, q1 + 1, true)
        case Ok(q2, id2) => PointerSuffix(s, q2, TypeToken(id2.name, id2.params, true, false))
        case _ => Scan.Undefined  // the NULL is passed on to flecs_parse_ws_eol
      else
        PointerSuffix(s, q1, TypeToken(id.name, id.params, false, false))
    case Err(d) => Err(d)
    case Undefined => Scan.Undefined
  }

  /**
   * What parse_type fills in: `is_const` exactly when the first identifier is
   * `const`, and the name and parameters of the identifier read (the one after
   * `const` when there is one).
   */
  lemma TypeTokenFields(s: seq<char>, p: nat)
    ensures var r := TypeSpec(s, p);
      r.Ok? ==>
      var first := IdentifierSpec(s, SkipWs(s, p), true);
      first.Ok?
      && (r.value.isConst <==> first.value.name == "const")
      && (!r.value.isConst ==> r.value.name == first.value.name && r.value.params == first.value.params)
      && (r.value.isConst ==>
            var second := IdentifierSpec(s, first.next + 1, true);
            second.Ok? && r.value.name == second.value.name && r.value.params == second.value.params)
  {
  }

  /**
   * `is_ptr` is set exactly when a `*` follows the identifier read (the one
   * after `const` when there is one) after white space, apart from ECS_PRIVATE.
   */
  lemma TypeTokenPointer(s: seq<char>, p: nat)
    ensures var r := TypeSpec(s, p);
      r.Ok? ==>
      var first := IdentifierSpec(s, SkipWs(s, p), true);
      first.Ok? &&
      var e := if first.value.name == "const" then IdentifierSpec(s, first.next + 1, true).next else first.next;
      (r.value.isPtr <==> first.value.name != "ECS_PRIVATE" && At(s, SkipWs(s, e)) == '*')
  {
  }

  method ParseType(s: seq<char>, p: nat) returns (r: Scan<TypeToken>)
    ensures r == TypeSpec(s, p)
  {
    var ptr := SkipWs(s, p);
    var id := ParseIdentifier(s, ptr, true);
    if !id.Ok? {
      return if id.Err? then Err(id.diag) else Scan.Undefined;
    }
    var token := TypeToken(id.value.name, id.value.params, false, false);
    if token.name == "ECS_PRIVATE" {
      return Ok(StrEnd(s, id.next), token);
    }
    ptr := id.next;
    if token.name == "const" {
      var id2 := ParseIdentifier(s, ptr + 1, true);
      if !id2.Ok? {
        return Scan.Undefined;
      }
      token := TypeToken(id2.value.name, id2.value.params, true, false);
      ptr := id2.next;
    }
    r := PointerSuffix(s, ptr, token);
  }

  // ---------------------------------------------------------------------------
  // flecs_meta_utils_parse_member
  // ---------------------------------------------------------------------------

  /** Every member declaration ends with `;`. */
  function ExpectSemicolon(s: seq<char>, q: nat, token: MemberToken): (r: Step<MemberToken>)
    ensures At(s, q) == ';' <==> r == Next(q + 1, token)
    ensures At(s, q) != ';' <==> r == Null(Some(Diag(Some(q), MissingSemicolon)), false)
  {
    if At(s, q) != ';' then Null(Some(Diag(Some(q), MissingSemicolon)), false)
    else Next(q + 1, token)
  }

  /**
   * The array part of a member, with `q` after the white space that follows the
   * name: a `[` inside the name (`x[4]`) or right after it (`x [4]`) must be
   * closed by a `]`, and atoi of the text after the `[` gives the count, which is
   * 1 otherwise.
   */
  function ArraySuffix(s: seq<char>, q: nat, typ: TypeToken, name: seq<char>): (r: Step<MemberToken>)
    requires forall k :: 0 <= k < |name| ==> name[k] != NUL
    ensures r.Next? || r.Null?
    ensures r.Null? ==> !r.error && r.log.Some?
    ensures r.Next? ==> q < r.next <= |s| && At(s, r.next - 1) == ';' && r.token.typ == typ
    ensures r.Next? ==> '[' !in r.token.name
    ensures r.Next? && r.token.count != 1 ==> '[' in name || At(s, q) == '['
  {
    match FindChar(name, 0, '[')
    case Some(a) =>
      (match FindChar(name, a, ']')
       case Some(b) =>
         assert '[' !in name[..a] by {
           forall k | 0 <= k < a ensures name[..a][k] != '[' {
             assert At(name, k) != '[';
           }
         }
         if b - a == 0 then Null(Some(Diag(Some(q), DynamicSizeArray)), false)
         else ExpectSemicolon(s, q, MemberToken(typ, name[..a], Atoi(name, a + 1)))
       case None => Null(Some(Diag(Some(q), MissingCloseBracket)), false))
    case None =>
      assert '[' !in name by {
        var e :| 0 <= e && At(name, e) == NUL && forall k :: 0 <= k < e ==> At(name, k) != '[';
        forall k | 0 <= k < |name| ensures name[k] != '[' {
          assert At(name, k) != NUL;
        }
      }
      if At(s, q) == '[' then
        match FindChar(s, q, ']')
        case Some(b) =>
          if b - q == 0 then Null(Some(Diag(Some(q), DynamicSizeArray)), false)
          else ExpectSemicolon(s, b + 1, MemberToken(typ, name, Atoi(s, q + 1)))
        case None => Null(Some(Diag(Some(q), MissingCloseBracket)), false)
      else ExpectSemicolon(s, q, MemberToken(typ, name, 1))
  }

  /**
   * flecs_meta_utils_parse_member: `type name;` or `type name[count];`. When the
   * type ends the text (ECS_PRIVATE, or a trailing `*`) the pointer to the
   * terminator is returned before a name is read.
   */
  function MemberSpec(s: seq<char>, p: nat): (r: Step<MemberToken>)
    ensures r.Next? ==> p < r.next <= |s| && '[' !in r.token.name
    ensures r.Null? && r.error ==> r.log.Some? && IsScopeError(r.log.value.kind)
  {
    match OpenScope(s, p)
    case Next(q, _) => MemberBody(s, q)
    case Null(d, e) => Null(d, e)
    case _ => Step.Undefined  // open_scope returns a pointer or NULL
  }

  /** The member after its open_scope: the type, then the name and array part. */
  function MemberBody(s: seq<char>, q: nat): (r: Step<MemberToken>)
    ensures r.Next? ==> q < r.next <= |s| && '[' !in r.token.name
    ensures r.Null? ==> !r.error && r.log.Some?
  {
    match TypeSpec(s, q)
    case Ok(q1, typ) => if At(s, q1) == NUL then AtEnd(q1) else MemberName(s, q1, typ)
    case Err(d) => Null(Some(d), false)
    case Undefined => Step.Undefined
  }

  /** The member name after its type, then the array part and the `;`. */
  function MemberName(s: seq<char>, q1: nat, typ: TypeToken): (r: Step<MemberToken>)
    ensures r.Next? ==> q1 < r.next <= |s| && '[' !in r.token.name
    ensures r.Null? ==> !r.error && r.log.Some?
  {
    match IdentifierSpec(s, q1, false)
    case Ok(q2, id) => ArraySuffix(s, SkipWs(s, q2), typ, id.name)
    case Err(d) => Null(Some(d), false)
    case Undefined => Step.Undefined
  }

  method ParseMember(s: seq<char>, p: nat) returns (r: Step<MemberToken>)
    ensures r == MemberSpec(s, p)
  {
    var open := OpenScope(s, p);
    if open.Null? {
      return Null(open.log, open.error);
    }
    assert MemberSpec(s, p) == MemberBody(s, open.next);
    var typ := ParseType(s, open.next);
    if typ.Err? {
      return Null(Some(typ.diag), false);
    }
    if typ.Undefined? {
      return Step.Undefined;
    }
    if At(s, typ.next) == NUL {
      return AtEnd(typ.next);
    }
    assert MemberSpec(s, p) == MemberName(s, typ.next, typ.value);
    var id := ParseIdentifier(s, typ.next, false);
    if id.Err? {
      return Null(Some(id.diag), false);
    }
    if id.Undefined? {
      return Step.Undefined;
    }
    r := ArraySuffix(s, SkipWs(s, id.next), typ.value, id.value.name);
  }

  /**
   * A type that is a plain word (not ECS_PRIVATE, not `const`) with no `*` after
   * it: its name is the word, and parse_type stops at the next non-blank character.
   */
  lemma TypeOfWord(s: seq<char>, p: nat, q: nat, e: nat)
    requires SkipWs(s, p) == q && q < e
    requires IsAlpha(At(s, q)) || At(s, q) == '_'
    requires NameRun(s, q + 1, e) && IsIdentStop(At(s, e))
    requires s[q..e] != "ECS_PRIVATE" && s[q..e] != "const" && At(s, SkipWs(s, e)) != '*'
    ensures TypeSpec(s, p) == Ok(SkipWs(s, e), TypeToken(s[q..e], [], false, false))
  {
    assert SkipWs(s, q) == q;
    ScansWord(s, q, q, e, true);
  }

  /**
   * A member `type name` where both are words: parse_member reads the type word
   * from `a` to `b` and the name word from `n0` to `n1`, and what follows is the
   * array part and the `;`.
   */
  lemma MemberOfWords(s: seq<char>, p: nat, a: nat, b: nat, n0: nat, n1: nat)
    requires OpenScope(s, p) == Next(a, ())
    requires a < b && (IsAlpha(At(s, a)) || At(s, a) == '_')
    requires NameRun(s, a + 1, b) && IsIdentStop(At(s, b))
    requires s[a..b] != "ECS_PRIVATE" && s[a..b] != "const"
    requires SkipWs(s, b) == n0 && n0 < n1 && IsAlpha(At(s, n0))
    requires NameRun(s, n0 + 1, n1) && IsIdentStop(At(s, n1))
    requires NUL !in s[n0..n1]
    ensures MemberSpec(s, p)
         == ArraySuffix(s, SkipWs(s, n1), TypeToken(s[a..b], [], false, false), s[n0..n1])
  {
    TypeOfWord(s, a, a, b);
    ScansWord(s, n0, n0, n1, false);
    assert SkipWs(s, n0) == n0;
  }

  /** strchr finds nothing in a text that does not hold the character. */
  lemma FindCharAbsent(s: seq<char>, c: char)
    requires c != NUL && c !in s
    ensures FindChar(s, 0, c).None?
  {
  }

  /** A member without an array part has count 1, and its `;` must follow the name. */
  lemma PlainMemberCountsOne(s: seq<char>, q: nat, typ: TypeToken, name: seq<char>)
    requires NUL !in name && '[' !in name && At(s, q) != '['
    ensures ArraySuffix(s, q, typ, name) == ExpectSemicolon(s, q, MemberToken(typ, name, 1))
  {
    FindCharAbsent(name, '[');
  }

  /**
   * `x[4];`: a `[` inside the scanned name cuts the name there, and atoi of the
   * text after it gives the count; the `;` must follow the name.
   */
  lemma BracketInNameGivesCount(s: seq<char>, q: nat, typ: TypeToken, base: seq<char>, tail: seq<char>)
    requires NUL !in base && NUL !in tail
    requires '[' !in base && ']' in tail
    ensures var name := base + ['['] + tail;
      ArraySuffix(s, q, typ, name) == ExpectSemicolon(s, q, MemberToken(typ, base, Atoi(name, |base| + 1)))
  {
    var name := base + ['['] + tail;
    var a := |base|;
    assert forall k :: 0 <= k < a ==> At(name, k) == base[k];
    FindCharAt(name, 0, a, '[');
    var j :| 0 <= j < |tail| && tail[j] == ']';
    assert forall k :: a <= k < a + 1 + j ==> At(name, k) != NUL;
    FindCharFinds(name, a, a + 1 + j, ']');
    assert name[..a] == base;
  }

  /** strchr returns the first position that holds the character. */
  lemma FindCharAt(s: seq<char>, p: nat, r: nat, c: char)
    requires p <= r && At(s, r) == c && c != NUL
    requires forall k :: p <= k < r ==> At(s, k) != c && At(s, k) != NUL
    ensures FindChar(s, p, c) == Some(r)
  {
    FindCharBeforeEnd(s, p, c);
  }

  /** strchr finds a character that occurs before the terminator, at or before that occurrence. */
  lemma FindCharFinds(s: seq<char>, p: nat, r: nat, c: char)
    requires p <= r && At(s, r) == c && c != NUL
    requires forall k :: p <= k < r ==> At(s, k) != NUL
    ensures FindChar(s, p, c).Some? && FindChar(s, p, c).value <= r
  {
    FindCharBeforeEnd(s, p, c);
  }

  /** `x [4];`: a `[` after the name, closed by a `]`, gives the count; the `;` must follow the `]`. */
  lemma BracketAfterNameGivesCount(s: seq<char>, q: nat, typ: TypeToken, name: seq<char>, b: nat)
    requires NUL !in name && '[' !in name && At(s, q) == '['
    requires q < b && At(s, b) == ']'
    requires forall k :: q <= k < b ==> At(s, k) != ']' && At(s, k) != NUL
    ensures ArraySuffix(s, q, typ, name) == ExpectSemicolon(s, b + 1, MemberToken(typ, name, Atoi(s, q + 1)))
  {
    FindCharAbsent(name, '[');
    FindCharAt(s, q, b, ']');
  }

  /** A `[` after the name that no `]` follows before the end of the text is "missing ']'". */
  lemma UnclosedBracketFails(s: seq<char>, q: nat, typ: TypeToken, name: seq<char>)
    requires NUL !in name && '[' !in name && At(s, q) == '['
    requires forall k :: q <= k < StrEnd(s, q) ==> At(s, k) != ']'
    ensures ArraySuffix(s, q, typ, name) == Null(Some(Diag(Some(q), MissingCloseBracket)), false)
  {
    FindCharAbsent(name, '[');
    FindCharBeforeEnd(s, q, ']');
  }

  /**
   * A `[` inside the name that no `]` follows in the name is "missing ']'",
   * whatever comes after the name: `int32_t x[4;` reads the name `x[4` and fails.
   */
  lemma UnclosedBracketInName(s: seq<char>, q: nat, typ: TypeToken, base: seq<char>, tail: seq<char>)
    requires NUL !in base && NUL !in tail
    requires '[' !in base && ']' !in tail
    ensures ArraySuffix(s, q, typ, base + ['['] + tail) == Null(Some(Diag(Some(q), MissingCloseBracket)), false)
  {
    var name := base + ['['] + tail;
    var a := |base|;
    assert forall k :: 0 <= k < a ==> At(name, k) == base[k];
    FindCharAt(name, 0, a, '[');
  }

  /** `x[4`, the name read from `int32_t x[4;`, is "missing ']'". */
  lemma UnclosedFourInName(s: seq<char>, q: nat, typ: TypeToken)
    ensures ArraySuffix(s, q, typ, "x[4") == Null(Some(Diag(Some(q), MissingCloseBracket)), false)
  {
    assert "x[4" == "x" + ['['] + "4";
    UnclosedBracketInName(s, q, typ, "x", "4");
  }

  /** strchr only finds a character before the terminator. */
  lemma FindCharBeforeEnd(s: seq<char>, q: nat, c: char)
    ensures FindChar(s, q, c).Some? && c != NUL ==> FindChar(s, q, c).value < StrEnd(s, q)
  {
  }

  /** atoi of a text that starts with the single digit 4. */
  lemma AtoiOfFour(s: seq<char>, p: nat)
    requires At(s, p) == '4' && !IsDigit(At(s, p + 1))
    ensures Atoi(s, p) == 4
  {
    assert SkipWs(s, p) == p;
    assert DigitRunEnd(s, p) == p + 1;
    assert s[p..p + 1] == ['4'];
    assert Positional(['4'], 10) == Positional([], 10) * 10 + 4;
  }

  /** `x [4];` declares `x` with a count of 4. */
  lemma SpacedArrayOfFour(s: seq<char>, q: nat, typ: TypeToken)
    requires q + 4 <= |s| && s[q..q + 4] == "[4];"
    ensures ArraySuffix(s, q, typ, "x") == Next(q + 4, MemberToken(typ, "x", 4))
  {
    assert At(s, q) == '[' && At(s, q + 1) == '4' && At(s, q + 2) == ']' && At(s, q + 3) == ';';
    BracketAfterNameGivesCount(s, q, typ, "x", q + 2);
    AtoiOfFour(s, q + 1);
  }

  /** `x[4];`, where the scanned name is `x[4]`, declares `x` with a count of 4 as well. */
  lemma JoinedArrayOfFour(s: seq<char>, q: nat, typ: TypeToken)
    requires At(s, q) == ';'
    ensures ArraySuffix(s, q, typ, "x[4]") == Next(q + 1, MemberToken(typ, "x", 4))
  {
    BracketInNameGivesCount(s, q, typ, "x", "4]");
    assert "x" + ['['] + "4]" == "x[4]";
    AtoiOfFour("x[4]", 2);
  }

  /**
   * The "dynamic size arrays are not supported" branch is never taken: the `]`
   * strchr finds is never at the `[` itself, so `array_end - array_start` is
   * never 0.
   */
  lemma DynamicSizeNeverReported(s: seq<char>, q: nat, typ: TypeToken, name: seq<char>)
    requires NUL !in name
    ensures var r := ArraySuffix(s, q, typ, name);
      r.Null? ==> r.log.value.kind != DynamicSizeArray
  {
  }

  /** `x [];` is not refused: atoi of `];` is 0, so it declares `x` with a count of 0. */
  lemma EmptyBracketsCountZero(s: seq<char>, q: nat, typ: TypeToken)
    requires q + 3 <= |s| && s[q..q + 3] == "[];"
    ensures ArraySuffix(s, q, typ, "x") == Next(q + 3, MemberToken(typ, "x", 0))
  {
    assert At(s, q) == '[' && At(s, q + 1) == ']' && At(s, q + 2) == ';';
    BracketAfterNameGivesCount(s, q, typ, "x", q + 1);
    assert SkipWs(s, q + 1) == q + 1 && DigitRunEnd(s, q + 1) == q + 1;
  }

  /**
   * A member name followed by neither `[` nor `;` is "missing ; after member
   * declaration", reported where the `;` was expected.
   */
  lemma MissingSemicolonReported(s: seq<char>, q1: nat, typ: TypeToken, q2: nat, id: Ident)
    requires IdentifierSpec(s, q1, false) == Ok(q2, id)
    requires '[' !in id.name
    requires At(s, SkipWs(s, q2)) != ';' && At(s, SkipWs(s, q2)) != '['
    ensures MemberName(s, q1, typ) == Null(Some(Diag(Some(SkipWs(s, q2)), MissingSemicolon)), false)
  {
    PlainMemberCountsOne(s, SkipWs(s, q2), typ, id.name);
  }

  // ---------------------------------------------------------------------------
  // Member declarations of type int32_t
  // ---------------------------------------------------------------------------

  /** The type token of `int32_t`. */
  const Int32: TypeToken := TypeToken("int32_t", [], false, false)

  /** The characters of a slice that spells `t`. */
  lemma SpelledAt(s: seq<char>, a: nat, t: seq<char>)
    requires a + |t| <= |s| && s[a..a + |t|] == t
    ensures forall k :: 0 <= k < |t| ==> At(s, a + k) == t[k]
  {
    forall k | 0 <= k < |t| ensures At(s, a + k) == t[k] {
      assert s[a..a + |t|][k] == s[a + k];
    }
  }

  /** The word `int32_t` at `a`, followed by white space and a word starting at `a + 8`. */
  lemma Int32WordAt(s: seq<char>, a: nat)
    requires a + 9 <= |s| && s[a..a + 8] == "int32_t "
    requires !IsSpace(At(s, a + 8))
    ensures NameRun(s, a + 1, a + 7) && IsIdentStop(At(s, a + 7))
    ensures s[a..a + 7] == "int32_t" && IsAlpha(At(s, a)) && SkipWs(s, a + 7) == a + 8
  {
    SpelledAt(s, a, "int32_t ");
    assert At(s, a) == 'i' && At(s, a + 1) == 'n' && At(s, a + 2) == 't' && At(s, a + 3) == '3';
    assert At(s, a + 4) == '2' && At(s, a + 5) == '_' && At(s, a + 6) == 't' && At(s, a + 7) == ' ';
    assert NameRun(s, a + 7, a + 7);
    assert NameRun(s, a + 6, a + 7);
    assert NameRun(s, a + 5, a + 7);
    assert NameRun(s, a + 4, a + 7);
    assert NameRun(s, a + 3, a + 7);
    assert NameRun(s, a + 2, a + 7);
    assert s[a..a + 7] == s[a..a + 8][..7];
    assert SkipWs(s, a + 8) == a + 8;
  }

  /** `int32_t c;` at `a`, where open_scope stopped, is a member `c` with a count of 1. */
  lemma Int32Member(s: seq<char>, p: nat, a: nat, c: char)
    requires OpenScope(s, p) == Next(a, ())
    requires IsAlpha(c)
    requires a + 10 <= |s| && s[a..a + 10] == "int32_t " + [c] + ";"
    ensures MemberSpec(s, p) == Next(a + 10, MemberToken(Int32, [c], 1))
  {
    Int32MemberText(s, a, c);
    Int32TypeThenName(s, p, a);
    LetterThenSemicolon(s, a + 8, Int32, c);
  }

  /** The characters of `int32_t c;` at `a`. */
  lemma Int32MemberText(s: seq<char>, a: nat, c: char)
    requires a + 10 <= |s| && s[a..a + 10] == "int32_t " + [c] + ";"
    ensures a + 9 <= |s| && s[a..a + 8] == "int32_t "
    ensures At(s, a + 8) == c && At(s, a + 9) == ';'
  {
    assert s[a..a + 8] == s[a..a + 10][..8];
    assert s[a + 8] == s[a..a + 10][8];
    assert s[a + 9] == s[a..a + 10][9];
  }

  /** A one-letter name and `;`: the member has a count of 1. */
  lemma LetterThenSemicolon(s: seq<char>, q: nat, typ: TypeToken, c: char)
    requires At(s, q) == c && IsAlpha(c) && At(s, q + 1) == ';'
    ensures MemberName(s, q, typ) == Next(q + 2, MemberToken(typ, [c], 1))
  {
    assert s[q..q + 1] == [c];
    assert NameRun(s, q + 1, q + 1) && SkipWs(s, q) == q;
    ScansWord(s, q, q, q + 1, false);
    assert SkipWs(s, q + 1) == q + 1;
    PlainMemberCountsOne(s, q + 1, typ, [c]);
  }

  /** `int32_t x[4];` at `a`, where open_scope stopped, is a member `x` with a count of 4. */
  lemma Int32ArrayMember(s: seq<char>, p: nat, a: nat)
    requires OpenScope(s, p) == Next(a, ())
    requires a + 13 <= |s| && s[a..a + 13] == "int32_t x[4];"
    ensures MemberSpec(s, p) == Next(a + 13, MemberToken(Int32, "x", 4))
  {
    assert s[a..a + 8] == s[a..a + 13][..8];
    SpelledAt(s, a, "int32_t x[4];");
    assert At(s, a + 8) == 'x' && At(s, a + 9) == '[' && At(s, a + 10) == '4';
    assert At(s, a + 11) == ']' && At(s, a + 12) == ';';
    Int32TypeThenName(s, p, a);
    FourInName(s, a + 8, Int32);
  }

  /** `x[4];` as a name: the member `x` with a count of 4. */
  lemma FourInName(s: seq<char>, q: nat, typ: TypeToken)
    requires At(s, q) == 'x' && At(s, q + 1) == '[' && At(s, q + 2) == '4'
    requires At(s, q + 3) == ']' && At(s, q + 4) == ';'
    ensures MemberName(s, q, typ) == Next(q + 5, MemberToken(typ, "x", 4))
  {
    assert s[q..q + 4] == "x[4]";
    assert NameRun(s, q + 4, q + 4) && NameRun(s, q + 3, q + 4);
    assert NameRun(s, q + 2, q + 4) && NameRun(s, q + 1, q + 4);
    assert SkipWs(s, q) == q;
    ScansWord(s, q, q, q + 4, false);
    assert SkipWs(s, q + 4) == q + 4;
    JoinedArrayOfFour(s, q + 4, typ);
  }

  /**
   * `int32_t x i` at `a`, where open_scope stopped: the name is followed by
   * another word, and parse_member reports the missing `;` where that word starts.
   */
  lemma Int32MemberWithoutSemicolon(s: seq<char>, p: nat, a: nat)
    requires OpenScope(s, p) == Next(a, ())
    requires a + 11 <= |s| && s[a..a + 11] == "int32_t x i"
    ensures MemberSpec(s, p) == Null(Some(Diag(Some(a + 10), MissingSemicolon)), false)
  {
    assert s[a..a + 8] == s[a..a + 11][..8];
    SpelledAt(s, a, "int32_t x i");
    assert At(s, a + 8) == 'x' && At(s, a + 9) == ' ' && At(s, a + 10) == 'i';
    Int32TypeThenName(s, p, a);
    NameThenWord(s, a + 8);
    MissingSemicolonReported(s, a + 8, Int32, a + 9, Ident("x", []));
  }

  /** `int32_t ` at `a` and a letter after it: parse_member goes on to the name at `a + 8`. */
  lemma Int32TypeThenName(s: seq<char>, p: nat, a: nat)
    requires OpenScope(s, p) == Next(a, ())
    requires a + 9 <= |s| && s[a..a + 8] == "int32_t " && IsAlpha(At(s, a + 8))
    ensures MemberSpec(s, p) == MemberName(s, a + 8, Int32)
  {
    Int32WordAt(s, a);
    TypeOfWord(s, a, a, a + 7);
  }

  /** `x i` at `q`: the name `x`, then a word starting two characters on. */
  lemma NameThenWord(s: seq<char>, q: nat)
    requires At(s, q) == 'x' && At(s, q + 1) == ' ' && At(s, q + 2) == 'i'
    ensures IdentifierSpec(s, q, false) == Ok(q + 1, Ident("x", []))
    ensures SkipWs(s, q + 1) == q + 2
  {
    assert s[q..q + 1] == "x";
    assert NameRun(s, q + 1, q + 1) && SkipWs(s, q) == q;
    ScansWord(s, q, q, q + 1, false);
    assert SkipWs(s, q + 2) == q + 2;
  }

  // ---------------------------------------------------------------------------
  // Constant declarations
  // ---------------------------------------------------------------------------

  /** parse_c_digit of a one-digit number other than 0 is that digit's value. */
  lemma OneDigitNumber(s: seq<char>, p: nat, q: nat)
    requires SkipWs(s, p) == q && '1' <= At(s, q) <= '9' && !IsDigit(At(s, q + 1))
    ensures ParseCDigit(s, p) == Some((SkipWs(s, q + 1), DigitValue(At(s, q))))
  {
    var d := At(s, q);
    assert DigitRunEnd(s, q + 1) == q + 1;
    assert NumberToken(s, q) == [d];
    assert ValidPrefixLength([d][1..], 10) == 0;
    assert [d][..1] == [d];
    assert Positional([d], 10) == Positional([], 10) * 10 + DigitValue(d);
  }

  /** A constant word from `a` to `e`: parse_constant goes on after it with that name. */
  lemma ConstantWord(s: seq<char>, p: nat, a: nat, e: nat)
    requires OpenScope(s, p) == Next(a, ())
    requires a < e && IsAlpha(At(s, a)) && NameRun(s, a + 1, e) && IsIdentStop(At(s, e))
    ensures ConstantSpec(s, p) == ConstantValue(s, e, s[a..e])
  {
    assert SkipWs(s, a) == a;
    ScansWord(s, a, a, e, false);
  }

  /**
   * A constant word from `a` to `e` with no `=` after it: parse_constant
   * returns it without a value, and what follows must be `,` or `}`.
   */
  lemma UnvaluedConstant(s: seq<char>, p: nat, a: nat, e: nat)
    requires OpenScope(s, p) == Next(a, ())
    requires a < e && IsAlpha(At(s, a)) && NameRun(s, a + 1, e) && IsIdentStop(At(s, e))
    requires At(s, SkipWs(s, e)) != '='
    ensures ConstantSpec(s, p) == ExpectCommaOrBrace(s, SkipWs(s, e), ConstantToken(s[a..e], None))
  {
    assert SkipWs(s, a) == a;
    ScansWord(s, a, a, e, false);
  }

  /**
   * A constant word from `a` to `e` followed by `=` and a number: parse_constant
   * returns it with the number's value, and what follows must be `,` or `}`.
   */
  lemma ValuedConstant(s: seq<char>, p: nat, a: nat, e: nat, q2: nat, q3: nat, v: int)
    requires OpenScope(s, p) == Next(a, ())
    requires a < e && IsAlpha(At(s, a)) && NameRun(s, a + 1, e) && IsIdentStop(At(s, e))
    requires SkipWs(s, e) == q2 && At(s, q2) == '=' && ParseCDigit(s, q2 + 1) == Some((q3, v))
    ensures ConstantSpec(s, p) == ExpectCommaOrBrace(s, q3, ConstantToken(s[a..e], Some(v)))
  {
    var name := s[a..e];
    ConstantWord(s, p, a, e);
    EqualsAfterName(s, e, name);
    NumberAfterEquals(s, q2, name, q3, v);
  }

  /** After a constant's name, an `=` means an explicit value follows. */
  lemma EqualsAfterName(s: seq<char>, e: nat, name: seq<char>)
    requires At(s, SkipWs(s, e)) == '='
    ensures ConstantValue(s, e, name) == ExplicitValue(s, SkipWs(s, e), name)
  {
  }

  /** `=` at `q2` followed by a number gives the constant that number. */
  lemma NumberAfterEquals(s: seq<char>, q2: nat, name: seq<char>, q3: nat, v: int)
    requires ParseCDigit(s, q2 + 1) == Some((q3, v))
    ensures ExplicitValue(s, q2, name) == ExpectCommaOrBrace(s, q3, ConstantToken(name, Some(v)))
  {
  }

  // ---------------------------------------------------------------------------
  // flecs_meta_utils_parse_desc
  // ---------------------------------------------------------------------------

  /** The parameter list must end with `)` or `>`. */
  function ExpectClose(t: seq<char>, q: nat, params: CollectionParams): (r: Scan<CollectionParams>)
    ensures r.Ok? <==> IsCloser(At(t, q))
    ensures r.Ok? ==> r == Ok(q, params)
    ensures r.Err? ==> r.diag == Diag(Some(q), ExpectedCloseParen)
    ensures r.Ok? || r.Err?
  {
    if At(t, q) != ')' && At(t, q) != '>' then Err(Diag(Some(q), ExpectedCloseParen))
    else Ok(q, params)
  }

  /**
   * flecs_meta_utils_parse_desc on the parameter text `t` of a collection type:
   * `(T)`, `(T, N)` with N starting with a digit (a fixed size), or `(K, V)` (a key
   * and an element type), with `<` `>` accepted in place of `(` `)`. The offsets it
   * reports are positions in `t`.
   */
  function CollectionSpec(t: seq<char>): (r: Scan<CollectionParams>)
    ensures r.Ok? ==> IsOpener(At(t, SkipWs(t, 0))) && IsCloser(At(t, r.next))
    ensures r.Ok? ==> |r.value.elem.params| < |t|
    ensures r.Ok? ==> !(r.value.key.Some? && r.value.size.Some?)
    ensures r.Ok? && r.value.size.Some? ==> r.value.size.value >= 0
    ensures !IsOpener(At(t, SkipWs(t, 0))) ==> r == Err(Diag(Some(SkipWs(t, 0)), ExpectedOpenParen))
  {
    var q := SkipWs(t, 0);
    if At(t, q) != '(' && At(t, q) != '<' then Err(Diag(Some(q), ExpectedOpenParen))
    else CollectionFirst(t, q + 1)
  }

  /** After the opening bracket: the first type, then the rest of the list. */
  function CollectionFirst(t: seq<char>, q: nat): (r: Scan<CollectionParams>)
    ensures r.Ok? ==> IsCloser(At(t, r.next)) && |r.value.elem.params| < |t|
    ensures r.Ok? ==> !(r.value.key.Some? && r.value.size.Some?)
    ensures r.Ok? && r.value.size.Some? ==> r.value.size.value >= 0
  {
    match TypeSpec(t, q)
    case Ok(q1, typ) => CollectionRest(t, q1, typ)
    case Err(d) => Err(d)
    case Undefined => Scan.Undefined
  }

  /** After the first type: `)`, or `,` and a size or a second type. */
  function CollectionRest(t: seq<char>, q1: nat, typ: TypeToken): (r: Scan<CollectionParams>)
    requires |typ.params| < |t|
    ensures r.Ok? ==> IsCloser(At(t, r.next)) && |r.value.elem.params| < |t|
    ensures r.Ok? ==> !(r.value.key.Some? && r.value.size.Some?)
    ensures r.Ok? && r.value.size.Some? ==> r.value.size.value >= 0
  {
    var q2 := SkipWs(t, q1);
    if At(t, q2) == ',' then CollectionSecond(t, SkipWs(t, q2 + 1), typ)
    else ExpectClose(t, q2, CollectionParams(typ, None, None))
  }

  /** After the `,`: a size when it starts with a digit, else the element type after a key type. */
  function CollectionSecond(t: seq<char>, q3: nat, typ: TypeToken): (r: Scan<CollectionParams>)
    requires |typ.params| < |t|
    ensures r.Ok? ==> IsCloser(At(t, r.next)) && |r.value.elem.params| < |t|
    ensures r.Ok? ==> !(r.value.key.Some? && r.value.size.Some?)
    ensures r.Ok? && r.value.size.Some? ==> r.value.size.value >= 0
  {
    if IsDigit(At(t, q3)) then
      var (q4, count) := FixedSize(t, q3);
      ExpectClose(t, q4, CollectionParams(typ, None, Some(count)))
    else
      match TypeSpec(t, q3)
      case Ok(q4, elem) => ExpectClose(t, SkipWs(t, q4), CollectionParams(elem, Some(typ), None))
      case _ => Scan.Undefined  // the NULL is passed on to flecs_parse_ws_eol
  }

  /** parse_c_digit at a position that holds a digit: it cannot fail there. */
  function FixedSize(t: seq<char>, q: nat): (r: (nat, int))
    requires IsDigit(At(t, q))
    ensures ParseCDigit(t, q) == Some(r)
    ensures r.1 >= 0
  {
    var d := ParseCDigit(t, q);
    assert SkipWs(t, q) == q;
    var token := t[q..DigitRunEnd(t, q + 1)];
    assert |token| > 0 && token[0] != '-';
    d.value
  }

  /**
   * parse_desc after the opening bracket: the first type is read, and when it is
   * read the rest of the list decides the fields (RestOfElement, RestIsSecond,
   * SecondIsSize, SecondIsElement); a first
   * type that fails fails the parse the same way.
   */
  lemma {:induction false} CollectionAfterFirst(t: seq<char>)
    ensures var q := SkipWs(t, 0); var first := TypeSpec(t, q + 1);
      IsOpener(At(t, q)) ==>
        (first.Ok? ==> CollectionSpec(t) == CollectionRest(t, first.next, first.value))
        && (first.Err? ==> CollectionSpec(t) == Err(first.diag))
        && (first.Undefined? ==> CollectionSpec(t) == Scan.Undefined)
  {
    var q := SkipWs(t, 0);
    if IsOpener(At(t, q)) {
      CollectionOpens(t);
      FirstTypeDecides(t, q + 1);
    }
  }

  /** With an opening bracket, parse_desc goes on to the first type after it. */
  lemma {:induction false} CollectionOpens(t: seq<char>)
    requires IsOpener(At(t, SkipWs(t, 0)))
    ensures CollectionSpec(t) == CollectionFirst(t, SkipWs(t, 0) + 1)
  {
  }

  /** The first type read at `q` decides how the list goes on. */
  lemma {:induction false} FirstTypeDecides(t: seq<char>, q: nat)
    ensures var first := TypeSpec(t, q);
      (first.Ok? ==> CollectionFirst(t, q) == CollectionRest(t, first.next, first.value))
      && (first.Err? ==> CollectionFirst(t, q) == Err(first.diag))
      && (first.Undefined? ==> CollectionFirst(t, q) == Scan.Undefined)
  {
    match TypeSpec(t, q)
    case Ok(q1, typ) => assert CollectionFirst(t, q) == CollectionRest(t, q1, typ);
    case Err(d) => assert CollectionFirst(t, q) == Err(d);
    case Undefined => assert CollectionFirst(t, q) == Scan.Undefined;
  }

  /** `(T)`: with no `,` after the first type, T is the element type, with neither key nor size. */
  lemma {:induction false} RestOfElement(t: seq<char>, q1: nat, typ: TypeToken)
    requires |typ.params| < |t|
    ensures var q2 := SkipWs(t, q1);
      At(t, q2) != ',' ==> CollectionRest(t, q1, typ) == ExpectClose(t, q2, CollectionParams(typ, None, None))
  {
  }

  /** After a `,` the rest of the list is read from the next non-blank character. */
  lemma {:induction false} RestIsSecond(t: seq<char>, q1: nat, typ: TypeToken)
    requires |typ.params| < |t|
    ensures var q2 := SkipWs(t, q1);
      At(t, q2) == ',' ==> CollectionRest(t, q1, typ) == CollectionSecond(t, SkipWs(t, q2 + 1), typ)
  {
  }

  /**
   * `(T, N)`: a digit after the `,` starts the size, the value parse_c_digit reads
   * there (FixedSize); T is the element type, there is no key, and the list must
   * end where parse_c_digit stops.
   */
  lemma {:induction false} SecondIsSize(t: seq<char>, q3: nat, typ: TypeToken)
    requires |typ.params| < |t| && IsDigit(At(t, q3))
    ensures CollectionSecond(t, q3, typ) == ExpectClose(t, FixedSize(t, q3).0, CollectionParams(typ, None, Some(FixedSize(t, q3).1)))
  {
  }

  /**
   * `(K, V)`: any other text after the `,` is the element type V and the first
   * type becomes the key K, and the list must end after V; when no type can be
   * read there, parse_type returns NULL and the NULL goes on to the white-space
   * skip, whose behaviour is undefined.
   */
  lemma {:induction false} SecondIsElement(t: seq<char>, q3: nat, typ: TypeToken)
    requires |typ.params| < |t| && !IsDigit(At(t, q3))
    ensures var r := CollectionSecond(t, q3, typ); var second := TypeSpec(t, q3);
      (second.Ok? ==> r == ExpectClose(t, SkipWs(t, second.next), CollectionParams(second.value, Some(typ), None)))
      && (!second.Ok? ==> r == Scan.Undefined)
  {
  }

  method ParseDesc(t: seq<char>) returns (r: Scan<CollectionParams>)
    ensures r == CollectionSpec(t)
  {
    var ptr := SkipWs(t, 0);
    if At(t, ptr) != '(' && At(t, ptr) != '<' {
      return Err(Diag(Some(ptr), ExpectedOpenParen));
    }
    r := ParseCollectionFirst(t, ptr + 1);
  }

  /** parse_desc after the opening bracket. */
  method ParseCollectionFirst(t: seq<char>, q: nat) returns (r: Scan<CollectionParams>)
    ensures r == CollectionFirst(t, q)
  {
    var typ := ParseType(t, q);
    if !typ.Ok? {
      return if typ.Err? then Err(typ.diag) else Scan.Undefined;
    }
    r := ParseCollectionRest(t, typ.next, typ.value);
  }

  /** parse_desc after the first type. */
  method ParseCollectionRest(t: seq<char>, q1: nat, typ: TypeToken) returns (r: Scan<CollectionParams>)
    requires |typ.params| < |t|
    ensures r == CollectionRest(t, q1, typ)
  {
    var ptr := SkipWs(t, q1);
    if At(t, ptr) == ',' {
      r := ParseCollectionSecond(t, SkipWs(t, ptr + 1), typ);
    } else {
      r := ExpectClose(t, ptr, CollectionParams(typ, None, None));
    }
  }

  /** parse_desc after the `,`. */
  method ParseCollectionSecond(t: seq<char>, q3: nat, typ: TypeToken) returns (r: Scan<CollectionParams>)
    requires |typ.params| < |t|
    ensures r == CollectionSecond(t, q3, typ)
  {
    if IsDigit(At(t, q3)) {
      var value := ParseCDigit(t, q3);
      assert value == Some(FixedSize(t, q3));
      r := ExpectClose(t, value.value.0, CollectionParams(typ, None, Some(value.value.1)));
    } else {
      var elem := ParseType(t, q3);
      if !elem.Ok? {
        return Scan.Undefined;
      }
      r := ExpectClose(t, SkipWs(t, elem.next), CollectionParams(elem.value, Some(typ), None));
    }
  }
}
