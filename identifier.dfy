/**
 * parse_c_identifier: read a C identifier, such as a member name or a type name
 * like `ecs_array(int32_t, 4)`, whose bracketed parameter text goes to a separate
 * buffer when the caller supplies one.
 */
module Identifier {
  import opened CText
  import opened Syntax
  import opened Scope

  /** The characters that end an identifier: white space and `; , ) > } *`. */
  predicate IsIdentStop(c: char) {
    IsSpace(c) || c == ';' || c == ',' || c == ')' || c == '>' || c == '}' || c == '*'
  }

  /** A character that an identifier copies into its name buffer. */
  predicate IsNameChar(c: char) {
    c != NUL && !IsIdentStop(c) && !IsOpener(c)
  }

  /**
   * The copy loop, standing at `q` with the name and parameter text read so far.
   * A bracket starts a parameter list that skip_scope skips and that replaces the
   * parameter text; any other character that does not stop the identifier is
   * appended to the name.
   */
  function IdentLoop(s: seq<char>, q: nat, allowParams: bool, name: seq<char>, params: seq<char>): (r: Scan<Ident>)
    ensures r.Ok? ==> q <= r.next <= |s| && IsIdentStop(At(s, r.next))
    ensures r.Ok? ==> |name| <= |r.value.name| && r.value.name[..|name|] == name
    ensures r.Ok? ==> forall k :: |name| <= k < |r.value.name| ==> IsNameChar(r.value.name[k])
    ensures r.Ok? ==> r.value.params == params || |r.value.params| + q <= |s|
    ensures r.Ok? && !allowParams ==> r.value.name == name + s[q..r.next] && r.value.params == params
    ensures r.Err? ==> r.diag.offset.Some? && q <= r.diag.offset.value
    ensures r.Err? ==> var k := r.diag.offset.value;
              (r.diag.kind == UnexpectedEndOfToken && At(s, k) == NUL) ||
              (r.diag.kind == UnexpectedChar(At(s, k)) && IsOpener(At(s, k)) && !allowParams)
    ensures r.Undefined? ==> allowParams
    decreases |s| - q
  {
    var c := At(s, q);
    if c == NUL then Err(Diag(Some(q), UnexpectedEndOfToken))
    else if IsIdentStop(c) then Ok(q, Ident(name, params))
    else if IsOpener(c) then
      if !allowParams then Err(Diag(Some(q), UnexpectedChar(c)))
      else match SkipScopeSpec(s, q)
        case Ok(e, _) => IdentLoop(s, e, allowParams, name, s[q..e])
        case _ => Scan.Undefined  // skip_scope returned NULL and strncpy is given `NULL - ptr`
    else
      var r := IdentLoop(s, q + 1, allowParams, name + [c], params);
      NameGrows(s, q, if r.Ok? then r.next else q, name);
      r
  }

  /** Appending the character at `q` and then the text after it appends the text from `q`. */
  lemma NameGrows(s: seq<char>, q: nat, e: nat, name: seq<char>)
    requires q < |s|
    ensures q < e <= |s| ==> (name + [At(s, q)]) + s[q + 1..e] == name + s[q..e]
  {
    if q < e <= |s| {
      assert s[q..e] == [s[q]] + s[q + 1..e];
    }
  }

  /**
   * parse_c_identifier(ptr, buff, params): skip white space, demand a letter or
   * `_`, then copy up to the first stop character. `allowParams` says whether a
   * params buffer was passed (a bracket is an error otherwise).
   */
  function IdentifierSpec(s: seq<char>, p: nat, allowParams: bool): (r: Scan<Ident>)
    ensures var q := SkipWs(s, p);
      !(IsAlpha(At(s, q)) || At(s, q) == '_') <==> r == Err(Diag(Some(q), InvalidIdentifier(At(s, q))))
    ensures r.Ok? ==> var q := SkipWs(s, p);
      q < r.next <= |s| && IsIdentStop(At(s, r.next))
      && |r.value.name| > 0 && r.value.name[0] == At(s, q)
      && (forall k :: 0 <= k < |r.value.name| ==> IsNameChar(r.value.name[k]))
      && |r.value.params| + p < |s|
      && (!allowParams ==> r.value.name == s[q..r.next] && r.value.params == [])
    ensures r.Undefined? ==> allowParams
  {
    IdentFrom(s, SkipWs(s, p), allowParams)
  }

  /** The identifier that starts at `q`, after the white space. */
  function IdentFrom(s: seq<char>, q: nat, allowParams: bool): (r: Scan<Ident>)
    ensures !(IsAlpha(At(s, q)) || At(s, q) == '_') <==> r == Err(Diag(Some(q), InvalidIdentifier(At(s, q))))
    ensures r.Ok? ==>
      q < r.next <= |s| && IsIdentStop(At(s, r.next))
      && |r.value.name| > 0 && r.value.name[0] == At(s, q)
      && (forall k :: 0 <= k < |r.value.name| ==> IsNameChar(r.value.name[k]))
      && |r.value.params| + q < |s|
      && (!allowParams ==> r.value.name == s[q..r.next] && r.value.params == [])
    ensures r.Undefined? ==> allowParams
  {
    var c := At(s, q);
    if !IsAlpha(c) && c != '_' then Err(Diag(Some(q), InvalidIdentifier(c)))
    else
      // The first character is a letter or `_`: the loop copies it and goes on.
      var r := IdentLoop(s, q + 1, allowParams, [c], []);
      NameGrows(s, q, if r.Ok? then r.next else q, []);
      r
  }

  /** A first character that belongs to the name is copied as its first character. */
  lemma IdentLoopFirst(s: seq<char>, q: nat, allowParams: bool)
    requires IsNameChar(At(s, q))
    ensures IdentLoop(s, q, allowParams, [], []) == IdentLoop(s, q + 1, allowParams, [At(s, q)], [])
  {
    assert [] + [At(s, q)] == [At(s, q)];
  }

  /** The characters from `q` up to `e` all belong to a name. */
  predicate NameRun(s: seq<char>, q: nat, e: nat)
    ensures NameRun(s, q, e) && q < e ==> e <= |s|
    decreases e - q
  {
    q >= e || (IsNameChar(At(s, q)) && NameRun(s, q + 1, e))
  }

  /** The loop copies a run of name characters that ends at a stop character, and stops there. */
  lemma {:induction false} IdentLoopCopiesRun(s: seq<char>, q: nat, e: nat, allowParams: bool,
                                              name: seq<char>, params: seq<char>)
    requires q <= e && NameRun(s, q, e) && IsIdentStop(At(s, e))
    ensures IdentLoop(s, q, allowParams, name, params) == Ok(e, Ident(name + s[q..e], params))
    decreases e - q
  {
    if q == e {
      assert name + s[q..e] == name;
    } else {
      var c := At(s, q);
      IdentLoopCopiesRun(s, q + 1, e, allowParams, name + [c], params);
      NameGrows(s, q, e, name);
    }
  }

  /**
   * A word: after the white space from `p`, a letter or `_` and a run of name
   * characters up to a stop character is scanned as that identifier, with no
   * parameter text.
   */
  lemma ScansWord(s: seq<char>, p: nat, q: nat, e: nat, allowParams: bool)
    requires SkipWs(s, p) == q && q < e
    requires IsAlpha(At(s, q)) || At(s, q) == '_'
    requires NameRun(s, q + 1, e) && IsIdentStop(At(s, e))
    ensures IdentifierSpec(s, p, allowParams) == Ok(e, Ident(s[q..e], []))
  {
    var c := At(s, q);
    IdentLoopCopiesRun(s, q + 1, e, allowParams, [c], []);
    assert s[q..e] == [c] + s[q + 1..e];
    assert IdentifierSpec(s, p, allowParams) == IdentFrom(s, q, allowParams);
  }

  /** Over a run of name characters the loop only appends them to the name. */
  lemma {:induction false} IdentLoopSkipsRun(s: seq<char>, q: nat, e: nat, allowParams: bool,
                                             name: seq<char>, params: seq<char>)
    requires q <= e <= |s| && NameRun(s, q, e)
    ensures IdentLoop(s, q, allowParams, name, params) == IdentLoop(s, e, allowParams, name + s[q..e], params)
    decreases e - q
  {
    if q == e {
      assert name + s[q..e] == name;
    } else {
      var c := At(s, q);
      IdentLoopSkipsRun(s, q + 1, e, allowParams, name + [c], params);
      NameGrows(s, q, e, name);
    }
  }

  /** A letter or `_` at `q` and a run of name characters after it, up to `e`. */
  lemma WordStart(s: seq<char>, p: nat, q: nat, e: nat, allowParams: bool)
    requires SkipWs(s, p) == q && q < e
    requires IsAlpha(At(s, q)) || At(s, q) == '_'
    requires NameRun(s, q + 1, e)
    ensures IdentifierSpec(s, p, allowParams) == IdentLoop(s, e, allowParams, s[q..e], [])
  {
    var c := At(s, q);
    IdentLoopSkipsRun(s, q + 1, e, allowParams, [c], []);
    assert s[q..e] == [c] + s[q + 1..e];
    assert IdentifierSpec(s, p, allowParams) == IdentFrom(s, q, allowParams);
  }

  /**
   * A name that runs into the terminator, the end of the text or an embedded
   * NUL, is "unexpected end of token" at that terminator.
   */
  lemma WordRunsOut(s: seq<char>, p: nat, q: nat, e: nat, allowParams: bool)
    requires SkipWs(s, p) == q && q < e
    requires IsAlpha(At(s, q)) || At(s, q) == '_'
    requires NameRun(s, q + 1, e) && At(s, e) == NUL
    ensures IdentifierSpec(s, p, allowParams) == Err(Diag(Some(e), UnexpectedEndOfToken))
  {
    WordStart(s, p, q, e, allowParams);
  }

  /** Without a params buffer, a `(` or `<` after the name is "unexpected" at that bracket. */
  lemma BracketWithoutParams(s: seq<char>, p: nat, q: nat, e: nat)
    requires SkipWs(s, p) == q && q < e
    requires IsAlpha(At(s, q)) || At(s, q) == '_'
    requires NameRun(s, q + 1, e) && IsOpener(At(s, e))
    ensures IdentifierSpec(s, p, false) == Err(Diag(Some(e), UnexpectedChar(At(s, e))))
  {
    WordStart(s, p, q, e, false);
  }

  /**
   * With a params buffer, a type name such as `ecs_array(int32_t, 4)`: the
   * bracket group that skip_scope skips goes to the parameter text, brackets
   * included, and stays out of the name.
   */
  lemma TypeNameWithGroup(s: seq<char>, p: nat, q: nat, e: nat, g: nat)
    requires SkipWs(s, p) == q && q < e
    requires IsAlpha(At(s, q)) || At(s, q) == '_'
    requires NameRun(s, q + 1, e) && IsOpener(At(s, e))
    requires SkipScopeSpec(s, e) == Ok(g, ()) && IsIdentStop(At(s, g))
    ensures IdentifierSpec(s, p, true) == Ok(g, Ident(s[q..e], s[e..g]))
  {
    WordStart(s, p, q, e, true);
    assert IdentLoop(s, e, true, s[q..e], []) == IdentLoop(s, g, true, s[q..e], s[e..g]);
  }

  /** The C loop: `bptr` appends to the name, a bracket hands over to skip_scope. */
  method ParseIdentifier(s: seq<char>, p: nat, allowParams: bool) returns (r: Scan<Ident>)
    ensures r == IdentifierSpec(s, p, allowParams)
  {
    var ptr := SkipWs(s, p);
    var ch := At(s, ptr);
    if !IsAlpha(ch) && ch != '_' {
      return Err(Diag(Some(ptr), InvalidIdentifier(ch)));
    }
    var name: seq<char> := [];
    var params: seq<char> := [];
    IdentLoopFirst(s, ptr, allowParams);
    while ch != NUL && !IsIdentStop(ch)
      invariant ch == At(s, ptr)
      invariant IdentLoop(s, ptr, allowParams, name, params) == IdentifierSpec(s, p, allowParams)
      decreases |s| - ptr
    {
      if ch == '(' || ch == '<' {
        if !allowParams {
          return Err(Diag(Some(ptr), UnexpectedChar(ch)));
        }
        var end := SkipScope(s, ptr);
        if !end.Ok? {
          return Scan.Undefined;
        }
        params := s[ptr..end.next];
        ptr := end.next;
      } else {
        name := name + [ch];
        ptr := ptr + 1;
      }
      ch := At(s, ptr);
    }
    if ch == NUL {
      return Err(Diag(Some(ptr), UnexpectedEndOfToken));
    }
    return Ok(ptr, Ident(name, params));
  }
}
