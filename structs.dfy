/**
 * flecs_meta_utils_parse_struct: the member declarations of a struct body become
 * member entities in the scope of the struct.
 */
module Structs {
  import opened CText
  import opened Syntax
  import opened Tokens
  import opened Identifier
  import opened TypeLookup
  import opened Registry

  /**
   * The loop from `ptr` on, with the members registered and the diagnostics
   * logged so far: parse_member, then what its result decides.
   */
  function StructFrom(w: World, s: seq<char>, ptr: nat, members: seq<Member>, log: seq<Diag>): (r: Outcome<Member>)
    ensures r.Outcome? ==> r.status == 0 || r.status == -1
    ensures r.Outcome? ==> |members| <= |r.items| && forall k :: 0 <= k < |members| ==> r.items[k] == members[k]
    ensures r.Outcome? ==> (r.orphan.Some? <==> !r.scopeRestored)
    ensures r.Outcome? && !r.scopeRestored ==> r.status == -1
    ensures r.Outcome? ==> forall k :: |members| <= k < |r.items| ==>
              r.items[k].typ != Zero && '[' !in r.items[k].name
    decreases |s| - ptr, 2
  {
    StructStep(w, s, ptr, MemberSpec(s, ptr), members, log)
  }

  /**
   * The loop ends when parse_member returns NULL, with -1 when `*error` is set,
   * or a pointer to the terminator, with 0; a member is registered only when the
   * text goes on after its declaration.
   */
  function StructStep(w: World, s: seq<char>, ptr: nat, step: Step<MemberToken>, members: seq<Member>, log: seq<Diag>): (r: Outcome<Member>)
    requires step.Next? ==> ptr < step.next <= |s| && '[' !in step.token.name
    requires step.Null? && step.error ==> step.log.Some? && IsScopeError(step.log.value.kind)
    ensures r.Outcome? ==> r.status == 0 || r.status == -1
    ensures r.Outcome? ==> |members| <= |r.items| && forall k :: 0 <= k < |members| ==> r.items[k] == members[k]
    ensures r.Outcome? ==> (r.orphan.Some? <==> !r.scopeRestored)
    ensures r.Outcome? && !r.scopeRestored ==> r.status == -1
    ensures r.Outcome? ==> forall k :: |members| <= k < |r.items| ==>
              r.items[k].typ != Zero && '[' !in r.items[k].name
    decreases |s| - ptr, 1
  {
    match step
    case Undefined => Outcome.Undefined
    case Null(d, error) =>
      Outcome(if error then -1 else 0, members, log + LogOf(d), true, None)
    case AtEnd(_) => Outcome(0, members, log, true, None)
    case Next(next, token) =>
      if At(s, next) == NUL then Outcome(0, members, log, true, None)
      else RegisterMember(w, s, next, token, members, log)
  }

  /**
   * The body of the loop for a member declaration that ends before `next`: its
   * type is looked up; a failed lookup ends the parse with -1 and leaves the
   * member entity without a type and the scope of the struct current.
   */
  function RegisterMember(w: World, s: seq<char>, next: nat, token: MemberToken, members: seq<Member>, log: seq<Diag>): (r: Outcome<Member>)
    requires next <= |s| && '[' !in token.name
    ensures r.Outcome? ==> r.status == 0 || r.status == -1
    ensures r.Outcome? ==> |members| <= |r.items| && forall k :: 0 <= k < |members| ==> r.items[k] == members[k]
    ensures r.Outcome? ==> (r.orphan.Some? <==> !r.scopeRestored)
    ensures r.Outcome? && !r.scopeRestored ==> r.status == -1
    ensures r.Outcome? ==> forall k :: |members| <= k < |r.items| ==>
              r.items[k].typ != Zero && '[' !in r.items[k].name
    decreases |s| - next, 3
  {
    match Lookup(w, token.typ, next, 1)
    case Undefined => Outcome.Undefined
    case Resolved(typ, found) =>
      if typ == Zero then Outcome(-1, members, log + found, false, Some(token.name))
      else StructFrom(w, s, next, members + [Member(token.name, typ, ToI32(token.count))], log + found)
  }

  /** flecs_meta_utils_parse_struct(world, t, desc) in a world whose symbols are `w`. */
  function StructSpec(w: World, desc: seq<char>): (r: Outcome<Member>)
    ensures r.Outcome? ==> r.status == 0 || r.status == -1
    ensures r.Outcome? && r.status == 0 ==> r.scopeRestored && r.orphan.None?
    ensures r.Outcome? ==> forall m <- r.items :: m.typ != Zero && '[' !in m.name
  {
    StructFrom(w, desc, 0, [], [])
  }

  /** The C loop: parse a member, stop at NULL or at the terminator, look up its type, register it. */
  method ParseStruct(w: World, desc: seq<char>) returns (r: Outcome<Member>)
    ensures r == StructSpec(w, desc)
  {
    var ptr: nat := 0;
    var members: seq<Member> := [];
    var log: seq<Diag> := [];
    while true
      invariant ptr <= |desc| || ptr == 0
      invariant StructFrom(w, desc, ptr, members, log) == StructSpec(w, desc)
      decreases |desc| - ptr
    {
      var step := ParseMember(desc, ptr);
      assert StructFrom(w, desc, ptr, members, log) == StructStep(w, desc, ptr, step, members, log);
      if step.Undefined? {
        return Outcome.Undefined;
      }
      if step.Null? {
        return Outcome(if step.error then -1 else 0, members, log + LogOf(step.log), true, None);
      }
      if step.AtEnd? || At(desc, step.next) == NUL {
        return Outcome(0, members, log, true, None);
      }
      assert StructStep(w, desc, ptr, step, members, log)
          == RegisterMember(w, desc, step.next, step.token, members, log);
      var typ := Lookup(w, step.token.typ, step.next, 1);
      if typ.Undefined? {
        return Outcome.Undefined;
      }
      log := log + typ.log;
      if typ.entity == Zero {
        return Outcome(-1, members, log, false, Some(step.token.name));
      }
      members := members + [Member(step.token.name, typ.entity, ToI32(step.token.count))];
      ptr := step.next;
    }
  }

  // ---------------------------------------------------------------------------
  // Properties
  // ---------------------------------------------------------------------------

  /**
   * A description that does not start with `{` (and no white space) is refused
   * at offset 0 with -1, and nothing is registered.
   */
  lemma MissingOpenBraceFails(w: World, desc: seq<char>)
    requires At(desc, 0) != '{' && !IsSpace(At(desc, 0))
    ensures StructSpec(w, desc) == Outcome(-1, [], [Diag(Some(0), MissingOpenBrace)], true, None)
  {
    OpenScopeEnds(desc, 0);
    assert MemberSpec(desc, 0) == Null(Some(Diag(Some(0), MissingOpenBrace)), true);
    assert StructSpec(w, desc) == StructStep(w, desc, 0, MemberSpec(desc, 0), [], []);
  }

  /**
   * A member declaration that parse_member rejects after open_scope cleared
   * `*error` (a missing `;`, a missing `]`, a bad name or type) ends the parse
   * with status 0: the diagnostic is logged, the members before it stay
   * registered and the scope is set back. This is what `{ int32_t x int32_t y; }`
   * does: "missing ; after member declaration" at the second `int32_t`.
   */
  lemma MemberErrorReturnsZero(w: World, s: seq<char>, ptr: nat, members: seq<Member>, log: seq<Diag>, d: Diag)
    requires MemberSpec(s, ptr) == Null(Some(d), false)
    ensures StructFrom(w, s, ptr, members, log) == Outcome(0, members, log + [d], true, None)
  {
    assert StructFrom(w, s, ptr, members, log) == StructStep(w, s, ptr, Null(Some(d), false), members, log);
  }

  /** A body that is only `{ }`, with any white space, registers nothing and succeeds. */
  lemma EmptyBodySucceeds(w: World, desc: seq<char>)
    requires At(desc, 0) == '{' && ClosesCleanly(desc, SkipWs(desc, 1))
    ensures StructSpec(w, desc) == Outcome(0, [], [], true, None)
  {
    OpenScopeEnds(desc, 0);
    assert MemberSpec(desc, 0) == Null(None, false);
    assert StructSpec(w, desc) == StructStep(w, desc, 0, MemberSpec(desc, 0), [], []);
  }

  // ---------------------------------------------------------------------------
  // The members parse_member returns, and what the loop registers for them
  // ---------------------------------------------------------------------------

  /** A member declaration parse_member returned, with the position it returned. */
  datatype ScannedMember = ScannedMember(next: nat, token: MemberToken)

  /**
   * What the calls of parse_member from one position on return: the members
   * followed by more text, in order, and the first result that is not one (NULL,
   * the terminator, a member that ends the text, or an undefined path).
   */
  datatype MemberStream = MemberStream(items: seq<ScannedMember>, end: Step<MemberToken>)

  /** Calling parse_member from `ptr` on, each call starting where the one before stopped. */
  function ScanMembers(s: seq<char>, ptr: nat): (st: MemberStream)
    ensures !(st.end.Next? && At(s, st.end.next) != NUL)
    ensures forall x <- st.items :: At(s, x.next) != NUL
    decreases |s| - ptr
  {
    var step := MemberSpec(s, ptr);
    if step.Next? && At(s, step.next) != NUL then
      var rest := ScanMembers(s, step.next);
      MemberStream([ScannedMember(step.next, step.token)] + rest.items, rest.end)
    else MemberStream([], step)
  }

  /** The type parse_struct looks up for a scanned member: its type token, with a count of 1. */
  function MemberType(w: World, x: ScannedMember): Resolution {
    Lookup(w, x.token.typ, x.next, 1)
  }

  /** The member entity `m` is what the loop registers for `x` when its type resolves to `found`. */
  ghost predicate RegistersAs(found: Resolution, x: ScannedMember, m: Member) {
    found.Resolved? && found.entity != Zero
    && m == Member(x.token.name, found.entity, ToI32(x.token.count))
  }

  /** The status the loop returns when the members run out: -1 when parse_member set `*error`. */
  function EndStatus(end: Step<MemberToken>): int {
    if end.Null? && end.error then -1 else 0
  }

  /**
   * `r` registers, after `members`, the scanned members `st` in order until the
   * first whose type `look` does not find; that one ends the parse with -1,
   * leaves the scope of the struct current and leaves its entity without a type.
   * When every member is registered, the end of the stream decides the status.
   */
  ghost predicate MembersFollow(look: ScannedMember -> Resolution, members: seq<Member>, st: MemberStream, r: Outcome<Member>)
    requires r.Outcome?
  {
    var n := |r.items| - |members|;
    0 <= n <= |st.items|
    && (forall j :: 0 <= j < n ==> RegistersAs(look(st.items[j]), st.items[j], r.items[|members| + j]))
    && (n < |st.items| ==>
          look(st.items[n]).Resolved? && look(st.items[n]).entity == Zero
          && r.status == -1 && !r.scopeRestored && r.orphan == Some(st.items[n].token.name))
    && (n == |st.items| ==> r.scopeRestored && r.status == EndStatus(st.end))
  }

  lemma {:induction false} StructFromFollows(w: World, look: ScannedMember -> Resolution, s: seq<char>, ptr: nat,
                                             members: seq<Member>, log: seq<Diag>)
    requires forall x :: look(x) == MemberType(w, x)
    ensures var r := StructFrom(w, s, ptr, members, log);
      r.Outcome? ==> MembersFollow(look, members, ScanMembers(s, ptr), r)
    decreases |s| - ptr
  {
    var step := MemberSpec(s, ptr);
    assert StructFrom(w, s, ptr, members, log) == StructStep(w, s, ptr, step, members, log);
    if step.Next? && At(s, step.next) != NUL {
      var x := ScannedMember(step.next, step.token);
      assert StructStep(w, s, ptr, step, members, log) == RegisterMember(w, s, step.next, step.token, members, log);
      var found := look(x);
      assert found == Lookup(w, step.token.typ, step.next, 1);
      if found.Resolved? && found.entity != Zero {
        var m := Member(x.token.name, found.entity, ToI32(x.token.count));
        StructFromFollows(w, look, s, step.next, members + [m], log + found.log);
        var r := StructFrom(w, s, step.next, members + [m], log + found.log);
        if r.Outcome? {
          assert (members + [m])[|members|] == m;
          assert r.items[|members|] == m;
          ScanMembersCons(s, ptr);
          FollowsCons(look, members, x, m, ScanMembers(s, step.next), ScanMembers(s, ptr), r);
        }
      }
    }
  }

  /** A member followed by more text is the first item of the stream. */
  lemma ScanMembersCons(s: seq<char>, ptr: nat)
    requires MemberSpec(s, ptr).Next? && At(s, MemberSpec(s, ptr).next) != NUL
    ensures var step := MemberSpec(s, ptr);
      var rest := ScanMembers(s, step.next);
      ScanMembers(s, ptr) == MemberStream([ScannedMember(step.next, step.token)] + rest.items, rest.end)
  {
  }

  /** One more registered member in front of the stream. */
  lemma FollowsCons(look: ScannedMember -> Resolution, members: seq<Member>, x: ScannedMember, m: Member,
                    rest: MemberStream, st: MemberStream, r: Outcome<Member>)
    requires RegistersAs(look(x), x, m)
    requires st == MemberStream([x] + rest.items, rest.end)
    requires r.Outcome? && |members| < |r.items| && r.items[|members|] == m
    requires MembersFollow(look, members + [m], rest, r)
    ensures MembersFollow(look, members, st, r)
  {
    var n := |r.items| - |members|;
    forall j | 0 <= j < n
      ensures RegistersAs(look(st.items[j]), st.items[j], r.items[|members| + j])
    {
      if j > 0 {
        var k := j - 1;
        assert |members + [m]| + k == |members| + j;
        assert RegistersAs(look(rest.items[k]), rest.items[k], r.items[|members + [m]| + k]);
        assert st.items[j] == rest.items[k];
      } else {
        assert st.items[0] == x;
      }
    }
    if n < |st.items| {
      assert st.items[n] == rest.items[n - 1];
    }
  }

  /**
   * parse_struct registers the members parse_member returns, in order, each
   * under its name with the type `look` finds for it (the lookup with a count
   * of 1) and the i32 cast of its count, until a type is not found: that ends
   * the parse with -1, the member's entity orphaned and the scope not set back.
   * When all are registered it returns -1 only if parse_member set `*error`.
   */
  lemma StructMembersFollowStream(w: World, desc: seq<char>, look: ScannedMember -> Resolution)
    requires forall x :: look(x) == MemberType(w, x)
    ensures var r := StructSpec(w, desc);
      r.Outcome? ==> RegistersStream(look, ScanMembers(desc, 0), r)
  {
    var none: seq<Member> := [];
    StructFromFollows(w, look, desc, 0, none, []);
    var r := StructSpec(w, desc);
    if r.Outcome? {
      FollowsFromStart(look, ScanMembers(desc, 0), r);
    }
  }

  /**
   * The members registered are the first members of the stream, in order, each
   * registered as its lookup says; when one is left over, its type was not
   * found and the loop failed there; otherwise the loop ran to the end of the
   * stream and its status is that of the stream's end.
   */
  ghost predicate RegistersStream(look: ScannedMember -> Resolution, st: MemberStream, r: Outcome<Member>)
    requires r.Outcome?
  {
    |r.items| <= |st.items|
    && (forall j :: 0 <= j < |r.items| ==> RegistersAs(look(st.items[j]), st.items[j], r.items[j]))
    && (|r.items| < |st.items| ==>
          look(st.items[|r.items|]).Resolved? && look(st.items[|r.items|]).entity == Zero
          && r.status == -1 && !r.scopeRestored && r.orphan == Some(st.items[|r.items|].token.name))
    && (|r.items| == |st.items| ==> r.scopeRestored && r.status == EndStatus(st.end))
  }

  lemma FollowsFromStart(look: ScannedMember -> Resolution, st: MemberStream, r: Outcome<Member>)
    requires r.Outcome? && MembersFollow(look, [], st, r)
    ensures RegistersStream(look, st, r)
  {
    forall j | 0 <= j < |r.items|
      ensures RegistersAs(look(st.items[j]), st.items[j], r.items[j])
    {
      assert 0 + j == j;
    }
  }

  // ---------------------------------------------------------------------------
  // Example struct bodies
  // ---------------------------------------------------------------------------

  /** `{ int32_t x; int32_t y; }` */
  const TwoMembers: seq<char> := "{ " + "int32_t" + " " + "x" + "; " + "int32_t" + " " + "y" + "; }"

  /** `{ int32_t x[4]; }` */
  const ArrayMember: seq<char> := "{ " + "int32_t" + " " + "x[4]" + "; }"

  /** `{ int32_t x int32_t y; }`: the `;` after `x` is missing. */
  const NoSemicolon: seq<char> := "{ " + "int32_t" + " " + "x" + " " + "int32_t" + " " + "y" + "; }"

  /**
   * A member that is accepted and followed by more text, and whose type is
   * found, is registered with that type and the i32 cast of its count, and the
   * loop goes on after it.
   */
  lemma RegistersMember(w: World, s: seq<char>, ptr: nat, next: nat, token: MemberToken,
                        typ: Entity, found: seq<Diag>, members: seq<Member>, log: seq<Diag>)
    requires MemberSpec(s, ptr) == Next(next, token) && At(s, next) != NUL
    requires Lookup(w, token.typ, next, 1) == Resolved(typ, found) && typ != Zero
    ensures StructFrom(w, s, ptr, members, log)
         == StructFrom(w, s, next, members + [Member(token.name, typ, ToI32(token.count))], log + found)
  {
    assert StructFrom(w, s, ptr, members, log) == StructStep(w, s, ptr, Next(next, token), members, log);
    assert StructStep(w, s, ptr, Next(next, token), members, log) == RegisterMember(w, s, next, token, members, log);
  }

  /**
   * A member whose type is not found ends the loop with -1: the diagnostics of
   * the lookup are logged, the scope of the struct stays current and the member's
   * entity is left without a type.
   */
  lemma UnknownTypeStops(w: World, s: seq<char>, ptr: nat, next: nat, token: MemberToken,
                         found: seq<Diag>, members: seq<Member>, log: seq<Diag>)
    requires MemberSpec(s, ptr) == Next(next, token) && At(s, next) != NUL
    requires Lookup(w, token.typ, next, 1) == Resolved(Zero, found)
    ensures StructFrom(w, s, ptr, members, log) == Outcome(-1, members, log + found, false, Some(token.name))
  {
    assert StructFrom(w, s, ptr, members, log) == StructStep(w, s, ptr, Next(next, token), members, log);
    assert StructStep(w, s, ptr, Next(next, token), members, log) == RegisterMember(w, s, next, token, members, log);
  }

  /** The last declaration, when the text ends right after it, is never registered. */
  lemma LastMemberAtEndDropped(w: World, s: seq<char>, ptr: nat, next: nat, token: MemberToken,
                               members: seq<Member>, log: seq<Diag>)
    requires MemberSpec(s, ptr) == Next(next, token) && At(s, next) == NUL
    ensures StructFrom(w, s, ptr, members, log) == Outcome(0, members, log, true, None)
  {
    assert StructFrom(w, s, ptr, members, log) == StructStep(w, s, ptr, Next(next, token), members, log);
  }

  /** A `}` with only white space after it ends the loop with 0 and what was registered. */
  lemma ClosingBraceEnds(w: World, s: seq<char>, ptr: nat, members: seq<Member>, log: seq<Diag>)
    requires OpenScope(s, ptr) == Null(None, false)
    ensures StructFrom(w, s, ptr, members, log) == Outcome(0, members, log, true, None)
  {
    assert MemberSpec(s, ptr) == Null(None, false);
    assert StructFrom(w, s, ptr, members, log) == StructStep(w, s, ptr, Null(None, false), members, log);
    assert log + [] == log;
  }

  /** Where the members of `TwoMembers` start, and what they spell. */
  lemma TwoMembersLayout()
    ensures OpenScope(TwoMembers, 0) == Next(2, ()) && TwoMembers[2..12] == "int32_t " + ['x'] + ";"
    ensures OpenScope(TwoMembers, 12) == Next(13, ()) && TwoMembers[13..23] == "int32_t " + ['y'] + ";"
  {
    assert SkipWs(TwoMembers, 1) == 2;
    assert SkipWs(TwoMembers, 12) == 13;
  }

  lemma TwoMembersFirst()
    ensures MemberSpec(TwoMembers, 0) == Next(12, MemberToken(Int32, "x", 1))
  {
    TwoMembersLayout();
    Int32Member(TwoMembers, 0, 2, 'x');
  }

  lemma TwoMembersSecond()
    ensures MemberSpec(TwoMembers, 12) == Next(23, MemberToken(Int32, "y", 1))
  {
    TwoMembersLayout();
    Int32Member(TwoMembers, 12, 13, 'y');
  }

  /** The `}` of `TwoMembers`, and the text after each member. */
  lemma TwoMembersEnd()
    ensures OpenScope(TwoMembers, 23) == Null(None, false)
    ensures At(TwoMembers, 12) != NUL && At(TwoMembers, 23) != NUL
  {
    assert SkipWs(TwoMembers, 25) == 25;
    assert SkipWs(TwoMembers, 23) == 24;
  }

  /** `{ int32_t x; int32_t y; }` registers `x` and `y`, both int32 with a count of 1, and returns 0. */
  lemma TwoMembersRegistered(w: World)
    ensures StructSpec(w, TwoMembers)
         == Outcome(0, [Member("x", Builtin(I32), 1), Member("y", Builtin(I32), 1)], [], true, None)
  {
    TwoMembersFirst();
    TwoMembersSecond();
    TwoMembersEnd();
    TwoInt32Members(w, TwoMembers, 12, 23, "x", "y");
  }

  /** Two int32 members, each followed by more text, and then a `}` that ends the body. */
  lemma TwoInt32Members(w: World, s: seq<char>, n1: nat, n2: nat, a: seq<char>, b: seq<char>)
    requires MemberSpec(s, 0) == Next(n1, MemberToken(Int32, a, 1)) && At(s, n1) != NUL
    requires MemberSpec(s, n1) == Next(n2, MemberToken(Int32, b, 1)) && At(s, n2) != NUL
    requires OpenScope(s, n2) == Null(None, false)
    ensures StructSpec(w, s) == Outcome(0, [Member(a, Builtin(I32), 1), Member(b, Builtin(I32), 1)], [], true, None)
  {
    var x, y := Member(a, Builtin(I32), 1), Member(b, Builtin(I32), 1);
    Int32IsBuiltin(w, n1);
    Int32IsBuiltin(w, n2);
    RegistersMember(w, s, 0, n1, MemberToken(Int32, a, 1), Builtin(I32), [], [], []);
    assert [] + [x] == [x];
    RegistersMember(w, s, n1, n2, MemberToken(Int32, b, 1), Builtin(I32), [], [x], []);
    assert [x] + [y] == [x, y];
    ClosingBraceEnds(w, s, n2, [x, y], []);
  }

  /** Where the member of `ArrayMember` starts, and what it spells. */
  lemma ArrayMemberLayout()
    ensures OpenScope(ArrayMember, 0) == Next(2, ()) && ArrayMember[2..15] == "int32_t x[4];"
  {
    assert SkipWs(ArrayMember, 1) == 2;
  }

  lemma ArrayMemberScanned()
    ensures MemberSpec(ArrayMember, 0) == Next(15, MemberToken(Int32, "x", 4))
  {
    ArrayMemberLayout();
    Int32ArrayMember(ArrayMember, 0, 2);
  }

  /** The `}` of `ArrayMember`, and the text after its member. */
  lemma ArrayMemberEnd()
    ensures OpenScope(ArrayMember, 15) == Null(None, false) && At(ArrayMember, 15) != NUL
  {
    assert SkipWs(ArrayMember, 17) == 17;
    assert SkipWs(ArrayMember, 15) == 16;
  }

  /** `{ int32_t x[4]; }` registers one member `x`, int32 with a count of 4, and returns 0. */
  lemma ArrayMemberRegistered(w: World)
    ensures StructSpec(w, ArrayMember) == Outcome(0, [Member("x", Builtin(I32), 4)], [], true, None)
  {
    var x := Member("x", Builtin(I32), 4);
    ArrayMemberScanned();
    ArrayMemberEnd();
    Int32IsBuiltin(w, 15);
    RegistersMember(w, ArrayMember, 0, 15, MemberToken(Int32, "x", 4), Builtin(I32), [], [], []);
    assert [] + [x] == [x];
    ClosingBraceEnds(w, ArrayMember, 15, [x], []);
  }

  /** Where the first member of `NoSemicolon` starts, and what it spells. */
  lemma NoSemicolonLayout()
    ensures OpenScope(NoSemicolon, 0) == Next(2, ())
    ensures NoSemicolon[2..13] == "int32_t x i"
  {
    assert SkipWs(NoSemicolon, 1) == 2;
  }

  lemma NoSemicolonScanned()
    ensures MemberSpec(NoSemicolon, 0) == Null(Some(Diag(Some(12), MissingSemicolon)), false)
  {
    NoSemicolonLayout();
    Int32MemberWithoutSemicolon(NoSemicolon, 0, 2);
  }

  /**
   * `{ int32_t x int32_t y; }` registers no member and logs "missing ; after
   * member declaration" at offset 12, the second `int32_t`; the status it
   * returns is 0.
   */
  lemma NoSemicolonRegistersNothing(w: World)
    ensures StructSpec(w, NoSemicolon) == Outcome(0, [], [Diag(Some(12), MissingSemicolon)], true, None)
  {
    NoSemicolonScanned();
    MemberErrorReturnsZero(w, NoSemicolon, 0, [], [], Diag(Some(12), MissingSemicolon));
  }

  /** `{ int32_t x;`: the `}` is missing. */
  const Unclosed: seq<char> := "{ " + "int32_t" + " " + "x" + ";"

  /** Where the member of `Unclosed` starts, and what it spells. */
  lemma UnclosedLayout()
    ensures OpenScope(Unclosed, 0) == Next(2, ()) && Unclosed[2..12] == "int32_t " + ['x'] + ";"
    ensures |Unclosed| == 12
  {
    assert SkipWs(Unclosed, 1) == 2;
  }

  /**
   * `{ int32_t x;` returns 0 with nothing registered and nothing logged: its only
   * member ends the text, so the loop stops before open_scope could report the
   * missing `}`.
   */
  lemma UnclosedBodyReportsNothing(w: World)
    ensures StructSpec(w, Unclosed) == Outcome(0, [], [], true, None)
  {
    UnclosedLayout();
    Int32Member(Unclosed, 0, 2, 'x');
    LastMemberAtEndDropped(w, Unclosed, 0, 12, MemberToken(Int32, "x", 1), [], []);
  }
}
