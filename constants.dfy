/**
 * flecs_meta_utils_parse_constants: the constants of an enum or bitmask body
 * become constant entities in the scope of the type, with an i32 value for an
 * enum and a u32 value for a bitmask.
 */
module Constants {
  import opened CText
  import opened Syntax
  import opened Tokens
  import opened Identifier
  import opened Registry

  // ---------------------------------------------------------------------------
  // Constant names
  // ---------------------------------------------------------------------------

  /** A C string held in a buffer: the characters before the first terminator. */
  function CString(x: seq<char>): (r: seq<char>)
    ensures NUL !in r
    ensures IsPrefix(r, x)
    ensures NUL !in x ==> r == x
  {
    var e := StrEnd(x, 0);
    assert forall k :: 0 <= k < e ==> x[k] == At(x, k);
    x[..e]
  }

  /**
   * The names a constant is stripped of: the name of the type (ecs_get_name) and
   * the name prefix of the world, when one is set.
   */
  datatype Naming = Naming(typeName: seq<char>, prefix: Option<seq<char>>)

  /**
   * `strncmp(name, pre, strlen(pre))` followed by a memmove over the name: a
   * name that starts with `pre` loses it, any other name is kept.
   */
  function StripLeading(name: seq<char>, pre: seq<char>): (r: seq<char>)
    ensures IsPrefix(CString(pre), name) ==> name == CString(pre) + r
    ensures !IsPrefix(CString(pre), name) ==> r == name
    ensures |r| <= |name| && r == name[|name| - |r|..]
  {
    var p := CString(pre);
    if IsPrefix(p, name) then name[|p|..] else name
  }

  /** The world prefix is stripped first, then the type name. */
  function StripNames(n: Naming, name: seq<char>): (r: seq<char>)
    ensures |r| <= |name| && r == name[|name| - |r|..]
  {
    var afterPrefix := if n.prefix.Some? then StripLeading(name, n.prefix.value) else name;
    StripLeading(afterPrefix, n.typeName)
  }

  /** The two memmoves over the token's name buffer, the world prefix first. */
  method StripConstantName(n: Naming, token: seq<char>) returns (name: seq<char>)
    ensures name == StripNames(n, token)
  {
    name := token;
    if n.prefix.Some? {
      name := StripLeading(name, n.prefix.value);
    }
    name := StripLeading(name, n.typeName);
  }

  /**
   * A constant spelled `<prefix><type name><rest>` is registered as `<rest>`:
   * the world prefix goes first, then the type name.
   */
  lemma StripsPrefixThenTypeName(prefix: seq<char>, typeName: seq<char>, rest: seq<char>)
    requires NUL !in prefix && NUL !in typeName
    ensures StripNames(Naming(typeName, Some(prefix)), prefix + typeName + rest) == rest
  {
    var name := prefix + typeName + rest;
    assert name[..|prefix|] == prefix;
    assert name[|prefix|..] == typeName + rest;
    assert (typeName + rest)[..|typeName|] == typeName;
    assert (typeName + rest)[|typeName|..] == rest;
  }

  /**
   * The type name is only stripped from the front of what the prefix left: a
   * constant spelled `<type name><prefix><rest>` keeps the prefix when the
   * type name does not itself start with it.
   */
  lemma TypeNameBeforePrefixKeepsPrefix(prefix: seq<char>, typeName: seq<char>, rest: seq<char>)
    requires NUL !in prefix && NUL !in typeName
    requires !IsPrefix(prefix, typeName + prefix + rest)
    ensures StripNames(Naming(typeName, Some(prefix)), typeName + prefix + rest) == prefix + rest
  {
    var name := typeName + prefix + rest;
    assert name[..|typeName|] == typeName;
    assert name[|typeName|..] == prefix + rest;
  }

  /** The value an EcsConstant pair holds: `(ecs_u32_t)` for a bitmask, `(ecs_i32_t)` for an enum. */
  function Stored(isBitmask: bool, v: int): (r: int)
    ensures isBitmask ==> 0 <= r < 0x1_0000_0000
    ensures !isBitmask ==> -0x8000_0000 <= r < 0x8000_0000
  {
    if isBitmask then ToU32(v) else ToI32(v)
  }

  // ---------------------------------------------------------------------------
  // The constants parse_constant returns
  // ---------------------------------------------------------------------------

  /** A constant parse_constant returned, with the position it returned. */
  datatype Scanned = Scanned(next: nat, token: ConstantToken)

  /**
   * What the calls of parse_constant from one position on return: the
   * constants, in order, and the result of the first call that returned none
   * (NULL, or a path the C code leaves undefined).
   */
  datatype Stream = Stream(items: seq<Scanned>, end: Step<ConstantToken>)

  /** Calling parse_constant from `ptr` on, each call starting where the one before stopped. */
  function ScanConstants(s: seq<char>, ptr: nat): (st: Stream)
    ensures st.end.Null? || st.end.Undefined?
    decreases |s| - ptr
  {
    var step := ConstantSpec(s, ptr);
    if step.Next? then
      var rest := ScanConstants(s, step.next);
      Stream([Scanned(step.next, step.token)] + rest.items, rest.end)
    else Stream([], step)
  }

  /** The tokens of a list of scanned constants. */
  function TokensOf(items: seq<Scanned>): (ts: seq<ConstantToken>)
    ensures |ts| == |items|
    ensures forall j :: 0 <= j < |items| ==> ts[j] == items[j].token
  {
    seq(|items|, j requires 0 <= j < |items| => items[j].token)
  }

  /** The tokens parse_constant returns from `ptr` until it returns NULL. */
  function ConstantTokens(s: seq<char>, ptr: nat): (ts: seq<ConstantToken>)
  {
    TokensOf(ScanConstants(s, ptr).items)
  }

  // ---------------------------------------------------------------------------
  // The loop
  // ---------------------------------------------------------------------------

  /**
   * The passes of the loop over the constants `items`, with `last` holding
   * last_value and the constants registered and diagnostics logged so far: a
   * constant without a value is an error in a bitmask, and otherwise takes
   * last_value; the constant is registered and last_value moves on by one.
   * When the constants run out, `end` (parse_constant's NULL) ends the loop
   * with `*error`.
   */
  function RegisterFrom(n: Naming, isBitmask: bool, items: seq<Scanned>, end: Step<ConstantToken>,
                        last: int, consts: seq<Constant>, log: seq<Diag>): (r: Outcome<Constant>)
    requires end.Null? || end.Undefined?
    ensures r.Outcome? ==> r.status == 0 || r.status == -1
    ensures r.Outcome? ==> r.orphan.None?
    ensures r.Outcome? && !r.scopeRestored ==> r.status == -1 && isBitmask
    decreases |items|
  {
    if items == [] then
      if end.Undefined? then Outcome.Undefined
      else Outcome(if end.error then -1 else 0, consts, log + LogOf(end.log), true, None)
    else
      var t := items[0].token;
      if t.value.None? && isBitmask then
        Outcome(-1, consts, log + [Diag(Some(items[0].next), BitmaskRequiresValue)], false, None)
      else
        var v := if t.value.Some? then t.value.value else last;
        RegisterFrom(n, isBitmask, items[1..], end, v + 1,
                     consts + [Constant(StripNames(n, t.name), Stored(isBitmask, v))], log)
  }

  /** The loop from `ptr` on: the passes over what parse_constant returns from there. */
  function ConstantsFrom(n: Naming, s: seq<char>, ptr: nat, isBitmask: bool, last: int,
                         consts: seq<Constant>, log: seq<Diag>): (r: Outcome<Constant>)
    ensures r.Outcome? ==> r.status == 0 || r.status == -1
    ensures r.Outcome? ==> r.orphan.None?
    ensures r.Outcome? && !r.scopeRestored ==> r.status == -1 && isBitmask
  {
    var st := ScanConstants(s, ptr);
    RegisterFrom(n, isBitmask, st.items, st.end, last, consts, log)
  }

  /** flecs_meta_utils_parse_constants(world, t, desc, is_bitmask): last_value starts at 0. */
  function ConstantsSpec(n: Naming, desc: seq<char>, isBitmask: bool): (r: Outcome<Constant>)
    ensures r.Outcome? ==> r.status == 0 || r.status == -1
    ensures r.Outcome? && r.status == 0 ==> r.scopeRestored
    ensures r.Outcome? ==> r.orphan.None?
  {
    ConstantsFrom(n, desc, 0, isBitmask, 0, [], [])
  }

  /** Registering one more constant in front, apart from how the constants were scanned. */
  lemma RegisterCons(n: Naming, isBitmask: bool, x: Scanned, rest: seq<Scanned>, end: Step<ConstantToken>,
                     last: int, v: int, consts: seq<Constant>, log: seq<Diag>)
    requires end.Null? || end.Undefined?
    requires x.token.value.Some? || !isBitmask
    requires v == if x.token.value.Some? then x.token.value.value else last
    ensures RegisterFrom(n, isBitmask, [x] + rest, end, last, consts, log)
         == RegisterFrom(n, isBitmask, rest, end, v + 1,
                         consts + [Constant(StripNames(n, x.token.name), Stored(isBitmask, v))], log)
  {
    assert ([x] + rest)[0] == x && ([x] + rest)[1..] == rest;
  }

  /** One pass of the loop that registers a constant, seen from the pass before it. */
  lemma ConstantsFromNext(n: Naming, s: seq<char>, ptr: nat, next: nat, t: ConstantToken, isBitmask: bool,
                          last: int, v: int, consts: seq<Constant>, log: seq<Diag>)
    requires ConstantSpec(s, ptr) == Next(next, t)
    requires t.value.Some? || !isBitmask
    requires v == if t.value.Some? then t.value.value else last
    ensures ConstantsFrom(n, s, ptr, isBitmask, last, consts, log)
         == ConstantsFrom(n, s, next, isBitmask, v + 1, consts + [Constant(StripNames(n, t.name), Stored(isBitmask, v))], log)
  {
    var rest := ScanConstants(s, next);
    assert ScanConstants(s, ptr) == Stream([Scanned(next, t)] + rest.items, rest.end);
    RegisterCons(n, isBitmask, Scanned(next, t), rest.items, rest.end, last, v, consts, log);
  }

  /** A bitmask constant without a value ends the loop with -1, the scope of the type left current. */
  lemma ConstantsFromUnvalued(n: Naming, s: seq<char>, ptr: nat, next: nat, t: ConstantToken,
                              last: int, consts: seq<Constant>, log: seq<Diag>)
    requires ConstantSpec(s, ptr) == Next(next, t) && t.value.None?
    ensures ConstantsFrom(n, s, ptr, true, last, consts, log)
         == Outcome(-1, consts, log + [Diag(Some(next), BitmaskRequiresValue)], false, None)
  {
    var rest := ScanConstants(s, next);
    var items := [Scanned(next, t)] + rest.items;
    assert ScanConstants(s, ptr) == Stream(items, rest.end);
    assert items[0] == Scanned(next, t);
  }

  /** parse_constant returning NULL ends the loop with what `*error` holds. */
  lemma ConstantsFromEnd(n: Naming, s: seq<char>, ptr: nat, isBitmask: bool, last: int,
                         consts: seq<Constant>, log: seq<Diag>)
    requires ConstantSpec(s, ptr).Null?
    ensures ConstantsFrom(n, s, ptr, isBitmask, last, consts, log)
         == Outcome(if ConstantSpec(s, ptr).error then -1 else 0, consts, log + LogOf(ConstantSpec(s, ptr).log), true, None)
  {
    assert ScanConstants(s, ptr) == Stream([], ConstantSpec(s, ptr));
  }

  /** A path parse_constant leaves undefined leaves the loop undefined. */
  lemma ConstantsFromUndefined(n: Naming, s: seq<char>, ptr: nat, isBitmask: bool, last: int,
                               consts: seq<Constant>, log: seq<Diag>)
    requires ConstantSpec(s, ptr).Undefined?
    ensures ConstantsFrom(n, s, ptr, isBitmask, last, consts, log) == Outcome.Undefined
  {
    assert ScanConstants(s, ptr) == Stream([], ConstantSpec(s, ptr));
  }

  /**
   * The C loop: parse a constant until parse_constant returns NULL; each pass
   * updates last_value, strips the name in place and registers the constant.
   */
  method ParseConstants(n: Naming, desc: seq<char>, isBitmask: bool) returns (r: Outcome<Constant>)
    ensures r == ConstantsSpec(n, desc, isBitmask)
  {
    var ptr: nat := 0;
    var lastValue: int := 0;
    var consts: seq<Constant> := [];
    var log: seq<Diag> := [];
    while true
      invariant ptr <= |desc|
      invariant ConstantsFrom(n, desc, ptr, isBitmask, lastValue, consts, log) == ConstantsSpec(n, desc, isBitmask)
      decreases |desc| - ptr
    {
      var step := ParseConstant(desc, ptr);
      var done: bool, next: nat;
      done, r, next, lastValue, consts := ConstantsPass(n, desc, ptr, step, isBitmask, lastValue, consts, log);
      if done {
        return;
      }
      ptr := next;
    }
  }

  /**
   * The body of the loop after parse_constant returned `step`: either the parse
   * ends with `r`, or the constant is registered and the loop goes on from `next`.
   */
  method ConstantsPass(n: Naming, desc: seq<char>, ptr: nat, step: Step<ConstantToken>, isBitmask: bool,
                       lastValue: int, consts: seq<Constant>, log: seq<Diag>)
    returns (done: bool, r: Outcome<Constant>, next: nat, newLast: int, newConsts: seq<Constant>)
    requires step == ConstantSpec(desc, ptr)
    ensures done ==> r == ConstantsFrom(n, desc, ptr, isBitmask, lastValue, consts, log)
    ensures !done ==> ptr < next <= |desc|
    ensures !done ==> ConstantsFrom(n, desc, next, isBitmask, newLast, newConsts, log)
                      == ConstantsFrom(n, desc, ptr, isBitmask, lastValue, consts, log)
  {
    done, r, next, newLast, newConsts := true, Outcome.Undefined, ptr, lastValue, consts;
    if step.Undefined? {
      ConstantsFromUndefined(n, desc, ptr, isBitmask, lastValue, consts, log);
      return;
    }
    if step.Null? {
      ConstantsFromEnd(n, desc, ptr, isBitmask, lastValue, consts, log);
      r := Outcome(if step.error then -1 else 0, consts, log + LogOf(step.log), true, None);
      return;
    }
    if step.token.value.Some? {
      newLast := step.token.value.value;
    } else if isBitmask {
      ConstantsFromUnvalued(n, desc, ptr, step.next, step.token, lastValue, consts, log);
      r := Outcome(-1, consts, log + [Diag(Some(step.next), BitmaskRequiresValue)], false, None);
      return;
    }
    var name := StripConstantName(n, step.token.name);
    ConstantsFromNext(n, desc, ptr, step.next, step.token, isBitmask, lastValue, newLast, consts, log);
    newConsts := consts + [Constant(name, Stored(isBitmask, newLast))];
    newLast := newLast + 1;
    next := step.next;
    done := false;
  }

  /** flecs_meta_utils_parse_enum: the constants of an enum, with i32 values. */
  function EnumSpec(n: Naming, desc: seq<char>): (r: Outcome<Constant>)
    ensures r.Outcome? ==> r.scopeRestored && r.orphan.None?
  {
    ConstantsSpec(n, desc, false)
  }

  /** flecs_meta_utils_parse_bitmask: the constants of a bitmask, with u32 values. */
  function BitmaskSpec(n: Naming, desc: seq<char>): (r: Outcome<Constant>)
    ensures r.Outcome? ==> r.orphan.None?
  {
    ConstantsSpec(n, desc, true)
  }

  // ---------------------------------------------------------------------------
  // What the values mean: the implicit-value stream
  // ---------------------------------------------------------------------------

  /**
   * The value of the `i`th constant of a list whose counting starts at `start`:
   * its explicit value, or one more than the value of the constant before it
   * (`start` for the first).
   */
  function ValueOf(ts: seq<ConstantToken>, i: nat, start: int): int
    requires i < |ts|
  {
    if ts[i].value.Some? then ts[i].value.value
    else if i == 0 then start
    else ValueOf(ts, i - 1, start) + 1
  }

  /** The number of leading constants that carry an explicit value. */
  function ValuedRun(ts: seq<ConstantToken>): (k: nat)
    ensures k <= |ts|
    ensures forall j :: 0 <= j < k ==> ts[j].value.Some?
    ensures k < |ts| ==> ts[k].value.None?
  {
    if ts == [] || ts[0].value.None? then 0 else 1 + ValuedRun(ts[1..])
  }

  /** Counting in a list with one more constant in front. */
  lemma {:induction false} ValueOfShift(t: ConstantToken, ts: seq<ConstantToken>, j: nat, start: int)
    requires j < |ts|
    ensures ValueOf([t] + ts, j + 1, start) == ValueOf(ts, j, ValueOf([t], 0, start) + 1)
  {
    var all := [t] + ts;
    assert all[j + 1] == ts[j];
    if ts[j].value.None? && j > 0 {
      ValueOfShift(t, ts, j - 1, start);
    }
  }

  /**
   * The constants a body whose parse_constant results are `ts` registers, in
   * order, when counting starts at `last`: each named by StripNames and valued
   * by its explicit value or one more than the value before it; a bitmask stops
   * at the first constant without a value.
   */
  function Registered(n: Naming, isBitmask: bool, ts: seq<ConstantToken>, last: int): (cs: seq<Constant>)
    ensures |cs| == if isBitmask then ValuedRun(ts) else |ts|
  {
    if ts == [] || (isBitmask && ts[0].value.None?) then []
    else
      var v := if ts[0].value.Some? then ts[0].value.value else last;
      [Constant(StripNames(n, ts[0].name), Stored(isBitmask, v))] + Registered(n, isBitmask, ts[1..], v + 1)
  }

  /** The `j`th registered constant carries the `j`th token's stripped name and its counted value. */
  lemma {:induction false} RegisteredAt(n: Naming, isBitmask: bool, ts: seq<ConstantToken>, last: int, j: nat)
    requires j < |Registered(n, isBitmask, ts, last)|
    ensures j < |ts|
    ensures Registered(n, isBitmask, ts, last)[j]
         == Constant(StripNames(n, ts[j].name), Stored(isBitmask, ValueOf(ts, j, last)))
    decreases j
  {
    if j == 0 {
      RegisteredHead(n, isBitmask, ts, last);
    } else {
      var v := if ts[0].value.Some? then ts[0].value.value else last;
      RegisteredTail(n, isBitmask, ts, last, j);
      ValueOfTail(ts, last, j);
      RegisteredAt(n, isBitmask, ts[1..], v + 1, j - 1);
    }
  }

  /** The first registered constant is the first token's. */
  lemma RegisteredHead(n: Naming, isBitmask: bool, ts: seq<ConstantToken>, last: int)
    requires 0 < |Registered(n, isBitmask, ts, last)|
    ensures 0 < |ts|
    ensures Registered(n, isBitmask, ts, last)[0]
         == Constant(StripNames(n, ts[0].name), Stored(isBitmask, ValueOf(ts, 0, last)))
  {
    var v := if ts[0].value.Some? then ts[0].value.value else last;
    var c := Constant(StripNames(n, ts[0].name), Stored(isBitmask, v));
    assert Registered(n, isBitmask, ts, last) == [c] + Registered(n, isBitmask, ts[1..], v + 1);
    assert ValueOf(ts, 0, last) == v;
  }

  /** Past the first, the registered constants are those of the remaining tokens, counted on from the first. */
  lemma RegisteredTail(n: Naming, isBitmask: bool, ts: seq<ConstantToken>, last: int, j: nat)
    requires 0 < j < |Registered(n, isBitmask, ts, last)|
    ensures var v := if ts[0].value.Some? then ts[0].value.value else last;
      && j - 1 < |Registered(n, isBitmask, ts[1..], v + 1)|
      && Registered(n, isBitmask, ts, last)[j] == Registered(n, isBitmask, ts[1..], v + 1)[j - 1]
  {
    var v := if ts[0].value.Some? then ts[0].value.value else last;
    var c := Constant(StripNames(n, ts[0].name), Stored(isBitmask, v));
    assert Registered(n, isBitmask, ts, last) == [c] + Registered(n, isBitmask, ts[1..], v + 1);
    IndexAfterHead(Registered(n, isBitmask, ts, last), c, Registered(n, isBitmask, ts[1..], v + 1), j);
  }

  /** Past the first, the value of a constant is counted in the remaining tokens from one after the first. */
  lemma ValueOfTail(ts: seq<ConstantToken>, last: int, j: nat)
    requires 0 < j < |ts|
    ensures var v := if ts[0].value.Some? then ts[0].value.value else last;
      ts[j] == ts[1..][j - 1] && ValueOf(ts, j, last) == ValueOf(ts[1..], j - 1, v + 1)
  {
    var rest := ts[1..];
    assert ts == [ts[0]] + rest;
    ValueOfShift(ts[0], rest, j - 1, last);
    assert ValueOf([ts[0]], 0, last) == if ts[0].value.Some? then ts[0].value.value else last;
  }

  /** Indexing past the head of a sequence, kept apart from the constants it is applied to. */
  lemma IndexAfterHead(cs: seq<Constant>, c: Constant, later: seq<Constant>, j: nat)
    requires cs == [c] + later && 0 < j < |cs|
    ensures cs[j] == later[j - 1]
  {
  }

  /**
   * `r` is what the loop registers from the tokens `ts` on, given the constants
   * `consts` registered before and last_value `last`: the constants Registered
   * describes after `consts`, and for a bitmask that meets a constant without a
   * value, -1 and a diagnostic.
   */
  ghost predicate Follows(n: Naming, isBitmask: bool, last: int, consts: seq<Constant>,
                          ts: seq<ConstantToken>, r: Outcome<Constant>)
  {
    r.Outcome? ==>
      r.items == consts + Registered(n, isBitmask, ts, last)
      && (isBitmask && ValuedRun(ts) < |ts| ==>
            r.status == -1 && !r.scopeRestored && |r.log| > 0 && r.log[|r.log| - 1].kind == BitmaskRequiresValue)
  }

  /** One more token in front registers one more constant in front, unless a bitmask stops at it. */
  lemma RegisteredCons(n: Naming, isBitmask: bool, last: int, t: ConstantToken, rest: seq<ConstantToken>)
    requires t.value.Some? || !isBitmask
    ensures var v := if t.value.Some? then t.value.value else last;
      Registered(n, isBitmask, [t] + rest, last)
      == [Constant(StripNames(n, t.name), Stored(isBitmask, v))] + Registered(n, isBitmask, rest, v + 1)
    ensures isBitmask ==> ValuedRun([t] + rest) == 1 + ValuedRun(rest)
  {
    var ts := [t] + rest;
    assert ts[0] == t && ts[1..] == rest;
  }

  /** Registering the constant of token `t` in front of what the rest of the loop registers. */
  lemma FollowsCons(n: Naming, isBitmask: bool, last: int, consts: seq<Constant>,
                    t: ConstantToken, v: int, rest: seq<ConstantToken>, ts: seq<ConstantToken>, r: Outcome<Constant>)
    requires ts == [t] + rest
    requires t.value.Some? || !isBitmask
    requires v == if t.value.Some? then t.value.value else last
    requires Follows(n, isBitmask, v + 1, consts + [Constant(StripNames(n, t.name), Stored(isBitmask, v))], rest, r)
    ensures Follows(n, isBitmask, last, consts, ts, r)
  {
    var c := Constant(StripNames(n, t.name), Stored(isBitmask, v));
    var later := Registered(n, isBitmask, rest, v + 1);
    RegisteredCons(n, isBitmask, last, t, rest);
    if r.Outcome? {
      AppendRegrouped(consts, c, later, Registered(n, isBitmask, [t] + rest, last), r.items);
    }
  }

  /** Sequence regrouping, kept apart from the constants it is applied to. */
  lemma AppendRegrouped(consts: seq<Constant>, c: Constant, later: seq<Constant>,
                        all: seq<Constant>, items: seq<Constant>)
    requires items == consts + [c] + later && all == [c] + later
    ensures items == consts + all
  {
  }

  /** The passes over the constants `items` register what Follows describes for their tokens. */
  lemma {:induction false} RegisterFollows(n: Naming, isBitmask: bool, items: seq<Scanned>, end: Step<ConstantToken>,
                                          last: int, consts: seq<Constant>, log: seq<Diag>)
    requires end.Null? || end.Undefined?
    ensures Follows(n, isBitmask, last, consts, TokensOf(items), RegisterFrom(n, isBitmask, items, end, last, consts, log))
    decreases |items|
  {
    if items == [] {
      assert consts + [] == consts;
    } else if items[0].token.value.None? && isBitmask {
      FollowsUnvalued(n, last, consts, items, end, log);
    } else {
      var x := items[0];
      var v := if x.token.value.Some? then x.token.value.value else last;
      var c := Constant(StripNames(n, x.token.name), Stored(isBitmask, v));
      RegisterFollows(n, isBitmask, items[1..], end, v + 1, consts + [c], log);
      FollowsRegister(n, isBitmask, x, items[1..], items, end, last, v, consts, log);
    }
  }

  /** Registering the first constant in front of what the passes over the others register. */
  lemma FollowsRegister(n: Naming, isBitmask: bool, x: Scanned, rest: seq<Scanned>, items: seq<Scanned>,
                        end: Step<ConstantToken>, last: int, v: int, consts: seq<Constant>, log: seq<Diag>)
    requires end.Null? || end.Undefined?
    requires items == [x] + rest
    requires x.token.value.Some? || !isBitmask
    requires v == if x.token.value.Some? then x.token.value.value else last
    requires var c := Constant(StripNames(n, x.token.name), Stored(isBitmask, v));
      Follows(n, isBitmask, v + 1, consts + [c], TokensOf(rest), RegisterFrom(n, isBitmask, rest, end, v + 1, consts + [c], log))
    ensures Follows(n, isBitmask, last, consts, TokensOf(items), RegisterFrom(n, isBitmask, items, end, last, consts, log))
  {
    var c := Constant(StripNames(n, x.token.name), Stored(isBitmask, v));
    RegisterCons(n, isBitmask, x, rest, end, last, v, consts, log);
    TokensOfCons(x, rest, items);
    FollowsCons(n, isBitmask, last, consts, x.token, v, TokensOf(rest), TokensOf(items),
                RegisterFrom(n, isBitmask, rest, end, v + 1, consts + [c], log));
  }

  /** The tokens of a list with one more constant in front. */
  lemma TokensOfCons(x: Scanned, rest: seq<Scanned>, items: seq<Scanned>)
    requires items == [x] + rest
    ensures TokensOf(items) == [x.token] + TokensOf(rest)
  {
    assert forall j :: 0 < j < |items| ==> items[j] == rest[j - 1];
  }

  /** A bitmask stopping at its first constant: nothing more is registered, -1 and a diagnostic. */
  lemma FollowsUnvalued(n: Naming, last: int, consts: seq<Constant>, items: seq<Scanned>,
                        end: Step<ConstantToken>, log: seq<Diag>)
    requires end.Null? || end.Undefined?
    requires items != [] && items[0].token.value.None?
    ensures Follows(n, true, last, consts, TokensOf(items), RegisterFrom(n, true, items, end, last, consts, log))
  {
    var d := Diag(Some(items[0].next), BitmaskRequiresValue);
    assert RegisterFrom(n, true, items, end, last, consts, log) == Outcome(-1, consts, log + [d], false, None);
    assert Registered(n, true, TokensOf(items), last) == [];
    assert consts + [] == consts;
    assert (log + [d])[|log + [d]| - 1] == d;
  }

  /** Follows for a loop that starts with nothing registered. */
  lemma FollowsFromStart(n: Naming, isBitmask: bool, ts: seq<ConstantToken>, r: Outcome<Constant>)
    requires Follows(n, isBitmask, 0, [], ts, r)
    ensures r.Outcome? ==>
      |r.items| == (if isBitmask then ValuedRun(ts) else |ts|)
      && (forall j :: 0 <= j < |r.items| ==>
            r.items[j] == Constant(StripNames(n, ts[j].name), Stored(isBitmask, ValueOf(ts, j, 0))))
  {
    if r.Outcome? {
      var none: seq<Constant> := [];
      assert r.items == Registered(n, isBitmask, ts, 0) by {
        assert none + Registered(n, isBitmask, ts, 0) == Registered(n, isBitmask, ts, 0);
      }
      forall j | 0 <= j < |r.items|
        ensures r.items[j] == Constant(StripNames(n, ts[j].name), Stored(isBitmask, ValueOf(ts, j, 0)))
      {
        RegisteredAt(n, isBitmask, ts, 0, j);
      }
    }
  }


  /**
   * `{ RED, GREEN, BLUE }` counts 0, 1, 2, and `{ RED = 1, GREEN, BLUE = 5 }`
   * counts 1, 2, 5: a constant without a value takes one more than the one before.
   */
  lemma ImplicitValuesCountOn()
    ensures var ts := [ConstantToken("RED", None), ConstantToken("GREEN", None), ConstantToken("BLUE", None)];
      ValueOf(ts, 0, 0) == 0 && ValueOf(ts, 1, 0) == 1 && ValueOf(ts, 2, 0) == 2
    ensures var ts := [ConstantToken("RED", Some(1)), ConstantToken("GREEN", None), ConstantToken("BLUE", Some(5))];
      ValueOf(ts, 0, 0) == 1 && ValueOf(ts, 1, 0) == 2 && ValueOf(ts, 2, 0) == 5
  {
  }

  /**
   * An enum body: every constant parse_constant returns is registered, in
   * order, the `j`th under its stripped name and with the i32 cast of its
   * explicit value or of one more than the value before it, counting from 0.
   */
  lemma EnumValuesFollowStream(n: Naming, desc: seq<char>)
    ensures var r := EnumSpec(n, desc);
      var ts := ConstantTokens(desc, 0);
      r.Outcome? ==>
        |r.items| == |ts|
        && forall j :: 0 <= j < |ts| ==>
             r.items[j] == Constant(StripNames(n, ts[j].name), ToI32(ValueOf(ts, j, 0)))
  {
    var st := ScanConstants(desc, 0);
    assert EnumSpec(n, desc) == RegisterFrom(n, false, st.items, st.end, 0, [], []);
    RegisterFollows(n, false, st.items, st.end, 0, [], []);
    FollowsFromStart(n, false, ConstantTokens(desc, 0), EnumSpec(n, desc));
  }

  /**
   * A bitmask body: the constants with explicit values are registered under
   * their stripped names with the u32 cast of that value, and the first
   * constant without one ends the parse with -1 and "bitmask requires explicit
   * value assignment".
   */
  lemma BitmaskValuesAreExplicit(n: Naming, desc: seq<char>)
    ensures var r := BitmaskSpec(n, desc);
      var ts := ConstantTokens(desc, 0);
      r.Outcome? ==>
        |r.items| == ValuedRun(ts)
        && (forall j :: 0 <= j < |r.items| ==>
              ts[j].value.Some? && r.items[j] == Constant(StripNames(n, ts[j].name), ToU32(ts[j].value.value)))
        && (ValuedRun(ts) < |ts| ==> r.status == -1 && |r.log| > 0 && r.log[|r.log| - 1].kind == BitmaskRequiresValue)
  {
    var st := ScanConstants(desc, 0);
    assert BitmaskSpec(n, desc) == RegisterFrom(n, true, st.items, st.end, 0, [], []);
    RegisterFollows(n, true, st.items, st.end, 0, [], []);
    FollowsFromStart(n, true, ConstantTokens(desc, 0), BitmaskSpec(n, desc));
  }

  // ---------------------------------------------------------------------------
  // Example enum bodies
  // ---------------------------------------------------------------------------

  /** `{ RED, GREEN, BLUE }` */
  const Colors: seq<char> := "{ " + "RED" + ", " + "GREEN" + ", " + "BLUE" + " }"

  /** `{ RED = 1, GREEN, BLUE = 5 }` */
  const SpacedValues: seq<char> := "{ " + "RED" + " = " + "1" + ", " + "GREEN" + ", " + "BLUE" + " = " + "5" + " }"

  /** `{ RED=1, GREEN, BLUE=5 }`: the same values written without spaces around `=`. */
  const JoinedValues: seq<char> := "{ " + "RED=1" + ", " + "GREEN" + ", " + "BLUE=5" + " }"

  /** Registering three constants in a row with the values `v0`, `v1` and `v2`, then reaching the `}`. */
  lemma RegistersThree(n: Naming, s: seq<char>, p1: nat, p2: nat, p3: nat,
                       t0: ConstantToken, t1: ConstantToken, t2: ConstantToken, v0: int, v1: int, v2: int)
    requires ConstantSpec(s, 0) == Next(p1, t0) && ConstantSpec(s, p1) == Next(p2, t1)
    requires ConstantSpec(s, p2) == Next(p3, t2) && ConstantSpec(s, p3) == Null(None, false)
    requires v0 == if t0.value.Some? then t0.value.value else 0
    requires v1 == if t1.value.Some? then t1.value.value else v0 + 1
    requires v2 == if t2.value.Some? then t2.value.value else v1 + 1
    ensures EnumSpec(n, s)
         == Outcome(0, [Constant(StripNames(n, t0.name), ToI32(v0)), Constant(StripNames(n, t1.name), ToI32(v1)),
                        Constant(StripNames(n, t2.name), ToI32(v2))], [], true, None)
  {
    var c0 := Constant(StripNames(n, t0.name), Stored(false, v0));
    var c1 := Constant(StripNames(n, t1.name), Stored(false, v1));
    var c2 := Constant(StripNames(n, t2.name), Stored(false, v2));
    ConstantsFromNext(n, s, 0, p1, t0, false, 0, v0, [], []);
    ConstantsFromNext(n, s, p1, p2, t1, false, v0 + 1, v1, [] + [c0], []);
    ConstantsFromNext(n, s, p2, p3, t2, false, v1 + 1, v2, [] + [c0] + [c1], []);
    ConstantsFromEnd(n, s, p3, false, v2 + 1, [] + [c0] + [c1] + [c2], []);
    assert EnumSpec(n, s) == ConstantsFrom(n, s, 0, false, 0, [], []);
    AppendThree(c0, c1, c2);
    assert [] + LogOf(None) == [];
  }

  lemma AppendThree(c0: Constant, c1: Constant, c2: Constant)
    ensures [] + [c0] + [c1] + [c2] == [c0, c1, c2]
  {
  }

  lemma ColorsRed()
    ensures ConstantSpec(Colors, 0) == Next(6, ConstantToken("RED", None))
  {
    var s := Colors;
    assert SkipWs(s, 1) == 2;
    assert OpenScope(s, 0) == Next(2, ());
    assert NameRun(s, 3, 5) && s[2..5] == "RED" && SkipWs(s, 5) == 5;
    UnvaluedConstant(s, 0, 2, 5);
  }

  lemma ColorsGreen()
    ensures ConstantSpec(Colors, 6) == Next(13, ConstantToken("GREEN", None))
  {
    var s := Colors;
    assert SkipWs(s, 6) == 7;
    assert OpenScope(s, 6) == Next(7, ());
    assert NameRun(s, 8, 12) && s[7..12] == "GREEN" && SkipWs(s, 12) == 12;
    UnvaluedConstant(s, 6, 7, 12);
  }

  lemma ColorsBlue()
    ensures ConstantSpec(Colors, 13) == Next(19, ConstantToken("BLUE", None))
  {
    var s := Colors;
    assert SkipWs(s, 13) == 14;
    assert OpenScope(s, 13) == Next(14, ());
    assert NameRun(s, 15, 18) && s[14..18] == "BLUE";
    assert SkipWs(s, 19) == 19;
    assert SkipWs(s, 18) == 19;
    UnvaluedConstant(s, 13, 14, 18);
  }

  lemma ColorsEnd()
    ensures ConstantSpec(Colors, 19) == Null(None, false)
  {
    assert SkipWs(Colors, 20) == 20;
    assert SkipWs(Colors, 19) == 19;
    assert OpenScope(Colors, 19) == Null(None, false);
  }

  /**
   * `{ RED, GREEN, BLUE }` as an enum registers RED, GREEN and BLUE, in that
   * order and under their stripped names, with the values 0, 1 and 2.
   */
  lemma ColorsCountFromZero(n: Naming)
    ensures EnumSpec(n, Colors)
         == Outcome(0, [Constant(StripNames(n, "RED"), 0), Constant(StripNames(n, "GREEN"), 1),
                        Constant(StripNames(n, "BLUE"), 2)], [], true, None)
  {
    ColorsRed();
    ColorsGreen();
    ColorsBlue();
    ColorsEnd();
    RegistersThree(n, Colors, 6, 13, 19, ConstantToken("RED", None), ConstantToken("GREEN", None),
                   ConstantToken("BLUE", None), 0, 1, 2);
  }

  /** The `= 1` after RED in `SpacedValues`. */
  lemma SpacedOne()
    ensures SkipWs(SpacedValues, 5) == 6 && At(SpacedValues, 6) == '='
    ensures ParseCDigit(SpacedValues, 7) == Some((9, 1))
  {
    var s := SpacedValues;
    assert SkipWs(s, 6) == 6;
    assert SkipWs(s, 8) == 8;
    assert SkipWs(s, 7) == 8 && At(s, 8) == '1';
    OneDigitNumber(s, 7, 8);
    assert SkipWs(s, 9) == 9;
  }

  /** The word RED in `SpacedValues`, and the `,` after its value. */
  lemma SpacedRedWord()
    ensures OpenScope(SpacedValues, 0) == Next(2, ())
    ensures IsAlpha(At(SpacedValues, 2)) && NameRun(SpacedValues, 3, 5) && IsIdentStop(At(SpacedValues, 5))
    ensures SpacedValues[2..5] == "RED" && At(SpacedValues, 9) == ','
  {
    var s := SpacedValues;
    assert SkipWs(s, 1) == 2;
  }

  lemma SpacedRed()
    ensures ConstantSpec(SpacedValues, 0) == Next(10, ConstantToken("RED", Some(1)))
  {
    SpacedRedWord();
    SpacedOne();
    ValuedConstant(SpacedValues, 0, 2, 5, 6, 9, 1);
  }

  lemma SpacedGreen()
    ensures ConstantSpec(SpacedValues, 10) == Next(17, ConstantToken("GREEN", None))
  {
    var s := SpacedValues;
    assert SkipWs(s, 10) == 11;
    assert OpenScope(s, 10) == Next(11, ());
    assert NameRun(s, 12, 16) && s[11..16] == "GREEN" && SkipWs(s, 16) == 16;
    UnvaluedConstant(s, 10, 11, 16);
  }

  /** The `= 5` after BLUE in `SpacedValues`. */
  lemma SpacedFive()
    ensures SkipWs(SpacedValues, 22) == 23 && At(SpacedValues, 23) == '='
    ensures ParseCDigit(SpacedValues, 24) == Some((27, 5))
  {
    var s := SpacedValues;
    assert SkipWs(s, 23) == 23;
    assert SkipWs(s, 25) == 25;
    assert SkipWs(s, 24) == 25 && At(s, 25) == '5';
    OneDigitNumber(s, 24, 25);
    assert SkipWs(s, 27) == 27;
    assert SkipWs(s, 26) == 27;
  }

  /** The word BLUE in `SpacedValues`, and the `}` after its value. */
  lemma SpacedBlueWord()
    ensures OpenScope(SpacedValues, 17) == Next(18, ())
    ensures IsAlpha(At(SpacedValues, 18)) && NameRun(SpacedValues, 19, 22) && IsIdentStop(At(SpacedValues, 22))
    ensures SpacedValues[18..22] == "BLUE" && At(SpacedValues, 27) == '}'
  {
    assert SkipWs(SpacedValues, 17) == 18;
  }

  lemma SpacedBlue()
    ensures ConstantSpec(SpacedValues, 17) == Next(27, ConstantToken("BLUE", Some(5)))
  {
    SpacedBlueWord();
    SpacedFive();
    ValuedConstant(SpacedValues, 17, 18, 22, 23, 27, 5);
  }

  lemma SpacedEnd()
    ensures ConstantSpec(SpacedValues, 27) == Null(None, false)
  {
    assert SkipWs(SpacedValues, 28) == 28;
    assert SkipWs(SpacedValues, 27) == 27;
    assert OpenScope(SpacedValues, 27) == Null(None, false);
  }

  /**
   * `{ RED = 1, GREEN, BLUE = 5 }` as an enum registers RED = 1, GREEN = 2 (one
   * more than RED) and BLUE = 5.
   */
  lemma SpacedValuesCountOn(n: Naming)
    ensures EnumSpec(n, SpacedValues)
         == Outcome(0, [Constant(StripNames(n, "RED"), 1), Constant(StripNames(n, "GREEN"), 2),
                        Constant(StripNames(n, "BLUE"), 5)], [], true, None)
  {
    SpacedRed();
    SpacedGreen();
    SpacedBlue();
    SpacedEnd();
    RegistersThree(n, SpacedValues, 10, 17, 27, ConstantToken("RED", Some(1)), ConstantToken("GREEN", None),
                   ConstantToken("BLUE", Some(5)), 1, 2, 5);
  }

  lemma JoinedRed()
    ensures ConstantSpec(JoinedValues, 0) == Next(8, ConstantToken("RED=1", None))
  {
    var s := JoinedValues;
    assert SkipWs(s, 1) == 2;
    assert OpenScope(s, 0) == Next(2, ());
    assert NameRun(s, 3, 7) && s[2..7] == "RED=1" && SkipWs(s, 7) == 7;
    UnvaluedConstant(s, 0, 2, 7);
  }

  lemma JoinedGreen()
    ensures ConstantSpec(JoinedValues, 8) == Next(15, ConstantToken("GREEN", None))
  {
    var s := JoinedValues;
    assert SkipWs(s, 8) == 9;
    assert OpenScope(s, 8) == Next(9, ());
    assert NameRun(s, 10, 14) && s[9..14] == "GREEN" && SkipWs(s, 14) == 14;
    UnvaluedConstant(s, 8, 9, 14);
  }

  lemma JoinedBlue()
    ensures ConstantSpec(JoinedValues, 15) == Next(23, ConstantToken("BLUE=5", None))
  {
    var s := JoinedValues;
    assert SkipWs(s, 15) == 16;
    assert OpenScope(s, 15) == Next(16, ());
    assert NameRun(s, 17, 22) && s[16..22] == "BLUE=5";
    assert SkipWs(s, 23) == 23;
    assert SkipWs(s, 22) == 23;
    UnvaluedConstant(s, 15, 16, 22);
  }

  lemma JoinedEnd()
    ensures ConstantSpec(JoinedValues, 23) == Null(None, false)
  {
    assert SkipWs(JoinedValues, 24) == 24;
    assert SkipWs(JoinedValues, 23) == 23;
    assert OpenScope(JoinedValues, 23) == Null(None, false);
  }

  /**
   * `{ RED=1, GREEN, BLUE=5 }` as an enum: `=` does not end an identifier, so
   * the constants are named `RED=1`, `GREEN` and `BLUE=5` and count 0, 1, 2.
   */
  lemma JoinedValuesBecomeNames(n: Naming)
    ensures EnumSpec(n, JoinedValues)
         == Outcome(0, [Constant(StripNames(n, "RED=1"), 0), Constant(StripNames(n, "GREEN"), 1),
                        Constant(StripNames(n, "BLUE=5"), 2)], [], true, None)
  {
    JoinedRed();
    JoinedGreen();
    JoinedBlue();
    JoinedEnd();
    RegistersThree(n, JoinedValues, 8, 15, 23, ConstantToken("RED=1", None), ConstantToken("GREEN", None),
                   ConstantToken("BLUE=5", None), 0, 1, 2);
  }
}
