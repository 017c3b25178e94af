/**
 * skip_scope: skip a bracketed parameter list such as `(int32_t, 4)` or
 * `<K, V>`, keeping the kind of every open bracket on a stack of at most 256.
 */
module Scope {
  import opened CText
  import opened Syntax

  const STACK_SIZE: nat := 256

  /**
   * What the scan returns once it stands at `ptr` with the open brackets `stack`.
   * The scan stops just after the character that empties the stack, at the
   * terminator, or with an error.
   */
  function ScopeFrom(s: seq<char>, ptr: nat, stack: seq<char>): (r: Scan<()>)
    requires |stack| < STACK_SIZE
    ensures r != Scan.Undefined
    ensures r.Ok? ==> ptr <= r.next && (r.next > ptr ==> r.next <= |s|)
    ensures r.Ok? && At(s, ptr) != NUL ==> ptr < r.next <= |s|
    ensures r.Err? ==> r.diag.offset.Some? && ptr <= r.diag.offset.value < |s|
    ensures r.Err? ==> var k := r.diag.offset.value;
              (r.diag.kind == MaxNesting && IsOpener(At(s, k))) ||
              (r.diag.kind == Mismatching(At(s, k)) && IsCloser(At(s, k)))
    decreases |s| - ptr
  {
    var ch := At(s, ptr);
    if ch == NUL then Ok(ptr, ())
    else if IsOpener(ch) then
      if |stack| + 1 >= STACK_SIZE then Err(Diag(Some(ptr), MaxNesting))
      else ScopeFrom(s, ptr + 1, stack + [ch])
    else if IsCloser(ch) && (|stack| == 0 || stack[|stack| - 1] != OpenerOf(ch)) then
      Err(Diag(Some(ptr), Mismatching(ch)))
    else
      var popped := if IsCloser(ch) then stack[..|stack| - 1] else stack;
      if popped == [] then Ok(ptr + 1, ()) else ScopeFrom(s, ptr + 1, popped)
  }

  /** skip_scope(ptr): the scan from `p` with an empty stack. */
  function SkipScopeSpec(s: seq<char>, p: nat): (r: Scan<()>)
    ensures r != Scan.Undefined
    ensures r.Ok? && At(s, p) != NUL ==> p < r.next <= |s|
    ensures r.Ok? && At(s, p) == NUL ==> r.next == p
    ensures r.Ok? && At(s, p) != NUL && !IsOpener(At(s, p)) ==> r.next == p + 1
    ensures r.Err? ==> r.diag.offset.Some? && p <= r.diag.offset.value < |s|
  {
    ScopeFrom(s, p, [])
  }

  /** The imperative scan of the C code, over a fixed stack array and stack pointer. */
  method SkipScope(s: seq<char>, p: nat) returns (r: Scan<()>)
    ensures r == SkipScopeSpec(s, p)
  {
    var stack := new char[STACK_SIZE];
    var sp: int := 0;
    var ptr := p;
    while At(s, ptr) != NUL
      invariant p <= ptr
      invariant 0 <= sp < STACK_SIZE
      invariant ptr == p || sp > 0
      invariant ScopeFrom(s, ptr, stack[..sp]) == SkipScopeSpec(s, p)
      decreases |s| - ptr
    {
      var ch := At(s, ptr);
      ghost var before := stack[..sp];
      if ch == '(' || ch == '<' {
        stack[sp] := ch;
        sp := sp + 1;
        assert stack[..sp] == before + [ch];
        if sp >= STACK_SIZE {
          return Err(Diag(Some(ptr), MaxNesting));
        }
      } else if ch == ')' || ch == '>' {
        sp := sp - 1;
        if sp < 0 || (ch == '>' && stack[sp] != '<') || (ch == ')' && stack[sp] != '(') {
          return Err(Diag(Some(ptr), Mismatching(ch)));
        }
        assert stack[..sp] == before[..|before| - 1];
      }
      ptr := ptr + 1;
      if sp == 0 {
        break;
      }
    }
    return Ok(ptr, ());
  }


  // ---------------------------------------------------------------------------
  // What the scan means: bracket depth and matching brackets, without a stack
  // ---------------------------------------------------------------------------

  /** +1 for an opener, -1 for a closer, 0 for anything else. */
  function Weight(c: char): int {
    if IsOpener(c) then 1 else if IsCloser(c) then -1 else 0
  }

  /** Openers minus closers among the characters at positions p .. k-1. */
  function Depth(s: seq<char>, p: nat, k: nat): int
    requires p <= k
    decreases k - p
  {
    if k == p then 0 else Depth(s, p, k - 1) + Weight(At(s, k - 1))
  }

  /** The last position j with p <= j < k at which the depth is d, or -1 when there is none. */
  function LastAtDepth(s: seq<char>, p: nat, k: nat, d: int): (j: int)
    requires p <= k
    ensures j == -1 || (p <= j < k && Depth(s, p, j) == d)
    ensures forall i :: (if j == -1 then p else j + 1) <= i < k ==> Depth(s, p, i) != d
    decreases k - p
  {
    if k == p then -1 else if Depth(s, p, k - 1) == d then k - 1 else LastAtDepth(s, p, k - 1, d)
  }

  /**
   * The closer at `k` closes a bracket of its own kind: the bracket opened at the
   * last position before `k` whose depth is the depth the closer returns to.
   */
  ghost predicate ClosesItsOpener(s: seq<char>, p: nat, k: nat)
    requires p <= k && IsCloser(At(s, k))
  {
    var j := LastAtDepth(s, p, k, Depth(s, p, k + 1));
    p <= j && At(s, j) == OpenerOf(At(s, k))
  }

  /**
   * Up to `e` the text is well nested by kind: no terminator, fewer than 256
   * brackets open at any point, and every closer closes its own opener.
   */
  ghost predicate WellNested(s: seq<char>, p: nat, e: nat) {
    forall k :: p <= k < e ==>
      At(s, k) != NUL && Depth(s, p, k + 1) < STACK_SIZE
      && (IsCloser(At(s, k)) ==> ClosesItsOpener(s, p, k))
  }

  /** The group opened at `p` is still open at every position up to `e`. */
  ghost predicate StaysOpen(s: seq<char>, p: nat, e: nat) {
    forall k :: p < k <= e ==> Depth(s, p, k) > 0
  }

  /**
   * The text from `p` up to `e` is a bracket group opened at `p`: the depth first
   * returns to zero at `e`, and the character just before `e` is the closer of the
   * kind that was opened at `p`.
   */
  ghost predicate ClosesFirstOpener(s: seq<char>, p: nat, e: nat) {
    p < e
    && Depth(s, p, e) == 0
    && (forall k :: p < k < e ==> Depth(s, p, k) > 0)
    && IsCloser(At(s, e - 1)) && OpenerOf(At(s, e - 1)) == At(s, p)
  }

  /** The text from `p` ends at `e` while the group opened at `p` is still open. */
  ghost predicate EndsUnclosed(s: seq<char>, p: nat, e: nat) {
    p < e && At(s, e) == NUL && StaysOpen(s, p, e)
  }

  /** Level by level, the stack holds the bracket opened last at that depth. */
  ghost predicate Stacked(s: seq<char>, p: nat, ptr: nat, stack: seq<char>)
    requires p <= ptr
  {
    forall i :: 0 <= i < |stack| ==> StackedAt(s, p, ptr, stack, i)
  }

  /** Level `i` of the stack holds the bracket opened last at depth `i`. */
  ghost predicate StackedAt(s: seq<char>, p: nat, ptr: nat, stack: seq<char>, i: nat)
    requires p <= ptr && i < |stack|
  {
    p <= LastAtDepth(s, p, ptr, i) && stack[i] == At(s, LastAtDepth(s, p, ptr, i))
  }

  /** The scan state after the first character, in terms of the text read so far. */
  ghost predicate ScanState(s: seq<char>, p: nat, ptr: nat, stack: seq<char>) {
    p < ptr
    && 0 < |stack| < STACK_SIZE
    && |stack| == Depth(s, p, ptr)
    && StaysOpen(s, p, ptr)
    && WellNested(s, p, ptr)
    && Stacked(s, p, ptr, stack)
  }

  /** What the scan that stands at `ptr` after the opener at `p` returns, in terms of the text. */
  ghost predicate MeansGroup(s: seq<char>, p: nat, r: Scan<()>)
    requires r.Err? ==> r.diag.offset.Some? && p <= r.diag.offset.value
  {
    (r.Ok? ==> (ClosesFirstOpener(s, p, r.next) || EndsUnclosed(s, p, r.next)) && WellNested(s, p, r.next))
    && (r.Err? ==> var k := r.diag.offset.value;
          StaysOpen(s, p, k) && WellNested(s, p, k)
          && ((r.diag.kind == MaxNesting && IsOpener(At(s, k)) && Depth(s, p, k + 1) == STACK_SIZE)
              || (r.diag.kind == Mismatching(At(s, k)) && IsCloser(At(s, k)) && !ClosesItsOpener(s, p, k))))
  }

  /** The state the scan is in just after the opener at `p`. */
  lemma ScanStarts(s: seq<char>, p: nat)
    requires IsOpener(At(s, p))
    ensures ScanState(s, p, p + 1, [At(s, p)])
    ensures SkipScopeSpec(s, p) == ScopeFrom(s, p + 1, [At(s, p)])
  {
    assert Depth(s, p, p + 1) == 1;
    assert LastAtDepth(s, p, p + 1, 0) == p;
    assert StackedAt(s, p, p + 1, [At(s, p)], 0);
    assert [] + [At(s, p)] == [At(s, p)];
  }

  lemma {:induction false} ScopeFromMeaning(s: seq<char>, p: nat, ptr: nat, stack: seq<char>)
    requires ScanState(s, p, ptr, stack)
    ensures MeansGroup(s, p, ScopeFrom(s, ptr, stack))
    decreases |s| - ptr
  {
    var goesOn, next := ScanStep(s, p, ptr, stack);
    if goesOn {
      ScopeFromMeaning(s, p, ptr + 1, next);
    }
  }

  /** One step of the scan: it either moves on by one character in a state the text determines, or stops with a result that means the group. */
  lemma ScanStep(s: seq<char>, p: nat, ptr: nat, stack: seq<char>) returns (goesOn: bool, next: seq<char>)
    requires ScanState(s, p, ptr, stack)
    ensures goesOn ==> ptr < |s| && ScanState(s, p, ptr + 1, next) && ScopeFrom(s, ptr, stack) == ScopeFrom(s, ptr + 1, next)
    ensures !goesOn ==> MeansGroup(s, p, ScopeFrom(s, ptr, stack))
  {
    var ch := At(s, ptr);
    if ch != NUL && IsOpener(ch) && |stack| + 1 < STACK_SIZE {
      ScanPushes(s, p, ptr, stack);
      goesOn, next := true, stack + [ch];
    } else if ch != NUL && !IsOpener(ch) && !(IsCloser(ch) && stack[|stack| - 1] != OpenerOf(ch))
              && !(IsCloser(ch) && |stack| == 1) {
      next := if IsCloser(ch) then stack[..|stack| - 1] else stack;
      ScanMoves(s, p, ptr, stack, next);
      goesOn := true;
    } else {
      ScanStops(s, p, ptr, stack);
      goesOn, next := false, stack;
    }
  }

  /** One character on: the depth and the last position at each depth. */
  lemma StepDepth(s: seq<char>, p: nat, ptr: nat)
    requires p <= ptr
    ensures Depth(s, p, ptr + 1) == Depth(s, p, ptr) + Weight(At(s, ptr))
    ensures LastAtDepth(s, p, ptr + 1, Depth(s, p, ptr)) == ptr
    ensures forall i :: i != Depth(s, p, ptr) ==> LastAtDepth(s, p, ptr + 1, i) == LastAtDepth(s, p, ptr, i)
  {
  }

  /** The top of the stack is the opener the closer at `ptr` must match. */
  lemma TopIsOpener(s: seq<char>, p: nat, ptr: nat, stack: seq<char>)
    requires p <= ptr && Stacked(s, p, ptr, stack) && 0 < |stack| == Depth(s, p, ptr)
    requires IsCloser(At(s, ptr))
    ensures ClosesItsOpener(s, p, ptr) <==> stack[|stack| - 1] == OpenerOf(At(s, ptr))
  {
    StepDepth(s, p, ptr);
    assert StackedAt(s, p, ptr, stack, |stack| - 1);
  }

  lemma NestedStep(s: seq<char>, p: nat, ptr: nat)
    requires p <= ptr && WellNested(s, p, ptr)
    requires At(s, ptr) != NUL && Depth(s, p, ptr + 1) < STACK_SIZE
    requires IsCloser(At(s, ptr)) ==> ClosesItsOpener(s, p, ptr)
    ensures WellNested(s, p, ptr + 1)
  {
    forall k | p <= k < ptr + 1
      ensures At(s, k) != NUL && Depth(s, p, k + 1) < STACK_SIZE
              && (IsCloser(At(s, k)) ==> ClosesItsOpener(s, p, k))
    {
    }
  }

  lemma OpenStep(s: seq<char>, p: nat, ptr: nat)
    requires p <= ptr && StaysOpen(s, p, ptr) && Depth(s, p, ptr + 1) > 0
    ensures StaysOpen(s, p, ptr + 1)
  {
  }

  lemma StackedPush(s: seq<char>, p: nat, ptr: nat, stack: seq<char>)
    requires p <= ptr && Stacked(s, p, ptr, stack) && |stack| == Depth(s, p, ptr)
    ensures Stacked(s, p, ptr + 1, stack + [At(s, ptr)])
  {
    StepDepth(s, p, ptr);
    var st := stack + [At(s, ptr)];
    var next := ptr + 1;
    forall i | 0 <= i < |st|
      ensures StackedAt(s, p, next, st, i)
    {
      if i < |stack| {
        assert StackedAt(s, p, ptr, stack, i);
        assert st[i] == stack[i];
      }
    }
  }

  lemma StackedKeep(s: seq<char>, p: nat, ptr: nat, stack: seq<char>, kept: seq<char>)
    requires p <= ptr && Stacked(s, p, ptr, stack) && |stack| == Depth(s, p, ptr)
    requires |kept| <= |stack| && kept == stack[..|kept|]
    ensures Stacked(s, p, ptr + 1, kept)
  {
    StepDepth(s, p, ptr);
    var next := ptr + 1;
    forall i | 0 <= i < |kept|
      ensures StackedAt(s, p, next, kept, i)
    {
      assert kept[i] == stack[i];
      assert StackedAt(s, p, ptr, stack, i);
      assert i != Depth(s, p, ptr);
      assert LastAtDepth(s, p, ptr + 1, i) == LastAtDepth(s, p, ptr, i);
    }
  }

  /** An opener below the limit is pushed: the state moves on by one character. */
  lemma ScanPushes(s: seq<char>, p: nat, ptr: nat, stack: seq<char>)
    requires ScanState(s, p, ptr, stack)
    requires IsOpener(At(s, ptr)) && |stack| + 1 < STACK_SIZE
    ensures ScanState(s, p, ptr + 1, stack + [At(s, ptr)])
    ensures ScopeFrom(s, ptr, stack) == ScopeFrom(s, ptr + 1, stack + [At(s, ptr)])
  {
    StepDepth(s, p, ptr);
    NestedStep(s, p, ptr);
    OpenStep(s, p, ptr);
    StackedPush(s, p, ptr, stack);
  }

  /** A matching closer that leaves a bracket open, or a plain character: the state moves on by one. */
  lemma ScanMoves(s: seq<char>, p: nat, ptr: nat, stack: seq<char>, popped: seq<char>)
    requires ScanState(s, p, ptr, stack)
    requires At(s, ptr) != NUL && !IsOpener(At(s, ptr))
    requires IsCloser(At(s, ptr)) ==> stack[|stack| - 1] == OpenerOf(At(s, ptr)) && |stack| > 1
    requires popped == if IsCloser(At(s, ptr)) then stack[..|stack| - 1] else stack
    ensures ScanState(s, p, ptr + 1, popped)
    ensures ScopeFrom(s, ptr, stack) == ScopeFrom(s, ptr + 1, popped)
  {
    StepDepth(s, p, ptr);
    if IsCloser(At(s, ptr)) {
      TopIsOpener(s, p, ptr, stack);
    }
    NestedStep(s, p, ptr);
    OpenStep(s, p, ptr);
    StackedKeep(s, p, ptr, stack, popped);
  }

  /** The character at `ptr` ends the scan: the terminator, the limit, a mismatch or the last closer. */
  lemma ScanStops(s: seq<char>, p: nat, ptr: nat, stack: seq<char>)
    requires ScanState(s, p, ptr, stack)
    requires !(At(s, ptr) != NUL && IsOpener(At(s, ptr)) && |stack| + 1 < STACK_SIZE)
    requires !(At(s, ptr) != NUL && !IsOpener(At(s, ptr)) && !(IsCloser(At(s, ptr)) && stack[|stack| - 1] != OpenerOf(At(s, ptr)))
               && !(IsCloser(At(s, ptr)) && |stack| == 1))
    ensures MeansGroup(s, p, ScopeFrom(s, ptr, stack))
  {
    var ch := At(s, ptr);
    StepDepth(s, p, ptr);
    if ch == NUL {
      assert ScopeFrom(s, ptr, stack) == Ok(ptr, ());
    } else if IsOpener(ch) {
      assert ScopeFrom(s, ptr, stack) == Err(Diag(Some(ptr), MaxNesting));
    } else {
      TopIsOpener(s, p, ptr, stack);
      if stack[|stack| - 1] != OpenerOf(ch) {
        assert ScopeFrom(s, ptr, stack) == Err(Diag(Some(ptr), Mismatching(ch)));
      } else {
        ScanCloses(s, p, ptr, stack);
      }
    }
  }

  /** The closer of the first bracket ends the scan just after it. */
  lemma ScanCloses(s: seq<char>, p: nat, ptr: nat, stack: seq<char>)
    requires ScanState(s, p, ptr, stack)
    requires IsCloser(At(s, ptr)) && |stack| == 1 && stack[0] == OpenerOf(At(s, ptr))
    ensures ScopeFrom(s, ptr, stack) == Ok(ptr + 1, ())
    ensures ClosesFirstOpener(s, p, ptr + 1) && WellNested(s, p, ptr + 1)
  {
    StepDepth(s, p, ptr);
    TopIsOpener(s, p, ptr, stack);
    NestedStep(s, p, ptr);
    assert LastAtDepth(s, p, ptr, 0) == p;
  }

  /**
   * Over a well-nested stretch that keeps the group open, the scan reaches `k`
   * without stopping, in the state the text determines there.
   */
  lemma {:induction false} ScanRuns(s: seq<char>, p: nat, ptr: nat, stack: seq<char>, k: nat) returns (st: seq<char>)
    requires ScanState(s, p, ptr, stack)
    requires ptr <= k && StaysOpen(s, p, k) && WellNested(s, p, k)
    ensures ScanState(s, p, k, st)
    ensures ScopeFrom(s, ptr, stack) == ScopeFrom(s, k, st)
    decreases k - ptr
  {
    if ptr == k {
      return stack;
    }
    var ch := At(s, ptr);
    StepDepth(s, p, ptr);
    if IsOpener(ch) {
      ScanPushes(s, p, ptr, stack);
      st := ScanRuns(s, p, ptr + 1, stack + [ch], k);
    } else {
      if IsCloser(ch) {
        TopIsOpener(s, p, ptr, stack);
      }
      var popped := if IsCloser(ch) then stack[..|stack| - 1] else stack;
      ScanMoves(s, p, ptr, stack, popped);
      st := ScanRuns(s, p, ptr + 1, popped, k);
    }
  }

  /**
   * skip_scope on an opener returns the position just after the bracket that
   * closes it, or the terminator when the text ends first, and in both cases the
   * text it skipped is well nested by kind; it fails at a closer that does not
   * close its own opener, and when the 256th bracket is opened, and the text
   * before the failure is well nested.
   */
  lemma SkipScopeClosesFirstOpener(s: seq<char>, p: nat)
    requires IsOpener(At(s, p))
    ensures var r := SkipScopeSpec(s, p);
      (r.Ok? ==> (ClosesFirstOpener(s, p, r.next) || EndsUnclosed(s, p, r.next)) && WellNested(s, p, r.next))
      && (r.Err? ==> var k := r.diag.offset.value;
            StaysOpen(s, p, k) && WellNested(s, p, k)
            && ((r.diag.kind == MaxNesting && IsOpener(At(s, k)) && Depth(s, p, k + 1) == STACK_SIZE)
                || (r.diag.kind == Mismatching(At(s, k)) && IsCloser(At(s, k)) && !ClosesItsOpener(s, p, k))))
  {
    ScanStarts(s, p);
    ScopeFromMeaning(s, p, p + 1, [At(s, p)]);
  }

  /** The converse for a group: a well-nested group, closed or cut off by the terminator, is skipped whole. */
  lemma SkipScopeSkipsGroup(s: seq<char>, p: nat, e: nat)
    requires IsOpener(At(s, p))
    requires ClosesFirstOpener(s, p, e) || EndsUnclosed(s, p, e)
    requires WellNested(s, p, e)
    ensures SkipScopeSpec(s, p) == Ok(e, ())
  {
    ScanStarts(s, p);
    if EndsUnclosed(s, p, e) {
      var st := ScanRuns(s, p, p + 1, [At(s, p)], e);
    } else {
      ScanSkipsClosedGroup(s, p, e);
    }
  }

  /** The closed case of SkipScopeSkipsGroup: the scan runs up to the last closer, which empties the stack. */
  lemma ScanSkipsClosedGroup(s: seq<char>, p: nat, e: nat)
    requires IsOpener(At(s, p)) && ScanState(s, p, p + 1, [At(s, p)])
    requires ClosesFirstOpener(s, p, e) && WellNested(s, p, e)
    ensures ScopeFrom(s, p + 1, [At(s, p)]) == Ok(e, ())
  {
    var last := e - 1;
    assert Depth(s, p, p + 1) == 1;
    assert p < last;
    assert StaysOpen(s, p, last);
    assert WellNested(s, p, last);
    assert ClosesItsOpener(s, p, last);
    var st := ScanRuns(s, p, p + 1, [At(s, p)], last);
    StepDepth(s, p, last);
    TopIsOpener(s, p, last, st);
    ScanCloses(s, p, last, st);
  }

  /** The converse for a mismatch: the first closer that does not close its own opener is reported. */
  lemma SkipScopeReportsMismatch(s: seq<char>, p: nat, k: nat)
    requires IsOpener(At(s, p)) && p <= k
    requires StaysOpen(s, p, k) && WellNested(s, p, k)
    requires IsCloser(At(s, k)) && !ClosesItsOpener(s, p, k)
    ensures SkipScopeSpec(s, p) == Err(Diag(Some(k), Mismatching(At(s, k))))
  {
    ScanStarts(s, p);
    var st := ScanRuns(s, p, p + 1, [At(s, p)], k);
    TopIsOpener(s, p, k, st);
  }

  /** The converse for the limit: the opener that makes the depth 256 is reported. */
  lemma SkipScopeReportsNesting(s: seq<char>, p: nat, k: nat)
    requires IsOpener(At(s, p)) && p <= k
    requires StaysOpen(s, p, k) && WellNested(s, p, k)
    requires IsOpener(At(s, k)) && Depth(s, p, k + 1) == STACK_SIZE
    ensures SkipScopeSpec(s, p) == Err(Diag(Some(k), MaxNesting))
  {
    ScanStarts(s, p);
    assert Depth(s, p, p + 1) == 1;
    var st := ScanRuns(s, p, p + 1, [At(s, p)], k);
    StepDepth(s, p, k);
  }

  /** Inside `((>)` the `>` closes a `(`: the scan fails there, although the depth stays positive. */
  lemma WrongKindInsideGroup()
    ensures SkipScopeSpec("((>)", 0) == Err(Diag(Some(2), Mismatching('>')))
  {
    var s := "((>)";
    assert At(s, 0) == '(' && At(s, 1) == '(' && At(s, 2) == '>';
    assert ScopeFrom(s, 0, []) == ScopeFrom(s, 1, ['(']) == ScopeFrom(s, 2, ['(', '(']);
  }
}
