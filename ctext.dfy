/**
 * Character-level view of a NUL-terminated C string.
 *
 * A `const char *ptr` into a description becomes an index into a `seq<char>`.
 * Reading past the end of the sequence yields '\0', so a NUL inside the text and
 * the end of the text both behave as the C terminator does.
 *
 * The helpers whose source is not part of this model (flecs_parse_ws_eol,
 * flecs_parse_digit, strtol, atoi) are modelled here on their documented C meaning.
 */
module CText {

  const NUL: char := '\0'

  /** The character at `ptr`, or the terminator once the text has ended. */
  function At(s: seq<char>, i: nat): (c: char)
    ensures i >= |s| ==> c == NUL
    ensures c != NUL ==> i < |s| && s[i] == c
  {
    if i < |s| then s[i] else NUL
  }

  /** isspace() in the "C" locale: space, \t, \n, \v, \f, \r. */
  predicate IsSpace(c: char) {
    c == ' ' || (9 <= c as int <= 13)
  }

  /** isalpha() in the "C" locale. */
  predicate IsAlpha(c: char) {
    ('a' <= c <= 'z') || ('A' <= c <= 'Z')
  }

  /** isdigit(). */
  predicate IsDigit(c: char) {
    '0' <= c <= '9'
  }

  predicate IsOpener(c: char) {
    c == '(' || c == '<'
  }

  predicate IsCloser(c: char) {
    c == ')' || c == '>'
  }

  /** The opener that a closing bracket must match. */
  function OpenerOf(c: char): (o: char)
    requires IsCloser(c)
    ensures IsOpener(o)
  {
    if c == ')' then '(' else '<'
  }

  /**
   * flecs_parse_ws_eol: skip every white-space character (newlines included).
   * The result is the first position at or after `p` that holds no white space.
   */
  function SkipWs(s: seq<char>, p: nat): (r: nat)
    ensures p <= r
    ensures !IsSpace(At(s, r))
    ensures forall k :: p <= k < r ==> IsSpace(At(s, k))
    ensures p <= |s| ==> r <= |s|
    ensures r > p ==> r <= |s|
    decreases |s| - p
  {
    if IsSpace(At(s, p)) then SkipWs(s, p + 1) else p
  }

  /** `ptr + strlen(ptr)`: the position of the terminator at or after `p`. */
  function StrEnd(s: seq<char>, p: nat): (r: nat)
    ensures p <= r && At(s, r) == NUL
    ensures forall k :: p <= k < r ==> At(s, k) != NUL
    ensures p <= |s| ==> r <= |s|
    decreases |s| - p
  {
    if At(s, p) == NUL then p else StrEnd(s, p + 1)
  }

  /** strchr(ptr, c): the first `c` at or after `p` before the terminator. */
  function FindChar(s: seq<char>, p: nat, c: char): (r: Option<nat>)
    ensures r.Some? ==> p <= r.value && At(s, r.value) == c
    ensures r.Some? ==> forall k :: p <= k < r.value ==> At(s, k) != c && At(s, k) != NUL
    ensures r.None? ==> c != NUL && exists e :: p <= e && At(s, e) == NUL && forall k :: p <= k < e ==> At(s, k) != c
    decreases |s| - p
  {
    if At(s, p) == c then Some(p)
    else if At(s, p) == NUL then None
    else FindChar(s, p + 1, c)
  }

  datatype Option<+T> = None | Some(value: T)

  /** strncmp(name, pre, |pre|) == 0 for a `pre` without a terminator in it. */
  predicate IsPrefix(pre: seq<char>, s: seq<char>) {
    |pre| <= |s| && s[..|pre|] == pre
  }

  // ---------------------------------------------------------------------------
  // Numbers
  // ---------------------------------------------------------------------------

  function DigitValue(c: char): (d: nat)
    requires IsDigit(c)
    ensures d < 10
  {
    c as int - '0' as int
  }

  /** The end of the run of decimal digits that starts at `p`. */
  function DigitRunEnd(s: seq<char>, p: nat): (e: nat)
    ensures p <= e && !IsDigit(At(s, e))
    ensures forall k :: p <= k < e ==> IsDigit(At(s, k))
    ensures e > p ==> e <= |s|
    decreases |s| - p
  {
    if IsDigit(At(s, p)) then DigitRunEnd(s, p + 1) else p
  }

  /** The number of leading digits of `d` that are valid in `base` (8 or 10). */
  function ValidPrefixLength(d: seq<char>, base: nat): (n: nat)
    requires base == 8 || base == 10
    ensures n <= |d|
    ensures forall k :: 0 <= k < n ==> IsDigit(d[k]) && DigitValue(d[k]) < base
    ensures n < |d| ==> !(IsDigit(d[n]) && DigitValue(d[n]) < base)
  {
    if |d| > 0 && IsDigit(d[0]) && DigitValue(d[0]) < base
    then 1 + ValidPrefixLength(d[1..], base)
    else 0
  }

  /** The value of a digit string, most significant digit first. */
  function Positional(d: seq<char>, base: nat): nat
    requires forall k :: 0 <= k < |d| ==> IsDigit(d[k])
  {
    if d == [] then 0 else Positional(d[..|d| - 1], base) * base + DigitValue(d[|d| - 1])
  }

  const LONG_MIN: int := -0x8000_0000_0000_0000
  const LONG_MAX: int := 0x7FFF_FFFF_FFFF_FFFF

  /** strtol clamps a value that does not fit in a 64-bit long. */
  function SaturateLong(v: int): (r: int)
    ensures LONG_MIN <= r <= LONG_MAX
    ensures LONG_MIN <= v <= LONG_MAX ==> r == v
  {
    if v < LONG_MIN then LONG_MIN else if v > LONG_MAX then LONG_MAX else v
  }

  /**
   * strtol(token, NULL, 0) for a token made of an optional '-' and decimal digits:
   * base 0 reads a number whose first digit is 0 as octal, and the conversion
   * stops at the first digit the base does not have.
   */
  function StrToL(token: seq<char>): (v: int)
    requires forall k :: 0 <= k < |token| ==> IsDigit(token[k]) || (k == 0 && token[k] == '-')
    ensures LONG_MIN <= v <= LONG_MAX
  {
    var negative := |token| > 0 && token[0] == '-';
    var digits := if negative then token[1..] else token;
    var base := if |digits| > 0 && digits[0] == '0' then 8 else 10;
    var magnitude: int := Positional(digits[..ValidPrefixLength(digits, base)], base);
    SaturateLong(if negative then -magnitude else magnitude)
  }

  /**
   * atoi(ptr): leading white space, an optional sign, then decimal digits up to the
   * first non-digit; 0 when there are no digits.
   */
  function Atoi(s: seq<char>, p: nat): int {
    var q := SkipWs(s, p);
    var c := At(s, q);
    var start := if c == '-' || c == '+' then q + 1 else q;
    var e := DigitRunEnd(s, start);
    var digits := if e > start then s[start..e] else [];
    assert forall k :: 0 <= k < |digits| ==> IsDigit(digits[k]) by {
      forall k | 0 <= k < |digits| ensures IsDigit(digits[k]) {
        assert IsDigit(At(s, start + k));
      }
    }
    var magnitude: int := Positional(digits, 10);
    if c == '-' then -magnitude else magnitude
  }

  // ---------------------------------------------------------------------------
  // Integer conversions of the C code
  // ---------------------------------------------------------------------------

  /** `(ecs_i32_t)v`: two's-complement truncation to 32 bits. */
  function ToI32(v: int): (r: int)
    ensures -0x8000_0000 <= r < 0x8000_0000
    ensures -0x8000_0000 <= v < 0x8000_0000 ==> r == v
  {
    var m := v % 0x1_0000_0000;
    if m >= 0x8000_0000 then m - 0x1_0000_0000 else m
  }

  /** `(ecs_u32_t)v`: reduction modulo 2^32. */
  function ToU32(v: int): (r: int)
    ensures 0 <= r < 0x1_0000_0000
    ensures 0 <= v < 0x1_0000_0000 ==> r == v
  {
    v % 0x1_0000_0000
  }

  /** Both conversions keep the value modulo 2^32: they only drop the high bits. */
  lemma ConversionsKeepLowBits(v: int)
    ensures (ToI32(v) - v) % 0x1_0000_0000 == 0
    ensures (ToU32(v) - v) % 0x1_0000_0000 == 0
    ensures ToI32(v) % 0x1_0000_0000 == ToU32(v)
  {
  }
}
