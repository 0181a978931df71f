/**
 * Models of the JavaScript string and array built-ins the core relies on:
 * `String.prototype.trim`, `String.prototype.lastIndexOf`, `Array.prototype.filter`,
 * `Array.prototype.map` and `Array.prototype.join`.
 *
 * A JavaScript string is a sequence of UTF-16 code units, and `length`, `slice` and
 * `lastIndexOf` count and cut in code units. `JsString` is that sequence, so lengths and
 * offsets are the source's own, a character outside the Basic Multilingual Plane takes
 * two units, and a slice may split such a surrogate pair.
 */
module JsText {

  /** One UTF-16 code unit. */
  newtype CodeUnit = x: int | 0 <= x < 0x1_0000

  /** A JavaScript string value. */
  type JsString = seq<CodeUnit>

  const Tab: CodeUnit := 0x09
  const LF: CodeUnit := 0x0A
  const CR: CodeUnit := 0x0D
  const Space: CodeUnit := 0x20
  const ExclamationMark: CodeUnit := 0x21
  const FullStop: CodeUnit := 0x2E
  const QuestionMark: CodeUnit := 0x3F

  function Min(a: int, b: int): int { if a <= b then a else b }
  function Max(a: int, b: int): int { if a >= b then a else b }

  /**
   * The code units `trim` removes: ECMAScript WhiteSpace and LineTerminator code points,
   * all of which lie in the Basic Multilingual Plane and so are single code units.
   */
  predicate IsWhitespace(c: CodeUnit)
    ensures c == Space || c == Tab || c == LF || c == CR ==> IsWhitespace(c)
    ensures 0x21 <= c <= 0x7E ==> !IsWhitespace(c)
    ensures 0xD800 <= c <= 0xDFFF ==> !IsWhitespace(c)
  {
    c == Tab || c == LF || c == 0x0B || c == 0x0C || c == CR || c == Space
    || c == 0xA0 || c == 0x1680 || (0x2000 <= c <= 0x200A)
    || c == 0x2028 || c == 0x2029 || c == 0x202F || c == 0x205F
    || c == 0x3000 || c == 0xFEFF
  }

  predicate AllWhitespace(s: JsString) {
    forall i :: 0 <= i < |s| ==> IsWhitespace(s[i])
  }

  /** The number of whitespace code units `s` starts with. */
  function LeadingWhitespace(s: JsString): (i: nat)
    ensures i <= |s|
    ensures forall k {:trigger IsWhitespace(s[k])} :: 0 <= k < i ==> IsWhitespace(s[k])
    ensures i < |s| ==> !IsWhitespace(s[i])
  {
    if |s| > 0 && IsWhitespace(s[0]) then 1 + LeadingWhitespace(s[1..]) else 0
  }

  /** The length of `s` without the whitespace it ends with. */
  function TrailingStart(s: JsString): (j: nat)
    ensures j <= |s|
    ensures forall k {:trigger IsWhitespace(s[k])} :: j <= k < |s| ==> IsWhitespace(s[k])
    ensures j > 0 ==> !IsWhitespace(s[j - 1])
  {
    if |s| > 0 && IsWhitespace(s[|s| - 1]) then TrailingStart(s[..|s| - 1]) else |s|
  }

  /** `s.trim()`: `s` without leading and trailing whitespace, so no whitespace at either end. */
  function Trim(s: JsString): (r: JsString)
    ensures |r| <= |s|
    ensures r == [] || (!IsWhitespace(r[0]) && !IsWhitespace(r[|r| - 1]))
  {
    var i := LeadingWhitespace(s);
    if i == |s| then [] else s[i..TrailingStart(s)]
  }

  /** `trim` leaves nothing exactly when `s` is all whitespace. */
  lemma TrimEmpty(s: JsString)
    ensures Trim(s) == [] <==> AllWhitespace(s)
  {
    if LeadingWhitespace(s) < |s| {
      assert !IsWhitespace(s[LeadingWhitespace(s)]);
    }
  }

  /** What `trim` keeps is the slice `s[i..j]`, and only whitespace lies outside it. */
  lemma TrimIsSlice(s: JsString) returns (i: nat, j: nat)
    ensures i <= j <= |s| && Trim(s) == s[i..j]
    ensures AllWhitespace(s[..i]) && AllWhitespace(s[j..])
  {
    i := LeadingWhitespace(s);
    j := if i == |s| then |s| else TrailingStart(s);
    forall k | 0 <= k < |s[..i]| ensures IsWhitespace(s[..i][k]) {
      assert s[..i][k] == s[k];
    }
    forall k | 0 <= k < |s[j..]| ensures IsWhitespace(s[j..][k]) {
      assert s[j..][k] == s[j + k];
    }
  }

  /** Trimming a slice of `s` leaves a slice of `s` inside it. */
  lemma TrimOfSlice(s: JsString, lo: nat, hi: nat) returns (i: nat, j: nat)
    requires lo <= hi <= |s|
    ensures lo <= i <= j <= hi && Trim(s[lo..hi]) == s[i..j]
  {
    var a, b := TrimIsSlice(s[lo..hi]);
    i, j := lo + a, lo + b;
    forall k | 0 <= k < b - a ensures s[lo..hi][a..b][k] == s[i..j][k] {
      assert s[lo..hi][a..b][k] == s[lo + a + k];
    }
    assert s[lo..hi][a..b] == s[i..j];
  }

  /** A string with no whitespace at either end is its own trim. */
  lemma TrimUnchanged(s: JsString)
    requires |s| > 0 && !IsWhitespace(s[0]) && !IsWhitespace(s[|s| - 1])
    ensures Trim(s) == s
  {
    assert LeadingWhitespace(s) == 0;
    assert TrailingStart(s) == |s|;
  }

  /** `s` holds the two code units `a`, `b` at offsets `i`, `i + 1`. */
  predicate PairAt(s: JsString, a: CodeUnit, b: CodeUnit, i: int) {
    0 <= i && i + 1 < |s| && s[i] == a && s[i + 1] == b
  }

  /**
   * `s.lastIndexOf(pat, from)` for a two-unit `pat` = `a` `b` (the only kind the core
   * searches for): the largest offset, not past `from` (clamped to the string), at which
   * `pat` occurs, or -1. An occurrence may start at `from` itself. The search runs downward
   * from `min(max(from, 0), |s| - 2)`.
   */
  function LastIndexOf(s: JsString, a: CodeUnit, b: CodeUnit, from: int): (r: int)
    ensures r == -1 || (0 <= r <= Max(from, 0) && PairAt(s, a, b, r))
    decreases Max(from, 0)
  {
    var k := Min(Max(from, 0), |s| - 2);
    if k < 0 then -1
    else if PairAt(s, a, b, k) then k
    else if k == 0 then -1
    else LastIndexOf(s, a, b, k - 1)
  }

  /** No occurrence lies between the one `lastIndexOf` reports and `from`. */
  lemma {:induction false} LastIndexOfIsLast(s: JsString, a: CodeUnit, b: CodeUnit, from: int)
    ensures forall i :: LastIndexOf(s, a, b, from) < i <= from ==> !PairAt(s, a, b, i)
    decreases Max(from, 0)
  {
    var k := Min(Max(from, 0), |s| - 2);
    if k >= 0 && !PairAt(s, a, b, k) && k > 0 {
      LastIndexOfIsLast(s, a, b, k - 1);
    }
  }

  /** The prefix of length `i + 1` is the prefix of length `i` and then element `i`. */
  lemma TakeOneMore<T>(s: seq<T>, i: nat)
    requires i < |s|
    ensures s[..i + 1] == s[..i] + [s[i]]
  {
  }

  /** `xs.filter(p)`: the elements satisfying `p`, in their original order. */
  function Filter<T>(p: T -> bool, xs: seq<T>): (r: seq<T>)
    ensures |r| <= |xs|
    ensures forall x :: x in r ==> x in xs && p(x)
  {
    if |xs| == 0 then []
    else Filter(p, xs[..|xs| - 1]) + (if p(xs[|xs| - 1]) then [xs[|xs| - 1]] else [])
  }

  /** Filtering distributes over concatenation, so it keeps the relative order of what it keeps. */
  lemma {:induction false} FilterConcat<T>(p: T -> bool, a: seq<T>, b: seq<T>)
    ensures Filter(p, a + b) == Filter(p, a) + Filter(p, b)
    decreases |b|
  {
    if |b| > 0 {
      var b' := b[..|b| - 1];
      assert (a + b)[..|a + b| - 1] == a + b';
      FilterConcat(p, a, b');
    } else {
      assert a + b == a;
    }
  }

  /** Filter keeps nothing exactly when no element satisfies `p`. */
  lemma {:induction false} FilterEmpty<T>(p: T -> bool, xs: seq<T>)
    ensures Filter(p, xs) == [] <==> forall i :: 0 <= i < |xs| ==> !p(xs[i])
  {
    if |xs| > 0 {
      FilterEmpty(p, xs[..|xs| - 1]);
      assert forall i :: 0 <= i < |xs| - 1 ==> xs[..|xs| - 1][i] == xs[i];
    }
  }

  /** `xs.map(f)` */
  function Map<T, U>(f: T -> U, xs: seq<T>): (r: seq<U>)
    ensures |r| == |xs| && forall i :: 0 <= i < |xs| ==> r[i] == f(xs[i])
  {
    seq(|xs|, i requires 0 <= i < |xs| => f(xs[i]))
  }

  lemma MapConcat<T, U>(f: T -> U, a: seq<T>, b: seq<T>)
    ensures Map(f, a + b) == Map(f, a) + Map(f, b)
  {
  }

  /** `xs.join(sep)`: the elements in order, with `sep` between neighbours and nowhere else. */
  function Join<T>(xs: seq<seq<T>>, sep: seq<T>): (r: seq<T>)
    ensures |xs| == 0 ==> r == []
    ensures |xs| > 0 ==> |xs[0]| <= |r| && r[..|xs[0]|] == xs[0]
    ensures |xs| > 0 ==> |xs[|xs| - 1]| <= |r| && r[|r| - |xs[|xs| - 1]|..] == xs[|xs| - 1]
  {
    if |xs| == 0 then []
    else if |xs| == 1 then xs[0]
    else Join(xs[..|xs| - 1], sep) + sep + xs[|xs| - 1]
  }

  /** Sum of the lengths of the strings in `xs`. */
  function TotalLength<T>(xs: seq<seq<T>>): nat {
    if |xs| == 0 then 0 else TotalLength(xs[..|xs| - 1]) + |xs[|xs| - 1]|
  }

  /** The length of a join of `k > 0` strings is their total length plus `k - 1` separator lengths. */
  lemma {:induction false} JoinLength<T>(xs: seq<seq<T>>, sep: seq<T>)
    ensures |Join(xs, sep)| == TotalLength(xs) + (if |xs| == 0 then 0 else (|xs| - 1) * |sep|)
  {
    if |xs| > 1 {
      var init := xs[..|xs| - 1];
      JoinLength(init, sep);
      var n := |init|;
      assert |Join(xs, sep)| == |Join(init, sep)| + |sep| + |xs[n]|;
      assert TotalLength(xs) == TotalLength(init) + |xs[n]|;
      assert n * |sep| == (n - 1) * |sep| + |sep|;
    } else if |xs| == 1 {
      assert xs[..0] == [];
    }
  }

  /** With a non-empty separator, a join is empty exactly when there is nothing to join or one empty string. */
  lemma JoinEmpty<T>(xs: seq<seq<T>>, sep: seq<T>)
    requires sep != []
    ensures Join(xs, sep) == [] <==> |xs| == 0 || (|xs| == 1 && xs[0] == [])
  {
    if |xs| > 1 {
      assert |Join(xs, sep)| >= |sep|;
    }
  }

  /** Appending one more string appends exactly one separator and that string. */
  lemma JoinSnoc<T>(xs: seq<seq<T>>, x: seq<T>, sep: seq<T>)
    requires |xs| > 0
    ensures Join(xs + [x], sep) == Join(xs, sep) + sep + x
  {
    assert (xs + [x])[..|xs|] == xs;
  }
}
