/** JavaScript strings as the script sees them: sequences of UTF-16 code units. */
module JsText {

  /** One UTF-16 code unit; `length`, `trim` and the regular expressions without the `u` flag
      all work on these. */
  type CodeUnit = c: int | 0 <= c < 0x1_0000

  type JsString = seq<CodeUnit>

  /** The code units ECMAScript calls WhiteSpace or LineTerminator: the ones `\s` matches
      and the ones `String.prototype.trim` removes. */
  predicate IsJsWhitespace(c: CodeUnit) {
    c == 0x09 || c == 0x0A || c == 0x0B || c == 0x0C || c == 0x0D || c == 0x20
    || c == 0xA0 || c == 0x1680 || (0x2000 <= c <= 0x200A)
    || c == 0x2028 || c == 0x2029 || c == 0x202F || c == 0x205F || c == 0x3000 || c == 0xFEFF
  }

  predicate AllWhitespace(s: JsString) {
    forall k | 0 <= k < |s| :: IsJsWhitespace(s[k])
  }

  /** The code units of a string of Basic Multilingual Plane characters, one per character;
      used to write example inputs (a character beyond that plane, which JavaScript would hold
      as two surrogate units, is replaced by U+FFFD here). */
  function Units(s: string): (u: JsString)
    ensures |u| == |s|
    ensures forall k | 0 <= k < |s| && s[k] as int < 0x1_0000 :: u[k] == s[k] as int
  {
    seq(|s|, k requires 0 <= k < |s| => if s[k] as int < 0x1_0000 then s[k] as int else 0xFFFD)
  }

  /** Every code unit of `s` from index `lo` up to (not including) `hi` is whitespace. */
  predicate WhitespaceBetween(s: JsString, lo: int, hi: int) {
    forall k | 0 <= lo <= k < hi <= |s| :: IsJsWhitespace(s[k])
  }

  /** How many whitespace code units `s` starts with. */
  function LeadingWhitespace(s: JsString): (n: nat)
    ensures n <= |s| && WhitespaceBetween(s, 0, n)
    ensures n < |s| ==> !IsJsWhitespace(s[n])
  {
    if s == [] || !IsJsWhitespace(s[0]) then 0
    else 1 + LeadingWhitespace(s[1..])
  }

  /** How many whitespace code units `s` ends with. */
  function TrailingWhitespace(s: JsString): (n: nat)
    ensures n <= |s| && WhitespaceBetween(s, |s| - n, |s|)
    ensures n < |s| ==> !IsJsWhitespace(s[|s| - 1 - n])
  {
    if s == [] || !IsJsWhitespace(s[|s| - 1]) then 0
    else 1 + TrailingWhitespace(s[..|s| - 1])
  }

  /** `String.prototype.trim`: what is left once whitespace is removed from both ends. */
  function Trim(s: JsString): (r: JsString)
    ensures |r| <= |s|
    ensures r == [] <==> AllWhitespace(s)
    ensures r != [] ==> !IsJsWhitespace(r[0]) && !IsJsWhitespace(r[|r| - 1])
  {
    var i := LeadingWhitespace(s);
    if i == |s| then []
    else
      var t := TrailingWhitespace(s);
      assert !IsJsWhitespace(s[i]);
      s[i..|s| - t]
  }

  /** `s` is its trimmed value with whitespace, and only whitespace, removed on either side. */
  lemma TrimSplits(s: JsString)
    ensures LeadingWhitespace(s) + |Trim(s)| <= |s|
    ensures Trim(s) == s[LeadingWhitespace(s)..LeadingWhitespace(s) + |Trim(s)|]
    ensures WhitespaceBetween(s, 0, LeadingWhitespace(s))
    ensures WhitespaceBetween(s, LeadingWhitespace(s) + |Trim(s)|, |s|)
  {
  }

  /** The trimmed value is the only middle part `s[lo..hi]` that is surrounded by whitespace
      and neither starts nor ends with whitespace itself. */
  lemma TrimUnique(s: JsString, lo: nat, hi: nat)
    requires lo <= hi <= |s|
    requires WhitespaceBetween(s, 0, lo) && WhitespaceBetween(s, hi, |s|)
    requires lo == hi || (!IsJsWhitespace(s[lo]) && !IsJsWhitespace(s[hi - 1]))
    ensures Trim(s) == s[lo..hi]
  {
  }

  /** Trimming twice is trimming once. */
  lemma TrimIdempotent(s: JsString)
    ensures Trim(Trim(s)) == Trim(s)
  {
  }

  /** Whitespace put around a value changes nothing once it is trimmed. */
  lemma TrimIgnoresPadding(pre: JsString, v: JsString, post: JsString)
    requires AllWhitespace(pre) && AllWhitespace(post)
    ensures Trim(pre + v + post) == Trim(v)
  {
    TrimSplits(v);
    var s := pre + v + post;
    var i := LeadingWhitespace(v);
    var t := Trim(v);
    var lo, hi := |pre| + i, |pre| + i + |t|;
    assert forall k | 0 <= k < |v| :: s[|pre| + k] == v[k];
    assert WhitespaceBetween(s, 0, lo);
    assert WhitespaceBetween(s, hi, |s|) by {
      forall k | hi <= k < |s| ensures IsJsWhitespace(s[k]) {
        if k < |pre| + |v| { assert s[k] == v[k - |pre|]; } else { assert s[k] == post[k - |pre| - |v|]; }
      }
    }
    assert s[lo..hi] == t;
    TrimUnique(s, lo, hi);
  }

  /** `sub` occurs in `s` starting at index `k`. */
  predicate OccursAt<T(==)>(s: seq<T>, sub: seq<T>, k: int) {
    0 <= k && k + |sub| <= |s| && s[k..k + |sub|] == sub
  }

  /** `String.prototype.indexOf`: the first index at which `sub` occurs in `s`, or -1. */
  function IndexOf<T(==)>(s: seq<T>, sub: seq<T>): (r: int)
    ensures r == -1 || OccursAt(s, sub, r)
    ensures r == -1 <==> forall k | 0 <= k <= |s| :: !OccursAt(s, sub, k)
    ensures forall k | 0 <= k < r :: !OccursAt(s, sub, k)
  {
    IndexFrom(s, sub, 0)
  }

  /** The first index at or after `from` at which `sub` occurs in `s`, or -1. */
  function IndexFrom<T(==)>(s: seq<T>, sub: seq<T>, from: nat): (r: int)
    requires from <= |s|
    ensures r == -1 || (from <= r && OccursAt(s, sub, r))
    ensures r == -1 <==> forall k | from <= k <= |s| :: !OccursAt(s, sub, k)
    ensures forall k | from <= k < r :: !OccursAt(s, sub, k)
    decreases |s| - from
  {
    if OccursAt(s, sub, from) then from
    else if from == |s| then -1
    else IndexFrom(s, sub, from + 1)
  }

  /** `s.indexOf(c) === 0` holds exactly when `s` starts with `c`. */
  lemma IndexOfZero<T>(s: seq<T>, c: T)
    ensures IndexOf(s, [c]) == 0 <==> |s| > 0 && s[0] == c
  {
  }
}
