/**
 * The two JavaScript string operations the room relies on: the relational
 * operator `<` on strings (used to visit each unordered pair of session ids
 * once) and `String.prototype.trim` (used on the requested display name).
 */
module JsString {

  /** `a < b` on JavaScript strings: lexicographic, a proper prefix is smaller. */
  predicate StrLt(a: string, b: string)
    decreases |a|
  {
    if |b| == 0 then false
    else if |a| == 0 then true
    else if a[0] != b[0] then a[0] < b[0]
    else StrLt(a[1..], b[1..])
  }

  /** Exactly one of `a == b`, `a < b`, `b < a` holds: a strict total order. */
  lemma {:induction false} StrLtTrichotomy(a: string, b: string)
    ensures !(StrLt(a, b) && StrLt(b, a))
    ensures a == b <==> !StrLt(a, b) && !StrLt(b, a)
    decreases |a|
  {
    if |a| > 0 && |b| > 0 && a[0] == b[0] {
      StrLtTrichotomy(a[1..], b[1..]);
      assert a == [a[0]] + a[1..] && b == [b[0]] + b[1..];
    }
  }

  /** The characters `trim` removes: ECMAScript WhiteSpace and LineTerminator. */
  predicate IsJsSpace(c: char) {
    c == '\t' || c == '\n' || c == '\U{000B}' || c == '\U{000C}' || c == '\r' || c == ' '
    || c == '\U{00A0}' || c == '\U{1680}' || ('\U{2000}' <= c <= '\U{200A}')
    || c == '\U{2028}' || c == '\U{2029}' || c == '\U{202F}' || c == '\U{205F}'
    || c == '\U{3000}' || c == '\U{FEFF}'
  }

  /** The number of white-space characters `s` starts with. */
  function Leading(s: string): (k: nat)
    ensures k <= |s|
    ensures forall i :: 0 <= i < k ==> IsJsSpace(s[i])
    ensures k < |s| ==> !IsJsSpace(s[k])
  {
    if |s| > 0 && IsJsSpace(s[0]) then
      var k := 1 + Leading(s[1..]);
      assert forall i :: 1 <= i < k ==> s[i] == s[1..][i - 1];
      k
    else 0
  }

  /** The number of white-space characters `s` ends with. */
  function Trailing(s: string): (m: nat)
    ensures m <= |s|
    ensures forall i :: |s| - m <= i < |s| ==> IsJsSpace(s[i])
    ensures m < |s| ==> !IsJsSpace(s[|s| - m - 1])
  {
    if |s| > 0 && IsJsSpace(s[|s| - 1]) then
      var m := 1 + Trailing(s[..|s| - 1]);
      assert forall i :: |s| - m <= i < |s| - 1 ==> s[i] == s[..|s| - 1][i];
      m
    else 0
  }

  /**
   * `s.trim()`: `s` without its leading and trailing white space.  The
   * result is empty exactly when `s` is all white space; otherwise it is the
   * infix of `s` between the two runs and neither starts nor ends with white
   * space.
   */
  function Trim(s: string): (r: string)
    ensures r == [] <==> forall i :: 0 <= i < |s| ==> IsJsSpace(s[i])
    ensures r != [] ==>
      && Leading(s) + Trailing(s) < |s|
      && r == s[Leading(s)..|s| - Trailing(s)]
      && !IsJsSpace(r[0]) && !IsJsSpace(r[|r| - 1])
  {
    var k, m := Leading(s), Trailing(s);
    if k == |s| then [] else s[k..|s| - m]
  }
}
