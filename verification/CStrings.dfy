/** C strings, without their terminating NUL, and the library calls on them. */
module CStrings {

  datatype Option<+T> = None | Some(value: T)

  // ----- strchr -----

  /** Position of the first c, or the length of the string. */
  function IndexOf(s: string, c: char): (i: nat)
    ensures i <= |s|
    ensures i < |s| ==> s[i] == c
    ensures forall k :: 0 <= k < i ==> s[k] != c
  {
    if s == "" || s[0] == c then 0 else 1 + IndexOf(s[1..], c)
  }

  lemma {:induction false} IndexOfConcat(s: string, c: char, t: string)
    requires c !in s
    ensures IndexOf(s + [c] + t, c) == |s|
    ensures IndexOf(s, c) == |s|
  {
    if s != "" {
      IndexOfConcat(s[1..], c, t);
      assert (s + [c] + t)[1..] == s[1..] + [c] + t;
    }
  }

  // ----- strcasecmp -----

  function Lower(c: char): char {
    if 'A' <= c <= 'Z' then 'a' + (c - 'A') else c
  }

  predicate CaseEq(a: string, b: string) {
    |a| == |b| && forall i :: 0 <= i < |a| ==> Lower(a[i]) == Lower(b[i])
  }

  // ----- isxdigit -----

  predicate IsXDigit(c: char) {
    '0' <= c <= '9' || 'a' <= c <= 'f' || 'A' <= c <= 'F'
  }

  function DigitVal(c: char): (d: nat)
    requires IsXDigit(c)
    ensures d < 16
  {
    if c <= '9' then (c - '0') as nat else if c <= 'F' then (c - 'A') as nat + 10 else (c - 'a') as nat + 10
  }

  predicate AllXDigits(s: string) {
    forall i :: 0 <= i < |s| ==> IsXDigit(s[i])
  }

  // ----- strcmp -----

  /** a is before or equal to b in strcmp's order: at the first difference, or by being a prefix. */
  predicate StrLeq(a: string, b: string) {
    a == "" || (b != "" && (a[0] < b[0] || (a[0] == b[0] && StrLeq(a[1..], b[1..]))))
  }
}
