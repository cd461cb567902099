/** The responder's decoding of %xx sequences, in place. Characters are below 256. */
module UrlDecode {
  import opened CStrings

  function Hex2(a: char, b: char): (c: char)
    requires IsXDigit(a) && IsXDigit(b)
  {
    (DigitVal(a) * 16 + DigitVal(b)) as char
  }

  /** The text from p on, decoded; None when a '%' is not followed by two hexadecimal digits. */
  function DecodeAt(s: string, p: nat): Option<string>
    requires p <= |s|
    decreases |s| - p
  {
    if p == |s| then Some("")
    else if s[p] != '%' then Prepend([s[p]], DecodeAt(s, p + 1))
    else if p + 2 < |s| && IsXDigit(s[p + 1]) && IsXDigit(s[p + 2]) then
      Prepend([Hex2(s[p + 1], s[p + 2])], DecodeAt(s, p + 3))
    else None
  }

  function Prepend(t: string, r: Option<string>): Option<string> {
    if r.None? then None else Some(t + r.value)
  }

  lemma PrependOne(t: string, c: char, r: Option<string>)
    ensures Prepend(t, Prepend([c], r)) == Prepend(t + [c], r) && Prepend("", r) == r
  {
    if r.Some? {
      assert t + ([c] + r.value) == t + [c] + r.value && "" + r.value == r.value;
    }
  }

  /** A '%' that is not followed by two hexadecimal digits. */
  predicate Malformed(s: string, i: nat) {
    i < |s| && s[i] == '%' && !(i + 2 < |s| && IsXDigit(s[i + 1]) && IsXDigit(s[i + 2]))
  }

  /** What is refused: a text with a malformed '%' anywhere. */
  lemma {:induction false} RefusedIff(s: string, p: nat)
    requires p <= |s|
    ensures DecodeAt(s, p).None? <==> exists i :: p <= i < |s| && Malformed(s, i)
    decreases |s| - p
  {
    if p < |s| {
      if s[p] != '%' {
        assert !Malformed(s, p);
        RefusedIff(s, p + 1);
      } else if p + 2 < |s| && IsXDigit(s[p + 1]) && IsXDigit(s[p + 2]) {
        assert !Malformed(s, p) && !Malformed(s, p + 1) && !Malformed(s, p + 2);
        RefusedIff(s, p + 3);
      } else {
        assert Malformed(s, p);
      }
    }
  }

  /** p holds a NUL-terminated string; the result is the length of what it holds afterwards, or -1. */
  method Urldecode(p: array<char>, ghost s: string) returns (r: int)
    requires p.Length == |s| + 1 && p[..|s|] == s && p[|s|] == '\0' && forall k :: 0 <= k < |s| ==> s[k] != '\0'
    modifies p
    ensures r == -1 <==> exists i :: 0 <= i < |s| && Malformed(s, i)
    ensures r != -1 ==> 0 <= r <= |s| && DecodeAt(s, 0) == Some(p[..r]) && p[r] == '\0'
  {
    var out, i := 0, 0;
    ghost var acc := "";
    RefusedIff(s, 0);
    PrependOne("", '%', DecodeAt(s, 0));
    assert forall k :: 0 <= k < |s| ==> p[k] == s[k];
    while p[i] != '\0'
      invariant 0 <= out <= i <= |s| && |acc| == out
      invariant forall k :: 0 <= k < out ==> p[k] == acc[k]
      invariant forall k :: i <= k < |s| ==> p[k] == s[k]
      invariant p[|s|] == '\0'
      invariant DecodeAt(s, 0) == Prepend(acc, DecodeAt(s, i))
      decreases |s| - i
    {
      if p[i] != '%' {
        PrependOne(acc, s[i], DecodeAt(s, i + 1));
        acc := acc + [s[i]];
        p[out] := p[i];
        out := out + 1;
      } else if IsXDigit(p[i + 1]) && IsXDigit(p[i + 2]) {
        PrependOne(acc, Hex2(s[i + 1], s[i + 2]), DecodeAt(s, i + 3));
        acc := acc + [Hex2(s[i + 1], s[i + 2])];
        p[out] := Hex2(p[i + 1], p[i + 2]);
        out := out + 1;
        i := i + 2;
      } else {
        return -1;
      }
      i := i + 1;
    }
    p[out] := '\0';
    assert p[..out] == acc == acc + "";
    return out;
  }

  // ----- the round trip -----

  /** A byte as itself, or as '%' and two digits. */
  datatype Coded = Plain(c: char) | Percent(a: char, b: char)

  predicate CodedOk(c: Coded) {
    match c
    case Plain(ch) => ch != '%'
    case Percent(a, b) => IsXDigit(a) && IsXDigit(b)
  }

  function Spelled(c: Coded): string {
    match c
    case Plain(ch) => [ch]
    case Percent(a, b) => ['%', a, b]
  }

  function Meant(c: Coded): char
    requires CodedOk(c)
  {
    match c
    case Plain(ch) => ch
    case Percent(a, b) => Hex2(a, b)
  }

  function SpelledAll(cs: seq<Coded>): string {
    if cs == [] then "" else Spelled(cs[0]) + SpelledAll(cs[1..])
  }

  predicate AllOk(cs: seq<Coded>) {
    forall i :: 0 <= i < |cs| ==> CodedOk(cs[i])
  }

  function MeantAll(cs: seq<Coded>): string
    requires AllOk(cs)
  {
    if cs == [] then "" else [Meant(cs[0])] + MeantAll(cs[1..])
  }

  ghost predicate Ends(s: string, p: nat, t: string) {
    |s| == p + |t| && forall k :: 0 <= k < |t| ==> s[p + k] == t[k]
  }

  /** Each byte of a text spelled either way is read as the byte that was meant. */
  lemma {:induction false} DecodeUndoesSpelling(s: string, p: nat, cs: seq<Coded>)
    requires AllOk(cs) && Ends(s, p, SpelledAll(cs))
    ensures DecodeAt(s, p) == Some(MeantAll(cs))
    decreases |cs|
  {
    if cs != [] {
      var t, n := SpelledAll(cs), |Spelled(cs[0])|;
      var rest := SpelledAll(cs[1..]);
      assert t == Spelled(cs[0]) + rest;
      assert s[p + 0] == t[0] && (n == 3 ==> s[p + 1] == t[1] && s[p + 2] == t[2]);
      forall k | 0 <= k < |rest| ensures s[p + n + k] == rest[k] { assert s[p + (n + k)] == t[n + k]; }
      DecodeUndoesSpelling(s, p + n, cs[1..]);
    }
  }
}
