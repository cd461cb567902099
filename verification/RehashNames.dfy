/** The names of hash links: how a run prints them and how the directory scan reads them back. */
module RehashNames {
  import opened CStrings
  import opened RehashSpec

  const TWO_32 := 0x1_0000_0000
  const ULONG_MAX := 0xFFFF_FFFF_FFFF_FFFF

  /** Certificates have the empty suffix, CRLs "r". */
  ghost predicate ValidKey(key: Key) {
    key.kind < 2 && key.hash < TWO_32
  }

  // ----- printing -----

  function HexDigit(d: nat): char
    requires d < 16
  {
    if d < 10 then '0' + d as char else 'a' + (d - 10) as char
  }

  /** The n low hexadecimal digits of h: "%08x" for n == 8. */
  function HexDigits(h: nat, n: nat): (s: string)
    ensures |s| == n
  {
    if n == 0 then "" else HexDigits(h / 16, n - 1) + [HexDigit(h % 16)]
  }

  function DecDigits(n: nat): (s: string)
    ensures |s| > 0 && AllDec(s)
  {
    var last := ['0' + (n % 10) as char];
    if n < 10 then last else DecDigits(n / 10) + last
  }

  function LinkName(key: Key, id: nat): string {
    HexDigits(key.hash, 8) + "." + (if key.kind == 0 then "" else "r") + DecDigits(id)
  }

  // ----- reading -----

  predicate AllDec(s: string) {
    forall i :: 0 <= i < |s| ==> '0' <= s[i] <= '9'
  }

  /** The unsigned 32-bit value of a run of hexadecimal digits. */
  function HexValue(s: string): (h: nat)
    requires AllXDigits(s)
    ensures h < TWO_32
  {
    if s == "" then 0 else ((HexValue(s[..|s| - 1]) * 16) % TWO_32 + DigitVal(s[|s| - 1])) % TWO_32
  }

  predicate IsSpace(c: char) {
    c == ' ' || '\t' <= c <= '\r'
  }

  function SpaceCount(s: string): (n: nat)
    ensures n <= |s|
  {
    if s != "" && IsSpace(s[0]) then 1 + SpaceCount(s[1..]) else 0
  }

  function DigitCount(s: string): (n: nat)
    ensures n <= |s| && forall i :: 0 <= i < n ==> '0' <= s[i] <= '9'
    ensures n < |s| ==> !('0' <= s[n] <= '9')
  {
    if s != "" && '0' <= s[0] <= '9' then 1 + DigitCount(s[1..]) else 0
  }

  function DecValue(s: string): nat
    requires AllDec(s)
  {
    if s == "" then 0 else DecValue(s[..|s| - 1]) * 10 + (s[|s| - 1] - '0') as nat
  }

  /** Where strtoul expects the digits: after blanks and a sign. */
  function DigitsAt(s: string): (from: nat)
    ensures from <= |s|
  {
    var ws := SpaceCount(s);
    if ws < |s| && (s[ws] == '-' || s[ws] == '+') then ws + 1 else ws
  }

  /** Past 64 bits all ones; after a '-' counted from the top. */
  function UlOf(v: nat, minus: bool): nat {
    if v > ULONG_MAX then ULONG_MAX else if minus && v > 0 then ULONG_MAX + 1 - v else v
  }

  /** strtoul in base 10: the value and how many characters it used up; without digits it uses none. */
  function StrToUl(s: string): (nat, nat) {
    var from := DigitsAt(s);
    var n := DigitCount(s[from..]);
    if n == 0 then (0, 0) else (UlOf(DecValue(s[from..][..n]), from > 0 && s[from - 1] == '-'), from + n)
  }

  /** What handle_symlink reads off a name; the id is cut to 16 bits by add_entry's parameter. */
  function ParseLinkName(name: string): Option<(Key, nat)> {
    if |name| < 9 || !AllXDigits(name[..8]) || name[8] != '.' then None
    else ParseSuffix(name, HexValue(name[..8]))
  }

  function ParseSuffix(name: string, hash: nat): Option<(Key, nat)>
    requires |name| >= 9
  {
    var kind := if |name| > 9 && (name[9] == 'r' || name[9] == 'R') then 1 else 0;
    var (v, used) := StrToUl(name[9 + kind..]);
    if 9 + kind + used != |name| then None else Some((Key(kind, hash), v % 0x1_0000))
  }

  /** handle_symlink's parse, one hexadecimal digit at a time. */
  method ReadLinkName(name: string) returns (r: Option<(Key, nat)>)
    ensures r == ParseLinkName(name)
  {
    var ok, hash := ReadHash(name, 8);
    if !ok || |name| < 9 || name[8] != '.' {
      return None;
    }
    r := ReadSuffix(name, hash);
  }

  method ReadHash(name: string, n: nat) returns (ok: bool, hash: nat)
    ensures ok <==> n <= |name| && AllXDigits(name[..n])
    ensures ok ==> hash == HexValue(name[..n])
  {
    hash := 0;
    for i := 0 to n
      invariant i <= |name| && AllXDigits(name[..i]) && hash == HexValue(name[..i])
    {
      if i >= |name| || !IsXDigit(name[i]) {
        assert |name| >= n ==> name[..n][i] == name[i];
        return false, 0;
      }
      assert name[..i + 1][..i] == name[..i];
      hash := (hash * 16) % TWO_32;
      hash := (hash + DigitVal(name[i])) % TWO_32;
    }
    return true, hash;
  }

  /** The loop over the suffixes, last to first, and the link id. */
  method ReadSuffix(name: string, hash: nat) returns (r: Option<(Key, nat)>)
    requires |name| >= 9
    ensures r == ParseSuffix(name, hash)
  {
    var kind := 1;
    while kind > 0
      invariant 0 <= kind <= 1
      invariant kind == 0 ==> !(|name| > 9 && (name[9] == 'r' || name[9] == 'R'))
    {
      if 9 < |name| && (name[9] == 'r' || name[9] == 'R') {
        break;
      }
      kind := kind - 1;
    }
    var i := 9 + kind;
    var (id, used) := StrToUl(name[i..]);
    return if i + used != |name| then None else Some((Key(kind, hash), id % 0x1_0000));
  }

  // ----- reading undoes printing -----

  lemma NoWrap(h: nat)
    requires h < TWO_32
    ensures ((h / 16 * 16) % TWO_32 + h % 16) % TWO_32 == h
  {
    var q := h / 16 * 16;
    assert q + h % 16 == h && q % TWO_32 == q;
  }

  lemma {:induction false} HexRoundTrip(h: nat, n: nat)
    ensures AllXDigits(HexDigits(h, n))
    ensures h < TWO_32 && h < Pow16(n) ==> HexValue(HexDigits(h, n)) == h
  {
    if n > 0 {
      HexRoundTrip(h / 16, n - 1);
      var s := HexDigits(h, n);
      assert s[..n - 1] == HexDigits(h / 16, n - 1);
      assert DigitVal(HexDigit(h % 16)) == h % 16;
      if h < TWO_32 { NoWrap(h); }
    }
  }

  function Pow16(n: nat): (p: nat)
    ensures p > 0
  {
    if n == 0 then 1 else 16 * Pow16(n - 1)
  }

  lemma Pow16Is(n: nat)
    requires n == 8
    ensures Pow16(n) == TWO_32
  {
    assert Pow16(8) == 16 * 16 * 16 * 16 * Pow16(4);
  }

  lemma {:induction false} DecRoundTrip(n: nat)
    ensures DecValue(DecDigits(n)) == n
  {
    var s := DecDigits(n);
    if n >= 10 {
      DecRoundTrip(n / 10);
      assert s[..|s| - 1] == DecDigits(n / 10);
    } else {
      assert s[..0] == "";
    }
  }

  lemma {:induction false} AllDigits(s: string)
    requires AllDec(s)
    ensures DigitCount(s) == |s| && (s != "" ==> SpaceCount(s) == 0)
  {
    if s != "" {
      assert forall i :: 0 <= i < |s[1..]| ==> s[1..][i] == s[i + 1];
      AllDigits(s[1..]);
    }
  }

  lemma PrintedIdReads(id: nat)
    requires id < 0x1_0000
    ensures StrToUl(DecDigits(id)) == (id, |DecDigits(id)|)
  {
    var s := DecDigits(id);
    AllDigits(s);
    DecRoundTrip(id);
    assert s[0..] == s && s[..|s|] == s;
  }

  lemma ParseParts(hex: string, kind: nat, dec: string, id: nat)
    requires |hex| == 8 && AllXDigits(hex) && kind < 2
    requires |dec| > 0 && AllDec(dec) && StrToUl(dec) == (id, |dec|) && id < 0x1_0000
    ensures ParseLinkName(hex + "." + (if kind == 0 then "" else "r") + dec) == Some((Key(kind, HexValue(hex)), id))
  {
    var name := hex + "." + (if kind == 0 then "" else "r") + dec;
    assert name[..8] == hex && name[8] == '.';
    assert name[9 + kind..] == dec;
    assert name[9] == if kind == 0 then dec[0] else 'r';
    SuffixParts(name, HexValue(hex), kind, dec, id);
  }

  lemma SuffixParts(name: string, hash: nat, kind: nat, dec: string, id: nat)
    requires kind < 2 && |name| > 9 + kind && name[9 + kind..] == dec && StrToUl(dec) == (id, |dec|) && id < 0x1_0000
    requires kind == 1 <==> name[9] == 'r' || name[9] == 'R'
    ensures ParseSuffix(name, hash) == Some((Key(kind, hash), id))
  {
  }

  /** Every printed link name reads back as its key and id. */
  lemma ParsePrinted(key: Key, id: nat)
    requires ValidKey(key) && id < 0x1_0000
    ensures ParseLinkName(LinkName(key, id)) == Some((key, id))
  {
    var n := 8;
    HexRoundTrip(key.hash, n);
    Pow16Is(n);
    PrintedIdReads(id);
    ParseParts(HexDigits(key.hash, n), key.kind, DecDigits(id), id);
  }

  /** So different buckets never share a name, nor do different ids. */
  lemma LinkNamesDiffer(key: Key, id: nat, key': Key, id': nat)
    requires ValidKey(key) && ValidKey(key') && id < 0x1_0000 && id' < 0x1_0000
    requires LinkName(key, id) == LinkName(key', id')
    ensures key == key' && id == id'
  {
    ParsePrinted(key, id);
    ParsePrinted(key', id');
  }

  // ----- the text of a printed name -----

  predicate IsLowerHex(c: char) {
    '0' <= c <= '9' || 'a' <= c <= 'f'
  }

  lemma {:induction false} HexText(h: nat, n: nat)
    ensures forall i :: 0 <= i < n ==> IsLowerHex(HexDigits(h, n)[i])
  {
    if n > 0 { HexText(h / 16, n - 1); }
  }

  lemma {:induction false} DecText(n: nat)
    ensures n > 0 ==> DecDigits(n)[0] != '0'
    ensures n == 0 ==> DecDigits(n) == "0"
  {
    if n >= 10 { DecText(n / 10); }
  }

  /** A printed name: the hash in eight small hexadecimal digits, a dot, "r" for a CRL, and the id in decimal without
      a needless zero. */
  lemma LinkNameText(key: Key, id: nat)
    requires ValidKey(key)
    ensures var name, at := LinkName(key, id), if key.kind == 0 then 9 else 10;
            && |name| > at && name[8] == '.' && (key.kind == 1 ==> name[9] == 'r')
            && (forall i :: 0 <= i < 8 ==> IsLowerHex(name[i]))
            && AllXDigits(name[..8]) && HexValue(name[..8]) == key.hash
            && AllDec(name[at..]) && DecValue(name[at..]) == id
            && (if id == 0 then name[at..] == "0" else name[at] != '0')
  {
    var n, dec := 8, DecDigits(id);
    var name, at := LinkName(key, id), if key.kind == 0 then 9 else 10;
    HexText(key.hash, n);
    HexRoundTrip(key.hash, n);
    Pow16Is(n);
    DecText(id);
    DecRoundTrip(id);
    assert name[..8] == HexDigits(key.hash, n) && name[at..] == dec;
    assert name[at] == dec[0];
  }

  lemma OneMoreDigit(h: nat, n: nat, d: nat, s: string, c: char)
    requires HexDigits(h, n) == s && d < 16 && c == HexDigit(d)
    ensures HexDigits(h * 16 + d, n + 1) == s + [c]
  {
  }

  lemma LinkNameOfExample()
    ensures LinkName(Key(0, 0xabcdef01), 0) == "abcdef01.0"
  {
    var n, id := 0, 0;
    OneMoreDigit(0, n, 10, "", 'a');
    OneMoreDigit(0xa, n + 1, 11, "a", 'b');
    OneMoreDigit(0xab, n + 2, 12, "ab", 'c');
    OneMoreDigit(0xabc, n + 3, 13, "abc", 'd');
    OneMoreDigit(0xabcd, n + 4, 14, "abcd", 'e');
    OneMoreDigit(0xabcde, n + 5, 15, "abcde", 'f');
    OneMoreDigit(0xabcdef, n + 6, 0, "abcdef", '0');
    OneMoreDigit(0xabcdef0, n + 7, 1, "abcdef0", '1');
    DecText(id);
  }

  // ----- which names are read, and as what -----

  /** Small letters for capitals. */
  function Lowered(s: string): (r: string)
    ensures |r| == |s| && forall i :: 0 <= i < |s| ==> r[i] == Lower(s[i])
  {
    seq(|s|, i requires 0 <= i < |s| => Lower(s[i]))
  }

  lemma DigitPrinted(c: char)
    requires IsXDigit(c)
    ensures HexDigit(DigitVal(c)) == Lower(c)
  {
  }

  lemma {:induction false} Pow16Grows(m: nat, n: nat)
    requires m <= n
    ensures Pow16(m) <= Pow16(n)
  {
    if m < n { Pow16Grows(m, n - 1); }
  }

  lemma ShiftIn(v: nat, m: nat, d: nat)
    requires v < m && 16 * m <= TWO_32 && d < 16
    ensures ((v * 16) % TWO_32 + d) % TWO_32 == v * 16 + d < 16 * m
  {
    assert v * 16 + 16 <= 16 * m;
  }

  lemma {:induction false} HexLast(s: string)
    requires AllXDigits(s) && |s| <= 8
    ensures s != "" ==> HexValue(s) == HexValue(s[..|s| - 1]) * 16 + DigitVal(s[|s| - 1])
    ensures HexValue(s) < Pow16(|s|)
  {
    if s != "" {
      var n, top := |s| - 1, 8;
      HexLast(s[..n]);
      Pow16Is(top);
      Pow16Grows(n + 1, top);
      ShiftIn(HexValue(s[..n]), Pow16(n), DigitVal(s[n]));
    }
  }

  lemma LoweredNext(s: string, n: nat)
    requires |s| == n + 1
    ensures Lowered(s) == Lowered(s[..n]) + [Lower(s[n])]
  {
  }

  /** Printing the value of eight digits gives them back in small letters: capitals mean the same. */
  lemma {:induction false} HexPrinted(s: string)
    requires AllXDigits(s) && |s| <= 8
    ensures HexDigits(HexValue(s), |s|) == Lowered(s)
  {
    if s != "" {
      var n := |s| - 1;
      HexPrinted(s[..n]);
      HexLast(s);
      DigitPrinted(s[n]);
      LoweredNext(s, n);
      OneMoreDigit(HexValue(s[..n]), n, DigitVal(s[n]), Lowered(s[..n]), Lower(s[n]));
    }
  }

  /** The parts of a name that is read: eight digits, a dot, an 'r' for a CRL, and what strtoul takes: blanks, a sign
      and digits, or nothing at all. */
  datatype Spelling = Spelling(hex: string, suffix: string, spaces: string, sign: string, digits: string)

  ghost predicate IsLink(p: Spelling) {
    && |p.hex| == 8 && AllXDigits(p.hex)
    && p.suffix in {"", "r", "R"} && p.sign in {"", "+", "-"}
    && (forall i :: 0 <= i < |p.spaces| ==> IsSpace(p.spaces[i]))
    && AllDec(p.digits) && (p.digits == "" ==> p.spaces == "" && p.sign == "")
  }

  function Number(p: Spelling): string {
    p.spaces + p.sign + p.digits
  }

  function Text(p: Spelling): string {
    p.hex + "." + p.suffix + Number(p)
  }

  /** The id: the number modulo 65536, a negative one counted from the top; numbers past 64 bits are all ones. */
  function IdOf(p: Spelling): nat
    requires AllDec(p.digits)
  {
    var v := DecValue(p.digits);
    if v >= 0x1_0000_0000_0000_0000 then 65535
    else if p.sign == "-" then (65536 - v % 65536) % 65536
    else v % 65536
  }

  lemma {:induction false} SpacesCounted(spaces: string, rest: string)
    requires forall i :: 0 <= i < |spaces| ==> IsSpace(spaces[i])
    requires rest == "" || !IsSpace(rest[0])
    ensures SpaceCount(spaces + rest) == |spaces|
  {
    if spaces == "" {
      assert spaces + rest == rest;
    } else {
      assert (spaces + rest)[1..] == spaces[1..] + rest;
      assert forall i :: 0 <= i < |spaces[1..]| ==> spaces[1..][i] == spaces[i + 1];
      SpacesCounted(spaces[1..], rest);
    }
  }

  lemma {:induction false} CountedSpaces(s: string)
    ensures forall i :: 0 <= i < SpaceCount(s) ==> IsSpace(s[i])
  {
    if s != "" && IsSpace(s[0]) {
      CountedSpaces(s[1..]);
      forall i | 0 <= i < SpaceCount(s) ensures IsSpace(s[i]) {
        if i > 0 { assert s[1..][i - 1] == s[i]; }
      }
    }
  }

  lemma NegativeId(v: nat)
    requires 0 < v <= ULONG_MAX
    ensures (ULONG_MAX + 1 - v) % 0x1_0000 == (65536 - v % 65536) % 65536
  {
    var q, r := v / 65536, v % 65536;
    assert v == 65536 * q + r && ULONG_MAX + 1 == 65536 * 0x1_0000_0000_0000;
    assert ULONG_MAX + 1 - v == 65536 * (0x1_0000_0000_0000 - 1 - q) + (65536 - r);
  }

  lemma UlIsId(p: Spelling, minus: bool)
    requires AllDec(p.digits) && minus == (p.sign == "-")
    ensures UlOf(DecValue(p.digits), minus) % 0x1_0000 == IdOf(p)
  {
    var v := DecValue(p.digits);
    if 0 < v <= ULONG_MAX { NegativeId(v); }
  }

  lemma NumberSplit(p: Spelling, s: string)
    requires s == Number(p)
    ensures s == p.spaces + (p.sign + p.digits) && s[|p.spaces| + |p.sign|..] == p.digits
    ensures |p.sign| == 1 ==> s[|p.spaces|] == p.sign[0]
    ensures |p.sign| == 0 && p.digits != "" ==> s[|p.spaces|] == p.digits[0]
    ensures |p.sign| == 0 && p.spaces != "" ==> s[|p.spaces| - 1] == p.spaces[|p.spaces| - 1]
  {
  }

  lemma NumberScanned(p: Spelling, s: string, from: nat)
    requires IsLink(p) && p.digits != "" && s == Number(p) && from == |p.spaces| + |p.sign|
    ensures DigitsAt(s) == from && s[from..] == p.digits
    ensures from > 0 && s[from - 1] == '-' <==> p.sign == "-"
  {
    NumberSplit(p, s);
    assert p.sign != "" ==> p.sign == [p.sign[0]];
    SpacesCounted(p.spaces, p.sign + p.digits);
  }

  lemma NumberReads(p: Spelling)
    requires IsLink(p)
    ensures var (v, used) := StrToUl(Number(p)); used == |Number(p)| && v % 0x1_0000 == IdOf(p)
  {
    var s, from := Number(p), |p.spaces| + |p.sign|;
    if p.digits == "" {
      assert s == "" && s[0..] == "";
    } else {
      NumberScanned(p, s, from);
      AllDigits(p.digits);
      assert p.digits[..|p.digits|] == p.digits;
      UlIsId(p, p.sign == "-");
    }
  }

  lemma TextParts(p: Spelling)
    requires IsLink(p)
    ensures var name, kind := Text(p), if p.suffix == "" then 0 else 1;
            && |name| >= 9 + kind && name[..8] == p.hex && name[8] == '.' && name[9 + kind..] == Number(p)
            && (kind == 1 <==> |name| > 9 && (name[9] == 'r' || name[9] == 'R'))
  {
    var name := Text(p);
    if p.suffix == "" {
      assert name == p.hex + "." + Number(p);
      if Number(p) != "" {
        assert name[9] == Number(p)[0];
        assert Number(p)[0] == if p.spaces != "" then p.spaces[0] else if p.sign != "" then p.sign[0] else p.digits[0];
      }
    } else {
      assert name[9] == p.suffix[0];
    }
  }

  /** A name made of these parts is read as the value of its digits, the kind of its suffix and that id. */
  lemma ReadsSpelling(p: Spelling)
    requires IsLink(p)
    ensures ParseLinkName(Text(p)) == Some((Key(if p.suffix == "" then 0 else 1, HexValue(p.hex)), IdOf(p)))
  {
    TextParts(p);
    NumberReads(p);
  }

  lemma NumberParts(s: string) returns (spaces: string, sign: string, digits: string)
    requires StrToUl(s).1 == |s|
    ensures s == spaces + sign + digits && sign in {"", "+", "-"} && AllDec(digits)
    ensures forall i :: 0 <= i < |spaces| ==> IsSpace(spaces[i])
    ensures digits == "" ==> spaces == "" && sign == ""
  {
    CountedSpaces(s);
    var ws, from := SpaceCount(s), DigitsAt(s);
    if DigitCount(s[from..]) == 0 {
      spaces, sign, digits := "", "", "";
    } else {
      spaces, sign, digits := s[..ws], s[ws..from], s[from..];
      assert from > ws ==> sign == [s[ws]];
    }
  }

  lemma Joined(name: string, kind: nat, p: Spelling)
    requires kind < 2 && 9 + kind <= |name| && AllXDigits(name[..8]) && name[8] == '.'
    requires kind == 1 ==> name[9] == 'r' || name[9] == 'R'
    requires p.hex == name[..8] && p.suffix == name[9..9 + kind] && Number(p) == name[9 + kind..]
    ensures name == Text(p) && |p.hex| == 8 && AllXDigits(p.hex) && p.suffix in {"", "r", "R"}
  {
    assert name == name[..8] + "." + name[9..9 + kind] + name[9 + kind..];
    assert kind == 1 ==> p.suffix == [name[9]];
  }

  lemma ReadTail(name: string) returns (kind: nat)
    requires ParseLinkName(name).Some?
    ensures kind < 2 && 9 + kind <= |name| && AllXDigits(name[..8]) && name[8] == '.'
    ensures kind == 1 ==> name[9] == 'r' || name[9] == 'R'
    ensures StrToUl(name[9 + kind..]).1 == |name[9 + kind..]|
  {
    kind := if |name| > 9 && (name[9] == 'r' || name[9] == 'R') then 1 else 0;
  }

  lemma PartsOf(name: string) returns (p: Spelling)
    requires ParseLinkName(name).Some?
    ensures IsLink(p) && name == Text(p)
  {
    var kind := ReadTail(name);
    var tail := name[9 + kind..];
    var spaces, sign, digits := NumberParts(tail);
    p := Spelling(name[..8], name[9..9 + kind], spaces, sign, digits);
    Joined(name, kind, p);
  }

  /** And no other name is read. */
  lemma ReadIff(name: string)
    ensures ParseLinkName(name).Some? <==> exists p :: IsLink(p) && name == Text(p)
  {
    if ParseLinkName(name).Some? {
      var p := PartsOf(name);
    } else {
      forall p | IsLink(p) ensures name != Text(p) {
        ReadsSpelling(p);
      }
    }
  }
}
