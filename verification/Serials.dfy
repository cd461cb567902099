/** Serial numbers as the index file spells them. */
module Serials {
  import opened CStrings

  function UpperHex(d: nat): (c: char)
    requires d < 16
    ensures IsXDigit(c) && DigitVal(c) == d
  {
    if d < 10 then '0' + d as char else 'A' + (d - 10) as char
  }

  /** BN_bn2hex of a positive number: two digits a byte, no leading zero byte. */
  function ByteDigits(n: nat): (s: string)
    ensures |s| >= 2 && |s| % 2 == 0 && AllXDigits(s)
  {
    var low := [UpperHex(n / 16 % 16), UpperHex(n % 16)];
    if n < 256 then low else ByteDigits(n / 256) + low
  }

  /** How a row spells a serial; zero is "00", not the library's "0". */
  function Spell(z: int): string {
    if z < 0 then "-" + ByteDigits(-z) else ByteDigits(z)
  }

  /** The load check on a row's serial: an even number, at least two, of hexadecimal digits after any '-'. */
  predicate SerialOk(s: string) {
    var digits := if s != "" && s[0] == '-' then s[1..] else s;
    |digits| >= 2 && |digits| % 2 == 0 && AllXDigits(digits)
  }

  function HexValue(s: string): nat
    requires AllXDigits(s)
  {
    if s == "" then 0 else HexValue(s[..|s| - 1]) * 16 + DigitVal(s[|s| - 1])
  }

  function SerialValue(s: string): int
    requires SerialOk(s)
  {
    if s[0] == '-' then 0 - HexValue(s[1..]) else HexValue(s)
  }

  /** index_serial_cmp compares after leading zeros; a '-' stops them. */
  function Stripped(s: string): string {
    if s != "" && s[0] == '0' then Stripped(s[1..]) else s
  }

  predicate SameSerial(a: string, b: string) {
    Stripped(a) == Stripped(b)
  }

  lemma TwoMoreDigits(s: string, a: char, b: char)
    requires AllXDigits(s) && IsXDigit(a) && IsXDigit(b)
    ensures HexValue(s + [a, b]) == HexValue(s) * 256 + DigitVal(a) * 16 + DigitVal(b)
  {
    var t := s + [a, b];
    assert t[..|t| - 1] == s + [a] && (s + [a])[..|s|] == s;
  }

  lemma ByteSplit(n: nat)
    ensures n == n / 256 * 256 + n / 16 % 16 * 16 + n % 16
    ensures n < 256 ==> n / 256 == 0
  {
    var q := n / 16;
    assert n == q * 16 + n % 16 && q == q / 16 * 16 + q % 16;
    assert q / 16 == n / 256;
  }

  lemma {:induction false} SpelledValue(n: nat)
    ensures HexValue(ByteDigits(n)) == n
  {
    var a, b := UpperHex(n / 16 % 16), UpperHex(n % 16);
    ByteSplit(n);
    if n < 256 {
      TwoMoreDigits("", a, b);
      assert "" + [a, b] == [a, b];
    } else {
      SpelledValue(n / 256);
      TwoMoreDigits(ByteDigits(n / 256), a, b);
    }
  }

  /** A serial loads exactly when it is pairs of hexadecimal digits, at least one, after a '-' or nothing. */
  lemma SerialOkIff(s: string)
    ensures SerialOk(s) <==> exists sign, digits :: s == sign + digits && sign in {"", "-"} && |digits| % 2 == 0
                                                    && |digits| > 0 && AllXDigits(digits)
  {
    if SerialOk(s) {
      if s[0] == '-' {
        assert s == "-" + s[1..];
      } else {
        assert s == "" + s;
      }
    }
    forall sign, digits | s == sign + digits && sign in {"", "-"} && |digits| % 2 == 0 && |digits| > 0
                          && AllXDigits(digits)
      ensures SerialOk(s)
    {
      assert s[|sign|] == digits[0] && s[|sign|..] == digits;
    }
  }

  predicate IsUpperHex(c: char) {
    '0' <= c <= '9' || 'A' <= c <= 'F'
  }

  lemma {:induction false} DigitsText(n: nat)
    ensures var s := ByteDigits(n);
            (forall i :: 0 <= i < |s| ==> IsUpperHex(s[i])) && (n > 0 ==> s[0] != '0' || s[1] != '0')
  {
    if n >= 256 {
      DigitsText(n / 256);
    } else {
      assert n / 16 < 16;
    }
  }

  /** The text of a serial: capital letters, two digits a byte, no zero byte in front but for zero itself, and a '-'
      before the digits of a negative one. */
  lemma SpellText(z: int)
    ensures z < 0 ==> Spell(z) == "-" + Spell(-z)
    ensures z >= 0 ==>
              var s := Spell(z);
              && |s| >= 2 && |s| % 2 == 0 && (forall i :: 0 <= i < |s| ==> IsUpperHex(s[i]))
              && AllXDigits(s) && HexValue(s) == z
              && (z > 0 ==> s[0] != '0' || s[1] != '0') && (z == 0 ==> s == "00")
  {
    if z >= 0 {
      DigitsText(z);
      SpelledValue(z);
    }
  }

  /** What is spelled loads, and means the number it spells. */
  lemma SpellIsOk(z: int)
    ensures SerialOk(Spell(z)) && SerialValue(Spell(z)) == z
  {
    if z < 0 {
      SpelledValue(-z);
      assert Spell(z)[1..] == ByteDigits(-z);
    } else {
      SpelledValue(z);
      assert IsXDigit(ByteDigits(z)[0]);
    }
  }

  lemma {:induction false} ZeroInFront(s: string)
    requires AllXDigits(s) && s != "" && s[0] == '0'
    ensures AllXDigits(s[1..]) && HexValue(s) == HexValue(s[1..])
  {
    if |s| > 1 {
      ZeroInFront(s[..|s| - 1]);
      assert s[..|s| - 1][1..] == s[1..][..|s| - 2];
    } else {
      assert s[..0] == "" && s[1..] == "";
    }
  }

  lemma {:induction false} StrippedValue(s: string)
    requires AllXDigits(s)
    ensures AllXDigits(Stripped(s)) && HexValue(Stripped(s)) == HexValue(s)
  {
    if s != "" && s[0] == '0' {
      ZeroInFront(s);
      StrippedValue(s[1..]);
    }
  }

  lemma SignsDiffer(pos: string, neg: string)
    requires SerialOk(pos) && SerialOk(neg) && pos[0] != '-' && neg[0] == '-'
    ensures !SameSerial(pos, neg)
  {
    StrippedValue(pos);
    assert Stripped(neg) == neg && !IsXDigit(neg[0]);
    assert Stripped(pos) != "" ==> IsXDigit(Stripped(pos)[0]);
  }

  /** Serials the index calls equal are equal numbers. */
  lemma SameSerialSameValue(a: string, b: string)
    requires SerialOk(a) && SerialOk(b) && SameSerial(a, b)
    ensures SerialValue(a) == SerialValue(b)
  {
    if a[0] != '-' && b[0] != '-' {
      StrippedValue(a);
      StrippedValue(b);
    } else if a[0] != '-' {
      SignsDiffer(a, b);
    } else if b[0] != '-' {
      SignsDiffer(b, a);
    }
  }
}
