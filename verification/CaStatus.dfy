/** The ca command's query for one certificate's status. */
module CaStatus {
  import opened CStrings
  import opened Serials
  import opened CaDb

  function UpperChar(c: char): char {
    if 'a' <= c <= 'z' then c - 32 as char else c
  }

  function Upper(s: string): (r: string)
    ensures |r| == |s| && forall i :: 0 <= i < |s| ==> r[i] == UpperChar(s[i])
  {
    seq(|s|, i requires 0 <= i < |s| => UpperChar(s[i]))
  }

  /** What is looked up: padded to an even length, in upper case. */
  function StatusKey(serial: string): string {
    Upper(if |serial| % 2 == 1 then "0" + serial else serial)
  }

  /** k is the row found, or -1. */
  method GetCertificateStatus(rows: seq<Row>, serial: string) returns (ok: bool, k: int)
    requires '\0' !in serial
    ensures k == FindSerial(rows, StatusKey(serial))
    ensures ok <==> k >= 0 && rows[k].kind in {'V', 'R', 'E', 'S'}
  {
    var len := |serial|;
    var row := new char[len + 2];
    var from := if len % 2 == 1 then 1 else 0;
    ghost var padded := if len % 2 == 1 then "0" + serial else serial;
    if len % 2 == 1 {
      row[0] := '0';
    }
    forall i | 0 <= i < len {
      row[from + i] := serial[i];
    }
    row[from + len] := '\0';
    assert row[..from + len] == padded;
    assert forall i :: 0 <= i < from + len ==> row[i] == padded[i] && padded[i] != '\0';
    var i := 0;
    while row[i] != '\0'
      invariant 0 <= i <= from + len && row[from + len] == '\0'
      invariant forall j :: 0 <= j < from + len ==> row[j] == if j < i then UpperChar(padded[j]) else padded[j]
      decreases from + len - i
    {
      row[i] := UpperChar(row[i]);
      i := i + 1;
    }
    assert row[..i] == Upper(padded);
    k := FindSerial(rows, row[..i]);
    if k < 0 {
      ok := false;
    } else if rows[k].kind == 'V' || rows[k].kind == 'R' || rows[k].kind == 'E' || rows[k].kind == 'S' {
      ok := true;
    } else {
      ok := false;
    }
  }

  // ----- which rows a query finds -----

  predicate AllUpper(s: string) {
    forall i :: 0 <= i < |s| ==> IsUpperHex(s[i])
  }

  lemma {:induction false} StrippedStart(s: string)
    ensures Stripped(s) != "" ==> Stripped(s)[0] != '0'
  {
    if s != "" && s[0] == '0' {
      StrippedStart(s[1..]);
    }
  }

  lemma {:induction false} PositiveWithoutZero(s: string)
    requires AllXDigits(s) && s != "" && s[0] != '0'
    ensures HexValue(s) > 0
  {
    if |s| > 1 {
      PositiveWithoutZero(s[..|s| - 1]);
    } else {
      assert s[..0] == "";
      assert DigitVal(s[0]) > 0;
    }
  }

  lemma SixteensSplit(a: nat, x: nat, b: nat, y: nat)
    requires a * 16 + x == b * 16 + y && x < 16 && y < 16
    ensures a == b && x == y
  {
  }

  /** Without leading zeros and in upper case a number is spelled in one way only. */
  lemma {:induction false} OneSpelling(s: string, t: string)
    requires AllUpper(s) && AllUpper(t) && AllXDigits(s) && AllXDigits(t)
    requires (s != "" ==> s[0] != '0') && (t != "" ==> t[0] != '0')
    requires HexValue(s) == HexValue(t)
    ensures s == t
  {
    if s == "" || t == "" {
      if s != "" { PositiveWithoutZero(s); }
      if t != "" { PositiveWithoutZero(t); }
    } else {
      var s0, t0 := s[..|s| - 1], t[..|t| - 1];
      var x, y := s[|s| - 1], t[|t| - 1];
      SixteensSplit(HexValue(s0), DigitVal(x), HexValue(t0), DigitVal(y));
      OneSpelling(s0, t0);
      assert x == y && s == s0 + [x] && t == t0 + [y];
    }
  }

  lemma {:induction false} KeyValue(s: string)
    requires AllXDigits(s)
    ensures AllXDigits(Upper(s)) && AllUpper(Upper(s)) && HexValue(Upper(s)) == HexValue(s)
  {
    forall i | 0 <= i < |s| ensures IsXDigit(Upper(s)[i]) && DigitVal(Upper(s)[i]) == DigitVal(s[i]) {
      assert IsXDigit(s[i]);
    }
    if s != "" {
      var init := s[..|s| - 1];
      KeyValue(init);
      assert Upper(s)[..|s| - 1] == Upper(init);
      assert HexValue(Upper(s)) == HexValue(Upper(init)) * 16 + DigitVal(Upper(s)[|s| - 1]);
    }
  }

  lemma StatusKeyValue(q: string)
    requires AllXDigits(q)
    ensures AllXDigits(StatusKey(q)) && AllUpper(StatusKey(q)) && HexValue(StatusKey(q)) == HexValue(q)
  {
    if |q| % 2 == 1 {
      ZeroInFront("0" + q);
      assert ("0" + q)[1..] == q;
      KeyValue("0" + q);
    } else {
      KeyValue(q);
    }
  }

  lemma {:induction false} StrippedInUpper(s: string)
    ensures Stripped(Upper(s)) == Upper(Stripped(s))
  {
    if s != "" && s[0] == '0' {
      StrippedInUpper(s[1..]);
      assert Upper(s)[1..] == Upper(s[1..]);
    }
  }

  /** The padding and the upper case do not matter to what is compared. */
  lemma StrippedKey(q: string)
    ensures Stripped(StatusKey(q)) == Upper(Stripped(q))
  {
    StrippedInUpper(if |q| % 2 == 1 then "0" + q else q);
    assert ("0" + q)[1..] == q;
  }

  lemma {:induction false} StrippedDigits(s: string)
    ensures AllXDigits(s) <==> AllXDigits(Stripped(s))
  {
    if s != "" && s[0] == '0' {
      StrippedDigits(s[1..]);
      assert forall i :: 0 < i < |s| ==> s[i] == s[1..][i - 1];
      if AllXDigits(s[1..]) {
        forall i | 0 <= i < |s| ensures IsXDigit(s[i]) {
          if i > 0 { assert s[i] == s[1..][i - 1]; }
        }
      }
    }
  }

  lemma UpperDigits(s: string)
    ensures AllXDigits(Upper(s)) <==> AllXDigits(s)
  {
    forall i | 0 <= i < |s| ensures IsXDigit(Upper(s)[i]) <==> IsXDigit(s[i]) {}
    if AllXDigits(Upper(s)) {
      forall i | 0 <= i < |s| ensures IsXDigit(s[i]) { assert IsXDigit(Upper(s)[i]); }
    }
  }

  lemma HexQueryFindsIff(serial: string, q: string)
    requires SerialOk(serial) && AllXDigits(q)
    ensures SameSerial(serial, StatusKey(q))
            <==> serial[0] != '-' && AllUpper(serial) && SerialValue(serial) == HexValue(q)
  {
    var key := StatusKey(q);
    StatusKeyValue(q);
    StrippedValue(key);
    StrippedStart(key);
    StrippedStart(serial);
    if serial[0] == '-' {
      assert Stripped(serial) == serial;
      assert Stripped(key) != "" ==> IsXDigit(Stripped(key)[0]);
    } else {
      StrippedValue(serial);
      StrippedUpper(serial);
      StrippedUpper(key);
      if AllUpper(serial) && HexValue(serial) == HexValue(q) {
        OneSpelling(Stripped(serial), Stripped(key));
      }
    }
  }

  /** Which row a query finds. A hexadecimal query, of any case and with any leading zeros, finds the row whose
      serial is that number, not negative, and spelled in upper case (a lower-case spelling loads, but is not
      found). Any other query finds only the row spelled exactly like it, leading zeros dropped, in upper case:
      zeros after a '-' count. */
  lemma QueryFindsIff(serial: string, q: string)
    requires SerialOk(serial)
    ensures SameSerial(serial, StatusKey(q))
            <==> if AllXDigits(q) then
                   serial[0] != '-' && AllUpper(serial) && SerialValue(serial) == HexValue(q)
                 else serial == Upper(Stripped(q))
  {
    if AllXDigits(q) {
      HexQueryFindsIff(serial, q);
    } else {
      StrippedKey(q);
      StrippedDigits(q);
      UpperDigits(Stripped(q));
      if serial[0] != '-' {
        StrippedDigits(serial);
        assert AllXDigits(serial);
      }
    }
  }

  /** A serial as the program spells it is found by its number in any spelling, if not negative. */
  lemma SpelledIsFound(z: int, q: string)
    requires z >= 0 && AllXDigits(q)
    ensures SameSerial(Spell(z), StatusKey(q)) <==> HexValue(q) == z
  {
    SpellText(z);
    SpellIsOk(z);
    QueryFindsIff(Spell(z), q);
  }

  /** So a negative row is found under its own digits only: "-01" finds it, padded or not, and "-1" does not. */
  lemma NegativeQueries()
    ensures SerialOk("-01") && SerialValue("-01") == -1
    ensures SameSerial("-01", StatusKey("-01")) && SameSerial("-01", StatusKey("0-01"))
    ensures !SameSerial("-01", StatusKey("-1"))
  {
    var row, q := "-01", "0-01";
    var digits := row[1..];
    assert digits == "01" && AllXDigits(digits);
    ZeroInFront(digits);
    assert digits[1..] == "1" && "1"[..0] == "";
    assert !IsXDigit('-') && row[0] == '-' && q[1] == '-' && "-1"[0] == '-';
    assert Stripped(row) == row && Stripped("-1") == "-1" && q[1..] == row && Stripped(q) == row;
    assert Upper(row) == row && Upper("-1") == "-1" && |row| != |"-1"|;
    QueryFindsIff(row, row);
    QueryFindsIff(row, q);
    QueryFindsIff(row, "-1");
  }

  lemma {:induction false} StrippedUpper(s: string)
    ensures AllUpper(s) <==> AllUpper(Stripped(s))
  {
    if s != "" && s[0] == '0' {
      StrippedUpper(s[1..]);
      assert forall i :: 0 < i < |s| ==> s[i] == s[1..][i - 1];
      if AllUpper(s[1..]) {
        forall i | 0 <= i < |s| ensures IsUpperHex(s[i]) {
          if i > 0 { assert s[i] == s[1..][i - 1]; }
        }
      }
    }
  }
}
