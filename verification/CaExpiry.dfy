/** The expiry sweep compares dates as strings; when that is the order of time, and when it is not. */
module CaExpiry {
  import opened CStrings
  import opened CaDb

  predicate Digits(s: string) {
    forall i :: 0 <= i < |s| ==> '0' <= s[i] <= '9'
  }

  function Number(s: string): nat
    requires Digits(s)
  {
    if s == "" then 0 else Number(s[..|s| - 1]) * 10 + (s[|s| - 1] - '0') as nat
  }

  /** YYMMDDHHMMSSZ, as section 4.1.2.5.1 of RFC 5280 prescribes it. */
  predicate IsUtcTime(s: string) {
    |s| == 13 && Digits(s[..12]) && s[12] == 'Z'
  }

  /** YYYYMMDDHHMMSSZ, as section 4.1.2.5.2 of RFC 5280 prescribes it. */
  predicate IsGeneralizedTime(s: string) {
    |s| == 15 && Digits(s[..14]) && s[14] == 'Z'
  }

  /** The instant as YYYYMMDDHHMMSS: two-digit years below 50 are in 2000-2049, the others in 1950-1999. */
  function UtcInstant(s: string): nat
    requires IsUtcTime(s)
  {
    var n := Number(s[..12]);
    if n < 500000000000 then 20000000000000 + n else 19000000000000 + n
  }

  function GeneralizedInstant(s: string): nat
    requires IsGeneralizedTime(s)
  {
    Number(s[..14])
  }

  // ----- string order and number order -----

  function Pow10(n: nat): (p: nat)
    ensures p > 0
  {
    if n == 0 then 1 else 10 * Pow10(n - 1)
  }

  lemma TimesTen(d: nat, p: nat, r: nat)
    ensures (d * p + r) * 10 == d * (10 * p) + r * 10
  {
  }

  lemma NumberSnoc(s: string, t: string, u: string)
    requires |s| > 1 && Digits(s) && t == s[..|s| - 1] && u == s[1..]
    ensures Digits(t) && Digits(u) && Digits(t[1..])
    ensures Number(s) == Number(t) * 10 + (s[|s| - 1] - '0') as nat
    ensures Number(u) == Number(t[1..]) * 10 + (s[|s| - 1] - '0') as nat
  {
    assert Digits(t) && Digits(u) && Digits(t[1..]);
    assert u[..|u| - 1] == t[1..] && u[|u| - 1] == s[|s| - 1];
    NumberLast(s);
    NumberLast(u);
  }

  lemma NumberLast(s: string)
    requires s != "" && Digits(s)
    ensures Number(s) == Number(s[..|s| - 1]) * 10 + (s[|s| - 1] - '0') as nat
  {
  }

  lemma {:induction false} NumberCons(s: string)
    requires s != "" && Digits(s)
    ensures Digits(s[1..])
    ensures Number(s) == (s[0] - '0') as nat * Pow10(|s| - 1) + Number(s[1..])
    ensures Number(s[1..]) < Pow10(|s| - 1)
  {
    if |s| > 1 {
      var t := s[..|s| - 1];
      NumberSnoc(s, t, s[1..]);
      NumberCons(t);
      TimesTen((s[0] - '0') as nat, Pow10(|s| - 2), Number(t[1..]));
    } else {
      assert s[..0] == "" && s[1..] == "";
    }
  }

  lemma LeadingDigit(x: nat, y: nat, p: nat, r: nat, t: nat)
    requires r < p && t < p
    ensures x < y ==> x * p + r < y * p + t
    ensures y < x ==> y * p + t < x * p + r
  {
    if x < y { assert x * p + p <= y * p by { assert (x + 1) * p <= y * p; } }
    if y < x { assert y * p + p <= x * p by { assert (y + 1) * p <= x * p; } }
  }

  /** Digit strings of one length: strcmp's order is the order of the numbers. */
  lemma {:induction false} StrLeqIsLeq(a: string, b: string)
    requires |a| == |b| && Digits(a) && Digits(b)
    ensures StrLeq(a, b) <==> Number(a) <= Number(b)
    ensures a == b <==> Number(a) == Number(b)
  {
    if a != "" {
      NumberCons(a);
      NumberCons(b);
      StrLeqIsLeq(a[1..], b[1..]);
      LeadingDigit((a[0] - '0') as nat, (b[0] - '0') as nat, Pow10(|a| - 1), Number(a[1..]), Number(b[1..]));
      assert a == [a[0]] + a[1..] && b == [b[0]] + b[1..];
    }
  }

  /** A common prefix of digits decides, unless it is the same. */
  lemma {:induction false} StrLeqPrefix(a: string, b: string, n: nat)
    requires n <= |a| && n <= |b|
    ensures a[..n] != b[..n] ==> (StrLeq(a, b) <==> StrLeq(a[..n], b[..n]))
    ensures a[..n] == b[..n] ==> (StrLeq(a, b) <==> StrLeq(a[n..], b[n..])) && StrLeq(a[..n], b[..n])
  {
    if n > 0 {
      StrLeqPrefix(a[1..], b[1..], n - 1);
      assert a[..n][1..] == a[1..][..n - 1] && b[..n][1..] == b[1..][..n - 1];
      assert a[1..][n - 1..] == a[n..] && b[1..][n - 1..] == b[n..];
      assert a[..n] == [a[0]] + a[..n][1..] && b[..n] == [b[0]] + b[..n][1..];
    }
  }

  // ----- the sweep -----

  lemma Y2kIsBefore50(s: string)
    requires |s| >= 12 && Digits(s[..12])
    ensures Y2k(s) <==> Number(s[..2]) < 50
  {
    assert s[..2] == s[..12][..2];
    StrLeqIsLeq(s[..2], "49");
    FortyNine();
  }

  lemma FortyNine()
    ensures Digits("49") && Number("49") == 49
  {
    var s := "49";
    NumberLast(s);
    NumberLast(s[..1]);
    assert s[..1][..0] == "";
  }

  /** A twelve-digit number is below 500000000000 exactly when its first two digits are below 50. */
  lemma FirstTwo(s: string)
    requires |s| == 12 && Digits(s)
    ensures Digits(s[..2]) && (Number(s[..2]) < 50 <==> Number(s) < 500000000000)
  {
    NumberSplit(s, 2);
    TenToTheTen();
    var n, r := Number(s[..2]), Number(s[2..]);
    assert Number(s) == n * 10000000000 + r && r < 10000000000;
  }

  lemma TenToTheTen()
    ensures Pow10(10) == 10000000000
  {
    assert Pow10(5) == 100000;
    assert Pow10(10) == 100000 * Pow10(5);
  }

  lemma {:induction false} NumberSplit(s: string, k: nat)
    requires k <= |s| && Digits(s)
    ensures Digits(s[..k]) && Digits(s[k..])
    ensures Number(s) == Number(s[..k]) * Pow10(|s| - k) + Number(s[k..]) && Number(s[k..]) < Pow10(|s| - k)
    decreases |s|
  {
    if k == |s| {
      assert s[..k] == s && s[k..] == "";
    } else {
      var t := s[..|s| - 1];
      NumberSplit(t, k);
      assert t[..k] == s[..k] && s[k..][..|s| - k - 1] == t[k..];
      NumberLast(s);
      NumberLast(s[k..]);
      TimesTen(Number(s[..k]), Pow10(|t| - k), Number(t[k..]));
    }
  }

  /** On UTCTime dates the sweep's comparison is the order of time. */
  lemma ExpiredIsBefore(date: string, now: string)
    requires IsUtcTime(date) && IsUtcTime(now)
    ensures Expired(date, now) <==> UtcInstant(date) <= UtcInstant(now)
  {
    Y2kIsBefore50(date);
    Y2kIsBefore50(now);
    FirstTwo(date[..12]);
    FirstTwo(now[..12]);
    assert date[..12][..2] == date[..2] && now[..12][..2] == now[..2];
    StrLeqPrefix(date, now, 12);
    StrLeqIsLeq(date[..12], now[..12]);
    assert date[12..] == "Z" && now[12..] == "Z";
    BelowTenToThe12(date[..12]);
    BelowTenToThe12(now[..12]);
  }

  lemma BelowTenToThe12(s: string)
    requires |s| == 12 && Digits(s)
    ensures Number(s) < 1000000000000
  {
    NumberSplit(s, 0);
    TenToTheTen();
    assert s[..0] == "" && s[0..] == s;
    assert Pow10(12) == 100 * Pow10(10);
  }

  /** Every valid row's expiry date is a UTCTime. */
  ghost predicate UtcRows(rows: seq<Row>) {
    forall i :: 0 <= i < |rows| && rows[i].kind == 'V' ==> IsUtcTime(rows[i].expDate)
  }

  function Changed(rows: seq<Row>, now: string): set<nat> {
    set i: nat | i < |rows| && ExpireRow(rows[i], now) != rows[i]
  }

  lemma {:induction false} CountIsChanged(rows: seq<Row>, now: string)
    ensures ExpireCount(rows, now) == |Changed(rows, now)|
  {
    if rows != [] {
      var n := |rows| - 1;
      CountIsChanged(rows[..n], now);
      assert Changed(rows, now) == Changed(rows[..n], now) + if ExpireRow(rows[n], now) != rows[n] then {n} else {};
    }
  }

  /** The sweep marks exactly the valid rows whose expiry instant is at or before now, changes nothing else,
      and returns how many it marked. */
  lemma SweepMarks(rows: seq<Row>, now: string)
    requires UtcRows(rows) && IsUtcTime(now)
    ensures forall i :: 0 <= i < |rows| ==>
              ExpireRows(rows, now)[i] ==
              if rows[i].kind == 'V' && UtcInstant(rows[i].expDate) <= UtcInstant(now)
              then rows[i].(kind := 'E') else rows[i]
    ensures ExpireCount(rows, now) ==
            |set i: nat | i < |rows| && rows[i].kind == 'V' && UtcInstant(rows[i].expDate) <= UtcInstant(now)|
  {
    forall i | 0 <= i < |rows| && rows[i].kind == 'V'
      ensures Expired(rows[i].expDate, now) <==> UtcInstant(rows[i].expDate) <= UtcInstant(now)
    {
      ExpiredIsBefore(rows[i].expDate, now);
    }
    CountIsChanged(rows, now);
    assert Changed(rows, now) ==
           set i: nat | i < |rows| && rows[i].kind == 'V' && UtcInstant(rows[i].expDate) <= UtcInstant(now);
  }

  function Later(t: string, u: string): string
    requires IsUtcTime(t) && IsUtcTime(u)
  {
    if UtcInstant(t) <= UtcInstant(u) then u else t
  }

  /** Two sweeps, in either order of time, are one sweep at the later time, and their counts add up. */
  lemma SweepTwice(rows: seq<Row>, t: string, u: string)
    requires UtcRows(rows) && IsUtcTime(t) && IsUtcTime(u)
    ensures ExpireRows(ExpireRows(rows, t), u) == ExpireRows(rows, Later(t, u))
    ensures ExpireCount(rows, t) + ExpireCount(ExpireRows(rows, t), u) == ExpireCount(rows, Later(t, u))
  {
    var swept := ExpireRows(rows, t);
    forall i | 0 <= i < |rows| ensures ExpireRow(swept[i], u) == ExpireRow(rows[i], Later(t, u)) {
      if rows[i].kind == 'V' {
        ExpiredIsBefore(rows[i].expDate, t);
        ExpiredIsBefore(rows[i].expDate, u);
      }
    }
    CountIsChanged(rows, t);
    CountIsChanged(swept, u);
    CountIsChanged(rows, Later(t, u));
    forall i | 0 <= i < |rows|
      ensures i in Changed(rows, Later(t, u)) <==> i in Changed(rows, t) || i in Changed(swept, u)
      ensures !(i in Changed(rows, t) && i in Changed(swept, u))
    {
      assert ExpireRow(swept[i], u) == ExpireRow(rows[i], Later(t, u));
    }
    assert Changed(rows, Later(t, u)) == Changed(rows, t) + Changed(swept, u);
    assert Changed(rows, t) !! Changed(swept, u);
  }

  // ----- dates with a four-digit year -----

  /** The instant the sweep takes a GeneralizedTime for: its first twelve digits, read as those of a UTCTime. */
  function Misread(date: string): nat
    requires IsGeneralizedTime(date)
  {
    assert date[..12] == date[..14][..12];
    var n := Number(date[..12]);
    if n < 500000000000 then 20000000000000 + n else 19000000000000 + n
  }

  /** Digits come before the 'Z', so of equal first twelve digits the longer date is the earlier string. */
  lemma TailDecides(date: string, now: string)
    requires IsGeneralizedTime(date) && IsUtcTime(now)
    ensures Digits(date[..12]) && (StrLeq(date, now) <==> Number(date[..12]) <= Number(now[..12]))
  {
    assert date[..12] == date[..14][..12] && date[12] == date[..14][12];
    StrLeqPrefix(date, now, 12);
    StrLeqIsLeq(date[..12], now[..12]);
    assert date[12..] == [date[12], date[13], 'Z'] && now[12..] == "Z";
    assert StrLeq(date[12..], now[12..]);
  }

  /** What the sweep decides for any GeneralizedTime: a date whose first two digits are past 49 is behind every
      now from 2000 on, one whose first two digits are not is ahead of every earlier now, and on the same side
      the first twelve digits decide. */
  lemma GeneralizedExpired(date: string, now: string)
    requires IsGeneralizedTime(date) && IsUtcTime(now)
    ensures Digits(date[..12])
    ensures var d, n := Number(date[..12]), Number(now[..12]);
            Expired(date, now) <==> if d >= 500000000000 then n < 500000000000 || d <= n
                                    else n < 500000000000 && d <= n
    ensures Expired(date, now) <==> Misread(date) <= UtcInstant(now)
  {
    TailDecides(date, now);
    Y2kIsBefore50(date);
    Y2kIsBefore50(now);
    FirstTwo(date[..12]);
    FirstTwo(now[..12]);
    assert date[..12][..2] == date[..2] && now[..12][..2] == now[..2];
    BelowTenToThe12(date[..12]);
    BelowTenToThe12(now[..12]);
  }

  /** The verdict on a GeneralizedTime is right exactly when now is not between its instant and the misreading. */
  lemma GeneralizedVerdict(date: string, now: string)
    requires IsGeneralizedTime(date) && IsUtcTime(now)
    ensures (Expired(date, now) <==> GeneralizedInstant(date) <= UtcInstant(now))
            <==> !(Misread(date) <= UtcInstant(now) < GeneralizedInstant(date))
                 && !(GeneralizedInstant(date) <= UtcInstant(now) < Misread(date))
  {
    GeneralizedExpired(date, now);
  }

  lemma TwoDigits(y: string)
    requires |y| == 2 && Digits(y)
    ensures Number(y) == (y[0] - '0') as nat * 10 + (y[1] - '0') as nat
  {
    NumberLast(y);
    NumberLast(y[..1]);
    assert y[..1][..0] == "";
  }

  /** The first two of twelve digits. */
  lemma Leading(s: string)
    requires |s| == 12 && Digits(s)
    ensures var y := (s[0] - '0') as nat * 10 + (s[1] - '0') as nat;
            y * 10000000000 <= Number(s) < (y + 1) * 10000000000
  {
    NumberSplit(s, 2);
    TenToTheTen();
    TwoDigits(s[..2]);
  }

  /** So every GeneralizedTime of the years 2000 to 2099 counts as expired from 2021 to 2049. */
  lemma CenturyMarkedFrom2021(date: string, now: string)
    requires IsGeneralizedTime(date) && date[0] == '2' && date[1] == '0'
    requires IsUtcTime(now) && 20210000000000 <= UtcInstant(now)
    ensures Expired(date, now)
  {
    assert date[..12] == date[..14][..12];
    Leading(date[..12]);
    GeneralizedExpired(date, now);
  }

  lemma Year2050(s: string)
    requires |s| == 14 && Digits(s) && s[0] == '2' && s[1] == '0' && s[2] == '5' && s[3] == '0'
    ensures 20500000000000 <= Number(s) < 20510000000000
  {
    var y := s[..4];
    NumberSplit(s, 4);
    TenToTheTen();
    NumberSplit(y, 2);
    TwoDigits(y[..2]);
    TwoDigits(y[2..]);
    assert Pow10(2) == 100;
  }

  /** Among them the dates of 2050, which a CA that runs in 2021 marks while they are good. */
  lemma GoodUntil2050MarkedIn2021(date: string, now: string)
    requires IsGeneralizedTime(date) && date[0] == '2' && date[1] == '0' && date[2] == '5' && date[3] == '0'
    requires IsUtcTime(now) && now[0] == '2' && now[1] == '1'
    ensures Expired(date, now) && GeneralizedInstant(date) > UtcInstant(now)
  {
    Year2050(date[..14]);
    Leading(now[..12]);
    CenturyMarkedFrom2021(date, now);
  }

  /** And every one from the year 5000 on counts as expired from 2000 to 2049. */
  lemma LateYearsMarked(date: string, now: string)
    requires IsGeneralizedTime(date) && date[0] >= '5'
    requires IsUtcTime(now) && 20000000000000 <= UtcInstant(now)
    ensures Expired(date, now)
  {
    assert date[..12] == date[..14][..12];
    Leading(date[..12]);
    BelowTenToThe12(now[..12]);
    GeneralizedExpired(date, now);
  }

  /** How far off it can be: the end of 9999, and a date in 2030 that loads as a GeneralizedTime. */
  lemma MarkedTooEarly(now: string)
    requires IsUtcTime(now) && 20000000000000 <= UtcInstant(now)
    ensures IsGeneralizedTime("99991231235959Z") && Expired("99991231235959Z", now)
    ensures IsGeneralizedTime("20300101000000Z")
    ensures 20210000000000 <= UtcInstant(now) ==> Expired("20300101000000Z", now)
    ensures UtcInstant(now) < GeneralizedInstant("99991231235959Z")
  {
    var late, soon := "99991231235959Z", "20300101000000Z";
    AllDigits(late);
    AllDigits(soon);
    LateYearsMarked(late, now);
    if 20210000000000 <= UtcInstant(now) {
      CenturyMarkedFrom2021(soon, now);
    }
    assert late[..14][..12] == late[..12];
    Leading(late[..12]);
    NumberSplit(late[..14], 12);
    assert Pow10(2) == 100;
    BelowTenToThe12(now[..12]);
  }

  lemma AllDigits(date: string)
    requires |date| == 15 && date[14] == 'Z' && forall i :: 0 <= i < 14 ==> '0' <= date[i] <= '9'
    ensures IsGeneralizedTime(date)
  {
  }
}
