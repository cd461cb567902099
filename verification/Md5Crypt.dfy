/** The output stage of md5crypt: the digest permuted, and spelled in the 64 characters of crypt(3). */
module Md5Crypt {

  // ----- the permutation -----

  /** The byte of the digest that goes to a place: a stride of 6 modulo 17, but for the last two. */
  function Source(dest: nat): (source: nat)
    requires dest < 16
    ensures source < 16
  {
    if dest == 14 then 5 else if dest == 15 then 11 else 6 * dest % 17
  }

  /** The place a byte of the digest goes to: 3 is the inverse of 6 modulo 17. */
  function Dest(source: nat): (dest: nat)
    requires source < 16
    ensures dest < 16
  {
    if source == 5 then 14 else if source == 11 then 15 else 3 * source % 17
  }

  lemma Mod17(t: int, k: nat)
    requires k < 17
    ensures (17 * t + k) % 17 == k
  {
  }

  lemma SourceDest(k: nat)
    requires k < 16
    ensures Source(Dest(k)) == k && Dest(Source(k)) == k
  {
    var d, s := 3 * k % 17, 6 * k % 17;
    Mod17(k - 6 * (3 * k / 17), k);
    Mod17(k - 3 * (6 * k / 17), k);
    assert 6 * d == 17 * (k - 6 * (3 * k / 17)) + k;
    assert 3 * s == 17 * (k - 3 * (6 * k / 17)) + k;
  }

  function Permuted(buf: seq<bv8>): (p: seq<bv8>)
    requires |buf| == 16
    ensures |p| == 16 && forall d :: 0 <= d < 16 ==> p[d] == buf[Source(d)]
  {
    seq(16, d requires 0 <= d < 16 => buf[Source(d)])
  }

  // ----- six bits a character -----

  /** cov_2char: '.' and '/' run on into the digits, then come the capitals and the small letters. */
  function CovChar(x: bv8): bv8
    requires x < 64
  {
    if x < 12 then x + 0x2E else if x < 38 then x + 0x35 else x + 0x3B
  }

  function CovValue(c: bv8): (x: bv8)
  {
    if c < 0x41 then c - 0x2E else if c < 0x61 then c - 0x35 else c - 0x3B
  }

  lemma CovValueOfChar(x: bv8)
    requires x < 64
    ensures CovValue(CovChar(x)) == x
  {
  }

  /** The r-th six bits of three bytes. */
  function SixOfThree(a: bv8, b: bv8, c: bv8, r: nat): (x: bv8)
    requires r < 4
    ensures x < 64
  {
    if r == 0 then c & 0x3F
    else if r == 1 then ((b & 0xF) << 2) | (c >> 6)
    else if r == 2 then ((a & 3) << 4) | (b >> 4)
    else a >> 2
  }

  /** The r-th six bits of the g-th three bytes of the permuted digest; the sixteenth byte is alone. */
  function Six(p: seq<bv8>, g: nat, r: nat): (x: bv8)
    requires |p| == 16 && g < 6 && r < 4
    ensures x < 64
  {
    if g == 5 then (if r == 0 then p[15] & 0x3F else p[15] >> 6)
    else SixOfThree(p[3 * g], p[3 * g + 1], p[3 * g + 2], r)
  }

  /** The 22 characters of a digest. */
  function Encode(buf: seq<bv8>): (s: seq<bv8>)
    requires |buf| == 16
    ensures |s| == 22 && forall j :: 0 <= j < 22 ==> s[j] == CovChar(Six(Permuted(buf), j / 4, j % 4))
  {
    seq(22, j requires 0 <= j < 22 => CovChar(Six(Permuted(buf), j / 4, j % 4)))
  }

  // ----- and back -----

  /** The r-th byte of the g-th group of four characters. */
  function Eight(s: seq<bv8>, g: nat, r: nat): bv8
    requires |s| == 22 && g < 6 && r < 3
  {
    if g == 5 then CovValue(s[20]) | (CovValue(s[21]) << 6)
    else if r == 0 then (CovValue(s[4 * g + 2]) >> 4) | (CovValue(s[4 * g + 3]) << 2)
    else if r == 1 then (CovValue(s[4 * g + 1]) >> 2) | (CovValue(s[4 * g + 2]) << 4)
    else CovValue(s[4 * g]) | (CovValue(s[4 * g + 1]) << 6)
  }

  function Decode(s: seq<bv8>): (buf: seq<bv8>)
    requires |s| == 22
    ensures |buf| == 16 && forall k :: 0 <= k < 16 ==> buf[k] == Eight(s, Dest(k) / 3, Dest(k) % 3)
  {
    seq(16, k requires 0 <= k < 16 => Eight(s, Dest(k) / 3, Dest(k) % 3))
  }

  lemma ThreeBytes(a: bv8, b: bv8, c: bv8)
    ensures var x0, x1, x2, x3 := c & 0x3F, ((b & 0xF) << 2) | (c >> 6), ((a & 3) << 4) | (b >> 4), a >> 2;
            (x2 >> 4) | (x3 << 2) == a && (x1 >> 2) | (x2 << 4) == b && x0 | (x1 << 6) == c
  {
  }

  lemma LastByte(a: bv8)
    ensures (a & 0x3F) | ((a >> 6) << 6) == a
  {
  }

  lemma ValueAt(buf: seq<bv8>, g: nat, r: nat)
    requires |buf| == 16 && g < 6 && r < 4 && (g == 5 ==> r < 2)
    ensures CovValue(Encode(buf)[4 * g + r]) == Six(Permuted(buf), g, r)
  {
    assert (4 * g + r) / 4 == g && (4 * g + r) % 4 == r;
    CovValueOfChar(Six(Permuted(buf), g, r));
  }

  lemma GroupOfThree(s: seq<bv8>, p: seq<bv8>, g: nat, r: nat)
    requires |s| == 22 && |p| == 16 && g < 5 && r < 3
    requires forall q :: 0 <= q < 4 ==> CovValue(s[4 * g + q]) == Six(p, g, q)
    ensures Eight(s, g, r) == p[3 * g + r]
  {
    var a, b, c := p[3 * g], p[3 * g + 1], p[3 * g + 2];
    ThreeBytes(a, b, c);
    assert CovValue(s[4 * g + 0]) == Six(p, g, 0) && CovValue(s[4 * g + 1]) == Six(p, g, 1);
    assert CovValue(s[4 * g + 2]) == Six(p, g, 2) && CovValue(s[4 * g + 3]) == Six(p, g, 3);
  }

  /** Every digest can be read back from its 22 characters. */
  lemma DecodeUndoesEncode(buf: seq<bv8>)
    requires |buf| == 16
    ensures Decode(Encode(buf)) == buf
  {
    var p, s := Permuted(buf), Encode(buf);
    forall k | 0 <= k < 16 ensures Decode(s)[k] == buf[k] {
      var d := Dest(k);
      SourceDest(k);
      if d < 15 {
        forall q | 0 <= q < 4 ensures CovValue(s[4 * (d / 3) + q]) == Six(p, d / 3, q) {
          ValueAt(buf, d / 3, q);
        }
        GroupOfThree(s, p, d / 3, d % 3);
        assert 3 * (d / 3) + d % 3 == d;
      } else {
        ValueAt(buf, 5, 0);
        ValueAt(buf, 5, 1);
        LastByte(p[15]);
      }
    }
  }

  // ----- the same as crypt(3) says it -----

  const DIGITS := "./0123456789"
  const CAPITALS := "ABCDEFGHIJKLMNOPQRSTUVWXYZ"
  const SMALL := "abcdefghijklmnopqrstuvwxyz"

  /** The 64 characters of crypt(3), in order. */
  function Itoa64(x: bv32): (c: char)
    requires x < 64
  {
    if x < 12 then DIGITS[x as int] else if x < 38 then CAPITALS[x as int - 12] else SMALL[x as int - 38]
  }

  lemma DigitsInOrder()
    ensures forall i :: 0 <= i < 12 ==> DIGITS[i] == '.' + i as char
  {
    assert DIGITS[0] == '.' && DIGITS[1] == '/' && DIGITS[2] == '0';
    assert DIGITS[3] == '1' && DIGITS[4] == '2' && DIGITS[5] == '3';
    assert DIGITS[6] == '4' && DIGITS[7] == '5' && DIGITS[8] == '6';
    assert DIGITS[9] == '7' && DIGITS[10] == '8' && DIGITS[11] == '9';
  }

  lemma CapitalsInOrder()
    ensures forall i :: 0 <= i < 26 ==> CAPITALS[i] == 'A' + i as char
  {
    assert CAPITALS[0] == 'A' && CAPITALS[1] == 'B' && CAPITALS[2] == 'C';
    assert CAPITALS[3] == 'D' && CAPITALS[4] == 'E' && CAPITALS[5] == 'F';
    assert CAPITALS[6] == 'G' && CAPITALS[7] == 'H' && CAPITALS[8] == 'I';
    assert CAPITALS[9] == 'J' && CAPITALS[10] == 'K' && CAPITALS[11] == 'L';
    assert CAPITALS[12] == 'M' && CAPITALS[13] == 'N' && CAPITALS[14] == 'O';
    assert CAPITALS[15] == 'P' && CAPITALS[16] == 'Q' && CAPITALS[17] == 'R';
    assert CAPITALS[18] == 'S' && CAPITALS[19] == 'T' && CAPITALS[20] == 'U';
    assert CAPITALS[21] == 'V' && CAPITALS[22] == 'W' && CAPITALS[23] == 'X';
    assert CAPITALS[24] == 'Y' && CAPITALS[25] == 'Z';
  }

  lemma SmallInOrder()
    ensures forall i :: 0 <= i < 26 ==> SMALL[i] == 'a' + i as char
  {
    assert SMALL[0] == 'a' && SMALL[1] == 'b' && SMALL[2] == 'c';
    assert SMALL[3] == 'd' && SMALL[4] == 'e' && SMALL[5] == 'f';
    assert SMALL[6] == 'g' && SMALL[7] == 'h' && SMALL[8] == 'i';
    assert SMALL[9] == 'j' && SMALL[10] == 'k' && SMALL[11] == 'l';
    assert SMALL[12] == 'm' && SMALL[13] == 'n' && SMALL[14] == 'o';
    assert SMALL[15] == 'p' && SMALL[16] == 'q' && SMALL[17] == 'r';
    assert SMALL[18] == 's' && SMALL[19] == 't' && SMALL[20] == 'u';
    assert SMALL[21] == 'v' && SMALL[22] == 'w' && SMALL[23] == 'x';
    assert SMALL[24] == 'y' && SMALL[25] == 'z';
  }

  lemma CovIsItoa(x: bv8)
    requires x < 64
    ensures CovChar(x) as int == Itoa64(x as bv32) as int
  {
    DigitsInOrder();
    CapitalsInOrder();
    SmallInOrder();
  }

  /** The three bytes of the digest behind each group of four characters. */
  function Triple(g: nat): (nat, nat, nat)
    requires g < 5
  {
    if g == 0 then (0, 6, 12)
    else if g == 1 then (1, 7, 13)
    else if g == 2 then (2, 8, 14)
    else if g == 3 then (3, 9, 15)
    else (4, 10, 5)
  }

  /** Three bytes as one number. */
  function Bits24(a: bv8, b: bv8, c: bv8): bv32 {
    ((a as bv32) << 16) | ((b as bv32) << 8) | (c as bv32)
  }

  /** The r-th six bits of a number, from below. */
  function SixOf(v: bv32, r: nat): (x: bv32)
    requires r < 4
    ensures x < 64
  {
    if r == 0 then v & 0x3F else if r == 1 then (v >> 6) & 0x3F else if r == 2 then (v >> 12) & 0x3F
    else (v >> 18) & 0x3F
  }

  lemma FourSixes(a: bv8, b: bv8, c: bv8, v: bv32)
    requires v == ((a as bv32) << 16) | ((b as bv32) << 8) | (c as bv32)
    ensures (c & 0x3F) as bv32 == v & 0x3F
    ensures (((b & 0xF) << 2) | (c >> 6)) as bv32 == (v >> 6) & 0x3F
    ensures (((a & 3) << 4) | (b >> 4)) as bv32 == (v >> 12) & 0x3F
    ensures (a >> 2) as bv32 == (v >> 18) & 0x3F
  {
  }

  /** As both functions have it, the four cases by name. */
  lemma SixCases(a: bv8, b: bv8, c: bv8, v: bv32, r: nat)
    requires r < 4
    requires (c & 0x3F) as bv32 == v & 0x3F
    requires (((b & 0xF) << 2) | (c >> 6)) as bv32 == (v >> 6) & 0x3F
    requires (((a & 3) << 4) | (b >> 4)) as bv32 == (v >> 12) & 0x3F
    requires (a >> 2) as bv32 == (v >> 18) & 0x3F
    ensures SixOfThree(a, b, c, r) as bv32 == SixOf(v, r)
  {
    if r == 0 {
    } else if r == 1 {
    } else if r == 2 {
    } else {
    }
  }

  lemma SixBits(a: bv8, b: bv8, c: bv8, v: bv32, r: nat)
    requires r < 4 && v == Bits24(a, b, c)
    ensures SixOfThree(a, b, c, r) as bv32 == SixOf(v, r)
  {
    FourSixes(a, b, c, v);
    SixCases(a, b, c, v, r);
  }

  lemma LastBits(c: bv8)
    ensures (c & 0x3F) as bv32 == SixOf(Bits24(0, 0, c), 0)
    ensures (c >> 6) as bv32 == SixOf(Bits24(0, 0, c), 1)
  {
  }

  lemma CharIs(x: bv8, y: bv32)
    requires x < 64 && x as bv32 == y
    ensures y < 64 && CovChar(x) as int == Itoa64(y) as int
  {
    CovIsItoa(x);
  }

  lemma SourceTriple(g: nat)
    requires g < 5
    ensures (Source(3 * g), Source(3 * g + 1), Source(3 * g + 2)) == Triple(g)
    ensures Triple(g).0 < 16 && Triple(g).1 < 16 && Triple(g).2 < 16
  {
  }

  /** The text is the one of crypt(3): each three bytes of the digest, in its order, are a number of 24 bits, written
      in four characters from its low end. */
  lemma EncodeIsCrypt(buf: seq<bv8>, g: nat, r: nat)
    requires |buf| == 16 && g < 5 && r < 4
    ensures Triple(g).0 < 16 && Triple(g).1 < 16 && Triple(g).2 < 16
    ensures Encode(buf)[4 * g + r] as int
            == Itoa64(SixOf(Bits24(buf[Triple(g).0], buf[Triple(g).1], buf[Triple(g).2]), r)) as int
  {
    SourceTriple(g);
    CharAt(buf, g, r);
    var p := Permuted(buf);
    var a, b, c := p[3 * g], p[3 * g + 1], p[3 * g + 2];
    assert a == buf[Triple(g).0] && b == buf[Triple(g).1] && c == buf[Triple(g).2];
    SixBits(a, b, c, Bits24(a, b, c), r);
    CharIs(SixOfThree(a, b, c, r), SixOf(Bits24(a, b, c), r));
  }

  /** Byte 11 comes last, in two characters. */
  lemma EncodeTail(buf: seq<bv8>)
    requires |buf| == 16
    ensures Encode(buf)[20] as int == Itoa64(SixOf(Bits24(0, 0, buf[11]), 0)) as int
    ensures Encode(buf)[21] as int == Itoa64(SixOf(Bits24(0, 0, buf[11]), 1)) as int
  {
    CharAt(buf, 5, 0);
    CharAt(buf, 5, 1);
    var c := Permuted(buf)[15];
    assert c == buf[11];
    LastBits(c);
    CharIs(c & 0x3F, SixOf(Bits24(0, 0, c), 0));
    CharIs(c >> 6, SixOf(Bits24(0, 0, c), 1));
  }

  // ----- the loops -----

  method Permute(buf: array<bv8>) returns (bufPerm: array<bv8>)
    requires buf.Length == 16
    ensures fresh(bufPerm) && bufPerm[..] == Permuted(buf[..])
  {
    bufPerm := new bv8[16];
    var dest, source := 0, 0;
    while dest < 14
      invariant dest <= 14 && source == 6 * dest % 17
      invariant forall d :: 0 <= d < dest ==> bufPerm[d] == buf[Source(d)]
    {
      assert source == Source(dest);
      bufPerm[dest] := buf[source];
      dest, source := dest + 1, (source + 6) % 17;
    }
    bufPerm[14] := buf[5];
    bufPerm[15] := buf[11];
  }

  /** Four characters for three bytes, at an offset of the output buffer. */
  method EmitGroup(outBuf: array<bv8>, output: nat, bufPerm: array<bv8>, i: nat, ghost g: nat)
    requires bufPerm.Length == 16 && g < 5 && i == 3 * g && output + 4 <= outBuf.Length && outBuf != bufPerm
    modifies outBuf
    ensures forall r :: 0 <= r < 4 ==> outBuf[output + r] == CovChar(Six(bufPerm[..], g, r))
    ensures forall k :: 0 <= k < output ==> outBuf[k] == old(outBuf[k])
  {
    outBuf[output] := CovChar(bufPerm[i + 2] & 0x3F);
    outBuf[output + 1] := CovChar(((bufPerm[i + 1] & 0xF) << 2) | (bufPerm[i + 2] >> 6));
    outBuf[output + 2] := CovChar(((bufPerm[i] & 3) << 4) | (bufPerm[i + 1] >> 4));
    outBuf[output + 3] := CovChar(bufPerm[i] >> 2);
  }

  lemma CharAt(buf: seq<bv8>, g: nat, r: nat)
    requires |buf| == 16 && g < 6 && r < 4 && (g == 5 ==> r < 2)
    ensures Encode(buf)[4 * g + r] == CovChar(Six(Permuted(buf), g, r))
  {
    assert (4 * g + r) / 4 == g && (4 * g + r) % 4 == r;
  }

  /** The last two characters and the NUL. */
  method EmitLast(outBuf: array<bv8>, output: nat, bufPerm: array<bv8>)
    requires bufPerm.Length == 16 && output + 3 <= outBuf.Length && outBuf != bufPerm
    modifies outBuf
    ensures forall r :: 0 <= r < 2 ==> outBuf[output + r] == CovChar(Six(bufPerm[..], 5, r))
    ensures outBuf[output + 2] == 0
    ensures forall k :: 0 <= k < output ==> outBuf[k] == old(outBuf[k])
  {
    outBuf[output] := CovChar(bufPerm[15] & 0x3F);
    outBuf[output + 1] := CovChar(bufPerm[15] >> 6);
    outBuf[output + 2] := 0;
  }

  /** The first n characters of the digest are in place. */
  ghost predicate Emitted(out: seq<bv8>, at: nat, buf: seq<bv8>, n: nat)
    requires |buf| == 16
  {
    n <= 22 && at + 1 + n <= |out| && forall j :: 0 <= j < n ==> out[at + 1 + j] == Encode(buf)[j]
  }

  lemma GroupEmitted(out: seq<bv8>, buf: seq<bv8>, g: nat, m: nat, o: nat)
    requires |buf| == 16 && g < 6 && m == (if g == 5 then 2 else 4) && o + m <= |out|
    requires forall r :: 0 <= r < m ==> out[o + r] == CovChar(Six(Permuted(buf), g, r))
    ensures out[o..o + m] == Encode(buf)[4 * g..4 * g + m]
  {
    var a, b := out[o..o + m], Encode(buf)[4 * g..4 * g + m];
    forall r | 0 <= r < m ensures a[r] == b[r] {
      CharAt(buf, g, r);
      assert out[o + r] == CovChar(Six(Permuted(buf), g, r));
    }
  }

  lemma MoreEmitted(out0: seq<bv8>, out: seq<bv8>, at: nat, buf: seq<bv8>, g: nat, m: nat, o: nat)
    requires |buf| == 16 && g < 6 && m == (if g == 5 then 2 else 4) && Emitted(out0, at, buf, 4 * g)
    requires |out| == |out0| && o == at + 1 + 4 * g && o + m <= |out|
    requires forall k :: 0 <= k < o ==> out[k] == out0[k]
    requires out[o..o + m] == Encode(buf)[4 * g..4 * g + m]
    ensures Emitted(out, at, buf, 4 * g + m)
  {
    forall j | 0 <= j < 4 * g + m ensures out[at + 1 + j] == Encode(buf)[j] {
      if j >= 4 * g {
        assert out[o..o + m][j - 4 * g] == Encode(buf)[4 * g..4 * g + m][j - 4 * g];
      }
    }
  }

  /** The part of md5crypt that turns the digest into text, at an offset of the output buffer. */
  method Transform(buf: array<bv8>, outBuf: array<bv8>, at: nat)
    requires buf.Length == 16 && at + 24 <= outBuf.Length && buf != outBuf
    modifies outBuf
    ensures forall k :: 0 <= k < at ==> outBuf[k] == old(outBuf[k])
    ensures outBuf[at] == 0x24 && outBuf[at + 23] == 0
    ensures outBuf[at + 1..at + 23] == Encode(buf[..])
  {
    var bufPerm := Permute(buf);
    ghost var digest := buf[..];
    outBuf[at] := 0x24;
    var output := at + 1;
    var i := 0;
    ghost var g, before := 0, outBuf[..];
    while i < 15
      invariant g <= 5 && i == 3 * g && output == at + 1 + 4 * g
      invariant forall k :: 0 <= k < at ==> outBuf[k] == old(outBuf[k])
      invariant outBuf[at] == 0x24 && bufPerm[..] == Permuted(digest)
      invariant Emitted(outBuf[..], at, digest, 4 * g)
    {
      before := outBuf[..];
      EmitGroup(outBuf, output, bufPerm, i, g);
      assert bufPerm[..] == Permuted(digest);
      GroupEmitted(outBuf[..], digest, g, 4, output);
      MoreEmitted(before, outBuf[..], at, digest, g, 4, output);
      output, i, g := output + 4, i + 3, g + 1;
    }
    before := outBuf[..];
    EmitLast(outBuf, output, bufPerm);
    assert bufPerm[..] == Permuted(digest);
    GroupEmitted(outBuf[..], digest, 5, 2, output);
    MoreEmitted(before, outBuf[..], at, digest, 5, 2, output);
  }
}
