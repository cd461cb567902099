/** A comma-separated list of protocol names as the length-prefixed list of section 3.1 of RFC 7301. Bytes are
    characters below 256. */
module Protos {
  import opened CStrings

  // ----- the list the text means -----

  function CommaAt(s: string, p: nat): (c: nat)
    requires p <= |s|
    ensures p <= c <= |s|
    decreases |s| - p
  {
    if p == |s| || s[p] == ',' then p else CommaAt(s, p + 1)
  }

  /** The piece at p, and what follows it. */
  function PiecesFrom(s: string, p: nat): seq<string>
    requires p <= |s|
    decreases |s| - p, 1
  {
    [s[p..CommaAt(s, p)]] + Rest(s, p)
  }

  function Rest(s: string, p: nat): seq<string>
    requires p <= |s|
    decreases |s| - p, 0
  {
    var c := CommaAt(s, p);
    if c < |s| then PiecesFrom(s, c + 1) else []
  }

  /** What is between the commas; a text without one is a single piece, even when it is empty. */
  function Pieces(s: string): seq<string> {
    PiecesFrom(s, 0)
  }

  // ----- the wire format -----

  predicate Short(ps: seq<string>) {
    forall i :: 0 <= i < |ps| ==> |ps[i]| <= 255
  }

  /** Each piece after its length, which one byte holds when the piece is short. */
  function Encode(ps: seq<string>): string {
    if ps == [] then []
    else [(|ps[0]| % 256) as char] + ps[0] + Encode(ps[1..])
  }

  function Decode(s: string): Option<seq<string>> {
    if s == [] then Some([])
    else
      var n := s[0] as int + 1;
      if n > |s| then None
      else
        var rest := Decode(s[n..]);
        if rest.None? then None else Some([s[1..n]] + rest.value)
  }

  /** Reading the wire format gives back the list that was written. */
  lemma {:induction false} DecodeUndoesEncode(ps: seq<string>)
    requires Short(ps)
    ensures Decode(Encode(ps)) == Some(ps)
  {
    if ps != [] {
      DecodeUndoesEncode(ps[1..]);
      var s, n := Encode(ps), |ps[0]|;
      assert s[0] as int == n && s[1..n + 1] == ps[0] && s[n + 1..] == Encode(ps[1..]);
      assert ps == [ps[0]] + ps[1..];
    }
  }

  // ----- the in-place encoder -----

  /** What the encoder accepts. */
  predicate Fits(s: string) {
    |s| < 65535 && Short(Pieces(s))
  }

  /** The k-th byte of the output: a length where a piece begins, and otherwise the byte of the text before k. */
  function WireByte(s: string, k: nat): char
    requires k <= |s|
  {
    if k == 0 || s[k - 1] == ',' then ((CommaAt(s, k) - k) % 256) as char else s[k - 1]
  }

  predicate ShortFrom(s: string, p: nat)
    requires p <= |s|
    decreases |s| - p
  {
    var c := CommaAt(s, p);
    c - p <= 255 && (c < |s| ==> ShortFrom(s, c + 1))
  }

  lemma ShortSplit(p: string, rest: seq<string>)
    ensures Short([p] + rest) <==> |p| <= 255 && Short(rest)
  {
    var ps := [p] + rest;
    assert ps[0] == p && forall k :: 0 <= k < |rest| ==> rest[k] == ps[k + 1];
  }

  lemma {:induction false} ShortIsShort(s: string, p: nat)
    requires p <= |s|
    ensures ShortFrom(s, p) <==> Short(PiecesFrom(s, p))
    decreases |s| - p
  {
    var c := CommaAt(s, p);
    ShortSplit(s[p..c], Rest(s, p));
    if c < |s| {
      ShortIsShort(s, c + 1);
    }
  }

  lemma {:induction false} CommaIsNext(s: string, p: nat)
    requires p <= |s|
    ensures var c := CommaAt(s, p); (c < |s| ==> s[c] == ',') && forall k :: p <= k < c ==> s[k] != ','
    decreases |s| - p
  {
    if p < |s| && s[p] != ',' { CommaIsNext(s, p + 1); }
  }

  lemma {:induction false} CommaIsAt(s: string, start: nat, i: nat)
    requires start <= i <= |s| && (forall k :: start <= k < i ==> s[k] != ',') && (i == |s| || s[i] == ',')
    ensures CommaAt(s, start) == i
    decreases i - start
  {
    if start < i { CommaIsAt(s, start + 1, i); }
  }

  lemma EncodePiece(s: string, p: nat)
    requires p <= |s| && CommaAt(s, p) - p <= 255
    ensures var c := CommaAt(s, p);
            Encode(PiecesFrom(s, p)) == [(c - p) as char] + s[p..c] + Encode(Rest(s, p))
  {
    assert PiecesFrom(s, p)[1..] == Rest(s, p);
  }

  lemma {:induction false} EncodeLength(s: string, p: nat)
    requires p <= |s| && ShortFrom(s, p)
    ensures |Encode(PiecesFrom(s, p))| == |s| - p + 1
    decreases |s| - p
  {
    EncodePiece(s, p);
    if CommaAt(s, p) < |s| { EncodeLength(s, CommaAt(s, p) + 1); }
  }

  lemma ByteOf(w: string, n: char, piece: string, rest: string, j: nat)
    requires w == [n] + piece + rest && j < |w|
    ensures w[j] == if j == 0 then n else if j <= |piece| then piece[j - 1] else rest[j - 1 - |piece|]
  {
  }

  lemma ByteOfPiece(s: string, p: nat, k: nat)
    requires p <= k <= |s| && k <= CommaAt(s, p) && CommaAt(s, p) - p <= 255 && (p == 0 || s[p - 1] == ',')
    requires k - p < |Encode(PiecesFrom(s, p))|
    ensures Encode(PiecesFrom(s, p))[k - p] == WireByte(s, k)
  {
    var c := CommaAt(s, p);
    EncodePiece(s, p);
    ByteOf(Encode(PiecesFrom(s, p)), (c - p) as char, s[p..c], Encode(Rest(s, p)), k - p);
    CommaIsNext(s, p);
  }

  lemma ByteOfRest(s: string, p: nat, k: nat)
    requires p <= |s| && CommaAt(s, p) < k && CommaAt(s, p) - p <= 255 && k - p < |Encode(PiecesFrom(s, p))|
    ensures k - CommaAt(s, p) - 1 < |Encode(Rest(s, p))|
    ensures Encode(PiecesFrom(s, p))[k - p] == Encode(Rest(s, p))[k - CommaAt(s, p) - 1]
  {
    var c := CommaAt(s, p);
    EncodePiece(s, p);
    ByteOf(Encode(PiecesFrom(s, p)), (c - p) as char, s[p..c], Encode(Rest(s, p)), k - p);
  }

  /** The output, byte by byte, is the wire format of the pieces. */
  lemma {:induction false} EncodeByte(s: string, p: nat, k: nat)
    requires p <= k <= |s| && ShortFrom(s, p) && (p == 0 || s[p - 1] == ',')
    requires |Encode(PiecesFrom(s, p))| == |s| - p + 1
    ensures Encode(PiecesFrom(s, p))[k - p] == WireByte(s, k)
    decreases |s| - p
  {
    var c := CommaAt(s, p);
    if k <= c {
      ByteOfPiece(s, p, k);
    } else {
      ByteOfRest(s, p, k);
      EncodeLength(s, c + 1);
      CommaIsNext(s, p);
      EncodeByte(s, c + 1, k);
    }
  }

  /** out after i bytes of s: complete but for the length byte at start, where the current piece begins. */
  ghost predicate Partly(out: string, s: string, start: nat, i: nat) {
    && |out| == |s| + 1 && start <= i <= |out| && (i == |out| ==> start == i)
    && (start == 0 || start == |out| || s[start - 1] == ',')
    && (forall k :: start <= k < i ==> s[k] != ',')
    && (forall k :: 0 <= k <= i && k != start && k < |out| ==> out[k] == WireByte(s, k))
  }

  lemma Copied(out: string, s: string, start: nat, i: nat)
    requires Partly(out, s, start, i) && i < |s| && s[i] != ','
    ensures Partly(out[i + 1 := s[i]], s, start, i + 1)
  {
  }

  lemma Closed(out: string, s: string, start: nat, i: nat)
    requires Partly(out, s, start, i) && i <= |s| && CommaAt(s, start) == i && i - start <= 255
    requires i == |s| || s[i] == ','
    ensures Partly(out[start := (i - start) as char], s, i + 1, i + 1)
  {
  }

  /** The bytes written so far have been written once: all up to i but the hole. */
  ghost predicate Written(writes: seq<nat>, start: nat, i: nat) {
    forall k :: 0 <= k < |writes| ==> writes[k] == if k == start || k > i then 0 else 1
  }

  /** writes counts how often each byte of the output was written. */
  method NextProtosParse(s: string) returns (ok: bool, wire: string, ghost writes: seq<nat>)
    ensures ok <==> Fits(s)
    ensures ok ==> wire == Encode(Pieces(s)) && |wire| == |s| + 1
    ensures ok ==> |writes| == |s| + 1 && forall k :: 0 <= k < |writes| ==> writes[k] == 1
  {
    var len := |s|;
    if len >= 65535 {
      return false, "", [];
    }
    var out := new char[len + 1];
    ok, writes := Fill(s, out);
    wire := out[..];
    ShortIsShort(s, 0);
    if ok {
      EncodeLength(s, 0);
      forall k | 0 <= k < |wire| ensures wire[k] == Encode(Pieces(s))[k] {
        EncodeByte(s, 0, k);
      }
    }
  }

  /** The loop over the text. */
  method Fill(s: string, out: array<char>) returns (ok: bool, ghost writes: seq<nat>)
    requires out.Length == |s| + 1
    modifies out
    ensures ok <==> ShortFrom(s, 0)
    ensures ok ==> forall k :: 0 <= k < out.Length ==> out[k] == WireByte(s, k)
    ensures ok ==> |writes| == |s| + 1 && forall k :: 0 <= k < |writes| ==> writes[k] == 1
  {
    var len := |s|;
    var start, i := 0, 0;
    writes := seq(len + 1, _ => 0);
    while i <= len
      invariant i <= len + 1 && Partly(out[..], s, start, i)
      invariant ShortFrom(s, 0) <==> (start > len || ShortFrom(s, start))
      invariant |writes| == len + 1 && Written(writes, start, i)
    {
      ghost var before := out[..];
      if i == len || s[i] == ',' {
        CommaIsAt(s, start, i);
        if i - start > 255 {
          return false, writes;
        }
        Closed(before, s, start, i);
        out[start] := (i - start) as char;
        assert out[..] == before[start := (i - start) as char];
        writes := writes[start := writes[start] + 1];
        start := i + 1;
      } else {
        Copied(before, s, start, i);
        out[i + 1] := s[i];
        assert out[..] == before[i + 1 := s[i]];
        writes := writes[i + 1 := writes[i + 1] + 1];
      }
      i := i + 1;
    }
    ghost var bytes := out[..];
    assert forall k :: 0 <= k < |bytes| ==> out[k] == bytes[k];
    ok := true;
  }

  // ----- the text of a list -----

  function Join(ps: seq<string>): string
    requires ps != []
  {
    if |ps| == 1 then ps[0] else ps[0] + "," + Join(ps[1..])
  }

  ghost predicate EndsWith(s: string, p: nat, t: string) {
    |s| == p + |t| && forall k :: 0 <= k < |t| ==> s[p + k] == t[k]
  }

  lemma FirstPiece(s: string, p: nat, piece: string, rest: string)
    requires ',' !in piece && (rest == "" || rest[0] == ',') && EndsWith(s, p, piece + rest)
    ensures CommaAt(s, p) == p + |piece| && s[p..p + |piece|] == piece && EndsWith(s, p + |piece|, rest)
  {
    var t, c := piece + rest, p + |piece|;
    forall k | p <= k < c ensures s[k] != ',' { assert s[p + (k - p)] == t[k - p] == piece[k - p]; }
    forall k | 0 <= k < |rest| ensures s[c + k] == rest[k] { assert s[p + (|piece| + k)] == t[|piece| + k]; }
    assert rest != "" ==> s[c + 0] == ',';
    CommaIsAt(s, p, c);
    forall k | 0 <= k < |piece| ensures s[p + k] == piece[k] { assert s[p + k] == t[k]; }
  }

  /** Names without commas, joined by commas, are the pieces again. */
  lemma {:induction false} PiecesOfJoin(s: string, p: nat, ps: seq<string>)
    requires ps != [] && (forall i :: 0 <= i < |ps| ==> ',' !in ps[i]) && EndsWith(s, p, Join(ps))
    ensures PiecesFrom(s, p) == ps
    decreases |ps|
  {
    if |ps| == 1 {
      assert Join(ps) == ps[0] + "";
      FirstPiece(s, p, ps[0], "");
    } else {
      var rest := "," + Join(ps[1..]);
      assert Join(ps) == ps[0] + rest;
      FirstPiece(s, p, ps[0], rest);
      var c := p + |ps[0]|;
      forall k | 0 <= k < |Join(ps[1..])| ensures s[c + 1 + k] == Join(ps[1..])[k] {
        assert s[c + (1 + k)] == rest[1 + k];
      }
      PiecesOfJoin(s, c + 1, ps[1..]);
      assert ps == [ps[0]] + ps[1..];
    }
  }

  /** What a list of protocol names may hold: every name is from 1 to 255 bytes long. */
  predicate ProtocolNames(ps: seq<string>) {
    forall i :: 0 <= i < |ps| ==> 1 <= |ps[i]| <= 255
  }

  /** A piece that begins at k, when it is not empty. */
  predicate Begun(s: string, k: nat) {
    k < |s| && s[k] != ','
  }

  lemma NamesSplit(p: string, rest: seq<string>)
    ensures ProtocolNames([p] + rest) <==> 1 <= |p| <= 255 && ProtocolNames(rest)
  {
    var ps := [p] + rest;
    assert ps[0] == p && forall k :: 0 <= k < |rest| ==> rest[k] == ps[k + 1];
  }

  lemma {:induction false} NoEmptyPiece(s: string, p: nat)
    requires p <= |s| && ShortFrom(s, p)
    ensures ProtocolNames(PiecesFrom(s, p))
            <==> Begun(s, p) && forall k :: p < k <= |s| && s[k - 1] == ',' ==> Begun(s, k)
    decreases |s| - p
  {
    var c := CommaAt(s, p);
    CommaIsNext(s, p);
    NamesSplit(s[p..c], Rest(s, p));
    if c < |s| {
      NoEmptyPiece(s, c + 1);
      if Begun(s, p) && forall k :: p < k <= |s| && s[k - 1] == ',' ==> Begun(s, k) {
        assert Begun(s, c + 1);
      }
    }
  }

  /** The accepted texts whose output the standard allows: those where no piece is empty. */
  lemma StandardIff(s: string)
    requires Fits(s)
    ensures Decode(Encode(Pieces(s))).Some?
    ensures ProtocolNames(Decode(Encode(Pieces(s))).value)
            <==> Begun(s, 0) && forall k :: 0 < k <= |s| && s[k - 1] == ',' ==> Begun(s, k)
  {
    DecodeUndoesEncode(Pieces(s));
    ShortIsShort(s, 0);
    NoEmptyPiece(s, 0);
  }
}
