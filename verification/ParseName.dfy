/** Distinguished names given on the command line as /type0=value0/type1=value1+type2=value2. */
module DistinguishedNames {
  import opened CStrings

  /** One part of the text; joined says that a '+' came before it. */
  datatype Piece = Piece(kind: string, value: string, joined: bool)

  /** An entry of the name; entries with the same part number form one multi-valued part. */
  datatype Entry = Entry(nid: int, value: string, part: nat)

  /** The object table, and whether the library takes a value for a type. */
  datatype Library = Library(nidOf: string -> Option<int>, accepts: (int, string) -> bool)

  // ----- the parser as a function of the text and a position -----

  predicate Separates(c: char, multi: bool) {
    c == '/' || (multi && c == '+')
  }

  /** Position of the next '=', or the end. */
  function EqualsAt(s: string, p: nat): (e: nat)
    requires p <= |s|
    ensures p <= e <= |s|
    decreases |s| - p
  {
    if p == |s| || s[p] == '=' then p else EqualsAt(s, p + 1)
  }

  /** A value with its escapes dropped, and where it ends: at a separator or at the end of the text. */
  function ValueAt(s: string, p: nat, multi: bool): (r: Option<(string, nat)>)
    requires p <= |s|
    ensures r.Some? ==> p <= r.value.1 <= |s|
    decreases |s| - p
  {
    if p == |s| || Separates(s[p], multi) then Some(("", p))
    else if s[p] == '\\' && p + 1 == |s| then None
    else
      var k := if s[p] == '\\' then p + 1 else p;
      var rest := ValueAt(s, k + 1, multi);
      if rest.None? then None else Some(([s[k]] + rest.value.0, rest.value.1))
  }

  /** X509_NAME_add_entry at the end, into the part before it or as a part of its own. */
  function AddEntry(name: seq<Entry>, nid: int, value: string, joined: bool): seq<Entry> {
    name + [Entry(nid, value, if name == [] then 0 else name[|name| - 1].part + if joined then 0 else 1)]
  }

  /** What becomes of one piece: an unknown type is skipped, a value the library refuses is an error. */
  function Take(lib: Library, name: seq<Entry>, p: Piece): Option<seq<Entry>> {
    var nid := lib.nidOf(p.kind);
    if nid.None? then Some(name)
    else if lib.accepts(nid.value, p.value) then Some(AddEntry(name, nid.value, p.value, p.joined))
    else None
  }

  function ParseFrom(lib: Library, s: string, p: nat, multi: bool, joined: bool, name: seq<Entry>)
    : Option<seq<Entry>>
    requires p <= |s|
    decreases |s| - p
  {
    if p == |s| then Some(name)
    else
      var e := EqualsAt(s, p);
      if e == |s| then None
      else
        var v := ValueAt(s, e + 1, multi);
        if v.None? then None
        else
          var end := v.value.1;
          var name' := Take(lib, name, Piece(s[p..e], v.value.0, joined));
          if name'.None? then None
          else if end == |s| then name'
          else ParseFrom(lib, s, end + 1, multi, s[end] == '+', name'.value)
  }

  function Parse(lib: Library, cp: string, multi: bool): Option<seq<Entry>> {
    if cp == "" || cp[0] != '/' then None else ParseFrom(lib, cp, 1, multi, false, [])
  }

  // ----- the loops, over the buffer -----

  /** The string at an offset of the buffer, up to its NUL. */
  method StringAt(work: array<char>, at: nat, ghost end: nat) returns (s: string)
    requires at <= end < work.Length && work[end] == '\0' && forall k :: at <= k < end ==> work[k] != '\0'
    ensures s == work[at..end]
  {
    var n := 0;
    while work[at + n] != '\0'
      invariant at + n <= end
      decreases end - at - n
    {
      n := n + 1;
    }
    s := work[at..at + n];
  }

  /** Copies a type to the start of the buffer; p is left at the '=' or at the end. */
  method CollectType(s: string, p0: nat, work: array<char>) returns (p: nat)
    requires p0 <= |s| <= work.Length
    modifies work
    ensures p == EqualsAt(s, p0)
    ensures forall k :: 0 <= k < p - p0 ==> work[k] == s[p0 + k]
  {
    var bp := 0;
    p := p0;
    while p < |s| && s[p] != '='
      invariant p0 <= p <= |s| && bp == p - p0
      invariant EqualsAt(s, p0) == EqualsAt(s, p)
      invariant forall k :: 0 <= k < bp ==> work[k] == s[p0 + k]
    {
      work[bp] := s[p];
      bp, p := bp + 1, p + 1;
    }
  }

  /** text in front of a value. */
  ghost function Prepend(text: string, r: Option<(string, nat)>): Option<(string, nat)> {
    if r.None? then None else Some((text + r.value.0, r.value.1))
  }

  lemma PrependOne(text: string, c: char, r: Option<(string, nat)>)
    ensures Prepend(text, Prepend([c], r)) == Prepend(text + [c], r)
    ensures Prepend("", r) == r
  {
    if r.Some? {
      assert text + ([c] + r.value.0) == text + [c] + r.value.0;
      assert "" + r.value.0 == r.value.0;
    }
  }

  /** One character more, the one at q, or after a '\\' at p. */
  lemma TakesOne(s: string, p0: nat, p: nat, q: nat, multi: bool, acc: string)
    requires p0 <= p < |s| && q < |s| && q == (if s[p] == '\\' then p + 1 else p) && !Separates(s[p], multi)
    requires ValueAt(s, p0, multi) == Prepend(acc, ValueAt(s, p, multi))
    ensures ValueAt(s, p0, multi) == Prepend(acc + [s[q]], ValueAt(s, q + 1, multi))
  {
    PrependOne(acc, s[q], ValueAt(s, q + 1, multi));
    assert ValueAt(s, p, multi) == Prepend([s[q]], ValueAt(s, q + 1, multi));
  }

  /** Copies a value to the buffer from at on, dropping the escapes; p is left at the separator or the end. */
  method CollectValue(s: string, p0: nat, multi: bool, work: array<char>, at: nat)
    returns (ok: bool, p: nat, bp: nat, plus: bool)
    requires at < p0 <= |s| <= work.Length
    modifies work
    ensures at <= bp && p <= |s| && (ok ==> bp < work.Length && bp - at <= p - p0)
    ensures ValueAt(s, p0, multi) == if ok then Some((work[at..bp], p)) else None
    ensures ok ==> p0 <= p && plus == (p < |s| && s[p] == '+')
    ensures ok && '\0' !in s ==> forall k :: at <= k < bp ==> work[k] != '\0'
  {
    bp, p, plus := at, p0, false;
    ghost var acc := "";
    PrependOne("", '/', ValueAt(s, p, multi));
    while p < |s| && s[p] != '/'
      invariant p0 <= p <= |s| && at <= bp && bp - at <= p - p0 && !plus
      invariant |acc| == bp - at && (forall k :: 0 <= k < |acc| ==> work[at + k] == acc[k])
      invariant forall k :: 0 <= k < |acc| ==> acc[k] in s
      invariant ValueAt(s, p0, multi) == Prepend(acc, ValueAt(s, p, multi))
    {
      if multi && s[p] == '+' {
        plus := true;
        break;
      }
      ghost var turn := p;
      if s[p] == '\\' {
        p := p + 1;
        if p == |s| {
          return false, p, bp, false;
        }
      }
      TakesOne(s, p0, turn, p, multi, acc);
      acc := acc + [s[p]];
      work[bp] := s[p];
      bp, p := bp + 1, p + 1;
    }
    ok := true;
    assert work[at..bp] == acc == acc + "";
  }

  /** One type and value; the position after them, and whether a '+' came last. */
  method CollectPiece(s: string, p0: nat, multi: bool, work: array<char>)
    returns (ok: bool, typestr: string, valstr: string, p: nat, plus: bool)
    requires 1 <= p0 < |s| == work.Length && '\0' !in s
    modifies work
    ensures var e := EqualsAt(s, p0);
            if e == |s| || ValueAt(s, e + 1, multi).None? then !ok
            else
              var v := ValueAt(s, e + 1, multi).value;
              ok && typestr == s[p0..e] && (valstr, p) == v && plus == (p < |s| && s[p] == '+')
  {
    typestr, valstr, plus := "", "", false;
    p := CollectType(s, p0, work);
    if p == |s| {
      return false, typestr, valstr, p, plus;
    }
    ghost var e := p;
    var at := p - p0 + 1;
    work[at - 1] := '\0';
    assert forall k :: 0 <= k < at - 1 ==> work[k] == s[p0 + k] && s[p0 + k] in s;
    typestr := StringAt(work, 0, at - 1);
    assert typestr == s[p0..e];
    var bp;
    ok, p, bp, plus := CollectValue(s, p + 1, multi, work, at);
    if ok {
      ghost var v := work[at..bp];
      work[bp] := '\0';
      assert work[at..bp] == v;
      valstr := StringAt(work, at, bp);
    }
  }

  method ParseName(lib: Library, cp: string, multi: bool) returns (r: Option<seq<Entry>>)
    requires '\0' !in cp
    ensures r == Parse(lib, cp, multi)
  {
    if cp == "" || cp[0] != '/' {
      return None;
    }
    var p := 1;
    var n: seq<Entry> := [];
    var work := new char[|cp|];
    var nextIsMulti := false;
    while p < |cp|
      invariant 1 <= p <= |cp|
      invariant Parse(lib, cp, multi) == ParseFrom(lib, cp, p, multi, nextIsMulti, n)
    {
      var isMulti := nextIsMulti;
      var ok, typestr, valstr, q, plus := CollectPiece(cp, p, multi, work);
      if !ok {
        return None;
      }
      nextIsMulti := plus;
      p := if q < |cp| then q + 1 else q;
      var nid := lib.nidOf(typestr);
      if nid.None? {
        continue;
      }
      if !lib.accepts(nid.value, valstr) {
        return None;
      }
      n := AddEntry(n, nid.value, valstr, isMulti);
    }
    r := Some(n);
  }

  // ----- how a name may be written -----

  /** A character of a value, with or without a '\\' in front. */
  datatype Coded = Coded(c: char, escaped: bool)

  /** A type and a value as they are written. */
  datatype Term = Term(kind: string, codes: seq<Coded>, joined: bool)

  /** Only what would end the value, and the '\\' itself, must be escaped. */
  predicate CodedOk(c: Coded, multi: bool) {
    c.c == '\\' || Separates(c.c, multi) ==> c.escaped
  }

  function Spell(cs: seq<Coded>): string {
    if cs == [] then "" else (if cs[0].escaped then ['\\', cs[0].c] else [cs[0].c]) + Spell(cs[1..])
  }

  function ValueOf(cs: seq<Coded>): (v: string)
    ensures |v| == |cs| && forall i :: 0 <= i < |v| ==> v[i] == cs[i].c
  {
    seq(|cs|, i requires 0 <= i < |cs| => cs[i].c)
  }

  function PieceOf(t: Term): Piece {
    Piece(t.kind, ValueOf(t.codes), t.joined)
  }

  function PiecesOf(ts: seq<Term>): (ps: seq<Piece>)
    ensures |ps| == |ts| && forall i :: 0 <= i < |ps| ==> ps[i] == PieceOf(ts[i])
  {
    seq(|ts|, i requires 0 <= i < |ts| => PieceOf(ts[i]))
  }

  function Body(t: Term): string {
    t.kind + "=" + Spell(t.codes)
  }

  function Separator(t: Term): char {
    if t.joined then '+' else '/'
  }

  /** Each term after its separator. */
  function Texts(ts: seq<Term>): (r: seq<string>)
    ensures |r| == |ts| && forall i :: 0 <= i < |r| ==> r[i] == [Separator(ts[i])] + Body(ts[i])
  {
    seq(|ts|, i requires 0 <= i < |ts| => [Separator(ts[i])] + Body(ts[i]))
  }

  /** The texts from i on, and then tail. */
  function JoinFrom(texts: seq<string>, i: nat, tail: string): string
    requires i <= |texts|
    decreases |texts| - i
  {
    if i == |texts| then tail else texts[i] + JoinFrom(texts, i + 1, tail)
  }

  function PrintName(ts: seq<Term>, tail: string): string {
    if ts == [] then "/" else JoinFrom(Texts(ts), 0, tail)
  }

  /** Types without '=', values with the escapes they need, and a '+' only where it is allowed and not at the very
      front. */
  predicate TermOk(t: Term, multi: bool) {
    '=' !in t.kind && (forall i :: 0 <= i < |t.codes| ==> CodedOk(t.codes[i], multi)) && (t.joined ==> multi)
  }

  predicate Printable(ts: seq<Term>, multi: bool) {
    (forall i :: 0 <= i < |ts| ==> TermOk(ts[i], multi)) && (ts != [] ==> !ts[0].joined)
  }

  /** After the last term one separator is tolerated. */
  predicate TailOk(tail: string, multi: bool) {
    tail == "" || (|tail| == 1 && Separates(tail[0], multi))
  }

  /** What the pieces from i on make of a name: unknown types are left out, a refused value is an error. */
  function BuildFrom(lib: Library, name: seq<Entry>, ps: seq<Piece>, i: nat): Option<seq<Entry>>
    requires i <= |ps|
    decreases |ps| - i
  {
    if i == |ps| then Some(name)
    else
      var r := Take(lib, name, ps[i]);
      if r.None? then None else BuildFrom(lib, r.value, ps, i + 1)
  }

  function Build(lib: Library, ps: seq<Piece>): Option<seq<Entry>> {
    BuildFrom(lib, [], ps, 0)
  }

  // ----- what is written is read -----

  /** At p, s continues with text. */
  predicate Here(s: string, p: nat, text: string) {
    p + |text| <= |s| && s[p..p + |text|] == text
  }

  lemma HereSplit(s: string, p: nat, a: string, b: string)
    requires Here(s, p, a + b)
    ensures Here(s, p, a) && Here(s, p + |a|, b)
  {
    var t := s[p..p + |a| + |b|];
    assert t[..|a|] == s[p..p + |a|] && t[|a|..] == s[p + |a|..p + |a| + |b|];
  }

  lemma HereJoin(s: string, p: nat, a: string, b: string)
    requires Here(s, p, a) && Here(s, p + |a|, b)
    ensures Here(s, p, a + b)
  {
  }

  /** The characters of a short text. */
  lemma HereChars(s: string, p: nat, text: string)
    requires Here(s, p, text)
    ensures |text| > 0 ==> s[p] == text[0]
    ensures |text| > 1 ==> s[p + 1] == text[1]
  {
    assert |text| > 0 ==> s[p..p + |text|][0] == s[p];
    assert |text| > 1 ==> s[p..p + |text|][1] == s[p + 1];
  }

  lemma {:induction false} EqualsAfter(s: string, p: nat, kind: string)
    requires Here(s, p, kind) && Here(s, p + |kind|, "=") && '=' !in kind
    ensures EqualsAt(s, p) == p + |kind|
    decreases |kind|
  {
    if kind == "" {
      HereChars(s, p, "=");
    } else {
      HereChars(s, p, kind);
      assert kind == [kind[0]] + kind[1..];
      HereSplit(s, p, [kind[0]], kind[1..]);
      EqualsAfter(s, p + 1, kind[1..]);
    }
  }

  /** One character of a value, escaped or not. */
  lemma ValueOne(s: string, p: nat, c: Coded, multi: bool)
    requires CodedOk(c, multi) && p + (if c.escaped then 2 else 1) <= |s|
    requires if c.escaped then s[p] == '\\' && s[p + 1] == c.c else s[p] == c.c
    ensures var rest := ValueAt(s, p + (if c.escaped then 2 else 1), multi);
            ValueAt(s, p, multi) == if rest.None? then None else Some(([c.c] + rest.value.0, rest.value.1))
  {
  }

  /** A written value is read back, up to the separator or the end. */
  lemma {:induction false} ValueSpelled(s: string, p: nat, cs: seq<Coded>, multi: bool, end: nat)
    requires Here(s, p, Spell(cs)) && end == p + |Spell(cs)|
    requires forall i :: 0 <= i < |cs| ==> CodedOk(cs[i], multi)
    requires end == |s| || Separates(s[end], multi)
    ensures ValueAt(s, p, multi) == Some((ValueOf(cs), end))
    decreases |cs|
  {
    if cs != [] {
      var head := if cs[0].escaped then ['\\', cs[0].c] else [cs[0].c];
      HereSplit(s, p, head, Spell(cs[1..]));
      HereChars(s, p, head);
      ValueOne(s, p, cs[0], multi);
      ValueSpelled(s, p + |head|, cs[1..], multi, end);
      assert [cs[0].c] + ValueOf(cs[1..]) == ValueOf(cs);
    }
  }

  /** At p the parser finds a piece, which ends at end. */
  ghost predicate Found(s: string, p: nat, piece: Piece, multi: bool, end: nat) {
    && p < |s| && EqualsAt(s, p) < |s| && s[p..EqualsAt(s, p)] == piece.kind
    && ValueAt(s, EqualsAt(s, p) + 1, multi) == Some((piece.value, end))
  }

  /** From p to end stands the value v, written like this. */
  ghost predicate CodesAt(s: string, p: nat, cs: seq<Coded>, multi: bool, v: string, end: nat) {
    && Here(s, p, Spell(cs)) && end == p + |Spell(cs)| && ValueOf(cs) == v
    && (end == |s| || Separates(s[end], multi))
    && forall i :: 0 <= i < |cs| ==> CodedOk(cs[i], multi)
  }

  lemma BodyParts(s: string, p: nat, t: Term)
    requires Here(s, p, Body(t))
    ensures Here(s, p, t.kind) && Here(s, p + |t.kind|, "=") && Here(s, p + |t.kind| + 1, Spell(t.codes))
    ensures |Body(t)| == |t.kind| + 1 + |Spell(t.codes)|
  {
    HereSplit(s, p, t.kind + "=", Spell(t.codes));
    HereSplit(s, p, t.kind, "=");
  }

  lemma PartsAreFound(s: string, p: nat, piece: Piece, cs: seq<Coded>, multi: bool, end: nat)
    requires Here(s, p, piece.kind) && Here(s, p + |piece.kind|, "=") && '=' !in piece.kind
    requires CodesAt(s, p + |piece.kind| + 1, cs, multi, piece.value, end)
    ensures Found(s, p, piece, multi, end)
  {
    EqualsAfter(s, p, piece.kind);
    ValueSpelled(s, p + |piece.kind| + 1, cs, multi, end);
  }

  lemma BodyIsFound(s: string, p: nat, t: Term, multi: bool, end: nat)
    requires Here(s, p, Body(t)) && end == p + |Body(t)| && TermOk(t, multi)
    requires end == |s| || Separates(s[end], multi)
    ensures Found(s, p, PieceOf(t), multi, end)
  {
    BodyParts(s, p, t);
    PartsAreFound(s, p, PieceOf(t), t.codes, multi, end);
  }

  /** From p on, s is the texts from i on and the tail. */
  predicate At(s: string, p: nat, texts: seq<string>, i: nat, tail: string)
    requires i <= |texts|
  {
    Here(s, p, JoinFrom(texts, i, tail)) && p + |JoinFrom(texts, i, tail)| == |s|
  }

  lemma AtTail(s: string, p: nat, texts: seq<string>, tail: string)
    requires At(s, p, texts, |texts|, tail)
    ensures if tail == "" then p == |s| else p < |s| && s[p] == tail[0] && (|tail| == 1 ==> p + 1 == |s|)
  {
    HereChars(s, p, tail);
  }

  lemma AtNext(s: string, p: nat, texts: seq<string>, i: nat, tail: string)
    requires i < |texts| && At(s, p, texts, i, tail)
    ensures Here(s, p, texts[i]) && At(s, p + |texts[i]|, texts, i + 1, tail)
  {
    HereSplit(s, p, texts[i], JoinFrom(texts, i + 1, tail));
  }

  lemma AtTerm(s: string, p: nat, ts: seq<Term>, i: nat, tail: string)
    requires i < |ts| && At(s, p, Texts(ts), i, tail)
    ensures p < |s| && s[p] == Separator(ts[i]) && Here(s, p + 1, Body(ts[i]))
    ensures At(s, p + 1 + |Body(ts[i])|, Texts(ts), i + 1, tail)
  {
    AtNext(s, p, Texts(ts), i, tail);
    HereSplit(s, p, [Separator(ts[i])], Body(ts[i]));
    HereChars(s, p, [Separator(ts[i])]);
  }

  /** The parser finds a piece where it was written. */
  lemma PieceIsFound(s: string, p: nat, ts: seq<Term>, i: nat, tail: string, multi: bool, end: nat)
    requires i < |ts| && At(s, p, Texts(ts), i, tail) && end == p + 1 + |Body(ts[i])|
    requires TermOk(ts[i], multi) && TailOk(tail, multi) && (i + 1 < |ts| ==> TermOk(ts[i + 1], multi))
    ensures Found(s, p + 1, PieceOf(ts[i]), multi, end) && At(s, end, Texts(ts), i + 1, tail)
    ensures if i + 1 < |ts| then end < |s| && s[end] == Separator(ts[i + 1])
            else if tail == "" then end == |s| else end + 1 == |s|
  {
    AtTerm(s, p, ts, i, tail);
    if i + 1 < |ts| { AtTerm(s, end, ts, i + 1, tail); } else { AtTail(s, end, Texts(ts), tail); }
    BodyIsFound(s, p + 1, ts[i], multi, end);
  }

  /** One turn of the parser's loop. */
  lemma ParseOne(lib: Library, s: string, p: nat, multi: bool, piece: Piece, end: nat, name: seq<Entry>)
    requires Found(s, p, piece, multi, end)
    ensures ParseFrom(lib, s, p, multi, piece.joined, name)
            == var name' := Take(lib, name, piece);
               if name'.None? then None
               else if end == |s| then name'
               else ParseFrom(lib, s, end + 1, multi, s[end] == '+', name'.value)
  {
    assert Piece(s[p..EqualsAt(s, p)], piece.value, piece.joined) == piece;
  }

  lemma {:induction false} ParsePrinted(lib: Library, s: string, p: nat, ts: seq<Term>, i: nat, tail: string,
                                        multi: bool, name: seq<Entry>)
    requires Printable(ts, multi) && TailOk(tail, multi) && i < |ts| && At(s, p, Texts(ts), i, tail)
    ensures p < |s|
    ensures ParseFrom(lib, s, p + 1, multi, ts[i].joined, name) == BuildFrom(lib, name, PiecesOf(ts), i)
    decreases |ts| - i
  {
    var end, name' := p + 1 + |Body(ts[i])|, Take(lib, name, PieceOf(ts[i]));
    PieceIsFound(s, p, ts, i, tail, multi, end);
    ParseOne(lib, s, p + 1, multi, PieceOf(ts[i]), end, name);
    if name'.Some? && i + 1 < |ts| {
      ParsePrinted(lib, s, end, ts, i + 1, tail, multi, name'.value);
    }
  }

  lemma ParseWritten(lib: Library, s: string, ts: seq<Term>, tail: string, multi: bool)
    requires Printable(ts, multi) && TailOk(tail, multi) && ts != [] && At(s, 0, Texts(ts), 0, tail)
    ensures Parse(lib, s, multi) == Build(lib, PiecesOf(ts))
  {
    AtTerm(s, 0, ts, 0, tail);
    ParsePrinted(lib, s, 0, ts, 0, tail, multi, []);
  }

  /** However a name is written, parsing gives the pieces back: their types, values and how they were joined. */
  lemma ParseUndoesPrint(lib: Library, ts: seq<Term>, tail: string, multi: bool)
    requires Printable(ts, multi) && TailOk(tail, multi)
    ensures Parse(lib, PrintName(ts, tail), multi) == Build(lib, PiecesOf(ts))
  {
    if ts != [] {
      var s := JoinFrom(Texts(ts), 0, tail);
      assert s[0..0 + |s|] == s;
      ParseWritten(lib, s, ts, tail, multi);
    }
  }

  // ----- and nothing else is read -----

  lemma CodesMore(s: string, p: nat, c: Coded, rest: seq<Coded>, multi: bool, v: string, end: nat)
    requires CodedOk(c, multi) && p + (if c.escaped then 2 else 1) <= |s|
    requires if c.escaped then s[p] == '\\' && s[p + 1] == c.c else s[p] == c.c
    requires CodesAt(s, p + (if c.escaped then 2 else 1), rest, multi, v, end)
    ensures CodesAt(s, p, [c] + rest, multi, [c.c] + v, end)
  {
    var head, all := if c.escaped then ['\\', c.c] else [c.c], [c] + rest;
    assert all[1..] == rest && Spell(all) == head + Spell(rest);
    assert s[p..p + |head|] == head;
    HereJoin(s, p, head, Spell(rest));
    assert ValueOf(all) == [c.c] + ValueOf(rest);
  }

  /** The first character of a value the parser takes. */
  lemma ValueTurn(s: string, p: nat, multi: bool) returns (c: Coded, q: nat)
    requires p < |s| && !Separates(s[p], multi) && ValueAt(s, p, multi).Some?
    ensures CodedOk(c, multi) && q == p + (if c.escaped then 2 else 1) <= |s|
    ensures if c.escaped then s[p] == '\\' && s[p + 1] == c.c else s[p] == c.c
    ensures ValueAt(s, q, multi).Some?
    ensures ValueAt(s, p, multi).value.0 == [c.c] + ValueAt(s, q, multi).value.0
    ensures ValueAt(s, p, multi).value.1 == ValueAt(s, q, multi).value.1
  {
    q := if s[p] == '\\' then p + 2 else p + 1;
    c := Coded(s[q - 1], s[p] == '\\');
  }

  /** What the parser takes for a value is one that can be written. */
  lemma {:induction false} ValueCodes(s: string, p: nat, multi: bool, v: string, end: nat) returns (cs: seq<Coded>)
    requires p <= |s| && ValueAt(s, p, multi) == Some((v, end))
    ensures CodesAt(s, p, cs, multi, v, end)
    decreases |s| - p
  {
    if p == |s| || Separates(s[p], multi) {
      cs := [];
      assert s[p..p] == "";
    } else {
      var c, q := ValueTurn(s, p, multi);
      var v' := ValueAt(s, q, multi).value.0;
      var rest := ValueCodes(s, q, multi, v', end);
      CodesMore(s, p, c, rest, multi, v', end);
      cs := [c] + rest;
    }
  }

  lemma {:induction false} NoEquals(s: string, p: nat)
    requires p <= |s|
    ensures '=' !in s[p..EqualsAt(s, p)]
    ensures EqualsAt(s, p) < |s| ==> s[EqualsAt(s, p)] == '='
    decreases |s| - p
  {
    if p < |s| && s[p] != '=' {
      NoEquals(s, p + 1);
      assert s[p..EqualsAt(s, p)] == [s[p]] + s[p + 1..EqualsAt(s, p)];
    }
  }

  lemma PartsAreBody(s: string, p: nat, t: Term)
    requires Here(s, p, t.kind) && Here(s, p + |t.kind|, "=") && Here(s, p + |t.kind| + 1, Spell(t.codes))
    ensures Here(s, p, Body(t)) && |Body(t)| == |t.kind| + 1 + |Spell(t.codes)|
  {
    HereJoin(s, p, t.kind, "=");
    HereJoin(s, p, t.kind + "=", Spell(t.codes));
  }

  lemma TermOf(s: string, p: nat, e: nat, cs: seq<Coded>, multi: bool, v: string, end: nat, t: Term)
    requires p <= e < |s| && s[e] == '=' && '=' !in s[p..e] && CodesAt(s, e + 1, cs, multi, v, end)
    requires t.kind == s[p..e] && t.codes == cs && (t.joined ==> multi)
    ensures TermOk(t, multi) && Here(s, p, Body(t)) && p + |Body(t)| == end
    ensures PieceOf(t) == Piece(s[p..e], v, t.joined)
  {
    assert s[e..e + 1] == "=";
    PartsAreBody(s, p, t);
  }

  /** A piece the parser finds is one that can be written. */
  lemma FoundBody(s: string, p: nat, multi: bool, joined: bool) returns (t: Term)
    requires p < |s| && EqualsAt(s, p) < |s| && ValueAt(s, EqualsAt(s, p) + 1, multi).Some? && (joined ==> multi)
    ensures TermOk(t, multi) && t.joined == joined && Here(s, p, Body(t))
    ensures Found(s, p, PieceOf(t), multi, p + |Body(t)|)
    ensures p + |Body(t)| == |s| || Separates(s[p + |Body(t)|], multi)
  {
    var e := EqualsAt(s, p);
    var (v, end) := ValueAt(s, e + 1, multi).value;
    var cs := ValueCodes(s, e + 1, multi, v, end);
    NoEquals(s, p);
    t := Term(s[p..e], cs, joined);
    TermOf(s, p, e, cs, multi, v, end, t);
  }

  lemma {:induction false} JoinShift(all: seq<string>, texts: seq<string>, i: nat, j: nat, tail: string)
    requires |all| == |texts| + 1 && j == i + 1 && i <= |texts|
    requires forall k :: 0 <= k < |texts| ==> all[k + 1] == texts[k]
    ensures JoinFrom(all, j, tail) == JoinFrom(texts, i, tail)
    decreases |texts| - i
  {
    if i < |texts| {
      JoinShift(all, texts, i + 1, j + 1, tail);
      assert all[j] == texts[i] by { assert all[i + 1] == texts[i]; }
    }
  }

  lemma {:induction false} BuildShift(lib: Library, name: seq<Entry>, p: Piece, ps: seq<Piece>, i: nat)
    requires i <= |ps|
    ensures BuildFrom(lib, name, [p] + ps, i + 1) == BuildFrom(lib, name, ps, i)
    decreases |ps| - i
  {
    if i < |ps| {
      var r := Take(lib, name, ps[i]);
      if r.Some? { BuildShift(lib, r.value, p, ps, i + 1); }
    }
  }

  ghost predicate AllOk(ts: seq<Term>, multi: bool) {
    forall i :: 0 <= i < |ts| ==> TermOk(ts[i], multi)
  }

  /** The separator at p and all after it, as terms and a tail. */
  ghost predicate Written(lib: Library, s: string, p: nat, multi: bool, name: seq<Entry>, r: seq<Entry>,
                          ts: seq<Term>, tail: string) {
    && AllOk(ts, multi) && TailOk(tail, multi)
    && At(s, p, Texts(ts), 0, tail) && BuildFrom(lib, name, PiecesOf(ts), 0) == Some(r)
  }

  lemma AtOne(s: string, p: nat, text: string, texts: seq<string>, tail: string)
    requires Here(s, p, text) && At(s, p + |text|, texts, 0, tail)
    ensures At(s, p, [text] + texts, 0, tail)
  {
    JoinShift([text] + texts, texts, 0, 1, tail);
    HereJoin(s, p, text, JoinFrom(texts, 0, tail));
  }

  lemma AtTermAdded(s: string, p: nat, t: Term, ts: seq<Term>, tail: string)
    requires p < |s| && s[p] == Separator(t) && Here(s, p + 1, Body(t))
    requires At(s, p + 1 + |Body(t)|, Texts(ts), 0, tail)
    ensures At(s, p, Texts([t] + ts), 0, tail)
  {
    var text := [Separator(t)] + Body(t);
    assert s[p..p + 1] == [Separator(t)];
    HereJoin(s, p, [Separator(t)], Body(t));
    AtOne(s, p, text, Texts(ts), tail);
    assert Texts([t] + ts) == [text] + Texts(ts);
  }

  lemma BuildAdded(lib: Library, name: seq<Entry>, t: Term, ts: seq<Term>)
    requires Take(lib, name, PieceOf(t)).Some?
    ensures BuildFrom(lib, name, PiecesOf([t] + ts), 0)
            == BuildFrom(lib, Take(lib, name, PieceOf(t)).value, PiecesOf(ts), 0)
  {
    assert PiecesOf([t] + ts) == [PieceOf(t)] + PiecesOf(ts);
    BuildShift(lib, Take(lib, name, PieceOf(t)).value, PieceOf(t), PiecesOf(ts), 0);
  }

  lemma WriteOne(lib: Library, s: string, p: nat, multi: bool, name: seq<Entry>, name': seq<Entry>, r: seq<Entry>,
                 t: Term, ts: seq<Term>, tail: string)
    requires p < |s| && s[p] == Separator(t) && TermOk(t, multi) && Here(s, p + 1, Body(t))
    requires Take(lib, name, PieceOf(t)) == Some(name')
    requires Written(lib, s, p + 1 + |Body(t)|, multi, name', r, ts, tail)
    ensures Written(lib, s, p, multi, name, r, [t] + ts, tail)
  {
    AtTermAdded(s, p, t, ts, tail);
    BuildAdded(lib, name, t, ts);
  }

  lemma WrittenEnd(lib: Library, s: string, multi: bool, name: seq<Entry>)
    ensures Written(lib, s, |s|, multi, name, name, [], "")
  {
  }

  lemma WrittenTail(lib: Library, s: string, p: nat, multi: bool, name: seq<Entry>)
    requires p + 1 == |s| && Separates(s[p], multi)
    ensures Written(lib, s, p, multi, name, name, [], [s[p]])
  {
    assert s[p..p + 1] == [s[p]];
  }

  /** One turn of a parse that succeeds. */
  lemma TurnIsTerm(lib: Library, s: string, p: nat, multi: bool, joined: bool, name: seq<Entry>, r: seq<Entry>)
    returns (t: Term, end: nat, name': seq<Entry>)
    requires p < |s| && (joined ==> multi) && ParseFrom(lib, s, p, multi, joined, name) == Some(r)
    ensures TermOk(t, multi) && t.joined == joined && Here(s, p, Body(t)) && end == p + |Body(t)|
    ensures Take(lib, name, PieceOf(t)) == Some(name')
    ensures if end == |s| then r == name'
            else end < |s| && Separates(s[end], multi)
                 && ParseFrom(lib, s, end + 1, multi, s[end] == '+', name') == Some(r)
  {
    t := FoundBody(s, p, multi, joined);
    end := p + |Body(t)|;
    ParseOne(lib, s, p, multi, PieceOf(t), end, name);
    name' := Take(lib, name, PieceOf(t)).value;
  }

  /** Whatever the parser accepts from a separator on is terms and a tail. */
  lemma {:induction false} ReadIsWritten(lib: Library, s: string, p: nat, multi: bool, name: seq<Entry>,
                                         r: seq<Entry>)
    returns (ts: seq<Term>, tail: string)
    requires p < |s| && Separates(s[p], multi)
    requires ParseFrom(lib, s, p + 1, multi, s[p] == '+', name) == Some(r)
    ensures Written(lib, s, p, multi, name, r, ts, tail)
    ensures ts == [] ==> p + 1 == |s| && r == name
    decreases |s| - p
  {
    if p + 1 == |s| {
      ts, tail := [], [s[p]];
      WrittenTail(lib, s, p, multi, name);
    } else {
      var t, end, name' := TurnIsTerm(lib, s, p + 1, multi, s[p] == '+', name, r);
      var rest: seq<Term> := [];
      tail := "";
      if end == |s| {
        WrittenEnd(lib, s, multi, r);
      } else {
        rest, tail := ReadIsWritten(lib, s, end, multi, name', r);
      }
      WriteOne(lib, s, p, multi, name, name', r, t, rest, tail);
      ts := [t] + rest;
    }
  }

  /** A text parses to a name exactly when it can be read as terms, with one separator more at most, whose pieces
      build that name. */
  lemma ParsesIff(lib: Library, cp: string, multi: bool, name: seq<Entry>)
    ensures Parse(lib, cp, multi) == Some(name) <==>
            exists ts, tail :: Printable(ts, multi) && TailOk(tail, multi) && cp == PrintName(ts, tail)
                               && Build(lib, PiecesOf(ts)) == Some(name)
  {
    if Parse(lib, cp, multi) == Some(name) {
      var ts, tail := ReadIsWritten(lib, cp, 0, multi, [], name);
      assert cp[0..|cp|] == cp;
      if ts == [] { tail := ""; } else { AtTerm(cp, 0, ts, 0, tail); }
      assert cp == PrintName(ts, tail) && Printable(ts, multi);
    }
    if ts, tail :| Printable(ts, multi) && TailOk(tail, multi) && cp == PrintName(ts, tail)
                   && Build(lib, PiecesOf(ts)) == Some(name) {
      ParseUndoesPrint(lib, ts, tail, multi);
    }
  }

  // ----- the entries that are built -----

  /** An entry as its piece gave it, in the part of the entry before it exactly when it was joined to it. */
  ghost predicate EntryIs(lib: Library, name: seq<Entry>, k: nat, p: Piece)
    requires k < |name|
  {
    && Some(name[k].nid) == lib.nidOf(p.kind) && name[k].value == p.value
    && name[k].part == if k == 0 then 0 else name[k - 1].part + if p.joined then 0 else 1
  }

  /** The pieces from i on whose types the object table knows, in order. */
  function KnownFrom(lib: Library, ps: seq<Piece>, i: nat): seq<Piece>
    requires i <= |ps|
    decreases |ps| - i
  {
    if i == |ps| then [] else (if lib.nidOf(ps[i].kind).Some? then [ps[i]] else []) + KnownFrom(lib, ps, i + 1)
  }

  /** A value the library refuses for a type it knows. */
  predicate Refused(lib: Library, p: Piece) {
    lib.nidOf(p.kind).Some? && !lib.accepts(lib.nidOf(p.kind).value, p.value)
  }

  /** The entries of r past those of name are these pieces. */
  ghost predicate Extends(lib: Library, name: seq<Entry>, r: seq<Entry>, known: seq<Piece>) {
    && |r| == |name| + |known| && name <= r
    && forall k :: 0 <= k < |known| ==> EntryIs(lib, r, |name| + k, known[k])
  }

  lemma ExtendsOne(lib: Library, name: seq<Entry>, p: Piece, r: seq<Entry>, known: seq<Piece>)
    requires lib.nidOf(p.kind).Some? && !Refused(lib, p)
    requires Extends(lib, Take(lib, name, p).value, r, known)
    ensures Extends(lib, name, r, [p] + known)
  {
    var name' := Take(lib, name, p).value;
    assert r[|name|] == name'[|name|] && (name != [] ==> r[|name| - 1] == name'[|name| - 1]);
    forall k | 0 <= k < 1 + |known| ensures EntryIs(lib, r, |name| + k, ([p] + known)[k]) {
      if k > 0 { assert EntryIs(lib, r, |name'| + (k - 1), known[k - 1]); }
    }
  }

  lemma {:induction false} BuildFromIs(lib: Library, name: seq<Entry>, ps: seq<Piece>, i: nat)
    requires i <= |ps|
    ensures BuildFrom(lib, name, ps, i).Some? <==> forall k :: i <= k < |ps| ==> !Refused(lib, ps[k])
    ensures var r := BuildFrom(lib, name, ps, i);
            r.Some? ==> Extends(lib, name, r.value, KnownFrom(lib, ps, i))
    decreases |ps| - i
  {
    if i < |ps| {
      var name' := Take(lib, name, ps[i]);
      if name'.Some? {
        BuildFromIs(lib, name'.value, ps, i + 1);
        var r := BuildFrom(lib, name'.value, ps, i + 1);
        if r.Some? && lib.nidOf(ps[i].kind).Some? {
          ExtendsOne(lib, name, ps[i], r.value, KnownFrom(lib, ps, i + 1));
        }
      } else {
        assert Refused(lib, ps[i]);
      }
    }
  }

  /** A name is built exactly when no known piece is refused; its entries are the known pieces in order, neighbours in
      one part exactly when they were joined. An unknown piece is left out and never makes the parse fail. */
  lemma BuildIs(lib: Library, ps: seq<Piece>)
    ensures Build(lib, ps).Some? <==> forall k :: 0 <= k < |ps| ==> !Refused(lib, ps[k])
    ensures Build(lib, ps).Some? ==>
              var name, known := Build(lib, ps).value, KnownFrom(lib, ps, 0);
              |name| == |known| && forall k :: 0 <= k < |name| ==> EntryIs(lib, name, k, known[k])
  {
    BuildFromIs(lib, [], ps, 0);
  }
}
