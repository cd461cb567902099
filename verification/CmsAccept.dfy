/** Which command lines the cms command accepts for signing, and the pairs it makes of them, read off the options. */
module CmsAccept {
  import opened CStrings
  import opened Cms

  // ----- the options read without the loop -----

  function LastOp(toks: seq<Token>): Operation {
    if toks == [] then Unset
    else if toks[|toks| - 1].Choose? then toks[|toks| - 1].op
    else LastOp(toks[..|toks| - 1])
  }

  /** How many recipients are loaded: those given while encryption is the operation. */
  function Recips(toks: seq<Token>): nat {
    if toks == [] then 0
    else
      var init := toks[..|toks| - 1];
      Recips(init) + if toks[|toks| - 1].Recip? && LastOp(init).Encrypt? then 1 else 0
  }

  ghost predicate NamesSigner(toks: seq<Token>) {
    exists i :: 0 <= i < |toks| && (toks[i].Signer? || toks[i].Inkey?)
  }

  /** A key option has a recipient or a signer to go to, and a recipient's certificate loads where it is needed. */
  ghost predicate OtherOk(before: seq<Token>, t: Token) {
    match t
    case Keyopt(_) => if LastOp(before).Encrypt? then Recips(before) > 0 else NamesSigner(before)
    case Recip(loads) => LastOp(before).Encrypt? ==> loads
    case _ => true
  }

  ghost predicate OthersOk(toks: seq<Token>) {
    forall t :: 0 <= t < |toks| ==> OtherOk(toks[..t], toks[t])
  }

  /** The signers and keys alone. */
  function SignersKeys(toks: seq<Token>): seq<Token> {
    if toks == [] then []
    else
      var t := toks[|toks| - 1];
      SignersKeys(toks[..|toks| - 1]) + if t.Signer? || t.Inkey? then [t] else []
  }

  // ----- cutting signers and keys into pairs -----

  /** A signer alone, with its key after it, or with its key in front. */
  datatype Block = Block(pair: Pair, keyFirst: bool)

  function Tokens(b: Block): seq<Token> {
    if b.pair.key.None? then [Token.Signer(b.pair.signer)]
    else if b.keyFirst then [Inkey(b.pair.key.value), Token.Signer(b.pair.signer)]
    else [Token.Signer(b.pair.signer), Inkey(b.pair.key.value)]
  }

  function Flatten(bs: seq<Block>): seq<Token> {
    if bs == [] then [] else Flatten(bs[..|bs| - 1]) + Tokens(bs[|bs| - 1])
  }

  function PairsOf(bs: seq<Block>): (ps: seq<Pair>)
    ensures |ps| == |bs| && forall i :: 0 <= i < |ps| ==> ps[i] == bs[i].pair
  {
    seq(|bs|, i requires 0 <= i < |bs| => bs[i].pair)
  }

  /** A key between two signers belongs to the first, unless that has one. */
  ghost predicate KeysLeft(bs: seq<Block>) {
    forall i :: 0 < i < |bs| && bs[i - 1].pair.key.None? ==> bs[i].pair.key.None? || !bs[i].keyFirst
  }

  // ----- the loop on signers and keys -----

  lemma SameOptions(st: State, st': State, t: Token)
    requires (t.Signer? || t.Inkey?) && st'.signer == st.signer && st'.key == st.key && st'.pairs == st.pairs
    ensures Step(st, t).Some? <==> Step(st', t).Some?
    ensures Step(st, t).Some? ==>
              var a, b := Step(st, t).value, Step(st', t).value;
              && a.signer == b.signer && a.key == b.key && a.pairs == b.pairs
              && a.op == st.op && a.encerts == st.encerts
  {
  }

  lemma SignersKeysNext(toks: seq<Token>, t: Token)
    ensures SignersKeys(toks + [t]) == SignersKeys(toks) + if t.Signer? || t.Inkey? then [t] else []
    ensures LastOp(toks + [t]) == if t.Choose? then t.op else LastOp(toks)
    ensures Recips(toks + [t]) == Recips(toks) + if t.Recip? && LastOp(toks).Encrypt? then 1 else 0
  {
    assert (toks + [t])[..|toks|] == toks;
  }

  lemma OthersOkNext(toks: seq<Token>, t: Token)
    ensures OthersOk(toks + [t]) <==> OthersOk(toks) && OtherOk(toks, t)
  {
    var all := toks + [t];
    assert all[..|toks|] == toks;
    assert OthersOk(all) ==> OtherOk(all[..|toks|], all[|toks|]);
    forall i | 0 <= i < |toks| ensures OtherOk(all[..i], all[i]) <==> OtherOk(toks[..i], toks[i]) {
      assert all[..i] == toks[..i];
    }
  }

  lemma {:induction false} OnlySignersKeys(toks: seq<Token>)
    ensures NamesSigner(toks) <==> SignersKeys(toks) != []
    ensures SignersOrKeys(SignersKeys(toks))
  {
    if toks != [] {
      var init, t := toks[..|toks| - 1], toks[|toks| - 1];
      OnlySignersKeys(init);
      if t.Signer? || t.Inkey? {
        assert NamesSigner(toks);
      } else if NamesSigner(init) {
        var i :| 0 <= i < |init| && (init[i].Signer? || init[i].Inkey?);
        assert toks[i] == init[i];
      }
    }
  }

  /** What the signers and keys alone lead to. */
  ghost predicate Agrees(toks: seq<Token>) {
    var st, sk := Run(toks), Run(SignersKeys(toks));
    && (st.Some? <==> sk.Some? && OthersOk(toks))
    && (st.Some? ==>
          && st.value.signer == sk.value.signer && st.value.key == sk.value.key && st.value.pairs == sk.value.pairs
          && st.value.op == LastOp(toks) && st.value.encerts == Recips(toks)
          && (SignersKeys(toks) != [] <==> st.value.signer.Some? || st.value.key.Some?)
          && (SignersKeys(toks) == [] ==> st.value.pairs == []))
  }

  lemma RunStep(toks: seq<Token>, t: Token)
    ensures Run(toks + [t]) == if Run(toks).None? then None else Step(Run(toks).value, t)
  {
    assert (toks + [t])[..|toks|] == toks;
  }

  lemma SignerOrKeyNext(toks: seq<Token>, t: Token)
    requires Agrees(toks) && (t.Signer? || t.Inkey?)
    ensures Agrees(toks + [t])
  {
    SignersKeysNext(toks, t);
    OthersOkNext(toks, t);
    RunStep(toks, t);
    RunStep(SignersKeys(toks), t);
    if Run(toks).Some? { SameOptions(Run(toks).value, Run(SignersKeys(toks)).value, t); }
  }

  lemma OtherNext(toks: seq<Token>, t: Token)
    requires Agrees(toks) && !t.Signer? && !t.Inkey?
    ensures Agrees(toks + [t])
  {
    SignersKeysNext(toks, t);
    OthersOkNext(toks, t);
    OnlySignersKeys(toks);
    RunStep(toks, t);
    assert SignersKeys(toks) + [] == SignersKeys(toks);
  }

  lemma {:induction false} RunAgrees(toks: seq<Token>)
    ensures Agrees(toks)
  {
    if toks != [] {
      var init, t := toks[..|toks| - 1], toks[|toks| - 1];
      RunAgrees(init);
      assert toks == init + [t];
      if t.Signer? || t.Inkey? { SignerOrKeyNext(init, t); } else { OtherNext(init, t); }
    }
  }

  // ----- blocks are read as their pairs -----

  lemma FlattenNext(bs: seq<Block>, b: Block)
    ensures Flatten(bs + [b]) == Flatten(bs) + Tokens(b)
  {
    assert (bs + [b])[..|bs|] == bs;
  }

  /** The last block is pending, those before it are pairs. */
  ghost predicate Reads(toks: seq<Token>, bs: seq<Block>) {
    var st := Run(toks);
    st.Some? &&
    if bs == [] then st.value == START
    else
      var last := bs[|bs| - 1].pair;
      && st.value.signer == Some(last.signer) && st.value.key == last.key
      && st.value.pairs == PairsOf(bs[..|bs| - 1])
  }

  lemma ReadsBlock(toks: seq<Token>, bs: seq<Block>, b: Block)
    requires Reads(toks, bs)
    requires bs != [] && bs[|bs| - 1].pair.key.None? ==> b.pair.key.None? || !b.keyFirst
    ensures Reads(toks + Tokens(b), bs + [b])
  {
    var all := bs + [b];
    assert all[..|bs|] == bs;
    if bs != [] {
      assert PairsOf(bs) == PairsOf(bs[..|bs| - 1]) + [bs[|bs| - 1].pair];
    }
    var ts := Tokens(b);
    RunNext(toks, ts[0]);
    if |ts| == 2 {
      RunNext(toks + [ts[0]], ts[1]);
      assert toks + [ts[0]] + [ts[1]] == toks + ts;
    } else {
      assert [ts[0]] == ts;
    }
  }

  lemma {:induction false} BlocksRead(bs: seq<Block>)
    requires KeysLeft(bs)
    ensures Reads(Flatten(bs), bs)
  {
    if bs != [] {
      var init := bs[..|bs| - 1];
      BlocksRead(init);
      ReadsBlock(Flatten(init), init, bs[|bs| - 1]);
      assert bs == init + [bs[|bs| - 1]];
    }
  }

  // ----- what is read is cut into blocks -----

  /** sk is the tokens of the blocks, with a key left over if first is given. */
  ghost predicate CutAs(sk: seq<Token>, bs: seq<Block>, first: Option<string>) {
    && KeysLeft(bs)
    && sk == Flatten(bs) + (if first.Some? then [Inkey(first.value)] else [])
    && (first.Some? && bs != [] ==> bs[|bs| - 1].pair.key.Some?)
  }

  /** The state after the blocks and the key left over. */
  ghost predicate StateIs(st: State, bs: seq<Block>, first: Option<string>) {
    if first.Some? then st.signer.None? && st.key == first && st.pairs == PairsOf(bs)
    else if bs == [] then st.signer.None? && st.key.None? && st.pairs == []
    else
      var last := bs[|bs| - 1].pair;
      st.signer == Some(last.signer) && st.key == last.key && st.pairs == PairsOf(bs[..|bs| - 1])
  }

  lemma PairsNextBlock(bs: seq<Block>)
    requires bs != []
    ensures PairsOf(bs) == PairsOf(bs[..|bs| - 1]) + [bs[|bs| - 1].pair]
  {
  }

  lemma CutSigner(sk: seq<Token>, st: State, bs: seq<Block>, first: Option<string>, f: string)
    returns (bs': seq<Block>)
    requires CutAs(sk, bs, first) && StateIs(st, bs, first)
    ensures CutAs(sk + [Token.Signer(f)], bs', None)
    ensures Step(st, Token.Signer(f)).Some? && StateIs(Step(st, Token.Signer(f)).value, bs', None)
  {
    var b := Block(Pair(f, first), first.Some?);
    bs' := bs + [b];
    FlattenNext(bs, b);
    assert bs'[..|bs|] == bs;
    if bs != [] { PairsNextBlock(bs); }
    assert Flatten(bs) + Tokens(b) + [] == sk + [Token.Signer(f)];
  }

  lemma CutKeyFirst(sk: seq<Token>, st: State, bs: seq<Block>, k: string)
    requires CutAs(sk, bs, None) && StateIs(st, bs, None) && Step(st, Inkey(k)).Some?
    requires bs == [] || bs[|bs| - 1].pair.key.Some?
    ensures CutAs(sk + [Inkey(k)], bs, Some(k)) && StateIs(Step(st, Inkey(k)).value, bs, Some(k))
  {
    if bs != [] { PairsNextBlock(bs); }
    assert Flatten(bs) + [] == Flatten(bs);
  }

  lemma CutKeyAfter(sk: seq<Token>, st: State, bs: seq<Block>, k: string, b: Block, bs': seq<Block>)
    requires CutAs(sk, bs, None) && StateIs(st, bs, None) && bs != [] && bs[|bs| - 1].pair.key.None?
    requires b == Block(Pair(bs[|bs| - 1].pair.signer, Some(k)), false) && bs' == bs[..|bs| - 1] + [b]
    ensures CutAs(sk + [Inkey(k)], bs', None)
    ensures Step(st, Inkey(k)).Some? && StateIs(Step(st, Inkey(k)).value, bs', None)
  {
    var n := |bs| - 1;
    FlattenNext(bs[..n], b);
    assert bs'[..n] == bs[..n];
    assert Tokens(b) == Tokens(bs[n]) + [Inkey(k)];
    assert Flatten(bs') + [] == sk + [Inkey(k)];
  }

  lemma CutKey(sk: seq<Token>, st: State, bs: seq<Block>, first: Option<string>, k: string)
    returns (bs': seq<Block>, first': Option<string>)
    requires CutAs(sk, bs, first) && StateIs(st, bs, first) && Step(st, Inkey(k)).Some?
    ensures CutAs(sk + [Inkey(k)], bs', first') && StateIs(Step(st, Inkey(k)).value, bs', first')
  {
    if bs == [] || bs[|bs| - 1].pair.key.Some? {
      bs', first' := bs, Some(k);
      CutKeyFirst(sk, st, bs, k);
    } else {
      var b := Block(Pair(bs[|bs| - 1].pair.signer, Some(k)), false);
      bs', first' := bs[..|bs| - 1] + [b], None;
      CutKeyAfter(sk, st, bs, k, b, bs');
    }
  }

  lemma CutStep(sk: seq<Token>, st: State, bs: seq<Block>, first: Option<string>, t: Token)
    returns (bs': seq<Block>, first': Option<string>)
    requires CutAs(sk, bs, first) && StateIs(st, bs, first) && (t.Signer? || t.Inkey?) && Step(st, t).Some?
    ensures CutAs(sk + [t], bs', first') && StateIs(Step(st, t).value, bs', first')
  {
    if t.Signer? {
      bs' := CutSigner(sk, st, bs, first, t.file);
      first' := None;
    } else {
      bs', first' := CutKey(sk, st, bs, first, t.file);
    }
  }

  ghost predicate SignersOrKeys(sk: seq<Token>) {
    forall i :: 0 <= i < |sk| ==> sk[i].Signer? || sk[i].Inkey?
  }

  lemma {:induction false} CutRead(sk: seq<Token>) returns (bs: seq<Block>, first: Option<string>)
    requires Run(sk).Some? && SignersOrKeys(sk)
    ensures CutAs(sk, bs, first) && StateIs(Run(sk).value, bs, first)
  {
    if sk == [] {
      bs, first := [], None;
      assert Flatten(bs) + [] == sk;
    } else {
      var init, t := sk[..|sk| - 1], sk[|sk| - 1];
      assert sk == init + [t];
      RunStep(init, t);
      bs, first := CutRead(init);
      bs, first := CutStep(init, Run(init).value, bs, first, t);
    }
  }

  // ----- the exact condition -----

  /** The signers and keys can be cut into these pairs. */
  ghost predicate CutInto(toks: seq<Token>, pairs: seq<Pair>) {
    exists bs :: KeysLeft(bs) && Flatten(bs) == SignersKeys(toks) && PairsOf(bs) == pairs
  }

  lemma AcceptedIsCut(toks: seq<Token>)
    requires Run(toks).Some? && Finish(Run(toks).value).Some?
    ensures CutInto(toks, Finish(Run(toks).value).value)
  {
    RunAgrees(toks);
    OnlySignersKeys(toks);
    var bs, first := CutRead(SignersKeys(toks));
    assert Flatten(bs) + [] == Flatten(bs);
    if bs != [] { PairsNextBlock(bs); }
  }

  lemma CutIsAccepted(toks: seq<Token>, bs: seq<Block>)
    requires LastOp(toks).Signing? && OthersOk(toks) && bs != []
    requires KeysLeft(bs) && Flatten(bs) == SignersKeys(toks)
    ensures Run(toks).Some? && Finish(Run(toks).value) == Some(PairsOf(bs))
  {
    RunAgrees(toks);
    BlocksRead(bs);
    PairsNextBlock(bs);
  }

  /** The command signs with these pairs exactly when signing is the operation, every key option and recipient is in
      its place, and the signers and keys, at least one signer among them, can be cut into these pairs: each key
      next to its signer, before or after it. */
  lemma AcceptedIff(toks: seq<Token>, pairs: seq<Pair>)
    ensures Run(toks).Some? && Finish(Run(toks).value) == Some(pairs)
            <==> LastOp(toks).Signing? && OthersOk(toks) && pairs != [] && CutInto(toks, pairs)
  {
    RunAgrees(toks);
    if Run(toks).Some? && Finish(Run(toks).value) == Some(pairs) {
      AcceptedIsCut(toks);
    }
    if LastOp(toks).Signing? && OthersOk(toks) && pairs != [] && CutInto(toks, pairs) {
      var bs :| KeysLeft(bs) && Flatten(bs) == SignersKeys(toks) && PairsOf(bs) == pairs;
      CutIsAccepted(toks, bs);
    }
  }

  /** The key may come first. */
  lemma KeyThenSigner(s: string, k: string)
    ensures var toks := [Choose(Signing), Inkey(k), Token.Signer(s)];
            Run(toks).Some? && Finish(Run(toks).value) == Some([Pair(s, Some(k))])
  {
    var toks, b := [Choose(Signing), Inkey(k), Token.Signer(s)], Block(Pair(s, Some(k)), true);
    var t0, t1 := [Choose(Signing)], [Choose(Signing), Inkey(k)];
    SignersKeysNext([], Choose(Signing));
    SignersKeysNext(t0, Inkey(k));
    SignersKeysNext(t1, Token.Signer(s));
    assert [] + [Choose(Signing)] == t0 && t0 + [Inkey(k)] == t1 && t1 + [Token.Signer(s)] == toks;
    FlattenNext([], b);
    assert [] + [b] == [b] && SignersKeys(toks) == [Inkey(k), Token.Signer(s)] == Flatten([b]);
    CutIsAccepted(toks, [b]);
    assert PairsOf([b]) == [Pair(s, Some(k))];
  }

  // ----- key options of recipients -----

  /** The key options read while this many recipients are loaded. */
  function OptsAt(toks: seq<Token>, n: nat): seq<string> {
    if toks == [] then []
    else
      var init, t := toks[..|toks| - 1], toks[|toks| - 1];
      OptsAt(init, n) + if t.Keyopt? && Recips(init) == n then [t.opt] else []
  }

  /** Encryption is the operation whenever a key option is read. */
  ghost predicate ForRecips(toks: seq<Token>) {
    forall t :: 0 <= t < |toks| && toks[t].Keyopt? ==> LastOp(toks[..t]).Encrypt?
  }

  lemma ForRecipsInit(toks: seq<Token>)
    requires ForRecips(toks) && toks != []
    ensures ForRecips(toks[..|toks| - 1])
    ensures toks[|toks| - 1].Keyopt? ==> LastOp(toks[..|toks| - 1]).Encrypt?
  {
    var init := toks[..|toks| - 1];
    forall t | 0 <= t < |init| && init[t].Keyopt? ensures LastOp(init[..t]).Encrypt? {
      assert init[..t] == toks[..t] && init[t] == toks[t];
    }
  }

  lemma RecipStep(st: State, t: Token, i: int, bound: int)
    requires Step(st, t).Some? && Increasing(st.params, bound)
    requires t.Keyopt? ==> st.op.Encrypt? && KeyIdx(st) == bound
    ensures var st' := Step(st, t).value;
            && Increasing(st'.params, bound)
            && OptsOf(st'.params, i) == OptsOf(st.params, i) + if t.Keyopt? && i == bound then [t.opt] else []
  {
    if t.Keyopt? {
      AddParamFor(st.params, bound, t.opt, i);
    } else {
      assert OptsOf(st.params, i) + [] == OptsOf(st.params, i);
    }
  }

  lemma Widen(params: seq<Param>, a: int, b: int)
    requires Increasing(params, a) && a <= b
    ensures Increasing(params, b)
  {
  }

  /** When encrypting, a recipient's key options are exactly those read after it and before the next. */
  lemma {:induction false} RecipOpts(toks: seq<Token>, i: nat)
    requires Run(toks).Some? && ForRecips(toks)
    ensures Increasing(Run(toks).value.params, Recips(toks) - 1)
    ensures OptsOf(Run(toks).value.params, i) == OptsAt(toks, i + 1)
  {
    if toks != [] {
      var init, t := toks[..|toks| - 1], toks[|toks| - 1];
      ForRecipsInit(toks);
      RunAgrees(init);
      RecipOpts(init, i);
      RecipStep(Run(init).value, t, i, Recips(init) - 1);
      Widen(Run(toks).value.params, Recips(init) - 1, Recips(toks) - 1);
    }
  }
}
