/** How the cms command pairs -signer, -inkey and -keyopt options. */
module Cms {
  import opened CStrings

  datatype Operation = Unset | Encrypt | Signing | Other

  /** The options that matter here; Recip carries whether its certificate loads. */
  datatype Token =
    | Signer(file: string)
    | Inkey(file: string)
    | Keyopt(opt: string)
    | Recip(loads: bool)
    | Choose(op: Operation)

  /** A signer, and its key file unless it is the signer's own file. */
  datatype Pair = Pair(signer: string, key: Option<string>)

  datatype Param = Param(idx: int, opts: seq<string>)

  /** The pending signer and key, the finished pairs, the recipients loaded, and the key options by index. */
  datatype State = State(op: Operation, signer: Option<string>, key: Option<string>, pairs: seq<Pair>,
                         encerts: nat, params: seq<Param>)

  const START := State(Unset, None, None, [], 0, [])

  // ----- the option loop -----

  /** The signer or recipient a key option is for, or -1. */
  function KeyIdx(st: State): int {
    -1 + if st.op.Encrypt? then st.encerts
         else (if st.key.Some? || st.signer.Some? then 1 else 0) + |st.pairs|
  }

  function AddParam(params: seq<Param>, idx: int, opt: string): seq<Param> {
    var n := |params|;
    if n == 0 || params[n - 1].idx != idx then params + [Param(idx, [opt])]
    else params[..n - 1] + [Param(idx, params[n - 1].opts + [opt])]
  }

  function Step(st: State, t: Token): Option<State> {
    match t
    case Signer(f) =>
      Some(if st.signer.Some? then
             st.(pairs := st.pairs + [Pair(st.signer.value, st.key)], key := None, signer := Some(f))
           else st.(signer := Some(f)))
    case Inkey(f) =>
      if st.key.None? then Some(st.(key := Some(f)))
      else if st.signer.None? then None
      else Some(st.(pairs := st.pairs + [Pair(st.signer.value, st.key)], signer := None, key := Some(f)))
    case Keyopt(o) =>
      if KeyIdx(st) < 0 then None else Some(st.(params := AddParam(st.params, KeyIdx(st), o)))
    case Recip(loads) =>
      if !st.op.Encrypt? then Some(st)
      else if loads then Some(st.(encerts := st.encerts + 1)) else None
    case Choose(op) => Some(st.(op := op))
  }

  function Run(toks: seq<Token>): Option<State> {
    if toks == [] then Some(START)
    else
      var st := Run(toks[..|toks| - 1]);
      if st.None? then None else Step(st.value, toks[|toks| - 1])
  }

  /** The check after the loop, and the last pair. */
  function Finish(st: State): Option<seq<Pair>> {
    if !st.op.Signing? then None
    else if st.key.Some? && st.signer.None? then None
    else
      var pairs := st.pairs + if st.signer.Some? then [Pair(st.signer.value, st.key)] else [];
      if pairs == [] then None else Some(pairs)
  }

  /** What the loop over the signers finds for the i-th: the first entry with that index. */
  function Lookup(params: seq<Param>, i: int): Option<seq<string>> {
    if params == [] then None
    else if params[0].idx == i then Some(params[0].opts)
    else Lookup(params[1..], i)
  }

  // ----- what was on the command line -----

  function Signers(toks: seq<Token>): seq<string> {
    if toks == [] then []
    else Signers(toks[..|toks| - 1]) + if toks[|toks| - 1].Signer? then [toks[|toks| - 1].file] else []
  }

  function Inkeys(toks: seq<Token>): seq<string> {
    if toks == [] then []
    else Inkeys(toks[..|toks| - 1]) + if toks[|toks| - 1].Inkey? then [toks[|toks| - 1].file] else []
  }

  function PairSigners(pairs: seq<Pair>): (r: seq<string>)
    ensures |r| == |pairs|
  {
    if pairs == [] then [] else PairSigners(pairs[..|pairs| - 1]) + [pairs[|pairs| - 1].signer]
  }

  /** The key files of the pairs that have one of their own, in order. */
  function PairKeys(pairs: seq<Pair>): seq<string> {
    if pairs == [] then [] else PairKeys(pairs[..|pairs| - 1]) + OneOrNone(pairs[|pairs| - 1].key)
  }

  function OneOrNone(s: Option<string>): seq<string> {
    if s.Some? then [s.value] else []
  }

  /** The key options read while the signer with this index was the pending one. */
  function OptsFor(toks: seq<Token>, i: int): seq<string> {
    if toks == [] then []
    else
      var init, t := toks[..|toks| - 1], toks[|toks| - 1];
      var st := Run(init);
      OptsFor(init, i) + if t.Keyopt? && st.Some? && |st.value.pairs| == i then [t.opt] else []
  }

  /** The encrypting operation is not the one chosen when a key option is read. */
  ghost predicate ForSigners(toks: seq<Token>) {
    forall t :: 0 <= t < |toks| && toks[t].Keyopt? && Run(toks[..t]).Some? ==> !Run(toks[..t]).value.op.Encrypt?
  }

  // ----- every option is used once, in order -----

  lemma PairsNext(pairs: seq<Pair>, p: Pair)
    ensures PairSigners(pairs + [p]) == PairSigners(pairs) + [p.signer]
    ensures PairKeys(pairs + [p]) == PairKeys(pairs) + OneOrNone(p.key)
  {
    assert (pairs + [p])[..|pairs|] == pairs;
  }

  function AllSigners(st: State): seq<string> {
    PairSigners(st.pairs) + OneOrNone(st.signer)
  }

  function AllKeys(st: State): seq<string> {
    PairKeys(st.pairs) + OneOrNone(st.key)
  }

  lemma StepSigners(st: State, t: Token)
    requires Step(st, t).Some?
    ensures AllSigners(Step(st, t).value) == AllSigners(st) + if t.Signer? then [t.file] else []
  {
    var st' := Step(st, t).value;
    if st'.pairs != st.pairs {
      PairsNext(st.pairs, Pair(st.signer.value, st.key));
    }
    assert AllSigners(st) + [] == AllSigners(st);
  }

  lemma StepKeys(st: State, t: Token)
    requires Step(st, t).Some?
    ensures AllKeys(Step(st, t).value) == AllKeys(st) + if t.Inkey? then [t.file] else []
  {
    var st' := Step(st, t).value;
    if st'.pairs != st.pairs {
      PairsNext(st.pairs, Pair(st.signer.value, st.key));
    }
    assert AllKeys(st) + [] == AllKeys(st);
  }

  /** The lists so far, with what is pending, are the arguments so far. */
  lemma {:induction false} ListsAreArguments(toks: seq<Token>)
    requires Run(toks).Some?
    ensures AllSigners(Run(toks).value) == Signers(toks) && AllKeys(Run(toks).value) == Inkeys(toks)
  {
    if toks != [] {
      ListsAreArguments(toks[..|toks| - 1]);
      StepSigners(Run(toks[..|toks| - 1]).value, toks[|toks| - 1]);
      StepKeys(Run(toks[..|toks| - 1]).value, toks[|toks| - 1]);
    }
  }

  /** On success the signers are the -signer arguments, and the keys used are the -inkey arguments, in order. */
  lemma SignersAndKeys(toks: seq<Token>)
    requires Run(toks).Some? && Finish(Run(toks).value).Some?
    ensures var pairs := Finish(Run(toks).value).value;
            PairSigners(pairs) == Signers(toks) && PairKeys(pairs) == Inkeys(toks)
  {
    var st := Run(toks).value;
    ListsAreArguments(toks);
    if st.signer.Some? {
      PairsNext(st.pairs, Pair(st.signer.value, st.key));
    } else {
      assert st.pairs + [] == st.pairs && PairSigners(st.pairs) + [] == PairSigners(st.pairs);
      assert PairKeys(st.pairs) + [] == PairKeys(st.pairs);
    }
  }

  // ----- key options -----

  ghost predicate Increasing(params: seq<Param>, bound: int) {
    && (forall i :: 0 <= i < |params| ==> params[i].idx <= bound)
    && (forall i, j :: 0 <= i < j < |params| ==> params[i].idx < params[j].idx)
  }

  lemma {:induction false} LookupAppend(params: seq<Param>, p: Param, i: int)
    ensures Lookup(params + [p], i)
            == if Lookup(params, i).Some? then Lookup(params, i) else if p.idx == i then Some(p.opts) else None
  {
    if params != [] {
      assert (params + [p])[1..] == params[1..] + [p];
      LookupAppend(params[1..], p, i);
    } else {
      assert ([p])[1..] == [];
      assert params + [p] == [p];
    }
  }

  lemma {:induction false} LookupAbove(params: seq<Param>, i: int)
    requires forall k :: 0 <= k < |params| ==> params[k].idx < i
    ensures Lookup(params, i) == None
  {
    if params != [] { LookupAbove(params[1..], i); }
  }

  function OptsOf(params: seq<Param>, i: int): seq<string> {
    if Lookup(params, i).Some? then Lookup(params, i).value else []
  }

  /** A key option goes to its index and to no other, as long as indices never fall. */
  lemma AddParamFor(params: seq<Param>, idx: int, opt: string, i: int)
    requires Increasing(params, idx)
    ensures Increasing(AddParam(params, idx, opt), idx)
    ensures OptsOf(AddParam(params, idx, opt), i) == OptsOf(params, i) + if i == idx then [opt] else []
  {
    var n := |params|;
    if n == 0 || params[n - 1].idx != idx {
      LookupAppend(params, Param(idx, [opt]), i);
      LookupAbove(params, idx);
    } else {
      var init, last := params[..n - 1], params[n - 1];
      assert params == init + [last];
      LookupAppend(init, last, i);
      LookupAppend(init, Param(idx, last.opts + [opt]), i);
      LookupAbove(init, idx);
    }
  }

  lemma ForSignersInit(toks: seq<Token>)
    requires ForSigners(toks) && toks != []
    ensures ForSigners(toks[..|toks| - 1])
    ensures toks[|toks| - 1].Keyopt? && Run(toks[..|toks| - 1]).Some? ==> !Run(toks[..|toks| - 1]).value.op.Encrypt?
  {
    var init := toks[..|toks| - 1];
    forall t | 0 <= t < |init| && init[t].Keyopt? && Run(init[..t]).Some?
      ensures !Run(init[..t]).value.op.Encrypt?
    {
      assert init[..t] == toks[..t] && init[t] == toks[t];
    }
  }

  /** Once there is a pair there is also something pending. */
  lemma {:induction false} Pending(toks: seq<Token>)
    requires Run(toks).Some? && Run(toks).value.pairs != []
    ensures Run(toks).value.signer.Some? || Run(toks).value.key.Some?
  {
    var init := toks[..|toks| - 1];
    if Run(init).value.pairs != [] { Pending(init); }
  }

  lemma StepParams(st: State, t: Token, i: int)
    requires Step(st, t).Some? && Increasing(st.params, |st.pairs|) && (t.Keyopt? ==> KeyIdx(st) == |st.pairs|)
    ensures var st' := Step(st, t).value;
            && Increasing(st'.params, |st'.pairs|)
            && OptsOf(st'.params, i) == OptsOf(st.params, i) + if t.Keyopt? && |st.pairs| == i then [t.opt] else []
  {
    if t.Keyopt? {
      AddParamFor(st.params, |st.pairs|, t.opt, i);
    } else {
      assert OptsOf(st.params, i) + [] == OptsOf(st.params, i);
    }
  }

  /** The entries have increasing indices, up to the pending signer's, and the i-th signer's are exactly the key
      options read while it was pending. */
  lemma {:induction false} KeyoptsReach(toks: seq<Token>, i: int)
    requires Run(toks).Some? && ForSigners(toks)
    ensures Increasing(Run(toks).value.params, |Run(toks).value.pairs|)
    ensures OptsOf(Run(toks).value.params, i) == OptsFor(toks, i)
  {
    if toks != [] {
      var init, t := toks[..|toks| - 1], toks[|toks| - 1];
      ForSignersInit(toks);
      KeyoptsReach(init, i);
      var st0 := Run(init).value;
      if t.Keyopt? && st0.pairs != [] { Pending(init); }
      StepParams(st0, t, i);
    }
  }

  /** The pair that is being put together is, in the end, the one with the next index, with what it had. */
  ghost predicate Completes(st: State, pairs: seq<Pair>) {
    && st.pairs <= pairs
    && (st.signer.Some? || st.key.Some? ==> |st.pairs| < |pairs|)
    && (st.signer.Some? ==> pairs[|st.pairs|].signer == st.signer.value)
    && (st.key.Some? ==> pairs[|st.pairs|].key == st.key)
  }

  lemma StepCompletes(st: State, t: Token, pairs: seq<Pair>)
    requires Step(st, t).Some? && Completes(Step(st, t).value, pairs)
    ensures Completes(st, pairs)
  {
    var st' := Step(st, t).value;
    if |st'.pairs| > |st.pairs| {
      assert pairs[|st.pairs|] == st'.pairs[|st.pairs|];
    }
  }

  /** Whatever is pending at some point of a run that succeeds ends up in the pair with the index of that point. */
  lemma {:induction false} PendingCompletes(toks: seq<Token>, n: nat, pairs: seq<Pair>)
    requires n <= |toks| && Run(toks).Some? && Completes(Run(toks).value, pairs)
    ensures Run(toks[..n]).Some? && Completes(Run(toks[..n]).value, pairs)
    decreases |toks|
  {
    if n == |toks| {
      assert toks[..n] == toks;
    } else {
      var init := toks[..|toks| - 1];
      StepCompletes(Run(init).value, toks[|toks| - 1], pairs);
      PendingCompletes(init, n, pairs);
      assert init[..n] == toks[..n];
    }
  }

  /** A key option read at some point is for the pair then pending. */
  lemma KeyoptIsPending(toks: seq<Token>, n: nat)
    requires n < |toks| && toks[n].Keyopt? && ForSigners(toks)
    requires Run(toks).Some? && Finish(Run(toks).value).Some?
    ensures Run(toks[..n]).Some?
    ensures var st, pairs := Run(toks[..n]).value, Finish(Run(toks).value).value;
            && |st.pairs| < |pairs| && KeyIdx(st) == |st.pairs|
            && (st.signer.Some? ==> pairs[|st.pairs|].signer == st.signer.value)
            && (st.key.Some? ==> pairs[|st.pairs|].key == st.key)
  {
    var pairs := Finish(Run(toks).value).value;
    assert Completes(Run(toks).value, pairs);
    PendingCompletes(toks, n, pairs);
    PendingCompletes(toks, n + 1, pairs);
    assert toks[..n + 1][..n] == toks[..n] && toks[..n + 1][n] == toks[n];
    if Run(toks[..n]).value.pairs != [] { Pending(toks[..n]); }
  }

  // ----- the usual way of writing it -----

  datatype Group = Group(signer: string, key: Option<string>, opts: seq<string>)

  function Keyopts(opts: seq<string>): seq<Token> {
    if opts == [] then [] else Keyopts(opts[..|opts| - 1]) + [Keyopt(opts[|opts| - 1])]
  }

  function RenderHead(g: Group): seq<Token> {
    [Token.Signer(g.signer)] + if g.key.Some? then [Inkey(g.key.value)] else []
  }

  function RenderGroup(g: Group): seq<Token> {
    RenderHead(g) + Keyopts(g.opts)
  }

  function Render(gs: seq<Group>): seq<Token> {
    if gs == [] then [Choose(Signing)] else Render(gs[..|gs| - 1]) + RenderGroup(gs[|gs| - 1])
  }

  function GroupPairs(gs: seq<Group>): (r: seq<Pair>)
    ensures |r| == |gs|
  {
    if gs == [] then [] else GroupPairs(gs[..|gs| - 1]) + [Pair(gs[|gs| - 1].signer, gs[|gs| - 1].key)]
  }

  lemma RunNext(toks: seq<Token>, t: Token)
    requires Run(toks).Some?
    ensures Run(toks + [t]) == Step(Run(toks).value, t)
  {
    assert (toks + [t])[..|toks|] == toks;
  }

  function AddAll(params: seq<Param>, idx: int, opts: seq<string>): seq<Param> {
    if opts == [] then params else AddParam(AddAll(params, idx, opts[..|opts| - 1]), idx, opts[|opts| - 1])
  }

  /** Key options only touch the entry of their index. */
  lemma {:induction false} AddAllFor(params: seq<Param>, idx: int, opts: seq<string>, i: int)
    requires Increasing(params, idx)
    ensures Increasing(AddAll(params, idx, opts), idx)
    ensures OptsOf(AddAll(params, idx, opts), i) == OptsOf(params, i) + if i == idx then opts else []
    decreases |opts|
  {
    if opts != [] {
      var init, o := opts[..|opts| - 1], opts[|opts| - 1];
      AddAllFor(params, idx, init, i);
      AddParamFor(AddAll(params, idx, init), idx, o, i);
      assert i == idx ==> OptsOf(params, i) + init + [o] == OptsOf(params, i) + opts;
    }
  }

  lemma StepKeyopt(st: State, o: string)
    requires !st.op.Encrypt? && st.signer.Some?
    ensures Step(st, Keyopt(o)) == Some(st.(params := AddParam(st.params, |st.pairs|, o)))
  {
  }

  lemma {:induction false} RunKeyopts(toks: seq<Token>, all: seq<Token>, opts: seq<string>, st: State)
    requires Run(toks) == Some(st) && !st.op.Encrypt? && st.signer.Some? && all == toks + Keyopts(opts)
    ensures Run(all) == Some(st.(params := AddAll(st.params, |st.pairs|, opts)))
    decreases |opts|
  {
    if opts == [] {
      assert all == toks;
    } else {
      var init, o := opts[..|opts| - 1], opts[|opts| - 1];
      var most := toks + Keyopts(init);
      RunKeyopts(toks, most, init, st);
      RunNext(most, Keyopt(o));
      StepKeyopt(st.(params := AddAll(st.params, |st.pairs|, init)), o);
      assert all == most + [Keyopt(o)];
    }
  }

  function Pairs(st: State): seq<Pair> {
    st.pairs + if st.signer.Some? then [Pair(st.signer.value, st.key)] else []
  }

  lemma RunHead(toks: seq<Token>, g: Group)
    requires Run(toks).Some? && (Run(toks).value.signer.None? ==> Run(toks).value.key.None?)
    ensures var st := Run(toks).value;
            Run(toks + RenderHead(g)) == Some(st.(pairs := Pairs(st), signer := Some(g.signer), key := g.key))
  {
    var st := Run(toks).value;
    assert st.signer.None? ==> st.pairs + [] == st.pairs;
    RunNext(toks, Token.Signer(g.signer));
    var t1 := toks + [Token.Signer(g.signer)];
    if g.key.Some? {
      RunNext(t1, Inkey(g.key.value));
      assert t1 + [Inkey(g.key.value)] == toks + RenderHead(g);
    } else {
      assert t1 == toks + RenderHead(g);
    }
  }

  /** After a group its signer and key are pending, and its key options are its own. */
  lemma RunGroup(toks: seq<Token>, head: seq<Token>, all: seq<Token>, g: Group, i: int)
    requires head == toks + RenderHead(g) && all == head + Keyopts(g.opts)
    requires Run(toks).Some? && Run(toks).value.op.Signing?
    requires Run(toks).value.signer.None? ==> Run(toks).value.key.None?
    requires Increasing(Run(toks).value.params, |Pairs(Run(toks).value)| - 1)
    ensures Run(all).Some?
    ensures var st, st' := Run(toks).value, Run(all).value;
            && st' == State(st.op, Some(g.signer), g.key, Pairs(st), st.encerts, st'.params)
            && Increasing(st'.params, |Pairs(st)|)
            && OptsOf(st'.params, i) == OptsOf(st.params, i) + if i == |Pairs(st)| then g.opts else []
  {
    RunHead(toks, g);
    var st := Run(head).value;
    RunKeyopts(head, all, g.opts, st);
    AddAllFor(st.params, |st.pairs|, g.opts, i);
  }

  function GroupOpts(gs: seq<Group>, i: int): seq<string> {
    if 0 <= i < |gs| then gs[i].opts else []
  }

  lemma {:induction false} RunRender(gs: seq<Group>, i: int)
    ensures Run(Render(gs)).Some?
    ensures var st := Run(Render(gs)).value;
            && st.op.Signing? && (st.signer.None? ==> st.key.None?)
            && (st.signer.Some? <==> gs != [])
            && Increasing(st.params, |gs| - 1) && Pairs(st) == GroupPairs(gs)
            && OptsOf(st.params, i) == GroupOpts(gs, i)
  {
    if gs == [] {
      RunNext([], Choose(Signing));
      assert [] + [Choose(Signing)] == Render(gs);
    } else {
      var init, g := gs[..|gs| - 1], gs[|gs| - 1];
      RunRender(init, i);
      var head := Render(init) + RenderHead(g);
      assert Render(gs) == head + Keyopts(g.opts);
      RunGroup(Render(init), head, Render(gs), g, i);
    }
  }

  /** A command line of groups, each a signer, perhaps its key, and its key options, is read as those groups. */
  lemma FinishUndoesRender(gs: seq<Group>, i: int)
    requires gs != []
    ensures Run(Render(gs)).Some? && Finish(Run(Render(gs)).value) == Some(GroupPairs(gs))
    ensures OptsOf(Run(Render(gs)).value.params, i) == GroupOpts(gs, i)
  {
    RunRender(gs, i);
  }
}
