/** The cms command's option loop on its variables, two stacks and linked list. */
module CmsArgs {
  import opened CStrings
  import opened Cms

  /** cms_key_param; pos is its place in the list. */
  class KeyParam {
    const idx: int
    ghost const pos: nat
    var param: seq<string>
    var next: KeyParam?

    constructor (idx: int, ghost pos: nat)
      ensures this.idx == idx && this.pos == pos && param == [] && next == null
    {
      this.idx, this.pos, param, next := idx, pos, [], null;
    }
  }

  /** The list from key_first to key_param. */
  class ParamList {
    var first: KeyParam?
    var last: KeyParam?
    ghost var nodes: seq<KeyParam>

    ghost predicate Linked(i: nat)
      requires i < |nodes|
      reads this, nodes
    {
      nodes[i].pos == i && nodes[i].next == if i + 1 < |nodes| then nodes[i + 1] else null
    }

    ghost predicate Valid()
      reads this, nodes
    {
      && first == (if nodes == [] then null else nodes[0])
      && last == (if nodes == [] then null else nodes[|nodes| - 1])
      && forall i {:trigger Linked(i)} :: 0 <= i < |nodes| ==> Linked(i)
    }

    ghost function Val(): (r: seq<Param>)
      reads this, nodes
      ensures |r| == |nodes| && forall i :: 0 <= i < |r| ==> r[i] == Param(nodes[i].idx, nodes[i].param)
    {
      seq(|nodes|, i requires 0 <= i < |nodes| reads this, nodes => Param(nodes[i].idx, nodes[i].param))
    }

    constructor ()
      ensures Valid() && Val() == [] && nodes == []
    {
      first, last, nodes := null, null, [];
    }

    method Append(idx: int)
      requires Valid()
      modifies this, last
      ensures Valid() && Val() == old(Val()) + [Param(idx, [])] && fresh(last)
      ensures nodes == old(nodes) + [last]
    {
      var nparam := new KeyParam(idx, |nodes|);
      ghost var before := nodes;
      forall i | 0 <= i < |nodes| ensures nodes[i].pos == i { assert Linked(i); }
      if first == null {
        first := nparam;
      } else {
        last.next := nparam;
      }
      last, nodes := nparam, nodes + [nparam];
      forall i | 0 <= i < |nodes| ensures Linked(i) {
        if i < |before| { assert old(Linked(i)); }
      }
    }

    /** Pushes an option on the last entry. */
    method Push(opt: string)
      requires Valid() && last != null
      modifies last
      ensures Valid() && nodes == old(nodes)
      ensures var vals := old(Val()); var n := |vals| - 1;
              Val() == vals[..n] + [Param(vals[n].idx, vals[n].opts + [opt])]
    {
      ghost var vals, n := Val(), |nodes| - 1;
      forall i | 0 <= i < |nodes| ensures nodes[i].pos == i { assert Linked(i); }
      last.param := last.param + [opt];
      forall i | 0 <= i < |nodes| ensures Linked(i) {
        assert old(Linked(i));
      }
      forall i | 0 <= i < n ensures Val()[i] == vals[i] {}
    }

    method Add(idx: int, opt: string)
      requires Valid()
      modifies this, last
      ensures Valid() && Val() == AddParam(old(Val()), idx, opt)
      ensures forall i :: 0 <= i < |nodes| ==> nodes[i] in old(nodes) || fresh(nodes[i])
    {
      ghost var vals := Val();
      if last == null || last.idx != idx {
        Append(idx);
        assert Val()[..|vals|] == vals;
      }
      ghost var most := Val();
      Push(opt);
      assert [] + [opt] == [opt];
      assert Val() == most[..|most| - 1] + [Param(idx, most[|most| - 1].opts + [opt])];
    }

    /** The walk for the i-th signer. */
    method Find(i: int) returns (r: Option<seq<string>>)
      requires Valid()
      ensures r == Lookup(Val(), i)
    {
      var kparam := first;
      ghost var k := 0;
      assert Val()[0..] == Val();
      while kparam != null
        invariant k <= |nodes| && kparam == (if k < |nodes| then nodes[k] else null)
        invariant Lookup(Val(), i) == Lookup(Val()[k..], i)
        decreases |nodes| - k
      {
        assert Linked(k);
        if kparam.idx == i {
          return Some(kparam.param);
        }
        assert Val()[k..][1..] == Val()[k + 1..];
        kparam, k := kparam.next, k + 1;
      }
      r := None;
    }
  }

  /** The key file of each pair. */
  function KeyFiles(pairs: seq<Pair>): (r: seq<string>)
    ensures |r| == |pairs|
  {
    if pairs == [] then []
    else
      var p := pairs[|pairs| - 1];
      KeyFiles(pairs[..|pairs| - 1]) + [if p.key.Some? then p.key.value else p.signer]
  }

  lemma {:induction false} KeyFilesAre(pairs: seq<Pair>)
    ensures forall i :: 0 <= i < |pairs| ==>
              KeyFiles(pairs)[i] == if pairs[i].key.Some? then pairs[i].key.value else pairs[i].signer
  {
    if pairs != [] { KeyFilesAre(pairs[..|pairs| - 1]); }
  }

  lemma {:induction false} PairSignersAre(pairs: seq<Pair>)
    ensures forall i :: 0 <= i < |pairs| ==> PairSigners(pairs)[i] == pairs[i].signer
  {
    if pairs != [] { PairSignersAre(pairs[..|pairs| - 1]); }
  }

  lemma ListsNext(pairs: seq<Pair>, p: Pair)
    ensures PairSigners(pairs + [p]) == PairSigners(pairs) + [p.signer]
    ensures KeyFiles(pairs + [p]) == KeyFiles(pairs) + [if p.key.Some? then p.key.value else p.signer]
  {
    assert (pairs + [p])[..|pairs|] == pairs;
  }

  lemma EndLists(st: State, p: Pair)
    requires st.signer.Some? ==> p == Pair(st.signer.value, st.key)
    requires st.op.Signing? && !(st.key.Some? && st.signer.None?)
    ensures Finish(st).Some? <==> st.pairs != [] || st.signer.Some?
    ensures Finish(st).Some? ==>
              && PairSigners(Finish(st).value) == PairSigners(st.pairs) + (if st.signer.Some? then [p.signer] else [])
              && KeyFiles(Finish(st).value)
                 == KeyFiles(st.pairs) + if st.signer.Some? then [if p.key.Some? then p.key.value else p.signer] else []
  {
    ListsNext(st.pairs, p);
    assert st.pairs + [] == st.pairs && PairSigners(st.pairs) + [] == PairSigners(st.pairs);
    assert KeyFiles(st.pairs) + [] == KeyFiles(st.pairs);
  }

  /** The key options of the first n signers. */
  method FindAll(params: ParamList, n: nat) returns (opts: seq<Option<seq<string>>>)
    requires params.Valid()
    ensures |opts| == n && forall i :: 0 <= i < n ==> opts[i] == Lookup(params.Val(), i)
  {
    opts := [];
    for i := 0 to n
      invariant |opts| == i && forall k :: 0 <= k < i ==> opts[k] == Lookup(params.Val(), k)
    {
      var o := params.Find(i);
      opts := opts + [o];
    }
  }

  /** The variables of the option loop; pairs remembers which keys were given. */
  class Args {
    var operation: Operation
    var signerfile: Option<string>
    var keyfile: Option<string>
    var sksigners: seq<string>
    var skkeys: seq<string>
    var encerts: nat
    const params: ParamList
    ghost var pairs: seq<Pair>

    ghost predicate Valid()
      reads this, params, params.nodes
    {
      params.Valid() && sksigners == PairSigners(pairs) && skkeys == KeyFiles(pairs)
    }

    ghost function Val(): State
      reads this, params, params.nodes
    {
      State(operation, signerfile, keyfile, pairs, encerts, params.Val())
    }

    constructor ()
      ensures Valid() && Val() == START && fresh(params) && params.nodes == []
    {
      operation, signerfile, keyfile, sksigners, skkeys, encerts, pairs := Unset, None, None, [], [], 0, [];
      params := new ParamList();
    }

    method OnSigner(arg: string)
      requires Valid()
      modifies this
      ensures Valid() && Some(Val()) == Step(old(Val()), Token.Signer(arg))
    {
      ghost var before := Val();
      if signerfile.Some? {
        PushSigner();
        keyfile := None;
        signerfile := Some(arg);
        assert params.Val() == before.params;
      } else {
        signerfile := Some(arg);
        assert params.Val() == before.params;
      }
    }

    /** Finishes the pending pair; a signer without a key is paired with its own file. */
    method PushSigner()
      requires Valid() && signerfile.Some?
      modifies this
      ensures Valid() && operation == old(operation) && encerts == old(encerts) && signerfile == old(signerfile)
      ensures pairs == old(pairs) + [Pair(old(signerfile).value, old(keyfile))]
      ensures params.Val() == old(params.Val())
    {
      ListsNext(pairs, Pair(signerfile.value, keyfile));
      pairs := pairs + [Pair(signerfile.value, keyfile)];
      sksigners := sksigners + [signerfile.value];
      if keyfile.None? {
        keyfile := signerfile;
      }
      skkeys := skkeys + [keyfile.value];
    }

    /** Finishes the pending pair, which has a key. */
    method PushKeyed()
      requires Valid() && signerfile.Some? && keyfile.Some?
      modifies this
      ensures Valid() && operation == old(operation) && encerts == old(encerts) && signerfile.None?
      ensures pairs == old(pairs) + [Pair(old(signerfile).value, old(keyfile))]
      ensures params.Val() == old(params.Val())
    {
      ListsNext(pairs, Pair(signerfile.value, keyfile));
      pairs := pairs + [Pair(signerfile.value, keyfile)];
      sksigners := sksigners + [signerfile.value];
      signerfile := None;
      skkeys := skkeys + [keyfile.value];
    }

    method OnInkey(arg: string) returns (ok: bool)
      requires Valid()
      modifies this
      ensures ok <==> Step(old(Val()), Inkey(arg)).Some?
      ensures ok ==> Valid() && Some(Val()) == Step(old(Val()), Inkey(arg))
    {
      if keyfile.Some? {
        if signerfile.None? {
          return false;
        }
        PushKeyed();
      }
      keyfile := Some(arg);
      ok := true;
    }

    /** The index a key option is for. */
    method KeyIndex() returns (keyidx: int)
      requires Valid()
      ensures keyidx == KeyIdx(Val())
    {
      keyidx := -1;
      if operation.Encrypt? {
        keyidx := keyidx + encerts;
      } else {
        if keyfile.Some? || signerfile.Some? {
          keyidx := keyidx + 1;
        }
        keyidx := keyidx + |skkeys|;
      }
    }

    method OnKeyopt(arg: string) returns (ok: bool)
      requires Valid()
      modifies params, params.last
      ensures ok <==> Step(old(Val()), Keyopt(arg)).Some?
      ensures ok ==> Valid() && Some(Val()) == Step(old(Val()), Keyopt(arg))
      ensures forall i :: 0 <= i < |params.nodes| ==> params.nodes[i] in old(params.nodes) || fresh(params.nodes[i])
    {
      var keyidx := KeyIndex();
      if keyidx < 0 {
        return false;
      }
      params.Add(keyidx, arg);
      ok := true;
    }

    /** The check after the loop; on success the two stacks are the signers and their keys. */
    method OnEnd() returns (ok: bool)
      requires Valid()
      modifies this
      ensures ok <==> Finish(old(Val())).Some?
      ensures ok ==> var pairs := Finish(old(Val())).value; sksigners == PairSigners(pairs) && skkeys == KeyFiles(pairs)
      ensures params.Valid() && params.Val() == old(params.Val())
    {
      if !operation.Signing? {
        return false;
      }
      if keyfile.Some? && signerfile.None? {
        return false;
      }
      ghost var p := Pair("", keyfile);
      if signerfile.Some? {
        p := Pair(signerfile.value, keyfile);
        sksigners := sksigners + [signerfile.value];
        if keyfile.None? {
          keyfile := signerfile;
        }
        skkeys := skkeys + [keyfile.value];
      }
      EndLists(old(Val()), p);
      ok := sksigners != [];
      signerfile, keyfile := None, None;
    }

    /** The signers, their key files, and the key options found for each. */
    method Conclude()
      returns (ok: bool, signers: seq<string>, keys: seq<string>, opts: seq<Option<seq<string>>>)
      requires Valid()
      modifies this
      ensures ok <==> Finish(old(Val())).Some?
      ensures ok ==> signers == PairSigners(Finish(old(Val())).value) && keys == KeyFiles(Finish(old(Val())).value)
      ensures ok ==> |opts| == |signers| && forall i :: 0 <= i < |opts| ==> opts[i] == Lookup(old(Val()).params, i)
    {
      opts := [];
      ghost var st := Val();
      ok := OnEnd();
      assert params.Val() == st.params;
      signers, keys := sksigners, skkeys;
      if ok {
        opts := FindAll(params, |signers|);
      }
    }

    /** One option. */
    method Read(t: Token) returns (ok: bool)
      requires Valid()
      modifies this, params, params.last
      ensures ok <==> Step(old(Val()), t).Some?
      ensures ok ==> Valid() && Some(Val()) == Step(old(Val()), t)
      ensures forall i :: 0 <= i < |params.nodes| ==> params.nodes[i] in old(params.nodes) || fresh(params.nodes[i])
    {
      ok := true;
      match t
      case Signer(f) => OnSigner(f);
      case Inkey(f) => ok := OnInkey(f);
      case Keyopt(o) => ok := OnKeyopt(o);
      case Recip(loads) =>
        if operation.Encrypt? {
          ok := loads;
          encerts := encerts + if loads then 1 else 0;
        }
      case Choose(op) => operation := op;
    }
  }

  lemma RunPrefix(toks: seq<Token>, n: nat, st: State)
    requires n < |toks| && Run(toks[..n]) == Some(st)
    ensures Run(toks[..n + 1]) == Step(st, toks[n])
    ensures Step(st, toks[n]).None? ==> Run(toks).None?
  {
    assert toks[..n + 1][..n] == toks[..n];
    RunStops(toks, n + 1);
  }

  /** The option loop. */
  method ReadAll(toks: seq<Token>) returns (ok: bool, a: Args)
    ensures fresh(a) && fresh(a.params)
    ensures ok <==> Run(toks).Some?
    ensures ok ==> a.Valid() && Some(a.Val()) == Run(toks)
  {
    a := new Args();
    ghost var st := START;
    for n := 0 to |toks|
      invariant fresh(a) && fresh(a.params) && forall i :: 0 <= i < |a.params.nodes| ==> fresh(a.params.nodes[i])
      invariant a.Valid() && a.Val() == st && Run(toks[..n]) == Some(st)
    {
      RunPrefix(toks, n, st);
      ok := a.Read(toks[n]);
      if !ok {
        return;
      }
      st := Step(st, toks[n]).value;
    }
    assert toks[..|toks|] == toks;
    ok := true;
  }

  lemma {:induction false} RunStops(toks: seq<Token>, n: nat)
    requires n <= |toks|
    ensures Run(toks[..n]).None? ==> Run(toks).None?
    decreases |toks|
  {
    if n < |toks| {
      assert toks[..|toks| - 1][..n] == toks[..n];
      RunStops(toks[..|toks| - 1], n);
    } else {
      assert toks[..n] == toks;
    }
  }

  /** The whole command line. */
  method SigningCommand(toks: seq<Token>)
    returns (ok: bool, signers: seq<string>, keys: seq<string>, opts: seq<Option<seq<string>>>)
    ensures ok <==> Run(toks).Some? && Finish(Run(toks).value).Some?
    ensures ok ==> var pairs := Finish(Run(toks).value).value;
                   && |signers| == |keys| == |opts| == |pairs|
                   && (forall i :: 0 <= i < |pairs| ==> signers[i] == pairs[i].signer)
                   && (forall i :: 0 <= i < |pairs| ==>
                         keys[i] == if pairs[i].key.Some? then pairs[i].key.value else pairs[i].signer)
                   && (forall i :: 0 <= i < |pairs| ==> opts[i] == Lookup(Run(toks).value.params, i))
  {
    signers, keys, opts := [], [], [];
    var a;
    ok, a := ReadAll(toks);
    if ok {
      ok, signers, keys, opts := a.Conclude();
      if ok {
        KeyFilesAre(Finish(Run(toks).value).value);
        PairSignersAre(Finish(Run(toks).value).value);
      }
    }
  }
}
