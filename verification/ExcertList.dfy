/** The extended certificates as the doubly linked list they are kept in, newest first. */
module ExcertList {
  import opened CStrings
  import opened Excert

  /** ssl_excert_st; pos counts from the oldest. */
  class Node {
    ghost const pos: nat
    var group: Group
    var next: Node?
    var prev: Node?

    constructor (group: Group, next: Node?, ghost pos: nat)
      ensures this.group == group && this.next == next && prev == null && this.pos == pos
    {
      this.group, this.next, this.prev, this.pos := group, next, null, pos;
    }
  }

  class List {
    var head: Node?
    ghost var nodes: seq<Node>

    /** next leads to the older neighbour, prev to the newer one. */
    ghost predicate Linked(i: nat)
      requires i < |nodes|
      reads this, nodes
    {
      && nodes[i].pos == i
      && nodes[i].next == (if i > 0 then nodes[i - 1] else null)
      && nodes[i].prev == (if i + 1 < |nodes| then nodes[i + 1] else null)
    }

    ghost predicate Valid()
      reads this, nodes
    {
      && head == (if nodes == [] then null else nodes[|nodes| - 1])
      && forall i {:trigger Linked(i)} :: 0 <= i < |nodes| ==> Linked(i)
    }

    /** The groups, oldest first. */
    ghost function Val(): (r: seq<Group>)
      reads this, nodes
      ensures |r| == |nodes| && forall i :: 0 <= i < |r| ==> r[i] == nodes[i].group
    {
      seq(|nodes|, i requires 0 <= i < |nodes| reads this, nodes => nodes[i].group)
    }

    constructor ()
      ensures Valid() && Val() == [] && nodes == []
    {
      head, nodes := null, [];
    }

    /** ssl_excert_prepend. */
    method Prepend()
      requires Valid()
      modifies this, head
      ensures Valid() && Val() == Prepended(old(Val()))
      ensures fresh(head) && nodes == old(nodes) + [head]
    {
      ghost var before := nodes;
      forall i | 0 <= i < |nodes| ensures nodes[i].pos == i { assert Linked(i); }
      var form := if head != null then head.group.certform else FORMAT_PEM;
      var kform := if head != null then head.group.keyform else FORMAT_PEM;
      var exc := new Node(Group(form, None, kform, None, None, false), head, |nodes|);
      if head != null {
        head.prev := exc;
      }
      head, nodes := exc, nodes + [exc];
      forall i | 0 <= i < |nodes| ensures Linked(i) {
        if i < |before| { assert old(Linked(i)); }
      }
    }

    /** Sets a field of the newest group. */
    method Set(g: Group)
      requires Valid() && head != null
      modifies head
      ensures Valid() && nodes == old(nodes) && Val() == Change(old(Val()), g)
    {
      ghost var vals := Val();
      forall i | 0 <= i < |nodes| ensures nodes[i].pos == i { assert Linked(i); }
      head.group := g;
      forall i | 0 <= i < |nodes| ensures Linked(i) { assert old(Linked(i)); }
      assert forall i :: 0 <= i < |nodes| ==> Val()[i] == Change(vals, g)[i];
    }

    /** args_excert: what an error leaves is no list at all, unless it is a format that does not parse. */
    method ArgsExcert(o: Opt) returns (ok: bool)
      requires Valid()
      modifies this, head
      ensures Valid()
      ensures ok <==> Step(old(Val()), o).Some?
      ensures Val() == if ok then Step(old(Val()), o).value
                       else if o.XKey? || o.XChain? then []
                       else if old(Val()) == [] then Prepended([]) else old(Val())
      ensures forall i :: 0 <= i < |nodes| ==> nodes[i] in old(nodes) || fresh(nodes[i])
    {
      if head == null {
        Prepend();
      }
      match o {
        case XCert(f) =>
          if head.group.certfile.Some? {
            Prepend();
          }
          Set(head.group.(certfile := Some(f)));
        case XKey(f) =>
          if head.group.keyfile.Some? {
            head, nodes := null, [];
            return false;
          }
          Set(head.group.(keyfile := Some(f)));
        case XChain(f) =>
          if head.group.chainfile.Some? {
            head, nodes := null, [];
            return false;
          }
          Set(head.group.(chainfile := Some(f)));
        case XBuild =>
          Set(head.group.(build := true));
        case XCertform(form) =>
          if form.None? {
            return false;
          }
          Set(head.group.(certform := form.value));
        case XKeyform(form) =>
          if form.None? {
            return false;
          }
          Set(head.group.(keyform := form.value));
      }
      ok := true;
    }

    /** The walk of set_cert_cb: to the end by next, then back by prev. */
    method Walk() returns (visited: seq<Group>)
      requires Valid()
      ensures visited == Val()
    {
      visited := [];
      var exc := head;
      if exc == null {
        return;
      }
      ghost var k := |nodes| - 1;
      while exc.next != null
        invariant 0 <= k < |nodes| && exc == nodes[k]
        decreases k
      {
        assert Linked(k);
        exc, k := exc.next, k - 1;
      }
      assert Linked(k);
      ghost var j := 0;
      var e: Node? := exc;
      while e != null
        invariant 0 <= j <= |nodes| && e == (if j < |nodes| then nodes[j] else null)
        invariant visited == Val()[..j]
        decreases |nodes| - j
      {
        assert Linked(j);
        assert Val()[..j + 1] == Val()[..j] + [Val()[j]];
        visited, e, j := visited + [e.group], e.prev, j + 1;
      }
    }
  }

  /** All the options of a command line, and the walk over what they made. */
  method ReadAndWalk(opts: seq<Opt>) returns (ok: bool, visited: seq<Group>)
    ensures ok <==> Run(opts).Some?
    ensures ok ==> visited == Run(opts).value
  {
    var l := new List();
    visited := [];
    ghost var gs: seq<Group> := [];
    for n := 0 to |opts|
      invariant fresh(l) && forall i :: 0 <= i < |l.nodes| ==> fresh(l.nodes[i])
      invariant l.Valid() && l.Val() == gs && Run(opts[..n]) == Some(gs)
    {
      assert opts[..n + 1][..n] == opts[..n];
      RunStops(opts, n + 1);
      ok := l.ArgsExcert(opts[n]);
      if !ok {
        return;
      }
      gs := Step(gs, opts[n]).value;
    }
    assert opts[..|opts|] == opts;
    ok := true;
    visited := l.Walk();
  }

  lemma {:induction false} RunStops(opts: seq<Opt>, n: nat)
    requires n <= |opts|
    ensures Run(opts[..n]).None? ==> Run(opts).None?
    decreases |opts|
  {
    if n < |opts| {
      assert opts[..|opts| - 1][..n] == opts[..n];
      RunStops(opts[..|opts| - 1], n);
    } else {
      assert opts[..n] == opts;
    }
  }
}
