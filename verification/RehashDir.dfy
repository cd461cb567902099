/** The second half of do_dir: each bucket's entries are walked twice and the directory's links are changed. */
module RehashDir {
  import opened CStrings
  import opened RehashSpec
  import opened BitMask
  import opened RehashPlan
  import opened RehashNames
  import RehashIdempotent
  import RehashTable

  /** The symbolic links of the directory; unlink and symlink are taken to succeed. */
  class LinkDir {
    var names: map<string, string>

    constructor (names: map<string, string>)
      ensures this.names == names
    {
      this.names := names;
    }

    method Unlink(name: string)
      modifies this
      ensures names == old(names) - {name}
    {
      names := names - {name};
    }

    method Symlink(target: string, name: string)
      requires name !in names
      modifies this
      ensures names == old(names)[name := target]
    {
      names := names[name := target];
    }
  }

  // ----- what a plan does to the names -----

  function ExecName(names: map<string, string>, key: Key, target: string, a: Action): map<string, string> {
    match a
    case Keep(_) => names
    case NewLink(id) => names[LinkName(key, id) := target]
    case Remove(id) => names - {LinkName(key, id)}
    case Leave => names
  }

  function ExecNames(names: map<string, string>, key: Key, es: seq<Entry>, acts: seq<Action>): map<string, string>
    requires |es| == |acts|
    decreases |es|
  {
    if es == [] then names
    else
      var n := |es| - 1;
      ExecName(ExecNames(names, key, es[..n], acts[..n]), key, es[n].filename, acts[n])
  }

  /** The first walk: the bit of every low id is set. */
  method MarkLow(b: RehashTable.HashBucket, mask: array<bv8>)
    requires b.Valid() && b.numNeeded <= 8 * mask.Length
    modifies mask
    ensures Bits(mask[..]) == old(Bits(mask[..])) + LowIds(b.vals, b.numNeeded)
  {
    var ep := b.firstEntry;
    ghost var i := 0;
    while ep != null
      invariant i <= |b.entries| && ep == if i < |b.entries| then b.entries[i] else null
      invariant Bits(mask[..]) == old(Bits(mask[..])) + LowIds(b.vals[..i], b.numNeeded)
      decreases |b.entries| - i
    {
      assert b.EntryOk(i);
      LowIdsSnoc(b.vals, i, b.numNeeded);
      if ep.oldId < b.numNeeded {
        BitSet(mask, ep.oldId);
      }
      ep, i := ep.next, i + 1;
    }
    assert b.vals[..i] == b.vals;
  }

  lemma LowIdsSnoc(es: seq<Entry>, i: nat, n: nat)
    requires i < |es|
    ensures LowIds(es[..i + 1], n) == LowIds(es[..i], n) + if es[i].oldId < n then {es[i].oldId} else {}
  {
    forall id | id in LowIds(es[..i], n) ensures id in LowIds(es[..i + 1], n) {
      var k :| 0 <= k < |es[..i]| && es[..i][k].oldId < n && es[..i][k].oldId == id;
      assert es[..i + 1][k].oldId == id;
    }
    assert es[..i + 1][i] == es[i];
  }

  /** The search for the next free id; MASK_BITS stands for reading past the mask. */
  method NextFree(mask: array<bv8>, from: nat) returns (id: nat)
    requires mask.Length == 32 && from <= MASK_BITS
    ensures id == LeastUnused(Bits(mask[..]), from)
  {
    id := from;
    while id < MASK_BITS
      invariant from <= id <= MASK_BITS
      invariant LeastUnused(Bits(mask[..]), from) == LeastUnused(Bits(mask[..]), id)
    {
      var set_ := BitIsSet(mask, id);
      if !set_ {
        return;
      }
      id := id + 1;
    }
  }

  /** One step of Assign, as seen from an entry in the middle of the list. */
  ghost predicate Continues(plan: Option<seq<Action>>, acts: seq<Action>, rest: Option<seq<Action>>) {
    plan == if rest.None? then None else Some(acts + rest.value)
  }

  lemma AssignStep(es: seq<Entry>, i: nat, n: nat, used: set<nat>, next: nat, removeLinks: bool,
                   plan: Option<seq<Action>>, acts: seq<Action>)
    requires i < |es| && Continues(plan, acts, Assign(es[i..], n, used, next, removeLinks))
    ensures var e := es[i];
            if e.oldId < n then Continues(plan, acts + [Keep(e.oldId)], Assign(es[i + 1..], n, used, next, removeLinks))
            else if e.needed then
              var id := LeastUnused(used, next);
              if id == MASK_BITS then plan.None?
              else Continues(plan, acts + [NewLink(id)], Assign(es[i + 1..], n, used + {id}, id, removeLinks))
            else Continues(plan, acts + [if removeLinks then Remove(e.oldId) else Leave],
                           Assign(es[i + 1..], n, used, next, removeLinks))
  {
    assert es[i..][1..] == es[i + 1..] && es[i..][0] == es[i];
    var rest := Assign(es[i..], n, used, next, removeLinks);
    if rest.Some? {
      assert rest.value == [rest.value[0]] + rest.value[1..];
      assert acts + rest.value == acts + [rest.value[0]] + rest.value[1..];
    }
  }

  lemma NewIdsSnoc(acts: seq<Action>, a: Action)
    ensures NewIds(acts + [a]) == NewIds(acts) + if a.NewLink? then {a.id} else {}
  {
    var all := acts + [a];
    assert all[|acts|] == a;
    forall id | id in NewIds(acts) ensures id in NewIds(all) {
      var i :| 0 <= i < |acts| && acts[i].NewLink? && acts[i].id == id;
      assert all[i] == acts[i];
    }
  }

  /** The actions so far have turned the names and the mask into these. */
  ghost predicate Carried(names0: map<string, string>, used0: set<nat>, key: Key, es: seq<Entry>, acts: seq<Action>,
                          names: map<string, string>, used: set<nat>) {
    |acts| == |es| && names == ExecNames(names0, key, es, acts) && used == used0 + NewIds(acts)
  }

  lemma CarriedSnoc(names0: map<string, string>, used0: set<nat>, key: Key, es: seq<Entry>, i: nat,
                    acts: seq<Action>, names: map<string, string>, used: set<nat>, a: Action)
    requires i < |es| && Carried(names0, used0, key, es[..i], acts, names, used)
    ensures Carried(names0, used0, key, es[..i + 1], acts + [a], ExecName(names, key, es[i].filename, a),
                    if a.NewLink? then used + {a.id} else used)
  {
    assert es[..i + 1][..i] == es[..i] && (acts + [a])[..i] == acts;
    NewIdsSnoc(acts, a);
  }

  /** What the second walk does for one entry; next is the search's starting point, MASK_BITS if it ran off. */
  method PlaceEntry(key: Key, e: RehashTable.HashEntry, n: nat, mask: array<bv8>, next: nat, dir: LinkDir,
                    removeLinks: bool) returns (next': nat, ghost a: Action)
    requires mask.Length == 32 && next < MASK_BITS
    modifies mask, dir
    ensures if e.oldId < n then a == Keep(e.oldId) && next' == next
            else if e.needSymlink then
              next' == LeastUnused(old(Bits(mask[..])), next) && (next' < MASK_BITS ==> a == NewLink(next'))
            else a == (if removeLinks then Remove(e.oldId) else Leave) && next' == next
    ensures next' < MASK_BITS ==> dir.names == ExecName(old(dir.names), key, e.filename, a)
    ensures Bits(mask[..]) == if a.NewLink? then old(Bits(mask[..])) + {a.id} else old(Bits(mask[..]))
  {
    next' := next;
    if e.oldId < n {
      a := Keep(e.oldId);
    } else if e.needSymlink {
      next' := NextFree(mask, next);
      a := Leave;
      if next' < MASK_BITS {
        var name := LinkName(key, next');
        dir.Unlink(name);
        dir.Symlink(e.filename, name);
        BitSet(mask, next');
        a := NewLink(next');
      }
    } else if removeLinks {
      dir.Unlink(LinkName(key, e.oldId));
      a := Remove(e.oldId);
    } else {
      a := Leave;
    }
  }

  /** The second walk, from the mask the first one left. */
  method Place(b: RehashTable.HashBucket, mask: array<bv8>, dir: LinkDir, removeLinks: bool) returns (done: bool)
    requires b.Valid() && mask.Length == 32
    modifies mask, dir
    ensures var p := Assign(b.vals, b.numNeeded, old(Bits(mask[..])), 0, removeLinks);
            && (done <==> p.Some?)
            && (done ==> dir.names == ExecNames(old(dir.names), b.key, b.vals, p.value))
            && (done ==> Bits(mask[..]) == old(Bits(mask[..])) + NewIds(p.value))
  {
    ghost var n, es := b.numNeeded, b.vals;
    ghost var plan := Assign(es, n, Bits(mask[..]), 0, removeLinks);
    ghost var acts: seq<Action> := [];
    ghost var i := 0;
    var next: nat := 0;
    var ep := b.firstEntry;
    assert es[0..] == es && (plan.Some? ==> [] + plan.value == plan.value);
    while ep != null
      invariant i == |acts| <= |es| && ep == if i < |es| then b.entries[i] else null
      invariant next < MASK_BITS
      invariant Continues(plan, acts, Assign(es[i..], n, Bits(mask[..]), next, removeLinks))
      invariant Carried(old(dir.names), old(Bits(mask[..])), b.key, es[..i], acts, dir.names, Bits(mask[..]))
      decreases |es| - i
    {
      assert b.EntryOk(i);
      AssignStep(es, i, n, Bits(mask[..]), next, removeLinks, plan, acts);
      ghost var names, used, a := dir.names, Bits(mask[..]), Leave;
      next, a := PlaceEntry(b.key, ep, b.numNeeded, mask, next, dir, removeLinks);
      if next == MASK_BITS {
        return false;
      }
      CarriedSnoc(old(dir.names), old(Bits(mask[..])), b.key, es, i, acts, names, used, a);
      acts := acts + [a];
      ep, i := ep.next, i + 1;
    }
    assert es[i..] == [] && es[..i] == es && acts + [] == acts;
    return true;
  }

  /** The processing of one bucket: it carries out exactly the plan for whatever the mask held before, and leaves
      the ids in use in the mask; or it reports that it would clear or read past the end of the mask. */
  method ProcessBucket(b: RehashTable.HashBucket, mask: array<bv8>, dir: LinkDir, removeLinks: bool)
    returns (done: bool)
    requires b.Valid() && mask.Length == 32
    modifies mask, dir
    ensures var p := Plan(b.Val(), old(Bits(mask[..])), removeLinks);
            && (done <==> b.numNeeded <= MASK_BITS && p.Some?)
            && (done ==> dir.names == ExecNames(old(dir.names), b.key, b.vals, p.value))
            && (done ==> Bits(mask[..]) == MaskAfter(b.Val(), old(Bits(mask[..])), p.value))
  {
    if b.numNeeded > MASK_BITS {
      return false;
    }
    ClearBytes(mask, (b.numNeeded + 7) / 8);
    MarkLow(b, mask);
    assert Bits(mask[..]) == StartMask(b.vals, b.numNeeded, old(Bits(mask[..])));
    done := Place(b, mask, dir, removeLinks);
  }

  // ----- the names as links of one key -----

  /** The links of one key: which ids its names carry, and their targets. */
  function View(names: map<string, string>, key: Key): map<nat, string> {
    map id: nat | id < 0x1_0000 && LinkName(key, id) in names :: names[LinkName(key, id)]
  }

  ghost predicate SmallIds(acts: seq<Action>) {
    forall i :: 0 <= i < |acts| && !acts[i].Leave? ==> acts[i].id < 0x1_0000
  }

  lemma ViewOne(names: map<string, string>, key: Key, target: string, a: Action, key': Key)
    requires ValidKey(key) && ValidKey(key') && (!a.Leave? ==> a.id < 0x1_0000)
    ensures View(ExecName(names, key, target, a), key') ==
            if key' == key then RehashIdempotent.ExecOne(View(names, key), target, a) else View(names, key')
  {
    var names' := ExecName(names, key, target, a);
    forall id: nat | id < 0x1_0000 && !a.Leave? && LinkName(key', id) == LinkName(key, a.id)
      ensures key' == key && id == a.id
    {
      LinkNamesDiffer(key', id, key, a.id);
    }
    forall id: nat | id < 0x1_0000 && !a.Leave? && !(key' == key && id == a.id)
      ensures LinkName(key', id) in names' <==> LinkName(key', id) in names
    {
    }
  }

  lemma {:induction false} ExecSnoc(links: map<nat, string>, es: seq<Entry>, acts: seq<Action>)
    requires |es| == |acts| > 0
    ensures var n := |es| - 1;
            RehashIdempotent.Exec(links, es, acts) ==
            RehashIdempotent.ExecOne(RehashIdempotent.Exec(links, es[..n], acts[..n]), es[n].filename, acts[n])
    decreases |es|
  {
    var n := |es| - 1;
    if n > 0 {
      ExecSnoc(RehashIdempotent.ExecOne(links, es[0].filename, acts[0]), es[1..], acts[1..]);
      assert es[1..][..n - 1] == es[..n][1..] && acts[1..][..n - 1] == acts[..n][1..];
    }
  }

  /** Processing a bucket changes the links of its own key as the plan says, and those of no other key. */
  lemma {:induction false} ViewsAfter(names: map<string, string>, key: Key, es: seq<Entry>, acts: seq<Action>,
                                      key': Key)
    requires |es| == |acts| && ValidKey(key) && ValidKey(key') && SmallIds(acts)
    ensures View(ExecNames(names, key, es, acts), key') ==
            if key' == key then RehashIdempotent.Exec(View(names, key), es, acts) else View(names, key')
    decreases |es|
  {
    if es != [] {
      var n := |es| - 1;
      ViewsAfter(names, key, es[..n], acts[..n], key');
      ViewOne(ExecNames(names, key, es[..n], acts[..n]), key, es[n].filename, acts[n], key');
      ExecSnoc(View(names, key), es, acts);
    }
  }
}
