/** Running rehash twice: what one run does to the links of a bucket, and why a second run changes nothing. */
module RehashIdempotent {
  import opened CStrings
  import opened RehashSpec
  import opened RehashPlan

  // ----- executing a plan on the links id -> target -----

  function ExecOne(links: map<nat, string>, target: string, a: Action): map<nat, string> {
    match a
    case Keep(_) => links
    case NewLink(id) => links[id := target]
    case Remove(id) => links - {id}
    case Leave => links
  }

  function Exec(links: map<nat, string>, es: seq<Entry>, acts: seq<Action>): map<nat, string>
    requires |es| == |acts|
    decreases |es|
  {
    if es == [] then links else Exec(ExecOne(links, es[0].filename, acts[0]), es[1..], acts[1..])
  }

  predicate Touches(a: Action, id: nat) {
    (a.NewLink? || a.Remove?) && a.id == id
  }

  function At(links: map<nat, string>, id: nat): Option<string> {
    if id in links then Some(links[id]) else None
  }

  lemma {:induction false} ExecUntouched(links: map<nat, string>, es: seq<Entry>, acts: seq<Action>, id: nat)
    requires |es| == |acts| && forall i :: 0 <= i < |acts| ==> !Touches(acts[i], id)
    ensures At(Exec(links, es, acts), id) == At(links, id)
    decreases |es|
  {
    if es != [] {
      assert !Touches(acts[0], id);
      ExecUntouched(ExecOne(links, es[0].filename, acts[0]), es[1..], acts[1..], id);
    }
  }

  /** The last action on an id decides what is there. */
  lemma {:induction false} ExecLast(links: map<nat, string>, es: seq<Entry>, acts: seq<Action>, i: nat, id: nat)
    requires |es| == |acts| && i < |acts| && Touches(acts[i], id)
    requires forall j :: i < j < |acts| ==> !Touches(acts[j], id)
    ensures At(Exec(links, es, acts), id) == if acts[i].NewLink? then Some(es[i].filename) else None
    decreases i
  {
    var links1 := ExecOne(links, es[0].filename, acts[0]);
    if i == 0 {
      ExecUntouched(links1, es[1..], acts[1..], id);
    } else {
      ExecLast(links1, es[1..], acts[1..], i - 1, id);
    }
  }

  // ----- a directory and its records -----

  /** The link records of a scan are the links that are there. */
  ghost predicate Scanned(rs: seq<Record>, links: map<nat, string>) {
    && (forall f, id :: Link(f, id) in rs <==> id in links && links[id] == f)
    && (forall id :: id in links ==> id <= NO_LINK)
  }

  /** Every target has one link, and no link below the number of needed files is stale. */
  ghost predicate Tidy(rs: seq<Record>, links: map<nat, string>) {
    && (forall id, id' :: id in links && id' in links && links[id] == links[id'] ==> id == id')
    && (forall id :: id in links && id < |Accepted(rs)| ==> links[id] in Accepted(rs))
  }

  ghost predicate Ready(rs: seq<Record>, links: map<nat, string>) {
    NoNewBlank(rs) && |Accepted(rs)| < MAX_COLLISIONS && Scanned(rs, links) && Tidy(rs, links)
  }

  lemma EntryIs(rs: seq<Record>, i: nat)
    requires NoNewBlank(rs) && |Accepted(rs)| < MAX_COLLISIONS && i < |Run(rs).entries|
    ensures var e := Run(rs).entries[i];
            && Expected(rs, e.filename) == Some(e)
            && (e.needed <==> e.filename in Accepted(rs))
            && e.oldId == LeastId(rs, e.filename)
            && (!e.needed ==> HasLink(rs, e.filename))
    ensures Run(rs).numNeeded == |Accepted(rs)| == NeededCount(Run(rs).entries)
  {
    RunIsExpected(rs);
    RunInv(rs);
    FindIsUnique(Run(rs).entries, i);
    assert Lookup(Run(rs).entries, Run(rs).entries[i].filename) == Expected(rs, Run(rs).entries[i].filename);
  }

  lemma NeededEntry(rs: seq<Record>, f: string) returns (i: nat)
    requires NoNewBlank(rs) && |Accepted(rs)| < MAX_COLLISIONS && f in Accepted(rs)
    ensures i < |Run(rs).entries| && Run(rs).entries[i].filename == f && Run(rs).entries[i].needed
  {
    RunIsExpected(rs);
    assert Lookup(Run(rs).entries, f) == Expected(rs, f);
    i := Find(Run(rs).entries, f);
  }

  lemma {:induction false} NoStaleLow(es: seq<Entry>, n: nat)
    requires forall i :: 0 <= i < |es| && es[i].oldId < n ==> es[i].needed
    ensures StaleLow(es, n) == 0
  {
    if es != [] {
      assert forall i :: 0 <= i < |es[1..]| ==> es[1..][i] == es[i + 1];
      NoStaleLow(es[1..], n);
    }
  }

  lemma ReadyIsPlannable(rs: seq<Record>, links: map<nat, string>)
    requires Ready(rs, links)
    ensures Plannable(Run(rs)) && StaleLow(Run(rs).entries, Run(rs).numNeeded) == 0
    ensures Run(rs).numNeeded == |Accepted(rs)|
  {
    var b := Run(rs);
    RunIsExpected(rs);
    forall i | 0 <= i < |b.entries| && b.entries[i].oldId < b.numNeeded
      ensures b.entries[i].needed && At(links, b.entries[i].oldId) == Some(b.entries[i].filename)
    {
      EntryIs(rs, i);
    }
    NoStaleLow(b.entries, b.numNeeded);
    RunInv(rs);
    forall i, j | 0 <= i < j < |b.entries| && b.entries[i].oldId < b.numNeeded
      ensures b.entries[i].oldId != b.entries[j].oldId
    {
      assert b.entries[i].filename != b.entries[j].filename;
    }
  }

  // ----- one run -----

  /** The facts about a plan that the links depend on. */
  ghost predicate WellPlanned(rs: seq<Record>, acts: seq<Action>, removeLinks: bool) {
    var es, n := Run(rs).entries, |Accepted(rs)|;
    && |acts| == |es| && DistinctUses(acts) && Exactly(UsedIds(acts), n)
    && (forall i {:trigger acts[i]} :: 0 <= i < |es| ==>
          && Fits(es[i], n, acts[i], removeLinks)
          && (Uses(acts[i]) <==> es[i].needed)
          && (Uses(acts[i]) ==> acts[i].id < n))
  }

  lemma ReadyIsWellPlanned(rs: seq<Record>, links: map<nat, string>, before: set<nat>, removeLinks: bool,
                           acts: seq<Action>)
    requires Ready(rs, links) && Plan(Run(rs), before, removeLinks) == Some(acts)
    ensures WellPlanned(rs, acts, removeLinks)
  {
    var es, n := Run(rs).entries, |Accepted(rs)|;
    ReadyIsPlannable(rs, links);
    NoStaleLowIsGapFree(Run(rs), before, removeLinks);
    IdsDistinct(Run(rs), before, removeLinks);
    PlanIsPlanned(Run(rs), before, removeLinks);
    forall i | 0 <= i < |es|
      ensures Fits(es[i], n, acts[i], removeLinks) && (Uses(acts[i]) <==> es[i].needed)
      ensures Uses(acts[i]) ==> acts[i].id < n
    {
      EntryIs(rs, i);
      assert Uses(acts[i]) ==> acts[i].id in UsedIds(acts);
    }
  }

  /** An id below n is touched by nobody but its own entry. */
  lemma UsedIdHolds(rs: seq<Record>, links: map<nat, string>, acts: seq<Action>, removeLinks: bool, i: nat)
    requires Ready(rs, links) && WellPlanned(rs, acts, removeLinks)
    requires i < |acts| && Uses(acts[i])
    ensures At(Exec(links, Run(rs).entries, acts), acts[i].id) == Some(Run(rs).entries[i].filename)
  {
    var es := Run(rs).entries;
    var id := acts[i].id;
    forall j | 0 <= j < |acts| && j != i ensures !Touches(acts[j], id) {
      assert Fits(es[j], |Accepted(rs)|, acts[j], removeLinks);
    }
    if acts[i].NewLink? {
      ExecLast(links, es, acts, i, id);
    } else {
      ExecUntouched(links, es, acts, id);
      EntryIs(rs, i);
    }
  }

  /** The links below n are exactly one for each needed file. */
  ghost predicate Placed(rs: seq<Record>, links: map<nat, string>) {
    && (forall id: nat :: id < |Accepted(rs)| ==> id in links && links[id] in Accepted(rs))
    && (forall id, id' :: 0 <= id < id' < |Accepted(rs)| && id in links && id' in links ==> links[id] != links[id'])
    && (forall f :: f in Accepted(rs) ==> exists id: nat :: id < |Accepted(rs)| && id in links && links[id] == f)
  }

  lemma WhoUses(rs: seq<Record>, acts: seq<Action>, removeLinks: bool, id: nat) returns (i: nat)
    requires WellPlanned(rs, acts, removeLinks) && id < |Accepted(rs)|
    ensures i < |acts| && Uses(acts[i]) && acts[i].id == id
  {
    assert id in UsedIds(acts);
    i :| 0 <= i < |acts| && Uses(acts[i]) && acts[i].id == id;
  }

  lemma LowLinkIsNeeded(rs: seq<Record>, links: map<nat, string>, acts: seq<Action>, removeLinks: bool, id: nat)
    returns (i: nat)
    requires Ready(rs, links) && WellPlanned(rs, acts, removeLinks) && id < |Accepted(rs)|
    ensures i < |acts| && Uses(acts[i]) && acts[i].id == id
    ensures At(Exec(links, Run(rs).entries, acts), id) == Some(Run(rs).entries[i].filename)
    ensures Run(rs).entries[i].filename in Accepted(rs)
  {
    i := WhoUses(rs, acts, removeLinks, id);
    UsedIdHolds(rs, links, acts, removeLinks, i);
    EntryIs(rs, i);
  }

  lemma LowLinksDiffer(rs: seq<Record>, links: map<nat, string>, acts: seq<Action>, removeLinks: bool,
                       id: nat, id': nat)
    requires Ready(rs, links) && WellPlanned(rs, acts, removeLinks) && id < id' < |Accepted(rs)|
    ensures At(Exec(links, Run(rs).entries, acts), id) != At(Exec(links, Run(rs).entries, acts), id')
  {
    var i := LowLinkIsNeeded(rs, links, acts, removeLinks, id);
    var j := LowLinkIsNeeded(rs, links, acts, removeLinks, id');
    RunInv(rs);
  }

  lemma NeededHasLink(rs: seq<Record>, links: map<nat, string>, acts: seq<Action>, removeLinks: bool, f: string)
    returns (id: nat)
    requires Ready(rs, links) && WellPlanned(rs, acts, removeLinks) && f in Accepted(rs)
    ensures id < |Accepted(rs)| && At(Exec(links, Run(rs).entries, acts), id) == Some(f)
  {
    var i := NeededEntry(rs, f);
    UsedIdHolds(rs, links, acts, removeLinks, i);
    id := acts[i].id;
  }

  lemma WellPlannedIsPlaced(rs: seq<Record>, links: map<nat, string>, acts: seq<Action>, removeLinks: bool)
    requires Ready(rs, links) && WellPlanned(rs, acts, removeLinks)
    ensures Placed(rs, Exec(links, Run(rs).entries, acts))
  {
    var n, after := |Accepted(rs)|, Exec(links, Run(rs).entries, acts);
    forall id: nat | id < n ensures id in after && after[id] in Accepted(rs) {
      var i := LowLinkIsNeeded(rs, links, acts, removeLinks, id);
    }
    forall id, id' | 0 <= id < id' < n && id in after && id' in after ensures after[id] != after[id'] {
      LowLinksDiffer(rs, links, acts, removeLinks, id, id');
    }
    forall f | f in Accepted(rs) ensures exists id: nat :: id < n && id in after && after[id] == f {
      var id := NeededHasLink(rs, links, acts, removeLinks, f);
    }
  }

  /** One run on a tidy directory: it never fails, every needed file ends at one id below n and nothing else
      stands there, and what is removed is neither kept nor new. */
  lemma RunPlaces(rs: seq<Record>, links: map<nat, string>, before: set<nat>, removeLinks: bool)
    requires Ready(rs, links)
    ensures var p := Plan(Run(rs), before, removeLinks);
            && p.Some?
            && Placed(rs, Exec(links, Run(rs).entries, p.value))
            && forall i, j :: 0 <= i < |p.value| && 0 <= j < |p.value| && p.value[i].Remove? && Uses(p.value[j])
                              ==> p.value[i].id != p.value[j].id
  {
    ReadyIsPlannable(rs, links);
    NoStaleLowIsGapFree(Run(rs), before, removeLinks);
    var acts := Plan(Run(rs), before, removeLinks).value;
    ReadyIsWellPlanned(rs, links, before, removeLinks, acts);
    WellPlannedIsPlaced(rs, links, acts, removeLinks);
    forall i, j | 0 <= i < |acts| && 0 <= j < |acts| && acts[i].Remove? && Uses(acts[j])
      ensures acts[i].id != acts[j].id
    {
      assert Fits(Run(rs).entries[i], |Accepted(rs)|, acts[i], removeLinks);
    }
  }

  // ----- the second run -----

  lemma HighTouchRemoves(rs: seq<Record>, links: map<nat, string>, acts: seq<Action>, removeLinks: bool,
                         i: nat, id: nat)
    requires WellPlanned(rs, acts, removeLinks) && id >= |Accepted(rs)|
    requires i < |acts| && Touches(acts[i], id)
    ensures id !in Exec(links, Run(rs).entries, acts)
  {
    LastTouch(Run(rs).entries, acts, id, i, links);
    assert forall j :: 0 <= j < |acts| && Touches(acts[j], id) ==> acts[j].Remove?;
  }

  lemma StaleIsTouched(rs: seq<Record>, links: map<nat, string>, acts: seq<Action>, id: nat) returns (i: nat)
    requires Ready(rs, links) && WellPlanned(rs, acts, true)
    requires id >= |Accepted(rs)| && id in links && links[id] !in Accepted(rs)
    ensures i < |acts| && Touches(acts[i], id)
  {
    var f := links[id];
    assert Link(f, id) in rs;
    RunIsExpected(rs);
    assert Lookup(Run(rs).entries, f) == Expected(rs, f);
    i := Find(Run(rs).entries, f);
    assert LeastId(rs, f) == id;
    assert Fits(Run(rs).entries[i], |Accepted(rs)|, acts[i], true);
  }

  /** A link past the first n that a run leaves was there before, and not stale if links are removed. */
  lemma HighLinkStays(rs: seq<Record>, links: map<nat, string>, acts: seq<Action>, removeLinks: bool, id: nat)
    requires Ready(rs, links) && WellPlanned(rs, acts, removeLinks)
    requires id >= |Accepted(rs)| && id in Exec(links, Run(rs).entries, acts)
    ensures At(Exec(links, Run(rs).entries, acts), id) == At(links, id)
    ensures removeLinks ==> links[id] in Accepted(rs)
  {
    forall i | 0 <= i < |acts| ensures !Touches(acts[i], id) {
      if Touches(acts[i], id) { HighTouchRemoves(rs, links, acts, removeLinks, i, id); }
    }
    ExecUntouched(links, Run(rs).entries, acts, id);
    if removeLinks && links[id] !in Accepted(rs) {
      var i := StaleIsTouched(rs, links, acts, id);
    }
  }

  lemma LastTouch(es: seq<Entry>, acts: seq<Action>, id: nat, i: nat, links: map<nat, string>)
    requires |es| == |acts| && i < |acts| && Touches(acts[i], id)
    ensures exists j :: i <= j < |acts| && Touches(acts[j], id)
                        && At(Exec(links, es, acts), id) == if acts[j].NewLink? then Some(es[j].filename) else None
    decreases |acts| - i
  {
    if j :| i < j < |acts| && Touches(acts[j], id) {
      LastTouch(es, acts, id, j, links);
    } else {
      ExecLast(links, es, acts, i, id);
    }
  }

  /** A second run, with the same files and the links then found in any order, unlinks and links nothing. */
  lemma SecondRunIsIdle(rs: seq<Record>, links: map<nat, string>, before: set<nat>, removeLinks: bool,
                        rs': seq<Record>, before': set<nat>)
    requires Ready(rs, links) && Plan(Run(rs), before, removeLinks).Some?
    requires Files(rs') == Files(rs)
    requires Scanned(rs', Exec(links, Run(rs).entries, Plan(Run(rs), before, removeLinks).value))
    ensures var p := Plan(Run(rs'), before', removeLinks);
            var after := Exec(links, Run(rs).entries, Plan(Run(rs), before, removeLinks).value);
            && p.Some?
            && (forall i :: 0 <= i < |p.value| ==> p.value[i].Keep? || p.value[i].Leave?)
            && Exec(after, Run(rs').entries, p.value) == after
  {
    var acts := Plan(Run(rs), before, removeLinks).value;
    ReadyIsWellPlanned(rs, links, before, removeLinks, acts);
    WellPlannedIsPlaced(rs, links, acts, removeLinks);
    AcceptedFromFiles(rs);
    AcceptedFromFiles(rs');
    NoNewBlankFromFiles(rs);
    NoNewBlankFromFiles(rs');
    RunIsExpected(rs');
    var es', n := Run(rs').entries, |Accepted(rs)|;
    forall i | 0 <= i < |es'| ensures es'[i].oldId < n || (!es'[i].needed && !removeLinks) {
      SecondRunEntry(rs, links, acts, removeLinks, rs', i);
    }
    NothingToDo(Run(rs'), before', removeLinks, Exec(links, Run(rs).entries, acts));
  }

  lemma SecondRunEntry(rs: seq<Record>, links: map<nat, string>, acts: seq<Action>, removeLinks: bool,
                       rs': seq<Record>, i: nat)
    requires Ready(rs, links) && WellPlanned(rs, acts, removeLinks)
    requires Placed(rs, Exec(links, Run(rs).entries, acts))
    requires Scanned(rs', Exec(links, Run(rs).entries, acts))
    requires NoNewBlank(rs') && Accepted(rs') == Accepted(rs) && i < |Run(rs').entries|
    ensures Run(rs').entries[i].oldId < |Accepted(rs)| || (!Run(rs').entries[i].needed && !removeLinks)
  {
    var after := Exec(links, Run(rs).entries, acts);
    EntryIs(rs', i);
    var f := Run(rs').entries[i].filename;
    if f in Accepted(rs) {
      var id: nat :| id < |Accepted(rs)| && id in after && after[id] == f;
      assert Link(f, id) in rs';
    } else {
      var r :| r in rs' && r.Link? && r.target == f;
      assert Link(f, r.id) in rs';
      HighLinkStays(rs, links, acts, removeLinks, r.id);
    }
  }

  /** With every low id in place, the plan only keeps, or leaves what it may not remove. */
  lemma NothingToDo(b: Bucket, before: set<nat>, removeLinks: bool, links: map<nat, string>)
    requires forall i :: 0 <= i < |b.entries| ==>
               b.entries[i].oldId < b.numNeeded || (!b.entries[i].needed && !removeLinks)
    ensures var p := Plan(b, before, removeLinks);
            && p.Some?
            && (forall i :: 0 <= i < |p.value| ==> p.value[i].Keep? || p.value[i].Leave?)
            && Exec(links, b.entries, p.value) == links
  {
    AssignNothing(b.entries, b.numNeeded, StartMask(b.entries, b.numNeeded, before), 0, removeLinks, links);
  }

  lemma {:induction false} AssignNothing(es: seq<Entry>, n: nat, used: set<nat>, next: nat, removeLinks: bool,
                                         links: map<nat, string>)
    requires forall i :: 0 <= i < |es| ==> es[i].oldId < n || (!es[i].needed && !removeLinks)
    ensures var p := Assign(es, n, used, next, removeLinks);
            && p.Some?
            && (forall i :: 0 <= i < |p.value| ==> p.value[i].Keep? || p.value[i].Leave?)
            && Exec(links, es, p.value) == links
  {
    if es != [] {
      AssignNothing(es[1..], n, used, next, removeLinks, links);
      var acts := Assign(es, n, used, next, removeLinks).value;
      assert acts == [acts[0]] + acts[1..];
    }
  }
}
