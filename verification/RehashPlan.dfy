/** Which link ids the entries of a bucket end up with, and what a whole rehash of one bucket does to its links. */
module RehashPlan {
  import opened CStrings
  import opened RehashSpec

  /** What the second pass does for one entry. */
  datatype Action = Keep(id: nat) | NewLink(id: nat) | Remove(id: nat) | Leave

  const MASK_BITS := MAX_COLLISIONS

  // ----- the plan -----

  /** The least unused id from `from` on; MASK_BITS when the search runs off the mask. */
  function LeastUnused(used: set<nat>, from: nat): (id: nat)
    ensures from <= id || id == MASK_BITS
    ensures id < MASK_BITS ==> id !in used
    ensures id <= MASK_BITS
    ensures forall k: nat :: from <= k < id ==> k in used
    decreases MASK_BITS - from
  {
    if from >= MASK_BITS then MASK_BITS else if from !in used then from else LeastUnused(used, from + 1)
  }

  /** The second pass over the entries; None when the search reads past the end of the mask. */
  function Assign(es: seq<Entry>, n: nat, used: set<nat>, next: nat, removeLinks: bool): (r: Option<seq<Action>>)
    ensures r.Some? ==> |r.value| == |es|
  {
    if es == [] then Some([])
    else if es[0].oldId < n then
      var rest := Assign(es[1..], n, used, next, removeLinks);
      if rest.None? then None else Some([Keep(es[0].oldId)] + rest.value)
    else if es[0].needed then
      var id := LeastUnused(used, next);
      if id == MASK_BITS then None
      else
        var rest := Assign(es[1..], n, used + {id}, id, removeLinks);
        if rest.None? then None else Some([NewLink(id)] + rest.value)
    else
      var rest := Assign(es[1..], n, used, next, removeLinks);
      if rest.None? then None else Some([if removeLinks then Remove(es[0].oldId) else Leave] + rest.value)
  }

  function LowIds(es: seq<Entry>, n: nat): set<nat> {
    set i | 0 <= i < |es| && es[i].oldId < n :: es[i].oldId
  }

  /** The bits left by the memset of (n + 7) / 8 bytes and the first pass, from whatever the mask held before. */
  function StartMask(es: seq<Entry>, n: nat, before: set<nat>): set<nat> {
    (set id | id in before && id >= 8 * ((n + 7) / 8)) + LowIds(es, n)
  }

  function Plan(b: Bucket, before: set<nat>, removeLinks: bool): Option<seq<Action>> {
    Assign(b.entries, b.numNeeded, StartMask(b.entries, b.numNeeded, before), 0, removeLinks)
  }

  // ----- what Assign picks -----

  /** The kind of action an entry gets. */
  predicate Fits(e: Entry, n: nat, a: Action, removeLinks: bool) {
    if e.oldId < n then a == Keep(e.oldId)
    else if e.needed then a.NewLink? && a.id < MASK_BITS
    else a == if removeLinks then Remove(e.oldId) else Leave
  }

  function NewIds(acts: seq<Action>): set<nat> {
    set i | 0 <= i < |acts| && acts[i].NewLink? :: acts[i].id
  }

  lemma NewIdsCons(acts: seq<Action>)
    requires acts != []
    ensures NewIds(acts) == NewIds(acts[1..]) + if acts[0].NewLink? then {acts[0].id} else {}
  {
    forall id | id in NewIds(acts[1..]) ensures id in NewIds(acts) {
      var i :| 0 <= i < |acts[1..]| && acts[1..][i].NewLink? && acts[1..][i].id == id;
      assert acts[i + 1].id == id;
    }
    forall id | id in NewIds(acts) ensures id in NewIds(acts[1..]) + if acts[0].NewLink? then {acts[0].id} else {} {
      var i :| 0 <= i < |acts| && acts[i].NewLink? && acts[i].id == id;
      if i > 0 { assert acts[1..][i - 1].id == id; }
    }
  }

  ghost predicate AllIn(from: nat, to: nat, ids: set<nat>) {
    forall k: nat :: from <= k < to ==> k in ids
  }

  lemma {:induction false} AssignFits(es: seq<Entry>, n: nat, used: set<nat>, next: nat, removeLinks: bool)
    requires Assign(es, n, used, next, removeLinks).Some?
    ensures var acts := Assign(es, n, used, next, removeLinks).value;
            forall i :: 0 <= i < |es| ==> Fits(es[i], n, acts[i], removeLinks)
  {
    if es != [] {
      var acts := Assign(es, n, used, next, removeLinks).value;
      if es[0].oldId >= n && es[0].needed {
        var id := LeastUnused(used, next);
        AssignFits(es[1..], n, used + {id}, id, removeLinks);
      } else {
        AssignFits(es[1..], n, used, next, removeLinks);
      }
      forall i | 0 <= i < |es| ensures Fits(es[i], n, acts[i], removeLinks) {
        if i > 0 { assert es[i] == es[1..][i - 1] && acts[i] == acts[1..][i - 1]; }
      }
    }
  }

  /** New ids are unused, differ from one another, and leave no unused id below them. */
  ghost predicate Fresh(acts: seq<Action>, used: set<nat>, next: nat) {
    && (forall i :: 0 <= i < |acts| && acts[i].NewLink? ==>
          next <= acts[i].id && acts[i].id !in used && AllIn(next, acts[i].id, used + NewIds(acts)))
    && (forall i, j :: 0 <= i < j < |acts| && acts[i].NewLink? && acts[j].NewLink? ==> acts[i].id != acts[j].id)
  }

  lemma FreshCons(a: Action, acts: seq<Action>, used: set<nat>, next: nat)
    requires !a.NewLink? ==> Fresh(acts, used, next)
    requires a.NewLink? ==> next <= a.id && a.id !in used && AllIn(next, a.id, used) && Fresh(acts, used + {a.id}, a.id)
    ensures Fresh([a] + acts, used, next)
  {
    var all := [a] + acts;
    assert all[1..] == acts;
    NewIdsCons(all);
    forall i | 0 <= i < |all| && all[i].NewLink?
      ensures next <= all[i].id && all[i].id !in used && AllIn(next, all[i].id, used + NewIds(all))
    {
      if i > 0 { assert all[i] == acts[i - 1]; }
    }
  }

  lemma {:induction false} AssignFresh(es: seq<Entry>, n: nat, used: set<nat>, next: nat, removeLinks: bool)
    requires Assign(es, n, used, next, removeLinks).Some?
    ensures Fresh(Assign(es, n, used, next, removeLinks).value, used, next)
  {
    if es != [] {
      var acts := Assign(es, n, used, next, removeLinks).value;
      if es[0].oldId >= n && es[0].needed {
        var id := LeastUnused(used, next);
        AssignFresh(es[1..], n, used + {id}, id, removeLinks);
      } else {
        AssignFresh(es[1..], n, used, next, removeLinks);
      }
      FreshCons(acts[0], acts[1..], used, next);
      assert acts == [acts[0]] + acts[1..];
    }
  }

  // ----- counting -----

  function LowCount(es: seq<Entry>, n: nat): nat {
    if es == [] then 0 else (if es[0].oldId < n then 1 else 0) + LowCount(es[1..], n)
  }

  function HighNeeded(es: seq<Entry>, n: nat): nat {
    if es == [] then 0 else (if es[0].oldId >= n && es[0].needed then 1 else 0) + HighNeeded(es[1..], n)
  }

  /** Entries that keep a low id though no file needs them. */
  function StaleLow(es: seq<Entry>, n: nat): nat {
    if es == [] then 0 else (if es[0].oldId < n && !es[0].needed then 1 else 0) + StaleLow(es[1..], n)
  }

  lemma {:induction false} NeededCountCons(es: seq<Entry>)
    requires es != []
    ensures NeededCount(es) == (if es[0].needed then 1 else 0) + NeededCount(es[1..])
  {
    if |es| > 1 {
      NeededCountCons(es[..|es| - 1]);
      assert es[..|es| - 1][1..] == es[1..][..|es| - 2];
    }
  }

  lemma {:induction false} CountsAdd(es: seq<Entry>, n: nat)
    ensures LowCount(es, n) + HighNeeded(es, n) == NeededCount(es) + StaleLow(es, n)
  {
    if es != [] {
      NeededCountCons(es);
      CountsAdd(es[1..], n);
    }
  }

  /** The recorded ids of different links differ. */
  ghost predicate DistinctOldIds(es: seq<Entry>, n: nat) {
    forall i, j :: 0 <= i < j < |es| && es[i].oldId < n ==> es[i].oldId != es[j].oldId
  }

  lemma LowIdsCons(es: seq<Entry>, n: nat)
    requires es != []
    ensures LowIds(es, n) == LowIds(es[1..], n) + if es[0].oldId < n then {es[0].oldId} else {}
  {
    var rest := LowIds(es[1..], n);
    forall id | id in rest ensures id in LowIds(es, n) {
      var i :| 0 <= i < |es[1..]| && es[1..][i].oldId < n && es[1..][i].oldId == id;
      assert es[i + 1].oldId == id;
    }
    forall id | id in LowIds(es, n) ensures id in rest + if es[0].oldId < n then {es[0].oldId} else {} {
      var i :| 0 <= i < |es| && es[i].oldId < n && es[i].oldId == id;
      if i > 0 { assert es[1..][i - 1].oldId == id; }
    }
  }

  lemma {:induction false} LowIdsSize(es: seq<Entry>, n: nat)
    ensures |LowIds(es, n)| <= LowCount(es, n)
    ensures DistinctOldIds(es, n) ==> |LowIds(es, n)| == LowCount(es, n)
  {
    if es != [] {
      LowIdsSize(es[1..], n);
      LowIdsCons(es, n);
    }
  }

  lemma {:induction false} NewIdsSize(es: seq<Entry>, n: nat, acts: seq<Action>, removeLinks: bool)
    requires |acts| == |es| && forall i :: 0 <= i < |es| ==> Fits(es[i], n, acts[i], removeLinks)
    requires forall i, j :: 0 <= i < j < |acts| && acts[i].NewLink? && acts[j].NewLink? ==> acts[i].id != acts[j].id
    ensures |NewIds(acts)| == HighNeeded(es, n)
  {
    if es != [] {
      NewIdsSize(es[1..], n, acts[1..], removeLinks);
      NewIdsCons(acts);
      assert Fits(es[0], n, acts[0], removeLinks);
    }
  }

  /** ids are all the numbers below n. */
  ghost predicate Exactly(ids: set<nat>, n: nat) {
    forall id: nat :: id in ids <==> id < n
  }

  lemma {:induction false} Below(n: nat) returns (s: set<nat>)
    ensures Exactly(s, n) && |s| == n
  {
    if n == 0 {
      s := {};
    } else {
      var t := Below(n - 1);
      s := t + {n - 1};
    }
  }

  lemma {:induction false} SubsetSize(a: set<nat>, b: set<nat>)
    requires a <= b
    ensures |a| <= |b|
    ensures |a| == |b| ==> a == b
  {
    if a != {} {
      var x :| x in a;
      SubsetSize(a - {x}, b - {x});
    }
  }

  /** When the search runs off the mask, the used ids and fewer new ones than wanted fill it. */
  lemma {:induction false} AssignFails(es: seq<Entry>, n: nat, used: set<nat>, next: nat, removeLinks: bool)
    returns (chosen: set<nat>)
    requires Assign(es, n, used, next, removeLinks).None?
    ensures |chosen| < HighNeeded(es, n) && AllIn(next, MASK_BITS, used + chosen)
  {
    if es[0].oldId >= n && es[0].needed {
      var id := LeastUnused(used, next);
      if id == MASK_BITS {
        chosen := {};
      } else {
        var later := AssignFails(es[1..], n, used + {id}, id, removeLinks);
        chosen := later + {id};
        assert used + {id} + later == used + chosen;
      }
    } else {
      chosen := AssignFails(es[1..], n, used, next, removeLinks);
    }
  }

  // ----- ids in use are distinct and gap-free -----

  predicate Uses(a: Action) { a.Keep? || a.NewLink? }

  function UsedIds(acts: seq<Action>): set<nat> {
    set i | 0 <= i < |acts| && Uses(acts[i]) :: acts[i].id
  }

  ghost predicate DistinctUses(acts: seq<Action>) {
    forall i, j :: 0 <= i < j < |acts| && Uses(acts[i]) && Uses(acts[j]) ==> acts[i].id != acts[j].id
  }

  /** The plan uses every id below n + s and no other, where s counts the stale low links. */
  ghost predicate GapFree(b: Bucket, before: set<nat>, removeLinks: bool) {
    var p := Plan(b, before, removeLinks);
    p.Some? && Exactly(UsedIds(p.value), b.numNeeded + StaleLow(b.entries, b.numNeeded))
  }

  /** A bucket whose needed entries fit the mask and whose recorded ids differ. */
  ghost predicate Plannable(b: Bucket) {
    b.numNeeded <= MASK_BITS && NeededCount(b.entries) == b.numNeeded && DistinctOldIds(b.entries, b.numNeeded)
  }

  /** The mask bits the memset does not reach are clear where stale low links push new ids. */
  ghost predicate Clear(b: Bucket, before: set<nat>) {
    var n, s := b.numNeeded, StaleLow(b.entries, b.numNeeded);
    n + s <= MASK_BITS && forall id: nat :: 8 * ((n + 7) / 8) <= id < n + s ==> id !in before
  }

  /** All that matters about the actions of a plan. */
  ghost predicate Planned(b: Bucket, before: set<nat>, acts: seq<Action>, removeLinks: bool) {
    && |acts| == |b.entries|
    && (forall i {:trigger acts[i]} :: 0 <= i < |acts| ==> Fits(b.entries[i], b.numNeeded, acts[i], removeLinks))
    && Fresh(acts, StartMask(b.entries, b.numNeeded, before), 0)
  }

  lemma PlanIsPlanned(b: Bucket, before: set<nat>, removeLinks: bool)
    requires Plan(b, before, removeLinks).Some?
    ensures Planned(b, before, Plan(b, before, removeLinks).value, removeLinks)
  {
    var es, n := b.entries, b.numNeeded;
    AssignFits(es, n, StartMask(es, n, before), 0, removeLinks);
    AssignFresh(es, n, StartMask(es, n, before), 0, removeLinks);
  }

  lemma UsedIdsSplit(b: Bucket, before: set<nat>, acts: seq<Action>, removeLinks: bool)
    requires Planned(b, before, acts, removeLinks)
    ensures UsedIds(acts) == LowIds(b.entries, b.numNeeded) + NewIds(acts)
  {
    var es, n := b.entries, b.numNeeded;
    forall id | id in LowIds(es, n) ensures id in UsedIds(acts) {
      var i :| 0 <= i < |es| && es[i].oldId < n && es[i].oldId == id;
      assert Uses(acts[i]);
    }
    forall id | id in NewIds(acts) ensures id in UsedIds(acts) {
      var i :| 0 <= i < |acts| && acts[i].NewLink? && acts[i].id == id;
      assert Uses(acts[i]);
    }
    forall id | id in UsedIds(acts) ensures id in LowIds(es, n) + NewIds(acts) {
      var i :| 0 <= i < |acts| && Uses(acts[i]) && acts[i].id == id;
      assert Fits(es[i], n, acts[i], removeLinks);
    }
  }

  lemma PlannedIdsDistinct(b: Bucket, before: set<nat>, acts: seq<Action>, removeLinks: bool)
    requires Plannable(b) && Planned(b, before, acts, removeLinks)
    ensures DistinctUses(acts)
  {
    var es, n := b.entries, b.numNeeded;
    forall i, j | 0 <= i < j < |acts| && Uses(acts[i]) && Uses(acts[j]) ensures acts[i].id != acts[j].id {
      assert Fits(es[i], n, acts[i], removeLinks) && Fits(es[j], n, acts[j], removeLinks);
      assert acts[i].Keep? ==> acts[i].id in LowIds(es, n);
      assert acts[j].Keep? ==> acts[j].id in LowIds(es, n);
    }
  }

  lemma PlannedIdsSize(b: Bucket, before: set<nat>, acts: seq<Action>, removeLinks: bool)
    requires Plannable(b) && Planned(b, before, acts, removeLinks)
    ensures |UsedIds(acts)| == b.numNeeded + StaleLow(b.entries, b.numNeeded)
  {
    var es, n := b.entries, b.numNeeded;
    UsedIdsSplit(b, before, acts, removeLinks);
    LowIdsSize(es, n);
    NewIdsSize(es, n, acts, removeLinks);
    CountsAdd(es, n);
    assert LowIds(es, n) !! NewIds(acts);
  }

  /** Whatever the mask held before, no two entries are given the same id, and n + s ids are in use. */
  lemma IdsDistinct(b: Bucket, before: set<nat>, removeLinks: bool)
    requires Plannable(b) && Plan(b, before, removeLinks).Some?
    ensures var acts := Plan(b, before, removeLinks).value;
            DistinctUses(acts) && |UsedIds(acts)| == b.numNeeded + StaleLow(b.entries, b.numNeeded)
  {
    var acts := Plan(b, before, removeLinks).value;
    PlanIsPlanned(b, before, removeLinks);
    PlannedIdsDistinct(b, before, acts, removeLinks);
    PlannedIdsSize(b, before, acts, removeLinks);
  }

  lemma ClearNeverFails(b: Bucket, before: set<nat>, removeLinks: bool)
    requires Plannable(b) && Clear(b, before)
    ensures Plan(b, before, removeLinks).Some?
  {
    var es, n := b.entries, b.numNeeded;
    if Plan(b, before, removeLinks).None? {
      var chosen := AssignFails(es, n, StartMask(es, n, before), 0, removeLinks);
      var total := n + StaleLow(es, n);
      LowIdsSize(es, n);
      CountsAdd(es, n);
      var all := Below(total);
      forall id | id in all ensures id in LowIds(es, n) + chosen {
        assert id in StartMask(es, n, before) + chosen;
      }
      SubsetSize(all, LowIds(es, n) + chosen);
    }
  }

  /** An id past the total would leave no room below it for the others. */
  lemma NoneAbove(b: Bucket, before: set<nat>, acts: seq<Action>, removeLinks: bool, id: nat)
    requires Plannable(b) && Clear(b, before) && Planned(b, before, acts, removeLinks)
    requires id in UsedIds(acts)
    ensures id < b.numNeeded + StaleLow(b.entries, b.numNeeded)
  {
    var es, n := b.entries, b.numNeeded;
    var total, used := n + StaleLow(es, n), StartMask(es, n, before);
    UsedIdsSplit(b, before, acts, removeLinks);
    if id >= total {
      assert id in NewIds(acts);
      assert AllIn(0, id, used + NewIds(acts));
      var all := Below(total);
      forall k | k in all ensures k in UsedIds(acts) - {id} {
        assert k in used + NewIds(acts);
      }
      PlannedIdsSize(b, before, acts, removeLinks);
      SubsetSize(all, UsedIds(acts) - {id});
    }
  }

  lemma ClearIsGapFree(b: Bucket, before: set<nat>, removeLinks: bool)
    requires Plannable(b) && Clear(b, before)
    ensures GapFree(b, before, removeLinks)
  {
    ClearNeverFails(b, before, removeLinks);
    PlanIsPlanned(b, before, removeLinks);
    var acts := Plan(b, before, removeLinks).value;
    var total := b.numNeeded + StaleLow(b.entries, b.numNeeded);
    var all := Below(total);
    forall id | id in UsedIds(acts) ensures id in all {
      NoneAbove(b, before, acts, removeLinks, id);
    }
    PlannedIdsSize(b, before, acts, removeLinks);
    SubsetSize(UsedIds(acts), all);
  }

  lemma NewIdIsFree(b: Bucket, before: set<nat>, acts: seq<Action>, removeLinks: bool, id: nat)
    requires Planned(b, before, acts, removeLinks) && id in NewIds(acts)
    ensures id < MASK_BITS && id !in StartMask(b.entries, b.numNeeded, before)
  {
    var i :| 0 <= i < |acts| && acts[i].NewLink? && acts[i].id == id;
    assert Fits(b.entries[i], b.numNeeded, acts[i], removeLinks);
  }

  lemma FreeIdsAreClear(b: Bucket, before: set<nat>, news: set<nat>)
    requires b.numNeeded <= MASK_BITS
    requires Exactly(LowIds(b.entries, b.numNeeded) + news, b.numNeeded + StaleLow(b.entries, b.numNeeded))
    requires forall id :: id in news ==> id < MASK_BITS && id !in StartMask(b.entries, b.numNeeded, before)
    ensures Clear(b, before)
  {
    var n, total := b.numNeeded, b.numNeeded + StaleLow(b.entries, b.numNeeded);
    assert 8 * ((n + 7) / 8) >= n;
    forall id: nat | n <= id < total ensures id < MASK_BITS && (8 * ((n + 7) / 8) <= id ==> id !in before) {
      assert id in LowIds(b.entries, n) + news;
      assert id in news;
      assert id in StartMask(b.entries, n, before) <==> id in before && id >= 8 * ((n + 7) / 8);
    }
    if total > n {
      assert total - 1 in LowIds(b.entries, n) + news;
    }
  }

  lemma GapFreeIsClear(b: Bucket, before: set<nat>, removeLinks: bool)
    requires b.numNeeded <= MASK_BITS && GapFree(b, before, removeLinks)
    ensures Clear(b, before)
  {
    var acts := Plan(b, before, removeLinks).value;
    PlanIsPlanned(b, before, removeLinks);
    UsedIdsSplit(b, before, acts, removeLinks);
    forall id | id in NewIds(acts) ensures id < MASK_BITS && id !in StartMask(b.entries, b.numNeeded, before) {
      NewIdIsFree(b, before, acts, removeLinks, id);
    }
    FreeIdsAreClear(b, before, NewIds(acts));
  }

  /** The ids in use are gap-free exactly when the mask is clear where it matters. */
  lemma GapFreeIff(b: Bucket, before: set<nat>, removeLinks: bool)
    requires Plannable(b)
    ensures GapFree(b, before, removeLinks) <==> Clear(b, before)
  {
    if Clear(b, before) {
      ClearIsGapFree(b, before, removeLinks);
    } else if GapFree(b, before, removeLinks) {
      GapFreeIsClear(b, before, removeLinks);
    }
  }

  /** Without stale low links every id in use, and so every mask index probed, is below n. */
  lemma NoStaleLowIsGapFree(b: Bucket, before: set<nat>, removeLinks: bool)
    requires Plannable(b) && StaleLow(b.entries, b.numNeeded) == 0
    ensures GapFree(b, before, removeLinks)
    ensures Exactly(UsedIds(Plan(b, before, removeLinks).value), b.numNeeded)
  {
    GapFreeIff(b, before, removeLinks);
  }

  /** It holds for every earlier content of the mask exactly when n + s stays within the bytes cleared. */
  lemma GapFreeForEveryMask(b: Bucket, removeLinks: bool)
    requires Plannable(b)
    ensures (forall before :: GapFree(b, before, removeLinks)) <==>
            b.numNeeded + StaleLow(b.entries, b.numNeeded) <= 8 * ((b.numNeeded + 7) / 8)
  {
    var n, total := b.numNeeded, b.numNeeded + StaleLow(b.entries, b.numNeeded);
    if total <= 8 * ((n + 7) / 8) {
      forall before ensures GapFree(b, before, removeLinks) {
        GapFreeIff(b, before, removeLinks);
      }
    } else {
      var all := Below(total);
      GapFreeIff(b, all, removeLinks);
      assert 8 * ((n + 7) / 8) in all;
    }
  }

  // ----- what the mask holds afterwards -----

  /** The mask a bucket leaves to the next one. */
  function MaskAfter(b: Bucket, before: set<nat>, acts: seq<Action>): set<nat> {
    StartMask(b.entries, b.numNeeded, before) + NewIds(acts)
  }

  /** It holds the ids in use, and what the bucket did not clear. */
  lemma MaskAfterIs(b: Bucket, before: set<nat>, removeLinks: bool)
    requires Plan(b, before, removeLinks).Some?
    ensures var acts := Plan(b, before, removeLinks).value;
            MaskAfter(b, before, acts)
            == UsedIds(acts) + set id | id in before && id >= 8 * ((b.numNeeded + 7) / 8)
  {
    PlanIsPlanned(b, before, removeLinks);
    UsedIdsSplit(b, before, Plan(b, before, removeLinks).value, removeLinks);
  }
}
