/** A directory in which the left-over mask bits of one bucket open a gap in the link ids of the next. */
module RehashGap {
  import opened CStrings
  import opened RehashSpec
  import opened RehashPlan
  import opened RehashNames
  import opened RehashIdempotent
  import opened RehashDir
  import opened RehashScan
  import opened RehashRun

  // ----- the records, and the buckets they build -----

  function FileName(i: nat): (s: string)
    ensures |s| == i && forall k :: 0 <= k < i ==> s[k] == 'a'
  {
    seq(i, _ => 'a')
  }

  function SomeFiles(n: nat): (rs: seq<Record>)
    ensures |rs| == n
  {
    if n == 0 then [] else SomeFiles(n - 1) + [File(FileName(n), n)]
  }

  function FileEntries(n: nat): (es: seq<Entry>)
    ensures |es| == n
  {
    if n == 0 then [] else FileEntries(n - 1) + [Entry(FileName(n), NO_LINK, true, n)]
  }

  const STALE := Entry("b", 0, false, NIL_DIGEST)

  /** A link at id 0 whose target is no file here, and then n files without links. */
  function StaleRecords(n: nat): seq<Record> {
    [Link("b", 0)] + SomeFiles(n)
  }

  function StaleBucket(n: nat): Bucket {
    Bucket([STALE] + FileEntries(n), n)
  }

  lemma {:induction false} FileEntryIs(n: nat, i: nat)
    requires i < n
    ensures FileEntries(n)[i] == Entry(FileName(i + 1), NO_LINK, true, i + 1)
  {
    if i < n - 1 { FileEntryIs(n - 1, i); }
  }

  lemma {:induction false} FileRecordIs(n: nat, i: nat)
    requires i < n
    ensures SomeFiles(n)[i] == File(FileName(i + 1), i + 1)
  {
    if i < n - 1 { FileRecordIs(n - 1, i); }
  }

  ghost predicate OnlyStale(es: seq<Entry>) {
    |es| <= 1 && forall i :: 0 <= i < |es| ==> es[i] == STALE
  }

  /** No entry has the next file's name or digest. */
  lemma NextIsNew(es0: seq<Entry>, n: nat)
    requires OnlyStale(es0)
    ensures var es := es0 + FileEntries(n);
            Find(es, FileName(n + 1)) < 0 && !HasDigest(es, n + 1)
  {
    var es := es0 + FileEntries(n);
    forall i | 0 <= i < |es| ensures es[i].filename != FileName(n + 1) && es[i].digest != n + 1 {
      if i < |es0| {
        assert es[i] == STALE && FileName(n + 1)[0] == 'a' && "b"[0] == 'b';
      } else {
        FileEntryIs(n, i - |es0|);
        assert |FileName(i - |es0| + 1)| == i - |es0| + 1;
      }
    }
  }

  lemma FileStep(rs: seq<Record>, es: seq<Entry>, n: nat)
    requires Run(rs) == Bucket(es, n) && n < MAX_COLLISIONS
    requires Find(es, FileName(n + 1)) < 0 && !HasDigest(es, n + 1)
    ensures Run(rs + [File(FileName(n + 1), n + 1)])
            == Bucket(es + [Entry(FileName(n + 1), NO_LINK, true, n + 1)], n + 1)
  {
    NewFile(Bucket(es, n), FileName(n + 1), n + 1);
    RunSnoc(rs, File(FileName(n + 1), n + 1));
  }

  lemma OneMore(rs0: seq<Record>, es0: seq<Entry>, n: nat)
    ensures rs0 + SomeFiles(n + 1) == rs0 + SomeFiles(n) + [File(FileName(n + 1), n + 1)]
    ensures es0 + FileEntries(n + 1) == es0 + FileEntries(n) + [Entry(FileName(n + 1), NO_LINK, true, n + 1)]
  {
  }

  lemma {:induction false} RunMore(rs0: seq<Record>, es0: seq<Entry>, n: nat)
    requires OnlyStale(es0) && Run(rs0) == Bucket(es0, 0) && n <= MAX_COLLISIONS
    ensures Run(rs0 + SomeFiles(n)) == Bucket(es0 + FileEntries(n), n)
  {
    if n == 0 {
      assert rs0 + SomeFiles(n) == rs0 && es0 + FileEntries(n) == es0;
    } else {
      var m: nat := n - 1;
      RunMore(rs0, es0, m);
      NextIsNew(es0, m);
      FileStep(rs0 + SomeFiles(m), es0 + FileEntries(m), m);
      OneMore(rs0, es0, m);
    }
  }

  lemma FilesRun(n: nat)
    requires n <= MAX_COLLISIONS
    ensures Run(SomeFiles(n)) == Bucket(FileEntries(n), n)
  {
    RunMore([], [], n);
    assert [] + SomeFiles(n) == SomeFiles(n) && [] + FileEntries(n) == FileEntries(n);
  }

  lemma StaleRun(n: nat)
    requires n <= MAX_COLLISIONS
    ensures Run(StaleRecords(n)) == StaleBucket(n)
  {
    RunFirst(Link("b", 0));
    RunMore([Link("b", 0)], [STALE], n);
  }

  // ----- their plans -----

  lemma {:induction false} NoneStale(es: seq<Entry>, n: nat)
    requires forall i :: 0 <= i < |es| ==> es[i].needed
    ensures StaleLow(es, n) == 0
  {
    if es != [] { NoneStale(es[1..], n); }
  }

  lemma {:induction false} AllNeeded(n: nat)
    ensures NeededCount(FileEntries(n)) == n && forall i :: 0 <= i < n ==> FileEntries(n)[i].needed
  {
    if n > 0 {
      AllNeeded(n - 1);
      assert FileEntries(n)[..n - 1] == FileEntries(n - 1);
    }
  }

  lemma FilesPlannable(n: nat)
    requires n <= MASK_BITS
    ensures Plannable(Bucket(FileEntries(n), n)) && StaleLow(FileEntries(n), n) == 0
  {
    AllNeeded(n);
    NoneStale(FileEntries(n), n);
    forall i | 0 <= i < n ensures FileEntries(n)[i].oldId == NO_LINK {
      FileEntryIs(n, i);
    }
  }

  /** What the entries of the stale bucket ask for. */
  lemma StaleEntries(n: nat, i: nat)
    requires i <= n
    ensures var es := StaleBucket(n).entries;
            es[i] == if i == 0 then STALE else Entry(FileName(i), NO_LINK, true, i)
  {
    if i > 0 { FileEntryIs(n, i - 1); }
  }

  lemma StalePlannable(n: nat)
    requires 0 < n <= MASK_BITS
    ensures Plannable(StaleBucket(n)) && StaleLow(StaleBucket(n).entries, n) == 1
    ensures LowIds(StaleBucket(n).entries, n) == {0} && HighNeeded(StaleBucket(n).entries, n) == n
  {
    var es := StaleBucket(n).entries;
    AllNeeded(n);
    NoneStale(FileEntries(n), n);
    assert es[1..] == FileEntries(n);
    NeededCountCons(es);
    CountsAdd(es, n);
    forall i | 0 <= i <= n ensures es[i].oldId == if i == 0 then 0 else NO_LINK {
      StaleEntries(n, i);
    }
    LowIdsSize(es, n);
    assert es[0].oldId == 0;
    assert LowIds(es, n) == {0};
  }

  lemma StaleBucketGap(n: nat, removeLinks: bool)
    requires 0 < n <= MASK_BITS && n % 8 == 0
    ensures Plannable(StaleBucket(n)) && StaleLow(StaleBucket(n).entries, n) == 1
    ensures !GapFree(StaleBucket(n), {n}, removeLinks)
  {
    StalePlannable(n);
    assert 8 * ((n + 7) / 8) == n;
    assert !Clear(StaleBucket(n), {n});
    GapFreeIff(StaleBucket(n), {n}, removeLinks);
  }

  /** For every multiple of eight files the bucket of these records has a gap if the mask bit n is left over. */
  lemma StaleLinkLeavesGap(n: nat, removeLinks: bool)
    requires 0 < n <= MASK_BITS && n % 8 == 0
    ensures var b := Run(StaleRecords(n));
            Inv(b) && Plannable(b) && StaleLow(b.entries, n) == 1 && !GapFree(b, {n}, removeLinks)
  {
    RunInv(StaleRecords(n));
    StaleBucketGap(n, removeLinks);
    StaleRun(n);
  }

  /** The bucket of n + 1 files before it leaves bit n set and bit n + 1 clear, whatever the mask held at first. */
  lemma FilesLeaveBit(n: nat, before: set<nat>, removeLinks: bool)
    requires 0 < n < MASK_BITS && n % 8 == 0
    ensures var b := Bucket(FileEntries(n + 1), n + 1);
            var p := Plan(b, before, removeLinks);
            p.Some? && n in MaskAfter(b, before, p.value) && n + 1 !in MaskAfter(b, before, p.value)
            && forall id: nat :: id in MaskAfter(b, before, p.value) ==> id <= n || id >= n + 8
  {
    var b := Bucket(FileEntries(n + 1), n + 1);
    FilesPlannable(n + 1);
    NoStaleLowIsGapFree(b, before, removeLinks);
    MaskAfterIs(b, before, removeLinks);
    assert 8 * ((n + 1 + 7) / 8) == n + 8;
  }

  /** So many ids are free that the search does not run off the mask. */
  lemma StaleDoesNotFail(n: nat, before: set<nat>, removeLinks: bool)
    requires 0 < n < MASK_BITS - 1 && n % 8 == 0 && n + 1 !in before
    ensures Plan(StaleBucket(n), before, removeLinks).Some?
  {
    var es, used := StaleBucket(n).entries, StartMask(StaleBucket(n).entries, n, before);
    StalePlannable(n);
    assert 8 * ((n + 7) / 8) == n;
    if Assign(es, n, used, 0, removeLinks).None? {
      var chosen := AssignFails(es, n, used, 0, removeLinks);
      var all := Below(n);
      forall id | id in all - {0} + {n + 1} ensures id in chosen {
        assert id in used + chosen;
      }
      SubsetSize(all - {0} + {n + 1}, chosen);
    }
  }

  /** Were n + 1 not given out, nothing past it would be, and the ids below n are too few. */
  lemma GivesOutNext(b: Bucket, before: set<nat>, acts: seq<Action>, n: nat)
    requires n > 0 && Fresh(acts, StartMask(b.entries, b.numNeeded, before), 0)
    requires UsedIds(acts) == {0} + NewIds(acts) && |UsedIds(acts)| == n + 1 && n !in UsedIds(acts)
    requires n + 1 !in StartMask(b.entries, b.numNeeded, before)
    ensures n + 1 in NewIds(acts)
  {
    if n + 1 !in NewIds(acts) {
      var all := Below(n);
      forall id | id in UsedIds(acts) ensures id in all {
        NoneBeyond(acts, StartMask(b.entries, b.numNeeded, before), n, id);
      }
      SubsetSize(UsedIds(acts), all);
    }
  }

  lemma NoneBeyond(acts: seq<Action>, used: set<nat>, n: nat, id: nat)
    requires Fresh(acts, used, 0) && UsedIds(acts) == {0} + NewIds(acts) && n > 0
    requires id in UsedIds(acts) && n !in UsedIds(acts) && n + 1 !in used + NewIds(acts)
    ensures id < n
  {
    if id in NewIds(acts) {
      assert AllIn(0, id, used + NewIds(acts));
    }
  }

  /** Id n is passed over, and n + 1 given out. */
  lemma StaleSkips(n: nat, before: set<nat>, removeLinks: bool)
    requires 0 < n < MASK_BITS - 1 && n % 8 == 0 && n in before && n + 1 !in before
    ensures var p := Plan(StaleBucket(n), before, removeLinks);
            p.Some? && n !in UsedIds(p.value) && n + 1 in NewIds(p.value)
  {
    StalePlannable(n);
    StaleDoesNotFail(n, before, removeLinks);
    SkipsAs(StaleBucket(n), n, before, removeLinks);
  }

  lemma SkipsAs(b: Bucket, n: nat, before: set<nat>, removeLinks: bool)
    requires b.numNeeded == n > 0 && n % 8 == 0 && Plannable(b) && StaleLow(b.entries, n) == 1
    requires LowIds(b.entries, n) == {0} && n in before && n + 1 !in before
    requires Plan(b, before, removeLinks).Some?
    ensures var acts := Plan(b, before, removeLinks).value;
            n !in UsedIds(acts) && n + 1 in NewIds(acts)
  {
    var acts, used := Plan(b, before, removeLinks).value, StartMask(b.entries, n, before);
    assert n in used && n + 1 !in used by {
      assert 8 * ((n + 7) / 8) == n;
    }
    SkipsWhere(b, n, before, acts, removeLinks);
    IdsDistinct(b, before, removeLinks);
    GivesOutNext(b, before, acts, n);
  }

  lemma SkipsWhere(b: Bucket, n: nat, before: set<nat>, acts: seq<Action>, removeLinks: bool)
    requires Plan(b, before, removeLinks) == Some(acts)
    requires b.numNeeded == n > 0 && LowIds(b.entries, n) == {0} && n in StartMask(b.entries, n, before)
    ensures UsedIds(acts) == {0} + NewIds(acts) && n !in UsedIds(acts)
    ensures Fresh(acts, StartMask(b.entries, n, before), 0)
  {
    PlanIsPlanned(b, before, removeLinks);
    UsedIdsSplit(b, before, acts, removeLinks);
    if n in NewIds(acts) { NewIdIsFree(b, before, acts, removeLinks, n); }
  }

  // ----- the run -----

  ghost predicate NoRemovals(acts: seq<Action>) {
    forall i :: 0 <= i < |acts| ==> !acts[i].Remove?
  }

  lemma ExecSkips(links: map<nat, string>, es: seq<Entry>, acts: seq<Action>, n: nat)
    requires |es| == |acts| && NoRemovals(acts) && DistinctUses(acts)
    requires n !in links && n !in UsedIds(acts) && n + 1 in NewIds(acts)
    ensures n !in Exec(links, es, acts) && n + 1 in Exec(links, es, acts)
  {
    forall i | 0 <= i < |acts| ensures !Touches(acts[i], n) {
      assert Uses(acts[i]) ==> acts[i].id in UsedIds(acts);
    }
    ExecUntouched(links, es, acts, n);
    var k :| 0 <= k < |acts| && acts[k].NewLink? && acts[k].id == n + 1;
    ExecLast(links, es, acts, k, n + 1);
  }

  lemma StaleRemovesNone(n: nat, before: set<nat>, removeLinks: bool)
    requires n > 0 && Plan(StaleBucket(n), before, removeLinks).Some?
    ensures NoRemovals(Plan(StaleBucket(n), before, removeLinks).value)
  {
    var b := StaleBucket(n);
    var acts := Plan(b, before, removeLinks).value;
    PlanIsPlanned(b, before, removeLinks);
    forall i | 0 <= i < |acts| ensures !acts[i].Remove? {
      StaleEntries(n, i);
      assert Fits(b.entries[i], n, acts[i], removeLinks);
    }
  }

  lemma StaleTurn(links: map<nat, string>, n: nat, before: set<nat>, removeLinks: bool)
    requires 0 < n < MASK_BITS - 1 && n % 8 == 0 && n in before && n + 1 !in before && n !in links
    ensures var after := Turn(links, StaleBucket(n), before, removeLinks);
            n !in after && n + 1 in after
  {
    StaleSkips(n, before, removeLinks);
    StaleRemovesNone(n, before, removeLinks);
    StalePlannable(n);
    IdsDistinct(StaleBucket(n), before, removeLinks);
    ExecSkips(links, StaleBucket(n).entries, Plan(StaleBucket(n), before, removeLinks).value, n);
  }

  lemma LinksOfStale(n: nat, links: map<nat, string>)
    requires n > 0 && Scanned(StaleRecords(n), links)
    ensures n !in links
  {
    if n in links {
      var rs := StaleRecords(n);
      assert Link(links[n], n) in rs;
      var i :| 0 <= i < |rs| && rs[i] == Link(links[n], n);
      if i > 0 { FileRecordIs(n, i - 1); }
    }
  }

  function GapJobs(n: nat, k1: Key, k2: Key): seq<Job> {
    [Job(k1, Run(SomeFiles(n + 1)), SomeFiles(n + 1)), Job(k2, Run(StaleRecords(n)), StaleRecords(n))]
  }

  lemma GapJobsAre(n: nat, k1: Key, k2: Key)
    requires n < MAX_COLLISIONS && ValidKey(k1) && ValidKey(k2) && k1 != k2
    ensures var jobs := GapJobs(n, k1, k2);
            DistinctKeys(jobs) && jobs[0].b == Bucket(FileEntries(n + 1), n + 1) && jobs[1].b == StaleBucket(n)
  {
    RunInv(SomeFiles(n + 1));
    RunInv(StaleRecords(n));
    FilesRun(n + 1);
    StaleRun(n);
  }

  lemma GapInTwo(s: DirState, n: nat, jobs: seq<Job>, removeLinks: bool)
    requires 0 < n < MASK_BITS - 1 && n % 8 == 0 && DistinctKeys(jobs)
    requires |jobs| == 2 && jobs[0].b == Bucket(FileEntries(n + 1), n + 1) && jobs[1].b == StaleBucket(n)
    requires n !in View(s.names, jobs[1].key)
    ensures var t := ProcessAll(s, jobs, removeLinks);
            t.Some? && n !in View(t.value.names, jobs[1].key) && n + 1 in View(t.value.names, jobs[1].key)
  {
    TwoRun(s, n, jobs, removeLinks);
    EachKeyItsTurn(s, jobs, removeLinks, 1);
    StaleTurn(View(s.names, jobs[1].key), n, MaskFor(s, jobs, 1, removeLinks), removeLinks);
  }

  lemma TwoRun(s: DirState, n: nat, jobs: seq<Job>, removeLinks: bool)
    requires 0 < n < MASK_BITS - 1 && n % 8 == 0
    requires |jobs| == 2 && jobs[0].b == Bucket(FileEntries(n + 1), n + 1) && jobs[1].b == StaleBucket(n)
    ensures ProcessAll(s, jobs, removeLinks).Some?
    ensures n in MaskFor(s, jobs, 1, removeLinks) && n + 1 !in MaskFor(s, jobs, 1, removeLinks)
  {
    var none, one: nat := 0, 1;
    FilesLeaveBit(n, s.mask, removeLinks);
    assert After(s, jobs, none, removeLinks) == Some(s);
    var t := After(s, jobs, one, removeLinks);
    assert t == Process(s, jobs[0], removeLinks);
    StaleDoesNotFail(n, t.value.mask, removeLinks);
  }

  /** Whatever the mask held at the start, a bucket of n + 1 new files followed by one with a stale link and n new
      files ends with the links of the second skipping id n. */
  lemma GapInARun(s: DirState, n: nat, k1: Key, k2: Key, removeLinks: bool)
    requires 0 < n < MASK_BITS - 1 && n % 8 == 0
    requires ValidKey(k1) && ValidKey(k2) && k1 != k2
    requires Scanned(StaleRecords(n), View(s.names, k2))
    ensures var t := ProcessAll(s, GapJobs(n, k1, k2), removeLinks);
            t.Some? && n !in View(t.value.names, k2) && n + 1 in View(t.value.names, k2)
  {
    GapJobsAre(n, k1, k2);
    LinksOfStale(n, View(s.names, k2));
    GapInTwo(s, n, GapJobs(n, k1, k2), removeLinks);
  }
}
