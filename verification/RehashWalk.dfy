/** The walk over the hash table: all buckets of all 257 chains are processed, each one once. */
module RehashWalk {
  import opened CStrings
  import opened RehashSpec
  import opened BitMask
  import opened RehashPlan
  import opened RehashNames
  import opened RehashIdempotent
  import opened RehashTable
  import opened RehashDir
  import opened RehashRun

  // ----- jobs, one after the other -----

  function KeysOf(jobs: seq<Job>): set<Key> {
    set i | 0 <= i < |jobs| :: jobs[i].key
  }

  ghost predicate KeysDiffer(jobs: seq<Job>) {
    forall i, j :: 0 <= i < j < |jobs| ==> jobs[i].key != jobs[j].key
  }

  /** Every job is the bucket that these records build for its key. */
  ghost predicate FromRecords(jobs: seq<Job>, recs: seq<(Key, Record)>) {
    forall i {:trigger jobs[i]} :: 0 <= i < |jobs| ==>
      jobs[i].rs == ForKey(recs, jobs[i].key) && jobs[i].b == Run(jobs[i].rs)
  }

  lemma {:induction false} AfterPrefix(s: DirState, jobs: seq<Job>, job: Job, k: nat, removeLinks: bool)
    requires k <= |jobs|
    ensures After(s, jobs + [job], k, removeLinks) == After(s, jobs, k, removeLinks)
  {
    if k > 0 { AfterPrefix(s, jobs, job, k - 1, removeLinks); }
  }

  lemma ProcessAllSnoc(s: DirState, jobs: seq<Job>, t: DirState, job: Job, removeLinks: bool)
    requires ProcessAll(s, jobs, removeLinks) == Some(t)
    ensures ProcessAll(s, jobs + [job], removeLinks) == Process(t, job, removeLinks)
  {
    AfterPrefix(s, jobs, job, |jobs|, removeLinks);
  }

  lemma JobsSnoc(jobs: seq<Job>, job: Job, recs: seq<(Key, Record)>)
    requires KeysDiffer(jobs) && FromRecords(jobs, recs) && job.key !in KeysOf(jobs)
    requires job.rs == ForKey(recs, job.key) && job.b == Run(job.rs)
    ensures KeysDiffer(jobs + [job]) && FromRecords(jobs + [job], recs)
    ensures KeysOf(jobs + [job]) == KeysOf(jobs) + {job.key}
  {
    var all := jobs + [job];
    assert all[|jobs|] == job;
    forall i | 0 <= i < |jobs| ensures jobs[i].key in KeysOf(all) {
      assert all[i] == jobs[i];
    }
    forall i, j | 0 <= i < j < |all| ensures all[i].key != all[j].key {
      if j == |jobs| { assert jobs[i].key in KeysOf(jobs); }
    }
  }

  // ----- what the jobs of a tidy directory do -----

  /** The scan left every key's records ready for a run. */
  ghost predicate TidyScan(names: map<string, string>, recs: seq<(Key, Record)>) {
    forall key :: key in TableRun(recs) ==> TidyKey(names, recs, key)
  }

  ghost predicate TidyKey(names: map<string, string>, recs: seq<(Key, Record)>, key: Key) {
    ValidKey(key) && JobReady(names, Job(key, Run(ForKey(recs, key)), ForKey(recs, key)))
  }

  lemma TidyIsReady(names: map<string, string>, jobs: seq<Job>, recs: seq<(Key, Record)>)
    requires KeysDiffer(jobs) && FromRecords(jobs, recs) && KeysOf(jobs) <= TableRun(recs).Keys
    requires TidyScan(names, recs)
    ensures AllReady(names, jobs)
  {
    forall i | 0 <= i < |jobs| ensures ValidJob(jobs[i]) && JobReady(names, jobs[i]) {
      assert jobs[i].key in KeysOf(jobs);
      assert TidyKey(names, recs, jobs[i].key);
      RunInv(jobs[i].rs);
      assert jobs[i] == Job(jobs[i].key, Run(ForKey(recs, jobs[i].key)), ForKey(recs, jobs[i].key));
    }
  }

  /** Every key's needed files have their links, from 0 up. */
  ghost predicate AllPlaced(names: map<string, string>, recs: seq<(Key, Record)>) {
    forall key :: key in TableRun(recs) ==> Placed(ForKey(recs, key), View(names, key))
  }

  lemma TidyIsPlaced(s: DirState, jobs: seq<Job>, recs: seq<(Key, Record)>, removeLinks: bool)
    requires KeysDiffer(jobs) && FromRecords(jobs, recs) && KeysOf(jobs) <= TableRun(recs).Keys
    requires TidyScan(s.names, recs)
    ensures ProcessAll(s, jobs, removeLinks).Some?
    ensures KeysOf(jobs) == TableRun(recs).Keys ==> AllPlaced(ProcessAll(s, jobs, removeLinks).value.names, recs)
  {
    TidyIsReady(s.names, jobs, recs);
    ReadyRuns(s, jobs, removeLinks);
    var after := ProcessAll(s, jobs, removeLinks).value.names;
    forall key | key in KeysOf(jobs) ensures Placed(ForKey(recs, key), View(after, key)) {
      var i :| 0 <= i < |jobs| && jobs[i].key == key;
      DirectoryIsPlaced(s, jobs, removeLinks, i);
    }
  }

  // ----- the walk -----

  /** What the walk needs of the table, and no step of it changes. */
  ghost predicate Walkable(table: HashTable, recs: seq<(Key, Record)>)
    reads table, table.buckets, table.nodes
  {
    && Unique(table.buckets) && |table.len| == NUM_SLOTS
    && AllValid(table.buckets, table.nodes) && Represent(table.buckets, TableRun(recs))
    && forall b {:trigger table.Followed(b)} :: b in table.buckets ==> table.Followed(b)
  }

  /** The buckets before bp in the chain of slot i, and all those of earlier slots. */
  ghost predicate Passed(b: HashBucket, i: nat, bp: HashBucket?) {
    Slot(b.key) < i || (Slot(b.key) == i && (bp == null || b.pos > bp.pos))
  }

  ghost predicate Reached(buckets: set<HashBucket>, jobs: seq<Job>, i: nat, bp: HashBucket?) {
    && (forall b :: b in buckets && Passed(b, i, bp) ==> b.key in KeysOf(jobs))
    && (forall key :: key in KeysOf(jobs) ==> exists b :: b in buckets && Passed(b, i, bp) && b.key == key)
  }

  /** After bp comes bp.next. */
  lemma ReachedNext(table: HashTable, recs: seq<(Key, Record)>, jobs: seq<Job>, i: nat, bp: HashBucket, job: Job)
    requires Walkable(table, recs) && bp in table.buckets && Slot(bp.key) == i
    requires Reached(table.buckets, jobs, i, bp) && job.key == bp.key
    requires KeysOf(jobs + [job]) == KeysOf(jobs) + {bp.key}
    ensures Reached(table.buckets, jobs + [job], i, bp.next)
    ensures bp.next != null ==> bp.next in table.buckets && Slot(bp.next.key) == i && bp.next.pos < bp.pos
  {
    assert table.Followed(bp);
    forall b | b in table.buckets && Passed(b, i, bp.next) ensures b == bp || Passed(b, i, bp) {
      assert !Clash(b, bp) && table.Followed(b);
    }
    forall b | b in table.buckets && Passed(b, i, bp) ensures Passed(b, i, bp.next) {
    }
  }

  lemma NotYet(table: HashTable, recs: seq<(Key, Record)>, jobs: seq<Job>, i: nat, bp: HashBucket)
    requires Walkable(table, recs) && bp in table.buckets && Slot(bp.key) == i
    requires Reached(table.buckets, jobs, i, bp)
    ensures bp.key !in KeysOf(jobs)
  {
    forall b | b in table.buckets && Passed(b, i, bp) ensures b.key != bp.key {
      assert !Clash(b, bp);
    }
  }

  /** What is in a bucket of the table is what its records build. */
  lemma BucketIsRun(table: HashTable, recs: seq<(Key, Record)>, bp: HashBucket)
    requires Walkable(table, recs) && bp in table.buckets
    ensures bp.Valid() && bp.Val() == Run(ForKey(recs, bp.key))
  {
    assert BucketOk(bp, table.nodes) && Agrees(bp, TableRun(recs));
    TableIsItsBuckets(recs, bp.key);
  }

  ghost predicate OfTable(buckets: set<HashBucket>, jobs: seq<Job>) {
    forall key :: key in KeysOf(jobs) ==> HasKey(buckets, key)
  }

  lemma KeysAreTheTables(table: HashTable, recs: seq<(Key, Record)>, jobs: seq<Job>)
    requires Walkable(table, recs) && OfTable(table.buckets, jobs)
    ensures KeysOf(jobs) <= TableRun(recs).Keys
  {
    forall key | key in KeysOf(jobs) ensures key in TableRun(recs) {
      assert HasKey(table.buckets, key);
    }
  }

  ghost predicate ChainStands(table: HashTable, i: nat)
    requires i < table.slots.Length && i < |table.len|
    reads table, table.slots
  {
    if table.len[i] == 0 then table.slots[i] == null else table.Stands(table.slots[i], i, table.len[i] - 1)
  }

  /** One chain. */
  method ProcessChain(table: HashTable, i: nat, mask: array<bv8>, dir: LinkDir, removeLinks: bool,
                      ghost recs: seq<(Key, Record)>, ghost s: DirState, ghost jobs0: seq<Job>)
    returns (done: bool, ghost jobs: seq<Job>)
    requires Walkable(table, recs) && mask.Length == 32 && i < NUM_SLOTS == table.slots.Length
    requires ChainStands(table, i) && Reached(table.buckets, jobs0, i, table.slots[i])
    requires KeysDiffer(jobs0) && FromRecords(jobs0, recs)
    requires ProcessAll(s, jobs0, removeLinks) == Some(DirState(dir.names, Bits(mask[..])))
    modifies mask, dir
    ensures Walkable(table, recs) && KeysDiffer(jobs) && FromRecords(jobs, recs)
    ensures OfTable(table.buckets, jobs) && (done ==> Reached(table.buckets, jobs, i, null))
    ensures ProcessAll(s, jobs, removeLinks) == if done then Some(DirState(dir.names, Bits(mask[..]))) else None
  {
    jobs := jobs0;
    var bp := table.slots[i];
    while bp != null
      invariant Walkable(table, recs) && (bp != null ==> bp in table.buckets && Slot(bp.key) == i)
      invariant Reached(table.buckets, jobs, i, bp) && KeysDiffer(jobs) && FromRecords(jobs, recs)
      invariant ProcessAll(s, jobs, removeLinks) == Some(DirState(dir.names, Bits(mask[..])))
      decreases if bp == null then 0 else bp.pos + 1
    {
      BucketIsRun(table, recs, bp);
      NotYet(table, recs, jobs, i, bp);
      ghost var job := Job(bp.key, bp.Val(), ForKey(recs, bp.key));
      ProcessAllSnoc(s, jobs, DirState(dir.names, Bits(mask[..])), job, removeLinks);
      JobsSnoc(jobs, job, recs);
      var nextbp := bp.next;
      ReachedNext(table, recs, jobs, i, bp, job);
      done := ProcessBucket(bp, mask, dir, removeLinks);
      jobs := jobs + [job];
      assert OfTable(table.buckets, jobs);
      if !done {
        return;
      }
      bp := nextbp;
    }
    done := true;
  }

  ghost predicate ReachedTo(buckets: set<HashBucket>, jobs: seq<Job>, i: nat) {
    && (forall b :: b in buckets && Slot(b.key) < i ==> b.key in KeysOf(jobs))
    && (forall key :: key in KeysOf(jobs) ==> exists b :: b in buckets && Slot(b.key) < i && b.key == key)
  }

  lemma EnterChain(table: HashTable, recs: seq<(Key, Record)>, jobs: seq<Job>, i: nat)
    requires Walkable(table, recs) && i < NUM_SLOTS == table.slots.Length
    requires ChainStands(table, i) && ReachedTo(table.buckets, jobs, i)
    ensures Reached(table.buckets, jobs, i, table.slots[i])
  {
    forall b | b in table.buckets ensures Passed(b, i, table.slots[i]) <==> Slot(b.key) < i {
      assert table.Followed(b);
    }
  }

  lemma LeaveChain(buckets: set<HashBucket>, jobs: seq<Job>, i: nat)
    requires Reached(buckets, jobs, i, null)
    ensures ReachedTo(buckets, jobs, i + 1)
  {
    forall b | b in buckets ensures Passed(b, i, null) <==> Slot(b.key) < i + 1 {
    }
  }

  lemma AllReached(table: HashTable, recs: seq<(Key, Record)>, jobs: seq<Job>)
    requires Walkable(table, recs) && ReachedTo(table.buckets, jobs, NUM_SLOTS)
    ensures KeysOf(jobs) == TableRun(recs).Keys
  {
    forall key ensures key in KeysOf(jobs) <==> key in TableRun(recs) {
      assert key in TableRun(recs) <==> HasKey(table.buckets, key);
    }
  }

  /** The chains from slot i on. */
  ghost predicate StandFrom(table: HashTable, i: nat)
    reads table, table.slots
  {
    |table.len| == NUM_SLOTS == table.slots.Length && forall k :: i <= k < NUM_SLOTS ==> ChainStands(table, k)
  }

  method ClearSlot(table: HashTable, i: nat, ghost recs: seq<(Key, Record)>)
    requires Walkable(table, recs) && i < NUM_SLOTS && StandFrom(table, i)
    modifies table.slots
    ensures Walkable(table, recs) && StandFrom(table, i + 1)
  {
    table.slots[i] := null;
    forall k | i + 1 <= k < NUM_SLOTS ensures ChainStands(table, k) {
      assert old(ChainStands(table, k));
    }
  }

  method ProcessSlot(table: HashTable, i: nat, mask: array<bv8>, dir: LinkDir, removeLinks: bool,
                     ghost recs: seq<(Key, Record)>, ghost s: DirState, ghost jobs0: seq<Job>)
    returns (done: bool, ghost jobs: seq<Job>)
    requires Walkable(table, recs) && mask.Length == 32 && i < NUM_SLOTS && StandFrom(table, i)
    requires ReachedTo(table.buckets, jobs0, i) && KeysDiffer(jobs0) && FromRecords(jobs0, recs)
    requires ProcessAll(s, jobs0, removeLinks) == Some(DirState(dir.names, Bits(mask[..])))
    modifies mask, dir, table.slots
    ensures Walkable(table, recs) && StandFrom(table, i + 1)
    ensures KeysDiffer(jobs) && FromRecords(jobs, recs) && KeysOf(jobs) <= TableRun(recs).Keys
    ensures done ==> ReachedTo(table.buckets, jobs, i + 1)
    ensures ProcessAll(s, jobs, removeLinks) == if done then Some(DirState(dir.names, Bits(mask[..]))) else None
  {
    EnterChain(table, recs, jobs0, i);
    done, jobs := ProcessChain(table, i, mask, dir, removeLinks, recs, s, jobs0);
    KeysAreTheTables(table, recs, jobs);
    if done {
      LeaveChain(table.buckets, jobs, i);
      ClearSlot(table, i, recs);
    }
  }

  method WalkTable(table: HashTable, mask: array<bv8>, dir: LinkDir, removeLinks: bool,
                   ghost recs: seq<(Key, Record)>)
    returns (done: bool, ghost jobs: seq<Job>)
    requires table.Valid() && Represent(table.buckets, TableRun(recs)) && mask.Length == 32
    modifies mask, dir, table.slots
    ensures KeysDiffer(jobs) && FromRecords(jobs, recs) && KeysOf(jobs) <= TableRun(recs).Keys
    ensures done ==> KeysOf(jobs) == TableRun(recs).Keys
    ensures ProcessAll(DirState(old(dir.names), old(Bits(mask[..]))), jobs, removeLinks)
            == if done then Some(DirState(dir.names, Bits(mask[..]))) else None
  {
    ghost var s := DirState(dir.names, Bits(mask[..]));
    jobs := [];
    for i := 0 to NUM_SLOTS
      invariant Walkable(table, recs) && StandFrom(table, i)
      invariant KeysDiffer(jobs) && FromRecords(jobs, recs) && ReachedTo(table.buckets, jobs, i)
      invariant ProcessAll(s, jobs, removeLinks) == Some(DirState(dir.names, Bits(mask[..])))
    {
      done, jobs := ProcessSlot(table, i, mask, dir, removeLinks, recs, s, jobs);
      if !done {
        return;
      }
    }
    done := true;
    AllReached(table, recs, jobs);
  }

  /** The whole table: every key's bucket has its turn once, in the order of the chains, with the mask as the one
      before left it; from the scan of a tidy directory, every needed file ends with its link. */
  method ProcessTable(table: HashTable, mask: array<bv8>, dir: LinkDir, removeLinks: bool,
                      ghost recs: seq<(Key, Record)>)
    returns (done: bool, ghost jobs: seq<Job>)
    requires table.Valid() && Represent(table.buckets, TableRun(recs)) && mask.Length == 32
    modifies mask, dir, table.slots
    ensures KeysDiffer(jobs) && FromRecords(jobs, recs)
    ensures done ==> KeysOf(jobs) == TableRun(recs).Keys
    ensures ProcessAll(DirState(old(dir.names), old(Bits(mask[..]))), jobs, removeLinks)
            == if done then Some(DirState(dir.names, Bits(mask[..]))) else None
    ensures TidyScan(old(dir.names), recs) ==> done && AllPlaced(dir.names, recs)
  {
    ghost var s := DirState(dir.names, Bits(mask[..]));
    done, jobs := WalkTable(table, mask, dir, removeLinks, recs);
    if TidyScan(s.names, recs) {
      TidyIsPlaced(s, jobs, recs, removeLinks);
    }
  }
}
