/** A whole run over a directory: bucket after bucket, and what is then there under every name. */
module RehashRun {
  import opened CStrings
  import opened RehashSpec
  import opened RehashPlan
  import opened RehashNames
  import opened RehashIdempotent
  import opened RehashDir
  import opened RehashScan

  /** One bucket: its key, what it holds, and the records the scan made for it. */
  datatype Job = Job(key: Key, b: Bucket, rs: seq<Record>)

  /** The directory's links and the one mask that all buckets use. */
  datatype DirState = DirState(names: map<string, string>, mask: set<nat>)

  /** One bucket's turn; None when it would clear or read past the end of the mask. */
  function Process(s: DirState, job: Job, removeLinks: bool): Option<DirState> {
    var p := Plan(job.b, s.mask, removeLinks);
    if job.b.numNeeded > MASK_BITS || p.None? then None
    else Some(DirState(ExecNames(s.names, job.key, job.b.entries, p.value), MaskAfter(job.b, s.mask, p.value)))
  }

  /** The state after the first k buckets. */
  function After(s: DirState, jobs: seq<Job>, k: nat, removeLinks: bool): Option<DirState>
    requires k <= |jobs|
  {
    if k == 0 then Some(s)
    else
      var t := After(s, jobs, k - 1, removeLinks);
      if t.None? then None else Process(t.value, jobs[k - 1], removeLinks)
  }

  function ProcessAll(s: DirState, jobs: seq<Job>, removeLinks: bool): Option<DirState> {
    After(s, jobs, |jobs|, removeLinks)
  }

  /** What the mask holds when bucket i has its turn. */
  function MaskFor(s: DirState, jobs: seq<Job>, i: nat, removeLinks: bool): set<nat>
    requires i < |jobs|
  {
    var t := After(s, jobs, i, removeLinks);
    if t.None? then {} else t.value.mask
  }

  /** The links of a key after its bucket's turn. */
  function Turn(links: map<nat, string>, b: Bucket, before: set<nat>, removeLinks: bool): map<nat, string> {
    var p := Plan(b, before, removeLinks);
    if p.None? then links else Exec(links, b.entries, p.value)
  }

  /** Ids of a plan fit the 16 bits of an id. */
  lemma PlanIdsAreSmall(b: Bucket, before: set<nat>, removeLinks: bool)
    requires IdsInRange(b.entries) && Plan(b, before, removeLinks).Some?
    ensures SmallIds(Plan(b, before, removeLinks).value)
  {
    var acts := Plan(b, before, removeLinks).value;
    PlanIsPlanned(b, before, removeLinks);
    forall i | 0 <= i < |acts| && !acts[i].Leave? ensures acts[i].id < 0x1_0000 {
      assert Fits(b.entries[i], b.numNeeded, acts[i], removeLinks);
    }
  }

  ghost predicate ValidJob(job: Job) {
    ValidKey(job.key) && IdsInRange(job.b.entries)
  }

  lemma ProcessView(s: DirState, job: Job, removeLinks: bool, key: Key)
    requires ValidJob(job) && ValidKey(key) && Process(s, job, removeLinks).Some?
    ensures View(Process(s, job, removeLinks).value.names, key)
            == if key == job.key then Turn(View(s.names, key), job.b, s.mask, removeLinks) else View(s.names, key)
  {
    PlanIdsAreSmall(job.b, s.mask, removeLinks);
    ViewsAfter(s.names, job.key, job.b.entries, Plan(job.b, s.mask, removeLinks).value, key);
  }

  ghost predicate ValidJobs(jobs: seq<Job>) {
    forall i :: 0 <= i < |jobs| ==> ValidJob(jobs[i])
  }

  ghost predicate DistinctKeys(jobs: seq<Job>) {
    ValidJobs(jobs) && forall i, j :: 0 <= i < j < |jobs| ==> jobs[i].key != jobs[j].key
  }

  lemma {:induction false} OtherKeysStay(s: DirState, jobs: seq<Job>, k: nat, removeLinks: bool, key: Key)
    requires DistinctKeys(jobs) && ValidKey(key) && k <= |jobs|
    requires forall i :: 0 <= i < k ==> jobs[i].key != key
    requires After(s, jobs, k, removeLinks).Some?
    ensures View(After(s, jobs, k, removeLinks).value.names, key) == View(s.names, key)
  {
    if k > 0 {
      OtherKeysStay(s, jobs, k - 1, removeLinks, key);
      ProcessView(After(s, jobs, k - 1, removeLinks).value, jobs[k - 1], removeLinks, key);
    }
  }

  lemma {:induction false} KeyItsTurn(s: DirState, jobs: seq<Job>, k: nat, removeLinks: bool, i: nat)
    requires DistinctKeys(jobs) && i < k <= |jobs| && After(s, jobs, k, removeLinks).Some?
    ensures View(After(s, jobs, k, removeLinks).value.names, jobs[i].key)
            == Turn(View(s.names, jobs[i].key), jobs[i].b, MaskFor(s, jobs, i, removeLinks), removeLinks)
  {
    ProcessView(After(s, jobs, k - 1, removeLinks).value, jobs[k - 1], removeLinks, jobs[i].key);
    if i < k - 1 {
      KeyItsTurn(s, jobs, k - 1, removeLinks, i);
    } else {
      OtherKeysStay(s, jobs, i, removeLinks, jobs[i].key);
    }
  }

  /** In whatever order the buckets come, each key's links change as its own bucket and the mask it finds say. */
  lemma EachKeyItsTurn(s: DirState, jobs: seq<Job>, removeLinks: bool, i: nat)
    requires DistinctKeys(jobs) && i < |jobs| && ProcessAll(s, jobs, removeLinks).Some?
    ensures View(ProcessAll(s, jobs, removeLinks).value.names, jobs[i].key)
            == Turn(View(s.names, jobs[i].key), jobs[i].b, MaskFor(s, jobs, i, removeLinks), removeLinks)
  {
    KeyItsTurn(s, jobs, |jobs|, removeLinks, i);
  }

  /** The bucket is what the scan makes of a tidy directory, whose links for the key are those as printed. */
  ghost predicate JobReady(names: map<string, string>, job: Job) {
    && job.b == Run(job.rs) && NoNewBlank(job.rs) && |Accepted(job.rs)| < MAX_COLLISIONS
    && Scans(job.rs, names, job.key) && Echoed(names, job.key) && Tidy(job.rs, View(names, job.key))
  }

  ghost predicate AllReady(names: map<string, string>, jobs: seq<Job>) {
    DistinctKeys(jobs) && forall i :: 0 <= i < |jobs| ==> JobReady(names, jobs[i])
  }

  lemma JobReadyIsReady(names: map<string, string>, job: Job)
    requires ValidKey(job.key) && JobReady(names, job)
    ensures Ready(job.rs, View(names, job.key)) && job.b == Run(job.rs)
  {
    ScannedIff(job.rs, names, job.key);
  }

  lemma ReadyRunsOnce(names: map<string, string>, s: DirState, job: Job, removeLinks: bool)
    requires ValidKey(job.key) && JobReady(names, job)
    ensures Process(s, job, removeLinks).Some?
  {
    JobReadyIsReady(names, job);
    ReadyIsPlannable(job.rs, View(names, job.key));
    RunPlaces(job.rs, View(names, job.key), s.mask, removeLinks);
  }

  ghost predicate Runs(job: Job, removeLinks: bool) {
    forall s :: Process(s, job, removeLinks).Some?
  }

  lemma {:induction false} AllRun(s: DirState, jobs: seq<Job>, k: nat, removeLinks: bool)
    requires k <= |jobs| && forall i :: 0 <= i < |jobs| ==> Runs(jobs[i], removeLinks)
    ensures After(s, jobs, k, removeLinks).Some?
  {
    if k > 0 {
      AllRun(s, jobs, k - 1, removeLinks);
      assert Runs(jobs[k - 1], removeLinks);
    }
  }

  lemma ReadyRuns(s: DirState, jobs: seq<Job>, removeLinks: bool)
    requires AllReady(s.names, jobs)
    ensures ProcessAll(s, jobs, removeLinks).Some?
  {
    forall i | 0 <= i < |jobs| ensures Runs(jobs[i], removeLinks) {
      forall t ensures Process(t, jobs[i], removeLinks).Some? {
        ReadyRunsOnce(s.names, t, jobs[i], removeLinks);
      }
    }
    AllRun(s, jobs, |jobs|, removeLinks);
  }

  /** A run over a tidy directory does not fail, and then every key has exactly one link for each of its needed
      files, from 0 up. */
  lemma DirectoryIsPlaced(s: DirState, jobs: seq<Job>, removeLinks: bool, i: nat)
    requires AllReady(s.names, jobs) && i < |jobs|
    ensures var t := ProcessAll(s, jobs, removeLinks);
            t.Some? && Placed(jobs[i].rs, View(t.value.names, jobs[i].key))
  {
    ReadyRuns(s, jobs, removeLinks);
    EachKeyItsTurn(s, jobs, removeLinks, i);
    JobReadyIsReady(s.names, jobs[i]);
    RunPlaces(jobs[i].rs, View(s.names, jobs[i].key), MaskFor(s, jobs, i, removeLinks), removeLinks);
  }

  // ----- a second run -----

  lemma NoOtherNow(s: DirState, job: Job, removeLinks: bool, name: string)
    requires ValidJob(job) && Process(s, job, removeLinks).Some? && !IsPrinted(name) && name !in s.names
    ensures name !in Process(s, job, removeLinks).value.names
  {
    PlanIdsAreSmall(job.b, s.mask, removeLinks);
    NoOtherAppears(s.names, job.key, job.b.entries, Plan(job.b, s.mask, removeLinks).value, name);
  }

  ghost predicate NeverMakes(job: Job, removeLinks: bool, name: string) {
    forall s: DirState :: name !in s.names && Process(s, job, removeLinks).Some?
                          ==> name !in Process(s, job, removeLinks).value.names
  }

  lemma {:induction false} NoneMakes(s: DirState, jobs: seq<Job>, k: nat, removeLinks: bool, name: string)
    requires k <= |jobs| && After(s, jobs, k, removeLinks).Some? && name !in s.names
    requires forall i :: 0 <= i < |jobs| ==> NeverMakes(jobs[i], removeLinks, name)
    ensures name !in After(s, jobs, k, removeLinks).value.names
  {
    if k > 0 {
      NoneMakes(s, jobs, k - 1, removeLinks, name);
      assert NeverMakes(jobs[k - 1], removeLinks, name);
    }
  }

  lemma NoOtherEver(s: DirState, jobs: seq<Job>, removeLinks: bool, name: string)
    requires ValidJobs(jobs) && ProcessAll(s, jobs, removeLinks).Some? && !IsPrinted(name) && name !in s.names
    ensures name !in ProcessAll(s, jobs, removeLinks).value.names
  {
    forall i | 0 <= i < |jobs| ensures NeverMakes(jobs[i], removeLinks, name) {
      forall t: DirState | name !in t.names && Process(t, jobs[i], removeLinks).Some?
        ensures name !in Process(t, jobs[i], removeLinks).value.names
      {
        NoOtherNow(t, jobs[i], removeLinks, name);
      }
    }
    NoneMakes(s, jobs, |jobs|, removeLinks, name);
  }

  lemma RunStaysCanonical(s: DirState, jobs: seq<Job>, removeLinks: bool)
    requires ValidJobs(jobs) && Canonical(s.names) && ProcessAll(s, jobs, removeLinks).Some?
    ensures Canonical(ProcessAll(s, jobs, removeLinks).value.names)
  {
    var after := ProcessAll(s, jobs, removeLinks).value.names;
    forall name | name in after ensures IsPrinted(name) {
      if !IsPrinted(name) { NoOtherEver(s, jobs, removeLinks, name); }
    }
  }

  /** job finds the files of first, and the links that are there now. */
  ghost predicate Rescans(names: map<string, string>, job: Job, first: Job) {
    && job.key == first.key && job.b == Run(job.rs)
    && Files(job.rs) == Files(first.rs) && Scans(job.rs, names, job.key)
  }

  lemma {:induction false} KeepChangesNothing(names: map<string, string>, key: Key, es: seq<Entry>, acts: seq<Action>)
    requires |es| == |acts| && forall i :: 0 <= i < |acts| ==> acts[i].Keep? || acts[i].Leave?
    ensures ExecNames(names, key, es, acts) == names
    decreases |es|
  {
    if es != [] {
      KeepChangesNothing(names, key, es[..|es| - 1], acts[..|es| - 1]);
    }
  }

  ghost predicate IdleWith(names: map<string, string>, job: Job, removeLinks: bool, mask: set<nat>) {
    var t := Process(DirState(names, mask), job, removeLinks);
    t.Some? && t.value.names == names
  }

  ghost predicate Idle(names: map<string, string>, job: Job, removeLinks: bool) {
    forall mask :: IdleWith(names, job, removeLinks, mask)
  }

  lemma SameFilesCount(rs: seq<Record>, rs': seq<Record>)
    requires Files(rs) == Files(rs') && NoNewBlank(rs) && |Accepted(rs)| < MAX_COLLISIONS
    ensures Run(rs').numNeeded < MAX_COLLISIONS
  {
    AcceptedFromFiles(rs);
    AcceptedFromFiles(rs');
    NoNewBlankFromFiles(rs);
    NoNewBlankFromFiles(rs');
    RunIsExpected(rs');
  }

  lemma RescanWith(names: map<string, string>, links: map<nat, string>, first: seq<Record>, before: set<nat>,
                   removeLinks: bool, job: Job, mask: set<nat>)
    requires Ready(first, links) && Plan(Run(first), before, removeLinks).Some?
    requires job.b == Run(job.rs) && Files(job.rs) == Files(first)
    requires Scanned(job.rs, Turn(links, Run(first), before, removeLinks))
    ensures IdleWith(names, job, removeLinks, mask)
  {
    SameFilesCount(first, job.rs);
    SecondRunIsIdle(first, links, before, removeLinks, job.rs, mask);
    KeepChangesNothing(names, job.key, job.b.entries, Plan(job.b, mask, removeLinks).value);
  }

  lemma RescanIsIdle(s: DirState, jobs: seq<Job>, removeLinks: bool, i: nat, job: Job)
    requires AllReady(s.names, jobs) && Canonical(s.names) && i < |jobs|
    requires ProcessAll(s, jobs, removeLinks).Some?
    requires Rescans(ProcessAll(s, jobs, removeLinks).value.names, job, jobs[i])
    ensures Idle(ProcessAll(s, jobs, removeLinks).value.names, job, removeLinks)
  {
    var first, links, after := jobs[i], View(s.names, jobs[i].key), ProcessAll(s, jobs, removeLinks).value.names;
    var before := MaskFor(s, jobs, i, removeLinks);
    EachKeyItsTurn(s, jobs, removeLinks, i);
    JobReadyIsReady(s.names, first);
    RunPlaces(first.rs, links, before, removeLinks);
    RunStaysCanonical(s, jobs, removeLinks);
    CanonicalIsEchoed(after, job.key);
    ScannedIff(job.rs, after, job.key);
    forall mask ensures IdleWith(after, job, removeLinks, mask) {
      RescanWith(after, links, first.rs, before, removeLinks, job, mask);
    }
  }

  lemma {:induction false} AllIdle(s: DirState, jobs: seq<Job>, k: nat, removeLinks: bool)
    requires k <= |jobs| && forall j :: 0 <= j < |jobs| ==> Idle(s.names, jobs[j], removeLinks)
    ensures After(s, jobs, k, removeLinks).Some? && After(s, jobs, k, removeLinks).value.names == s.names
  {
    if k > 0 {
      AllIdle(s, jobs, k - 1, removeLinks);
      var t := After(s, jobs, k - 1, removeLinks).value;
      assert t == DirState(s.names, t.mask);
      assert IdleWith(s.names, jobs[k - 1], removeLinks, t.mask);
    }
  }

  ghost predicate RescansSome(names: map<string, string>, job: Job, jobs: seq<Job>) {
    exists i :: 0 <= i < |jobs| && Rescans(names, job, jobs[i])
  }

  /** A second run over the directory, the buckets and the links in them found in any order and whatever the mask
      holds at its start, changes no name. */
  lemma SecondRunChangesNothing(s: DirState, jobs: seq<Job>, removeLinks: bool, s': DirState, jobs': seq<Job>)
    requires AllReady(s.names, jobs) && Canonical(s.names)
    requires ProcessAll(s, jobs, removeLinks).Some? ==> s'.names == ProcessAll(s, jobs, removeLinks).value.names
    requires forall j :: 0 <= j < |jobs'| ==> RescansSome(s'.names, jobs'[j], jobs)
    ensures ProcessAll(s, jobs, removeLinks).Some?
    ensures ProcessAll(s', jobs', removeLinks).Some? && ProcessAll(s', jobs', removeLinks).value.names == s'.names
  {
    ReadyRuns(s, jobs, removeLinks);
    forall j | 0 <= j < |jobs'| ensures Idle(s'.names, jobs'[j], removeLinks) {
      assert RescansSome(s'.names, jobs'[j], jobs);
      var i :| 0 <= i < |jobs| && Rescans(s'.names, jobs'[j], jobs[i]);
      RescanIsIdle(s, jobs, removeLinks, i, jobs'[j]);
    }
    AllIdle(s', jobs', |jobs'|, removeLinks);
  }
}
