/** What one bucket of the rehash table holds, as values, and what a sequence of records does to it. */
module RehashSpec {
  import opened CStrings

  const MAX_COLLISIONS := 256
  const NO_LINK := 65535

  /** The 20 digest bytes, read as one number: they are only ever compared for equality. */
  type Digest = nat

  /** The zero bytes of an entry no file has claimed. */
  const NIL_DIGEST := 0

  datatype Entry = Entry(filename: string, oldId: nat, needed: bool, digest: Digest)

  datatype Bucket = Bucket(entries: seq<Entry>, numNeeded: nat)

  const EMPTY_BUCKET := Bucket([], 0)

  /** The two ways the directory scan calls add_entry: for a symbolic link, and for a certificate or CRL. */
  datatype Record = Link(target: string, id: nat) | File(name: string, digest: Digest)

  // ----- a bucket's entry list as a map from filenames -----

  predicate HasDigest(es: seq<Entry>, d: Digest) {
    exists i :: 0 <= i < |es| && es[i].digest == d
  }

  ghost predicate DistinctNames(es: seq<Entry>) {
    forall i, j :: 0 <= i < j < |es| ==> es[i].filename != es[j].filename
  }

  /** Position of the last entry with this filename, or -1. */
  function Find(es: seq<Entry>, filename: string): (r: int)
    ensures -1 <= r < |es|
    ensures r >= 0 ==> es[r].filename == filename
    ensures forall i :: r < i < |es| ==> es[i].filename != filename
  {
    if |es| == 0 then -1
    else if es[|es| - 1].filename == filename then |es| - 1
    else Find(es[..|es| - 1], filename)
  }

  function Lookup(es: seq<Entry>, filename: string): Option<Entry> {
    var k := Find(es, filename);
    if k < 0 then None else Some(es[k])
  }

  /** The entry a record is about; a new one starts with no link and unclaimed. */
  function Current(es: seq<Entry>, filename: string): (e: Entry)
    ensures e.filename == filename
  {
    var k := Find(es, filename);
    if k < 0 then Entry(filename, NO_LINK, false, NIL_DIGEST) else es[k]
  }

  function Put(es: seq<Entry>, e: Entry): seq<Entry> {
    var k := Find(es, e.filename);
    if k < 0 then es + [e] else es[k := e]
  }

  lemma FindIsUnique(es: seq<Entry>, k: nat)
    requires DistinctNames(es) && k < |es|
    ensures Find(es, es[k].filename) == k
  {
  }

  lemma PutLookup(es: seq<Entry>, e: Entry, f: string)
    requires DistinctNames(es)
    ensures DistinctNames(Put(es, e))
    ensures Lookup(Put(es, e), f) == if f == e.filename then Some(e) else Lookup(es, f)
  {
    var k := Find(es, e.filename);
    if k < 0 {
      assert (es + [e])[..|es|] == es;
    } else {
      var j := Find(es, f);
      if f == e.filename {
        FindIsUnique(es[k := e], k);
      } else if j >= 0 {
        FindIsUnique(es[k := e], j);
      }
    }
  }

  // ----- one call -----

  function Merge(e: Entry, digest: Option<Digest>, need: bool, oldId: nat): Entry
    requires need ==> digest.Some?
  {
    var e1 := if oldId < e.oldId then e.(oldId := oldId) else e;
    if need && !e1.needed then e1.(needed := true, digest := digest.value) else e1
  }

  /** A duplicate digest is refused, and so is a new filename once MAX_COLLISIONS entries are needed. */
  predicate Accepts(b: Bucket, filename: string, digest: Option<Digest>) {
    && !(digest.Some? && HasDigest(b.entries, digest.value))
    && (Find(b.entries, filename) >= 0 || b.numNeeded < MAX_COLLISIONS)
  }

  /** One call of add_entry on its bucket: the new bucket and the number of errors. */
  function AddEntry(b: Bucket, filename: string, digest: Option<Digest>, need: bool, oldId: nat): (Bucket, nat)
    requires need ==> digest.Some?
  {
    if !Accepts(b, filename, digest) then (b, 1)
    else
      var e := Current(b.entries, filename);
      (Bucket(Put(b.entries, Merge(e, digest, need, oldId)),
              if need && !e.needed then (b.numNeeded + 1) % 0x1_0000 else b.numNeeded), 0)
  }

  function Apply(b: Bucket, r: Record): Bucket {
    match r
    case Link(f, id) => AddEntry(b, f, None, false, id).0
    case File(f, d) => AddEntry(b, f, Some(d), true, NO_LINK).0
  }

  function Run(rs: seq<Record>): Bucket {
    if rs == [] then EMPTY_BUCKET else Apply(Run(rs[..|rs| - 1]), rs[|rs| - 1])
  }

  lemma RunFirst(r: Record)
    ensures Run([r]) == Apply(EMPTY_BUCKET, r)
    ensures r.Link? && r.id < NO_LINK ==> Run([r]) == Bucket([Entry(r.target, r.id, false, NIL_DIGEST)], 0)
    ensures r.File? ==> Run([r]) == Bucket([Entry(r.name, NO_LINK, true, r.digest)], 1)
  {
    assert [r][..0] == [];
  }

  lemma RunSnoc(rs: seq<Record>, r: Record)
    ensures Run(rs + [r]) == Apply(Run(rs), r)
  {
    assert (rs + [r])[..|rs|] == rs;
  }

  lemma FindSnoc(es: seq<Entry>, e: Entry, f: string)
    ensures Find(es + [e], f) == if f == e.filename then |es| else Find(es, f)
  {
    assert (es + [e])[..|es|] == es;
  }

  lemma NewFile(b: Bucket, g: string, d: Digest)
    requires Find(b.entries, g) < 0 && !HasDigest(b.entries, d) && b.numNeeded < MAX_COLLISIONS
    ensures Apply(b, File(g, d)) == Bucket(b.entries + [Entry(g, NO_LINK, true, d)], b.numNeeded + 1)
  {
  }

  // ----- what every call keeps -----

  function NeededCount(es: seq<Entry>): nat {
    if es == [] then 0 else NeededCount(es[..|es| - 1]) + if es[|es| - 1].needed then 1 else 0
  }

  ghost predicate DistinctDigests(es: seq<Entry>) {
    forall i, j :: 0 <= i < j < |es| && es[i].needed && es[j].needed ==> es[i].digest != es[j].digest
  }

  ghost predicate Unclaimed(es: seq<Entry>) {
    forall i :: 0 <= i < |es| && !es[i].needed ==> es[i].digest == NIL_DIGEST
  }

  ghost predicate IdsInRange(es: seq<Entry>) {
    forall i :: 0 <= i < |es| ==> es[i].oldId <= NO_LINK
  }

  /** The bucket invariant; the needed count is a 16-bit field, so it is exact modulo 65536. */
  ghost predicate Inv(b: Bucket) {
    && DistinctNames(b.entries)
    && DistinctDigests(b.entries)
    && Unclaimed(b.entries)
    && IdsInRange(b.entries)
    && b.numNeeded == NeededCount(b.entries) % 0x1_0000
  }

  lemma {:induction false} NeededCountUpdate(es: seq<Entry>, k: nat, e: Entry)
    requires k < |es|
    ensures NeededCount(es[k := e]) ==
            NeededCount(es) - (if es[k].needed then 1 else 0) + (if e.needed then 1 else 0)
  {
    var n := |es| - 1;
    if k < n {
      assert es[k := e][..n] == es[..n][k := e];
      NeededCountUpdate(es[..n], k, e);
    } else {
      assert es[k := e][..n] == es[..n];
    }
  }

  lemma PutNeededCount(es: seq<Entry>, e: Entry)
    ensures NeededCount(Put(es, e)) ==
            NeededCount(es) - (if Current(es, e.filename).needed then 1 else 0) + (if e.needed then 1 else 0)
  {
    var k := Find(es, e.filename);
    if k < 0 {
      assert (es + [e])[..|es|] == es;
    } else {
      NeededCountUpdate(es, k, e);
    }
  }

  lemma PutDistinctDigests(es: seq<Entry>, e: Entry)
    requires DistinctDigests(es)
    requires !HasDigest(es, e.digest) || e.digest == Current(es, e.filename).digest
    requires e.needed && HasDigest(es, e.digest) ==> Current(es, e.filename).needed
    ensures DistinctDigests(Put(es, e))
  {
  }

  lemma PutUnclaimed(es: seq<Entry>, e: Entry)
    requires Unclaimed(es) && IdsInRange(es)
    requires e.oldId <= NO_LINK && (!e.needed ==> e.digest == NIL_DIGEST)
    ensures Unclaimed(Put(es, e)) && IdsInRange(Put(es, e))
  {
  }

  lemma CurrentIsOld(es: seq<Entry>, filename: string)
    requires Unclaimed(es) && IdsInRange(es)
    ensures var e := Current(es, filename);
            e.oldId <= NO_LINK && (!e.needed ==> e.digest == NIL_DIGEST) && (e.needed ==> HasDigest(es, e.digest))
  {
  }

  lemma AddEntryKeepsInv(b: Bucket, filename: string, digest: Option<Digest>, need: bool, oldId: nat)
    requires Inv(b) && (need ==> digest.Some?)
    ensures Inv(AddEntry(b, filename, digest, need, oldId).0)
  {
    var es, e0 := b.entries, Current(b.entries, filename);
    var e := Merge(e0, digest, need, oldId);
    CurrentIsOld(es, filename);
    PutNeededCount(es, e);
    PutUnclaimed(es, e);
    PutLookup(es, e, filename);
    if Accepts(b, filename, digest) {
      PutDistinctDigests(es, e);
    }
  }

  lemma {:induction false} RunInv(rs: seq<Record>)
    ensures Inv(Run(rs))
  {
    if rs != [] {
      var b := Run(rs[..|rs| - 1]);
      RunInv(rs[..|rs| - 1]);
      match rs[|rs| - 1]
      case Link(f, id) => AddEntryKeepsInv(b, f, None, false, id);
      case File(f, d) => AddEntryKeepsInv(b, f, Some(d), true, NO_LINK);
    }
  }

  // ----- what a run leaves behind, read off its records without running it -----

  /** The files a run accepts, with the digest each is accepted under; link records play no part. */
  function Accepted(rs: seq<Record>): map<string, Digest> {
    if rs == [] then map[] else AcceptOne(Accepted(rs[..|rs| - 1]), rs[|rs| - 1])
  }

  function AcceptOne(m: map<string, Digest>, r: Record): map<string, Digest> {
    match r
    case Link(_, _) => m
    case File(f, d) => if d in m.Values || f in m then m else m[f := d]
  }

  /** The least id of a link to f, or NO_LINK. */
  function LeastId(rs: seq<Record>, f: string): (id: nat)
    ensures id <= NO_LINK
    ensures forall i :: Link(f, i) in rs ==> id <= i
    ensures id == NO_LINK || Link(f, id) in rs
    ensures !HasLink(rs, f) ==> id == NO_LINK
  {
    if rs == [] then NO_LINK
    else
      var id := LeastId(rs[..|rs| - 1], f);
      var r := rs[|rs| - 1];
      assert rs == rs[..|rs| - 1] + [r];
      if r.Link? && r.target == f && r.id < id then r.id else id
  }

  predicate HasLink(rs: seq<Record>, f: string) {
    exists r :: r in rs && r.Link? && r.target == f
  }

  function Expected(rs: seq<Record>, f: string): Option<Entry> {
    var m := Accepted(rs);
    if f in m then Some(Entry(f, LeastId(rs, f), true, m[f]))
    else if HasLink(rs, f) then Some(Entry(f, LeastId(rs, f), false, NIL_DIGEST))
    else None
  }

  /** A file with an all-zero digest whose name is not accepted yet. */
  predicate IsNewBlank(m: map<string, Digest>, r: Record) {
    r.File? && r.digest == NIL_DIGEST && r.name !in m
  }

  predicate NewBlank(rs: seq<Record>, i: nat)
    requires i < |rs|
  {
    IsNewBlank(Accepted(rs[..i]), rs[i])
  }

  ghost predicate NoNewBlank(rs: seq<Record>) {
    forall i :: 0 <= i < |rs| ==> !NewBlank(rs, i)
  }

  lemma NoNewBlankSnoc(rs: seq<Record>, r: Record)
    ensures NoNewBlank(rs + [r]) <==> NoNewBlank(rs) && !IsNewBlank(Accepted(rs), r)
  {
    var all := rs + [r];
    assert all[..|rs|] == rs;
    assert NoNewBlank(all) ==> !NewBlank(all, |rs|);
    forall i | 0 <= i < |rs| ensures NewBlank(all, i) <==> NewBlank(rs, i) {
      assert all[..i] == rs[..i];
    }
  }

  lemma {:induction false} NoNewBlankNoBlank(rs: seq<Record>)
    requires NoNewBlank(rs)
    ensures NIL_DIGEST !in Accepted(rs).Values
  {
    if rs != [] {
      var rs0, r := rs[..|rs| - 1], rs[|rs| - 1];
      assert rs == rs0 + [r];
      NoNewBlankSnoc(rs0, r);
      NoNewBlankNoBlank(rs0);
    }
  }

  /** The bucket holds, under every filename, what the records say. */
  ghost predicate AsExpected(b: Bucket, rs: seq<Record>) {
    && (forall f :: Lookup(b.entries, f) == Expected(rs, f))
    && b.numNeeded == NeededCount(b.entries) == |Accepted(rs)|
  }

  /** A digest is taken exactly when some accepted file has it. */
  lemma DigestIsAccepted(b: Bucket, rs: seq<Record>, d: Digest)
    requires Inv(b) && AsExpected(b, rs)
    requires d != NIL_DIGEST
    ensures HasDigest(b.entries, d) <==> d in Accepted(rs).Values
  {
    var m := Accepted(rs);
    if HasDigest(b.entries, d) {
      var i :| 0 <= i < |b.entries| && b.entries[i].digest == d;
      FindIsUnique(b.entries, i);
      assert Lookup(b.entries, b.entries[i].filename) == Expected(rs, b.entries[i].filename);
    }
    if d in m.Values {
      var f :| f in m && m[f] == d;
      assert Lookup(b.entries, f) == Expected(rs, f);
    }
  }

  /** A call is refused, with one error and nothing changed, exactly for a digest that some entry has or for a new
      filename when 256 entries are needed. */
  lemma RefusedIff(b: Bucket, filename: string, digest: Option<Digest>, need: bool, oldId: nat)
    requires need ==> digest.Some?
    ensures var (b', errs) := AddEntry(b, filename, digest, need, oldId);
            && (errs == 0 || (errs == 1 && b' == b))
            && (errs == 1 <==>
                  || (digest.Some? && exists i :: 0 <= i < |b.entries| && b.entries[i].digest == digest.value)
                  || (b.numNeeded >= 256 && forall i :: 0 <= i < |b.entries| ==> b.entries[i].filename != filename))
  {
    var k := Find(b.entries, filename);
    assert k >= 0 ==> b.entries[k].filename == filename;
  }

  /** So below the cap a link is never refused, and a file exactly when a file with its digest was accepted. */
  lemma RunRefuses(rs: seq<Record>, f: string, d: Digest, id: nat)
    requires NoNewBlank(rs) && |Accepted(rs)| < MAX_COLLISIONS && d != NIL_DIGEST
    ensures AddEntry(Run(rs), f, None, false, id).1 == 0
    ensures AddEntry(Run(rs), f, Some(d), true, NO_LINK).1 == 1 <==> d in Accepted(rs).Values
  {
    RunIsExpected(rs);
    RunInv(rs);
    DigestIsAccepted(Run(rs), rs, d);
  }

  lemma RecordsSnoc(rs: seq<Record>, r: Record, f: string)
    ensures Accepted(rs + [r]) == AcceptOne(Accepted(rs), r)
    ensures LeastId(rs + [r], f) ==
            if r.Link? && r.target == f && r.id < LeastId(rs, f) then r.id else LeastId(rs, f)
    ensures HasLink(rs + [r], f) <==> HasLink(rs, f) || (r.Link? && r.target == f)
  {
    assert (rs + [r])[..|rs|] == rs;
    if HasLink(rs, f) {
      var q :| q in rs && q.Link? && q.target == f;
      assert q in rs + [r];
    }
    if r.Link? && r.target == f { assert r in rs + [r]; }
  }

  lemma LinkIsExpected(b: Bucket, rs: seq<Record>, g: string, id: nat, f: string)
    requires Inv(b) && AsExpected(b, rs) && b.numNeeded < MAX_COLLISIONS
    ensures Lookup(Apply(b, Link(g, id)).entries, f) == Expected(rs + [Link(g, id)], f)
  {
    RecordsSnoc(rs, Link(g, id), f);
    PutLookup(b.entries, Merge(Current(b.entries, g), None, false, id), f);
    assert Lookup(b.entries, g) == Expected(rs, g);
    assert Lookup(b.entries, f) == Expected(rs, f);
  }

  /** A file accepted before changes nothing, whatever its digest now. */
  lemma KnownFileChangesNothing(b: Bucket, rs: seq<Record>, g: string, d: Digest)
    requires Inv(b) && AsExpected(b, rs) && g in Accepted(rs)
    ensures Apply(b, File(g, d)) == b
  {
    assert Lookup(b.entries, g) == Expected(rs, g);
    var k := Find(b.entries, g);
    assert b.entries[k].needed && b.entries[k].oldId <= NO_LINK;
    assert b.entries[k := b.entries[k]] == b.entries;
  }

  lemma FileIsExpected(b: Bucket, rs: seq<Record>, g: string, d: Digest, f: string)
    requires Inv(b) && AsExpected(b, rs) && b.numNeeded < MAX_COLLISIONS && d != NIL_DIGEST
    ensures Lookup(Apply(b, File(g, d)).entries, f) == Expected(rs + [File(g, d)], f)
  {
    RecordsSnoc(rs, File(g, d), f);
    DigestIsAccepted(b, rs, d);
    assert Lookup(b.entries, g) == Expected(rs, g);
    assert Lookup(b.entries, f) == Expected(rs, f);
    if !HasDigest(b.entries, d) {
      PutLookup(b.entries, Merge(Current(b.entries, g), Some(d), true, NO_LINK), f);
    }
  }

  lemma LinkKeepsCount(b: Bucket, g: string, id: nat)
    requires Inv(b) && b.numNeeded < MAX_COLLISIONS && b.numNeeded == NeededCount(b.entries)
    ensures Apply(b, Link(g, id)).numNeeded == b.numNeeded == NeededCount(Apply(b, Link(g, id)).entries)
  {
    PutNeededCount(b.entries, Merge(Current(b.entries, g), None, false, id));
  }

  lemma FileIsCounted(b: Bucket, rs: seq<Record>, g: string, d: Digest)
    requires Inv(b) && AsExpected(b, rs) && b.numNeeded < MAX_COLLISIONS && d != NIL_DIGEST
    ensures var b' := Apply(b, File(g, d));
            b'.numNeeded == NeededCount(b'.entries) == |AcceptOne(Accepted(rs), File(g, d))|
  {
    DigestIsAccepted(b, rs, d);
    assert Lookup(b.entries, g) == Expected(rs, g);
    PutNeededCount(b.entries, Merge(Current(b.entries, g), Some(d), true, NO_LINK));
  }

  lemma CountIsExpected(b: Bucket, rs: seq<Record>, r: Record)
    requires Inv(b) && AsExpected(b, rs) && b.numNeeded < MAX_COLLISIONS && !IsNewBlank(Accepted(rs), r)
    ensures Apply(b, r).numNeeded == NeededCount(Apply(b, r).entries) == |AcceptOne(Accepted(rs), r)|
  {
    match r
    case Link(g, id) => LinkKeepsCount(b, g, id);
    case File(g, d) =>
      if g in Accepted(rs) { KnownFileChangesNothing(b, rs, g, d); } else { FileIsCounted(b, rs, g, d); }
  }

  lemma StepIsExpected(b: Bucket, rs: seq<Record>, r: Record)
    requires Inv(b) && AsExpected(b, rs) && b.numNeeded < MAX_COLLISIONS && !IsNewBlank(Accepted(rs), r)
    ensures AsExpected(Apply(b, r), rs + [r])
  {
    RecordsSnoc(rs, r, "");
    CountIsExpected(b, rs, r);
    forall f ensures Lookup(Apply(b, r).entries, f) == Expected(rs + [r], f) {
      match r
      case Link(g, id) => LinkIsExpected(b, rs, g, id, f);
      case File(g, d) =>
        if g in Accepted(rs) {
          KnownFileChangesNothing(b, rs, g, d);
          RecordsSnoc(rs, r, f);
          assert Lookup(b.entries, f) == Expected(rs, f);
        } else {
          FileIsExpected(b, rs, g, d, f);
        }
    }
  }

  /** Below the collision cap and with no all-zero digest for a new file, the bucket is exactly what the records
      say. */
  lemma {:induction false} RunIsExpected(rs: seq<Record>)
    requires NoNewBlank(rs)
    requires |Accepted(rs)| < MAX_COLLISIONS
    ensures AsExpected(Run(rs), rs)
  {
    if rs != [] {
      var rs0, r := rs[..|rs| - 1], rs[|rs| - 1];
      assert rs == rs0 + [r];
      RecordsSnoc(rs0, r, "");
      NoNewBlankSnoc(rs0, r);
      RunIsExpected(rs0);
      RunInv(rs0);
      StepIsExpected(Run(rs0), rs0, r);
    }
  }

  // ----- the files of a run -----

  function Files(rs: seq<Record>): seq<Record> {
    if rs == [] then []
    else if rs[|rs| - 1].File? then Files(rs[..|rs| - 1]) + [rs[|rs| - 1]]
    else Files(rs[..|rs| - 1])
  }

  lemma {:induction false} AcceptedFromFiles(rs: seq<Record>)
    ensures Accepted(rs) == Accepted(Files(rs))
  {
    if rs != [] {
      var rs0, r := rs[..|rs| - 1], rs[|rs| - 1];
      AcceptedFromFiles(rs0);
      assert (Files(rs0) + [r])[..|Files(rs0)|] == Files(rs0);
    }
  }

  /** Link records have no say in whether a file is new. */
  lemma {:induction false} NoNewBlankFromFiles(rs: seq<Record>)
    ensures NoNewBlank(rs) <==> NoNewBlank(Files(rs))
  {
    if rs != [] {
      var rs0, r := rs[..|rs| - 1], rs[|rs| - 1];
      assert rs == rs0 + [r];
      NoNewBlankFromFiles(rs0);
      AcceptedFromFiles(rs0);
      NoNewBlankSnoc(rs0, r);
      NoNewBlankSnoc(Files(rs0), r);
    }
  }

  // ----- the whole table -----

  /** A bucket's type and hash fields: 0 for certificates or 1 for CRLs, and the 32-bit name hash. */
  datatype Key = Key(kind: nat, hash: nat)

  /** add_entry on the whole table, as a map from keys to buckets. */
  function TableAdd(t: map<Key, Bucket>, key: Key, filename: string, digest: Option<Digest>, need: bool, oldId: nat)
    : (map<Key, Bucket>, nat)
    requires need ==> digest.Some?
  {
    var (b, errs) := AddEntry(if key in t then t[key] else EMPTY_BUCKET, filename, digest, need, oldId);
    (t[key := b], errs)
  }

  function ApplyTable(t: map<Key, Bucket>, key: Key, r: Record): map<Key, Bucket> {
    match r
    case Link(f, id) => TableAdd(t, key, f, None, false, id).0
    case File(f, d) => TableAdd(t, key, f, Some(d), true, NO_LINK).0
  }

  function TableRun(rs: seq<(Key, Record)>): map<Key, Bucket> {
    if rs == [] then map[] else ApplyTable(TableRun(rs[..|rs| - 1]), rs[|rs| - 1].0, rs[|rs| - 1].1)
  }

  function ForKey(rs: seq<(Key, Record)>, key: Key): seq<Record> {
    if rs == [] then []
    else if rs[|rs| - 1].0 == key then ForKey(rs[..|rs| - 1], key) + [rs[|rs| - 1].1]
    else ForKey(rs[..|rs| - 1], key)
  }

  /** Every bucket of the table is the run of its own records, so what holds of runs holds of it. */
  lemma {:induction false} TableIsItsBuckets(rs: seq<(Key, Record)>, key: Key)
    ensures key in TableRun(rs) <==> ForKey(rs, key) != []
    ensures key in TableRun(rs) ==> TableRun(rs)[key] == Run(ForKey(rs, key)) && Inv(TableRun(rs)[key])
  {
    if rs != [] {
      var (k, r) := rs[|rs| - 1];
      var mine := ForKey(rs[..|rs| - 1], key);
      TableIsItsBuckets(rs[..|rs| - 1], key);
      assert (mine + [r])[..|mine|] == mine;
      RunInv(ForKey(rs, key));
    }
  }
}
