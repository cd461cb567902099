/** When the order in which a scan comes across links and files does not matter, exactly. */
module RehashCommute {
  import opened CStrings
  import opened RehashSpec

  ghost predicate SameLinks(rs: seq<Record>, rs': seq<Record>) {
    forall f, id :: Link(f, id) in rs <==> Link(f, id) in rs'
  }

  lemma SameLinksSameIds(rs: seq<Record>, rs': seq<Record>, f: string)
    requires SameLinks(rs, rs')
    ensures LeastId(rs, f) == LeastId(rs', f)
    ensures HasLink(rs, f) <==> HasLink(rs', f)
  {
    if HasLink(rs, f) {
      var r :| r in rs && r.Link? && r.target == f;
      assert Link(f, r.id) in rs';
    }
    if HasLink(rs', f) {
      var r :| r in rs' && r.Link? && r.target == f;
      assert Link(f, r.id) in rs;
    }
  }

  ghost predicate SameContents(b: Bucket, b': Bucket) {
    b.numNeeded == b'.numNeeded && forall f :: Lookup(b.entries, f) == Lookup(b'.entries, f)
  }

  /** Only the order of the files matters: where the links stand among them does not. */
  lemma LinksCommute(rs: seq<Record>, rs': seq<Record>)
    requires NoNewBlank(rs) && |Accepted(rs)| < MAX_COLLISIONS
    requires Files(rs) == Files(rs') && SameLinks(rs, rs')
    ensures SameContents(Run(rs), Run(rs'))
  {
    AcceptedFromFiles(rs);
    AcceptedFromFiles(rs');
    NoNewBlankFromFiles(rs);
    NoNewBlankFromFiles(rs');
    RunIsExpected(rs);
    RunIsExpected(rs');
    forall f ensures Lookup(Run(rs).entries, f) == Lookup(Run(rs').entries, f) {
      SameLinksSameIds(rs, rs', f);
      assert Lookup(Run(rs).entries, f) == Expected(rs, f);
      assert Lookup(Run(rs').entries, f) == Expected(rs', f);
    }
  }

  // ----- what a file alone decides -----

  ghost predicate OnlyFiles(fs: seq<Record>) {
    forall i :: 0 <= i < |fs| ==> fs[i].File?
  }

  /** Files with these records in this order leave the same contents wherever links stand among them. */
  ghost predicate Commute(fs: seq<Record>) {
    forall rs, rs' :: Files(rs) == fs && Files(rs') == fs && SameLinks(rs, rs') ==> SameContents(Run(rs), Run(rs'))
  }

  /** A bucket of files only: all entries are needed, and their digests are the accepted ones. */
  ghost predicate AllFiles(b: Bucket, m: map<string, Digest>) {
    && (forall i :: 0 <= i < |b.entries| ==>
          b.entries[i].needed && b.entries[i].filename in m && m[b.entries[i].filename] == b.entries[i].digest)
    && (forall f :: f in m ==> Find(b.entries, f) >= 0)
    && b.numNeeded == |m|
  }

  lemma AllFilesDigests(b: Bucket, m: map<string, Digest>, d: Digest)
    requires AllFiles(b, m)
    ensures HasDigest(b.entries, d) <==> d in m.Values
  {
    if d in m.Values {
      var f :| f in m && m[f] == d;
      assert b.entries[Find(b.entries, f)].digest == d;
    }
  }

  /** A file whose name is in the bucket already changes nothing there. */
  lemma KnownName(b: Bucket, g: string, d: Digest)
    requires Find(b.entries, g) >= 0 && Current(b.entries, g).needed && Current(b.entries, g).oldId <= NO_LINK
    ensures Apply(b, File(g, d)) == b
  {
    var k := Find(b.entries, g);
    assert b.entries[k := b.entries[k]] == b.entries;
  }

  lemma TakenDigest(b: Bucket, g: string, d: Digest)
    requires HasDigest(b.entries, d)
    ensures Apply(b, File(g, d)) == b
  {
  }

  lemma NewLink(b: Bucket, g: string)
    requires Find(b.entries, g) < 0 && b.numNeeded < MAX_COLLISIONS
    ensures Apply(b, Link(g, 0)) == Bucket(b.entries + [Entry(g, 0, false, NIL_DIGEST)], b.numNeeded)
  {
  }

  lemma NoRoom(b: Bucket, g: string)
    requires Full(b, g)
    ensures Apply(b, Link(g, 0)) == b
  {
  }

  lemma AllFilesNew(b: Bucket, m: map<string, Digest>, g: string, d: Digest)
    requires AllFiles(b, m) && g !in m
    ensures AllFiles(Bucket(b.entries + [Entry(g, NO_LINK, true, d)], b.numNeeded + 1), m[g := d])
  {
    var e := Entry(g, NO_LINK, true, d);
    forall f | f in m[g := d] ensures Find(b.entries + [e], f) >= 0 {
      FindSnoc(b.entries, e, f);
    }
  }

  /** The names in the bucket are the accepted ones. */
  lemma AllFilesFind(b: Bucket, m: map<string, Digest>, g: string)
    requires AllFiles(b, m)
    ensures Find(b.entries, g) >= 0 <==> g in m
    ensures g in m ==> Current(b.entries, g).needed
  {
  }

  lemma AllFilesStep(b: Bucket, m: map<string, Digest>, g: string, d: Digest)
    requires AllFiles(b, m) && IdsInRange(b.entries) && |AcceptOne(m, File(g, d))| <= MAX_COLLISIONS
    ensures AllFiles(Apply(b, File(g, d)), AcceptOne(m, File(g, d)))
  {
    AllFilesDigests(b, m, d);
    AllFilesFind(b, m, g);
    if g in m {
      KnownName(b, g, d);
    } else if d in m.Values {
      TakenDigest(b, g, d);
    } else {
      NewFile(b, g, d);
      AllFilesNew(b, m, g, d);
    }
  }

  lemma {:induction false} FilesAreAllFiles(fs: seq<Record>)
    requires OnlyFiles(fs) && |Accepted(fs)| <= MAX_COLLISIONS
    ensures AllFiles(Run(fs), Accepted(fs))
  {
    if fs != [] {
      var fs0, r := fs[..|fs| - 1], fs[|fs| - 1];
      FilesAreAllFiles(fs0);
      RunInv(fs0);
      AllFilesStep(Run(fs0), Accepted(fs0), r.name, r.digest);
    }
  }

  // ----- what later records cannot undo -----

  /** f is a file's, under this digest. */
  ghost predicate Claimed(b: Bucket, f: string, d: Digest) {
    var e := Current(b.entries, f);
    e.needed && e.digest == d
  }

  /** g stands unclaimed, and f is not claimed with the zero digest. */
  ghost predicate Blocked(b: Bucket, g: string, f: string) {
    Lookup(b.entries, g).Some? && !Current(b.entries, g).needed && !Claimed(b, f, NIL_DIGEST)
  }

  /** No room for g. */
  ghost predicate Full(b: Bucket, g: string) {
    && b.numNeeded == MAX_COLLISIONS
    && (forall i :: 0 <= i < |b.entries| ==> b.entries[i].needed)
    && Find(b.entries, g) < 0
  }

  lemma ClaimedStep(b: Bucket, r: Record, f: string, d: Digest)
    requires Inv(b) && Claimed(b, f, d)
    ensures Claimed(Apply(b, r), f, d)
  {
    match r
    case Link(g, id) => PutLookup(b.entries, Merge(Current(b.entries, g), None, false, id), f);
    case File(g, d') => PutLookup(b.entries, Merge(Current(b.entries, g), Some(d'), true, NO_LINK), f);
  }

  lemma BlockedStep(b: Bucket, r: Record, g: string, f: string)
    requires Inv(b) && Blocked(b, g, f) && r.File? && r.name != g
    ensures Blocked(Apply(b, r), g, f)
  {
    var e := Merge(Current(b.entries, r.name), Some(r.digest), true, NO_LINK);
    PutLookup(b.entries, e, f);
    PutLookup(b.entries, e, g);
    assert b.entries[Find(b.entries, g)].digest == NIL_DIGEST;
  }

  lemma FullStep(b: Bucket, r: Record, g: string)
    requires Inv(b) && Full(b, g) && r.File? && r.name != g
    ensures Full(Apply(b, r), g)
  {
    PutLookup(b.entries, Merge(Current(b.entries, r.name), Some(r.digest), true, NO_LINK), g);
  }

  lemma ClaimedRun(rs: seq<Record>, r: Record, f: string, d: Digest)
    requires Claimed(Run(rs), f, d)
    ensures Claimed(Run(rs + [r]), f, d)
  {
    RunInv(rs);
    RunSnoc(rs, r);
    ClaimedStep(Run(rs), r, f, d);
  }

  lemma {:induction false} ClaimedStays(rs: seq<Record>, later: seq<Record>, f: string, d: Digest)
    requires Claimed(Run(rs), f, d)
    ensures Claimed(Run(rs + later), f, d)
  {
    if later == [] {
      assert rs + later == rs;
    } else {
      var n := |later| - 1;
      ClaimedStays(rs, later[..n], f, d);
      ClaimedRun(rs + later[..n], later[n], f, d);
      assert rs + later == rs + later[..n] + [later[n]];
    }
  }

  lemma BlockedRun(rs: seq<Record>, r: Record, g: string, f: string)
    requires Blocked(Run(rs), g, f) && r.File? && r.name != g
    ensures Blocked(Run(rs + [r]), g, f)
  {
    RunInv(rs);
    RunSnoc(rs, r);
    BlockedStep(Run(rs), r, g, f);
  }

  lemma {:induction false} BlockedStays(rs: seq<Record>, later: seq<Record>, g: string, f: string)
    requires Blocked(Run(rs), g, f) && OnlyFiles(later) && Unnamed(later, g)
    ensures Blocked(Run(rs + later), g, f)
  {
    if later == [] {
      assert rs + later == rs;
    } else {
      var n := |later| - 1;
      BlockedStays(rs, later[..n], g, f);
      BlockedRun(rs + later[..n], later[n], g, f);
      assert rs + later == rs + later[..n] + [later[n]];
    }
  }

  lemma FullRun(rs: seq<Record>, r: Record, g: string)
    requires Full(Run(rs), g) && r.File? && r.name != g
    ensures Full(Run(rs + [r]), g)
  {
    RunInv(rs);
    RunSnoc(rs, r);
    FullStep(Run(rs), r, g);
  }

  lemma {:induction false} FullStays(rs: seq<Record>, later: seq<Record>, g: string)
    requires Full(Run(rs), g) && OnlyFiles(later) && Unnamed(later, g)
    ensures Full(Run(rs + later), g)
  {
    if later == [] {
      assert rs + later == rs;
    } else {
      var n := |later| - 1;
      FullStays(rs, later[..n], g);
      FullRun(rs + later[..n], later[n], g);
      assert rs + later == rs + later[..n] + [later[n]];
    }
  }

  // ----- a link put before or after a file -----

  /** g is the name of none of these files. */
  ghost predicate Unnamed(fs: seq<Record>, g: string) {
    forall i :: 0 <= i < |fs| && fs[i].File? ==> fs[i].name != g
  }

  lemma SomeOtherName(fs: seq<Record>) returns (g: string)
    ensures Unnamed(fs, g)
  {
    g := LongerName(fs);
    forall i | 0 <= i < |fs| && fs[i].File? ensures fs[i].name != g {
      assert |fs[i].name| < |g|;
    }
  }

  lemma {:induction false} LongerName(fs: seq<Record>) returns (g: string)
    ensures |g| > 0 && forall i :: 0 <= i < |fs| && fs[i].File? ==> |fs[i].name| < |g|
  {
    if fs == [] {
      g := "a";
    } else {
      var n := |fs| - 1;
      g := LongerName(fs[..n]);
      if fs[n].File? {
        g := g + fs[n].name;
      }
    }
  }

  lemma {:induction false} FilesOfFiles(fs: seq<Record>)
    requires OnlyFiles(fs)
    ensures Files(fs) == fs
  {
    if fs != [] {
      FilesOfFiles(fs[..|fs| - 1]);
      assert fs == fs[..|fs| - 1] + [fs[|fs| - 1]];
    }
  }

  lemma FilesSnoc(rs: seq<Record>, r: Record)
    ensures Files(rs + [r]) == if r.File? then Files(rs) + [r] else Files(rs)
  {
    assert (rs + [r])[..|rs|] == rs;
  }

  /** rs is fs with one link put in after its first i files. */
  ghost predicate HasOneLink(rs: seq<Record>, fs: seq<Record>, i: nat, g: string) {
    i <= |fs| && rs == fs[..i] + [Link(g, 0)] + fs[i..]
  }

  lemma {:induction false} FilesWithLink(pre: seq<Record>, g: string, post: seq<Record>)
    requires OnlyFiles(pre) && OnlyFiles(post)
    ensures Files(pre + [Link(g, 0)] + post) == pre + post
  {
    var rs := pre + [Link(g, 0)];
    if post == [] {
      FilesSnoc(pre, Link(g, 0));
      FilesOfFiles(pre);
      assert rs + post == rs && pre + post == pre;
    } else {
      var n := |post| - 1;
      FilesWithLink(pre, g, post[..n]);
      FilesSnoc(rs + post[..n], post[n]);
      assert rs + post == rs + post[..n] + [post[n]];
      assert pre + post == pre + post[..n] + [post[n]];
    }
  }

  lemma OneLinkFiles(rs: seq<Record>, fs: seq<Record>, i: nat, g: string)
    requires OnlyFiles(fs) && HasOneLink(rs, fs, i, g)
    ensures Files(rs) == fs
  {
    FilesWithLink(fs[..i], g, fs[i..]);
    assert fs[..i] + fs[i..] == fs;
  }

  lemma OneLinkIs(rs: seq<Record>, fs: seq<Record>, i: nat, g: string, f: string, id: nat)
    requires OnlyFiles(fs) && HasOneLink(rs, fs, i, g)
    ensures Link(f, id) in rs <==> f == g && id == 0
  {
    assert rs[i] == Link(g, 0);
    forall k | 0 <= k < |rs| && k != i ensures rs[k].File? {
      assert rs[k] == if k < i then fs[k] else fs[k - 1];
    }
  }

  lemma SameOneLink(fs: seq<Record>, rs: seq<Record>, i: nat, rs': seq<Record>, j: nat, g: string)
    requires OnlyFiles(fs) && HasOneLink(rs, fs, i, g) && HasOneLink(rs', fs, j, g)
    ensures SameLinks(rs, rs')
  {
    forall t, id ensures Link(t, id) in rs <==> Link(t, id) in rs' {
      OneLinkIs(rs, fs, i, g, t, id);
      OneLinkIs(rs', fs, j, g, t, id);
    }
  }

  lemma SameButForOrder(fs: seq<Record>, rs: seq<Record>, i: nat, rs': seq<Record>, j: nat, g: string, f: string)
    requires OnlyFiles(fs) && HasOneLink(rs, fs, i, g) && HasOneLink(rs', fs, j, g) && Commute(fs)
    ensures Lookup(Run(rs).entries, f) == Lookup(Run(rs').entries, f)
  {
    OneLinkFiles(rs, fs, i, g);
    OneLinkFiles(rs', fs, j, g);
    SameOneLink(fs, rs, i, rs', j, g);
    assert SameContents(Run(rs), Run(rs'));
  }

  // ----- a new file with the zero digest -----

  lemma BlankIsClaimed(b: Bucket, m: map<string, Digest>, f: string)
    requires AllFiles(b, m) && f !in m && NIL_DIGEST !in m.Values && |m| < MAX_COLLISIONS
    ensures Claimed(Apply(b, File(f, NIL_DIGEST)), f, NIL_DIGEST)
  {
    AllFilesFind(b, m, f);
    AllFilesDigests(b, m, NIL_DIGEST);
    NewFile(b, f, NIL_DIGEST);
    FindSnoc(b.entries, Entry(f, NO_LINK, true, NIL_DIGEST), f);
  }

  lemma LinkBlocks(b: Bucket, m: map<string, Digest>, g: string, f: string)
    requires AllFiles(b, m) && f !in m && g !in m && f != g && |m| < MAX_COLLISIONS
    ensures Blocked(Apply(b, Link(g, 0)), g, f)
  {
    AllFilesFind(b, m, f);
    AllFilesFind(b, m, g);
    NewLink(b, g);
    FindSnoc(b.entries, Entry(g, 0, false, NIL_DIGEST), f);
    FindSnoc(b.entries, Entry(g, 0, false, NIL_DIGEST), g);
  }

  lemma {:induction false} AcceptedAreNamed(fs: seq<Record>, g: string)
    requires OnlyFiles(fs) && Unnamed(fs, g)
    ensures g !in Accepted(fs)
  {
    if fs != [] {
      AcceptedAreNamed(fs[..|fs| - 1], g);
    }
  }

  /** After the file the link changes nothing for it. */
  lemma BlankAccepted(pre: seq<Record>, f: string, later: seq<Record>)
    requires OnlyFiles(pre) && |Accepted(pre)| < MAX_COLLISIONS
    requires f !in Accepted(pre) && NIL_DIGEST !in Accepted(pre).Values
    ensures Claimed(Run(pre + [File(f, NIL_DIGEST)] + later), f, NIL_DIGEST)
  {
    FilesAreAllFiles(pre);
    BlankIsClaimed(Run(pre), Accepted(pre), f);
    RunSnoc(pre, File(f, NIL_DIGEST));
    ClaimedStays(pre + [File(f, NIL_DIGEST)], later, f, NIL_DIGEST);
  }

  /** Before the file the link has it refused for good. */
  lemma BlankRefused(pre: seq<Record>, f: string, g: string, later: seq<Record>)
    requires OnlyFiles(pre) && OnlyFiles(later) && |Accepted(pre)| < MAX_COLLISIONS
    requires f !in Accepted(pre) && f != g && Unnamed(pre, g) && Unnamed(later, g)
    ensures !Claimed(Run(pre + [Link(g, 0)] + later), f, NIL_DIGEST)
  {
    FilesAreAllFiles(pre);
    AcceptedAreNamed(pre, g);
    LinkBlocks(Run(pre), Accepted(pre), g, f);
    RunSnoc(pre, Link(g, 0));
    BlockedStays(pre + [Link(g, 0)], later, g, f);
  }

  lemma BlankAfter(fs: seq<Record>, i: nat, g: string, rs: seq<Record>)
    requires OnlyFiles(fs) && i < |fs| && NoNewBlank(fs[..i]) && NewBlank(fs, i)
    requires |Accepted(fs[..i])| < MAX_COLLISIONS && HasOneLink(rs, fs, i + 1, g)
    ensures Claimed(Run(rs), fs[i].name, NIL_DIGEST)
  {
    var pre, later := fs[..i], [Link(g, 0)] + fs[i + 1..];
    NoNewBlankNoBlank(pre);
    BlankAccepted(pre, fs[i].name, later);
    assert pre + [File(fs[i].name, NIL_DIGEST)] + later == rs;
  }

  lemma BlankBefore(fs: seq<Record>, i: nat, g: string, rs: seq<Record>)
    requires OnlyFiles(fs) && i < |fs| && NewBlank(fs, i) && Unnamed(fs, g)
    requires |Accepted(fs[..i])| < MAX_COLLISIONS && HasOneLink(rs, fs, i, g)
    ensures !Claimed(Run(rs), fs[i].name, NIL_DIGEST)
  {
    BlankRefused(fs[..i], fs[i].name, g, fs[i..]);
  }

  lemma BlankDoesNotCommute(fs: seq<Record>, i: nat)
    requires OnlyFiles(fs) && i < |fs| && NoNewBlank(fs[..i]) && NewBlank(fs, i)
    requires |Accepted(fs[..i])| < MAX_COLLISIONS
    ensures !Commute(fs)
  {
    var g := SomeOtherName(fs);
    var rs, rs' := fs[..i + 1] + [Link(g, 0)] + fs[i + 1..], fs[..i] + [Link(g, 0)] + fs[i..];
    BlankAfter(fs, i, g, rs);
    BlankBefore(fs, i, g, rs');
    if Commute(fs) {
      SameButForOrder(fs, rs, i + 1, rs', i, g, fs[i].name);
    }
  }

  // ----- a full bucket -----

  lemma FilledIsFull(fs: seq<Record>, g: string)
    requires OnlyFiles(fs) && |Accepted(fs)| == MAX_COLLISIONS && Unnamed(fs, g)
    ensures Full(Run(fs), g)
  {
    FilesAreAllFiles(fs);
    AcceptedAreNamed(fs, g);
    AllFilesFind(Run(fs), Accepted(fs), g);
  }

  /** A link is refused once the bucket is full, but kept when it came first. */
  lemma FullRefuses(fs: seq<Record>, i: nat, g: string)
    requires OnlyFiles(fs) && i <= |fs| && |Accepted(fs[..i])| == MAX_COLLISIONS && Unnamed(fs, g)
    ensures Lookup(Run(fs + [Link(g, 0)]).entries, g).None?
  {
    FilledIsFull(fs[..i], g);
    FullStays(fs[..i], fs[i..], g);
    assert fs[..i] + fs[i..] == fs;
    NoRoom(Run(fs), g);
    RunSnoc(fs, Link(g, 0));
  }

  lemma FirstIsKept(fs: seq<Record>, g: string)
    requires OnlyFiles(fs) && Unnamed(fs, g)
    ensures Lookup(Run([Link(g, 0)] + fs).entries, g).Some?
  {
    RunFirst(Link(g, 0));
    FindSnoc([], Entry(g, 0, false, NIL_DIGEST), g);
    assert Run([Link(g, 0)]).entries == [] + [Entry(g, 0, false, NIL_DIGEST)];
    BlockedStays([Link(g, 0)], fs, g, g);
  }

  lemma FullDoesNotCommute(fs: seq<Record>, i: nat)
    requires OnlyFiles(fs) && i <= |fs| && |Accepted(fs[..i])| == MAX_COLLISIONS
    ensures !Commute(fs)
  {
    var g := SomeOtherName(fs);
    var rs, rs' := [Link(g, 0)] + fs, fs + [Link(g, 0)];
    FirstIsKept(fs, g);
    FullRefuses(fs, i, g);
    assert rs == fs[..0] + [Link(g, 0)] + fs[0..];
    assert rs' == fs[..|fs|] + [Link(g, 0)] + fs[|fs|..];
    if Commute(fs) {
      SameButForOrder(fs, rs, 0, rs', |fs|, g, g);
    }
  }

  // ----- the exact condition -----

  /** As many files as the cap allows are accepted one by one. */
  lemma {:induction false} FillsUp(fs: seq<Record>) returns (i: nat)
    requires |Accepted(fs)| >= MAX_COLLISIONS
    ensures i <= |fs| && |Accepted(fs[..i])| == MAX_COLLISIONS
  {
    var n := |fs| - 1;
    if |Accepted(fs)| == MAX_COLLISIONS {
      i := |fs|;
      assert fs[..i] == fs;
    } else {
      i := FillsUp(fs[..n]);
      assert fs[..n][..i] == fs[..i];
    }
  }

  lemma {:induction false} FirstBlank(fs: seq<Record>) returns (i: nat)
    requires !NoNewBlank(fs)
    ensures i < |fs| && NoNewBlank(fs[..i]) && NewBlank(fs, i)
    ensures |Accepted(fs[..i])| <= |Accepted(fs)|
  {
    var n := |fs| - 1;
    assert fs == fs[..n] + [fs[n]];
    NoNewBlankSnoc(fs[..n], fs[n]);
    if NoNewBlank(fs[..n]) {
      i := n;
    } else {
      i := FirstBlank(fs[..n]);
      assert fs[..n][..i] == fs[..i];
    }
  }

  /** Links commute with these files exactly when fewer of them than the cap are accepted and no file with an
      all-zero digest is new. */
  lemma CommuteIff(fs: seq<Record>)
    requires OnlyFiles(fs)
    ensures Commute(fs) <==> |Accepted(fs)| < MAX_COLLISIONS && NoNewBlank(fs)
  {
    if |Accepted(fs)| >= MAX_COLLISIONS {
      var i := FillsUp(fs);
      FullDoesNotCommute(fs, i);
    } else if !NoNewBlank(fs) {
      var i := FirstBlank(fs);
      BlankDoesNotCommute(fs, i);
    } else {
      forall rs, rs' | Files(rs) == fs && Files(rs') == fs && SameLinks(rs, rs')
        ensures SameContents(Run(rs), Run(rs'))
      {
        AcceptedFromFiles(rs);
        NoNewBlankFromFiles(rs);
        LinksCommute(rs, rs');
      }
    }
  }

  /** An instance: a link-only entry makes the file look like a duplicate. */
  lemma ZeroDigestDoesNotCommute()
    ensures var file, link := File("a", NIL_DIGEST), Link("b", 0);
            Lookup(Run([file, link]).entries, "a") != Lookup(Run([link, file]).entries, "a")
  {
    var file, link := File("a", NIL_DIGEST), Link("b", 0);
    assert "a" != "b" by { assert "a"[0] != "b"[0]; }
    var b := Entry("b", 0, false, NIL_DIGEST);
    RunFirst(link);
    RunSnoc([link], file);
    assert [link] + [file] == [link, file] && [file] + [link] == [file, link];
    assert HasDigest([b], NIL_DIGEST) by { assert [b][0].digest == NIL_DIGEST; }
    var a := Entry("a", NO_LINK, true, NIL_DIGEST);
    RunFirst(file);
    RunSnoc([file], link);
    PutLookup([a], b, "a");
  }
}
