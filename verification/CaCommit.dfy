/** Issuing a batch and committing it: the stored serial stays above every serial in the stored index. */
module CaCommit {
  import opened CStrings
  import opened Serials
  import opened Revocation
  import opened CaDb
  import opened CaFiles
  import CaCommands

  ghost predicate Below(rows: seq<Row>, serial: int) {
    forall i :: 0 <= i < |rows| ==> SerialOk(rows[i].serial) && SerialValue(rows[i].serial) < serial
  }

  /** Whenever both main files exist, the stored serial is above every serial of the stored index. */
  ghost predicate Ahead(f: Files, serialfile: string, dbfile: string) {
    var s, d := At(f, serialfile), At(f, dbfile);
    s.Some? && d.Some? ==> s.value.SerialFile? && d.value.IndexFile? && Below(d.value.rows, s.value.next)
  }

  ghost predicate AheadSince(trace: seq<Files>, from: nat, serialfile: string, dbfile: string) {
    forall k :: from <= k < |trace| ==> Ahead(trace[k], serialfile, dbfile)
  }

  // ----- in memory -----

  /** A request the CA cannot certify, one it declines, one it signs. */
  datatype Verdict = Bad | Declined | Signed

  datatype Request = Request(name: string, notAfter: string, verdict: Verdict)

  /** The index, the next serial and the number signed so far, unless a request stopped the command. */
  datatype Batch = Stopped | Going(db: Db, serial: int, signed: nat)

  function Certify(b: Batch, r: Request): Batch {
    if b.Stopped? || r.verdict.Bad? || FindSerial(b.db.rows, Spell(b.serial)) >= 0 then Stopped
    else if r.verdict.Declined? then b
    else
      var (db', ok) := Issue(b.db, Cert(b.serial, r.name, r.notAfter));
      if ok then Going(db', b.serial + 1, b.signed + 1) else Stopped
  }

  function CertifyAll(b: Batch, rs: seq<Request>): Batch {
    if rs == [] then b else Certify(CertifyAll(b, rs[..|rs| - 1]), rs[|rs| - 1])
  }

  lemma AheadNoClash(rows: seq<Row>, serial: int)
    requires Below(rows, serial)
    ensures FindSerial(rows, Spell(serial)) < 0
  {
    var k := FindSerial(rows, Spell(serial));
    SpellIsOk(serial);
    if k >= 0 {
      SameSerialSameValue(rows[k].serial, Spell(serial));
    }
  }

  lemma InsertKeepsBelow(db: Db, row: Row, serial: int)
    requires Below(db.rows, serial) && row.serial == Spell(serial) && Insert(db, row).Some?
    ensures Insert(db, row).value.unique == db.unique && Insert(db, row).value.rows == db.rows + [row]
    ensures Below(Insert(db, row).value.rows, serial + 1)
  {
    SpellIsOk(serial);
  }

  /** From b to c the serial, the index and the count grew together, and the serial is ahead. */
  ghost predicate Grown(b: Batch, c: Batch)
    requires b.Going? && c.Going?
  {
    && c.serial - b.serial == c.signed - b.signed == |c.db.rows| - |b.db.rows| >= 0
    && c.db.unique == b.db.unique
    && Below(c.db.rows, c.serial)
  }

  /** With the serial ahead, only a bad request or a name that is taken stops the command. */
  lemma StopsIff(b: Batch, r: Request)
    requires b.Going? && Below(b.db.rows, b.serial)
    ensures Certify(b, r).Stopped?
            <==> r.verdict.Bad? || (r.verdict.Signed? && b.db.unique && NameTaken(b.db, r.name))
  {
    AheadNoClash(b.db.rows, b.serial);
  }

  lemma CertifyKeepsAhead(b: Batch, r: Request)
    requires b.Going? && Below(b.db.rows, b.serial) && Certify(b, r).Going?
    ensures Grown(b, Certify(b, r))
  {
    if r.verdict.Signed? {
      InsertKeepsBelow(b.db, NewRow(Cert(b.serial, r.name, r.notAfter)), b.serial);
    }
  }

  lemma {:induction false} BatchKeepsAhead(b: Batch, rs: seq<Request>)
    requires b.Going? && Below(b.db.rows, b.serial)
    ensures CertifyAll(b, rs).Going? ==> Grown(b, CertifyAll(b, rs))
  {
    if rs != [] {
      var init := CertifyAll(b, rs[..|rs| - 1]);
      BatchKeepsAhead(b, rs[..|rs| - 1]);
      if CertifyAll(b, rs).Going? {
        CertifyKeepsAhead(init, rs[|rs| - 1]);
      }
    }
  }

  function SignedOnly(rs: seq<Request>): seq<Request> {
    if rs == [] then []
    else SignedOnly(rs[..|rs| - 1]) + if rs[|rs| - 1].verdict.Signed? then [rs[|rs| - 1]] else []
  }

  lemma OneRow(c: Batch, r: Request)
    requires c.Going? && Certify(c, r).Going?
    ensures var d := Certify(c, r);
            if r.verdict.Signed? then
              && d.serial == c.serial + 1
              && d.db.rows == c.db.rows + [Row('V', r.notAfter, "", Spell(c.serial), "unknown", r.name)]
            else d == c
  {
    if r.verdict.Signed? { IssueIff(c.db, Cert(c.serial, r.name, r.notAfter)); }
  }

  /** A batch that goes through has added one row for every request signed, in order, with consecutive serials. */
  lemma {:induction false} BatchRows(b: Batch, rs: seq<Request>)
    requires b.Going? && CertifyAll(b, rs).Going?
    ensures var rows, signed := CertifyAll(b, rs).db.rows, SignedOnly(rs);
            && |rows| == |b.db.rows| + |signed| && rows[..|b.db.rows|] == b.db.rows
            && CertifyAll(b, rs).serial == b.serial + |signed|
            && forall j :: 0 <= j < |signed| ==>
                 rows[|b.db.rows| + j]
                 == Row('V', signed[j].notAfter, "", Spell(b.serial + j), "unknown", signed[j].name)
  {
    if rs != [] {
      BatchRows(b, rs[..|rs| - 1]);
      OneRow(CertifyAll(b, rs[..|rs| - 1]), rs[|rs| - 1]);
    }
  }

  /** Request i cannot be signed: it is bad, or its name is taken, by the index or by a request before it. */
  ghost predicate Blocks(b: Batch, rs: seq<Request>, i: nat)
    requires b.Going? && i < |rs|
  {
    || rs[i].verdict.Bad?
    || (rs[i].verdict.Signed? && b.db.unique && (NameTaken(b.db, rs[i].name) || SignedBefore(rs, i, rs[i].name)))
  }

  ghost predicate SignedBefore(rs: seq<Request>, i: nat, name: string)
    requires i <= |rs|
  {
    exists j :: 0 <= j < i && rs[j].verdict.Signed? && rs[j].name == name
  }

  ghost predicate NamedInRange(db: Db) {
    forall i :: i in db.named ==> i < |db.rows|
  }

  lemma NameTakenNext(c: Batch, r: Request, name: string)
    requires c.Going? && NamedInRange(c.db) && Certify(c, r).Going?
    ensures NamedInRange(Certify(c, r).db)
    ensures NameTaken(Certify(c, r).db, name) <==> NameTaken(c.db, name) || (r.verdict.Signed? && r.name == name)
  {
    if r.verdict.Signed? {
      IssueIff(c.db, Cert(c.serial, r.name, r.notAfter));
      var db', n := Certify(c, r).db, |c.db.rows|;
      assert n in db'.named && db'.rows[n].name == r.name;
      if NameTaken(c.db, name) {
        var i :| i in c.db.named && i < |c.db.rows| && c.db.rows[i].name == name;
        assert i in db'.named && db'.rows[i].name == name;
      }
    }
  }

  lemma {:induction false} NamesAfterBatch(b: Batch, rs: seq<Request>, name: string)
    requires b.Going? && NamedInRange(b.db) && CertifyAll(b, rs).Going?
    ensures var db := CertifyAll(b, rs).db;
            && NamedInRange(db) && db.unique == b.db.unique
            && (NameTaken(db, name) <==> NameTaken(b.db, name) || SignedBefore(rs, |rs|, name))
  {
    if rs != [] {
      var n := |rs| - 1;
      NamesAfterBatch(b, rs[..n], name);
      var c := CertifyAll(b, rs[..n]);
      NameTakenNext(c, rs[n], name);
      if rs[n].verdict.Signed? { IssueIff(c.db, Cert(c.serial, rs[n].name, rs[n].notAfter)); }
      SignedBeforeNext(rs, name);
    }
  }

  lemma SignedBeforeNext(rs: seq<Request>, name: string)
    requires rs != []
    ensures var n := |rs| - 1;
            SignedBefore(rs, |rs|, name)
            <==> SignedBefore(rs[..n], n, name) || (rs[n].verdict.Signed? && rs[n].name == name)
  {
    var n := |rs| - 1;
    if SignedBefore(rs[..n], n, name) {
      var j :| 0 <= j < n && rs[..n][j].verdict.Signed? && rs[..n][j].name == name;
      assert rs[j].name == name;
    }
    if SignedBefore(rs, |rs|, name) {
      var j :| 0 <= j < |rs| && rs[j].verdict.Signed? && rs[j].name == name;
      if j < n { assert rs[..n][j].name == name; }
    }
  }

  lemma BlocksInit(b: Batch, rs: seq<Request>, i: nat)
    requires b.Going? && rs != [] && i < |rs| - 1
    ensures Blocks(b, rs[..|rs| - 1], i) <==> Blocks(b, rs, i)
  {
    var init, name := rs[..|rs| - 1], rs[i].name;
    if SignedBefore(rs, i, name) {
      var j :| 0 <= j < i && rs[j].verdict.Signed? && rs[j].name == name;
      assert init[j].name == name;
    }
  }

  ghost predicate NoneBlocked(b: Batch, rs: seq<Request>)
    requires b.Going?
  {
    forall i :: 0 <= i < |rs| ==> !Blocks(b, rs, i)
  }

  lemma NoneBlockedNext(b: Batch, rs: seq<Request>)
    requires b.Going? && rs != []
    ensures NoneBlocked(b, rs) <==> NoneBlocked(b, rs[..|rs| - 1]) && !Blocks(b, rs, |rs| - 1)
  {
    var n := |rs| - 1;
    forall i | 0 <= i < n ensures Blocks(b, rs[..n], i) <==> Blocks(b, rs, i) {
      BlocksInit(b, rs, i);
    }
  }

  lemma LastBlocks(b: Batch, rs: seq<Request>)
    requires b.Going? && Below(b.db.rows, b.serial) && NamedInRange(b.db) && rs != []
    requires CertifyAll(b, rs[..|rs| - 1]).Going?
    ensures CertifyAll(b, rs).Stopped? <==> Blocks(b, rs, |rs| - 1)
  {
    var n := |rs| - 1;
    BatchKeepsAhead(b, rs[..n]);
    StopsIff(CertifyAll(b, rs[..n]), rs[n]);
    NamesAfterBatch(b, rs[..n], rs[n].name);
    SameBefore(rs, n, rs[n].name);
  }

  lemma SameBefore(rs: seq<Request>, n: nat, name: string)
    requires n <= |rs|
    ensures SignedBefore(rs[..n], n, name) <==> SignedBefore(rs, n, name)
  {
    if SignedBefore(rs, n, name) {
      var j :| 0 <= j < n && rs[j].verdict.Signed? && rs[j].name == name;
      assert rs[..n][j].name == name;
    }
  }

  /** With the serial ahead a batch goes through exactly when no request of it is blocked. */
  lemma {:induction false} BatchGoesIff(b: Batch, rs: seq<Request>)
    requires b.Going? && Below(b.db.rows, b.serial) && NamedInRange(b.db)
    ensures CertifyAll(b, rs).Going? <==> NoneBlocked(b, rs)
  {
    if rs != [] {
      BatchGoesIff(b, rs[..|rs| - 1]);
      NoneBlockedNext(b, rs);
      if CertifyAll(b, rs[..|rs| - 1]).Going? { LastBlocks(b, rs); }
    }
  }

  // ----- on disk -----

  /** The two groups of names have nothing in common. */
  ghost predicate NamesApart(serialfile: string, dbfile: string) {
    forall x :: x in SerialNames(serialfile, "new", "old") ==> x !in IndexNames(dbfile, "new", "old")
  }

  /** Both main files are there and hold this. */
  ghost predicate Stored(f: Files, serialfile: string, dbfile: string, serial: int, rows: seq<Row>) {
    At(f, serialfile) == Some(SerialFile(serial)) && At(f, dbfile) == Some(IndexFile(rows))
  }

  lemma MonotoneBelow(rows: seq<Row>, s: int, t: int)
    requires Below(rows, s) && s <= t
    ensures Below(rows, t)
  {
  }

  lemma SavingKeeps(f: Files, f0: Files, names: set<string>, x: string)
    requires SameOutside(f, f0, names) && x !in names
    ensures At(f, x) == At(f0, x)
  {
  }

  lemma SavedAhead(trace: seq<Files>, from: nat, last: Files, f0: Files, names: seq<string>,
                   serialfile: string, dbfile: string)
    requires serialfile !in names && dbfile !in names && Saving(trace, from, last, f0, set x | x in names)
    requires Ahead(f0, serialfile, dbfile)
    ensures At(last, serialfile) == At(f0, serialfile) && At(last, dbfile) == At(f0, dbfile)
    ensures AheadSince(trace, from, serialfile, dbfile)
  {
    forall k | from <= k < |trace| ensures Ahead(trace[k], serialfile, dbfile) {
      assert SameOutside(trace[k], f0, set x | x in names);
      assert At(trace[k], serialfile) == At(f0, serialfile) && At(trace[k], dbfile) == At(f0, dbfile);
    }
    assert At(last, serialfile) == At(f0, serialfile) && At(last, dbfile) == At(f0, dbfile);
  }

  lemma NamesOfCommit(serialfile: string, dbfile: string)
    requires NamesApart(serialfile, dbfile)
    ensures Apart(SerialNames(serialfile, "new", "old")) && Apart(IndexNames(dbfile, "new", "old"))
    ensures serialfile + "." + "new" == serialfile + ".new" && serialfile + "." + "old" == serialfile + ".old"
    ensures dbfile + "." + "new" == dbfile + ".new" && dbfile + "." + "old" == dbfile + ".old"
    ensures dbfile + ".attr." + "new" == dbfile + ".attr.new"
    ensures serialfile !in IndexNames(dbfile, "new", "old") && dbfile !in SerialNames(serialfile, "new", "old")
    ensures serialfile + ".new" !in IndexNames(dbfile, "new", "old")
    ensures serialfile + ".old" !in IndexNames(dbfile, "new", "old")
    ensures serialfile + ".new" != serialfile && dbfile !in [dbfile + ".new", dbfile + ".attr.new"]
  {
    SerialNamesApart(serialfile);
    IndexNamesApart(dbfile);
    var sn, dn := SerialNames(serialfile, "new", "old"), IndexNames(dbfile, "new", "old");
    assert sn[0] in sn && sn[1] in sn && sn[2] in sn && dn[0] in dn;
    assert sn[1] == serialfile + ".new" && sn[2] == serialfile + ".old";
    assert dn[1] == dbfile + ".new" && dn[2] == dbfile + ".old" && dn[4] == dbfile + ".attr.new";
  }

  /** While the serial file is rotated the old serial survives, and the index is left alone. */
  lemma SerialRotationKeeps(f: Files, f1: Files, serialfile: string, dbfile: string)
    requires NamesApart(serialfile, dbfile) && At(f1, serialfile).Some?
    requires SerialStep(f, f1, SerialNames(serialfile, "new", "old"))
    ensures At(f, dbfile) == At(f1, dbfile) && At(f, dbfile + ".new") == At(f1, dbfile + ".new")
    ensures At(f, dbfile + ".attr.new") == At(f1, dbfile + ".attr.new")
    ensures At(f1, serialfile) in {At(f, serialfile), At(f, serialfile + ".old")}
    ensures At(f, serialfile) in {None, At(f1, serialfile), At(f1, serialfile + ".new")}
  {
    var n, dn := SerialNames(serialfile, "new", "old"), IndexNames(dbfile, "new", "old");
    assert n[1] == serialfile + ".new" && n[2] == serialfile + ".old";
    assert dn[0] in dn && dn[1] in dn && dn[4] in dn;
    assert dn[1] == dbfile + ".new" && dn[4] == dbfile + ".attr.new";
    SavingKeeps(f, f1, {n[0], n[1], n[2]}, dn[0]);
    SavingKeeps(f, f1, {n[0], n[1], n[2]}, dn[1]);
    SavingKeeps(f, f1, {n[0], n[1], n[2]}, dn[4]);
  }

  /** While the index is rotated the old index survives, and the serial file is left alone. */
  lemma IndexRotationKeeps(f: Files, f1: Files, serialfile: string, dbfile: string)
    requires NamesApart(serialfile, dbfile) && At(f1, dbfile).Some?
    requires IndexStep(f, f1, IndexNames(dbfile, "new", "old"))
    ensures At(f, serialfile) == At(f1, serialfile) && At(f, serialfile + ".old") == At(f1, serialfile + ".old")
    ensures At(f1, dbfile) in {At(f, dbfile), At(f, dbfile + ".old")}
    ensures At(f, dbfile) in {None, At(f1, dbfile), At(f1, dbfile + ".new")}
  {
    var n := IndexNames(dbfile, "new", "old");
    assert serialfile in SerialNames(serialfile, "new", "old");
    assert serialfile + "." + "old" in SerialNames(serialfile, "new", "old");
    SavingKeeps(f, f1, (set x | x in n), serialfile);
    SavingKeeps(f, f1, (set x | x in n), serialfile + "." + "old");
    assert serialfile + "." + "old" == serialfile + ".old";
    assert n[1] == dbfile + ".new" && n[2] == dbfile + ".old";
  }

  /** While the serial file is rotated the stored serial is the old one or the new one. */
  lemma SerialRotationAhead(f: Files, f1: Files, serialfile: string, dbfile: string, serial0: int, serial: int,
                            rows0: seq<Row>)
    requires NamesApart(serialfile, dbfile) && Stored(f1, serialfile, dbfile, serial0, rows0)
    requires At(f1, serialfile + ".new") == Some(SerialFile(serial))
    requires Below(rows0, serial0) && serial0 <= serial
    requires SerialStep(f, f1, SerialNames(serialfile, "new", "old"))
    ensures Ahead(f, serialfile, dbfile)
  {
    SerialRotationKeeps(f, f1, serialfile, dbfile);
    MonotoneBelow(rows0, serial0, serial);
  }

  /** These rows would leave the serial that is stored, if any, ahead. */
  ghost predicate BelowStored(f: Files, serialfile: string, rows: seq<Row>) {
    var s := At(f, serialfile);
    s.Some? ==> s.value.SerialFile? && Below(rows, s.value.next)
  }

  /** While the index is rotated the stored serial is already the one to be ahead of both indexes. */
  lemma IndexRotationAhead(f: Files, f1: Files, serialfile: string, dbfile: string,
                           rows0: seq<Row>, rows: seq<Row>)
    requires NamesApart(serialfile, dbfile) && At(f1, dbfile) == Some(IndexFile(rows0))
    requires At(f1, dbfile + ".new") == Some(IndexFile(rows))
    requires BelowStored(f1, serialfile, rows0) && BelowStored(f1, serialfile, rows)
    requires IndexStep(f, f1, IndexNames(dbfile, "new", "old"))
    ensures Ahead(f, serialfile, dbfile)
  {
    IndexRotationKeeps(f, f1, serialfile, dbfile);
  }

  /** The new files hold a serial that is ahead of both indexes. */
  ghost predicate NewAhead(sc: Content, ic: Content, serial0: int) {
    sc.SerialFile? && ic.IndexFile? && serial0 <= sc.next && Below(ic.rows, sc.next)
  }

  /** All names of the commit fit the program's buffers. */
  ghost predicate AllFit(serialfile: string, dbfile: string) {
    Fit(SerialNames(serialfile, "new", "old")) && Fit(IndexNames(dbfile, "new", "old"))
  }

  /** Rotates first the serial file, then the index; sc, ic and ac are what was written to the new files. */
  method RotateBoth(fs: FileSystem, serialfile: string, dbfile: string, ghost sc: Content, ghost ic: Content,
                    ghost ac: Content, ghost serial0: int, ghost rows0: seq<Row>)
    returns (ok: bool)
    requires NamesApart(serialfile, dbfile)
    requires Stored(fs.files, serialfile, dbfile, serial0, rows0) && Below(rows0, serial0)
    requires At(fs.files, serialfile + ".new") == Some(sc)
    requires At(fs.files, dbfile + ".new") == Some(ic) && At(fs.files, dbfile + ".attr.new") == Some(ac)
    modifies fs
    ensures old(fs.trace) <= fs.trace
    ensures NewAhead(sc, ic, serial0) ==> Ahead(fs.files, serialfile, dbfile)
                                          && AheadSince(fs.trace, |old(fs.trace)|, serialfile, dbfile)
    ensures ok ==> && At(fs.files, serialfile) == Some(sc) && At(fs.files, dbfile) == Some(ic)
                   && At(fs.files, dbfile + ".attr") == Some(ac)
                   && At(fs.files, serialfile + ".old") == Some(SerialFile(serial0))
                   && At(fs.files, dbfile + ".old") == Some(IndexFile(rows0))
    ensures !ok ==> Some(IndexFile(rows0)) in {At(fs.files, dbfile), At(fs.files, dbfile + ".old")}
    ensures !ok ==> Some(SerialFile(serial0)) in {At(fs.files, serialfile), At(fs.files, serialfile + ".old")}
    ensures fs.faults >= old(fs.faults)
    ensures fs.faults == old(fs.faults) ==> (ok <==> AllFit(serialfile, dbfile))
  {
    NamesOfCommit(serialfile, dbfile);
    ghost var f2, t2, stage, undone := fs.files, |fs.trace|, 0, true;
    ok, stage, undone := RotateSerial(fs, serialfile, "new", "old");
    SerialRotationKeeps(fs.files, f2, serialfile, dbfile);
    if NewAhead(sc, ic, serial0) {
      forall k | t2 <= k < |fs.trace| ensures Ahead(fs.trace[k], serialfile, dbfile) {
        SerialRotationAhead(fs.trace[k], f2, serialfile, dbfile, serial0, sc.next, rows0);
      }
      SerialRotationAhead(fs.files, f2, serialfile, dbfile, serial0, sc.next, rows0);
    }
    if !ok {
      return;
    }
    ghost var f3, t3 := fs.files, |fs.trace|;
    ok, stage, undone := RotateIndex(fs, dbfile, "new", "old");
    IndexRotationKeeps(fs.files, f3, serialfile, dbfile);
    if NewAhead(sc, ic, serial0) {
      MonotoneBelow(rows0, serial0, sc.next);
      forall k | t3 <= k < |fs.trace| ensures Ahead(fs.trace[k], serialfile, dbfile) {
        IndexRotationAhead(fs.trace[k], f3, serialfile, dbfile, rows0, ic.rows);
      }
      IndexRotationAhead(fs.files, f3, serialfile, dbfile, rows0, ic.rows);
    }
  }

  lemma FitParts(serialfile: string, dbfile: string)
    ensures AllFit(serialfile, dbfile) ==>
              Fit([serialfile + ".new"]) && Fit([dbfile + ".new", dbfile + ".attr.new"])
  {
    assert |SerialNames(serialfile, "new", "old")[1]| == |serialfile + ".new"|;
    FitIndex(dbfile);
  }

  /** Saves both files, writes the certificates, and rotates first the serial file, then the index; whole says that
      no write of serial or index was cut short without an error. */
  method Commit(fs: FileSystem, serialfile: string, dbfile: string, serial: int, rows: seq<Row>, unique: bool,
                certsWritten: bool, ghost serial0: int, ghost rows0: seq<Row>)
    returns (ok: bool, ghost whole: bool, ghost attrWhole: bool)
    requires NamesApart(serialfile, dbfile)
    requires Stored(fs.files, serialfile, dbfile, serial0, rows0)
    requires Below(rows0, serial0) && serial0 <= serial && Below(rows, serial)
    modifies fs
    ensures old(fs.trace) <= fs.trace
    ensures whole ==> Ahead(fs.files, serialfile, dbfile)
                      && AheadSince(fs.trace, |old(fs.trace)|, serialfile, dbfile)
    ensures ok ==> (Ahead(fs.files, serialfile, dbfile) <==> whole)
    ensures ok ==> && (Stored(fs.files, serialfile, dbfile, serial, rows) <==> whole)
                   && At(fs.files, dbfile + ".attr") == Some(Got(AttrFile(unique), attrWhole))
                   && At(fs.files, serialfile + ".old") == Some(SerialFile(serial0))
                   && At(fs.files, dbfile + ".old") == Some(IndexFile(rows0))
    ensures !ok ==> Some(IndexFile(rows0)) in {At(fs.files, dbfile), At(fs.files, dbfile + ".old")}
    ensures !ok ==> Some(SerialFile(serial0)) in {At(fs.files, serialfile), At(fs.files, serialfile + ".old")}
    ensures fs.faults >= old(fs.faults)
    ensures fs.faults == old(fs.faults) ==>
              (ok <==> AllFit(serialfile, dbfile) && rows != [] && certsWritten) && (ok ==> whole && attrWhole)
  {
    NamesOfCommit(serialfile, dbfile);
    FitParts(serialfile, dbfile);
    ghost var f0, serialWhole, indexWhole := fs.files, true, true;
    whole, attrWhole := true, true;
    ok, serialWhole := SaveSerial(fs, serialfile, Some("new"), serial);
    SavedAhead(fs.trace, |old(fs.trace)|, fs.files, f0, [serialfile + ".new"], serialfile, dbfile);
    if !ok {
      return;
    }
    ghost var f1, t1 := fs.files, |fs.trace|;
    ok, indexWhole, attrWhole := SaveIndex(fs, dbfile, "new", rows, unique);
    SavedAhead(fs.trace, t1, fs.files, f1, [dbfile + ".new", dbfile + ".attr.new"], serialfile, dbfile);
    if !ok {
      return;
    }
    if !certsWritten {
      return false, true, attrWhole;
    }
    whole := serialWhole && indexWhole;
    ok := RotateBoth(fs, serialfile, dbfile, Got(SerialFile(serial), serialWhole), Got(IndexFile(rows), indexWhole),
                     Got(AttrFile(unique), attrWhole), serial0, rows0);
  }

  lemma {:induction false} BatchKeepsStopped(b: Batch, rs: seq<Request>, n: nat)
    requires n <= |rs|
    ensures CertifyAll(b, rs[..n]).Stopped? ==> CertifyAll(b, rs).Stopped?
    decreases |rs|
  {
    if n < |rs| {
      assert rs[..|rs| - 1][..n] == rs[..n];
      BatchKeepsStopped(b, rs[..|rs| - 1], n);
    } else {
      assert rs[..n] == rs;
    }
  }

  lemma RowsGrow(b: Batch, rs: seq<Request>)
    requires b.Going? && Below(b.db.rows, b.serial) && CertifyAll(b, rs).Going?
    ensures CertifyAll(b, rs).signed > b.signed ==> CertifyAll(b, rs).db.rows != []
  {
    BatchKeepsAhead(b, rs);
  }

  method CertifyEach(index: CaCommands.Index, serial0: int, requests: seq<Request>)
    returns (ok: bool, signed: nat, ghost b: Batch)
    modifies index
    ensures b == CertifyAll(Going(old(index.Val()), serial0, 0), requests)
    ensures ok <==> b.Going?
    ensures ok ==> b == Going(index.Val(), serial0 + signed, signed)
  {
    var serial := serial0;
    ghost var start := Going(index.Val(), serial, 0);
    signed, b := 0, start;
    for i := 0 to |requests|
      invariant b == CertifyAll(start, requests[..i]) == Going(index.Val(), serial, signed)
      invariant serial == serial0 + signed
    {
      var r := requests[i];
      b := Certify(b, r);
      assert requests[..i + 1][..i] == requests[..i];
      BatchKeepsStopped(start, requests, i + 1);
      if r.verdict.Bad? || FindSerial(index.rows, Spell(serial)) >= 0 {
        return false, signed, Stopped;
      }
      if r.verdict.Declined? {
        continue;
      }
      ok := index.DoIssue(Cert(serial, r.name, r.notAfter));
      if !ok {
        return false, signed, Stopped;
      }
      signed, serial := signed + 1, serial + 1;
    }
    assert requests[..|requests|] == requests;
    ok := true;
  }

  /** Stores what a batch has led to. */
  method CommitBatch(fs: FileSystem, serialfile: string, dbfile: string, serial: int, rows: seq<Row>, unique: bool,
                     certsWritten: bool, ghost start: Batch, ghost requests: seq<Request>)
    returns (ok: bool, ghost whole: bool, ghost attrWhole: bool)
    requires NamesApart(serialfile, dbfile)
    requires start.Going? && CertifyAll(start, requests).Going?
    requires Stored(fs.files, serialfile, dbfile, start.serial, start.db.rows) && Below(start.db.rows, start.serial)
    requires rows == CertifyAll(start, requests).db.rows && serial == CertifyAll(start, requests).serial
    modifies fs
    ensures old(fs.trace) <= fs.trace
    ensures whole ==> Ahead(fs.files, serialfile, dbfile)
                      && AheadSince(fs.trace, |old(fs.trace)|, serialfile, dbfile)
    ensures ok ==> (Stored(fs.files, serialfile, dbfile, serial, rows) <==> whole)
    ensures ok ==> At(fs.files, dbfile + ".attr") == Some(Got(AttrFile(unique), attrWhole))
    ensures fs.faults >= old(fs.faults)
    ensures fs.faults == old(fs.faults) ==>
              (ok <==> AllFit(serialfile, dbfile) && rows != [] && certsWritten) && (ok ==> whole && attrWhole)
    ensures !ok ==> At(old(fs.files), dbfile) in {At(fs.files, dbfile), At(fs.files, dbfile + ".old")}
    ensures !ok ==> At(old(fs.files), serialfile) in {At(fs.files, serialfile), At(fs.files, serialfile + ".old")}
  {
    BatchKeepsAhead(start, requests);
    ok, whole, attrWhole := Commit(fs, serialfile, dbfile, serial, rows, unique, certsWritten,
                                   start.serial, start.db.rows);
  }

  /** The signing part of the ca command: certify in memory, and commit when anything was signed. */
  method SignAll(fs: FileSystem, serialfile: string, dbfile: string, unique: bool, requests: seq<Request>,
                 confirmed: bool, certsWritten: bool)
    returns (ok: bool, ghost b: Batch, ghost whole: bool, ghost attrWhole: bool)
    requires NamesApart(serialfile, dbfile)
    requires Ahead(fs.files, serialfile, dbfile)
    modifies fs
    ensures old(fs.trace) <= fs.trace
    ensures whole ==> Ahead(fs.files, serialfile, dbfile)
                      && AheadSince(fs.trace, |old(fs.trace)|, serialfile, dbfile)
    ensures var s, d := At(old(fs.files), serialfile), At(old(fs.files), dbfile);
            if s.None? || d.None? then !ok && fs.files == old(fs.files)
            else
              && b == CertifyAll(Going(Loaded(d.value.rows, unique), s.value.next, 0), requests)
              && (b.Stopped? ==> !ok)
              && (b.Stopped? || b.signed == 0 || !confirmed ==> fs.files == old(fs.files))
              && (ok && b.signed > 0 && confirmed ==>
                    (Stored(fs.files, serialfile, dbfile, b.serial, b.db.rows) <==> whole))
              && (ok && b.signed > 0 && confirmed ==> b.serial == s.value.next + b.signed)
              && (ok && b.signed > 0 && confirmed ==>
                    At(fs.files, dbfile + ".attr") == Some(Got(AttrFile(unique), attrWhole)))
              && (b.Going? && (b.signed == 0 || !confirmed) ==> ok)
              && (fs.faults == old(fs.faults) && b.Going? && b.signed > 0 && confirmed ==>
                    (ok <==> AllFit(serialfile, dbfile) && certsWritten) && (ok ==> whole && attrWhole))
              && (!ok ==> s in {At(fs.files, serialfile), At(fs.files, serialfile + ".old")})
              && (!ok ==> d in {At(fs.files, dbfile), At(fs.files, dbfile + ".old")})
  {
    if serialfile !in fs.files || dbfile !in fs.files {
      return false, Stopped, true, true;
    }
    var serial, rows := fs.files[serialfile].next, fs.files[dbfile].rows;
    var index := new CaCommands.Index(rows, unique);
    var signed;
    whole, attrWhole := true, true;
    ok, signed, b := CertifyEach(index, serial, requests);
    if !ok || signed == 0 || !confirmed {
      return;
    }
    RowsGrow(Going(Loaded(rows, unique), serial, 0), requests);
    ok, whole, attrWhole := CommitBatch(fs, serialfile, dbfile, serial + signed, index.rows, unique, certsWritten,
                                        Going(Loaded(rows, unique), serial, 0), requests);
  }

  // ----- revoking and expiring -----

  lemma FitIndex(dbfile: string)
    ensures Fit(IndexNames(dbfile, "new", "old")) ==> Fit([dbfile + ".new", dbfile + ".attr.new"])
  {
    var dn := IndexNames(dbfile, "new", "old");
    assert |dn[1]| == |dbfile + ".new"| && |dn[4]| == |dbfile + ".attr.new"|;
  }

  /** How the commands that leave the serial alone store the index. */
  method ReplaceIndex(fs: FileSystem, serialfile: string, dbfile: string, rows: seq<Row>, unique: bool,
                      ghost rows0: seq<Row>)
    returns (ok: bool, ghost whole: bool, ghost attrWhole: bool)
    requires NamesApart(serialfile, dbfile)
    requires Ahead(fs.files, serialfile, dbfile) && At(fs.files, dbfile) == Some(IndexFile(rows0))
    modifies fs
    ensures old(fs.trace) <= fs.trace
    ensures var f0 := old(fs.files);
            whole && BelowStored(f0, serialfile, rows) ==>
              Ahead(fs.files, serialfile, dbfile) && AheadSince(fs.trace, |old(fs.trace)|, serialfile, dbfile)
    ensures At(fs.files, serialfile) == At(old(fs.files), serialfile)
    ensures ok ==> && At(fs.files, dbfile) == Some(Got(IndexFile(rows), whole))
                   && At(fs.files, dbfile + ".old") == Some(IndexFile(rows0))
    ensures ok ==> At(fs.files, dbfile + ".attr") == Some(Got(AttrFile(unique), attrWhole))
    ensures !ok ==> Some(IndexFile(rows0)) in {At(fs.files, dbfile), At(fs.files, dbfile + ".old")}
    ensures fs.faults >= old(fs.faults)
    ensures fs.faults == old(fs.faults) ==>
              (ok <==> Fit(IndexNames(dbfile, "new", "old")) && rows != []) && (ok ==> whole && attrWhole)
  {
    NamesOfCommit(serialfile, dbfile);
    FitIndex(dbfile);
    ghost var f0 := fs.files;
    ok, whole, attrWhole := SaveIndex(fs, dbfile, "new", rows, unique);
    assert serialfile !in [dbfile + ".new", dbfile + ".attr.new"];
    SavedAhead(fs.trace, |old(fs.trace)|, fs.files, f0, [dbfile + ".new", dbfile + ".attr.new"], serialfile, dbfile);
    if !ok {
      return false, true, true;
    }
    ghost var f1, t1, stage, undone := fs.files, |fs.trace|, 0, true;
    ok, stage, undone := RotateIndex(fs, dbfile, "new", "old");
    IndexRotationKeeps(fs.files, f1, serialfile, dbfile);
    if whole && BelowStored(f0, serialfile, rows) {
      forall k | t1 <= k < |fs.trace| ensures Ahead(fs.trace[k], serialfile, dbfile) {
        IndexRotationAhead(fs.trace[k], f1, serialfile, dbfile, rows0, rows);
      }
      IndexRotationAhead(fs.files, f1, serialfile, dbfile, rows0, rows);
    }
  }

  lemma ExpireKeepsBelow(rows: seq<Row>, now: string, serial: int)
    requires Below(rows, serial)
    ensures Below(ExpireRows(rows, now), serial)
  {
  }

  lemma InsertBelowIff(db: Db, row: Row, z: int, serial: int)
    requires Below(db.rows, serial) && row.serial == Spell(z) && Insert(db, row).Some?
    ensures Below(Insert(db, row).value.rows, serial) <==> z < serial
  {
    SpellIsOk(z);
    var rows := Insert(db, row).value.rows;
    assert rows == db.rows + [row] && rows[|db.rows|] == row;
  }

  lemma RevokeKnownRows(lib: Library, db: Db, now: string, cert: Cert, t: Option<RevType>, arg: string)
    requires FindSerial(db.rows, Spell(cert.serial)) >= 0
    ensures var rows' := Revoke(lib, db, now, cert, t, arg).0.rows;
            |rows'| == |db.rows| && forall i :: 0 <= i < |rows'| ==> rows'[i].serial == db.rows[i].serial
  {
  }

  lemma SameSerialsBelow(rows: seq<Row>, rows': seq<Row>, serial: int)
    requires |rows'| == |rows| && forall i :: 0 <= i < |rows'| ==> rows'[i].serial == rows[i].serial
    ensures Below(rows, serial) <==> Below(rows', serial)
  {
    if Below(rows', serial) {
      forall i | 0 <= i < |rows| ensures SerialOk(rows[i].serial) && SerialValue(rows[i].serial) < serial {
        assert rows'[i].serial == rows[i].serial;
      }
    }
  }

  lemma RevokeKnownBelow(lib: Library, db: Db, now: string, cert: Cert, t: Option<RevType>, arg: string, serial: int)
    requires FindSerial(db.rows, Spell(cert.serial)) >= 0
    ensures Below(db.rows, serial) <==> Below(Revoke(lib, db, now, cert, t, arg).0.rows, serial)
  {
    RevokeKnownRows(lib, db, now, cert, t, arg);
    SameSerialsBelow(db.rows, Revoke(lib, db, now, cert, t, arg).0.rows, serial);
  }

  /** Revoking, or adding as valid, keeps the serial ahead exactly when the certificate is in the index already
      or its serial is one the CA has passed. */
  lemma RevokeBelowIff(lib: Library, db: Db, now: string, cert: Cert, t: Option<RevType>, arg: string, serial: int)
    requires Below(db.rows, serial) && Revoke(lib, db, now, cert, t, arg).1
    ensures Below(Revoke(lib, db, now, cert, t, arg).0.rows, serial)
            <==> FindSerial(db.rows, Spell(cert.serial)) >= 0 || cert.serial < serial
  {
    if FindSerial(db.rows, Spell(cert.serial)) >= 0 {
      RevokeKnownBelow(lib, db, now, cert, t, arg, serial);
    } else {
      var row := NewRow(cert);
      InsertBelowIff(db, row, cert.serial, serial);
      RevokeUnknown(lib, db, now, cert, t, arg, Insert(db, row));
      if t.Some? {
        RevokeKnownBelow(lib, Insert(db, row).value, now, cert, t, arg, serial);
      }
    }
  }

  lemma RevokeUnknown(lib: Library, db: Db, now: string, cert: Cert, t: Option<RevType>, arg: string,
                      r: Option<Db>)
    requires FindSerial(db.rows, Spell(cert.serial)) < 0 && Revoke(lib, db, now, cert, t, arg).1
    requires r == Insert(db, NewRow(cert))
    ensures r.Some? && FindSerial(r.value.rows, Spell(cert.serial)) >= 0
    ensures Revoke(lib, db, now, cert, t, arg).0
            == if t.None? then r.value else Revoke(lib, r.value, now, cert, t, arg).0
  {
  }

  // ----- the update-database and revoke commands -----

  /** The rows of an index file that can be read as one. */
  function StoredRows(f: Files, dbfile: string): Option<seq<Row>> {
    var d := At(f, dbfile);
    if d.Some? && d.value.IndexFile? then Some(d.value.rows) else None
  }

  /** After a command that replaced the index the serial is ahead exactly when the write was whole and it is above
      every row of the new index. */
  lemma AheadAfterIff(f: Files, f0: Files, serialfile: string, dbfile: string, rows: seq<Row>, whole: bool)
    requires At(f, serialfile) == At(f0, serialfile) && At(f0, serialfile).Some?
    requires At(f, dbfile) == Some(Got(IndexFile(rows), whole))
    ensures Ahead(f, serialfile, dbfile) <==> whole && BelowStored(f0, serialfile, rows)
  {
  }

  /** Marks expired rows, and stores the index if any was marked. */
  method UpdateDatabase(fs: FileSystem, serialfile: string, dbfile: string, unique: bool, now: string)
    returns (ok: bool, marked: nat, ghost whole: bool, ghost attrWhole: bool)
    requires NamesApart(serialfile, dbfile)
    requires Ahead(fs.files, serialfile, dbfile)
    modifies fs
    ensures old(fs.trace) <= fs.trace
    ensures whole ==> Ahead(fs.files, serialfile, dbfile)
                      && AheadSince(fs.trace, |old(fs.trace)|, serialfile, dbfile)
    ensures At(fs.files, serialfile) == At(old(fs.files), serialfile)
    ensures var r := StoredRows(old(fs.files), dbfile);
            if r.None? then !ok && fs.files == old(fs.files)
            else
              && marked == ExpireCount(r.value, now)
              && (marked == 0 ==> ok && fs.files == old(fs.files))
              && (ok && marked > 0 ==> At(fs.files, dbfile) == Some(Got(IndexFile(ExpireRows(r.value, now)), whole)))
              && (ok && marked > 0 ==> At(fs.files, dbfile + ".attr") == Some(Got(AttrFile(unique), attrWhole)))
              && (!ok ==> Some(IndexFile(r.value)) in {At(fs.files, dbfile), At(fs.files, dbfile + ".old")})
              && (fs.faults == old(fs.faults) && marked > 0 ==>
                    (ok <==> Fit(IndexNames(dbfile, "new", "old"))) && (ok ==> whole && attrWhole))
  {
    marked, whole, attrWhole := 0, true, true;
    var r := StoredRows(fs.files, dbfile);
    if r.None? {
      return false, 0, true, true;
    }
    var index := new CaCommands.Index(r.value, unique);
    marked := index.DoUpdateDb(now);
    if marked == 0 {
      return true, 0, true, true;
    }
    if At(fs.files, serialfile).Some? {
      ExpireKeepsBelow(r.value, now, fs.files[serialfile].next);
    }
    ok, whole, attrWhole := ReplaceIndex(fs, serialfile, dbfile, index.rows, unique, r.value);
  }

  /** Revokes a certificate, or adds it as valid, and stores the index. */
  method RevokeCommand(lib: Library, fs: FileSystem, serialfile: string, dbfile: string, unique: bool, now: string,
                       cert: Cert, t: Option<RevType>, arg: string)
    returns (ok: bool, ghost whole: bool, ghost attrWhole: bool)
    requires NamesApart(serialfile, dbfile)
    requires Ahead(fs.files, serialfile, dbfile)
    modifies fs
    ensures old(fs.trace) <= fs.trace
    ensures At(fs.files, serialfile) == At(old(fs.files), serialfile)
    ensures var r, s := StoredRows(old(fs.files), dbfile), At(old(fs.files), serialfile);
            if r.None? then !ok && fs.files == old(fs.files)
            else
              var (db', done) := Revoke(lib, Loaded(r.value, unique), now, cert, t, arg);
              var passed := FindSerial(r.value, Spell(cert.serial)) >= 0 || (s.Some? ==> cert.serial < s.value.next);
              && (!done ==> !ok && fs.files == old(fs.files))
              && (whole && passed ==> AheadSince(fs.trace, |old(fs.trace)|, serialfile, dbfile))
              && (ok ==> At(fs.files, dbfile) == Some(Got(IndexFile(db'.rows), whole)))
              && (ok ==> At(fs.files, dbfile + ".attr") == Some(Got(AttrFile(unique), attrWhole)))
              && (ok && s.Some? ==> (Ahead(fs.files, serialfile, dbfile) <==> whole && passed))
              && (fs.faults == old(fs.faults) && done ==>
                    (ok <==> Fit(IndexNames(dbfile, "new", "old"))) && (ok ==> whole && attrWhole))
              && (!ok ==> Some(IndexFile(r.value)) in {At(fs.files, dbfile), At(fs.files, dbfile + ".old")})
  {
    whole, attrWhole := true, true;
    var r := StoredRows(fs.files, dbfile);
    if r.None? {
      return false, true, true;
    }
    var index := new CaCommands.Index(r.value, unique);
    ok := index.DoRevoke(lib, now, cert, t, arg);
    if !ok {
      return;
    }
    ghost var f0 := fs.files;
    if At(fs.files, serialfile).Some? {
      RevokeBelowIff(lib, Loaded(r.value, unique), now, cert, t, arg, fs.files[serialfile].next);
    }
    ok, whole, attrWhole := ReplaceIndex(fs, serialfile, dbfile, index.rows, unique, r.value);
    if ok && At(f0, serialfile).Some? {
      AheadAfterIff(fs.files, f0, serialfile, dbfile, index.rows, whole);
    }
  }
}
