/** The CA's index: its rows, its two in-memory indexes, and the commands that change it. */
module CaDb {
  import opened CStrings
  import opened Serials
  import opened Revocation

  /** kind is the first character of the type field; a revocation date that is not there is "". */
  datatype Row = Row(kind: char, expDate: string, revDate: string, serial: string, file: string, name: string)

  /** named are the positions the name index was built or extended with; a later change of kind does not
      take a row out of it. */
  datatype Db = Db(rows: seq<Row>, named: set<nat>, unique: bool)

  datatype Cert = Cert(serial: int, name: string, notAfter: string)

  // ----- loading -----

  /** The checks each row passes when the index is loaded. */
  predicate RowOk(lib: Library, row: Row) {
    && (row.kind != 'R' ==> row.revDate == "")
    && (row.kind == 'R' ==> Unpack(lib, row.revDate).ok)
    && lib.isTime(row.expDate)
    && SerialOk(row.serial)
  }

  ghost predicate DistinctSerials(rows: seq<Row>) {
    forall i, j :: 0 <= i < j < |rows| ==> !SameSerial(rows[i].serial, rows[j].serial)
  }

  ghost predicate DistinctNames(rows: seq<Row>) {
    forall i, j :: 0 <= i < j < |rows| && rows[i].kind == 'V' && rows[j].kind == 'V' ==> rows[i].name != rows[j].name
  }

  /** What the load checks and the building of the indexes accept. */
  ghost predicate LoadOk(lib: Library, rows: seq<Row>, unique: bool) {
    && (forall i :: 0 <= i < |rows| ==> RowOk(lib, rows[i]))
    && DistinctSerials(rows)
    && (unique ==> DistinctNames(rows))
  }

  function ValidRows(rows: seq<Row>): set<nat> {
    set i: nat | i < |rows| && rows[i].kind == 'V'
  }

  function Loaded(rows: seq<Row>, unique: bool): Db {
    Db(rows, ValidRows(rows), unique)
  }

  // ----- lookups and insertion -----

  /** The row the serial index finds, or -1. */
  function FindSerial(rows: seq<Row>, serial: string): (k: int)
    ensures -1 <= k < |rows|
    ensures k >= 0 ==> SameSerial(rows[k].serial, serial)
    ensures k < 0 ==> forall i :: 0 <= i < |rows| ==> !SameSerial(rows[i].serial, serial)
  {
    if rows == [] then -1
    else if SameSerial(rows[|rows| - 1].serial, serial) then |rows| - 1
    else FindSerial(rows[..|rows| - 1], serial)
  }

  predicate NameTaken(db: Db, name: string) {
    exists i :: i in db.named && i < |db.rows| && db.rows[i].name == name
  }

  /** TXT_DB_insert: refused on a clash in either index. */
  function Insert(db: Db, row: Row): (r: Option<Db>)
    ensures r.Some? ==> FindSerial(r.value.rows, row.serial) >= 0
  {
    if FindSerial(db.rows, row.serial) >= 0 then None
    else if db.unique && row.kind == 'V' && NameTaken(db, row.name) then None
    else
      var rows := db.rows + [row];
      assert SameSerial(rows[|db.rows|].serial, row.serial);
      Some(Db(rows, if row.kind == 'V' then db.named + {|db.rows|} else db.named, db.unique))
  }

  function NewRow(cert: Cert): Row {
    Row('V', cert.notAfter, "", Spell(cert.serial), "unknown", cert.name)
  }

  // ----- commands -----

  /** The database part of issuing: -1 on a serial that is taken, or a clash on insertion. */
  function Issue(db: Db, cert: Cert): (Db, bool) {
    if FindSerial(db.rows, Spell(cert.serial)) >= 0 then (db, false)
    else
      var r := Insert(db, NewRow(cert));
      if r.None? then (db, false) else (r.value, true)
  }

  /** do_revoke: an unknown certificate is added first; t is None when it is only to be added. */
  function Revoke(lib: Library, db: Db, now: string, cert: Cert, t: Option<RevType>, arg: string): (Db, bool)
    decreases FindSerial(db.rows, Spell(cert.serial)) < 0
  {
    var k := FindSerial(db.rows, Spell(cert.serial));
    if k < 0 then
      var r := Insert(db, NewRow(cert));
      if r.None? then (db, false)
      else if t.None? then (r.value, true)
      else Revoke(lib, r.value, now, cert, t, arg)
    else if db.rows[k].name != cert.name || t.None? || db.rows[k].kind == 'R' then (db, false)
    else
      var str := RevocationStr(lib, now, t.value, arg);
      if str.None? then (db, false)
      else (db.(rows := db.rows[k := db.rows[k].(kind := 'R', revDate := str.value)]), true)
  }

  /** strncmp(s, "49", 2) <= 0. */
  predicate Y2k(s: string) {
    StrLeq(if |s| > 2 then s[..2] else s, "49")
  }

  /** Whether do_updatedb takes the date to be at or before now. */
  predicate Expired(date: string, now: string) {
    if Y2k(date) == Y2k(now) then StrLeq(date, now) else !Y2k(date) && Y2k(now)
  }

  function ExpireRow(row: Row, now: string): Row {
    if row.kind == 'V' && Expired(row.expDate, now) then row.(kind := 'E') else row
  }

  function ExpireRows(rows: seq<Row>, now: string): (r: seq<Row>)
    ensures |r| == |rows| && forall i :: 0 <= i < |r| ==> r[i] == ExpireRow(rows[i], now)
  {
    seq(|rows|, i requires 0 <= i < |rows| => ExpireRow(rows[i], now))
  }

  function ExpireCount(rows: seq<Row>, now: string): nat {
    if rows == [] then 0
    else ExpireCount(rows[..|rows| - 1], now) + if ExpireRow(rows[|rows| - 1], now) != rows[|rows| - 1] then 1 else 0
  }

  // ----- runs -----

  datatype Step =
    | DoIssue(cert: Cert)
    | DoRevoke(now: string, cert: Cert, t: Option<RevType>, arg: string)
    | DoExpire(now: string)
    | SaveAndLoad

  function Apply(lib: Library, db: Db, step: Step): Db {
    match step
    case DoIssue(cert) => Issue(db, cert).0
    case DoRevoke(now, cert, t, arg) => Revoke(lib, db, now, cert, t, arg).0
    case DoExpire(now) => db.(rows := ExpireRows(db.rows, now))
    case SaveAndLoad => Loaded(db.rows, db.unique)
  }

  function Run(lib: Library, db: Db, steps: seq<Step>): Db {
    if steps == [] then db else Apply(lib, Run(lib, db, steps[..|steps| - 1]), steps[|steps| - 1])
  }

  /** What the steps are given: certificates whose expiry date loads, and a clock that prints as a UTCTime. */
  ghost predicate StepOk(lib: Library, step: Step) {
    match step
    case DoIssue(cert) => lib.isTime(cert.notAfter)
    case DoRevoke(now, cert, _, _) => lib.isTime(cert.notAfter) && lib.isUtcTime(now) && ',' !in now
    case DoExpire(_) => true
    case SaveAndLoad => true
  }

  /** The index in memory loads, and every valid row is in the name index, which has no name twice. */
  ghost predicate Inv(lib: Library, db: Db) {
    && LoadOk(lib, db.rows, db.unique)
    && ValidRows(db.rows) <= db.named
    && (forall i :: i in db.named ==> i < |db.rows|)
    && (db.unique ==> NamesOnce(db))
  }

  ghost predicate NamesOnce(db: Db) {
    forall i, j :: i in db.named && j in db.named && i < j < |db.rows| ==> db.rows[i].name != db.rows[j].name
  }

  /** What may happen to a row that is there. */
  predicate Moves(r: Row, r': Row) {
    || r' == r
    || (r.kind == 'V' && r' == r.(kind := 'E'))
    || (r.kind != 'R' && r' == r.(kind := 'R', revDate := r'.revDate))
  }

  ghost predicate AllMove(rows: seq<Row>, rows': seq<Row>) {
    |rows| <= |rows'| && forall i :: 0 <= i < |rows| ==> Moves(rows[i], rows'[i])
  }

  /** What every command guarantees of the index it leaves. */
  ghost predicate Keeps(lib: Library, db: Db, db': Db) {
    Inv(lib, db') && db'.unique == db.unique && AllMove(db.rows, db'.rows)
  }

  lemma KeepsCompose(lib: Library, a: Db, b: Db, c: Db)
    requires Keeps(lib, a, b) && Keeps(lib, b, c)
    ensures Keeps(lib, a, c)
  {
    forall i | 0 <= i < |a.rows| ensures Moves(a.rows[i], c.rows[i]) {
      assert Moves(a.rows[i], b.rows[i]) && Moves(b.rows[i], c.rows[i]);
    }
  }

  lemma LoadedInv(lib: Library, rows: seq<Row>, unique: bool)
    requires LoadOk(lib, rows, unique)
    ensures Keeps(lib, Loaded(rows, unique), Loaded(rows, unique))
  {
  }

  lemma InsertKeepsSerials(rows: seq<Row>, row: Row)
    requires DistinctSerials(rows) && FindSerial(rows, row.serial) < 0
    ensures DistinctSerials(rows + [row])
  {
    var rows' := rows + [row];
    forall i, j | 0 <= i < j < |rows'| ensures !SameSerial(rows'[i].serial, rows'[j].serial) {
      assert i < |rows| && rows'[i] == rows[i];
    }
  }

  lemma InsertKeepsValid(rows: seq<Row>, row: Row, named: set<nat>)
    requires ValidRows(rows) <= named
    ensures ValidRows(rows + [row]) <= if row.kind == 'V' then named + {|rows|} else named
  {
    var rows' := rows + [row];
    forall i | i in ValidRows(rows') ensures i in (if row.kind == 'V' then named + {|rows|} else named) {
      if i < |rows| { assert i in ValidRows(rows); }
    }
  }

  lemma NamesOnceIsDistinct(db: Db)
    requires NamesOnce(db) && ValidRows(db.rows) <= db.named
    ensures DistinctNames(db.rows)
  {
    forall i, j | 0 <= i < j < |db.rows| && db.rows[i].kind == 'V' && db.rows[j].kind == 'V'
      ensures db.rows[i].name != db.rows[j].name
    {
      assert i in ValidRows(db.rows) && j in ValidRows(db.rows);
    }
  }

  lemma InsertKeepsInv(lib: Library, db: Db, row: Row)
    requires Inv(lib, db) && RowOk(lib, row) && Insert(db, row).Some?
    ensures Keeps(lib, db, Insert(db, row).value)
  {
    var db' := Insert(db, row).value;
    assert db'.rows == db.rows + [row];
    InsertKeepsSerials(db.rows, row);
    InsertKeepsValid(db.rows, row, db.named);
    if db.unique {
      forall i, j | i in db'.named && j in db'.named && i < j < |db'.rows|
        ensures db'.rows[i].name != db'.rows[j].name
      {
        assert i in db.named && i < |db.rows|;
      }
      NamesOnceIsDistinct(db');
    }
  }

  /** Changing kind or revocation date of a row, never to valid, keeps the indexes good. */
  lemma UpdateKeepsInv(lib: Library, db: Db, rows': seq<Row>)
    requires Inv(lib, db) && |rows'| == |db.rows| && AllMove(db.rows, rows')
    requires forall i :: 0 <= i < |rows'| ==> RowOk(lib, rows'[i])
    ensures Inv(lib, db.(rows := rows'))
  {
    assert ValidRows(rows') <= ValidRows(db.rows);
  }

  lemma RevokeKeepsInv(lib: Library, db: Db, now: string, cert: Cert, t: Option<RevType>, arg: string)
    requires Inv(lib, db) && lib.isTime(cert.notAfter) && lib.isUtcTime(now) && ',' !in now
    ensures Keeps(lib, db, Revoke(lib, db, now, cert, t, arg).0)
    decreases FindSerial(db.rows, Spell(cert.serial)) < 0
  {
    var k := FindSerial(db.rows, Spell(cert.serial));
    if k < 0 {
      SpellIsOk(cert.serial);
      var r := Insert(db, NewRow(cert));
      if r.Some? {
        InsertKeepsInv(lib, db, NewRow(cert));
        if t.Some? {
          RevokeKeepsInv(lib, r.value, now, cert, t, arg);
          KeepsCompose(lib, db, r.value, Revoke(lib, r.value, now, cert, t, arg).0);
        }
      }
    } else {
      var (db', ok) := Revoke(lib, db, now, cert, t, arg);
      if ok {
        AcceptedIff(lib, now, t.value, arg);
        UnpackUndoesMake(lib, now, t.value, arg);
        UpdateKeepsInv(lib, db, db'.rows);
      }
    }
  }

  lemma StepKeepsInv(lib: Library, db: Db, step: Step)
    requires Inv(lib, db) && StepOk(lib, step)
    ensures Keeps(lib, db, Apply(lib, db, step))
  {
    match step
    case DoIssue(cert) =>
      SpellIsOk(cert.serial);
      if Issue(db, cert).1 { InsertKeepsInv(lib, db, NewRow(cert)); }
    case DoRevoke(now, cert, t, arg) =>
      RevokeKeepsInv(lib, db, now, cert, t, arg);
    case DoExpire(now) =>
      UpdateKeepsInv(lib, db, ExpireRows(db.rows, now));
    case SaveAndLoad =>
  }

  /** From an index that loads, every run leaves one that loads, and every row has only moved as it may. */
  lemma {:induction false} RunKeepsInv(lib: Library, rows: seq<Row>, unique: bool, steps: seq<Step>)
    requires LoadOk(lib, rows, unique) && forall i :: 0 <= i < |steps| ==> StepOk(lib, steps[i])
    ensures Keeps(lib, Loaded(rows, unique), Run(lib, Loaded(rows, unique), steps))
    ensures LoadOk(lib, Run(lib, Loaded(rows, unique), steps).rows, unique)
  {
    var db := Loaded(rows, unique);
    if steps == [] {
      LoadedInv(lib, rows, unique);
    } else {
      var init, last := steps[..|steps| - 1], steps[|steps| - 1];
      RunKeepsInv(lib, rows, unique, init);
      StepKeepsInv(lib, Run(lib, db, init), last);
      KeepsCompose(lib, db, Run(lib, db, init), Apply(lib, Run(lib, db, init), last));
    }
  }

  /** With rows that are valid, expired or revoked, the moves are V to E, V to R and E to R, and a revoked
      row never changes. */
  lemma MovesByKind(r: Row, r': Row)
    requires r.kind in {'V', 'E', 'R'} && Moves(r, r')
    ensures r'.kind in {'V', 'E', 'R'}
    ensures (r.kind, r'.kind) in {('V', 'V'), ('V', 'E'), ('V', 'R'), ('E', 'E'), ('E', 'R'), ('R', 'R')}
    ensures r.kind == r'.kind ==> r' == r
    ensures r'.serial == r.serial && r'.name == r.name && r'.expDate == r.expDate
  {
  }

  /** Issuing a certificate whose expiry date does not load is exactly what would leave an index that does not. */
  lemma IssueLoadsIff(lib: Library, db: Db, cert: Cert)
    requires Inv(lib, db) && Issue(db, cert).1
    ensures LoadOk(lib, Issue(db, cert).0.rows, db.unique) <==> lib.isTime(cert.notAfter)
  {
    SpellIsOk(cert.serial);
    if lib.isTime(cert.notAfter) {
      InsertKeepsInv(lib, db, NewRow(cert));
    } else {
      var rows := Issue(db, cert).0.rows;
      assert !RowOk(lib, rows[|rows| - 1]);
    }
  }

  /** Why a row does not load: a revocation date without a revocation, one that cannot be read, an expiry date that is
      none, or a serial that is not pairs of hexadecimal digits. */
  lemma RowRefusedIff(lib: Library, row: Row)
    ensures !RowOk(lib, row) <==>
              || (row.kind == 'R' && !Unpack(lib, row.revDate).ok)
              || (row.kind != 'R' && |row.revDate| > 0)
              || !lib.isTime(row.expDate)
              || !SerialOk(row.serial)
  {
  }

  // ----- when a command succeeds, and what it then changes -----

  ghost predicate HasSerial(rows: seq<Row>, serial: int) {
    exists i :: 0 <= i < |rows| && SameSerial(rows[i].serial, Spell(serial))
  }

  /** Duplicate subjects are not allowed, and a row the name index knows has this one. */
  ghost predicate NameClash(db: Db, name: string) {
    db.unique && exists i :: 0 <= i < |db.rows| && i in db.named && db.rows[i].name == name
  }

  lemma FindSerialIs(rows: seq<Row>, serial: string, k: nat)
    requires DistinctSerials(rows) && k < |rows| && SameSerial(rows[k].serial, serial)
    ensures FindSerial(rows, serial) == k
  {
    forall j | 0 <= j < |rows| && j != k ensures !SameSerial(rows[j].serial, serial) {
      assert !SameSerial(rows[if j < k then j else k].serial, rows[if j < k then k else j].serial);
    }
  }

  lemma FindAdded(rows: seq<Row>, row: Row)
    ensures FindSerial(rows + [row], row.serial) == |rows|
  {
  }

  /** A certificate is issued exactly when neither its serial nor, where that matters, its name is taken; it is
      then the last row, valid and in the name index. */
  lemma IssueIff(db: Db, cert: Cert)
    ensures Issue(db, cert).1 <==> !HasSerial(db.rows, cert.serial) && !NameClash(db, cert.name)
    ensures Issue(db, cert).0
            == if Issue(db, cert).1 then
                 Db(db.rows + [Row('V', cert.notAfter, "", Spell(cert.serial), "unknown", cert.name)],
                    db.named + {|db.rows|}, db.unique)
               else db
  {
    var k := FindSerial(db.rows, Spell(cert.serial));
    assert HasSerial(db.rows, cert.serial) <==> k >= 0;
    assert NameClash(db, cert.name) <==> db.unique && NameTaken(db, cert.name);
  }

  /** Only this row has changed: it is revoked, with what was asked for. */
  ghost predicate OnlyRevoked(lib: Library, rows: seq<Row>, rows': seq<Row>, k: nat, now: string, t: RevType,
                              arg: string)
  {
    && |rows'| == |rows| && k < |rows|
    && (forall i :: 0 <= i < |rows| && i != k ==> rows'[i] == rows[i])
    && rows'[k] == rows[k].(kind := 'R', revDate := rows'[k].revDate)
    && (lib.isUtcTime(now) && ',' !in now ==>
          Requested(t, arg).Some? && Unpack(lib, rows'[k].revDate) == RequestedInfo(now, t, arg))
  }

  /** A certificate in the index is revoked exactly when the name is the row's, the row is not revoked yet (it may
      be expired), and the request is acceptable; a refusal changes nothing. */
  lemma RevokeKnownIff(lib: Library, db: Db, now: string, cert: Cert, t: Option<RevType>, arg: string, k: nat)
    requires DistinctSerials(db.rows) && k < |db.rows| && SameSerial(db.rows[k].serial, Spell(cert.serial))
    ensures var (db', ok) := Revoke(lib, db, now, cert, t, arg);
            && (ok <==> db.rows[k].name == cert.name && db.rows[k].kind != 'R'
                        && t.Some? && Acceptable(lib, t.value, arg))
            && db'.named == db.named && db'.unique == db.unique
            && if ok then OnlyRevoked(lib, db.rows, db'.rows, k, now, t.value, arg) else db' == db
  {
    FindSerialIs(db.rows, Spell(cert.serial), k);
    if t.Some? {
      AcceptedIff(lib, now, t.value, arg);
      if Acceptable(lib, t.value, arg) && lib.isUtcTime(now) && ',' !in now {
        UnpackUndoesMake(lib, now, t.value, arg);
      }
    }
  }

  /** A certificate that is not in the index is added unless its name clashes, and stays added even when the
      revocation is then refused. */
  lemma RevokeUnknownIff(lib: Library, db: Db, now: string, cert: Cert, t: Option<RevType>, arg: string)
    requires !HasSerial(db.rows, cert.serial)
    ensures var (db', ok) := Revoke(lib, db, now, cert, t, arg);
            && (ok <==> !NameClash(db, cert.name) && (t.Some? ==> Acceptable(lib, t.value, arg)))
            && if NameClash(db, cert.name) then db' == db
               else
                 var rows := db.rows + [Row('V', cert.notAfter, "", Spell(cert.serial), "unknown", cert.name)];
                 && db'.named == db.named + {|db.rows|} && db'.unique == db.unique
                 && if ok && t.Some? then OnlyRevoked(lib, rows, db'.rows, |db.rows|, now, t.value, arg)
                    else db'.rows == rows
  {
    assert FindSerial(db.rows, Spell(cert.serial)) < 0;
    assert NameClash(db, cert.name) <==> db.unique && NameTaken(db, cert.name);
    if !NameClash(db, cert.name) && t.Some? {
      FindAdded(db.rows, NewRow(cert));
      RevokeAdded(lib, Insert(db, NewRow(cert)).value, now, cert, t.value, arg);
    }
  }

  lemma RevokeAdded(lib: Library, db: Db, now: string, cert: Cert, t: RevType, arg: string)
    requires db.rows != [] && db.rows[|db.rows| - 1] == NewRow(cert)
    requires FindSerial(db.rows, Spell(cert.serial)) == |db.rows| - 1
    ensures var (db', ok) := Revoke(lib, db, now, cert, Some(t), arg);
            && (ok <==> Acceptable(lib, t, arg))
            && db'.named == db.named && db'.unique == db.unique
            && if ok then OnlyRevoked(lib, db.rows, db'.rows, |db.rows| - 1, now, t, arg) else db' == db
  {
    AcceptedIff(lib, now, t, arg);
    if Acceptable(lib, t, arg) && lib.isUtcTime(now) && ',' !in now {
      UnpackUndoesMake(lib, now, t, arg);
    }
  }
}
