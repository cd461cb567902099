/** The index in memory as the commands change it, row fields in place. */
module CaCommands {
  import opened CStrings
  import opened Serials
  import opened Revocation
  import opened CaDb

  /** The row checks of a load, row by row and digit by digit. */
  method CheckRows(lib: Library, rows: seq<Row>) returns (ok: bool)
    ensures ok <==> forall i :: 0 <= i < |rows| ==> RowOk(lib, rows[i])
  {
    for i := 0 to |rows|
      invariant forall k :: 0 <= k < i ==> RowOk(lib, rows[k])
    {
      var row := rows[i];
      if row.kind != 'R' && row.revDate != "" {
        return false;
      }
      if row.kind == 'R' {
        var info := UnpackRevInfo(lib, row.revDate);
        if !info.ok {
          return false;
        }
      }
      if !lib.isTime(row.expDate) {
        return false;
      }
      var good := CheckSerial(row.serial);
      if !good {
        return false;
      }
    }
    return true;
  }

  method CheckSerial(serial: string) returns (ok: bool)
    ensures ok <==> SerialOk(serial)
  {
    var p := 0;
    var j := |serial|;
    if serial != "" && serial[0] == '-' {
      p, j := 1, j - 1;
    }
    ghost var digits := serial[p..];
    assert p == 0 ==> digits == serial;
    if j % 2 == 1 || j < 2 {
      return false;
    }
    ghost var from := p;
    while p < |serial|
      invariant from <= p <= |serial|
      invariant forall k :: from <= k < p ==> IsXDigit(serial[k])
    {
      if !IsXDigit(serial[p]) {
        assert !IsXDigit(digits[p - from]);
        return false;
      }
      p := p + 1;
    }
    return true;
  }

  class Index {
    var rows: seq<Row>
    var named: set<nat>
    const unique: bool

    ghost function Val(): Db
      reads this
    {
      Db(rows, named, unique)
    }

    constructor (rows: seq<Row>, unique: bool)
      ensures Val() == Loaded(rows, unique)
    {
      this.rows, this.named, this.unique := rows, ValidRows(rows), unique;
    }

    method Insert(row: Row) returns (ok: bool)
      modifies this
      ensures var r := CaDb.Insert(old(Val()), row);
              ok == r.Some? && Val() == if ok then r.value else old(Val())
    {
      if FindSerial(rows, row.serial) >= 0 {
        return false;
      }
      if unique && row.kind == 'V' && NameTaken(Db(rows, named, unique), row.name) {
        return false;
      }
      if row.kind == 'V' {
        named := named + {|rows|};
      }
      rows := rows + [row];
      return true;
    }

    method DoIssue(cert: Cert) returns (ok: bool)
      modifies this
      ensures (Val(), ok) == CaDb.Issue(old(Val()), cert)
    {
      var k := FindSerial(rows, Spell(cert.serial));
      if k >= 0 {
        return false;
      }
      ok := Insert(Row('V', cert.notAfter, "", Spell(cert.serial), "unknown", cert.name));
    }

    method DoRevoke(lib: Library, now: string, cert: Cert, t: Option<RevType>, arg: string) returns (ok: bool)
      modifies this
      ensures (Val(), ok) == CaDb.Revoke(lib, old(Val()), now, cert, t, arg)
      decreases FindSerial(rows, Spell(cert.serial)) < 0
    {
      var k := FindSerial(rows, Spell(cert.serial));
      if k < 0 {
        ok := Insert(Row('V', cert.notAfter, "", Spell(cert.serial), "unknown", cert.name));
        if !ok || t.None? {
          return;
        }
        ok := DoRevoke(lib, now, cert, t, arg);
        return;
      } else if rows[k].name != cert.name {
        return false;
      } else if t.None? {
        return false;
      } else if rows[k].kind == 'R' {
        return false;
      }
      var str := MakeRevocationStr(lib, now, t.value, arg);
      if str.None? {
        return false;
      }
      ghost var before := rows;
      rows := rows[k := rows[k].(kind := 'R')];
      rows := rows[k := rows[k].(revDate := str.value)];
      assert rows == before[k := before[k].(kind := 'R', revDate := str.value)];
      return true;
    }

    /** do_updatedb: the rows it marks, and how many. */
    method DoUpdateDb(now: string) returns (cnt: nat)
      modifies this`rows
      ensures rows == ExpireRows(old(rows), now) && cnt == ExpireCount(old(rows), now)
    {
      cnt := 0;
      var nowY2k := Y2k(now);
      ghost var before := rows;
      var i := 0;
      while i < |rows|
        invariant i <= |rows| == |before|
        invariant forall k :: 0 <= k < |rows| ==> rows[k] == if k < i then ExpireRow(before[k], now) else before[k]
        invariant cnt == ExpireCount(before[..i], now)
      {
        assert before[..i + 1][..i] == before[..i];
        if rows[i].kind == 'V' {
          var dbY2k := Y2k(rows[i].expDate);
          if dbY2k == nowY2k {
            if StrLeq(rows[i].expDate, now) {
              rows := rows[i := rows[i].(kind := 'E')];
              cnt := cnt + 1;
            }
          } else if !dbY2k && nowY2k {
            rows := rows[i := rows[i].(kind := 'E')];
            cnt := cnt + 1;
          }
        }
        i := i + 1;
      }
      assert before[..i] == before;
    }
  }
}
