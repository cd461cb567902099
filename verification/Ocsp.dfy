/** What the OCSP responder says of the index. */
module Ocsp {
  import opened CStrings
  import opened Serials
  import opened Revocation
  import opened CaDb
  import CaExpiry

  datatype CertStatus =
    | Unknown
    | Good
    | Revoked(reason: int, revTime: string, invalidityDate: Option<string>, holdInstruction: Option<string>)

  /** One certificate id of a request: is its digest known, is it about our CA, and its serial. */
  datatype CertId = CertId(knownDigest: bool, ours: bool, serial: int)

  datatype Response = Malformed | InternalError | Successful(statuses: seq<(CertId, CertStatus)>)

  /** The status of a revoked row; the invalidity date wins over the hold instruction. With an empty time the
      library adds no status. */
  function RevokedStatus(lib: Library, row: Row): Option<CertStatus> {
    var info := Unpack(lib, row.revDate);
    if info.revTime.None? then None
    else Some(Revoked(info.reason, info.revTime.value, info.invTime, if info.invTime.Some? then None else info.hold))
  }

  /** The status added for an id, if any: an expired row gets none at all. */
  function StatusOf(lib: Library, rows: seq<Row>, id: CertId): Option<CertStatus> {
    if !id.ours then Some(Unknown)
    else
      var k := FindSerial(rows, Spell(id.serial));
      if k < 0 then Some(Unknown)
      else if rows[k].kind == 'V' then Some(Good)
      else if rows[k].kind == 'R' then RevokedStatus(lib, rows[k])
      else None
  }

  ghost predicate Lists(at: seq<nat>, i: nat) {
    exists j :: 0 <= j < |at| && at[j] == i
  }

  /** at lists the positions of the ids that get a status, in order, and ss what each of them gets. */
  ghost predicate ListedAt(lib: Library, rows: seq<Row>, ids: seq<CertId>, ss: seq<(CertId, CertStatus)>,
                           at: seq<nat>) {
    && |at| == |ss|
    && (forall j :: 0 <= j < |at| ==> at[j] < |ids| && Some(ss[j].1) == StatusOf(lib, rows, ids[at[j]]))
    && (forall j :: 0 <= j < |at| ==> at[j] < |ids| && ss[j].0 == ids[at[j]])
    && (forall j, k :: 0 <= j < k < |at| ==> at[j] < at[k])
    && (forall i :: 0 <= i < |ids| && StatusOf(lib, rows, ids[i]).Some? ==> Lists(at, i))
  }

  /** The answer to a request for these ids: it lists exactly those with a status, in the order of the request. */
  ghost predicate IsResponse(lib: Library, rows: seq<Row>, ids: seq<CertId>, resp: Response) {
    if ids == [] then resp == Malformed
    else if exists i :: 0 <= i < |ids| && !ids[i].knownDigest then resp == InternalError
    else resp.Successful? && exists at :: ListedAt(lib, rows, ids, resp.statuses, at)
  }

  /** The status added for one id of the CA. */
  method StatusOfOurs(lib: Library, rows: seq<Row>, id: CertId) returns (s: Option<CertStatus>)
    requires id.ours
    ensures s == StatusOf(lib, rows, id)
  {
    var k := FindSerial(rows, Spell(id.serial));
    if k < 0 {
      return Some(Unknown);
    } else if rows[k].kind == 'V' {
      return Some(Good);
    } else if rows[k].kind == 'R' {
      var info := UnpackRevInfo(lib, rows[k].revDate);
      if info.revTime.Some? {
        if info.invTime.Some? {
          return Some(Revoked(info.reason, info.revTime.value, info.invTime, None));
        }
        return Some(Revoked(info.reason, info.revTime.value, None, info.hold));
      }
    }
    return None;
  }

  lemma ListsMore(at: seq<nat>, n: nat)
    ensures Lists(at + [n], n) && forall i :: Lists(at, i) ==> Lists(at + [n], i)
  {
    assert (at + [n])[|at|] == n;
    forall i | Lists(at, i) ensures Lists(at + [n], i) {
      var j :| 0 <= j < |at| && at[j] == i;
      assert (at + [n])[j] == i;
    }
  }

  /** One more id, without a status or with one. */
  lemma ListSkip(lib: Library, rows: seq<Row>, ids: seq<CertId>, ss: seq<(CertId, CertStatus)>, at: seq<nat>,
                 id: CertId)
    requires ListedAt(lib, rows, ids, ss, at) && StatusOf(lib, rows, id).None?
    ensures ListedAt(lib, rows, ids + [id], ss, at)
  {
  }

  lemma ListNext(lib: Library, rows: seq<Row>, ids: seq<CertId>, ss: seq<(CertId, CertStatus)>, at: seq<nat>,
                 id: CertId, s: CertStatus)
    requires ListedAt(lib, rows, ids, ss, at) && Some(s) == StatusOf(lib, rows, id)
    ensures ListedAt(lib, rows, ids + [id], ss + [(id, s)], at + [|ids|])
  {
    ListsMore(at, |ids|);
  }

  /** One turn of the loop. */
  method AddStatus(lib: Library, rows: seq<Row>, id: CertId, bs: seq<(CertId, CertStatus)>,
                   ghost before: seq<CertId>, ghost at: seq<nat>)
    returns (bs': seq<(CertId, CertStatus)>, ghost at': seq<nat>)
    requires ListedAt(lib, rows, before, bs, at)
    ensures ListedAt(lib, rows, before + [id], bs', at')
  {
    var s := Some(Unknown);
    if id.ours {
      s := StatusOfOurs(lib, rows, id);
    }
    if s.None? {
      ListSkip(lib, rows, before, bs, at, id);
      return bs, at;
    }
    ListNext(lib, rows, before, bs, at, id, s.value);
    return bs + [(id, s.value)], at + [|before|];
  }

  method MakeResponse(lib: Library, rows: seq<Row>, ids: seq<CertId>) returns (resp: Response)
    ensures IsResponse(lib, rows, ids, resp)
  {
    if |ids| == 0 {
      return Malformed;
    }
    var bs: seq<(CertId, CertStatus)> := [];
    ghost var at: seq<nat> := [];
    for i := 0 to |ids|
      invariant forall k :: 0 <= k < i ==> ids[k].knownDigest
      invariant ListedAt(lib, rows, ids[..i], bs, at)
    {
      if !ids[i].knownDigest {
        return InternalError;
      }
      bs, at := AddStatus(lib, rows, ids[i], bs, ids[..i], at);
      assert ids[..i] + [ids[i]] == ids[..i + 1];
    }
    assert ids[..|ids|] == ids;
    return Successful(bs);
  }

  lemma OnlyStatuses(lib: Library, rows: seq<Row>, ids: seq<CertId>, ss: seq<(CertId, CertStatus)>, at: seq<nat>,
                     j: nat)
    requires ListedAt(lib, rows, ids, ss, at) && j < |ss|
    ensures ss[j].0 in ids && StatusOf(lib, rows, ss[j].0) == Some(ss[j].1)
  {
    assert ids[at[j]] == ss[j].0;
  }

  lemma HasStatus(lib: Library, rows: seq<Row>, ids: seq<CertId>, ss: seq<(CertId, CertStatus)>, at: seq<nat>,
                  i: nat)
    returns (j: nat)
    requires ListedAt(lib, rows, ids, ss, at) && i < |ids| && StatusOf(lib, rows, ids[i]).Some?
    ensures j < |ss| && at[j] == i && ss[j] == (ids[i], StatusOf(lib, rows, ids[i]).value)
  {
    assert Lists(at, i);
    j :| 0 <= j < |at| && at[j] == i;
  }

  /** The status of an id is in the answer, and nothing else is said of it. */
  lemma AnsweredIff(lib: Library, rows: seq<Row>, ids: seq<CertId>, resp: Response, id: CertId, s: CertStatus)
    requires IsResponse(lib, rows, ids, resp) && resp.Successful?
    ensures (id, s) in resp.statuses <==> id in ids && StatusOf(lib, rows, id) == Some(s)
  {
    var ss := resp.statuses;
    var at :| ListedAt(lib, rows, ids, ss, at);
    if (id, s) in ss {
      var j :| 0 <= j < |ss| && ss[j] == (id, s);
      OnlyStatuses(lib, rows, ids, ss, at, j);
    }
    if id in ids && StatusOf(lib, rows, id) == Some(s) {
      var i :| 0 <= i < |ids| && ids[i] == id;
      var j := HasStatus(lib, rows, ids, ss, at, i);
      assert ss[j] == (id, s);
    }
  }

  /** Increasing positions below n that leave none out are all of them, in order. */
  lemma {:induction false} AllPositions(at: seq<nat>, n: nat)
    requires forall k :: 0 <= k < |at| ==> at[k] < n
    requires forall k, m :: 0 <= k < m < |at| ==> at[k] < at[m]
    requires forall i: nat :: i < n ==> Lists(at, i)
    ensures |at| == n && forall j :: 0 <= j < n ==> at[j] == j
  {
    assert n > 0 ==> Lists(at, n - 1);
    if |at| > 0 {
      var last := |at| - 1;
      assert at[last] == n - 1;
      forall i: nat | i < n - 1 ensures Lists(at[..last], i) {
        assert Lists(at, i);
        var k :| 0 <= k < |at| && at[k] == i;
        assert at[..last][k] == i;
      }
      AllPositions(at[..last], n - 1);
    }
  }

  /** When every id has a status the answer is one status per id, in order. */
  lemma AllAnswered(lib: Library, rows: seq<Row>, ids: seq<CertId>, resp: Response)
    requires IsResponse(lib, rows, ids, resp) && resp.Successful?
    requires forall i :: 0 <= i < |ids| ==> StatusOf(lib, rows, ids[i]).Some?
    ensures |resp.statuses| == |ids|
    ensures forall i :: 0 <= i < |ids| ==> resp.statuses[i] == (ids[i], StatusOf(lib, rows, ids[i]).value)
  {
    var at :| ListedAt(lib, rows, ids, resp.statuses, at);
    forall i | 0 <= i < |ids|
      ensures Lists(at, i)
      ensures exists j :: 0 <= j < |at| && at[j] == i
                          && resp.statuses[j] == (ids[i], StatusOf(lib, rows, ids[i]).value)
    {
      var j := HasStatus(lib, rows, ids, resp.statuses, at, i);
    }
    AllPositions(at, |ids|);
  }

  // ----- end to end -----

  /** What a revocation request should make the responder say. */
  function RequestedStatus(now: string, t: RevType, arg: string): CertStatus
    requires Requested(t, arg).Some?
  {
    Revoked(Requested(t, arg).value, now, if t.KeyCompromise? || t.CaCompromise? then Some(arg) else None,
            if t.Hold? then Some(arg) else None)
  }

  lemma FindInUpdated(rows: seq<Row>, k: nat, row: Row, serial: string)
    requires FindSerial(rows, serial) == k && row.serial == rows[k].serial
    ensures FindSerial(rows[k := row], serial) == k
  {
    if k < |rows| - 1 {
      assert rows[k := row][..|rows| - 1] == rows[..|rows| - 1][k := row];
      FindInUpdated(rows[..|rows| - 1], k, row, serial);
    }
  }

  lemma RevokedStatusOf(lib: Library, db: Db, now: string, cert: Cert, t: RevType, arg: string)
    requires lib.isUtcTime(now) && ',' !in now
    requires Revoke(lib, db, now, cert, Some(t), arg).1
    ensures Requested(t, arg).Some?
    ensures StatusOf(lib, Revoke(lib, db, now, cert, Some(t), arg).0.rows, CertId(true, true, cert.serial))
            == Some(RequestedStatus(now, t, arg))
    decreases FindSerial(db.rows, Spell(cert.serial)) < 0
  {
    var k := FindSerial(db.rows, Spell(cert.serial));
    if k < 0 {
      RevokedStatusOf(lib, Insert(db, NewRow(cert)).value, now, cert, t, arg);
    } else {
      AcceptedIff(lib, now, t, arg);
      UnpackUndoesMake(lib, now, t, arg);
      var str := RevocationStr(lib, now, t, arg).value;
      FindInUpdated(db.rows, k, db.rows[k].(kind := 'R', revDate := str), Spell(cert.serial));
    }
  }

  /** After a revocation that succeeds, every answer to a request for that certificate says it is revoked, with
      the requested reason, time and argument, and says nothing else of it. */
  lemma RevokedIsReported(lib: Library, db: Db, now: string, cert: Cert, t: RevType, arg: string,
                          ids: seq<CertId>, resp: Response, s: CertStatus)
    requires lib.isUtcTime(now) && ',' !in now
    requires Revoke(lib, db, now, cert, Some(t), arg).1
    requires IsResponse(lib, Revoke(lib, db, now, cert, Some(t), arg).0.rows, ids, resp) && resp.Successful?
    requires CertId(true, true, cert.serial) in ids
    ensures Requested(t, arg).Some?
    ensures (CertId(true, true, cert.serial), s) in resp.statuses <==> s == RequestedStatus(now, t, arg)
  {
    RevokedStatusOf(lib, db, now, cert, t, arg);
    AnsweredIff(lib, Revoke(lib, db, now, cert, Some(t), arg).0.rows, ids, resp, CertId(true, true, cert.serial), s);
  }

  /** The row a status is about: the one whose serial is the id's. */
  ghost predicate HasRow(rows: seq<Row>, id: CertId, kinds: set<char>) {
    exists i :: 0 <= i < |rows| && SameSerial(rows[i].serial, Spell(id.serial)) && rows[i].kind in kinds
  }

  /** The revocation date before the first comma is a UTCTime. */
  predicate DateReads(lib: Library, row: Row) {
    lib.isUtcTime(row.revDate[..IndexOf(row.revDate, ',')])
  }

  ghost predicate HasReadableRow(lib: Library, rows: seq<Row>, id: CertId) {
    exists i :: 0 <= i < |rows| && SameSerial(rows[i].serial, Spell(id.serial)) && rows[i].kind == 'R'
                && DateReads(lib, rows[i])
  }

  lemma RevokedStatusIff(lib: Library, row: Row)
    ensures RevokedStatus(lib, row).Some? <==> DateReads(lib, row)
  {
    assert row.revDate[..|row.revDate|] == row.revDate;
  }

  /** With one row a serial, good, revoked and unknown are reported for exactly the ids they fit. An id of ours
      whose row is neither valid nor revoked gets no status at all, nor does one whose revocation date does not
      read: the responder loads the index without the row checks. */
  lemma StatusFits(lib: Library, rows: seq<Row>, id: CertId)
    requires DistinctSerials(rows)
    ensures var s := StatusOf(lib, rows, id);
            && (s == Some(Good) <==> id.ours && HasRow(rows, id, {'V'}))
            && (s.Some? && s.value.Revoked? <==> id.ours && HasReadableRow(lib, rows, id))
            && (s == Some(Unknown) <==> !id.ours || FindSerial(rows, Spell(id.serial)) < 0)
  {
    var k := FindSerial(rows, Spell(id.serial));
    if k >= 0 {
      RevokedStatusIff(lib, rows[k]);
      forall i | 0 <= i < |rows| && i != k ensures !SameSerial(rows[i].serial, Spell(id.serial)) {
        assert !SameSerial(rows[if i < k then i else k].serial, rows[if i < k then k else i].serial);
      }
    }
  }

  lemma {:induction false} FindAfterSweep(rows: seq<Row>, now: string, serial: string)
    ensures FindSerial(ExpireRows(rows, now), serial) == FindSerial(rows, serial)
  {
    if rows != [] {
      var init := rows[..|rows| - 1];
      FindAfterSweep(init, now, serial);
      assert ExpireRows(rows, now)[..|rows| - 1] == ExpireRows(init, now);
    }
  }

  /** A certificate that was issued is reported good after a sweep exactly as long as it has not expired, and then
      not at all. */
  lemma IssuedUntilExpired(lib: Library, db: Db, cert: Cert, now: string)
    requires Issue(db, cert).1 && CaExpiry.IsUtcTime(cert.notAfter) && CaExpiry.IsUtcTime(now)
    ensures StatusOf(lib, ExpireRows(Issue(db, cert).0.rows, now), CertId(true, true, cert.serial))
            == if CaExpiry.UtcInstant(cert.notAfter) <= CaExpiry.UtcInstant(now) then None else Some(Good)
  {
    var rows := Issue(db, cert).0.rows;
    CaExpiry.ExpiredIsBefore(cert.notAfter, now);
    FindAfterSweep(rows, now, Spell(cert.serial));
    assert rows == db.rows + [NewRow(cert)] && FindSerial(rows, Spell(cert.serial)) == |db.rows|;
  }
}
