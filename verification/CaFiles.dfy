/** How the CA's serial and index files are replaced on disk: write the new files, then rename, and undo the
    renames when one fails. */
module CaFiles {
  import opened CStrings
  import opened CaDb

  datatype Content = SerialFile(next: int) | IndexFile(rows: seq<Row>) | AttrFile(unique: bool) | Partial

  type Files = map<string, Content>

  /** Missing is ENOENT: there is no such source. Refused is any other failure. */
  datatype Outcome = Done | Missing | Refused

  const BSIZE := 256

  /** What a write leaves. */
  function Got(content: Content, whole: bool): Content {
    if whole then content else Partial
  }

  function At(f: Files, name: string): Option<Content> {
    if name in f then Some(f[name]) else None
  }

  ghost predicate SameOutside(f: Files, g: Files, names: set<string>) {
    forall x {:trigger At(f, x)} :: x !in names ==> At(f, x) == At(g, x)
  }

  ghost predicate Moved(f: Files, f0: Files, src: string, dst: string) {
    && At(f0, src).Some?
    && At(f, dst) == At(f0, src)
    && (src != dst ==> At(f, src) == None)
    && SameOutside(f, f0, {src, dst})
  }

  /** A directory in which any operation may fail. trace lists every state it has been in, and faults counts the
      operations that failed for reasons of their own. */
  class FileSystem {
    var files: Files
    ghost var trace: seq<Files>
    ghost var faults: nat

    constructor (files: Files)
      ensures this.files == files && trace == [files] && faults == 0
    {
      this.files, trace, faults := files, [files], 0;
    }

    method Rename(src: string, dst: string) returns (r: Outcome)
      modifies this
      ensures trace == old(trace) + [files]
      ensures faults == old(faults) + if r.Refused? then 1 else 0
      ensures r.Done? ==> Moved(files, old(files), src, dst)
      ensures r.Missing? ==> At(old(files), src) == None
      ensures !r.Done? ==> files == old(files)
    {
      if src in files {
        if * {
          files := (files - {src})[dst := files[src]];
          r := Done;
        } else {
          r := Refused;
        }
      } else {
        if * {
          r := Missing;
        } else {
          r := Refused;
        }
      }
      trace, faults := trace + [files], if r.Refused? then faults + 1 else faults;
    }

    /** A write may fail after part of the text, and such a failure may go unreported; whole says that it did
        not fail. */
    method Write(name: string, content: Content) returns (ok: bool, ghost whole: bool)
      modifies this
      ensures trace == old(trace) + [files]
      ensures SameOutside(files, old(files), {name})
      ensures faults == old(faults) + if ok && whole then 0 else 1
      ensures ok ==> At(files, name) == Some(Got(content, whole))
    {
      ok, whole := true, true;
      if * {
        files := files[name := content];
      } else if * {
        files, whole := files[name := Partial], false;
        if * {
          ok := false;
        }
      } else {
        ok, whole := false, false;
      }
      trace, faults := trace + [files], if ok && whole then faults else faults + 1;
    }
  }

  // ----- a main file, its new and its old name -----

  datatype Slots = Slots(main: Option<Content>, newer: Option<Content>, older: Option<Content>)

  function View(f: Files, main: string, newer: string, older: string): Slots {
    Slots(At(f, main), At(f, newer), At(f, older))
  }

  /** While a main file is replaced its name holds nothing, what was there, or the new contents; and what was
      there survives under the main or the old name. */
  predicate Replacing(s: Slots, s0: Slots) {
    s0.main.Some? ==>
      && (s.main == None || s.main == s0.main || s.main == s0.newer)
      && (s.main == s0.main || s.older == s0.main)
  }

  /** The new contents are in place, and what was there is under the old name. */
  predicate Installed(s: Slots, s0: Slots) {
    s0.newer.Some? && s == Slots(s0.newer, None, if s0.main.Some? then s0.main else s0.older)
  }

  predicate Restored(s: Slots, s0: Slots) {
    s.main == s0.main && s.newer == s0.newer
  }

  /** No stale old file can take the place of a main file that was not there. */
  predicate NoStale(s0: Slots) {
    s0.main.Some? || s0.older.None?
  }

  /** The names fit the program's buffers of 256 bytes, NUL included. */
  ghost predicate Fit(names: seq<string>) {
    forall i :: 0 <= i < |names| ==> |names[i]| < 256
  }

  ghost predicate Apart(names: seq<string>) {
    forall i, j :: 0 <= i < j < |names| ==> names[i] != names[j]
  }

  // ----- the serial file -----

  function SerialNames(serialfile: string, newer: string, older: string): (names: seq<string>)
    ensures |names| == 3
  {
    [serialfile, serialfile + "." + newer, serialfile + "." + older]
  }

  method SaveSerial(fs: FileSystem, serialfile: string, suffix: Option<string>, serial: int)
    returns (ok: bool, ghost whole: bool)
    modifies fs
    ensures old(fs.trace) <= fs.trace
    ensures var name := if suffix.Some? then serialfile + "." + suffix.value else serialfile;
            && Saving(fs.trace, |old(fs.trace)|, fs.files, old(fs.files), {name})
            && (ok ==> At(fs.files, name) == Some(Got(SerialFile(serial), whole)))
            && fs.faults >= old(fs.faults)
            && (if Fit([name]) then fs.faults == old(fs.faults) ==> ok && whole else !ok)
  {
    var j := if suffix.None? then |serialfile| else |serialfile| + |suffix.value| + 1;
    ghost var name := if suffix.Some? then serialfile + "." + suffix.value else serialfile;
    assert [name][0] == name && |name| == j;
    if j >= BSIZE {
      return false, false;
    }
    ok, whole := fs.Write(if suffix.None? then serialfile else serialfile + "." + suffix.value, SerialFile(serial));
  }

  /** The states from one point of a trace on, and the last, differ from the one before only at some names. */
  ghost predicate Saving(trace: seq<Files>, from: nat, last: Files, f0: Files, names: set<string>) {
    && SameOutside(last, f0, names)
    && forall k :: from <= k < |trace| ==> SameOutside(trace[k], f0, names)
  }

  ghost predicate SerialStep(f: Files, f0: Files, n: seq<string>)
    requires |n| == 3
  {
    SameOutside(f, f0, {n[0], n[1], n[2]}) && Replacing(View(f, n[0], n[1], n[2]), View(f0, n[0], n[1], n[2]))
  }

  /** stage is how many renames went forward; undone says that every rename of the rollback worked. */
  method RotateSerial(fs: FileSystem, serialfile: string, newer: string, older: string)
    returns (ok: bool, ghost stage: nat, ghost undone: bool)
    requires Apart(SerialNames(serialfile, newer, older))
    modifies fs
    ensures stage <= 2 && (ok <==> stage == 2)
    ensures old(fs.trace) <= fs.trace
    ensures var n := SerialNames(serialfile, newer, older);
            && SerialStep(fs.files, old(fs.files), n)
            && (forall k :: |old(fs.trace)| <= k < |fs.trace| ==> SerialStep(fs.trace[k], old(fs.files), n))
            && var s, s0 := View(fs.files, n[0], n[1], n[2]), View(old(fs.files), n[0], n[1], n[2]);
            && (ok ==> Installed(s, s0))
            && (!ok && undone ==> (Restored(s, s0) <==> (stage == 1 ==> s0.main.Some?)))
            && (!ok && undone && s0.main.Some? ==> Restored(s, s0))
            && fs.faults >= old(fs.faults)
            && (fs.faults == old(fs.faults) ==> (ok <==> Fit(n) && s0.newer.Some?))
            && (!ok && s0.main.Some? && fs.faults <= old(fs.faults) + (if s0.newer.Some? then 1 else 0) ==>
                  Restored(s, s0))
            && (!ok && fs.faults == old(fs.faults) && Fit(n) ==> (Restored(s, s0) <==> NoStale(s0)))
            && (!Fit(n) ==> !ok && fs.files == old(fs.files))
  {
    var j := |serialfile| + if |newer| < |older| then |older| else |newer|;
    if j + 1 >= BSIZE {
      return false, 0, true;
    }
    var buf := [serialfile + "." + newer, serialfile + "." + older];
    ghost var n := SerialNames(serialfile, newer, older);
    assert n[0] != n[1] && n[0] != n[2] && n[1] != n[2];
    var r := fs.Rename(serialfile, buf[1]);
    if r.Refused? {
      return false, 0, true;
    }
    r := fs.Rename(buf[0], serialfile);
    if !r.Done? {
      r := fs.Rename(buf[1], serialfile);
      return false, 1, r.Done?;
    }
    return true, 2, true;
  }

  // ----- the index file and its attributes -----

  /** The index, its new and old names, and the same three of the attribute file. */
  function IndexNames(dbfile: string, newer: string, older: string): (names: seq<string>)
    ensures |names| == 6
  {
    [dbfile, dbfile + "." + newer, dbfile + "." + older,
     dbfile + ".attr", dbfile + ".attr." + newer, dbfile + ".attr." + older]
  }

  /** The slots of the index, or of the attribute file. */
  function Of(f: Files, n: seq<string>, attr: bool): Slots
    requires |n| == 6
  {
    if attr then View(f, n[3], n[4], n[5]) else View(f, n[0], n[1], n[2])
  }

  ghost predicate IndexStep(f: Files, f0: Files, n: seq<string>)
    requires |n| == 6
  {
    && SameOutside(f, f0, set x | x in n)
    && Replacing(Of(f, n, false), Of(f0, n, false))
    && Replacing(Of(f, n, true), Of(f0, n, true))
  }

  ghost predicate IndexSteps(trace: seq<Files>, from: nat, f0: Files, n: seq<string>)
    requires |n| == 6
  {
    forall k :: from <= k < |trace| ==> IndexStep(trace[k], f0, n)
  }

  predicate IndexEnd(i: Slots, i0: Slots, a: Slots, a0: Slots, stage: nat, undone: bool) {
    && (stage == 4 ==> Installed(i, i0) && Installed(a, a0))
    && (stage < 4 && undone ==>
          (Restored(i, i0) && Restored(a, a0)
           <==> (stage >= 1 ==> i0.main.Some?) && (stage >= 3 ==> a0.main.Some?)))
  }

  /** How a rotation that failed leaves the files. With the main files there at the start, one failure is always
      undone, be it a new file that is missing or an operation that fails; with a new file missing and nothing else
      in the way, everything is put back exactly when no stale old file can come back. */
  predicate Undone(i: Slots, i0: Slots, a: Slots, a0: Slots, faults: nat) {
    var missing := i0.newer.None? || a0.newer.None?;
    && (i0.main.Some? && a0.main.Some? && faults <= (if missing then 0 else 1) ==> Restored(i, i0) && Restored(a, a0))
    && (faults == 0 ==>
          (Restored(i, i0) && Restored(a, a0) <==> NoStale(i0) && (i0.newer.None? || NoStale(a0))))
  }

  /** The four renames: main to old, new to main, old back to main, main back to new. */
  datatype Shift = Retire | Install | Reinstate | Withdraw

  function Source(m: Shift): nat {
    match m case Retire => 0 case Install => 1 case Reinstate => 2 case Withdraw => 0
  }

  function Target(m: Shift): nat {
    match m case Retire => 2 case Install => 0 case Reinstate => 0 case Withdraw => 1
  }

  function Shifted(s: Slots, m: Shift): Slots {
    match m
    case Retire => Slots(None, s.newer, s.main)
    case Install => Slots(s.newer, None, s.older)
    case Reinstate => Slots(s.older, s.newer, None)
    case Withdraw => Slots(None, s.main, s.older)
  }

  function SourceSlot(s: Slots, m: Shift): Option<Content> {
    match m case Retire => s.main case Install => s.newer case Reinstate => s.older case Withdraw => s.main
  }

  lemma ShiftMoves(f: Files, f1: Files, n: seq<string>, attr: bool, m: Shift, f0: Files)
    requires |n| == 6 && Apart(n) && SameOutside(f, f0, set x | x in n)
    requires var k := if attr then 3 else 0; Moved(f1, f, n[Source(m) + k], n[Target(m) + k])
    ensures SameOutside(f1, f0, set x | x in n) && SourceSlot(Of(f, n, attr), m).Some?
    ensures Of(f1, n, attr) == Shifted(Of(f, n, attr), m) && Of(f1, n, !attr) == Of(f, n, !attr)
  {
    assert forall i, j :: 0 <= i < j < 6 ==> n[i] != n[j];
  }

  /** A rename between two of an index's six names; f0 and from: where the rotation began. */
  method RenameStep(fs: FileSystem, src: string, dst: string,
                    ghost n: seq<string>, ghost attr: bool, ghost m: Shift, ghost f0: Files, ghost from: nat)
    returns (r: Outcome)
    requires |n| == 6 && Apart(n)
    requires src == n[Source(m) + if attr then 3 else 0] && dst == n[Target(m) + if attr then 3 else 0]
    requires IndexStep(fs.files, f0, n) && IndexSteps(fs.trace, from, f0, n)
    requires var s := Of(fs.files, n, attr); SourceSlot(s, m).Some? ==> Replacing(Shifted(s, m), Of(f0, n, attr))
    modifies fs
    ensures old(fs.trace) <= fs.trace
    ensures IndexStep(fs.files, f0, n) && IndexSteps(fs.trace, from, f0, n)
    ensures Of(fs.files, n, !attr) == Of(old(fs.files), n, !attr)
    ensures var s := Of(old(fs.files), n, attr);
            && (r.Done? ==> SourceSlot(s, m).Some?)
            && (r.Missing? ==> SourceSlot(s, m).None?)
            && Of(fs.files, n, attr) == if r.Done? then Shifted(s, m) else s
    ensures fs.faults == old(fs.faults) + if r.Refused? then 1 else 0
  {
    ghost var f := fs.files;
    r := fs.Rename(src, dst);
    if r.Done? {
      ShiftMoves(f, fs.files, n, attr, m, f0);
    }
  }

  /** The renames that put the index back; true when both worked. */
  method UndoIndex(fs: FileSystem, ghost n: seq<string>, dbfile: string, dbNew: string, dbOld: string,
                   ghost f0: Files, ghost from: nat)
    returns (ghost undone: bool)
    requires |n| == 6 && Apart(n) && dbfile == n[0] && dbNew == n[1] && dbOld == n[2]
    requires IndexStep(fs.files, f0, n) && IndexSteps(fs.trace, from, f0, n)
    requires Installed(Of(fs.files, n, false), Of(f0, n, false))
    modifies fs
    ensures old(fs.trace) <= fs.trace
    ensures IndexStep(fs.files, f0, n) && IndexSteps(fs.trace, from, f0, n)
    ensures Of(fs.files, n, true) == Of(old(fs.files), n, true)
    ensures undone ==> (Restored(Of(fs.files, n, false), Of(f0, n, false)) <==> Of(f0, n, false).main.Some?)
    ensures fs.faults >= old(fs.faults)
    ensures fs.faults == old(fs.faults) ==>
              (Restored(Of(fs.files, n, false), Of(f0, n, false)) <==> NoStale(Of(f0, n, false)))
  {
    var r := RenameStep(fs, dbfile, dbNew, n, false, Withdraw, f0, from);
    undone := r.Done?;
    r := RenameStep(fs, dbOld, dbfile, n, false, Reinstate, f0, from);
    undone := undone && r.Done?;
  }

  /** The second half: the index is in place, the attribute file is to follow. */
  method RenameAttr(fs: FileSystem, ghost n: seq<string>, dbfile: string, dbNew: string, dbOld: string,
                    attr: string, attrNew: string, attrOld: string, ghost f0: Files, ghost from: nat)
    returns (ok: bool, ghost stage: nat, ghost undone: bool)
    requires |n| == 6 && Apart(n) && dbfile == n[0] && dbNew == n[1] && dbOld == n[2]
    requires attr == n[3] && attrNew == n[4] && attrOld == n[5]
    requires IndexStep(fs.files, f0, n) && IndexSteps(fs.trace, from, f0, n)
    requires Installed(Of(fs.files, n, false), Of(f0, n, false)) && Of(fs.files, n, true) == Of(f0, n, true)
    modifies fs
    ensures stage <= 4 && (ok <==> stage == 4)
    ensures stage >= 2
    ensures old(fs.trace) <= fs.trace
    ensures IndexStep(fs.files, f0, n) && IndexSteps(fs.trace, from, f0, n)
    ensures var f1 := fs.files;
            IndexEnd(Of(f1, n, false), Of(f0, n, false), Of(f1, n, true), Of(f0, n, true), stage, undone)
    ensures fs.faults >= old(fs.faults)
    ensures fs.faults == old(fs.faults) ==> (ok <==> Of(f0, n, true).newer.Some?)
    ensures !ok ==> Undone(Of(fs.files, n, false), Of(f0, n, false), Of(fs.files, n, true), Of(f0, n, true),
                           fs.faults - old(fs.faults))
  {
    var r := RenameStep(fs, attr, attrOld, n, true, Retire, f0, from);
    if r.Refused? {
      undone := UndoIndex(fs, n, dbfile, dbNew, dbOld, f0, from);
      return false, 2, undone;
    }
    r := RenameStep(fs, attrNew, attr, n, true, Install, f0, from);
    if !r.Done? {
      r := RenameStep(fs, attrOld, attr, n, true, Reinstate, f0, from);
      undone := UndoIndex(fs, n, dbfile, dbNew, dbOld, f0, from);
      return false, 3, undone && r.Done?;
    }
    return true, 4, true;
  }

  method RotateIndex(fs: FileSystem, dbfile: string, newer: string, older: string)
    returns (ok: bool, ghost stage: nat, ghost undone: bool)
    requires Apart(IndexNames(dbfile, newer, older))
    modifies fs
    ensures stage <= 4 && (ok <==> stage == 4)
    ensures old(fs.trace) <= fs.trace
    ensures var n, f0, f1 := IndexNames(dbfile, newer, older), old(fs.files), fs.files;
            && IndexStep(f1, f0, n)
            && IndexSteps(fs.trace, |old(fs.trace)|, f0, n)
            && IndexEnd(Of(f1, n, false), Of(f0, n, false), Of(f1, n, true), Of(f0, n, true), stage, undone)
            && (!ok && undone && Of(f0, n, false).main.Some? && Of(f0, n, true).main.Some? ==>
                  Restored(Of(f1, n, false), Of(f0, n, false)) && Restored(Of(f1, n, true), Of(f0, n, true)))
            && fs.faults >= old(fs.faults)
            && (fs.faults == old(fs.faults) ==>
                  (ok <==> Fit(n) && Of(f0, n, false).newer.Some? && Of(f0, n, true).newer.Some?))
            && (!ok && Fit(n) ==> Undone(Of(f1, n, false), Of(f0, n, false), Of(f1, n, true), Of(f0, n, true),
                                         fs.faults - old(fs.faults)))
            && (!Fit(n) ==> !ok && f1 == f0)
  {
    var j := |dbfile| + if |newer| < |older| then |older| else |newer|;
    if j + 6 >= BSIZE {
      return false, 0, true;
    }
    var buf := [dbfile + "." + newer, dbfile + "." + older,
                dbfile + ".attr." + newer, dbfile + ".attr." + older, dbfile + ".attr"];
    ghost var n := IndexNames(dbfile, newer, older);
    ok, stage, undone := RenameIndex(fs, n, dbfile, buf);
  }

  method RenameIndex(fs: FileSystem, ghost n: seq<string>, dbfile: string, buf: seq<string>)
    returns (ok: bool, ghost stage: nat, ghost undone: bool)
    requires |n| == 6 && Apart(n) && dbfile == n[0] && buf == [n[1], n[2], n[4], n[5], n[3]]
    modifies fs
    ensures stage <= 4 && (ok <==> stage == 4)
    ensures old(fs.trace) <= fs.trace
    ensures var f0, f1 := old(fs.files), fs.files;
            && IndexStep(f1, f0, n)
            && IndexSteps(fs.trace, |old(fs.trace)|, f0, n)
            && IndexEnd(Of(f1, n, false), Of(f0, n, false), Of(f1, n, true), Of(f0, n, true), stage, undone)
            && fs.faults >= old(fs.faults)
            && (fs.faults == old(fs.faults) ==> (ok <==> Of(f0, n, false).newer.Some? && Of(f0, n, true).newer.Some?))
            && (!ok ==> Undone(Of(f1, n, false), Of(f0, n, false), Of(f1, n, true), Of(f0, n, true),
                               fs.faults - old(fs.faults)))
  {
    ghost var f0, from := fs.files, |fs.trace|;
    var r := RenameStep(fs, dbfile, buf[1], n, false, Retire, f0, from);
    if r.Refused? {
      return false, 0, true;
    }
    r := RenameStep(fs, buf[0], dbfile, n, false, Install, f0, from);
    if !r.Done? {
      r := RenameStep(fs, buf[1], dbfile, n, false, Reinstate, f0, from);
      return false, 1, r.Done?;
    }
    ok, stage, undone := RenameAttr(fs, n, dbfile, buf[0], buf[1], buf[4], buf[2], buf[3], f0, from);
  }

  // ----- writing the new index -----

  method SaveIndex(fs: FileSystem, dbfile: string, suffix: string, rows: seq<Row>, unique: bool)
    returns (ok: bool, ghost whole: bool, ghost attrWhole: bool)
    modifies fs
    ensures old(fs.trace) <= fs.trace
    ensures var db, attr := dbfile + "." + suffix, dbfile + ".attr." + suffix;
            && Saving(fs.trace, |old(fs.trace)|, fs.files, old(fs.files), {db, attr})
            && (ok ==> && At(fs.files, db) == Some(Got(IndexFile(rows), whole))
                       && At(fs.files, attr) == Some(Got(AttrFile(unique), attrWhole)))
            && fs.faults >= old(fs.faults)
            && (if Fit([db, attr]) && rows != [] then fs.faults == old(fs.faults) ==> ok && whole && attrWhole
                else !ok)
  {
    var j := |dbfile| + |suffix|;
    attrWhole := false;
    ghost var names := [dbfile + "." + suffix, dbfile + ".attr." + suffix];
    assert |names[0]| < |names[1]| == j + 6;
    if j + 6 >= BSIZE {
      return false, false, false;
    }
    var buf := [dbfile + "." + suffix, dbfile + ".attr." + suffix];
    ok, whole := fs.Write(buf[0], IndexFile(rows));
    if !ok || rows == [] {
      return false, false, false;
    }
    assert |buf[0]| < |buf[1]|;
    ok, attrWhole := fs.Write(buf[1], AttrFile(unique));
  }

  // ----- names -----

  lemma SerialNamesApart(serialfile: string)
    ensures Apart(SerialNames(serialfile, "new", "old"))
  {
    var n := SerialNames(serialfile, "new", "old");
    assert n[1][|n[1]| - 1] == 'w' && n[2][|n[2]| - 1] == 'd';
    assert |n[0]| < |n[1]| == |n[2]|;
  }

  lemma IndexNamesApart(dbfile: string)
    ensures Apart(IndexNames(dbfile, "new", "old"))
  {
    var n := IndexNames(dbfile, "new", "old");
    assert n[1][|n[1]| - 1] == 'w' && n[2][|n[2]| - 1] == 'd';
    assert n[4][|n[4]| - 1] == 'w' && n[5][|n[5]| - 1] == 'd';
    assert |n[0]| < |n[1]| == |n[2]| < |n[3]| < |n[4]| == |n[5]|;
  }
}
