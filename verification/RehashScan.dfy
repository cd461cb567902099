/** What a scan of the directory records of its symbolic links, and when those are the links as printed. */
module RehashScan {
  import opened CStrings
  import opened RehashSpec
  import opened RehashPlan
  import opened RehashNames
  import opened RehashIdempotent
  import opened RehashDir

  /** The link is recorded for this key and id: some name of it parses to them. */
  ghost predicate Recorded(names: map<string, string>, key: Key, f: string, id: nat) {
    exists name :: name in names && names[name] == f && ParseLinkName(name) == Some((key, id))
  }

  /** The link records a scan makes for a key, in whatever order it comes across the names. */
  ghost predicate Scans(rs: seq<Record>, names: map<string, string>, key: Key) {
    forall f, id :: Link(f, id) in rs <==> Recorded(names, key, f, id)
  }

  /** Every link recorded for the key also stands under the name the program would print for it. */
  ghost predicate Echoed(names: map<string, string>, key: Key) {
    forall f, id :: Recorded(names, key, f, id) ==> LinkName(key, id) in names && names[LinkName(key, id)] == f
  }

  lemma ParsedIdIsSmall(name: string)
    ensures ParseLinkName(name).Some? ==> ParseLinkName(name).value.1 < 0x1_0000
  {
  }

  lemma PrintedIsRecorded(names: map<string, string>, key: Key, id: nat)
    requires ValidKey(key) && id in View(names, key)
    ensures Recorded(names, key, View(names, key)[id], id)
  {
    ParsePrinted(key, id);
    assert LinkName(key, id) in names;
  }

  /** The records are the printed links exactly when every recorded link is echoed. */
  lemma ScannedIff(rs: seq<Record>, names: map<string, string>, key: Key)
    requires ValidKey(key) && Scans(rs, names, key)
    ensures Scanned(rs, View(names, key)) <==> Echoed(names, key)
  {
    var links := View(names, key);
    forall f, id | id in links && links[id] == f ensures Link(f, id) in rs {
      PrintedIsRecorded(names, key, id);
    }
    forall f, id | Recorded(names, key, f, id)
      ensures id < 0x1_0000 && Link(f, id) in rs
      ensures id in links && links[id] == f <==> LinkName(key, id) in names && names[LinkName(key, id)] == f
    {
      var name :| name in names && names[name] == f && ParseLinkName(name) == Some((key, id));
      ParsedIdIsSmall(name);
    }
  }

  // ----- names as the program prints them -----

  predicate IsPrinted(name: string) {
    var p := ParseLinkName(name);
    p.Some? ==> name == LinkName(p.value.0, p.value.1)
  }

  ghost predicate Canonical(names: map<string, string>) {
    forall name :: name in names ==> IsPrinted(name)
  }

  lemma CanonicalIsEchoed(names: map<string, string>, key: Key)
    requires Canonical(names)
    ensures Echoed(names, key)
  {
    forall f, id: nat | Recorded(names, key, f, id)
      ensures LinkName(key, id) in names && names[LinkName(key, id)] == f
    {
      var name :| name in names && names[name] == f && ParseLinkName(name) == Some((key, id));
      assert IsPrinted(name);
    }
  }

  /** Every name a run makes is printed. */
  lemma {:induction false} NoOtherAppears(names: map<string, string>, key: Key, es: seq<Entry>, acts: seq<Action>,
                                          name: string)
    requires |es| == |acts| && ValidKey(key) && SmallIds(acts) && !IsPrinted(name) && name !in names
    ensures name !in ExecNames(names, key, es, acts)
    decreases |es|
  {
    if es != [] {
      var n := |es| - 1;
      NoOtherAppears(names, key, es[..n], acts[..n], name);
      if acts[n].NewLink? { ParsePrinted(key, acts[n].id); }
    }
  }

  /** A name the program does not print for the key is left alone. */
  lemma {:induction false} OthersStay(names: map<string, string>, key: Key, es: seq<Entry>, acts: seq<Action>,
                                      name: string)
    requires |es| == |acts| && SmallIds(acts)
    requires forall id: nat :: id < 0x1_0000 ==> name != LinkName(key, id)
    ensures name in ExecNames(names, key, es, acts) <==> name in names
    ensures name in names ==> ExecNames(names, key, es, acts)[name] == names[name]
    decreases |es|
  {
    if es != [] {
      var n := |es| - 1;
      OthersStay(names, key, es[..n], acts[..n], name);
      assert !acts[n].Leave? ==> name != LinkName(key, acts[n].id);
    }
  }

  // ----- a name that parses and is not printed -----

  /** The id 0 with one digit too many. */
  function OddName(key: Key): string {
    LinkName(key, 0) + "0"
  }

  lemma ZerosRead(dec: string)
    requires |dec| == 2 && dec[0] == '0' && dec[1] == '0'
    ensures AllDec(dec) && StrToUl(dec) == (0, |dec|)
  {
    AllDigits(dec);
    assert dec[0..] == dec && dec[..|dec|] == dec;
    assert DecValue(dec[..1]) == 0 by { assert dec[..1][..0] == ""; }
    assert dec[..|dec| - 1] == dec[..1];
  }

  lemma OddNameIs(key: Key, dec: string)
    requires |dec| == 2 && dec[0] == '0' && dec[1] == '0'
    ensures OddName(key) == HexDigits(key.hash, 8) + "." + (if key.kind == 0 then "" else "r") + dec
  {
    var id := 0;
    assert DecDigits(id) == ['0'];
    assert DecDigits(id) + "0" == dec;
  }

  lemma OddNameParses(key: Key)
    requires ValidKey(key)
    ensures ParseLinkName(OddName(key)) == Some((key, 0)) && !IsPrinted(OddName(key))
  {
    var n, dec := 8, ['0', '0'];
    HexRoundTrip(key.hash, n);
    Pow16Is(n);
    ZerosRead(dec);
    OddNameIs(key, dec);
    ParseParts(HexDigits(key.hash, n), key.kind, dec, 0);
    assert |OddName(key)| == |LinkName(key, 0)| + 1;
  }

  lemma OddNameIsScanned(key: Key, f: string)
    requires ValidKey(key)
    ensures var names := map[OddName(key) := f];
            Scans([Link(f, 0), File(f, 1)], names, key) && !Echoed(names, key) && View(names, key) == map[]
  {
    var names, rs := map[OddName(key) := f], [Link(f, 0), File(f, 1)];
    OddNameParses(key);
    forall g, id ensures Link(g, id) in rs <==> Recorded(names, key, g, id) {
      if g == f && id == 0 { assert OddName(key) in names; }
    }
    assert rs[0] == Link(f, 0);
    forall id: nat | id < 0x1_0000 ensures LinkName(key, id) !in names {
      if LinkName(key, id) == OddName(key) { ParsePrinted(key, id); }
    }
    assert LinkName(key, 0) !in names && Recorded(names, key, f, 0);
  }

  lemma LinkThenFile(f: string)
    ensures Run([Link(f, 0), File(f, 1)]) == Bucket([Entry(f, 0, true, 1)], 1)
    ensures f in Accepted([Link(f, 0), File(f, 1)])
  {
    var link, file := Link(f, 0), File(f, 1);
    RunFirst(link);
    RunSnoc([link], file);
    assert [link] + [file] == [link, file];
    RecordsSnoc([link], file, f);
    RecordsSnoc([], link, f);
    assert [] + [link] == [link];
    var es := [Entry(f, 0, false, NIL_DIGEST)];
    FindIsUnique(es, 0);
    assert !HasDigest(es, 1);
    assert es[0 := Entry(f, 0, true, 1)] == [Entry(f, 0, true, 1)];
  }

  lemma OneIsKept(e: Entry, before: set<nat>, removeLinks: bool)
    requires e.oldId == 0
    ensures Plan(Bucket([e], 1), before, removeLinks) == Some([Keep(0)])
  {
    var es, n, none: seq<Action> := [e], 1, [];
    assert Assign(es[1..], n, StartMask(es, n, before), 0, removeLinks) == Some(none);
    assert [Keep(0)] + none == [Keep(0)];
  }

  /** The id it stands for is kept, so the file is left without a link under a printed name. */
  lemma OddNameIsKept(key: Key, f: string, before: set<nat>, removeLinks: bool)
    requires ValidKey(key)
    ensures var names, rs := map[OddName(key) := f], [Link(f, 0), File(f, 1)];
            && Scans(rs, names, key) && !Echoed(names, key) && f in Accepted(rs)
            && Plan(Run(rs), before, removeLinks) == Some([Keep(0)])
            && |Run(rs).entries| == 1 && View(ExecNames(names, key, Run(rs).entries, [Keep(0)]), key) == map[]
  {
    OddNameIsScanned(key, f);
    LinkThenFile(f);
    OneIsKept(Entry(f, 0, true, 1), before, removeLinks);
  }
}
