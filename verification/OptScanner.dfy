/** The scanner on its static variables, argv's words cut in place. */
module OptScanner {
  import opened CStrings
  import opened Options

  /** The entry for options that are not in the table: the last with an empty name. */
  function UnknownOf(table: seq<Entry>): (r: Option<Entry>)
    ensures r.Some? ==> r.value in table && r.value.name == ""
    ensures r.None? ==> forall i :: 0 <= i < |table| ==> table[i].name != ""
  {
    if table == [] then None
    else if table[|table| - 1].name == "" then Some(table[|table| - 1])
    else UnknownOf(table[..|table| - 1])
  }

  /** What is still to come, when the last call left s and returned r. */
  ghost function ToCome(lib: Library, table: seq<Entry>, s: Scan, r: int): (seq<(int, Option<string>)>, Scan, int)
    requires s.index <= |s.words|
  {
    if r <= 0 then ([], s, r)
    else
      var (rs, end, last) := ScanAll(lib, table, UnknownOf(table), s);
      ([(r, s.arg)] + rs, end, last)
  }

  /** A call hands over one result, and the rest is still to come. */
  lemma Call(lib: Library, table: seq<Entry>, s: Scan)
    requires s.index <= |s.words|
    ensures var (s', r) := Next(lib, table, UnknownOf(table), s);
            ScanAll(lib, table, UnknownOf(table), s) == ToCome(lib, table, s', r)
  {
  }

  class Scanner {
    var argv: seq<string>
    var optIndex: nat
    var arg: Option<string>
    var flag: Option<string>
    var dunno: Option<string>
    var unknown: Option<Entry>
    const opts: seq<Entry>

    ghost function Val(): Scan
      reads this
    {
      Scan(argv, optIndex, arg, flag, dunno)
    }

    /** opt_init. */
    constructor (argv: seq<string>, opts: seq<Entry>)
      ensures this.opts == opts && unknown == UnknownOf(opts)
      ensures Val() == Scan(argv, 1, None, None, None)
    {
      this.argv, optIndex, this.opts := argv, 1, opts;
      arg, flag, dunno, unknown := None, None, None, None;
      new;
      for o := 0 to |opts|
        modifies this`unknown
        invariant unknown == UnknownOf(opts[..o])
      {
        assert opts[..o + 1][..o] == opts[..o];
        if opts[o].name == HELP_STR || opts[o].name == MORE_STR {
          continue;
        }
        if opts[o].name == "" {
          unknown := Some(opts[o]);
        }
      }
      assert opts[..|opts|] == opts;
    }

    method OptNext(lib: Library) returns (r: int)
      modifies this
      ensures unknown == old(unknown)
      ensures (Val(), r) == Next(lib, opts, old(unknown), old(Val()))
    {
      arg := None;
      if optIndex >= |argv| {
        return 0;
      }
      var w := argv[optIndex];
      if w == "" || w[0] != '-' {
        return 0;
      }
      optIndex := optIndex + 1;
      if w == "--" {
        return 0;
      }
      var name := Cut(optIndex - 1);
      r := Lookup(lib, name);
    }

    /** Cuts a word at the '=' and sets what was found. */
    method Cut(i: nat) returns (name: string)
      requires i < |argv| && argv[i] != ""
      modifies this
      ensures name == NameOf(old(argv)[i]) && unknown == old(unknown)
      ensures Val() == Scan(old(argv)[i := CutWord(old(argv)[i])], old(optIndex), GivenOf(old(argv)[i]),
                            Some("-" + name), old(dunno))
    {
      var w := argv[i];
      var p := 1;
      if |w| > 1 && w[1] == '-' {
        p := 2;
      }
      var eq := IndexOf(w[p..], '=');
      name := w[p..][..eq];
      arg := None;
      if eq < |w[p..]| {
        arg := Some(w[p..][eq + 1..]);
      }
      argv := argv[i := w[..p] + name];
      flag := Some("-" + name);
    }

    /** The loop over the table. */
    method Lookup(lib: Library, name: string) returns (r: int)
      modifies this
      ensures unknown == old(unknown)
      ensures (Val(), r) == Select(lib, Find(opts, name), unknown, old(Val()), name)
    {
      var o := 0;
      assert opts[0..] == opts;
      while o < |opts|
        invariant o <= |opts| && Find(opts, name) == Find(opts[o..], name)
        invariant Val() == old(Val()) && unknown == old(unknown)
      {
        var e := opts[o];
        if e.name != name {
          assert opts[o..][1..] == opts[o + 1..];
          o := o + 1;
          continue;
        }
        if e.valtype == '\0' || e.valtype == '-' {
          return if arg.Some? then -1 else e.retval;
        }
        if arg.None? {
          if optIndex >= |argv| {
            return -1;
          }
          arg := Some(argv[optIndex]);
          optIndex := optIndex + 1;
        }
        return if ValueOk(lib, e.valtype, arg.value) then e.retval else -1;
      }
      if unknown.Some? {
        dunno := Some(name);
        return unknown.value.retval;
      }
      return -1;
    }

    /** A call that hands over one result of all that are to come. */
    method OptNextOf(lib: Library) returns (r: int)
      requires optIndex <= |argv| && unknown == UnknownOf(opts)
      modifies this
      ensures optIndex <= |argv| && |argv| == |old(argv)| && unknown == UnknownOf(opts)
      ensures old(optIndex) <= optIndex && (r != 0 ==> old(optIndex) < optIndex)
      ensures ToCome(lib, opts, Val(), r) == old(ScanAll(lib, opts, UnknownOf(opts), Val()))
    {
      Call(lib, opts, Val());
      r := OptNext(lib);
    }

    method OptRest() returns (rest: seq<string>)
      requires optIndex <= |argv|
      ensures rest == argv[optIndex..]
    {
      rest := argv[optIndex..];
    }

    method OptNumRest() returns (i: nat)
      requires optIndex <= |argv|
      ensures i == |argv| - optIndex
    {
      var pp := optIndex;
      i := 0;
      while pp < |argv|
        invariant i == pp - optIndex && pp <= |argv|
      {
        pp, i := pp + 1, i + 1;
      }
    }
  }

  /** What is collected and what is still to come make up the whole. */
  ghost predicate Whole(all: (seq<(int, Option<string>)>, Scan, int), got: seq<(int, Option<string>)>,
                        coming: (seq<(int, Option<string>)>, Scan, int)) {
    all == (got + coming.0, coming.1, coming.2)
  }

  lemma Collect(lib: Library, table: seq<Entry>, s: Scan, r: int,
                all: (seq<(int, Option<string>)>, Scan, int), got: seq<(int, Option<string>)>)
    requires s.index <= |s.words| && r > 0 && Whole(all, got, ToCome(lib, table, s, r))
    ensures Whole(all, got + [(r, s.arg)], ScanAll(lib, table, UnknownOf(table), s))
  {
    var rs := ScanAll(lib, table, UnknownOf(table), s).0;
    assert got + ([(r, s.arg)] + rs) == got + [(r, s.arg)] + rs;
  }

  lemma WholeAtStart(all: (seq<(int, Option<string>)>, Scan, int))
    ensures Whole(all, [], all)
  {
    assert [] + all.0 == all.0;
  }

  lemma WholeAtEnd(lib: Library, table: seq<Entry>, s: Scan, r: int,
                   all: (seq<(int, Option<string>)>, Scan, int), got: seq<(int, Option<string>)>)
    requires s.index <= |s.words| && r <= 0 && Whole(all, got, ToCome(lib, table, s, r))
    ensures all == (got, s, r)
  {
    assert got + [] == got;
  }

  /** The loop every command has: options until the scanner returns zero or an error, then the rest. */
  method ReadOptions(lib: Library, argv: seq<string>, table: seq<Entry>)
    returns (results: seq<(int, Option<string>)>, last: int, rest: seq<string>)
    requires argv != []
    ensures var (rs, end, r) := ScanAll(lib, table, UnknownOf(table), Scan(argv, 1, None, None, None));
            results == rs && last == r && rest == end.words[end.index..] && |results| < |argv|
  {
    var sc := new Scanner(argv, table);
    ghost var all := ScanAll(lib, table, UnknownOf(table), sc.Val());
    FewCalls(lib, table, UnknownOf(table), sc.Val());
    WholeAtStart(all);
    results := [];
    last := sc.OptNextOf(lib);
    while last > 0
      invariant sc.opts == table && sc.unknown == UnknownOf(table) && fresh(sc)
      invariant sc.optIndex <= |sc.argv| && Whole(all, results, ToCome(lib, table, sc.Val(), last))
      decreases |sc.argv| - sc.optIndex + (if last > 0 then 1 else 0)
    {
      Collect(lib, table, sc.Val(), last, all, results);
      results := results + [(last, sc.arg)];
      last := sc.OptNextOf(lib);
    }
    WholeAtEnd(lib, table, sc.Val(), last, all, results);
    rest := sc.OptRest();
  }
}
