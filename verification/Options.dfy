/** The scanner of command-line options. */
module Options {
  import opened CStrings

  /** valtype says what value an option takes; '-' and NUL mean none. */
  datatype Entry = Entry(name: string, retval: int, valtype: char)

  /** What the scanner asks of the system and of the number and format parsers. */
  datatype Library = Library(isDir: string -> int, canRead: string -> bool, canWrite: string -> bool,
                             intOf: string -> Option<int>, isNumber: (char, string) -> bool,
                             isFormat: (char, string) -> bool)

  /** argv, opt_index, and the results of the last call. */
  datatype Scan = Scan(words: seq<string>, index: nat, arg: Option<string>, flag: Option<string>,
                       dunno: Option<string>)

  predicate TakesValue(e: Entry) {
    e.valtype != '\0' && e.valtype != '-'
  }

  predicate ValueOk(lib: Library, valtype: char, arg: string) {
    if valtype == '/' then lib.isDir(arg) >= 0
    else if valtype == '<' then arg == "-" || lib.canRead(arg)
    else if valtype == '>' then arg == "-" || lib.canWrite(arg)
    else if valtype == 'p' then lib.intOf(arg).Some? && lib.intOf(arg).value > 0
    else if valtype == 'n' then lib.intOf(arg).Some?
    else if valtype in {'M', 'U', 'l', 'u'} then lib.isNumber(valtype, arg)
    else if valtype in {'c', 'E', 'F', 'f'} then lib.isFormat(valtype, arg)
    else true
  }

  /** The first entry with that name. */
  function Find(table: seq<Entry>, name: string): (r: Option<Entry>)
    ensures r.Some? ==> r.value in table && r.value.name == name
    ensures r.None? ==> forall i :: 0 <= i < |table| ==> table[i].name != name
  {
    if table == [] then None
    else if table[0].name == name then Some(table[0])
    else Find(table[1..], name)
  }

  /** Where the name starts in a word that starts with '-': after one or two dashes. */
  function NameStart(w: string): (p: nat)
    ensures w != "" ==> p <= |w|
  {
    if |w| > 1 && w[1] == '-' then 2 else 1
  }

  /** One call of opt_next: the new state and the result. */
  function Next(lib: Library, table: seq<Entry>, unknown: Option<Entry>, s: Scan): (r: (Scan, int))
    ensures |r.0.words| == |s.words| && s.index <= r.0.index
    ensures s.index <= |s.words| ==> r.0.index <= |s.words|
    ensures r.1 != 0 ==> s.index < r.0.index
  {
    if s.index >= |s.words| || s.words[s.index] == "" || s.words[s.index][0] != '-' then (s.(arg := None), 0)
    else if s.words[s.index] == "--" then (s.(arg := None, index := s.index + 1), 0)
    else
      var w := s.words[s.index];
      Select(lib, Find(table, NameOf(w)), unknown,
             Scan(s.words[s.index := CutWord(w)], s.index + 1, GivenOf(w), Some("-" + NameOf(w)), s.dunno), NameOf(w))
  }

  function Body(w: string): string
    requires w != ""
  {
    w[NameStart(w)..]
  }

  /** The name in a word, up to an '='. */
  function NameOf(w: string): string
    requires w != ""
  {
    Body(w)[..IndexOf(Body(w), '=')]
  }

  /** The value after the '=', if there is one. */
  function GivenOf(w: string): Option<string>
    requires w != ""
  {
    var eq := IndexOf(Body(w), '=');
    if eq < |Body(w)| then Some(Body(w)[eq + 1..]) else None
  }

  /** What stays of the word in argv. */
  function CutWord(w: string): string
    requires w != ""
  {
    w[..NameStart(w)] + NameOf(w)
  }

  /** What becomes of a word once it is cut and its name looked up. */
  function Select(lib: Library, e: Option<Entry>, unknown: Option<Entry>, s: Scan, name: string): (r: (Scan, int))
    ensures |r.0.words| == |s.words| && s.index <= r.0.index
    ensures s.index <= |s.words| ==> r.0.index <= |s.words|
  {
    if e.None? then
      if unknown.Some? then (s.(dunno := Some(name)), unknown.value.retval) else (s, -1)
    else if !TakesValue(e.value) then
      if s.arg.Some? then (s, -1) else (s, e.value.retval)
    else if s.arg.None? && s.index >= |s.words| then (s, -1)
    else
      var s' := if s.arg.Some? then s else s.(arg := Some(s.words[s.index]), index := s.index + 1);
      if ValueOk(lib, e.value.valtype, s'.arg.value) then (s', e.value.retval) else (s', -1)
  }

  // ----- writing options down -----

  /** One option: one dash or two, and the value, after an '=' or as a word of its own. */
  datatype Given = Given(entry: Entry, twoDashes: bool, value: string, joined: bool)

  function Dashes(g: Given): string {
    (if g.twoDashes then "--" else "-") + g.entry.name
  }

  function Render(g: Given): seq<string> {
    if !TakesValue(g.entry) then [Dashes(g)]
    else if g.joined then [Dashes(g) + "=" + g.value]
    else [Dashes(g), g.value]
  }

  function RenderAll(gs: seq<Given>): seq<string> {
    if gs == [] then [] else Render(gs[0]) + RenderAll(gs[1..])
  }

  const HELP_STR := "--"
  const MORE_STR := "---"

  /** What opt_init asserts of a table: no name twice, but for the two names of help lines. */
  ghost predicate Distinct(table: seq<Entry>) {
    forall i, j :: 0 <= i < j < |table| && table[i].name != HELP_STR && table[i].name != MORE_STR ==>
      table[i].name != table[j].name
  }

  /** An option of the table that can be written: its name has no '=' and does not start with a dash. */
  ghost predicate Writable(lib: Library, table: seq<Entry>, g: Given) {
    && g.entry in table
    && g.entry.name != "" && g.entry.name[0] != '-' && '=' !in g.entry.name
    && (TakesValue(g.entry) ==> ValueOk(lib, g.entry.valtype, g.value))
  }

  function ArgOf(g: Given): Option<string> {
    if TakesValue(g.entry) then Some(g.value) else None
  }

  lemma {:induction false} FindIsIt(table: seq<Entry>, e: Entry)
    requires Distinct(table) && e in table && e.name != HELP_STR && e.name != MORE_STR
    ensures Find(table, e.name) == Some(e)
  {
    if table[0] != e {
      assert e in table[1..] by {
        var i :| 0 <= i < |table| && table[i] == e;
        assert table[1..][i - 1] == e;
      }
      var i :| 0 <= i < |table| && table[i] == e;
      assert table[0].name != e.name;
      FindIsIt(table[1..], e);
    }
  }

  /** Taking the dashes off. */
  lemma WordParts(g: Given, w: string, tail: string)
    requires g.entry.name != "" && g.entry.name[0] != '-' && w == Dashes(g) + tail
    ensures w != "" && w[0] == '-' && w != "--" && Body(w) == g.entry.name + tail
  {
    var d := if g.twoDashes then "--" else "-";
    assert w == d + (g.entry.name + tail);
    assert w[|d|] == g.entry.name[0];
  }

  lemma NextJoined(lib: Library, table: seq<Entry>, unknown: Option<Entry>, s: Scan, g: Given)
    requires Distinct(table) && Writable(lib, table, g) && TakesValue(g.entry) && g.joined
    requires s.index < |s.words| && s.words[s.index] == Dashes(g) + "=" + g.value
    ensures var (s', r) := Next(lib, table, unknown, s);
            && r == g.entry.retval && s'.arg == Some(g.value) && s'.index == s.index + 1
            && |s'.words| == |s.words| && s'.words[s'.index..] == s.words[s'.index..]
  {
    var w := s.words[s.index];
    assert w == Dashes(g) + ("=" + g.value);
    WordParts(g, w, "=" + g.value);
    IndexOfConcat(g.entry.name, '=', g.value);
    assert g.entry.name + "=" + g.value == g.entry.name + ("=" + g.value);
    FindIsIt(table, g.entry);
  }

  lemma NextPlain(lib: Library, table: seq<Entry>, unknown: Option<Entry>, s: Scan, g: Given)
    requires Distinct(table) && Writable(lib, table, g) && !(TakesValue(g.entry) && g.joined)
    requires s.index < |s.words| && s.words[s.index] == Dashes(g)
    requires TakesValue(g.entry) ==> s.index + 1 < |s.words| && s.words[s.index + 1] == g.value
    ensures var (s', r) := Next(lib, table, unknown, s);
            && r == g.entry.retval && s'.arg == ArgOf(g)
            && s'.index == s.index + (if TakesValue(g.entry) then 2 else 1)
            && |s'.words| == |s.words| && s'.words[s'.index..] == s.words[s'.index..]
  {
    var w := s.words[s.index];
    assert w == Dashes(g) + "" && g.entry.name + "" == g.entry.name;
    WordParts(g, w, "");
    IndexOfConcat(g.entry.name, '=', "");
    assert g.entry.name[..|g.entry.name|] == g.entry.name;
    FindIsIt(table, g.entry);
  }

  // ----- what is refused -----

  /** A value for an option that takes none. */
  lemma NextUnwantedValue(lib: Library, table: seq<Entry>, unknown: Option<Entry>, s: Scan, g: Given)
    requires Distinct(table) && Writable(lib, table, g) && !TakesValue(g.entry)
    requires s.index < |s.words| && s.words[s.index] == Dashes(g) + "=" + g.value
    ensures Next(lib, table, unknown, s).1 == -1
  {
    var w := s.words[s.index];
    assert w == Dashes(g) + ("=" + g.value);
    WordParts(g, w, "=" + g.value);
    IndexOfConcat(g.entry.name, '=', g.value);
    assert g.entry.name + "=" + g.value == g.entry.name + ("=" + g.value);
    FindIsIt(table, g.entry);
  }

  /** An option that takes a value as the last word, without one. */
  lemma NextMissingValue(lib: Library, table: seq<Entry>, unknown: Option<Entry>, s: Scan, g: Given)
    requires Distinct(table) && Writable(lib, table, g) && TakesValue(g.entry)
    requires s.index + 1 == |s.words| && s.words[s.index] == Dashes(g)
    ensures Next(lib, table, unknown, s).1 == -1
  {
    var w := s.words[s.index];
    assert w == Dashes(g) + "" && g.entry.name + "" == g.entry.name;
    WordParts(g, w, "");
    IndexOfConcat(g.entry.name, '=', "");
    assert g.entry.name[..|g.entry.name|] == g.entry.name;
    FindIsIt(table, g.entry);
  }

  function Tail(given: Option<string>): string {
    if given.Some? then "=" + given.value else ""
  }

  lemma CutIsDashes(g: Given, given: Option<string>, w: string)
    requires g.entry.name != "" && g.entry.name[0] != '-' && w == Dashes(g) + Tail(given)
    requires w != "" && NameOf(w) == g.entry.name
    ensures CutWord(w) == Dashes(g)
  {
    if g.twoDashes {
      assert w[..2] == "--";
    } else {
      assert w[..1] == "-" && w[1] == g.entry.name[0];
    }
  }

  /** Cutting a word at its '='. */
  lemma NameAndValue(g: Given, given: Option<string>, w: string)
    requires g.entry.name != "" && g.entry.name[0] != '-' && '=' !in g.entry.name
    requires w == Dashes(g) + Tail(given)
    ensures w != "" && w[0] == '-' && w != "--" && NameOf(w) == g.entry.name && GivenOf(w) == given
    ensures CutWord(w) == Dashes(g)
  {
    var name := g.entry.name;
    WordParts(g, w, Tail(given));
    if given.Some? {
      IndexOfConcat(name, '=', given.value);
      assert name + "=" + given.value == name + Tail(given);
    } else {
      IndexOfConcat(name, '=', "");
      assert name + Tail(given) == name && name[..|name|] == name;
    }
    CutIsDashes(g, given, w);
  }

  /** A name that is not in the table, with or without a value after '=': handed on with both when the table has an
      entry for that, else refused; the next word is never taken. */
  lemma NextUnknownName(lib: Library, table: seq<Entry>, unknown: Option<Entry>, s: Scan, g: Given,
                        given: Option<string>)
    requires forall i :: 0 <= i < |table| ==> table[i].name != g.entry.name
    requires g.entry.name != "" && g.entry.name[0] != '-' && '=' !in g.entry.name
    requires s.index < |s.words| && s.words[s.index] == Dashes(g) + Tail(given)
    ensures var (s', r) := Next(lib, table, unknown, s);
            && s'.arg == given && s'.index == s.index + 1
            && s'.flag == Some("-" + g.entry.name) && s'.words == s.words[s.index := Dashes(g)]
            && if unknown.None? then r == -1 else r == unknown.value.retval && s'.dunno == Some(g.entry.name)
  {
    NameAndValue(g, given, s.words[s.index]);
  }

  /** A lone "-" is no plain word but an option with an empty name: an error when the table has none. */
  lemma NextDash(lib: Library, table: seq<Entry>, s: Scan)
    requires forall i :: 0 <= i < |table| ==> table[i].name != ""
    requires s.index < |s.words| && s.words[s.index] == "-"
    ensures var (s', r) := Next(lib, table, None, s);
            r == -1 && s'.index == s.index + 1 && s'.arg == None && s'.flag == Some("-")
  {
    assert NameOf("-") == "" && GivenOf("-") == None;
    assert "-" + "" == "-";
  }

  // ----- whole command lines -----

  /** Calls until one returns zero or less: the results before it, the state it leaves, and what it returned. */
  function ScanAll(lib: Library, table: seq<Entry>, unknown: Option<Entry>, s: Scan)
    : (r: (seq<(int, Option<string>)>, Scan, int))
    requires s.index <= |s.words|
    ensures r.1.index <= |r.1.words|
    decreases |s.words| - s.index
  {
    var (s', r) := Next(lib, table, unknown, s);
    if r <= 0 then ([], s', r)
    else
      var (rs, end, last) := ScanAll(lib, table, unknown, s');
      ([(r, s'.arg)] + rs, end, last)
  }

  function Results(gs: seq<Given>): (r: seq<(int, Option<string>)>) {
    if gs == [] then [] else [(gs[0].entry.retval, ArgOf(gs[0]))] + Results(gs[1..])
  }

  /** The words left are these. */
  ghost predicate Left(s: Scan, ws: seq<string>) {
    s.index <= |s.words| && s.words[s.index..] == ws
  }

  lemma NextGiven(lib: Library, table: seq<Entry>, unknown: Option<Entry>, s: Scan, g: Given, rest: seq<string>)
    requires Distinct(table) && Writable(lib, table, g) && Left(s, Render(g) + rest)
    ensures var (s', r) := Next(lib, table, unknown, s);
            r == g.entry.retval && s'.arg == ArgOf(g) && Left(s', rest)
  {
    var ws := Render(g) + rest;
    assert ws[0] == s.words[s.index] && ws[0] == Render(g)[0];
    assert |Render(g)| == 2 ==> ws[1] == s.words[s.index + 1] && ws[1] == g.value;
    assert s.words[s.index + |Render(g)|..] == ws[|Render(g)|..] == rest;
    if TakesValue(g.entry) && g.joined {
      NextJoined(lib, table, unknown, s, g);
    } else {
      NextPlain(lib, table, unknown, s, g);
    }
  }

  /** A value that is not of the option's type: no directory, no file that can be read or written ("-" stands for the
      standard streams), no number, a number that is not positive where it must be, no such format. */
  predicate BadValue(lib: Library, valtype: char, v: string) {
    match valtype
    case '/' => lib.isDir(v) < 0
    case '<' => v != "-" && !lib.canRead(v)
    case '>' => v != "-" && !lib.canWrite(v)
    case 'p' => lib.intOf(v).None? || lib.intOf(v).value <= 0
    case 'n' => lib.intOf(v).None?
    case 'M' | 'U' | 'l' | 'u' => !lib.isNumber(valtype, v)
    case 'c' | 'E' | 'F' | 'f' => !lib.isFormat(valtype, v)
    case _ => false
  }

  /** A call on a word that has been cut and looked up. */
  lemma NextUnfolds(lib: Library, table: seq<Entry>, unknown: Option<Entry>, s: Scan, w: string, e: Entry, cut: Scan)
    requires s.index < |s.words| && s.words[s.index] == w && w != "" && w[0] == '-' && w != "--"
    requires Find(table, NameOf(w)) == Some(e)
    requires cut == Scan(s.words[s.index := CutWord(w)], s.index + 1, GivenOf(w), Some("-" + NameOf(w)), s.dunno)
    ensures Next(lib, table, unknown, s) == Select(lib, Some(e), unknown, cut, NameOf(w))
  {
  }

  lemma NextIsSelect(lib: Library, table: seq<Entry>, unknown: Option<Entry>, s: Scan, g: Given,
                     given: Option<string>)
    returns (cut: Scan)
    requires Distinct(table) && g.entry in table && g.entry.name != "" && g.entry.name[0] != '-'
    requires '=' !in g.entry.name && s.index < |s.words| && s.words[s.index] == Dashes(g) + Tail(given)
    ensures Next(lib, table, unknown, s) == Select(lib, Some(g.entry), unknown, cut, g.entry.name)
    ensures cut == Scan(s.words[s.index := Dashes(g)], s.index + 1, given, Some("-" + g.entry.name), s.dunno)
  {
    var w := s.words[s.index];
    NameAndValue(g, given, w);
    FindIsIt(table, g.entry);
    cut := Scan(s.words[s.index := CutWord(w)], s.index + 1, GivenOf(w), Some("-" + NameOf(w)), s.dunno);
    NextUnfolds(lib, table, unknown, s, w, g.entry, cut);
  }

  /** A value once it is there. */
  lemma TypedResult(lib: Library, valtype: char, v: string)
    ensures ValueOk(lib, valtype, v) <==> !BadValue(lib, valtype, v)
  {
  }

  lemma NextTypedJoined(lib: Library, table: seq<Entry>, unknown: Option<Entry>, s: Scan, g: Given)
    requires Distinct(table) && g.entry in table && g.entry.name != "" && g.entry.name[0] != '-'
    requires '=' !in g.entry.name && TakesValue(g.entry)
    requires s.index < |s.words| && s.words[s.index] == Dashes(g) + "=" + g.value
    ensures var (s', r) := Next(lib, table, unknown, s);
            && s' == Scan(s.words[s.index := Dashes(g)], s.index + 1, Some(g.value), Some("-" + g.entry.name), s.dunno)
            && r == if BadValue(lib, g.entry.valtype, g.value) then -1 else g.entry.retval
  {
    assert Dashes(g) + "=" + g.value == Dashes(g) + Tail(Some(g.value));
    var cut := NextIsSelect(lib, table, unknown, s, g, Some(g.value));
    TypedResult(lib, g.entry.valtype, g.value);
  }

  lemma NextTypedPlain(lib: Library, table: seq<Entry>, unknown: Option<Entry>, s: Scan, g: Given)
    requires Distinct(table) && g.entry in table && g.entry.name != "" && g.entry.name[0] != '-'
    requires '=' !in g.entry.name && TakesValue(g.entry)
    requires s.index + 1 < |s.words| && s.words[s.index] == Dashes(g) && s.words[s.index + 1] == g.value
    ensures var (s', r) := Next(lib, table, unknown, s);
            && s' == Scan(s.words[s.index := Dashes(g)], s.index + 2, Some(g.value), Some("-" + g.entry.name), s.dunno)
            && r == if BadValue(lib, g.entry.valtype, g.value) then -1 else g.entry.retval
  {
    assert Dashes(g) + Tail(None) == Dashes(g);
    var cut := NextIsSelect(lib, table, unknown, s, g, None);
    TypedResult(lib, g.entry.valtype, g.value);
  }

  /** Any value of an option that takes one, joined or as the next word: it is taken, and the option comes back
      unless the value is not of its type, which is an error. */
  lemma NextTyped(lib: Library, table: seq<Entry>, unknown: Option<Entry>, s: Scan, g: Given, rest: seq<string>)
    requires Distinct(table) && g.entry in table && g.entry.name != "" && g.entry.name[0] != '-'
    requires '=' !in g.entry.name && TakesValue(g.entry) && Left(s, Render(g) + rest)
    ensures var (s', r) := Next(lib, table, unknown, s);
            && s'.arg == Some(g.value) && Left(s', rest) && s'.flag == Some("-" + g.entry.name)
            && s'.words == s.words[s.index := Dashes(g)]
            && r == if BadValue(lib, g.entry.valtype, g.value) then -1 else g.entry.retval
  {
    var ws, n := Render(g) + rest, |Render(g)|;
    assert ws[0] == s.words[s.index] && ws[0] == Render(g)[0];
    assert n == 2 ==> ws[1] == s.words[s.index + 1] && ws[1] == g.value;
    assert s.words[s.index + n..] == ws[n..] == rest;
    if g.joined {
      NextTypedJoined(lib, table, unknown, s, g);
    } else {
      NextTypedPlain(lib, table, unknown, s, g);
    }
  }

  /** Where scanning stops of its own accord: at "--", which is skipped, or before a word that is no option. */
  ghost predicate Stops(ws: seq<string>, rest: seq<string>) {
    ws == ["--"] + rest || (ws == rest && (rest == [] || rest[0] == "" || rest[0][0] != '-'))
  }

  lemma NextStops(lib: Library, table: seq<Entry>, unknown: Option<Entry>, s: Scan, ws: seq<string>, rest: seq<string>)
    requires Left(s, ws) && Stops(ws, rest)
    ensures var (s', r) := Next(lib, table, unknown, s); r == 0 && Left(s', rest)
  {
    if ws != [] { assert ws[0] == s.words[s.index]; }
    if ws == ["--"] + rest {
      assert s.words[s.index + 1..] == ws[1..] == rest;
    }
  }

  /** Scanning undoes writing: the options come back in order with their values, and the rest is left. */
  lemma {:induction false} ScanUndoesRender(lib: Library, table: seq<Entry>, unknown: Option<Entry>, s: Scan,
                                            gs: seq<Given>, ws: seq<string>, rest: seq<string>)
    requires Distinct(table) && forall i :: 0 <= i < |gs| ==> Writable(lib, table, gs[i]) && gs[i].entry.retval > 0
    requires Left(s, RenderAll(gs) + ws) && Stops(ws, rest)
    ensures var (rs, end, last) := ScanAll(lib, table, unknown, s);
            rs == Results(gs) && last == 0 && Left(end, rest)
    decreases |gs|
  {
    if gs == [] {
      assert RenderAll(gs) + ws == ws;
      NextStops(lib, table, unknown, s, ws, rest);
    } else {
      var tail := RenderAll(gs[1..]) + ws;
      assert RenderAll(gs) + ws == Render(gs[0]) + tail;
      NextGiven(lib, table, unknown, s, gs[0], tail);
      ScanUndoesRender(lib, table, unknown, Next(lib, table, unknown, s).0, gs[1..], ws, rest);
    }
  }

  /** However the words look, the calls are never more than the words: argc, with the program's name. */
  lemma {:induction false} FewCalls(lib: Library, table: seq<Entry>, unknown: Option<Entry>, s: Scan)
    requires s.index <= |s.words|
    ensures |ScanAll(lib, table, unknown, s).0| + s.index <= |s.words|
    decreases |s.words| - s.index
  {
    var (s', r) := Next(lib, table, unknown, s);
    if r > 0 { FewCalls(lib, table, unknown, s'); }
  }
}
