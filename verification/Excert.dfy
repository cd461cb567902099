/** The extended certificate options: -xcert, -xkey, -xchain and the others of their group. */
module Excert {
  import opened CStrings

  const FORMAT_PEM := 32773

  /** One certificate group; a format is a number the format parser returns. */
  datatype Group = Group(certform: int, certfile: Option<string>, keyform: int, keyfile: Option<string>,
                         chainfile: Option<string>, build: bool)

  /** An option; a format that does not parse is None. */
  datatype Opt =
    | XCert(file: string)
    | XKey(file: string)
    | XChain(file: string)
    | XBuild
    | XCertform(form: Option<int>)
    | XKeyform(form: Option<int>)

  // ----- the groups, oldest first -----

  /** A new group takes over the formats of the one before it. */
  function Prepended(gs: seq<Group>): (r: seq<Group>)
    ensures |r| == |gs| + 1
  {
    var g := if gs == [] then Group(FORMAT_PEM, None, FORMAT_PEM, None, None, false)
             else Group(gs[|gs| - 1].certform, None, gs[|gs| - 1].keyform, None, None, false);
    gs + [g]
  }

  function Change(gs: seq<Group>, g: Group): seq<Group>
    requires gs != []
  {
    gs[|gs| - 1 := g]
  }

  /** One call of args_excert; None is an error. */
  function Step(gs0: seq<Group>, o: Opt): Option<seq<Group>> {
    var gs := if gs0 == [] then Prepended(gs0) else gs0;
    var last := gs[|gs| - 1];
    match o
    case XCert(f) =>
      var gs' := if last.certfile.Some? then Prepended(gs) else gs;
      Some(Change(gs', gs'[|gs'| - 1].(certfile := Some(f))))
    case XKey(f) => if last.keyfile.Some? then None else Some(Change(gs, last.(keyfile := Some(f))))
    case XChain(f) => if last.chainfile.Some? then None else Some(Change(gs, last.(chainfile := Some(f))))
    case XBuild => Some(Change(gs, last.(build := true)))
    case XCertform(form) => if form.None? then None else Some(Change(gs, last.(certform := form.value)))
    case XKeyform(form) => if form.None? then None else Some(Change(gs, last.(keyform := form.value)))
  }

  function Run(opts: seq<Opt>): Option<seq<Group>> {
    if opts == [] then Some([])
    else
      var gs := Run(opts[..|opts| - 1]);
      if gs.None? then None else Step(gs.value, opts[|opts| - 1])
  }

  // ----- the declarative reading: each -xcert but the first begins a group -----

  function Certs(opts: seq<Opt>): nat {
    if opts == [] then 0 else Certs(opts[..|opts| - 1]) + if opts[|opts| - 1].XCert? then 1 else 0
  }

  /** The group an option at the end of opts is in. */
  function GroupOf(opts: seq<Opt>): nat {
    if Certs(opts) == 0 then 0 else Certs(opts) - 1
  }

  /** What the options of one group say: its certificates, keys and chains, whether to build the chain, and the
      formats, which carry over from the groups before. */
  datatype Section = Section(certs: seq<string>, keys: seq<string>, chains: seq<string>, build: bool,
                             certform: int, keyform: int)

  function Read(s: Section, o: Opt): Section {
    match o
    case XCert(f) => s.(certs := s.certs + [f])
    case XKey(f) => s.(keys := s.keys + [f])
    case XChain(f) => s.(chains := s.chains + [f])
    case XBuild => s.(build := true)
    case XCertform(form) => if form.Some? then s.(certform := form.value) else s
    case XKeyform(form) => if form.Some? then s.(keyform := form.value) else s
  }

  /** An option counts for its own group; a format counts for every later group as well. */
  function SectionOf(opts: seq<Opt>, i: nat): Section {
    if opts == [] then Section([], [], [], false, FORMAT_PEM, FORMAT_PEM)
    else
      var s, o, g := SectionOf(opts[..|opts| - 1], i), opts[|opts| - 1], GroupOf(opts);
      if g == i || (g < i && (o.XCertform? || o.XKeyform?)) then Read(s, o) else s
  }

  function OneOrNone(s: Option<string>): seq<string> {
    if s.Some? then [s.value] else []
  }

  predicate GroupIs(g: Group, s: Section) {
    && OneOrNone(g.certfile) == s.certs && OneOrNone(g.keyfile) == s.keys && OneOrNone(g.chainfile) == s.chains
    && g.build == s.build && g.certform == s.certform && g.keyform == s.keyform
  }

  /** A group that is still to begin has no options but the formats of the current one. */
  lemma {:induction false} NothingLater(opts: seq<Opt>, i: nat)
    requires i > GroupOf(opts)
    ensures SectionOf(opts, i)
            == SectionOf(opts, GroupOf(opts)).(certs := [], keys := [], chains := [], build := false)
  {
    if opts != [] {
      var init := opts[..|opts| - 1];
      NothingLater(init, i);
      if GroupOf(init) < GroupOf(opts) { NothingLater(init, GroupOf(opts)); }
    }
  }

  function Changed(g: Group, o: Opt): Group {
    match o
    case XCert(f) => g.(certfile := Some(f))
    case XKey(f) => g.(keyfile := Some(f))
    case XChain(f) => g.(chainfile := Some(f))
    case XBuild => g.(build := true)
    case XCertform(form) => if form.Some? then g.(certform := form.value) else g
    case XKeyform(form) => if form.Some? then g.(keyform := form.value) else g
  }

  /** The field an option sets is still to be set. */
  predicate Free(g: Group, o: Opt) {
    match o
    case XCert(_) => g.certfile.None?
    case XKey(_) => g.keyfile.None?
    case XChain(_) => g.chainfile.None?
    case XBuild => true
    case XCertform(form) => form.Some?
    case XKeyform(form) => form.Some?
  }

  lemma ReadChanges(g: Group, s: Section, o: Opt)
    requires GroupIs(g, s) && Free(g, o)
    ensures GroupIs(Changed(g, o), Read(s, o))
  {
  }

  /** The groups an option finds, with the one it will change last. */
  function Base(gs: seq<Group>, o: Opt): seq<Group> {
    if gs == [] || (o.XCert? && gs[|gs| - 1].certfile.Some?) then Prepended(gs) else gs
  }

  /** What a step does: it changes one field of the last group, or of a new one. */
  lemma StepChanges(gs: seq<Group>, o: Opt)
    requires Step(gs, o).Some?
    ensures var gs1 := Base(gs, o);
            && Step(gs, o).value == Change(gs1, Changed(gs1[|gs1| - 1], o)) && Free(gs1[|gs1| - 1], o)
  {
  }

  ghost predicate Sections(gs: seq<Group>, opts: seq<Opt>) {
    && |gs| == (if opts == [] then 0 else GroupOf(opts) + 1)
    && (forall i :: 0 <= i < |gs| ==> GroupIs(gs[i], SectionOf(opts, i)))
    && (gs != [] ==> (gs[|gs| - 1].certfile.Some? <==> Certs(opts) > 0))
  }

  lemma NewGroup(gs: seq<Group>, opts: seq<Opt>)
    requires Sections(gs, opts) && (gs == [] || gs[|gs| - 1].certfile.Some?)
    ensures GroupIs(Prepended(gs)[|gs|], SectionOf(opts, |gs|))
  {
    if gs != [] {
      NothingLater(opts, |gs|);
      assert GroupIs(gs[|gs| - 1], SectionOf(opts, |gs| - 1));
    }
  }

  lemma BaseIs(gs: seq<Group>, opts: seq<Opt>)
    requires opts != [] && Sections(gs, opts[..|opts| - 1])
    ensures var gs1 := Base(gs, opts[|opts| - 1]);
            && |gs1| == GroupOf(opts) + 1 && gs1[..GroupOf(opts)] == gs[..GroupOf(opts)]
            && GroupIs(gs1[GroupOf(opts)], SectionOf(opts[..|opts| - 1], GroupOf(opts)))
  {
    var o := opts[|opts| - 1];
    if gs == [] || (o.XCert? && gs[|gs| - 1].certfile.Some?) {
      NewGroup(gs, opts[..|opts| - 1]);
    }
  }

  lemma StepSections(gs: seq<Group>, opts: seq<Opt>)
    requires opts != [] && Sections(gs, opts[..|opts| - 1]) && Step(gs, opts[|opts| - 1]).Some?
    ensures Sections(Step(gs, opts[|opts| - 1]).value, opts)
  {
    var o, n := opts[|opts| - 1], GroupOf(opts);
    var gs1, gs2 := Base(gs, o), Step(gs, o).value;
    BaseIs(gs, opts);
    StepChanges(gs, o);
    ReadChanges(gs1[n], SectionOf(opts[..|opts| - 1], n), o);
    forall i | 0 <= i < |gs2| ensures GroupIs(gs2[i], SectionOf(opts, i)) {
      if i < n { assert gs2[i] == gs1[..n][i] == gs[i]; }
    }
  }

  /** Each option belongs to the group that was begun last when it was read, and formats are taken over from
      group to group. */
  lemma {:induction false} GroupsAreSections(opts: seq<Opt>)
    requires Run(opts).Some?
    ensures Sections(Run(opts).value, opts)
  {
    if opts != [] {
      GroupsAreSections(opts[..|opts| - 1]);
      StepSections(Run(opts[..|opts| - 1]).value, opts);
    }
  }

  // ----- when it fails -----

  ghost predicate Once(opts: seq<Opt>, i: nat) {
    |SectionOf(opts, i).keys| <= 1 && |SectionOf(opts, i).chains| <= 1
  }

  predicate Parses(o: Opt) {
    (o.XCertform? || o.XKeyform?) ==> o.form.Some?
  }

  /** At most one key and one chain a group, and every format parses. */
  ghost predicate Legal(opts: seq<Opt>) {
    (forall i: nat :: Once(opts, i)) && forall t :: 0 <= t < |opts| ==> Parses(opts[t])
  }

  lemma LegalInit(opts: seq<Opt>)
    requires Legal(opts) && opts != []
    ensures Legal(opts[..|opts| - 1]) && Once(opts, GroupOf(opts)) && Parses(opts[|opts| - 1])
  {
    var init := opts[..|opts| - 1];
    forall i: nat ensures Once(init, i) { assert Once(opts, i); }
    forall t | 0 <= t < |init| ensures Parses(init[t]) { assert Parses(opts[t]); }
  }

  lemma StopsWhenTaken(gs: seq<Group>, o: Opt)
    ensures Step(gs, o).Some? <==> Free(Base(gs, o)[|Base(gs, o)| - 1], o)
  {
  }

  lemma TakenTwice(g: Group, s: Section, o: Opt)
    requires GroupIs(g, s) && !Free(g, o) && Parses(o) && !o.XCert?
    ensures |Read(s, o).keys| > 1 || |Read(s, o).chains| > 1
  {
  }

  lemma LegalStep(opts: seq<Opt>, gs: seq<Group>)
    requires opts != [] && Sections(gs, opts[..|opts| - 1])
    requires Once(opts, GroupOf(opts)) && Parses(opts[|opts| - 1])
    ensures Step(gs, opts[|opts| - 1]).Some?
  {
    var o, n := opts[|opts| - 1], GroupOf(opts);
    BaseIs(gs, opts);
    StopsWhenTaken(gs, o);
    if !Free(Base(gs, o)[n], o) {
      TakenTwice(Base(gs, o)[n], SectionOf(opts[..|opts| - 1], n), o);
    }
  }

  lemma {:induction false} AllParse(opts: seq<Opt>, t: nat)
    requires Run(opts).Some? && t < |opts|
    ensures Parses(opts[t])
  {
    if t < |opts| - 1 { AllParse(opts[..|opts| - 1], t); }
  }

  lemma SectionsAreLegal(opts: seq<Opt>)
    requires Run(opts).Some?
    ensures Legal(opts)
  {
    GroupsAreSections(opts);
    forall i: nat ensures Once(opts, i) {
      if i < |Run(opts).value| {
        assert GroupIs(Run(opts).value[i], SectionOf(opts, i));
      } else if opts != [] {
        NothingLater(opts, i);
      }
    }
    forall t | 0 <= t < |opts| ensures Parses(opts[t]) { AllParse(opts, t); }
  }

  /** The options are accepted exactly when every group has at most one key and one chain and formats parse. */
  lemma {:induction false} AcceptedIff(opts: seq<Opt>)
    ensures Run(opts).Some? <==> Legal(opts)
  {
    if Run(opts).Some? {
      SectionsAreLegal(opts);
    } else if Legal(opts) {
      LegalInit(opts);
      AcceptedIff(opts[..|opts| - 1]);
      GroupsAreSections(opts[..|opts| - 1]);
      LegalStep(opts, Run(opts[..|opts| - 1]).value);
    }
  }
}
