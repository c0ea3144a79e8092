/** `R10K::Module::Forge`: the memoised resolution of the expected version,
    the four-state status of the installed copy, and the actions `sync`
    takes. The Forge catalog, the module's metadata and the file system
    checks are inputs; the installer, `rm_rf` and `mkpath` are recorded in
    an action log. */
module Forge {
  import opened Text
  import opened Outcome
  import opened ForgeVersion
  import opened VersionSpecs
  import opened Resolver
  import opened Titles

  /** The value of `@expected_version`: `:latest`, a version or constraint
      string, or nil once resolution found nothing. */
  datatype Expected = Latest | Given(text: string) | Nil

  /** What `metadata.json` says about the installed module. */
  datatype Metadata = Metadata(fullModuleName: string, version: string)

  /** What the Forge reports for the module: `latest_version` and `versions`. */
  datatype Catalog = Catalog(latest: string, versions: seq<string>)

  datatype ModuleStatus = Absent | Mismatched | Outdated | InSync

  /** The side effects of installation and removal, in the order they happen. */
  datatype Action =
    | MakeParentDirs(dir: string)                                  // `parent_path.mkpath`
    | InstallRelease(title: string, version: Option<string>, path: string)  // `ModuleRelease.new(...).install(path)`
    | RemoveTree(path: string)                                     // `FileUtils.rm_rf`

  /** The two memo fields, `@expected_version` and `@version_spec`. */
  datatype Memo = Memo(expected: Expected, spec: Option<VersionSpec>)

  /** A call's outcome and the memo fields it leaves behind. */
  datatype After<T> = After(outcome: Result<T>, memo: Memo)

  /** A call's outcome, the memo fields it leaves behind, and the actions it took. */
  datatype Performed = Performed(outcome: Result<()>, memo: Memo, actions: seq<Action>)

  /** What `expected_version` returns for a memo value. */
  function ExpectedText(e: Expected): Option<string> {
    match e
    case Given(s) => Some(s)
    case Latest => None
    case Nil => None
  }

  /** The constructor's default: `expected_version || current_version || :latest`. */
  function InitialExpected(requested: Expected, metadata: Option<Metadata>): (r: Expected)
    ensures r != Nil
    ensures requested != Nil ==> r == requested
    ensures requested == Nil ==> (r == Latest <==> metadata.None?)
  {
    if requested != Nil then requested
    else if metadata.Some? then Given(metadata.value.version)
    else Latest
  }

  /** `current_version`. */
  function CurrentVersion(metadata: Option<Metadata>): (r: Option<string>)
    ensures r.Some? <==> metadata.Some?
  {
    if metadata.Some? then Some(metadata.value.version) else None
  }

  /** A default taken from the installed module is that module's version. */
  lemma DefaultIsInstalledVersion(metadata: Option<Metadata>)
    ensures metadata.Some? ==> ExpectedText(InitialExpected(Nil, metadata)) == CurrentVersion(metadata)
    ensures metadata.None? ==> InitialExpected(Nil, metadata) == Latest
  {
  }

  // ---------------------------------------------------------------------
  // version_spec, get_matching_version, expected_version

  /** `version_spec`: the memo when it is set, otherwise the grammar applied
      to `@expected_version` (the symbol `:latest` is matched as its name;
      nil has no `match`). */
  function SpecOf(m: Memo): Result<Option<VersionSpec>> {
    if m.spec.Some? then Ok(m.spec)
    else
      match m.expected
      case Given(s) => Ok(ParseSpec(s))
      case Latest => Ok(ParseSpec("latest"))
      case Nil => Err(NilReceiver)
  }

  /** The memo after `version_spec`: only a non-nil spec is stored. */
  function SpecMemoAfter(m: Memo): Option<VersionSpec> {
    var s := SpecOf(m);
    if s.Ok? && s.value.Some? then s.value else m.spec
  }

  /** A stored spec is returned unchanged, and a spec is stored exactly when
      the call produced one. */
  lemma SpecMemoised(m: Memo)
    ensures m.spec.Some? ==> SpecOf(m) == Ok(m.spec) && SpecMemoAfter(m) == m.spec
    ensures SpecOf(m).Ok? ==> SpecMemoAfter(m) == SpecOf(m).value
    ensures SpecOf(m).Ok? ==> SpecOf(m.(spec := SpecMemoAfter(m))) == SpecOf(m)
  {
  }

  /** The name `latest` is no constraint. */
  lemma LatestIsNoSpec()
    ensures ParseSpec("latest") == None
  {
    DropSpacesNoSpace("latest");
    assert TakeDigits("latest").0 == [];
  }

  /** `get_matching_version` on the memo: `version_spec` first, then the search. */
  function MatchingOf(m: Memo, current: Option<string>, catalog: Catalog): After<Option<string>> {
    var spec := SpecOf(m);
    var m1 := m.(spec := SpecMemoAfter(m));
    if spec.Err? then After(Err(spec.error), m1)
    else After(MatchingVersion(spec.value, current, catalog.latest, catalog.versions), m1)
  }

  /** `expected_version`: `:latest` becomes the catalog's latest, an exact
      version is kept, anything else is resolved and the answer stored. */
  function ExpectedOf(m: Memo, current: Option<string>, catalog: Catalog): After<Option<string>> {
    match m.expected
    case Latest => After(Ok(Some(catalog.latest)), m.(expected := Given(catalog.latest)))
    case Nil => After(Err(NilReceiver), m)
    case Given(s) =>
      if IsExactVersion(s) then After(Ok(Some(s)), m)
      else
        var a := MatchingOf(m, current, catalog);
        if a.outcome.Err? then a
        else
          var e := if a.outcome.value.Some? then Given(a.outcome.value.value) else Nil;
          After(a.outcome, a.memo.(expected := e))
  }

  /** An exact version is returned unchanged, whatever the catalog and the
      installed version say, and nothing is stored. */
  lemma ExactVersionPassesThrough(s: string, spec: Option<VersionSpec>,
                                  current1: Option<string>, catalog1: Catalog,
                                  current2: Option<string>, catalog2: Catalog)
    requires IsExactVersion(s)
    ensures ExpectedOf(Memo(Given(s), spec), current1, catalog1) == After(Ok(Some(s)), Memo(Given(s), spec))
    ensures ExpectedOf(Memo(Given(s), spec), current1, catalog1) == ExpectedOf(Memo(Given(s), spec), current2, catalog2)
  {
  }

  /** `:latest` resolves to the catalog's latest release, which is stored. */
  lemma LatestResolves(spec: Option<VersionSpec>, current: Option<string>, catalog: Catalog)
    ensures ExpectedOf(Memo(Latest, spec), current, catalog)
         == After(Ok(Some(catalog.latest)), Memo(Given(catalog.latest), spec))
  {
  }

  /** A constraint resolves to what `get_matching_version` finds, and that is stored. */
  lemma ConstraintResolves(s: string, spec: Option<VersionSpec>, current: Option<string>, catalog: Catalog)
    requires !IsExactVersion(s)
    ensures var a := MatchingOf(Memo(Given(s), spec), current, catalog);
            var r := ExpectedOf(Memo(Given(s), spec), current, catalog);
            && r.outcome == a.outcome
            && (r.outcome.Ok? ==> r.memo.expected == (if r.outcome.value.Some? then Given(r.outcome.value.value) else Nil))
            && r.memo.spec == SpecMemoAfter(Memo(Given(s), spec))
  {
  }

  /** Once `expected_version` has answered with a version, asking again
      gives the same answer and changes nothing, unless the answer came from
      `:latest` and the catalog's latest is not an exact version. */
  lemma ExpectedIdempotent(m: Memo, current: Option<string>, catalog: Catalog)
    requires ExpectedOf(m, current, catalog).outcome.Ok?
    requires ExpectedOf(m, current, catalog).outcome.value.Some?
    requires m.expected == Latest ==> IsExactVersion(catalog.latest)
    ensures var a := ExpectedOf(m, current, catalog);
            ExpectedOf(a.memo, current, catalog) == a
  {
    var a := ExpectedOf(m, current, catalog);
    if m.expected.Given? && !IsExactVersion(m.expected.text) {
      var v := a.outcome.value.value;
      if !IsExactVersion(v) {
        SpecMemoised(m);
        assert SpecOf(m).Ok? && SpecOf(m).value.Some?;
        assert a.memo == Memo(Given(v), SpecOf(m).value);
        assert SpecOf(a.memo) == SpecOf(m);
      }
    }
  }

  /** When resolution finds nothing, nil is stored and the next call raises. */
  lemma NilReentryRaises(m: Memo, current: Option<string>, catalog: Catalog)
    requires ExpectedOf(m, current, catalog).outcome == Ok(None)
    ensures var a := ExpectedOf(m, current, catalog);
            a.memo.expected == Nil && ExpectedOf(a.memo, current, catalog) == After(Err(NilReceiver), a.memo)
  {
  }

  /** A constraint the grammar does not accept, with no stored spec, resolves to nil. */
  lemma UnparsableConstraintIsNil(s: string, current: Option<string>, catalog: Catalog)
    requires !IsExactVersion(s) && ParseSpec(s).None?
    ensures ExpectedOf(Memo(Given(s), None), current, catalog) == After(Ok(None), Memo(Nil, None))
  {
  }

  /** A resolved constraint is in range of its spec (and came from the
      installed version or the catalog). */
  lemma ResolvedConstraintInRange(s: string, current: Option<string>, catalog: Catalog)
    requires !IsExactVersion(s) && ParseSpec(s).Some?
    ensures var r := ExpectedOf(Memo(Given(s), None), current, catalog);
            r.outcome.Ok? && r.outcome.value.Some? ==>
              && Admitted(ParseSpec(s).value, r.outcome.value.value)
              && (r.outcome.value == current || r.outcome.value.value == catalog.latest
                  || r.outcome.value.value in catalog.versions)
  {
    ParsedSpecWellFormed(s);
    MatchingVersionSound(ParseSpec(s).value, current, catalog.latest, catalog.versions);
  }

  /** The upper-bound case end to end: the constraint `>= 8.1.0 < 8.2.0`,
      installed 8.0.0, latest 8.8.8, resolves to 8.1.2, which is stored
      with the parsed spec. */
  lemma UpperBoundExpected()
    ensures ExpectedOf(Memo(Given(">= 8.1.0 < 8.2.0"), None), Some("8.0.0"), Catalog("8.8.8", ScenarioCatalog()))
         == After(Ok(Some("8.1.2")), Memo(Given("8.1.2"), Some(ScenarioSpec())))
  {
    var s := ">= 8.1.0 < 8.2.0";
    NonDigitStartIsNotExact(s);
    ScenarioSpecParses();
    UpperBoundScenario();
    ConstraintResolves(s, None, Some("8.0.0"), Catalog("8.8.8", ScenarioCatalog()));
  }

  // ---------------------------------------------------------------------
  // status

  /** `status`: the checks in their order. The metadata read at construction
      is the one consulted; `expected_version` is called twice. */
  function StatusOf(title: string, metadata: Option<Metadata>, m: Memo, catalog: Catalog,
                    dirExists: bool, metadataFileExists: bool): After<ModuleStatus>
  {
    if !dirExists then After(Ok(Absent), m)
    else if !metadataFileExists then After(Ok(Mismatched), m)
    else if metadata.None? then After(Err(NilReceiver), m)
    else if SlashToDash(title) != SlashToDash(metadata.value.fullModuleName) then After(Ok(Mismatched), m)
    else
      var current := CurrentVersion(metadata);
      var e1 := ExpectedOf(m, current, catalog);
      if e1.outcome.Err? then After(Err(e1.outcome.error), e1.memo)
      else if e1.outcome.value.None? then After(Ok(InSync), e1.memo)
      else
        var e2 := ExpectedOf(e1.memo, current, catalog);
        if e2.outcome.Err? then After(Err(e2.outcome.error), e2.memo)
        else After(Ok(if e2.outcome.value != Some(metadata.value.version) then Outdated else InSync), e2.memo)
  }

  /** The first two checks need no metadata and leave the memo alone. */
  lemma StatusWithoutInstall(title: string, metadata: Option<Metadata>, m: Memo, catalog: Catalog,
                             metadataFileExists: bool)
    ensures StatusOf(title, metadata, m, catalog, false, metadataFileExists) == After(Ok(Absent), m)
    ensures StatusOf(title, metadata, m, catalog, true, false) == After(Ok(Mismatched), m)
  {
  }

  /** A module installed under another name is mismatched; `/` and `-` count alike. */
  lemma StatusOtherModule(title: string, md: Metadata, m: Memo, catalog: Catalog)
    ensures StatusOf(title, Some(md), m, catalog, true, true).outcome == Ok(Mismatched)
            <==> SlashToDash(title) != SlashToDash(md.fullModuleName)
  {
  }

  /** For the right module and an expected version that resolves stably,
      the installed copy is in sync exactly when its version text equals the
      expected one: `01.0.0` is outdated against `1.0.0`. */
  lemma StatusComparesText(title: string, md: Metadata, m: Memo, catalog: Catalog)
    requires SlashToDash(title) == SlashToDash(md.fullModuleName)
    requires var e := ExpectedOf(m, CurrentVersion(Some(md)), catalog); e.outcome.Ok? && e.outcome.value.Some?
    requires m.expected == Latest ==> IsExactVersion(catalog.latest)
    ensures var e := ExpectedOf(m, CurrentVersion(Some(md)), catalog);
            StatusOf(title, Some(md), m, catalog, true, true)
            == After(Ok(if e.outcome.value.value == md.version then InSync else Outdated), e.memo)
  {
    ExpectedIdempotent(m, CurrentVersion(Some(md)), catalog);
  }

  /** An expected version that resolves to nil reports the module in sync. */
  lemma StatusNilExpectedIsInSync(title: string, md: Metadata, m: Memo, catalog: Catalog)
    requires SlashToDash(title) == SlashToDash(md.fullModuleName)
    requires ExpectedOf(m, CurrentVersion(Some(md)), catalog).outcome == Ok(None)
    ensures StatusOf(title, Some(md), m, catalog, true, true).outcome == Ok(InSync)
  {
  }

  /** A metadata file that appeared after construction is not read: status raises. */
  lemma StatusStaleMetadata(title: string, m: Memo, catalog: Catalog)
    ensures StatusOf(title, None, m, catalog, true, true) == After(Err(NilReceiver), m)
  {
  }

  // ---------------------------------------------------------------------
  // install, uninstall, reinstall, sync

  /** `install` (and its alias `upgrade`): create the parent directory when
      missing, then install the release of the expected version. */
  function InstallOf(title: string, dirname: string, path: string, metadata: Option<Metadata>,
                     m: Memo, catalog: Catalog, parentExists: bool): Performed
  {
    var mkdir := if parentExists then [] else [MakeParentDirs(dirname)];
    var e := ExpectedOf(m, CurrentVersion(metadata), catalog);
    if e.outcome.Err? then Performed(Err(e.outcome.error), e.memo, mkdir)
    else Performed(Ok(()), e.memo, mkdir + [InstallRelease(title, e.outcome.value, path)])
  }

  /** `reinstall`: `uninstall`, then `install`. */
  function ReinstallOf(title: string, dirname: string, path: string, metadata: Option<Metadata>,
                       m: Memo, catalog: Catalog, parentExists: bool): Performed
  {
    var i := InstallOf(title, dirname, path, metadata, m, catalog, parentExists);
    Performed(i.outcome, i.memo, [RemoveTree(path)] + i.actions)
  }

  /** `sync`: the status decides the action. */
  function SyncOf(title: string, dirname: string, path: string, metadata: Option<Metadata>,
                  m: Memo, catalog: Catalog, dirExists: bool, metadataFileExists: bool,
                  parentExists: bool): Performed
  {
    var s := StatusOf(title, metadata, m, catalog, dirExists, metadataFileExists);
    if s.outcome.Err? then Performed(Err(s.outcome.error), s.memo, [])
    else
      match s.outcome.value
      case Absent => InstallOf(title, dirname, path, metadata, s.memo, catalog, parentExists)
      case Outdated => InstallOf(title, dirname, path, metadata, s.memo, catalog, parentExists)
      case Mismatched => ReinstallOf(title, dirname, path, metadata, s.memo, catalog, parentExists)
      case InSync => Performed(Ok(()), s.memo, [])
  }

  function CountRemovals(actions: seq<Action>): nat {
    if actions == [] then 0 else (if actions[0].RemoveTree? then 1 else 0) + CountRemovals(actions[1..])
  }

  function CountInstalls(actions: seq<Action>): nat {
    if actions == [] then 0 else (if actions[0].InstallRelease? then 1 else 0) + CountInstalls(actions[1..])
  }

  /** A successful install makes the parent directory only when it is
      missing, then installs exactly once, at the module's path, the release
      named by the title and the expected version. */
  lemma InstallActions(title: string, dirname: string, path: string, metadata: Option<Metadata>,
                       m: Memo, catalog: Catalog, parentExists: bool)
    requires InstallOf(title, dirname, path, metadata, m, catalog, parentExists).outcome.Ok?
    ensures var p := InstallOf(title, dirname, path, metadata, m, catalog, parentExists);
            var e := ExpectedOf(m, CurrentVersion(metadata), catalog);
            && p.actions[|p.actions| - 1] == InstallRelease(title, e.outcome.value, path)
            && (MakeParentDirs(dirname) in p.actions <==> !parentExists)
            && CountInstalls(p.actions) == 1 && CountRemovals(p.actions) == 0
  {
    var p := InstallOf(title, dirname, path, metadata, m, catalog, parentExists);
    var install := InstallRelease(title, ExpectedOf(m, CurrentVersion(metadata), catalog).outcome.value, path);
    assert CountInstalls([install]) == 1 && CountRemovals([install]) == 0 by {
      assert [install][1..] == [];
    }
    if !parentExists {
      assert p.actions == [MakeParentDirs(dirname)] + [install];
      assert p.actions[1..] == [install];
    }
  }

  /** A mismatched module is removed, then installed: once each, in that order. */
  lemma SyncMismatchedReinstalls(title: string, dirname: string, path: string, metadata: Option<Metadata>,
                                 m: Memo, catalog: Catalog, dirExists: bool, metadataFileExists: bool,
                                 parentExists: bool)
    requires StatusOf(title, metadata, m, catalog, dirExists, metadataFileExists).outcome == Ok(Mismatched)
    requires SyncOf(title, dirname, path, metadata, m, catalog, dirExists, metadataFileExists, parentExists).outcome.Ok?
    ensures var p := SyncOf(title, dirname, path, metadata, m, catalog, dirExists, metadataFileExists, parentExists);
            && p.actions[0] == RemoveTree(path)
            && p.actions[|p.actions| - 1].InstallRelease?
            && CountRemovals(p.actions) == 1 && CountInstalls(p.actions) == 1
  {
    var s := StatusOf(title, metadata, m, catalog, dirExists, metadataFileExists);
    var p := SyncOf(title, dirname, path, metadata, m, catalog, dirExists, metadataFileExists, parentExists);
    InstallActions(title, dirname, path, metadata, s.memo, catalog, parentExists);
    var i := InstallOf(title, dirname, path, metadata, s.memo, catalog, parentExists);
    assert p.actions[1..] == i.actions;
  }

  /** An absent or outdated module is installed without removing anything;
      one in sync is left alone. */
  lemma SyncOtherStates(title: string, dirname: string, path: string, metadata: Option<Metadata>,
                        m: Memo, catalog: Catalog, dirExists: bool, metadataFileExists: bool,
                        parentExists: bool)
    ensures var s := StatusOf(title, metadata, m, catalog, dirExists, metadataFileExists);
            var p := SyncOf(title, dirname, path, metadata, m, catalog, dirExists, metadataFileExists, parentExists);
            && (s.outcome == Ok(InSync) ==> p == Performed(Ok(()), s.memo, []))
            && (s.outcome == Ok(Absent) || s.outcome == Ok(Outdated) ==>
                  p == InstallOf(title, dirname, path, metadata, s.memo, catalog, parentExists)
                  && (p.outcome.Ok? ==> CountInstalls(p.actions) == 1 && CountRemovals(p.actions) == 0))
            && (s.outcome.Err? ==> p.actions == [] && p.outcome == Err(s.outcome.error))
  {
    var s := StatusOf(title, metadata, m, catalog, dirExists, metadataFileExists);
    if s.outcome == Ok(Absent) || s.outcome == Ok(Outdated) {
      var p := InstallOf(title, dirname, path, metadata, s.memo, catalog, parentExists);
      if p.outcome.Ok? {
        InstallActions(title, dirname, path, metadata, s.memo, catalog, parentExists);
      }
    }
  }

  /** A module absent from disk is installed with the version it resolves to. */
  lemma SyncAbsentInstallsExpected(title: string, dirname: string, path: string, metadata: Option<Metadata>,
                                   m: Memo, catalog: Catalog, metadataFileExists: bool)
    requires ExpectedOf(m, CurrentVersion(metadata), catalog).outcome.Ok?
    ensures SyncOf(title, dirname, path, metadata, m, catalog, false, metadataFileExists, true)
         == Performed(Ok(()), ExpectedOf(m, CurrentVersion(metadata), catalog).memo,
                      [InstallRelease(title, ExpectedOf(m, CurrentVersion(metadata), catalog).outcome.value, path)])
  {
  }

  // ---------------------------------------------------------------------
  // The module object

  /** The module directory: the directory given at construction, joined
      with the module name; its parent is that directory. */
  function ModulePath(dirname: string, name: string): string {
    dirname + "/" + name
  }

  /** A Forge module of a Puppetfile. The catalog and the metadata read at
      construction are fixed; the memo fields change as versions are
      resolved; `log` records the installer's and the file system's actions. */
  class ForgeModule {
    const title: string
    const owner: string
    const name: string
    const dirname: string
    const path: string
    const metadata: Option<Metadata>
    const catalog: Catalog
    var expected: Expected
    var specMemo: Option<VersionSpec>
    ghost var log: seq<Action>

    function MemoState(): Memo
      reads this
    {
      Memo(expected, specMemo)
    }

    /** `initialize`: the title must parse (the base class raises otherwise);
        the expected version defaults to the installed one, then to `:latest`. */
    constructor (title: string, dirname: string, requested: Expected, metadata: Option<Metadata>, catalog: Catalog)
      requires ParseTitle(title).Ok?
      ensures this.title == title && this.dirname == dirname
      ensures (owner, name) == ParseTitle(title).value && path == ModulePath(dirname, name)
      ensures this.metadata == metadata && this.catalog == catalog
      ensures expected == InitialExpected(requested, metadata) && specMemo == None && log == []
    {
      var parts := ParseTitle(title).value;
      this.title := title;
      owner := parts.0;
      name := parts.1;
      this.dirname := dirname;
      path := ModulePath(dirname, parts.1);
      this.metadata := metadata;
      this.catalog := catalog;
      expected := InitialExpected(requested, metadata);
      specMemo := None;
      log := [];
    }

    /** `version_spec`. */
    method Spec() returns (r: Result<Option<VersionSpec>>)
      modifies this
      ensures r == SpecOf(old(MemoState()))
      ensures specMemo == SpecMemoAfter(old(MemoState()))
      ensures expected == old(expected) && log == old(log)
    {
      if specMemo.None? {
        var text: string;
        match expected {
          case Nil =>
            return Err(NilReceiver);
          case Latest =>
            text := "latest";
          case Given(s) =>
            text := s;
        }
        var parsed := ParseSpec(text);
        if parsed.Some? {
          specMemo := parsed;
        }
      }
      return Ok(specMemo);
    }

    /** `get_matching_version`. */
    method GetMatchingVersion() returns (r: Result<Option<string>>)
      modifies this
      ensures After(r, MemoState()) == MatchingOf(old(MemoState()), CurrentVersion(metadata), catalog)
      ensures log == old(log)
    {
      var spec := Spec();
      if spec.Err? {
        return Err(spec.error);
      }
      if spec.value.None? {
        return Ok(None);
      }
      var s := spec.value.value;
      var current := CurrentVersion(metadata);
      if current.Some? {
        var ok := InRange(s, current.value);
        if ok.Err? {
          return Err(ok.error);
        }
        if ok.value {
          return Ok(current);
        }
      }
      var latestOk := InRange(s, catalog.latest);
      if latestOk.Err? {
        return Err(latestOk.error);
      }
      if latestOk.value {
        return Ok(Some(catalog.latest));
      }
      r := ScanCatalog(s, catalog.versions);
    }

    /** `expected_version`. */
    method ExpectedVersion() returns (r: Result<Option<string>>)
      modifies this
      ensures After(r, MemoState()) == ExpectedOf(old(MemoState()), CurrentVersion(metadata), catalog)
      ensures log == old(log)
    {
      match expected {
        case Latest =>
          expected := Given(catalog.latest);
        case Nil =>
          return Err(NilReceiver);
        case Given(s) =>
          if !IsExactVersion(s) {
            var m := GetMatchingVersion();
            if m.Err? {
              return Err(m.error);
            }
            expected := if m.value.Some? then Given(m.value.value) else Nil;
          }
      }
      r := Ok(ExpectedText(expected));
    }

    /** `status`, given whether the module directory and its `metadata.json` exist. */
    method Status(dirExists: bool, metadataFileExists: bool) returns (r: Result<ModuleStatus>)
      modifies this
      ensures After(r, MemoState()) == StatusOf(title, metadata, old(MemoState()), catalog, dirExists, metadataFileExists)
      ensures log == old(log)
    {
      if !dirExists {
        return Ok(Absent);
      }
      if !metadataFileExists {
        return Ok(Mismatched);
      }
      if metadata.None? {
        return Err(NilReceiver);
      }
      if SlashToDash(title) != SlashToDash(metadata.value.fullModuleName) {
        return Ok(Mismatched);
      }
      var first := ExpectedVersion();
      if first.Err? {
        return Err(first.error);
      }
      if first.value.None? {
        return Ok(InSync);
      }
      var second := ExpectedVersion();
      if second.Err? {
        return Err(second.error);
      }
      if second.value != Some(metadata.value.version) {
        return Ok(Outdated);
      }
      return Ok(InSync);
    }

    /** `install` and its alias `upgrade`, given whether the parent directory exists. */
    method Install(parentExists: bool) returns (r: Result<()>)
      modifies this
      ensures var p := InstallOf(title, dirname, path, metadata, old(MemoState()), catalog, parentExists);
              r == p.outcome && MemoState() == p.memo && log == old(log) + p.actions
    {
      if !parentExists {
        log := log + [MakeParentDirs(dirname)];
      }
      var version := ExpectedVersion();
      if version.Err? {
        return Err(version.error);
      }
      log := log + [InstallRelease(title, version.value, path)];
      return Ok(());
    }

    /** `uninstall`. */
    method Uninstall()
      modifies this
      ensures log == old(log) + [RemoveTree(path)]
      ensures MemoState() == old(MemoState())
    {
      log := log + [RemoveTree(path)];
    }

    /** `reinstall`. */
    method Reinstall(parentExists: bool) returns (r: Result<()>)
      modifies this
      ensures var p := ReinstallOf(title, dirname, path, metadata, old(MemoState()), catalog, parentExists);
              r == p.outcome && MemoState() == p.memo && log == old(log) + p.actions
    {
      Uninstall();
      r := Install(parentExists);
    }

    /** `sync`. */
    method Sync(dirExists: bool, metadataFileExists: bool, parentExists: bool) returns (r: Result<()>)
      modifies this
      ensures var p := SyncOf(title, dirname, path, metadata, old(MemoState()), catalog,
                              dirExists, metadataFileExists, parentExists);
              r == p.outcome && MemoState() == p.memo && log == old(log) + p.actions
    {
      var status := Status(dirExists, metadataFileExists);
      if status.Err? {
        return Err(status.error);
      }
      match status.value
      case Absent =>
        r := Install(parentExists);
      case Outdated =>
        r := Install(parentExists);
      case Mismatched =>
        r := Reinstall(parentExists);
      case InSync =>
        r := Ok(());
    }
  }
}
