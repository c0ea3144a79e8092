/** `get_matching_version` of the Forge module: which release a version
    constraint resolves to, given the installed version and the catalog
    the Forge reports (its latest release and the list of all releases). */
module Resolver {
  import opened Text
  import opened Outcome
  import opened ForgeVersion
  import opened VersionSpecs

  /** `version_in_range` answered yes. */
  predicate Admitted(spec: VersionSpec, candidate: string) {
    InRange(spec, candidate) == Ok(true)
  }

  /** One pass of the loop body: a candidate replaces the best match so far
      when there is none yet, or when it is newer and in range. Comparing
      with the best match parses both, which raises on a malformed candidate. */
  function Step(spec: VersionSpec, best: Option<string>, candidate: string): Result<Option<string>> {
    var newer :-
      if best.None? then Ok(true)
      else
        var b :- New(best.value);
        var c :- New(candidate);
        Ok(Less(b, c));
    if !newer then Ok(best)
    else
      var ok :- InRange(spec, candidate);
      Ok(if ok then Some(candidate) else best)
  }

  /** The loop over the catalog from a given best match; the first exception ends it. */
  function ScanFrom(spec: VersionSpec, best: Option<string>, versions: seq<string>): Result<Option<string>>
    decreases |versions|
  {
    if versions == [] then Ok(best)
    else
      var next :- Step(spec, best, versions[0]);
      ScanFrom(spec, next, versions[1..])
  }

  /** The body of the loop: the test on the best match so far and the
      candidate, and the assignment it guards. */
  method Consider(spec: VersionSpec, best: Option<string>, candidate: string) returns (r: Result<Option<string>>)
    ensures r == Step(spec, best, candidate)
  {
    var newer := true;
    if best.Some? {
      var b := New(best.value);
      if b.Err? {
        return Err(b.error);
      }
      var c := New(candidate);
      if c.Err? {
        return Err(c.error);
      }
      newer := Less(b.value, c.value);
    }
    r := Ok(best);
    if newer {
      var ok := InRange(spec, candidate);
      if ok.Err? {
        return Err(ok.error);
      }
      if ok.value {
        r := Ok(Some(candidate));
      }
    }
  }

  /** The `for candidate in @v3_module.versions` loop. */
  method ScanCatalog(spec: VersionSpec, versions: seq<string>) returns (r: Result<Option<string>>)
    ensures r == ScanFrom(spec, None, versions)
  {
    var best: Option<string> := None;
    var i := 0;
    while i < |versions|
      invariant 0 <= i <= |versions|
      invariant ScanFrom(spec, best, versions[i..]) == ScanFrom(spec, None, versions)
    {
      assert versions[i..][0] == versions[i] && versions[i..][1..] == versions[i + 1..];
      var next := Consider(spec, best, versions[i]);
      if next.Err? {
        return Err(next.error);
      }
      best := next.value;
      i := i + 1;
    }
    assert versions[i..] == [];
    return Ok(best);
  }

  /** A best match the loop may hold: absent, or a candidate in range. */
  predicate GoodBest(spec: VersionSpec, best: Option<string>) {
    best.Some? ==> ParseVersion(best.value).Some? && Admitted(spec, best.value)
  }

  /** A well-formed spec parses every candidate it is asked about. */
  lemma AdmittedParses(spec: VersionSpec, candidate: string)
    requires WellFormedSpec(spec)
    ensures InRange(spec, candidate).Ok? <==> ParseVersion(candidate).Some?
  {
    InRangeMeaning(spec, candidate);
  }

  /** `r` holds a version no older than `c`. */
  predicate AtLeast(r: Option<string>, c: string) {
    && r.Some? && ParseVersion(r.value).Some? && ParseVersion(c).Some?
    && LessEq(ParseVersion(c).value, ParseVersion(r.value).value)
  }

  lemma AtLeastTrans(r: Option<string>, m: string, c: string)
    requires AtLeast(r, m) && AtLeast(Some(m), c)
    ensures AtLeast(r, c)
  {
    CompareTotalOrder(ParseVersion(c).value, ParseVersion(m).value, ParseVersion(r.value).value);
  }

  /** One loop pass keeps a good best match, never moves to an older one,
      and ends no older than the candidate when the candidate is in range. */
  lemma StepMaximal(spec: VersionSpec, best: Option<string>, c: string)
    requires WellFormedSpec(spec) && GoodBest(spec, best)
    ensures var s := Step(spec, best, c);
            s.Ok? ==>
              && GoodBest(spec, s.value)
              && (s.value == best || s.value == Some(c))
              && (best.Some? ==> AtLeast(s.value, best.value))
              && (Admitted(spec, c) ==> AtLeast(s.value, c))
  {
    AdmittedParses(spec, c);
    if best.Some? {
      var b := ParseVersion(best.value).value;
      CompareTotalOrder(b, b, b);
      if ParseVersion(c).Some? {
        CompareTotalOrder(b, ParseVersion(c).value, b);
      }
    } else if ParseVersion(c).Some? {
      var v := ParseVersion(c).value;
      CompareTotalOrder(v, v, v);
    }
  }

  /** The scan keeps a good best match, and it ends on one that is at least
      as new as where it started and as every in-range candidate. */
  lemma {:induction false} ScanFromMaximal(spec: VersionSpec, best: Option<string>, versions: seq<string>)
    requires WellFormedSpec(spec) && GoodBest(spec, best)
    ensures var r := ScanFrom(spec, best, versions);
            r.Ok? ==>
              && GoodBest(spec, r.value)
              && (r.value.Some? ==> r.value == best || r.value.value in versions)
              && (r.value.None? ==> best.None?)
              && (best.Some? ==> AtLeast(r.value, best.value))
              && (forall c :: c in versions && Admitted(spec, c) ==> AtLeast(r.value, c))
    decreases |versions|
  {
    if versions != [] {
      var c := versions[0];
      var s := Step(spec, best, c);
      if s.Ok? {
        var next := s.value;
        StepMaximal(spec, best, c);
        ScanFromMaximal(spec, next, versions[1..]);
        var r := ScanFrom(spec, best, versions);
        assert r == ScanFrom(spec, next, versions[1..]);
        if r.Ok? {
          if best.Some? {
            AtLeastTrans(r.value, next.value, best.value);
          }
          if Admitted(spec, c) {
            AtLeastTrans(r.value, next.value, c);
          }
          forall x | x in versions && Admitted(spec, x)
            ensures AtLeast(r.value, x)
          {
            if x != c {
              assert x in versions[1..];
            }
          }
        }
      }
    }
  }

  predicate AllParse(versions: seq<string>) {
    forall c :: c in versions ==> ParseVersion(c).Some?
  }

  /** The first catalog entry that is not a version. */
  function FirstMalformed(versions: seq<string>): (r: string)
    requires !AllParse(versions)
    ensures r in versions && ParseVersion(r).None?
  {
    if ParseVersion(versions[0]).None? then versions[0]
    else
      assert !AllParse(versions[1..]) by {
        var c :| c in versions && ParseVersion(c).None?;
        assert c != versions[0];
        assert c in versions[1..];
      }
      FirstMalformed(versions[1..])
  }

  /** One loop pass raises exactly on a malformed candidate, naming it. */
  lemma StepRaises(spec: VersionSpec, best: Option<string>, c: string)
    requires WellFormedSpec(spec) && GoodBest(spec, best)
    ensures Step(spec, best, c).Err? <==> ParseVersion(c).None?
    ensures Step(spec, best, c).Err? ==> Step(spec, best, c).error == MalformedVersion(c)
  {
    var ir := InRange(spec, c);
    assert (ir.Ok? <==> ParseVersion(c).Some?) && (ir.Err? ==> ir == Err(MalformedVersion(c))) by {
      InRangeMeaning(spec, c);
    }
    var s := Step(spec, best, c);
    if best.None? {
      assert s == (if ir.Err? then Err(ir.error) else Ok(if ir.value then Some(c) else best));
    } else {
      var nc := New(c);
      assert New(best.value).Ok?;
      if nc.Err? {
        assert s == Err(nc.error);
      } else if Less(New(best.value).value, nc.value) {
        assert s == Ok(if ir.value then Some(c) else best);
      } else {
        assert s == Ok(best);
      }
    }
  }

  /** The scan raises exactly when the catalog holds something that is not a
      version, and the exception names the first such entry. */
  lemma {:induction false} ScanFromRaises(spec: VersionSpec, best: Option<string>, versions: seq<string>)
    requires WellFormedSpec(spec) && GoodBest(spec, best)
    ensures ScanFrom(spec, best, versions).Err? <==> !AllParse(versions)
    ensures ScanFrom(spec, best, versions).Err? ==>
              ScanFrom(spec, best, versions).error == MalformedVersion(FirstMalformed(versions))
    decreases |versions|
  {
    if versions != [] {
      var c := versions[0];
      StepRaises(spec, best, c);
      var s := Step(spec, best, c);
      if s.Ok? {
        assert GoodBest(spec, s.value) by {
          StepMaximal(spec, best, c);
        }
        ScanFromRaises(spec, s.value, versions[1..]);
        assert AllParse(versions) <==> AllParse(versions[1..]) by {
          assert versions == [c] + versions[1..];
        }
      }
    }
  }

  /** From no best match, the scan finds a candidate exactly when one is in range. */
  lemma ScanFindsIffAdmitted(spec: VersionSpec, versions: seq<string>)
    requires WellFormedSpec(spec) && ScanFrom(spec, None, versions).Ok?
    ensures var r := ScanFrom(spec, None, versions).value;
            && (r.None? <==> forall c :: c in versions ==> !Admitted(spec, c))
            && (r.Some? ==> r.value in versions && Admitted(spec, r.value))
  {
    ScanFromMaximal(spec, None, versions);
  }

  /** The catalog's order does not matter: any rearrangement of it raises
      alike, finds a match alike, and finds the same version (its text may
      differ when the catalog lists one version in two spellings). */
  lemma ScanOrderIndependent(spec: VersionSpec, vs: seq<string>, ws: seq<string>)
    requires WellFormedSpec(spec) && multiset(vs) == multiset(ws)
    ensures ScanFrom(spec, None, vs).Err? <==> ScanFrom(spec, None, ws).Err?
    ensures ScanFrom(spec, None, vs).Ok? ==>
              var r1, r2 := ScanFrom(spec, None, vs).value, ScanFrom(spec, None, ws).value;
              && (r1.None? <==> r2.None?)
              && (r1.Some? ==> ParseVersion(r1.value) == ParseVersion(r2.value))
  {
    assert forall c :: c in vs <==> c in ws by {
      forall c ensures c in vs <==> c in ws {
        assert c in vs <==> c in multiset(vs);
        assert c in ws <==> c in multiset(ws);
      }
    }
    ScanFromRaises(spec, None, vs);
    ScanFromRaises(spec, None, ws);
    ScanFromMaximal(spec, None, vs);
    ScanFromMaximal(spec, None, ws);
    if ScanFrom(spec, None, vs).Ok? {
      var r1, r2 := ScanFrom(spec, None, vs).value, ScanFrom(spec, None, ws).value;
      if r1.Some? {
        assert AtLeast(r2, r1.value);
        assert AtLeast(r1, r2.value);
        var a, b := ParseVersion(r1.value).value, ParseVersion(r2.value).value;
        CompareTotalOrder(a, b, b);
        CompareZeroIffEqual(a, b);
      }
    }
  }

  /** `get_matching_version`, given what `version_spec` returned, the
      installed version (`current_version`) and the Forge catalog. */
  function MatchingVersion(spec: Option<VersionSpec>, current: Option<string>,
                           latest: string, versions: seq<string>): Result<Option<string>>
  {
    if spec.None? then Ok(None)
    else
      var currentOk :- if current.Some? then InRange(spec.value, current.value) else Ok(false);
      if currentOk then Ok(current)
      else
        var latestOk :- InRange(spec.value, latest);
        if latestOk then Ok(Some(latest)) else ScanFrom(spec.value, None, versions)
  }

  /** Without a spec there is no match, whatever the catalog says. */
  lemma NoSpecNoMatch(current: Option<string>, latest: string, versions: seq<string>)
    ensures MatchingVersion(None, current, latest, versions) == Ok(None)
  {
  }

  /** The order of preference: the installed version when it is in range,
      then the latest release, then the newest in-range catalog entry. */
  lemma MatchingPriority(spec: VersionSpec, current: Option<string>, latest: string, versions: seq<string>)
    ensures current.Some? && Admitted(spec, current.value) ==>
              MatchingVersion(Some(spec), current, latest, versions) == Ok(current)
    ensures (current.None? || InRange(spec, current.value) == Ok(false)) && Admitted(spec, latest) ==>
              MatchingVersion(Some(spec), current, latest, versions) == Ok(Some(latest))
    ensures (current.None? || InRange(spec, current.value) == Ok(false)) && InRange(spec, latest) == Ok(false) ==>
              MatchingVersion(Some(spec), current, latest, versions) == ScanFrom(spec, None, versions)
  {
  }

  /** Whatever is returned is in range and comes from the installed version
      or the catalog; nothing is returned only when nothing offered is in range. */
  lemma MatchingVersionSound(spec: VersionSpec, current: Option<string>, latest: string, versions: seq<string>)
    requires WellFormedSpec(spec)
    ensures var r := MatchingVersion(Some(spec), current, latest, versions);
            r.Ok? ==>
              && (r.value.Some? ==> Admitted(spec, r.value.value) &&
                                    (r.value == current || r.value.value == latest || r.value.value in versions))
              && (r.value.None? <==>
                    && (current.Some? ==> !Admitted(spec, current.value))
                    && !Admitted(spec, latest)
                    && forall c :: c in versions ==> !Admitted(spec, c))
  {
    MatchingCases(spec, current, latest, versions);
    if MatchingVersion(Some(spec), current, latest, versions) == ScanFrom(spec, None, versions) {
      if ScanFrom(spec, None, versions).Ok? {
        ScanFindsIffAdmitted(spec, versions);
      }
    }
  }

  /** The three ways `get_matching_version` can answer once it has a spec. */
  lemma MatchingCases(spec: VersionSpec, current: Option<string>, latest: string, versions: seq<string>)
    ensures var r := MatchingVersion(Some(spec), current, latest, versions);
            r.Ok? ==>
              || (current.Some? && Admitted(spec, current.value) && r == Ok(current))
              || ((current.Some? ==> !Admitted(spec, current.value)) && Admitted(spec, latest) && r == Ok(Some(latest)))
              || ((current.Some? ==> !Admitted(spec, current.value)) && !Admitted(spec, latest)
                  && r == ScanFrom(spec, None, versions))
  {
  }

  /** A version whose parts are single digits, written out as `to_s` prints it. */
  lemma SingleDigitsParse(m: nat, n: nat, r: nat)
    requires m < 10 && n < 10 && r < 10
    ensures New([DigitChar(m), '.', DigitChar(n), '.', DigitChar(r)]) == Ok(Version(m, n, r))
  {
    var v, s := Version(m, n, r), [DigitChar(m), '.', DigitChar(n), '.', DigitChar(r)];
    assert ToString(v) == s by {
      assert NatToString(m) == [DigitChar(m)] && NatToString(n) == [DigitChar(n)] && NatToString(r) == [DigitChar(r)];
    }
    assert ParseVersion(s) == Some(v) by {
      ToStringParses(v);
    }
  }

  /** The constraint `>= 8.1.0 < 8.2.0` and the catalog of the upper-bound case. */
  function ScenarioSpec(): VersionSpec { VersionSpec(Some("8.1.0"), Some("8.2.0"), true, false) }

  function ScenarioCatalog(): seq<string> { ["8.0.0", "8.1.0", "8.1.1", "8.1.2", "8.2.0"] }

  lemma ScenarioVersions()
    ensures New("8.0.0") == Ok(Version(8, 0, 0)) && New("8.1.0") == Ok(Version(8, 1, 0))
    ensures New("8.1.1") == Ok(Version(8, 1, 1)) && New("8.1.2") == Ok(Version(8, 1, 2))
    ensures New("8.2.0") == Ok(Version(8, 2, 0)) && New("8.8.8") == Ok(Version(8, 8, 8))
  {
    SingleDigitsParse(8, 0, 0);
    SingleDigitsParse(8, 1, 0);
    SingleDigitsParse(8, 1, 1);
    SingleDigitsParse(8, 1, 2);
    SingleDigitsParse(8, 2, 0);
    SingleDigitsParse(8, 8, 8);
  }

  lemma ScenarioRange()
    ensures InRange(ScenarioSpec(), "8.0.0") == Ok(false) && InRange(ScenarioSpec(), "8.8.8") == Ok(false)
    ensures InRange(ScenarioSpec(), "8.2.0") == Ok(false)
    ensures InRange(ScenarioSpec(), "8.1.0") == Ok(true) && InRange(ScenarioSpec(), "8.1.1") == Ok(true)
    ensures InRange(ScenarioSpec(), "8.1.2") == Ok(true)
  {
    var lo, hi := Version(8, 1, 0), Version(8, 2, 0);
    ScenarioVersions();
    HalfOpenInRange("8.1.0", "8.2.0", "8.0.0", lo, hi, Version(8, 0, 0));
    HalfOpenInRange("8.1.0", "8.2.0", "8.8.8", lo, hi, Version(8, 8, 8));
    HalfOpenInRange("8.1.0", "8.2.0", "8.2.0", lo, hi, Version(8, 2, 0));
    HalfOpenInRange("8.1.0", "8.2.0", "8.1.0", lo, hi, Version(8, 1, 0));
    HalfOpenInRange("8.1.0", "8.2.0", "8.1.1", lo, hi, Version(8, 1, 1));
    HalfOpenInRange("8.1.0", "8.2.0", "8.1.2", lo, hi, Version(8, 1, 2));
  }

  lemma ScenarioSteps()
    ensures Step(ScenarioSpec(), None, "8.0.0") == Ok(None)
    ensures Step(ScenarioSpec(), None, "8.1.0") == Ok(Some("8.1.0"))
    ensures Step(ScenarioSpec(), Some("8.1.0"), "8.1.1") == Ok(Some("8.1.1"))
    ensures Step(ScenarioSpec(), Some("8.1.1"), "8.1.2") == Ok(Some("8.1.2"))
    ensures Step(ScenarioSpec(), Some("8.1.2"), "8.2.0") == Ok(Some("8.1.2"))
  {
    ScenarioVersions();
    ScenarioRange();
  }

  /** The scan over a catalog is the first pass, then the scan over the rest. */
  lemma ScanCons(spec: VersionSpec, best: Option<string>, c: string, rest: seq<string>, next: Option<string>)
    requires Step(spec, best, c) == Ok(next)
    ensures ScanFrom(spec, best, [c] + rest) == ScanFrom(spec, next, rest)
  {
    assert ([c] + rest)[0] == c && ([c] + rest)[1..] == rest;
  }

  lemma ScenarioScan()
    ensures ScanFrom(ScenarioSpec(), None, ScenarioCatalog()) == Ok(Some("8.1.2"))
  {
    var spec := ScenarioSpec();
    ScenarioSteps();
    var found := Some("8.1.2");
    ScanCons(spec, found, "8.2.0", [], found);
    ScanCons(spec, Some("8.1.1"), "8.1.2", ["8.2.0"], found);
    ScanCons(spec, Some("8.1.0"), "8.1.1", ["8.1.2", "8.2.0"], Some("8.1.1"));
    ScanCons(spec, None, "8.1.0", ["8.1.1", "8.1.2", "8.2.0"], Some("8.1.0"));
    ScanCons(spec, None, "8.0.0", ["8.1.0", "8.1.1", "8.1.2", "8.2.0"], None);
  }

  /** The upper-bound case: with `>= 8.1.0 < 8.2.0`, installed 8.0.0 and
      latest 8.8.8 both out of range, the catalog scan picks 8.1.2. */
  lemma UpperBoundScenario()
    ensures MatchingVersion(Some(ScenarioSpec()), Some("8.0.0"), "8.8.8", ScenarioCatalog()) == Ok(Some("8.1.2"))
  {
    ScenarioRange();
    ScenarioScan();
  }

  /** `version_spec` reads the scenario's constraint text as its spec. */
  lemma ScenarioSpecParses()
    ensures ParseSpec(">= 8.1.0 < 8.2.0") == Some(ScenarioSpec())
  {
    ScenarioText();
    var lo, hi := Triple("8", "1", "0", []), Triple("8", "2", "0", []);
    assert lo.Text() == "8.1.0" && hi.Text() == "8.2.0";
    TripleTextExact(lo);
    TripleTextExact(hi);
    RangeGrammar(0, Ge, 1, "8.1.0", 1, Lt, 1, "8.2.0", 0);
  }

  /** The scenario's constraint text, written as the range pattern's pieces. */
  lemma ScenarioText()
    ensures RangeText(0, Ge, 1, "8.1.0", 1, Lt, 1, "8.2.0", 0) == ">= 8.1.0 < 8.2.0"
  {
    assert Spaces(0) == [] && Spaces(1) == " ";
    assert BoundText(1, Lt, 1, "8.2.0", 0) == " < 8.2.0";
    assert ">= 8.1.0" + " < 8.2.0" == ">= 8.1.0 < 8.2.0";
  }
}