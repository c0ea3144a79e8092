# r10k Forge module, modelled in Dafny

This project models `R10K::Module::Forge` of r10k. That is the Puppetfile entry for a module installed from the Puppet Forge. The model covers what the class decides and what it asks its collaborators to do:

- **`ForgeVersion`** (`forge_version.dfy`). Parses `M.N.R` text into three numbers, tolerating surrounding spaces. Prints a version back with `to_s` and orders versions with `<=>`. Text that does not match raises; the model returns `Err(MalformedVersion(text))`.
- **`version_spec` and `version_in_range`** (`version_spec.dfy`).
  - The four constraint patterns become a hand-written scanner over ASCII strings. The patterns are one bound, a lower-then-upper range, `M.N.x` and `M.x`. A constraint that matches none of them gives no spec.
  - The check of a candidate against the bounds keeps its order of evaluation. The lower block runs first, then the upper block. Each block parses the bound first, then the candidate.
- **`get_matching_version`** (`resolver.dfy`).
  - The order of preference: the installed version, then the catalog's latest release, then a scan of the catalog for the newest release in range.
  - The scan is both a function (`ScanFrom`) and the loop that it specifies (`ScanCatalog`).
- **`parse_title` and `implement?`** (`titles.dfy`).
- **The module object** (`forge_module.dfy`).
  - `expected_version` memoises into `@expected_version`. `version_spec` memoises into `@version_spec`, but only when the spec is non-nil.
  - `status` is the four-state classifier.
  - `install`, `upgrade`, `uninstall`, `reinstall` and `sync`.
  - The class `ForgeModule` holds the two memo fields and a ghost log of the actions taken: make the parent directory, install a release, remove the tree.
  - Each method is specified by a pure step function on the memo (`SpecOf`, `MatchingOf`, `ExpectedOf`, `StatusOf`, `InstallOf`, `ReinstallOf`, `SyncOf`). The lemmas are stated about those functions.

Error results stand for the Ruby exceptions:

- `MalformedVersion` is `ForgeVersion.new` on text that does not match.
- `NilReceiver` is a method called on nil. This happens in `expected_version` once nil has been stored, and in `status` when no metadata was read at construction.
- `InvalidTitle` is the `ArgumentError` of `parse_title`.

The payloads of the error results, `MalformedVersion(text)` and `InvalidTitle(title)`, belong to the model. In Ruby a malformed version raises a `NoMethodError` on nil (line 102), and `parse_title` raises an `ArgumentError` with a fixed message (line 243).

The model keeps these quirks of the code:

- The exact-version test of `expected_version` allows no spaces, while `ForgeVersion` and the constraint grammar do.
- `status` compares version text, not parsed versions, and it calls `expected_version` twice.
- A nil expected version reports the module in sync.
- The `:latest` symbol reaching `version_spec` is matched as the text `latest`, so it has no spec.
- A constraint that resolves to nothing stores nil, and the next `expected_version` raises.
- `status` consults the metadata read at construction. The re-read at line 200 is discarded.

Three behaviours of the code worth noting:

- A bare version such as `1.2.3` is not a constraint of `version_spec`: it gives nil. Exact versions are recognised only by the test in `expected_version`.
- A module directory with `metadata.json` but no metadata read at construction raises, rather than being reported as mismatched.
- The resolved version is not always computed once. When the stored answer is not an exact version, it is resolved again.

## Model

| member | source | states |
|---|---|---|
| Text.DigitsRoundTrip | lib/r10k/module/forge.rb:102-108 | reading back (`to_i`) the decimal digits a number prints as (`to_s`) gives the number |
| ForgeVersion.ScanTriple | lib/r10k/module/forge.rb:101 | a match of `\d+\.\d+\.\d+` at the start of the text has three non-empty digit runs, is followed by a non-digit or the end, and with the rest reassembles the text exactly |
| ForgeVersion.ParseVersion | lib/r10k/module/forge.rb:101-104 | computes the match of `^ *(\d+)\.(\d+)\.(\d+) *$` and the three numbers; its meaning is stated by `ParseVersionShape` |
| ForgeVersion.ParseVersionShape | lib/r10k/module/forge.rb:101-104 | a text parses as version V exactly when it is some spaces, three non-empty digit runs joined by dots, and some spaces, and V holds the values of those runs |
| ForgeVersion.New | lib/r10k/module/forge.rb:99-105 | `ForgeVersion.new` succeeds exactly when `ParseVersion` accepts the text (by `ParseVersionShape`, exactly on ` *\d+\.\d+\.\d+ *`), with that version; otherwise it fails with an error naming the text |
| ForgeVersion.IsExactVersion | lib/r10k/module/forge.rb:64 | the exact-version test of `expected_version`; its meaning is stated by `ExactVersionShape` |
| ForgeVersion.ExactVersionShape | lib/r10k/module/forge.rb:64 | the exact-version test accepts exactly three non-empty digit runs joined by dots, with nothing around them |
| ForgeVersion.NonDigitStartIsNotExact | lib/r10k/module/forge.rb:64 | a text that does not open with a digit fails the exact-version test |
| ForgeVersion.ToString | lib/r10k/module/forge.rb:107-109 | `to_s`; its meaning is stated by `ParseToString`, `ScanToString` and `ToStringIsExact` |
| ForgeVersion.Compare | lib/r10k/module/forge.rb:111-117 | `<=>` answers -1, 0 or 1 |
| ForgeVersion.CompareIsLexicographic | lib/r10k/module/forge.rb:111-117 | `<=>` is negative, positive or zero exactly when (major, minor, revision) is lexicographically below, above or equal to the other's, under an independent lexicographic order on sequences |
| ForgeVersion.CompareZeroIffEqual | lib/r10k/module/forge.rb:111-117 | two versions compare equal exactly when all three parts are equal |
| ForgeVersion.CompareTotalOrder | lib/r10k/module/forge.rb:111-117 | `<=>` is reflexive, antisymmetric, transitive (for `<` and `<=`) and total |
| ForgeVersion.ScanTripleSplit | lib/r10k/module/forge.rb:101 | three digit runs joined by dots and followed by a non-digit are matched as exactly those runs and that rest |
| ForgeVersion.ScanToString | lib/r10k/module/forge.rb:101-109 | the text `to_s` prints is matched back into the same three parts, whatever non-digit text follows |
| ForgeVersion.ParseToString | lib/r10k/module/forge.rb:99-109 | parsing `to_s` of a version, with any spaces around it, gives the same version |
| ForgeVersion.ToStringIsExact | lib/r10k/module/forge.rb:64 | the text `to_s` prints passes the exact-version test of `expected_version` |
| ForgeVersion.ExactVersionParses | lib/r10k/module/forge.rb:64 | text that passes the exact-version test also parses as a `ForgeVersion` |
| VersionSpecs.LowerCheck | lib/r10k/module/forge.rb:122-129 | the lower-bound block; its meaning is stated by `LowerCheckMeaning` |
| VersionSpecs.UpperCheck | lib/r10k/module/forge.rb:130-137 | the upper-bound block; its meaning is stated by `UpperCheckMeaning` |
| VersionSpecs.InRange | lib/r10k/module/forge.rb:120-139 | `version_in_range`; its meaning is stated by `InRangeMeaning`, `NoBoundsAdmitsAll` and `BoundaryInclusivity` |
| VersionSpecs.LowerCheckMeaning | lib/r10k/module/forge.rb:122-129 | with a lower bound, a candidate that does not parse raises naming it; a candidate that parses is admitted exactly when it is above the bound, or equal to it when the bound is inclusive |
| VersionSpecs.UpperCheckMeaning | lib/r10k/module/forge.rb:130-137 | the same for the upper bound: below it, or equal to it when inclusive; a malformed candidate raises |
| VersionSpecs.InRangeMeaning | lib/r10k/module/forge.rb:120-139 | for a spec whose bounds parse, `version_in_range` raises exactly on a malformed candidate and otherwise answers whether both bounds admit it |
| VersionSpecs.NoBoundsAdmitsAll | lib/r10k/module/forge.rb:120-139 | a spec without bounds admits every candidate, even one that does not parse |
| VersionSpecs.BoundaryInclusivity | lib/r10k/module/forge.rb:122-137 | a candidate equal to a bound is admitted only if that bound is inclusive, and a lone inclusive bound admits it |
| VersionSpecs.HalfOpenInRange | lib/r10k/module/forge.rb:120-139 | for `[lo, hi)` with parsing bounds and candidate, the answer is `lo <= v` and `hi > v` |
| VersionSpecs.MajorWildcardRange | lib/r10k/module/forge.rb:159-160 | under the spec `X.x` builds, for any digit run X, a version is in range exactly when its major is the number X spells |
| VersionSpecs.MinorWildcardRange | lib/r10k/module/forge.rb:157-158 | under the spec `X.Y.x` builds, for any digit runs, a version is in range exactly when its major and minor are the numbers X and Y spell |
| VersionSpecs.ParseSpec | lib/r10k/module/forge.rb:143-161 | `version_spec`: the four patterns tried in order; its meaning is stated by `ParseSpecIff` |
| VersionSpecs.MatchSingleBound | lib/r10k/module/forge.rb:145-154 | the one-bound pattern; its meaning is stated by `SingleBoundGrammar` and `SingleBoundShape` |
| VersionSpecs.MatchRange | lib/r10k/module/forge.rb:155-156 | the two-bound pattern; its meaning is stated by `RangeGrammar`, `RangeTextRejected` and `RangeShape` |
| VersionSpecs.MatchMinorWildcard | lib/r10k/module/forge.rb:157-158 | the `X.Y.x` pattern; its meaning is stated by `MinorWildcardGrammar`, `MinorWildcardShape` and `MinorWildcardRange` |
| VersionSpecs.MatchMajorWildcard | lib/r10k/module/forge.rb:159-160 | the `X.x` pattern; its meaning is stated by `MajorWildcardGrammar`, `MajorWildcardShape` and `MajorWildcardRange` |
| VersionSpecs.ParseSpecIff | lib/r10k/module/forge.rb:143-161 | `version_spec` gives a spec exactly on the texts of the four patterns (any spaces where ` *` or ` +` stands, any non-empty digit runs), and the spec is the one that pattern builds |
| VersionSpecs.ParseSpecShape | lib/r10k/module/forge.rb:143-161 | every text `version_spec` accepts is one of the four pattern shapes, with the spec that shape builds |
| VersionSpecs.ShapeParses | lib/r10k/module/forge.rb:143-161 | every text of the four pattern shapes is accepted, with the spec its shape builds |
| VersionSpecs.SingleBoundShape | lib/r10k/module/forge.rb:145-154 | text the one-bound pattern accepts is spaces, an operator, spaces, an exact version and spaces, and the spec is built from those |
| VersionSpecs.RangeShape | lib/r10k/module/forge.rb:155-156 | text the two-bound pattern accepts is a `>`-family bound, at least one space, and a `<`-family bound, each with its spaces, and the spec is built from those |
| VersionSpecs.MinorWildcardShape | lib/r10k/module/forge.rb:157-158 | text the `X.Y.x` pattern accepts is spaces, a digit run, a dot, a digit run, `.x` and spaces, and the spec is the one `MinorWildcardSpec` builds from the two runs |
| VersionSpecs.MajorWildcardShape | lib/r10k/module/forge.rb:159-160 | text the `X.x` pattern accepts is spaces, a digit run, `.x` and spaces, and the spec is the one `MajorWildcardSpec` builds from the run |
| VersionSpecs.SingleBoundGrammar | lib/r10k/module/forge.rb:145-154 | `>V`, `>=V`, `<V` and `<=V`, with any spaces and any digit runs in V (`>= 01.0.0` too), give one bound holding V's text as written, on the side of the operator, inclusive exactly when the operator has `=` |
| VersionSpecs.RangeGrammar | lib/r10k/module/forge.rb:155-156 | a `>`-family bound, at least one space, then a `<`-family bound, with any digit runs, give both bounds as written, each inclusive exactly when its operator has `=` |
| VersionSpecs.RangeTextRejected | lib/r10k/module/forge.rb:145-161 | two bounds with the first not of the `>` family, or the second not of the `<` family, or no space between them, are no spec |
| VersionSpecs.MinorWildcardGrammar | lib/r10k/module/forge.rb:157-158 | `X.Y.x`, with any spaces and any digit runs (`01.2.x` too), gives the inclusive lower bound `X.Y.0` with X and Y as written and the exclusive upper bound with Y's value plus one printed |
| VersionSpecs.MajorWildcardGrammar | lib/r10k/module/forge.rb:159-160 | `X.x`, with any spaces and any digit run, gives the inclusive lower bound `X.0.0` with X as written and the exclusive upper bound with X's value plus one printed |
| VersionSpecs.ExactVersionIsNoSpec | lib/r10k/module/forge.rb:143-164 | a bare version, with any spaces, matches none of the patterns: the spec is nil |
| VersionSpecs.DigitStartHasNoOperator | lib/r10k/module/forge.rb:145-156 | a constraint that starts with a digit matches neither bound pattern |
| VersionSpecs.ParsedSpecWellFormed | lib/r10k/module/forge.rb:143-164 | every spec the grammar produces has at least one bound, and every bound parses as a `ForgeVersion` |
| VersionSpecs.TripleTextParses | lib/r10k/module/forge.rb:145-160 | the bound text a pattern captures parses back to the version its digit runs denote |
| Resolver.Step | lib/r10k/module/forge.rb:85-87 | one pass of the loop body; its meaning is stated by `StepMaximal` and `StepRaises` |
| Resolver.ScanFrom | lib/r10k/module/forge.rb:83-89 | the loop over the catalog; its meaning is stated by `ScanFromMaximal`, `ScanFromRaises`, `ScanFindsIffAdmitted` and `ScanOrderIndependent` |
| Resolver.MatchingVersion | lib/r10k/module/forge.rb:72-90 | `get_matching_version`; its meaning is stated by `MatchingPriority`, `MatchingCases`, `MatchingVersionSound` and `NoSpecNoMatch` |
| Resolver.Consider | lib/r10k/module/forge.rb:85-87 | the loop body's test and assignment compute one step of the scan |
| Resolver.ScanCatalog | lib/r10k/module/forge.rb:83-89 | the loop over the catalog computes the scan from no best match |
| Resolver.StepMaximal | lib/r10k/module/forge.rb:85-87 | one loop pass keeps an in-range best match, replaces it only by the candidate, never with an older version, and ends no older than an in-range candidate |
| Resolver.ScanFromMaximal | lib/r10k/module/forge.rb:83-89 | the scan ends on an in-range entry of the catalog or the starting best match, at least as new as the start and as every in-range entry |
| Resolver.FirstMalformed | lib/r10k/module/forge.rb:84-85 | the first catalog entry that is not a version is in the catalog and does not parse |
| Resolver.StepRaises | lib/r10k/module/forge.rb:85 | one loop pass raises exactly on a malformed candidate, naming it |
| Resolver.ScanFromRaises | lib/r10k/module/forge.rb:83-89 | the scan raises exactly when the catalog holds an entry that is not a version, naming the first one |
| Resolver.ScanFindsIffAdmitted | lib/r10k/module/forge.rb:83-89 | the scan finds nothing exactly when no catalog entry is in range; a found entry is in the catalog and in range |
| Resolver.ScanOrderIndependent | lib/r10k/module/forge.rb:83-89 | any rearrangement of the catalog raises alike, finds something alike, and finds the same version |
| Resolver.AdmittedParses | lib/r10k/module/forge.rb:120-139 | for a spec whose bounds parse, `version_in_range` answers exactly for candidates that parse |
| Resolver.NoSpecNoMatch | lib/r10k/module/forge.rb:75 | without a spec nothing matches, whatever the catalog says |
| Resolver.MatchingPriority | lib/r10k/module/forge.rb:75-89 | the installed version when in range; else the latest release when in range; else the catalog scan |
| Resolver.MatchingCases | lib/r10k/module/forge.rb:77-89 | with a spec, an answer is the installed version (in range), or the latest release (in range, installed not), or the catalog scan (neither in range) |
| Resolver.MatchingVersionSound | lib/r10k/module/forge.rb:72-90 | a result is in range and is the installed version, the latest release or a catalog entry; there is no result exactly when none of them is in range |
| Resolver.ScenarioRange | spec/unit/module/forge_spec.rb:88-94 | under `>= 8.1.0 < 8.2.0`, 8.1.0, 8.1.1 and 8.1.2 are in range and 8.0.0, 8.2.0 and 8.8.8 are not |
| Resolver.ScenarioScan | spec/unit/module/forge_spec.rb:92-93 | scanning 8.0.0, 8.1.0, 8.1.1, 8.1.2, 8.2.0 under that spec finds 8.1.2 |
| Resolver.UpperBoundScenario | spec/unit/module/forge_spec.rb:88-94 | with installed 8.0.0 and latest 8.8.8 out of range, the match is 8.1.2 |
| Resolver.ScenarioSpecParses | spec/unit/module/forge_spec.rb:89 | `version_spec` reads `>= 8.1.0 < 8.2.0` as the inclusive lower bound 8.1.0 and the exclusive upper bound 8.2.0 |
| Titles.Implements | lib/r10k/module/forge.rb:16-18 | `implement?`; its meaning is stated by `ImplementsMeaning` |
| Text.SlashToDash | lib/r10k/module/forge.rb:202 | `tr('/', '-')` keeps the length and maps each `/` to `-`, leaving every other character |
| Titles.ParseTitle | lib/r10k/module/forge.rb:239-245 | an accepted title is an owner word, one separator (`/` or `-`) and a name word, exactly; a rejected one raises naming the title |
| Titles.ParseTitleAccepts | lib/r10k/module/forge.rb:239-245 | every word, separator, word title is accepted and split into that owner and name |
| Titles.WitnessImplements | lib/r10k/module/forge.rb:16-18 | a separator with a word character on each side makes `implement?` true |
| Titles.ImplementsWitness | lib/r10k/module/forge.rb:16-18 | when `implement?` is true, some separator has a word character on each side |
| Titles.ImplementsMeaning | lib/r10k/module/forge.rb:16-18 | `implement?` holds exactly when some `/` or `-` sits between two word characters |
| Titles.ParsedTitleImplements | lib/r10k/module/forge.rb:16-18 | every title `parse_title` accepts passes `implement?` |
| Titles.NoSeparatorNotImplemented | lib/r10k/module/forge.rb:16-18 | a name with no `/` or `-` fails `implement?` |
| Titles.SeparatorsAgree | lib/r10k/module/forge.rb:202 | `owner/name` and `owner-name` are the same module once `/` is mapped to `-` |
| Titles.SlashTitleExample | spec/unit/module/forge_spec.rb:13-15 | `branan/eight_hundred` passes `implement?` and splits into `branan` and `eight_hundred` |
| Titles.DashTitleExample | spec/unit/module/forge_spec.rb:17-19 | `branan-eight_hundred` passes `implement?` and splits the same way |
| Titles.NotImplementedExample | spec/unit/module/forge_spec.rb:21-23 | `branan!eight_hundred` fails `implement?` |
| Titles.InvalidTitleExample | lib/r10k/module/forge.rb:240-243 | `branan!eight_hundred` is rejected by `parse_title` |
| Forge.InitialExpected | lib/r10k/module/forge.rb:37 | the expected version is never nil after construction: the requested one if given, else the installed version, and `:latest` exactly when neither exists |
| Forge.CurrentVersion | lib/r10k/module/forge.rb:167-169 | there is a current version exactly when metadata was read |
| Forge.DefaultIsInstalledVersion | lib/r10k/module/forge.rb:37 | without a requested version, the expected version is the installed one, or `:latest` when nothing is installed |
| Forge.SpecOf | lib/r10k/module/forge.rb:143-164 | `version_spec` on the memo; its meaning is stated by `SpecMemoised` and `LatestIsNoSpec` |
| Forge.SpecMemoised | lib/r10k/module/forge.rb:143-164 | a stored spec is returned unchanged; a spec is stored exactly when one was produced; asking again gives the same answer |
| Forge.LatestIsNoSpec | lib/r10k/module/forge.rb:145-161 | the name `latest` matches no constraint pattern |
| Forge.MatchingOf | lib/r10k/module/forge.rb:72-90 | `get_matching_version` on the memo; its meaning is stated by `ConstraintResolves` and `ResolvedConstraintInRange` |
| Forge.ExpectedOf | lib/r10k/module/forge.rb:61-69 | `expected_version` on the memo; its meaning is stated by `ExactVersionPassesThrough`, `LatestResolves`, `ConstraintResolves`, `ExpectedIdempotent`, `NilReentryRaises` and `UpperBoundExpected` |
| Forge.ExactVersionPassesThrough | lib/r10k/module/forge.rb:64 | an exact version is returned unchanged, whatever the catalog and installed version are, and nothing is stored |
| Forge.LatestResolves | lib/r10k/module/forge.rb:62-63 | `:latest` resolves to the catalog's latest release, which is stored |
| Forge.ConstraintResolves | lib/r10k/module/forge.rb:64-67 | a constraint resolves to what `get_matching_version` returns, and that answer (a version or nil) is stored |
| Forge.ExpectedIdempotent | lib/r10k/module/forge.rb:61-69 | once `expected_version` answers with a version, asking again gives the same answer and changes nothing |
| Forge.NilReentryRaises | lib/r10k/module/forge.rb:64-68 | when resolution finds nothing, nil is stored and the next call raises |
| Forge.UnparsableConstraintIsNil | lib/r10k/module/forge.rb:75 | a constraint no pattern matches resolves to nil, which is stored |
| Forge.ResolvedConstraintInRange | lib/r10k/module/forge.rb:61-90 | a constraint's resolved version is in range of its spec and is the installed version, the latest release or a catalog entry |
| Forge.UpperBoundExpected | spec/unit/module/forge_spec.rb:88-94 | `expected_version` of `>= 8.1.0 < 8.2.0`, installed 8.0.0, latest 8.8.8, answers 8.1.2 and stores it with the parsed spec |
| Forge.StatusOf | lib/r10k/module/forge.rb:188-214 | `status`; its meaning is stated by `StatusWithoutInstall`, `StatusOtherModule`, `StatusComparesText`, `StatusNilExpectedIsInSync` and `StatusStaleMetadata` |
| Forge.StatusWithoutInstall | lib/r10k/module/forge.rb:189-196 | a missing directory is absent and a missing `metadata.json` is mismatched, with no version resolved |
| Forge.StatusOtherModule | lib/r10k/module/forge.rb:202-207 | for an installed module, status is mismatched exactly when the title and the installed name differ after mapping `/` to `-` |
| Forge.StatusComparesText | lib/r10k/module/forge.rb:209-213 | for the right module, status is in sync exactly when the expected version's text equals the installed version's text, otherwise outdated |
| Forge.StatusNilExpectedIsInSync | lib/r10k/module/forge.rb:209-213 | an expected version that resolves to nil reports in sync |
| Forge.StatusStaleMetadata | lib/r10k/module/forge.rb:200-202 | with no metadata read at construction, status on an existing `metadata.json` raises |
| Forge.InstallOf | lib/r10k/module/forge.rb:216-223 | `install`; its meaning is stated by `InstallActions` |
| Forge.ReinstallOf | lib/r10k/module/forge.rb:231-234 | `reinstall`; its meaning is stated by `SyncMismatchedReinstalls` |
| Forge.SyncOf | lib/r10k/module/forge.rb:41-50 | `sync`; its meaning is stated by `SyncMismatchedReinstalls`, `SyncOtherStates` and `SyncAbsentInstallsExpected` |
| Forge.InstallActions | lib/r10k/module/forge.rb:216-223 | install makes the parent directory exactly when it is missing, then installs once, last, at the module's path, the release of the title and the expected version, and removes nothing |
| Forge.SyncMismatchedReinstalls | lib/r10k/module/forge.rb:231-234 | a mismatched module is removed first and installed last, once each |
| Forge.SyncOtherStates | lib/r10k/module/forge.rb:41-50 | in sync does nothing; absent and outdated install (one install, no removal); a failed status does nothing |
| Forge.SyncAbsentInstallsExpected | lib/r10k/module/forge.rb:41-50 | an absent module is installed with the version it resolves to |
| Forge.ForgeModule.constructor | lib/r10k/module/forge.rb:32-39 | the owner and name come from `parse_title`, the path is the directory joined with the name, the expected version takes its default, nothing is memoised and nothing is logged |
| Forge.ForgeModule.Spec | lib/r10k/module/forge.rb:143-164 | `version_spec` answers as `SpecOf` and stores only a non-nil spec; the expected version and the log are unchanged |
| Forge.ForgeModule.GetMatchingVersion | lib/r10k/module/forge.rb:72-90 | answers and updates the memo as `MatchingOf`; logs nothing |
| Forge.ForgeModule.ExpectedVersion | lib/r10k/module/forge.rb:61-69 | answers and updates the memo as `ExpectedOf`; logs nothing |
| Forge.ForgeModule.Status | lib/r10k/module/forge.rb:188-214 | answers and updates the memo as `StatusOf`; logs nothing |
| Forge.ForgeModule.Install | lib/r10k/module/forge.rb:216-225 | answers, updates the memo and appends to the log as `InstallOf` |
| Forge.ForgeModule.Uninstall | lib/r10k/module/forge.rb:227-229 | appends one tree removal at the module's path and changes no memo |
| Forge.ForgeModule.Reinstall | lib/r10k/module/forge.rb:231-234 | a removal followed by what `Install` does |
| Forge.ForgeModule.Sync | lib/r10k/module/forge.rb:41-50 | answers, updates the memo and appends to the log as `SyncOf` |

## Left out

- The Forge catalog (`PuppetForge::V3::Module`, lines 38, 63, 81 and 84) is a fixed input: a latest-version string and a sequence of version strings. Network failures are not modelled. The catalog cannot change between calls.
- The release installer, `FileUtils.rm_rf` and `Pathname#mkpath` (lines 219-228) are entries in a ghost action log. Their effects on the file system are not modelled.
- `R10K::Module::MetadataFile` (lines 34-35 and 200) is not part of this model. The metadata read at construction is an optional record of the full module name and the version. The existence of the module directory and of `metadata.json` are boolean inputs to `status`.
- `R10K::Module::Base` is not part of this model. The module path is taken to be the directory joined with the module name.
- `exist?`, `insync?`, `properties` and the `version` alias (lines 52-58 and 171-179) are left out. They are one-line delegations, and logging and `R10K::Module.register` do not affect any decision.
- The regular expressions are scanned over single-line strings. The multi-line behaviour of `^` and `$`, the trailing newline `\Z` accepts, and the Unicode extent of `\w` and `\d` are not modelled.
- Installation always uses the resolved version text, or none when resolution gave nil.
- Forge.ForgeModule.constructor: requires a title that `parse_title` accepts. The raising path is stated on `Titles.ParseTitle`, whose error result the constructor cannot return.
- Forge.ExpectedIdempotent: assumes that, when the expected version is `:latest`, the catalog's latest release is an exact version. A latest release written with spaces would be resolved again as a constraint on the next call.
- Forge.StatusComparesText: carries the same assumption as `ExpectedIdempotent`, because `status` asks for the expected version twice.
- Resolver.ScanOrderIndependent: states that the same version is found, not the same text. A catalog listing one version under two spellings (`1.0.0` and ` 1.0.0`) may yield either spelling, depending on order.
- VersionSpecs.InRangeMeaning: assumes a spec whose bounds parse. Every spec the grammar produces satisfies this (`ParsedSpecWellFormed`). Calling `version_in_range` with no spec at all is not modelled, because `get_matching_version` returns before that can happen.
