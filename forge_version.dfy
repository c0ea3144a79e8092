/** `R10K::Module::Forge::ForgeVersion`: a three-part version number parsed
    from text, printed back, and ordered part by part. */
module ForgeVersion {
  import opened Text
  import opened Outcome

  datatype Version = Version(major: nat, minor: nat, revision: nat)

  /** The three digit runs of a `\d+\.\d+\.\d+` match and the text after it. */
  datatype Triple = Triple(major: string, minor: string, revision: string, rest: string) {
    function Text(): string { Dotted(major, minor, revision) }

    function Value(): Version
      requires AllDigits(major) && AllDigits(minor) && AllDigits(revision)
    {
      Version(DigitsValue(major), DigitsValue(minor), DigitsValue(revision))
    }
  }

  /** Three digit runs joined by dots, as written in the text. */
  function Dotted(x: string, y: string, z: string): string { x + "." + y + "." + z }

  predicate WellFormedTriple(t: Triple) {
    && t.major != [] && AllDigits(t.major)
    && t.minor != [] && AllDigits(t.minor)
    && t.revision != [] && AllDigits(t.revision)
    && (t.rest == [] || !IsDigit(t.rest[0]))
  }

  /** Matches `\d+\.\d+\.\d+` at the start of `s` (greedy, so the match
      is followed by a non-digit or by the end). */
  function ScanTriple(s: string): (r: Option<Triple>)
    ensures r.Some? ==> WellFormedTriple(r.value) && s == r.value.Text() + r.value.rest
  {
    var (d1, r1) := TakeDigits(s);
    if d1 == [] || r1 == [] || r1[0] != '.' then None
    else
      var (d2, r2) := TakeDigits(r1[1..]);
      if d2 == [] || r2 == [] || r2[0] != '.' then None
      else
        var (d3, r3) := TakeDigits(r2[1..]);
        if d3 == [] then None
        else
          TripleJoin(s, d1, r1, d2, r2, d3, r3);
          Some(Triple(d1, d2, d3, r3))
  }

  /** The three digit runs and the two dots put back together give the scanned text. */
  lemma TripleJoin(s: string, d1: string, r1: string, d2: string, r2: string, d3: string, r3: string)
    requires s == d1 + r1 && r1 != [] && r1[0] == '.' && r1[1..] == d2 + r2
    requires r2 != [] && r2[0] == '.' && r2[1..] == d3 + r3
    ensures s == d1 + "." + d2 + "." + d3 + r3
  {
    assert r2 == "." + (d3 + r3);
    assert r1 == "." + (d2 + r2);
  }

  /** The pattern `^ *(\d+)\.(\d+)\.(\d+) *$` of ForgeVersion#initialize. */
  function ParseVersion(s: string): Option<Version> {
    match ScanTriple(DropSpaces(s))
    case Some(t) => if DropSpaces(t.rest) == [] then Some(t.Value()) else None
    case None => None
  }

  /** `ForgeVersion.new`: text that does not match raises (the match is nil). */
  function New(s: string): (r: Result<Version>)
    ensures r.Ok? <==> ParseVersion(s).Some?
    ensures r.Ok? ==> Some(r.value) == ParseVersion(s)
    ensures r.Err? ==> r.error == MalformedVersion(s)
  {
    match ParseVersion(s)
    case Some(v) => Ok(v)
    case None => Err(MalformedVersion(s))
  }

  /** The exact-version test `'^\d+\.\d+\.\d+$'` of `expected_version`: no spaces allowed. */
  predicate IsExactVersion(s: string) {
    var t := ScanTriple(s);
    t.Some? && t.value.rest == []
  }

  /** `ForgeVersion#to_s`. */
  function ToString(v: Version): string {
    NatToString(v.major) + "." + NatToString(v.minor) + "." + NatToString(v.revision)
  }

  function CompareNat(x: nat, y: nat): int {
    if x < y then -1 else if x == y then 0 else 1
  }

  /** `ForgeVersion#<=>`: major, then minor, then revision. */
  function Compare(a: Version, b: Version): (r: int)
    ensures -1 <= r <= 1
  {
    var c := CompareNat(a.major, b.major);
    if c != 0 then c
    else
      var c := CompareNat(a.minor, b.minor);
      if c != 0 then c else CompareNat(a.revision, b.revision)
  }

  /** The operators `Comparable` derives from `<=>`. */
  predicate Less(a: Version, b: Version) { Compare(a, b) < 0 }
  predicate LessEq(a: Version, b: Version) { Compare(a, b) <= 0 }

  /** The reference order: lexicographic order of equally long number sequences. */
  predicate LexLess(x: seq<nat>, y: seq<nat>)
    requires |x| == |y|
  {
    |x| > 0 && (x[0] < y[0] || (x[0] == y[0] && LexLess(x[1..], y[1..])))
  }

  function Parts(v: Version): seq<nat> { [v.major, v.minor, v.revision] }

  lemma CompareIsLexicographic(a: Version, b: Version)
    ensures Compare(a, b) < 0 <==> LexLess(Parts(a), Parts(b))
    ensures Compare(a, b) > 0 <==> LexLess(Parts(b), Parts(a))
    ensures Compare(a, b) == 0 <==> Parts(a) == Parts(b)
  {
    var x, y := Parts(a), Parts(b);
    assert x[1..] == [a.minor, a.revision] && y[1..] == [b.minor, b.revision];
    assert x[1..][1..] == [a.revision] && y[1..][1..] == [b.revision];
    assert x[1..][1..][1..] == [] && y[1..][1..][1..] == [];
    assert !LexLess(x[1..][1..][1..], y[1..][1..][1..]);
    assert !LexLess(y[1..][1..][1..], x[1..][1..][1..]);
    assert LexLess(x[1..][1..], y[1..][1..]) == (a.revision < b.revision);
    assert LexLess(y[1..][1..], x[1..][1..]) == (b.revision < a.revision);
    assert LexLess(x[1..], y[1..]) == (a.minor < b.minor || (a.minor == b.minor && a.revision < b.revision));
    assert LexLess(y[1..], x[1..]) == (b.minor < a.minor || (a.minor == b.minor && b.revision < a.revision));
    assert LexLess(x, y) == (a.major < b.major || (a.major == b.major && LexLess(x[1..], y[1..])));
    assert LexLess(y, x) == (b.major < a.major || (a.major == b.major && LexLess(y[1..], x[1..])));
  }

  /** Two versions are equal under `<=>` exactly when all three parts are. */
  lemma CompareZeroIffEqual(a: Version, b: Version)
    ensures Compare(a, b) == 0 <==> a == b
  {
  }

  /** `<=>` is a total order: antisymmetric, transitive and total. */
  lemma CompareTotalOrder(a: Version, b: Version, c: Version)
    ensures Compare(a, a) == 0
    ensures Compare(b, a) == -Compare(a, b)
    ensures LessEq(a, b) && LessEq(b, c) ==> LessEq(a, c)
    ensures Less(a, b) && Less(b, c) ==> Less(a, c)
    ensures LessEq(a, b) || LessEq(b, a)
  {
  }

  lemma ScanTripleSplit(d1: string, d2: string, d3: string, t: string)
    requires d1 != [] && AllDigits(d1) && d2 != [] && AllDigits(d2) && d3 != [] && AllDigits(d3)
    requires t == [] || !IsDigit(t[0])
    ensures ScanTriple(d1 + "." + d2 + "." + d3 + t) == Some(Triple(d1, d2, d3, t))
  {
    var s := d1 + "." + d2 + "." + d3 + t;
    assert s == d1 + ("." + d2 + "." + d3 + t);
    TakeDigitsSplit(d1, "." + d2 + "." + d3 + t);
    assert ("." + d2 + "." + d3 + t)[1..] == d2 + ("." + d3 + t);
    TakeDigitsSplit(d2, "." + d3 + t);
    assert ("." + d3 + t)[1..] == d3 + t;
    TakeDigitsSplit(d3, t);
  }

  /** Printing then scanning recovers the version, whatever follows it. */
  lemma ScanToString(v: Version, t: string)
    requires t == [] || !IsDigit(t[0])
    ensures ScanTriple(ToString(v) + t)
         == Some(Triple(NatToString(v.major), NatToString(v.minor), NatToString(v.revision), t))
    ensures Triple(NatToString(v.major), NatToString(v.minor), NatToString(v.revision), t).Value() == v
  {
    ScanTripleSplit(NatToString(v.major), NatToString(v.minor), NatToString(v.revision), t);
    DigitsRoundTrip(v.major);
    DigitsRoundTrip(v.minor);
    DigitsRoundTrip(v.revision);
  }

  lemma ToStringStartsWithDigit(v: Version)
    ensures ToString(v) != [] && IsDigit(ToString(v)[0])
  {
    var m := NatToString(v.major);
    assert ToString(v) == m + ("." + NatToString(v.minor) + "." + NatToString(v.revision));
    assert ToString(v)[0] == m[0];
  }

  /** `ForgeVersion.new(v.to_s) == v`, also with the spaces the pattern tolerates. */
  lemma ParseToString(v: Version, before: nat, after: nat)
    ensures ParseVersion(Spaces(before) + ToString(v) + Spaces(after)) == Some(v)
  {
    var s, pad := ToString(v), Spaces(after);
    ToStringStartsWithDigit(v);
    assert (s + pad)[0] == s[0];
    assert Spaces(before) + s + pad == Spaces(before) + (s + pad);
    DropSpacesPadded(before, s + pad);
    assert pad == [] || pad[0] == ' ';
    ScanToString(v, pad);
    DropSpacesAfterSpaces(after, []);
    assert pad + [] == pad;
  }

  /** A printed version passes the exact-version test of `expected_version`. */
  lemma ToStringIsExact(v: Version)
    ensures IsExactVersion(ToString(v))
  {
    ScanToString(v, []);
    assert ToString(v) + [] == ToString(v);
  }

  /** The exact-version test accepts a subset of what ForgeVersion parses. */
  lemma ExactVersionParses(s: string)
    requires IsExactVersion(s)
    ensures ParseVersion(s).Some?
  {
    var t := ScanTriple(s).value;
    assert s == t.major + ("." + t.minor + "." + t.revision + t.rest);
    assert s[0] == t.major[0];
    DropSpacesNoSpace(s);
  }

  /** A text that does not open with a digit is no exact version (so
      `expected_version` resolves it as a constraint). */
  lemma NonDigitStartIsNotExact(s: string)
    requires s == [] || !IsDigit(s[0])
    ensures !IsExactVersion(s)
  {
  }

  // ---------------------------------------------------------------------
  // Which texts are versions, stated without the scanner

  /** Text that `\d+\.\d+\.\d+` matches entirely. */
  ghost predicate IsDottedTriple(s: string) {
    exists x: string, y: string, z: string :: DigitRun(x) && DigitRun(y) && DigitRun(z) && s == Dotted(x, y, z)
  }

  /** The exact-version test accepts exactly three digit runs joined by dots. */
  lemma ExactVersionShape(s: string)
    ensures IsExactVersion(s) <==> IsDottedTriple(s)
  {
    if IsExactVersion(s) {
      var t := ScanTriple(s).value;
      assert s == Dotted(t.major, t.minor, t.revision) + [];
    }
    if IsDottedTriple(s) {
      var x, y, z :| DigitRun(x) && DigitRun(y) && DigitRun(z) && s == Dotted(x, y, z);
      ScanTripleSplit(x, y, z, []);
      assert Dotted(x, y, z) + [] == s;
    }
  }

  /** `^ *(\d+)\.(\d+)\.(\d+) *$` with its groups read by `to_i`: spaces,
      three digit runs joined by dots, spaces, and the numbers those runs spell. */
  ghost predicate PaddedVersionText(s: string, v: Version) {
    exists a: nat, x: string, y: string, z: string, b: nat ::
      && DigitRun(x) && DigitRun(y) && DigitRun(z)
      && s == Spaces(a) + Dotted(x, y, z) + Spaces(b)
      && v == Version(DigitsValue(x), DigitsValue(y), DigitsValue(z))
  }

  /** `ForgeVersion.new(s)` succeeds with `v` exactly on the texts the pattern describes. */
  lemma ParseVersionShape(s: string, v: Version)
    ensures ParseVersion(s) == Some(v) <==> PaddedVersionText(s, v)
  {
    if ParseVersion(s) == Some(v) {
      ParsedVersionText(s);
    }
    if PaddedVersionText(s, v) {
      forall a: nat, x: string, y: string, z: string, b: nat | DigitRun(x) && DigitRun(y) && DigitRun(z)
        ensures ParseVersion(Spaces(a) + Dotted(x, y, z) + Spaces(b))
             == Some(Version(DigitsValue(x), DigitsValue(y), DigitsValue(z)))
      {
        PaddedDottedParses(a, x, y, z, b);
      }
    }
  }

  /** The pieces of a text that parses: the spaces ` *` consumed, the triple, the trailing spaces. */
  lemma ParsedVersionText(s: string)
    requires ParseVersion(s).Some?
    ensures PaddedVersionText(s, ParseVersion(s).value)
  {
    var d := DropSpaces(s);
    var t := ScanTriple(d).value;
    var a, b := |s| - |d|, |t.rest|;
    DropSpacesSplit(s);
    SpacesOnly(t.rest);
    assert s == Spaces(a) + Dotted(t.major, t.minor, t.revision) + Spaces(b);
  }

  lemma PaddedDottedParses(a: nat, x: string, y: string, z: string, b: nat)
    requires DigitRun(x) && DigitRun(y) && DigitRun(z)
    ensures ParseVersion(Spaces(a) + Dotted(x, y, z) + Spaces(b))
         == Some(Version(DigitsValue(x), DigitsValue(y), DigitsValue(z)))
  {
    var text := Spaces(a) + Dotted(x, y, z) + Spaces(b);
    var body, t := Dotted(x, y, z) + Spaces(b), Triple(x, y, z, Spaces(b));
    assert DropSpaces(text) == body by {
      assert text == Spaces(a) + body;
      assert body[0] == x[0];
      DropSpacesPadded(a, body);
    }
    assert ScanTriple(body) == Some(t) by {
      SpacesNotDigit(b);
      ScanTripleSplit(x, y, z, Spaces(b));
    }
    assert DropSpaces(t.rest) == [] by {
      AllSpacesDropped(b);
    }
    assert t.Value() == Version(DigitsValue(x), DigitsValue(y), DigitsValue(z));
  }
}
