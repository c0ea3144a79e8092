/** Character classes and small scanners standing in for the regular
    expressions of the Forge module (`\d`, `\w`, ` *`), over ASCII text. */
module Text {

  predicate IsDigit(c: char) { '0' <= c <= '9' }

  /** `\w` restricted to ASCII: letters, digits and underscore. */
  predicate IsWordChar(c: char) {
    ('a' <= c <= 'z') || ('A' <= c <= 'Z') || IsDigit(c) || c == '_'
  }

  predicate AllDigits(s: string) { forall i :: 0 <= i < |s| ==> IsDigit(s[i]) }

  predicate AllSpaces(s: string) { forall i :: 0 <= i < |s| ==> s[i] == ' ' }

  /** What `\d+` matches: a non-empty run of digits. */
  predicate DigitRun(s: string) { s != [] && AllDigits(s) }

  /** `n` space characters. */
  function Spaces(n: nat): (r: string)
    ensures |r| == n && AllSpaces(r)
  {
    if n == 0 then [] else [' '] + Spaces(n - 1)
  }

  /** What is left after ` *` has consumed the leading spaces. */
  function DropSpaces(s: string): (r: string)
    ensures |r| <= |s|
    ensures r == [] || r[0] != ' '
  {
    if s != [] && s[0] == ' ' then DropSpaces(s[1..]) else s
  }

  /** Splits off the longest prefix of digits (a greedy `\d*`). */
  function TakeDigits(s: string): (r: (string, string))
    ensures s == r.0 + r.1 && AllDigits(r.0)
    ensures r.1 == [] || !IsDigit(r.1[0])
  {
    if s != [] && IsDigit(s[0]) then
      var (d, rest) := TakeDigits(s[1..]);
      ([s[0]] + d, rest)
    else
      ([], s)
  }

  /** Splits off the longest prefix of word characters (a greedy `\w*`). */
  function TakeWord(s: string): (r: (string, string))
    ensures s == r.0 + r.1
    ensures forall i :: 0 <= i < |r.0| ==> IsWordChar(r.0[i])
    ensures r.1 == [] || !IsWordChar(r.1[0])
  {
    if s != [] && IsWordChar(s[0]) then
      var (w, rest) := TakeWord(s[1..]);
      ([s[0]] + w, rest)
    else
      ([], s)
  }

  function DigitValue(c: char): nat
    requires IsDigit(c)
  {
    (c - '0') as nat
  }

  function DigitChar(n: nat): (c: char)
    requires n < 10
    ensures IsDigit(c) && DigitValue(c) == n
  {
    ('0' as int + n) as char
  }

  /** Ruby's `String#to_i` on a string of decimal digits. */
  function DigitsValue(s: string): nat
    requires AllDigits(s)
  {
    if s == [] then 0 else DigitsValue(s[..|s| - 1]) * 10 + DigitValue(s[|s| - 1])
  }

  /** Ruby's `Integer#to_s`: decimal digits without leading zeros. */
  function NatToString(n: nat): (r: string)
    ensures r != [] && AllDigits(r)
  {
    if n < 10 then [DigitChar(n)] else NatToString(n / 10) + [DigitChar(n % 10)]
  }

  /** Ruby's `tr('/', '-')`. */
  function SlashToDash(s: string): (r: string)
    ensures |r| == |s|
    ensures forall i :: 0 <= i < |s| ==> r[i] == (if s[i] == '/' then '-' else s[i])
  {
    if s == [] then [] else [if s[0] == '/' then '-' else s[0]] + SlashToDash(s[1..])
  }

  lemma {:induction false} DigitsRoundTrip(n: nat)
    ensures DigitsValue(NatToString(n)) == n
  {
    if n >= 10 {
      var s := NatToString(n);
      assert s[..|s| - 1] == NatToString(n / 10);
      DigitsRoundTrip(n / 10);
    }
  }

  lemma {:induction false} DropSpacesAfterSpaces(n: nat, t: string)
    ensures DropSpaces(Spaces(n) + t) == DropSpaces(t)
  {
    if n > 0 {
      var s := Spaces(n) + t;
      assert s[0] == ' ' && s[1..] == Spaces(n - 1) + t;
      DropSpacesAfterSpaces(n - 1, t);
    } else {
      assert Spaces(n) + t == t;
    }
  }

  /** ` *` consumes a prefix made of spaces only. */
  lemma {:induction false} DropSpacesSplit(s: string)
    ensures s == Spaces(|s| - |DropSpaces(s)|) + DropSpaces(s)
  {
    if s != [] && s[0] == ' ' {
      DropSpacesSplit(s[1..]);
      assert s == [' '] + s[1..];
    } else {
      assert Spaces(0) + s == s;
    }
  }

  /** Text that ` *` consumes entirely is spaces only. */
  lemma SpacesOnly(s: string)
    requires DropSpaces(s) == []
    ensures s == Spaces(|s|)
  {
    DropSpacesSplit(s);
    assert Spaces(|s|) + [] == Spaces(|s|);
  }

  /** Text that starts with a space loses at least that space to ` *`. */
  lemma LeadingSpaceDropped(s: string)
    requires s != [] && s[0] == ' '
    ensures |s| - |DropSpaces(s)| >= 1
  {
  }

  lemma AllSpacesDropped(c: nat)
    ensures DropSpaces(Spaces(c)) == []
  {
    DropSpacesAfterSpaces(c, []);
    assert Spaces(c) + [] == Spaces(c);
  }

  lemma DropSpacesNoSpace(t: string)
    requires t == [] || t[0] != ' '
    ensures DropSpaces(t) == t
  {
  }

  /** ` *` followed by text that does not start with a space leaves exactly that text. */
  lemma DropSpacesPadded(n: nat, t: string)
    requires t == [] || t[0] != ' '
    ensures DropSpaces(Spaces(n) + t) == t
  {
    DropSpacesAfterSpaces(n, t);
  }

  lemma {:induction false} TakeDigitsSplit(d: string, t: string)
    requires AllDigits(d)
    requires t == [] || !IsDigit(t[0])
    ensures TakeDigits(d + t) == (d, t)
  {
    if d != [] {
      var s := d + t;
      assert s[0] == d[0] && s[1..] == d[1..] + t;
      TakeDigitsSplit(d[1..], t);
      assert [d[0]] + d[1..] == d;
    } else {
      assert d + t == t;
    }
  }

  /** The text before a non-space suffix is all spaces, so it is `Spaces` of its length. */
  lemma SpacesOfLength(s: string)
    requires AllSpaces(s)
    ensures s == Spaces(|s|)
  {
    var r := Spaces(|s|);
    assert forall i :: 0 <= i < |s| ==> s[i] == r[i];
  }

  /** Regrouping a concatenation to the right, for the scanners that peel off a prefix. */
  lemma Regroup5(p1: string, p2: string, p3: string, p4: string, p5: string)
    ensures p1 + p2 + p3 + p4 + p5 == p1 + (p2 + (p3 + (p4 + p5)))
  {
  }

  lemma SpacesNotDigit(n: nat)
    ensures Spaces(n) == [] || !IsDigit(Spaces(n)[0])
  {
  }

  lemma FirstOfPrefix(p: string, q: string)
    requires p != []
    ensures (p + q)[0] == p[0]
  {
  }
}
