/** Module titles: `parse_title`, which splits `owner/name` or `owner-name`,
    and `implement?`, which decides whether a Puppetfile entry is a Forge module. */
module Titles {
  import opened Text
  import opened Outcome

  /** One or more `\w` characters. */
  predicate IsWord(s: string) {
    s != [] && forall i :: 0 <= i < |s| ==> IsWordChar(s[i])
  }

  /** The class `[-\/]`. */
  predicate IsSeparator(c: char) { c == '/' || c == '-' }

  /** `parse_title`: `\A(\w+)[-\/](\w+)\Z` gives the owner and the module
      name; any other title raises ArgumentError. */
  function ParseTitle(title: string): (r: Result<(string, string)>)
    ensures r.Ok? ==> IsWord(r.value.0) && IsWord(r.value.1)
    ensures r.Ok? ==> |title| == |r.value.0| + 1 + |r.value.1| && IsSeparator(title[|r.value.0|])
                      && title == r.value.0 + [title[|r.value.0|]] + r.value.1
    ensures r.Err? ==> r.error == InvalidTitle(title)
  {
    var (owner, rest) := TakeWord(title);
    if owner == [] || rest == [] || !IsSeparator(rest[0]) then Err(InvalidTitle(title))
    else
      var (name, tail) := TakeWord(rest[1..]);
      if name == [] || tail != [] then Err(InvalidTitle(title))
      else
        assert rest == [rest[0]] + name;
        Ok((owner, name))
  }

  /** A separator is not a word character, so a greedy `\w+` stops in front of it. */
  lemma {:induction false} TakeWordSplit(w: string, t: string)
    requires forall i :: 0 <= i < |w| ==> IsWordChar(w[i])
    requires t == [] || !IsWordChar(t[0])
    ensures TakeWord(w + t) == (w, t)
  {
    if w != [] {
      assert (w + t)[0] == w[0] && (w + t)[1..] == w[1..] + t;
      TakeWordSplit(w[1..], t);
      assert [w[0]] + w[1..] == w;
    } else {
      assert w + t == t;
    }
  }

  /** Every `owner`, separator, `name` title is accepted, and split at the separator. */
  lemma ParseTitleAccepts(owner: string, sep: char, name: string)
    requires IsWord(owner) && IsSeparator(sep) && IsWord(name)
    ensures ParseTitle(owner + [sep] + name) == Ok((owner, name))
  {
    var rest := [sep] + name;
    assert owner + [sep] + name == owner + rest;
    TakeWordSplit(owner, rest);
    assert rest[1..] == name;
    TakeWordSplit(name, []);
    assert name + [] == name;
  }

  /** `implement?`: the unanchored `\w+[/-]\w+` finds a match somewhere in
      the name, which happens exactly when a separator sits between two word
      characters; scanned from the left. */
  function Implements(name: string): bool {
    |name| >= 3 &&
    ((IsWordChar(name[0]) && IsSeparator(name[1]) && IsWordChar(name[2])) || Implements(name[1..]))
  }

  /** The reference reading of the pattern: some separator has a word
      character on each side. */
  ghost predicate SeparatorBetweenWords(name: string) {
    exists i :: 1 <= i < |name| - 1 && IsSeparator(name[i]) && IsWordChar(name[i - 1]) && IsWordChar(name[i + 1])
  }

  /** A separator between word characters at position `i` is found by the scan. */
  lemma {:induction false} WitnessImplements(name: string, i: int)
    requires 1 <= i < |name| - 1 && IsSeparator(name[i]) && IsWordChar(name[i - 1]) && IsWordChar(name[i + 1])
    ensures Implements(name)
    decreases i
  {
    if i > 1 {
      var tail := name[1..];
      assert tail[i - 1] == name[i] && tail[i - 2] == name[i - 1] && tail[i] == name[i + 1];
      WitnessImplements(tail, i - 1);
    }
  }

  /** What the scan finds is a separator between word characters. */
  lemma {:induction false} ImplementsWitness(name: string)
    requires Implements(name)
    ensures SeparatorBetweenWords(name)
    decreases |name|
  {
    if IsWordChar(name[0]) && IsSeparator(name[1]) && IsWordChar(name[2]) {
      assert IsSeparator(name[1]) && IsWordChar(name[1 - 1]) && IsWordChar(name[1 + 1]);
    } else {
      var tail := name[1..];
      ImplementsWitness(tail);
      var j :| 1 <= j < |tail| - 1 && IsSeparator(tail[j]) && IsWordChar(tail[j - 1]) && IsWordChar(tail[j + 1]);
      ShiftedWitness(name, j);
    }
  }

  /** A separator between word characters in `name[1..]` is one in `name`. */
  lemma ShiftedWitness(name: string, j: int)
    requires |name| >= 1 && 1 <= j < |name| - 2
    requires IsSeparator(name[1..][j]) && IsWordChar(name[1..][j - 1]) && IsWordChar(name[1..][j + 1])
    ensures SeparatorBetweenWords(name)
  {
    assert IsSeparator(name[j + 1]) && IsWordChar(name[j + 1 - 1]) && IsWordChar(name[j + 1 + 1]);
  }

  lemma ImplementsMeaning(name: string)
    ensures Implements(name) <==> SeparatorBetweenWords(name)
  {
    if Implements(name) {
      ImplementsWitness(name);
    }
    if SeparatorBetweenWords(name) {
      var i :| 1 <= i < |name| - 1 && IsSeparator(name[i]) && IsWordChar(name[i - 1]) && IsWordChar(name[i + 1]);
      WitnessImplements(name, i);
    }
  }

  /** A title `parse_title` accepts is one `implement?` recognises. */
  lemma ParsedTitleImplements(title: string)
    requires ParseTitle(title).Ok?
    ensures Implements(title)
  {
    var (owner, name) := ParseTitle(title).value;
    var i := |owner|;
    assert title[i - 1] == owner[i - 1] && title[i + 1] == name[0];
    ImplementsMeaning(title);
  }

  /** A name without `/` or `-` is never a Forge module name. */
  lemma NoSeparatorNotImplemented(name: string)
    requires forall i :: 0 <= i < |name| ==> !IsSeparator(name[i])
    ensures !Implements(name)
  {
    ImplementsMeaning(name);
  }

  /** Titles that differ only in the separator name the same module once `/` becomes `-`. */
  lemma SeparatorsAgree(owner: string, name: string)
    ensures SlashToDash(owner + "/" + name) == SlashToDash(owner + "-" + name)
  {
    var a, b := SlashToDash(owner + "/" + name), SlashToDash(owner + "-" + name);
    assert forall i :: 0 <= i < |a| ==> a[i] == b[i];
  }

  lemma ExampleWords()
    ensures IsWord("branan") && IsWord("eight_hundred")
  {
  }

  /** The titles of the Puppetfile examples: `owner/name` ... */
  lemma SlashTitleExample()
    ensures ParseTitle("branan/eight_hundred") == Ok(("branan", "eight_hundred"))
    ensures Implements("branan/eight_hundred")
  {
    ExampleWords();
    ParseTitleAccepts("branan", '/', "eight_hundred");
    assert "branan" + ['/'] + "eight_hundred" == "branan/eight_hundred";
    ParsedTitleImplements("branan/eight_hundred");
  }

  /** ... and `owner-name`. */
  lemma DashTitleExample()
    ensures ParseTitle("branan-eight_hundred") == Ok(("branan", "eight_hundred"))
    ensures Implements("branan-eight_hundred")
  {
    ExampleWords();
    ParseTitleAccepts("branan", '-', "eight_hundred");
    assert "branan" + ['-'] + "eight_hundred" == "branan-eight_hundred";
    ParsedTitleImplements("branan-eight_hundred");
  }

  /** `branan!eight_hundred` is not a Forge module name. */
  lemma NotImplementedExample()
    ensures !Implements("branan!eight_hundred")
  {
    var title := "branan!eight_hundred";
    assert forall i :: 0 <= i < |title| ==> !IsSeparator(title[i]);
    NoSeparatorNotImplemented(title);
  }

  /** Nor is it a valid title: the owner `branan` is followed by `!`. */
  lemma InvalidTitleExample()
    ensures ParseTitle("branan!eight_hundred") == Err(InvalidTitle("branan!eight_hundred"))
  {
    ExampleWords();
    TakeWordSplit("branan", "!eight_hundred");
    assert "branan" + "!eight_hundred" == "branan!eight_hundred";
  }
}
