// The two patterns an atom is matched against, `atom_regex` and
// `atom_wildcard_regex`, as a grammar: captured parts, the text they spell,
// and scanners that compute the leftmost-first match.  The package name is a
// lazy repetition, so among all ways to read a text the one with the shortest
// package name is the match; everything else about a reading is then forced.
module AtomGrammar {
  import opened Wrappers
  import opened Text

  // ----- VER: [0-9]+(\.[0-9]+)*[a-z]?(_(pre|p|beta|alpha|rc)[0-9]*)* -----

  predicate IsDigits(s: string) {
    s != "" && AllIn(Digit, s)
  }

  predicate IsVersion(s: string) {
    var (d, t) := Cut(Digit, s);
    d != "" && VersionDots(t)
  }

  predicate VersionDots(t: string)
    decreases |t|
  {
    var u := Strip(t, ".");
    if u.None? then VersionLetter(t)
    else
      var (d, v) := Cut(Digit, u.value);
      assert |u.value| == |d| + |v|;
      d != "" && VersionDots(v)
  }

  predicate VersionLetter(t: string) {
    if t != "" && IsLower(t[0]) then VersionSuffixes(t[1..]) else VersionSuffixes(t)
  }

  predicate VersionSuffixes(t: string)
    decreases |t|
  {
    t == "" ||
    var u := Strip(t, "_");
    u.Some? &&
    var (name, v) := Cut(Letter, u.value);
    var (d, w) := Cut(Digit, v);
    assert |u.value| == |name| + |v| && |v| == |d| + |w|;
    name in {"pre", "p", "beta", "alpha", "rc"} && VersionSuffixes(w)
  }

  // ----- The parts of a version -----

  lemma NumberStep(s: string) returns (d: string, t: string)
    requires IsVersion(s)
    ensures s == d + t && d != "" && AllIn(Digit, d) && VersionDots(t)
  {
    hide VersionDots;
    d, t := Cut(Digit, s).0, Cut(Digit, s).1;
  }

  lemma DotStep(t: string) returns (d: string, v: string)
    requires VersionDots(t) && Strip(t, ".").Some?
    ensures t == "." + (d + v) && |v| < |t| && d != "" && AllIn(Digit, d) && VersionDots(v)
  {
    hide VersionLetter;
    var u := Strip(t, ".").value;
    d, v := Cut(Digit, u).0, Cut(Digit, u).1;
  }

  lemma LetterStep(t: string) returns (letter: string, w: string)
    requires VersionDots(t) && Strip(t, ".").None?
    ensures t == letter + w && |letter| <= 1 && AllIn(Letter, letter) && VersionSuffixes(w)
  {
    hide VersionSuffixes;
    letter, w := if t != "" && IsLower(t[0]) then t[..1] else "", if t != "" && IsLower(t[0]) then t[1..] else t;
  }

  lemma SuffixStep(t: string) returns (name: string, d: string, w: string)
    requires VersionSuffixes(t) && t != ""
    ensures t == "_" + (name + (d + w)) && |w| < |t|
    ensures name != "" && AllIn(Letter, name) && AllIn(Digit, d) && VersionSuffixes(w)
    ensures w == "" || w[0] == '_'
  {
    var u := Strip(t, "_").value;
    var v := Cut(Letter, u).1;
    name, d, w := Cut(Letter, u).0, Cut(Digit, v).0, Cut(Digit, v).1;
    assert |u| == |name| + |v| && |v| == |d| + |w|;
  }

  lemma VersionMarks()
    ensures AllIn(VerChar, "") && AllIn(VerChar, ".") && AllIn(VerChar, "_")
  {
  }

  lemma AllInWiden(s: string, a: CharClass, b: CharClass)
    requires AllIn(a, s)
    requires (a.Digit? && b.VerChar?) || (a.Letter? && b.VerChar?)
    ensures AllIn(b, s)
  {
  }

  lemma {:induction false} SuffixesChars(t: string)
    requires VersionSuffixes(t)
    ensures AllIn(VerChar, t)
    decreases |t|
  {
    hide *;
    VersionMarks();
    if t == "" {
    } else {
      var name, d, w := SuffixStep(t);
      SuffixesChars(w);
      AllInWiden(name, Letter, VerChar);
      AllInWiden(d, Digit, VerChar);
      AllInConcat(VerChar, d, w);
      AllInConcat(VerChar, name, d + w);
      AllInConcat(VerChar, "_", name + (d + w));
    }
  }

  lemma {:induction false} DotsChars(t: string)
    requires VersionDots(t)
    ensures AllIn(VerChar, t)
    decreases |t|
  {
    hide *;
    VersionMarks();
    if Strip(t, ".").Some? {
      var d, v := DotStep(t);
      DotsChars(v);
      AllInWiden(d, Digit, VerChar);
      AllInConcat(VerChar, d, v);
      AllInConcat(VerChar, ".", d + v);
    } else {
      var letter, w := LetterStep(t);
      SuffixesChars(w);
      AllInWiden(letter, Letter, VerChar);
      AllInConcat(VerChar, letter, w);
    }
  }

  // A version starts with a digit and has no dash, star, colon or bracket.
  lemma VersionChars(s: string)
    requires IsVersion(s)
    ensures s != "" && IsDigit(s[0]) && AllIn(VerChar, s)
  {
    hide VersionDots, IsVersion;
    var d, t := NumberStep(s);
    DotsChars(t);
    AllInWiden(d, Digit, VerChar);
    AllInConcat(VerChar, d, t);
    assert s[0] == d[0];
  }

  lemma DigitsAreVersion(s: string)
    requires IsDigits(s)
    ensures IsVersion(s)
  {
    CutOf(Digit, s, "");
    assert s + "" == s;
  }

  // ----- What a version is, part by part -----

  function DotsText(numbers: seq<string>): string {
    if numbers == [] then "" else "." + (numbers[0] + DotsText(numbers[1..]))
  }

  function SuffixesText(names: seq<string>, counts: seq<string>): string
    requires |names| == |counts|
  {
    if names == [] then "" else "_" + (names[0] + (counts[0] + SuffixesText(names[1..], counts[1..])))
  }

  ghost predicate AreDigits(numbers: seq<string>) {
    forall i | 0 <= i < |numbers| :: IsDigits(numbers[i])
  }

  ghost predicate AreSuffixes(names: seq<string>, counts: seq<string>) {
    && |names| == |counts|
    && forall i | 0 <= i < |names| ::
         (names[i] == "pre" || names[i] == "p" || names[i] == "beta" || names[i] == "alpha" || names[i] == "rc")
         && AllIn(Digit, counts[i])
  }

  // A number, more numbers after dots, a letter or none, and named suffixes
  // with a count or none.
  ghost predicate VersionForm(s: string, first: string, numbers: seq<string>, letter: string, names: seq<string>,
                              counts: seq<string>) {
    && IsDigits(first) && AreDigits(numbers) && AreSuffixes(names, counts)
    && (letter == "" || (|letter| == 1 && letter[0] in LETTERS))
    && s == first + (DotsText(numbers) + (letter + SuffixesText(names, counts)))
  }

  lemma VersionExactly(s: string)
    ensures IsVersion(s) <==>
      exists first, numbers, letter, names, counts :: VersionForm(s, first, numbers, letter, names, counts)
  {
    hide *;
    if IsVersion(s) {
      var first, t := NumberStep(s);
      var numbers, letter, names, counts := DotsParts(t);
      IntroVersion(s, first, numbers, letter, names, counts);
    }
    if first, numbers, letter, names, counts :| VersionForm(s, first, numbers, letter, names, counts) {
      VersionOf(s, first, numbers, letter, names, counts);
    }
  }

  lemma IntroVersion(s: string, first: string, numbers: seq<string>, letter: string, names: seq<string>,
                     counts: seq<string>)
    requires first != "" && AllIn(Digit, first) && AreDigits(numbers) && AreSuffixes(names, counts)
    requires letter == "" || (|letter| == 1 && letter[0] in LETTERS)
    requires s == first + (DotsText(numbers) + (letter + SuffixesText(names, counts)))
    ensures VersionForm(s, first, numbers, letter, names, counts)
  {
    hide AllIn, LETTERS, DotsText, SuffixesText, AreDigits, AreSuffixes;
  }

  lemma {:induction false} SuffixesParts(t: string) returns (names: seq<string>, counts: seq<string>)
    requires VersionSuffixes(t)
    ensures AreSuffixes(names, counts) && t == SuffixesText(names, counts)
    decreases |t|
  {
    hide *;
    NoSuffixes();
    names, counts := [], [];
    if t != "" {
      var name, d, w := SuffixStep(t);
      SuffixName(t, name, d, w);
      names, counts := SuffixesParts(w);
      SuffixAhead(name, d, names, counts);
      names, counts := [name] + names, [d] + counts;
    }
  }

  lemma NoSuffixes()
    ensures AreSuffixes([], []) && SuffixesText([], []) == "" && AreDigits([]) && DotsText([]) == ""
  {
  }

  lemma SuffixAhead(name: string, d: string, names: seq<string>, counts: seq<string>)
    requires AreSuffixes(names, counts) && AllIn(Digit, d) && name in {"pre", "p", "beta", "alpha", "rc"}
    ensures AreSuffixes([name] + names, [d] + counts)
    ensures SuffixesText([name] + names, [d] + counts) == "_" + (name + (d + SuffixesText(names, counts)))
  {
    hide AllIn;
    assert ([name] + names)[1..] == names && ([d] + counts)[1..] == counts;
  }

  lemma SuffixName(t: string, name: string, d: string, w: string)
    requires VersionSuffixes(t) && t == "_" + (name + (d + w)) && AllIn(Letter, name) && AllIn(Digit, d)
    requires w == "" || w[0] == '_'
    ensures name in {"pre", "p", "beta", "alpha", "rc"}
  {
    StripOf("_", name + (d + w));
    DigitsAfter(d, w);
    CutOf(Letter, name, d + w);
    hide AllIn, Cut;
  }

  // What follows the letters of a suffix is no letter.
  lemma DigitsAfter(d: string, w: string)
    requires AllIn(Digit, d) && (w == "" || w[0] == '_')
    ensures d + w == "" || (!Has(Letter, (d + w)[0]) && (w == "" || !Has(Digit, w[0])))
  {
    ConcatFirst(d, w);
  }

  lemma {:induction false} DotsParts(t: string)
    returns (numbers: seq<string>, letter: string, names: seq<string>, counts: seq<string>)
    requires VersionDots(t)
    ensures AreDigits(numbers) && AreSuffixes(names, counts)
    ensures letter == "" || (|letter| == 1 && letter[0] in LETTERS)
    ensures t == DotsText(numbers) + (letter + SuffixesText(names, counts))
    decreases |t|
  {
    hide *;
    NoSuffixes();
    numbers := [];
    if Strip(t, ".").Some? {
      var d, v := DotStep(t);
      numbers, letter, names, counts := DotsParts(v);
      SameSuffixes(names, counts);
      DotAhead(d, numbers, letter + SuffixesText(names, counts));
      numbers := [d] + numbers;
    } else {
      var w;
      letter, w := LetterStep(t);
      OneLetter(letter);
      names, counts := SuffixesParts(w);
      Assoc("", "", t);
    }
  }

  lemma SameSuffixes(names: seq<string>, counts: seq<string>)
    requires AreSuffixes(names, counts)
    ensures |names| == |counts|
  {
    hide AllIn;
  }

  lemma OneLetter(letter: string)
    requires |letter| <= 1 && AllIn(Letter, letter)
    ensures letter == "" || (|letter| == 1 && letter[0] in LETTERS)
  {
    hide LETTERS;
    if letter != "" {
      LettersMembers(letter[0]);
      assert Has(Letter, letter[0]);
    }
  }

  lemma DotAhead(d: string, numbers: seq<string>, rest: string)
    requires d != "" && AllIn(Digit, d) && AreDigits(numbers)
    ensures AreDigits([d] + numbers)
    ensures "." + (d + (DotsText(numbers) + rest)) == DotsText([d] + numbers) + rest
  {
    hide AllIn;
    assert ([d] + numbers)[1..] == numbers;
    Assoc(d, DotsText(numbers), rest);
    Assoc(".", d + DotsText(numbers), rest);
  }

  lemma {:induction false} SuffixesOf(names: seq<string>, counts: seq<string>)
    requires AreSuffixes(names, counts)
    ensures VersionSuffixes(SuffixesText(names, counts))
    ensures SuffixesText(names, counts) == "" || SuffixesText(names, counts)[0] == '_'
    decreases |names|
  {
    hide *;
    NoSuffixes();
    SameSuffixes(names, counts);
    if names == [] {
      assert counts == [];
      SuffixesNone();
    } else {
      var name, d, w := names[0], counts[0], SuffixesText(names[1..], counts[1..]);
      FirstSuffix(names, counts);
      SuffixesOf(names[1..], counts[1..]);
      SuffixRead(name, d, w);
    }
  }

  lemma SuffixesNone()
    ensures VersionSuffixes("")
  {
  }

  lemma FirstSuffix(names: seq<string>, counts: seq<string>)
    requires AreSuffixes(names, counts) && names != []
    ensures |counts| == |names| && AreSuffixes(names[1..], counts[1..])
    ensures names[0] in {"pre", "p", "beta", "alpha", "rc"} && AllIn(Digit, counts[0])
    ensures SuffixesText(names, counts) == "_" + (names[0] + (counts[0] + SuffixesText(names[1..], counts[1..])))
  {
    hide AllIn;
  }

  lemma SuffixRead(name: string, d: string, w: string)
    requires name in {"pre", "p", "beta", "alpha", "rc"} && AllIn(Digit, d)
    requires VersionSuffixes(w) && (w == "" || w[0] == '_')
    ensures var t := "_" + (name + (d + w)); VersionSuffixes(t) && t[0] == '_'
  {
    DigitsAfter(d, w);
    NameLetters(name);
    StripOf("_", name + (d + w));
    CutOf(Letter, name, d + w);
    CutOf(Digit, d, w);
    hide AllIn, Cut;
  }

  lemma NameLetters(name: string)
    requires name in {"pre", "p", "beta", "alpha", "rc"}
    ensures AllIn(Letter, name)
  {
  }

  lemma LetterOf(letter: string, t: string)
    requires letter == "" || (|letter| == 1 && letter[0] in LETTERS)
    requires VersionSuffixes(t) && (t == "" || t[0] == '_')
    ensures VersionDots(letter + t) && (letter + t == "" || !Has(Digit, (letter + t)[0]))
  {
    hide VersionSuffixes, LETTERS;
    ConcatFirst(letter, t);
    if letter != "" {
      LettersMembers(letter[0]);
      assert letter[1..] == "" && "" + t == t;
    }
  }

  lemma {:induction false} DotsOf(numbers: seq<string>, rest: string)
    requires AreDigits(numbers) && VersionDots(rest) && (rest == "" || !Has(Digit, rest[0]))
    ensures var t := DotsText(numbers) + rest; VersionDots(t) && (t == "" || !Has(Digit, t[0]))
    decreases |numbers|
  {
    if numbers == [] {
      Assoc("", "", rest);
    } else {
      var d, more := numbers[0], DotsText(numbers[1..]) + rest;
      DotsOf(numbers[1..], rest);
      Assoc(d, DotsText(numbers[1..]), rest);
      Assoc(".", d + DotsText(numbers[1..]), rest);
      StripOf(".", d + more);
      assert IsDigits(d);
      CutOf(Digit, d, more);
      hide Cut, AllIn, VersionLetter;
    }
  }

  lemma VersionOf(s: string, first: string, numbers: seq<string>, letter: string, names: seq<string>,
                  counts: seq<string>)
    requires VersionForm(s, first, numbers, letter, names, counts)
    ensures IsVersion(s)
  {
    hide AllIn, VersionDots, VersionSuffixes, DotsText, SuffixesText, AreDigits, LETTERS, Cut;
    SuffixesOf(names, counts);
    LetterOf(letter, SuffixesText(names, counts));
    var t := DotsText(numbers) + (letter + SuffixesText(names, counts));
    DotsOf(numbers, letter + SuffixesText(names, counts));
    CutOf(Digit, first, t);
  }

  // ----- What the names are, character by character -----

  ghost predicate LetterOr(signs: string, c: char) {
    c in LETTERS || c in CAPITALS || c in DIGITS || c in signs
  }

  // A first character, then any number of others.
  ghost predicate Spelt(first: string, others: string, s: string) {
    s != "" && LetterOr(first, s[0]) && forall i | 0 < i < |s| :: LetterOr(others, s[i])
  }

  lemma NameForms(s: string)
    ensures IsCat(s) <==> Spelt("_", "_+.-", s)
    ensures IsPkg(s) <==> Spelt("_", "_+-", s)
    ensures IsExtCat(s) <==> Spelt("_+*", "_+.*-", s)
    ensures IsExtPkg(s) <==> Spelt("_+*", "_+*-", s)
    ensures IsSlot(s) <==> Spelt("_", "_+.-", s)
    ensures IsRepo(s) <==> Spelt("_", "_-", s)
    ensures IsFlag(s) <==> Spelt("", "_+@-", s)
    ensures IsStarVersion(s) <==>
      |s| > 2 && s[0] == '*' && s[|s| - 1] == '*' && forall i | 0 < i < |s| - 1 :: LetterOr("_", s[i])
  {
    hide Has, LetterOr, IsName, Spelt, ClassForms, IsStarVersion, IsCat, IsPkg, IsExtCat, IsExtPkg, IsSlot, IsRepo,
      IsFlag;
    forall c ensures ClassForms(c) {
      ClassLetters(c);
    }
    NameForm(Word, NameTail, "_", "_+.-", s);
    NameForm(Word, PkgTail, "_", "_+-", s);
    NameForm(ExtHead, ExtCatTail, "_+*", "_+.*-", s);
    NameForm(ExtHead, ExtPkgTail, "_+*", "_+*-", s);
    NameForm(Word, RepoTail, "_", "_-", s);
    NameForm(Alnum, FlagTail, "", "_+@-", s);
    NameCases(s);
    StarForm(s);
  }

  // What is known of each class of a name.
  ghost predicate ClassForms(c: char) {
    && (Has(Word, c) <==> LetterOr("_", c)) && (Has(NameTail, c) <==> LetterOr("_+.-", c))
    && (Has(PkgTail, c) <==> LetterOr("_+-", c)) && (Has(RepoTail, c) <==> LetterOr("_-", c))
    && (Has(Alnum, c) <==> LetterOr("", c)) && (Has(FlagTail, c) <==> LetterOr("_+@-", c))
    && (Has(ExtHead, c) <==> LetterOr("_+*", c)) && (Has(ExtCatTail, c) <==> LetterOr("_+.*-", c))
    && (Has(ExtPkgTail, c) <==> LetterOr("_+*-", c))
  }

  ghost predicate IsPattern(head: CharClass, tail: CharClass, first: string, others: string) {
    || (head.Word? && first == "_" &&
         ((tail.NameTail? && others == "_+.-") || (tail.PkgTail? && others == "_+-")
           || (tail.RepoTail? && others == "_-")))
    || (head.ExtHead? && first == "_+*" &&
         ((tail.ExtCatTail? && others == "_+.*-") || (tail.ExtPkgTail? && others == "_+*-")))
    || (head.Alnum? && first == "" && tail.FlagTail? && others == "_+@-")
  }

  lemma NameForm(head: CharClass, tail: CharClass, first: string, others: string, s: string)
    requires IsPattern(head, tail, first, others) && forall c :: ClassForms(c)
    ensures IsName(head, tail, s) <==> Spelt(first, others, s)
  {
    hide LetterOr, Has;
    forall i | 0 <= i < |s|
      ensures Has(head, s[i]) <==> LetterOr(first, s[i])
      ensures Has(tail, s[i]) <==> LetterOr(others, s[i])
      ensures Has(head, s[i]) ==> Has(tail, s[i])
    {
      assert ClassForms(s[i]);
      HeadInTail(head, tail, first, others, s[i]);
    }
  }

  lemma HeadInTail(head: CharClass, tail: CharClass, first: string, others: string, c: char)
    requires IsPattern(head, tail, first, others)
    ensures Has(head, c) ==> Has(tail, c)
  {
    hide IsAlnum;
  }

  lemma NameCases(s: string)
    ensures IsCat(s) <==> IsName(Word, NameTail, s)
    ensures IsPkg(s) <==> IsName(Word, PkgTail, s)
    ensures IsExtCat(s) <==> IsName(ExtHead, ExtCatTail, s)
    ensures IsExtPkg(s) <==> IsName(ExtHead, ExtPkgTail, s)
    ensures IsSlot(s) <==> IsName(Word, NameTail, s)
    ensures IsRepo(s) <==> IsName(Word, RepoTail, s)
    ensures IsFlag(s) <==> IsName(Alnum, FlagTail, s)
  {
    hide IsName;
  }

  lemma StarForm(s: string)
    requires forall c :: ClassForms(c)
    ensures IsStarVersion(s) <==>
      |s| > 2 && s[0] == '*' && s[|s| - 1] == '*' && forall i | 0 < i < |s| - 1 :: LetterOr("_", s[i])
  {
    hide LetterOr, Has;
    forall i | 0 <= i < |s| ensures Has(Word, s[i]) <==> LetterOr("_", s[i]) {
      assert ClassForms(s[i]);
    }
    if |s| > 2 {
      assert forall i | 0 < i < |s| - 1 :: s[1..|s| - 1][i - 1] == s[i];
    }
  }

  lemma ClassLetters(c: char)
    ensures ClassForms(c)
  {
    ClassMembers(c);
    hide Has, LETTERS, CAPITALS, DIGITS;
  }

  // ----- Versions at the end of a name -----

  // `VER(-rN)?`; for the wildcard `=cat/pkg-*x*` form, `ver` is `*x*`.
  datatype Vr = Vr(ver: string, rev: Option<string>)

  // Which alternative of which pattern.
  datatype Kind =
    | Versioned   // op cat/pkg(-VER(-rN)?)?-VER(-rN)?*?
    | Bare        // cat/pkg(-VER(-rN)?)?
    | Simple      // the same with wildcards
    | Star        // =cat/pkg-*x*
    | Plain       // cat/pkg-VER(-rN)?, the candidates' pattern

  // `pkg`, the build-id tail's version, and the (outer or ambiguous) version.
  datatype Split3 = Split3(pkg: string, tail: Option<Vr>, vr: Option<Vr>)

  predicate IsCat(s: string) { IsName(Word, NameTail, s) }

  predicate IsPkg(s: string) { IsName(Word, PkgTail, s) }

  predicate IsExtCat(s: string) { IsName(ExtHead, ExtCatTail, s) }

  predicate IsExtPkg(s: string) { IsName(ExtHead, ExtPkgTail, s) }

  predicate IsWildKind(kind: Kind) {
    kind.Simple? || kind.Star?
  }

  predicate CatOk(kind: Kind, s: string) {
    if IsWildKind(kind) then IsExtCat(s) else IsCat(s)
  }

  predicate PkgOk(kind: Kind, s: string) {
    if IsWildKind(kind) then IsExtPkg(s) else IsPkg(s)
  }

  // `\*[A-Za-z0-9_]+\*`
  predicate IsStarVersion(s: string) {
    |s| >= 3 && s[0] == '*' && s[|s| - 1] == '*' && AllIn(Word, s[1..|s| - 1])
  }

  predicate ValidVr(v: Vr) {
    IsVersion(v.ver) && (v.rev.Some? ==> IsDigits(v.rev.value))
  }

  predicate ValidSplit(kind: Kind, x: Split3) {
    && PkgOk(kind, x.pkg)
    && match kind
       case Versioned => (x.tail.Some? ==> ValidVr(x.tail.value)) && x.vr.Some? && ValidVr(x.vr.value)
       case Plain => x.tail.None? && x.vr.Some? && ValidVr(x.vr.value)
       case Star => x.tail.None? && x.vr.Some? && IsStarVersion(x.vr.value.ver) && x.vr.value.rev.None?
       case _ => x.tail.None? && (x.vr.Some? ==> ValidVr(x.vr.value))
  }

  function RevText(rev: Option<string>): string {
    if rev.Some? then "-r" + rev.value else ""
  }

  function VrText(v: Option<Vr>): string {
    if v.Some? then "-" + (v.value.ver + RevText(v.value.rev)) else ""
  }

  function SplitText(x: Split3): string {
    x.pkg + (VrText(x.tail) + VrText(x.vr))
  }

  // ----- The same at the level of dash-separated segments -----

  function VrSegments(v: Option<Vr>): seq<string> {
    if v.None? then []
    else if v.value.rev.None? then [v.value.ver]
    else [v.value.ver, "r" + v.value.rev.value]
  }

  function RevOf(seg: string): Option<string> {
    var r := Strip(seg, "r");
    if r.Some? && IsDigits(r.value) then r else None
  }

  // One `VER(-rN)?`.
  function DecodeVr(segs: seq<string>): Option<Vr> {
    if |segs| == 1 && IsVersion(segs[0]) then Some(Vr(segs[0], None))
    else if |segs| == 2 && IsVersion(segs[0]) && RevOf(segs[1]).Some? then Some(Vr(segs[0], RevOf(segs[1])))
    else None
  }

  // What may follow the package name; the number of segments of the last
  // version is decided by whether the last segment is a revision.
  function Decode(kind: Kind, segs: seq<string>): Option<(Option<Vr>, Option<Vr>)> {
    match kind
    case Versioned =>
      if segs == [] then None
      else
        var n := if RevOf(segs[|segs| - 1]).Some? then 2 else 1;
        if |segs| < n then None
        else
          var vr := DecodeVr(segs[|segs| - n..]);
          var front := segs[..|segs| - n];
          var tail := DecodeVr(front);
          if vr.None? then None
          else if front == [] then Some((None, vr))
          else if tail.None? then None
          else Some((tail, vr))
    case Plain =>
      if DecodeVr(segs).Some? then Some((None, DecodeVr(segs))) else None
    case Star =>
      if |segs| == 1 && IsStarVersion(segs[0]) then Some((None, Some(Vr(segs[0], None)))) else None
    case _ =>
      if segs == [] then Some((None, None))
      else if DecodeVr(segs).Some? then Some((None, DecodeVr(segs)))
      else None
  }

  lemma RevOfRevision(rev: string)
    requires IsDigits(rev)
    ensures RevOf("r" + rev) == Some(rev)
  {
    StripOf("r", rev);
  }

  lemma VersionIsNoRevision(ver: string)
    requires IsVersion(ver) || IsStarVersion(ver)
    ensures RevOf(ver) == None
  {
    if IsVersion(ver) {
      VersionChars(ver);
    }
  }

  lemma DecodedVr(segs: seq<string>)
    requires DecodeVr(segs).Some?
    ensures ValidVr(DecodeVr(segs).value) && VrSegments(DecodeVr(segs)) == segs
  {
    hide IsVersion, IsDigits, RevOf;
    if |segs| == 2 {
      RevisionSegment(segs[1]);
    }
  }

  lemma RevisionSegment(seg: string)
    requires RevOf(seg).Some?
    ensures IsDigits(RevOf(seg).value) && seg == "r" + RevOf(seg).value
  {
    hide IsDigits;
  }

  lemma EncodedVr(v: Vr)
    requires ValidVr(v)
    ensures DecodeVr(VrSegments(Some(v))) == Some(v)
    ensures RevOf(VrSegments(Some(v))[|VrSegments(Some(v))| - 1]).Some? <==> v.rev.Some?
  {
    VersionIsNoRevision(v.ver);
    if v.rev.Some? {
      RevOfRevision(v.rev.value);
    }
  }

  function RestSegments(x: Split3): seq<string> {
    VrSegments(x.tail) + VrSegments(x.vr)
  }

  lemma Decoded(kind: Kind, segs: seq<string>, pkg: string)
    requires Decode(kind, segs).Some? && PkgOk(kind, pkg)
    ensures var x := Split3(pkg, Decode(kind, segs).value.0, Decode(kind, segs).value.1);
      ValidSplit(kind, x) && RestSegments(x) == segs
  {
    hide IsVersion, RevOf, IsPkg, IsExtPkg;
    if kind.Versioned? {
      var n := if RevOf(segs[|segs| - 1]).Some? then 2 else 1;
      var front, back := segs[..|segs| - n], segs[|segs| - n..];
      assert segs == front + back;
      DecodedVr(back);
      if front != [] {
        DecodedVr(front);
      }
    } else if kind.Star? {
    } else if segs != [] {
      DecodedVr(segs);
    }
  }

  lemma Encoded(kind: Kind, x: Split3)
    requires ValidSplit(kind, x)
    ensures Decode(kind, RestSegments(x)) == Some((x.tail, x.vr))
  {
    hide IsVersion, RevOf, DecodeVr, VrSegments, IsPkg, IsExtPkg;
    NoVrSegments();
    Assoc([], [], VrSegments(x.vr));
    if kind.Versioned? {
      EncodedVersioned(x.tail, x.vr.value);
    } else if kind.Star? {
      OneSegment(x.vr.value);
    } else if x.vr.Some? {
      EncodedVr(x.vr.value);
      SegmentCount(x.vr.value);
    }
  }

  lemma NoVrSegments()
    ensures VrSegments(None) == []
  {
  }

  lemma OneSegment(v: Vr)
    requires v.rev.None?
    ensures VrSegments(Some(v)) == [v.ver]
  {
  }

  lemma SegmentCount(v: Vr)
    ensures |VrSegments(Some(v))| == if v.rev.Some? then 2 else 1
  {
  }

  lemma EncodedVersioned(tail: Option<Vr>, vr: Vr)
    requires ValidVr(vr) && (tail.Some? ==> ValidVr(tail.value))
    ensures Decode(Versioned, VrSegments(tail) + VrSegments(Some(vr))) == Some((tail, Some(vr)))
  {
    hide *;
    var front, back := VrSegments(tail), VrSegments(Some(vr));
    SegmentCount(vr);
    EncodedVr(vr);
    NoVrSegments();
    if tail.Some? {
      SegmentCount(tail.value);
      EncodedVr(tail.value);
    }
    ConcatLast(front, back);
    ConcatCut(front, back);
    DecodeVersioned(front + back, front, back);
  }

  lemma DecodeVersioned(segs: seq<string>, front: seq<string>, back: seq<string>)
    requires segs == front + back && back != [] && |back| == if RevOf(back[|back| - 1]).Some? then 2 else 1
    requires DecodeVr(back).Some? && (front != [] ==> DecodeVr(front).Some?)
    ensures Decode(Versioned, segs) == Some((if front == [] then None else DecodeVr(front), DecodeVr(back)))
  {
    hide RevOf, DecodeVr;
    ConcatLast(front, back);
    ConcatCut(front, back);
  }

  // ----- The lazy package name -----

  // The shortest package name, counted in dash-separated segments from `j` up,
  // after which the rest can be read.
  function LazyFrom(kind: Kind, segs: seq<string>, j: nat): (r: Option<nat>)
    requires 1 <= j
    ensures r.Some? ==> j <= r.value <= |segs| && Fits(kind, segs, r.value)
    ensures r.Some? ==> forall i | j <= i < r.value :: !Fits(kind, segs, i)
    ensures r.None? ==> forall i | j <= i <= |segs| :: !Fits(kind, segs, i)
    decreases |segs| + 1 - j
  {
    hide Fits;
    if j > |segs| then None
    else if Fits(kind, segs, j) then Some(j)
    else LazyFrom(kind, segs, j + 1)
  }

  predicate Fits(kind: Kind, segs: seq<string>, j: nat)
    requires j <= |segs|
  {
    PkgOk(kind, Join(segs[..j], '-')) && Decode(kind, segs[j..]).Some?
  }

  function SplitName(kind: Kind, w: string): Option<Split3> {
    var segs := Split(w, '-');
    var j := LazyFrom(kind, segs, 1);
    if j.None? then None
    else
      var d := Decode(kind, segs[j.value..]).value;
      Some(Split3(Join(segs[..j.value], '-'), d.0, d.1))
  }

  ghost predicate ReadsName(kind: Kind, w: string, x: Split3) {
    ValidSplit(kind, x) && SplitText(x) == w
  }

  lemma NoDash(kind: Kind, x: Split3)
    requires ValidSplit(kind, x)
    ensures x.tail.Some? ==> NoDashIn(x.tail.value)
    ensures x.vr.Some? ==> NoDashIn(x.vr.value)
  {
    if x.tail.Some? {
      VersionNoDash(x.tail.value);
    }
    if x.vr.Some? && !kind.Star? {
      VersionNoDash(x.vr.value);
    }
    if kind.Star? {
      var v := x.vr.value.ver;
      assert forall i | 1 <= i < |v| - 1 :: v[i] == v[1..|v| - 1][i - 1];
    }
  }

  ghost predicate NoDashIn(v: Vr) {
    '-' !in v.ver && (v.rev.Some? ==> '-' !in v.rev.value)
  }

  lemma VersionNoDash(v: Vr)
    requires ValidVr(v)
    ensures NoDashIn(v)
  {
    hide IsVersion, AllIn;
    VersionChars(v.ver);
    CharNotIn(VerChar, v.ver, '-');
    if v.rev.Some? {
      CharNotIn(Digit, v.rev.value, '-');
    }
  }

  lemma CharNotIn(cl: CharClass, s: string, c: char)
    requires AllIn(cl, s) && !Has(cl, c)
    ensures c !in s
  {
    hide Has;
  }

  // Appending a version to a name appends its segments.
  lemma SplitAppendVr(a: string, v: Option<Vr>)
    requires v.Some? ==> NoDashIn(v.value)
    ensures Split(a + VrText(v), '-') == Split(a, '-') + VrSegments(v)
  {
    hide *;
    if v.None? {
      NoVrText();
      NoSegments(Split(a, '-'));
      assert a + "" == a;
    } else {
      var ver, rev := v.value.ver, v.value.rev;
      VrCases(v.value);
      SplitNone(ver, '-');
      SplitConcat(a, ver, '-');
      if rev.None? {
        assert a + VrText(v) == a + ['-'] + ver;
      } else {
        var r := "r" + rev.value;
        SplitNone(r, '-');
        assert a + VrText(v) == a + ['-'] + ver + ['-'] + r;
        SplitConcat(a + ['-'] + ver, r, '-');
        assert Split(a, '-') + [ver] + [r] == Split(a, '-') + [ver, r];
      }
    }
  }

  lemma VrCases(v: Vr)
    ensures NoDashIn(v) ==> '-' !in v.ver && (v.rev.Some? ==> '-' !in "r" + v.rev.value)
    ensures v.rev.None? ==> VrText(Some(v)) == ['-'] + v.ver && VrSegments(Some(v)) == [v.ver]
    ensures v.rev.Some? ==>
      && VrText(Some(v)) == ['-'] + (v.ver + (['-'] + ("r" + v.rev.value)))
      && VrSegments(Some(v)) == [v.ver, "r" + v.rev.value]
    ensures VrSegments(None) == []
  {
    if v.rev.None? {
      assert v.ver + "" == v.ver;
    } else {
      assert "-r" + v.rev.value == ['-'] + ("r" + v.rev.value);
    }
  }

  lemma SplitOfReading(kind: Kind, w: string, x: Split3)
    requires ReadsName(kind, w, x)
    ensures Split(w, '-') == Split(x.pkg, '-') + RestSegments(x)
  {
    NoDash(kind, x);
    hide *;
    SplitTextAssoc(x);
    SplitAppendVr(x.pkg, x.tail);
    SplitAppendVr(x.pkg + VrText(x.tail), x.vr);
    RestAssoc(Split(x.pkg, '-'), x);
  }

  lemma SplitTextAssoc(x: Split3)
    ensures SplitText(x) == x.pkg + VrText(x.tail) + VrText(x.vr)
  {
  }

  lemma RestAssoc(a: seq<string>, x: Split3)
    ensures a + VrSegments(x.tail) + VrSegments(x.vr) == a + RestSegments(x)
  {
  }

  // The converse: the segments of a reading join back to its text.
  lemma JoinOfReading(kind: Kind, w: string, x: Split3, a: seq<string>)
    requires ValidSplit(kind, x) && a != []
    requires Split(w, '-') == a + RestSegments(x) && x.pkg == Join(a, '-')
    ensures SplitText(x) == w
  {
    hide *;
    NoDash(kind, x);
    JoinSplit(w, '-');
    JoinAppendVr(a, x.tail);
    JoinAppendVr(a + VrSegments(x.tail), x.vr);
    RestAssoc(a, x);
    SplitTextAssoc(x);
  }

  lemma JoinSegments(v: Vr)
    ensures VrSegments(Some(v)) != []
    ensures ['-'] + Join(VrSegments(Some(v)), '-') == VrText(Some(v))
  {
    if v.rev.Some? {
      var r := "r" + v.rev.value;
      assert Join([v.ver, r], '-') == v.ver + ['-'] + r by {
        assert [v.ver, r][1..] == [r];
      }
      assert RevText(v.rev) == ['-'] + r;
    }
  }

  lemma JoinAppendVr(a: seq<string>, v: Option<Vr>)
    requires a != []
    ensures Join(a + VrSegments(v), '-') == Join(a, '-') + VrText(v)
    ensures a + VrSegments(v) != []
  {
    if v.None? {
      assert a + VrSegments(v) == a && VrText(v) == "";
    } else {
      hide *;
      JoinSegments(v.value);
      JoinConcat(a, VrSegments(v), '-');
    }
  }

  // The scanner's answer is a reading.
  lemma SplitNameSound(kind: Kind, w: string)
    requires SplitName(kind, w).Some?
    ensures ReadsName(kind, w, SplitName(kind, w).value)
  {
    hide *;
    var j := SplitNamePosition(kind, w);
    var segs := Split(w, '-');
    var x := SplitName(kind, w).value;
    Decoded(kind, segs[j..], x.pkg);
    assert segs == segs[..j] + segs[j..];
    JoinOfReading(kind, w, x, segs[..j]);
    IntroReads(kind, w, x);
  }

  lemma IntroReads(kind: Kind, w: string, x: Split3)
    requires ValidSplit(kind, x) && SplitText(x) == w
    ensures ReadsName(kind, w, x)
  {
  }

  // Where the scanner stopped: no shorter package name fits.
  lemma SplitNamePosition(kind: Kind, w: string) returns (j: nat)
    requires SplitName(kind, w).Some?
    ensures var segs, x := Split(w, '-'), SplitName(kind, w).value;
      && 1 <= j <= |segs|
      && PkgOk(kind, x.pkg) && x.pkg == Join(segs[..j], '-')
      && Decode(kind, segs[j..]) == Some((x.tail, x.vr))
      && forall i | 1 <= i < j :: !Fits(kind, segs, i)
  {
    j := LazyFrom(kind, Split(w, '-'), 1).value;
    assert Fits(kind, Split(w, '-'), j);
  }

  lemma SplitNameNone(kind: Kind, w: string)
    requires SplitName(kind, w).None?
    ensures forall i | 1 <= i <= |Split(w, '-')| :: !Fits(kind, Split(w, '-'), i)
  {
  }

  // Any reading sits at some segment position, where the scanner would take it.
  lemma ReadingFits(kind: Kind, w: string, y: Split3) returns (j: nat)
    requires ReadsName(kind, w, y)
    ensures var segs := Split(w, '-');
      && 1 <= j <= |segs| && Fits(kind, segs, j)
      && Join(segs[..j], '-') == y.pkg && Decode(kind, segs[j..]) == Some((y.tail, y.vr))
  {
    hide IsVersion, RevOf, DecodeVr, Decode, ValidVr;
    var segs, a := Split(w, '-'), Split(y.pkg, '-');
    SplitOfReading(kind, w, y);
    j := |a|;
    assert segs[..j] == a && segs[j..] == RestSegments(y);
    JoinSplit(y.pkg, '-');
    Encoded(kind, y);
  }

  lemma PrefixShorter(segs: seq<string>, i: nat, j: nat)
    requires 1 <= i < j <= |segs|
    ensures |Join(segs[..i], '-')| < |Join(segs[..j], '-')|
  {
    var a, b := segs[..i], segs[i..j];
    JoinConcat(a, b, '-');
    assert segs[..j] == a + b;
  }

  // Leftmost-first: the scanner's reading has the shortest package name of
  // all readings, and no other reading has that package name.
  lemma SplitNameLazy(kind: Kind, w: string, y: Split3)
    requires ReadsName(kind, w, y)
    ensures SplitName(kind, w).Some?
    ensures SplitName(kind, w).value == y || |SplitName(kind, w).value.pkg| < |y.pkg|
  {
    hide *;
    var k := ReadingFits(kind, w, y);
    if SplitName(kind, w).None? {
      SplitNameNone(kind, w);
    } else {
      var j := SplitNamePosition(kind, w);
      if j < k {
        PrefixShorter(Split(w, '-'), j, k);
      }
    }
  }

  // ----- What follows the name: `:slot/sub*=`, `::repo`, `[use]` -----

  datatype SlotPart = SlotPart(slot: Option<string>, sub: Option<string>, op: Option<char>)

  datatype Suffix = Suffix(slotpart: Option<SlotPart>, repo: Option<string>, usedeps: Option<string>)

  predicate IsSlot(s: string) { IsName(Word, NameTail, s) }

  predicate IsRepo(s: string) { IsName(Word, RepoTail, s) }

  // `\[.*\]`
  predicate IsUseText(s: string) {
    |s| >= 2 && s[0] == '[' && s[|s| - 1] == ']' && '\n' !in s
  }

  predicate ValidSlotPart(sp: SlotPart) {
    && (sp.slot.Some? ==> IsSlot(sp.slot.value))
    && (sp.sub.Some? ==> sp.slot.Some? && IsSlot(sp.sub.value))
    && (sp.op.Some? ==> sp.op.value in {'*', '='})
  }

  predicate ValidSuffix(x: Suffix) {
    && (x.slotpart.Some? ==> ValidSlotPart(x.slotpart.value))
    && (x.repo.Some? ==> IsRepo(x.repo.value))
    && (x.usedeps.Some? ==> IsUseText(x.usedeps.value))
  }

  function OptText(lead: string, s: Option<string>): string {
    if s.Some? then lead + s.value else ""
  }

  function SlotOpText(op: Option<char>): string {
    if op.Some? then [op.value] else ""
  }

  function SlotPartText(sp: SlotPart): string {
    OptText("", sp.slot) + (OptText("/", sp.sub) + SlotOpText(sp.op))
  }

  // `::repo` and the USE block.
  function TailText(x: Suffix): string {
    OptText("::", x.repo) + OptText("", x.usedeps)
  }

  function SuffixText(x: Suffix): string {
    (if x.slotpart.Some? then ":" + SlotPartText(x.slotpart.value) else "") + TailText(x)
  }

  function TakeSlotOp(t: string): (r: (Option<char>, string))
    ensures SlotOpText(r.0) + r.1 == t
    ensures r.0.Some? ==> r.0.value in {'*', '='}
  {
    if Strip(t, "*").Some? then (Some('*'), Strip(t, "*").value)
    else if Strip(t, "=").Some? then (Some('='), Strip(t, "=").value)
    else (None, t)
  }

  function TakeSub(t: string): (r: (Option<string>, string))
    ensures OptText("/", r.0) + r.1 == t
    ensures r.0.Some? ==> IsSlot(r.0.value)
  {
    var u := Strip(t, "/");
    if u.None? then (None, t)
    else
      var (sub, v) := Cut(NameTail, u.value);
      if sub != "" && Has(Word, sub[0]) then
        assert ("/" + sub) + v == "/" + (sub + v);
        (Some(sub), v)
      else (None, t)
  }

  // `((SLOT)(/(SLOT))?)?([*=])?`
  function TakeSlotPart(t: string): (SlotPart, string) {
    var (slot, u) := Cut(NameTail, t);
    if slot == "" || !Has(Word, slot[0]) then
      var (op, rest) := TakeSlotOp(t);
      (SlotPart(None, None, op), rest)
    else
      var (sub, v) := TakeSub(u);
      var (op, rest) := TakeSlotOp(v);
      (SlotPart(Some(slot), sub, op), rest)
  }

  function ParseUseText(t: string): Option<Option<string>> {
    if t == "" then Some(None) else if IsUseText(t) then Some(Some(t)) else None
  }

  // `(::REPO)?(\[.*\])?$`
  function ParseTail(t: string): Option<(Option<string>, Option<string>)> {
    var u := Strip(t, "::");
    var (repo, v) := if u.Some? then Cut(RepoTail, u.value) else ("", "");
    if repo != "" && Has(Word, repo[0]) then
      var use := ParseUseText(v);
      if use.None? then None else Some((Some(repo), use.value))
    else
      var use := ParseUseText(t);
      if use.None? then None else Some((None, use.value))
  }

  // The slot part is tried before its absence.
  function ParseSuffix(t: string): Option<Suffix> {
    var u := Strip(t, ":");
    var withSlot := if u.Some? then ParseTail(TakeSlotPart(u.value).1) else None;
    if withSlot.Some? then
      Some(Suffix(Some(TakeSlotPart(u.value).0), withSlot.value.0, withSlot.value.1))
    else
      var without := ParseTail(t);
      if without.None? then None else Some(Suffix(None, without.value.0, without.value.1))
  }

  lemma TakenSlotPart(t: string)
    ensures ValidSlotPart(TakeSlotPart(t).0)
    ensures SlotPartText(TakeSlotPart(t).0) + TakeSlotPart(t).1 == t
  {
    hide Cut, TakeSub, TakeSlotOp, OptText, SlotOpText;
    var (slot, u) := Cut(NameTail, t);
    if slot == "" || !Has(Word, slot[0]) {
      var (op, rest) := TakeSlotOp(t);
      NoOptText("");
      NoOptText("/");
      assert "" + ("" + SlotOpText(op)) == SlotOpText(op);
    } else {
      var (sub, v) := TakeSub(u);
      var (op, rest) := TakeSlotOp(v);
      SomeOptText("", slot);
      assert slot + (OptText("/", sub) + SlotOpText(op)) + rest == slot + (OptText("/", sub) + (SlotOpText(op) + rest));
    }
  }

  lemma NoOptText(lead: string)
    ensures OptText(lead, None) == ""
  {
  }

  lemma SomeOptText(lead: string, s: string)
    ensures OptText(lead, Some(s)) == lead + s
    ensures "" + s == s
  {
  }

  // What may follow a slot part.
  predicate EndsSlot(rest: string) {
    rest == "" || rest[0] == ':' || rest[0] == '['
  }

  lemma SlotOpOf(op: Option<char>, rest: string)
    requires op.Some? ==> op.value in {'*', '='}
    requires EndsSlot(rest)
    ensures TakeSlotOp(SlotOpText(op) + rest) == (op, rest)
    ensures var t := SlotOpText(op) + rest; t == "" || t[0] in {'*', '=', ':', '['}
  {
    var t := SlotOpText(op) + rest;
    if op.Some? {
      StripOf([op.value], rest);
    } else {
      assert t == rest;
    }
  }

  lemma SubOf(sub: Option<string>, rest: string)
    requires sub.Some? ==> IsSlot(sub.value)
    requires rest == "" || rest[0] in {'*', '=', ':', '['}
    ensures TakeSub(OptText("/", sub) + rest) == (sub, rest)
    ensures var t := OptText("/", sub) + rest; t == "" || !Has(NameTail, t[0])
  {
    var t := OptText("/", sub) + rest;
    if sub.Some? {
      assert t == "/" + (sub.value + rest);
      StripOf("/", sub.value + rest);
      CutOf(NameTail, sub.value, rest);
    } else {
      assert t == rest;
    }
  }

  lemma SlotPartOf(sp: SlotPart, rest: string)
    requires ValidSlotPart(sp) && EndsSlot(rest)
    ensures TakeSlotPart(SlotPartText(sp) + rest) == (sp, rest)
  {
    assert sp.op.Some? ==> sp.op.value in {'*', '='};
    hide *;
    var t := SlotOpText(sp.op) + rest;
    SlotOpOf(sp.op, rest);
    if sp.slot.Some? {
      var u := OptText("/", sp.sub) + t;
      SlotTextRest(sp, rest);
      SubOf(sp.sub, t);
      SlotHead(sp, u);
      TakeSlotPartCases(SlotPartText(sp) + rest);
    } else {
      NoSlotTextRest(sp, rest);
      NoSlotHead(t);
      TakeSlotPartCases(t);
    }
  }

  lemma SlotTextRest(sp: SlotPart, rest: string)
    requires ValidSlotPart(sp) && sp.slot.Some?
    ensures SlotPartText(sp) + rest == sp.slot.value + (OptText("/", sp.sub) + (SlotOpText(sp.op) + rest))
    ensures (sp.sub.Some? ==> IsSlot(sp.sub.value)) && IsSlot(sp.slot.value)
  {
    hide SlotOpText, IsSlot;
    SomeOptText("", sp.slot.value);
  }

  lemma NoSlotTextRest(sp: SlotPart, rest: string)
    requires ValidSlotPart(sp) && sp.slot.None?
    ensures sp.sub.None? && SlotPartText(sp) + rest == SlotOpText(sp.op) + rest
  {
    hide SlotOpText;
    assert SlotPartText(sp) == SlotOpText(sp.op);
  }

  lemma SlotHead(sp: SlotPart, u: string)
    requires sp.slot.Some? && IsSlot(sp.slot.value)
    requires u == "" || !Has(NameTail, u[0])
    ensures Cut(NameTail, sp.slot.value + u) == (sp.slot.value, u)
    ensures sp.slot.value != "" && Has(Word, sp.slot.value[0])
  {
    CutOf(NameTail, sp.slot.value, u);
  }

  lemma NoSlotHead(t: string)
    requires t == "" || t[0] in {'*', '=', ':', '['}
    ensures Cut(NameTail, t) == ("", t)
  {
    CutOf(NameTail, "", t);
    assert "" + t == t;
  }

  lemma TakeSlotPartCases(t: string)
    ensures var c := Cut(NameTail, t);
      if c.0 == "" || !Has(Word, c.0[0]) then
        TakeSlotPart(t) == (SlotPart(None, None, TakeSlotOp(t).0), TakeSlotOp(t).1)
      else
        var s := TakeSub(c.1);
        TakeSlotPart(t) == (SlotPart(Some(c.0), s.0, TakeSlotOp(s.1).0), TakeSlotOp(s.1).1)
  {
  }

  lemma ParsedTail(t: string, x: Suffix)
    requires ParseTail(t) == Some((x.repo, x.usedeps))
    ensures x.repo.Some? ==> IsRepo(x.repo.value)
    ensures x.usedeps.Some? ==> IsUseText(x.usedeps.value)
    ensures TailText(x) == t
  {
    hide *;
    ParseTailCases(t, x);
    if x.repo.Some? {
      RepoTextAssoc(x);
    } else {
      NoRepoText(x);
    }
  }

  lemma ParseTailCases(t: string, x: Suffix)
    requires ParseTail(t) == Some((x.repo, x.usedeps))
    ensures x.repo.Some? ==> IsRepo(x.repo.value) && t == "::" + (x.repo.value + OptText("", x.usedeps))
    ensures x.repo.None? ==> t == OptText("", x.usedeps)
    ensures x.usedeps.Some? ==> IsUseText(x.usedeps.value)
  {
    hide Cut, IsUseText, ParseUseText, OptText;
    var u := Strip(t, "::");
    var (repo, v) := if u.Some? then Cut(RepoTail, u.value) else ("", "");
    ParsedUseText(t);
    ParsedUseText(v);
  }

  lemma ParsedUseText(t: string)
    ensures var u := ParseUseText(t);
      u.Some? ==> (u.value.Some? ==> IsUseText(u.value.value)) && OptText("", u.value) == t
  {
    hide IsUseText;
    if t != "" {
      assert "" + t == t;
    }
  }

  lemma RepoTextAssoc(x: Suffix)
    requires x.repo.Some?
    ensures TailText(x) == "::" + (x.repo.value + OptText("", x.usedeps))
  {
  }

  lemma NoRepoText(x: Suffix)
    requires x.repo.None?
    ensures TailText(x) == OptText("", x.usedeps)
  {
  }

  lemma UseTextOf(u: Option<string>)
    requires u.Some? ==> IsUseText(u.value)
    ensures ParseUseText(OptText("", u)) == Some(u)
    ensures OptText("", u) == "" || OptText("", u)[0] == '['
  {
    if u.Some? {
      assert OptText("", u) == u.value;
    }
  }

  lemma TailOf(x: Suffix)
    requires x.repo.Some? ==> IsRepo(x.repo.value)
    requires x.usedeps.Some? ==> IsUseText(x.usedeps.value)
    ensures ParseTail(TailText(x)) == Some((x.repo, x.usedeps))
    ensures EndsSlot(TailText(x))
  {
    hide *;
    var use := OptText("", x.usedeps);
    UseTextOf(x.usedeps);
    if x.repo.Some? {
      RepoTextAssoc(x);
      RepoTailOf(x.repo.value, use);
    } else {
      NoRepoText(x);
      NoRepoTail(use);
    }
  }

  lemma RepoTailOf(repo: string, use: string)
    requires IsRepo(repo) && (use == "" || use[0] == '[') && ParseUseText(use).Some?
    ensures var t := "::" + (repo + use);
      ParseTail(t) == Some((Some(repo), ParseUseText(use).value)) && EndsSlot(t)
  {
    hide Cut, IsUseText, ParseUseText, Strip;
    StripOf("::", repo + use);
    CutOf(RepoTail, repo, use);
  }

  lemma NoRepoTail(use: string)
    requires (use == "" || use[0] == '[') && ParseUseText(use).Some?
    ensures ParseTail(use) == Some((None, ParseUseText(use).value)) && EndsSlot(use)
  {
    hide ParseUseText;
  }

  // A lone `:` before a repository is not the start of one.
  lemma NotATail(x: Suffix)
    requires x.repo.Some? && IsRepo(x.repo.value)
    ensures StartsWith(TailText(x), ":")
    ensures ParseTail(TakeSlotPart(Strip(TailText(x), ":").value).1) == None
  {
    hide *;
    var rest := x.repo.value + OptText("", x.usedeps);
    RepoTextAssoc(x);
    Assoc(":", ":", rest);
    assert "::" == ":" + ":";
    StripOf(":", ":" + rest);
    RepoStart(x.repo.value);
    ConcatFirst(x.repo.value, OptText("", x.usedeps));
    ColonStart(":" + rest);
    LoneColon(rest);
  }

  lemma RepoStart(repo: string)
    requires IsRepo(repo)
    ensures repo != "" && repo[0] != ':'
  {
  }

  lemma ColonStart(t: string)
    ensures StartsWith(":" + t, ":")
  {
  }

  // A single colon is neither part of a slot nor the start of a tail.
  lemma LoneColon(rest: string)
    requires rest != "" && rest[0] != ':'
    ensures TakeSlotPart(":" + rest) == (SlotPart(None, None, None), ":" + rest)
    ensures ParseTail(":" + rest) == None
  {
    hide Cut;
    var t := ":" + rest;
    CutOf(NameTail, "", t);
    assert "" + t == t;
    assert t[1] == rest[0];
  }

  // The suffix grammar is unambiguous: the scanner inverts the printer.
  lemma SuffixRoundTrip(t: string, x: Suffix)
    ensures ParseSuffix(t) == Some(x) <==> ValidSuffix(x) && SuffixText(x) == t
  {
    if ParseSuffix(t) == Some(x) {
      ParsedSuffix(t, x);
    }
    if ValidSuffix(x) && SuffixText(x) == t {
      PrintedSuffix(x);
    }
  }

  lemma ParsedSuffix(t: string, x: Suffix)
    requires ParseSuffix(t) == Some(x)
    ensures ValidSuffix(x) && SuffixText(x) == t
  {
    hide TakeSlotPart, ParseTail, IsSlot, IsRepo, IsUseText, ValidSlotPart;
    var u := Strip(t, ":");
    if x.slotpart.Some? {
      TakenSlotPart(u.value);
      var rest := TakeSlotPart(u.value).1;
      ParsedTail(rest, x);
      assert ":" + SlotPartText(x.slotpart.value) + rest == ":" + (SlotPartText(x.slotpart.value) + rest);
    } else {
      ParsedTail(t, x);
      assert "" + TailText(x) == TailText(x);
    }
  }

  lemma PrintedSuffix(x: Suffix)
    requires ValidSuffix(x)
    ensures ParseSuffix(SuffixText(x)) == Some(x)
  {
    TailOf(x);
    var t := SuffixText(x);
    hide TakeSlotPart, ParseTail, IsSlot, IsRepo, IsUseText, ValidSlotPart;
    if x.slotpart.Some? {
      var sp := x.slotpart.value;
      assert t == ":" + (SlotPartText(sp) + TailText(x));
      StripOf(":", SlotPartText(sp) + TailText(x));
      SlotPartOf(sp, TailText(x));
    } else {
      assert t == TailText(x);
      if x.repo.Some? {
        NotATail(x);
      } else {
        assert !StartsWith(t, ":");
      }
    }
  }

  // ----- How far readings of one text can differ -----

  // The last version of a segment list is determined by the list.
  lemma SameVr(a: seq<string>, v: Vr, b: seq<string>, u: Vr)
    requires ValidVr(v) && ValidVr(u)
    requires a + VrSegments(Some(v)) == b + VrSegments(Some(u))
    ensures v == u && a == b
  {
    hide ValidVr, IsVersion, IsDigits, RevOf, DecodeVr;
    EncodedVr(v);
    EncodedVr(u);
    var s, t := VrSegments(Some(v)), VrSegments(Some(u));
    var segs := a + s;
    assert segs[|segs| - 1] == s[|s| - 1] && segs[|segs| - 1] == t[|t| - 1];
    assert |s| == |t| && |a| == |b|;
    assert segs[..|a|] == a && segs[..|a|] == b;
    assert segs[|a|] == s[0] && segs[|a|] == t[0];
    if v.rev.Some? {
      assert v.rev.value == s[1][1..] && u.rev.value == t[1][1..];
    }
  }

  // A name that ends in `-VER` or `-VER-rN`.
  ghost predicate EndsLikeVersion(pkg: string) {
    exists front, v | ExtendsTo(pkg, front, v) :: true
  }

  ghost predicate ExtendsTo(pkg: string, front: string, v: Vr) {
    IsPkg(front) && ValidVr(v) && pkg == front + VrText(Some(v))
  }

  lemma FrontsAsText(p: string, q: string, v: Option<Vr>)
    requires Split(p, '-') == Split(q, '-') + VrSegments(v)
    ensures p == q + VrText(v)
  {
    hide *;
    JoinSplit(p, '-');
    JoinSplit(q, '-');
    JoinAppendVr(Split(q, '-'), v);
  }

  lemma SplitInjective(p: string, q: string)
    requires Split(p, '-') == Split(q, '-')
    ensures p == q
  {
    JoinSplit(p, '-');
    JoinSplit(q, '-');
  }

  // Two readings of one versioned name have the same last version, and the
  // end of the longer package name is the shorter one's build-id tail.
  lemma VersionedReadings(w: string, x: Split3, y: Split3)
    requires ReadsName(Versioned, w, x) && ReadsName(Versioned, w, y)
    ensures x.vr == y.vr
    ensures x == y
         || (x.tail.Some? && y.tail.None? && ExtendsTo(y.pkg, x.pkg, x.tail.value))
         || (y.tail.Some? && x.tail.None? && ExtendsTo(x.pkg, y.pkg, y.tail.value))
  {
    hide *;
    VersionedParts(w, x);
    VersionedParts(w, y);
    var a, b := Split(x.pkg, '-') + VrSegments(x.tail), Split(y.pkg, '-') + VrSegments(y.tail);
    SameVr(a, x.vr.value, b, y.vr.value);
    if x.tail.Some? && y.tail.Some? {
      SameVr(Split(x.pkg, '-'), x.tail.value, Split(y.pkg, '-'), y.tail.value);
      SplitInjective(x.pkg, y.pkg);
    } else if x.tail.Some? {
      NoSegments(Split(y.pkg, '-'));
      FrontsAsText(y.pkg, x.pkg, x.tail);
      IntroExtends(y.pkg, x.pkg, x.tail.value);
    } else if y.tail.Some? {
      NoSegments(Split(x.pkg, '-'));
      FrontsAsText(x.pkg, y.pkg, y.tail);
      IntroExtends(x.pkg, y.pkg, y.tail.value);
    } else {
      NoSegments(Split(x.pkg, '-'));
      NoSegments(Split(y.pkg, '-'));
      SplitInjective(x.pkg, y.pkg);
    }
  }

  lemma NoSegments(a: seq<string>)
    ensures a + VrSegments(None) == a
  {
  }

  lemma IntroExtends(pkg: string, front: string, v: Vr)
    requires IsPkg(front) && ValidVr(v) && pkg == front + VrText(Some(v))
    ensures ExtendsTo(pkg, front, v) && EndsLikeVersion(pkg)
  {
    assert ExtendsTo(pkg, front, v);
  }

  lemma VersionedParts(w: string, x: Split3)
    requires ReadsName(Versioned, w, x)
    ensures IsPkg(x.pkg) && x.vr.Some? && ValidVr(x.vr.value) && (x.tail.Some? ==> ValidVr(x.tail.value))
    ensures Split(w, '-') == Split(x.pkg, '-') + VrSegments(x.tail) + VrSegments(x.vr)
  {
    SplitOfReading(Versioned, w, x);
    RestAssoc(Split(x.pkg, '-'), x);
  }

  lemma PlainParts(kind: Kind, w: string, x: Split3)
    requires (kind.Plain? || kind.Bare?) && ReadsName(kind, w, x)
    ensures IsPkg(x.pkg) && x.tail.None? && (x.vr.Some? ==> ValidVr(x.vr.value)) && (kind.Plain? ==> x.vr.Some?)
    ensures Split(w, '-') == Split(x.pkg, '-') + VrSegments(x.vr)
  {
    SplitOfReading(kind, w, x);
    RestAssoc(Split(x.pkg, '-'), x);
    NoSegments(Split(x.pkg, '-'));
  }

  // A candidate's name has exactly one reading.
  lemma PlainReadings(w: string, x: Split3, y: Split3)
    requires ReadsName(Plain, w, x) && ReadsName(Plain, w, y)
    ensures x == y
  {
    hide *;
    PlainParts(Plain, w, x);
    PlainParts(Plain, w, y);
    SameVr(Split(x.pkg, '-'), x.vr.value, Split(y.pkg, '-'), y.vr.value);
    SplitInjective(x.pkg, y.pkg);
  }

  // The scanner takes a versioned reading as written when it has a build-id
  // tail, or when its package name does not end like a version; and a name
  // without a tail that ends like a version is never what the scanner returns.
  lemma VersionedCanonical(w: string, x: Split3)
    requires ReadsName(Versioned, w, x)
    ensures SplitName(Versioned, w) == Some(x) <==> x.tail.Some? || !EndsLikeVersion(x.pkg)
  {
    hide ReadsName, SplitName;
    SplitNameLazy(Versioned, w, x);
    SplitNameSound(Versioned, w);
    var r := SplitName(Versioned, w).value;
    VersionedReadings(w, r, x);
    LongerPackages(r.pkg, x.pkg);
    if r == x && x.tail.None? && EndsLikeVersion(x.pkg) {
      var front, v :| ExtendsTo(x.pkg, front, v);
      ShorterReading(w, x, front, v);
    }
    assert r != x ==> x.tail.None? && r.tail.Some? && ExtendsTo(x.pkg, r.pkg, r.tail.value);
  }

  lemma LongerPackages(p: string, q: string)
    ensures forall v | ExtendsTo(p, q, v) :: |q| < |p|
  {
  }

  lemma LongerPackage(p: string, q: string, v: Vr)
    requires ExtendsTo(p, q, v)
    ensures |q| < |p|
  {
  }

  lemma ShorterReading(w: string, x: Split3, front: string, v: Vr)
    requires ReadsName(Versioned, w, x) && x.tail.None? && ExtendsTo(x.pkg, front, v)
    ensures SplitName(Versioned, w) != Some(x)
  {
    var y := Split3(front, Some(v), x.vr);
    MoveToTail(x, y);
    SplitNameLazy(Versioned, w, y);
    LongerPackage(x.pkg, front, v);
    hide ExtendsTo, ReadsName, SplitName;
  }

  lemma MoveToTail(x: Split3, y: Split3)
    requires x.tail.None? && y.tail.Some? && x.vr == y.vr && x.pkg == y.pkg + VrText(y.tail)
    ensures SplitText(x) == SplitText(y)
  {
    hide VrText;
    NoVrText();
    SplitTextAssoc(x);
    SplitTextAssoc(y);
    assert x.pkg + "" == x.pkg;
  }

  lemma NoVrText()
    ensures VrText(None) == ""
  {
  }

  // The same for a bare name: it is read whole unless it ends like a version.
  lemma BareCanonical(w: string)
    requires IsPkg(w)
    ensures SplitName(Bare, w).Some?
    ensures SplitName(Bare, w) == Some(Split3(w, None, None)) <==> !EndsLikeVersion(w)
    ensures SplitName(Bare, w).value.vr.None? <==> !EndsLikeVersion(w)
  {
    var x := Split3(w, None, None);
    assert SplitText(x) == w;
    SplitNameLazy(Bare, w, x);
    SplitNameSound(Bare, w);
    var r := SplitName(Bare, w).value;
    PlainParts(Bare, w, r);
    hide ReadsName, SplitName, SplitText;
    if r.vr.Some? {
      FrontsAsText(w, r.pkg, r.vr);
      IntroExtends(w, r.pkg, r.vr.value);
    } else {
      NoSegments(Split(r.pkg, '-'));
      SplitInjective(w, r.pkg);
      if EndsLikeVersion(w) {
        var front, v :| ExtendsTo(w, front, v);
        ShorterBare(w, front, v);
      }
    }
  }

  lemma ShorterBare(w: string, front: string, v: Vr)
    requires ExtendsTo(w, front, v)
    ensures SplitName(Bare, w) != Some(Split3(w, None, None))
  {
    var y := Split3(front, None, Some(v));
    assert SplitText(y) == w by {
      hide VrText;
      NoVrText();
      assert "" + VrText(Some(v)) == VrText(Some(v));
    }
    SplitNameLazy(Bare, w, y);
    LongerPackage(w, front, v);
    hide ExtendsTo, ReadsName, SplitName;
  }

  // A starred name has one reading: the version follows the last dash.
  lemma StarReadings(w: string, x: Split3, y: Split3)
    requires ReadsName(Star, w, x) && ReadsName(Star, w, y)
    ensures x == y
  {
    hide *;
    StarParts(w, x);
    StarParts(w, y);
    var a, b := Split(x.pkg, '-'), Split(y.pkg, '-');
    SnocEqual(a, x.vr.value.ver, b, y.vr.value.ver);
    SplitInjective(x.pkg, y.pkg);
  }

  lemma StarParts(w: string, x: Split3)
    requires ReadsName(Star, w, x)
    ensures x.tail.None? && x.vr.Some? && x.vr.value.rev.None?
    ensures Split(w, '-') == Split(x.pkg, '-') + [x.vr.value.ver]
  {
    hide Split;
    SplitOfReading(Star, w, x);
    assert RestSegments(x) == [x.vr.value.ver];
  }

  lemma SnocEqual(a: seq<string>, x: string, b: seq<string>, y: string)
    requires a + [x] == b + [y]
    ensures a == b && x == y
  {
    assert |a + [x]| == |b + [y]|;
    assert (a + [x])[|a|] == x && (b + [y])[|b|] == y;
    assert (a + [x])[..|a|] == a && (b + [y])[..|b|] == b;
  }

  lemma StarCanonical(w: string, x: Split3)
    requires ReadsName(Star, w, x)
    ensures SplitName(Star, w) == Some(x)
  {
    hide ReadsName, SplitName;
    SplitNameLazy(Star, w, x);
    SplitNameSound(Star, w);
    StarReadings(w, SplitName(Star, w).value, x);
  }
}
