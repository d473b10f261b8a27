// Candidates `cat/pkg-ver[-rN][:slot[/sub]][::repo]` and the test of one
// candidate against one atom.  The version order is a parameter.
module Candidates {
  import opened Wrappers
  import opened Text
  import opened Eapi
  import opened AtomParser
  import opened AtomExact
  import G = AtomGrammar
  import P = AtomPatterns
  import CpGlob
  import opened VersionGlob

  datatype Candidate = Candidate(
    category: string,
    package: string,
    version: string,
    revision: Option<string>,
    slot: Option<string>,
    subSlot: Option<string>,
    repo: Option<string>,
    buildId: Option<string>)

  // `parse_candidate` without its cache.
  function ParseCandidate(s: string): Option<Candidate> {
    var caps := P.Scan(G.Plain, "", s);
    if caps.None? || caps.value.split.vr.None? then None else Some(FromCaps(caps.value))
  }

  function FromCaps(c: P.Caps): Candidate
    requires c.split.vr.Some?
  {
    var sp := c.suffix.slotpart;
    Candidate(c.cat, c.split.pkg, c.split.vr.value.ver, c.split.vr.value.rev,
              if sp.Some? then sp.value.slot else None, if sp.Some? then sp.value.sub else None,
              c.suffix.repo, None)
  }

  function CandidateText(c: Candidate): string {
    c.category + ("/" + (c.package + ("-" + (c.version + G.RevText(c.revision)) +
      ((if c.slot.Some? then ":" + (c.slot.value + G.OptText("/", c.subSlot)) else "") + G.OptText("::", c.repo)))))
  }

  predicate WellFormed(c: Candidate) {
    && G.IsCat(c.category) && G.IsPkg(c.package)
    && G.ValidVr(G.Vr(c.version, c.revision))
    && (c.slot.Some? ==> G.IsSlot(c.slot.value))
    && (c.subSlot.Some? ==> c.slot.Some? && G.IsSlot(c.subSlot.value))
    && (c.repo.Some? ==> G.IsRepo(c.repo.value))
    && c.buildId.None?
  }

  // ----- A candidate has exactly one reading -----

  function SlotPartOf(c: Candidate): Option<G.SlotPart> {
    if c.slot.Some? then Some(G.SlotPart(c.slot, c.subSlot, None)) else None
  }

  function CapsOf(c: Candidate): P.Caps {
    P.Caps(G.Plain, "", c.category, G.Split3(c.package, None, Some(G.Vr(c.version, c.revision))), false,
           G.Suffix(SlotPartOf(c), c.repo, None))
  }

  lemma CapsOfCandidate(c: Candidate)
    requires WellFormed(c)
    ensures P.ValidCaps(CapsOf(c)) && FromCaps(CapsOf(c)) == c
  {
    hide G.IsVersion;
  }

  lemma CandidateOfCaps(x: P.Caps)
    requires P.ValidCaps(x) && x.kind.Plain?
    ensures x.split.vr.Some? && WellFormed(FromCaps(x)) && CapsOf(FromCaps(x)) == x
  {
    hide G.IsVersion;
  }

  lemma CandidateTexts(c: Candidate)
    requires c.slot.None? ==> c.subSlot.None?
    ensures P.BodyText(CapsOf(c)) == CandidateText(c)
  {
    hide G.SplitText, G.SuffixText, G.RevText, G.OptText;
    NameTexts(c);
    SuffixTexts(c);
    var w, t := G.SplitText(CapsOf(c).split), G.SuffixText(CapsOf(c).suffix);
    var v := "-" + (c.version + G.RevText(c.revision));
    Regroup(c.package, v, t);
    assert P.GlobText(false) + t == t;
  }

  lemma NameTexts(c: Candidate)
    ensures G.SplitText(CapsOf(c).split) == c.package + ("-" + (c.version + G.RevText(c.revision)))
  {
    hide G.RevText;
    var v := "-" + (c.version + G.RevText(c.revision));
    assert "" + v == v;
  }

  lemma SuffixTexts(c: Candidate)
    requires c.slot.None? ==> c.subSlot.None?
    ensures G.SuffixText(CapsOf(c).suffix) ==
      (if c.slot.Some? then ":" + (c.slot.value + G.OptText("/", c.subSlot)) else "") + G.OptText("::", c.repo)
  {
    var r := G.OptText("::", c.repo);
    assert r + "" == r;
    if c.slot.Some? {
      var sub := G.OptText("/", c.subSlot);
      assert "" + c.slot.value == c.slot.value && sub + "" == sub;
    }
  }

  lemma Regroup(p: string, v: string, t: string)
    ensures p + v + t == p + (v + t)
  {
  }

  // For every text and candidate: the text parses to the candidate exactly
  // when the candidate is well-formed and spells that text.
  lemma CandidateExactly(s: string, c: Candidate)
    ensures ParseCandidate(s) == Some(c) <==> WellFormed(c) && CandidateText(c) == s
  {
    if ParseCandidate(s) == Some(c) {
      var x := P.Scan(G.Plain, "", s).value;
      P.ScanSound(G.Plain, "", s);
      hide *;
      P.ScannedKind(G.Plain, "", s);
      CandidateOfCaps(x);
      ParseCases(s);
      SlotOfWellFormed(c);
      CandidateTexts(c);
    }
    if WellFormed(c) && CandidateText(c) == s {
      CandidateParses(c);
    }
  }

  lemma ParseCases(s: string)
    ensures var caps := P.Scan(G.Plain, "", s);
      ParseCandidate(s) == if caps.None? || caps.value.split.vr.None? then None else Some(FromCaps(caps.value))
  {
    hide P.Scan;
  }

  lemma SlotOfWellFormed(c: Candidate)
    requires WellFormed(c)
    ensures c.slot.None? ==> c.subSlot.None?
  {
  }

  lemma CandidateParses(c: Candidate)
    requires WellFormed(c)
    ensures ParseCandidate(CandidateText(c)) == Some(c)
  {
    hide *;
    var x := CapsOf(c);
    CapsOfCandidate(c);
    SlotOfWellFormed(c);
    CandidateTexts(c);
    P.ScanOf(x);
    P.ScanFirst(x);
    PlainWhole(c);
    ParseCases(CandidateText(c));
  }

  // The lazy name leaves a candidate's package name whole.
  lemma PlainWhole(c: Candidate)
    requires WellFormed(c)
    ensures var x := CapsOf(c).split; G.SplitName(G.Plain, G.SplitText(x)) == Some(x)
    ensures CapsOf(c).(split := CapsOf(c).split) == CapsOf(c) && CapsOf(c).kind == G.Plain && CapsOf(c).op == ""
    ensures CapsOf(c).split.vr.Some?
  {
    hide G.SplitText, G.IsPkg, G.ValidVr, G.SplitName, G.ReadsName;
    CapsOfCandidate(c);
    var x, w := CapsOf(c).split, G.SplitText(CapsOf(c).split);
    G.IntroReads(G.Plain, w, x);
    G.SplitNameLazy(G.Plain, w, x);
    G.SplitNameSound(G.Plain, w);
    G.PlainReadings(w, G.SplitName(G.Plain, w).value, x);
  }

  // ----- Testing one candidate against one atom -----

  // The version comparison lives elsewhere; nothing is assumed about it here.
  type VersionOrder = (string, string) -> Option<int>

  function FullVersion(version: string, revision: Option<string>): string {
    version + G.RevText(revision)
  }

  // What the matcher's `unwrap` and `expect` calls rely on.
  predicate Testable(a: Atom) {
    && (a.operator != NoOperator ==> a.version.Some?)
    && (a.operator == EqGlob && a.extended ==> G.IsStarVersion(a.version.value))
  }

  predicate MatchesVersion(a: Atom, c: Candidate, vercmp: VersionOrder)
    requires Testable(a)
  {
    match a.operator
    case NoOperator => true
    case Eq =>
      if a.buildId.Some? && a.buildId != c.buildId then false
      else vercmp(FullVersion(c.version, c.revision), FullVersion(a.version.value, a.revision)) == Some(0)
    case EqGlob =>
      if a.extended then
        var star := a.version.value;
        Contains(FullVersion(c.version, c.revision), star[1..|star| - 1])
      else
        PrefixMatches(GlobCompareString(a.version.value, a.revision), GlobCompareString(c.version, c.revision))
    case Tilde => c.version == a.version.value
    case _ => Ordered(a.operator, vercmp(FullVersion(c.version, c.revision), FullVersion(a.version.value, a.revision)))
  }

  // The four order operators, given how the candidate compares to the atom.
  predicate Ordered(op: Operator, cmp: Option<int>) {
    cmp.Some? &&
    match op
    case Gt => cmp.value > 0
    case Ge => cmp.value >= 0
    case Lt => cmp.value < 0
    case _ => cmp.value <= 0
  }

  predicate MatchesSlot(a: Atom, c: Candidate) {
    if a.slot.None? || c.slot.None? then true
    else c.slot == a.slot && (a.subSlot.Some? ==> c.subSlot == a.subSlot)
  }

  predicate MatchesRepo(a: Atom, c: Candidate) {
    a.repo.None? || c.repo.None? || c.repo == a.repo || c.repo == Some("__unknown__")
  }

  predicate MatchesCp(a: Atom, c: Candidate) {
    || (a.category == c.category && a.package == c.package)
    || (a.extended && CpGlob.Matches(a.category + ("/" + a.package), c.category + ("/" + c.package)))
  }

  predicate CandidateHits(a: Atom, c: Candidate, vercmp: VersionOrder)
    requires Testable(a)
  {
    MatchesCp(a, c) && MatchesVersion(a, c, vercmp) && MatchesSlot(a, c) && MatchesRepo(a, c)
  }

  // The matcher never fails on an atom the parser returned.
  lemma ParsedTestable(s: string, opts: AtomOptions, e: string, a: Atom)
    requires ParseUncached(s, opts, e) == Ok(a)
    ensures Testable(a)
  {
    hide *;
    ParseExactly(s, opts, e, a);
    WellFormedCases(a, opts);
    ReadableName(a, opts);
    NameTestable(a, opts);
  }

  lemma NameTestable(a: Atom, opts: AtomOptions)
    requires WellFormedName(a, opts)
    ensures Testable(a)
  {
    hide G.EndsLikeVersion, Contains, G.IsStarVersion, G.ValidVr, G.IsCat, G.IsPkg, G.IsExtCat, G.IsExtPkg;
  }

  // Category and package are matched one by one, each by its own wildcards.
  lemma CpSeparately(s: string, opts: AtomOptions, e: string, a: Atom, c: Candidate)
    requires ParseUncached(s, opts, e) == Ok(a) && WellFormed(c)
    ensures MatchesCp(a, c) <==>
      if a.extended then CpGlob.Matches(a.category, c.category) && CpGlob.Matches(a.package, c.package)
      else a.category == c.category && a.package == c.package
  {
    hide *;
    ParseExactly(s, opts, e, a);
    NoSlashes(a, opts, c);
    CpCases(a, c);
    if a.extended {
      CpGlob.HalvesMatch(a.category, a.package, c.category, c.package);
      CpGlob.SelfMatch(a.category);
      CpGlob.SelfMatch(a.package);
    }
  }

  lemma CpCases(a: Atom, c: Candidate)
    ensures MatchesCp(a, c) <==>
      || (a.category == c.category && a.package == c.package)
      || (a.extended && CpGlob.Matches(a.category + ("/" + a.package), c.category + ("/" + c.package)))
  {
    hide CpGlob.Matches;
  }

  lemma NoSlashes(a: Atom, opts: AtomOptions, c: Candidate)
    requires AtomParser.WellFormed(a, opts) && WellFormed(c)
    ensures '/' !in a.category && '/' !in c.category
  {
    hide *;
    WellFormedCases(a, opts);
    ReadableName(a, opts);
    CategoryClass(a, opts);
    CandidateCategory(c);
    P.CatNoSlash(if a.extended then G.Simple else G.Bare, a.category);
    P.CatNoSlash(G.Bare, c.category);
  }

  lemma CategoryClass(a: Atom, opts: AtomOptions)
    requires WellFormedName(a, opts)
    ensures G.CatOk(if a.extended then G.Simple else G.Bare, a.category)
  {
    hide G.EndsLikeVersion, Contains, G.IsStarVersion, G.ValidVr, G.IsPkg, G.IsExtPkg, G.IsCat, G.IsExtCat;
  }

  lemma CandidateCategory(c: Candidate)
    requires WellFormed(c)
    ensures G.CatOk(G.Bare, c.category)
  {
    hide G.ValidVr, G.IsPkg, G.IsCat, G.IsSlot, G.IsRepo;
  }

  // ----- An `=` atom and the candidate it spells -----

  // The candidate with the atom's own fields.
  function Twin(a: Atom): Candidate
    requires a.version.Some?
  {
    Candidate(a.category, a.package, a.version.value, a.revision, a.slot, a.subSlot, a.repo, None)
  }

  lemma TwinWellFormed(a: Atom, opts: AtomOptions)
    requires AtomParser.WellFormed(a, opts) && !a.extended && a.version.Some?
    ensures WellFormed(Twin(a))
  {
    hide G.EndsLikeVersion, Contains, G.IsStarVersion, G.ValidVr, G.IsCat, G.IsPkg, MissingFeature, AllowBuildId,
      AllowRepo;
  }

  lemma TwinText(a: Atom)
    requires a.version.Some? && a.buildId.None? && a.operator != EqGlob && a.useDeps.None? && a.slotOperator.None?
    ensures AfterOperator(a) == CandidateText(Twin(a))
  {
    TwinSlot(a);
    var v := a.version.value + G.RevText(a.revision);
    assert VersionText(a) == "-" + v by {
      assert G.RevText(a.revision) + "" == G.RevText(a.revision);
    }
    hide VersionText, SlotText, G.OptText, G.RevText;
    var r := G.OptText("::", a.repo);
    assert r + "" == r;
    var t := SlotText(a) + r;
  }

  lemma TwinSlot(a: Atom)
    requires a.slotOperator.None?
    ensures SlotText(a) == if a.slot.Some? then ":" + (a.slot.value + G.OptText("/", a.subSlot)) else ""
  {
    var sub := G.OptText("/", a.subSlot);
    assert sub + "" == sub;
  }

  // The two grammars agree: dropping the blocker and the operator of a plain
  // versioned atom leaves a candidate with the same fields.
  lemma AtomSpellsCandidate(s: string, opts: AtomOptions, e: string, a: Atom)
    requires ParseUncached(s, opts, e) == Ok(a)
    requires !a.extended && a.operator !in {NoOperator, EqGlob}
    requires a.buildId.None? && a.useDeps.None? && a.slotOperator.None?
    ensures a.version.Some?
    ensures s == BlockerText(a.blocker) + (AsStr(a.operator) + CandidateText(Twin(a)))
    ensures ParseCandidate(CandidateText(Twin(a))) == Some(Twin(a))
  {
    ParsedTestable(s, opts, e, a);
    var version := a.version;
    ParseExactly(s, opts, e, a);
    assert WrittenOp(a.operator) == AsStr(a.operator);
    hide *;
    TwinWellFormed(a, opts);
    TwinText(a);
    CandidateExactly(CandidateText(Twin(a)), Twin(a));
    AtomTextParts(a);
  }

  lemma AtomTextParts(a: Atom)
    ensures AtomText(a) == BlockerText(a.blocker) + (WrittenOp(a.operator) + AfterOperator(a))
  {
    hide AfterOperator;
  }

  // And an `=` atom matches that candidate, whatever the version order is,
  // as long as the order puts a valid version equal to itself.
  lemma AtomMatchesItsCandidate(s: string, opts: AtomOptions, e: string, a: Atom, vercmp: VersionOrder)
    requires ParseUncached(s, opts, e) == Ok(a)
    requires !a.extended && a.operator == Eq && a.buildId.None? && a.useDeps.None? && a.slotOperator.None?
    requires Reflexive(vercmp)
    ensures a.version.Some? && Testable(a)
    ensures ParseCandidate(CandidateText(Twin(a))) == Some(Twin(a))
    ensures CandidateHits(a, Twin(a), vercmp)
  {
    hide *;
    AtomSpellsCandidate(s, opts, e, a);
    ParsedTestable(s, opts, e, a);
    CandidateExactly(CandidateText(Twin(a)), Twin(a));
    TwinHits(a, vercmp);
  }

  lemma TwinHits(a: Atom, vercmp: VersionOrder)
    requires Testable(a) && a.operator == Eq && a.buildId.None? && WellFormed(Twin(a)) && Reflexive(vercmp)
    ensures CandidateHits(a, Twin(a), vercmp)
  {
    assert G.ValidVr(G.Vr(Twin(a).version, Twin(a).revision));
    hide WellFormed, G.ValidVr, CpGlob.Matches, G.RevText;
  }

  ghost predicate Reflexive(vercmp: VersionOrder) {
    forall ver, rev | G.ValidVr(G.Vr(ver, rev)) :: vercmp(FullVersion(ver, rev), FullVersion(ver, rev)) == Some(0)
  }

  // The options the matcher parses its atom with.
  const MATCH_OPTIONS := AtomOptions(NoEapi, true, Some(true), None)

  // The `=` atom that spells a candidate.
  function EqAtom(c: Candidate): Atom {
    Atom(NoBlocker, Eq, c.category, c.package, Some(c.version), c.revision, c.slot, c.subSlot, None, None, c.repo,
      None, false)
  }

  // Exactly which candidates can be named by an `=` atom: the package name
  // must not end like a version, or the name is read as one with a build-id.
  lemma CandidateSpellsAtom(c: Candidate, e: string)
    requires WellFormed(c)
    ensures ParseUncached("=" + CandidateText(c), MATCH_OPTIONS, e) == Ok(EqAtom(c)) <==> !G.EndsLikeVersion(c.package)
  {
    var a := EqAtom(c);
    EqAtomWellFormed(c);
    assert Twin(a) == c;
    TwinText(a);
    assert BlockerText(NoBlocker) == "" && WrittenOp(Eq) == "=";
    hide *;
    AtomTextParts(a);
    assert "" + ("=" + CandidateText(c)) == "=" + CandidateText(c);
    ParseExactly("=" + CandidateText(c), MATCH_OPTIONS, e, a);
    EqAtomParts(c);
  }

  lemma EqAtomParts(c: Candidate)
    ensures EqAtom(c).blocker == NoBlocker && EqAtom(c).operator == Eq
  {
  }

  lemma EqAtomWellFormed(c: Candidate)
    requires WellFormed(c)
    ensures AtomParser.WellFormed(EqAtom(c), MATCH_OPTIONS) <==> !G.EndsLikeVersion(c.package)
  {
    hide G.EndsLikeVersion, Contains, G.IsStarVersion, G.ValidVr, G.IsCat, G.IsPkg, G.IsExtCat, G.IsExtPkg, G.IsSlot,
      G.IsRepo;
  }

  // ----- Exactly what a match means -----

  // Which signs of the candidate's version relative to the atom's an order
  // operator accepts.
  function Accepted(op: Operator): set<int> {
    match op
    case Eq => {0}
    case Gt => {1}
    case Ge => {0, 1}
    case Lt => {-1}
    case Le => {-1, 0}
    case _ => {}
  }

  function Sign(n: int): int {
    if n < 0 then -1 else if n == 0 then 0 else 1
  }

  ghost predicate Occurs(part: string, text: string) {
    exists before, after :: text == before + (part + after)
  }

  ghost predicate NamesHold(a: Atom, c: Candidate) {
    if a.extended then CpGlob.Denotes(a.category, c.category) && CpGlob.Denotes(a.package, c.package)
    else a.category == c.category && a.package == c.package
  }

  // With the zeros in front of both gone, the components of the one are the
  // first ones of the other.
  ghost predicate ComponentsFirst(v: G.Vr, w: G.Vr) {
    exists x, y :: ComparedAs(v, x) && ComparedAs(w, y) && Components(x) <= Components(y)
  }

  ghost predicate VersionHolds(a: Atom, c: Candidate, vercmp: VersionOrder)
    requires Testable(a)
  {
    match a.operator
    case NoOperator => true
    case Tilde => c.version == a.version.value
    case EqGlob =>
      if a.extended then Occurs(a.version.value[1..|a.version.value| - 1], FullVersion(c.version, c.revision))
      else
        ComponentsFirst(G.Vr(a.version.value, a.revision), G.Vr(c.version, c.revision))
    case _ =>
      var cmp := vercmp(FullVersion(c.version, c.revision), FullVersion(a.version.value, a.revision));
      && cmp.Some? && Sign(cmp.value) in Accepted(a.operator)
      && (a.operator == Eq && a.buildId.Some? ==> c.buildId == a.buildId)
  }

  // Where a package lives.
  datatype Place = Place(slot: string, subSlot: Option<string>, repo: string)

  // A place the candidate may have, as far as it says.
  ghost predicate CouldBe(c: Candidate, place: Place) {
    && (c.slot.Some? ==> c.slot.value == place.slot && c.subSlot == place.subSlot)
    && (c.repo.Some? && c.repo.value != "__unknown__" ==> c.repo.value == place.repo)
  }

  // A place the atom asks for.
  ghost predicate AskedFor(a: Atom, place: Place) {
    && (a.slot.Some? ==> a.slot.value == place.slot)
    && (a.subSlot.Some? ==> a.subSlot == place.subSlot)
    && (a.repo.Some? ==> a.repo.value == place.repo)
  }

  ghost predicate PlaceHolds(a: Atom, c: Candidate) {
    exists place :: CouldBe(c, place) && AskedFor(a, place)
  }

  // For every parsed atom, well-formed candidate (with or without a build-id)
  // and version order: the match holds exactly when the names denote, the
  // version relation holds, and the candidate may live where the atom asks.
  lemma HitsExactly(s: string, opts: AtomOptions, e: string, a: Atom, c: Candidate, vercmp: VersionOrder)
    requires ParseUncached(s, opts, e) == Ok(a) && WellFormed(c.(buildId := None))
    ensures Testable(a)
    ensures CandidateHits(a, c, vercmp) <==> NamesHold(a, c) && VersionHolds(a, c, vercmp) && PlaceHolds(a, c)
  {
    hide *;
    ParsedTestable(s, opts, e, a);
    ParseExactly(s, opts, e, a);
    WellFormedCases(a, opts);
    ReadableName(a, opts);
    HitsCases(a, c, vercmp);
    NamesExactly(s, opts, e, a, c);
    CandidateVersion(c);
    VersionExactly(a, opts, c, vercmp);
    SubSlotHasSlot(a, opts);
    PlaceExactly(a, c);
  }

  lemma CandidateVersion(c: Candidate)
    requires WellFormed(c.(buildId := None))
    ensures G.ValidVr(G.Vr(c.version, c.revision))
  {
    hide G.ValidVr;
  }

  lemma HitsCases(a: Atom, c: Candidate, vercmp: VersionOrder)
    requires Testable(a)
    ensures CandidateHits(a, c, vercmp) <==>
      MatchesCp(a, c) && MatchesVersion(a, c, vercmp) && MatchesSlot(a, c) && MatchesRepo(a, c)
  {
    hide MatchesCp, MatchesVersion, MatchesSlot, MatchesRepo, Testable;
  }

  lemma NamesExactly(s: string, opts: AtomOptions, e: string, a: Atom, c: Candidate)
    requires ParseUncached(s, opts, e) == Ok(a) && WellFormed(c.(buildId := None))
    ensures MatchesCp(a, c) <==> NamesHold(a, c)
  {
    var d := c.(buildId := None);
    assert MatchesCp(a, c) <==> MatchesCp(a, d) by {
      hide CpGlob.Matches, WellFormed, ParseUncached;
    }
    CpSeparately(s, opts, e, a, d);
    hide MatchesCp, ParseUncached, WellFormed;
    CpGlob.MatchesIsDenotation(a.category, c.category);
    CpGlob.MatchesIsDenotation(a.package, c.package);
    hide CpGlob.Matches, CpGlob.Denotes;
  }

  lemma VersionExactly(a: Atom, opts: AtomOptions, c: Candidate, vercmp: VersionOrder)
    requires WellFormedName(a, opts) && Testable(a) && G.ValidVr(G.Vr(c.version, c.revision))
    ensures MatchesVersion(a, c, vercmp) <==> VersionHolds(a, c, vercmp)
  {
    hide *;
    if a.operator != EqGlob {
      OrderExactly(a, c, vercmp);
    } else if a.extended {
      StarExactly(a, c, vercmp);
    } else {
      GlobVersionValid(a, opts);
      GlobExactly(a, c, vercmp);
    }
  }

  lemma OrderExactly(a: Atom, c: Candidate, vercmp: VersionOrder)
    requires Testable(a) && a.operator != EqGlob
    ensures MatchesVersion(a, c, vercmp) <==> VersionHolds(a, c, vercmp)
  {
    hide FullVersion, G.IsStarVersion;
  }

  lemma StarExactly(a: Atom, c: Candidate, vercmp: VersionOrder)
    requires Testable(a) && a.operator == EqGlob && a.extended
    ensures MatchesVersion(a, c, vercmp) <==> VersionHolds(a, c, vercmp)
  {
    OccursExactly(a.version.value[1..|a.version.value| - 1], FullVersion(c.version, c.revision));
    hide FullVersion, Contains, Occurs;
  }

  lemma GlobExactly(a: Atom, c: Candidate, vercmp: VersionOrder)
    requires Testable(a) && a.operator == EqGlob && !a.extended
    requires G.ValidVr(G.Vr(a.version.value, a.revision)) && G.ValidVr(G.Vr(c.version, c.revision))
    ensures MatchesVersion(a, c, vercmp) <==> VersionHolds(a, c, vercmp)
  {
    hide G.ValidVr, ComponentsFirst, PrefixMatches, GlobCompareString, Components, FullVersion, Contains;
    var v, w := G.Vr(a.version.value, a.revision), G.Vr(c.version, c.revision);
    GlobComparesComponents(v, w);
    ComponentsCompared(v, w);
  }

  lemma ComponentsCompared(v: G.Vr, w: G.Vr)
    requires G.ValidVr(v) && G.ValidVr(w)
    ensures Components(GlobCompareString(v.ver, v.rev)) <= Components(GlobCompareString(w.ver, w.rev)) <==>
      ComponentsFirst(v, w)
  {
    hide ComparedAs, Components, GlobCompareString;
    ComparedExactly(v, GlobCompareString(v.ver, v.rev));
    ComparedExactly(w, GlobCompareString(w.ver, w.rev));
    if x, y :| ComparedAs(v, x) && ComparedAs(w, y) && Components(x) <= Components(y) {
      ComparedExactly(v, x);
      ComparedExactly(w, y);
    }
  }

  lemma GlobVersionValid(a: Atom, opts: AtomOptions)
    requires WellFormedName(a, opts) && Testable(a) && a.operator == EqGlob && !a.extended
    ensures G.ValidVr(G.Vr(a.version.value, a.revision))
  {
    hide G.EndsLikeVersion, G.ValidVr, G.IsCat, G.IsPkg;
  }

  lemma OccursExactly(part: string, text: string)
    ensures Contains(text, part) <==> Occurs(part, text)
  {
    if Contains(text, part) {
      var i :| 0 <= i <= |text| - |part| && StartsWith(text[i..], part);
      PrefixTaken(text[i..], part);
      assert text == text[..i] + (part + text[i..][|part|..]);
    }
    if Occurs(part, text) {
      var before, after :| text == before + (part + after);
      StripOf(part, after);
      assert text[|before|..] == part + after;
    }
  }

  lemma PrefixTaken(s: string, p: string)
    requires StartsWith(s, p)
    ensures s == p + s[|p|..]
  {
  }

  lemma SubSlotHasSlot(a: Atom, opts: AtomOptions)
    requires AtomParser.WellFormed(a, opts)
    ensures a.subSlot.Some? ==> a.slot.Some?
  {
    hide WellFormedName, MissingFeature;
  }

  lemma PlaceExactly(a: Atom, c: Candidate)
    requires a.subSlot.Some? ==> a.slot.Some?
    ensures MatchesSlot(a, c) && MatchesRepo(a, c) <==> PlaceHolds(a, c)
  {
    if MatchesSlot(a, c) && MatchesRepo(a, c) {
      var slot := if c.slot.Some? then c.slot.value else if a.slot.Some? then a.slot.value else "";
      var subSlot := if c.slot.Some? then c.subSlot else a.subSlot;
      var repo := if a.repo.Some? then a.repo.value else if c.repo.Some? then c.repo.value else "";
      assert CouldBe(c, Place(slot, subSlot, repo)) && AskedFor(a, Place(slot, subSlot, repo));
    }
  }

  lemma DashSplit(u: string, r: string, v: string, s: string)
    requires '-' !in u && '-' !in v && u + r == v + s
    requires (r == "" || r[0] == '-') && (s == "" || s[0] == '-')
    ensures u == v && r == s
  {
    var x, y := u + r, v + s;
    assert r != "" ==> x[|u|] == '-';
    assert s != "" ==> y[|v|] == '-';
    assert forall i | 0 <= i < |u| :: x[i] == u[i];
    assert forall i | 0 <= i < |v| :: y[i] == v[i];
    assert |u| == |v|;
    assert x[..|u|] == u && y[..|v|] == v && x[|u|..] == r && y[|v|..] == s;
  }

  // The text handed to the order belongs to one version and revision, so an
  // order sees both; what it equates, such as a version with and without
  // `-r0`, it equates knowingly.
  lemma FullVersionInjective(v: G.Vr, w: G.Vr)
    requires G.ValidVr(v) && G.ValidVr(w)
    ensures FullVersion(v.ver, v.rev) == FullVersion(w.ver, w.rev) ==> v == w
    ensures FullVersion(v.ver, v.rev) == if v.rev.Some? then v.ver + ("-r" + v.rev.value) else v.ver
  {
    hide G.IsVersion;
    G.VersionChars(v.ver);
    G.VersionChars(w.ver);
    if FullVersion(v.ver, v.rev) == FullVersion(w.ver, w.rev) {
      DashSplit(v.ver, G.RevText(v.rev), w.ver, G.RevText(w.rev));
      assert v.rev.Some? ==> G.RevText(v.rev)[2..] == v.rev.value;
      assert w.rev.Some? ==> G.RevText(w.rev)[2..] == w.rev.value;
    }
  }
}
