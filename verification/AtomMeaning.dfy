// What `parse_atom_with` accepts and how it refuses, told by the characters and
// words that may be written: nothing the parser is made of is used to say it.
module AtomMeaning {
  import opened Wrappers
  import opened Eapi
  import opened UseDeps
  import opened AtomParser
  import opened AtomExact
  import opened AtomLaws
  import opened AtomRefusals
  import opened Conditionals
  import C = Candidates
  import G = AtomGrammar
  import Text

  // ----- What an atom is -----

  ghost predicate IsNumber(s: string) {
    s != "" && forall i | 0 <= i < |s| :: s[i] in Text.DIGITS
  }

  ghost predicate IsVersionOf(ver: string, rev: Option<string>) {
    && (exists first, numbers, letter, names, counts :: G.VersionForm(ver, first, numbers, letter, names, counts))
    && (rev.Some? ==> IsNumber(rev.value))
  }

  // A package name that a version could be split off.
  ghost predicate ReadsOn(pkg: string) {
    exists front, ver, rev :: ReadsAs(pkg, front, ver, rev)
  }

  ghost predicate ReadsAs(pkg: string, front: string, ver: string, rev: Option<string>) {
    G.Spelt("_", "_+-", front) && IsVersionOf(ver, rev) && pkg == front + ("-" + (ver + Behind("-r", rev)))
  }

  // An optional part with what introduces it.
  function Behind(lead: string, part: Option<string>): string {
    if part.Some? then lead + part.value else ""
  }

  ghost predicate IsNamed(a: Atom, opts: AtomOptions) {
    && G.Spelt("_", "_+.-", a.category) && G.Spelt("_", "_+-", a.package)
    && (a.operator == NoOperator <==> a.version.None?)
    && (a.version.None? ==> a.revision.None? && a.buildId.None?)
    && (a.version.Some? ==> IsVersionOf(a.version.value, a.revision))
    && if a.buildId.Some? then
         && (opts.allowBuildId == Some(true) || (opts.allowBuildId.None? && opts.eapi.NoEapi?))
         && a.operator != EqGlob && IsNumber(a.buildId.value) && (|a.buildId.value| > 1 ==> a.buildId.value[0] != '0')
       else !ReadsOn(a.package)
  }

  ghost predicate IsNamedWild(a: Atom, opts: AtomOptions) {
    && opts.allowWildcard && a.revision.None? && a.buildId.None?
    && G.Spelt("_+*", "_+.*-", a.category) && G.Spelt("_+*", "_+*-", a.package)
    && !C.Occurs("**", (if a.version.Some? then "="
      else "") + (a.category + ("/" + (a.package + Behind("-", a.version)))))
    && if a.version.Some? then
         var v := a.version.value;
         && a.operator == EqGlob && |v| > 2 && v[0] == '*' && v[|v| - 1] == '*'
         && forall i | 0 < i < |v| - 1 :: G.LetterOr("_", v[i])
       else a.operator == NoOperator && !(G.Spelt("_", "_+.-", a.category) && G.Spelt("_", "_+-", a.package))
  }

  ghost predicate IsPlaced(a: Atom, opts: AtomOptions) {
    && (a.slot.Some? ==> G.Spelt("_", "_+.-", a.slot.value) && a.slotOperator != Some(AnySlot))
    && (a.subSlot.Some? ==> a.slot.Some? && G.Spelt("_", "_+.-", a.subSlot.value))
    && (a.subSlot.Some? || a.slotOperator.Some? ==> Level(opts.eapi) >= 5)
    && (a.repo.Some? ==> G.Spelt("_", "_-", a.repo.value))
    && (a.repo.Some? ==> opts.allowRepo == Some(true) || (opts.allowRepo.None? && Level(opts.eapi) >= 10))
  }

  ghost predicate IsBlock(deps: seq<UseDep>) {
    && deps != [] && (forall i | 0 <= i < |deps| :: G.Spelt("", "_+@-", deps[i].flag))
    && forall i, j | 0 <= i < j < |deps| && deps[i].flag == deps[j].flag :: deps[i].default == deps[j].default
  }

  // An atom but for the features that an EAPI may lack.
  ghost predicate CanBeRead(a: Atom, opts: AtomOptions) {
    && (if a.extended then IsNamedWild(a, opts) && a.useDeps.None? else IsNamed(a, opts))
    && IsPlaced(a, opts)
    && (a.useDeps.Some? ==> IsBlock(a.useDeps.value))
  }

  // The feature that is missing at a level, in the order of the checks.
  ghost function Lacking(a: Atom, level: nat): Option<string> {
    if level < 1 && a.slot.Some? then Some("Slot deps")
    else if level < 2 && a.useDeps.Some? then Some("Use deps")
    else if level < 4 && exists ud | ud in DepsOf(a) :: ud.default != None then Some("Use dep defaults")
    else if level < 2 && a.blocker == Strong then Some("Strong blocks")
    else None
  }

  ghost predicate IsAtom(a: Atom, opts: AtomOptions) {
    CanBeRead(a, opts) && Lacking(a, Level(opts.eapi)) == None
  }

  // ----- How it is written -----

  function Mark(b: Blocker): string {
    if b == Strong then "!!" else if b == Weak then "!" else ""
  }

  // The glob sign `*` comes after the version.
  function Sign(op: Operator): string {
    match op
    case NoOperator => ""
    case Tilde => "~"
    case Lt => "<"
    case Le => "<="
    case Gt => ">"
    case Ge => ">="
    case _ => "="
  }

  function SlotSign(op: Option<SlotOperator>): string {
    if op == Some(EqualSlot) then "=" else if op == Some(AnySlot) then "*" else ""
  }

  function DefaultSign(d: Option<UseDepDefault>): string {
    if d == Some(DefaultOff) then "(-)" else if d == Some(DefaultOn) then "(+)" else ""
  }

  function WrittenVersion(a: Atom): string {
    if a.version.None? then ""
    else
      "-" + (a.version.value + (Behind("-r", a.revision) +
        if a.operator == EqGlob && !a.extended then "*" else Behind("-", a.buildId)))
  }

  function WrittenSlot(a: Atom): string {
    if a.slot.None? && a.slotOperator.None? then ""
    else if a.slot.None? then ":" + SlotSign(a.slotOperator)
    else ":" + (a.slot.value + (Behind("/", a.subSlot) + SlotSign(a.slotOperator)))
  }

  function WrittenDep(ud: UseDep): string {
    var named := ud.flag + DefaultSign(ud.default);
    match ud.op
    case Enabled => named
    case Disabled => "-" + named
    case IfParentEnabled => named + "?"
    case IfParentDisabled => "!" + (named + "?")
    case EqualParent => named + "="
    case OppositeParent => "!" + (named + "=")
  }

  function WrittenDeps(deps: seq<UseDep>): string {
    if deps == [] then "" else WrittenDep(deps[0]) + if |deps| == 1 then "" else "," + WrittenDeps(deps[1..])
  }

  function Written(a: Atom): string {
    Mark(a.blocker) + (Sign(a.operator) + (a.category + ("/" + (a.package + (WrittenVersion(a) + (WrittenSlot(a) +
      (Behind("::", a.repo) + if a.useDeps.Some? then "[" + WrittenDeps(a.useDeps.value) + "]" else "")))))))
  }

  // ----- The parser's own notions are these -----

  lemma NumberExactly(s: string)
    ensures G.IsDigits(s) <==> IsNumber(s)
  {
    hide Text.Has, Text.DIGITS;
    forall i | 0 <= i < |s| ensures Text.Has(Text.Digit, s[i]) <==> s[i] in Text.DIGITS {
      Text.ClassMembers(s[i]);
    }
  }

  lemma ReadsExactly(pkg: string)
    ensures G.EndsLikeVersion(pkg) <==> ReadsOn(pkg)
  {
    hide *;
    if G.EndsLikeVersion(pkg) {
      var front, v := SplitOff(pkg);
      ReadsStep(pkg, front, v.ver, v.rev);
      IntroReads(pkg, front, v.ver, v.rev);
    }
    if ReadsOn(pkg) {
      var front, ver, rev := ReadOff(pkg);
      ReadsStep(pkg, front, ver, rev);
      IntroSplit(pkg, front, G.Vr(ver, rev));
    }
  }

  lemma SplitOff(pkg: string) returns (front: string, v: G.Vr)
    requires G.EndsLikeVersion(pkg)
    ensures G.ExtendsTo(pkg, front, v)
  {
    hide G.ExtendsTo;
    front, v :| G.ExtendsTo(pkg, front, v);
  }

  lemma ReadOff(pkg: string) returns (front: string, ver: string, rev: Option<string>)
    requires ReadsOn(pkg)
    ensures ReadsAs(pkg, front, ver, rev)
  {
    hide ReadsAs;
    front, ver, rev :| ReadsAs(pkg, front, ver, rev);
  }

  lemma IntroReads(pkg: string, front: string, ver: string, rev: Option<string>)
    requires ReadsAs(pkg, front, ver, rev)
    ensures ReadsOn(pkg)
  {
    hide ReadsAs;
  }

  lemma IntroSplit(pkg: string, front: string, v: G.Vr)
    requires G.ExtendsTo(pkg, front, v)
    ensures G.EndsLikeVersion(pkg)
  {
    hide G.ExtendsTo;
  }

  lemma ReadsStep(pkg: string, front: string, ver: string, rev: Option<string>)
    ensures G.ExtendsTo(pkg, front, G.Vr(ver, rev)) <==> ReadsAs(pkg, front, ver, rev)
  {
    hide G.IsPkg, G.Spelt, G.ValidVr, IsVersionOf;
    G.NameForms(front);
    VrExactly(ver, rev);
  }

  lemma VrExactly(ver: string, rev: Option<string>)
    ensures G.ValidVr(G.Vr(ver, rev)) <==> IsVersionOf(ver, rev)
  {
    hide G.IsVersion, G.VersionForm, G.IsDigits, IsNumber;
    G.VersionExactly(ver);
    if rev.Some? {
      NumberExactly(rev.value);
    }
  }

  lemma BuildIdExactly(b: string)
    ensures WellFormedBuildId(b) <==> IsNumber(b) && (|b| > 1 ==> b[0] != '0')
  {
    hide G.IsDigits, IsNumber;
    NumberExactly(b);
  }

  lemma NamedExactly(a: Atom, opts: AtomOptions)
    requires !a.extended
    ensures WellFormedName(a, opts) <==> IsNamed(a, opts)
  {
    hide G.IsCat, G.IsPkg, G.Spelt, G.ValidVr, IsVersionOf, AllowBuildId, WellFormedBuildId, IsNumber,
      G.EndsLikeVersion,
      ReadsOn;
    G.NameForms(a.category);
    G.NameForms(a.package);
    AllowedByLevel(opts);
    ReadsExactly(a.package);
    if a.version.Some? {
      VrExactly(a.version.value, a.revision);
    }
    if a.buildId.Some? {
      BuildIdExactly(a.buildId.value);
    }
  }

  // The part of a wildcard atom that may not have two stars in a row.
  lemma WildName(a: Atom)
    requires a.revision.None? && a.buildId.None?
    requires if a.version.Some? then a.operator == EqGlob else a.operator == NoOperator
    requires a.extended
    ensures WrittenOp(a.operator) + (a.category + ("/" + (a.package + VersionText(a)))) ==
      (if a.version.Some? then "=" else "") + (a.category + ("/" + (a.package + Behind("-", a.version))))
  {
    if a.version.Some? {
      assert a.version.value + ("" + "") == a.version.value;
    }
  }

  lemma NamedWildExactly(a: Atom, opts: AtomOptions)
    requires a.extended
    ensures WellFormedName(a, opts) <==> IsNamedWild(a, opts)
  {
    hide G.IsCat, G.IsPkg, G.IsExtCat, G.IsExtPkg, G.Spelt, G.IsStarVersion, G.LetterOr, C.Occurs, Text.Contains,
      VersionText;
    G.NameForms(a.category);
    G.NameForms(a.package);
    if a.version.Some? {
      G.NameForms(a.version.value);
    }
    if a.revision.None? && a.buildId.None?
      && (if a.version.Some? then a.operator == EqGlob else a.operator == NoOperator) {
      WildName(a);
      C.OccursExactly("**", WrittenOp(a.operator) + (a.category + ("/" + (a.package + VersionText(a)))));
    }
  }

  lemma PlacedExactly(a: Atom, opts: AtomOptions)
    ensures IsPlaced(a, opts) <==>
      && WellFormedSlot(a, AttrsOf(opts.eapi).slotOperator)
      && (a.repo.Some? ==> G.IsRepo(a.repo.value) && AllowRepo(opts))
  {
    hide G.IsSlot, G.IsRepo, G.Spelt, AllowRepo, AttrsOf, Level;
    AllowedByLevel(opts);
    AttrsByLevel(opts.eapi);
    if a.slot.Some? {
      G.NameForms(a.slot.value);
    }
    if a.subSlot.Some? {
      G.NameForms(a.subSlot.value);
    }
    if a.repo.Some? {
      G.NameForms(a.repo.value);
    }
  }

  lemma BlockExactly(deps: seq<UseDep>)
    ensures ValidDeps(deps) <==> IsBlock(deps)
  {
    hide Text.IsFlag, G.Spelt;
    forall i | 0 <= i < |deps| ensures Text.IsFlag(deps[i].flag) <==> G.Spelt("", "_+@-", deps[i].flag) {
      G.NameForms(deps[i].flag);
    }
  }

  lemma ReadableExactly(a: Atom, opts: AtomOptions)
    ensures Readable(a, opts) <==> CanBeRead(a, opts)
  {
    hide WellFormedName, IsNamed, IsNamedWild, WellFormedSlot, IsPlaced, AttrsOf, AllowRepo, G.IsRepo, ValidDeps,
      IsBlock;
    PlacedExactly(a, opts);
    if a.extended {
      NamedWildExactly(a, opts);
    } else {
      NamedExactly(a, opts);
    }
    if a.useDeps.Some? {
      BlockExactly(a.useDeps.value);
    }
  }

  lemma LackingExactly(a: Atom, opts: AtomOptions)
    ensures MissingFeature(opts, a.slot, a.useDeps, a.blocker) == Lacking(a, Level(opts.eapi))
  {
    hide Level, MissingFeature;
    ReportedByLevel(opts, a.slot, a.useDeps, a.blocker);
    if a.useDeps.Some? && HasDefault(a.useDeps.value) {
      var i :| 0 <= i < |a.useDeps.value| && a.useDeps.value[i].default.Some?;
      assert a.useDeps.value[i] in DepsOf(a);
    }
  }

  lemma DepExactly(ud: UseDep)
    ensures TokenText(ud) == WrittenDep(ud)
  {
    var d := DefaultText(ud.default);
    assert "" + (ud.flag + (d + "")) == ud.flag + d;
    assert "-" + (ud.flag + (d + "")) == "-" + (ud.flag + d);
    Text.Assoc(ud.flag, d, "?");
    Text.Assoc(ud.flag, d, "=");
    assert "" + (ud.flag + (d + "?")) == ud.flag + (d + "?");
    assert "" + (ud.flag + (d + "=")) == ud.flag + (d + "=");
  }

  lemma {:induction false} DepsExactly(deps: seq<UseDep>)
    ensures Text.Join(TokenTexts(deps), ',') == WrittenDeps(deps)
  {
    hide TokenText, WrittenDep;
    var texts := TokenTexts(deps);
    if deps == [] {
    } else {
      DepExactly(deps[0]);
      DepsExactly(deps[1..]);
      assert TokenTexts(deps[1..]) == texts[1..];
      Text.Assoc(texts[0], ",", WrittenDeps(deps[1..]));
    }
  }

  lemma UseExactly(a: Atom)
    ensures UseText(a) == if a.useDeps.Some? then "[" + WrittenDeps(a.useDeps.value) + "]" else ""
  {
    hide Text.Join, TokenTexts, WrittenDeps;
    if a.useDeps.Some? {
      DepsExactly(a.useDeps.value);
    }
  }

  lemma VersionTextExactly(a: Atom)
    ensures VersionText(a) == WrittenVersion(a)
  {
  }

  lemma SlotTextExactly(a: Atom)
    ensures SlotText(a) == WrittenSlot(a)
  {
  }

  lemma TextExactly(a: Atom)
    ensures AtomText(a) == Written(a)
  {
    hide VersionText, WrittenVersion, SlotText, WrittenSlot, UseText, WrittenDeps;
    VersionTextExactly(a);
    SlotTextExactly(a);
    UseExactly(a);
  }

  // ----- The main results -----

  // For every text, option set and atom: the text is accepted as the atom
  // exactly when the atom may be written under the options and is so written.
  lemma AcceptedExactly(s: string, opts: AtomOptions, eapiText: string, a: Atom)
    ensures ParseUncached(s, opts, eapiText) == Ok(a) <==> IsAtom(a, opts) && s == Written(a)
  {
    hide *;
    ParseExactly(s, opts, eapiText, a);
    WellFormedCases(a, opts);
    ReadableExactly(a, opts);
    LackingExactly(a, opts);
    TextExactly(a);
    IsAtomCases(a, opts);
  }

  lemma IsAtomCases(a: Atom, opts: AtomOptions)
    ensures IsAtom(a, opts) <==> CanBeRead(a, opts) && Lacking(a, Level(opts.eapi)) == None
  {
    hide CanBeRead, Lacking, Level;
  }

  // With no options: no EAPI, so everything but wildcards.
  lemma PlainExactly(s: string, a: Atom)
    ensures ParseAtom(s) == Some(a) <==> IsAtom(a, AtomOptions(NoEapi, false, None, None)) && s == Written(a)
  {
    hide ParseUncached, IsAtom, Written;
    AcceptedExactly(s, DEFAULT_OPTIONS, "", a);
  }

  // ----- Refusals -----

  // An atom without a block, but for the repository, and behind it a bracketed
  // text that is no list of tokens.
  ghost predicate IsBlamed(s: string, opts: AtomOptions, a: Atom, inner: string) {
    && CanBeRead(a, opts.(allowRepo := Some(true))) && !a.extended && a.useDeps.None?
    && '\n' !in inner && s == Written(a) + ("[" + (inner + "]"))
    && forall deps :: IsBlock(deps) ==> inner != WrittenDeps(deps)
  }

  // The text between commas, with the commas.
  ghost predicate Listing(inner: string, tokens: seq<string>) {
    tokens != [] && Text.Join(tokens, ',') == inner && forall i | 0 <= i < |tokens| :: ',' !in tokens[i]
  }

  // The tokens are those of a block, or there are none.
  ghost predicate AreTokens(tokens: seq<string>) {
    tokens == [] || exists deps :: IsBlock(deps) && AreWritten(deps, tokens)
  }

  ghost predicate AreWritten(deps: seq<UseDep>, tokens: seq<string>) {
    |tokens| == |deps| && forall i | 0 <= i < |deps| :: tokens[i] == WrittenDep(deps[i])
  }

  lemma TokensExactly(tokens: seq<string>)
    ensures ReadTokens(tokens).Ok? <==> AreTokens(tokens)
  {
    hide *;
    NoTokens(tokens);
    if tokens != [] && ReadTokens(tokens).Ok? {
      ReadTokensSound(tokens);
      TokensRead(tokens, ReadTokens(tokens).value.0, ReadTokens(tokens).value.1);
    }
    if tokens != [] && AreTokens(tokens) {
      var deps := TokensOf(tokens);
      BlockExactly(deps);
      ValidParts(deps);
      ReadTokensComplete(deps);
    }
  }

  lemma NoTokens(tokens: seq<string>)
    ensures tokens == [] ==> ReadTokens(tokens).Ok? && AreTokens(tokens)
  {
    hide ReadOne;
  }

  lemma TokensRead(tokens: seq<string>, deps: seq<UseDep>, seen: SeenDefaults)
    requires tokens != [] && TokenTexts(deps) == tokens && SeenIn(deps, seen)
    requires forall i | 0 <= i < |deps| :: Text.IsFlag(deps[i].flag)
    ensures AreTokens(tokens)
  {
    hide Text.IsFlag, SeenIn, TokenText, WrittenDep, IsBlock;
    SeenOneDefault(deps, seen);
    BlockExactly(deps);
    forall i | 0 <= i < |deps| ensures tokens[i] == WrittenDep(deps[i]) {
      DepExactly(deps[i]);
    }
    assert AreWritten(deps, tokens);
  }

  lemma TokensOf(tokens: seq<string>) returns (deps: seq<UseDep>)
    requires tokens != [] && AreTokens(tokens)
    ensures IsBlock(deps) && TokenTexts(deps) == tokens
  {
    hide IsBlock, TokenText, WrittenDep;
    deps :| IsBlock(deps) && AreWritten(deps, tokens);
    forall i | 0 <= i < |deps| ensures tokens[i] == TokenTexts(deps)[i] {
      DepExactly(deps[i]);
    }
  }

  lemma ValidParts(deps: seq<UseDep>)
    requires ValidDeps(deps)
    ensures OneDefault(deps) && forall i | 0 <= i < |deps| :: Text.IsFlag(deps[i].flag)
  {
    hide Text.IsFlag, OneDefault;
  }

  lemma BlamedExactly(s: string, opts: AtomOptions, a: Atom, inner: string)
    ensures IsBlamed(s, opts, a, inner) <==> BadBlock(s, opts, a, "[" + (inner + "]"))
  {
    hide *;
    var raw := "[" + (inner + "]");
    ReadableExactly(a, AnyRepo(opts));
    TextExactly(a);
    BracketsExactly(inner);
    forall deps ensures ParseUseDeps(raw) == Ok(deps) <==> IsBlock(deps) && WrittenDeps(deps) == inner {
      BlockRoundTrip(raw, deps);
      BlockExactly(deps);
      BlockTextExactly(inner, deps);
    }
    BlamedCases(s, opts, a, inner);
  }

  lemma BlockTextExactly(inner: string, deps: seq<UseDep>)
    ensures BlockText(deps) == "[" + (inner + "]") <==> WrittenDeps(deps) == inner
  {
    hide Text.Join, TokenTexts, WrittenDeps;
    DepsExactly(deps);
    var raw := "[" + (inner + "]");
    assert raw[1..|raw| - 1] == inner;
    var text := BlockText(deps);
    assert text[1..|text| - 1] == WrittenDeps(deps);
  }

  lemma BracketsExactly(inner: string)
    ensures var raw := "[" + (inner + "]");
      (G.IsUseText(raw) <==> '\n' !in inner) && BlockInner(raw) == Some(inner)
  {
    var raw := "[" + (inner + "]");
    assert raw[1..|raw| - 1] == inner;
  }

  lemma BlamedCases(s: string, opts: AtomOptions, a: Atom, inner: string)
    requires var raw := "[" + (inner + "]");
      && (G.IsUseText(raw) <==> '\n' !in inner) && AtomText(a) == Written(a)
      && (Readable(a, AnyRepo(opts)) <==> CanBeRead(a, AnyRepo(opts)))
      && forall deps :: ParseUseDeps(raw) == Ok(deps) <==> IsBlock(deps) && WrittenDeps(deps) == inner
    ensures IsBlamed(s, opts, a, inner) <==> BadBlock(s, opts, a, "[" + (inner + "]"))
  {
    hide Readable, CanBeRead, AtomText, Written, G.IsUseText, ParseUseDeps, IsBlock, WrittenDeps;
    var r := ParseUseDeps("[" + (inner + "]"));
    if r.Ok? {
      assert IsBlock(r.value) && WrittenDeps(r.value) == inner;
    }
  }

  // An atom but for a feature is refused for it, by name, EAPI and text.
  lemma FeatureRefused(s: string, opts: AtomOptions, eapiText: string, a: Atom)
    requires CanBeRead(a, opts) && s == Written(a) && Lacking(a, Level(opts.eapi)) != None
    ensures ParseUncached(s, opts, eapiText) == Err(AtomError(EapiIncompatible,
      Lacking(a, Level(opts.eapi)).value + (" are not allowed in EAPI " + (eapiText + (": '" + (s + "'"))))))
  {
    hide *;
    ReadableExactly(a, opts);
    TextExactly(a);
    ReadExactly(s, opts, a);
    ParseReported(s, opts, eapiText, a);
    LackingExactly(a, opts);
    FeatureMessage(Lacking(a, Level(opts.eapi)).value, eapiText, s);
  }

  lemma FeatureMessage(what: string, e: string, s: string)
    ensures FeatureError(what, e, s) ==
      AtomError(EapiIncompatible, what + (" are not allowed in EAPI " + (e + (": '" + (s + "'")))))
  {
    Text.Assoc(what, " are not allowed in EAPI ", e + (": '" + (s + "'")));
    var start := what + " are not allowed in EAPI ";
    Text.Assoc(start, e, ": '" + (s + "'"));
    Text.Assoc(start + e, ": '", s + "'");
    Text.Assoc(start + e + ": '", s, "'");
  }

  // A bad block is refused for the first token up to which it is no list.
  lemma TokenRefused(s: string, opts: AtomOptions, eapiText: string, a: Atom, inner: string)
    returns (tokens: seq<string>, i: nat)
    requires IsBlamed(s, opts, a, inner)
    ensures Listing(inner, tokens) && i < |tokens| && AreTokens(tokens[..i]) && !AreTokens(tokens[..i + 1])
    ensures ParseUncached(s, opts, eapiText) ==
      Err(AtomError(Invalid, "Invalid use dep: '" + (tokens[i] + "'")))
  {
    hide *;
    BlamedExactly(s, opts, a, inner);
    BracketsExactly(inner);
    i := RefusedBlock(s, opts, eapiText, a, "[" + (inner + "]"));
    tokens := Text.Split(inner, ',');
    SplitListing(inner);
    TokensExactly(tokens[..i]);
    TokensExactly(tokens[..i + 1]);
    TokenMessage(tokens[i]);
  }

  lemma SplitListing(inner: string)
    ensures Listing(inner, Text.Split(inner, ','))
  {
    hide Text.Split, Text.Join;
    Text.JoinSplit(inner, ',');
  }

  lemma TokenMessage(token: string)
    ensures UseError(token) == AtomError(Invalid, "Invalid use dep: '" + (token + "'"))
  {
    Text.Assoc("Invalid use dep: '", token, "'");
  }

  // Every other text is refused with nothing but itself.
  lemma TextRefused(s: string, opts: AtomOptions, eapiText: string)
    requires forall a :: CanBeRead(a, opts) ==> s != Written(a)
    requires forall a, inner :: !IsBlamed(s, opts, a, inner)
    ensures ParseUncached(s, opts, eapiText) == Err(AtomError(Invalid, s))
  {
    hide *;
    var r := ReadAtom(s, opts);
    if r.Ok? {
      ReadExactly(s, opts, r.value);
      ReadableExactly(r.value, opts);
      TextExactly(r.value);
    } else if r.error != InvalidAtom(s) {
      var a, raw := BlamedText(s, opts);
      var inner := Brackets(s, opts, a, raw);
      BlamedExactly(s, opts, a, inner);
    }
    ParseFailed(s, opts, eapiText);
  }

  lemma Brackets(s: string, opts: AtomOptions, a: Atom, raw: string) returns (inner: string)
    requires BadBlock(s, opts, a, raw)
    ensures raw == "[" + (inner + "]")
  {
    hide Readable, AnyRepo, AtomText, ParseUseDeps;
    inner := raw[1..|raw| - 1];
  }

  lemma ParseFailed(s: string, opts: AtomOptions, eapiText: string)
    requires ReadAtom(s, opts) == Err(InvalidAtom(s))
    ensures ParseUncached(s, opts, eapiText) == Err(AtomError(Invalid, s))
  {
    hide ReadAtom, MissingFeature, FeatureError;
  }
}
