// What the exactness of the parser gives: the printer's round trip, the
// canonical split of names, and how acceptance depends on the options.
module AtomLaws {
  import opened Wrappers
  import opened Text
  import opened Eapi
  import opened UseDeps
  import opened AtomParser
  import opened AtomExact
  import G = AtomGrammar
  import P = AtomPatterns

  // ----- Printing what was parsed -----

  // The source's printer gives the parsed text back character for character
  // for every operator but `=*`, and for that operator it never does.
  lemma RenderRoundTrip(s: string, opts: AtomOptions, eapiText: string, a: Atom)
    requires ParseUncached(s, opts, eapiText) == Ok(a)
    ensures Render(a) == s <==> a.operator != EqGlob
    ensures ParseUncached(AtomText(a), opts, eapiText) == Ok(a)
  {
    hide *;
    ParseExactly(s, opts, eapiText, a);
    RenderIsText(a);
  }

  lemma RenderIsText(a: Atom)
    ensures Render(a) == AtomText(a) <==> a.operator != EqGlob
  {
    hide AfterOperator, BlockerText;
    if a.operator == EqGlob {
      assert |Render(a)| == |AtomText(a)| + 1;
    } else {
      assert AsStr(a.operator) == WrittenOp(a.operator);
    }
  }

  // The exception is reached: `=a/b-1*` is an atom, and is printed as `=*a/b-1*`.
  lemma GlobPrintsOtherwise()
    ensures ParseUncached("=a/b-1*", DEFAULT_OPTIONS, "") == Ok(GLOB_WITNESS)
    ensures Render(GLOB_WITNESS) == "=*a/b-1*"
  {
    hide *;
    GlobWitnessWellFormed();
    GlobWitnessTexts();
    ParseExactly("=a/b-1*", DEFAULT_OPTIONS, "", GLOB_WITNESS);
  }

  const GLOB_WITNESS := Atom(NoBlocker, EqGlob, "a", "b", Some("1"), None, None, None, None, None, None, None, false)

  lemma GlobWitnessWellFormed()
    ensures WellFormed(GLOB_WITNESS, DEFAULT_OPTIONS)
  {
    hide G.EndsLikeVersion, G.IsVersion;
    EndingTakesRoom("b");
    G.DigitsAreVersion("1");
  }

  lemma GlobWitnessTexts()
    ensures AtomText(GLOB_WITNESS) == "=a/b-1*" && Render(GLOB_WITNESS) == "=*a/b-1*"
  {
    assert VersionText(GLOB_WITNESS) == "-1*";
    assert AfterOperator(GLOB_WITNESS) == "a/b-1*";
  }

  // Two texts that parse to one atom, under any options, are the same text.
  lemma TextIsDetermined(s: string, t: string, o: AtomOptions, p: AtomOptions, e: string, f: string)
    requires ParseUncached(s, o, e).Ok? && ParseUncached(s, o, e) == ParseUncached(t, p, f)
    ensures s == t
  {
    hide *;
    var a := ParseUncached(s, o, e).value;
    ParseExactly(s, o, e, a);
    ParseExactly(t, p, f, a);
  }

  // A plain atom without a build-id has a package name that does not end in a
  // version: the shorter name is always preferred, with no fallback.
  lemma CanonicalName(s: string, opts: AtomOptions, eapiText: string, a: Atom)
    requires ParseUncached(s, opts, eapiText) == Ok(a) && !a.extended
    ensures a.buildId.None? ==> !G.EndsLikeVersion(a.package)
    ensures a.buildId.Some? ==> AllowBuildId(opts) && a.version.Some? && a.operator != EqGlob
  {
    hide ParseUncached, AtomText, G.EndsLikeVersion, WellFormedSlot, MissingFeature, ValidDeps, AllowBuildId;
    ParseExactly(s, opts, eapiText, a);
  }

  // ----- The EAPI chain -----

  // Position in the chain 0 .. 9, unsupported, none given.
  function Level(e: AtomEapi): nat {
    match e
    case Known(n) => if n < 10 then n else 10
    case Unsupported => 10
    case NoEapi => 11
  }

  // What the atom parser sees of an EAPI is determined by its level.
  lemma AttrsByLevel(e: AtomEapi)
    ensures AttrsOf(e).repoDeps == (Level(e) >= 10)
    ensures AttrsOf(e).slotOperator == (Level(e) >= 5)
    ensures AttrsOf(e).slotDeps == (Level(e) >= 1)
    ensures AttrsOf(e).strongBlocks == (Level(e) >= 2)
    ensures AttrsOf(e).useDeps == (Level(e) >= 2)
    ensures AttrsOf(e).useDepDefaults == (Level(e) >= 4)
  {
    match e
    case Known(n) => SpellingAttrs(n);
    case _ =>
  }

  // The least level at which the atom's own features are all allowed, apart
  // from repository and build-id, which have options of their own.
  function FeatureLevel(a: Atom): nat {
    if a.subSlot.Some? || a.slotOperator.Some? then 5
    else if a.useDeps.Some? && HasDefault(a.useDeps.value) then 4
    else if a.useDeps.Some? || a.blocker == Strong then 2
    else if a.slot.Some? then 1
    else 0
  }

  // Exactly which atoms of the unrestricted language an EAPI keeps.
  lemma WellFormedUnder(a: Atom, opts: AtomOptions, e: AtomEapi)
    requires opts.eapi.NoEapi?
    ensures WellFormed(a, opts.(eapi := e)) <==>
      && WellFormed(a, opts)
      && Level(e) >= FeatureLevel(a)
      && (a.repo.Some? && opts.allowRepo.None? ==> Level(e) >= 10)
      && (a.buildId.Some? && opts.allowBuildId.None? ==> Level(e) >= 11)
  {
    hide AttrsOf;
    var o := opts.(eapi := e);
    AttrsByLevel(e);
    AttrsByLevel(NoEapi);
    NameUnder(a, opts, e);
    FeaturesUnder(a, opts, e);
    hide WellFormedName, HasDefault, ValidDeps, G.IsRepo, G.IsSlot;
  }

  lemma NameUnder(a: Atom, opts: AtomOptions, e: AtomEapi)
    requires opts.eapi.NoEapi?
    ensures WellFormedName(a, opts.(eapi := e)) <==>
      WellFormedName(a, opts) && (a.buildId.Some? && opts.allowBuildId.None? ==> Level(e) >= 11)
  {
    hide G.EndsLikeVersion, Contains, G.IsStarVersion, G.ValidVr, G.IsCat, G.IsPkg, G.IsExtCat, G.IsExtPkg,
      WellFormedBuildId;
  }

  lemma FeaturesUnder(a: Atom, opts: AtomOptions, e: AtomEapi)
    requires opts.eapi.NoEapi?
    ensures MissingFeature(opts, a.slot, a.useDeps, a.blocker).None?
    ensures WellFormedSlot(a, Level(e) >= 5) && MissingFeature(opts.(eapi := e), a.slot, a.useDeps, a.blocker).None?
      <==> WellFormedSlot(a, true) && Level(e) >= FeatureLevel(a)
  {
    hide AttrsOf, HasDefault, G.IsSlot;
    AttrsByLevel(e);
  }

  // ----- Repositories and build-ids -----

  // Without an option of their own, repositories are allowed where no EAPI in
  // the table applies, and build-ids only where none is given.
  lemma AllowedByLevel(opts: AtomOptions)
    ensures AllowRepo(opts) <==> opts.allowRepo == Some(true) || (opts.allowRepo.None? && Level(opts.eapi) >= 10)
    ensures AllowBuildId(opts) <==>
      opts.allowBuildId == Some(true) || (opts.allowBuildId.None? && Level(opts.eapi) == 11)
  {
    hide AttrsOf;
    AttrsByLevel(opts.eapi);
  }

  // Exactly when a repository can be added to an atom that is read without one.
  lemma RepoAdded(a: Atom, opts: AtomOptions, r: string)
    requires Readable(a, opts) && a.repo.None?
    ensures var b := a.(repo := Some(r));
      ReadAtom(AtomText(b), opts) == Ok(b) <==>
      G.IsRepo(r) && (opts.allowRepo == Some(true) || (opts.allowRepo.None? && Level(opts.eapi) >= 10))
  {
    hide *;
    AllowedByLevel(opts);
    RepoCases(a, opts, r);
    ReadExactly(AtomText(a.(repo := Some(r))), opts, a.(repo := Some(r)));
  }

  lemma RepoCases(a: Atom, opts: AtomOptions, r: string)
    requires Readable(a, opts) && a.repo.None?
    ensures Readable(a.(repo := Some(r)), opts) <==> G.IsRepo(r) && AllowRepo(opts)
  {
    hide G.EndsLikeVersion, Contains, G.IsStarVersion, G.ValidVr, G.IsCat, G.IsPkg, G.IsExtCat, G.IsExtPkg, G.IsSlot,
      G.IsRepo, AllowRepo, AllowBuildId, AttrsOf, ValidDeps, WellFormedBuildId;
  }

  // Exactly when a build-id can be added to a versioned atom that is read
  // without one: it is a number without leading zeros, the operator is not the
  // glob one, and build-ids are allowed.
  lemma BuildIdAdded(a: Atom, opts: AtomOptions, b: string)
    requires Readable(a, opts) && a.version.Some? && a.buildId.None? && !a.extended
    ensures var c := a.(buildId := Some(b));
      ReadAtom(AtomText(c), opts) == Ok(c) <==>
      && b != "" && AllIn(Digit, b) && (b == "0" || b[0] != '0') && a.operator != EqGlob
      && (opts.allowBuildId == Some(true) || (opts.allowBuildId.None? && Level(opts.eapi) == 11))
  {
    hide *;
    AllowedByLevel(opts);
    BuildIdCases(a, opts, b);
    BuildIdForm(b);
    ReadExactly(AtomText(a.(buildId := Some(b))), opts, a.(buildId := Some(b)));
  }

  lemma BuildIdCases(a: Atom, opts: AtomOptions, b: string)
    requires Readable(a, opts) && a.version.Some? && a.buildId.None? && !a.extended
    ensures Readable(a.(buildId := Some(b)), opts) <==>
      WellFormedBuildId(b) && a.operator != EqGlob && AllowBuildId(opts)
  {
    hide G.EndsLikeVersion, Contains, G.IsStarVersion, G.ValidVr, G.IsCat, G.IsPkg, G.IsExtCat, G.IsExtPkg, G.IsSlot,
      G.IsRepo, AllowRepo, AllowBuildId, AttrsOf, ValidDeps, WellFormedBuildId;
  }

  lemma BuildIdForm(b: string)
    ensures WellFormedBuildId(b) <==> b != "" && AllIn(Digit, b) && (b == "0" || b[0] != '0')
  {
    hide AllIn;
    if b != "" && b[0] == '0' && |b| == 1 {
      assert b == "0";
    }
  }

  // An atom accepted under one EAPI is accepted, with the same reading, under
  // every later one, then under an unsupported one, then with none given.
  lemma EapiChain(s: string, opts: AtomOptions, m: AtomEapi, n: AtomEapi, e: string, f: string)
    requires Level(m) <= Level(n)
    requires ParseUncached(s, opts.(eapi := m), e).Ok?
    ensures ParseUncached(s, opts.(eapi := n), f) == ParseUncached(s, opts.(eapi := m), e)
  {
    hide *;
    var a := ParseUncached(s, opts.(eapi := m), e).value;
    var base := opts.(eapi := NoEapi);
    ParseExactly(s, opts.(eapi := m), e, a);
    ParseExactly(s, opts.(eapi := n), f, a);
    WellFormedUnder(a, base, m);
    WellFormedUnder(a, base, n);
    assert base.(eapi := m) == opts.(eapi := m) && base.(eapi := n) == opts.(eapi := n);
  }

  // Wildcards only add atoms: a text accepted without them keeps its reading,
  // and a text gains a reading only as an extended atom.
  lemma WildcardsOnlyAdd(s: string, opts: AtomOptions, e: string)
    ensures
      var strict := ParseUncached(s, opts.(allowWildcard := false), e);
      var wild := ParseUncached(s, opts.(allowWildcard := true), e);
      && (strict.Ok? ==> wild == strict && !strict.value.extended)
      && (wild.Ok? && strict.Err? ==> wild.value.extended)
  {
    hide *;
    var o, p := opts.(allowWildcard := false), opts.(allowWildcard := true);
    var strict, wild := ParseUncached(s, o, e), ParseUncached(s, p, e);
    if strict.Ok? {
      ParseExactly(s, o, e, strict.value);
      ParseExactly(s, p, e, strict.value);
      WildcardsOnlyInNames(strict.value, o);
    }
    if wild.Ok? {
      ParseExactly(s, o, e, wild.value);
      ParseExactly(s, p, e, wild.value);
      WildcardsOnlyInNames(wild.value, o);
    }
  }

  lemma WildcardsOnlyInNames(a: Atom, opts: AtomOptions)
    requires !opts.allowWildcard
    ensures WellFormed(a, opts) <==> WellFormed(a, opts.(allowWildcard := true)) && !a.extended
  {
    hide G.EndsLikeVersion, Contains, G.IsStarVersion, G.ValidVr, G.IsCat, G.IsPkg, G.IsExtCat, G.IsExtPkg,
      WellFormedBuildId, WellFormedSlot, HasDefault, ValidDeps, AttrsOf, G.IsRepo;
  }

  // ----- When the EAPI's spelling shows in the result -----

  // The spelling occurs in the result only inside a feature message, and from
  // level 4 on no feature is missing.
  lemma NothingMissing(opts: AtomOptions, slot: Option<string>, use: Option<seq<UseDep>>, blocker: Blocker)
    requires Level(opts.eapi) >= 4
    ensures MissingFeature(opts, slot, use, blocker).None?
  {
    hide AttrsOf, HasDefault;
    AttrsByLevel(opts.eapi);
  }

  lemma SpellingUnused(s: string, opts: AtomOptions, e: string, f: string)
    requires Level(opts.eapi) >= 4
    ensures ParseUncached(s, opts, e) == ParseUncached(s, opts, f)
  {
    hide ReadAtom, MissingFeature, FeatureError;
    var r := ReadAtom(s, opts);
    if r.Ok? {
      NothingMissing(opts, r.value.slot, r.value.useDeps, r.value.blocker);
    }
  }

  // Which feature a refused atom is told about: slots and USE dependencies
  // come first, so defaults are reported at levels 2 and 3 only, and strong
  // blocks only of atoms without USE dependencies.
  lemma RefusedFeature(s: string, opts: AtomOptions, e: string, a: Atom)
    requires Readable(a, opts) && AtomText(a) == s
    ensures var r, n := ParseUncached(s, opts, e), Level(opts.eapi);
      && (r == Err(FeatureError("Slot deps", e, s)) <==> n < 1 && a.slot.Some?)
      && (r == Err(FeatureError("Use deps", e, s)) <==> n < 2 && a.useDeps.Some? && !(n < 1 && a.slot.Some?))
      && (r == Err(FeatureError("Use dep defaults", e, s)) <==>
           2 <= n < 4 && a.useDeps.Some? && HasDefault(a.useDeps.value))
      && (r == Err(FeatureError("Strong blocks", e, s)) <==>
           n < 2 && a.blocker == Strong && a.useDeps.None? && !(n < 1 && a.slot.Some?))
  {
    hide *;
    ReadExactly(s, opts, a);
    ParseReported(s, opts, e, a);
    ReportedByLevel(opts, a.slot, a.useDeps, a.blocker);
    MessageFeature("Slot deps", "Use deps", e, s);
    MessageFeature("Slot deps", "Use dep defaults", e, s);
    MessageFeature("Slot deps", "Strong blocks", e, s);
    MessageFeature("Use deps", "Use dep defaults", e, s);
    MessageFeature("Use deps", "Strong blocks", e, s);
    MessageFeature("Use dep defaults", "Strong blocks", e, s);
  }

  lemma ParseReported(s: string, opts: AtomOptions, e: string, a: Atom)
    requires ReadAtom(s, opts) == Ok(a)
    ensures var missing := MissingFeature(opts, a.slot, a.useDeps, a.blocker);
      ParseUncached(s, opts, e) == if missing.Some? then Err(FeatureError(missing.value, e, s)) else Ok(a)
  {
    hide ReadAtom, FeatureError, MissingFeature;
  }

  lemma ReportedByLevel(opts: AtomOptions, slot: Option<string>, use: Option<seq<UseDep>>, blocker: Blocker)
    ensures var n := Level(opts.eapi);
      MissingFeature(opts, slot, use, blocker) ==
      if n < 1 && slot.Some? then Some("Slot deps")
      else if n < 2 && use.Some? then Some("Use deps")
      else if n < 4 && use.Some? && HasDefault(use.value) then Some("Use dep defaults")
      else if n < 2 && blocker == Strong then Some("Strong blocks")
      else None
  {
    hide AttrsOf, HasDefault;
    AttrsByLevel(opts.eapi);
  }

  lemma MessageFeature(what: string, other: string, e: string, s: string)
    requires what != other
    ensures FeatureError(what, e, s) != FeatureError(other, e, s)
  {
    var tail := " are not allowed in EAPI " + (e + (": '" + s + "'"));
    assert what + " are not allowed in EAPI " + e + ": '" + s + "'" == what + tail;
    assert other + " are not allowed in EAPI " + e + ": '" + s + "'" == other + tail;
    SameTail(what, other, tail);
  }

  lemma SameTail(a: string, b: string, tail: string)
    ensures a + tail == b + tail ==> a == b
  {
    assert (a + tail)[..|a|] == a && (b + tail)[..|b|] == b;
    assert |a + tail| == |a| + |tail| && |b + tail| == |b| + |tail|;
  }

  // The spelling a caller passes goes with the option it passes.
  ghost predicate SpellingFits(opts: AtomOptions, e: string) {
    opts.eapi.NoEapi? || ParseEapi(Some(e)) == Ok(opts.eapi)
  }

  // So the options and the text determine the result: below level 4 there is
  // only one spelling, above it the spelling is not used.
  lemma OptionsDetermineResult(s: string, opts: AtomOptions, e: string, f: string)
    requires SpellingFits(opts, e) && SpellingFits(opts, f)
    ensures ParseUncached(s, opts, e) == ParseUncached(s, opts, f)
  {
    if Level(opts.eapi) >= 4 {
      SpellingUnused(s, opts, e, f);
    } else {
      OneSpelling(e, opts.eapi.level);
      OneSpelling(f, opts.eapi.level);
      hide *;
    }
  }

  // A text whose message names the EAPI at every level below 4: `a/b[c(+)]`.
  const WITNESS := Atom(NoBlocker, NoOperator, "a", "b", None, None, None, None, None,
    Some([UseDep("c", Enabled, Some(DefaultOn))]), None, None, false)

  lemma EndingTakesRoom(pkg: string)
    ensures G.EndsLikeVersion(pkg) ==> |pkg| >= 3
  {
    if G.EndsLikeVersion(pkg) {
      var front, v :| G.ExtendsTo(pkg, front, v);
      G.VersionChars(v.ver);
      assert |pkg| == |front| + 1 + |v.ver| + |G.RevText(v.rev)|;
    }
  }

  lemma WitnessWellFormed(opts: AtomOptions)
    requires opts.eapi.NoEapi?
    ensures WellFormed(WITNESS, opts)
  {
    hide G.EndsLikeVersion;
    EndingTakesRoom("b");
  }

  // Without a slot and a build-id, reading the atom does not depend on the EAPI.
  lemma ReadUnder(s: string, opts: AtomOptions, e: AtomEapi, a: Atom)
    requires ReadAtom(s, opts) == Ok(a) && opts.eapi.NoEapi?
    requires a.slot.None? && a.subSlot.None? && a.slotOperator.None? && a.buildId.None? && a.repo.None?
    ensures ReadAtom(s, opts.(eapi := e)) == Ok(a)
  {
    var c, rest := ReadStages(s, opts);
    NoSlotRead(c.suffix.slotpart, AttrsOf(opts.eapi).slotOperator);
    NoBuildIdRead(c, AllowBuildId(opts), AllowBuildId(opts.(eapi := e)));
    hide *;
    NoSlotRead(None, AttrsOf(e).slotOperator);
    ReadSteps(s, opts.(eapi := e), a, c, rest);
  }

  lemma NoSlotRead(sp: Option<G.SlotPart>, slotOperator: bool)
    ensures ReadSlot(None, slotOperator) == Some(SlotFields(None, None, None))
    ensures ReadSlot(sp, slotOperator) == Some(SlotFields(None, None, None)) ==> sp.None?
  {
    if sp.Some? {
      assert sp.value == G.SlotPart(None, None, None) ==> G.SlotPartText(sp.value) == "";
    }
  }

  lemma NoBuildIdRead(c: P.Caps, allow: bool, allow': bool)
    requires ReadName(c, allow).Some? && ReadName(c, allow).value.buildId.None?
    ensures ReadName(c, allow') == ReadName(c, allow)
  {
    hide Contains, OperatorOf, G.SplitText, NameText;
  }

  // Below level 4 the witness is refused with a message that quotes the spelling.
  lemma WitnessMessage(opts: AtomOptions, e: string)
    requires Level(opts.eapi) < 4
    ensures ParseUncached(AtomText(WITNESS), opts, e) == Err(FeatureError(WitnessFeature(opts), e, AtomText(WITNESS)))
  {
    hide ReadAtom, MissingFeature, FeatureError, WellFormed, AtomText;
    var o, s := opts.(eapi := NoEapi), AtomText(WITNESS);
    WitnessMissing(opts);
    WitnessWellFormed(o);
    ParseExactly(s, o, e, WITNESS);
    ParseStages(s, o, e);
    assert o.(eapi := opts.eapi) == opts;
    ReadUnder(s, o, opts.eapi, WITNESS);
  }

  function WitnessFeature(opts: AtomOptions): string {
    if Level(opts.eapi) < 2 then "Use deps" else "Use dep defaults"
  }

  lemma WitnessMissing(opts: AtomOptions)
    requires Level(opts.eapi) < 4
    ensures MissingFeature(opts, None, WITNESS.useDeps, NoBlocker) == Some(WitnessFeature(opts))
  {
    hide AttrsOf;
    AttrsByLevel(opts.eapi);
    assert WITNESS.useDeps.value[0].default.Some?;
  }

  lemma MessageSpelling(what: string, e: string, f: string, s: string)
    ensures FeatureError(what, e, s) == FeatureError(what, f, s) ==> e == f
  {
    var head, tail := what + " are not allowed in EAPI ", ": '" + s + "'";
    assert head + e + ": '" + s + "'" == head + e + tail;
    assert head + f + ": '" + s + "'" == head + f + tail;
    assert (head + e + tail)[|head|..|head| + |e|] == e;
    assert (head + f + tail)[|head|..|head| + |f|] == f;
  }

  // Exactly when two spellings could be told apart by some text.
  lemma SpellingShows(opts: AtomOptions, e: string, f: string)
    ensures (forall s :: ParseUncached(s, opts, e) == ParseUncached(s, opts, f)) <==> Level(opts.eapi) >= 4 || e == f
  {
    if Level(opts.eapi) >= 4 {
      forall s ensures ParseUncached(s, opts, e) == ParseUncached(s, opts, f) {
        SpellingUnused(s, opts, e, f);
      }
    } else {
      WitnessMessage(opts, e);
      WitnessMessage(opts, f);
      hide *;
      MessageSpelling(WitnessFeature(opts), e, f, AtomText(WITNESS));
    }
  }
}
