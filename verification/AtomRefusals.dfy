// What `parse_atom_with` says of a text that is no atom: which texts are blamed
// on a token of their USE block, on which token, and that every other refusal
// of the grammar names the text alone.
module AtomRefusals {
  import opened Wrappers
  import opened Text
  import opened Eapi
  import opened UseDeps
  import opened AtomParser
  import opened AtomExact
  import opened AtomLaws
  import G = AtomGrammar
  import P = AtomPatterns

  // An atom without a block, readable when every repository is allowed, since
  // that option is looked at after the block, and behind it a bracketed text
  // that is no list of tokens.
  ghost predicate BadBlock(s: string, opts: AtomOptions, a: Atom, raw: string) {
    && Readable(a, AnyRepo(opts)) && !a.extended && a.useDeps.None?
    && s == AtomText(a) + raw && G.IsUseText(raw) && ParseUseDeps(raw).Err?
  }

  function AnyRepo(opts: AtomOptions): AtomOptions {
    opts.(allowRepo := Some(true))
  }

  lemma AnyRepoCases(a: Atom, opts: AtomOptions)
    ensures AllowRepo(AnyRepo(opts)) && AnyRepo(opts).eapi == opts.eapi
    ensures AllowBuildId(AnyRepo(opts)) == AllowBuildId(opts)
    ensures WellFormedName(a, AnyRepo(opts)) <==> WellFormedName(a, opts)
  {
    hide G.EndsLikeVersion, Contains, G.IsStarVersion, G.ValidVr, G.IsCat, G.IsPkg, G.IsExtCat, G.IsExtPkg,
      WellFormedBuildId, AttrsOf;
  }

  // ----- Such a text is blamed on a token -----

  // The captures of the atom with the block put in.
  function WithBlock(a: Atom, raw: string): P.Caps {
    var c := CapsOf(a);
    c.(suffix := c.suffix.(usedeps := Some(raw)))
  }

  lemma WithBlockText(a: Atom, raw: string)
    requires a.useDeps.None?
    ensures P.CapsText(WithBlock(a, raw)) == P.CapsText(CapsOf(a)) + raw
  {
    hide P.CapsText;
    P.BlockLast(WithBlock(a, raw));
    assert WithBlock(a, raw).(suffix := SuffixOf(a)) == CapsOf(a);
  }

  lemma WithBlockStrict(a: Atom, raw: string)
    requires P.IsStrict(CapsOf(a)) && G.IsUseText(raw)
    ensures var d := WithBlock(a, raw);
      P.IsStrict(d) && d.kind == KindOf(a) && d.split == SplitOf(a) && d.suffix.usedeps == Some(raw)
    ensures WithBlock(a, raw).suffix.slotpart == SuffixOf(a).slotpart
  {
    hide KindOf, SplitOf, SlotPartOf, G.CatOk, G.ValidSplit, G.IsUseText, G.ValidSlotPart, G.IsRepo;
  }

  lemma WithBlockName(a: Atom, raw: string, allowBuildId: bool)
    ensures ReadName(WithBlock(a, raw), allowBuildId) == ReadName(CapsOf(a), allowBuildId)
  {
    hide KindOf, SplitOf, SuffixOf, Contains, G.SplitText, OperatorOf, WrittenOp;
  }

  // The block is blamed: on its first token up to which the tokens are no list.
  lemma RefusedBlock(s: string, opts: AtomOptions, eapiText: string, a: Atom, raw: string) returns (i: nat)
    requires BadBlock(s, opts, a, raw)
    ensures BlockInner(raw).Some?
    ensures var tokens := Split(BlockInner(raw).value, ',');
      && i < |tokens| && ReadTokens(tokens[..i]).Ok? && ReadTokens(tokens[..i + 1]).Err?
      && ParseUseDeps(raw) == Err(tokens[i]) && ParseUncached(s, opts, eapiText) == Err(UseError(tokens[i]))
  {
    hide *;
    BadBlockCases(s, opts, a, raw);
    ParseUseDepsCases(raw);
    var o := AnyRepo(opts);
    AnyRepoCases(a, opts);
    StrictSplit(a, o);
    StrictName(a, o);
    SuffixValid(a, o);
    WithBlockStrict(a, raw);
    WithBlockText(a, raw);
    WithBlockName(a, raw, AllowBuildId(opts));
    var d := WithBlock(a, raw);
    P.StrictOf(d);
    StrictValid(d);
    P.CapsStart(d);
    ReadableCoherent(a, o);
    AtomTexts(a);
    Assoc(BlockerText(a.blocker), P.CapsText(CapsOf(a)), raw);
    StripBlockerOf(a.blocker, P.CapsText(d));
    BlameBlock(s, opts, eapiText, a.blocker, d, P.CapsText(d));
    var tokens := Split(BlockInner(raw).value, ',');
    i := FirstFailure(tokens);
    ReadStep(tokens, i);
  }

  lemma BadBlockCases(s: string, opts: AtomOptions, a: Atom, raw: string)
    requires BadBlock(s, opts, a, raw)
    ensures Readable(a, AnyRepo(opts)) && !a.extended && a.useDeps.None?
    ensures s == AtomText(a) + raw && G.IsUseText(raw)
    ensures BlockInner(raw).Some? && ReadTokens(Split(BlockInner(raw).value, ',')).Err?
    ensures ReadUse(Some(raw)) == Err(ReadTokens(Split(BlockInner(raw).value, ',')).error)
  {
    hide Readable, AnyRepo, AtomText, ReadTokens, Split;
  }

  // The stages up to the block, which is then refused.
  lemma BlameBlock(s: string, opts: AtomOptions, eapiText: string, blocker: Blocker, c: P.Caps, rest: string)
    requires StripBlocker(s) == (blocker, rest) && P.StrictCaptures(rest) == Some(c)
    requires ReadName(c, AllowBuildId(opts)).Some?
    requires ReadSlot(c.suffix.slotpart, AttrsOf(opts.eapi).slotOperator).Some?
    requires ReadUse(c.suffix.usedeps).Err?
    ensures ParseUncached(s, opts, eapiText) == Err(UseError(ReadUse(c.suffix.usedeps).error))
  {
    hide StripBlocker, P.StrictCaptures, P.WildCaptures, ReadName, ReadSlot, ReadUse, AllowBuildId, AttrsOf, UseError;
  }

  // ----- And no other text is -----

  // What was read before a refusal that is not the bare one.
  lemma RefusalStages(s: string, opts: AtomOptions) returns (a: Atom, c: P.Caps, rest: string)
    requires ReadAtom(s, opts).Err? && ReadAtom(s, opts).error != InvalidAtom(s)
    ensures BlockerText(a.blocker) + rest == s && Captures(rest, opts.allowWildcard) == Some(c)
    ensures ReadName(c, AllowBuildId(opts)) == Some(PartsOf(a)) && G.IsWildKind(c.kind) == a.extended
    ensures ReadSlot(c.suffix.slotpart, AttrsOf(opts.eapi).slotOperator) ==
      Some(SlotFields(a.slot, a.subSlot, a.slotOperator))
    ensures c.suffix.usedeps.Some? && ParseUseDeps(c.suffix.usedeps.value).Err?
    ensures a.useDeps.None? && c.suffix.repo == a.repo
  {
    hide StripBlocker, Captures, ReadName, ReadSlot, ParseUseDeps, AllowRepo, AllowBuildId, AttrsOf, G.IsWildKind,
      BlockerText, InvalidAtom, UseError;
    rest := StripBlocker(s).1;
    c := Captures(rest, opts.allowWildcard).value;
    var name := ReadName(c, AllowBuildId(opts)).value;
    var slot := ReadSlot(c.suffix.slotpart, AttrsOf(opts.eapi).slotOperator).value;
    a := MakeAtom(StripBlocker(s).0, c, name, slot, None);
  }

  lemma BlamedText(s: string, opts: AtomOptions) returns (a: Atom, raw: string)
    requires ReadAtom(s, opts).Err? && ReadAtom(s, opts).error != InvalidAtom(s)
    ensures BadBlock(s, opts, a, raw)
  {
    hide *;
    var c, rest;
    a, c, rest := RefusalStages(s, opts);
    raw := c.suffix.usedeps.value;
    var slotOperator := AttrsOf(opts.eapi).slotOperator;
    CapturesCases(rest, opts.allowWildcard);
    SuffixFacts(c);
    NameWellFormed(a, c, opts, rest);
    NameSound(a, c, AllowBuildId(opts));
    SlotSound(a, c.suffix.slotpart, slotOperator);
    var d := c.(suffix := c.suffix.(usedeps := None));
    P.BlockLast(c);
    NoBlockSuffix(c.suffix);
    SuffixSound(a, d.suffix, slotOperator);
    TextSound(a, d, P.CapsText(d), BlockerText(a.blocker) + P.CapsText(d));
    Assoc(BlockerText(a.blocker), P.CapsText(d), raw);
    AnyRepoCases(a, opts);
    IntroReadable(a, AnyRepo(opts));
    IntroBadBlock(s, opts, a, raw);
  }

  lemma NoBlockSuffix(x: G.Suffix)
    requires G.ValidSuffix(x)
    ensures G.ValidSuffix(x.(usedeps := None)) && ReadUse(None) == Ok(None)
    ensures x.usedeps.Some? ==> G.IsUseText(x.usedeps.value)
  {
    hide G.ValidSlotPart, G.IsRepo, G.IsUseText;
  }

  lemma IntroBadBlock(s: string, opts: AtomOptions, a: Atom, raw: string)
    requires Readable(a, AnyRepo(opts)) && !a.extended && a.useDeps.None?
    requires s == AtomText(a) + raw && G.IsUseText(raw) && ParseUseDeps(raw).Err?
    ensures BadBlock(s, opts, a, raw)
  {
    hide Readable, AnyRepo, AtomText, G.IsUseText, ParseUseDeps;
  }

  // Why a text is no atom.  What can be read but for a feature is refused for
  // that feature; otherwise the text alone is named, unless it is an atom but
  // for the tokens of its block.
  lemma RefusedExactly(s: string, opts: AtomOptions, eapiText: string)
    requires ParseUncached(s, opts, eapiText).Err?
    ensures var e := ParseUncached(s, opts, eapiText).error;
      && (e.kind.EapiIncompatible? <==> exists a :: Readable(a, opts) && AtomText(a) == s)
      && (e.kind.Invalid? ==>
        if exists a, raw :: BadBlock(s, opts, a, raw) then
          forall a, raw | BadBlock(s, opts, a, raw) :: e == UseError(ParseUseDeps(raw).error)
        else e == InvalidAtom(s))
  {
    hide *;
    RefusalKinds(s, opts, eapiText);
    var r := ReadAtom(s, opts);
    if r.Ok? {
      ReadExactly(s, opts, r.value);
    } else if r.error != InvalidAtom(s) {
      var a, raw := BlamedText(s, opts);
    }
    forall a | Readable(a, opts) && AtomText(a) == s ensures r.Ok? {
      ReadExactly(s, opts, a);
    }
    forall a, raw | BadBlock(s, opts, a, raw)
      ensures ParseUseDeps(raw).Err?
      ensures ParseUncached(s, opts, eapiText).error == UseError(ParseUseDeps(raw).error)
    {
      var i := RefusedBlock(s, opts, eapiText, a, raw);
    }
  }

  lemma RefusalKinds(s: string, opts: AtomOptions, eapiText: string)
    requires ParseUncached(s, opts, eapiText).Err?
    ensures var r, e := ReadAtom(s, opts), ParseUncached(s, opts, eapiText).error;
      && (r.Ok? <==> e.kind.EapiIncompatible?)
      && (r.Err? ==> r.error == e)
  {
    hide StripBlocker, Captures, ReadName, ReadSlot, ReadUse, AllowRepo, AllowBuildId, AttrsOf, MissingFeature;
  }
}
