// The parser and the printer of atoms are inverse to each other, for every
// text and every option set, and the accepted language is the set of texts of
// well-formed atoms.
module AtomExact {
  import opened Wrappers
  import opened Text
  import opened Eapi
  import opened UseDeps
  import opened AtomParser
  import G = AtomGrammar
  import P = AtomPatterns

  // ----- The captures an atom stands for -----

  function VersionOf(a: Atom): Option<G.Vr> {
    if a.version.Some? then Some(G.Vr(a.version.value, a.revision)) else None
  }

  function SlotOpChar(op: Option<SlotOperator>): Option<char> {
    match op
    case None => None
    case Some(AnySlot) => Some('*')
    case Some(EqualSlot) => Some('=')
  }

  function SlotPartOf(a: Atom): Option<G.SlotPart> {
    if a.slot.None? && a.slotOperator.None? then None
    else Some(G.SlotPart(a.slot, a.subSlot, SlotOpChar(a.slotOperator)))
  }

  function SuffixOf(a: Atom): G.Suffix {
    G.Suffix(SlotPartOf(a), a.repo, if a.useDeps.Some? then Some(BlockText(a.useDeps.value)) else None)
  }

  function KindOf(a: Atom): G.Kind {
    if a.extended then if a.operator == EqGlob then G.Star else G.Simple
    else if a.operator == NoOperator then G.Bare
    else G.Versioned
  }

  function SplitOf(a: Atom): G.Split3 {
    if a.buildId.Some? then G.Split3(a.package, VersionOf(a), Some(G.Vr(a.buildId.value, None)))
    else G.Split3(a.package, None, VersionOf(a))
  }

  function CapsOf(a: Atom): P.Caps {
    P.Caps(KindOf(a), WrittenOp(a.operator), a.category, SplitOf(a), a.operator == EqGlob && !a.extended, SuffixOf(a))
  }

  function PartsOf(a: Atom): NameParts {
    NameParts(a.operator, a.category, a.package, a.version, a.revision, a.buildId)
  }

  // What every atom the parser builds satisfies, before any language question.
  predicate Coherent(a: Atom) {
    && (a.version.None? ==> a.revision.None? && a.buildId.None? && a.operator != EqGlob)
    && (a.operator == EqGlob ==> a.buildId.None?)
    && (a.slot.None? ==> a.subSlot.None?)
  }

  lemma ReadableCoherent(a: Atom, opts: AtomOptions)
    requires Readable(a, opts)
    ensures Coherent(a)
  {
    hide G.EndsLikeVersion, Contains, G.ValidVr, G.IsStarVersion;
  }

  // The name and version text of an atom is the one its captures spell.
  lemma VersionTexts(a: Atom)
    requires Coherent(a)
    ensures a.package + VersionText(a) == G.SplitText(SplitOf(a)) + P.GlobText(CapsOf(a).glob)
  {
    hide *;
    NameCases(a);
    if a.version.Some? {
      var v := a.version.value + G.RevText(a.revision);
      if a.buildId.Some? {
        AssocTail(a.package, v, a.buildId.value);
      } else {
        AssocGlob(a.package, v, P.GlobText(CapsOf(a).glob));
      }
    } else {
      assert a.package + "" == a.package;
      assert a.package + "" + "" == a.package;
    }
  }

  // The texts of the three shapes of a name, part by part.
  lemma NameCases(a: Atom)
    requires Coherent(a)
    ensures a.version.None? ==>
      VersionText(a) == "" && G.SplitText(SplitOf(a)) == a.package + "" && P.GlobText(CapsOf(a).glob) == ""
    ensures a.version.Some? && a.buildId.Some? ==>
      var v := a.version.value + G.RevText(a.revision);
      && VersionText(a) == "-" + (v + ("-" + a.buildId.value))
      && G.SplitText(SplitOf(a)) == a.package + ("-" + v + ("-" + a.buildId.value))
      && P.GlobText(CapsOf(a).glob) == ""
    ensures a.version.Some? && a.buildId.None? ==>
      var v := a.version.value + G.RevText(a.revision);
      && VersionText(a) == "-" + (v + P.GlobText(CapsOf(a).glob))
      && G.SplitText(SplitOf(a)) == a.package + ("-" + v)
  {
    hide SuffixOf;
    if a.version.Some? {
      if a.buildId.Some? {
        NameWithBuildId(a);
      } else {
        NameWithoutBuildId(a);
      }
    }
  }

  lemma NameWithBuildId(a: Atom)
    requires a.version.Some? && a.buildId.Some? && Coherent(a)
    ensures var v := a.version.value + G.RevText(a.revision);
      && VersionText(a) == "-" + (v + ("-" + a.buildId.value))
      && G.SplitText(SplitOf(a)) == a.package + ("-" + v + ("-" + a.buildId.value))
  {
    hide G.RevText;
    var rev, b := G.RevText(a.revision), a.buildId.value;
    assert G.RevText(None) == "" by { NoRev(); }
    Assoc(a.version.value, rev, "-" + b);
    assert b + "" == b;
    assert "-" + (a.version.value + rev) + ("-" + b) == ("-" + (a.version.value + rev)) + ("-" + b);
  }

  lemma NameWithoutBuildId(a: Atom)
    requires a.version.Some? && a.buildId.None? && Coherent(a)
    ensures var v := a.version.value + G.RevText(a.revision);
      && VersionText(a) == "-" + (v + P.GlobText(CapsOf(a).glob))
      && G.SplitText(SplitOf(a)) == a.package + ("-" + v)
  {
    hide G.RevText, SuffixOf;
    var rev := G.RevText(a.revision);
    Assoc(a.version.value, rev, P.GlobText(CapsOf(a).glob));
    assert "" + ("-" + (a.version.value + rev)) == "-" + (a.version.value + rev);
  }

  lemma NoRev()
    ensures G.RevText(None) == ""
  {
  }

  lemma AssocTail(p: string, v: string, b: string)
    ensures p + ("-" + (v + ("-" + b))) == p + ("-" + v + ("-" + b)) + ""
  {
    assert "-" + (v + ("-" + b)) == "-" + v + ("-" + b);
    assert p + ("-" + v + ("-" + b)) + "" == p + ("-" + v + ("-" + b));
  }

  lemma AssocGlob(p: string, v: string, g: string)
    ensures p + ("-" + (v + g)) == p + ("-" + v) + g
  {
    assert "-" + (v + g) == "-" + v + g;
    assert p + ("-" + v + g) == p + ("-" + v) + g;
  }

  lemma SlotTexts(a: Atom)
    requires Coherent(a)
    ensures G.SuffixText(SuffixOf(a)) == SlotText(a) + (G.OptText("::", a.repo) + UseText(a))
  {
    hide BlockText;
    var tail := G.OptText("::", a.repo) + UseText(a);
    assert G.TailText(SuffixOf(a)) == tail by {
      assert "" + UseText(a) == UseText(a);
    }
    var op := SlotOperatorText(a.slotOperator);
    assert G.SlotOpText(SlotOpChar(a.slotOperator)) == op;
    if a.slot.Some? {
      assert "" + a.slot.value == a.slot.value;
      assert SlotText(a) == ":" + (a.slot.value + (G.OptText("/", a.subSlot) + op));
    } else {
      assert "" + ("" + op) == op;
      assert SlotText(a) == if a.slotOperator.Some? then ":" + op else "";
      assert "" + tail == tail;
    }
  }

  lemma AtomTexts(a: Atom)
    requires Coherent(a)
    ensures AtomText(a) == BlockerText(a.blocker) + P.CapsText(CapsOf(a))
  {
    hide G.SplitText, P.GlobText, G.SuffixText, VersionText, SlotText, UseText, BlockerText, SplitOf, SuffixOf,
      WrittenOp, KindOf;
    VersionTexts(a);
    SlotTexts(a);
    var c := CapsOf(a);
    var tail := G.OptText("::", a.repo) + UseText(a);
    BodyAssoc(a.category, a.package, VersionText(a), SlotText(a) + tail,
              G.SplitText(SplitOf(a)), P.GlobText(c.glob), G.SuffixText(SuffixOf(a)));
  }

  lemma BodyAssoc(cat: string, pkg: string, v: string, t: string, w: string, g: string, u: string)
    requires pkg + v == w + g && t == u
    ensures cat + ("/" + (pkg + (v + t))) == cat + ("/" + (w + (g + u)))
  {
    assert pkg + (v + t) == (pkg + v) + t;
    assert w + (g + u) == (w + g) + u;
  }

  // ----- From well-formed atoms to captures -----

  lemma OperatorTexts(op: Operator)
    requires op != NoOperator
    ensures WrittenOp(op) in P.OPERATORS
    ensures op != EqGlob ==> OperatorOf(WrittenOp(op)) == op
  {
    assert P.OPERATORS[0] == "=" && P.OPERATORS[1] == ">=" && P.OPERATORS[2] == ">";
    assert P.OPERATORS[3] == "<=" && P.OPERATORS[4] == "<" && P.OPERATORS[5] == "~";
  }

  lemma SlotPartValid(a: Atom, slotOperator: bool)
    requires WellFormedSlot(a, slotOperator)
    ensures SlotPartOf(a).Some? ==> G.ValidSlotPart(SlotPartOf(a).value)
    ensures ReadSlot(SlotPartOf(a), slotOperator) == Some(SlotFields(a.slot, a.subSlot, a.slotOperator))
  {
    if SlotPartOf(a).Some? {
      var sp := SlotPartOf(a).value;
      var text := G.SlotPartText(sp);
      if !slotOperator {
        var slot := a.slot.value;
        assert text == slot by {
          assert slot + ("" + "") == slot && "" + slot == slot;
        }
      } else if a.slot.Some? {
        assert text[0] == a.slot.value[0];
      } else {
        assert text[|text| - 1] == sp.op.value;
      }
    }
  }

  lemma UseBlockValid(a: Atom)
    requires a.useDeps.Some? ==> ValidDeps(a.useDeps.value)
    ensures SuffixOf(a).usedeps.Some? ==> G.IsUseText(SuffixOf(a).usedeps.value)
    ensures ReadUse(SuffixOf(a).usedeps) == Ok(a.useDeps)
  {
    if a.useDeps.Some? {
      var deps := a.useDeps.value;
      BlockRoundTrip(BlockText(deps), deps);
      BlockChars(deps);
      hide ValidDeps, ParseUseDeps;
      var text := BlockText(deps);
      assert text[0] == '[' && text[|text| - 1] == ']';
    }
  }

  lemma SuffixValid(a: Atom, opts: AtomOptions)
    requires Readable(a, opts)
    ensures G.ValidSuffix(SuffixOf(a)) && P.SuffixOk(KindOf(a), SuffixOf(a))
    ensures ReadSlot(SuffixOf(a).slotpart, AttrsOf(opts.eapi).slotOperator) ==
      Some(SlotFields(a.slot, a.subSlot, a.slotOperator))
    ensures ReadUse(SuffixOf(a).usedeps) == Ok(a.useDeps)
  {
    hide WellFormedName, WellFormedSlot, ValidDeps, MissingFeature, AttrsOf, ReadSlot, ReadUse, G.IsRepo, G.IsUseText,
      G.ValidSlotPart, SlotPartOf;
    SlotPartValid(a, AttrsOf(opts.eapi).slotOperator);
    UseBlockValid(a);
  }

  lemma CapsValid(a: Atom, opts: AtomOptions)
    requires Readable(a, opts)
    ensures P.ValidCaps(CapsOf(a))
  {
    hide Readable, G.ValidSuffix, P.SuffixOk, SuffixOf, G.ValidSplit, G.CatOk;
    SuffixValid(a, opts);
    NameValid(a, opts);
    if a.operator != NoOperator {
      OperatorTexts(a.operator);
    }
  }

  lemma NameValid(a: Atom, opts: AtomOptions)
    requires Readable(a, opts)
    ensures G.CatOk(KindOf(a), a.category) && G.ValidSplit(KindOf(a), SplitOf(a))
    ensures a.extended ==> a.operator in {NoOperator, EqGlob}
  {
    hide G.EndsLikeVersion, Contains, G.IsStarVersion, G.IsVersion, WellFormedSlot, ValidDeps, MissingFeature;
    if a.buildId.Some? {
      G.DigitsAreVersion(a.buildId.value);
    }
  }

  lemma NameTexts(a: Atom)
    requires Coherent(a) && !CapsOf(a).glob
    ensures NameText(CapsOf(a)) == WrittenOp(a.operator) + (a.category + ("/" + (a.package + VersionText(a))))
  {
    hide G.SplitText, VersionText, SuffixOf, WrittenOp;
    VersionTexts(a);
    var w := G.SplitText(SplitOf(a));
    assert w + "" == w;
  }

  // ----- Completeness: what a well-formed atom spells is parsed to it -----

  // The captures of a well-formed atom's text, and the name they give.
  ghost predicate Captured(a: Atom, opts: AtomOptions) {
    var r := Captures(P.CapsText(CapsOf(a)), opts.allowWildcard);
    && r.Some?
    && r.value == CapsOf(a).(split := r.value.split)
    && ReadName(r.value, AllowBuildId(opts)) == Some(PartsOf(a))
  }

  lemma StrictCaptured(a: Atom, opts: AtomOptions)
    requires Readable(a, opts) && !a.extended
    ensures Captured(a, opts)
  {
    hide *;
    CapsValid(a, opts);
    StrictSplit(a, opts);
    StrictName(a, opts);
    CapturesStrict(a, opts);
  }

  lemma CapturesStrict(a: Atom, opts: AtomOptions)
    requires P.IsStrict(CapsOf(a))
    requires G.SplitName(KindOf(a), G.SplitText(SplitOf(a))) == Some(SplitOf(a))
    requires ReadName(CapsOf(a), AllowBuildId(opts)) == Some(PartsOf(a))
    ensures Captured(a, opts)
  {
    hide P.IsStrict, P.StrictCaptures, G.SplitName, ReadName, G.SplitText, SplitOf, SuffixOf, P.CapsText, AllowBuildId;
    P.StrictOf(CapsOf(a));
  }

  lemma StrictSplit(a: Atom, opts: AtomOptions)
    requires Readable(a, opts) && !a.extended
    ensures P.IsStrict(CapsOf(a))
    ensures G.SplitName(KindOf(a), G.SplitText(SplitOf(a))) == Some(SplitOf(a))
  {
    CapsValid(a, opts);
    NameValid(a, opts);
    var x, w := SplitOf(a), G.SplitText(SplitOf(a));
    G.IntroReads(KindOf(a), w, x);
    if KindOf(a).Bare? {
      assert w == a.package;
      G.BareCanonical(w);
      hide G.EndsLikeVersion, G.ReadsName, G.SplitName, P.ValidCaps;
    } else {
      G.VersionedCanonical(w, x);
      hide G.EndsLikeVersion, G.ReadsName, G.SplitName, P.ValidCaps;
    }
  }

  lemma StrictName(a: Atom, opts: AtomOptions)
    requires Readable(a, opts) && !a.extended
    ensures ReadName(CapsOf(a), AllowBuildId(opts)) == Some(PartsOf(a))
  {
    hide G.EndsLikeVersion, G.ValidVr, WellFormedSlot, ValidDeps, MissingFeature, SuffixOf, AllowBuildId;
    if a.operator != NoOperator {
      OperatorTexts(a.operator);
    }
  }

  lemma SimpleNotStrict(a: Atom, opts: AtomOptions)
    requires Readable(a, opts) && a.extended && a.operator == NoOperator
    ensures P.StrictCaptures(P.CapsText(CapsOf(a))).None?
  {
    hide *;
    var c := CapsOf(a);
    CapsValid(a, opts);
    SimpleFacts(a, opts);
    SimpleCaps(a, opts);
    P.WildHead(c);
    var s := P.CapsText(c);
    CapsTextParts(c);
    P.TakeOpOf("", P.BodyText(c));
    if P.StrictCaptures(s).Some? {
      P.StrictSound(s);
      P.StrictKind(s);
      var d := P.StrictCaptures(s).value;
      CapsTextParts(d);
      StrictValid(d);
      P.StrictMeetsSimple(c, d);
    }
  }

  lemma SimpleCaps(a: Atom, opts: AtomOptions)
    requires Readable(a, opts) && a.extended && a.operator == NoOperator && P.ValidCaps(CapsOf(a))
    ensures var c := CapsOf(a);
      && P.IsWild(c) && c.op == "" && c.kind == G.Simple && c.split == SplitOf(a)
      && !(G.IsCat(c.cat) && G.IsPkg(a.package))
      && "" + P.CapsText(c) == P.CapsText(c)
  {
    hide Contains, SplitOf, SuffixOf, G.IsCat, G.IsPkg, G.IsExtCat, G.IsExtPkg, WellFormedSlot, P.CapsText;
  }

  lemma CapsTextParts(c: P.Caps)
    ensures P.CapsText(c) == c.op + P.BodyText(c)
    ensures c.op == "" ==> P.CapsText(c) == P.BodyText(c)
  {
    hide P.BodyText;
  }

  lemma StrictValid(c: P.Caps)
    requires P.IsStrict(c)
    ensures P.ValidCaps(c) && (c.kind.Versioned? || c.kind.Bare?)
  {
  }

  lemma StarNotStrict(a: Atom, opts: AtomOptions)
    requires Readable(a, opts) && a.extended && a.operator == EqGlob
    ensures P.StrictCaptures(P.CapsText(CapsOf(a))).None?
  {
    var c := CapsOf(a);
    CapsValid(a, opts);
    assert P.IsWild(c);
    P.WildHead(c);
    assert c.op == "=" && c.kind.Star? && P.OPERATORS[0] == "=";
    hide *;
    var s := P.CapsText(c);
    CapsTextParts(c);
    P.TakeOpOf("=", P.BodyText(c));
    if P.StrictCaptures(s).Some? {
      P.StrictSound(s);
      P.StrictKind(s);
      var d := P.StrictCaptures(s).value;
      CapsTextParts(d);
      StrictValid(d);
      P.StrictNeverStar(c, d);
      SamePrefix("=", P.BodyText(c), P.BodyText(d));
    }
  }

  lemma SamePrefix(p: string, x: string, y: string)
    ensures p + x == p + y ==> x == y
  {
    assert (p + x)[|p|..] == x && (p + y)[|p|..] == y;
  }

  lemma WildCaptured(a: Atom, opts: AtomOptions)
    requires Readable(a, opts) && a.extended
    ensures Captured(a, opts)
  {
    CapsValid(a, opts);
    NameValid(a, opts);
    if a.operator == EqGlob {
      StarNotStrict(a, opts);
      StarName(a, opts);
    } else {
      SimpleNotStrict(a, opts);
      SimpleName(a, opts);
    }
    var c := CapsOf(a);
    assert P.IsWild(c) && opts.allowWildcard;
    hide *;
    CapturesWild(a, opts);
  }

  lemma CapturesWild(a: Atom, opts: AtomOptions)
    requires P.IsWild(CapsOf(a)) && opts.allowWildcard
    requires P.StrictCaptures(P.CapsText(CapsOf(a))).None?
    requires var split := G.SplitName(KindOf(a), G.SplitText(SplitOf(a)));
      split.Some? && ReadName(CapsOf(a).(split := split.value), AllowBuildId(opts)) == Some(PartsOf(a))
    ensures Captured(a, opts)
  {
    hide P.IsWild, P.StrictCaptures, P.WildCaptures, G.SplitName, ReadName, G.SplitText, SplitOf, SuffixOf,
      P.CapsText, AllowBuildId;
    P.WildOf(CapsOf(a));
  }

  lemma StarName(a: Atom, opts: AtomOptions)
    requires Readable(a, opts) && a.extended && a.operator == EqGlob
    ensures G.SplitName(KindOf(a), G.SplitText(SplitOf(a))) == Some(SplitOf(a))
    ensures ReadName(CapsOf(a), AllowBuildId(opts)) == Some(PartsOf(a))
    ensures CapsOf(a).(split := SplitOf(a)) == CapsOf(a)
  {
    hide Contains, G.ReadsName, G.SplitName, SuffixOf, NameText, VersionText;
    ReadableCoherent(a, opts);
    NameValid(a, opts);
    NameTexts(a);
    var x, w := SplitOf(a), G.SplitText(SplitOf(a));
    G.IntroReads(KindOf(a), w, x);
    G.StarCanonical(w, x);
  }

  lemma SimpleName(a: Atom, opts: AtomOptions)
    requires Readable(a, opts) && a.extended && a.operator == NoOperator
    ensures var split := G.SplitName(KindOf(a), G.SplitText(SplitOf(a)));
      split.Some? && ReadName(CapsOf(a).(split := split.value), AllowBuildId(opts)) == Some(PartsOf(a))
  {
    hide *;
    SimpleFacts(a, opts);
    NameValid(a, opts);
    var x, w := SplitOf(a), a.package;
    G.IntroReads(KindOf(a), w, x);
    G.SplitNameLazy(KindOf(a), w, x);
    G.SplitNameSound(KindOf(a), w);
    var y := G.SplitName(KindOf(a), w).value;
    NoDotVersion(y, w);
    SimpleReadName(a, y, AllowBuildId(opts));
  }

  lemma SimpleFacts(a: Atom, opts: AtomOptions)
    requires Readable(a, opts) && a.extended && a.operator == NoOperator
    ensures G.SplitText(SplitOf(a)) == a.package && '.' !in a.package && KindOf(a) == G.Simple
    ensures PartsOf(a) == NameParts(NoOperator, a.category, a.package, None, None, None)
    ensures !Contains("" + (a.category + ("/" + a.package)), "**")
  {
    hide *;
    ReadableName(a, opts);
    SimpleWellFormed(a, opts);
    SimpleParts(a);
    assert a.package + "" == a.package;
  }

  lemma SimpleWellFormed(a: Atom, opts: AtomOptions)
    requires WellFormedName(a, opts) && a.extended && a.operator == NoOperator
    ensures a.version.None? && a.revision.None? && a.buildId.None? && '.' !in a.package
    ensures !Contains("" + (a.category + ("/" + (a.package + VersionText(a)))), "**")
  {
    hide Contains, G.IsCat, G.IsPkg, G.IsExtCat, VersionText, G.IsStarVersion;
  }

  lemma SimpleParts(a: Atom)
    requires a.extended && a.operator == NoOperator && a.version.None? && a.revision.None? && a.buildId.None?
    ensures G.SplitText(SplitOf(a)) == a.package && KindOf(a) == G.Simple && VersionText(a) == ""
    ensures PartsOf(a) == NameParts(NoOperator, a.category, a.package, None, None, None)
  {
    assert a.package + "" == a.package;
  }

  lemma ReadableName(a: Atom, opts: AtomOptions)
    requires Readable(a, opts)
    ensures WellFormedName(a, opts)
  {
    hide WellFormedName;
  }

  lemma SimpleReadName(a: Atom, y: G.Split3, allowBuildId: bool)
    requires KindOf(a) == G.Simple && G.SplitText(y) == a.package
    requires y.vr.Some? ==> '.' !in y.vr.value.ver
    requires PartsOf(a) == NameParts(NoOperator, a.category, a.package, None, None, None)
    requires !Contains("" + (a.category + ("/" + a.package)), "**")
    ensures ReadName(CapsOf(a).(split := y), allowBuildId) == Some(PartsOf(a))
  {
    hide Contains, G.SplitText, SuffixOf;
    assert WrittenOp(a.operator) == "";
  }

  lemma NoDotVersion(y: G.Split3, w: string)
    requires G.ReadsName(G.Simple, w, y) && '.' !in w
    ensures y.vr.Some? ==> '.' !in y.vr.value.ver
    ensures G.SplitText(y) == w
  {
    if y.vr.Some? {
      var ver := y.vr.value.ver;
      var r := G.RevText(y.vr.value.rev);
      assert w == y.pkg + ("" + ("-" + (ver + r)));
      assert forall c | c in ver :: c in w;
    }
  }

  lemma StripBlockerOf(b: Blocker, rest: string)
    requires rest != "" && rest[0] != '!'
    ensures StripBlocker(BlockerText(b) + rest) == (b, rest)
  {
    var s := BlockerText(b) + rest;
    StripOf(BlockerText(b), rest);
    match b
    case NoBlocker => assert s == rest;
    case Weak => assert s[1] == rest[0];
    case Strong =>
  }

  lemma CapsHead(a: Atom, opts: AtomOptions)
    requires Readable(a, opts)
    ensures P.CapsText(CapsOf(a)) != "" && P.CapsText(CapsOf(a))[0] != '!'
  {
    hide *;
    CapsValid(a, opts);
    P.CapsStart(CapsOf(a));
  }

  // The remaining stages, once the captures are known.
  lemma ReadSteps(s: string, opts: AtomOptions, a: Atom, c: P.Caps, rest: string)
    requires StripBlocker(s) == (a.blocker, rest)
    requires Captures(rest, opts.allowWildcard) == Some(c)
    requires ReadName(c, AllowBuildId(opts)) == Some(PartsOf(a))
    requires ReadSlot(c.suffix.slotpart, AttrsOf(opts.eapi).slotOperator) ==
      Some(SlotFields(a.slot, a.subSlot, a.slotOperator))
    requires ReadUse(c.suffix.usedeps) == Ok(a.useDeps)
    requires c.suffix.repo == a.repo && (a.repo.Some? ==> AllowRepo(opts))
    requires G.IsWildKind(c.kind) == a.extended
    ensures ReadAtom(s, opts) == Ok(a)
  {
    hide StripBlocker, Captures, ReadName, ReadSlot, ReadUse, AllowRepo, AllowBuildId, AttrsOf, G.IsWildKind;
  }

  lemma ParseSteps(s: string, opts: AtomOptions, eapiText: string, a: Atom)
    requires ReadAtom(s, opts) == Ok(a)
    requires MissingFeature(opts, a.slot, a.useDeps, a.blocker).None?
    ensures ParseUncached(s, opts, eapiText) == Ok(a)
  {
    hide ReadAtom, MissingFeature;
  }

  lemma WellFormedCases(a: Atom, opts: AtomOptions)
    ensures WellFormed(a, opts) <==> Readable(a, opts) && MissingFeature(opts, a.slot, a.useDeps, a.blocker).None?
  {
    hide Readable, MissingFeature;
  }

  lemma ReadableParts(a: Atom, opts: AtomOptions)
    requires Readable(a, opts)
    ensures a.repo.Some? ==> AllowRepo(opts)
    ensures CapsOf(a).suffix == SuffixOf(a) && SuffixOf(a).repo == a.repo
    ensures G.IsWildKind(CapsOf(a).kind) == a.extended
  {
    hide WellFormedName, MissingFeature, AllowRepo, AttrsOf;
  }

  lemma CapturedParts(a: Atom, opts: AtomOptions)
    requires Captured(a, opts)
    ensures var r := Captures(P.CapsText(CapsOf(a)), opts.allowWildcard);
      && r.Some? && ReadName(r.value, AllowBuildId(opts)) == Some(PartsOf(a))
      && r.value.suffix == CapsOf(a).suffix && r.value.kind == CapsOf(a).kind
  {
    hide Captures, ReadName, P.CapsText, CapsOf;
  }

  lemma ReadComplete(a: Atom, opts: AtomOptions)
    requires Readable(a, opts)
    ensures ReadAtom(AtomText(a), opts) == Ok(a)
  {
    hide *;
    if a.extended { WildCaptured(a, opts); } else { StrictCaptured(a, opts); }
    CapturedParts(a, opts);
    ReadableCoherent(a, opts);
    AtomTexts(a);
    CapsHead(a, opts);
    var rest := P.CapsText(CapsOf(a));
    StripBlockerOf(a.blocker, rest);
    SuffixValid(a, opts);
    ReadableParts(a, opts);
    ReadSteps(AtomText(a), opts, a, Captures(rest, opts.allowWildcard).value, rest);
  }

  lemma ParseComplete(a: Atom, opts: AtomOptions, eapiText: string)
    requires WellFormed(a, opts)
    ensures ParseUncached(AtomText(a), opts, eapiText) == Ok(a)
  {
    hide *;
    WellFormedCases(a, opts);
    ReadComplete(a, opts);
    ParseSteps(AtomText(a), opts, eapiText, a);
  }

  // ----- Soundness: what the parser accepts is well-formed and spells the text -----

  // The stages of a successful parse.
  lemma ReadStages(s: string, opts: AtomOptions) returns (c: P.Caps, rest: string)
    requires ReadAtom(s, opts).Ok?
    ensures var a := ReadAtom(s, opts).value;
      && StripBlocker(s) == (a.blocker, rest) && BlockerText(a.blocker) + rest == s
      && Captures(rest, opts.allowWildcard) == Some(c)
      && ReadName(c, AllowBuildId(opts)) == Some(PartsOf(a))
      && ReadSlot(c.suffix.slotpart, AttrsOf(opts.eapi).slotOperator) ==
        Some(SlotFields(a.slot, a.subSlot, a.slotOperator))
      && ReadUse(c.suffix.usedeps) == Ok(a.useDeps)
      && c.suffix.repo == a.repo && (a.repo.Some? ==> AllowRepo(opts))
      && G.IsWildKind(c.kind) == a.extended
  {
    hide StripBlocker, Captures, ReadName, ReadSlot, ReadUse, AllowRepo, AllowBuildId, AttrsOf, G.IsWildKind,
      BlockerText;
    rest := StripBlocker(s).1;
    c := Captures(rest, opts.allowWildcard).value;
  }

  lemma ParseStages(s: string, opts: AtomOptions, eapiText: string)
    requires ParseUncached(s, opts, eapiText).Ok?
    ensures ReadAtom(s, opts) == ParseUncached(s, opts, eapiText)
    ensures var a := ParseUncached(s, opts, eapiText).value;
      MissingFeature(opts, a.slot, a.useDeps, a.blocker).None?
  {
    hide ReadAtom, MissingFeature;
  }

  lemma SlotSound(a: Atom, sp: Option<G.SlotPart>, slotOperator: bool)
    requires sp.Some? ==> G.ValidSlotPart(sp.value)
    requires ReadSlot(sp, slotOperator) == Some(SlotFields(a.slot, a.subSlot, a.slotOperator))
    ensures WellFormedSlot(a, slotOperator)
    ensures SlotText(a) == if sp.Some? then ":" + G.SlotPartText(sp.value) else ""
    ensures sp.Some? && slotOperator ==> sp == SlotPartOf(a)
  {
    if sp.Some? {
      var x := sp.value;
      var text := G.SlotPartText(x);
      assert "" + ("" + G.SlotOpText(x.op)) == G.SlotOpText(x.op);
      assert x.slot.Some? ==> "" + x.slot.value == x.slot.value;
      if !slotOperator {
        assert SlotText(a) == ":" + text by {
          assert text + ("" + "") == text;
        }
      }
    }
  }

  lemma UseSound(a: Atom, u: Option<string>)
    requires ReadUse(u) == Ok(a.useDeps)
    ensures a.useDeps.Some? ==> ValidDeps(a.useDeps.value)
    ensures u == if a.useDeps.Some? then Some(BlockText(a.useDeps.value)) else None
  {
    if u.Some? {
      BlockRoundTrip(u.value, a.useDeps.value);
      hide ParseUseDeps, ValidDeps, BlockText;
    }
  }

  // The suffix text of the captures, rebuilt from the atom's fields.
  lemma SuffixSound(a: Atom, x: G.Suffix, slotOperator: bool)
    requires G.ValidSuffix(x)
    requires ReadSlot(x.slotpart, slotOperator) == Some(SlotFields(a.slot, a.subSlot, a.slotOperator))
    requires ReadUse(x.usedeps) == Ok(a.useDeps) && x.repo == a.repo
    ensures G.SuffixText(x) == SlotText(a) + (G.OptText("::", a.repo) + UseText(a))
  {
    SlotSound(a, x.slotpart, slotOperator);
    UseSound(a, x.usedeps);
    hide ReadSlot, ReadUse, G.SlotPartText, SlotText, BlockText, G.ValidSuffix;
    assert G.OptText("", x.usedeps) == UseText(a) by {
      assert "" + UseText(a) == UseText(a);
    }
  }

  // The name text of the captures, rebuilt from the atom's fields.
  lemma NameSound(a: Atom, c: P.Caps, allowBuildId: bool)
    requires P.ValidCaps(c) && !c.kind.Plain?
    requires ReadName(c, allowBuildId) == Some(PartsOf(a)) && G.IsWildKind(c.kind) == a.extended
    ensures c.op == WrittenOp(a.operator) && c.cat == a.category
    ensures G.SplitText(c.split) + P.GlobText(c.glob) == a.package + VersionText(a)
  {
    hide Contains, G.ValidSuffix, P.SuffixOk, G.CatOk, G.IsVersion, G.IsDigits, G.IsStarVersion;
    var x := c.split;
    assert G.RevText(None) == "";
    match c.kind {
      case Simple =>
        assert G.SplitText(x) + "" == G.SplitText(x) && a.package + "" == a.package;
      case Star =>
        assert x.vr.value.ver + "" == x.vr.value.ver;
        assert "" + G.VrText(x.vr) == G.VrText(x.vr);
        assert G.SplitText(x) + "" == G.SplitText(x);
      case Bare =>
        assert a.package + ("" + "") + "" == a.package + "";
      case Versioned =>
        VersionedSound(a, c, allowBuildId);
    }
  }

  lemma VersionedSound(a: Atom, c: P.Caps, allowBuildId: bool)
    requires P.ValidCaps(c) && c.kind.Versioned?
    requires ReadName(c, allowBuildId) == Some(PartsOf(a)) && !a.extended
    ensures c.op == WrittenOp(a.operator) && c.cat == a.category
    ensures G.SplitText(c.split) + P.GlobText(c.glob) == a.package + VersionText(a)
    ensures c.split == SplitOf(a) && c.glob == (a.operator == EqGlob)
    ensures a.buildId.Some? ==> allowBuildId && a.operator != EqGlob && WellFormedBuildId(a.buildId.value)
    ensures a.version.Some? && a.operator != NoOperator
  {
    hide *;
    VersionedRead(a, c, allowBuildId);
    VersionedOperator(c, a.operator);
    var b := a.(slot := None, subSlot := None);
    WithoutSlot(a);
    VersionTexts(b);
  }

  lemma VersionedVr(c: P.Caps)
    requires P.ValidCaps(c) && c.kind.Versioned?
    ensures c.op in P.OPERATORS && c.split.vr.Some? && c.split.vr.value.ver != ""
  {
    hide G.IsVersion, G.ValidSuffix, P.SuffixOk, G.CatOk, G.PkgOk;
    G.VersionChars(c.split.vr.value.ver);
  }

  // What the second stage takes from the captures of a versioned name.
  lemma VersionedRead(a: Atom, c: P.Caps, allowBuildId: bool)
    requires P.ValidCaps(c) && c.kind.Versioned?
    requires ReadName(c, allowBuildId) == Some(PartsOf(a))
    ensures c.op in P.OPERATORS && c.cat == a.category && a.version.Some?
    ensures a.operator == (if c.glob then EqGlob else OperatorOf(c.op)) && (c.glob ==> c.op == "=")
    ensures c.split == SplitOf(a)
    ensures a.operator == EqGlob && c.glob ==> a.buildId.None?
    ensures a.buildId.Some? ==> allowBuildId && !c.glob && WellFormedBuildId(a.buildId.value)
  {
    hide G.IsVersion, G.ValidSuffix, P.SuffixOk, G.CatOk, G.PkgOk, OperatorOf, P.ValidCaps;
    VersionedVr(c);
  }

  // The slot has no part in the name and version text.
  lemma WithoutSlot(a: Atom)
    requires a.version.Some? && (a.operator == EqGlob ==> a.buildId.None?)
    ensures var b := a.(slot := None, subSlot := None);
      Coherent(b) && SplitOf(b) == SplitOf(a) && VersionText(b) == VersionText(a) && b.package == a.package
        && CapsOf(b).glob == (a.operator == EqGlob && !a.extended)
  {
    hide SuffixOf, WrittenOp, KindOf;
  }

  lemma VersionedOperator(c: P.Caps, operator: Operator)
    requires c.op in P.OPERATORS
    requires operator == if c.glob then EqGlob else OperatorOf(c.op)
    requires c.glob ==> c.op == "="
    ensures c.op == WrittenOp(operator) && operator != NoOperator && (operator == EqGlob <==> c.glob)
  {
  }

  // Which pattern produced the captures.
  lemma CapturesCases(rest: string, allowWildcard: bool)
    requires Captures(rest, allowWildcard).Some?
    ensures var c := Captures(rest, allowWildcard).value;
      && P.CapsText(c) == rest && P.ValidCaps(c) && !c.kind.Plain?
      && G.SplitName(c.kind, G.SplitText(c.split)) == Some(c.split)
      && (G.IsWildKind(c.kind) ==> allowWildcard && P.StrictCaptures(rest).None?)
  {
    if P.StrictCaptures(rest).Some? {
      P.StrictSound(rest);
      P.StrictCanonical(rest);
      hide P.ValidCaps, P.StrictCaptures, P.CapsText, G.SplitName, G.SplitText;
    } else {
      P.WildSound(rest);
      P.WildCanonical(rest);
      hide P.ValidCaps, P.StrictCaptures, P.WildCaptures, P.CapsText, G.SplitName, G.SplitText;
    }
  }

  lemma BareNameSound(a: Atom, c: P.Caps, opts: AtomOptions)
    requires P.ValidCaps(c) && c.kind.Bare? && !a.extended
    requires G.SplitName(c.kind, G.SplitText(c.split)) == Some(c.split)
    requires ReadName(c, AllowBuildId(opts)) == Some(PartsOf(a))
    ensures WellFormedName(a, opts)
  {
    assert G.SplitText(c.split) == a.package;
    assert c.split == G.Split3(a.package, None, None);
    G.BareCanonical(a.package);
    hide G.EndsLikeVersion, G.SplitName, G.SplitText, G.ValidSuffix, Contains, AllowBuildId;
  }

  lemma VersionedNameSound(a: Atom, c: P.Caps, opts: AtomOptions)
    requires P.ValidCaps(c) && c.kind.Versioned? && !a.extended
    requires G.SplitName(c.kind, G.SplitText(c.split)) == Some(c.split)
    requires ReadName(c, AllowBuildId(opts)) == Some(PartsOf(a))
    ensures WellFormedName(a, opts)
  {
    hide G.EndsLikeVersion, G.SplitName, G.SplitText, G.ReadsName, G.ValidSuffix, Contains, AllowBuildId, ReadName,
      G.IsVersion, WellFormedBuildId;
    VersionedSound(a, c, AllowBuildId(opts));
    G.IntroReads(c.kind, G.SplitText(c.split), c.split);
    G.VersionedCanonical(G.SplitText(c.split), c.split);
  }

  lemma ExtPkgWhole(x: G.Split3)
    requires G.ValidSplit(G.Simple, x) && (x.vr.Some? ==> '.' !in x.vr.value.ver)
    ensures G.IsExtPkg(G.SplitText(x))
  {
    hide *;
    P.SplitChars(G.Simple, x);
    SimpleNoDot(x);
    ExtPkgOfName(G.SplitText(x));
  }

  lemma ExtPkgOfName(w: string)
    requires AllIn(P.SpanClass(G.Simple), w) && '.' !in w && w != "" && Has(ExtHead, w[0])
    ensures G.IsExtPkg(w)
  {
  }

  lemma SimpleNoDot(x: G.Split3)
    requires G.ValidSplit(G.Simple, x) && (x.vr.Some? ==> '.' !in x.vr.value.ver)
    ensures '.' !in G.SplitText(x) && G.SplitText(x) != "" && Has(ExtHead, G.SplitText(x)[0])
  {
    var w := G.SplitText(x);
    assert '.' !in x.pkg;
    assert w[0] == x.pkg[0];
    if x.vr.Some? {
      hide G.IsVersion;
      VrNoDot(x.vr.value);
    }
  }

  lemma VrNoDot(v: G.Vr)
    requires G.ValidVr(v) && '.' !in v.ver
    ensures '.' !in G.VrText(Some(v))
  {
  }

  lemma SimpleNameSound(a: Atom, c: P.Caps, opts: AtomOptions, rest: string)
    requires P.ValidCaps(c) && c.kind.Simple? && a.extended && opts.allowWildcard
    requires P.CapsText(c) == rest && P.StrictCaptures(rest).None?
    requires ReadName(c, AllowBuildId(opts)) == Some(PartsOf(a))
    ensures WellFormedName(a, opts)
  {
    hide Contains, G.SplitText, G.ValidSuffix, G.ValidSplit, P.CapsText, P.StrictCaptures, AllowBuildId, G.IsExtPkg,
      G.IsExtCat, G.IsCat, G.IsPkg;
    ExtPkgWhole(c.split);
    if G.IsCat(a.category) && G.IsPkg(a.package) {
      StrictTwin(c, rest);
    }
    NameSound(a, c, AllowBuildId(opts));
    assert P.GlobText(false) == "";
    assert G.SplitText(c.split) + "" == G.SplitText(c.split);
  }

  // A wildcard-free name would have been read by the strict pattern.
  lemma StrictTwin(c: P.Caps, rest: string)
    requires P.ValidCaps(c) && c.kind.Simple? && P.CapsText(c) == rest
    requires G.IsCat(c.cat) && G.IsPkg(G.SplitText(c.split))
    ensures P.StrictCaptures(rest).Some?
  {
    var w := G.SplitText(c.split);
    var d := c.(kind := G.Bare, split := G.Split3(w, None, None));
    assert G.SplitText(d.split) == w;
    hide G.SplitText, G.ValidSuffix, P.StrictCaptures, G.IsCat, G.IsPkg;
    assert P.CapsText(d) == rest;
    P.StrictFirst(d);
  }

  lemma StarNameSound(a: Atom, c: P.Caps, opts: AtomOptions)
    requires P.ValidCaps(c) && c.kind.Star? && a.extended && opts.allowWildcard
    requires ReadName(c, AllowBuildId(opts)) == Some(PartsOf(a))
    ensures WellFormedName(a, opts)
  {
    hide Contains, G.SplitText, G.ValidSuffix, AllowBuildId, G.IsExtPkg, G.IsExtCat, G.IsStarVersion;
    NameSound(a, c, AllowBuildId(opts));
    assert P.GlobText(false) == "";
    assert G.SplitText(c.split) + "" == G.SplitText(c.split);
  }

  lemma NameWellFormed(a: Atom, c: P.Caps, opts: AtomOptions, rest: string)
    requires Captures(rest, opts.allowWildcard) == Some(c)
    requires ReadName(c, AllowBuildId(opts)) == Some(PartsOf(a)) && G.IsWildKind(c.kind) == a.extended
    ensures WellFormedName(a, opts)
  {
    CapturesCases(rest, opts.allowWildcard);
    var kind := c.kind;
    assert G.IsWildKind(kind) <==> kind.Simple? || kind.Star?;
    hide *;
    match kind {
      case Bare => BareNameSound(a, c, opts);
      case Versioned => VersionedNameSound(a, c, opts);
      case Simple => SimpleNameSound(a, c, opts, rest);
      case Star => StarNameSound(a, c, opts);
    }
  }

  lemma IntroReadable(a: Atom, opts: AtomOptions)
    requires WellFormedName(a, opts) && WellFormedSlot(a, AttrsOf(opts.eapi).slotOperator)
    requires a.useDeps.Some? ==> !a.extended && ValidDeps(a.useDeps.value)
    requires a.repo.Some? ==> G.IsRepo(a.repo.value) && AllowRepo(opts)
    ensures Readable(a, opts)
  {
    hide WellFormedName, WellFormedSlot, AttrsOf, ValidDeps, G.IsRepo, AllowRepo;
  }

  lemma SuffixFacts(c: P.Caps)
    requires P.ValidCaps(c)
    ensures G.ValidSuffix(c.suffix) && (G.IsWildKind(c.kind) ==> c.suffix.usedeps.None?)
    ensures c.suffix.slotpart.Some? ==> G.ValidSlotPart(c.suffix.slotpart.value)
    ensures c.suffix.repo.Some? ==> G.IsRepo(c.suffix.repo.value)
  {
  }

  lemma ReadSound(s: string, opts: AtomOptions)
    requires ReadAtom(s, opts).Ok?
    ensures Readable(ReadAtom(s, opts).value, opts) && AtomText(ReadAtom(s, opts).value) == s
  {
    hide *;
    var a := ReadAtom(s, opts).value;
    var c, rest := ReadStages(s, opts);
    var slotOperator := AttrsOf(opts.eapi).slotOperator;
    CapturesCases(rest, opts.allowWildcard);
    SuffixFacts(c);
    NameWellFormed(a, c, opts, rest);
    SlotSound(a, c.suffix.slotpart, slotOperator);
    UseSound(a, c.suffix.usedeps);
    IntroReadable(a, opts);
    NameSound(a, c, AllowBuildId(opts));
    SuffixSound(a, c.suffix, slotOperator);
    TextSound(a, c, rest, s);
  }

  lemma ParseSound(s: string, opts: AtomOptions, eapiText: string)
    requires ParseUncached(s, opts, eapiText).Ok?
    ensures WellFormed(ParseUncached(s, opts, eapiText).value, opts)
    ensures AtomText(ParseUncached(s, opts, eapiText).value) == s
  {
    hide *;
    ParseStages(s, opts, eapiText);
    ReadSound(s, opts);
    WellFormedCases(ParseUncached(s, opts, eapiText).value, opts);
  }

  lemma TextSound(a: Atom, c: P.Caps, rest: string, s: string)
    requires c.op == WrittenOp(a.operator) && c.cat == a.category
    requires G.SplitText(c.split) + P.GlobText(c.glob) == a.package + VersionText(a)
    requires G.SuffixText(c.suffix) == SlotText(a) + (G.OptText("::", a.repo) + UseText(a))
    requires BlockerText(a.blocker) + rest == s && P.CapsText(c) == rest
    ensures AtomText(a) == s
  {
    hide G.SplitText, P.GlobText, G.SuffixText, VersionText, SlotText, UseText, BlockerText, WrittenOp;
    var tail := G.OptText("::", a.repo) + UseText(a);
    BodyAssoc(a.category, a.package, VersionText(a), SlotText(a) + tail,
              G.SplitText(c.split), P.GlobText(c.glob), G.SuffixText(c.suffix));
  }

  // Up to the check of the features: the text is read as the atom exactly when
  // the atom is readable under the options and spells that text.
  lemma ReadExactly(s: string, opts: AtomOptions, a: Atom)
    ensures ReadAtom(s, opts) == Ok(a) <==> Readable(a, opts) && AtomText(a) == s
  {
    hide *;
    if ReadAtom(s, opts) == Ok(a) {
      ReadSound(s, opts);
    }
    if Readable(a, opts) && AtomText(a) == s {
      ReadComplete(a, opts);
    }
  }

  // ----- The main result -----

  // For every text, option set and atom: the text parses to the atom exactly
  // when the atom is well-formed under the options and spells that text.
  lemma ParseExactly(s: string, opts: AtomOptions, eapiText: string, a: Atom)
    ensures ParseUncached(s, opts, eapiText) == Ok(a) <==> WellFormed(a, opts) && AtomText(a) == s
  {
    hide *;
    if ParseUncached(s, opts, eapiText) == Ok(a) {
      ParseSound(s, opts, eapiText);
    }
    if WellFormed(a, opts) && AtomText(a) == s {
      ParseComplete(a, opts, eapiText);
    }
  }
}
