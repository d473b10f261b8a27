// Rewriting an atom's USE block for a given parent: when the rewriting
// succeeds, what its result parses to, and that checking the result is
// checking the original.
module Conditionals {
  import opened Wrappers
  import opened Text
  import opened Eapi
  import opened UseDeps
  import opened AtomParser
  import opened AtomExact
  import opened AtomLaws
  import opened UseDepChecks
  import G = AtomGrammar
  import P = AtomPatterns

  // `parse_atom` without its cache.
  function ParseAtom(s: string): Option<Atom> {
    var r := ParseUncached(s, DEFAULT_OPTIONS, "");
    if r.Ok? then Some(r.value) else None
  }

  predicate HasConditional(deps: seq<UseDep>) {
    exists i | 0 <= i < |deps| :: IsConditional(deps[i])
  }

  // The block an evaluated list is rendered to; nothing for an empty list.
  function NewBracket(deps: seq<UseDep>): string {
    if deps == [] then ""
    else "[" + Join(seq(|deps|, i requires 0 <= i < |deps| => EvaluatedTokenText(deps[i])), ',') + "]"
  }

  // The text before the captured USE block.
  function BeforeBlock(s: string): Option<string> {
    var caps := P.StrictCaptures(s);
    if caps.None? then None
    else
      var u := caps.value.suffix.usedeps;
      BlockAtEnd(s);
      if u.None? then Some(s) else Some(s[..|s| - |u.value|])
  }

  lemma BlockAtEnd(s: string)
    requires P.StrictCaptures(s).Some?
    ensures var u := P.StrictCaptures(s).value.suffix.usedeps;
      u.Some? ==> |u.value| <= |s| && s[|s| - |u.value|..] == u.value
  {
    hide P.StrictCaptures;
    P.StrictSound(s);
    var c := P.StrictCaptures(s).value;
    if c.suffix.usedeps.Some? {
      P.BlockLast(c);
    }
  }

  // `evaluate_atom_conditionals`.  The captures are taken from the unstripped
  // text, by the pattern that has no blocker group.
  function EvaluateAtom(s: string, parentUse: set<string>): Option<string> {
    var a := ParseAtom(s);
    if a.None? then None
    else if a.value.useDeps.None? || a.value.useDeps.value == [] then Some(s)
    else if !HasConditional(a.value.useDeps.value) then Some(s)
    else
      var before := BeforeBlock(s);
      if before.None? then None
      else Some(before.value + NewBracket(Evaluate(a.value.useDeps.value, parentUse)))
  }

  // ----- The rewritten atom -----

  // The atom with its list evaluated, the block dropped when nothing is left.
  function Evaluated(a: Atom, parentUse: set<string>): Atom {
    if a.useDeps.None? then a
    else
      var deps := Evaluate(a.useDeps.value, parentUse);
      a.(useDeps := if deps == [] then None else Some(deps))
  }

  // Replacing the list of a well-formed atom keeps it well-formed.
  lemma EvaluatedWellFormed(a: Atom, parentUse: set<string>)
    requires WellFormed(a, DEFAULT_OPTIONS)
    ensures WellFormed(Evaluated(a, parentUse), DEFAULT_OPTIONS)
  {
    if a.useDeps.Some? {
      var deps := a.useDeps.value;
      EvaluateKeepsValid(deps, parentUse);
      var b := Evaluated(a, parentUse);
      assert ValidDeps(deps);
      hide WellFormed, Evaluate, OneDefault;
      OtherBlock(a, b.useDeps);
    }
  }

  lemma OtherBlock(a: Atom, u: Option<seq<UseDep>>)
    requires WellFormed(a, DEFAULT_OPTIONS) && a.useDeps.Some? && (u.Some? ==> ValidDeps(u.value))
    ensures WellFormed(a.(useDeps := u), DEFAULT_OPTIONS)
  {
    hide ValidDeps, G.EndsLikeVersion, Contains, G.IsStarVersion, G.ValidVr, G.IsCat, G.IsPkg, G.IsExtCat, G.IsExtPkg,
      G.IsRepo, G.IsSlot, AllowBuildId, AllowRepo, HasDefault, AttrsOf, WellFormedBuildId;
  }

  // On evaluated lists the two printers agree.
  lemma BracketText(deps: seq<UseDep>)
    requires deps != [] && !HasConditional(deps)
    ensures NewBracket(deps) == BlockText(deps)
  {
    hide EvaluatedTokenText, TokenText;
    forall i | 0 <= i < |deps| ensures EvaluatedTokenText(deps[i]) == TokenText(deps[i]) {
      assert !IsConditional(deps[i]);
      PrintersAgree(deps[i]);
    }
    assert seq(|deps|, i requires 0 <= i < |deps| => EvaluatedTokenText(deps[i])) == TokenTexts(deps);
  }

  lemma NothingConditional(deps: seq<UseDep>, parentUse: set<string>)
    ensures !HasConditional(Evaluate(deps, parentUse))
  {
    forall i | 0 <= i < |Evaluate(deps, parentUse)| ensures !IsConditional(Evaluate(deps, parentUse)[i]) {
      var k := EvaluateOrigin(deps, parentUse, i);
    }
  }

  lemma AtomTextBlock(a: Atom)
    requires a.useDeps.Some?
    ensures AtomText(a) == AtomText(a.(useDeps := None)) + BlockText(a.useDeps.value)
  {
    hide BlockText, VersionText, SlotText, G.OptText, BlockerText, WrittenOp;
    var b := a.(useDeps := None);
    var u := BlockText(a.useDeps.value);
    OtherTexts(a, b);
    var v, t, r := VersionText(a), SlotText(a), G.OptText("::", a.repo);
    assert r + "" == r;
    assert t + (r + u) == t + r + u;
    assert v + (t + r + u) == v + (t + r) + u;
    assert a.package + (v + (t + r) + u) == a.package + (v + (t + r)) + u;
    assert "/" + (a.package + (v + (t + r)) + u) == "/" + (a.package + (v + (t + r))) + u;
    assert AfterOperator(a) == AfterOperator(b) + u;
    assert WrittenOp(a.operator) + (AfterOperator(b) + u) == WrittenOp(a.operator) + AfterOperator(b) + u;
  }

  lemma OtherTexts(a: Atom, b: Atom)
    requires b == a.(useDeps := b.useDeps)
    ensures VersionText(a) == VersionText(b) && SlotText(a) == SlotText(b)
  {
  }

  // Without a blocker the second look at the text finds the same block.
  lemma BlockFound(s: string, a: Atom)
    requires WellFormed(a, DEFAULT_OPTIONS) && AtomText(a) == s && a.blocker == NoBlocker && a.useDeps.Some?
    ensures BeforeBlock(s) == Some(AtomText(a.(useDeps := None)))
  {
    hide *;
    WellFormedCases(a, DEFAULT_OPTIONS);
    ReadableCoherent(a, DEFAULT_OPTIONS);
    PlainAtom(a);
    AtomTexts(a);
    Assoc("", "", P.CapsText(CapsOf(a)));
    StrictSplit(a, DEFAULT_OPTIONS);
    P.StrictOf(CapsOf(a));
    BlockOfCaps(a);
    AtomTextBlock(a);
    ConcatCut(AtomText(a.(useDeps := None)), BlockText(a.useDeps.value));
    BeforeBlockCases(s);
  }

  lemma PlainAtom(a: Atom)
    requires WellFormed(a, DEFAULT_OPTIONS)
    ensures !a.extended && BlockerText(NoBlocker) == ""
  {
  }

  lemma BlockOfCaps(a: Atom)
    requires a.useDeps.Some?
    ensures CapsOf(a).suffix.usedeps == Some(BlockText(a.useDeps.value))
    ensures CapsOf(a).split == SplitOf(a) && CapsOf(a).kind == KindOf(a)
  {
  }

  lemma BeforeBlockCases(s: string)
    requires P.StrictCaptures(s).Some? && P.StrictCaptures(s).value.suffix.usedeps.Some?
    ensures var u := P.StrictCaptures(s).value.suffix.usedeps.value;
      |u| <= |s| && BeforeBlock(s) == Some(s[..|s| - |u|])
  {
    hide P.StrictCaptures;
    BlockAtEnd(s);
  }

  // With a blocker it finds nothing at all.
  lemma NothingFound(s: string)
    requires s != "" && s[0] == '!'
    ensures BeforeBlock(s) == None
  {
    hide *;
    if P.StrictCaptures(s).Some? {
      P.StrictSound(s);
      StrictStart(P.StrictCaptures(s).value);
    }
    BeforeBlockNone(s);
  }

  lemma BeforeBlockNone(s: string)
    ensures BeforeBlock(s).None? <==> P.StrictCaptures(s).None?
  {
    hide P.StrictCaptures;
  }

  lemma StrictStart(c: P.Caps)
    requires P.IsStrict(c)
    ensures P.CapsText(c) != "" && P.CapsText(c)[0] != '!'
  {
    hide *;
    P.StrictHead(c);
    P.CapsStart(c);
  }

  // ----- The results -----

  lemma ParsedAtom(s: string, a: Atom)
    ensures ParseAtom(s) == Some(a) <==> WellFormed(a, DEFAULT_OPTIONS) && AtomText(a) == s
  {
    hide ParseUncached, WellFormed, AtomText;
    ParseExactly(s, DEFAULT_OPTIONS, "", a);
  }

  // Exactly when the rewriting gives up: on a text that is no atom, and on a
  // blocker with a conditional flag.
  lemma EvaluateFails(s: string, parentUse: set<string>)
    ensures EvaluateAtom(s, parentUse).None? <==>
      var a := ParseAtom(s);
      a.None? || (a.value.blocker != NoBlocker && a.value.useDeps.Some? && HasConditional(a.value.useDeps.value))
  {
    hide ParseAtom, BeforeBlock, NewBracket, Evaluate, WellFormed, AtomText, IsConditional;
    if ParseAtom(s).Some? {
      var a := ParseAtom(s).value;
      ParsedAtom(s, a);
      if a.blocker == NoBlocker && a.useDeps.Some? {
        BlockFound(s, a);
      } else if a.blocker != NoBlocker {
        BlockerStart(a);
        NothingFound(s);
      }
    }
  }

  lemma BlockerStart(a: Atom)
    requires a.blocker != NoBlocker
    ensures AtomText(a) != "" && AtomText(a)[0] == '!'
  {
    hide AfterOperator, WrittenOp;
  }

  // A blocker with a conditional flag is an atom, and has no rewriting for any parent.
  lemma BlockerGivesUp(parentUse: set<string>)
    ensures ParseAtom("!a/b[c?]") == Some(BLOCKER_WITNESS)
    ensures EvaluateAtom("!a/b[c?]", parentUse) == None
  {
    BlockerWitnessWellFormed();
    BlockerWitnessText();
    assert IsConditional(BLOCKER_WITNESS.useDeps.value[0]);
    assert HasConditional(BLOCKER_WITNESS.useDeps.value) && BLOCKER_WITNESS.blocker != NoBlocker;
    hide *;
    ParsedAtom("!a/b[c?]", BLOCKER_WITNESS);
    EvaluateFails("!a/b[c?]", parentUse);
  }

  const BLOCKER_WITNESS := Atom(Weak, NoOperator, "a", "b", None, None, None, None, None,
    Some([UseDep("c", IfParentEnabled, None)]), None, None, false)

  lemma BlockerWitnessWellFormed()
    ensures WellFormed(BLOCKER_WITNESS, DEFAULT_OPTIONS)
  {
    hide G.EndsLikeVersion;
    EndingTakesRoom("b");
  }

  lemma BlockerWitnessText()
    ensures AtomText(BLOCKER_WITNESS) == "!a/b[c?]"
  {
    assert TokenText(BLOCKER_WITNESS.useDeps.value[0]) == "c?";
    assert TokenTexts(BLOCKER_WITNESS.useDeps.value) == ["c?"];
    assert BlockText(BLOCKER_WITNESS.useDeps.value) == "[c?]";
    assert AfterOperator(BLOCKER_WITNESS) == "a/b[c?]";
  }

  // What the result spells.
  lemma EvaluatedText(s: string, parentUse: set<string>, a: Atom)
    requires EvaluateAtom(s, parentUse).Some? && ParseAtom(s) == Some(a)
    ensures EvaluateAtom(s, parentUse) == Some(AtomText(Evaluated(a, parentUse)))
    ensures a.blocker != NoBlocker ==> a.useDeps.None? || !HasConditional(a.useDeps.value)
  {
    ParsedAtom(s, a);
    EvaluateFails(s, parentUse);
    if a.useDeps.Some? {
      var deps := a.useDeps.value;
      if HasConditional(deps) {
        hide *;
        BlockFound(s, a);
        RewrittenText(s, parentUse, a);
      } else {
        NotConditional(a, parentUse);
        hide *;
        UnchangedText(s, parentUse, a);
      }
    } else {
      hide ParseAtom, BeforeBlock, NewBracket, Evaluate, WellFormed, AtomText;
    }
  }

  lemma NotConditional(a: Atom, parentUse: set<string>)
    requires a.useDeps.Some? && !HasConditional(a.useDeps.value) && a.useDeps.value != []
    ensures Evaluated(a, parentUse) == a
  {
    hide Evaluate;
    EvaluateUnconditional(a.useDeps.value, parentUse);
  }

  lemma UnchangedText(s: string, parentUse: set<string>, a: Atom)
    requires ParseAtom(s) == Some(a) && (a.useDeps.None? || !HasConditional(a.useDeps.value))
    ensures EvaluateAtom(s, parentUse) == Some(s)
  {
    hide ParseAtom, HasConditional;
  }

  lemma RewrittenText(s: string, parentUse: set<string>, a: Atom)
    requires ParseAtom(s) == Some(a) && a.useDeps.Some? && HasConditional(a.useDeps.value)
    requires BeforeBlock(s) == Some(AtomText(a.(useDeps := None)))
    ensures EvaluateAtom(s, parentUse) == Some(AtomText(Evaluated(a, parentUse)))
  {
    hide *;
    var deps := Evaluate(a.useDeps.value, parentUse);
    var b := Evaluated(a, parentUse);
    var front := AtomText(a.(useDeps := None));
    RewriteCase(s, parentUse, a, front);
    EvaluatedCases(a, parentUse);
    NothingConditional(a.useDeps.value, parentUse);
    if deps == [] {
      NewBracketNil();
      assert front + "" == front;
    } else {
      BracketText(deps);
      AtomTextBlock(b);
    }
  }

  lemma RewriteCase(s: string, parentUse: set<string>, a: Atom, front: string)
    requires ParseAtom(s) == Some(a) && a.useDeps.Some? && HasConditional(a.useDeps.value)
    requires BeforeBlock(s) == Some(front)
    ensures EvaluateAtom(s, parentUse) == Some(front + NewBracket(Evaluate(a.useDeps.value, parentUse)))
  {
    hide ParseAtom, BeforeBlock, NewBracket, Evaluate, IsConditional;
  }

  lemma EvaluatedCases(a: Atom, parentUse: set<string>)
    requires a.useDeps.Some?
    ensures var deps, b := Evaluate(a.useDeps.value, parentUse), Evaluated(a, parentUse);
      && b.(useDeps := None) == a.(useDeps := None)
      && b.useDeps == (if deps == [] then None else Some(deps))
      && (deps == [] ==> b == a.(useDeps := None))
  {
    hide Evaluate;
  }

  lemma NewBracketNil()
    ensures NewBracket([]) == ""
  {
  }

  // The result re-parses to the same atom with its USE dependencies replaced
  // by the evaluated ones, or dropped when there are none.
  lemma EvaluateReparses(s: string, parentUse: set<string>, a: Atom)
    requires EvaluateAtom(s, parentUse).Some? && ParseAtom(s) == Some(a)
    ensures ParseAtom(EvaluateAtom(s, parentUse).value) == Some(Evaluated(a, parentUse))
  {
    hide *;
    EvaluatedText(s, parentUse, a);
    ParsedAtom(s, a);
    EvaluatedWellFormed(a, parentUse);
    ParsedAtom(EvaluateAtom(s, parentUse).value, Evaluated(a, parentUse));
  }

  // A rewritten atom is left alone by any further rewriting, for any parent.
  lemma EvaluateIdempotent(s: string, parentUse: set<string>, otherUse: set<string>)
    requires EvaluateAtom(s, parentUse).Some?
    ensures EvaluateAtom(EvaluateAtom(s, parentUse).value, otherUse) == EvaluateAtom(s, parentUse)
  {
    hide *;
    EvaluateFails(s, parentUse);
    var a := ParseAtom(s).value;
    EvaluateReparses(s, parentUse, a);
    EvaluatedUnconditional(a, parentUse);
    UnchangedText(EvaluateAtom(s, parentUse).value, otherUse, Evaluated(a, parentUse));
  }

  lemma EvaluatedUnconditional(a: Atom, parentUse: set<string>)
    ensures var b := Evaluated(a, parentUse); b.useDeps.None? || !HasConditional(b.useDeps.value)
  {
    if a.useDeps.Some? {
      NothingConditional(a.useDeps.value, parentUse);
    }
  }

  // ----- Checking the rewritten atom -----

  function DepsOf(a: Atom): seq<UseDep> {
    if a.useDeps.Some? then a.useDeps.value else []
  }

  // Against any child, the rewritten atom's list is satisfied exactly when the
  // original list is not violated for this parent, which is the table of
  // PMS 8.3.4 read off the original tokens.
  lemma EvaluateKeepsMeaning(s: string, parentUse: set<string>, a: Atom, childUse: set<string>, childIuse: set<string>)
    requires EvaluateAtom(s, parentUse).Some? && ParseAtom(s) == Some(a)
    ensures var t := ParseAtom(EvaluateAtom(s, parentUse).value);
      && t.Some?
      && (Satisfied(DepsOf(t.value), childIuse, childUse) <==> !Violated(DepsOf(a), parentUse, childUse, childIuse))
      && (Satisfied(DepsOf(t.value), childIuse, childUse) <==> AllHoldFor(DepsOf(a), parentUse, childIuse, childUse))
  {
    hide *;
    EvaluateReparses(s, parentUse, a);
    ParsedAtom(s, a);
    EvaluatedDeps(a, parentUse);
    ViolatedCases(DepsOf(a), parentUse, childUse, childIuse);
    if DepsOf(a) == [] {
      NothingViolated(parentUse, childUse, childIuse);
    } else {
      DepsValid(a);
      ViolatedMeaning(DepsOf(a), parentUse, childUse, childIuse);
    }
  }

  lemma ViolatedCases(deps: seq<UseDep>, parentUse: set<string>, childUse: set<string>, childIuse: set<string>)
    ensures Violated(deps, parentUse, childUse, childIuse) == !Satisfied(Evaluate(deps, parentUse), childIuse, childUse)
  {
    hide Satisfied, Evaluate;
  }

  lemma EvaluatedDeps(a: Atom, parentUse: set<string>)
    ensures DepsOf(Evaluated(a, parentUse)) == Evaluate(DepsOf(a), parentUse)
  {
  }

  lemma DepsValid(a: Atom)
    requires WellFormed(a, DEFAULT_OPTIONS) && DepsOf(a) != []
    ensures ValidDeps(DepsOf(a))
  {
    hide WellFormedName, WellFormedSlot, MissingFeature, ValidDeps;
  }

  lemma NothingViolated(parentUse: set<string>, childUse: set<string>, childIuse: set<string>)
    ensures !Violated([], parentUse, childUse, childIuse) && AllHoldFor([], parentUse, childIuse, childUse)
  {
    SatisfiedPerToken([], childIuse, childUse);
  }
}
