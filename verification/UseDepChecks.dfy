// Checking USE dependencies against another package's USE and IUSE: the
// set-based check, the per-flag mismatch report, and the truth table of PMS
// 8.3.4 both are compared with.
module UseDepChecks {
  import opened Wrappers
  import opened UseDeps

  // ----- The truth table -----

  // The flag's state in the checked package: its USE state when the flag is
  // valid there, the token's default otherwise, and nothing without one.
  function FlagState(ud: UseDep, iuse: set<string>, enabled: set<string>): Option<bool> {
    if ud.flag in iuse then Some(ud.flag in enabled)
    else if ud.default.Some? then Some(ud.default.value.DefaultOn?)
    else None
  }

  // One token, without looking at any other.
  predicate TokenHolds(ud: UseDep, iuse: set<string>, enabled: set<string>) {
    match ud.op
    case Enabled => FlagState(ud, iuse, enabled) == Some(true)
    case Disabled => FlagState(ud, iuse, enabled) == Some(false)
    case _ => FlagState(ud, iuse, enabled).Some?
  }

  // One token for a given parent, PMS 8.3.4.
  predicate TokenHoldsFor(ud: UseDep, parentUse: set<string>, iuse: set<string>, enabled: set<string>) {
    var on := ud.flag in parentUse;
    match ud.op
    case Enabled => FlagState(ud, iuse, enabled) == Some(true)
    case Disabled => FlagState(ud, iuse, enabled) == Some(false)
    case IfParentEnabled => on ==> FlagState(ud, iuse, enabled) == Some(true)
    case IfParentDisabled => !on ==> FlagState(ud, iuse, enabled) == Some(false)
    case EqualParent => FlagState(ud, iuse, enabled) == Some(on)
    case OppositeParent => FlagState(ud, iuse, enabled) == Some(!on)
  }

  ghost predicate AllHold(deps: seq<UseDep>, iuse: set<string>, enabled: set<string>) {
    forall i | 0 <= i < |deps| :: TokenHolds(deps[i], iuse, enabled)
  }

  ghost predicate AllHoldFor(deps: seq<UseDep>, parentUse: set<string>, iuse: set<string>, enabled: set<string>) {
    forall i | 0 <= i < |deps| :: TokenHoldsFor(deps[i], parentUse, iuse, enabled)
  }

  // ----- The set-based check -----

  predicate IsValid(flag: string, declared: set<string>, unions: seq<set<string>>) {
    flag in declared || exists i | 0 <= i < |unions| :: flag in unions[i]
  }

  // The flags outside the validity domain that carry the given default.
  function Missing(deps: seq<UseDep>, default: UseDepDefault, declared: set<string>, unions: seq<set<string>>)
    : set<string>
  {
    set ud | ud in deps && ud.default == Some(default) && !IsValid(ud.flag, declared, unions) :: ud.flag
  }

  function Required(deps: seq<UseDep>, op: UseDepOp): set<string> {
    set ud | ud in deps && ud.op == op :: ud.flag
  }

  predicate HasUndeclared(deps: seq<UseDep>, declared: set<string>, unions: seq<set<string>>) {
    exists i | 0 <= i < |deps| :: deps[i].default.None? && !IsValid(deps[i].flag, declared, unions)
  }

  // One of the two symmetric halves: `required` flags, those among them that
  // are in the wrong state, and what the defaults say about missing ones.
  predicate RequiredHold(
    required: set<string>, wrong: set<string>, missingRight: set<string>, missingWrong: set<string>)
  {
    if required == {} then true
    else if exists f :: f in required && f in missingWrong then false
    else !exists f :: f in required && f in wrong && f !in missingRight
  }

  // `use_deps_satisfied_union`
  predicate SatisfiedUnion(deps: seq<UseDep>, declared: set<string>, unions: seq<set<string>>, enabled: set<string>) {
    if HasUndeclared(deps, declared, unions) then false
    else
      var missingOn := Missing(deps, DefaultOn, declared, unions);
      var missingOff := Missing(deps, DefaultOff, declared, unions);
      var requiredOn := Required(deps, Enabled);
      var requiredOff := Required(deps, Disabled);
      && RequiredHold(requiredOn, requiredOn - enabled, missingOn, missingOff)
      && RequiredHold(requiredOff, requiredOff * enabled, missingOff, missingOn)
  }

  // `use_deps_satisfied`
  predicate Satisfied(deps: seq<UseDep>, iuse: set<string>, enabled: set<string>) {
    SatisfiedUnion(deps, iuse, [], enabled)
  }

  function UnionAll(sets: seq<set<string>>): set<string> {
    if sets == [] then {} else sets[0] + UnionAll(sets[1..])
  }

  lemma {:induction false} InUnion(f: string, sets: seq<set<string>>)
    ensures f in UnionAll(sets) <==> exists i | 0 <= i < |sets| :: f in sets[i]
  {
    if sets == [] {
    } else {
      InUnion(f, sets[1..]);
      if f in UnionAll(sets[1..]) {
        var i :| 0 <= i < |sets[1..]| && f in sets[1..][i];
        assert f in sets[i + 1];
      }
      if exists i | 0 <= i < |sets| :: f in sets[i] {
        var i :| 0 <= i < |sets| && f in sets[i];
        assert i > 0 ==> f in sets[1..][i - 1];
      }
    }
  }

  // Checking against a split domain is checking against its union.
  lemma SplitDomain(deps: seq<UseDep>, declared: set<string>, unions: seq<set<string>>, enabled: set<string>)
    ensures SatisfiedUnion(deps, declared, unions, enabled) <==> Satisfied(deps, declared + UnionAll(unions), enabled)
  {
    var all := declared + UnionAll(unions);
    forall f ensures IsValid(f, declared, unions) <==> IsValid(f, all, []) {
      InUnion(f, unions);
    }
    hide IsValid, RequiredHold, UnionAll;
    assert Missing(deps, DefaultOn, declared, unions) == Missing(deps, DefaultOn, all, []);
    assert Missing(deps, DefaultOff, declared, unions) == Missing(deps, DefaultOff, all, []);
    assert HasUndeclared(deps, declared, unions) <==> HasUndeclared(deps, all, []);
  }

  // A required flag whose defaults disagree: one token asks for the state that
  // another token's default rules out.
  ghost predicate Clash(deps: seq<UseDep>, iuse: set<string>) {
    exists i, j | 0 <= i < |deps| && 0 <= j < |deps| :: Clashing(deps[i], deps[j], iuse)
  }

  predicate Clashing(required: UseDep, other: UseDep, iuse: set<string>) {
    && required.flag == other.flag && required.flag !in iuse
    && ((required.op == Enabled && other.default == Some(DefaultOff))
     || (required.op == Disabled && other.default == Some(DefaultOn)))
  }

  // What the sets compute, for every list: each token holds by the table, and
  // no two tokens clash.
  lemma SatisfiedIsTable(deps: seq<UseDep>, iuse: set<string>, enabled: set<string>)
    ensures Satisfied(deps, iuse, enabled) <==> AllHold(deps, iuse, enabled) && !Clash(deps, iuse)
  {
    if Satisfied(deps, iuse, enabled) {
      SatisfiedSound(deps, iuse, enabled);
    }
    if AllHold(deps, iuse, enabled) && !Clash(deps, iuse) {
      SatisfiedComplete(deps, iuse, enabled);
    }
  }

  lemma ValidAlone(f: string, iuse: set<string>)
    ensures IsValid(f, iuse, []) <==> f in iuse
  {
  }

  lemma SatisfiedSound(deps: seq<UseDep>, iuse: set<string>, enabled: set<string>)
    requires Satisfied(deps, iuse, enabled)
    ensures AllHold(deps, iuse, enabled) && !Clash(deps, iuse)
  {
    forall i | 0 <= i < |deps| ensures TokenHolds(deps[i], iuse, enabled) {
      TokenSound(deps, i, iuse, enabled);
    }
    forall i, j | 0 <= i < |deps| && 0 <= j < |deps| ensures !Clashing(deps[i], deps[j], iuse) {
      NoClashSound(deps, i, j, iuse, enabled);
    }
  }

  // The sets contain what the tokens put into them.
  lemma Collected(deps: seq<UseDep>, i: nat, iuse: set<string>)
    requires i < |deps|
    ensures deps[i].flag in Required(deps, deps[i].op)
    ensures deps[i].flag !in iuse && deps[i].default.Some? ==>
      deps[i].flag in Missing(deps, deps[i].default.value, iuse, [])
    ensures deps[i].flag !in iuse && deps[i].default.None? ==> HasUndeclared(deps, iuse, [])
  {
    hide IsValid;
    ValidAlone(deps[i].flag, iuse);
    assert deps[i] in deps;
  }

  lemma Uncollected(deps: seq<UseDep>, f: string, default: UseDepDefault, iuse: set<string>)
    requires f in iuse
    ensures f !in Missing(deps, default, iuse, [])
  {
    hide IsValid;
    ValidAlone(f, iuse);
  }

  lemma TokenSound(deps: seq<UseDep>, i: nat, iuse: set<string>, enabled: set<string>)
    requires i < |deps| && Satisfied(deps, iuse, enabled)
    ensures TokenHolds(deps[i], iuse, enabled)
  {
    hide IsValid, Missing, Required, HasUndeclared;
    Collected(deps, i, iuse);
    if deps[i].flag in iuse {
      Uncollected(deps, deps[i].flag, DefaultOn, iuse);
      Uncollected(deps, deps[i].flag, DefaultOff, iuse);
    }
  }

  lemma NoClashSound(deps: seq<UseDep>, i: nat, j: nat, iuse: set<string>, enabled: set<string>)
    requires i < |deps| && j < |deps| && Satisfied(deps, iuse, enabled)
    ensures !Clashing(deps[i], deps[j], iuse)
  {
    hide IsValid, Missing, Required, HasUndeclared;
    Collected(deps, i, iuse);
    Collected(deps, j, iuse);
  }

  lemma SatisfiedComplete(deps: seq<UseDep>, iuse: set<string>, enabled: set<string>)
    requires AllHold(deps, iuse, enabled) && !Clash(deps, iuse)
    ensures Satisfied(deps, iuse, enabled)
  {
    hide IsValid;
    forall f ensures IsValid(f, iuse, []) <==> f in iuse {
      ValidAlone(f, iuse);
    }
    var missingOn, missingOff := Missing(deps, DefaultOn, iuse, []), Missing(deps, DefaultOff, iuse, []);
    assert !HasUndeclared(deps, iuse, []);
    forall f | f in Required(deps, Enabled) ensures f !in missingOff && (f !in enabled ==> f in missingOn) {
      RequiredComplete(deps, Enabled, f, iuse, enabled);
    }
    forall f | f in Required(deps, Disabled) ensures f !in missingOn && (f in enabled ==> f in missingOff) {
      RequiredComplete(deps, Disabled, f, iuse, enabled);
    }
    hide Missing, Required, HasUndeclared;
  }

  lemma RequiredComplete(deps: seq<UseDep>, op: UseDepOp, f: string, iuse: set<string>, enabled: set<string>)
    requires AllHold(deps, iuse, enabled) && !Clash(deps, iuse)
    requires op in {Enabled, Disabled} && f in Required(deps, op)
    ensures f !in Missing(deps, WrongDefault(op), iuse, [])
    ensures (f in enabled) != (op == Enabled) ==> f in Missing(deps, RightDefault(op), iuse, [])
  {
    var i :| 0 <= i < |deps| && deps[i].flag == f && deps[i].op == op;
    assert TokenHolds(deps[i], iuse, enabled);
    Collected(deps, i, iuse);
    WrongClashes(deps, i, iuse);
    hide IsValid, Missing, Required, Clash, AllHold;
  }

  lemma WrongClashes(deps: seq<UseDep>, i: nat, iuse: set<string>)
    requires i < |deps| && deps[i].op in {Enabled, Disabled}
    ensures deps[i].flag in Missing(deps, WrongDefault(deps[i].op), iuse, []) ==> Clash(deps, iuse)
  {
    hide IsValid;
    var f := deps[i].flag;
    ValidAlone(f, iuse);
    if f in Missing(deps, WrongDefault(deps[i].op), iuse, []) {
      var j :| 0 <= j < |deps| && deps[j].flag == f && deps[j].default == Some(WrongDefault(deps[i].op));
      assert Clashing(deps[i], deps[j], iuse);
    }
  }

  function RightDefault(op: UseDepOp): UseDepDefault {
    if op == Enabled then DefaultOn else DefaultOff
  }

  function WrongDefault(op: UseDepOp): UseDepDefault {
    if op == Enabled then DefaultOff else DefaultOn
  }

  // With one default per flag, as the parser guarantees and evaluation keeps,
  // the check is the table.
  lemma SatisfiedPerToken(deps: seq<UseDep>, iuse: set<string>, enabled: set<string>)
    requires OneDefault(deps)
    ensures Satisfied(deps, iuse, enabled) <==> AllHold(deps, iuse, enabled)
  {
    SatisfiedIsTable(deps, iuse, enabled);
    if AllHold(deps, iuse, enabled) {
      forall i, j | 0 <= i < |deps| && 0 <= j < |deps| ensures !Clashing(deps[i], deps[j], iuse) {
        assert TokenHolds(deps[i], iuse, enabled);
        assert deps[i].flag == deps[j].flag ==> deps[i].default == deps[j].default;
      }
    }
  }

  // With two defaults for one flag it is not: `[x(+),-x(-)]`.
  lemma TwoDefaultsClash()
    ensures var deps := [UseDep("x", Enabled, Some(DefaultOn)), UseDep("x", Disabled, Some(DefaultOff))];
      AllHold(deps, {}, {}) && !Satisfied(deps, {}, {})
  {
    var deps := [UseDep("x", Enabled, Some(DefaultOn)), UseDep("x", Disabled, Some(DefaultOff))];
    assert Clashing(deps[0], deps[1], {});
    SatisfiedIsTable(deps, {}, {});
  }

  // ----- The mismatch report -----

  predicate IsHit(ud: UseDep, otherUse: set<string>, otherIuse: set<string>) {
    match ud.op
    case Enabled => ud.flag !in otherUse && (ud.flag in otherIuse || ud.default == Some(DefaultOff))
    case Disabled => ud.flag in otherUse || (ud.flag !in otherIuse && ud.default == Some(DefaultOn))
    case _ => false
  }

  function MissingFlags(deps: seq<UseDep>, otherIuse: set<string>): set<string> {
    set ud | ud in deps && ud.default.None? && ud.flag !in otherIuse :: ud.flag
  }

  function HitFlags(deps: seq<UseDep>, otherUse: set<string>, otherIuse: set<string>): set<string> {
    set ud | ud in deps && IsHit(ud, otherUse, otherIuse) :: ud.flag
  }

  // `use_mismatch_flags`: unconditional and violated flags.
  function Mismatch(deps: seq<UseDep>, otherUse: set<string>, otherIuse: set<string>): (set<string>, set<string>) {
    var missing := MissingFlags(deps, otherIuse);
    if missing != {} then (missing, {}) else ({}, HitFlags(deps, otherUse, otherIuse))
  }

  // The other package does not do what the token demands; a flag that it
  // neither enables nor declares is as its default says.
  predicate IsUnmet(ud: UseDep, otherUse: set<string>, otherIuse: set<string>) {
    var on := ud.flag in otherUse || (ud.flag !in otherIuse && ud.default == Some(DefaultOn));
    (ud.op == Enabled && !on) || (ud.op == Disabled && on)
  }

  // What a report contains: first all flags that are undeclared and have no
  // default; when there are none, the flags of the tokens that are not met.
  lemma MismatchMeaning(deps: seq<UseDep>, otherUse: set<string>, otherIuse: set<string>, f: string)
    ensures var (unconditional, violated) := Mismatch(deps, otherUse, otherIuse);
      && (f in unconditional <==>
            exists i | 0 <= i < |deps| :: deps[i].flag == f && deps[i].default.None? && f !in otherIuse)
      && (unconditional != {} ==> violated == {})
      && (unconditional == {} ==>
            (f in violated <==>
               exists i | 0 <= i < |deps| :: deps[i].flag == f && IsUnmet(deps[i], otherUse, otherIuse)))
  {
    hide IsUnmet, IsHit;
    forall i | 0 <= i < |deps| ensures deps[i] in deps {}
    if MissingFlags(deps, otherIuse) == {} {
      forall i | 0 <= i < |deps|
        ensures IsHit(deps[i], otherUse, otherIuse) <==> IsUnmet(deps[i], otherUse, otherIuse)
      {
        DeclaredOrMissing(deps, i, otherIuse);
        HitIsUnmet(deps[i], otherUse, otherIuse);
      }
    }
  }

  lemma DeclaredOrMissing(deps: seq<UseDep>, i: nat, otherIuse: set<string>)
    requires i < |deps|
    ensures deps[i].default.Some? || deps[i].flag in otherIuse || deps[i].flag in MissingFlags(deps, otherIuse)
  {
    assert deps[i] in deps;
  }

  lemma HitIsUnmet(ud: UseDep, otherUse: set<string>, otherIuse: set<string>)
    requires ud.default.Some? || ud.flag in otherIuse
    ensures IsHit(ud, otherUse, otherIuse) <==> IsUnmet(ud, otherUse, otherIuse)
  {
    assert ud.default.Some? ==> ud.default.value.DefaultOn? || ud.default.value.DefaultOff?;
  }

  method UseMismatchFlags(deps: seq<UseDep>, otherUse: set<string>, otherIuse: set<string>)
    returns (unconditional: set<string>, violated: set<string>)
    ensures (unconditional, violated) == Mismatch(deps, otherUse, otherIuse)
  {
    var missing := MissingFlags(deps, otherIuse);
    if missing != {} { return missing, {}; }
    violated := {};
    for i := 0 to |deps|
      invariant violated == HitFlags(deps[..i], otherUse, otherIuse)
    {
      HitSnoc(deps, i, otherUse, otherIuse);
      if IsHit(deps[i], otherUse, otherIuse) {
        violated := violated + {deps[i].flag};
      }
    }
    assert deps[..|deps|] == deps;
    unconditional := {};
  }

  lemma HitSnoc(deps: seq<UseDep>, i: nat, otherUse: set<string>, otherIuse: set<string>)
    requires i < |deps|
    ensures HitFlags(deps[..i + 1], otherUse, otherIuse) ==
      HitFlags(deps[..i], otherUse, otherIuse) + if IsHit(deps[i], otherUse, otherIuse) then {deps[i].flag} else {}
  {
    hide IsHit;
    assert deps[..i + 1] == deps[..i] + [deps[i]];
  }

  ghost predicate ReportsNothing(deps: seq<UseDep>, otherUse: set<string>, otherIuse: set<string>) {
    Mismatch(deps, otherUse, otherIuse) == ({}, {})
  }

  // A token that adds to neither part of the report.
  predicate IsQuiet(ud: UseDep, otherUse: set<string>, otherIuse: set<string>) {
    (ud.default.Some? || ud.flag in otherIuse) && !IsHit(ud, otherUse, otherIuse)
  }

  // What an empty report means, token by token.
  lemma EmptyReport(deps: seq<UseDep>, otherUse: set<string>, otherIuse: set<string>)
    ensures ReportsNothing(deps, otherUse, otherIuse) <==>
      forall i | 0 <= i < |deps| :: IsQuiet(deps[i], otherUse, otherIuse)
  {
    hide IsHit;
    var missing, hits := MissingFlags(deps, otherIuse), HitFlags(deps, otherUse, otherIuse);
    forall i | 0 <= i < |deps|
      ensures deps[i].default.None? && deps[i].flag !in otherIuse ==> deps[i].flag in MissingFlags(deps, otherIuse)
      ensures IsHit(deps[i], otherUse, otherIuse) ==> deps[i].flag in HitFlags(deps, otherUse, otherIuse)
    {
      assert deps[i] in deps;
    }
    if missing == {} && hits == {} {
      assert forall i | 0 <= i < |deps| :: deps[i].flag !in missing && deps[i].flag !in hits;
    }
    if forall i | 0 <= i < |deps| :: IsQuiet(deps[i], otherUse, otherIuse) {
      assert missing == {} && hits == {};
    }
  }

  lemma HitIsTable(ud: UseDep, otherUse: set<string>, otherIuse: set<string>)
    requires ud.flag in otherUse ==> ud.flag in otherIuse
    ensures IsQuiet(ud, otherUse, otherIuse) <==> TokenHolds(ud, otherIuse, otherUse)
  {
  }

  // The two checkers agree on a list with one default per flag, as long as the
  // other package enables only declared flags.
  lemma CheckersAgree(deps: seq<UseDep>, otherUse: set<string>, otherIuse: set<string>)
    requires OneDefault(deps) && otherUse <= otherIuse
    ensures ReportsNothing(deps, otherUse, otherIuse) <==> Satisfied(deps, otherIuse, otherUse)
  {
    hide IsHit, TokenHolds, Satisfied, ReportsNothing;
    EmptyReport(deps, otherUse, otherIuse);
    SatisfiedPerToken(deps, otherIuse, otherUse);
    forall i | 0 <= i < |deps|
      ensures IsQuiet(deps[i], otherUse, otherIuse)
         <==> TokenHolds(deps[i], otherIuse, otherUse)
    {
      HitIsTable(deps[i], otherUse, otherIuse);
    }
  }

  // And for no other package: an enabled but undeclared flag tells them apart.
  lemma CheckersAgreeExactly(otherUse: set<string>, otherIuse: set<string>)
    ensures
      (forall deps | OneDefault(deps) ::
        ReportsNothing(deps, otherUse, otherIuse) <==> Satisfied(deps, otherIuse, otherUse))
      <==> otherUse <= otherIuse
  {
    if otherUse <= otherIuse {
      forall deps | OneDefault(deps)
        ensures ReportsNothing(deps, otherUse, otherIuse) <==> Satisfied(deps, otherIuse, otherUse)
      {
        CheckersAgree(deps, otherUse, otherIuse);
      }
    } else {
      var f :| f in otherUse && f !in otherIuse;
      CheckersDiffer(f, otherUse, otherIuse);
    }
  }

  lemma CheckersDiffer(f: string, otherUse: set<string>, otherIuse: set<string>)
    requires f in otherUse && f !in otherIuse
    ensures var deps := [UseDep(f, Enabled, Some(DefaultOff))];
      OneDefault(deps) && ReportsNothing(deps, otherUse, otherIuse) && !Satisfied(deps, otherIuse, otherUse)
  {
    var deps := [UseDep(f, Enabled, Some(DefaultOff))];
    EmptyReport(deps, otherUse, otherIuse);
    SatisfiedPerToken(deps, otherIuse, otherUse);
    assert !TokenHolds(deps[0], otherIuse, otherUse);
  }

  // ----- Parent conditionals -----

  // `use_deps_violated`
  predicate Violated(deps: seq<UseDep>, parentUse: set<string>, childUse: set<string>, childIuse: set<string>) {
    !Satisfied(Evaluate(deps, parentUse), childIuse, childUse)
  }

  lemma {:induction false} EvaluatedHold(
    deps: seq<UseDep>, parentUse: set<string>, iuse: set<string>, enabled: set<string>)
    ensures AllHold(Evaluate(deps, parentUse), iuse, enabled) <==> AllHoldFor(deps, parentUse, iuse, enabled)
  {
    if deps == [] {
    } else {
      var n := |deps| - 1;
      EvaluatedHold(deps[..n], parentUse, iuse, enabled);
      var before, last := Evaluate(deps[..n], parentUse), EvaluateOne(deps[n], parentUse);
      TokenEvaluated(deps[n], parentUse, iuse, enabled);
      AllHoldForSnoc(deps, parentUse, iuse, enabled);
      if last.Some? {
        AllHoldSnoc(before, last.value, iuse, enabled);
      }
      hide EvaluateOne, TokenHolds, TokenHoldsFor, AllHold, AllHoldFor;
    }
  }

  lemma TokenEvaluated(ud: UseDep, parentUse: set<string>, iuse: set<string>, enabled: set<string>)
    ensures var r := EvaluateOne(ud, parentUse);
      TokenHoldsFor(ud, parentUse, iuse, enabled) <==> r.Some? ==> TokenHolds(r.value, iuse, enabled)
  {
  }

  lemma AllHoldSnoc(deps: seq<UseDep>, ud: UseDep, iuse: set<string>, enabled: set<string>)
    ensures AllHold(deps + [ud], iuse, enabled) <==> AllHold(deps, iuse, enabled) && TokenHolds(ud, iuse, enabled)
  {
    hide TokenHolds;
    var all := deps + [ud];
    assert all[|deps|] == ud && forall i | 0 <= i < |deps| :: all[i] == deps[i];
  }

  lemma AllHoldForSnoc(deps: seq<UseDep>, parentUse: set<string>, iuse: set<string>, enabled: set<string>)
    requires deps != []
    ensures AllHoldFor(deps, parentUse, iuse, enabled) <==>
      AllHoldFor(deps[..|deps| - 1], parentUse, iuse, enabled)
        && TokenHoldsFor(deps[|deps| - 1], parentUse, iuse, enabled)
  {
    hide TokenHoldsFor;
    var before := deps[..|deps| - 1];
    assert forall i | 0 <= i < |before| :: before[i] == deps[i];
  }

  // Evaluating first and then checking sets decides the table of PMS 8.3.4.
  lemma ViolatedMeaning(deps: seq<UseDep>, parentUse: set<string>, childUse: set<string>, childIuse: set<string>)
    requires ValidDeps(deps)
    ensures Violated(deps, parentUse, childUse, childIuse) <==> !AllHoldFor(deps, parentUse, childIuse, childUse)
  {
    hide Satisfied, AllHold, AllHoldFor, Evaluate, OneDefault;
    EvaluateKeepsValid(deps, parentUse);
    SatisfiedPerToken(Evaluate(deps, parentUse), childIuse, childUse);
    EvaluatedHold(deps, parentUse, childIuse, childUse);
  }
}
