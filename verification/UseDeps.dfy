// USE dependencies of an atom (PMS 8.3.4): the `[...]` block's syntax, its
// printer, and the evaluation of the parent-conditional forms.
module UseDeps {
  import opened Wrappers
  import opened Text

  datatype UseDepOp =
    | Enabled           // flag
    | Disabled          // -flag
    | IfParentEnabled   // flag?
    | IfParentDisabled  // !flag?
    | EqualParent       // flag=
    | OppositeParent    // !flag=

  datatype UseDepDefault = DefaultOn | DefaultOff   // (+) and (-)

  datatype UseDep = UseDep(flag: string, op: UseDepOp, default: Option<UseDepDefault>)

  // ----- One token -----

  function OpOf(prefix: string, suffix: string): Option<UseDepOp> {
    match (prefix, suffix)
    case ("", "") => Some(Enabled)
    case ("-", "") => Some(Disabled)
    case ("", "?") => Some(IfParentEnabled)
    case ("!", "?") => Some(IfParentDisabled)
    case ("", "=") => Some(EqualParent)
    case ("!", "=") => Some(OppositeParent)
    case _ => None
  }

  function DefaultText(d: Option<UseDepDefault>): string {
    match d
    case None => ""
    case Some(DefaultOn) => "(+)"
    case Some(DefaultOff) => "(-)"
  }

  function PrefixText(op: UseDepOp): string {
    match op
    case Disabled => "-"
    case IfParentDisabled => "!"
    case OppositeParent => "!"
    case _ => ""
  }

  function SuffixText(op: UseDepOp): string {
    match op
    case IfParentEnabled => "?"
    case IfParentDisabled => "?"
    case EqualParent => "="
    case OppositeParent => "="
    case _ => ""
  }

  // The token an atom is printed with.
  function TokenText(ud: UseDep): string {
    PrefixText(ud.op) + (ud.flag + (DefaultText(ud.default) + SuffixText(ud.op)))
  }

  function TakePrefix(token: string): (r: (string, string))
    ensures r.0 + r.1 == token
  {
    if Strip(token, "!").Some? then ("!", Strip(token, "!").value)
    else if Strip(token, "-").Some? then ("-", Strip(token, "-").value)
    else ("", token)
  }

  function TakeDefault(rest: string): (r: (Option<UseDepDefault>, string))
    ensures DefaultText(r.0) + r.1 == rest
  {
    if Strip(rest, "(+)").Some? then (Some(DefaultOn), Strip(rest, "(+)").value)
    else if Strip(rest, "(-)").Some? then (Some(DefaultOff), Strip(rest, "(-)").value)
    else (None, rest)
  }

  // `^([!-]?)(FLAG)(\(\+\)|\(-\))?([?=]?)$`, then the prefix/suffix table.
  function ParseToken(token: string): Option<UseDep> {
    var (prefix, body) := TakePrefix(token);
    var (flag, rest) := Cut(FlagTail, body);
    var (default, suffix) := TakeDefault(rest);
    if flag == "" || !IsAlnum(flag[0]) then None
    else
      var op := OpOf(prefix, suffix);
      if op.None? then None else Some(UseDep(flag, op.value, default))
  }

  lemma OpTexts(prefix: string, suffix: string)
    requires OpOf(prefix, suffix).Some?
    ensures PrefixText(OpOf(prefix, suffix).value) == prefix
    ensures SuffixText(OpOf(prefix, suffix).value) == suffix
  {
  }

  lemma TextsOp(op: UseDepOp)
    ensures OpOf(PrefixText(op), SuffixText(op)) == Some(op)
  {
  }

  lemma ParsedToken(token: string)
    requires ParseToken(token).Some?
    ensures IsFlag(ParseToken(token).value.flag)
    ensures TokenText(ParseToken(token).value) == token
  {
    hide TakePrefix, TakeDefault, Cut, OpOf, DefaultText, PrefixText, SuffixText;
    var (prefix, body) := TakePrefix(token);
    var (flag, rest) := Cut(FlagTail, body);
    var (default, suffix) := TakeDefault(rest);
    OpTexts(prefix, suffix);
  }

  lemma PrefixOf(op: UseDepOp, body: string)
    requires body != "" && IsAlnum(body[0])
    ensures TakePrefix(PrefixText(op) + body) == (PrefixText(op), body)
  {
    var token := PrefixText(op) + body;
    assert PrefixText(op) == "" ==> token == body;
    if PrefixText(op) != "" {
      StripOf(PrefixText(op), body);
      assert token[0] == PrefixText(op)[0];
    }
  }

  lemma DefaultOf(d: Option<UseDepDefault>, suffix: string)
    requires suffix in {"", "?", "="}
    ensures TakeDefault(DefaultText(d) + suffix) == (d, suffix)
    ensures var rest := DefaultText(d) + suffix; rest == "" || !Has(FlagTail, rest[0])
  {
    var rest := DefaultText(d) + suffix;
    if d.Some? {
      StripOf(DefaultText(d), suffix);
      assert rest[0] == '(' && rest[1] == DefaultText(d)[1];
    } else {
      assert rest == suffix;
    }
  }

  lemma PrintedToken(ud: UseDep)
    requires IsFlag(ud.flag)
    ensures ParseToken(TokenText(ud)) == Some(ud)
  {
    var suffix := SuffixText(ud.op);
    var rest := DefaultText(ud.default) + suffix;
    var body := ud.flag + rest;
    assert body[0] == ud.flag[0];
    PrefixOf(ud.op, body);
    DefaultOf(ud.default, suffix);
    CutOf(FlagTail, ud.flag, rest);
    TextsOp(ud.op);
    hide TakePrefix, TakeDefault, Cut, OpOf, DefaultText, PrefixText, SuffixText;
  }

  // A printed flag token has no character that could end the token or the block.
  lemma TokenChars(ud: UseDep)
    requires IsFlag(ud.flag)
    ensures ',' !in TokenText(ud) && '\n' !in TokenText(ud)
  {
    forall c | c in ud.flag ensures Has(FlagTail, c) {
      var i :| 0 <= i < |ud.flag| && ud.flag[i] == c;
    }
  }

  // ----- The block -----

  // The default of the last token read for each flag.
  type SeenDefaults = map<string, Option<UseDepDefault>>

  function ReadTokens(tokens: seq<string>): Result<(seq<UseDep>, SeenDefaults), string> {
    if tokens == [] then Ok(([], map[]))
    else
      var before := ReadTokens(tokens[..|tokens| - 1]);
      if before.Err? then before else ReadOne(before.value.0, before.value.1, tokens[|tokens| - 1])
  }

  // A bad token, or a default that differs from the flag's earlier one, is an error.
  function ReadOne(deps: seq<UseDep>, seen: SeenDefaults, token: string): Result<(seq<UseDep>, SeenDefaults), string> {
    var ud := ParseToken(token);
    if ud.None? then Err(token)
    else if ud.value.flag in seen && seen[ud.value.flag] != ud.value.default then Err(token)
    else Ok((deps + [ud.value], seen[ud.value.flag := ud.value.default]))
  }

  lemma ReadSnoc(tokens: seq<string>, token: string)
    requires ReadTokens(tokens).Ok?
    ensures ReadTokens(tokens + [token]) == ReadOne(ReadTokens(tokens).value.0, ReadTokens(tokens).value.1, token)
  {
    assert (tokens + [token])[..|tokens|] == tokens;
  }

  function BlockInner(raw: string): Option<string> {
    if |raw| >= 2 && raw[0] == '[' && raw[|raw| - 1] == ']' then Some(raw[1..|raw| - 1]) else None
  }

  // `Err` carries what `Invalid use dep: '...'` quotes.
  function ParseUseDeps(raw: string): Result<seq<UseDep>, string> {
    var inner := BlockInner(raw);
    if inner.None? then Err(raw)
    else
      var r := ReadTokens(Split(inner.value, ','));
      if r.Err? then Err(r.error) else Ok(r.value.0)
  }

  // The parser's own loop over the comma-separated tokens.
  method ParseUseDepsLoop(raw: string) returns (r: Result<seq<UseDep>, string>)
    ensures r == ParseUseDeps(raw)
  {
    hide *;
    ParseUseDepsCases(raw);
    var inner := BlockInner(raw);
    if inner.None? { return Err(raw); }
    var tokens := Split(inner.value, ',');
    var deps: seq<UseDep> := [];
    var seenDefaults: SeenDefaults := map[];
    ReadNothing(tokens);
    for i := 0 to |tokens|
      invariant ReadTokens(tokens[..i]) == Ok((deps, seenDefaults))
    {
      var token := tokens[i];
      ReadStep(tokens, i);
      var ud := ParseToken(token);
      if ud.None? {
        return Err(token);
      }
      if ud.value.flag in seenDefaults {
        if seenDefaults[ud.value.flag] != ud.value.default {
          return Err(token);
        }
        assert seenDefaults == seenDefaults[ud.value.flag := ud.value.default];
      } else {
        seenDefaults := seenDefaults[ud.value.flag := ud.value.default];
      }
      deps := deps + [ud.value];
    }
    assert tokens[..|tokens|] == tokens;
    return Ok(deps);
  }

  lemma ParseUseDepsCases(raw: string)
    ensures ParseUseDeps(raw) ==
      if BlockInner(raw).None? then Err(raw)
      else
        var t := ReadTokens(Split(BlockInner(raw).value, ','));
        if t.Err? then Err(t.error) else Ok(t.value.0)
  {
  }

  // One turn of the loop: either the token is added, or it decides the error.
  lemma ReadStep(tokens: seq<string>, i: nat)
    requires i < |tokens| && ReadTokens(tokens[..i]).Ok?
    ensures var ud := ParseToken(tokens[i]);
      var (deps, seen) := ReadTokens(tokens[..i]).value;
      if ud.None? || (ud.value.flag in seen && seen[ud.value.flag] != ud.value.default) then
        ReadTokens(tokens) == Err(tokens[i])
      else
        ReadTokens(tokens[..i + 1]) == Ok((deps + [ud.value], seen[ud.value.flag := ud.value.default]))
  {
    hide *;
    ReadOneCases(ReadTokens(tokens[..i]).value.0, ReadTokens(tokens[..i]).value.1, tokens[i]);
    ReadSnoc(tokens[..i], tokens[i]);
    TakeSnoc(tokens, i);
    if ReadTokens(tokens[..i + 1]).Err? {
      ReadTokensFails(tokens, i + 1);
    }
  }

  lemma TakeSnoc(tokens: seq<string>, i: nat)
    requires i < |tokens|
    ensures tokens[..i + 1] == tokens[..i] + [tokens[i]]
  {
  }

  lemma ReadOneCases(deps: seq<UseDep>, seen: SeenDefaults, token: string)
    ensures var ud := ParseToken(token);
      ReadOne(deps, seen, token) ==
      if ud.None? || (ud.value.flag in seen && seen[ud.value.flag] != ud.value.default) then Err(token)
      else Ok((deps + [ud.value], seen[ud.value.flag := ud.value.default]))
  {
  }

  lemma ReadNothing(tokens: seq<string>)
    ensures ReadTokens(tokens[..0]) == Ok(([], map[]))
  {
  }

  // The first bad token decides the error.
  lemma {:induction false} ReadTokensFails(tokens: seq<string>, i: nat)
    requires i <= |tokens| && ReadTokens(tokens[..i]).Err?
    ensures ReadTokens(tokens) == ReadTokens(tokens[..i])
    decreases |tokens|
  {
    hide ReadOne;
    if i == |tokens| {
      assert tokens[..i] == tokens;
    } else {
      var before := tokens[..|tokens| - 1];
      assert before[..i] == tokens[..i];
      ReadTokensFails(before, i);
    }
  }

  ghost predicate OneDefault(deps: seq<UseDep>) {
    forall i, j | 0 <= i < |deps| && 0 <= j < |deps| && deps[i].flag == deps[j].flag ::
      deps[i].default == deps[j].default
  }

  // The lists a block can hold.
  ghost predicate ValidDeps(deps: seq<UseDep>) {
    && deps != []
    && (forall i | 0 <= i < |deps| :: IsFlag(deps[i].flag))
    && OneDefault(deps)
  }

  function TokenTexts(deps: seq<UseDep>): (texts: seq<string>)
    ensures |texts| == |deps|
    ensures forall i | 0 <= i < |deps| :: texts[i] == TokenText(deps[i])
  {
    seq(|deps|, i requires 0 <= i < |deps| => TokenText(deps[i]))
  }

  function BlockText(deps: seq<UseDep>): string {
    "[" + Join(TokenTexts(deps), ',') + "]"
  }

  // `seen` records the flags of `deps` with their defaults.
  ghost predicate SeenIn(deps: seq<UseDep>, seen: SeenDefaults) {
    && (forall i | 0 <= i < |deps| :: deps[i].flag in seen && seen[deps[i].flag] == deps[i].default)
    && (forall f | f in seen :: HasFlag(deps, f))
  }

  ghost predicate HasFlag(deps: seq<UseDep>, f: string) {
    exists i | 0 <= i < |deps| :: deps[i].flag == f
  }

  lemma TextsSnoc(deps: seq<UseDep>, ud: UseDep)
    ensures TokenTexts(deps + [ud]) == TokenTexts(deps) + [TokenText(ud)]
  {
  }

  lemma SeenSnoc(deps: seq<UseDep>, seen: SeenDefaults, ud: UseDep)
    requires SeenIn(deps, seen)
    requires ud.flag in seen ==> seen[ud.flag] == ud.default
    ensures SeenIn(deps + [ud], seen[ud.flag := ud.default])
  {
    var all, more := deps + [ud], seen[ud.flag := ud.default];
    forall f | f in more ensures HasFlag(all, f) {
      if f == ud.flag {
        assert all[|deps|].flag == f;
      } else {
        assert HasFlag(deps, f);
        var i :| 0 <= i < |deps| && deps[i].flag == f;
        assert all[i].flag == f;
      }
    }
  }

  lemma {:induction false} ReadTokensSound(tokens: seq<string>)
    requires ReadTokens(tokens).Ok?
    ensures TokenTexts(ReadTokens(tokens).value.0) == tokens
    ensures var deps := ReadTokens(tokens).value.0; forall i | 0 <= i < |deps| :: IsFlag(deps[i].flag)
    ensures SeenIn(ReadTokens(tokens).value.0, ReadTokens(tokens).value.1)
  {
    hide *;
    ReadNothing(tokens);
    if tokens == [] {
      assert tokens[..0] == tokens;
      NothingSound();
    } else {
      var n := |tokens| - 1;
      ReadLast(tokens);
      ReadTokensSound(tokens[..n]);
      var deps, seen := ReadTokens(tokens[..n]).value.0, ReadTokens(tokens[..n]).value.1;
      ReadOneCases(deps, seen, tokens[n]);
      var ud := ParseToken(tokens[n]).value;
      ParsedToken(tokens[n]);
      TextsSnoc(deps, ud);
      SeenSnoc(deps, seen, ud);
      SnocLast(tokens);
    }
  }

  lemma NothingSound()
    ensures TokenTexts([]) == [] && SeenIn([], map[])
  {
  }

  lemma ReadLast(tokens: seq<string>)
    requires tokens != [] && ReadTokens(tokens).Ok?
    ensures var before := ReadTokens(tokens[..|tokens| - 1]);
      before.Ok? && ReadTokens(tokens) == ReadOne(before.value.0, before.value.1, tokens[|tokens| - 1])
  {
    hide ReadOne;
  }

  lemma {:induction false} ReadTokensComplete(deps: seq<UseDep>)
    requires forall i | 0 <= i < |deps| :: IsFlag(deps[i].flag)
    requires OneDefault(deps)
    ensures ReadTokens(TokenTexts(deps)).Ok?
    ensures ReadTokens(TokenTexts(deps)).value.0 == deps
    decreases deps, 1
  {
    if deps == [] {
      assert TokenTexts(deps) == [];
    } else {
      LastComplete(deps);
    }
  }

  lemma {:induction false} LastComplete(deps: seq<UseDep>)
    requires deps != []
    requires forall i | 0 <= i < |deps| :: IsFlag(deps[i].flag)
    requires OneDefault(deps)
    ensures ReadTokens(TokenTexts(deps)).Ok?
    ensures ReadTokens(TokenTexts(deps)).value.0 == deps
    decreases deps, 0
  {
    hide *;
    OneDefaultPrefix(deps);
    var n := |deps| - 1;
    var before, ud := deps[..n], deps[n];
    ReadTokensComplete(before);
    ReadTokensSound(TokenTexts(before));
    var seen := ReadTokens(TokenTexts(before)).value.1;
    SeenDefault(deps, seen);
    PrintedToken(ud);
    SnocLast(deps);
    TextsSnoc(before, ud);
    ReadSnoc(TokenTexts(before), TokenText(ud));
    ReadOneCases(before, seen, TokenText(ud));
  }

  lemma OneDefaultPrefix(deps: seq<UseDep>)
    requires deps != [] && OneDefault(deps)
    ensures OneDefault(deps[..|deps| - 1])
  {
    var before := deps[..|deps| - 1];
    assert forall i | 0 <= i < |before| :: before[i] == deps[i];
  }

  lemma SeenDefault(deps: seq<UseDep>, seen: SeenDefaults)
    requires deps != [] && OneDefault(deps) && SeenIn(deps[..|deps| - 1], seen)
    ensures var ud := deps[|deps| - 1]; ud.flag in seen ==> seen[ud.flag] == ud.default
  {
    var ud := deps[|deps| - 1];
    if ud.flag in seen {
      assert HasFlag(deps[..|deps| - 1], ud.flag);
      var i :| 0 <= i < |deps| - 1 && deps[..|deps| - 1][i].flag == ud.flag;
      assert deps[i].default == ud.default;
    }
  }

  lemma SeenOneDefault(deps: seq<UseDep>, seen: SeenDefaults)
    requires SeenIn(deps, seen)
    ensures OneDefault(deps)
  {
  }

  lemma ParsedBlock(raw: string)
    requires ParseUseDeps(raw).Ok?
    ensures ValidDeps(ParseUseDeps(raw).value) && BlockText(ParseUseDeps(raw).value) == raw
  {
    hide ParseUseDeps, BlockInner, ReadTokens, TokenTexts, TokenText, IsFlag, SeenIn, OneDefault, Split;
    ParseUseDepsCases(raw);
    BlockInnerText(raw);
    var inner := BlockInner(raw).value;
    var tokens := Split(inner, ',');
    ReadTokensSound(tokens);
    SeenOneDefault(ReadTokens(tokens).value.0, ReadTokens(tokens).value.1);
    JoinSplit(inner, ',');
  }

  lemma BlockInnerText(raw: string)
    requires BlockInner(raw).Some?
    ensures raw == "[" + BlockInner(raw).value + "]"
  {
  }

  lemma PrintedBlock(deps: seq<UseDep>)
    requires ValidDeps(deps)
    ensures ParseUseDeps(BlockText(deps)) == Ok(deps)
  {
    hide IsFlag, TokenText, ReadTokens, OneDefault, TokenTexts;
    var texts := TokenTexts(deps);
    var inner := Join(texts, ',');
    forall i | 0 <= i < |texts| ensures ',' !in texts[i] {
      TokenChars(deps[i]);
    }
    ReadTokensComplete(deps);
    SplitJoin(texts, ',');
    var raw := "[" + inner + "]";
    assert raw[1..|raw| - 1] == inner;
  }

  // Parsing a block and printing one are inverse: a text parses to `deps`
  // exactly when `deps` could stand in a block and prints as that text.
  lemma BlockRoundTrip(raw: string, deps: seq<UseDep>)
    ensures ParseUseDeps(raw) == Ok(deps) <==> ValidDeps(deps) && BlockText(deps) == raw
  {
    hide ParseUseDeps, ValidDeps, BlockText;
    if ParseUseDeps(raw) == Ok(deps) {
      ParsedBlock(raw);
    }
    if ValidDeps(deps) && BlockText(deps) == raw {
      PrintedBlock(deps);
    }
  }

  lemma {:induction false} FirstFailure(tokens: seq<string>) returns (i: nat)
    requires ReadTokens(tokens).Err?
    ensures i < |tokens| && ReadTokens(tokens[..i]).Ok? && ReadTokens(tokens[..i + 1]) == ReadTokens(tokens)
  {
    hide *;
    FailureNeedsTokens(tokens);
    var n := |tokens| - 1;
    if ReadTokens(tokens[..n]).Ok? {
      i := n;
      assert tokens[..i + 1] == tokens;
    } else {
      i := FirstFailure(tokens[..n]);
      assert tokens[..n][..i] == tokens[..i] && tokens[..n][..i + 1] == tokens[..i + 1];
      ReadTokensFails(tokens, i + 1);
    }
  }

  lemma FailureNeedsTokens(tokens: seq<string>)
    ensures ReadTokens(tokens).Err? ==> tokens != []
  {
    hide ReadOne;
  }

  // A refused block names its first bad token: everything before it is read,
  // and it is no token itself or gives a flag another default than before.
  lemma BlockRefused(raw: string) returns (i: nat)
    requires BlockInner(raw).Some? && ParseUseDeps(raw).Err?
    ensures var tokens := Split(BlockInner(raw).value, ',');
      && i < |tokens| && ParseUseDeps(raw).error == tokens[i] && ReadTokens(tokens[..i]).Ok?
      && var deps := ReadTokens(tokens[..i]).value.0;
         var ud := ParseToken(tokens[i]);
      TokenTexts(deps) == tokens[..i] &&
      (ud.None? || exists k | 0 <= k < |deps| :: deps[k].flag == ud.value.flag && deps[k].default != ud.value.default)
  {
    hide *;
    ParseUseDepsCases(raw);
    var tokens := Split(BlockInner(raw).value, ',');
    i := FirstFailure(tokens);
    ReadTokensSound(tokens[..i]);
    var deps, seen := ReadTokens(tokens[..i]).value.0, ReadTokens(tokens[..i]).value.1;
    ReadStep(tokens, i);
    var ud := ParseToken(tokens[i]);
    if ud.Some? && ud.value.flag in seen {
      SeenDefaultAt(deps, seen, ud.value.flag);
    }
  }

  lemma SeenDefaultAt(deps: seq<UseDep>, seen: SeenDefaults, f: string)
    requires SeenIn(deps, seen) && f in seen
    ensures exists k | 0 <= k < |deps| :: deps[k].flag == f && deps[k].default == seen[f]
  {
    assert HasFlag(deps, f);
    var k :| 0 <= k < |deps| && deps[k].flag == f;
    assert deps[k].default == seen[f];
  }

  // A printed block never contains a line break, a blocker for the pattern's `.*`.
  lemma BlockChars(deps: seq<UseDep>)
    requires ValidDeps(deps)
    ensures '\n' !in BlockText(deps)
  {
    var texts := TokenTexts(deps);
    forall i | 0 <= i < |texts| ensures '\n' !in texts[i] {
      TokenChars(deps[i]);
    }
    JoinChars(texts, ',', '\n');
  }

  lemma {:induction false} JoinChars(parts: seq<string>, c: char, x: char)
    requires c != x && forall i | 0 <= i < |parts| :: x !in parts[i]
    ensures x !in Join(parts, c)
  {
    if |parts| <= 1 {
    } else {
      JoinChars(parts[1..], c, x);
    }
  }

  // ----- Evaluation against the parent's USE -----

  predicate IsConditional(ud: UseDep) {
    ud.op in {IfParentEnabled, IfParentDisabled, EqualParent, OppositeParent}
  }

  // One token under the parent's USE; `None` when it imposes nothing.
  function EvaluateOne(ud: UseDep, parentUse: set<string>): Option<UseDep> {
    var on := ud.flag in parentUse;
    match ud.op
    case Enabled => Some(ud)
    case Disabled => Some(ud)
    case IfParentEnabled => if on then Some(ud.(op := Enabled)) else None
    case IfParentDisabled => if on then None else Some(ud.(op := Disabled))
    case EqualParent => Some(ud.(op := if on then Enabled else Disabled))
    case OppositeParent => Some(ud.(op := if on then Disabled else Enabled))
  }

  // The `filter_map` over the tokens.
  function Evaluate(deps: seq<UseDep>, parentUse: set<string>): seq<UseDep> {
    if deps == [] then []
    else
      var before := Evaluate(deps[..|deps| - 1], parentUse);
      var last := EvaluateOne(deps[|deps| - 1], parentUse);
      if last.None? then before else before + [last.value]
  }

  // Every evaluated token comes from a token of the list, so it keeps that
  // token's flag and default, and it is not conditional.
  lemma {:induction false} EvaluateOrigin(deps: seq<UseDep>, parentUse: set<string>, i: nat) returns (k: nat)
    requires i < |Evaluate(deps, parentUse)|
    ensures k < |deps| && EvaluateOne(deps[k], parentUse) == Some(Evaluate(deps, parentUse)[i])
    ensures !IsConditional(Evaluate(deps, parentUse)[i])
  {
    var n := |deps| - 1;
    if i < |Evaluate(deps[..n], parentUse)| {
      k := EvaluateOrigin(deps[..n], parentUse, i);
    } else {
      k := n;
    }
  }

  // Evaluation keeps a list printable (unless nothing is left).
  lemma EvaluateKeepsValid(deps: seq<UseDep>, parentUse: set<string>)
    requires forall i | 0 <= i < |deps| :: IsFlag(deps[i].flag)
    ensures forall i | 0 <= i < |Evaluate(deps, parentUse)| :: IsFlag(Evaluate(deps, parentUse)[i].flag)
    ensures OneDefault(deps) ==> OneDefault(Evaluate(deps, parentUse))
  {
    hide IsFlag, Evaluate;
    var out := Evaluate(deps, parentUse);
    forall i | 0 <= i < |out| ensures IsFlag(out[i].flag) {
      var k := EvaluateOrigin(deps, parentUse, i);
      assert deps[k].flag == out[i].flag;
    }
    if OneDefault(deps) {
      forall i, j | 0 <= i < |out| && 0 <= j < |out| && out[i].flag == out[j].flag
        ensures out[i].default == out[j].default
      {
        var k := EvaluateOrigin(deps, parentUse, i);
        var l := EvaluateOrigin(deps, parentUse, j);
        assert deps[k].default == deps[l].default;
      }
    }
  }

  // Without conditionals evaluation changes nothing, so it is idempotent.
  lemma {:induction false} EvaluateUnconditional(deps: seq<UseDep>, parentUse: set<string>)
    requires forall i | 0 <= i < |deps| :: !IsConditional(deps[i])
    ensures Evaluate(deps, parentUse) == deps
  {
    hide *;
    EvaluateCases(deps, parentUse);
    if deps == [] {
    } else {
      var n := |deps| - 1;
      UnconditionalOne(deps[n], parentUse);
      EvaluateUnconditional(deps[..n], parentUse);
      SnocLast(deps);
    }
  }

  lemma EvaluateCases(deps: seq<UseDep>, parentUse: set<string>)
    ensures deps == [] ==> Evaluate(deps, parentUse) == []
    ensures deps != [] ==>
      var before := Evaluate(deps[..|deps| - 1], parentUse);
      var last := EvaluateOne(deps[|deps| - 1], parentUse);
      Evaluate(deps, parentUse) == if last.None? then before else before + [last.value]
  {
    hide EvaluateOne;
  }

  lemma UnconditionalOne(ud: UseDep, parentUse: set<string>)
    requires !IsConditional(ud)
    ensures EvaluateOne(ud, parentUse) == Some(ud)
  {
  }

  // The other printer in the source puts the suffix before the default; on
  // evaluated tokens the two printers agree.
  function EvaluatedTokenText(ud: UseDep): string {
    PrefixText(ud.op) + (ud.flag + (SuffixText(ud.op) + DefaultText(ud.default)))
  }

  lemma PrintersAgree(ud: UseDep)
    ensures EvaluatedTokenText(ud) == TokenText(ud) <==> SuffixText(ud.op) == "" || ud.default.None?
  {
    var p, f, d, s := PrefixText(ud.op), ud.flag, DefaultText(ud.default), SuffixText(ud.op);
    if s == "" || d == "" {
      assert s + d == d + s;
    } else {
      var k := |p| + |f|;
      assert EvaluatedTokenText(ud)[k] == s[0];
      assert TokenText(ud)[k] == d[0];
    }
  }
}
