// Package atoms: the parsed record, its printer, and `parse_atom_with` without
// its cache.  The main result is `ParseExactly`: a text parses to an atom
// exactly when the atom is well-formed under the options and spells that text.
module AtomParser {
  import opened Wrappers
  import opened Text
  import opened Eapi
  import opened UseDeps
  import G = AtomGrammar
  import P = AtomPatterns

  datatype Blocker = NoBlocker | Weak | Strong

  datatype Operator = NoOperator | Eq | EqGlob | Gt | Ge | Lt | Le | Tilde

  datatype SlotOperator = AnySlot | EqualSlot   // :* and :=

  datatype Atom = Atom(
    blocker: Blocker,
    operator: Operator,
    category: string,
    package: string,
    version: Option<string>,
    revision: Option<string>,
    slot: Option<string>,
    subSlot: Option<string>,
    slotOperator: Option<SlotOperator>,
    useDeps: Option<seq<UseDep>>,
    repo: Option<string>,
    buildId: Option<string>,
    extended: bool)

  datatype AtomOptions = AtomOptions(
    eapi: AtomEapi,
    allowWildcard: bool,
    allowRepo: Option<bool>,
    allowBuildId: Option<bool>)

  const DEFAULT_OPTIONS := AtomOptions(NoEapi, false, None, None)

  datatype AtomErrorKind = Invalid | EapiIncompatible

  datatype AtomError = AtomError(kind: AtomErrorKind, message: string)

  function InvalidAtom(s: string): AtomError {
    AtomError(Invalid, s)
  }

  function UseError(token: string): AtomError {
    AtomError(Invalid, "Invalid use dep: '" + token + "'")
  }

  function AllowRepo(opts: AtomOptions): bool {
    if opts.allowRepo.Some? then opts.allowRepo.value
    else if opts.eapi.NoEapi? then true
    else AttrsOf(opts.eapi).repoDeps
  }

  function AllowBuildId(opts: AtomOptions): bool {
    if opts.allowBuildId.Some? then opts.allowBuildId.value else opts.eapi.NoEapi?
  }

  // ----- Operators -----

  function OperatorOf(op: string): Operator {
    if op == "=" then Eq
    else if op == ">" then Gt
    else if op == ">=" then Ge
    else if op == "<" then Lt
    else if op == "<=" then Le
    else if op == "~" then Tilde
    else NoOperator
  }

  // `Operator::as_str`
  function AsStr(op: Operator): string {
    match op
    case NoOperator => ""
    case Eq => "="
    case EqGlob => "=*"
    case Gt => ">"
    case Ge => ">="
    case Lt => "<"
    case Le => "<="
    case Tilde => "~"
  }

  // The operator as it is written in front of the category.
  function WrittenOp(op: Operator): string {
    if op == EqGlob then "=" else AsStr(op)
  }

  // ----- The parser -----

  // Blockers are stripped before either pattern is tried.
  function StripBlocker(s: string): (r: (Blocker, string))
    ensures BlockerText(r.0) + r.1 == s
  {
    if Strip(s, "!!").Some? then (Strong, Strip(s, "!!").value)
    else if Strip(s, "!").Some? then (Weak, Strip(s, "!").value)
    else (NoBlocker, s)
  }

  datatype NameParts = NameParts(
    operator: Operator,
    category: string,
    package: string,
    version: Option<string>,
    revision: Option<string>,
    buildId: Option<string>)

  // The category, name and version text of a wildcard match, as quoted.
  function NameText(c: P.Caps): string {
    c.op + (c.cat + ("/" + G.SplitText(c.split)))
  }

  // `atom_name_parts`; `None` is the bare invalid-atom error.
  function ReadName(c: P.Caps, allowBuildId: bool): Option<NameParts> {
    var x := c.split;
    match c.kind
    case Simple =>
      if x.vr.Some? && '.' in x.vr.value.ver then None
      else if Contains(NameText(c), "**") then None
      else Some(NameParts(NoOperator, c.cat, G.SplitText(x), None, None, None))
    case Star =>
      if x.vr.None? || Contains(NameText(c), "**") then None
      else Some(NameParts(EqGlob, c.cat, x.pkg, Some(x.vr.value.ver), None, None))
    case Versioned =>
      if c.glob && (c.op != "=" || x.tail.Some?) then None
      else if x.vr.None? then None
      else
        var operator := if c.glob then EqGlob else OperatorOf(c.op);
        var outer := x.vr.value;
        if x.tail.None? then
          Some(NameParts(operator, c.cat, x.pkg, Some(outer.ver), outer.rev, None))
        else if !allowBuildId then None
        else if outer.rev.Some? || !AllIn(Digit, outer.ver) then None
        else if |outer.ver| > 1 && StartsWith(outer.ver, "0") then None
        else Some(NameParts(operator, c.cat, x.pkg, Some(x.tail.value.ver), x.tail.value.rev, Some(outer.ver)))
    case _ =>
      if x.vr.Some? then None
      else Some(NameParts(NoOperator, c.cat, x.pkg, None, None, None))
  }

  datatype SlotFields = SlotFields(slot: Option<string>, subSlot: Option<string>, operator: Option<SlotOperator>)

  function SlotOpOf(op: Option<char>): Option<SlotOperator> {
    if op.None? then None else if op.value == '*' then Some(AnySlot) else Some(EqualSlot)
  }

  // The second-stage slot check; `None` is the bare invalid-atom error.
  function ReadSlot(sp: Option<G.SlotPart>, slotOperator: bool): Option<SlotFields> {
    if sp.None? then Some(SlotFields(None, None, None))
    else if G.SlotPartText(sp.value) == "" then None
    else if slotOperator then
      if sp.value.op == Some('*') && sp.value.slot.Some? then None
      else Some(SlotFields(sp.value.slot, sp.value.sub, SlotOpOf(sp.value.op)))
    else if G.IsSlot(G.SlotPartText(sp.value)) then
      Some(SlotFields(Some(G.SlotPartText(sp.value)), None, None))
    else None
  }

  function FeatureError(what: string, eapiText: string, s: string): AtomError {
    AtomError(EapiIncompatible, what + " are not allowed in EAPI " + eapiText + ": '" + s + "'")
  }

  // `check_atom_eapi_features`: the first feature the EAPI lacks.
  function MissingFeature(opts: AtomOptions, slot: Option<string>, useDeps: Option<seq<UseDep>>, blocker: Blocker)
    : Option<string>
  {
    var attrs := AttrsOf(opts.eapi);
    if opts.eapi.NoEapi? then None
    else if slot.Some? && !attrs.slotDeps then Some("Slot deps")
    else if useDeps.Some? && !attrs.useDeps then Some("Use deps")
    else if useDeps.Some? && !attrs.useDepDefaults && HasDefault(useDeps.value) then Some("Use dep defaults")
    else if blocker == Strong && !attrs.strongBlocks then Some("Strong blocks")
    else None
  }

  predicate HasDefault(deps: seq<UseDep>) {
    exists i | 0 <= i < |deps| :: deps[i].default.Some?
  }

  // Which pattern matches: the wildcard one only when the strict one does not.
  function Captures(rest: string, allowWildcard: bool): Option<P.Caps> {
    var strict := P.StrictCaptures(rest);
    if strict.Some? then strict
    else if allowWildcard then P.WildCaptures(rest)
    else None
  }

  function ReadUse(u: Option<string>): Result<Option<seq<UseDep>>, string> {
    if u.None? then Ok(None)
    else
      var r := ParseUseDeps(u.value);
      if r.Ok? then Ok(Some(r.value)) else Err(r.error)
  }

  // `parse_atom_with_uncached` up to the feature check.
  function ReadAtom(s: string, opts: AtomOptions): Result<Atom, AtomError> {
    var (blocker, rest) := StripBlocker(s);
    var caps := Captures(rest, opts.allowWildcard);
    if caps.None? then Err(InvalidAtom(s))
    else
      var c := caps.value;
      var name := ReadName(c, AllowBuildId(opts));
      var slot := ReadSlot(c.suffix.slotpart, AttrsOf(opts.eapi).slotOperator);
      if name.None? || slot.None? then Err(InvalidAtom(s))
      else
        var use := ReadUse(c.suffix.usedeps);
        if use.Err? then Err(UseError(use.error))
        else if c.suffix.repo.Some? && !AllowRepo(opts) then Err(InvalidAtom(s))
        else Ok(MakeAtom(blocker, c, name.value, slot.value, use.value))
  }

  // `parse_atom_with_uncached`
  function ParseUncached(s: string, opts: AtomOptions, eapiText: string): Result<Atom, AtomError> {
    var r := ReadAtom(s, opts);
    if r.Err? then r
    else
      var missing := MissingFeature(opts, r.value.slot, r.value.useDeps, r.value.blocker);
      if missing.Some? then Err(FeatureError(missing.value, eapiText, s)) else r
  }

  function MakeAtom(blocker: Blocker, c: P.Caps, name: NameParts, slot: SlotFields, use: Option<seq<UseDep>>): Atom {
    Atom(blocker, name.operator, name.category, name.package, name.version, name.revision,
         slot.slot, slot.subSlot, slot.operator, use, c.suffix.repo, name.buildId, G.IsWildKind(c.kind))
  }

  // ----- The printer -----

  function BlockerText(b: Blocker): string {
    match b
    case NoBlocker => ""
    case Weak => "!"
    case Strong => "!!"
  }

  // `-ver[-rN]` and the star or the build-id.
  function VersionText(a: Atom): string {
    if a.version.None? then ""
    else
      "-" + (a.version.value + (G.RevText(a.revision) +
        (if a.operator == EqGlob && !a.extended then "*"
         else if a.buildId.Some? then "-" + a.buildId.value
         else "")))
  }

  function SlotOperatorText(op: Option<SlotOperator>): string {
    match op
    case None => ""
    case Some(AnySlot) => "*"
    case Some(EqualSlot) => "="
  }

  function SlotText(a: Atom): string {
    if a.slot.Some? then
      ":" + (a.slot.value + (G.OptText("/", a.subSlot) + SlotOperatorText(a.slotOperator)))
    else if a.slotOperator.Some? then ":" + SlotOperatorText(a.slotOperator)
    else ""
  }

  function UseText(a: Atom): string {
    if a.useDeps.Some? then BlockText(a.useDeps.value) else ""
  }

  function AfterOperator(a: Atom): string {
    a.category + ("/" + (a.package + (VersionText(a) + (SlotText(a) + (G.OptText("::", a.repo) + UseText(a))))))
  }

  // The text the atom was parsed from.
  function AtomText(a: Atom): string {
    BlockerText(a.blocker) + (WrittenOp(a.operator) + AfterOperator(a))
  }

  // `render_atom`
  function Render(a: Atom): string {
    BlockerText(a.blocker) + (AsStr(a.operator) + AfterOperator(a))
  }

  // `render_atom` itself appends to one growing string.
  method RenderAtom(a: Atom) returns (out: string)
    ensures out == Render(a)
  {
    out := "";
    if a.blocker == Weak { out := out + "!"; } else if a.blocker == Strong { out := out + "!!"; }
    assert out == BlockerText(a.blocker);
    hide *;
    RenderParts(a);
    out := out + AsStr(a.operator);
    out := out + a.category;
    out := out + "/";
    out := out + a.package;
    out := AppendVersion(out, a);
    out := AppendSlot(out, a);
    out := AppendTail(out, a);
  }

  lemma RenderParts(a: Atom)
    ensures Render(a) == BlockerText(a.blocker) + AsStr(a.operator) + a.category + "/" + a.package
      + VersionText(a) + SlotText(a) + (G.OptText("::", a.repo) + UseText(a))
  {
    hide BlockerText, AsStr, VersionText, SlotText, G.OptText, UseText;
  }

  method AppendVersion(text: string, a: Atom) returns (out: string)
    ensures out == text + VersionText(a)
  {
    out := text;
    if a.version.Some? {
      out := out + "-" + a.version.value;
      if a.revision.Some? { out := out + "-r" + a.revision.value; }
      assert out == text + ("-" + (a.version.value + G.RevText(a.revision)));
      if a.operator == EqGlob && !a.extended {
        out := out + "*";
      } else if a.buildId.Some? {
        out := out + "-" + a.buildId.value;
      }
    }
  }

  method AppendSlot(text: string, a: Atom) returns (out: string)
    ensures out == text + SlotText(a)
  {
    out := text;
    if a.slot.Some? {
      out := out + ":" + a.slot.value;
      if a.subSlot.Some? { out := out + "/" + a.subSlot.value; }
      out := out + SlotOperatorText(a.slotOperator);
    } else if a.slotOperator.Some? {
      out := out + ":" + SlotOperatorText(a.slotOperator);
    }
  }

  method AppendTail(text: string, a: Atom) returns (out: string)
    ensures out == text + (G.OptText("::", a.repo) + UseText(a))
  {
    hide TokenTexts, Join;
    out := text;
    if a.repo.Some? { out := out + "::" + a.repo.value; }
    assert out == text + G.OptText("::", a.repo);
    if a.useDeps.Some? {
      out := out + ("[" + Join(TokenTexts(a.useDeps.value), ',') + "]");
    }
  }

  // ----- Well-formed atoms -----

  predicate WellFormedBuildId(b: string) {
    G.IsDigits(b) && (|b| > 1 ==> b[0] != '0')
  }

  ghost predicate WellFormedName(a: Atom, opts: AtomOptions) {
    if a.extended then
      && opts.allowWildcard
      && G.IsExtCat(a.category) && G.IsExtPkg(a.package)
      && a.revision.None? && a.buildId.None?
      && !Contains(WrittenOp(a.operator) + (a.category + ("/" + (a.package + VersionText(a)))), "**")
      && (if a.operator == EqGlob then a.version.Some? && G.IsStarVersion(a.version.value)
          else a.operator == NoOperator && a.version.None? && !(G.IsCat(a.category) && G.IsPkg(a.package)))
    else
      && G.IsCat(a.category) && G.IsPkg(a.package)
      && (a.operator == NoOperator <==> a.version.None?)
      && (a.version.None? ==> a.revision.None? && a.buildId.None?)
      && (a.version.Some? ==> G.ValidVr(G.Vr(a.version.value, a.revision)))
      && (if a.buildId.Some? then AllowBuildId(opts) && a.operator != EqGlob && WellFormedBuildId(a.buildId.value)
          else !G.EndsLikeVersion(a.package))
  }

  predicate WellFormedSlot(a: Atom, slotOperator: bool) {
    && (a.slot.Some? ==> G.IsSlot(a.slot.value))
    && (a.subSlot.Some? ==> a.slot.Some? && G.IsSlot(a.subSlot.value))
    && (a.slot.Some? ==> a.slotOperator != Some(AnySlot))
    && (!slotOperator ==> a.subSlot.None? && a.slotOperator.None?)
  }

  // Well-formed but for the features of the EAPI, which are looked at last.
  ghost predicate Readable(a: Atom, opts: AtomOptions) {
    && WellFormedName(a, opts)
    && WellFormedSlot(a, AttrsOf(opts.eapi).slotOperator)
    && (a.useDeps.Some? ==> !a.extended && ValidDeps(a.useDeps.value))
    && (a.repo.Some? ==> G.IsRepo(a.repo.value) && AllowRepo(opts))
  }

  ghost predicate WellFormed(a: Atom, opts: AtomOptions) {
    Readable(a, opts) && MissingFeature(opts, a.slot, a.useDeps, a.blocker).None?
  }
}
