// SRC_URI: the recursive-descent parser over a shared cursor, and the trees it
// reads.  A tree is read from exactly the tokens it prints as, and the USE
// conditionals only decide which of its leaves are kept.
module SrcUri {
  import opened Wrappers
  import opened Text
  import opened Positions

  datatype Entry = Entry(uri: string, filename: string, overrideMirror: bool, overrideFetch: bool)

  datatype Error =
    | ExpectedOpenAfter(tok: string)
    | Unterminated(tok: string)
    | Unexpected(tok: string)
    | MissingFilename
    | UnexpectedToken(tok: string)

  // ----- Trees -----

  // A list of items: URIs with an optional `-> name`, and `guard? ( ... )`.
  datatype Items =
    | End
    | Uri(tok: string, rename: Option<string>, rest: Items)
    | Group(guard: string, inner: Items, rest: Items)

  function Print(items: Items): seq<string> {
    match items
    case End => []
    case Uri(tok, rename, rest) => [tok] + ((if rename.Some? then ["->", rename.value] else []) + Print(rest))
    case Group(guard, inner, rest) => [guard + "?", "("] + (Print(inner) + ([")"] + Print(rest)))
  }

  // A token that is read as a URI.
  predicate IsUri(tok: string) {
    tok != "(" && tok != ")" && !EndsWith(tok, '?')
  }

  // The trees that can be read: every URI is one, and a URI without a rename
  // is not followed by something that looks like one.
  predicate Readable(items: Items) {
    match items
    case End => true
    case Uri(tok, rename, rest) => IsUri(tok) && (rename.None? ==> !(rest.Uri? && rest.tok == "->")) && Readable(rest)
    case Group(_, inner, rest) => Readable(inner) && Readable(rest)
  }

  // ----- Leaves -----

  function Basename(uri: string): string {
    if uri == "" || uri[|uri| - 1] == '/' then "" else Basename(uri[..|uri| - 1]) + [uri[|uri| - 1]]
  }

  // The entry of one URI token: override prefixes stripped, filename chosen.
  function EntryOf(tok: string, rename: Option<string>): Entry {
    var mirror, fetch := Strip(tok, "mirror+"), Strip(tok, "fetch+");
    var uri := if mirror.Some? then mirror.value else if fetch.Some? then fetch.value else tok;
    Entry(uri, if rename.Some? then rename.value else Basename(uri), mirror.Some?, mirror.Some? || fetch.Some?)
  }

  // A guard without its `?`: whether it is negated, and its flag.
  function GuardOf(guard: string): (bool, string) {
    var flag := Strip(guard, "!");
    if flag.Some? then (true, flag.value) else (false, guard)
  }

  type Activity = (bool, string) -> bool

  function IsActive(guard: string, active: Activity): bool {
    active(GuardOf(guard).0, GuardOf(guard).1)
  }

  // The entries of the leaves under active guards, in order.
  function Leaves(items: Items, active: Activity): seq<Entry> {
    match items
    case End => []
    case Uri(tok, rename, rest) => [EntryOf(tok, rename)] + Leaves(rest, active)
    case Group(guard, inner, rest) =>
      (if IsActive(guard, active) then Leaves(inner, active) else []) + Leaves(rest, active)
  }

  // ----- Reading -----

  // What stands at `pos`, up to the end of the tokens or a `)`.
  function Read(tokens: seq<string>, pos: nat): (r: Result<(Items, nat), Error>)
    requires pos <= |tokens|
    ensures r.Ok? ==> pos <= r.value.1 <= |tokens|
    decreases |tokens| - pos
  {
    if pos == |tokens| || tokens[pos] == ")" then Ok((End, pos))
    else
      var tok := tokens[pos];
      if EndsWith(tok, '?') then
        if pos + 1 == |tokens| || tokens[pos + 1] != "(" then Err(ExpectedOpenAfter(tok))
        else
          var inner := Read(tokens, pos + 2);
          if inner.Err? then inner
          else if inner.value.1 == |tokens| || tokens[inner.value.1] != ")" then Err(Unterminated(tok))
          else
            var rest := Read(tokens, inner.value.1 + 1);
            if rest.Err? then rest
            else Ok((Group(tok[..|tok| - 1], inner.value.0, rest.value.0), rest.value.1))
      else if tok == "(" then Err(Unexpected(tok))
      else if pos + 1 < |tokens| && tokens[pos + 1] == "->" then
        if pos + 2 == |tokens| then Err(MissingFilename)
        else
          var rest := Read(tokens, pos + 3);
          if rest.Err? then rest
          else Ok((Uri(tok, Some(tokens[pos + 2]), rest.value.0), rest.value.1))
      else
        var rest := Read(tokens, pos + 1);
        if rest.Err? then rest else Ok((Uri(tok, None, rest.value.0), rest.value.1))
  }

  // `flatten_src_uri` on a token list.
  function FlattenTokens(tokens: seq<string>, active: Activity): Result<seq<Entry>, Error> {
    var r := Read(tokens, 0);
    if r.Err? then Err(r.error)
    else if r.value.1 != |tokens| then Err(UnexpectedToken(tokens[r.value.1]))
    else Ok(Leaves(r.value.0, active))
  }

  function Flatten(text: string, active: Activity): Result<seq<Entry>, Error> {
    FlattenTokens(SplitWhitespace(text), active)
  }

  // ----- Reading inverts printing -----

  predicate Stops(tokens: seq<string>, pos: nat) {
    pos == |tokens| || (pos < |tokens| && tokens[pos] == ")")
  }

  function RenameText(rename: Option<string>): seq<string> {
    if rename.Some? then ["->", rename.value] else []
  }

  // The shape of a printed tree at a position.
  lemma PrintedUri(tokens: seq<string>, pos: nat, items: Items)
    requires items.Uri?
    ensures At(tokens, pos, Print(items)) <==>
      && pos < |tokens| && tokens[pos] == items.tok
      && (items.rename.Some? ==> pos + 2 < |tokens| && tokens[pos + 1] == "->" && tokens[pos + 2] == items.rename.value)
      && At(tokens, pos + 1 + |RenameText(items.rename)|, Print(items.rest))
    ensures |Print(items)| == 1 + |RenameText(items.rename)| + |Print(items.rest)|
  {
    var r := RenameText(items.rename);
    var rest := Print(items.rest);
    AtConcat(tokens, pos, [items.tok], r + rest);
    AtConcat(tokens, pos + 1, r, rest);
    AtOne(tokens, pos, items.tok);
    if items.rename.Some? {
      AtTwo(tokens, pos + 1, "->", items.rename.value);
    }
  }

  lemma GroupText(items: Items)
    requires items.Group?
    ensures Print(items) == [items.guard + "?", "("] + (Print(items.inner) + ([")"] + Print(items.rest)))
  {
  }

  lemma PrintedGroup(tokens: seq<string>, pos: nat, items: Items)
    requires items.Group?
    ensures var p := pos + 2 + |Print(items.inner)|;
      At(tokens, pos, Print(items)) <==>
      && pos + 1 < |tokens| && tokens[pos] == items.guard + "?" && tokens[pos + 1] == "("
      && At(tokens, pos + 2, Print(items.inner))
      && p < |tokens| && tokens[p] == ")"
      && At(tokens, p + 1, Print(items.rest))
    ensures |Print(items)| == 3 + |Print(items.inner)| + |Print(items.rest)|
  {
    hide *;
    GroupText(items);
    var inner, rest := Print(items.inner), Print(items.rest);
    AtConcat(tokens, pos, [items.guard + "?", "("], inner + ([")"] + rest));
    AtTwo(tokens, pos, items.guard + "?", "(");
    AtConcat(tokens, pos + 2, inner, [")"] + rest);
    AtConcat(tokens, pos + 2 + |inner|, [")"], rest);
    AtOne(tokens, pos + 2 + |inner|, ")");
  }

  // A printed tree starts with its first token.
  lemma PrintedStart(tokens: seq<string>, pos: nat, items: Items)
    requires At(tokens, pos, Print(items)) && Stops(tokens, pos + |Print(items)|)
    requires !(items.Uri? && items.tok == "->")
    ensures pos < |tokens| ==> tokens[pos] != "->"
  {
    match items {
      case End =>
      case Uri(_, _, _) => PrintedUri(tokens, pos, items);
      case Group(guard, _, _) =>
        PrintedGroup(tokens, pos, items);
        assert (guard + "?")[|guard|] == '?';
    }
  }

  lemma ReadableCases(items: Items)
    ensures items.Uri? ==>
      (Readable(items) <==>
        && IsUri(items.tok) && Readable(items.rest)
        && (items.rename.None? ==> !(items.rest.Uri? && items.rest.tok == "->")))
    ensures items.Group? ==> (Readable(items) <==> Readable(items.inner) && Readable(items.rest))
    ensures items.End? ==> Readable(items) && Print(items) == []
    ensures items.Uri? ==> |RenameText(items.rename)| == if items.rename.Some? then 2 else 0
  {
    hide IsUri;
  }

  lemma StopRead(tokens: seq<string>, pos: nat)
    requires pos <= |tokens|
    ensures Stops(tokens, pos) <==> Read(tokens, pos) == Ok((End, pos))
    ensures Read(tokens, pos).Ok? && Read(tokens, pos).value.0.End? ==> Read(tokens, pos) == Ok((End, pos))
    ensures At(tokens, pos, [])
    ensures Stops(tokens, pos) && pos < |tokens| ==> tokens[pos] == ")"
  {
  }

  lemma GuardToken(guard: string)
    ensures EndsWith(guard + "?", '?') && (guard + "?")[..|guard + "?"| - 1] == guard
  {
  }

  lemma UriRead(tokens: seq<string>, pos: nat, rename: Option<string>, next: nat)
    requires pos < |tokens| && IsUri(tokens[pos])
    requires pos + 1 < |tokens| && tokens[pos + 1] == "->" ==>
      pos + 2 < |tokens| && rename == Some(tokens[pos + 2]) && next == pos + 3
    requires !(pos + 1 < |tokens| && tokens[pos + 1] == "->") ==> rename.None? && next == pos + 1
    ensures var rest := Read(tokens, next);
      Read(tokens, pos) == if rest.Err? then rest else Ok((Uri(tokens[pos], rename, rest.value.0), rest.value.1))
  {
    hide EndsWith;
  }

  lemma GroupRead(tokens: seq<string>, pos: nat)
    requires pos < |tokens| && EndsWith(tokens[pos], '?')
    ensures tokens[pos] != ""
    ensures var tok := tokens[pos];
      Read(tokens, pos) ==
      if pos + 1 == |tokens| || tokens[pos + 1] != "(" then Err(ExpectedOpenAfter(tok))
      else
        var inner := Read(tokens, pos + 2);
        if inner.Err? then inner
        else if inner.value.1 == |tokens| || tokens[inner.value.1] != ")" then Err(Unterminated(tok))
        else
          var rest := Read(tokens, inner.value.1 + 1);
          if rest.Err? then rest else Ok((Group(tok[..|tok| - 1], inner.value.0, rest.value.0), rest.value.1))
  {
    assert tokens[pos] != ")";
  }

  lemma {:induction false} ReadPrinted(tokens: seq<string>, pos: nat, items: Items)
    requires Readable(items) && At(tokens, pos, Print(items)) && Stops(tokens, pos + |Print(items)|)
    requires pos + |Print(items)| <= |tokens|
    ensures Read(tokens, pos) == Ok((items, pos + |Print(items)|))
    decreases items
  {
    hide *;
    ReadableCases(items);
    match items {
      case End =>
        StopRead(tokens, pos);
      case Uri(tok, rename, rest) =>
        PrintedUri(tokens, pos, items);
        var next := pos + 1 + |RenameText(rename)|;
        ReadPrinted(tokens, next, rest);
        if rename.None? {
          PrintedStart(tokens, next, rest);
        }
        UriRead(tokens, pos, rename, next);
      case Group(guard, inner, rest) =>
        PrintedGroup(tokens, pos, items);
        var close := pos + 2 + |Print(inner)|;
        IntroStops(tokens, close);
        ReadPrinted(tokens, pos + 2, inner);
        ReadPrinted(tokens, close + 1, rest);
        GuardToken(guard);
        GroupRead(tokens, pos);
    }
  }

  lemma IntroStops(tokens: seq<string>, pos: nat)
    requires pos < |tokens| && tokens[pos] == ")"
    ensures Stops(tokens, pos)
  {
  }

  lemma {:induction false} ReadSound(tokens: seq<string>, pos: nat)
    requires pos <= |tokens| && Read(tokens, pos).Ok?
    ensures var (items, end) := Read(tokens, pos).value;
      && Readable(items) && At(tokens, pos, Print(items))
      && end == pos + |Print(items)| && Stops(tokens, end)
    decreases |tokens| - pos
  {
    hide *;
    var (items, end) := Read(tokens, pos).value;
    ReadableCases(items);
    match items {
      case End =>
        StopRead(tokens, pos);
      case Uri(tok, rename, rest) =>
        UriStep(tokens, pos);
        var next := pos + 1 + |RenameText(rename)|;
        ReadSound(tokens, next);
        PrintedUri(tokens, pos, items);
        if rename.None? && rest.Uri? {
          PrintedUri(tokens, next, rest);
        }
      case Group(guard, inner, rest) =>
        GroupStep(tokens, pos);
        ReadSound(tokens, pos + 2);
        ReadSound(tokens, Read(tokens, pos + 2).value.1 + 1);
        PrintedGroup(tokens, pos, items);
    }
  }

  lemma UriStep(tokens: seq<string>, pos: nat)
    requires pos <= |tokens| && Read(tokens, pos).Ok? && Read(tokens, pos).value.0.Uri?
    ensures var (items, end) := Read(tokens, pos).value;
      var p := pos + 1 + |RenameText(items.rename)|;
      && pos < |tokens| && tokens[pos] == items.tok && IsUri(items.tok)
      && (items.rename.Some? ==> pos + 2 < |tokens| && tokens[pos + 1] == "->" && tokens[pos + 2] == items.rename.value)
      && (items.rename.None? && pos + 1 < |tokens| ==> tokens[pos + 1] != "->")
      && p <= |tokens| && Read(tokens, p) == Ok((items.rest, end))
  {
    hide EndsWith;
  }

  lemma GroupStep(tokens: seq<string>, pos: nat)
    requires pos <= |tokens| && Read(tokens, pos).Ok? && Read(tokens, pos).value.0.Group?
    ensures var (items, end) := Read(tokens, pos).value;
      && pos + 1 < |tokens| && tokens[pos] == items.guard + "?" && tokens[pos + 1] == "("
      && Read(tokens, pos + 2).Ok? && Read(tokens, pos + 2).value.0 == items.inner
      && var p := Read(tokens, pos + 2).value.1;
      && p < |tokens| && tokens[p] == ")" && Read(tokens, p + 1) == Ok((items.rest, end))
  {
  }

  // For every token list and tree: the whole list is read as the tree exactly
  // when the tree is readable and prints as the list.
  lemma ReadExactly(tokens: seq<string>, items: Items)
    ensures Read(tokens, 0) == Ok((items, |tokens|)) <==> Readable(items) && Print(items) == tokens
  {
    hide *;
    AtWhole(tokens, Print(items));
    if Read(tokens, 0) == Ok((items, |tokens|)) {
      ReadSound(tokens, 0);
    }
    if Readable(items) && Print(items) == tokens {
      StopsAtEnd(tokens);
      ReadPrinted(tokens, 0, items);
    }
  }

  lemma StopsAtEnd(tokens: seq<string>)
    ensures Stops(tokens, |tokens|)
  {
  }

  // A text that consists of the tokens of a readable tree, whatever the blanks
  // around them, is flattened to the tree's active leaves.
  lemma FlattenPrinted(text: string, items: Items, active: Activity)
    requires Readable(items) && SpacedOut(text, Print(items))
    ensures Flatten(text, active) == Ok(Leaves(items, active))
  {
    hide Print, Read, Readable, Leaves, SplitWhitespace, SpacedOut;
    SplitExactly(text, Print(items));
    ReadExactly(Print(items), items);
  }

  // Only printed trees are accepted, and all of the text is used.
  lemma FlattenAccepts(text: string, active: Activity) returns (items: Items)
    requires Flatten(text, active).Ok?
    ensures Readable(items) && SpacedOut(text, Print(items))
    ensures Flatten(text, active) == Ok(Leaves(items, active))
  {
    hide Print, Read, Readable, Leaves, SplitWhitespace, SpacedOut;
    SplitExactly(text, SplitWhitespace(text));
    var tokens := SplitWhitespace(text);
    items := Read(tokens, 0).value.0;
    ReadExactly(tokens, items);
  }

  // ----- Guards only filter -----

  // A leaf with the guards around it, outermost first.
  datatype Tagged = Tagged(entry: Entry, guards: seq<string>)

  function TaggedLeaves(items: Items, guards: seq<string>): seq<Tagged> {
    match items
    case End => []
    case Uri(tok, rename, rest) => [Tagged(EntryOf(tok, rename), guards)] + TaggedLeaves(rest, guards)
    case Group(guard, inner, rest) => TaggedLeaves(inner, guards + [guard]) + TaggedLeaves(rest, guards)
  }

  predicate AllActive(guards: seq<string>, active: Activity) {
    forall i | 0 <= i < |guards| :: IsActive(guards[i], active)
  }

  function Kept(leaves: seq<Tagged>, active: Activity): seq<Entry> {
    if leaves == [] then []
    else (if AllActive(leaves[0].guards, active) then [leaves[0].entry] else []) + Kept(leaves[1..], active)
  }

  lemma {:induction false} KeptConcat(a: seq<Tagged>, b: seq<Tagged>, active: Activity)
    ensures Kept(a + b, active) == Kept(a, active) + Kept(b, active)
  {
    hide *;
    KeptCases(a, active);
    ConcatFirst(a, b);
    if a == [] {
      Assoc([], [], Kept(b, active));
    } else {
      KeptConcat(a[1..], b, active);
      KeptCases(a + b, active);
      Assoc(if AllActive(a[0].guards, active) then [a[0].entry] else [], Kept(a[1..], active), Kept(b, active));
    }
  }

  lemma KeptCases(leaves: seq<Tagged>, active: Activity)
    ensures leaves == [] ==> Kept(leaves, active) == []
    ensures leaves != [] ==>
      var first := if AllActive(leaves[0].guards, active) then [leaves[0].entry] else [];
      Kept(leaves, active) == first + Kept(leaves[1..], active)
  {
    hide AllActive;
  }

  lemma AllActiveSnoc(guards: seq<string>, guard: string, active: Activity)
    ensures AllActive(guards + [guard], active) <==> AllActive(guards, active) && IsActive(guard, active)
  {
    hide IsActive;
    var all := guards + [guard];
    assert all[|guards|] == guard && forall i | 0 <= i < |guards| :: all[i] == guards[i];
  }

  lemma {:induction false} KeptLeaves(items: Items, guards: seq<string>, active: Activity)
    ensures Kept(TaggedLeaves(items, guards), active) == if AllActive(guards, active) then Leaves(items, active) else []
  {
    match items {
      case End =>
      case Uri(tok, rename, rest) =>
        KeptLeaves(rest, guards, active);
        var first := [Tagged(EntryOf(tok, rename), guards)];
        KeptConcat(first, TaggedLeaves(rest, guards), active);
        assert first[1..] == [];
        hide AllActive, EntryOf;
      case Group(guard, inner, rest) =>
        KeptLeaves(inner, guards + [guard], active);
        KeptLeaves(rest, guards, active);
        KeptConcat(TaggedLeaves(inner, guards + [guard]), TaggedLeaves(rest, guards), active);
        AllActiveSnoc(guards, guard, active);
        hide AllActive, IsActive;
    }
  }

  function Entries(leaves: seq<Tagged>): seq<Entry> {
    if leaves == [] then [] else [leaves[0].entry] + Entries(leaves[1..])
  }

  lemma {:induction false} KeptAll(leaves: seq<Tagged>)
    ensures Kept(leaves, (n, f) => true) == Entries(leaves)
  {
    if leaves == [] {
    } else {
      KeptAll(leaves[1..]);
    }
  }

  // The active guards decide neither whether a text is accepted nor how it is
  // refused.  Of the leaves, all of which are listed when every guard is
  // active, exactly those under an inactive guard are left out.
  lemma GuardsOnlyFilter(text: string, active: Activity)
    ensures var all := Flatten(text, (n, f) => true);
      && (all.Err? ==> Flatten(text, active) == all)
      && (all.Ok? ==>
        var items := Read(SplitWhitespace(text), 0).value.0;
        var leaves := TaggedLeaves(items, []);
        all == Ok(Entries(leaves)) && Flatten(text, active) == Ok(Kept(leaves, active)))
  {
    hide Read, Leaves, TaggedLeaves, Kept, Entries, SplitWhitespace;
    var everything: Activity := (n, f) => true;
    if Flatten(text, everything).Ok? {
      var items := Read(SplitWhitespace(text), 0).value.0;
      KeptLeaves(items, [], active);
      KeptLeaves(items, [], everything);
      KeptAll(TaggedLeaves(items, []));
    }
  }

  // ----- What an entry says -----

  // The filename of a URI without rename: what follows its last slash.
  lemma {:induction false} BasenameMeaning(uri: string) returns (dir: string)
    ensures uri == dir + Basename(uri) && '/' !in Basename(uri) && (dir == "" || EndsWith(dir, '/'))
  {
    if uri == "" || uri[|uri| - 1] == '/' {
      dir := uri;
      assert uri + "" == uri;
    } else {
      dir := BasenameMeaning(uri[..|uri| - 1]);
      SnocLast(uri);
      var b := Basename(uri[..|uri| - 1]);
      assert dir + (b + [uri[|uri| - 1]]) == dir + b + [uri[|uri| - 1]];
    }
  }

  // The override bits tell the prefix apart: the token is rebuilt from them.
  lemma EntryMeaning(tok: string, rename: Option<string>)
    ensures var e := EntryOf(tok, rename);
      && tok == (if e.overrideMirror then "mirror+" else if e.overrideFetch then "fetch+" else "") + e.uri
      && (e.overrideMirror ==> e.overrideFetch)
      && (!e.overrideFetch ==> !StartsWith(e.uri, "mirror+") && !StartsWith(e.uri, "fetch+"))
      && e.filename == if rename.Some? then rename.value else Basename(e.uri)
  {
    hide Basename, Strip;
    assert "" + tok == tok;
  }

  // A guard is rebuilt from its flag and negation, which takes only one `!`.
  lemma GuardMeaning(guard: string, flag: string)
    ensures guard == (if GuardOf(guard).0 then "!" else "") + GuardOf(guard).1
    ensures GuardOf("!" + flag) == (true, flag)
    ensures GuardOf(flag) == (false, flag) <==> !StartsWith(flag, "!")
  {
    StripOf("!", flag);
    assert "" + guard == guard;
  }

  // Exactly when a guard lets its group through: `!flag` asks with the flag
  // negated, any other text as the flag it is.
  lemma GuardAsks(flag: string, active: Activity)
    ensures IsActive("!" + flag, active) == active(true, flag)
    ensures !StartsWith(flag, "!") ==> IsActive(flag, active) == active(false, flag)
  {
    hide GuardOf;
    GuardMeaning(flag, flag);
  }

  // ----- The parser itself -----

  // A read result with its leaves collected.
  function Collected(r: Result<(Items, nat), Error>, active: Activity): Result<(seq<Entry>, nat), Error> {
    if r.Err? then Err(r.error) else Ok((Leaves(r.value.0, active), r.value.1))
  }

  function Prepend(out: seq<Entry>, r: Result<(seq<Entry>, nat), Error>): Result<(seq<Entry>, nat), Error> {
    if r.Err? then r else Ok((out + r.value.0, r.value.1))
  }

  lemma PrependUri(out: seq<Entry>, tok: string, rename: Option<string>, rest: Items, end: nat, active: Activity)
    ensures Prepend(out, Collected(Ok((Uri(tok, rename, rest), end)), active))
         == Prepend(out + [EntryOf(tok, rename)], Collected(Ok((rest, end)), active))
  {
    hide EntryOf;
    Assoc(out, [EntryOf(tok, rename)], Leaves(rest, active));
  }

  lemma PrependGroup(out: seq<Entry>, guard: string, inner: Items, rest: Items, end: nat, active: Activity)
    ensures Prepend(out, Collected(Ok((Group(guard, inner, rest), end)), active))
         == Prepend(if IsActive(guard, active) then out + Leaves(inner, active) else out,
           Collected(Ok((rest, end)), active))
  {
    hide *;
    LeavesOfGroup(guard, inner, rest, active);
    CollectedOk(out, Group(guard, inner, rest), end, active);
    CollectedOk(out, rest, end, active);
    CollectedOk(out + Leaves(inner, active), rest, end, active);
    Assoc(out, Leaves(inner, active), Leaves(rest, active));
  }

  lemma LeavesOfGroup(guard: string, inner: Items, rest: Items, active: Activity)
    ensures Leaves(Group(guard, inner, rest), active) ==
      (if IsActive(guard, active) then Leaves(inner, active) else []) + Leaves(rest, active)
  {
    hide IsActive;
  }

  lemma CollectedOk(out: seq<Entry>, items: Items, end: nat, active: Activity)
    ensures Prepend(out, Collected(Ok((items, end)), active)) == Ok((out + Leaves(items, active), end))
  {
    hide Leaves;
  }

  lemma PrependError(out: seq<Entry>, e: Error, active: Activity)
    ensures Prepend(out, Collected(Err(e), active)) == Err(e)
    ensures Collected(Err(e), active) == Err(e)
  {
  }

  // One turn of the parser's loop at a URI.
  lemma UriTurn(tokens: seq<string>, pos: nat, out: seq<Entry>, active: Activity)
    requires pos < |tokens| && IsUri(tokens[pos])
    ensures var renamed := pos + 1 < |tokens| && tokens[pos + 1] == "->";
      && (renamed && pos + 2 == |tokens| ==> Read(tokens, pos) == Err(MissingFilename))
      && (renamed && pos + 2 < |tokens| ==>
        Prepend(out, Collected(Read(tokens, pos), active)) ==
        Prepend(out + [EntryOf(tokens[pos], Some(tokens[pos + 2]))], Collected(Read(tokens, pos + 3), active)))
      && (!renamed ==>
        Prepend(out, Collected(Read(tokens, pos), active)) ==
        Prepend(out + [EntryOf(tokens[pos], None)], Collected(Read(tokens, pos + 1), active)))
  {
    var renamed := pos + 1 < |tokens| && tokens[pos + 1] == "->";
    var rename := if renamed && pos + 2 < |tokens| then Some(tokens[pos + 2]) else None;
    var next := if renamed then pos + 3 else pos + 1;
    if next <= |tokens| {
      UriRead(tokens, pos, rename, next);
      var r := Read(tokens, next);
      hide *;
      if r.Ok? {
        PrependUri(out, tokens[pos], rename, r.value.0, r.value.1, active);
      } else {
        PrependError(out, r.error, active);
        PrependError(out + [EntryOf(tokens[pos], rename)], r.error, active);
      }
    }
  }

  // One turn at a guarded group.
  lemma GroupTurn(tokens: seq<string>, pos: nat, out: seq<Entry>, active: Activity)
    requires pos < |tokens| && EndsWith(tokens[pos], '?')
    ensures var tok := tokens[pos];
      if pos + 1 == |tokens| || tokens[pos + 1] != "(" then Read(tokens, pos) == Err(ExpectedOpenAfter(tok))
      else
        var inner := Read(tokens, pos + 2);
        if inner.Err? then Read(tokens, pos) == inner
        else if inner.value.1 == |tokens| || tokens[inner.value.1] != ")" then
          Read(tokens, pos) == Err(Unterminated(tok))
        else
          Prepend(out, Collected(Read(tokens, pos), active)) ==
          Prepend(if IsActive(tok[..|tok| - 1], active) then out + Leaves(inner.value.0, active) else out,
                  Collected(Read(tokens, inner.value.1 + 1), active))
  {
    hide *;
    GroupRead(tokens, pos);
    if pos + 1 < |tokens| && tokens[pos + 1] == "(" && Read(tokens, pos + 2).Ok? {
      var (inner, close) := Read(tokens, pos + 2).value;
      if close < |tokens| && tokens[close] == ")" {
        var guard := tokens[pos][..|tokens[pos]| - 1];
        var r := Read(tokens, close + 1);
        if r.Ok? {
          PrependGroup(out, guard, inner, r.value.0, r.value.1, active);
        } else {
          PrependError(out, r.error, active);
          PrependError(out + Leaves(inner, active), r.error, active);
        }
      }
    }
  }

  lemma OtherTurns(tokens: seq<string>, pos: nat)
    requires pos <= |tokens|
    ensures pos == |tokens| || tokens[pos] == ")" ==> Read(tokens, pos) == Ok((End, pos))
    ensures pos < |tokens| && tokens[pos] == "(" ==> Read(tokens, pos) == Err(Unexpected("("))
  {
  }

  lemma NothingCollected(out: seq<Entry>, pos: nat, r: Result<(seq<Entry>, nat), Error>, active: Activity)
    ensures Prepend(out, Collected(Ok((End, pos)), active)) == Ok((out, pos))
    ensures Prepend([], r) == r
  {
    assert out + [] == out;
    assert r.Ok? ==> [] + r.value.0 == r.value.0;
  }

  // ----- Refusals -----

  // What is wrong, and where: a guard not followed by `(`; a guard whose group
  // is a readable list that runs to the end of the tokens, so that its `)` is
  // missing; a stray bracket, for `)` after a readable list; or a final arrow.
  ghost predicate Blames(e: Error, tokens: seq<string>) {
    match e
    case ExpectedOpenAfter(tok) => exists k | 0 <= k < |tokens| :: tokens[k] == tok && LacksOpen(tokens, k)
    case Unterminated(tok) =>
      exists k | 0 <= k < |tokens| :: tokens[k] == tok && (exists inner :: LacksClose(tokens, k, inner))
    case Unexpected(tok) => tok == "(" && tok in tokens
    case UnexpectedToken(tok) => tok == ")" && (exists items :: ClosesNothing(tokens, items))
    case MissingFilename => |tokens| >= 2 && tokens[|tokens| - 1] == "->" && IsUri(tokens[|tokens| - 2])
  }

  predicate LacksOpen(tokens: seq<string>, k: nat)
    requires k < |tokens|
  {
    EndsWith(tokens[k], '?') && (k + 1 == |tokens| || tokens[k + 1] != "(")
  }

  ghost predicate LacksClose(tokens: seq<string>, k: nat, inner: Items)
    requires k < |tokens|
  {
    && EndsWith(tokens[k], '?') && k + 1 < |tokens| && tokens[k + 1] == "("
    && Readable(inner) && At(tokens, k + 2, Print(inner)) && k + 2 + |Print(inner)| == |tokens|
  }

  ghost predicate ClosesNothing(tokens: seq<string>, items: Items) {
    && Readable(items) && At(tokens, 0, Print(items))
    && |Print(items)| < |tokens| && tokens[|Print(items)|] == ")"
  }

  lemma BlamesToken(tokens: seq<string>, k: nat)
    requires k < |tokens|
    ensures LacksOpen(tokens, k) ==> Blames(ExpectedOpenAfter(tokens[k]), tokens)
    ensures tokens[k] == "(" ==> Blames(Unexpected(tokens[k]), tokens)
    ensures tokens[k] == "->" && k + 1 == |tokens| && k > 0 && IsUri(tokens[k - 1]) ==> Blames(MissingFilename, tokens)
  {
    hide EndsWith, LacksOpen, LacksClose, ClosesNothing;
    assert tokens[k] in tokens;
  }

  lemma LacksOpenCases(tokens: seq<string>, k: nat)
    requires k < |tokens|
    ensures LacksOpen(tokens, k) <==> EndsWith(tokens[k], '?') && (k + 1 == |tokens| || tokens[k + 1] != "(")
  {
    hide EndsWith;
  }

  lemma BlamesGroup(tokens: seq<string>, k: nat, inner: Items)
    requires k < |tokens| && EndsWith(tokens[k], '?') && k + 1 < |tokens| && tokens[k + 1] == "("
    requires Readable(inner) && At(tokens, k + 2, Print(inner)) && k + 2 + |Print(inner)| == |tokens|
    ensures Blames(Unterminated(tokens[k]), tokens)
  {
    hide EndsWith, Readable, At, Print, LacksOpen, ClosesNothing;
    assert LacksClose(tokens, k, inner);
  }

  lemma BlamesEnd(tokens: seq<string>, items: Items)
    requires Readable(items) && At(tokens, 0, Print(items))
    requires |Print(items)| < |tokens| && tokens[|Print(items)|] == ")"
    ensures Blames(UnexpectedToken(tokens[|Print(items)|]), tokens)
  {
    hide Readable, At, Print, LacksOpen, LacksClose;
    assert ClosesNothing(tokens, items);
  }

  lemma StopsCases(tokens: seq<string>, pos: nat)
    ensures Stops(tokens, pos) ==> pos == |tokens| || (pos < |tokens| && tokens[pos] == ")")
  {
  }

  lemma {:induction false} ReadBlames(tokens: seq<string>, pos: nat)
    requires pos <= |tokens| && Read(tokens, pos).Err?
    ensures Blames(Read(tokens, pos).error, tokens)
    decreases |tokens| - pos
  {
    hide *;
    OtherTurns(tokens, pos);
    var tok := tokens[pos];
    BlamesToken(tokens, pos);
    LacksOpenCases(tokens, pos);
    UriCases(tok);
    if EndsWith(tok, '?') {
      GroupRead(tokens, pos);
      if pos + 1 < |tokens| && tokens[pos + 1] == "(" {
        GroupBlames(tokens, pos);
      }
    } else if tok != "(" {
      var renamed := pos + 1 < |tokens| && tokens[pos + 1] == "->";
      if renamed && pos + 2 == |tokens| {
        MissingRead(tokens, pos);
        BlamesToken(tokens, pos + 1);
      } else {
        var next := if renamed then pos + 3 else pos + 1;
        UriRead(tokens, pos, if renamed then Some(tokens[pos + 2]) else None, next);
        ReadBlames(tokens, next);
      }
    }
  }

  lemma {:induction false} GroupBlames(tokens: seq<string>, pos: nat)
    requires pos + 1 < |tokens| && EndsWith(tokens[pos], '?') && tokens[pos + 1] == "("
    requires Read(tokens, pos).Err?
    ensures Blames(Read(tokens, pos).error, tokens)
    decreases |tokens| - pos, 0
  {
    hide *;
    GroupRead(tokens, pos);
    var inner := Read(tokens, pos + 2);
    if inner.Err? {
      ReadBlames(tokens, pos + 2);
    } else {
      ReadSound(tokens, pos + 2);
      StopsCases(tokens, inner.value.1);
      if inner.value.1 == |tokens| {
        BlamesGroup(tokens, pos, inner.value.0);
      } else {
        ReadBlames(tokens, inner.value.1 + 1);
      }
    }
  }

  lemma MissingRead(tokens: seq<string>, pos: nat)
    requires pos + 2 == |tokens| && IsUri(tokens[pos]) && tokens[pos + 1] == "->"
    ensures Read(tokens, pos) == Err(MissingFilename)
  {
    hide EndsWith;
  }

  // Every refusal of a text blames something that is there.
  lemma FlattenBlames(text: string, active: Activity)
    requires Flatten(text, active).Err?
    ensures exists tokens :: SpacedOut(text, tokens) && Blames(Flatten(text, active).error, tokens)
  {
    hide *;
    var tokens := SplitWhitespace(text);
    SplitExactly(text, tokens);
    FlattenCases(text, active);
    if Read(tokens, 0).Err? {
      ReadBlames(tokens, 0);
    } else {
      ReadSound(tokens, 0);
      StopsCases(tokens, Read(tokens, 0).value.1);
      BlamesEnd(tokens, Read(tokens, 0).value.0);
    }
  }

  lemma FlattenCases(text: string, active: Activity)
    ensures var tokens := SplitWhitespace(text);
      var r := Read(tokens, 0);
      Flatten(text, active) ==
      if r.Err? then Err(r.error)
      else if r.value.1 != |tokens| then Err(UnexpectedToken(tokens[r.value.1]))
      else Ok(Leaves(r.value.0, active))
  {
    hide Read, Leaves, SplitWhitespace;
  }

  // The token list with its cursor.
  class Parser {
    const tokens: seq<string>
    const active: Activity
    var pos: nat

    constructor (tokens: seq<string>, active: Activity)
      ensures this.tokens == tokens && this.active == active && pos == 0
    {
      this.tokens, this.active, pos := tokens, active, 0;
    }

    // `parse_list`: reads items up to a `)` or the end and leaves the cursor there.
    method ParseList() returns (r: Result<seq<Entry>, Error>)
      requires pos <= |tokens|
      modifies this`pos
      ensures pos <= |tokens|
      ensures var spec := Collected(Read(tokens, old(pos)), active);
        if spec.Ok? then r == Ok(spec.value.0) && pos == spec.value.1 else r == Err(spec.error)
      decreases |tokens| - pos
    {
      hide *;
      var out: seq<Entry> := [];
      ghost var start := pos;
      NothingCollected(out, start, Collected(Read(tokens, start), active), active);
      while pos < |tokens| && tokens[pos] != ")"
        invariant start <= pos <= |tokens|
        invariant Collected(Read(tokens, start), active) == Prepend(out, Collected(Read(tokens, pos), active))
        decreases |tokens| - pos
      {
        var tok := tokens[pos];
        OtherTurns(tokens, pos);
        if EndsWith(tok, '?') {
          GroupTurn(tokens, pos, out, active);
          LastOf(tok);
          pos := pos + 1;
          if pos == |tokens| || tokens[pos] != "(" {
            PrependError(out, ExpectedOpenAfter(tok), active);
            return Err(ExpectedOpenAfter(tok));
          }
          pos := pos + 1;
          ghost var inside := pos;
          var (negated, flag) := GuardOf(tok[..|tok| - 1]);
          CollectedCases(Read(tokens, inside), active);
          var inner := ParseList();
          if inner.Err? {
            PrependError(out, inner.error, active);
            return inner;
          }
          if pos == |tokens| || tokens[pos] != ")" {
            PrependError(out, Unterminated(tok), active);
            return Err(Unterminated(tok));
          }
          pos := pos + 1;
          ActiveCases(tok[..|tok| - 1], active);
          if active(negated, flag) { out := out + inner.value; }
        } else if tok == "(" || tok == ")" {
          PrependError(out, Unexpected(tok), active);
          return Err(Unexpected(tok));
        } else {
          UriCases(tok);
          UriTurn(tokens, pos, out, active);
          pos := pos + 1;
          var rename: Option<string> := None;
          if pos < |tokens| && tokens[pos] == "->" {
            pos := pos + 1;
            if pos == |tokens| {
              PrependError(out, MissingFilename, active);
              return Err(MissingFilename);
            }
            rename := Some(tokens[pos]);
            pos := pos + 1;
          }
          out := out + [EntryOf(tok, rename)];
        }
      }
      OtherTurns(tokens, pos);
      NothingCollected(out, pos, Ok((out, pos)), active);
      CollectedCases(Read(tokens, start), active);
      return Ok(out);
    }
  }

  lemma LastOf(tok: string)
    ensures EndsWith(tok, '?') ==> tok != ""
  {
  }

  lemma UriCases(tok: string)
    ensures IsUri(tok) <==> tok != "(" && tok != ")" && !EndsWith(tok, '?')
  {
  }

  lemma ActiveCases(guard: string, active: Activity)
    ensures IsActive(guard, active) == active(GuardOf(guard).0, GuardOf(guard).1)
  {
  }

  lemma CollectedCases(r: Result<(Items, nat), Error>, active: Activity)
    ensures Collected(r, active) == if r.Err? then Err(r.error) else Ok((Leaves(r.value.0, active), r.value.1))
  {
  }

  // `flatten_src_uri`
  method FlattenSrcUri(text: string, active: Activity) returns (r: Result<seq<Entry>, Error>)
    ensures r == Flatten(text, active)
  {
    hide Read, Leaves, SplitWhitespace;
    var tokens := SplitWhitespace(text);
    var parser := new Parser(tokens, active);
    var entries := parser.ParseList();
    if entries.Err? { return entries; }
    if parser.pos != |tokens| { return Err(UnexpectedToken(tokens[parser.pos])); }
    return entries;
  }
}
