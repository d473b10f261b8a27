// `extract_affecting_use`: a one-pass bracket machine that folds the part of
// a dependency string containing one atom and collects the USE flags whose
// conditionals guard it.  The machine works on a stack of frames that it
// flattens, pops and merges; its meaning is given here by a recursive
// definition on dependency trees, and the machine is proved to compute it.
module AffectingUse {
  import opened Wrappers
  import opened Text

  // ----- Dependency trees: the reference meaning -----

  // One element of a dependency string.  `test` is the whole conditional
  // token, `flag?` or `!flag?`.
  datatype Dep =
    | Leaf(tok: string)
    | Parens(body: seq<Dep>)
    | AnyOf(body: seq<Dep>)
    | Cond(test: string, body: seq<Dep>)

  predicate IsReserved(tok: string) {
    tok == "(" || tok == ")" || tok == "||"
  }

  predicate IsTest(tok: string) {
    EndsWith(tok, '?')
  }

  // The trees the token syntax can write down.
  ghost predicate WellFormed(d: Dep) {
    match d
    case Leaf(tok) => !IsReserved(tok) && !IsTest(tok)
    case Parens(body) => AllWellFormed(body)
    case AnyOf(body) => AllWellFormed(body)
    case Cond(test, body) => IsTest(test) && AllWellFormed(body)
  }

  ghost predicate AllWellFormed(ds: seq<Dep>) {
    ds == [] || (AllWellFormed(ds[..|ds| - 1]) && WellFormed(ds[|ds| - 1]))
  }

  // The tokens of a tree, and of a list of trees.
  function Tokens(d: Dep): seq<string> {
    match d
    case Leaf(tok) => [tok]
    case Parens(body) => ["("] + AllTokens(body) + [")"]
    case AnyOf(body) => ["||"] + (["("] + AllTokens(body) + [")"])
    case Cond(test, body) => [test] + (["("] + AllTokens(body) + [")"])
  }

  function AllTokens(ds: seq<Dep>): seq<string> {
    if ds == [] then [] else AllTokens(ds[..|ds| - 1]) + Tokens(ds[|ds| - 1])
  }

  predicate Occurs(d: Dep, atom: string) {
    match d
    case Leaf(tok) => tok == atom
    case Parens(body) => OccursIn(body, atom)
    case AnyOf(body) => OccursIn(body, atom)
    case Cond(_, body) => OccursIn(body, atom)
  }

  predicate OccursIn(ds: seq<Dep>, atom: string) {
    ds != [] && (OccursIn(ds[..|ds| - 1], atom) || Occurs(ds[|ds| - 1], atom))
  }

  // The flag a conditional token tests: what stands between an optional `!`
  // and the last character, provided it is a flag name.
  function CondFlag(tok: string): Option<string> {
    var body := if StartsWith(tok, "!") then tok[1..] else tok;
    if body == "" then None
    else
      var flag := body[..|body| - 1];
      if IsFlag(flag) then Some(flag) else None
  }

  // The two kinds of tokens that are no atoms: three words, and all that ends in
  // a question mark.
  lemma TokenKinds(tok: string)
    ensures IsReserved(tok) <==> tok in {"(", ")", "||"}
    ensures IsTest(tok) <==> exists front :: tok == front + "?"
  {
    AffixesExactly(tok, "", '?');
  }

  // The flag a test names: `flag?` and `!flag?` are the two forms.
  lemma CondFlagExactly(tok: string, flag: string)
    requires IsTest(tok)
    ensures CondFlag(tok) == Some(flag) <==> IsFlag(flag) && (tok == flag + "?" || tok == "!" + (flag + "?"))
  {
    SnocLast(tok);
    if StartsWith(tok, "!") {
      assert tok == "!" + tok[1..];
      if |tok| > 1 {
        SnocLast(tok[1..]);
      }
    }
    assert (flag + "?")[..|flag|] == flag;
    assert ("!" + (flag + "?"))[1..] == flag + "?";
    if IsFlag(flag) {
      assert flag[0] != '!' && (flag + "?")[0] == flag[0];
    }
  }

  // The flags of the conditional groups that contain the atom.
  function Flags(d: Dep, atom: string): set<string> {
    match d
    case Leaf(_) => {}
    case Parens(body) => FlagsIn(body, atom)
    case AnyOf(body) => FlagsIn(body, atom)
    case Cond(test, body) =>
      FlagsIn(body, atom)
      + if OccursIn(body, atom) && CondFlag(test).Some? then {CondFlag(test).value} else {}
  }

  function FlagsIn(ds: seq<Dep>, atom: string): set<string> {
    if ds == [] then {} else FlagsIn(ds[..|ds| - 1], atom) + Flags(ds[|ds| - 1], atom)
  }

  // Every conditional group that contains the atom names a valid flag.
  predicate FlagsValid(d: Dep, atom: string) {
    match d
    case Leaf(_) => true
    case Parens(body) => FlagsValidIn(body, atom)
    case AnyOf(body) => FlagsValidIn(body, atom)
    case Cond(test, body) => FlagsValidIn(body, atom) && (OccursIn(body, atom) ==> CondFlag(test).Some?)
  }

  predicate FlagsValidIn(ds: seq<Dep>, atom: string) {
    ds == [] || (FlagsValidIn(ds[..|ds| - 1], atom) && FlagsValid(ds[|ds| - 1], atom))
  }

  // The answer the trees define.
  function Answer(ds: seq<Dep>, atom: string): Option<set<string>> {
    if FlagsValidIn(ds, atom) then Some(FlagsIn(ds, atom)) else None
  }

  ghost predicate Spells(ds: seq<Dep>, tokens: seq<string>) {
    AllWellFormed(ds) && AllTokens(ds) == tokens
  }

  // ----- A shift/reduce reading of the tokens into trees -----

  datatype Pending = Nothing | OpAny | OpCond(test: string)

  // An open group: its finished members, and an operator still waiting for
  // (or already owning) the next group.
  datatype Frame = Frame(done: seq<Dep>, pending: Pending)

  function Node(p: Pending, body: seq<Dep>): Dep {
    match p
    case Nothing => Parens(body)
    case OpAny => AnyOf(body)
    case OpCond(test) => Cond(test, body)
  }

  function Shift(g: seq<Frame>, tok: string): Option<seq<Frame>>
    requires g != []
  {
    var n := |g| - 1;
    var top := g[n];
    if tok == "(" then Some(g + [Frame([], Nothing)])
    else if !top.pending.Nothing? then None
    else if tok == ")" then
      if n == 0 then None
      else Some(g[..n - 1] + [Frame(g[n - 1].done + [Node(g[n - 1].pending, top.done)], Nothing)])
    else if tok == "||" then Some(g[..n] + [Frame(top.done, OpAny)])
    else if IsTest(tok) then Some(g[..n] + [Frame(top.done, OpCond(tok))])
    else Some(g[..n] + [Frame(top.done + [Leaf(tok)], Nothing)])
  }

  function Read(g: seq<Frame>, tokens: seq<string>): (r: Option<seq<Frame>>)
    requires g != []
    ensures r.Some? ==> r.value != []
  {
    if tokens == [] then Some(g)
    else
      var before := Read(g, tokens[..|tokens| - 1]);
      if before.None? then None else Shift(before.value, tokens[|tokens| - 1])
  }

  const START: seq<Frame> := [Frame([], Nothing)]

  lemma {:induction false} ReadConcat(g: seq<Frame>, a: seq<string>, b: seq<string>)
    requires g != []
    ensures Read(g, a + b) == if Read(g, a).None? then None else Read(Read(g, a).value, b)
    decreases |b|
  {
    if b == [] {
      assert a + b == a;
    } else {
      var m := |b| - 1;
      assert (a + b)[..|a + b| - 1] == a + b[..m];
      ReadConcat(g, a, b[..m]);
    }
  }

  // The tokens consumed by an operator.
  function OpTokens(p: Pending): seq<string> {
    match p
    case Nothing => []
    case OpAny => ["||"]
    case OpCond(test) => [test]
  }

  function OperatorOf(d: Dep): Pending {
    match d
    case Leaf(_) => Nothing
    case Parens(_) => Nothing
    case AnyOf(_) => OpAny
    case Cond(test, _) => OpCond(test)
  }

  lemma GroupTokens(d: Dep)
    requires !d.Leaf?
    ensures d == Node(OperatorOf(d), d.body)
    ensures Tokens(d) == OpTokens(OperatorOf(d)) + (["("] + AllTokens(d.body) + [")"])
    ensures WellFormed(d) ==> AllWellFormed(d.body) && (d.Cond? ==> IsTest(d.test))
  {
    if d.Parens? {
      assert [] + (["("] + AllTokens(d.body) + [")"]) == Tokens(d);
    }
  }

  lemma ReadOperator(g: seq<Frame>, d: Dep)
    requires g != [] && g[|g| - 1].pending.Nothing? && WellFormed(d)
    ensures if d.Leaf? then Read(g, Tokens(d)) == Some(g[..|g| - 1] + [Frame(g[|g| - 1].done + [d], Nothing)])
      else Read(g, OpTokens(OperatorOf(d))) == Some(g[..|g| - 1] + [Frame(g[|g| - 1].done, OperatorOf(d))])
  {
    match d
    case Leaf(tok) => ReadOne(g, tok);
    case Parens(_) => assert g == g[..|g| - 1] + [Frame(g[|g| - 1].done, Nothing)];
    case AnyOf(_) => ReadOne(g, "||");
    case Cond(test, _) => ReadOne(g, test);
  }

  // Reading the tokens of well-formed trees appends exactly those trees.
  lemma {:induction false} ReadTree(g: seq<Frame>, d: Dep)
    requires g != [] && g[|g| - 1].pending.Nothing? && WellFormed(d)
    ensures Read(g, Tokens(d)) == Some(g[..|g| - 1] + [Frame(g[|g| - 1].done + [d], Nothing)])
    decreases d, 1
  {
    hide *;
    ReadOperator(g, d);
    if !d.Leaf? {
      GroupTokens(d);
      var p := OperatorOf(d);
      OpenedTop(g, p);
      ReadTrees(Opened(g, p), d.body);
      ReadGroup(g, OpTokens(p), p, d.body);
    }
  }

  lemma OpenedTop(g: seq<Frame>, p: Pending)
    requires g != []
    ensures |Opened(g, p)| == |g| + 1 && Opened(g, p)[|g|] == Frame([], Nothing)
  {
  }

  // The stack after operator `p` and its opening bracket.
  function Opened(g: seq<Frame>, p: Pending): seq<Frame>
    requires g != []
  {
    g[..|g| - 1] + [Frame(g[|g| - 1].done, p)] + [Frame([], Nothing)]
  }

  lemma {:induction false} ReadGroup(g: seq<Frame>, opTokens: seq<string>, p: Pending, body: seq<Dep>)
    requires g != []
    requires Read(g, opTokens) == Some(g[..|g| - 1] + [Frame(g[|g| - 1].done, p)])
    requires Read(Opened(g, p), AllTokens(body)) == Some(Opened(g, p)[..|g|] + [Frame([] + body, Nothing)])
    ensures Read(g, opTokens + (["("] + AllTokens(body) + [")"]))
         == Some(g[..|g| - 1] + [Frame(g[|g| - 1].done + [Node(p, body)], Nothing)])
  {
    hide *;
    OpenedStack(g, p);
    var n := |g| - 1;
    var h := g[..n] + [Frame(g[n].done, p)];
    var full := h + [Frame(body, Nothing)];
    assert [] + body == body;
    assert Opened(g, p)[..|g|] == h;
    ReadOne(h, "(");
    ReadOne(full, ")");
    ClosedStack(full);
    assert full[..n] == g[..n];
    ReadConcat(Opened(g, p), AllTokens(body), [")"]);
    ReadConcat(h, ["("], AllTokens(body) + [")"]);
    assert ["("] + (AllTokens(body) + [")"]) == ["("] + AllTokens(body) + [")"];
    ReadConcat(g, opTokens, ["("] + AllTokens(body) + [")"]);
  }

  lemma OpenedStack(g: seq<Frame>, p: Pending)
    requires g != []
    ensures var h := g[..|g| - 1] + [Frame(g[|g| - 1].done, p)];
      Opened(g, p) == h + [Frame([], Nothing)] && Shift(h, "(") == Some(Opened(g, p))
  {
  }

  lemma {:induction false} ReadTrees(g: seq<Frame>, ds: seq<Dep>)
    requires g != [] && g[|g| - 1].pending.Nothing? && AllWellFormed(ds)
    ensures Read(g, AllTokens(ds)) == Some(g[..|g| - 1] + [Frame(g[|g| - 1].done + ds, Nothing)])
    decreases ds, 0
  {
    hide *;
    var n := |g| - 1;
    if ds == [] {
      NoTokens(g);
      SnocLast(g);
      ConcatLast(g[n].done, ds);
    } else {
      var m := |ds| - 1;
      SnocTokens(ds);
      SnocLast(ds);
      ReadTrees(g, ds[..m]);
      var h := g[..n] + [Frame(g[n].done + ds[..m], Nothing)];
      ReadTree(h, ds[m]);
      ReadConcat(g, AllTokens(ds[..m]), Tokens(ds[m]));
      assert h[..n] == g[..n];
      Assoc(g[n].done, ds[..m], [ds[m]]);
    }
  }

  lemma NoTokens(g: seq<Frame>)
    requires g != []
    ensures Read(g, AllTokens([])) == Some(g)
  {
  }

  lemma SnocTokens(ds: seq<Dep>)
    requires ds != []
    ensures AllTokens(ds) == AllTokens(ds[..|ds| - 1]) + Tokens(ds[|ds| - 1])
    ensures AllWellFormed(ds) ==> AllWellFormed(ds[..|ds| - 1]) && WellFormed(ds[|ds| - 1])
  {
  }

  lemma ReadOne(g: seq<Frame>, tok: string)
    requires g != []
    ensures Read(g, [tok]) == Shift(g, tok)
  {
    assert [tok][..0] == [];
  }

  // The tokens consumed by a stack of frames.
  function FrameTokens(f: Frame): seq<string> {
    AllTokens(f.done) + OpTokens(f.pending)
  }

  function StackTokens(g: seq<Frame>): seq<string>
    requires g != []
  {
    if |g| == 1 then FrameTokens(g[0])
    else StackTokens(g[..|g| - 1]) + ["("] + FrameTokens(g[|g| - 1])
  }

  ghost predicate FrameWellFormed(f: Frame) {
    AllWellFormed(f.done) && (f.pending.OpCond? ==> IsTest(f.pending.test))
  }

  ghost predicate StackWellFormed(g: seq<Frame>) {
    forall i | 0 <= i < |g| :: FrameWellFormed(g[i])
  }

  lemma AllTokensSnoc(ds: seq<Dep>, d: Dep)
    ensures AllTokens(ds + [d]) == AllTokens(ds) + Tokens(d)
    ensures AllWellFormed(ds + [d]) <==> AllWellFormed(ds) && WellFormed(d)
  {
    assert (ds + [d])[..|ds + [d]| - 1] == ds;
  }

  lemma {:induction false} ShiftWellFormed(g: seq<Frame>, tok: string)
    requires g != [] && StackWellFormed(g)
    requires Shift(g, tok).Some?
    ensures StackWellFormed(Shift(g, tok).value)
  {
    if tok == ")" {
      ClosedStack(g);
      ClosedWellFormed(g[|g| - 2], g[|g| - 1]);
      hide FrameWellFormed, Shift;
    } else {
      ShiftedStack(g, tok);
      ShiftedWellFormed(g, tok);
      hide FrameWellFormed, Shift;
    }
  }

  lemma ClosedWellFormed(under: Frame, top: Frame)
    requires FrameWellFormed(under) && FrameWellFormed(top)
    ensures FrameWellFormed(Frame(under.done + [Node(under.pending, top.done)], Nothing))
  {
    AllTokensSnoc(under.done, Node(under.pending, top.done));
  }

  lemma ShiftedWellFormed(g: seq<Frame>, tok: string)
    requires g != [] && tok != ")" && Shift(g, tok).Some? && FrameWellFormed(g[|g| - 1])
    ensures var h := Shift(g, tok).value; FrameWellFormed(h[|h| - 1])
  {
    hide AllTokens, AllWellFormed, Tokens;
    var done := g[|g| - 1].done;
    AllTokensSnoc(done, Leaf(tok));
    if tok == "(" {
      NothingWellFormed();
    }
  }

  lemma NothingWellFormed()
    ensures AllWellFormed([])
  {
  }

  // Shifting never loses or invents a token.
  lemma {:induction false} ShiftTokens(g: seq<Frame>, tok: string)
    requires g != []
    requires Shift(g, tok).Some?
    ensures StackTokens(Shift(g, tok).value) == StackTokens(g) + [tok]
  {
    hide *;
    if tok == ")" {
      CloseAllowed(g);
      CloseTokens(g);
    } else {
      ShiftedStack(g, tok);
      ShiftedTop(g, tok);
      var n := |g| - 1;
      var h := Shift(g, tok).value;
      SnocLast(g);
      TopTokens(g[..n], g[n]);
      TopTokens(if tok == "(" then g else g[..n], h[|h| - 1]);
      assert StackTokens(g) + [tok] + [] == StackTokens(g) + [tok];
    }
  }

  lemma CloseAllowed(g: seq<Frame>)
    requires g != [] && Shift(g, ")").Some?
    ensures |g| > 1 && g[|g| - 1].pending.Nothing?
  {
  }

  lemma ShiftedTop(g: seq<Frame>, tok: string)
    requires g != [] && tok != ")" && Shift(g, tok).Some?
    ensures var h := Shift(g, tok).value;
      FrameTokens(h[|h| - 1]) == if tok == "(" then [] else FrameTokens(g[|g| - 1]) + [tok]
  {
    AllTokensSnoc(g[|g| - 1].done, Leaf(tok));
  }

  lemma CloseTokens(g: seq<Frame>)
    requires |g| > 1 && g[|g| - 1].pending.Nothing?
    ensures StackTokens(Shift(g, ")").value) == StackTokens(g) + [")"]
  {
    hide *;
    ClosedStack(g);
    var n := |g| - 1;
    CloseTokensAt(g[..n - 1], g[n - 1], g[n]);
    SnocLastTwo(g);
  }

  lemma CloseTokensAt(low: seq<Frame>, under: Frame, top: Frame)
    requires top.pending.Nothing?
    ensures StackTokens(low + [Frame(under.done + [Node(under.pending, top.done)], Nothing)])
         == StackTokens(low + [under] + [top]) + [")"]
  {
    hide *;
    var f := Frame(under.done + [Node(under.pending, top.done)], Nothing);
    CloseFrameTokens(under, top.done);
    NoOperatorTokens(top);
    TopTokens(low, under);
    TopTokens(low + [under], top);
    TopTokens(low, f);
    Regroup(if low == [] then [] else StackTokens(low) + ["("], FrameTokens(under), AllTokens(top.done));
  }

  lemma NoOperatorTokens(f: Frame)
    requires f.pending.Nothing?
    ensures FrameTokens(f) == AllTokens(f.done)
  {
  }

  lemma Regroup(a: seq<string>, b: seq<string>, c: seq<string>)
    ensures a + (b + (["("] + c) + [")"]) == (a + b + ["("] + c) + [")"]
    ensures [] + b == b
    ensures [] + (b + (["("] + c) + [")"]) == b + (["("] + c) + [")"]
  {
  }

  lemma CloseFrameTokens(under: Frame, body: seq<Dep>)
    ensures FrameTokens(Frame(under.done + [Node(under.pending, body)], Nothing))
         == FrameTokens(under) + (["("] + AllTokens(body)) + [")"]
  {
    hide *;
    var f := Frame(under.done + [Node(under.pending, body)], Nothing);
    AllTokensSnoc(under.done, Node(under.pending, body));
    NodeTokens(under.pending, body);
    NoOperatorTokens(f);
    OperatorTokens(under);
    var inner := ["("] + AllTokens(body);
    Assoc(OpTokens(under.pending), inner, [")"]);
    Assoc(AllTokens(under.done), OpTokens(under.pending), inner + [")"]);
    Assoc(FrameTokens(under), inner, [")"]);
  }

  lemma OperatorTokens(f: Frame)
    ensures FrameTokens(f) == AllTokens(f.done) + OpTokens(f.pending)
  {
    hide AllTokens, OpTokens;
  }

  lemma NodeTokens(p: Pending, body: seq<Dep>)
    ensures Tokens(Node(p, body)) == OpTokens(p) + (["("] + AllTokens(body) + [")"])
  {
    hide AllTokens;
    if p.Nothing? {
      Assoc([], [], ["("] + AllTokens(body) + [")"]);
    }
  }

  lemma TopTokens(g: seq<Frame>, f: Frame)
    ensures StackTokens(g + [f]) == if g == [] then FrameTokens(f) else StackTokens(g) + ["("] + FrameTokens(f)
  {
    assert (g + [f])[..|g|] == g;
  }

  // What has been read is exactly what the stack spells.
  lemma {:induction false} ReadSpells(tokens: seq<string>)
    requires Read(START, tokens).Some?
    ensures StackWellFormed(Read(START, tokens).value)
    ensures StackTokens(Read(START, tokens).value) == tokens
    decreases |tokens|
  {
    hide *;
    StartSpells();
    if tokens == [] {
    } else {
      ReadLast(START, tokens);
      var before, tok := tokens[..|tokens| - 1], tokens[|tokens| - 1];
      ReadSpells(before);
      ShiftWellFormed(Read(START, before).value, tok);
      ShiftTokens(Read(START, before).value, tok);
      SnocLast(tokens);
    }
  }

  lemma StartSpells()
    ensures START != [] && Read(START, []) == Some(START) && StackWellFormed(START) && StackTokens(START) == []
  {
  }

  lemma ReadLast(g: seq<Frame>, tokens: seq<string>)
    requires g != [] && tokens != [] && Read(g, tokens).Some?
    ensures Read(g, tokens[..|tokens| - 1]).Some?
    ensures Read(g, tokens) == Shift(Read(g, tokens[..|tokens| - 1]).value, tokens[|tokens| - 1])
  {
  }

  // A token list is spelt by at most one tree list, and reading finds it.
  lemma {:induction false} SpellingRead(ds: seq<Dep>, tokens: seq<string>)
    requires Spells(ds, tokens)
    ensures Read(START, tokens) == Some([Frame(ds, Nothing)])
  {
    ReadTrees(START, ds);
    assert START[0].done + ds == ds;
    assert START[..0] + [Frame(ds, Nothing)] == [Frame(ds, Nothing)];
  }

  // An unreadable prefix makes the whole list unreadable.
  lemma {:induction false} PrefixFails(tokens: seq<string>, i: nat, atom: string)
    requires i <= |tokens| && Read(START, tokens[..i]).None?
    ensures Meaning(tokens, atom) == None
  {
    assert tokens == tokens[..i] + tokens[i..];
    ReadConcat(START, tokens[..i], tokens[i..]);
    forall ds | Spells(ds, tokens) ensures false {
      SpellingRead(ds, tokens);
    }
  }

  // ----- The machine's own data -----

  // An element of the machine's stack: a token or a nested group.
  datatype Aff = Tok(text: string) | Group(items: seq<Aff>)

  predicate EndsQ(e: Aff) {
    match e
    case Tok(text) => EndsWith(text, '?')
    case Group(items) => items != [] && EndsQ(items[|items| - 1])
  }

  predicate IsBarBar(e: Aff) {
    e == Tok("||")
  }

  predicate EndsInOperator(frame: seq<Aff>) {
    frame != [] && (IsBarBar(frame[|frame| - 1]) || EndsQ(frame[|frame| - 1]))
  }

  // What `frame` becomes when the group `l` closes: the members of `l` join it
  // one by one where a bracket pair around them would say nothing more.
  function SpecialAppend(frame: seq<Aff>, isSingle: bool, l: seq<Aff>): seq<Aff> {
    if isSingle && !(frame != [] && EndsQ(frame[|frame| - 1])) then
      if |l| == 1 && l[0].Group? then frame + l[0].items else frame + l
    else
      frame + [Group(l)]
  }

  // A closed frame: no element, at any depth, ends in an operator, nested
  // groups are non-empty, and every conditional left standing has had its
  // flag recorded.
  ghost predicate Clean(l: seq<Aff>, flags: set<string>)
    decreases l, 0
  {
    && (forall i | 0 <= i < |l| :: CleanElement(l[i], flags))
    && (l != [] ==> !IsOperator(l[|l| - 1]))
  }

  ghost predicate CleanElement(e: Aff, flags: set<string>)
    decreases e, 1
  {
    match e
    case Tok(text) => IsTest(text) ==> CondFlag(text).Some? && CondFlag(text).value in flags
    case Group(items) => items != [] && Clean(items, flags)
  }

  predicate IsOperator(e: Aff) {
    e.Tok? && (IsTest(e.text) || e.text == "||")
  }

  lemma {:induction false} CleanMonotone(l: seq<Aff>, flags: set<string>, more: set<string>)
    requires Clean(l, flags) && flags <= more
    ensures Clean(l, more)
  {
    forall i | 0 <= i < |l| ensures CleanElement(l[i], more) {
      assert CleanElement(l[i], flags);
      if l[i].Group? {
        CleanMonotone(l[i].items, flags, more);
      }
    }
  }

  lemma {:induction false} CleanDoesNotEndInOperator(l: seq<Aff>, flags: set<string>)
    requires Clean(l, flags)
    ensures !EndsInOperator(l)
  {
    if l == [] {
    } else {
      var e := l[|l| - 1];
      assert CleanElement(e, flags);
      if e.Group? {
        CleanDoesNotEndInOperator(e.items, flags);
      }
    }
  }

  lemma CleanElementEndsQ(e: Aff, flags: set<string>)
    requires CleanElement(e, flags)
    ensures EndsQ(e) ==> e.Tok?
  {
    if e.Group? {
      CleanDoesNotEndInOperator(e.items, flags);
    }
  }

  // Appending clean, non-empty items to a frame whose members are clean
  // leaves a clean frame, even when the frame ended in an operator.
  lemma CleanAppend(frame: seq<Aff>, l: seq<Aff>, flags: set<string>)
    requires forall i | 0 <= i < |frame| :: CleanElement(frame[i], flags)
    requires Clean(l, flags) && l != []
    ensures Clean(frame + l, flags)
  {
    var r := frame + l;
    assert r[|r| - 1] == l[|l| - 1];
    forall i | 0 <= i < |r| ensures CleanElement(r[i], flags) {
      assert r[i] == if i < |frame| then frame[i] else l[i - |frame|];
    }
  }

  lemma CleanConcat(frame: seq<Aff>, l: seq<Aff>, flags: set<string>)
    requires Clean(frame, flags) && Clean(l, flags) && l != []
    ensures Clean(frame + l, flags)
  {
    CleanAppend(frame, l, flags);
  }

  lemma SpecialAppendClean(base: seq<Aff>, p: Pending, isSingle: bool, l: seq<Aff>, flags: set<string>)
    requires Clean(base, flags) && (p.OpCond? ==> CondFlag(p.test).Some? && CondFlag(p.test).value in flags)
    requires Clean(l, flags) && l != []
    ensures Clean(SpecialAppend(base + Mark(p), isSingle, l), flags)
    ensures SpecialAppend(base + Mark(p), isSingle, l) != []
    ensures base + Mark(Nothing) == base
  {
    hide *;
    var frame := base + Mark(p);
    MarkedClean(base, p, flags);
    GroupClean(l, flags);
    SpecialAppendCases(frame, isSingle, l);
    CleanAppend(frame, l, flags);
    CleanAppend(frame, [Group(l)], flags);
    if |l| == 1 && l[0].Group? {
      CleanAppend(frame, l[0].items, flags);
    }
  }

  lemma MarkedClean(base: seq<Aff>, p: Pending, flags: set<string>)
    requires Clean(base, flags) && (p.OpCond? ==> CondFlag(p.test).Some? && CondFlag(p.test).value in flags)
    ensures forall i | 0 <= i < |base + Mark(p)| :: CleanElement((base + Mark(p))[i], flags)
    ensures base + Mark(Nothing) == base
  {
    hide CondFlag;
    assert !IsTest("||");
  }

  lemma GroupClean(l: seq<Aff>, flags: set<string>)
    requires Clean(l, flags) && l != []
    ensures Clean([Group(l)], flags)
    ensures l[0].Group? ==> l[0].items != [] && Clean(l[0].items, flags)
  {
    hide CondFlag;
    assert CleanElement(l[0], flags);
    assert CleanElement(Group(l), flags);
  }

  lemma SpecialAppendCases(frame: seq<Aff>, isSingle: bool, l: seq<Aff>)
    ensures var r := SpecialAppend(frame, isSingle, l);
      || r == frame + l
      || r == frame + [Group(l)]
      || (|l| == 1 && l[0].Group? && r == frame + l[0].items)
  {
    hide EndsQ;
  }

  function Mark(p: Pending): seq<Aff> {
    match p
    case Nothing => []
    case OpAny => [Tok("||")]
    case OpCond(test) => [Tok(test)]
  }

  // ----- The machine refines the trees -----

  // The machine's frame is a clean rendering of the finished members, which is
  // empty unless the atom occurs in them, followed by the pending operator.
  ghost predicate Renders(frame: seq<Aff>, f: Frame, atom: string, flags: set<string>) {
    && (f.pending.Nothing? || (frame != [] && [frame[|frame| - 1]] == Mark(f.pending)))
    && Clean(Settled(frame, f.pending), flags)
    && (Settled(frame, f.pending) != [] <==> OccursIn(f.done, atom))
  }

  // The frame without its pending operator.
  function Settled(frame: seq<Aff>, p: Pending): seq<Aff> {
    if p.Nothing? || frame == [] then frame else frame[..|frame| - 1]
  }

  ghost function StackFlags(g: seq<Frame>, atom: string): set<string> {
    if g == [] then {} else StackFlags(g[..|g| - 1], atom) + FlagsIn(g[|g| - 1].done, atom)
  }

  ghost predicate StackValid(g: seq<Frame>, atom: string) {
    forall i | 0 <= i < |g| :: FlagsValidIn(g[i].done, atom)
  }

  lemma SnocMeaning(ds: seq<Dep>, d: Dep, atom: string)
    ensures FlagsIn(ds + [d], atom) == FlagsIn(ds, atom) + Flags(d, atom)
    ensures FlagsValidIn(ds + [d], atom) <==> FlagsValidIn(ds, atom) && FlagsValid(d, atom)
    ensures OccursIn(ds + [d], atom) <==> OccursIn(ds, atom) || Occurs(d, atom)
  {
    assert (ds + [d])[..|ds + [d]| - 1] == ds;
  }

  function GroupFlag(p: Pending, body: seq<Dep>, atom: string): set<string> {
    if p.OpCond? && OccursIn(body, atom) && CondFlag(p.test).Some? then {CondFlag(p.test).value} else {}
  }

  predicate GroupValid(p: Pending, body: seq<Dep>, atom: string) {
    p.OpCond? && OccursIn(body, atom) ==> CondFlag(p.test).Some?
  }

  lemma NodeMeaning(p: Pending, body: seq<Dep>, atom: string)
    ensures Flags(Node(p, body), atom) == FlagsIn(body, atom) + GroupFlag(p, body, atom)
    ensures FlagsValid(Node(p, body), atom) <==> FlagsValidIn(body, atom) && GroupValid(p, body, atom)
    ensures Occurs(Node(p, body), atom) <==> OccursIn(body, atom)
  {
  }

  lemma {:induction false} TopMeaning(g: seq<Frame>, f: Frame, atom: string)
    ensures StackFlags(g + [f], atom) == StackFlags(g, atom) + FlagsIn(f.done, atom)
    ensures StackValid(g + [f], atom) <==> StackValid(g, atom) && FlagsValidIn(f.done, atom)
  {
    assert (g + [f])[..|g|] == g;
    assert forall i | 0 <= i < |g| :: (g + [f])[i] == g[i];
    assert (g + [f])[|g|] == f;
  }

  // What one token adds to the recorded flags and to their validity.
  lemma {:induction false} ShiftMeaning(g: seq<Frame>, tok: string, atom: string)
    requires g != [] && Shift(g, tok).Some?
    ensures var h := Shift(g, tok).value;
      if tok == ")" then
        var under, body := g[|g| - 2], g[|g| - 1].done;
        && StackFlags(h, atom) == StackFlags(g, atom) + GroupFlag(under.pending, body, atom)
        && (StackValid(h, atom) <==> StackValid(g, atom) && GroupValid(under.pending, body, atom))
      else
        && StackFlags(h, atom) == StackFlags(g, atom)
        && (StackValid(h, atom) <==> StackValid(g, atom))
  {
    if tok == ")" {
      CloseMeaning(g, atom);
    } else {
      OtherMeaning(g, tok, atom);
    }
  }

  lemma OtherMeaning(g: seq<Frame>, tok: string, atom: string)
    requires g != [] && tok != ")" && Shift(g, tok).Some?
    ensures StackFlags(Shift(g, tok).value, atom) == StackFlags(g, atom)
    ensures StackValid(Shift(g, tok).value, atom) <==> StackValid(g, atom)
  {
    hide *;
    ShiftedStack(g, tok);
    var n := |g| - 1;
    var h := Shift(g, tok).value;
    var f := h[|h| - 1];
    LeafMeaning(g[n].done, tok, atom);
    TopMeaning(g[..n], g[n], atom);
    SnocLast(g);
    if tok == "(" {
      TopMeaning(g, f, atom);
    } else {
      TopMeaning(g[..n], f, atom);
    }
  }

  lemma ShiftedStack(g: seq<Frame>, tok: string)
    requires g != [] && tok != ")" && Shift(g, tok).Some?
    ensures var n, h := |g| - 1, Shift(g, tok).value;
      var f := h[|h| - 1];
      if tok == "(" then h == g + [f] && f.done == []
      else h == g[..n] + [f] && (f.done == g[n].done || f.done == g[n].done + [Leaf(tok)])
  {
  }

  lemma LeafMeaning(ds: seq<Dep>, tok: string, atom: string)
    ensures FlagsIn(ds + [Leaf(tok)], atom) == FlagsIn(ds, atom)
    ensures FlagsValidIn(ds + [Leaf(tok)], atom) <==> FlagsValidIn(ds, atom)
    ensures FlagsIn([], atom) == {} && FlagsValidIn([], atom)
  {
    SnocMeaning(ds, Leaf(tok), atom);
  }

  lemma CloseMeaning(g: seq<Frame>, atom: string)
    requires |g| > 1 && g[|g| - 1].pending.Nothing?
    ensures var h, under, body := Shift(g, ")").value, g[|g| - 2], g[|g| - 1].done;
      && StackFlags(h, atom) == StackFlags(g, atom) + GroupFlag(under.pending, body, atom)
      && (StackValid(h, atom) <==> StackValid(g, atom) && GroupValid(under.pending, body, atom))
  {
    hide *;
    ClosedStack(g);
    var n := |g| - 1;
    var under, top, low := g[n - 1], g[n], g[..n - 1];
    var d := Node(under.pending, top.done);
    NodeMeaning(under.pending, top.done, atom);
    SnocMeaning(under.done, d, atom);
    TopMeaning(low, Frame(under.done + [d], Nothing), atom);
    TopMeaning(low, under, atom);
    TopMeaning(low + [under], top, atom);
    SnocLastTwo(g);
  }

  lemma ClosedStack(g: seq<Frame>)
    requires |g| > 1 && g[|g| - 1].pending.Nothing?
    ensures var n := |g| - 1;
      Shift(g, ")") == Some(g[..n - 1] + [Frame(g[n - 1].done + [Node(g[n - 1].pending, g[n].done)], Nothing)])
  {
  }

  lemma {:induction false} InvalidStaysInvalid(g: seq<Frame>, tokens: seq<string>, atom: string)
    requires g != [] && !StackValid(g, atom) && Read(g, tokens).Some?
    ensures !StackValid(Read(g, tokens).value, atom)
    decreases |tokens|
  {
    if tokens == [] {
    } else {
      InvalidStaysInvalid(g, tokens[..|tokens| - 1], atom);
      ShiftMeaning(Read(g, tokens[..|tokens| - 1]).value, tokens[|tokens| - 1], atom);
    }
  }

  // A prefix that already contains a bad guarded conditional spoils every
  // reading of the whole.
  lemma {:induction false} PrefixInvalid(tokens: seq<string>, i: nat, atom: string)
    requires i <= |tokens| && Read(START, tokens[..i]).Some?
    requires !StackValid(Read(START, tokens[..i]).value, atom)
    ensures Meaning(tokens, atom) == None
  {
    assert tokens == tokens[..i] + tokens[i..];
    ReadConcat(START, tokens[..i], tokens[i..]);
    forall ds | Spells(ds, tokens) ensures Answer(ds, atom) == None {
      SpellingRead(ds, tokens);
      InvalidStaysInvalid(Read(START, tokens[..i]).value, tokens[i..], atom);
      assert !StackValid([Frame(ds, Nothing)], atom);
    }
  }

  // The reference meaning of a token list: the answer of the trees it spells,
  // if it spells any.
  ghost function Meaning(tokens: seq<string>, atom: string): Option<set<string>> {
    if exists ds :: Spells(ds, tokens) then
      var ds :| Spells(ds, tokens); Answer(ds, atom)
    else None
  }

  // A token list spells at most one list of trees, so the meaning is theirs.
  lemma MeaningOfSpelling(ds: seq<Dep>, tokens: seq<string>, atom: string)
    requires Spells(ds, tokens)
    ensures forall es | Spells(es, tokens) :: es == ds
    ensures Meaning(tokens, atom) == Answer(ds, atom)
  {
    forall es | Spells(es, tokens) ensures es == ds {
      SpellingRead(ds, tokens);
      SpellingRead(es, tokens);
      assert [Frame(ds, Nothing)][0] == [Frame(es, Nothing)][0];
    }
  }

  // Closes one bracket: folds the closed frame `l` into the frame below it.
  // `base` and `p` describe that frame; `enclosingEndsAny` tells whether the
  // frame below that one ends in `||`.
  method FoldGroup(frame: seq<Aff>, enclosingEndsAny: bool, l: seq<Aff>, affecting: set<string>,
                   ghost base: seq<Aff>, ghost p: Pending)
    returns (r: Option<(seq<Aff>, set<string>)>)
    requires frame == base + Mark(p) && (p.OpCond? ==> IsTest(p.test))
    requires Clean(base, affecting) && Clean(l, affecting)
    ensures l == [] ==> r == Some((base, affecting))
    ensures l != [] && p.OpCond? && CondFlag(p.test).None? ==> r == None
    ensures l != [] && (p.OpCond? ==> CondFlag(p.test).Some?) ==>
      && r.Some?
      && r.value.1 == affecting + (if p.OpCond? then {CondFlag(p.test).value} else {})
      && r.value.0 != [] && Clean(r.value.0, r.value.1)
  {
    hide *;
    FoldFacts(frame, l, affecting, base, p);
    var isSingle := |l| == 1 || (|l| == 2 && (IsBarBar(l[0]) || EndsQ(l[0])));
    var endsInOperator := EndsInOperator(frame);
    var endsInAny := frame != [] && IsBarBar(frame[|frame| - 1]);
    if l == [] {
      return Some((if endsInOperator then frame[..|frame| - 1] else frame, affecting));
    }
    var more := affecting;
    if !enclosingEndsAny && !endsInOperator {
      CleanConcat(frame, l, affecting);
      return Some((frame + l, affecting));
    } else if frame == [] {
      SpecialAppendClean(base, Nothing, isSingle, l, affecting);
      return Some((SpecialAppend(frame, isSingle, l), affecting));
    } else if |l| == 1 && endsInAny {
      var popped := frame[..|frame| - 1];
      SpecialAppendClean(popped, Nothing, isSingle, l, affecting);
      return Some((SpecialAppend(popped, isSingle, l), affecting));
    } else if |l| == 2 && (IsBarBar(l[0]) || EndsQ(l[0]))
              && (frame[|frame| - 1] == l[0] || IsBarBar(frame[|frame| - 1])) {
      var popped := frame[..|frame| - 1];
      SpecialAppendClean(popped, Nothing, isSingle, l, affecting);
      if EndsQ(l[0]) {
        var flag := CondFlag(l[0].text);
        if flag.None? { return None; }
        more := affecting + {flag.value};
        assert more == affecting;
      }
      return Some((SpecialAppend(popped, isSingle, l), more));
    } else {
      var last := frame[|frame| - 1];
      if EndsQ(last) {
        var flag := CondFlag(last.text);
        if flag.None? { return None; }
        more := affecting + {flag.value};
      }
      CleanMonotone(base, affecting, more);
      CleanMonotone(l, affecting, more);
      SpecialAppendClean(base, p, isSingle, l, more);
      return Some((SpecialAppend(frame, isSingle, l), more));
    }
  }

  // What the branches of `FoldGroup` rest on: the lower frame ends in an
  // operator exactly when one is pending, and a closed frame that starts with
  // a conditional has had its flag recorded.
  lemma FoldFacts(frame: seq<Aff>, l: seq<Aff>, affecting: set<string>, base: seq<Aff>, p: Pending)
    requires frame == base + Mark(p) && (p.OpCond? ==> IsTest(p.test))
    requires Clean(base, affecting) && Clean(l, affecting)
    ensures EndsInOperator(frame) <==> !p.Nothing?
    ensures if p.Nothing? then frame == base else frame != [] && frame[..|frame| - 1] == base
    ensures frame != [] ==> (IsBarBar(frame[|frame| - 1]) <==> p.OpAny?)
    ensures frame != [] ==> (EndsQ(frame[|frame| - 1]) <==> p.OpCond?)
    ensures p.OpCond? ==> frame[|frame| - 1] == Tok(p.test)
    ensures base + Mark(Nothing) == base
    ensures l != [] && EndsQ(l[0]) ==>
      l[0].Tok? && CondFlag(l[0].text).Some? && CondFlag(l[0].text).value in affecting
  {
    hide *;
    MarkCases(p);
    EndsInOperatorCases(frame);
    ConcatLast(base, Mark(p));
    ConcatLast(base, []);
    CleanDoesNotEndInOperator(base, affecting);
    ConcatCut(base, Mark(p));
    if l != [] && EndsQ(l[0]) {
      RecordedHead(l, affecting);
    }
  }

  lemma MarkCases(p: Pending)
    requires p.OpCond? ==> IsTest(p.test)
    ensures Mark(Nothing) == []
    ensures !p.Nothing? ==> |Mark(p)| == 1 && (IsBarBar(Mark(p)[0]) <==> p.OpAny?) && (EndsQ(Mark(p)[0]) <==> p.OpCond?)
    ensures p.OpCond? ==> Mark(p)[0] == Tok(p.test)
  {
  }

  lemma EndsInOperatorCases(frame: seq<Aff>)
    ensures EndsInOperator(frame) <==> frame != [] && (IsBarBar(frame[|frame| - 1]) || EndsQ(frame[|frame| - 1]))
  {
    hide IsBarBar, EndsQ;
  }

  lemma RecordedHead(l: seq<Aff>, flags: set<string>)
    requires Clean(l, flags) && l != [] && EndsQ(l[0])
    ensures l[0].Tok? && CondFlag(l[0].text).Some? && CondFlag(l[0].text).value in flags
  {
    hide CondFlag;
    assert CleanElement(l[0], flags);
    CleanElementEndsQ(l[0], flags);
  }

  lemma RendersBase(frame: seq<Aff>, f: Frame, atom: string, flags: set<string>) returns (base: seq<Aff>)
    requires Renders(frame, f, atom, flags)
    ensures frame == base + Mark(f.pending) && Clean(base, flags)
    ensures base != [] <==> OccursIn(f.done, atom)
  {
    base := Settled(frame, f.pending);
  }

  lemma BaseRenders(base: seq<Aff>, f: Frame, atom: string, flags: set<string>)
    requires Clean(base, flags) && (base != [] <==> OccursIn(f.done, atom))
    ensures Renders(base + Mark(f.pending), f, atom, flags)
  {
    assert Settled(base + Mark(f.pending), f.pending) == base;
  }

  lemma RendersMonotone(frame: seq<Aff>, f: Frame, atom: string, flags: set<string>, more: set<string>)
    requires Renders(frame, f, atom, flags) && flags <= more
    ensures Renders(frame, f, atom, more)
  {
    CleanMonotone(Settled(frame, f.pending), flags, more);
  }

  ghost predicate AllRender(stack: seq<seq<Aff>>, g: seq<Frame>, atom: string, flags: set<string>) {
    |stack| == |g| && forall k | 0 <= k < |g| :: Renders(stack[k], g[k], atom, flags)
  }

  lemma OpenRenders(stack: seq<seq<Aff>>, g: seq<Frame>, atom: string, flags: set<string>)
    requires AllRender(stack, g, atom, flags)
    ensures AllRender(stack + [[]], g + [Frame([], Nothing)], atom, flags)
  {
    BaseRenders([], Frame([], Nothing), atom, flags);
  }

  lemma OperatorRenders(stack: seq<seq<Aff>>, g: seq<Frame>, p: Pending, atom: string, flags: set<string>)
    requires g != [] && AllRender(stack, g, atom, flags) && g[|g| - 1].pending.Nothing?
    ensures var n := |g| - 1;
      AllRender(stack[..n] + [stack[n] + Mark(p)], g[..n] + [Frame(g[n].done, p)], atom, flags)
  {
    var n := |g| - 1;
    var base := RendersBase(stack[n], g[n], atom, flags);
    assert base == stack[n];
    BaseRenders(base, Frame(g[n].done, p), atom, flags);
    ReplaceTopRenders(stack, g, base + Mark(p), Frame(g[n].done, p), atom, flags);
  }

  // A plain token is kept only when it is the atom.
  lemma LeafRenders(stack: seq<seq<Aff>>, g: seq<Frame>, token: string, atom: string, flags: set<string>)
    requires g != [] && AllRender(stack, g, atom, flags) && g[|g| - 1].pending.Nothing?
    requires token != "||" && !IsTest(token)
    ensures var n := |g| - 1;
      AllRender(stack[..n] + [if token == atom then stack[n] + [Tok(token)] else stack[n]],
                g[..n] + [Frame(g[n].done + [Leaf(token)], Nothing)], atom, flags)
  {
    var n := |g| - 1;
    var f := Frame(g[n].done + [Leaf(token)], Nothing);
    var base := RendersBase(stack[n], g[n], atom, flags);
    assert base == stack[n];
    var frame := if token == atom then base + [Tok(token)] else base;
    SnocMeaning(g[n].done, Leaf(token), atom);
    CleanAppend(base, [Tok(token)], flags);
    BaseRenders(frame, f, atom, flags);
    assert frame + Mark(Nothing) == frame;
    ReplaceTopRenders(stack, g, frame, f, atom, flags);
  }

  lemma ReplaceTopRenders(stack: seq<seq<Aff>>, g: seq<Frame>, frame: seq<Aff>, f: Frame, atom: string,
    flags: set<string>)
    requires g != [] && AllRender(stack, g, atom, flags) && Renders(frame, f, atom, flags)
    ensures AllRender(stack[..|g| - 1] + [frame], g[..|g| - 1] + [f], atom, flags)
  {
  }

  // The folded frame renders the member that the closed group has become.
  lemma CloseRenders(stack: seq<seq<Aff>>, g: seq<Frame>, folded: seq<Aff>, atom: string,
                     flags: set<string>, more: set<string>)
    requires |g| > 1 && g[|g| - 1].pending.Nothing?
    requires AllRender(stack, g, atom, flags) && flags <= more
    requires Clean(folded, more)
    requires folded != [] <==> OccursIn(g[|g| - 2].done, atom) || OccursIn(g[|g| - 1].done, atom)
    ensures AllRender(stack[..|g| - 2] + [folded], Shift(g, ")").value, atom, more)
  {
    var n := |g| - 1;
    var h := Shift(g, ")").value;
    var s := stack[..n - 1] + [folded];
    SnocMeaning(g[n - 1].done, Node(g[n - 1].pending, g[n].done), atom);
    BaseRenders(folded, h[n - 1], atom, more);
    assert folded + Mark(h[n - 1].pending) == folded;
    forall k | 0 <= k < n ensures Renders(s[k], h[k], atom, more) {
      if k < n - 1 {
        RendersMonotone(stack[k], g[k], atom, flags, more);
      }
    }
  }

  // Where the input ends decides between an answer and a malformed string.
  lemma FinishMeaning(tokens: seq<string>, stack: seq<seq<Aff>>, affecting: set<string>, g: seq<Frame>, atom: string)
    requires Read(START, tokens) == Some(g) && Simulates(stack, affecting, g, atom)
    ensures Meaning(tokens, atom)
         == if |g| == 1 && g[0].pending.Nothing? then Some(affecting) else None
  {
    if |g| == 1 && g[0].pending.Nothing? {
      var ds := g[0].done;
      ReadSpells(tokens);
      assert FrameWellFormed(g[0]);
      assert FrameTokens(g[0]) == AllTokens(ds);
      MeaningOfSpelling(ds, tokens, atom);
      assert g[..0] == [];
      assert StackFlags(g, atom) == FlagsIn(ds, atom);
      assert FlagsValidIn(ds, atom);
      assert Answer(ds, atom) == Some(StackFlags(g, atom));
    } else {
      NoMeaning(tokens, g, atom);
    }
  }

  lemma NoMeaning(tokens: seq<string>, g: seq<Frame>, atom: string)
    requires Read(START, tokens) == Some(g)
    requires !(|g| == 1 && g[0].pending.Nothing?)
    ensures Meaning(tokens, atom) == None
  {
    forall ds | Spells(ds, tokens) ensures false {
      SpellingRead(ds, tokens);
    }
  }

  // The loop invariant: the machine's stack and flags stand for the frames read.
  ghost predicate Simulates(stack: seq<seq<Aff>>, affecting: set<string>, g: seq<Frame>, atom: string) {
    && g != []
    && AllRender(stack, g, atom, affecting)
    && StackWellFormed(g)
    && StackValid(g, atom)
    && affecting == StackFlags(g, atom)
  }

  lemma StepOpen(stack: seq<seq<Aff>>, affecting: set<string>, g: seq<Frame>, atom: string)
    requires Simulates(stack, affecting, g, atom)
    ensures Simulates(stack + [[]], affecting, Shift(g, "(").value, atom)
  {
    OpenRenders(stack, g, atom, affecting);
    ShiftWellFormed(g, "(");
    ShiftMeaning(g, "(", atom);
  }

  lemma StepOther(stack: seq<seq<Aff>>, affecting: set<string>, g: seq<Frame>, token: string, atom: string)
    requires Simulates(stack, affecting, g, atom) && g[|g| - 1].pending.Nothing?
    requires token != "(" && token != ")"
    ensures var n := |g| - 1;
      var keep := token == "||" || IsTest(token) || token == atom;
      var top := if keep then stack[n] + [Tok(token)] else stack[n];
      Simulates(stack[..n] + [top], affecting, Shift(g, token).value, atom)
  {
    hide *;
    SimulatesCases(stack, affecting, g, atom);
    ShiftCases(g, token);
    ShiftWellFormed(g, token);
    ShiftMeaning(g, token, atom);
    if token == "||" {
      OperatorRenders(stack, g, OpAny, atom, affecting);
    } else if IsTest(token) {
      OperatorRenders(stack, g, OpCond(token), atom, affecting);
    } else {
      LeafRenders(stack, g, token, atom, affecting);
    }
    var n := |g| - 1;
    var keep := token == "||" || IsTest(token) || token == atom;
    var top := if keep then stack[n] + [Tok(token)] else stack[n];
    SimulatesCases(stack[..n] + [top], affecting, Shift(g, token).value, atom);
  }

  lemma SimulatesCases(stack: seq<seq<Aff>>, affecting: set<string>, g: seq<Frame>, atom: string)
    ensures Simulates(stack, affecting, g, atom) <==>
      g != [] && AllRender(stack, g, atom, affecting) && StackWellFormed(g) && StackValid(g, atom)
      && affecting == StackFlags(g, atom)
    ensures AllRender(stack, g, atom, affecting) ==> |stack| == |g|
  {
    hide Renders, StackWellFormed, StackValid, StackFlags;
  }

  // Shifting a token that is no bracket.
  lemma ShiftCases(g: seq<Frame>, tok: string)
    requires g != [] && g[|g| - 1].pending.Nothing? && tok != "(" && tok != ")"
    ensures var low, done := g[..|g| - 1], g[|g| - 1].done;
      Shift(g, tok) == Some(
        if tok == "||" then low + [Frame(done, OpAny)]
        else if IsTest(tok) then low + [Frame(done, OpCond(tok))]
        else low + [Frame(done + [Leaf(tok)], Nothing)])
    ensures Mark(OpAny) == [Tok("||")] && Mark(OpCond(tok)) == [Tok(tok)]
  {
  }

  lemma StartSimulates(atom: string)
    ensures Simulates([[]], {}, START, atom)
  {
  }

  lemma ReadNothing(tokens: seq<string>)
    ensures Read(START, tokens[..0]) == Some(START)
  {
  }

  lemma CloseFacts(stack: seq<seq<Aff>>, affecting: set<string>, g: seq<Frame>, atom: string) returns (base: seq<Aff>)
    requires Simulates(stack, affecting, g, atom) && |g| > 1 && g[|g| - 1].pending.Nothing?
    ensures var n := |g| - 1;
      var p, body := g[n - 1].pending, g[n].done;
      && stack[n - 1] == base + Mark(p) && (p.OpCond? ==> IsTest(p.test))
      && Clean(base, affecting) && Clean(stack[n], affecting)
      && (base != [] <==> OccursIn(g[n - 1].done, atom))
      && (stack[n] != [] <==> OccursIn(body, atom))
      && (StackValid(Shift(g, ")").value, atom) <==> GroupValid(p, body, atom))
  {
    var n := |g| - 1;
    base := RendersBase(stack[n - 1], g[n - 1], atom, affecting);
    var inner := RendersBase(stack[n], g[n], atom, affecting);
    assert stack[n] == inner;
    assert FrameWellFormed(g[n - 1]);
    ShiftMeaning(g, ")", atom);
  }

  lemma CloseSimulates(stack: seq<seq<Aff>>, affecting: set<string>, g: seq<Frame>, folded: seq<Aff>, more: set<string>,
                       atom: string)
    requires Simulates(stack, affecting, g, atom) && |g| > 1 && g[|g| - 1].pending.Nothing?
    requires var p, body := g[|g| - 2].pending, g[|g| - 1].done;
      more == affecting + GroupFlag(p, body, atom) && GroupValid(p, body, atom)
    requires Clean(folded, more)
    requires folded != [] <==> OccursIn(g[|g| - 2].done, atom) || OccursIn(g[|g| - 1].done, atom)
    ensures Simulates(stack[..|g| - 2] + [folded], more, Shift(g, ")").value, atom)
  {
    hide AllRender, StackWellFormed, StackValid, StackFlags, Clean, OccursIn;
    ShiftMeaning(g, ")", atom);
    ShiftWellFormed(g, ")");
    CloseRenders(stack, g, folded, atom, affecting, more);
  }

  // Closes the top group: `None` exactly when its conditional is guarded by a
  // bad flag name.
  method CloseBracket(stack: seq<seq<Aff>>, affecting: set<string>, ghost g: seq<Frame>, atom: string)
    returns (r: Option<(seq<seq<Aff>>, set<string>)>)
    requires Simulates(stack, affecting, g, atom) && |stack| == |g| > 1 && g[|g| - 1].pending.Nothing?
    ensures r.None? ==> !StackValid(Shift(g, ")").value, atom)
    ensures r.Some? ==> Simulates(r.value.0, r.value.1, Shift(g, ")").value, atom)
    ensures r.Some? ==> |r.value.0| == |stack| - 1
  {
    ghost var base := CloseFacts(stack, affecting, g, atom);
    hide *;
    var level := |stack| - 2;
    var l := stack[level + 1];
    var frame := stack[level];
    var enclosingEndsAny := level > 0 && stack[level - 1] != [] && IsBarBar(stack[level - 1][|stack[level - 1]| - 1]);
    var folded := FoldGroup(frame, enclosingEndsAny, l, affecting, base, g[level].pending);
    if folded.None? {
      return None;
    }
    CloseSimulates(stack, affecting, g, folded.value.0, folded.value.1, atom);
    return Some((stack[..level] + [folded.value.0], folded.value.1));
  }

  // Runs the machine over the tokens of `dep`: the flags of the groups around
  // the token `atom`, and no answer where brackets and operators do not fit.
  method ExtractAffectingUse(dep: string, atom: string) returns (r: Option<set<string>>)
    ensures r == Meaning(SplitWhitespace(dep), atom)
  {
    hide Simulates;
    var tokens := SplitWhitespace(dep);
    var level := 0;
    var stack: seq<seq<Aff>> := [[]];
    var needBracket := false;
    var affecting: set<string> := {};
    ghost var g := START;
    StartSimulates(atom);
    ReadNothing(tokens);
    hide Meaning;
    hide Read;
    for i := 0 to |tokens|
      invariant level >= 0 && |g| == |stack| == level + 1 && Read(START, tokens[..i]) == Some(g)
      invariant needBracket <==> !g[level].pending.Nothing?
      invariant Simulates(stack, affecting, g, atom)
    {
      var token := tokens[i];
      ReadStep(tokens, i);
      ghost var h := Shift(g, token);
      if h.None? {
        PrefixFails(tokens, i + 1, atom);
      }
      if token == "(" {
        StepOpen(stack, affecting, g, atom);
        needBracket := false;
        stack := stack + [[]];
        level := level + 1;
      } else if token == ")" {
        if needBracket || level <= 0 { return None; }
        level := level - 1;
        var closed := CloseBracket(stack, affecting, g, atom);
        if closed.None? {
          PrefixInvalid(tokens, i + 1, atom);
          return None;
        }
        stack, affecting := closed.value.0, closed.value.1;
      } else {
        if needBracket { return None; }
        StepOther(stack, affecting, g, token, atom);
        if token == "||" {
          needBracket := true;
          stack := stack[..level] + [stack[level] + [Tok(token)]];
        } else if IsTest(token) {
          needBracket := true;
          stack := stack[..level] + [stack[level] + [Tok(token)]];
        } else if token == atom {
          stack := stack[..level] + [stack[level] + [Tok(token)]];
        } else {
          assert stack == stack[..level] + [stack[level]];
        }
      }
      g := h.value;
    }
    assert tokens[..|tokens|] == tokens;
    FinishMeaning(tokens, stack, affecting, g, atom);
    if level != 0 || needBracket {
      return None;
    }
    return Some(affecting);
  }

  lemma ReadStep(tokens: seq<string>, i: nat)
    requires i < |tokens| && Read(START, tokens[..i]).Some?
    ensures Read(START, tokens[..i + 1]) == Shift(Read(START, tokens[..i]).value, tokens[i])
  {
    assert tokens[..i + 1][..i] == tokens[..i];
  }

  // On strings: a text that consists of the tokens of some trees, whatever the
  // blanks around them, is given the answer these trees define, and a text that
  // consists of the tokens of no trees has none.
  lemma PrintedMeaning(dep: string, atom: string)
    ensures forall ds | AllWellFormed(ds) && SpacedOut(dep, AllTokens(ds)) ::
      Meaning(SplitWhitespace(dep), atom) == Answer(ds, atom)
    ensures (forall ds | AllWellFormed(ds) :: !SpacedOut(dep, AllTokens(ds))) ==>
      Meaning(SplitWhitespace(dep), atom) == None
  {
    var tokens := SplitWhitespace(dep);
    forall ds | AllWellFormed(ds) && SpacedOut(dep, AllTokens(ds))
      ensures Meaning(tokens, atom) == Answer(ds, atom)
    {
      SplitExactly(dep, AllTokens(ds));
      MeaningOfSpelling(ds, tokens, atom);
    }
    SplitExactly(dep, tokens);
    hide AllWellFormed, AllTokens, SpacedOut, SplitWhitespace, Answer;
  }
}
