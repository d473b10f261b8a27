// The complete patterns: operator, category, name, glob and suffix.  Each
// pattern's captures are computed by one left-to-right scan, and the scan is
// proved to return the leftmost-first match: the match exists whenever any
// reading of the text does, and its package name is the shortest.
module AtomPatterns {
  import opened Wrappers
  import opened Text
  import opened AtomGrammar

  // The operators of the strict pattern; the empty operator is its second alternative.
  const OPERATORS: seq<string> := ["=", ">=", ">", "<=", "<", "~"]

  // The captured parts of one match.
  datatype Caps = Caps(kind: Kind, op: string, cat: string, split: Split3, glob: bool, suffix: Suffix)

  predicate ValidCaps(c: Caps) {
    && CatOk(c.kind, c.cat) && ValidSplit(c.kind, c.split) && ValidSuffix(c.suffix) && SuffixOk(c.kind, c.suffix)
    && match c.kind
       case Versioned => c.op in OPERATORS
       case Star => c.op == "=" && !c.glob
       case _ => c.op == "" && !c.glob
  }

  // What each pattern admits after the name.
  predicate SuffixOk(kind: Kind, x: Suffix) {
    match kind
    case Versioned => true
    case Bare => true
    case Plain => x.usedeps.None? && (x.slotpart.Some? ==> x.slotpart.value.slot.Some? && x.slotpart.value.op.None?)
    case _ => x.usedeps.None?
  }

  function GlobText(glob: bool): string {
    if glob then "*" else ""
  }

  function BodyText(c: Caps): string {
    c.cat + ("/" + (SplitText(c.split) + (GlobText(c.glob) + SuffixText(c.suffix))))
  }

  // The text a match spells.
  function CapsText(c: Caps): string {
    c.op + BodyText(c)
  }

  // The characters a category or a name can consist of.
  function SpanClass(kind: Kind): CharClass {
    if IsWildKind(kind) then ExtCatTail else NameTail
  }

  function TakeGlob(kind: Kind, t: string): (r: (bool, string))
    ensures GlobText(r.0) + r.1 == t
    ensures r.0 ==> kind.Versioned?
  {
    if kind.Versioned? && Strip(t, "*").Some? then (true, Strip(t, "*").value) else (false, t)
  }

  // Everything after the operator.
  function Scan(kind: Kind, op: string, r: string): Option<Caps> {
    var (cat, r1) := Cut(SpanClass(kind), r);
    var r2 := Strip(r1, "/");
    if !CatOk(kind, cat) || r2.None? then None
    else
      var (w, r3) := Cut(SpanClass(kind), r2.value);
      var (glob, r4) := TakeGlob(kind, r3);
      var split := SplitName(kind, w);
      var suffix := ParseSuffix(r4);
      if split.None? || suffix.None? then None
      else if !SuffixOk(kind, suffix.value) then None
      else Some(Caps(kind, op, cat, split.value, glob, suffix.value))
  }

  function TakeOp(s: string): (r: (string, string))
    ensures r.0 + r.1 == s
    ensures r.0 == "" || r.0 in OPERATORS
  {
    if Strip(s, "=").Some? then ("=", Strip(s, "=").value)
    else if Strip(s, ">=").Some? then (">=", Strip(s, ">=").value)
    else if Strip(s, ">").Some? then (">", Strip(s, ">").value)
    else if Strip(s, "<=").Some? then ("<=", Strip(s, "<=").value)
    else if Strip(s, "<").Some? then ("<", Strip(s, "<").value)
    else if Strip(s, "~").Some? then ("~", Strip(s, "~").value)
    else ("", s)
  }

  function StrictCaptures(s: string): Option<Caps> {
    var (op, r) := TakeOp(s);
    Scan(if op == "" then Bare else Versioned, op, r)
  }

  function WildCaptures(s: string): Option<Caps> {
    var r := Strip(s, "=");
    if r.Some? then Scan(Star, "=", r.value) else Scan(Simple, "", s)
  }

  // ----- The scan finds a reading -----

  lemma ScanCases(kind: Kind, op: string, r: string)
    requires Scan(kind, op, r).Some?
    ensures var (cat, r1) := Cut(SpanClass(kind), r);
      var r2 := Strip(r1, "/");
      && r2.Some? && CatOk(kind, cat)
      && var (w, r3) := Cut(SpanClass(kind), r2.value);
      var (glob, r4) := TakeGlob(kind, r3);
      && SplitName(kind, w).Some? && ParseSuffix(r4).Some?
      && SuffixOk(kind, ParseSuffix(r4).value)
      && Scan(kind, op, r).value == Caps(kind, op, cat, SplitName(kind, w).value, glob, ParseSuffix(r4).value)
  {
    hide CatOk, Cut, Strip, SplitName, ParseSuffix, TakeGlob, SuffixOk;
  }

  lemma ScanSound(kind: Kind, op: string, r: string)
    requires Scan(kind, op, r).Some?
    requires if kind.Versioned? then op in OPERATORS else op == (if kind.Star? then "=" else "")
    ensures ValidCaps(Scan(kind, op, r).value)
    ensures BodyText(Scan(kind, op, r).value) == r
  {
    hide CatOk, Cut, Strip, SplitName, ParseSuffix, TakeGlob, Scan, ValidSplit, SplitText, ValidSuffix, SuffixText,
      GlobText, SuffixOk;
    ScanCases(kind, op, r);
    var (cat, r1) := Cut(SpanClass(kind), r);
    var r2 := Strip(r1, "/");
    var (w, r3) := Cut(SpanClass(kind), r2.value);
    var (glob, r4) := TakeGlob(kind, r3);
    SplitNameSound(kind, w);
    SuffixRoundTrip(r4, ParseSuffix(r4).value);
  }

  // ----- Any reading is found, or beaten by a shorter package name -----

  lemma Widen(s: string, a: CharClass, b: CharClass)
    requires AllIn(a, s)
    requires match a
      case PkgTail => b.NameTail?
      case ExtPkgTail => b.ExtCatTail?
      case VerChar => b.NameTail? || b.ExtCatTail?
      case Digit => b.NameTail? || b.ExtCatTail?
      case Word => b.ExtCatTail?
      case _ => false
    ensures AllIn(b, s)
  {
  }

  lemma VrChars(v: Vr, cl: CharClass)
    requires ValidVr(v) && (cl.NameTail? || cl.ExtCatTail?)
    ensures AllIn(cl, VrText(Some(v)))
  {
    VersionChars(v.ver);
    RevChars(v.rev, cl);
    DashIn(cl);
    hide *;
    VrTextParts(v);
    Widen(v.ver, VerChar, cl);
    AllInConcat(cl, v.ver, RevText(v.rev));
    AllInConcat(cl, "-", v.ver + RevText(v.rev));
  }

  lemma VrTextParts(v: Vr)
    ensures VrText(Some(v)) == "-" + (v.ver + RevText(v.rev))
  {
  }

  lemma DashIn(cl: CharClass)
    requires cl.NameTail? || cl.ExtCatTail?
    ensures AllIn(cl, "-")
  {
  }

  lemma RevChars(rev: Option<string>, cl: CharClass)
    requires rev.Some? ==> IsDigits(rev.value)
    requires cl.NameTail? || cl.ExtCatTail?
    ensures AllIn(cl, RevText(rev))
  {
    if rev.Some? {
      Widen(rev.value, Digit, cl);
      AllInConcat(cl, "-r", rev.value);
    }
  }

  lemma StarChars(v: Vr)
    requires IsStarVersion(v.ver) && v.rev.None?
    ensures AllIn(ExtCatTail, VrText(Some(v)))
  {
    var inner := v.ver[1..|v.ver| - 1];
    Widen(inner, Word, ExtCatTail);
    assert v.ver == "*" + inner + "*";
    AllInConcat(ExtCatTail, "*", inner);
    AllInConcat(ExtCatTail, "*" + inner, "*");
    AllInConcat(ExtCatTail, "-", v.ver);
    assert VrText(Some(v)) == "-" + v.ver by {
      assert v.ver + "" == v.ver;
    }
  }

  lemma SplitChars(kind: Kind, x: Split3)
    requires ValidSplit(kind, x)
    ensures AllIn(SpanClass(kind), SplitText(x))
  {
    hide ValidVr, IsStarVersion;
    var cl := SpanClass(kind);
    Widen(x.pkg, if cl.NameTail? then PkgTail else ExtPkgTail, cl);
    if x.tail.Some? {
      VrChars(x.tail.value, cl);
    }
    if kind.Star? {
      StarChars(x.vr.value);
    } else if x.vr.Some? {
      VrChars(x.vr.value, cl);
    }
    AllInConcat(cl, VrText(x.tail), VrText(x.vr));
    AllInConcat(cl, x.pkg, VrText(x.tail) + VrText(x.vr));
  }

  lemma SuffixHead(x: Suffix)
    requires ValidSuffix(x)
    ensures EndsSlot(SuffixText(x))
  {
    TailOf(x);
    if x.slotpart.None? {
      assert "" + TailText(x) == TailText(x);
    }
  }

  lemma GlobOf(c: Caps)
    requires ValidCaps(c)
    ensures var rest := GlobText(c.glob) + SuffixText(c.suffix);
      && TakeGlob(c.kind, rest) == (c.glob, SuffixText(c.suffix))
      && (rest == "" || !Has(SpanClass(c.kind), rest[0]))
  {
    SuffixHead(c.suffix);
    GlobKind(c);
    hide *;
    GlobTaken(c.kind, c.glob, SuffixText(c.suffix));
  }

  lemma GlobKind(c: Caps)
    requires ValidCaps(c)
    ensures c.glob ==> c.kind.Versioned?
  {
  }

  lemma GlobTaken(kind: Kind, glob: bool, t: string)
    requires EndsSlot(t) && (glob ==> kind.Versioned?)
    ensures TakeGlob(kind, GlobText(glob) + t) == (glob, t)
    ensures var rest := GlobText(glob) + t; rest == "" || !Has(SpanClass(kind), rest[0])
  {
    var rest := GlobText(glob) + t;
    if glob {
      StripOf("*", t);
      assert rest[0] == '*';
    } else {
      assert rest == t;
    }
  }

  lemma CatHead(kind: Kind, cat: string, rest: string)
    requires CatOk(kind, cat)
    ensures Cut(SpanClass(kind), cat + ("/" + rest)) == (cat, "/" + rest)
    ensures Strip("/" + rest, "/") == Some(rest)
  {
    CutOf(SpanClass(kind), cat, "/" + rest);
    StripOf("/", rest);
  }

  // What the scan does on the text of a valid match.
  lemma ScanOf(c: Caps)
    requires ValidCaps(c)
    ensures var split := SplitName(c.kind, SplitText(c.split));
      Scan(c.kind, c.op, BodyText(c)) ==
      if split.None? then None else Some(c.(split := split.value))
  {
    hide *;
    CapsParts(c);
    var w := SplitText(c.split);
    var rest := GlobText(c.glob) + SuffixText(c.suffix);
    CatHead(c.kind, c.cat, w + rest);
    SplitChars(c.kind, c.split);
    GlobOf(c);
    CutOf(SpanClass(c.kind), w, rest);
    SuffixRoundTrip(SuffixText(c.suffix), c.suffix);
    ScanSteps(c, w, rest);
  }

  lemma CapsParts(c: Caps)
    requires ValidCaps(c)
    ensures CatOk(c.kind, c.cat) && ValidSplit(c.kind, c.split) && ValidSuffix(c.suffix)
    ensures SuffixOk(c.kind, c.suffix)
    ensures BodyText(c) == c.cat + ("/" + (SplitText(c.split) + (GlobText(c.glob) + SuffixText(c.suffix))))
  {
  }

  // The scan, given what each of its steps returns.
  lemma ScanSteps(c: Caps, w: string, rest: string)
    requires Cut(SpanClass(c.kind), BodyText(c)) == (c.cat, "/" + (w + rest))
    requires Strip("/" + (w + rest), "/") == Some(w + rest)
    requires CatOk(c.kind, c.cat)
    requires Cut(SpanClass(c.kind), w + rest) == (w, rest)
    requires TakeGlob(c.kind, rest).0 == c.glob && ParseSuffix(TakeGlob(c.kind, rest).1) == Some(c.suffix)
    requires SuffixOk(c.kind, c.suffix)
    ensures var split := SplitName(c.kind, w);
      Scan(c.kind, c.op, BodyText(c)) ==
      if split.None? then None else Some(c.(split := split.value))
  {
    hide CatOk, Cut, Strip, SplitName, ParseSuffix, TakeGlob, BodyText, SpanClass, SuffixOk;
  }

  lemma ScanFirst(c: Caps)
    requires ValidCaps(c)
    ensures var r := Scan(c.kind, c.op, BodyText(c));
      r.Some? && (r.value == c || |r.value.split.pkg| < |c.split.pkg|)
  {
    hide *;
    CapsParts(c);
    ScanOf(c);
    IntroReads(c.kind, SplitText(c.split), c.split);
    SplitNameLazy(c.kind, SplitText(c.split), c.split);
  }

  // ----- Operators -----

  lemma CatFirstChar(kind: Kind, cat: string, rest: string)
    requires CatOk(kind, cat)
    ensures var b := cat + rest; b != "" && Has(ExtHead, b[0])
  {
  }

  // A match never starts with a blocker's `!`.
  lemma CapsStart(c: Caps)
    requires ValidCaps(c)
    ensures CapsText(c) != "" && CapsText(c)[0] != '!'
  {
    hide *;
    BodyStart(c);
    OpStart(c);
    ConcatFirst(c.op, BodyText(c));
  }

  lemma BodyStart(c: Caps)
    requires ValidCaps(c)
    ensures BodyText(c) != "" && BodyText(c)[0] != '!'
  {
    hide SplitText, GlobText, SuffixText, ValidSplit, ValidSuffix, SuffixOk;
    CatFirstChar(c.kind, c.cat, "/" + (SplitText(c.split) + (GlobText(c.glob) + SuffixText(c.suffix))));
  }

  lemma OpStart(c: Caps)
    requires ValidCaps(c)
    ensures c.op != "" ==> c.op[0] != '!'
    ensures CapsText(c) == c.op + BodyText(c)
  {
    hide BodyText, CatOk, ValidSplit, ValidSuffix, SuffixOk;
  }

  lemma TakeOpOf(op: string, body: string)
    requires op == "" || op in OPERATORS
    requires body != "" && Has(ExtHead, body[0])
    ensures TakeOp(op + body) == (op, body)
  {
    var s := op + body;
    StripOf(op, body);
    if op == "" {
      assert s == body;
    } else if |op| == 1 {
      assert s[0] == op[0] && s[1] == body[0];
    } else {
      assert s[0] == op[0] && s[1] == op[1];
    }
  }

  // ----- The block at the end of a match -----

  lemma BlockLast(c: Caps)
    requires c.suffix.usedeps.Some?
    ensures CapsText(c) == CapsText(c.(suffix := c.suffix.(usedeps := None))) + c.suffix.usedeps.value
    ensures var s, u := CapsText(c), c.suffix.usedeps.value; |u| <= |s| && s[|s| - |u|..] == u
  {
    hide *;
    var d := c.(suffix := c.suffix.(usedeps := None));
    var u := c.suffix.usedeps.value;
    SuffixLast(c.suffix);
    CapsTextCases(c);
    CapsTextCases(d);
    var t := SuffixText(d.suffix);
    var w, g := SplitText(c.split), GlobText(c.glob);
    Assoc(g, t, u);
    Assoc(w, g + t, u);
    Assoc("/", w + (g + t), u);
    Assoc(c.cat, "/" + (w + (g + t)), u);
    Assoc(c.op, c.cat + ("/" + (w + (g + t))), u);
    ConcatCut(CapsText(d), u);
  }

  lemma CapsTextCases(c: Caps)
    ensures CapsText(c) ==
      c.op + (c.cat + ("/" + (SplitText(c.split) + (GlobText(c.glob) + SuffixText(c.suffix)))))
  {
    hide SuffixText, SplitText, GlobText;
  }

  lemma SuffixLast(x: Suffix)
    requires x.usedeps.Some?
    ensures SuffixText(x) == SuffixText(x.(usedeps := None)) + x.usedeps.value
  {
    hide SlotPartText;
    var r := OptText("::", x.repo);
    assert "" + x.usedeps.value == x.usedeps.value;
    assert r + "" == r;
  }

  // ----- The strict pattern -----

  predicate IsStrict(c: Caps) {
    ValidCaps(c) && (c.kind.Versioned? || c.kind.Bare?)
  }

  predicate IsWild(c: Caps) {
    ValidCaps(c) && (c.kind.Simple? || c.kind.Star?)
  }

  lemma StrictSound(s: string)
    requires StrictCaptures(s).Some?
    ensures IsStrict(StrictCaptures(s).value) && CapsText(StrictCaptures(s).value) == s
  {
    hide TakeOp, ValidCaps, BodyText;
    var (op, r) := TakeOp(s);
    var kind := if op == "" then Bare else Versioned;
    ScanSound(kind, op, r);
    assert Scan(kind, op, r).value.op == op && Scan(kind, op, r).value.kind == kind;
  }

  // Leftmost-first for the strict pattern: the captures exist for every text
  // that has a reading, and no other reading has as short a package name.
  lemma StrictFirst(c: Caps)
    requires IsStrict(c)
    ensures var r := StrictCaptures(CapsText(c));
      r.Some? && (r.value == c || |r.value.split.pkg| < |c.split.pkg|)
  {
    hide *;
    StrictHead(c);
    TakeOpOf(c.op, BodyText(c));
    ScanFirst(c);
    StrictScan(c);
  }

  lemma StrictHead(c: Caps)
    requires IsStrict(c)
    ensures ValidCaps(c) && c.kind == (if c.op == "" then Bare else Versioned)
    ensures c.op == "" || c.op in OPERATORS
    ensures BodyText(c) != "" && Has(ExtHead, BodyText(c)[0])
  {
    CatFirstChar(c.kind, c.cat, "/" + (SplitText(c.split) + (GlobText(c.glob) + SuffixText(c.suffix))));
  }

  lemma StrictScan(c: Caps)
    requires c.kind == (if c.op == "" then Bare else Versioned)
    requires TakeOp(c.op + BodyText(c)) == (c.op, BodyText(c))
    ensures StrictCaptures(CapsText(c)) == Scan(c.kind, c.op, BodyText(c))
  {
    hide TakeOp, Scan, BodyText;
  }

  // ----- The wildcard pattern -----

  lemma WildSound(s: string)
    requires WildCaptures(s).Some?
    ensures IsWild(WildCaptures(s).value) && CapsText(WildCaptures(s).value) == s
  {
    hide *;
    WildCases(s);
    var r := Strip(s, "=");
    if r.Some? {
      ScanSound(Star, "=", r.value);
      ScannedKind(Star, "=", r.value);
    } else {
      ScanSound(Simple, "", s);
      ScannedKind(Simple, "", s);
    }
    var c := WildCaptures(s).value;
    IntroWild(c);
    OpThenBody(c);
  }

  lemma WildCases(s: string)
    ensures var r := Strip(s, "=");
      WildCaptures(s) == if r.Some? then Scan(Star, "=", r.value) else Scan(Simple, "", s)
  {
    hide Strip, Scan;
  }

  lemma ScannedKind(kind: Kind, op: string, r: string)
    requires Scan(kind, op, r).Some?
    ensures Scan(kind, op, r).value.kind == kind && Scan(kind, op, r).value.op == op
  {
    hide *;
    ScanCases(kind, op, r);
  }

  lemma IntroWild(c: Caps)
    requires ValidCaps(c) && (c.kind.Simple? || c.kind.Star?)
    ensures IsWild(c)
  {
    hide ValidCaps;
  }

  lemma OpThenBody(c: Caps)
    ensures CapsText(c) == c.op + BodyText(c)
    ensures c.op == "" ==> CapsText(c) == BodyText(c)
  {
    hide BodyText;
  }

  lemma WildFirst(c: Caps)
    requires IsWild(c)
    ensures var r := WildCaptures(CapsText(c));
      r.Some? && (r.value == c || |r.value.split.pkg| < |c.split.pkg|)
  {
    hide *;
    var b := BodyText(c);
    WildHead(c);
    ScanFirst(c);
    WildScan(c);
  }

  lemma WildHead(c: Caps)
    requires IsWild(c)
    ensures ValidCaps(c) && c.kind in {Simple, Star} && c.op == (if c.kind.Star? then "=" else "")
    ensures BodyText(c) != "" && Has(ExtHead, BodyText(c)[0])
  {
    CatFirstChar(c.kind, c.cat, "/" + (SplitText(c.split) + (GlobText(c.glob) + SuffixText(c.suffix))));
  }

  lemma WildScan(c: Caps)
    requires c.kind in {Simple, Star} && c.op == (if c.kind.Star? then "=" else "")
    requires BodyText(c) != "" && Has(ExtHead, BodyText(c)[0])
    ensures WildCaptures(CapsText(c)) == Scan(c.kind, c.op, BodyText(c))
  {
    hide Scan, BodyText;
    var b := BodyText(c);
    if c.kind.Star? {
      StripOf("=", b);
    } else {
      assert CapsText(c) == b;
    }
  }

  // The scanner applied to the text of a match, in both patterns.
  lemma StrictOf(c: Caps)
    requires IsStrict(c)
    ensures var split := SplitName(c.kind, SplitText(c.split));
      StrictCaptures(CapsText(c)) == if split.None? then None else Some(c.(split := split.value))
  {
    hide *;
    StrictHead(c);
    TakeOpOf(c.op, BodyText(c));
    ScanOf(c);
    StrictScan(c);
  }

  lemma WildOf(c: Caps)
    requires IsWild(c)
    ensures var split := SplitName(c.kind, SplitText(c.split));
      WildCaptures(CapsText(c)) == if split.None? then None else Some(c.(split := split.value))
  {
    hide *;
    WildHead(c);
    ScanOf(c);
    WildScan(c);
  }

  // ----- No text with a wildcard name is read by the strict pattern -----

  // Texts that agree agree up to the first character of a kind neither start contains.
  lemma SameStart(p: string, x: string, q: string, y: string)
    requires p + x == q + y
    requires EndsSlot(x) && EndsSlot(y)
    requires ':' !in p && '[' !in p && ':' !in q && '[' !in q
    ensures p == q && x == y
  {
    var s, t := p + x, q + y;
    Halves(p, x);
    Halves(q, y);
    assert s[..|p|] == p && t[..|q|] == q && s[|p|..] == x && t[|q|..] == y;
  }

  lemma Halves(a: string, b: string)
    ensures forall i | 0 <= i < |a| :: (a + b)[i] == a[i]
    ensures b != "" ==> (a + b)[|a|] == b[0]
  {
  }

  lemma SameSlash(p: string, x: string, q: string, y: string)
    requires p + ("/" + x) == q + ("/" + y)
    requires '/' !in p && '/' !in q
    ensures p == q && x == y
  {
    var s, t := p + ("/" + x), q + ("/" + y);
    Halves(p, "/" + x);
    Halves(q, "/" + y);
    assert s[..|p|] == p && t[..|q|] == q;
    assert s[|p| + 1..] == x && t[|q| + 1..] == y;
  }

  lemma NoBreaks(cl: CharClass, s: string)
    requires AllIn(cl, s) && (cl.NameTail? || cl.ExtCatTail? || cl.ExtPkgTail?)
    ensures ':' !in s && '[' !in s && '/' !in s
    ensures cl.NameTail? ==> '*' !in s
  {
  }

  lemma CatNoSlash(kind: Kind, cat: string)
    requires CatOk(kind, cat)
    ensures '/' !in cat
  {
    NoBreaks(SpanClass(kind), cat);
  }

  // The two texts being equal, so are their categories and what follows.
  lemma SameCategory(c: Caps, d: Caps)
    requires ValidCaps(c) && ValidCaps(d) && BodyText(c) == BodyText(d)
    ensures c.cat == d.cat
    ensures SplitText(c.split) + (GlobText(c.glob) + SuffixText(c.suffix))
         == SplitText(d.split) + (GlobText(d.glob) + SuffixText(d.suffix))
  {
    CatNoSlash(c.kind, c.cat);
    CatNoSlash(d.kind, d.cat);
    CapsParts(c);
    CapsParts(d);
    hide *;
    SameSlash(c.cat, SplitText(c.split) + (GlobText(c.glob) + SuffixText(c.suffix)),
              d.cat, SplitText(d.split) + (GlobText(d.glob) + SuffixText(d.suffix)));
  }

  lemma SplitNoBreaks(kind: Kind, x: Split3)
    requires ValidSplit(kind, x)
    ensures ':' !in SplitText(x) && '[' !in SplitText(x)
    ensures !IsWildKind(kind) ==> '*' !in SplitText(x)
  {
    SplitChars(kind, x);
    NoBreaks(SpanClass(kind), SplitText(x));
  }

  // A strict and a wildcard reading of one plain text: the name is the same,
  // and it then has no wildcard character.
  lemma StrictMeetsSimple(c: Caps, d: Caps)
    requires ValidCaps(c) && c.kind.Simple? && '.' !in SplitText(c.split)
    requires ValidCaps(d) && d.kind.Bare? && BodyText(c) == BodyText(d)
    ensures IsCat(c.cat) && IsPkg(SplitText(c.split))
  {
    hide ValidSuffix, SuffixText, BodyText, VrText, EndsSlot;
    SameCategory(c, d);
    SplitNoBreaks(c.kind, c.split);
    SplitNoBreaks(d.kind, d.split);
    SuffixHead(c.suffix);
    SuffixHead(d.suffix);
    NoGlob(SuffixText(c.suffix));
    NoGlob(SuffixText(d.suffix));
    SameStart(SplitText(c.split), SuffixText(c.suffix), SplitText(d.split), SuffixText(d.suffix));
    SplitChars(d.kind, d.split);
    PkgOfName(SplitText(c.split));
  }

  lemma NoGlob(t: string)
    ensures GlobText(false) + t == t
  {
  }

  lemma PkgOfName(w: string)
    requires AllIn(NameTail, w) && '.' !in w && w != "" && Has(Word, w[0])
    ensures IsPkg(w)
  {
  }

  lemma StarText(x: Split3)
    requires ValidSplit(Star, x)
    ensures var w := SplitText(x);
      && |w| >= 4 && w[|w| - 1] == '*'
      && exists k | 0 <= k < |w| - 2 :: w[k] == '*'
  {
    var ver := x.vr.value.ver;
    var w := SplitText(x);
    assert w == x.pkg + ("-" + ver) by {
      assert ver + "" == ver && "" + ("-" + ver) == "-" + ver;
    }
    assert w[|x.pkg| + 1] == ver[0];
  }

  // No strict reading has the text of a starred one.
  lemma StrictNeverStar(c: Caps, d: Caps)
    requires ValidCaps(c) && c.kind.Star?
    requires ValidCaps(d) && d.kind.Versioned?
    ensures BodyText(c) != BodyText(d)
  {
    hide *;
    StarFacts(c);
    VersionedFacts(d);
    NoGlob(SuffixText(c.suffix));
    if BodyText(c) == BodyText(d) {
      SameCategory(c, d);
      StarClash(SplitText(d.split), d.glob, SuffixText(d.suffix), SplitText(c.split), SuffixText(c.suffix));
    }
  }

  lemma StarFacts(c: Caps)
    requires ValidCaps(c) && c.kind.Star?
    ensures !c.glob
    ensures var w := SplitText(c.split);
      && ':' !in w && '[' !in w
      && |w| >= 4 && w[|w| - 1] == '*'
      && exists k | 0 <= k < |w| - 2 :: w[k] == '*'
  {
    hide SplitText, ValidSplit, CatOk, ValidSuffix, SuffixOk;
    SplitNoBreaks(c.kind, c.split);
    StarText(c.split);
  }

  lemma VersionedFacts(d: Caps)
    requires ValidCaps(d) && d.kind.Versioned?
    ensures '*' !in SplitText(d.split) && EndsSlot(SuffixText(d.suffix))
  {
    hide SplitText, ValidSplit, CatOk, ValidSuffix, SuffixOk, EndsSlot, SuffixText;
    SplitNoBreaks(d.kind, d.split);
    SuffixHead(d.suffix);
  }

  lemma StarClash(p: string, glob: bool, x: string, q: string, y: string)
    requires '*' !in p && ':' !in q && '[' !in q
    requires EndsSlot(x)
    requires |q| >= 4 && q[|q| - 1] == '*' && exists k | 0 <= k < |q| - 2 :: q[k] == '*'
    ensures p + (GlobText(glob) + x) != q + y
  {
    var k :| 0 <= k < |q| - 2 && q[k] == '*';
    Halves(p, GlobText(glob) + x);
    Halves(p + GlobText(glob), x);
    assert p + (GlobText(glob) + x) == p + GlobText(glob) + x;
    Halves(q, y);
  }

  // Which alternative matched is told by the operator in front.
  lemma StrictKind(s: string)
    requires StrictCaptures(s).Some?
    ensures var c := StrictCaptures(s).value;
      c.op == TakeOp(s).0 && c.kind == (if c.op == "" then Bare else Versioned)
  {
    hide TakeOp, SplitName, ParseSuffix, Cut, Strip, CatOk, TakeGlob, SuffixOk;
  }

  // What the strict pattern captures, it captures again from its own text.
  lemma StrictCanonical(s: string)
    requires StrictCaptures(s).Some?
    ensures var c := StrictCaptures(s).value;
      SplitName(c.kind, SplitText(c.split)) == Some(c.split)
  {
    hide *;
    StrictSound(s);
    StrictOf(StrictCaptures(s).value);
  }

  lemma WildCanonical(s: string)
    requires WildCaptures(s).Some?
    ensures var c := WildCaptures(s).value;
      SplitName(c.kind, SplitText(c.split)) == Some(c.split)
  {
    hide *;
    WildSound(s);
    WildOf(WildCaptures(s).value);
  }
}
