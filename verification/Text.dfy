// Character classes and the string primitives (span, split, join, whitespace
// splitting) shared by the parsers of the model.  A `char` is a Unicode scalar
// value, as in Rust; every named class below lists ASCII characters only,
// except `White`, which is the Unicode `White_Space` property, and the negated ones.
module Text {
  import opened Wrappers

  // The bracketed classes that occur in the patterns.
  datatype CharClass =
    | Digit        // [0-9]
    | Letter       // [a-z]
    | Word         // [A-Za-z0-9_]
    | NameTail     // [A-Za-z0-9+_.-]
    | PkgTail      // [A-Za-z0-9+_-]
    | RepoTail     // [A-Za-z0-9_-]
    | Alnum        // [A-Za-z0-9]
    | FlagTail     // [A-Za-z0-9+_@-]
    | ExtHead      // [A-Za-z0-9_+*]
    | ExtCatTail   // [A-Za-z0-9_+.*-]
    | ExtPkgTail   // [A-Za-z0-9_+*-]
    | VerChar      // [0-9a-z._]
    | White        // \s of `split_whitespace`
    | NonWhite
    | Space        // \s of a bytes pattern
    | NonSpace     // \S of a bytes pattern
    | VarChar      // [^=\s] of a bytes pattern

  predicate IsDigit(c: char) { '0' <= c <= '9' }

  predicate IsLower(c: char) { 'a' <= c <= 'z' }

  predicate IsAlnum(c: char) { IsDigit(c) || IsLower(c) || 'A' <= c <= 'Z' }

  predicate IsWhite(c: char) {
    || '\t' <= c <= '\r'
    || c == ' '
    || c == '\U{85}'
    || c == '\U{A0}'
    || c == '\U{1680}'
    || '\U{2000}' <= c <= '\U{200A}'
    || c == '\U{2028}'
    || c == '\U{2029}'
    || c == '\U{202F}'
    || c == '\U{205F}'
    || c == '\U{3000}'
  }

  predicate IsSpace(c: char) {
    c == ' ' || '\t' <= c <= '\r'
  }

  predicate Has(cl: CharClass, c: char) {
    match cl
    case Digit => IsDigit(c)
    case Letter => IsLower(c)
    case Word => IsAlnum(c) || c == '_'
    case NameTail => IsAlnum(c) || c in {'_', '+', '.', '-'}
    case PkgTail => IsAlnum(c) || c in {'_', '+', '-'}
    case RepoTail => IsAlnum(c) || c in {'_', '-'}
    case Alnum => IsAlnum(c)
    case FlagTail => IsAlnum(c) || c in {'_', '+', '@', '-'}
    case ExtHead => IsAlnum(c) || c in {'_', '+', '*'}
    case ExtCatTail => IsAlnum(c) || c in {'_', '+', '.', '*', '-'}
    case ExtPkgTail => IsAlnum(c) || c in {'_', '+', '*', '-'}
    case VerChar => IsDigit(c) || IsLower(c) || c == '.' || c == '_'
    case White => IsWhite(c)
    case NonWhite => !IsWhite(c)
    case Space => IsSpace(c)
    case NonSpace => !IsSpace(c)
    case VarChar => c != '=' && !IsSpace(c)
  }

  // The characters of the classes, one by one.

  const LETTERS := {'a', 'b', 'c', 'd', 'e', 'f', 'g', 'h', 'i', 'j', 'k', 'l', 'm',
    'n', 'o', 'p', 'q', 'r', 's', 't', 'u', 'v', 'w', 'x', 'y', 'z'}

  const CAPITALS := {'A', 'B', 'C', 'D', 'E', 'F', 'G', 'H', 'I', 'J', 'K', 'L', 'M',
    'N', 'O', 'P', 'Q', 'R', 'S', 'T', 'U', 'V', 'W', 'X', 'Y', 'Z'}

  const DIGITS := {'0', '1', '2', '3', '4', '5', '6', '7', '8', '9'}

  lemma LettersMembers(c: char)
    ensures IsLower(c) <==> c in LETTERS
    ensures IsDigit(c) <==> c in DIGITS
    ensures IsAlnum(c) <==> c in LETTERS || c in CAPITALS || c in DIGITS
  {
    LettersFrom((c as int) - ('a' as int), c);
    CapitalsFrom((c as int) - ('A' as int), c);
    DigitsFrom((c as int) - ('0' as int), c);
    hide LETTERS, CAPITALS, DIGITS;
  }

  lemma LettersFrom(n: int, c: char)
    requires n == (c as int) - ('a' as int)
    ensures 0 <= n < 26 <==> c in LETTERS
  {
  }

  lemma CapitalsFrom(n: int, c: char)
    requires n == (c as int) - ('A' as int)
    ensures 0 <= n < 26 <==> c in CAPITALS
  {
  }

  lemma DigitsFrom(n: int, c: char)
    requires n == (c as int) - ('0' as int)
    ensures 0 <= n < 10 <==> c in DIGITS
  {
  }

  // Each pattern class is the letters and digits it names and the signs after them.
  lemma ClassMembers(c: char)
    ensures var alnum := c in LETTERS || c in CAPITALS || c in DIGITS;
      && (Has(Digit, c) <==> c in DIGITS)
      && (Has(Letter, c) <==> c in LETTERS)
      && (Has(Alnum, c) <==> alnum)
      && (Has(Word, c) <==> alnum || c in "_")
      && (Has(NameTail, c) <==> alnum || c in "_+.-")
      && (Has(PkgTail, c) <==> alnum || c in "_+-")
      && (Has(RepoTail, c) <==> alnum || c in "_-")
      && (Has(FlagTail, c) <==> alnum || c in "_+@-")
      && (Has(ExtHead, c) <==> alnum || c in "_+*")
      && (Has(ExtCatTail, c) <==> alnum || c in "_+.*-")
      && (Has(ExtPkgTail, c) <==> alnum || c in "_+*-")
      && (Has(VerChar, c) <==> c in LETTERS || c in DIGITS || c in "._")
  {
    LettersMembers(c);
    hide IsDigit, IsLower, IsAlnum, LETTERS, CAPITALS, DIGITS;
  }

  // The blanks: of a bytes pattern, and of Unicode text.
  lemma BlankMembers(c: char)
    ensures IsSpace(c) <==> c in " \t\n\r\U{B}\U{C}"
    ensures (Has(Space, c) <==> IsSpace(c)) && (Has(NonSpace, c) <==> !IsSpace(c))
    ensures Has(VarChar, c) <==> c !in "= \t\n\r\U{B}\U{C}"
    ensures (Has(White, c) <==> IsWhite(c)) && (Has(NonWhite, c) <==> !IsWhite(c))
    ensures IsWhite(c) <==>
      || c in " \t\n\r\U{B}\U{C}\U{85}\U{A0}\U{1680}\U{2028}\U{2029}\U{202F}\U{205F}\U{3000}"
      || c in "\U{2000}\U{2001}\U{2002}\U{2003}\U{2004}\U{2005}\U{2006}\U{2007}\U{2008}\U{2009}\U{200A}"
  {
  }

  predicate AllIn(cl: CharClass, s: string) {
    forall i | 0 <= i < |s| :: Has(cl, s[i])
  }

  lemma AllInConcat(cl: CharClass, a: string, b: string)
    ensures AllIn(cl, a + b) <==> AllIn(cl, a) && AllIn(cl, b)
  {
    var s := a + b;
    assert forall i | 0 <= i < |a| :: s[i] == a[i];
    assert forall i | 0 <= i < |b| :: s[|a| + i] == b[i];
  }

  // The language of `[head][tail]*`, for a `head` class contained in `tail`.
  predicate IsName(head: CharClass, tail: CharClass, s: string) {
    s != "" && Has(head, s[0]) && AllIn(tail, s)
  }

  // The USE flag names: `[A-Za-z0-9][A-Za-z0-9+_@-]*`.
  predicate IsFlag(s: string) {
    IsName(Alnum, FlagTail, s)
  }

  // Length of the longest prefix of `s` whose characters are all in `cl`.
  function Span(cl: CharClass, s: string): (n: nat)
    ensures n <= |s|
    ensures forall i | 0 <= i < n :: Has(cl, s[i])
    ensures n < |s| ==> !Has(cl, s[n])
  {
    if s == "" || !Has(cl, s[0]) then 0
    else
      assert forall i | 1 <= i < |s| :: s[i] == s[1..][i - 1];
      1 + Span(cl, s[1..])
  }

  // A run of class characters followed by something outside the class is
  // exactly what `Span` finds.
  lemma SpanOf(cl: CharClass, a: string, b: string)
    requires AllIn(cl, a)
    requires b == "" || !Has(cl, b[0])
    ensures Span(cl, a + b) == |a|
  {
    var s := a + b;
    assert forall i | 0 <= i < |a| :: s[i] == a[i] && Has(cl, s[i]);
    assert b != "" ==> s[|a|] == b[0];
  }

  // The longest prefix in `cl`, and the rest.
  function Cut(cl: CharClass, s: string): (r: (string, string))
    ensures r.0 + r.1 == s
    ensures AllIn(cl, r.0)
    ensures r.1 == "" || !Has(cl, r.1[0])
  {
    var n := Span(cl, s);
    (s[..n], s[n..])
  }

  lemma CutOf(cl: CharClass, a: string, b: string)
    requires AllIn(cl, a)
    requires b == "" || !Has(cl, b[0])
    ensures Cut(cl, a + b) == (a, b)
  {
    SpanOf(cl, a, b);
    assert (a + b)[..|a|] == a && (a + b)[|a|..] == b;
  }

  predicate StartsWith(s: string, p: string) {
    |p| <= |s| && forall i | 0 <= i < |p| :: s[i] == p[i]
  }

  // str::strip_prefix
  function Strip(s: string, p: string): (r: Option<string>)
    ensures r.Some? <==> StartsWith(s, p)
    ensures r.Some? ==> s == p + r.value
  {
    if StartsWith(s, p) then
      assert s[..|p|] == p;
      Some(s[|p|..])
    else None
  }

  lemma StripOf(p: string, rest: string)
    ensures Strip(p + rest, p) == Some(rest)
  {
    assert (p + rest)[|p|..] == rest;
  }

  predicate EndsWith(s: string, c: char) {
    s != "" && s[|s| - 1] == c
  }

  // What the beginning and the end of a text are.
  lemma AffixesExactly(s: string, p: string, c: char)
    ensures StartsWith(s, p) <==> exists rest :: s == p + rest
    ensures EndsWith(s, c) <==> exists front :: s == front + [c]
  {
    if StartsWith(s, p) {
      assert s == p + Strip(s, p).value;
    }
    if rest :| s == p + rest {
      StripOf(p, rest);
    }
    if EndsWith(s, c) {
      assert s == s[..|s| - 1] + [c];
    }
  }

  // Whether `p` occurs somewhere in `s`.
  predicate Contains(s: string, p: string) {
    exists i | 0 <= i <= |s| - |p| :: StartsWith(s[i..], p)
  }

  lemma ConsFirst<T>(s: seq<T>)
    requires s != []
    ensures s == [s[0]] + s[1..]
  {
  }

  lemma SnocLast<T>(s: seq<T>)
    requires s != []
    ensures s == s[..|s| - 1] + [s[|s| - 1]]
  {
  }

  lemma SnocLastTwo<T>(s: seq<T>)
    requires |s| > 1
    ensures s == s[..|s| - 2] + [s[|s| - 2]] + [s[|s| - 1]]
    ensures s[..|s| - 1] == s[..|s| - 2] + [s[|s| - 2]]
  {
  }

  lemma ConcatLast<T>(a: seq<T>, b: seq<T>)
    ensures b != [] ==> (a + b)[|a + b| - 1] == b[|b| - 1]
    ensures b == [] ==> a + b == a
  {
  }

  lemma ConcatFirst<T>(a: seq<T>, b: seq<T>)
    ensures a != [] ==> (a + b)[0] == a[0] && (a + b)[1..] == a[1..] + b
    ensures a == [] ==> a + b == b
  {
  }

  lemma ConcatCut<T>(a: seq<T>, b: seq<T>)
    ensures (a + b)[..|a + b| - |b|] == a && (a + b)[|a + b| - |b|..] == b
  {
  }

  lemma Assoc<T>(a: seq<T>, b: seq<T>, c: seq<T>)
    ensures a + b + c == a + (b + c)
    ensures [] + c == c && c + [] == c
  {
  }

  // ----- str::split(c) and join -----

  function IndexOf(s: string, c: char): (n: nat)
    ensures n <= |s|
    ensures n < |s| ==> s[n] == c
    ensures forall i | 0 <= i < n :: s[i] != c
  {
    if s == "" || s[0] == c then 0
    else
      assert forall i | 1 <= i < |s| :: s[i] == s[1..][i - 1];
      1 + IndexOf(s[1..], c)
  }

  function Split(s: string, c: char): (parts: seq<string>)
    ensures parts != []
  {
    if s == "" then [""]
    else
      var rest := Split(s[1..], c);
      if s[0] == c then [""] + rest else Grow(s[0], rest)
  }

  // Puts a character in front of the first part.
  function Grow(x: char, parts: seq<string>): seq<string>
    requires parts != []
  {
    [[x] + parts[0]] + parts[1..]
  }

  lemma GrowConcat(x: char, a: seq<string>, b: seq<string>)
    requires a != []
    ensures Grow(x, a + b) == Grow(x, a) + b
  {
    assert (a + b)[1..] == a[1..] + b;
  }

  function Join(parts: seq<string>, c: char): string {
    if parts == [] then ""
    else if |parts| == 1 then parts[0]
    else parts[0] + [c] + Join(parts[1..], c)
  }

  lemma {:induction false} IndexOfConcat(a: string, b: string, c: char)
    requires c !in a
    ensures IndexOf(a + [c] + b, c) == |a|
  {
    var s := a + [c] + b;
    assert forall i | 0 <= i < |a| :: s[i] == a[i];
    assert s[|a|] == c;
  }

  // Joining the parts of a split gives the string back.
  lemma {:induction false} JoinSplit(s: string, c: char)
    ensures Join(Split(s, c), c) == s
    ensures forall i | 0 <= i < |Split(s, c)| :: c !in Split(s, c)[i]
  {
    if s == "" {
    } else {
      JoinSplit(s[1..], c);
      var rest := Split(s[1..], c);
      if s[0] == c {
        assert ([""] + rest)[1..] == rest;
      } else {
        JoinHead(s[0], rest, c);
      }
    }
  }

  lemma JoinHead(x: char, rest: seq<string>, c: char)
    requires rest != []
    ensures Join(Grow(x, rest), c) == [x] + Join(rest, c)
  {
    var parts := Grow(x, rest);
    assert parts[1..] == rest[1..];
    if |rest| > 1 {
      assert [x] + rest[0] + [c] + Join(rest[1..], c) == [x] + (rest[0] + [c] + Join(rest[1..], c));
    }
  }

  // A string without the separator is its own single part.
  lemma {:induction false} SplitNone(a: string, c: char)
    requires c !in a
    ensures Split(a, c) == [a]
  {
    if a == "" {
    } else {
      SplitNone(a[1..], c);
      assert a == [a[0]] + a[1..];
    }
  }

  // Splitting distributes over a separator.
  lemma {:induction false} SplitConcat(a: string, b: string, c: char)
    ensures Split(a + [c] + b, c) == Split(a, c) + Split(b, c)
  {
    var s := a + [c] + b;
    if a == "" {
      assert s[1..] == b;
    } else {
      assert s[1..] == a[1..] + [c] + b;
      SplitConcat(a[1..], b, c);
      GrowConcat(a[0], Split(a[1..], c), Split(b, c));
      hide Grow;
    }
  }

  // Splitting a join of parts that lack the separator gives the parts back.
  lemma {:induction false} SplitJoin(parts: seq<string>, c: char)
    requires parts != []
    requires forall i | 0 <= i < |parts| :: c !in parts[i]
    ensures Split(Join(parts, c), c) == parts
  {
    SplitNone(parts[0], c);
    if |parts| == 1 {
    } else {
      SplitConcat(parts[0], Join(parts[1..], c), c);
      SplitJoin(parts[1..], c);
    }
    assert parts == [parts[0]] + parts[1..];
  }

  lemma {:induction false} JoinConcat(a: seq<string>, b: seq<string>, c: char)
    requires a != [] && b != []
    ensures Join(a + b, c) == Join(a, c) + [c] + Join(b, c)
  {
    if |a| == 1 {
      assert (a + b)[1..] == b;
    } else {
      assert (a + b)[1..] == a[1..] + b;
      JoinConcat(a[1..], b, c);
    }
  }

  // The parts one after the other.
  function Concat(parts: seq<string>): string {
    if parts == [] then "" else Concat(parts[..|parts| - 1]) + parts[|parts| - 1]
  }

  lemma ConcatNone()
    ensures Concat([]) == ""
  {
  }

  lemma ConcatSnoc(parts: seq<string>, x: string)
    ensures Concat(parts + [x]) == Concat(parts) + x
  {
    assert (parts + [x])[..|parts|] == parts;
  }

  lemma {:induction false} ConcatAppend(x: seq<string>, y: seq<string>)
    ensures Concat(x + y) == Concat(x) + Concat(y)
    decreases |y|
  {
    hide *;
    ConcatNone();
    if y == [] {
      Assoc([], [], x);
      Assoc("", "", Concat(x));
    } else {
      var n := |y| - 1;
      var front, last := y[..n], y[n];
      ConcatAppend(x, front);
      SnocLast(y);
      Assoc(x, front, [last]);
      ConcatSnoc(x + front, last);
      ConcatSnoc(front, last);
      Assoc(Concat(x), Concat(front), last);
    }
  }

  // ----- str::replace of a character by nothing -----

  function Without(c: char, s: string): string {
    if s == "" then "" else (if s[0] == c then "" else [s[0]]) + Without(c, s[1..])
  }

  // ----- str::trim -----

  function TrimStart(s: string): string {
    if s != "" && IsWhite(s[0]) then TrimStart(s[1..]) else s
  }

  function TrimEnd(s: string): string {
    if s != "" && IsWhite(s[|s| - 1]) then TrimEnd(s[..|s| - 1]) else s
  }

  function Trim(s: string): string {
    TrimEnd(TrimStart(s))
  }

  lemma TrimCases(s: string)
    ensures TrimStart(s) == if s != "" && IsWhite(s[0]) then TrimStart(s[1..]) else s
    ensures TrimEnd(s) == if s != "" && IsWhite(s[|s| - 1]) then TrimEnd(s[..|s| - 1]) else s
    ensures AllIn(White, "")
    ensures s != "" && IsWhite(s[0]) ==> AllIn(White, [s[0]])
    ensures s != "" && IsWhite(s[|s| - 1]) ==> AllIn(White, [s[|s| - 1]])
  {
    hide IsWhite;
  }

  // Trimming removes blanks only: what is left stands between two blank runs.
  lemma {:induction false} TrimStartParts(s: string) returns (lead: string)
    ensures s == lead + TrimStart(s) && AllIn(White, lead)
  {
    hide *;
    TrimCases(s);
    Assoc("", "", s);
    lead := "";
    if s != "" && IsWhite(s[0]) {
      var rest := TrimStartParts(s[1..]);
      lead := [s[0]] + rest;
      AllInConcat(White, [s[0]], rest);
      ConsFirst(s);
      Assoc([s[0]], rest, TrimStart(s));
    }
  }

  lemma {:induction false} TrimEndParts(s: string) returns (tail: string)
    ensures s == TrimEnd(s) + tail && AllIn(White, tail)
  {
    hide *;
    TrimCases(s);
    Assoc("", "", s);
    tail := "";
    if s != "" && IsWhite(s[|s| - 1]) {
      var rest := TrimEndParts(s[..|s| - 1]);
      tail := rest + [s[|s| - 1]];
      AllInConcat(White, rest, [s[|s| - 1]]);
      SnocLast(s);
      Assoc(TrimEnd(s), rest, [s[|s| - 1]]);
    }
  }

  lemma TrimParts(s: string) returns (lead: string, tail: string)
    ensures s == lead + Trim(s) + tail && AllIn(White, lead) && AllIn(White, tail)
  {
    hide TrimStart, TrimEnd, AllIn;
    lead := TrimStartParts(s);
    tail := TrimEndParts(TrimStart(s));
    assert lead + (Trim(s) + tail) == lead + Trim(s) + tail;
  }

  ghost predicate IsTrimmed(s: string) {
    s != "" ==> !IsWhite(s[0]) && !IsWhite(s[|s| - 1])
  }

  // The text with blanks in front and behind.
  ghost predicate Padded(s: string, t: string) {
    exists lead, tail :: AllIn(White, lead) && AllIn(White, tail) && s == lead + (t + tail)
  }

  lemma {:induction false} TrimStartEnds(s: string)
    ensures TrimStart(s) != "" ==> !IsWhite(TrimStart(s)[0])
  {
    hide IsWhite;
    if s != "" && IsWhite(s[0]) {
      TrimStartEnds(s[1..]);
    }
  }

  lemma {:induction false} TrimEndEnds(s: string)
    ensures TrimEnd(s) != "" ==> !IsWhite(TrimEnd(s)[|TrimEnd(s)| - 1])
    ensures TrimEnd(s) != "" ==> s != "" && TrimEnd(s)[0] == s[0]
  {
    hide IsWhite;
    if s != "" && IsWhite(s[|s| - 1]) {
      TrimEndEnds(s[..|s| - 1]);
    }
  }

  lemma {:induction false} TrimStartOf(lead: string, rest: string)
    requires AllIn(White, lead) && (rest == "" || !IsWhite(rest[0]))
    ensures TrimStart(lead + rest) == rest
  {
    hide *;
    TrimCases(rest);
    ConcatFirst(lead, rest);
    if lead == "" {
    } else {
      AllInRest(White, lead);
      TrimCases(lead + rest);
      TrimStartOf(lead[1..], rest);
    }
  }

  lemma {:induction false} TrimEndOf(s: string, tail: string)
    requires AllIn(White, tail) && (s == "" || !IsWhite(s[|s| - 1]))
    ensures TrimEnd(s + tail) == s
    decreases |tail|
  {
    hide *;
    TrimCases(s);
    ConcatLast(s, tail);
    if tail == "" {
    } else {
      var n := |tail| - 1;
      SnocLast(tail);
      Assoc(s, tail[..n], [tail[n]]);
      AllInConcat(White, tail[..n], [tail[n]]);
      AllInRest(White, [tail[n]]);
      TrimCases(s + tail);
      assert (s + tail)[..|s + tail| - 1] == s + tail[..n];
      TrimEndOf(s, tail[..n]);
    }
  }

  lemma AllInRest(cl: CharClass, s: string)
    requires AllIn(cl, s) && s != ""
    ensures Has(cl, s[0]) && AllIn(cl, s[1..])
    ensures cl.White? ==> IsWhite(s[0])
  {
    hide IsWhite;
    assert Has(cl, s[0]);
  }

  // A text of blanks is trimmed away.
  lemma BlankTrimmed(s: string)
    requires AllIn(White, s)
    ensures Trim(s) == ""
  {
    hide TrimStart, TrimEnd, AllIn;
    TrimStartOf(s, "");
    TrimCases("");
    Assoc("", "", s);
  }

  // What trimming leaves is the trimmed text that the blanks stand around.
  lemma TrimExactly(s: string, t: string)
    ensures Trim(s) == t <==> IsTrimmed(t) && Padded(s, t)
  {
    hide TrimStart, TrimEnd, AllIn, IsWhite;
    if Trim(s) == t {
      var lead, tail := TrimParts(s);
      Assoc(lead, Trim(s), tail);
      TrimStartEnds(s);
      TrimEndEnds(TrimStart(s));
    }
    if IsTrimmed(t) && Padded(s, t) {
      var lead, tail :| AllIn(White, lead) && AllIn(White, tail) && s == lead + (t + tail);
      if t == "" {
        Assoc("", "", tail);
        AllInConcat(White, lead, tail);
        BlankTrimmed(s);
      } else {
        ConcatFirst(t, tail);
        TrimStartOf(lead, t + tail);
        TrimEndOf(t, tail);
      }
    }
  }

  // ----- str::split_whitespace -----

  function SplitWhitespace(s: string): seq<string>
    decreases |s|
  {
    if s == "" then []
    else if IsWhite(s[0]) then SplitWhitespace(s[1..])
    else
      var n := Span(NonWhite, s);
      [s[..n]] + SplitWhitespace(s[n..])
  }

  ghost predicate IsToken(t: string) {
    t != "" && AllIn(NonWhite, t)
  }

  // Text with tokens and the blanks around them: `blanks[i]` stands before token `i`.
  function Interleave(blanks: seq<string>, tokens: seq<string>): string
    requires |blanks| == |tokens| + 1
  {
    if tokens == [] then blanks[0] else blanks[0] + (tokens[0] + Interleave(blanks[1..], tokens[1..]))
  }

  ghost predicate Separate(blanks: seq<string>) {
    && (forall i | 0 <= i < |blanks| :: AllIn(White, blanks[i]))
    && (forall i | 0 < i < |blanks| - 1 :: blanks[i] != "")
  }

  // The text consists of these tokens, with blanks between them and around.
  ghost predicate SpacedOut(s: string, tokens: seq<string>) {
    && (forall i | 0 <= i < |tokens| :: IsToken(tokens[i]))
    && exists blanks | |blanks| == |tokens| + 1 :: Separate(blanks) && s == Interleave(blanks, tokens)
  }

  lemma {:induction false} BlanksSkipped(blank: string, rest: string)
    requires AllIn(White, blank)
    ensures SplitWhitespace(blank + rest) == SplitWhitespace(rest)
    decreases |blank|
  {
    if blank == "" {
      assert blank + rest == rest;
    } else {
      ConcatFirst(blank, rest);
      assert Has(White, blank[0]);
      assert AllIn(White, blank[1..]) by {
        assert forall i | 0 <= i < |blank| - 1 :: blank[1..][i] == blank[i + 1];
      }
      BlanksSkipped(blank[1..], rest);
      hide AllIn, IsWhite;
    }
  }

  lemma TokenTaken(token: string, rest: string)
    requires IsToken(token) && (rest == "" || IsWhite(rest[0]))
    ensures SplitWhitespace(token + rest) == [token] + SplitWhitespace(rest)
  {
    var s := token + rest;
    assert Has(NonWhite, token[0]);
    ConcatFirst(token, rest);
    SpanOf(NonWhite, token, rest);
    assert s[..|token|] == token && s[|token|..] == rest;
    hide IsWhite, AllIn, Span;
  }

  lemma InterleaveCases(blanks: seq<string>, tokens: seq<string>)
    requires |blanks| == |tokens| + 1 && Separate(blanks)
    ensures AllIn(White, blanks[0])
    ensures tokens == [] ==> Interleave(blanks, tokens) == blanks[0] + ""
    ensures tokens != [] ==>
      && Separate(blanks[1..])
      && Interleave(blanks, tokens) == blanks[0] + (tokens[0] + Interleave(blanks[1..], tokens[1..]))
      && (|tokens| > 1 ==> blanks[1] != "")
  {
    hide AllIn;
    Assoc("", "", blanks[0]);
  }

  // What follows a token starts with a blank, if there is anything.
  lemma BlankNext(blanks: seq<string>, tokens: seq<string>)
    requires |blanks| == |tokens| + 1 && Separate(blanks) && (tokens != [] ==> blanks[0] != "")
    ensures var s := Interleave(blanks, tokens); s == "" || IsWhite(s[0])
  {
    hide IsWhite;
    assert AllIn(White, blanks[0]);
    assert blanks[0] != "" ==> Has(White, blanks[0][0]);
  }

  lemma SplitNothing()
    ensures SplitWhitespace("") == []
  {
  }

  lemma {:induction false} SplitInterleaved(blanks: seq<string>, tokens: seq<string>)
    requires |blanks| == |tokens| + 1 && Separate(blanks)
    requires forall i | 0 <= i < |tokens| :: IsToken(tokens[i])
    ensures SplitWhitespace(Interleave(blanks, tokens)) == tokens
    decreases |tokens|
  {
    hide *;
    InterleaveCases(blanks, tokens);
    if tokens == [] {
      BlanksSkipped(blanks[0], "");
      SplitNothing();
    } else {
      var rest := Interleave(blanks[1..], tokens[1..]);
      BlanksSkipped(blanks[0], tokens[0] + rest);
      BlankNext(blanks[1..], tokens[1..]);
      TokenTaken(tokens[0], rest);
      SplitInterleaved(blanks[1..], tokens[1..]);
      ConsFirst(tokens);
    }
  }

  lemma SplitCases(s: string)
    ensures s != "" && IsWhite(s[0]) ==> SplitWhitespace(s) == SplitWhitespace(s[1..])
    ensures s != "" && !IsWhite(s[0]) ==>
      var (token, rest) := Cut(NonWhite, s);
      && SplitWhitespace(s) == [token] + SplitWhitespace(rest)
      && token + rest == s && IsToken(token) && (rest == "" || IsWhite(rest[0]))
  {
    hide IsWhite;
  }

  lemma WidenFirst(c: char, blanks: seq<string>, tokens: seq<string>)
    requires IsWhite(c) && |blanks| == |tokens| + 1 && Separate(blanks)
    ensures var wider := [[c] + blanks[0]] + blanks[1..];
      Separate(wider) && Interleave(wider, tokens) == [c] + Interleave(blanks, tokens)
  {
    hide IsWhite;
    var wider := [[c] + blanks[0]] + blanks[1..];
    assert wider[1..] == blanks[1..];
    AllInConcat(White, [c], blanks[0]);
    assert forall i | 0 < i < |wider| :: wider[i] == blanks[i];
    if tokens != [] {
      Assoc([c], blanks[0], tokens[0] + Interleave(blanks[1..], tokens[1..]));
    }
  }

  lemma TokenFirst(token: string, blanks: seq<string>, tokens: seq<string>)
    requires |blanks| == |tokens| + 1 && Separate(blanks) && (tokens != [] ==> blanks[0] != "")
    ensures Separate([""] + blanks)
    ensures Interleave([""] + blanks, [token] + tokens) == token + Interleave(blanks, tokens)
  {
    hide IsWhite;
    assert ([""] + blanks)[1..] == blanks && ([token] + tokens)[1..] == tokens;
    Assoc("", "", token + Interleave(blanks, tokens));
    assert forall i | 0 < i < |blanks| + 1 :: ([""] + blanks)[i] == blanks[i - 1];
  }

  // Every text is its tokens and the blanks around them.
  lemma {:induction false} SplitParts(s: string) returns (blanks: seq<string>)
    ensures |blanks| == |SplitWhitespace(s)| + 1 && Separate(blanks) && s == Interleave(blanks, SplitWhitespace(s))
    ensures s != "" && IsWhite(s[0]) ==> blanks[0] != ""
    ensures forall i | 0 <= i < |SplitWhitespace(s)| :: IsToken(SplitWhitespace(s)[i])
    decreases |s|
  {
    hide *;
    SplitNothing();
    NoBlanks();
    if s == "" {
      blanks := [""];
    } else {
      SplitCases(s);
      if IsWhite(s[0]) {
        var more := SplitParts(s[1..]);
        blanks := [[s[0]] + more[0]] + more[1..];
        WidenFirst(s[0], more, SplitWhitespace(s[1..]));
        ConsFirst(s);
      } else {
        var (token, rest) := Cut(NonWhite, s);
        TokenNotEmpty(token);
        var more := SplitParts(rest);
        blanks := [""] + more;
        FirstBlank(rest, more, SplitWhitespace(rest));
        TokenFirst(token, more, SplitWhitespace(rest));
      }
    }
  }

  lemma NoBlanks()
    ensures Separate([""]) && Interleave([""], []) == ""
  {
  }

  lemma TokenNotEmpty(token: string)
    requires IsToken(token)
    ensures token != ""
  {
  }

  lemma FirstBlank(s: string, blanks: seq<string>, tokens: seq<string>)
    requires |blanks| == |tokens| + 1 && s == Interleave(blanks, tokens)
    requires s == "" || IsWhite(s[0])
    requires s != "" && IsWhite(s[0]) ==> blanks[0] != ""
    requires forall i | 0 <= i < |tokens| :: IsToken(tokens[i])
    ensures tokens != [] ==> blanks[0] != ""
  {
    hide IsWhite;
    if tokens != [] {
      assert IsToken(tokens[0]);
    }
  }

  // A text splits into the tokens it consists of, whatever the blanks are.
  lemma SplitExactly(s: string, tokens: seq<string>)
    ensures SplitWhitespace(s) == tokens <==> SpacedOut(s, tokens)
  {
    hide AllIn, IsWhite, SplitWhitespace, Interleave, Separate, IsToken;
    var blanks := SplitParts(s);
    if SpacedOut(s, tokens) {
      var bs :| |bs| == |tokens| + 1 && Separate(bs) && s == Interleave(bs, tokens);
      SplitInterleaved(bs, tokens);
    }
  }
}
