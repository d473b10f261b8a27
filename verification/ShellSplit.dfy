// Splitting a command line into words with POSIX quoting, as one pass over the
// characters.  The pass is proved against the quoting grammar: every spelling
// of a word, however its characters are quoted, splits back into that word.
module ShellSplit {
  import opened Text

  datatype Mode = Bare | Single | Double

  predicate IsBlank(c: char) {
    c in {' ', '\t', '\n'}
  }

  // What the pass returns from a given state on.
  function Run(chars: string, args: seq<string>, cur: string, hasCur: bool, mode: Mode): seq<string>
    decreases |chars|
  {
    if chars == "" then if hasCur then args + [cur] else args
    else
      var c, rest := chars[0], chars[1..];
      match mode
      case Single =>
        if c == '\'' then Run(rest, args, cur, true, Bare) else Run(rest, args, cur + [c], true, Single)
      case Double =>
        if c == '"' then Run(rest, args, cur, true, Bare)
        else if c == '\\' && rest != "" && rest[0] in {'"', '\\'} then
          Run(rest[1..], args, cur + [rest[0]], true, Double)
        else Run(rest, args, cur + [c], true, Double)
      case Bare =>
        if IsBlank(c) then
          if hasCur then Run(rest, args + [cur], "", false, Bare) else Run(rest, args, cur, false, Bare)
        else if c == '\'' then Run(rest, args, cur, true, Single)
        else if c == '"' then Run(rest, args, cur, true, Double)
        else if c == '\\' then
          if rest == "" then Run(rest, args, cur, hasCur, Bare) else Run(rest[1..], args, cur + [rest[0]], true, Bare)
        else Run(rest, args, cur + [c], true, Bare)
  }

  // `shell_split`
  method ShellSplit(s: string) returns (args: seq<string>)
    ensures args == Run(s, [], "", false, Bare)
  {
    args := [];
    var cur := "";
    var hasCur := false;
    var chars := s;
    var inSingle, inDouble := false, false;
    while chars != ""
      invariant !(inSingle && inDouble)
      invariant Run(s, [], "", false, Bare)
        == Run(chars, args, cur, hasCur, if inSingle then Single else if inDouble then Double else Bare)
      decreases |chars|
    {
      var c := chars[0];
      chars := chars[1..];
      if inSingle {
        if c == '\'' { inSingle := false; } else { cur := cur + [c]; }
        hasCur := true;
        continue;
      }
      if inDouble {
        if c == '"' {
          inDouble := false;
        } else if c == '\\' && chars != "" && chars[0] in {'"', '\\'} {
          cur := cur + [chars[0]];
          chars := chars[1..];
        } else {
          cur := cur + [c];
        }
        hasCur := true;
        continue;
      }
      if IsBlank(c) {
        if hasCur {
          args := args + [cur];
          cur := "";
          hasCur := false;
        }
      } else if c == '\'' {
        inSingle := true;
        hasCur := true;
      } else if c == '"' {
        inDouble := true;
        hasCur := true;
      } else if c == '\\' {
        if chars != "" {
          cur := cur + [chars[0]];
          chars := chars[1..];
          hasCur := true;
        }
      } else {
        cur := cur + [c];
        hasCur := true;
      }
    }
    if hasCur { args := args + [cur]; }
  }

  // ----- The quoting grammar -----

  // A piece between double quotes: a character as it is, or a backslash escape.
  datatype Piece = Raw(c: char) | Escape(c: char)

  datatype Segment =
    | Plain(c: char)                  // c
    | Backslash(c: char)              // \c
    | SingleQuoted(text: string)      // '...'
    | DoubleQuoted(pieces: seq<Piece>) // "..."

  function PieceText(p: Piece): string {
    if p.Raw? then [p.c] else ['\\', p.c]
  }

  // The pieces' text, and the characters it stands for.
  function PiecesText(pieces: seq<Piece>): string {
    if pieces == [] then "" else PieceText(pieces[0]) + PiecesText(pieces[1..])
  }

  function PiecesMeaning(pieces: seq<Piece>): string {
    if pieces == [] then "" else [pieces[0].c] + PiecesMeaning(pieces[1..])
  }

  // Only a quote and a backslash are escaped; a backslash left as it is must
  // not stand before something it would escape, the closing quote included.
  predicate PiecesOk(pieces: seq<Piece>) {
    pieces == [] ||
    var p := pieces[0];
    && (if p.Escape? then p.c in {'"', '\\'}
        else p.c != '"' && (p.c == '\\' ==> |pieces| > 1 && pieces[1].Raw? && pieces[1].c !in {'"', '\\'}))
    && PiecesOk(pieces[1..])
  }

  function SegmentText(x: Segment): string {
    match x
    case Plain(c) => [c]
    case Backslash(c) => ['\\', c]
    case SingleQuoted(text) => "'" + text + "'"
    case DoubleQuoted(pieces) => "\"" + PiecesText(pieces) + "\""
  }

  function SegmentMeaning(x: Segment): string {
    match x
    case Plain(c) => [c]
    case Backslash(c) => [c]
    case SingleQuoted(text) => text
    case DoubleQuoted(pieces) => PiecesMeaning(pieces)
  }

  predicate SegmentOk(x: Segment) {
    match x
    case Plain(c) => !IsBlank(c) && c !in {'\'', '"', '\\'}
    case Backslash(_) => true
    case SingleQuoted(text) => '\'' !in text
    case DoubleQuoted(pieces) => PiecesOk(pieces)
  }

  function WordText(word: seq<Segment>): string {
    if word == [] then "" else SegmentText(word[0]) + WordText(word[1..])
  }

  function WordMeaning(word: seq<Segment>): string {
    if word == [] then "" else SegmentMeaning(word[0]) + WordMeaning(word[1..])
  }

  ghost predicate WordOk(word: seq<Segment>) {
    word != [] && forall j | 0 <= j < |word| :: SegmentOk(word[j])
  }

  ghost predicate WordsOk(words: seq<seq<Segment>>) {
    forall i | 0 <= i < |words| :: WordOk(words[i])
  }

  // Passing over `text` outside quotes adds `meaning` to the current word.
  ghost predicate Spells(text: string, meaning: string) {
    forall rest, args, cur, hasCur ::
      Run(text + rest, args, cur, hasCur, Bare) == Run(rest, args, cur + meaning, true, Bare)
  }

  lemma {:induction false} SingleRun(text: string, rest: string, args: seq<string>, cur: string)
    requires '\'' !in text
    ensures Run(text + ("'" + rest), args, cur, true, Single) == Run(rest, args, cur + text, true, Bare)
    decreases |text|
  {
    var chars := text + ("'" + rest);
    if text == "" {
      assert chars[0] == '\'' && chars[1..] == rest && cur + text == cur;
    } else {
      assert chars[0] == text[0] && chars[1..] == text[1..] + ("'" + rest);
      SingleRun(text[1..], rest, args, cur + [text[0]]);
      assert cur + [text[0]] + text[1..] == cur + text;
    }
  }

  lemma {:induction false} DoubleRun(pieces: seq<Piece>, rest: string, args: seq<string>, cur: string)
    requires PiecesOk(pieces)
    ensures Run(PiecesText(pieces) + ("\"" + rest), args, cur, true, Double)
         == Run(rest, args, cur + PiecesMeaning(pieces), true, Bare)
    decreases |pieces|
  {
    var chars := PiecesText(pieces) + ("\"" + rest);
    if pieces == [] {
      assert chars[0] == '"' && chars[1..] == rest && cur + "" == cur;
    } else {
      var p, more := pieces[0], PiecesText(pieces[1..]) + ("\"" + rest);
      assert chars == PieceText(p) + more;
      DoubleRun(pieces[1..], rest, args, cur + [p.c]);
      if p.Escape? {
        assert chars[0] == '\\' && chars[1] == p.c && chars[2..] == more && chars[1..][1..] == more;
      } else {
        if p.c == '\\' {
          assert more[0] == pieces[1].c;
        }
        assert chars[0] == p.c && chars[1..] == more;
      }
      assert cur + [p.c] + PiecesMeaning(pieces[1..]) == cur + PiecesMeaning(pieces);
    }
  }

  lemma SegmentSpells(x: Segment)
    requires SegmentOk(x)
    ensures Spells(SegmentText(x), SegmentMeaning(x))
  {
    hide Run, SegmentText, SegmentMeaning;
    forall rest, args, cur, hasCur
      ensures Run(SegmentText(x) + rest, args, cur, hasCur, Bare) ==
        Run(rest, args, cur + SegmentMeaning(x), true, Bare)
    {
      SegmentRun(x, rest, args, cur, hasCur);
    }
  }

  lemma SegmentRun(x: Segment, rest: string, args: seq<string>, cur: string, hasCur: bool)
    requires SegmentOk(x)
    ensures Run(SegmentText(x) + rest, args, cur, hasCur, Bare) == Run(rest, args, cur + SegmentMeaning(x), true, Bare)
  {
    match x {
      case Plain(c) => PlainRun(c, rest, args, cur, hasCur);
      case Backslash(c) => BackslashRun(c, rest, args, cur, hasCur);
      case SingleQuoted(text) =>
        SingleRun(text, rest, args, cur);
        var more := text + ("'" + rest);
        assert "'" + text + "'" + rest == "'" + more;
        OpenRun('\'', more, args, cur, hasCur);
        hide Run;
      case DoubleQuoted(pieces) =>
        DoubleRun(pieces, rest, args, cur);
        var more := PiecesText(pieces) + ("\"" + rest);
        assert "\"" + PiecesText(pieces) + "\"" + rest == "\"" + more;
        OpenRun('"', more, args, cur, hasCur);
        hide Run;
    }
  }

  lemma PlainRun(c: char, rest: string, args: seq<string>, cur: string, hasCur: bool)
    requires !IsBlank(c) && c !in {'\'', '"', '\\'}
    ensures Run([c] + rest, args, cur, hasCur, Bare) == Run(rest, args, cur + [c], true, Bare)
  {
    var chars := [c] + rest;
    assert chars[0] == c && chars[1..] == rest;
  }

  lemma BackslashRun(c: char, rest: string, args: seq<string>, cur: string, hasCur: bool)
    ensures Run(['\\', c] + rest, args, cur, hasCur, Bare) == Run(rest, args, cur + [c], true, Bare)
  {
    var chars := ['\\', c] + rest;
    assert chars[0] == '\\' && chars[1] == c && chars[1..][1..] == rest;
  }

  lemma OpenRun(quote: char, more: string, args: seq<string>, cur: string, hasCur: bool)
    requires quote in {'\'', '"'}
    ensures Run([quote] + more, args, cur, hasCur, Bare) ==
      Run(more, args, cur, true, if quote == '"' then Double else Single)
  {
    var chars := [quote] + more;
    assert chars[0] == quote && chars[1..] == more;
  }

  lemma SpellsConcat(a: string, m: string, b: string, n: string)
    requires Spells(a, m) && Spells(b, n)
    ensures Spells(a + b, m + n)
  {
    hide Run;
    forall rest, args, cur, hasCur
      ensures Run(a + b + rest, args, cur, hasCur, Bare) == Run(rest, args, cur + (m + n), true, Bare)
    {
      assert a + b + rest == a + (b + rest);
      assert cur + m + n == cur + (m + n);
    }
  }

  // A word of one or more segments spells the segments' meanings together.
  lemma {:induction false} WordSpells(word: seq<Segment>)
    requires word != [] && forall i | 0 <= i < |word| :: SegmentOk(word[i])
    ensures Spells(WordText(word), WordMeaning(word))
  {
    hide Spells, SegmentText, SegmentMeaning, SegmentOk;
    SegmentSpells(word[0]);
    if |word| == 1 {
      assert word[1..] == [];
      assert SegmentText(word[0]) + "" == SegmentText(word[0]);
      assert SegmentMeaning(word[0]) + "" == SegmentMeaning(word[0]);
    } else {
      WordSpells(word[1..]);
      SpellsConcat(SegmentText(word[0]), SegmentMeaning(word[0]), WordText(word[1..]), WordMeaning(word[1..]));
    }
  }

  // ----- Lines -----

  // Words and the blanks around them: `gaps[i]` stands before word `i`.
  function LineText(texts: seq<string>, gaps: seq<string>): string
    requires |gaps| == |texts| + 1
  {
    var n := |texts|;
    if n == 0 then gaps[0] else LineText(texts[..n - 1], gaps[..n]) + (texts[n - 1] + gaps[n])
  }

  ghost predicate GapsOk(gaps: seq<string>) {
    && (forall i | 0 <= i < |gaps| :: forall c <- gaps[i] :: IsBlank(c))
    && (forall i | 0 < i < |gaps| - 1 :: gaps[i] != "")
  }

  lemma {:induction false} BlankRun(gap: string, rest: string, args: seq<string>)
    requires forall i | 0 <= i < |gap| :: IsBlank(gap[i])
    ensures Run(gap + rest, args, "", false, Bare) == Run(rest, args, "", false, Bare)
    decreases |gap|
  {
    if gap == "" {
      assert gap + rest == rest;
    } else {
      assert (gap + rest)[0] == gap[0] && (gap + rest)[1..] == gap[1..] + rest;
      BlankRun(gap[1..], rest, args);
    }
  }

  lemma EndOfWord(gap: string, rest: string, args: seq<string>, cur: string)
    requires gap != "" && forall i | 0 <= i < |gap| :: IsBlank(gap[i])
    ensures Run(gap + rest, args, cur, true, Bare) == Run(rest, args + [cur], "", false, Bare)
  {
    assert (gap + rest)[0] == gap[0] && (gap + rest)[1..] == gap[1..] + rest;
    BlankRun(gap[1..], rest, args + [cur]);
  }

  lemma UseSpells(text: string, meaning: string, rest: string, args: seq<string>, cur: string, hasCur: bool)
    requires Spells(text, meaning)
    ensures Run(text + rest, args, cur, hasCur, Bare) == Run(rest, args, cur + meaning, true, Bare)
  {
    hide Run;
  }

  // Passing over a line that ends in blanks collects its words.
  lemma {:induction false} LineRun(texts: seq<string>, words: seq<string>, gaps: seq<string>, rest: string)
    requires |texts| == |words| && |gaps| == |texts| + 1 && GapsOk(gaps)
    requires |words| > 0 ==> gaps[|words|] != ""
    requires forall i | 0 <= i < |words| :: Spells(texts[i], words[i])
    ensures Run(LineText(texts, gaps) + rest, [], "", false, Bare) == Run(rest, words, "", false, Bare)
    decreases |words|
  {
    hide Spells, Run;
    var n := |words|;
    if n == 0 {
      BlankRun(gaps[0], rest, []);
    } else {
      LineStep(texts, words, gaps, rest);
      EndOfWord(gaps[n], rest, words[..n - 1], words[n - 1]);
      SnocLast(words);
    }
  }

  // The line up to and including its last word.
  lemma {:induction false} LineStep(texts: seq<string>, words: seq<string>, gaps: seq<string>, rest: string)
    requires |texts| == |words| > 0 && |gaps| == |texts| + 1 && GapsOk(gaps)
    requires forall i | 0 <= i < |words| :: Spells(texts[i], words[i])
    ensures Run(LineText(texts, gaps) + rest, [], "", false, Bare)
         == Run(gaps[|words|] + rest, words[..|words| - 1], words[|words| - 1], true, Bare)
    decreases |words|, 0
  {
    hide Spells, Run;
    var n := |words|;
    var front := LineText(texts[..n - 1], gaps[..n]);
    assert front + (texts[n - 1] + gaps[n]) + rest == front + (texts[n - 1] + (gaps[n] + rest));
    LineRun(texts[..n - 1], words[..n - 1], gaps[..n], texts[n - 1] + (gaps[n] + rest));
    UseSpells(texts[n - 1], words[n - 1], gaps[n] + rest, words[..n - 1], "", false);
    assert "" + words[n - 1] == words[n - 1];
  }

  // A line of spelt words, with blanks between them and any around them,
  // splits into exactly those words.
  lemma LineSplits(texts: seq<string>, words: seq<string>, gaps: seq<string>)
    requires |texts| == |words| && |gaps| == |texts| + 1 && GapsOk(gaps)
    requires forall i | 0 <= i < |words| :: Spells(texts[i], words[i])
    ensures Run(LineText(texts, gaps), [], "", false, Bare) == words
  {
    hide Run, Spells;
    var n := |words|;
    var line := LineText(texts, gaps);
    RunOut(words);
    if n > 0 {
      RunOut(words[..n - 1]);
      SnocLast(words);
    }
    assert line + "" == line;
    if n > 0 && gaps[n] == "" {
      LineStep(texts, words, gaps, "");
      assert gaps[n] + "" == "";
      LastWord(words);
    } else {
      LineRun(texts, words, gaps, "");
    }
  }

  function WordTexts(words: seq<seq<Segment>>): (r: seq<string>)
    ensures |r| == |words| && forall i | 0 <= i < |r| :: r[i] == WordText(words[i])
  {
    seq(|words|, i requires 0 <= i < |words| => WordText(words[i]))
  }

  function WordMeanings(words: seq<seq<Segment>>): (r: seq<string>)
    ensures |r| == |words| && forall i | 0 <= i < |r| :: r[i] == WordMeaning(words[i])
  {
    seq(|words|, i requires 0 <= i < |words| => WordMeaning(words[i]))
  }

  // Whatever mix of plain, escaped and quoted segments the words are written
  // with, and whatever blanks stand around them, the line splits into what the
  // segments stand for.
  lemma SpellingsSplit(words: seq<seq<Segment>>, gaps: seq<string>)
    requires |gaps| == |words| + 1 && GapsOk(gaps) && WordsOk(words)
    ensures Run(LineText(WordTexts(words), gaps), [], "", false, Bare) == WordMeanings(words)
  {
    hide Run, Spells, WordText, WordMeaning, SegmentOk, LineText, WordTexts, WordMeanings;
    forall i | 0 <= i < |words| ensures Spells(WordTexts(words)[i], WordMeanings(words)[i]) {
      assert WordOk(words[i]);
      WordSpells(words[i]);
    }
    LineSplits(WordTexts(words), WordMeanings(words), gaps);
  }

  lemma RunOut(args: seq<string>)
    ensures Run("", args, "", false, Bare) == args
  {
  }

  lemma LastWord(words: seq<string>)
    requires words != []
    ensures Run("", words[..|words| - 1], words[|words| - 1], true, Bare) == words
  {
  }

  // ----- Every line that ends outside quotes is such a line -----

  // Where the text stops: outside quotes, after a backslash outside quotes, or
  // inside quotes that are still open, in double ones also after a backslash.
  datatype Ending = Outside | LoneBackslash | OpenSingle | OpenDouble | OpenBackslash

  function EndingOf(chars: string, mode: Mode): (e: Ending)
    ensures e.LoneBackslash? ==> chars != ""
    decreases |chars|
  {
    if chars == "" then
      match mode
      case Bare => Outside
      case Single => OpenSingle
      case Double => OpenDouble
    else
      var c, rest := chars[0], chars[1..];
      match mode
      case Single => EndingOf(rest, if c == '\'' then Bare else Single)
      case Double =>
        if c == '"' then EndingOf(rest, Bare)
        else if c == '\\' && rest == "" then OpenBackslash
        else if c == '\\' && rest[0] in {'"', '\\'} then EndingOf(rest[1..], Double)
        else EndingOf(rest, Double)
      case Bare =>
        if c == '\'' then EndingOf(rest, Single)
        else if c == '"' then EndingOf(rest, Double)
        else if c == '\\' then if rest == "" then LoneBackslash else EndingOf(rest[1..], Bare)
        else EndingOf(rest, Bare)
  }

  // Whether the text ends outside quotes and not after a lone backslash.
  predicate Ends(chars: string, mode: Mode) {
    EndingOf(chars, mode).Outside?
  }

  lemma {:induction false} SingleParts(chars: string) returns (text: string, rest: string)
    requires Ends(chars, Single)
    ensures '\'' !in text && chars == text + ("'" + rest) && Ends(rest, Bare) && |rest| < |chars|
  {
    var c := chars[0];
    assert chars == [c] + chars[1..];
    if c == '\'' {
      text, rest := "", chars[1..];
    } else {
      var more: string;
      more, rest := SingleParts(chars[1..]);
      text := [c] + more;
      assert [c] + more + ("'" + rest) == [c] + (more + ("'" + rest));
    }
  }

  lemma {:induction false} DoubleParts(chars: string) returns (pieces: seq<Piece>, rest: string)
    requires Ends(chars, Double)
    ensures PiecesOk(pieces) && chars == PiecesText(pieces) + ("\"" + rest) && Ends(rest, Bare) && |rest| < |chars|
    ensures chars != "" && (chars[0] == '"' <==> pieces == [])
    ensures pieces != [] && chars[0] != '\\' ==> pieces[0] == Raw(chars[0])
    decreases |chars|
  {
    var c, tail := chars[0], chars[1..];
    assert chars == [c] + tail;
    if c == '"' {
      pieces, rest := [], tail;
    } else if c == '\\' && tail != "" && tail[0] in {'"', '\\'} {
      var more: seq<Piece>;
      more, rest := DoubleParts(tail[1..]);
      pieces := [Escape(tail[0])] + more;
      assert tail == [tail[0]] + tail[1..];
      PiecesCons(Escape(tail[0]), more, rest);
      assert chars == ['\\', tail[0]] + tail[1..];
    } else {
      var more: seq<Piece>;
      more, rest := DoubleParts(tail);
      pieces := [Raw(c)] + more;
      PiecesCons(Raw(c), more, rest);
    }
  }

  lemma PiecesCons(p: Piece, more: seq<Piece>, rest: string)
    ensures PiecesText([p] + more) + ("\"" + rest) == PieceText(p) + (PiecesText(more) + ("\"" + rest))
    ensures ([p] + more)[1..] == more
  {
    assert ([p] + more)[1..] == more;
  }

  // A line with a gap and a word put in front, and with a longer first gap.
  lemma {:induction false} LineCons(gap: string, text: string, texts: seq<string>, gaps: seq<string>)
    requires |gaps| == |texts| + 1
    ensures LineText([text] + texts, [gap] + gaps) == gap + (text + LineText(texts, gaps))
    decreases |texts|
  {
    var n := |texts|;
    var all, allGaps := [text] + texts, [gap] + gaps;
    if n == 0 {
      assert all[..0] == [] && allGaps[..1] == [gap];
      assert LineText(all, allGaps) == LineText([], [gap]) + (text + gaps[0]);
    } else {
      assert all[..n] == [text] + texts[..n - 1] && allGaps[..n + 1] == [gap] + gaps[..n];
      LineCons(gap, text, texts[..n - 1], gaps[..n]);
      var front, last := LineText(texts[..n - 1], gaps[..n]), texts[n - 1] + gaps[n];
      assert gap + (text + front) + last == gap + (text + (front + last));
    }
  }

  lemma {:induction false} LineWiden(lead: string, texts: seq<string>, gaps: seq<string>)
    requires |gaps| == |texts| + 1
    ensures LineText(texts, [lead + gaps[0]] + gaps[1..]) == lead + LineText(texts, gaps)
    decreases |texts|
  {
    var n := |texts|;
    var wide := [lead + gaps[0]] + gaps[1..];
    if n == 0 {
      assert wide[0] == lead + gaps[0];
    } else {
      assert gaps[..n][1..] == gaps[1..][..n - 1];
      assert wide[..n] == [lead + gaps[..n][0]] + gaps[..n][1..];
      LineWiden(lead, texts[..n - 1], gaps[..n]);
      var front, last := LineText(texts[..n - 1], gaps[..n]), texts[n - 1] + gaps[n];
      assert lead + front + last == lead + (front + last);
    }
  }

  // What is left of a line in the middle of a word: the word's rest, and the
  // words after it.
  datatype Parts = Parts(word: seq<Segment>, words: seq<seq<Segment>>, gaps: seq<string>)

  ghost predicate Cuts(parts: Parts, chars: string) {
    && |parts.gaps| == |parts.words| + 1 && GapsOk(parts.gaps) && WordsOk(parts.words)
    && (parts.words != [] ==> parts.gaps[0] != "")
    && (forall j | 0 <= j < |parts.word| :: SegmentOk(parts.word[j]))
    && chars == WordText(parts.word) + LineText(WordTexts(parts.words), parts.gaps)
  }

  lemma CutsCases(parts: Parts, chars: string)
    requires Cuts(parts, chars)
    ensures |parts.gaps| == |parts.words| + 1 && GapsOk(parts.gaps) && WordsOk(parts.words)
    ensures |parts.gaps| > 1 ==> parts.gaps[0] != ""
    ensures chars == WordText(parts.word) + LineText(WordTexts(parts.words), parts.gaps)
    ensures parts.word == [] ==> WordText(parts.word) == ""
    ensures parts.word != [] ==> WordOk(parts.word) && GapsOk([""] + parts.gaps)
  {
    hide SegmentOk, LineText, WordTexts, WordsOk;
  }

  lemma GrowWord(x: Segment, parts: Parts, chars: string) returns (r: Parts)
    requires SegmentOk(x) && Cuts(parts, chars)
    ensures Cuts(r, SegmentText(x) + chars)
  {
    hide SegmentOk, SegmentText, LineText, WordTexts, GapsOk, WordsOk;
    r := parts.(word := [x] + parts.word);
    assert r.word[1..] == parts.word;
    var line := LineText(WordTexts(parts.words), parts.gaps);
    assert SegmentText(x) + (WordText(parts.word) + line) == SegmentText(x) + WordText(parts.word) + line;
  }

  lemma GapAhead(c: char, gaps: seq<string>)
    requires IsBlank(c) && GapsOk(gaps) && gaps != []
    ensures GapsOk([[c] + gaps[0]] + gaps[1..])
    ensures (|gaps| > 1 ==> gaps[0] != "") ==> GapsOk([[c]] + gaps)
  {
    assert forall x <- [c] + gaps[0] :: x == c || x in gaps[0];
  }

  lemma WordAhead(word: seq<Segment>, words: seq<seq<Segment>>)
    requires WordOk(word) && WordsOk(words)
    ensures WordsOk([word] + words) && WordTexts([word] + words) == [WordText(word)] + WordTexts(words)
  {
    hide WordOk, WordText;
  }

  // A blank in front ends the word before it.
  lemma BlankAhead(c: char, parts: Parts, chars: string) returns (r: Parts)
    requires IsBlank(c) && Cuts(parts, chars)
    ensures Cuts(r, [c] + chars)
  {
    hide *;
    CutsCases(parts, chars);
    GapAhead(c, parts.gaps);
    var texts := WordTexts(parts.words);
    if parts.word == [] {
      r := Parts([], parts.words, [[c] + parts.gaps[0]] + parts.gaps[1..]);
      LineWiden([c], texts, parts.gaps);
      Assoc("", "", LineText(texts, parts.gaps));
    } else {
      r := Parts([], [parts.word] + parts.words, [[c]] + parts.gaps);
      WordAhead(parts.word, parts.words);
      LineCons([c], WordText(parts.word), texts, parts.gaps);
    }
    WholeWords(r, [c] + chars);
  }

  lemma WholeWords(parts: Parts, chars: string)
    requires parts.word == [] && |parts.gaps| == |parts.words| + 1 && GapsOk(parts.gaps) && WordsOk(parts.words)
    requires parts.gaps[0] != "" && chars == LineText(WordTexts(parts.words), parts.gaps)
    ensures Cuts(parts, chars)
  {
    hide LineText, WordTexts, GapsOk, WordsOk;
    Assoc("", "", chars);
  }

  lemma NothingYet()
    ensures WordText([]) == "" && WordTexts([]) == [] && WordsOk([]) && GapsOk([""]) && LineText([], [""]) == ""
  {
  }

  // The segment a line starts with, if not with a blank.
  lemma FirstSegment(chars: string) returns (x: Segment, rest: string)
    requires Ends(chars, Bare) && chars != "" && !IsBlank(chars[0])
    ensures SegmentOk(x) && chars == SegmentText(x) + rest && Ends(rest, Bare) && |rest| < |chars|
  {
    var c, tail := chars[0], chars[1..];
    assert chars == [c] + tail;
    if c == '\'' {
      var text: string;
      text, rest := SingleParts(tail);
      x := SingleQuoted(text);
      assert "'" + text + "'" + rest == "'" + (text + ("'" + rest));
    } else if c == '"' {
      var pieces: seq<Piece>;
      pieces, rest := DoubleParts(tail);
      x := DoubleQuoted(pieces);
      assert "\"" + PiecesText(pieces) + "\"" + rest == "\"" + (PiecesText(pieces) + ("\"" + rest));
    } else if c == '\\' {
      x, rest := Backslash(tail[0]), tail[1..];
      assert chars == ['\\', tail[0]] + tail[1..];
    } else {
      x, rest := Plain(c), tail;
    }
    hide Ends, PiecesText, PiecesOk;
  }

  lemma FirstBlank(chars: string)
    requires Ends(chars, Bare) && chars != "" && IsBlank(chars[0])
    ensures chars == [chars[0]] + chars[1..] && Ends(chars[1..], Bare)
  {
  }

  lemma {:induction false} LineParts(chars: string) returns (r: Parts)
    requires Ends(chars, Bare)
    ensures Cuts(r, chars)
    decreases |chars|
  {
    hide *;
    if chars == "" {
      NothingCut();
      r := Parts([], [], [""]);
    } else if IsBlank(chars[0]) {
      FirstBlank(chars);
      var more := LineParts(chars[1..]);
      r := BlankAhead(chars[0], more, chars[1..]);
    } else {
      var x, rest := FirstSegment(chars);
      var more := LineParts(rest);
      r := GrowWord(x, more, rest);
    }
  }

  lemma NothingCut()
    ensures Cuts(Parts([], [], [""]), "")
  {
    hide WordText, WordTexts, WordsOk, GapsOk, LineText;
    NothingYet();
  }

  // A text that ends outside quotes is a line of legal words and gaps.
  lemma LineOf(s: string) returns (words: seq<seq<Segment>>, gaps: seq<string>)
    requires Ends(s, Bare)
    ensures |gaps| == |words| + 1 && GapsOk(gaps) && WordsOk(words) && s == LineText(WordTexts(words), gaps)
  {
    hide *;
    var parts := LineParts(s);
    CutsCases(parts, s);
    if parts.word == [] {
      words, gaps := parts.words, parts.gaps;
      Assoc("", "", LineText(WordTexts(words), gaps));
    } else {
      words, gaps := [parts.word] + parts.words, [""] + parts.gaps;
      WordAhead(parts.word, parts.words);
      LineCons("", WordText(parts.word), WordTexts(parts.words), parts.gaps);
      Assoc("", "", s);
    }
  }

  // ----- And only such lines end outside quotes -----

  // Passing over `text` outside quotes stays outside quotes.
  ghost predicate Neutral(text: string) {
    forall rest :: Ends(text + rest, Bare) <==> Ends(rest, Bare)
  }

  lemma {:induction false} SingleEnds(text: string, rest: string)
    requires '\'' !in text
    ensures Ends(text + ("'" + rest), Single) <==> Ends(rest, Bare)
    decreases |text|
  {
    var chars := text + ("'" + rest);
    if text == "" {
      assert chars[0] == '\'' && chars[1..] == rest;
    } else {
      assert chars[0] == text[0] && chars[1..] == text[1..] + ("'" + rest);
      SingleEnds(text[1..], rest);
    }
  }

  lemma {:induction false} DoubleEnds(pieces: seq<Piece>, rest: string)
    requires PiecesOk(pieces)
    ensures Ends(PiecesText(pieces) + ("\"" + rest), Double) <==> Ends(rest, Bare)
    decreases |pieces|
  {
    var chars := PiecesText(pieces) + ("\"" + rest);
    if pieces == [] {
      assert chars[0] == '"' && chars[1..] == rest;
    } else {
      var p, more := pieces[0], PiecesText(pieces[1..]) + ("\"" + rest);
      assert chars == PieceText(p) + more;
      DoubleEnds(pieces[1..], rest);
      if p.Escape? {
        assert chars[0] == '\\' && chars[1] == p.c && chars[1..][1..] == more;
      } else {
        if p.c == '\\' {
          assert more[0] == pieces[1].c;
        }
        assert chars[0] == p.c && chars[1..] == more;
      }
    }
  }

  lemma SegmentEnds(x: Segment, rest: string)
    requires SegmentOk(x)
    ensures Ends(SegmentText(x) + rest, Bare) <==> Ends(rest, Bare)
  {
    match x {
      case Plain(c) => PlainEnds(c, rest);
      case Backslash(c) => BackslashEnds(c, rest);
      case SingleQuoted(text) =>
        SingleEnds(text, rest);
        var more := text + ("'" + rest);
        assert "'" + text + "'" + rest == "'" + more;
        OpenEnds('\'', more);
        hide Ends;
      case DoubleQuoted(pieces) =>
        DoubleEnds(pieces, rest);
        var more := PiecesText(pieces) + ("\"" + rest);
        assert "\"" + PiecesText(pieces) + "\"" + rest == "\"" + more;
        OpenEnds('"', more);
        hide Ends;
    }
  }

  lemma PlainEnds(c: char, rest: string)
    requires c !in {'\'', '"', '\\'}
    ensures Ends([c] + rest, Bare) <==> Ends(rest, Bare)
  {
    assert ([c] + rest)[1..] == rest;
  }

  lemma BackslashEnds(c: char, rest: string)
    ensures Ends(['\\', c] + rest, Bare) <==> Ends(rest, Bare)
  {
    var chars := ['\\', c] + rest;
    assert chars[1..] == [c] + rest && chars[1..][1..] == rest;
  }

  lemma OpenEnds(quote: char, more: string)
    requires quote in {'\'', '"'}
    ensures Ends([quote] + more, Bare) <==> Ends(more, if quote == '"' then Double else Single)
  {
    assert ([quote] + more)[1..] == more;
  }

  lemma SegmentNeutral(x: Segment)
    requires SegmentOk(x)
    ensures Neutral(SegmentText(x))
  {
    hide Ends, SegmentText;
    forall rest ensures Ends(SegmentText(x) + rest, Bare) <==> Ends(rest, Bare) {
      SegmentEnds(x, rest);
    }
  }

  lemma NeutralConcat(a: string, b: string)
    requires Neutral(a) && Neutral(b)
    ensures Neutral(a + b)
  {
    hide Ends;
    forall rest ensures Ends(a + b + rest, Bare) <==> Ends(rest, Bare) {
      assert a + b + rest == a + (b + rest);
    }
  }

  lemma NothingNeutral()
    ensures Neutral("")
  {
    hide Ends;
    forall rest ensures Ends("" + rest, Bare) <==> Ends(rest, Bare) {
      assert "" + rest == rest;
    }
  }

  lemma {:induction false} GapNeutral(gap: string)
    requires forall i | 0 <= i < |gap| :: IsBlank(gap[i])
    ensures Neutral(gap)
  {
    if gap == "" {
      NothingNeutral();
    } else {
      GapNeutral(gap[1..]);
      forall rest ensures Ends(gap + rest, Bare) <==> Ends(rest, Bare) {
        assert (gap + rest)[0] == gap[0] && (gap + rest)[1..] == gap[1..] + rest;
      }
    }
  }

  lemma {:induction false} WordNeutral(word: seq<Segment>)
    requires forall j | 0 <= j < |word| :: SegmentOk(word[j])
    ensures Neutral(WordText(word))
  {
    hide Neutral, SegmentOk, SegmentText;
    if word == [] {
      NothingNeutral();
    } else {
      SegmentNeutral(word[0]);
      WordNeutral(word[1..]);
      NeutralConcat(SegmentText(word[0]), WordText(word[1..]));
    }
  }

  lemma {:induction false} LineNeutral(texts: seq<string>, gaps: seq<string>)
    requires |gaps| == |texts| + 1 && forall i | 0 <= i < |texts| :: Neutral(texts[i])
    requires forall i | 0 <= i < |gaps| :: forall c <- gaps[i] :: IsBlank(c)
    ensures Neutral(LineText(texts, gaps))
    decreases |texts|
  {
    hide Neutral;
    var n := |texts|;
    GapNeutral(gaps[n]);
    if n == 0 {
    } else {
      LineNeutral(texts[..n - 1], gaps[..n]);
      NeutralConcat(texts[n - 1], gaps[n]);
      NeutralConcat(LineText(texts[..n - 1], gaps[..n]), texts[n - 1] + gaps[n]);
    }
  }

  lemma NeutralEnds(text: string)
    requires Neutral(text)
    ensures Ends(text, Bare)
  {
    assert text + "" == text && Ends("", Bare);
    hide Ends;
  }

  // What the grammar covers: exactly the texts that end outside quotes and
  // not after a lone backslash.
  lemma LinesExactly(s: string)
    ensures Ends(s, Bare) <==>
      exists words, gaps ::
        |gaps| == |words| + 1 && GapsOk(gaps) && WordsOk(words) && s == LineText(WordTexts(words), gaps)
  {
    hide *;
    if Ends(s, Bare) {
      var words, gaps := LineOf(s);
    }
    if words, gaps :| |gaps| == |words| + 1 && GapsOk(gaps) && WordsOk(words) && s == LineText(WordTexts(words), gaps) {
      LineEnds(words, gaps);
    }
  }

  lemma LineEnds(words: seq<seq<Segment>>, gaps: seq<string>)
    requires |gaps| == |words| + 1 && GapsOk(gaps) && WordsOk(words)
    ensures Ends(LineText(WordTexts(words), gaps), Bare)
  {
    hide Neutral, LineText, WordTexts, WordText, SegmentOk, Ends;
    var texts := WordTexts(words);
    forall i | 0 <= i < |texts| ensures Neutral(texts[i]) {
      assert WordOk(words[i]);
      WordNeutral(words[i]);
    }
    LineNeutral(texts, gaps);
    NeutralEnds(LineText(texts, gaps));
  }

  // ----- Every other text is read as if it were finished -----

  // The missing quote is added, in double quotes after another backslash if
  // one stands last; a lone backslash outside quotes is dropped.
  function Completed(chars: string, e: Ending): string
    requires e.LoneBackslash? ==> chars != ""
  {
    match e
    case Outside => chars
    case LoneBackslash => chars[..|chars| - 1]
    case OpenSingle => chars + "'"
    case OpenDouble => chars + "\""
    case OpenBackslash => chars + "\\\""
  }

  function Finish(s: string): string {
    Completed(s, EndingOf(s, Bare))
  }

  lemma CompletedTail(lead: string, rest: string, e: Ending)
    requires e.LoneBackslash? ==> rest != ""
    ensures Completed(lead + rest, e) == lead + Completed(rest, e)
  {
  }

  // One turn of the pass, which takes a backslash outside single quotes together
  // with what follows it, does the same whatever comes after; inside quotes a
  // word is open.
  lemma TurnRun(lead: string, args: seq<string>, cur: string, hasCur: bool, mode: Mode)
    returns (args': seq<string>, cur': string, hasCur': bool, mode': Mode)
    requires lead != "" && |lead| == if lead[0] == '\\' && !mode.Single? then 2 else 1
    ensures mode'.Bare? || hasCur'
    ensures forall x :: Run(lead + x, args, cur, hasCur, mode) == Run(x, args', cur', hasCur', mode')
    ensures forall x :: EndingOf(lead + x, mode) == EndingOf(x, mode')
  {
    var c := lead[0];
    if |lead| == 2 {
      args', cur', hasCur', mode' := args, cur + EscapeMeaning(lead[1], mode), true, mode;
      forall x
        ensures Run(lead + x, args, cur, hasCur, mode) == Run(x, args', cur', hasCur', mode')
        ensures EndingOf(lead + x, mode) == EndingOf(x, mode')
      {
        BackslashTurn(lead[1], x, args, cur, hasCur, mode);
        assert lead == ['\\', lead[1]];
        hide Run, EndingOf;
      }
    } else {
      var ends := mode.Bare? && IsBlank(c);
      args' := if ends && hasCur then args + [cur] else args;
      mode' := ModeAfter(c, mode);
      cur' := if ends then if hasCur then "" else cur else if mode' != mode then cur else cur + [c];
      hasCur' := !ends;
      forall x
        ensures Run(lead + x, args, cur, hasCur, mode) == Run(x, args', cur', hasCur', mode')
        ensures EndingOf(lead + x, mode) == EndingOf(x, mode')
      {
        assert (lead + x)[0] == c && (lead + x)[1..] == x;
      }
    }
  }

  function ModeAfter(c: char, mode: Mode): Mode {
    if mode.Bare? && c == '\'' then Single
    else if mode.Bare? && c == '"' then Double
    else if (mode.Single? && c == '\'') || (mode.Double? && c == '"') then Bare
    else mode
  }

  // Inside double quotes a backslash stays, except before `"` and `\`.
  function EscapeMeaning(c: char, mode: Mode): string {
    if mode.Double? && c !in {'"', '\\'} then ['\\', c] else [c]
  }

  lemma BackslashTurn(c: char, x: string, args: seq<string>, cur: string, hasCur: bool, mode: Mode)
    requires !mode.Single?
    ensures var chars := ['\\', c] + x;
      && Run(chars, args, cur, hasCur, mode) == Run(x, args, cur + EscapeMeaning(c, mode), true, mode)
      && EndingOf(chars, mode) == EndingOf(x, mode)
  {
    var chars := ['\\', c] + x;
    assert chars[0] == '\\' && chars[1] == c && chars[1..] == [c] + x && chars[1..][1..] == x;
    assert ([c] + x)[0] == c && ([c] + x)[1..] == x;
    assert cur + ['\\'] + [c] == cur + ['\\', c];
  }

  lemma {:induction false} FinishedRun(chars: string, args: seq<string>, cur: string, hasCur: bool, mode: Mode)
    requires mode.Bare? || hasCur
    ensures var full := Completed(chars, EndingOf(chars, mode));
      && Run(full, args, cur, hasCur, mode) == Run(chars, args, cur, hasCur, mode)
      && Ends(full, mode)
      && (full == chars <==> Ends(chars, mode))
    decreases |chars|
  {
    hide *;
    var k := if chars != "" && chars[0] == '\\' && !mode.Single? then 2 else 1;
    if |chars| < k {
      FinishedShort(chars, args, cur, hasCur, mode);
    } else {
      var lead, rest := chars[..k], chars[k..];
      assert chars == lead + rest;
      var args', cur', hasCur', mode' := TurnRun(lead, args, cur, hasCur, mode);
      FinishedRun(rest, args', cur', hasCur', mode');
      var e := EndingOf(rest, mode');
      CompletedTail(lead, rest, e);
      var full := lead + Completed(rest, e);
      assert Run(full, args, cur, hasCur, mode) == Run(Completed(rest, e), args', cur', hasCur', mode');
      assert Run(lead + rest, args, cur, hasCur, mode) == Run(rest, args', cur', hasCur', mode');
      assert EndingOf(full, mode) == EndingOf(Completed(rest, e), mode') && EndingOf(lead + rest, mode) == e;
      EndsCases(full, mode);
      EndsCases(chars, mode);
      EndsCases(rest, mode');
      EndsCases(Completed(rest, e), mode');
      SameTail(lead, rest, Completed(rest, e));
    }
  }

  lemma EndsCases(chars: string, mode: Mode)
    ensures Ends(chars, mode) <==> EndingOf(chars, mode).Outside?
  {
    hide EndingOf;
  }

  lemma SameTail(lead: string, x: string, y: string)
    ensures lead + x == lead + y <==> x == y
  {
    assert (lead + x)[|lead|..] == x && (lead + y)[|lead|..] == y;
  }

  // Too little is left for another turn.
  lemma FinishedShort(chars: string, args: seq<string>, cur: string, hasCur: bool, mode: Mode)
    requires mode.Bare? || hasCur
    requires chars == "" || (chars == "\\" && !mode.Single?)
    ensures var full := Completed(chars, EndingOf(chars, mode));
      && Run(full, args, cur, hasCur, mode) == Run(chars, args, cur, hasCur, mode)
      && Ends(full, mode)
      && (full == chars <==> Ends(chars, mode))
  {
    if mode.Bare? {
    } else if chars == "" {
      QuoteEnds(args, cur, hasCur, mode);
    } else {
      BackslashTurn('\\', "\"", args, cur, hasCur, mode);
      QuoteEnds(args, cur + ['\\'], true, mode);
      assert ['\\', '\\'] + "\"" == "\\" + "\\\"";
    }
  }

  lemma QuoteEnds(args: seq<string>, cur: string, hasCur: bool, mode: Mode)
    requires !mode.Bare?
    ensures var quote := if mode.Single? then "'" else "\"";
      Run(quote, args, cur, hasCur, mode) == args + [cur] && EndingOf(quote, mode).Outside?
  {
    assert "'"[1..] == "" && "\""[1..] == "";
  }

  // What splitting does on every text, well-formed or not: the finished text
  // is a line of the grammar, the same line only if nothing was missing, and
  // the words are what its segments stand for.
  lemma EveryText(s: string) returns (words: seq<seq<Segment>>, gaps: seq<string>)
    ensures |gaps| == |words| + 1 && GapsOk(gaps) && WordsOk(words)
    ensures Finish(s) == LineText(WordTexts(words), gaps) && (Finish(s) == s <==> Ends(s, Bare))
    ensures Run(s, [], "", false, Bare) == WordMeanings(words)
  {
    hide *;
    FinishedRun(s, [], "", false, Bare);
    FinishCompletes(s);
    words, gaps := LineOf(Finish(s));
    SpellingsSplit(words, gaps);
  }

  lemma FinishCompletes(s: string)
    ensures Finish(s) == Completed(s, EndingOf(s, Bare))
  {
    hide EndingOf, Completed;
  }

  // ----- Quoting -----

  // A quote inside single quotes is written by leaving them: '"'"'
  function QuoteInner(word: string): string {
    if word == "" then ""
    else (if word[0] == '\'' then "'\"'\"'" else [word[0]]) + QuoteInner(word[1..])
  }

  function Quote(word: string): string {
    "'" + (QuoteInner(word) + "'")
  }

  lemma {:induction false} QuoteRun(word: string, rest: string, args: seq<string>, cur: string)
    ensures Run(QuoteInner(word) + ("'" + rest), args, cur, true, Single) == Run(rest, args, cur + word, true, Bare)
    decreases |word|
  {
    var chars := QuoteInner(word) + ("'" + rest);
    if word == "" {
      assert chars[0] == '\'' && chars[1..] == rest && cur + word == cur;
    } else {
      var c, more := word[0], QuoteInner(word[1..]) + ("'" + rest);
      QuoteRun(word[1..], rest, args, cur + [c]);
      assert cur + [c] + word[1..] == cur + word;
      if c == '\'' {
        assert chars == "'\"'\"'" + more;
        LeaveQuotes(more, args, cur);
      } else {
        assert chars == [c] + more && chars[1..] == more;
      }
    }
  }

  lemma LeaveQuotes(more: string, args: seq<string>, cur: string)
    ensures Run("'\"'\"'" + more, args, cur, true, Single) == Run(more, args, cur + ['\''], true, Single)
  {
    var a := "'\"'\"'" + more;
    var b, c, d, e := a[1..], a[2..], a[3..], a[4..];
    assert b[1..] == c && c[1..] == d && d[1..] == e && e[1..] == more;
    assert Run(a, args, cur, true, Single) == Run(b, args, cur, true, Bare);
    assert Run(b, args, cur, true, Bare) == Run(c, args, cur, true, Double);
    assert Run(c, args, cur, true, Double) == Run(d, args, cur + ['\''], true, Double);
    assert Run(d, args, cur + ['\''], true, Double) == Run(e, args, cur + ['\''], true, Bare);
  }

  lemma QuoteSpells(word: string)
    ensures Spells(Quote(word), word)
  {
    forall rest, args, cur, hasCur
      ensures Run(Quote(word) + rest, args, cur, hasCur, Bare) == Run(rest, args, cur + word, true, Bare)
    {
      var chars := Quote(word) + rest;
      assert chars == "'" + (QuoteInner(word) + ("'" + rest));
      assert chars[1..] == QuoteInner(word) + ("'" + rest);
      QuoteRun(word, rest, args, cur);
    }
  }

  // Exactly what ends a word outside quotes: a blank, a tab or a line break.
  // Any other character that does not quote joins what stands around it.
  lemma Separators(c: char, a: string, b: string)
    requires c !in {'\'', '"', '\\'}
    ensures Run(Quote(a) + ([c] + Quote(b)), [], "", false, Bare) ==
      if c == ' ' || c == '\t' || c == '\n' then [a, b] else [a + ([c] + b)]
  {
    hide Run, Quote, Spells, IsBlank;
    QuoteSpells(a);
    QuoteSpells(b);
    Assoc("", "", a);
    Assoc("", "", b);
    UseSpells(Quote(a), a, [c] + Quote(b), [], "", false);
    BlankCases(c);
    Assoc([], [], Quote(b));
    if IsBlank(c) {
      EndOfWord([c], Quote(b), [], a);
      Assoc([], [], [a]);
      UseSpells(Quote(b), b, "", [a], "", false);
      LastWord([a, b]);
      assert [a, b][..1] == [a];
    } else {
      PlainRun(c, Quote(b), [], a, true);
      UseSpells(Quote(b), b, "", [], a + [c], true);
      LastWord([a + [c] + b]);
      Assoc(a, [c], b);
      assert [a + [c] + b][..0] == [];
    }
  }

  lemma BlankCases(c: char)
    ensures IsBlank(c) <==> c == ' ' || c == '\t' || c == '\n'
  {
  }

  function Quoted(words: seq<string>): (r: seq<string>)
    ensures |r| == |words| && forall i | 0 <= i < |r| :: r[i] == Quote(words[i])
  {
    seq(|words|, i requires 0 <= i < |words| => Quote(words[i]))
  }

  // One blank between words and none around them.
  function SingleGaps(n: nat): (gaps: seq<string>)
    ensures |gaps| == n + 1
    ensures forall i | 0 <= i <= n :: gaps[i] == if 0 < i < n then " " else ""
  {
    seq(n + 1, i => if 0 < i < n then " " else "")
  }

  lemma {:induction false} JoinSnoc(parts: seq<string>, x: string, c: char)
    requires parts != []
    ensures Join(parts + [x], c) == Join(parts, c) + ([c] + x)
  {
    JoinConcat(parts, [x], c);
    assert Join([x], c) == x;
    assert Join(parts, c) + [c] + x == Join(parts, c) + ([c] + x);
  }

  // A joined list is such a line, but for the blank at its end.
  lemma {:induction false} JoinedLine(texts: seq<string>, gaps: seq<string>)
    requires |texts| > 0 && |gaps| == |texts| + 1 && gaps[0] == ""
    requires forall i | 0 < i < |texts| :: gaps[i] == " "
    ensures LineText(texts, gaps) == Join(texts, ' ') + gaps[|texts|]
    decreases |texts|
  {
    var n := |texts|;
    SnocLast(texts);
    if n == 1 {
      assert texts[..0] == [] && "" + (texts[0] + gaps[1]) == texts[0] + gaps[1];
    } else {
      JoinedLine(texts[..n - 1], gaps[..n]);
      JoinSnoc(texts[..n - 1], texts[n - 1], ' ');
      assert Join(texts[..n - 1], ' ') + " " + (texts[n - 1] + gaps[n]) ==
        Join(texts[..n - 1], ' ') + ([' '] + texts[n - 1]) + gaps[n];
    }
  }

  // Quoting each word and joining with blanks splits back into the words, for
  // every list of words whatever their characters, empty words included.
  lemma SplitQuoted(words: seq<string>)
    ensures Run(Join(Quoted(words), ' '), [], "", false, Bare) == words
  {
    var texts, gaps := Quoted(words), SingleGaps(|words|);
    forall i | 0 <= i < |words| ensures Spells(texts[i], words[i]) {
      QuoteSpells(words[i]);
    }
    if words == [] {
      RunOut(words);
    } else {
      hide Run, Spells, Quote, SingleGaps, LineText;
      JoinedLine(texts, gaps);
      assert Join(texts, ' ') + "" == Join(texts, ' ');
      LineSplits(texts, words, gaps);
    }
  }
}
