// The line patterns of the bash environment filter.  A line is the text up to
// and including its line break, so a break stands only at its end.
module BashPatterns {
  import opened Wrappers
  import opened Text
  import opened BashLines
  import opened BashEnvironment
  import opened BashSegments

  // ----- `name=` after an optional `declare` or `export` -----

  // `[^=\s]+`
  ghost predicate IsVarName(s: string) {
    s != "" && AllIn(VarChar, s)
  }

  // A name and what follows its `=`.
  function NameAt(t: string): (r: Option<(string, string)>)
    ensures r.Some? ==> IsVarName(r.value.0) && t == r.value.0 + ("=" + r.value.1)
  {
    var n := Span(VarChar, t);
    if n == 0 || n == |t| || t[n] != '=' then None else Some((t[..n], t[n + 1..]))
  }

  lemma NameAtOf(name: string, rest: string)
    requires IsVarName(name)
    ensures NameAt(name + ("=" + rest)) == Some((name, rest))
  {
    SpanOf(VarChar, name, "=" + rest);
    var t := name + ("=" + rest);
    assert t[..|name|] == name && t[|name|] == '=' && t[|name| + 1..] == rest;
  }

  datatype Lead =
    | NoLead
    | Options(gap: string, opts: string, gap2: string)   // declare -opts
    | Keyword(word: string, gap: string)                 // declare or export

  predicate LeadOk(lead: Lead) {
    match lead
    case NoLead => true
    case Options(gap, opts, gap2) =>
      gap != "" && AllBlank(gap, true) && opts != "" && AllBlank(opts, false) && gap2 != "" && AllBlank(gap2, true)
    case Keyword(word, gap) => word in {"declare", "export"} && gap != "" && AllBlank(gap, true)
  }

  function LeadText(lead: Lead): string {
    match lead
    case NoLead => ""
    case Options(gap, opts, gap2) => "declare" + (gap + ("-" + (opts + gap2)))
    case Keyword(word, gap) => word + gap
  }

  // What follows `word\s+`.
  function AfterWord(line: string, word: string): (r: Option<(Lead, string)>)
    requires word in {"declare", "export"}
    ensures r.Some? ==> LeadOk(r.value.0) && LeadText(r.value.0) + r.value.1 == line
  {
    var s := Strip(line, word);
    if s.None? then None
    else
      var (gap, rest) := Break(s.value, true);
      assert word + (gap + rest) == word + gap + rest;
      if gap == "" then None else Some((Keyword(word, gap), rest))
  }

  // What follows `declare\s+-\S+\s+`.
  function AfterOptions(line: string): (r: Option<(Lead, string)>)
    ensures r.Some? ==> LeadOk(r.value.0) && LeadText(r.value.0) + r.value.1 == line
  {
    var s := Strip(line, "declare");
    if s.None? then None
    else
      var (gap, t) := Break(s.value, true);
      var u := Strip(t, "-");
      if gap == "" || u.None? then None
      else
        var (opts, v) := Break(u.value, false);
        var (gap2, rest) := Break(v, true);
        OptionsAssoc(gap, opts, gap2, rest);
        if opts == "" || gap2 == "" then None else Some((Options(gap, opts, gap2), rest))
  }

  lemma OptionsAssoc(gap: string, opts: string, gap2: string, rest: string)
    ensures LeadText(Options(gap, opts, gap2)) + rest == "declare" + (gap + ("-" + (opts + (gap2 + rest))))
  {
    assert opts + gap2 + rest == opts + (gap2 + rest);
    assert "-" + (opts + gap2) + rest == "-" + (opts + (gap2 + rest));
    assert gap + ("-" + (opts + gap2)) + rest == gap + ("-" + (opts + (gap2 + rest)));
    assert "declare" + (gap + ("-" + (opts + gap2))) + rest == "declare" + (gap + ("-" + (opts + (gap2 + rest))));
  }

  // The lead is taken off when what follows does not start with a blank.
  lemma LeadTaken(lead: Lead, rest: string)
    requires LeadOk(lead) && rest != "" && !IsSpace(rest[0])
    ensures lead.Options? ==> AfterOptions(LeadText(lead) + rest) == Some((lead, rest))
    ensures lead.Keyword? ==> AfterWord(LeadText(lead) + rest, lead.word) == Some((lead, rest))
  {
    hide AfterOptions, AfterWord, LeadText, AllBlank;
    match lead {
      case NoLead =>
      case Options(gap, opts, gap2) => OptionsTaken(gap, opts, gap2, rest);
      case Keyword(word, gap) => KeywordTaken(word, gap, rest);
    }
  }

  lemma KeywordTaken(word: string, gap: string, rest: string)
    requires word in {"declare", "export"} && gap != "" && AllBlank(gap, true)
    requires rest != "" && !IsSpace(rest[0])
    ensures AfterWord(LeadText(Keyword(word, gap)) + rest, word) == Some((Keyword(word, gap), rest))
  {
    hide Break, Strip, AllBlank, IsSpace;
    assert word + gap + rest == word + (gap + rest);
    StripOf(word, gap + rest);
    BreakOf(gap, rest, true);
  }

  lemma OptionsTaken(gap: string, opts: string, gap2: string, rest: string)
    requires gap != "" && AllBlank(gap, true) && opts != "" && AllBlank(opts, false) && gap2 != ""
      && AllBlank(gap2, true)
    requires rest != "" && !IsSpace(rest[0])
    ensures AfterOptions(LeadText(Options(gap, opts, gap2)) + rest) == Some((Options(gap, opts, gap2), rest))
  {
    hide *;
    OptionsAssoc(gap, opts, gap2, rest);
    var v := gap2 + rest;
    var t := "-" + (opts + v);
    BlankStart(gap2, true);
    ConcatFirst(gap2, rest);
    ConcatFirst("-", opts + v);
    BreakOf(gap2, rest, true);
    BreakOf(opts, v, false);
    BreakOf(gap, t, true);
    StripOf("declare", gap + t);
    StripOf("-", opts + v);
    OptionsSteps(LeadText(Options(gap, opts, gap2)) + rest, gap, opts, gap2, v, rest);
  }

  lemma OptionsSteps(line: string, gap: string, opts: string, gap2: string, v: string, rest: string)
    requires Strip(line, "declare") == Some(gap + ("-" + (opts + v)))
    requires Break(gap + ("-" + (opts + v)), true) == (gap, "-" + (opts + v))
    requires Strip("-" + (opts + v), "-") == Some(opts + v)
    requires Break(opts + v, false) == (opts, v) && Break(v, true) == (gap2, rest)
    requires gap != "" && opts != "" && gap2 != ""
    ensures AfterOptions(line) == Some((Options(gap, opts, gap2), rest))
  {
    hide Break, Strip;
  }

  // The quote that opens the value, and the text after it.
  function AssignmentOf(name: string, value: string): Assignment {
    if value == "" then Assignment(name, None, "")
    else Assignment(name, if value[0] in {'"', '\''} then Some(value[0]) else None, value[1..])
  }

  // `name=` after one lead.
  function NameAfter(lead: Option<(Lead, string)>): Option<Assignment> {
    if lead.None? then None
    else
      var r := NameAt(lead.value.1);
      if r.None? then None else Some(AssignmentOf(r.value.0, r.value.1))
  }

  // `(^|^declare\s+-\S+\s+|^declare\s+|^export\s+)([^=\s]+)=("|\')?.*$`, the
  // leads tried in this order.
  function MatchAssignment(line: string): Option<Assignment> {
    var plain := NameAfter(Some((NoLead, line)));
    var options := NameAfter(AfterOptions(line));
    var declared := NameAfter(AfterWord(line, "declare"));
    if plain.Some? then plain
    else if options.Some? then options
    else if declared.Some? then declared
    else NameAfter(AfterWord(line, "export"))
  }

  ghost predicate IsAssignment(line: string, lead: Lead, name: string, value: string) {
    LeadOk(lead) && IsVarName(name) && line == LeadText(lead) + (name + ("=" + value))
  }

  lemma NameAfterMeaning(lead: Option<(Lead, string)>, line: string)
    requires lead.Some? ==> LeadOk(lead.value.0) && LeadText(lead.value.0) + lead.value.1 == line
    requires NameAfter(lead).Some?
    ensures var (name, value) := NameAt(lead.value.1).value;
      IsAssignment(line, lead.value.0, name, value) && NameAfter(lead) == Some(AssignmentOf(name, value))
  {
    hide LeadOk, LeadText, IsVarName, AssignmentOf;
  }

  // A value and what is captured of it: the quote it starts with and the text
  // after that quote, or no quote.
  ghost predicate ValueParts(value: string, quote: Option<char>, rest: string) {
    if quote.Some? then quote.value in {'"', '\''} && value == [quote.value] + rest
    else value == "" || value[0] !in {'"', '\''}
  }

  ghost predicate Captures(line: string, name: string, value: string) {
    var a := MatchAssignment(line);
    a.Some? && a.value.name == name && ValueParts(value, a.value.quote, a.value.afterQuote)
  }

  lemma CapturedParts(line: string, name: string, value: string)
    requires MatchAssignment(line) == Some(AssignmentOf(name, value))
    ensures Captures(line, name, value)
  {
    hide MatchAssignment;
    if value != "" {
      ConsFirst(value);
    }
  }

  // Whatever the pattern matches is an assignment with the captured parts.
  lemma AssignmentSound(line: string) returns (lead: Lead, name: string, value: string)
    requires MatchAssignment(line).Some?
    ensures Preferred(line, lead, name, value) && Captures(line, name, value)
  {
    hide *;
    lead, name, value := MatchedAs(line);
    CapturedParts(line, name, value);
    if lead.Keyword? && lead.word == "declare" {
      OptionsReadings(line);
    }
    IntroPreferred(line, lead, name, value);
  }

  // The reading of a line that counts: `declare -opts` comes before `declare`.
  ghost predicate Preferred(line: string, lead: Lead, name: string, value: string) {
    && IsAssignment(line, lead, name, value)
    && (lead.Keyword? && lead.word == "declare" ==> !ReadsOptions(line))
  }

  ghost predicate ReadsOptions(line: string) {
    exists lead, name, value :: IsAssignment(line, lead, name, value) && lead.Options?
  }

  lemma IntroPreferred(line: string, lead: Lead, name: string, value: string)
    requires IsAssignment(line, lead, name, value)
    requires lead.Keyword? && lead.word == "declare" ==> !ReadsOptions(line)
    ensures Preferred(line, lead, name, value)
  {
    hide IsAssignment, ReadsOptions;
  }

  lemma OptionsReadings(line: string)
    ensures NameAfter(AfterOptions(line)).Some? <==> ReadsOptions(line)
  {
    hide IsAssignment, NameAfter, AfterOptions, AfterWord, LeadOk, LeadText, NameAt, AssignmentOf;
    if NameAfter(AfterOptions(line)).Some? {
      OptionsLead(line);
      NameAfterSome(AfterOptions(line));
      NameAfterMeaning(AfterOptions(line), line);
    }
    if ReadsOptions(line) {
      var lead, name, value :| IsAssignment(line, lead, name, value) && lead.Options?;
      AssignmentParts(line, lead, name, value);
      NameAtOf(name, value);
      LeadTaken(lead, name + ("=" + value));
      NameAfterSome(AfterOptions(line));
    }
  }

  lemma NameAfterSome(lead: Option<(Lead, string)>)
    ensures NameAfter(lead).Some? <==> lead.Some? && NameAt(lead.value.1).Some?
  {
    hide NameAt, AssignmentOf;
  }

  lemma MatchedAs(line: string) returns (lead: Lead, name: string, value: string)
    requires MatchAssignment(line).Some?
    ensures IsAssignment(line, lead, name, value) && MatchAssignment(line) == Some(AssignmentOf(name, value))
    ensures lead.Keyword? && lead.word == "declare" ==> NameAfter(AfterOptions(line)).None?
  {
    OptionsLead(line);
    KeywordLead(line, "declare");
    KeywordLead(line, "export");
    var plain: Option<(Lead, string)> := Some((NoLead, line));
    assert LeadText(NoLead) + line == line;
    var options, declared, exported := AfterOptions(line), AfterWord(line, "declare"), AfterWord(line, "export");
    var found := if NameAfter(plain).Some? then plain
      else if NameAfter(options).Some? then options
      else if NameAfter(declared).Some? then declared
      else exported;
    assert NameAfter(found) == MatchAssignment(line) by {
      hide NameAfter, AfterOptions, AfterWord;
    }
    hide NameAfter, AfterOptions, AfterWord, IsAssignment, AssignmentOf;
    NameAfterMeaning(found, line);
    lead := found.value.0;
    name, value := NameAt(found.value.1).value.0, NameAt(found.value.1).value.1;
  }

  // And every assignment is matched.
  lemma AssignmentComplete(line: string, lead: Lead, name: string, value: string)
    requires IsAssignment(line, lead, name, value)
    ensures MatchAssignment(line).Some?
  {
    hide *;
    AssignmentParts(line, lead, name, value);
    NameAtOf(name, value);
    LeadTaken(lead, name + ("=" + value));
    MatchFound(line, lead, name + ("=" + value));
  }

  lemma AssignmentParts(line: string, lead: Lead, name: string, value: string)
    requires IsAssignment(line, lead, name, value)
    ensures var t := name + ("=" + value);
      && LeadOk(lead) && IsVarName(name) && t != "" && !IsSpace(t[0])
      && line == LeadText(lead) + t
      && (lead.NoLead? ==> line == t) && (lead.Keyword? ==> lead.word in {"declare", "export"})
  {
    hide AllBlank;
    var t := name + ("=" + value);
    assert t[0] == name[0] && Has(VarChar, name[0]);
    assert "" + t == t;
  }

  lemma MatchFound(line: string, lead: Lead, t: string)
    requires lead.NoLead? ==> line == t
    requires lead.Options? ==> AfterOptions(line) == Some((lead, t))
    requires lead.Keyword? ==> lead.word in {"declare", "export"} && AfterWord(line, lead.word) == Some((lead, t))
    requires NameAt(t).Some?
    ensures MatchAssignment(line).Some?
  {
    hide AfterOptions, AfterWord, NameAt, AssignmentOf;
  }

  // A lead keeps the line from starting with a name.
  lemma LeadIsNoName(lead: Lead, t: string)
    requires LeadOk(lead) && !lead.NoLead?
    ensures NameAt(LeadText(lead) + t).None?
  {
    hide *;
    var word, rest := LeadWord(lead, t);
    BlankAfterName(word, rest);
  }

  lemma LeadWord(lead: Lead, t: string) returns (word: string, rest: string)
    requires LeadOk(lead) && !lead.NoLead?
    ensures LeadText(lead) + t == word + rest
    ensures IsVarName(word) && rest != "" && IsSpace(rest[0])
  {
    hide AllBlank, IsSpace, IsVarName;
    KeywordNames();
    BlankStart(lead.gap, true);
    if lead.Options? {
      OptionsAssoc(lead.gap, lead.opts, lead.gap2, t);
      word, rest := "declare", lead.gap + ("-" + (lead.opts + (lead.gap2 + t)));
    } else {
      Assoc(lead.word, lead.gap, t);
      word, rest := lead.word, lead.gap + t;
    }
  }

  lemma KeywordNames()
    ensures IsVarName("declare") && IsVarName("export")
  {
  }

  lemma BlankAfterName(word: string, rest: string)
    requires IsVarName(word) && rest != "" && IsSpace(rest[0])
    ensures NameAt(word + rest).None?
  {
    hide AllIn;
    SpanOf(VarChar, word, rest);
    assert (word + rest)[|word|] == rest[0];
  }

  lemma ExportOnly(line: string)
    ensures AfterWord(line, "export").Some? ==> AfterOptions(line).None? && AfterWord(line, "declare").None?
  {
    hide Break;
    if Strip(line, "export").Some? {
      assert line[0] == 'e';
    }
  }

  // What the order of the leads decides: `declare -opts` is tried before
  // `declare`, and no other two leads compete.
  lemma AssignmentOrder(line: string, lead: Lead, name: string, value: string)
    requires IsAssignment(line, lead, name, value)
    ensures !(lead.Keyword? && lead.word == "declare") ==> Captures(line, name, value)
    ensures Captures(line, name, value) || ReadsOptions(line)
  {
    hide *;
    MatchedOrder(line, lead, name, value);
    OptionsReadings(line);
    if MatchAssignment(line) == Some(AssignmentOf(name, value)) {
      CapturedParts(line, name, value);
    }
  }

  lemma MatchedOrder(line: string, lead: Lead, name: string, value: string)
    requires IsAssignment(line, lead, name, value)
    ensures !(lead.Keyword? && lead.word == "declare") ==>
      MatchAssignment(line) == Some(AssignmentOf(name, value))
    ensures MatchAssignment(line) == Some(AssignmentOf(name, value)) || NameAfter(AfterOptions(line)).Some?
  {
    hide *;
    var t := name + ("=" + value);
    AssignmentParts(line, lead, name, value);
    NameAtOf(name, value);
    LeadTaken(lead, t);
    if !lead.NoLead? {
      LeadIsNoName(lead, t);
    }
    ExportOnly(line);
    OrderedMatch(line, lead, t, name, value);
  }

  lemma OrderedMatch(line: string, lead: Lead, t: string, name: string, value: string)
    requires NameAt(t) == Some((name, value))
    requires if lead.NoLead? then line == t else NameAt(line).None?
    requires lead.Options? ==> AfterOptions(line) == Some((lead, t))
    requires lead.Keyword? ==> lead.word in {"declare", "export"} && AfterWord(line, lead.word) == Some((lead, t))
    requires AfterWord(line, "export").Some? ==> AfterOptions(line).None? && AfterWord(line, "declare").None?
    ensures lead.Keyword? && lead.word == "declare" ==>
      MatchAssignment(line) == Some(AssignmentOf(name, value)) || NameAfter(AfterOptions(line)).Some?
    ensures !(lead.Keyword? && lead.word == "declare") ==> MatchAssignment(line) == Some(AssignmentOf(name, value))
  {
    hide AfterOptions, AfterWord, NameAt, AssignmentOf;
  }

  // ----- `declare` without assignment -----

  // A name, then nothing but blanks.
  function NameAlone(t: string): Option<string> {
    var n := Span(VarChar, t);
    if n > 0 && AllBlank(t[n..], true) then Some(t[..n]) else None
  }

  lemma NameAloneMeaning(t: string, name: string)
    ensures NameAlone(t) == Some(name) <==>
      IsVarName(name) && name <= t && AllBlank(t[|name|..], true)
  {
    if IsVarName(name) && name <= t && AllBlank(t[|name|..], true) {
      assert t == name + t[|name|..];
      SpanOf(VarChar, name, t[|name|..]);
    }
  }

  // `^declare(\s+-\S+)?\s+([^=\s]+)\s*$`, the option tried first.
  function MatchDeclaration(line: string): Option<string> {
    var options, declared := AfterOptions(line), AfterWord(line, "declare");
    var named := if options.Some? then NameAlone(options.value.1) else None;
    if named.Some? then named
    else if declared.Some? then NameAlone(declared.value.1)
    else None
  }

  ghost predicate IsDeclaration(line: string, lead: Lead, name: string, blanks: string) {
    && LeadOk(lead) && (lead.Options? || (lead.Keyword? && lead.word == "declare"))
    && IsVarName(name) && AllBlank(blanks, true) && line == LeadText(lead) + (name + blanks)
  }

  // Exactly which lines are declarations, and of which name.
  lemma DeclarationMeaning(line: string, name: string)
    ensures MatchDeclaration(line) == Some(name) <==> exists lead, blanks :: IsDeclaration(line, lead, name, blanks)
  {
    if MatchDeclaration(line) == Some(name) {
      DeclarationSound(line);
    }
    if exists lead, blanks :: IsDeclaration(line, lead, name, blanks) {
      var lead, blanks :| IsDeclaration(line, lead, name, blanks);
      DeclarationComplete(line, lead, name, blanks);
    }
  }

  lemma DeclarationSound(line: string)
    requires MatchDeclaration(line).Some?
    ensures exists lead, blanks :: IsDeclaration(line, lead, MatchDeclaration(line).value, blanks)
  {
    hide *;
    var name := MatchDeclaration(line).value;
    var lead, t := DeclarationLead(line);
    NameAloneMeaning(t, name);
    assert t == name + t[|name|..];
    IntroDeclaration(line, lead, name, t[|name|..]);
  }

  lemma IntroDeclaration(line: string, lead: Lead, name: string, blanks: string)
    requires LeadOk(lead) && (lead.Options? || (lead.Keyword? && lead.word == "declare"))
    requires IsVarName(name) && AllBlank(blanks, true) && line == LeadText(lead) + (name + blanks)
    ensures IsDeclaration(line, lead, name, blanks)
  {
  }

  // The lead the declaration was matched after.
  lemma DeclarationLead(line: string) returns (lead: Lead, t: string)
    requires MatchDeclaration(line).Some?
    ensures LeadOk(lead) && (lead.Options? || (lead.Keyword? && lead.word == "declare"))
    ensures LeadText(lead) + t == line && NameAlone(t) == MatchDeclaration(line)
  {
    hide AfterOptions, AfterWord, NameAlone, LeadOk, LeadText;
    var options, declared := AfterOptions(line), AfterWord(line, "declare");
    OptionsLead(line);
    KeywordLead(line, "declare");
    var found := if options.Some? && NameAlone(options.value.1).Some? then options else declared;
    lead, t := found.value.0, found.value.1;
  }

  lemma OptionsLead(line: string)
    ensures AfterOptions(line).Some? ==> AfterOptions(line).value.0.Options?
  {
    hide Break, Strip;
  }

  lemma KeywordLead(line: string, word: string)
    requires word in {"declare", "export"}
    ensures AfterWord(line, word).Some? ==>
      AfterWord(line, word).value.0.Keyword? && AfterWord(line, word).value.0.word == word
  {
    hide Break, Strip;
  }

  lemma DeclarationComplete(line: string, lead: Lead, name: string, blanks: string)
    requires IsDeclaration(line, lead, name, blanks)
    ensures MatchDeclaration(line) == Some(name)
  {
    var t := name + blanks;
    assert t[0] == name[0] && Has(VarChar, name[0]);
    LeadTaken(lead, t);
    assert t[|name|..] == blanks && name <= t;
    NameAloneMeaning(t, name);
    if lead.Keyword? {
      DashedName(line, lead.gap, name, blanks);
    }
    hide NameAlone, AfterOptions, AfterWord, LeadOk, LeadText, IsVarName, AllBlank;
  }

  // A name that looks like options is followed by nothing they could apply to.
  lemma DashedName(line: string, gap: string, name: string, blanks: string)
    requires gap != "" && AllBlank(gap, true) && IsVarName(name) && AllBlank(blanks, true)
    requires line == LeadText(Keyword("declare", gap)) + (name + blanks)
    ensures AfterOptions(line).Some? ==> NameAlone(AfterOptions(line).value.1).None?
  {
    assert line == "declare" + (gap + (name + blanks));
    DashedParts(name, blanks);
    assert AllBlank(name, false) && !IsSpace((name + blanks)[0]);
    hide *;
    StripOf("declare", gap + (name + blanks));
    BreakOf(gap, name + blanks, true);
    OptionsOf(line, gap, name + blanks);
    NoName();
  }

  // What the option pattern finds after the gap.
  lemma OptionsOf(line: string, gap: string, t: string)
    requires Strip(line, "declare") == Some(gap + t) && Break(gap + t, true) == (gap, t)
    requires Strip(t, "-").Some? ==> Break(Break(Strip(t, "-").value, false).1, true).1 == ""
    ensures AfterOptions(line).Some? ==> AfterOptions(line).value.1 == ""
  {
    hide Break, Strip;
  }

  lemma DashedParts(name: string, blanks: string)
    requires IsVarName(name) && AllBlank(blanks, true)
    ensures var u := Strip(name + blanks, "-");
      u.Some? ==> Break(Break(u.value, false).1, true).1 == ""
  {
    var t := name + blanks;
    if Strip(t, "-").Some? {
      assert t[0] == name[0];
      assert t == "-" + (name[1..] + blanks);
      StripOf("-", name[1..] + blanks);
      BreakOf(name[1..], blanks, false);
      BreakOf(blanks, "", true);
      assert blanks + "" == blanks;
    }
  }

  lemma NoName()
    ensures NameAlone("").None?
  {
  }

  // ----- Here-documents -----

  function DropBreak(line: string): string {
    if EndsWith(line, '\n') then line[..|line| - 1] else line
  }

  // The start of the run of word characters at the end.
  function WordStart(s: string): (n: nat)
    ensures n <= |s| && (forall i | n <= i < |s| :: Has(Word, s[i])) && (n > 0 ==> !Has(Word, s[n - 1]))
  {
    if s == "" || !Has(Word, s[|s| - 1]) then |s| else WordStart(s[..|s| - 1])
  }

  // `.*\s<<[-]?(\w+)$`
  function MatchHereDoc(line: string): Option<string> {
    var t := DropBreak(line);
    var n := WordStart(t);
    var m := if n > 0 && t[n - 1] == '-' then n - 1 else n;
    if n < |t| && m >= 3 && t[m - 1] == '<' && t[m - 2] == '<' && IsSpace(t[m - 3]) then Some(t[n..]) else None
  }

  // The line is this text, with a line break or without.
  ghost predicate IsLine(line: string, text: string) {
    line == text || line == text + "\n"
  }

  lemma DroppedBreak(line: string, text: string)
    requires text != "" ==> text[|text| - 1] != '\n'
    ensures DropBreak(line) == text <==> IsLine(line, text)
  {
    if line != "" {
      SnocLast(line);
    }
    assert (text + "\n")[..|text|] == text;
  }

  // The word, what stands before the arrows, and the dash or none.
  ghost predicate IsHereDoc(line: string, head: string, blank: char, dash: string, word: string) {
    && IsSpace(blank) && dash in {"", "-"} && word != "" && AllIn(Word, word)
    && IsLine(line, head + ([blank] + ("<<" + (dash + word))))
  }

  // A word at the end of a text is no line break.
  lemma WordLast(head: string, word: string)
    requires word != "" && AllIn(Word, word)
    ensures var t := head + word; t[|t| - 1] != '\n'
  {
    assert Has(Word, word[|word| - 1]);
  }

  lemma HereDocLine(line: string, head: string, blank: char, dash: string, word: string)
    requires word != "" && AllIn(Word, word)
    ensures var t := head + ([blank] + ("<<" + (dash + word))); DropBreak(line) == t <==> IsLine(line, t)
  {
    hide *;
    var t := head + ([blank] + ("<<" + (dash + word)));
    Assoc("<<", dash, word);
    Assoc([blank], "<<" + dash, word);
    Assoc(head, [blank] + ("<<" + dash), word);
    WordLast(head + ([blank] + ("<<" + dash)), word);
    DroppedBreak(line, t);
  }

  // Exactly which lines start a here-document, and with which delimiter.
  lemma HereDocMeaning(line: string, word: string)
    ensures MatchHereDoc(line) == Some(word) <==> exists head, blank, dash :: IsHereDoc(line, head, blank, dash, word)
  {
    if MatchHereDoc(line) == Some(word) {
      HereDocSound(line, word);
    }
    if exists head, blank, dash :: IsHereDoc(line, head, blank, dash, word) {
      var head, blank, dash :| IsHereDoc(line, head, blank, dash, word);
      HereDocComplete(line, head, blank, dash, word);
    }
  }

  lemma HereDocSound(line: string, word: string)
    requires MatchHereDoc(line) == Some(word)
    ensures exists head, blank, dash :: IsHereDoc(line, head, blank, dash, word)
  {
    hide *;
    var n, m := HereDocCuts(line, word);
    var t := DropBreak(line);
    ArrowCut(t, m, n);
    IntroHereDoc(line, t[..m - 3], t[m - 3], t[m..n], word);
  }

  // Where the dash and the word start.
  lemma HereDocCuts(line: string, word: string) returns (n: nat, m: nat)
    requires MatchHereDoc(line) == Some(word)
    ensures var t := DropBreak(line);
      && 3 <= m <= n < |t| && IsSpace(t[m - 3]) && t[m - 2] == '<' && t[m - 1] == '<'
      && t[m..n] in {"", "-"} && t[n..] == word && word != "" && AllIn(Word, word)
  {
    hide DropBreak, WordStart, IsSpace, Has;
    var t := DropBreak(line);
    n := WordStart(t);
    m := if n > 0 && t[n - 1] == '-' then n - 1 else n;
    WordAtEnd(t);
    DashBetween(t, m, n);
  }

  lemma WordAtEnd(t: string)
    ensures AllIn(Word, t[WordStart(t)..])
  {
    hide WordStart, Has;
  }

  lemma DashBetween(t: string, m: nat, n: nat)
    requires m <= n <= |t| && (m == n || (m + 1 == n && t[m] == '-'))
    ensures t[m..n] in {"", "-"}
  {
    assert m == n ==> t[m..n] == "";
    assert m < n ==> t[m..n] == "-";
  }

  lemma ArrowCut(t: string, m: nat, n: nat)
    requires 3 <= m <= n <= |t| && t[m - 2] == '<' && t[m - 1] == '<'
    ensures t == t[..m - 3] + ([t[m - 3]] + ("<<" + (t[m..n] + t[n..])))
  {
    assert t == t[..m - 3] + t[m - 3..];
    assert t[m - 3..] == [t[m - 3]] + t[m - 2..];
    assert t[m - 2..] == "<<" + t[m..];
    assert t[m..] == t[m..n] + t[n..];
  }

  lemma IntroHereDoc(line: string, head: string, blank: char, dash: string, word: string)
    requires IsSpace(blank) && dash in {"", "-"} && word != "" && AllIn(Word, word)
    requires DropBreak(line) == head + ([blank] + ("<<" + (dash + word)))
    ensures IsHereDoc(line, head, blank, dash, word)
  {
    HereDocLine(line, head, blank, dash, word);
    hide DropBreak, IsLine;
  }

  lemma WordStartOf(a: string, word: string)
    requires AllIn(Word, word) && a != "" && !Has(Word, a[|a| - 1])
    ensures WordStart(a + word) == |a|
  {
    var s := a + word;
    assert forall i | 0 <= i < |word| :: s[|a| + i] == word[i];
    assert s[|a| - 1] == a[|a| - 1];
  }

  // The same positions found from the parts.
  lemma ArrowParts(head: string, blank: char, dash: string, word: string)
    requires dash in {"", "-"}
    ensures var a := head + ([blank] + ("<<" + dash));
      var m := |a| - |dash|;
      && head + ([blank] + ("<<" + (dash + word))) == a + word
      && m >= 3 && a[m - 3] == blank && a[m - 2] == '<' && a[m - 1] == '<'
      && a[|a| - 1] == (if dash == "" then '<' else '-')
  {
    var a := head + ([blank] + ("<<" + dash));
    assert "<<" + (dash + word) == "<<" + dash + word;
    assert [blank] + ("<<" + dash + word) == [blank] + ("<<" + dash) + word;
    assert head + ([blank] + ("<<" + dash) + word) == a + word;
  }

  lemma HereDocFound(line: string, a: string, word: string, m: nat)
    requires DropBreak(line) == a + word && word != "" && WordStart(a + word) == |a|
    requires 3 <= m <= |a| && IsSpace(a[m - 3]) && a[m - 2] == '<' && a[m - 1] == '<'
    requires m == |a| || (m + 1 == |a| && a[m] == '-')
    ensures MatchHereDoc(line) == Some(word)
  {
    hide DropBreak, WordStart, IsSpace;
    var t := a + word;
    assert t[|a|..] == word;
    assert forall i | 0 <= i < |a| :: t[i] == a[i];
  }

  lemma HereDocComplete(line: string, head: string, blank: char, dash: string, word: string)
    requires IsHereDoc(line, head, blank, dash, word)
    ensures MatchHereDoc(line) == Some(word)
  {
    var a := head + ([blank] + ("<<" + dash));
    assert !Has(Word, '<') && !Has(Word, '-');
    HereDocParts(line, head, blank, dash, word);
    hide *;
    ArrowParts(head, blank, dash, word);
    WordStartOf(a, word);
    HereDocFound(line, a, word, |a| - |dash|);
  }

  lemma HereDocParts(line: string, head: string, blank: char, dash: string, word: string)
    requires IsHereDoc(line, head, blank, dash, word)
    ensures IsSpace(blank) && dash in {"", "-"} && word != "" && AllIn(Word, word)
    ensures DropBreak(line) == head + ([blank] + ("<<" + (dash + word)))
    ensures dash != "" ==> |dash| == 1
  {
    HereDocLine(line, head, blank, dash, word);
    hide IsSpace, AllIn, DropBreak, IsLine;
  }

  // ----- The patterns together -----

  // `^[-\w]+\s*\(\)\s*$`
  predicate IsFunctionStart(line: string) {
    var n := FunctionRun(line);
    var (gap, t) := Break(line[n..], true);
    n > 0 && Strip(t, "()").Some? && AllBlank(Strip(t, "()").value, true)
  }

  function FunctionRun(s: string): (n: nat)
    ensures n <= |s|
    ensures forall i | 0 <= i < n :: Has(RepoTail, s[i])
    ensures n < |s| ==> !Has(RepoTail, s[n])
  {
    Span(RepoTail, s)
  }

  ghost predicate FunctionForm(line: string, name: string, gap: string, blanks: string) {
    && name != "" && AllIn(RepoTail, name) && AllBlank(gap, true) && AllBlank(blanks, true)
    && line == name + (gap + ("()" + blanks))
  }

  // Exactly which lines start a function.
  lemma FunctionStartMeaning(line: string)
    ensures IsFunctionStart(line) <==> exists name, gap, blanks :: FunctionForm(line, name, gap, blanks)
  {
    if IsFunctionStart(line) {
      var n := FunctionRun(line);
      var (gap, t) := Break(line[n..], true);
      var blanks := Strip(t, "()").value;
      assert line == line[..n] + line[n..];
      hide Break, Strip, AllBlank, FunctionRun;
      assert FunctionForm(line, line[..n], gap, blanks);
    }
    if exists name, gap, blanks :: FunctionForm(line, name, gap, blanks) {
      var name, gap, blanks :| FunctionForm(line, name, gap, blanks);
      FunctionFormMatched(line, name, gap, blanks);
    }
  }

  lemma FunctionFormMatched(line: string, name: string, gap: string, blanks: string)
    requires FunctionForm(line, name, gap, blanks)
    ensures IsFunctionStart(line)
  {
    var t := "()" + blanks;
    var rest := gap + t;
    assert rest[0] == (if gap == "" then '(' else gap[0]);
    assert !Has(RepoTail, rest[0]);
    SpanOf(RepoTail, name, rest);
    assert line[|name|..] == rest;
    BreakOf(gap, t, true);
    StripOf("()", blanks);
    hide Break, Strip, AllBlank, Span;
  }

  // `^\}$`
  predicate IsFunctionEnd(line: string) {
    DropBreak(line) == "}"
  }

  // `^delim$`
  predicate IsHereDocEnd(delim: string, line: string) {
    DropBreak(line) == delim
  }

  // The filter's patterns; which names are filtered is the caller's choice.
  function LinePatterns(filtered: string -> bool): Patterns {
    Patterns(MatchAssignment, MatchDeclaration, MatchHereDoc, IsHereDocEnd, IsFunctionStart, IsFunctionEnd, filtered)
  }

  // What each pattern says of a line, whichever names are filtered.
  lemma PatternsMeaning(filtered: string -> bool, line: string, name: string, delim: string)
    requires '\n' !in delim
    ensures var p := LinePatterns(filtered);
      && p.filtered(name) == filtered(name)
      && (p.assignment(line).Some? <==> exists lead, n, value :: IsAssignment(line, lead, n, value))
      && (p.declaration(line) == Some(name) <==> exists lead, blanks :: IsDeclaration(line, lead, name, blanks))
      && (p.hereDoc(line) == Some(name) <==> exists head, blank, dash :: IsHereDoc(line, head, blank, dash, name))
      && (p.hereDocEnd(delim, line) <==> line == delim || line == delim + "\n")
      && (p.functionStart(line) <==> exists n, gap, blanks :: FunctionForm(line, n, gap, blanks))
      && (p.functionEnd(line) <==> line == "}" || line == "}\n")
  {
    hide *;
    TakenPatterns(filtered);
    DeclarationMeaning(line, name);
    HereDocMeaning(line, name);
    FunctionStartMeaning(line);
    DroppedBreak(line, delim);
    DroppedBreak(line, "}");
    EndLines(delim, line);
    if MatchAssignment(line).Some? {
      var lead, n, value := MatchedAs(line);
    }
    forall lead, n, value | IsAssignment(line, lead, n, value) ensures MatchAssignment(line).Some? {
      AssignmentComplete(line, lead, n, value);
    }
  }

  lemma TakenPatterns(filtered: string -> bool)
    ensures var p := LinePatterns(filtered);
      && p.filtered == filtered && p.assignment == MatchAssignment && p.declaration == MatchDeclaration
      && p.hereDoc == MatchHereDoc && p.hereDocEnd == IsHereDocEnd
      && p.functionStart == IsFunctionStart && p.functionEnd == IsFunctionEnd
  {
  }

  lemma EndLines(delim: string, line: string)
    ensures IsHereDocEnd(delim, line) <==> DropBreak(line) == delim
    ensures IsFunctionEnd(line) <==> DropBreak(line) == "}"
    ensures IsLine(line, delim) <==> line == delim || line == delim + "\n"
    ensures IsLine(line, "}") <==> line == "}" || line == "}\n"
  {
    hide DropBreak;
    assert "}" + "\n" == "}\n";
  }

  // ----- Where an assignment ends -----

  ghost predicate ClosesQuote(quote: char, line: string) {
    exists text, blanks :: ClosedBy(quote, line, text, blanks)
  }

  // The value opens a quote and does not close it on its own line; the opening
  // quote itself closes nothing.
  ghost predicate StaysOpen(value: string, quote: char) {
    quote in {'"', '\''} && exists rest :: value == [quote] + rest && !ClosesQuote(quote, rest)
  }

  lemma OpensExactly(line: string, name: string, value: string)
    requires Captures(line, name, value)
    ensures var a := MatchAssignment(line).value;
      && (Opens(a) <==> exists q :: StaysOpen(value, q))
      && (forall q | StaysOpen(value, q) :: a.quote == Some(q))
  {
    hide MatchAssignment, HaveEndQuote, ClosedBy;
    var a := MatchAssignment(line).value;
    if a.quote.Some? {
      var q := a.quote.value;
      EndQuoteMeaning(q, a.afterQuote);
      assert value[0] == q;
      if Opens(a) {
        assert StaysOpen(value, q);
      }
      forall r | StaysOpen(value, r) ensures r == q && Opens(a) {
        var rest :| value == [r] + rest && !ClosesQuote(r, rest);
        assert rest == value[1..] == a.afterQuote;
      }
    }
  }

  // In the filter's cut of an input, an assignment takes further lines exactly
  // when its value stays open, and then all lines up to the first that closes
  // the quote, or up to the end of the input.
  lemma AssignmentBlock(filtered: string -> bool, lines: seq<string>, i: nat)
    returns (lead: Lead, name: string, value: string)
    requires i < |Segment(LinePatterns(filtered), lines, 0)| && Segment(LinePatterns(filtered), lines, 0)[i].Assign?
    ensures var blocks := Segment(LinePatterns(filtered), lines, 0);
      var b := blocks[i];
      && Preferred(b.first, lead, name, value) && b.name == name
      && (!(exists q :: StaysOpen(value, q)) ==> b.body == [])
      && forall q | StaysOpen(value, q) ::
           || QuotedLines(q, b.body)
           || (i == |blocks| - 1 && forall j | 0 <= j < |b.body| :: !ClosesQuote(q, b.body[j]))
  {
    hide *;
    var p, blocks := LinePatterns(filtered), Segment(LinePatterns(filtered), lines, 0);
    var b := blocks[i];
    SegmentExactly(p, blocks, lines);
    SegmentationCases(p, blocks, lines);
    TakenPatterns(filtered);
    CutAt(p, blocks, i);
    AssignStarts(p, b);
    lead, name, value := AssignmentSound(b.first);
    CapturedName(b.first, name, value);
    OpensExactly(b.first, name, value);
    forall q | StaysOpen(value, q)
      ensures QuotedLines(q, b.body)
        || (i == |blocks| - 1 && forall j | 0 <= j < |b.body| :: !ClosesQuote(q, b.body[j]))
    {
      StaysOpenQuote(value, q);
      QuoteRange(p, q, b.body);
    }
  }

  lemma StaysOpenQuote(value: string, q: char)
    requires StaysOpen(value, q)
    ensures q in {'"', '\''}
  {
  }

  // The last of the lines closes the quote, and no other does.
  ghost predicate QuotedLines(quote: char, body: seq<string>) {
    && body != [] && ClosesQuote(quote, body[|body| - 1])
    && forall j | 0 <= j < |body| - 1 :: !ClosesQuote(quote, body[j])
  }

  lemma CapturedName(line: string, name: string, value: string)
    requires Captures(line, name, value)
    ensures MatchAssignment(line).Some? && MatchAssignment(line).value.name == name
  {
    hide MatchAssignment, ValueParts;
  }

  lemma CutAt(p: Patterns, blocks: seq<Block>, i: nat)
    requires BashSegments.Cut(p, blocks) && i < |blocks|
    ensures Complete(p, blocks[i]) || (i == |blocks| - 1 && Unfinished(p, blocks[i]))
  {
    hide Complete, Unfinished;
  }

  lemma AssignStarts(p: Patterns, b: Block)
    requires b.Assign? && (Complete(p, b) || Unfinished(p, b))
    ensures p.assignment(b.first).Some? && p.assignment(b.first).value.name == b.name
    ensures var a := p.assignment(b.first).value;
      if Opens(a) then
        if Complete(p, b) then ClosedRange(p, QuoteCloser(a.quote.value), b.body, 0, |b.body|)
        else OpenRange(p, QuoteCloser(a.quote.value), b.body, 0, |b.body|)
      else Complete(p, b) && b.body == []
  {
    hide Opens, ClosedRange, OpenRange, FunctionRange, UnendedRange;
    assert BlockLines(b)[0] == b.first;
  }

  lemma QuoteRange(p: Patterns, q: char, body: seq<string>)
    requires q in {'"', '\''}
    ensures ClosedRange(p, QuoteCloser(q), body, 0, |body|) ==> QuotedLines(q, body)
    ensures OpenRange(p, QuoteCloser(q), body, 0, |body|) ==> forall j | 0 <= j < |body| :: !ClosesQuote(q, body[j])
  {
    hide HaveEndQuote, ClosesQuote;
    forall j | 0 <= j < |body| ensures Closes(p, QuoteCloser(q), body[j]) <==> ClosesQuote(q, body[j]) {
      ClosesExactly(p, q, body[j]);
    }
  }

  lemma ClosesExactly(p: Patterns, q: char, line: string)
    requires q in {'"', '\''}
    ensures Closes(p, QuoteCloser(q), line) <==> ClosesQuote(q, line)
  {
    EndQuoteMeaning(q, line);
    hide HaveEndQuote, ClosedBy;
  }

  // The filter with its own patterns.
  method FilterNames(filtered: string -> bool, fileIn: seq<string>) returns (fileOut: seq<string>)
    ensures fileOut == Output(LinePatterns(filtered), Segment(LinePatterns(filtered), fileIn, 0))
  {
    hide *;
    fileOut := FilterBashEnvironment(LinePatterns(filtered), fileIn);
  }
}
