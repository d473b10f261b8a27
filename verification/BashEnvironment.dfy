// Filtering a saved bash environment: a one-pass line machine with quote,
// here-document and function modes, and the segmentation into blocks that it
// is equivalent to, for any line patterns.
module BashEnvironment {
  import opened Wrappers
  import opened Text
  import opened BashLines

  // ----- The machine -----

  datatype Assignment = Assignment(name: string, quote: Option<char>, afterQuote: string)

  // The patterns: what each one captures in a line.
  datatype Patterns = Patterns(
    assignment: string -> Option<Assignment>,
    declaration: string -> Option<string>,
    hereDoc: string -> Option<string>,
    hereDocEnd: (string, string) -> bool,
    functionStart: string -> bool,
    functionEnd: string -> bool,
    filtered: string -> bool)

  // Whether the assignment's quote stays open at the end of its line.
  predicate Opens(a: Assignment) {
    a.quote.Some? && !HaveEndQuote(a.quote.value, a.afterQuote)
  }

  // `filter_bash_environment`: the lines written.
  method FilterBashEnvironment(p: Patterns, fileIn: seq<string>) returns (fileOut: seq<string>)
    ensures fileOut == Output(p, Segment(p, fileIn, 0))
  {
    hide *;
    fileOut := [];
    var hereDocDelim: Option<string> := None;
    var inFunc := false;
    var multiLineQuote: Option<char> := None;
    var multiLineQuoteFilter: Option<bool> := None;
    StartRest(p, fileIn);
    for n := 0 to |fileIn|
      // Quote mode never coincides with another mode.
      invariant multiLineQuote.Some? <==> multiLineQuoteFilter.Some?
      invariant multiLineQuote.Some? ==> hereDocDelim.None? && !inFunc
      invariant fileOut + Rest(p, ModeOf(hereDocDelim, inFunc, multiLineQuote, multiLineQuoteFilter), fileIn, n)
        == Output(p, Segment(p, fileIn, 0))
    {
      var line := fileIn[n];
      ModeCases(hereDocDelim, inFunc, multiLineQuote, multiLineQuoteFilter);
      StepRest(p, ModeOf(hereDocDelim, inFunc, multiLineQuote, multiLineQuoteFilter), fileIn, n);
      ghost var before := fileOut;
      ghost var after := Rest(p, Step(p, ModeOf(hereDocDelim, inFunc, multiLineQuote, multiLineQuoteFilter), line).0,
        fileIn, n + 1);
      StepCases(p, ModeOf(hereDocDelim, inFunc, multiLineQuote, multiLineQuoteFilter), line);
      if multiLineQuote.Some? {
        Write(before, RemoveSoh(line), after);
        if !multiLineQuoteFilter.value { fileOut := fileOut + [RemoveSoh(line)]; }
        if HaveEndQuote(multiLineQuote.value, line) {
          multiLineQuote := None;
          multiLineQuoteFilter := None;
        }
        ModeCases(hereDocDelim, inFunc, multiLineQuote, multiLineQuoteFilter);
        continue;
      }
      if hereDocDelim.None? && !inFunc {
        var assignment := p.assignment(line);
        if assignment.Some? {
          var quote := assignment.value.quote;
          var filterThis := p.filtered(assignment.value.name);
          OpensCases(assignment.value);
          if quote.Some? && !HaveEndQuote(quote.value, assignment.value.afterQuote) {
            multiLineQuote := quote;
            multiLineQuoteFilter := Some(filterThis);
          }
          Write(before, RemoveSoh(DropReadonly(line)), after);
          if !filterThis { fileOut := fileOut + [RemoveSoh(DropReadonly(line))]; }
          ModeCases(hereDocDelim, inFunc, multiLineQuote, multiLineQuoteFilter);
          continue;
        }
        var declaration := p.declaration(line);
        if declaration.Some? {
          Write(before, DropReadonly(line), after);
          if !p.filtered(declaration.value) { fileOut := fileOut + [DropReadonly(line)]; }
          continue;
        }
      }
      Write(before, line, after);
      if hereDocDelim.Some? {
        if p.hereDocEnd(hereDocDelim.value, line) { hereDocDelim := None; }
        ModeCases(hereDocDelim, inFunc, multiLineQuote, multiLineQuoteFilter);
        fileOut := fileOut + [line];
        continue;
      }
      var hereDoc := p.hereDoc(line);
      if hereDoc.Some? {
        hereDocDelim := hereDoc;
        ModeCases(hereDocDelim, inFunc, multiLineQuote, multiLineQuoteFilter);
        fileOut := fileOut + [line];
        continue;
      }
      if inFunc {
        if p.functionEnd(line) { inFunc := false; }
        ModeCases(hereDocDelim, inFunc, multiLineQuote, multiLineQuoteFilter);
        fileOut := fileOut + [line];
        continue;
      }
      inFunc := p.functionStart(line);
      ModeCases(hereDocDelim, inFunc, multiLineQuote, multiLineQuoteFilter);
      fileOut := fileOut + [line];
    }
    EndRest(p, ModeOf(hereDocDelim, inFunc, multiLineQuote, multiLineQuoteFilter), fileIn);
    assert fileOut + [] == fileOut;
  }

  lemma Write(out: seq<string>, line: string, rest: seq<string>)
    ensures out + ([line] + rest) == out + [line] + rest
    ensures out + ([] + rest) == out + rest
  {
    assert [] + rest == rest;
  }

  // The state of the four variables.
  datatype Mode =
    | Top
    | InQuote(quote: char, filtered: bool)
    | InHereDoc(delim: string, inFunction: bool)
    | InFunction

  function ModeOf(hereDocDelim: Option<string>, inFunc: bool, quote: Option<char>, filter: Option<bool>): Mode {
    if quote.Some? && filter.Some? then InQuote(quote.value, filter.value)
    else if hereDocDelim.Some? then InHereDoc(hereDocDelim.value, inFunc)
    else if inFunc then InFunction
    else Top
  }

  lemma ModeCases(hereDocDelim: Option<string>, inFunc: bool, quote: Option<char>, filter: Option<bool>)
    ensures ModeOf(hereDocDelim, inFunc, quote, filter) ==
      if quote.Some? && filter.Some? then InQuote(quote.value, filter.value)
      else if hereDocDelim.Some? then InHereDoc(hereDocDelim.value, inFunc)
      else if inFunc then InFunction
      else Top
  {
  }

  lemma OpensCases(a: Assignment)
    ensures Opens(a) <==> a.quote.Some? && !HaveEndQuote(a.quote.value, a.afterQuote)
  {
    hide HaveEndQuote;
  }

  // One line: the next mode and what is written.
  function Step(p: Patterns, mode: Mode, line: string): (Mode, seq<string>) {
    match mode
    case InQuote(quote, filtered) =>
      (if HaveEndQuote(quote, line) then Top else mode, if filtered then [] else [RemoveSoh(line)])
    case InHereDoc(delim, inFunction) =>
      (if p.hereDocEnd(delim, line) then if inFunction then InFunction else Top else mode, [line])
    case InFunction =>
      (if p.hereDoc(line).Some? then InHereDoc(p.hereDoc(line).value, true)
       else if p.functionEnd(line) then Top else InFunction, [line])
    case Top =>
      if p.assignment(line).Some? then
        var a := p.assignment(line).value;
        (if Opens(a) then InQuote(a.quote.value, p.filtered(a.name)) else Top,
         if p.filtered(a.name) then [] else [RemoveSoh(DropReadonly(line))])
      else if p.declaration(line).Some? then
        (Top, if p.filtered(p.declaration(line).value) then [] else [DropReadonly(line)])
      else if p.hereDoc(line).Some? then (InHereDoc(p.hereDoc(line).value, false), [line])
      else (if p.functionStart(line) then InFunction else Top, [line])
  }

  lemma StepCases(p: Patterns, mode: Mode, line: string)
    ensures Step(p, mode, line) ==
      if mode.InQuote? then
        (if HaveEndQuote(mode.quote, line) then Top else mode, if mode.filtered then [] else [RemoveSoh(line)])
      else if mode.InHereDoc? then
        (if p.hereDocEnd(mode.delim, line) then if mode.inFunction then InFunction else Top else mode, [line])
      else if mode.InFunction? then
        (if p.hereDoc(line).Some? then InHereDoc(p.hereDoc(line).value, true)
         else if p.functionEnd(line) then Top else InFunction, [line])
      else if p.assignment(line).Some? then
        var a := p.assignment(line).value;
        (if Opens(a) then InQuote(a.quote.value, p.filtered(a.name)) else Top,
         if p.filtered(a.name) then [] else [RemoveSoh(DropReadonly(line))])
      else if p.declaration(line).Some? then
        (Top, if p.filtered(p.declaration(line).value) then [] else [DropReadonly(line)])
      else
        (if p.hereDoc(line).Some? then InHereDoc(p.hereDoc(line).value, false)
         else if p.functionStart(line) then InFunction else Top, [line])
  {
    hide HaveEndQuote, RemoveSoh, DropReadonly;
  }

  // ----- Blocks -----

  // The units an environment consists of.
  datatype Block =
    | Assign(name: string, first: string, body: seq<string>)   // through the closing quote
    | Declared(name: string, line: string)
    | HereDocument(delim: string, first: string, body: seq<string>)
    | FunctionBlock(first: string, body: seq<string>)
    | Other(line: string)

  function BlockLines(b: Block): seq<string> {
    match b
    case Assign(_, first, body) => [first] + body
    case Declared(_, line) => [line]
    case HereDocument(_, first, body) => [first] + body
    case FunctionBlock(first, body) => [first] + body
    case Other(line) => [line]
  }

  function CleanLines(lines: seq<string>): (r: seq<string>)
    ensures |r| == |lines| && forall i | 0 <= i < |r| :: r[i] == RemoveSoh(lines[i])
  {
    seq(|lines|, i requires 0 <= i < |lines| => RemoveSoh(lines[i]))
  }

  // What is kept of a block: nothing of an assignment or declaration whose
  // name is filtered, and every line of a function or here-document as it is.
  function BlockOutput(p: Patterns, b: Block): seq<string> {
    match b
    case Assign(name, first, body) =>
      if p.filtered(name) then [] else [RemoveSoh(DropReadonly(first))] + CleanLines(body)
    case Declared(name, line) => if p.filtered(name) then [] else [DropReadonly(line)]
    case _ => BlockLines(b)
  }

  function Output(p: Patterns, blocks: seq<Block>): seq<string> {
    if blocks == [] then [] else BlockOutput(p, blocks[0]) + Output(p, blocks[1..])
  }

  // What ends a multi-line quote or a here-document.
  datatype Closer = QuoteCloser(quote: char) | HereDocCloser(delim: string)

  predicate Closes(p: Patterns, c: Closer, line: string) {
    match c
    case QuoteCloser(quote) => HaveEndQuote(quote, line)
    case HereDocCloser(delim) => p.hereDocEnd(delim, line)
  }

  // Just past the first closing line from `pos` on, or the end of the input.
  function CloseEnd(p: Patterns, c: Closer, lines: seq<string>, pos: nat): (e: nat)
    requires pos <= |lines|
    ensures pos <= e <= |lines|
    decreases |lines| - pos
  {
    if pos == |lines| then pos
    else if Closes(p, c, lines[pos]) then pos + 1
    else CloseEnd(p, c, lines, pos + 1)
  }

  // Just past the line that ends a function, here-documents inside it skipped.
  function FunctionEnd(p: Patterns, lines: seq<string>, pos: nat): (e: nat)
    requires pos <= |lines|
    ensures pos <= e <= |lines|
    decreases |lines| - pos
  {
    if pos == |lines| then pos
    else if p.hereDoc(lines[pos]).Some? then
      FunctionEnd(p, lines, CloseEnd(p, HereDocCloser(p.hereDoc(lines[pos]).value), lines, pos + 1))
    else if p.functionEnd(lines[pos]) then pos + 1
    else FunctionEnd(p, lines, pos + 1)
  }

  function BlockAt(p: Patterns, lines: seq<string>, pos: nat): (b: Block)
    requires pos < |lines|
    ensures |BlockLines(b)| >= 1 && pos + |BlockLines(b)| <= |lines|
  {
    var line := lines[pos];
    if p.assignment(line).Some? then
      var a := p.assignment(line).value;
      Assign(a.name, line,
        lines[pos + 1..if Opens(a) then CloseEnd(p, QuoteCloser(a.quote.value), lines, pos + 1) else pos + 1])
    else if p.declaration(line).Some? then Declared(p.declaration(line).value, line)
    else if p.hereDoc(line).Some? then
      var delim := p.hereDoc(line).value;
      HereDocument(delim, line, lines[pos + 1..CloseEnd(p, HereDocCloser(delim), lines, pos + 1)])
    else if p.functionStart(line) then
      FunctionBlock(line, lines[pos + 1..FunctionEnd(p, lines, pos + 1)])
    else Other(line)
  }

  function Segment(p: Patterns, lines: seq<string>, pos: nat): seq<Block>
    requires pos <= |lines|
    decreases |lines| - pos
  {
    if pos == |lines| then []
    else [BlockAt(p, lines, pos)] + Segment(p, lines, pos + |BlockLines(BlockAt(p, lines, pos))|)
  }

  // ----- The machine writes the blocks -----

  // What is still to be written in a mode before line `pos`.
  function Rest(p: Patterns, mode: Mode, lines: seq<string>, pos: nat): seq<string>
    requires pos <= |lines|
  {
    match mode
    case Top => Output(p, Segment(p, lines, pos))
    case InQuote(quote, filtered) =>
      var e := CloseEnd(p, QuoteCloser(quote), lines, pos);
      (if filtered then [] else CleanLines(lines[pos..e])) + Output(p, Segment(p, lines, e))
    case InHereDoc(delim, inFunction) =>
      var e := CloseEnd(p, HereDocCloser(delim), lines, pos);
      lines[pos..e] + (if inFunction then FunctionRest(p, lines, e) else Output(p, Segment(p, lines, e)))
    case InFunction => FunctionRest(p, lines, pos)
  }

  function FunctionRest(p: Patterns, lines: seq<string>, pos: nat): seq<string>
    requires pos <= |lines|
  {
    var e := FunctionEnd(p, lines, pos);
    lines[pos..e] + Output(p, Segment(p, lines, e))
  }

  lemma StartRest(p: Patterns, lines: seq<string>)
    ensures [] + Rest(p, ModeOf(None, false, None, None), lines, 0) == Output(p, Segment(p, lines, 0))
  {
    assert Rest(p, Top, lines, 0) == Output(p, Segment(p, lines, 0));
    hide Rest, Output, Segment;
    assert [] + Rest(p, Top, lines, 0) == Rest(p, Top, lines, 0);
  }

  lemma EndRest(p: Patterns, mode: Mode, lines: seq<string>)
    ensures Rest(p, mode, lines, |lines|) == []
  {
  }

  lemma SliceStep(lines: seq<string>, pos: nat, end: nat)
    requires pos < end <= |lines|
    ensures lines[pos..end] == [lines[pos]] + lines[pos + 1..end]
    ensures CleanLines(lines[pos..end]) == [RemoveSoh(lines[pos])] + CleanLines(lines[pos + 1..end])
  {
    hide RemoveSoh;
  }

  lemma SliceNone(lines: seq<string>, pos: nat)
    requires pos <= |lines|
    ensures lines[pos..pos] == [] && CleanLines([]) == []
  {
  }

  lemma {:induction false} SliceSplit(lines: seq<string>, pos: nat, mid: nat, end: nat)
    requires pos <= mid <= end <= |lines|
    ensures lines[pos..end] == lines[pos..mid] + lines[mid..end]
  {
  }

  lemma OutputStep(p: Patterns, lines: seq<string>, pos: nat)
    requires pos < |lines|
    ensures var b := BlockAt(p, lines, pos);
      Output(p, Segment(p, lines, pos)) == BlockOutput(p, b) + Output(p, Segment(p, lines, pos + |BlockLines(b)|))
  {
    hide BlockAt, BlockOutput, BlockLines;
    var b := BlockAt(p, lines, pos);
    var more := Segment(p, lines, pos + |BlockLines(b)|);
    assert ([b] + more)[1..] == more;
  }

  lemma CloseStep(p: Patterns, c: Closer, lines: seq<string>, pos: nat)
    requires pos < |lines|
    ensures CloseEnd(p, c, lines, pos) == if Closes(p, c, lines[pos]) then pos + 1 else CloseEnd(p, c, lines, pos + 1)
  {
    hide Closes;
  }

  lemma StepRest(p: Patterns, mode: Mode, lines: seq<string>, pos: nat)
    requires pos < |lines|
    ensures var (next, written) := Step(p, mode, lines[pos]);
      Rest(p, mode, lines, pos) == written + Rest(p, next, lines, pos + 1)
  {
    hide *;
    match mode {
      case Top => TopStep(p, lines, pos);
      case InQuote(quote, filtered) => QuoteStep(p, quote, filtered, lines, pos);
      case InHereDoc(delim, inFunction) => HereDocStep(p, delim, inFunction, lines, pos);
      case InFunction => FunctionStep(p, lines, pos);
    }
  }

  lemma QuoteRest(p: Patterns, quote: char, filtered: bool, lines: seq<string>, pos: nat)
    requires pos <= |lines|
    ensures var e := CloseEnd(p, QuoteCloser(quote), lines, pos);
      Rest(p, InQuote(quote, filtered), lines, pos) ==
      (if filtered then [] else CleanLines(lines[pos..e])) + Output(p, Segment(p, lines, e))
    ensures forall line :: Closes(p, QuoteCloser(quote), line) == HaveEndQuote(quote, line)
  {
    hide HaveEndQuote, Output, Segment, CloseEnd;
  }

  lemma TopRest(p: Patterns, lines: seq<string>, pos: nat)
    requires pos <= |lines|
    ensures Rest(p, Top, lines, pos) == Output(p, Segment(p, lines, pos))
  {
    hide Output, Segment;
  }

  lemma QuoteStep(p: Patterns, quote: char, filtered: bool, lines: seq<string>, pos: nat)
    requires pos < |lines|
    ensures var mode := InQuote(quote, filtered);
      var (next, written) := Step(p, mode, lines[pos]);
      Rest(p, mode, lines, pos) == written + Rest(p, next, lines, pos + 1)
  {
    hide *;
    var c := QuoteCloser(quote);
    var mode := InQuote(quote, filtered);
    StepCases(p, mode, lines[pos]);
    CloseStep(p, c, lines, pos);
    QuoteRest(p, quote, filtered, lines, pos);
    QuoteRest(p, quote, filtered, lines, pos + 1);
    TopRest(p, lines, pos + 1);
    var e := CloseEnd(p, c, lines, pos);
    SliceStep(lines, pos, e);
    SliceNone(lines, pos + 1);
    var out := Output(p, Segment(p, lines, e));
    Assoc([RemoveSoh(lines[pos])], CleanLines(lines[pos + 1..e]), out);
    Assoc([RemoveSoh(lines[pos])], [], out);
  }

  lemma HereDocRest(p: Patterns, delim: string, inFunction: bool, lines: seq<string>, pos: nat)
    requires pos <= |lines|
    ensures var e := CloseEnd(p, HereDocCloser(delim), lines, pos);
      Rest(p, InHereDoc(delim, inFunction), lines, pos) ==
      lines[pos..e] + Rest(p, if inFunction then InFunction else Top, lines, e)
    ensures forall line :: Closes(p, HereDocCloser(delim), line) == p.hereDocEnd(delim, line)
  {
    hide Output, Segment, CloseEnd, FunctionRest;
  }

  lemma HereDocStep(p: Patterns, delim: string, inFunction: bool, lines: seq<string>, pos: nat)
    requires pos < |lines|
    ensures var mode := InHereDoc(delim, inFunction);
      var (next, written) := Step(p, mode, lines[pos]);
      Rest(p, mode, lines, pos) == written + Rest(p, next, lines, pos + 1)
  {
    hide *;
    var c := HereDocCloser(delim);
    var mode := InHereDoc(delim, inFunction);
    StepCases(p, mode, lines[pos]);
    CloseStep(p, c, lines, pos);
    HereDocRest(p, delim, inFunction, lines, pos);
    HereDocRest(p, delim, inFunction, lines, pos + 1);
    var e := CloseEnd(p, c, lines, pos);
    SliceStep(lines, pos, e);
    SliceNone(lines, pos + 1);
    var after := Rest(p, if inFunction then InFunction else Top, lines, e);
    Assoc([lines[pos]], lines[pos + 1..e], after);
    Assoc([lines[pos]], [], after);
  }

  lemma FunctionRestCases(p: Patterns, lines: seq<string>, pos: nat)
    requires pos <= |lines|
    ensures var e := FunctionEnd(p, lines, pos);
      Rest(p, InFunction, lines, pos) == lines[pos..e] + Rest(p, Top, lines, e)
  {
    hide Output, Segment, FunctionEnd;
  }

  lemma FunctionEndStep(p: Patterns, lines: seq<string>, pos: nat)
    requires pos < |lines|
    ensures FunctionEnd(p, lines, pos) ==
      if p.hereDoc(lines[pos]).Some? then
        FunctionEnd(p, lines, CloseEnd(p, HereDocCloser(p.hereDoc(lines[pos]).value), lines, pos + 1))
      else if p.functionEnd(lines[pos]) then pos + 1
      else FunctionEnd(p, lines, pos + 1)
  {
    hide CloseEnd;
  }

  lemma FunctionStep(p: Patterns, lines: seq<string>, pos: nat)
    requires pos < |lines|
    ensures var (next, written) := Step(p, InFunction, lines[pos]);
      Rest(p, InFunction, lines, pos) == written + Rest(p, next, lines, pos + 1)
  {
    hide *;
    var line := lines[pos];
    StepCases(p, InFunction, line);
    FunctionEndStep(p, lines, pos);
    FunctionRestCases(p, lines, pos);
    var e := FunctionEnd(p, lines, pos);
    SliceNone(lines, pos + 1);
    var after := Rest(p, Top, lines, e);
    if p.hereDoc(line).Some? {
      var delim := p.hereDoc(line).value;
      var mid := CloseEnd(p, HereDocCloser(delim), lines, pos + 1);
      HereDocRest(p, delim, true, lines, pos + 1);
      FunctionRestCases(p, lines, mid);
      SliceStep(lines, pos, e);
      SliceSplit(lines, pos + 1, mid, e);
      Assoc(lines[pos + 1..mid], lines[mid..e], after);
    } else if p.functionEnd(line) {
      SliceStep(lines, pos, e);
    } else {
      FunctionRestCases(p, lines, pos + 1);
      SliceStep(lines, pos, e);
    }
    Assoc([line], lines[pos + 1..e], after);
    Assoc([line], [], after);
  }

  lemma TopStep(p: Patterns, lines: seq<string>, pos: nat)
    requires pos < |lines|
    ensures var (next, written) := Step(p, Top, lines[pos]);
      Rest(p, Top, lines, pos) == written + Rest(p, next, lines, pos + 1)
  {
    hide *;
    if p.assignment(lines[pos]).Some? {
      AssignmentStep(p, lines, pos);
    } else if p.declaration(lines[pos]).Some? {
      DeclarationStep(p, lines, pos);
    } else {
      VerbatimStep(p, lines, pos);
    }
  }

  // At the top level the block found is written, then what follows it.
  lemma TopBlock(p: Patterns, lines: seq<string>, pos: nat)
    requires pos < |lines|
    ensures var b := BlockAt(p, lines, pos);
      var e := pos + |BlockLines(b)|;
      pos < e <= |lines| && Rest(p, Top, lines, pos) == BlockOutput(p, b) + Rest(p, Top, lines, e)
  {
    hide *;
    BlockAtCases(p, lines, pos);
    TopRest(p, lines, pos);
    OutputStep(p, lines, pos);
    TopRest(p, lines, pos + |BlockLines(BlockAt(p, lines, pos))|);
  }

  lemma AssignmentStep(p: Patterns, lines: seq<string>, pos: nat)
    requires pos < |lines| && p.assignment(lines[pos]).Some?
    ensures var (next, written) := Step(p, Top, lines[pos]);
      Rest(p, Top, lines, pos) == written + Rest(p, next, lines, pos + 1)
  {
    hide *;
    var line := lines[pos];
    var a := p.assignment(line).value;
    StepCases(p, Top, line);
    BlockAtCases(p, lines, pos);
    TopBlock(p, lines, pos);
    var e := pos + |BlockLines(BlockAt(p, lines, pos))|;
    AssignOutput(p, a.name, line, lines[pos + 1..e]);
    var first, after := [RemoveSoh(DropReadonly(line))], Rest(p, Top, lines, e);
    SliceNone(lines, pos + 1);
    Assoc(first, CleanLines(lines[pos + 1..e]), after);
    Assoc(first, [], after);
    if Opens(a) {
      QuoteRest(p, a.quote.value, p.filtered(a.name), lines, pos + 1);
      TopRest(p, lines, e);
    }
  }

  lemma DeclarationStep(p: Patterns, lines: seq<string>, pos: nat)
    requires pos < |lines| && p.assignment(lines[pos]).None? && p.declaration(lines[pos]).Some?
    ensures var (next, written) := Step(p, Top, lines[pos]);
      Rest(p, Top, lines, pos) == written + Rest(p, next, lines, pos + 1)
  {
    hide *;
    StepCases(p, Top, lines[pos]);
    BlockAtCases(p, lines, pos);
    TopBlock(p, lines, pos);
    DeclaredOutput(p, p.declaration(lines[pos]).value, lines[pos]);
  }

  lemma VerbatimStep(p: Patterns, lines: seq<string>, pos: nat)
    requires pos < |lines| && p.assignment(lines[pos]).None? && p.declaration(lines[pos]).None?
    ensures var (next, written) := Step(p, Top, lines[pos]);
      Rest(p, Top, lines, pos) == written + Rest(p, next, lines, pos + 1)
  {
    hide *;
    var line, b := lines[pos], BlockAt(p, lines, pos);
    StepCases(p, Top, line);
    BlockAtCases(p, lines, pos);
    TopBlock(p, lines, pos);
    VerbatimOutput(p, b);
    var e := pos + |BlockLines(b)|;
    Assoc([line], lines[pos + 1..e], Rest(p, Top, lines, e));
    if p.hereDoc(line).Some? {
      HereDocRest(p, p.hereDoc(line).value, false, lines, pos + 1);
    } else if p.functionStart(line) {
      FunctionRestCases(p, lines, pos + 1);
    }
  }

  lemma BlockAtCases(p: Patterns, lines: seq<string>, pos: nat)
    requires pos < |lines|
    ensures var line, b := lines[pos], BlockAt(p, lines, pos);
      var e := pos + |BlockLines(b)|;
      && pos < e <= |lines|
      && (p.assignment(line).Some? ==>
        var a := p.assignment(line).value;
        && b == Assign(a.name, line, lines[pos + 1..e])
        && (Opens(a) ==> a.quote.Some?)
        && e == if Opens(a) then CloseEnd(p, QuoteCloser(a.quote.value), lines, pos + 1) else pos + 1)
      && (p.assignment(line).None? && p.declaration(line).Some? ==>
        b == Declared(p.declaration(line).value, line) && e == pos + 1)
      && (p.assignment(line).None? && p.declaration(line).None? && p.hereDoc(line).Some? ==>
        var delim := p.hereDoc(line).value;
        b == HereDocument(delim, line, lines[pos + 1..e]) && e == CloseEnd(p, HereDocCloser(delim), lines, pos + 1))
      && (p.assignment(line).None? && p.declaration(line).None? && p.hereDoc(line).None? ==>
        if p.functionStart(line) then b == FunctionBlock(line, lines[pos + 1..e]) && e == FunctionEnd(p, lines, pos + 1)
        else b == Other(line) && e == pos + 1)
  {
    hide CloseEnd, FunctionEnd, HaveEndQuote;
  }

  lemma AssignOutput(p: Patterns, name: string, first: string, body: seq<string>)
    ensures BlockOutput(p, Assign(name, first, body)) ==
      if p.filtered(name) then [] else [RemoveSoh(DropReadonly(first))] + CleanLines(body)
  {
    hide CleanLines, RemoveSoh, DropReadonly;
  }

  lemma DeclaredOutput(p: Patterns, name: string, line: string)
    ensures BlockOutput(p, Declared(name, line)) == if p.filtered(name) then [] else [DropReadonly(line)]
  {
    hide DropReadonly;
  }

  lemma VerbatimOutput(p: Patterns, b: Block)
    ensures !b.Assign? && !b.Declared? ==> BlockOutput(p, b) == BlockLines(b)
    ensures b.HereDocument? ==> BlockLines(b) == [b.first] + b.body
    ensures b.FunctionBlock? ==> BlockLines(b) == [b.first] + b.body
    ensures b.Other? ==> BlockLines(b) == [b.line]
  {
  }

  // Blocks are written one after the other.
  lemma {:induction false} OutputConcat(p: Patterns, x: seq<Block>, y: seq<Block>)
    ensures Output(p, x + y) == Output(p, x) + Output(p, y)
  {
    hide BlockOutput;
    if x == [] {
      assert x + y == y;
      Assoc([], [], Output(p, y));
    } else {
      OutputConcat(p, x[1..], y);
      assert (x + y)[1..] == x[1..] + y && (x + y)[0] == x[0];
      Assoc(BlockOutput(p, x[0]), Output(p, x[1..]), Output(p, y));
    }
  }
}
