// The blocks of a bash environment: what each kind of block is, and that an
// input can be cut into blocks in one way only, the one the filter follows.
module BashSegments {
  import opened Wrappers
  import opened BashEnvironment
  import opened BashLines
  import opened Positions
  import Text

  // ----- The blocks are the only way to cut the input -----

  // `lines[pos..end]` ends at its only closing line, the last one.
  ghost predicate ClosedRange(p: Patterns, c: Closer, lines: seq<string>, pos: nat, end: nat) {
    && pos < end <= |lines| && Closes(p, c, lines[end - 1])
    && forall i | pos <= i < end - 1 :: !Closes(p, c, lines[i])
  }

  // `lines[pos..end]` has no closing line.
  ghost predicate OpenRange(p: Patterns, c: Closer, lines: seq<string>, pos: nat, end: nat) {
    pos <= end <= |lines| && forall i | pos <= i < end :: !Closes(p, c, lines[i])
  }

  // `lines[pos..end]` is the rest of a function through its end line: the end
  // line is the first one outside the here-documents of the function.
  ghost predicate FunctionRange(p: Patterns, lines: seq<string>, pos: nat, end: nat)
    decreases end - pos
  {
    && pos < end <= |lines|
    && var line := lines[pos];
       if p.hereDoc(line).Some? then
         exists k | pos < k < end ::
           ClosedRange(p, HereDocCloser(p.hereDoc(line).value), lines, pos + 1, k) && FunctionRange(p, lines, k, end)
       else if p.functionEnd(line) then end == pos + 1
       else FunctionRange(p, lines, pos + 1, end)
  }

  // `lines[pos..end]` is the rest of a function that has not ended.
  ghost predicate UnendedRange(p: Patterns, lines: seq<string>, pos: nat, end: nat)
    decreases end - pos
  {
    && pos <= end <= |lines|
    && (pos == end ||
       var line := lines[pos];
       if p.hereDoc(line).Some? then
         var c := HereDocCloser(p.hereDoc(line).value);
         || OpenRange(p, c, lines, pos + 1, end)
         || exists k | pos < k <= end :: ClosedRange(p, c, lines, pos + 1, k) && UnendedRange(p, lines, k, end)
       else !p.functionEnd(line) && UnendedRange(p, lines, pos + 1, end))
  }

  // The block starts the way its kind does; the kinds are tried in this order.
  ghost predicate Starts(p: Patterns, b: Block) {
    var line := BlockLines(b)[0];
    match b
    case Assign(name, _, body) =>
      p.assignment(line).Some? && p.assignment(line).value.name == name
        && (!Opens(p.assignment(line).value) ==> body == [])
    case Declared(name, _) => p.assignment(line).None? && p.declaration(line) == Some(name)
    case HereDocument(delim, _, _) =>
      p.assignment(line).None? && p.declaration(line).None? && p.hereDoc(line) == Some(delim)
    case FunctionBlock(_, _) =>
      p.assignment(line).None? && p.declaration(line).None? && p.hereDoc(line).None? && p.functionStart(line)
    case Other(_) =>
      p.assignment(line).None? && p.declaration(line).None? && p.hereDoc(line).None? && !p.functionStart(line)
  }

  // The block goes exactly through the line that ends it.
  ghost predicate Complete(p: Patterns, b: Block) {
    && Starts(p, b)
    && match b
       case Assign(_, first, body) =>
         var a := p.assignment(first).value;
         Opens(a) ==> ClosedRange(p, QuoteCloser(a.quote.value), body, 0, |body|)
       case HereDocument(delim, _, body) => ClosedRange(p, HereDocCloser(delim), body, 0, |body|)
       case FunctionBlock(_, body) => FunctionRange(p, body, 0, |body|)
       case _ => true
  }

  // The block is cut off by the end of the input.
  ghost predicate Unfinished(p: Patterns, b: Block) {
    && Starts(p, b)
    && match b
       case Assign(_, first, body) =>
         var a := p.assignment(first).value;
         Opens(a) && OpenRange(p, QuoteCloser(a.quote.value), body, 0, |body|)
       case HereDocument(delim, _, body) => OpenRange(p, HereDocCloser(delim), body, 0, |body|)
       case FunctionBlock(_, body) => UnendedRange(p, body, 0, |body|)
       case _ => false
  }

  function AllLines(blocks: seq<Block>): seq<string> {
    if blocks == [] then [] else BlockLines(blocks[0]) + AllLines(blocks[1..])
  }

  // The input cut into complete blocks, with at most the last one unfinished.
  ghost predicate IsSegmentation(p: Patterns, blocks: seq<Block>, lines: seq<string>) {
    AllLines(blocks) == lines && Cut(p, blocks)
  }

  ghost predicate Cut(p: Patterns, blocks: seq<Block>) {
    forall i | 0 <= i < |blocks| :: Complete(p, blocks[i]) || (i == |blocks| - 1 && Unfinished(p, blocks[i]))
  }

  // ----- Ranges and the scans -----

  lemma {:induction false} ClosedScan(p: Patterns, c: Closer, lines: seq<string>, pos: nat, end: nat)
    requires ClosedRange(p, c, lines, pos, end)
    ensures CloseEnd(p, c, lines, pos) == end
    decreases end - pos
  {
    hide Closes;
    if !Closes(p, c, lines[pos]) {
      ClosedScan(p, c, lines, pos + 1, end);
    }
  }

  lemma {:induction false} OpenScan(p: Patterns, c: Closer, lines: seq<string>, pos: nat)
    requires OpenRange(p, c, lines, pos, |lines|)
    ensures CloseEnd(p, c, lines, pos) == |lines|
    decreases |lines| - pos
  {
    hide Closes;
    if pos == |lines| {
    } else {
      OpenScan(p, c, lines, pos + 1);
    }
  }

  // What the scan finds is one of the two.
  lemma {:induction false} ScanRange(p: Patterns, c: Closer, lines: seq<string>, pos: nat)
    requires pos <= |lines|
    ensures var e := CloseEnd(p, c, lines, pos);
      ClosedRange(p, c, lines, pos, e) || (e == |lines| && OpenRange(p, c, lines, pos, e))
    decreases |lines| - pos
  {
    hide Closes;
    if pos < |lines| && !Closes(p, c, lines[pos]) {
      ScanRange(p, c, lines, pos + 1);
    }
  }

  lemma {:induction false} FunctionScan(p: Patterns, lines: seq<string>, pos: nat, end: nat)
    requires FunctionRange(p, lines, pos, end)
    ensures FunctionEnd(p, lines, pos) == end
    decreases end - pos
  {
    hide ClosedRange, CloseEnd;
    FunctionEndStep(p, lines, pos);
    if p.hereDoc(lines[pos]).Some? {
      var c := HereDocCloser(p.hereDoc(lines[pos]).value);
      var k := FunctionHereDoc(p, lines, pos, end);
      ClosedScan(p, c, lines, pos + 1, k);
      FunctionScan(p, lines, k, end);
    } else if !p.functionEnd(lines[pos]) {
      FunctionScan(p, lines, pos + 1, end);
    }
    hide FunctionEnd, FunctionRange;
  }

  lemma {:induction false} UnendedScan(p: Patterns, lines: seq<string>, pos: nat)
    requires UnendedRange(p, lines, pos, |lines|)
    ensures FunctionEnd(p, lines, pos) == |lines|
    decreases |lines| - pos
  {
    hide ClosedRange, OpenRange, CloseEnd;
    if pos == |lines| {
    } else {
      FunctionEndStep(p, lines, pos);
      if p.hereDoc(lines[pos]).Some? {
        var c := HereDocCloser(p.hereDoc(lines[pos]).value);
        if OpenRange(p, c, lines, pos + 1, |lines|) {
          OpenScan(p, c, lines, pos + 1);
          FunctionEndAtEnd(p, lines);
        } else {
          var k := UnendedHereDoc(p, lines, pos, |lines|);
          ClosedScan(p, c, lines, pos + 1, k);
          UnendedScan(p, lines, k);
        }
      } else {
        UnendedScan(p, lines, pos + 1);
      }
    }
  }

  lemma FunctionEndAtEnd(p: Patterns, lines: seq<string>)
    ensures FunctionEnd(p, lines, |lines|) == |lines|
  {
  }

  lemma {:induction false} FunctionScanRange(p: Patterns, lines: seq<string>, pos: nat)
    requires pos <= |lines|
    ensures var e := FunctionEnd(p, lines, pos);
      FunctionRange(p, lines, pos, e) || (e == |lines| && UnendedRange(p, lines, pos, e))
    decreases |lines| - pos
  {
    hide ClosedRange, OpenRange, CloseEnd;
    if pos == |lines| {
    } else {
      FunctionEndStep(p, lines, pos);
      var e := FunctionEnd(p, lines, pos);
      if p.hereDoc(lines[pos]).Some? {
        var c := HereDocCloser(p.hereDoc(lines[pos]).value);
        var k := CloseEnd(p, c, lines, pos + 1);
        ScanRange(p, c, lines, pos + 1);
        FunctionScanRange(p, lines, k);
        FunctionRangeBounds(p, lines, k, e);
        if !ClosedRange(p, c, lines, pos + 1, k) {
          FunctionEndAtEnd(p, lines);
        }
      } else if !p.functionEnd(lines[pos]) {
        FunctionScanRange(p, lines, pos + 1);
      }
      hide FunctionEnd;
    }
  }

  lemma FunctionRangeBounds(p: Patterns, lines: seq<string>, pos: nat, end: nat)
    ensures FunctionRange(p, lines, pos, end) ==> pos < end <= |lines|
  {
  }

  // ----- Ranges of a body and of the input it stands in -----

  lemma AtLine(lines: seq<string>, pos: nat, body: seq<string>, i: nat)
    requires At(lines, pos, body) && i < |body|
    ensures pos + i < |lines| && lines[pos + i] == body[i]
  {
  }

  lemma ShiftClosed(p: Patterns, c: Closer, lines: seq<string>, pos: nat, body: seq<string>, i: nat, j: nat)
    requires At(lines, pos, body) && j <= |body|
    ensures ClosedRange(p, c, body, i, j) <==> ClosedRange(p, c, lines, pos + i, pos + j)
  {
    hide Closes;
    if i < j {
      AtLine(lines, pos, body, j - 1);
    }
    if ClosedRange(p, c, lines, pos + i, pos + j) {
      forall k | i <= k < j - 1 ensures !Closes(p, c, body[k]) {
        AtLine(lines, pos, body, k);
        assert !Closes(p, c, lines[pos + k]);
      }
    }
    if ClosedRange(p, c, body, i, j) {
      forall k | pos + i <= k < pos + j - 1 ensures !Closes(p, c, lines[k]) {
        AtLine(lines, pos, body, k - pos);
        assert !Closes(p, c, body[k - pos]);
      }
    }
  }

  lemma ShiftOpen(p: Patterns, c: Closer, lines: seq<string>, pos: nat, body: seq<string>, i: nat, j: nat)
    requires At(lines, pos, body) && j <= |body|
    ensures OpenRange(p, c, body, i, j) <==> OpenRange(p, c, lines, pos + i, pos + j)
  {
    hide Closes;
    if OpenRange(p, c, lines, pos + i, pos + j) {
      forall k | i <= k < j ensures !Closes(p, c, body[k]) {
        AtLine(lines, pos, body, k);
        assert !Closes(p, c, lines[pos + k]);
      }
    }
    if OpenRange(p, c, body, i, j) {
      forall k | pos + i <= k < pos + j ensures !Closes(p, c, lines[k]) {
        AtLine(lines, pos, body, k - pos);
        assert !Closes(p, c, body[k - pos]);
      }
    }
  }

  // Where the here-document at the start of a function's rest ends.
  lemma FunctionHereDoc(p: Patterns, lines: seq<string>, pos: nat, end: nat) returns (k: nat)
    requires FunctionRange(p, lines, pos, end) && p.hereDoc(lines[pos]).Some?
    ensures pos < k < end && ClosedRange(p, HereDocCloser(p.hereDoc(lines[pos]).value), lines, pos + 1, k)
    ensures FunctionRange(p, lines, k, end)
  {
    hide ClosedRange;
    k :| pos < k < end && ClosedRange(p, HereDocCloser(p.hereDoc(lines[pos]).value), lines, pos + 1, k)
      && FunctionRange(p, lines, k, end);
  }

  lemma UnendedHereDoc(p: Patterns, lines: seq<string>, pos: nat, end: nat) returns (k: nat)
    requires pos < end && UnendedRange(p, lines, pos, end) && p.hereDoc(lines[pos]).Some?
    requires !OpenRange(p, HereDocCloser(p.hereDoc(lines[pos]).value), lines, pos + 1, end)
    ensures pos < k <= end && ClosedRange(p, HereDocCloser(p.hereDoc(lines[pos]).value), lines, pos + 1, k)
    ensures UnendedRange(p, lines, k, end)
  {
    hide ClosedRange, OpenRange;
    k :| pos < k <= end && ClosedRange(p, HereDocCloser(p.hereDoc(lines[pos]).value), lines, pos + 1, k)
      && UnendedRange(p, lines, k, end);
  }

  lemma FunctionCase(p: Patterns, lines: seq<string>, pos: nat, end: nat, k: nat)
    requires pos < |lines|
    ensures p.hereDoc(lines[pos]).Some? && pos < k < end && FunctionRange(p, lines, k, end)
        && ClosedRange(p, HereDocCloser(p.hereDoc(lines[pos]).value), lines, pos + 1, k)
      ==> FunctionRange(p, lines, pos, end)
    ensures p.hereDoc(lines[pos]).None? ==>
      (FunctionRange(p, lines, pos, end) <==>
        && pos < end <= |lines|
        && if p.functionEnd(lines[pos]) then end == pos + 1 else FunctionRange(p, lines, pos + 1, end))
  {
    hide ClosedRange;
  }

  lemma UnendedCase(p: Patterns, lines: seq<string>, pos: nat, end: nat, k: nat)
    requires pos < |lines| && pos < end <= |lines|
    ensures p.hereDoc(lines[pos]).Some? && OpenRange(p, HereDocCloser(p.hereDoc(lines[pos]).value), lines, pos + 1, end)
      ==> UnendedRange(p, lines, pos, end)
    ensures p.hereDoc(lines[pos]).Some? && pos < k <= end && UnendedRange(p, lines, k, end)
        && ClosedRange(p, HereDocCloser(p.hereDoc(lines[pos]).value), lines, pos + 1, k)
      ==> UnendedRange(p, lines, pos, end)
    ensures p.hereDoc(lines[pos]).None? ==>
      (UnendedRange(p, lines, pos, end) <==> !p.functionEnd(lines[pos]) && UnendedRange(p, lines, pos + 1, end))
  {
    hide ClosedRange, OpenRange;
  }

  lemma UnendedNothing(p: Patterns, lines: seq<string>, pos: nat, end: nat)
    requires end <= pos
    ensures UnendedRange(p, lines, pos, end) <==> pos == end <= |lines|
  {
  }

  lemma {:induction false} ShiftFunction(p: Patterns, lines: seq<string>, pos: nat, body: seq<string>, i: nat, j: nat)
    requires At(lines, pos, body) && j <= |body|
    ensures FunctionRange(p, body, i, j) <==> FunctionRange(p, lines, pos + i, pos + j)
    decreases j - i
  {
    hide *;
    AtLength(lines, pos, body);
    FunctionRangeBounds(p, body, i, j);
    FunctionRangeBounds(p, lines, pos + i, pos + j);
    if i < j {
      AtLine(lines, pos, body, i);
      if p.hereDoc(body[i]).Some? {
        var c := HereDocCloser(p.hereDoc(body[i]).value);
        if FunctionRange(p, lines, pos + i, pos + j) {
          var k := FunctionHereDoc(p, lines, pos + i, pos + j);
          ShiftClosed(p, c, lines, pos, body, i + 1, k - pos);
          ShiftFunction(p, lines, pos, body, k - pos, j);
          FunctionCase(p, body, i, j, k - pos);
        }
        if FunctionRange(p, body, i, j) {
          var k := FunctionHereDoc(p, body, i, j);
          ShiftClosed(p, c, lines, pos, body, i + 1, k);
          ShiftFunction(p, lines, pos, body, k, j);
          FunctionCase(p, lines, pos + i, pos + j, pos + k);
        }
      } else {
        FunctionCase(p, body, i, j, j);
        FunctionCase(p, lines, pos + i, pos + j, pos + j);
        ShiftFunction(p, lines, pos, body, i + 1, j);
      }
    }
  }

  lemma {:induction false} ShiftUnended(p: Patterns, lines: seq<string>, pos: nat, body: seq<string>, i: nat, j: nat)
    requires At(lines, pos, body) && i <= j <= |body|
    ensures UnendedRange(p, body, i, j) <==> UnendedRange(p, lines, pos + i, pos + j)
    decreases j - i
  {
    hide *;
    AtLength(lines, pos, body);
    if i == j {
      UnendedNothing(p, body, i, j);
      UnendedNothing(p, lines, pos + i, pos + j);
    } else {
      AtLine(lines, pos, body, i);
      if p.hereDoc(body[i]).Some? {
        var c := HereDocCloser(p.hereDoc(body[i]).value);
        ShiftOpen(p, c, lines, pos, body, i + 1, j);
        UnendedCase(p, body, i, j, j);
        UnendedCase(p, lines, pos + i, pos + j, pos + j);
        if UnendedRange(p, lines, pos + i, pos + j) && !OpenRange(p, c, lines, pos + i + 1, pos + j) {
          var k := UnendedHereDoc(p, lines, pos + i, pos + j);
          ShiftClosed(p, c, lines, pos, body, i + 1, k - pos);
          ShiftUnended(p, lines, pos, body, k - pos, j);
          UnendedCase(p, body, i, j, k - pos);
        }
        if UnendedRange(p, body, i, j) && !OpenRange(p, c, body, i + 1, j) {
          var k := UnendedHereDoc(p, body, i, j);
          ShiftClosed(p, c, lines, pos, body, i + 1, k);
          ShiftUnended(p, lines, pos, body, k, j);
          UnendedCase(p, lines, pos + i, pos + j, pos + k);
        }
      } else {
        UnendedCase(p, body, i, j, j);
        UnendedCase(p, lines, pos + i, pos + j, pos + j);
        ShiftUnended(p, lines, pos, body, i + 1, j);
      }
    }
  }

  lemma AtLength(lines: seq<string>, pos: nat, body: seq<string>)
    requires At(lines, pos, body)
    ensures pos + |body| <= |lines|
  {
  }

  lemma AtSlice(lines: seq<string>, pos: nat, body: seq<string>)
    requires pos <= |lines|
    ensures At(lines, pos, body) <==> pos + |body| <= |lines| && lines[pos..pos + |body|] == body
  {
    if pos + |body| <= |lines| && lines[pos..pos + |body|] == body {
      assert forall i | 0 <= i < |body| :: lines[pos + i] == body[i];
    }
    if At(lines, pos, body) {
      forall i | 0 <= i < |body| ensures lines[pos..pos + |body|][i] == body[i] {
        AtLine(lines, pos, body, i);
      }
    }
  }

  // A block's first line and body at a position.
  lemma AtBlock(lines: seq<string>, pos: nat, first: string, body: seq<string>)
    ensures At(lines, pos, [first] + body) <==> pos < |lines| && lines[pos] == first && At(lines, pos + 1, body)
  {
    AtConcat(lines, pos, [first], body);
    AtOne(lines, pos, first);
  }

  // The scan takes a body that closes, or that runs to the end without closing.
  lemma BodyScanned(p: Patterns, c: Closer, lines: seq<string>, pos: nat, body: seq<string>)
    requires At(lines, pos, body)
    requires ClosedRange(p, c, body, 0, |body|) || (OpenRange(p, c, body, 0, |body|) && pos + |body| == |lines|)
    ensures pos <= |lines| && CloseEnd(p, c, lines, pos) == pos + |body| && lines[pos..pos + |body|] == body
  {
    hide *;
    AtLength(lines, pos, body);
    AtSlice(lines, pos, body);
    ShiftClosed(p, c, lines, pos, body, 0, |body|);
    ShiftOpen(p, c, lines, pos, body, 0, |body|);
    if ClosedRange(p, c, body, 0, |body|) {
      ClosedScan(p, c, lines, pos, pos + |body|);
    } else {
      OpenScan(p, c, lines, pos);
    }
  }

  lemma FunctionScanned(p: Patterns, lines: seq<string>, pos: nat, body: seq<string>)
    requires At(lines, pos, body)
    requires FunctionRange(p, body, 0, |body|) || (UnendedRange(p, body, 0, |body|) && pos + |body| == |lines|)
    ensures pos <= |lines| && FunctionEnd(p, lines, pos) == pos + |body| && lines[pos..pos + |body|] == body
  {
    hide *;
    AtLength(lines, pos, body);
    AtSlice(lines, pos, body);
    ShiftFunction(p, lines, pos, body, 0, |body|);
    ShiftUnended(p, lines, pos, body, 0, |body|);
    if FunctionRange(p, body, 0, |body|) {
      FunctionScan(p, lines, pos, pos + |body|);
    } else {
      UnendedScan(p, lines, pos);
    }
  }

  // And the converse: the body the scan takes is one of these.
  lemma ScannedBody(p: Patterns, c: Closer, lines: seq<string>, pos: nat)
    requires pos <= |lines|
    ensures var e := CloseEnd(p, c, lines, pos);
      var body := lines[pos..e];
      && At(lines, pos, body)
      && (ClosedRange(p, c, body, 0, |body|) || (OpenRange(p, c, body, 0, |body|) && e == |lines|))
  {
    hide *;
    var e := CloseEnd(p, c, lines, pos);
    var body := lines[pos..e];
    AtSlice(lines, pos, body);
    ScanRange(p, c, lines, pos);
    ShiftClosed(p, c, lines, pos, body, 0, |body|);
    ShiftOpen(p, c, lines, pos, body, 0, |body|);
  }

  lemma ScannedFunction(p: Patterns, lines: seq<string>, pos: nat)
    requires pos <= |lines|
    ensures var e := FunctionEnd(p, lines, pos);
      var body := lines[pos..e];
      && At(lines, pos, body)
      && (FunctionRange(p, body, 0, |body|) || (UnendedRange(p, body, 0, |body|) && e == |lines|))
  {
    hide *;
    var e := FunctionEnd(p, lines, pos);
    var body := lines[pos..e];
    AtSlice(lines, pos, body);
    FunctionScanRange(p, lines, pos);
    ShiftFunction(p, lines, pos, body, 0, |body|);
    ShiftUnended(p, lines, pos, body, 0, |body|);
  }

  // ----- Existence and uniqueness -----

  // What decides completeness, kind by kind.
  lemma AssignCases(p: Patterns, name: string, first: string, body: seq<string>)
    ensures var b, m := Assign(name, first, body), p.assignment(first);
      var starts := m.Some? && m.value.name == name;
      && (starts && Opens(m.value) ==>
        && m.value.quote.Some?
        && (Complete(p, b) <==> ClosedRange(p, QuoteCloser(m.value.quote.value), body, 0, |body|))
        && (Unfinished(p, b) <==> OpenRange(p, QuoteCloser(m.value.quote.value), body, 0, |body|)))
      && (starts && !Opens(m.value) ==> (Complete(p, b) <==> body == []) && !Unfinished(p, b))
      && (!starts ==> !Complete(p, b) && !Unfinished(p, b))
  {
    hide ClosedRange, OpenRange, HaveEndQuote;
  }

  lemma DeclaredCases(p: Patterns, name: string, line: string)
    ensures var b := Declared(name, line);
      (Complete(p, b) <==> p.assignment(line).None? && p.declaration(line) == Some(name)) && !Unfinished(p, b)
  {
  }

  lemma HereDocCases(p: Patterns, delim: string, first: string, body: seq<string>)
    ensures var b, c := HereDocument(delim, first, body), HereDocCloser(delim);
      var starts := p.assignment(first).None? && p.declaration(first).None? && p.hereDoc(first) == Some(delim);
      && (Complete(p, b) <==> starts && ClosedRange(p, c, body, 0, |body|))
      && (Unfinished(p, b) <==> starts && OpenRange(p, c, body, 0, |body|))
  {
    hide ClosedRange, OpenRange;
  }

  lemma FunctionCases(p: Patterns, first: string, body: seq<string>)
    ensures var b := FunctionBlock(first, body);
      var starts := p.assignment(first).None? && p.declaration(first).None? && p.hereDoc(first).None?
        && p.functionStart(first);
      && (Complete(p, b) <==> starts && FunctionRange(p, body, 0, |body|))
      && (Unfinished(p, b) <==> starts && UnendedRange(p, body, 0, |body|))
  {
    hide FunctionRange, UnendedRange;
  }

  lemma OtherCases(p: Patterns, line: string)
    ensures var b := Other(line);
      && (Complete(p, b) <==>
           p.assignment(line).None? && p.declaration(line).None? && p.hereDoc(line).None? && !p.functionStart(line))
      && !Unfinished(p, b)
  {
  }

  lemma LinesCases(b: Block)
    ensures b.Assign? || b.HereDocument? || b.FunctionBlock? ==> BlockLines(b) == [b.first] + b.body
    ensures b.Declared? || b.Other? ==> BlockLines(b) == [b.line]
  {
  }

  // A valid block at a position is the block found there.
  lemma BlockFound(p: Patterns, lines: seq<string>, pos: nat, b: Block)
    requires At(lines, pos, BlockLines(b))
    requires Complete(p, b) || (Unfinished(p, b) && pos + |BlockLines(b)| == |lines|)
    ensures pos < |lines| && BlockAt(p, lines, pos) == b
  {
    hide *;
    LinesCases(b);
    match b {
      case Assign(name, first, body) =>
        AtBlock(lines, pos, first, body);
        AssignCases(p, name, first, body);
        var a := p.assignment(first).value;
        if Opens(a) {
          BodyScanned(p, QuoteCloser(a.quote.value), lines, pos + 1, body);
        }
        SliceNone(lines, pos + 1);
      case Declared(name, line) =>
        AtOne(lines, pos, line);
        DeclaredCases(p, name, line);
      case HereDocument(delim, first, body) =>
        AtBlock(lines, pos, first, body);
        HereDocCases(p, delim, first, body);
        BodyScanned(p, HereDocCloser(delim), lines, pos + 1, body);
      case FunctionBlock(first, body) =>
        AtBlock(lines, pos, first, body);
        FunctionCases(p, first, body);
        FunctionScanned(p, lines, pos + 1, body);
      case Other(line) =>
        AtOne(lines, pos, line);
        OtherCases(p, line);
    }
    BlockAtCases(p, lines, pos);
    LinesCases(BlockAt(p, lines, pos));
  }

  // The block found at a position is valid.
  lemma BlockAtValid(p: Patterns, lines: seq<string>, pos: nat)
    requires pos < |lines|
    ensures var b := BlockAt(p, lines, pos);
      && At(lines, pos, BlockLines(b))
      && (Complete(p, b) || (Unfinished(p, b) && pos + |BlockLines(b)| == |lines|))
  {
    hide *;
    var b := BlockAt(p, lines, pos);
    BlockAtCases(p, lines, pos);
    LinesCases(b);
    match b {
      case Assign(name, first, body) =>
        AtBlock(lines, pos, first, body);
        AssignCases(p, name, first, body);
        var a := p.assignment(first).value;
        if Opens(a) {
          ScannedBody(p, QuoteCloser(a.quote.value), lines, pos + 1);
        } else {
          SliceNone(lines, pos + 1);
          AtNone(lines, pos + 1);
        }
      case Declared(name, line) =>
        AtOne(lines, pos, line);
        DeclaredCases(p, name, line);
      case HereDocument(delim, first, body) =>
        AtBlock(lines, pos, first, body);
        HereDocCases(p, delim, first, body);
        ScannedBody(p, HereDocCloser(delim), lines, pos + 1);
      case FunctionBlock(first, body) =>
        AtBlock(lines, pos, first, body);
        FunctionCases(p, first, body);
        ScannedFunction(p, lines, pos + 1);
      case Other(line) =>
        AtOne(lines, pos, line);
        OtherCases(p, line);
    }
  }

  lemma AtNone(lines: seq<string>, pos: nat)
    requires pos <= |lines|
    ensures At(lines, pos, [])
  {
  }

  lemma CutFirst(p: Patterns, blocks: seq<Block>)
    requires blocks != []
    ensures Cut(p, blocks) <==>
      && (Complete(p, blocks[0]) || (blocks[1..] == [] && Unfinished(p, blocks[0])))
      && Cut(p, blocks[1..])
    ensures AllLines(blocks) == BlockLines(blocks[0]) + AllLines(blocks[1..])
    ensures blocks == [blocks[0]] + blocks[1..]
  {
    hide Complete, Unfinished, BlockLines;
    var more := blocks[1..];
    if Cut(p, blocks) {
      forall i | 0 <= i < |more| ensures Complete(p, more[i]) || (i == |more| - 1 && Unfinished(p, more[i])) {
        assert more[i] == blocks[i + 1];
      }
    }
    if Cut(p, more) && (Complete(p, blocks[0]) || (more == [] && Unfinished(p, blocks[0]))) {
      forall i | 0 <= i < |blocks| ensures Complete(p, blocks[i]) || (i == |blocks| - 1 && Unfinished(p, blocks[i])) {
        assert i > 0 ==> blocks[i] == more[i - 1];
      }
    }
  }

  lemma {:induction false} SegmentUnique(p: Patterns, lines: seq<string>, pos: nat, blocks: seq<Block>)
    requires pos <= |lines| && Cut(p, blocks)
    requires At(lines, pos, AllLines(blocks)) && pos + |AllLines(blocks)| == |lines|
    ensures Segment(p, lines, pos) == blocks
    decreases |blocks|
  {
    hide *;
    NoBlocks(p, lines, pos);
    if blocks == [] {
    } else {
      CutFirst(p, blocks);
      var b, more := blocks[0], blocks[1..];
      AtConcat(lines, pos, BlockLines(b), AllLines(more));
      NoBlocks(p, lines, pos);
      BlockFound(p, lines, pos, b);
      SegmentUnique(p, lines, pos + |BlockLines(b)|, more);
      SegmentFirst(p, lines, pos);
    }
  }

  lemma NoBlocks(p: Patterns, lines: seq<string>, pos: nat)
    requires pos <= |lines|
    ensures Segment(p, lines, |lines|) == [] && AllLines([]) == [] && Cut(p, []) && At(lines, pos, [])
  {
  }

  lemma SegmentFirst(p: Patterns, lines: seq<string>, pos: nat)
    requires pos < |lines|
    ensures var b := BlockAt(p, lines, pos);
      Segment(p, lines, pos) == [b] + Segment(p, lines, pos + |BlockLines(b)|)
  {
    hide BlockAt, BlockLines;
  }

  lemma {:induction false} SegmentValid(p: Patterns, lines: seq<string>, pos: nat)
    requires pos <= |lines|
    ensures var blocks := Segment(p, lines, pos);
      Cut(p, blocks) && At(lines, pos, AllLines(blocks)) && pos + |AllLines(blocks)| == |lines|
    decreases |lines| - pos
  {
    hide *;
    NoBlocks(p, lines, pos);
    if pos == |lines| {
    } else {
      SegmentFirst(p, lines, pos);
      BlockAtValid(p, lines, pos);
      var b := BlockAt(p, lines, pos);
      var next := pos + |BlockLines(b)|;
      SegmentValid(p, lines, next);
      var more := Segment(p, lines, next);
      assert ([b] + more)[1..] == more && ([b] + more)[0] == b;
      CutFirst(p, [b] + more);
      AtConcat(lines, pos, BlockLines(b), AllLines(more));
    }
  }

  lemma SegmentationCases(p: Patterns, blocks: seq<Block>, lines: seq<string>)
    ensures IsSegmentation(p, blocks, lines) <==> AllLines(blocks) == lines && Cut(p, blocks)
  {
    hide AllLines, Cut;
  }

  // There is exactly one way to cut the input into blocks, and it is the one
  // the filter's output is made of.
  lemma SegmentExactly(p: Patterns, blocks: seq<Block>, lines: seq<string>)
    ensures IsSegmentation(p, blocks, lines) <==> blocks == Segment(p, lines, 0)
  {
    hide *;
    SegmentationCases(p, blocks, lines);
    AtWhole(lines, AllLines(blocks));
    if blocks == Segment(p, lines, 0) {
      SegmentValid(p, lines, 0);
    }
    if IsSegmentation(p, blocks, lines) {
      SegmentUnique(p, lines, 0, blocks);
    }
  }

  // ----- What becomes of each line -----

  // Nothing, when the line's block is an assignment or declaration of a
  // filtered name; otherwise the line, cleaned when its block is such a one.
  function LineFate(p: Patterns, b: Block, j: nat): Option<string>
    requires j < |BlockLines(b)|
  {
    var line := BlockLines(b)[j];
    match b
    case Assign(name, _, _) =>
      if p.filtered(name) then None else Some(RemoveSoh(if j == 0 then DropReadonly(line) else line))
    case Declared(name, _) => if p.filtered(name) then None else Some(DropReadonly(line))
    case _ => Some(line)
  }

  function Fates(p: Patterns, b: Block): (r: seq<Option<string>>)
    ensures |r| == |BlockLines(b)| && forall j | 0 <= j < |r| :: r[j] == LineFate(p, b, j)
  {
    seq(|BlockLines(b)|, j requires 0 <= j < |BlockLines(b)| => LineFate(p, b, j))
  }

  function AllFates(p: Patterns, blocks: seq<Block>): seq<Option<string>> {
    if blocks == [] then [] else Fates(p, blocks[0]) + AllFates(p, blocks[1..])
  }

  // The lines that are written, in order.
  function Written(fates: seq<Option<string>>): seq<string> {
    if fates == [] then []
    else Written(fates[..|fates| - 1]) + if fates[|fates| - 1].Some? then [fates[|fates| - 1].value] else []
  }

  lemma {:induction false} WrittenConcat(x: seq<Option<string>>, y: seq<Option<string>>)
    ensures Written(x + y) == Written(x) + Written(y)
    decreases |y|
  {
    if y == [] {
      assert x + y == x && Written(x) + [] == Written(x);
    } else {
      var n := |y| - 1;
      WrittenConcat(x, y[..n]);
      assert (x + y)[..|x + y| - 1] == x + y[..n];
      var last := if y[n].Some? then [y[n].value] else [];
      assert Written(x) + Written(y[..n]) + last == Written(x) + (Written(y[..n]) + last);
    }
  }

  lemma {:induction false} WrittenAll(fates: seq<Option<string>>, lines: seq<string>)
    requires |fates| == |lines| && forall i | 0 <= i < |fates| :: fates[i] == Some(lines[i])
    ensures Written(fates) == lines
  {
    if fates == [] {
    } else {
      var n := |fates| - 1;
      WrittenAll(fates[..n], lines[..n]);
      assert lines == lines[..n] + [lines[n]];
    }
  }

  lemma {:induction false} WrittenNone(fates: seq<Option<string>>)
    requires forall i | 0 <= i < |fates| :: fates[i].None?
    ensures Written(fates) == []
  {
    if fates == [] {
    } else {
      WrittenNone(fates[..|fates| - 1]);
    }
  }

  lemma BlockWritten(p: Patterns, b: Block)
    ensures BlockOutput(p, b) == Written(Fates(p, b))
  {
    hide RemoveSoh, DropReadonly, Written;
    if (b.Assign? || b.Declared?) && p.filtered(b.name) {
      WrittenNone(Fates(p, b));
    } else {
      WrittenAll(Fates(p, b), BlockOutput(p, b));
    }
  }

  lemma {:induction false} OutputWritten(p: Patterns, blocks: seq<Block>)
    ensures Output(p, blocks) == Written(AllFates(p, blocks))
    ensures |AllFates(p, blocks)| == |AllLines(blocks)|
  {
    hide BlockOutput, Fates;
    if blocks == [] {
    } else {
      OutputWritten(p, blocks[1..]);
      BlockWritten(p, blocks[0]);
      WrittenConcat(Fates(p, blocks[0]), AllFates(p, blocks[1..]));
    }
  }

  // Line `j` of block `i`, counted through all lines.
  lemma {:induction false} FateAt(p: Patterns, blocks: seq<Block>, i: nat, j: nat)
    requires i < |blocks| && j < |BlockLines(blocks[i])|
    ensures var k := |AllLines(blocks[..i])| + j;
      && k < |AllLines(blocks)| == |AllFates(p, blocks)|
      && AllLines(blocks)[k] == BlockLines(blocks[i])[j]
      && AllFates(p, blocks)[k] == LineFate(p, blocks[i], j)
    decreases i
  {
    hide LineFate, BlockLines, Output, Written;
    var first, more := blocks[0], blocks[1..];
    OutputWritten(p, blocks);
    OutputWritten(p, more);
    if i == 0 {
      assert blocks[..0] == [];
    } else {
      FateAt(p, more, i - 1, j);
      assert blocks[..i][0] == first && blocks[..i][1..] == more[..i - 1];
      assert AllLines(blocks[..i]) == BlockLines(first) + AllLines(more[..i - 1]);
    }
  }

  // The filter's output, line by line: each input line has one fate, given by
  // its block, and the output is what the fates leave, in order.  So exactly
  // the lines of assignments and declarations of filtered names are gone, and
  // lines of here-documents, functions and other text are as they were.
  lemma DroppedExactly(p: Patterns, lines: seq<string>, i: nat, j: nat)
    requires i < |Segment(p, lines, 0)| && j < |BlockLines(Segment(p, lines, 0)[i])|
    ensures var blocks := Segment(p, lines, 0);
      var b, k, fates := blocks[i], |AllLines(blocks[..i])| + j, AllFates(p, blocks);
      && Output(p, blocks) == Written(fates)
      && k < |lines| == |fates| && lines[k] == BlockLines(b)[j] && fates[k] == LineFate(p, b, j)
      && (fates[k].None? <==> (b.Assign? || b.Declared?) && p.filtered(b.name))
      && (!b.Assign? && !b.Declared? ==> fates[k] == Some(lines[k]))
  {
    hide *;
    var blocks := Segment(p, lines, 0);
    FateCases(p, blocks[i], j);
    SegmentExactly(p, blocks, lines);
    SegmentationCases(p, blocks, lines);
    OutputWritten(p, blocks);
    FateAt(p, blocks, i, j);
  }

  lemma FateCases(p: Patterns, b: Block, j: nat)
    requires j < |BlockLines(b)|
    ensures LineFate(p, b, j).None? <==> (b.Assign? || b.Declared?) && p.filtered(b.name)
    ensures !b.Assign? && !b.Declared? ==> LineFate(p, b, j) == Some(BlockLines(b)[j])
  {
    hide RemoveSoh, DropReadonly;
  }

  // ----- Dropping a block -----

  ghost predicate AllComplete(p: Patterns, blocks: seq<Block>) {
    forall i | 0 <= i < |blocks| :: Complete(p, blocks[i])
  }

  lemma CutConcat(p: Patterns, x: seq<Block>, y: seq<Block>)
    requires AllComplete(p, x) && Cut(p, y)
    ensures Cut(p, x + y)
  {
    hide Complete, Unfinished;
    var all := x + y;
    forall i | 0 <= i < |all| ensures Complete(p, all[i]) || (i == |all| - 1 && Unfinished(p, all[i])) {
      assert all[i] == if i < |x| then x[i] else y[i - |x|];
    }
  }

  lemma CutWhole(p: Patterns, blocks: seq<Block>)
    requires Cut(p, blocks)
    ensures Segment(p, AllLines(blocks), 0) == blocks
  {
    hide *;
    SegmentationCases(p, blocks, AllLines(blocks));
    SegmentExactly(p, blocks, AllLines(blocks));
  }

  // A complete block that is dropped leaves the rest of the output as if it
  // had not been in the input at all, wherever it stands.
  lemma BlockVanishes(p: Patterns, x: seq<Block>, b: Block, y: seq<Block>)
    requires AllComplete(p, x) && Complete(p, b) && Cut(p, y) && BlockOutput(p, b) == []
    ensures Output(p, Segment(p, AllLines(x + ([b] + y)), 0)) == Output(p, Segment(p, AllLines(x + y), 0))
  {
    hide *;
    OneComplete(p, b);
    OneOutput(p, b);
    CutConcat(p, [b], y);
    CutConcat(p, x, [b] + y);
    CutConcat(p, x, y);
    CutWhole(p, x + ([b] + y));
    CutWhole(p, x + y);
    OutputConcat(p, x, [b] + y);
    OutputConcat(p, [b], y);
    OutputConcat(p, x, y);
    Text.Assoc([], [], Output(p, y));
  }

  lemma OneComplete(p: Patterns, b: Block)
    requires Complete(p, b)
    ensures AllComplete(p, [b])
  {
  }

  lemma OneOutput(p: Patterns, b: Block)
    ensures Output(p, [b]) == BlockOutput(p, b)
  {
    hide BlockOutput;
    assert [b][1..] == [];
    assert BlockOutput(p, b) + [] == BlockOutput(p, b);
  }
}
