// `layout.conf`: the line parser with its current section and last option, and
// the numbered entries read from its `[structure]` section.
module LayoutConfig {
  import opened Wrappers
  import opened Text
  import opened Decimals

  type Options = map<string, string>

  type Sections = map<string, Options>

  // The 1-based line a refusal is about.
  datatype Error =
    | DuplicateSection(line: nat, name: string)
    | NoHeader(line: nat)
    | NotAnOption(line: nat)
    | DuplicateOption(line: nat, key: string)

  // Case folding of keys, left open.
  type Lower = string -> string

  // ----- Lines -----

  // `str::lines`: a final empty piece is no line, and `\r` before the break goes.
  function Lines(text: string): seq<string> {
    var pieces := Split(text, '\n');
    var n := |pieces| - 1;
    DropReturns(pieces[..n]) + if pieces[n] == "" then [] else [pieces[n]]
  }

  function DropReturn(s: string): string {
    if EndsWith(s, '\r') then s[..|s| - 1] else s
  }

  function DropReturns(pieces: seq<string>): (r: seq<string>)
    ensures |r| == |pieces| && forall i | 0 <= i < |r| :: r[i] == DropReturn(pieces[i])
  {
    seq(|pieces|, i requires 0 <= i < |pieces| => DropReturn(pieces[i]))
  }

  // `find(['=', ':'])`
  function FindDelimiter(s: string): (r: Option<nat>)
    ensures r.Some? ==> r.value < |s| && s[r.value] in {'=', ':'} && forall i | 0 <= i < r.value :: s[i] !in {'=', ':'}
    ensures r.None? ==> forall i | 0 <= i < |s| :: s[i] !in {'=', ':'}
  {
    if s == "" then None
    else if s[0] in {'=', ':'} then Some(0)
    else
      var rest := FindDelimiter(s[1..]);
      assert forall i | 1 <= i < |s| :: s[i] == s[1..][i - 1];
      if rest.None? then None else Some(rest.value + 1)
  }

  // `[name]` with a non-empty name.
  function HeaderName(stripped: string): Option<string> {
    if |stripped| > 2 && stripped[0] == '[' && stripped[|stripped| - 1] == ']' then
      Some(stripped[1..|stripped| - 1])
    else None
  }

  // ----- One line -----

  datatype State = State(sections: Sections, current: Option<string>, lastOption: Option<string>)

  const START := State(map[], None, None)

  // What the parser's `expect`s rely on: the current section and the last
  // option are in the tables.
  predicate Present(st: State) {
    && (st.current.Some? ==> st.current.value in st.sections)
    && (st.lastOption.Some? ==> st.current.Some? && st.lastOption.value in st.sections[st.current.value])
  }

  predicate IsSkipped(stripped: string) {
    stripped == "" || stripped[0] == '#' || stripped[0] == ';'
  }

  predicate IsIndented(raw: string) {
    raw != "" && raw[0] in {' ', '\t'}
  }

  // The sections with one option's value replaced or added.
  function WithOption(sections: Sections, name: string, key: string, value: string): Sections
    requires name in sections
  {
    sections[name := sections[name][key := value]]
  }

  function Step(st: State, line: nat, raw: string, lower: Lower): (r: Result<State, Error>)
    requires Present(st)
    ensures r.Ok? ==> Present(r.value)
  {
    var stripped := Trim(raw);
    if IsSkipped(stripped) then Ok(st)
    else if IsIndented(raw) && st.current.Some? && st.lastOption.Some? then
      var name, key := st.current.value, st.lastOption.value;
      Ok(st.(sections := WithOption(st.sections, name, key, st.sections[name][key] + ("\n" + stripped))))
    else
      var header := HeaderName(stripped);
      if header.Some? then
        if header.value in st.sections then Err(DuplicateSection(line, header.value))
        else Ok(State(st.sections[header.value := map[]], header, None))
      else if st.current.None? then Err(NoHeader(line))
      else
        var delim := FindDelimiter(stripped);
        if delim.None? then Err(NotAnOption(line))
        else
          var key := lower(Trim(stripped[..delim.value]));
          var value := Trim(stripped[delim.value + 1..]);
          if key in st.sections[st.current.value] then Err(DuplicateOption(line, key))
          else Ok(State(WithOption(st.sections, st.current.value, key, value), st.current, Some(key)))
  }

  // All lines, in order; the first bad one decides the error.
  function Scan(lines: seq<string>, lower: Lower): (r: Result<State, Error>)
    ensures r.Ok? ==> Present(r.value)
  {
    if lines == [] then Ok(START)
    else
      var n := |lines| - 1;
      var before := Scan(lines[..n], lower);
      if before.Err? then before else Step(before.value, n + 1, lines[n], lower)
  }

  // ----- The structure entries -----

  // Whether the keys `0`, ..., `k - 1` are all there.
  ghost predicate HasKeys(options: Options, k: nat) {
    forall i: nat | i < k :: Decimal(i) in options
  }

  function NumberedKeys(k: nat): set<string> {
    set i: nat | i < k :: Decimal(i)
  }

  lemma {:induction false} NumberedKeysCount(k: nat)
    ensures |NumberedKeys(k)| == k
  {
    hide Decimal;
    if k == 0 {
      assert NumberedKeys(0) == {};
    } else {
      NumberedKeysCount(k - 1);
      NewKey(k - 1);
      assert NumberedKeys(k) == NumberedKeys(k - 1) + {Decimal(k - 1)};
    }
  }

  lemma NewKey(k: nat)
    ensures Decimal(k) !in NumberedKeys(k)
  {
    hide Decimal;
    forall i: nat | i < k ensures Decimal(i) != Decimal(k) {
      if Decimal(i) == Decimal(k) {
        DecimalInjective(i, k);
      }
    }
  }

  // So the unbounded count stops: there are at most as many numbered keys as keys.
  lemma KeysBound(options: Options, k: nat)
    requires HasKeys(options, k)
    ensures k <= |options|
  {
    hide Decimal;
    NumberedKeysCount(k);
    assert NumberedKeys(k) <= options.Keys;
    SubsetSize(NumberedKeys(k), options.Keys);
  }

  lemma {:induction false} SubsetSize(a: set<string>, b: set<string>)
    requires a <= b
    ensures |a| <= |b|
    decreases |a|
  {
    if a == {} {
    } else {
      var x :| x in a;
      SubsetSize(a - {x}, b - {x});
    }
  }

  function EntriesFrom(options: Options, i: nat): seq<seq<string>>
    requires HasKeys(options, i)
    decreases |options| + 1 - i
  {
    if Decimal(i) !in options then []
    else
      KeysBound(options, i + 1);
      [SplitWhitespace(options[Decimal(i)])] + EntriesFrom(options, i + 1)
  }

  lemma EntriesCases(options: Options, i: nat)
    requires HasKeys(options, i)
    ensures Decimal(i) !in options ==> EntriesFrom(options, i) == []
    ensures Decimal(i) in options ==>
      && HasKeys(options, i + 1) && i + 1 <= |options|
      && EntriesFrom(options, i) == [SplitWhitespace(options[Decimal(i)])] + EntriesFrom(options, i + 1)
  {
    hide Decimal, SplitWhitespace;
    if Decimal(i) in options {
      forall j: nat | j < i + 1 ensures Decimal(j) in options {}
      KeysBound(options, i + 1);
    }
  }

  // Entry `j` is the value of the `j`th key counted from `i`.
  lemma {:induction false} EntryAt(options: Options, i: nat, j: nat)
    requires HasKeys(options, i) && j < |EntriesFrom(options, i)|
    ensures Decimal(i + j) in options && EntriesFrom(options, i)[j] == SplitWhitespace(options[Decimal(i + j)])
    decreases j
  {
    hide *;
    EntriesCases(options, i);
    if j == 0 {
    } else {
      EntryAt(options, i + 1, j - 1);
    }
  }

  // After the entries comes the first absent key.
  lemma {:induction false} EntriesEnd(options: Options, i: nat)
    requires HasKeys(options, i)
    ensures Decimal(i + |EntriesFrom(options, i)|) !in options
    decreases |options| + 1 - i
  {
    hide *;
    EntriesCases(options, i);
    if Decimal(i) in options {
      EntriesEnd(options, i + 1);
    }
  }

  // The structure is exactly the values of the keys below the least absent one.
  lemma StructureMeaning(sections: Sections)
    ensures "structure" !in sections ==> Structure(sections) == []
    ensures "structure" in sections ==>
      var options, entries := sections["structure"], Structure(sections);
      && Decimal(|entries|) !in options
      && forall j | 0 <= j < |entries| :: Decimal(j) in options && entries[j] == SplitWhitespace(options[Decimal(j)])
  {
    hide *;
    StructureCases(sections);
    if "structure" in sections {
      var options := sections["structure"];
      EntriesEnd(options, 0);
      forall j | 0 <= j < |Structure(sections)|
        ensures Decimal(j) in options && Structure(sections)[j] == SplitWhitespace(options[Decimal(j)])
      {
        EntryAt(options, 0, j);
      }
    }
  }

  function Structure(sections: Sections): seq<seq<string>> {
    if "structure" in sections then EntriesFrom(sections["structure"], 0) else []
  }

  function ParseConfig(text: string, lower: Lower): Result<seq<seq<string>>, Error> {
    var r := Scan(Lines(text), lower);
    if r.Err? then Err(r.error) else Ok(Structure(r.value.sections))
  }

  // ----- The parser itself -----

  // `MirrorLayoutConfig::parse`; that the table accesses are in range on every
  // text is what its `expect`s claim.
  method Parse(text: string, lower: Lower) returns (r: Result<seq<seq<string>>, Error>)
    ensures r == ParseConfig(text, lower)
  {
    hide *;
    ParseCases(text, lower);
    var lines := Lines(text);
    var sections: Sections := map[];
    var current: Option<string> := None;
    var lastOption: Option<string> := None;
    ScanNothing(lines, lower);
    for lineno := 0 to |lines|
      invariant current.Some? ==> current.value in sections
      invariant lastOption.Some? ==> current.Some? && lastOption.value in sections[current.value]
      invariant Scan(lines[..lineno], lower) == Ok(State(sections, current, lastOption))
    {
      var raw := lines[lineno];
      var st := State(sections, current, lastOption);
      IntroPresent(st);
      ScanStep(lines, lineno, lower);
      StepCases(st, lineno + 1, raw, lower);
      var stripped := Trim(raw);
      if IsSkipped(stripped) { continue; }
      if IsIndented(raw) && current.Some? && lastOption.Some? {
        var value := sections[current.value][lastOption.value];
        value := value + ("\n" + stripped);
        sections := WithOption(sections, current.value, lastOption.value, value);
        OptionPresent(st.sections, current.value, lastOption.value, value);
        continue;
      }
      var header := HeaderName(stripped);
      if header.Some? {
        if header.value in sections { return Err(DuplicateSection(lineno + 1, header.value)); }
        sections := sections[header.value := map[]];
        current := header;
        lastOption := None;
        continue;
      }
      if current.None? { return Err(NoHeader(lineno + 1)); }
      var delim := FindDelimiter(stripped);
      if delim.None? { return Err(NotAnOption(lineno + 1)); }
      var key := lower(Trim(stripped[..delim.value]));
      var value := Trim(stripped[delim.value + 1..]);
      if key in sections[current.value] { return Err(DuplicateOption(lineno + 1, key)); }
      sections := WithOption(sections, current.value, key, value);
      OptionPresent(st.sections, current.value, key, value);
      lastOption := Some(key);
    }
    assert lines[..|lines|] == lines;
    var structure: seq<seq<string>> := [];
    StructureCases(sections);
    if "structure" in sections {
      var options := sections["structure"];
      var i := 0;
      NoKeys(options);
      while Decimal(i) in options
        invariant HasKeys(options, i)
        invariant structure + EntriesFrom(options, i) == EntriesFrom(options, 0)
        decreases |options| + 1 - i
      {
        EntriesCases(options, i);
        AppendEntry(structure, options, i);
        structure := structure + [SplitWhitespace(options[Decimal(i)])];
        i := i + 1;
      }
      EntriesCases(options, i);
      assert structure + [] == structure;
    }
    return Ok(structure);
  }

  lemma ParseCases(text: string, lower: Lower)
    ensures var s := Scan(Lines(text), lower);
      ParseConfig(text, lower) == if s.Err? then Err(s.error) else Ok(Structure(s.value.sections))
  {
    hide Scan, Lines, Structure;
  }

  lemma StructureCases(sections: Sections)
    ensures "structure" in sections ==>
      HasKeys(sections["structure"], 0) && Structure(sections) == EntriesFrom(sections["structure"], 0)
    ensures "structure" !in sections ==> Structure(sections) == []
  {
    hide EntriesFrom;
  }

  lemma ScanNothing(lines: seq<string>, lower: Lower)
    ensures Scan(lines[..0], lower) == Ok(State(map[], None, None))
  {
  }

  lemma IntroPresent(st: State)
    requires st.current.Some? ==> st.current.value in st.sections
    requires st.lastOption.Some? ==> st.current.Some? && st.lastOption.value in st.sections[st.current.value]
    ensures Present(st)
  {
  }

  lemma OptionPresent(sections: Sections, name: string, key: string, value: string)
    requires name in sections
    ensures var after := WithOption(sections, name, key, value); name in after && key in after[name]
  {
  }

  // One turn of the loop: the next state, or the error of the whole text.
  lemma ScanStep(lines: seq<string>, n: nat, lower: Lower)
    requires n < |lines| && Scan(lines[..n], lower).Ok?
    ensures Present(Scan(lines[..n], lower).value)
    ensures var r := Step(Scan(lines[..n], lower).value, n + 1, lines[n], lower);
      && Scan(lines[..n + 1], lower) == r
      && (r.Err? ==> Scan(lines, lower) == r)
  {
    hide Step, Present;
    assert lines[..n + 1][..n] == lines[..n];
    if Scan(lines[..n + 1], lower).Err? {
      ScanFails(lines, n + 1, lower);
    }
  }

  lemma {:induction false} ScanFails(lines: seq<string>, n: nat, lower: Lower)
    requires n <= |lines| && Scan(lines[..n], lower).Err?
    ensures Scan(lines, lower) == Scan(lines[..n], lower)
    decreases |lines|
  {
    hide Step, Present;
    if n == |lines| {
      assert lines[..n] == lines;
    } else {
      var before := lines[..|lines| - 1];
      assert before[..n] == lines[..n];
      ScanFails(before, n, lower);
    }
  }

  lemma StepCases(st: State, line: nat, raw: string, lower: Lower)
    requires Present(st)
    ensures var stripped := Trim(raw);
      var header, delim := HeaderName(stripped), FindDelimiter(stripped);
      && (st.current.Some? ==> st.current.value in st.sections)
      && (st.lastOption.Some? ==> st.current.Some? && st.lastOption.value in st.sections[st.current.value])
      && Step(st, line, raw, lower) ==
      if IsSkipped(stripped) then Ok(st)
      else if IsIndented(raw) && st.current.Some? && st.lastOption.Some? then
        var name, key := st.current.value, st.lastOption.value;
        var value := st.sections[name][key] + ("\n" + stripped);
        Ok(State(WithOption(st.sections, name, key, value), st.current, st.lastOption))
      else if header.Some? then
        if header.value in st.sections then Err(DuplicateSection(line, header.value))
        else Ok(State(st.sections[header.value := map[]], header, None))
      else if st.current.None? then Err(NoHeader(line))
      else if delim.None? then Err(NotAnOption(line))
      else
        var key := lower(Trim(stripped[..delim.value]));
        var value := Trim(stripped[delim.value + 1..]);
        if key in st.sections[st.current.value] then Err(DuplicateOption(line, key))
        else Ok(State(WithOption(st.sections, st.current.value, key, value), st.current, Some(key)))
  {
    hide Trim, HeaderName, FindDelimiter, IsSkipped, IsIndented, WithOption;
  }

  lemma NoKeys(options: Options)
    ensures HasKeys(options, 0) && [] + EntriesFrom(options, 0) == EntriesFrom(options, 0)
  {
    hide EntriesFrom;
  }

  lemma AppendEntry(structure: seq<seq<string>>, options: Options, i: nat)
    requires HasKeys(options, i) && Decimal(i) in options && HasKeys(options, i + 1)
    ensures structure + EntriesFrom(options, i) ==
      structure + [SplitWhitespace(options[Decimal(i)])] + EntriesFrom(options, i + 1)
  {
    hide Decimal, SplitWhitespace;
    var e := [SplitWhitespace(options[Decimal(i)])];
    assert structure + (e + EntriesFrom(options, i + 1)) == structure + e + EntriesFrom(options, i + 1);
  }
}
