// The memo tables around parsing and matching.  Every entry point first looks
// in its table, and fills it on a miss; the tables are never invalidated.
module MemoCache {
  import opened Wrappers
  import opened AtomParser
  import opened AtomLaws
  import opened Candidates
  import opened Conditionals

  // ----- What the tables stand for: the same functions without tables -----

  // `trim_start_matches('!')`
  function TrimBangs(s: string): string {
    if s != "" && s[0] == '!' then TrimBangs(s[1..]) else s
  }

  // `parse_match_atom`
  function ParsedForMatch(s: string): (r: Option<Atom>)
    ensures r.Some? ==> Testable(r.value)
  {
    var r := ParseUncached(TrimBangs(s), MATCH_OPTIONS, "");
    if r.Ok? then
      ParsedTestable(TrimBangs(s), MATCH_OPTIONS, "", r.value);
      Some(r.value)
    else None
  }

  // `match_atom_matches_candidate`
  predicate Matching(a: Atom, candidate: string, buildId: Option<string>, vercmp: VersionOrder)
    requires Testable(a)
  {
    var c := ParseCandidate(candidate);
    c.Some? && CandidateHits(a, if buildId.Some? then c.value.(buildId := buildId) else c.value, vercmp)
  }

  function Verdict(atom: string, candidate: string, buildId: Option<string>, vercmp: VersionOrder): Option<bool> {
    var a := ParsedForMatch(atom);
    if a.None? then None else Some(Matching(a.value, candidate, buildId, vercmp))
  }

  // The candidates of the list that match, in order.
  function Selected(a: Atom, candidates: seq<(string, Option<string>)>, vercmp: VersionOrder): seq<string>
    requires Testable(a)
  {
    if candidates == [] then []
    else
      var n := |candidates| - 1;
      var before := Selected(a, candidates[..n], vercmp);
      if Matching(a, candidates[n].0, candidates[n].1, vercmp) then before + [candidates[n].0] else before
  }

  // `match_from_list_with_build_id`
  function Listed(atom: string, candidates: seq<(string, Option<string>)>, vercmp: VersionOrder): Option<seq<string>> {
    var a := ParsedForMatch(atom);
    if a.None? then None else Some(Selected(a.value, candidates, vercmp))
  }

  function WithoutIds(candidates: seq<string>): (r: seq<(string, Option<string>)>)
    ensures |r| == |candidates|
    ensures forall i | 0 <= i < |r| :: r[i] == (candidates[i], None)
  {
    seq(|candidates|, i requires 0 <= i < |candidates| => (candidates[i], None))
  }

  // ----- Tables that agree with the functions -----

  type OptionsTable = map<AtomOptions, map<string, Result<Atom, AtomError>>>

  type PairKey = (string, string, Option<string>)

  // For each entry of the options table, the EAPI spelling of the call that filled it.
  type Spellings = map<(AtomOptions, string), string>

  ghost predicate AtomsAgree(m: map<string, Option<Atom>>) {
    forall s | s in m :: m[s] == ParseAtom(s)
  }

  ghost predicate CandidatesAgree(m: map<string, Option<Candidate>>) {
    forall s | s in m :: m[s] == ParseCandidate(s)
  }

  ghost predicate OptionsAgree(m: OptionsTable, spelt: Spellings) {
    && (forall o, s | o in m && s in m[o] :: (o, s) in spelt && m[o][s] == ParseUncached(s, o, spelt[(o, s)]))
    && (forall o, s | (o, s) in spelt :: o in m && s in m[o])
  }

  ghost predicate PairsAgree(m: map<PairKey, Option<bool>>, vercmp: VersionOrder) {
    forall k | k in m :: m[k] == Verdict(k.0, k.1, k.2, vercmp)
  }

  // The spellings after a call with these options and text: the first one stays.
  function Logged(spelt: Spellings, opts: AtomOptions, s: string, e: string): Spellings {
    if (opts, s) in spelt then spelt else spelt[(opts, s) := e]
  }

  // Agreement wherever a spelling could show: without an EAPI it never does.
  ghost predicate SameLog(x: Spellings, y: Spellings) {
    forall k: (AtomOptions, string) | !k.0.eapi.NoEapi? :: (k in x <==> k in y) && (k in x ==> x[k] == y[k])
  }

  lemma Stored(m: OptionsTable, spelt: Spellings, opts: AtomOptions, s: string, e: string)
    requires OptionsAgree(m, spelt) && (opts !in m || s !in m[opts])
    ensures var row := if opts in m then m[opts] else map[];
      OptionsAgree(m[opts := row[s := ParseUncached(s, opts, e)]], spelt[(opts, s) := e])
    ensures Logged(spelt, opts, s, e) == spelt[(opts, s) := e]
  {
    hide ParseUncached;
  }

  class Memo {
    const vercmp: VersionOrder
    var atoms: map<string, Option<Atom>>
    var candidates: map<string, Option<Candidate>>
    var atomsByOptions: OptionsTable
    var pairs: map<PairKey, Option<bool>>
    ghost var spelt: Spellings

    ghost predicate Valid()
      reads this
    {
      && AtomsAgree(atoms)
      && CandidatesAgree(candidates)
      && OptionsAgree(atomsByOptions, spelt)
      && PairsAgree(pairs, vercmp)
    }

    constructor (vercmp: VersionOrder)
      ensures Valid() && spelt == map[] && this.vercmp == vercmp
    {
      this.vercmp := vercmp;
      atoms, candidates, atomsByOptions, pairs, spelt := map[], map[], map[], map[], map[];
      new;
      hide ParseUncached, Candidates.ParseCandidate, Verdict, SpellingFits, Conditionals.ParseAtom;
    }

    method ParseAtom(s: string) returns (r: Option<Atom>)
      requires Valid()
      modifies this`atoms
      ensures Valid()
      ensures r == Conditionals.ParseAtom(s)
    {
      hide Conditionals.ParseAtom, CandidatesAgree, OptionsAgree, PairsAgree;
      if s in atoms { return atoms[s]; }
      r := Conditionals.ParseAtom(s);
      atoms := atoms[s := r];
    }

    // The answer is the parser's for the spelling of the first call with these
    // options and text, whatever this call's own spelling is.
    method ParseAtomWith(s: string, opts: AtomOptions, eapiText: string) returns (r: Result<Atom, AtomError>)
      requires Valid()
      modifies this`atomsByOptions, this`spelt
      ensures Valid()
      ensures spelt == Logged(old(spelt), opts, s, eapiText)
      ensures (opts, s) in spelt && r == ParseUncached(s, opts, spelt[(opts, s)])
    {
      hide ParseUncached, AtomsAgree, CandidatesAgree, PairsAgree;
      if opts in atomsByOptions && s in atomsByOptions[opts] {
        return atomsByOptions[opts][s];
      }
      r := ParseUncached(s, opts, eapiText);
      Stored(atomsByOptions, spelt, opts, s, eapiText);
      var row := if opts in atomsByOptions then atomsByOptions[opts] else map[];
      atomsByOptions := atomsByOptions[opts := row[s := r]];
      spelt := spelt[(opts, s) := eapiText];
      hide OptionsAgree;
    }

    method ParseCandidate(s: string) returns (r: Option<Candidate>)
      requires Valid()
      modifies this`candidates
      ensures Valid()
      ensures r == Candidates.ParseCandidate(s)
    {
      hide Candidates.ParseCandidate, AtomsAgree, OptionsAgree, PairsAgree;
      if s in candidates { return candidates[s]; }
      r := Candidates.ParseCandidate(s);
      candidates := candidates[s := r];
    }

    method ParseMatchAtom(s: string) returns (r: Option<Atom>)
      requires Valid()
      modifies this`atomsByOptions, this`spelt
      ensures Valid() && SameLog(old(spelt), spelt)
      ensures r == ParsedForMatch(s)
    {
      hide *;
      MatchCases(s);
      UnshownLog(spelt, TrimBangs(s));
      var parsed := ParseAtomWith(TrimBangs(s), MATCH_OPTIONS, "");
      UnshownSpelling(TrimBangs(s), spelt[(MATCH_OPTIONS, TrimBangs(s))]);
      r := if parsed.Ok? then Some(parsed.value) else None;
    }

    method MatchAtomMatchesCandidate(a: Atom, candidate: string, buildId: Option<string>) returns (r: bool)
      requires Valid() && Testable(a)
      modifies this`candidates
      ensures Valid()
      ensures r == Matching(a, candidate, buildId, vercmp)
    {
      hide Valid, Candidates.ParseCandidate, CandidateHits, Testable;
      var c := ParseCandidate(candidate);
      if c.None? { return false; }
      var instance := c.value;
      if buildId.Some? { instance := instance.(buildId := Some(buildId.value)); }
      r := CandidateHits(a, instance, vercmp);
    }

    method MatchPair(atom: string, candidate: string, buildId: Option<string>) returns (r: Option<bool>)
      requires Valid()
      modifies this`atomsByOptions, this`spelt, this`candidates, this`pairs
      ensures Valid() && SameLog(old(spelt), spelt)
      ensures r == Verdict(atom, candidate, buildId, vercmp)
    {
      hide ParsedForMatch, Matching, Testable, AtomsAgree, CandidatesAgree, OptionsAgree;
      var key := (atom, candidate, buildId);
      if key in pairs { return pairs[key]; }
      var parsed := ParseMatchAtom(atom);
      if parsed.None? {
        r := None;
      } else {
        var hit := MatchAtomMatchesCandidate(parsed.value, candidate, buildId);
        r := Some(hit);
      }
      assert r == Verdict(atom, candidate, buildId, vercmp);
      hide Verdict;
      pairs := pairs[key := r];
    }

    method MatchFromList(atom: string, list: seq<string>) returns (r: Option<seq<string>>)
      requires Valid()
      modifies this`atomsByOptions, this`spelt, this`candidates, this`pairs
      ensures Valid() && SameLog(old(spelt), spelt)
      ensures r == Listed(atom, WithoutIds(list), vercmp)
    {
      hide *;
      ListedCases(atom, WithoutIds(list), vercmp);
      if list == [] {
        var parsed := ParseMatchAtom(atom);
        return if parsed.None? then None else Some([]);
      }
      var out: seq<string> := [];
      SameItself(spelt);
      for i := 0 to |list|
        invariant Valid() && SameLog(old(spelt), spelt)
        invariant i == 0 ==> out == []
        invariant i > 0 ==> Listed(atom, WithoutIds(list)[..i], vercmp) == Some(out)
      {
        ListedSnoc(atom, WithoutIds(list), i, vercmp);
        ghost var before := spelt;
        var hit := MatchPair(atom, list[i], None);
        SameLogTransitive(old(spelt), before, spelt);
        if hit.None? { return None; }
        if hit.value { out := out + [list[i]]; }
      }
      assert WithoutIds(list)[..|list|] == WithoutIds(list);
      return Some(out);
    }

    method MatchFromListWithBuildId(atom: string, list: seq<(string, Option<string>)>) returns (r: Option<seq<string>>)
      requires Valid()
      modifies this`atomsByOptions, this`spelt, this`candidates, this`pairs
      ensures Valid() && SameLog(old(spelt), spelt)
      ensures r == Listed(atom, list, vercmp)
    {
      hide *;
      ListedCases(atom, list, vercmp);
      if list == [] {
        var parsed := ParseMatchAtom(atom);
        return if parsed.None? then None else Some([]);
      }
      var out: seq<string> := [];
      SameItself(spelt);
      for i := 0 to |list|
        invariant Valid() && SameLog(old(spelt), spelt)
        invariant i == 0 ==> out == []
        invariant i > 0 ==> Listed(atom, list[..i], vercmp) == Some(out)
      {
        ListedSnoc(atom, list, i, vercmp);
        ghost var before := spelt;
        var hit := MatchPair(atom, list[i].0, list[i].1);
        SameLogTransitive(old(spelt), before, spelt);
        if hit.None? { return None; }
        if hit.value { out := out + [list[i].0]; }
      }
      assert list[..|list|] == list;
      return Some(out);
    }

    // Any run of calls on one set of tables gives the answers of the functions
    // without tables, each for the spelling its entry was first asked with.
    method Replay(calls: seq<Call>) returns (answers: seq<Answer>)
      requires Valid()
      modifies this
      ensures Valid() && SameLog(After(old(spelt), calls), spelt)
      ensures |answers| == |calls|
      ensures forall i | 0 <= i < |calls| :: answers[i] == Replayed(old(spelt), calls, i, vercmp)
    {
      hide *;
      ghost var log := spelt;
      answers := [];
      NoCalls(log, calls);
      for n := 0 to |calls|
        invariant Valid() && SameLog(After(log, calls[..n]), spelt)
        invariant |answers| == n
        invariant forall i | 0 <= i < n :: answers[i] == Replayed(log, calls, i, vercmp)
      {
        ghost var before := spelt;
        var answer := Answered(calls[n]);
        NextCall(log, calls, n, before, spelt, vercmp);
        answers := answers + [answer];
      }
      assert calls[..|calls|] == calls;
    }

    method Answered(call: Call) returns (answer: Answer)
      requires Valid()
      modifies this
      ensures Valid() && SameLog(LogCall(old(spelt), call), spelt)
      ensures call.CallParseWith? ==> spelt == LogCall(old(spelt), call) && (call.opts, call.s) in spelt
      ensures answer == Answering(spelt, call, vercmp)
    {
      hide *;
      AnsweringCases(call, vercmp);
      ghost var before := spelt;
      match call {
        case CallParse(s) =>
          var r := ParseAtom(s);
          answer := AnAtom(r);
        case CallParseWith(s, opts, eapiText) =>
          var r := ParseAtomWith(s, opts, eapiText);
          answer := AResult(r);
        case CallCandidate(s) =>
          var r := ParseCandidate(s);
          answer := ACandidate(r);
        case CallPair(atom, candidate, buildId) =>
          var r := MatchPair(atom, candidate, buildId);
          answer := AVerdict(r);
        case CallList(atom, list) =>
          var r := MatchFromList(atom, list);
          answer := AList(r);
        case CallBuildIds(atom, pairs) =>
          var r := MatchFromListWithBuildId(atom, pairs);
          answer := AList(r);
      }
      CallLogged(before, call);
      SameItself(spelt);
      AnswerCases(spelt, call, vercmp);
    }
  }

  // One call of an entry point, and its answer.
  datatype Call =
    | CallParse(s: string)
    | CallParseWith(s: string, opts: AtomOptions, eapiText: string)
    | CallCandidate(s: string)
    | CallPair(atom: string, candidate: string, buildId: Option<string>)
    | CallList(atom: string, list: seq<string>)
    | CallBuildIds(atom: string, pairs: seq<(string, Option<string>)>)

  datatype Answer =
    | AnAtom(atom: Option<Atom>)
    | AResult(result: Result<Atom, AtomError>)
    | ACandidate(candidate: Option<Candidate>)
    | AVerdict(verdict: Option<bool>)
    | AList(list: Option<seq<string>>)

  function Uncached(call: Call, vercmp: VersionOrder): Answer {
    match call
    case CallParse(s) => AnAtom(ParseAtom(s))
    case CallParseWith(s, opts, eapiText) => AResult(ParseUncached(s, opts, eapiText))
    case CallCandidate(s) => ACandidate(ParseCandidate(s))
    case CallPair(atom, candidate, buildId) => AVerdict(Verdict(atom, candidate, buildId, vercmp))
    case CallList(atom, list) => AList(Listed(atom, WithoutIds(list), vercmp))
    case CallBuildIds(atom, pairs) => AList(Listed(atom, pairs, vercmp))
  }

  // The spellings after one call, and after a run of calls.
  function LogCall(spelt: Spellings, call: Call): Spellings {
    if call.CallParseWith? then Logged(spelt, call.opts, call.s, call.eapiText) else spelt
  }

  function After(spelt: Spellings, calls: seq<Call>): Spellings {
    if calls == [] then spelt else LogCall(After(spelt, calls[..|calls| - 1]), calls[|calls| - 1])
  }

  // The answer for the spelling that is on record.
  function Answering(spelt: Spellings, call: Call, vercmp: VersionOrder): Answer {
    if call.CallParseWith? && (call.opts, call.s) in spelt then
      AResult(ParseUncached(call.s, call.opts, spelt[(call.opts, call.s)]))
    else Uncached(call, vercmp)
  }

  // The answer to call `i` of a run.
  function Replayed(spelt: Spellings, calls: seq<Call>, i: nat, vercmp: VersionOrder): Answer
    requires i < |calls|
  {
    Answering(After(spelt, calls[..i + 1]), calls[i], vercmp)
  }

  lemma AnsweringCases(call: Call, vercmp: VersionOrder)
    ensures call.CallParse? ==> Uncached(call, vercmp) == AnAtom(ParseAtom(call.s))
    ensures call.CallCandidate? ==> Uncached(call, vercmp) == ACandidate(ParseCandidate(call.s))
    ensures call.CallPair? ==>
      Uncached(call, vercmp) == AVerdict(Verdict(call.atom, call.candidate, call.buildId, vercmp))
    ensures call.CallList? ==> Uncached(call, vercmp) == AList(Listed(call.atom, WithoutIds(call.list), vercmp))
    ensures call.CallBuildIds? ==> Uncached(call, vercmp) == AList(Listed(call.atom, call.pairs, vercmp))
  {
    hide ParseAtom, ParseUncached, ParseCandidate, Verdict, Listed;
  }

  lemma AnswerCases(spelt: Spellings, call: Call, vercmp: VersionOrder)
    ensures !call.CallParseWith? ==> Answering(spelt, call, vercmp) == Uncached(call, vercmp)
    ensures call.CallParseWith? && (call.opts, call.s) in spelt ==>
      Answering(spelt, call, vercmp) == AResult(ParseUncached(call.s, call.opts, spelt[(call.opts, call.s)]))
    ensures call.CallParseWith? ==> Uncached(call, vercmp) == AResult(ParseUncached(call.s, call.opts, call.eapiText))
  {
    hide ParseUncached, ParseAtom, ParseCandidate, Verdict, Listed;
  }

  lemma CallLogged(spelt: Spellings, call: Call)
    ensures call.CallParseWith? ==>
      LogCall(spelt, call) == Logged(spelt, call.opts, call.s, call.eapiText)
        && (call.opts, call.s) in LogCall(spelt, call)
    ensures !call.CallParseWith? ==> LogCall(spelt, call) == spelt
  {
  }

  lemma SameItself(x: Spellings)
    ensures SameLog(x, x)
  {
  }

  lemma NoCalls(spelt: Spellings, calls: seq<Call>)
    ensures SameLog(After(spelt, calls[..0]), spelt)
  {
  }

  lemma AfterNext(spelt: Spellings, calls: seq<Call>, n: nat)
    requires n < |calls|
    ensures After(spelt, calls[..n + 1]) == LogCall(After(spelt, calls[..n]), calls[n])
  {
    assert calls[..n + 1][..n] == calls[..n];
  }

  lemma LogAlike(x: Spellings, y: Spellings, call: Call)
    requires SameLog(x, y)
    ensures SameLog(LogCall(x, call), LogCall(y, call))
  {
  }

  lemma SameLogTransitive(x: Spellings, y: Spellings, z: Spellings)
    requires SameLog(x, y) && SameLog(y, z)
    ensures SameLog(x, z)
  {
  }

  // Logs that agree answer alike.
  lemma AnswerAlike(x: Spellings, y: Spellings, call: Call, vercmp: VersionOrder)
    requires SameLog(x, y)
    requires call.CallParseWith? ==> (call.opts, call.s) in x && (call.opts, call.s) in y
    ensures Answering(x, call, vercmp) == Answering(y, call, vercmp)
  {
    if call.CallParseWith? {
      var k := (call.opts, call.s);
      assert !k.0.eapi.NoEapi? ==> x[k] == y[k];
      if call.opts.eapi.NoEapi? {
        SpellingUnused(call.s, call.opts, x[k], y[k]);
      }
    }
    hide ParseUncached, Uncached, SameLog;
  }

  // One more call of a run.
  lemma NextCall(log: Spellings, calls: seq<Call>, n: nat, before: Spellings, now: Spellings, vercmp: VersionOrder)
    requires n < |calls| && SameLog(After(log, calls[..n]), before) && SameLog(LogCall(before, calls[n]), now)
    requires calls[n].CallParseWith? ==> now == LogCall(before, calls[n])
    ensures SameLog(After(log, calls[..n + 1]), now)
    ensures Answering(now, calls[n], vercmp) == Replayed(log, calls, n, vercmp)
  {
    hide *;
    var spec := After(log, calls[..n]);
    AfterNext(log, calls, n);
    LogAlike(spec, before, calls[n]);
    SameLogTransitive(LogCall(spec, calls[n]), LogCall(before, calls[n]), now);
    CallLogged(spec, calls[n]);
    CallLogged(before, calls[n]);
    AnswerAlike(LogCall(spec, calls[n]), now, calls[n], vercmp);
    ReplayedCases(log, calls, n, vercmp);
  }

  lemma ReplayedCases(spelt: Spellings, calls: seq<Call>, i: nat, vercmp: VersionOrder)
    requires i < |calls|
    ensures Replayed(spelt, calls, i, vercmp) == Answering(After(spelt, calls[..i + 1]), calls[i], vercmp)
  {
    hide After, Answering;
  }

  // ----- When the answers are the uncached ones -----

  // Whether the call asks with these options and text.
  predicate Asks(call: Call, opts: AtomOptions, s: string) {
    call.CallParseWith? && call.opts == opts && call.s == s
  }

  // On empty tables, the spelling on record is the one of the first such call.
  lemma {:induction false} FirstCallDecides(calls: seq<Call>, opts: AtomOptions, s: string, j: nat)
    requires j < |calls| && Asks(calls[j], opts, s)
    requires forall i | 0 <= i < j :: !Asks(calls[i], opts, s)
    ensures var spelt := After(map[], calls); (opts, s) in spelt && spelt[(opts, s)] == calls[j].eapiText
    decreases |calls|
  {
    var n := |calls| - 1;
    if j == n {
      NotAsked(calls[..n], opts, s);
    } else {
      FirstCallDecides(calls[..n], opts, s, j);
    }
  }

  lemma {:induction false} NotAsked(calls: seq<Call>, opts: AtomOptions, s: string)
    requires forall i | 0 <= i < |calls| :: !Asks(calls[i], opts, s)
    ensures (opts, s) !in After(map[], calls)
  {
    if calls == [] {
    } else {
      var n := |calls| - 1;
      assert !Asks(calls[n], opts, s);
      NotAsked(calls[..n], opts, s);
    }
  }

  // So a call whose entry was first asked with `calls[j]`'s spelling gets its
  // own uncached answer for the same spelling, and from EAPI 4 on for any.
  lemma OwnAnswer(calls: seq<Call>, j: nat, i: nat, vercmp: VersionOrder)
    requires j <= i < |calls| && calls[i].CallParseWith? && Asks(calls[j], calls[i].opts, calls[i].s)
    requires forall k | 0 <= k < j :: !Asks(calls[k], calls[i].opts, calls[i].s)
    ensures Replayed(map[], calls, i, vercmp)
      == Uncached(CallParseWith(calls[i].s, calls[i].opts, calls[j].eapiText), vercmp)
    ensures Level(calls[i].opts.eapi) >= 4 || calls[j].eapiText == calls[i].eapiText ==>
      Replayed(map[], calls, i, vercmp) == Uncached(calls[i], vercmp)
  {
    var opts, s := calls[i].opts, calls[i].s;
    var front := calls[..i + 1];
    assert front[j] == calls[j] && forall k | 0 <= k < j :: front[k] == calls[k];
    FirstCallDecides(front, opts, s, j);
    hide *;
    ReplayedCases(map[], calls, i, vercmp);
    AnswerCases(After(map[], front), calls[i], vercmp);
    AnswerCases(map[], CallParseWith(s, opts, calls[j].eapiText), vercmp);
    if Level(opts.eapi) >= 4 {
      SpellingUnused(s, opts, calls[j].eapiText, calls[i].eapiText);
    }
  }

  // Exactly when the missing part of the key shows: after a call with `e`, a
  // call with `f` gets its own answer for every text from EAPI 4 on, and below
  // it only for the same spelling.
  lemma SecondCall(opts: AtomOptions, e: string, f: string, vercmp: VersionOrder)
    ensures (forall s ::
        Replayed(map[], [CallParseWith(s, opts, e), CallParseWith(s, opts, f)], 1, vercmp)
          == Uncached(CallParseWith(s, opts, f), vercmp))
      <==> Level(opts.eapi) >= 4 || e == f
  {
    hide *;
    SpellingShows(opts, e, f);
    forall s
      ensures Replayed(map[], [CallParseWith(s, opts, e), CallParseWith(s, opts, f)], 1, vercmp)
          == Uncached(CallParseWith(s, opts, f), vercmp)
        <==> ParseUncached(s, opts, e) == ParseUncached(s, opts, f)
    {
      TwoCalls(s, opts, e, f, vercmp);
    }
  }

  lemma TwoCalls(s: string, opts: AtomOptions, e: string, f: string, vercmp: VersionOrder)
    ensures Replayed(map[], [CallParseWith(s, opts, e), CallParseWith(s, opts, f)], 1, vercmp)
      == AResult(ParseUncached(s, opts, e))
    ensures Uncached(CallParseWith(s, opts, f), vercmp) == AResult(ParseUncached(s, opts, f))
  {
    var calls := [CallParseWith(s, opts, e), CallParseWith(s, opts, f)];
    assert Asks(calls[0], opts, s);
    hide *;
    OwnAnswer(calls, 0, 1, vercmp);
    AnswerCases(map[], CallParseWith(s, opts, e), vercmp);
    AnswerCases(map[], CallParseWith(s, opts, f), vercmp);
  }

  // When every caller passes a spelling of the EAPI it asks for, the whole run
  // is answered as without tables.
  lemma FittingRun(calls: seq<Call>, i: nat, vercmp: VersionOrder)
    requires i < |calls|
    requires forall k | 0 <= k < |calls| && calls[k].CallParseWith? :: SpellingFits(calls[k].opts, calls[k].eapiText)
    ensures Replayed(map[], calls, i, vercmp) == Uncached(calls[i], vercmp)
  {
    hide *;
    ReplayedCases(map[], calls, i, vercmp);
    AnswerCases(After(map[], calls[..i + 1]), calls[i], vercmp);
    if calls[i].CallParseWith? {
      AsksItself(calls[i]);
      var j := FirstAsking(calls, i, calls[i].opts, calls[i].s);
      OwnAnswer(calls, j, i, vercmp);
      AskedWith(calls[j], calls[i].opts, calls[i].s);
      AnswerCases(map[], CallParseWith(calls[i].s, calls[i].opts, calls[j].eapiText), vercmp);
      OptionsDetermineResult(calls[i].s, calls[i].opts, calls[i].eapiText, calls[j].eapiText);
    }
  }

  lemma AsksItself(call: Call)
    requires call.CallParseWith?
    ensures Asks(call, call.opts, call.s)
  {
  }

  lemma AskedWith(call: Call, opts: AtomOptions, s: string)
    requires Asks(call, opts, s)
    ensures call.CallParseWith? && call.opts == opts && call.s == s
  {
  }

  lemma {:induction false} FirstAsking(calls: seq<Call>, i: nat, opts: AtomOptions, s: string) returns (j: nat)
    requires i < |calls| && Asks(calls[i], opts, s)
    ensures j <= i && Asks(calls[j], opts, s) && forall k | 0 <= k < j :: !Asks(calls[k], opts, s)
    decreases i
  {
    if k :| 0 <= k < i && Asks(calls[k], opts, s) {
      j := FirstAsking(calls, k, opts, s);
    } else {
      j := i;
    }
  }

  lemma UnshownLog(spelt: Spellings, s: string)
    ensures SameLog(spelt, Logged(spelt, MATCH_OPTIONS, s, ""))
  {
  }

  lemma UnshownSpelling(s: string, e: string)
    ensures ParseUncached(s, MATCH_OPTIONS, e) == ParseUncached(s, MATCH_OPTIONS, "")
  {
    hide ParseUncached;
    SpellingUnused(s, MATCH_OPTIONS, e, "");
  }

  lemma MatchCases(s: string)
    ensures var r := ParseUncached(TrimBangs(s), MATCH_OPTIONS, "");
      ParsedForMatch(s) == if r.Ok? then Some(r.value) else None
  {
    hide ParseUncached, TrimBangs, Testable;
  }

  lemma ListedCases(atom: string, list: seq<(string, Option<string>)>, vercmp: VersionOrder)
    ensures Listed(atom, list, vercmp).None? <==> ParsedForMatch(atom).None?
    ensures list == [] && ParsedForMatch(atom).Some? ==> Listed(atom, list, vercmp) == Some([])
  {
    hide ParsedForMatch, Matching, Testable;
  }

  // One turn of the list loop.
  lemma ListedSnoc(atom: string, list: seq<(string, Option<string>)>, i: nat, vercmp: VersionOrder)
    requires i < |list|
    ensures var hit, before := Verdict(atom, list[i].0, list[i].1, vercmp), Listed(atom, list[..i], vercmp);
      && (hit.None? <==> before.None?) && (hit.None? <==> Listed(atom, list, vercmp).None?)
      && (hit.Some? ==>
        Listed(atom, list[..i + 1], vercmp) == Some(if hit.value then before.value + [list[i].0] else before.value))
      && (hit.Some? && i == 0 ==> before.value == [])
  {
    hide ParsedForMatch, Matching, Testable;
    assert list[..i + 1][..i] == list[..i];
  }

  // Matching ignores the atom's blocker.
  lemma BlockerIgnored(b: Blocker, s: string)
    ensures ParsedForMatch(BlockerText(b) + s) == ParsedForMatch(s)
  {
    hide *;
    BangsTrimmed(b, s);
    MatchCases(s);
    MatchCases(BlockerText(b) + s);
  }

  lemma BangTrimmed(s: string)
    ensures TrimBangs("!" + s) == TrimBangs(s)
  {
    var t := "!" + s;
    assert t[0] == '!' && t[1..] == s;
  }

  lemma BangsTrimmed(b: Blocker, s: string)
    ensures TrimBangs(BlockerText(b) + s) == TrimBangs(s)
  {
    hide TrimBangs;
    BangTrimmed(s);
    BangTrimmed("!" + s);
    assert "!!" + s == "!" + ("!" + s);
    assert "" + s == s;
  }
}
