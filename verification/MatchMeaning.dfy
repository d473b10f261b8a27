// What the matcher answers, in terms of texts alone: which candidate texts an
// atom text matches, and what a list of candidates is reduced to.
module MatchMeaning {
  import opened Wrappers
  import opened Eapi
  import opened AtomParser
  import opened AtomExact
  import opened Candidates
  import opened MemoCache
  import G = AtomGrammar
  import P = AtomPatterns
  import Text

  // The text of the atom behind any number of bangs.  Match mode allows
  // wildcards, repositories and build-ids, and knows no EAPI.
  ghost predicate AsksFor(text: string, a: Atom) {
    && AtomParser.WellFormed(a, AtomOptions(NoEapi, true, Some(true), None))
    && a.blocker == NoBlocker
    && exists bangs :: AllBangs(bangs) && text == bangs + AtomText(a)
  }

  ghost predicate AllBangs(s: string) {
    forall i | 0 <= i < |s| :: s[i] == '!'
  }

  function WithId(c: Candidate, buildId: Option<string>): Candidate {
    if buildId.Some? then c.(buildId := buildId) else c
  }

  // The text of the candidate, which gets a build-id if one is given.
  ghost predicate Offers(candidate: string, c: Candidate) {
    Candidates.WellFormed(c) && CandidateText(c) == candidate
  }

  ghost predicate Fit(a: Atom, c: Candidate, vercmp: VersionOrder) {
    Testable(a) && NamesHold(a, c) && VersionHolds(a, c, vercmp) && PlaceHolds(a, c)
  }

  ghost predicate IsMatch(atom: string, candidate: string, buildId: Option<string>, vercmp: VersionOrder) {
    exists a, c :: AsksFor(atom, a) && Offers(candidate, c) && Fit(a, WithId(c, buildId), vercmp)
  }

  // ----- The bangs -----

  lemma {:induction false} TrimmedParts(s: string) returns (bangs: string)
    ensures AllBangs(bangs) && s == bangs + TrimBangs(s) && (TrimBangs(s) == "" || TrimBangs(s)[0] != '!')
  {
    if s != "" && s[0] == '!' {
      var more := TrimmedParts(s[1..]);
      bangs := "!" + more;
      Text.ConsFirst(s);
      Text.Assoc("!", more, TrimBangs(s[1..]));
    } else {
      bangs := "";
      Text.Assoc("", "", s);
    }
  }

  lemma {:induction false} TrimmedOf(bangs: string, rest: string)
    requires AllBangs(bangs) && (rest == "" || rest[0] != '!')
    ensures TrimBangs(bangs + rest) == rest
  {
    Text.ConcatFirst(bangs, rest);
    if bangs == "" {
    } else {
      TrimmedOf(bangs[1..], rest);
    }
  }

  // Without a blocker the text of an atom does not start with a bang.
  lemma NoBangAhead(a: Atom, opts: AtomOptions)
    requires AtomParser.WellFormed(a, opts)
    ensures AtomText(a) != "" && (a.blocker == NoBlocker <==> AtomText(a)[0] != '!')
  {
    hide *;
    WellFormedCases(a, opts);
    ReadableCoherent(a, opts);
    AtomTexts(a);
    CapsHead(a, opts);
    BlockerFirst(a.blocker, P.CapsText(AtomExact.CapsOf(a)));
  }

  lemma BlockerFirst(b: Blocker, rest: string)
    requires rest != "" && rest[0] != '!'
    ensures var s := BlockerText(b) + rest; s != "" && (b == NoBlocker <==> s[0] != '!')
  {
  }

  // What is parsed for matching, exactly.
  lemma AsksExactly(text: string, a: Atom)
    ensures ParsedForMatch(text) == Some(a) <==> AsksFor(text, a)
  {
    hide ParsedForMatch, TrimBangs, AtomText, AtomParser.WellFormed, ParseUncached, AllBangs, MATCH_OPTIONS;
    var rest := TrimBangs(text);
    var bangs := TrimmedParts(text);
    MatchCases(text);
    MatchOptions();
    ParseExactly(rest, MATCH_OPTIONS, "", a);
    if AtomParser.WellFormed(a, MATCH_OPTIONS) {
      NoBangAhead(a, MATCH_OPTIONS);
      if AsksFor(text, a) {
        var bs :| AllBangs(bs) && text == bs + AtomText(a);
        TrimmedOf(bs, AtomText(a));
      }
    }
  }

  lemma MatchOptions()
    ensures MATCH_OPTIONS == AtomOptions(NoEapi, true, Some(true), None)
  {
  }

  // ----- One candidate -----

  // The verdict is positive exactly for a match, and missing exactly for a
  // text that is no atom in match mode.
  lemma VerdictExactly(atom: string, candidate: string, buildId: Option<string>, vercmp: VersionOrder)
    ensures Verdict(atom, candidate, buildId, vercmp) == Some(true) <==> IsMatch(atom, candidate, buildId, vercmp)
    ensures Verdict(atom, candidate, buildId, vercmp) == None <==> forall a :: !AsksFor(atom, a)
  {
    hide *;
    VerdictCases(atom, candidate, buildId, vercmp);
    MatchCases(atom);
    forall a ensures ParsedForMatch(atom) == Some(a) <==> AsksFor(atom, a) {
      AsksExactly(atom, a);
    }
    forall c ensures ParseCandidate(candidate) == Some(c) <==> Offers(candidate, c) {
      CandidateExactly(candidate, c);
      OffersCases(candidate, c);
    }
    if ParsedForMatch(atom).Some? && ParseCandidate(candidate).Some? {
      var a, c := ParsedForMatch(atom).value, ParseCandidate(candidate).value;
      FitExactly(atom, a, candidate, c, buildId, vercmp);
      if CandidateHits(a, WithId(c, buildId), vercmp) {
        IntroMatch(atom, candidate, buildId, vercmp, a, c);
      }
    }
    if IsMatch(atom, candidate, buildId, vercmp) {
      var a, c := MatchParts(atom, candidate, buildId, vercmp);
    }
  }

  lemma VerdictCases(atom: string, candidate: string, buildId: Option<string>, vercmp: VersionOrder)
    ensures var a, c := ParsedForMatch(atom), ParseCandidate(candidate);
      Verdict(atom, candidate, buildId, vercmp) ==
      if a.None? then None
      else Some(c.Some? && CandidateHits(a.value, WithId(c.value, buildId), vercmp))
  {
    hide ParsedForMatch, ParseCandidate, CandidateHits, Testable;
  }

  lemma OffersCases(candidate: string, c: Candidate)
    ensures Offers(candidate, c) <==> Candidates.WellFormed(c) && CandidateText(c) == candidate
  {
    hide Candidates.WellFormed, CandidateText;
  }

  lemma FitExactly(atom: string, a: Atom, candidate: string, c: Candidate, buildId: Option<string>,
                   vercmp: VersionOrder)
    requires ParsedForMatch(atom) == Some(a) && Offers(candidate, c)
    ensures Testable(a) && (CandidateHits(a, WithId(c, buildId), vercmp) <==> Fit(a, WithId(c, buildId), vercmp))
  {
    hide *;
    MatchCases(atom);
    OffersCases(candidate, c);
    IdLeft(c, buildId);
    HitsExactly(TrimBangs(atom), MATCH_OPTIONS, "", a, WithId(c, buildId), vercmp);
    FitCases(a, WithId(c, buildId), vercmp);
  }

  lemma IdLeft(c: Candidate, buildId: Option<string>)
    requires Candidates.WellFormed(c)
    ensures Candidates.WellFormed(WithId(c, buildId).(buildId := None))
  {
    hide G.IsCat, G.IsPkg, G.ValidVr, G.IsSlot, G.IsRepo;
  }

  lemma FitCases(a: Atom, c: Candidate, vercmp: VersionOrder)
    ensures Fit(a, c, vercmp) <==> Testable(a) && NamesHold(a, c) && VersionHolds(a, c, vercmp) && PlaceHolds(a, c)
  {
    hide Testable, NamesHold, VersionHolds, PlaceHolds;
  }

  lemma IntroMatch(atom: string, candidate: string, buildId: Option<string>, vercmp: VersionOrder,
                   a: Atom, c: Candidate)
    requires AsksFor(atom, a) && Offers(candidate, c) && Fit(a, WithId(c, buildId), vercmp)
    ensures IsMatch(atom, candidate, buildId, vercmp)
  {
    hide AsksFor, Offers, Fit, WithId;
  }

  lemma MatchParts(atom: string, candidate: string, buildId: Option<string>, vercmp: VersionOrder)
    returns (a: Atom, c: Candidate)
    requires IsMatch(atom, candidate, buildId, vercmp)
    ensures AsksFor(atom, a) && Offers(candidate, c) && Fit(a, WithId(c, buildId), vercmp)
  {
    hide AsksFor, Offers, Fit, WithId;
    a, c :| AsksFor(atom, a) && Offers(candidate, c) && Fit(a, WithId(c, buildId), vercmp);
  }

  // ----- A list of candidates -----

  ghost predicate Increasing(picks: seq<nat>, n: nat) {
    && (forall i, j | 0 <= i < j < |picks| :: picks[i] < picks[j])
    && (forall i | 0 <= i < |picks| :: picks[i] < n)
  }

  // The answer: the candidates at some positions, in the order of the list.
  ghost predicate PicksOut(out: seq<string>, candidates: seq<(string, Option<string>)>, picks: seq<nat>) {
    && Increasing(picks, |candidates|) && |out| == |picks|
    && forall k | 0 <= k < |out| :: out[k] == candidates[picks[k]].0
  }

  // The candidates at these places are the ones that match.
  ghost predicate AreMatches(picks: seq<nat>, atom: string, candidates: seq<(string, Option<string>)>,
    vercmp: VersionOrder)
  {
    forall i | 0 <= i < |candidates| :: i in picks <==> IsMatch(atom, candidates[i].0, candidates[i].1, vercmp)
  }

  // A list is reduced to the candidates that match, each where it stood; there
  // is no answer exactly when the text is no atom, for the empty list too.
  lemma {:induction false} ListedExactly(atom: string, candidates: seq<(string, Option<string>)>, vercmp: VersionOrder)
    returns (picks: seq<nat>)
    ensures Listed(atom, candidates, vercmp) == None <==> forall a :: !AsksFor(atom, a)
    ensures Listed(atom, candidates, vercmp).Some? ==>
      && PicksOut(Listed(atom, candidates, vercmp).value, candidates, picks)
      && AreMatches(picks, atom, candidates, vercmp)
    decreases |candidates|
  {
    hide *;
    NoAtomNoList(atom, candidates, vercmp);
    ListedCases(atom, candidates, vercmp);
    picks := [];
    if candidates == [] {
      PickNothing(atom, candidates, vercmp);
    } else if Listed(atom, candidates, vercmp).Some? {
      var n := |candidates| - 1;
      var front, last := candidates[..n], candidates[n];
      ListedSnoc(atom, candidates, n, vercmp);
      assert candidates[..n + 1] == candidates;
      VerdictExactly(atom, last.0, last.1, vercmp);
      var before := ListedExactly(atom, front, vercmp);
      Text.SnocLast(candidates);
      var hit := Verdict(atom, last.0, last.1, vercmp).value;
      picks := if hit then before + [n] else before;
      PickLast(Listed(atom, front, vercmp).value, front, before, last, hit);
      MatchLast(before, atom, front, last, vercmp, hit);
    }
  }

  lemma NoAtomNoList(atom: string, candidates: seq<(string, Option<string>)>, vercmp: VersionOrder)
    ensures Listed(atom, candidates, vercmp) == None <==> forall a :: !AsksFor(atom, a)
  {
    hide *;
    ListedCases(atom, candidates, vercmp);
    forall a ensures ParsedForMatch(atom) == Some(a) <==> AsksFor(atom, a) {
      AsksExactly(atom, a);
    }
  }

  lemma PickNothing(atom: string, candidates: seq<(string, Option<string>)>, vercmp: VersionOrder)
    ensures PicksOut([], candidates, [])
    ensures candidates == [] ==> AreMatches([], atom, candidates, vercmp)
  {
    hide IsMatch;
  }

  lemma PickLast(out: seq<string>, front: seq<(string, Option<string>)>, picks: seq<nat>,
    last: (string, Option<string>), hit: bool)
    requires PicksOut(out, front, picks)
    ensures PicksOut(if hit then out + [last.0] else out, front + [last], if hit then picks + [|front|] else picks)
    ensures |front| !in picks
  {
  }

  lemma MatchLast(picks: seq<nat>, atom: string, front: seq<(string, Option<string>)>, last: (string, Option<string>),
    vercmp: VersionOrder, hit: bool)
    requires AreMatches(picks, atom, front, vercmp) && |front| !in picks
    requires hit <==> IsMatch(atom, last.0, last.1, vercmp)
    ensures AreMatches(if hit then picks + [|front|] else picks, atom, front + [last], vercmp)
  {
    hide IsMatch;
    forall i | 0 <= i <= |front|
      ensures (front + [last])[i] == if i < |front| then front[i] else last
    {}
  }
}
