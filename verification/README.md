# A model of Portage atoms, SRC_URI, mirror layouts and the environment filter

This project models the pure cores of a Rust and Python port of Portage and proves properties of them for all inputs: the
atom parser and printer of `portage-dep`, its EAPI tables, its candidate matcher, its USE-dependency checks, its memo
tables and `extract_affecting_use`; the SRC_URI parser, the argv splitter and the mirror layouts of `portage-fetch`; and
the line machine of `bin/filter-bash-environment.py`.

Every module is one file. `Text`, `Decimals`, `Positions` and `Wrappers` hold the string, numeral, position and result
vocabulary. The rest, in dependency order:

- `AffectingUse`: dependency trees with a recursive answer, and the stack machine that flattens, pops and merges frames.
  The machine returns the answer of the one tree list its tokens spell, or `None` when there is none or a guarding
  conditional has a bad flag name.
- `Eapi`: accepted spellings, the table of all attributes, and the compact EAPI value. Two readings of one text are proved
  to agree.
- `UseDeps`: the `[...]` block. Parser and printer are inverse, and evaluation against a parent keeps lists printable.
- `AtomGrammar`, `AtomPatterns`: the regular expressions as grammars with a scanner. The lazy package name is a
  leftmost-first choice: the scanner finds the reading with the shortest package name whenever any reading exists.
- `AtomParser`, `AtomExact`, `AtomLaws`, `AtomRefusals`: the two-stage parser, the printer, and the central result
  `ParseExactly`: a text parses to an atom exactly when the atom is well-formed under the options and spells that text. The
  laws that follow from it: the printer's round trip and its one exception, the canonical split of names, the EAPI chain,
  what wildcards add, when the spelling of an EAPI can show in a result, and why a text is refused.
- `AtomMeaning`: acceptance and every refusal told once more by characters, words and levels alone, with no function of the
  parser or printer in the statements.
- `CpGlob`, `VersionGlob`, `Candidates`: wildcard matching as the language a pattern denotes, `=*` as a comparison of whole
  version components, the candidates' grammar, and the match of one candidate. The version order is a parameter.
- `MatchMeaning`: the verdict on an atom text and a candidate text, and the answer for a list of candidates, as a relation
  of what the two texts ask for and offer.
- `UseDepChecks`, `Conditionals`: the set-based check and the mismatch report against a per-token truth table (PMS section
  8.3.4), and the rewriting of an atom's block for a given parent.
- `MemoCache`: the memo tables as fields of one object. Any run of calls is answered as the functions without tables would
  answer, each options entry for the EAPI spelling it was first asked with.
- `SrcUri`: the recursive-descent parser over a shared cursor. Reading inverts printing, and USE guards only filter.
- `ShellSplit`: the quoting state machine against the quoting grammar, and on texts outside it.
- `BashLines`, `BashEnvironment`, `BashSegments`, `BashPatterns`: the filter's line functions, its one-pass machine, the
  unique cut of an input into blocks, and the line patterns. The machine and the blocks take the patterns as a parameter,
  so those results hold for the patterns given here and for any others.
- `MirrorLayout`, `LayoutConfig`, `LayoutText`: cut paths, choice of a layout, the `layout.conf` parser, and what a
  configuration text says, line by line. Digests and the lower-casing of keys are parameters.

Four places where the code has an exception are stated as results, with the exact condition:

- `render_atom` is documented as rebuilding the token of every valid atom, but `=*` atoms print as `=*cat/pkg-1*`
  (`crates/portage-dep/src/lib.rs:114`, `:857`). `RenderRoundTrip` proves the round trip for every other operator and that
  it always fails for this one; `GlobPrintsOtherwise` is such an atom.
- `evaluate_atom_conditionals` looks at the unstripped text with a pattern that has no blocker group
  (`crates/portage-dep/src/lib.rs:1410`), so a blocker with a conditional flag gives `None`. `EvaluateFails` proves that this
  and an unparseable text are the only failures; `BlockerGivesUp` is such an atom.
- The key of the options table leaves out the EAPI's spelling, so a hit answers for the spelling of the first call.
  `FittingRun` proves that the key suffices when each caller passes a spelling of the EAPI it asks for, and `SecondCall`
  exactly when two spellings are told apart.
- `use_mismatch_flags` and `use_deps_satisfied` agree on every list with one default per flag exactly when the other
  package enables only flags it declares (`CheckersAgreeExactly`); the set-based check adds to the per-token table only that
  no required undeclared flag has the opposite default elsewhere (`SatisfiedIsTable`, `TwoDefaultsClash`).

## Model

| member | source | states |
|---|---|---|
| AffectingUse.ExtractAffectingUse | crates/portage-dep/src/lib.rs:1755-1857 | the stack machine returns the recursive meaning of the token list, `None` included; bracket depth and stack height stay in step |
| AffectingUse.FoldGroup | crates/portage-dep/src/lib.rs:1796-1832 | folding a closed group keeps the frame a rendering of its tree: operators are dropped or kept so that a frame is non-empty exactly when the atom occurred |
| AffectingUse.CloseBracket | crates/portage-dep/src/lib.rs:1766-1832 | closing a bracket keeps the simulation of the tree reading, and fails only when a group containing the atom has a bad flag name |
| AffectingUse.MeaningOfSpelling | crates/portage-dep/src/lib.rs:1746-1857 | tokens spell at most one list of trees, and the meaning is that list's set of guarding flags |
| AffectingUse.PrintedMeaning | crates/portage-dep/src/lib.rs:1746-1857 | a dependency string that consists of the tokens of some trees, with any blanks, tabs and line breaks around them, has exactly their own answer; one that consists of the tokens of no trees has none |
| AffectingUse.SpellingRead | crates/portage-dep/src/lib.rs:1755-1857 | every well-formed list of trees is recovered from its tokens |
| AffectingUse.PrefixInvalid | crates/portage-dep/src/lib.rs:1714-1725 | an early stop on a bad flag name is never premature: no continuation has an answer |
| AffectingUse.PrefixFails | crates/portage-dep/src/lib.rs:1755-1857 | an early stop on bad bracketing is never premature |
| AffectingUse.TokenKinds | crates/portage-dep/src/lib.rs:1755-1846 | brackets, the two bars, and all that ends in a question mark are no atoms |
| AffectingUse.CondFlagExactly | crates/portage-dep/src/lib.rs:1714-1725 | a test names a flag exactly when it is `flag?` or `!flag?` and the flag has a valid name |
| Eapi.ReadingsAgree | crates/portage-dep/src/lib.rs:208-231 | for every text the EAPI value and the attribute table agree on error, on unsupported, and on all 38 attributes |
| Eapi.SpellingAttrs | crates/portage-dep/src/eapi.rs:133-192 | each level's own spelling selects that level's row, and a spelling beyond the table the permissive row |
| Eapi.OneSpelling | crates/portage-dep/src/eapi.rs:26-31 | exactly which texts are read as a level: its digit, and for 9 also `9-pre1` with any blanks after it |
| Eapi.UnsupportedExactly | crates/portage-dep/src/eapi.rs:25-31 | a text names no EAPI exactly when it is none of the 18 accepted spellings with blanks around it |
| Eapi.EapiHistory | crates/portage-dep/src/eapi.rs:133-192 | the 38 attributes of EAPI 0, and for each later EAPI exactly those it changes |
| Eapi.PermissiveAttrs | crates/portage-dep/src/eapi.rs:193-235 | without an EAPI of the table the attributes are those of EAPI 5 but for ten |
| UseDeps.BlockRoundTrip | crates/portage-dep/src/lib.rs:335-379 | a block text parses to a list exactly when the list has flag names, one default per flag, is not empty, and prints as that text |
| UseDeps.ParseUseDepsLoop | crates/portage-dep/src/lib.rs:335-379 | the loop with its table of seen defaults returns the list or the first bad token |
| UseDeps.BlockRefused | crates/portage-dep/src/lib.rs:335-379 | a refused block names its first bad token: no token at all, or one that gives a flag another default than before |
| UseDeps.ParsedToken | crates/portage-dep/src/lib.rs:319-329 | an accepted token has a valid flag name and is rebuilt from its parts |
| UseDeps.PrintedToken | crates/portage-dep/src/lib.rs:319-329 | every printed token is read back as it was |
| UseDeps.EvaluateOrigin | crates/portage-dep/src/lib.rs:1338-1383 | each evaluated token comes from one token of the list, keeps its flag and default, and is unconditional |
| UseDeps.EvaluateKeepsValid | crates/portage-dep/src/lib.rs:1338-1383 | evaluation keeps flag names valid and one default per flag |
| UseDeps.EvaluateUnconditional | crates/portage-dep/src/lib.rs:1338-1383 | a list without conditional forms is left as it is |
| UseDeps.PrintersAgree | crates/portage-dep/src/lib.rs:1304-1319 | the second printer, which puts the suffix before the default, agrees with the syntax exactly when one of the two is absent |
| AtomGrammar.SplitNameSound | crates/portage-dep/src/lib.rs:69-74 | what the name scanner returns is a reading of the text |
| AtomGrammar.SplitNameLazy | crates/portage-dep/src/lib.rs:69-74 | the scanner finds a reading whenever there is one, and no other reading has as short a package name |
| AtomGrammar.SuffixRoundTrip | crates/portage-dep/src/lib.rs:295-301 | slot, sub-slot, operator, repository and USE text after a name are read in exactly one way |
| AtomGrammar.VersionedCanonical | crates/portage-dep/src/lib.rs:295-297 | a versioned reading is the match exactly when it has a build-id tail or its package name does not end like a version |
| AtomGrammar.BareCanonical | crates/portage-dep/src/lib.rs:295-297 | a bare name is read whole exactly when it does not end like a version |
| AtomGrammar.VersionedReadings | crates/portage-dep/src/lib.rs:295-297 | two readings of one name share the last version and differ only by what the build-id tail takes |
| AtomGrammar.PlainReadings | crates/portage-dep/src/lib.rs:954-962 | a candidate's name has one reading |
| AtomGrammar.VersionExactly | crates/portage-dep/src/lib.rs:72-74 | a version is a number, dotted numbers, at most one small letter, and suffixes of five names with optional numbers |
| AtomGrammar.NameForms | crates/portage-dep/src/lib.rs:68-87 | which characters may start and continue each kind of name |
| AtomPatterns.StrictSound | crates/portage-dep/src/lib.rs:283-301 | the captures of the strict pattern spell the text |
| AtomPatterns.StrictFirst | crates/portage-dep/src/lib.rs:283-301 | leftmost-first: every text with a reading is matched, and a different match has a shorter package name |
| AtomPatterns.WildSound | crates/portage-dep/src/lib.rs:309-317 | the captures of the wildcard pattern spell the text |
| AtomPatterns.WildFirst | crates/portage-dep/src/lib.rs:309-317 | the same choice rule for the wildcard pattern |
| AtomParser.RenderAtom | crates/portage-dep/src/lib.rs:850-924 | the appending printer writes the parts in the source's order |
| AtomExact.ParseExactly | crates/portage-dep/src/lib.rs:450-579 | for every text, option set and atom: it parses to that atom exactly when the atom is well-formed under the options and spells the text |
| AtomExact.ParseSound | crates/portage-dep/src/lib.rs:450-579 | an accepted text gives a well-formed atom that spells it |
| AtomExact.ParseComplete | crates/portage-dep/src/lib.rs:450-579 | the text of every well-formed atom is accepted as that atom |
| AtomExact.StrictCaptured | crates/portage-dep/src/lib.rs:592-723 | the second stage recovers a plain atom's name, version, revision and build-id from its own text |
| AtomExact.WildCaptured | crates/portage-dep/src/lib.rs:592-723 | the text of a wildcard atom is refused by the strict pattern and gives its fields through the other |
| AtomLaws.RenderRoundTrip | crates/portage-dep/src/lib.rs:850-924 | printing a parsed atom gives the text back exactly when its operator is not `=*` |
| AtomLaws.GlobPrintsOtherwise | crates/portage-dep/src/lib.rs:109-121 | `=a/b-1*` is accepted and printed as `=*a/b-1*` |
| AtomLaws.TextIsDetermined | crates/portage-dep/src/lib.rs:450-579 | texts that parse to one atom, under any options, are the same text |
| AtomLaws.CanonicalName | crates/portage-dep/src/lib.rs:650-714 | a plain accepted atom without build-id never has a package name ending like a version; there is no fallback |
| AtomLaws.AttrsByLevel | crates/portage-dep/src/eapi.rs:133-235 | what the parser sees of an EAPI grows along the chain 0 to 9, unsupported, none |
| AtomLaws.WellFormedUnder | crates/portage-dep/src/lib.rs:737-777 | exactly which unrestricted atoms an EAPI keeps |
| AtomLaws.AllowedByLevel | crates/portage-dep/src/lib.rs:465-471 | a repository is allowed by the option, or without it outside the EAPI table; a build-id by the option, or without it when no EAPI is given |
| AtomLaws.RepoAdded | crates/portage-dep/src/lib.rs:465-552 | exactly when an atom that is read without a repository is still read with one added |
| AtomLaws.BuildIdAdded | crates/portage-dep/src/lib.rs:650-714 | exactly when an atom that is read without a build-id is still read with one added |
| AtomLaws.EapiChain | crates/portage-dep/src/lib.rs:450-579 | an atom accepted under one EAPI is accepted with the same reading under every later one, unsupported, and none |
| AtomLaws.WildcardsOnlyAdd | crates/portage-dep/src/lib.rs:470-500 | wildcards keep every strict reading and add extended atoms only |
| AtomLaws.OptionsDetermineResult | crates/portage-dep/src/lib.rs:51-66 | options and text determine the result for every caller whose spelling fits its EAPI |
| AtomLaws.RefusedFeature | crates/portage-dep/src/lib.rs:737-777 | which missing feature the refusal of a readable atom names, for every level: defaults only at 2 and 3, strong blocks only without USE dependencies |
| AtomLaws.WitnessMessage | crates/portage-dep/src/lib.rs:737-777 | below EAPI 4 there is a text whose refusal quotes the spelling |
| AtomLaws.SpellingShows | crates/portage-dep/src/lib.rs:737-777 | two spellings give the same results on all texts exactly from EAPI 4 on, or when they are equal |
| AtomExact.ReadExactly | crates/portage-dep/src/lib.rs:450-552 | up to the check of the features, a text is read as an atom exactly when the atom is readable under the options and spells the text |
| AtomRefusals.RefusedExactly | crates/portage-dep/src/lib.rs:450-579 | why a text is no atom: a missing feature exactly when it is the text of a readable atom; otherwise a token of its USE block exactly when it is a readable atom with a block that is no list; otherwise the text alone is named |
| AtomRefusals.RefusedBlock | crates/portage-dep/src/lib.rs:541-547 | the token blamed is the first one up to which the tokens of the block are no list |
| AtomMeaning.AcceptedExactly | crates/portage-dep/src/lib.rs:450-579 | a text is accepted as an atom exactly when the atom may be written under the options and is so written: names by their characters, versions by their parts, blockers, operators and USE tokens by their signs, features by the level of the EAPI |
| AtomMeaning.PlainExactly | crates/portage-dep/src/lib.rs:393-406 | without options this is: no EAPI, no wildcards, repositories and build-ids allowed |
| AtomMeaning.FeatureRefused | crates/portage-dep/src/lib.rs:737-777 | an atom but for a feature is refused with the feature, the spelling and the text in this wording |
| AtomMeaning.TokenRefused | crates/portage-dep/src/lib.rs:541-547 | an atom with a block that is no list is refused for the first token up to which the tokens are those of no list |
| AtomMeaning.TextRefused | crates/portage-dep/src/lib.rs:450-579 | every other text is refused with nothing but itself |
| CpGlob.MatchesIsDenotation | crates/portage-dep/src/lib.rs:991-1009 | the matcher accepts exactly the texts got by replacing stars with slash-free runs |
| CpGlob.HalvesMatch | crates/portage-dep/src/lib.rs:991-1009 | a star never crosses a slash: two halves match exactly when each does |
| CpGlob.StarFree | crates/portage-dep/src/lib.rs:991-1009 | a pattern without stars matches itself only |
| VersionGlob.GlobComparesComponents | crates/portage-dep/src/lib.rs:1069-1088 | `=*` holds exactly when the atom's version components are the first ones of the candidate's, leading zeros dropped |
| VersionGlob.ZerosIgnored | crates/portage-dep/src/lib.rs:1011-1025 | leading zeros do not count |
| VersionGlob.NormalizedMeaning | crates/portage-dep/src/lib.rs:1011-1025 | normalising removes only zeros in front and leaves a first number without leading zeros |
| VersionGlob.ComparedExactly | crates/portage-dep/src/lib.rs:1011-1035 | the text compared by `=*` is the version without the zeros in front of its first number, down to one digit, and then the revision |
| Candidates.CandidateExactly | crates/portage-dep/src/lib.rs:954-989 | a text parses to a candidate exactly when the candidate is well-formed and spells the text |
| Candidates.ParsedTestable | crates/portage-dep/src/lib.rs:1037-1102 | no parsed atom reaches a failing `unwrap` or `expect` of the matcher |
| Candidates.CpSeparately | crates/portage-dep/src/lib.rs:1453-1465 | category and package are matched one by one, by equality or by their own wildcards |
| Candidates.AtomSpellsCandidate | crates/portage-dep/src/lib.rs:954-989 | dropping blocker and operator of a plain versioned atom leaves a candidate with the same fields |
| Candidates.AtomMatchesItsCandidate | crates/portage-dep/src/lib.rs:1436-1468 | an `=` atom matches the candidate it spells under every order that puts a version equal to itself |
| Candidates.CandidateSpellsAtom | crates/portage-dep/src/lib.rs:650-714 | a candidate can be named by an `=` atom exactly when its package name does not end like a version |
| Candidates.HitsExactly | crates/portage-dep/src/lib.rs:1436-1468 | a parsed atom matches a well-formed candidate exactly when the names denote, the version relation of the operator holds, and the candidate may live in a slot and repository the atom asks for |
| Candidates.VersionExactly | crates/portage-dep/src/lib.rs:1037-1102 | each operator as a relation of versions: accepted signs of the order, whole components, an occurrence, or equal versions |
| Candidates.PlaceExactly | crates/portage-dep/src/lib.rs:1110-1139 | slot and repository match exactly when some completion of what the candidate leaves unknown is what the atom asks for |
| Candidates.FullVersionInjective | crates/portage-dep/src/lib.rs:946-951 | the text handed to the order is the version and, if there is one, `-r` and the revision, and belongs to no other version |
| UseDepChecks.SatisfiedIsTable | crates/portage-dep/src/lib.rs:1158-1229 | the set computation holds exactly when every token holds by the table and no required flag has the opposite default elsewhere |
| UseDepChecks.SatisfiedPerToken | crates/portage-dep/src/lib.rs:1158-1240 | with one default per flag the set computation is the per-token table |
| UseDepChecks.TwoDefaultsClash | crates/portage-dep/src/lib.rs:1158-1229 | with two defaults for one flag it is not |
| UseDepChecks.SplitDomain | crates/portage-dep/src/lib.rs:1152-1165 | a split validity domain is checked as its union |
| UseDepChecks.UseMismatchFlags | crates/portage-dep/src/lib.rs:1254-1287 | the loop reports the missing flags alone, or the set of violated flags |
| UseDepChecks.EmptyReport | crates/portage-dep/src/lib.rs:1254-1287 | what an empty report says of each token |
| UseDepChecks.MismatchMeaning | crates/portage-dep/src/lib.rs:1254-1287 | a report has exactly the undeclared flags without default, and when there are none exactly the flags of the unmet tokens |
| UseDepChecks.CheckersAgree | crates/portage-dep/src/lib.rs:1158-1287 | the report is empty exactly when the dependencies are satisfied, for USE within IUSE and one default per flag |
| UseDepChecks.CheckersAgreeExactly | crates/portage-dep/src/lib.rs:1158-1287 | they agree on all such lists exactly when USE is within IUSE |
| UseDepChecks.ViolatedMeaning | crates/portage-dep/src/lib.rs:1293-1301 | evaluating for the parent and then checking decides the parent-conditional table of PMS section 8.3.4 |
| Conditionals.EvaluateFails | crates/portage-dep/src/lib.rs:1392-1432 | exactly when the rewriting gives up |
| Conditionals.BlockerGivesUp | crates/portage-dep/src/lib.rs:1410-1410 | `!a/b[c?]` is accepted and has no rewriting for any parent |
| Conditionals.EvaluateReparses | crates/portage-dep/src/lib.rs:1392-1432 | the result re-parses to the same atom with its list evaluated, or without a block when nothing is left |
| Conditionals.EvaluateIdempotent | crates/portage-dep/src/lib.rs:1392-1432 | a rewritten atom is left alone by any further rewriting, for any parent |
| Conditionals.EvaluateKeepsMeaning | crates/portage-dep/src/lib.rs:1293-1301 | checking the rewritten atom against any child is checking the original for this parent |
| Conditionals.BlockFound | crates/portage-dep/src/lib.rs:1410-1415 | without a blocker, the second look at the text finds the block the parser saw |
| MemoCache.Memo.constructor | crates/portage-dep/src/lib.rs:53-66 | empty tables agree with the functions |
| MemoCache.Memo.ParseAtom | crates/portage-dep/src/lib.rs:393-406 | hit or miss, the answer is the uncached one, and the tables stay in agreement |
| MemoCache.Memo.ParseAtomWith | crates/portage-dep/src/lib.rs:423-442 | the answer is the parser's for the spelling of the first call with these options and text, and a hit never changes what is on record |
| MemoCache.Memo.ParseCandidate | crates/portage-dep/src/lib.rs:964-973 | hit or miss, the answer is the uncached one |
| MemoCache.Memo.ParseMatchAtom | crates/portage-dep/src/lib.rs:1473-1480 | match-mode parsing goes through the shared options table and returns the uncached answer |
| MemoCache.Memo.MatchPair | crates/portage-dep/src/lib.rs:1506-1521 | the stored verdict is the fresh one, bad atoms included |
| MemoCache.Memo.MatchFromList | crates/portage-dep/src/lib.rs:1526-1538 | the matching candidates in order, or `None` exactly for a bad atom, for the empty list too |
| MemoCache.Memo.MatchFromListWithBuildId | crates/portage-dep/src/lib.rs:1547-1561 | the same with build-ids |
| MemoCache.Memo.Replay | crates/portage-dep/src/lib.rs:51-66 | every sequence of calls is answered as without tables, each options entry for the spelling it was first asked with |
| MemoCache.FirstCallDecides | crates/portage-dep/src/lib.rs:423-442 | on empty tables the spelling on record is the one of the first call with these options and text |
| MemoCache.OwnAnswer | crates/portage-dep/src/lib.rs:423-442 | a call is answered for that first spelling, which is its own answer from EAPI 4 on or for an equal spelling |
| MemoCache.SecondCall | crates/portage-dep/src/lib.rs:51-66 | after a call with one spelling, a call with another gets its own answer for every text exactly from EAPI 4 on, or when the spellings are equal |
| MemoCache.FittingRun | crates/portage-dep/src/lib.rs:51-66 | when every caller passes a spelling of the EAPI it asks for, each call of a run gets its own uncached answer |
| MemoCache.BlockerIgnored | crates/portage-dep/src/lib.rs:1473-1480 | matching ignores the atom's blocker |
| MatchMeaning.VerdictExactly | crates/portage-dep/src/lib.rs:1473-1521 | for all texts the verdict is positive exactly when some atom is asked for, behind any bangs and with wildcards, repositories and build-ids allowed, some well-formed candidate is offered, and the two fit; it is missing exactly when no atom is asked for |
| MatchMeaning.ListedExactly | crates/portage-dep/src/lib.rs:1526-1561 | a list is reduced to exactly the candidates that match, each where it stood |
| MatchMeaning.AsksExactly | crates/portage-dep/src/lib.rs:1473-1480 | what match-mode parsing makes of a text |
| SrcUri.ReadExactly | crates/portage-fetch/src/lib.rs:169-249 | a token list is read as a tree, to its end, exactly when the tree is readable and prints as the list |
| SrcUri.FlattenPrinted | crates/portage-fetch/src/lib.rs:238-249 | a text that consists of the tokens of a readable tree, with any blanks, tabs and line breaks around them, gives the tree's active leaves in order |
| SrcUri.FlattenAccepts | crates/portage-fetch/src/lib.rs:238-249 | success means that the whole text consists of the tokens of one readable tree |
| SrcUri.GuardsOnlyFilter | crates/portage-fetch/src/lib.rs:169-249 | acceptance and error do not depend on the guards, and the result is the all-active one without the leaves under inactive guards |
| SrcUri.FlattenBlames | crates/portage-fetch/src/lib.rs:169-249 | every refusal points into the text: a guard without `(` after it, a guard whose readable group runs to the end unclosed, a `)` after a readable list, a stray `(`, or a final arrow after a URI |
| SrcUri.EntryMeaning | crates/portage-fetch/src/lib.rs:196-223 | the override bits and the URI rebuild the token, and the filename is the rename or the basename |
| SrcUri.BasenameMeaning | crates/portage-fetch/src/lib.rs:163-165 | the basename is what follows the last slash |
| SrcUri.GuardMeaning | crates/portage-fetch/src/lib.rs:185-188 | one `!` is taken as negation and the rest is the flag |
| SrcUri.GuardAsks | crates/portage-fetch/src/lib.rs:185-199 | `!flag` asks about the flag negated, any other guard about the flag it is |
| SrcUri.Parser.ParseList | crates/portage-fetch/src/lib.rs:169-234 | the cursor parser returns the leaves of what it read, stays within the tokens and leaves the cursor where reading stopped |
| SrcUri.FlattenSrcUri | crates/portage-fetch/src/lib.rs:238-249 | the whole text is flattened, or refused with the exact error |
| ShellSplit.ShellSplit | crates/portage-fetch/src/lib.rs:447-511 | the loop over two quote flags computes the splitting state machine, and is never in both quotes |
| ShellSplit.SpellingsSplit | crates/portage-fetch/src/lib.rs:443-511 | words spelt with any mix of plain, escaped, single- and double-quoted segments, and any blanks between, split into what they stand for |
| ShellSplit.LinesExactly | crates/portage-fetch/src/lib.rs:443-511 | the texts of that grammar are exactly those that end outside quotes and not after a lone backslash |
| ShellSplit.EveryText | crates/portage-fetch/src/lib.rs:447-511 | every text is split as the line of the grammar got by closing its open quote, doubling a backslash left at the end of a double-quoted part, or dropping a lone one; a text that needs none of this is its own line |
| ShellSplit.SplitQuoted | crates/portage-fetch/src/lib.rs:443-511 | quoting each word and joining with blanks splits back into exactly the words |
| ShellSplit.WordSpells | crates/portage-fetch/src/lib.rs:454-508 | segments written next to each other form one word |
| ShellSplit.Separators | crates/portage-fetch/src/lib.rs:481-508 | outside quotes a blank, a tab or a line break ends a word, and no other character that does not quote does |
| BashLines.EndQuoteMeaning | bin/filter-bash-environment.py:32-40 | exactly which lines close a quote |
| BashLines.ReadonlyMeaning | bin/filter-bash-environment.py:27-27 | a read-only declaration is recognised in exactly one way, at the last `r` of its option word |
| BashLines.DropReadonlyMeaning | bin/filter-bash-environment.py:43-55 | only that option letter and the width of the blanks change, and other lines not at all |
| BashLines.SohRemoved | bin/filter-bash-environment.py:59-63 | what is left are the parts between the `\1` characters, in order |
| BashEnvironment.FilterBashEnvironment | bin/filter-bash-environment.py:58-129 | the one-pass machine writes the output of the segmentation, and quote mode never coincides with another mode |
| BashEnvironment.StepRest | bin/filter-bash-environment.py:69-129 | in every mode, one line written and the rest of the output make what was still to be written |
| BashPatterns.FilterNames | bin/filter-bash-environment.py:58-129 | with its own patterns the filter writes the output of the segmentation they give |
| BashPatterns.AssignmentSound | bin/filter-bash-environment.py:23-25 | a matched line is an assignment with one of the four leads; the quote captured is the one its value starts with, if any, and the rest is the value behind it |
| BashPatterns.AssignmentComplete | bin/filter-bash-environment.py:23-25 | every line of that form is matched |
| BashPatterns.AssignmentOrder | bin/filter-bash-environment.py:23-25 | the parts of such a line are the ones captured, except that `declare -opts` is preferred to `declare` |
| BashPatterns.AssignmentBlock | bin/filter-bash-environment.py:75-104 | in any input an assignment takes further lines exactly when its value starts with a quote that its own line does not close after it, and then all up to the first line that closes it, or to the end |
| BashPatterns.DeclarationMeaning | bin/filter-bash-environment.py:28-29 | exactly which lines declare a name without a value, and which name |
| BashPatterns.HereDocMeaning | bin/filter-bash-environment.py:19-19 | exactly which lines open a here-document, and with which delimiter |
| BashPatterns.FunctionStartMeaning | bin/filter-bash-environment.py:20-20 | exactly which lines open a function |
| BashPatterns.PatternsMeaning | bin/filter-bash-environment.py:17-29 | what each of the patterns says of a line, whichever names are filtered |
| BashSegments.SegmentExactly | bin/filter-bash-environment.py:58-129 | there is one way to cut an input into complete blocks with at most the last unfinished, and the filter follows it |
| BashSegments.DroppedExactly | bin/filter-bash-environment.py:69-129 | line by line: the output is the input without exactly the lines of filtered assignments and declarations, in order, and lines of functions, here-documents and other text are unchanged |
| BashSegments.BlockVanishes | bin/filter-bash-environment.py:75-104 | a dropped block leaves the output as if it had not been in the input, wherever it stands |
| BashSegments.BlockFound | bin/filter-bash-environment.py:75-124 | a valid block standing at a position is the block found there |
| BashSegments.BlockAtValid | bin/filter-bash-environment.py:75-124 | the block found at a position is complete, or unfinished at the end of the input |
| MirrorLayout.CutPath | crates/portage-fetch/src/layout.rs:54-64 | the loop writes one directory per cutoff |
| MirrorLayout.PythonSliceIndex | crates/portage-fetch/src/layout.rs:68-76 | the boundary counts from the start or the end and is clamped to the sequence on both sides |
| MirrorLayout.CutPathMeaning | crates/portage-fetch/src/layout.rs:54-64 | for all cutoffs, one slash per cutoff, and the path without slashes followed by the remainder is the hash |
| MirrorLayout.CutWidths | crates/portage-fetch/src/layout.rs:54-64 | cutoffs are bits: each level takes a quarter of its cutoff in hex digits |
| MirrorLayout.NegativeCutoff | crates/portage-fetch/src/layout.rs:54-76 | at every level a negative cutoff leaves that many bits for what follows, or all there are |
| MirrorLayout.PathShape | crates/portage-fetch/src/layout.rs:38-51 | the last path element is the filename or the whole digest; before it stand as many directories as cutoffs, closed by a slash and spelling the start of the hash |
| MirrorLayout.PathExactly | crates/portage-fetch/src/layout.rs:38-76 | for all cutoffs, negative ones included, the path's elements are the names cut off the hash level by level, each as wide as its cutoff says, and then the filename or the whole digest |
| MirrorLayout.PathMissing | crates/portage-fetch/src/layout.rs:38-51 | a layout has no path exactly when it wants an unknown hash of the name or an absent digest |
| MirrorLayout.PathExists | crates/portage-fetch/src/layout.rs:237-245 | a layout chosen with the file's digests always has a path; one chosen without lacks one exactly when it wants an absent digest |
| MirrorLayout.PathsDistinct | crates/portage-fetch/src/layout.rs:38-51 | under one flat or filename-hash layout distinct slash-free filenames get distinct paths |
| MirrorLayout.LayoutExactly | crates/portage-fetch/src/layout.rs:201-235 | an entry gives a layout exactly when it spells it and the layout is usable for the digests |
| MirrorLayout.BestSupportedFirst | crates/portage-fetch/src/layout.rs:239-245 | the first valid entry is chosen |
| MirrorLayout.FlatOtherwise | crates/portage-fetch/src/layout.rs:237-245 | without a valid entry a file is stored under its own name |
| MirrorLayout.UpperExactly | crates/portage-fetch/src/layout.rs:46-46 | the name a digest is looked up by: small letters become capitals and nothing else changes |
| MirrorLayout.CutoffsMeaning | crates/portage-fetch/src/layout.rs:114-119 | cutoffs are accepted exactly when every part is a 64-bit integer divisible by four |
| Decimals.I64Exactly | crates/portage-fetch/src/layout.rs:114-119 | a text is read as a number exactly when it is an optional sign and digits, and the number fits 64 bits |
| MirrorLayout.CutoffsRoundTrip | crates/portage-fetch/src/layout.rs:114-119 | written cutoffs are read back exactly when all are divisible by four |
| LayoutConfig.Parse | crates/portage-fetch/src/layout.rs:136-193 | on every text the `expect`s hold, the count over keys ends, and the result is the specified one |
| LayoutConfig.StructureMeaning | crates/portage-fetch/src/layout.rs:183-192 | the structure is exactly the values of the keys below the least absent one |
| LayoutConfig.KeysBound | crates/portage-fetch/src/layout.rs:184-191 | there are at most as many numbered keys as keys, so the unbounded count stops |
| LayoutText.WriteThenParse | crates/portage-fetch/src/layout.rs:136-193 | a text is read exactly when it is written with items that fit together, and its structure is then the values set for the keys 0, 1, ... under `[structure]`, up to the first absent one, each split at its blanks |
| LayoutText.ScanExactly | crates/portage-fetch/src/layout.rs:136-182 | the sections are exactly the headers, and the options of each exactly the settings under it, every value joined by line breaks with its further lines; blank lines and comments change nothing |
| LayoutText.LineRefused | crates/portage-fetch/src/layout.rs:155-180 | exactly which line is refused after lines that are read, and why: a repeated section, a repeated option, an option outside a section, or text without a delimiter that continues nothing |
| LayoutText.LinesExactly | crates/portage-fetch/src/layout.rs:142-146 | the lines of a text are the parts between its line breaks, with or without a carriage return |
| Text.SplitExactly | crates/portage-fetch/src/lib.rs:242-242 | a text splits into the tokens it consists of, with any runs of blanks around and between them |
| Text.TrimExactly | crates/portage-fetch/src/layout.rs:146-150 | trimming leaves the text that the blanks stand around |
| Text.ClassMembers | crates/portage-dep/src/lib.rs:68-87 | the members of each character class of the patterns |
| Text.BlankMembers | crates/portage-fetch/src/layout.rs:189-189 | the members of the two classes of blanks |

## Left out

- `check_conditional_flags`, `without_use`, `atom_intersects`, `atom_specificity`, `parse_eapi_head`: one-body predicates that would only add easy members.
- The version order: `vercmp` lives in a crate that is not part of this model and is a parameter, with the laws each lemma names.
- The table of compiled patterns in `extended_cp_match`: a compiled pattern is represented by its text.
- The name pattern of the environment filter: a parameter; the command line that builds it is not modelled.
- BashEnvironment.FilterBashEnvironment: returns the lines written, not the stream; each write is one element.
- AffectingUse.ExtractAffectingUse: does not model overflow of the 32-bit level counter; the level is unbounded.
- LayoutConfig.Parse: does not model overflow of the 32-bit key counter, and leaves the Unicode lower-casing of keys open as a function.
- MirrorLayout.PathShape: the upper-casing of an algorithm name is ASCII, which covers every checksum name (`KeysAreUpper`).
- Digests (`hash_hex`, `verify_digests`): an opaque function of algorithm and data.
- Borrowing, thread-local storage and clones of the memo tables: one object with map fields stands for one thread's tables.
- Network, process, Manifest and file-system code, `parse_thirdpartymirrors`, `resolve_mirror_candidates`, `varexpand`.
