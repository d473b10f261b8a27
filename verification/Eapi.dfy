// The EAPI tables behind the atom grammar's options: which spellings are
// supported, which attribute set each one selects, and the compact `AtomEapi`
// value the parser is given.
module Eapi {
  import opened Wrappers
  import opened Text

  const SUPPORTED_EAPIS: seq<string> := ["0", "1", "2", "3", "4", "5", "6", "7", "8", "9"]

  const DEPRECATED_EAPIS: seq<string> := ["3_pre1", "3_pre2", "4_pre1", "5_pre1", "5_pre2", "6_pre1", "7_pre1"]

  const TESTING_EAPIS: seq<string> := ["9-pre1"]

  type byte = n: nat | n < 256

  predicate IsSupported(eapi: string) {
    var e := Trim(eapi);
    e in SUPPORTED_EAPIS || e in TESTING_EAPIS || e in DEPRECATED_EAPIS
  }

  // What an EAPI allows; the atom parser reads six of these.
  datatype Attrs = Attrs(
    allowsPackageProvided: bool,
    bdepend: bool,
    broot: bool,
    dosedDohard: bool,
    emptyGroupsAlwaysTrue: bool,
    exportsAa: bool,
    exportsEbuildPhaseFunc: bool,
    exportsEclassdir: bool,
    exportsKv: bool,
    exportsMergeType: bool,
    exportsPmsVars: bool,
    exportsPortdir: bool,
    exportsReplaceVars: bool,
    idepend: bool,
    iuseDefaults: bool,
    iuseEffective: bool,
    posixishLocale: bool,
    pathVariablesEndWithTrailingSlash: bool,
    pkgPretend: bool,
    prefix: bool,
    profileFileDirs: bool,
    profileEapiDefault: bool,
    rdependDepend: bool,
    repoDeps: bool,
    requiredUse: bool,
    requiredUseAtMostOneOf: bool,
    selectiveSrcUriRestriction: bool,
    slotOperator: bool,
    slotDeps: bool,
    srcPrepareSrcConfigure: bool,
    srcUriArrows: bool,
    stablemask: bool,
    useStable: bool,
    strongBlocks: bool,
    symlinkRewrite: bool,
    sysroot: bool,
    useDeps: bool,
    useDepDefaults: bool)

  const PERMISSIVE := Attrs(
    allowsPackageProvided := true,
    bdepend := false,
    broot := true,
    dosedDohard := false,
    emptyGroupsAlwaysTrue := false,
    exportsAa := false,
    exportsEbuildPhaseFunc := true,
    exportsEclassdir := false,
    exportsKv := false,
    exportsMergeType := true,
    exportsPmsVars := true,
    exportsPortdir := true,
    exportsReplaceVars := true,
    idepend := false,
    iuseDefaults := true,
    iuseEffective := false,
    posixishLocale := false,
    pathVariablesEndWithTrailingSlash := false,
    pkgPretend := true,
    prefix := true,
    profileFileDirs := false,
    profileEapiDefault := false,
    rdependDepend := false,
    repoDeps := true,
    requiredUse := true,
    requiredUseAtMostOneOf := true,
    selectiveSrcUriRestriction := true,
    slotOperator := true,
    slotDeps := true,
    srcPrepareSrcConfigure := true,
    srcUriArrows := true,
    stablemask := true,
    useStable := true,
    strongBlocks := true,
    symlinkRewrite := false,
    sysroot := true,
    useDeps := true,
    useDepDefaults := true)

  function TableRow(n: byte): Attrs {
    Attrs(
      allowsPackageProvided := n <= 6,
      bdepend := n >= 7,
      broot := n >= 7,
      dosedDohard := n <= 3,
      emptyGroupsAlwaysTrue := n <= 6,
      exportsAa := n <= 3,
      exportsEbuildPhaseFunc := n >= 5,
      exportsEclassdir := n <= 6,
      exportsKv := n <= 3,
      exportsMergeType := n >= 4,
      exportsPmsVars := n <= 8,
      exportsPortdir := n <= 6,
      exportsReplaceVars := n >= 4,
      idepend := n >= 8,
      iuseDefaults := n >= 1,
      iuseEffective := n >= 5,
      posixishLocale := n >= 6,
      pathVariablesEndWithTrailingSlash := n <= 6,
      pkgPretend := n >= 4,
      prefix := n >= 3,
      profileFileDirs := n >= 7,
      profileEapiDefault := n >= 9,
      rdependDepend := n <= 3,
      repoDeps := false,
      requiredUse := n >= 4,
      requiredUseAtMostOneOf := n >= 5,
      selectiveSrcUriRestriction := n >= 8,
      slotOperator := n >= 5,
      slotDeps := n >= 1,
      srcPrepareSrcConfigure := n >= 2,
      srcUriArrows := n >= 2,
      stablemask := n >= 5,
      useStable := n >= 9,
      strongBlocks := n >= 2,
      symlinkRewrite := n <= 8,
      sysroot := n >= 7,
      useDeps := n >= 2,
      useDepDefaults := n >= 4)
  }

  // `split_once('-')`, keeping the head; the whole text when there is no dash.
  function Head(s: string): string {
    s[..IndexOf(s, '-')]
  }

  function DigitValue(key: string): byte
    requires |key| == 1 && IsDigit(key[0])
  {
    (key[0] as int) - ('0' as int)
  }

  // `Err` carries the input that is supported but cannot be parsed.
  function EapiAttrs(eapi: Option<string>): Result<Attrs, string> {
    if eapi.None? || !IsSupported(eapi.value) then Ok(PERMISSIVE)
    else
      var key := Head(eapi.value);
      if key !in SUPPORTED_EAPIS then Err(eapi.value) else Ok(TableRow(DigitValue(key)))
  }

  datatype AtomEapi = NoEapi | Known(level: byte) | Unsupported

  function ParseEapi(eapi: Option<string>): Result<AtomEapi, string> {
    if eapi.None? then Ok(NoEapi)
    else if !IsSupported(eapi.value) then Ok(Unsupported)
    else
      var key := Head(eapi.value);
      if key in SUPPORTED_EAPIS then Ok(Known(DigitValue(key))) else Err(eapi.value)
  }

  function Spelling(n: byte): string {
    if n < 10 then SUPPORTED_EAPIS[n] else "10"
  }

  // The attribute set the parser looks up for its option value.
  function AttrsOf(eapi: AtomEapi): Attrs {
    match eapi
    case NoEapi => EapiAttrs(None).value
    case Unsupported => EapiAttrs(None).value
    case Known(n) =>
      SpellingAttrs(n);
      EapiAttrs(Some(Spelling(n))).value
  }

  lemma SpellingAttrs(n: byte)
    ensures EapiAttrs(Some(Spelling(n))) == Ok(if n < 10 then TableRow(n) else PERMISSIVE)
  {
    hide *;
    if n < 10 {
      DigitAccepted(n);
    } else {
      NoLevelTen();
      EmptyBlank();
      TrimmedTail("10", "");
      Assoc([], [], "10");
      SpellingBeyond(n);
      NotSupported("10");
    }
  }

  lemma SpellingBeyond(n: byte)
    requires n >= 10
    ensures Spelling(n) == "10"
  {
  }

  lemma NoLevelTen()
    ensures "10" !in SUPPORTED_EAPIS && "10" !in TESTING_EAPIS && "10" !in DEPRECATED_EAPIS
    ensures !IsWhite('1') && !IsWhite('0')
  {
  }

  lemma NotSupported(s: string)
    requires Trim(s) !in SUPPORTED_EAPIS && Trim(s) !in TESTING_EAPIS && Trim(s) !in DEPRECATED_EAPIS
    ensures EapiAttrs(Some(s)) == Ok(PERMISSIVE)
  {
    hide Trim, SUPPORTED_EAPIS, TESTING_EAPIS, DEPRECATED_EAPIS, Head, TableRow, PERMISSIVE;
  }

  // Blanks at the end do not count, and neither does what follows a dash.
  lemma {:induction false} TrimmedTail(s: string, tail: string)
    requires s != "" && !IsWhite(s[0]) && !IsWhite(s[|s| - 1]) && AllIn(White, tail)
    ensures Trim(s + tail) == s
    decreases |tail|
  {
    ConcatFirst(s, tail);
    if tail == "" {
      Assoc([], [], s);
    } else {
      var n := |tail| - 1;
      TrimmedTail(s, tail[..n]);
      SnocLast(tail);
      Assoc(s, tail[..n], [tail[n]]);
      ConcatFirst(s, tail[..n]);
      ConcatLast(s, tail);
      assert Has(White, tail[n]);
      assert (s + tail)[..|s + tail| - 1] == s + tail[..n];
      hide IsWhite, AllIn;
    }
  }

  lemma HeadOf(key: string, rest: string)
    requires '-' !in key && (rest == "" || rest[0] == '-')
    ensures Head(key + rest) == key
  {
    if rest == "" {
      Assoc([], [], key);
      assert IndexOf(key, '-') == |key|;
    } else {
      assert key + rest == key + ['-'] + rest[1..];
      IndexOfConcat(key, rest[1..], '-');
    }
  }

  lemma Accepted(s: string, key: string)
    requires Trim(s) in SUPPORTED_EAPIS || Trim(s) in TESTING_EAPIS
    requires Head(s) == key && key in SUPPORTED_EAPIS
    ensures |key| == 1 && IsDigit(key[0])
    ensures ParseEapi(Some(s)) == Ok(Known(DigitValue(key)))
    ensures EapiAttrs(Some(s)) == Ok(TableRow(DigitValue(key)))
  {
    DigitSpelling(key);
    hide Trim, SUPPORTED_EAPIS, TESTING_EAPIS, DEPRECATED_EAPIS, Head, TableRow, DigitValue, IsDigit, Spelling;
  }

  lemma DigitOf(n: byte)
    requires n < 10
    ensures Spelling(n) in SUPPORTED_EAPIS && |Spelling(n)| == 1 && IsDigit(Spelling(n)[0])
    ensures DigitValue(Spelling(n)) == n && '-' !in Spelling(n) && !IsWhite(Spelling(n)[0])
  {
  }

  lemma DigitAccepted(n: byte)
    requires n < 10
    ensures ParseEapi(Some(Spelling(n))) == Ok(Known(n)) && EapiAttrs(Some(Spelling(n))) == Ok(TableRow(n))
  {
    hide *;
    var s := Spelling(n);
    DigitOf(n);
    EmptyBlank();
    TrimmedTail(s, "");
    HeadOf(s, "");
    Assoc([], [], s);
    Accepted(s, s);
  }

  lemma EmptyBlank()
    ensures AllIn(White, "")
  {
  }

  lemma TestingAccepted(tail: string)
    requires AllIn(White, tail)
    ensures ParseEapi(Some("9-pre1" + tail)) == Ok(Known(9))
  {
    hide *;
    TestingCases();
    TrimmedTail("9-pre1", tail);
    DigitOf(9);
    HeadOf("9", "-pre1" + tail);
    assert "9-pre1" == "9" + "-pre1";
    Assoc("9", "-pre1", tail);
    ConcatFirst("-pre1", tail);
    Accepted("9-pre1" + tail, "9");
  }

  lemma TestingCases()
    ensures "9-pre1" in TESTING_EAPIS && !IsWhite('9') && !IsWhite('1') && Spelling(9) == "9"
  {
  }

  lemma DigitSpelling(key: string)
    requires key in SUPPORTED_EAPIS
    ensures |key| == 1 && IsDigit(key[0]) && key == Spelling(DigitValue(key))
  {
    var i :| 0 <= i < 10 && SUPPORTED_EAPIS[i] == key;
    assert key[0] == ['0', '1', '2', '3', '4', '5', '6', '7', '8', '9'][i];
  }

  // Reading an EAPI text and looking its attributes up are two independent
  // readings of one string; they fail together and otherwise select the same
  // attribute set.
  lemma ReadingsAgree(eapi: Option<string>)
    ensures ParseEapi(eapi).Err? <==> EapiAttrs(eapi).Err?
    ensures ParseEapi(eapi).Ok? ==> EapiAttrs(eapi) == Ok(AttrsOf(ParseEapi(eapi).value))
    ensures ParseEapi(eapi).Err? ==> ParseEapi(eapi).error == EapiAttrs(eapi).error == eapi.value
  {
    if ParseEapi(eapi).Ok? && ParseEapi(eapi).value.Known? {
      SpellingAttrs(ParseEapi(eapi).value.level);
    }
  }

  // Exactly which texts are read as a level: below 9 the digit alone, for 9
  // also `9-pre1` with any blanks after it.
  lemma OneSpelling(s: string, n: byte)
    ensures ParseEapi(Some(s)) == Ok(Known(n)) <==>
      && n <= 9
      && (s == Spelling(n) || (n == 9 && exists tail :: AllIn(White, tail) && s == "9-pre1" + tail))
  {
    hide *;
    if ParseEapi(Some(s)) == Ok(Known(n)) {
      KnownSpelling(s, n);
    }
    if n <= 9 {
      DigitAccepted(n);
    }
    if tail :| AllIn(White, tail) && s == "9-pre1" + tail {
      TestingAccepted(tail);
    }
  }

  lemma KnownSpelling(s: string, n: byte)
    requires ParseEapi(Some(s)) == Ok(Known(n))
    ensures n <= 9
    ensures s == Spelling(n) || (n == 9 && exists tail :: AllIn(White, tail) && s == "9-pre1" + tail)
  {
    DigitSpelling(Head(s));
    if '-' in s {
      DashedSpelling(s);
    } else {
      assert Head(s) == s;
    }
  }

  lemma DashedSpelling(s: string)
    requires IsSupported(s) && '-' in s && Head(s) in SUPPORTED_EAPIS
    ensures Head(s) == "9" && exists tail :: AllIn(White, tail) && s == "9-pre1" + tail
  {
    hide *;
    SupportedTrim(s);
    var lead, tail := TrimParts(s);
    DashSurvives(s, lead, Trim(s), tail);
    DashHead(s, lead, tail);
    DigitSpelling(Head(s));
    assert |lead + "9"| == 1 && lead == "";
    assert lead + "9-pre1" + tail == "9-pre1" + tail;
  }

  lemma SupportedTrim(s: string)
    requires IsSupported(s)
    ensures Trim(s) in SUPPORTED_EAPIS || Trim(s) in TESTING_EAPIS || Trim(s) in DEPRECATED_EAPIS
  {
    hide Trim, SUPPORTED_EAPIS, TESTING_EAPIS, DEPRECATED_EAPIS;
  }

  lemma DashHead(s: string, lead: string, tail: string)
    requires s == lead + "9-pre1" + tail && AllIn(White, lead)
    ensures Head(s) == lead + "9"
  {
    assert s == (lead + "9") + ("-pre1" + tail);
    assert '-' !in lead + "9" by {
      assert forall i | 0 <= i < |lead| :: Has(White, lead[i]);
    }
    HeadOf(lead + "9", "-pre1" + tail);
  }

  // The only trimmed spelling with a dash is `9-pre1`, and trimming keeps dashes.
  lemma DashSurvives(s: string, lead: string, t: string, tail: string)
    requires s == lead + t + tail && '-' in s
    requires AllIn(White, lead) && AllIn(White, tail)
    requires t in SUPPORTED_EAPIS || t in TESTING_EAPIS || t in DEPRECATED_EAPIS
    ensures t == "9-pre1"
  {
    assert '-' !in lead && '-' !in tail;
    assert '-' in t;
    if t in SUPPORTED_EAPIS {
      DigitSpelling(t);
    }
  }

  // Exactly which texts name no EAPI at all: the 18 accepted spellings may
  // stand between blanks.
  lemma UnsupportedExactly(s: string)
    ensures ParseEapi(Some(s)) == Ok(Unsupported) <==>
      forall core | IsTrimmed(core) && Padded(s, core) ::
        core !in {"0", "1", "2", "3", "4", "5", "6", "7", "8", "9", "9-pre1",
                  "3_pre1", "3_pre2", "4_pre1", "5_pre1", "5_pre2", "6_pre1", "7_pre1"}
  {
    hide Trim, IsTrimmed, Padded, Head;
    TrimExactly(s, Trim(s));
    forall core | IsTrimmed(core) && Padded(s, core) ensures core == Trim(s) {
      TrimExactly(s, core);
    }
    AcceptedSpellings(Trim(s));
    hide SUPPORTED_EAPIS, TESTING_EAPIS, DEPRECATED_EAPIS;
  }

  lemma AcceptedSpellings(e: string)
    ensures e in SUPPORTED_EAPIS <==> e in {"0", "1", "2", "3", "4", "5", "6", "7", "8", "9"}
    ensures e in TESTING_EAPIS <==> e == "9-pre1"
    ensures e in DEPRECATED_EAPIS <==> e in {"3_pre1", "3_pre2", "4_pre1", "5_pre1", "5_pre2", "6_pre1", "7_pre1"}
  {
    var s, d := SUPPORTED_EAPIS, DEPRECATED_EAPIS;
    assert s[0] == "0" && s[1] == "1" && s[2] == "2" && s[3] == "3" && s[4] == "4";
    assert s[5] == "5" && s[6] == "6" && s[7] == "7" && s[8] == "8" && s[9] == "9";
    assert TESTING_EAPIS[0] == "9-pre1";
    assert d[0] == "3_pre1" && d[1] == "3_pre2" && d[2] == "4_pre1" && d[3] == "5_pre1" && d[4] == "5_pre2";
    assert d[5] == "6_pre1" && d[6] == "7_pre1";
  }

  // What each EAPI changes from the one before it, attribute by attribute.
  lemma EapiHistory()
    ensures AttrsOf(Known(0)) == Attrs(
      true, false, false, true, true, true, false, true, true, false, true, true, false, false, false, false, false,
      true, false, false, false, false, true, false, false, false, false, false, false, false, false, false, false,
      false, true, false, false, false)
    ensures AttrsOf(Known(1)) == AttrsOf(Known(0)).(iuseDefaults := true, slotDeps := true)
    ensures AttrsOf(Known(2)) == AttrsOf(Known(1)).(
      srcPrepareSrcConfigure := true, srcUriArrows := true, strongBlocks := true, useDeps := true)
    ensures AttrsOf(Known(3)) == AttrsOf(Known(2)).(prefix := true)
    ensures AttrsOf(Known(4)) == AttrsOf(Known(3)).(
      dosedDohard := false, exportsAa := false, exportsKv := false, rdependDepend := false,
      exportsMergeType := true, exportsReplaceVars := true, pkgPretend := true, requiredUse := true,
      useDepDefaults := true)
    ensures AttrsOf(Known(5)) == AttrsOf(Known(4)).(
      exportsEbuildPhaseFunc := true, iuseEffective := true, requiredUseAtMostOneOf := true, slotOperator := true,
      stablemask := true)
    ensures AttrsOf(Known(6)) == AttrsOf(Known(5)).(posixishLocale := true)
    ensures AttrsOf(Known(7)) == AttrsOf(Known(6)).(
      allowsPackageProvided := false, emptyGroupsAlwaysTrue := false, exportsEclassdir := false,
      exportsPortdir := false, pathVariablesEndWithTrailingSlash := false,
      bdepend := true, broot := true, profileFileDirs := true, sysroot := true)
    ensures AttrsOf(Known(8)) == AttrsOf(Known(7)).(idepend := true, selectiveSrcUriRestriction := true)
    ensures AttrsOf(Known(9)) == AttrsOf(Known(8)).(
      exportsPmsVars := false, symlinkRewrite := false, profileEapiDefault := true, useStable := true)
  {
    hide AttrsOf;
    RowOf(0);
    RowOf(1);
    RowOf(2);
    RowOf(3);
    RowOf(4);
    RowOf(5);
    RowOf(6);
    RowOf(7);
    RowOf(8);
    RowOf(9);
  }

  lemma RowOf(n: byte)
    requires n < 10
    ensures AttrsOf(Known(n)) == TableRow(n)
  {
    hide EapiAttrs, Spelling, TableRow;
    SpellingAttrs(n);
  }

  // Without an EAPI in the table, attributes are those of EAPI 5 but for these.
  lemma PermissiveAttrs(e: AtomEapi)
    requires !e.Known? || e.level >= 10
    ensures AttrsOf(e) == AttrsOf(Known(5)).(
      emptyGroupsAlwaysTrue := false, exportsEclassdir := false, iuseEffective := false,
      pathVariablesEndWithTrailingSlash := false, symlinkRewrite := false,
      broot := true, repoDeps := true, selectiveSrcUriRestriction := true, sysroot := true, useStable := true)
  {
    hide Spelling;
    SpellingAttrs(5);
    if e.Known? {
      SpellingAttrs(e.level);
    }
  }
}
