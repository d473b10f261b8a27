// The version half of `=cat/pkg-ver*`: a literal prefix test on normalised
// versions that stops at a component boundary, and the component lists it is
// equivalent to comparing.
module VersionGlob {
  import opened Wrappers
  import opened Text
  import G = AtomGrammar

  function TrimZeros(v: string): string {
    if v != "" && v[0] == '0' then TrimZeros(v[1..]) else v
  }

  function NormalizeLeadingZeros(v: string): string {
    var stripped := TrimZeros(v);
    if stripped != "" && IsDigit(stripped[0]) then stripped else "0" + stripped
  }

  function GlobCompareString(version: string, revision: Option<string>): string {
    NormalizeLeadingZeros(version) + G.RevText(revision)
  }

  // A prefix test that stops at a component boundary.
  predicate PrefixMatches(prefix: string, text: string) {
    var rest := Strip(text, prefix);
    if rest.None? then false
    else if rest.value == "" || rest.value[0] in {'.', '_', '-'} then true
    else (prefix != "" && IsDigit(prefix[|prefix| - 1])) != IsDigit(rest.value[0])
  }

  // ----- Components -----

  predicate IsSeparator(c: char) {
    c in {'.', '_', '-'}
  }

  // Whether `d` continues the component that `c` ends.
  predicate Joins(c: char, d: char) {
    !IsSeparator(c) && !IsSeparator(d) && IsDigit(c) == IsDigit(d)
  }

  // The maximal runs of digits and of other characters; each separator stands alone.
  function Components(s: string): (parts: seq<string>)
    ensures s != "" ==> parts != []
  {
    if s == "" then []
    else
      var n := |s| - 1;
      Extended(Components(s[..n]), n > 0 && Joins(s[n - 1], s[n]), s[n])
  }

  // One more character, in the last component or in one of its own.
  function Extended(parts: seq<string>, joins: bool, c: char): seq<string>
    requires joins ==> parts != []
  {
    if joins then parts[..|parts| - 1] + [parts[|parts| - 1] + [c]] else parts + [[c]]
  }

  lemma ExtendedAppend(x: seq<string>, y: seq<string>, joins: bool, c: char)
    requires joins ==> y != []
    ensures joins ==> x + y != []
    ensures Extended(x + y, joins, c) == x + Extended(y, joins, c)
  {
    if joins {
      var k := |y| - 1;
      assert (x + y)[..|x + y| - 1] == x + y[..k] && (x + y)[|x + y| - 1] == y[k];
      Assoc(x, y[..k], [y[k] + [c]]);
    } else {
      Assoc(x, y, [[c]]);
    }
  }

  lemma ConcatExtended(parts: seq<string>, joins: bool, c: char)
    requires joins ==> parts != []
    ensures Concat(Extended(parts, joins, c)) == Concat(parts) + [c]
  {
    hide Concat;
    if joins {
      var front, last := parts[..|parts| - 1], parts[|parts| - 1];
      ConcatSnoc(front, last + [c]);
      ConcatSnoc(front, last);
      SnocLast(parts);
      Assoc(Concat(front), last, [c]);
    } else {
      ConcatSnoc(parts, [c]);
    }
  }

  // The components of a text spell it.
  lemma {:induction false} ConcatComponents(s: string)
    ensures Concat(Components(s)) == s
  {
    if s == "" {
    } else {
      var n := |s| - 1;
      ConcatComponents(s[..n]);
      ConcatExtended(Components(s[..n]), n > 0 && Joins(s[n - 1], s[n]), s[n]);
      SnocLast(s);
      hide Extended, Joins, Concat;
    }
  }

  lemma ComponentsSnoc(s: string, c: char)
    ensures Components(s + [c]) == Extended(Components(s), s != "" && Joins(s[|s| - 1], c), c)
  {
    hide Extended, Joins;
    var t := s + [c];
    assert t[..|s|] == s && t[|s|] == c;
    assert s != "" ==> t[|s| - 1] == s[|s| - 1];
  }

  // At a boundary the components of the two halves are kept.
  lemma {:induction false} ComponentsSplit(a: string, b: string)
    requires a == "" || b == "" || !Joins(a[|a| - 1], b[0])
    ensures Components(a + b) == Components(a) + Components(b)
    decreases |b|
  {
    hide *;
    ComponentsNil();
    var x := Components(a);
    if b == "" {
      ConcatLast(a, b);
      ConcatLast(x, []);
    } else {
      var n := |b| - 1;
      var c, d := b[..n], b[n];
      SnocLast(b);
      Assoc(a, c, [d]);
      ComponentsSplit(a, c);
      ComponentsSnoc(a + c, d);
      ComponentsSnoc(c, d);
      ConcatLast(a, c);
      var joins := c != "" && Joins(c[n - 1], d);
      assert joins == (a + c != "" && Joins((a + c)[|a + c| - 1], d));
      ExtendedAppend(x, Components(c), joins, d);
    }
  }

  lemma ComponentsNil()
    ensures Components("") == []
  {
  }

  lemma ExtendedGrows(parts: seq<string>, joins: bool, c: char)
    requires joins ==> parts != []
    ensures |parts| <= |Extended(parts, joins, c)|
    ensures forall i | 0 <= i < |parts| :: |parts[i]| <= |Extended(parts, joins, c)[i]|
    ensures joins ==> |parts[|parts| - 1]| < |Extended(parts, joins, c)[|parts| - 1]|
  {
  }

  // Inside a run the last component of the first half grows.
  lemma {:induction false} ComponentsGrow(a: string, b: string)
    requires a != "" && b != "" && Joins(a[|a| - 1], b[0])
    ensures var k := |Components(a)| - 1;
      k < |Components(a + b)| && |Components(a + b)[k]| > |Components(a)[k]|
    decreases |b|
  {
    hide *;
    var n := |b| - 1;
    var c, d := b[..n], b[n];
    SnocLast(b);
    Assoc(a, c, [d]);
    ComponentsSnoc(a + c, d);
    ConcatLast(a, c);
    var joins := Joins((a + c)[|a + c| - 1], d);
    ExtendedGrows(Components(a + c), joins, d);
    if c == "" {
    } else {
      ComponentsGrow(a, c);
    }
  }

  // What the prefix test decides: the components of the prefix are the first
  // components of the text, in full.
  lemma PrefixIsComponents(prefix: string, text: string)
    requires prefix != "" && !IsSeparator(prefix[|prefix| - 1])
    ensures PrefixMatches(prefix, text) <==> Components(prefix) <= Components(text)
  {
    var rest := Strip(text, prefix);
    if rest.Some? {
      var b := rest.value;
      if b == "" || !Joins(prefix[|prefix| - 1], b[0]) {
        ComponentsSplit(prefix, b);
      } else {
        ComponentsGrow(prefix, b);
      }
    } else if Components(prefix) <= Components(text) {
      var x, z := Components(prefix), Components(text);
      assert z == x + z[|x|..];
      ConcatAppend(x, z[|x|..]);
      ConcatComponents(prefix);
      ConcatComponents(text);
      StripOf(prefix, Concat(z[|x|..]));
    }
  }

  // Leading zeros do not count.
  lemma ZerosIgnored(zeros: string, v: string)
    requires forall i | 0 <= i < |zeros| :: zeros[i] == '0'
    ensures NormalizeLeadingZeros(zeros + v) == NormalizeLeadingZeros(v)
  {
    hide TrimZeros;
    TrimConcat(zeros, v);
  }

  lemma {:induction false} TrimConcat(zeros: string, v: string)
    requires forall i | 0 <= i < |zeros| :: zeros[i] == '0'
    ensures TrimZeros(zeros + v) == TrimZeros(v)
  {
    if zeros == "" {
      assert zeros + v == v;
    } else {
      assert (zeros + v)[1..] == zeros[1..] + v;
      TrimConcat(zeros[1..], v);
    }
  }

  // ----- Versions never end in a separator -----

  lemma NoSeparators(name: string, d: string)
    requires AllIn(Letter, name) && AllIn(Digit, d)
    ensures name != "" ==> !IsSeparator(name[|name| - 1])
    ensures d != "" ==> !IsSeparator(d[|d| - 1])
  {
  }

  lemma {:induction false} SuffixesEnd(t: string)
    requires G.VersionSuffixes(t)
    ensures t != "" ==> !IsSeparator(t[|t| - 1])
    decreases |t|
  {
    hide *;
    if t == "" {
    } else {
      var name, d, w := G.SuffixStep(t);
      NoSeparators(name, d);
      SuffixesEnd(w);
      ConcatLast("_", name + (d + w));
      ConcatLast(name, d + w);
      ConcatLast(d, w);
    }
  }

  lemma {:induction false} DotsEnd(t: string)
    requires G.VersionDots(t)
    ensures t != "" ==> !IsSeparator(t[|t| - 1])
    decreases |t|
  {
    hide *;
    if Strip(t, ".").Some? {
      var d, v := G.DotStep(t);
      NoSeparators("", d);
      DotsEnd(v);
      ConcatLast(".", d + v);
      ConcatLast(d, v);
    } else {
      var letter, w := G.LetterStep(t);
      NoSeparators(letter, "");
      SuffixesEnd(w);
      ConcatLast(letter, w);
    }
  }

  lemma VersionEnd(ver: string)
    requires G.IsVersion(ver)
    ensures !IsSeparator(ver[|ver| - 1])
  {
    hide *;
    var d, t := G.NumberStep(ver);
    NoSeparators("", d);
    DotsEnd(t);
    ConcatLast(d, t);
  }

  lemma NormalizedEnd(v: string)
    requires v != "" && !IsSeparator(v[|v| - 1])
    ensures var s := NormalizeLeadingZeros(v); s != "" && !IsSeparator(s[|s| - 1])
  {
    hide TrimZeros;
    var zeros := LeadingZeros(v);
    ConcatLast(zeros, TrimZeros(v));
    ConcatLast("0", TrimZeros(v));
  }

  lemma RevisionEnd(s: string, rev: Option<string>)
    requires s != "" && !IsSeparator(s[|s| - 1]) && (rev.Some? ==> G.IsDigits(rev.value))
    ensures var t := s + G.RevText(rev); t != "" && !IsSeparator(t[|t| - 1])
  {
    if rev.Some? {
      ConcatLast("-r", rev.value);
      ConcatLast(s, "-r" + rev.value);
    } else {
      assert s + "" == s;
    }
  }

  lemma CompareStringEnd(v: G.Vr)
    requires G.ValidVr(v)
    ensures var s := GlobCompareString(v.ver, v.rev); s != "" && !IsSeparator(s[|s| - 1])
  {
    hide G.IsVersion, IsSeparator, NormalizeLeadingZeros, G.RevText, G.IsDigits;
    G.VersionChars(v.ver);
    VersionEnd(v.ver);
    NormalizedEnd(v.ver);
    RevisionEnd(NormalizeLeadingZeros(v.ver), v.rev);
  }

  // The `*` form of an atom compares whole components: with leading zeros
  // dropped, the atom's components must be the first ones of the candidate's.
  lemma GlobComparesComponents(v: G.Vr, c: G.Vr)
    requires G.ValidVr(v)
    ensures PrefixMatches(GlobCompareString(v.ver, v.rev), GlobCompareString(c.ver, c.rev)) <==>
      Components(GlobCompareString(v.ver, v.rev)) <= Components(GlobCompareString(c.ver, c.rev))
  {
    hide *;
    CompareStringEnd(v);
    PrefixIsComponents(GlobCompareString(v.ver, v.rev), GlobCompareString(c.ver, c.rev));
  }

  // What normalising keeps: only zeros in front are gone, and the first number
  // that is left has no leading zero.
  lemma NormalizedMeaning(v: string) returns (zeros: string)
    requires v != "" && IsDigit(v[0])
    ensures v == zeros + NormalizeLeadingZeros(v) && forall i | 0 <= i < |zeros| :: zeros[i] == '0'
    ensures var s := NormalizeLeadingZeros(v); |s| > 1 && s[0] == '0' ==> !IsDigit(s[1])
  {
    hide TrimZeros;
    var all := LeadingZeros(v);
    var rest := TrimZeros(v);
    if rest != "" && IsDigit(rest[0]) {
      zeros := all;
    } else {
      assert all == "" ==> v == rest;
      zeros := all[..|all| - 1];
      SnocLast(all);
      Assoc(zeros, "0", rest);
    }
  }

  lemma {:induction false} LeadingZeros(v: string) returns (zeros: string)
    ensures v == zeros + TrimZeros(v) && forall i | 0 <= i < |zeros| :: zeros[i] == '0'
    ensures TrimZeros(v) != "" ==> TrimZeros(v)[0] != '0'
  {
    if v != "" && v[0] == '0' {
      var rest := LeadingZeros(v[1..]);
      zeros := "0" + rest;
      assert v == "0" + v[1..];
      Assoc("0", rest, TrimZeros(v[1..]));
      forall i | 0 <= i < |zeros| ensures zeros[i] == '0' {
        assert i > 0 ==> zeros[i] == rest[i - 1];
      }
    } else {
      zeros := "";
      assert "" + v == v;
    }
  }

  // The text a version is compared by: zeros in front of the first number are
  // gone, down to one digit, and the revision follows.
  ghost predicate ComparedAs(v: G.Vr, text: string) {
    exists zeros, main ::
      && v.ver == zeros + main && (forall i | 0 <= i < |zeros| :: zeros[i] == '0')
      && main != "" && IsDigit(main[0]) && (|main| > 1 && main[0] == '0' ==> !IsDigit(main[1]))
      && text == main + if v.rev.Some? then "-r" + v.rev.value else ""
  }

  // With fewer zeros taken, another digit would follow a zero.
  lemma DigitAhead(zeros: string, main: string, zeros': string, main': string)
    requires zeros + main == zeros' + main' && |zeros| < |zeros'|
    requires (forall i | 0 <= i < |zeros'| :: zeros'[i] == '0') && main' != "" && IsDigit(main'[0])
    ensures |main| > 1 && main[0] == '0' && IsDigit(main[1])
  {
    var s, n := zeros + main, |zeros|;
    assert main[0] == s[n] && main[1] == s[n + 1];
    assert s[n] == zeros'[n] && s[n + 1] == if n + 1 < |zeros'| then zeros'[n + 1] else main'[0];
  }

  lemma ZerosOnce(zeros: string, main: string, zeros': string, main': string)
    requires zeros + main == zeros' + main' && |zeros| <= |zeros'|
    requires forall i | 0 <= i < |zeros'| :: zeros'[i] == '0'
    requires main != "" && (|main| > 1 && main[0] == '0' ==> !IsDigit(main[1]))
    requires main' != "" && IsDigit(main'[0])
    ensures main == main'
  {
    hide IsDigit;
    ConcatCut(zeros, main);
    ConcatCut(zeros', main');
    if |zeros| < |zeros'| {
      DigitAhead(zeros, main, zeros', main');
    }
  }

  lemma ComparedExactly(v: G.Vr, text: string)
    requires G.ValidVr(v)
    ensures ComparedAs(v, text) <==> text == GlobCompareString(v.ver, v.rev)
  {
    hide G.IsVersion, NormalizeLeadingZeros, G.IsDigits;
    G.VersionChars(v.ver);
    var main := NormalizeLeadingZeros(v.ver);
    var zeros := NormalizedMeaning(v.ver);
    NormalizedHead(v.ver);
    if ComparedAs(v, text) {
      var zs, m :| v.ver == zs + m && (forall i | 0 <= i < |zs| :: zs[i] == '0')
        && m != "" && IsDigit(m[0]) && (|m| > 1 && m[0] == '0' ==> !IsDigit(m[1]))
        && text == m + if v.rev.Some? then "-r" + v.rev.value else "";
      if |zs| <= |zeros| {
        ZerosOnce(zs, m, zeros, main);
      } else {
        ZerosOnce(zeros, main, zs, m);
      }
    }
  }

  lemma NormalizedHead(v: string)
    ensures NormalizeLeadingZeros(v) != "" && IsDigit(NormalizeLeadingZeros(v)[0])
  {
    hide TrimZeros;
  }
}
