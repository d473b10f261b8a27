// The line functions of the bash environment filter: the end of a multi-line
// quote, the read-only option of a declaration, and the \1 characters.
module BashLines {
  import opened Wrappers
  import opened Text

  function StripSpace(s: string): string {
    if s != "" && IsSpace(s[|s| - 1]) then StripSpace(s[..|s| - 1]) else s
  }

  // `have_end_quote`: the last word ends in the quote, and not in `\"`.
  predicate HaveEndQuote(quote: char, line: string) {
    var t := StripSpace(line);
    && quote in {'"', '\''}
    && EndsWith(t, quote)
    && !(quote == '"' && |t| > 1 && t[|t| - 2] == '\\')
  }

  // The line as text, closing quote and trailing blanks.
  ghost predicate ClosedBy(quote: char, line: string, text: string, blanks: string) {
    && line == text + ([quote] + blanks) && (forall i | 0 <= i < |blanks| :: IsSpace(blanks[i]))
    && !(quote == '"' && EndsWith(text, '\\'))
  }

  lemma {:induction false} StripSpaceParts(s: string) returns (blanks: string)
    ensures s == StripSpace(s) + blanks && forall i | 0 <= i < |blanks| :: IsSpace(blanks[i])
  {
    if s != "" && IsSpace(s[|s| - 1]) {
      var front := StripSpaceParts(s[..|s| - 1]);
      blanks := front + [s[|s| - 1]];
      SnocLast(s);
      var t := StripSpace(s[..|s| - 1]);
      assert t + (front + [s[|s| - 1]]) == t + front + [s[|s| - 1]];
    } else {
      blanks := "";
    }
  }

  lemma {:induction false} StripSpaceOf(t: string, blanks: string)
    requires forall i | 0 <= i < |blanks| :: IsSpace(blanks[i])
    requires t != "" && !IsSpace(t[|t| - 1])
    ensures StripSpace(t + blanks) == t
    decreases |blanks|
  {
    var s := t + blanks;
    if blanks == "" {
      assert s == t;
    } else {
      assert s[|s| - 1] == blanks[|blanks| - 1];
      assert s[..|s| - 1] == t + blanks[..|blanks| - 1];
      StripSpaceOf(t, blanks[..|blanks| - 1]);
    }
  }

  // Exactly which lines close a quote.
  lemma EndQuoteMeaning(quote: char, line: string)
    ensures HaveEndQuote(quote, line) <==>
      quote in {'"', '\''} && exists text, blanks :: ClosedBy(quote, line, text, blanks)
  {
    if HaveEndQuote(quote, line) {
      var t := StripSpace(line);
      var blanks := StripSpaceParts(line);
      var text := t[..|t| - 1];
      SnocLast(t);
      assert text + [quote] + blanks == text + ([quote] + blanks);
      assert ClosedBy(quote, line, text, blanks);
    }
    if quote in {'"', '\''} && exists text, blanks :: ClosedBy(quote, line, text, blanks) {
      var text, blanks :| ClosedBy(quote, line, text, blanks);
      var t := text + [quote];
      assert text + ([quote] + blanks) == t + blanks;
      StripSpaceOf(t, blanks);
      assert |t| > 1 ==> t[|t| - 2] == text[|text| - 1];
    }
  }

  // The longest prefix whose characters are all blank, or all not, and the rest.
  function Break(s: string, blank: bool): (r: (string, string))
    ensures r.0 + r.1 == s
    ensures AllBlank(r.0, blank)
    ensures r.1 == "" || IsSpace(r.1[0]) != blank
  {
    Cut(if blank then Space else NonSpace, s)
  }

  predicate AllBlank(s: string, blank: bool) {
    forall i | 0 <= i < |s| :: IsSpace(s[i]) == blank
  }

  lemma BreakOf(a: string, b: string, blank: bool)
    requires AllBlank(a, blank) && (b == "" || IsSpace(b[0]) != blank)
    ensures Break(a + b, blank) == (a, b)
  {
    CutOf(if blank then Space else NonSpace, a, b);
  }

  lemma BlankStart(a: string, blank: bool)
    ensures AllBlank(a, blank) && a != "" ==> IsSpace(a[0]) == blank
    ensures !IsSpace('-')
  {
  }

  // The text around the last `r` of an option word.
  function AroundLastR(w: string): Option<(string, string)> {
    if w == "" then None
    else if w[|w| - 1] == 'r' then Some((w[..|w| - 1], ""))
    else
      var front := AroundLastR(w[..|w| - 1]);
      if front.None? then None else Some((front.value.0, front.value.1 + [w[|w| - 1]]))
  }

  lemma LastR(p: string, q: string)
    ensures var t := p + ("r" + q);
      && t != "" && t[|t| - 1] == (if q == "" then 'r' else q[|q| - 1])
      && t[..|t| - 1] == if q == "" then p else p + ("r" + q[..|q| - 1])
  {
    var t := p + ("r" + q);
    if q == "" {
      assert t == p + ['r'];
    } else {
      SnocLast(q);
      assert t == p + ("r" + q[..|q| - 1]) + [q[|q| - 1]];
    }
  }

  lemma {:induction false} AroundLastRMeaning(w: string, p: string, q: string)
    ensures AroundLastR(w) == Some((p, q)) <==> w == p + ("r" + q) && 'r' !in q
    ensures AroundLastR(w).Some? <==> 'r' in w
  {
    LastR(p, q);
    if w == "" {
    } else {
      var n := |w| - 1;
      SnocLast(w);
      if q != "" {
        SnocLast(q);
        AroundLastRMeaning(w[..n], p, q[..|q| - 1]);
      } else {
        AroundLastRMeaning(w[..n], p, q);
      }
    }
  }

  // `declare -opts name...`, with the option word's last `r` singled out.
  datatype Declare = Declare(gap: string, before: string, after: string, gap2: string, rest: string)

  ghost predicate DeclareOk(d: Declare) {
    && d.gap != "" && AllBlank(d.gap, true) && d.gap2 != "" && AllBlank(d.gap2, true)
    && AllBlank(d.before, false) && AllBlank(d.after, false) && 'r' !in d.after
    && (d.rest == "" || !IsSpace(d.rest[0]))
  }

  function DeclareText(d: Declare): string {
    "declare" + (d.gap + ("-" + ((d.before + ("r" + d.after)) + (d.gap2 + d.rest))))
  }

  function MatchReadonly(line: string): Option<Declare> {
    var s := Strip(line, "declare");
    if s.None? then None
    else
      var (gap, t) := Break(s.value, true);
      var u := Strip(t, "-");
      if gap == "" || u.None? then None
      else
        var (w, v) := Break(u.value, false);
        var (gap2, rest) := Break(v, true);
        var r := AroundLastR(w);
        if r.None? || gap2 == "" then None else Some(Declare(gap, r.value.0, r.value.1, gap2, rest))
  }

  // `filter_declare_readonly_opt`
  function DropReadonly(line: string): string {
    var m := MatchReadonly(line);
    if m.None? then line
    else
      var d := m.value;
      if d.before + d.after != "" then "declare -" + ((d.before + d.after) + (" " + d.rest)) else "declare " + d.rest
  }

  lemma AllBlankConcat(a: string, b: string, blank: bool)
    ensures AllBlank(a + b, blank) <==> AllBlank(a, blank) && AllBlank(b, blank)
  {
    var s := a + b;
    assert forall i | 0 <= i < |a| :: s[i] == a[i];
    assert forall i | 0 <= i < |b| :: s[|a| + i] == b[i];
  }

  // A line is recognised as a read-only declaration exactly when it has that
  // form, and in one way only.
  lemma ReadonlyMeaning(line: string, d: Declare)
    ensures MatchReadonly(line) == Some(d) <==> DeclareOk(d) && DeclareText(d) == line
  {
    if MatchReadonly(line) == Some(d) {
      MatchedReadonly(line, d);
    }
    if DeclareOk(d) && DeclareText(d) == line {
      ReadonlyMatched(d);
    }
  }

  lemma MatchedReadonly(line: string, d: Declare)
    requires MatchReadonly(line) == Some(d)
    ensures DeclareOk(d) && DeclareText(d) == line
  {
    hide AllBlank, Break, Strip, AroundLastR, IsSpace;
    var s := Strip(line, "declare").value;
    var t := Break(s, true).1;
    var u := Strip(t, "-").value;
    var (w, v) := Break(u, false);
    AroundLastRMeaning(w, d.before, d.after);
    AllBlankConcat(d.before, "r" + d.after, false);
    AllBlankConcat("r", d.after, false);
  }

  lemma ReadonlyMatched(d: Declare)
    requires DeclareOk(d)
    ensures MatchReadonly(DeclareText(d)) == Some(d)
  {
    hide *;
    DeclareCases(d);
    var v := d.gap2 + d.rest;
    var w := d.before + ("r" + d.after);
    var t := "-" + (w + v);
    AllBlankConcat(d.before, "r" + d.after, false);
    AllBlankConcat("r", d.after, false);
    BlankStart(d.gap2, true);
    ConcatFirst(d.gap2, d.rest);
    ConcatFirst("-", w + v);
    StripOf("declare", d.gap + t);
    BreakOf(d.gap, t, true);
    StripOf("-", w + v);
    BreakOf(w, v, false);
    BreakOf(d.gap2, d.rest, true);
    AroundLastRMeaning(w, d.before, d.after);
    ReadonlySteps(DeclareText(d), d, w, v);
  }

  lemma DeclareCases(d: Declare)
    requires DeclareOk(d)
    ensures DeclareText(d) == "declare" + (d.gap + ("-" + ((d.before + ("r" + d.after)) + (d.gap2 + d.rest))))
    ensures d.gap != "" && AllBlank(d.gap, true) && d.gap2 != "" && AllBlank(d.gap2, true)
    ensures AllBlank(d.before, false) && AllBlank(d.after, false) && AllBlank("r", false)
    ensures 'r' !in d.after && (d.rest == "" || !IsSpace(d.rest[0]))
  {
  }

  lemma ReadonlySteps(line: string, d: Declare, w: string, v: string)
    requires Strip(line, "declare") == Some(d.gap + ("-" + (w + v)))
    requires Break(d.gap + ("-" + (w + v)), true) == (d.gap, "-" + (w + v))
    requires Strip("-" + (w + v), "-") == Some(w + v)
    requires Break(w + v, false) == (w, v) && Break(v, true) == (d.gap2, d.rest)
    requires AroundLastR(w) == Some((d.before, d.after)) && d.gap != "" && d.gap2 != ""
    ensures MatchReadonly(line) == Some(d)
  {
    hide Break, Strip, AroundLastR;
  }

  // Every other line is left alone, and of such a line only the one option
  // letter and the width of the blanks change.
  lemma DropReadonlyMeaning(line: string)
    ensures MatchReadonly(line).None? ==> DropReadonly(line) == line
    ensures MatchReadonly(line).Some? ==>
      var d := MatchReadonly(line).value;
      && DeclareOk(d) && line == DeclareText(d)
      && DropReadonly(line) ==
        "declare " + ((if d.before == "" && d.after == "" then "" else "-" + (d.before + d.after + " ")) + d.rest)
  {
    if MatchReadonly(line).Some? {
      var d := MatchReadonly(line).value;
      ReadonlyMeaning(line, d);
      hide MatchReadonly, DeclareOk, DeclareText;
      OptionText(d.before + d.after, d.rest);
      assert |d.before + d.after| == |d.before| + |d.after|;
    }
  }

  lemma OptionText(o: string, rest: string)
    ensures "declare -" + (o + (" " + rest)) == "declare " + ("-" + (o + " ") + rest)
    ensures "declare " + rest == "declare " + ("" + rest)
  {
    assert "-" + (o + (" " + rest)) == "-" + (o + " ") + rest;
    assert "declare -" == "declare " + "-";
    assert "declare " + "-" + (o + (" " + rest)) == "declare " + ("-" + (o + (" " + rest)));
    assert "" + rest == rest;
  }

  // `line.replace(b"\1", b"")`
  function RemoveSoh(line: string): string {
    Without('\U{1}', line)
  }

  // What is left after removing `\1`: the parts between the `\1`s, in order.
  lemma {:induction false} SohRemoved(s: string)
    ensures RemoveSoh(s) == Concat(Split(s, '\U{1}'))
    ensures '\U{1}' !in RemoveSoh(s)
    ensures RemoveSoh(s) == s <==> '\U{1}' !in s
    ensures |RemoveSoh(s)| <= |s|
  {
    if s == "" {
      assert [""][..0] == [];
    } else {
      SohRemoved(s[1..]);
      var rest := Split(s[1..], '\U{1}');
      assert s == [s[0]] + s[1..];
      if s[0] == '\U{1}' {
        ConcatAppend([""], rest);
        OnePart("");
        assert "" + Concat(rest) == Concat(rest);
      } else {
        GrowConcats(s[0], rest);
      }
    }
  }

  lemma OnePart(x: string)
    ensures Concat([x]) == x
  {
    assert [x][..0] == [] && "" + x == x;
  }

  lemma GrowConcats(x: char, parts: seq<string>)
    requires parts != []
    ensures Concat(Grow(x, parts)) == [x] + Concat(parts)
  {
    hide Concat;
    var first, more := parts[0], parts[1..];
    assert parts == [first] + more;
    ConcatAppend([first], more);
    ConcatAppend([[x] + first], more);
    OnePart(first);
    OnePart([x] + first);
    assert [x] + first + Concat(more) == [x] + (first + Concat(more));
  }
}
