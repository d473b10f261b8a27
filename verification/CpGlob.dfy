// Wildcard matching of `category/package`: every `*` of the pattern stands for
// a run of characters other than `/`, everything else for itself.
module CpGlob {
  // `extended_cp_match`: `^...$` with each `*` replaced by `[^/]*`.
  predicate Matches(p: string, s: string)
    decreases |p|, |s|
  {
    if p == "" then s == ""
    else if p[0] == '*' then Matches(p[1..], s) || (s != "" && s[0] != '/' && Matches(p, s[1..]))
    else s != "" && s[0] == p[0] && Matches(p[1..], s[1..])
  }

  // ----- What the pattern denotes -----

  function Stars(p: string): nat {
    if p == "" then 0 else (if p[0] == '*' then 1 else 0) + Stars(p[1..])
  }

  // The text obtained by replacing the stars, in order.
  function Fill(p: string, fills: seq<string>): string
    requires |fills| == Stars(p)
  {
    if p == "" then ""
    else if p[0] == '*' then fills[0] + Fill(p[1..], fills[1..])
    else [p[0]] + Fill(p[1..], fills)
  }

  ghost predicate Denotes(p: string, s: string) {
    exists fills | Filling(p, s, fills) :: true
  }

  ghost predicate Filling(p: string, s: string, fills: seq<string>) {
    |fills| == Stars(p) && (forall f <- fills :: '/' !in f) && Fill(p, fills) == s
  }

  lemma {:induction false} FindFilling(p: string, s: string) returns (fills: seq<string>)
    requires Matches(p, s)
    ensures Filling(p, s, fills)
    decreases |p|, |s|
  {
    if p == "" {
      fills := [];
    } else if p[0] != '*' {
      fills := FindFilling(p[1..], s[1..]);
    } else if Matches(p[1..], s) {
      var rest := FindFilling(p[1..], s);
      fills := [""] + rest;
      assert fills[1..] == rest;
    } else {
      var longer := FindFilling(p, s[1..]);
      fills := [[s[0]] + longer[0]] + longer[1..];
      assert fills[1..] == longer[1..];
      assert longer[0] in longer && forall f <- longer[1..] :: f in longer;
      assert fills[0] + Fill(p[1..], fills[1..]) == [s[0]] + (longer[0] + Fill(p[1..], longer[1..]));
    }
  }

  lemma {:induction false} StarTakes(p: string, f: string, s: string)
    requires p != "" && p[0] == '*' && '/' !in f && Matches(p[1..], s)
    ensures Matches(p, f + s)
    decreases |f|
  {
    if f == "" {
      assert f + s == s;
    } else {
      StarTakes(p, f[1..], s);
      assert (f + s)[1..] == f[1..] + s;
    }
  }

  lemma {:induction false} FilledMatches(p: string, s: string, fills: seq<string>)
    requires Filling(p, s, fills)
    ensures Matches(p, s)
    decreases |p|
  {
    if p == "" {
    } else if p[0] == '*' {
      var t := Fill(p[1..], fills[1..]);
      FilledMatches(p[1..], t, fills[1..]);
      StarTakes(p, fills[0], t);
    } else {
      FilledMatches(p[1..], s[1..], fills);
    }
  }

  // The matcher accepts exactly the texts the pattern denotes.
  lemma MatchesIsDenotation(p: string, s: string)
    ensures Matches(p, s) <==> Denotes(p, s)
  {
    if Matches(p, s) {
      var fills := FindFilling(p, s);
    }
    if Denotes(p, s) {
      var fills :| Filling(p, s, fills);
      FilledMatches(p, s, fills);
    }
  }

  // ----- Category and package match separately -----

  // A star never crosses `/`: two halves match exactly when each matches.
  lemma {:induction false} HalvesMatch(a: string, b: string, x: string, y: string)
    requires '/' !in a && '/' !in x
    ensures Matches(a + ("/" + b), x + ("/" + y)) <==> Matches(a, x) && Matches(b, y)
    decreases |a|, |x|
  {
    var p, s := a + ("/" + b), x + ("/" + y);
    if a == "" {
      assert p == "/" + b && p[1..] == b;
      assert s[0] == if x == "" then '/' else x[0];
      assert x == "" ==> s[1..] == y;
    } else {
      assert p[0] == a[0] && p[1..] == a[1..] + ("/" + b);
      if x == "" {
        assert s[0] == '/';
      } else {
        assert s[0] == x[0] && s[1..] == x[1..] + ("/" + y);
      }
      if a[0] == '*' {
        HalvesMatch(a[1..], b, x, y);
        if x != "" {
          HalvesMatch(a, b, x[1..], y);
        }
      } else if x != "" {
        HalvesMatch(a[1..], b, x[1..], y);
      }
    }
  }

  // A pattern without stars matches itself and nothing else.
  lemma {:induction false} StarFree(p: string, s: string)
    requires '*' !in p
    ensures Matches(p, s) <==> p == s
  {
    if p == "" {
    } else {
      if s != "" {
        StarFree(p[1..], s[1..]);
        assert p == [p[0]] + p[1..] && s == [s[0]] + s[1..];
      }
    }
  }

  // Every text matches itself, read as a pattern.
  lemma {:induction false} SelfMatch(p: string)
    ensures Matches(p, p)
  {
    if p == "" {
    } else {
      SelfMatch(p[1..]);
      if p[0] == '*' {
        assert Matches(p, p[1..]);
      }
    }
  }
}
