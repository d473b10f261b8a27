// A sequence standing at a position of another one.
module Positions {

  // `part` stands at `pos`.
  ghost predicate At<T>(tokens: seq<T>, pos: nat, part: seq<T>) {
    pos + |part| <= |tokens| && forall i | 0 <= i < |part| :: tokens[pos + i] == part[i]
  }

  lemma AtConcat<T>(tokens: seq<T>, pos: nat, a: seq<T>, b: seq<T>)
    ensures At(tokens, pos, a + b) <==> At(tokens, pos, a) && At(tokens, pos + |a|, b)
  {
    var ab := a + b;
    if At(tokens, pos, ab) {
      forall i | 0 <= i < |a| ensures tokens[pos + i] == a[i] { assert ab[i] == a[i]; }
      forall i | 0 <= i < |b| ensures tokens[pos + |a| + i] == b[i] { assert ab[|a| + i] == b[i]; }
    }
    if At(tokens, pos, a) && At(tokens, pos + |a|, b) {
      forall i | 0 <= i < |ab| ensures tokens[pos + i] == ab[i] {
        if i >= |a| { assert tokens[pos + |a| + (i - |a|)] == b[i - |a|]; }
      }
    }
  }

  lemma AtOne<T>(tokens: seq<T>, pos: nat, t: T)
    ensures At(tokens, pos, [t]) <==> pos < |tokens| && tokens[pos] == t
  {
    assert At(tokens, pos, [t]) ==> tokens[pos + 0] == [t][0];
  }

  lemma AtTwo<T>(tokens: seq<T>, pos: nat, t: T, u: T)
    ensures At(tokens, pos, [t, u]) <==> pos + 1 < |tokens| && tokens[pos] == t && tokens[pos + 1] == u
  {
    assert At(tokens, pos, [t, u]) ==> tokens[pos + 0] == [t, u][0] && tokens[pos + 1] == [t, u][1];
  }

  lemma AtWhole<T>(tokens: seq<T>, part: seq<T>)
    ensures At(tokens, 0, part) && |part| == |tokens| <==> tokens == part
  {
    if At(tokens, 0, part) && |part| == |tokens| {
      forall i | 0 <= i < |tokens| ensures tokens[i] == part[i] { assert tokens[0 + i] == part[i]; }
    }
  }
}
