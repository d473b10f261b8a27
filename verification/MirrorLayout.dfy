// Distfiles mirror layouts: cutting a hash into directory levels with Python
// slice bounds, the path of a file under a layout, and the choice of a layout.
// The hash functions are a parameter.
module MirrorLayout {
  import opened Wrappers
  import opened Text
  import opened Decimals

  datatype Layout =
    | Flat
    | FilenameHash(algo: string, cutoffs: seq<int>)
    | ContentHash(algo: string, cutoffs: seq<int>)

  // ----- Cutting a hash -----

  // The boundary of `s[:i]` and `s[i:]` for a sequence of length `len`.
  function PythonSliceIndex(i: int, len: nat): (n: nat)
    ensures n <= len
    ensures 0 <= i <= len ==> n == i
    ensures i > len ==> n == len
    ensures i < 0 && len + i >= 0 ==> n == len + i
    ensures len + i < 0 ==> n == 0
  {
    if i < 0 then if len + i > 0 then len + i else 0
    else if i < len then i else len
  }

  // The directory names, and what is left of the hash; Euclidean division is
  // the source's `div_euclid`.
  function Cuts(hex: string, cutoffs: seq<int>): (seq<string>, string) {
    if cutoffs == [] then ([], hex)
    else
      var n := |cutoffs| - 1;
      var (dirs, rest) := Cuts(hex, cutoffs[..n]);
      var split := PythonSliceIndex(cutoffs[n] / 4, |rest|);
      (dirs + [rest[..split]], rest[split..])
  }

  // Each name followed by a slash.
  function Dirs(names: seq<string>): string {
    if names == [] then "" else Dirs(names[..|names| - 1]) + (names[|names| - 1] + "/")
  }

  // `cut_path`
  method CutPath(hex: string, cutoffs: seq<int>) returns (ret: string)
    ensures ret == Dirs(Cuts(hex, cutoffs).0)
  {
    var remaining := hex;
    ret := "";
    for k := 0 to |cutoffs|
      invariant Cuts(hex, cutoffs[..k]).1 == remaining
      invariant Dirs(Cuts(hex, cutoffs[..k]).0) == ret
    {
      var split := PythonSliceIndex(cutoffs[k] / 4, |remaining|);
      CutsSnoc(hex, cutoffs, k);
      DirsSnoc(Cuts(hex, cutoffs[..k]).0, remaining[..split]);
      ret := ret + (remaining[..split] + "/");
      remaining := remaining[split..];
    }
    assert cutoffs[..|cutoffs|] == cutoffs;
  }

  lemma CutsSnoc(hex: string, cutoffs: seq<int>, k: nat)
    requires k < |cutoffs|
    ensures var (dirs, rest) := Cuts(hex, cutoffs[..k]);
      var split := PythonSliceIndex(cutoffs[k] / 4, |rest|);
      Cuts(hex, cutoffs[..k + 1]) == (dirs + [rest[..split]], rest[split..])
  {
    assert cutoffs[..k + 1][..k] == cutoffs[..k];
  }

  lemma DirsSnoc(names: seq<string>, x: string)
    ensures Dirs(names + [x]) == Dirs(names) + (x + "/")
  {
    assert (names + [x])[..|names|] == names;
  }

  // Whatever the cutoffs, there is one directory per cutoff, and the names
  // followed by the remainder spell the hash.
  lemma {:induction false} CutsPartition(hex: string, cutoffs: seq<int>)
    ensures |Cuts(hex, cutoffs).0| == |cutoffs|
    ensures Concat(Cuts(hex, cutoffs).0) + Cuts(hex, cutoffs).1 == hex
  {
    hide *;
    if cutoffs == [] {
      CutsNone(hex, cutoffs);
    } else {
      var n := |cutoffs| - 1;
      CutsPartition(hex, cutoffs[..n]);
      CutsSnoc(hex, cutoffs, n);
      assert cutoffs[..n + 1] == cutoffs;
      var (dirs, rest) := Cuts(hex, cutoffs[..n]);
      var split := PythonSliceIndex(cutoffs[n] / 4, |rest|);
      ConcatSnoc(dirs, rest[..split]);
      Regroup(Concat(dirs), rest, split);
    }
  }

  lemma CutsNone(hex: string, cutoffs: seq<int>)
    requires cutoffs == []
    ensures Cuts(hex, cutoffs) == ([], hex) && Concat([]) + hex == hex
  {
  }

  lemma Regroup(a: string, s: string, n: nat)
    requires n <= |s|
    ensures a + s[..n] + s[n..] == a + s
  {
  }

  function Count(c: char, s: string): nat {
    if s == "" then 0 else (if s[0] == c then 1 else 0) + Count(c, s[1..])
  }

  lemma {:induction false} WithoutConcat(c: char, a: string, b: string)
    ensures Without(c, a + b) == Without(c, a) + Without(c, b)
    ensures Count(c, a + b) == Count(c, a) + Count(c, b)
  {
    if a == "" {
      assert a + b == b;
    } else {
      WithoutConcat(c, a[1..], b);
      var x := if a[0] == c then "" else [a[0]];
      assert (a + b)[1..] == a[1..] + b;
      assert x + Without(c, a[1..]) + Without(c, b) == x + (Without(c, a[1..]) + Without(c, b));
    }
  }

  lemma {:induction false} WithoutNothing(c: char, s: string)
    requires c !in s
    ensures Without(c, s) == s && Count(c, s) == 0
  {
    if s == "" {
    } else {
      WithoutNothing(c, s[1..]);
      assert s == [s[0]] + s[1..];
    }
  }

  lemma {:induction false} DirsWithout(names: seq<string>)
    requires '/' !in Concat(names)
    ensures Without('/', Dirs(names)) == Concat(names) && Count('/', Dirs(names)) == |names|
  {
    if names == [] {
    } else {
      var n := |names| - 1;
      var front, last := names[..n], names[n];
      SnocLast(names);
      assert forall c | c in Concat(front) || c in last :: c in Concat(front) + last;
      DirsWithout(front);
      WithoutNothing('/', last);
      WithoutConcat('/', Dirs(front), last + "/");
      WithoutConcat('/', last, "/");
      OneSlash();
      assert last + "" == last;
      hide Without, Count;
    }
  }

  lemma OneSlash()
    ensures Without('/', "/") == "" && Count('/', "/") == 1
  {
    assert "/"[..0] == "";
  }

  // The cut path of a hash has one slash per cutoff, and without its slashes
  // it is the start of the hash, whatever was cut.
  lemma CutPathMeaning(hex: string, cutoffs: seq<int>)
    requires '/' !in hex
    ensures var (dirs, rest) := Cuts(hex, cutoffs);
      Count('/', Dirs(dirs)) == |cutoffs| && Without('/', Dirs(dirs)) + rest == hex
  {
    CutsPartition(hex, cutoffs);
    var (dirs, rest) := Cuts(hex, cutoffs);
    assert forall c | c in Concat(dirs) :: c in Concat(dirs) + rest;
    DirsWithout(dirs);
  }

  // ----- Paths -----

  const HASH_NAMES: seq<string> := ["BLAKE2B", "BLAKE2S", "MD5", "SHA1", "SHA256", "SHA512"]

  const CHECKSUM_KEYS: seq<string> :=
    ["BLAKE2B", "BLAKE2S", "MD5", "RMD160", "SHA1", "SHA256", "SHA3_256", "SHA3_512", "SHA512", "WHIRLPOOL"]

  // A lower-case hex digest for each carried algorithm.
  type Hashes = (string, string) -> string

  // `hash_hex`
  function HashHex(algo: string, data: string, hashes: Hashes): Option<string> {
    if algo in HASH_NAMES then Some(hashes(algo, data)) else None
  }

  function Upper(s: string): (r: string)
    ensures |r| == |s|
  {
    seq(|s|, i requires 0 <= i < |s| => if IsLower(s[i]) then ((s[i] as int) - 32) as char else s[i])
  }

  // `get_path`
  function GetPath(layout: Layout, filename: string, digests: map<string, string>, hashes: Hashes): Option<string> {
    match layout
    case Flat => Some(filename)
    case FilenameHash(algo, cutoffs) =>
      var hash := HashHex(algo, filename, hashes);
      if hash.None? then None else Some(Dirs(Cuts(hash.value, cutoffs).0) + filename)
    case ContentHash(algo, cutoffs) =>
      if Upper(algo) in digests then
        var digest := digests[Upper(algo)];
        Some(Dirs(Cuts(digest, cutoffs).0) + digest)
      else None
  }

  // ----- Choosing a layout -----

  function OneCutoff(s: string): Option<int> {
    var n := ParseI64(s);
    if n.Some? && n.value % 4 == 0 then n else None
  }

  function AllCutoffs(parts: seq<string>): Option<seq<int>> {
    if parts == [] then Some([])
    else
      var first, rest := OneCutoff(parts[0]), AllCutoffs(parts[1..]);
      if first.None? || rest.None? then None else Some([first.value] + rest.value)
  }

  // `cutoffs_valid`
  function CutoffsValid(cutoffs: string): Option<seq<int>> {
    AllCutoffs(Split(cutoffs, ':'))
  }

  // `layout_for`
  function LayoutFor(val: seq<string>, digests: Option<map<string, string>>): Option<Layout> {
    if val == [] then None
    else if val == ["flat"] then Some(Flat)
    else if |val| == 3 && val[0] == "filename-hash" && val[1] in HASH_NAMES then
      var cutoffs := CutoffsValid(val[2]);
      if cutoffs.None? then None else Some(FilenameHash(val[1], cutoffs.value))
    else if |val| == 3 && val[0] == "content-hash" then
      var supported := val[1] in CHECKSUM_KEYS && (digests.Some? ==> Upper(val[1]) in digests.value);
      var cutoffs := CutoffsValid(val[2]);
      if !supported || cutoffs.None? then None else Some(ContentHash(val[1], cutoffs.value))
    else None
  }

  // `best_supported`: the first valid entry, else flat.
  function BestSupported(structure: seq<seq<string>>, digests: Option<map<string, string>>): Layout {
    if structure == [] then Flat
    else
      var layout := LayoutFor(structure[0], digests);
      if layout.Some? then layout.value else BestSupported(structure[1..], digests)
  }

  // What the choice guarantees about the layout.
  lemma {:induction false} BestSupportedUsable(structure: seq<seq<string>>, digests: Option<map<string, string>>)
    ensures var layout := BestSupported(structure, digests);
      && (layout.FilenameHash? ==> layout.algo in HASH_NAMES)
      && (layout.ContentHash? ==>
        layout.algo in CHECKSUM_KEYS && (digests.Some? ==> Upper(layout.algo) in digests.value))
  {
    hide CutoffsValid, HASH_NAMES, CHECKSUM_KEYS, Upper;
    if structure == [] {
    } else {
      BestSupportedUsable(structure[1..], digests);
    }
  }

  // A layout chosen for a file's digests has a path for the file; one chosen
  // without digests lacks one exactly when it wants a digest the file lacks.
  lemma PathExists(structure: seq<seq<string>>, filename: string, digests: map<string, string>, hashes: Hashes)
    ensures GetPath(BestSupported(structure, Some(digests)), filename, digests, hashes).Some?
    ensures var layout := BestSupported(structure, None);
      GetPath(layout, filename, digests, hashes).None? <==> layout.ContentHash? && Upper(layout.algo) !in digests
  {
    hide BestSupported, HASH_NAMES, CHECKSUM_KEYS, Upper, Dirs, Cuts;
    BestSupportedUsable(structure, Some(digests));
    BestSupportedUsable(structure, None);
  }

  // Exactly which layouts have no path for a file: those that want an unknown
  // hash of its name, or a digest that is not given.
  lemma PathMissing(layout: Layout, filename: string, digests: map<string, string>, hashes: Hashes)
    ensures GetPath(layout, filename, digests, hashes).None? <==>
      match layout
      case Flat => false
      case FilenameHash(algo, _) => algo !in {"MD5", "SHA1", "SHA256", "SHA512", "BLAKE2B", "BLAKE2S"}
      case ContentHash(algo, _) => Upper(algo) !in digests
  {
    hide Cuts, Dirs, Upper;
  }

  // Without a valid entry the layout is flat, where a file is stored under its
  // own name.
  lemma {:induction false} FlatOtherwise(structure: seq<seq<string>>, digests: Option<map<string, string>>,
                                         filename: string, fileDigests: map<string, string>, hashes: Hashes)
    requires forall i | 0 <= i < |structure| :: LayoutFor(structure[i], digests).None?
    ensures GetPath(BestSupported(structure, digests), filename, fileDigests, hashes) == Some(filename)
  {
    hide LayoutFor;
    if structure == [] {
    } else {
      assert LayoutFor(structure[0], digests).None?;
      FlatOtherwise(structure[1..], digests, filename, fileDigests, hashes);
    }
  }

  // The choice is the first entry that is valid for the digests.
  lemma {:induction false} BestSupportedFirst(structure: seq<seq<string>>, digests: Option<map<string, string>>, k: nat)
    requires k < |structure| && LayoutFor(structure[k], digests).Some?
    requires forall i | 0 <= i < k :: LayoutFor(structure[i], digests).None?
    ensures BestSupported(structure, digests) == LayoutFor(structure[k], digests).value
  {
    hide LayoutFor;
    if k == 0 {
    } else {
      assert LayoutFor(structure[0], digests).None?;
      forall i | 0 <= i < k - 1 ensures LayoutFor(structure[1..][i], digests).None? {
        assert structure[1..][i] == structure[i + 1];
      }
      BestSupportedFirst(structure[1..], digests, k - 1);
    }
  }

  // The cutoffs a layout is given are integers of the source's width that are
  // divisible by four, one per colon-separated part.
  lemma {:induction false} CutoffsMeaning(parts: seq<string>)
    ensures AllCutoffs(parts).Some? <==>
      forall i | 0 <= i < |parts| :: ParseI64(parts[i]).Some? && ParseI64(parts[i]).value % 4 == 0
    ensures AllCutoffs(parts).Some? ==>
      && |AllCutoffs(parts).value| == |parts|
      && forall i | 0 <= i < |parts| :: ParseI64(parts[i]) == Some(AllCutoffs(parts).value[i])
  {
    hide ParseI64;
    if parts == [] {
    } else {
      CutoffsMeaning(parts[1..]);
      assert forall i | 0 <= i < |parts[1..]| :: parts[1..][i] == parts[i + 1];
      assert forall i | 0 < i < |parts| :: parts[i] == parts[1..][i - 1];
    }
  }

  // ----- Distinct files, distinct paths -----

  predicate EndsDir(s: string) {
    s == "" || s[|s| - 1] == '/'
  }

  lemma SlashInside(p: string, f: string, q: string, g: string)
    requires p + f == q + g && EndsDir(q)
    ensures |p| < |q| ==> '/' in f
    ensures |p| == |q| ==> f == g
  {
    var s, t := p + f, q + g;
    if |p| < |q| {
      assert t[|q| - 1] == q[|q| - 1] && s[|q| - 1] == f[|q| - 1 - |p|];
    }
    if |p| == |q| {
      assert s[|p|..] == f && t[|q|..] == g;
    }
  }

  lemma LastName(p: string, f: string, q: string, g: string)
    requires p + f == q + g && EndsDir(p) && EndsDir(q) && '/' !in f && '/' !in g
    ensures f == g
  {
    SlashInside(p, f, q, g);
    SlashInside(q, g, p, f);
  }

  lemma DirsEnd(names: seq<string>)
    ensures EndsDir(Dirs(names))
  {
  }

  // Under one flat or filename-hash layout, files whose names have no slash
  // never share a path.
  lemma PathsDistinct(layout: Layout, f: string, g: string, digests: map<string, string>, hashes: Hashes)
    requires !layout.ContentHash? && '/' !in f && '/' !in g
    requires GetPath(layout, f, digests, hashes).Some?
    requires GetPath(layout, f, digests, hashes) == GetPath(layout, g, digests, hashes)
    ensures f == g
  {
    if layout.FilenameHash? {
      var p := Dirs(Cuts(HashHex(layout.algo, f, hashes).value, layout.cutoffs).0);
      var q := Dirs(Cuts(HashHex(layout.algo, g, hashes).value, layout.cutoffs).0);
      DirsEnd(Cuts(HashHex(layout.algo, f, hashes).value, layout.cutoffs).0);
      DirsEnd(Cuts(HashHex(layout.algo, g, hashes).value, layout.cutoffs).0);
      hide Dirs, Cuts, EndsDir;
      LastName(p, f, q, g);
    }
  }

  // ----- What the cuts and the entries mean -----

  function Sum(cutoffs: seq<int>): int {
    if cutoffs == [] then 0 else Sum(cutoffs[..|cutoffs| - 1]) + cutoffs[|cutoffs| - 1]
  }

  // Cutoffs are bits: as long as the hash is long enough, level `k` takes a
  // quarter of its cutoff in hex digits, and the rest of the hash is left.
  lemma {:induction false} CutWidths(hex: string, cutoffs: seq<int>)
    requires forall i | 0 <= i < |cutoffs| :: cutoffs[i] >= 0 && cutoffs[i] % 4 == 0
    requires Sum(cutoffs) <= 4 * |hex|
    ensures |Cuts(hex, cutoffs).0| == |cutoffs|
    ensures forall i | 0 <= i < |cutoffs| :: 4 * |Cuts(hex, cutoffs).0[i]| == cutoffs[i]
    ensures 4 * |Cuts(hex, cutoffs).1| == 4 * |hex| - Sum(cutoffs)
  {
    if cutoffs == [] {
    } else {
      var n := |cutoffs| - 1;
      assert cutoffs[n] >= 0;
      CutWidths(hex, cutoffs[..n]);
      CutsSnoc(hex, cutoffs, n);
      assert cutoffs[..n + 1] == cutoffs;
      hide Cuts;
    }
  }

  // At any level, a negative cutoff leaves that many bits of the hash for what
  // follows, or all that is left of it when there are fewer.
  lemma NegativeCutoff(hex: string, cutoffs: seq<int>, k: nat)
    requires k < |cutoffs| && cutoffs[k] < 0 && cutoffs[k] % 4 == 0
    ensures var (dirs, before) := Cuts(hex, cutoffs[..k]);
      var (dirs', after) := Cuts(hex, cutoffs[..k + 1]);
      && |dirs'| == |dirs| + 1 && dirs'[..|dirs|] == dirs && dirs'[|dirs|] + after == before
      && 4 * |after| == if -cutoffs[k] <= 4 * |before| then -cutoffs[k] else 4 * |before|
  {
    hide Cuts;
    CutsSnoc(hex, cutoffs, k);
    var (dirs, before) := Cuts(hex, cutoffs[..k]);
    var split := PythonSliceIndex(cutoffs[k] / 4, |before|);
    assert before[..split] + before[split..] == before;
  }

  // The last path element is the filename, or the whole digest; before it
  // stand as many directories as cutoffs, each closed by a slash and together
  // spelling the start of the hash.
  lemma PathShape(layout: Layout, filename: string, digests: map<string, string>, hashes: Hashes)
    returns (hash: string, last: string, rest: string)
    requires !layout.Flat? && GetPath(layout, filename, digests, hashes).Some?
    ensures last == if layout.FilenameHash? then filename else hash
    ensures layout.FilenameHash? ==> hash == hashes(layout.algo, filename)
    ensures layout.ContentHash? ==> Upper(layout.algo) in digests && hash == digests[Upper(layout.algo)]
    ensures '/' !in hash ==>
      var path := GetPath(layout, filename, digests, hashes).value;
      && Count('/', path) == |layout.cutoffs| + Count('/', last)
      && exists dirs :: path == dirs + last && EndsDir(dirs) && Without('/', dirs) + rest == hash
  {
    hide Cuts, Dirs, Count, Without, Upper, EndsDir;
    hash := if layout.FilenameHash? then hashes(layout.algo, filename) else digests[Upper(layout.algo)];
    last := if layout.FilenameHash? then filename else hash;
    var dirs := Dirs(Cuts(hash, layout.cutoffs).0);
    rest := Cuts(hash, layout.cutoffs).1;
    if '/' !in hash {
      DirsEnd(Cuts(hash, layout.cutoffs).0);
      CutPathMeaning(hash, layout.cutoffs);
      WithoutConcat('/', dirs, last);
    }
  }

  // A level of a cutoff takes its bits in hex digits, or all there are; a
  // negative one takes what stands before that many bits, rounded up.
  ghost predicate IsWidth(cutoff: int, before: nat, width: nat) {
    && width <= before
    && if cutoff >= 0 then 4 * width <= cutoff && (cutoff < 4 * width + 4 || width == before)
       else var after := before - width; 4 * after < 4 - cutoff && (-cutoff <= 4 * after || width == 0)
  }

  // The names cut off one after the other, and what is left at each level.
  ghost predicate IsCut(hash: string, cutoffs: seq<int>, names: seq<string>, rests: seq<string>) {
    && |names| == |cutoffs| && |rests| == |cutoffs| + 1 && rests[0] == hash
    && forall k | 0 <= k < |cutoffs| ::
         rests[k] == names[k] + rests[k + 1] && IsWidth(cutoffs[k], |rests[k]|, |names[k]|)
  }

  lemma WidthOf(cutoff: int, before: nat)
    ensures IsWidth(cutoff, before, PythonSliceIndex(cutoff / 4, before))
  {
  }

  lemma CutSnoc(hash: string, cutoffs: seq<int>, names: seq<string>, rests: seq<string>, cutoff: int, name: string,
                rest: string)
    requires IsCut(hash, cutoffs, names, rests)
    requires rests[|cutoffs|] == name + rest && IsWidth(cutoff, |name + rest|, |name|)
    ensures IsCut(hash, cutoffs + [cutoff], names + [name], rests + [rest])
  {
    hide IsWidth;
  }

  lemma CutNothing(hash: string, cutoffs: seq<int>)
    requires cutoffs == []
    ensures IsCut(hash, cutoffs, Cuts(hash, cutoffs).0, [hash]) && Cuts(hash, cutoffs).1 == hash
  {
  }

  lemma {:induction false} CutsExactly(hash: string, cutoffs: seq<int>) returns (rests: seq<string>)
    ensures IsCut(hash, cutoffs, Cuts(hash, cutoffs).0, rests)
    ensures |rests| == |cutoffs| + 1 && rests[|cutoffs|] == Cuts(hash, cutoffs).1
  {
    hide *;
    if cutoffs == [] {
      CutNothing(hash, cutoffs);
      rests := [hash];
    } else {
      var n := |cutoffs| - 1;
      var front := CutsExactly(hash, cutoffs[..n]);
      var (names, before) := Cuts(hash, cutoffs[..n]);
      var split := PythonSliceIndex(cutoffs[n] / 4, |before|);
      CutsSnoc(hash, cutoffs, n);
      SnocLast(cutoffs);
      assert cutoffs[..n + 1] == cutoffs;
      assert before == before[..split] + before[split..];
      WidthOf(cutoffs[n], |before|);
      CutSnoc(hash, cutoffs[..n], names, front, cutoffs[n], before[..split], before[split..]);
      rests := front + [before[split..]];
    }
  }

  lemma {:induction false} DirsJoin(names: seq<string>, last: string)
    ensures Dirs(names) + last == Join(names + [last], '/')
  {
    if names == [] {
      assert names + [last] == [last];
    } else {
      var n := |names| - 1;
      DirsJoin(names[..n], names[n]);
      assert names[..n] + [names[n]] == names;
      JoinConcat(names, [last], '/');
      Assoc(Dirs(names[..n]), names[n], "/");
    }
  }

  // The path, whatever the cutoffs: its elements are the names cut off the
  // hash level by level, and then the filename or the whole digest.
  lemma PathExactly(layout: Layout, filename: string, digests: map<string, string>, hashes: Hashes)
    returns (hash: string, names: seq<string>, rests: seq<string>)
    requires !layout.Flat? && GetPath(layout, filename, digests, hashes).Some?
    ensures layout.FilenameHash? ==> hash == hashes(layout.algo, filename)
    ensures layout.ContentHash? ==> Upper(layout.algo) in digests && hash == digests[Upper(layout.algo)]
    ensures IsCut(hash, layout.cutoffs, names, rests)
    ensures GetPath(layout, filename, digests, hashes) ==
      Some(Join(names + [if layout.FilenameHash? then filename else hash], '/'))
  {
    hide Cuts, Dirs, Join, Upper, IsCut;
    hash := if layout.FilenameHash? then hashes(layout.algo, filename) else digests[Upper(layout.algo)];
    names := Cuts(hash, layout.cutoffs).0;
    rests := CutsExactly(hash, layout.cutoffs);
    DirsJoin(names, if layout.FilenameHash? then filename else hash);
  }

  // What an entry of the structure spells.
  ghost predicate Spells(val: seq<string>, layout: Layout) {
    match layout
    case Flat => val == ["flat"]
    case FilenameHash(algo, cutoffs) =>
      |val| == 3 && val[0] == "filename-hash" && val[1] == algo && CutoffsValid(val[2]) == Some(cutoffs)
    case ContentHash(algo, cutoffs) =>
      |val| == 3 && val[0] == "content-hash" && val[1] == algo && CutoffsValid(val[2]) == Some(cutoffs)
  }

  // Whether the layout can be used for a file with these digests.
  ghost predicate Usable(layout: Layout, digests: Option<map<string, string>>) {
    match layout
    case Flat => true
    case FilenameHash(algo, _) => algo in {"MD5", "SHA1", "SHA256", "SHA512", "BLAKE2B", "BLAKE2S"}
    case ContentHash(algo, _) =>
      && algo in {"MD5", "RMD160", "WHIRLPOOL", "SHA1", "SHA256", "SHA512", "SHA3_256", "SHA3_512", "BLAKE2B",
        "BLAKE2S"}
      && (digests.Some? ==> algo in digests.value)
  }

  // An entry gives the layout it spells, exactly when that one is usable.
  lemma LayoutExactly(val: seq<string>, digests: Option<map<string, string>>, layout: Layout)
    ensures LayoutFor(val, digests) == Some(layout) <==> Spells(val, layout) && Usable(layout, digests)
  {
    hide CutoffsValid, Upper;
    if |val| == 3 && val[1] in CHECKSUM_KEYS {
      KeysAreUpper(val[1]);
    }
  }

  // In upper case the letters a to z become A to Z and nothing else changes.
  lemma UpperExactly(s: string, i: nat)
    requires i < |s|
    ensures var c, d := s[i], Upper(s)[i];
      if c in LETTERS then d in CAPITALS && (c as int) - ('a' as int) == (d as int) - ('A' as int) else d == c
  {
    LettersMembers(s[i]);
    LettersMembers(Upper(s)[i]);
    hide LETTERS, CAPITALS;
  }

  // No checksum name changes in upper case, so a content-hash layout looks up
  // the digest under its own name.
  lemma KeysAreUpper(k: string)
    requires k in CHECKSUM_KEYS
    ensures Upper(k) == k
  {
    assert forall i | 0 <= i < |k| :: !IsLower(k[i]);
    assert |Upper(k)| == |k| && forall i | 0 <= i < |k| :: Upper(k)[i] == k[i];
  }

  function CutoffText(n: int): string {
    if n < 0 then "-" + Decimal(-n) else Decimal(n)
  }

  function CutoffTexts(cutoffs: seq<int>): (r: seq<string>)
    ensures |r| == |cutoffs| && forall i | 0 <= i < |r| :: r[i] == CutoffText(cutoffs[i])
  {
    seq(|cutoffs|, i requires 0 <= i < |cutoffs| => CutoffText(cutoffs[i]))
  }

  lemma CutoffTextRead(n: int)
    requires -MAX_I64 - 1 <= n <= MAX_I64
    ensures ParseI64(CutoffText(n)) == Some(n) && ':' !in CutoffText(n)
  {
    hide ParseI64, Decimal, Value;
    var m: nat := if n < 0 then -n else n;
    PrintedI64(m);
    DecimalValue(m);
  }

  // Written cutoffs are read back, if they are multiples of four that fit.
  lemma CutoffsRoundTrip(cutoffs: seq<int>)
    requires cutoffs != []
    requires forall i | 0 <= i < |cutoffs| :: -MAX_I64 - 1 <= cutoffs[i] <= MAX_I64
    ensures CutoffsValid(Join(CutoffTexts(cutoffs), ':')) ==
      if forall i | 0 <= i < |cutoffs| :: cutoffs[i] % 4 == 0 then Some(cutoffs) else None
  {
    hide CutoffTexts, ParseI64, AllCutoffs, Split, Join;
    var texts := CutoffTexts(cutoffs);
    forall i | 0 <= i < |texts| ensures ParseI64(texts[i]) == Some(cutoffs[i]) && ':' !in texts[i] {
      CutoffTextRead(cutoffs[i]);
    }
    SplitJoin(texts, ':');
    CutoffsMeaning(texts);
    var r := AllCutoffs(texts);
    if forall i | 0 <= i < |cutoffs| :: cutoffs[i] % 4 == 0 {
      assert forall i | 0 <= i < |texts| :: ParseI64(texts[i]).value == cutoffs[i];
      assert r.Some? && |r.value| == |cutoffs|;
      assert forall i | 0 <= i < |texts| :: Some(r.value[i]) == Some(cutoffs[i]);
      assert r.value == cutoffs;
    } else {
      var i :| 0 <= i < |cutoffs| && cutoffs[i] % 4 != 0;
      assert ParseI64(texts[i]).value % 4 != 0;
    }
  }
}
