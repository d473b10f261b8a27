// What a `layout.conf` text says: the items its lines stand for, and the
// sections, options and entries that the parser makes of them.
module LayoutText {
  import opened Wrappers
  import opened Text
  import opened Decimals
  import opened LayoutConfig

  datatype Item =
    | Skipped                               // a blank line or a comment
    | Header(name: string)
    | Setting(key: string, value: string)
    | More(text: string)                    // a further line of the value before it

  // ----- Lines as items -----

  ghost predicate IsComment(text: string) {
    text == "" || text[0] in {'#', ';'}
  }

  ghost predicate IsHeader(text: string, name: string) {
    name != "" && text == "[" + (name + "]")
  }

  // `key = value` or `key: value`, cut at the first delimiter.
  ghost predicate IsSetting(text: string, key: string, value: string, lower: Lower) {
    exists left, delim, right, name :: SettingParts(text, left, delim, right, name, value) && key == lower(name)
  }

  ghost predicate SettingParts(text: string, left: string, delim: char, right: string, name: string, value: string) {
    && text == left + ([delim] + right) && delim in {'=', ':'} && '=' !in left && ':' !in left
    && IsTrimmed(name) && Padded(left, name) && IsTrimmed(value) && Padded(right, value)
  }

  // What the text of a line says.  An indented line continues an open option.
  ghost predicate TextSays(continues: bool, text: string, item: Item, lower: Lower) {
    match item
    case Skipped => IsComment(text)
    case More(more) => !IsComment(text) && continues && more == text
    case Header(name) => !IsComment(text) && !continues && IsHeader(text, name)
    case Setting(key, value) =>
      !IsComment(text) && !continues && IsSetting(text, key, value, lower) && forall name :: !IsHeader(text, name)
  }

  ghost predicate Indented(raw: string) {
    raw != "" && (raw[0] == ' ' || raw[0] == '\t')
  }

  ghost predicate LineSays(open: bool, raw: string, item: Item, lower: Lower) {
    exists text :: IsTrimmed(text) && Padded(raw, text) && TextSays(open && Indented(raw), text, item, lower)
  }

  // ----- Items in context -----

  // The section the next option goes to.
  function CurrentOf(items: seq<Item>): Option<string> {
    if items == [] then None
    else
      var last := items[|items| - 1];
      if last.Header? then Some(last.name) else CurrentOf(items[..|items| - 1])
  }

  // The option that an indented line would continue.
  function OpenOf(items: seq<Item>): Option<string> {
    if items == [] then None
    else
      match items[|items| - 1]
      case Skipped => OpenOf(items[..|items| - 1])
      case More(_) => OpenOf(items[..|items| - 1])
      case Header(_) => None
      case Setting(key, _) => Some(key)
  }

  // Setting `j` belongs to header `i`.
  ghost predicate Owns(items: seq<Item>, i: int, j: int) {
    && 0 <= i < j < |items| && items[i].Header? && items[j].Setting?
    && forall k | i < k < j :: !items[k].Header?
  }

  // The value, joined with the further lines that follow it.
  function Continued(value: string, items: seq<Item>): string
    decreases |items|
  {
    if items == [] then value
    else
      match items[0]
      case Skipped => Continued(value, items[1..])
      case More(text) => Continued(value + ("\n" + text), items[1..])
      case _ => value
  }

  function ValueAt(items: seq<Item>, j: nat): string
    requires j < |items| && items[j].Setting?
  {
    Continued(items[j].value, items[j + 1..])
  }

  // Setting `j` gives the option of the section this value.
  ghost predicate Sets(items: seq<Item>, i: int, j: int, name: string, key: string, value: string) {
    Owns(items, i, j) && items[i].name == name && items[j].key == key && ValueAt(items, j) == value
  }

  ghost predicate Holds(items: seq<Item>, name: string, key: string, value: string) {
    exists i, j :: Sets(items, i, j, name, key, value)
  }

  // The option is set in the section that is current.
  ghost predicate Taken(items: seq<Item>, key: string) {
    CurrentOf(items).Some? && exists value :: Holds(items, CurrentOf(items).value, key, value)
  }

  // An item that may come next: section names do not repeat, nor do keys
  // within a section, and options stand in sections.
  ghost predicate MayFollow(items: seq<Item>, item: Item) {
    match item
    case Header(name) => Header(name) !in items
    case Setting(key, _) => CurrentOf(items).Some? && !Taken(items, key)
    case _ => true
  }

  ghost predicate Consistent(items: seq<Item>) {
    forall k | 0 <= k < |items| :: MayFollow(items[..k], items[k])
  }

  // The lines say these items, one each.
  ghost predicate Says(lines: seq<string>, items: seq<Item>, lower: Lower) {
    && |lines| == |items| && Consistent(items)
    && forall k | 0 <= k < |items| :: LineSays(OpenOf(items[..k]).Some?, lines[k], items[k], lower)
  }

  // ----- Tables -----

  // The sections are exactly the headers, and the options of a section are
  // exactly the settings under its header, each with its further lines.
  ghost predicate Tabulates(items: seq<Item>, sections: Sections) {
    && (forall name :: name in sections <==> Header(name) in items)
    && (forall name, key, value :: InTable(sections, name, key, value) <==> Holds(items, name, key, value))
  }

  ghost predicate InTable(sections: Sections, name: string, key: string, value: string) {
    name in sections && key in sections[name] && sections[name][key] == value
  }

  // ----- Reading one line -----

  lemma HeaderExactly(text: string, name: string)
    ensures HeaderName(text) == Some(name) <==> IsHeader(text, name)
  {
    if HeaderName(text) == Some(name) {
      assert text == ["["[0]] + text[1..];
      SnocLast(text[1..]);
    }
    if IsHeader(text, name) {
      assert text[1..|text| - 1] == name;
    }
  }

  lemma CommentExactly(text: string, raw: string)
    ensures IsSkipped(text) <==> IsComment(text)
    ensures IsIndented(raw) <==> Indented(raw)
  {
  }

  lemma DelimiterCut(text: string, n: nat)
    requires FindDelimiter(text) == Some(n)
    ensures text == text[..n] + ([text[n]] + text[n + 1..])
    ensures text[n] in {'=', ':'} && '=' !in text[..n] && ':' !in text[..n]
  {
    hide FindDelimiter;
  }

  lemma DelimiterAt(text: string, left: string, delim: char, right: string)
    requires text == left + ([delim] + right) && delim in {'=', ':'} && '=' !in left && ':' !in left
    ensures FindDelimiter(text) == Some(|left|) && text[..|left|] == left && text[|left| + 1..] == right
  {
    hide FindDelimiter;
    assert text[|left|] == delim;
    forall i | 0 <= i < |left| ensures text[i] !in {'=', ':'} {
      assert text[i] == left[i] && left[i] in left;
    }
  }

  // The key and the value of a setting, as the parser takes them.
  lemma SettingExactly(text: string, key: string, value: string, lower: Lower)
    ensures IsSetting(text, key, value, lower) <==>
      var delim := FindDelimiter(text);
      delim.Some? && key == lower(Trim(text[..delim.value])) && value == Trim(text[delim.value + 1..])
  {
    hide *;
    var delim := FindDelimiter(text);
    if delim.Some? {
      var n := delim.value;
      DelimiterCut(text, n);
      TrimExactly(text[..n], Trim(text[..n]));
      TrimExactly(text[n + 1..], Trim(text[n + 1..]));
      IntroSetting(text, text[..n], text[n], text[n + 1..], Trim(text[..n]), Trim(text[n + 1..]), lower);
    }
    if IsSetting(text, key, value, lower) {
      var left, d, right, name := SettingCuts(text, key, value, lower);
      DelimiterAt(text, left, d, right);
      TrimExactly(left, name);
      TrimExactly(right, value);
    }
  }

  lemma IntroSetting(text: string, left: string, delim: char, right: string, name: string, value: string, lower: Lower)
    requires text == left + ([delim] + right) && delim in {'=', ':'} && '=' !in left && ':' !in left
    requires IsTrimmed(name) && Padded(left, name) && IsTrimmed(value) && Padded(right, value)
    ensures IsSetting(text, lower(name), value, lower)
  {
    hide IsTrimmed, Padded;
    assert SettingParts(text, left, delim, right, name, value);
  }

  lemma SettingCuts(text: string, key: string, value: string, lower: Lower)
    returns (left: string, delim: char, right: string, name: string)
    requires IsSetting(text, key, value, lower)
    ensures text == left + ([delim] + right) && delim in {'=', ':'} && '=' !in left && ':' !in left
    ensures IsTrimmed(name) && Padded(left, name) && IsTrimmed(value) && Padded(right, value) && key == lower(name)
  {
    hide IsTrimmed, Padded;
    left, delim, right, name :| SettingParts(text, left, delim, right, name, value) && key == lower(name);
  }

  lemma LineExactly(open: bool, raw: string, item: Item, lower: Lower)
    ensures LineSays(open, raw, item, lower) <==> TextSays(open && Indented(raw), Trim(raw), item, lower)
  {
    hide TextSays, IsTrimmed, Padded, Indented, Trim;
    TrimExactly(raw, Trim(raw));
    if LineSays(open, raw, item, lower) {
      var text :| IsTrimmed(text) && Padded(raw, text) && TextSays(open && Indented(raw), text, item, lower);
      TrimExactly(raw, text);
    }
  }

  // The state after an item, or why there is none.
  function Taking(st: State, line: nat, item: Item): Result<State, Error>
    requires Present(st)
  {
    match item
    case Skipped => Ok(st)
    case More(text) =>
      if st.lastOption.None? then Ok(st)
      else
        var name, key := st.current.value, st.lastOption.value;
        Ok(st.(sections := WithOption(st.sections, name, key, st.sections[name][key] + ("\n" + text))))
    case Header(name) =>
      if name in st.sections then Err(DuplicateSection(line, name))
      else Ok(State(st.sections[name := map[]], Some(name), None))
    case Setting(key, value) =>
      if st.current.None? then Err(NoHeader(line))
      else if key in st.sections[st.current.value] then Err(DuplicateOption(line, key))
      else Ok(State(WithOption(st.sections, st.current.value, key, value), st.current, Some(key)))
  }

  lemma StepSays(st: State, line: nat, raw: string, item: Item, lower: Lower)
    requires Present(st) && LineSays(st.lastOption.Some?, raw, item, lower)
    ensures Step(st, line, raw, lower) == Taking(st, line, item)
  {
    hide Trim, FindDelimiter, HeaderName, IsSkipped, IsIndented, Indented, IsComment, IsHeader, IsSetting, WithOption,
      LineSays, Step;
    var text := Trim(raw);
    LineExactly(st.lastOption.Some?, raw, item, lower);
    CommentExactly(text, raw);
    StepCases(st, line, raw, lower);
    if HeaderName(text).Some? {
      HeaderExactly(text, HeaderName(text).value);
    }
    match item {
      case Header(name) => HeaderExactly(text, name);
      case Setting(key, value) => SettingExactly(text, key, value, lower);
      case _ =>
    }
  }

  // A line that says nothing has no delimiter, and is refused.
  lemma StepSaysNothing(st: State, line: nat, raw: string, lower: Lower)
    requires Present(st) && forall item :: !LineSays(st.lastOption.Some?, raw, item, lower)
    ensures Step(st, line, raw, lower) == if st.current.None? then Err(NoHeader(line)) else Err(NotAnOption(line))
  {
    hide *;
    var text, open := Trim(raw), st.lastOption.Some?;
    StepCases(st, line, raw, lower);
    CommentExactly(text, raw);
    SaidCases(open && Indented(raw), text, lower);
    LineExactly(open, raw, Skipped, lower);
    LineExactly(open, raw, More(text), lower);
    if HeaderName(text).Some? {
      HeaderExactly(text, HeaderName(text).value);
      LineExactly(open, raw, Header(HeaderName(text).value), lower);
    }
    NoHeaderName(text);
    if FindDelimiter(text).Some? {
      var n := FindDelimiter(text).value;
      SettingExactly(text, lower(Trim(text[..n])), Trim(text[n + 1..]), lower);
      LineExactly(open, raw, Setting(lower(Trim(text[..n])), Trim(text[n + 1..])), lower);
    }
  }

  lemma NoHeaderName(text: string)
    ensures HeaderName(text).None? <==> forall name :: !IsHeader(text, name)
  {
    hide HeaderName, IsHeader;
    forall name ensures HeaderName(text) == Some(name) <==> IsHeader(text, name) {
      HeaderExactly(text, name);
    }
  }

  lemma SaidCases(continues: bool, text: string, lower: Lower)
    ensures IsComment(text) ==> TextSays(continues, text, Skipped, lower)
    ensures !IsComment(text) && continues ==> TextSays(continues, text, More(text), lower)
    ensures forall name :: !IsComment(text) && !continues && IsHeader(text, name) ==>
      TextSays(continues, text, Header(name), lower)
    ensures forall key, value ::
      !IsComment(text) && !continues && IsSetting(text, key, value, lower) && (forall name :: !IsHeader(text, name)) ==>
        TextSays(continues, text, Setting(key, value), lower)
  {
    hide IsComment, IsHeader, IsSetting;
  }

  // ----- What an item does to the tables -----

  ghost predicate Stands(items: seq<Item>, st: State) {
    && Consistent(items) && Tabulates(items, st.sections)
    && st.current == CurrentOf(items) && st.lastOption == OpenOf(items)
  }

  ghost predicate NoHeaderAfter(items: seq<Item>, i: int) {
    forall k | i < k < |items| && 0 <= k :: !items[k].Header?
  }

  // Nothing ends the value before these items.
  ghost predicate Quiet(items: seq<Item>) {
    forall k | 0 <= k < |items| :: !items[k].Header? && !items[k].Setting?
  }

  lemma {:induction false} CurrentIndex(items: seq<Item>) returns (i: int)
    ensures CurrentOf(items).None? ==> NoHeaderAfter(items, -1)
    ensures CurrentOf(items).Some? ==>
      0 <= i < |items| && items[i] == Header(CurrentOf(items).value) && NoHeaderAfter(items, i)
  {
    i := 0;
    if items != [] {
      var n := |items| - 1;
      if items[n].Header? {
        i := n;
      } else {
        i := CurrentIndex(items[..n]);
      }
    }
  }

  // The open option is the last setting; nothing but further lines follow it.
  lemma {:induction false} OpenIndex(items: seq<Item>) returns (j: int)
    ensures OpenOf(items).Some? ==>
      0 <= j < |items| && items[j].Setting? && items[j].key == OpenOf(items).value && Quiet(items[j + 1..])
  {
    j := 0;
    if items != [] {
      var n := |items| - 1;
      if items[n].Setting? {
        j := n;
      } else if !items[n].Header? {
        j := OpenIndex(items[..n]);
        if OpenOf(items).Some? {
          assert items[j + 1..] == items[..n][j + 1..] + [items[n]];
        }
      }
    }
  }

  lemma OwnsSnoc(items: seq<Item>, item: Item, i: int, j: int)
    ensures j < |items| ==> (Owns(items + [item], i, j) <==> Owns(items, i, j))
    ensures Owns(items + [item], i, |items|) <==>
      0 <= i < |items| && items[i].Header? && item.Setting? && NoHeaderAfter(items, i)
    ensures Owns(items + [item], i, j) ==> j <= |items|
  {
    var more := items + [item];
    assert forall k | 0 <= k < |items| :: more[k] == items[k];
    assert more[|items|] == item;
  }

  lemma {:induction false} ContinuedSnoc(value: string, rest: seq<Item>, item: Item)
    ensures Continued(value, rest + [item]) ==
      if Quiet(rest) && item.More? then Continued(value, rest) + ("\n" + item.text) else Continued(value, rest)
    decreases |rest|
  {
    ConcatFirst(rest, [item]);
    if rest == [] {
      assert [item][1..] == [];
    } else {
      assert Quiet(rest) <==> !rest[0].Header? && !rest[0].Setting? && Quiet(rest[1..]) by {
        assert forall k | 1 <= k < |rest| :: rest[k] == rest[1..][k - 1];
      }
      match rest[0] {
        case Skipped => ContinuedSnoc(value, rest[1..], item);
        case More(text) => ContinuedSnoc(value + ("\n" + text), rest[1..], item);
        case _ =>
      }
    }
  }

  lemma ValueSnoc(items: seq<Item>, item: Item, j: int)
    requires 0 <= j < |items| && items[j].Setting?
    ensures ValueAt(items + [item], j) ==
      if Quiet(items[j + 1..]) && item.More? then ValueAt(items, j) + ("\n" + item.text) else ValueAt(items, j)
  {
    assert (items + [item])[j] == items[j];
    assert (items + [item])[j + 1..] == items[j + 1..] + [item];
    ContinuedSnoc(items[j].value, items[j + 1..], item);
    hide Continued, Quiet;
  }

  lemma ConsistentFront(items: seq<Item>, item: Item)
    ensures Consistent(items + [item]) <==> Consistent(items) && MayFollow(items, item)
  {
    hide MayFollow;
    var more := items + [item];
    assert more[|items|] == item && more[..|items|] == items;
    assert forall k | 0 <= k < |items| :: more[k] == items[k] && more[..k] == items[..k];
  }

  // Section names do not repeat.
  lemma HeadersDiffer(items: seq<Item>, i: int, j: int)
    requires Consistent(items) && 0 <= i < j < |items| && items[i].Header? && items[j].Header?
    ensures items[i].name != items[j].name
  {
    assert MayFollow(items[..j], items[j]);
    assert items[..j][i] == items[i];
  }

  lemma HeaderTwice(items: seq<Item>, i: int, j: int)
    requires Consistent(items) && 0 <= i < |items| && 0 <= j < |items|
    requires items[i].Header? && items[j].Header? && items[i].name == items[j].name
    ensures i == j
  {
    hide Consistent;
    if i < j {
      HeadersDiffer(items, i, j);
    } else if j < i {
      HeadersDiffer(items, j, i);
    }
  }

  lemma CurrentIs(items: seq<Item>, i: int)
    requires 0 <= i < |items| && items[i].Header? && NoHeaderAfter(items, i)
    ensures CurrentOf(items) == Some(items[i].name)
  {
    var c := CurrentIndex(items);
  }

  lemma FrontOwns(items: seq<Item>, n: nat, i: int, j: int)
    requires n <= |items| && j < n
    ensures Owns(items[..n], i, j) <==> Owns(items, i, j)
  {
    assert forall k | 0 <= k < n :: items[..n][k] == items[k];
  }

  // Nor do the keys of a section.
  lemma KeysDiffer(items: seq<Item>, i: int, j: int, k: int)
    requires Consistent(items) && Owns(items, i, j) && Owns(items, i, k) && j < k
    ensures items[j].key != items[k].key
  {
    hide ValueAt, CurrentOf;
    assert MayFollow(items[..k], items[k]);
    var front := items[..k];
    FrontOwns(items, k, i, j);
    assert forall x | 0 <= x < k :: front[x] == items[x];
    CurrentIs(front, i);
    assert Sets(front, i, j, items[i].name, items[j].key, ValueAt(front, j));
    assert Holds(front, items[i].name, items[j].key, ValueAt(front, j));
  }

  // ----- What is held after one more item -----

  // A setting keeps its value unless the item is a further line of it.
  lemma SetsSnoc(items: seq<Item>, item: Item, i: int, j: int, name: string, key: string, value: string)
    requires j < |items| && !(item.More? && 0 <= j && Quiet(items[j + 1..]))
    ensures Sets(items + [item], i, j, name, key, value) <==> Sets(items, i, j, name, key, value)
  {
    hide Quiet, Continued;
    OwnsSnoc(items, item, i, j);
    if Owns(items, i, j) {
      ValueSnoc(items, item, j);
    }
  }

  lemma SetsBound(items: seq<Item>, i: int, j: int, name: string, key: string, value: string)
    requires Sets(items, i, j, name, key, value)
    ensures 0 <= i < j < |items| && items[i] == Header(name) && items[j].Setting? && items[j].key == key
    ensures Owns(items, i, j) && value == ValueAt(items, j)
  {
    hide ValueAt;
  }

  lemma HeldAt(items: seq<Item>, name: string, key: string, value: string) returns (i: int, j: int)
    requires Holds(items, name, key, value)
    ensures Sets(items, i, j, name, key, value)
  {
    hide Sets;
    i, j :| Sets(items, i, j, name, key, value);
  }

  lemma IntroHolds(items: seq<Item>, i: int, j: int, name: string, key: string, value: string)
    requires Sets(items, i, j, name, key, value)
    ensures Holds(items, name, key, value)
  {
    hide Sets;
  }

  lemma HoldsKept(items: seq<Item>, item: Item, name: string, key: string, value: string)
    requires item.Skipped? || item.Header?
    ensures Holds(items + [item], name, key, value) <==> Holds(items, name, key, value)
  {
    hide *;
    if Holds(items + [item], name, key, value) {
      var i, j := HeldAt(items + [item], name, key, value);
      SetsBound(items + [item], i, j, name, key, value);
      SetsSnoc(items, item, i, j, name, key, value);
      IntroHolds(items, i, j, name, key, value);
    }
    if Holds(items, name, key, value) {
      var i, j := HeldAt(items, name, key, value);
      SetsBound(items, i, j, name, key, value);
      SetsSnoc(items, item, i, j, name, key, value);
      IntroHolds(items + [item], i, j, name, key, value);
    }
  }

  lemma LastSets(items: seq<Item>, i: int, key: string, value: string)
    requires 0 <= i < |items| && items[i].Header? && NoHeaderAfter(items, i)
    ensures Sets(items + [Setting(key, value)], i, |items|, items[i].name, key, value)
  {
    OwnsSnoc(items, Setting(key, value), i, |items|);
    assert (items + [Setting(key, value)])[|items| + 1..] == [];
  }

  lemma LastSetsOnly(items: seq<Item>, item: Item, i: int, name: string, key: string, value: string)
    requires Sets(items + [item], i, |items|, name, key, value)
    ensures item == Setting(key, value) && 0 <= i < |items| && items[i] == Header(name) && NoHeaderAfter(items, i)
  {
    OwnsSnoc(items, item, i, |items|);
    assert (items + [item])[|items| + 1..] == [];
  }

  lemma HoldsSetting(items: seq<Item>, item: Item, name: string, key: string, value: string)
    requires item.Setting? && MayFollow(items, item)
    ensures CurrentOf(items).Some?
    ensures Holds(items + [item], name, key, value) <==>
      if CurrentOf(items) == Some(name) && key == item.key then value == item.value else Holds(items, name, key, value)
  {
    FollowCases(items, item);
    hide *;
    var c := CurrentIndex(items);
    if Holds(items + [item], name, key, value) {
      var i, j := HeldAt(items + [item], name, key, value);
      SetsBound(items + [item], i, j, name, key, value);
      if j == |items| {
        LastSetsOnly(items, item, i, name, key, value);
        CurrentIs(items, i);
      } else {
        SetsSnoc(items, item, i, j, name, key, value);
        IntroHolds(items, i, j, name, key, value);
      }
    }
    if CurrentOf(items) == Some(name) && key == item.key && value == item.value {
      LastSets(items, c, key, value);
      assert item == Setting(key, value);
      IntroHolds(items + [item], c, |items|, name, key, value);
    } else if Holds(items, name, key, value) {
      var i, j := HeldAt(items, name, key, value);
      SetsBound(items, i, j, name, key, value);
      SetsSnoc(items, item, i, j, name, key, value);
      IntroHolds(items + [item], i, j, name, key, value);
    }
  }

  lemma FollowCases(items: seq<Item>, item: Item)
    requires MayFollow(items, item)
    ensures item.Header? ==> item !in items
    ensures item.Setting? ==> CurrentOf(items).Some?
    ensures item.Setting? ==> forall value :: !Holds(items, CurrentOf(items).value, item.key, value)
  {
    hide CurrentOf, Holds;
  }

  // A setting that nothing ended yet is the open one, in the current section.
  lemma OpenSets(items: seq<Item>, i: int, j: int)
    requires Owns(items, i, j) && Quiet(items[j + 1..])
    ensures NoHeaderAfter(items, i)
    ensures forall k | 0 <= k < |items| && items[k].Setting? && Quiet(items[k + 1..]) :: k == j
  {
    assert forall k | j < k < |items| :: items[k] == items[j + 1..][k - j - 1];
    forall k | 0 <= k < j && items[k].Setting? ensures !Quiet(items[k + 1..]) {
      assert items[j] == items[k + 1..][j - k - 1];
    }
  }

  lemma OpenOwner(items: seq<Item>) returns (i: int, j: int)
    requires OpenOf(items).Some? && CurrentOf(items).Some?
    ensures Owns(items, i, j) && items[i] == Header(CurrentOf(items).value) && items[j].key == OpenOf(items).value
    ensures Quiet(items[j + 1..]) && NoHeaderAfter(items, i)
  {
    i := CurrentIndex(items);
    j := OpenIndex(items);
    hide OpenOf, CurrentOf;
    assert forall k | j < k < |items| :: items[k] == items[j + 1..][k - j - 1];
  }

  // Of two settings with one key in one section there is only one.
  lemma SetsOnce(items: seq<Item>, i: int, j: int, x: int, y: int, name: string, key: string, value: string,
                 other: string)
    requires Consistent(items) && Sets(items, i, j, name, key, value) && Sets(items, x, y, name, key, other)
    ensures i == x && j == y && value == other
  {
    hide *;
    SetsBound(items, i, j, name, key, value);
    SetsBound(items, x, y, name, key, other);
    HeaderTwice(items, i, x);
    if j < y {
      KeysDiffer(items, i, j, y);
    } else if y < j {
      KeysDiffer(items, i, y, j);
    }
  }

  lemma MoreSets(items: seq<Item>, text: string, i: int, j: int)
    requires Owns(items, i, j) && Quiet(items[j + 1..])
    ensures var value := ValueAt(items, j);
      && Sets(items, i, j, items[i].name, items[j].key, value)
      && Sets(items + [More(text)], i, j, items[i].name, items[j].key, value + ("\n" + text))
  {
    hide Quiet, Continued;
    OwnsSnoc(items, More(text), i, j);
    ValueSnoc(items, More(text), j);
  }

  lemma MoreAt(items: seq<Item>, text: string, i: int, j: int, name: string, key: string, value: string)
    requires Sets(items + [More(text)], i, j, name, key, value)
    ensures Owns(items, i, j) && items[i] == Header(name) && items[j].key == key
    ensures value == if Quiet(items[j + 1..]) then ValueAt(items, j) + ("\n" + text) else ValueAt(items, j)
  {
    hide Quiet, Continued;
    OwnsSnoc(items, More(text), i, j);
    ValueSnoc(items, More(text), j);
  }

  // What holds after a further line of the open option, set at `x` and `y`.
  lemma MoreKept(items: seq<Item>, text: string, x: int, y: int, name: string, key: string, value: string)
    requires Consistent(items) && Owns(items, x, y) && Quiet(items[y + 1..])
      && Holds(items + [More(text)], name, key, value)
    ensures if items[x].name == name && items[y].key == key then value == ValueAt(items, y) + ("\n" + text)
      else Holds(items, name, key, value)
  {
    hide *;
    var i, j := HeldAt(items + [More(text)], name, key, value);
    SetsBound(items + [More(text)], i, j, name, key, value);
    MoreAt(items, text, i, j, name, key, value);
    OwnsBound(items, i, j);
    OwnsBound(items, x, y);
    OpenSets(items, x, y);
    if Quiet(items[j + 1..]) {
      SetsOwner(items, i, x, j);
    } else {
      IntroSets(items, i, j);
      IntroHolds(items, i, j, name, key, value);
      if items[x].name == name && items[y].key == key {
        IntroSets(items, x, y);
        SetsOnce(items, i, j, x, y, name, key, value, ValueAt(items, y));
      }
    }
  }

  lemma IntroSets(items: seq<Item>, i: int, j: int)
    requires Owns(items, i, j)
    ensures Sets(items, i, j, items[i].name, items[j].key, ValueAt(items, j))
  {
    hide ValueAt;
  }

  lemma MoreLifted(items: seq<Item>, text: string, x: int, y: int, name: string, key: string, value: string)
    requires Consistent(items) && Owns(items, x, y) && Quiet(items[y + 1..])
    requires Holds(items, name, key, value) && !(items[x].name == name && items[y].key == key)
    ensures Holds(items + [More(text)], name, key, value)
  {
    hide *;
    var i, j := HeldAt(items, name, key, value);
    SetsBound(items, i, j, name, key, value);
    OpenSets(items, x, y);
    OwnsBound(items, x, y);
    if Quiet(items[j + 1..]) {
      SetsOwner(items, i, x, j);
    } else {
      SetsSnoc(items, More(text), i, j, name, key, value);
      IntroHolds(items + [More(text)], i, j, name, key, value);
    }
  }

  // A further line adds to the open option and to nothing else.
  lemma HoldsMore(items: seq<Item>, text: string, name: string, key: string, value: string)
    requires Consistent(items) && OpenOf(items).Some? && CurrentOf(items).Some?
    ensures Holds(items + [More(text)], name, key, value) <==>
      if CurrentOf(items) == Some(name) && OpenOf(items) == Some(key) then
        exists before :: Holds(items, name, key, before) && value == before + ("\n" + text)
      else Holds(items, name, key, value)
  {
    hide *;
    var x, y := OpenOwner(items);
    OwnsBound(items, x, y);
    MoreSets(items, text, x, y);
    var c, k, before := CurrentOf(items).value, OpenOf(items).value, ValueAt(items, y);
    IntroHolds(items, x, y, c, k, before);
    IntroHolds(items + [More(text)], x, y, c, k, before + ("\n" + text));
    if Holds(items + [More(text)], name, key, value) {
      MoreKept(items, text, x, y, name, key, value);
    }
    if name == c && key == k {
      forall other | Holds(items, c, k, other) ensures other == before {
        var i, j := HeldAt(items, c, k, other);
        SetsOnce(items, i, j, x, y, c, k, other, before);
      }
    } else if Holds(items, name, key, value) {
      MoreLifted(items, text, x, y, name, key, value);
    }
  }

  lemma OwnsBound(items: seq<Item>, i: int, j: int)
    requires Owns(items, i, j)
    ensures 0 <= i < j < |items| && items[i].Header? && items[j].Setting?
  {
  }

  // A setting has one header.
  lemma SetsOwner(items: seq<Item>, i: int, x: int, j: int)
    requires Owns(items, i, j) && Owns(items, x, j)
    ensures i == x
  {
  }

  // ----- The tables after one more item -----

  lemma TabulatesCases(items: seq<Item>, sections: Sections)
    ensures Tabulates(items, sections) <==>
      && (forall name :: name in sections <==> Header(name) in items)
      && (forall name, key, value :: InTable(sections, name, key, value) <==> Holds(items, name, key, value))
  {
    hide InTable, Holds;
  }

  lemma SnocMember(items: seq<Item>, item: Item, name: string)
    ensures Header(name) in items + [item] <==> Header(name) in items || item == Header(name)
  {
    if Header(name) in items {
      var k :| 0 <= k < |items| && items[k] == Header(name);
      assert (items + [item])[k] == Header(name);
    }
    assert (items + [item])[|items|] == item;
  }

  lemma SectionAdded(sections: Sections, name: string)
    requires name !in sections
    ensures forall n :: n in sections[name := map[]] <==> n in sections || n == name
    ensures forall n, key, value :: InTable(sections[name := map[]], n, key, value) <==>
      InTable(sections, n, key, value)
  {
  }

  lemma OptionSet(sections: Sections, name: string, key: string, value: string)
    requires name in sections
    ensures var after := WithOption(sections, name, key, value);
      && (forall n :: n in after <==> n in sections)
      && (forall n, k, v :: InTable(after, n, k, v) <==>
            if n == name && k == key then v == value else InTable(sections, n, k, v))
  {
  }

  lemma StandsCases(items: seq<Item>, st: State)
    ensures Stands(items, st) <==>
      && Consistent(items) && Tabulates(items, st.sections)
      && st.current == CurrentOf(items) && st.lastOption == OpenOf(items)
  {
    hide Consistent, Tabulates, CurrentOf, OpenOf;
  }

  lemma NextOf(items: seq<Item>, item: Item)
    ensures CurrentOf(items + [item]) == if item.Header? then Some(item.name) else CurrentOf(items)
    ensures OpenOf(items + [item]) ==
      if item.Header? then None else if item.Setting? then Some(item.key) else OpenOf(items)
  {
    assert (items + [item])[..|items|] == items;
  }

  lemma TakingSkipped(items: seq<Item>, st: State, item: Item)
    requires Stands(items, st) && item.Skipped?
    ensures Stands(items + [item], st)
  {
    hide *;
    StandsCases(items, st);
    StandsCases(items + [item], st);
    NextOf(items, item);
    ConsistentFront(items, item);
    FollowsAlways(items, item);
    TabulatesCases(items, st.sections);
    TabulatesCases(items + [item], st.sections);
    forall name ensures Header(name) in items + [item] <==> Header(name) in items {
      SnocMember(items, item, name);
    }
    forall name, key, value ensures Holds(items + [item], name, key, value) <==> Holds(items, name, key, value) {
      HoldsKept(items, item, name, key, value);
    }
  }

  lemma FollowsAlways(items: seq<Item>, item: Item)
    ensures item.Skipped? || item.More? ==> MayFollow(items, item)
    ensures item.Header? ==> (MayFollow(items, item) <==> item !in items)
    ensures item.Setting? ==> (MayFollow(items, item) <==> CurrentOf(items).Some? && !Taken(items, item.key))
  {
    hide CurrentOf, Taken;
  }

  lemma TakingHeader(items: seq<Item>, st: State, name: string)
    requires Stands(items, st)
    ensures name in st.sections <==> !MayFollow(items, Header(name))
    ensures name !in st.sections ==> Stands(items + [Header(name)], State(st.sections[name := map[]], Some(name), None))
  {
    hide *;
    var item := Header(name);
    StandsCases(items, st);
    FollowsAlways(items, item);
    TabulatesCases(items, st.sections);
    if name !in st.sections {
      var after := State(st.sections[name := map[]], Some(name), None);
      SectionAdded(st.sections, name);
      StandsCases(items + [item], after);
      NextOf(items, item);
      ConsistentFront(items, item);
      TabulatesCases(items + [item], after.sections);
      forall n ensures Header(n) in items + [item] <==> Header(n) in items || n == name {
        SnocMember(items, item, n);
      }
      forall n, key, value ensures Holds(items + [item], n, key, value) <==> Holds(items, n, key, value) {
        HoldsKept(items, item, n, key, value);
      }
    }
  }

  lemma TakenExactly(items: seq<Item>, st: State, key: string)
    requires Stands(items, st) && st.current.Some?
    ensures st.current.value in st.sections && (key in st.sections[st.current.value] <==> Taken(items, key))
  {
    hide CurrentOf, OpenOf, Holds, Consistent, Stands;
    StandsCases(items, st);
    var c := CurrentIndex(items);
    assert items[c] in items;
    var name := st.current.value;
    if key in st.sections[name] {
      assert InTable(st.sections, name, key, st.sections[name][key]);
    }
    if Taken(items, key) {
      var value :| Holds(items, name, key, value);
      assert InTable(st.sections, name, key, value);
    }
  }

  lemma TakingSetting(items: seq<Item>, st: State, key: string, value: string)
    requires Stands(items, st) && st.current.Some? && st.current.value in st.sections
    requires key !in st.sections[st.current.value]
    ensures MayFollow(items, Setting(key, value))
    ensures Stands(items + [Setting(key, value)],
      State(WithOption(st.sections, st.current.value, key, value), st.current, Some(key)))
  {
    hide *;
    var item := Setting(key, value);
    var after := State(WithOption(st.sections, st.current.value, key, value), st.current, Some(key));
    StandsCases(items, st);
    TakenExactly(items, st, key);
    FollowsAlways(items, item);
    OptionSet(st.sections, st.current.value, key, value);
    StandsCases(items + [item], after);
    NextOf(items, item);
    ConsistentFront(items, item);
    TabulatesCases(items, st.sections);
    TabulatesCases(items + [item], after.sections);
    forall n ensures Header(n) in items + [item] <==> Header(n) in items {
      SnocMember(items, item, n);
    }
    forall n, k, v
      ensures Holds(items + [item], n, k, v) <==>
        if CurrentOf(items) == Some(n) && k == key then v == value else Holds(items, n, k, v)
    {
      HoldsSetting(items, item, n, k, v);
    }
  }

  lemma TableParts(sections: Sections, name: string, key: string, value: string)
    ensures InTable(sections, name, key, value) <==>
      name in sections && key in sections[name] && sections[name][key] == value
  {
  }

  lemma TakingMore(items: seq<Item>, st: State, text: string)
    requires Stands(items, st) && st.current.Some? && st.lastOption.Some?
    requires st.current.value in st.sections && st.lastOption.value in st.sections[st.current.value]
    ensures var name, key := st.current.value, st.lastOption.value;
      Stands(items + [More(text)],
        st.(sections := WithOption(st.sections, name, key, st.sections[name][key] + ("\n" + text))))
  {
    hide *;
    var item := More(text);
    var name, key := st.current.value, st.lastOption.value;
    var value := st.sections[name][key];
    var after := st.(sections := WithOption(st.sections, name, key, value + ("\n" + text)));
    StandsCases(items, st);
    FollowsAlways(items, item);
    OptionSet(st.sections, name, key, value + ("\n" + text));
    StandsCases(items + [item], after);
    NextOf(items, item);
    ConsistentFront(items, item);
    TabulatesCases(items, st.sections);
    TabulatesCases(items + [item], after.sections);
    forall n ensures Header(n) in items + [item] <==> Header(n) in items {
      SnocMember(items, item, n);
    }
    forall n, k, v
      ensures Holds(items + [item], n, k, v) <==>
        if n == name && k == key then v == value + ("\n" + text) else Holds(items, n, k, v)
    {
      HoldsMore(items, text, n, k, v);
      if n == name && k == key {
        forall before ensures Holds(items, n, k, before) <==> before == value {
          TableParts(st.sections, n, k, before);
        }
      }
    }
  }

  // ----- All lines -----

  lemma SaysSnoc(lines: seq<string>, raw: string, items: seq<Item>, item: Item, lower: Lower)
    requires |lines| == |items|
    ensures Says(lines + [raw], items + [item], lower) <==>
      Says(lines, items, lower) && MayFollow(items, item) && LineSays(OpenOf(items).Some?, raw, item, lower)
  {
    hide LineSays, OpenOf, Consistent;
    var all, more := lines + [raw], items + [item];
    ConsistentFront(items, item);
    assert all[|lines|] == raw && more[|items|] == item && more[..|items|] == items;
    assert forall k | 0 <= k < |items| :: all[k] == lines[k] && more[k] == items[k] && more[..k] == items[..k];
  }

  lemma ScanSnoc(lines: seq<string>, x: string, lower: Lower)
    ensures var before := Scan(lines, lower);
      Scan(lines + [x], lower) == if before.Err? then before else Step(before.value, |lines| + 1, x, lower)
  {
    hide Step;
    assert (lines + [x])[..|lines|] == lines;
  }

  lemma NothingSaid(lower: Lower)
    ensures Scan([], lower) == Ok(START) && Stands([], START) && Says([], [], lower)
  {
  }

  // Taking an item that says the line keeps the state in step with the items.
  lemma TakingStands(items: seq<Item>, st: State, line: nat, item: Item)
    requires Present(st) && Stands(items, st) && (item.More? ==> OpenOf(items).Some?)
    ensures var r := Taking(st, line, item);
      && (r.Ok? <==> MayFollow(items, item))
      && (r.Ok? ==> Stands(items + [item], r.value))
      && (r.Err? && item.Header? ==> r.error == DuplicateSection(line, item.name))
      && (r.Err? && item.Setting? ==>
            r.error == if CurrentOf(items).None? then NoHeader(line) else DuplicateOption(line, item.key))
  {
    hide Stands, MayFollow, WithOption, CurrentOf, OpenOf;
    StandsCases(items, st);
    FollowsAlways(items, item);
    match item {
      case Skipped => TakingSkipped(items, st, item);
      case More(text) => TakingMore(items, st, text);
      case Header(name) => TakingHeader(items, st, name);
      case Setting(key, value) =>
        if st.current.Some? {
          TakenExactly(items, st, key);
          if key !in st.sections[st.current.value] {
            TakingSetting(items, st, key, value);
          }
        }
    }
  }

  lemma MoreIsOpen(open: bool, raw: string, item: Item, lower: Lower)
    requires LineSays(open, raw, item, lower) && item.More?
    ensures open
  {
    hide IsTrimmed, Padded, Indented;
  }

  // Lines that say consistent items are read, and the tables are the items'.
  lemma {:induction false} ScanSays(lines: seq<string>, items: seq<Item>, lower: Lower)
    requires Says(lines, items, lower)
    ensures Scan(lines, lower).Ok? && Stands(items, Scan(lines, lower).value)
    decreases |lines|
  {
    hide *;
    SameCount(lines, items, lower);
    NothingSaid(lower);
    if lines == [] {
    } else {
      var n := |lines| - 1;
      var front, before := lines[..n], items[..n];
      SnocLast(lines);
      SnocLast(items);
      SaysSnoc(front, lines[n], before, items[n], lower);
      ScanSays(front, before, lower);
      ScanSnoc(front, lines[n], lower);
      LineTaken(before, Scan(front, lower).value, |front| + 1, lines[n], items[n], lower);
    }
  }

  lemma SameCount(lines: seq<string>, items: seq<Item>, lower: Lower)
    requires Says(lines, items, lower)
    ensures |lines| == |items|
  {
    hide LineSays, Consistent;
  }

  lemma LineTaken(items: seq<Item>, st: State, line: nat, raw: string, item: Item, lower: Lower)
    requires Present(st) && Stands(items, st) && LineSays(OpenOf(items).Some?, raw, item, lower)
    ensures var r := Step(st, line, raw, lower);
      && (r.Ok? <==> MayFollow(items, item))
      && (r.Ok? ==> Stands(items + [item], r.value))
      && (r.Err? && item.Header? ==> r.error == DuplicateSection(line, item.name))
      && (r.Err? && item.Setting? ==>
            r.error == if CurrentOf(items).None? then NoHeader(line) else DuplicateOption(line, item.key))
  {
    hide *;
    StandsCases(items, st);
    StepSays(st, line, raw, item, lower);
    if item.More? {
      MoreIsOpen(OpenOf(items).Some?, raw, item, lower);
    }
    TakingStands(items, st, line, item);
  }

  // And lines that are read say such items.
  lemma {:induction false} ScanSaid(lines: seq<string>, lower: Lower) returns (items: seq<Item>)
    requires Scan(lines, lower).Ok?
    ensures Says(lines, items, lower)
    decreases |lines|
  {
    hide *;
    NothingSaid(lower);
    if lines == [] {
      items := [];
    } else {
      var n := |lines| - 1;
      var front := lines[..n];
      SnocLast(lines);
      ScanSnoc(front, lines[n], lower);
      var before := ScanSaid(front, lower);
      ScanSays(front, before, lower);
      SameCount(front, before, lower);
      var st := Scan(front, lower).value;
      StandsCases(before, st);
      if item :| LineSays(OpenOf(before).Some?, lines[n], item, lower) {
        LineTaken(before, st, |front| + 1, lines[n], item, lower);
        SaysSnoc(front, lines[n], before, item, lower);
        items := before + [item];
      } else {
        StepSaysNothing(st, |front| + 1, lines[n], lower);
        assert false;
      }
    }
  }

  // Exactly which lines are read, and what the tables hold then: the sections
  // are the headers, and each option is a setting under its header, joined
  // with its further lines.
  lemma ScanExactly(lines: seq<string>, lower: Lower)
    ensures Scan(lines, lower).Ok? <==> exists items :: Says(lines, items, lower)
    ensures forall items | Says(lines, items, lower) :: Tabulates(items, Scan(lines, lower).value.sections)
  {
    hide *;
    if Scan(lines, lower).Ok? {
      var items := ScanSaid(lines, lower);
    }
    forall items | Says(lines, items, lower)
      ensures Scan(lines, lower).Ok? && Tabulates(items, Scan(lines, lower).value.sections)
    {
      ScanSays(lines, items, lower);
      StandsCases(items, Scan(lines, lower).value);
    }
  }

  // The first line that is refused decides, and why: its section or its option
  // is there already, it stands in no section, or it says nothing.
  lemma LineRefused(lines: seq<string>, items: seq<Item>, raw: string, lower: Lower)
    requires Says(lines, items, lower)
    ensures var r, line, open := Scan(lines + [raw], lower), |lines| + 1, OpenOf(items).Some?;
      && (forall item | LineSays(open, raw, item, lower) ::
            && (r.Ok? <==> MayFollow(items, item))
            && (r.Err? && item.Header? ==> r.error == DuplicateSection(line, item.name))
            && (r.Err? && item.Setting? ==>
                  r.error == if CurrentOf(items).None? then NoHeader(line) else DuplicateOption(line, item.key)))
      && ((forall item :: !LineSays(open, raw, item, lower)) ==>
            r == Err(if CurrentOf(items).None? then NoHeader(line) else NotAnOption(line)))
  {
    hide *;
    ScanSays(lines, items, lower);
    ScanSnoc(lines, raw, lower);
    var st := Scan(lines, lower).value;
    StandsCases(items, st);
    forall item | LineSays(OpenOf(items).Some?, raw, item, lower)
      ensures var r := Step(st, |lines| + 1, raw, lower);
        && (r.Ok? <==> MayFollow(items, item))
        && (r.Err? && item.Header? ==> r.error == DuplicateSection(|lines| + 1, item.name))
        && (r.Err? && item.Setting? ==>
              r.error == if CurrentOf(items).None? then NoHeader(|lines| + 1)
                else DuplicateOption(|lines| + 1, item.key))
    {
      LineTaken(items, st, |lines| + 1, raw, item, lower);
    }
    if forall item :: !LineSays(OpenOf(items).Some?, raw, item, lower) {
      StepSaysNothing(st, |lines| + 1, raw, lower);
    }
  }

  // ----- The lines of a text -----

  // The lines, each with its line break; the last one may have none.
  function Broken(lines: seq<string>, breaks: seq<string>): string
    requires |lines| == |breaks|
  {
    if lines == [] then "" else lines[0] + (breaks[0] + Broken(lines[1..], breaks[1..]))
  }

  ghost predicate LineBreak(line: string, lineBreak: string, last: bool) {
    && '\n' !in line
    && (lineBreak == "\n" || lineBreak == "\r\n" || (last && lineBreak == "" && line != ""))
    && (lineBreak == "\n" ==> !EndsWith(line, '\r'))
  }

  ghost predicate Breaks(lines: seq<string>, breaks: seq<string>) {
    |lines| == |breaks| && forall i | 0 <= i < |lines| :: LineBreak(lines[i], breaks[i], i == |lines| - 1)
  }

  ghost predicate IsText(text: string, lines: seq<string>) {
    exists breaks :: Breaks(lines, breaks) && text == Broken(lines, breaks)
  }

  lemma LastLine(line: string)
    requires '\n' !in line
    ensures Lines(line) == if line == "" then [] else [line]
  {
    SplitNone(line, '\n');
    assert [line][..0] == [];
  }

  lemma FirstLine(piece: string, rest: string)
    requires '\n' !in piece
    ensures Lines(piece + (['\n'] + rest)) == [DropReturn(piece)] + Lines(rest)
  {
    Assoc(piece, ['\n'], rest);
    SplitNone(piece, '\n');
    SplitConcat(piece, rest, '\n');
    FirstPiece(piece, Split(rest, '\n'));
    hide Split, DropReturn;
  }

  lemma FirstPiece(piece: string, more: seq<string>)
    requires more != []
    ensures var pieces := [piece] + more;
      && pieces[|pieces| - 1] == more[|more| - 1]
      && DropReturns(pieces[..|pieces| - 1]) == [DropReturn(piece)] + DropReturns(more[..|more| - 1])
  {
    hide DropReturn;
    var pieces := [piece] + more;
    assert pieces[..|pieces| - 1] == [piece] + more[..|more| - 1];
  }

  lemma DropReturnCases(line: string)
    ensures DropReturn(line + "\r") == line
    ensures !EndsWith(line, '\r') ==> DropReturn(line) == line
    ensures EndsWith(line, '\r') ==> line == DropReturn(line) + "\r"
  {
    assert (line + "\r")[..|line|] == line;
    if line != "" {
      SnocLast(line);
    }
  }

  lemma {:induction false} LinesOf(lines: seq<string>, breaks: seq<string>)
    requires Breaks(lines, breaks)
    ensures Lines(Broken(lines, breaks)) == lines
  {
    hide *;
    BrokenCases(lines, breaks);
    if lines == [] {
      LastLine("");
    } else {
      var line, rest := lines[0], Broken(lines[1..], breaks[1..]);
      ConsFirst(lines);
      if breaks[0] == "" {
        Assoc("", "", line);
        LastLine(line);
      } else {
        LinesOf(lines[1..], breaks[1..]);
        DropReturnCases(line);
        if breaks[0] == "\n" {
          FirstLine(line, rest);
        } else {
          ReturnLine(line, rest);
          FirstLine(line + "\r", rest);
        }
      }
    }
  }

  lemma ReturnLine(line: string, rest: string)
    ensures line + ("\r\n" + rest) == (line + "\r") + (['\n'] + rest)
    ensures '\n' !in line ==> '\n' !in line + "\r"
  {
    assert "\r\n" == "\r" + "\n";
  }

  lemma BrokenCases(lines: seq<string>, breaks: seq<string>)
    requires Breaks(lines, breaks)
    ensures |lines| == |breaks|
    ensures lines == [] ==> Broken(lines, breaks) == ""
    ensures lines != [] ==>
      && Broken(lines, breaks) == lines[0] + (breaks[0] + Broken(lines[1..], breaks[1..]))
      && Breaks(lines[1..], breaks[1..]) && '\n' !in lines[0]
      && (breaks[0] == "" ==> |lines| == 1 && lines[0] != "" && Broken(lines, breaks) == lines[0] + "")
      && (breaks[0] == "" || breaks[0] == "\r\n" || (breaks[0] == "\n" && !EndsWith(lines[0], '\r')))
  {
    if lines != [] {
      var n := |lines| - 1;
      assert forall i | 0 <= i < n :: lines[1..][i] == lines[i + 1] && breaks[1..][i] == breaks[i + 1];
      assert LineBreak(lines[0], breaks[0], 0 == n);
    }
  }

  // A text ends in a line, or in a break that no line follows.
  lemma {:induction false} LinesParts(text: string) returns (breaks: seq<string>)
    ensures Breaks(Lines(text), breaks) && text == Broken(Lines(text), breaks)
    decreases |text|
  {
    hide *;
    if '\n' in text {
      var piece, rest := CutLine(text);
      FirstLine(piece, rest);
      var more := LinesParts(rest);
      DropReturnCases(piece);
      breaks := [if EndsWith(piece, '\r') then "\r\n" else "\n"] + more;
      LineFirst(DropReturn(piece), breaks[0], Lines(rest), more);
      ReturnLine(DropReturn(piece), rest);
      NoBreakIn(piece);
    } else {
      LastLine(text);
      breaks := if text == "" then [] else [""];
      OnlyLine(text);
    }
  }

  lemma NoBreakIn(piece: string)
    requires '\n' !in piece
    ensures '\n' !in DropReturn(piece)
  {
  }

  lemma OnlyLine(text: string)
    requires '\n' !in text
    ensures text == "" ==> Breaks([], []) && Broken([], []) == text
    ensures text != "" ==> Breaks([text], [""]) && Broken([text], [""]) == text
  {
    if text != "" {
      assert LineBreak(text, "", true);
      assert text + ("" + "") == text;
    }
  }

  lemma CutLine(text: string) returns (piece: string, rest: string)
    requires '\n' in text
    ensures '\n' !in piece && text == piece + (['\n'] + rest) && |rest| < |text|
  {
    var n := IndexOf(text, '\n');
    piece, rest := text[..n], text[n + 1..];
    hide IndexOf;
  }

  lemma LineFirst(line: string, lineBreak: string, lines: seq<string>, breaks: seq<string>)
    requires Breaks(lines, breaks) && LineBreak(line, lineBreak, false)
    ensures Breaks([line] + lines, [lineBreak] + breaks)
    ensures Broken([line] + lines, [lineBreak] + breaks) == line + (lineBreak + Broken(lines, breaks))
  {
    assert ([line] + lines)[1..] == lines && ([lineBreak] + breaks)[1..] == breaks;
    assert forall i | 0 <= i < |lines| :: LineBreak(lines[i], breaks[i], i == |lines| - 1);
    forall i | 0 <= i < |lines| + 1
      ensures LineBreak(([line] + lines)[i], ([lineBreak] + breaks)[i], i == |lines|)
    {
      if i > 0 {
        assert LineBreak(lines[i - 1], breaks[i - 1], i - 1 == |lines| - 1);
      }
    }
  }

  lemma LinesExactly(text: string, lines: seq<string>)
    ensures Lines(text) == lines <==> IsText(text, lines)
  {
    hide Lines, LineBreak, Broken;
    var parts := LinesParts(text);
    if IsText(text, lines) {
      var breaks :| Breaks(lines, breaks) && text == Broken(lines, breaks);
      LinesOf(lines, breaks);
    }
  }

  // ----- The whole configuration -----

  // The text is made of lines that say these items.
  ghost predicate Writes(text: string, items: seq<Item>, lower: Lower) {
    exists lines :: IsText(text, lines) && Says(lines, items, lower)
  }

  // The entries are the tokens of the numbered options of `[structure]`, up to
  // the first number that is missing.
  ghost predicate IsStructure(items: seq<Item>, entries: seq<seq<string>>) {
    && (forall value :: !Holds(items, "structure", Decimal(|entries|), value))
    && (forall k | 0 <= k < |entries| :: IsEntry(items, k, entries[k]))
  }

  ghost predicate IsEntry(items: seq<Item>, k: nat, entry: seq<string>) {
    exists value :: Holds(items, "structure", Decimal(k), value) && SpacedOut(value, entry)
  }

  // Parsing a text that is written with some items gives exactly the entries
  // these items define, and any other text is refused.
  lemma WriteThenParse(text: string, lower: Lower)
    ensures ParseConfig(text, lower).Ok? <==> exists items :: Writes(text, items, lower)
    ensures forall items | Writes(text, items, lower) :: IsStructure(items, ParseConfig(text, lower).value)
  {
    hide *;
    var lines := Lines(text);
    LinesExactly(text, lines);
    ParseCases(text, lower);
    ScanExactly(lines, lower);
    if Scan(lines, lower).Ok? {
      var items := ScanSaid(lines, lower);
      IntroWrites(text, lines, items, lower);
    }
    forall items | Writes(text, items, lower)
      ensures ParseConfig(text, lower).Ok? && IsStructure(items, ParseConfig(text, lower).value)
    {
      var ls := WrittenLines(text, items, lower);
      LinesExactly(text, ls);
      StructureHolds(items, Scan(lines, lower).value.sections);
    }
  }

  lemma IntroWrites(text: string, lines: seq<string>, items: seq<Item>, lower: Lower)
    requires IsText(text, lines) && Says(lines, items, lower)
    ensures Writes(text, items, lower)
  {
    hide IsText, Says;
  }

  lemma WrittenLines(text: string, items: seq<Item>, lower: Lower) returns (lines: seq<string>)
    requires Writes(text, items, lower)
    ensures IsText(text, lines) && Says(lines, items, lower)
  {
    hide IsText, Says;
    lines :| IsText(text, lines) && Says(lines, items, lower);
  }

  lemma StructureHolds(items: seq<Item>, sections: Sections)
    requires Tabulates(items, sections)
    ensures IsStructure(items, Structure(sections))
  {
    hide *;
    TabulatesCases(items, sections);
    StructureMeaning(sections);
    var entries := Structure(sections);
    forall value ensures !Holds(items, "structure", Decimal(|entries|), value) {
      TableParts(sections, "structure", Decimal(|entries|), value);
    }
    forall k | 0 <= k < |entries| ensures IsEntry(items, k, entries[k]) {
      var value := sections["structure"][Decimal(k)];
      TableParts(sections, "structure", Decimal(k), value);
      SplitExactly(value, entries[k]);
      IntroEntry(items, k, value, entries[k]);
    }
    IntroStructure(items, entries);
  }

  lemma IntroEntry(items: seq<Item>, k: nat, value: string, entry: seq<string>)
    requires Holds(items, "structure", Decimal(k), value) && SpacedOut(value, entry)
    ensures IsEntry(items, k, entry)
  {
    hide Holds, SpacedOut, Decimal;
  }

  lemma IntroStructure(items: seq<Item>, entries: seq<seq<string>>)
    requires forall value :: !Holds(items, "structure", Decimal(|entries|), value)
    requires forall k | 0 <= k < |entries| :: IsEntry(items, k, entries[k])
    ensures IsStructure(items, entries)
  {
    hide IsEntry, Holds, Decimal;
  }
}
