/**
 Menu paths as readable text: printing an internal path, resolving text or a path, and building the
 scoped selectors a menu action needs. Case folding and title casing are parameters.
 */
module MenuNavigation {
  import opened Outcomes
  import opened Text

  datatype Entry = Entry(key: string, item: Item)

  /** A recorded menu item. Empty text stands for a missing field. */
  datatype Item = Item(
    fields: map<string, string>,    // display_name, label, text, name
    criteria: map<string, string>,  // the selector's criteria, or the item's own
    kind: string,
    storedKind: string,
    disabled: bool,
    unselectable: bool,
    ordinal: Option<int>,
    offset: Option<(real, real, real)>,
    children: seq<Entry>)

  datatype Casing = Casing(fold: string -> string, title: string -> string)

  datatype NavigationError =
    | EmptyPath
    | Blank
    | EmptySegment
    | BadSegments
    | Undefined
    | Ambiguous
    | Disabled
    | Separator
    | NotSelectable

  const DELIMITER := " > "

  // ----- labels

  function FirstOf(fields: map<string, string>, names: seq<string>): string {
    if names == [] then ""
    else if names[0] in fields && fields[names[0]] != "" then fields[names[0]]
    else FirstOf(fields, names[1..])
  }

  const CRITERIA := ["text", "name", "accessible_name", "accessible_id", "id"]

  /** `menu_item_label`. */
  function Label(casing: Casing, key: string, item: Item): string {
    var own := FirstOf(item.fields, ["display_name", "label", "text", "name"]);
    var found := FirstOf(item.criteria, CRITERIA);
    if own != "" then own
    else if found != "" then found
    else
      var titled := casing.title(Strip(Spaced(key)));
      if titled != "" then titled else "Menu Item"
  }

  function Spaced(s: string): string {
    Replaced(s, '_', ' ')
  }

  /** The folded names an entry answers to. */
  function Names(casing: Casing, e: Entry): set<string> {
    {casing.fold(e.key), casing.fold(Label(casing, e.key, e.item))}
    + set f | f in CRITERIA && f in e.item.criteria && e.item.criteria[f] != "" :: casing.fold(e.item.criteria[f])
  }

  function Answers(casing: Casing, caption: string): Entry -> bool {
    (e: Entry) => casing.fold(caption) in Names(casing, e)
  }

  /** The entries of a level that answer to a label. */
  function Matches(casing: Casing, level: seq<Entry>, caption: string): seq<Entry> {
    Filter(level, Answers(casing, caption))
  }

  function Find(level: seq<Entry>, key: string): Option<Item> {
    if level == [] then None
    else if level[0].key == key then Some(level[0].item)
    else Find(level[1..], key)
  }

  /** Keys are unique on every level, as they are in a mapping. */
  predicate WellKeyed(level: seq<Entry>) {
    && (forall i, j | 0 <= i < j < |level| :: level[i].key != level[j].key)
    && (forall i | 0 <= i < |level| :: WellKeyed(level[i].item.children))
  }

  lemma {:induction false} FindEntry(level: seq<Entry>, i: nat)
    requires i < |level| && forall j, k | 0 <= j < k < |level| :: level[j].key != level[k].key
    ensures Find(level, level[i].key) == Some(level[i].item)
  {
    if i > 0 {
      FindEntry(level[1..], i - 1);
    }
  }

  lemma {:induction false} FoundIsEntry(level: seq<Entry>, key: string)
    requires Find(level, key).Some?
    ensures Entry(key, Find(level, key).value) in level
  {
    if level[0].key != key {
      FoundIsEntry(level[1..], key);
    }
  }

  lemma {:induction false} MatchesAre(casing: Casing, level: seq<Entry>, caption: string)
    ensures forall e :: e in Matches(casing, level, caption) <==> e in level && casing.fold(caption) in Names(casing, e)
  {
    if level != [] {
      MatchesAre(casing, level[1..], caption);
      assert level == [level[0]] + level[1..];
    }
  }

  // ----- printing a path

  function Prepend<T, E>(before: seq<T>, r: Result<seq<T>, E>): Result<seq<T>, E> {
    if r.Failure? then r else Success(before + r.value)
  }

  lemma PrependLaws<T, E>(a: seq<T>, b: seq<T>, r: Result<seq<T>, E>)
    ensures Prepend([], r) == r && Prepend(a, Prepend(b, r)) == Prepend(a + b, r)
  {
    if r.Success? {
      assert [] + r.value == r.value;
      assert a + (b + r.value) == a + b + r.value;
    }
  }

  function Labels(casing: Casing, level: seq<Entry>, path: seq<string>): Result<seq<string>, NavigationError>
    decreases |path|
  {
    if path == [] then Success([])
    else
      var item := Find(level, path[0]);
      if item.None? then Failure(Undefined)
      else Prepend([Label(casing, path[0], item.value)], Labels(casing, item.value.children, path[1..]))
  }

  function Printed(casing: Casing, tree: seq<Entry>, path: seq<string>): Result<string, NavigationError> {
    var labels := Labels(casing, tree, path);
    if labels.Failure? then Failure(labels.error)
    else if labels.value == [] then Failure(EmptyPath)
    else Success(Join(labels.value, DELIMITER))
  }

  /** `navigation_from_path`. */
  method NavigationFromPath(casing: Casing, tree: seq<Entry>, path: seq<string>) returns (r: Result<string, NavigationError>)
    ensures r == Printed(casing, tree, path)
  {
    var current := tree;
    var labels: seq<string> := [];
    assert path[0..] == path;
    PrependLaws([], [], Labels(casing, tree, path));
    for i := 0 to |path|
      invariant Labels(casing, tree, path) == Prepend(labels, Labels(casing, current, path[i..]))
      invariant |labels| == i
    {
      assert path[i..][0] == path[i] && path[i..][1..] == path[i + 1..];
      var item := Find(current, path[i]);
      if item.None? {
        return Failure(Undefined);
      }
      PrependLaws(labels, [Label(casing, path[i], item.value)], Labels(casing, item.value.children, path[i + 1..]));
      labels := labels + [Label(casing, path[i], item.value)];
      current := item.value.children;
    }
    assert labels + [] == labels;
    if labels == [] {
      return Failure(EmptyPath);
    }
    return Success(Join(labels, DELIMITER));
  }

  // ----- resolving text

  function ResolveLabels(casing: Casing, level: seq<Entry>, labels: seq<string>): Result<seq<string>, NavigationError>
    decreases |labels|
  {
    if labels == [] then Success([])
    else
      var matches := Matches(casing, level, labels[0]);
      if matches == [] then Failure(Undefined)
      else if |matches| > 1 then Failure(Ambiguous)
      else Prepend([matches[0].key], ResolveLabels(casing, matches[0].item.children, labels[1..]))
  }

  function SplitLabels(text: string): seq<string> {
    Map(Split(text, '>'), Strip)
  }

  function ResolvedText(casing: Casing, tree: seq<Entry>, text: string): Result<seq<string>, NavigationError> {
    if Strip(text) == "" then Failure(Blank)
    else if "" in SplitLabels(text) then Failure(EmptySegment)
    else ResolveLabels(casing, tree, SplitLabels(text))
  }

  method ResolveText(casing: Casing, tree: seq<Entry>, text: string) returns (r: Result<seq<string>, NavigationError>)
    ensures r == ResolvedText(casing, tree, text)
  {
    if Strip(text) == "" {
      return Failure(Blank);
    }
    var labels := SplitLabels(text);
    if "" in labels {
      return Failure(EmptySegment);
    }
    var current := tree;
    var path: seq<string> := [];
    assert labels[0..] == labels;
    PrependLaws([], [], ResolveLabels(casing, tree, labels));
    for i := 0 to |labels|
      invariant ResolveLabels(casing, tree, labels) == Prepend(path, ResolveLabels(casing, current, labels[i..]))
    {
      assert labels[i..][0] == labels[i] && labels[i..][1..] == labels[i + 1..];
      var matches := Matches(casing, current, labels[i]);
      if matches == [] {
        return Failure(Undefined);
      }
      if |matches| > 1 {
        return Failure(Ambiguous);
      }
      PrependLaws(path, [matches[0].key], ResolveLabels(casing, matches[0].item.children, labels[i + 1..]));
      path := path + [matches[0].key];
      current := matches[0].item.children;
    }
    assert path + [] == path;
    return Success(path);
  }

  predicate Defined(level: seq<Entry>, path: seq<string>)
    decreases |path|
  {
    path == [] || (Find(level, path[0]).Some? && Defined(Find(level, path[0]).value.children, path[1..]))
  }

  /** Resolving a list of internal keys only validates it. */
  method ResolvePath(tree: seq<Entry>, path: seq<string>) returns (r: Result<seq<string>, NavigationError>)
    ensures r == ResolvedPath(tree, path)
  {
    if path == [] || "" in path {
      return Failure(BadSegments);
    }
    var current := tree;
    for i := 0 to |path|
      invariant Defined(tree, path) <==> Defined(current, path[i..])
    {
      assert path[i..][0] == path[i] && path[i..][1..] == path[i + 1..];
      var item := Find(current, path[i]);
      if item.None? {
        return Failure(Undefined);
      }
      current := item.value.children;
    }
    return Success(path);
  }

  function ResolvedPath(tree: seq<Entry>, path: seq<string>): Result<seq<string>, NavigationError> {
    if path == [] || "" in path then Failure(BadSegments)
    else if !Defined(tree, path) then Failure(Undefined)
    else Success(path)
  }

  // ----- print, then resolve

  /** A label that survives being printed between delimiters. */
  predicate Plain(caption: string) {
    caption != "" && Trimmed(caption) && '>' !in caption
  }

  lemma SplitStep(first: string, rest: string)
    requires Plain(first)
    ensures SplitLabels(first) == SplitLabels(" " + first) == [first]
    ensures SplitLabels(first + DELIMITER + rest) == SplitLabels(" " + (first + DELIMITER + rest)) == [first] + SplitLabels(" " + rest)
  {
    hide Strip, Split;
    StripPadding(first);
    assert first + DELIMITER + rest == (first + " ") + ['>'] + (" " + rest);
    assert " " + (first + DELIMITER + rest) == (" " + first + " ") + ['>'] + (" " + rest);
    SplitAtFirst(first, '>', "");
    SplitAtFirst(" " + first, '>', "");
    SplitAtFirst(first + " ", '>', " " + rest);
    SplitAtFirst(" " + first + " ", '>', " " + rest);
    MapCons(first, []);
    MapCons(" " + first, []);
    MapCons(first + " ", Split(" " + rest, '>'));
    MapCons(" " + first + " ", Split(" " + rest, '>'));
  }

  lemma {:induction false} SplitJoined(labels: seq<string>)
    requires labels != [] && forall l | l in labels :: Plain(l)
    ensures SplitLabels(Join(labels, DELIMITER)) == SplitLabels(" " + Join(labels, DELIMITER)) == labels
  {
    hide Plain, SplitLabels;
    assert labels[0] in labels;
    if |labels| == 1 {
      SplitStep(labels[0], "");
    } else {
      SplitJoined(labels[1..]);
      SplitStep(labels[0], Join(labels[1..], DELIMITER));
      assert labels == [labels[0]] + labels[1..];
    }
  }

  lemma MapCons(piece: string, rest: seq<string>)
    ensures Map([piece] + rest, Strip) == [Strip(piece)] + Map(rest, Strip)
  {
    hide Strip;
    assert ([piece] + rest)[1..] == rest;
  }

  /** On every level of the path its entry is the only one that answers to its label. */
  ghost predicate Unrivalled(casing: Casing, level: seq<Entry>, path: seq<string>)
    requires Labels(casing, level, path).Success?
    decreases |path|
  {
    path == [] ||
    (var item := Find(level, path[0]).value;
     && (forall i | 0 <= i < |level| && casing.fold(Label(casing, path[0], item)) in Names(casing, level[i]) :: level[i].key == path[0])
     && Unrivalled(casing, item.children, path[1..]))
  }

  lemma {:induction false} OneMatch(casing: Casing, level: seq<Entry>, caption: string, key: string)
    requires forall j, k | 0 <= j < k < |level| :: level[j].key != level[k].key
    requires Find(level, key).Some? && casing.fold(caption) in Names(casing, Entry(key, Find(level, key).value))
    ensures Matches(casing, level, caption) != []
    ensures |Matches(casing, level, caption)| == 1 <==> forall i | 0 <= i < |level| && casing.fold(caption) in Names(casing, level[i]) :: level[i].key == key
    ensures |Matches(casing, level, caption)| == 1 ==> Matches(casing, level, caption)[0] == Entry(key, Find(level, key).value)
  {
    MatchesAre(casing, level, caption);
    FoundIsEntry(level, key);
    var matches := Matches(casing, level, caption);
    var mine := Entry(key, Find(level, key).value);
    assert mine in matches;
    if |matches| == 1 {
      assert matches == [mine];
      forall i | 0 <= i < |level| && casing.fold(caption) in Names(casing, level[i]) ensures level[i].key == key {
        assert level[i] in matches;
      }
    } else {
      MatchesDistinct(casing, level, caption);
      var other := if matches[0] == mine then matches[1] else matches[0];
      assert other in matches && other in level;
      var i :| 0 <= i < |level| && level[i] == other;
      FindEntry(level, i);
    }
  }

  lemma {:induction false} MatchesDistinct(casing: Casing, level: seq<Entry>, caption: string)
    requires forall j, k | 0 <= j < k < |level| :: level[j].key != level[k].key
    ensures var matches := Matches(casing, level, caption);
      forall j, k | 0 <= j < k < |matches| :: matches[j].key != matches[k].key
  {
    if level != [] {
      MatchesDistinct(casing, level[1..], caption);
      MatchesAre(casing, level[1..], caption);
      forall e | e in Matches(casing, level[1..], caption) ensures e.key != level[0].key {
        var i :| 0 <= i < |level| - 1 && level[1..][i] == e;
      }
    }
  }

  lemma {:induction false} ResolvesToSamePath(casing: Casing, level: seq<Entry>, path: seq<string>)
    requires WellKeyed(level) && Labels(casing, level, path).Success?
    ensures var r := ResolveLabels(casing, level, Labels(casing, level, path).value);
      r == if Unrivalled(casing, level, path) then Success(path) else Failure(Ambiguous)
    decreases |path|
  {
    hide Matches, Find, Label;
    if path != [] {
      var item := Find(level, path[0]).value;
      var labels := Labels(casing, level, path).value;
      FoundIsEntry(level, path[0]);
      OneMatch(casing, level, labels[0], path[0]);
      ResolvesToSamePath(casing, item.children, path[1..]);
      assert labels[1..] == Labels(casing, item.children, path[1..]).value;
      assert path == [path[0]] + path[1..];
    }
  }

  /**
   Printing a path whose labels are plain and resolving the text gives that path back, or reports ambiguity;
   it gives the path back exactly when no sibling on the way answers to the same label. Never another path.
   */
  lemma PrintedPathResolves(casing: Casing, tree: seq<Entry>, path: seq<string>)
    requires WellKeyed(tree) && path != [] && Labels(casing, tree, path).Success?
    requires forall l | l in Labels(casing, tree, path).value :: Plain(l)
    ensures Printed(casing, tree, path).Success?
    ensures ResolvedText(casing, tree, Printed(casing, tree, path).value)
              == if Unrivalled(casing, tree, path) then Success(path) else Failure(Ambiguous)
  {
    LabelsLength(casing, tree, path);
    var labels := Labels(casing, tree, path).value;
    var text := Join(labels, DELIMITER);
    SplitJoined(labels);
    assert "" !in labels;
    assert labels[0] in labels;
    assert text[0] == labels[0][0];
    StripKeeps(text, 0);
    ResolvesToSamePath(casing, tree, path);
  }

  lemma {:induction false} LabelsLength(casing: Casing, level: seq<Entry>, path: seq<string>)
    requires Labels(casing, level, path).Success?
    ensures |Labels(casing, level, path).value| == |path|
    decreases |path|
  {
    if path != [] {
      LabelsLength(casing, Find(level, path[0]).value.children, path[1..]);
    }
  }

  // ----- selectors

  datatype Selector = Selector(kind: string, criteria: map<string, string>, ordinal: Option<int>, offset: Option<(real, real, real)>)

  type Selectors = Result<seq<Selector>, NavigationError>

  /** The selector of a recorded item; `last` when the path ends here. */
  function SelectorOf(casing: Casing, key: string, item: Item, last: bool): Result<Selector, NavigationError> {
    if item.disabled then Failure(Disabled)
    else if casing.fold(Underscored(item.kind)) == "separator" then Failure(Separator)
    else if last && item.unselectable then Failure(NotSelectable)
    else
      var kind := if item.kind != "" then item.kind else if item.storedKind != "" then item.storedKind else if last then "menu_item" else "menu";
      var criteria := if item.criteria != map[] then item.criteria else map["text" := Label(casing, key, item)];
      Success(Selector(Underscored(kind), criteria, item.ordinal, item.offset))
  }

  /** An option that was never recorded is selected by its visible text. */
  function TextSelector(text: string, last: bool): Selector {
    Selector(if last then "menu_item" else "menu", map["text" := text], None, None)
  }

  function PathSelectors(casing: Casing, level: seq<Entry>, path: seq<string>): Selectors
    decreases |path|
  {
    if path == [] then Success([])
    else
      var item := Find(level, path[0]);
      if item.None? then Failure(Undefined)
      else
        var selector := SelectorOf(casing, path[0], item.value, |path| == 1);
        if selector.Failure? then Failure(selector.error)
        else Prepend([selector.value], PathSelectors(casing, item.value.children, path[1..]))
  }

  function TextSelectors(casing: Casing, level: seq<Entry>, labels: seq<string>): Selectors
    decreases |labels|
  {
    if labels == [] then Success([])
    else
      var matches := Matches(casing, level, labels[0]);
      if |matches| > 1 then Failure(Ambiguous)
      else if matches == [] then Prepend([TextSelector(labels[0], |labels| == 1)], TextSelectors(casing, [], labels[1..]))
      else
        var selector := SelectorOf(casing, matches[0].key, matches[0].item, |labels| == 1);
        if selector.Failure? then Failure(selector.error)
        else Prepend([selector.value], TextSelectors(casing, matches[0].item.children, labels[1..]))
  }

  function SelectorsForPath(casing: Casing, tree: seq<Entry>, path: seq<string>): Selectors {
    if ResolvedPath(tree, path).Failure? then Failure(ResolvedPath(tree, path).error) else PathSelectors(casing, tree, path)
  }

  function SelectorsForText(casing: Casing, tree: seq<Entry>, text: string): Selectors {
    if Strip(text) == "" then Failure(Blank)
    else if "" in SplitLabels(text) then Failure(EmptySegment)
    else TextSelectors(casing, tree, SplitLabels(text))
  }

  /** `selectors_from_navigation` for a list of internal keys. */
  method SelectorsFromPath(casing: Casing, tree: seq<Entry>, path: seq<string>) returns (r: Selectors)
    ensures r == SelectorsForPath(casing, tree, path)
  {
    var resolved := ResolvePath(tree, path);
    if resolved.Failure? {
      return Failure(resolved.error);
    }
    var current := tree;
    var selectors: seq<Selector> := [];
    assert path[0..] == path;
    PrependLaws([], [], PathSelectors(casing, tree, path));
    for i := 0 to |path|
      invariant PathSelectors(casing, tree, path) == Prepend(selectors, PathSelectors(casing, current, path[i..]))
    {
      assert path[i..][0] == path[i] && path[i..][1..] == path[i + 1..];
      var item := Find(current, path[i]);
      if item.None? {
        return Failure(Undefined);
      }
      var selector := SelectorOf(casing, path[i], item.value, i == |path| - 1);
      if selector.Failure? {
        return Failure(selector.error);
      }
      PrependLaws(selectors, [selector.value], PathSelectors(casing, item.value.children, path[i + 1..]));
      selectors := selectors + [selector.value];
      current := item.value.children;
    }
    assert selectors + [] == selectors;
    return Success(selectors);
  }

  /** `selectors_from_navigation` for text. */
  method SelectorsFromText(casing: Casing, tree: seq<Entry>, text: string) returns (r: Selectors)
    ensures r == SelectorsForText(casing, tree, text)
  {
    if Strip(text) == "" {
      return Failure(Blank);
    }
    var labels := SplitLabels(text);
    if "" in labels {
      return Failure(EmptySegment);
    }
    hide SplitLabels, Strip;
    var current := tree;
    var selectors: seq<Selector> := [];
    assert labels[0..] == labels;
    PrependLaws([], [], TextSelectors(casing, tree, labels));
    for i := 0 to |labels|
      invariant TextSelectors(casing, tree, labels) == Prepend(selectors, TextSelectors(casing, current, labels[i..]))
    {
      assert labels[i..][0] == labels[i] && labels[i..][1..] == labels[i + 1..];
      var last := i == |labels| - 1;
      var matches := Matches(casing, current, labels[i]);
      if |matches| > 1 {
        return Failure(Ambiguous);
      }
      if matches == [] {
        PrependLaws(selectors, [TextSelector(labels[i], last)], TextSelectors(casing, [], labels[i + 1..]));
        selectors := selectors + [TextSelector(labels[i], last)];
        current := [];
        continue;
      }
      var selector := SelectorOf(casing, matches[0].key, matches[0].item, last);
      if selector.Failure? {
        return Failure(selector.error);
      }
      PrependLaws(selectors, [selector.value], TextSelectors(casing, matches[0].item.children, labels[i + 1..]));
      selectors := selectors + [selector.value];
      current := matches[0].item.children;
    }
    assert selectors + [] == selectors;
    return Success(selectors);
  }

  lemma {:induction false} ResolvedLabelsSelectAlike(casing: Casing, level: seq<Entry>, labels: seq<string>)
    requires WellKeyed(level) && ResolveLabels(casing, level, labels).Success?
    ensures var path := ResolveLabels(casing, level, labels).value;
      && |path| == |labels| && Defined(level, path)
      && PathSelectors(casing, level, path) == TextSelectors(casing, level, labels)
    decreases |labels|
  {
    if labels != [] {
      var m := Matches(casing, level, labels[0])[0];
      MatchesAre(casing, level, labels[0]);
      assert m in Matches(casing, level, labels[0]);
      var i :| 0 <= i < |level| && level[i] == m;
      FindEntry(level, i);
      ResolvedLabelsSelectAlike(casing, m.item.children, labels[1..]);
      var path := ResolveLabels(casing, level, labels).value;
      assert path[1..] == ResolveLabels(casing, m.item.children, labels[1..]).value;
    }
  }

  /**
   When the text resolves, its selectors, or the reason there are none, are those of the internal path it
   resolves to, unless some key on that path is empty: a path list with an empty key is refused.
   */
  lemma TextAndPathSelectAlike(casing: Casing, tree: seq<Entry>, text: string)
    requires WellKeyed(tree) && ResolvedText(casing, tree, text).Success?
    ensures var path := ResolvedText(casing, tree, text).value;
      SelectorsForPath(casing, tree, path) == SelectorsForText(casing, tree, text) <==> "" !in path
  {
    hide Strip;
    var labels := SplitLabels(text);
    ResolvedLabelsSelectAlike(casing, tree, labels);
    TextSelectorsNeverBadSegments(casing, tree, labels);
  }

  lemma {:induction false} TextSelectorsNeverBadSegments(casing: Casing, level: seq<Entry>, labels: seq<string>)
    ensures TextSelectors(casing, level, labels) != Failure(BadSegments)
    decreases |labels|
  {
    if labels != [] {
      var matches := Matches(casing, level, labels[0]);
      TextSelectorsNeverBadSegments(casing, if matches == [] then [] else matches[0].item.children, labels[1..]);
    }
  }

  const FILE := Item(map["display_name" := "File"], map[], "menu", "", false, false, None, None, [])

  lemma LoneMatch(casing: Casing, e: Entry, caption: string)
    requires Label(casing, e.key, e.item) == caption
    ensures Matches(casing, [e], caption) == [e]
  {
    hide Label;
    assert casing.fold(caption) in Names(casing, e);
    FilterAll([e], Answers(casing, caption));
  }

  lemma LoneLabelResolves(casing: Casing, e: Entry)
    requires var caption := Label(casing, e.key, e.item); Plain(caption) && caption != ""
    ensures ResolvedText(casing, [e], Label(casing, e.key, e.item)) == Success([e.key])
  {
    hide Label, Strip, Names;
    var caption := Label(casing, e.key, e.item);
    StripIsTrimmed(caption);
    SplitStep(caption, "");
    LoneMatch(casing, e, caption);
    assert [caption][1..] == [];
    assert ResolveLabels(casing, e.item.children, []) == Success([]);
    assert [e.key] + [] == [e.key];
    hide Matches, SplitLabels;
    assert ResolveLabels(casing, [e], [caption]) == Success([e.key]);
  }

  /** The difference occurs: an item stored under the empty key is found by its label, and refused by its path. */
  lemma EmptyKeyRefused(casing: Casing)
    ensures var tree := [Entry("", FILE)];
      && ResolvedText(casing, tree, "File") == Success([""])
      && SelectorsForPath(casing, tree, [""]) == Failure(BadSegments)
      && SelectorsForPath(casing, tree, [""]) != SelectorsForText(casing, tree, "File")
  {
    hide Strip, ResolvedText, SelectorsForText;
    assert Plain("File") && Label(casing, "", FILE) == "File";
    LoneLabelResolves(casing, Entry("", FILE));
    TextAndPathSelectAlike(casing, [Entry("", FILE)], "File");
  }
}
