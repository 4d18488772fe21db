/** What printing, resolving and selecting along a menu path give, step by step. */
module MenuSelection {
  import opened Outcomes
  import opened Text
  import opened MenuNavigation

  // ----- labels and names

  /** `chosen` is the first of these texts that is not empty. */
  ghost predicate FirstText(chosen: string, texts: seq<string>) {
    exists i | 0 <= i < |texts| :: chosen == texts[i] != "" && forall j | 0 <= j < i :: texts[j] == ""
  }

  function Value(fields: map<string, string>, name: string): string {
    if name in fields then fields[name] else ""
  }

  /** A key as words, and words as one. */
  function Words(s: string): string {
    Join(Split(s, '_'), " ")
  }

  function OneWord(s: string): string {
    Join(Split(s, ' '), "_")
  }

  /** Where an item's label comes from, in order of preference. */
  function LabelSources(casing: Casing, key: string, item: Item): seq<string> {
    [Value(item.fields, "display_name"), Value(item.fields, "label"), Value(item.fields, "text"), Value(item.fields, "name"),
     Value(item.criteria, "text"), Value(item.criteria, "name"), Value(item.criteria, "accessible_name"),
     Value(item.criteria, "accessible_id"), Value(item.criteria, "id"), casing.title(Strip(Words(key))), "Menu Item"]
  }

  lemma {:induction false} FirstOfIs(fields: map<string, string>, names: seq<string>, i: nat)
    requires i <= |names|
    ensures var texts := seq(|names| - i, k requires 0 <= k < |names| - i => Value(fields, names[i + k]));
      var first := FirstOf(fields, names[i..]);
      && (first == "" <==> forall k | 0 <= k < |texts| :: texts[k] == "")
      && (first != "" ==> FirstText(first, texts))
    decreases |names| - i
  {
    var texts := seq(|names| - i, k requires 0 <= k < |names| - i => Value(fields, names[i + k]));
    if i < |names| {
      FirstOfIs(fields, names, i + 1);
      var rest := seq(|names| - i - 1, k requires 0 <= k < |names| - i - 1 => Value(fields, names[i + 1 + k]));
      assert names[i..][0] == names[i] && names[i..][1..] == names[i + 1..];
      assert forall k | 0 <= k < |rest| :: rest[k] == texts[k + 1];
      assert texts[0] == Value(fields, names[i]);
      assert forall k | 1 <= k < |texts| :: texts[k] == rest[k - 1];
    }
  }

  lemma FirstTextThrough(chosen: string, a: seq<string>, b: seq<string>)
    ensures FirstText(chosen, a) ==> FirstText(chosen, a + b)
    ensures (forall k | 0 <= k < |a| :: a[k] == "") && FirstText(chosen, b) ==> FirstText(chosen, a + b)
  {
    if FirstText(chosen, a) {
      var i :| 0 <= i < |a| && chosen == a[i] != "" && forall j | 0 <= j < i :: a[j] == "";
      assert (a + b)[i] == chosen;
    }
    if (forall k | 0 <= k < |a| :: a[k] == "") && FirstText(chosen, b) {
      var i :| 0 <= i < |b| && chosen == b[i] != "" && forall j | 0 <= j < i :: b[j] == "";
      assert (a + b)[|a| + i] == chosen;
    }
  }

  function Own(item: Item): seq<string> {
    [Value(item.fields, "display_name"), Value(item.fields, "label"), Value(item.fields, "text"), Value(item.fields, "name")]
  }

  function Identifying(item: Item): seq<string> {
    [Value(item.criteria, "text"), Value(item.criteria, "name"), Value(item.criteria, "accessible_name"),
     Value(item.criteria, "accessible_id"), Value(item.criteria, "id")]
  }

  lemma OwnFirst(item: Item)
    ensures var first := FirstOf(item.fields, ["display_name", "label", "text", "name"]);
      (first == "" <==> forall k | 0 <= k < |Own(item)| :: Own(item)[k] == "") && (first != "" ==> FirstText(first, Own(item)))
  {
    var names := ["display_name", "label", "text", "name"];
    FirstOfIs(item.fields, names, 0);
    assert names[0..] == names;
    hide FirstOf;
    assert seq(4, k requires 0 <= k < 4 => Value(item.fields, names[0 + k])) == Own(item);
  }

  lemma IdentifyingFirst(item: Item)
    ensures var first := FirstOf(item.criteria, CRITERIA);
      (first == "" <==> forall k | 0 <= k < |Identifying(item)| :: Identifying(item)[k] == "")
      && (first != "" ==> FirstText(first, Identifying(item)))
  {
    FirstOfIs(item.criteria, CRITERIA, 0);
    assert CRITERIA[0..] == CRITERIA;
    hide FirstOf;
    assert seq(5, k requires 0 <= k < 5 => Value(item.criteria, CRITERIA[0 + k])) == Identifying(item);
  }

  lemma LastFirst(titled: string)
    ensures FirstText(if titled != "" then titled else "Menu Item", [titled, "Menu Item"])
  {
    var texts := [titled, "Menu Item"];
    assert texts[if titled != "" then 0 else 1] == if titled != "" then titled else "Menu Item";
  }

  /** An item's label is the first text there is of the sources, ending with its titled key and "Menu Item". */
  lemma LabelIs(casing: Casing, key: string, item: Item)
    ensures FirstText(Label(casing, key, item), LabelSources(casing, key, item))
  {
    hide FirstOf, Strip, Words, Spaced, FirstText, Own, Identifying, LabelSources, Value;
    var titled := casing.title(Strip(Words(key)));
    SpacedIsWords(key);
    OwnFirst(item);
    IdentifyingFirst(item);
    LastFirst(titled);
    SourcesSplit(casing, key, item);
    FirstOfThree(Own(item), Identifying(item), [titled, "Menu Item"], FirstOf(item.fields, ["display_name", "label", "text", "name"]),
                 FirstOf(item.criteria, CRITERIA), if titled != "" then titled else "Menu Item");
  }

  lemma SourcesSplit(casing: Casing, key: string, item: Item)
    ensures LabelSources(casing, key, item) == Own(item) + (Identifying(item) + [casing.title(Strip(Words(key))), "Menu Item"])
  {
    hide Strip, Words, Value;
  }

  lemma FirstOfThree(a: seq<string>, b: seq<string>, c: seq<string>, x: string, y: string, z: string)
    requires (x == "" <==> forall k | 0 <= k < |a| :: a[k] == "") && (x != "" ==> FirstText(x, a))
    requires (y == "" <==> forall k | 0 <= k < |b| :: b[k] == "") && (y != "" ==> FirstText(y, b))
    requires FirstText(z, c)
    ensures FirstText(if x != "" then x else if y != "" then y else z, a + (b + c))
  {
    hide FirstText;
    var chosen := if x != "" then x else if y != "" then y else z;
    FirstTextThrough(chosen, b, c);
    FirstTextThrough(chosen, a, b + c);
  }

  /** An entry answers to its key, its label and the texts of its criteria, case aside. */
  lemma AnswersIff(casing: Casing, e: Entry, caption: string)
    ensures Answers(casing, caption)(e) <==>
      || casing.fold(caption) == casing.fold(e.key) || casing.fold(caption) == casing.fold(Label(casing, e.key, e.item))
      || exists f | f in ["text", "name", "accessible_name", "accessible_id", "id"] ::
           Value(e.item.criteria, f) != "" && casing.fold(caption) == casing.fold(Value(e.item.criteria, f))
  {
    hide Label;
  }

  // ----- steps along a path

  /** The level a path leads to, and the item. */
  function LevelAfter(level: seq<Entry>, path: seq<string>): seq<Entry>
    decreases |path|
  {
    if path == [] then level
    else if Find(level, path[0]).None? then []
    else LevelAfter(Find(level, path[0]).value.children, path[1..])
  }

  function ItemOn(level: seq<Entry>, path: seq<string>, i: nat): Option<Item>
    requires i < |path|
  {
    Find(LevelAfter(level, path[..i]), path[i])
  }

  lemma LevelStep(level: seq<Entry>, path: seq<string>, i: nat)
    requires path != [] && Find(level, path[0]).Some? && 1 <= i < |path|
    ensures ItemOn(level, path, i) == ItemOn(Find(level, path[0]).value.children, path[1..], i - 1)
  {
    assert path[..i][1..] == path[1..][..i - 1];
  }

  lemma FirstStep(level: seq<Entry>, path: seq<string>)
    requires path != []
    ensures ItemOn(level, path, 0) == Find(level, path[0])
  {
  }

  /** A printed label for each item on the path, if they are all there. */
  lemma {:induction false} LabelsAlong(casing: Casing, level: seq<Entry>, path: seq<string>)
    ensures var r := Labels(casing, level, path);
      && (r.Success? <==> forall i | 0 <= i < |path| :: ItemOn(level, path, i).Some?)
      && (r.Failure? ==> r.error == Undefined)
      && (r.Success? ==> |r.value| == |path| && forall i | 0 <= i < |path| :: r.value[i] == Label(casing, path[i], ItemOn(level, path, i).value))
    decreases |path|
  {
    hide Label, Find, ItemOn;
    if path != [] {
      FirstStep(level, path);
      if Find(level, path[0]).Some? {
        var below := Find(level, path[0]).value.children;
        LabelsAlong(casing, below, path[1..]);
        forall i | 1 <= i < |path| ensures ItemOn(level, path, i) == ItemOn(below, path[1..], i - 1) {
          LevelStep(level, path, i);
        }
        assert forall i | 0 <= i < |path| - 1 :: ItemOn(below, path[1..], i) == ItemOn(level, path, i + 1);
      }
    }
  }

  /** A printed path is its labels with " > " between, if it is not empty and every item is recorded. */
  lemma PrintedIs(casing: Casing, tree: seq<Entry>, path: seq<string>)
    ensures var r := Printed(casing, tree, path);
      && (r.Success? <==> path != [] && forall i | 0 <= i < |path| :: ItemOn(tree, path, i).Some?)
      && (r.Success? ==> exists labels | |labels| == |path| && (forall i | 0 <= i < |path| :: labels[i] == Label(casing, path[i], ItemOn(tree, path, i).value)) ::
            r.value == Join(labels, " > "))
      && (r.Failure? ==> r.error == if path == [] then EmptyPath else Undefined)
  {
    hide Label, ItemOn;
    LabelsAlong(casing, tree, path);
  }

  // ----- selecting by keys

  /** Nothing forbids the use of the item; only the last one has to be selectable. */
  predicate Usable(casing: Casing, item: Option<Item>, last: bool) {
    && item.Some? && !item.value.disabled && casing.fold(OneWord(item.value.kind)) != "separator"
    && !(last && item.value.unselectable)
  }

  /** What forbids it: a missing item, then its being disabled, then a separator, then not selectable. */
  predicate Refused(casing: Casing, item: Option<Item>, last: bool, error: NavigationError) {
    match error
    case Undefined => item.None?
    case Disabled => item.Some? && item.value.disabled
    case Separator => item.Some? && !item.value.disabled && casing.fold(OneWord(item.value.kind)) == "separator"
    case NotSelectable => item.Some? && last && item.value.unselectable
                          && !item.value.disabled && casing.fold(OneWord(item.value.kind)) != "separator"
    case _ => false
  }

  /** The selector of an item: its kind, else the stored one, else by place; its criteria, else its label. */
  ghost predicate SelectorIs(casing: Casing, key: string, item: Item, last: bool, s: Selector) {
    && (exists kind :: s.kind == OneWord(kind) && FirstText(kind, [item.kind, item.storedKind, if last then "menu_item" else "menu"]))
    && s.criteria == (if item.criteria == map[] then map["text" := Label(casing, key, item)] else item.criteria)
    && s.ordinal == item.ordinal && s.offset == item.offset
  }

  lemma UnderscoredIsOneWord(s: string)
    ensures Underscored(s) == OneWord(s)
  {
    ReplacedIsJoined(s, ' ', '_');
  }

  lemma SpacedIsWords(s: string)
    ensures Spaced(s) == Words(s)
  {
    ReplacedIsJoined(s, '_', ' ');
  }

  lemma SelectorOfIs(casing: Casing, key: string, item: Item, last: bool)
    ensures var r := SelectorOf(casing, key, item, last);
      && (r.Success? <==> Usable(casing, Some(item), last))
      && (r.Success? ==> SelectorIs(casing, key, item, last, r.value))
      && (r.Failure? ==> Refused(casing, Some(item), last, r.error))
  {
    hide Label, Underscored, OneWord;
    forall kind ensures Underscored(kind) == OneWord(kind) {
      UnderscoredIsOneWord(kind);
    }
    var kinds := [item.kind, item.storedKind, if last then "menu_item" else "menu"];
    var i := if kinds[0] != "" then 0 else if kinds[1] != "" then 1 else 2;
    assert FirstText(kinds[i], kinds);
  }

  lemma MissingRefused(casing: Casing, last: bool)
    ensures !Usable(casing, None, last) && Refused(casing, None, last, Undefined)
  {
  }

  /** Selecting by keys: a selector for each item on the path, or the reason the first unusable one gives. */
  lemma {:induction false} PathSelectorsAlong(casing: Casing, level: seq<Entry>, path: seq<string>)
    ensures var r := PathSelectors(casing, level, path);
      && (r.Success? <==> forall i | 0 <= i < |path| :: Usable(casing, ItemOn(level, path, i), i == |path| - 1))
      && (r.Success? ==> |r.value| == |path|)
      && (r.Success? ==> forall i | 0 <= i < |path| ::
            SelectorIs(casing, path[i], ItemOn(level, path, i).value, i == |path| - 1, r.value[i]))
      && (r.Failure? ==> exists i | 0 <= i < |path| ::
            Refused(casing, ItemOn(level, path, i), i == |path| - 1, r.error)
            && forall j | 0 <= j < i :: Usable(casing, ItemOn(level, path, j), false))
    decreases |path|
  {
    hide Label, Find, ItemOn, SelectorIs, Refused, Usable;
    if path != [] {
      FirstStep(level, path);
      MissingRefused(casing, |path| == 1);
      if Find(level, path[0]).Some? {
        var below := Find(level, path[0]).value.children;
        SelectorOfIs(casing, path[0], Find(level, path[0]).value, |path| == 1);
        PathSelectorsAlong(casing, below, path[1..]);
        forall i | 1 <= i < |path| ensures ItemOn(level, path, i) == ItemOn(below, path[1..], i - 1) {
          LevelStep(level, path, i);
        }
        assert forall i | 0 <= i < |path| - 1 :: ItemOn(below, path[1..], i) == ItemOn(level, path, i + 1);
      }
    }
  }

  // ----- by labels

  /** The level that following labels leads to, as long as each has one match. */
  function LevelByLabels(casing: Casing, level: seq<Entry>, labels: seq<string>): seq<Entry>
    decreases |labels|
  {
    if labels == [] then level
    else
      var matches := Matches(casing, level, labels[0]);
      if |matches| == 1 then LevelByLabels(casing, matches[0].item.children, labels[1..]) else []
  }

  function MatchesOn(casing: Casing, level: seq<Entry>, labels: seq<string>, i: nat): seq<Entry>
    requires i < |labels|
  {
    Matches(casing, LevelByLabels(casing, level, labels[..i]), labels[i])
  }

  lemma FirstMatches(casing: Casing, level: seq<Entry>, labels: seq<string>)
    requires labels != []
    ensures MatchesOn(casing, level, labels, 0) == Matches(casing, level, labels[0])
  {
  }

  lemma MatchesStep(casing: Casing, level: seq<Entry>, labels: seq<string>, i: nat)
    requires labels != [] && 1 <= i < |labels|
    ensures var matches := Matches(casing, level, labels[0]);
      MatchesOn(casing, level, labels, i) ==
      MatchesOn(casing, if |matches| == 1 then matches[0].item.children else [], labels[1..], i - 1)
  {
    hide Matches;
    assert labels[..i][1..] == labels[1..][..i - 1];
    NothingOn(casing, labels[1..][..i - 1]);
  }

  lemma NothingOn(casing: Casing, labels: seq<string>)
    ensures LevelByLabels(casing, [], labels) == []
  {
    if labels != [] {
      assert Matches(casing, [], labels[0]) == [];
    }
  }

  /** Resolving labels: the key of the one match of each, or undefined or ambiguous at the first that has not one. */
  lemma {:induction false} ResolvingAlong(casing: Casing, level: seq<Entry>, labels: seq<string>)
    ensures var r := ResolveLabels(casing, level, labels);
      && (r.Success? <==> forall i | 0 <= i < |labels| :: |MatchesOn(casing, level, labels, i)| == 1)
      && (r.Success? ==> |r.value| == |labels|)
      && (r.Success? ==> forall i | 0 <= i < |labels| :: r.value[i] == MatchesOn(casing, level, labels, i)[0].key)
      && (r.Failure? ==> exists i | 0 <= i < |labels| ::
            r.error == (if MatchesOn(casing, level, labels, i) == [] then Undefined else Ambiguous)
            && |MatchesOn(casing, level, labels, i)| != 1
            && forall j | 0 <= j < i :: |MatchesOn(casing, level, labels, j)| == 1)
    decreases |labels|
  {
    hide Matches, MatchesOn;
    if labels != [] {
      FirstMatches(casing, level, labels);
      var matches := Matches(casing, level, labels[0]);
      if |matches| == 1 {
        var below := matches[0].item.children;
        ResolvingAlong(casing, below, labels[1..]);
        forall i | 1 <= i < |labels| ensures MatchesOn(casing, level, labels, i) == MatchesOn(casing, below, labels[1..], i - 1) {
          MatchesStep(casing, level, labels, i);
        }
        assert forall i | 0 <= i < |labels| - 1 :: MatchesOn(casing, below, labels[1..], i) == MatchesOn(casing, level, labels, i + 1);
      }
    }
  }

  /** A label with several matches cannot be selected, nor one whose match is unusable; one without is taken as text. */
  predicate Selectable(casing: Casing, matches: seq<Entry>, last: bool) {
    |matches| <= 1 && (|matches| == 1 ==> Usable(casing, Some(matches[0].item), last))
  }

  ghost predicate SelectedBy(casing: Casing, text: string, matches: seq<Entry>, last: bool, s: Selector) {
    if |matches| == 1 then SelectorIs(casing, matches[0].key, matches[0].item, last, s)
    else s.kind == (if last then "menu_item" else "menu") && s.criteria == map["text" := text] && s.ordinal.None? && s.offset.None?
  }

  predicate Unselectable(casing: Casing, matches: seq<Entry>, last: bool, error: NavigationError) {
    if |matches| > 1 then error == Ambiguous else |matches| == 1 && Refused(casing, Some(matches[0].item), last, error)
  }

  /** Selecting by labels: recorded options by their items, options never recorded by their text. */
  lemma {:induction false} TextSelectorsAlong(casing: Casing, level: seq<Entry>, labels: seq<string>)
    ensures var r := TextSelectors(casing, level, labels);
      && (r.Success? <==> forall i | 0 <= i < |labels| :: Selectable(casing, MatchesOn(casing, level, labels, i), i == |labels| - 1))
      && (r.Success? ==> |r.value| == |labels|)
      && (r.Success? ==> forall i | 0 <= i < |labels| ::
            SelectedBy(casing, labels[i], MatchesOn(casing, level, labels, i), i == |labels| - 1, r.value[i]))
      && (r.Failure? ==> exists i | 0 <= i < |labels| ::
            Unselectable(casing, MatchesOn(casing, level, labels, i), i == |labels| - 1, r.error)
            && forall j | 0 <= j < i :: Selectable(casing, MatchesOn(casing, level, labels, j), false))
    decreases |labels|
  {
    hide Matches, MatchesOn, SelectedBy, Unselectable, Selectable;
    if labels != [] {
      var matches := Matches(casing, level, labels[0]);
      var below := if |matches| == 1 then matches[0].item.children else [];
      FirstMatches(casing, level, labels);
      TextSelectorHead(casing, labels[0], matches, |labels| == 1);
      TextSelectorsAlong(casing, below, labels[1..]);
      forall i | 1 <= i < |labels| ensures MatchesOn(casing, level, labels, i) == MatchesOn(casing, below, labels[1..], i - 1) {
        MatchesStep(casing, level, labels, i);
      }
      assert forall i | 0 <= i < |labels| - 1 :: MatchesOn(casing, below, labels[1..], i) == MatchesOn(casing, level, labels, i + 1);
    }
  }

  lemma TextSelectorHead(casing: Casing, text: string, matches: seq<Entry>, last: bool)
    ensures |matches| > 1 ==> Unselectable(casing, matches, last, Ambiguous) && !Selectable(casing, matches, last)
    ensures |matches| == 1 ==>
      var r := SelectorOf(casing, matches[0].key, matches[0].item, last);
      && (r.Success? <==> Selectable(casing, matches, last))
      && (r.Success? ==> SelectedBy(casing, text, matches, last, r.value))
      && (r.Failure? ==> Unselectable(casing, matches, last, r.error))
    ensures matches == [] ==> Selectable(casing, matches, last) && SelectedBy(casing, text, matches, last, TextSelector(text, last))
  {
    if |matches| == 1 {
      SelectorOfIs(casing, matches[0].key, matches[0].item, last);
    }
  }

  predicate AllBlank(s: string) {
    forall i | 0 <= i < |s| :: IsSpace(s[i])
  }

  /** A list of keys is accepted exactly when it is not empty, has no empty key, and leads along recorded items. */
  lemma {:induction false} DefinedAlong(level: seq<Entry>, path: seq<string>)
    ensures Defined(level, path) <==> forall i | 0 <= i < |path| :: ItemOn(level, path, i).Some?
    decreases |path|
  {
    hide Find, ItemOn;
    if path != [] {
      FirstStep(level, path);
      if Find(level, path[0]).Some? {
        var below := Find(level, path[0]).value.children;
        DefinedAlong(below, path[1..]);
        forall i | 1 <= i < |path| ensures ItemOn(level, path, i) == ItemOn(below, path[1..], i - 1) {
          LevelStep(level, path, i);
        }
        assert forall i | 0 <= i < |path| - 1 :: ItemOn(below, path[1..], i) == ItemOn(level, path, i + 1);
      }
    }
  }

  lemma PathAcceptedIff(tree: seq<Entry>, path: seq<string>)
    ensures var r := ResolvedPath(tree, path);
      && (r.Success? <==> path != [] && "" !in path && forall i | 0 <= i < |path| :: ItemOn(tree, path, i).Some?)
      && (r.Success? ==> r.value == path)
      && (r.Failure? ==> r.error == if path == [] || "" in path then BadSegments else Undefined)
  {
    DefinedAlong(tree, path);
  }

  /** Blank text and empty segments are refused before anything is looked up. */
  lemma TextRefusedFirst(casing: Casing, tree: seq<Entry>, text: string)
    ensures var (r, s) := (ResolvedText(casing, tree, text), SelectorsForText(casing, tree, text));
      && (r == Failure(Blank) <==> AllBlank(text)) && (s == Failure(Blank) <==> AllBlank(text))
      && (r == Failure(EmptySegment) <==> !AllBlank(text) && exists p | p in Split(text, '>') :: AllBlank(p))
      && (s == Failure(EmptySegment) <==> !AllBlank(text) && exists p | p in Split(text, '>') :: AllBlank(p))
  {
    hide Strip, Split, AllBlank, TextSelectors, ResolveLabels, Map;
    BlankIff(text);
    LookupErrors(casing, tree, SplitLabels(text));
    MappedContains(Split(text, '>'));
    forall p ensures Strip(p) == "" <==> AllBlank(p) {
      BlankIff(p);
    }
  }

  lemma LookupErrors(casing: Casing, tree: seq<Entry>, labels: seq<string>)
    ensures ResolveLabels(casing, tree, labels) != Failure(Blank) && ResolveLabels(casing, tree, labels) != Failure(EmptySegment)
    ensures TextSelectors(casing, tree, labels) != Failure(Blank) && TextSelectors(casing, tree, labels) != Failure(EmptySegment)
  {
    hide MatchesOn;
    ResolvingAlong(casing, tree, labels);
    TextSelectorsAlong(casing, tree, labels);
  }

  lemma {:induction false} MappedContains(pieces: seq<string>)
    ensures "" in Map(pieces, Strip) <==> exists p | p in pieces :: Strip(p) == ""
  {
    hide Strip;
    if pieces != [] {
      MappedContains(pieces[1..]);
      assert Map(pieces, Strip) == [Strip(pieces[0])] + Map(pieces[1..], Strip);
      assert pieces == [pieces[0]] + pieces[1..];
    }
  }

  lemma BlankIff(s: string)
    ensures Strip(s) == "" <==> AllBlank(s)
  {
    if i :| 0 <= i < |s| && !IsSpace(s[i]) {
      StripKeeps(s, i);
    } else {
      AllSpace(s);
    }
  }

  lemma {:induction false} AllSpace(s: string)
    requires AllBlank(s)
    ensures TrimLeft(s) == ""
  {
    if s != "" {
      AllSpace(s[1..]);
    }
  }
}
