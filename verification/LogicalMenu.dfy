/**
 Recording menu observations. An observed path of partial identities is inserted into the keyed tree of
 what was recorded before: matching items are updated, unknown ones get fresh keys.
 */
module LogicalMenu {
  import opened Outcomes
  import Text

  type Criteria = map<string, string>
  type Offset = (real, real, real)

  /** An observed item, in canonical form: criteria hold non-empty `id` and `text` only. */
  datatype Selector = Selector(kind: string, criteria: Criteria, ordinal: Option<int>, offset: Option<Offset>)

  /** An item as older recordings store it, nested under a `selector` field. */
  datatype Stored = Stored(criteria: Option<Criteria>, ordinal: Option<int>, offset: Option<Offset>)

  datatype Raw = Raw(
    kind: Option<string>,
    criteria: Option<Criteria>,
    displayName: Option<string>,
    selectable: Option<bool>,
    ordinal: Option<int>,
    offset: Option<Offset>,
    selector: Option<Stored>,
    others: map<string, string>,
    nested: Nested)

  datatype Nested = Leaf | Submenu(entries: seq<Entry>)

  datatype Entry = Entry(key: string, raw: Raw)

  /** How identities become keys, and which kinds are separators. */
  datatype Naming = Naming(slug: string -> string, separator: string -> bool)

  const EMPTY := Raw(None, None, None, None, None, None, None, map[], Leaf)

  function Kids(raw: Raw): seq<Entry> {
    if raw.nested.Submenu? then raw.nested.entries else []
  }

  // ----- normal form

  function Normalize(entries: seq<Entry>): (r: seq<Entry>)
    ensures |r| == |entries|
  {
    if entries == [] then []
    else
      var raw := entries[0].raw;
      var s := if raw.selector.Some? then raw.selector.value else Stored(None, None, None);
      var item := raw.(
        selector := None,
        criteria := if raw.criteria.None? then s.criteria else raw.criteria,
        ordinal := if raw.ordinal.None? then s.ordinal else raw.ordinal,
        offset := if raw.offset.None? then s.offset else raw.offset,
        nested := if raw.nested.Submenu? then Submenu(Normalize(raw.nested.entries)) else Leaf);
      [Entry(entries[0].key, item)] + Normalize(entries[1..])
  }

  /** No item on any level still has a nested selector. */
  predicate Normal(entries: seq<Entry>) {
    forall i | 0 <= i < |entries| ::
      entries[i].raw.selector.None? && (entries[i].raw.nested.Submenu? ==> Normal(entries[i].raw.nested.entries))
  }

  lemma {:induction false} NormalizeIsNormal(entries: seq<Entry>)
    ensures Normal(Normalize(entries))
  {
    if entries != [] {
      if entries[0].raw.nested.Submenu? {
        NormalizeIsNormal(entries[0].raw.nested.entries);
      }
      NormalizeIsNormal(entries[1..]);
    }
  }

  lemma {:induction false} NormalizeNormal(entries: seq<Entry>)
    requires Normal(entries)
    ensures Normalize(entries) == entries
  {
    if entries != [] {
      if entries[0].raw.nested.Submenu? {
        NormalizeNormal(entries[0].raw.nested.entries);
      }
      NormalizeNormal(entries[1..]);
      assert entries == [entries[0]] + entries[1..];
    }
  }

  // ----- identity

  function Field(criteria: Criteria, name: string): string {
    if name in criteria then criteria[name] else ""
  }

  /** `_criteria_match`: some shared identity field, and no conflicting one. */
  predicate CriteriaMatch(expected: Criteria, captured: Criteria) {
    var id := Field(expected, "id") != "" && Field(captured, "id") != "";
    var text := Field(expected, "text") != "" && Field(captured, "text") != "";
    && (id ==> Field(expected, "id") == Field(captured, "id"))
    && (text ==> Field(expected, "text") == Field(captured, "text"))
    && (id || text)
  }

  predicate Identifies(criteria: Criteria) {
    Field(criteria, "id") != "" || Field(criteria, "text") != ""
  }

  predicate MatchesAt(entries: seq<Entry>, i: nat, criteria: Criteria)
    requires i < |entries|
  {
    entries[i].raw.criteria.Some? && CriteriaMatch(entries[i].raw.criteria.value, criteria)
  }

  /** The first entry of a level that matches. */
  function MatchingIndex(entries: seq<Entry>, criteria: Criteria, from: nat := 0): (at: Option<nat>)
    requires from <= |entries|
    ensures at.Some? ==> from <= at.value < |entries| && MatchesAt(entries, at.value, criteria)
                         && forall i | from <= i < at.value :: !MatchesAt(entries, i, criteria)
    ensures at.None? ==> forall i | from <= i < |entries| :: !MatchesAt(entries, i, criteria)
    decreases |entries| - from
  {
    if from == |entries| then None
    else if MatchesAt(entries, from, criteria) then Some(from)
    else MatchingIndex(entries, criteria, from + 1)
  }

  function KeysOf(entries: seq<Entry>): set<string> {
    set e | e in entries :: e.key
  }

  function BaseKey(naming: Naming, selector: Selector, index: nat): string {
    var positional := "menu_" + Text.Decimal(index + 1);
    var id, text := Field(selector.criteria, "id"), Field(selector.criteria, "text");
    var slug := naming.slug(if id != "" then id else if text != "" then text else positional);
    if slug != "" then slug else positional
  }

  /** What recording an observation writes on an item. */
  function Stamped(naming: Naming, raw: Raw, selector: Selector): Raw {
    var text, id := Field(selector.criteria, "text"), Field(selector.criteria, "id");
    var caption := if text != "" then text else id;
    raw.(
      kind := Some(selector.kind),
      criteria := Some(selector.criteria),
      displayName := if raw.displayName.None? && caption != "" then Some(caption) else raw.displayName,
      selectable := if raw.selectable.None? then Some(!naming.separator(selector.kind)) else raw.selectable,
      ordinal := if selector.ordinal.Some? then selector.ordinal else raw.ordinal,
      offset := if selector.offset.Some? then selector.offset else raw.offset)
  }

  /** The selector a target keeps for an item on its path. */
  function Persisted(raw: Raw): Selector {
    Selector(if raw.kind.Some? then raw.kind.value else "", if raw.criteria.Some? then raw.criteria.value else map[], raw.ordinal, raw.offset)
  }

  datatype Staged = Staged(entries: seq<Entry>, path: seq<string>, selectors: seq<Selector>)

  /** Where an observed item belongs on a level: the slot, its key, and the item as recorded so far. */
  datatype Slot = Slot(level: seq<Entry>, at: nat, key: string, raw: Raw)

  function SlotFor(naming: Naming, entries: seq<Entry>, selector: Selector, index: nat): (slot: Slot)
    ensures slot.at < |slot.level| && slot.level[slot.at] == Entry(slot.key, slot.raw)
  {
    var at := MatchingIndex(entries, selector.criteria);
    if at.Some? then
      var raw := Stamped(naming, entries[at.value].raw, selector);
      Slot(entries[at.value := Entry(entries[at.value].key, raw)], at.value, entries[at.value].key, raw)
    else
      var key := Text.UniqueName(BaseKey(naming, selector, index), "_", KeysOf(entries));
      var raw := Stamped(naming, EMPTY, selector);
      Slot(entries + [Entry(key, raw)], |entries|, key, raw)
  }

  /** The level with the slot's item holding `children`. */
  function Filled(slot: Slot, children: seq<Entry>): seq<Entry>
    requires slot.at < |slot.level|
  {
    slot.level[slot.at := Entry(slot.key, slot.raw.(nested := Submenu(children)))]
  }

  /** The tree, the internal path and the selectors after recording a path of observations. */
  function Stage(naming: Naming, entries: seq<Entry>, selectors: seq<Selector>, index: nat): (r: Staged)
    ensures |r.path| == |selectors|
    decreases |selectors|
  {
    if selectors == [] then Staged(entries, [], [])
    else
      var slot := SlotFor(naming, entries, selectors[0], index);
      if |selectors| == 1 then Staged(slot.level, [slot.key], [Persisted(slot.raw)])
      else
        var rest := Stage(naming, Kids(slot.raw), selectors[1..], index + 1);
        Staged(Filled(slot, rest.entries), [slot.key] + rest.path, [Persisted(slot.raw)] + rest.selectors)
  }

  // ----- the loop

  /** The root, when the loop has descended through `frames` and stands on `current`. */
  function Plug(frames: seq<Slot>, current: seq<Entry>): seq<Entry>
    requires Slotted(frames)
  {
    if frames == [] then current
    else
      var last := frames[|frames| - 1];
      assert last in frames;
      Plug(frames[..|frames| - 1], Filled(last, current))
  }

  predicate Slotted(frames: seq<Slot>) {
    forall f | f in frames :: f.at < |f.level|
  }

  /** The final outcome, given what the levels below the current one contribute. */
  ghost function Overall(frames: seq<Slot>, path: seq<string>, persisted: seq<Selector>, rest: Staged): Staged
    requires Slotted(frames)
  {
    Staged(Plug(frames, rest.entries), path + rest.path, persisted + rest.selectors)
  }

  lemma OverallDescends(frames: seq<Slot>, path: seq<string>, persisted: seq<Selector>, slot: Slot, chosen: Selector, deeper: Staged)
    requires Slotted(frames) && slot.at < |slot.level|
    ensures Slotted(frames + [slot])
    ensures Overall(frames, path, persisted, Staged(Filled(slot, deeper.entries), [slot.key] + deeper.path, [chosen] + deeper.selectors))
              == Overall(frames + [slot], path + [slot.key], persisted + [chosen], deeper)
  {
    hide Filled;
    assert (frames + [slot])[..|frames|] == frames;
    assert path + ([slot.key] + deeper.path) == path + [slot.key] + deeper.path;
    assert persisted + ([chosen] + deeper.selectors) == persisted + [chosen] + deeper.selectors;
  }

  /** `_build_recorded_menu_path`, descending one level for each observation. */
  method BuildRecordedPath(naming: Naming, source: seq<Entry>, selectors: seq<Selector>) returns (r: Staged)
    requires selectors != []
    ensures r == Stage(naming, source, selectors, 0)
  {
    hide SlotFor, Filled, Persisted, Overall, Kids;
    var frames: seq<Slot> := [];
    var current := source;
    var path: seq<string> := [];
    var persisted: seq<Selector> := [];
    assert selectors[0..] == selectors;
    OverallAtRoot(Stage(naming, source, selectors, 0));
    var index := 0;
    while index < |selectors| - 1
      invariant index < |selectors| && Slotted(frames)
      invariant Overall(frames, path, persisted, Stage(naming, current, selectors[index..], index)) == Stage(naming, source, selectors, 0)
    {
      var slot := SlotFor(naming, current, selectors[index], index);
      assert selectors[index..][0] == selectors[index] && selectors[index..][1..] == selectors[index + 1..];
      OverallDescends(frames, path, persisted, slot, Persisted(slot.raw), Stage(naming, Kids(slot.raw), selectors[index + 1..], index + 1));
      frames := frames + [slot];
      path := path + [slot.key];
      persisted := persisted + [Persisted(slot.raw)];
      current := Kids(slot.raw);
      index := index + 1;
    }
    var slot := SlotFor(naming, current, selectors[index], index);
    assert selectors[index..] == [selectors[index]];
    r := Staged(Plug(frames, slot.level), path + [slot.key], persisted + [Persisted(slot.raw)]);
    OverallDefinition(frames, path, persisted, Staged(slot.level, [slot.key], [Persisted(slot.raw)]));
  }

  lemma OverallAtRoot(rest: Staged)
    ensures Overall([], [], [], rest) == rest
  {
    assert [] + rest.path == rest.path && [] + rest.selectors == rest.selectors;
  }

  lemma OverallDefinition(frames: seq<Slot>, path: seq<string>, persisted: seq<Selector>, rest: Staged)
    requires Slotted(frames)
    ensures Overall(frames, path, persisted, rest) == Staged(Plug(frames, rest.entries), path + rest.path, persisted + rest.selectors)
  {
  }

  // ----- paths in a tree

  predicate UniqueKeys(entries: seq<Entry>) {
    && (forall i, j | 0 <= i < j < |entries| :: entries[i].key != entries[j].key)
    && (forall i | 0 <= i < |entries| :: entries[i].raw.nested.Submenu? ==> UniqueKeys(entries[i].raw.nested.entries))
  }

  function IndexOf(entries: seq<Entry>, key: string): (at: Option<nat>)
    ensures at.Some? ==> at.value < |entries| && entries[at.value].key == key
    ensures at.None? <==> forall i | 0 <= i < |entries| :: entries[i].key != key
  {
    if entries == [] then None
    else if entries[0].key == key then Some(0)
    else
      var rest := IndexOf(entries[1..], key);
      if rest.None? then None else Some(rest.value + 1)
  }

  /** The item a key path leads to. */
  function At(entries: seq<Entry>, path: seq<string>): Option<Raw>
    decreases |path|
  {
    if path == [] then None
    else
      var at := IndexOf(entries, path[0]);
      if at.None? then None
      else if |path| == 1 then Some(entries[at.value].raw)
      else At(Kids(entries[at.value].raw), path[1..])
  }

  /** `logical_menu_target_is_persisted`, below the owner. */
  method TargetIsPersisted(entries: seq<Entry>, path: seq<string>) returns (ok: bool)
    ensures ok <==> path == [] || At(entries, path).Some?
  {
    var current := entries;
    for i := 0 to |path|
      invariant path != [] ==> (At(entries, path).Some? <==> i == |path| || At(current, path[i..]).Some?)
    {
      assert path[i..][0] == path[i] && path[i..][1..] == path[i + 1..];
      var at := IndexOf(current, path[i]);
      if at.None? {
        return false;
      }
      current := Kids(current[at.value].raw);
    }
    return true;
  }

  /** `_walk_subobjects`: the paths of the items that match, in preorder. */
  function Walk(entries: seq<Entry>, before: seq<string>, captured: Criteria): seq<seq<string>> {
    if entries == [] then []
    else
      var raw, here := entries[0].raw, before + [entries[0].key];
      (if raw.criteria.Some? && CriteriaMatch(raw.criteria.value, captured) then [here] else [])
      + (if raw.nested.Submenu? then Walk(raw.nested.entries, here, captured) else [])
      + Walk(entries[1..], before, captured)
  }

  ghost predicate IsMatch(entries: seq<Entry>, path: seq<string>, captured: Criteria) {
    var raw := At(entries, path);
    raw.Some? && raw.value.criteria.Some? && CriteriaMatch(raw.value.criteria.value, captured)
  }

  lemma AtSplit(entries: seq<Entry>, path: seq<string>)
    requires UniqueKeys(entries) && entries != [] && path != []
    ensures At(entries, path) ==
      if path[0] == entries[0].key then if |path| == 1 then Some(entries[0].raw) else At(Kids(entries[0].raw), path[1..])
      else At(entries[1..], path)
  {
    hide UniqueKeys, Kids;
    assert IndexOf(entries, path[0]) ==
      if entries[0].key == path[0] then Some(0)
      else if IndexOf(entries[1..], path[0]).None? then None else Some(IndexOf(entries[1..], path[0]).value + 1);
    hide IndexOf;
  }

  /** Every path of a walk extends the one it started with by a key of the level. */
  lemma {:induction false} WalkExtends(entries: seq<Entry>, before: seq<string>, captured: Criteria)
    ensures forall p | p in Walk(entries, before, captured) :: before < p && p[|before|] in KeysOf(entries)
    decreases entries
  {
    if entries != [] {
      var here := before + [entries[0].key];
      assert entries[0] in entries && forall e | e in entries[1..] :: e in entries;
      assert KeysOf(entries[1..]) <= KeysOf(entries) && entries[0].key in KeysOf(entries);
      WalkExtends(entries[1..], before, captured);
      if entries[0].raw.nested.Submenu? {
        WalkExtends(entries[0].raw.nested.entries, here, captured);
      }
    }
  }

  lemma WalkSplit(entries: seq<Entry>, before: seq<string>, captured: Criteria, p: seq<string>)
    requires entries != []
    ensures var raw, here := entries[0].raw, before + [entries[0].key];
      p in Walk(entries, before, captured) <==>
        || (p == here && raw.criteria.Some? && CriteriaMatch(raw.criteria.value, captured))
        || p in Walk(Kids(raw), here, captured)
        || p in Walk(entries[1..], before, captured)
  {
    hide CriteriaMatch;
  }

  /** A walk finds nothing under a key its level does not have, and nothing outside the item it started from. */
  lemma NotInWalk(entries: seq<Entry>, before: seq<string>, captured: Criteria, path: seq<string>)
    requires path == [] || path[0] !in KeysOf(entries)
    ensures before + path !in Walk(entries, before, captured)
  {
    hide KeysOf, Walk;
    WalkExtends(entries, before, captured);
    assert path != [] ==> (before + path)[|before|] == path[0];
  }

  lemma NotBelow(entries: seq<Entry>, before: seq<string>, key: string, captured: Criteria, path: seq<string>)
    requires path == [] || path[0] != key
    ensures before + path !in Walk(entries, before + [key], captured) && before + path != before + [key]
  {
    hide KeysOf, Walk;
    WalkExtends(entries, before + [key], captured);
    assert (before + [key])[|before|] == key;
    assert path != [] ==> (before + path)[|before|] == path[0];
  }

  /** The walk finds exactly the paths whose item matches. */
  lemma {:induction false} WalkFindsMatches(entries: seq<Entry>, before: seq<string>, captured: Criteria, path: seq<string>)
    requires UniqueKeys(entries)
    ensures before + path in Walk(entries, before, captured) <==> IsMatch(entries, path, captured)
    decreases entries
  {
    hide UniqueKeys, At, CriteriaMatch, KeysOf, Walk;
    if entries == [] {
      NothingAt(path);
      NotInWalk(entries, before, captured, path);
    } else if path == [] {
      NothingHere(entries);
      NotInWalk(entries, before, captured, path);
    } else {
      var raw, here := entries[0].raw, before + [entries[0].key];
      UniqueParts(entries);
      AtSplit(entries, path);
      WalkSplit(entries, before, captured, before + path);
      if path[0] == entries[0].key {
        NotInWalk(entries[1..], before, captured, path);
        assert before + path == here + path[1..];
        if raw.nested.Submenu? {
          WalkFindsMatches(raw.nested.entries, here, captured, path[1..]);
        } else {
          NothingAt(path[1..]);
          NotInWalk([], here, captured, path[1..]);
        }
        NothingHere(Kids(raw));
        assert before + path == here <==> |path| == 1;
      } else {
        NotBelow(Kids(raw), before, entries[0].key, captured, path);
        WalkFindsMatches(entries[1..], before, captured, path);
      }
    }
  }

  lemma UniqueParts(entries: seq<Entry>)
    requires UniqueKeys(entries) && entries != []
    ensures UniqueKeys(entries[1..]) && UniqueKeys(Kids(entries[0].raw)) && entries[0].key !in KeysOf(entries[1..])
  {
  }

  lemma NothingAt(path: seq<string>)
    ensures At([], path).None? && KeysOf([]) == {}
  {
  }

  lemma NothingHere(entries: seq<Entry>)
    ensures At(entries, []).None?
  {
  }

  // ----- what staging keeps

  lemma IndexOfUnique(entries: seq<Entry>, key: string, i: nat)
    requires UniqueKeys(entries) && i < |entries| && entries[i].key == key
    ensures IndexOf(entries, key) == Some(i)
  {
  }

  lemma KeyTaken(entries: seq<Entry>, key: string)
    ensures key in KeysOf(entries) <==> IndexOf(entries, key).Some?
  {
    if IndexOf(entries, key).Some? {
      assert entries[IndexOf(entries, key).value] in entries;
    }
  }

  /** A slot is the only change to its level: an updated item in place, or a new item under a fresh key at the end. */
  lemma SlotLookup(naming: Naming, entries: seq<Entry>, selector: Selector, index: nat)
    requires UniqueKeys(entries)
    ensures var slot := SlotFor(naming, entries, selector, index);
      && UniqueKeys(slot.level) && IndexOf(slot.level, slot.key) == Some(slot.at) && UniqueKeys(Kids(slot.raw))
      && (forall k | k != slot.key :: IndexOf(slot.level, k) == IndexOf(entries, k))
      && (forall j | 0 <= j < |entries| && j != slot.at :: slot.level[j] == entries[j])
      && (forall j | 0 <= j < |entries| && j < slot.at :: !MatchesAt(entries, j, selector.criteria))
      && if slot.at < |entries|
         then entries[slot.at].key == slot.key && slot.raw == Stamped(naming, entries[slot.at].raw, selector)
              && MatchesAt(entries, slot.at, selector.criteria) && |slot.level| == |entries|
         else IndexOf(entries, slot.key).None? && slot.raw == Stamped(naming, EMPTY, selector)
              && slot.at == |entries| && |slot.level| == |entries| + 1
  {
    hide BaseKey, Text.UniqueName, MatchesAt, Stamped, IndexOf;
    var slot := SlotFor(naming, entries, selector, index);
    StampedFacts(naming, if slot.at < |entries| then entries[slot.at].raw else EMPTY, selector);
    if slot.at == |entries| {
      Text.UniqueNameIsFree(BaseKey(naming, selector, index), "_", KeysOf(entries));
      KeyTaken(entries, slot.key);
    }
    assert UniqueKeys(slot.level);
    OthersStayPut(entries, slot.level, slot.at);
  }

  /** Where only one item of a level changes, or is added at the end, the other keys are where they were. */
  lemma OthersStayPut(entries: seq<Entry>, level: seq<Entry>, at: nat)
    requires UniqueKeys(level) && at < |level| && at <= |entries| && |level| == (if at < |entries| then |entries| else |entries| + 1)
    requires forall j | 0 <= j < |entries| && j != at :: level[j] == entries[j]
    requires at < |entries| ==> entries[at].key == level[at].key
    ensures IndexOf(level, level[at].key) == Some(at)
    ensures forall k | k != level[at].key :: IndexOf(level, k) == IndexOf(entries, k)
  {
    hide UniqueKeys;
    IndexOfUnique(level, level[at].key, at);
    forall k | k != level[at].key ensures IndexOf(level, k) == IndexOf(entries, k) {
      var i := IndexOf(entries, k);
      if i.Some? {
        IndexOfUnique(level, k, i.value);
      }
    }
  }

  lemma StampedFacts(naming: Naming, raw: Raw, selector: Selector)
    ensures var r := Stamped(naming, raw, selector);
      && r.criteria == Some(selector.criteria) && r.kind == Some(selector.kind)
      && r.others == raw.others && r.nested == raw.nested && r.selector == raw.selector
      && (raw.displayName.Some? ==> r.displayName == raw.displayName)
      && (raw.selectable.Some? ==> r.selectable == raw.selectable)
  {
  }

  /** One step of a lookup. */
  lemma AtStep(entries: seq<Entry>, path: seq<string>)
    requires path != []
    ensures IndexOf(entries, path[0]).None? ==> At(entries, path).None?
    ensures IndexOf(entries, path[0]).Some? ==>
      At(entries, path) == if |path| == 1 then Some(entries[IndexOf(entries, path[0]).value].raw)
                           else At(Kids(entries[IndexOf(entries, path[0]).value].raw), path[1..])
    ensures |path| > 1 ==> At([], path[1..]).None?
  {
  }

  lemma FilledLookup(slot: Slot, children: seq<Entry>)
    requires slot.at < |slot.level| && slot.level[slot.at] == Entry(slot.key, slot.raw)
    requires UniqueKeys(slot.level) && UniqueKeys(children)
    ensures UniqueKeys(Filled(slot, children))
    ensures forall k :: IndexOf(Filled(slot, children), k) == IndexOf(slot.level, k)
  {
    var filled := Filled(slot, children);
    assert UniqueKeys(filled);
    forall k ensures IndexOf(filled, k) == IndexOf(slot.level, k) {
      var i := IndexOf(slot.level, k);
      if i.Some? {
        IndexOfUnique(filled, k, i.value);
      }
    }
  }

  lemma {:induction false} StageKeepsUniqueKeys(naming: Naming, entries: seq<Entry>, selectors: seq<Selector>, index: nat)
    requires UniqueKeys(entries)
    ensures UniqueKeys(Stage(naming, entries, selectors, index).entries)
    decreases |selectors|
  {
    hide SlotFor, Filled, UniqueKeys;
    if selectors != [] {
      var slot := SlotFor(naming, entries, selectors[0], index);
      SlotLookup(naming, entries, selectors[0], index);
      if |selectors| > 1 {
        StageKeepsUniqueKeys(naming, Kids(slot.raw), selectors[1..], index + 1);
        FilledLookup(slot, Stage(naming, Kids(slot.raw), selectors[1..], index + 1).entries);
      }
    }
  }

  /** One level of a staged tree, looked up along a path. */
  lemma StageAt(naming: Naming, entries: seq<Entry>, selectors: seq<Selector>, index: nat, path: seq<string>)
    requires UniqueKeys(entries) && selectors != [] && path != []
    ensures var slot := SlotFor(naming, entries, selectors[0], index);
      var staged := Stage(naming, entries, selectors, index);
      var below := if |selectors| == 1 then Kids(slot.raw) else Stage(naming, Kids(slot.raw), selectors[1..], index + 1).entries;
      At(staged.entries, path) ==
        if path[0] != slot.key then At(entries, path)
        else if |path| > 1 then At(below, path[1..])
        else if |selectors| == 1 then Some(slot.raw)
        else Some(slot.raw.(nested := Submenu(below)))
  {
    hide SlotFor, UniqueKeys, MatchesAt;
    var slot := SlotFor(naming, entries, selectors[0], index);
    SlotLookup(naming, entries, selectors[0], index);
    if |selectors| > 1 {
      var below := Stage(naming, Kids(slot.raw), selectors[1..], index + 1).entries;
      StageKeepsUniqueKeys(naming, Kids(slot.raw), selectors[1..], index + 1);
      FilledLookup(slot, below);
    }
  }

  /** The staged path is there, and its last item carries the last observation's identity. */
  lemma {:induction false} StagedTargetIsThere(naming: Naming, entries: seq<Entry>, selectors: seq<Selector>, index: nat)
    requires UniqueKeys(entries) && selectors != []
    ensures var staged := Stage(naming, entries, selectors, index);
      && At(staged.entries, staged.path).Some?
      && At(staged.entries, staged.path).value.criteria == Some(selectors[|selectors| - 1].criteria)
      && At(staged.entries, staged.path).value.kind == Some(selectors[|selectors| - 1].kind)
    decreases |selectors|
  {
    hide SlotFor, UniqueKeys, At, Stamped, MatchesAt, IndexOf, Filled;
    var staged := Stage(naming, entries, selectors, index);
    var slot := SlotFor(naming, entries, selectors[0], index);
    SlotLookup(naming, entries, selectors[0], index);
    StampedFacts(naming, if slot.at < |entries| then entries[slot.at].raw else EMPTY, selectors[0]);
    StageAt(naming, entries, selectors, index, staged.path);
    if |selectors| > 1 {
      StagedTargetIsThere(naming, Kids(slot.raw), selectors[1..], index + 1);
      assert staged.path[1..] == Stage(naming, Kids(slot.raw), selectors[1..], index + 1).path;
    }
  }

  /** The walk for the terminal observation finds the staged target, whenever that observation identifies anything. */
  lemma StagedTargetIsFound(naming: Naming, entries: seq<Entry>, selectors: seq<Selector>)
    requires UniqueKeys(entries) && selectors != []
    ensures var staged := Stage(naming, entries, selectors, 0);
      var terminal := selectors[|selectors| - 1].criteria;
      staged.path in Walk(staged.entries, [], terminal) <==> Identifies(terminal)
  {
    hide UniqueKeys, Walk, At, Stage;
    var staged := Stage(naming, entries, selectors, 0);
    var terminal := selectors[|selectors| - 1].criteria;
    StageKeepsUniqueKeys(naming, entries, selectors, 0);
    StagedTargetIsThere(naming, entries, selectors, 0);
    WalkFindsMatches(staged.entries, [], terminal, staged.path);
    assert [] + staged.path == staged.path;
  }

  /** Everything off the staged path is exactly as it was, on every level. */
  lemma {:induction false} StageLeavesOthers(naming: Naming, entries: seq<Entry>, selectors: seq<Selector>, index: nat, path: seq<string>)
    requires UniqueKeys(entries) && path != [] && !(path <= Stage(naming, entries, selectors, index).path)
    ensures At(Stage(naming, entries, selectors, index).entries, path) == At(entries, path)
    decreases |selectors|
  {
    hide SlotFor, UniqueKeys, At, Stamped, MatchesAt, IndexOf, Filled;
    if selectors != [] {
      var staged := Stage(naming, entries, selectors, index);
      var slot := SlotFor(naming, entries, selectors[0], index);
      SlotLookup(naming, entries, selectors[0], index);
      StampedFacts(naming, if slot.at < |entries| then entries[slot.at].raw else EMPTY, selectors[0]);
      StageAt(naming, entries, selectors, index, path);
      AtStep(entries, path);
      if path[0] == slot.key {
        assert path == [slot.key] + path[1..];
        assert |path| > 1;
        if |selectors| > 1 {
          StageLeavesOthers(naming, Kids(slot.raw), selectors[1..], index + 1, path[1..]);
        }
        if slot.at < |entries| {
          IndexOfSlot(entries, slot);
        }
      }
    }
  }

  lemma IndexOfSlot(entries: seq<Entry>, slot: Slot)
    requires UniqueKeys(entries) && slot.at < |entries| && entries[slot.at].key == slot.key
    ensures IndexOf(entries, slot.key) == Some(slot.at)
  {
    IndexOfUnique(entries, slot.key, slot.at);
  }

  /** What an observation leaves of an item: its identity is replaced, and the rest kept or completed. */
  ghost predicate Overwritten(before: Option<Raw>, after: Option<Raw>, criteria: Criteria) {
    && after.Some? && after.value.criteria == Some(criteria)
    && (before.Some? ==>
          && before.value.criteria.Some? && CriteriaMatch(before.value.criteria.value, criteria)
          && after.value.others == before.value.others
          && (before.value.displayName.Some? ==> after.value.displayName == before.value.displayName)
          && (before.value.selectable.Some? ==> after.value.selectable == before.value.selectable))
  }

  lemma HeadOverwritten(naming: Naming, entries: seq<Entry>, selectors: seq<Selector>, index: nat)
    requires UniqueKeys(entries) && selectors != []
    ensures var staged := Stage(naming, entries, selectors, index);
      Overwritten(At(entries, staged.path[..1]), At(staged.entries, staged.path[..1]), selectors[0].criteria)
  {
    hide SlotFor, UniqueKeys, At, Stamped, IndexOf, Filled;
    var slot := SlotFor(naming, entries, selectors[0], index);
    var path := Stage(naming, entries, selectors, index).path[..1];
    SlotLookup(naming, entries, selectors[0], index);
    StampedFacts(naming, if slot.at < |entries| then entries[slot.at].raw else EMPTY, selectors[0]);
    assert path == [slot.key];
    StageAt(naming, entries, selectors, index, path);
    AtStep(entries, path);
    if slot.at < |entries| {
      IndexOfSlot(entries, slot);
    }
  }

  /** Below the slot, a path leads into the slot's item before, and into what was staged there after. */
  lemma BelowSlot(naming: Naming, entries: seq<Entry>, selectors: seq<Selector>, index: nat, path: seq<string>)
    requires UniqueKeys(entries) && |selectors| > 1 && |path| > 1
    requires path[0] == SlotFor(naming, entries, selectors[0], index).key
    ensures var slot := SlotFor(naming, entries, selectors[0], index);
      && At(entries, path) == At(Kids(slot.raw), path[1..])
      && At(Stage(naming, entries, selectors, index).entries, path)
           == At(Stage(naming, Kids(slot.raw), selectors[1..], index + 1).entries, path[1..])
  {
    hide SlotFor, UniqueKeys, At, Stamped, IndexOf, Filled;
    var slot := SlotFor(naming, entries, selectors[0], index);
    SlotLookup(naming, entries, selectors[0], index);
    StampedFacts(naming, if slot.at < |entries| then entries[slot.at].raw else EMPTY, selectors[0]);
    StageAt(naming, entries, selectors, index, path);
    AtStep(entries, path);
    if slot.at < |entries| {
      IndexOfSlot(entries, slot);
    }
  }

  /**
   An item on the staged path that was there before matched the observation, so no shared identity field
   conflicted; its recorded identity is replaced by the observed one, it keeps its other fields, and gets a
   display name only if it had none.
   */
  lemma {:induction false} StageUpdatesOnlyMatches(naming: Naming, entries: seq<Entry>, selectors: seq<Selector>, index: nat, k: nat)
    requires UniqueKeys(entries) && k < |selectors|
    ensures var staged := Stage(naming, entries, selectors, index);
      Overwritten(At(entries, staged.path[..k + 1]), At(staged.entries, staged.path[..k + 1]), selectors[k].criteria)
    decreases |selectors|
  {
    hide SlotFor, UniqueKeys, At, Overwritten, Filled, IndexOf, Stamped, MatchesAt, Kids;
    if k == 0 {
      HeadOverwritten(naming, entries, selectors, index);
    } else {
      var path := Stage(naming, entries, selectors, index).path[..k + 1];
      var slot := SlotFor(naming, entries, selectors[0], index);
      SlotLookup(naming, entries, selectors[0], index);
      BelowSlot(naming, entries, selectors, index, path);
      StageUpdatesOnlyMatches(naming, Kids(slot.raw), selectors[1..], index + 1, k - 1);
      assert path[1..] == Stage(naming, Kids(slot.raw), selectors[1..], index + 1).path[..k];
    }
  }

  /** No recorded item disappears, on any level. */
  lemma StageRemovesNothing(naming: Naming, entries: seq<Entry>, selectors: seq<Selector>, path: seq<string>)
    requires UniqueKeys(entries) && At(entries, path).Some?
    ensures At(Stage(naming, entries, selectors, 0).entries, path).Some?
  {
    hide Stage, At, UniqueKeys;
    var staged := Stage(naming, entries, selectors, 0);
    NothingHere(entries);
    if path <= staged.path {
      StageUpdatesOnlyMatches(naming, entries, selectors, 0, |path| - 1);
      assert staged.path[..|path|] == path;
    } else {
      StageLeavesOthers(naming, entries, selectors, 0, path);
    }
  }

  lemma FilledIsNormal(slot: Slot, children: seq<Entry>)
    requires slot.at < |slot.level| && Normal(slot.level) && slot.raw.selector.None? && Normal(children)
    ensures Normal(Filled(slot, children))
  {
  }

  lemma SlotIsNormal(naming: Naming, entries: seq<Entry>, selector: Selector, index: nat)
    requires Normal(entries)
    ensures var slot := SlotFor(naming, entries, selector, index);
      slot.raw.selector.None? && Normal(Kids(slot.raw)) && Normal(slot.level)
  {
    hide BaseKey, Text.UniqueName, MatchesAt;
  }

  lemma {:induction false} StageKeepsNormal(naming: Naming, entries: seq<Entry>, selectors: seq<Selector>, index: nat)
    requires Normal(entries)
    ensures Normal(Stage(naming, entries, selectors, index).entries)
    decreases |selectors|
  {
    hide SlotFor, Normal, Filled;
    if selectors != [] {
      var slot := SlotFor(naming, entries, selectors[0], index);
      SlotIsNormal(naming, entries, selectors[0], index);
      if |selectors| > 1 {
        var rest := Stage(naming, Kids(slot.raw), selectors[1..], index + 1);
        StageKeepsNormal(naming, Kids(slot.raw), selectors[1..], index + 1);
        FilledIsNormal(slot, rest.entries);
      }
    }
  }

  // ----- what a run of stagings keeps of an identity

  const IDENTITY := {"id", "text"}

  /** The recorded identity of an item; none counts as empty. */
  function IdentityOf(item: Option<Raw>): Criteria {
    if item.Some? && item.value.criteria.Some? then item.value.criteria.value else map[]
  }

  /** Some identity field is recorded differently. */
  predicate Conflicts(a: Criteria, b: Criteria) {
    exists f | f in IDENTITY :: Field(a, f) != "" && Field(b, f) != "" && Field(a, f) != Field(b, f)
  }

  /** Every identity field of `before` is in `after`, unchanged. */
  predicate Retains(before: Criteria, after: Criteria) {
    forall f | f in IDENTITY && Field(before, f) != "" :: Field(after, f) == Field(before, f)
  }

  /** The observation has every identity field that is recorded. */
  predicate Covers(observed: Criteria, recorded: Criteria) {
    forall f | f in IDENTITY && Field(recorded, f) != "" :: Field(observed, f) != ""
  }

  /**
   Overwriting an item is safe for good exactly when the observation has every identity field the item had.
   Otherwise some later observation matches what is left and conflicts with what was first recorded.
   */
  lemma SafeIffCovered(recorded: Criteria, observed: Criteria)
    requires CriteriaMatch(recorded, observed)
    ensures Covers(observed, recorded) <==> Retains(recorded, observed)
    ensures Covers(observed, recorded) <==> forall later | CriteriaMatch(observed, later) :: !Conflicts(recorded, later)
  {
    if f :| f in IDENTITY && Field(recorded, f) != "" && Field(observed, f) == "" {
      var g := if f == "id" then "text" else "id";
      var later: Criteria := map[f := Field(recorded, f) + "*", g := Field(observed, g)];
      assert Field(later, f) != Field(recorded, f) by {
        assert |Field(later, f)| == |Field(recorded, f)| + 1;
      }
      assert CriteriaMatch(observed, later) && Conflicts(recorded, later);
    }
  }

  /** Level by level, each observation covers the recorded item it matches first; below a new item there is nothing to cover. */
  predicate Covering(entries: seq<Entry>, selectors: seq<Selector>)
    decreases |selectors|
  {
    selectors != [] ==>
      var at := MatchingIndex(entries, selectors[0].criteria);
      at.Some? ==>
        && Covers(selectors[0].criteria, entries[at.value].raw.criteria.value)
        && Covering(Kids(entries[at.value].raw), selectors[1..])
  }

  /** The same for one level, read off the path that staging takes. */
  ghost predicate CoveredAt(naming: Naming, entries: seq<Entry>, selectors: seq<Selector>, index: nat, k: nat)
    requires k < |selectors|
  {
    Covers(selectors[k].criteria, IdentityOf(At(entries, Stage(naming, entries, selectors, index).path[..k + 1])))
  }

  ghost predicate CoveringPath(naming: Naming, entries: seq<Entry>, selectors: seq<Selector>, index: nat) {
    forall k | 0 <= k < |selectors| :: CoveredAt(naming, entries, selectors, index, k)
  }

  lemma SlotMatches(naming: Naming, entries: seq<Entry>, selector: Selector, index: nat)
    requires UniqueKeys(entries)
    ensures var slot, at := SlotFor(naming, entries, selector, index), MatchingIndex(entries, selector.criteria);
      && UniqueKeys(Kids(slot.raw))
      && (at.Some? ==> At(entries, [slot.key]) == Some(entries[at.value].raw) && Kids(slot.raw) == Kids(entries[at.value].raw))
      && (at.None? ==> At(entries, [slot.key]) == None && Kids(slot.raw) == [])
  {
    hide BaseKey, Text.UniqueName, MatchesAt, UniqueKeys;
    var slot := SlotFor(naming, entries, selector, index);
    SlotLookup(naming, entries, selector, index);
    AtStep(entries, [slot.key]);
    if slot.at < |entries| {
      IndexOfSlot(entries, slot);
    }
  }

  lemma NothingCovered(naming: Naming, selectors: seq<Selector>, index: nat)
    ensures CoveringPath(naming, [], selectors, index) && Covering([], selectors)
  {
    forall k | 0 <= k < |selectors| ensures CoveredAt(naming, [], selectors, index, k) {
      AtStep([], Stage(naming, [], selectors, index).path[..k + 1]);
      CoversNothing(selectors[k].criteria);
    }
  }

  lemma {:induction false} CoveringIsOnPath(naming: Naming, entries: seq<Entry>, selectors: seq<Selector>, index: nat)
    requires UniqueKeys(entries)
    ensures Covering(entries, selectors) <==> CoveringPath(naming, entries, selectors, index)
    decreases |selectors|
  {
    hide UniqueKeys, At, SlotFor, Covers, Filled, CoveringPath;
    if selectors != [] {
      var slot := SlotFor(naming, entries, selectors[0], index);
      SlotMatches(naming, entries, selectors[0], index);
      CoveringIsOnPath(naming, Kids(slot.raw), selectors[1..], index + 1);
      NothingCovered(naming, selectors[1..], index + 1);
      PathBelow(naming, entries, selectors, index);
      CoversNothing(selectors[0].criteria);
      var at := MatchingIndex(entries, selectors[0].criteria);
      if at.Some? {
        assert MatchesAt(entries, at.value, selectors[0].criteria);
        assert IdentityOf(At(entries, [slot.key])) == entries[at.value].raw.criteria.value;
      } else {
        assert IdentityOf(At(entries, [slot.key])) == map[];
      }
    } else {
      assert CoveringPath(naming, entries, selectors, index) by { NothingObserved(naming, entries, index); }
    }
  }

  lemma NothingObserved(naming: Naming, entries: seq<Entry>, index: nat)
    ensures CoveringPath(naming, entries, [], index)
  {
  }

  lemma CoversNothing(observed: Criteria)
    ensures Covers(observed, map[])
  {
  }

  /** The first item on a staged path, and the path below it. */
  lemma PathBelow(naming: Naming, entries: seq<Entry>, selectors: seq<Selector>, index: nat)
    requires UniqueKeys(entries) && selectors != []
    ensures var slot := SlotFor(naming, entries, selectors[0], index);
      CoveringPath(naming, entries, selectors, index) <==>
        Covers(selectors[0].criteria, IdentityOf(At(entries, [slot.key]))) && CoveringPath(naming, Kids(slot.raw), selectors[1..], index + 1)
  {
    hide UniqueKeys, At, SlotFor, Covers, Filled, IdentityOf;
    var slot := SlotFor(naming, entries, selectors[0], index);
    var path, below := Stage(naming, entries, selectors, index).path, Stage(naming, Kids(slot.raw), selectors[1..], index + 1).path;
    assert path == [slot.key] + below;
    assert path[..0 + 1] == [slot.key];
    var rest := selectors[1..];
    forall k | 0 < k < |selectors|
      ensures CoveredAt(naming, entries, selectors, index, k) <==> CoveredAt(naming, Kids(slot.raw), rest, index + 1, k - 1)
    {
      assert path[..k + 1][1..] == below[..k];
      BelowSlot(naming, entries, selectors, index, path[..k + 1]);
    }
    hide CoveredAt;
    assert CoveredAt(naming, entries, selectors, index, 0) <==> Covers(selectors[0].criteria, IdentityOf(At(entries, [slot.key]))) by {
      CoveredAtHead(naming, entries, selectors, index);
    }
    var next := index + 1;
    if CoveringPath(naming, entries, selectors, index) {
      forall k | 0 <= k < |rest| ensures CoveredAt(naming, Kids(slot.raw), rest, next, k) {
        assert CoveredAt(naming, entries, selectors, index, k + 1);
      }
    }
    if CoveredAt(naming, entries, selectors, index, 0) && CoveringPath(naming, Kids(slot.raw), rest, index + 1) {
      forall k | 0 <= k < |selectors| ensures CoveredAt(naming, entries, selectors, index, k) {
        if k > 0 { assert CoveredAt(naming, Kids(slot.raw), rest, index + 1, k - 1); }
      }
    }
  }

  lemma CoveredAtHead(naming: Naming, entries: seq<Entry>, selectors: seq<Selector>, index: nat)
    requires selectors != []
    ensures CoveredAt(naming, entries, selectors, index, 0) <==>
      Covers(selectors[0].criteria, IdentityOf(At(entries, [SlotFor(naming, entries, selectors[0], index).key])))
  {
    hide At, SlotFor, Covers, Filled;
    assert Stage(naming, entries, selectors, index).path[..0 + 1] == [SlotFor(naming, entries, selectors[0], index).key];
  }

  /** Every item is still there with the identity it had. */
  ghost predicate KeepsIdentities(before: seq<Entry>, after: seq<Entry>) {
    forall path | At(before, path).Some? :: At(after, path).Some? && Retains(IdentityOf(At(before, path)), IdentityOf(At(after, path)))
  }

  /** Staging loses no recorded identity field, at any depth, exactly when its observations cover what they overwrite. */
  lemma StageKeepsIdentitiesIffCovering(naming: Naming, entries: seq<Entry>, selectors: seq<Selector>)
    requires UniqueKeys(entries)
    ensures KeepsIdentities(entries, Stage(naming, entries, selectors, 0).entries) <==> Covering(entries, selectors)
  {
    hide UniqueKeys, Stage, At, Retains, Covers, CriteriaMatch, Covering;
    CoveringIsOnPath(naming, entries, selectors, 0);
    var staged := Stage(naming, entries, selectors, 0);
    if Covering(entries, selectors) {
      forall path | At(entries, path).Some?
        ensures At(staged.entries, path).Some? && Retains(IdentityOf(At(entries, path)), IdentityOf(At(staged.entries, path)))
      {
        StageRemovesNothing(naming, entries, selectors, path);
        PathNotEmpty(entries, path);
        if path <= staged.path {
          assert staged.path[..|path| - 1 + 1] == path;
          assert CoveredAt(naming, entries, selectors, 0, |path| - 1);
          OverwrittenAt(naming, entries, selectors, |path| - 1);
        } else {
          StageLeavesOthers(naming, entries, selectors, 0, path);
          RetainsItself(IdentityOf(At(entries, path)));
        }
      }
    }
    if KeepsIdentities(entries, staged.entries) {
      forall k | 0 <= k < |selectors| ensures CoveredAt(naming, entries, selectors, 0, k) {
        OverwrittenAt(naming, entries, selectors, k);
      }
    }
  }

  lemma PathNotEmpty(entries: seq<Entry>, path: seq<string>)
    requires At(entries, path).Some?
    ensures path != []
  {
  }

  lemma RetainsItself(criteria: Criteria)
    ensures Retains(criteria, criteria)
  {
  }

  /** One item on the staged path: what is retained of it, if it was there. */
  lemma OverwrittenAt(naming: Naming, entries: seq<Entry>, selectors: seq<Selector>, k: nat)
    requires UniqueKeys(entries) && k < |selectors|
    ensures var staged := Stage(naming, entries, selectors, 0);
      var before, after := At(entries, staged.path[..k + 1]), At(staged.entries, staged.path[..k + 1]);
      && IdentityOf(after) == selectors[k].criteria
      && (before.None? ==> Covers(selectors[k].criteria, IdentityOf(before)))
      && (before.Some? ==> (Covers(selectors[k].criteria, IdentityOf(before)) <==> Retains(IdentityOf(before), IdentityOf(after))))
  {
    hide UniqueKeys, Stage, At, CriteriaMatch, Retains;
    var staged := Stage(naming, entries, selectors, 0);
    var before := At(entries, staged.path[..k + 1]);
    StageUpdatesOnlyMatches(naming, entries, selectors, 0, k);
    if before.Some? {
      SafeIffCovered(IdentityOf(before), selectors[k].criteria);
    }
  }

  /** The tree after staging the paths one after another. */
  function StageRun(naming: Naming, entries: seq<Entry>, run: seq<seq<Selector>>): seq<Entry> {
    if run == [] then entries
    else Stage(naming, StageRun(naming, entries, run[..|run| - 1]), run[|run| - 1], 0).entries
  }

  ghost predicate CoveringRun(naming: Naming, entries: seq<Entry>, run: seq<seq<Selector>>) {
    forall i | 0 <= i < |run| :: Covering(StageRun(naming, entries, run[..i]), run[i])
  }

  lemma {:induction false} RunKeepsUniqueKeys(naming: Naming, entries: seq<Entry>, run: seq<seq<Selector>>)
    requires UniqueKeys(entries)
    ensures UniqueKeys(StageRun(naming, entries, run))
    decreases |run|
  {
    hide UniqueKeys;
    if run != [] {
      RunKeepsUniqueKeys(naming, entries, run[..|run| - 1]);
      StageKeepsUniqueKeys(naming, StageRun(naming, entries, run[..|run| - 1]), run[|run| - 1], 0);
    }
  }

  lemma KeepsIdentitiesTransitive(a: seq<Entry>, b: seq<Entry>, c: seq<Entry>)
    requires KeepsIdentities(a, b) && KeepsIdentities(b, c)
    ensures KeepsIdentities(a, c)
  {
    hide At;
  }

  lemma KeepsItself(entries: seq<Entry>)
    ensures KeepsIdentities(entries, entries)
  {
    hide At;
  }

  /** Over a covering run no item ever loses or changes an identity field, from any point of the run to any later one. */
  lemma {:induction false} CoveringRunKeepsIdentities(naming: Naming, entries: seq<Entry>, run: seq<seq<Selector>>, i: nat, j: nat)
    requires UniqueKeys(entries) && CoveringRun(naming, entries, run) && i <= j <= |run|
    ensures KeepsIdentities(StageRun(naming, entries, run[..i]), StageRun(naming, entries, run[..j]))
    decreases j
  {
    hide UniqueKeys, KeepsIdentities, Covering;
    if i == j {
      KeepsItself(StageRun(naming, entries, run[..i]));
    } else {
      CoveringRunKeepsIdentities(naming, entries, run, i, j - 1);
      RunKeepsUniqueKeys(naming, entries, run[..j - 1]);
      StageKeepsIdentitiesIffCovering(naming, StageRun(naming, entries, run[..j - 1]), run[j - 1]);
      assert run[..j][..j - 1] == run[..j - 1];
      KeepsIdentitiesTransitive(StageRun(naming, entries, run[..i]), StageRun(naming, entries, run[..j - 1]), StageRun(naming, entries, run[..j]));
    }
  }

  /** So an observation that overwrites an item during such a run conflicts with nothing recorded for it at any earlier point. */
  lemma CoveringRunOverwritesNoConflict(naming: Naming, entries: seq<Entry>, run: seq<seq<Selector>>, i: nat, j: nat, k: nat)
    requires UniqueKeys(entries) && CoveringRun(naming, entries, run) && i <= j < |run| && k < |run[j]|
    ensures var path := Stage(naming, StageRun(naming, entries, run[..j]), run[j], 0).path[..k + 1];
      At(StageRun(naming, entries, run[..i]), path).Some? ==>
        !Conflicts(IdentityOf(At(StageRun(naming, entries, run[..i]), path)), run[j][k].criteria)
  {
    hide UniqueKeys, Stage, At, StageRun;
    var first, now := StageRun(naming, entries, run[..i]), StageRun(naming, entries, run[..j]);
    var path := Stage(naming, now, run[j], 0).path[..k + 1];
    CoveringRunKeepsIdentities(naming, entries, run, i, j);
    RunKeepsUniqueKeys(naming, entries, run[..j]);
    StageUpdatesOnlyMatches(naming, now, run[j], 0, k);
  }

  lemma StageOnto(naming: Naming, entry: Entry, selector: Selector)
    requires MatchesAt([entry], 0, selector.criteria)
    ensures var staged := Stage(naming, [entry], [selector], 0);
      staged.entries == [Entry(entry.key, Stamped(naming, entry.raw, selector))] && staged.path == [entry.key]
  {
    assert MatchingIndex([entry], selector.criteria) == Some(0);
  }

  const OPEN: Criteria := map["id" := "a", "text" := "Open"]
  const BY_ID: Criteria := map["id" := "a"]
  const SAVE: Criteria := map["id" := "a", "text" := "Save"]

  function Observing(criteria: Criteria): seq<Selector> {
    [Selector("menu_item", criteria, None, None)]
  }

  lemma OpenSaved()
    ensures CriteriaMatch(OPEN, BY_ID) && CriteriaMatch(BY_ID, SAVE) && Conflicts(OPEN, SAVE) && !Covers(BY_ID, OPEN)
  {
    assert "text" in IDENTITY;
  }

  /** An uncovering staging, and the conflict it lets in: "Open" loses its text to an observation by id, then its place to "Save". */
  lemma ErasedTextOverwritten(naming: Naming)
    ensures var entries := [Entry("a", EMPTY.(criteria := Some(OPEN)))];
      var run := [Observing(BY_ID), Observing(SAVE)];
      var after := StageRun(naming, entries, run);
      && !CoveringRun(naming, entries, run) && Conflicts(OPEN, SAVE)
      && |after| == 1 && after[0].key == "a" && after[0].raw.criteria == Some(SAVE)
  {
    hide CriteriaMatch, Conflicts, Covers, Stamped, Stage;
    var entries := [Entry("a", EMPTY.(criteria := Some(OPEN)))];
    var run := [Observing(BY_ID), Observing(SAVE)];
    OpenSaved();
    StageOnto(naming, entries[0], run[0][0]);
    StampedFacts(naming, entries[0].raw, run[0][0]);
    var middle := Stage(naming, entries, run[0], 0).entries;
    StageOnto(naming, middle[0], run[1][0]);
    StampedFacts(naming, middle[0].raw, run[1][0]);
    assert run[..2] == run && run[..1] == [run[0]] && run[..1][..0] == [];
    assert StageRun(naming, entries, run[..0]) == entries && StageRun(naming, entries, run[..1]) == middle;
    assert MatchingIndex(entries, BY_ID) == Some(0);
    assert !Covering(entries, run[0]);
  }

  // ----- staging again

  /** On a staged level the same observation finds the same slot, when it identifies anything. */
  lemma SameSlotAgain(naming: Naming, entries: seq<Entry>, selector: Selector, index: nat, nested: Nested)
    requires UniqueKeys(entries)
    ensures var slot := SlotFor(naming, entries, selector, index);
      var again := slot.level[slot.at := Entry(slot.key, slot.raw.(nested := nested))];
      && (Identifies(selector.criteria) ==>
            SlotFor(naming, again, selector, index) == Slot(again, slot.at, slot.key, slot.raw.(nested := nested)))
      && (!Identifies(selector.criteria) ==> |SlotFor(naming, again, selector, index).level| == |again| + 1)
  {
    hide BaseKey, Text.UniqueName, IndexOf;
    var slot := SlotFor(naming, entries, selector, index);
    var again := slot.level[slot.at := Entry(slot.key, slot.raw.(nested := nested))];
    SlotLookup(naming, entries, selector, index);
    hide UniqueKeys;
    if Identifies(selector.criteria) {
      assert MatchesAt(again, slot.at, selector.criteria);
      forall i | 0 <= i < slot.at ensures !MatchesAt(again, i, selector.criteria) {
        assert again[i] == entries[i] && !MatchesAt(entries, i, selector.criteria);
      }
      assert MatchingIndex(again, selector.criteria) == Some(slot.at);
      assert Stamped(naming, slot.raw.(nested := nested), selector) == slot.raw.(nested := nested);
    }
  }

  predicate AllIdentify(selectors: seq<Selector>) {
    forall s | s in selectors :: Identifies(s.criteria)
  }

  /**
   Staging the same observations again changes nothing exactly when each of them has an id or a text;
   an observation known only by its position gets a new key every time.
   */
  lemma {:induction false} StagingAgain(naming: Naming, entries: seq<Entry>, selectors: seq<Selector>, index: nat)
    requires UniqueKeys(entries)
    ensures var staged := Stage(naming, entries, selectors, index);
      && (Stage(naming, staged.entries, selectors, index).entries == staged.entries <==> AllIdentify(selectors))
      && (AllIdentify(selectors) ==> Stage(naming, staged.entries, selectors, index) == staged)
    decreases |selectors|
  {
    hide SlotFor, UniqueKeys, MatchesAt, Identifies, Stamped;
    if selectors != [] {
      var slot := SlotFor(naming, entries, selectors[0], index);
      SlotLookup(naming, entries, selectors[0], index);
      assert selectors == [selectors[0]] + selectors[1..];
      if |selectors| == 1 {
        SameSlotAgain(naming, entries, selectors[0], index, slot.raw.nested);
        assert slot.level[slot.at := Entry(slot.key, slot.raw)] == slot.level;
      } else {
        var deeper := Stage(naming, Kids(slot.raw), selectors[1..], index + 1);
        StagingAgain(naming, Kids(slot.raw), selectors[1..], index + 1);
        SameSlotAgain(naming, entries, selectors[0], index, Submenu(deeper.entries));
        StagedLevelAgain(naming, slot, deeper.entries, selectors, index);
      }
    }
  }

  lemma StagedLevelAgain(naming: Naming, slot: Slot, children: seq<Entry>, selectors: seq<Selector>, index: nat)
    requires slot.at < |slot.level| && slot.level[slot.at] == Entry(slot.key, slot.raw) && |selectors| > 1
    requires var again := Filled(slot, children);
      var raw := slot.raw.(nested := Submenu(children));
      && (Identifies(selectors[0].criteria) ==> SlotFor(naming, again, selectors[0], index) == Slot(again, slot.at, slot.key, raw))
      && (!Identifies(selectors[0].criteria) ==> |SlotFor(naming, again, selectors[0], index).level| == |again| + 1)
    ensures var again := Filled(slot, children);
      var deeper := Stage(naming, children, selectors[1..], index + 1);
      var staged := Stage(naming, again, selectors, index);
      && (staged.entries == again <==> Identifies(selectors[0].criteria) && deeper.entries == children)
      && (Identifies(selectors[0].criteria) && deeper.entries == children ==>
            staged == Staged(again, [slot.key] + deeper.path, [Persisted(slot.raw)] + deeper.selectors))
  {
    hide SlotFor, Identifies;
    var again := Filled(slot, children);
    var staged := Stage(naming, again, selectors, index);
    if Identifies(selectors[0].criteria) {
      var deeper := Stage(naming, children, selectors[1..], index + 1);
      assert staged.entries[slot.at].raw.nested == Submenu(deeper.entries);
      assert again[slot.at].raw.nested == Submenu(children);
    }
  }

  // ----- one accepted observation

  /** An observed path element before it is put in canonical form. Empty text stands for a missing field. */
  datatype Observed = Observed(kind: string, criteria: Criteria, ordinal: Option<int>, offset: Option<Offset>)

  function CanonicalSelector(o: Observed): Selector {
    Selector(Text.Underscored(if o.kind == "" then "menu_item" else o.kind),
             map k | k in o.criteria && k in {"id", "text"} && o.criteria[k] != "" :: o.criteria[k], o.ordinal, o.offset)
  }

  predicate Informative(s: Selector) {
    s.criteria != map[] || s.ordinal.Some? || s.offset.Some?
  }

  /** The selectors of a path: canonical, informative, and without a leading one that is the owner itself. */
  function PathSelectors(path: seq<Observed>, owner: Option<Selector>): seq<Selector> {
    var all := Filter(Map(path, CanonicalSelector), Informative);
    if owner.Some? && all != [] && CriteriaMatch(all[0].criteria, owner.value.criteria) then all[1..] else all
  }

  datatype Owner = Owner(subobjects: seq<Entry>, properties: map<string, string>, revision: int)

  datatype Recorded = Recorded(owner: Owner, target: Option<(seq<string>, seq<Selector>)>, changed: bool)

  const PARTIAL: map<string, string> := map["menu_inventory_status" := "partial", "menu_inventory_dynamic" := "true"]

  /** `stage_recorded_menu_capture` once the one matching owner is known. */
  function Record(naming: Naming, owner: Owner, path: seq<Observed>, ownerSelector: Option<Selector>): Recorded {
    var selectors := PathSelectors(path, ownerSelector);
    var before := Normalize(owner.subobjects);
    var staged := Stage(naming, before, selectors, 0);
    if selectors == [] then Recorded(owner, None, false)
    else if staged.entries == before then Recorded(owner, Some((staged.path, staged.selectors)), false)
    else Recorded(Owner(staged.entries, owner.properties + PARTIAL, owner.revision + 1), Some((staged.path, staged.selectors)), true)
  }

  /** A change is reported exactly when the normalized tree differs; then it is a new revision, marked partial, else the owner itself. */
  method RecordCapture(naming: Naming, owner: Owner, path: seq<Observed>, ownerSelector: Option<Selector>) returns (r: Recorded)
    ensures r == Record(naming, owner, path, ownerSelector)
    ensures r.changed <==> Normalize(r.owner.subobjects) != Normalize(owner.subobjects)
    ensures r.changed ==> Normal(r.owner.subobjects)
    ensures r.changed ==> r.owner.revision == owner.revision + 1
    ensures r.changed ==> forall k :: k in r.owner.properties <==> k in owner.properties || k in PARTIAL
    ensures r.changed ==> forall k | k in r.owner.properties ::
              r.owner.properties[k] == if k in PARTIAL then PARTIAL[k] else owner.properties[k]
    ensures !r.changed ==> r.owner == owner
    ensures r.target.None? <==> PathSelectors(path, ownerSelector) == []
  {
    hide Normalize, Normal, Stage, PathSelectors;
    var before := Normalize(owner.subobjects);
    var selectors := PathSelectors(path, ownerSelector);
    if selectors == [] {
      return Recorded(owner, None, false);
    }
    var staged := BuildRecordedPath(naming, before, selectors);
    NormalizeIsNormal(owner.subobjects);
    StageKeepsNormal(naming, before, selectors, 0);
    NormalizeNormal(staged.entries);
    var target := Some((staged.path, staged.selectors));
    if staged.entries == before {
      return Recorded(owner, target, false);
    }
    return Recorded(Owner(staged.entries, owner.properties + PARTIAL, owner.revision + 1), target, true);
  }

  lemma {:induction false} NormalizeKeepsKeys(entries: seq<Entry>)
    ensures forall i | 0 <= i < |entries| :: Normalize(entries)[i].key == entries[i].key
    ensures UniqueKeys(entries) ==> UniqueKeys(Normalize(entries))
  {
    if entries != [] {
      NormalizeKeepsKeys(entries[1..]);
      if entries[0].raw.nested.Submenu? {
        NormalizeKeepsKeys(entries[0].raw.nested.entries);
      }
      if UniqueKeys(entries) {
        assert UniqueKeys(entries[1..]);
        var r := Normalize(entries);
        assert r[1..] == Normalize(entries[1..]);
        forall i | 0 <= i < |r| ensures r[i].raw.nested.Submenu? ==> UniqueKeys(r[i].raw.nested.entries) {
          if i > 0 { assert r[i] == Normalize(entries[1..])[i - 1]; }
        }
      }
    }
  }

  /**
   A recorded target is persisted in the owner that comes back. Recording the same observation again
   reports no change and returns that owner, when every element of its path identifies something.
   */
  lemma RecordingAgain(naming: Naming, owner: Owner, path: seq<Observed>, ownerSelector: Option<Selector>)
    requires UniqueKeys(owner.subobjects)
    ensures var first := Record(naming, owner, path, ownerSelector);
      && (first.target.Some? ==> At(Normalize(first.owner.subobjects), first.target.value.0).Some?)
      && (AllIdentify(PathSelectors(path, ownerSelector)) ==>
            Record(naming, first.owner, path, ownerSelector) == Recorded(first.owner, first.target, false))
  {
    hide PathSelectors, Stage, Normalize, At;
    var selectors := PathSelectors(path, ownerSelector);
    var before := Normalize(owner.subobjects);
    if selectors != [] {
      var staged := Stage(naming, before, selectors, 0);
      NormalizeKeepsKeys(owner.subobjects);
      NormalizeIsNormal(owner.subobjects);
      StageKeepsNormal(naming, before, selectors, 0);
      NormalizeNormal(staged.entries);
      StagedTargetIsThere(naming, before, selectors, 0);
      StagingAgain(naming, before, selectors, 0);
    }
  }

  /** An item in the older form, complete but for its empty nested selector. */
  function Legacy(naming: Naming): Raw {
    Raw(Some("menu_item"), Some(BY_ID), Some("a"), Some(!naming.separator("menu_item")), None, None,
        Some(Stored(None, None, None)), map[], Leaf)
  }

  lemma MenuItemKind()
    ensures Text.Underscored("menu_item") == "menu_item"
  {
    hide Text.Replaced;
    Text.NothingReplaced("menu_item", ' ', '_');
  }

  lemma CanonicalById()
    ensures CanonicalSelector(Observed("menu_item", BY_ID, None, None)) == Selector("menu_item", BY_ID, None, None)
    ensures PathSelectors([Observed("menu_item", BY_ID, None, None)], None) == Observing(BY_ID)
  {
    var o := Observed("menu_item", BY_ID, None, None);
    MenuItemKind();
    hide Text.Underscored;
    var selector := CanonicalSelector(o);
    assert selector.criteria == BY_ID;
    assert "id" in BY_ID && Informative(selector);
    assert [o][1..] == [] && Map([o], CanonicalSelector) == [selector];
    FilterAll([selector], Informative);
  }

  /** An owner stored in the older form comes back as it is stored, not normalized, when an observation adds nothing. */
  lemma LegacyOwnerReturned(naming: Naming)
    ensures var owner := Owner([Entry("a", Legacy(naming))], map[], 1);
      var r := Record(naming, owner, [Observed("menu_item", BY_ID, None, None)], None);
      r.target.Some? && !r.changed && r.owner == owner && owner.subobjects != Normalize(owner.subobjects)
  {
    hide PathSelectors, Stage, Text.Underscored;
    var entry := Entry("a", Legacy(naming));
    var normal := Entry("a", Legacy(naming).(selector := None));
    CanonicalById();
    assert Normalize([entry]) == [normal] by {
      assert [entry][1..] == [];
    }
    StageOnto(naming, normal, Observing(BY_ID)[0]);
    assert Stamped(naming, normal.raw, Observing(BY_ID)[0]) == normal.raw;
    assert [entry][0] != [normal][0];
    assert Stage(naming, [normal], Observing(BY_ID), 0).entries == [normal];
  }
}
