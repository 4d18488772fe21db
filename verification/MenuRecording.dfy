/** What recording an observed menu path writes, told from the observations themselves. */
module MenuRecording {
  import opened Outcomes
  import opened LogicalMenu
  import Text

  // ----- observations

  /** An observed element says something about its item. */
  predicate Tells(o: Observed) {
    Field(o.criteria, "id") != "" || Field(o.criteria, "text") != "" || o.ordinal.Some? || o.offset.Some?
  }

  /** Two identities agree: they share an id or a text, and differ in neither where both have it. */
  lemma CriteriaMatchIff(a: Criteria, b: Criteria)
    ensures CriteriaMatch(a, b) <==>
      && (exists f :: (f == "id" || f == "text") && Field(a, f) != "" && Field(a, f) == Field(b, f))
      && (forall f | (f == "id" || f == "text") && Field(a, f) != "" && Field(b, f) != "" :: Field(a, f) == Field(b, f))
  {
  }

  /** The elements that are recorded: those that tell something, without a leading one that is the owner. */
  function Recordable(path: seq<Observed>, owner: Option<Selector>): seq<Observed> {
    var told := Filter(path, Tells);
    if owner.Some? && told != [] && CriteriaMatch(told[0].criteria, owner.value.criteria) then told[1..] else told
  }

  /** The criteria are the element's non-empty id and text, and nothing else. */
  ghost predicate ObservedCriteria(criteria: Criteria, o: Observed) {
    && (forall f :: f in criteria <==> (f == "id" || f == "text") && f in o.criteria && o.criteria[f] != "")
    && (forall f | f in criteria :: criteria[f] == o.criteria[f])
  }

  predicate ObservedKind(kind: string, o: Observed) {
    kind == Text.Join(Text.Split(if o.kind == "" then "menu_item" else o.kind, ' '), "_")
  }

  ghost predicate Says(s: Selector, o: Observed) {
    ObservedCriteria(s.criteria, o) && ObservedKind(s.kind, o) && s.ordinal == o.ordinal && s.offset == o.offset
  }

  lemma CanonicalSays(o: Observed)
    ensures Says(CanonicalSelector(o), o) && (Informative(CanonicalSelector(o)) <==> Tells(o))
  {
    var s := CanonicalSelector(o);
    Text.ReplacedIsJoined(if o.kind == "" then "menu_item" else o.kind, ' ', '_');
    forall f ensures f in s.criteria <==> (f == "id" || f == "text") && f in o.criteria && o.criteria[f] != "" {}
    if s.criteria != map[] {
      var f :| f in s.criteria;
    }
    if Field(o.criteria, "id") != "" {
      assert "id" in s.criteria;
    }
    if Field(o.criteria, "text") != "" {
      assert "text" in s.criteria;
    }
  }

  lemma SameIdentity(s: Selector, o: Observed, other: Criteria)
    requires Says(s, o)
    ensures CriteriaMatch(s.criteria, other) <==> CriteriaMatch(o.criteria, other)
  {
    assert Field(s.criteria, "id") == Field(o.criteria, "id");
    assert Field(s.criteria, "text") == Field(o.criteria, "text");
  }

  lemma {:induction false} InformativeSay(path: seq<Observed>)
    ensures var (all, told) := (Filter(Map(path, CanonicalSelector), Informative), Filter(path, Tells));
      |all| == |told| && forall k | 0 <= k < |all| :: Says(all[k], told[k])
  {
    hide CanonicalSelector, Says, Tells, Informative;
    if path != [] {
      CanonicalSays(path[0]);
      InformativeSay(path[1..]);
      var mapped := Map(path, CanonicalSelector);
      assert mapped[0] == CanonicalSelector(path[0]) && mapped[1..] == Map(path[1..], CanonicalSelector);
    }
  }

  /** The selectors of a path say, one for one, what its recordable elements say. */
  lemma PathSelectorsSay(path: seq<Observed>, owner: Option<Selector>)
    ensures var (selectors, told) := (PathSelectors(path, owner), Recordable(path, owner));
      |selectors| == |told| && forall k | 0 <= k < |told| :: Says(selectors[k], told[k])
  {
    hide CanonicalSelector, Says, Tells, Informative, CriteriaMatch;
    InformativeSay(path);
    var (all, told) := (Filter(Map(path, CanonicalSelector), Informative), Filter(path, Tells));
    if owner.Some? && all != [] {
      SameIdentity(all[0], told[0], owner.value.criteria);
    }
  }

  // ----- items

  function Either<T>(first: Option<T>, second: Option<T>): Option<T> {
    if first.Some? then first else second
  }

  /** An item after an observation; what was there before it, if anything, is completed. */
  predicate ItemAfter(naming: Naming, before: Option<Raw>, after: Raw, s: Selector) {
    var prior := if before.Some? then before.value else Raw(None, None, None, None, None, None, None, map[], Leaf);
    var (text, id) := (Field(s.criteria, "text"), Field(s.criteria, "id"));
    && after.kind == Some(s.kind) && after.criteria == Some(s.criteria)
    && after.ordinal == Either(s.ordinal, prior.ordinal) && after.offset == Either(s.offset, prior.offset)
    && after.displayName == Either(prior.displayName, if text != "" then Some(text) else if id != "" then Some(id) else None)
    && after.selectable == Either(prior.selectable, Some(!naming.separator(s.kind)))
    && after.others == prior.others && after.selector == prior.selector
  }

  lemma StampedIsAfter(naming: Naming, raw: Raw, s: Selector)
    ensures ItemAfter(naming, Some(raw), Stamped(naming, raw, s), s)
    ensures ItemAfter(naming, None, Stamped(naming, EMPTY, s), s)
    ensures Persisted(Stamped(naming, raw, s)) == Selector(s.kind, s.criteria, Either(s.ordinal, raw.ordinal), Either(s.offset, raw.offset))
  {
  }

  /** The key of a new item is made from its id, else its text, else its place, and numbered where that is taken. */
  ghost predicate FreshKey(naming: Naming, key: string, s: Selector, index: nat, taken: set<string>) {
    var (text, id, positional) := (Field(s.criteria, "text"), Field(s.criteria, "id"), "menu_" + Text.Decimal(index + 1));
    var slug := naming.slug(if id != "" then id else if text != "" then text else positional);
    var base := if slug != "" then slug else positional;
    && key !in taken
    && (key == base || (base in taken && exists n: nat | 2 <= n ::
          key == Text.Numbered(base, "_", n) && forall m: nat | 2 <= m < n :: Text.Numbered(base, "_", m) in taken))
  }

  lemma SlotKeyIsFresh(naming: Naming, entries: seq<Entry>, s: Selector, index: nat)
    requires MatchingIndex(entries, s.criteria).None?
    ensures FreshKey(naming, SlotFor(naming, entries, s, index).key, s, index, KeysOf(entries))
  {
    var (base, taken) := (BaseKey(naming, s, index), KeysOf(entries));
    var key := Text.UniqueName(base, "_", taken);
    assert SlotFor(naming, entries, s, index).key == key;
    if base in taken {
      var n: nat :| 2 <= n && key == Text.Numbered(base, "_", n) && forall m: nat :: 2 <= m < n ==> Text.Numbered(base, "_", m) in taken;
    }
  }

  /** The items under a path. */
  function LevelAt(entries: seq<Entry>, path: seq<string>): seq<Entry> {
    if path == [] then entries else if At(entries, path).Some? then Kids(At(entries, path).value) else []
  }

  /**
   One element of a staged path: the item under its key on its level before and after, and what the target keeps
   of it. There was one before exactly when some item of the level matches, and then it is the first that does.
   */
  ghost predicate ItemStaged(naming: Naming, level: seq<Entry>, key: string, before: Option<Raw>, after: Option<Raw>,
                             s: Selector, kept: Selector, index: nat) {
    && after.Some? && ItemAfter(naming, before, after.value, s)
    && kept == Selector(s.kind, s.criteria, after.value.ordinal, after.value.offset)
    && var at := MatchingIndex(level, s.criteria);
       if at.None? then before.None? && FreshKey(naming, key, s, index, KeysOf(level))
       else level[at.value].key == key && before == Some(level[at.value].raw)
  }

  ghost predicate StagedItem(naming: Naming, entries: seq<Entry>, staged: Staged, s: Selector, index: nat, k: nat)
    requires k < |staged.path|
  {
    && k < |staged.selectors|
    && ItemStaged(naming, LevelAt(entries, staged.path[..k]), staged.path[k], At(entries, staged.path[..k + 1]),
                  At(staged.entries, staged.path[..k + 1]), s, staged.selectors[k], index + k)
  }

  lemma StagedHead(naming: Naming, entries: seq<Entry>, selectors: seq<Selector>, index: nat)
    requires UniqueKeys(entries) && selectors != []
    ensures StagedItem(naming, entries, Stage(naming, entries, selectors, index), selectors[0], index, 0)
  {
    hide UniqueKeys, At, Stamped, IndexOf, Filled, FreshKey, ItemAfter, BaseKey, Text.UniqueName, MatchesAt, Kids;
    var staged := Stage(naming, entries, selectors, index);
    var slot := SlotFor(naming, entries, selectors[0], index);
    SlotLookup(naming, entries, selectors[0], index);
    var here := staged.path[..1];
    assert here == [slot.key] && staged.path[..0] == [];
    StageAt(naming, entries, selectors, index, here);
    AtStep(entries, here);
    StampedIsAfter(naming, if slot.at < |entries| then entries[slot.at].raw else EMPTY, selectors[0]);
    if slot.at < |entries| {
      IndexOfSlot(entries, slot);
    } else {
      SlotKeyIsFresh(naming, entries, selectors[0], index);
    }
    hide SlotFor;
    NestedAside(naming, At(entries, here), slot.raw, At(staged.entries, here).value.nested, selectors[0]);
  }

  /** What is below an item is no part of what an observation says of it. */
  lemma NestedAside(naming: Naming, before: Option<Raw>, after: Raw, nested: Nested, s: Selector)
    ensures ItemAfter(naming, before, after, s) <==> ItemAfter(naming, before, after.(nested := nested), s)
  {
  }

  lemma StageUnfolds(naming: Naming, entries: seq<Entry>, selectors: seq<Selector>, index: nat)
    requires |selectors| > 1
    ensures var slot := SlotFor(naming, entries, selectors[0], index);
      var (staged, deeper) := (Stage(naming, entries, selectors, index), Stage(naming, Kids(slot.raw), selectors[1..], index + 1));
      staged.path == [slot.key] + deeper.path && staged.selectors == [Persisted(slot.raw)] + deeper.selectors
  {
    hide SlotFor;
  }

  lemma {:induction false} StagedItems(naming: Naming, entries: seq<Entry>, selectors: seq<Selector>, index: nat, k: nat)
    requires UniqueKeys(entries) && k < |selectors|
    ensures StagedItem(naming, entries, Stage(naming, entries, selectors, index), selectors[k], index, k)
    decreases |selectors|
  {
    hide SlotFor, UniqueKeys, At, Filled, IndexOf, Stamped, MatchesAt, Kids, ItemStaged, LevelAt, Stage;
    if k == 0 {
      StagedHead(naming, entries, selectors, index);
    } else {
      var staged := Stage(naming, entries, selectors, index);
      var slot := SlotFor(naming, entries, selectors[0], index);
      SlotLookup(naming, entries, selectors[0], index);
      var deeper := Stage(naming, Kids(slot.raw), selectors[1..], index + 1);
      StageUnfolds(naming, entries, selectors, index);
      BelowSlot(naming, entries, selectors, index, staged.path[..k + 1]);
      StagedItems(naming, Kids(slot.raw), selectors[1..], index + 1, k - 1);
      assert staged.path[..k + 1][1..] == deeper.path[..k];
      LevelBelow(naming, entries, selectors, index, staged.path[..k]);
      assert staged.path[..k][1..] == deeper.path[..k - 1];
    }
  }

  lemma LevelBelow(naming: Naming, entries: seq<Entry>, selectors: seq<Selector>, index: nat, path: seq<string>)
    requires UniqueKeys(entries) && |selectors| > 1 && path != [] && path[0] == SlotFor(naming, entries, selectors[0], index).key
    ensures LevelAt(entries, path) == LevelAt(Kids(SlotFor(naming, entries, selectors[0], index).raw), path[1..])
  {
    hide SlotFor, UniqueKeys, At, IndexOf, Stamped, MatchesAt;
    var slot := SlotFor(naming, entries, selectors[0], index);
    SlotLookup(naming, entries, selectors[0], index);
    if |path| > 1 {
      BelowSlot(naming, entries, selectors, index, path);
    } else {
      AtStep(entries, path);
      StampedFacts(naming, if slot.at < |entries| then entries[slot.at].raw else EMPTY, selectors[0]);
      if slot.at < |entries| {
        IndexOfSlot(entries, slot);
      }
    }
  }

  // ----- normal form

  /** An item in normal form: what it had nested under `selector` fills the fields it does not have itself. */
  predicate ItemNormalized(before: Raw, after: Raw) {
    var s := before.selector;
    && after.kind == before.kind && after.displayName == before.displayName && after.selectable == before.selectable
    && after.others == before.others && after.selector.None?
    && after.criteria == Either(before.criteria, if s.Some? then s.value.criteria else None)
    && after.ordinal == Either(before.ordinal, if s.Some? then s.value.ordinal else None)
    && after.offset == Either(before.offset, if s.Some? then s.value.offset else None)
  }

  lemma NormalizedTail(entries: seq<Entry>)
    requires entries != []
    ensures Normalize(entries)[0].key == entries[0].key && Normalize(entries)[1..] == Normalize(entries[1..])
  {
  }

  lemma {:induction false} NormalizedIndex(entries: seq<Entry>, key: string)
    ensures IndexOf(Normalize(entries), key) == IndexOf(entries, key)
  {
    if entries != [] {
      NormalizedIndex(entries[1..], key);
      NormalizedTail(entries);
      hide Normalize;
    }
  }

  lemma {:induction false} NormalizedEntry(entries: seq<Entry>, i: nat)
    requires i < |entries|
    ensures ItemNormalized(entries[i].raw, Normalize(entries)[i].raw)
    ensures Kids(Normalize(entries)[i].raw) == Normalize(Kids(entries[i].raw))
  {
    if i > 0 {
      NormalizedEntry(entries[1..], i - 1);
      assert Normalize(entries)[i] == Normalize(entries[1..])[i - 1];
    }
  }

  /** Normalizing a tree normalizes each of its items and leaves it where it is. */
  lemma {:induction false} NormalizedItem(entries: seq<Entry>, path: seq<string>)
    ensures At(Normalize(entries), path).Some? <==> At(entries, path).Some?
    ensures At(entries, path).Some? ==> ItemNormalized(At(entries, path).value, At(Normalize(entries), path).value)
    decreases |path|
  {
    hide Normalize, IndexOf, ItemNormalized;
    if path != [] {
      NormalizedIndex(entries, path[0]);
      var at := IndexOf(entries, path[0]);
      if at.Some? {
        NormalizedEntry(entries, at.value);
        if |path| > 1 {
          NormalizedItem(Kids(entries[at.value].raw), path[1..]);
        }
      }
    }
  }

  // ----- a whole capture

  /** An item that records an observed element, over what was there before. */
  ghost predicate Records(naming: Naming, before: Option<Raw>, after: Raw, o: Observed) {
    exists s :: Says(s, o) && ItemAfter(naming, before, after, s)
  }

  /** Element `k` of a target: its item is there, records the observed element, and is what the target keeps. */
  ghost predicate TargetRecords(naming: Naming, before: seq<Entry>, after: seq<Entry>, keys: seq<string>, selectors: seq<Selector>,
                                k: nat, o: Observed)
    requires k < |keys| == |selectors|
  {
    var (was, item) := (At(before, keys[..k + 1]), At(after, keys[..k + 1]));
    && item.Some? && Records(naming, was, item.value, o) && item.value.kind.Some? && item.value.criteria.Some?
    && selectors[k] == Selector(item.value.kind.value, item.value.criteria.value, item.value.ordinal, item.value.offset)
  }

  /**
   What recording an observed path does. There is a target exactly when some element of the path, other than a
   leading one that is the owner, has an id, a text, an ordinal or an offset. Then each such element, in order,
   has its item on the target's path: it carries the element's kind and non-empty id and text, and its ordinal
   and offset where it has them. The target keeps just these of every item.
   */
  lemma CaptureRecords(naming: Naming, owner: Owner, path: seq<Observed>, ownerSelector: Option<Selector>)
    requires UniqueKeys(owner.subobjects)
    ensures var (r, told) := (Record(naming, owner, path, ownerSelector), Recordable(path, ownerSelector));
      && (r.target.None? <==> told == [])
      && (r.target.Some? ==>
            var (keys, selectors) := r.target.value;
            && |keys| == |selectors| == |told|
            && forall k | 0 <= k < |told| ::
                 TargetRecords(naming, Normalize(owner.subobjects), Normalize(r.owner.subobjects), keys, selectors, k, told[k]))
  {
    hide PathSelectors, Stage, Normalize, At, Recordable, TargetRecords, StagedItem, UniqueKeys, Says;
    var (r, told) := (Record(naming, owner, path, ownerSelector), Recordable(path, ownerSelector));
    var (selectors, before) := (PathSelectors(path, ownerSelector), Normalize(owner.subobjects));
    PathSelectorsSay(path, ownerSelector);
    if selectors != [] {
      var staged := Stage(naming, before, selectors, 0);
      NormalizeKeepsKeys(owner.subobjects);
      NormalizeIsNormal(owner.subobjects);
      StageKeepsNormal(naming, before, selectors, 0);
      NormalizeNormal(staged.entries);
      StagedSelectors(naming, before, selectors, 0);
      forall k | 0 <= k < |told|
        ensures TargetRecords(naming, before, staged.entries, staged.path, staged.selectors, k, told[k])
      {
        StagedItems(naming, before, selectors, 0, k);
        OneRecords(naming, before, staged, selectors[k], k, told[k]);
      }
      assert r.target == Some((staged.path, staged.selectors)) && Normalize(r.owner.subobjects) == staged.entries;
    }
  }

  lemma {:induction false} StagedSelectors(naming: Naming, entries: seq<Entry>, selectors: seq<Selector>, index: nat)
    ensures |Stage(naming, entries, selectors, index).selectors| == |selectors|
    decreases |selectors|
  {
    hide SlotFor;
    if |selectors| > 1 {
      StagedSelectors(naming, Kids(SlotFor(naming, entries, selectors[0], index).raw), selectors[1..], index + 1);
    }
  }

  lemma OneRecords(naming: Naming, entries: seq<Entry>, staged: Staged, s: Selector, k: nat, o: Observed)
    requires k < |staged.path| == |staged.selectors| && StagedItem(naming, entries, staged, s, 0, k) && Says(s, o)
    ensures TargetRecords(naming, entries, staged.entries, staged.path, staged.selectors, k, o)
  {
    hide At, Says, FreshKey, Kids, LevelAt;
  }

  /** A changed owner says that its inventory is partial; its other properties stay. */
  lemma ChangedOwner(naming: Naming, owner: Owner, path: seq<Observed>, ownerSelector: Option<Selector>)
    requires Record(naming, owner, path, ownerSelector).changed
    ensures var after := Record(naming, owner, path, ownerSelector).owner;
      && after.properties == owner.properties["menu_inventory_status" := "partial"]["menu_inventory_dynamic" := "true"]
      && after.revision == owner.revision + 1
  {
    hide PathSelectors, Stage, Normalize;
  }

  // ----- the order of the walk

  /** In preorder one path comes before another: an item before what is below it, and by the order of the entries otherwise. */
  predicate ComesBefore(entries: seq<Entry>, p: seq<string>, q: seq<string>)
    decreases |p|
  {
    && p != [] && q != [] && IndexOf(entries, p[0]).Some? && IndexOf(entries, q[0]).Some?
    && var (i, j) := (IndexOf(entries, p[0]).value, IndexOf(entries, q[0]).value);
       i < j || (i == j && |q| > 1 && (|p| == 1 || ComesBefore(Kids(entries[i].raw), p[1..], q[1..])))
  }

  ghost predicate InPreorder(entries: seq<Entry>, before: seq<string>, paths: seq<seq<string>>) {
    && (forall k | 0 <= k < |paths| :: before < paths[k])
    && forall k, m | 0 <= k < m < |paths| :: ComesBefore(entries, paths[k][|before|..], paths[m][|before|..])
  }

  lemma PreorderTail(entries: seq<Entry>, before: seq<string>, paths: seq<seq<string>>)
    requires entries != [] && UniqueKeys(entries) && InPreorder(entries[1..], before, paths)
    requires forall k | 0 <= k < |paths| :: paths[k][|before|] in KeysOf(entries[1..])
    ensures InPreorder(entries, before, paths)
  {
    hide UniqueKeys, Kids;
    forall k, m | 0 <= k < m < |paths| ensures ComesBefore(entries, paths[k][|before|..], paths[m][|before|..]) {
      var (p, q) := (paths[k][|before|..], paths[m][|before|..]);
      assert p[0] == paths[k][|before|] && q[0] == paths[m][|before|];
      LaterIndex(entries, p[0]);
      LaterIndex(entries, q[0]);
    }
  }

  lemma LaterIndex(entries: seq<Entry>, key: string)
    requires entries != [] && UniqueKeys(entries) && key in KeysOf(entries[1..])
    ensures IndexOf(entries[1..], key).Some? && IndexOf(entries, key) == Some(IndexOf(entries[1..], key).value + 1)
  {
    UniqueParts(entries);
    KeyTaken(entries[1..], key);
  }

  lemma PreorderBelow(entries: seq<Entry>, before: seq<string>, paths: seq<seq<string>>)
    requires entries != [] && InPreorder(Kids(entries[0].raw), before + [entries[0].key], paths)
    ensures InPreorder(entries, before, paths)
    ensures forall k | 0 <= k < |paths| :: paths[k][|before|] == entries[0].key && |paths[k]| > |before| + 1
  {
    hide Kids;
    var here := before + [entries[0].key];
    forall k | 0 <= k < |paths| ensures before < paths[k] && paths[k][|before|] == entries[0].key && |paths[k]| > |before| + 1 {
      assert here < paths[k] && here[|before|] == entries[0].key;
    }
    assert IndexOf(entries, entries[0].key) == Some(0);
    forall k, m | 0 <= k < m < |paths| ensures ComesBefore(entries, paths[k][|before|..], paths[m][|before|..]) {
      assert paths[k][|before|..][1..] == paths[k][|here|..] && paths[m][|before|..][1..] == paths[m][|here|..];
    }
  }

  /** The walk lists what it finds in preorder, nothing twice. */
  lemma {:induction false} WalkInPreorder(entries: seq<Entry>, before: seq<string>, captured: Criteria)
    requires UniqueKeys(entries)
    ensures InPreorder(entries, before, Walk(entries, before, captured))
    decreases entries
  {
    hide UniqueKeys, CriteriaMatch, InPreorder, KeysOf;
    if entries == [] {
      NoneInPreorder(entries, before);
    } else {
      UniqueParts(entries);
      var raw, here := entries[0].raw, before + [entries[0].key];
      var own := if raw.criteria.Some? && CriteriaMatch(raw.criteria.value, captured) then [here] else [];
      var (below, rest) := (if raw.nested.Submenu? then Walk(raw.nested.entries, here, captured) else [], Walk(entries[1..], before, captured));
      if raw.nested.Submenu? {
        WalkInPreorder(raw.nested.entries, here, captured);
      } else {
        NoneInPreorder(Kids(raw), here);
      }
      WalkInPreorder(entries[1..], before, captured);
      WalkExtends(entries[1..], before, captured);
      PreorderBelow(entries, before, below);
      PreorderTail(entries, before, rest);
      hide Walk;
      PreorderJoined(entries, before, own, below, rest);
    }
  }

  lemma NoneInPreorder(entries: seq<Entry>, before: seq<string>)
    ensures InPreorder(entries, before, [])
  {
  }

  lemma PreorderTogether(entries: seq<Entry>, before: seq<string>, a: seq<seq<string>>, b: seq<seq<string>>)
    requires InPreorder(entries, before, a) && InPreorder(entries, before, b)
    requires forall k, m | 0 <= k < |a| && 0 <= m < |b| :: ComesBefore(entries, a[k][|before|..], b[m][|before|..])
    ensures InPreorder(entries, before, a + b)
  {
    hide ComesBefore;
    var all := a + b;
    assert forall k | 0 <= k < |a| :: all[k] == a[k];
    assert forall m | 0 <= m < |b| :: all[|a| + m] == b[m];
    forall k, m | 0 <= k < m < |all| ensures ComesBefore(entries, all[k][|before|..], all[m][|before|..]) {
      if k >= |a| {
        assert all[k] == b[k - |a|] && all[m] == b[m - |a|];
      } else if m >= |a| {
        assert all[m] == b[m - |a|];
      }
    }
  }

  lemma FirstEntryFirst(entries: seq<Entry>, p: seq<string>, q: seq<string>)
    requires entries != [] && UniqueKeys(entries) && p != [] && p[0] == entries[0].key && q != [] && q[0] in KeysOf(entries[1..])
    ensures ComesBefore(entries, p, q)
  {
    LaterIndex(entries, q[0]);
    assert IndexOf(entries, entries[0].key) == Some(0);
  }

  lemma PreorderJoined(entries: seq<Entry>, before: seq<string>, own: seq<seq<string>>, below: seq<seq<string>>, rest: seq<seq<string>>)
    requires entries != [] && UniqueKeys(entries) && InPreorder(entries, before, below) && InPreorder(entries, before, rest)
    requires own == [] || own == [before + [entries[0].key]]
    requires forall k | 0 <= k < |below| :: |below[k]| > |before| + 1 && below[k][|before|] == entries[0].key
    requires forall k | 0 <= k < |rest| :: |rest[k]| > |before| && rest[k][|before|] in KeysOf(entries[1..])
    ensures InPreorder(entries, before, own + below + rest)
  {
    hide UniqueKeys, Kids, KeysOf;
    assert IndexOf(entries, entries[0].key) == Some(0);
    if own != [] {
      assert own[0][|before|..] == [entries[0].key];
      forall m | 0 <= m < |below| ensures ComesBefore(entries, own[0][|before|..], below[m][|before|..]) {
        assert below[m][|before|..][0] == entries[0].key;
      }
    }
    PreorderTogether(entries, before, own, below);
    var front := own + below;
    forall k, m | 0 <= k < |front| && 0 <= m < |rest| ensures ComesBefore(entries, front[k][|before|..], rest[m][|before|..]) {
      assert k < |own| ==> front[k] == own[k];
      assert k >= |own| ==> front[k] == below[k - |own|];
      assert front[k][|before|..][0] == entries[0].key && rest[m][|before|..][0] == rest[m][|before|];
      FirstEntryFirst(entries, front[k][|before|..], rest[m][|before|..]);
    }
    PreorderTogether(entries, before, front, rest);
  }
}
