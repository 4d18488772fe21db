/**
 Merging a partial recapture into recorded subobjects: which recorded inventory survives, and when merges
 may be repeated and regrouped.
 */
module RecaptureMerge {
  import opened Outcomes
  import Values

  /** An entry among subobjects: a mapping with its attributes and what stands under `subobjects`, or anything else. */
  datatype Entry =
    | Item(attributes: map<string, Values.Value>, below: Nested)
    | Other(value: Values.Value)

  /** What an item has under `subobjects`: nothing, something that is no mapping, or a mapping. */
  datatype Nested = Absent | Broken(value: Values.Value) | Present(items: map<string, Entry>)

  predicate ItemAt(items: map<string, Entry>, k: string) {
    k in items && items[k].Item?
  }

  function MergeItem(existing: Entry, recaptured: Entry): Entry
    requires existing.Item? && recaptured.Item?
    decreases existing
  {
    Item(existing.attributes + recaptured.attributes, MergeNested(existing.below, recaptured.below))
  }

  function MergeNested(existing: Nested, recaptured: Nested): Nested
    decreases existing
  {
    if recaptured.Absent? then existing
    else if existing.Present? && recaptured.Present? then
      Present(map k | k in existing.items.Keys + recaptured.items.Keys && (ItemAt(existing.items, k) || ItemAt(recaptured.items, k)) ::
                if !ItemAt(recaptured.items, k) then existing.items[k]
                else if !ItemAt(existing.items, k) then recaptured.items[k]
                else MergeItem(existing.items[k], recaptured.items[k]))
    else recaptured
  }

  /** One key of a merge of two mappings. */
  lemma MergedAt(existing: Nested, recaptured: Nested, k: string)
    requires existing.Present? && recaptured.Present?
    ensures MergeNested(existing, recaptured).Present?
    ensures var merged, old', new' := MergeNested(existing, recaptured).items, existing.items, recaptured.items;
      && (k in merged <==> ItemAt(old', k) || ItemAt(new', k)) && (k in merged ==> merged[k].Item?)
      && (ItemAt(old', k) && ItemAt(new', k) ==> merged[k] == MergeItem(old'[k], new'[k]))
      && (ItemAt(old', k) && !ItemAt(new', k) ==> merged[k] == old'[k])
      && (!ItemAt(old', k) && ItemAt(new', k) ==> merged[k] == new'[k])
  {
  }

  lemma MergedEntry(existing: Nested, recaptured: Nested, k: string)
    requires existing.Present? && recaptured.Present? && ItemAt(recaptured.items, k)
    ensures var known, value := KnownEntry(existing.items, k), recaptured.items[k];
      && MergeNested(existing, recaptured).Present? && k in MergeNested(existing, recaptured).items
      && MergeNested(existing, recaptured).items[k]
           == Item(known.attributes + value.attributes, MergeNested(known.below, value.below))
  {
    var value := recaptured.items[k];
    MergedAt(existing, recaptured, k);
    assert map[] + value.attributes == value.attributes;
    assert value.below.Absent? ==> MergeNested(Absent, value.below) == Absent;
  }

  /** What is merged into: the recorded item, or an empty one. */
  function KnownEntry(items: map<string, Entry>, k: string): (known: Entry)
    ensures known.Item?
  {
    if ItemAt(items, k) then items[k] else Item(map[], Absent)
  }

  /** `_merge_recapture_subobjects`: the recaptured items one by one, over a copy of the existing ones. */
  method MergeRecaptureSubobjects(existing: Nested, recaptured: Nested) returns (merged: map<string, Entry>)
    requires existing.Present? && recaptured.Present?
    ensures Present(merged) == MergeNested(existing, recaptured)
    decreases existing
  {
    hide MergeNested, MergeItem;
    MergeKeys(existing, recaptured);
    merged := map k | k in existing.items && existing.items[k].Item? :: existing.items[k];
    var todo := recaptured.items.Keys;
    ghost var goal := MergeNested(existing, recaptured).items;
    while todo != {}
      invariant todo <= recaptured.items.Keys
      invariant forall k :: k in merged <==> ItemAt(existing.items, k) || (ItemAt(recaptured.items, k) && k !in todo)
      invariant forall k | k in merged :: merged[k] == if k in todo then existing.items[k] else goal[k]
    {
      var key :| key in todo;
      todo := todo - {key};
      var value := recaptured.items[key];
      if value.Other? {
        continue;
      }
      var known := KnownEntry(merged, key);
      assert known == KnownEntry(existing.items, key);
      var below := if value.below.Absent? then known.below else value.below;
      if known.below.Present? && value.below.Present? {
        var deeper := MergeRecaptureSubobjects(known.below, value.below);
        below := Present(deeper);
      }
      MergeAbsent(known.below, value.below);
      MergedEntry(existing, recaptured, key);
      merged := merged[key := Item(known.attributes + value.attributes, below)];
    }
    assert merged == goal;
  }

  // ----- what the merge keeps

  predicate HasPath(t: Nested, path: seq<string>)
    decreases |path|
  {
    && path != [] && t.Present? && ItemAt(t.items, path[0])
    && (|path| == 1 || HasPath(t.items[path[0]].below, path[1..]))
  }

  /** An attribute of the subobject a path leads to. */
  function Attribute(t: Nested, path: seq<string>, name: string): Option<Values.Value>
    decreases |path|
  {
    if path == [] || !t.Present? || !ItemAt(t.items, path[0]) then None
    else
      var item := t.items[path[0]];
      if |path| > 1 then Attribute(item.below, path[1..], name)
      else if name in item.attributes then Some(item.attributes[name])
      else None
  }

  /** On its way the path meets an item whose subobjects are no mapping. */
  predicate Erased(t: Nested, path: seq<string>)
    decreases |path|
  {
    && path != []
    && (t.Broken? || (t.Present? && ItemAt(t.items, path[0]) && Erased(t.items[path[0]].below, path[1..])))
  }

  /**
   The merge has exactly the recaptured paths, and of the recorded ones those that meet no item recaptured
   with subobjects that are no mapping.
   */
  lemma {:induction false} MergeUnitesPaths(existing: Nested, recaptured: Nested, path: seq<string>)
    ensures HasPath(MergeNested(existing, recaptured), path) <==>
            HasPath(recaptured, path) || (HasPath(existing, path) && !Erased(recaptured, path))
    decreases |path|
  {
    if path != [] && existing.Present? && recaptured.Present? {
      MergedAt(existing, recaptured, path[0]);
      if ItemAt(existing.items, path[0]) && ItemAt(recaptured.items, path[0]) {
        hide MergeNested;
        MergeItemDefinition(existing.items[path[0]], recaptured.items[path[0]]);
        MergeUnitesPaths(existing.items[path[0]].below, recaptured.items[path[0]].below, path[1..]);
      }
    }
  }

  /** A recapture loses no recorded inventory exactly when no recorded path meets such an item. */
  lemma NothingLostIff(existing: Nested, recaptured: Nested)
    ensures (forall path | HasPath(existing, path) :: HasPath(MergeNested(existing, recaptured), path)) <==>
            (forall path | HasPath(existing, path) :: !Erased(recaptured, path))
  {
    forall path ensures !Erased(recaptured, path) || !HasPath(recaptured, path) {
      ErasedHasNoPath(recaptured, path);
    }
    forall path
      ensures HasPath(existing, path) ==> (HasPath(MergeNested(existing, recaptured), path) <==> !Erased(recaptured, path))
    {
      MergeUnitesPaths(existing, recaptured, path);
    }
  }

  lemma {:induction false} ErasedHasNoPath(t: Nested, path: seq<string>)
    ensures !Erased(t, path) || !HasPath(t, path)
    decreases |path|
  {
    if path != [] && t.Present? && ItemAt(t.items, path[0]) {
      ErasedHasNoPath(t.items[path[0]].below, path[1..]);
    }
  }

  /** Such a recapture: the menu was read again, with nothing under `subobjects`, and its options are gone. */
  lemma BrokenRecaptureErases(menu: string, option: string)
    ensures var recorded := Present(map[menu := Item(map[], Present(map[option := Item(map[], Absent)]))]);
      var recaptured := Present(map[menu := Item(map[], Broken(Values.Null))]);
      HasPath(recorded, [menu, option]) && !HasPath(MergeNested(recorded, recaptured), [menu, option])
  {
    var recorded := Present(map[menu := Item(map[], Present(map[option := Item(map[], Absent)]))]);
    var recaptured := Present(map[menu := Item(map[], Broken(Values.Null))]);
    assert [menu, option][1..] == [option];
    MergeUnitesPaths(recorded, recaptured, [menu, option]);
  }

  /** At every path a recaptured attribute wins, and one that was not captured again stays where the path stays. */
  lemma {:induction false} FreshAttributesWin(existing: Nested, recaptured: Nested, path: seq<string>, name: string)
    ensures Attribute(MergeNested(existing, recaptured), path, name) ==
      if Attribute(recaptured, path, name).Some? then Attribute(recaptured, path, name)
      else if Erased(recaptured, path) then None
      else Attribute(existing, path, name)
    decreases |path|
  {
    if path != [] && existing.Present? && recaptured.Present? {
      MergedAt(existing, recaptured, path[0]);
      if ItemAt(existing.items, path[0]) && ItemAt(recaptured.items, path[0]) {
        hide MergeNested;
        MergeItemDefinition(existing.items[path[0]], recaptured.items[path[0]]);
        FreshAttributesWin(existing.items[path[0]].below, recaptured.items[path[0]].below, path[1..], name);
      }
    }
  }

  // ----- merging again, and in another grouping

  /** No entry on any level is anything but an item. */
  predicate Clean(t: Nested) {
    t.Present? ==> forall k | k in t.items :: t.items[k].Item? && Clean(t.items[k].below)
  }

  /** Merging a tree with itself changes nothing exactly when all its entries are items. */
  lemma {:induction false} MergeIdempotent(t: Nested)
    ensures MergeNested(t, t) == t <==> Clean(t)
  {
    if t.Present? {
      var merged := MergeNested(t, t);
      forall k | ItemAt(t.items, k)
        ensures k in merged.items && (merged.items[k] == t.items[k] <==> Clean(t.items[k].below))
      {
        MergeIdempotent(t.items[k].below);
        MergedAt(t, t, k);
        assert t.items[k].attributes + t.items[k].attributes == t.items[k].attributes;
      }
      forall k | k in t.items && t.items[k].Other? ensures k !in merged.items {
        MergedAt(t, t, k);
      }
      hide MergeNested, MergeItem;
      if Clean(t) {
        MergeKeys(t, t);
        assert merged.items == t.items;
      } else {
        var k :| k in t.items && !(t.items[k].Item? && Clean(t.items[k].below));
      }
    }
  }

  lemma MergeKeys(existing: Nested, recaptured: Nested)
    requires existing.Present? && recaptured.Present?
    ensures MergeNested(existing, recaptured).Present?
    ensures forall k :: k in MergeNested(existing, recaptured).items <==> ItemAt(existing.items, k) || ItemAt(recaptured.items, k)
    ensures forall k | ItemAt(existing.items, k) && !ItemAt(recaptured.items, k) ::
      MergeNested(existing, recaptured).items[k] == existing.items[k]
  {
  }

  lemma MergeAbsent(existing: Nested, recaptured: Nested)
    ensures recaptured.Absent? ==> MergeNested(existing, recaptured) == existing
    ensures recaptured.Broken? ==> MergeNested(existing, recaptured) == recaptured
    ensures recaptured.Present? && !existing.Present? ==> MergeNested(existing, recaptured) == recaptured
    ensures recaptured.Present? ==> MergeNested(existing, recaptured).Present?
  {
  }

  lemma MergeItemDefinition(existing: Entry, recaptured: Entry)
    requires existing.Item? && recaptured.Item?
    ensures MergeItem(existing, recaptured) ==
      Item(existing.attributes + recaptured.attributes, MergeNested(existing.below, recaptured.below))
  {
  }

  /** What the merge takes over whole from the recapture consists of items only. */
  ghost predicate TakenClean(existing: Nested, recaptured: Nested)
    decreases recaptured
  {
    recaptured.Present? ==>
      if existing.Present? then
        forall k | ItemAt(recaptured.items, k) ::
          if ItemAt(existing.items, k) then TakenClean(existing.items[k].below, recaptured.items[k].below)
          else Clean(recaptured.items[k].below)
      else Clean(recaptured)
  }

  /** Merging the same recapture twice is merging it once, exactly under this condition. */
  lemma {:induction false} MergingAgain(existing: Nested, recaptured: Nested)
    ensures MergeNested(MergeNested(existing, recaptured), recaptured) == MergeNested(existing, recaptured) <==>
            TakenClean(existing, recaptured)
    decreases recaptured
  {
    MergeAbsent(existing, recaptured);
    MergeAbsent(MergeNested(existing, recaptured), recaptured);
    if recaptured.Present? {
      MergeIdempotent(recaptured);
      if existing.Present? {
        var once := MergeNested(existing, recaptured);
        var twice := MergeNested(once, recaptured);
        forall k ensures k in once.items <==> k in twice.items {
          MergedAt(existing, recaptured, k);
          MergedAt(once, recaptured, k);
        }
        forall k | k in once.items
          ensures twice.items[k] == once.items[k] <==>
            (ItemAt(recaptured.items, k) ==>
              if ItemAt(existing.items, k) then TakenClean(existing.items[k].below, recaptured.items[k].below)
              else Clean(recaptured.items[k].below))
        {
          EntryAgain(existing, recaptured, k);
        }
        forall k ensures k in once.items <==> ItemAt(existing.items, k) || ItemAt(recaptured.items, k) {
          MergedAt(existing, recaptured, k);
        }
        hide MergeNested;
        assert twice == once <==> twice.items == once.items;
      }
    }
  }

  lemma {:induction false} EntryAgain(existing: Nested, recaptured: Nested, k: string)
    requires existing.Present? && recaptured.Present? && (ItemAt(existing.items, k) || ItemAt(recaptured.items, k))
    ensures var once := MergeNested(existing, recaptured);
      && once.Present? && k in once.items && MergeNested(once, recaptured).Present? && k in MergeNested(once, recaptured).items
      && (MergeNested(once, recaptured).items[k] == once.items[k] <==>
          (ItemAt(recaptured.items, k) ==>
            if ItemAt(existing.items, k) then TakenClean(existing.items[k].below, recaptured.items[k].below)
            else Clean(recaptured.items[k].below)))
    decreases recaptured, 0
  {
    hide MergeNested, TakenClean, Clean;
    var once := MergeNested(existing, recaptured);
    MergedAt(existing, recaptured, k);
    MergedAt(once, recaptured, k);
    if ItemAt(recaptured.items, k) {
      var b := recaptured.items[k];
      if ItemAt(existing.items, k) {
        var a := existing.items[k];
        MergingAgain(a.below, b.below);
        MergeItemDefinition(a, b);
        MergeItemDefinition(MergeItem(a, b), b);
        assert a.attributes + b.attributes + b.attributes == a.attributes + b.attributes;
      } else {
        MergeIdempotent(b.below);
        MergeItemDefinition(b, b);
        assert b.attributes + b.attributes == b.attributes;
      }
    }
  }

  /** Everything of `a` is in `c`, and `c` holds items only wherever the two are merged. */
  ghost predicate Absorbed(a: Nested, c: Nested)
    decreases c
  {
    match c
    case Absent => a.Absent?
    case Broken(_) => true
    case Present(items) => a.Present? ==>
      && (forall k | k in items :: items[k].Item?)
      && forall k | ItemAt(a.items, k) ::
           && k in items && items[k].Item? && a.items[k].attributes.Keys <= items[k].attributes.Keys
           && Absorbed(a.items[k].below, items[k].below)
  }

  /** A recapture comes out of a merge as it is exactly when it holds everything recorded. */
  lemma {:induction false} AbsorbedIff(a: Nested, c: Nested)
    ensures MergeNested(a, c) == c <==> Absorbed(a, c)
    decreases c
  {
    MergeAbsent(a, c);
    if a.Present? && c.Present? {
      var merged := MergeNested(a, c);
      forall k ensures k in merged.items <==> ItemAt(a.items, k) || ItemAt(c.items, k) {
        MergedAt(a, c, k);
      }
      forall k | k in c.items && c.items[k].Item?
        ensures k in merged.items && (merged.items[k] == c.items[k] <==>
          (ItemAt(a.items, k) ==>
            a.items[k].attributes.Keys <= c.items[k].attributes.Keys && Absorbed(a.items[k].below, c.items[k].below)))
      {
        MergedAt(a, c, k);
        if ItemAt(a.items, k) {
          AbsorbedIff(a.items[k].below, c.items[k].below);
          MergeItemDefinition(a.items[k], c.items[k]);
          AttributesAbsorbed(a.items[k].attributes, c.items[k].attributes);
        }
      }
      hide MergeNested;
      assert merged == c <==> merged.items == c.items;
    }
  }

  lemma AttributesAbsorbed(a: map<string, Values.Value>, c: map<string, Values.Value>)
    ensures a + c == c <==> a.Keys <= c.Keys
  {
    assert (a + c).Keys == a.Keys + c.Keys;
    if a.Keys <= c.Keys {
      assert a + c == c;
    }
  }

  /** Where the middle recapture erases and the last one starts anew, the last one holds all that the first does. */
  ghost predicate Regroups(a: Nested, b: Nested, c: Nested)
    decreases b
  {
    if b.Broken? && c.Present? then Absorbed(a, c)
    else a.Present? && b.Present? && c.Present? ==>
      forall k | ItemAt(a.items, k) && ItemAt(b.items, k) && ItemAt(c.items, k) ::
        Regroups(a.items[k].below, b.items[k].below, c.items[k].below)
  }

  /** Recaptures may be merged in another grouping exactly under this condition. */
  lemma {:induction false} MergeAssociative(a: Nested, b: Nested, c: Nested)
    ensures MergeNested(MergeNested(a, b), c) == MergeNested(a, MergeNested(b, c)) <==> Regroups(a, b, c)
    decreases b
  {
    hide MergeNested, MergeItem;
    MergeAbsent(a, b);
    MergeAbsent(b, c);
    MergeAbsent(MergeNested(a, b), c);
    MergeAbsent(a, MergeNested(b, c));
    AbsorbedIff(a, c);
    if a.Present? && b.Present? && c.Present? {
      var left, right := MergeNested(MergeNested(a, b), c), MergeNested(a, MergeNested(b, c));
      forall k ensures k in left.items <==> k in right.items
        ensures k in left.items && k in right.items ==>
          (left.items[k] == right.items[k] <==>
           (ItemAt(a.items, k) && ItemAt(b.items, k) && ItemAt(c.items, k) ==>
             Regroups(a.items[k].below, b.items[k].below, c.items[k].below)))
        ensures ItemAt(a.items, k) ==> k in left.items
      {
        EntryRegroups(a, b, c, k);
      }
      hide Regroups;
      assert left == right <==> left.items == right.items;
      RegroupsAt(a, b, c);
    }
  }

  lemma RegroupsAt(a: Nested, b: Nested, c: Nested)
    requires a.Present? && b.Present? && c.Present?
    ensures Regroups(a, b, c) <==> forall k | ItemAt(a.items, k) && ItemAt(b.items, k) && ItemAt(c.items, k) ::
              Regroups(a.items[k].below, b.items[k].below, c.items[k].below)
  {
  }

  lemma {:induction false} EntryRegroups(a: Nested, b: Nested, c: Nested, k: string)
    requires a.Present? && b.Present? && c.Present?
    ensures var left, right := MergeNested(MergeNested(a, b), c), MergeNested(a, MergeNested(b, c));
      && left.Present? && right.Present? && (k in left.items <==> k in right.items) && (ItemAt(a.items, k) ==> k in left.items)
      && (k in left.items && k in right.items ==>
          (left.items[k] == right.items[k] <==>
           (ItemAt(a.items, k) && ItemAt(b.items, k) && ItemAt(c.items, k) ==>
             Regroups(a.items[k].below, b.items[k].below, c.items[k].below))))
    decreases b, 0
  {
    hide MergeNested, MergeItem, Regroups;
    MergedAt(a, b, k);
    MergedAt(MergeNested(a, b), c, k);
    MergedAt(b, c, k);
    MergedAt(a, MergeNested(b, c), k);
    if ItemAt(a.items, k) && ItemAt(b.items, k) && ItemAt(c.items, k) {
      var (x, y, z) := (a.items[k], b.items[k], c.items[k]);
      MergeAssociative(x.below, y.below, z.below);
      assert x.attributes + y.attributes + z.attributes == x.attributes + (y.attributes + z.attributes);
      MergeItemDefinition(x, y);
      MergeItemDefinition(y, z);
      MergeItemDefinition(MergeItem(x, y), z);
      MergeItemDefinition(x, MergeItem(y, z));
    }
  }
}
