/**
 The identity form's way of editing: flatten a value to one entry per scalar or empty container, then
 rebuild it from the entries along the original as a template.
 */
module IdentityEditor {
  import opened Outcomes
  import opened Values
  import opened LeafPaths

  /** Something with an entry of its own: a scalar or an empty container. */
  predicate Bare(v: Value)
    ensures Bare(v) <==> forall t :: !Enters(v, t)
  {
    match v
    case Obj(fields) =>
      assert fields != map[] ==> exists k :: k in fields && Enters(v, Key(k));
      fields == map[]
    case Arr(items) =>
      assert items != [] ==> Enters(v, Index(0));
      items == []
    case _ => true
  }

  predicate FieldPath(v: Value, path: Path)
    decreases |path|
  {
    if path == [] then Bare(v) else Enters(v, path[0]) && FieldPath(Child(v, path[0]), path[1..])
  }

  function FieldValue(v: Value, path: Path): Value
    requires FieldPath(v, path)
    decreases |path|
  {
    if path != [] then FieldValue(Child(v, path[0]), path[1..]) else if v.Container() then Str("") else v
  }

  function Tokens(v: Value): (tokens: set<Token>)
    ensures forall t :: t in tokens <==> Enters(v, t)
  {
    match v
    case Obj(fields) => set k | k in fields :: Key(k)
    case Arr(items) => set i | 0 <= i < |items| :: Index(i)
    case _ => {}
  }

  /** `_flatten`: the entries, as the dictionary the form makes of them. */
  function Flatten(v: Value, path: Path): (leaves: map<Path, Value>)
    ensures forall q | q in leaves :: path <= q
    decreases v
  {
    if Bare(v) then map[path := if v.Container() then Str("") else v]
    else
      var below := map t | t in Tokens(v) :: Flatten(Child(v, t), path + [t]);
      map q | q in (set t, q | t in below && q in below[t] :: q) :: below[q[|path|]][q]
  }

  /** The entries of a container are those of its children. */
  lemma FlattenBelow(v: Value, path: Path, q: Path)
    requires !Bare(v)
    ensures var leaves := Flatten(v, path);
      && (q in leaves <==> path < q && Enters(v, q[|path|]) && q in Flatten(Child(v, q[|path|]), path + [q[|path|]]))
      && (q in leaves ==> leaves[q] == Flatten(Child(v, q[|path|]), path + [q[|path|]])[q])
  {
    var below := map t | t in Tokens(v) :: Flatten(Child(v, t), path + [t]);
    if path < q && q[|path|] in below && q in below[q[|path|]] {
      assert q in Flatten(v, path);
    }
  }

  /** There is an entry for exactly the scalars and the empty containers. */
  lemma {:induction false} FlattenEntry(v: Value, path: Path, rest: Path)
    ensures path + rest in Flatten(v, path) <==> FieldPath(v, rest)
    ensures FieldPath(v, rest) ==> path + rest in Flatten(v, path) && Flatten(v, path)[path + rest] == FieldValue(v, rest)
    decreases v
  {
    hide Flatten;
    if Bare(v) {
      FlattenBare(v, path, rest);
    } else {
      FlattenBelow(v, path, path + rest);
      if rest != [] {
        FieldBelow(v, rest);
        if Enters(v, rest[0]) {
          hide Bare, FieldPath, FieldValue;
          FlattenEntry(Child(v, rest[0]), path + [rest[0]], rest[1..]);
          assert path + [rest[0]] + rest[1..] == path + rest;
        }
      }
    }
  }

  lemma FlattenBare(v: Value, path: Path, rest: Path)
    requires Bare(v)
    ensures path + rest in Flatten(v, path) <==> FieldPath(v, rest)
    ensures FieldPath(v, rest) ==> Flatten(v, path)[path + rest] == FieldValue(v, rest)
  {
    assert path + rest == path <==> rest == [];
  }

  lemma FieldBelow(v: Value, rest: Path)
    requires rest != []
    ensures FieldPath(v, rest) <==> Enters(v, rest[0]) && FieldPath(Child(v, rest[0]), rest[1..])
    ensures FieldPath(v, rest) ==> FieldValue(v, rest) == FieldValue(Child(v, rest[0]), rest[1..])
  {
  }

  /** `_rebuild`; no value where an entry is missing, which is a `KeyError`. */
  function Rebuild(template: Value, leaves: map<Path, Value>, path: Path): Option<Value>
    decreases template
  {
    match template
    case Obj(fields) =>
      var parts := map k | k in fields :: Rebuild(fields[k], leaves, path + [Key(k)]);
      if exists k :: k in parts && parts[k].None? then None else Some(Obj(map k | k in parts :: parts[k].value))
    case Arr(items) =>
      var parts := seq(|items|, i requires 0 <= i < |items| => Rebuild(items[i], leaves, path + [Index(i)]));
      if exists i :: 0 <= i < |parts| && parts[i].None? then None
      else Some(Arr(seq(|parts|, i requires 0 <= i < |parts| => parts[i].value)))
    case _ => if path in leaves then Some(leaves[path]) else None
  }

  lemma RebuildFields(fields: map<string, Value>, leaves: map<Path, Value>, path: Path)
    ensures var r := Rebuild(Obj(fields), leaves, path);
      && (r.Some? <==> forall k | k in fields :: Rebuild(fields[k], leaves, path + [Key(k)]).Some?)
      && (r.Some? ==>
        r.value.Obj? && r.value.fields.Keys == fields.Keys
        && forall k | k in fields :: Rebuild(fields[k], leaves, path + [Key(k)]) == Some(r.value.fields[k]))
  {
    var parts := map k | k in fields :: Rebuild(fields[k], leaves, path + [Key(k)]);
    assert forall k | k in fields :: k in parts && parts[k] == Rebuild(fields[k], leaves, path + [Key(k)]);
  }

  lemma RebuildItems(items: seq<Value>, leaves: map<Path, Value>, path: Path)
    ensures var r := Rebuild(Arr(items), leaves, path);
      && (r.Some? <==> forall i | 0 <= i < |items| :: Rebuild(items[i], leaves, path + [Index(i)]).Some?)
      && (r.Some? ==>
        r.value.Arr? && |r.value.items| == |items|
        && forall i | 0 <= i < |items| :: Rebuild(items[i], leaves, path + [Index(i)]) == Some(r.value.items[i]))
  {
    var parts := seq(|items|, i requires 0 <= i < |items| => Rebuild(items[i], leaves, path + [Index(i)]));
    assert forall i | 0 <= i < |items| :: parts[i] == Rebuild(items[i], leaves, path + [Index(i)]);
  }

  lemma RebuildChildren(template: Value, leaves: map<Path, Value>, path: Path)
    requires template.Container()
    ensures var r := Rebuild(template, leaves, path);
      && (r.Some? <==> forall t | Enters(template, t) :: Rebuild(Child(template, t), leaves, path + [t]).Some?)
      && (r.Some? ==>
        && r.value.Obj? == template.Obj? && r.value.Arr? == template.Arr?
        && (forall t :: Enters(r.value, t) <==> Enters(template, t))
        && (forall t | Enters(template, t) :: Rebuild(Child(template, t), leaves, path + [t]) == Some(Child(r.value, t))))
  {
    hide Rebuild;
    match template
    case Obj(fields) =>
      RebuildFields(fields, leaves, path);
      forall k | k in fields ensures Enters(template, Key(k)) && Child(template, Key(k)) == fields[k] {}
    case Arr(items) =>
      RebuildItems(items, leaves, path);
      forall i | 0 <= i < |items| ensures Enters(template, Index(i)) && Child(template, Index(i)) == items[i] {}
  }

  lemma SameChildren(v: Value, w: Value)
    requires v.Container() && v.Obj? == w.Obj? && v.Arr? == w.Arr?
    requires forall t :: Enters(v, t) <==> Enters(w, t)
    requires forall t | Enters(v, t) :: Child(v, t) == Child(w, t)
    ensures v == w
  {
    match v
    case Obj(fields) =>
      forall k ensures k in fields <==> k in w.fields {
        assert Enters(v, Key(k)) <==> Enters(w, Key(k));
      }
      forall k | k in fields ensures fields[k] == w.fields[k] {
        assert Child(v, Key(k)) == Child(w, Key(k));
      }
      assert fields == w.fields;
    case Arr(items) =>
      assert !Enters(v, Index(|items|)) && !Enters(w, Index(|w.items|));
      forall i | 0 <= i < |items| ensures items[i] == w.items[i] {
        assert Child(v, Index(i)) == Child(w, Index(i));
      }
  }

  /** Flattening and rebuilding along the value itself is the identity, empty containers and nested lists included. */
  lemma RebuildRestores(v: Value, path: Path)
    ensures Rebuild(v, Flatten(v, path), path) == Some(v)
  {
    forall q | FieldPath(v, q) ensures path + q in Flatten(v, path) && Flatten(v, path)[path + q] == FieldValue(v, q) {
      FlattenEntry(v, path, q);
    }
    RebuildFromOwnEntries(v, Flatten(v, path), path);
  }

  lemma {:induction false} RebuildFromOwnEntries(v: Value, leaves: map<Path, Value>, path: Path)
    requires forall q | FieldPath(v, q) :: path + q in leaves && leaves[path + q] == FieldValue(v, q)
    ensures Rebuild(v, leaves, path) == Some(v)
    decreases v
  {
    hide Rebuild;
    if v.Container() {
      forall t | Enters(v, t) ensures Rebuild(Child(v, t), leaves, path + [t]) == Some(Child(v, t)) {
        forall q | FieldPath(Child(v, t), q)
          ensures path + [t] + q in leaves && leaves[path + [t] + q] == FieldValue(Child(v, t), q)
        {
          assert ([t] + q)[1..] == q;
          assert FieldPath(v, [t] + q) && path + ([t] + q) == path + [t] + q;
        }
        RebuildFromOwnEntries(Child(v, t), leaves, path + [t]);
      }
      RebuildChildren(v, leaves, path);
      SameChildren(v, Rebuild(v, leaves, path).value);
    } else {
      assert FieldPath(v, []) && path + [] == path;
      RebuildScalar(v, leaves, path);
    }
  }

  lemma RebuildScalar(v: Value, leaves: map<Path, Value>, path: Path)
    requires !v.Container()
    ensures Rebuild(v, leaves, path) == if path in leaves then Some(leaves[path]) else None
  {
  }

  /** Rebuilding succeeds exactly when every scalar of the template has an entry. */
  lemma {:induction false} RebuildsIffCovered(template: Value, leaves: map<Path, Value>, path: Path)
    ensures Rebuild(template, leaves, path).Some? <==> forall q | LeafPath(template, q) :: path + q in leaves
    decreases template
  {
    hide Rebuild;
    if template.Container() {
      RebuildChildren(template, leaves, path);
      forall t | Enters(template, t)
        ensures Rebuild(Child(template, t), leaves, path + [t]).Some? <==>
                forall q | LeafPath(template, q) && q[0] == t :: path + q in leaves
      {
        RebuildsIffCovered(Child(template, t), leaves, path + [t]);
        forall q | LeafPath(template, q) && q[0] == t ensures path + [t] + q[1..] == path + q {}
        forall q | LeafPath(Child(template, t), q) ensures LeafPath(template, [t] + q) && path + ([t] + q) == path + [t] + q {
          assert ([t] + q)[1..] == q;
        }
      }
    } else {
      RebuildScalar(template, leaves, path);
      assert path + [] == path;
      assert forall q :: LeafPath(template, q) <==> q == [];
    }
  }

  /** The same containers with the same keys and lengths, and scalars in the same places. */
  ghost predicate SameShape(v: Value, w: Value) {
    && v.Obj? == w.Obj? && v.Arr? == w.Arr?
    && (forall t :: Enters(v, t) <==> Enters(w, t))
    && (forall t | Enters(v, t) :: SameShape(Child(v, t), Child(w, t)))
  }

  /** Editing scalars keeps the shape, and every entry of the result is the edited one. */
  lemma {:induction false} RebuiltField(template: Value, leaves: map<Path, Value>, path: Path, q: Path)
    requires forall p | p in leaves :: !leaves[p].Container()
    requires Rebuild(template, leaves, path).Some?
    ensures var w := Rebuild(template, leaves, path).value;
      && (FieldPath(w, q) <==> FieldPath(template, q))
      && (LeafPath(w, q) <==> LeafPath(template, q))
      && (FieldPath(w, q) ==>
            FieldValue(w, q) == if LeafPath(template, q) && path + q in leaves then leaves[path + q] else Str(""))
    decreases template
  {
    hide Rebuild;
    if template.Container() {
      RebuildChildren(template, leaves, path);
      if q != [] && Enters(template, q[0]) {
        RebuiltField(Child(template, q[0]), leaves, path + [q[0]], q[1..]);
        assert path + [q[0]] + q[1..] == path + q;
      }
    } else {
      RebuildScalar(template, leaves, path);
      if q == [] {
        assert path + q == path;
      }
    }
  }

  lemma {:induction false} RebuildKeepsShape(template: Value, leaves: map<Path, Value>, path: Path)
    requires forall p | p in leaves :: !leaves[p].Container()
    requires Rebuild(template, leaves, path).Some?
    ensures SameShape(template, Rebuild(template, leaves, path).value)
    decreases template
  {
    hide Rebuild;
    if template.Container() {
      RebuildChildren(template, leaves, path);
      forall t | Enters(template, t)
        ensures SameShape(Child(template, t), Child(Rebuild(template, leaves, path).value, t))
      {
        RebuildKeepsShape(Child(template, t), leaves, path + [t]);
      }
    } else {
      RebuildScalar(template, leaves, path);
    }
  }

  /**
   The other round trip: entries edited to scalars, the placeholders of empty containers left alone, come
   back when the rebuilt value is flattened, and the rebuilt value has the shape of the original.
   */
  lemma EditsReadBack(v: Value, edited: map<Path, Value>)
    requires edited.Keys == Flatten(v, []).Keys
    requires forall q | q in edited :: !edited[q].Container() && (LeafPath(v, q) || edited[q] == Str(""))
    ensures Rebuild(v, edited, []).Some?
    ensures SameShape(v, Rebuild(v, edited, []).value)
    ensures Flatten(Rebuild(v, edited, []).value, []) == edited
  {
    hide Rebuild, SameShape, FieldPath, FieldValue, Flatten;
    forall q | LeafPath(v, q) ensures [] + q in edited {
      LeafIsField(v, q);
      FlattenEntry(v, [], q);
      assert [] + q == q;
    }
    RebuildsIffCovered(v, edited, []);
    RebuildKeepsShape(v, edited, []);
    var w := Rebuild(v, edited, []).value;
    forall q
      ensures q in Flatten(w, []) <==> q in edited
      ensures q in edited ==> Flatten(w, [])[q] == edited[q]
    {
      RebuiltField(v, edited, [], q);
      FlattenEntry(v, [], q);
      FlattenEntry(w, [], q);
      assert [] + q == q;
    }
  }

  lemma {:induction false} LeafIsField(v: Value, q: Path)
    requires LeafPath(v, q)
    ensures FieldPath(v, q)
    decreases |q|
  {
    if q != [] {
      LeafIsField(Child(v, q[0]), q[1..]);
    }
  }
}
