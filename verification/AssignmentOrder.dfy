/**
 When the order of assignment matters to a rebuilt identity: for any values, containers included, and on any
 mapping that was there before.
 */
module AssignmentOrder {
  import opened Outcomes
  import opened Values
  import opened LeafPaths
  import opened IdentityWorkbench

  /** The paths part at some token, into two keys or into two places of a list. */
  predicate Apart(p: Path, q: Path)
    decreases |p|
  {
    p != [] && q != [] && if p[0] == q[0] then Apart(p[1..], q[1..]) else p[0].Key? == q[0].Key?
  }

  lemma {:induction false} ApartBothWays(p: Path, q: Path)
    ensures Apart(p, q) <==> Apart(q, p)
    decreases |p|
  {
    if p != [] && q != [] && p[0] == q[0] {
      ApartBothWays(p[1..], q[1..]);
    }
  }

  /** Different leaves of one value are apart. */
  lemma {:induction false} LeavesApart(v: Value, p: Path, q: Path)
    requires LeafPath(v, p) && LeafPath(v, q) && p != q
    ensures Apart(p, q)
    decreases |p|
  {
    assert p != [] && q != [];
    if p[0] == q[0] {
      assert p == [p[0]] + p[1..] && q == [q[0]] + q[1..];
      LeavesApart(Child(v, p[0]), p[1..], q[1..]);
    }
  }

  // ----- assignment one token at a time

  function FieldsOf(slot: Option<Value>): Fields {
    if slot.Some? && slot.value.Obj? then slot.value.fields else map[]
  }

  function FieldAt(fields: Fields, key: string): Option<Value> {
    if key in fields then Some(fields[key]) else None
  }

  /** The list in a slot, made long enough for a place. */
  function ItemsOf(slot: Option<Value>, place: nat): (items: Option<seq<Value>>)
    ensures items.Some? ==> place < |items.value|
  {
    if slot.Some? && !slot.value.Arr? then None
    else Some(Padded(if slot.Some? then slot.value.items else [], place + 1))
  }

  /** Assigning below a slot; `None` where the code indexes into something that is not a list. */
  function Put(slot: Option<Value>, path: Path, value: Value): Option<Value>
    decreases |path|
  {
    if path == [] then Some(value)
    else
      match path[0]
      case Key(k) =>
        var below := Put(FieldAt(FieldsOf(slot), k), path[1..], value);
        if below.None? then None else Some(Obj(FieldsOf(slot)[k := below.value]))
      case Index(i) =>
        var items := ItemsOf(slot, i);
        if items.None? then None
        else
          var below := Put(Some(items.value[i]), path[1..], value);
          if below.None? then None else Some(Arr(items.value[i := below.value]))
  }

  function Outcome(r: Option<Value>): Result<Fields, PathError> {
    if r.Some? && r.value.Obj? then Success(r.value.fields) else Failure(NotAList)
  }

  lemma AssignableTail(path: Path, n: nat)
    requires Assignable(path) && n < |path| && path[n].Key?
    ensures Assignable(path[n..])
  {
    var rest := path[n..];
    assert forall j | 0 <= j < |rest| :: rest[j] == path[n + j];
  }

  lemma AssignAtKey(root: Fields, path: Path, value: Value)
    requires |path| == 1 && path[0].Key?
    ensures Assign(root, path, value) == Success(root[path[0].name := value])
  {
  }

  lemma AssignBelowKey(root: Fields, path: Path, value: Value)
    requires |path| > 1 && path[0].Key? && path[1].Key?
    ensures var deeper := Assign(FieldsOf(FieldAt(root, path[0].name)), path[1..], value);
      Assign(root, path, value) == if deeper.Failure? then deeper else Success(root[path[0].name := Obj(deeper.value)])
  {
  }

  lemma AssignBelowIndex(root: Fields, path: Path, value: Value)
    requires |path| > 1 && path[0].Key? && path[1].Index?
    ensures var (k, i) := (path[0].name, path[1].place);
      var items := ItemsOf(FieldAt(root, k), i);
      if items.None? then Assign(root, path, value) == Failure(NotAList)
      else if |path| == 2 then Assign(root, path, value) == Success(root[k := Arr(items.value[i := value])])
      else
        var deeper := Assign(FieldsOf(Some(items.value[i])), path[2..], value);
        Assign(root, path, value) == if deeper.Failure? then deeper else Success(root[k := Arr(items.value[i := Obj(deeper.value)])])
  {
    hide Padded;
  }

  lemma RootFields(root: Fields)
    ensures FieldsOf(Some(Obj(root))) == root
  {
  }

  /** Assigning an assignable path is putting it into the root, token by token. */
  lemma {:induction false} AssignIsPut(root: Fields, path: Path, value: Value)
    requires Assignable(path)
    ensures Put(Some(Obj(root)), path, value).Some? ==> Put(Some(Obj(root)), path, value).value.Obj?
    ensures Assign(root, path, value) == Outcome(Put(Some(Obj(root)), path, value))
    decreases |path|
  {
    hide Put, Assign, ItemsOf, FieldsOf, FieldAt;
    var slot := FieldAt(root, path[0].name);
    RootFields(root);
    PutKey(Some(Obj(root)), path, value);
    if |path| == 1 {
      AssignAtKey(root, path, value);
      PutHere(slot, value);
      assert path[1..] == [];
    } else if path[1].Key? {
      AssignBelowKey(root, path, value);
      AssignableTail(path, 1);
      AssignIsPut(FieldsOf(slot), path[1..], value);
      PutThrough(slot, path[1..], value);
    } else {
      AssignBelowIndex(root, path, value);
      AssignBelowPlace(slot, path, value);
    }
  }

  lemma AssignBelowPlace(slot: Option<Value>, path: Path, value: Value)
    requires Assignable(path) && |path| > 1 && path[1].Index?
    ensures var i := path[1].place;
      var items := ItemsOf(slot, i);
      && (items.None? ==> Put(slot, path[1..], value) == None)
      && (items.Some? && |path| == 2 ==> Put(slot, path[1..], value) == Some(Arr(items.value[i := value])))
      && (items.Some? && |path| > 2 ==>
            var deeper := Assign(FieldsOf(Some(items.value[i])), path[2..], value);
            Put(slot, path[1..], value) == if deeper.Failure? then None else Some(Arr(items.value[i := Obj(deeper.value)])))
      && (items.Some? && |path| > 2 ==>
            var deeper := Assign(FieldsOf(Some(items.value[i])), path[2..], value); deeper.Failure? ==> deeper == Failure(NotAList))
    decreases |path|, 0
  {
    hide Put, Padded, Assign;
    var i := path[1].place;
    PutIndex(slot, path[1..], value);
    assert path[1..][1..] == path[2..];
    if ItemsOf(slot, i).Some? {
      var item := Some(ItemsOf(slot, i).value[i]);
      if |path| == 2 {
        PutHere(item, value);
        assert path[2..] == [];
      } else {
        assert !(path[1].Index? && path[2].Index?);
        AssignableTail(path, 2);
        AssignIsPut(FieldsOf(item), path[2..], value);
        PutThrough(item, path[2..], value);
      }
    }
  }

  lemma PutHere(slot: Option<Value>, value: Value)
    ensures Put(slot, [], value) == Some(value)
  {
  }

  /** Below a key, only a mapping in the slot matters. */
  lemma PutThrough(slot: Option<Value>, path: Path, value: Value)
    requires path != [] && path[0].Key?
    ensures Put(slot, path, value) == Put(Some(Obj(FieldsOf(slot))), path, value)
  {
  }

  // ----- two assignments

  function PutBoth(slot: Option<Value>, p: Path, x: Value, q: Path, y: Value): Option<Value> {
    var first := Put(slot, p, x);
    if first.None? then None else Put(first, q, y)
  }

  lemma PutKey(slot: Option<Value>, path: Path, value: Value)
    requires path != [] && path[0].Key?
    ensures var fields, k := FieldsOf(slot), path[0].name;
      var below := Put(FieldAt(fields, k), path[1..], value);
      Put(slot, path, value) == if below.None? then None else Some(Obj(fields[k := below.value]))
  {
  }

  lemma PutIndex(slot: Option<Value>, path: Path, value: Value)
    requires path != [] && path[0].Index?
    ensures var i := path[0].place;
      var items := ItemsOf(slot, i);
      && (items.None? ==> Put(slot, path, value) == None)
      && (items.Some? ==>
            var below := Put(Some(items.value[i]), path[1..], value);
            Put(slot, path, value) == if below.None? then None else Some(Arr(items.value[i := below.value])))
  {
  }

  lemma {:induction false} PutsCommute(slot: Option<Value>, p: Path, x: Value, q: Path, y: Value)
    requires Apart(p, q)
    ensures PutBoth(slot, p, x, q, y) == PutBoth(slot, q, y, p, x)
    decreases |p|
  {
    if p[0] == q[0] {
      PutsCommute(if p[0].Key? then FieldAt(FieldsOf(slot), p[0].name)
                  else if ItemsOf(slot, p[0].place).Some? then Some(ItemsOf(slot, p[0].place).value[p[0].place]) else None,
                  p[1..], x, q[1..], y);
      PutsBelow(slot, p, x, q, y);
      PutsBelow(slot, q, y, p, x);
    } else if p[0].Key? {
      PutsBeside(slot, p, x, q, y);
    } else {
      PutsAtPlaces(slot, p, x, q, y);
    }
  }

  /** What the first token leads to. */
  function Inner(slot: Option<Value>, t: Token): Option<Value> {
    match t
    case Key(k) => FieldAt(FieldsOf(slot), k)
    case Index(i) => if ItemsOf(slot, i).Some? then Some(ItemsOf(slot, i).value[i]) else None
  }

  /** A slot with another value behind its first token. */
  function Wrapped(slot: Option<Value>, t: Token, inner: Value): Option<Value> {
    match t
    case Key(k) => Some(Obj(FieldsOf(slot)[k := inner]))
    case Index(i) => if ItemsOf(slot, i).Some? then Some(Arr(ItemsOf(slot, i).value[i := inner])) else None
  }

  lemma PutInner(slot: Option<Value>, path: Path, value: Value)
    requires path != []
    ensures var t := path[0];
      var below := Put(Inner(slot, t), path[1..], value);
      Put(slot, path, value) ==
        if (t.Index? && ItemsOf(slot, t.place).None?) || below.None? then None else Wrapped(slot, t, below.value)
  {
    if path[0].Key? {
      PutKey(slot, path, value);
    } else {
      PutIndex(slot, path, value);
    }
  }

  lemma WrappedTwice(slot: Option<Value>, t: Token, a: Value, b: Value)
    requires t.Index? ==> ItemsOf(slot, t.place).Some?
    ensures var once := Wrapped(slot, t, a);
      && Inner(once, t) == Some(a) && (t.Index? ==> ItemsOf(once, t.place).Some?)
      && Wrapped(once, t, b) == Wrapped(slot, t, b)
  {
    if t.Key? {
      assert FieldsOf(slot)[t.name := a][t.name := b] == FieldsOf(slot)[t.name := b];
    } else {
      var items := ItemsOf(slot, t.place).value;
      assert Padded(items[t.place := a], t.place + 1) == items[t.place := a];
      assert items[t.place := a][t.place := b] == items[t.place := b];
    }
  }

  lemma PutsBelow(slot: Option<Value>, p: Path, x: Value, q: Path, y: Value)
    requires p != [] && q != [] && p[0] == q[0]
    ensures var t := p[0];
      var below := PutBoth(Inner(slot, t), p[1..], x, q[1..], y);
      PutBoth(slot, p, x, q, y) ==
        if (t.Index? && ItemsOf(slot, t.place).None?) || below.None? then None else Wrapped(slot, t, below.value)
  {
    hide Put, Inner, Wrapped, ItemsOf;
    var t := p[0];
    PutInner(slot, p, x);
    var a := Put(Inner(slot, t), p[1..], x);
    if a.Some? && (t.Index? ==> ItemsOf(slot, t.place).Some?) {
      var once := Wrapped(slot, t, a.value);
      PutInner(once, q, y);
      var b := Put(a, q[1..], y);
      WrappedTwice(slot, t, a.value, if b.Some? then b.value else a.value);
      assert once.Some? by { WrappedSome(slot, t, a.value); }
    }
  }

  lemma WrappedSome(slot: Option<Value>, t: Token, inner: Value)
    requires t.Index? ==> ItemsOf(slot, t.place).Some?
    ensures Wrapped(slot, t, inner).Some?
  {
  }

  /** One mapping, two keys: the second assignment meets what it would have met without the first. */
  lemma PutsBesideFirst(slot: Option<Value>, p: Path, x: Value, q: Path, y: Value)
    requires p != [] && q != [] && p[0].Key? && q[0].Key? && p[0] != q[0]
    ensures var (k, l) := (p[0].name, q[0].name);
      var (a, b) := (Put(FieldAt(FieldsOf(slot), k), p[1..], x), Put(FieldAt(FieldsOf(slot), l), q[1..], y));
      PutBoth(slot, p, x, q, y) == if a.None? || b.None? then None else Some(Obj(FieldsOf(slot)[k := a.value][l := b.value]))
  {
    hide Put;
    var (k, l, fields) := (p[0].name, q[0].name, FieldsOf(slot));
    var a := Put(FieldAt(fields, k), p[1..], x);
    PutKey(slot, p, x);
    if a.Some? {
      PutKey(Some(Obj(fields[k := a.value])), q, y);
      assert FieldAt(fields[k := a.value], l) == FieldAt(fields, l);
    }
  }

  lemma PutsBeside(slot: Option<Value>, p: Path, x: Value, q: Path, y: Value)
    requires p != [] && q != [] && p[0].Key? && q[0].Key? && p[0] != q[0]
    ensures PutBoth(slot, p, x, q, y) == PutBoth(slot, q, y, p, x)
  {
    hide Put, PutBoth;
    PutsBesideFirst(slot, p, x, q, y);
    PutsBesideFirst(slot, q, y, p, x);
    var (k, l, fields) := (p[0].name, q[0].name, FieldsOf(slot));
    var (a, b) := (Put(FieldAt(fields, k), p[1..], x), Put(FieldAt(fields, l), q[1..], y));
    if a.Some? && b.Some? {
      assert fields[k := a.value][l := b.value] == fields[l := b.value][k := a.value];
    }
  }

  function Base(slot: Option<Value>): seq<Value> {
    if slot.Some? && slot.value.Arr? then slot.value.items else []
  }

  predicate Listed(slot: Option<Value>) {
    slot.None? || slot.value.Arr?
  }

  /** A list padded for a place: the item it has there, and the list with another item there. */
  function ItemAt(base: seq<Value>, i: nat): Value {
    Padded(base, i + 1)[i]
  }

  function WithItem(base: seq<Value>, i: nat, a: Value): seq<Value> {
    Padded(base, i + 1)[i := a]
  }

  lemma ItemAfter(base: seq<Value>, i: nat, a: Value, j: nat)
    requires i != j
    ensures ItemAt(WithItem(base, i, a), j) == ItemAt(base, j)
  {
  }

  lemma ItemsEitherWay(base: seq<Value>, i: nat, a: Value, j: nat, b: Value)
    requires i != j
    ensures WithItem(WithItem(base, i, a), j, b) == WithItem(WithItem(base, j, b), i, a)
  {
    var (one, other) := (WithItem(WithItem(base, i, a), j, b), WithItem(WithItem(base, j, b), i, a));
    assert |one| == |other|;
    forall k | 0 <= k < |one| ensures one[k] == other[k] {}
  }

  lemma ItemsFromBase(slot: Option<Value>, i: nat)
    ensures ItemsOf(slot, i) == if Listed(slot) then Some(Padded(Base(slot), i + 1)) else None
  {
  }

  lemma PutAtPlace(slot: Option<Value>, p: Path, x: Value)
    requires p != [] && p[0].Index?
    ensures var i := p[0].place;
      var a := Put(Some(ItemAt(Base(slot), i)), p[1..], x);
      Put(slot, p, x) == if !Listed(slot) || a.None? then None else Some(Arr(WithItem(Base(slot), i, a.value)))
  {
    hide Put, ItemsOf, Padded, Base, Listed;
    PutIndex(slot, p, x);
    ItemsFromBase(slot, p[0].place);
  }

  lemma ListIsBase(items: seq<Value>)
    ensures Base(Some(Arr(items))) == items && Listed(Some(Arr(items)))
  {
  }

  /** One list, two places: the second assignment meets what it would have met without the first. */
  lemma PutsAtPlacesFirst(slot: Option<Value>, p: Path, x: Value, q: Path, y: Value)
    requires p != [] && q != [] && p[0].Index? && q[0].Index? && p[0] != q[0]
    ensures var (i, j, base) := (p[0].place, q[0].place, Base(slot));
      var (a, b) := (Put(Some(ItemAt(base, i)), p[1..], x), Put(Some(ItemAt(base, j)), q[1..], y));
      PutBoth(slot, p, x, q, y) ==
        if !Listed(slot) || a.None? || b.None? then None else Some(Arr(WithItem(WithItem(base, i, a.value), j, b.value)))
  {
    hide Put, ItemAt, WithItem, Base, Listed;
    var (i, j, base) := (p[0].place, q[0].place, Base(slot));
    var a := Put(Some(ItemAt(base, i)), p[1..], x);
    PutAtPlace(slot, p, x);
    if Listed(slot) && a.Some? {
      var first := WithItem(base, i, a.value);
      PutAtPlace(Some(Arr(first)), q, y);
      ListIsBase(first);
      ItemAfter(base, i, a.value, j);
    }
  }

  lemma PutsAtPlaces(slot: Option<Value>, p: Path, x: Value, q: Path, y: Value)
    requires p != [] && q != [] && p[0].Index? && q[0].Index? && p[0] != q[0]
    ensures PutBoth(slot, p, x, q, y) == PutBoth(slot, q, y, p, x)
  {
    hide Put, PutBoth, ItemAt, WithItem;
    PutsAtPlacesFirst(slot, p, x, q, y);
    PutsAtPlacesFirst(slot, q, y, p, x);
    var (i, j, base) := (p[0].place, q[0].place, Base(slot));
    var (a, b) := (Put(Some(ItemAt(base, i)), p[1..], x), Put(Some(ItemAt(base, j)), q[1..], y));
    if a.Some? && b.Some? {
      ItemsEitherWay(base, i, a.value, j, b.value);
    }
  }

  // ----- paths that are not apart

  /** What may follow on an assignable path: no index after an index. */
  predicate Continues(path: Path, afterIndex: bool)
    decreases |path|
  {
    path == [] || (!(afterIndex && path[0].Index?) && Continues(path[1..], path[0].Index?))
  }

  /** A slot nothing was assigned to: missing, or, in a list, an empty mapping. */
  predicate Blank(slot: Option<Value>, afterIndex: bool) {
    slot == if afterIndex then Some(EMPTY) else None
  }

  lemma BlankInner(slot: Option<Value>, afterIndex: bool, t: Token)
    requires Blank(slot, afterIndex) && !(afterIndex && t.Index?)
    ensures FieldsOf(slot) == map[] && Blank(Inner(slot, t), t.Index?) && (t.Index? ==> ItemsOf(slot, t.place).Some?)
  {
  }

  lemma {:induction false} BlankTakes(slot: Option<Value>, afterIndex: bool, path: Path, value: Value)
    requires Blank(slot, afterIndex) && Continues(path, afterIndex)
    ensures Put(slot, path, value).Some?
    ensures path != [] ==> Put(slot, path, value).value.Container() && (path[0].Key? <==> Put(slot, path, value).value.Obj?)
    decreases |path|
  {
    if path != [] {
      BlankInner(slot, afterIndex, path[0]);
      BlankTakes(Inner(slot, path[0]), path[0].Index?, path[1..], value);
      PutInner(slot, path, value);
    }
  }

  lemma {:induction false} OrderShows(slot: Option<Value>, afterIndex: bool, p: Path, q: Path)
    requires Blank(slot, afterIndex) && Continues(p, afterIndex) && Continues(q, afterIndex) && !Apart(p, q)
    ensures PutBoth(slot, p, Null, q, Bool(true)) != PutBoth(slot, q, Bool(true), p, Null)
    decreases |p|
  {
    hide Put;
    BlankTakes(slot, afterIndex, p, Null);
    BlankTakes(slot, afterIndex, q, Bool(true));
    if p == [] || q == [] {
      OrderShowsAtEnd(slot, p, q);
    } else if p[0] == q[0] {
      var t := p[0];
      BlankInner(slot, afterIndex, t);
      OrderShows(Inner(slot, t), t.Index?, p[1..], q[1..]);
      PutsBelow(slot, p, Null, q, Bool(true));
      PutsBelow(slot, q, Bool(true), p, Null);
      WrappedApart(slot, t);
    } else if p[0].Key? {
      IndexAfterKey(slot, p, Null, q, Bool(true));
      KeyAfterIndex(Put(slot, q, Bool(true)), p, Null, slot);
    } else {
      IndexAfterKey(slot, q, Bool(true), p, Null);
      KeyAfterIndex(Put(slot, p, Null), q, Bool(true), slot);
    }
  }

  lemma WrappedApart(slot: Option<Value>, t: Token)
    requires t.Index? ==> ItemsOf(slot, t.place).Some?
    ensures forall a, b | Wrapped(slot, t, a) == Wrapped(slot, t, b) :: a == b
  {
    forall a, b | Wrapped(slot, t, a) == Wrapped(slot, t, b) ensures a == b {
      if t.Key? {
        assert FieldsOf(slot)[t.name := a][t.name] == FieldsOf(slot)[t.name := b][t.name];
      } else {
        assert ItemsOf(slot, t.place).value[t.place := a][t.place] == ItemsOf(slot, t.place).value[t.place := b][t.place];
      }
    }
  }

  lemma OrderShowsAtEnd(slot: Option<Value>, p: Path, q: Path)
    requires p == [] || q == []
    requires Put(slot, p, Null).Some? && Put(slot, q, Bool(true)).Some?
    ensures PutBoth(slot, p, Null, q, Bool(true)) != PutBoth(slot, q, Bool(true), p, Null)
  {
    if p != [] {
      PutIsContainer(Put(slot, q, Bool(true)), p, Null);
    }
    if q != [] {
      PutIsContainer(Put(slot, p, Null), q, Bool(true));
    }
  }

  lemma PutIsContainer(slot: Option<Value>, path: Path, value: Value)
    requires path != []
    ensures Put(slot, path, value).Some? ==> Put(slot, path, value).value.Container()
  {
  }

  lemma IndexAfterKey(slot: Option<Value>, p: Path, x: Value, q: Path, y: Value)
    requires p != [] && q != [] && p[0].Key? && q[0].Index?
    ensures PutBoth(slot, p, x, q, y) == None
  {
    PutKey(slot, p, x);
  }

  /** A key assigned over a list replaces it; no list is needed below. */
  lemma KeyAfterIndex(slot: Option<Value>, path: Path, value: Value, blank: Option<Value>)
    requires path != [] && path[0].Key? && slot.Some? && slot.value.Arr?
    requires FieldsOf(blank) == map[] && Put(blank, path, value).Some?
    ensures Put(slot, path, value).Some?
  {
    PutKey(slot, path, value);
    PutKey(blank, path, value);
  }

  // ----- assignment to a mapping

  function AssignBoth(root: Fields, p: Path, x: Value, q: Path, y: Value): Result<Fields, PathError>
    requires p != [] && q != []
  {
    var first := Assign(root, p, x);
    if first.Failure? then first else Assign(first.value, q, y)
  }

  lemma AssignBothIsPutBoth(root: Fields, p: Path, x: Value, q: Path, y: Value)
    requires Assignable(p) && Assignable(q)
    ensures AssignBoth(root, p, x, q, y) == Outcome(PutBoth(Some(Obj(root)), p, x, q, y))
    ensures PutBoth(Some(Obj(root)), p, x, q, y).Some? ==> PutBoth(Some(Obj(root)), p, x, q, y).value.Obj?
  {
    hide Put, Assign, Assignable;
    AssignIsPut(root, p, x);
    var first := Put(Some(Obj(root)), p, x);
    if first.Some? {
      AssignIsPut(first.value.fields, q, y);
    }
  }

  lemma AssignableContinues(path: Path)
    requires Assignable(path)
    ensures Continues(path, true)
  {
    ContinuesFrom(path, 0);
    assert path[0..] == path;
  }

  lemma {:induction false} ContinuesFrom(path: Path, n: nat)
    requires n <= |path| && forall j | 0 <= j < |path| - 1 :: !(path[j].Index? && path[j + 1].Index?)
    ensures Continues(path[n..], n > 0 && path[n - 1].Index?)
    decreases |path| - n
  {
    if n < |path| {
      ContinuesFrom(path, n + 1);
      assert path[n..][1..] == path[n + 1..] && path[n..][0] == path[n];
    }
  }

  /**
   Two assignments may be swapped on every mapping and for all values, containers included and failures
   included, exactly when their paths are apart.
   */
  lemma OrderIrrelevantIffApart(p: Path, q: Path)
    requires Assignable(p) && Assignable(q)
    ensures Apart(p, q) <==> forall root, x, y :: AssignBoth(root, p, x, q, y) == AssignBoth(root, q, y, p, x)
  {
    hide Put, Assign, Assignable, PutBoth, AssignBoth;
    if Apart(p, q) {
      forall root, x, y ensures AssignBoth(root, p, x, q, y) == AssignBoth(root, q, y, p, x) {
        AssignBothIsPutBoth(root, p, x, q, y);
        AssignBothIsPutBoth(root, q, y, p, x);
        PutsCommute(Some(Obj(root)), p, x, q, y);
      }
    } else {
      AssignBothIsPutBoth(map[], p, Null, q, Bool(true));
      AssignBothIsPutBoth(map[], q, Bool(true), p, Null);
      AssignableContinues(p);
      AssignableContinues(q);
      OrderShows(Some(EMPTY), true, p, q);
    }
  }

  // ----- rebuilding in any order

  type Leaf = (Path, Value)

  /** One round of the loop of `_rebuild_from_paths`. */
  function Round(r: Result<Fields, PathError>, leaf: Leaf): Result<Fields, PathError> {
    if r.Failure? || leaf.0 == [] then r else Assign(r.value, leaf.0, leaf.1)
  }

  lemma RebuiltRound(root: Fields, leaves: seq<Leaf>, last: Leaf)
    ensures Rebuilt(root, leaves + [last]) == Round(Rebuilt(root, leaves), last)
  {
    assert (leaves + [last])[..|leaves|] == leaves;
  }

  /** Two leaves that may change places: apart, or one of them the root's, which is passed over. */
  predicate Swappable(a: Leaf, b: Leaf) {
    a.0 == [] || b.0 == [] || (Assignable(a.0) && Assignable(b.0) && Apart(a.0, b.0))
  }

  lemma RoundsSwap(r: Result<Fields, PathError>, a: Leaf, b: Leaf)
    requires Swappable(a, b)
    ensures Round(Round(r, a), b) == Round(Round(r, b), a)
  {
    hide Assign, Assignable;
    if r.Success? && a.0 != [] && b.0 != [] {
      OrderIrrelevantIffApart(a.0, b.0);
      assert AssignBoth(r.value, a.0, a.1, b.0, b.1) == AssignBoth(r.value, b.0, b.1, a.0, a.1);
      ApartBothFail(r.value, a, b);
    }
  }

  /** Whichever of two swappable assignments fails first, the error is the same. */
  lemma ApartBothFail(root: Fields, a: Leaf, b: Leaf)
    requires Swappable(a, b) && a.0 != [] && b.0 != []
    ensures AssignBoth(root, a.0, a.1, b.0, b.1) == Round(Round(Success(root), a), b)
    ensures AssignBoth(root, b.0, b.1, a.0, a.1) == Round(Round(Success(root), b), a)
  {
    hide Assign, Assignable;
  }

  lemma {:induction false} LeafToEnd(root: Fields, before: seq<Leaf>, leaf: Leaf, behind: seq<Leaf>)
    requires forall other | other in behind :: Swappable(leaf, other)
    ensures Rebuilt(root, before + [leaf] + behind) == Rebuilt(root, before + behind + [leaf])
    decreases |behind|
  {
    hide Rebuilt, Swappable, Round;
    if behind == [] {
      assert before + [leaf] + behind == before + behind + [leaf];
    } else {
      var init, last := behind[..|behind| - 1], behind[|behind| - 1];
      LeafToEnd(root, before, leaf, init);
      assert before + [leaf] + behind == (before + [leaf] + init) + [last];
      assert before + behind == (before + init) + [last];
      RebuiltRound(root, before + [leaf] + init, last);
      RebuiltRound(root, before + init, leaf);
      RebuiltRound(root, before + init, last);
      RebuiltRound(root, before + behind, leaf);
      RoundsSwap(Rebuilt(root, before + init), leaf, last);
    }
  }

  ghost predicate AllSwappable(leaves: seq<Leaf>) {
    forall i, j | 0 <= i < j < |leaves| :: Swappable(leaves[i], leaves[j])
  }

  lemma {:induction false} SwappableInAnyOrder(root: Fields, leaves: seq<Leaf>, other: seq<Leaf>)
    requires AllSwappable(leaves) && multiset(leaves) == multiset(other)
    ensures Rebuilt(root, leaves) == Rebuilt(root, other)
    decreases |other|
  {
    hide Rebuilt, Swappable;
    if other == [] {
      assert |multiset(leaves)| == 0;
    } else {
      var init, last := other[..|other| - 1], other[|other| - 1];
      assert other == init + [last];
      var i := PlaceOf(leaves, init, last);
      var before, behind := leaves[..i], leaves[i + 1..];
      forall m | m in behind ensures Swappable(last, m) {
        var j :| i < j < |leaves| && leaves[j] == m;
      }
      LeafToEnd(root, before, last, behind);
      WithoutSwappable(leaves, i);
      SwappableInAnyOrder(root, before + behind, init);
      RebuiltRound(root, before + behind, last);
      RebuiltRound(root, init, last);
    }
  }

  lemma PlaceOf(leaves: seq<Leaf>, init: seq<Leaf>, last: Leaf) returns (i: nat)
    requires multiset(leaves) == multiset(init + [last])
    ensures i < |leaves| && leaves[i] == last && leaves == leaves[..i] + [last] + leaves[i + 1..]
    ensures multiset(leaves[..i] + leaves[i + 1..]) == multiset(init)
  {
    assert last in multiset(init + [last]);
    i :| 0 <= i < |leaves| && leaves[i] == last;
    WithoutOne(leaves, i);
    SameWithoutLast(multiset(leaves[..i] + leaves[i + 1..]), multiset(init), last);
  }

  lemma WithoutOne(leaves: seq<Leaf>, i: nat)
    requires i < |leaves|
    ensures leaves == leaves[..i] + [leaves[i]] + leaves[i + 1..]
    ensures multiset(leaves) == multiset(leaves[..i] + leaves[i + 1..]) + multiset{leaves[i]}
  {
    assert leaves == leaves[..i] + [leaves[i]] + leaves[i + 1..];
  }

  lemma SameWithoutLast(a: multiset<Leaf>, b: multiset<Leaf>, last: Leaf)
    requires a + multiset{last} == b + multiset{last}
    ensures a == b
  {
    assert a == a + multiset{last} - multiset{last};
    assert b == b + multiset{last} - multiset{last};
  }

  lemma WithoutSwappable(leaves: seq<Leaf>, i: nat)
    requires AllSwappable(leaves) && i < |leaves|
    ensures AllSwappable(leaves[..i] + leaves[i + 1..])
  {
    hide Swappable;
    var rest := leaves[..i] + leaves[i + 1..];
    forall a, b | 0 <= a < b < |rest| ensures Swappable(rest[a], rest[b]) {
      assert rest[a] == leaves[if a < i then a else a + 1] && rest[b] == leaves[if b < i then b else b + 1];
    }
  }

  // ----- any leaves whose paths are apart

  /** Apart from the root's own, every two paths are apart. */
  ghost predicate AllApart(leaves: seq<Leaf>) {
    forall i, j | 0 <= i < j < |leaves| :: leaves[i].0 == [] || leaves[j].0 == [] || Apart(leaves[i].0, leaves[j].0)
  }

  predicate Refused(leaf: Leaf) {
    leaf.0 != [] && !Assignable(leaf.0)
  }

  lemma {:induction false} RefusedFails(root: Fields, leaves: seq<Leaf>, leaf: Leaf)
    requires leaf in leaves && Refused(leaf)
    ensures Rebuilt(root, leaves).Failure?
    decreases |leaves|
  {
    hide Assign, Assignable;
    var init, last := leaves[..|leaves| - 1], leaves[|leaves| - 1];
    assert leaves == init + [last];
    if leaf in init {
      RefusedFails(root, init, leaf);
    } else if Rebuilt(root, init).Success? {
      UnassignableFails(Rebuilt(root, init).value, last.0, last.1);
    }
  }

  /**
   Rebuilding from leaves whose paths are pairwise apart gives the same in every order, whatever their values
   are and whatever is there before: the same mapping, or a failure every time.
   */
  lemma RebuiltInAnyOrder(root: Fields, leaves: seq<Leaf>, other: seq<Leaf>)
    requires AllApart(leaves) && multiset(leaves) == multiset(other)
    ensures Rebuilt(root, leaves).Success? <==> Rebuilt(root, other).Success?
    ensures Rebuilt(root, leaves).Success? ==> Rebuilt(root, leaves) == Rebuilt(root, other)
  {
    hide Rebuilt, Assignable;
    assert forall leaf :: leaf in leaves <==> leaf in multiset(other);
    if leaf :| leaf in leaves && Refused(leaf) {
      RefusedFails(root, leaves, leaf);
      RefusedFails(root, other, leaf);
    } else {
      forall i, j | 0 <= i < j < |leaves| ensures Swappable(leaves[i], leaves[j]) {
        assert !Refused(leaves[i]) && !Refused(leaves[j]);
      }
      SwappableInAnyOrder(root, leaves, other);
    }
  }

  /** Neither path is a prefix of the other, and still the order decides: "a" becomes a mapping, or the second assignment fails. */
  lemma PrefixFreeNotEnough(x: Value, y: Value)
    ensures var p, q := [Key("a"), Index(1)], [Key("a"), Key("b")];
      && !(p <= q) && !(q <= p) && !Apart(p, q)
      && Rebuilt(map[], [(p, x), (q, y)]) == Success(map["a" := Obj(map["b" := y])])
      && Rebuilt(map[], [(q, y), (p, x)]) == Failure(NotAList)
  {
    var p: Path, q: Path := [Key("a"), Index(1)], [Key("a"), Key("b")];
    assert p[0] == q[0] && p[1..] == [Index(1)] && q[1..] == [Key("b")];
    var list: Fields := map["a" := Arr([EMPTY, x])];
    var tree: Fields := map["a" := Obj(map["b" := y])];
    assert Padded([], 2) == [EMPTY, EMPTY];
    assert [EMPTY, EMPTY][1 := x] == [EMPTY, x];
    assert Assign(map[], p, x) == Success(list);
    assert Assign(map[], [Key("b")], y) == Success(map["b" := y]);
    AssignBelowKey(list, q, y);
    AssignBelowKey(map[], q, y);
    assert list["a" := Obj(map["b" := y])] == tree;
    assert Assign(map[], q, y) == Success(tree);
    assert Assign(tree, p, x) == Failure(NotAList);
    RebuiltPair((p, x), (q, y));
    RebuiltPair((q, y), (p, x));
  }

  lemma RebuiltPair(a: Leaf, b: Leaf)
    ensures Rebuilt(map[], [a, b]) == Round(Round(Success(map[]), a), b)
  {
    assert Rebuilt(map[], []) == Success(map[]);
    RebuiltRound(map[], [], a);
    RebuiltRound(map[], [a], b);
    assert [] + [a] == [a] && [a] + [b] == [a, b];
  }
}
