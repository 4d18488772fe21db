/** What assigning one path changes of nested values, place by place. */
module Assignments {
  import opened Outcomes
  import opened Values
  import opened LeafPaths
  import opened IdentityWorkbench
  import opened AssignmentOrder

  /** What stands at a path below a slot that may be empty. */
  function StandsAt(slot: Option<Value>, path: Path): Option<Value> {
    if slot.None? then None else NodeAt(slot.value, path)
  }

  /** On its way the path meets something other than a list where it goes on with an index. */
  ghost predicate Blocked(slot: Option<Value>, path: Path) {
    exists i | 0 <= i < |path| :: path[i].Index? && StandsAt(slot, path[..i]).Some? && !StandsAt(slot, path[..i]).value.Arr?
  }

  predicate NoIndexTwice(path: Path) {
    forall j | 0 <= j < |path| - 1 :: !(path[j].Index? && path[j + 1].Index?)
  }

  lemma StandsStep(slot: Option<Value>, path: Path)
    requires path != []
    ensures StandsAt(slot, path) ==
      if slot.Some? && Enters(slot.value, path[0]) then NodeAt(Child(slot.value, path[0]), path[1..]) else None
  {
  }

  /** The slot behind the first token, before the assignment makes anything of it. */
  function Behind(slot: Option<Value>, t: Token): Option<Value> {
    if slot.Some? && Enters(slot.value, t) then Some(Child(slot.value, t)) else None
  }

  lemma {:induction false} BlockedStep(slot: Option<Value>, path: Path)
    requires path != []
    ensures Blocked(slot, path) <==>
      (path[0].Index? && slot.Some? && !slot.value.Arr?) || Blocked(Behind(slot, path[0]), path[1..])
  {
    var rest := path[1..];
    assert path[..0] == [] && StandsAt(slot, []) == slot;
    forall i | 1 <= i < |path| ensures StandsAt(slot, path[..i]) == StandsAt(Behind(slot, path[0]), rest[..i - 1]) {
      assert path[..i][1..] == rest[..i - 1];
      StandsStep(slot, path[..i]);
    }
    if Blocked(Behind(slot, path[0]), rest) {
      var i :| 0 <= i < |rest| && rest[i].Index? && StandsAt(Behind(slot, path[0]), rest[..i]).Some?
        && !StandsAt(Behind(slot, path[0]), rest[..i]).value.Arr?;
      assert path[i + 1] == rest[i];
    }
    if Blocked(slot, path) {
      var i :| 0 <= i < |path| && path[i].Index? && StandsAt(slot, path[..i]).Some? && !StandsAt(slot, path[..i]).value.Arr?;
      if i > 0 {
        assert rest[i - 1] == path[i];
      }
    }
  }

  /** A freshly padded place and an empty slot differ only in what stands right there. */
  lemma PaddedOrEmpty(path: Path)
    requires path != [] ==> path[0].Key?
    ensures Blocked(Some(EMPTY), path) <==> Blocked(None, path)
    ensures path != [] ==> StandsAt(Some(EMPTY), path) == None
  {
    forall i | 0 <= i < |path| && path[i].Index? ensures StandsAt(Some(EMPTY), path[..i]) == None {
      assert i > 0 && path[..i][0] == path[0];
    }
  }

  /** What an assignment is handed behind the first token: what stands there, or for a place past the end the padding. */
  lemma InnerIsBehind(slot: Option<Value>, t: Token)
    requires t.Index? ==> ItemsOf(slot, t.place).Some?
    ensures Inner(slot, t) == Behind(slot, t) || (t.Index? && Behind(slot, t).None? && Inner(slot, t) == Some(EMPTY))
  {
  }

  /** On the way of the path, a mapping under a key and a list, just long enough, over an index. */
  predicate OnTheWay(slot: Option<Value>, after: Value, path: Path, i: nat)
    requires i < |path|
  {
    var (was, now) := (StandsAt(slot, path[..i]), NodeAt(after, path[..i]));
    && now.Some?
    && if path[i].Key? then now.value.Obj?
       else
         var length := if was.Some? && was.value.Arr? then |was.value.items| else 0;
         now.value.Arr? && |now.value.items| == if length <= path[i].place then path[i].place + 1 else length
  }

  /** An assignment fails exactly when the way is blocked. */
  lemma {:induction false} PutSucceedsIff(slot: Option<Value>, path: Path, value: Value)
    requires NoIndexTwice(path)
    ensures Put(slot, path, value).Some? <==> !Blocked(slot, path)
    decreases |path|
  {
    hide Put, Blocked, Inner, Wrapped, ItemsOf;
    if path == [] {
      PutHere(slot, value);
      NothingBlocks(slot);
    } else {
      var (t, rest) := (path[0], path[1..]);
      BlockedStep(slot, path);
      PutInner(slot, path, value);
      if t.Index? { ListOrNot(slot, t); }
      if !t.Index? || ItemsOf(slot, t.place).Some? {
        InnerIsBehind(slot, t);
        if rest == [] || rest[0].Key? { PaddedOrEmpty(rest); }
        PutSucceedsIff(Inner(slot, t), rest, value);
        if Put(Inner(slot, t), rest, value).Some? {
          WrappedHolds(slot, t, Put(Inner(slot, t), rest, value).value);
        }
      }
    }
  }

  /** Otherwise the value stands at the end of the path. */
  lemma {:induction false} PutArrives(slot: Option<Value>, path: Path, value: Value)
    requires NoIndexTwice(path) && Put(slot, path, value).Some?
    ensures var after := Put(slot, path, value).value;
      NodeAt(after, path) == Some(value) && forall i | 0 <= i < |path| :: OnTheWay(slot, after, path, i)
    decreases |path|
  {
    hide Put, Inner, Wrapped, ItemsOf, OnTheWay;
    if path == [] {
      PutHere(slot, value);
    } else {
      var (t, rest) := (path[0], path[1..]);
      PutInner(slot, path, value);
      if t.Index? { ListOrNot(slot, t); }
      PutArrives(Inner(slot, t), rest, value);
      var below := Put(Inner(slot, t), rest, value).value;
      WrappedHolds(slot, t, below);
      WholeWay(slot, t, below, path);
    }
  }

  lemma NothingBlocks(slot: Option<Value>)
    ensures !Blocked(slot, [])
  {
  }

  lemma ListOrNot(slot: Option<Value>, t: Token)
    requires t.Index?
    ensures ItemsOf(slot, t.place).None? <==> slot.Some? && !slot.value.Arr?
  {
  }

  lemma WrappedHolds(slot: Option<Value>, t: Token, below: Value)
    requires t.Index? ==> ItemsOf(slot, t.place).Some?
    ensures var w := Wrapped(slot, t, below); w.Some? && Enters(w.value, t) && Child(w.value, t) == below
  {
  }

  lemma WayHere(slot: Option<Value>, t: Token, below: Value, path: Path)
    requires path != [] && path[0] == t && (t.Index? ==> ItemsOf(slot, t.place).Some?)
    ensures Wrapped(slot, t, below).Some? && OnTheWay(slot, Wrapped(slot, t, below).value, path, 0)
  {
    assert path[..0] == [];
  }

  lemma WayBelow(slot: Option<Value>, t: Token, below: Value, path: Path, i: nat)
    requires 1 <= i < |path| && path[0] == t && NoIndexTwice(path) && (t.Index? ==> ItemsOf(slot, t.place).Some?)
    requires OnTheWay(Inner(slot, t), below, path[1..], i - 1)
    ensures Wrapped(slot, t, below).Some? && OnTheWay(slot, Wrapped(slot, t, below).value, path, i)
  {
    hide Inner, Wrapped, ItemsOf;
    WrappedHolds(slot, t, below);
    InnerIsBehind(slot, t);
    var before := path[1..][..i - 1];
    assert path[..i][1..] == before && path[i] == path[1..][i - 1];
    StandsStep(slot, path[..i]);
    assert NodeAt(Wrapped(slot, t, below).value, path[..i]) == NodeAt(below, before);
    if Inner(slot, t) != Behind(slot, t) && before != [] {
      assert before[0] == path[1];
      PaddedOrEmpty(before);
    }
  }

  lemma WholeWay(slot: Option<Value>, t: Token, below: Value, path: Path)
    requires path != [] && path[0] == t && NoIndexTwice(path) && (t.Index? ==> ItemsOf(slot, t.place).Some?)
    requires forall i | 0 <= i < |path[1..]| :: OnTheWay(Inner(slot, t), below, path[1..], i)
    ensures Wrapped(slot, t, below).Some? && forall i | 0 <= i < |path| :: OnTheWay(slot, Wrapped(slot, t, below).value, path, i)
  {
    hide Inner, Wrapped, ItemsOf, OnTheWay;
    WrappedHolds(slot, t, below);
    forall i | 0 <= i < |path| ensures OnTheWay(slot, Wrapped(slot, t, below).value, path, i) {
      if i == 0 {
        WayHere(slot, t, below, path);
      } else {
        assert 0 <= i - 1 < |path[1..]|;
        WayBelow(slot, t, below, path, i);
      }
    }
  }

  /** Apart from the path everything stands as it did, and what is new there is the padding of a list. */
  lemma {:induction false} PutLeavesOthers(slot: Option<Value>, path: Path, value: Value, other: Path)
    requires NoIndexTwice(path) && Apart(path, other) && Put(slot, path, value).Some?
    ensures Undisturbed(StandsAt(slot, other), NodeAt(Put(slot, path, value).value, other), other)
    decreases |path|
  {
    hide Put, Inner, Wrapped, ItemsOf;
    var (t, rest) := (path[0], path[1..]);
    PutInner(slot, path, value);
    if t.Index? { ListOrNot(slot, t); }
    var below := Put(Inner(slot, t), rest, value).value;
    WrappedHolds(slot, t, below);
    InnerIsBehind(slot, t);
    StandsStep(slot, other);
    if other[0] == t {
      PutLeavesOthers(Inner(slot, t), rest, value, other[1..]);
      if Inner(slot, t) != Behind(slot, t) {
        EmptyHoldsNothing(other[1..]);
      }
    } else {
      WrappedOthers(slot, t, below, other);
    }
  }

  lemma EmptyHoldsNothing(path: Path)
    requires path != []
    ensures StandsAt(Some(EMPTY), path) == None
  {
  }

  /** What stands at another path, when nothing that stood there changed and only padding is new. */
  predicate Undisturbed(was: Option<Value>, now: Option<Value>, other: Path) {
    if was.Some? then now == was else now.Some? ==> now.value == Obj(map[]) && other != [] && other[|other| - 1].Index?
  }

  lemma OtherKeys(slot: Option<Value>, k: string, below: Value, other: Path)
    requires other != [] && other[0].Key? && other[0] != Key(k)
    ensures Undisturbed(StandsAt(slot, other), NodeAt(Obj(FieldsOf(slot)[k := below]), other), other)
  {
  }

  lemma OtherPlaces(slot: Option<Value>, i: nat, below: Value, other: Path)
    requires other != [] && other[0].Index? && other[0] != Index(i) && ItemsOf(slot, i).Some?
    ensures Undisturbed(StandsAt(slot, other), NodeAt(Arr(ItemsOf(slot, i).value[i := below]), other), other)
  {
    if |other| > 1 {
      EmptyHoldsNothing(other[1..]);
    }
  }

  lemma WrappedOthers(slot: Option<Value>, t: Token, below: Value, other: Path)
    requires (t.Index? ==> ItemsOf(slot, t.place).Some?) && other != [] && other[0] != t && (t.Key? <==> other[0].Key?)
    ensures Wrapped(slot, t, below).Some?
    ensures Undisturbed(StandsAt(slot, other), NodeAt(Wrapped(slot, t, below).value, other), other)
  {
    hide Undisturbed;
    match t
    case Key(k) => OtherKeys(slot, k, below, other);
    case Index(i) => OtherPlaces(slot, i, below, other);
  }

  /**
   Assigning a path that can be assigned. It fails exactly when the path meets, before an index, something that is
   not a list. Otherwise the value stands at its end, mappings and lists on the way to it, and everything apart
   from the path stands as it did, except that lists that were too short are padded with empty mappings.
   */
  lemma AssignIs(root: Fields, path: Path, value: Value, other: Path)
    requires Assignable(path)
    ensures Assign(root, path, value).Failure? <==> Blocked(Some(Obj(root)), path)
    ensures Assign(root, path, value).Failure? ==> Assign(root, path, value).error == NotAList
    ensures Assign(root, path, value).Success? ==>
      var after := Obj(Assign(root, path, value).value);
      && NodeAt(after, path) == Some(value)
      && (forall i | 0 <= i < |path| :: OnTheWay(Some(Obj(root)), after, path, i))
      && (Apart(path, other) ==> Undisturbed(NodeAt(Obj(root), other), NodeAt(after, other), other))
  {
    hide Put, Assign, Blocked, OnTheWay, Undisturbed;
    AssignIsPut(root, path, value);
    PutSucceedsIff(Some(Obj(root)), path, value);
    if Put(Some(Obj(root)), path, value).Some? {
      PutArrives(Some(Obj(root)), path, value);
    }
    if Put(Some(Obj(root)), path, value).Some? && Apart(path, other) {
      PutLeavesOthers(Some(Obj(root)), path, value, other);
    }
  }

  /** A path that begins with an index is refused as such. */
  lemma LeadingIndexRefused(root: Fields, path: Path, value: Value)
    requires path != [] && path[0].Index?
    ensures Assign(root, path, value) == Failure(LeadingIndex)
  {
  }
}
