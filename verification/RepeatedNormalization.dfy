/**
 Normalizing again: owners, markers and locators stay, and an alias stays exactly when its holder still finds
 all lower numbered variants taken when its turn comes.
 */
module RepeatedNormalization {
  import opened Outcomes
  import opened Text
  import opened Ownership
  import opened ComponentRepository
  import opened SortOrder
  import opened RepositoryNormalization

  // ----- what allocation finds

  /** The variant of a name with this number; the first is the name itself. */
  predicate IsVariant(name: string, base: string, n: nat) {
    if n == 1 then name == base else n >= 2 && name == Numbered(base, " ", n)
  }

  /** All variants below this number are taken. */
  ghost predicate TakenBelow(base: string, n: nat, taken: set<string>) {
    forall k: nat, name: string | k < n && IsVariant(name, base, k) :: name in taken
  }

  lemma VariantNumber(name: string, base: string, m: nat, n: nat)
    requires IsVariant(name, base, m) && IsVariant(name, base, n)
    ensures m == n
  {
    if m >= 2 && n >= 2 {
      NumberedInjective(base, " ", m, n);
    }
  }

  /** Allocation gives the lowest variant that is free. */
  lemma UniqueNameIff(base: string, taken: set<string>, name: string)
    ensures name == UniqueName(base, " ", taken) <==>
            name !in taken && exists n :: IsVariant(name, base, n) && TakenBelow(base, n, taken)
  {
    LowestVariant(base, taken);
    var given := UniqueName(base, " ", taken);
    hide UniqueName;
    var m :| IsVariant(given, base, m) && TakenBelow(base, m, taken);
    if name !in taken {
      if n :| IsVariant(name, base, n) && TakenBelow(base, n, taken) {
        assert m == n;
      }
    }
  }

  lemma LowestVariant(base: string, taken: set<string>)
    ensures UniqueName(base, " ", taken) !in taken
    ensures exists n :: IsVariant(UniqueName(base, " ", taken), base, n) && TakenBelow(base, n, taken)
  {
    var given := UniqueName(base, " ", taken);
    if base !in taken {
      assert IsVariant(given, base, 1) && TakenBelow(base, 1, taken);
    } else {
      var n: nat :| 2 <= n && given == Numbered(base, " ", n) && forall k: nat :: 2 <= k < n ==> Numbered(base, " ", k) in taken;
      assert IsVariant(given, base, n) && TakenBelow(base, n, taken);
    }
  }

  // ----- when nothing is renamed

  /** The aliases that are taken in an object's turn, if every object before it keeps its own. */
  function Occupied(visible: map<string, Definition>, kept: set<string>, id: string): set<string>
    requires id in visible
  {
    TakenInTurn(visible, kept, Aliases(visible), id)
  }

  /** The object's alias is a variant of its name, all lower ones being taken before its turn. */
  ghost predicate InPlace(visible: map<string, Definition>, policy: Policy, kept: set<string>, id: string)
    requires id in visible
  {
    exists n :: IsVariant(visible[id].componentId, policy.nameOf(visible[id]), n)
                && TakenBelow(policy.nameOf(visible[id]), n, Occupied(visible, kept, id))
  }

  ghost predicate AllInPlace(visible: map<string, Definition>, policy: Policy, kept: set<string>) {
    forall id | id in visible :: InPlace(visible, policy, kept, id)
  }

  function Earlier(visible: map<string, Definition>, id: string): set<string>
    requires id in visible
  {
    set j | j in visible && Precedes(visible[j], visible[id])
  }

  lemma EarlierShrinks(visible: map<string, Definition>, j: string, id: string)
    requires j in visible && id in visible && Precedes(visible[j], visible[id])
    ensures |Earlier(visible, j)| < |Earlier(visible, id)|
  {
    hide Precedes;
    forall k | k in Earlier(visible, j) ensures k in Earlier(visible, id) {
      PrecedesTransitive(visible[k], visible[j], visible[id]);
    }
    if Precedes(visible[j], visible[j]) { PrecedesAsymmetric(visible[j], visible[j]); }
    var more := Earlier(visible, id);
    assert Earlier(visible, j) <= more - {j} && j in more;
    Smaller(Earlier(visible, j), more - {j});
  }

  lemma {:induction false} Smaller(a: set<string>, b: set<string>)
    requires a <= b
    ensures |a| <= |b|
  {
    if a != {} {
      var x :| x in a;
      Smaller(a - {x}, b - {x});
    }
  }

  /** The objects an allocation is for: aliases that differ from each other and from those hidden objects keep. */
  predicate Apart(visible: map<string, Definition>, kept: set<string>) {
    Keyed(visible) && DistinctAliases(visible) && forall id | id in visible :: visible[id].componentId !in kept
  }

  lemma OwnAliasFree(visible: map<string, Definition>, kept: set<string>, id: string)
    requires Apart(visible, kept) && id in visible
    ensures visible[id].componentId !in Occupied(visible, kept, id)
  {
    hide Precedes;
    if Precedes(visible[id], visible[id]) { PrecedesAsymmetric(visible[id], visible[id]); }
  }

  lemma {:induction false} KeptInTurn(visible: map<string, Definition>, policy: Policy, kept: set<string>, names: map<string, string>, id: string)
    requires Apart(visible, kept) && NamedInTurn(visible, policy, kept, names) && visible.Keys <= names.Keys
    requires AllInPlace(visible, policy, kept) && id in visible
    ensures names[id] == visible[id].componentId
    decreases |Earlier(visible, id)|
  {
    hide Precedes, UniqueName, Apart, InPlace;
    forall j | j in visible && Precedes(visible[j], visible[id]) ensures names[j] == visible[j].componentId {
      EarlierShrinks(visible, j, id);
      KeptInTurn(visible, policy, kept, names, j);
    }
    assert TakenInTurn(visible, kept, names, id) == Occupied(visible, kept, id);
    OwnAliasFree(visible, kept, id);
    assert InPlace(visible, policy, kept, id);
    InPlaceIsGiven(visible, policy, kept, id);
  }

  lemma InPlaceIsGiven(visible: map<string, Definition>, policy: Policy, kept: set<string>, id: string)
    requires Apart(visible, kept) && id in visible
    ensures InPlace(visible, policy, kept, id) <==>
            visible[id].componentId == UniqueName(policy.nameOf(visible[id]), " ", Occupied(visible, kept, id))
  {
    hide UniqueName, Occupied, IsVariant, TakenBelow;
    OwnAliasFree(visible, kept, id);
    UniqueNameIff(policy.nameOf(visible[id]), Occupied(visible, kept, id), visible[id].componentId);
  }

  /** Allocation gives every object its own alias back exactly when every alias is in place. */
  lemma AllKeptIffInPlace(visible: map<string, Definition>, policy: Policy, kept: set<string>, names: map<string, string>)
    requires Apart(visible, kept) && NamedInTurn(visible, policy, kept, names) && visible.Keys <= names.Keys
    ensures (forall id | id in visible :: names[id] == visible[id].componentId) <==> AllInPlace(visible, policy, kept)
  {
    hide Precedes, UniqueName, Apart, InPlace;
    if AllInPlace(visible, policy, kept) {
      forall id | id in visible ensures names[id] == visible[id].componentId {
        KeptInTurn(visible, policy, kept, names, id);
      }
    }
    if forall id | id in visible :: names[id] == visible[id].componentId {
      forall id | id in visible ensures InPlace(visible, policy, kept, id) {
        assert TakenInTurn(visible, kept, names, id) == Occupied(visible, kept, id);
        InPlaceIsGiven(visible, policy, kept, id);
      }
    }
  }

  // ----- repositories

  function VisibleOf(c: Components, policy: Policy): map<string, Definition>
    requires DistinctIds(c)
  {
    Visible(ById(c), StructuralIds(c, policy))
  }

  function KeptOf(c: Components, policy: Policy): set<string>
    requires DistinctIds(c)
  {
    KeptAliases(ById(c), StructuralIds(c, policy))
  }

  lemma VisibleApart(c: Components, policy: Policy)
    requires Valid(c)
    ensures Apart(VisibleOf(c, policy), KeptOf(c, policy))
  {
    hide Canonical, Graph, ById, StructuralIds;
    ByIdAt(c);
    AliasesDistinct(c);
  }

  /** Normalization renames nothing exactly when every visible object's alias is in place. */
  lemma RenamesNothingIff(c: Components, policy: Policy, plan: Plan)
    requires Planned(c, policy, plan)
    ensures plan.renames == map[] <==> AllInPlace(VisibleOf(c, policy), policy, KeptOf(c, policy))
  {
    hide Canonical, Graph, ById, StructuralIds, NormalForm, SemanticallyNamed, NamedInTurn, AllInPlace, Apart, Rooted, Moves, Renames,
         Differing, DistinctAliases, KeptAliases, policy.Hides, policy.Named, KeysMatch, IdsParse;
    var (before, after) := (ById(c), ById(plan.repository));
    var visible := VisibleOf(c, policy);
    NormalFormKeys(c, policy, after);
    VisibleApart(c, policy);
    AllKeptIffInPlace(visible, policy, KeptOf(c, policy), Aliases(after));
    forall id | id in before && id !in visible ensures after[id].componentId == before[id].componentId {
      HiddenKeepsAlias(c, policy, after, id);
    }
    AliasesDistinct(c);
    NoRenamesIff(before, after);
  }

  lemma HiddenKeepsAlias(c: Components, policy: Policy, after: map<string, Definition>, id: string)
    requires NormalForm(c, policy, after) && id in ById(c) && id !in VisibleOf(c, policy)
    ensures id in after && after[id].componentId == ById(c)[id].componentId
  {
    hide Canonical, Graph, ById, StructuralIds, NormalForm, VisibleOwner, HiddenForm, VisibleForm, Rooted;
    NormalFormKeys(c, policy, after);
    HidesById(c, policy);
    NormalAt(c, policy, after, id);
    FormsKeepIdentity(ById(c)[id], "", None);
  }

  lemma NoRenamesIff(before: map<string, Definition>, after: map<string, Definition>)
    requires DistinctAliases(before) && after.Keys == before.Keys
    ensures Renames(before, after) == map[] <==> forall id | id in before :: after[id].componentId == before[id].componentId
  {
    if id :| id in before && after[id].componentId != before[id].componentId {
      assert before[id].componentId in Renames(before, after);
    }
  }

  lemma SameByIdSame(a: Components, b: Components)
    requires Identified(a) && Identified(b) && ById(a) == ById(b)
    ensures a == b
  {
    hide Canonical, ById;
    ByIdAt(a);
    ByIdAt(b);
  }

  /** A second pass changes the repository exactly when some alias of the first pass is not in place any more. */
  lemma SecondPassIsIdentityIff(c: Components, policy: Policy, plan: Plan, again: Plan)
    requires Planned(c, policy, plan) && Planned(plan.repository, policy, again)
    ensures again.repository == plan.repository <==>
            AllInPlace(VisibleOf(plan.repository, policy), policy, KeptOf(plan.repository, policy))
  {
    hide Canonical, Graph, ById, StructuralIds, NormalForm, SemanticallyNamed, NamedInOrder, AllInPlace, Rooted;
    var r := plan.repository;
    RenamesNothingIff(r, policy, again);
    NormalFormKeys(c, policy, ById(r));
    NormalFormKeys(r, policy, ById(again.repository));
    NoRenamesIff(ById(r), ById(again.repository));
    if again.renames == map[] {
      forall id | id in ById(r) ensures ById(again.repository)[id] == ById(r)[id] {
        SecondPassOnlyRenames(c, policy, r, again.repository, id);
      }
      SameByIdSame(r, again.repository);
    }
  }

  // ----- names that do not depend on the alias

  /** The semantic name comes from what identifies the object, and not from its alias, owner or properties. */
  ghost predicate NamesFromIdentity(policy: Policy) {
    forall d, e | SameIdentity(d, e) :: policy.nameOf(d) == policy.nameOf(e)
  }

  /** Both aliases are numbered variants of one name, and the higher number sorts first. */
  ghost predicate Overtakes(policy: Policy, a: Definition, b: Definition) {
    && a.body.objectType == b.body.objectType
    && exists n, k | 2 <= k < n :: IsVariant(a.componentId, policy.nameOf(a), n) && IsVariant(b.componentId, policy.nameOf(a), k)
                                   && Less(Decimal(n), Decimal(k))
  }

  ghost predicate NoneOvertakes(visible: map<string, Definition>, policy: Policy) {
    forall i, j | i in visible && j in visible :: !Overtakes(policy, visible[i], visible[j])
  }

  lemma {:induction false} FoldDecimal(n: nat)
    ensures Fold(Decimal(n)) == Decimal(n)
  {
    if n >= 10 {
      FoldDecimal(n / 10);
      assert Fold(Decimal(n)) == Fold(Decimal(n / 10)) + ["0123456789"[n % 10]];
    }
  }

  lemma FoldNumbered(base: string, n: nat)
    ensures Fold(Numbered(base, " ", n)) == Fold(base + " ") + Decimal(n)
  {
    FoldDecimal(n);
    assert Fold(Numbered(base, " ", n)) == Fold(base + " ") + Fold(Decimal(n));
  }

  /** Two variants of a name sort by their numbers' digits, and the name itself comes first. */
  lemma VariantsSort(base: string, a: string, b: string, k: nat, n: nat)
    requires IsVariant(a, base, k) && IsVariant(b, base, n) && n >= 2
    ensures k == 1 ==> Less(Fold(a), Fold(b))
    ensures k >= 2 ==> (Less(Fold(a), Fold(b)) <==> Less(Decimal(k), Decimal(n)))
  {
    FoldNumbered(base, n);
    if k == 1 {
      assert Fold(base + " ") == Fold(base) + " ";
      assert Fold(b) == Fold(a) + (" " + Decimal(n)) && Fold(a) + "" == Fold(a);
      LessBehind(Fold(a), "", " " + Decimal(n));
    } else {
      FoldNumbered(base, k);
      LessBehind(Fold(base + " "), Decimal(k), Decimal(n));
    }
  }

  /** An object that was named before another still comes before it, unless it is overtaken. */
  lemma StillBefore(policy: Policy, a: Definition, b: Definition, k: nat, n: nat)
    requires IsVariant(b.componentId, policy.nameOf(b), n) && IsVariant(a.componentId, policy.nameOf(b), k) && k < n
    requires Less(a.body.objectType, b.body.objectType) || a.body.objectType == b.body.objectType
    requires !Overtakes(policy, b, a)
    ensures Precedes(a, b)
  {
    hide Less, Fold, Decimal;
    if a.body.objectType == b.body.objectType {
      VariantsSort(policy.nameOf(b), a.componentId, b.componentId, k, n);
      if k >= 2 {
        assert !Less(Decimal(n), Decimal(k));
        LessTotal(Decimal(k), Decimal(n));
        if Decimal(k) == Decimal(n) { DecimalInjective(k, n); }
      }
    }
  }

  lemma SortsBefore(a: Definition, b: Definition)
    requires a.body.objectType == b.body.objectType && Less(Fold(a.componentId), Fold(b.componentId))
    ensures Precedes(a, b)
  {
  }

  /** An alias that is in place is not overtaken by that of an object with a higher number. */
  lemma InPlaceNotOvertaken(visible: map<string, Definition>, policy: Policy, kept: set<string>, i: string, j: string)
    requires Apart(visible, kept) && i in visible && j in visible && InPlace(visible, policy, kept, i)
    ensures !Overtakes(policy, visible[i], visible[j])
  {
    hide Less, Fold, Decimal, Precedes;
    var (a, b, base) := (visible[i], visible[j], policy.nameOf(visible[i]));
    if Overtakes(policy, a, b) {
      var n, k :| 2 <= k < n && IsVariant(a.componentId, base, n) && IsVariant(b.componentId, base, k) && Less(Decimal(n), Decimal(k));
      var m :| IsVariant(a.componentId, base, m) && TakenBelow(base, m, Occupied(visible, kept, i));
      VariantNumber(a.componentId, base, m, n);
      assert b.componentId in Occupied(visible, kept, i);
      var h :| h in visible && Precedes(visible[h], a) && visible[h].componentId == b.componentId;
      assert h == j;
      VariantsSort(base, a.componentId, b.componentId, n, k);
      SortsBefore(a, b);
      PrecedesAsymmetric(a, b);
    }
  }

  /** One object of a first pass: what it was named around is still taken in its turn, if nothing overtakes it. */
  lemma NamedStaysInPlace(before: map<string, Definition>, after: map<string, Definition>, policy: Policy, kept: set<string>, id: string)
    requires NamedInTurn(before, policy, kept, Aliases(after)) && after.Keys == before.Keys && id in before
    requires forall j | j in before :: after[j].body.objectType == before[j].body.objectType
    requires policy.nameOf(after[id]) == policy.nameOf(before[id]) && NoneOvertakes(after, policy)
    ensures InPlace(after, policy, kept, id)
  {
    hide UniqueName, Less, Fold, Decimal, Overtakes;
    var base := policy.nameOf(after[id]);
    var taken := TakenInTurn(before, kept, Aliases(after), id);
    assert after[id].componentId == UniqueName(base, " ", taken);
    hide NamedInTurn;
    UniqueNameIff(base, taken, after[id].componentId);
    var n :| IsVariant(after[id].componentId, base, n) && TakenBelow(base, n, taken);
    forall k: nat, name: string | k < n && IsVariant(name, base, k) ensures name in Occupied(after, kept, id) {
      assert name in taken;
      if name !in kept {
        var j :| j in before && Precedes(before[j], before[id]) && after[j].componentId == name;
        StillBefore(policy, after[j], after[id], k, n);
      }
    }
  }

  /**
   Where names come from identity, all aliases of a first pass are in place exactly when none overtakes a lower
   numbered variant of its name among the objects of its type.
   */
  lemma InPlaceIffNoneOvertakes(before: map<string, Definition>, after: map<string, Definition>, policy: Policy, kept: set<string>)
    requires NamedInTurn(before, policy, kept, Aliases(after)) && after.Keys == before.Keys && Apart(after, kept)
    requires forall j | j in before :: after[j].body.objectType == before[j].body.objectType
                                       && policy.nameOf(after[j]) == policy.nameOf(before[j])
    ensures AllInPlace(after, policy, kept) <==> NoneOvertakes(after, policy)
  {
    hide NamedInTurn, InPlace, Overtakes, Apart;
    if AllInPlace(after, policy, kept) {
      forall i, j | i in after && j in after ensures !Overtakes(policy, after[i], after[j]) {
        InPlaceNotOvertaken(after, policy, kept, i, j);
      }
    }
    if NoneOvertakes(after, policy) {
      forall id | id in after ensures InPlace(after, policy, kept, id) {
        NamedStaysInPlace(before, after, policy, kept, id);
      }
    }
  }

  /** The visible objects of the first pass, seen from before and from after it. */
  lemma PassKeepsVisible(c: Components, policy: Policy, r: Components)
    requires Identified(r) && Valid(c) && NormalForm(c, policy, ById(r))
    ensures VisibleOf(r, policy).Keys == VisibleOf(c, policy).Keys && KeptOf(r, policy) == KeptOf(c, policy)
    ensures forall id | id in VisibleOf(c, policy) ::
      VisibleOf(r, policy)[id] == ById(r)[id] && SameIdentity(VisibleOf(c, policy)[id], ById(r)[id])
  {
    hide Canonical, Graph, ById, StructuralIds, NormalForm, VisibleOwner, HiddenForm, VisibleForm, MarkedIds, Rooted;
    NormalFormIds(c, policy, r);
    NormalFormKeys(c, policy, ById(r));
    forall id | id in ById(c) && id in StructuralIds(c, policy) ensures ById(r)[id].componentId == ById(c)[id].componentId {
      HiddenKeepsAlias(c, policy, ById(r), id);
    }
    forall id | id in VisibleOf(c, policy) ensures SameIdentity(ById(c)[id], ById(r)[id]) {
      VisibleKeepsIdentity(c, policy, r, id);
    }
  }

  predicate SameIdentity(d: Definition, e: Definition) {
    d.body.objectType == e.body.objectType && d.body.nativeClass == e.body.nativeClass && d.body.strategies == e.body.strategies
  }

  lemma VisibleKeepsIdentity(c: Components, policy: Policy, r: Components, id: string)
    requires Identified(r) && Valid(c) && NormalForm(c, policy, ById(r)) && id in VisibleOf(c, policy)
    ensures id in ById(r) && SameIdentity(ById(c)[id], ById(r)[id])
  {
    hide Canonical, Graph, ById, StructuralIds, NormalForm, VisibleOwner, HiddenForm, VisibleForm, Rooted;
    HidesById(c, policy);
    NormalAt(c, policy, ById(r), id);
    ShownKeepsIdentity(ById(c)[id], ById(r)[id].componentId, ById(r)[id].owner);
  }

  lemma ShownKeepsIdentity(d: Definition, name: string, owner: Option<string>)
    ensures SameIdentity(d, VisibleForm(d, name, owner))
  {
  }

  /**
   Where names come from identity, a second pass changes the repository exactly when, among visible objects of
   one type, some numbered variant of a name sorts before a lower one, as "X 10" does before "X 2".
   */
  lemma SecondPassIsIdentityIffNoneOvertakes(c: Components, policy: Policy, plan: Plan, again: Plan)
    requires Planned(c, policy, plan) && Planned(plan.repository, policy, again) && NamesFromIdentity(policy)
    ensures again.repository == plan.repository <==> NoneOvertakes(VisibleOf(plan.repository, policy), policy)
  {
    hide Canonical, Graph, ById, StructuralIds, NormalForm, SemanticallyNamed, NamedInTurn, AllInPlace, Apart, Rooted, Moves, Renames,
         Differing, NoneOvertakes, DistinctAliases, KeptAliases, KeysMatch, IdsParse, Visible;
    var r := plan.repository;
    SecondPassIsIdentityIff(c, policy, plan, again);
    PassKeepsVisible(c, policy, r);
    VisibleApart(r, policy);
    var (before, after) := (VisibleOf(c, policy), VisibleOf(r, policy));
    NormalFormKeys(c, policy, ById(r));
    VisibleIsPart(c, policy);
    InTurnAlike(before, policy, KeptOf(c, policy), Aliases(ById(r)), Aliases(after));
    InPlaceIffNoneOvertakes(before, after, policy, KeptOf(r, policy));
  }

  lemma VisibleIsPart(c: Components, policy: Policy)
    requires DistinctIds(c)
    ensures VisibleOf(c, policy).Keys <= ById(c).Keys
  {
    hide ById, StructuralIds;
  }

  lemma SingleDigitsSort(k: nat, n: nat)
    requires k < n < 10
    ensures !Less(Decimal(n), Decimal(k))
  {
    assert Decimal(n) == ["0123456789"[n]] && Decimal(k) == ["0123456789"[k]];
  }

  lemma NoneOvertakesBelowTen(visible: map<string, Definition>, policy: Policy)
    requires forall id, n | id in visible && n >= 10 :: !IsVariant(visible[id].componentId, policy.nameOf(visible[id]), n)
    ensures NoneOvertakes(visible, policy)
  {
    hide Less, Decimal, IsVariant;
    forall k, n | 0 <= k < n < 10 ensures !Less(Decimal(n), Decimal(k)) {
      SingleDigitsSort(k, n);
    }
  }

  /** So with no number from ten on, a second pass changes nothing. */
  lemma BelowTenStays(c: Components, policy: Policy, plan: Plan, again: Plan)
    requires Planned(c, policy, plan) && Planned(plan.repository, policy, again) && NamesFromIdentity(policy)
    requires forall id, n | id in VisibleOf(plan.repository, policy) && n >= 10 ::
               var d := VisibleOf(plan.repository, policy)[id];
               !IsVariant(d.componentId, policy.nameOf(d), n)
    ensures again.repository == plan.repository
  {
    NoneOvertakesBelowTen(VisibleOf(plan.repository, policy), policy);
    hide Planned, NamesFromIdentity;
    SecondPassIsIdentityIffNoneOvertakes(c, policy, plan, again);
  }

  // ----- ten objects of one name

  /** Where all objects have one name, each has a variant of it all lower ones of which are given too. */
  lemma GivenVariant(before: map<string, Definition>, after: map<string, Definition>, policy: Policy, base: string, id: string)
      returns (n: nat)
    requires NamedInTurn(before, policy, {}, Aliases(after)) && after.Keys == before.Keys
    requires id in before && policy.nameOf(before[id]) == base
    ensures n >= 1 && IsVariant(after[id].componentId, base, n)
    ensures forall k: nat, name | k < n && IsVariant(name, base, k) :: exists j :: j in after && after[j].componentId == name
  {
    hide Precedes, UniqueName;
    var taken := TakenInTurn(before, {}, Aliases(after), id);
    assert after[id].componentId == UniqueName(base, " ", taken);
    hide NamedInTurn;
    UniqueNameIff(base, taken, after[id].componentId);
    n :| IsVariant(after[id].componentId, base, n) && TakenBelow(base, n, taken);
  }

  /** The first `k` variants are given to `k` of the objects. */
  lemma {:induction false} HoldersOfVariants(before: map<string, Definition>, after: map<string, Definition>, policy: Policy, base: string, k: nat)
      returns (ids: seq<string>)
    requires NamedInTurn(before, policy, {}, Aliases(after)) && after.Keys == before.Keys && DistinctAliases(after)
    requires (forall id | id in before :: policy.nameOf(before[id]) == base) && k <= |before.Keys|
    ensures |ids| == k && HoldVariants(after, base, ids)
  {
    hide NamedInTurn, DistinctAliases, IsVariant, HoldVariants;
    if k == 0 {
      ids := [];
      NoneHold(after, base);
    } else {
      ids := HoldersOfVariants(before, after, policy, base, k - 1);
      var id := OneMore(before.Keys, ids);
      var n := GivenVariant(before, after, policy, base, id);
      NewHolder(after, base, ids, id, n);
      if n > k {
        var name := Variant(base, k);
        id :| id in after && after[id].componentId == name;
      }
      OneMoreHolds(after, base, ids, id);
      ids := ids + [id];
    }
  }

  /** The `m`-th of these objects has the `m`-th variant. */
  ghost predicate HoldVariants(after: map<string, Definition>, base: string, ids: seq<string>) {
    forall m: nat | m < |ids| :: ids[m] in after && IsVariant(after[ids[m]].componentId, base, m + 1)
  }

  lemma NoneHold(after: map<string, Definition>, base: string)
    ensures HoldVariants(after, base, [])
  {
  }

  lemma OneMoreHolds(after: map<string, Definition>, base: string, ids: seq<string>, id: string)
    requires HoldVariants(after, base, ids) && id in after && IsVariant(after[id].componentId, base, |ids| + 1)
    ensures HoldVariants(after, base, ids + [id])
  {
  }

  function Variant(base: string, n: nat): (name: string)
    requires n >= 1
    ensures IsVariant(name, base, n)
  {
    if n == 1 then base else Numbered(base, " ", n)
  }

  /** Another object has a higher variant. */
  lemma NewHolder(after: map<string, Definition>, base: string, ids: seq<string>, id: string, n: nat)
    requires HoldVariants(after, base, ids) && DistinctAliases(after) && id in after
    requires n >= 1 && IsVariant(after[id].componentId, base, n)
    ensures id in ids || n > |ids|
  {
    if n <= |ids| {
      assert ids[n - 1] in after && after[ids[n - 1]].componentId == after[id].componentId;
    }
  }

  lemma OneMore(all: set<string>, some: seq<string>) returns (id: string)
    requires |some| < |all|
    ensures id in all && id !in some
  {
    var listed := set x | x in some;
    ListedAtMost(some);
    if all <= listed {
      Smaller(all, listed);
      assert false;
    }
    id :| id in all && id !in listed;
  }

  lemma {:induction false} ListedAtMost(s: seq<string>)
    ensures |set x | x in s| <= |s|
  {
    if s != [] {
      ListedAtMost(s[1..]);
      assert (set x | x in s) == {s[0]} + set x | x in s[1..];
    }
  }

  const DIGITS := "0123456789"

  /** One object for each digit, with nothing but the digit to tell them apart. */
  function TenAlike(body: Body): Components {
    map d | d in DIGITS :: [d] := Definition([d], SampleId(d), None, body)
  }

  lemma TenAlikeAt(body: Body, n: string)
    requires n in TenAlike(body)
    ensures |n| == 1 && n[0] in DIGITS && IsHex(n[0]) && TenAlike(body)[n] == Definition(n, SampleId(n[0]), None, body)
    ensures Canonical(SampleId(n[0])) == Some(SampleId(n[0])) && SampleId(n[0]) != "" && SampleId(n[0])[0] == n[0]
  {
    hide SampleId, Canonical;
    var d :| d in DIGITS && n == [d];
    SampleIdSpellings(d);
  }

  lemma TenAlikeHas(body: Body, d: char)
    requires d in DIGITS
    ensures [d] in TenAlike(body) && TenAlike(body)[[d]].objectId == SampleId(d)
  {
    hide SampleId;
  }

  lemma TenAlikeIdentified(body: Body)
    ensures Identified(TenAlike(body))
  {
    hide Canonical, SampleId, TenAlike;
    var c := TenAlike(body);
    forall n | n in c ensures c[n].componentId == n && Canonical(c[n].objectId).Some? { TenAlikeAt(body, n); }
    forall m, n | m in c && n in c && Canonical(c[m].objectId) == Canonical(c[n].objectId) ensures m == n {
      TenAlikeAt(body, m);
      TenAlikeAt(body, n);
      assert m[0] == n[0];
    }
  }

  lemma TenAlikeValid(body: Body)
    ensures Valid(TenAlike(body))
  {
    hide Canonical, SampleId, TenAlike, Graph;
    var c := TenAlike(body);
    TenAlikeIdentified(body);
    forall id | id in Graph(c) ensures Ends(Graph(c), Some(id)) {
      var n := NameOf(c, id);
      TenAlikeAt(body, n);
      assert EndsIn(Graph(c), Some(id), 1);
    }
  }

  lemma TenAlikeIds(body: Body)
    ensures Valid(TenAlike(body)) && |ById(TenAlike(body)).Keys| == 10
    ensures forall id | id in ById(TenAlike(body)) :: ById(TenAlike(body))[id].body == body
  {
    hide Canonical, SampleId, ById, Graph, TenAlike, Rooted;
    TenAlikeValid(body);
    var c := TenAlike(body);
    ByIdAt(c);
    TenIds(DIGITS);
    var ids := set d | d in DIGITS :: SampleId(d);
    forall d | d in DIGITS ensures SampleId(d) in ById(c) {
      TenAlikeHas(body, d);
    }
    forall id | id in ById(c) ensures id in ids && ById(c)[id].body == body {
      TenAlikeAt(body, ById(c)[id].componentId);
    }
    assert ById(c).Keys == ids;
  }

  lemma {:induction false} TenIds(digits: string)
    requires forall i, j | 0 <= i < j < |digits| :: digits[i] != digits[j]
    requires forall d | d in digits :: IsHex(d)
    ensures |set d | d in digits :: SampleId(d)| == |digits|
  {
    hide SampleId, IsHex;
    if digits != [] {
      var (first, rest) := (digits[0], digits[1..]);
      TenIds(rest);
      assert digits == [first] + rest;
      SampleIdSpellings(first);
      forall d | d in rest ensures SampleId(d) != SampleId(first) {
        SampleIdSpellings(d);
      }
      assert (set d | d in digits :: SampleId(d)) == {SampleId(first)} + set d | d in rest :: SampleId(d);
    }
  }

  /** Ten objects of one type and name: the second pass hands the numbers out differently. */
  method TenthSortsBeforeSecond(body: Body) returns (policy: Policy, plan: Plan, again: Plan)
    ensures Planned(TenAlike(body), policy, plan) && Planned(plan.repository, policy, again)
    ensures again.repository != plan.repository
  {
    hide Planned, Valid, TenAlike, ById;
    TenAlikeValid(body);
    policy := Policy((_, _, _) => false, _ => "X");
    plan := Normalize(TenAlike(body), policy);
    PlannedIsValid(TenAlike(body), policy, plan);
    again := Normalize(plan.repository, policy);
    SecondPassOfTen(body, policy, plan, again);
  }

  lemma PlannedIsValid(c: Components, policy: Policy, plan: Plan)
    requires Planned(c, policy, plan)
    ensures Valid(plan.repository)
  {
  }

  /** Ten visible objects of one type and one name, and nothing hidden: the tenth overtakes the second. */
  lemma TenthOvertakes(before: map<string, Definition>, after: map<string, Definition>, policy: Policy)
    requires NamedInTurn(before, policy, {}, Aliases(after)) && after.Keys == before.Keys && DistinctAliases(after)
    requires |before.Keys| == 10 && forall d :: policy.nameOf(d) == "X"
    requires forall i, j | i in after && j in after :: after[i].body.objectType == after[j].body.objectType
    ensures !NoneOvertakes(after, policy)
  {
    hide NamedInTurn, Decimal, Less, DistinctAliases;
    var ids := HoldersOfVariants(before, after, policy, "X", 10);
    assert ids[9] in after && ids[1] in after;
    var (a, b) := (after[ids[9]], after[ids[1]]);
    assert IsVariant(a.componentId, "X", 10) && IsVariant(b.componentId, "X", 2);
    TenBeforeTwo();
    assert Overtakes(policy, a, b);
  }

  lemma SecondPassOfTen(body: Body, policy: Policy, plan: Plan, again: Plan)
    requires Planned(TenAlike(body), policy, plan) && Planned(plan.repository, policy, again)
    requires forall d :: !policy.Hides(d) && policy.nameOf(d) == "X"
    ensures again.repository != plan.repository
  {
    hide Canonical, Graph, ById, StructuralIds, NormalForm, SemanticallyNamed, NamedInTurn, AllInPlace, Rooted, Moves, Renames,
         Differing, DistinctAliases, KeysMatch, IdsParse, TenAlike, NoneOvertakes, Precedes, KeptAliases, Visible, policy.Hides;
    var (c, r) := (TenAlike(body), plan.repository);
    TenAlikeIds(body);
    NothingHidden(c, policy);
    PassKeepsVisible(c, policy, r);
    VisibleApart(r, policy);
    NormalFormKeys(c, policy, ById(r));
    var (before, after) := (VisibleOf(c, policy), VisibleOf(r, policy));
    InTurnAlike(before, policy, {}, Aliases(ById(r)), Aliases(after));
    TenthOvertakes(before, after, policy);
    SecondPassIsIdentityIffNoneOvertakes(c, policy, plan, again);
  }

  lemma NothingHidden(c: Components, policy: Policy)
    requires Identified(c) && forall d :: !policy.Hides(d)
    ensures VisibleOf(c, policy) == ById(c) && KeptOf(c, policy) == {}
  {
    hide Canonical, ById, StructuralIds;
    HidesById(c, policy);
  }

  lemma TenBeforeTwo()
    ensures Less(Decimal(10), Decimal(2))
  {
    assert Decimal(10) == Decimal(1) + "0" == "10";
    assert Decimal(2) == "2";
  }
}
