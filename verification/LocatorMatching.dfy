/**
 Regex-aware object lookup. The bridge evaluates exact criteria only, so it is asked a weakened question
 and its answer is filtered again, criterion by criterion, with the regular expressions.
 */
module LocatorMatching {
  import opened Outcomes
  import opened Values

  type Regex = (string, Value) -> bool  // whether the pattern matches all of the value's text
  type Matcher = (Value, Value) -> bool
  type Node = map<string, Value>

  function RegexPattern(v: Value): Option<string> {
    if v.Obj? && v.fields.Keys == {"match", "value"} && v.fields["match"] == Str("regex") && v.fields["value"].Str?
    then Some(v.fields["value"].text)
    else None
  }

  predicate MatchesPattern(re: Regex, actual: Value, pattern: string) {
    pattern != "" && actual != Null && re(pattern, actual)
  }

  /** `_structure_matches`. */
  predicate StructureMatches(re: Regex, actual: Value, expected: Value)
    decreases expected
  {
    if RegexPattern(expected).Some? then MatchesPattern(re, actual, RegexPattern(expected).value)
    else
      match expected
      case Obj(fields) =>
        actual.Obj? && forall k | k in fields :: k in actual.fields && StructureMatches(re, actual.fields[k], fields[k])
      case Arr(items) =>
        actual.Arr? && |actual.items| == |items| && forall i | 0 <= i < |items| :: StructureMatches(re, actual.items[i], items[i])
      case _ => actual == expected
  }

  /** The same comparison by something that knows no regular expressions. */
  predicate LiteralMatches(actual: Value, expected: Value)
    decreases expected
  {
    match expected
    case Obj(fields) =>
      actual.Obj? && forall k | k in fields :: k in actual.fields && LiteralMatches(actual.fields[k], fields[k])
    case Arr(items) =>
      actual.Arr? && |actual.items| == |items| && forall i | 0 <= i < |items| :: LiteralMatches(actual.items[i], items[i])
    case _ => actual == expected
  }

  predicate ContainsRegex(v: Value) {
    RegexPattern(v).Some?
    || match v
       case Obj(fields) => exists k | k in fields :: ContainsRegex(fields[k])
       case Arr(items) => exists i | 0 <= i < |items| :: ContainsRegex(items[i])
       case _ => false
  }

  /** `_exact_subset`: what is left of a matcher without its regular expressions. */
  function ExactSubset(v: Value): Option<Value> {
    match v
    case Obj(fields) =>
      if RegexPattern(v).Some? then None
      else
        var exact := map k | k in fields && ExactSubset(fields[k]).Some? :: ExactSubset(fields[k]).value;
        if exact == map[] then None else Some(Obj(exact))
    case Arr(_) => if ContainsRegex(v) then None else Some(v)
    case Null => None
    case _ => Some(v)
  }

  // ----- the weakened question loses nothing

  lemma {:induction false} WithoutRegexIsLiteral(re: Regex, actual: Value, expected: Value)
    requires !ContainsRegex(expected)
    ensures StructureMatches(re, actual, expected) <==> LiteralMatches(actual, expected)
    decreases expected
  {
    match expected
    case Obj(fields) =>
      if actual.Obj? {
        forall k | k in fields && k in actual.fields
          ensures StructureMatches(re, actual.fields[k], fields[k]) <==> LiteralMatches(actual.fields[k], fields[k])
        {
          WithoutRegexIsLiteral(re, actual.fields[k], fields[k]);
        }
      }
    case Arr(items) =>
      if actual.Arr? && |actual.items| == |items| {
        forall i | 0 <= i < |items|
          ensures StructureMatches(re, actual.items[i], items[i]) <==> LiteralMatches(actual.items[i], items[i])
        {
          WithoutRegexIsLiteral(re, actual.items[i], items[i]);
        }
      }
    case _ =>
  }

  /** Whatever matches a structure matches its exact subset literally. */
  lemma {:induction false} ExactSubsetIsWeaker(re: Regex, actual: Value, expected: Value)
    requires StructureMatches(re, actual, expected) && ExactSubset(expected).Some?
    ensures LiteralMatches(actual, ExactSubset(expected).value)
    decreases expected
  {
    match expected
    case Obj(fields) =>
      forall k | k in fields && ExactSubset(fields[k]).Some?
        ensures k in actual.fields && LiteralMatches(actual.fields[k], ExactSubset(fields[k]).value)
      {
        ExactSubsetIsWeaker(re, actual.fields[k], fields[k]);
      }
    case Arr(_) => WithoutRegexIsLiteral(re, actual, expected);
    case _ =>
  }

  // ----- lineages

  predicate LineageStep(m: Matcher, candidate: Value, wanted: Value) {
    candidate.Obj? && wanted.Obj? && m(candidate, wanted)
  }

  /** How far the greedy scan has come in `expected` after all of `ancestors`. */
  function Cursor(m: Matcher, ancestors: seq<Value>, expected: seq<Value>): (cursor: nat)
    ensures cursor <= |expected|
  {
    if ancestors == [] then 0
    else
      var cursor := Cursor(m, ancestors[..|ancestors| - 1], expected);
      if cursor < |expected| && LineageStep(m, ancestors[|ancestors| - 1], expected[cursor]) then cursor + 1 else cursor
  }

  /** `places` puts the expected lineage into the ancestors, in order. */
  ghost predicate Places(m: Matcher, ancestors: seq<Value>, expected: seq<Value>, places: seq<nat>) {
    && |places| == |expected|
    && (forall i | 0 <= i < |places| ::
          && places[i] < |ancestors|
          && ancestors[places[i]].Obj? && expected[i].Obj? && m(ancestors[places[i]], expected[i]))
    && (forall i, j | 0 <= i < j < |places| :: places[i] < places[j])
  }

  ghost predicate Embeds(m: Matcher, ancestors: seq<Value>, expected: seq<Value>) {
    exists places :: Places(m, ancestors, expected, places)
  }

  lemma {:induction false} CursorPlaces(m: Matcher, ancestors: seq<Value>, expected: seq<Value>) returns (places: seq<nat>)
    ensures Places(m, ancestors, expected[..Cursor(m, ancestors, expected)], places)
  {
    if ancestors == [] {
      places := [];
    } else {
      var init := ancestors[..|ancestors| - 1];
      places := CursorPlaces(m, init, expected);
      var cursor := Cursor(m, init, expected);
      if Cursor(m, ancestors, expected) == cursor + 1 {
        places := places + [|ancestors| - 1];
      }
    }
  }

  lemma {:induction false} CursorMonotone(m: Matcher, ancestors: seq<Value>, expected: seq<Value>, n: nat)
    requires n <= |ancestors|
    ensures Cursor(m, ancestors[..n], expected) <= Cursor(m, ancestors, expected)
    decreases |ancestors|
  {
    if n < |ancestors| {
      assert ancestors[..|ancestors| - 1][..n] == ancestors[..n];
      CursorMonotone(m, ancestors[..|ancestors| - 1], expected, n);
    } else {
      assert ancestors[..n] == ancestors;
    }
  }

  /** After the place of the `i`-th expected ancestor the scan has passed it. */
  lemma {:induction false} CursorReaches(m: Matcher, ancestors: seq<Value>, expected: seq<Value>, places: seq<nat>, i: nat)
    requires Places(m, ancestors, expected, places) && i < |expected|
    ensures Cursor(m, ancestors[..places[i] + 1], expected) > i
  {
    var upTo := ancestors[..places[i]];
    assert ancestors[..places[i] + 1][..places[i]] == upTo;
    if i > 0 {
      CursorReaches(m, ancestors, expected, places, i - 1);
      CursorMonotone(m, upTo, expected, places[i - 1] + 1);
      assert upTo[..places[i - 1] + 1] == ancestors[..places[i - 1] + 1];
    }
  }

  /** The greedy scan reaches the end exactly when the expected lineage embeds in the ancestors at all. */
  lemma GreedyLineageIsComplete(m: Matcher, ancestors: seq<Value>, expected: seq<Value>)
    ensures Cursor(m, ancestors, expected) == |expected| <==> Embeds(m, ancestors, expected)
  {
    if Cursor(m, ancestors, expected) == |expected| {
      var places := CursorPlaces(m, ancestors, expected);
      assert expected[..|expected|] == expected;
    }
    if Embeds(m, ancestors, expected) && expected != [] {
      var places :| Places(m, ancestors, expected, places);
      CursorReaches(m, ancestors, expected, places, |expected| - 1);
      CursorMonotone(m, ancestors, expected, places[|expected| - 1] + 1);
    }
  }

  /** The scan as `_javafx_node_matches` runs it. */
  method LineageMatches(m: Matcher, ancestors: seq<Value>, expected: seq<Value>) returns (ok: bool)
    ensures ok <==> Embeds(m, ancestors, expected)
  {
    var cursor := 0;
    for i := 0 to |ancestors|
      invariant cursor == Cursor(m, ancestors[..i], expected)
    {
      assert ancestors[..i + 1][..i] == ancestors[..i];
      if cursor >= |expected| {
        CursorMonotone(m, ancestors, expected, i);
        GreedyLineageIsComplete(m, ancestors, expected);
        return true;
      }
      if LineageStep(m, ancestors[i], expected[cursor]) {
        cursor := cursor + 1;
      }
    }
    assert ancestors[..|ancestors|] == ancestors;
    GreedyLineageIsComplete(m, ancestors, expected);
    return cursor == |expected|;
  }

  // ----- nodes

  function Lookup(node: Node, key: string): Value {
    if key in node then node[key] else Null
  }

  /** One criterion of `_javafx_node_matches`. */
  predicate CriterionMatches(m: Matcher, node: Node, key: string, expected: Value) {
    var ancestors := Lookup(node, "stable_ancestors");
    if key == "parent" then expected.Obj? && m(Lookup(node, "parent"), expected)
    else if key == "ancestor" then
      expected.Obj? && ancestors.Arr? && exists i | 0 <= i < |ancestors.items| :: LineageStep(m, ancestors.items[i], expected)
    else if key == "lineage" then
      expected.Arr? && ancestors.Arr? && Cursor(m, ancestors.items, expected.items) == |expected.items|
    else m(Lookup(node, key), expected)
  }

  predicate NodeMatches(m: Matcher, node: Node, criteria: map<string, Value>) {
    forall key | key in criteria :: CriterionMatches(m, node, key, criteria[key])
  }

  /** What the ancestors of a node are, if they are known. */
  function Ancestors(node: Node): Option<seq<Value>> {
    if "stable_ancestors" in node && node["stable_ancestors"].Arr? then Some(node["stable_ancestors"].items) else None
  }

  /**
   A node meets criteria, in terms of its fields: its parent matches, some one of its ancestors matches, its
   ancestors hold the lineage in order, and every other field matches, a missing one being null.
   */
  ghost predicate MeetsCriteria(m: Matcher, node: Node, criteria: map<string, Value>) {
    var ancestors := Ancestors(node);
    && ("parent" in criteria ==> criteria["parent"].Obj? && m(Lookup(node, "parent"), criteria["parent"]))
    && ("ancestor" in criteria ==>
          criteria["ancestor"].Obj? && ancestors.Some?
          && exists a :: a in ancestors.value && a.Obj? && m(a, criteria["ancestor"]))
    && ("lineage" in criteria ==>
          criteria["lineage"].Arr? && ancestors.Some? && Embeds(m, ancestors.value, criteria["lineage"].items))
    && forall key | key in criteria && key != "parent" && key != "ancestor" && key != "lineage" :: m(Lookup(node, key), criteria[key])
  }

  /** The loop over the criteria tests exactly this. */
  lemma NodeMatchesIff(m: Matcher, node: Node, criteria: map<string, Value>)
    ensures NodeMatches(m, node, criteria) <==> MeetsCriteria(m, node, criteria)
  {
    hide Embeds, CriterionMatches, Lookup;
    forall key | key in criteria ensures CriterionHolds(m, node, key, criteria[key]) {
      CriterionHoldsIff(m, node, key, criteria[key]);
    }
  }

  /** What the test of one criterion comes to. */
  ghost predicate CriterionHolds(m: Matcher, node: Node, key: string, expected: Value) {
    var ancestors := Ancestors(node);
    CriterionMatches(m, node, key, expected) <==>
      if key == "parent" then expected.Obj? && m(Lookup(node, "parent"), expected)
      else if key == "ancestor" then expected.Obj? && ancestors.Some? && exists a :: a in ancestors.value && a.Obj? && m(a, expected)
      else if key == "lineage" then expected.Arr? && ancestors.Some? && Embeds(m, ancestors.value, expected.items)
      else m(Lookup(node, key), expected)
  }

  lemma CriterionHoldsIff(m: Matcher, node: Node, key: string, expected: Value)
    ensures CriterionHolds(m, node, key, expected)
  {
    hide Embeds, Cursor;
    if Ancestors(node).Some? {
      var ancestors := Ancestors(node).value;
      assert Lookup(node, "stable_ancestors") == Arr(ancestors);
      if key == "lineage" && expected.Arr? {
        GreedyLineageIsComplete(m, ancestors, expected.items);
      } else if key == "ancestor" && expected.Obj? {
        SomeAncestor(m, ancestors, expected);
        assert CriterionMatches(m, node, key, expected) <==> exists i | 0 <= i < |ancestors| :: LineageStep(m, ancestors[i], expected);
      }
    }
  }

  lemma SomeAncestor(m: Matcher, ancestors: seq<Value>, expected: Value)
    requires expected.Obj?
    ensures (exists a :: a in ancestors && a.Obj? && m(a, expected)) <==>
            exists i | 0 <= i < |ancestors| :: LineageStep(m, ancestors[i], expected)
  {
    if a :| a in ancestors && a.Obj? && m(a, expected) {
      var i :| 0 <= i < |ancestors| && ancestors[i] == a;
      assert LineageStep(m, ancestors[i], expected);
    }
  }

  /** One ancestor is a lineage of one, and where it stands among the ancestors makes no difference. */
  lemma AncestorIsLineageOfOne(m: Matcher, node: Node, other: Node, expected: Value)
    requires expected.Obj?
    ensures CriterionMatches(m, node, "ancestor", expected) <==> CriterionMatches(m, node, "lineage", Arr([expected]))
    ensures Ancestors(node).Some? && Ancestors(other).Some? && multiset(Ancestors(node).value) == multiset(Ancestors(other).value) ==>
      (CriterionMatches(m, node, "ancestor", expected) <==> CriterionMatches(m, other, "ancestor", expected))
  {
    if Ancestors(node).Some? {
      var ancestors := Ancestors(node).value;
      GreedyLineageIsComplete(m, ancestors, [expected]);
      SomeAncestor(m, ancestors, expected);
      if i :| 0 <= i < |ancestors| && LineageStep(m, ancestors[i], expected) {
        assert Places(m, ancestors, [expected], [i]);
      }
      if places :| Places(m, ancestors, [expected], places) {
        assert LineageStep(m, ancestors[places[0]], expected);
      }
      if Ancestors(other).Some? && multiset(ancestors) == multiset(Ancestors(other).value) {
        SomeAncestor(m, Ancestors(other).value, expected);
        assert forall a :: a in ancestors <==> a in multiset(ancestors);
        assert forall a :: a in Ancestors(other).value <==> a in multiset(Ancestors(other).value);
      }
    }
  }

  function Regexed(re: Regex): Matcher {
    (actual, expected) => StructureMatches(re, actual, expected)
  }

  const LITERAL: Matcher := (actual, expected) => LiteralMatches(actual, expected)

  /** The criteria the bridge is asked for. */
  function Broad(mandatory: map<string, Value>): map<string, Value> {
    var exact := ExactSubset(Obj(mandatory));
    if exact.Some? && exact.value.Obj? then exact.value.fields else map[]
  }

  lemma {:induction false} CursorAgrees(m: Matcher, l: Matcher, ancestors: seq<Value>, expected: seq<Value>)
    requires forall a, i | 0 <= i < |expected| :: m(a, expected[i]) == l(a, expected[i])
    ensures Cursor(m, ancestors, expected) == Cursor(l, ancestors, expected)
  {
    if ancestors != [] {
      CursorAgrees(m, l, ancestors[..|ancestors| - 1], expected);
    }
  }

  lemma CriterionWeaker(re: Regex, node: Node, key: string, expected: Value)
    requires CriterionMatches(Regexed(re), node, key, expected) && ExactSubset(expected).Some?
    ensures CriterionMatches(LITERAL, node, key, ExactSubset(expected).value)
  {
    var ancestors := Lookup(node, "stable_ancestors");
    if key == "ancestor" {
      var i :| 0 <= i < |ancestors.items| && LineageStep(Regexed(re), ancestors.items[i], expected);
      ExactSubsetIsWeaker(re, ancestors.items[i], expected);
      assert LineageStep(LITERAL, ancestors.items[i], ExactSubset(expected).value);
    } else if key == "lineage" {
      forall a, i | 0 <= i < |expected.items| ensures Regexed(re)(a, expected.items[i]) == LITERAL(a, expected.items[i]) {
        WithoutRegexIsLiteral(re, a, expected.items[i]);
      }
      CursorAgrees(Regexed(re), LITERAL, ancestors.items, expected.items);
    } else {
      ExactSubsetIsWeaker(re, Lookup(node, key), expected);
    }
  }

  /** A node that meets the full criteria meets the weakened ones, so the bridge's answer contains it. */
  lemma BroadQuestionLosesNothing(re: Regex, node: Node, mandatory: map<string, Value>)
    requires NodeMatches(Regexed(re), node, mandatory)
    ensures NodeMatches(LITERAL, node, Broad(mandatory))
  {
    forall key | key in Broad(mandatory) ensures CriterionMatches(LITERAL, node, key, Broad(mandatory)[key]) {
      CriterionWeaker(re, node, key, mandatory[key]);
    }
  }

  // ----- staged filtering

  datatype Candidate = Candidate(endpoint: nat, node: Node)

  function Meeting(m: Matcher, criteria: map<string, Value>): Candidate -> bool {
    (c: Candidate) => NodeMatches(m, c.node, criteria)
  }

  /** Whether a candidate meets the mandatory criteria and the first `n` assistive ones. */
  predicate Meets(re: Regex, mandatory: map<string, Value>, assistive: seq<(string, Value)>, n: nat, c: Candidate)
    requires n <= |assistive|
  {
    NodeMatches(Regexed(re), c.node, mandatory)
    && forall i | 0 <= i < n :: NodeMatches(Regexed(re), c.node, map[assistive[i].0 := assistive[i].1])
  }

  function MeetingStage(re: Regex, mandatory: map<string, Value>, assistive: seq<(string, Value)>, n: nat): Candidate -> bool
    requires n <= |assistive|
  {
    (c: Candidate) => Meets(re, mandatory, assistive, n, c)
  }

  /** All candidates that meet the mandatory criteria and the first `n` assistive ones. */
  function Stage(re: Regex, mandatory: map<string, Value>, assistive: seq<(string, Value)>, n: nat, candidates: seq<Candidate>): seq<Candidate>
    requires n <= |assistive|
  {
    Filter(candidates, MeetingStage(re, mandatory, assistive, n))
  }

  lemma {:induction false} FilterTwice<T>(s: seq<T>, first: T -> bool, second: T -> bool, both: T -> bool)
    requires forall x | x in s :: both(x) <==> first(x) && second(x)
    ensures Filter(Filter(s, first), second) == Filter(s, both)
    ensures |Filter(s, both)| <= |Filter(s, first)|
  {
    if s != [] {
      FilterTwice(s[1..], first, second, both);
    }
  }

  /** The next stage filters the one before it by one more criterion. */
  lemma NextStage(re: Regex, mandatory: map<string, Value>, assistive: seq<(string, Value)>, n: nat, candidates: seq<Candidate>)
    requires n < |assistive|
    ensures var criterion := map[assistive[n].0 := assistive[n].1];
      Filter(Stage(re, mandatory, assistive, n, candidates), Meeting(Regexed(re), criterion))
        == Stage(re, mandatory, assistive, n + 1, candidates)
    ensures |Stage(re, mandatory, assistive, n + 1, candidates)| <= |Stage(re, mandatory, assistive, n, candidates)|
  {
    hide NodeMatches, Regexed;
    var criterion := map[assistive[n].0 := assistive[n].1];
    FilterTwice(candidates, MeetingStage(re, mandatory, assistive, n), Meeting(Regexed(re), criterion),
                MeetingStage(re, mandatory, assistive, n + 1));
  }

  /**
   The regex branch of `javafx_find_matches`, for a bridge that returns, in its own order, every node meeting
   the exact criteria it is asked for. The result is drawn from all nodes: those that meet the mandatory
   criteria and the shortest run of assistive ones that leaves at most one, or all of them.
   */
  method FindMatches(re: Regex, ghost nodes: seq<Candidate>, candidates: seq<Candidate>,
                     mandatory: map<string, Value>, assistive: seq<(string, Value)>)
      returns (matches: seq<Candidate>, counts: seq<nat>)
    requires candidates == Filter(nodes, Meeting(LITERAL, Broad(mandatory)))
    ensures 1 <= |counts| <= |assistive| + 1
    ensures forall n | 0 <= n < |counts| :: counts[n] == |Stage(re, mandatory, assistive, n, nodes)|
    ensures matches == Stage(re, mandatory, assistive, |counts| - 1, nodes)
    ensures forall n | 0 <= n < |counts| - 1 :: counts[n] > 1
    ensures forall c :: c in matches <==> c in nodes && MeetsThrough(re, mandatory, assistive, |counts| - 1, c.node)
    ensures |counts| == |assistive| + 1 || |matches| <= 1
    ensures forall i, j | 0 <= i <= j < |counts| :: counts[i] >= counts[j]
  {
    hide NodeMatches, Regexed, Meets, Broad, MeetsThrough;
    matches := Filter(candidates, Meeting(Regexed(re), mandatory));
    FirstStage(re, nodes, candidates, mandatory, assistive);
    counts := [|matches|];
    var i := 0;
    while i < |assistive| && |matches| > 1
      invariant i <= |assistive| && |counts| == i + 1
      invariant matches == Stage(re, mandatory, assistive, i, nodes)
      invariant forall n | 0 <= n <= i :: counts[n] == |Stage(re, mandatory, assistive, n, nodes)|
      invariant forall n | 0 <= n < i :: counts[n] > 1
      invariant forall m, n | 0 <= m <= n < |counts| :: counts[m] >= counts[n]
    {
      NextStage(re, mandatory, assistive, i, nodes);
      var criterion := map[assistive[i].0 := assistive[i].1];
      matches := Filter(matches, Meeting(Regexed(re), criterion));
      counts := counts + [|matches|];
      i := i + 1;
    }
    StageHolds(re, mandatory, assistive, i, nodes);
  }

  /** The node meets the mandatory criteria and each of the first `n` assistive ones. */
  ghost predicate MeetsThrough(re: Regex, mandatory: map<string, Value>, assistive: seq<(string, Value)>, n: nat, node: Node)
    requires n <= |assistive|
  {
    MeetsCriteria(Regexed(re), node, mandatory)
    && forall i | 0 <= i < n :: MeetsCriteria(Regexed(re), node, map[assistive[i].0 := assistive[i].1])
  }

  lemma StageHolds(re: Regex, mandatory: map<string, Value>, assistive: seq<(string, Value)>, n: nat, nodes: seq<Candidate>)
    requires n <= |assistive|
    ensures forall c :: c in Stage(re, mandatory, assistive, n, nodes) <==> c in nodes && MeetsThrough(re, mandatory, assistive, n, c.node)
  {
    hide NodeMatches, Regexed, MeetsCriteria;
    forall c ensures c in Stage(re, mandatory, assistive, n, nodes) <==> c in nodes && MeetsThrough(re, mandatory, assistive, n, c.node) {
      FilterMember(nodes, MeetingStage(re, mandatory, assistive, n), c);
      NodeMatchesIff(Regexed(re), c.node, mandatory);
      forall i | 0 <= i < n {
        NodeMatchesIff(Regexed(re), c.node, map[assistive[i].0 := assistive[i].1]);
      }
    }
  }

  /** Filtering the bridge's answer by the mandatory criteria is filtering all nodes by them. */
  lemma FirstStage(re: Regex, nodes: seq<Candidate>, candidates: seq<Candidate>, mandatory: map<string, Value>, assistive: seq<(string, Value)>)
    requires candidates == Filter(nodes, Meeting(LITERAL, Broad(mandatory)))
    ensures Filter(candidates, Meeting(Regexed(re), mandatory)) == Stage(re, mandatory, assistive, 0, nodes)
  {
    hide NodeMatches, Regexed, Broad;
    forall c: Candidate ensures NodeMatches(Regexed(re), c.node, mandatory) ==> NodeMatches(LITERAL, c.node, Broad(mandatory)) {
      if NodeMatches(Regexed(re), c.node, mandatory) {
        BroadQuestionLosesNothing(re, c.node, mandatory);
      }
    }
    FilterTwice(nodes, Meeting(LITERAL, Broad(mandatory)), Meeting(Regexed(re), mandatory),
                MeetingStage(re, mandatory, assistive, 0));
  }

  // ----- when the exact subset would be read as a regular expression itself

  /** Nothing of the value can be asked exactly. */
  predicate Vanishes(v: Value) {
    match v
    case Null => true
    case Obj(fields) => RegexPattern(v).Some? || forall k | k in fields :: Vanishes(fields[k])
    case Arr(_) => ContainsRegex(v)
    case _ => false
  }

  /** Plain entries named and filled like those of a regular expression, with nothing else that stays. */
  predicate PatternRemains(fields: map<string, Value>) {
    && "match" in fields && fields["match"] == Str("regex") && "value" in fields && fields["value"].Str?
    && forall k | k in fields && k != "match" && k != "value" :: Vanishes(fields[k])
  }

  /** Dropping regular expressions can leave a mapping that looks like one; `v` has such a place. */
  predicate LeavesPattern(v: Value) {
    && v.Obj? && RegexPattern(v).None?
    && (PatternRemains(v.fields) || exists k | k in v.fields :: LeavesPattern(v.fields[k]))
  }

  lemma {:induction false} VanishesIffNoSubset(v: Value)
    ensures Vanishes(v) <==> ExactSubset(v).None?
  {
    if v.Obj? && RegexPattern(v).None? {
      var exact := map k | k in v.fields && ExactSubset(v.fields[k]).Some? :: ExactSubset(v.fields[k]).value;
      forall k | k in v.fields ensures Vanishes(v.fields[k]) <==> k !in exact {
        VanishesIffNoSubset(v.fields[k]);
      }
      assert exact == map[] <==> forall k | k in v.fields :: k !in exact;
    }
  }

  /** What is left of a mapping is a regular expression exactly when its plain entries look like one. */
  lemma SubsetIsPatternIff(fields: map<string, Value>)
    requires RegexPattern(Obj(fields)).None?
    ensures PatternRemains(fields) <==>
      ExactSubset(Obj(fields)).Some? && RegexPattern(ExactSubset(Obj(fields)).value).Some?
  {
    var exact := map k | k in fields && ExactSubset(fields[k]).Some? :: ExactSubset(fields[k]).value;
    forall k | k in fields ensures Vanishes(fields[k]) <==> k !in exact {
      VanishesIffNoSubset(fields[k]);
    }
    hide Vanishes;
    if PatternRemains(fields) {
      assert "match" in exact && "value" in exact;
      assert exact.Keys == {"match", "value"};
    }
    if exact != map[] && RegexPattern(Obj(exact)).Some? {
      assert "match" in exact.Keys && "value" in exact.Keys;
      assert forall k | k in fields && k != "match" && k != "value" :: k !in exact.Keys;
    }
  }

  /** No pattern is empty, as locator validation demands. */
  predicate PatternsNonEmpty(v: Value) {
    if RegexPattern(v).Some? then RegexPattern(v).value != ""
    else
      match v
      case Obj(fields) => forall k | k in fields :: PatternsNonEmpty(fields[k])
      case Arr(items) => forall i | 0 <= i < |items| :: PatternsNonEmpty(items[i])
      case _ => true
  }

  lemma {:induction false} ExactSubsetSafe(re: Regex, actual: Value, expected: Value)
    requires StructureMatches(re, actual, expected) && ExactSubset(expected).Some? && !LeavesPattern(expected)
    ensures StructureMatches(re, actual, ExactSubset(expected).value)
    decreases expected
  {
    if expected.Obj? {
      SubsetIsPatternIff(expected.fields);
      forall k | k in expected.fields && ExactSubset(expected.fields[k]).Some?
        ensures k in actual.fields && StructureMatches(re, actual.fields[k], ExactSubset(expected.fields[k]).value)
      {
        ExactSubsetSafe(re, actual.fields[k], expected.fields[k]);
      }
    }
  }

  /** A value that meets `v` when every pattern matches exactly the strings. */
  function Sample(v: Value): Value {
    if RegexPattern(v).Some? then Str("")
    else
      match v
      case Obj(fields) => Obj(map k | k in fields :: Sample(fields[k]))
      case Arr(items) => Arr(seq(|items|, i requires 0 <= i < |items| => Sample(items[i])))
      case _ => v
  }

  const STRINGS: Regex := (pattern: string, actual: Value) => actual.Str?

  lemma {:induction false} SampleMatches(v: Value)
    requires PatternsNonEmpty(v)
    ensures StructureMatches(STRINGS, Sample(v), v)
  {
    if RegexPattern(v).None? {
      match v
      case Obj(fields) =>
        forall k | k in fields ensures StructureMatches(STRINGS, Sample(fields[k]), fields[k]) {
          SampleMatches(fields[k]);
        }
      case Arr(items) =>
        forall i | 0 <= i < |items| ensures StructureMatches(STRINGS, Sample(items[i]), items[i]) {
          SampleMatches(items[i]);
        }
      case _ =>
    }
  }

  lemma {:induction false} SampleMissesSubset(v: Value)
    requires LeavesPattern(v)
    ensures ExactSubset(v).Some? && !StructureMatches(STRINGS, Sample(v), ExactSubset(v).value)
  {
    SubsetIsPatternIff(v.fields);
    if !PatternRemains(v.fields) {
      var k :| k in v.fields && LeavesPattern(v.fields[k]);
      SampleMissesSubset(v.fields[k]);
      var exact := map j | j in v.fields && ExactSubset(v.fields[j]).Some? :: ExactSubset(v.fields[j]).value;
      assert k in exact;
      assert ExactSubset(v) == Some(Obj(exact));
      assert Sample(v).fields[k] == Sample(v.fields[k]);
    }
  }

  /**
   Read by the harness's own matcher, the exact subset is weaker for every value and every meaning of the
   patterns exactly when dropping regular expressions leaves nothing that looks like one.
   */
  lemma SubsetWeakerIffNoPatternLeft(expected: Value)
    requires PatternsNonEmpty(expected) && ExactSubset(expected).Some?
    ensures !LeavesPattern(expected) <==>
      forall re: Regex, actual | StructureMatches(re, actual, expected) :: StructureMatches(re, actual, ExactSubset(expected).value)
  {
    if !LeavesPattern(expected) {
      forall re: Regex, actual | StructureMatches(re, actual, expected)
        ensures StructureMatches(re, actual, ExactSubset(expected).value)
      {
        ExactSubsetSafe(re, actual, expected);
      }
    } else {
      SampleMatches(expected);
      SampleMissesSubset(expected);
    }
  }

  /** Such a matcher: beside a regular expression, two plain entries named like a regular expression's. */
  lemma PatternLeftExample(pattern: string)
    ensures LeavesPattern(Obj(map["match" := Str("regex"), "value" := Str("x"), "text" := RegexOf(pattern)]))
  {
    var fields := map["match" := Str("regex"), "value" := Str("x"), "text" := RegexOf(pattern)];
    RegexOfIsPattern(pattern);
    assert "text" in fields.Keys && "text" !in {"match", "value"};
    hide RegexOf;
    assert PatternRemains(fields);
  }

  function RegexOf(pattern: string): Value {
    Obj(map["match" := Str("regex"), "value" := Str(pattern)])
  }

  lemma RegexOfIsPattern(pattern: string)
    ensures RegexPattern(RegexOf(pattern)) == Some(pattern) && RegexOf(pattern).Obj?
  {
  }
}
