/** Structural matching and the exact subset, place by place. */
module StructureMatching {
  import opened Outcomes
  import opened Values
  import opened LeafPaths
  import opened LocatorMatching

  /** The path does not lead into a regular expression. */
  predicate Outside(v: Value, path: Path)
    decreases |path|
  {
    path == [] || (Enters(v, path[0]) && !IsPattern(v) && Outside(Child(v, path[0]), path[1..]))
  }

  /** A mapping of exactly `match: regex` and a pattern text. */
  predicate IsPattern(v: Value) {
    v.Obj? && v.fields.Keys == {"match", "value"} && v.fields["match"] == Str("regex") && v.fields["value"].Str?
  }

  /** What one place asks for: a text the pattern matches, a mapping, a list of the same length, or the same scalar. */
  predicate AgreesHere(re: Regex, actual: Value, expected: Value) {
    if IsPattern(expected) then
      expected.fields["value"].text != "" && actual != Null && re(expected.fields["value"].text, actual)
    else
      match expected
      case Obj(_) => actual.Obj?
      case Arr(items) => actual.Arr? && |actual.items| == |items|
      case _ => actual == expected
  }

  predicate AgreesAt(re: Regex, actual: Value, expected: Value, path: Path) {
    var (there, wanted) := (NodeAt(actual, path), NodeAt(expected, path));
    there.Some? && wanted.Some? && AgreesHere(re, there.value, wanted.value)
  }

  lemma {:induction false} MatchesAgree(re: Regex, actual: Value, expected: Value, path: Path)
    requires StructureMatches(re, actual, expected) && Outside(expected, path)
    ensures AgreesAt(re, actual, expected, path)
    decreases |path|
  {
    if path != [] {
      assert Enters(actual, path[0]);
      MatchesAgree(re, Child(actual, path[0]), Child(expected, path[0]), path[1..]);
    }
  }

  lemma {:induction false} AgreesMatch(re: Regex, actual: Value, expected: Value)
    requires forall path | Outside(expected, path) :: AgreesAt(re, actual, expected, path)
    ensures StructureMatches(re, actual, expected)
    decreases expected
  {
    assert Outside(expected, []) && AgreesAt(re, actual, expected, []);
    if !IsPattern(expected) {
      forall t | Enters(expected, t) ensures Enters(actual, t) && StructureMatches(re, Child(actual, t), Child(expected, t)) {
        assert [t][1..] == [];
        assert Outside(expected, [t]);
        assert NodeAt(actual, [t]).Some?;
        forall path | Outside(Child(expected, t), path) ensures AgreesAt(re, Child(actual, t), Child(expected, t), path) {
          assert ([t] + path)[1..] == path;
          assert Outside(expected, [t] + path) && AgreesAt(re, actual, expected, [t] + path);
        }
        AgreesMatch(re, Child(actual, t), Child(expected, t));
      }
      EveryChild(re, actual, expected);
    }
  }

  lemma EveryChild(re: Regex, actual: Value, expected: Value)
    requires !IsPattern(expected) && AgreesHere(re, actual, expected)
    requires forall t | Enters(expected, t) :: Enters(actual, t) && StructureMatches(re, Child(actual, t), Child(expected, t))
    ensures StructureMatches(re, actual, expected)
  {
    if expected.Obj? {
      forall k | k in expected.fields ensures k in actual.fields && StructureMatches(re, actual.fields[k], expected.fields[k]) {
        assert Enters(expected, Key(k)) && Enters(actual, Key(k));
      }
    }
    if expected.Arr? {
      forall i | 0 <= i < |expected.items| ensures StructureMatches(re, actual.items[i], expected.items[i]) {
        assert Enters(expected, Index(i)) && Enters(actual, Index(i));
      }
    }
  }

  /** A structure matches exactly when every place of it agrees; the inside of a regular expression is no place. */
  lemma StructureMatchesIff(re: Regex, actual: Value, expected: Value)
    ensures StructureMatches(re, actual, expected) <==>
            forall path | Outside(expected, path) :: AgreesAt(re, actual, expected, path)
  {
    if StructureMatches(re, actual, expected) {
      forall path | Outside(expected, path) ensures AgreesAt(re, actual, expected, path) {
        MatchesAgree(re, actual, expected, path);
      }
    }
    if forall path | Outside(expected, path) :: AgreesAt(re, actual, expected, path) {
      AgreesMatch(re, actual, expected);
    }
  }

  // ----- the exact subset

  predicate Keys(path: Path) {
    forall t | t in path :: t.Key?
  }

  lemma {:induction false} RegexIsFound(v: Value, path: Path)
    requires NodeAt(v, path).Some? && IsPattern(NodeAt(v, path).value)
    ensures ContainsRegex(v)
    decreases |path|
  {
    if path != [] {
      RegexIsFound(Child(v, path[0]), path[1..]);
      RegexBelow(v, path[0]);
    }
  }

  lemma {:induction false} RegexIsSomewhere(v: Value) returns (path: Path)
    requires ContainsRegex(v)
    ensures NodeAt(v, path).Some? && IsPattern(NodeAt(v, path).value)
    decreases v
  {
    if IsPattern(v) {
      path := [];
    } else {
      var t := ChildWithRegex(v);
      var rest := RegexIsSomewhere(Child(v, t));
      path := [t] + rest;
      assert path[1..] == rest;
    }
  }

  /** A list is asked for whole or not at all: not at all if a regular expression is anywhere inside. */
  lemma ContainsRegexIff(v: Value)
    ensures ContainsRegex(v) <==> exists path :: NodeAt(v, path).Some? && IsPattern(NodeAt(v, path).value)
  {
    if ContainsRegex(v) {
      var path := RegexIsSomewhere(v);
    }
    forall path | NodeAt(v, path).Some? && IsPattern(NodeAt(v, path).value) ensures ContainsRegex(v) {
      RegexIsFound(v, path);
    }
  }

  lemma RegexBelow(v: Value, t: Token)
    requires Enters(v, t) && ContainsRegex(Child(v, t))
    ensures ContainsRegex(v)
  {
    if v.Obj? {
      assert t.name in v.fields && ContainsRegex(v.fields[t.name]);
    } else {
      assert ContainsRegex(v.items[t.place]);
    }
  }

  lemma ChildWithRegex(v: Value) returns (t: Token)
    requires ContainsRegex(v) && !IsPattern(v)
    ensures Enters(v, t) && ContainsRegex(Child(v, t))
  {
    if v.Obj? {
      var k :| k in v.fields && ContainsRegex(v.fields[k]);
      t := Key(k);
    } else {
      var i :| 0 <= i < |v.items| && ContainsRegex(v.items[i]);
      t := Index(i);
    }
  }

  /** The subset has every place that can be asked exactly, under the keys it had, and there what was there. */
  lemma {:induction false} ExactSubsetKeeps(v: Value, path: Path)
    requires Keys(path) && NodeAt(v, path).Some? && Outside(v, path)
    ensures var (exact, there) := (ExactSubset(v), NodeAt(v, path).value);
      && ((exact.Some? && NodeAt(exact.value, path).Some?) <==> !Vanishes(there))
      && (!Vanishes(there) ==>
            if there.Obj? then NodeAt(exact.value, path).value.Obj? && NodeAt(exact.value, path).value.fields.Keys <= there.fields.Keys
            else NodeAt(exact.value, path).value == there)
    decreases |path|
  {
    VanishesIffNoSubset(v);
    if path != [] {
      var k := path[0].name;
      assert path[0] in path && Key(k) == path[0];
      assert Keys(path[1..]);
      VanishesIffNoSubset(v.fields[k]);
      ExactSubsetKeeps(v.fields[k], path[1..]);
      var exact := map j | j in v.fields && ExactSubset(v.fields[j]).Some? :: ExactSubset(v.fields[j]).value;
      assert !Vanishes(v) ==> ExactSubset(v) == Some(Obj(exact));
      if k !in exact {
        assert ExactSubset(v).Some? ==> NodeAt(ExactSubset(v).value, path).None?;
      } else {
        assert ExactSubset(v) == Some(Obj(exact));
        assert NodeAt(Obj(exact), path) == NodeAt(exact[k], path[1..]);
      }
    }
  }

  /** The question to the bridge has every criterion of which anything can be asked exactly. */
  lemma BroadIs(mandatory: map<string, Value>)
    ensures !IsPattern(Obj(mandatory)) ==> forall k :: k in Broad(mandatory) <==> k in mandatory && !Vanishes(mandatory[k])
    ensures forall k | k in Broad(mandatory) :: k in mandatory && Some(Broad(mandatory)[k]) == ExactSubset(mandatory[k])
    ensures IsPattern(Obj(mandatory)) ==> Broad(mandatory) == map[]
  {
    if !IsPattern(Obj(mandatory)) {
      var exact := map k | k in mandatory && ExactSubset(mandatory[k]).Some? :: ExactSubset(mandatory[k]).value;
      forall k | k in mandatory ensures k in exact <==> !Vanishes(mandatory[k]) {
        VanishesIffNoSubset(mandatory[k]);
      }
      assert Broad(mandatory) == exact;
    }
  }
}
