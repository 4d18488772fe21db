/** The order in which normalization names objects: by type, then folded alias, then id. */
module SortOrder {
  import opened Text
  import opened ComponentRepository

  /** Strings compare character by character, a prefix coming first. */
  predicate Less(a: string, b: string) {
    b != "" && (a == "" || a[0] < b[0] || (a[0] == b[0] && Less(a[1..], b[1..])))
  }

  lemma {:induction false} LessAsymmetric(a: string, b: string)
    requires Less(a, b)
    ensures !Less(b, a) && a != b
  {
    if a != "" && a[0] == b[0] {
      LessAsymmetric(a[1..], b[1..]);
    }
  }

  lemma {:induction false} LessTotal(a: string, b: string)
    ensures Less(a, b) || a == b || Less(b, a)
  {
    if a != "" && b != "" && a[0] == b[0] {
      LessTotal(a[1..], b[1..]);
      assert a == [a[0]] + a[1..] && b == [b[0]] + b[1..];
    }
  }

  lemma {:induction false} LessTransitive(a: string, b: string, c: string)
    requires Less(a, b) && Less(b, c)
    ensures Less(a, c)
  {
    if a != "" && a[0] == b[0] == c[0] {
      LessTransitive(a[1..], b[1..], c[1..]);
    }
  }

  /** Behind a common beginning the rest decides. */
  lemma {:induction false} LessBehind(prefix: string, a: string, b: string)
    ensures Less(prefix + a, prefix + b) <==> Less(a, b)
  {
    if prefix == "" {
      assert prefix + a == a && prefix + b == b;
    } else {
      LessBehind(prefix[1..], a, b);
      assert (prefix + a)[1..] == prefix[1..] + a && (prefix + b)[1..] == prefix[1..] + b;
    }
  }

  // ----- definitions

  predicate Precedes(a: Definition, b: Definition) {
    || Less(a.body.objectType, b.body.objectType)
    || (a.body.objectType == b.body.objectType
        && (Less(Fold(a.componentId), Fold(b.componentId))
            || (Fold(a.componentId) == Fold(b.componentId) && Less(a.objectId, b.objectId))))
  }

  lemma PrecedesAsymmetric(a: Definition, b: Definition)
    requires Precedes(a, b)
    ensures !Precedes(b, a)
  {
    hide Fold, Less;
    var (x, y) := (a.body.objectType, b.body.objectType);
    if Less(x, y) { LessAsymmetric(x, y); }
    if Less(y, x) { LessAsymmetric(y, x); }
    var (f, g) := (Fold(a.componentId), Fold(b.componentId));
    if Less(f, g) { LessAsymmetric(f, g); }
    if Less(g, f) { LessAsymmetric(g, f); }
    if Less(a.objectId, b.objectId) { LessAsymmetric(a.objectId, b.objectId); }
  }

  lemma PrecedesTotal(a: Definition, b: Definition)
    requires a.objectId != b.objectId
    ensures Precedes(a, b) || Precedes(b, a)
  {
    LessTotal(a.body.objectType, b.body.objectType);
    LessTotal(Fold(a.componentId), Fold(b.componentId));
    LessTotal(a.objectId, b.objectId);
  }

  lemma PrecedesTransitive(a: Definition, b: Definition, c: Definition)
    requires Precedes(a, b) && Precedes(b, c)
    ensures Precedes(a, c)
  {
    hide Fold, Less;
    var (x, y, z) := (a.body.objectType, b.body.objectType, c.body.objectType);
    if Less(x, y) && Less(y, z) { LessTransitive(x, y, z); }
    var (f, g, h) := (Fold(a.componentId), Fold(b.componentId), Fold(c.componentId));
    if Less(f, g) && Less(g, h) { LessTransitive(f, g, h); }
    if Less(a.objectId, b.objectId) && Less(b.objectId, c.objectId) { LessTransitive(a.objectId, b.objectId, c.objectId); }
  }

  /** Definitions under their own ids. */
  predicate Keyed(m: map<string, Definition>) {
    forall id | id in m :: m[id].objectId == id
  }

  lemma {:induction false} FirstOf(m: map<string, Definition>, ids: set<string>) returns (first: string)
    requires Keyed(m) && ids != {} && ids <= m.Keys
    ensures first in ids && forall j | j in ids && j != first :: Precedes(m[first], m[j])
    decreases ids
  {
    hide Precedes;
    first :| first in ids;
    var rest := ids - {first};
    assert forall j | j in ids && j != first :: j in rest;
    if rest != {} {
      var next := FirstOf(m, rest);
      PrecedesTotal(m[first], m[next]);
      forall j | j in rest && j != next ensures Precedes(m[first], m[next]) ==> Precedes(m[first], m[j]) {
        if Precedes(m[first], m[next]) { PrecedesTransitive(m[first], m[next], m[j]); }
      }
      first := if Precedes(m[first], m[next]) then first else next;
    }
  }
}
