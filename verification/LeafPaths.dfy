/** Nested values as scalar leaves under paths, which identity editing takes apart and puts together. */
module LeafPaths {
  import opened Outcomes
  import opened Values

  datatype Token = Key(name: string) | Index(place: nat)

  type Path = seq<Token>

  /** Whether a token leads into a container. */
  predicate Enters(v: Value, t: Token) {
    match v
    case Obj(fields) => t.Key? && t.name in fields
    case Arr(items) => t.Index? && t.place < |items|
    case _ => false
  }

  function Child(v: Value, t: Token): (child: Value)
    requires Enters(v, t)
    ensures child < v
  {
    if v.Obj? then v.fields[t.name] else v.items[t.place]
  }

  /** What stands at a path. */
  function NodeAt(v: Value, path: Path): Option<Value>
    decreases |path|
  {
    if path == [] then Some(v)
    else if Enters(v, path[0]) then NodeAt(Child(v, path[0]), path[1..])
    else None
  }

  /** The path leads to a scalar. */
  predicate LeafPath(v: Value, path: Path)
    decreases |path|
  {
    if path == [] then !v.Container() else Enters(v, path[0]) && LeafPath(Child(v, path[0]), path[1..])
  }

  function Leaf(v: Value, path: Path): Value
    requires LeafPath(v, path)
    decreases |path|
  {
    if path == [] then v else Leaf(Child(v, path[0]), path[1..])
  }

  ghost predicate HasLeaf(v: Value) {
    exists path :: LeafPath(v, path)
  }

  /** The rests of the paths that start with a token. */
  function Below(paths: set<Path>, t: Token): set<Path> {
    set path | path in paths && path != [] && path[0] == t :: path[1..]
  }

  lemma BelowMember(paths: set<Path>, t: Token, rest: Path)
    ensures rest in Below(paths, t) <==> [t] + rest in paths
  {
    if rest in Below(paths, t) {
      var path :| path in paths && path != [] && path[0] == t && path[1..] == rest;
      assert path == [t] + rest;
    }
    if [t] + rest in paths {
      assert ([t] + rest)[1..] == rest;
    }
  }

  lemma BelowAdd(paths: set<Path>, path: Path, t: Token)
    requires path != []
    ensures Below(paths + {path}, t) == if path[0] == t then Below(paths, t) + {path[1..]} else Below(paths, t)
  {
    var both := Below(paths + {path}, t);
    forall rest ensures rest in both <==> rest in Below(paths, t) || (path[0] == t && rest == path[1..]) {
      BelowMember(paths + {path}, t, rest);
      BelowMember(paths, t, rest);
      assert [t] + rest == path <==> path[0] == t && rest == path[1..];
    }
  }
}
