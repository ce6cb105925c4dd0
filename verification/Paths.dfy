/** Dotted paths into the fields of an entry. */
module Paths {
  import opened Wrappers
  import opened Models

  type Path = seq<string>

  function Walk(v: Value, path: Path): Option<Value>
    decreases |path|
  {
    if path == [] then Some(v)
    else if path[0] == "" || !v.Object? || path[0] !in v.members then None
    else Walk(v.members[path[0]], path[1..])
  }

  /** The value at a path; the empty path and empty segments name nothing. */
  function ValueAt(fields: Fields, path: Path): Option<Value> {
    if path == [] then None else Walk(Object(fields), path)
  }

  /** Every segment is a name. */
  predicate Resolvable(path: Path) {
    path != [] && "" !in path
  }

  /** The smallest object holding a value at a path. */
  function Nest(path: Path, leaf: Value): Value {
    if path == [] then leaf else Object(map[path[0] := Nest(path[1..], leaf)])
  }

  lemma {:induction false} WalkNest(path: Path, leaf: Value)
    requires "" !in path
    ensures Walk(Nest(path, leaf), path) == Some(leaf)
    decreases |path|
  {
    if path != [] {
      WalkNest(path[1..], leaf);
    }
  }

  lemma {:induction false} UnresolvableWalk(v: Value, path: Path)
    requires "" in path
    ensures Walk(v, path) == None
    decreases |path|
  {
    if path[0] != "" && v.Object? && path[0] in v.members {
      UnresolvableWalk(v.members[path[0]], path[1..]);
    }
  }

  lemma {:induction false} WalkOn(v: Value, p: Path, q: Path)
    ensures Walk(v, p + q) == if Walk(v, p).Some? then Walk(Walk(v, p).value, q) else None
    decreases |p|
  {
    if p == [] {
      assert p + q == q;
    } else {
      assert (p + q)[1..] == p[1..] + q;
      if p[0] != "" && v.Object? && p[0] in v.members {
        WalkOn(v.members[p[0]], p[1..], q);
      }
    }
  }
}
