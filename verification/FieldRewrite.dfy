/** Field rewriting over a map of rewrites, whose iteration order is arbitrary. */
module FieldRewrite {
  import opened Wrappers
  import opened Models
  import opened Paths

  type Rewrites = map<string, Path>

  function RewriteOne(fields: Fields, rewrites: Rewrites, name: string): Fields
    requires name in rewrites
  {
    match ValueAt(fields, rewrites[name])
    case Some(v) => fields[name := v]
    case None => fields
  }

  function InOrder(fields: Fields, rewrites: Rewrites, order: seq<string>): Fields
    requires forall name <- order :: name in rewrites
    decreases |order|
  {
    if order == [] then fields
    else RewriteOne(InOrder(fields, rewrites, order[..|order| - 1]), rewrites, order[|order| - 1])
  }

  predicate NoRepeats(order: seq<string>) {
    forall i, j :: 0 <= i < j < |order| ==> order[i] != order[j]
  }

  /** One possible iteration of the map. */
  predicate IsIteration(order: seq<string>, rewrites: Rewrites) {
    NoRepeats(order) && (forall name <- order :: name in rewrites) && (forall name <- rewrites :: name in order)
  }

  function Kept(fields: Fields, rewrites: Rewrites, keepOldFields: bool): Fields {
    if keepOldFields then fields else map k | k in fields && k in rewrites :: fields[k]
  }

  /** All paths evaluated on the original entry, then assigned at once. */
  function Simultaneous(fields: Fields, rewrites: Rewrites): Fields {
    fields + map name | name in rewrites && ValueAt(fields, rewrites[name]).Some? :: ValueAt(fields, rewrites[name]).value
  }

  /** The rewrite of `target` can change what the one of `other` reads. */
  predicate Disturbs(rewrites: Rewrites, target: string, other: string) {
    && target in rewrites && other in rewrites && target != other
    && Resolvable(rewrites[target]) && Resolvable(rewrites[other])
    && rewrites[other][0] == target
    && rewrites[target] != [target]
  }

  predicate Independent(rewrites: Rewrites) {
    forall target <- rewrites, other <- rewrites :: !Disturbs(rewrites, target, other)
  }

  // ---------- independent rewrites ----------

  /** The fields after some of the rewrites, each evaluated on the original. */
  function Partly(fields: Fields, rewrites: Rewrites, done: seq<string>): Fields {
    fields + map name | name in rewrites && name in done && ValueAt(fields, rewrites[name]).Some?
               :: ValueAt(fields, rewrites[name]).value
  }

  lemma ReadsOriginal(fields: Fields, rewrites: Rewrites, done: seq<string>, name: string)
    requires Independent(rewrites) && name in rewrites && name !in done
    ensures ValueAt(Partly(fields, rewrites, done), rewrites[name]) == ValueAt(fields, rewrites[name])
  {
    var path := rewrites[name];
    var now := Partly(fields, rewrites, done);
    if "" in path {
      UnresolvableWalk(Object(fields), path);
      UnresolvableWalk(Object(now), path);
    } else if path != [] {
      var first := path[0];
      if first in rewrites && first in done && ValueAt(fields, rewrites[first]).Some? {
        assert !Disturbs(rewrites, first, name);
        if "" in rewrites[first] {
          UnresolvableWalk(Object(fields), rewrites[first]);
        }
        assert rewrites[first] == [first];
        assert Walk(fields[first], [first][1..]) == Some(fields[first]);
      }
      assert first in now <==> first in fields;
      assert first in now ==> now[first] == fields[first];
    }
  }

  lemma {:induction false} InOrderIsPartly(fields: Fields, rewrites: Rewrites, order: seq<string>)
    requires Independent(rewrites) && NoRepeats(order) && forall name <- order :: name in rewrites
    ensures InOrder(fields, rewrites, order) == Partly(fields, rewrites, order)
    decreases |order|
  {
    if order != [] {
      var front, name := order[..|order| - 1], order[|order| - 1];
      InOrderIsPartly(fields, rewrites, front);
      ReadsOriginal(fields, rewrites, front, name);
      assert order == front + [name];
      PartlyOn(fields, rewrites, front, name);
    }
  }

  lemma PartlyOn(fields: Fields, rewrites: Rewrites, done: seq<string>, name: string)
    requires name in rewrites && name !in done
    ensures Partly(fields, rewrites, done + [name]) ==
            match ValueAt(fields, rewrites[name])
            case Some(v) => Partly(fields, rewrites, done)[name := v]
            case None => Partly(fields, rewrites, done)
  {
  }

  /** No iteration order matters: each gives the simultaneous assignment. */
  lemma OrderDoesNotMatter(fields: Fields, rewrites: Rewrites, order: seq<string>)
    requires Independent(rewrites) && IsIteration(order, rewrites)
    ensures InOrder(fields, rewrites, order) == Simultaneous(fields, rewrites)
  {
    InOrderIsPartly(fields, rewrites, order);
  }

  // ---------- dependent rewrites ----------

  predicate SameAt(a: Fields, b: Fields, k: string) {
    (k in a <==> k in b) && (k in a ==> a[k] == b[k])
  }

  lemma {:induction false} Untouched(fields: Fields, rewrites: Rewrites, first: seq<string>, rest: seq<string>, k: string)
    requires (forall name <- first :: name in rewrites) && (forall name <- rest :: name in rewrites)
    requires k !in rest
    ensures SameAt(InOrder(fields, rewrites, first + rest), InOrder(fields, rewrites, first), k)
    decreases |rest|
  {
    if rest == [] {
      assert first + rest == first;
    } else {
      var front := rest[..|rest| - 1];
      Untouched(fields, rewrites, first, front, k);
      assert (first + rest)[..|first + rest| - 1] == first + front;
    }
  }

  lemma {:induction false} ShortWalk(p: Path, q: Path, leaf: Value)
    requires |q| < |p|
    ensures Walk(Nest(p, leaf), q) == None || Walk(Nest(p, leaf), q).value.Object?
    decreases |q|
  {
    if q != [] && p[0] == q[0] {
      ShortWalk(p[1..], q[1..], leaf);
    }
  }

  lemma {:induction false} NestNest(p: Path, q: Path, leaf: Value)
    ensures Nest(p, Nest(q, leaf)) == Nest(p + q, leaf)
    decreases |p|
  {
    if p == [] {
      assert p + q == q;
    } else {
      NestNest(p[1..], q, leaf);
      assert (p + q)[1..] == p[1..] + q;
    }
  }

  function TwoSteps(fields: Fields, rewrites: Rewrites, a: string, b: string): Fields
    requires a in rewrites && b in rewrites
  {
    RewriteOne(RewriteOne(fields, rewrites, a), rewrites, b)
  }

  /** An entry on which a disturbing rewrite and the disturbed one do not commute. */
  lemma Witness(rewrites: Rewrites, t: string, u: string) returns (fields: Fields)
    requires Disturbs(rewrites, t, u)
    ensures !SameAt(TwoSteps(fields, rewrites, t, u), TwoSteps(fields, rewrites, u, t), u)
  {
    var p, q := rewrites[t], rewrites[u][1..];
    assert rewrites[u] == [t] + q && "" !in q && "" !in p;
    var leaf := Other(0);
    var inner := Nest(q, leaf);
    WalkNest(q, leaf);
    WalkNest(p, inner);
    if p[0] == t {
      assert p == [t] + p[1..] && p[1..] != [];
      fields := map[t := Nest(p[1..], inner)];
      NestNest(p[1..], q, leaf);
      ShortWalk(p[1..] + q, q, leaf);
    } else {
      fields := map[p[0] := Nest(p[1..], inner), t := Other(1)];
    }
    var one := RewriteOne(fields, rewrites, t);
    assert ValueAt(fields, p) == Some(inner);
    assert ValueAt(one, rewrites[u]) == Some(leaf);
    assert TwoSteps(fields, rewrites, t, u)[u] == leaf;
    // Read first, the disturbed path gives something else or nothing.
    var read := Walk(fields[t], q);
    assert rewrites[u][0] == t && rewrites[u][1..] == q;
    assert ValueAt(fields, rewrites[u]) == read;
    assert read != Some(leaf);
    if read.None? && u in fields {
      assert u == p[0] && fields[u].Object?;
    }
  }

  lemma Enumerate(names: set<string>) returns (order: seq<string>)
    ensures NoRepeats(order) && forall name :: name in names <==> name in order
  {
    var todo := names;
    order := [];
    while todo != {}
      invariant NoRepeats(order) && todo <= names
      invariant forall name :: name in names <==> name in order || name in todo
      invariant forall name <- todo :: name !in order
    {
      var name :| name in todo;
      order, todo := order + [name], todo - {name};
    }
  }

  /** Independence is the exact condition: without it two iterations of the map leave some
      entry with different fields, whether old fields are kept or not. */
  lemma OrderMatters(rewrites: Rewrites) returns (fields: Fields, one: seq<string>, two: seq<string>)
    requires !Independent(rewrites)
    ensures IsIteration(one, rewrites) && IsIteration(two, rewrites)
    ensures forall keep ::
              Kept(InOrder(fields, rewrites, one), rewrites, keep) != Kept(InOrder(fields, rewrites, two), rewrites, keep)
  {
    var t, u :| t in rewrites && u in rewrites && Disturbs(rewrites, t, u);
    hide InOrder, RewriteOne, ValueAt, Disturbs, Independent, IsIteration, NoRepeats, Kept;
    fields := Witness(rewrites, t, u);
    var rest := Enumerate(rewrites.Keys - {t, u});
    one, two := [t, u] + rest, [u, t] + rest;
    TwoFirst(rewrites, t, u, rest);
    TwoFirst(rewrites, u, t, rest);
    Two(fields, rewrites, t, u);
    Two(fields, rewrites, u, t);
    Untouched(fields, rewrites, [t, u], rest, u);
    Untouched(fields, rewrites, [u, t], rest, u);
    var a, b := InOrder(fields, rewrites, one), InOrder(fields, rewrites, two);
    assert !SameAt(a, b, u);
    forall keep
      ensures Kept(a, rewrites, keep) != Kept(b, rewrites, keep)
    {
      KeptTargets(a, rewrites, keep, u);
      KeptTargets(b, rewrites, keep, u);
    }
  }

  lemma TwoFirst(rewrites: Rewrites, a: string, b: string, rest: seq<string>)
    requires a in rewrites && b in rewrites && a != b && NoRepeats(rest)
    requires forall name :: name in rewrites.Keys - {a, b} <==> name in rest
    ensures IsIteration([a, b] + rest, rewrites)
  {
    var order := [a, b] + rest;
    assert forall i :: 2 <= i < |order| ==> order[i] == rest[i - 2] && rest[i - 2] in rest;
    assert forall name <- rewrites :: name == order[0] || name == order[1] || name in rest;
  }

  lemma KeptTargets(fields: Fields, rewrites: Rewrites, keep: bool, k: string)
    requires k in rewrites
    ensures SameAt(Kept(fields, rewrites, keep), fields, k)
  {
  }

  /** A field that is no target stays as it is, or goes when old fields are not kept. */
  lemma OtherFields(fields: Fields, rewrites: Rewrites, order: seq<string>, keep: bool, k: string)
    requires IsIteration(order, rewrites) && k !in rewrites
    ensures var after := Kept(InOrder(fields, rewrites, order), rewrites, keep);
            if keep then SameAt(after, fields, k) else k !in after
  {
    assert [] + order == order;
    Untouched(fields, rewrites, [], order, k);
  }

  /** A target that every order reads the same gets the value at its path, and otherwise keeps
      the one it had. */
  lemma TargetFields(fields: Fields, rewrites: Rewrites, order: seq<string>, keep: bool, k: string)
    requires IsIteration(order, rewrites) && Independent(rewrites) && k in rewrites
    ensures var after, found := Kept(InOrder(fields, rewrites, order), rewrites, keep), ValueAt(fields, rewrites[k]);
            if found.Some? then k in after && after[k] == found.value else SameAt(after, fields, k)
  {
    OrderDoesNotMatter(fields, rewrites, order);
    KeptTargets(InOrder(fields, rewrites, order), rewrites, keep, k);
  }

  lemma Two(fields: Fields, rewrites: Rewrites, a: string, b: string)
    requires a in rewrites && b in rewrites
    ensures InOrder(fields, rewrites, [a, b]) == TwoSteps(fields, rewrites, a, b)
  {
    assert [a, b][..1] == [a] && [a][..0] == [];
    assert InOrder(fields, rewrites, []) == fields;
    assert InOrder(fields, rewrites, [a]) == RewriteOne(fields, rewrites, a);
  }

  // ---------- the stage ----------

  class FieldRewriteStage {
    const rewrites: Rewrites
    const keepOldFields: bool

    constructor (rewrites: Rewrites, keepOldFields: bool)
      ensures this.rewrites == rewrites && this.keepOldFields == keepOldFields
    {
      this.rewrites, this.keepOldFields := rewrites, keepOldFields;
    }

    /** `order` is the iteration that happened; independent rewrites do not depend on it. */
    method Process(entry: LogEntry) returns (ghost order: seq<string>)
      modifies entry`fields
      ensures IsIteration(order, rewrites)
      ensures entry.fields == Kept(InOrder(old(entry.fields), rewrites, order), rewrites, keepOldFields)
      ensures Independent(rewrites) ==>
                entry.fields == Kept(Simultaneous(old(entry.fields), rewrites), rewrites, keepOldFields)
    {
      var todo := rewrites.Keys;
      order := [];
      while todo != {}
        invariant NoRepeats(order) && todo <= rewrites.Keys
        invariant forall name :: name in rewrites <==> name in order || name in todo
        invariant forall name <- todo :: name !in order
        invariant entry.fields == InOrder(old(entry.fields), rewrites, order)
      {
        var name :| name in todo;
        var field := ValueAt(entry.fields, rewrites[name]);
        if field.Some? {
          entry.fields := entry.fields[name := field.value];
        }
        assert (order + [name])[..|order|] == order;
        order, todo := order + [name], todo - {name};
      }
      ghost var rewritten := entry.fields;
      if Independent(rewrites) {
        OrderDoesNotMatter(old(entry.fields), rewrites, order);
      }
      if !keepOldFields {
        DeleteOthers(entry);
      }
    }

    method DeleteOthers(entry: LogEntry)
      modifies entry`fields
      ensures entry.fields == Kept(old(entry.fields), rewrites, false)
    {
      var todo := entry.fields.Keys;
      while todo != {}
        invariant todo <= entry.fields.Keys <= old(entry.fields).Keys
        invariant forall k <- old(entry.fields) :: k in entry.fields <==> k in todo || k in rewrites
        invariant forall k <- entry.fields :: entry.fields[k] == old(entry.fields)[k]
      {
        var name :| name in todo;
        if name !in rewrites {
          entry.fields := entry.fields - {name};
        }
        todo := todo - {name};
      }
    }
  }
}
