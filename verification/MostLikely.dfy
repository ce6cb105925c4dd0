/** The cache in front of the extraction stages: what one entry taught is tried first on the
    next entry with the same key. */
module MostLikely {
  import opened Wrappers
  import opened Models

  /** string(rune(n)): numbers that are no character become the replacement character. */
  function RuneOf(n: nat): char {
    if n < 0xD800 || 0xE000 <= n < 0x11_0000 then n as char else '\U{FFFD}'
  }

  function CacheKey(sourcePath: string, fields: Fields): string {
    sourcePath + [RuneOf(|fields|)]
  }

  /** The numbers that are characters. */
  predicate IsCharacter(n: nat) {
    n <= 0x10FFFF && !(0xD800 <= n <= 0xDFFF)
  }

  /** Entries share what is remembered exactly if they are of one source and have the same number
      of fields; numbers that are no character count as one number. */
  lemma KeysAreShared(source: string, fields: Fields, source': string, fields': Fields)
    ensures var n, n' := |fields|, |fields'|;
            CacheKey(source, fields) == CacheKey(source', fields') <==>
            && source == source'
            && (n == n' || ((!IsCharacter(n) || n == 0xFFFD) && (!IsCharacter(n') || n' == 0xFFFD)))
  {
    var k, k' := CacheKey(source, fields), CacheKey(source', fields');
    RuneExactly(|fields|);
    RuneExactly(|fields'|);
    hide RuneOf;
    if k == k' {
      assert k[|source|] == k'[|source'|] && k[..|source|] == k'[..|source'|];
    }
  }

  lemma RuneExactly(n: nat)
    ensures RuneOf(n) as int == if IsCharacter(n) then n else 0xFFFD
  {
  }

  /** What a stage remembers of an entry it scanned (M), and what comes out of an entry (R). */
  datatype Stage<!E, !M, !R> = Stage(
    key: E -> string,
    scan: E -> R,
    memo: E -> M,
    recall: (M, E) -> Option<R>)

  datatype Served<M, R> = Served(result: R, cache: map<string, M>)

  function Serve<E, M, R>(stage: Stage<E, M, R>, cache: map<string, M>, e: E): Served<M, R> {
    var key := stage.key(e);
    if key in cache && stage.recall(cache[key], e).Some? then Served(stage.recall(cache[key], e).value, cache)
    else Served(stage.scan(e), cache[key := stage.memo(e)])
  }

  /** An entry arrives, or the cache is trimmed to some of its keys. */
  datatype Step<E> = Entry(entry: E) | Trim(kept: set<string>)

  function After<E, M, R>(stage: Stage<E, M, R>, steps: seq<Step<E>>): map<string, M> {
    if steps == [] then map[]
    else
      var before := After(stage, steps[..|steps| - 1]);
      match steps[|steps| - 1]
      case Entry(e) => Serve(stage, before, e).cache
      case Trim(kept) => map key | key in before && key in kept :: before[key]
  }

  /** What `a` taught gives for `b` what scanning `b` gives. */
  predicate Agrees<E, M, R(==)>(stage: Stage<E, M, R>, a: E, b: E) {
    var recalled := stage.recall(stage.memo(a), b);
    recalled.Some? ==> recalled.value == stage.scan(b)
  }

  ghost predicate Agreeing<E(!new), M, R>(stage: Stage<E, M, R>, steps: seq<Step<E>>) {
    forall a, b | Entry(a) in steps && Entry(b) in steps && stage.key(a) == stage.key(b) :: Agrees(stage, a, b)
  }

  ghost predicate TaughtBy<E(!new), M, R>(stage: Stage<E, M, R>, steps: seq<Step<E>>, key: string, m: M) {
    exists a :: Entry(a) in steps && stage.key(a) == key && stage.memo(a) == m
  }

  lemma {:induction false} Taught<E(!new), M, R>(stage: Stage<E, M, R>, steps: seq<Step<E>>, key: string)
    requires key in After(stage, steps)
    ensures TaughtBy(stage, steps, key, After(stage, steps)[key])
    decreases |steps|
  {
    var front, last := steps[..|steps| - 1], steps[|steps| - 1];
    assert last in steps;
    if last.Entry? && stage.key(last.entry) == key && After(stage, steps)[key] == stage.memo(last.entry) {
      assert Entry(last.entry) in steps;
    } else {
      Taught(stage, front, key);
      var a :| Entry(a) in front && stage.key(a) == key && stage.memo(a) == After(stage, front)[key];
      assert Entry(a) in steps;
    }
  }

  /** Over every history and every trimming, each entry comes out as from a full scan. */
  lemma Transparent<E(!new), M, R>(stage: Stage<E, M, R>, steps: seq<Step<E>>, k: nat)
    requires Agreeing(stage, steps) && k < |steps| && steps[k].Entry?
    ensures Serve(stage, After(stage, steps[..k]), steps[k].entry).result == stage.scan(steps[k].entry)
  {
    var e := steps[k].entry;
    var cache := After(stage, steps[..k]);
    if stage.key(e) in cache {
      Taught(stage, steps[..k], stage.key(e));
      var a :| Entry(a) in steps[..k] && stage.key(a) == stage.key(e) && stage.memo(a) == cache[stage.key(e)];
      assert Entry(a) in steps && steps[k] == Entry(e);
    }
  }

  /** A trim leaves what it keeps, and nothing else. */
  lemma AfterTrim<E, M, R>(stage: Stage<E, M, R>, steps: seq<Step<E>>, kept: set<string>)
    ensures var before, after := After(stage, steps), After(stage, steps + [Trim(kept)]);
            after.Keys == before.Keys * kept && forall key <- after :: after[key] == before[key]
  {
    assert (steps + [Trim(kept)])[..|steps|] == steps;
  }

  lemma AfterOne<E, M, R>(stage: Stage<E, M, R>, a: E)
    ensures After(stage, [Entry(a)]) == map[stage.key(a) := stage.memo(a)]
  {
    assert [Entry(a)][..0] == [];
  }

  /** Agreement is needed: of two entries that do not agree, the second comes out differently
      when the first goes before it. */
  lemma Shows<E, M, R>(stage: Stage<E, M, R>, a: E, b: E)
    requires stage.key(a) == stage.key(b) && !Agrees(stage, a, b)
    ensures Serve(stage, After(stage, [Entry(a)]), b).result != stage.scan(b)
  {
    AfterOne(stage, a);
    hide After;
  }
}
