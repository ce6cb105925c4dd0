/** The timestamp extraction stage behind its most-likely-field cache. */
module TimestampExtraction {
  import opened Wrappers
  import opened Models
  import opened Cache
  import opened MostLikely

  /** `parse(layout, text)`: the non-zero time a text means under a layout, if any. */
  datatype Config = Config(fields: seq<string>, layouts: seq<string>, parse: (string, string) -> Option<int>)

  datatype Memo = Memo(field: string, layout: string)

  datatype Hit = Hit(memo: Memo, time: int)

  /** `timestamp` is None for the zero time; `now` is the clock. */
  datatype Input = Input(fields: Fields, sourcePath: string, timestamp: Option<int>, now: int)

  function FirstLayout(config: Config, layouts: seq<string>, field: string, text: string): Option<Hit> {
    if layouts == [] then None
    else
      match config.parse(layouts[0], text)
      case Some(t) => Some(Hit(Memo(field, layouts[0]), t))
      case None => FirstLayout(config, layouts[1..], field, text)
  }

  /** The remembered layout first, then all of them. */
  function TryMemo(config: Config, memo: Memo, fields: Fields): Option<Hit> {
    if memo.field !in fields || !fields[memo.field].Text? then None
    else
      var text := fields[memo.field].text;
      if memo.layout != "" && config.parse(memo.layout, text).Some?
      then Some(Hit(memo, config.parse(memo.layout, text).value))
      else FirstLayout(config, config.layouts, memo.field, text)
  }

  function FirstField(config: Config, names: seq<string>, fields: Fields): Option<Hit> {
    if names == [] then None
    else
      match TryMemo(config, Memo(names[0], ""), fields)
      case Some(hit) => Some(hit)
      case None => FirstField(config, names[1..], fields)
  }

  /** The full scan: the first field with a readable time. */
  function Found(config: Config, fields: Fields): Option<Hit> {
    FirstField(config, config.fields, fields)
  }

  function MemoOf(config: Config, fields: Fields): Memo {
    match Found(config, fields)
    case Some(hit) => hit.memo
    case None => Memo("", "")
  }

  function Scanned(config: Config, e: Input): Option<int> {
    match Found(config, e.fields)
    case Some(hit) => Some(hit.time)
    case None => if e.timestamp.None? then Some(e.now) else e.timestamp
  }

  function Recalled(config: Config, memo: Memo, e: Input): Option<Option<int>> {
    if memo.field == "" then Some(e.timestamp)
    else
      match TryMemo(config, memo, e.fields)
      case Some(hit) => Some(Some(hit.time))
      case None => None
  }

  function StageOf(config: Config): Stage<Input, Memo, Option<int>> {
    Stage((e: Input) => CacheKey(e.sourcePath, e.fields),
          (e: Input) => Scanned(config, e),
          (e: Input) => MemoOf(config, e.fields),
          (m, e) => Recalled(config, m, e))
  }

  // ---------- when the cache cannot be noticed ----------

  lemma {:induction false} FirstLayoutReads(config: Config, layouts: seq<string>, field: string, text: string)
    ensures var hit := FirstLayout(config, layouts, field, text);
            hit.Some? ==> hit.value.memo.field == field && hit.value.memo.layout in layouts
                          && config.parse(hit.value.memo.layout, text) == Some(hit.value.time)
  {
    if layouts != [] && config.parse(layouts[0], text).None? {
      FirstLayoutReads(config, layouts[1..], field, text);
    }
  }

  lemma {:induction false} FirstFieldReads(config: Config, names: seq<string>, fields: Fields)
    ensures var hit := FirstField(config, names, fields);
            hit.Some? ==>
              var memo := hit.value.memo;
              && memo.field in names && memo.field in fields && fields[memo.field].Text?
              && memo.layout in config.layouts && TryMemo(config, Memo(memo.field, ""), fields) == hit
              && config.parse(memo.layout, fields[memo.field].text) == Some(hit.value.time)
  {
    if names != [] {
      if names[0] in fields && fields[names[0]].Text? {
        FirstLayoutReads(config, config.layouts, names[0], fields[names[0]].text);
      }
      FirstFieldReads(config, names[1..], fields);
    }
  }

  /** The text of this field is a time under this layout. */
  predicate Reads(config: Config, fields: Fields, name: string, layout: string) {
    name in fields && fields[name].Text? && config.parse(layout, fields[name].text).Some?
  }

  predicate NoneReads(config: Config, fields: Fields, names: seq<string>, layouts: seq<string>) {
    forall name <- names, layout <- layouts :: !Reads(config, fields, name, layout)
  }

  lemma {:induction false} FirstLayoutExactly(config: Config, layouts: seq<string>, field: string, fields: Fields)
    requires field in fields && fields[field].Text?
    ensures var hit := FirstLayout(config, layouts, field, fields[field].text);
            && (hit.None? <==> NoneReads(config, fields, [field], layouts))
            && (hit.Some? ==> exists k :: 0 <= k < |layouts| && hit.value.memo == Memo(field, layouts[k])
                                          && Reads(config, fields, field, layouts[k])
                                          && NoneReads(config, fields, [field], layouts[..k]))
    decreases |layouts|
  {
    if layouts != [] {
      var rest := FirstLayout(config, layouts[1..], field, fields[field].text);
      FirstLayoutExactly(config, layouts[1..], field, fields);
      assert forall l <- layouts :: l == layouts[0] || l in layouts[1..];
      if Reads(config, fields, field, layouts[0]) {
        assert layouts[..0] == [] && field in [field];
      } else if rest.Some? {
        var k :| 0 <= k < |layouts[1..]| && rest.value.memo == Memo(field, layouts[1..][k])
                 && Reads(config, fields, field, layouts[1..][k]) && NoneReads(config, fields, [field], layouts[1..][..k]);
        assert layouts[1..][k] == layouts[k + 1];
        assert layouts[..k + 1] == [layouts[0]] + layouts[1..][..k];
      }
    }
  }

  /** What a full scan finds, exactly: nothing only if no listed field reads under any layout,
      and otherwise the first listed field that does, under the first layout that reads it. */
  lemma {:induction false} FirstFieldExactly(config: Config, names: seq<string>, fields: Fields)
    ensures var hit := FirstField(config, names, fields);
            && (hit.None? <==> NoneReads(config, fields, names, config.layouts))
            && (hit.Some? ==> exists i, k :: 0 <= i < |names| && 0 <= k < |config.layouts|
                                             && IsFirstHit(config, fields, names, hit.value, i, k))
    decreases |names|
  {
    if names != [] {
      FirstFieldExactly(config, names[1..], fields);
      FirstFieldReads(config, names, fields);
      assert forall name <- names :: name == names[0] || name in names[1..];
      var rest := FirstField(config, names[1..], fields);
      if names[0] in fields && fields[names[0]].Text? {
        FirstLayoutExactly(config, config.layouts, names[0], fields);
      }
      hide FirstLayout;
      var here := TryMemo(config, Memo(names[0], ""), fields);
      if here.Some? {
        var k :| 0 <= k < |config.layouts| && here.value.memo == Memo(names[0], config.layouts[k])
                 && Reads(config, fields, names[0], config.layouts[k])
                 && NoneReads(config, fields, [names[0]], config.layouts[..k]);
        assert names[..0] == [];
        assert IsFirstHit(config, fields, names, here.value, 0, k);
      } else if rest.Some? {
        var i, k :| 0 <= i < |names[1..]| && 0 <= k < |config.layouts|
                    && IsFirstHit(config, fields, names[1..], rest.value, i, k);
        assert names[1..][i] == names[i + 1] && names[..i + 1] == [names[0]] + names[1..][..i];
        assert NoneReads(config, fields, [names[0]], config.layouts);
        assert IsFirstHit(config, fields, names, rest.value, i + 1, k);
      }
    }
  }

  predicate IsFirstHit(config: Config, fields: Fields, names: seq<string>, hit: Hit, i: nat, k: nat)
    requires i < |names| && k < |config.layouts|
  {
    && hit.memo == Memo(names[i], config.layouts[k]) && Reads(config, fields, names[i], config.layouts[k])
    && config.parse(config.layouts[k], fields[names[i]].text) == Some(hit.time)
    && NoneReads(config, fields, names[..i], config.layouts) && NoneReads(config, fields, [names[i]], config.layouts[..k])
  }

  /** What a scan found is found again through what it taught. */
  lemma HitIsRecalled(config: Config, fields: Fields)
    requires Found(config, fields).Some?
    ensures TryMemo(config, Found(config, fields).value.memo, fields) == Found(config, fields)
  {
    FirstFieldReads(config, config.fields, fields);
  }

  /** What is taken from an entry by what another one taught. A failure is remembered too: then
      the timestamp stays as it is. Otherwise the remembered field is read, under the remembered
      layout if that reads it and else under the first one that does; if none does, the entry is
      scanned. */
  lemma RecalledExactly(config: Config, memo: Memo, e: Input)
    ensures var recalled := Recalled(config, memo, e);
            if memo.field == "" then recalled == Some(e.timestamp)
            else if memo.layout != "" && Reads(config, e.fields, memo.field, memo.layout) then
              recalled == Some(config.parse(memo.layout, e.fields[memo.field].text))
            else if NoneReads(config, e.fields, [memo.field], config.layouts) then recalled == None
            else
              exists k :: 0 <= k < |config.layouts| && Reads(config, e.fields, memo.field, config.layouts[k])
                          && NoneReads(config, e.fields, [memo.field], config.layouts[..k])
                          && recalled == Some(config.parse(config.layouts[k], e.fields[memo.field].text))
  {
    if memo.field in e.fields && e.fields[memo.field].Text? {
      FirstLayoutReads(config, config.layouts, memo.field, e.fields[memo.field].text);
      FirstLayoutExactly(config, config.layouts, memo.field, e.fields);
    }
    hide FirstLayout;
    assert memo.field in [memo.field];
  }

  /** Both entries are first hit in the same layout and field, which has a name, or neither
      is hit. */
  predicate SameHit(config: Config, a: Input, b: Input) {
    var x, y := Found(config, a.fields), Found(config, b.fields);
    (x.None? && y.None?) || (x.Some? && y.Some? && x.value.memo == y.value.memo && x.value.memo.field != "")
  }

  /** Entries with the same first hit agree, and entries without any agree exactly when the
      later one brings its own timestamp. */
  lemma SameHitAgrees(config: Config, a: Input, b: Input)
    requires SameHit(config, a, b)
    ensures Agrees(StageOf(config), a, b) <==> Found(config, b.fields).Some? || b.timestamp.Some?
  {
    FirstFieldReads(config, config.fields, a.fields);
    if Found(config, b.fields).Some? {
      HitIsRecalled(config, b.fields);
    }
  }

  ghost predicate SameHits(config: Config, steps: seq<Step<Input>>) {
    forall a, b | Entry(a) in steps && Entry(b) in steps
                  && CacheKey(a.sourcePath, a.fields) == CacheKey(b.sourcePath, b.fields) :: SameHit(config, a, b)
  }

  function Out(config: Config, steps: seq<Step<Input>>, k: nat): Option<int>
    requires k < |steps| && steps[k].Entry?
  {
    Serve(StageOf(config), After(StageOf(config), steps[..k]), steps[k].entry).result
  }

  /** Over every history of such entries and every trimming, the cached stage extracts what a
      full scan extracts. Only an entry without any time shows a remembered failure: it keeps
      the zero time instead of getting the current one. */
  lemma ExtractsTheSame(config: Config, steps: seq<Step<Input>>, k: nat)
    requires SameHits(config, steps) && k < |steps| && steps[k].Entry?
    ensures var e := steps[k].entry;
            var failedBefore := Found(config, e.fields).None?
                                && CacheKey(e.sourcePath, e.fields) in After(StageOf(config), steps[..k]);
            Out(config, steps, k) == if failedBefore then e.timestamp else Scanned(config, e)
  {
    var stage, e := StageOf(config), steps[k].entry;
    var key := CacheKey(e.sourcePath, e.fields);
    var cache := After(stage, steps[..k]);
    if key in cache {
      Taught(stage, steps[..k], key);
      var a :| Entry(a) in steps[..k] && stage.key(a) == key && stage.memo(a) == cache[key];
      assert Entry(a) in steps && steps[k] == Entry(e);
      assert SameHit(config, a, e);
      hide After, FirstField, FirstLayout;
      FirstFieldReads(config, config.fields, a.fields);
      if Found(config, e.fields).Some? {
        HitIsRecalled(config, e.fields);
      }
    }
  }

  /** A time found in a field without a name is remembered as a failure: it agrees with
      exactly the entries that already have the time they are first hit with, or are not hit
      and have any time. */
  lemma NamelessHit(config: Config, a: Input, b: Input)
    requires MemoOf(config, a.fields).field == ""
    ensures Agrees(StageOf(config), a, b) <==>
            match Found(config, b.fields)
            case Some(hit) => b.timestamp == Some(hit.time)
            case None => b.timestamp.Some?
  {
  }

  /** Two entries in which no time is found, the second without a timestamp of its own: a
      scan gives it the current time, the cache leaves it without. */
  lemma ZeroTimeShows(config: Config, a: Input, b: Input)
    requires CacheKey(a.sourcePath, a.fields) == CacheKey(b.sourcePath, b.fields)
    requires Found(config, a.fields).None? && Found(config, b.fields).None? && b.timestamp.None?
    ensures Scanned(config, b) == Some(b.now) && Out(config, [Entry(a), Entry(b)], 1) == None
  {
    SameHitAgrees(config, a, b);
    assert [Entry(a), Entry(b)][..1] == [Entry(a)];
    Shows(StageOf(config), a, b);
  }

  // ---------- the stage ----------

  function InputOf(entry: LogEntry, now: int): Input
    reads entry
  {
    Input(entry.fields, entry.sourcePath, entry.timestamp, now)
  }

  class TimestampExtractionStage {
    const config: Config
    const mostLikelyTimestampField: PersistedCache<Memo>

    constructor (config: Config)
      ensures this.config == config && fresh(mostLikelyTimestampField) && mostLikelyTimestampField.entries == map[]
    {
      this.config := config;
      mostLikelyTimestampField := new PersistedCache<Memo>();
    }

    /** The layout that was read is written back into the memo. */
    method TryParseTimestamp(memo: Memo, entry: LogEntry) returns (hit: Option<Hit>)
      ensures hit == TryMemo(config, memo, entry.fields)
    {
      if memo.field !in entry.fields || !entry.fields[memo.field].Text? {
        return None;
      }
      var text := entry.fields[memo.field].text;
      if memo.layout != "" {
        var time := config.parse(memo.layout, text);
        if time.Some? {
          return Some(Hit(memo, time.value));
        }
      }
      var i := 0;
      while i < |config.layouts|
        invariant 0 <= i <= |config.layouts|
        invariant FirstLayout(config, config.layouts, memo.field, text)
                  == FirstLayout(config, config.layouts[i..], memo.field, text)
      {
        var layout := config.layouts[i];
        var time := config.parse(layout, text);
        if time.Some? {
          return Some(Hit(memo.(layout := layout), time.value));
        }
        i := i + 1;
      }
      return None;
    }

    method Process(entry: LogEntry, now: int) returns (keep: bool)
      modifies entry`timestamp, mostLikelyTimestampField
      ensures keep
      ensures Serve(StageOf(config), old(mostLikelyTimestampField.entries), old(InputOf(entry, now)))
              == Served(entry.timestamp, mostLikelyTimestampField.entries)
    {
      var cacheKey := CacheKey(entry.sourcePath, entry.fields);
      var memo := mostLikelyTimestampField.Get(cacheKey);
      if memo.Some? {
        if memo.value.field == "" {
          return true;
        }
        var hit := TryParseTimestamp(memo.value, entry);
        if hit.Some? {
          entry.timestamp := Some(hit.value.time);
          return true;
        }
      }
      var i := 0;
      while i < |config.fields|
        invariant 0 <= i <= |config.fields|
        invariant Found(config, entry.fields) == FirstField(config, config.fields[i..], entry.fields)
        invariant entry.timestamp == old(entry.timestamp)
        invariant mostLikelyTimestampField.entries == old(mostLikelyTimestampField.entries)
      {
        var hit := TryParseTimestamp(Memo(config.fields[i], ""), entry);
        assert config.fields[i..][0] == config.fields[i] && config.fields[i..][1..] == config.fields[i + 1..];
        if hit.Some? {
          assert Found(config, entry.fields) == hit;
          mostLikelyTimestampField.Set(cacheKey, hit.value.memo);
          entry.timestamp := Some(hit.value.time);
          return true;
        }
        i := i + 1;
      }
      mostLikelyTimestampField.Set(cacheKey, Memo("", ""));
      if entry.timestamp.None? {
        entry.timestamp := Some(now);
      }
      return true;
    }
  }
}
