/** The client address stage behind its most-likely-field cache. */
module ClientIpExtraction {
  import opened Wrappers
  import opened Strings
  import opened Models
  import opened Cache
  import opened MostLikely

  /** `hostOf` splits off a port if there is one; `parseIP` gives the canonical form of an address. */
  datatype IpConfig = IpConfig(
    names: seq<string>,
    target: string,
    hostOf: string -> Option<string>,
    parseIP: string -> Option<string>)

  datatype IpMemo = IpMemo(name: string, needsToBeCleaned: bool)

  datatype IpHit = IpHit(memo: IpMemo, ip: string)

  datatype Input = Input(fields: Fields, sourcePath: string)

  /** The canonical address of a text. */
  function Canonical(config: IpConfig, text: string): Option<string> {
    var host := match config.hostOf(text) case Some(h) => h case None => text;
    match config.parseIP(TrimSpace(host))
    case Some(ip) => if ip == "" then None else Some(ip)
    case None => None
  }

  function ValidateAndClean(config: IpConfig, memo: IpMemo, fields: Fields): Option<IpHit> {
    if memo.name !in fields || !fields[memo.name].Text? then None
    else
      var text := fields[memo.name].text;
      if !memo.needsToBeCleaned then (if text == "" then None else Some(IpHit(memo, text)))
      else
        match Canonical(config, text)
        case Some(ip) => Some(IpHit(IpMemo(memo.name, ip != text), ip))
        case None => None
  }

  function FirstIn(config: IpConfig, names: seq<string>, fields: Fields): Option<IpHit> {
    if names == [] then None
    else
      match ValidateAndClean(config, IpMemo(names[0], true), fields)
      case Some(hit) => Some(hit)
      case None => FirstIn(config, names[1..], fields)
  }

  /** The full scan: the first field that holds an address. */
  function FoundIp(config: IpConfig, fields: Fields): Option<IpHit> {
    FirstIn(config, config.names, fields)
  }

  /** The address in the target field, the fields it may have come from removed. */
  function WithIp(config: IpConfig, fields: Fields, ip: string): Fields {
    fields[config.target := Text(ip)] - (set name | name in config.names && name != config.target)
  }

  function ScannedIp(config: IpConfig, e: Input): Fields {
    match FoundIp(config, e.fields)
    case Some(hit) => WithIp(config, e.fields, hit.ip)
    case None => e.fields
  }

  function IpMemoOf(config: IpConfig, fields: Fields): IpMemo {
    match FoundIp(config, fields)
    case Some(hit) => hit.memo
    case None => IpMemo("", true)
  }

  function RecalledIp(config: IpConfig, memo: IpMemo, e: Input): Option<Fields> {
    if memo.name == "" then Some(e.fields)
    else
      match ValidateAndClean(config, memo, e.fields)
      case Some(hit) => Some(WithIp(config, e.fields, hit.ip))
      case None => None
  }

  function IpStage(config: IpConfig): Stage<Input, IpMemo, Fields> {
    Stage((e: Input) => CacheKey(e.sourcePath, e.fields),
          (e: Input) => ScannedIp(config, e),
          (e: Input) => IpMemoOf(config, e.fields),
          (m, e) => RecalledIp(config, m, e))
  }

  // ---------- when the cache cannot be noticed ----------

  lemma {:induction false} FirstInReads(config: IpConfig, names: seq<string>, fields: Fields)
    ensures var hit := FirstIn(config, names, fields);
            hit.Some? ==>
              var memo := hit.value.memo;
              && memo.name in names && memo.name in fields && fields[memo.name].Text?
              && Canonical(config, fields[memo.name].text) == Some(hit.value.ip)
              && (memo.needsToBeCleaned <==> hit.value.ip != fields[memo.name].text)
  {
    if names != [] {
      FirstInReads(config, names[1..], fields);
    }
  }

  /** The text of this field is an address. */
  predicate HasAddress(config: IpConfig, fields: Fields, name: string) {
    name in fields && fields[name].Text? && Canonical(config, fields[name].text).Some?
  }

  /** A text is the address its host part is parsed as: the part before a port, or all of it,
      without blanks around it. */
  lemma CanonicalExactly(config: IpConfig, text: string, ip: string)
    ensures Canonical(config, text) == Some(ip) <==>
            && ip != ""
            && exists host :: config.parseIP(TrimSpace(host)) == Some(ip)
                              && (config.hostOf(text) == Some(host) || (config.hostOf(text) == None && host == text))
  {
    hide TrimSpace;
    var host := match config.hostOf(text) case Some(h) => h case None => text;
    assert config.hostOf(text) == Some(host) || (config.hostOf(text) == None && host == text);
  }

  /** A full scan finds nothing only if no listed field has an address, and otherwise the
      address of the first listed field that has one. */
  lemma {:induction false} FirstInExactly(config: IpConfig, names: seq<string>, fields: Fields)
    ensures var hit := FirstIn(config, names, fields);
            && (hit.None? <==> forall name <- names :: !HasAddress(config, fields, name))
            && (hit.Some? ==> exists i :: 0 <= i < |names| && names[i] == hit.value.memo.name
                                          && HasAddress(config, fields, names[i])
                                          && Canonical(config, fields[names[i]].text) == Some(hit.value.ip)
                                          && forall j :: 0 <= j < i ==> !HasAddress(config, fields, names[j]))
    decreases |names|
  {
    hide Canonical;
    if names != [] {
      FirstInExactly(config, names[1..], fields);
      var here, rest := ValidateAndClean(config, IpMemo(names[0], true), fields), FirstIn(config, names[1..], fields);
      assert forall name :: name in names <==> name == names[0] || name in names[1..];
      assert HasAddress(config, fields, names[0]) <==> here.Some?;
      if here.None? && rest.Some? {
        var i :| 0 <= i < |names[1..]| && names[1..][i] == rest.value.memo.name && HasAddress(config, fields, names[1..][i])
                 && Canonical(config, fields[names[1..][i]].text) == Some(rest.value.ip)
                 && forall j :: 0 <= j < i ==> !HasAddress(config, fields, names[1..][j]);
        assert names[i + 1] == names[1..][i];
        assert forall j :: 0 < j < i + 1 ==> names[j] == names[1..][j - 1];
      }
    }
  }

  /** Both entries have their first address in the same field, which has a name, in canonical
      form in both or in neither; or neither has one. */
  predicate SameAddressField(config: IpConfig, a: Input, b: Input) {
    var x, y := FoundIp(config, a.fields), FoundIp(config, b.fields);
    (x.None? && y.None?) || (x.Some? && y.Some? && x.value.memo == y.value.memo && x.value.memo.name != "")
  }

  lemma SameFieldAgrees(config: IpConfig, a: Input, b: Input)
    requires SameAddressField(config, a, b)
    ensures Agrees(IpStage(config), a, b)
  {
    FirstInReads(config, config.names, a.fields);
    FirstInReads(config, config.names, b.fields);
  }

  ghost predicate SameAddressFields(config: IpConfig, steps: seq<Step<Input>>) {
    forall a, b | Entry(a) in steps && Entry(b) in steps
                  && CacheKey(a.sourcePath, a.fields) == CacheKey(b.sourcePath, b.fields) :: SameAddressField(config, a, b)
  }

  /** Over every history of such entries and every trimming, the cached stage leaves the
      fields a full scan leaves. */
  lemma ExtractsTheSameIp(config: IpConfig, steps: seq<Step<Input>>, k: nat)
    requires SameAddressFields(config, steps) && k < |steps| && steps[k].Entry?
    ensures Serve(IpStage(config), After(IpStage(config), steps[..k]), steps[k].entry).result
            == ScannedIp(config, steps[k].entry)
  {
    forall a, b | Entry(a) in steps && Entry(b) in steps && IpStage(config).key(a) == IpStage(config).key(b)
      ensures Agrees(IpStage(config), a, b)
    {
      SameFieldAgrees(config, a, b);
    }
    Transparent(IpStage(config), steps, k);
  }

  /** What is taken from an entry by what another one taught. A failure is remembered too: then
      the entry stays as it is. Otherwise the remembered field decides, if it is there: its text
      if the remembered one was canonical and this one is not empty, its address if it was not;
      and in any other case the entry is scanned. */
  lemma RecalledExactly(config: IpConfig, memo: IpMemo, e: Input, after: Fields)
    ensures RecalledIp(config, memo, e) == Some(after) <==>
            if memo.name == "" then after == e.fields
            else
              && memo.name in e.fields && e.fields[memo.name].Text?
              && var text := e.fields[memo.name].text;
                 if memo.needsToBeCleaned then
                   Canonical(config, text).Some? && after == WithIp(config, e.fields, Canonical(config, text).value)
                 else
                   text != "" && after == WithIp(config, e.fields, text)
  {
    hide WithIp, Canonical;
  }

  /** After an entry without any address, the next one with the same key keeps its fields,
      whether or not it has an address; so the two agree exactly if it has none. */
  lemma FailureIsRemembered(config: IpConfig, a: Input, b: Input)
    requires CacheKey(a.sourcePath, a.fields) == CacheKey(b.sourcePath, b.fields)
    requires FoundIp(config, a.fields).None?
    ensures Serve(IpStage(config), After(IpStage(config), [Entry(a)]), b).result == b.fields
    ensures Agrees(IpStage(config), a, b) <==> ScannedIp(config, b) == b.fields
  {
    AfterOne(IpStage(config), a);
    hide After, CacheKey, FirstIn, WithIp, ScannedIp;
  }

  /** An address goes to the target, the other configured fields go, and the rest stays. */
  lemma WithIpExactly(config: IpConfig, fields: Fields, ip: string, k: string)
    ensures var after := WithIp(config, fields, ip);
            && (k == config.target ==> k in after && after[k] == Text(ip))
            && (k != config.target && k in config.names ==> k !in after)
            && (k != config.target && k !in config.names ==>
                  (k in after <==> k in fields) && (k in fields ==> after[k] == fields[k]))
  {
  }

  /** After an entry whose address was canonical, the same field of the next entry is taken
      as it is, whether or not it holds an address. A scan would do the same exactly if the
      text is the address it finds, or if it finds none, the field is the target itself, and
      there is no other of the configured fields to remove. */
  lemma UncheckedText(config: IpConfig, a: Input, b: Input, name: string, text: string)
    requires CacheKey(a.sourcePath, a.fields) == CacheKey(b.sourcePath, b.fields)
    requires IpMemoOf(config, a.fields) == IpMemo(name, false) && name != ""
    requires name in b.fields && b.fields[name] == Text(text) && text != ""
    ensures Serve(IpStage(config), After(IpStage(config), [Entry(a)]), b).result == WithIp(config, b.fields, text)
    ensures Agrees(IpStage(config), a, b) <==>
            match FoundIp(config, b.fields)
            case Some(hit) => hit.ip == text
            case None => name == config.target && forall n <- config.names :: n != config.target ==> n !in b.fields
  {
    FirstInReads(config, config.names, a.fields);
    assert name in config.names;
    hide After, CacheKey, FirstIn, WithIp, Canonical;
    TakenUnchecked(config, b, name, text);
    AfterOne(IpStage(config), a);
    hide ValidateAndClean, RecalledIp;
    ScanGives(config, b, name, text);
    hide ScannedIp;
  }

  lemma TakenUnchecked(config: IpConfig, e: Input, name: string, text: string)
    requires name != "" && name in e.fields && e.fields[name] == Text(text) && text != ""
    ensures RecalledIp(config, IpMemo(name, false), e) == Some(WithIp(config, e.fields, text))
  {
    hide WithIp;
  }

  lemma ScanGives(config: IpConfig, e: Input, name: string, text: string)
    requires name in config.names && name in e.fields && e.fields[name] == Text(text)
    ensures ScannedIp(config, e) == WithIp(config, e.fields, text) <==>
            match FoundIp(config, e.fields)
            case Some(hit) => hit.ip == text
            case None => name == config.target && forall n <- config.names :: n != config.target ==> n !in e.fields
  {
    hide WithIp, FoundIp;
    match FoundIp(config, e.fields)
    case Some(hit) => IpIsVisible(config, e.fields, hit.ip, text);
    case None => UntouchedExactly(config, e.fields, name, text);
  }

  lemma IpIsVisible(config: IpConfig, fields: Fields, ip: string, other: string)
    ensures WithIp(config, fields, ip) == WithIp(config, fields, other) <==> ip == other
  {
    assert WithIp(config, fields, ip)[config.target] == Text(ip);
    assert WithIp(config, fields, other)[config.target] == Text(other);
  }

  lemma UntouchedExactly(config: IpConfig, fields: Fields, name: string, text: string)
    requires name in config.names && name in fields && fields[name] == Text(text)
    ensures WithIp(config, fields, text) == fields <==>
            name == config.target && forall n <- config.names :: n != config.target ==> n !in fields
  {
    var after := WithIp(config, fields, text);
    assert forall n <- config.names :: n != config.target ==> n !in after;
    if name == config.target && forall n <- config.names :: n != config.target ==> n !in fields {
      assert after == fields;
    }
  }

  // ---------- the stage ----------

  class ClientIpExtractionStage {
    const config: IpConfig
    const mostLikelyClientIpField: PersistedCache<IpMemo>

    constructor (config: IpConfig)
      ensures this.config == config && fresh(mostLikelyClientIpField) && mostLikelyClientIpField.entries == map[]
    {
      this.config := config;
      mostLikelyClientIpField := new PersistedCache<IpMemo>();
    }

    method DeleteFields(entry: LogEntry)
      modifies entry`fields
      ensures entry.fields == old(entry.fields) - (set name | name in config.names && name != config.target)
    {
      for i := 0 to |config.names|
        invariant entry.fields == old(entry.fields) - (set name | name in config.names[..i] && name != config.target)
      {
        assert config.names[..i + 1] == config.names[..i] + [config.names[i]];
        if config.names[i] != config.target {
          entry.fields := entry.fields - {config.names[i]};
        }
      }
      assert config.names[..|config.names|] == config.names;
    }

    method Process(entry: LogEntry) returns (keep: bool)
      modifies entry`fields, mostLikelyClientIpField
      ensures keep
      ensures Serve(IpStage(config), old(mostLikelyClientIpField.entries), Input(old(entry.fields), entry.sourcePath))
              == Served(entry.fields, mostLikelyClientIpField.entries)
    {
      hide WithIp;
      var cacheKey := CacheKey(entry.sourcePath, entry.fields);
      var memo := mostLikelyClientIpField.Get(cacheKey);
      if memo.Some? {
        if memo.value.name == "" {
          return true;
        }
        var hit := ValidateAndClean(config, memo.value, entry.fields);
        if hit.Some? {
          SetIp(entry, hit.value.ip);
          return true;
        }
      }
      var i := 0;
      while i < |config.names|
        invariant 0 <= i <= |config.names|
        invariant FoundIp(config, entry.fields) == FirstIn(config, config.names[i..], entry.fields)
        invariant entry.fields == old(entry.fields)
        invariant mostLikelyClientIpField.entries == old(mostLikelyClientIpField.entries)
      {
        var hit := ValidateAndClean(config, IpMemo(config.names[i], true), entry.fields);
        assert config.names[i..][0] == config.names[i] && config.names[i..][1..] == config.names[i + 1..];
        if hit.Some? {
          assert FoundIp(config, entry.fields) == hit;
          mostLikelyClientIpField.Set(cacheKey, hit.value.memo);
          SetIp(entry, hit.value.ip);
          return true;
        }
        i := i + 1;
      }
      mostLikelyClientIpField.Set(cacheKey, IpMemo("", true));
      return true;
    }

    method SetIp(entry: LogEntry, ip: string)
      modifies entry`fields
      ensures entry.fields == WithIp(config, old(entry.fields), ip)
    {
      entry.fields := entry.fields[config.target := Text(ip)];
      DeleteFields(entry);
    }
  }
}
