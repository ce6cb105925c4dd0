/** The key/value parser: what a list of matches must cover, what is extracted, and the
    round trip through the default pattern. */
module KeyValue {
  import opened Wrappers
  import opened Strings
  import opened Models
  import opened Cache
  import opened KeyValuePattern

  /** One match with its two capture groups, as index pairs into the line. */
  datatype Match = Match(start: nat, end: nat, keyStart: nat, keyEnd: nat, valStart: nat, valEnd: nat)

  /** What FindAllSubmatchIndex promises when both groups take part in every match. */
  predicate WellFormed(line: string, ms: seq<Match>) {
    && (forall m <- ms ::
          m.start <= m.keyStart <= m.keyEnd <= m.end <= |line| && m.start <= m.valStart <= m.valEnd <= m.end)
    && (forall i, j :: 0 <= i < j < |ms| ==> ms[i].end <= ms[j].start)
  }

  predicate Covered(ms: seq<Match>, p: nat) {
    exists i :: 0 <= i < |ms| && ms[i].start <= p < ms[i].end
  }

  /** The matches tile the line: there are some, and only white space lies outside them. */
  predicate Tiles(line: string, ms: seq<Match>) {
    ms != [] && forall p: nat :: p < |line| && !Covered(ms, p) ==> IsSpace(line[p])
  }

  function Unquoted(value: string): string {
    if |value| >= 2 && value[0] == QUOTE && value[|value| - 1] == QUOTE then value[1..|value| - 1] else value
  }

  /** One pair of quotes around a text is taken off, and anything else is kept as it is. */
  lemma UnquotedExactly(value: string, u: string)
    ensures Unquoted(value) == u <==>
            || value == [QUOTE] + u + [QUOTE]
            || (value == u && forall v: string :: value != [QUOTE] + v + [QUOTE])
  {
    var n := |value|;
    if n >= 2 && value[0] == QUOTE && value[n - 1] == QUOTE {
      assert value == [QUOTE] + value[1..n - 1] + [QUOTE];
    }
    if value == [QUOTE] + u + [QUOTE] {
      assert value[1..n - 1] == u;
    }
  }

  datatype Pair = Pair(key: string, value: string)

  function Sub(s: string, from: nat, to: nat): string {
    if from <= to <= |s| then s[from..to] else ""
  }

  /** What one match says: its first group, and its second group without quotes. */
  function PairOf(line: string, m: Match): Pair {
    Pair(Sub(line, m.keyStart, m.keyEnd), Unquoted(Sub(line, m.valStart, m.valEnd)))
  }

  function PairsOf(line: string, ms: seq<Match>): seq<Pair> {
    seq(|ms|, i requires 0 <= i < |ms| => PairOf(line, ms[i]))
  }

  /** The fields after assigning every pair in order. */
  function Assigned(fields: Fields, pairs: seq<Pair>): Fields {
    if pairs == [] then fields
    else
      var p := pairs[|pairs| - 1];
      Assigned(fields, pairs[..|pairs| - 1])[p.key := Text(p.value)]
  }

  lemma AssignedNone(fields: Fields)
    ensures Assigned(fields, []) == fields
  {
  }

  lemma AssignedNext(fields: Fields, line: string, ms: seq<Match>, i: nat)
    requires i < |ms|
    ensures var pairs, p := PairsOf(line, ms), PairOf(line, ms[i]);
            Assigned(fields, pairs[..i + 1]) == Assigned(fields, pairs[..i])[p.key := Text(p.value)]
  {
    hide PairOf, Assigned;
    var pairs := PairsOf(line, ms);
    assert pairs[..i + 1] == pairs[..i] + [PairOf(line, ms[i])];
    AssignedSnoc(fields, pairs[..i], PairOf(line, ms[i]));
  }

  lemma AssignedSnoc(fields: Fields, pairs: seq<Pair>, p: Pair)
    ensures Assigned(fields, pairs + [p]) == Assigned(fields, pairs)[p.key := Text(p.value)]
  {
    assert (pairs + [p])[..|pairs|] == pairs;
  }

  /** Exactly the keys of the pairs are assigned. */
  lemma {:induction false} AssignedKeys(pairs: seq<Pair>, key: string)
    ensures key in Assigned(map[], pairs) <==> exists p <- pairs :: p.key == key
    decreases |pairs|
  {
    if pairs != [] {
      AssignedKeys(pairs[..|pairs| - 1], key);
      assert pairs == pairs[..|pairs| - 1] + [pairs[|pairs| - 1]];
    }
  }

  /** The last pair of each key wins. */
  lemma {:induction false} LastWins(pairs: seq<Pair>, i: nat)
    requires i < |pairs| && forall j :: i < j < |pairs| ==> pairs[j].key != pairs[i].key
    ensures var fields := Assigned(map[], pairs);
            pairs[i].key in fields && fields[pairs[i].key] == Text(pairs[i].value)
    decreases |pairs|
  {
    if i < |pairs| - 1 {
      LastWins(pairs[..|pairs| - 1], i);
    }
  }

  /** The leading UTF-8 byte of a rune, as the rune of the same number. */
  function LeadByte(c: char): char {
    var n := c as int;
    if n < 0x80 then c
    else if n < 0x800 then (0xC0 + n / 0x40) as char
    else if n < 0x10000 then (0xE0 + n / 0x1000) as char
    else (0xF0 + n / 0x40000) as char
  }

  function CacheKey(sourcePath: string, line: string): string {
    sourcePath + if line == [] then ":empty" else [LeadByte(line[0])]
  }

  /** It is the first byte of the rune's UTF-8 encoding: its bits above the 6, 12 or 18 that the
      following bytes hold, behind the mark for their number. */
  lemma LeadByteExactly(c: char)
    ensures var n, b := c as int, LeadByte(c) as int;
            && (n <= 0x7F ==> b == n)
            && (0x80 <= n <= 0x7FF ==> 0xC0 <= b < 0xE0 && (b - 0xC0) * 64 <= n < (b - 0xC0) * 64 + 64)
            && (0x800 <= n <= 0xFFFF ==> 0xE0 <= b < 0xF0 && (b - 0xE0) * 4096 <= n < (b - 0xE0) * 4096 + 4096)
            && (0x10000 <= n ==> 0xF0 <= b < 0xF8 && (b - 0xF0) * 262144 <= n < (b - 0xF0) * 262144 + 262144)
  {
  }

  /** Lines share a verdict exactly if they are of one source and begin with the same byte, or
      are both empty. */
  lemma VerdictIsShared(source: string, line: string, source': string, line': string)
    ensures line != "" && line' != "" ==>
              (CacheKey(source, line) == CacheKey(source', line') <==>
               source == source' && LeadByte(line[0]) == LeadByte(line'[0]))
    ensures line == "" && line' == "" ==> (CacheKey(source, line) == CacheKey(source', line') <==> source == source')
    ensures CacheKey(source, "") == source + ":empty"
  {
    var k, k' := CacheKey(source, line), CacheKey(source', line');
    hide LeadByte;
    if line != "" && line' != "" && k == k' {
      assert k[|source|] == k'[|source'|] && k[..|source|] == k'[..|source'|];
    }
    if line == "" && line' == "" && k == k' {
      assert k[..|source|] == k'[..|source'|];
    }
  }

  class StructuredParser {
    const find: string -> seq<Match>
    const successfulParseCache: PersistedCache<bool>

    /** The pattern's match lists are what the regexp package promises. */
    ghost predicate Valid() {
      forall line: string :: WellFormed(line, find(line))
    }

    constructor (find: string -> seq<Match>)
      requires forall line: string :: WellFormed(line, find(line))
      ensures Valid() && this.find == find && fresh(successfulParseCache)
      ensures successfulParseCache.entries == map[]
    {
      this.find := find;
      successfulParseCache := new PersistedCache<bool>();
    }

    /** The parser for the default pattern. */
    constructor Default()
      ensures Valid() && (forall line: string :: find(line) == FindAll(line, 0)) && fresh(successfulParseCache)
      ensures successfulParseCache.entries == map[]
    {
      find := line => FindAll(line, 0);
      successfulParseCache := new PersistedCache<bool>();
      new;
      forall line: string ensures WellFormed(line, find(line)) {
        FindAllIsWellFormed(line, 0, line);
      }
    }

    method AssignPair(entry: LogEntry, m: Match)
      requires m.keyStart <= m.keyEnd <= |entry.logLine| && m.valStart <= m.valEnd <= |entry.logLine|
      modifies entry`fields
      ensures var p := PairOf(entry.logLine, m); entry.fields == old(entry.fields)[p.key := Text(p.value)]
    {
      var key := entry.logLine[m.keyStart..m.keyEnd];
      var value := entry.logLine[m.valStart..m.valEnd];
      if |value| >= 2 && value[0] == QUOTE && value[|value| - 1] == QUOTE {
        value := value[1..|value| - 1];
      }
      entry.fields := entry.fields[key := Text(value)];
    }

    /** Succeeds exactly when the matches tile the line, and then every pair was assigned. */
    method ParseKeyValuePairs(entry: LogEntry) returns (ok: bool)
      requires Valid()
      modifies entry`fields
      ensures ok <==> Tiles(entry.logLine, find(entry.logLine))
      ensures ok ==> entry.fields == Assigned(old(entry.fields), PairsOf(entry.logLine, find(entry.logLine)))
    {
      var unparsedParts := false;
      var lastIndex := 0;
      var line := entry.logLine;
      var matches := find(line);
      if |matches| == 0 {
        return false;
      }
      ghost var pairs := PairsOf(line, matches);
      assert pairs[..0] == [] && pairs[..|matches|] == pairs;
      hide Covered, Tiles, TrimSpace, SpaceUpTo, WellFormed, PairsOf, PairOf, Assigned;
      NoneYet(line, matches);
      AssignedNone(entry.fields);
      var i := 0;
      while i < |matches|
        invariant 0 <= i <= |matches| && WellFormed(line, matches)
        invariant lastIndex == GapStart(matches, i) && SpaceUpTo(line, matches, lastIndex)
        invariant entry.fields == Assigned(old(entry.fields), pairs[..i])
        invariant !unparsedParts
      {
        var m := matches[i];
        Bounds(line, matches, i);
        Gap(line, matches, i);
        if m.start > lastIndex {
          if |TrimSpace(line[lastIndex..m.start])| > 0 {
            unparsedParts := true;
            break;
          }
        }
        AssignPair(entry, m);
        AssignedNext(old(entry.fields), line, matches, i);
        lastIndex := m.end;
        i := i + 1;
      }
      if !unparsedParts {
        Gap(line, matches, |matches|);
      }
      if lastIndex < |line| {
        if |TrimSpace(line[lastIndex..])| > 0 {
          unparsedParts := true;
        }
      }
      return !unparsedParts;
    }

    /** A line that does not parse, or whose cached verdict is negative, keeps no fields. */
    method Process(entry: LogEntry)
      requires Valid()
      modifies entry`fields, successfulParseCache
      ensures |old(entry.fields)| > 0 ==>
                entry.fields == old(entry.fields) && successfulParseCache.entries == old(successfulParseCache.entries)
      ensures |old(entry.fields)| == 0 ==>
                var line, ms := entry.logLine, find(entry.logLine);
                var key, seen := CacheKey(entry.sourcePath, line), old(successfulParseCache.entries);
                if key in seen && !seen[key] then
                  entry.fields == map[] && successfulParseCache.entries == seen
                else
                  entry.fields == (if Tiles(line, ms) then Assigned(map[], PairsOf(line, ms)) else map[]) &&
                  successfulParseCache.entries == seen[key := Tiles(line, ms)]
    {
      if |entry.fields| > 0 {
        return;
      }
      assert entry.fields == map[];
      var cacheKey := CacheKey(entry.sourcePath, entry.logLine);
      var success := successfulParseCache.Get(cacheKey);
      if success == Some(false) {
        return;
      }
      var parsed := ParseKeyValuePairs(entry);
      if !parsed {
        entry.fields := map[];
        successfulParseCache.Set(cacheKey, false);
      } else if success.None? {
        successfulParseCache.Set(cacheKey, true);
      }
    }
  }

  lemma AllOf(line: string, from: nat, to: nat)
    requires from <= to <= |line|
    ensures |TrimSpace(line[from..to])| == 0 <==> forall p :: from <= p < to ==> IsSpace(line[p])
  {
    var part := line[from..to];
    assert forall p :: from <= p < to ==> line[p] == part[p - from];
    assert forall c <- part :: exists p :: from <= p < to && line[p] == c;
  }

  /** Only white space lies outside the matches before this index. */
  predicate SpaceUpTo(line: string, ms: seq<Match>, at: nat) {
    at <= |line| && forall p: nat :: p < at && !Covered(ms, p) ==> IsSpace(line[p])
  }

  /** Where the gap before match i begins. */
  function GapStart(ms: seq<Match>, i: nat): nat
    requires i <= |ms|
  {
    if i == 0 then 0 else ms[i - 1].end
  }

  function GapEnd(line: string, ms: seq<Match>, i: nat): nat
    requires i <= |ms|
  {
    if i == |ms| then |line| else ms[i].start
  }

  lemma Bounds(line: string, ms: seq<Match>, i: nat)
    requires WellFormed(line, ms) && i <= |ms|
    ensures GapStart(ms, i) <= GapEnd(line, ms, i) <= |line|
    ensures i < |ms| ==>
              var m := ms[i];
              m.start <= m.keyStart <= m.keyEnd <= m.end <= |line| && m.start <= m.valStart <= m.valEnd <= m.end
  {
    if i < |ms| {
      assert ms[i] in ms;
    }
    if i > 0 {
      assert ms[i - 1] in ms;
    }
  }

  lemma NoneYet(line: string, ms: seq<Match>)
    ensures SpaceUpTo(line, ms, 0)
  {
  }

  /** Nothing between two consecutive matches is covered by any match. */
  lemma GapIsUncovered(line: string, ms: seq<Match>, i: nat, p: nat)
    requires WellFormed(line, ms) && i <= |ms| && GapStart(ms, i) <= p < GapEnd(line, ms, i)
    ensures !Covered(ms, p)
  {
    forall j | 0 <= j < |ms|
      ensures !(ms[j].start <= p < ms[j].end)
    {
      Bounds(line, ms, j);
      if j < i - 1 {
        assert ms[j].end <= ms[i - 1].start <= ms[i - 1].end by { Bounds(line, ms, i - 1); }
      } else if j > i {
        assert ms[i].start <= ms[i].end <= ms[j].start by { Bounds(line, ms, i); }
      }
    }
  }

  /** What the check of one gap decides. */
  lemma Gap(line: string, ms: seq<Match>, i: nat)
    requires WellFormed(line, ms) && ms != [] && i <= |ms| && SpaceUpTo(line, ms, GapStart(ms, i))
    ensures GapStart(ms, i) <= GapEnd(line, ms, i) <= |line|
    ensures |TrimSpace(line[GapStart(ms, i)..GapEnd(line, ms, i)])| > 0 ==>
              !Tiles(line, ms) && |TrimSpace(line[GapStart(ms, i)..])| > 0 && GapStart(ms, i) < |line|
    ensures |TrimSpace(line[GapStart(ms, i)..GapEnd(line, ms, i)])| == 0 ==>
              if i < |ms| then SpaceUpTo(line, ms, ms[i].end) else Tiles(line, ms)
    ensures GapStart(ms, i) == GapEnd(line, ms, i) ==> |TrimSpace(line[GapStart(ms, i)..GapEnd(line, ms, i)])| == 0
    ensures i == |ms| ==> line[GapStart(ms, i)..GapEnd(line, ms, i)] == line[GapStart(ms, i)..]
  {
    var lo, hi := GapStart(ms, i), GapEnd(line, ms, i);
    Bounds(line, ms, i);
    AllOf(line, lo, hi);
    AllOf(line, lo, |line|);
    forall p: nat | lo <= p < hi ensures !Covered(ms, p) {
      GapIsUncovered(line, ms, i, p);
    }
    if i < |ms| {
      assert forall p: nat | ms[i].start <= p < ms[i].end :: Covered(ms, p);
    }
  }

  // ---------- the default pattern ----------

  /** Leftmost matches, each search starting where the previous match ended. */
  function FindAll(text: string, at: nat): (ms: seq<Match>)
    decreases |text|
  {
    if text == [] then []
    else
      match MatchHere(text)
      case None => FindAll(text[1..], at + 1)
      case Some(m) =>
        var end := at + m.Length();
        [Match(at, end, at, at + m.key, at + m.key + 1, end)] + FindAll(text[m.Length()..], end)
  }

  predicate AllFrom(ms: seq<Match>, at: nat) {
    forall m <- ms :: at <= m.start
  }

  lemma ConsWellFormed(line: string, m: Match, rest: seq<Match>)
    requires WellFormed(line, [m]) && WellFormed(line, rest) && AllFrom(rest, m.end)
    ensures WellFormed(line, [m] + rest) && AllFrom([m] + rest, m.start)
  {
    var ms := [m] + rest;
    assert ms[0] == m && m in [m];
    assert forall i :: 1 <= i < |ms| ==> ms[i] == rest[i - 1] && rest[i - 1] in rest;
    assert forall x <- ms :: x == m || x in rest;
  }

  lemma {:induction false} FindAllIsWellFormed(text: string, at: nat, line: string)
    requires at + |text| == |line|
    ensures WellFormed(line, FindAll(text, at)) && AllFrom(FindAll(text, at), at)
    decreases |text|
  {
    hide WellFormed, MatchHere, FindAll, AllFrom;
    if text == [] {
      NoneWellFormed(line, at);
    } else if MatchHere(text).None? {
      FindAllNext(text, at);
      FindAllIsWellFormed(text[1..], at + 1, line);
      FromLess(FindAll(text[1..], at + 1), at);
    } else {
      var m := MatchHere(text).value;
      var end, rest := at + m.Length(), text[m.Length()..];
      FindAllMatch(text, at, m);
      FindAllIsWellFormed(rest, end, line);
      OneWellFormed(line, at, m);
      ConsWellFormed(line, Match(at, end, at, at + m.key, at + m.key + 1, end), FindAll(rest, end));
    }
  }

  lemma NoneWellFormed(line: string, at: nat)
    ensures FindAll("", at) == [] && WellFormed(line, []) && AllFrom([], at)
  {
  }

  lemma FromLess(ms: seq<Match>, at: nat)
    requires AllFrom(ms, at + 1)
    ensures AllFrom(ms, at)
  {
  }

  lemma OneWellFormed(line: string, at: nat, m: Span)
    requires at + m.Length() <= |line|
    ensures WellFormed(line, [Match(at, at + m.Length(), at, at + m.key, at + m.key + 1, at + m.Length())])
  {
  }

  // ---------- round trip ----------

  /** One `key=value` of a line, its value in quotes or bare. */
  datatype Item = Item(key: string, value: string, quoted: bool)

  /** A word, and a value that needs no escapes. */
  predicate Printable(it: Item) {
    && it.key != [] && AllWord(it.key)
    && if it.quoted then QUOTE !in it.value && '\n' !in it.value
       else it.value != [] && NoBlank(it.value) && it.value[0] != QUOTE
  }

  function Shown(it: Item): string {
    if it.quoted then [QUOTE] + (it.value + [QUOTE]) else it.value
  }

  /** `key="value"` or `key=value`, then the rest. */
  function ItemThen(it: Item, rest: string): string {
    it.key + (['='] + (Shown(it) + rest))
  }

  /** The items separated by single spaces, then the tail. */
  function PrintThen(items: seq<Item>, tail: string): string {
    if items == [] then tail
    else ItemThen(items[0], if |items| == 1 then tail else [' '] + PrintThen(items[1..], tail))
  }

  function Print(items: seq<Item>): string {
    PrintThen(items, "")
  }

  lemma {:induction false} WordRunStops(key: string, rest: string)
    requires AllWord(key) && rest != [] && !IsWord(rest[0])
    ensures WordRun(key + rest) == |key|
    decreases |key|
  {
    if key == [] {
      assert key + rest == rest;
    } else {
      assert (key + rest)[1..] == key[1..] + rest;
      WordRunStops(key[1..], rest);
    }
  }

  lemma {:induction false} QuoteStops(value: string, rest: string)
    requires QUOTE !in value && '\n' !in value && rest != [] && rest[0] == QUOTE
    ensures QuoteIn(value + rest) == Some(|value|)
    decreases |value|
  {
    if value == [] {
      assert value + rest == rest;
    } else {
      assert (value + rest)[1..] == value[1..] + rest;
      QuoteStops(value[1..], rest);
    }
  }

  lemma {:induction false} BareRunStops(value: string, rest: string)
    requires NoBlank(value) && (rest == [] || IsBlank(rest[0]))
    ensures BareRun(value + rest) == |value|
    decreases |value|
  {
    if value == [] {
      assert value + rest == rest;
    } else {
      assert (value + rest)[1..] == value[1..] + rest;
      BareRunStops(value[1..], rest);
    }
  }

  lemma ShownLength(it: Item, rest: string)
    requires Printable(it) && (rest == [] || IsBlank(rest[0]))
    ensures ValueLength(Shown(it) + rest) == |Shown(it)| >= 1
  {
    hide AllWord, QuoteIn, BareRun;
    var v := Shown(it) + rest;
    if it.quoted {
      assert v[1..] == it.value + ([QUOTE] + rest);
      QuoteStops(it.value, [QUOTE] + rest);
    } else {
      BareRunStops(it.value, rest);
    }
  }

  /** The pattern finds a printed item at the front. */
  lemma ItemMatches(it: Item, rest: string)
    requires Printable(it) && (rest == [] || IsBlank(rest[0]))
    ensures MatchHere(ItemThen(it, rest)) == Some(Span(|it.key|, |Shown(it)|))
    ensures ItemThen(it, rest)[|it.key| + 1 + |Shown(it)|..] == rest
  {
    var text, v := ItemThen(it, rest), Shown(it) + rest;
    EqualsIsNoWord();
    WordRunStops(it.key, ['='] + v);
    ShownLength(it, rest);
    hide AllWord, IsWord, WordRun, ValueLength, Shown;
    assert text[|it.key| + 1..] == v;
  }

  lemma EqualsIsNoWord()
    ensures !IsWord('=')
  {
  }

  lemma FindAllMatch(text: string, at: nat, m: Span)
    requires text != [] && MatchHere(text) == Some(m)
    ensures var end := at + m.Length();
            FindAll(text, at) ==
            [Match(at, end, at, at + m.key, at + m.key + 1, end)] + FindAll(text[m.Length()..], end)
  {
    hide MatchHere;
  }

  lemma FindAllNext(text: string, at: nat)
    requires text != [] && MatchHere(text).None?
    ensures FindAll(text, at) == FindAll(text[1..], at + 1)
  {
    hide MatchHere;
  }

  lemma FindAllNone(at: nat)
    ensures FindAll("", at) == []
  {
  }

  lemma FindAllSkip(text: string, at: nat)
    requires text != [] && !IsWord(text[0])
    ensures FindAll(text, at) == FindAll(text[1..], at + 1)
  {
  }

  /** The matches of a printed list: one per pair, a space between them. */
  function Expected(items: seq<Item>, at: nat): (ms: seq<Match>)
    ensures |ms| == |items|
    decreases |items|
  {
    if items == [] then []
    else
      var k := at + |items[0].key|;
      var end := k + 1 + |Shown(items[0])|;
      [Match(at, end, at, k, k + 1, end)] + Expected(items[1..], end + 1)
  }

  /** Where the printed list ends. */
  function EndOf(items: seq<Item>, at: nat): (end: nat)
    ensures at <= end
    decreases |items|
  {
    if items == [] then at
    else
      var end := at + |items[0].key| + 1 + |Shown(items[0])|;
      if |items| == 1 then end else EndOf(items[1..], end + 1)
  }

  lemma {:induction false} PrintMatches(items: seq<Item>, tail: string, at: nat)
    requires items != [] && (tail == "" || IsBlank(tail[0])) && forall it <- items :: Printable(it)
    ensures FindAll(PrintThen(items, tail), at) == Expected(items, at) + FindAll(tail, EndOf(items, at))
    decreases |items|
  {
    hide MatchHere, ItemThen, Shown, Printable, FindAll, PrintThen, Expected, IsBlank;
    ExpectedIs(items, at);
    var it, rest := items[0], items[1..];
    var behind := if |items| == 1 then tail else [' '] + PrintThen(rest, tail);
    var end := at + |it.key| + 1 + |Shown(it)|;
    PrintIs(items, tail);
    SpaceIsBlank();
    ItemMatches(it, behind);
    FindAllMatch(PrintThen(items, tail), at, Span(|it.key|, |Shown(it)|));
    if |items| > 1 {
      PrintMatches(rest, tail, end + 1);
      FindAllAfterSpace(PrintThen(rest, tail), end);
    } else {
      assert Expected(rest, end + 1) == [];
    }
  }

  lemma ExpectedIs(items: seq<Item>, at: nat)
    ensures Expected([], at) == []
    ensures items != [] ==>
              var k := at + |items[0].key|;
              var end := k + 1 + |Shown(items[0])|;
              Expected(items, at) == [Match(at, end, at, k, k + 1, end)] + Expected(items[1..], end + 1)
    ensures |items| == 1 ==> Expected(items[1..], at + |items[0].key| + 1 + |Shown(items[0])| + 1) == []
  {
  }

  lemma FindAllAfterSpace(rest: string, at: nat)
    ensures FindAll([' '] + rest, at) == FindAll(rest, at + 1)
  {
    hide FindAll;
    assert ([' '] + rest)[1..] == rest;
    SpaceIsNoWord();
    FindAllSkip([' '] + rest, at);
  }

  lemma SpaceIsBlank()
    ensures IsBlank(' ')
  {
  }

  lemma SpaceIsNoWord()
    ensures !IsWord(' ')
  {
  }

  /** Where the parts of a printed item are. */
  lemma ItemParts(it: Item, tail: string)
    ensures var n, text := |it.key| + 1 + |Shown(it)|, ItemThen(it, tail);
            && |text| == n + |tail| && text[..|it.key|] == it.key && text[n..] == tail
            && text[|it.key| + 1..n] == Shown(it)
  {
    hide Shown;
  }

  lemma SliceSlice(s: string, i: nat, n: nat)
    requires i + n <= |s|
    ensures s[i..i + n] == s[i..][..n] && s[i + n..] == s[i..][n..]
  {
  }

  /** In this stretch only separating spaces lie outside the matches. */
  predicate SpacesIn(line: string, ms: seq<Match>, at: nat, to: nat)
    requires to <= |line|
  {
    forall p: nat :: at <= p < to && !Covered(ms, p) ==> line[p] == ' '
  }

  lemma SpacesCons(line: string, m: Match, rest: seq<Match>, to: nat)
    requires m.end <= to <= |line| && SpacesIn(line, rest, m.end + 1, to) && (m.end < to ==> line[m.end] == ' ')
    ensures SpacesIn(line, [m] + rest, m.start, to)
  {
    var ms := [m] + rest;
    forall p: nat | m.start <= p < to && !Covered(ms, p)
      ensures line[p] == ' '
    {
      assert ms[0] == m;
      assert forall i :: 0 <= i < |rest| ==> ms[i + 1] == rest[i];
      assert !Covered(rest, p);
    }
  }

  /** What an item stands for. */
  function PairIn(it: Item): Pair {
    Pair(it.key, it.value)
  }

  function PairsIn(items: seq<Item>): seq<Pair> {
    seq(|items|, i requires 0 <= i < |items| => PairIn(items[i]))
  }

  /** Reading the first match of a printed list off the line. */
  lemma HeadReads(line: string, at: nat, it: Item, tail: string, m: Match)
    requires Printable(it) && at <= |line| && line[at..] == ItemThen(it, tail)
    requires var k := at + |it.key|; var end := k + 1 + |Shown(it)|; m == Match(at, end, at, k, k + 1, end)
    ensures PairOf(line, m) == PairIn(it) && m.end <= |line| && line[m.end..] == tail
  {
    hide ItemThen, Printable, Shown, Unquoted;
    ItemParts(it, tail);
    SliceSlice(line, at, |it.key|);
    SliceSlice(line, at, m.end - at);
    assert line[m.valStart..m.valEnd] == line[at..][|it.key| + 1..m.end - at];
    assert line[m.keyStart..m.keyEnd] == line[at..][..|it.key|];
    Unquote(it);
  }

  lemma {:induction false} ExpectedReads(line: string, items: seq<Item>, tail: string, at: nat)
    requires items != [] && at <= |line| && line[at..] == PrintThen(items, tail) && forall it <- items :: Printable(it)
    ensures PairsOf(line, Expected(items, at)) == PairsIn(items)
    ensures EndOf(items, at) <= |line| && line[EndOf(items, at)..] == tail
    ensures SpacesIn(line, Expected(items, at), at, EndOf(items, at))
    decreases |items|
  {
    hide ItemThen, Shown, Printable, SpacesIn, PairsOf, PairOf, PairsIn;
    PrintIs(items, tail);
    hide PrintThen;
    var it, ms := items[0], Expected(items, at);
    var m, rest := ms[0], Expected(items[1..], ms[0].end + 1);
    var behind := if |items| == 1 then tail else [' '] + PrintThen(items[1..], tail);
    HeadReads(line, at, it, behind, m);
    hide Covered, WellFormed;
    if |items| == 1 {
      NoSpaces(line, m.end + 1, m.end);
      HeadThenRest(line, items, m, [], at, m.end);
    } else {
      AfterSpace(line, m.end, PrintThen(items[1..], tail));
      ExpectedReads(line, items[1..], tail, m.end + 1);
      HeadThenRest(line, items, m, rest, at, EndOf(items, at));
    }
  }

  lemma HeadThenRest(line: string, items: seq<Item>, m: Match, rest: seq<Match>, at: nat, to: nat)
    requires items != [] && m.start == at && PairOf(line, m) == PairIn(items[0]) && m.end <= to <= |line|
    requires PairsOf(line, rest) == PairsIn(items[1..]) && SpacesIn(line, rest, m.end + 1, to)
    requires m.end < to ==> line[m.end] == ' '
    ensures PairsOf(line, [m] + rest) == PairsIn(items) && SpacesIn(line, [m] + rest, at, to)
  {
    hide SpacesIn, PairsOf, PairOf;
    SpacesCons(line, m, rest, to);
    PairsCons(line, m, rest);
    assert PairsIn(items) == [PairIn(items[0])] + PairsIn(items[1..]);
  }

  lemma AfterSpace(line: string, at: nat, rest: string)
    requires at <= |line| && line[at..] == [' '] + rest
    ensures at < |line| && line[at] == ' ' && line[at + 1..] == rest
  {
    assert line[at] == line[at..][0];
    assert line[at + 1..] == line[at..][1..];
  }

  lemma PrintIs(items: seq<Item>, tail: string)
    requires items != []
    ensures PrintThen(items, tail) ==
            ItemThen(items[0], if |items| == 1 then tail else [' '] + PrintThen(items[1..], tail))
  {
  }

  lemma NoSpaces(line: string, at: nat, to: nat)
    requires to <= |line| && to <= at
    ensures PairsOf(line, []) == PairsIn([]) == [] && SpacesIn(line, [], at, to)
  {
  }

  lemma Unquote(it: Item)
    requires Printable(it)
    ensures Unquoted(Shown(it)) == it.value
  {
    if it.quoted {
      var v := Shown(it);
      assert v[1..|v| - 1] == it.value;
    }
  }

  lemma PairsCons(line: string, m: Match, rest: seq<Match>)
    ensures PairsOf(line, [m] + rest) == [PairOf(line, m)] + PairsOf(line, rest)
  {
    hide PairOf;
    var ms := [m] + rest;
    assert forall i :: 0 <= i < |rest| ==> ms[i + 1] == rest[i];
  }

  // ---------- text around the items ----------

  lemma NoMatchHere(text: string, end: nat)
    requires text != "" && end < |text| && text[end] == ' ' && '=' !in text[..end]
    ensures MatchHere(text) == None
  {
    SpaceIsNoWord();
    var k := WordRun(text);
    FrontIsWord(text, k);
    assert k <= end;
    assert k < end ==> text[..end][k] == text[k];
  }

  /** Nothing is found in a text without an equals sign. */
  lemma {:induction false} NothingFound(text: string, at: nat)
    requires '=' !in text
    ensures FindAll(text, at) == []
    decreases |text|
  {
    if text != [] {
      var k := WordRun(text);
      assert k < |text| ==> text[k] in text;
      NothingFound(text[1..], at + 1);
    }
  }

  lemma {:induction false} SkipText(before: string, rest: string, at: nat)
    requires '=' !in before
    ensures FindAll(before + ([' '] + rest), at) == FindAll(rest, at + |before| + 1)
    decreases |before|
  {
    hide FindAll, MatchHere;
    var text := before + ([' '] + rest);
    if before == [] {
      assert text == [' '] + rest;
      FindAllAfterSpace(rest, at);
    } else {
      assert text[|before|] == ' ' && text[..|before|] == before;
      NoMatchHere(text, |before|);
      FindAllNext(text, at);
      assert text[1..] == before[1..] + ([' '] + rest);
      SkipText(before[1..], rest, at + 1);
    }
  }

  lemma {:induction false} ExpectedWithin(items: seq<Item>, at: nat)
    ensures forall m <- Expected(items, at) :: at <= m.start <= m.end <= EndOf(items, at)
    decreases |items|
  {
    if |items| > 1 {
      ExpectedWithin(items[1..], at + |items[0].key| + 2 + |Shown(items[0])|);
    }
  }

  lemma NotCovered(items: seq<Item>, at: nat, p: nat)
    requires p < at || EndOf(items, at) <= p
    ensures !Covered(Expected(items, at), p)
  {
    ExpectedWithin(items, at);
    var ms := Expected(items, at);
    assert forall i :: 0 <= i < |ms| ==> ms[i] in ms;
  }

  predicate AllSpace(s: string) {
    forall c <- s :: IsSpace(c)
  }

  /** The matches tile the line exactly if there is only white space around the items. */
  lemma TilesAround(line: string, items: seq<Item>, at: nat, to: nat)
    requires items != [] && at <= to == EndOf(items, at) <= |line| && SpacesIn(line, Expected(items, at), at, to)
    ensures Tiles(line, Expected(items, at)) <==> AllSpace(line[..at]) && AllSpace(line[to..])
  {
    hide Expected, EndOf, Covered;
    var ms := Expected(items, at);
    assert IsSpace(' ');
    forall p: nat | p < |line| && (p < at || to <= p)
      ensures !Covered(ms, p)
    {
      NotCovered(items, at, p);
    }
    hide IsSpace;
    if AllSpace(line[..at]) && AllSpace(line[to..]) {
      forall p: nat | p < |line| && !Covered(ms, p)
        ensures IsSpace(line[p])
      {
        if p < at {
          assert line[p] == line[..at][p];
        } else if to <= p {
          assert line[p] == line[to..][p - to];
        }
      }
    }
    if Tiles(line, ms) {
      assert forall i :: 0 <= i < at ==> line[..at][i] == line[i];
      assert forall i :: 0 <= i < |line| - to ==> line[to..][i] == line[i + to];
    }
  }

  /** The fields the default pattern finds in a line, if the line parses. */
  function Parsed(line: string): Option<Fields> {
    var ms := FindAll(line, 0);
    if Tiles(line, ms) then Some(Assigned(map[], PairsOf(line, ms))) else None
  }

  /** Items with text around them that holds no equals sign: the line parses exactly if that
      text is white space, and then gives the items. */
  lemma ParsedAround(before: string, items: seq<Item>, after: string)
    requires items != [] && (forall it <- items :: Printable(it)) && '=' !in before && '=' !in after
    ensures Parsed(before + ([' '] + PrintThen(items, [' '] + after))) ==
            if AllSpace(before) && AllSpace(after) then Some(Assigned(map[], PairsIn(items))) else None
  {
    hide PrintThen, FindAll, WellFormed, Expected, PairsOf, Assigned, Printable, Tiles, IsBlank;
    var tail, at := [' '] + after, |before| + 1;
    var line, to := before + ([' '] + PrintThen(items, tail)), EndOf(items, at);
    SkipText(before, PrintThen(items, tail), 0);
    SpaceIsBlank();
    PrintMatches(items, tail, at);
    NothingFound(tail, to);
    assert line[at..] == PrintThen(items, tail);
    ExpectedReads(line, items, tail, at);
    TilesAround(line, items, at, to);
    assert line[..at] == before + [' '];
    AllSpaceAround(before, after);
    assert Expected(items, at) + [] == Expected(items, at);
  }

  lemma AllSpaceAround(before: string, after: string)
    ensures AllSpace(before + [' ']) <==> AllSpace(before)
    ensures AllSpace([' '] + after) <==> AllSpace(after)
  {
    assert IsSpace(' ');
  }

  /** A line without an equals sign does not parse. */
  lemma PlainTextDoesNotParse(line: string)
    requires '=' !in line
    ensures Parsed(line) == None
  {
    NothingFound(line, 0);
  }

  /** Printing items, quoted or bare in any mixture, and parsing the line with the default
      pattern gives them back: the line parses, its fields are those of the items, and each has
      the value of the last item of that name. */
  lemma RoundTrip(items: seq<Item>)
    requires items != [] && forall it <- items :: Printable(it)
    ensures var parsed := Parsed(Print(items));
            && parsed.Some?
            && (forall key :: key in parsed.value <==> exists it <- items :: it.key == key)
            && forall i | 0 <= i < |items| && forall j :: i < j < |items| ==> items[j].key != items[i].key ::
                 parsed.value[items[i].key] == Text(items[i].value)
  {
    hide PrintThen, FindAll, WellFormed, Expected, PairsOf, Assigned, Printable, Tiles, IsBlank;
    var line := Print(items);
    var ms, pairs := FindAll(line, 0), PairsIn(items);
    PrintMatches(items, "", 0);
    FindAllNone(EndOf(items, 0));
    assert line[0..] == line && ms == Expected(items, 0);
    ExpectedReads(line, items, "", 0);
    TilesAround(line, items, 0, EndOf(items, 0));
    forall key ensures key in Assigned(map[], pairs) <==> exists it <- items :: it.key == key {
      AssignedKeys(pairs, key);
      KeysIn(items, key);
    }
    forall i | 0 <= i < |items| && forall j :: i < j < |items| ==> items[j].key != items[i].key
      ensures items[i].key in Assigned(map[], pairs) && Assigned(map[], pairs)[items[i].key] == Text(items[i].value)
    {
      LastWins(pairs, i);
    }
  }

  lemma KeysIn(items: seq<Item>, key: string)
    ensures (exists p <- PairsIn(items) :: p.key == key) <==> exists it <- items :: it.key == key
  {
    var pairs := PairsIn(items);
    if it :| it in items && it.key == key {
      var i :| 0 <= i < |items| && items[i] == it;
      assert pairs[i] in pairs;
    }
    if p :| p in pairs && p.key == key {
      var i :| 0 <= i < |pairs| && pairs[i] == p;
      assert items[i] in items;
    }
  }
}
