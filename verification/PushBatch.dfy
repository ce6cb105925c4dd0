/** A pushed batch: decoded JSON streams are normalised all or nothing, then handed line by
    line to processors that are built once per application and source. */
module PushBatch {
  import opened Wrappers
  import opened Strings
  import SourcePath

  type Labels = map<string, string>

  /** Raw JSON values are their texts; an absent one is empty. */
  datatype PushEntry = PushEntry(ts: string, timestamp: string, line: string)

  datatype Stream = Stream(stream: Labels, labels: string, values: seq<seq<string>>, entries: seq<PushEntry>)

  /** Decoding of labels, timestamps and lines is given. */
  datatype Receiver = Receiver(
    defaultApp: string,
    sourceRoot: string,
    parseMetric: string -> Option<Labels>,
    parseTimestampRaw: string -> Option<int>,
    parseLineRaw: string -> Option<string>)

  datatype Entry = Entry(app: string, source: string, timestamp: int, line: string)

  datatype Flaw =
    | InvalidLabels(stream: nat)
    | ShortTuple(stream: nat, value: nat)
    | InvalidTimestamp(stream: nat, value: nat)
    | InvalidLine(stream: nat, value: nat)
    | MissingEntryTimestamp(stream: nat, entry: nat)
    | InvalidEntryTimestamp(stream: nat, entry: nat)

  const FALLBACK_APP_NAME := "promtail"

  function FirstLabel(labels: Labels, keys: seq<string>): (v: string)
    ensures v == "" <==> forall key <- keys :: key in labels ==> TrimSpace(labels[key]) == ""
  {
    if keys == [] then ""
    else if keys[0] in labels && TrimSpace(labels[keys[0]]) != "" then
      assert keys[0] in keys;
      TrimSpace(labels[keys[0]])
    else
      assert forall key <- keys :: key == keys[0] || key in keys[1..];
      FirstLabel(labels, keys[1..])
  }

  /** The first key whose label is not blank decides. */
  lemma {:induction false} FirstLabelIs(labels: Labels, keys: seq<string>, i: nat)
    requires i < |keys| && keys[i] in labels && TrimSpace(labels[keys[i]]) != ""
    requires forall j :: 0 <= j < i ==> keys[j] !in labels || TrimSpace(labels[keys[j]]) == ""
    ensures FirstLabel(labels, keys) == TrimSpace(labels[keys[i]])
    decreases |keys|
  {
    if i > 0 {
      FirstLabelIs(labels, keys[1..], i - 1);
    }
  }

  function AppName(r: Receiver, labels: Labels): (app: string)
    ensures app != ""
  {
    var v := FirstLabel(labels, ["app", "service", "job"]);
    if v != "" then v else if r.defaultApp != "" then r.defaultApp else FALLBACK_APP_NAME
  }

  predicate IsNamed(labels: Labels, key: string) {
    key in labels && TrimSpace(labels[key]) != ""
  }

  /** The application: the first of the three labels that is not blank, else the configured
      default, else the fixed one. */
  lemma AppNameIs(r: Receiver, labels: Labels)
    ensures IsNamed(labels, "app") ==> AppName(r, labels) == TrimSpace(labels["app"])
    ensures !IsNamed(labels, "app") && IsNamed(labels, "service") ==> AppName(r, labels) == TrimSpace(labels["service"])
    ensures !IsNamed(labels, "app") && !IsNamed(labels, "service") && IsNamed(labels, "job") ==>
              AppName(r, labels) == TrimSpace(labels["job"])
    ensures !IsNamed(labels, "app") && !IsNamed(labels, "service") && !IsNamed(labels, "job") ==>
              AppName(r, labels) == if r.defaultApp != "" then r.defaultApp else FALLBACK_APP_NAME
  {
    var keys := ["app", "service", "job"];
    if IsNamed(labels, "app") {
      FirstLabelIs(labels, keys, 0);
    } else if IsNamed(labels, "service") {
      FirstLabelIs(labels, keys, 1);
    } else if IsNamed(labels, "job") {
      FirstLabelIs(labels, keys, 2);
    } else {
      assert FirstLabel(labels, keys) == "";
    }
  }

  function Decimal(n: nat): string {
    (if n < 10 then "" else Decimal(n / 10)) + [(n % 10) as char + '0']
  }

  function Source(r: Receiver, i: nat, labels: Labels): string {
    SourcePath.PathOf(r.sourceRoot, FirstLabel(labels, ["filename", "__path__", "path", "source"]),
                      "stream-" + Decimal(i) + ".log")
  }

  // Decimal numbers read back.

  function Number(digits: string): int {
    if digits == "" then 0 else Number(digits[..|digits| - 1]) * 10 + (digits[|digits| - 1] as int - '0' as int)
  }

  lemma {:induction false} DecimalReads(n: nat)
    ensures var digits := Decimal(n);
            && Number(digits) == n && digits != "" && (forall c <- digits :: '0' <= c <= '9')
            && (digits[0] == '0' ==> digits == "0")
  {
    var last := (n % 10) as char + '0';
    if n >= 10 {
      DecimalReads(n / 10);
      assert Decimal(n)[..|Decimal(n)| - 1] == Decimal(n / 10);
    } else {
      assert Decimal(n) == [last] && [last][..0] == "";
    }
  }

  /** The file a stream is filed under: by the first of the four labels that is not blank, and
      by the stream's number if none of them names anything. */
  lemma SourceIs(r: Receiver, i: nat, labels: Labels)
    ensures var filed := (path: string) => SourcePath.PathOf(r.sourceRoot, path, "stream-" + Decimal(i) + ".log");
            && (IsNamed(labels, "filename") ==> Source(r, i, labels) == filed(TrimSpace(labels["filename"])))
            && (!IsNamed(labels, "filename") && IsNamed(labels, "__path__") ==>
                  Source(r, i, labels) == filed(TrimSpace(labels["__path__"])))
            && (!IsNamed(labels, "filename") && !IsNamed(labels, "__path__") && IsNamed(labels, "path") ==>
                  Source(r, i, labels) == filed(TrimSpace(labels["path"])))
            && (!IsNamed(labels, "filename") && !IsNamed(labels, "__path__") && !IsNamed(labels, "path")
                && IsNamed(labels, "source") ==>
                  Source(r, i, labels) == filed(TrimSpace(labels["source"])))
            && (!IsNamed(labels, "filename") && !IsNamed(labels, "__path__") && !IsNamed(labels, "path")
                && !IsNamed(labels, "source") ==>
                  Source(r, i, labels) == filed(""))
  {
    hide SourcePath.PathOf, TrimSpace, Decimal;
    var keys := ["filename", "__path__", "path", "source"];
    if IsNamed(labels, "filename") {
      FirstLabelIs(labels, keys, 0);
    } else if IsNamed(labels, "__path__") {
      FirstLabelIs(labels, keys, 1);
    } else if IsNamed(labels, "path") {
      FirstLabelIs(labels, keys, 2);
    } else if IsNamed(labels, "source") {
      FirstLabelIs(labels, keys, 3);
    } else {
      assert FirstLabel(labels, keys) == "";
    }
  }

  /** A stream's labels: its map, or its label text when the map is empty. */
  function LabelsOf(r: Receiver, s: Stream): Option<Labels> {
    if s.stream != map[] then Some(s.stream)
    else if TrimSpace(s.labels) == "" then Some(map[])
    else r.parseMetric(TrimSpace(s.labels))
  }

  function RawTimestamp(e: PushEntry): string {
    if e.ts != "" then e.ts else e.timestamp
  }

  // ---------- well-formed batches ----------

  predicate ValueIsWellFormed(r: Receiver, tuple: seq<string>) {
    |tuple| >= 2 && r.parseTimestampRaw(tuple[0]).Some? && r.parseLineRaw(tuple[1]).Some?
  }

  predicate EntryIsWellFormed(r: Receiver, e: PushEntry) {
    RawTimestamp(e) != "" && r.parseTimestampRaw(RawTimestamp(e)).Some?
  }

  predicate IsWellFormed(r: Receiver, s: Stream) {
    && LabelsOf(r, s).Some?
    && (forall tuple <- s.values :: ValueIsWellFormed(r, tuple))
    && (forall e <- s.entries :: EntryIsWellFormed(r, e))
  }

  function FromValue(r: Receiver, i: nat, labels: Labels, tuple: seq<string>): Entry
    requires ValueIsWellFormed(r, tuple)
  {
    Entry(AppName(r, labels), Source(r, i, labels), r.parseTimestampRaw(tuple[0]).value, r.parseLineRaw(tuple[1]).value)
  }

  function FromEntry(r: Receiver, i: nat, labels: Labels, e: PushEntry): Entry
    requires EntryIsWellFormed(r, e)
  {
    Entry(AppName(r, labels), Source(r, i, labels), r.parseTimestampRaw(RawTimestamp(e)).value, e.line)
  }

  /** The entries of one stream: its values, then its entries. */
  function StreamEntries(r: Receiver, i: nat, s: Stream): seq<Entry>
    requires IsWellFormed(r, s)
  {
    var labels := LabelsOf(r, s).value;
    seq(|s.values|, k requires 0 <= k < |s.values| => FromValue(r, i, labels, s.values[k]))
    + seq(|s.entries|, k requires 0 <= k < |s.entries| => FromEntry(r, i, labels, s.entries[k]))
  }

  /** The entries of all streams, in order. */
  function Flat(r: Receiver, streams: seq<Stream>): seq<Entry>
    requires forall s <- streams :: IsWellFormed(r, s)
  {
    if streams == [] then []
    else
      var n := |streams| - 1;
      Flat(r, streams[..n]) + StreamEntries(r, n, streams[n])
  }

  /** How many entries the first streams hold. */
  function Offset(streams: seq<Stream>): nat {
    if streams == [] then 0
    else
      var s := streams[|streams| - 1];
      Offset(streams[..|streams| - 1]) + |s.values| + |s.entries|
  }

  lemma {:induction false} FlatAt(r: Receiver, streams: seq<Stream>, i: nat, k: nat)
    requires i < |streams| && k < |streams[i].values| + |streams[i].entries|
    requires forall s <- streams :: IsWellFormed(r, s)
    ensures |Flat(r, streams)| == Offset(streams) && streams[i] in streams && Offset(streams[..i]) + k < Offset(streams)
    ensures Flat(r, streams)[Offset(streams[..i]) + k] == StreamEntries(r, i, streams[i])[k]
    decreases |streams|
  {
    hide IsWellFormed, StreamEntries;
    var n := |streams| - 1;
    FlatLength(r, streams);
    assert streams[i] in streams && forall s <- streams[..n] :: s in streams;
    FlatLength(r, streams[..n]);
    EntriesLength(r, i, streams[i]);
    if i < n {
      FlatAt(r, streams[..n], i, k);
      assert streams[..n][..i] == streams[..i];
    }
  }

  lemma EntriesLength(r: Receiver, i: nat, s: Stream)
    requires IsWellFormed(r, s)
    ensures |StreamEntries(r, i, s)| == |s.values| + |s.entries|
  {
  }

  lemma {:induction false} FlatLength(r: Receiver, streams: seq<Stream>)
    requires forall s <- streams :: IsWellFormed(r, s)
    ensures |Flat(r, streams)| == Offset(streams)
    decreases |streams|
  {
    hide IsWellFormed, StreamEntries;
    if streams != [] {
      var n := |streams| - 1;
      assert streams[n] in streams && forall s <- streams[..n] :: s in streams;
      FlatLength(r, streams[..n]);
      EntriesLength(r, n, streams[n]);
    }
  }

  /** The text an entry's time is read from: `ts`, or `timestamp` where there is no `ts`. */
  predicate IsTimeText(e: PushEntry, text: string) {
    text != "" && (text == e.ts || (e.ts == "" && text == e.timestamp))
  }

  /** The labels of a stream: its map unless that is empty, else what its label text reads as,
      and none for a blank text. */
  predicate HasLabels(r: Receiver, s: Stream, labels: Labels) {
    || (labels != map[] && labels == s.stream)
    || (s.stream == map[] && TrimSpace(s.labels) == "" && labels == map[])
    || (s.stream == map[] && TrimSpace(s.labels) != "" && r.parseMetric(TrimSpace(s.labels)) == Some(labels))
  }

  lemma LabelsExactly(r: Receiver, s: Stream, labels: Labels)
    ensures HasLabels(r, s, labels) <==> LabelsOf(r, s) == Some(labels)
  {
  }

  /** A pushed batch that is taken becomes one entry for each of its values and entries, in
      order, the values of a stream before its entries. Each has its own time and line, and the
      application and file of its stream's labels. */
  lemma PushedInOrder(r: Receiver, streams: seq<Stream>, i: nat, k: nat)
    requires i < |streams| && k < |streams[i].values| + |streams[i].entries|
    requires forall s <- streams :: IsWellFormed(r, s)
    ensures |Flat(r, streams)| == Offset(streams) && Offset(streams[..i]) + k < Offset(streams)
    ensures var s, e := streams[i], Flat(r, streams)[Offset(streams[..i]) + k];
            && (exists labels :: HasLabels(r, s, labels) && e.app == AppName(r, labels) && e.source == Source(r, i, labels))
            && (k < |s.values| ==>
                  && |s.values[k]| >= 2 && r.parseTimestampRaw(s.values[k][0]) == Some(e.timestamp)
                  && r.parseLineRaw(s.values[k][1]) == Some(e.line))
            && (k >= |s.values| ==>
                  var pushed := s.entries[k - |s.values|];
                  && e.line == pushed.line
                  && exists text :: IsTimeText(pushed, text) && r.parseTimestampRaw(text) == Some(e.timestamp))
  {
    var s := streams[i];
    FlatAt(r, streams, i, k);
    hide Flat, Offset, AppName, Source;
    var e := StreamEntries(r, i, s)[k];
    var labels := LabelsOf(r, s).value;
    assert HasLabels(r, s, labels);
    if k < |s.values| {
      assert s.values[k] in s.values && ValueIsWellFormed(r, s.values[k]);
    } else {
      var pushed := s.entries[k - |s.values|];
      assert pushed in s.entries && EntryIsWellFormed(r, pushed);
      assert IsTimeText(pushed, RawTimestamp(pushed));
    }
  }

  /** Exactly what makes a stream well-formed. */
  lemma WellFormedExactly(r: Receiver, s: Stream)
    ensures IsWellFormed(r, s) <==>
            && (exists labels :: HasLabels(r, s, labels))
            && (forall tuple <- s.values ::
                  |tuple| >= 2 && r.parseTimestampRaw(tuple[0]).Some? && r.parseLineRaw(tuple[1]).Some?)
            && (forall e <- s.entries :: exists text :: IsTimeText(e, text) && r.parseTimestampRaw(text).Some?)
  {
    hide TrimSpace;
    if LabelsOf(r, s).Some? {
      assert HasLabels(r, s, LabelsOf(r, s).value);
    }
    forall e <- s.entries
      ensures EntryIsWellFormed(r, e) <==> exists text :: IsTimeText(e, text) && r.parseTimestampRaw(text).Some?
    {
      if EntryIsWellFormed(r, e) {
        assert IsTimeText(e, RawTimestamp(e));
      }
    }
  }

  /** The flaw is in the stream, with nothing flawed before it there. */
  predicate IsFlawOf(r: Receiver, s: Stream, flaw: Flaw) {
    match flaw
    case InvalidLabels(_) => LabelsOf(r, s).None?
    case ShortTuple(_, k) => FirstBadValue(r, s, k) && |s.values[k]| < 2
    case InvalidTimestamp(_, k) =>
      FirstBadValue(r, s, k) && |s.values[k]| >= 2 && r.parseTimestampRaw(s.values[k][0]).None?
    case InvalidLine(_, k) =>
      FirstBadValue(r, s, k) && |s.values[k]| >= 2 && r.parseTimestampRaw(s.values[k][0]).Some?
      && r.parseLineRaw(s.values[k][1]).None?
    case MissingEntryTimestamp(_, k) => FirstBadEntry(r, s, k) && RawTimestamp(s.entries[k]) == ""
    case InvalidEntryTimestamp(_, k) => FirstBadEntry(r, s, k) && RawTimestamp(s.entries[k]) != ""
  }

  /** The first flaw of the batch. */
  predicate IsFirstFlaw(r: Receiver, streams: seq<Stream>, flaw: Flaw) {
    && flaw.stream < |streams|
    && (forall s <- streams[..flaw.stream] :: IsWellFormed(r, s))
    && IsFlawOf(r, streams[flaw.stream], flaw)
  }

  predicate FirstBadValue(r: Receiver, s: Stream, k: nat) {
    LabelsOf(r, s).Some? && k < |s.values| && !ValueIsWellFormed(r, s.values[k])
    && forall tuple <- s.values[..k] :: ValueIsWellFormed(r, tuple)
  }

  predicate FirstBadEntry(r: Receiver, s: Stream, k: nat) {
    LabelsOf(r, s).Some? && k < |s.entries| && !EntryIsWellFormed(r, s.entries[k])
    && (forall tuple <- s.values :: ValueIsWellFormed(r, tuple))
    && forall e <- s.entries[..k] :: EntryIsWellFormed(r, e)
  }

  /** There is at most one first flaw, so it is the one that is reported. */
  lemma FirstFlawIsUnique(r: Receiver, streams: seq<Stream>, f: Flaw, g: Flaw)
    requires IsFirstFlaw(r, streams, f) && IsFirstFlaw(r, streams, g)
    ensures f == g && !(forall s <- streams :: IsWellFormed(r, s))
  {
    FlawIsUnique(r, streams[f.stream], f, f);
    FlawIsUnique(r, streams[g.stream], g, g);
    hide IsWellFormed, IsFlawOf;
    assert streams[f.stream] in streams;
    NotAmong(r, streams, f.stream, g.stream);
    NotAmong(r, streams, g.stream, f.stream);
    FlawIsUnique(r, streams[f.stream], f, g);
  }

  lemma NotAmong(r: Receiver, streams: seq<Stream>, i: nat, n: nat)
    requires i < |streams| && n <= |streams| && !IsWellFormed(r, streams[i])
    requires forall s <- streams[..n] :: IsWellFormed(r, s)
    ensures n <= i
  {
    hide IsWellFormed;
    assert forall j :: 0 <= j < n ==> streams[..n][j] == streams[j] && streams[..n][j] in streams[..n];
  }

  lemma FlawIsUnique(r: Receiver, s: Stream, f: Flaw, g: Flaw)
    requires IsFlawOf(r, s, f) && IsFlawOf(r, s, g)
    ensures !IsWellFormed(r, s) && (f.stream == g.stream ==> f == g)
  {
    hide LabelsOf;
    assert forall k: nat, j: nat :: k <= |s.values| && j < k ==>
                                    s.values[..k][j] == s.values[j] && s.values[j] in s.values[..k];
    assert forall k: nat, j: nat :: k <= |s.entries| && j < k ==>
                                    s.entries[..k][j] == s.entries[j] && s.entries[j] in s.entries[..k];
  }

  /** All or nothing: a batch of well-formed streams becomes its entries in order; any other
      is refused with its first flaw. */
  method NormalizeJSONEntries(r: Receiver, streams: seq<Stream>) returns (result: Result<seq<Entry>, Flaw>)
    ensures result.Success? <==> forall s <- streams :: IsWellFormed(r, s)
    ensures result.Success? ==> result.value == Flat(r, streams)
    ensures result.Failure? ==> IsFirstFlaw(r, streams, result.error)
  {
    hide IsWellFormed, Flat, LabelsOf;
    var entries: seq<Entry> := [];
    NoStreams(r);
    for i := 0 to |streams|
      invariant forall s <- streams[..i] :: IsWellFormed(r, s)
      invariant entries == Flat(r, streams[..i])
    {
      var one := NormalizeStream(r, i, streams[i]);
      assert streams[..i + 1] == streams[..i] + [streams[i]];
      if one.Failure? {
        assert streams[i] in streams;
        return Failure(one.error);
      }
      FlatNext(r, streams, i);
      entries := entries + one.value;
    }
    assert streams[..|streams|] == streams;
    return Success(entries);
  }

  lemma NoStreams(r: Receiver)
    ensures Flat(r, []) == []
  {
  }

  lemma FlatNext(r: Receiver, streams: seq<Stream>, i: nat)
    requires i < |streams| && forall s <- streams[..i + 1] :: IsWellFormed(r, s)
    ensures streams[i] in streams[..i + 1] && (forall s <- streams[..i] :: s in streams[..i + 1])
    ensures Flat(r, streams[..i + 1]) == Flat(r, streams[..i]) + StreamEntries(r, i, streams[i])
  {
    assert streams[..i + 1][..i] == streams[..i] && streams[..i + 1][i] == streams[i];
  }

  method NormalizeStream(r: Receiver, i: nat, s: Stream) returns (result: Result<seq<Entry>, Flaw>)
    ensures result.Success? <==> IsWellFormed(r, s)
    ensures result.Success? ==> result.value == StreamEntries(r, i, s)
    ensures result.Failure? ==> result.error.stream == i && IsFlawOf(r, s, result.error)
  {
    hide Source, AppName;
    var labels := s.stream;
    if |labels| == 0 {
      var parsed := ParseLabelString(r, s.labels);
      if parsed.None? {
        return Failure(InvalidLabels(i));
      }
      labels := parsed.value;
    }
    assert LabelsOf(r, s) == Some(labels);
    hide LabelsOf;
    var values := NormalizeValues(r, i, s, labels);
    if values.Failure? {
      return values;
    }
    var entries := NormalizeEntries(r, i, s, labels);
    if entries.Failure? {
      return entries;
    }
    return Success(values.value + entries.value);
  }

  method ParseLabelString(r: Receiver, value: string) returns (labels: Option<Labels>)
    ensures labels == if TrimSpace(value) == "" then Some(map[]) else r.parseMetric(TrimSpace(value))
  {
    var v := TrimSpace(value);
    if v == "" {
      return Some(map[]);
    }
    return r.parseMetric(v);
  }

  method NormalizeValues(r: Receiver, i: nat, s: Stream, labels: Labels) returns (result: Result<seq<Entry>, Flaw>)
    requires LabelsOf(r, s) == Some(labels)
    ensures result.Success? <==> forall tuple <- s.values :: ValueIsWellFormed(r, tuple)
    ensures result.Success? ==>
              result.value == seq(|s.values|, k requires 0 <= k < |s.values| => FromValue(r, i, labels, s.values[k]))
    ensures result.Failure? ==> result.error.stream == i && IsFlawOf(r, s, result.error) && !IsWellFormed(r, s)
  {
    hide LabelsOf, AppName, Source;
    var app, source := AppName(r, labels), Source(r, i, labels);
    var entries: seq<Entry> := [];
    for k := 0 to |s.values|
      invariant |entries| == k && forall tuple <- s.values[..k] :: ValueIsWellFormed(r, tuple)
      invariant forall j :: 0 <= j < k ==> ValueIsWellFormed(r, s.values[j]) && entries[j] == FromValue(r, i, labels, s.values[j])
    {
      var tuple := s.values[k];
      assert tuple in s.values && s.values[..k + 1] == s.values[..k] + [tuple];
      if |tuple| < 2 {
        return Failure(ShortTuple(i, k));
      }
      var ts := r.parseTimestampRaw(tuple[0]);
      if ts.None? {
        return Failure(InvalidTimestamp(i, k));
      }
      var line := r.parseLineRaw(tuple[1]);
      if line.None? {
        return Failure(InvalidLine(i, k));
      }
      entries := entries + [Entry(app, source, ts.value, line.value)];
    }
    return Success(entries);
  }

  method NormalizeEntries(r: Receiver, i: nat, s: Stream, labels: Labels) returns (result: Result<seq<Entry>, Flaw>)
    requires LabelsOf(r, s) == Some(labels) && forall tuple <- s.values :: ValueIsWellFormed(r, tuple)
    ensures result.Success? <==> forall e <- s.entries :: EntryIsWellFormed(r, e)
    ensures result.Success? ==>
              result.value == seq(|s.entries|, k requires 0 <= k < |s.entries| => FromEntry(r, i, labels, s.entries[k]))
    ensures result.Failure? ==> result.error.stream == i && IsFlawOf(r, s, result.error)
  {
    hide LabelsOf, AppName, Source, ValueIsWellFormed;
    var app, source := AppName(r, labels), Source(r, i, labels);
    var entries: seq<Entry> := [];
    for k := 0 to |s.entries|
      invariant |entries| == k && forall e <- s.entries[..k] :: EntryIsWellFormed(r, e)
      invariant forall j :: 0 <= j < k ==>
                  EntryIsWellFormed(r, s.entries[j]) && entries[j] == FromEntry(r, i, labels, s.entries[j])
    {
      var e := s.entries[k];
      assert e in s.entries && s.entries[..k + 1] == s.entries[..k] + [e];
      var rawTS := e.ts;
      if |rawTS| == 0 {
        rawTS := e.timestamp;
      }
      if |rawTS| == 0 {
        return Failure(MissingEntryTimestamp(i, k));
      }
      var ts := r.parseTimestampRaw(rawTS);
      if ts.None? {
        return Failure(InvalidEntryTimestamp(i, k));
      }
      entries := entries + [Entry(app, source, ts.value, e.line)];
    }
    return Success(entries);
  }

  // ---------- processing ----------

  datatype Processor = Processor(app: string, source: string)

  /** An entry and the processor that got it. */
  datatype Handled = Handled(processor: Processor, entry: Entry)

  datatype Processing = Processing(handled: seq<Handled>, ok: bool)

  function Key(app: string, source: string): string {
    app + ("\0" + source)
  }

  function KeyOf(e: Entry): string {
    Key(e.app, e.source)
  }

  function OwnProcessor(e: Entry): Processor {
    Processor(e.app, e.source)
  }

  function ProcessorFor(processors: map<string, Processor>, e: Entry): Processor {
    if KeyOf(e) in processors then processors[KeyOf(e)] else OwnProcessor(e)
  }

  /** Up to and including the first entry that is refused, each by a processor of its own. */
  function Alone(entries: seq<Entry>, accept: Handled -> bool): Processing {
    if entries == [] then Processing([], true)
    else
      var h := Handled(OwnProcessor(entries[0]), entries[0]);
      if !accept(h) then Processing([h], false)
      else
        var rest := Alone(entries[1..], accept);
        Processing([h] + rest.handled, rest.ok)
  }

  /** The same through remembered processors. */
  function Memoised(processors: map<string, Processor>, entries: seq<Entry>, accept: Handled -> bool): Processing
    decreases |entries|
  {
    if entries == [] then Processing([], true)
    else
      var e := entries[0];
      var lp := ProcessorFor(processors, e);
      var h := Handled(lp, e);
      if !accept(h) then Processing([h], false)
      else
        var rest := Memoised(processors[KeyOf(e) := lp], entries[1..], accept);
        Processing([h] + rest.handled, rest.ok)
  }

  /** Entries with the same key have the same application and source. */
  predicate TellsApart(entries: seq<Entry>) {
    forall e <- entries, f <- entries :: KeyOf(e) == KeyOf(f) ==> OwnProcessor(e) == OwnProcessor(f)
  }

  predicate Fits(processors: map<string, Processor>, entries: seq<Entry>) {
    forall e <- entries :: KeyOf(e) in processors ==> processors[KeyOf(e)] == OwnProcessor(e)
  }

  lemma {:induction false} MemoFits(processors: map<string, Processor>, entries: seq<Entry>, accept: Handled -> bool)
    requires TellsApart(entries) && Fits(processors, entries)
    ensures Memoised(processors, entries, accept) == Alone(entries, accept)
    decreases |entries|
  {
    hide KeyOf;
    if entries != [] {
      var e := entries[0];
      assert e in entries && forall f <- entries[1..] :: f in entries;
      MemoFits(processors[KeyOf(e) := OwnProcessor(e)], entries[1..], accept);
    }
  }

  predicate AcceptAll(h: Handled) {
    true
  }

  lemma {:induction false} FitsMemo(processors: map<string, Processor>, entries: seq<Entry>)
    requires Memoised(processors, entries, AcceptAll) == Alone(entries, AcceptAll)
    ensures TellsApart(entries) && Fits(processors, entries)
    decreases |entries|
  {
    hide KeyOf;
    if entries != [] {
      var e := entries[0];
      var lp := ProcessorFor(processors, e);
      var memo, own := Memoised(processors, entries, AcceptAll), Alone(entries, AcceptAll);
      assert memo.handled[0] == Handled(lp, e) && own.handled[0] == Handled(OwnProcessor(e), e);
      assert memo.handled[1..] == Memoised(processors[KeyOf(e) := lp], entries[1..], AcceptAll).handled;
      assert own.handled[1..] == Alone(entries[1..], AcceptAll).handled;
      FitsMemo(processors[KeyOf(e) := lp], entries[1..]);
      assert forall f <- entries :: f == e || f in entries[1..];
    }
  }

  /** Whatever processors do with lines, the memo changes nothing. */
  ghost predicate IsInvisible(entries: seq<Entry>) {
    forall accept: Handled -> bool :: Memoised(map[], entries, accept) == Alone(entries, accept)
  }

  /** The memo cannot be noticed exactly when keys tell the entries apart. */
  lemma MemoIsInvisible(entries: seq<Entry>)
    ensures TellsApart(entries) <==> IsInvisible(entries)
  {
    hide Memoised, Alone;
    if TellsApart(entries) {
      forall accept: Handled -> bool
        ensures Memoised(map[], entries, accept) == Alone(entries, accept)
      {
        MemoFits(map[], entries, accept);
      }
    } else if IsInvisible(entries) {
      assert Memoised(map[], entries, AcceptAll) == Alone(entries, AcceptAll);
      FitsMemo(map[], entries);
    }
  }

  lemma KeyHead(a: string, s: string)
    requires '\0' !in a
    ensures Key(a, s) != "" && (Key(a, s)[0] == '\0' <==> a == "")
  {
    assert a != "" ==> Key(a, s)[0] == a[0] && a[0] in a;
  }

  lemma {:induction false} KeyInjective(a: string, s: string, b: string, t: string)
    requires '\0' !in a && '\0' !in b && Key(a, s) == Key(b, t)
    ensures a == b && s == t
    decreases |a|
  {
    var k, l := Key(a, s), Key(b, t);
    KeyHead(a, s);
    KeyHead(b, t);
    if a == [] {
      assert k[1..] == s && l[1..] == t;
    } else {
      assert a == [a[0]] + a[1..] && b == [b[0]] + b[1..];
      assert k[0] == a[0] && l[0] == b[0];
      assert k[1..] == Key(a[1..], s) && l[1..] == Key(b[1..], t);
      KeyInjective(a[1..], s, b[1..], t);
    }
  }

  /** Applications without a NUL are told apart, whatever their sources hold. */
  lemma NulFreeApps(entries: seq<Entry>)
    requires forall e <- entries :: '\0' !in e.app
    ensures TellsApart(entries)
  {
    forall e <- entries, f <- entries | KeyOf(e) == KeyOf(f)
      ensures OwnProcessor(e) == OwnProcessor(f)
    {
      KeyInjective(e.app, e.source, f.app, f.source);
    }
  }

  /** With a NUL in an application, one entry can reach the processor of another. */
  lemma NulMixes(a: string, b: string, s: string, ts: int, line: string)
    ensures var x, y := Entry(a + ("\0" + b), s, ts, line), Entry(a, b + ("\0" + s), ts, line);
            !TellsApart([x, y])
  {
    var x, y := Entry(a + ("\0" + b), s, ts, line), Entry(a, b + ("\0" + s), ts, line);
    assert KeyOf(x) == KeyOf(y) by {
      assert (a + ("\0" + b)) + ("\0" + s) == a + ("\0" + (b + ("\0" + s)));
    }
    assert |x.app| > |y.app|;
    assert x in [x, y] && y in [x, y];
  }

  /** What was handled before, and how the rest goes. */
  function Followed(handled: seq<Handled>, rest: Processing): Processing {
    Processing(handled + rest.handled, rest.ok)
  }

  lemma MemoisedStep(processors: map<string, Processor>, entries: seq<Entry>, i: nat, accept: Handled -> bool,
                     handled: seq<Handled>)
    requires i < |entries|
    ensures var e := entries[i];
            var lp := ProcessorFor(processors, e);
            Followed(handled, Memoised(processors, entries[i..], accept)) ==
            if !accept(Handled(lp, e)) then Processing(handled + [Handled(lp, e)], false)
            else Followed(handled + [Handled(lp, e)], Memoised(processors[KeyOf(e) := lp], entries[i + 1..], accept))
  {
    hide KeyOf;
    var e := entries[i];
    var lp := ProcessorFor(processors, e);
    assert entries[i..][0] == e && entries[i..][1..] == entries[i + 1..];
    var rest := Memoised(processors[KeyOf(e) := lp], entries[i + 1..], accept).handled;
    assert handled + ([Handled(lp, e)] + rest) == handled + [Handled(lp, e)] + rest;
  }

  lemma MemoisedEnds(processors: map<string, Processor>, entries: seq<Entry>, accept: Handled -> bool,
                     handled: seq<Handled>)
    ensures entries[0..] == entries
    ensures Followed([], Memoised(processors, entries, accept)) == Memoised(processors, entries, accept)
    ensures Followed(handled, Memoised(processors, entries[|entries|..], accept)) == Processing(handled, true)
  {
    assert forall rest: seq<Handled> :: [] + rest == rest;
  }

  /** `accept` stands for what a processor does with a line: whether it succeeds. */
  method ProcessEntries(entries: seq<Entry>, accept: Handled -> bool) returns (handled: seq<Handled>, ok: bool)
    ensures Processing(handled, ok) == Memoised(map[], entries, accept)
    ensures TellsApart(entries) ==> Processing(handled, ok) == Alone(entries, accept)
  {
    hide KeyOf, TellsApart, Memoised, Alone, Followed, OwnProcessor;
    if TellsApart(entries) {
      MemoIsInvisible(entries);
    }
    var processors: map<string, Processor> := map[];
    handled := [];
    MemoisedEnds(processors, entries, accept, []);
    var i := 0;
    while i < |entries|
      invariant 0 <= i <= |entries|
      invariant Memoised(map[], entries, accept) == Followed(handled, Memoised(processors, entries[i..], accept))
    {
      var e := entries[i];
      MemoisedStep(processors, entries, i, accept, handled);
      var lp;
      if KeyOf(e) in processors {
        lp := processors[KeyOf(e)];
      } else {
        lp := OwnProcessor(e);
        processors := processors[KeyOf(e) := lp];
      }
      assert processors == processors[KeyOf(e) := lp];
      handled := handled + [Handled(lp, e)];
      if !accept(Handled(lp, e)) {
        return handled, false;
      }
      i := i + 1;
    }
    MemoisedEnds(processors, entries, accept, handled);
    return handled, true;
  }
}
