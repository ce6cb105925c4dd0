/** The template resolver stage: a template field is rendered with the values found under a
    prefix; where those values are is remembered per template. */
module TemplateResolver {
  import opened Wrappers
  import opened Models
  import opened Paths
  import opened Cache
  import opened TemplateText

  /** Where the variables of an entry are, and their names. */
  datatype Layout =
    | InObject(path: Path, names: set<string>)
    | ByPrefix(names: set<string>)

  datatype FieldCache = FieldCache(nameInTemplate: string, nameInEntry: Path)

  datatype Config = Config(templateField: string, valuesPrefix: string, outputField: string, show: Value -> string)

  datatype Error = NotAString | ParseFailure

  // ---------- finding the values ----------

  /** Split at dots, without the empty parts. */
  function Segments(s: string): (p: Path)
    ensures "" !in p
  {
    SegmentsFrom("", s)
  }

  function SegmentsFrom(part: string, s: string): (p: Path)
    ensures "" !in p
    decreases |s|
  {
    if s == [] then NonEmpty(part)
    else if s[0] == '.' then NonEmpty(part) + SegmentsFrom("", s[1..])
    else SegmentsFrom(part + [s[0]], s[1..])
  }

  function NonEmpty(part: string): Path {
    if part == "" then [] else [part]
  }

  /** The uncached walk: the field of that name, or the path its dots spell. */
  function WalkFields(fields: Fields, field: string): Option<(Value, Path)> {
    match ValueAt(fields, [field])
    case Some(v) => Some((v, [field]))
    case None =>
      if '.' !in field then None
      else
        match ValueAt(fields, Segments(field))
        case Some(v) => Some((v, Segments(field)))
        case None => None
  }

  /** The object that holds the variables, if the prefix leads to one. */
  function Holder(fields: Fields, prefix: string): Option<(map<string, Value>, Path)> {
    match WalkFields(fields, prefix)
    case Some((Object(members), path)) => Some((members, path))
    case _ => None
  }

  predicate HasPrefix(key: string, prefix: string) {
    |key| > |prefix| && key[..|prefix|] == prefix
  }

  function PrefixedNames(fields: Fields, prefix: string): set<string> {
    set key | key in fields && HasPrefix(key, prefix) :: key[|prefix|..]
  }

  function LayoutOf(fields: Fields, prefix: string): Layout {
    match Holder(fields, prefix)
    case Some((members, path)) => InObject(path, members.Keys)
    case None => ByPrefix(PrefixedNames(fields, prefix))
  }

  /** The value of each variable of an entry, read where it is found. */
  function Collected(fields: Fields, prefix: string): Data {
    match Holder(fields, prefix)
    case Some((members, _)) => Named(members)
    case None => Named(Unprefixed(fields, prefix))
  }

  function Unprefixed(fields: Fields, prefix: string): (m: Fields)
    ensures forall key <- fields :: HasPrefix(key, prefix) ==> key[|prefix|..] in m && m[key[|prefix|..]] == fields[key]
    ensures forall name <- m :: name != "" && prefix + name in fields && m[name] == fields[prefix + name]
  {
    assert forall key :: HasPrefix(key, prefix) ==> prefix + key[|prefix|..] == key;
    map name | name in PrefixedNames(fields, prefix) :: fields[prefix + name]
  }

  /** Variables by the names templates use for them. */
  function Named(values: Fields): (d: Data)
    ensures forall name <- values :: INDEXED + name in d && d[INDEXED + name] == Some(values[name])
    ensures forall k <- d :: HasIndexed(k) && k[|INDEXED|..] in values
  {
    var keys := set name | name in values :: INDEXED + name;
    assert forall name: string :: (INDEXED + name)[|INDEXED|..] == name;
    map k | k in keys :: Some(values[k[|INDEXED|..]])
  }

  predicate HasIndexed(k: string) {
    |k| >= |INDEXED| && k[..|INDEXED|] == INDEXED
  }

  function EntryPath(layout: Layout, prefix: string, name: string): Path {
    match layout
    case InObject(path, _) => path + [name]
    case ByPrefix(_) => [prefix + name]
  }

  /** The value of each variable of a remembered layout, read by its path. */
  function Recalled(layout: Layout, fields: Fields, prefix: string): (d: Data)
    ensures forall name <- layout.names ::
              INDEXED + name in d && d[INDEXED + name] == ValueAt(fields, EntryPath(layout, prefix, name))
    ensures forall k <- d :: HasIndexed(k) && k[|INDEXED|..] in layout.names
  {
    var keys := set name | name in layout.names :: INDEXED + name;
    assert forall name: string :: (INDEXED + name)[|INDEXED|..] == name;
    map k | k in keys :: ValueAt(fields, EntryPath(layout, prefix, k[|INDEXED|..]))
  }

  lemma HolderWalk(fields: Fields, prefix: string)
    ensures match Holder(fields, prefix)
            case Some((members, path)) => path != [] && Walk(Object(fields), path) == Some(Object(members))
            case None => true
  {
  }

  lemma MemberValue(fields: Fields, path: Path, members: map<string, Value>, name: string)
    requires path != [] && Walk(Object(fields), path) == Some(Object(members))
    ensures ValueAt(fields, path + [name]) == if name != "" && name in members then Some(members[name]) else None
  {
    WalkOn(Object(fields), path, [name]);
    assert [name][1..] == [];
  }

  lemma FieldValue(fields: Fields, key: string)
    requires key != ""
    ensures ValueAt(fields, [key]) == if key in fields then Some(fields[key]) else None
  {
    assert [key][1..] == [];
    assert key in fields ==> Walk(fields[key], [key][1..]) == Some(fields[key]);
  }

  lemma PrefixedField(fields: Fields, prefix: string, name: string)
    requires name != ""
    ensures name in PrefixedNames(fields, prefix) <==> prefix + name in fields
  {
    var key := prefix + name;
    assert HasPrefix(key, prefix) && key[|prefix|..] == name;
    assert forall k :: HasPrefix(k, prefix) ==> prefix + k[|prefix|..] == k;
  }

  /** The value of a variable of an entry. */
  function ValueOf(fields: Fields, prefix: string, name: string): Value
    requires name in LayoutOf(fields, prefix).names
  {
    match Holder(fields, prefix)
    case Some((members, _)) => members[name]
    case None => Unprefixed(fields, prefix)[name]
  }

  predicate SamePlace(a: Layout, b: Layout) {
    if a.InObject? && b.InObject? then a.path == b.path else a.ByPrefix? && b.ByPrefix?
  }

  /** A fresh collection shows exactly the entry's variables. */
  lemma CollectedValue(fields: Fields, prefix: string, name: string)
    ensures var collected, key := Collected(fields, prefix), INDEXED + name;
            && (key in collected <==> name in LayoutOf(fields, prefix).names)
            && (key in collected ==> collected[key] == Some(ValueOf(fields, prefix, name)))
  {
    assert (INDEXED + name)[|INDEXED|..] == name;
    hide Named, Unprefixed;
  }

  /** A layout remembered of an earlier entry shows those of its variables that this entry has
      in the same place, but for one with the empty name, which no path reaches. */
  lemma RecalledValue(first: Fields, fields: Fields, prefix: string, name: string)
    requires SamePlace(LayoutOf(first, prefix), LayoutOf(fields, prefix))
    ensures var layout, key := LayoutOf(first, prefix), INDEXED + name;
            var recalled := Recalled(layout, fields, prefix);
            && (key in recalled <==> name in layout.names)
            && (key in recalled ==>
                  recalled[key] == if name != "" && name in LayoutOf(fields, prefix).names
                                   then Some(ValueOf(fields, prefix, name)) else None)
  {
    var layout := LayoutOf(first, prefix);
    assert (INDEXED + name)[|INDEXED|..] == name;
    HolderWalk(fields, prefix);
    hide Walk, Recalled, WalkFields;
    if name in layout.names {
      match layout
      case InObject(path, _) =>
        MemberValue(fields, path, Holder(fields, prefix).value.0, name);
      case ByPrefix(_) =>
        NamesAreNotEmpty(first, prefix);
        PrefixedField(fields, prefix, name);
        FieldValue(fields, prefix + name);
    }
  }

  lemma NamesAreNotEmpty(fields: Fields, prefix: string)
    ensures "" !in PrefixedNames(fields, prefix)
  {
  }

  /** A remembered layout gives an entry with that layout the values a fresh collection gives,
      exactly unless there is a variable with the empty name. */
  lemma RecalledIsCollected(fields: Fields, prefix: string)
    ensures var layout := LayoutOf(fields, prefix);
            Recalled(layout, fields, prefix) == Collected(fields, prefix) <==> "" !in layout.names
  {
    hide LayoutOf, Recalled, Collected, ValueOf, HasIndexed;
    var layout := LayoutOf(fields, prefix);
    var recalled, collected := Recalled(layout, fields, prefix), Collected(fields, prefix);
    OnlyIndexed(layout, fields, prefix);
    forall key | key in recalled || key in collected
      ensures key in recalled && key in collected && (key != INDEXED ==> recalled[key] == collected[key])
    {
      IndexedName(key);
      CollectedValue(fields, prefix, key[|INDEXED|..]);
      RecalledValue(fields, fields, prefix, key[|INDEXED|..]);
    }
    CollectedValue(fields, prefix, "");
    RecalledValue(fields, fields, prefix, "");
    assert INDEXED + "" == INDEXED;
  }

  lemma OnlyIndexed(layout: Layout, fields: Fields, prefix: string)
    ensures forall k <- Recalled(layout, fields, prefix) :: HasIndexed(k)
    ensures forall k <- Collected(fields, prefix) :: HasIndexed(k)
  {
  }

  // ---------- where variables come from ----------

  predicate AreSegments(path: Path) {
    forall part <- path :: part != "" && '.' !in part
  }

  function Dotted(path: Path): string {
    if path == [] then "" else if |path| == 1 then path[0] else path[0] + ("." + Dotted(path[1..]))
  }

  lemma {:induction false} SegmentsPart(part: string, name: string, rest: string)
    requires '.' !in name
    ensures SegmentsFrom(part, name + rest) == SegmentsFrom(part + name, rest)
    decreases |name|
  {
    if name == [] {
      assert name + rest == rest && part + name == part;
    } else {
      assert name[0] in name && (name + rest)[1..] == name[1..] + rest;
      SegmentsPart(part + [name[0]], name[1..], rest);
      assert part + [name[0]] + name[1..] == part + name;
    }
  }

  /** A path spelled with dots is read back, with or without a dot at its end. */
  lemma {:induction false} SegmentsDotted(path: Path, end: string)
    requires AreSegments(path) && path != [] && (end == "" || end == ".")
    ensures Segments(Dotted(path) + end) == path
    decreases |path|
  {
    var name := path[0];
    assert name in path && "" + name == name;
    if |path| == 1 {
      SegmentsPart("", name, end);
      assert end != "" ==> end[1..] == "";
    } else {
      var rest := Dotted(path[1..]) + end;
      assert Dotted(path) + end == name + ("." + rest) && ("." + rest)[1..] == rest;
      SegmentsPart("", name, "." + rest);
      assert forall part <- path[1..] :: part in path;
      SegmentsDotted(path[1..], end);
    }
  }

  /** These are the variables, by the names templates use. */
  ghost predicate Shows(data: Data, values: Fields) {
    forall name: string :: (INDEXED + name in data <==> name in values) &&
                           (name in values ==> data[INDEXED + name] == Some(values[name]))
  }

  lemma NamedShows(values: Fields)
    ensures Shows(Named(values), values)
  {
    assert forall name: string :: (INDEXED + name)[|INDEXED|..] == name;
  }

  /** A field of the prefix's name that holds an object: its members. */
  lemma VariablesOfField(fields: Fields, prefix: string, members: Fields)
    requires prefix != "" && prefix in fields && fields[prefix] == Object(members)
    ensures Shows(Collected(fields, prefix), members)
  {
    FieldValue(fields, prefix);
    NamedShows(members);
    hide Named, Shows;
  }

  lemma DotInside(path: Path, end: string)
    requires path != [] && (end == "." || (end == "" && |path| > 1))
    ensures '.' in Dotted(path) + end && Dotted(path) + end != ""
  {
    var prefix := Dotted(path) + end;
    assert if end == "." then prefix[|prefix| - 1] == '.' else prefix[|path[0]|] == '.';
  }

  /** No such field, but an object at the path that the prefix spells, perhaps with a dot at the
      end: its members. */
  lemma VariablesOfPath(fields: Fields, path: Path, end: string, members: Fields)
    requires AreSegments(path) && (end == "." || (end == "" && |path| > 1)) && Dotted(path) + end !in fields
    requires ValueAt(fields, path) == Some(Object(members))
    ensures Shows(Collected(fields, Dotted(path) + end), members)
  {
    assert path != [];
    SegmentsDotted(path, end);
    DotInside(path, end);
    HolderAtPath(fields, Dotted(path) + end, path, members);
    hide Dotted, Segments, ValueAt, Named, Shows, Holder;
    NamedShows(members);
  }

  lemma HolderAtPath(fields: Fields, prefix: string, path: Path, members: Fields)
    requires prefix !in fields && prefix != "" && '.' in prefix && Segments(prefix) == path
    requires ValueAt(fields, path) == Some(Object(members))
    ensures Holder(fields, prefix) == Some((members, path))
  {
    FieldValue(fields, prefix);
    hide Segments, ValueAt;
  }

  /** Neither: the fields whose names begin with the prefix and go on, by what follows it. */
  lemma VariablesByPrefix(fields: Fields, prefix: string)
    requires prefix in fields ==> !fields[prefix].Object?
    requires '.' in prefix && prefix !in fields ==>
               ValueAt(fields, Segments(prefix)).None? || !ValueAt(fields, Segments(prefix)).value.Object?
    requires prefix != ""
    ensures var data := Collected(fields, prefix);
            forall name: string ::
              && (INDEXED + name in data <==> name != "" && prefix + name in fields)
              && (INDEXED + name in data ==> data[INDEXED + name] == Some(fields[prefix + name]))
  {
    FieldValue(fields, prefix);
    NamedShows(Unprefixed(fields, prefix));
    assert Holder(fields, prefix).None?;
    forall name: string
      ensures name in Unprefixed(fields, prefix) <==> name != "" && prefix + name in fields
    {
      if name != "" {
        assert HasPrefix(prefix + name, prefix) && (prefix + name)[|prefix|..] == name;
      }
    }
    hide Named, Unprefixed;
  }

  // ---------- what a template can see ----------

  predicate Uses(t: Template, key: string) {
    Index(key) in t
  }

  /** Every variable of the entry that the template uses is remembered and has a name, or
      prints as missing anyway. */
  predicate Covers(t: Template, layout: Layout, fields: Fields, prefix: string, show: Value -> string) {
    forall name <- LayoutOf(fields, prefix).names | Uses(t, INDEXED + name) ::
      (name in layout.names && name != "") || show(ValueOf(fields, prefix, name)) == NO_VALUE
  }

  /** What each way shows of one variable. */
  lemma ShownByName(first: Fields, fields: Fields, prefix: string, name: string, show: Value -> string)
    requires SamePlace(LayoutOf(first, prefix), LayoutOf(fields, prefix))
    ensures var layout, names, key := LayoutOf(first, prefix), LayoutOf(fields, prefix).names, INDEXED + name;
            && Shown(Collected(fields, prefix), key, show) ==
               (if name in names then show(ValueOf(fields, prefix, name)) else NO_VALUE)
            && Shown(Recalled(layout, fields, prefix), key, show) ==
               (if name in names && name in layout.names && name != "" then show(ValueOf(fields, prefix, name)) else NO_VALUE)
  {
    CollectedValue(fields, prefix, name);
    RecalledValue(first, fields, prefix, name);
    hide LayoutOf, Recalled, Collected, ValueOf;
  }

  lemma ShownOtherwise(layout: Layout, fields: Fields, prefix: string, key: string, show: Value -> string)
    requires !HasIndexed(key)
    ensures Shown(Recalled(layout, fields, prefix), key, show) == Shown(Collected(fields, prefix), key, show) == NO_VALUE
  {
    OnlyIndexed(layout, fields, prefix);
    hide Recalled, Collected;
  }

  lemma IndexedName(key: string)
    requires HasIndexed(key)
    ensures key == INDEXED + key[|INDEXED|..]
  {
  }

  /** With the variables in the same place, the exact condition under which every key a template
      uses shows the same from a remembered layout as from a fresh collection. */
  lemma ShownExactly(t: Template, first: Fields, fields: Fields, prefix: string, show: Value -> string)
    requires SamePlace(LayoutOf(first, prefix), LayoutOf(fields, prefix))
    ensures var layout := LayoutOf(first, prefix);
            var recalled, collected := Recalled(layout, fields, prefix), Collected(fields, prefix);
            (forall key | Uses(t, key) :: Shown(recalled, key, show) == Shown(collected, key, show))
            <==> Covers(t, layout, fields, prefix, show)
  {
    hide LayoutOf, Recalled, Collected, ValueOf, HasIndexed, Shown, SamePlace, Uses;
    var layout := LayoutOf(first, prefix);
    var recalled, collected := Recalled(layout, fields, prefix), Collected(fields, prefix);
    if Covers(t, layout, fields, prefix, show) {
      forall key | Uses(t, key)
        ensures Shown(recalled, key, show) == Shown(collected, key, show)
      {
        if HasIndexed(key) {
          IndexedName(key);
          ShownByName(first, fields, prefix, key[|INDEXED|..], show);
        } else {
          ShownOtherwise(layout, fields, prefix, key, show);
        }
      }
    }
    forall name <- LayoutOf(fields, prefix).names | Uses(t, INDEXED + name)
      ensures Shown(recalled, INDEXED + name, show) == Shown(collected, INDEXED + name, show) <==>
              (name in layout.names && name != "") || show(ValueOf(fields, prefix, name)) == NO_VALUE
    {
      ShownByName(first, fields, prefix, name, show);
    }
  }

  /** Converted placeholders never use the empty name. */
  lemma {:induction false} PiecesAvoid(s: string)
    ensures !Uses(Pieces(s), INDEXED)
    decreases |s|
  {
    hide PlaceholderHere;
    if s != [] {
      match PlaceholderHere(s)
      case Some(n) =>
        PiecesAvoid(s[n + 2..]);
        assert |INDEXED + s[1..n + 1]| > |INDEXED|;
      case None =>
        PiecesAvoid(s[1..]);
    }
  }

  lemma {:induction false} ExecuteAgree(t: Template, a: Data, b: Data, show: Value -> string)
    requires forall key | Uses(t, key) :: Shown(a, key, show) == Shown(b, key, show)
    ensures Execute(t, a, show) == Execute(t, b, show)
  {
    if t != [] {
      assert t[0] in t;
      assert t[0].Index? ==> Uses(t, t[0].key);
      assert forall key :: Uses(t[1..], key) ==> Uses(t, key);
      ExecuteAgree(t[1..], a, b, show);
    }
  }

  /** Then the rendered texts are the same. */
  lemma RenderingsAgree(t: Template, first: Fields, fields: Fields, prefix: string, show: Value -> string)
    requires SamePlace(LayoutOf(first, prefix), LayoutOf(fields, prefix))
    requires Covers(t, LayoutOf(first, prefix), fields, prefix, show)
    ensures Execute(t, Recalled(LayoutOf(first, prefix), fields, prefix), show) == Execute(t, Collected(fields, prefix), show)
  {
    ShownExactly(t, first, fields, prefix, show);
    hide LayoutOf, Recalled, Collected, Covers;
    ExecuteAgree(t, Recalled(LayoutOf(first, prefix), fields, prefix), Collected(fields, prefix), show);
  }

  /** Equal layouts suffice for every template converted from placeholders. */
  lemma SameLayoutCovers(text: string, first: Fields, fields: Fields, prefix: string, show: Value -> string)
    requires Plain(text) && LayoutOf(first, prefix) == LayoutOf(fields, prefix)
    ensures Parse(Convert(text)).Some?
    ensures SamePlace(LayoutOf(first, prefix), LayoutOf(fields, prefix))
    ensures Covers(Parse(Convert(text)).value, LayoutOf(first, prefix), fields, prefix, show)
  {
    ConversionIsExact(text);
    PiecesAvoid(text);
    hide Pieces, LayoutOf, ValueOf, Convert, Parse;
    assert INDEXED + "" == INDEXED;
  }

  // ---------- the stage over a history of entries ----------

  datatype Served = Served(keep: bool, err: Option<Error>, fields: Fields, layouts: map<string, Layout>)

  function TextOf(config: Config, fields: Fields): Option<string> {
    if config.templateField in fields && fields[config.templateField].Text?
    then Some(fields[config.templateField].text) else None
  }

  /** One entry, with the layouts remembered so far. */
  function Serve(config: Config, layouts: map<string, Layout>, fields: Fields): Served {
    if config.templateField !in fields then Served(true, None, fields, layouts)
    else if TextOf(config, fields).None? then Served(true, Some(NotAString), fields, layouts)
    else
      var text := TextOf(config, fields).value;
      match Parse(Convert(text))
      case None => Served(false, Some(ParseFailure), fields, layouts)
      case Some(t) =>
        var data := if text in layouts then Recalled(layouts[text], fields, config.valuesPrefix)
                    else Collected(fields, config.valuesPrefix);
        var remembered := if text in layouts then layouts
                          else layouts[text := LayoutOf(fields, config.valuesPrefix)];
        Served(true, None, fields[config.outputField := Text(Execute(t, data, config.show))], remembered)
  }

  /** What happens to an entry when nothing is remembered: a text without `{{` in the template
      field is rendered into the output field and nothing else changes; without a template the
      entry stays as it is. */
  lemma ServedAlone(config: Config, fields: Fields)
    ensures var served := Serve(config, map[], fields);
            && (config.templateField !in fields ==> served.keep && served.err == None && served.fields == fields)
            && (config.templateField in fields && !fields[config.templateField].Text? ==>
                  served.keep && served.err == Some(NotAString) && served.fields == fields)
            && (config.templateField in fields && fields[config.templateField].Text?
                && Plain(fields[config.templateField].text) ==>
                  && served.keep && served.err == None && config.outputField in served.fields
                  && served.fields[config.outputField] ==
                     Text(Substitute(fields[config.templateField].text, Collected(fields, config.valuesPrefix), config.show))
                  && forall k | k != config.outputField ::
                       (k in served.fields <==> k in fields) && (k in fields ==> served.fields[k] == fields[k]))
  {
    hide Collected, LayoutOf, Parse, Convert, Execute, Substitute;
    if config.templateField in fields && fields[config.templateField].Text? && Plain(fields[config.templateField].text) {
      RenderedIsSubstituted(fields[config.templateField].text, Collected(fields, config.valuesPrefix), config.show);
    }
  }

  /** An entry is dropped, as it is, exactly for a template that does not parse. */
  lemma DroppedExactly(config: Config, layouts: map<string, Layout>, fields: Fields)
    ensures var served := Serve(config, layouts, fields);
            && (!served.keep <==> TextOf(config, fields).Some? && Parse(Convert(TextOf(config, fields).value)).None?)
            && (served.keep <==> served.err != Some(ParseFailure)) && (!served.keep ==> served.fields == fields)
  {
    hide Collected, LayoutOf, Parse, Convert, Execute, Recalled;
  }

  /** The stage meets an entry, or its cache is trimmed to some of its keys. */
  datatype Step = Entry(fields: Fields) | Trim(kept: set<string>)

  function After(config: Config, steps: seq<Step>): map<string, Layout> {
    if steps == [] then map[]
    else
      var before := After(config, steps[..|steps| - 1]);
      match steps[|steps| - 1]
      case Entry(fields) => Serve(config, before, fields).layouts
      case Trim(kept) => map text | text in before && text in kept :: before[text]
  }

  lemma AfterTrim(config: Config, steps: seq<Step>, kept: set<string>)
    ensures var before, after := After(config, steps), After(config, steps + [Trim(kept)]);
            after.Keys == before.Keys * kept && forall text <- after :: after[text] == before[text]
  {
    assert (steps + [Trim(kept)])[..|steps|] == steps;
  }

  /** The second entry with a template is rendered with what the layout of the first shows of it. */
  lemma SecondIsRecalled(config: Config, first: Fields, fields: Fields, text: string)
    requires TextOf(config, first) == Some(text) && TextOf(config, fields) == Some(text) && Plain(text)
    ensures var served := Serve(config, After(config, [Entry(first)]), fields);
            var recalled := Recalled(LayoutOf(first, config.valuesPrefix), fields, config.valuesPrefix);
            && served.keep && served.err == None
            && served.fields == fields[config.outputField := Text(Substitute(text, recalled, config.show))]
            && served.layouts == map[text := LayoutOf(first, config.valuesPrefix)]
  {
    RenderedIsSubstituted(text, Recalled(LayoutOf(first, config.valuesPrefix), fields, config.valuesPrefix), config.show);
    assert [Entry(first)][..0] == [];
    hide Collected, LayoutOf, Recalled, Parse, Convert, Execute, Substitute;
  }

  /** What an earlier entry taught about its template covers a later one. */
  predicate Fits(config: Config, text: string, first: Fields, fields: Fields) {
    var prefix := config.valuesPrefix;
    match Parse(Convert(text))
    case None => true
    case Some(t) =>
      SamePlace(LayoutOf(first, prefix), LayoutOf(fields, prefix)) &&
      Covers(t, LayoutOf(first, prefix), fields, prefix, config.show)
  }

  /** Every entry is covered by the earlier ones with the same template. */
  predicate Agreeing(config: Config, steps: seq<Step>) {
    forall i, j :: 0 <= i < j < |steps| && steps[i].Entry? && steps[j].Entry?
                   && TextOf(config, steps[i].fields).Some?
                   && TextOf(config, steps[i].fields) == TextOf(config, steps[j].fields)
                   ==> Fits(config, TextOf(config, steps[i].fields).value, steps[i].fields, steps[j].fields)
  }

  ghost predicate SeenAt(config: Config, steps: seq<Step>, i: int, text: string, layout: Layout) {
    && 0 <= i < |steps| && steps[i].Entry? && TextOf(config, steps[i].fields) == Some(text)
    && LayoutOf(steps[i].fields, config.valuesPrefix) == layout
  }

  lemma {:induction false} Remembered(config: Config, steps: seq<Step>, text: string)
    requires text in After(config, steps)
    ensures exists i :: SeenAt(config, steps, i, text, After(config, steps)[text])
  {
    var last := |steps| - 1;
    var front := steps[..last];
    hide LayoutOf, Collected, Recalled, Parse, Convert;
    if text in After(config, front) {
      Remembered(config, front, text);
      var i :| SeenAt(config, front, i, text, After(config, front)[text]);
      assert SeenAt(config, steps, i, text, After(config, front)[text]);
    } else {
      assert SeenAt(config, steps, last, text, After(config, steps)[text]);
    }
  }

  /** Remembering layouts is invisible: in a history of agreeing entries and any trims, every
      entry comes out as from a stage that remembers nothing. */
  lemma CacheIsInvisible(config: Config, steps: seq<Step>, k: nat)
    requires Agreeing(config, steps) && k < |steps| && steps[k].Entry?
    ensures var now := Serve(config, After(config, steps[..k]), steps[k].fields);
            var alone := Serve(config, map[], steps[k].fields);
            now.keep == alone.keep && now.err == alone.err && now.fields == alone.fields
  {
    var fields := steps[k].fields;
    var layouts := After(config, steps[..k]);
    if TextOf(config, fields).Some? && TextOf(config, fields).value in layouts {
      var text := TextOf(config, fields).value;
      Remembered(config, steps[..k], text);
      hide LayoutOf, Collected, Recalled, Convert, Parse, Covers, SamePlace;
      var i :| SeenAt(config, steps[..k], i, text, layouts[text]);
      assert steps[..k][i] == steps[i];
      assert Fits(config, text, steps[i].fields, fields);
      if Parse(Convert(text)).Some? {
        RenderingsAgree(Parse(Convert(text)).value, steps[i].fields, fields, config.valuesPrefix, config.show);
      }
    }
  }

  /** Without that the cache shows: a variable in the same place that the remembering entry did
      not have prints as missing, where a fresh collection shows its value. */
  lemma NewVariableIsLost(first: Fields, fields: Fields, prefix: string, name: string, show: Value -> string)
    requires SamePlace(LayoutOf(first, prefix), LayoutOf(fields, prefix))
    requires name in LayoutOf(fields, prefix).names && name !in LayoutOf(first, prefix).names
    ensures Shown(Recalled(LayoutOf(first, prefix), fields, prefix), INDEXED + name, show) == NO_VALUE
    ensures Shown(Collected(fields, prefix), INDEXED + name, show) == show(ValueOf(fields, prefix, name))
  {
    CollectedValue(fields, prefix, name);
    RecalledValue(first, fields, prefix, name);
  }

  // ---------- the stage ----------

  /** The cached list of a layout, in the order the map was iterated. */
  ghost predicate IsListing(list: seq<FieldCache>, layout: Layout, prefix: string) {
    && (forall f <- list :: && HasIndexed(f.nameInTemplate) && f.nameInTemplate[|INDEXED|..] in layout.names
                            && f.nameInEntry == EntryPath(layout, prefix, f.nameInTemplate[|INDEXED|..]))
    && (forall name <- layout.names :: FieldCache(INDEXED + name, EntryPath(layout, prefix, name)) in list)
  }

  lemma ListOne(list: seq<FieldCache>, layout: Layout, prefix: string, name: string, path: Path)
    requires IsListing(list, layout, prefix) && path == EntryPath(layout, prefix, name)
    ensures IsListing(list + [FieldCache(INDEXED + name, path)], layout.(names := layout.names + {name}), prefix)
  {
    var f := FieldCache(INDEXED + name, path);
    assert (INDEXED + name)[|INDEXED|..] == name;
    assert forall g <- list + [f] :: g in list || g == f;
    assert forall g <- list :: g in list + [f];
    assert (list + [f])[|list|] == f;
  }

  lemma NameOne(values: Fields, name: string, v: Value)
    ensures Named(values[name := v]) == Named(values)[INDEXED + name := Some(v)]
  {
    assert (INDEXED + name)[|INDEXED|..] == name;
    hide Named;
    assert forall k | HasIndexed(k) :: k == INDEXED + k[|INDEXED|..];
  }

  lemma PrefixedOne(fields: Fields, prefix: string, key: string, v: Value)
    requires key !in fields
    ensures HasPrefix(key, prefix) ==>
              && Unprefixed(fields[key := v], prefix) == Unprefixed(fields, prefix)[key[|prefix|..] := v]
              && PrefixedNames(fields[key := v], prefix) == PrefixedNames(fields, prefix) + {key[|prefix|..]}
    ensures !HasPrefix(key, prefix) ==>
              && Unprefixed(fields[key := v], prefix) == Unprefixed(fields, prefix)
              && PrefixedNames(fields[key := v], prefix) == PrefixedNames(fields, prefix)
  {
    assert forall k :: HasPrefix(k, prefix) ==> prefix + k[|prefix|..] == k;
  }

  lemma ReadAll(list: seq<FieldCache>, layout: Layout, fields: Fields, prefix: string, data: Data)
    requires IsListing(list, layout, prefix)
    requires data.Keys == set f | f in list :: f.nameInTemplate
    requires forall f <- list :: data[f.nameInTemplate] == ValueAt(fields, f.nameInEntry)
    ensures data == Recalled(layout, fields, prefix)
  {
    hide ValueAt, EntryPath, Recalled;
    var recalled := Recalled(layout, fields, prefix);
    assert forall k | HasIndexed(k) :: k == INDEXED + k[|INDEXED|..];
    forall k | k in recalled
      ensures k in data && data[k] == recalled[k]
    {
      var f := FieldCache(INDEXED + k[|INDEXED|..], EntryPath(layout, prefix, k[|INDEXED|..]));
      assert f in list && f.nameInTemplate == k;
    }
  }

  class TemplateResolverStage {
    const config: Config
    const templateCache: PersistedCache<Template>
    const templateValuesKeys: PersistedCache<seq<FieldCache>>
    ghost var layouts: map<string, Layout>

    /** Cached templates are what their texts parse to; cached lists are remembered layouts. */
    ghost predicate Valid()
      reads this, templateCache, templateValuesKeys
    {
      && (forall text <- templateCache.entries :: Parse(Convert(text)) == Some(templateCache.entries[text]))
      && layouts.Keys == templateValuesKeys.entries.Keys
      && forall text <- layouts ::
           IsListing(templateValuesKeys.entries[text], layouts[text], config.valuesPrefix)
    }

    constructor (config: Config)
      ensures Valid() && fresh(templateCache) && fresh(templateValuesKeys)
      ensures this.config == config && layouts == map[]
    {
      this.config, layouts := config, map[];
      templateCache := new PersistedCache<Template>();
      templateValuesKeys := new PersistedCache<seq<FieldCache>>();
    }

    /** The background loops of both caches may trim at any time. */
    method Trim(templates: nat, lists: nat)
      requires Valid()
      modifies this`layouts, templateCache, templateValuesKeys
      ensures Valid()
      ensures layouts.Keys <= old(layouts).Keys && forall text <- layouts :: layouts[text] == old(layouts)[text]
    {
      hide IsListing, Parse, Convert, LayoutOf;
      templateCache.Trim(templates);
      templateValuesKeys.Trim(lists);
      ghost var kept := templateValuesKeys.entries.Keys;
      layouts := map text | text in layouts && text in kept :: layouts[text];
    }

    method Process(entry: LogEntry) returns (keep: bool, err: Option<Error>)
      requires Valid()
      modifies this`layouts, templateCache, templateValuesKeys, entry`fields
      ensures Valid()
      ensures Serve(config, old(layouts), old(entry.fields)) == Served(keep, err, entry.fields, layouts)
    {
      hide IsListing, Parse, Convert, LayoutOf, Collected, Recalled, Execute;
      if config.templateField !in entry.fields {
        return true, None;
      }
      var templateVal := entry.fields[config.templateField];
      if !templateVal.Text? {
        return true, Some(NotAString);
      }
      var text := templateVal.text;
      var tmpl: Template;
      var cachedTemplate := templateCache.Get(text);
      if cachedTemplate.Some? {
        tmpl := cachedTemplate.value;
      } else {
        var parsed := Parse(Convert(text));
        if parsed.None? {
          return false, Some(ParseFailure);
        }
        tmpl := parsed.value;
        templateCache.Set(text, tmpl);
      }
      var data: Data;
      var cachedFields := templateValuesKeys.Get(text);
      if cachedFields.Some? {
        data := ReadCached(cachedFields.value, layouts[text], entry.fields);
      } else {
        var list;
        data, list := Collect(entry.fields);
        templateValuesKeys.Set(text, list);
        layouts := layouts[text := LayoutOf(entry.fields, config.valuesPrefix)];
      }
      entry.fields := entry.fields[config.outputField := Text(Execute(tmpl, data, config.show))];
      return true, None;
    }

    method ReadCached(list: seq<FieldCache>, ghost layout: Layout, fields: Fields) returns (data: Data)
      requires IsListing(list, layout, config.valuesPrefix)
      ensures data == Recalled(layout, fields, config.valuesPrefix)
    {
      data := map[];
      for i := 0 to |list|
        invariant data.Keys == set f | f in list[..i] :: f.nameInTemplate
        invariant forall f <- list[..i] :: data[f.nameInTemplate] == ValueAt(fields, f.nameInEntry)
      {
        assert list[..i + 1] == list[..i] + [list[i]];
        data := data[list[i].nameInTemplate := ValueAt(fields, list[i].nameInEntry)];
      }
      assert list[..|list|] == list;
      ReadAll(list, layout, fields, config.valuesPrefix, data);
    }

    method Collect(fields: Fields) returns (data: Data, list: seq<FieldCache>)
      ensures data == Collected(fields, config.valuesPrefix)
      ensures IsListing(list, LayoutOf(fields, config.valuesPrefix), config.valuesPrefix)
    {
      var keysAtPrefix := WalkFields(fields, config.valuesPrefix);
      if keysAtPrefix.Some? && keysAtPrefix.value.0.Object? {
        var keysMap, prefixPath := keysAtPrefix.value.0.members, keysAtPrefix.value.1;
        data, list := CollectMembers(keysMap, prefixPath);
      } else {
        data, list := CollectPrefixed(fields);
      }
    }

    method CollectMembers(keysMap: Fields, prefixPath: Path) returns (data: Data, list: seq<FieldCache>)
      ensures data == Named(keysMap)
      ensures IsListing(list, InObject(prefixPath, keysMap.Keys), config.valuesPrefix)
    {
      hide IsListing, Named;
      var todo := keysMap.Keys;
      ghost var done: Fields := map[];
      data, list := map[], [];
      EmptyListing(prefixPath);
      assert keysMap.Keys - todo == {};
      while todo != {}
        invariant todo <= keysMap.Keys && done == map k | k in keysMap && k !in todo :: keysMap[k]
        invariant data == Named(done)
        invariant IsListing(list, InObject(prefixPath, keysMap.Keys - todo), config.valuesPrefix)
      {
        var key :| key in todo;
        NameOne(done, key, keysMap[key]);
        ListOne(list, InObject(prefixPath, keysMap.Keys - todo), config.valuesPrefix, key, prefixPath + [key]);
        data := data[INDEXED + key := Some(keysMap[key])];
        list := list + [FieldCache(INDEXED + key, prefixPath + [key])];
        assert keysMap.Keys - todo + {key} == keysMap.Keys - (todo - {key});
        done, todo := done[key := keysMap[key]], todo - {key};
      }
      assert done == keysMap && keysMap.Keys - todo == keysMap.Keys;
    }

    lemma EmptyListing(path: Path)
      ensures Named(map[]) == map[]
      ensures IsListing([], InObject(path, {}), config.valuesPrefix)
      ensures IsListing([], ByPrefix({}), config.valuesPrefix)
    {
    }

    /** The prefix leads to no object: it is taken as the front of field names. */
    method CollectPrefixed(fields: Fields) returns (data: Data, list: seq<FieldCache>)
      ensures data == Named(Unprefixed(fields, config.valuesPrefix))
      ensures IsListing(list, ByPrefix(PrefixedNames(fields, config.valuesPrefix)), config.valuesPrefix)
    {
      hide IsListing, Named, Unprefixed, PrefixedNames;
      var todo := fields.Keys;
      ghost var done: Fields := map[];
      data, list := map[], [];
      EmptyListing([]);
      NonePrefixed();
      while todo != {}
        invariant todo <= fields.Keys && done == map k | k in fields && k !in todo :: fields[k]
        invariant data == Named(Unprefixed(done, config.valuesPrefix))
        invariant IsListing(list, ByPrefix(PrefixedNames(done, config.valuesPrefix)), config.valuesPrefix)
      {
        var key :| key in todo;
        PrefixedOne(done, config.valuesPrefix, key, fields[key]);
        if HasPrefix(key, config.valuesPrefix) {
          var propName := key[|config.valuesPrefix|..];
          NameOne(Unprefixed(done, config.valuesPrefix), propName, fields[key]);
          ListOne(list, ByPrefix(PrefixedNames(done, config.valuesPrefix)), config.valuesPrefix, propName,
                  [config.valuesPrefix + propName]);
          data := data[INDEXED + propName := Some(fields[key])];
          list := list + [FieldCache(INDEXED + propName, [config.valuesPrefix + propName])];
        }
        done, todo := done[key := fields[key]], todo - {key};
      }
      assert done == fields;
    }

    lemma NonePrefixed()
      ensures Unprefixed(map[], config.valuesPrefix) == map[] && PrefixedNames(map[], config.valuesPrefix) == {}
    {
    }
  }
}
