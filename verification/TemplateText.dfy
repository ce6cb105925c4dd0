/** Placeholder templates: `{name}` is rewritten to a Go template action, which is parsed
    and executed. */
module TemplateText {
  import opened Wrappers
  import opened Strings
  import opened Models

  const INDEXED := "indexed_"
  const OPEN := "{{index . \"indexed_"
  const CLOSE := "\"}}"
  const NO_VALUE := "<no value>"

  function NameRun(s: string): (n: nat)
    ensures n <= |s| && forall i :: 0 <= i < n ==> IsWord(s[i])
    ensures n < |s| ==> !IsWord(s[n])
  {
    if s == [] || !IsWord(s[0]) then 0 else 1 + NameRun(s[1..])
  }

  /** The length of the name when a placeholder `{name}` stands at the front. */
  function PlaceholderHere(s: string): (n: Option<nat>)
    ensures n.Some? ==> 1 <= n.value && n.value + 2 <= |s| && s[0] == '{' && s[n.value + 1] == '}'
                        && forall i :: 1 <= i <= n.value ==> IsWord(s[i])
  {
    if s != [] && s[0] == '{' && NameRun(s[1..]) >= 1 && NameRun(s[1..]) + 1 < |s| && s[NameRun(s[1..]) + 1] == '}'
    then Some(NameRun(s[1..])) else None
  }

  /** A placeholder stands there exactly when word characters, at least one, stand between braces. */
  lemma PlaceholderExactly(s: string, n: nat)
    ensures PlaceholderHere(s) == Some(n) <==>
            1 <= n && n + 2 <= |s| && s[0] == '{' && s[n + 1] == '}' && forall i :: 1 <= i <= n ==> IsWord(s[i])
  {
    if 1 <= n && n + 2 <= |s| && s[0] == '{' && s[n + 1] == '}' && forall i :: 1 <= i <= n ==> IsWord(s[i]) {
      var m := NameRun(s[1..]);
      assert !IsWord('}');
      assert forall i :: 0 <= i < n ==> s[1..][i] == s[i + 1];
      assert s[1..][n] == '}';
    }
  }

  /** ReplaceAllString with the default placeholder pattern. */
  function Convert(s: string): string
    decreases |s|
  {
    if s == [] then []
    else
      match PlaceholderHere(s)
      case Some(n) => OPEN + (s[1..n + 1] + (CLOSE + Convert(s[n + 2..])))
      case None => [s[0]] + Convert(s[1..])
  }

  // ---------- Go templates: literal text and `index` actions ----------

  datatype Piece = Literal(c: char) | Index(key: string)

  type Template = seq<Piece>

  /** Position of the first double quote. */
  function QuoteAt(s: string): (n: Option<nat>)
    ensures n.Some? ==> n.value < |s| && s[n.value] == '"' && '"' !in s[..n.value]
  {
    if s == [] then None
    else if s[0] == '"' then Some(0)
    else match QuoteAt(s[1..])
      case None => None
      case Some(n) => assert s[..n + 1] == [s[0]] + s[1..][..n]; Some(n + 1)
  }

  predicate StartsWith(s: string, front: string) {
    |front| <= |s| && s[..|front|] == front
  }

  const ACTION := "{{index . \""

  /** An action `{{index . "key"}}` at the front: the length of its key. Keys with escapes
      and all other actions are outside this model and read as a parse error. */
  function ActionHere(s: string): (n: Option<nat>)
    ensures n.Some? ==> |ACTION| + n.value + |CLOSE| <= |s|
  {
    if !StartsWith(s, ACTION) then None
    else
      var rest := s[|ACTION|..];
      match QuoteAt(rest)
      case None => None
      case Some(n) =>
        if StartsWith(rest[n..], CLOSE) && '\\' !in rest[..n] && '\n' !in rest[..n] then Some(n) else None
  }

  /** The text begins with this action. */
  ghost predicate StartsWithAction(s: string, key: string) {
    && '"' !in key && '\\' !in key && '\n' !in key
    && exists rest :: s == ACTION + (key + (CLOSE + rest))
  }

  lemma ActionExactly(s: string, key: string)
    ensures StartsWithAction(s, key) <==> ActionHere(s) == Some(|key|) && s[|ACTION|..|ACTION| + |key|] == key
  {
    if StartsWithAction(s, key) {
      var rest :| s == ACTION + (key + (CLOSE + rest));
      KeyRead(key, rest);
    }
    if ActionHere(s) == Some(|key|) {
      ActionParts(s, |key|);
    }
  }

  lemma ActionParts(s: string, n: nat)
    requires ActionHere(s) == Some(n)
    ensures StartsWithAction(s, s[|ACTION|..|ACTION| + n])
  {
    var after := s[|ACTION|..];
    var key, rest := after[..n], after[n + |CLOSE|..];
    assert s == ACTION + after && after == key + after[n..];
    assert after[n..] == CLOSE + rest by {
      assert after[n..][..|CLOSE|] == CLOSE;
    }
    assert s == ACTION + (key + (CLOSE + rest));
    assert '"' !in key;
  }

  /** Text up to the next `{{` is literal; then an action must follow. */
  function Parse(s: string): Option<Template>
    decreases |s|
  {
    if s == [] then Some([])
    else if StartsWith(s, "{{") then
      match ActionHere(s)
      case None => None
      case Some(n) =>
        match Parse(s[|ACTION| + n + |CLOSE|..])
        case None => None
        case Some(rest) => Some([Index(s[|ACTION|..|ACTION| + n])] + rest)
    else
      match Parse(s[1..])
      case None => None
      case Some(rest) => Some([Literal(s[0])] + rest)
  }

  type Data = map<string, Option<Value>>

  /** What printing the value of a key gives: missing and nil both print as no value. */
  function Shown(data: Data, key: string, show: Value -> string): string {
    if key in data && data[key].Some? then show(data[key].value) else NO_VALUE
  }

  function Execute(t: Template, data: Data, show: Value -> string): string {
    if t == [] then []
    else (match t[0] case Literal(c) => [c] case Index(key) => Shown(data, key, show)) + Execute(t[1..], data, show)
  }

  // ---------- direct reading of placeholders ----------

  function Pieces(s: string): Template
    decreases |s|
  {
    if s == [] then []
    else
      match PlaceholderHere(s)
      case Some(n) => [Index(INDEXED + s[1..n + 1])] + Pieces(s[n + 2..])
      case None => [Literal(s[0])] + Pieces(s[1..])
  }

  /** Every placeholder replaced by the value of its name. */
  function Substitute(s: string, data: Data, show: Value -> string): string
    decreases |s|
  {
    if s == [] then []
    else
      match PlaceholderHere(s)
      case Some(n) => Shown(data, INDEXED + s[1..n + 1], show) + Substitute(s[n + 2..], data, show)
      case None => [s[0]] + Substitute(s[1..], data, show)
  }

  lemma PlaceholderFront(name: string, rest: string)
    requires name != "" && forall c <- name :: IsWord(c)
    ensures var s := "{" + (name + ("}" + rest));
            PlaceholderHere(s) == Some(|name|) && s[1..|name| + 1] == name && s[|name| + 2..] == rest
  {
    var s := "{" + (name + ("}" + rest));
    assert forall i :: 1 <= i <= |name| ==> s[i] == name[i - 1];
    PlaceholderExactly(s, |name|);
    hide PlaceholderHere, IsWord;
    var after := name + ("}" + rest);
    assert s[1..] == after && after[..|name|] == name && after[|name|..] == "}" + rest && ("}" + rest)[1..] == rest;
  }

  lemma SubstituteFront(s: string, n: nat, data: Data, show: Value -> string)
    requires PlaceholderHere(s) == Some(n)
    ensures Substitute(s, data, show) == Shown(data, INDEXED + s[1..n + 1], show) + Substitute(s[n + 2..], data, show)
  {
    hide PlaceholderHere;
  }

  lemma SubstituteText(c: char, s: string, data: Data, show: Value -> string)
    requires c != '{'
    ensures Substitute([c] + s, data, show) == [c] + Substitute(s, data, show)
  {
    assert ([c] + s)[1..] == s && PlaceholderHere([c] + s).None?;
    hide PlaceholderHere;
  }

  function Placeholder(name: string): string {
    "{" + (name + "}")
  }

  lemma SubstitutePlaceholder(name: string, rest: string, data: Data, show: Value -> string)
    requires name != "" && forall c <- name :: IsWord(c)
    ensures Substitute(Placeholder(name) + rest, data, show) ==
            Shown(data, INDEXED + name, show) + Substitute(rest, data, show)
  {
    hide Substitute, PlaceholderHere, IsWord, Shown;
    var s := "{" + (name + ("}" + rest));
    Assoc("{", name + "}", rest);
    Assoc(name, "}", rest);
    PlaceholderFront(name, rest);
    SubstituteFront(s, |name|, data, show);
  }

  /** Text without an opening brace, then anything: the text is kept. */
  lemma {:induction false} SubstituteAfter(text: string, rest: string, data: Data, show: Value -> string)
    requires '{' !in text
    ensures Substitute(text + rest, data, show) == text + Substitute(rest, data, show)
    decreases |text|
  {
    hide Substitute;
    if text == [] {
      assert text + rest == rest && text + Substitute(rest, data, show) == Substitute(rest, data, show);
    } else {
      var c, more := text[0], text[1..];
      assert c in text && text == [c] + more;
      Assoc([c], more, rest);
      SubstituteText(c, more + rest, data, show);
      SubstituteAfter(more, rest, data, show);
      Assoc([c], more, Substitute(rest, data, show));
    }
  }

  /** A placeholder within text is replaced by the value of its name, or by `<no value>`, the
      text before it is kept, and what follows is treated likewise. */
  lemma SubstituteOne(text: string, name: string, rest: string, data: Data, show: Value -> string)
    requires '{' !in text && name != "" && forall c <- name :: IsWord(c)
    ensures var key := INDEXED + name;
            var value := if key in data && data[key].Some? then show(data[key].value) else "<no value>";
            Substitute(text + (Placeholder(name) + rest), data, show) == text + (value + Substitute(rest, data, show))
  {
    SubstituteAfter(text, Placeholder(name) + rest, data, show);
    SubstitutePlaceholder(name, rest, data, show);
    hide Substitute, Placeholder, IsWord;
  }

  lemma {:induction false} SubstituteNone(text: string, data: Data, show: Value -> string)
    requires '{' !in text
    ensures Substitute(text, data, show) == text
    decreases |text|
  {
    if text != [] {
      assert text[0] in text;
      SubstituteNone(text[1..], data, show);
    }
  }

  lemma {:induction false} ExecutePieces(s: string, data: Data, show: Value -> string)
    ensures Execute(Pieces(s), data, show) == Substitute(s, data, show)
    decreases |s|
  {
    hide PlaceholderHere;
    if s != [] {
      match PlaceholderHere(s)
      case Some(n) =>
        ExecutePieces(s[n + 2..], data, show);
        var rest := Pieces(s[n + 2..]);
        assert ([Index(INDEXED + s[1..n + 1])] + rest)[1..] == rest;
      case None =>
        ExecutePieces(s[1..], data, show);
        var rest := Pieces(s[1..]);
        assert ([Literal(s[0])] + rest)[1..] == rest;
    }
  }

  // ---------- conversion then parsing ----------

  /** No `{{` anywhere. */
  predicate Plain(s: string) {
    forall i :: 0 <= i < |s| - 1 ==> !(s[i] == '{' && s[i + 1] == '{')
  }

  lemma {:induction false} QuoteFound(name: string, rest: string)
    requires '"' !in name && rest != [] && rest[0] == '"'
    ensures QuoteAt(name + rest) == Some(|name|)
    decreases |name|
  {
    if name == [] {
      assert name + rest == rest;
    } else {
      assert (name + rest)[1..] == name[1..] + rest;
      QuoteFound(name[1..], rest);
    }
  }

  predicate IsName(name: string) {
    forall c <- name :: IsWord(c)
  }

  lemma Drop(a: string, b: string)
    ensures (a + b)[|a|..] == b && (a + b)[..|a|] == a
  {
  }

  lemma Assoc(a: string, b: string, c: string)
    ensures (a + b) + c == a + (b + c)
  {
  }

  lemma NameIsClean(name: string)
    requires IsName(name)
    ensures '"' !in INDEXED + name && '\\' !in INDEXED + name && '\n' !in INDEXED + name
  {
    assert !IsWord('"') && !IsWord('\\') && !IsWord('\n');
    assert '"' !in INDEXED && '\\' !in INDEXED && '\n' !in INDEXED;
  }

  /** An action on a clean key is read back. */
  lemma KeyRead(key: string, rest: string)
    requires '"' !in key && '\\' !in key && '\n' !in key
    ensures var s := ACTION + (key + (CLOSE + rest));
            && StartsWith(s, "{{") && ActionHere(s) == Some(|key|)
            && s[|ACTION|..|ACTION| + |key|] == key && s[|ACTION| + |key| + |CLOSE|..] == rest
  {
    var after := key + (CLOSE + rest);
    var s := ACTION + after;
    Drop(ACTION, after);
    Drop(key, CLOSE + rest);
    Drop(CLOSE, rest);
    assert s[|ACTION|..|ACTION| + |key|] == s[|ACTION|..][..|key|];
    assert s[|ACTION| + |key| + |CLOSE|..] == s[|ACTION|..][|key|..][|CLOSE|..];
    QuoteFound(key, CLOSE + rest);
    hide QuoteAt;
    assert StartsWith(s, "{{") by {
      assert ACTION[..2] == "{{" && s[..2] == ACTION[..2];
    }
  }

  /** A converted placeholder is read back as the action on its name. */
  lemma ConvertedRead(name: string, rest: string)
    requires IsName(name)
    ensures Parse(OPEN + (name + (CLOSE + rest))) ==
            match Parse(rest)
            case None => None
            case Some(t) => Some([Index(INDEXED + name)] + t)
  {
    var key := INDEXED + name;
    assert OPEN == ACTION + INDEXED;
    Assoc(ACTION, INDEXED, name + (CLOSE + rest));
    Assoc(INDEXED, name, CLOSE + rest);
    NameIsClean(name);
    KeyRead(key, rest);
    hide ActionHere, StartsWith;
  }

  predicate Braced(s: string) {
    s != [] && s[0] == '{'
  }

  lemma ConvertStart(s: string)
    ensures Braced(Convert(s)) <==> Braced(s)
  {
  }

  lemma PlainTail(s: string, k: nat)
    requires k <= |s| && forall i :: 0 <= i < k && i + 1 < |s| ==> s[i] != '{' || s[i + 1] != '{'
    ensures Plain(s) <==> Plain(s[k..])
  {
    var t := s[k..];
    if Plain(t) {
      forall i | 0 <= i < |s| - 1
        ensures !(s[i] == '{' && s[i + 1] == '{')
      {
        assert k <= i ==> s[i] == t[i - k] && s[i + 1] == t[i - k + 1];
      }
    }
    if Plain(s) {
      forall i | 0 <= i < |t| - 1
        ensures !(t[i] == '{' && t[i + 1] == '{')
      {
        assert t[i] == s[i + k] && t[i + 1] == s[i + k + 1];
      }
    }
  }

  predicate IsExact(s: string) {
    Parse(Convert(s)) == Some(Pieces(s))
  }

  /** The conversion means what direct reading of the placeholders means exactly for texts
      without `{{`: elsewhere the converted text is not a template or another one. */
  lemma {:induction false} ConversionIsExact(s: string)
    ensures Parse(Convert(s)) == Some(Pieces(s)) <==> Plain(s)
    decreases |s|
  {
    if s == [] {
      assert Convert(s) == [];
    } else {
      match PlaceholderHere(s)
      case Some(n) =>
        ConversionIsExact(s[n + 2..]);
        ExactAfterPlaceholder(s, n);
      case None =>
        ConversionIsExact(s[1..]);
        if s[0] == '{' && Braced(s[1..]) {
          InexactHere(s);
        } else {
          ExactAfterLiteral(s);
        }
    }
  }

  lemma PlainAfterPlaceholder(s: string, n: nat)
    requires PlaceholderHere(s) == Some(n)
    ensures Plain(s) <==> Plain(s[n + 2..])
  {
    assert forall i :: 1 <= i <= n ==> IsWord(s[i]);
    hide PlaceholderHere, Plain;
    forall i | 0 <= i < n + 2 && i + 1 < |s|
      ensures s[i] != '{' || s[i + 1] != '{'
    {
      assert 1 <= i <= n ==> IsWord(s[i]);
      assert !IsWord('{');
    }
    PlainTail(s, n + 2);
  }

  lemma ConvertPlaceholder(s: string, n: nat)
    requires PlaceholderHere(s) == Some(n)
    ensures Convert(s) == OPEN + (s[1..n + 1] + (CLOSE + Convert(s[n + 2..])))
  {
    hide PlaceholderHere;
  }

  lemma PiecesPlaceholder(s: string, n: nat)
    requires PlaceholderHere(s) == Some(n)
    ensures Pieces(s) == [Index(INDEXED + s[1..n + 1])] + Pieces(s[n + 2..])
  {
    hide PlaceholderHere;
  }

  lemma PlaceholderName(s: string, n: nat)
    requires PlaceholderHere(s) == Some(n)
    ensures IsName(s[1..n + 1])
  {
    assert forall i :: 1 <= i <= n ==> IsWord(s[i]);
    hide PlaceholderHere, IsWord;
  }

  lemma ExactAfterPlaceholder(s: string, n: nat)
    requires PlaceholderHere(s) == Some(n) && (IsExact(s[n + 2..]) <==> Plain(s[n + 2..]))
    ensures IsExact(s) <==> Plain(s)
  {
    hide Parse, PlaceholderHere, Plain, IsWord, Convert, Pieces;
    var name, rest := s[1..n + 1], s[n + 2..];
    PlaceholderName(s, n);
    ConvertPlaceholder(s, n);
    PiecesPlaceholder(s, n);
    ConvertedRead(name, Convert(rest));
    PlainAfterPlaceholder(s, n);
    match Parse(Convert(rest))
    case None =>
    case Some(t) => SameTail(Index(INDEXED + name), t, Pieces(rest));
  }

  lemma SameTail(p: Piece, t: Template, u: Template)
    ensures [p] + t == [p] + u <==> t == u
  {
    assert ([p] + t)[1..] == t && ([p] + u)[1..] == u;
  }

  lemma ExactAfterLiteral(s: string)
    requires s != [] && PlaceholderHere(s) == None && !(s[0] == '{' && Braced(s[1..]))
    requires IsExact(s[1..]) <==> Plain(s[1..])
    ensures IsExact(s) <==> Plain(s)
  {
    hide PlaceholderHere, Parse, Convert, Pieces, Plain, Braced;
    PlainAfterLiteral(s);
    ConvertStart(s[1..]);
    ConvertLiteral(s);
    ParseLiteral(s[0], Convert(s[1..]));
    PiecesLiteral(s);
    match Parse(Convert(s[1..]))
    case None =>
    case Some(t) => SameTail(Literal(s[0]), t, Pieces(s[1..]));
  }

  lemma PlainAfterLiteral(s: string)
    requires s != [] && !(s[0] == '{' && Braced(s[1..]))
    ensures Plain(s) <==> Plain(s[1..])
  {
    PlainTail(s, 1);
  }

  lemma PiecesLiteral(s: string)
    requires s != [] && PlaceholderHere(s) == None
    ensures Pieces(s) == [Literal(s[0])] + Pieces(s[1..])
  {
    hide PlaceholderHere;
  }

  lemma ConvertLiteral(s: string)
    requires s != [] && PlaceholderHere(s) == None
    ensures Convert(s) == [s[0]] + Convert(s[1..])
  {
    hide PlaceholderHere;
  }

  lemma OpenBraces(s: string)
    ensures StartsWith(s, "{{") <==> s != [] && s[0] == '{' && Braced(s[1..])
  {
    if |s| >= 2 {
      assert s[..2] == [s[0], s[1]];
    }
  }

  lemma ParseLiteral(c: char, rest: string)
    requires !(c == '{' && Braced(rest))
    ensures Parse([c] + rest) == match Parse(rest)
                                 case None => None
                                 case Some(t) => Some([Literal(c)] + t)
  {
    hide ActionHere;
    var s := [c] + rest;
    assert s[1..] == rest;
    OpenBraces(s);
    hide StartsWith, Braced;
  }

  lemma InexactHere(s: string)
    requires s != [] && s[0] == '{' && Braced(s[1..])
    ensures PlaceholderHere(s) == None && !IsExact(s) && !Plain(s)
  {
    assert !IsWord('{');
    assert PlaceholderHere(s) == None;
    hide PlaceholderHere, Convert, Pieces;
    ConvertStart(s[1..]);
    ConvertLiteral(s);
    PiecesLiteral(s);
    ParseOpens(Convert(s[1..]));
  }

  lemma ParseOpens(rest: string)
    requires Braced(rest)
    ensures Parse(['{'] + rest) == None || (Parse(['{'] + rest).value != [] && Parse(['{'] + rest).value[0].Index?)
  {
    hide ActionHere;
    var s := ['{'] + rest;
    assert s[1..] == rest;
    OpenBraces(s);
  }

  /** What the stage renders from a text without `{{`. */
  lemma RenderedIsSubstituted(s: string, data: Data, show: Value -> string)
    requires Plain(s)
    ensures Parse(Convert(s)).Some? && Execute(Parse(Convert(s)).value, data, show) == Substitute(s, data, show)
  {
    ConversionIsExact(s);
    ExecutePieces(s, data, show);
  }
}
