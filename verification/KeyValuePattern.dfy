/** The default pattern `(\w+)=(".*?"|\S+)` with the leftmost-first matching of Go's regexp
    package: which alternatives a match may choose, and which one it must. */
module KeyValuePattern {
  import opened Wrappers
  import opened Strings

  /** `\s`: tab, newline, form feed, carriage return, space. */
  predicate IsBlank(c: char) {
    c == '\t' || c == '\n' || c == '\U{000C}' || c == '\r' || c == ' '
  }

  lemma IsBlankExactly(c: char)
    ensures IsBlank(c) <==> c as int in {9, 10, 12, 13, 32}
  {
  }

  const QUOTE := '"'

  /** A match at the front of a text: `text[..key]` is the key, then '=', then the value. */
  datatype Span = Span(key: nat, value: nat)
  {
    function Length(): nat {
      key + 1 + value
    }
  }

  // ---------- what the pattern allows ----------

  predicate AllWord(s: string) {
    forall c <- s :: IsWord(c)
  }

  predicate NoBlank(s: string) {
    forall c <- s :: !IsBlank(c)
  }

  predicate IsQuoted(v: string) {
    |v| >= 2 && v[0] == QUOTE && v[|v| - 1] == QUOTE && '\n' !in v[1..|v| - 1]
  }

  predicate IsBare(v: string) {
    |v| >= 1 && NoBlank(v)
  }

  /** The pattern can match this span of the text. */
  predicate Candidate(text: string, m: Span) {
    && m.Length() <= |text|
    && m.key >= 1 && AllWord(text[..m.key]) && text[m.key] == '='
    && var v := text[m.key + 1..m.Length()]; IsQuoted(v) || IsBare(v)
  }

  /** Backtracking order: longer keys first, then a quoted value, the shortest first, then a
      bare value, the longest first. */
  predicate Prefers(text: string, m: Span, other: Span)
    requires Candidate(text, m) && Candidate(text, other)
  {
    var v, w := text[m.key + 1..m.Length()], text[other.key + 1..other.Length()];
    m.key > other.key ||
    (m.key == other.key &&
     if IsQuoted(v) then !IsQuoted(w) || m.value <= other.value
     else !IsQuoted(w) && m.value >= other.value)
  }

  /** No two matches are preferred to each other. */
  lemma PreferenceIsStrict(text: string, m: Span, other: Span)
    requires Candidate(text, m) && Candidate(text, other)
    requires Prefers(text, m, other) && Prefers(text, other, m)
    ensures m == other
  {
  }

  // ---------- the matcher ----------

  /** Length of the longest front of word characters. */
  function WordRun(text: string): (n: nat)
    ensures n <= |text| && AllWord(text[..n])
    ensures n < |text| ==> !IsWord(text[n])
  {
    if text == [] || !IsWord(text[0]) then 0
    else
      var n := 1 + WordRun(text[1..]);
      assert text[..n] == [text[0]] + text[1..][..n - 1];
      n
  }

  function BareRun(text: string): (n: nat)
    ensures n <= |text| && NoBlank(text[..n])
    ensures n < |text| ==> IsBlank(text[n])
  {
    if text == [] || IsBlank(text[0]) then 0
    else
      var n := 1 + BareRun(text[1..]);
      assert text[..n] == [text[0]] + text[1..][..n - 1];
      n
  }

  /** Position of the first quote, if no newline comes before it. */
  function QuoteIn(text: string): (n: Option<nat>)
    ensures n.Some? ==> n.value < |text| && text[n.value] == QUOTE
                        && forall i :: 0 <= i < n.value ==> text[i] != QUOTE && text[i] != '\n'
    ensures n.None? ==> forall i :: 0 <= i < |text| && text[i] == QUOTE ==> '\n' in text[..i]
  {
    if text == [] || text[0] == '\n' then None
    else if text[0] == QUOTE then Some(0)
    else
      match QuoteIn(text[1..])
      case None =>
        assert forall i :: 1 <= i < |text| ==> text[..i] == [text[0]] + text[1..][..i - 1];
        None
      case Some(n) => Some(n + 1)
  }

  function ValueLength(text: string): (n: nat)
    ensures n <= |text|
  {
    if text != [] && text[0] == QUOTE && QuoteIn(text[1..]).Some? then QuoteIn(text[1..]).value + 2
    else BareRun(text)
  }

  /** The match at the front of the text, if there is one. */
  function MatchHere(text: string): (m: Option<Span>)
    ensures m.Some? ==> m.value.Length() <= |text| && m.value.key >= 1
  {
    var k := WordRun(text);
    if k >= 1 && k < |text| && text[k] == '=' && ValueLength(text[k + 1..]) >= 1 then
      Some(Span(k, ValueLength(text[k + 1..])))
    else None
  }

  // ---------- the matcher makes the preferred choice ----------

  lemma FrontIsWord(text: string, n: nat)
    requires n <= |text| && AllWord(text[..n])
    ensures forall i :: 0 <= i < n ==> IsWord(text[i])
  {
    forall i | 0 <= i < n ensures IsWord(text[i]) {
      assert text[i] == text[..n][i];
    }
  }

  lemma FrontNoBlank(text: string, n: nat)
    requires n <= |text| && NoBlank(text[..n])
    ensures forall i :: 0 <= i < n ==> !IsBlank(text[i])
  {
    forall i | 0 <= i < n ensures !IsBlank(text[i]) {
      assert text[i] == text[..n][i];
    }
  }

  lemma KeyIsForced(text: string, m: Span)
    requires Candidate(text, m)
    ensures m.key == WordRun(text)
  {
    FrontIsWord(text, WordRun(text));
    FrontIsWord(text, m.key);
  }

  lemma ValueIsCandidate(v: string)
    requires ValueLength(v) >= 1
    ensures IsQuoted(v[..ValueLength(v)]) || IsBare(v[..ValueLength(v)])
    ensures IsQuoted(v[..ValueLength(v)]) <==> v[0] == QUOTE && QuoteIn(v[1..]).Some?
  {
    var n := ValueLength(v);
    var w := v[..n];
    if v[0] == QUOTE && QuoteIn(v[1..]).Some? {
      assert w[n - 1] == v[1..][n - 2];
      assert forall i :: 0 <= i < n - 2 ==> w[1..n - 1][i] == v[1..][i];
    }
    if IsQuoted(w) {
      QuotedIsFirst(v, n);
    }
  }

  lemma QuotedIsFirst(v: string, n: nat)
    requires n <= |v| && IsQuoted(v[..n])
    ensures v[0] == QUOTE && QuoteIn(v[1..]).Some? && ValueLength(v) <= n
  {
    var w := v[..n];
    assert v[1..][n - 2] == w[n - 1] == QUOTE;
    assert v[1..][..n - 2] == w[1..n - 1];
  }

  lemma BareIsLongest(v: string, n: nat)
    requires n <= |v| && IsBare(v[..n])
    ensures n <= BareRun(v)
  {
    FrontNoBlank(v, n);
  }

  /** The matcher finds a match exactly when the pattern has one, and then the one that
      leftmost-first matching prefers to all others. */
  lemma LeftmostFirst(text: string)
    ensures MatchHere(text).None? <==> forall m: Span :: !Candidate(text, m)
    ensures MatchHere(text).Some? ==>
              Candidate(text, MatchHere(text).value) &&
              forall m: Span | Candidate(text, m) :: Prefers(text, MatchHere(text).value, m)
  {
    var k := WordRun(text);
    if MatchHere(text).Some? {
      var m := MatchHere(text).value;
      var v := text[k + 1..];
      ValueIsCandidate(v);
      assert text[k + 1..m.Length()] == v[..m.value];
      assert Candidate(text, m);
    }
    forall m: Span | Candidate(text, m)
      ensures MatchHere(text).Some? && Prefers(text, MatchHere(text).value, m)
    {
      CandidateLoses(text, m);
    }
  }

  lemma FrontOfRun(text: string)
    ensures AllWord(text[..WordRun(text)])
  {
  }

  lemma CandidateLoses(text: string, m: Span)
    requires Candidate(text, m)
    ensures MatchHere(text).Some? && Candidate(text, MatchHere(text).value)
    ensures Prefers(text, MatchHere(text).value, m)
  {
    hide IsWord, IsBlank, AllWord, NoBlank, QuoteIn, BareRun, WordRun;
    KeyIsForced(text, m);
    FrontOfRun(text);
    var k := m.key;
    var v := text[k + 1..];
    assert text[k + 1..m.Length()] == v[..m.value];
    if IsQuoted(v[..m.value]) {
      QuotedIsFirst(v, m.value);
    } else {
      BareIsLongest(v, m.value);
    }
    var best := MatchHere(text).value;
    ValueIsCandidate(v);
    assert text[k + 1..best.Length()] == v[..best.value];
  }
}
