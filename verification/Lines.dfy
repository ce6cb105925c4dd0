/** Byte strings cut at newline bytes: the reference against which the tailer's
    chunked reading and its count-based resume are judged. */
module Lines {
  newtype byte = b: int | 0 <= b < 256

  const NL: byte := 10
  const CR: byte := 13

  /** One newline-terminated piece of a file, terminator included. */
  predicate IsRawLine(raw: seq<byte>) {
    |raw| > 0 && raw[|raw| - 1] == NL && forall i :: 0 <= i < |raw| - 1 ==> raw[i] != NL
  }

  /** What a line sends of its bytes: `\r\n` is taken off if it ends so, and `\n` otherwise. */
  predicate IsTextOf(text: seq<byte>, raw: seq<byte>) {
    || raw == text + [CR, NL]
    || (raw == text + [NL] && (text == [] || text[|text| - 1] != CR))
  }

  /** The text of a raw line. */
  function Text(raw: seq<byte>): seq<byte>
    requires IsRawLine(raw)
  {
    if |raw| >= 2 && raw[|raw| - 2] == CR then raw[..|raw| - 2] else raw[..|raw| - 1]
  }

  /** Offset just after the first newline, or the length if there is none. */
  function FirstEnd(s: seq<byte>): (n: nat)
    ensures n <= |s|
    ensures NL in s ==> IsRawLine(s[..n])
    ensures NL !in s ==> n == |s|
  {
    if s == [] then 0
    else if s[0] == NL then 1
    else
      var n := 1 + FirstEnd(s[1..]);
      assert s == [s[0]] + s[1..] && s[..n] == [s[0]] + s[1..][..n - 1];
      n
  }

  /** The text of every terminated line, in order. An unterminated rest is not a line. */
  function LinesOf(s: seq<byte>): seq<seq<byte>>
    decreases |s|
  {
    if NL in s then [Text(s[..FirstEnd(s)])] + LinesOf(s[FirstEnd(s)..]) else []
  }

  /** Offset just after the k-th newline, or the length if there are fewer. */
  function LineEnd(s: seq<byte>, k: nat): (n: nat)
    ensures n <= |s|
    decreases k
  {
    if k == 0 then 0
    else if NL in s then FirstEnd(s) + LineEnd(s[FirstEnd(s)..], k - 1)
    else |s|
  }

  /** Empty, or ending in a newline. */
  predicate WholeLines(s: seq<byte>) {
    |s| == 0 || s[|s| - 1] == NL
  }

  function WithoutNewlines(s: seq<byte>): seq<byte> {
    if s == [] then []
    else (if s[0] == NL then [] else [s[0]]) + WithoutNewlines(s[1..])
  }

  function Flatten<T>(parts: seq<seq<T>>): seq<T> {
    if parts == [] then [] else parts[0] + Flatten(parts[1..])
  }

  // ---------- what the functions mean ----------

  lemma TextIs(text: seq<byte>, raw: seq<byte>)
    requires IsRawLine(raw)
    ensures IsTextOf(text, raw) <==> text == Text(raw)
  {
    var n := |raw|;
    assert raw == raw[..n - 1] + [NL];
    if n >= 2 && raw[n - 2] == CR {
      assert raw == raw[..n - 2] + [CR, NL];
    }
    if raw == text + [CR, NL] {
      assert raw[..n - 2] == text;
    } else if raw == text + [NL] {
      assert raw[..n - 1] == text;
    }
  }

  /** These are the terminated lines of a string, one after another, with an unterminated rest. */
  predicate SplitsInto(s: seq<byte>, raws: seq<seq<byte>>, rest: seq<byte>) {
    s == Flatten(raws) + rest && NL !in rest && forall raw <- raws :: IsRawLine(raw)
  }

  /** The texts of these lines, in order. */
  predicate AreTextsOf(texts: seq<seq<byte>>, raws: seq<seq<byte>>) {
    |texts| == |raws| && forall i :: 0 <= i < |raws| ==> IsTextOf(texts[i], raws[i])
  }

  /** Every string is cut at its newlines, and the texts of the pieces are its lines. */
  lemma {:induction false} LinesMeaning(s: seq<byte>) returns (raws: seq<seq<byte>>, rest: seq<byte>)
    ensures SplitsInto(s, raws, rest) && AreTextsOf(LinesOf(s), raws)
    decreases |s|
  {
    raws, rest := [], s;
    if NL in s {
      var n := FirstEnd(s);
      var raw := s[..n];
      raws, rest := LinesMeaning(s[n..]);
      TextIs(Text(raw), raw);
      assert s == raw + s[n..];
      Regroup(raw, Flatten(raws), rest);
      assert ([raw] + raws)[1..] == raws;
      raws := [raw] + raws;
    }
  }

  /** In no other way. */
  lemma {:induction false} LinesUnique(s: seq<byte>, raws: seq<seq<byte>>, rest: seq<byte>)
    requires SplitsInto(s, raws, rest)
    ensures AreTextsOf(LinesOf(s), raws)
    decreases |raws|
  {
    hide LinesOf, IsTextOf, IsRawLine;
    if raws == [] {
      assert s == rest;
      LinesNone(s);
    } else {
      var raw, more := raws[0], Flatten(raws[1..]) + rest;
      assert raw in raws && forall r <- raws[1..] :: r in raws;
      Regroup(raw, Flatten(raws[1..]), rest);
      LinesUnique(more, raws[1..], rest);
      LinesCons(raw, more);
      TextIs(Text(raw), raw);
    }
  }

  // ---------- one raw line at the front ----------

  lemma FirstEndUnique(raw: seq<byte>, rest: seq<byte>)
    requires IsRawLine(raw)
    ensures FirstEnd(raw + rest) == |raw|
  {
    var s := raw + rest;
    assert s[|raw| - 1] == NL;
    var n := FirstEnd(s);
    assert forall i :: 0 <= i < n - 1 ==> s[i] != NL by {
      forall i | 0 <= i < n - 1 ensures s[i] != NL {
        assert s[i] == s[..n][..n - 1][i];
      }
    }
    assert forall i :: 0 <= i < |raw| - 1 ==> s[i] != NL by {
      forall i | 0 <= i < |raw| - 1 ensures s[i] != NL {
        assert s[i] == raw[..|raw| - 1][i];
      }
    }
    assert s[n - 1] == s[..n][n - 1] == NL;
  }

  lemma LinesCons(raw: seq<byte>, rest: seq<byte>)
    requires IsRawLine(raw)
    ensures LinesOf(raw + rest) == [Text(raw)] + LinesOf(rest)
  {
    FirstEndUnique(raw, rest);
    var s := raw + rest;
    assert s[|raw| - 1] == NL;
    assert s[..|raw|] == raw && s[|raw|..] == rest;
  }

  lemma LineEndCons(raw: seq<byte>, rest: seq<byte>, k: nat)
    requires IsRawLine(raw) && k > 0
    ensures LineEnd(raw + rest, k) == |raw| + LineEnd(rest, k - 1)
  {
    FirstEndUnique(raw, rest);
    var s := raw + rest;
    assert s[|raw| - 1] == NL;
    assert s[|raw|..] == rest;
  }

  lemma LinesNone(s: seq<byte>)
    requires NL !in s
    ensures LinesOf(s) == []
  {
  }

  lemma Regroup<T>(a: seq<T>, b: seq<T>, c: seq<T>)
    ensures (a + b) + c == a + (b + c)
  {
  }

  lemma Uncons(a: seq<byte>) returns (raw: seq<byte>, rest: seq<byte>)
    requires a != [] && WholeLines(a)
    ensures a == raw + rest && IsRawLine(raw) && WholeLines(rest) && |rest| < |a|
  {
    assert a[|a| - 1] == NL;
    var n := FirstEnd(a);
    raw, rest := a[..n], a[n..];
  }

  // ---------- concatenation ----------

  /** Splitting distributes over a cut made at a line boundary. */
  lemma {:induction false} LinesAppend(a: seq<byte>, b: seq<byte>)
    requires WholeLines(a)
    ensures LinesOf(a + b) == LinesOf(a) + LinesOf(b)
    decreases |a|
  {
    if a == [] {
      assert a + b == b;
    } else {
      hide FirstEnd, WholeLines;
      var raw, rest := Uncons(a);
      LinesAppend(rest, b);
      LinesConsAppend(raw, rest, b);
    }
  }

  lemma LinesConsAppend(raw: seq<byte>, rest: seq<byte>, b: seq<byte>)
    requires IsRawLine(raw) && LinesOf(rest + b) == LinesOf(rest) + LinesOf(b)
    ensures LinesOf((raw + rest) + b) == LinesOf(raw + rest) + LinesOf(b)
  {
    hide LinesOf, IsRawLine;
    LinesCons(raw, rest);
    LinesCons(raw, rest + b);
    Regroup(raw, rest, b);
    Regroup([Text(raw)], LinesOf(rest), LinesOf(b));
  }

  /** Growing a file never changes the lines it already has. */
  lemma {:induction false} LinesGrow(a: seq<byte>, b: seq<byte>)
    requires a <= b
    ensures LinesOf(a) <= LinesOf(b)
    decreases |a|
  {
    if NL in a {
      var n := FirstEnd(a);
      var raw := a[..n];
      assert a == raw + a[n..] && b == raw + b[n..];
      LinesCons(raw, a[n..]);
      LinesCons(raw, b[n..]);
      LinesGrow(a[n..], b[n..]);
    }
  }

  // ---------- offsets of line boundaries ----------

  /** Cuts off the first k lines; `LineEnd` is where the cut falls. */
  lemma {:induction false} SplitAfter(s: seq<byte>, k: nat) returns (a: seq<byte>, b: seq<byte>)
    requires k <= |LinesOf(s)|
    ensures s == a + b && WholeLines(a) && |LinesOf(a)| == k && LineEnd(s, k) == |a|
    decreases k
  {
    if k == 0 {
      a, b := [], s;
    } else {
      var n := FirstEnd(s);
      var raw, rest := s[..n], s[n..];
      assert s == raw + rest;
      LinesCons(raw, rest);
      LineEndCons(raw, rest, k);
      var a', b' := SplitAfter(rest, k - 1);
      LinesCons(raw, a');
      Regroup(raw, a', b');
      a, b := raw + a', b';
    }
  }

  lemma {:induction false} LineEndBeyond(s: seq<byte>, k: nat)
    requires k > |LinesOf(s)|
    ensures LineEnd(s, k) == |s|
    decreases k
  {
    if NL in s {
      var n := FirstEnd(s);
      var rest := s[n..];
      assert |LinesOf(s)| == 1 + |LinesOf(rest)|;
      LineEndBeyond(rest, k - 1);
    }
  }

  /** What `LineEnd` means: the prefix it cuts is whole lines and holds exactly k of
      them when the string has that many, and is everything otherwise; and what is left
      are the other lines. */
  lemma LineEndMeaning(s: seq<byte>, k: nat)
    ensures k > |LinesOf(s)| ==> LineEnd(s, k) == |s|
    ensures k <= |LinesOf(s)| ==>
              WholeLines(s[..LineEnd(s, k)]) &&
              LinesOf(s[..LineEnd(s, k)]) == LinesOf(s)[..k] &&
              LinesOf(s[LineEnd(s, k)..]) == LinesOf(s)[k..]
  {
    if k > |LinesOf(s)| {
      LineEndBeyond(s, k);
    } else {
      var a, b := SplitAfter(s, k);
      assert s[..|a|] == a && s[|a|..] == b;
      LinesAppend(a, b);
    }
  }

  /** The only whole-line prefix with k lines ends at `LineEnd(s, k)`. */
  lemma {:induction false} LineEndUnique(a: seq<byte>, b: seq<byte>)
    requires WholeLines(a)
    ensures LineEnd(a + b, |LinesOf(a)|) == |a|
    decreases |a|
  {
    if a == [] {
    } else {
      var raw, rest := Uncons(a);
      Regroup(raw, rest, b);
      LinesCons(raw, rest);
      LineEndCons(raw, rest + b, |LinesOf(a)|);
      LineEndUnique(rest, b);
    }
  }

  /** Growth does not move the boundary after a line that is already there. */
  lemma LineEndStable(a: seq<byte>, b: seq<byte>, k: nat)
    requires a <= b && k <= |LinesOf(a)|
    ensures LineEnd(b, k) == LineEnd(a, k)
  {
    var x, y := SplitAfter(a, k);
    var z := b[|a|..];
    assert b == (x + y) + z;
    Regroup(x, y, z);
    LineEndUnique(x, y + z);
  }

  // ---------- counting ----------

  lemma OneNewline(raw: seq<byte>)
    requires IsRawLine(raw)
    ensures multiset(raw)[NL] == 1
  {
    var body := raw[..|raw| - 1];
    assert raw == body + [NL];
    assert NL !in body;
  }

  /** The number of lines is the number of newline bytes. */
  lemma {:induction false} CountNewlines(s: seq<byte>)
    ensures |LinesOf(s)| == multiset(s)[NL]
    decreases |s|
  {
    if NL in s {
      var n := FirstEnd(s);
      var raw, rest := s[..n], s[n..];
      assert s == raw + rest;
      OneNewline(raw);
      CountNewlines(rest);
      assert |LinesOf(s)| == 1 + |LinesOf(rest)|;
    }
  }

  // ---------- removing newlines ----------

  lemma {:induction false} WithoutNewlinesAppend(a: seq<byte>, b: seq<byte>)
    ensures WithoutNewlines(a + b) == WithoutNewlines(a) + WithoutNewlines(b)
    decreases |a|
  {
    if a == [] {
      assert a + b == b;
    } else {
      assert a + b == [a[0]] + (a[1..] + b);
      WithoutNewlinesAppend(a[1..], b);
    }
  }

  lemma {:induction false} WithoutNewlinesNone(s: seq<byte>)
    requires NL !in s
    ensures WithoutNewlines(s) == s
    decreases |s|
  {
    if s != [] {
      WithoutNewlinesNone(s[1..]);
    }
  }

  /** For a line without carriage returns, stripping removes the newline and nothing else. */
  lemma TextWithoutCR(raw: seq<byte>)
    requires IsRawLine(raw) && CR !in raw
    ensures Text(raw) == WithoutNewlines(raw)
  {
    var body := raw[..|raw| - 1];
    assert raw == body + [NL];
    WithoutNewlinesAppend(body, [NL]);
    WithoutNewlinesNone(body);
    assert WithoutNewlines([NL]) == [];
  }

  lemma {:induction false} FlattenAppend<T>(a: seq<seq<T>>, b: seq<seq<T>>)
    ensures Flatten(a + b) == Flatten(a) + Flatten(b)
    decreases |a|
  {
    if a == [] {
      assert a + b == b;
    } else {
      assert a + b == [a[0]] + (a[1..] + b);
      FlattenAppend(a[1..], b);
    }
  }
}
