/** Characters of names, and trimming of white space as the strings package does it. */
module Strings {
  /** Letters, digits and the underscore. */
  predicate IsWord(c: char) {
    'a' <= c <= 'z' || 'A' <= c <= 'Z' || '0' <= c <= '9' || c == '_'
  }

  /** unicode.IsSpace, which is what TrimSpace removes. */
  predicate IsSpace(c: char) {
    || c == '\t' || c == '\n' || c == '\U{000B}' || c == '\U{000C}' || c == '\r' || c == ' '
    || c == '\U{0085}' || c == '\U{00A0}' || c == '\U{1680}' || '\U{2000}' <= c <= '\U{200A}'
    || c == '\U{2028}' || c == '\U{2029}' || c == '\U{202F}' || c == '\U{205F}' || c == '\U{3000}'
  }

  lemma IsWordExactly(c: char)
    ensures IsWord(c) <==>
            48 <= c as int <= 57 || 65 <= c as int <= 90 || c as int == 95 || 97 <= c as int <= 122
  {
  }

  lemma IsSpaceExactly(c: char)
    ensures IsSpace(c) <==>
            || 9 <= c as int <= 13 || 8192 <= c as int <= 8202
            || c as int in {32, 133, 160, 5760, 8232, 8233, 8239, 8287, 12288}
  {
  }

  /** Trimming takes off white space on both sides, and what is left has none there. */
  lemma TrimSpaceExactly(s: string) returns (left: string, right: string)
    ensures s == left + (TrimSpace(s) + right)
    ensures (forall c <- left :: IsSpace(c)) && (forall c <- right :: IsSpace(c))
    ensures TrimSpace(s) != "" ==> !IsSpace(TrimSpace(s)[0]) && !IsSpace(TrimSpace(s)[|TrimSpace(s)| - 1])
  {
    left := TakenLeft(s);
    right := TakenRight(TrimLeft(s));
    hide IsSpace, TrimRight;
  }

  lemma {:induction false} LeftEnd(s: string) returns (n: nat)
    ensures n <= |s| && s[n..] == TrimLeft(s) && forall i :: 0 <= i < n ==> IsSpace(s[i])
  {
    n := 0;
    if s != [] && IsSpace(s[0]) {
      hide IsSpace;
      n := LeftEnd(s[1..]);
      assert s[1..][n..] == s[n + 1..];
      assert forall i :: 1 <= i < n + 1 ==> s[i] == s[1..][i - 1];
      n := n + 1;
    }
  }

  lemma TakenLeft(s: string) returns (left: string)
    ensures s == left + TrimLeft(s) && forall c <- left :: IsSpace(c)
  {
    hide IsSpace;
    var n := LeftEnd(s);
    left := s[..n];
    assert s == s[..n] + s[n..];
  }

  lemma TakenRight(s: string) returns (right: string)
    ensures s == TrimRight(s) + right && forall c <- right :: IsSpace(c)
  {
    hide IsSpace;
    RightEnd(s);
    right := s[|TrimRight(s)|..];
    assert s == s[..|TrimRight(s)|] + right;
  }

  lemma {:induction false} RightEnd(s: string)
    ensures forall i :: |TrimRight(s)| <= i < |s| ==> IsSpace(s[i])
  {
    if s != [] && IsSpace(s[|s| - 1]) {
      hide IsSpace;
      RightEnd(s[..|s| - 1]);
      assert forall i :: 0 <= i < |s| - 1 ==> s[..|s| - 1][i] == s[i];
    }
  }

  function TrimLeft(s: string): (t: string)
    ensures t != [] ==> !IsSpace(t[0])
    ensures t == [] <==> forall c <- s :: IsSpace(c)
  {
    if s != [] && IsSpace(s[0]) then TrimLeft(s[1..]) else s
  }

  function TrimRight(s: string): (t: string)
    ensures t <= s
    ensures t != [] ==> !IsSpace(t[|t| - 1])
    ensures s != [] && !IsSpace(s[0]) ==> t != []
  {
    if s != [] && IsSpace(s[|s| - 1]) then TrimRight(s[..|s| - 1]) else s
  }

  function TrimSpace(s: string): (t: string)
    ensures t == [] <==> forall c <- s :: IsSpace(c)
  {
    TrimRight(TrimLeft(s))
  }
}
