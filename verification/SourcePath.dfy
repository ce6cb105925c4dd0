/** Where pushed lines are filed: a label value becomes a path below the source root. */
module SourcePath {
  import opened Wrappers
  import opened Strings
  import opened FilePaths

  const DEFAULT_FALLBACK_FILE := "stream.log"

  function Slashed(s: string): (t: string)
    ensures |t| == |s| && '\\' !in t
    ensures forall i :: 0 <= i < |s| ==> t[i] == if s[i] == '\\' then '/' else s[i]
  {
    seq(|s|, i requires 0 <= i < |s| => if s[i] == '\\' then '/' else s[i])
  }

  predicate HasDrive(s: string) {
    |s| >= 2 && ('a' <= s[0] <= 'z' || 'A' <= s[0] <= 'Z') && s[1] == ':'
  }

  function WithoutDrive(s: string): string {
    if HasDrive(s) then s[2..] else s
  }

  function WithoutSlashes(s: string): (t: string)
    ensures t == [] || t[0] != '/'
  {
    if s != [] && s[0] == '/' then WithoutSlashes(s[1..]) else s
  }

  /** The trimmed elements that name something. */
  function SafeParts(parts: seq<string>): (safe: seq<string>)
    requires forall part <- parts :: '/' !in part
    ensures AreNames(safe)
  {
    if parts == [] then []
    else
      var part := TrimSpace(parts[|parts| - 1]);
      TrimKeeps(parts[|parts| - 1]);
      var front := SafeParts(parts[..|parts| - 1]);
      if part == "" || part == "." || part == ".." then front else front + [part]
  }

  lemma {:induction false} TrimKeeps(s: string)
    ensures forall c <- TrimSpace(s) :: c in s
  {
    LeftKeeps(s);
  }

  lemma {:induction false} LeftKeeps(s: string)
    ensures forall c <- TrimLeft(s) :: c in s
  {
    if s != [] && IsSpace(s[0]) {
      LeftKeeps(s[1..]);
    }
  }

  /** The names a raw path stands for. */
  function NamesIn(value: string): (names: seq<string>)
    ensures AreNames(names)
  {
    SafeParts(Split(WithoutSlashes(WithoutDrive(Slashed(TrimSpace(value))))))
  }

  method SanitizeRelativePath(value: string) returns (path: string)
    ensures path == Joined(NamesIn(value)) && (path == "" <==> NamesIn(value) == [])
  {
    var v := TrimSpace(value);
    if v == "" {
      NothingIn();
      return "";
    }
    v := Slashed(v);
    if HasDrive(v) {
      v := v[2..];
    }
    v := WithoutSlashes(v);
    var parts := Split(v);
    var safeParts := [];
    for i := 0 to |parts|
      invariant safeParts == SafeParts(parts[..i])
    {
      assert parts[..i + 1][..i] == parts[..i];
      var part := TrimSpace(parts[i]);
      if part == "" || part == "." || part == ".." {
        continue;
      }
      safeParts := safeParts + [part];
    }
    assert parts[..|parts|] == parts;
    if |safeParts| == 0 {
      return "";
    }
    JoinNames(safeParts);
    path := JoinAll(safeParts);
  }

  /** Join of several elements. */
  function JoinAll(parts: seq<string>): string {
    Clean(Joined(parts))
  }

  lemma NothingIn()
    ensures forall value | TrimSpace(value) == "" :: NamesIn(value) == []
  {
    assert Slashed("") == "" && Split("") == [""] && [""][..0] == [];
    assert TrimSpace("") == "";
    assert SafeParts([""]) == [];
  }

  /** Names joined are already clean. */
  lemma JoinNames(names: seq<string>)
    requires names != [] && AreNames(names)
    ensures JoinAll(names) == Joined(names) && Joined(names) != ""
  {
    assert names[0] in names;
    assert [] + names == names;
    SplitJoined(names);
    var s := Joined(names);
    assert s != "" && s[0] == names[0][0] && names[0][0] in names[0];
    NamesBelow(Cleaned(false, []), names);
    EnterOwn(false, [], names);
  }

  /** Whether the path that leads from the root to the candidate goes up. */
  predicate IsPathEscapingRoot(root: string, candidate: string) {
    var rel := Rel(Read(Clean(root)), Read(Clean(candidate)));
    rel.None? || (rel.value != [] && rel.value[0] == "..")
  }

  /** Everything escapes but the root itself and what lies below it. */
  lemma EscapesExactly(root: string, candidate: string)
    ensures var base, target := Read(root), Read(candidate);
            !IsPathEscapingRoot(root, candidate) <==>
            && base.rooted == target.rooted && base.elements <= target.elements
            && (|base.elements| < |target.elements| ==> target.elements[|base.elements|] != "..")
  {
    CleanIsClean(root);
    CleanIsClean(candidate);
    ReadIsClean(root);
    RelExactly(Read(root), Read(candidate));
  }

  lemma PrefixCons(a: seq<string>, b: seq<string>)
    requires a != [] && b != [] && a[0] == b[0]
    ensures a <= b <==> a[1..] <= b[1..]
  {
    assert a == [a[0]] + a[1..] && b == [b[0]] + b[1..];
  }

  lemma {:induction false} RelExactly(base: Cleaned, target: Cleaned)
    ensures var rel := Rel(base, target);
            rel.Some? && (rel.value == [] || rel.value[0] != "..") <==>
            && base.rooted == target.rooted && base.elements <= target.elements
            && (|base.elements| < |target.elements| ==> target.elements[|base.elements|] != "..")
    decreases |base.elements|
  {
    var b, t := base.elements, target.elements;
    if base.rooted == target.rooted && b != [] && t != [] && b[0] == t[0] {
      RelExactly(base.(elements := b[1..]), target.(elements := t[1..]));
      PrefixCons(b, t);
    } else if base.rooted == target.rooted && b == [] {
      assert seq(0, _ => "..") + t == t;
    }
  }

  /** The first of the two that names something, or the default. */
  function Chosen(candidate: string, fallback: string): (names: seq<string>)
    ensures names != [] && AreNames(names)
  {
    if NamesIn(candidate) != [] then NamesIn(candidate)
    else if NamesIn(fallback) != [] then NamesIn(fallback)
    else [DEFAULT_FALLBACK_FILE]
  }

  function Root(root: string): (cleaned: Cleaned)
    ensures IsClean(cleaned)
  {
    ReadIsClean(TrimSpace(root));
    Read(TrimSpace(root))
  }

  lemma BelowRoot(root: string, names: seq<string>)
    requires names != [] && AreNames(names)
    ensures var cleanRoot, base := Clean(TrimSpace(root)), Root(root);
            var path := Clean(Join(cleanRoot, Joined(names)));
            && cleanRoot != "" && path == Join(cleanRoot, Joined(names))
            && Read(path) == base.(elements := base.elements + names)
            && !IsPathEscapingRoot(cleanRoot, path)
  {
    var cleanRoot, base := Clean(TrimSpace(root)), Root(root);
    assert cleanRoot != "" by {
      ShowNonEmpty(base);
    }
    CleanIsClean(TrimSpace(root));
    ReadJoin(cleanRoot, names);
    var joined := Join(cleanRoot, Joined(names));
    assert names[0] in names && Joined(names) != "";
    CleanIsClean(cleanRoot + ("/" + Joined(names)));
    CleanIsClean(joined);
    CleanIsClean(cleanRoot);
    RelBelow(base, names);
  }

  lemma ShowNonEmpty(p: Cleaned)
    requires IsClean(p)
    ensures Show(p) != ""
  {
    if !p.rooted && p.elements != [] {
      assert p.elements[0] in p.elements;
    }
  }

  /** The path a line is filed under. */
  function PathOf(root: string, candidate: string, fallback: string): (path: string)
    ensures Read(path) == Root(root).(elements := Root(root).elements + Chosen(candidate, fallback))
    ensures path == Clean(path)
  {
    BelowRoot(root, Chosen(candidate, fallback));
    Join(Clean(TrimSpace(root)), Joined(Chosen(candidate, fallback)))
  }

  /** Every source path is the root's elements followed by at least one name, and the
      escape branch is never taken. */
  method SanitizeSourcePath(root: string, candidate: string, fallback: string) returns (path: string, escaped: bool)
    ensures path == PathOf(root, candidate, fallback) && !escaped
  {
    var cleanRoot := Clean(TrimSpace(root));
    if cleanRoot == "" {
      cleanRoot := ".";
    }
    var safeFallback := SanitizeRelativePath(fallback);
    if safeFallback == "" {
      safeFallback := DEFAULT_FALLBACK_FILE;
    }
    var relativePath := SanitizeRelativePath(candidate);
    if relativePath == "" {
      relativePath := safeFallback;
    }
    assert Joined([DEFAULT_FALLBACK_FILE]) == DEFAULT_FALLBACK_FILE;
    BelowRoot(root, Chosen(candidate, fallback));
    hide Clean, Join, Joined, Read;
    var candidatePath := Clean(Join(cleanRoot, relativePath));
    escaped := IsPathEscapingRoot(cleanRoot, candidatePath);
    if escaped {
      return Join(cleanRoot, safeFallback), true;
    }
    return candidatePath, false;
  }

  // ---------- names that come through unchanged ----------

  predicate IsTrimmed(s: string) {
    s != [] ==> !IsSpace(s[0]) && !IsSpace(s[|s| - 1])
  }

  lemma {:induction false} TrimmedStays(s: string)
    requires IsTrimmed(s)
    ensures TrimSpace(s) == s
  {
  }

  lemma {:induction false} SafeStay(names: seq<string>)
    requires AreNames(names) && forall name <- names :: IsTrimmed(name)
    ensures SafeParts(names) == names
  {
    if names != [] {
      var front, last := names[..|names| - 1], names[|names| - 1];
      assert names == front + [last] && last in names;
      SafeStay(front);
      TrimmedStays(last);
    }
  }

  lemma {:induction false} JoinedEnds(names: seq<string>)
    requires names != [] && AreNames(names)
    ensures var s, first, last := Joined(names), names[0], names[|names| - 1];
            && s != "" && first != "" && last != ""
            && s[0] == first[0] && s[|s| - 1] == last[|last| - 1]
  {
    assert names[0] in names && names[|names| - 1] in names;
    if |names| > 1 {
      JoinedEnds(names[1..]);
      var rest := Joined(names[1..]);
      assert Joined(names) == names[0] + ("/" + rest);
      assert names[1..][|names| - 2] == names[|names| - 1];
      hide Joined, IsName;
    }
  }

  lemma {:induction false} JoinedChars(names: seq<string>, c: char)
    requires c != '/' && forall name <- names :: c !in name
    ensures c !in Joined(names)
  {
    if |names| > 1 {
      JoinedChars(names[1..], c);
    }
  }

  /** A relative path of trimmed names without backslashes is kept as it is, unless it
      begins like a drive. */
  lemma SafePathIsKept(names: seq<string>)
    requires names != [] && AreNames(names) && !HasDrive(Joined(names))
    requires forall name <- names :: IsTrimmed(name) && '\\' !in name
    ensures NamesIn(Joined(names)) == names
  {
    var s := Joined(names);
    JoinedEnds(names);
    JoinedChars(names, '\\');
    assert names[0] in names && names[|names| - 1] in names && names[0][0] in names[0];
    TrimmedStays(s);
    assert Slashed(s) == s;
    assert WithoutSlashes(s) == s;
    SplitJoined(names);
    SafeStay(names);
  }

  // ---------- exactly which names a raw path stands for ----------

  /** One element of a raw path: blanks, then nothing, dots or a name, then blanks. */
  datatype Element = Element(left: string, core: string, right: string)

  predicate IsBlank(s: string) {
    forall c <- s :: IsSpace(c)
  }

  predicate IsElement(e: Element) {
    IsBlank(e.left) && IsBlank(e.right) && IsTrimmed(e.core) && '/' !in e.core && '\\' !in e.core
  }

  function Spelled(e: Element): string {
    e.left + (e.core + e.right)
  }

  /** A raw path: its elements, with a slash of either kind between any two. */
  function Woven(elements: seq<Element>, slashes: string): string
    requires |elements| == |slashes| + 1
  {
    if slashes == "" then Spelled(elements[0])
    else Spelled(elements[0]) + ([slashes[0]] + Woven(elements[1..], slashes[1..]))
  }

  /** The elements that name something. */
  function NamesOf(elements: seq<Element>): seq<string> {
    if elements == [] then []
    else (if elements[0].core in {"", ".", ".."} then [] else [elements[0].core]) + NamesOf(elements[1..])
  }

  lemma {:induction false} TrimLeftBlank(left: string, s: string)
    requires IsBlank(left)
    ensures TrimLeft(left + s) == TrimLeft(s)
    decreases |left|
  {
    if left == [] {
      assert left + s == s;
    } else {
      assert (left + s)[1..] == left[1..] + s;
      TrimLeftBlank(left[1..], s);
    }
  }

  lemma {:induction false} TrimRightBlank(s: string, right: string)
    requires IsBlank(right)
    ensures TrimRight(s + right) == TrimRight(s)
    decreases |right|
  {
    if right == [] {
      assert s + right == s;
    } else {
      var front := right[..|right| - 1];
      assert (s + right)[..|s + right| - 1] == s + front;
      TrimRightBlank(s, front);
    }
  }

  lemma {:induction false} TrimLeftOnly(s: string, right: string)
    requires exists c <- s :: !IsSpace(c)
    ensures TrimLeft(s + right) == TrimLeft(s) + right
    decreases |s|
  {
    if IsSpace(s[0]) {
      assert (s + right)[1..] == s[1..] + right;
      assert exists c <- s[1..] :: !IsSpace(c);
      TrimLeftOnly(s[1..], right);
    }
  }

  lemma TrimmedBothSides(left: string, s: string, right: string)
    requires IsBlank(left) && IsBlank(right)
    ensures TrimSpace(left + (s + right)) == TrimSpace(s)
  {
    TrimLeftBlank(left, s + right);
    if exists c <- s :: !IsSpace(c) {
      TrimLeftOnly(s, right);
      TrimRightBlank(TrimLeft(s), right);
    } else {
      assert IsBlank(s + right);
      assert TrimSpace(s + right) == [] == TrimSpace(s);
    }
  }

  lemma SpelledCore(e: Element)
    requires IsElement(e)
    ensures TrimSpace(Spelled(e)) == e.core && '/' !in Spelled(e) && '\\' !in Spelled(e)
  {
    TrimmedBothSides(e.left, e.core, e.right);
    TrimmedStays(e.core);
    assert !IsSpace('/') && !IsSpace('\\');
  }

  /** What one part contributes. */
  function SafePart(part: string): seq<string> {
    if TrimSpace(part) in {"", ".", ".."} then [] else [TrimSpace(part)]
  }

  lemma SafeSnoc(parts: seq<string>, part: string)
    requires '/' !in part && forall p <- parts :: '/' !in p
    ensures SafeParts([]) == [] && SafeParts(parts + [part]) == SafeParts(parts) + SafePart(part)
  {
    hide TrimSpace, AreNames;
    assert (parts + [part])[..|parts|] == parts;
  }

  lemma {:induction false} SafeAppend(a: seq<string>, b: seq<string>)
    requires (forall part <- a :: '/' !in part) && (forall part <- b :: '/' !in part)
    ensures SafeParts(a + b) == SafeParts(a) + SafeParts(b)
    decreases |b|
  {
    hide SafePart, AreNames;
    if b == [] {
      assert a + b == a;
    } else {
      hide SafeParts;
      var front, part := b[..|b| - 1], b[|b| - 1];
      assert b == front + [part] && a + b == (a + front) + [part];
      SafeAppend(a, front);
      SafeSnoc(front, part);
      SafeSnoc(a + front, part);
      assert (SafeParts(a) + SafeParts(front)) + SafePart(part) == SafeParts(a) + (SafeParts(front) + SafePart(part));
    }
  }

  function Spellings(elements: seq<Element>): seq<string> {
    seq(|elements|, i requires 0 <= i < |elements| => Spelled(elements[i]))
  }

  lemma {:induction false} SafeNames(elements: seq<Element>)
    requires forall e <- elements :: IsElement(e)
    ensures |Spellings(elements)| == |elements| && (forall part <- Spellings(elements) :: '/' !in part)
    ensures SafeParts(Spellings(elements)) == NamesOf(elements)
    decreases |elements|
  {
    NamesOfIs(elements);
    hide NamesOf, IsElement, Spelled, SafeParts;
    if elements != [] {
      var e, rest := elements[0], elements[1..];
      assert e in elements && forall x <- rest :: x in elements;
      SpelledCore(e);
      SafeNames(rest);
      assert Spellings(elements) == [Spelled(e)] + Spellings(rest);
      hide Spellings;
      SafeAppend([Spelled(e)], Spellings(rest));
      OneSafe(e);
    }
  }

  lemma NamesOfIs(elements: seq<Element>)
    ensures elements == [] ==> NamesOf(elements) == [] && Spellings(elements) == [] && SafeParts([]) == []
    ensures elements != [] ==>
              NamesOf(elements) ==
              (if elements[0].core in {"", ".", ".."} then [] else [elements[0].core]) + NamesOf(elements[1..])
  {
  }

  lemma OneSafe(e: Element)
    requires '/' !in Spelled(e) && TrimSpace(Spelled(e)) == e.core
    ensures SafeParts([Spelled(e)]) == if e.core in {"", ".", ".."} then [] else [e.core]
  {
    assert [Spelled(e)][..0] == [];
  }

  predicate AreSlashes(s: string) {
    forall c <- s :: c == '/' || c == '\\'
  }

  lemma SlashedAppend(a: string, b: string)
    ensures Slashed(a + b) == Slashed(a) + Slashed(b)
  {
  }

  lemma SlashedPlain(s: string)
    requires '\\' !in s
    ensures Slashed(s) == s
  {
    assert forall i :: 0 <= i < |s| ==> s[i] in s;
  }

  /** With its slashes turned forward, a raw path is its elements joined. */
  lemma {:induction false} SlashedWoven(elements: seq<Element>, slashes: string)
    requires |elements| == |slashes| + 1 && AreSlashes(slashes) && forall e <- elements :: IsElement(e)
    ensures Slashed(Woven(elements, slashes)) == Joined(Spellings(elements))
    decreases |slashes|
  {
    hide IsSpace, TrimSpace;
    var e, parts := elements[0], Spellings(elements);
    assert e in elements;
    SpelledCore(e);
    SlashedPlain(Spelled(e));
    if slashes != "" {
      var rest := Woven(elements[1..], slashes[1..]);
      assert (forall c <- slashes[1..] :: c in slashes) && forall x <- elements[1..] :: x in elements;
      SlashedWoven(elements[1..], slashes[1..]);
      SlashForward(slashes);
      assert parts[1..] == Spellings(elements[1..]);
      hide Spelled, IsElement, Slashed, Spellings;
      SlashedAppend(Spelled(e), [slashes[0]] + rest);
      SlashedAppend([slashes[0]], rest);
    }
  }

  lemma SlashForward(slashes: string)
    requires slashes != "" && AreSlashes(slashes)
    ensures Slashed([slashes[0]]) == "/"
  {
    assert slashes[0] in slashes;
  }

  /** The names between the slashes of a path. */
  function SafeIn(s: string): seq<string> {
    SafeParts(Split(s))
  }

  lemma {:induction false} SafeWithoutSlashes(s: string)
    ensures SafeIn(WithoutSlashes(s)) == SafeIn(s)
  {
    if s != [] && s[0] == '/' {
      SafeWithoutSlashes(s[1..]);
      SafeAppend([""], Split(s[1..]));
      assert SafeParts([""]) == [] by {
        assert [""][..0] == [] && TrimSpace("") == "";
      }
    }
  }

  lemma SafeOfTrimmed(a: string, b: string)
    requires '/' !in a && '/' !in b && TrimSpace(a) == TrimSpace(b)
    ensures SafeParts([a]) == SafeParts([b])
  {
    assert [a][..0] == [] && [b][..0] == [];
  }

  /** Blanks before a path or behind it change nothing. */
  lemma {:induction false} SafeLeft(left: string, s: string)
    requires IsBlank(left)
    ensures SafeIn(left + s) == SafeIn(s)
    decreases |left|
  {
    if left == [] {
      assert left + s == s;
    } else {
      var c, more := left[0], left[1..] + s;
      assert c in left && c != '/';
      assert left + s == [c] + more && ([c] + more)[1..] == more;
      var parts := Split(more);
      assert parts == [parts[0]] + parts[1..] && forall part <- parts[1..] :: part in parts;
      SafeAppend([parts[0]], parts[1..]);
      SafeAppend([[c] + parts[0]], parts[1..]);
      TrimmedBothSides([c], parts[0], "");
      assert parts[0] + "" == parts[0];
      SafeOfTrimmed([c] + parts[0], parts[0]);
      SafeLeft(left[1..], s);
    }
  }

  lemma {:induction false} SplitLast(s: string, c: char)
    requires c != '/'
    ensures Split(s + [c]) == LastWith(Split(s), c)
  {
    if s == [] {
      assert s + [c] == [c] == "" + [c];
      SplitPlain([c]);
    } else {
      assert (s + [c])[0] == s[0] && (s + [c])[1..] == s[1..] + [c];
      SplitLast(s[1..], c);
      var rest := Split(s[1..]);
      LastLonger(s[0], rest, c);
      assert Split(s) == Extended(s[0], rest) && Split(s + [c]) == Extended(s[0], Split(s[1..] + [c]));
    }
  }

  function LastWith(parts: seq<string>, c: char): seq<string>
    requires parts != []
  {
    parts[..|parts| - 1] + [parts[|parts| - 1] + [c]]
  }

  lemma LastLonger(first: char, parts: seq<string>, c: char)
    requires parts != []
    ensures Extended(first, LastWith(parts, c)) == LastWith(Extended(first, parts), c)
  {
    if first != '/' && |parts| == 1 {
      assert [first] + (parts[0] + [c]) == ([first] + parts[0]) + [c];
    }
  }

  lemma {:induction false} SafeRight(s: string, right: string)
    requires IsBlank(right)
    ensures SafeIn(s + right) == SafeIn(s)
    decreases |right|
  {
    if right == [] {
      assert s + right == s;
    } else {
      var front, c := right[..|right| - 1], right[|right| - 1];
      var parts := Split(s + front);
      var last := parts[|parts| - 1];
      assert s + right == (s + front) + [c] && c in right && c != '/';
      SplitLast(s + front, c);
      assert parts == parts[..|parts| - 1] + [last] && last in parts && forall part <- parts[..|parts| - 1] :: part in parts;
      SafeAppend(parts[..|parts| - 1], [last]);
      SafeAppend(parts[..|parts| - 1], [last + [c]]);
      TrimmedBothSides("", last, [c]);
      assert "" + (last + [c]) == last + [c];
      SafeOfTrimmed(last + [c], last);
      SafeRight(s, front);
    }
  }

  lemma HasDriveStill(s: string)
    ensures HasDrive(Slashed(s)) <==> HasDrive(s)
  {
  }

  lemma SlashedBlank(s: string)
    requires IsBlank(s)
    ensures Slashed(s) == s
  {
    assert !IsSpace('\\');
    SlashedPlain(s);
  }

  /** Trimming a raw path does not change its names. */
  lemma SafeTrimmedRight(s: string)
    ensures SafeIn(Slashed(TrimRight(s))) == SafeIn(Slashed(s))
  {
    var right := TakenRight(s);
    SlashedAppend(TrimRight(s), right);
    SlashedBlank(right);
    SafeRight(Slashed(TrimRight(s)), right);
  }

  lemma SafeTrimmed(s: string)
    ensures SafeIn(Slashed(TrimSpace(s))) == SafeIn(Slashed(s))
  {
    var left := TakenLeft(s);
    SafeTrimmedRight(TrimLeft(s));
    SlashedAppend(left, TrimLeft(s));
    SlashedBlank(left);
    SafeLeft(left, Slashed(TrimLeft(s)));
  }

  /** A letter and a colon. */
  predicate IsDrive(drive: string) {
    |drive| == 2 && drive[1] == ':' && (65 <= drive[0] as int <= 90 || 97 <= drive[0] as int <= 122)
  }

  lemma HasDriveExactly(s: string)
    ensures HasDrive(s) <==> |s| >= 2 && IsDrive(s[..2])
  {
  }

  /** No drive stands before this path. */
  predicate IsWithoutDrive(s: string) {
    |TrimSpace(s)| >= 2 ==> !IsDrive(TrimSpace(s)[..2])
  }

  lemma NothingToTrim(s: string)
    requires s != []
    ensures !IsSpace(s[0]) ==> TrimLeft(s) == s
    ensures !IsSpace(s[|s| - 1]) ==> TrimRight(s) == s
  {
  }

  lemma TrimRightAfter(drive: string, kept: string, right: string)
    requires drive != [] && !IsSpace(drive[|drive| - 1]) && IsBlank(right)
    requires kept != [] ==> !IsSpace(kept[|kept| - 1])
    ensures TrimRight(drive + (kept + right)) == drive + kept
  {
    var all := drive + kept;
    assert drive + (kept + right) == all + right;
    assert all[|all| - 1] == if kept == [] then drive[|drive| - 1] else kept[|kept| - 1];
    NothingToTrim(all);
    TrimRightBlank(all, right);
  }

  /** Behind a drive only blanks at the end are trimmed. */
  lemma TrimmedDrive(left: string, drive: string, s: string)
    requires IsBlank(left) && IsDrive(drive)
    ensures TrimSpace(left + (drive + s)) == drive + TrimRight(s)
  {
    var right := TakenRight(s);
    assert !IsSpace(drive[0]) && !IsSpace(drive[1]);
    hide IsSpace, TrimLeft, TrimRight, IsDrive;
    TrimLeftBlank(left, drive + s);
    NothingToTrim(drive + s);
    assert (drive + s)[0] == drive[0];
    TrimRightAfter(drive, TrimRight(s), right);
  }

  lemma DriveTakenOff(drive: string, s: string)
    requires IsDrive(drive)
    ensures WithoutDrive(Slashed(drive + s)) == Slashed(s)
  {
    SlashedAppend(drive, s);
    assert Slashed(drive) == drive;
    assert (drive + Slashed(s))[2..] == Slashed(s);
  }

  /** The names a raw path stands for, exactly: whatever its slashes, a drive before it, and the
      blanks, empty elements and dots among its names, they are its names in order. */
  lemma NamesAreExactly(left: string, drive: string, elements: seq<Element>, slashes: string)
    requires IsBlank(left) && |elements| == |slashes| + 1 && AreSlashes(slashes)
    requires forall e <- elements :: IsElement(e)
    requires if drive == "" then IsWithoutDrive(Woven(elements, slashes)) else IsDrive(drive)
    ensures NamesIn(left + (drive + Woven(elements, slashes))) == NamesOf(elements)
  {
    hide Woven, HasDrive, TrimSpace, TrimRight, SafeParts, Split, WithoutSlashes, NamesOf, Joined, Spellings, IsElement;
    var s := Woven(elements, slashes);
    SlashedWoven(elements, slashes);
    SafeNames(elements);
    SplitJoined(Spellings(elements));
    if drive == "" {
      assert drive + s == s && s + "" == s;
      TrimmedBothSides(left, s, "");
      HasDriveStill(TrimSpace(s));
      HasDriveExactly(TrimSpace(s));
      SafeTrimmed(s);
      SafeWithoutSlashes(Slashed(TrimSpace(s)));
    } else {
      TrimmedDrive(left, drive, s);
      DriveTakenOff(drive, TrimRight(s));
      SafeTrimmedRight(s);
      SafeWithoutSlashes(Slashed(TrimRight(s)));
    }
  }

  /** So a line is filed below the root by exactly these names, if there are any. */
  lemma FiledExactly(root: string, left: string, drive: string, elements: seq<Element>, slashes: string, fallback: string)
    requires IsBlank(left) && |elements| == |slashes| + 1 && AreSlashes(slashes)
    requires forall e <- elements :: IsElement(e)
    requires if drive == "" then IsWithoutDrive(Woven(elements, slashes)) else IsDrive(drive)
    requires NamesOf(elements) != []
    ensures var path := PathOf(root, left + (drive + Woven(elements, slashes)), fallback);
            Read(path) == Root(root).(elements := Root(root).elements + NamesOf(elements))
  {
    hide Woven, IsDrive, IsWithoutDrive, TrimSpace, NamesOf, Read, Root, NamesIn;
    NamesAreExactly(left, drive, elements, slashes);
  }

  /** By the fallback's names if the path has none, and by the default name if that has none. */
  lemma FiledByFallback(root: string, elements: seq<Element>, slashes: string, elements': seq<Element>, slashes': string)
    requires |elements| == |slashes| + 1 && AreSlashes(slashes) && forall e <- elements :: IsElement(e)
    requires |elements'| == |slashes'| + 1 && AreSlashes(slashes') && forall e <- elements' :: IsElement(e)
    requires IsWithoutDrive(Woven(elements, slashes)) && IsWithoutDrive(Woven(elements', slashes'))
    requires NamesOf(elements) == []
    ensures var path, names := PathOf(root, Woven(elements, slashes), Woven(elements', slashes')), NamesOf(elements');
            Read(path) ==
            Root(root).(elements := Root(root).elements + if names != [] then names else ["stream.log"])
  {
    NoneBefore(Woven(elements, slashes));
    NoneBefore(Woven(elements', slashes'));
    NamesAreExactly("", "", elements, slashes);
    NamesAreExactly("", "", elements', slashes');
    hide Woven, NamesOf, Read, Root, NamesIn;
  }

  lemma NoneBefore(s: string)
    ensures "" + ("" + s) == s
  {
  }

  function Plain(names: seq<string>): seq<Element> {
    seq(|names|, i requires 0 <= i < |names| => Element("", names[i], ""))
  }

  lemma {:induction false} PlainNames(names: seq<string>)
    requires AreNames(names)
    ensures NamesOf(Plain(names)) == names
  {
    if names != [] {
      assert names[0] in names && forall name <- names[1..] :: name in names;
      assert Plain(names)[1..] == Plain(names[1..]);
      PlainNames(names[1..]);
    }
  }

  lemma {:induction false} PlainWoven(names: seq<string>)
    requires names != []
    ensures Woven(Plain(names), seq(|names| - 1, _ => '/')) == Joined(names)
  {
    var slashes: string := seq(|names| - 1, _ => '/');
    assert Spelled(Plain(names)[0]) == names[0];
    if |names| > 1 {
      PlainWoven(names[1..]);
      assert Plain(names)[1..] == Plain(names[1..]);
      assert slashes[1..] == seq(|names| - 2, _ => '/');
      assert [slashes[0]] == "/";
    }
  }

  /** An absolute path is filed below the root by its own names. */
  lemma AbsolutePathIsFiled(root: string, names: seq<string>, fallback: string)
    requires names != [] && AreNames(names) && forall name <- names :: IsTrimmed(name) && '\\' !in name
    ensures Read(PathOf(root, "/" + Joined(names), fallback)) == Root(root).(elements := Root(root).elements + names)
  {
    var blank := Element("", "", "");
    var elements, slashes: string := [blank] + Plain(names), ['/'] + seq(|names| - 1, _ => '/');
    var s := "/" + Joined(names);
    AbsoluteWoven(names, elements, slashes);
    AbsoluteNames(names);
    PlainElements(names);
    RootedHasNoDrive(Joined(names));
    assert AreSlashes(slashes);
    assert "" + ("" + s) == s;
    hide Plain, Woven, NamesOf, IsElement, Joined, IsWithoutDrive, TrimSpace, Read, Root, AreSlashes, AreNames;
    FiledExactly(root, "", "", elements, slashes, fallback);
  }

  lemma AbsoluteWoven(names: seq<string>, elements: seq<Element>, slashes: string)
    requires names != [] && elements == [Element("", "", "")] + Plain(names) && slashes == ['/'] + seq(|names| - 1, _ => '/')
    ensures |elements| == |slashes| + 1 && Woven(elements, slashes) == "/" + Joined(names)
  {
    PlainWoven(names);
    assert elements[1..] == Plain(names) && slashes[1..] == seq(|names| - 1, _ => '/');
    assert Spelled(elements[0]) == "";
    assert [slashes[0]] == "/";
  }

  lemma AbsoluteNames(names: seq<string>)
    requires AreNames(names)
    ensures NamesOf([Element("", "", "")] + Plain(names)) == names
  {
    PlainNames(names);
    assert ([Element("", "", "")] + Plain(names))[1..] == Plain(names);
  }

  lemma PlainElements(names: seq<string>)
    requires AreNames(names) && forall name <- names :: IsTrimmed(name) && '\\' !in name
    ensures forall e <- [Element("", "", "")] + Plain(names) :: IsElement(e)
  {
    forall e <- Plain(names)
      ensures IsElement(e)
    {
      var i :| 0 <= i < |names| && Plain(names)[i] == e;
      assert names[i] in names;
    }
  }

  lemma RootedHasNoDrive(s: string)
    ensures IsWithoutDrive("/" + s)
  {
    assert !IsSpace('/') && TrimLeft("/" + s) == "/" + s && TrimRight("/" + s) <= "/" + s;
  }
}
