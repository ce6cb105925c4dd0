/** Slash-separated paths and the documented rules of filepath.Clean, Join and Rel. */
module FilePaths {
  import opened Wrappers

  /** Elements between slashes; one more than there are slashes. */
  function Split(s: string): (parts: seq<string>)
    ensures parts != [] && forall part <- parts :: '/' !in part
  {
    if s == [] then [""]
    else
      var rest := Split(s[1..]);
      assert forall part <- rest[1..] :: part in rest;
      if s[0] == '/' then [""] + rest else [[s[0]] + rest[0]] + rest[1..]
  }

  function Joined(parts: seq<string>): string {
    if parts == [] then ""
    else if |parts| == 1 then parts[0]
    else parts[0] + ("/" + Joined(parts[1..]))
  }

  /** A proper element of a cleaned path, other than a leading `..`. */
  predicate IsName(part: string) {
    part != "" && part != "." && part != ".." && '/' !in part
  }

  datatype Cleaned = Cleaned(rooted: bool, elements: seq<string>)

  /** Elements after cleaning: `..` only at the front, and only in a relative path. */
  predicate IsClean(p: Cleaned) {
    && (forall part <- p.elements :: part == ".." || IsName(part))
    && (forall i :: 0 <= i < |p.elements| && p.elements[i] == ".." ==>
          !p.rooted && forall j :: 0 <= j < i ==> p.elements[j] == "..")
  }

  /** One element applied to a cleaned path. */
  function Enter(p: Cleaned, part: string): Cleaned {
    if part == "" || part == "." then p
    else if part == ".." then
      if p.elements != [] && p.elements[|p.elements| - 1] != ".." then p.(elements := p.elements[..|p.elements| - 1])
      else if p.rooted then p
      else p.(elements := p.elements + [".."])
    else p.(elements := p.elements + [part])
  }

  function EnterAll(p: Cleaned, parts: seq<string>): Cleaned
    decreases |parts|
  {
    if parts == [] then p else EnterAll(Enter(p, parts[0]), parts[1..])
  }

  /** What a path names, lexically. */
  function Read(s: string): Cleaned {
    EnterAll(Cleaned(s != "" && s[0] == '/', []), Split(s))
  }

  function Show(p: Cleaned): string {
    if p.rooted then "/" + Joined(p.elements)
    else if p.elements == [] then "."
    else Joined(p.elements)
  }

  function Clean(s: string): string {
    Show(Read(s))
  }

  /** Join of a non-empty path and further elements: ignores empty elements, then cleans. */
  function Join(first: string, rest: string): string {
    if first == "" && rest == "" then ""
    else if first == "" then Clean(rest)
    else if rest == "" then Clean(first)
    else Clean(first + ("/" + rest))
  }

  /** Elements leading from one cleaned path to another, or none if there is no such path. */
  function Rel(base: Cleaned, target: Cleaned): Option<seq<string>>
    decreases |base.elements|
  {
    if base.rooted != target.rooted then None
    else if base.elements != [] && target.elements != [] && base.elements[0] == target.elements[0] then
      Rel(base.(elements := base.elements[1..]), target.(elements := target.elements[1..]))
    else if base.elements != [] && base.elements[0] == ".." then None
    else Some(seq(|base.elements|, _ => "..") + target.elements)
  }

  // ---------- empty elements, dots and names ----------

  /** A slash at the end, a dot, and a name that is left again change nothing. */
  lemma DotsAndEmpty(s: string, name: string)
    requires s != "" && IsName(name)
    ensures Read(s + ("/" + "")) == Read(s + ("/" + ".")) == Read(s)
    ensures Read(s + ("/" + (name + ("/" + "..")))) == Read(s)
  {
    var start := Cleaned(s[0] == '/', []);
    SplitSlash(s, "");
    SplitSlash(s, ".");
    SplitSlash(s, name + ("/" + ".."));
    SplitSlash(name, "..");
    SplitPlain("");
    SplitPlain(".");
    SplitPlain("..");
    SplitPlain(name);
    hide Split;
    EnterAllConcat(start, Split(s), [""]);
    EnterAllConcat(start, Split(s), ["."]);
    EnterAllConcat(start, Split(s), [name] + [".."]);
    var p := EnterAll(start, Split(s));
    ReadIsClean(s);
    assert p == Read(s);
    UpAgain(p, name);
  }

  lemma UpAgain(p: Cleaned, name: string)
    requires IsName(name)
    ensures EnterAll(p, [""]) == EnterAll(p, ["."]) == EnterAll(p, [name] + [".."]) == p
  {
    var q := Enter(p, name);
    assert q.elements[..|q.elements| - 1] == p.elements;
    assert ([name] + [".."])[1..] == [".."] && [".."][1..] == [];
    assert [""][1..] == [] && ["."][1..] == [];
  }

  /** Going up from the root stays there; from elsewhere it is kept. */
  lemma UpFromNothing(s: string)
    requires s != "" && Read(s).elements == []
    ensures Read(s + ("/" + "..")) == if s[0] == '/' then Read(s) else Cleaned(false, [".."])
  {
    ReadIsClean(s);
    SplitSlash(s, "..");
    SplitPlain("..");
    EnterAllConcat(Cleaned(s[0] == '/', []), Split(s), [".."]);
    assert [".."][1..] == [] && [] + [".."] == [".."];
  }

  /** Join ignores what is empty. */
  lemma JoinIgnoresEmpty(s: string)
    requires s != ""
    ensures Join(s, "") == Join("", s) == Clean(s) && Join("", "") == ""
  {
  }

  // ---------- splitting and joining ----------

  lemma {:induction false} SplitPlain(part: string)
    requires '/' !in part
    ensures Split(part) == [part]
  {
    if part != [] {
      SplitPlain(part[1..]);
      assert part[0] in part;
      assert part == [part[0]] + part[1..];
    }
  }

  lemma {:induction false} SplitSlash(a: string, b: string)
    ensures Split(a + ("/" + b)) == Split(a) + Split(b)
    decreases |a|
  {
    var s := a + ("/" + b);
    if a == [] {
      assert s == "/" + b && s[1..] == b;
    } else {
      assert s[0] == a[0] && s[1..] == a[1..] + ("/" + b);
      SplitSlash(a[1..], b);
      Extend(a[0], Split(a[1..]), Split(b));
      assert Split(a) == Extended(a[0], Split(a[1..])) && Split(s) == Extended(a[0], Split(s[1..]));
    }
  }

  function Extended(c: char, parts: seq<string>): seq<string>
    requires parts != []
  {
    if c == '/' then [""] + parts else [[c] + parts[0]] + parts[1..]
  }

  lemma Extend(c: char, parts: seq<string>, more: seq<string>)
    requires parts != []
    ensures Extended(c, parts + more) == Extended(c, parts) + more
  {
  }

  lemma {:induction false} SplitJoined(parts: seq<string>)
    requires parts != [] && forall part <- parts :: '/' !in part
    ensures Split(Joined(parts)) == parts
    decreases |parts|
  {
    SplitPlain(parts[0]);
    if |parts| > 1 {
      SplitSlash(parts[0], Joined(parts[1..]));
      SplitJoined(parts[1..]);
    }
  }

  // ---------- cleaning ----------

  lemma {:induction false} EnterAllConcat(p: Cleaned, a: seq<string>, b: seq<string>)
    ensures EnterAll(p, a + b) == EnterAll(EnterAll(p, a), b)
    decreases |a|
  {
    if a == [] {
      assert a + b == b;
    } else {
      assert (a + b)[1..] == a[1..] + b;
      EnterAllConcat(Enter(p, a[0]), a[1..], b);
    }
  }

  lemma EnterClean(p: Cleaned, part: string)
    requires IsClean(p) && '/' !in part
    ensures IsClean(Enter(p, part)) && Enter(p, part).rooted == p.rooted
  {
  }

  lemma {:induction false} EnterAllClean(p: Cleaned, parts: seq<string>)
    requires IsClean(p) && forall part <- parts :: '/' !in part
    ensures IsClean(EnterAll(p, parts)) && EnterAll(p, parts).rooted == p.rooted
    decreases |parts|
  {
    if parts != [] {
      EnterClean(p, parts[0]);
      EnterAllClean(Enter(p, parts[0]), parts[1..]);
    }
  }

  lemma ReadIsClean(s: string)
    ensures IsClean(Read(s)) && (Read(s).rooted <==> s != "" && s[0] == '/')
  {
    EnterAllClean(Cleaned(s != "" && s[0] == '/', []), Split(s));
  }

  /** Entering names, or the elements of a clean path from its start, appends them. */
  lemma {:induction false} EnterOwn(rooted: bool, front: seq<string>, rest: seq<string>)
    requires IsClean(Cleaned(rooted, front + rest))
    ensures EnterAll(Cleaned(rooted, front), rest) == Cleaned(rooted, front + rest)
    decreases |rest|
  {
    if rest == [] {
      assert front + rest == front;
    } else {
      var part := rest[0];
      assert (front + rest)[|front|] == part;
      assert front + [part] + rest[1..] == front + rest;
      assert part in front + rest;
      assert front != [] ==> (front + rest)[|front| - 1] == front[|front| - 1];
      EnterOwn(rooted, front + [part], rest[1..]);
    }
  }

  lemma ReadRooted(elements: seq<string>)
    requires IsClean(Cleaned(true, elements))
    ensures Read("/" + Joined(elements)) == Cleaned(true, elements)
  {
    hide Split, Joined, Enter;
    var start, s := Cleaned(true, []), "/" + Joined(elements);
    assert s == "" + ("/" + Joined(elements));
    SplitSlash("", Joined(elements));
    SplitPlain("");
    SkipEmpty(start, Split(Joined(elements)));
    if elements == [] {
      assert Joined([]) == "" by {
        JoinedNone();
      }
      SkipEmpty(start, []);
    } else {
      SplitJoined(elements);
      assert [] + elements == elements;
      EnterOwn(true, [], elements);
    }
  }

  lemma JoinedNone()
    ensures Joined([]) == ""
  {
  }

  lemma SkipEmpty(p: Cleaned, parts: seq<string>)
    ensures EnterAll(p, [""] + parts) == EnterAll(p, parts)
  {
    assert ([""] + parts)[1..] == parts;
  }

  lemma ReadRelative(elements: seq<string>)
    requires elements != [] && IsClean(Cleaned(false, elements))
    ensures Read(Joined(elements)) == Cleaned(false, elements)
  {
    SplitJoined(elements);
    assert elements[0] in elements && elements[0][0] in elements[0];
    assert Joined(elements) != "" && Joined(elements)[0] == elements[0][0];
    hide Split, Joined, Enter;
    assert [] + elements == elements;
    EnterOwn(false, [], elements);
  }

  /** A cleaned path is read back as what it was shown from. */
  lemma ReadShow(p: Cleaned)
    requires IsClean(p)
    ensures Read(Show(p)) == p
  {
    if p.rooted {
      ReadRooted(p.elements);
    } else if p.elements == [] {
      SplitPlain(".");
      assert EnterAll(Cleaned(false, []), ["."]) == Cleaned(false, []);
    } else {
      ReadRelative(p.elements);
    }
  }

  /** Cleaning is idempotent. */
  lemma CleanIsClean(s: string)
    ensures Read(Clean(s)) == Read(s) && Clean(Clean(s)) == Clean(s)
  {
    ReadIsClean(s);
    ReadShow(Read(s));
  }

  predicate AreNames(parts: seq<string>) {
    forall part <- parts :: IsName(part)
  }

  lemma NamesBelow(p: Cleaned, names: seq<string>)
    requires IsClean(p) && AreNames(names)
    ensures IsClean(p.(elements := p.elements + names))
  {
    var all := p.elements + names;
    assert forall k :: |p.elements| <= k < |all| ==> all[k] == names[k - |p.elements|] && all[k] in names;
    forall i | 0 <= i < |all| && all[i] == ".."
      ensures !p.rooted && forall j :: 0 <= j < i ==> all[j] == ".."
    {
      assert i < |p.elements|;
      assert forall j :: 0 <= j <= i ==> all[j] == p.elements[j];
    }
  }

  /** Joining names below a path. */
  lemma ReadJoin(first: string, names: seq<string>)
    requires first != "" && names != [] && AreNames(names)
    ensures var p := Read(first);
            Read(Join(first, Joined(names))) == p.(elements := p.elements + names)
  {
    var p := Read(first);
    ReadIsClean(first);
    assert names[0] in names && Joined(names) != "";
    var s := first + ("/" + Joined(names));
    CleanIsClean(s);
    SplitSlash(first, Joined(names));
    SplitJoined(names);
    EnterAllConcat(Cleaned(first[0] == '/', []), Split(first), names);
    NamesBelow(p, names);
    EnterOwn(p.rooted, p.elements, names);
  }

  /** Names below a clean base are what leads from it to the target. */
  lemma {:induction false} RelBelow(base: Cleaned, names: seq<string>)
    ensures Rel(base, base.(elements := base.elements + names)) == Some(names)
    decreases |base.elements|
  {
    var target := base.(elements := base.elements + names);
    if base.elements == [] {
      assert target.elements == names;
      assert seq(0, _ => "..") + names == names;
    } else {
      assert target.elements[1..] == base.elements[1..] + names;
      RelBelow(base.(elements := base.elements[1..]), names);
    }
  }
}
