/**
 * Absolute build labels such as `//pkg:name` or `@repo//pkg:name`, the keys of
 * Starlark-defined settings. Only the explicit-name spelling is modelled, so
 * parsing and printing are inverse bijections between well-formed labels and
 * the strings that parse.
 */
module Labels {
  import opened Wrappers

  datatype PackageId = PackageId(repo: string, pkg: string)

  datatype Label = Label(repo: string, pkg: string, name: string) {
    function PackageIdentifier(): PackageId { PackageId(repo, pkg) }
  }

  predicate WellFormed(l: Label) {
    l.name != [] && ':' !in l.pkg && '/' !in l.repo
  }

  function ToString(l: Label): string {
    (if l.repo == [] then "" else "@" + l.repo) + "//" + l.pkg + ":" + l.name
  }

  /** Index of the first occurrence of `c` in `s`, or |s| if there is none. */
  function IndexOfChar(s: string, c: char): (k: nat)
    ensures k <= |s|
    ensures k < |s| ==> s[k] == c
    ensures forall i :: 0 <= i < k ==> s[i] != c
  {
    if s == [] then 0
    else if s[0] == c then 0
    else 1 + IndexOfChar(s[1..], c)
  }

  /** Index of the first "//" in `s`, or |s| if there is none. */
  function IndexOfDoubleSlash(s: string): (k: nat)
    ensures k <= |s|
    ensures k < |s| ==> k + 1 < |s| && s[k] == '/' && s[k + 1] == '/'
    ensures forall i :: 0 <= i < k && i + 1 < |s| ==> !(s[i] == '/' && s[i + 1] == '/')
  {
    if |s| < 2 then |s|
    else if s[0] == '/' && s[1] == '/' then 0
    else 1 + IndexOfDoubleSlash(s[1..])
  }

  /** The part after "//": a package, a colon and a non-empty target name. */
  function ParseTail(repo: string, t: string): (r: Option<Label>)
    ensures r.Some? ==> r.value.repo == repo && ':' !in r.value.pkg && r.value.name != []
    ensures r.Some? ==> t == r.value.pkg + ":" + r.value.name
  {
    var c := IndexOfChar(t, ':');
    if c == |t| || c + 1 == |t| then None
    else
      assert t == t[..c] + ":" + t[c + 1..];
      Some(Label(repo, t[..c], t[c + 1..]))
  }

  /** A printed label is its repository part, `//` and the part ParseTail reads. */
  lemma PrintedForm(l: Label)
    ensures ToString(l) == (if l.repo == [] then "" else "@" + l.repo) + "//" + (l.pkg + ":" + l.name)
  {
  }

  lemma SplitRepository(s: string, k: nat)
    requires k + 3 <= |s| && s[0] == '@' && s[k + 1] == '/' && s[k + 2] == '/'
    ensures s == "@" + s[1..k + 1] + "//" + s[k + 3..]
  {
    assert s == s[..1] + s[1..k + 1] + s[k + 1..k + 3] + s[k + 3..];
  }

  lemma SplitMainRepository(s: string)
    requires |s| >= 2 && s[0] == '/' && s[1] == '/'
    ensures s == "//" + s[2..]
  {
    assert s == s[..2] + s[2..];
  }

  /** The form `@repo//pkg:name`; `s` starts with '@'. */
  function ParseRepository(s: string): (r: Option<Label>)
    requires |s| >= 1 && s[0] == '@'
    ensures r.Some? ==> WellFormed(r.value) && r.value.repo != [] && ToString(r.value) == s
  {
    var k := IndexOfDoubleSlash(s[1..]);
    if k == |s| - 1 then None
    else
      var repo := s[1..1 + k];
      if repo == [] || '/' in repo then None
      else
        var r := ParseTail(repo, s[k + 3..]);
        if r.None? then None
        else
          assert s[1..][k] == s[k + 1] && s[1..][k + 1] == s[k + 2];
          SplitRepository(s, k);
          PrintedForm(r.value);
          r
  }

  /** Parses an absolute label; a malformed string (such as "@@@") gives None. */
  function ParseLabel(s: string): (r: Option<Label>)
    ensures r.Some? ==> WellFormed(r.value) && ToString(r.value) == s
  {
    if |s| >= 2 && s[0] == '/' && s[1] == '/' then
      var r := ParseTail("", s[2..]);
      if r.None? then None
      else
        SplitMainRepository(s);
        PrintedForm(r.value);
        r
    else if |s| >= 1 && s[0] == '@' then ParseRepository(s)
    else None
  }

  lemma {:induction false} IndexOfCharSkips(a: string, b: string, c: char)
    requires c !in a
    ensures IndexOfChar(a + b, c) == |a| + IndexOfChar(b, c)
  {
    if a != [] {
      assert (a + b)[0] == a[0] != c;
      assert (a + b)[1..] == a[1..] + b;
      IndexOfCharSkips(a[1..], b, c);
    } else {
      assert a + b == b;
    }
  }

  lemma {:induction false} IndexOfDoubleSlashSkips(a: string, b: string)
    requires '/' !in a
    requires |b| >= 2 && b[0] == '/' && b[1] == '/'
    ensures IndexOfDoubleSlash(a + b) == |a|
  {
    if a != [] {
      assert (a + b)[0] == a[0] != '/';
      assert (a + b)[1..] == a[1..] + b;
      IndexOfDoubleSlashSkips(a[1..], b);
    } else {
      assert a + b == b;
    }
  }

  lemma ParseTailPrinted(repo: string, pkg: string, name: string)
    requires ':' !in pkg && name != []
    ensures ParseTail(repo, pkg + ":" + name) == Some(Label(repo, pkg, name))
  {
    var tail := pkg + ":" + name;
    IndexOfCharSkips(pkg, ":" + name, ':');
    assert (":" + name)[0] == ':';
    assert tail == pkg + (":" + name);
    assert IndexOfChar(tail, ':') == |pkg|;
    assert tail[..|pkg|] == pkg;
    assert tail[|pkg| + 1..] == name;
  }

  /** Printing a well-formed label and parsing it back gives the same label. */
  lemma ParsePrinted(l: Label)
    requires WellFormed(l)
    ensures ParseLabel(ToString(l)) == Some(l)
  {
    if l.repo == [] {
      ParsePrintedMainRepository(l);
    } else {
      ParsePrintedExternalRepository(l);
    }
  }

  lemma ParsePrintedMainRepository(l: Label)
    requires WellFormed(l) && l.repo == []
    ensures ParseLabel(ToString(l)) == Some(l)
  {
    var tail := l.pkg + ":" + l.name;
    ParseTailPrinted(l.repo, l.pkg, l.name);
    PrintedForm(l);
    var s := ToString(l);
    assert s[2..] == tail;
  }

  lemma ParsePrintedExternalRepository(l: Label)
    requires WellFormed(l) && l.repo != []
    ensures ParseLabel(ToString(l)) == Some(l)
  {
    var tail := l.pkg + ":" + l.name;
    ParseTailPrinted(l.repo, l.pkg, l.name);
    PrintedForm(l);
    RepositoryPrinted(l.repo, tail);
  }

  /** In `@repo//tail`, the first `//` after the `@` ends the repository name. */
  lemma RepositoryPrinted(repo: string, tail: string)
    requires '/' !in repo
    ensures var s := "@" + repo + "//" + tail;
      && IndexOfDoubleSlash(s[1..]) == |repo|
      && s[1..1 + |repo|] == repo
      && s[|repo| + 3..] == tail
  {
    var s := "@" + repo + "//" + tail;
    assert s[1..] == repo + ("//" + tail);
    IndexOfDoubleSlashSkips(repo, "//" + tail);
  }

  /** Distinct strings never parse to the same label. */
  lemma ParseInjective(s1: string, s2: string)
    requires ParseLabel(s1).Some? && ParseLabel(s2).Some?
    requires ParseLabel(s1) == ParseLabel(s2)
    ensures s1 == s2
  {
  }
}
