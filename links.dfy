/**
 * The link tree of one directory: one markdown list line per immediate
 * child directory that has its own README.md, in the order the directory
 * listing yields the children.
 */
module Links {

  import opened Io

  /** What `file_type()` reports for a child entry. */
  datatype Kind = Directory | NotDirectory | KindError

  /**
   * One item yielded by `read_dir`: either an entry that could not be read,
   * or an entry with its file name, its path relative to `src`, its kind and
   * whether `<child>/README.md` exists.
   */
  datatype Child =
    | BadEntry
    | Entry(name: string, relPath: Path, kind: Kind, hasReadme: bool)

  /** A child that gets a line in the link tree. */
  predicate Linked(c: Child)
  {
    c.Entry? && c.kind == Directory && c.hasReadme
  }

  /** A child whose file type cannot be read. */
  predicate TypeUnreadable(c: Child)
  {
    c.Entry? && c.kind == KindError
  }

  /** The line for one linked child: the link target is the child's path relative to `src`. */
  function LinkLine(name: string, relPath: Path): (line: string)
    // the line holds a `{`, the marker's first character, only where the name or the path does
    ensures '{' in line <==> '{' in name || '{' in relPath
  {
    "- [" + name + "](./" + relPath + "/)\n"
  }

  /** Apart from the link syntax, the characters of a line are those of the name and the path. */
  lemma LinkLineChars(name: string, relPath: Path, c: char)
    requires c !in "- [](./)\n"
    ensures c in LinkLine(name, relPath) <==> c in name || c in relPath
  {
    var line := LinkLine(name, relPath);
    assert line == "- [" + name + "](./" + relPath + "/)\n";
    assert c !in "- [" && c !in "](./" && c !in "/)\n";
  }

  /** The link tree of the children, assuming every file type can be read. */
  function LinkTree(cs: seq<Child>): (r: string)
    // a non-empty link tree starts a list item and ends a line
    ensures r != [] ==> r[0] == '-' && r[|r| - 1] == '\n'
    decreases |cs|
  {
    if cs == [] then []
    else (if Linked(cs[0]) then LinkLine(cs[0].name, cs[0].relPath) else []) + LinkTree(cs[1..])
  }

  /** The error `file_type()?` raises at the first child whose type cannot be read. */
  function FirstTypeError(cs: seq<Child>): (e: Option<IoError>)
    ensures e.None? <==> forall i :: 0 <= i < |cs| ==> !TypeUnreadable(cs[i])
    ensures e.Some? ==> exists i :: 0 <= i < |cs| && TypeUnreadable(cs[i]) && e.value == IoError(ReadFileType, cs[i].relPath)
                                     && forall j :: 0 <= j < i ==> !TypeUnreadable(cs[j])
    decreases |cs|
  {
    if cs == [] then None
    else if TypeUnreadable(cs[0]) then Some(IoError(ReadFileType, cs[0].relPath))
    else FirstTypeError(cs[1..])
  }

  /** The result of the child loop of one directory. */
  function Scan(cs: seq<Child>): (r: Result<string>)
    ensures r.Err? <==> exists i :: 0 <= i < |cs| && TypeUnreadable(cs[i])
    ensures r.Err? ==> r.error.op == ReadFileType
    ensures r.Ok? ==> r.value == LinkTree(cs)
  {
    match FirstTypeError(cs)
    case Some(e) => Err(e)
    case None => Ok(LinkTree(cs))
  }

  /** The link tree of `xs + ys` is the tree of `xs` followed by the tree of `ys`. */
  lemma {:induction false} LinkTreeAppend(xs: seq<Child>, ys: seq<Child>)
    ensures LinkTree(xs + ys) == LinkTree(xs) + LinkTree(ys)
    decreases |xs|
  {
    if xs != [] {
      assert (xs + ys)[0] == xs[0];
      assert (xs + ys)[1..] == xs[1..] + ys;
      LinkTreeAppend(xs[1..], ys);
    } else {
      assert xs + ys == ys;
    }
  }

  /** The tree of a single child is its line, when it qualifies. */
  lemma LinkTreeSingle(c: Child)
    ensures LinkTree([c]) == if Linked(c) then LinkLine(c.name, c.relPath) else []
  {
    assert [c][1..] == [];
  }

  /** The first type error of `xs + ys` is the first of `xs`, failing that the first of `ys`. */
  lemma {:induction false} FirstTypeErrorAppend(xs: seq<Child>, ys: seq<Child>)
    ensures FirstTypeError(xs + ys) == if FirstTypeError(xs).Some? then FirstTypeError(xs) else FirstTypeError(ys)
    decreases |xs|
  {
    if xs != [] {
      assert (xs + ys)[0] == xs[0];
      assert (xs + ys)[1..] == xs[1..] + ys;
      FirstTypeErrorAppend(xs[1..], ys);
    } else {
      assert xs + ys == ys;
    }
  }

  /** The link tree is empty exactly when no child is a directory with a README.md. */
  lemma {:induction false} LinkTreeEmptyIff(cs: seq<Child>)
    ensures LinkTree(cs) == [] <==> forall i :: 0 <= i < |cs| ==> !Linked(cs[i])
    decreases |cs|
  {
    if cs != [] {
      LinkTreeEmptyIff(cs[1..]);
      assert forall i :: 1 <= i < |cs| ==> cs[i] == cs[1..][i - 1];
    }
  }

  /** Every entry's name and path are free of `c`. */
  predicate PlainChildren(cs: seq<Child>, c: char)
  {
    forall i :: 0 <= i < |cs| && cs[i].Entry? ==> c !in cs[i].name && c !in cs[i].relPath
  }

  /** Only the names and paths of the children contribute characters other than the link syntax. */
  lemma {:induction false} LinkTreeAvoids(cs: seq<Child>, c: char)
    requires c !in "- [](./)\n"
    requires PlainChildren(cs, c)
    ensures c !in LinkTree(cs)
    decreases |cs|
  {
    if cs != [] {
      assert PlainChildren(cs[1..], c) by {
        assert forall i :: 1 <= i < |cs| ==> cs[i] == cs[1..][i - 1];
      }
      LinkTreeAvoids(cs[1..], c);
      if Linked(cs[0]) {
        LinkLineChars(cs[0].name, cs[0].relPath, c);
      }
    }
  }

  /** The children that get a line, in listing order. */
  function Qualifying(cs: seq<Child>): (qs: seq<Child>)
    ensures forall i :: 0 <= i < |qs| ==> Linked(qs[i])
    ensures forall c :: c in qs <==> c in cs && Linked(c)
    ensures |qs| <= |cs|
    decreases |cs|
  {
    if cs == [] then []
    else (if Linked(cs[0]) then [cs[0]] else []) + Qualifying(cs[1..])
  }

  /** The lines of the given children, one after the other. */
  function Lines(qs: seq<Child>): string
    requires forall i :: 0 <= i < |qs| ==> qs[i].Entry?
    decreases |qs|
  {
    if qs == [] then [] else LinkLine(qs[0].name, qs[0].relPath) + Lines(qs[1..])
  }

  /**
   * Filtering then formatting: the link tree is exactly the lines of the
   * qualifying children, in listing order, and nothing else.
   */
  lemma {:induction false} LinkTreeIsLines(cs: seq<Child>)
    ensures LinkTree(cs) == Lines(Qualifying(cs))
    decreases |cs|
  {
    if cs != [] {
      LinkTreeIsLines(cs[1..]);
      var q := Qualifying(cs[1..]);
      if Linked(cs[0]) {
        assert Qualifying(cs) == [cs[0]] + q;
        assert ([cs[0]] + q)[1..] == q;
      } else {
        assert Qualifying(cs) == q;
      }
    }
  }

  /** Only child directories with a README.md are linked: files, bare directories and unreadable entries add nothing. */
  lemma ExampleListing()
    ensures LinkTree([Entry("A", "guide/A", Directory, true), Entry("B", "guide/B", Directory, false),
                      Entry("C.md", "guide/C.md", NotDirectory, false), BadEntry,
                      Entry("README.md", "guide/README.md", NotDirectory, false)])
            == "- [A](./guide/A/)\n"
  {
    var a := Entry("A", "guide/A", Directory, true);
    var rest := [Entry("B", "guide/B", Directory, false), Entry("C.md", "guide/C.md", NotDirectory, false),
                 BadEntry, Entry("README.md", "guide/README.md", NotDirectory, false)];
    LinkTreeEmptyIff(rest);
    LinkTreeAppend([a], rest);
    assert [a] + rest == [a, rest[0], rest[1], rest[2], rest[3]];
  }

  /** Filtering `xs + ys` keeps the qualifying children of `xs`, then those of `ys`, in order and with repeats. */
  lemma {:induction false} QualifyingAppend(xs: seq<Child>, ys: seq<Child>)
    ensures Qualifying(xs + ys) == Qualifying(xs) + Qualifying(ys)
    decreases |xs|
  {
    if xs == [] {
      assert xs + ys == ys;
    } else {
      assert (xs + ys)[0] == xs[0];
      assert (xs + ys)[1..] == xs[1..] + ys;
      QualifyingAppend(xs[1..], ys);
    }
  }

  /** Filtering keeps a linked child and drops any other. */
  lemma QualifyingSingle(c: Child)
    ensures Qualifying([c]) == if Linked(c) then [c] else []
  {
    assert [c][1..] == [];
  }

  /** How often `c` occurs in `s`. */
  function Count(c: char, s: string): nat
    decreases |s|
  {
    if s == [] then 0 else (if s[0] == c then 1 else 0) + Count(c, s[1..])
  }

  lemma {:induction false} CountAppend(c: char, x: string, y: string)
    ensures Count(c, x + y) == Count(c, x) + Count(c, y)
    decreases |x|
  {
    if x == [] {
      assert x + y == y;
    } else {
      assert (x + y)[1..] == x[1..] + y;
      CountAppend(c, x[1..], y);
    }
  }

  lemma {:induction false} CountAbsent(c: char, s: string)
    requires c !in s
    ensures Count(c, s) == 0
    decreases |s|
  {
    if s != [] {
      CountAbsent(c, s[1..]);
    }
  }

  /** With line-free names and paths, the link tree has one line per qualifying child. */
  lemma {:induction false} LinkTreeLines(cs: seq<Child>)
    requires PlainChildren(cs, '\n')
    ensures Count('\n', LinkTree(cs)) == |Qualifying(cs)|
    decreases |cs|
  {
    if cs != [] {
      assert PlainChildren(cs[1..], '\n') by {
        assert forall i :: 1 <= i < |cs| ==> cs[i] == cs[1..][i - 1];
      }
      LinkTreeLines(cs[1..]);
      var head := if Linked(cs[0]) then LinkLine(cs[0].name, cs[0].relPath) else [];
      CountAppend('\n', head, LinkTree(cs[1..]));
      if Linked(cs[0]) {
        var name, path := cs[0].name, cs[0].relPath;
        assert head == ("- [" + name + "](./") + path + "/)\n";
        CountAppend('\n', "- [" + name + "](./", path);
        CountAppend('\n', ("- [" + name + "](./") + path, "/)\n");
        CountAppend('\n', "- [" + name, "](./");
        CountAppend('\n', "- [", name);
        CountAbsent('\n', name);
        CountAbsent('\n', path);
      }
    }
  }

  /**
   * The loop of `generate_readme_links` over the children of one directory:
   * it grows the link tree one pushed piece at a time and stops at the first
   * child whose file type cannot be read.
   */
  method BuildLinkTree(children: seq<Child>) returns (r: Result<string>)
    ensures FirstTypeError(children).Some? ==> r == Err(FirstTypeError(children).value)
    ensures FirstTypeError(children).None? ==> r == Ok(LinkTree(children))
  {
    var linkTree := "";
    for i := 0 to |children|
      invariant FirstTypeError(children[..i]) == None
      invariant linkTree == LinkTree(children[..i])
    {
      assert LinkTree(children[..i + 1]) == linkTree + (if Linked(children[i]) then LinkLine(children[i].name, children[i].relPath) else []) by {
        assert children[..i + 1] == children[..i] + [children[i]];
        LinkTreeAppend(children[..i], [children[i]]);
        LinkTreeSingle(children[i]);
      }
      assert FirstTypeError(children[..i + 1]) == FirstTypeError([children[i]]) by {
        assert children[..i + 1] == children[..i] + [children[i]];
        FirstTypeErrorAppend(children[..i], [children[i]]);
      }
      match children[i]
      case BadEntry =>
      case Entry(name, relPath, kind, hasReadme) =>
        if kind == KindError {
          assert FirstTypeError(children) == Some(IoError(ReadFileType, relPath)) by {
            assert children == children[..i] + children[i..];
            FirstTypeErrorAppend(children[..i], children[i..]);
          }
          return Err(IoError(ReadFileType, relPath));
        }
        if kind == Directory && hasReadme {
          ghost var before := linkTree;
          linkTree := linkTree + "- [";
          linkTree := linkTree + name;
          linkTree := linkTree + "](./";
          linkTree := linkTree + relPath;
          linkTree := linkTree + "/)\n";
          assert linkTree == before + LinkLine(name, relPath);
        }
    }
    assert children[..|children|] == children;
    return Ok(linkTree);
  }
}
