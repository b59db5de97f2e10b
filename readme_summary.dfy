/**
 * `generate_readme_links`: walk every directory below `src`; for each one
 * whose README.md carries the `{{TOC}}` marker, build the link tree of its
 * child directories and replace every marker with it.
 *
 * The filesystem is abstract: the walk is a sequence of walked entries (each
 * directory with its listing), README contents are a map from directory path
 * to text, and the I/O calls that can fail are given as sets of paths.
 */
module ReadmeSummary {

  import opened Io
  import opened Text
  import opened Links

  /** What `read_dir` on a walked directory gives: an error, or its children in order. */
  datatype DirListing = ListError | Listed(children: seq<Child>)

  /**
   * One item the directory walk yields: a walk error (dropped by
   * `filter_map(Result::ok)`), or an entry with its path relative to `src`,
   * whether it is a directory, and its listing.
   */
  datatype WalkItem =
    | WalkError
    | Walked(relPath: Path, isDir: bool, listing: DirListing)

  /** The README.md files whose read, resp. write, fails. */
  datatype Faults = Faults(unreadable: set<Path>, unwritable: set<Path>)

  /** The result of the pass so far, and README contents by directory path. */
  datatype Step = Step(outcome: Outcome, readmes: map<Path, string>)

  /** A walked directory below the root whose README.md exists. */
  predicate Candidate(item: WalkItem, readmes: map<Path, string>)
  {
    item.Walked? && item.isDir && item.relPath != [] && item.relPath in readmes
  }

  /** The path of the README.md a visit may touch, when there is one. */
  predicate Touches(item: WalkItem, q: Path)
  {
    item.Walked? && item.relPath == q
  }

  /** A candidate whose README.md can be read and carries the marker: its listing is scanned. */
  predicate Marked(item: WalkItem, readmes: map<Path, string>, faults: Faults)
  {
    Candidate(item, readmes) && item.relPath !in faults.unreadable && HasMarker(readmes[item.relPath])
  }

  /** A marked directory whose listing and file types read cleanly, with the link tree that gives. */
  predicate ScansTo(item: WalkItem, readmes: map<Path, string>, faults: Faults, linkTree: string)
  {
    Marked(item, readmes, faults) && item.listing.Listed?
    && FirstTypeError(item.listing.children).None? && LinkTree(item.listing.children) == linkTree
  }

  /** One iteration of the outer loop of `generate_readme_links`. */
  function Visit(item: WalkItem, readmes: map<Path, string>, faults: Faults): (s: Step)
    // no file is created or removed, and only the visited directory's README.md can change
    ensures s.readmes.Keys == readmes.Keys
    ensures forall q :: q in readmes && !Touches(item, q) ==> s.readmes[q] == readmes[q]
    // a failing visit writes nothing
    ensures s.outcome.Failed? ==> s.readmes == readmes
    // every directory that is not a candidate, or whose README has no marker, is skipped
    ensures !Candidate(item, readmes) ==> s == Step(Done, readmes)
    ensures Candidate(item, readmes) && item.relPath !in faults.unreadable && !HasMarker(readmes[item.relPath])
            ==> s == Step(Done, readmes)
    // a README changes only by replacing its markers with a non-empty link tree
    ensures s.readmes != readmes ==>
              && Candidate(item, readmes) && HasMarker(readmes[item.relPath])
              && item.listing.Listed? && Scan(item.listing.children).Ok?
              && Scan(item.listing.children).value != []
              && s.readmes == readmes[item.relPath := ReplaceAll(readmes[item.relPath], Scan(item.listing.children).value)]
    // each error names the call that failed
    ensures s.outcome.Failed? && s.outcome.error.op == ReadReadme ==>
              Candidate(item, readmes) && s.outcome.error.path == item.relPath && item.relPath in faults.unreadable
    ensures s.outcome.Failed? && s.outcome.error.op == ReadDir ==>
              Candidate(item, readmes) && HasMarker(readmes[item.relPath]) && s.outcome.error.path == item.relPath
              && item.listing.ListError?
    ensures s.outcome.Failed? && s.outcome.error.op == ReadFileType ==>
              Candidate(item, readmes) && HasMarker(readmes[item.relPath]) && item.listing.Listed?
              && FirstTypeError(item.listing.children) == Some(s.outcome.error)
    ensures s.outcome.Failed? && s.outcome.error.op == WriteReadme ==>
              Candidate(item, readmes) && HasMarker(readmes[item.relPath]) && s.outcome.error.path == item.relPath
              && item.relPath in faults.unwritable && item.listing.Listed? && Scan(item.listing.children).Ok?
              && Scan(item.listing.children).value != []
    // and conversely, each fault produces its error, and a marked README is rewritten
    ensures Candidate(item, readmes) && item.relPath in faults.unreadable ==>
              s == Step(Failed(IoError(ReadReadme, item.relPath)), readmes)
    ensures Marked(item, readmes, faults) && item.listing.ListError? ==>
              s == Step(Failed(IoError(ReadDir, item.relPath)), readmes)
    ensures Marked(item, readmes, faults) && item.listing.Listed? && FirstTypeError(item.listing.children).Some? ==>
              s == Step(Failed(FirstTypeError(item.listing.children).value), readmes)
    ensures ScansTo(item, readmes, faults, []) ==> s == Step(Done, readmes)
    ensures forall t :: ScansTo(item, readmes, faults, t) && t != [] && item.relPath in faults.unwritable ==>
              s == Step(Failed(IoError(WriteReadme, item.relPath)), readmes)
    ensures forall t :: ScansTo(item, readmes, faults, t) && t != [] && item.relPath !in faults.unwritable ==>
              s == Step(Done, readmes[item.relPath := ReplaceAll(readmes[item.relPath], t)])
  {
    if !Candidate(item, readmes) then Step(Done, readmes)
    else
      var path := item.relPath;
      if path in faults.unreadable then Step(Failed(IoError(ReadReadme, path)), readmes)
      else if !HasMarker(readmes[path]) then Step(Done, readmes)
      else match item.listing
        case ListError => Step(Failed(IoError(ReadDir, path)), readmes)
        case Listed(children) =>
          match Scan(children)
          case Err(e) => Step(Failed(e), readmes)
          case Ok(linkTree) =>
            if linkTree == [] then Step(Done, readmes)
            else if path in faults.unwritable then Step(Failed(IoError(WriteReadme, path)), readmes)
            else Step(Done, readmes[path := ReplaceAll(readmes[path], linkTree)])
  }

  /** Some item of the walk is the directory `q`. */
  ghost predicate Walks(items: seq<WalkItem>, q: Path)
  {
    exists i :: 0 <= i < |items| && Touches(items[i], q)
  }

  /** The whole pass: visit the walked directories in order, stopping at the first error. */
  function Walk(items: seq<WalkItem>, readmes: map<Path, string>, faults: Faults): (s: Step)
    ensures s.readmes.Keys == readmes.Keys
    ensures forall q :: q in readmes && !Walks(items, q) ==> s.readmes[q] == readmes[q]
    decreases |items|
  {
    if items == [] then Step(Done, readmes)
    else
      var first := Visit(items[0], readmes, faults);
      if first.outcome.Failed? then first
      else
        var rest := Walk(items[1..], first.readmes, faults);
        assert forall q :: Walks(items[1..], q) ==> Walks(items, q) by {
          forall q | Walks(items[1..], q) ensures Walks(items, q) {
            var i :| 0 <= i < |items[1..]| && Touches(items[1..][i], q);
            assert Touches(items[i + 1], q);
          }
        }
        assert forall q :: Touches(items[0], q) ==> Walks(items, q);
        rest
  }

  /** Walking `xs + ys` walks `xs` and, unless that failed, then `ys`. */
  lemma {:induction false} WalkAppend(xs: seq<WalkItem>, ys: seq<WalkItem>, m: map<Path, string>, f: Faults)
    ensures Walk(xs + ys, m, f) ==
              var s := Walk(xs, m, f);
              if s.outcome.Failed? then s else Walk(ys, s.readmes, f)
    decreases |xs|
  {
    if xs == [] {
      assert xs + ys == ys;
    } else {
      assert (xs + ys)[0] == xs[0];
      assert (xs + ys)[1..] == xs[1..] + ys;
      var first := Visit(xs[0], m, f);
      if first.outcome.Done? {
        WalkAppend(xs[1..], ys, first.readmes, f);
      }
    }
  }

  /**
   * The pass fails at item `k`: everything before it succeeded, item `k`
   * reports the pass's error, and the contents are those left by the items
   * before it, so nothing after `k` was touched.
   */
  ghost predicate FailsAt(items: seq<WalkItem>, m: map<Path, string>, f: Faults, k: int)
    requires 0 <= k < |items|
  {
    var before := Walk(items[..k], m, f);
    && before.outcome == Done
    && Visit(items[k], before.readmes, f).outcome == Walk(items, m, f).outcome
    && Walk(items, m, f).readmes == before.readmes
  }

  /** An I/O failure stops the whole pass where it happens. */
  lemma {:induction false} WalkStopsAtFailure(items: seq<WalkItem>, m: map<Path, string>, f: Faults)
    requires Walk(items, m, f).outcome.Failed?
    ensures exists k :: 0 <= k < |items| && FailsAt(items, m, f, k)
    decreases |items|
  {
    var first := Visit(items[0], m, f);
    if first.outcome.Failed? {
      assert items[..0] == [];
      assert FailsAt(items, m, f, 0);
    } else {
      var rest := items[1..];
      WalkStopsAtFailure(rest, first.readmes, f);
      var k :| 0 <= k < |rest| && FailsAt(rest, first.readmes, f, k);
      var prefix := items[..k + 1];
      assert prefix[0] == items[0] && prefix[1..] == rest[..k];
      assert items[k + 1] == rest[k];
      assert FailsAt(items, m, f, k + 1);
    }
  }

  /**
   * Conversely, a failing visit that the pass reaches ends the pass with its
   * error, and the contents are those the items before it left.
   */
  lemma WalkFailsAt(items: seq<WalkItem>, m: map<Path, string>, f: Faults, k: nat)
    requires k < |items|
    requires Walk(items[..k], m, f).outcome == Done
    requires Visit(items[k], Walk(items[..k], m, f).readmes, f).outcome.Failed?
    ensures Walk(items, m, f) == Visit(items[k], Walk(items[..k], m, f).readmes, f)
    ensures FailsAt(items, m, f, k)
  {
    var before := Walk(items[..k], m, f);
    assert items == items[..k] + items[k..];
    WalkAppend(items[..k], items[k..], m, f);
    assert items[k..][0] == items[k];
  }

  /** A visit reads and writes only the README.md of its own directory. */
  lemma VisitLocal(item: WalkItem, x: map<Path, string>, y: map<Path, string>, f: Faults)
    requires item.Walked?
    requires item.relPath in x <==> item.relPath in y
    requires item.relPath in x ==> x[item.relPath] == y[item.relPath]
    ensures Visit(item, x, f).outcome == Visit(item, y, f).outcome
    ensures item.relPath in x ==> Visit(item, x, f).readmes[item.relPath] == Visit(item, y, f).readmes[item.relPath]
  {
  }

  /** No two walked entries name the same directory. */
  ghost predicate DistinctDirs(items: seq<WalkItem>)
  {
    forall i, j :: 0 <= i < j < |items| && items[i].Walked? && items[j].Walked? ==> items[i].relPath != items[j].relPath
  }

  /**
   * When no directory is walked twice, a successful pass treats each
   * directory as if it were the only one: its README ends as a visit of that
   * directory alone on the original contents leaves it.
   */
  lemma {:induction false} WalkIsPerDirectory(items: seq<WalkItem>, m: map<Path, string>, f: Faults)
    requires DistinctDirs(items)
    requires Walk(items, m, f).outcome == Done
    ensures forall i :: 0 <= i < |items| ==> Visit(items[i], m, f).outcome == Done
    ensures forall i :: 0 <= i < |items| && items[i].Walked? && items[i].relPath in m ==>
              Walk(items, m, f).readmes[items[i].relPath] == Visit(items[i], m, f).readmes[items[i].relPath]
    decreases |items|
  {
    if items != [] {
      var h, rest := items[0], items[1..];
      var m1 := Visit(h, m, f).readmes;
      assert DistinctDirs(rest) by {
        assert forall i :: 0 <= i < |rest| ==> rest[i] == items[i + 1];
      }
      WalkIsPerDirectory(rest, m1, f);
      forall i | 1 <= i < |items|
        ensures Visit(items[i], m, f).outcome == Done
        ensures items[i].Walked? && items[i].relPath in m ==>
                  Walk(items, m, f).readmes[items[i].relPath] == Visit(items[i], m, f).readmes[items[i].relPath]
      {
        assert items[i] == rest[i - 1];
        if items[i].Walked? {
          assert !Touches(h, items[i].relPath);
          VisitLocal(items[i], m1, m, f);
        }
      }
      if h.Walked? && h.relPath in m {
        assert !Walks(rest, h.relPath) by {
          forall i | 0 <= i < |rest| ensures !Touches(rest[i], h.relPath) {
            assert rest[i] == items[i + 1];
          }
        }
      }
    }
  }

  /**
   * When no directory is walked twice and the pass succeeds, every marked
   * README with a non-empty link tree ends as its old content with every
   * marker replaced by that tree.
   */
  lemma WalkRewritesMarked(items: seq<WalkItem>, m: map<Path, string>, f: Faults, linkTree: string, i: nat)
    requires DistinctDirs(items)
    requires Walk(items, m, f).outcome == Done
    requires i < |items| && ScansTo(items[i], m, f, linkTree) && linkTree != []
    ensures items[i].relPath !in f.unwritable
    ensures Walk(items, m, f).readmes[items[i].relPath] == ReplaceAll(m[items[i].relPath], linkTree)
  {
    WalkIsPerDirectory(items, m, f);
  }

  /** Every listing in the walk has child names and paths free of `{`. */
  predicate PlainWalk(items: seq<WalkItem>)
  {
    forall i :: 0 <= i < |items| && items[i].Walked? && items[i].listing.Listed? ==>
      PlainChildren(items[i].listing.children, '{')
  }

  /** Visiting `item` again on `m` changes nothing and succeeds. */
  predicate Settled(item: WalkItem, m: map<Path, string>, f: Faults)
  {
    Visit(item, m, f) == Step(Done, m)
  }

  /** A README.md a visit rewrote no longer carries a marker. */
  lemma RewrittenHasNoMarker(item: WalkItem, x: map<Path, string>, f: Faults)
    requires item.Walked? && item.listing.Listed? ==> PlainChildren(item.listing.children, '{')
    requires Visit(item, x, f).readmes != x
    ensures !HasMarker(Visit(item, x, f).readmes[item.relPath])
  {
    var tree := Scan(item.listing.children).value;
    LinkTreeAvoids(item.listing.children, '{');
    assert '-' !in Marker;
    ReplaceAllRemovesMarker(x[item.relPath], tree);
  }

  /** A visit that succeeds leaves its directory settled. */
  lemma VisitSettles(item: WalkItem, x: map<Path, string>, f: Faults)
    requires item.Walked? && item.listing.Listed? ==> PlainChildren(item.listing.children, '{')
    requires Visit(item, x, f).outcome == Done
    ensures Settled(item, Visit(item, x, f).readmes, f)
  {
    if Visit(item, x, f).readmes != x {
      RewrittenHasNoMarker(item, x, f);
    }
  }

  /** A settled directory stays settled when another visit succeeds. */
  lemma SettledAfterVisit(i: WalkItem, j: WalkItem, x: map<Path, string>, f: Faults)
    requires Settled(i, x, f)
    requires Visit(j, x, f).outcome == Done
    ensures Settled(i, Visit(j, x, f).readmes, f)
  {
    var x' := Visit(j, x, f).readmes;
    if x' != x && i.Walked? {
      if i.relPath != j.relPath {
        VisitLocal(i, x, x', f);
      } else if Candidate(i, x) {
        // both visits read the same marked README; `i` left it alone, so its link tree is empty
        var p := i.relPath;
        assert Marked(i, x, f) && i.listing.Listed?;
        assert FirstTypeError(i.listing.children).None?;
        var t := LinkTree(i.listing.children);
        if t != [] {
          assert t[0] == '-';
          ReplaceAllChanges(x[p], t);
          assert false;
        }
        assert ScansTo(i, x', f, []) || !Marked(i, x', f);
      }
    }
  }

  /** A settled directory stays settled when a whole pass succeeds. */
  lemma {:induction false} SettledAfterWalk(i: WalkItem, rest: seq<WalkItem>, x: map<Path, string>, f: Faults)
    requires Settled(i, x, f)
    requires Walk(rest, x, f).outcome == Done
    ensures Settled(i, Walk(rest, x, f).readmes, f)
    decreases |rest|
  {
    if rest != [] {
      var x1 := Visit(rest[0], x, f).readmes;
      SettledAfterVisit(i, rest[0], x, f);
      SettledAfterWalk(i, rest[1..], x1, f);
    }
  }

  /** After a successful pass every walked directory is settled. */
  lemma {:induction false} WalkSettles(items: seq<WalkItem>, m: map<Path, string>, f: Faults)
    requires PlainWalk(items)
    requires Walk(items, m, f).outcome == Done
    ensures forall k :: 0 <= k < |items| ==> Settled(items[k], Walk(items, m, f).readmes, f)
    decreases |items|
  {
    if items != [] {
      var h, rest := items[0], items[1..];
      var m1 := Visit(h, m, f).readmes;
      assert PlainWalk(rest) by {
        assert forall k :: 0 <= k < |rest| ==> rest[k] == items[k + 1];
      }
      VisitSettles(h, m, f);
      SettledAfterWalk(h, rest, m1, f);
      WalkSettles(rest, m1, f);
      assert forall k :: 1 <= k < |items| ==> items[k] == rest[k - 1];
    }
  }

  /** A pass over settled directories succeeds and changes nothing. */
  lemma {:induction false} WalkOverSettled(items: seq<WalkItem>, m: map<Path, string>, f: Faults)
    requires forall k :: 0 <= k < |items| ==> Settled(items[k], m, f)
    ensures Walk(items, m, f) == Step(Done, m)
    decreases |items|
  {
    if items != [] {
      assert forall k :: 0 <= k < |items[1..]| ==> items[1..][k] == items[k + 1];
      WalkOverSettled(items[1..], m, f);
    }
  }

  /**
   * Running the preprocessor a second time over the same tree succeeds and
   * changes nothing: every marker it replaced is gone, and a marker that
   * stayed had an empty link tree, which it still has.
   */
  lemma SecondPassChangesNothing(items: seq<WalkItem>, m: map<Path, string>, f: Faults)
    requires PlainWalk(items)
    requires Walk(items, m, f).outcome == Done
    ensures Walk(items, Walk(items, m, f).readmes, f) == Walk(items, m, f)
  {
    WalkSettles(items, m, f);
    WalkOverSettled(items, Walk(items, m, f).readmes, f);
  }

  /** The book's `src` tree as the generator sees it: the README.md contents it may rewrite. */
  class SourceTree {

    /** README.md contents, keyed by the path (relative to `src`) of the directory holding them. */
    var readmes: map<Path, string>

    constructor (readmes: map<Path, string>)
      ensures this.readmes == readmes
    {
      this.readmes := readmes;
    }

    /** `generate_readme_links(src)`, over the given walk and I/O faults. */
    method GenerateReadmeLinks(walk: seq<WalkItem>, faults: Faults) returns (r: Outcome)
      modifies this
      ensures Step(r, readmes) == Walk(walk, old(readmes), faults)
      ensures readmes.Keys == old(readmes).Keys
    {
      for i := 0 to |walk|
        invariant Walk(walk[i..], readmes, faults) == Walk(walk, old(readmes), faults)
      {
        assert walk[i..][0] == walk[i] && walk[i..][1..] == walk[i + 1..];
        if walk[i].WalkError? {
          continue;   // dropped by filter_map(Result::ok)
        }
        var entry := walk[i];
        if !entry.isDir {
          continue;
        }
        var path := entry.relPath;
        if path == [] {
          continue;   // the source root itself
        }
        if path !in readmes {
          continue;   // README.md does not exist
        }
        if path in faults.unreadable {
          return Failed(IoError(ReadReadme, path));
        }
        if !HasMarker(readmes[path]) {
          continue;
        }
        if entry.listing.ListError? {
          return Failed(IoError(ReadDir, path));
        }
        var linkTree := BuildLinkTree(entry.listing.children);
        if linkTree.Err? {
          return Failed(linkTree.error);
        }
        if linkTree.value != [] {
          var content := readmes[path];
          content := ReplaceAll(content, linkTree.value);
          if path in faults.unwritable {
            return Failed(IoError(WriteReadme, path));
          }
          readmes := readmes[path := content];
        }
      }
      assert walk[|walk|..] == [];
      return Done;
    }
  }
}
