/**
 * String-level pieces of the README summary preprocessor: recognising a
 * README file name, detecting the `{{TOC}}` placeholder, and replacing every
 * placeholder with a generated snippet (Rust's `str::contains` and
 * `str::replace` with that literal pattern).
 */
module Text {

  /** The placeholder a README.md carries where its table of contents goes. */
  const Marker: string := "{{TOC}}"

  /** ASCII lower-casing of one character. */
  function LowerChar(c: char): char
  {
    if 'A' <= c <= 'Z' then (c as int - 'A' as int + 'a' as int) as char else c
  }

  function Lower(s: string): string
  {
    seq(|s|, i requires 0 <= i < |s| => LowerChar(s[i]))
  }

  /** Two names that differ at most in the case of their letters. */
  predicate SameIgnoringCase(s: string, t: string)
  {
    |s| == |t| && forall i :: 0 <= i < |s| ==> LowerChar(s[i]) == LowerChar(t[i])
  }

  /**
   * `is_readme`: the lower-cased file name is `readme.md` or `readme.html`,
   * so it matches exactly the names that spell one of them in any casing.
   */
  predicate IsReadme(fileName: string): (r: bool)
    ensures r <==> SameIgnoringCase(fileName, "readme.md") || SameIgnoringCase(fileName, "readme.html")
  {
    SameIgnoringCaseLower(fileName, "readme.md");
    SameIgnoringCaseLower(fileName, "readme.html");
    var lower := Lower(fileName);
    lower == "readme.md" || lower == "readme.html"
  }

  /** Whether a name is a README depends only on its letters, not their case. */
  lemma IsReadmeIgnoresCase(s: string, t: string)
    requires SameIgnoringCase(s, t)
    ensures IsReadme(s) == IsReadme(t)
  {
    assert Lower(s) == Lower(t);
  }

  lemma SameIgnoringCaseLower(s: string, t: string)
    requires forall i :: 0 <= i < |t| ==> !('A' <= t[i] <= 'Z')
    ensures SameIgnoringCase(s, t) <==> Lower(s) == t
  {
    if SameIgnoringCase(s, t) {
      assert forall i :: 0 <= i < |s| ==> Lower(s)[i] == t[i];
    }
  }

  lemma IsReadmeExamples()
    ensures IsReadme("README.md") && IsReadme("readme.md") && IsReadme("ReadMe.HTML")
    ensures !IsReadme("README.markdown") && !IsReadme("index.md") && !IsReadme("")
  {
  }

  /**
   * Substring test for the placeholder, written as a scan: the marker starts
   * here, or somewhere further on.
   */
  predicate HasMarker(s: string): (r: bool)
    ensures r ==> |Marker| <= |s|
    decreases |s|
  {
    Marker <= s || (s != [] && HasMarker(s[1..]))
  }

  /** The marker occurs in `s` starting at index `k`. */
  ghost predicate OccursAt(s: string, k: int)
  {
    0 <= k <= |s| && Marker <= s[k..]
  }

  /** The scan agrees with the plain substring definition, in both directions. */
  lemma {:induction false} HasMarkerIff(s: string)
    ensures HasMarker(s) <==> exists k :: OccursAt(s, k)
    decreases |s|
  {
    if Marker <= s {
      assert OccursAt(s, 0);
    } else if s != [] {
      HasMarkerIff(s[1..]);
      if HasMarker(s[1..]) {
        var k :| OccursAt(s[1..], k);
        assert s[1..][k..] == s[k + 1..];
        assert OccursAt(s, k + 1);
      }
      if exists k :: OccursAt(s, k) {
        var k :| OccursAt(s, k);
        assert k != 0;
        assert s[k..] == s[1..][k - 1..];
        assert OccursAt(s[1..], k - 1);
      }
    }
  }

  /** Text shorter than the marker, the empty string included, has no marker. */
  lemma {:induction false} ShortHasNoMarker(s: string)
    requires |s| < |Marker|
    ensures !HasMarker(s)
    decreases |s|
  {
    if s != [] {
      ShortHasNoMarker(s[1..]);
    }
  }

  /** Text with the marker spliced in has a marker. */
  lemma HasMarkerSpliced(a: string, b: string)
    ensures HasMarker(a + Marker + b)
  {
    assert (a + Marker + b)[|a|..] == Marker + b;
    assert OccursAt(a + Marker + b, |a|);
    HasMarkerIff(a + Marker + b);
  }

  /** A prefix without `{` can neither hide nor create an occurrence of the marker. */
  lemma {:induction false} BraceFreePrefix(x: string, y: string)
    requires '{' !in x
    ensures HasMarker(x + y) <==> HasMarker(y)
    decreases |x|
  {
    if x == [] {
      assert x + y == y;
    } else {
      assert (x + y)[0] == x[0];
      assert (x + y)[1..] == x[1..] + y;
      BraceFreePrefix(x[1..], y);
    }
  }

  /**
   * `content.replace("{{TOC}}", rep)`: scanning left to right, every
   * non-overlapping occurrence of the marker is replaced by `rep`.
   */
  function ReplaceAll(s: string, rep: string): (r: string)
    // content without the marker comes back unchanged
    ensures !HasMarker(s) ==> r == s
    decreases |s|
  {
    if s == [] then []
    else if Marker <= s then rep + ReplaceAll(s[|Marker|..], rep)
    else [s[0]] + ReplaceAll(s[1..], rep)
  }

  /**
   * The first marker, the one no earlier occurrence overlaps, is replaced by
   * `rep` and the text before it is copied.
   */
  lemma {:induction false} ReplaceAllFirst(a: string, b: string, rep: string)
    requires !HasMarker(a + Marker[..|Marker| - 1])
    ensures ReplaceAll(a + Marker + b, rep) == a + rep + ReplaceAll(b, rep)
    decreases |a|
  {
    var s := a + Marker + b;
    if a == [] {
      assert s == Marker + b;
      assert s[|Marker|..] == b;
    } else {
      var p := a + Marker[..|Marker| - 1];
      assert s[..|Marker|] == p[..|Marker|];
      assert !(Marker <= s);
      assert s[1..] == a[1..] + Marker + b;
      assert p[1..] == a[1..] + Marker[..|Marker| - 1];
      ReplaceAllFirst(a[1..], b, rep);
      assert s[0] == a[0];
      assert a == [a[0]] + a[1..];
    }
  }

  /** `pieces` joined with `sep` between neighbours. */
  function Join(pieces: seq<string>, sep: string): string
    decreases |pieces|
  {
    if pieces == [] then []
    else if |pieces| == 1 then pieces[0]
    else pieces[0] + sep + Join(pieces[1..], sep)
  }

  /**
   * Every placeholder receives the same snippet: text made of `{`-free pieces
   * separated by markers becomes those pieces separated by `rep`.
   */
  lemma {:induction false} ReplaceAllEveryMarker(pieces: seq<string>, rep: string)
    requires forall i :: 0 <= i < |pieces| ==> '{' !in pieces[i]
    ensures ReplaceAll(Join(pieces, Marker), rep) == Join(pieces, rep)
    decreases |pieces|
  {
    if |pieces| == 1 {
      BraceFreePrefix(pieces[0], []);
      assert pieces[0] + [] == pieces[0];
      ShortHasNoMarker([]);
    } else if |pieces| > 1 {
      BraceFreePrefix(pieces[0], Marker[..|Marker| - 1]);
      ShortHasNoMarker(Marker[..|Marker| - 1]);
      ReplaceAllFirst(pieces[0], Join(pieces[1..], Marker), rep);
      ReplaceAllEveryMarker(pieces[1..], rep);
    }
  }

  /** The first character of the replacement result. */
  lemma ReplaceAllHead(t: string, rep: string)
    requires rep != []
    ensures ReplaceAll(t, rep) == [] <==> t == []
    ensures t != [] ==> ReplaceAll(t, rep)[0] == if Marker <= t then rep[0] else t[0]
  {
  }

  /**
   * Content with a marker is always changed by a non-empty snippet that does
   * not start with `{`: the first replaced marker's `{` is overwritten.
   */
  lemma {:induction false} ReplaceAllChanges(s: string, rep: string)
    requires HasMarker(s) && rep != [] && rep[0] != '{'
    ensures ReplaceAll(s, rep) != s
    decreases |s|
  {
    if Marker <= s {
      assert s[0] == '{';
      assert ReplaceAll(s, rep)[0] == rep[0];
    } else {
      var r := ReplaceAll(s[1..], rep);
      ReplaceAllChanges(s[1..], rep);
      assert ([s[0]] + r)[1..] == r;
    }
  }

  /**
   * When the snippet does not start with a marker character, a tail of the
   * marker at the front of the result was copied from the front of the input.
   */
  lemma {:induction false} CopiedMarkerTail(t: string, rep: string, j: nat)
    requires 1 <= j <= |Marker|
    requires rep != [] && rep[0] !in Marker
    ensures Marker[j..] <= ReplaceAll(t, rep) ==> Marker[j..] <= t
    decreases |Marker| - j
  {
    if j < |Marker| {
      ReplaceAllHead(t, rep);
      if t != [] && !(Marker <= t) {
        assert Marker[j] in Marker;
        assert Marker[j..] == [Marker[j]] + Marker[j + 1..];
        CopiedMarkerTail(t[1..], rep, j + 1);
      }
    }
  }

  /**
   * A non-empty snippet without `{` and not starting with a marker character
   * leaves no marker behind, even where the text around one marker spelled
   * part of another.
   */
  lemma {:induction false} ReplaceAllRemovesMarker(s: string, rep: string)
    requires rep != [] && rep[0] !in Marker && '{' !in rep
    ensures !HasMarker(ReplaceAll(s, rep))
    decreases |s|
  {
    if s == [] {
      ShortHasNoMarker([]);
    } else if Marker <= s {
      ReplaceAllRemovesMarker(s[|Marker|..], rep);
      BraceFreePrefix(rep, ReplaceAll(s[|Marker|..], rep));
    } else {
      var r := ReplaceAll(s[1..], rep);
      ReplaceAllRemovesMarker(s[1..], rep);
      CopiedMarkerTail(s[1..], rep, 1);
      var tail := Marker[1..];
      assert ([s[0]] + r)[1..] == r;
      assert Marker == [Marker[0]] + tail;
      assert Marker <= [s[0]] + r ==> tail <= r;
      assert tail <= s[1..] && s[0] == Marker[0] ==> Marker <= s;
    }
  }

  /** With such a snippet, replacing a second time changes nothing. */
  lemma ReplaceAllIdempotent(s: string, rep: string)
    requires rep != [] && rep[0] !in Marker && '{' !in rep
    ensures ReplaceAll(ReplaceAll(s, rep), rep) == ReplaceAll(s, rep)
  {
    ReplaceAllRemovesMarker(s, rep);
  }
}
