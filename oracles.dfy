/** The POSIX expectations of the library's own test suite, stated of the
    functions the Path methods are proved against. Each concrete text is
    worked out from its segments and the stack the `sanitize` loop leaves. */
module Oracles {
  import opened Text
  import opened PathString
  import opened Sanitizer
  import opened Navigation
  import opened FileNames

  // The segments of a text made of two runs of segments joined by a separator.
  lemma SplitPieces(s: string, xs: seq<string>, ys: seq<string>, x: string, y: string)
    requires NoSeparators(xs) && NoSeparators(ys) && xs != [] && ys != []
    requires Join(xs) == x && Join(ys) == y && s == x + [SEPARATOR] + y
    ensures Split(s) == xs + ys
  {
    JoinConcat(xs, ys);
    assert NoSeparators(xs + ys) by {
      forall i | 0 <= i < |xs + ys| ensures SeparatorFree((xs + ys)[i]) {
        if i >= |xs| {
          assert (xs + ys)[i] == ys[i - |xs|];
        }
      }
    }
    SplitJoin(xs + ys);
  }

  // The loop over two runs of segments, each worked out front to back.
  lemma PrunePieces(segments: seq<string>, xs: seq<string>, ys: seq<string>, relative: bool, middle: seq<string>, pruned: seq<string>)
    requires segments == xs + ys
    requires StepAll([], xs, relative) == middle && StepAll(middle, ys, relative) == pruned
    ensures PruneOnto([], segments, relative) == pruned
  {
    PruneOntoConcat([], xs, ys, relative);
    PruneOntoStepAll([], xs, relative);
    PruneOntoStepAll(middle, ys, relative);
  }

  // A text whose last non-separator character sits just before `k` trims to its first `k` characters.
  lemma TrimmedAt(s: string, k: nat)
    requires 0 < k <= |s| && s[k - 1] != SEPARATOR
    requires forall i :: k <= i < |s| ==> s[i] == SEPARATOR
    ensures Trimmed(s) == s[..k]
  {
  }

  /** `root << "hello" << "how" << "are" << "you"` from "/". */
  lemma AppendChain()
    ensures Appended(Appended(Appended(Appended("/", "hello"), "how"), "are"), "you") == "/hello/how/are/you"
  {
  }

  /** The same chain with the texts "5" and "3.14" that the stream writes
      for the numbers. */
  lemma AppendNumbers()
    ensures Appended(Appended(Appended(Appended(Appended("/", "hello"), "5"), "how"), "3.14"), "are") == "/hello/5/how/3.14/are"
  {
  }

  /** `Path("foo/bar") + "baz"`. */
  lemma PlusExample()
    ensures Appended("foo/bar", "baz") == "foo/bar/baz"
  {
  }

  /** `trim` on a path with a run of separators, with none, and with one. */
  lemma TrimExamples()
    ensures Trimmed("/hello/how/are/you////") == "/hello/how/are/you"
    ensures Trimmed("/hello/how/are/you") == "/hello/how/are/you"
    ensures Trimmed("/hello/how/are/you/") == "/hello/how/are/you"
  {
    TrimmedAt("/hello/how/are/you////", 18);
    TrimmedAt("/hello/how/are/you", 18);
    TrimmedAt("/hello/how/are/you/", 18);
  }

  /** `trim` takes the root away too: a path of separators only trims to "". */
  lemma TrimRoot()
    ensures Trimmed("///") == ""
    ensures Trimmed("/") == ""
  {
  }

  /** `directory` on a path without, with one and with two final separators. */
  lemma DirectoryExamples()
    ensures AsDirectory("/hello/how/are/you") == "/hello/how/are/you/"
    ensures AsDirectory("/hello/how/are/you/") == "/hello/how/are/you/"
    ensures AsDirectory("/hello/how/are/you//") == "/hello/how/are/you/"
  {
    TrimmedAt("/hello/how/are/you", 18);
    TrimmedAt("/hello/how/are/you/", 18);
    TrimmedAt("/hello/how/are/you//", 18);
  }

  /** `relative`: a relative argument is appended whether or not the path
      ends in a separator; an absolute one replaces the path. */
  lemma RelativeExamples()
    ensures Resolved("/hello/how/are/you", "foo") == "/hello/how/are/you/foo"
    ensures Resolved("/hello/how/are/you/", "foo") == "/hello/how/are/you/foo"
    ensures Resolved("/hello/how/are/you", "/fine/thank/you") == "/fine/thank/you"
  {
  }

  // The segments of "foo///bar/a/b/../c", first run.
  lemma SanitizeRelativeFrontSegments()
    ensures NoSeparators(["foo", "", "", "bar"]) && Join(["foo", "", "", "bar"]) == "foo///bar"
  {
    var segments := ["foo", "", "", "bar"];
    forall i | 0 <= i < |segments| ensures SeparatorFree(segments[i]) {
      assert segments[i] in segments;
    }
  }

  // The segments of "foo///bar/a/b/../c", second run.
  lemma SanitizeRelativeBackSegments()
    ensures NoSeparators(["a", "b", "..", "c"]) && Join(["a", "b", "..", "c"]) == "a/b/../c"
  {
    var segments := ["a", "b", "..", "c"];
    forall i | 0 <= i < |segments| ensures SeparatorFree(segments[i]) {
      assert segments[i] in segments;
    }
  }

  // The stack the loop leaves for "foo///bar/a/b/../c".
  lemma SanitizeRelativeStack()
    ensures StepAll([], ["foo", "", "", "bar"], true) == ["foo", "bar"]
    ensures StepAll(["foo", "bar"], ["a", "b", "..", "c"], true) == ["foo", "bar", "a", "c"]
  {
  }

  /** `split("foo///bar/a/b/../c")`. */
  lemma SanitizeRelativeSplit(s: string)
    requires s == "foo///bar/a/b/../c"
    ensures Split(s) == ["foo", "", "", "bar", "a", "b", "..", "c"]
  {
    var xs, ys := ["foo", "", "", "bar"], ["a", "b", "..", "c"];
    assert s == "foo///bar" + [SEPARATOR] + "a/b/../c";
    assert xs + ys == ["foo", "", "", "bar", "a", "b", "..", "c"];
    SanitizeRelativeFrontSegments();
    SanitizeRelativeBackSegments();
    SplitPieces(s, xs, ys, "foo///bar", "a/b/../c");
  }

  // The stack `sanitize` builds for "foo///bar/a/b/../c".
  lemma SanitizeRelativePruned(s: string)
    requires s == "foo///bar/a/b/../c"
    ensures Pruned(s) == ["foo", "bar", "a", "c"]
  {
    SanitizeRelativeSplit(s);
    SanitizeRelativeStack();
    SanitizeRelativeFrontSegments();
    SanitizeRelativeBackSegments();
    var xs, ys := ["foo", "", "", "bar"], ["a", "b", "..", "c"];
    assert xs + ys == ["foo", "", "", "bar", "a", "b", "..", "c"];
    PrunePieces(["foo", "", "", "bar", "a", "b", "..", "c"], xs, ys, true, ["foo", "bar"], ["foo", "bar", "a", "c"]);
  }

  // The stack of "foo///bar/a/b/../c" framed and joined.
  lemma SanitizeRelativeJoined()
    ensures Join(Framed(["foo", "bar", "a", "c"], false, false)) == "foo/bar/a/c"
  {
    assert Framed(["foo", "bar", "a", "c"], false, false) == ["foo", "bar", "a", "c"];
  }

  /** `sanitize` drops empty segments and a name followed by "..". */
  lemma SanitizeRelative(s: string)
    requires s == "foo///bar/a/b/../c"
    ensures Sanitized(s) == "foo/bar/a/c"
  {
    SanitizeRelativePruned(s);
    SanitizeRelativeJoined();
    SanitizedJoin(s);
  }

  // The segments of "../foo///bar/a/b/../c", first run.
  lemma SanitizeLeadingParentFrontSegments()
    ensures NoSeparators(["..", "foo", "", "", "bar"]) && Join(["..", "foo", "", "", "bar"]) == "../foo///bar"
  {
    var segments := ["..", "foo", "", "", "bar"];
    forall i | 0 <= i < |segments| ensures SeparatorFree(segments[i]) {
      assert segments[i] in segments;
    }
  }

  // The segments of "../foo///bar/a/b/../c", second run.
  lemma SanitizeLeadingParentBackSegments()
    ensures NoSeparators(["a", "b", "..", "c"]) && Join(["a", "b", "..", "c"]) == "a/b/../c"
  {
    var segments := ["a", "b", "..", "c"];
    forall i | 0 <= i < |segments| ensures SeparatorFree(segments[i]) {
      assert segments[i] in segments;
    }
  }

  // The stack the loop leaves for "../foo///bar/a/b/../c".
  lemma SanitizeLeadingParentStack()
    ensures StepAll([], ["..", "foo", "", "", "bar"], true) == ["..", "foo", "bar"]
    ensures StepAll(["..", "foo", "bar"], ["a", "b", "..", "c"], true) == ["..", "foo", "bar", "a", "c"]
  {
  }

  /** `split("../foo///bar/a/b/../c")`. */
  lemma SanitizeLeadingParentSplit(s: string)
    requires s == "../foo///bar/a/b/../c"
    ensures Split(s) == ["..", "foo", "", "", "bar", "a", "b", "..", "c"]
  {
    var xs, ys := ["..", "foo", "", "", "bar"], ["a", "b", "..", "c"];
    assert s == "../foo///bar" + [SEPARATOR] + "a/b/../c";
    assert xs + ys == ["..", "foo", "", "", "bar", "a", "b", "..", "c"];
    SanitizeLeadingParentFrontSegments();
    SanitizeLeadingParentBackSegments();
    SplitPieces(s, xs, ys, "../foo///bar", "a/b/../c");
  }

  // The stack `sanitize` builds for "../foo///bar/a/b/../c".
  lemma SanitizeLeadingParentPruned(s: string)
    requires s == "../foo///bar/a/b/../c"
    ensures Pruned(s) == ["..", "foo", "bar", "a", "c"]
  {
    SanitizeLeadingParentSplit(s);
    SanitizeLeadingParentStack();
    SanitizeLeadingParentFrontSegments();
    SanitizeLeadingParentBackSegments();
    var xs, ys := ["..", "foo", "", "", "bar"], ["a", "b", "..", "c"];
    assert xs + ys == ["..", "foo", "", "", "bar", "a", "b", "..", "c"];
    PrunePieces(["..", "foo", "", "", "bar", "a", "b", "..", "c"], xs, ys, true, ["..", "foo", "bar"], ["..", "foo", "bar", "a", "c"]);
  }

  // The stack of "../foo///bar/a/b/../c" framed and joined.
  lemma SanitizeLeadingParentJoined()
    ensures Join(Framed(["..", "foo", "bar", "a", "c"], false, false)) == "../foo/bar/a/c"
  {
    assert Framed(["..", "foo", "bar", "a", "c"], false, false) == ["..", "foo", "bar", "a", "c"];
  }

  /** A leading ".." of a relative path has nothing to pop and is kept. */
  lemma SanitizeLeadingParent(s: string)
    requires s == "../foo///bar/a/b/../c"
    ensures Sanitized(s) == "../foo/bar/a/c"
  {
    SanitizeLeadingParentPruned(s);
    SanitizeLeadingParentJoined();
    SanitizedJoin(s);
  }

  // The segments of "../../a/b////c", first run.
  lemma SanitizeParentRunFrontSegments()
    ensures NoSeparators(["..", "..", "a", "b"]) && Join(["..", "..", "a", "b"]) == "../../a/b"
  {
    var segments := ["..", "..", "a", "b"];
    forall i | 0 <= i < |segments| ensures SeparatorFree(segments[i]) {
      assert segments[i] in segments;
    }
  }

  // The segments of "../../a/b////c", second run.
  lemma SanitizeParentRunBackSegments()
    ensures NoSeparators(["", "", "", "c"]) && Join(["", "", "", "c"]) == "///c"
  {
    var segments := ["", "", "", "c"];
    forall i | 0 <= i < |segments| ensures SeparatorFree(segments[i]) {
      assert segments[i] in segments;
    }
  }

  // The stack the loop leaves for "../../a/b////c".
  lemma SanitizeParentRunStack()
    ensures StepAll([], ["..", "..", "a", "b"], true) == ["..", "..", "a", "b"]
    ensures StepAll(["..", "..", "a", "b"], ["", "", "", "c"], true) == ["..", "..", "a", "b", "c"]
  {
  }

  /** `split("../../a/b////c")`. */
  lemma SanitizeParentRunSplit(s: string)
    requires s == "../../a/b////c"
    ensures Split(s) == ["..", "..", "a", "b", "", "", "", "c"]
  {
    var xs, ys := ["..", "..", "a", "b"], ["", "", "", "c"];
    assert s == "../../a/b" + [SEPARATOR] + "///c";
    assert xs + ys == ["..", "..", "a", "b", "", "", "", "c"];
    SanitizeParentRunFrontSegments();
    SanitizeParentRunBackSegments();
    SplitPieces(s, xs, ys, "../../a/b", "///c");
  }

  // The stack `sanitize` builds for "../../a/b////c".
  lemma SanitizeParentRunPruned(s: string)
    requires s == "../../a/b////c"
    ensures Pruned(s) == ["..", "..", "a", "b", "c"]
  {
    SanitizeParentRunSplit(s);
    SanitizeParentRunStack();
    SanitizeParentRunFrontSegments();
    SanitizeParentRunBackSegments();
    var xs, ys := ["..", "..", "a", "b"], ["", "", "", "c"];
    assert xs + ys == ["..", "..", "a", "b", "", "", "", "c"];
    PrunePieces(["..", "..", "a", "b", "", "", "", "c"], xs, ys, true, ["..", "..", "a", "b"], ["..", "..", "a", "b", "c"]);
  }

  // The stack of "../../a/b////c" framed and joined.
  lemma SanitizeParentRunJoined()
    ensures Join(Framed(["..", "..", "a", "b", "c"], false, false)) == "../../a/b/c"
  {
    assert Framed(["..", "..", "a", "b", "c"], false, false) == ["..", "..", "a", "b", "c"];
  }

  /** A run of leading ".." is kept in a relative path. */
  lemma SanitizeParentRun(s: string)
    requires s == "../../a/b////c"
    ensures Sanitized(s) == "../../a/b/c"
  {
    SanitizeParentRunPruned(s);
    SanitizeParentRunJoined();
    SanitizedJoin(s);
  }

  // The segments of "/../../a/b////c", first run.
  lemma SanitizeAbsoluteParentsFrontSegments()
    ensures NoSeparators(["", "..", "..", "a", "b"]) && Join(["", "..", "..", "a", "b"]) == "/../../a/b"
  {
    var segments := ["", "..", "..", "a", "b"];
    forall i | 0 <= i < |segments| ensures SeparatorFree(segments[i]) {
      assert segments[i] in segments;
    }
  }

  // The segments of "/../../a/b////c", second run.
  lemma SanitizeAbsoluteParentsBackSegments()
    ensures NoSeparators(["", "", "", "c"]) && Join(["", "", "", "c"]) == "///c"
  {
    var segments := ["", "", "", "c"];
    forall i | 0 <= i < |segments| ensures SeparatorFree(segments[i]) {
      assert segments[i] in segments;
    }
  }

  // The stack the loop leaves for "/../../a/b////c".
  lemma SanitizeAbsoluteParentsStack()
    ensures StepAll([], ["", "..", "..", "a", "b"], false) == ["a", "b"]
    ensures StepAll(["a", "b"], ["", "", "", "c"], false) == ["a", "b", "c"]
  {
  }

  /** `split("/../../a/b////c")`. */
  lemma SanitizeAbsoluteParentsSplit(s: string)
    requires s == "/../../a/b////c"
    ensures Split(s) == ["", "..", "..", "a", "b", "", "", "", "c"]
  {
    var xs, ys := ["", "..", "..", "a", "b"], ["", "", "", "c"];
    assert s == "/../../a/b" + [SEPARATOR] + "///c";
    assert xs + ys == ["", "..", "..", "a", "b", "", "", "", "c"];
    SanitizeAbsoluteParentsFrontSegments();
    SanitizeAbsoluteParentsBackSegments();
    SplitPieces(s, xs, ys, "/../../a/b", "///c");
  }

  // The stack `sanitize` builds for "/../../a/b////c".
  lemma SanitizeAbsoluteParentsPruned(s: string)
    requires s == "/../../a/b////c"
    ensures Pruned(s) == ["a", "b", "c"]
  {
    SanitizeAbsoluteParentsSplit(s);
    SanitizeAbsoluteParentsStack();
    SanitizeAbsoluteParentsFrontSegments();
    SanitizeAbsoluteParentsBackSegments();
    var xs, ys := ["", "..", "..", "a", "b"], ["", "", "", "c"];
    assert xs + ys == ["", "..", "..", "a", "b", "", "", "", "c"];
    PrunePieces(["", "..", "..", "a", "b", "", "", "", "c"], xs, ys, false, ["a", "b"], ["a", "b", "c"]);
  }

  // The stack of "/../../a/b////c" framed and joined.
  lemma SanitizeAbsoluteParentsJoined()
    ensures Join(Framed(["a", "b", "c"], true, false)) == "/a/b/c"
  {
    assert Framed(["a", "b", "c"], true, false) == ["", "a", "b", "c"];
  }

  /** At the root of an absolute path ".." is dropped. */
  lemma SanitizeAbsoluteParents(s: string)
    requires s == "/../../a/b////c"
    ensures Sanitized(s) == "/a/b/c"
  {
    SanitizeAbsoluteParentsPruned(s);
    SanitizeAbsoluteParentsJoined();
    SanitizedJoin(s);
  }

  // The segments of "/./././a/./b/../../c", first run.
  lemma SanitizeCurrentFrontSegments()
    ensures NoSeparators(["", ".", ".", ".", "a"]) && Join(["", ".", ".", ".", "a"]) == "/./././a"
  {
    var segments := ["", ".", ".", ".", "a"];
    forall i | 0 <= i < |segments| ensures SeparatorFree(segments[i]) {
      assert segments[i] in segments;
    }
  }

  // The segments of "/./././a/./b/../../c", second run.
  lemma SanitizeCurrentBackSegments()
    ensures NoSeparators([".", "b", "..", "..", "c"]) && Join([".", "b", "..", "..", "c"]) == "./b/../../c"
  {
    var segments := [".", "b", "..", "..", "c"];
    forall i | 0 <= i < |segments| ensures SeparatorFree(segments[i]) {
      assert segments[i] in segments;
    }
  }

  // The stack the loop leaves for "/./././a/./b/../../c".
  lemma SanitizeCurrentStack()
    ensures StepAll([], ["", ".", ".", ".", "a"], false) == ["a"]
    ensures StepAll(["a"], [".", "b", "..", "..", "c"], false) == ["c"]
  {
  }

  /** `split("/./././a/./b/../../c")`. */
  lemma SanitizeCurrentSplit(s: string)
    requires s == "/./././a/./b/../../c"
    ensures Split(s) == ["", ".", ".", ".", "a", ".", "b", "..", "..", "c"]
  {
    var xs, ys := ["", ".", ".", ".", "a"], [".", "b", "..", "..", "c"];
    assert s == "/./././a" + [SEPARATOR] + "./b/../../c";
    assert xs + ys == ["", ".", ".", ".", "a", ".", "b", "..", "..", "c"];
    SanitizeCurrentFrontSegments();
    SanitizeCurrentBackSegments();
    SplitPieces(s, xs, ys, "/./././a", "./b/../../c");
  }

  // The stack `sanitize` builds for "/./././a/./b/../../c".
  lemma SanitizeCurrentPruned(s: string)
    requires s == "/./././a/./b/../../c"
    ensures Pruned(s) == ["c"]
  {
    SanitizeCurrentSplit(s);
    SanitizeCurrentStack();
    SanitizeCurrentFrontSegments();
    SanitizeCurrentBackSegments();
    var xs, ys := ["", ".", ".", ".", "a"], [".", "b", "..", "..", "c"];
    assert xs + ys == ["", ".", ".", ".", "a", ".", "b", "..", "..", "c"];
    PrunePieces(["", ".", ".", ".", "a", ".", "b", "..", "..", "c"], xs, ys, false, ["a"], ["c"]);
  }

  // The stack of "/./././a/./b/../../c" framed and joined.
  lemma SanitizeCurrentJoined()
    ensures Join(Framed(["c"], true, false)) == "/c"
  {
    assert Framed(["c"], true, false) == ["", "c"];
  }

  /** "." segments are dropped, and ".." pops back to the root. */
  lemma SanitizeCurrent(s: string)
    requires s == "/./././a/./b/../../c"
    ensures Sanitized(s) == "/c"
  {
    SanitizeCurrentPruned(s);
    SanitizeCurrentJoined();
    SanitizedJoin(s);
  }

  // The segments of "././a/b/c/", first run.
  lemma SanitizeDirectoryFrontSegments()
    ensures NoSeparators([".", ".", "a"]) && Join([".", ".", "a"]) == "././a"
  {
    var segments := [".", ".", "a"];
    forall i | 0 <= i < |segments| ensures SeparatorFree(segments[i]) {
      assert segments[i] in segments;
    }
  }

  // The segments of "././a/b/c/", second run.
  lemma SanitizeDirectoryBackSegments()
    ensures NoSeparators(["b", "c", ""]) && Join(["b", "c", ""]) == "b/c/"
  {
    var segments := ["b", "c", ""];
    forall i | 0 <= i < |segments| ensures SeparatorFree(segments[i]) {
      assert segments[i] in segments;
    }
  }

  // The stack the loop leaves for "././a/b/c/".
  lemma SanitizeDirectoryStack()
    ensures StepAll([], [".", ".", "a"], true) == ["a"]
    ensures StepAll(["a"], ["b", "c", ""], true) == ["a", "b", "c"]
  {
  }

  /** `split("././a/b/c/")`. */
  lemma SanitizeDirectorySplit(s: string)
    requires s == "././a/b/c/"
    ensures Split(s) == [".", ".", "a", "b", "c", ""]
  {
    var xs, ys := [".", ".", "a"], ["b", "c", ""];
    assert s == "././a" + [SEPARATOR] + "b/c/";
    assert xs + ys == [".", ".", "a", "b", "c", ""];
    SanitizeDirectoryFrontSegments();
    SanitizeDirectoryBackSegments();
    SplitPieces(s, xs, ys, "././a", "b/c/");
  }

  // The stack `sanitize` builds for "././a/b/c/".
  lemma SanitizeDirectoryPruned(s: string)
    requires s == "././a/b/c/"
    ensures Pruned(s) == ["a", "b", "c"]
  {
    SanitizeDirectorySplit(s);
    SanitizeDirectoryStack();
    SanitizeDirectoryFrontSegments();
    SanitizeDirectoryBackSegments();
    var xs, ys := [".", ".", "a"], ["b", "c", ""];
    assert xs + ys == [".", ".", "a", "b", "c", ""];
    PrunePieces([".", ".", "a", "b", "c", ""], xs, ys, true, ["a"], ["a", "b", "c"]);
  }

  // The stack of "././a/b/c/" framed and joined.
  lemma SanitizeDirectoryJoined()
    ensures Join(Framed(["a", "b", "c"], false, true)) == "a/b/c/"
  {
    assert Framed(["a", "b", "c"], false, true) == ["a", "b", "c", ""];
  }

  /** A relative directory keeps its final separator. */
  lemma SanitizeDirectory(s: string)
    requires s == "././a/b/c/"
    ensures Sanitized(s) == "a/b/c/"
  {
    SanitizeDirectoryPruned(s);
    SanitizeDirectoryJoined();
    SanitizedJoin(s);
  }

  // The segments of "foo////a/b/../c/", first run.
  lemma SanitizeEquivalentLeftFrontSegments()
    ensures NoSeparators(["foo", "", "", "", "a"]) && Join(["foo", "", "", "", "a"]) == "foo////a"
  {
    var segments := ["foo", "", "", "", "a"];
    forall i | 0 <= i < |segments| ensures SeparatorFree(segments[i]) {
      assert segments[i] in segments;
    }
  }

  // The segments of "foo////a/b/../c/", second run.
  lemma SanitizeEquivalentLeftBackSegments()
    ensures NoSeparators(["b", "..", "c", ""]) && Join(["b", "..", "c", ""]) == "b/../c/"
  {
    var segments := ["b", "..", "c", ""];
    forall i | 0 <= i < |segments| ensures SeparatorFree(segments[i]) {
      assert segments[i] in segments;
    }
  }

  // The stack the loop leaves for "foo////a/b/../c/".
  lemma SanitizeEquivalentLeftStack()
    ensures StepAll([], ["foo", "", "", "", "a"], true) == ["foo", "a"]
    ensures StepAll(["foo", "a"], ["b", "..", "c", ""], true) == ["foo", "a", "c"]
  {
  }

  /** `split("foo////a/b/../c/")`. */
  lemma SanitizeEquivalentLeftSplit(s: string)
    requires s == "foo////a/b/../c/"
    ensures Split(s) == ["foo", "", "", "", "a", "b", "..", "c", ""]
  {
    var xs, ys := ["foo", "", "", "", "a"], ["b", "..", "c", ""];
    assert s == "foo////a" + [SEPARATOR] + "b/../c/";
    assert xs + ys == ["foo", "", "", "", "a", "b", "..", "c", ""];
    SanitizeEquivalentLeftFrontSegments();
    SanitizeEquivalentLeftBackSegments();
    SplitPieces(s, xs, ys, "foo////a", "b/../c/");
  }

  // The stack `sanitize` builds for "foo////a/b/../c/".
  lemma SanitizeEquivalentLeftPruned(s: string)
    requires s == "foo////a/b/../c/"
    ensures Pruned(s) == ["foo", "a", "c"]
  {
    SanitizeEquivalentLeftSplit(s);
    SanitizeEquivalentLeftStack();
    SanitizeEquivalentLeftFrontSegments();
    SanitizeEquivalentLeftBackSegments();
    var xs, ys := ["foo", "", "", "", "a"], ["b", "..", "c", ""];
    assert xs + ys == ["foo", "", "", "", "a", "b", "..", "c", ""];
    PrunePieces(["foo", "", "", "", "a", "b", "..", "c", ""], xs, ys, true, ["foo", "a"], ["foo", "a", "c"]);
  }

  // The stack of "foo////a/b/../c/" framed and joined.
  lemma SanitizeEquivalentLeftJoined()
    ensures Join(Framed(["foo", "a", "c"], false, true)) == "foo/a/c/"
  {
    assert Framed(["foo", "a", "c"], false, true) == ["foo", "a", "c", ""];
  }

  /** The left-hand path of the first `equivalent` expectation. */
  lemma SanitizeEquivalentLeft(s: string)
    requires s == "foo////a/b/../c/"
    ensures Sanitized(s) == "foo/a/c/"
  {
    SanitizeEquivalentLeftPruned(s);
    SanitizeEquivalentLeftJoined();
    SanitizedJoin(s);
  }

  // The segments of "foo/a/c/".
  lemma SanitizeEquivalentRightSegments()
    ensures NoSeparators(["foo", "a", "c", ""]) && Join(["foo", "a", "c", ""]) == "foo/a/c/"
  {
    var segments := ["foo", "a", "c", ""];
    forall i | 0 <= i < |segments| ensures SeparatorFree(segments[i]) {
      assert segments[i] in segments;
    }
  }

  // The stack the loop leaves for "foo/a/c/".
  lemma SanitizeEquivalentRightStack()
    ensures StepAll([], ["foo", "a", "c", ""], true) == ["foo", "a", "c"]
  {
  }

  /** `split("foo/a/c/")`. */
  lemma SanitizeEquivalentRightSplit(s: string)
    requires s == "foo/a/c/"
    ensures Split(s) == ["foo", "a", "c", ""]
  {
    SanitizeEquivalentRightSegments();
    SplitJoin(["foo", "a", "c", ""]);
  }

  // The stack `sanitize` builds for "foo/a/c/".
  lemma SanitizeEquivalentRightPruned(s: string)
    requires s == "foo/a/c/"
    ensures Pruned(s) == ["foo", "a", "c"]
  {
    SanitizeEquivalentRightSplit(s);
    SanitizeEquivalentRightStack();
    PruneOntoStepAll([], ["foo", "a", "c", ""], true);
  }

  // The stack of "foo/a/c/" framed and joined.
  lemma SanitizeEquivalentRightJoined()
    ensures Join(Framed(["foo", "a", "c"], false, true)) == "foo/a/c/"
  {
    assert Framed(["foo", "a", "c"], false, true) == ["foo", "a", "c", ""];
  }

  /** The right-hand path of the first `equivalent` expectation is already sanitized. */
  lemma SanitizeEquivalentRight(s: string)
    requires s == "foo/a/c/"
    ensures Sanitized(s) == "foo/a/c/"
  {
    SanitizeEquivalentRightPruned(s);
    SanitizeEquivalentRightJoined();
    SanitizedJoin(s);
  }

  // The segments of "/hello/how/are/you", first run.
  lemma ParentOfFileFrontSegments()
    ensures NoSeparators(["", "hello", "how"]) && Join(["", "hello", "how"]) == "/hello/how"
  {
    var segments := ["", "hello", "how"];
    forall i | 0 <= i < |segments| ensures SeparatorFree(segments[i]) {
      assert segments[i] in segments;
    }
  }

  // The segments of "/hello/how/are/you", second run.
  lemma ParentOfFileBackSegments()
    ensures NoSeparators(["are", "you"]) && Join(["are", "you"]) == "are/you"
  {
    var segments := ["are", "you"];
    forall i | 0 <= i < |segments| ensures SeparatorFree(segments[i]) {
      assert segments[i] in segments;
    }
  }

  // The stack the loop leaves for "/hello/how/are/you", and the stack after one more "..".
  lemma ParentOfFileStack()
    ensures StepAll([], ["", "hello", "how"], false) == ["hello", "how"]
    ensures StepAll(["hello", "how"], ["are", "you"], false) == ["hello", "how", "are", "you"]
    ensures Step(["hello", "how", "are", "you"], PARENT, false) == ["hello", "how", "are"]
  {
  }

  /** `split("/hello/how/are/you")`. */
  lemma ParentOfFileSplit(s: string)
    requires s == "/hello/how/are/you"
    ensures Split(s) == ["", "hello", "how", "are", "you"]
  {
    var xs, ys := ["", "hello", "how"], ["are", "you"];
    assert s == "/hello/how" + [SEPARATOR] + "are/you";
    assert xs + ys == ["", "hello", "how", "are", "you"];
    ParentOfFileFrontSegments();
    ParentOfFileBackSegments();
    SplitPieces(s, xs, ys, "/hello/how", "are/you");
  }

  // The stack `sanitize` builds for "/hello/how/are/you".
  lemma ParentOfFilePruned(s: string)
    requires s == "/hello/how/are/you"
    ensures Pruned(s) == ["hello", "how", "are", "you"]
  {
    ParentOfFileSplit(s);
    ParentOfFileStack();
    ParentOfFileFrontSegments();
    ParentOfFileBackSegments();
    var xs, ys := ["", "hello", "how"], ["are", "you"];
    assert xs + ys == ["", "hello", "how", "are", "you"];
    PrunePieces(["", "hello", "how", "are", "you"], xs, ys, false, ["hello", "how"], ["hello", "how", "are", "you"]);
  }

  // The stack of "/hello/how/are/you" after one more "..", framed as a directory and joined.
  lemma ParentOfFileJoined()
    ensures Join(Framed(["hello", "how", "are"], true, true)) == "/hello/how/are/"
  {
    assert Framed(["hello", "how", "are"], true, true) == ["", "hello", "how", "are", ""];
  }

  /** The parent of an absolute file path is its directory. */
  lemma ParentOfFile(s: string)
    requires s == "/hello/how/are/you"
    ensures Parent(s) == "/hello/how/are/"
  {
    ParentOfFilePruned(s);
    ParentOfFileStack();
    ParentOfFileJoined();
    ParentJoin(s);
  }

  // The segments of "/hello/how/are/", first run.
  lemma ParentOfDirectoryFrontSegments()
    ensures NoSeparators(["", "hello", "how"]) && Join(["", "hello", "how"]) == "/hello/how"
  {
    var segments := ["", "hello", "how"];
    forall i | 0 <= i < |segments| ensures SeparatorFree(segments[i]) {
      assert segments[i] in segments;
    }
  }

  // The segments of "/hello/how/are/", second run.
  lemma ParentOfDirectoryBackSegments()
    ensures NoSeparators(["are", ""]) && Join(["are", ""]) == "are/"
  {
    var segments := ["are", ""];
    forall i | 0 <= i < |segments| ensures SeparatorFree(segments[i]) {
      assert segments[i] in segments;
    }
  }

  // The stack the loop leaves for "/hello/how/are/", and the stack after one more "..".
  lemma ParentOfDirectoryStack()
    ensures StepAll([], ["", "hello", "how"], false) == ["hello", "how"]
    ensures StepAll(["hello", "how"], ["are", ""], false) == ["hello", "how", "are"]
    ensures Step(["hello", "how", "are"], PARENT, false) == ["hello", "how"]
  {
  }

  /** `split("/hello/how/are/")`. */
  lemma ParentOfDirectorySplit(s: string)
    requires s == "/hello/how/are/"
    ensures Split(s) == ["", "hello", "how", "are", ""]
  {
    var xs, ys := ["", "hello", "how"], ["are", ""];
    assert s == "/hello/how" + [SEPARATOR] + "are/";
    assert xs + ys == ["", "hello", "how", "are", ""];
    ParentOfDirectoryFrontSegments();
    ParentOfDirectoryBackSegments();
    SplitPieces(s, xs, ys, "/hello/how", "are/");
  }

  // The stack `sanitize` builds for "/hello/how/are/".
  lemma ParentOfDirectoryPruned(s: string)
    requires s == "/hello/how/are/"
    ensures Pruned(s) == ["hello", "how", "are"]
  {
    ParentOfDirectorySplit(s);
    ParentOfDirectoryStack();
    ParentOfDirectoryFrontSegments();
    ParentOfDirectoryBackSegments();
    var xs, ys := ["", "hello", "how"], ["are", ""];
    assert xs + ys == ["", "hello", "how", "are", ""];
    PrunePieces(["", "hello", "how", "are", ""], xs, ys, false, ["hello", "how"], ["hello", "how", "are"]);
  }

  // The stack of "/hello/how/are/" after one more "..", framed as a directory and joined.
  lemma ParentOfDirectoryJoined()
    ensures Join(Framed(["hello", "how"], true, true)) == "/hello/how/"
  {
    assert Framed(["hello", "how"], true, true) == ["", "hello", "how", ""];
  }

  /** The parent of an absolute directory drops its last name. */
  lemma ParentOfDirectory(s: string)
    requires s == "/hello/how/are/"
    ensures Parent(s) == "/hello/how/"
  {
    ParentOfDirectoryPruned(s);
    ParentOfDirectoryStack();
    ParentOfDirectoryJoined();
    ParentJoin(s);
  }

  // The segments of "/".
  lemma ParentOfRootSegments()
    ensures NoSeparators(["", ""]) && Join(["", ""]) == "/"
  {
    var segments := ["", ""];
    forall i | 0 <= i < |segments| ensures SeparatorFree(segments[i]) {
      assert segments[i] in segments;
    }
  }

  // The stack the loop leaves for "/", and the stack after one more "..".
  lemma ParentOfRootStack()
    ensures StepAll([], ["", ""], false) == []
    ensures Step([], PARENT, false) == []
  {
  }

  /** `split("/")`. */
  lemma ParentOfRootSplit(s: string)
    requires s == "/"
    ensures Split(s) == ["", ""]
  {
    ParentOfRootSegments();
    SplitJoin(["", ""]);
  }

  // The stack `sanitize` builds for "/".
  lemma ParentOfRootPruned(s: string)
    requires s == "/"
    ensures Pruned(s) == []
  {
    ParentOfRootSplit(s);
    ParentOfRootStack();
    PruneOntoStepAll([], ["", ""], false);
  }

  // The stack of "/" after one more "..", framed as a directory and joined.
  lemma ParentOfRootJoined()
    ensures Join(Framed([], true, true)) == "/"
  {
    assert Framed([], true, true) == ["", ""];
  }

  /** The root is its own parent. */
  lemma ParentOfRoot(s: string)
    requires s == "/"
    ensures Parent(s) == "/"
  {
    ParentOfRootPruned(s);
    ParentOfRootStack();
    ParentOfRootJoined();
    ParentJoin(s);
  }

  // The segments of "foo/bar".
  lemma ParentOfRelativeFileSegments()
    ensures NoSeparators(["foo", "bar"]) && Join(["foo", "bar"]) == "foo/bar"
  {
    var segments := ["foo", "bar"];
    forall i | 0 <= i < |segments| ensures SeparatorFree(segments[i]) {
      assert segments[i] in segments;
    }
  }

  // The stack the loop leaves for "foo/bar", and the stack after one more "..".
  lemma ParentOfRelativeFileStack()
    ensures StepAll([], ["foo", "bar"], true) == ["foo", "bar"]
    ensures Step(["foo", "bar"], PARENT, true) == ["foo"]
  {
  }

  /** `split("foo/bar")`. */
  lemma ParentOfRelativeFileSplit(s: string)
    requires s == "foo/bar"
    ensures Split(s) == ["foo", "bar"]
  {
    ParentOfRelativeFileSegments();
    SplitJoin(["foo", "bar"]);
  }

  // The stack `sanitize` builds for "foo/bar".
  lemma ParentOfRelativeFilePruned(s: string)
    requires s == "foo/bar"
    ensures Pruned(s) == ["foo", "bar"]
  {
    ParentOfRelativeFileSplit(s);
    ParentOfRelativeFileStack();
    PruneOntoStepAll([], ["foo", "bar"], true);
  }

  // The stack of "foo/bar" after one more "..", framed as a directory and joined.
  lemma ParentOfRelativeFileJoined()
    ensures Join(Framed(["foo"], false, true)) == "foo/"
  {
    assert Framed(["foo"], false, true) == ["foo", ""];
  }

  /** The parent of a relative file path is its directory. */
  lemma ParentOfRelativeFile(s: string)
    requires s == "foo/bar"
    ensures Parent(s) == "foo/"
  {
    ParentOfRelativeFilePruned(s);
    ParentOfRelativeFileStack();
    ParentOfRelativeFileJoined();
    ParentJoin(s);
  }

  // The segments of "foo/".
  lemma ParentOfRelativeDirectorySegments()
    ensures NoSeparators(["foo", ""]) && Join(["foo", ""]) == "foo/"
  {
    var segments := ["foo", ""];
    forall i | 0 <= i < |segments| ensures SeparatorFree(segments[i]) {
      assert segments[i] in segments;
    }
  }

  // The stack the loop leaves for "foo/", and the stack after one more "..".
  lemma ParentOfRelativeDirectoryStack()
    ensures StepAll([], ["foo", ""], true) == ["foo"]
    ensures Step(["foo"], PARENT, true) == []
  {
  }

  /** `split("foo/")`. */
  lemma ParentOfRelativeDirectorySplit(s: string)
    requires s == "foo/"
    ensures Split(s) == ["foo", ""]
  {
    ParentOfRelativeDirectorySegments();
    SplitJoin(["foo", ""]);
  }

  // The stack `sanitize` builds for "foo/".
  lemma ParentOfRelativeDirectoryPruned(s: string)
    requires s == "foo/"
    ensures Pruned(s) == ["foo"]
  {
    ParentOfRelativeDirectorySplit(s);
    ParentOfRelativeDirectoryStack();
    PruneOntoStepAll([], ["foo", ""], true);
  }

  // The stack of "foo/" after one more "..", framed as a directory and joined.
  lemma ParentOfRelativeDirectoryJoined()
    ensures Join(Framed([], false, false)) == ""
  {
    assert Framed([], false, false) == [];
  }

  /** The parent of a one-name relative directory is "". */
  lemma ParentOfRelativeDirectory(s: string)
    requires s == "foo/"
    ensures Parent(s) == ""
  {
    ParentOfRelativeDirectoryPruned(s);
    ParentOfRelativeDirectoryStack();
    ParentOfRelativeDirectoryJoined();
    ParentJoin(s);
  }

  // The segments of "foo/../bar/baz/a/../", first run.
  lemma ParentSanitizesFrontSegments()
    ensures NoSeparators(["foo", "..", "bar", "baz"]) && Join(["foo", "..", "bar", "baz"]) == "foo/../bar/baz"
  {
    var segments := ["foo", "..", "bar", "baz"];
    forall i | 0 <= i < |segments| ensures SeparatorFree(segments[i]) {
      assert segments[i] in segments;
    }
  }

  // The segments of "foo/../bar/baz/a/../", second run.
  lemma ParentSanitizesBackSegments()
    ensures NoSeparators(["a", "..", ""]) && Join(["a", "..", ""]) == "a/../"
  {
    var segments := ["a", "..", ""];
    forall i | 0 <= i < |segments| ensures SeparatorFree(segments[i]) {
      assert segments[i] in segments;
    }
  }

  // The stack the loop leaves for "foo/../bar/baz/a/../", and the stack after one more "..".
  lemma ParentSanitizesStack()
    ensures StepAll([], ["foo", "..", "bar", "baz"], true) == ["bar", "baz"]
    ensures StepAll(["bar", "baz"], ["a", "..", ""], true) == ["bar", "baz"]
    ensures Step(["bar", "baz"], PARENT, true) == ["bar"]
  {
  }

  /** `split("foo/../bar/baz/a/../")`. */
  lemma ParentSanitizesSplit(s: string)
    requires s == "foo/../bar/baz/a/../"
    ensures Split(s) == ["foo", "..", "bar", "baz", "a", "..", ""]
  {
    var xs, ys := ["foo", "..", "bar", "baz"], ["a", "..", ""];
    assert s == "foo/../bar/baz" + [SEPARATOR] + "a/../";
    assert xs + ys == ["foo", "..", "bar", "baz", "a", "..", ""];
    ParentSanitizesFrontSegments();
    ParentSanitizesBackSegments();
    SplitPieces(s, xs, ys, "foo/../bar/baz", "a/../");
  }

  // The stack `sanitize` builds for "foo/../bar/baz/a/../".
  lemma ParentSanitizesPruned(s: string)
    requires s == "foo/../bar/baz/a/../"
    ensures Pruned(s) == ["bar", "baz"]
  {
    ParentSanitizesSplit(s);
    ParentSanitizesStack();
    ParentSanitizesFrontSegments();
    ParentSanitizesBackSegments();
    var xs, ys := ["foo", "..", "bar", "baz"], ["a", "..", ""];
    assert xs + ys == ["foo", "..", "bar", "baz", "a", "..", ""];
    PrunePieces(["foo", "..", "bar", "baz", "a", "..", ""], xs, ys, true, ["bar", "baz"], ["bar", "baz"]);
  }

  // The stack of "foo/../bar/baz/a/../" after one more "..", framed as a directory and joined.
  lemma ParentSanitizesJoined()
    ensures Join(Framed(["bar"], false, true)) == "bar/"
  {
    assert Framed(["bar"], false, true) == ["bar", ""];
  }

  /** `parent` sanitizes before it climbs. */
  lemma ParentSanitizes(s: string)
    requires s == "foo/../bar/baz/a/../"
    ensures Parent(s) == "bar/"
  {
    ParentSanitizesPruned(s);
    ParentSanitizesStack();
    ParentSanitizesJoined();
    ParentJoin(s);
  }

  // The segments of "foo/bar/baz".
  lemma ThreeNamesSegments()
    ensures NoSeparators(["foo", "bar", "baz"]) && Join(["foo", "bar", "baz"]) == "foo/bar/baz"
  {
    var segments := ["foo", "bar", "baz"];
    forall i | 0 <= i < |segments| ensures SeparatorFree(segments[i]) {
      assert segments[i] in segments;
    }
  }

  /** `split("foo/bar/baz")`: three segments, the three names. */
  lemma ThreeNamesSplit(s: string)
    requires s == "foo/bar/baz"
    ensures Split(s) == ["foo", "bar", "baz"]
  {
    ThreeNamesSegments();
    SplitJoin(["foo", "bar", "baz"]);
  }

  // The segments of "foo/bar/baz/".
  lemma NamedDirectorySegments()
    ensures NoSeparators(["foo", "bar", "baz", ""]) && Join(["foo", "bar", "baz", ""]) == "foo/bar/baz/"
  {
    var segments := ["foo", "bar", "baz", ""];
    forall i | 0 <= i < |segments| ensures SeparatorFree(segments[i]) {
      assert segments[i] in segments;
    }
  }

  /** A final separator adds a fourth, empty segment. */
  lemma NamedDirectorySplit(s: string)
    requires s == "foo/bar/baz/"
    ensures Split(s) == ["foo", "bar", "baz", ""]
  {
    NamedDirectorySegments();
    SplitJoin(["foo", "bar", "baz", ""]);
  }

  // The segments of "/foo/bar/baz/", first run.
  lemma RootedDirectoryFrontSegments()
    ensures NoSeparators(["", "foo", "bar"]) && Join(["", "foo", "bar"]) == "/foo/bar"
  {
    var segments := ["", "foo", "bar"];
    forall i | 0 <= i < |segments| ensures SeparatorFree(segments[i]) {
      assert segments[i] in segments;
    }
  }

  // The segments of "/foo/bar/baz/", second run.
  lemma RootedDirectoryBackSegments()
    ensures NoSeparators(["baz", ""]) && Join(["baz", ""]) == "baz/"
  {
    var segments := ["baz", ""];
    forall i | 0 <= i < |segments| ensures SeparatorFree(segments[i]) {
      assert segments[i] in segments;
    }
  }

  /** A leading separator adds a fifth, empty segment in front. */
  lemma RootedDirectorySplit(s: string)
    requires s == "/foo/bar/baz/"
    ensures Split(s) == ["", "foo", "bar", "baz", ""]
  {
    var xs, ys := ["", "foo", "bar"], ["baz", ""];
    assert s == "/foo/bar" + [SEPARATOR] + "baz/";
    assert xs + ys == ["", "foo", "bar", "baz", ""];
    RootedDirectoryFrontSegments();
    RootedDirectoryBackSegments();
    SplitPieces(s, xs, ys, "/foo/bar", "baz/");
  }

  // The segments of "../foo/bar/".
  lemma ClimbPathSegments()
    ensures NoSeparators(["..", "foo", "bar", ""]) && Join(["..", "foo", "bar", ""]) == "../foo/bar/"
  {
    var segments := ["..", "foo", "bar", ""];
    forall i | 0 <= i < |segments| ensures SeparatorFree(segments[i]) {
      assert segments[i] in segments;
    }
  }

  // The stack the loop leaves for "../foo/bar/".
  lemma ClimbPathStack()
    ensures StepAll([], ["..", "foo", "bar", ""], true) == ["..", "foo", "bar"]
  {
  }

  /** `split("../foo/bar/")`. */
  lemma ClimbPathSplit(s: string)
    requires s == "../foo/bar/"
    ensures Split(s) == ["..", "foo", "bar", ""]
  {
    ClimbPathSegments();
    SplitJoin(["..", "foo", "bar", ""]);
  }

  // The stack `sanitize` builds for "../foo/bar/".
  lemma ClimbPathPruned(s: string)
    requires s == "../foo/bar/"
    ensures Pruned(s) == ["..", "foo", "bar"]
  {
    ClimbPathSplit(s);
    ClimbPathStack();
    PruneOntoStepAll([], ["..", "foo", "bar", ""], true);
  }

  /** `parent` twice from an absolute file path, and twice from a relative
      one, where the second step comes to "". */
  lemma ParentOfParent(s: string, t: string)
    requires s == "/hello/how/are/you" && t == "foo/bar"
    ensures Parent(Parent(s)) == "/hello/how/"
    ensures Parent(Parent(t)) == ""
  {
    ParentOfFile(s);
    ParentOfDirectory(Parent(s));
    ParentOfRelativeFile(t);
    ParentOfRelativeDirectory(Parent(t));
  }

  /** The two paths of the first `equivalent` expectation are equivalent
      under every working directory. */
  lemma EquivalentSanitizedPaths(p: string, q: string, cwd: string)
    requires p == "foo////a/b/../c/" && q == "foo/a/c/" && IsWorkingDirectory(cwd)
    ensures Equivalent(p, q, cwd)
  {
    SanitizeEquivalentLeft(p);
    SanitizeEquivalentRight(q);
    EquivalentBySanitized(p, q, cwd);
  }

  // Two plain names appended to an absolute path, then made a directory:
  // both names are pushed on the path's stack.
  lemma NamesDirectory(s: string, x: string, y: string)
    requires IsAbsolute(s) && IsName(x) && IsName(y)
    ensures var q := AsDirectory(Appended(Appended(s, x), y));
            IsAbsolute(q) && TrailingSlash(q) && Pruned(q) == Pruned(s) + [x] + [y]
  {
    assert x[0] != SEPARATOR && y[0] != SEPARATOR;
    var t := Appended(s, x);
    assert Resolved(s, x) == t;
    ResolvedName(s, x);
    assert Resolved(t, y) == Appended(t, y);
    ResolvedDirectoryName(t, y);
  }

  /** The parent of the working directory with "foo" and "bar" appended and
      made a directory: an absolute directory whose stack is the working
      directory's after one ".." step, with "foo" and "bar" pushed. */
  lemma DescendFromParent(cwd: string)
    requires IsWorkingDirectory(cwd)
    ensures var q := AsDirectory(Appended(Appended(Parent(cwd), "foo"), "bar"));
            IsAbsolute(q) && TrailingSlash(q) && Pruned(q) == Step(Pruned(cwd), PARENT, false) + ["foo"] + ["bar"]
  {
    var parent := Parent(cwd);
    assert IsAbsolute(parent) && Pruned(parent) == Step(Pruned(cwd), PARENT, false) by {
      ParentPruned(cwd);
      ParentShape(cwd);
    }
    FooBarNames();
    NamesDirectory(parent, "foo", "bar");
  }

  // The two names the expectation appends.
  lemma FooBarNames()
    ensures IsName("foo") && IsName("bar")
  {
  }

  /** "../foo/bar/" made absolute: an absolute directory whose stack is the
      working directory's after one ".." step, with "foo" and "bar" pushed. */
  lemma ClimbAbsolutized(p: string, cwd: string)
    requires p == "../foo/bar/" && IsWorkingDirectory(cwd)
    ensures var q := Absolutized(p, cwd);
            IsAbsolute(q) && TrailingSlash(q) && Pruned(q) == Step(Pruned(cwd), PARENT, false) + ["foo"] + ["bar"]
  {
    var up := Step(Pruned(cwd), PARENT, false);
    ClimbPathPruned(p);
    ResolvedPruned(cwd, p);
    PruneOntoStepAll(Pruned(cwd), [PARENT, "foo", "bar"], false);
    assert StepAll(Pruned(cwd), [PARENT, "foo", "bar"], false) == StepAll(up, ["foo", "bar"], false);
    assert StepAll(up, ["foo", "bar"], false) == StepAll(up + ["foo"], ["bar"], false);
    assert StepAll(up + ["foo"], ["bar"], false) == up + ["foo"] + ["bar"];
  }

  /** "../foo/bar/" is equivalent, under every working directory, to the
      parent of the working directory with "foo" and "bar" appended and
      made a directory. */
  lemma EquivalentClimbAndDescend(p: string, cwd: string)
    requires p == "../foo/bar/" && IsWorkingDirectory(cwd)
    ensures Equivalent(p, AsDirectory(Appended(Appended(Parent(cwd), "foo"), "bar")), cwd)
  {
    ClimbAbsolutized(p, cwd);
    DescendFromParent(cwd);
  }

  // A name cut at a '.' with a separator before it: the stem is the text
  // before the '.', the extension the text after it.
  lemma DottedName(base: string, ext: string)
    requires SEPARATOR in base && DotFree(ext) && SeparatorFree(ext)
    ensures Stem(base + [DOT] + ext) == base
    ensures Extension(base + [DOT] + ext) == ext
  {
    var s := base + [DOT] + ext;
    Reassembled(base, ext);
    assert SEPARATOR in s by {
      var i :| 0 <= i < |base| && base[i] == SEPARATOR;
      assert s[i] == SEPARATOR;
    }
    StemAt(s, |base|);
    ExtensionAt(s, |base|);
  }

  /** `extension` and `stem` of a file name with one extension. */
  lemma ExtensionOfFile(s: string)
    requires s == "foo/bar/baz.out"
    ensures Extension(s) == "out" && Stem(s) == "foo/bar/baz"
  {
    assert s == "foo/bar/baz" + [DOT] + "out";
    assert "foo/bar/baz"[3] == SEPARATOR;
    DottedName("foo/bar/baz", "out");
  }

  /** Only the outermost extension is taken. */
  lemma ExtensionOutermost(s: string)
    requires s == "foo/bar.baz.out"
    ensures Extension(s) == "out" && Stem(s) == "foo/bar.baz"
  {
    assert s == "foo/bar.baz" + [DOT] + "out";
    assert "foo/bar.baz"[3] == SEPARATOR;
    DottedName("foo/bar.baz", "out");
  }

  /** A '.' in a directory name is not an extension. */
  lemma ExtensionOfDirectory(s: string)
    requires s == "foo/bar.baz/out"
    ensures Extension(s) == "" && Stem(s) == s
  {
    assert !HasExtension(s) by {
      forall i | 0 <= i < |s| && s[i] == DOT
        ensures !SeparatorFree(s[i + 1..])
      {
        assert i == 7;
        assert s[i + 1..][3] == SEPARATOR;
      }
    }
    ExtensionNeedsStem(s);
  }

  /** `stem` pops one extension at a time, and a name without one is its
      own stem. */
  lemma StemChain(s: string)
    requires s == "foo.bar.baz.out"
    ensures Stem(s) == "foo.bar.baz"
    ensures Stem(Stem(s)) == "foo.bar"
    ensures Stem(Stem(Stem(s))) == "foo"
    ensures Stem(Stem(Stem(Stem(s)))) == "foo"
  {
    StemOfFourNames(s);
    StemOfThreeNames(Stem(s));
    StemOfTwoNames(Stem(Stem(s)));
    StemOfName(Stem(Stem(Stem(s))));
  }

  // The first step of the chain.
  lemma StemOfFourNames(s: string)
    requires s == "foo.bar.baz.out"
    ensures Stem(s) == "foo.bar.baz"
  {
    StemOnce(s, "foo.bar.baz", "out");
  }

  // The second step of the chain.
  lemma StemOfThreeNames(s: string)
    requires s == "foo.bar.baz"
    ensures Stem(s) == "foo.bar"
  {
    StemOnce(s, "foo.bar", "baz");
  }

  // The third step of the chain.
  lemma StemOfTwoNames(s: string)
    requires s == "foo.bar"
    ensures Stem(s) == "foo"
  {
    StemOnce(s, "foo", "bar");
  }

  // One step of the chain: the stem of a text cut at its last '.'.
  lemma StemOnce(s: string, base: string, ext: string)
    requires s == base + [DOT] + ext && DotFree(ext) && SeparatorFree(ext)
    ensures Stem(s) == base
  {
    Reassembled(base, ext);
    StemAt(s, |base|);
  }

  // The end of the chain: a name without a '.' is its own stem.
  lemma StemOfName(s: string)
    requires s == "foo"
    ensures Stem(s) == s
  {
    assert !HasExtension(s);
  }
}
