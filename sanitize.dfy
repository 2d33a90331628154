/** `Path::sanitize` on the POSIX branch: a stack pass over the segments of
    `split`, followed by re-joining and restoring the root and the
    directory marker. */
module Sanitizer {
  import opened PathString

  /** The segment that names the current directory. */
  const CURRENT: string := "."

  /** The segment that names the parent directory. */
  const PARENT: string := ".."

  /** One iteration of the loop of `sanitize` on the `pruned` stack: empty
      and "." segments are skipped; ".." pops a kept name, and when there is
      none it is kept in a relative path and dropped at the root of an
      absolute one; any other segment is pushed. */
  function Step(pruned: seq<string>, segment: string, relative: bool): (r: seq<string>)
    ensures r == pruned || r == pruned + [segment] || (|pruned| > 0 && r == pruned[..|pruned| - 1])
    ensures r == pruned + [segment] ==> segment != [] && segment != CURRENT
  {
    if segment == [] || segment == CURRENT then pruned
    else if segment == PARENT then
      if relative then
        if |pruned| > 0 && pruned[|pruned| - 1] != PARENT then pruned[..|pruned| - 1]
        else pruned + [segment]
      else if |pruned| > 0 then pruned[..|pruned| - 1]
      else pruned
    else pruned + [segment]
  }

  /** The stack after the loop has consumed `segments`, starting from `pruned`. */
  function PruneOnto(pruned: seq<string>, segments: seq<string>, relative: bool): (r: seq<string>)
    decreases |segments|
    ensures |r| <= |pruned| + |segments|
  {
    if segments == [] then pruned
    else Step(PruneOnto(pruned, segments[..|segments| - 1], relative), segments[|segments| - 1], relative)
  }

  /** The stack `sanitize` builds for a path. */
  function Pruned(s: string): (r: seq<string>)
    ensures |r| <= |Split(s)|
  {
    PruneOnto([], Split(s), !IsAbsolute(s))
  }

  /** A stack in normal form: every entry is a separator-free segment other
      than "" and "."; ".." entries form a leading run, and only a relative
      path keeps any. */
  predicate Normal(segments: seq<string>, relative: bool) {
    (forall i :: 0 <= i < |segments| ==>
      segments[i] != [] && segments[i] != CURRENT && SeparatorFree(segments[i])) &&
    (forall i :: 0 <= i < |segments| && segments[i] == PARENT ==> relative) &&
    (forall i, j :: 0 <= i < j < |segments| && segments[j] == PARENT ==> segments[i] == PARENT)
  }

  /** One loop iteration keeps the stack in normal form. */
  lemma StepNormal(pruned: seq<string>, segment: string, relative: bool)
    requires Normal(pruned, relative) && SeparatorFree(segment)
    ensures Normal(Step(pruned, segment, relative), relative)
  {
  }

  /** The whole loop keeps the stack in normal form. */
  lemma {:induction false} PruneNormal(pruned: seq<string>, segments: seq<string>, relative: bool)
    requires Normal(pruned, relative) && NoSeparators(segments)
    ensures Normal(PruneOnto(pruned, segments, relative), relative)
    decreases |segments|
  {
    if segments != [] {
      PruneNormal(pruned, segments[..|segments| - 1], relative);
      StepNormal(PruneOnto(pruned, segments[..|segments| - 1], relative), segments[|segments| - 1], relative);
    }
  }

  /** Running the loop over two runs of segments is running it over the
      first and continuing from that stack over the second. */
  lemma {:induction false} PruneOntoConcat(pruned: seq<string>, xs: seq<string>, ys: seq<string>, relative: bool)
    ensures PruneOnto(pruned, xs + ys, relative) == PruneOnto(PruneOnto(pruned, xs, relative), ys, relative)
    decreases |ys|
  {
    if ys == [] {
      assert xs + ys == xs;
    } else {
      var zs := ys[..|ys| - 1];
      assert (xs + ys)[..|xs + ys| - 1] == xs + zs;
      PruneOntoConcat(pruned, xs, zs, relative);
    }
  }

  /** A stack in normal form is rebuilt unchanged by the loop. */
  lemma {:induction false} PruneOfNormal(segments: seq<string>, relative: bool)
    requires Normal(segments, relative)
    ensures PruneOnto([], segments, relative) == segments
    decreases |segments|
  {
    if segments != [] {
      var front := segments[..|segments| - 1];
      assert Normal(front, relative);
      PruneOfNormal(front, relative);
      assert segments == front + [segments[|segments| - 1]];
    }
  }

  /** The path text `sanitize` writes back from its stack: a leading
      separator for an absolute path; a final separator when the input was a
      directory, except that a relative path that came to nothing stays "". */
  function Render(pruned: seq<string>, absolute: bool, wasDirectory: bool): (r: string)
  {
    if absolute then
      var rooted := [SEPARATOR] + Join(pruned);
      if wasDirectory then AsDirectory(rooted) else rooted
    else
      var joined := Join(pruned);
      if |joined| > 0 && wasDirectory then AsDirectory(joined) else joined
  }

  /** `sanitize` as a function of the path text. */
  function Sanitized(s: string): (r: string)
  {
    Render(Pruned(s), IsAbsolute(s), TrailingSlash(s))
  }

  /** A stack between the root's empty segment (for an absolute path) and the
      directory marker's empty segment (for a path ending in a separator). */
  function Framed(pruned: seq<string>, absolute: bool, trailing: bool): (r: seq<string>)
  {
    (if absolute then [[]] else []) + pruned + (if trailing then [[]] else [])
  }

  /** Whether a rendered stack ends in a separator: an absolute root always
      does, otherwise only a non-empty stack rendered as a directory. */
  predicate RenderedTrailing(pruned: seq<string>, absolute: bool, wasDirectory: bool) {
    (wasDirectory && pruned != []) || (absolute && pruned == [])
  }

  /** A join whose last segment is a non-empty name does not end in a separator. */
  lemma {:induction false} JoinEndsInName(segments: seq<string>)
    requires segments != []
    requires segments[|segments| - 1] != [] && SeparatorFree(segments[|segments| - 1])
    ensures Join(segments) != [] && !TrailingSlash(Join(segments))
    decreases |segments|
  {
    if |segments| > 1 {
      JoinEndsInName(segments[1..]);
    }
  }

  /** `directory` on a path that does not end in a separator adds exactly one. */
  lemma AsDirectoryOfName(s: string)
    requires s != [] && !TrailingSlash(s)
    ensures AsDirectory(s) == s + [SEPARATOR]
  {
    assert Trimmed(s) == s;
  }

  /** The directory marker's empty segment joins as one final separator. */
  lemma JoinDirectoryMarker(segments: seq<string>)
    requires segments != []
    ensures Join(segments + [[]]) == Join(segments) + [SEPARATOR]
  {
    JoinConcat(segments, [[]]);
  }

  /** The stack of a path with at least one kept segment, rendered as text
      (relative case). */
  lemma RenderRelativeJoin(pruned: seq<string>, wasDirectory: bool)
    requires pruned != [] && Normal(pruned, true)
    ensures Render(pruned, false, wasDirectory) == Join(Framed(pruned, false, wasDirectory))
  {
    JoinEndsInName(pruned);
    if wasDirectory {
      JoinDirectoryMarker(pruned);
      AsDirectoryOfName(Join(pruned));
      assert Framed(pruned, false, wasDirectory) == pruned + [[]];
    } else {
      assert Framed(pruned, false, wasDirectory) == pruned;
    }
  }

  /** The stack of a path with at least one kept segment, rendered as text
      (absolute case). */
  lemma RenderAbsoluteJoin(pruned: seq<string>, wasDirectory: bool)
    requires pruned != [] && Normal(pruned, false)
    ensures Render(pruned, true, wasDirectory) == Join(Framed(pruned, true, wasDirectory))
  {
    JoinEndsInName(pruned);
    var joined := Join(pruned);
    var rooted := [SEPARATOR] + joined;
    assert Join([[]] + pruned) == rooted by {
      JoinConcat([[]], pruned);
    }
    if wasDirectory {
      assert Framed(pruned, true, true) == ([[]] + pruned) + [[]];
      JoinDirectoryMarker([[]] + pruned);
      assert rooted[|rooted| - 1] == joined[|joined| - 1];
      AsDirectoryOfName(rooted);
    } else {
      assert Framed(pruned, true, false) == [[]] + pruned;
    }
  }

  /** The rendered text is the join of the framed stack. */
  lemma RenderJoin(pruned: seq<string>, absolute: bool, wasDirectory: bool)
    requires Normal(pruned, !absolute)
    ensures Render(pruned, absolute, wasDirectory)
         == Join(Framed(pruned, absolute, RenderedTrailing(pruned, absolute, wasDirectory)))
  {
    var trailing := RenderedTrailing(pruned, absolute, wasDirectory);
    if pruned == [] {
      if absolute {
        assert Trimmed([SEPARATOR]) == [];
        assert Framed(pruned, absolute, trailing) == [[], []];
      } else {
        assert Framed(pruned, absolute, trailing) == [];
      }
    } else if absolute {
      RenderAbsoluteJoin(pruned, wasDirectory);
    } else {
      RenderRelativeJoin(pruned, wasDirectory);
    }
  }

  /** The ends of a framed stack in normal form: the first segment is empty
      exactly for the root, the last exactly for the directory marker. */
  lemma FramedEnds(pruned: seq<string>, absolute: bool, trailing: bool)
    requires Normal(pruned, !absolute)
    requires pruned == [] ==> trailing == absolute
    ensures NoSeparators(Framed(pruned, absolute, trailing))
    ensures Framed(pruned, absolute, trailing) != [[]]
    ensures Framed(pruned, absolute, trailing) == [] <==> !absolute && pruned == []
    ensures Framed(pruned, absolute, trailing) != [] ==>
      (Framed(pruned, absolute, trailing)[0] == [] <==> absolute) &&
      (Framed(pruned, absolute, trailing)[|Framed(pruned, absolute, trailing)| - 1] == [] <==> trailing)
  {
    var framed := Framed(pruned, absolute, trailing);
    if pruned != [] {
      assert framed[if absolute then 1 else 0] == pruned[0];
      assert framed[|framed| - (if trailing then 2 else 1)] == pruned[|pruned| - 1];
    }
  }

  /** What `split` says about the ends of a path. */
  lemma SplitEnds(s: string, segments: seq<string>)
    requires Split(s) == segments
    ensures s == [] <==> segments == []
    ensures segments != [] ==> (IsAbsolute(s) <==> segments[0] == [])
    ensures segments != [] ==> (TrailingSlash(s) <==> segments[|segments| - 1] == [])
  {
    SplitShape(s);
  }

  /** Splitting the rendered text gives back the framed stack, and the
      rendered text is absolute exactly when asked to be. */
  lemma RenderSplit(pruned: seq<string>, absolute: bool, wasDirectory: bool)
    requires Normal(pruned, !absolute)
    ensures Split(Render(pruned, absolute, wasDirectory))
         == Framed(pruned, absolute, RenderedTrailing(pruned, absolute, wasDirectory))
    ensures IsAbsolute(Render(pruned, absolute, wasDirectory)) == absolute
    ensures TrailingSlash(Render(pruned, absolute, wasDirectory))
         == RenderedTrailing(pruned, absolute, wasDirectory)
  {
    var trailing := RenderedTrailing(pruned, absolute, wasDirectory);
    var framed := Framed(pruned, absolute, trailing);
    RenderJoin(pruned, absolute, wasDirectory);
    FramedEnds(pruned, absolute, trailing);
    SplitJoin(framed);
    SplitEnds(Render(pruned, absolute, wasDirectory), framed);
  }

  /** The loop skips the root's and the directory marker's empty segments
      and rebuilds a stack in normal form. */
  lemma FramedPrune(pruned: seq<string>, absolute: bool, trailing: bool)
    requires Normal(pruned, !absolute)
    ensures PruneOnto([], Framed(pruned, absolute, trailing), !absolute) == pruned
  {
    var head: seq<string> := if absolute then [[]] else [];
    var tail: seq<string> := if trailing then [[]] else [];
    PruneOntoConcat([], head + pruned, tail, !absolute);
    PruneOntoConcat([], head, pruned, !absolute);
    assert PruneOnto([], head, !absolute) == [];
    PruneOfNormal(pruned, !absolute);
  }

  /** The stack of every path is in normal form. */
  lemma PrunedNormal(s: string)
    ensures Normal(Pruned(s), !IsAbsolute(s))
  {
    PruneNormal([], Split(s), !IsAbsolute(s));
  }

  /** Sanitizing a rendered stack rebuilds the same stack and the same text. */
  lemma SanitizeRender(pruned: seq<string>, absolute: bool, wasDirectory: bool)
    requires Normal(pruned, !absolute)
    ensures Pruned(Render(pruned, absolute, wasDirectory)) == pruned
    ensures Sanitized(Render(pruned, absolute, wasDirectory)) == Render(pruned, absolute, wasDirectory)
  {
    var trailing := RenderedTrailing(pruned, absolute, wasDirectory);
    RenderSplit(pruned, absolute, wasDirectory);
    FramedPrune(pruned, absolute, trailing);
    RenderJoin(pruned, absolute, wasDirectory);
    RenderJoin(pruned, absolute, trailing);
    assert RenderedTrailing(pruned, absolute, trailing) == trailing;
  }

  /** `sanitize` is the join of its stack between the root's empty segment
      and the directory marker's. */
  lemma SanitizedJoin(s: string)
    ensures Sanitized(s)
         == Join(Framed(Pruned(s), IsAbsolute(s), RenderedTrailing(Pruned(s), IsAbsolute(s), TrailingSlash(s))))
  {
    PrunedNormal(s);
    RenderJoin(Pruned(s), IsAbsolute(s), TrailingSlash(s));
  }

  /** `sanitize` is idempotent. */
  lemma SanitizedIdempotent(s: string)
    ensures Sanitized(Sanitized(s)) == Sanitized(s)
  {
    PrunedNormal(s);
    SanitizeRender(Pruned(s), IsAbsolute(s), TrailingSlash(s));
  }

  /** The root path and its segments. */
  lemma SplitRoot()
    ensures Join([[], []]) == [SEPARATOR]
    ensures Split([SEPARATOR]) == [[], []]
  {
    SplitJoin([[], []]);
  }

  /** `sanitize` keeps the absolute/relative class (a relative path never
      becomes absolute); it keeps a final separator unless a relative path
      came to nothing; an absolute path with nothing left is the root "/",
      a relative one is "". */
  lemma SanitizedShape(s: string)
    ensures IsAbsolute(Sanitized(s)) <==> IsAbsolute(s)
    ensures TrailingSlash(Sanitized(s)) <==> (TrailingSlash(s) && Sanitized(s) != []) || Sanitized(s) == [SEPARATOR]
    ensures Sanitized(s) == [SEPARATOR] <==> IsAbsolute(s) && Pruned(s) == []
    ensures Sanitized(s) == [] <==> !IsAbsolute(s) && Pruned(s) == []
  {
    var pruned, absolute := Pruned(s), IsAbsolute(s);
    var trailing := RenderedTrailing(pruned, absolute, TrailingSlash(s));
    var framed := Framed(pruned, absolute, trailing);
    PrunedNormal(s);
    RenderSplit(pruned, absolute, TrailingSlash(s));
    RenderJoin(pruned, absolute, TrailingSlash(s));
    FramedEnds(pruned, absolute, trailing);
    SplitEnds(Sanitized(s), framed);
    SplitRoot();
    if Sanitized(s) == [SEPARATOR] {
      assert framed == [[], []];
    }
    if absolute && pruned == [] {
      assert framed == [[], []];
    }
  }

  /** The segments of a path between the root's empty segment (for an
      absolute path) and the directory marker's (for a path ending in a
      separator). */
  function Interior(s: string): (r: seq<string>)
  {
    var segments := Split(s);
    var lo := if IsAbsolute(s) then 1 else 0;
    var hi := if TrailingSlash(s) then |segments| - 1 else |segments|;
    if lo <= hi then segments[lo..hi] else []
  }

  /** A path in the form `sanitize` produces: its interior is a stack in
      normal form, so it has no empty or "." segment and no ".." except a
      leading run in a relative path. */
  predicate Canonical(s: string) {
    Normal(Interior(s), !IsAbsolute(s))
  }

  /** An absolute path has at least two segments. */
  lemma SplitAbsoluteCount(s: string)
    requires IsAbsolute(s)
    ensures |Split(s)| >= 2
  {
    SplitShape(s);
    assert s[0] in multiset(s);
  }

  /** Every path is its interior framed by the root and the directory marker. */
  lemma SplitFramed(s: string)
    ensures Split(s) == Framed(Interior(s), IsAbsolute(s), TrailingSlash(s))
    ensures Interior(s) == [] ==> TrailingSlash(s) == IsAbsolute(s)
  {
    var segments := Split(s);
    SplitShape(s);
    if IsAbsolute(s) {
      SplitAbsoluteCount(s);
    }
    var lo := if IsAbsolute(s) then 1 else 0;
    var hi := if TrailingSlash(s) then |segments| - 1 else |segments|;
    assert segments == segments[..lo] + segments[lo..hi] + segments[hi..];
  }

  /** `sanitize` leaves a path unchanged exactly when the path is canonical;
      every result of `sanitize` is canonical. */
  lemma SanitizedFixedPoint(s: string)
    ensures Sanitized(s) == s <==> Canonical(s)
    ensures Canonical(Sanitized(s))
  {
    var pruned, absolute := Pruned(s), IsAbsolute(s);
    PrunedNormal(s);
    var r := Sanitized(s);
    var trailing := RenderedTrailing(pruned, absolute, TrailingSlash(s));
    RenderSplit(pruned, absolute, TrailingSlash(s));
    SplitFramed(r);
    FramedInterior(pruned, Interior(r), absolute, trailing);
    if Canonical(s) {
      CanonicalSanitized(s);
    }
  }

  /** Two framings of the same segments have the same interior. */
  lemma FramedInterior(pruned: seq<string>, interior: seq<string>, absolute: bool, trailing: bool)
    requires Framed(pruned, absolute, trailing) == Framed(interior, absolute, trailing)
    ensures pruned == interior
  {
    var head: seq<string> := if absolute then [[]] else [];
    assert pruned == Framed(pruned, absolute, trailing)[|head|..|head| + |pruned|];
  }

  /** A canonical path is its own sanitized form. */
  lemma CanonicalSanitized(s: string)
    requires Canonical(s)
    ensures Sanitized(s) == s
  {
    var interior, absolute, trailing := Interior(s), IsAbsolute(s), TrailingSlash(s);
    SplitFramed(s);
    FramedPrune(interior, absolute, trailing);
    RenderJoin(interior, absolute, trailing);
    assert RenderedTrailing(interior, absolute, trailing) == trailing;
    JoinSplit(s);
  }

  /** The loop over one more segment is one more step. */
  lemma PruneOntoSnoc(pruned: seq<string>, segments: seq<string>, segment: string, relative: bool)
    ensures PruneOnto(pruned, segments + [segment], relative)
         == Step(PruneOnto(pruned, segments, relative), segment, relative)
  {
    assert (segments + [segment])[..|segments|] == segments;
  }

  /** The loop read front to back: one step on the first segment, then the
      rest from the stack that step leaves. */
  function StepAll(pruned: seq<string>, segments: seq<string>, relative: bool): (r: seq<string>)
    decreases |segments|
    ensures |r| <= |pruned| + |segments|
  {
    if segments == [] then pruned
    else StepAll(Step(pruned, segments[0], relative), segments[1..], relative)
  }

  /** The loop as `PruneOnto` states it (last segment last) and as `StepAll`
      states it (first segment first) builds the same stack. */
  lemma {:induction false} PruneOntoStepAll(pruned: seq<string>, segments: seq<string>, relative: bool)
    ensures PruneOnto(pruned, segments, relative) == StepAll(pruned, segments, relative)
    decreases |segments|
  {
    if segments != [] {
      var first, rest := segments[0], segments[1..];
      assert segments == [first] + rest;
      PruneOntoConcat(pruned, [first], rest, relative);
      PruneOntoSnoc(pruned, [], first, relative);
      assert [] + [first] == [first];
      PruneOntoStepAll(Step(pruned, first, relative), rest, relative);
    }
  }

  /** Pruning segments onto an absolute stack gives the same stack whether
      they are first pruned as a relative path or not: a relative path may
      be sanitized before it is resolved against an absolute one. */
  lemma {:induction false} PruneAbsoluteOfRelative(base: seq<string>, segments: seq<string>)
    requires NoSeparators(segments)
    ensures PruneOnto(base, segments, false) == PruneOnto(base, PruneOnto([], segments, true), false)
    decreases |segments|
  {
    if segments != [] {
      var front, segment := segments[..|segments| - 1], segments[|segments| - 1];
      var stack := PruneOnto([], front, true);
      PruneAbsoluteOfRelative(base, front);
      PruneNormal([], front, true);
      if segment == PARENT && |stack| > 0 && stack[|stack| - 1] != PARENT {
        var below := stack[..|stack| - 1];
        assert stack == below + [stack[|stack| - 1]];
        PruneOntoSnoc(base, below, stack[|stack| - 1], false);
      } else if segment != [] && segment != CURRENT {
        PruneOntoSnoc(base, stack, segment, false);
      }
    }
  }

  /** The loop over a path's getline tokens builds the same stack as over
      its `split` segments: the directory marker's empty segment is skipped. */
  lemma PrunedTokens(s: string)
    ensures PruneOnto([], Tokens(s), !IsAbsolute(s)) == Pruned(s)
  {
    if TrailingSlash(s) {
      PruneOntoSnoc([], Tokens(s), [], !IsAbsolute(s));
    } else {
      assert Split(s) == Tokens(s);
    }
  }
}
