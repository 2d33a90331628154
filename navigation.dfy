/** Moving between paths: `relative`, `up`/`parent`, `absolute` against a
    working directory passed in, and `equivalent`. */
module Navigation {
  import opened Text
  import opened PathString
  import opened Sanitizer

  /** `relative(rel)`: an absolute argument replaces the path; a relative one
      (the empty path included) is appended to it. */
  function Resolved(s: string, rel: string): (r: string)
  {
    if IsAbsolute(rel) then rel else Appended(s, rel)
  }

  /** The result of `relative` is absolute when the argument is, when the
      receiver is, and when the receiver is empty (`append` then supplies the
      leading separator); it always ends with the argument's text. */
  lemma ResolvedShape(s: string, rel: string)
    ensures IsAbsolute(Resolved(s, rel)) <==> IsAbsolute(rel) || IsAbsolute(s) || s == []
    ensures |rel| <= |Resolved(s, rel)| && Resolved(s, rel)[|Resolved(s, rel)| - |rel|..] == rel
  {
    var r := Resolved(s, rel);
    if !IsAbsolute(rel) {
      var front := if TrailingSlash(s) then s else s + [SEPARATOR];
      assert r == front + rel;
      assert front != [] && r[0] == front[0];
      assert r[|r| - |rel|..] == rel;
    }
  }

  /** A path is a plain name when it is a single segment that `sanitize`
      keeps as it is. */
  predicate IsName(x: string) {
    x != [] && x != CURRENT && x != PARENT && SeparatorFree(x)
  }

  /** The only segment of a plain name is the name itself. */
  lemma SplitName(x: string)
    requires x != [] && SeparatorFree(x)
    ensures Split(x) == [x]
    ensures !IsAbsolute(x) && !TrailingSlash(x)
  {
    TokensSingle(x);
  }

  /** Resolving a relative path against an absolute one is pruning the
      relative path's own stack onto the absolute path's stack, and the
      directory marker is the relative path's. */
  lemma ResolvedPruned(s: string, rel: string)
    requires IsAbsolute(s) && rel != [] && !IsAbsolute(rel)
    ensures IsAbsolute(Resolved(s, rel))
    ensures TrailingSlash(Resolved(s, rel)) == TrailingSlash(rel)
    ensures Pruned(Resolved(s, rel)) == PruneOnto(Pruned(s), Pruned(rel), false)
  {
    var r := Resolved(s, rel);
    SplitAppended(s, rel);
    assert r[0] == s[0];
    assert r[|r| - 1] == rel[|rel| - 1];
    PruneOntoConcat([], Tokens(s), Split(rel), false);
    PrunedTokens(s);
    PruneAbsoluteOfRelative(Pruned(s), Split(rel));
  }

  /** A plain name resolved against an absolute path is pushed on its stack. */
  lemma ResolvedName(s: string, x: string)
    requires IsAbsolute(s) && IsName(x)
    ensures IsAbsolute(Resolved(s, x)) && !TrailingSlash(Resolved(s, x))
    ensures Pruned(Resolved(s, x)) == Pruned(s) + [x]
  {
    SplitName(x);
    ResolvedPruned(s, x);
    PruneOntoSnoc([], [], x, true);
    assert [] + [x] == [x];
    PruneOntoSnoc(Pruned(s), [], x, false);
  }

  /** A plain name with a final separator: its stack is the name alone. */
  lemma NameDirectoryPruned(x: string)
    requires IsName(x)
    ensures Pruned(x + [SEPARATOR]) == [x]
    ensures !IsAbsolute(x + [SEPARATOR]) && TrailingSlash(x + [SEPARATOR])
  {
    SplitJoin([x, []]);
    assert Join([x, []]) == x + [SEPARATOR];
    PruneOntoSnoc([], [], x, true);
    assert [] + [x] == [x];
    PruneOntoSnoc([], [x], [], true);
    assert [x] + [[]] == [x, []];
  }

  /** A plain name appended to an absolute path and made a directory: the
      same as appending the name with a final separator, the name is pushed
      on the path's stack, and the result is an absolute directory. */
  lemma ResolvedDirectoryName(s: string, x: string)
    requires IsAbsolute(s) && IsName(x)
    ensures AsDirectory(Resolved(s, x)) == Resolved(s, x + [SEPARATOR])
    ensures Pruned(AsDirectory(Resolved(s, x))) == Pruned(s) + [x]
    ensures IsAbsolute(AsDirectory(Resolved(s, x))) && TrailingSlash(AsDirectory(Resolved(s, x)))
  {
    var y := Resolved(s, x);
    var marked := x + [SEPARATOR];
    assert AsDirectory(y) == Resolved(s, marked) by {
      ResolvedShape(s, x);
      assert y[|y| - 1] == y[|y| - |x|..][|x| - 1];
      AsDirectoryOfName(y);
      if TrailingSlash(s) {
        assert Resolved(s, marked) == (s + x) + [SEPARATOR];
      } else {
        assert Resolved(s, marked) == (s + [SEPARATOR] + x) + [SEPARATOR];
      }
    }
    NameDirectoryPruned(x);
    ResolvedPruned(s, marked);
    PruneOntoSnoc(Pruned(s), [], x, false);
    assert [] + [x] == [x];
  }

  /** `up` on a copy: "" becomes "../"; otherwise ".." is appended, the
      result sanitized and, unless it came to "", made a directory. */
  function Parent(s: string): (r: string)
  {
    if s == [] then AsDirectory(PARENT)
    else
      var up := Sanitized(Appended(s, PARENT));
      if up == [] then up else AsDirectory(up)
  }

  /** The parent is the sanitized stack after one more ".." step, rendered
      as a directory: it drops the last kept name, climbs further out of a
      relative path, and stays at the root of an absolute one. */
  lemma ParentRender(s: string)
    ensures Parent(s) == Render(Step(Pruned(s), PARENT, !IsAbsolute(s)), IsAbsolute(s), true)
  {
    if s == [] {
      AsDirectoryOfName(PARENT);
    } else {
      var t := Appended(s, PARENT);
      var relative := !IsAbsolute(s);
      SplitName(PARENT);
      SplitAppended(s, PARENT);
      assert t[0] == s[0];
      assert !TrailingSlash(t);
      PruneOntoSnoc([], Tokens(s), PARENT, relative);
      PrunedTokens(s);
    }
  }

  /** The parent is the join of the stack after one more ".." step, framed
      as a directory. */
  lemma ParentJoin(s: string)
    ensures Parent(s) == Join(Framed(Step(Pruned(s), PARENT, !IsAbsolute(s)), IsAbsolute(s),
                                     RenderedTrailing(Step(Pruned(s), PARENT, !IsAbsolute(s)), IsAbsolute(s), true)))
  {
    var up := Step(Pruned(s), PARENT, !IsAbsolute(s));
    assert Normal(up, !IsAbsolute(s)) by {
      PrunedNormal(s);
      StepNormal(Pruned(s), PARENT, !IsAbsolute(s));
    }
    ParentRender(s);
    RenderJoin(up, IsAbsolute(s), true);
  }

  /** The stack of the parent is the path's stack after one more ".." step. */
  lemma ParentPruned(s: string)
    ensures Pruned(Parent(s)) == Step(Pruned(s), PARENT, !IsAbsolute(s))
  {
    PrunedNormal(s);
    StepNormal(Pruned(s), PARENT, !IsAbsolute(s));
    ParentRender(s);
    SanitizeRender(Step(Pruned(s), PARENT, !IsAbsolute(s)), IsAbsolute(s), true);
  }

  /** The parent keeps the absolute/relative class, is canonical, and is ""
      or ends in a separator; the parent of a path is the parent of its
      sanitized form. */
  lemma ParentShape(s: string)
    ensures IsAbsolute(Parent(s)) <==> IsAbsolute(s)
    ensures Sanitized(Parent(s)) == Parent(s)
    ensures Parent(s) == [] || TrailingSlash(Parent(s))
    ensures Parent(Sanitized(s)) == Parent(s)
  {
    var pruned, absolute := Pruned(s), IsAbsolute(s);
    var up := Step(pruned, PARENT, !absolute);
    PrunedNormal(s);
    StepNormal(pruned, PARENT, !absolute);
    ParentRender(s);
    RenderSplit(up, absolute, true);
    SanitizeRender(up, absolute, true);
    SanitizeRender(pruned, absolute, TrailingSlash(s));
    RenderSplit(pruned, absolute, TrailingSlash(s));
    ParentRender(Sanitized(s));
  }

  /** The working directory as `cwd()` builds it from what `getcwd`
      reported: made a directory, so "/" when `getcwd` failed. */
  function WorkingDirectory(reported: Option<string>): (r: string)
    ensures TrailingSlash(r)
    ensures reported.None? ==> r == [SEPARATOR]
    ensures reported.Some? && IsAbsolute(reported.value) ==> IsAbsolute(r)
  {
    AsDirectory(if reported.Some? then reported.value else [])
  }

  /** What `absolute` and `equivalent` may assume of the working directory:
      it is absolute and ends in a separator. */
  predicate IsWorkingDirectory(cwd: string) {
    IsAbsolute(cwd) && TrailingSlash(cwd)
  }

  /** `absolute`: a relative path is appended to the working directory. */
  function Absolutized(s: string, cwd: string): (r: string)
    requires IsWorkingDirectory(cwd)
    ensures IsAbsolute(r)
    ensures IsAbsolute(s) ==> r == s
    ensures !IsAbsolute(s) ==> r == cwd + s
  {
    if IsAbsolute(s) then s else Appended(cwd, s)
  }

  /** `equivalent`: both paths made absolute against the same working
      directory and sanitized give the same text. */
  predicate Equivalent(p: string, q: string, cwd: string)
    requires IsWorkingDirectory(cwd)
  {
    Sanitized(Absolutized(p, cwd)) == Sanitized(Absolutized(q, cwd))
  }

  /** A relative path made absolute: its stack is pruned onto the working
      directory's, and it keeps its own directory marker. */
  lemma AbsolutizedSanitized(s: string, cwd: string)
    requires IsWorkingDirectory(cwd) && s != [] && !IsAbsolute(s)
    ensures Sanitized(Absolutized(s, cwd))
         == Render(PruneOnto(Pruned(cwd), Pruned(s), false), true, TrailingSlash(s))
  {
    ResolvedPruned(cwd, s);
  }

  /** The working directory made absolute and sanitized is its own stack
      rendered as a directory. */
  lemma SanitizedWorkingDirectory(cwd: string)
    requires IsWorkingDirectory(cwd)
    ensures Sanitized(Absolutized([], cwd)) == Render(Pruned(cwd), true, true)
  {
    assert Absolutized([], cwd) == cwd;
  }

  /** The relative case of EquivalentToSanitized. */
  lemma EquivalentToSanitizedRelative(p: string, cwd: string)
    requires IsWorkingDirectory(cwd) && p != [] && !IsAbsolute(p)
    requires Sanitized(p) != [] || TrailingSlash(p)
    ensures Equivalent(p, Sanitized(p), cwd)
  {
    var r := Sanitized(p);
    SanitizedShape(p);
    AbsolutizedSanitized(p, cwd);
    if r != [] {
      PrunedNormal(p);
      SanitizeRender(Pruned(p), false, TrailingSlash(p));
      AbsolutizedSanitized(r, cwd);
    } else {
      SanitizedWorkingDirectory(cwd);
    }
  }

  /** A path is equivalent to its sanitized form, except when a relative
      path with no directory marker comes to "": "" stands for the working
      directory with its marker, the original for the same directory
      without one. */
  lemma EquivalentToSanitized(p: string, cwd: string)
    requires IsWorkingDirectory(cwd)
    requires Sanitized(p) != [] || TrailingSlash(p) || p == []
    ensures Equivalent(p, Sanitized(p), cwd)
  {
    if p != [] {
      SanitizedShape(p);
      if IsAbsolute(p) {
        SanitizedIdempotent(p);
      } else {
        EquivalentToSanitizedRelative(p, cwd);
      }
    }
  }

  /** Paths with the same non-empty sanitized form are equivalent. */
  lemma EquivalentBySanitized(p: string, q: string, cwd: string)
    requires IsWorkingDirectory(cwd)
    requires Sanitized(p) == Sanitized(q) != []
    ensures Equivalent(p, q, cwd)
  {
    EquivalentToSanitized(p, cwd);
    EquivalentToSanitized(q, cwd);
  }

  /** `equivalent` tells a directory marker apart: "a" and "a/" are not
      equivalent under any working directory. */
  lemma EquivalentSeesMarker(cwd: string)
    requires IsWorkingDirectory(cwd)
    ensures !Equivalent("a", "a/", cwd)
  {
    var file, dir := Absolutized("a", cwd), Absolutized("a/", cwd);
    SplitName("a");
    ResolvedPruned(cwd, "a");
    SanitizedShape(file);
    SanitizedShape(dir);
    PruneOntoSnoc(Pruned(cwd), [], "a", false);
    assert TrailingSlash(dir);
  }

  /** The segments of "../". */
  lemma SplitParentMarker()
    ensures Split("../") == [PARENT, []]
    ensures Pruned("../") == [PARENT]
    ensures !IsAbsolute("../") && TrailingSlash("../")
  {
    SplitJoin([PARENT, []]);
    assert Join([PARENT, []]) == "../";
    PruneOntoSnoc([], [], PARENT, true);
    assert [] + [PARENT] == [PARENT];
    PruneOntoSnoc([], [PARENT], [], true);
  }

  /** "../" made absolute and sanitized: one ".." step on the working
      directory's stack, rendered as a directory. */
  lemma AbsolutizedParentMarker(cwd: string)
    requires IsWorkingDirectory(cwd)
    ensures Sanitized(Absolutized("../", cwd)) == Render(Step(Pruned(cwd), PARENT, false), true, true)
  {
    SplitParentMarker();
    AbsolutizedSanitized("../", cwd);
    PruneOntoSnoc(Pruned(cwd), [], PARENT, false);
    assert [] + [PARENT] == [PARENT];
  }

  /** The parent of the working directory made absolute and sanitized is
      itself. */
  lemma AbsolutizedParent(cwd: string)
    requires IsWorkingDirectory(cwd)
    ensures Sanitized(Absolutized(Parent(cwd), cwd)) == Render(Step(Pruned(cwd), PARENT, false), true, true)
  {
    ParentShape(cwd);
    ParentRender(cwd);
  }

  /** `up` on "" gives "../". */
  lemma ParentOfEmptyText()
    ensures Parent([]) == "../"
  {
    AsDirectoryOfName(PARENT);
  }

  /** The parent of "" is "../", which is not the parent of the working
      directory as text but is equivalent to it. */
  lemma ParentOfEmpty(cwd: string)
    requires IsWorkingDirectory(cwd)
    ensures Parent([]) == "../"
    ensures Parent([]) != Parent(cwd)
    ensures Equivalent(Parent([]), Parent(cwd), cwd)
  {
    ParentOfEmptyText();
    ParentShape(cwd);
    AbsolutizedParentMarker(cwd);
    AbsolutizedParent(cwd);
  }
}
