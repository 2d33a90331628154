/** `apathy::Path`: one text field rewritten in place by its manipulators,
    each proved against the function of the path text that specifies it. */
module Apathy {
  import opened Text
  import opened PathString
  import opened Sanitizer
  import Navigation

  class Path {
    /** The path text; the only state a Path has. */
    var path: string

    /** `Path(p)`; the default argument is "", so `Path()` holds "". */
    constructor (p: string)
      ensures path == p
    {
      path := p;
    }

    /** `operator==`: plain text equality, so equivalent paths spelled
        differently are not equal. */
    function Equals(other: Path): (r: bool)
      reads this, other
      ensures r <==> path == other.path
    {
      path == other.path
    }

    /** `append` (also `operator<<`): a separator unless the path already
        ends in one, then the segment's text. */
    method Append(segment: string)
      modifies this
      ensures path == Appended(old(path), segment)
    {
      if !TrailingSlash(path) {
        path := path + [SEPARATOR];
      }
      path := path + segment;
    }

    /** `relative`: an absolute argument replaces the path, a relative one
        is appended. */
    method Relative(rel: string)
      modifies this
      ensures path == Navigation.Resolved(old(path), rel)
    {
      if !IsAbsolute(rel) {
        Append(rel);
      } else {
        path := rel;
      }
    }

    /** `trim`: drop every trailing separator; an all-separator path becomes "". */
    method Trim()
      modifies this
      ensures path == Trimmed(old(path))
    {
      if |path| == 0 {
        return;
      }
      match LastNotOf(path, SEPARATOR)
      case Some(p) => path := path[..p + 1];
      case None => path := [];
    }

    /** `directory`: trim, then exactly one separator. */
    method Directory()
      modifies this
      ensures path == AsDirectory(old(path))
    {
      Trim();
      path := path + [SEPARATOR];
    }

    /** `sanitize`: the stack pass over the segments, then the joined stack
        with the root and the directory marker restored. */
    method Sanitize()
      modifies this
      ensures path == Sanitized(old(path))
    {
      var segments := Split(path);
      var relative := !IsAbsolute(path);
      var pruned: seq<string> := [];
      var pos := 0;
      while pos < |segments|
        invariant 0 <= pos <= |segments|
        invariant pruned == PruneOnto([], segments[..pos], relative)
      {
        var segment := segments[pos];
        assert segments[..pos + 1] == segments[..pos] + [segment];
        if segment == [] || segment == CURRENT {
        } else if segment == PARENT {
          if relative {
            if |pruned| > 0 && pruned[|pruned| - 1] != PARENT {
              pruned := pruned[..|pruned| - 1];
            } else {
              pruned := pruned + [segment];
            }
          } else if |pruned| > 0 {
            pruned := pruned[..|pruned| - 1];
          }
        } else {
          pruned := pruned + [segment];
        }
        pos := pos + 1;
      }
      assert segments[..pos] == segments;
      var wasDirectory := TrailingSlash(path);
      var joined := JoinSegments(pruned);
      if !relative {
        path := [SEPARATOR] + joined;
        if wasDirectory {
          Directory();
        }
        return;
      }
      path := joined;
      if |path| > 0 && wasDirectory {
        Directory();
      }
    }

    /** `up`: "" becomes "../"; otherwise append "..", sanitize, and make the
        result a directory unless it came to "". */
    method Up()
      modifies this
      ensures path == Navigation.Parent(old(path))
    {
      if |path| == 0 {
        path := PARENT;
        Directory();
        return;
      }
      Append(PARENT);
      Sanitize();
      if |path| == 0 {
        return;
      }
      Directory();
    }

    /** `absolute`, with the working directory passed in: a relative path
        becomes `join(cwd, path)`. */
    method Absolute(cwd: string)
      requires Navigation.IsWorkingDirectory(cwd)
      modifies this
      ensures path == Navigation.Absolutized(old(path), cwd)
    {
      if !IsAbsolute(path) {
        var joined := JoinPaths(cwd, path);
        path := joined.path;
      }
    }

    /** `parent`: `up` on a copy; the receiver is left as it is. */
    method Parent() returns (r: Path)
      ensures fresh(r)
      ensures r.path == Navigation.Parent(path)
    {
      r := new Path(path);
      r.Up();
    }

    /** `operator+`: `append` on a copy; the receiver is left as it is. */
    method Plus(segment: string) returns (r: Path)
      ensures fresh(r)
      ensures r.path == Appended(path, segment)
    {
      r := new Path(path);
      r.Append(segment);
    }

    /** `equivalent`: copies of both paths made absolute and sanitized, then
        compared as text. */
    method Equivalent(other: Path, cwd: string) returns (r: bool)
      requires Navigation.IsWorkingDirectory(cwd)
      ensures r == Navigation.Equivalent(path, other.path, cwd)
    {
      var mine := new Path(path);
      mine.Absolute(cwd);
      mine.Sanitize();
      var theirs := new Path(other.path);
      theirs.Absolute(cwd);
      theirs.Sanitize();
      r := mine.Equals(theirs);
    }

    /** `join(a, b)`: a new path holding `a` with `b` appended. */
    static method JoinPaths(a: string, b: string) returns (r: Path)
      ensures fresh(r)
      ensures r.path == Appended(a, b)
    {
      r := new Path(a);
      r.Append(b);
    }

    /** `cwd()`, with what `getcwd` reported passed in: "" when it failed,
        then made a directory. */
    static method Cwd(reported: Option<string>) returns (r: Path)
      ensures fresh(r)
      ensures r.path == Navigation.WorkingDirectory(reported)
    {
      r := new Path([]);
      if reported.Some? {
        r.path := reported.value;
      }
      r.Directory();
    }
  }
}
