/** The textual layer of `apathy::Path` on the POSIX branch: the separator,
    the two structural tests, the segment splitter and joiner, and the
    separator-level edits `trim`, `directory` and `append`. */
module PathString {
  import opened Text

  /** The platform separator on the POSIX branch. */
  const SEPARATOR: char := '/'

  /** `is_absolute`: absoluteness is read off the first character, never stored. */
  predicate IsAbsolute(s: string) {
    |s| > 0 && s[0] == SEPARATOR
  }

  /** `trailing_slash`: the directory marker is a final separator. */
  predicate TrailingSlash(s: string) {
    |s| > 0 && s[|s| - 1] == SEPARATOR
  }

  /** A text with no separator in it: what one segment can hold. */
  predicate SeparatorFree(x: string) {
    forall j :: 0 <= j < |x| ==> x[j] != SEPARATOR
  }

  /** No segment carries a separator inside it. */
  predicate NoSeparators(segments: seq<string>) {
    forall i :: 0 <= i < |segments| ==> SeparatorFree(segments[i])
  }

  /** The tokens that repeated `std::getline(stream, token, '/')` extracts:
      nothing from an empty string, and no token after a final separator. */
  function Tokens(s: string): (r: seq<string>)
    decreases |s|
    ensures NoSeparators(r)
    ensures s == [] <==> r == []
  {
    if |s| == 0 then []
    else
      var i := IndexOf(s, SEPARATOR);
      if i == |s| then
        assert s[..i] == s;
        [s]
      else
        [s[..i]] + Tokens(s[i + 1..])
  }

  /** A separator-free, non-empty text is a single token. */
  lemma TokensSingle(x: string)
    requires x != [] && SeparatorFree(x)
    ensures Tokens(x) == [x]
  {
    assert x[..|x|] == x;
  }

  /** getline stops at the first separator. */
  lemma TokensCons(x: string, tail: string)
    requires SeparatorFree(x)
    ensures Tokens(x + [SEPARATOR] + tail) == [x] + Tokens(tail)
  {
    var s := x + [SEPARATOR] + tail;
    assert s[..|x|] == x;
    IndexOfAt(s, SEPARATOR, |x|);
    assert s[|x| + 1..] == tail;
  }

  /** The first token is empty exactly for an absolute path. */
  lemma TokensFirst(s: string)
    requires s != []
    ensures Tokens(s)[0] == [] <==> IsAbsolute(s)
  {
    var i := IndexOf(s, SEPARATOR);
    if i == |s| {
      assert s[..i] == s;
    }
  }

  /** The last token is empty only when the path ends in a separator. */
  lemma {:induction false} TokensLast(s: string)
    requires s != [] && !TrailingSlash(s)
    ensures Tokens(s)[|Tokens(s)| - 1] != []
    decreases |s|
  {
    var i := IndexOf(s, SEPARATOR);
    if i == |s| {
      assert s[..i] == s;
    } else {
      var rest := s[i + 1..];
      assert rest != [];
      TokensLast(rest);
    }
  }

  /** A separator-free text holds no separator, counted as a multiset. */
  lemma SeparatorFreeCount(x: string)
    requires SeparatorFree(x)
    ensures multiset(x)[SEPARATOR] == 0
  {
    assert SEPARATOR !in x;
  }

  /** Prefixing a separator-free text and one separator adds one separator. */
  lemma SeparatorCountCons(x: string, rest: string)
    requires SeparatorFree(x)
    ensures multiset(x + [SEPARATOR] + rest)[SEPARATOR] == 1 + multiset(rest)[SEPARATOR]
  {
    SeparatorFreeCount(x);
    assert multiset(x + [SEPARATOR] + rest) == multiset(x) + multiset([SEPARATOR]) + multiset(rest);
  }

  /** One token per separator, plus one for the text after the last separator. */
  lemma {:induction false} TokensCount(s: string)
    requires s != []
    ensures |Tokens(s)| == multiset(s)[SEPARATOR] + (if TrailingSlash(s) then 0 else 1)
    decreases |s|
  {
    var i := IndexOf(s, SEPARATOR);
    if i == |s| {
      TokensSingle(s);
      SeparatorFreeCount(s);
    } else {
      var head, rest := s[..i], s[i + 1..];
      assert s == head + [SEPARATOR] + rest;
      TokensCons(head, rest);
      SeparatorCountCons(head, rest);
      if rest != [] {
        TokensCount(rest);
      }
    }
  }

  /** `split`: the getline tokens, plus one empty segment when the path ends
      in a separator. An empty path has no segments; otherwise there is one
      segment more than there are separators. */
  function Split(s: string): (r: seq<string>)
    ensures NoSeparators(r)
  {
    Tokens(s) + (if TrailingSlash(s) then [[]] else [])
  }

  /** The segment counts of `split`: none for "", otherwise one more than
      the number of separators; the first segment is empty exactly for an
      absolute path and the last exactly for a path ending in a separator. */
  lemma SplitShape(s: string)
    ensures |Split(s)| == if s == [] then 0 else multiset(s)[SEPARATOR] + 1
    ensures s != [] ==> (Split(s)[0] == [] <==> IsAbsolute(s))
    ensures s != [] ==> (Split(s)[|Split(s)| - 1] == [] <==> TrailingSlash(s))
  {
    if s != [] {
      TokensFirst(s);
      TokensCount(s);
      if !TrailingSlash(s) { TokensLast(s); }
    }
  }

  /** `join(segments)`: the segments with one separator between neighbours. */
  function Join(segments: seq<string>): string {
    if |segments| == 0 then []
    else if |segments| == 1 then segments[0]
    else segments[0] + [SEPARATOR] + Join(segments[1..])
  }

  /** Joining two non-empty runs of segments puts one separator between them. */
  lemma {:induction false} JoinConcat(xs: seq<string>, ys: seq<string>)
    requires |xs| > 0 && |ys| > 0
    ensures Join(xs + ys) == Join(xs) + [SEPARATOR] + Join(ys)
    decreases |xs|
  {
    if |xs| == 1 {
      assert (xs + ys)[1..] == ys;
    } else {
      assert (xs + ys)[1..] == xs[1..] + ys;
      JoinConcat(xs[1..], ys);
    }
  }

  /** Every separator between segments adds one character. */
  lemma {:induction false} JoinLength(segments: seq<string>)
    ensures |Join(segments)| >= |segments| - 1
    ensures |segments| == 1 ==> Join(segments) == segments[0]
    decreases |segments|
  {
    if |segments| > 1 {
      JoinLength(segments[1..]);
    }
  }

  /** The accumulating loop of `join(segments)`. */
  method JoinSegments(segments: seq<string>) returns (path: string)
    ensures path == Join(segments)
  {
    path := [];
    var i := 0;
    while i < |segments|
      invariant 0 <= i <= |segments|
      invariant path == if i == 0 then [] else Join(segments[..i]) + (if i < |segments| then [SEPARATOR] else [])
    {
      if i > 0 {
        JoinConcat(segments[..i], [segments[i]]);
        assert segments[..i + 1] == segments[..i] + [segments[i]];
      }
      path := path + segments[i];
      if i + 1 != |segments| {
        path := path + [SEPARATOR];
      }
      i := i + 1;
    }
    assert segments[..|segments|] == segments;
  }

  /** The getline tokens joined back give the path without its final separator. */
  lemma {:induction false} JoinTokens(s: string)
    requires s != []
    ensures Join(Tokens(s)) + (if TrailingSlash(s) then [SEPARATOR] else []) == s
    decreases |s|
  {
    var i := IndexOf(s, SEPARATOR);
    if i == |s| {
      TokensSingle(s);
    } else {
      var head, rest := s[..i], s[i + 1..];
      assert s == head + [SEPARATOR] + rest;
      TokensCons(head, rest);
      if rest != [] {
        JoinTokens(rest);
        JoinConcat([head], Tokens(rest));
      }
    }
  }

  /** `join(split(p)) == p` for every string. */
  lemma JoinSplit(s: string)
    ensures Join(Split(s)) == s
  {
    if s != [] {
      JoinTokens(s);
      if TrailingSlash(s) {
        JoinConcat(Tokens(s), [[]]);
        assert Split(s) == Tokens(s) + [[]];
      } else {
        assert Split(s) == Tokens(s);
      }
    }
  }

  // Regrouping one concatenation, kept apart so that its proof context stays small.
  lemma Assoc(x: string, ts: seq<string>, t: seq<string>, rest: seq<string>)
    requires ts + t == rest
    ensures ([x] + ts) + t == [x] + rest
  {
  }

  /** One inductive step of SplitJoin: a leading separator-free segment. */
  lemma SplitJoinCons(x: string, rest: seq<string>)
    requires SeparatorFree(x)
    requires Join(rest) != []
    requires Split(Join(rest)) == rest
    ensures Split(x + [SEPARATOR] + Join(rest)) == [x] + rest
  {
    var tail := Join(rest);
    TokensCons(x, tail);
    var t: seq<string> := if TrailingSlash(tail) then [[]] else [];
    Assoc(x, Tokens(tail), t, rest);
  }

  /** A separator-free segment followed by an empty one: the path `x/`. */
  lemma SplitDirectory(x: string)
    requires SeparatorFree(x)
    ensures Split(x + [SEPARATOR]) == [x, []]
  {
    TokensCons(x, []);
    assert x + [SEPARATOR] + [] == x + [SEPARATOR];
  }

  /** `split(join(q)) == q` for every sequence of separator-free segments,
      except `[""]`, which joins to the empty path and splits to nothing. */
  lemma {:induction false} SplitJoin(segments: seq<string>)
    requires NoSeparators(segments)
    requires segments != [[]]
    ensures Split(Join(segments)) == segments
    decreases |segments|
  {
    if |segments| == 1 {
      TokensSingle(segments[0]);
    } else if |segments| > 1 {
      var x, rest := segments[0], segments[1..];
      assert segments == [x] + rest;
      assert Join(segments) == x + [SEPARATOR] + Join(rest);
      if rest == [[]] {
        assert Join(rest) == [];
        assert x + [SEPARATOR] + Join(rest) == x + [SEPARATOR];
        SplitDirectory(x);
      } else {
        JoinLength(rest);
        SplitJoin(rest);
        SplitJoinCons(x, rest);
      }
    }
  }

  /** `trim`: the longest prefix that does not end in a separator. A path made
      only of separators, the root "/" included, trims to "". */
  function Trimmed(s: string): (r: string)
    ensures r <= s
    ensures r == [] || r[|r| - 1] != SEPARATOR
    ensures forall i :: |r| <= i < |s| ==> s[i] == SEPARATOR
  {
    if |s| == 0 then s
    else
      match LastNotOf(s, SEPARATOR)
      case Some(p) => s[..p + 1]
      case None => []
  }

  /** `directory`: the trimmed path followed by exactly one separator. */
  function AsDirectory(s: string): (r: string)
    ensures TrailingSlash(r)
    ensures |r| == 1 || r[|r| - 2] != SEPARATOR
    ensures r[..|r| - 1] <= s
    ensures forall i :: |r| - 1 <= i < |s| ==> s[i] == SEPARATOR
  {
    Trimmed(s) + [SEPARATOR]
  }

  /** `directory` is idempotent, and only the trailing run of separators matters to it. */
  lemma AsDirectoryIdempotent(s: string)
    ensures AsDirectory(AsDirectory(s)) == AsDirectory(s)
    ensures Trimmed(AsDirectory(s)) == Trimmed(s)
  {
  }

  /** `append`: one separator unless the path already ends in one, then the
      argument's text verbatim. `join(a, b)` and `operator+` build the same string. */
  function Appended(s: string, segment: string): (r: string)
    ensures TrailingSlash(s) ==> r == s + segment
    ensures !TrailingSlash(s) ==> r == s + [SEPARATOR] + segment
  {
    if TrailingSlash(s) then s + segment else s + [SEPARATOR] + segment
  }

  /** Appending a non-empty text adds its segments after the receiver's
      getline tokens (the receiver's final empty segment, if any, is absorbed).
      An empty receiver contributes the root's empty segment. */
  lemma SplitAppended(s: string, segment: string)
    requires segment != []
    ensures Split(Appended(s, segment)) == (if s == [] then [[]] else Tokens(s)) + Split(segment)
  {
    var xs := if s == [] then [[]] else Tokens(s);
    var ys := Split(segment);
    JoinSplit(s);
    JoinSplit(segment);
    if s != [] {
      if TrailingSlash(s) {
        JoinConcat(Tokens(s), [[]]);
      } else {
        assert Split(s) == Tokens(s);
      }
    }
    assert Join(xs) + [SEPARATOR] == s || Join(xs) == s;
    assert Appended(s, segment) == Join(xs) + [SEPARATOR] + Join(ys);
    JoinConcat(xs, ys);
    assert NoSeparators(xs + ys);
    SplitJoin(xs + ys);
  }
}
