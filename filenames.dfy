/** `filename`, `extension` and `stem`: searches for the last separator and
    the last '.' of the path text. */
module FileNames {
  import opened Text
  import opened PathString

  /** The character that starts an extension. */
  const DOT: char := '.'

  /** A text with no '.' in it. */
  predicate DotFree(x: string) {
    forall j :: 0 <= j < |x| ==> x[j] != DOT
  }

  /** `filename`: the text after the last separator, or "" when the path
      has no separator at all. */
  function Filename(s: string): (r: string)
    ensures SeparatorFree(r)
    ensures IsSuffix(r, s)
    ensures SEPARATOR in s ==> |r| < |s| && s[|s| - |r| - 1] == SEPARATOR
    ensures SEPARATOR !in s ==> r == []
  {
    AfterLast(s, SEPARATOR)
  }

  /** `extension`: the text after the last '.' of the file name, or "" when
      the file name has no '.'. It is a suffix of the path that follows a
      '.', and it holds neither a '.' nor a separator. */
  function Extension(s: string): (r: string)
    ensures DotFree(r) && SeparatorFree(r)
    ensures IsSuffix(r, s)
    ensures r != [] ==> |r| < |s| && s[|s| - |r| - 1] == DOT
  {
    var name := Filename(s);
    var r := AfterLast(name, DOT);
    SuffixOfSuffix(r, name, s);
    r
  }

  /** The path has a '.' with no separator after it: the file name part
      carries an extension (an empty file name when there is no separator). */
  predicate HasExtension(s: string) {
    exists i :: 0 <= i < |s| && s[i] == DOT && SeparatorFree(s[i + 1..])
  }

  /** `stem`: the path cut before its last '.' when no separator follows
      that '.', and the path unchanged otherwise. */
  function Stem(s: string): (r: string)
    ensures r <= s
    ensures r == s <==> !HasExtension(s)
    ensures r != s ==> s[|r|] == DOT && DotFree(s[|r| + 1..]) && SeparatorFree(s[|r| + 1..])
  {
    match RFind(s, DOT)
    case None => s
    case Some(d) =>
      assert DOT !in s[d + 1..];
      match RFind(s, SEPARATOR)
      case None =>
        assert SeparatorFree(s[d + 1..]);
        s[..d]
      case Some(p) =>
        assert SEPARATOR !in s[p + 1..];
        if p < d then
          assert SeparatorFree(s[d + 1..]) by {
            assert s[d + 1..] == s[p + 1..][d - p..];
          }
          s[..d]
        else
          assert !HasExtension(s) by {
            forall i | 0 <= i < |s| && s[i] == DOT
              ensures !SeparatorFree(s[i + 1..])
            {
              assert s[i + 1..][p - i - 1] == SEPARATOR;
            }
          }
          s
  }

  /** A path has an extension only when its stem cuts something off. */
  lemma ExtensionNeedsStem(s: string)
    ensures Stem(s) == s ==> Extension(s) == []
  {
    var r := Extension(s);
    if r != [] {
      var i := |s| - |r| - 1;
      assert s[i + 1..] == r;
      assert s[i] == DOT && SeparatorFree(s[i + 1..]);
    }
  }

  /** The extension of a path with a separator, found from a '.' followed
      by neither a '.' nor a separator. */
  lemma ExtensionAt(s: string, d: nat)
    requires SEPARATOR in s
    requires d < |s| && s[d] == DOT && DotFree(s[d + 1..]) && SeparatorFree(s[d + 1..])
    ensures Extension(s) == s[d + 1..]
  {
    var name := Filename(s);
    var q := |s| - |name| - 1;
    var k := d - q - 1;
    assert name == s[q + 1..];
    assert name[k] == s[d];
    forall j | k < j < |name|
      ensures name[j] != DOT
    {
      assert name[j] == s[d + 1..][j - k - 1];
    }
    AfterLastAt(name, DOT, k);
    assert name[k + 1..] == s[d + 1..];
  }

  /** The stem, found from a '.' followed by neither a '.' nor a separator. */
  lemma StemAt(s: string, d: nat)
    requires d < |s| && s[d] == DOT && DotFree(s[d + 1..]) && SeparatorFree(s[d + 1..])
    ensures Stem(s) == s[..d]
  {
    assert HasExtension(s);
  }

  // A prefix, the character after it and the rest make up the text.
  lemma Reassemble(s: string, front: string, back: string)
    requires front <= s && |front| < |s| && s[|front|] == DOT && back == s[|front| + 1..]
    ensures s == front + [DOT] + back
  {
    assert s == s[..|front|] + [s[|front|]] + s[|front| + 1..];
  }

  /** A path with a separator whose stem cuts something off is its stem, a
      '.', and its extension. */
  lemma StemDotExtension(s: string)
    requires SEPARATOR in s && Stem(s) != s
    ensures s == Stem(s) + [DOT] + Extension(s)
  {
    ExtensionAt(s, |Stem(s)|);
    Reassemble(s, Stem(s), Extension(s));
  }

  /** A path with a separator is its stem, a '.', and its extension when
      the stem cut something off; otherwise it has no extension. A path
      without a separator never has an extension, whatever its stem. */
  lemma StemExtension(s: string)
    ensures Stem(s) == s ==> Extension(s) == []
    ensures SEPARATOR in s && Stem(s) != s ==> s == Stem(s) + [DOT] + Extension(s)
    ensures SEPARATOR !in s ==> Extension(s) == []
  {
    ExtensionNeedsStem(s);
    if SEPARATOR in s && Stem(s) != s {
      StemDotExtension(s);
    }
  }

  /** Appending a separator-free name makes it the file name. */
  lemma FilenameAppended(s: string, x: string)
    requires SeparatorFree(x)
    ensures Filename(Appended(s, x)) == x
  {
    var t := Appended(s, x);
    var k := |t| - |x| - 1;
    if TrailingSlash(s) {
      assert t[k] == s[|s| - 1];
    }
    assert forall j :: k < j < |t| ==> t[j] == x[j - k - 1];
    AfterLastAt(t, SEPARATOR, k);
    assert t[k + 1..] == x;
  }

  /** Appending `name.ext` (no separator in either, no '.' in `ext`): the
      stem is the path with `name` appended and the extension is `ext`. */
  lemma StemAppended(s: string, name: string, ext: string)
    requires SeparatorFree(name) && SeparatorFree(ext) && DotFree(ext)
    ensures Stem(Appended(s, name + [DOT] + ext)) == Appended(s, name)
    ensures Extension(Appended(s, name + [DOT] + ext)) == ext
  {
    var base := Appended(s, name);
    var t := Appended(s, name + [DOT] + ext);
    AppendedConcat(s, name, [DOT]);
    AppendedConcat(s, name + [DOT], ext);
    var d := |base|;
    Reassembled(base, ext);
    StemAt(t, d);
    assert t[d - |name| - 1] == base[d - |name| - 1] == SEPARATOR;
    ExtensionAt(t, d);
  }

  // Appending to the end of an appended segment.
  lemma AppendedConcat(s: string, x: string, y: string)
    ensures Appended(s, x + y) == Appended(s, x) + y
  {
  }

  // The pieces of `base.ext`.
  lemma Reassembled(base: string, ext: string)
    ensures (base + [DOT] + ext)[|base|] == DOT
    ensures (base + [DOT] + ext)[|base| + 1..] == ext
    ensures (base + [DOT] + ext)[..|base|] == base
  {
  }
}
