/** The few std::string searches that path.hpp relies on, stated over `seq<char>`. */
module Text {

  datatype Option<T> = None | Some(value: T)

  /** The position where std::getline stops reading a token: the first `c`
      in `s`, or `|s|` when there is none. */
  function IndexOf(s: string, c: char): (r: nat)
    ensures r <= |s|
    ensures forall j :: 0 <= j < r ==> s[j] != c
    ensures r < |s| ==> s[r] == c
  {
    if |s| == 0 || s[0] == c then 0 else 1 + IndexOf(s[1..], c)
  }

  /** std::string::rfind(c): the last position holding `c`, if any. */
  function RFind(s: string, c: char): (r: Option<nat>)
    ensures r.None? <==> c !in s
    ensures r.Some? ==> r.value < |s| && s[r.value] == c && c !in s[r.value + 1..]
  {
    if |s| == 0 then None
    else if s[|s| - 1] == c then Some(|s| - 1)
    else
      var r := RFind(s[..|s| - 1], c);
      assert s == s[..|s| - 1] + [s[|s| - 1]];
      assert r.Some? ==> s[r.value + 1..] == s[..|s| - 1][r.value + 1..] + [s[|s| - 1]];
      r
  }

  /** `r` is the tail end of `s`. */
  predicate IsSuffix(r: string, s: string) {
    |r| <= |s| && s[|s| - |r|..] == r
  }

  /** A tail end of a tail end is a tail end, and the characters before
      them line up. */
  lemma SuffixOfSuffix(r: string, m: string, s: string)
    requires IsSuffix(r, m) && IsSuffix(m, s)
    ensures IsSuffix(r, s)
    ensures |r| < |m| ==> s[|s| - |r| - 1] == m[|m| - |r| - 1]
  {
    assert s[|s| - |r|..] == s[|s| - |m|..][|m| - |r|..];
  }

  /** `s.substr(s.rfind(c) + 1)` when `s` holds `c`, and "" otherwise: the
      longest suffix free of `c` that follows a `c`. */
  function AfterLast(s: string, c: char): (r: string)
    ensures forall j :: 0 <= j < |r| ==> r[j] != c
    ensures IsSuffix(r, s)
    ensures c in s ==> |r| < |s| && s[|s| - |r| - 1] == c
    ensures c !in s ==> r == []
  {
    match RFind(s, c)
    case Some(p) => s[p + 1..]
    case None => []
  }

  /** The text after the last `c`, found from any position of `c` with no
      `c` after it. */
  lemma AfterLastAt(s: string, c: char, k: nat)
    requires k < |s| && s[k] == c
    requires forall j :: k < j < |s| ==> s[j] != c
    ensures AfterLast(s, c) == s[k + 1..]
  {
    assert c in s;
  }

  /** std::string::find_last_not_of(c): the last position not holding `c`, if any. */
  function LastNotOf(s: string, c: char): (r: Option<nat>)
    ensures r.None? <==> forall i :: 0 <= i < |s| ==> s[i] == c
    ensures r.Some? ==> r.value < |s| && s[r.value] != c
    ensures r.Some? ==> forall i :: r.value < i < |s| ==> s[i] == c
  {
    if |s| == 0 then None
    else if s[|s| - 1] != c then Some(|s| - 1)
    else
      var r := LastNotOf(s[..|s| - 1], c);
      assert forall i :: 0 <= i < |s| - 1 ==> s[..|s| - 1][i] == s[i];
      r
  }

  /** Any position of `c` with no `c` before it is the one IndexOf finds. */
  lemma IndexOfAt(s: string, c: char, k: nat)
    requires k < |s| && s[k] == c
    requires forall j :: 0 <= j < k ==> s[j] != c
    ensures IndexOf(s, c) == k
  {
  }
}
