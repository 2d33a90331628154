/** The tree operations `makedirs`, `recursive_listdir` and `rmdirs`, with
    the operating system replaced by an in-memory filesystem: a map from
    where an entry lives to what it is. */
module FileTree {
  import opened PathString
  import opened Sanitizer
  import opened Navigation

  /** What a filesystem entry is. */
  datatype Kind = File | Directory

  /** Where an entry lives: its names from the root down; the root is []. */
  type Location = seq<string>

  /** The location the system resolves a path to: an absolute path's own
      stack, or the path's segments pruned onto the working directory's
      stack, so "." and ".." are resolved by their text. */
  function Locate(p: string, cwd: string): (r: Location)
    requires IsWorkingDirectory(cwd)
    ensures forall i :: 0 <= i < |r| ==> IsName(r[i])
  {
    LocateAbsolutized(p, cwd);
    PrunedNormal(Absolutized(p, cwd));
    if IsAbsolute(p) then Pruned(p) else PruneOnto(Pruned(cwd), Split(p), false)
  }

  /** The location of a path is the stack of the path made absolute. */
  lemma LocateAbsolutized(p: string, cwd: string)
    requires IsWorkingDirectory(cwd)
    ensures Pruned(Absolutized(p, cwd))
         == if IsAbsolute(p) then Pruned(p) else PruneOnto(Pruned(cwd), Split(p), false)
  {
    if !IsAbsolute(p) {
      if p == [] {
        assert Absolutized(p, cwd) == cwd;
      } else {
        SplitAppended(cwd, p);
        PruneOntoConcat([], Tokens(cwd), Split(p), false);
        PrunedTokens(cwd);
      }
    }
  }

  /** Making a path absolute first does not move it. */
  lemma LocateAbsolute(p: string, cwd: string)
    requires IsWorkingDirectory(cwd)
    ensures Locate(Absolutized(p, cwd), cwd) == Locate(p, cwd)
  {
    LocateAbsolutized(p, cwd);
  }

  /** The directory an entry other than the root sits in. */
  function Enclosing(k: Location): Location
    requires k != []
  {
    k[..|k| - 1]
  }

  predicate IsDirectoryAt(entries: map<Location, Kind>, k: Location) {
    k in entries && entries[k] == Directory
  }

  /** A filesystem as the system keeps it: the root is a directory, every
      location is a run of plain names, and every other entry sits inside a
      directory that is present. */
  ghost predicate WellFormed(entries: map<Location, Kind>) {
    IsDirectoryAt(entries, []) &&
    (forall k :: k in entries ==> forall i :: 0 <= i < |k| ==> IsName(k[i])) &&
    (forall k, n :: k + [n] in entries ==> IsDirectoryAt(entries, k))
  }

  /** The directory enclosing a present entry is present. */
  lemma EnclosingPresent(entries: map<Location, Kind>, k: Location)
    requires WellFormed(entries) && k in entries && k != []
    ensures IsDirectoryAt(entries, Enclosing(k))
  {
    assert k == Enclosing(k) + [k[|k| - 1]];
  }

  /** Every directory on the way down to a present entry is present. */
  lemma {:induction false} Ancestors(entries: map<Location, Kind>, k: Location, i: nat)
    requires WellFormed(entries) && k in entries && i < |k|
    ensures IsDirectoryAt(entries, k[..i])
    decreases |k| - i
  {
    if i + 1 < |k| {
      Ancestors(entries, k, i + 1);
      EnclosingPresent(entries, k[..i + 1]);
      assert Enclosing(k[..i + 1]) == k[..i];
    } else {
      EnclosingPresent(entries, k);
      assert Enclosing(k) == k[..i];
    }
  }

  /** The entries directly inside `k`. */
  function Children(entries: map<Location, Kind>, k: Location): set<Location> {
    set c | c in entries && |c| == |k| + 1 && c[..|k|] == k
  }

  /** An entry inside `k` is `k` with one more name. */
  lemma ChildShape(entries: map<Location, Kind>, k: Location, c: Location)
    requires c in Children(entries, k)
    ensures c == k + [c[|k|]]
  {
  }

  /** The names `readdir` gives for locations inside `k`, each listed once,
      rebuild them. */
  lemma PickedNames(entries: map<Location, Kind>, k: Location, picked: seq<Location>, names: seq<string>)
    requires WellFormed(entries)
    requires forall c :: c in Children(entries, k) ==> c in picked
    requires forall i :: 0 <= i < |picked| ==> picked[i] in Children(entries, k)
    requires forall i, j :: 0 <= i < j < |picked| ==> picked[i] != picked[j]
    requires |names| == |picked| + 2
    requires forall i :: 0 <= i < |picked| ==> |picked[i]| > |k| && names[i + 2] == picked[i][|k|]
    ensures forall i :: 2 <= i < |names| ==> IsName(names[i]) && k + [names[i]] in Children(entries, k)
    ensures forall i, j :: 2 <= i < j < |names| ==> names[i] != names[j]
    ensures forall c :: c in Children(entries, k) ==> exists i :: 2 <= i < |names| && c == k + [names[i]]
  {
    forall i | 2 <= i < |names|
      ensures IsName(names[i]) && picked[i - 2] == k + [names[i]]
    {
      var c := picked[i - 2];
      ChildShape(entries, k, c);
      assert c in entries && |k| < |c|;
    }
    forall i, j | 2 <= i < j < |names|
      ensures names[i] != names[j]
    {
      assert picked[i - 2] != picked[j - 2];
    }
    forall c | c in Children(entries, k)
      ensures exists i :: 2 <= i < |names| && c == k + [names[i]]
    {
      var i :| 0 <= i < |picked| && picked[i] == c;
      assert c == k + [names[i + 2]];
    }
  }

  /** Nothing is inside an entry that is not a directory. */
  lemma NoChildren(entries: map<Location, Kind>, k: Location)
    requires WellFormed(entries) && !IsDirectoryAt(entries, k)
    ensures Children(entries, k) == {}
  {
    forall c | c in Children(entries, k)
      ensures false
    {
      ChildShape(entries, k, c);
    }
  }

  /** The entries anywhere below `k`, `k` itself excluded. */
  function Descendants(entries: map<Location, Kind>, k: Location): set<Location> {
    set c | c in entries && |c| > |k| && c[..|k|] == k
  }

  /** The locations of some paths. */
  function Places(ps: seq<string>, cwd: string): set<Location>
    requires IsWorkingDirectory(cwd)
  {
    set x | x in ps :: Locate(x, cwd)
  }

  // ---------------------------------------------------------------- mkdir

  /** What `mkdir(2)` reports, as far as `makedirs` tells the cases apart. */
  datatype MkdirResult = Made | AlreadyExists | NoEntry | NotDirectory | Denied

  /** Whether the nearest entry at or above `d` is a file: the walk down to
      `d` then meets that file before any missing entry. */
  predicate UnderFile(entries: map<Location, Kind>, d: Location)
    decreases |d|
  {
    if d in entries then entries[d] == File
    else d != [] && UnderFile(entries, Enclosing(d))
  }

  /** `mkdir(2)` on a location: an entry already there, a file on the way to
      it, a missing directory on the way to it, a location the system
      refuses, or success. */
  function MkdirOutcome(entries: map<Location, Kind>, refused: set<Location>, k: Location): MkdirResult
  {
    if k in entries then AlreadyExists
    else if k == [] then NoEntry
    else if UnderFile(entries, Enclosing(k)) then NotDirectory
    else if Enclosing(k) !in entries then NoEntry
    else if k in refused then Denied
    else Made
  }

  /** Whether a directory can be at `k` once the missing directories above
      it are made one by one from the top: `k` is a directory already, or it
      is missing, not refused, and its enclosing directory can be there. */
  predicate Creatable(entries: map<Location, Kind>, refused: set<Location>, k: Location)
    decreases |k|
  {
    if k in entries then entries[k] == Directory
    else k != [] && k !in refused && Creatable(entries, refused, Enclosing(k))
  }

  /** The directories `makedirs` adds on the way down to `k`. */
  function Created(entries: map<Location, Kind>, refused: set<Location>, k: Location): set<Location> {
    set i | 0 < i <= |k| && k[..i] !in entries && Creatable(entries, refused, k[..i]) :: k[..i]
  }

  /** The filesystem with every location of `made` added as a directory. */
  function WithDirectories(entries: map<Location, Kind>, made: set<Location>): map<Location, Kind> {
    entries + map c | c in made :: Directory
  }

  /** Below a present entry nothing is created on the way to it. */
  lemma CreatedOfPresent(entries: map<Location, Kind>, refused: set<Location>, k: Location)
    requires WellFormed(entries) && k in entries
    ensures Created(entries, refused, k) == {}
  {
    forall i | 0 < i <= |k|
      ensures k[..i] in entries
    {
      if i < |k| { Ancestors(entries, k, i); } else { assert k[..i] == k; }
    }
  }

  /** The directories made on the way to `k` are those made on the way to
      its enclosing directory, and `k` itself when it is missing and can be made. */
  lemma CreatedStep(entries: map<Location, Kind>, refused: set<Location>, k: Location)
    requires k != []
    ensures Created(entries, refused, k)
         == Created(entries, refused, Enclosing(k))
          + (if k !in entries && Creatable(entries, refused, k) then {k} else {})
  {
    var up := Enclosing(k);
    var extra := if k !in entries && Creatable(entries, refused, k) then {k} else {};
    forall c | c in Created(entries, refused, k)
      ensures c in Created(entries, refused, up) + extra
    {
      var i :| 0 < i <= |k| && k[..i] !in entries && Creatable(entries, refused, k[..i]) && c == k[..i];
      if i < |k| {
        assert up[..i] == k[..i];
      } else {
        assert k[..i] == k;
      }
    }
    forall c | c in Created(entries, refused, up) + extra
      ensures c in Created(entries, refused, k)
    {
      if c in Created(entries, refused, up) {
        var i :| 0 < i <= |up| && up[..i] !in entries && Creatable(entries, refused, up[..i]) && c == up[..i];
        assert up[..i] == k[..i];
      } else {
        assert k[..|k|] == k;
      }
    }
  }

  /** `makedirs` leaves a directory at `k` exactly when one can be made there. */
  lemma CreatableMade(entries: map<Location, Kind>, refused: set<Location>, k: Location)
    requires WellFormed(entries)
    ensures Creatable(entries, refused, k)
        <==> IsDirectoryAt(WithDirectories(entries, Created(entries, refused, k)), k)
  {
    if k in entries {
      CreatedOfPresent(entries, refused, k);
    } else {
      assert k[..|k|] == k;
    }
  }

  /** When the first `mkdir` succeeds, `k` is the only directory made. */
  lemma MadeAtOnce(entries: map<Location, Kind>, refused: set<Location>, k: Location)
    requires WellFormed(entries) && MkdirOutcome(entries, refused, k) == Made
    ensures Creatable(entries, refused, k)
    ensures WithDirectories(entries, Created(entries, refused, k)) == entries[k := Directory]
  {
    CreatedStep(entries, refused, k);
    CreatedOfPresent(entries, refused, Enclosing(k));
    assert Created(entries, refused, k) == {k};
  }

  /** When `k` is there already, nothing is made, and the answer is whether it is a directory. */
  lemma MadeNothingExisting(entries: map<Location, Kind>, refused: set<Location>, k: Location)
    requires WellFormed(entries) && MkdirOutcome(entries, refused, k) == AlreadyExists
    ensures Creatable(entries, refused, k) <==> entries[k] == Directory
    ensures WithDirectories(entries, Created(entries, refused, k)) == entries
  {
    CreatedOfPresent(entries, refused, k);
  }

  /** Below a file no directory can be, and none is made on the way. */
  lemma {:induction false} UnderFileBlocked(entries: map<Location, Kind>, refused: set<Location>, d: Location)
    requires WellFormed(entries) && UnderFile(entries, d)
    ensures !Creatable(entries, refused, d)
    ensures Created(entries, refused, d) == {}
    decreases |d|
  {
    if d in entries {
      CreatedOfPresent(entries, refused, d);
    } else {
      UnderFileBlocked(entries, refused, Enclosing(d));
      CreatedStep(entries, refused, d);
    }
  }

  /** When a file is on the way to `k` or `k` is refused, nothing is made
      and no directory can be at `k`. */
  lemma MadeNothingRefused(entries: map<Location, Kind>, refused: set<Location>, k: Location)
    requires WellFormed(entries)
    requires MkdirOutcome(entries, refused, k) == NotDirectory || MkdirOutcome(entries, refused, k) == Denied
    ensures !Creatable(entries, refused, k)
    ensures WithDirectories(entries, Created(entries, refused, k)) == entries
  {
    CreatedStep(entries, refused, k);
    if MkdirOutcome(entries, refused, k) == NotDirectory {
      UnderFileBlocked(entries, refused, Enclosing(k));
    } else {
      CreatedOfPresent(entries, refused, Enclosing(k));
    }
    assert Created(entries, refused, k) == {};
  }

  /** When the enclosing directory is missing: after the directories above
      `k` are made, the second `mkdir` succeeds exactly when a directory can
      be at `k`, and then `k` is the last directory made. */
  lemma MadeAfterEnclosing(entries: map<Location, Kind>, refused: set<Location>, k: Location)
    requires WellFormed(entries) && MkdirOutcome(entries, refused, k) == NoEntry
    ensures k != []
    ensures var between := WithDirectories(entries, Created(entries, refused, Enclosing(k)));
      && (MkdirOutcome(between, refused, k) == Made <==> Creatable(entries, refused, k))
      && WithDirectories(entries, Created(entries, refused, k))
         == if Creatable(entries, refused, k) then between[k := Directory] else between
  {
    var up := Enclosing(k);
    var made := Created(entries, refused, up);
    var between := WithDirectories(entries, made);
    assert k !in between by {
      assert forall c :: c in made ==> |c| <= |up|;
    }
    assert IsDirectoryAt(between, up) <==> Creatable(entries, refused, up) by {
      CreatableMade(entries, refused, up);
    }
    assert up in between ==> between[up] == Directory;
    CreatedStep(entries, refused, k);
    if Creatable(entries, refused, k) {
      assert Created(entries, refused, k) == made + {k};
      AddDirectory(entries, made, k);
    } else {
      assert Created(entries, refused, k) == made;
    }
  }

  /** A successful `mkdir` keeps the filesystem well formed. */
  lemma MkdirWellFormed(entries: map<Location, Kind>, refused: set<Location>, k: Location)
    requires WellFormed(entries) && MkdirOutcome(entries, refused, k) == Made
    requires forall i :: 0 <= i < |k| ==> IsName(k[i])
    ensures WellFormed(entries[k := Directory])
  {
    var after := entries[k := Directory];
    forall up, n | up + [n] in after
      ensures IsDirectoryAt(after, up)
    {
      assert |up| < |up + [n]|;
      if up + [n] == k {
        assert up == Enclosing(k);
        assert IsDirectoryAt(entries, up);
      } else {
        assert up + [n] in entries;
        assert IsDirectoryAt(entries, up);
      }
      assert up != k;
    }
  }

  /** Adding one more directory to those made. */
  lemma AddDirectory(entries: map<Location, Kind>, made: set<Location>, k: Location)
    ensures WithDirectories(entries, made + {k}) == WithDirectories(entries, made)[k := Directory]
  {
  }

  // ------------------------------------------------------------- listing

  /** What `listdir(p)` returns: nothing unless `p` is a directory; otherwise
      one path per entry inside it, each the absolute form of `p` with the
      entry's name appended. */
  ghost predicate Listing(entries: map<Location, Kind>, cwd: string, p: string, items: seq<string>)
    requires IsWorkingDirectory(cwd)
  {
    var k := Locate(p, cwd);
    (!IsDirectoryAt(entries, k) ==> items == []) &&
    Places(items, cwd) == Children(entries, k) &&
    (forall i, j :: 0 <= i < j < |items| ==> Locate(items[i], cwd) != Locate(items[j], cwd)) &&
    (forall x <- items :: Locate(x, cwd) in Children(entries, k) && x == Appended(Absolutized(p, cwd), Locate(x, cwd)[|k|]))
  }

  /** A plain name appended to the absolute form of `p` is located inside `p`. */
  lemma ItemLocated(cwd: string, p: string, name: string, item: string)
    requires IsWorkingDirectory(cwd) && IsName(name)
    requires item == Resolved(Absolutized(p, cwd), name)
    ensures Locate(item, cwd) == Locate(p, cwd) + [name]
    ensures item == Appended(Absolutized(p, cwd), name)
  {
    LocateAbsolutized(p, cwd);
    ResolvedName(Absolutized(p, cwd), name);
  }

  /** Paths located at distinct entries inside `k`, one for each entry, make
      a listing of a directory at `k`. */
  lemma ListingOfLocated(entries: map<Location, Kind>, cwd: string, p: string, names: seq<string>, items: seq<string>)
    requires IsWorkingDirectory(cwd) && IsDirectoryAt(entries, Locate(p, cwd))
    requires |names| == |items| + 2
    requires forall i :: 2 <= i < |names| ==> Locate(p, cwd) + [names[i]] in Children(entries, Locate(p, cwd))
    requires forall i, j :: 2 <= i < j < |names| ==> names[i] != names[j]
    requires forall c :: c in Children(entries, Locate(p, cwd)) ==> exists i :: 2 <= i < |names| && c == Locate(p, cwd) + [names[i]]
    requires forall j {:trigger Locate(items[j], cwd)} :: 0 <= j < |items| ==>
      Locate(items[j], cwd) == Locate(p, cwd) + [names[j + 2]] && items[j] == Appended(Absolutized(p, cwd), names[j + 2])
    ensures Listing(entries, cwd, p, items)
  {
    var k := Locate(p, cwd);
    forall c | c in Children(entries, k)
      ensures c in Places(items, cwd)
    {
      var i :| 2 <= i < |names| && c == k + [names[i]];
      assert Locate(items[i - 2], cwd) == c;
    }
    forall i, j | 0 <= i < j < |items|
      ensures Locate(items[i], cwd) != Locate(items[j], cwd)
    {
      assert names[i + 2] != names[j + 2];
      assert (k + [names[i + 2]])[|k|] == names[i + 2];
    }
    forall x <- items
      ensures Locate(x, cwd) in Children(entries, k) && x == Appended(Absolutized(p, cwd), Locate(x, cwd)[|k|])
    {
      var j :| 0 <= j < |items| && items[j] == x;
      assert (k + [names[j + 2]])[|k|] == names[j + 2];
    }
  }

  /** The paths `listdir` builds from what `readdir` returned make a listing. */
  lemma ListingOfNames(entries: map<Location, Kind>, cwd: string, p: string, names: seq<string>, items: seq<string>)
    requires WellFormed(entries) && IsWorkingDirectory(cwd)
    requires IsDirectoryAt(entries, Locate(p, cwd))
    requires |names| >= 2
    requires forall i :: 2 <= i < |names| ==> Locate(p, cwd) + [names[i]] in Children(entries, Locate(p, cwd))
    requires forall i, j :: 2 <= i < j < |names| ==> names[i] != names[j]
    requires forall c :: c in Children(entries, Locate(p, cwd)) ==> exists i :: 2 <= i < |names| && c == Locate(p, cwd) + [names[i]]
    requires |items| == |names| - 2
    requires forall j :: 0 <= j < |items| ==> items[j] == Resolved(Absolutized(p, cwd), names[j + 2])
    ensures Listing(entries, cwd, p, items)
  {
    var k := Locate(p, cwd);
    forall j | 0 <= j < |items|
      ensures Locate(items[j], cwd) == k + [names[j + 2]] && items[j] == Appended(Absolutized(p, cwd), names[j + 2])
    {
      var c := k + [names[j + 2]];
      assert c in entries && c[|k|] == names[j + 2];
      ItemLocated(cwd, p, names[j + 2], items[j]);
    }
    ListingOfLocated(entries, cwd, p, names, items);
  }

  /** The directories among some paths, in their order. */
  function Directories(entries: map<Location, Kind>, cwd: string, xs: seq<string>): seq<string>
    requires IsWorkingDirectory(cwd)
  {
    if xs == [] then []
    else
      var last := xs[|xs| - 1];
      Directories(entries, cwd, xs[..|xs| - 1]) + (if IsDirectoryAt(entries, Locate(last, cwd)) then [last] else [])
  }

  /** `Directories` keeps exactly the paths that name directories, and
      brings no repeated location in. */
  lemma {:induction false} DirectoriesOf(entries: map<Location, Kind>, cwd: string, xs: seq<string>)
    requires IsWorkingDirectory(cwd)
    ensures forall x <- Directories(entries, cwd, xs) :: x in xs && IsDirectoryAt(entries, Locate(x, cwd))
    ensures forall x <- xs :: IsDirectoryAt(entries, Locate(x, cwd)) ==> x in Directories(entries, cwd, xs)
    ensures Distinct(cwd, xs) ==> Distinct(cwd, Directories(entries, cwd, xs))
  {
    if xs != [] {
      var front, last := xs[..|xs| - 1], xs[|xs| - 1];
      assert xs == front + [last];
      DirectoriesOf(entries, cwd, front);
      var r := Directories(entries, cwd, front);
      if Distinct(cwd, xs) && IsDirectoryAt(entries, Locate(last, cwd)) {
        DistinctFront(cwd, front, last);
        forall y <- [last]
          ensures Locate(y, cwd) !in Places(r, cwd)
        {
          forall z <- r
            ensures Locate(z, cwd) != Locate(last, cwd)
          {
            assert z in front;
          }
        }
        DistinctJoin(cwd, r, [last]);
      }
    }
  }

  /** One more path: its own entry is added after the earlier ones'. */
  lemma DirectoriesTake(entries: map<Location, Kind>, cwd: string, xs: seq<string>, i: nat)
    requires IsWorkingDirectory(cwd) && i < |xs|
    ensures Directories(entries, cwd, xs[..i + 1])
         == Directories(entries, cwd, xs[..i]) + (if IsDirectoryAt(entries, Locate(xs[i], cwd)) then [xs[i]] else [])
  {
    assert xs[..i + 1][..i] == xs[..i];
  }

  /** A path found below `p`: its location extends that of `p`, and its text
      is the absolute form of `p` with the extra names joined on. */
  ghost predicate Below(cwd: string, p: string, x: string)
    requires IsWorkingDirectory(cwd)
  {
    var k0 := Locate(p, cwd);
    var k := Locate(x, cwd);
    |k| > |k0| && k[..|k0|] == k0 && x == Appended(Absolutized(p, cwd), Join(k[|k0|..]))
  }

  /** Every result lies below `p`, is present, and was listed from a directory already visited. */
  ghost predicate ResultsBelow(entries: map<Location, Kind>, cwd: string, p: string, results: seq<string>, done: set<Location>)
    requires IsWorkingDirectory(cwd)
  {
    forall x <- results :: Below(cwd, p, x) && Locate(x, cwd) in entries && Enclosing(Locate(x, cwd)) in done
  }

  predicate Distinct(cwd: string, xs: seq<string>)
    requires IsWorkingDirectory(cwd)
  {
    forall i, j :: 0 <= i < j < |xs| ==> Locate(xs[i], cwd) != Locate(xs[j], cwd)
  }

  /** Every visited directory is `p` or a result, and all its entries are results. */
  ghost predicate DoneCovered(entries: map<Location, Kind>, cwd: string, p: string, results: seq<string>, done: set<Location>)
    requires IsWorkingDirectory(cwd)
  {
    forall d <- done :: IsDirectoryAt(entries, d) && (d == Locate(p, cwd) || d in Places(results, cwd))
      && Children(entries, d) <= Places(results, cwd)
  }

  /** The work list is `p` alone before anything happened, or each path on it is
      a result that is a directory not yet visited. */
  ghost predicate WorkPending(entries: map<Location, Kind>, cwd: string, p: string, results: seq<string>, work: seq<string>, done: set<Location>)
    requires IsWorkingDirectory(cwd)
  {
    forall w <- work :: (work == [p] && done == {} && results == [])
      || (Below(cwd, p, w) && IsDirectoryAt(entries, Locate(w, cwd))
          && Locate(w, cwd) in Places(results, cwd) && Locate(w, cwd) !in done)
  }

  /** Every directory among the results is visited or waiting, and so is `p`. */
  ghost predicate Scheduled(entries: map<Location, Kind>, cwd: string, p: string, results: seq<string>, work: seq<string>, done: set<Location>)
    requires IsWorkingDirectory(cwd)
  {
    (forall x <- results :: IsDirectoryAt(entries, Locate(x, cwd)) ==> Locate(x, cwd) in done || Locate(x, cwd) in Places(work, cwd)) &&
    (IsDirectoryAt(entries, Locate(p, cwd)) && Locate(p, cwd) !in done ==> work == [p])
  }

  /** The invariant of the work-list loop of `recursive_listdir`. */
  ghost predicate Frontier(entries: map<Location, Kind>, cwd: string, p: string, results: seq<string>, work: seq<string>, done: set<Location>)
    requires IsWorkingDirectory(cwd)
  {
    ResultsBelow(entries, cwd, p, results, done) && Distinct(cwd, results) &&
    DoneCovered(entries, cwd, p, results, done) &&
    WorkPending(entries, cwd, p, results, work, done) && Distinct(cwd, work) &&
    Scheduled(entries, cwd, p, results, work, done)
  }

  /** The directories present. */
  function DirectorySet(entries: map<Location, Kind>): set<Location> {
    set c | c in entries && entries[c] == Directory
  }

  lemma PlacesConcat(cwd: string, xs: seq<string>, ys: seq<string>)
    requires IsWorkingDirectory(cwd)
    ensures Places(xs + ys, cwd) == Places(xs, cwd) + Places(ys, cwd)
  {
  }

  /** Joining one more segment on puts one separator before it. */
  lemma JoinSnoc(t: seq<string>, n: string)
    requires t != []
    ensures Join(t + [n]) == Join(t) + [SEPARATOR] + n
  {
    JoinConcat(t, [n]);
    JoinLength([n]);
  }

  /** Appending to a path that does not end in a separator puts one separator in. */
  lemma AppendedTwice(p0: string, s: string, n: string)
    requires IsAbsolute(p0) && s != [] && !TrailingSlash(s)
    ensures IsAbsolute(Appended(p0, s))
    ensures Appended(Appended(p0, s), n) == Appended(p0, s + [SEPARATOR] + n)
  {
    var front := if TrailingSlash(p0) then p0 else p0 + [SEPARATOR];
    assert Appended(p0, s) == front + s;
    assert (front + s)[|front + s| - 1] == s[|s| - 1];
    assert Appended(front + s, n) == front + (s + [SEPARATOR] + n);
  }

  /** Appending one more name to an absolute path built from names is
      joining that name onto the names. */
  lemma AppendedJoin(p0: string, t: seq<string>, n: string)
    requires IsAbsolute(p0) && t != [] && IsName(t[|t| - 1])
    ensures IsAbsolute(Appended(p0, Join(t)))
    ensures Appended(Appended(p0, Join(t)), n) == Appended(p0, Join(t + [n]))
  {
    JoinEndsInName(t);
    JoinSnoc(t, n);
    AppendedTwice(p0, Join(t), n);
  }

  /** The spelling of a listed path, on plain values: a name appended to
      `p0`, or to `p0` with names joined on, is `p0` with one more name joined on. */
  lemma ChildSpelled(p0: string, k0: Location, d: Location, cur: string, k: Location, x: string)
    requires IsAbsolute(p0)
    requires (d == k0 && cur == p0)
      || (|d| > |k0| && d[..|k0|] == k0 && cur == Appended(p0, Join(d[|k0|..])) && IsName(d[|d| - 1]))
    requires |k| == |d| + 1 && k[..|d|] == d && x == Appended(cur, k[|d|])
    ensures |k| > |k0| && k[..|k0|] == k0 && x == Appended(p0, Join(k[|k0|..]))
  {
    var n := k[|d|];
    assert k == d + [n];
    if d == k0 && cur == p0 {
      assert k[|k0|..] == [n];
      JoinLength([n]);
    } else {
      var t := d[|k0|..];
      assert t[|t| - 1] == d[|d| - 1];
      AppendedJoin(p0, t, n);
      assert k[|k0|..] == t + [n];
    }
  }

  /** An entry listed from `p`, or from a path found below `p`, is found below `p`. */
  lemma ChildBelow(cwd: string, p: string, current: string, x: string)
    requires IsWorkingDirectory(cwd)
    requires current == p || Below(cwd, p, current)
    requires |Locate(x, cwd)| == |Locate(current, cwd)| + 1
    requires Locate(x, cwd)[..|Locate(current, cwd)|] == Locate(current, cwd)
    requires x == Appended(Absolutized(current, cwd), Locate(x, cwd)[|Locate(current, cwd)|])
    ensures Below(cwd, p, x)
  {
    var k0, d, k := Locate(p, cwd), Locate(current, cwd), Locate(x, cwd);
    var p0 := Absolutized(p, cwd);
    if current != p {
      var t := d[|k0|..];
      assert t != [] && t[|t| - 1] == d[|d| - 1];
      assert IsAbsolute(current) by {
        AppendedJoin(p0, t, []);
      }
    }
    ChildSpelled(p0, k0, d, Absolutized(current, cwd), k, x);
  }

  /** The path taken off the work list is `p` on the first round, and
      otherwise a result that is a directory not yet visited. */
  ghost predicate Visiting(entries: map<Location, Kind>, cwd: string, p: string, results: seq<string>, work: seq<string>, done: set<Location>, current: string)
    requires IsWorkingDirectory(cwd)
  {
    (current == p && done == {} && results == [] && work == [])
    || (current != p && Below(cwd, p, current) && IsDirectoryAt(entries, Locate(current, cwd))
        && Locate(current, cwd) in Places(results, cwd) && Locate(current, cwd) !in done && results != [])
  }

  lemma VisitCase(entries: map<Location, Kind>, cwd: string, p: string, results: seq<string>, work: seq<string>, done: set<Location>, current: string)
    requires IsWorkingDirectory(cwd)
    requires WorkPending(entries, cwd, p, results, work + [current], done)
    ensures Visiting(entries, cwd, p, results, work, done, current)
  {
    assert current in work + [current];
    if work + [current] == [p] {
      assert |work| == 0;
    }
  }

  /** Two lists of paths with no location in common, each without repeats,
      together have no repeats. */
  lemma DistinctJoin(cwd: string, xs: seq<string>, ys: seq<string>)
    requires IsWorkingDirectory(cwd)
    requires Distinct(cwd, xs) && Distinct(cwd, ys)
    requires forall y <- ys :: Locate(y, cwd) !in Places(xs, cwd)
    ensures Distinct(cwd, xs + ys)
  {
    var all := xs + ys;
    forall i, j | 0 <= i < j < |all|
      ensures Locate(all[i], cwd) != Locate(all[j], cwd)
    {
      if i < |xs| && j >= |xs| {
        assert all[j] == ys[j - |xs|];
        assert Locate(all[i], cwd) in Places(xs, cwd);
      }
    }
  }

  lemma DistinctFront(cwd: string, xs: seq<string>, x: string)
    requires IsWorkingDirectory(cwd)
    requires Distinct(cwd, xs + [x])
    ensures Distinct(cwd, xs) && Locate(x, cwd) !in Places(xs, cwd)
  {
    forall i, j | 0 <= i < j < |xs|
      ensures Locate(xs[i], cwd) != Locate(xs[j], cwd)
    {
      assert (xs + [x])[i] == xs[i] && (xs + [x])[j] == xs[j];
    }
    forall y <- xs
      ensures Locate(y, cwd) != Locate(x, cwd)
    {
      var i :| 0 <= i < |xs| && xs[i] == y;
      assert (xs + [x])[i] == y && (xs + [x])[|xs|] == x;
    }
  }

  /** Every entry listed while visiting is found below `p`. */
  lemma ItemsBelow(entries: map<Location, Kind>, cwd: string, p: string, current: string, items: seq<string>)
    requires IsWorkingDirectory(cwd)
    requires current == p || Below(cwd, p, current)
    requires Listing(entries, cwd, current, items)
    ensures forall x <- items :: (Below(cwd, p, x) && Locate(x, cwd) in entries
      && Locate(x, cwd) != [] && Enclosing(Locate(x, cwd)) == Locate(current, cwd))
  {
    forall x <- items
      ensures Below(cwd, p, x) && Locate(x, cwd) in entries
      ensures Locate(x, cwd) != [] && Enclosing(Locate(x, cwd)) == Locate(current, cwd)
    {
      ChildBelow(cwd, p, current, x);
    }
  }

  /** Every entry listed while visiting is new: not a result yet, not
      visited, and not the directory visited. */
  lemma ItemsFresh(entries: map<Location, Kind>, cwd: string, p: string, results: seq<string>, work: seq<string>, done: set<Location>, current: string, items: seq<string>)
    requires IsWorkingDirectory(cwd)
    requires Visiting(entries, cwd, p, results, work, done, current)
    requires ResultsBelow(entries, cwd, p, results, done) && DoneCovered(entries, cwd, p, results, done)
    requires forall x <- items :: Below(cwd, p, x) && Locate(x, cwd) != [] && Enclosing(Locate(x, cwd)) == Locate(current, cwd)
    ensures forall x <- items :: (Locate(x, cwd) !in Places(results, cwd) && Locate(x, cwd) !in done
      && Locate(x, cwd) != Locate(current, cwd))
  {
    var d := Locate(current, cwd);
    forall x <- items
      ensures Locate(x, cwd) !in Places(results, cwd) && Locate(x, cwd) !in done
      ensures Locate(x, cwd) != d
    {
      var c := Locate(x, cwd);
      forall y <- results
        ensures Locate(y, cwd) != c
      {
        assert Enclosing(Locate(y, cwd)) in done;
      }
    }
  }

  /** The results after a visit still lie below `p` and are all present. */
  lemma ResultsStep(entries: map<Location, Kind>, cwd: string, p: string, results: seq<string>, done: set<Location>, current: string, items: seq<string>, after: set<Location>)
    requires IsWorkingDirectory(cwd)
    requires ResultsBelow(entries, cwd, p, results, done)
    requires forall x <- items :: (Below(cwd, p, x) && Locate(x, cwd) in entries
      && Locate(x, cwd) != [] && Enclosing(Locate(x, cwd)) == Locate(current, cwd))
    requires done <= after && (items != [] ==> Locate(current, cwd) in after)
    ensures ResultsBelow(entries, cwd, p, results + items, after)
  {
  }

  /** The visited directories after a visit have all their entries listed. */
  lemma DoneStep(entries: map<Location, Kind>, cwd: string, p: string, results: seq<string>, done: set<Location>, current: string, items: seq<string>)
    requires IsWorkingDirectory(cwd)
    requires DoneCovered(entries, cwd, p, results, done)
    requires Listing(entries, cwd, current, items)
    requires IsDirectoryAt(entries, Locate(current, cwd))
    requires Locate(current, cwd) == Locate(p, cwd) || Locate(current, cwd) in Places(results, cwd)
    ensures DoneCovered(entries, cwd, p, results + items, done + {Locate(current, cwd)})
  {
    PlacesConcat(cwd, results, items);
  }

  /** The paths left waiting after a visit are still waiting. */
  lemma WaitingStep(entries: map<Location, Kind>, cwd: string, p: string, results: seq<string>, work: seq<string>, done: set<Location>, current: string, items: seq<string>, after: set<Location>)
    requires IsWorkingDirectory(cwd)
    requires Visiting(entries, cwd, p, results, work, done, current)
    requires WorkPending(entries, cwd, p, results, work + [current], done)
    requires Locate(current, cwd) !in Places(work, cwd)
    requires after == if IsDirectoryAt(entries, Locate(current, cwd)) then done + {Locate(current, cwd)} else done
    ensures forall w <- work :: (Below(cwd, p, w) && IsDirectoryAt(entries, Locate(w, cwd))
      && Locate(w, cwd) in Places(results + items, cwd) && Locate(w, cwd) !in after)
    ensures forall w <- work :: Locate(w, cwd) in Places(results, cwd)
  {
    PlacesConcat(cwd, results, items);
    forall w <- work
      ensures Below(cwd, p, w) && IsDirectoryAt(entries, Locate(w, cwd))
      ensures Locate(w, cwd) in Places(results, cwd) && Locate(w, cwd) !in after
    {
      assert w in work + [current];
    }
  }

  /** The directories listed in a visit wait on the work list. */
  lemma FoundStep(entries: map<Location, Kind>, cwd: string, p: string, results: seq<string>, done: set<Location>, current: string, items: seq<string>, after: set<Location>)
    requires IsWorkingDirectory(cwd)
    requires forall x <- items :: Below(cwd, p, x)
    requires forall x <- items :: Locate(x, cwd) !in done && Locate(x, cwd) != Locate(current, cwd)
    requires after == if IsDirectoryAt(entries, Locate(current, cwd)) then done + {Locate(current, cwd)} else done
    ensures forall x <- Directories(entries, cwd, items) :: (Below(cwd, p, x) && IsDirectoryAt(entries, Locate(x, cwd))
      && Locate(x, cwd) in Places(results + items, cwd) && Locate(x, cwd) !in after)
  {
    PlacesConcat(cwd, results, items);
    DirectoriesOf(entries, cwd, items);
  }

  /** The work list after a visit holds directories found and not visited. */
  lemma WorkStep(entries: map<Location, Kind>, cwd: string, p: string, results: seq<string>, work: seq<string>, found: seq<string>, after: set<Location>)
    requires IsWorkingDirectory(cwd)
    requires forall w <- work :: (Below(cwd, p, w) && IsDirectoryAt(entries, Locate(w, cwd))
      && Locate(w, cwd) in Places(results, cwd) && Locate(w, cwd) !in after)
    requires forall w <- found :: (Below(cwd, p, w) && IsDirectoryAt(entries, Locate(w, cwd))
      && Locate(w, cwd) in Places(results, cwd) && Locate(w, cwd) !in after)
    ensures WorkPending(entries, cwd, p, results, work + found, after)
  {
    forall w <- work + found
      ensures Below(cwd, p, w) && IsDirectoryAt(entries, Locate(w, cwd))
      ensures Locate(w, cwd) in Places(results, cwd) && Locate(w, cwd) !in after
    {
      assert w in work || w in found;
    }
  }

  /** No location waits twice on the work list after a visit. */
  lemma WorkDistinctStep(entries: map<Location, Kind>, cwd: string, results: seq<string>, work: seq<string>, items: seq<string>)
    requires IsWorkingDirectory(cwd)
    requires Distinct(cwd, work) && Distinct(cwd, items)
    requires forall w <- work :: Locate(w, cwd) in Places(results, cwd)
    requires forall x <- items :: Locate(x, cwd) !in Places(results, cwd)
    ensures Distinct(cwd, work + Directories(entries, cwd, items))
  {
    var found := Directories(entries, cwd, items);
    DirectoriesOf(entries, cwd, items);
    forall y <- found
      ensures Locate(y, cwd) !in Places(work, cwd)
    {
      assert y in items;
    }
    DistinctJoin(cwd, work, found);
  }

  /** Every directory among the results after a visit is visited or waiting. */
  lemma ResultsScheduled(entries: map<Location, Kind>, cwd: string, results: seq<string>, work: seq<string>, done: set<Location>, current: string, items: seq<string>, after: set<Location>)
    requires IsWorkingDirectory(cwd)
    requires forall x <- results :: (IsDirectoryAt(entries, Locate(x, cwd))
      ==> Locate(x, cwd) in done || Locate(x, cwd) in Places(work + [current], cwd))
    requires after == if IsDirectoryAt(entries, Locate(current, cwd)) then done + {Locate(current, cwd)} else done
    ensures forall x <- results + items :: (IsDirectoryAt(entries, Locate(x, cwd))
      ==> Locate(x, cwd) in after || Locate(x, cwd) in Places(work + Directories(entries, cwd, items), cwd))
  {
    var found := Directories(entries, cwd, items);
    DirectoriesOf(entries, cwd, items);
    PlacesConcat(cwd, work, found);
    PlacesConcat(cwd, work, [current]);
    forall x <- results + items | IsDirectoryAt(entries, Locate(x, cwd))
      ensures Locate(x, cwd) in after || Locate(x, cwd) in Places(work + found, cwd)
    {
      if x in items {
        assert x in found;
      }
    }
  }

  /** Every directory found after a visit is visited or waiting, and so is `p`. */
  lemma ScheduledStep(entries: map<Location, Kind>, cwd: string, p: string, results: seq<string>, work: seq<string>, done: set<Location>, current: string, items: seq<string>, after: set<Location>)
    requires IsWorkingDirectory(cwd)
    requires Visiting(entries, cwd, p, results, work, done, current)
    requires Scheduled(entries, cwd, p, results, work + [current], done)
    requires after == if IsDirectoryAt(entries, Locate(current, cwd)) then done + {Locate(current, cwd)} else done
    ensures Scheduled(entries, cwd, p, results + items, work + Directories(entries, cwd, items), after)
  {
    ResultsScheduled(entries, cwd, results, work, done, current, items, after);
    if current != p {
      assert work + [current] != [p] by {
        assert (work + [current])[|work|] == current;
      }
    }
  }

  /** One round of the work-list loop keeps its invariant, and visits a
      directory not visited before or lists nothing. */
  lemma Explore(entries: map<Location, Kind>, cwd: string, p: string, results: seq<string>, work: seq<string>, done: set<Location>, current: string, items: seq<string>)
    requires WellFormed(entries) && IsWorkingDirectory(cwd)
    requires Frontier(entries, cwd, p, results, work + [current], done)
    requires Listing(entries, cwd, current, items)
    ensures IsDirectoryAt(entries, Locate(current, cwd)) ==> Locate(current, cwd) in DirectorySet(entries) - done
    ensures Frontier(entries, cwd, p, results + items, work + Directories(entries, cwd, items),
      if IsDirectoryAt(entries, Locate(current, cwd)) then done + {Locate(current, cwd)} else done)
  {
    var d := Locate(current, cwd);
    var after := if IsDirectoryAt(entries, d) then done + {d} else done;
    VisitCase(entries, cwd, p, results, work, done, current);
    DistinctFront(cwd, work, current);
    ItemsBelow(entries, cwd, p, current, items);
    ItemsFresh(entries, cwd, p, results, work, done, current, items);
    ResultsStep(entries, cwd, p, results, done, current, items, after);
    DistinctJoin(cwd, results, items);
    if IsDirectoryAt(entries, d) {
      DoneStep(entries, cwd, p, results, done, current, items);
    } else {
      assert results + items == results;
    }
    WaitingStep(entries, cwd, p, results, work, done, current, items, after);
    FoundStep(entries, cwd, p, results, done, current, items, after);
    WorkStep(entries, cwd, p, results + items, work, Directories(entries, cwd, items), after);
    WorkDistinctStep(entries, cwd, results, work, items);
    ScheduledStep(entries, cwd, p, results, work, done, current, items, after);
  }

  /** A non-empty list is its front with its last path after it. */
  lemma FrontAndLast(xs: seq<string>)
    requires xs != []
    ensures xs[..|xs| - 1] + [xs[|xs| - 1]] == xs
  {
  }

  /** A round of the work-list loop as `recursive_listdir` runs it: the last
      path is taken off the work list and listed. The invariant is kept, and
      a directory not visited before is visited or the work list gets
      shorter. */
  lemma Round(entries: map<Location, Kind>, cwd: string, p: string, results: seq<string>, work: seq<string>, done: set<Location>, items: seq<string>)
    returns (after: set<Location>)
    requires WellFormed(entries) && IsWorkingDirectory(cwd) && work != []
    requires Frontier(entries, cwd, p, results, work, done)
    requires Listing(entries, cwd, work[|work| - 1], items)
    ensures Frontier(entries, cwd, p, results + items, work[..|work| - 1] + Directories(entries, cwd, items), after)
    ensures DirectorySet(entries) - after < DirectorySet(entries) - done
         || (after == done && |work[..|work| - 1] + Directories(entries, cwd, items)| < |work|)
  {
    var current, rest := work[|work| - 1], work[..|work| - 1];
    FrontAndLast(work);
    Explore(entries, cwd, p, results, rest, done, current, items);
    var d := Locate(current, cwd);
    if IsDirectoryAt(entries, d) {
      after := done + {d};
    } else {
      after := done;
      assert items == [];
    }
  }

  /** What the invariant says once the work list is empty: `p` and every
      directory among the results have been visited, and what a visited
      directory holds is among the results. */
  ghost predicate Exhausted(entries: map<Location, Kind>, cwd: string, p: string, results: seq<string>, done: set<Location>)
    requires IsWorkingDirectory(cwd)
  {
    (IsDirectoryAt(entries, Locate(p, cwd)) ==> Locate(p, cwd) in done) &&
    (forall x <- results :: IsDirectoryAt(entries, Locate(x, cwd)) ==> Locate(x, cwd) in done) &&
    (forall d <- done :: Children(entries, d) <= Places(results, cwd))
  }

  /** Once the work list is empty, every entry below the location `k0` of `p`
      at depth `|k0| + depth` has been listed. */
  lemma {:induction false} ReachedAt(entries: map<Location, Kind>, cwd: string, p: string, results: seq<string>, done: set<Location>, depth: nat, c: Location)
    requires WellFormed(entries) && IsWorkingDirectory(cwd)
    requires Exhausted(entries, cwd, p, results, done)
    requires c in Descendants(entries, Locate(p, cwd)) && |c| == |Locate(p, cwd)| + 1 + depth
    ensures c in Places(results, cwd)
  {
    var k0 := Locate(p, cwd);
    var e := Enclosing(c);
    EnclosingPresent(entries, c);
    assert c in Children(entries, e);
    if depth == 0 {
      assert e == k0;
    } else {
      assert e in Descendants(entries, k0) by {
        assert e[..|k0|] == c[..|k0|];
      }
      ReachedAt(entries, cwd, p, results, done, depth - 1, e);
      var y :| y in results && Locate(y, cwd) == e;
    }
  }

  /** Once the work list is empty, the results are exactly the entries below `p`. */
  lemma Explored(entries: map<Location, Kind>, cwd: string, p: string, results: seq<string>, done: set<Location>)
    requires WellFormed(entries) && IsWorkingDirectory(cwd)
    requires Frontier(entries, cwd, p, results, [], done)
    ensures Places(results, cwd) == Descendants(entries, Locate(p, cwd))
  {
    var k0 := Locate(p, cwd);
    assert Exhausted(entries, cwd, p, results, done) by {
      assert Places([], cwd) == {};
    }
    forall c | c in Descendants(entries, k0)
      ensures c in Places(results, cwd)
    {
      ReachedAt(entries, cwd, p, results, done, |c| - |k0| - 1, c);
    }
  }

  // ---------------------------------------------------------------- rmdirs

  /** `rmdir` succeeds on an empty directory other than the root that the
      system lets go. */
  predicate RmdirOk(entries: map<Location, Kind>, refused: set<Location>, k: Location) {
    IsDirectoryAt(entries, k) && k != [] && k !in refused && Children(entries, k) == {}
  }

  /** `unlink` succeeds on a file that the system lets go. */
  predicate UnlinkOk(entries: map<Location, Kind>, refused: set<Location>, k: Location) {
    k in entries && entries[k] == File && k !in refused
  }

  /** The entries at `k` and below it. */
  function Subtree(entries: map<Location, Kind>, k: Location): set<Location> {
    set c | c in entries && |c| >= |k| && c[..|k|] == k
  }

  /** `k` can be removed together with everything below it: it is present,
      it is not the root, and nothing at or below it is refused. */
  ghost predicate Clear(entries: map<Location, Kind>, refused: set<Location>, k: Location) {
    k in entries && k != [] && Subtree(entries, k) !! refused
  }

  /** The entries at or below `k` that can be removed with everything below them. */
  ghost function Cleared(entries: map<Location, Kind>, refused: set<Location>, k: Location): set<Location> {
    set c | c in Subtree(entries, k) && Clear(entries, refused, c)
  }

  /** The locations among `ks` that can be removed with everything below them. */
  ghost function Swept(entries: map<Location, Kind>, refused: set<Location>, ks: seq<Location>): set<Location> {
    set c | c in ks && Clear(entries, refused, c)
  }

  /** Every entry inside a location of `ks` comes before it in `ks`. */
  ghost predicate ChildrenFirst(entries: map<Location, Kind>, ks: seq<Location>) {
    forall i, j :: 0 <= i < |ks| && 0 <= j < |ks| && ks[j] in Children(entries, ks[i]) ==> j < i
  }

  /** `ks` has no repeats and holds the entries inside each of its locations. */
  ghost predicate Closed(entries: map<Location, Kind>, ks: seq<Location>) {
    (forall i, j :: 0 <= i < j < |ks| ==> ks[i] != ks[j]) &&
    (forall i :: 0 <= i < |ks| ==> Children(entries, ks[i]) <= set c | c in ks)
  }

  /** A location can be removed with everything below it exactly when it is
      present, not the root, not refused, and the same holds of every entry
      directly inside it. */
  lemma ClearStep(entries: map<Location, Kind>, refused: set<Location>, k: Location)
    requires WellFormed(entries)
    ensures Clear(entries, refused, k) <==>
      k in entries && k != [] && k !in refused && forall c <- Children(entries, k) :: Clear(entries, refused, c)
  {
    if k in entries && k != [] && k !in refused && forall c <- Children(entries, k) :: Clear(entries, refused, c) {
      forall d | d in Subtree(entries, k)
        ensures d !in refused
      {
        if |d| == |k| {
          assert d == d[..|k|];
        } else {
          var c := d[..|k| + 1];
          if |k| + 1 < |d| {
            Ancestors(entries, d, |k| + 1);
          } else {
            assert c == d;
          }
          assert c[..|k|] == k;
          assert c in Children(entries, k);
          assert d[..|c|] == c;
          assert d in Subtree(entries, c);
        }
      }
    }
    if Clear(entries, refused, k) {
      forall c <- Children(entries, k)
        ensures Clear(entries, refused, c)
      {
        forall d | d in Subtree(entries, c)
          ensures d in Subtree(entries, k)
        {
          assert d[..|k|] == d[..|c|][..|k|];
        }
      }
    }
  }

  /** Everything below a location that can be removed with everything below
      it can be too. */
  lemma ClearBelow(entries: map<Location, Kind>, refused: set<Location>, k: Location, d: Location)
    requires Clear(entries, refused, k) && d in Subtree(entries, k)
    ensures Clear(entries, refused, d)
  {
    forall e | e in Subtree(entries, d)
      ensures e in Subtree(entries, k)
    {
      assert e[..|k|] == e[..|d|][..|k|];
    }
  }

  /** When `k` can be removed with everything below it, so can every entry at or below it. */
  lemma ClearedAll(entries: map<Location, Kind>, refused: set<Location>, k: Location)
    requires Clear(entries, refused, k)
    ensures Cleared(entries, refused, k) == Subtree(entries, k)
  {
    forall d | d in Subtree(entries, k)
      ensures Clear(entries, refused, d)
    {
      ClearBelow(entries, refused, k, d);
    }
  }

  /** Removing, in an order with children first, exactly the locations that
      can be removed with everything below them: when `ks[i]` comes up, what
      `rmdir` or `unlink` finds decides the same. */
  lemma SweepStep(entries: map<Location, Kind>, refused: set<Location>, ks: seq<Location>, i: nat)
    requires WellFormed(entries) && Closed(entries, ks) && ChildrenFirst(entries, ks) && i < |ks|
    ensures var now := entries - Swept(entries, refused, ks[..i]);
      && (IsDirectoryAt(now, ks[i]) <==> IsDirectoryAt(entries, ks[i]))
      && (IsDirectoryAt(now, ks[i]) ==> (RmdirOk(now, refused, ks[i]) <==> Clear(entries, refused, ks[i])))
      && (!IsDirectoryAt(now, ks[i]) ==> (UnlinkOk(now, refused, ks[i]) <==> Clear(entries, refused, ks[i])))
  {
    var done := Swept(entries, refused, ks[..i]);
    var now := entries - done;
    var k := ks[i];
    assert k !in done by {
      forall j | 0 <= j < i
        ensures ks[..i][j] != k
      {
      }
    }
    ClearStep(entries, refused, k);
    forall c <- Children(entries, k)
      ensures c !in now <==> Clear(entries, refused, c)
    {
      assert c in set c | c in ks;
      var j :| 0 <= j < |ks| && ks[j] == c;
      assert j < i;
      assert ks[..i][j] == c;
    }
    if IsDirectoryAt(entries, k) {
      assert Children(now, k) == {} <==> forall c <- Children(entries, k) :: Clear(entries, refused, c) by {
        if Children(now, k) != {} {
          var c :| c in Children(now, k);
          assert c in Children(entries, k);
        }
        forall c <- Children(entries, k) | c in now
          ensures c in Children(now, k)
        {
        }
      }
    } else if k in entries {
      NoChildren(entries, k);
    }
  }

  /** Removing the locations one after another: the swept set grows by the
      location just handled when it can be removed with everything below it. */
  lemma SweptSnoc(entries: map<Location, Kind>, refused: set<Location>, ks: seq<Location>, i: nat)
    requires i < |ks|
    ensures Swept(entries, refused, ks[..i + 1])
      == Swept(entries, refused, ks[..i]) + (if Clear(entries, refused, ks[i]) then {ks[i]} else {})
  {
    assert ks[..i + 1] == ks[..i] + [ks[i]];
  }

  /** Once every location at and below `k` has been handled, the removed
      locations are those that can be removed with everything below them. */
  lemma SweptAll(entries: map<Location, Kind>, refused: set<Location>, ks: seq<Location>, k: Location)
    requires (set c | c in ks) == Descendants(entries, k) + {k}
    ensures Swept(entries, refused, ks) == Cleared(entries, refused, k)
  {
    forall c | Clear(entries, refused, c)
      ensures c in Subtree(entries, k) <==> c in Descendants(entries, k) + {k}
    {
      if |c| == |k| {
        assert c[..|k|] == c;
      }
    }
  }

  /** Taking away an entry with nothing inside it, other than the root, keeps
      the tree well formed. */
  lemma RemoveLeaf(entries: map<Location, Kind>, k: Location)
    requires WellFormed(entries) && k != [] && Children(entries, k) == {}
    ensures WellFormed(entries - {k})
  {
    var after := entries - {k};
    forall up, n | up + [n] in after
      ensures IsDirectoryAt(after, up)
    {
      assert IsDirectoryAt(entries, up);
    }
  }

  /** The key `rmdirs` sorts on: the length of the path made absolute. */
  function Size(x: string, cwd: string): nat
    requires IsWorkingDirectory(cwd)
  {
    if IsAbsolute(x) then |x| else |cwd| + |x|
  }

  /** `Size` is the length of the path made absolute. */
  lemma SizeAbsolutized(x: string, cwd: string)
    requires IsWorkingDirectory(cwd)
    ensures Size(x, cwd) == |Absolutized(x, cwd)|
  {
  }

  /** Sorted by descending `Size`, as the comparator of `rmdirs` asks. */
  predicate LongestFirst(xs: seq<string>, cwd: string)
    requires IsWorkingDirectory(cwd)
  {
    forall i, j :: 0 <= i < j < |xs| ==> Size(xs[i], cwd) >= Size(xs[j], cwd)
  }

  function InsertBySize(x: string, xs: seq<string>, cwd: string): seq<string>
    requires IsWorkingDirectory(cwd)
  {
    if xs == [] || Size(x, cwd) >= Size(xs[0], cwd) then [x] + xs
    else [xs[0]] + InsertBySize(x, xs[1..], cwd)
  }

  function SortBySize(xs: seq<string>, cwd: string): seq<string>
    requires IsWorkingDirectory(cwd)
  {
    if xs == [] then [] else InsertBySize(xs[0], SortBySize(xs[1..], cwd), cwd)
  }

  lemma LongestFirstCons(a: string, s: seq<string>, cwd: string)
    requires IsWorkingDirectory(cwd)
    requires LongestFirst(s, cwd) && forall y <- s :: Size(y, cwd) <= Size(a, cwd)
    ensures LongestFirst([a] + s, cwd)
  {
    forall i, j | 0 <= i < j < |[a] + s|
      ensures Size(([a] + s)[i], cwd) >= Size(([a] + s)[j], cwd)
    {
      assert ([a] + s)[j] == s[j - 1];
      assert s[j - 1] in s;
      if i > 0 {
        assert ([a] + s)[i] == s[i - 1];
      }
    }
  }

  /** Past the first path of a sorted list the rest is sorted, and no longer. */
  lemma LongestFirstTail(xs: seq<string>, cwd: string)
    requires IsWorkingDirectory(cwd) && LongestFirst(xs, cwd) && xs != []
    ensures LongestFirst(xs[1..], cwd)
    ensures forall y <- xs[1..] :: Size(y, cwd) <= Size(xs[0], cwd)
  {
    var rest := xs[1..];
    forall i, j | 0 <= i < j < |rest|
      ensures Size(rest[i], cwd) >= Size(rest[j], cwd)
    {
      assert rest[i] == xs[i + 1] && rest[j] == xs[j + 1];
    }
    forall y <- rest
      ensures Size(y, cwd) <= Size(xs[0], cwd)
    {
      var i :| 0 <= i < |rest| && rest[i] == y;
      assert xs[i + 1] == y;
    }
  }

  /** What holds of every path of a list holds of every path of a
      reordering of it with one more path. */
  lemma SizeBoundMoved(x: string, rest: seq<string>, inserted: seq<string>, bound: nat, cwd: string)
    requires IsWorkingDirectory(cwd)
    requires multiset(inserted) == multiset(rest) + multiset{x}
    requires Size(x, cwd) <= bound && forall y <- rest :: Size(y, cwd) <= bound
    ensures forall y <- inserted :: Size(y, cwd) <= bound
  {
    forall y <- inserted
      ensures Size(y, cwd) <= bound
    {
      assert y in multiset(inserted);
      if y != x {
        assert y in multiset(rest);
      }
    }
  }

  /** Inserting into a sorted list keeps it sorted and adds exactly the one path. */
  lemma {:induction false} InsertSorted(x: string, xs: seq<string>, cwd: string)
    requires IsWorkingDirectory(cwd) && LongestFirst(xs, cwd)
    ensures LongestFirst(InsertBySize(x, xs, cwd), cwd)
    ensures multiset(InsertBySize(x, xs, cwd)) == multiset(xs) + multiset{x}
    decreases |xs|
  {
    if xs == [] || Size(x, cwd) >= Size(xs[0], cwd) {
      LongestFirstCons(x, xs, cwd);
    } else {
      var first, rest := xs[0], xs[1..];
      assert xs == [first] + rest;
      LongestFirstTail(xs, cwd);
      InsertSorted(x, rest, cwd);
      var inserted := InsertBySize(x, rest, cwd);
      SizeBoundMoved(x, rest, inserted, Size(first, cwd), cwd);
      LongestFirstCons(first, inserted, cwd);
    }
  }

  /** Some order of any list of paths is sorted by descending `Size`. */
  lemma {:induction false} SortExists(xs: seq<string>, cwd: string)
    requires IsWorkingDirectory(cwd)
    ensures LongestFirst(SortBySize(xs, cwd), cwd) && multiset(SortBySize(xs, cwd)) == multiset(xs)
    decreases |xs|
  {
    if xs != [] {
      SortExists(xs[1..], cwd);
      InsertSorted(xs[0], SortBySize(xs[1..], cwd), cwd);
      assert xs == [xs[0]] + xs[1..];
    }
  }

  /** No path appears twice. */
  predicate NoRepeats(xs: seq<string>) {
    forall i, j :: 0 <= i < j < |xs| ==> xs[i] != xs[j]
  }

  /** A list without repeats holds each path once. */
  lemma {:induction false} NoRepeatsOnce(xs: seq<string>, v: string)
    requires NoRepeats(xs)
    ensures multiset(xs)[v] <= 1
    decreases |xs|
  {
    if xs != [] {
      var front, last := xs[..|xs| - 1], xs[|xs| - 1];
      assert xs == front + [last];
      assert NoRepeats(front) by {
        forall i, j | 0 <= i < j < |front|
          ensures front[i] != front[j]
        {
          assert front[i] == xs[i] && front[j] == xs[j];
        }
      }
      NoRepeatsOnce(front, v);
      if v == last {
        forall i | 0 <= i < |front|
          ensures front[i] != v
        {
          assert front[i] == xs[i];
        }
      }
    }
  }

  /** Reordering a list without repeats leaves none. */
  lemma NoRepeatsReordered(xs: seq<string>, ys: seq<string>)
    requires multiset(xs) == multiset(ys) && NoRepeats(ys)
    ensures NoRepeats(xs)
  {
    forall i, j | 0 <= i < j < |xs|
      ensures xs[i] != xs[j]
    {
      assert xs == xs[..j] + [xs[j]] + xs[j + 1..];
      assert xs[i] in xs[..j];
      assert multiset(xs)[xs[j]] == multiset(xs[..j])[xs[j]] + 1 + multiset(xs[j + 1..])[xs[j]];
      NoRepeatsOnce(ys, xs[j]);
    }
  }

  /** Paths at different locations are different paths. */
  lemma DistinctNoRepeats(cwd: string, xs: seq<string>)
    requires IsWorkingDirectory(cwd) && Distinct(cwd, xs)
    ensures NoRepeats(xs)
  {
  }

  /** A list without repeats, drawn from a list without repeated locations,
      has no repeated locations. */
  lemma DistinctDrawn(cwd: string, xs: seq<string>, ys: seq<string>)
    requires IsWorkingDirectory(cwd)
    requires NoRepeats(xs) && (forall x <- xs :: x in ys) && Distinct(cwd, ys)
    ensures Distinct(cwd, xs)
  {
    forall i, j | 0 <= i < j < |xs|
      ensures Locate(xs[i], cwd) != Locate(xs[j], cwd)
    {
      assert xs[i] in xs && xs[j] in xs;
      var a :| 0 <= a < |ys| && ys[a] == xs[i];
      var b :| 0 <= b < |ys| && ys[b] == xs[j];
      assert a != b;
      if a < b {
        assert Locate(ys[a], cwd) != Locate(ys[b], cwd);
      } else {
        assert Locate(ys[b], cwd) != Locate(ys[a], cwd);
      }
    }
  }

  /** The spelling of paths found below `top`, on plain values: one whose
      names extend another's is longer. */
  lemma SpelledLonger(top: string, k0: Location, kx: Location, ky: Location, x: string, y: string)
    requires IsAbsolute(top) && forall i :: 0 <= i < |ky| ==> IsName(ky[i])
    requires (kx == k0 && x == top) || (|kx| > |k0| && kx[..|k0|] == k0 && x == Appended(top, Join(kx[|k0|..])))
    requires |ky| > |kx| && ky[..|kx|] == kx && y == Appended(top, Join(ky[|k0|..]))
    ensures |y| > |x|
  {
    var ty := ky[|k0|..];
    JoinLength(ty);
    assert ty[0] == ky[|k0|];
    if !(kx == k0 && x == top) {
      var tx := kx[|k0|..];
      assert ty == tx + ky[|kx|..] by {
        assert ky[..|kx|][..|k0|] == k0;
      }
      JoinConcat(tx, ky[|kx|..]);
    }
  }

  /** What `recursive_listdir` found, followed by `p`, repeats no location. */
  lemma ContentsDistinct(cwd: string, p: string, results: seq<string>)
    requires IsWorkingDirectory(cwd) && Distinct(cwd, results)
    requires forall x <- results :: Below(cwd, p, x)
    ensures Distinct(cwd, results + [p])
  {
    forall x <- results
      ensures Locate(x, cwd) != Locate(p, cwd)
    {
    }
    DistinctJoin(cwd, results, [p]);
  }

  /** A reordering holds the same paths. */
  lemma SameMembers(xs: seq<string>, ys: seq<string>)
    requires multiset(xs) == multiset(ys)
    ensures forall x :: x in xs <==> x in ys
  {
    forall x
      ensures x in xs <==> x in ys
    {
      assert x in xs <==> x in multiset(xs);
    }
  }

  /** A reordering of a list without repeated locations has none either. */
  lemma DistinctReordered(cwd: string, xs: seq<string>, ys: seq<string>)
    requires IsWorkingDirectory(cwd) && multiset(xs) == multiset(ys) && Distinct(cwd, ys)
    ensures Distinct(cwd, xs)
  {
    DistinctNoRepeats(cwd, ys);
    NoRepeatsReordered(xs, ys);
    SameMembers(xs, ys);
    DistinctDrawn(cwd, xs, ys);
  }

  lemma PlacesOne(cwd: string, p: string)
    requires IsWorkingDirectory(cwd)
    ensures Places([p], cwd) == {Locate(p, cwd)}
  {
    assert forall x :: x in [p] <==> x == p;
  }

  lemma PlacesSame(cwd: string, xs: seq<string>, ys: seq<string>)
    requires IsWorkingDirectory(cwd) && forall x :: x in xs <==> x in ys
    ensures Places(xs, cwd) == Places(ys, cwd)
  {
  }

  /** `rmdirs` sorts what `recursive_listdir` found, followed by `p` itself:
      every path is `p` or below it, and no location comes twice. */
  lemma OrderShape(entries: map<Location, Kind>, cwd: string, p: string, results: seq<string>, order: seq<string>)
    requires IsWorkingDirectory(cwd)
    requires Places(results, cwd) == Descendants(entries, Locate(p, cwd)) && Distinct(cwd, results)
    requires forall x <- results :: Below(cwd, p, x)
    requires multiset(order) == multiset(results + [p])
    ensures p in order && forall x <- order :: x == p || Below(cwd, p, x)
    ensures Distinct(cwd, order)
    ensures Places(order, cwd) == Descendants(entries, Locate(p, cwd)) + {Locate(p, cwd)}
  {
    ContentsDistinct(cwd, p, results);
    DistinctReordered(cwd, order, results + [p]);
    SameMembers(order, results + [p]);
    PlacesSame(cwd, order, results + [p]);
    PlacesConcat(cwd, results, [p]);
    PlacesOne(cwd, p);
  }

  /** How `rmdirs` spells a location it handles: `p` made absolute (`top`,
      at `k0`), or `top` with the names past `k0` joined on. */
  ghost predicate SpelledFrom(top: string, k0: Location, k: Location, x: string) {
    (k == k0 && x == top) || (|k| > |k0| && k[..|k0|] == k0 && x == Appended(top, Join(k[|k0|..])))
  }

  /** Each location of `ks` is spelled by the text at the same place in `sp`. */
  ghost predicate SpelledAll(top: string, k0: Location, ks: seq<Location>, sp: seq<string>) {
    |sp| == |ks| &&
    forall i :: 0 <= i < |ks| ==> SpelledFrom(top, k0, ks[i], sp[i]) && forall m :: 0 <= m < |ks[i]| ==> IsName(ks[i][m])
  }

  /** `p` and what was found below it are spelled from `p` made absolute,
      and their lengths are the key `rmdirs` sorts on. */
  lemma ElementSpelled(cwd: string, p: string, x: string)
    requires IsWorkingDirectory(cwd) && (x == p || Below(cwd, p, x))
    ensures SpelledFrom(Absolutized(p, cwd), Locate(p, cwd), Locate(x, cwd), if x == p then Absolutized(p, cwd) else x)
    ensures Size(x, cwd) == |if x == p then Absolutized(p, cwd) else x|
  {
  }

  /** The sorted paths, their locations and their absolute spellings. */
  lemma OrderSpelled(cwd: string, p: string, order: seq<string>, ks: seq<Location>, sp: seq<string>)
    requires IsWorkingDirectory(cwd)
    requires forall x <- order :: x == p || Below(cwd, p, x)
    requires |ks| == |order| && forall i :: 0 <= i < |order| ==> ks[i] == Locate(order[i], cwd)
    requires |sp| == |order| && forall i :: 0 <= i < |order| ==> sp[i] == if order[i] == p then Absolutized(p, cwd) else order[i]
    ensures SpelledAll(Absolutized(p, cwd), Locate(p, cwd), ks, sp)
    ensures forall i :: 0 <= i < |order| ==> Size(order[i], cwd) == |sp[i]|
  {
    forall i | 0 <= i < |order|
      ensures SpelledFrom(Absolutized(p, cwd), Locate(p, cwd), ks[i], sp[i]) && Size(order[i], cwd) == |sp[i]|
    {
      assert order[i] in order;
      ElementSpelled(cwd, p, order[i]);
    }
  }

  /** Sorted by descending `Size`, the spellings are by descending length. */
  lemma SortedSpelled(cwd: string, order: seq<string>, sp: seq<string>)
    requires IsWorkingDirectory(cwd) && LongestFirst(order, cwd)
    requires |sp| == |order| && forall i :: 0 <= i < |order| ==> Size(order[i], cwd) == |sp[i]|
    ensures forall i, j :: 0 <= i < j < |sp| ==> |sp[i]| >= |sp[j]|
  {
  }

  /** Spelled by descending length, every entry comes before the directory
      holding it. */
  lemma ChildrenFirstSpelled(entries: map<Location, Kind>, top: string, k0: Location, ks: seq<Location>, sp: seq<string>)
    requires IsAbsolute(top) && SpelledAll(top, k0, ks, sp)
    requires forall i, j :: 0 <= i < j < |sp| ==> |sp[i]| >= |sp[j]|
    ensures ChildrenFirst(entries, ks)
  {
    forall i, j | 0 <= i < |ks| && 0 <= j < |ks| && ks[j] in Children(entries, ks[i])
      ensures j < i
    {
      SpelledLonger(top, k0, ks[i], ks[j], sp[i], sp[j]);
    }
  }

  /** Spelled by descending length, `p` comes last. */
  lemma LastSpelled(top: string, k0: Location, ks: seq<Location>, sp: seq<string>, m: nat)
    requires IsAbsolute(top) && SpelledAll(top, k0, ks, sp)
    requires forall i, j :: 0 <= i < j < |sp| ==> |sp[i]| >= |sp[j]|
    requires m < |ks| && ks[m] == k0
    ensures ks[|ks| - 1] == k0
  {
    var z := |ks| - 1;
    if ks[z] != k0 {
      SpelledLonger(top, k0, k0, ks[z], top, sp[z]);
    }
  }

  /** The locations of the sorted paths are their places, without repeats. */
  lemma OrderLocations(cwd: string, order: seq<string>, ks: seq<Location>)
    requires IsWorkingDirectory(cwd) && Distinct(cwd, order)
    requires |ks| == |order| && forall i :: 0 <= i < |order| ==> ks[i] == Locate(order[i], cwd)
    ensures (set c | c in ks) == Places(order, cwd)
    ensures forall i, j :: 0 <= i < j < |ks| ==> ks[i] != ks[j]
  {
    forall c
      ensures c in ks <==> c in Places(order, cwd)
    {
      if c in Places(order, cwd) {
        var x :| x in order && Locate(x, cwd) == c;
        var i :| 0 <= i < |order| && order[i] == x;
        assert ks[i] == c;
      }
    }
  }

  /** `k0` with everything below it holds the entries inside each of its
      locations. */
  lemma DescendantsClosed(entries: map<Location, Kind>, k0: Location, ks: seq<Location>)
    requires (set c | c in ks) == Descendants(entries, k0) + {k0}
    ensures forall i :: 0 <= i < |ks| ==> Children(entries, ks[i]) <= set c | c in ks
  {
    forall i | 0 <= i < |ks|
      ensures Children(entries, ks[i]) <= set c | c in ks
    {
      var k := ks[i];
      assert k in Descendants(entries, k0) + {k0};
      assert |k| >= |k0| && k[..|k0|] == k0;
      forall c | c in Children(entries, k)
        ensures c in Descendants(entries, k0)
      {
        assert c[..|k|] == k;
        assert c[..|k0|] == c[..|k|][..|k0|];
      }
    }
  }

  /** The order `rmdirs` works through: the locations of what
      `recursive_listdir` found and of `p`, sorted by descending length,
      are `p` and everything below it, once each, every entry before the
      directory holding it, and `p` last. */
  lemma RmdirsOrder(entries: map<Location, Kind>, cwd: string, p: string, found: seq<string>,
                    order: seq<string>, ks: seq<Location>, sp: seq<string>)
    requires IsWorkingDirectory(cwd)
    requires Places(found, cwd) == Descendants(entries, Locate(p, cwd)) && Distinct(cwd, found)
    requires forall x <- found :: Below(cwd, p, x)
    requires multiset(order) == multiset(found + [p]) && LongestFirst(order, cwd)
    requires |ks| == |order| && forall i {:trigger Locate(order[i], cwd)} :: 0 <= i < |order| ==> ks[i] == Locate(order[i], cwd)
    requires |sp| == |order| && forall i :: 0 <= i < |order| ==> sp[i] == if order[i] == p then Absolutized(p, cwd) else order[i]
    ensures (set c | c in ks) == Descendants(entries, Locate(p, cwd)) + {Locate(p, cwd)}
    ensures ChildrenFirst(entries, ks) && Closed(entries, ks)
    ensures |ks| > 0 && ks[|ks| - 1] == Locate(p, cwd)
  {
    var top, k0 := Absolutized(p, cwd), Locate(p, cwd);
    OrderShape(entries, cwd, p, found, order);
    OrderLocations(cwd, order, ks);
    DescendantsClosed(entries, k0, ks);
    OrderSpelled(cwd, p, order, ks, sp);
    SortedSpelled(cwd, order, sp);
    ChildrenFirstSpelled(entries, top, k0, ks, sp);
    var m :| 0 <= m < |order| && order[m] == p;
    LastSpelled(top, k0, ks, sp, m);
  }

  /** Removing a set of locations keeps the rest as they were. */
  lemma RemovedOnly(m: map<Location, Kind>, s: set<Location>)
    ensures (m - s).Keys <= m.Keys && forall c <- (m - s).Keys :: (m - s)[c] == m[c]
    ensures m.Keys - (m - s).Keys <= s
  {
  }

  /** When `rmdirs` stops at a location that cannot be removed with
      everything below it, neither can `k`, and what was removed so far
      could be. */
  lemma StoppedEarly(entries: map<Location, Kind>, refused: set<Location>, k: Location, ks: seq<Location>, i: nat)
    requires (set c | c in ks) == Descendants(entries, k) + {k}
    requires i < |ks| && !Clear(entries, refused, ks[i])
    ensures !Clear(entries, refused, k)
    ensures Swept(entries, refused, ks[..i + 1]) <= Cleared(entries, refused, k)
  {
    SweptWithin(entries, refused, k, ks, i + 1);
    if Clear(entries, refused, k) {
      ClearEach(entries, refused, k, ks, i);
    }
  }

  /** Once `rmdirs` has handled every location, it removed what could be
      removed with everything below it; all of the subtree when `k` could. */
  lemma SweptThrough(entries: map<Location, Kind>, refused: set<Location>, k: Location, ks: seq<Location>)
    requires (set c | c in ks) == Descendants(entries, k) + {k}
    ensures Swept(entries, refused, ks[..|ks|]) == Cleared(entries, refused, k)
    ensures Clear(entries, refused, k) ==> Cleared(entries, refused, k) == Subtree(entries, k)
  {
    assert ks[..|ks|] == ks;
    SweptAll(entries, refused, ks, k);
    if Clear(entries, refused, k) {
      ClearedAll(entries, refused, k);
    }
  }

  /** Handling `ks[i]` removes it exactly when it can be removed with
      everything below it. */
  lemma SweptNext(entries: map<Location, Kind>, refused: set<Location>, ks: seq<Location>, i: nat)
    requires i < |ks|
    ensures Clear(entries, refused, ks[i]) ==>
      entries - Swept(entries, refused, ks[..i + 1]) == (entries - Swept(entries, refused, ks[..i])) - {ks[i]}
    ensures !Clear(entries, refused, ks[i]) ==>
      entries - Swept(entries, refused, ks[..i + 1]) == entries - Swept(entries, refused, ks[..i])
  {
    SweptSnoc(entries, refused, ks, i);
    var s := Swept(entries, refused, ks[..i]);
    assert entries - (s + {ks[i]}) == (entries - s) - {ks[i]};
  }

  /** When `k` can be removed with everything below it, so can each location
      `rmdirs` handles. */
  lemma ClearEach(entries: map<Location, Kind>, refused: set<Location>, k: Location, ks: seq<Location>, i: nat)
    requires (set c | c in ks) == Descendants(entries, k) + {k}
    requires Clear(entries, refused, k) && i < |ks|
    ensures Clear(entries, refused, ks[i])
  {
    assert ks[i] in Descendants(entries, k) + {k};
    if ks[i] != k {
      ClearBelow(entries, refused, k, ks[i]);
    }
  }

  /** What `rmdirs` has removed at any point can be removed with everything
      below it. */
  lemma SweptWithin(entries: map<Location, Kind>, refused: set<Location>, k: Location, ks: seq<Location>, i: nat)
    requires (set c | c in ks) == Descendants(entries, k) + {k} && i <= |ks|
    ensures Swept(entries, refused, ks[..i]) <= Cleared(entries, refused, k)
  {
    forall c | c in Swept(entries, refused, ks[..i])
      ensures c in Subtree(entries, k)
    {
      assert c in ks[..i] && Clear(entries, refused, c);
      assert c in (set d | d in ks);
      assert c in entries;
      if c == k {
        assert c[..|k|] == c;
      } else {
        assert c in Descendants(entries, k);
      }
    }
  }

  /** The filesystem of a process: its entries, the locations the system
      refuses to create or remove (a busy mount point, a directory without
      write permission), and the working directory relative paths are
      resolved against. */
  class FileSystem {
    var entries: map<Location, Kind>
    const refused: set<Location>
    const cwd: string

    ghost predicate Valid()
      reads this
    {
      WellFormed(entries) && IsWorkingDirectory(cwd)
    }

    constructor (entries: map<Location, Kind>, refused: set<Location>, cwd: string)
      requires WellFormed(entries) && IsWorkingDirectory(cwd)
      ensures Valid()
      ensures this.entries == entries && this.refused == refused && this.cwd == cwd
    {
      this.entries := entries;
      this.refused := refused;
      this.cwd := cwd;
    }

    /** `exists`: `stat` finds an entry. */
    predicate Exists(p: string)
      reads this
      requires IsWorkingDirectory(cwd)
    {
      Locate(p, cwd) in entries
    }

    /** `is_file`: `stat` finds a regular file. */
    predicate IsFile(p: string): (r: bool)
      reads this
      requires IsWorkingDirectory(cwd)
      ensures r ==> Exists(p)
    {
      Locate(p, cwd) in entries && entries[Locate(p, cwd)] == File
    }

    /** `is_directory`: `stat` finds a directory. */
    predicate IsDirectory(p: string): (r: bool)
      reads this
      requires IsWorkingDirectory(cwd)
      ensures r ==> Exists(p) && !IsFile(p)
    {
      IsDirectoryAt(entries, Locate(p, cwd))
    }

    /** `makedir`, which is `mkdir(2)`; the mode is not modelled. */
    method Mkdir(p: string) returns (e: MkdirResult)
      requires Valid()
      modifies this
      ensures Valid()
      ensures e == MkdirOutcome(old(entries), refused, Locate(p, cwd))
      ensures entries == if e == Made then old(entries)[Locate(p, cwd) := Directory] else old(entries)
    {
      var k := Locate(p, cwd);
      e := MkdirOutcome(entries, refused, k);
      if e == Made {
        MkdirWellFormed(entries, refused, k);
        entries := entries[k := Directory];
      }
    }

    /** `makedirs`: `mkdir` on the path made absolute; when that exists
        already, success means it is a directory; when the enclosing
        directory is missing, `makedirs` on the parent (whose result is not
        looked at) and one more `mkdir`; any other error fails. */
    method Makedirs(p: string) returns (r: bool)
      requires Valid()
      modifies this
      decreases |Locate(p, cwd)|
      ensures Valid()
      ensures r == Creatable(old(entries), refused, Locate(p, cwd))
      ensures entries == WithDirectories(old(entries), Created(old(entries), refused, Locate(p, cwd)))
    {
      ghost var before := entries;
      ghost var k := Locate(p, cwd);
      var abs := Absolutized(p, cwd);
      LocateAbsolute(p, cwd);
      var e := Mkdir(abs);
      if e == Made {
        MadeAtOnce(before, refused, k);
        return true;
      }
      if e == AlreadyExists {
        MadeNothingExisting(before, refused, k);
        r := IsDirectory(abs);
      } else if e == NoEntry {
        MadeAfterEnclosing(before, refused, k);
        var up := Navigation.Parent(abs);
        assert Locate(up, cwd) == Enclosing(k) by {
          ParentShape(abs);
          ParentPruned(abs);
        }
        var _ := Makedirs(up);
        e := Mkdir(abs);
        r := e == Made;
      } else {
        MadeNothingRefused(before, refused, k);
        r := false;
      }
    }

    /** `rmdir(2)`; the system's error code is not modelled. */
    method Rmdir(p: string) returns (ok: bool)
      requires Valid()
      modifies this
      ensures Valid()
      ensures ok == RmdirOk(old(entries), refused, Locate(p, cwd))
      ensures entries == if ok then old(entries) - {Locate(p, cwd)} else old(entries)
    {
      var k := Locate(p, cwd);
      ok := RmdirOk(entries, refused, k);
      if ok {
        RemoveLeaf(entries, k);
        entries := entries - {k};
      }
    }

    /** `unlink(2)`; the system's error code is not modelled. */
    method Unlink(p: string) returns (ok: bool)
      requires Valid()
      modifies this
      ensures Valid()
      ensures ok == UnlinkOk(old(entries), refused, Locate(p, cwd))
      ensures entries == if ok then old(entries) - {Locate(p, cwd)} else old(entries)
    {
      var k := Locate(p, cwd);
      ok := UnlinkOk(entries, refused, k);
      if ok {
        NoChildren(entries, k);
        RemoveLeaf(entries, k);
        entries := entries - {k};
      }
    }

    /** `readdir` over the directory at `k`: "." and "..", then the name of
        every entry inside it once, in an order the system chooses. */
    method ReadDirectory(k: Location) returns (names: seq<string>)
      requires Valid() && IsDirectoryAt(entries, k)
      ensures |names| >= 2 && names[0] == CURRENT && names[1] == PARENT
      ensures forall i :: 2 <= i < |names| ==> IsName(names[i]) && k + [names[i]] in Children(entries, k)
      ensures forall i, j :: 2 <= i < j < |names| ==> names[i] != names[j]
      ensures forall c :: c in Children(entries, k) ==> exists i :: 2 <= i < |names| && c == k + [names[i]]
    {
      var picked := PickChildren(k);
      names := [CURRENT, PARENT] + seq(|picked|, i requires 0 <= i < |picked| => if |k| < |picked[i]| then picked[i][|k|] else []);
      PickedNames(entries, k, picked, names);
    }

    /** The entries inside `k`, each once, in an order the system chooses. */
    method PickChildren(k: Location) returns (picked: seq<Location>)
      ensures forall i :: 0 <= i < |picked| ==> picked[i] in Children(entries, k)
      ensures forall i, j :: 0 <= i < j < |picked| ==> picked[i] != picked[j]
      ensures forall c :: c in Children(entries, k) ==> c in picked
    {
      picked := [];
      var pending := Children(entries, k);
      while pending != {}
        invariant pending <= Children(entries, k)
        invariant forall c :: c in Children(entries, k) ==> c in pending || c in picked
        invariant forall i :: 0 <= i < |picked| ==> picked[i] in Children(entries, k) && picked[i] !in pending
        invariant forall i, j :: 0 <= i < j < |picked| ==> picked[i] != picked[j]
        decreases pending
      {
        var c :| c in pending;
        picked := picked + [c];
        pending := pending - {c};
      }
    }

    /** `listdir`: the directory at `p` made absolute is read, "." and ".."
        are skipped, and every other name is resolved against it; when it
        cannot be opened the list is empty. */
    method Listdir(p: string) returns (items: seq<string>)
      requires Valid()
      ensures Listing(entries, cwd, p, items)
    {
      var base := Absolutized(p, cwd);
      LocateAbsolute(p, cwd);
      items := [];
      if !IsDirectory(base) {
        NoChildren(entries, Locate(p, cwd));
        return;
      }
      var names := ReadDirectory(Locate(p, cwd));
      for i := 0 to |names|
        invariant names[0] == CURRENT && names[1] == PARENT
        invariant |items| == if i <= 2 then 0 else i - 2
        invariant forall j :: 0 <= j < |items| ==> items[j] == Resolved(base, names[j + 2])
      {
        var name := names[i];
        if name == PARENT {
          continue;
        }
        if name == CURRENT {
          continue;
        }
        items := items + [Resolved(base, name)];
      }
      ListingOfNames(entries, cwd, p, names, items);
    }

    /** `recursive_listdir`: every entry below `p`, each once, spelled as `p`
        made absolute with the names below it joined on. */
    method RecursiveListdir(p: string) returns (results: seq<string>)
      requires Valid()
      ensures Places(results, cwd) == Descendants(entries, Locate(p, cwd))
      ensures Distinct(cwd, results)
      ensures forall x <- results :: Below(cwd, p, x)
    {
      results := [];
      var work := [p];
      ghost var done: set<Location> := {};
      while work != []
        invariant Frontier(entries, cwd, p, results, work, done)
        decreases DirectorySet(entries) - done, |work|
      {
        results, work, done := Visit(p, results, work, done);
      }
      Explored(entries, cwd, p, results, done);
    }

    /** One round of the work-list loop of `recursive_listdir`: the last path
        on the work list is taken off and listed, its items are added to the
        results and the directories among them to the work list. A directory
        not visited before is visited, or the work list gets shorter. */
    method Visit(p: string, results0: seq<string>, work0: seq<string>, ghost done0: set<Location>)
      returns (results: seq<string>, work: seq<string>, ghost done: set<Location>)
      requires Valid() && work0 != []
      requires Frontier(entries, cwd, p, results0, work0, done0)
      ensures Frontier(entries, cwd, p, results, work, done)
      ensures DirectorySet(entries) - done < DirectorySet(entries) - done0 || (done == done0 && |work| < |work0|)
    {
      var current := work0[|work0| - 1];
      var items := Listdir(current);
      results := results0 + items;
      work := PushDirectories(work0[..|work0| - 1], items);
      done := Round(entries, cwd, p, results0, work0, done0, items);
    }

    /** The inner loop of `recursive_listdir`: the directories among the
        items of one listing are put on the work list, in order. */
    method PushDirectories(work0: seq<string>, items: seq<string>) returns (work: seq<string>)
      requires IsWorkingDirectory(cwd)
      ensures work == work0 + Directories(entries, cwd, items)
    {
      work := work0;
      for i := 0 to |items|
        invariant work == work0 + Directories(entries, cwd, items[..i])
      {
        DirectoriesTake(entries, cwd, items, i);
        if IsDirectory(items[i]) {
          work := work + [items[i]];
        }
      }
      assert items[..|items|] == items;
    }

    /** `rmdirs`: everything `recursive_listdir` finds below `p`, and `p`,
        sorted by descending length made absolute, then removed in that
        order. */
    method Rmdirs(p: string, ignoreErrors: bool) returns (r: bool)
      requires Valid()
      modifies this
      ensures Valid()
      ensures r <==> Clear(old(entries), refused, Locate(p, cwd))
      ensures r ==> entries == old(entries) - Subtree(old(entries), Locate(p, cwd))
      ensures ignoreErrors ==> entries == old(entries) - Cleared(old(entries), refused, Locate(p, cwd))
      ensures entries.Keys <= old(entries).Keys && forall c <- entries.Keys :: entries[c] == old(entries)[c]
      ensures old(entries).Keys - entries.Keys <= Cleared(old(entries), refused, Locate(p, cwd))
    {
      var found := RecursiveListdir(p);
      var contents := found + [p];
      SortExists(contents, cwd);
      var order :| multiset(order) == multiset(contents) && LongestFirst(order, cwd);
      ghost var ks := seq(|order|, i requires 0 <= i < |order| && IsWorkingDirectory(cwd) => Locate(order[i], cwd));
      ghost var sp := seq(|order|, i requires 0 <= i < |order| && IsWorkingDirectory(cwd) =>
        if order[i] == p then Absolutized(p, cwd) else order[i]);
      RmdirsOrder(entries, cwd, p, found, order, ks, sp);
      r := RemoveInOrder(order, ignoreErrors, ks, Locate(p, cwd));
    }

    /** The removal loop of `rmdirs`: each path in turn, stopping at the
        first failure unless errors are ignored. The result is that of the
        last removal tried, which succeeds exactly when `k0`, handled last,
        could be removed with everything below it. */
    method RemoveInOrder(order: seq<string>, ignoreErrors: bool, ghost ks: seq<Location>, ghost k0: Location) returns (r: bool)
      requires Valid()
      requires |ks| == |order| && forall i {:trigger Locate(order[i], cwd)} :: 0 <= i < |order| ==> ks[i] == Locate(order[i], cwd)
      requires (set c | c in ks) == Descendants(entries, k0) + {k0}
      requires ChildrenFirst(entries, ks) && Closed(entries, ks)
      requires |ks| > 0 && ks[|ks| - 1] == k0
      modifies this
      ensures Valid()
      ensures r <==> Clear(old(entries), refused, k0)
      ensures r ==> entries == old(entries) - Subtree(old(entries), k0)
      ensures ignoreErrors ==> entries == old(entries) - Cleared(old(entries), refused, k0)
      ensures entries.Keys <= old(entries).Keys && forall c <- entries.Keys :: entries[c] == old(entries)[c]
      ensures old(entries).Keys - entries.Keys <= Cleared(old(entries), refused, k0)
    {
      ghost var before := entries;
      r := true;
      for i := 0 to |order|
        invariant Valid()
        invariant entries == before - Swept(before, refused, ks[..i])
        invariant i > 0 ==> (r <==> Clear(before, refused, ks[i - 1]))
      {
        r := RemoveOne(order, i, before, ks);
        if !r && !ignoreErrors {
          StoppedEarly(before, refused, k0, ks, i);
          RemovedOnly(before, Swept(before, refused, ks[..i + 1]));
          return;
        }
      }
      SweptThrough(before, refused, k0, ks);
      RemovedOnly(before, Swept(before, refused, ks));
    }

    /** One turn of the removal loop: `rmdir` on a directory, `unlink` on
        anything else; it succeeds exactly when the location can be removed
        with everything below it. */
    method RemoveOne(order: seq<string>, i: nat, ghost before: map<Location, Kind>, ghost ks: seq<Location>) returns (r: bool)
      requires Valid() && WellFormed(before) && Closed(before, ks) && ChildrenFirst(before, ks)
      requires |ks| == |order| && forall i {:trigger Locate(order[i], cwd)} :: 0 <= i < |order| ==> ks[i] == Locate(order[i], cwd)
      requires i < |ks|
      requires entries == before - Swept(before, refused, ks[..i])
      modifies this
      ensures Valid()
      ensures r <==> Clear(before, refused, ks[i])
      ensures entries == before - Swept(before, refused, ks[..i + 1])
    {
      SweepStep(before, refused, ks, i);
      SweptNext(before, refused, ks, i);
      var x := order[i];
      if IsDirectory(x) {
        r := Rmdir(x);
      } else {
        r := Unlink(x);
      }
    }
  }
}