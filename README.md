# apathy `Path` algebra, modelled in Dafny

This project models the path algebra of apathy, a header-only C++ path library.
It follows the library's POSIX build, where the separator is `'/'`.

A `Path` holds a single string field. Its manipulators (`append`, `relative`,
`trim`, `directory`, `sanitize`, `up`, `absolute`) rewrite that string in place.
Its queries (`split`, `is_absolute`, `trailing_slash`, `filename`, `extension`,
`stem`, `==`, `equivalent`) only read it.

The model has three layers:

- **Pure specification functions.** Each works on the path text:
  - `Split` (`getline` tokens, plus a final empty segment for a trailing separator);
  - `Join`;
  - `Sanitized` (the `sanitize` loop as a fold `PruneOnto` of one loop step `Step` over the segments, then `Render`);
  - `Trimmed`, `AsDirectory` and `Appended`;
  - `Resolved` (`relative`), `Parent` (`up`), `Absolutized` and `Equivalent`;
  - `Filename`, `Extension` and `Stem`.
- **A `class Path`.** It has the one `path` field, and its methods update it in
  place. Each method is proved to leave exactly the text its function specifies:
  - `Sanitize` runs the stack loop, with the invariant that the stack is the fold over the segments read so far;
  - the static `JoinSegments` runs the accumulating loop of `join(segments)`.
- **An in-memory filesystem for the tree operations.** `FileTree.FileSystem` is a
  class whose `entries` field maps each location to a file or a directory. A
  location is the list of names from the root down.
  - `Locate` resolves a path by its text: an absolute path's own stack, or a
    relative path's segments pruned onto the working directory's stack. So
    `""`, `"."`, `".."` and a final separator are resolved by their text, not
    one component at a time against the entries as the system resolves them;
    "## Left out" lists the calls where the two differ.
  - The system calls are methods or predicates: `stat` (`Exists`, `IsFile`,
    `IsDirectory`), `mkdir(2)` (`Mkdir`), `rmdir(2)` (`Rmdir`), `unlink(2)`
    (`Unlink`) and `readdir` (`ReadDirectory`).
  - The locations the system refuses to create or remove are a constant set `refused`.
  - `Makedirs`, `Listdir`, `RecursiveListdir` and `Rmdirs` follow the library's
    code step by step, loops included, and are proved against specification
    functions of the old state.

The properties proved about the functions are:

- **Round trips.** `join(split(p)) == p` for every text. `split(join(segs)) == segs` for separator-free segments.
- **What `sanitize` keeps.** It keeps the absolute/relative class and the directory marker. The exception is a relative path that comes to `""`.
- **Normal form.** `sanitize`'s output is in normal form: no empty or `"."` segment, and `".."` only as a leading run of a relative path. So `sanitize` is idempotent, and a text is a fixed point exactly when it is canonical.
- **`trim` and `directory`.** `trim` removes every final separator. `directory` ends in exactly one separator and is idempotent.
- **`parent`.** It is one more `".."` step on the sanitized stack.
- **`equivalent`.** It is implied by equal non-empty sanitized forms. It tells `"a"` and `"a/"` apart.
- **`stem` and `extension`.** A path with a separator is its stem, a `'.'` and its extension.
- **`makedirs`.** It succeeds exactly when a directory can be at the path once the
  missing directories above it are made from the top down. It adds exactly those
  missing directories, and nothing else changes.
- **`listdir`.** It returns one path per entry inside the directory, each once, and
  nothing for anything else.
- **`recursive_listdir`.** Its results are every entry below the path, each once.
  Each is spelled as the path made absolute with the names below it joined on.
- **`rmdirs`.** The length sort puts every entry before the directory holding it,
  and the path itself last. So `rmdirs` succeeds exactly when the path is not the
  root and nothing at or below it is refused; it then removes that whole subtree.
  With `ignore_errors` it removes exactly the entries below the path that could go
  with everything under them. In every case it removes nothing else and changes no
  kind.

The expectations of the library's own POSIX path tests (test.cpp:129-193 and 273-311) are stated as lemmas in `Oracles` and proved; the parent of `""` is in `Navigation.ParentOfEmpty`. The `makedirs` and `listdirs` tests (test.cpp:197-234) run against a real filesystem and are not stated.

The model follows the code where the code and its comments disagree:

- `trim` turns a path made only of separators, `"/"` included, into `""`. The header comment says `"///"` trims to `"/"`.
- `sanitize` never turns a relative path into an absolute one, whatever the comment on it suggests.
- The default `Path()` holds `""`. The comment says it points to the current directory, but the value is just the empty text.

Modules: `Text` (the `std::string` searches), `PathString` (segments, `split`,
`join`, `trim`, `directory`, `append`), `Sanitizer`, `Navigation` (`relative`,
`up`/`parent`, `absolute`, `equivalent`, `cwd`), `FileNames`, `Apathy` (the
class), `FileTree` (the filesystem and the tree operations) and `Oracles` (the
test expectations).

## Model

| member | source | states |
|---|---|---|
| Text.IndexOf | path.hpp:102-103 | the first position of the character, or the length when it is absent: no earlier occurrence, and the character sits there when it is in range |
| Text.RFind | path.hpp:404 | `rfind`: none exactly when the character is absent; otherwise a position holding it with no occurrence after it |
| Text.AfterLast | path.hpp:403-409 | the text after the last occurrence: free of the character, a suffix of the input, preceded by the character when it occurs, and empty when it does not |
| Text.LastNotOf | path.hpp:565 | `find_last_not_of`: none exactly when every character is the separator; otherwise a non-separator position followed only by separators |
| PathString.IsAbsolute | path.hpp:594-600 | `is_absolute`: the text starts with the separator; `Navigation.ResolvedShape` and `Sanitizer.SanitizedShape` show what keeps it |
| PathString.TrailingSlash | path.hpp:602-609 | `trailing_slash`: the text ends in the separator; `PathString.SplitShape` shows it is the final empty segment of `split` |
| PathString.Split | path.hpp:579-589 | `split` yields separator-free segments; `PathString.JoinSplit` shows `join` undoes it |
| PathString.Join | path.hpp:655-667 | `join` puts one separator between consecutive segments; `PathString.SplitJoin` shows `split` undoes it on separator-free segments |
| PathString.Tokens | path.hpp:579-583 | the `getline` tokens: separator-free, and none exactly for the empty text |
| PathString.TokensCount | path.hpp:579-583 | the number of tokens is the number of separators, plus one unless the text ends in a separator |
| PathString.SplitShape | path.hpp:579-589 | `split` gives no segment for `""` and otherwise one more than the number of separators; the first segment is empty exactly when the path is absolute, the last exactly when it ends in a separator |
| PathString.JoinSegments | path.hpp:655-667 | the accumulating loop of `join(segments)` produces `Join(segments)` |
| PathString.JoinConcat | path.hpp:655-667 | joining two non-empty runs puts exactly one separator between their joins |
| PathString.JoinSplit | path.hpp:579-589 | `join(split(p)) == p` for every text |
| PathString.SplitJoin | path.hpp:655-667 | `split(join(segments)) == segments` for separator-free segments other than the single empty segment |
| PathString.SplitDirectory | path.hpp:585-587 | a separator-free name with a final separator splits into the name and an empty segment |
| PathString.Trimmed | path.hpp:562-572 | `trim` keeps a prefix that does not end in a separator and drops only separators |
| PathString.AsDirectory | path.hpp:556-560 | `directory` ends in exactly one separator, keeps a prefix of the text, and drops only separators |
| PathString.AsDirectoryIdempotent | path.hpp:556-560 | `directory` is idempotent, and trimming a directory gives the trimmed text |
| PathString.Appended | path.hpp:438-447 | `append` adds the segment after exactly one separator, writing none when the text already ends in one |
| PathString.SplitAppended | path.hpp:438-447 | the segments of an appended path are the receiver's tokens (or the root's empty segment for `""`) followed by the argument's segments |
| Sanitizer.Step | path.hpp:493-534 | one iteration of the `sanitize` loop leaves the stack as it is, pushes the segment (never `""` or `"."`), or pops the top |
| Sanitizer.PruneOnto | path.hpp:492-534 | the loop over the segments grows the stack by at most one entry per segment |
| Sanitizer.Pruned | path.hpp:485-534 | the stack `sanitize` builds has no more entries than `split` has segments |
| Sanitizer.StepNormal | path.hpp:493-534 | one iteration of the `sanitize` loop keeps the stack in normal form |
| Sanitizer.PruneNormal | path.hpp:493-534 | the whole loop keeps the stack in normal form |
| Sanitizer.PrunedNormal | path.hpp:487-534 | the stack `sanitize` builds for any text is in normal form: no empty or `"."` entry, `".."` only as a leading run, and only in a relative path |
| Sanitizer.PruneOntoConcat | path.hpp:493-534 | running the loop over two runs is running it over the first and continuing from that stack |
| Sanitizer.PruneOfNormal | path.hpp:493-534 | a stack in normal form is rebuilt unchanged by the loop |
| Sanitizer.PruneOntoStepAll | path.hpp:493-534 | the loop read back to front and front to back builds the same stack |
| Sanitizer.PruneAbsoluteOfRelative | path.hpp:513-531 | running the absolute loop over segments equals running it over their relative stack (kept `".."` entries then pop the base) |
| Sanitizer.Render | path.hpp:536-553 | the write-back of `sanitize`: root separator, joined stack, directory marker; `Sanitizer.RenderJoin` and `Sanitizer.RenderSplit` state what it writes |
| Sanitizer.Sanitized | path.hpp:485-554 | `sanitize` as loop then write-back; `Sanitizer.SanitizedIdempotent` and `Sanitizer.SanitizedFixedPoint` state its normal form |
| Sanitizer.RenderJoin | path.hpp:536-553 | the text `sanitize` writes back is the join of the stack between the root's and the directory marker's empty segments |
| Sanitizer.RenderSplit | path.hpp:536-553 | splitting the written-back text gives back that framed stack; it is absolute exactly when the input was |
| Sanitizer.SanitizeRender | path.hpp:485-554 | sanitizing a rendered normal stack rebuilds the same stack and the same text |
| Sanitizer.SanitizedJoin | path.hpp:485-554 | `sanitize` of any text is the join of its framed stack |
| Sanitizer.SanitizedIdempotent | path.hpp:485-554 | `sanitize` is idempotent |
| Sanitizer.SanitizedShape | path.hpp:536-553 | the result is absolute exactly when the input is; it ends in a separator exactly when the input did and it is not `""`, or it is the root; it is `"/"` exactly for an absolute path with an empty stack and `""` exactly for a relative one |
| Sanitizer.SanitizedFixedPoint | path.hpp:485-554 | a text is its own sanitized form exactly when it is canonical, and every sanitized text is canonical |
| Sanitizer.CanonicalSanitized | path.hpp:485-554 | a canonical text is left unchanged by `sanitize` |
| Sanitizer.SplitFramed | path.hpp:579-589 | every text splits into its interior framed by the root's and the directory marker's empty segments |
| Navigation.Resolved | path.hpp:449-456 | `relative`: an absolute argument replaces the path, a relative one is appended; `Navigation.ResolvedShape` and `Navigation.ResolvedPruned` state the result |
| Navigation.ResolvedShape | path.hpp:449-456 | `relative` gives an absolute path exactly when the argument or the receiver is absolute or the receiver is `""`, and it always ends with the argument's text |
| Navigation.ResolvedPruned | path.hpp:449-456 | resolving a relative path against an absolute one prunes the relative path's stack onto the absolute one's and keeps the relative path's directory marker |
| Navigation.ResolvedName | path.hpp:438-456 | a plain name resolved against an absolute path is pushed on its stack |
| Navigation.ResolvedDirectoryName | path.hpp:438-456 | a plain name appended and made a directory is the name appended with a separator, pushed on the stack, and an absolute directory |
| Navigation.Parent | path.hpp:458-472 | `up`: `"../"` for `""`, otherwise `".."` appended, sanitized, and marked as a directory unless it came to `""`; `Navigation.ParentPruned` and `Navigation.ParentShape` state the result |
| Navigation.ParentRender | path.hpp:458-472 | `up` is the stack after one more `".."` step, rendered as a directory, and `"../"` for `""` |
| Navigation.ParentJoin | path.hpp:458-472 | the parent is the join of that framed stack |
| Navigation.ParentPruned | path.hpp:458-472 | the parent's stack is the path's stack after one more `".."` step |
| Navigation.ParentShape | path.hpp:458-472 | the parent keeps the absolute/relative class, is canonical, is `""` or ends in a separator, and is the parent of the sanitized path |
| Navigation.WorkingDirectory | path.hpp:669-683 | `cwd()` ends in a separator, is `"/"` when `getcwd` failed, and is absolute when `getcwd` reported an absolute path |
| Navigation.Absolutized | path.hpp:474-483 | `absolute` leaves an absolute path alone and otherwise puts the working directory in front; the result is absolute |
| Navigation.AbsolutizedSanitized | path.hpp:474-483 | a relative path made absolute and sanitized is its stack pruned onto the working directory's stack, keeping its own directory marker |
| Navigation.Equivalent | path.hpp:388-401 | `equivalent`: both paths made absolute and sanitized give the same text; `Navigation.EquivalentToSanitized` and `Navigation.EquivalentBySanitized` state its consequences |
| Navigation.EquivalentToSanitized | path.hpp:388-401 | a path is equivalent to its sanitized form unless it is a relative file path that comes to `""` |
| Navigation.EquivalentBySanitized | path.hpp:388-401 | paths with the same non-empty sanitized form are equivalent under every working directory |
| Navigation.EquivalentSeesMarker | path.hpp:388-401 | `"a"` and `"a/"` are never equivalent |
| Navigation.ParentOfEmpty | test.cpp:172-173 | the parent of `""` is `"../"`, differs as text from the parent of the working directory, and is equivalent to it |
| FileNames.Filename | path.hpp:403-409 | `filename` is the separator-free suffix after the last separator, and `""` when there is no separator |
| FileNames.Extension | path.hpp:411-419 | `extension` is a suffix with neither a `'.'` nor a separator, preceded by a `'.'` when it is not empty |
| FileNames.Stem | path.hpp:421-433 | `stem` is a prefix; it is the whole path exactly when no `'.'` is followed only by non-separators; otherwise it stops at a `'.'` followed by neither `'.'` nor separator |
| FileNames.StemExtension | path.hpp:411-433 | a path with a separator is its stem, a `'.'` and its extension when the stem cut something off; no extension when the stem is the path; no extension without a separator |
| FileNames.FilenameAppended | path.hpp:403-409 | appending a separator-free name makes it the file name |
| FileNames.StemAppended | path.hpp:411-433 | appending `name.ext` gives the stem `append(name)` and the extension `ext` |
| Apathy.Path.constructor | path.hpp:354-361 | the path holds the given text |
| Apathy.Path.Equals | path.hpp:134 | `==` is text equality |
| Apathy.Path.Append | path.hpp:438-447 | the new text is `Appended(old text, segment)` |
| Apathy.Path.Relative | path.hpp:449-456 | the new text is `Resolved(old text, rel)` |
| Apathy.Path.Trim | path.hpp:562-572 | the new text is `Trimmed(old text)` |
| Apathy.Path.Directory | path.hpp:556-560 | the new text is `AsDirectory(old text)` |
| Apathy.Path.Sanitize | path.hpp:485-554 | the stack loop and write-back leave `Sanitized(old text)` |
| Apathy.Path.Up | path.hpp:458-472 | the new text is `Parent(old text)` |
| Apathy.Path.Absolute | path.hpp:474-483 | the new text is `Absolutized(old text, cwd)` |
| Apathy.Path.Parent | path.hpp:233 | a fresh path holding `Parent(text)`; the receiver is not modified |
| Apathy.Path.Plus | path.hpp:382-386 | a fresh path holding `Appended(text, segment)` |
| Apathy.Path.Equivalent | path.hpp:388-401 | the result is `Equivalent(text, other text, cwd)` |
| Apathy.Path.JoinPaths | path.hpp:649-653 | a fresh path holding `Appended(a, b)` |
| Apathy.Path.Cwd | path.hpp:669-683 | a fresh path holding `WorkingDirectory(reported)` |
| FileTree.Locate | path.hpp:611-635 | every name in the location `stat` resolves a path to is a plain name: no `""`, `"."`, `".."` or separator |
| FileTree.LocateAbsolutized | path.hpp:474-483 | the location of a path is the `sanitize` stack of the path made absolute |
| FileTree.LocateAbsolute | path.hpp:760-762 | making a path absolute first, as `makedirs` and `listdir` do, does not change where `Locate` resolves it by its text |
| FileTree.Ancestors | path.hpp:773-777 | every directory on the way down to a present entry is present, the root included |
| FileTree.MkdirWellFormed | path.hpp:69-77 | a directory made by `mkdir` keeps every entry inside a present directory |
| FileTree.FileSystem.Exists | path.hpp:611-617 | `exists`: `stat` finds an entry at the location the path resolves to |
| FileTree.FileSystem.IsFile | path.hpp:619-626 | `is_file`: `stat` finds a regular file, so the path exists |
| FileTree.FileSystem.IsDirectory | path.hpp:628-635 | `is_directory`: `stat` finds a directory, so the path exists and is not a file |
| FileTree.FileSystem.Mkdir | path.hpp:69-77 | `mkdir(2)` reports an existing entry, a file met on the way down (`ENOTDIR`), a missing directory on the way down (`ENOENT`), a refusal, or success; a directory is added exactly on success |
| FileTree.UnderFileBlocked | path.hpp:784-790 | below a file no directory can be, and `makedirs` makes none on the way |
| FileTree.FileSystem.Makedirs | path.hpp:760-791 | the result is whether a directory can be at the location once the missing ones above it are made top-down; the new state adds exactly those directories |
| FileTree.CreatedOfPresent | path.hpp:764-772 | nothing is made on the way to a location that is already present |
| FileTree.CreatedStep | path.hpp:773-783 | the directories made on the way to a location are those made on the way to its parent, plus the location itself when it is missing and can be made |
| FileTree.CreatableMade | path.hpp:760-791 | `makedirs` succeeds exactly when a directory is at the location afterwards |
| FileTree.MadeAtOnce | path.hpp:764-766 | when the first `mkdir` succeeds, that one directory is all `makedirs` adds |
| FileTree.MadeNothingExisting | path.hpp:771-772 | when the entry exists, nothing is made, and success means it is a directory |
| FileTree.MadeNothingRefused | path.hpp:784-790 | when a file is on the way down or the system refuses, nothing is made and `makedirs` fails |
| FileTree.MadeAfterEnclosing | path.hpp:773-783 | when the enclosing directory is missing, the retried `mkdir` after `makedirs` on the parent succeeds exactly when the location can be made, and leaves exactly the directories `makedirs` promises |
| FileTree.FileSystem.ReadDirectory | path.hpp:836 | `readdir` yields `"."`, `".."`, then the name of every entry inside the directory, each once |
| FileTree.FileSystem.PickChildren | path.hpp:836 | the entries inside a directory, each once, in an order the system chooses |
| FileTree.PickedNames | path.hpp:836 | the names read off the picked entries are plain, distinct, and rebuild every entry inside the directory |
| FileTree.FileSystem.Listdir | path.hpp:825-856 | the result is empty unless the path is a directory; otherwise its paths are located at the entries inside it, each entry exactly once, each spelled as the path made absolute with the entry's name appended |
| FileTree.ItemLocated | path.hpp:849 | a name resolved against the path made absolute is located at the path's location with the name pushed on |
| FileTree.ListingOfLocated | path.hpp:836-851 | paths located at the entries inside a directory, one per entry, make a listing of it |
| FileTree.ListingOfNames | path.hpp:836-851 | the paths built from the names `readdir` returned, `"."` and `".."` skipped, make a listing |
| FileTree.FileSystem.RecursiveListdir | path.hpp:875-898 | the results are located at exactly the entries below the path, no entry twice, each spelled as the path made absolute with the names below it joined on |
| FileTree.FileSystem.Visit | path.hpp:879-895 | one round of the work-list loop keeps the loop invariant, and visits a directory not visited before or shortens the work list |
| FileTree.FileSystem.PushDirectories | path.hpp:886-893 | the directories among the items are pushed on the work list, in order |
| FileTree.DirectoriesOf | path.hpp:890-893 | the pushed paths are exactly the items that are directories, and bring no repeated location |
| FileTree.Explore | path.hpp:879-895 | listing the directory taken off the work list keeps the invariant: results below the path, no location twice, visited directories covered, pending directories not yet visited, every found directory visited or pending |
| FileTree.Round | path.hpp:879-895 | the invariant holds after the round, with a directory newly visited or a shorter work list |
| FileTree.ReachedAt | path.hpp:877-898 | once the work list is empty, every entry below the path at any depth is among the results |
| FileTree.Explored | path.hpp:877-898 | once the work list is empty, the results are located at exactly the entries below the path |
| FileTree.FileSystem.Rmdir | path.hpp:808-809 | `rmdir(2)` succeeds on an empty, non-root directory the system lets go, and removes exactly it |
| FileTree.FileSystem.Unlink | path.hpp:810 | `unlink(2)` succeeds on a file the system lets go, and removes exactly it |
| FileTree.RemoveLeaf | path.hpp:808-810 | removing an entry with nothing inside it keeps every entry inside a present directory |
| FileTree.FileSystem.Rmdirs | path.hpp:793-820 | succeeds exactly when the path is not the root and nothing at or below it is refused, and then removes the whole subtree; with `ignore_errors` removes exactly what could go with everything under it; never removes anything else or changes a kind |
| FileTree.FileSystem.RemoveInOrder | path.hpp:806-817 | the removal loop, stopping at the first failure unless errors are ignored, removes just what `Rmdirs` promises and returns the result for the path, which is tried last |
| FileTree.FileSystem.RemoveOne | path.hpp:808-810 | at its turn, `rmdir` on a directory or `unlink` on a file succeeds exactly when the location can go with everything under it |
| FileTree.ClearStep | path.hpp:806-817 | a location can go with everything under it exactly when it is present, not the root, not refused, and so can every entry directly inside it |
| FileTree.ClearedAll | path.hpp:806-817 | when a location can go with everything under it, so can every entry of its subtree |
| FileTree.SweepStep | path.hpp:806-810 | removing in an order with children first, each removal succeeds exactly when its location can go with everything under it |
| FileTree.SweptAll | path.hpp:806-817 | going through the whole order removes exactly the entries of the subtree that can go |
| FileTree.StoppedEarly | path.hpp:812-816 | a failure before the end means the path itself cannot go, and what was removed could go |
| FileTree.SweptWithin | path.hpp:806-817 | what is removed up to any point could go with everything under it |
| FileTree.SizeAbsolutized | path.hpp:800-804 | the sort key is the length of the path made absolute |
| FileTree.InsertSorted | path.hpp:800-804 | inserting by the key keeps a list sorted longest first and adds exactly the one path |
| FileTree.SortExists | path.hpp:800-804 | every list of paths has a reordering sorted longest first, which `std::sort` produces |
| FileTree.OrderShape | path.hpp:796-797 | the contents are the found paths and the path itself, each location once: exactly the subtree |
| FileTree.ChildrenFirstSpelled | path.hpp:800-805 | sorting longest first puts every entry before the directory holding it |
| FileTree.LastSpelled | path.hpp:800-805 | sorting longest first puts the path itself last |
| FileTree.RmdirsOrder | path.hpp:796-805 | the sorted contents are located at exactly the subtree, each location once, every entry before its directory, the path last |
| Oracles.AppendChain | test.cpp:129-132 | `"/" << "hello" << "how" << "are" << "you"` is `"/hello/how/are/you"` |
| Oracles.AppendNumbers | test.cpp:134-137 | the chain with `"5"` and `"3.14"` is `"/hello/5/how/3.14/are"` |
| Oracles.PlusExample | test.cpp:140-141 | `"foo/bar" + "baz"` is `"foo/bar/baz"` |
| Oracles.TrimExamples | test.cpp:144-148 | `trim` of `"/hello/how/are/you"` with four, no, or one final separator is `"/hello/how/are/you"` |
| Oracles.TrimRoot | path.hpp:562-572 | `trim` of `"///"` and of `"/"` is `""` |
| Oracles.DirectoryExamples | test.cpp:150-154 | `directory` of the path with zero, one or two final separators is `"/hello/how/are/you/"` |
| Oracles.RelativeExamples | test.cpp:156-160 | `relative("foo")` appends with one separator; `relative("/fine/thank/you")` replaces |
| Oracles.ParentOfFile | test.cpp:163 | the parent of `"/hello/how/are/you"` is `"/hello/how/are/"` |
| Oracles.ParentOfDirectory | test.cpp:164 | the parent of `"/hello/how/are/"` is `"/hello/how/"` |
| Oracles.ParentOfParent | test.cpp:163-175 | two `parent` steps take `"/hello/how/are/you"` to `"/hello/how/"` and `"foo/bar"` to `""` |
| Oracles.ParentOfRoot | test.cpp:170 | `"/"` is its own parent |
| Oracles.ParentOfRelativeFile | test.cpp:175 | the parent of `"foo/bar"` is `"foo/"` |
| Oracles.ParentOfRelativeDirectory | test.cpp:175 | the parent of `"foo/"` is `""` |
| Oracles.ParentSanitizes | test.cpp:176 | the parent of `"foo/../bar/baz/a/../"` is `"bar/"` |
| Oracles.SanitizeRelative | test.cpp:180 | `"foo///bar/a/b/../c"` sanitizes to `"foo/bar/a/c"` |
| Oracles.SanitizeLeadingParent | test.cpp:181 | `"../foo///bar/a/b/../c"` sanitizes to `"../foo/bar/a/c"` |
| Oracles.SanitizeParentRun | test.cpp:182 | `"../../a/b////c"` sanitizes to `"../../a/b/c"` |
| Oracles.SanitizeAbsoluteParents | test.cpp:184 | `"/../../a/b////c"` sanitizes to `"/a/b/c"` |
| Oracles.SanitizeCurrent | test.cpp:185 | `"/./././a/./b/../../c"` sanitizes to `"/c"` |
| Oracles.SanitizeDirectory | test.cpp:187 | `"././a/b/c/"` sanitizes to `"a/b/c/"` |
| Oracles.SanitizeEquivalentLeft | test.cpp:191 | `"foo////a/b/../c/"` sanitizes to `"foo/a/c/"` |
| Oracles.SanitizeEquivalentRight | test.cpp:191 | `"foo/a/c/"` is already sanitized |
| Oracles.EquivalentSanitizedPaths | test.cpp:191 | `"foo////a/b/../c/"` and `"foo/a/c/"` are equivalent under every working directory |
| Oracles.EquivalentClimbAndDescend | test.cpp:192 | `"../foo/bar/"` is equivalent to `cwd().parent().append("foo").append("bar").directory()` under every working directory |
| Oracles.ThreeNamesSplit | test.cpp:274-279 | `split("foo/bar/baz")` is the three segments `"foo"`, `"bar"`, `"baz"` |
| Oracles.NamedDirectorySplit | test.cpp:281-282 | `split("foo/bar/baz/")` has four segments, the last empty |
| Oracles.RootedDirectorySplit | test.cpp:284-285 | `split("/foo/bar/baz/")` has five segments, the first and last empty |
| Oracles.ExtensionOfFile | test.cpp:290-299 | `"foo/bar/baz.out"` has extension `"out"` and stem `"foo/bar/baz"` |
| Oracles.ExtensionOutermost | test.cpp:292-301 | `"foo/bar.baz.out"` has extension `"out"` and stem `"foo/bar.baz"` |
| Oracles.ExtensionOfDirectory | test.cpp:294-303 | `"foo/bar.baz/out"` has no extension and is its own stem |
| Oracles.StemChain | test.cpp:306-310 | repeated `stem` takes `"foo.bar.baz.out"` to `"foo.bar.baz"`, `"foo.bar"`, `"foo"` and `"foo"` |

## Left out

- The `_WIN32` branch is not modelled. It covers drive letters, backslash rewriting in the constructors, and `tolower` in `equivalent`. The build picks one branch, and the POSIX one is modelled.
- The template constructor that formats any streamable value is not modelled. The model uses only the string constructor, so numbers appear as the texts the stream writes (`"5"`, `"3.14"`).
- `size`, `touch`, `move`, `rm` and `glob` are not modelled. They are thin wrappers over `stat`, `open`, `rename`, `remove` and `glob(3)`, and do not take part in the tree operations.
- The filesystem holds only files and directories. Symbolic and hard links, other file types, mode bits, ownership and file contents are not modelled.
- `FileTree.Locate`: paths are resolved by their text. The system resolves them one component at a time against the filesystem, and that differs in these cases. `""` names nothing (`ENOENT`), where the model locates it at the working directory. A `".."` or a final separator needs the component before it to be a present directory: with `a` missing, `"a/.."` is the working directory in the model and an error for the system; with `f` a file, `"f/"` is `f` in the model and `ENOTDIR` for the system. A final `"."` or `".."` cannot be made or removed (`EEXIST`, `EINVAL`, `ENOTEMPTY`), where the model makes or removes the location the text resolves to.
- `FileTree.LocateAbsolute`: for `""` the system's `stat`, `mkdir`, `rmdir` and `unlink` fail, while `absolute("")` is the working directory. So `Exists("")`, `IsDirectory("")`, `Mkdir("")`, `Rmdir("")` and `Unlink("")` act on the working directory in the model and fail in the system; `makedirs` and `listdir`, which make the path absolute first, agree.
- `FileTree.FileSystem.Mkdir`: it acts on the location `Locate` gives, so `mkdir("a/..")` and `mkdir("a/./")` with `a` missing report an existing entry or make `a` in the model, where the system reports `ENOENT`; `mkdir("")` reports an existing entry in the model and `ENOENT` in the system.
- `FileTree.FileSystem.Rmdir`: it acts on the location `Locate` gives, so with an empty working directory `rmdir("")` and `rmdir(".")` remove it in the model, where the system fails with `ENOENT` and `EINVAL`.
- `FileTree.FileSystem.Unlink`: it acts on the location `Locate` gives, so `unlink("f/")` with `f` a file succeeds in the model where the system fails with `ENOTDIR`.
- `FileTree.FileSystem.Makedirs`: with `new` missing in the working directory `/w/`, `makedirs("/w/new/..")` fails in the system and succeeds in the model, and `makedirs("/w/new/../b")` fails in the system while the model makes `/w/b`.
- `FileTree.FileSystem.Listdir`: with `a` missing, `listdir("a/..")` is empty in the system and lists the working directory in the model.
- `FileTree.FileSystem.RecursiveListdir`: it lists through `Listdir`, so with `a` missing `recursive_listdir("a/..")` is empty in the system and lists everything below the working directory in the model.
- `FileTree.FileSystem.Rmdirs`: `rmdirs("")` removes everything below the working directory and then fails on `rmdir("")`; the model also removes the working directory and succeeds. `rmdirs(".")` and `rmdirs("x/.")` end in `rmdir` failing with `EINVAL`, and `rmdirs("f/")` with `f` a file fails with `ENOTDIR`; the model removes the location and succeeds.
- `FileTree.FileSystem.RemoveInOrder`: it removes through `RemoveOne`, so it shares the `rmdirs` cases above.
- `FileTree.FileSystem.RemoveOne`: it removes through `Rmdir` and `Unlink`, so a path ending in `"."`, `".."` or a separator is removed in the model where the system fails.
- The `mode` argument of `makedir` and `makedirs` is not modelled.
- `errno` and the `perror` diagnostics are not modelled. `Mkdir` reports one of five outcomes; every failure other than an existing entry, a file or a missing directory on the way down, or a non-empty directory is a refusal drawn from `refused`.
- `FileTree.FileSystem.Listdir`: `opendir` fails only when the path is not a directory. A directory the system refuses to read, or running out of descriptors, is not modelled.
- `FileTree.FileSystem.ReadDirectory`: `"."` and `".."` come first. The system may return them anywhere; `listdir` skips them wherever they are, so the result is the same.
- `FileTree.FileSystem.Rmdirs`: `std::sort` leaves the order of paths of equal length unspecified. The model takes any order sorted longest first, and its contract holds for every such order.
- `FileTree.FileSystem.RemoveInOrder`: the `break` after the first failure is a `return` from the loop.
- `FileTree.FileSystem.Makedirs`: its recursion and the `RecursiveListdir` work list are proved to end. Neither models running out of stack or memory.
- `Apathy.Path.Cwd`: `getcwd` is an environment query. What it reported is a parameter, and the `perror` diagnostic on failure is not modelled.
- `Apathy.Path.Absolute`: the working directory is a parameter that is absolute and ends in a separator, as `cwd()` guarantees for a successful `getcwd`.
- `tmp()` is not modelled. It reads environment variables.
- Paths are plain values in the methods' arguments. A call such as `p.append(p)`, where the argument aliases the receiver, is not modelled.
- The races between `stat` and later filesystem calls are not modelled.
- `Apathy.Path.Sanitize`: the segments are plain strings, not `Segment` objects.
- `Navigation.EquivalentToSanitized`: it requires that the path is not a relative file path that comes to `""`. Such a path, for example `"a/.."`, stands for the working directory without a final separator, while `""` stands for it with one, so the two are not equivalent.
