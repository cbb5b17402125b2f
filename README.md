# Coordinate Pictures: file navigation, undo stack and file-name logic in Dafny

This project models the core of `ClassUtils.cs` in the Coordinate Pictures image
organiser and proves properties of the model:

- **Directory snapshot** (`Snapshot`, class `FileListAutoUpdated`). It caches the files
  under a directory, sorted with OrdinalIgnoreCase. It reads the directory again only
  when it is dirty or a refresh is forced. The file system watcher only marks it dirty.
- **Navigation** (`Navigation`, class `FileListNavigation`). It keeps a cursor
  `Current` over a filtered view of the snapshot. The view keeps the files with an
  allowed extension and, unless asked otherwise, leaves out files with the
  `__MARKAS__` marker. The "at or below" lookup is a binary search. Positions are read
  through the clamped `ArrayAt`. Every move is wrapped in `TryAgainIfFileIsMissing`,
  which refreshes the snapshot once when the computed file no longer exists.
- **Undo stack** (`UndoStacks`, class `UndoStack<T>`). A list of states and a cursor.
- **File-name logic** (`FilenameUtils`, `FindSimilarFilenames`):
  - extension tests;
  - the numbered prefix `([ddd0])`;
  - the category marker `name__MARKAS__category.ext` and its decoder;
  - the comparison of paths without their extensions;
  - the grouping of converted files such as `a.png90.jpg` with their original `a.png`.
- **Small helpers** (`Utils`): `IsDigits`, `FirstTwoChars`, `SplitByString`, `ArrayAt`, and
  `CombineProcessArguments`, the serialiser for the Microsoft C runtime's command-line
  quoting.

Supporting modules:

- `Text` models the parts of the .NET string library that are used: ASCII case
  mapping, ordinal `StartsWith`/`EndsWith`/`Contains`/`IndexOf`, `Split` on a non-empty
  separator, `Join` and `Replace`.
- `Paths` is a simplified `System.IO.Path`. `\` is the only separator. The extension
  starts at the last `.` of the file name.
- `Collation` holds OrdinalIgnoreCase, which compares upper-cased strings ordinally. It
  also holds `Array.Sort`, written as an insertion sort and specified as sorted and a
  permutation. `Array.BinarySearch` is written with the .NET midpoint and its
  complement-of-insertion-point miss result.
- `Lists` holds an order-keeping filter, the model of LINQ `Where`.
- `Argv` states how the C runtime splits a command line into arguments. It is the
  reference that `CombineProcessArguments` is proved against: parsing its output gives
  back the arguments. It leaves out one of the runtime's rules: a pair `""` inside a
  quoted run, which the runtime reads as a literal `"`. The serialiser's output never
  reaches that rule: each `"` inside an argument is escaped, and each closing `"` is
  followed by a space or the end.

External things become parameters:

- The directory enumeration is `disk: seq<string>`: the files the directory holds at
  the moment of the call, in any order.
- `File.Exists` is an oracle `fileExists: string -> bool`.
- A watcher event is a call to `Dirty()` or `NotifyFileChanges()`.
- A null `Current` and the `default(T)` of the undo stack's peek methods are `None`.
- `Current ?? ""` is `Navigation.Key`.
- The `Func<string[], string>` handed to `TryAgainIfFileIsMissing` is a `Navigation.Step`
  value (`Next(n)`, `Prev(n)`, `First`, `Last`, `Nearest`). `Navigation.Target` and
  `Navigation.Neighbors` give its result, and `FileListNavigation.Locate` runs it.

Behaviour of the code that its names or comments do not lead one to expect, which the
model follows:

- The decoder refuses a path in three distinct ways (`FilenameUtils.CategoryError`).
- The marker round trip does not hold for every unmarked path (see Findings). It fails
  for a base name ending in `__MARKAS` or `__MARKAS_`, for a file name without an
  extension and for a file name that is only an extension.
- Nothing catches a failing enumeration, for instance of a directory that has been
  deleted: `GetList` and every move throw, with the cached list and the dirty flag
  unchanged. The watcher set up in the snapshot's constructor throws for a missing
  directory as well.
- The comment on `FindSimilarFilenames` names `example_out.png` as related to
  `example.png90.jpg`. The code does not group it: `SameExceptExtension` compares the
  whole base names `example` and `example_out`. The model follows the code
  (`FindSimilarFilenames.UnrelatedNotSimilar`).
- The "previous" move compares the cursor with the entry case-sensitively, while the
  lookup ignores case (`Navigation.PrevCaseMismatch`).

## Model

| member | source | states |
|---|---|---|
| Utils.IsDigits | src/labs_coordinate_pictures/ClassUtils.cs:93-109 | true exactly when the string is non-empty and every character is one of 0-9 |
| Utils.FirstTwoChars | src/labs_coordinate_pictures/ClassUtils.cs:111-114 | the result is a prefix of the string of length min(2, length) |
| Utils.SplitByString | src/labs_coordinate_pictures/ClassUtils.cs:532-535 | at least one piece; the pieces joined with the delimiter give the string back; no piece holds the delimiter; with more than one piece the first ends at the leftmost occurrence |
| Utils.ArrayAt | src/labs_coordinate_pictures/ClassUtils.cs:454-469 | the result is an element; `arr[index]` in range, `arr[0]` below it, the last element above it |
| Utils.CombineProcessArguments | src/labs_coordinate_pictures/ClassUtils.cs:148-199 | fails exactly when some argument holds NUL, LF or CR, and names the first such one; otherwise the C runtime splits the result back into exactly the arguments |
| Utils.ParseCommandLine | src/labs_coordinate_pictures/ClassUtils.cs:148-199 | splitting the combined command line the C runtime's way gives back every argument list |
| Collation.SortIgnoreCase | src/labs_coordinate_pictures/ClassUtils.cs:603-604 | the sorted array has as many entries as the enumeration |
| Collation.SortIgnoreCaseCorrect | src/labs_coordinate_pictures/ClassUtils.cs:603-604 | the sorted array is a permutation of the enumeration, sorted under OrdinalIgnoreCase, and strictly sorted when no two names differ only in case |
| Collation.BinarySearch | src/labs_coordinate_pictures/ClassUtils.cs:695 | the result is an index of the list or the complement of an insertion point |
| Collation.SearchCorrect | src/labs_coordinate_pictures/ClassUtils.cs:695 | on a sorted list the search reports an index holding the key, or the complement of the position that splits the entries below the key from those above it |
| Snapshot.Fresh | src/labs_coordinate_pictures/ClassUtils.cs:563-564 | a new snapshot is dirty (and its empty list sorted) |
| Snapshot.MarkedDirty | src/labs_coordinate_pictures/ClassUtils.cs:585-593 | the flag is set and the list is unchanged |
| Snapshot.Fetched | src/labs_coordinate_pictures/ClassUtils.cs:595-609 | dirty or forced: clean, and the list is the enumeration sorted (a permutation, sorted, strictly sorted for case-distinct names); otherwise unchanged; sortedness kept either way |
| Snapshot.FetchedAgain | src/labs_coordinate_pictures/ClassUtils.cs:595-609 | a second unforced read after any read changes nothing, whatever the disk now holds |
| Snapshot.DirtyThenFetched | src/labs_coordinate_pictures/ClassUtils.cs:590-609 | an unforced read of a snapshot marked dirty equals a forced read |
| Snapshot.FileListAutoUpdated.constructor | src/labs_coordinate_pictures/ClassUtils.cs:563-581 | the new snapshot is the fresh one, for the given directory and recursion option |
| Snapshot.FileListAutoUpdated.Dirty | src/labs_coordinate_pictures/ClassUtils.cs:590-593 | the state becomes the dirty-marked state, and the list stays sorted |
| Snapshot.FileListAutoUpdated.GetList | src/labs_coordinate_pictures/ClassUtils.cs:595-609 | the state becomes the fetched state, and the result is the new list |
| Navigation.Include | src/labs_coordinate_pictures/ClassUtils.cs:771-779 | a kept file has an allowed extension; a marked file is never kept when marked files are excluded and not asked for; otherwise, and for every unmarked file in every mode, the extension alone decides |
| Navigation.View | src/labs_coordinate_pictures/ClassUtils.cs:781 | no longer than the snapshot, and every file of it is a file of the snapshot that passes the test |
| Navigation.ViewMembers | src/labs_coordinate_pictures/ClassUtils.cs:769-782 | a file is in the view exactly when it is in the snapshot and passes the marker and extension tests |
| Navigation.ViewSorted | src/labs_coordinate_pictures/ClassUtils.cs:769-782 | a sorted (strictly sorted) snapshot gives a sorted (strictly sorted) view |
| Navigation.GetLessThanOrEqual | src/labs_coordinate_pictures/ClassUtils.cs:693-702 | the result lies in [-1, length-1] |
| Navigation.LessThanOrEqualSplits | src/labs_coordinate_pictures/ClassUtils.cs:693-702 | for case-distinct sorted entries, those at or below the result are at most the key, and those after it are above it |
| Navigation.LessThanOrEqualExact | src/labs_coordinate_pictures/ClassUtils.cs:693-702 | when an entry equals the key up to case, the result is its index |
| Navigation.EmptyKeyFirst | src/labs_coordinate_pictures/ClassUtils.cs:693-702 | the empty key (a null cursor) looks up as -1 in a sorted list of non-empty names |
| Navigation.Target | src/labs_coordinate_pictures/ClassUtils.cs:704-767 | every move on a non-empty view lands on an entry of the view |
| Navigation.Around | src/labs_coordinate_pictures/ClassUtils.cs:710-734 | the n neighbours are the clamped entries at index+i+2 (forward) or index-i-1 (backward), each in the view |
| Navigation.Neighbors | src/labs_coordinate_pictures/ClassUtils.cs:704-738 | a move writes as many neighbours as were asked for, each an entry of the view |
| Navigation.NextFrom | src/labs_coordinate_pictures/ClassUtils.cs:709-717 | from entry k, "next" goes to entry k+1 or stays on the last, and neighbour i is the clamped entry k+i+2 |
| Navigation.PrevFrom | src/labs_coordinate_pictures/ClassUtils.cs:719-736 | from entry k, "previous" goes to entry k-1 or stays on the first, and neighbour i is the clamped entry k'-i-1 for the moved index k' |
| Navigation.NearestFrom | src/labs_coordinate_pictures/ClassUtils.cs:756-767 | a cursor on an entry stays on it when looked up again |
| Navigation.NextThenPrev | src/labs_coordinate_pictures/ClassUtils.cs:704-738 | "next" then "previous" returns to entry k for k below the last |
| Navigation.PrevThenNext | src/labs_coordinate_pictures/ClassUtils.cs:704-738 | "previous" then "next" returns to entry k for k above the first |
| Navigation.NullCursorFirst | src/labs_coordinate_pictures/ClassUtils.cs:704-767 | with a null cursor, "next", "previous" and the lookup all give the first entry |
| Navigation.PrevCaseMismatch | src/labs_coordinate_pictures/ClassUtils.cs:719-727 | a cursor that matches entry k only up to case makes "previous" stay on entry k |
| Navigation.NearestIsAtOrBelow | src/labs_coordinate_pictures/ClassUtils.cs:756-767 | the lookup gives the greatest entry at or below the path, or the first entry when none is |
| Navigation.Retried | src/labs_coordinate_pictures/ClassUtils.cs:665-691 | an empty view clears the cursor with no refresh; at most one forced refresh, made exactly when the first result does not exist; the second result is taken without a check; an empty view after it clears the cursor; a set cursor is in the final view |
| Navigation.RetriedStable | src/labs_coordinate_pictures/ClassUtils.cs:665-691 | on a clean snapshot with a non-empty view and an existing target, the cursor becomes the target on that view and nothing else changes |
| Navigation.RetriedAfterRefresh | src/labs_coordinate_pictures/ClassUtils.cs:665-691 | a missing target makes the cursor the move on the view of the re-read disk, or null when that view is empty |
| Navigation.FileListNavigation.constructor | src/labs_coordinate_pictures/ClassUtils.cs:637-645 | a fresh snapshot of the directory, and the cursor set to the given path and looked up |
| Navigation.FileListNavigation.Refresh | src/labs_coordinate_pictures/ClassUtils.cs:650-654 | a new fresh snapshot of the same directory, and the cursor looked up from the empty path |
| Navigation.FileListNavigation.NotifyFileChanges | src/labs_coordinate_pictures/ClassUtils.cs:656-659 | the snapshot is marked dirty and the cursor is unchanged |
| Navigation.FileListNavigation.GetList | src/labs_coordinate_pictures/ClassUtils.cs:769-782 | the snapshot is fetched, and the result is the filtered view of it |
| Navigation.FileListNavigation.Locate | src/labs_coordinate_pictures/ClassUtils.cs:706-766 | returns the target of the move, and the buffer's first places hold its neighbours while the rest is untouched |
| Navigation.FileListNavigation.FillNeighbors | src/labs_coordinate_pictures/ClassUtils.cs:713-716 | the loop writes the clamped entries into the first n places of the buffer and leaves the rest |
| Navigation.FileListNavigation.TryAgainIfFileIsMissing | src/labs_coordinate_pictures/ClassUtils.cs:665-691 | the new snapshot and cursor, and the neighbours written, are those of the retry protocol |
| Navigation.FileListNavigation.GoNextOrPrev | src/labs_coordinate_pictures/ClassUtils.cs:704-738 | the retry protocol run with the "next" or "previous" move and the neighbour count |
| Navigation.FileListNavigation.GoFirst | src/labs_coordinate_pictures/ClassUtils.cs:740-746 | the retry protocol run with the first entry |
| Navigation.FileListNavigation.GoLast | src/labs_coordinate_pictures/ClassUtils.cs:748-754 | the retry protocol run with the last entry |
| Navigation.FileListNavigation.TrySetPath | src/labs_coordinate_pictures/ClassUtils.cs:756-767 | without verification the cursor is the path; with verification it is the retry protocol's lookup from that path |
| FilenameUtils.IsExtensionInList | src/labs_coordinate_pictures/ClassUtils.cs:818-830 | true exactly when the lower-cased path ends with one of the extensions |
| FilenameUtils.LooksLikeImage | src/labs_coordinate_pictures/ClassUtils.cs:806-810 | true exactly when the lower-cased path ends with one of the eight image extensions |
| FilenameUtils.LooksLikeAudio | src/labs_coordinate_pictures/ClassUtils.cs:812-816 | true exactly when the lower-cased path ends with one of the five audio extensions |
| FilenameUtils.IsExt | src/labs_coordinate_pictures/ClassUtils.cs:832-835 | the one-extension case of the list test |
| FilenameUtils.UpperCaseExtensionNeverMatches | src/labs_coordinate_pictures/ClassUtils.cs:832-835 | an extension with an upper-case letter never matches |
| FilenameUtils.IsExtIgnoresCase | src/labs_coordinate_pictures/ClassUtils.cs:832-835 | paths equal up to case give the same answer |
| FilenameUtils.GetFileNameWithoutNumberedPrefix | src/labs_coordinate_pictures/ClassUtils.cs:858-871 | a suffix of the file name: shorter by the 8-character prefix when it has one, the whole name otherwise |
| FilenameUtils.FormatD3 | src/labs_coordinate_pictures/ClassUtils.cs:853 | `D3` gives three digits for 0-999, at least three digits for any non-negative number, and a minus sign for a negative one |
| FilenameUtils.FormatD3Value | src/labs_coordinate_pictures/ClassUtils.cs:853 | the digits read back as the number |
| FilenameUtils.AddNumberedPrefix | src/labs_coordinate_pictures/ClassUtils.cs:842-856 | a file name that already has a numbered prefix is returned as it is; otherwise the result starts with the directory and a separator and ends with the prefix and the file name |
| FilenameUtils.NumberedPrefixRoundTrip | src/labs_coordinate_pictures/ClassUtils.cs:842-871 | for 0-999 and an unprefixed non-empty name: same directory, the name gains the prefix, stripping it gives the name back, and its digits read back as the number |
| FilenameUtils.AddNumberedPrefixIdempotent | src/labs_coordinate_pictures/ClassUtils.cs:842-856 | adding a second prefix changes nothing |
| FilenameUtils.AddCategoryToFilename | src/labs_coordinate_pictures/ClassUtils.cs:873-885 | the result always holds the marker; a path that already has one is returned unchanged |
| FilenameUtils.GetCategoryFromFilename | src/labs_coordinate_pictures/ClassUtils.cs:887-915 | a marker in the directory is refused exactly; a decoded category has no `.` and no marker; the decoded path, the marker and the category together are as long as the input |
| FilenameUtils.DecodeUnmarked | src/labs_coordinate_pictures/ClassUtils.cs:895-902 | a path without the marker is refused for its marker count |
| FilenameUtils.DecodeMarkedDirectory | src/labs_coordinate_pictures/ClassUtils.cs:889-893 | a marker in the directory is refused as such |
| FilenameUtils.DottedCategoryRefused | src/labs_coordinate_pictures/ClassUtils.cs:904-909 | a category with a `.` is refused for the text after the marker |
| FilenameUtils.DecodedParts | src/labs_coordinate_pictures/ClassUtils.cs:887-915 | a decoded path had exactly one marker; the category has no `.` and no marker; the input is the path with the marker and category put before its `.`, and no further `.` follows it |
| FilenameUtils.CategoryRoundTrip | src/labs_coordinate_pictures/ClassUtils.cs:873-915 | an unmarked path with a base name and an extension, and a plain category, decode back to themselves, provided the base name does not end like the start of a marker |
| FilenameUtils.CategoryRoundTripFails | src/labs_coordinate_pictures/ClassUtils.cs:873-915 | a base name ending in `__MARKAS` makes the decoder return another path and category |
| FilenameUtils.AddCategoryToFilenameChecked | src/labs_coordinate_pictures/ClassUtils.cs:873-915 | the corrected encoder: whatever it tags is the source's encoding and decodes back to the path and the category; it tags exactly the unmarked well-formed paths with a base name and an extension, not ending like a marker's start, with a plain category |
| FilenameUtils.MarkedNeverRoundTrips | src/labs_coordinate_pictures/ClassUtils.cs:873-915 | a path that already has a marker never decodes back to itself, and the corrected encoder returns it |
| FilenameUtils.ExtensionlessRoundTripFails | src/labs_coordinate_pictures/ClassUtils.cs:873-915 | a file name without an extension is tagged by the source but refused by the decoder for the text after the marker; the corrected encoder returns it |
| FilenameUtils.EmptyBaseNameRoundTripFails | src/labs_coordinate_pictures/ClassUtils.cs:873-915 | a file name that is only an extension decodes to the directory followed by the extension, not to itself; the corrected encoder returns it |
| FilenameUtils.SameExceptExtension | src/labs_coordinate_pictures/ClassUtils.cs:917-925 | paths whose directories and base names agree up to case compare equal; paths that compare equal have base paths of the same length |
| FilenameUtils.SameExceptExtensionParts | src/labs_coordinate_pictures/ClassUtils.cs:917-925 | for well-formed paths with non-empty base names: equal exactly when the directories and the base names agree up to case |
| FilenameUtils.SameExceptExtensionOfRenamed | src/labs_coordinate_pictures/ClassUtils.cs:917-925 | a path and the same path with another extension compare equal |
| FindSimilarFilenames.RemoveAt | src/labs_coordinate_pictures/ClassUtils.cs:1043-1044 | one part shorter, with the parts after the removed one moved down |
| FindSimilarFilenames.PathWithSuffixRemoved | src/labs_coordinate_pictures/ClassUtils.cs:1020-1052 | a removal happens only for a name of at least three parts, and keeps the directory and the extension |
| FindSimilarFilenames.FindPathWithSuffixRemoved | src/labs_coordinate_pictures/ClassUtils.cs:1020-1052 | found exactly when the name has at least three parts and the next-to-last, lower-cased, starts with an extension's type and is a non-empty run of digits once every occurrence of that type is removed; the result is then the path without that part |
| FindSimilarFilenames.SuffixRemovedExample | src/labs_coordinate_pictures/ClassUtils.cs:1020-1052 | `dir\a.png90.b` becomes `dir\a.b` |
| FindSimilarFilenames.FindSimilarNames | src/labs_coordinate_pictures/ClassUtils.cs:1054-1080 | the results are the related files in their given order, along with the path's suffix removal; its loop body is the method `IsInGroup` |
| FindSimilarFilenames.SimilarNamesMembers | src/labs_coordinate_pictures/ClassUtils.cs:1054-1080 | a file is in the group exactly when it is given and related; the path itself, in any case, never is |
| FindSimilarFilenames.OriginalIsSimilar | src/labs_coordinate_pictures/ClassUtils.cs:1014-1080 | the original `dir\a.c` of a conversion `dir\a.png90.b` is in its group |
| FindSimilarFilenames.SiblingIsSimilar | src/labs_coordinate_pictures/ClassUtils.cs:1014-1080 | another conversion `dir\a.png60.c` of the same original is in the group of `dir\a.png90.b` |
| FindSimilarFilenames.UnrelatedNotSimilar | src/labs_coordinate_pictures/ClassUtils.cs:1054-1080 | a file whose directory and base name differ up to case from the base path's, as it is and without its own suffix, is never in the group |
| UndoStacks.Empty | src/labs_coordinate_pictures/ClassUtils.cs:1082-1085 | a new stack is valid, with nothing to undo or redo |
| UndoStacks.StateToUndo | src/labs_coordinate_pictures/ClassUtils.cs:1098-1104 | a state exactly when the cursor is at or above 0, and that state is on the stack |
| UndoStacks.StateToRedo | src/labs_coordinate_pictures/ClassUtils.cs:1112-1118 | a state exactly when the cursor is below the top, and that state is on the stack |
| UndoStacks.Added | src/labs_coordinate_pictures/ClassUtils.cs:1087-1096 | the states up to the cursor are kept, those above are dropped; the new state is the one to undo and nothing is left to redo |
| UndoStacks.Undone | src/labs_coordinate_pictures/ClassUtils.cs:1106-1110 | the states are kept; at -1 nothing changes; otherwise the state to undo becomes the state to redo |
| UndoStacks.Redone | src/labs_coordinate_pictures/ClassUtils.cs:1120-1124 | the states are kept; at the top nothing changes; otherwise the state to redo becomes the state to undo |
| UndoStacks.UndoThenRedo | src/labs_coordinate_pictures/ClassUtils.cs:1106-1124 | undo then redo restores the stack |
| UndoStacks.RedoThenUndo | src/labs_coordinate_pictures/ClassUtils.cs:1106-1124 | redo then undo restores the stack |
| UndoStacks.Undos | src/labs_coordinate_pictures/ClassUtils.cs:1106-1110 | k undos leave the cursor at k below, or at -1 |
| UndoStacks.Redos | src/labs_coordinate_pictures/ClassUtils.cs:1120-1124 | k redos leave the cursor at k above, or at the top |
| UndoStacks.UndosThenRedos | src/labs_coordinate_pictures/ClassUtils.cs:1106-1124 | as many redos as undos restore the stack, when the undos did not reach the bottom |
| UndoStacks.UndoStack.constructor | src/labs_coordinate_pictures/ClassUtils.cs:1084-1085 | the stack is the empty one |
| UndoStacks.UndoStack.Add | src/labs_coordinate_pictures/ClassUtils.cs:1087-1096 | the new state is the added state, and the cursor invariant holds |
| UndoStacks.UndoStack.PeekUndo | src/labs_coordinate_pictures/ClassUtils.cs:1098-1104 | returns the state to undo, or none |
| UndoStacks.UndoStack.Undo | src/labs_coordinate_pictures/ClassUtils.cs:1106-1110 | the new state is the undone state |
| UndoStacks.UndoStack.PeekRedo | src/labs_coordinate_pictures/ClassUtils.cs:1112-1118 | returns the state to redo, or none |
| UndoStacks.UndoStack.Redo | src/labs_coordinate_pictures/ClassUtils.cs:1120-1124 | the new state is the redone state |

## Left out

- Process execution, shell launching, the clipboard, message boxes, threads, file locks,
  hashing, logging, soft deletion and configuration: these are calls into the operating
  system and external tools. The call to `MessageErr` in `AddCategoryToFilename` is
  dropped.
- The `FileSystemWatcher` setup and `Dispose` in both classes. A watcher event is a
  call to `Dirty()`. Delivery from another thread, concurrently with a read, is not modelled.
- `Directory.EnumerateFiles` and `File.Exists` are parameters. The recursion option only
  changes which names `disk` holds. One `disk` value serves a whole navigation call, so
  the two reads of one retry see the same directory.
- Case mapping and OrdinalIgnoreCase are ASCII only. .NET folds all of Unicode.
- `System.IO.Path` is simplified to `\`-separated paths. Drive letters, `/`, invalid
  characters, the 260-character limit and `IsPathRooted` are not modelled.
- `Collation.SortIgnoreCase`: the sorting algorithm of `Array.Sort` is not modelled. Any
  correct sort gives the same array when no two names differ only in case. Otherwise
  the order of such names may differ.
- Navigation.LessThanOrEqualSplits: this lemma and those built on it require names that
  are distinct up to case. `Array.BinarySearch` may return any one of several equal
  entries, and the source does not promise which.
- Navigation.FileListNavigation.Locate: a buffer that is null or too short when
  neighbours are asked for is excluded by a precondition. The source throws there.
- Navigation.Retried: the first result of a move is never null on a non-empty view.
  So the `firstTry != null` test always holds and is not modelled as a separate case.
- FilenameUtils.AddCategoryToFilenameChecked: that each input it refuses also fails the
  source's round trip is proved only for some families: marked paths, base names
  ending in `__MARKAS`, names without an extension, names that are only an extension,
  and categories with a `.`.
- FilenameUtils.SameExceptExtension: the converse (equal only when directory and base
  name agree up to case) is proved for well-formed paths with non-empty base names
  only. Otherwise `Path.Combine` can turn different pairs into the same text, as with
  `d\e\.jpg` and `d\e.png`.
- Snapshot.Fetched: an enumeration that throws is not modelled. `disk` is always a
  listing, so a missing or unreadable directory, after which the source's `GetList`
  throws and leaves the list and the flag unchanged, is not represented.
- Snapshot.FileListAutoUpdated.constructor and Navigation.FileListNavigation.constructor:
  the watcher's constructor throws for a missing directory; the model's constructors
  always succeed.
- `Refresh` replaces the snapshot without disposing the old one, as the source does.
  Only the missing disposal of the watcher is left out.
- FindSimilarFilenames.FindPathWithSuffixRemoved: it requires every extension to name a
  non-empty type. `string.Replace` with an empty pattern throws in the source.
- Utils.SplitByString: it requires a non-empty delimiter. .NET treats an empty one as
  "no split", and the source only ever splits on the marker.
- FilenameUtils.AddNumberedPrefix: numbers outside 0-999 are formatted, but only 0-999
  are proved to round-trip.
- `int.ToString("D3")` is modelled for all integers, with the sign of a negative number.
- `Utils.CombineProcessArguments` on a null argument array: the model's arguments are a
  sequence, and a null string is not possible in it.
- The regular expressions of `CombineProcessArguments` are character scans. `\s` is the
  fixed set of space, U+0009 to U+000D, U+0085 and U+00A0. .NET also counts the other
  Unicode separators.
- `GetFirstHttpLink`, `FormatFilesize`, `GetSoftDeleteDestination` and `GetRandomDigits`
  depend on regex, floating point, configuration or randomness.

## Findings

| source | as written | input that shows it | evidently intended | confidence | as-written member | corrected member |
|---|---|---|---|---|---|---|
| src/labs_coordinate_pictures/ClassUtils.cs:873-915 | `AddCategoryToFilename` refuses only paths that already contain `__MARKAS__`, and the decoder splits at the first marker found | `C:\d\x__MARKAS.jpg` with category `c` encodes to `C:\d\x__MARKAS__MARKAS__c.jpg`, which decodes to `C:\d\x.jpg` and category `MARKAS__c` | the encoder tags only what decodes back to the path and the category, and returns every other path as it is; a base name ending in `__MARKAS` or `__MARKAS_` is refused like a marked one | not executed | FilenameUtils.CategoryRoundTripFails | FilenameUtils.AddCategoryToFilenameChecked |
| src/labs_coordinate_pictures/ClassUtils.cs:873-915 | `AddCategoryToFilename` tags a file name without an extension, putting the category at the end | `C:\d\x` with category `c` encodes to `C:\d\x__MARKAS__c`, which the decoder refuses for having no `.` after the marker | a path without an extension is returned as it is | not executed | FilenameUtils.ExtensionlessRoundTripFails | FilenameUtils.AddCategoryToFilenameChecked |
| src/labs_coordinate_pictures/ClassUtils.cs:873-915 | `AddCategoryToFilename` combines the directory with an empty base name, which drops the separator | `C:\d\.jpg` with category `c` encodes to `C:\d__MARKAS__c.jpg`, which decodes to `C:\d.jpg` | a file name that is only an extension is returned as it is | not executed | FilenameUtils.EmptyBaseNameRoundTripFails | FilenameUtils.AddCategoryToFilenameChecked |
