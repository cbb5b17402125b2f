/**
 * `FileListNavigation`: a cursor `Current` over the files of a snapshot that have an
 * allowed extension (and, unless asked otherwise, no category marker), in
 * OrdinalIgnoreCase order. Every move computes its target from the view; when the
 * target no longer exists on disk the snapshot may not have heard of the change yet,
 * so it is read again, once, and the move is computed again on the new view.
 * `File.Exists` is passed in as `fileExists`, the directory's enumeration as `disk`.
 */
module Navigation {
  import opened Wrappers
  import Text
  import Collation
  import Utils
  import FilenameUtils
  import Lists
  import Snapshot

  // ---------------------------------------------------------------------------------
  // The filtered view

  /** The test `GetList` applies to each file: a marked file is left out when marked files
      are excluded and not asked for, and a file needs one of the allowed extensions. */
  function Include(path: string, extensionsAllowed: seq<string>, excludeMarked: bool, includeMarked: bool): (r: bool)
    ensures r ==> FilenameUtils.ExtensionListed(path, extensionsAllowed)
    ensures excludeMarked && !includeMarked && Text.Contains(path, FilenameUtils.MarkerString) ==> !r
    ensures !excludeMarked || includeMarked ==> (r <==> FilenameUtils.ExtensionListed(path, extensionsAllowed))
    ensures !Text.Contains(path, FilenameUtils.MarkerString) ==>
      (r <==> FilenameUtils.ExtensionListed(path, extensionsAllowed))
  {
    if !includeMarked && excludeMarked && Text.Contains(path, FilenameUtils.MarkerString) then false
    else FilenameUtils.ExtensionListed(path, extensionsAllowed)
  }

  /** `GetList`'s result: the files of the snapshot that pass the test, in snapshot order. */
  function View(entries: seq<string>, extensionsAllowed: seq<string>, excludeMarked: bool, includeMarked: bool): (r: seq<string>)
    ensures |r| <= |entries|
    ensures forall f :: f in r ==> f in entries && Include(f, extensionsAllowed, excludeMarked, includeMarked)
  {
    Lists.FilterKept(p => Include(p, extensionsAllowed, excludeMarked, includeMarked), entries);
    Lists.Filter(p => Include(p, extensionsAllowed, excludeMarked, includeMarked), entries)
  }

  /** The view holds exactly the files of the snapshot that pass the test. */
  lemma ViewMembers(entries: seq<string>, extensionsAllowed: seq<string>, excludeMarked: bool, includeMarked: bool, f: string)
    ensures f in View(entries, extensionsAllowed, excludeMarked, includeMarked) <==>
      f in entries && Include(f, extensionsAllowed, excludeMarked, includeMarked)
  {
    Lists.FilterMembers(p => Include(p, extensionsAllowed, excludeMarked, includeMarked), entries, f);
  }

  /** The view keeps the snapshot's order, so a sorted snapshot gives a sorted view. */
  lemma ViewSorted(entries: seq<string>, extensionsAllowed: seq<string>, excludeMarked: bool, includeMarked: bool)
    ensures Collation.Sorted(entries) ==> Collation.Sorted(View(entries, extensionsAllowed, excludeMarked, includeMarked))
    ensures Collation.StrictlySorted(entries) ==>
      Collation.StrictlySorted(View(entries, extensionsAllowed, excludeMarked, includeMarked))
  {
    var keep := p => Include(p, extensionsAllowed, excludeMarked, includeMarked);
    if Collation.Sorted(entries) { FilterSorted(keep, entries); }
    if Collation.StrictlySorted(entries) { FilterStrictlySorted(keep, entries); }
  }

  lemma {:induction false} FilterSorted(keep: string -> bool, s: seq<string>)
    requires Collation.Sorted(s)
    ensures Collation.Sorted(Lists.Filter(keep, s))
  {
    if s != [] {
      var init, last := s[..|s| - 1], s[|s| - 1];
      FilterSorted(keep, init);
      if keep(last) {
        var f := Lists.Filter(keep, init);
        forall k | 0 <= k < |f| ensures Collation.AtMost(f[k], last) {
          Lists.FilterMembers(keep, init, f[k]);
          var m :| 0 <= m < |init| && init[m] == f[k];
          assert s[m] == f[k];
        }
        SortedSnoc(f, last);
      }
    }
  }

  lemma {:induction false} FilterStrictlySorted(keep: string -> bool, s: seq<string>)
    requires Collation.StrictlySorted(s)
    ensures Collation.StrictlySorted(Lists.Filter(keep, s))
  {
    if s != [] {
      var init, last := s[..|s| - 1], s[|s| - 1];
      FilterStrictlySorted(keep, init);
      if keep(last) {
        var f := Lists.Filter(keep, init);
        forall k | 0 <= k < |f| ensures Collation.Less(f[k], last) {
          Lists.FilterMembers(keep, init, f[k]);
          var m :| 0 <= m < |init| && init[m] == f[k];
          assert s[m] == f[k];
        }
        StrictlySortedSnoc(f, last);
      }
    }
  }

  lemma SortedSnoc(f: seq<string>, x: string)
    requires Collation.Sorted(f) && forall k :: 0 <= k < |f| ==> Collation.AtMost(f[k], x)
    ensures Collation.Sorted(f + [x])
  {
    var r := f + [x];
    forall i, j | 0 <= i < j < |r| ensures Collation.AtMost(r[i], r[j]) {
      assert r[i] == f[i];
      if j < |f| { assert r[j] == f[j]; }
    }
  }

  lemma StrictlySortedSnoc(f: seq<string>, x: string)
    requires Collation.StrictlySorted(f) && forall k :: 0 <= k < |f| ==> Collation.Less(f[k], x)
    ensures Collation.StrictlySorted(f + [x])
  {
    var r := f + [x];
    forall i, j | 0 <= i < j < |r| ensures Collation.Less(r[i], r[j]) {
      assert r[i] == f[i];
      if j < |f| { assert r[j] == f[j]; }
    }
  }

  // ---------------------------------------------------------------------------------
  // Finding a position

  /** `GetLessThanOrEqual`: a hit of the binary search, or the position just before the
      insertion point of a miss (`~index - 1`), which is `-1` when the key sorts first. */
  function GetLessThanOrEqual(list: seq<string>, search: string): (r: int)
    ensures -1 <= r < |list|
  {
    var index := Collation.BinarySearch(list, search);
    if index < 0 then -index - 2 else index
  }

  /** On a list without two entries equal under the fold, the result is the last entry at
      or below the key: every entry up to it sorts at or below the key and every entry
      after it above. */
  lemma LessThanOrEqualSplits(list: seq<string>, search: string)
    requires Collation.StrictlySorted(list)
    ensures forall i :: 0 <= i <= GetLessThanOrEqual(list, search) ==> Collation.AtMost(list[i], search)
    ensures forall i :: GetLessThanOrEqual(list, search) < i < |list| ==> Collation.Less(search, list[i])
  {
    var r := GetLessThanOrEqual(list, search);
    Collation.StrictlySortedIsSorted(list);
    var index := SearchReports(list, search);
    forall i | 0 <= i <= r ensures Collation.AtMost(list[i], search) {
      Collation.Trichotomy(list[i], search);
      if index >= 0 && i < r { SameRight(list[i], list[r], search); }
    }
    forall i | r < i < |list| ensures Collation.Less(search, list[i]) {
      if index >= 0 { SameLeft(search, list[r], list[i]); }
    }
  }

  /** When an entry equals the key under the fold, the result is its index. */
  lemma LessThanOrEqualExact(list: seq<string>, search: string, k: int)
    requires Collation.StrictlySorted(list) && 0 <= k < |list| && Collation.Same(list[k], search)
    ensures GetLessThanOrEqual(list, search) == k
  {
    var r := GetLessThanOrEqual(list, search);
    LessThanOrEqualSplits(list, search);
    Collation.Trichotomy(list[k], search);
    if k < r {
      AtMostNotAbove(list, search, k, r);
    }
  }

  lemma AtMostNotAbove(list: seq<string>, search: string, k: int, r: int)
    requires Collation.StrictlySorted(list) && 0 <= k < r < |list| && Collation.Same(list[k], search)
    ensures !Collation.AtMost(list[r], search)
  {
    assert Collation.Less(list[k], list[r]);
    SameLeft(search, list[k], list[r]);
  }

  /** The empty key, which a null cursor is looked up as, sorts before every non-empty
      entry, so the result is `-1`. */
  lemma EmptyKeyFirst(list: seq<string>)
    requires Collation.Sorted(list)
    requires forall i :: 0 <= i < |list| ==> list[i] != ""
    ensures GetLessThanOrEqual(list, "") == -1
  {
    var index := SearchReports(list, "");
    if index < 0 && -index - 1 > 0 {
      NothingBelowEmpty(list[0]);
    }
  }

  lemma NothingBelowEmpty(a: string)
    ensures !Collation.Less(a, "")
  {
    assert Collation.Fold("") == "";
  }

  /** What the binary search over the whole list reports. */
  lemma SearchReports(list: seq<string>, search: string) returns (index: int)
    requires Collation.Sorted(list)
    ensures index == Collation.BinarySearch(list, search)
    ensures Collation.Reports(list, search, index)
    ensures GetLessThanOrEqual(list, search) == if index < 0 then -index - 2 else index
  {
    index := Collation.BinarySearch(list, search);
    Collation.SearchCorrect(list, search, 0, |list| - 1);
  }

  lemma SameRight(a: string, b: string, c: string)
    requires Collation.Less(a, b) && Collation.Same(b, c)
    ensures Collation.Less(a, c)
  {
  }

  lemma SameLeft(a: string, b: string, c: string)
    requires Collation.Same(a, b) && Collation.Less(b, c)
    ensures Collation.Less(a, c)
  {
  }

  // ---------------------------------------------------------------------------------
  // Moves

  /** The function each move hands to `TryAgainIfFileIsMissing`: `GoNextOrPrev` with the
      number of neighbours wanted, `GoFirst`, `GoLast`, and the lookup of `TrySetPath`. */
  datatype Step = Next(wanted: nat) | Prev(wanted: nat) | First | Last | Nearest

  /** The number of neighbours a move writes. */
  function Wanted(step: Step): nat {
    if step.Next? || step.Prev? then step.wanted else 0
  }

  /** `Current ?? ""`: a null cursor is looked up as the empty string. */
  function Key(current: Option<string>): string {
    if current.Some? then current.value else ""
  }

  /** The index "previous" starts from: the position at or before the cursor, moved down
      one when the entry there is the cursor itself, compared case-sensitively. */
  function PrevIndex(view: seq<string>, current: Option<string>): (r: int)
    ensures -1 <= r < |view|
  {
    var index := GetLessThanOrEqual(view, Key(current));
    if index > 0 && current == Some(view[index]) then index - 1 else index
  }

  /** The file a move goes to on a non-empty view; it is always an entry of the view. */
  function Target(step: Step, current: Option<string>, view: seq<string>): (r: string)
    requires |view| > 0
    ensures r in view
  {
    match step
    case Next(_) => Utils.ArrayAt(view, GetLessThanOrEqual(view, Key(current)) + 1)
    case Prev(_) => Utils.ArrayAt(view, PrevIndex(view, current))
    case First => view[0]
    case Last => view[|view| - 1]
    case Nearest => Utils.ArrayAt(view, GetLessThanOrEqual(view, Key(current)))
  }

  /** The `n` entries after position `index + 1` (`forward`) or before position `index`,
      clamped into the view. */
  function Around(view: seq<string>, index: int, n: nat, forward: bool): (ns: seq<string>)
    requires |view| > 0
    ensures |ns| == n
    ensures forall i :: 0 <= i < n ==> ns[i] == Utils.ArrayAt(view, if forward then index + i + 2 else index - i - 1)
    ensures forall i :: 0 <= i < n ==> ns[i] in view
  {
    seq(n, i requires 0 <= i < n => Utils.ArrayAt(view, if forward then index + i + 2 else index - i - 1))
  }

  /** The neighbours a move writes: after the target for "next", before it for
      "previous"; none for the other moves. */
  function Neighbors(step: Step, current: Option<string>, view: seq<string>): (ns: seq<string>)
    requires |view| > 0
    ensures |ns| == Wanted(step)
    ensures forall i :: 0 <= i < |ns| ==> ns[i] in view
  {
    match step
    case Next(n) => Around(view, GetLessThanOrEqual(view, Key(current)), n, true)
    case Prev(n) => Around(view, PrevIndex(view, current), n, false)
    case _ => []
  }

  /** A buffer with its first `|ns|` places overwritten by `ns`. */
  function Written(buffer: seq<string>, ns: seq<string>): (r: seq<string>)
    requires |ns| <= |buffer|
    ensures |r| == |buffer| && r[..|ns|] == ns && r[|ns|..] == buffer[|ns|..]
  {
    ns + buffer[|ns|..]
  }

  /** From entry `k` of a view without two entries equal under the fold, "next" goes to
      entry `k + 1`, or stays on the last entry, and writes the entries after that. */
  lemma NextFrom(view: seq<string>, k: int, n: nat)
    requires Collation.StrictlySorted(view) && 0 <= k < |view|
    ensures Target(Next(n), Some(view[k]), view) == view[if k + 1 < |view| then k + 1 else |view| - 1]
    ensures forall i :: 0 <= i < n ==> Neighbors(Next(n), Some(view[k]), view)[i] == Utils.ArrayAt(view, k + i + 2)
  {
    Collation.Trichotomy(view[k], view[k]);
    LessThanOrEqualExact(view, view[k], k);
  }

  /** From entry `k`, "previous" goes to entry `k - 1`, or stays on the first entry, and
      writes the entries before that. */
  lemma PrevFrom(view: seq<string>, k: int, n: nat)
    requires Collation.StrictlySorted(view) && 0 <= k < |view|
    ensures Target(Prev(n), Some(view[k]), view) == view[if k > 0 then k - 1 else 0]
    ensures forall i :: 0 <= i < n ==>
      Neighbors(Prev(n), Some(view[k]), view)[i] == Utils.ArrayAt(view, (if k > 0 then k - 1 else 0) - i - 1)
  {
    Collation.Trichotomy(view[k], view[k]);
    LessThanOrEqualExact(view, view[k], k);
  }

  /** A cursor on an entry stays there when it is looked up again. */
  lemma NearestFrom(view: seq<string>, k: int)
    requires Collation.StrictlySorted(view) && 0 <= k < |view|
    ensures Target(Nearest, Some(view[k]), view) == view[k]
  {
    Collation.Trichotomy(view[k], view[k]);
    LessThanOrEqualExact(view, view[k], k);
  }

  /** "Next" and then "previous" come back to the entry they started from, unless it is
      the last entry. */
  lemma NextThenPrev(view: seq<string>, k: int, n: nat, m: nat)
    requires Collation.StrictlySorted(view) && 0 <= k < |view| - 1
    ensures Target(Prev(m), Some(Target(Next(n), Some(view[k]), view)), view) == view[k]
  {
    NextFrom(view, k, n);
    PrevFrom(view, k + 1, m);
  }

  /** "Previous" and then "next" come back to the entry they started from, unless it is
      the first entry. */
  lemma PrevThenNext(view: seq<string>, k: int, n: nat, m: nat)
    requires Collation.StrictlySorted(view) && 0 < k < |view|
    ensures Target(Next(n), Some(Target(Prev(m), Some(view[k]), view)), view) == view[k]
  {
    PrevFrom(view, k, m);
    NextFrom(view, k - 1, n);
  }

  /** A null cursor makes "next", "previous" and the lookup all go to the first entry,
      since no file name is empty. */
  lemma NullCursorFirst(view: seq<string>, step: Step)
    requires Collation.Sorted(view) && |view| > 0
    requires forall i :: 0 <= i < |view| ==> view[i] != ""
    requires step.Next? || step.Prev? || step.Nearest?
    ensures Target(step, None, view) == view[0]
  {
    EmptyKeyFirst(view);
  }

  /** "Previous" from a cursor that equals entry `k` only up to case stays on entry `k`:
      the lookup ignores case but the test that moves back does not. */
  lemma PrevCaseMismatch(view: seq<string>, k: int, current: string, n: nat)
    requires Collation.StrictlySorted(view) && 0 < k < |view|
    requires Collation.Same(current, view[k]) && current != view[k]
    ensures Target(Prev(n), Some(current), view) == view[k]
  {
    LessThanOrEqualExact(view, current, k);
  }

  /** The lookup of `TrySetPath` goes to the last entry at or below the path, or to the
      first entry when the path sorts before all of them. */
  lemma NearestIsAtOrBelow(view: seq<string>, path: string)
    requires Collation.StrictlySorted(view) && |view| > 0
    ensures var r := Target(Nearest, Some(path), view);
      (Collation.AtMost(view[0], path) ==>
        Collation.AtMost(r, path) &&
        forall i :: 0 <= i < |view| && Collation.AtMost(view[i], path) ==> Collation.AtMost(view[i], r)) &&
      (!Collation.AtMost(view[0], path) ==> r == view[0])
  {
    var k := GetLessThanOrEqual(view, path);
    LessThanOrEqualSplits(view, path);
    if Collation.AtMost(view[0], path) {
      assert k >= 0;
      forall i | 0 <= i < |view| && Collation.AtMost(view[i], path) ensures Collation.AtMost(view[i], view[k]) {
        if i < k { Collation.StrictlySortedIsSorted(view); }
        else if i == k { Collation.Trichotomy(view[i], view[i]); }
      }
    }
  }

  // ---------------------------------------------------------------------------------
  // The retry protocol

  /** The state a navigation works on: its snapshot and its cursor (`None` for null). */
  datatype Nav = Nav(cache: Snapshot.Cache, current: Option<string>)

  /** What `TryAgainIfFileIsMissing` does: the new state, the neighbours written into the
      caller's buffer (`None` when the buffer is not touched), and how many times the
      snapshot was read again on purpose. */
  datatype Outcome = Outcome(nav: Nav, written: Option<seq<string>>, refreshes: nat)

  /** What the retry protocol promises. At most one refresh, made exactly when the first
      view is not empty and the move's target on it does not exist; without a refresh the
      snapshot is as the first `GetList` left it, with one it is the disk's files read
      again. The buffer is left alone exactly when the first view is empty. The cursor is
      null exactly when the final view is empty, and otherwise one of its entries, which
      exists on disk unless it comes from the retry. */
  predicate RetryLaws(nav: Nav, extensionsAllowed: seq<string>, excludeMarked: bool, step: Step,
                      disk: seq<string>, fileExists: string -> bool, o: Outcome)
  {
    var first := Snapshot.Fetched(nav.cache, false, disk);
    var v := View(first.list, extensionsAllowed, excludeMarked, false);
    var w := View(o.nav.cache.list, extensionsAllowed, excludeMarked, false);
    o.refreshes <= 1 &&
    (o.refreshes == 1 <==> v != [] && !fileExists(Target(step, nav.current, v))) &&
    (o.refreshes == 0 ==> o.nav.cache == first) &&
    (o.refreshes == 1 ==> o.nav.cache == Snapshot.Fetched(nav.cache, true, disk)) &&
    (o.written.None? <==> v == []) &&
    (o.nav.current.None? <==> w == []) &&
    (o.nav.current.Some? ==> o.nav.current.value in w) &&
    (o.refreshes == 0 && o.nav.current.Some? ==> fileExists(o.nav.current.value))
  }

  /** `TryAgainIfFileIsMissing` for one move. An empty view clears the cursor. Otherwise
      the move's target is kept when it exists; when it does not, the snapshot is read
      again, once, and the move is computed again from the old cursor, on the new view,
      without checking the result. */
  function Retried(nav: Nav, extensionsAllowed: seq<string>, excludeMarked: bool, step: Step,
                   disk: seq<string>, fileExists: string -> bool): (o: Outcome)
    ensures RetryLaws(nav, extensionsAllowed, excludeMarked, step, disk, fileExists, o)
    ensures o.written.Some? ==> |o.written.value| == Wanted(step)
  {
    var c1 := Snapshot.Fetched(nav.cache, false, disk);
    var v1 := View(c1.list, extensionsAllowed, excludeMarked, false);
    if v1 == [] then Outcome(Nav(c1, None), None, 0)
    else
      var first := Target(step, nav.current, v1);
      if !fileExists(first) then
        var c2 := Snapshot.Fetched(c1, true, disk);
        var v2 := View(c2.list, extensionsAllowed, excludeMarked, false);
        if v2 == [] then Outcome(Nav(c2, None), Some(Neighbors(step, nav.current, v1)), 1)
        else Outcome(Nav(c2, Some(Target(step, nav.current, v2))), Some(Neighbors(step, nav.current, v2)), 1)
      else Outcome(Nav(c1, Some(first)), Some(Neighbors(step, nav.current, v1)), 0)
  }

  /** The caller's buffer after a move. */
  function Apply(buffer: seq<string>, written: Option<seq<string>>): seq<string>
    requires written.Some? ==> |written.value| <= |buffer|
  {
    if written.Some? then Written(buffer, written.value) else buffer
  }

  /** On a clean snapshot whose view is not empty, a move to a file that exists is the move
      on that view, with the snapshot untouched: the movement lemmas above then tell where
      the cursor goes. */
  lemma RetriedStable(nav: Nav, extensionsAllowed: seq<string>, excludeMarked: bool, step: Step,
                      disk: seq<string>, fileExists: string -> bool)
    requires !nav.cache.dirty
    requires var v := View(nav.cache.list, extensionsAllowed, excludeMarked, false);
      v != [] && fileExists(Target(step, nav.current, v))
    ensures var v := View(nav.cache.list, extensionsAllowed, excludeMarked, false);
      Retried(nav, extensionsAllowed, excludeMarked, step, disk, fileExists) ==
        Outcome(Nav(nav.cache, Some(Target(step, nav.current, v))), Some(Neighbors(step, nav.current, v)), 0)
  {
  }

  /** A target that has gone makes the cursor the move computed on the disk's files, read
      again and sorted. */
  lemma RetriedAfterRefresh(nav: Nav, extensionsAllowed: seq<string>, excludeMarked: bool, step: Step,
                            disk: seq<string>, fileExists: string -> bool)
    requires var v := View(Snapshot.Fetched(nav.cache, false, disk).list, extensionsAllowed, excludeMarked, false);
      v != [] && !fileExists(Target(step, nav.current, v))
    ensures var o := Retried(nav, extensionsAllowed, excludeMarked, step, disk, fileExists);
      var v := View(Collation.SortIgnoreCase(disk), extensionsAllowed, excludeMarked, false);
      o.refreshes == 1 && !o.nav.cache.dirty && o.nav.cache.list == Collation.SortIgnoreCase(disk) &&
      o.nav.current == (if v == [] then None else Some(Target(step, nav.current, v)))
  {
  }

  // ---------------------------------------------------------------------------------
  // The class

  class FileListNavigation {
    const extensionsAllowed: seq<string>
    const excludeMarked: bool
    const baseDirectory: string
    var list: Snapshot.FileListAutoUpdated
    var current: Option<string>

    ghost predicate Valid()
      reads this, list
    {
      list.Valid()
    }

    function Model(): Nav
      reads this, list
    {
      Nav(list.Model(), current)
    }

    /** A new navigation over a fresh snapshot, with the cursor set to `sCurrent` and
        looked up. */
    constructor (baseDir: string, extensionsAllowed: seq<string>, recurse: bool, excludeMarked: bool,
                 sCurrent: string, disk: seq<string>, fileExists: string -> bool)
      ensures Valid() && fresh(list) && list.baseDir == baseDir && list.recurse == recurse
      ensures baseDirectory == baseDir
      ensures this.extensionsAllowed == extensionsAllowed && this.excludeMarked == excludeMarked
      ensures Model() ==
        Retried(Nav(Snapshot.Fresh(), Some(sCurrent)), extensionsAllowed, excludeMarked, Nearest, disk, fileExists).nav
    {
      baseDirectory := baseDir;
      this.extensionsAllowed := extensionsAllowed;
      list := new Snapshot.FileListAutoUpdated(baseDir, recurse);
      this.excludeMarked := excludeMarked;
      current := None;
      new;
      TrySetPath(sCurrent, true, disk, fileExists);
    }

    /** `Refresh`: a new snapshot of the same directory, and the cursor looked up from
        the empty path. */
    method Refresh(disk: seq<string>, fileExists: string -> bool)
      requires Valid()
      modifies this
      ensures Valid() && fresh(list) && list.baseDir == baseDirectory && list.recurse == old(list.recurse)
      ensures Model() ==
        Retried(Nav(Snapshot.Fresh(), Some("")), extensionsAllowed, excludeMarked, Nearest, disk, fileExists).nav
    {
      list := new Snapshot.FileListAutoUpdated(baseDirectory, list.recurse);
      TrySetPath("", true, disk, fileExists);
    }

    /** `NotifyFileChanges`: the snapshot is marked dirty and nothing else changes. */
    method NotifyFileChanges()
      requires Valid()
      modifies list
      ensures Valid() && Model() == Nav(Snapshot.MarkedDirty(old(list.Model())), current)
    {
      list.Dirty();
    }

    /** `GetList`: the view of the snapshot, which is read again when it is dirty or a
        refresh is forced. */
    method GetList(forceRefresh: bool, includeMarked: bool, disk: seq<string>) returns (r: seq<string>)
      requires Valid()
      modifies list
      ensures Valid() && list.Model() == Snapshot.Fetched(old(list.Model()), forceRefresh, disk)
      ensures r == View(list.list, extensionsAllowed, excludeMarked, includeMarked)
    {
      var entries := list.GetList(forceRefresh, disk);
      r := Lists.Filter(p => Include(p, extensionsAllowed, excludeMarked, includeMarked), entries);
    }

    /** The function a move hands to `TryAgainIfFileIsMissing`, run on a non-empty view:
        it writes the neighbours into the caller's buffer and returns the target. */
    method Locate(step: Step, view: seq<string>, neighbors: array?<string>) returns (r: string)
      requires |view| > 0
      requires Wanted(step) > 0 ==> neighbors != null && Wanted(step) <= neighbors.Length
      modifies neighbors
      ensures r == Target(step, current, view)
      ensures neighbors != null ==> neighbors[..] == Written(old(neighbors[..]), Neighbors(step, current, view))
    {
      match step
      case Next(n) =>
        var index := GetLessThanOrEqual(view, Key(current));
        FillNeighbors(view, index, n, true, neighbors);
        r := Utils.ArrayAt(view, index + 1);
      case Prev(n) =>
        var index := GetLessThanOrEqual(view, Key(current));
        if index > 0 && current == Some(view[index]) {
          index := index - 1;
        }
        FillNeighbors(view, index, n, false, neighbors);
        r := Utils.ArrayAt(view, index);
      case First =>
        r := view[0];
      case Last =>
        r := view[|view| - 1];
      case Nearest =>
        var index := GetLessThanOrEqual(view, Key(current));
        r := Utils.ArrayAt(view, index);
    }

    /** The loops of `GoNextOrPrev` that write the neighbours into the caller's buffer. */
    static method FillNeighbors(view: seq<string>, index: int, n: nat, forward: bool, neighbors: array?<string>)
      requires |view| > 0
      requires n > 0 ==> neighbors != null && n <= neighbors.Length
      modifies neighbors
      ensures neighbors != null ==> neighbors[..] == Written(old(neighbors[..]), Around(view, index, n, forward))
    {
      if n > 0 {
        for i := 0 to n
          invariant neighbors[..i] == Around(view, index, n, forward)[..i]
          invariant neighbors[i..] == old(neighbors[i..])
        {
          if forward {
            neighbors[i] := Utils.ArrayAt(view, index + i + 2);
          } else {
            neighbors[i] := Utils.ArrayAt(view, index - i - 1);
          }
        }
      }
    }

    /** `TryAgainIfFileIsMissing`. */
    method TryAgainIfFileIsMissing(step: Step, neighbors: array?<string>, disk: seq<string>, fileExists: string -> bool)
      requires Valid()
      requires Wanted(step) > 0 ==> neighbors != null && Wanted(step) <= neighbors.Length
      modifies this, list, neighbors
      ensures Valid() && list == old(list)
      ensures var o := Retried(old(Model()), extensionsAllowed, excludeMarked, step, disk, fileExists);
        Model() == o.nav &&
        (neighbors != null ==> neighbors[..] == Apply(old(neighbors[..]), o.written))
    {
      var view := GetList(false, false, disk);
      if |view| == 0 {
        current := None;
        return;
      }
      var firstTry := Locate(step, view, neighbors);
      if !fileExists(firstTry) {
        view := GetList(true, false, disk);
        if |view| == 0 {
          current := None;
          return;
        }
        var secondTry := Locate(step, view, neighbors);
        current := Some(secondTry);
      } else {
        current := Some(firstTry);
      }
    }

    /** `GoNextOrPrev`. */
    method GoNextOrPrev(isNext: bool, neighbors: array?<string>, retrieveNeighbors: nat,
                        disk: seq<string>, fileExists: string -> bool)
      requires Valid()
      requires retrieveNeighbors > 0 ==> neighbors != null && retrieveNeighbors <= neighbors.Length
      modifies this, list, neighbors
      ensures Valid() && list == old(list)
      ensures var step := if isNext then Next(retrieveNeighbors) else Prev(retrieveNeighbors);
        var o := Retried(old(Model()), extensionsAllowed, excludeMarked, step, disk, fileExists);
        Model() == o.nav &&
        (neighbors != null ==> neighbors[..] == Apply(old(neighbors[..]), o.written))
    {
      var step := if isNext then Next(retrieveNeighbors) else Prev(retrieveNeighbors);
      TryAgainIfFileIsMissing(step, neighbors, disk, fileExists);
    }

    /** `GoFirst`. */
    method GoFirst(disk: seq<string>, fileExists: string -> bool)
      requires Valid()
      modifies this, list
      ensures Valid() && list == old(list)
      ensures Model() == Retried(old(Model()), extensionsAllowed, excludeMarked, First, disk, fileExists).nav
    {
      TryAgainIfFileIsMissing(First, null, disk, fileExists);
    }

    /** `GoLast`. */
    method GoLast(disk: seq<string>, fileExists: string -> bool)
      requires Valid()
      modifies this, list
      ensures Valid() && list == old(list)
      ensures Model() == Retried(old(Model()), extensionsAllowed, excludeMarked, Last, disk, fileExists).nav
    {
      TryAgainIfFileIsMissing(Last, null, disk, fileExists);
    }

    /** `TrySetPath`: the cursor is set to the path and, when asked to verify, looked up
        in the view. */
    method TrySetPath(path: string, verify: bool, disk: seq<string>, fileExists: string -> bool)
      requires Valid()
      modifies this, list
      ensures Valid() && list == old(list)
      ensures verify ==>
        Model() == Retried(Nav(old(list.Model()), Some(path)), extensionsAllowed, excludeMarked, Nearest, disk, fileExists).nav
      ensures !verify ==> Model() == Nav(old(list.Model()), Some(path))
    {
      current := Some(path);
      if verify {
        TryAgainIfFileIsMissing(Nearest, null, disk, fileExists);
      }
    }
  }
}
