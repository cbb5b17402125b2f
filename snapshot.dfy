/**
 * `FileListAutoUpdated`: a sorted snapshot of the files under a directory that is read
 * again only when it has been marked dirty (by the file system watcher, or by a caller)
 * or when a refresh is forced. The enumeration of the directory is passed in as `disk`:
 * the file names it would return at the moment of the call, in any order.
 */
module Snapshot {
  import Collation

  /** The state of a snapshot: whether it must be read again, and the sorted list. */
  datatype Cache = Cache(dirty: bool, list: seq<string>)

  /** A new snapshot is dirty and empty, so the first `GetList` reads the disk. */
  function Fresh(): (c: Cache)
    ensures c.dirty && Collation.Sorted(c.list)
  {
    Cache(true, [])
  }

  /** `Dirty` and the watcher's `SetDirty`: the flag is set and nothing else changes. */
  function MarkedDirty(c: Cache): (r: Cache)
    ensures r.dirty && r.list == c.list
  {
    Cache(true, c.list)
  }

  /** `GetList`: a dirty snapshot, or any snapshot when a refresh is forced, is replaced by
      the disk's files sorted with OrdinalIgnoreCase and is clean afterwards; otherwise it
      is left as it is. The list is sorted either way. */
  function Fetched(c: Cache, forceRefresh: bool, disk: seq<string>): (r: Cache)
    ensures c.dirty || forceRefresh ==>
      !r.dirty && multiset(r.list) == multiset(disk) && Collation.Sorted(r.list) &&
      (Collation.FoldDistinct(disk) ==> Collation.StrictlySorted(r.list))
    ensures !(c.dirty || forceRefresh) ==> r == c
    ensures Collation.Sorted(c.list) ==> Collation.Sorted(r.list)
  {
    if c.dirty || forceRefresh then
      Collation.SortIgnoreCaseCorrect(disk);
      Cache(false, Collation.SortIgnoreCase(disk))
    else c
  }

  /** After one `GetList`, further calls that force nothing return the same list without
      reading the disk again, until the snapshot is marked dirty. */
  lemma FetchedAgain(c: Cache, forceRefresh: bool, disk: seq<string>, later: seq<string>)
    ensures Fetched(Fetched(c, forceRefresh, disk), false, later) == Fetched(c, forceRefresh, disk)
  {
  }

  /** A snapshot marked dirty reads the disk on its next `GetList`, whatever it held. */
  lemma DirtyThenFetched(c: Cache, disk: seq<string>)
    ensures Fetched(MarkedDirty(c), false, disk) == Fetched(c, true, disk)
  {
  }

  class FileListAutoUpdated {
    var dirty: bool
    var list: seq<string>
    const baseDir: string
    const recurse: bool

    function Model(): Cache
      reads this
    {
      Cache(dirty, list)
    }

    /** The list is kept sorted with OrdinalIgnoreCase. */
    ghost predicate Valid()
      reads this
    {
      Collation.Sorted(list)
    }

    constructor (baseDir: string, recurse: bool)
      ensures Valid() && Model() == Fresh()
      ensures this.baseDir == baseDir && this.recurse == recurse
    {
      dirty := true;
      list := [];
      this.baseDir := baseDir;
      this.recurse := recurse;
    }

    method Dirty()
      requires Valid()
      modifies this
      ensures Valid() && Model() == MarkedDirty(old(Model()))
    {
      dirty := true;
    }

    method GetList(forceRefresh: bool, disk: seq<string>) returns (r: seq<string>)
      requires Valid()
      modifies this
      ensures Valid() && Model() == Fetched(old(Model()), forceRefresh, disk)
      ensures r == list
    {
      if dirty || forceRefresh {
        list := Collation.SortIgnoreCase(disk);
        Collation.SortIgnoreCaseCorrect(disk);
        dirty := false;
      }
      r := list;
    }
  }
}
