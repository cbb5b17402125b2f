/** Filtering a sequence of strings by a predicate, keeping the order. */
module Lists {
  /** LINQ `Where`: the entries that `keep` accepts, in the order given. */
  function Filter(keep: string -> bool, files: seq<string>): (r: seq<string>)
    ensures |r| <= |files|
  {
    if files == [] then []
    else Filter(keep, files[..|files| - 1]) + if keep(files[|files| - 1]) then [files[|files| - 1]] else []
  }

  lemma FilterStep(keep: string -> bool, files: seq<string>, i: nat)
    requires i < |files|
    ensures Filter(keep, files[..i + 1]) ==
      Filter(keep, files[..i]) + if keep(files[i]) then [files[i]] else []
  {
    assert files[..i + 1][..i] == files[..i];
  }

  /** One step of a loop that builds the filter's result in `acc`. */
  lemma FilterNext(keep: string -> bool, files: seq<string>, i: nat, acc: seq<string>, take: bool)
    requires i < |files| && acc == Filter(keep, files[..i]) && take == keep(files[i])
    ensures Filter(keep, files[..i + 1]) == if take then acc + [files[i]] else acc
  {
    FilterStep(keep, files, i);
  }

  /** The result holds exactly the accepted entries among those given. */
  lemma {:induction false} FilterMembers(keep: string -> bool, files: seq<string>, f: string)
    ensures f in Filter(keep, files) <==> f in files && keep(f)
  {
    if files != [] {
      var init := files[..|files| - 1];
      FilterMembers(keep, init, f);
      assert files == init + [files[|files| - 1]];
    }
  }

  /** Everything the filter keeps was given and is accepted. */
  lemma {:induction false} FilterKept(keep: string -> bool, files: seq<string>)
    ensures forall f :: f in Filter(keep, files) ==> f in files && keep(f)
  {
    if files != [] {
      FilterKept(keep, files[..|files| - 1]);
      assert files == files[..|files| - 1] + [files[|files| - 1]];
    }
  }

  /** The filter keeps the order: the entries of a concatenation give the concatenation of
      the results. */
  lemma {:induction false} FilterAppend(keep: string -> bool, files: seq<string>, more: seq<string>)
    ensures Filter(keep, files + more) == Filter(keep, files) + Filter(keep, more)
  {
    if more == [] {
      assert files + more == files;
    } else {
      var init := more[..|more| - 1];
      FilterAppend(keep, files, init);
      assert (files + more)[..|files + more| - 1] == files + init;
    }
  }
}
