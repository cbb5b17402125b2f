/**
 * `FindSimilarFilenames`: recognising the files that a conversion made from one
 * picture, such as `example.png90.jpg` made from `example.png` at quality 90, and
 * collecting the other files of such a group.
 */
module FindSimilarFilenames {
  import opened Wrappers
  import Text
  import Paths
  import Utils
  import FilenameUtils
  import Lists

  /** The type an extension names: the extension with its `.` removed (`.jpg` names
      `jpg`). */
  function TypeOf(extension: string): string {
    Text.Replace(extension, ".", "")
  }

  /** Every extension names a non-empty type: `Replace` with an empty pattern throws. */
  predicate ValidTypes(extensions: seq<string>) {
    forall i :: 0 <= i < |extensions| ==> TypeOf(extensions[i]) != ""
  }

  /** A middle part that starts with the type and is a non-empty run of digits once every
      occurrence of the type is removed, as `png90`, and also `png9png`, are for `png`. */
  predicate ConversionSuffix(middle: string, fileType: string)
    requires fileType != ""
  {
    Text.StartsWith(middle, fileType) && Utils.AllDigits(Text.Replace(middle, fileType, ""))
  }

  predicate HasConversionSuffix(middle: string, extensions: seq<string>)
    requires ValidTypes(extensions)
  {
    exists i :: 0 <= i < |extensions| && ConversionSuffix(middle, TypeOf(extensions[i]))
  }

  /** `List.RemoveAt`. */
  function RemoveAt(parts: seq<string>, k: nat): (r: seq<string>)
    requires k < |parts|
    ensures |r| == |parts| - 1
    ensures forall i :: 0 <= i < |r| ==> r[i] == parts[if i < k then i else i + 1]
  {
    parts[..k] + parts[k + 1..]
  }

  /** What `FindPathWithSuffixRemoved` computes: for a file name of at least three
      `.`-separated parts whose next-to-last part, lower-cased, is a conversion suffix
      of one of the extensions, the path with that part removed, in the same directory and
      with the same extension. */
  function PathWithSuffixRemoved(path: string, extensions: seq<string>): (r: Option<string>)
    requires ValidTypes(extensions)
    ensures r.Some? ==> Paths.GetDirectoryName(r.value) == Paths.GetDirectoryName(path)
    ensures r.Some? ==> Paths.GetExtension(r.value) == Paths.GetExtension(path)
    ensures r.Some? ==> |Text.Split(Paths.GetFileName(path), ".")| > 2
  {
    var name := Paths.GetFileName(path);
    var parts := Text.Split(name, ".");
    if |parts| > 2 && HasConversionSuffix(Text.Lower(parts[|parts| - 2]), extensions) then
      PartRemoved(Paths.GetDirectoryName(path), name, parts);
      Some(Paths.GetDirectoryName(path) + [Paths.Separator] +
           Text.Join(RemoveAt(parts, |parts| - 2), "."))
    else None
  }

  /** `FindSimilarFilenames.FindPathWithSuffixRemoved`: the extensions are tried in
      order and the first that matches ends the search. */
  method FindPathWithSuffixRemoved(path: string, extensions: seq<string>)
      returns (found: bool, pathWithSuffixRemoved: Option<string>)
    requires ValidTypes(extensions)
    ensures pathWithSuffixRemoved == PathWithSuffixRemoved(path, extensions)
    ensures found == pathWithSuffixRemoved.Some?
  {
    pathWithSuffixRemoved := None;
    found := false;
    var filenameParts := Text.Split(Paths.GetFileName(path), ".");
    if |filenameParts| > 2 {
      var middle := Text.Lower(filenameParts[|filenameParts| - 2]);
      var i := 0;
      while i < |extensions|
        invariant 0 <= i <= |extensions| && !found
        invariant forall j :: 0 <= j < i ==> !ConversionSuffix(middle, TypeOf(extensions[j]))
      {
        var fileType := TypeOf(extensions[i]);
        if Text.StartsWith(middle, fileType) {
          var digits := Utils.IsDigits(Text.Replace(middle, fileType, ""));
          if digits {
            found := true;
            break;
          }
        }
        i := i + 1;
      }
      if found {
        var list := RemoveAt(filenameParts, |filenameParts| - 2);
        pathWithSuffixRemoved := Some(Paths.GetDirectoryName(path) + [Paths.Separator] +
          Text.Join(list, "."));
      }
    }
  }

  /** Removing a part other than the last from the `.`-parts of a file name, and putting
      the name after a directory, keeps that directory and the name's extension. */
  lemma PartRemoved(dir: string, name: string, parts: seq<string>)
    requires Paths.Separator !in name && parts == Text.Split(name, ".") && |parts| > 2
    ensures var q := dir + [Paths.Separator] + Text.Join(RemoveAt(parts, |parts| - 2), ".");
      Paths.GetDirectoryName(q) == dir &&
      Paths.Extension(Paths.GetFileName(q)) == Paths.Extension(name)
  {
    var rest := RemoveAt(parts, |parts| - 2);
    PiecesFree(name);
    RemovedFree(parts, |parts| - 2);
    Text.JoinFree(rest, ".", Paths.Separator);
    Paths.NameAfterDirectory(dir, true, Text.Join(rest, "."));
    ExtensionOfJoin(parts);
    ExtensionOfJoin(rest);
    Text.JoinSplit(name, ".");
  }

  /** The `.`-parts of a file name hold neither `.` nor a separator. */
  lemma PiecesFree(name: string)
    requires Paths.Separator !in name
    ensures forall k :: 0 <= k < |Text.Split(name, ".")| ==>
      '.' !in Text.Split(name, ".")[k] && Paths.Separator !in Text.Split(name, ".")[k]
  {
    var parts := Text.Split(name, ".");
    Text.JoinSplit(name, ".");
    Text.JoinedFree(parts, ".", Paths.Separator);
    Text.SplitPiecesFree(name, ".");
    forall k | 0 <= k < |parts| ensures '.' !in parts[k] {
      Text.ContainsChar(parts[k], '.');
    }
  }

  /** Removing a part keeps the last one and adds no character to any part. */
  lemma RemovedFree(parts: seq<string>, k: nat)
    requires k + 1 < |parts|
    requires forall i :: 0 <= i < |parts| ==> '.' !in parts[i] && Paths.Separator !in parts[i]
    ensures var r := RemoveAt(parts, k);
      r[|r| - 1] == parts[|parts| - 1] &&
      forall i :: 0 <= i < |r| ==> '.' !in r[i] && Paths.Separator !in r[i]
  {
  }

  /** The extension of a `.`-join of at least two parts without `.` comes from the last
      part. */
  lemma ExtensionOfJoin(parts: seq<string>)
    requires |parts| >= 2 && forall k :: 0 <= k < |parts| ==> '.' !in parts[k]
    ensures Paths.Extension(Text.Join(parts, ".")) ==
      if parts[|parts| - 1] == "" then "" else "." + parts[|parts| - 1]
  {
    var last := parts[|parts| - 1];
    var init := Text.Join(parts[..|parts| - 1], ".");
    Text.JoinSnoc(parts, ".");
    if last != "" {
      assert ("." + last)[1..] == last;
      Paths.LastDotOfExtension(init, "." + last);
      Text.Associative(init, ".", last);
    } else {
      assert Text.Join(parts, ".") == init + ".";
    }
  }

  /** The example of the source's comment: `dir\a.m.b`, whose middle part `m` is, up to
      case, a listed type followed by digits, loses that part. */
  lemma SuffixRemovedExample(dir: string, a: string, m: string, b: string,
                             extensions: seq<string>, i: nat, digits: string)
    requires ValidTypes(extensions) && i < |extensions|
    requires '.' !in a && '.' !in m && '.' !in b
    requires Paths.Separator !in a && Paths.Separator !in m && Paths.Separator !in b
    requires Text.Lower(m) == TypeOf(extensions[i]) + digits && Utils.AllDigits(digits)
    requires !Text.Contains(digits, TypeOf(extensions[i]))
    ensures PathWithSuffixRemoved(dir + [Paths.Separator] + (a + "." + m + "." + b), extensions) ==
      Some(dir + [Paths.Separator] + (a + "." + b))
  {
    var name := a + "." + m + "." + b;
    assert Paths.Separator !in name;
    Paths.NameAfterDirectory(dir, true, name);
    ThreeParts(a, m, b);
    SuffixMatches(m, extensions, i, digits);
    Removed(dir + [Paths.Separator] + name, extensions, dir, name, [a, m, b]);
  }

  lemma ThreeParts(a: string, m: string, b: string)
    requires '.' !in a && '.' !in m && '.' !in b
    ensures Text.Split(a + "." + m + "." + b, ".") == [a, m, b]
    ensures Text.Join(RemoveAt([a, m, b], 1), ".") == a + "." + b
  {
    SplitThree(a, m, b);
    assert RemoveAt([a, m, b], 1) == [a, b];
  }

  lemma SuffixMatches(m: string, extensions: seq<string>, i: nat, digits: string)
    requires ValidTypes(extensions) && i < |extensions|
    requires Text.Lower(m) == TypeOf(extensions[i]) + digits && Utils.AllDigits(digits)
    requires !Text.Contains(digits, TypeOf(extensions[i]))
    ensures HasConversionSuffix(Text.Lower(m), extensions)
  {
    ReplaceLeading(TypeOf(extensions[i]), digits);
    assert ConversionSuffix(Text.Lower(m), TypeOf(extensions[i]));
  }

  /** `PathWithSuffixRemoved` read off the directory, the file name and its parts. */
  lemma Removed(path: string, extensions: seq<string>, dir: string, name: string, parts: seq<string>)
    requires ValidTypes(extensions)
    requires Paths.GetFileName(path) == name && Paths.GetDirectoryName(path) == dir
    requires Text.Split(name, ".") == parts && |parts| > 2
    requires HasConversionSuffix(Text.Lower(parts[|parts| - 2]), extensions)
    ensures PathWithSuffixRemoved(path, extensions) ==
      Some(dir + [Paths.Separator] + Text.Join(RemoveAt(parts, |parts| - 2), "."))
  {
  }

  lemma SplitThree(a: string, m: string, b: string)
    requires '.' !in a && '.' !in m && '.' !in b
    ensures Text.Split(a + "." + m + "." + b, ".") == [a, m, b]
  {
    Text.Associative(a + ".", m, ".");
    Text.Associative(a + ".", m + ".", b);
    Text.SplitAfterFree(a, '.', m + "." + b);
    Text.SplitAfterFree(m, '.', b);
    Text.ContainsChar(b, '.');
    Text.SplitFree(b, ".");
  }

  /** Removing a leading type from the type followed by text that does not hold it
      leaves that text. */
  lemma ReplaceLeading(fileType: string, digits: string)
    requires fileType != "" && !Text.Contains(digits, fileType)
    ensures Text.StartsWith(fileType + digits, fileType)
    ensures Text.Replace(fileType + digits, fileType, "") == digits
  {
    assert (fileType + digits)[..|fileType|] == fileType;
    assert [] + fileType + digits == fileType + digits;
    Text.FirstOccurrence([], fileType, digits);
    Text.SplitAround([], fileType, digits);
    Text.SplitFree(digits, fileType);
    var parts := Text.Split(fileType + digits, fileType);
    assert parts == [[], digits];
    assert parts[1..] == [digits];
    assert Text.Join(parts, "") == [] + "" + digits;
  }

  // ---------------------------------------------------------------------------------
  // FindSimilarNames

  /** The path that the group is compared with: the path without its suffix, if it has
      one. */
  function BasePath(path: string, types: seq<string>): string
    requires ValidTypes(types)
  {
    match PathWithSuffixRemoved(path, types)
    case None => path
    case Some(q) => q
  }

  /** A file of the group of `path`: another file (ignoring case) that is the same as
      the base path except for the extension, either as it is or without its own
      suffix. */
  predicate Related(base: string, path: string, types: seq<string>, file: string)
    requires ValidTypes(types)
  {
    Text.Upper(file) != Text.Upper(path) &&
    (FilenameUtils.SameExceptExtension(base, file) ||
     (PathWithSuffixRemoved(file, types).Some? &&
      FilenameUtils.SameExceptExtension(base, PathWithSuffixRemoved(file, types).value)))
  }

  /** `FindSimilarFilenames.FindSimilarNames`: the files related to the path, in the
      order given, and the path without its suffix, if it has one. */
  method FindSimilarNames(path: string, types: seq<string>, otherFiles: seq<string>)
      returns (results: seq<string>, nameHasSuffix: bool, pathWithoutSuffix: Option<string>)
    requires ValidTypes(types)
    ensures pathWithoutSuffix == PathWithSuffixRemoved(path, types)
    ensures nameHasSuffix == pathWithoutSuffix.Some?
    ensures results == Lists.Filter(f => Related(BasePath(path, types), path, types, f), otherFiles)
  {
    nameHasSuffix, pathWithoutSuffix := FindPathWithSuffixRemoved(path, types);
    var filenameWithoutSuffix := if nameHasSuffix then pathWithoutSuffix.value else path;
    ghost var keep := f => Related(BasePath(path, types), path, types, f);
    assert filenameWithoutSuffix == BasePath(path, types);
    results := [];
    for i := 0 to |otherFiles|
      invariant results == Lists.Filter(keep, otherFiles[..i])
    {
      var otherFile := otherFiles[i];
      var same := IsInGroup(filenameWithoutSuffix, path, types, otherFile);
      assert same == keep(otherFile);
      Lists.FilterNext(keep, otherFiles, i, results, same);
      if same {
        results := results + [otherFile];
      }
    }
    assert otherFiles[..|otherFiles|] == otherFiles;
  }

  /** The test `FindSimilarNames` applies to each other file: the second comparison is
      made only when the first fails. */
  method IsInGroup(base: string, path: string, types: seq<string>, otherFile: string) returns (same: bool)
    requires ValidTypes(types)
    ensures same == Related(base, path, types, otherFile)
  {
    same := false;
    if Text.Upper(otherFile) != Text.Upper(path) {
      same := FilenameUtils.SameExceptExtension(base, otherFile);
      if !same {
        var found, nameMiddleRemoved := FindPathWithSuffixRemoved(otherFile, types);
        same := found && FilenameUtils.SameExceptExtension(base, nameMiddleRemoved.value);
      }
    }
  }

  /** The group holds exactly the related files, and never the path itself in any case. */
  lemma SimilarNamesMembers(path: string, types: seq<string>, otherFiles: seq<string>, f: string)
    requires ValidTypes(types)
    ensures var keep := g => Related(BasePath(path, types), path, types, g);
      (f in Lists.Filter(keep, otherFiles) <==> f in otherFiles && Related(BasePath(path, types), path, types, f)) &&
      (Text.Upper(f) == Text.Upper(path) ==> f !in Lists.Filter(keep, otherFiles))
  {
    Lists.FilterMembers(g => Related(BasePath(path, types), path, types, g), otherFiles, f);
  }

  /** Given `dir\a.m.b`, a conversion of `dir\a.c`, the original `dir\a.c` is in its
      group. */
  lemma OriginalIsSimilar(dir: string, a: string, m: string, b: string, c: string,
                          types: seq<string>, i: nat, digits: string, otherFiles: seq<string>)
    requires ValidTypes(types) && i < |types|
    requires '.' !in a && '.' !in m && '.' !in b && '.' !in c && b != "" && c != ""
    requires Paths.Separator !in a && Paths.Separator !in m && Paths.Separator !in b
    requires Paths.Separator !in c
    requires Text.Lower(m) == TypeOf(types[i]) + digits && Utils.AllDigits(digits)
    requires !Text.Contains(digits, TypeOf(types[i]))
    requires var path := dir + [Paths.Separator] + (a + "." + m + "." + b);
      var original := dir + [Paths.Separator] + (a + "." + c);
      original in otherFiles && Text.Upper(original) != Text.Upper(path)
    ensures var path := dir + [Paths.Separator] + (a + "." + m + "." + b);
      dir + [Paths.Separator] + (a + "." + c) in
        Lists.Filter(f => Related(BasePath(path, types), path, types, f), otherFiles)
  {
    var path := dir + [Paths.Separator] + (a + "." + m + "." + b);
    var original := dir + [Paths.Separator] + (a + "." + c);
    SuffixRemovedExample(dir, a, m, b, types, i, digits);
    var base := dir + [Paths.Separator] + (a + "." + b);
    assert BasePath(path, types) == base;
    SameRoot(dir, a, b, c);
    assert Related(base, path, types, original);
    SimilarNamesMembers(path, types, otherFiles, original);
  }
  /** Given `dir\a.m.b`, another conversion `dir\a.m2.c` of the same original is in its
      group too: the other file's own suffix is removed before the second comparison. */
  lemma SiblingIsSimilar(dir: string, a: string, m: string, b: string, m2: string, c: string,
                         types: seq<string>, i: nat, digits: string, j: nat, digits2: string,
                         otherFiles: seq<string>)
    requires ValidTypes(types) && i < |types| && j < |types|
    requires '.' !in a && '.' !in m && '.' !in b && '.' !in m2 && '.' !in c && b != "" && c != ""
    requires Paths.Separator !in a && Paths.Separator !in m && Paths.Separator !in b
    requires Paths.Separator !in m2 && Paths.Separator !in c
    requires Text.Lower(m) == TypeOf(types[i]) + digits && Utils.AllDigits(digits)
    requires !Text.Contains(digits, TypeOf(types[i]))
    requires Text.Lower(m2) == TypeOf(types[j]) + digits2 && Utils.AllDigits(digits2)
    requires !Text.Contains(digits2, TypeOf(types[j]))
    requires var path := dir + [Paths.Separator] + (a + "." + m + "." + b);
      var sibling := dir + [Paths.Separator] + (a + "." + m2 + "." + c);
      sibling in otherFiles && Text.Upper(sibling) != Text.Upper(path)
    ensures var path := dir + [Paths.Separator] + (a + "." + m + "." + b);
      dir + [Paths.Separator] + (a + "." + m2 + "." + c) in
        Lists.Filter(f => Related(BasePath(path, types), path, types, f), otherFiles)
  {
    var path := dir + [Paths.Separator] + (a + "." + m + "." + b);
    var sibling := dir + [Paths.Separator] + (a + "." + m2 + "." + c);
    SuffixRemovedExample(dir, a, m, b, types, i, digits);
    SuffixRemovedExample(dir, a, m2, c, types, j, digits2);
    var base := dir + [Paths.Separator] + (a + "." + b);
    assert BasePath(path, types) == base;
    SameRoot(dir, a, b, c);
    assert Related(base, path, types, sibling);
    SimilarNamesMembers(path, types, otherFiles, sibling);
  }

  /** A file is never in the group when its directory and base name differ, up to case,
      from those of the base path, both as it is and without its own suffix. */
  lemma UnrelatedNotSimilar(path: string, types: seq<string>, otherFiles: seq<string>, f: string)
    requires ValidTypes(types)
    requires var root := Text.Upper(FilenameUtils.RootNoExtension(BasePath(path, types)));
      Text.Upper(FilenameUtils.RootNoExtension(f)) != root &&
      (PathWithSuffixRemoved(f, types).None? ||
       Text.Upper(FilenameUtils.RootNoExtension(PathWithSuffixRemoved(f, types).value)) != root)
    ensures f !in Lists.Filter(g => Related(BasePath(path, types), path, types, g), otherFiles)
  {
    SimilarNamesMembers(path, types, otherFiles, f);
  }

  /** Two names with the same base name in the same directory differ only in the
      extension. */
  lemma SameRoot(dir: string, a: string, b: string, c: string)
    requires '.' !in a && '.' !in b && '.' !in c && b != "" && c != ""
    requires Paths.Separator !in a && Paths.Separator !in b && Paths.Separator !in c
    ensures FilenameUtils.SameExceptExtension(dir + [Paths.Separator] + (a + "." + b),
                                              dir + [Paths.Separator] + (a + "." + c))
  {
    Text.Associative(dir + [Paths.Separator], a, "." + b);
    Text.Associative(dir + [Paths.Separator], a, "." + c);
    Text.Associative(a, ".", b);
    Text.Associative(a, ".", c);
    assert ("." + b)[1..] == b && ("." + c)[1..] == c;
    assert Paths.Separator !in "." + b && Paths.Separator !in "." + c;
    Paths.BuiltPath(dir, true, a, "." + b);
    Paths.BuiltPath(dir, true, a, "." + c);
  }
}
