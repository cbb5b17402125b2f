/**
 * A simplified model of `System.IO.Path` for Windows paths: `\` is the only
 * directory separator, the directory is everything before the last `\`, the file
 * name everything after it, and the extension starts at the last `.` of the file name.
 */
module Paths {
  import opened Wrappers
  import Text

  const Separator: char := '\\'

  /** The index of the last occurrence of `c` in `s`. */
  function LastIndex(s: string, c: char): (r: Option<nat>)
    ensures r.Some? ==> r.value < |s| && s[r.value] == c && c !in s[r.value + 1..]
    ensures r.None? <==> c !in s
  {
    if s == [] then None
    else if s[|s| - 1] == c then Some(|s| - 1)
    else
      var r := LastIndex(s[..|s| - 1], c);
      assert s == s[..|s| - 1] + [s[|s| - 1]];
      if r.Some? then assert s[r.value + 1..] == s[..|s| - 1][r.value + 1..] + [s[|s| - 1]]; r
      else r
  }

  /** Text that has no `c` leaves the last `c` where it was. */
  lemma LastIndexAppend(x: string, y: string, c: char)
    requires c !in y
    ensures LastIndex(x + y, c) == LastIndex(x, c)
    decreases |y|
  {
    if y != [] {
      var y' := y[..|y| - 1];
      assert x + y == (x + y') + [y[|y| - 1]];
      assert (x + y)[..|x + y| - 1] == x + y';
      LastIndexAppend(x, y', c);
    } else {
      assert x + y == x;
    }
  }

  /** `Path.GetFileName`: everything after the last separator. */
  function GetFileName(p: string): (r: string)
    ensures Separator !in r
    ensures Text.EndsWith(p, r)
  {
    match LastIndex(p, Separator)
    case None => p
    case Some(i) => p[i + 1..]
  }

  /** `Path.GetDirectoryName`: everything before the last separator, or `""` when the
      path has none. */
  function GetDirectoryName(p: string): (r: string)
    ensures Text.StartsWith(p, r) && |r| < |p| + (if p == [] then 1 else 0)
    ensures Separator in p ==> p == r + [Separator] + GetFileName(p)
    ensures Separator !in p ==> r == "" && GetFileName(p) == p
  {
    match LastIndex(p, Separator)
    case None => ""
    case Some(i) => assert p == p[..i] + [Separator] + p[i + 1..]; p[..i]
  }

  /** The base name of a file name: up to its last `.`. */
  function Stem(name: string): (r: string)
    ensures Text.StartsWith(name, r)
  {
    match LastIndex(name, '.')
    case None => name
    case Some(i) => name[..i]
  }

  /** The extension of a file name: from its last `.` on, unless that is its last
      character. */
  function Extension(name: string): (r: string)
    ensures Text.EndsWith(name, r)
    ensures r != "" ==> |r| >= 2 && r[0] == '.' && '.' !in r[1..]
  {
    match LastIndex(name, '.')
    case None => ""
    case Some(i) =>
      if i == |name| - 1 then ""
      else
        assert name[i..][1..] == name[i + 1..];
        name[i..]
  }

  /** A file name that does not end with `.` is its base name followed by its extension. */
  lemma StemExtension(name: string)
    requires !Text.EndsWith(name, ".")
    ensures name == Stem(name) + Extension(name)
  {
    match LastIndex(name, '.')
    case None =>
    case Some(i) =>
      assert name[|name| - 1..] == [name[|name| - 1]];
      assert name == name[..i] + name[i..];
  }

  /** A part of a string that has no `c` has no `c` either. */
  lemma FreeSlice(s: string, c: char, i: nat, j: nat)
    requires c !in s && i <= j <= |s|
    ensures c !in s[i..j]
  {
    forall k | 0 <= k < j - i ensures s[i..j][k] != c {
      assert s[i..j][k] == s[i + k];
    }
  }

  /** `Path.GetFileNameWithoutExtension`: the file name up to its last `.`. */
  function GetFileNameWithoutExtension(p: string): (r: string)
    ensures Separator !in r
  {
    var name := GetFileName(p);
    FreeSlice(name, Separator, 0, |Stem(name)|);
    Stem(name)
  }

  /** `Path.GetExtension`: the file name from its last `.` on, or `""` when the name has
      no `.` or ends with it. A non-empty extension is a `.` followed by at least one
      character, none of them a `.` or a separator. */
  function GetExtension(p: string): (r: string)
    ensures r != "" ==> |r| >= 2 && r[0] == '.' && '.' !in r[1..]
    ensures Separator !in r
  {
    var name := GetFileName(p);
    FreeSlice(name, Separator, |name| - |Extension(name)|, |name|);
    Extension(name)
  }

  /** `Path.Combine` for a relative second part: a separator is put between the parts
      unless the first is empty or already ends with one. */
  function Combine(dir: string, name: string): (r: string)
    ensures name == "" ==> r == dir
    ensures dir == "" ==> r == name
    ensures dir != "" && name != "" ==> Text.StartsWith(r, dir) && Text.EndsWith(r, name)
  {
    if name == "" then dir
    else if dir == "" then name
    else if dir[|dir| - 1] == Separator then dir + name
    else dir + [Separator] + name
  }

  /** A path whose directory, when it has one, is non-empty and does not end with a
      separator: `Combine` puts such a path back together from its parts. */
  predicate WellFormed(p: string) {
    match LastIndex(p, Separator)
    case None => true
    case Some(i) => i > 0 && p[i - 1] != Separator
  }

  /** A well-formed path with a non-empty base name and a file name that does not end
      with `.` is its directory combined with its base name, followed by its extension. */
  lemma Decompose(p: string)
    requires WellFormed(p) && GetFileNameWithoutExtension(p) != ""
    requires !Text.EndsWith(GetFileName(p), ".")
    ensures p == Combine(GetDirectoryName(p), GetFileNameWithoutExtension(p)) + GetExtension(p)
  {
    var name, stem, ext := GetFileName(p), GetFileNameWithoutExtension(p), GetExtension(p);
    StemExtension(name);
    var dir := GetDirectoryName(p);
    CombineWithDirectory(p, stem);
    if Separator in p {
      Text.Associative(dir + [Separator], stem, ext);
    }
  }

  /** The directory of a well-formed path combines with a name by one separator. */
  lemma CombineWithDirectory(p: string, x: string)
    requires WellFormed(p) && x != ""
    ensures Combine(GetDirectoryName(p), x) ==
      if Separator in p then GetDirectoryName(p) + [Separator] + x else x
  {
    WellFormedDirectory(p);
    if Separator in p {
      var i := LastIndex(p, Separator).value;
      assert GetDirectoryName(p) == p[..i] && i > 0;
    }
  }

  /** A non-empty directory that does not end with a separator, a separator and a name
      without one make a well-formed path. */
  lemma WellFormedBuilt(dir: string, name: string)
    requires dir != [] && dir[|dir| - 1] != Separator && Separator !in name
    ensures WellFormed(dir + [Separator] + name)
  {
    LastIndexAppend(dir + [Separator], name, Separator);
    assert LastIndex(dir + [Separator], Separator) == Some(|dir|);
    assert (dir + [Separator] + name)[|dir| - 1] == dir[|dir| - 1];
  }

  /** Appending text without a separator keeps the directory. */
  lemma DirectoryOfAppend(x: string, y: string)
    requires Separator !in y
    ensures GetDirectoryName(x + y) == GetDirectoryName(x)
  {
    LastIndexAppend(x, y, Separator);
    match LastIndex(x, Separator)
    case None =>
    case Some(i) => assert (x + y)[..i] == x[..i];
  }

  /** A non-empty extension means the file name does not end with `.`. */
  lemma ExtensionNotDot(p: string)
    requires GetExtension(p) != ""
    ensures !Text.EndsWith(GetFileName(p), ".")
  {
    NameNotDot(GetFileName(p));
  }

  lemma NameNotDot(name: string)
    requires Extension(name) != ""
    ensures !Text.EndsWith(name, ".")
  {
    var ext := Extension(name);
    var last := name[|name| - 1];
    assert last == ext[|ext| - 1] == ext[1..][|ext| - 2];
    assert name[|name| - 1..] == [last];
  }

  /** Giving a well-formed path another extension keeps its directory and base name and
      makes that extension its own. */
  lemma WithExtension(p: string, e: string)
    requires WellFormed(p) && GetFileNameWithoutExtension(p) != ""
    requires |e| >= 2 && e[0] == '.' && '.' !in e[1..] && Separator !in e
    ensures var q := Combine(GetDirectoryName(p), GetFileNameWithoutExtension(p)) + e;
      GetDirectoryName(q) == GetDirectoryName(p) &&
      GetFileNameWithoutExtension(q) == GetFileNameWithoutExtension(p) &&
      GetExtension(q) == e
  {
    var dir, stem := GetDirectoryName(p), GetFileNameWithoutExtension(p);
    CombineWithDirectory(p, stem);
    BuiltPath(dir, Separator in p, stem, e);
  }

  lemma BuiltPath(dir: string, hasDir: bool, stem: string, e: string)
    requires Separator !in stem && (!hasDir ==> dir == "")
    requires |e| >= 2 && e[0] == '.' && '.' !in e[1..] && Separator !in e
    ensures var q := (if hasDir then dir + [Separator] + stem else stem) + e;
      GetDirectoryName(q) == dir &&
      GetFileNameWithoutExtension(q) == stem &&
      GetExtension(q) == e
  {
    var q := (if hasDir then dir + [Separator] + stem else stem) + e;
    assert q == if hasDir then dir + [Separator] + (stem + e) else stem + e;
    NameAfterDirectory(dir, hasDir, stem + e);
    LastDotOfExtension(stem, e);
  }

  /** Upper-casing turns a separator into itself and nothing else into a separator. */
  lemma UpperKeepsSeparators(s: string)
    ensures forall i :: 0 <= i < |s| ==> (Text.Upper(s)[i] == Separator <==> s[i] == Separator)
  {
  }

  /** `Path.Combine` commutes with upper-casing: the separator it puts in or leaves out
      depends only on whether a part is empty and whether the first ends with `\`. */
  lemma UpperCombine(dir: string, name: string)
    ensures Text.Upper(Combine(dir, name)) == Combine(Text.Upper(dir), Text.Upper(name))
  {
    UpperKeepsSeparators(dir);
    Text.UpperConcat(dir, name);
    Text.UpperConcat(dir + [Separator], name);
    Text.UpperConcat(dir, [Separator]);
    assert Text.Upper([Separator]) == [Separator];
  }

  /** The directory of a well-formed path is empty or does not end with `\`. */
  lemma WellFormedDirectory(p: string)
    requires WellFormed(p)
    ensures var dir := GetDirectoryName(p); dir == "" || dir[|dir| - 1] != Separator
  {
  }

  /** Putting a name without separators after a directory makes it the file name. */
  lemma NameAfterDirectory(dir: string, hasDir: bool, name: string)
    requires Separator !in name && (!hasDir ==> dir == "")
    ensures var q := if hasDir then dir + [Separator] + name else name;
      GetFileName(q) == name && GetDirectoryName(q) == dir
  {
    if hasDir {
      var q := dir + [Separator] + name;
      LastIndexAppend(dir + [Separator], name, Separator);
      assert LastIndex(dir + [Separator], Separator) == Some(|dir|);
      assert q[|dir| + 1..] == name;
      assert q[..|dir|] == dir;
    }
  }

  lemma LastDotOfExtension(stem: string, e: string)
    requires |e| >= 2 && e[0] == '.' && '.' !in e[1..]
    ensures Stem(stem + e) == stem && Extension(stem + e) == e
  {
    var name := stem + e;
    assert name == (stem + ['.']) + e[1..];
    LastIndexAppend(stem + ['.'], e[1..], '.');
    assert LastIndex(name, '.') == Some(|stem|);
    assert name[|stem|..] == e;
  }
}
