/**
 * `FilenameUtils`: extension tests, the numbered prefix `([ddd0])` that fixes the
 * order of files, the category marker `__MARKAS__` that tags a file with a category,
 * and the comparison of two paths without their extensions.
 */
module FilenameUtils {
  import opened Wrappers
  import Text
  import Paths

  const MarkerString: string := "__MARKAS__"

  // ---------------------------------------------------------------------------------
  // Extensions

  /** The lower-cased path ends with one of the extensions. */
  predicate ExtensionListed(path: string, extensions: seq<string>) {
    exists i :: 0 <= i < |extensions| && Text.EndsWith(Text.Lower(path), extensions[i])
  }

  /** `FilenameUtils.IsExtensionInList`: the extensions are tried in order and the first
      that the lower-cased path ends with answers true. */
  method IsExtensionInList(path: string, extensions: seq<string>) returns (r: bool)
    ensures r <==> ExtensionListed(path, extensions)
  {
    var lower := Text.Lower(path);
    for i := 0 to |extensions|
      invariant forall j :: 0 <= j < i ==> !Text.EndsWith(lower, extensions[j])
    {
      if Text.EndsWith(lower, extensions[i]) {
        return true;
      }
    }
    return false;
  }

  const ImageExtensions: seq<string> := [".jpg", ".png", ".gif", ".bmp", ".webp", ".emf", ".wmf", ".jpeg"]
  const AudioExtensions: seq<string> := [".wav", ".flac", ".mp3", ".m4a", ".mp4"]

  /** `FilenameUtils.LooksLikeImage`. */
  method LooksLikeImage(path: string) returns (r: bool)
    ensures r <==> ExtensionListed(path, ImageExtensions)
  {
    r := IsExtensionInList(path, ImageExtensions);
  }

  /** `FilenameUtils.LooksLikeAudio`. */
  method LooksLikeAudio(path: string) returns (r: bool)
    ensures r <==> ExtensionListed(path, AudioExtensions)
  {
    r := IsExtensionInList(path, AudioExtensions);
  }

  /** `FilenameUtils.IsExt`: the one-extension case of the list test. */
  function IsExt(path: string, extension: string): (r: bool)
    ensures r <==> ExtensionListed(path, [extension])
  {
    var b := Text.EndsWith(Text.Lower(path), extension);
    assert b ==> Text.EndsWith(Text.Lower(path), [extension][0]);
    b
  }

  /** The path is lower-cased and the extension is not, so an extension with an upper-case
      letter never matches: callers must spell their extensions in lower case. */
  lemma UpperCaseExtensionNeverMatches(path: string, extension: string, k: nat)
    requires k < |extension| && 'A' <= extension[k] <= 'Z'
    ensures !IsExt(path, extension)
  {
    var lower := Text.Lower(path);
    if |extension| <= |lower| {
      var i := |lower| - |extension| + k;
      assert lower[|lower| - |extension|..][k] == lower[i];
      assert !('A' <= lower[i] <= 'Z');
    }
  }

  /** The test ignores the case of the path. */
  lemma IsExtIgnoresCase(path: string, other: string, extension: string)
    requires Text.Lower(path) == Text.Lower(other)
    ensures IsExt(path, extension) == IsExt(other, extension)
  {
  }

  // ---------------------------------------------------------------------------------
  // Numbered prefix

  /** `FilenameUtils.NumberedPrefixLength`: the length of `([0000])`. */
  const NumberedPrefixLength: nat := |"([0000])"|

  /** A file name that carries a numbered prefix: longer than the prefix, starting with
      `([` and with `])` at offsets 6 and 7. */
  predicate HasNumberedPrefix(name: string) {
    |name| > NumberedPrefixLength && Text.StartsWith(name, "([") && name[6..8] == "])"
  }

  /** `FilenameUtils.GetFileNameWithoutNumberedPrefix`: the file name with its numbered
      prefix, if it has one, removed. */
  function GetFileNameWithoutNumberedPrefix(path: string): (r: string)
    ensures Text.EndsWith(Paths.GetFileName(path), r)
    ensures HasNumberedPrefix(Paths.GetFileName(path)) ==>
      |r| == |Paths.GetFileName(path)| - NumberedPrefixLength
    ensures !HasNumberedPrefix(Paths.GetFileName(path)) ==> r == Paths.GetFileName(path)
  {
    var name := Paths.GetFileName(path);
    if |name| > NumberedPrefixLength && Text.StartsWith(name, "([") && name[6..8] == "])" then
      name[NumberedPrefixLength..]
    else
      name
  }

  function DigitChar(d: nat): (c: char)
    requires d < 10
    ensures '0' <= c <= '9'
  {
    ('0' as int + d) as char
  }

  function DigitValue(c: char): nat {
    if '0' <= c <= '9' then c as int - '0' as int else 0
  }

  /** The decimal digits of `n`, most significant first, without leading zeros. */
  function Decimal(n: nat): (r: string)
    ensures |r| >= 1 && forall i :: 0 <= i < |r| ==> '0' <= r[i] <= '9'
    ensures n < 10 <==> |r| == 1
    ensures n < 100 ==> |r| <= 2
    ensures n < 1000 ==> |r| <= 3
  {
    if n < 10 then [DigitChar(n)] else Decimal(n / 10) + [DigitChar(n % 10)]
  }

  function Zeros(k: nat): (r: string)
    ensures |r| == k && forall i :: 0 <= i < k ==> r[i] == '0'
  {
    if k == 0 then "" else Zeros(k - 1) + "0"
  }

  /** `int.ToString("D3")`: the decimal digits padded with zeros to at least three,
      after a minus sign for a negative number. */
  function FormatD3(n: int): (r: string)
    ensures 0 <= n < 1000 ==> |r| == 3
    ensures n >= 0 ==> |r| >= 3 && forall i :: 0 <= i < |r| ==> '0' <= r[i] <= '9'
    ensures n < 0 ==> |r| >= 4 && r[0] == '-'
  {
    var digits := Decimal(if n < 0 then -n else n);
    var padded := if |digits| >= 3 then digits else Zeros(3 - |digits|) + digits;
    if n < 0 then "-" + padded else padded
  }

  /** The number a string of decimal digits denotes. */
  function DigitsValue(s: string): nat {
    if s == [] then 0 else DigitsValue(s[..|s| - 1]) * 10 + DigitValue(s[|s| - 1])
  }

  lemma {:induction false} DecimalValue(n: nat)
    ensures DigitsValue(Decimal(n)) == n
  {
    if n >= 10 {
      var r := Decimal(n);
      assert r[..|r| - 1] == Decimal(n / 10);
      DecimalValue(n / 10);
    }
  }

  lemma {:induction false} LeadingZerosValue(k: nat, s: string)
    ensures DigitsValue(Zeros(k) + s) == DigitsValue(s)
    decreases |s|
  {
    if s == [] {
      assert Zeros(k) + s == Zeros(k);
      ZerosValue(k);
    } else {
      var t := Zeros(k) + s;
      assert t[..|t| - 1] == Zeros(k) + s[..|s| - 1];
      LeadingZerosValue(k, s[..|s| - 1]);
    }
  }

  lemma {:induction false} ZerosValue(k: nat)
    ensures DigitsValue(Zeros(k)) == 0
  {
    if k > 0 {
      assert Zeros(k)[..k - 1] == Zeros(k - 1);
      ZerosValue(k - 1);
    }
  }

  /** A non-negative number formatted with `D3` reads back as itself. */
  lemma FormatD3Value(n: nat)
    ensures DigitsValue(FormatD3(n)) == n
  {
    DecimalValue(n);
    var digits := Decimal(n);
    if |digits| < 3 {
      LeadingZerosValue(3 - |digits|, digits);
    }
  }

  /** The prefix `([ddd0])` for a number. */
  function NumberedPrefix(number: int): string {
    "([" + FormatD3(number) + "0])"
  }

  /** `FilenameUtils.AddNumberedPrefix`: a path whose file name already has a numbered
      prefix is returned as it is; otherwise the prefix for `number` is put in front of
      the file name. */
  function AddNumberedPrefix(path: string, number: int): (r: string)
    ensures HasNumberedPrefix(Paths.GetFileName(path)) ==> r == path
    ensures !HasNumberedPrefix(Paths.GetFileName(path)) ==>
      Text.StartsWith(r, Paths.GetDirectoryName(path) + "\\") &&
      Text.EndsWith(r, NumberedPrefix(number) + Paths.GetFileName(path))
  {
    var nameOnly := Paths.GetFileName(path);
    if nameOnly != GetFileNameWithoutNumberedPrefix(path) then path
    else
      PrefixedText(Paths.GetDirectoryName(path) + "\\", NumberedPrefix(number), nameOnly);
      Paths.GetDirectoryName(path) + "\\" + NumberedPrefix(number) + nameOnly
  }

  lemma PrefixedText(d: string, p: string, n: string)
    ensures Text.StartsWith(d + p + n, d) && Text.EndsWith(d + p + n, p + n)
  {
    Text.Associative(d, p, n);
    assert (d + (p + n))[..|d|] == d;
    assert (d + (p + n))[|d|..] == p + n;
  }

  /** For 0 <= number <= 999 and a non-empty file name without a prefix, the prefix is
      added to the file name in the same directory; stripping it gives the file name
      back, and its digits read back as the number. */
  lemma NumberedPrefixRoundTrip(path: string, number: int)
    requires 0 <= number <= 999
    requires Paths.GetFileName(path) != "" && !HasNumberedPrefix(Paths.GetFileName(path))
    ensures var q := AddNumberedPrefix(path, number);
      Paths.GetDirectoryName(q) == Paths.GetDirectoryName(path) &&
      Paths.GetFileName(q) == NumberedPrefix(number) + Paths.GetFileName(path) &&
      HasNumberedPrefix(Paths.GetFileName(q)) &&
      GetFileNameWithoutNumberedPrefix(q) == Paths.GetFileName(path) &&
      DigitsValue(Paths.GetFileName(q)[2..5]) == number
  {
    var name, dir := Paths.GetFileName(path), Paths.GetDirectoryName(path);
    var prefix := NumberedPrefix(number);
    PrefixShape(number);
    PrefixedName(prefix, name);
    FormatD3Value(number);
    assert AddNumberedPrefix(path, number) == dir + "\\" + prefix + name;
    PrefixedPath(dir, prefix, name);
  }

  lemma PrefixedPath(dir: string, prefix: string, name: string)
    requires Paths.Separator !in prefix && Paths.Separator !in name
    ensures Paths.GetDirectoryName(dir + "\\" + prefix + name) == dir
    ensures Paths.GetFileName(dir + "\\" + prefix + name) == prefix + name
  {
    assert dir + "\\" + prefix + name == dir + [Paths.Separator] + (prefix + name);
    Paths.NameAfterDirectory(dir, true, prefix + name);
  }

  lemma PrefixShape(number: int)
    requires 0 <= number <= 999
    ensures var prefix := NumberedPrefix(number);
      |prefix| == 8 && prefix[..2] == "([" && prefix[6..8] == "])" &&
      prefix[2..5] == FormatD3(number) && Paths.Separator !in prefix
  {
    var prefix := NumberedPrefix(number);
    var d := FormatD3(number);
    forall i | 0 <= i < |prefix| ensures prefix[i] != Paths.Separator {
      if 2 <= i < 5 { assert prefix[i] == d[i - 2]; }
    }
  }

  lemma PrefixedName(prefix: string, name: string)
    requires |prefix| == 8 && prefix[..2] == "([" && prefix[6..8] == "])" && name != ""
    ensures HasNumberedPrefix(prefix + name)
    ensures (prefix + name)[8..] == name && (prefix + name)[2..5] == prefix[2..5]
  {
    var q := prefix + name;
    assert q[..2] == prefix[..2] && q[6..8] == prefix[6..8];
  }

  /** Adding a numbered prefix twice is the same as adding it once. */
  lemma AddNumberedPrefixIdempotent(path: string, number: int, again: int)
    requires 0 <= number <= 999 && Paths.GetFileName(path) != ""
    ensures AddNumberedPrefix(AddNumberedPrefix(path, number), again) ==
            AddNumberedPrefix(path, number)
  {
    var name := Paths.GetFileName(path);
    if !HasNumberedPrefix(name) {
      NumberedPrefixRoundTrip(path, number);
    }
  }

  // ---------------------------------------------------------------------------------
  // Category marker

  /** `FilenameUtils.AddCategoryToFilename`: the marker and the category go between the
      base name and the extension. A path that already has a marker is returned as it
      is (the source also shows an error message). */
  function AddCategoryToFilename(path: string, category: string): (r: string)
    ensures Text.Contains(r, MarkerString)
    ensures Text.Contains(path, MarkerString) ==> r == path
  {
    if Text.Contains(path, MarkerString) then path
    else
      var root := Paths.Combine(Paths.GetDirectoryName(path), Paths.GetFileNameWithoutExtension(path));
      var ext := Paths.GetExtension(path);
      MarkerInside(root, category, ext);
      root + MarkerString + category + ext
  }

  /** Text with the marker put in the middle contains the marker. */
  lemma MarkerInside(a: string, c: string, e: string)
    ensures Text.Contains(a + MarkerString + c + e, MarkerString)
  {
    Text.ContainsAt(MarkerString, MarkerString, 0);
    Text.ContainsWithin(a, MarkerString, c + e, MarkerString);
    assert a + MarkerString + (c + e) == a + MarkerString + c + e;
  }

  /** The exceptions `GetCategoryFromFilename` throws. */
  datatype CategoryError = MarkerInDirectory | MarkerCount | DotAfterMarker

  /** `FilenameUtils.GetCategoryFromFilename`: the path without its category and the
      category, or the reason the path cannot be decoded. A marker in the directory is
      the first thing refused; a decoded category has neither a `.` nor the marker, and
      the decoded path is the input less the marker and the category. */
  function GetCategoryFromFilename(pathAndCategory: string): (r: Result<(string, string), CategoryError>)
    ensures r == Err(MarkerInDirectory) <==>
      Text.Contains(Paths.GetDirectoryName(pathAndCategory), MarkerString)
    ensures r.Ok? ==> !Text.Contains(r.value.1, ".") && !Text.Contains(r.value.1, MarkerString)
    ensures r.Ok? ==> |r.value.0| + |MarkerString| + |r.value.1| == |pathAndCategory|
  {
    if Text.Contains(Paths.GetDirectoryName(pathAndCategory), MarkerString) then
      Err(MarkerInDirectory)
    else
      var parts := Text.Split(pathAndCategory, MarkerString);
      if |parts| != 2 then Err(MarkerCount)
      else
        var after := Text.Split(parts[1], ".");
        if |after| != 2 then Err(DotAfterMarker)
        else
          DecodedPieces(pathAndCategory, parts, after);
          Ok((parts[0] + "." + after[1], after[0]))
  }

  /** A path without the marker is refused for having no marker, never for its
      directory. */
  lemma DecodeUnmarked(s: string)
    requires !Text.Contains(s, MarkerString)
    ensures GetCategoryFromFilename(s) == Err(MarkerCount)
  {
    NoMarkerInDirectory(s);
    Text.SplitFree(s, MarkerString);
  }

  /** A path whose directory holds the marker is refused for that, whatever its file
      name. */
  lemma DecodeMarkedDirectory(dir: string, name: string)
    requires Text.Contains(dir, MarkerString) && Paths.Separator !in name
    ensures GetCategoryFromFilename(dir + [Paths.Separator] + name) == Err(MarkerInDirectory)
  {
    Paths.NameAfterDirectory(dir, true, name);
  }

  /** A category with a `.` in it does not survive the round trip: after the marker the
      decoder finds two `.` and refuses the path. */
  lemma DottedCategoryRefused(path: string, a: string, b: string)
    requires Taggable(path) && !EndsLikeMarkerStart(RootNoExtension(path))
    requires '.' !in a && '.' !in b && Paths.Separator !in a && Paths.Separator !in b
    requires !Text.Contains(a + "." + b, MarkerString)
    ensures GetCategoryFromFilename(AddCategoryToFilename(path, a + "." + b)) == Err(DotAfterMarker)
  {
    var root, ext := RootNoExtension(path), Paths.GetExtension(path);
    TaggableParts(path);
    var e := ext[1..];
    assert AddCategoryToFilename(path, a + "." + b) == root + MarkerString + (a + "." + b) + ("." + e);
    DecodeDotted(path, root, a, b, e);
  }

  lemma DecodeDotted(path: string, root: string, a: string, b: string, e: string)
    requires path == root + "." + e
    requires '.' !in a && '.' !in b && Paths.Separator !in a && Paths.Separator !in b
    requires !Text.Contains(root, MarkerString) && !EndsLikeMarkerStart(root)
    requires !Text.Contains(a + "." + b, MarkerString)
    requires !Text.Contains(e, MarkerString) && '.' !in e && Paths.Separator !in e
    requires !Text.Contains(Paths.GetDirectoryName(path), MarkerString)
    ensures GetCategoryFromFilename(root + MarkerString + (a + "." + b) + ("." + e)) == Err(DotAfterMarker)
  {
    var category := a + "." + b;
    var rest := category + "." + e;
    assert root + MarkerString + category + ("." + e) == root + MarkerString + rest;
    TaggedDirectory(root, category, e);
    SplitTagged(root, category, e);
    SplitDotted(a, b, e);
  }

  /** Text with two `.` splits on `.` into three parts. */
  lemma SplitDotted(a: string, b: string, e: string)
    requires '.' !in a && '.' !in b && '.' !in e
    ensures Text.Split(a + "." + b + "." + e, ".") == [a, b, e]
  {
    assert a + "." + b + "." + e == a + "." + (b + "." + e);
    Text.SplitAfterFree(a, '.', b + "." + e);
    Text.SplitAfterFree(b, '.', e);
    NoDot(e);
    Text.SplitFree(e, ".");
  }

  /** A decoded path had exactly one marker, and the decoded category has neither a `.`
      nor the marker; the input is the text before the marker, the marker, the category
      and the rest of the decoded path from its `.` on, which holds no further `.`. */
  lemma DecodedParts(s: string)
    requires GetCategoryFromFilename(s).Ok?
    ensures var (path, category) := GetCategoryFromFilename(s).value;
      var root := Text.Split(s, MarkerString)[0];
      |Text.Split(s, MarkerString)| == 2 &&
      !Text.Contains(category, ".") && !Text.Contains(category, MarkerString) &&
      Text.StartsWith(path, root + ".") && s == root + MarkerString + category + path[|root|..] &&
      '.' !in path[|root| + 1..]
  {
    var parts := Text.Split(s, MarkerString);
    var after := Text.Split(parts[1], ".");
    assert GetCategoryFromFilename(s) == Ok((parts[0] + "." + after[1], after[0]));
    DecodedPieces(s, parts, after);
    DotJoin(parts[0], after[1]);
    Text.ContainsChar(after[1], '.');
    assert (parts[0] + "." + after[1])[|parts[0]| + 1..] == after[1];
  }

  lemma DotJoin(root: string, e: string)
    ensures var path := root + "." + e;
      path[|root|..] == "." + e && Text.StartsWith(path, root + ".")
  {
    var path := root + "." + e;
    assert path[|root|..] == "." + e;
    assert path[..|root| + 1] == root + ".";
  }

  lemma DecodedPieces(s: string, parts: seq<string>, after: seq<string>)
    requires parts == Text.Split(s, MarkerString) && |parts| == 2
    requires after == Text.Split(parts[1], ".") && |after| == 2
    ensures !Text.Contains(after[0], ".") && !Text.Contains(after[0], MarkerString)
    ensures !Text.Contains(after[1], ".")
    ensures s == parts[0] + MarkerString + after[0] + ("." + after[1])
  {
    Text.SplitPiecesFree(s, MarkerString);
    Text.JoinSplit(s, MarkerString);
    Text.SplitPiecesFree(parts[1], ".");
    Text.JoinSplit(parts[1], ".");
    assert !Text.Contains(parts[1], MarkerString);
    CategoryOfTail(parts[1], after[0], after[1]);
  }

  lemma CategoryOfTail(tail: string, category: string, e: string)
    requires tail == category + "." + e && !Text.Contains(tail, MarkerString)
    ensures !Text.Contains(category, MarkerString)
  {
    assert category + ("." + e) == tail;
    if Text.Contains(category, MarkerString) {
      PrefixContains(category, "." + e, MarkerString);
    }
  }

  lemma PrefixContains(a: string, b: string, m: string)
    requires Text.Contains(a, m)
    ensures Text.Contains(a + b, m)
  {
    Text.ContainsWithin([], a, b, m);
    assert [] + a + b == a + b;
  }

  /** The base name, with its directory, of a path: what the marker is put after. */
  function RootNoExtension(path: string): string {
    Paths.Combine(Paths.GetDirectoryName(path), Paths.GetFileNameWithoutExtension(path))
  }

  /** The text just before the marker ends like the start of another marker. The marker
      begins with `__` and also ends with it, so a base name ending in `__MARKAS` or
      `__MARKAS_` makes the first marker found start inside the base name. */
  predicate EndsLikeMarkerStart(root: string) {
    Text.EndsWith(root, MarkerString[..8]) || Text.EndsWith(root, MarkerString[..9])
  }

  /** The paths the marker round trip is meant for: no marker yet, a directory written
      with single separators, a non-empty base name and a non-empty extension. */
  predicate Taggable(path: string) {
    !Text.Contains(path, MarkerString) && Paths.WellFormed(path) &&
    Paths.GetFileNameWithoutExtension(path) != "" && Paths.GetExtension(path) != ""
  }

  /** The categories the round trip is meant for: no `.`, no marker and no separator. */
  predicate PlainCategory(category: string) {
    !Text.Contains(category, ".") && !Text.Contains(category, MarkerString) &&
    Paths.Separator !in category
  }

  /** Decoding a tagged path gives back the path and the category, provided the base
      name does not end like the start of a marker. */
  lemma CategoryRoundTrip(path: string, category: string)
    requires Taggable(path) && PlainCategory(category)
    requires !EndsLikeMarkerStart(RootNoExtension(path))
    ensures GetCategoryFromFilename(AddCategoryToFilename(path, category)) == Ok((path, category))
  {
    var root, ext := RootNoExtension(path), Paths.GetExtension(path);
    TaggableParts(path);
    var e := ext[1..];
    assert AddCategoryToFilename(path, category) == root + MarkerString + category + ("." + e);
    DecodeTagged(path, root, category, e);
  }

  /** A taggable path is its root, a `.` and the rest of its extension, and none of
      these holds the marker. */
  lemma TaggableParts(path: string)
    requires Taggable(path)
    ensures var root, ext := RootNoExtension(path), Paths.GetExtension(path);
      path == root + "." + ext[1..] && ext == "." + ext[1..] &&
      !Text.Contains(root, MarkerString) && !Text.Contains(ext[1..], MarkerString) &&
      '.' !in ext[1..] && Paths.Separator !in ext[1..] &&
      !Text.Contains(Paths.GetDirectoryName(path), MarkerString)
  {
    var root, ext := RootNoExtension(path), Paths.GetExtension(path);
    Paths.ExtensionNotDot(path);
    Paths.Decompose(path);
    ExtensionPieces(path, root, ext);
    NoMarkerInDirectory(path);
  }

  lemma ExtensionPieces(path: string, root: string, ext: string)
    requires path == root + ext && !Text.Contains(path, MarkerString)
    requires |ext| >= 2 && ext[0] == '.' && '.' !in ext[1..] && Paths.Separator !in ext
    ensures path == root + "." + ext[1..] && ext == "." + ext[1..]
    ensures !Text.Contains(root, MarkerString) && !Text.Contains(ext[1..], MarkerString)
    ensures Paths.Separator !in ext[1..]
  {
    var e := ext[1..];
    assert ext == "." + e;
    assert Paths.Separator !in e by {
      forall k | 0 <= k < |e| ensures e[k] != Paths.Separator { assert e[k] == ext[k + 1]; }
    }
    NoMarkerInPieces(path, root, e);
  }

  lemma NoMarkerInDirectory(path: string)
    requires !Text.Contains(path, MarkerString)
    ensures !Text.Contains(Paths.GetDirectoryName(path), MarkerString)
  {
    var dir := Paths.GetDirectoryName(path);
    if Text.Contains(dir, MarkerString) {
      assert path == dir + path[|dir|..];
      PrefixContains(dir, path[|dir|..], MarkerString);
    }
  }

  lemma NoMarkerInPieces(path: string, root: string, e: string)
    requires path == root + "." + e && !Text.Contains(path, MarkerString)
    ensures !Text.Contains(root, MarkerString) && !Text.Contains(e, MarkerString)
  {
    assert root + ("." + e) == path;
    assert root + "." + e + [] == path;
    if Text.Contains(root, MarkerString) {
      PrefixContains(root, "." + e, MarkerString);
    }
    if Text.Contains(e, MarkerString) {
      Text.ContainsWithin(root + ".", e, [], MarkerString);
    }
  }

  /** The decoding half of the round trip, for `root + marker + category + "." + e`. */
  lemma DecodeTagged(path: string, root: string, category: string, e: string)
    requires path == root + "." + e && PlainCategory(category)
    requires !Text.Contains(root, MarkerString) && !EndsLikeMarkerStart(root)
    requires !Text.Contains(e, MarkerString) && '.' !in e && Paths.Separator !in e
    requires !Text.Contains(Paths.GetDirectoryName(path), MarkerString)
    ensures GetCategoryFromFilename(root + MarkerString + category + ("." + e)) == Ok((path, category))
  {
    var rest := category + "." + e;
    var s := root + MarkerString + rest;
    assert root + MarkerString + category + ("." + e) == s;
    TaggedDirectory(root, category, e);
    SplitTagged(root, category, e);
    SplitCategory(category, e);
  }

  /** The marker, the category and the extension do not change the directory. */
  lemma TaggedDirectory(root: string, category: string, e: string)
    requires Paths.Separator !in category && Paths.Separator !in e
    ensures Paths.GetDirectoryName(root + MarkerString + (category + "." + e)) ==
            Paths.GetDirectoryName(root + "." + e)
  {
    var x := MarkerString + (category + "." + e);
    var y := "." + e;
    assert Paths.Separator !in MarkerString;
    assert Paths.Separator !in x;
    Paths.DirectoryOfAppend(root, x);
    Paths.DirectoryOfAppend(root, y);
    Text.Associative(root, MarkerString, category + "." + e);
    Text.Associative(root, ".", e);
  }

  /** With no marker straddling the one inserted, the tagged path splits into exactly
      the root and what follows the marker. */
  lemma SplitTagged(root: string, category: string, e: string)
    requires !Text.Contains(root, MarkerString) && !EndsLikeMarkerStart(root)
    requires !Text.Contains(category, MarkerString) && !Text.Contains(e, MarkerString)
    ensures Text.Split(root + MarkerString + (category + "." + e), MarkerString) ==
            [root, category + "." + e]
  {
    var rest := category + "." + e;
    MarkerNoStraddle(root, rest);
    Text.FirstOccurrence(root, MarkerString, rest);
    Text.SplitAround(root, MarkerString, rest);
    NoMarkerAcrossDot(category, e);
    Text.SplitFree(rest, MarkerString);
  }

  /** The part after the marker splits on `.` into the category and the extension. */
  lemma SplitCategory(category: string, e: string)
    requires !Text.Contains(category, ".") && '.' !in e
    ensures Text.Split(category + "." + e, ".") == [category, e]
  {
    forall j | 0 <= j < |category| ensures !Text.OccursAt(category + "." + e, ".", j) {
      if Text.OccursAt(category + "." + e, ".", j) {
        assert (category + "." + e)[j..j + 1] == category[j..j + 1];
        Text.ContainsAt(category, ".", j);
      }
    }
    Text.FirstOccurrence(category, ".", e);
    Text.SplitAround(category, ".", e);
    NoDot(e);
    Text.SplitFree(e, ".");
  }

  lemma NoDot(e: string)
    requires '.' !in e
    ensures !Text.Contains(e, ".")
  {
    forall j | 0 <= j < |e| ensures !Text.OccursAt(e, ".", j) {
      if j + 1 <= |e| { assert e[j..j + 1][0] == e[j]; }
    }
  }

  /** The marker cannot begin inside `root` (which holds no marker and does not end like
      the start of one) and end inside the marker that follows it. */
  lemma MarkerNoStraddle(root: string, rest: string)
    requires !Text.Contains(root, MarkerString) && !EndsLikeMarkerStart(root)
    ensures forall j :: 0 <= j < |root| ==> !Text.OccursAt(root + MarkerString + rest, MarkerString, j)
  {
    var s := root + MarkerString + rest;
    assert s[..|root|] == root;
    forall j | 0 <= j < |root| ensures !Text.OccursAt(s, MarkerString, j) {
      if j + 10 <= |root| {
        NotInside(root, s, 0, j);
      } else {
        StraddleStep(root, rest, j);
      }
    }
  }

  /** An occurrence of the marker that lies within a copy of a marker-free string is
      impossible. */
  lemma NotInside(a: string, s: string, off: nat, j: nat)
    requires off + |a| <= |s| && s[off..off + |a|] == a && !Text.Contains(a, MarkerString)
    requires off <= j && j + 10 <= off + |a|
    ensures !Text.OccursAt(s, MarkerString, j)
  {
    var k := j - off;
    assert a[k..k + 10] == s[off..off + |a|][k..k + 10];
    assert s[j..j + 10] == a[k..k + 10];
    assert Text.IndexOf(a, MarkerString).None?;
    assert !Text.OccursAt(a, MarkerString, k);
  }

  lemma StraddleStep(root: string, rest: string, j: nat)
    requires j < |root| < j + 10 && !EndsLikeMarkerStart(root)
    ensures !Text.OccursAt(root + MarkerString + rest, MarkerString, j)
  {
    MarkerBorder(|root| - j);
    if Text.OccursAt(root + MarkerString + rest, MarkerString, j) {
      StraddleShape(root, rest, j);
    }
  }

  /** A marker that starts `d` characters before the end of `root` and overlaps the
      marker after it: `root` ends with the first `d` characters of the marker, and the
      marker agrees with itself shifted by `d`. */
  lemma StraddleShape(root: string, rest: string, j: nat)
    requires j < |root| < j + 10
    requires Text.OccursAt(root + MarkerString + rest, MarkerString, j)
    ensures Text.EndsWith(root, MarkerString[..|root| - j])
    ensures MarkerString[|root| - j..] == MarkerString[..10 - (|root| - j)]
  {
    var s := root + MarkerString + rest;
    var n, d := |root|, |root| - j;
    var w := s[j..j + 10];
    assert w[..d] == s[j..n] == root[j..];
    assert w[d..] == s[n..j + 10] == MarkerString[..10 - d];
  }

  /** The marker agrees with itself shifted by `d` only for `d` = 8 and 9: its borders
      are `__` and `_`. */
  lemma MarkerBorder(d: nat)
    requires 1 <= d < 10
    ensures MarkerString[d..] == MarkerString[..10 - d] <==> d >= 8
  {
    var m := MarkerString;
    if d == 1 {
      assert m[1..][1] != m[..9][1];
    } else if d == 2 {
      assert m[2..][0] != m[..8][0];
    } else if d == 3 {
      assert m[3..][0] != m[..7][0];
    } else if d == 4 {
      assert m[4..][0] != m[..6][0];
    } else if d == 5 {
      assert m[5..][0] != m[..5][0];
    } else if d == 6 {
      assert m[6..][0] != m[..4][0];
    } else if d == 7 {
      assert m[7..][0] != m[..3][0];
    } else if d == 8 {
      assert m[8..] == m[..2];
    } else {
      assert m[9..] == m[..1];
    }
  }

  /** A `.` separates two marker-free strings without creating a marker, for the marker
      has no `.`. */
  lemma NoMarkerAcrossDot(a: string, b: string)
    requires !Text.Contains(a, MarkerString) && !Text.Contains(b, MarkerString)
    ensures !Text.Contains(a + "." + b, MarkerString)
  {
    var s := a + "." + b;
    assert s[..|a|] == a && s[|a| + 1..] == b && s[|a|] == '.';
    forall j | 0 <= j ensures !Text.OccursAt(s, MarkerString, j) {
      if j + 10 > |s| {
      } else if j + 10 <= |a| {
        NotInside(a, s, 0, j);
      } else if j > |a| {
        assert s[|a| + 1..|a| + 1 + |b|] == b;
        NotInside(b, s, |a| + 1, j);
      } else {
        DotInside(s, j, |a|);
      }
    }
  }

  /** The marker has no `.`, so it does not occur across one. */
  lemma DotInside(s: string, j: nat, p: nat)
    requires j <= p < j + 10 <= |s| && s[p] == '.'
    ensures !Text.OccursAt(s, MarkerString, j)
  {
    assert s[j..j + 10][p - j] == s[p];
    assert forall k :: 0 <= k < 10 ==> MarkerString[k] != '.';
  }

  /** `AddCategoryToFilename` as intended: a path and a category are tagged only when
      the tagged path decodes back to them; every other input, a marked path among
      them, is returned as it is. */
  function AddCategoryToFilenameChecked(path: string, category: string): (r: string)
    ensures r != path ==> GetCategoryFromFilename(r) == Ok((path, category))
    ensures r != path ==> r == AddCategoryToFilename(path, category)
    ensures r != path <==>
      Taggable(path) && PlainCategory(category) && !EndsLikeMarkerStart(RootNoExtension(path))
  {
    if Taggable(path) && PlainCategory(category) && !EndsLikeMarkerStart(RootNoExtension(path)) then
      CategoryRoundTrip(path, category);
      AddCategoryToFilename(path, category)
    else path
  }

  /** The source's round trip fails for every path that already has a marker: the
      encoder returns it as it is, and whatever the decoder makes of it is shorter. */
  lemma MarkedNeverRoundTrips(path: string, category: string)
    requires Text.Contains(path, MarkerString)
    ensures GetCategoryFromFilename(AddCategoryToFilename(path, category)) != Ok((path, category))
    ensures AddCategoryToFilenameChecked(path, category) == path
  {
  }

  /** The source's round trip fails for a file name without an extension: the tagged
      name ends with the category, which has no `.` for the decoder to find. */
  lemma ExtensionlessRoundTripFails(dir: string, x: string, c: string)
    requires dir != [] && dir[|dir| - 1] != Paths.Separator && '_' !in dir
    requires x != [] && '_' !in x && '.' !in x && Paths.Separator !in x
    requires '_' !in c && '.' !in c && Paths.Separator !in c
    ensures var p := dir + [Paths.Separator] + x;
      Paths.GetExtension(p) == "" && PlainCategory(c) && !EndsLikeMarkerStart(RootNoExtension(p)) &&
      GetCategoryFromFilename(AddCategoryToFilename(p, c)) == Err(DotAfterMarker) &&
      AddCategoryToFilenameChecked(p, c) == p
  {
    var p := dir + [Paths.Separator] + x;
    Paths.NameAfterDirectory(dir, true, x);
    assert Paths.GetFileNameWithoutExtension(p) == x && Paths.GetExtension(p) == "";
    assert RootNoExtension(p) == p;
    NoUnderscoreChars(dir, x);
    NoUnderscore(p);
    NotLikeMarkerStart(p);
    NoUnderscore(c);
    NoDot(c);
    assert AddCategoryToFilename(p, c) == p + MarkerString + c;
    UnderscoreDirectory(p, MarkerString + c);
    Text.Associative(p, MarkerString, c);
    SplitAfterPlain(p, c);
    Text.SplitFree(c, ".");
  }

  /** The source's round trip fails for a file name that is only an extension: the
      base name is empty, so the marker replaces the separator and the decoded path
      loses it. */
  lemma EmptyBaseNameRoundTripFails(dir: string, c: string, e: string)
    requires dir != [] && dir[|dir| - 1] != Paths.Separator && '_' !in dir
    requires '_' !in c && '.' !in c && Paths.Separator !in c
    requires e != [] && '_' !in e && '.' !in e && Paths.Separator !in e
    ensures var p := dir + [Paths.Separator] + ("." + e);
      Paths.GetFileNameWithoutExtension(p) == "" && PlainCategory(c) &&
      GetCategoryFromFilename(AddCategoryToFilename(p, c)) == Ok((dir + "." + e, c)) &&
      GetCategoryFromFilename(AddCategoryToFilename(p, c)) != Ok((p, c)) &&
      AddCategoryToFilenameChecked(p, c) == p
  {
    var p := dir + [Paths.Separator] + ("." + e);
    EmptyBasePath(dir, e);
    NoUnderscore(c);
    NoDot(c);
    assert AddCategoryToFilename(p, c) == dir + MarkerString + c + ("." + e);
    DecodeEmptyBase(dir, c, e);
  }

  lemma EmptyBasePath(dir: string, e: string)
    requires dir != [] && dir[|dir| - 1] != Paths.Separator && '_' !in dir
    requires e != [] && '_' !in e && '.' !in e && Paths.Separator !in e
    ensures var p := dir + [Paths.Separator] + ("." + e);
      Paths.GetFileNameWithoutExtension(p) == "" && RootNoExtension(p) == dir &&
      Paths.GetExtension(p) == "." + e && !Text.Contains(p, MarkerString)
  {
    var p := dir + [Paths.Separator] + ("." + e);
    Paths.BuiltPath(dir, true, "", "." + e);
    assert p == dir + [Paths.Separator] + "" + ("." + e);
    NoUnderscoreChars(dir, "." + e);
    NoUnderscore(p);
  }

  lemma DecodeEmptyBase(dir: string, c: string, e: string)
    requires '_' !in dir && PlainCategory(c)
    requires '_' !in e && '.' !in e && Paths.Separator !in e
    ensures GetCategoryFromFilename(dir + MarkerString + c + ("." + e)) == Ok((dir + "." + e, c))
  {
    NoUnderscore(dir);
    NotLikeMarkerStart(dir);
    NoUnderscore(e);
    UnderscoreDirectory(dir, "." + e);
    assert dir + ("." + e) == dir + "." + e;
    DecodeTagged(dir + "." + e, dir, c, e);
  }

  /** A path built from pieces without `_` has none. */
  lemma NoUnderscoreChars(dir: string, name: string)
    requires '_' !in dir && '_' !in name
    ensures '_' !in dir + [Paths.Separator] + name
  {
    var p := dir + [Paths.Separator] + name;
    forall k | 0 <= k < |p| ensures p[k] != '_' {
      if k < |dir| { assert p[k] == dir[k]; }
      else if k > |dir| { assert p[k] == name[k - |dir| - 1]; }
    }
  }

  /** Text without `_` does not end like the start of a marker. */
  lemma NotLikeMarkerStart(root: string)
    requires '_' !in root
    ensures !EndsLikeMarkerStart(root)
  {
    var w8, w9 := MarkerString[..8], MarkerString[..9];
    assert w8[0] == '_' && w9[0] == '_';
    if |root| >= 8 {
      assert root[|root| - 8..][0] == root[|root| - 8] != '_';
    }
    if |root| >= 9 {
      assert root[|root| - 9..][0] == root[|root| - 9] != '_';
    }
  }

  /** The round trip as written fails for every base name ending in `__MARKAS`: the
      decoder finds the marker eight characters early and returns another path and
      another category, while all the conditions of the intended round trip but the
      last are met. */
  lemma CategoryRoundTripFails(dir: string, x: string, c: string, e: string)
    requires dir != [] && dir[|dir| - 1] != Paths.Separator && '_' !in dir
    requires '_' !in x && Paths.Separator !in x
    requires '_' !in c && '.' !in c && Paths.Separator !in c
    requires e != [] && '_' !in e && '.' !in e && Paths.Separator !in e
    ensures var p := dir + [Paths.Separator] + (x + MarkerString[..8]) + ("." + e);
      Taggable(p) && PlainCategory(c) && EndsLikeMarkerStart(RootNoExtension(p)) &&
      GetCategoryFromFilename(AddCategoryToFilename(p, c)) ==
        Ok((dir + [Paths.Separator] + x + "." + e, MarkerString[2..] + c)) &&
      GetCategoryFromFilename(AddCategoryToFilename(p, c)) != Ok((p, c))
  {
    var w, v1, v2 := MarkerString[..8], MarkerString[2..8], MarkerString[8..];
    MarkerShape();
    var a := dir + [Paths.Separator] + x;
    var p := dir + [Paths.Separator] + (x + w) + ("." + e);
    EarlyMarkerPath(dir, x, w, e);
    var root := RootNoExtension(p);
    Text.Associative(dir + [Paths.Separator], x, w);
    assert root == a + w;
    assert root[|root| - 8..] == w;
    NoUnderscore(c);
    NoDot(c);
    assert PlainCategory(c);
    assert AddCategoryToFilename(p, c) == root + MarkerString + c + ("." + e);
    ShiftMarker(a, w, MarkerString, v1 + v2, c, e);
    DecodeEarlyMarker(a, v1, v2, c, e);
    assert |MarkerString[2..] + c| != |c|;
  }

  /** The facts about the marker's own text that the failing round trip uses. */
  lemma MarkerShape()
    ensures MarkerString[..8] + MarkerString == MarkerString + (MarkerString[2..8] + MarkerString[8..])
    ensures MarkerString[2..8] + MarkerString[8..] == MarkerString[2..]
    ensures |MarkerString[..8]| == 8 && |MarkerString[8..]| == 2
    ensures '_' !in MarkerString[2..8] && '.' !in MarkerString[2..]
    ensures Paths.Separator !in MarkerString && Paths.Separator !in MarkerString[..8]
  {
  }

  lemma ShiftMarker(a: string, w: string, m: string, v: string, c: string, e: string)
    requires w + m == m + v
    ensures a + w + m + c + ("." + e) == a + m + (v + c + "." + e)
  {
    calc {
      a + w + m + c + ("." + e);
      a + (w + m) + c + ("." + e);
      a + (m + v) + c + ("." + e);
      a + m + (v + c + "." + e);
    }
  }

  /** The path of the failing round trip is taggable, and its root is the directory, a
      separator, the name and the start of a marker. */
  lemma EarlyMarkerPath(dir: string, x: string, w: string, e: string)
    requires dir != [] && dir[|dir| - 1] != Paths.Separator && '_' !in dir
    requires '_' !in x && Paths.Separator !in x
    requires w != [] && |w| <= 8 && Paths.Separator !in w
    requires e != [] && '_' !in e && '.' !in e && Paths.Separator !in e
    ensures var p := dir + [Paths.Separator] + (x + w) + ("." + e);
      Taggable(p) && RootNoExtension(p) == dir + [Paths.Separator] + (x + w) &&
      Paths.GetExtension(p) == "." + e
  {
    var stem := x + w;
    var p := dir + [Paths.Separator] + stem + ("." + e);
    Paths.BuiltPath(dir, true, stem, "." + e);
    Text.Associative(dir + [Paths.Separator], stem, "." + e);
    Paths.WellFormedBuilt(dir, stem + ("." + e));
    PathUnderscores(dir, x, w, e);
  }

  lemma PathUnderscores(dir: string, x: string, w: string, e: string)
    requires '_' !in dir && '_' !in x && |w| <= 8 && '_' !in e
    ensures !Text.Contains(dir + [Paths.Separator] + (x + w) + ("." + e), MarkerString)
  {
    var a := dir + [Paths.Separator] + x;
    forall k | 0 <= k < |a| ensures a[k] != '_' {
      if k < |dir| { assert a[k] == dir[k]; }
      else if k > |dir| { assert a[k] == x[k - |dir| - 1]; }
    }
    Text.Associative(dir + [Paths.Separator], x, w);
    UnderscoresIn(a, w, "." + e);
  }

  /** Decoding `a + marker + t`, where `a` has no `_` and `t` holds no marker, finds the
      marker right after `a`. */
  lemma DecodeEarlyMarker(a: string, v1: string, v2: string, c: string, e: string)
    requires '_' !in a && '_' !in v1 && |v2| <= 8 && '_' !in c && '_' !in e
    requires '.' !in v1 + v2 && '.' !in c && '.' !in e
    requires Paths.Separator !in v1 + v2 && Paths.Separator !in c && Paths.Separator !in e
    ensures GetCategoryFromFilename(a + MarkerString + (v1 + v2 + c + "." + e)) ==
      Ok((a + "." + e, v1 + v2 + c))
  {
    var t := v1 + v2 + c + "." + e;
    MarkerShape();
    assert Paths.Separator !in t;
    UnderscoreDirectory(a, MarkerString + t);
    Text.Associative(a, MarkerString, t);
    Text.Associative(v1 + v2, c, ".");
    Text.Associative(v1 + v2, c + ".", e);
    Text.Associative(v1, v2, c + "." + e);
    UnderscoresIn(v1, v2, c + "." + e);
    SplitAfterPlain(a, t);
    NoDot(v1 + v2 + c);
    SplitCategory(v1 + v2 + c, e);
    DecodeFromSplits(a + MarkerString + t, a, t, v1 + v2 + c, e);
  }

  /** The decoder's result, read off the two splits it makes. */
  lemma DecodeFromSplits(s: string, root: string, t: string, category: string, e: string)
    requires !Text.Contains(Paths.GetDirectoryName(s), MarkerString)
    requires Text.Split(s, MarkerString) == [root, t] && Text.Split(t, ".") == [category, e]
    ensures GetCategoryFromFilename(s) == Ok((root + "." + e, category))
  {
  }

  /** The directory of a path whose text up to the end of the directory has no `_`
      holds no marker. */
  lemma UnderscoreDirectory(a: string, r: string)
    requires '_' !in a && Paths.Separator !in r
    ensures !Text.Contains(Paths.GetDirectoryName(a + r), MarkerString)
  {
    Paths.DirectoryOfAppend(a, r);
    var dir := Paths.GetDirectoryName(a);
    Paths.FreeSlice(a, '_', 0, |dir|);
    assert a[..|dir|] == dir;
    NoUnderscore(dir);
  }

  /** A marker after text with no `_` is the first one. */
  lemma SplitAfterPlain(a: string, t: string)
    requires '_' !in a && !Text.Contains(t, MarkerString)
    ensures Text.Split(a + MarkerString + t, MarkerString) == [a, t]
  {
    var s := a + MarkerString + t;
    forall j | 0 <= j < |a| ensures !Text.OccursAt(s, MarkerString, j) {
      assert s[j] == a[j];
      NotAtOther(s, j);
    }
    Text.FirstOccurrence(a, MarkerString, t);
    Text.SplitAround(a, MarkerString, t);
    Text.SplitFree(t, MarkerString);
  }

  /** A string whose `_` all lie in a piece of at most eight characters holds no marker:
      the marker has `_` at its positions 0 and 8. */
  lemma UnderscoresIn(a: string, w: string, b: string)
    requires '_' !in a && |w| <= 8 && '_' !in b
    ensures !Text.Contains(a + w + b, MarkerString)
  {
    var s := a + w + b;
    forall j | 0 <= j ensures !Text.OccursAt(s, MarkerString, j) {
      if j + 10 <= |s| {
        assert s[j..j + 10][0] == s[j];
        assert s[j..j + 10][8] == s[j + 8];
        if j < |a| {
          assert s[j] == a[j];
        } else {
          assert s[j + 8] == b[j + 8 - |a| - |w|];
        }
      }
    }
  }

  lemma NoUnderscore(s: string)
    requires '_' !in s
    ensures !Text.Contains(s, MarkerString)
  {
    UnderscoresIn(s, [], []);
    assert s + [] + [] == s;
  }

  /** The marker starts with `_`, so it does not occur at a position holding anything
      else. */
  lemma NotAtOther(s: string, j: nat)
    requires j < |s| && s[j] != '_'
    ensures !Text.OccursAt(s, MarkerString, j)
  {
    if j + 10 <= |s| {
      assert s[j..j + 10][0] == s[j];
    }
  }

  // ---------------------------------------------------------------------------------
  // Comparing paths without extensions

  /** `FilenameUtils.SameExceptExtension`: directory and base name agree, ignoring case. */
  function SameExceptExtension(path1: string, path2: string): (r: bool)
    ensures Text.Upper(Paths.GetDirectoryName(path1)) == Text.Upper(Paths.GetDirectoryName(path2)) ==>
      (Text.Upper(Paths.GetFileNameWithoutExtension(path1)) ==
       Text.Upper(Paths.GetFileNameWithoutExtension(path2))) ==> r
    ensures r ==> |RootNoExtension(path1)| == |RootNoExtension(path2)|
  {
    Paths.UpperCombine(Paths.GetDirectoryName(path1), Paths.GetFileNameWithoutExtension(path1));
    Paths.UpperCombine(Paths.GetDirectoryName(path2), Paths.GetFileNameWithoutExtension(path2));
    Text.Upper(RootNoExtension(path1)) == Text.Upper(RootNoExtension(path2))
  }

  /** For well-formed paths with non-empty base names the comparison is exact: true
      precisely when the directories and the base names agree up to case. So `a.png`
      and `b.png` differ, while `A.png` and `a.jpg` agree. */
  lemma SameExceptExtensionParts(p: string, q: string)
    requires Paths.WellFormed(p) && Paths.GetFileNameWithoutExtension(p) != ""
    requires Paths.WellFormed(q) && Paths.GetFileNameWithoutExtension(q) != ""
    ensures SameExceptExtension(p, q) <==>
      Text.Upper(Paths.GetDirectoryName(p)) == Text.Upper(Paths.GetDirectoryName(q)) &&
      Text.Upper(Paths.GetFileNameWithoutExtension(p)) == Text.Upper(Paths.GetFileNameWithoutExtension(q))
  {
    UpperRootParts(p);
    UpperRootParts(q);
  }

  /** The upper-cased root of a well-formed path with a base name splits back into the
      upper-cased directory and base name. */
  lemma UpperRootParts(p: string)
    requires Paths.WellFormed(p) && Paths.GetFileNameWithoutExtension(p) != ""
    ensures var x := Text.Upper(RootNoExtension(p));
      Paths.GetDirectoryName(x) == Text.Upper(Paths.GetDirectoryName(p)) &&
      Paths.GetFileName(x) == Text.Upper(Paths.GetFileNameWithoutExtension(p))
  {
    var dir, stem := Paths.GetDirectoryName(p), Paths.GetFileNameWithoutExtension(p);
    var ud, us := Text.Upper(dir), Text.Upper(stem);
    Paths.WellFormedDirectory(p);
    Paths.UpperCombine(dir, stem);
    Paths.UpperKeepsSeparators(dir);
    Paths.UpperKeepsSeparators(stem);
    assert Paths.Separator !in us;
    assert Paths.Combine(ud, us) == if ud == "" then us else ud + [Paths.Separator] + us;
    Paths.NameAfterDirectory(ud, ud != "", us);
  }

  /** A path is the same except for the extension as itself with any other extension. */
  lemma SameExceptExtensionOfRenamed(path: string, e: string)
    requires Paths.WellFormed(path) && Paths.GetFileNameWithoutExtension(path) != ""
    requires |e| >= 2 && e[0] == '.' && '.' !in e[1..] && Paths.Separator !in e
    ensures SameExceptExtension(path, RootNoExtension(path) + e)
  {
    Paths.WithExtension(path, e);
  }
}
