/**
 * The parts of the .NET string library the core relies on, over `seq<char>`:
 * invariant case mapping (ASCII only), ordinal prefix and suffix tests,
 * substring search, `Split` on a non-empty separator, `Join` and `Replace`.
 */
module Text {
  import opened Wrappers

  /** `char.ToLowerInvariant`, restricted to ASCII. */
  function ToLower(c: char): char {
    if 'A' <= c <= 'Z' then (c as int + 32) as char else c
  }

  /** `char.ToUpperInvariant`, restricted to ASCII. */
  function ToUpper(c: char): char {
    if 'a' <= c <= 'z' then (c as int - 32) as char else c
  }

  /** `string.ToLowerInvariant`: maps every character, keeps the length. */
  function Lower(s: string): (r: string)
    ensures |r| == |s|
    ensures forall i :: 0 <= i < |s| ==> r[i] == ToLower(s[i])
  {
    seq(|s|, i requires 0 <= i < |s| => ToLower(s[i]))
  }

  /** `string.ToUpperInvariant`: maps every character, keeps the length. */
  function Upper(s: string): (r: string)
    ensures |r| == |s|
    ensures forall i :: 0 <= i < |s| ==> r[i] == ToUpper(s[i])
  {
    seq(|s|, i requires 0 <= i < |s| => ToUpper(s[i]))
  }

  /** Ordinal `StartsWith`. */
  predicate StartsWith(s: string, prefix: string) {
    |prefix| <= |s| && s[..|prefix|] == prefix
  }

  /** Ordinal `EndsWith`. */
  predicate EndsWith(s: string, suffix: string) {
    |suffix| <= |s| && s[|s| - |suffix|..] == suffix
  }

  /** `m` occurs in `s` starting at index `i`. */
  predicate OccursAt(s: string, m: string, i: int) {
    0 <= i && i + |m| <= |s| && s[i..i + |m|] == m
  }

  lemma OccursAtTail(s: string, m: string, j: int)
    requires |s| > 0 && j >= 0
    ensures OccursAt(s, m, j + 1) <==> OccursAt(s[1..], m, j)
  {
    if 0 <= j && j + 1 + |m| <= |s| {
      assert s[1..][j..j + |m|] == s[j + 1..j + 1 + |m|];
    }
  }

  /** Ordinal `IndexOf`: the first occurrence of `m` in `s`, if any. */
  function IndexOf(s: string, m: string): (r: Option<nat>)
    ensures r.Some? ==> OccursAt(s, m, r.value)
    ensures r.Some? ==> forall j :: 0 <= j < r.value ==> !OccursAt(s, m, j)
    ensures r.None? ==> forall j :: !OccursAt(s, m, j)
    decreases |s|
  {
    if |s| < |m| then None
    else if s[..|m|] == m then Some(0)
    else
      var tail := IndexOf(s[1..], m);
      assert !OccursAt(s, m, 0);
      assert forall j :: j >= 1 ==> (OccursAt(s, m, j) <==> OccursAt(s[1..], m, j - 1)) by {
        forall j | j >= 1 ensures OccursAt(s, m, j) <==> OccursAt(s[1..], m, j - 1) {
          OccursAtTail(s, m, j - 1);
        }
      }
      match tail
      case None => None
      case Some(k) => Some(k + 1)
  }

  /** Ordinal `Contains`. */
  predicate Contains(s: string, m: string) {
    IndexOf(s, m).Some?
  }

  /** `string.Split(new[] { sep }, StringSplitOptions.None)` for a non-empty separator:
      occurrences are taken left to right without overlapping. */
  function Split(s: string, sep: string): (parts: seq<string>)
    requires |sep| > 0
    ensures |parts| >= 1
    decreases |s|
  {
    match IndexOf(s, sep)
    case None => [s]
    case Some(i) => [s[..i]] + Split(s[i + |sep|..], sep)
  }

  /** `string.Join(sep, parts)`. */
  function Join(parts: seq<string>, sep: string): string {
    if |parts| == 0 then ""
    else if |parts| == 1 then parts[0]
    else parts[0] + sep + Join(parts[1..], sep)
  }

  /** `string.Replace(pattern, replacement)` for a non-empty pattern. */
  function Replace(s: string, pattern: string, replacement: string): string
    requires |pattern| > 0
  {
    Join(Split(s, pattern), replacement)
  }

  /** Joining the pieces of a split with the same separator gives the string back. */
  lemma {:induction false} JoinSplit(s: string, sep: string)
    requires |sep| > 0
    ensures Join(Split(s, sep), sep) == s
    decreases |s|
  {
    match IndexOf(s, sep)
    case None =>
    case Some(i) =>
      var rest := s[i + |sep|..];
      JoinSplit(rest, sep);
      JoinCons(s[..i], Split(rest, sep), sep);
      AroundOccurrence(s, sep, i);
  }

  lemma JoinCons(x: string, parts: seq<string>, sep: string)
    requires |parts| >= 1
    ensures Join([x] + parts, sep) == x + sep + Join(parts, sep)
  {
    assert ([x] + parts)[1..] == parts;
  }

  /** A string is what comes before an occurrence, the occurrence and what comes after. */
  lemma AroundOccurrence(s: string, m: string, i: int)
    requires OccursAt(s, m, i)
    ensures s == s[..i] + m + s[i + |m|..]
  {
    assert s[i..i + |m|] == m;
    assert s == s[..i] + s[i..i + |m|] + s[i + |m|..];
  }

  /** No piece of a split contains the separator. */
  lemma {:induction false} SplitPiecesFree(s: string, sep: string)
    requires |sep| > 0
    ensures forall k :: 0 <= k < |Split(s, sep)| ==> !Contains(Split(s, sep)[k], sep)
    decreases |s|
  {
    match IndexOf(s, sep)
    case None =>
    case Some(i) =>
      var rest := s[i + |sep|..];
      SplitPiecesFree(rest, sep);
      assert !Contains(s[..i], sep) by {
        forall j | OccursAt(s[..i], sep, j) ensures false {
          assert s[..i][j..j + |sep|] == s[j..j + |sep|];
          assert OccursAt(s, sep, j);
        }
      }
  }

  /** A string that does not contain the separator splits into itself alone. */
  lemma SplitFree(s: string, sep: string)
    requires |sep| > 0 && !Contains(s, sep)
    ensures Split(s, sep) == [s]
  {
  }

  /** Splitting `a + sep + b`, where the first occurrence of `sep` is the one after `a`,
      gives `a` followed by the pieces of `b`. */
  lemma SplitAround(a: string, sep: string, b: string)
    requires |sep| > 0
    requires IndexOf(a + sep + b, sep) == Some(|a|)
    ensures Split(a + sep + b, sep) == [a] + Split(b, sep)
  {
    var s := a + sep + b;
    assert s[..|a|] == a;
    assert s[|a| + |sep|..] == b;
  }

  /** Case mapping works character by character, so it distributes over concatenation. */
  lemma UpperConcat(a: string, b: string)
    ensures Upper(a + b) == Upper(a) + Upper(b)
  {
    forall i | 0 <= i < |a + b| ensures Upper(a + b)[i] == (Upper(a) + Upper(b))[i] {
      if i < |a| { assert (a + b)[i] == a[i]; } else { assert (a + b)[i] == b[i - |a|]; }
    }
  }

  lemma Associative(a: string, b: string, c: string)
    ensures a + (b + c) == a + b + c
  {
  }

  /** An occurrence anywhere makes `Contains` true. */
  lemma ContainsAt(s: string, m: string, j: int)
    requires OccursAt(s, m, j)
    ensures Contains(s, m)
  {
  }

  /** A string that contains `m` still contains it with text added on either side. */
  lemma {:induction false} ContainsWithin(a: string, s: string, b: string, m: string)
    requires Contains(s, m)
    ensures Contains(a + s + b, m)
  {
    var j := IndexOf(s, m).value;
    assert (a + s + b)[|a| + j..|a| + j + |m|] == s[j..j + |m|];
    ContainsAt(a + s + b, m, |a| + j);
  }

  /** When `sep` occurs in `a + sep + b` nowhere before the end of `a`, the first
      occurrence is the one right after `a`. */
  lemma FirstOccurrence(a: string, sep: string, b: string)
    requires forall j :: 0 <= j < |a| ==> !OccursAt(a + sep + b, sep, j)
    ensures IndexOf(a + sep + b, sep) == Some(|a|)
  {
    var s := a + sep + b;
    assert s[|a|..|a| + |sep|] == sep;
    assert OccursAt(s, sep, |a|);
  }

  /** A `Join` of at least two parts ends with the separator and the last part. */
  lemma {:induction false} JoinSnoc(parts: seq<string>, sep: string)
    requires |parts| >= 2
    ensures Join(parts, sep) == Join(parts[..|parts| - 1], sep) + sep + parts[|parts| - 1]
  {
    if |parts| > 2 {
      JoinSnoc(parts[1..], sep);
      assert parts[1..][..|parts| - 2] == parts[..|parts| - 1][1..];
    }
  }

  /** A character that is in no part and not in the separator is not in the join. */
  lemma {:induction false} JoinFree(parts: seq<string>, sep: string, c: char)
    requires c !in sep && forall k :: 0 <= k < |parts| ==> c !in parts[k]
    ensures c !in Join(parts, sep)
  {
    if |parts| > 1 {
      JoinFree(parts[1..], sep, c);
    }
  }

  /** A character that is not in a join is in none of its parts. */
  lemma {:induction false} JoinedFree(parts: seq<string>, sep: string, c: char)
    requires c !in Join(parts, sep)
    ensures forall k :: 0 <= k < |parts| ==> c !in parts[k]
  {
    if |parts| > 1 {
      JoinedFree(parts[1..], sep, c);
      assert forall k :: 1 <= k < |parts| ==> parts[k] == parts[1..][k - 1];
    }
  }

  /** For a one-character separator, containing it is having the character. */
  lemma ContainsChar(s: string, c: char)
    ensures Contains(s, [c]) <==> c in s
  {
    if c in s {
      var j :| 0 <= j < |s| && s[j] == c;
      assert s[j..j + 1] == [c];
      ContainsAt(s, [c], j);
    }
    if Contains(s, [c]) {
      var j := IndexOf(s, [c]).value;
      assert s[j..j + 1][0] == s[j];
    }
  }

  /** Splitting on a character that the first part does not hold. */
  lemma SplitAfterFree(a: string, c: char, b: string)
    requires c !in a
    ensures Split(a + [c] + b, [c]) == [a] + Split(b, [c])
  {
    var s := a + [c] + b;
    forall j | 0 <= j < |a| ensures !OccursAt(s, [c], j) {
      assert s[j] == a[j];
      if j + 1 <= |s| { assert s[j..j + 1][0] == s[j]; }
    }
    FirstOccurrence(a, [c], b);
    SplitAround(a, [c], b);
  }
}
