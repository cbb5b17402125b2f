/**
 * `StringComparer.OrdinalIgnoreCase` and the two library algorithms the snapshot and the
 * navigation run with it: `Array.Sort` and `Array.BinarySearch`.
 * The comparer upper-cases both strings character by character and compares the results
 * ordinally (lexicographically by code unit, a proper prefix sorting first).
 */
module Collation {
  import opened Text

  /** Lexicographic "strictly less" on code units. */
  predicate LexLess(a: string, b: string)
    decreases |a|
  {
    if a == [] then b != []
    else b != [] && (a[0] < b[0] || (a[0] == b[0] && LexLess(a[1..], b[1..])))
  }

  lemma {:induction false} LexLessIrreflexive(a: string)
    ensures !LexLess(a, a)
    decreases |a|
  {
    if a != [] { LexLessIrreflexive(a[1..]); }
  }

  lemma {:induction false} LexLessTransitive(a: string, b: string, c: string)
    requires LexLess(a, b) && LexLess(b, c)
    ensures LexLess(a, c)
    decreases |a|
  {
    if a != [] && a[0] == b[0] && b[0] == c[0] {
      LexLessTransitive(a[1..], b[1..], c[1..]);
    }
  }

  lemma {:induction false} LexLessTotal(a: string, b: string)
    ensures a == b || LexLess(a, b) || LexLess(b, a)
    decreases |a|
  {
    if a != [] && b != [] && a[0] == b[0] {
      LexLessTotal(a[1..], b[1..]);
      if a[1..] == b[1..] {
        assert a == [a[0]] + a[1..] && b == [b[0]] + b[1..];
      }
    }
  }

  /** The case fold of OrdinalIgnoreCase. */
  function Fold(s: string): string {
    Upper(s)
  }

  /** `OrdinalIgnoreCase.Compare(a, b) < 0`. */
  predicate Less(a: string, b: string) {
    LexLess(Fold(a), Fold(b))
  }

  /** `OrdinalIgnoreCase.Compare(a, b) == 0`. */
  predicate Same(a: string, b: string) {
    Fold(a) == Fold(b)
  }

  /** `OrdinalIgnoreCase.Compare(a, b) <= 0`. */
  predicate AtMost(a: string, b: string) {
    !Less(b, a)
  }

  /** The comparer is a total preorder: exactly one of less, same, greater. */
  lemma Trichotomy(a: string, b: string)
    ensures Less(a, b) || Same(a, b) || Less(b, a)
    ensures !(Less(a, b) && Same(a, b)) && !(Less(a, b) && Less(b, a)) && !(Same(a, b) && Less(b, a))
  {
    LexLessTotal(Fold(a), Fold(b));
    LexLessIrreflexive(Fold(a));
    LexLessIrreflexive(Fold(b));
    if Less(a, b) && Less(b, a) {
      LexLessTransitive(Fold(a), Fold(b), Fold(a));
    }
  }

  lemma AtMostIff(a: string, b: string)
    ensures AtMost(a, b) <==> Less(a, b) || Same(a, b)
  {
    Trichotomy(a, b);
  }

  lemma LessAtMost(a: string, b: string, c: string)
    requires Less(a, b) && AtMost(b, c)
    ensures Less(a, c)
  {
    Trichotomy(b, c);
    if Less(b, c) { LexLessTransitive(Fold(a), Fold(b), Fold(c)); }
  }

  lemma AtMostLess(a: string, b: string, c: string)
    requires AtMost(a, b) && Less(b, c)
    ensures Less(a, c)
  {
    Trichotomy(a, b);
    if Less(a, b) { LexLessTransitive(Fold(a), Fold(b), Fold(c)); }
  }

  lemma AtMostTransitive(a: string, b: string, c: string)
    requires AtMost(a, b) && AtMost(b, c)
    ensures AtMost(a, c)
  {
    Trichotomy(a, b);
    Trichotomy(b, c);
    Trichotomy(a, c);
    if Less(a, b) { LessAtMost(a, b, c); }
    else if Less(b, c) { AtMostLess(a, b, c); }
  }

  /** Sorted by OrdinalIgnoreCase, case-insensitive duplicates allowed. */
  predicate Sorted(s: seq<string>) {
    forall i, j {:trigger AtMost(s[i], s[j])} :: 0 <= i < j < |s| ==> AtMost(s[i], s[j])
  }

  /** Sorted by OrdinalIgnoreCase with no two entries equal under the fold. */
  predicate StrictlySorted(s: seq<string>) {
    forall i, j {:trigger Less(s[i], s[j])} :: 0 <= i < j < |s| ==> Less(s[i], s[j])
  }

  /** No two positions hold entries that are equal under the fold. */
  predicate FoldDistinct(s: seq<string>) {
    forall i, j :: 0 <= i < j < |s| ==> !Same(s[i], s[j])
  }

  lemma StrictlySortedIsSorted(s: seq<string>)
    requires StrictlySorted(s)
    ensures Sorted(s) && FoldDistinct(s)
  {
    forall i, j | 0 <= i < j < |s| ensures AtMost(s[i], s[j]) && !Same(s[i], s[j]) {
      Trichotomy(s[i], s[j]);
    }
  }

  /** One insertion step of the sort. */
  function Insert(x: string, s: seq<string>): (r: seq<string>)
    ensures |r| == |s| + 1
  {
    if s == [] then [x]
    else if AtMost(x, s[0]) then [x] + s
    else [s[0]] + Insert(x, s[1..])
  }

  /** `Array.Sort(list, StringComparer.OrdinalIgnoreCase)`, as an insertion sort. */
  function SortIgnoreCase(s: seq<string>): (r: seq<string>)
    ensures |r| == |s|
  {
    if s == [] then [] else Insert(s[0], SortIgnoreCase(s[1..]))
  }

  lemma {:induction false} InsertElements(x: string, s: seq<string>)
    ensures multiset(Insert(x, s)) == multiset(s) + multiset{x}
    decreases |s|
  {
    if s != [] && !AtMost(x, s[0]) {
      InsertElements(x, s[1..]);
      assert s == [s[0]] + s[1..];
    }
  }

  /** Every entry of `Insert(x, s)` is `x` or an entry of `s`. */
  lemma InsertFrom(x: string, s: seq<string>, k: int)
    requires 0 <= k < |Insert(x, s)|
    ensures Insert(x, s)[k] == x || exists m :: 0 <= m < |s| && s[m] == Insert(x, s)[k]
  {
    InsertElements(x, s);
    var it := Insert(x, s);
    assert it[k] in multiset(it);
  }

  lemma {:induction false} InsertSorted(x: string, s: seq<string>)
    requires Sorted(s)
    ensures Sorted(Insert(x, s))
    decreases |s|
  {
    if s == [] {
    } else if AtMost(x, s[0]) {
      var r := [x] + s;
      forall i, j | 0 <= i < j < |r| ensures AtMost(r[i], r[j]) {
        if i == 0 && j > 1 { AtMostTransitive(x, s[0], s[j - 1]); }
      }
    } else {
      var t := s[1..];
      InsertSorted(x, t);
      var it := Insert(x, t);
      Trichotomy(x, s[0]);
      forall k | 0 <= k < |it| ensures AtMost(s[0], it[k]) {
        InsertFrom(x, t, k);
        if it[k] == x {
          AtMostIff(s[0], x);
        } else {
          var m :| 0 <= m < |t| && t[m] == it[k];
          assert s[m + 1] == it[k];
        }
      }
      SortedCons(s[0], it);
    }
  }

  lemma SortedCons(y: string, t: seq<string>)
    requires Sorted(t) && forall k :: 0 <= k < |t| ==> AtMost(y, t[k])
    ensures Sorted([y] + t)
  {
    var r := [y] + t;
    forall i, j | 0 <= i < j < |r| ensures AtMost(r[i], r[j]) {
      if i == 0 { assert r[j] == t[j - 1]; } else { assert r[i] == t[i - 1] && r[j] == t[j - 1]; }
    }
  }

  lemma StrictlySortedCons(y: string, t: seq<string>)
    requires StrictlySorted(t) && forall k :: 0 <= k < |t| ==> Less(y, t[k])
    ensures StrictlySorted([y] + t)
  {
    var r := [y] + t;
    forall i, j | 0 <= i < j < |r| ensures Less(r[i], r[j]) {
      if i == 0 { assert r[j] == t[j - 1]; } else { assert r[i] == t[i - 1] && r[j] == t[j - 1]; }
    }
  }

  lemma {:induction false} InsertStrictlySorted(x: string, s: seq<string>)
    requires StrictlySorted(s)
    requires forall k :: 0 <= k < |s| ==> !Same(x, s[k])
    ensures StrictlySorted(Insert(x, s))
    decreases |s|
  {
    if s == [] {
    } else if AtMost(x, s[0]) {
      AtMostIff(x, s[0]);
      forall k | 0 <= k < |s| ensures Less(x, s[k]) {
        if k > 0 { Trichotomy(s[0], s[k]); LessAtMost(x, s[0], s[k]); }
      }
      StrictlySortedCons(x, s);
    } else {
      var t := s[1..];
      assert forall k :: 0 <= k < |t| ==> t[k] == s[k + 1];
      InsertStrictlySorted(x, t);
      var it := Insert(x, t);
      Trichotomy(x, s[0]);
      forall k | 0 <= k < |it| ensures Less(s[0], it[k]) {
        InsertFrom(x, t, k);
        if it[k] != x {
          var m :| 0 <= m < |t| && t[m] == it[k];
          assert s[m + 1] == it[k];
        }
      }
      StrictlySortedCons(s[0], it);
    }
  }

  /** The sort returns a sorted permutation of its input, strictly sorted when the input has
      no two entries equal under the fold (a case-insensitive file system guarantees this). */
  lemma SortIgnoreCaseCorrect(s: seq<string>)
    ensures multiset(SortIgnoreCase(s)) == multiset(s)
    ensures Sorted(SortIgnoreCase(s))
    ensures FoldDistinct(s) ==> StrictlySorted(SortIgnoreCase(s))
  {
    SortPermutes(s);
    SortSorts(s);
    if FoldDistinct(s) { SortStrict(s); }
  }

  lemma {:induction false} SortPermutes(s: seq<string>)
    ensures multiset(SortIgnoreCase(s)) == multiset(s)
    decreases |s|
  {
    if s != [] {
      SortPermutes(s[1..]);
      InsertElements(s[0], SortIgnoreCase(s[1..]));
      assert s == [s[0]] + s[1..];
    }
  }

  lemma {:induction false} SortSorts(s: seq<string>)
    ensures Sorted(SortIgnoreCase(s))
    decreases |s|
  {
    if s != [] {
      SortSorts(s[1..]);
      InsertSorted(s[0], SortIgnoreCase(s[1..]));
    }
  }

  lemma {:induction false} SortStrict(s: seq<string>)
    requires FoldDistinct(s)
    ensures StrictlySorted(SortIgnoreCase(s))
    decreases |s|
  {
    if s != [] {
      var st := SortIgnoreCase(s[1..]);
      SortPermutes(s[1..]);
      HeadDistinct(s, st);
      SortStrict(s[1..]);
      InsertStrictlySorted(s[0], st);
    }
  }

  /** In a list without two entries the same under the fold, the first entry is the same
      as no entry of any permutation of the others, and the others are fold-distinct. */
  lemma HeadDistinct(s: seq<string>, st: seq<string>)
    requires s != [] && FoldDistinct(s) && multiset(st) == multiset(s[1..])
    ensures FoldDistinct(s[1..])
    ensures forall k :: 0 <= k < |st| ==> !Same(s[0], st[k])
  {
    var t := s[1..];
    assert forall k :: 0 <= k < |t| ==> t[k] == s[k + 1];
    forall k | 0 <= k < |st| ensures !Same(s[0], st[k]) {
      assert st[k] in multiset(st);
      var m :| 0 <= m < |t| && t[m] == st[k];
      assert s[m + 1] == st[k];
    }
  }

  /** `Array.BinarySearch(list, lo, hi - lo + 1, key, OrdinalIgnoreCase)`: the index of an
      entry equal to `key` under the fold, or the bitwise complement `-p - 1` of the
      insertion point `p` when there is none. */
  function Search(list: seq<string>, key: string, lo: int, hi: int): (r: int)
    requires 0 <= lo <= hi + 1 <= |list|
    ensures r >= 0 ==> lo <= r <= hi
    ensures r < 0 ==> lo <= -r - 1 <= hi + 1
    decreases hi - lo + 1
  {
    if lo > hi then -lo - 1
    else
      var mid := lo + (hi - lo) / 2;
      if Same(list[mid], key) then mid
      else if Less(list[mid], key) then Search(list, key, mid + 1, hi)
      else Search(list, key, lo, mid - 1)
  }

  function BinarySearch(list: seq<string>, key: string): (r: int)
    ensures -|list| - 1 <= r < |list|
  {
    Search(list, key, 0, |list| - 1)
  }

  /** Every entry before index `p` sorts strictly below `key`. */
  predicate AllBelow(list: seq<string>, key: string, p: int) {
    forall i {:trigger Less(list[i], key)} :: 0 <= i < p && i < |list| ==> Less(list[i], key)
  }

  /** Every entry from index `p` on sorts strictly above `key`. */
  predicate AllAbove(list: seq<string>, key: string, p: int) {
    forall i {:trigger Less(key, list[i])} :: 0 <= p <= i < |list| ==> Less(key, list[i])
  }

  /** What a search result reports about `key`: a hit is an entry equal to it, and a miss
      `-p - 1` an insertion point `p` with every entry before it below the key and every
      entry from it on above. */
  predicate Reports(list: seq<string>, key: string, r: int) {
    (r >= 0 ==> r < |list| && Same(list[r], key)) &&
    (r < 0 ==> AllBelow(list, key, -r - 1) && AllAbove(list, key, -r - 1))
  }

  /** On a sorted list a hit is an entry equal to the key, and a miss reports the insertion
      point: every entry before it sorts below the key and every entry from it on above. */
  lemma {:induction false} SearchCorrect(list: seq<string>, key: string, lo: int, hi: int)
    requires 0 <= lo <= hi + 1 <= |list| && Sorted(list)
    requires AllBelow(list, key, lo) && AllAbove(list, key, hi + 1)
    ensures Reports(list, key, Search(list, key, lo, hi))
    decreases hi - lo + 1
  {
    if lo <= hi {
      var mid := lo + (hi - lo) / 2;
      SearchStep(list, key, lo, hi);
      if Same(list[mid], key) {
      } else if Less(list[mid], key) {
        BelowMid(list, key, mid);
        SearchCorrect(list, key, mid + 1, hi);
      } else {
        Trichotomy(list[mid], key);
        AboveMid(list, key, mid);
        SearchCorrect(list, key, lo, mid - 1);
      }
    }
  }

  /** One step of the search: compare with the middle entry and go to one half. */
  lemma SearchStep(list: seq<string>, key: string, lo: int, hi: int)
    requires 0 <= lo <= hi < |list|
    ensures var mid := lo + (hi - lo) / 2;
      lo <= mid <= hi &&
      Search(list, key, lo, hi) ==
        if Same(list[mid], key) then mid
        else if Less(list[mid], key) then Search(list, key, mid + 1, hi)
        else Search(list, key, lo, mid - 1)
  {
  }

  lemma BelowMid(list: seq<string>, key: string, mid: int)
    requires Sorted(list) && 0 <= mid < |list| && Less(list[mid], key)
    ensures AllBelow(list, key, mid + 1)
  {
    forall i | 0 <= i < mid ensures Less(list[i], key) {
      AtMostLess(list[i], list[mid], key);
    }
  }

  lemma AboveMid(list: seq<string>, key: string, mid: int)
    requires Sorted(list) && 0 <= mid < |list| && Less(key, list[mid])
    ensures AllAbove(list, key, mid)
  {
    forall i | mid < i < |list| ensures Less(key, list[i]) {
      LessAtMost(key, list[mid], list[i]);
    }
  }
}
