/**
 * The Microsoft C runtime / `CommandLineToArgvW` rules for splitting a command line
 * (everything after the program name) into arguments, less one rule: a pair `""`
 * inside a quoted run is not read as a literal `"`. This is the reading that
 * `Utils.CombineProcessArguments` serialises for, used here as its inverse; its output
 * never reaches that rule, because every `"` it writes within an argument is escaped
 * with a backslash and every closing `"` is followed by a space or the end.
 *
 * - Arguments are separated by runs of spaces and tabs outside quotes.
 * - A `"` toggles the quoted state and is not part of the argument.
 * - `2n` backslashes before a `"` give `n` backslashes and the `"` toggles the state;
 *   `2n + 1` backslashes before a `"` give `n` backslashes and a literal `"`.
 * - Backslashes not followed by a `"` are literal.
 */
module Argv {
  predicate IsSeparator(c: char) {
    c == ' ' || c == '\t'
  }

  /** `n` backslashes. */
  function Backslashes(n: nat): (r: string)
    ensures |r| == n && forall i :: 0 <= i < n ==> r[i] == '\\'
  {
    if n == 0 then [] else ['\\'] + Backslashes(n - 1)
  }

  /** The length of the run of backslashes at the start of `s`. */
  function LeadingBackslashes(s: string): (n: nat)
    ensures n <= |s|
    ensures forall i :: 0 <= i < n ==> s[i] == '\\'
    ensures n < |s| ==> s[n] != '\\'
  {
    if s != [] && s[0] == '\\' then 1 + LeadingBackslashes(s[1..]) else 0
  }

  lemma {:induction false} LeadingBackslashesAppend(k: nat, t: string)
    ensures LeadingBackslashes(Backslashes(k) + t) == k + LeadingBackslashes(t)
  {
    if k > 0 {
      var s := Backslashes(k) + t;
      assert s[0] == '\\' && s[1..] == Backslashes(k - 1) + t;
      LeadingBackslashesAppend(k - 1, t);
      assert LeadingBackslashes(s) == 1 + LeadingBackslashes(s[1..]);
    } else {
      assert Backslashes(k) + t == t;
    }
  }

  /** A pair of an argument read so far and the text left to read. */
  datatype Read = Read(arg: string, rest: string)

  function Prepend(p: string, r: Read): Read {
    Read(p + r.arg, r.rest)
  }

  /** Reads one argument from `s` in the given quoted state; stops before an unquoted
      separator or at the end. What is left is no longer than the input, and shorter
      unless the input is empty or starts with an unquoted separator. */
  function ReadArg(s: string, quoted: bool): (r: Read)
    ensures |r.rest| <= |s|
    ensures s != [] && (quoted || !IsSeparator(s[0])) ==> |r.rest| < |s|
    decreases |s|
  {
    if s == [] then Read([], [])
    else if !quoted && IsSeparator(s[0]) then Read([], s)
    else if s[0] == '\\' then
      var n := LeadingBackslashes(s);
      if n < |s| && s[n] == '"' then
        if n % 2 == 1 then Prepend(Backslashes(n / 2) + ['"'], ReadArg(s[n + 1..], quoted))
        else Prepend(Backslashes(n / 2), ReadArg(s[n..], quoted))
      else Prepend(s[..n], ReadArg(s[n..], quoted))
    else if s[0] == '"' then ReadArg(s[1..], !quoted)
    else Prepend([s[0]], ReadArg(s[1..], quoted))
  }

  function SkipSeparators(s: string): (r: string)
    ensures |r| <= |s| && (r != [] ==> !IsSeparator(r[0]))
  {
    if s != [] && IsSeparator(s[0]) then SkipSeparators(s[1..]) else s
  }

  /** The arguments of a command line. */
  function Parse(s: string): seq<string>
    decreases |s|
  {
    var t := SkipSeparators(s);
    if t == [] then []
    else
      var r := ReadArg(t, false);
      [r.arg] + Parse(r.rest)
  }

  /** Reading a run of `k` backslashes followed by a quote. */
  lemma ReadRunBeforeQuote(k: nat, t: string, quoted: bool)
    requires k > 0
    ensures ReadArg(Backslashes(k) + ['"'] + t, quoted) ==
      if k % 2 == 1 then Prepend(Backslashes(k / 2) + ['"'], ReadArg(t, quoted))
      else Prepend(Backslashes(k / 2), ReadArg(['"'] + t, quoted))
  {
    var s := Backslashes(k) + ['"'] + t;
    assert s == Backslashes(k) + (['"'] + t);
    LeadingBackslashesAppend(k, ['"'] + t);
    assert s[0] == '\\' && s[k] == '"';
    if k % 2 == 1 {
      ReadOddRun(s, k, quoted);
    } else {
      ReadEvenRun(s, k, quoted);
    }
    assert s[k + 1..] == t;
    assert s[k..] == ['"'] + t;
  }

  /** Reading text that starts with an odd run of `n` backslashes and a quote. */
  lemma ReadOddRun(s: string, n: nat, quoted: bool)
    requires s != [] && s[0] == '\\' && n == LeadingBackslashes(s) && n < |s| && s[n] == '"'
    requires n % 2 == 1
    ensures ReadArg(s, quoted) == Prepend(Backslashes(n / 2) + ['"'], ReadArg(s[n + 1..], quoted))
  {
  }

  /** Reading text that starts with an even run of `n` backslashes and a quote. */
  lemma ReadEvenRun(s: string, n: nat, quoted: bool)
    requires s != [] && s[0] == '\\' && n == LeadingBackslashes(s) && n < |s| && s[n] == '"'
    requires n % 2 == 0
    ensures ReadArg(s, quoted) == Prepend(Backslashes(n / 2), ReadArg(s[n..], quoted))
  {
  }

  /** Reading a run of `k` backslashes followed by something other than a quote. */
  lemma ReadRunPlain(k: nat, t: string, quoted: bool)
    requires k > 0 && t != [] && t[0] != '"' && t[0] != '\\'
    ensures ReadArg(Backslashes(k) + t, quoted) == Prepend(Backslashes(k), ReadArg(t, quoted))
  {
    var s := Backslashes(k) + t;
    LeadingBackslashesAppend(k, t);
    assert s[k] == t[0];
    assert s[..k] == Backslashes(k);
    assert s[k..] == t;
  }

  /** Reading a run of `k` backslashes that ends the text. */
  lemma ReadRunFinal(k: nat, quoted: bool)
    requires k > 0
    ensures ReadArg(Backslashes(k), quoted) == Read(Backslashes(k), [])
  {
    var s := Backslashes(k);
    LeadingBackslashesAppend(k, []);
    assert s + [] == s;
    assert s[..k] == s && s[k..] == [];
  }
}
