/**
 * The small pure helpers of the `Utils` class: digit test, two-character prefix,
 * string splitting, clamped array access, and the serialiser that combines process
 * arguments into one command line.
 */
module Utils {
  import opened Wrappers
  import Text
  import Argv

  predicate IsDigitChar(c: char) {
    '0' <= c <= '9'
  }

  /** Non-empty and made of the digits 0-9 only. */
  predicate AllDigits(s: string) {
    |s| > 0 && forall i :: 0 <= i < |s| ==> IsDigitChar(s[i])
  }

  /** `Utils.IsDigits`: false for the empty string, otherwise false at the first non-digit. */
  method IsDigits(s: string) returns (r: bool)
    ensures r <==> |s| > 0 && forall i :: 0 <= i < |s| ==> IsDigitChar(s[i])
  {
    if |s| == 0 {
      return false;
    }
    for i := 0 to |s|
      invariant forall j :: 0 <= j < i ==> IsDigitChar(s[j])
    {
      if !IsDigitChar(s[i]) {
        return false;
      }
    }
    return true;
  }

  /** `Utils.FirstTwoChars`: the prefix of length `min(2, |s|)`. */
  function FirstTwoChars(s: string): (r: string)
    ensures Text.StartsWith(s, r)
    ensures |r| == if |s| < 2 then |s| else 2
  {
    s[..if |s| < 2 then |s| else 2]
  }

  /** `Utils.SplitByString`: the pieces between the occurrences of `delim`, which joined
      with `delim` give `s` back, and none of which contains `delim`; the first piece
      ends where the leftmost occurrence begins, so overlapping occurrences are cut
      from the left. */
  function SplitByString(s: string, delim: string): (parts: seq<string>)
    requires |delim| > 0
    ensures |parts| >= 1
    ensures Text.Join(parts, delim) == s
    ensures forall k :: 0 <= k < |parts| ==> !Text.Contains(parts[k], delim)
    ensures |parts| > 1 ==> Text.IndexOf(s, delim) == Some(|parts[0]|)
  {
    Text.JoinSplit(s, delim);
    Text.SplitPiecesFree(s, delim);
    Text.Split(s, delim)
  }

  /** `Utils.ArrayAt`: element access with the index clamped into the array. */
  function ArrayAt<T>(arr: seq<T>, index: int): (r: T)
    requires |arr| > 0
    ensures r in arr
    ensures 0 <= index < |arr| ==> r == arr[index]
    ensures index < 0 ==> r == arr[0]
    ensures index >= |arr| ==> r == arr[|arr| - 1]
  {
    if index < 0 then arr[0]
    else if index >= |arr| - 1 then arr[|arr| - 1]
    else arr[index]
  }

  // ---------------------------------------------------------------------------------
  // CombineProcessArguments

  /** The regular expression `[\x00\x0a\x0d]`: characters that cannot be escaped. */
  predicate IsInvalidChar(c: char) {
    c == '\0' || c == '\n' || c == '\r'
  }

  predicate HasInvalidChar(a: string) {
    exists i :: 0 <= i < |a| && IsInvalidChar(a[i])
  }

  /** `\s`, taken as the ASCII white space characters, NEL and NO-BREAK SPACE. */
  predicate IsRegexSpace(c: char) {
    c == ' ' || (9 <= c as int <= 13) || c as int == 0x85 || c as int == 0xA0
  }

  /** The regular expression `\s|"`. */
  predicate NeedsQuotes(a: string) {
    exists i :: 0 <= i < |a| && (IsRegexSpace(a[i]) || a[i] == '"')
  }

  /** `Regex.Replace` with `(\\*)("|$)`, scanning left to right with `pending` backslashes
      seen since the last other character: a run of backslashes that reaches a quote or the
      end is written doubled, a quote is written with a backslash in front of it, and a run
      that reaches any other character is copied as it is. */
  function Escape(s: string, pending: nat): string
    decreases |s|
  {
    if s == [] then Argv.Backslashes(2 * pending)
    else if s[0] == '\\' then Escape(s[1..], pending + 1)
    else if s[0] == '"' then Argv.Backslashes(2 * pending) + ['\\', '"'] + Escape(s[1..], 0)
    else Argv.Backslashes(pending) + [s[0]] + Escape(s[1..], 0)
  }

  function EscapeQuotes(s: string): string {
    Escape(s, 0)
  }

  /** One argument as `CombineProcessArguments` writes it. */
  function EncodeArg(a: string): string {
    if a == [] then "\"\""
    else if !NeedsQuotes(a) then a
    else "\"" + EscapeQuotes(a) + "\""
  }

  /** The encoded arguments separated by single spaces. */
  function CommandLine(args: seq<string>): string {
    if |args| == 0 then ""
    else if |args| == 1 then EncodeArg(args[0])
    else EncodeArg(args[0]) + " " + CommandLine(args[1..])
  }

  lemma {:induction false} CommandLineSnoc(args: seq<string>, a: string)
    ensures CommandLine(args + [a]) ==
      if args == [] then EncodeArg(a) else CommandLine(args) + " " + EncodeArg(a)
  {
    if |args| > 1 {
      assert (args + [a])[1..] == args[1..] + [a];
      CommandLineSnoc(args[1..], a);
    } else if |args| == 1 {
      assert (args + [a])[1..] == [a];
    }
  }

  lemma AppendArgument(args: seq<string>, k: nat)
    requires k < |args|
    ensures (if k == 0 then "" else CommandLine(args[..k]) + " ") + EncodeArg(args[k]) ==
            CommandLine(args[..k + 1])
  {
    CommandLineSnoc(args[..k], args[k]);
    assert args[..k + 1] == args[..k] + [args[k]];
  }

  /** `Utils.CombineProcessArguments`: fails with the position of the first argument holding
      NUL, LF or CR; otherwise returns the command line, which the C runtime splits back
      into exactly the given arguments. */
  method CombineProcessArguments(args: seq<string>) returns (r: Result<string, nat>)
    ensures r.Err? <==> exists i :: 0 <= i < |args| && HasInvalidChar(args[i])
    ensures r.Err? ==> r.error < |args| && HasInvalidChar(args[r.error]) &&
                       forall j :: 0 <= j < r.error ==> !HasInvalidChar(args[j])
    ensures r.Ok? ==> r.value == CommandLine(args) && Argv.Parse(r.value) == args
  {
    if |args| == 0 {
      return Ok("");
    }
    var arguments := "";
    for carg := 0 to |args|
      invariant forall j :: 0 <= j < carg ==> !HasInvalidChar(args[j])
      invariant arguments ==
        if carg == 0 then "" else CommandLine(args[..carg]) + (if carg < |args| then " " else "")
    {
      if HasInvalidChar(args[carg]) {
        return Err(carg);
      }
      ghost var before := arguments;
      if |args[carg]| == 0 {
        arguments := arguments + "\"\"";
      } else if !NeedsQuotes(args[carg]) {
        arguments := arguments + args[carg];
      } else {
        arguments := arguments + ("\"" + EscapeQuotes(args[carg]) + "\"");
      }
      assert arguments == before + EncodeArg(args[carg]);
      AppendArgument(args, carg);
      if carg + 1 < |args| {
        arguments := arguments + " ";
      }
    }
    assert args[..|args|] == args;
    ParseCommandLine(args);
    return Ok(arguments);
  }

  // Round trip through the C runtime's reading of a command line.

  /** The text after an argument: nothing, or a separator. */
  predicate AtBoundary(rest: string) {
    rest == [] || Argv.IsSeparator(rest[0])
  }

  lemma ReadAtBoundary(rest: string)
    requires AtBoundary(rest)
    ensures Argv.ReadArg(rest, false) == Argv.Read([], rest)
  {
  }

  lemma AllBackslashes(a: string)
    requires Argv.LeadingBackslashes(a) == |a|
    ensures a == Argv.Backslashes(|a|)
  {
  }

  lemma BackslashesCons(k: nat, a: string)
    requires a != [] && a[0] == '\\'
    ensures Argv.Backslashes(k) + a == Argv.Backslashes(k + 1) + a[1..]
  {
    BackslashesSnoc(k);
    assert a == ['\\'] + a[1..];
  }

  lemma {:induction false} BackslashesSnoc(k: nat)
    ensures Argv.Backslashes(k) + ['\\'] == Argv.Backslashes(k + 1)
  {
    if k > 0 { BackslashesSnoc(k - 1); }
  }

  /** Inside quotes, the escaped text followed by the closing quote reads back as the
      pending backslashes followed by `a`. */
  lemma {:induction false} ReadEscaped(a: string, pending: nat, rest: string)
    requires AtBoundary(rest)
    ensures Argv.ReadArg(Escape(a, pending) + "\"" + rest, true) ==
            Argv.Read(Argv.Backslashes(pending) + a, rest)
    decreases |a|, 1
  {
    if a == [] {
      ReadEscapedEnd(pending, rest);
    } else if a[0] == '\\' {
      ReadEscaped(a[1..], pending + 1, rest);
      BackslashesCons(pending, a);
    } else if a[0] == '"' {
      ReadEscapedQuote(a, pending, rest);
    } else {
      ReadEscapedChar(a, pending, rest);
    }
  }

  lemma ReadEscapedEnd(pending: nat, rest: string)
    requires AtBoundary(rest)
    ensures Argv.ReadArg(Escape([], pending) + "\"" + rest, true) ==
            Argv.Read(Argv.Backslashes(pending) + [], rest)
  {
    var tail := "\"" + rest;
    assert tail[1..] == rest;
    ReadAtBoundary(rest);
    assert Argv.Backslashes(pending) + [] == Argv.Backslashes(pending);
    if pending > 0 {
      assert Escape([], pending) + "\"" + rest == Argv.Backslashes(2 * pending) + ['"'] + rest;
      Argv.ReadRunBeforeQuote(2 * pending, rest, true);
      assert (2 * pending) % 2 == 0 && (2 * pending) / 2 == pending;
    } else {
      assert Escape([], pending) + "\"" + rest == tail;
    }
  }

  lemma {:induction false} ReadEscapedQuote(a: string, pending: nat, rest: string)
    requires AtBoundary(rest) && a != [] && a[0] == '"'
    ensures Argv.ReadArg(Escape(a, pending) + "\"" + rest, true) ==
            Argv.Read(Argv.Backslashes(pending) + a, rest)
    decreases |a|, 0
  {
    var t := Escape(a[1..], 0) + "\"" + rest;
    var k := 2 * pending + 1;
    EscapedQuoteShape(a, pending, rest);
    Argv.ReadRunBeforeQuote(k, t, true);
    ReadEscaped(a[1..], 0, rest);
    QuoteResult(a, pending, rest);
  }

  lemma EscapedQuoteShape(a: string, pending: nat, rest: string)
    requires a != [] && a[0] == '"'
    ensures (2 * pending + 1) % 2 == 1 && (2 * pending + 1) / 2 == pending
    ensures Escape(a, pending) + "\"" + rest ==
            Argv.Backslashes(2 * pending + 1) + ['"'] + (Escape(a[1..], 0) + "\"" + rest)
  {
    BackslashesSnoc(2 * pending);
  }

  lemma QuoteResult(a: string, pending: nat, rest: string)
    requires a != [] && a[0] == '"'
    ensures Argv.Prepend(Argv.Backslashes(pending) + ['"'], Argv.Read(Argv.Backslashes(0) + a[1..], rest)) ==
            Argv.Read(Argv.Backslashes(pending) + a, rest)
  {
    assert Argv.Backslashes(0) == [];
    assert a == ['"'] + a[1..];
  }

  lemma {:induction false} ReadEscapedChar(a: string, pending: nat, rest: string)
    requires AtBoundary(rest) && a != [] && a[0] != '"' && a[0] != '\\'
    ensures Argv.ReadArg(Escape(a, pending) + "\"" + rest, true) ==
            Argv.Read(Argv.Backslashes(pending) + a, rest)
    decreases |a|, 0
  {
    var t := Escape(a[1..], 0) + "\"" + rest;
    EscapedCharShape(a, pending, rest);
    ReadCharAfterRun(pending, a[0], t, true);
    ReadEscaped(a[1..], 0, rest);
    CharResult(a, pending, rest);
  }

  lemma EscapedCharShape(a: string, pending: nat, rest: string)
    requires a != [] && a[0] != '"' && a[0] != '\\'
    ensures Escape(a, pending) + "\"" + rest ==
            Argv.Backslashes(pending) + [a[0]] + (Escape(a[1..], 0) + "\"" + rest)
  {
    var p := Argv.Backslashes(pending) + [a[0]];
    var e := Escape(a[1..], 0);
    assert Escape(a, pending) == p + e;
    Text.Associative(p, e, "\"");
    Text.Associative(p, e + "\"", rest);
  }

  lemma PrependNothing(u: string, quoted: bool)
    ensures Argv.ReadArg(Argv.Backslashes(0) + u, quoted) ==
            Argv.Prepend(Argv.Backslashes(0), Argv.ReadArg(u, quoted))
  {
    assert Argv.Backslashes(0) + u == u;
    var r := Argv.ReadArg(u, quoted);
    assert Argv.Backslashes(0) + r.arg == r.arg;
  }

  lemma ReadPlainChar(s: string, quoted: bool)
    requires s != [] && s[0] != '"' && s[0] != '\\' && (quoted || !Argv.IsSeparator(s[0]))
    ensures Argv.ReadArg(s, quoted) == Argv.Prepend([s[0]], Argv.ReadArg(s[1..], quoted))
  {
  }

  /** Outside quotes, pending backslashes followed by an argument without quotes and
      separators read back as themselves. */
  lemma {:induction false} ReadVerbatim(a: string, pending: nat, rest: string)
    requires forall i :: 0 <= i < |a| ==> a[i] != '"' && !Argv.IsSeparator(a[i])
    requires AtBoundary(rest)
    ensures Argv.ReadArg(Argv.Backslashes(pending) + a + rest, false) ==
            Argv.Read(Argv.Backslashes(pending) + a, rest)
    decreases |a|, 1
  {
    if a == [] {
      ReadVerbatimEnd(pending, rest);
    } else if a[0] == '\\' {
      ReadVerbatim(a[1..], pending + 1, rest);
      BackslashesCons(pending, a);
      assert Argv.Backslashes(pending) + a + rest == Argv.Backslashes(pending + 1) + a[1..] + rest;
    } else {
      ReadVerbatimChar(a, pending, rest);
    }
  }

  lemma ReadVerbatimEnd(pending: nat, rest: string)
    requires AtBoundary(rest)
    ensures Argv.ReadArg(Argv.Backslashes(pending) + [] + rest, false) ==
            Argv.Read(Argv.Backslashes(pending) + [], rest)
  {
    var b := Argv.Backslashes(pending);
    assert b + [] + rest == b + rest;
    assert b + [] == b;
    ReadRunAtBoundary(pending, rest);
  }

  /** Backslashes outside quotes followed by nothing or a separator read as themselves. */
  lemma ReadRunAtBoundary(pending: nat, rest: string)
    requires AtBoundary(rest)
    ensures Argv.ReadArg(Argv.Backslashes(pending) + rest, false) == Argv.Read(Argv.Backslashes(pending), rest)
  {
    ReadAtBoundary(rest);
    if pending == 0 {
      assert Argv.Backslashes(pending) + rest == rest;
    } else if rest == [] {
      assert Argv.Backslashes(pending) + rest == Argv.Backslashes(pending);
      Argv.ReadRunFinal(pending, false);
    } else {
      Argv.ReadRunPlain(pending, rest, false);
      assert Argv.Backslashes(pending) + [] == Argv.Backslashes(pending);
    }
  }

  lemma {:induction false} ReadVerbatimChar(a: string, pending: nat, rest: string)
    requires forall i :: 0 <= i < |a| ==> a[i] != '"' && !Argv.IsSeparator(a[i])
    requires AtBoundary(rest) && a != [] && a[0] != '\\'
    ensures Argv.ReadArg(Argv.Backslashes(pending) + a + rest, false) ==
            Argv.Read(Argv.Backslashes(pending) + a, rest)
    decreases |a|, 0
  {
    VerbatimShape(a, pending, rest);
    ReadCharAfterRun(pending, a[0], a[1..] + rest, false);
    ReadVerbatim(a[1..], 0, rest);
    CharResult(a, pending, rest);
  }

  lemma VerbatimShape(a: string, pending: nat, rest: string)
    requires a != []
    ensures Argv.Backslashes(pending) + a + rest == Argv.Backslashes(pending) + [a[0]] + (a[1..] + rest)
    ensures Argv.Backslashes(0) + a[1..] + rest == a[1..] + rest
  {
    assert a == [a[0]] + a[1..];
  }

  /** A run of backslashes followed by an ordinary character reads as written. */
  lemma ReadCharAfterRun(pending: nat, c: char, t: string, quoted: bool)
    requires c != '"' && c != '\\' && (quoted || !Argv.IsSeparator(c))
    ensures Argv.ReadArg(Argv.Backslashes(pending) + [c] + t, quoted) ==
            Argv.Prepend(Argv.Backslashes(pending) + [c], Argv.ReadArg(t, quoted))
  {
    var u := [c] + t;
    assert Argv.Backslashes(pending) + [c] + t == Argv.Backslashes(pending) + u;
    RunThenChar(pending, u, quoted);
    ReadPlainChar(u, quoted);
    assert u[1..] == t;
    PrependPrepend(Argv.Backslashes(pending), [c], Argv.ReadArg(t, quoted));
  }

  lemma RunThenChar(pending: nat, u: string, quoted: bool)
    requires u != [] && u[0] != '"' && u[0] != '\\'
    ensures Argv.ReadArg(Argv.Backslashes(pending) + u, quoted) ==
            Argv.Prepend(Argv.Backslashes(pending), Argv.ReadArg(u, quoted))
  {
    if pending > 0 { Argv.ReadRunPlain(pending, u, quoted); } else { PrependNothing(u, quoted); }
  }

  lemma PrependPrepend(p: string, q: string, r: Argv.Read)
    ensures Argv.Prepend(p, Argv.Prepend(q, r)) == Argv.Prepend(p + q, r)
  {
    assert p + (q + r.arg) == p + q + r.arg;
  }

  lemma CharResult(a: string, pending: nat, rest: string)
    requires a != []
    ensures Argv.Prepend(Argv.Backslashes(pending) + [a[0]], Argv.Read(Argv.Backslashes(0) + a[1..], rest)) ==
            Argv.Read(Argv.Backslashes(pending) + a, rest)
  {
    assert Argv.Backslashes(0) == [];
    assert a == [a[0]] + a[1..];
  }

  lemma ReadEmpty(rest: string)
    requires AtBoundary(rest)
    ensures Argv.ReadArg("\"\"" + rest, false) == Argv.Read([], rest)
  {
    var s := "\"\"" + rest;
    assert s[1..] == "\"" + rest;
    assert s[1..][1..] == rest;
    ReadAtBoundary(rest);
  }

  lemma ReadQuoted(a: string, rest: string)
    requires AtBoundary(rest)
    ensures Argv.ReadArg("\"" + EscapeQuotes(a) + "\"" + rest, false) == Argv.Read(a, rest)
  {
    var s := "\"" + EscapeQuotes(a) + "\"" + rest;
    assert s[1..] == Escape(a, 0) + "\"" + rest;
    ReadEscaped(a, 0, rest);
    assert Argv.Backslashes(0) + a == a;
  }

  lemma ReadUnquoted(a: string, rest: string)
    requires a != [] && !NeedsQuotes(a)
    requires AtBoundary(rest)
    ensures Argv.ReadArg(a + rest, false) == Argv.Read(a, rest)
  {
    forall i | 0 <= i < |a| ensures a[i] != '"' && !Argv.IsSeparator(a[i]) {
      assert !IsRegexSpace(a[i]);
    }
    ReadVerbatim(a, 0, rest);
    assert Argv.Backslashes(0) + a == a;
  }

  lemma ReadEncoded(a: string, rest: string)
    requires AtBoundary(rest)
    ensures Argv.ReadArg(EncodeArg(a) + rest, false) == Argv.Read(a, rest)
  {
    if a == [] {
      ReadEmpty(rest);
    } else if !NeedsQuotes(a) {
      ReadUnquoted(a, rest);
    } else {
      ReadQuoted(a, rest);
    }
  }

  lemma EncodeArgStart(a: string)
    ensures EncodeArg(a) != [] && !Argv.IsSeparator(EncodeArg(a)[0])
  {
    if a != [] && !NeedsQuotes(a) {
      assert !IsRegexSpace(a[0]);
    }
  }

  /** Splitting the command line the C runtime's way gives back exactly the arguments. */
  lemma {:induction false} ParseCommandLine(args: seq<string>)
    ensures Argv.Parse(CommandLine(args)) == args
  {
    if |args| == 1 {
      EncodeArgStart(args[0]);
      ReadEncoded(args[0], []);
      assert EncodeArg(args[0]) + [] == EncodeArg(args[0]);
    } else if |args| > 1 {
      var tail := CommandLine(args[1..]);
      var rest := " " + tail;
      EncodeArgStart(args[0]);
      ReadEncoded(args[0], rest);
      assert CommandLine(args) == EncodeArg(args[0]) + rest;
      EncodeArgStart(args[1]);
      assert tail != [] && !Argv.IsSeparator(tail[0]);
      assert Argv.SkipSeparators(rest) == tail;
      assert Argv.Parse(rest) == Argv.Parse(tail);
      ParseCommandLine(args[1..]);
      assert args == [args[0]] + args[1..];
    }
  }
}
