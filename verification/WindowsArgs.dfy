/** Quoting of command-line arguments for an elevated relaunch, `quoteWindowsArg` and `joinWindowsArgs` of
    `cmd/client/elevate_windows.go`, against the argument-splitting rules that Microsoft documents for its C runtime.
    */
module WindowsArgs {

  function Repeat(c: char, n: nat): (s: string)
    ensures |s| == n
    ensures forall i :: 0 <= i < n ==> s[i] == c
  {
    if n == 0 then "" else [c] + Repeat(c, n - 1)
  }

  predicate IsBlank(c: char) {
    c == ' ' || c == '\t'
  }

  // ---------------------------------------------------------------------------------------------
  // Splitting, as documented: 2n backslashes and a quote give n backslashes and a delimiter; 2n+1 and a quote give n
  // backslashes and a quote; other backslashes are literal; two quotes inside a quoted part give one quote; blanks
  // outside quotes separate.

  datatype Scanned = Scanned(arg: string, rest: string)

  function Emit(prefix: string, s: Scanned): Scanned {
    s.(arg := prefix + s.arg)
  }

  /** Reads one argument from `s`, with `k` backslashes already seen. */
  function Scan(k: nat, s: string, quoted: bool): (r: Scanned)
    ensures |r.rest| <= |s|
    ensures s != "" && (quoted || !IsBlank(s[0])) ==> |r.rest| < |s|
    decreases |s|
  {
    if s == "" then Scanned(Repeat('\\', k), "")
    else if s[0] == '\\' then Scan(k + 1, s[1..], quoted)
    else if s[0] == '"' then
      if k % 2 == 1 then Emit(Repeat('\\', k / 2) + ['"'], Scan(0, s[1..], quoted))
      else if quoted && |s| > 1 && s[1] == '"' then Emit(Repeat('\\', k / 2) + ['"'], Scan(0, s[2..], quoted))
      else Emit(Repeat('\\', k / 2), Scan(0, s[1..], !quoted))
    else if IsBlank(s[0]) && !quoted then Scanned(Repeat('\\', k), s)
    else Emit(Repeat('\\', k) + [s[0]], Scan(0, s[1..], quoted))
  }

  function Split(s: string): seq<string>
    decreases |s|
  {
    if s == "" then []
    else if IsBlank(s[0]) then Split(s[1..])
    else
      var r := Scan(0, s, false);
      [r.arg] + Split(r.rest)
  }

  // ---------------------------------------------------------------------------------------------
  // Quoting

  predicate NeedsQuotes(c: char) {
    c == ' ' || c == '\t' || c == '\n' || c == '\U{000B}' || c == '"'
  }

  predicate IsPlain(arg: string) {
    forall i :: 0 <= i < |arg| ==> !NeedsQuotes(arg[i])
  }

  /** What is written between the quotes for `s`, with `k` backslashes held back. */
  function Escape(k: nat, s: string): string
    decreases |s|
  {
    if s == "" then Repeat('\\', 2 * k)
    else if s[0] == '\\' then Escape(k + 1, s[1..])
    else if s[0] == '"' then Repeat('\\', 2 * k + 1) + ['"'] + Escape(0, s[1..])
    else Repeat('\\', k) + [s[0]] + Escape(0, s[1..])
  }

  function Quote(arg: string): string {
    if arg == "" then "\"\""
    else if IsPlain(arg) then arg
    else ['"'] + Escape(0, arg) + ['"']
  }

  lemma {:induction false} EscapeKeepsLength(k: nat, s: string)
    ensures |Escape(k, s)| >= k + |s|
    decreases |s|
  {
    if s != "" {
      EscapeKeepsLength(if s[0] == '\\' then k + 1 else 0, s[1..]);
    }
  }

  /** An argument is written as it is exactly when it is not empty and has no blank, line feed, vertical tab or
      quote. */
  lemma QuotedExactly(arg: string)
    ensures Quote(arg) == arg <==> arg != "" && {' ', '\t', '\n', '\U{000B}', '"'} !! (set c | c in arg)
  {
    var special := {' ', '\t', '\n', '\U{000B}', '"'};
    assert forall c :: NeedsQuotes(c) <==> c in special;
    EscapeKeepsLength(0, arg);
    if IsPlain(arg) {
      assert forall c :: c in arg ==> !NeedsQuotes(c);
    } else {
      var i :| 0 <= i < |arg| && NeedsQuotes(arg[i]);
      assert arg[i] in special && arg[i] in (set c | c in arg);
    }
  }

  /** `strings.Join` with a space. */
  function Spaced(parts: seq<string>): string {
    if parts == [] then ""
    else if |parts| == 1 then parts[0]
    else parts[0] + [' '] + Spaced(parts[1..])
  }

  function Quoted(args: seq<string>): seq<string> {
    seq(|args|, i requires 0 <= i < |args| => Quote(args[i]))
  }

  method QuoteWindowsArg(arg: string) returns (out: string)
    ensures out == Quote(arg)
  {
    if arg == "" {
      return "\"\"";
    }
    if IsPlain(arg) {
      return arg;
    }
    out := ['"'];
    var backslashes := 0;
    for i := 0 to |arg|
      invariant out + Escape(backslashes, arg[i..]) == ['"'] + Escape(0, arg)
    {
      assert arg[i..][1..] == arg[i + 1..];
      var r := arg[i];
      if r == '\\' {
        backslashes := backslashes + 1;
      } else if r == '"' {
        out := out + Repeat('\\', 2 * backslashes + 1);
        out := out + [r];
        backslashes := 0;
      } else {
        if backslashes > 0 {
          out := out + Repeat('\\', backslashes);
          backslashes := 0;
        }
        out := out + [r];
      }
    }
    if backslashes > 0 {
      out := out + Repeat('\\', 2 * backslashes);
    }
    out := out + ['"'];
  }

  // ---------------------------------------------------------------------------------------------
  // Splitting inverts joining

  /** `tail` can follow an argument: nothing, or a blank. */
  predicate Ends(tail: string) {
    tail == "" || IsBlank(tail[0])
  }

  lemma ScanBackslash(k: nat, s: string, quoted: bool)
    ensures Scan(k, ['\\'] + s, quoted) == Scan(k + 1, s, quoted)
  {
    assert (['\\'] + s)[1..] == s;
  }

  lemma RepeatFirst(m: nat, s: string)
    requires m > 0
    ensures Repeat('\\', m) + s == ['\\'] + (Repeat('\\', m - 1) + s)
  {
  }

  lemma {:induction false} ScanBackslashes(k: nat, m: nat, s: string, quoted: bool)
    ensures Scan(k, Repeat('\\', m) + s, quoted) == Scan(k + m, s, quoted)
    decreases m
  {
    if m == 0 {
      assert Repeat('\\', 0) + s == s;
    } else {
      var rest := Repeat('\\', m - 1) + s;
      RepeatFirst(m, s);
      ScanBackslash(k, rest, quoted);
      ScanBackslashes(k + 1, m - 1, s, quoted);
    }
  }

  lemma RepeatAdd(n: nat, s: string)
    requires s != "" && s[0] == '\\'
    ensures Repeat('\\', n + 1) + s[1..] == Repeat('\\', n) + s
  {
  }

  lemma Halves(k: nat)
    ensures (2 * k) % 2 == 0 && (2 * k) / 2 == k
    ensures (2 * k + 1) % 2 == 1 && (2 * k + 1) / 2 == k
  {
  }

  /** An argument ends where a tail begins. */
  lemma ScanTail(tail: string)
    requires Ends(tail)
    ensures Scan(0, tail, false) == Scanned("", tail)
  {
  }

  lemma EmitLast(prefix: string, tail: string)
    ensures Emit(prefix, Scanned("", tail)) == Scanned(prefix, tail)
  {
    assert prefix + "" == prefix;
  }

  /** A quote after an even number of backslashes closes the quoted part. */
  lemma ScanCloseQuote(k: nat, tail: string)
    requires Ends(tail)
    ensures Scan(2 * k, ['"'] + tail, true) == Emit(Repeat('\\', k), Scan(0, tail, false))
  {
    Halves(k);
    assert (['"'] + tail)[1..] == tail;
  }

  /** A quote after an odd number of backslashes belongs to the argument. */
  lemma ScanLiteralQuote(k: nat, rest: string)
    ensures Scan(2 * k + 1, ['"'] + rest, true) == Emit(Repeat('\\', k) + ['"'], Scan(0, rest, true))
  {
    Halves(k);
    assert (['"'] + rest)[1..] == rest;
  }

  /** Held-back backslashes before the closing quote. */
  lemma ScanClose(k: nat, tail: string)
    requires Ends(tail)
    ensures Scan(0, Repeat('\\', 2 * k) + (['"'] + tail), true) == Scanned(Repeat('\\', k), tail)
  {
    ScanBackslashes(0, 2 * k, ['"'] + tail, true);
    ScanCloseQuote(k, tail);
    ScanTail(tail);
    EmitLast(Repeat('\\', k), tail);
  }

  /** Held-back backslashes before a quote that belongs to the argument, given how the rest is read. */
  lemma ScanInnerQuote(k: nat, rest: string, r: Scanned)
    requires Scan(0, rest, true) == r
    ensures Scan(0, Repeat('\\', 2 * k + 1) + (['"'] + rest), true) == Emit(Repeat('\\', k) + ['"'], r)
  {
    ScanBackslashes(0, 2 * k + 1, ['"'] + rest, true);
    ScanLiteralQuote(k, rest);
  }

  lemma ScanInnerChar(k: nat, c: char, rest: string, r: Scanned)
    requires c != '\\' && c != '"' && Scan(0, rest, true) == r
    ensures Scan(0, Repeat('\\', k) + ([c] + rest), true) == Emit(Repeat('\\', k) + [c], r)
  {
    ScanBackslashes(0, k, [c] + rest, true);
    assert ([c] + rest)[1..] == rest;
  }

  lemma EscapeQuote(k: nat, s: string, close: string)
    requires s != "" && s[0] == '"'
    ensures Escape(k, s) + close == Repeat('\\', 2 * k + 1) + (['"'] + (Escape(0, s[1..]) + close))
  {
  }

  lemma EscapeChar(k: nat, s: string, close: string)
    requires s != "" && s[0] != '"' && s[0] != '\\'
    ensures Escape(k, s) + close == Repeat('\\', k) + ([s[0]] + (Escape(0, s[1..]) + close))
  {
  }

  lemma EmitFirst(k: nat, s: string, tail: string)
    requires s != ""
    ensures Emit(Repeat('\\', k) + [s[0]], Scanned(s[1..], tail)) == Scanned(Repeat('\\', k) + s, tail)
  {
    assert Repeat('\\', k) + [s[0]] + s[1..] == Repeat('\\', k) + s;
  }

  lemma {:induction false} ScanEscaped(k: nat, s: string, close: string, tail: string)
    requires Ends(tail) && close == ['"'] + tail
    ensures Scan(0, Escape(k, s) + close, true) == Scanned(Repeat('\\', k) + s, tail)
    decreases |s|
  {
    if s == "" {
      ScanClose(k, tail);
      assert Repeat('\\', k) + s == Repeat('\\', k);
    } else if s[0] == '\\' {
      ScanEscaped(k + 1, s[1..], close, tail);
      RepeatAdd(k, s);
    } else {
      ScanEscaped(0, s[1..], close, tail);
      assert Repeat('\\', 0) + s[1..] == s[1..];
      EmitFirst(k, s, tail);
      if s[0] == '"' {
        EscapeQuote(k, s, close);
        ScanInnerQuote(k, Escape(0, s[1..]) + close, Scanned(s[1..], tail));
      } else {
        EscapeChar(k, s, close);
        ScanInnerChar(k, s[0], Escape(0, s[1..]) + close, Scanned(s[1..], tail));
      }
    }
  }

  lemma {:induction false} ScanPlain(k: nat, s: string, tail: string)
    requires IsPlain(s) && Ends(tail)
    ensures Scan(k, s + tail, false) == Scanned(Repeat('\\', k) + s, tail)
    decreases |s|
  {
    if s == "" {
      assert s + tail == tail && Repeat('\\', k) + s == Repeat('\\', k);
    } else {
      assert (s + tail)[1..] == s[1..] + tail;
      if s[0] == '\\' {
        ScanPlain(k + 1, s[1..], tail);
        RepeatAdd(k, s);
      } else {
        ScanPlain(0, s[1..], tail);
        assert Repeat('\\', 0) + s[1..] == s[1..];
        EmitFirst(k, s, tail);
      }
    }
  }

  /** A quote opens a quoted part. */
  lemma ScanOpenQuote(body: string)
    ensures Scan(0, ['"'] + body, false) == Scan(0, body, true)
  {
    assert (['"'] + body)[1..] == body;
    var r := Scan(0, body, true);
    assert Emit(Repeat('\\', 0), r) == r;
  }

  lemma ScanEmpty(tail: string)
    requires Ends(tail)
    ensures Scan(0, "\"\"" + tail, false) == Scanned("", tail)
  {
    assert "\"\"" + tail == ['"'] + (['"'] + tail);
    assert Repeat('\\', 2 * 0) + (['"'] + tail) == ['"'] + tail;
    ScanOpenQuote(['"'] + tail);
    ScanClose(0, tail);
  }

  lemma Regroup(body: string, tail: string)
    ensures ['"'] + body + ['"'] + tail == ['"'] + (body + (['"'] + tail))
  {
  }

  lemma ScanInQuotes(arg: string, tail: string)
    requires Ends(tail)
    ensures Scan(0, ['"'] + Escape(0, arg) + ['"'] + tail, false) == Scanned(arg, tail)
  {
    Regroup(Escape(0, arg), tail);
    ScanOpenQuote(Escape(0, arg) + (['"'] + tail));
    ScanEscaped(0, arg, ['"'] + tail, tail);
    assert Repeat('\\', 0) + arg == arg;
  }

  lemma ScanAsIs(arg: string, tail: string)
    requires IsPlain(arg) && Ends(tail)
    ensures Scan(0, arg + tail, false) == Scanned(arg, tail)
  {
    ScanPlain(0, arg, tail);
    assert Repeat('\\', 0) + arg == arg;
  }

  /** Any quoted argument is read back as itself. */
  lemma ScanQuote(arg: string, tail: string)
    requires Ends(tail)
    ensures Quote(arg) != "" && !IsBlank(Quote(arg)[0])
    ensures Scan(0, Quote(arg) + tail, false) == Scanned(arg, tail)
  {
    if arg == "" {
      ScanEmpty(tail);
    } else if IsPlain(arg) {
      ScanAsIs(arg, tail);
    } else {
      ScanInQuotes(arg, tail);
    }
  }

  /** The first argument of a longer line. */
  lemma SplitFirst(arg: string, line: string)
    ensures Split(Quote(arg) + ([' '] + line)) == [arg] + Split(line)
  {
    var tail := [' '] + line;
    ScanQuote(arg, tail);
    assert tail[1..] == line;
  }

  lemma SplitOnly(arg: string)
    ensures Split(Quote(arg)) == [arg]
  {
    ScanQuote(arg, "");
    assert Quote(arg) + "" == Quote(arg);
  }

  lemma SpacedFirst(args: seq<string>)
    requires |args| > 1
    ensures Spaced(Quoted(args)) == Quote(args[0]) + ([' '] + Spaced(Quoted(args[1..])))
  {
    assert Quoted(args)[1..] == Quoted(args[1..]);
  }

  /** Splitting what `joinWindowsArgs` builds gives the arguments back: any arguments, empty ones included. */
  lemma {:induction false} SplitInvertsJoin(args: seq<string>)
    ensures Split(Spaced(Quoted(args))) == args
  {
    if |args| == 1 {
      SplitOnly(args[0]);
      assert args == [args[0]];
    } else if |args| > 1 {
      SplitInvertsJoin(args[1..]);
      SplitFirst(args[0], Spaced(Quoted(args[1..])));
      SpacedFirst(args);
      assert args == [args[0]] + args[1..];
    }
  }

  method JoinWindowsArgs(args: seq<string>) returns (line: string)
    ensures line == Spaced(Quoted(args))
    ensures Split(line) == args
  {
    var quoted := [];
    for i := 0 to |args|
      invariant |quoted| == i && forall j :: 0 <= j < i ==> quoted[j] == Quote(args[j])
    {
      var q := QuoteWindowsArg(args[i]);
      quoted := quoted + [q];
    }
    assert quoted == Quoted(args);
    line := Spaced(quoted);
    SplitInvertsJoin(args);
  }
}
