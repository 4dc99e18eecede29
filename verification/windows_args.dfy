/**
  The Windows command line of a hosted server: the quoting of arguments, and the rules of
  "Parsing C++ command-line arguments" by which the started program splits the line again.
 */
module WindowsArgs {
  import opened Bytes

  // ---------------------------------------------------------------- quoting

  function Slashes(n: nat): (s: string)
    ensures |s| == n
  {
    if n == 0 then "" else "\\" + Slashes(n - 1)
  }

  predicate NeedsQuotes(arg: string) {
    arg == "" || exists c :: c in arg && c in " \t\n\U{000B}\""
  }

  /** The quoted form of `n` backslashes and then `arg`: backslashes are doubled in front of a quote and at the
      end, and a quote gets a backslash of its own. */
  function Escape(n: nat, arg: string): (s: string)
    decreases |arg|
  {
    if arg == "" then Slashes(2 * n)
    else if arg[0] == '\\' then Escape(n + 1, arg[1..])
    else if arg[0] == '"' then Slashes(2 * n + 1) + "\"" + Escape(0, arg[1..])
    else Slashes(n) + [arg[0]] + Escape(0, arg[1..])
  }

  function Quote(arg: string): (s: string) {
    if NeedsQuotes(arg) then "\"" + Escape(0, arg) + "\"" else arg
  }

  /** The rest of a command line: each argument after a space. */
  function Rest(args: seq<string>): (s: string) {
    if args == [] then "" else " " + (Quote(args[0]) + Rest(args[1..]))
  }

  function CommandLine(args: seq<string>): (s: string) {
    if args == [] then "" else Quote(args[0]) + Rest(args[1..])
  }

  method QuoteWindowsArg(arg: string) returns (quoted: string)
    ensures quoted == Quote(arg)
  {
    if !NeedsQuotes(arg) {
      return arg;
    }
    hide NeedsQuotes, Slashes;
    quoted := "\"";
    var backslashes: nat := 0;
    assert arg[0..] == arg;
    for i := 0 to |arg|
      invariant quoted + Escape(backslashes, arg[i..]) == "\"" + Escape(0, arg)
    {
      var c := arg[i];
      ghost var rest := Escape(0, arg[i..][1..]);
      assert arg[i..][1..] == arg[i + 1..];
      if c == '\\' {
        backslashes := backslashes + 1;
        continue;
      }
      if c == '"' {
        Associative(quoted, Slashes(backslashes * 2 + 1) + "\"", rest);
        Associative(quoted, Slashes(backslashes * 2 + 1), "\"");
        quoted := quoted + Slashes(backslashes * 2 + 1);
        quoted := quoted + "\"";
        backslashes := 0;
        continue;
      }
      Associative(quoted, Slashes(backslashes) + [c], rest);
      Associative(quoted, Slashes(backslashes), [c]);
      quoted := quoted + Slashes(backslashes);
      backslashes := 0;
      quoted := quoted + [c];
    }
    quoted := quoted + Slashes(backslashes * 2);
    quoted := quoted + "\"";
  }

  method BuildWindowsCommandLine(args: seq<string>) returns (commandLine: string)
    ensures commandLine == CommandLine(args)
  {
    hide Quote;
    commandLine := "";
    for i := 0 to |args|
      invariant i == 0 <==> commandLine == ""
      invariant i > 0 ==> commandLine + Rest(args[i..]) == CommandLine(args)
    {
      assert args[i..][1..] == args[i + 1..];
      Associative(commandLine, " ", Quote(args[i]) + Rest(args[i + 1..]));
      Associative(commandLine + " ", Quote(args[i]), Rest(args[i + 1..]));
      if commandLine != "" {
        commandLine := commandLine + " ";
      }
      var quoted := QuoteWindowsArg(args[i]);
      QuoteNotEmpty(args[i]);
      assert i == 0 ==> commandLine + quoted == quoted;
      commandLine := commandLine + quoted;
    }
  }

  lemma QuoteNotEmpty(arg: string)
    ensures Quote(arg) != "" && !IsBlank(Quote(arg)[0])
  {
    if !NeedsQuotes(arg) {
      assert arg[0] in arg;
    }
  }

  // ---------------------------------------------------------------- splitting

  predicate IsBlank(c: char) {
    c == ' ' || c == '\t'
  }

  /** One argument and what follows it, when `n` backslashes have been read and not yet interpreted. Before a
      quote, an even number of them gives half and the quote opens or closes a quoted part; an odd number gives half
      and a literal quote. Two quotes inside a quoted part give one literal quote. Other backslashes stand for
      themselves. */
  function ParseArg(n: nat, s: string, quoted: bool): (r: (string, string))
    ensures |r.1| <= |s|
    ensures s != "" && (quoted || !IsBlank(s[0])) ==> |r.1| < |s|
    decreases |s|
  {
    if s == "" || (!quoted && IsBlank(s[0])) then (Slashes(n), s)
    else if s[0] == '\\' then ParseArg(n + 1, s[1..], quoted)
    else if s[0] == '"' && n % 2 == 1 then
      var r := ParseArg(0, s[1..], quoted); (Slashes(n / 2) + "\"" + r.0, r.1)
    else if s[0] == '"' && quoted && |s| > 1 && s[1] == '"' then
      var r := ParseArg(0, s[2..], quoted); (Slashes(n / 2) + "\"" + r.0, r.1)
    else if s[0] == '"' then
      var r := ParseArg(0, s[1..], !quoted); (Slashes(n / 2) + r.0, r.1)
    else
      var r := ParseArg(0, s[1..], quoted); (Slashes(n) + [s[0]] + r.0, r.1)
  }

  /** The program name: quotes only toggle, backslashes are ordinary characters. */
  function ParseProgram(s: string, quoted: bool): (r: (string, string))
    ensures |r.1| <= |s|
    ensures '"' !in r.0
  {
    if s == "" || (!quoted && IsBlank(s[0])) then ("", s)
    else if s[0] == '"' then ParseProgram(s[1..], !quoted)
    else var r := ParseProgram(s[1..], quoted); ([s[0]] + r.0, r.1)
  }

  function SkipBlanks(s: string): (r: string)
    ensures |r| <= |s|
    ensures r != "" ==> !IsBlank(r[0])
  {
    if s != "" && IsBlank(s[0]) then SkipBlanks(s[1..]) else s
  }

  function ParseArgs(s: string): (args: seq<string>)
    decreases |s|
  {
    var t := SkipBlanks(s);
    if t == "" then []
    else var r := ParseArg(0, t, false); [r.0] + ParseArgs(r.1)
  }

  function Split(line: string): (args: seq<string>) {
    var r := ParseProgram(line, false);
    [r.0] + ParseArgs(r.1)
  }

  // ---------------------------------------------------------------- round trip

  /** The end of the line, or a blank: what follows an argument. */
  predicate AtEnd(s: string) {
    s == "" || IsBlank(s[0])
  }

  /** The quoted form with its closing quote and what follows. */
  function EscapeThen(n: nat, arg: string, after: string): (s: string)
    decreases |arg|
  {
    if arg == "" then Slashes(2 * n) + ("\"" + after)
    else if arg[0] == '\\' then EscapeThen(n + 1, arg[1..], after)
    else if arg[0] == '"' then Slashes(2 * n + 1) + ("\"" + EscapeThen(0, arg[1..], after))
    else Slashes(n) + ([arg[0]] + EscapeThen(0, arg[1..], after))
  }

  lemma {:induction false} EscapeThenIs(n: nat, arg: string, after: string)
    ensures EscapeThen(n, arg, after) == Escape(n, arg) + "\"" + after
    decreases |arg|
  {
    hide Slashes;
    Associative(Escape(n, arg), "\"", after);
    if arg != "" {
      EscapeThenIs(if arg[0] == '\\' then n + 1 else 0, arg[1..], after);
      var rest := Escape(0, arg[1..]);
      Associative(rest, "\"", after);
      var run := if arg[0] == '"' then Slashes(2 * n + 1) else Slashes(n);
      Associative(run + [arg[0]], rest, "\"" + after);
      Associative(run, [arg[0]], rest + ("\"" + after));
    }
  }

  lemma {:induction false} ParseRun(n: nat, k: nat, s: string, quoted: bool)
    ensures ParseArg(n, Slashes(k) + s, quoted) == ParseArg(n + k, s, quoted)
    decreases k
  {
    if k == 0 {
      assert Slashes(0) + s == s;
    } else {
      ParseRun(n + 1, k - 1, s, quoted);
      assert (Slashes(k) + s)[1..] == Slashes(k - 1) + s;
    }
  }

  lemma {:induction false} SlashesAdd(n: nat, s: string)
    ensures Slashes(n) + ("\\" + s) == Slashes(n + 1) + s
  {
    if n > 0 {
      SlashesAdd(n - 1, s);
      Associative("\\", Slashes(n - 1), "\\" + s);
      Associative("\\", Slashes(n), s);
    }
  }

  lemma ClosingQuoteParses(n: nat, after: string)
    requires AtEnd(after)
    ensures ParseArg(0, Slashes(2 * n) + ("\"" + after), true) == (Slashes(n) + "", after)
  {
    hide Slashes;
    var end := "\"" + after;
    assert end[1..] == after;
    ParseRun(0, 2 * n, end, true);
    NoSlashes();
  }

  lemma {:induction false} EscapedParses(n: nat, arg: string, after: string)
    requires AtEnd(after)
    ensures ParseArg(0, EscapeThen(n, arg, after), true) == (Slashes(n) + arg, after)
    decreases |arg|
  {
    hide Slashes;
    if arg == "" {
      ClosingQuoteParses(n, after);
    } else {
      var c, rest := arg[0], arg[1..];
      assert arg == [c] + rest;
      if c == '\\' {
        EscapedParses(n + 1, rest, after);
        SlashesAdd(n, rest);
      } else {
        EscapedParses(0, rest, after);
        NoSlashes();
        var k := if c == '"' then 2 * n + 1 else n;
        var next := [c] + EscapeThen(0, rest, after);
        assert next[1..] == EscapeThen(0, rest, after);
        ParseRun(0, k, next, true);
        assert Slashes(0) + rest == rest;
        Associative(Slashes(n), [c], rest);
      }
    }
  }

  lemma NoSlashes()
    ensures Slashes(0) == ""
  {
  }

  lemma {:induction false} PlainParses(n: nat, arg: string, after: string)
    requires AtEnd(after) && forall c :: c in arg ==> !IsBlank(c) && c != '"'
    ensures ParseArg(n, arg + after, false) == (Slashes(n) + arg, after)
    decreases |arg|
  {
    hide Slashes;
    NoSlashes();
    if arg == "" {
      assert arg + after == after && Slashes(n) + arg == Slashes(n);
    } else {
      var c, rest := arg[0], arg[1..];
      assert c in arg && (arg + after)[0] == c && (arg + after)[1..] == rest + after && arg == [c] + rest;
      PlainParses(if c == '\\' then n + 1 else 0, rest, after);
      SlashesAdd(n, rest);
      assert Slashes(0) + rest == rest;
      Associative(Slashes(n), [c], rest);
    }
  }

  lemma OpeningQuoteParses(s: string)
    requires s != "" && s[0] == '"'
    ensures ParseArg(0, s, false) == var r := ParseArg(0, s[1..], true); (Slashes(0) + r.0, r.1)
  {
  }

  lemma QuotedParses(arg: string, after: string)
    requires AtEnd(after)
    ensures ParseArg(0, Quote(arg) + after, false) == (arg, after)
  {
    NotQuoted(arg);
    hide Escape, EscapeThen, NeedsQuotes, Slashes, ParseArg;
    NoSlashes();
    AppendNothing(arg);
    if NeedsQuotes(arg) {
      EscapedParses(0, arg, after);
      EscapeThenIs(0, arg, after);
      BehindQuote(Escape(0, arg), after);
      OpeningQuoteParses(Quote(arg) + after);
    } else {
      PlainParses(0, arg, after);
    }
  }

  /** Two quotes inside a quoted part stand for one. */
  lemma DoubledQuote(s: string)
    ensures ParseArg(0, "\"\"" + s, true) == var r := ParseArg(0, s, true); ("\"" + r.0, r.1)
  {
    var all := "\"\"" + s;
    assert all[0] == all[1] == '"' && all[2..] == s;
    assert Slashes(0 / 2) + "\"" == "\"" by { NoSlashes(); }
  }

  lemma NotQuoted(arg: string)
    ensures !NeedsQuotes(arg) ==> forall c :: c in arg ==> !IsBlank(c) && c != '"'
  {
  }

  lemma BehindQuote(body: string, after: string)
    ensures var all := "\"" + body + "\"" + after;
            all[0] == '"' && all[1..] == body + "\"" + after
  {
  }

  lemma SkipSpace(s: string)
    requires s != "" && !IsBlank(s[0])
    ensures SkipBlanks(" " + s) == s
  {
    assert (" " + s)[1..] == s;
  }

  lemma RestAtEnd(args: seq<string>)
    ensures AtEnd(Rest(args))
  {
  }

  /** Exactly the arguments that need no quotes are passed on as they are. */
  lemma UnquotedExactly(arg: string)
    ensures Quote(arg) == arg <==>
              arg != "" && forall c :: c in arg ==> c != ' ' && c != '\t' && c != '\n' && c as int != 11 && c != '"'
  {
    var special := " \t\n\U{000B}\"";
    assert special[0] == ' ' && special[1] == '\t' && special[2] == '\n' && special[3] as int == 11;
    assert special[4] == '"';
    assert forall c :: c in special <==> c == ' ' || c == '\t' || c == '\n' || c as int == 11 || c == '"';
    if Quote(arg) == arg && NeedsQuotes(arg) {
      EscapeNotShorter(0, arg);
    }
  }

  lemma {:induction false} EscapeNotShorter(n: nat, arg: string)
    ensures |Escape(n, arg)| >= n + |arg|
    decreases |arg|
  {
    if arg != "" {
      EscapeNotShorter(n + 1, arg[1..]);
      EscapeNotShorter(0, arg[1..]);
    }
  }

  /** Every argument after the program name survives, whatever it contains. */
  lemma {:induction false} RestParses(args: seq<string>)
    ensures ParseArgs(Rest(args)) == args
  {
    hide Quote, ParseArg, SkipBlanks, IsBlank;
    if args == [] {
      assert SkipBlanks("") == "";
    } else {
      var after := Rest(args[1..]);
      RestParses(args[1..]);
      QuoteNotEmpty(args[0]);
      RestAtEnd(args[1..]);
      QuotedParses(args[0], after);
      SkipSpace(Quote(args[0]) + after);
      assert args == [args[0]] + args[1..];
    }
  }

  // ---------------------------------------------------------------- program name

  /** Number of backslashes at the end of `n` backslashes and then `s`. */
  function TrailingSlashes(n: nat, s: string): (k: nat)
    ensures k > 0 <==> if s == "" then n > 0 else s[|s| - 1] == '\\'
    decreases |s|
  {
    if s == "" then n
    else TrailingSlashes(if s[0] == '\\' then n + 1 else 0, s[1..])
  }

  /** Without quotes, escaping only doubles the backslashes at the end. */
  lemma {:induction false} EscapeWithoutQuotes(n: nat, arg: string)
    requires '"' !in arg
    ensures Escape(n, arg) == Slashes(n) + arg + Slashes(TrailingSlashes(n, arg))
    decreases |arg|
  {
    hide Slashes;
    if arg == "" {
      SlashesSum(n, n);
      assert Slashes(n) + arg == Slashes(n);
    } else {
      var c, rest := arg[0], arg[1..];
      var end := Slashes(TrailingSlashes(n, arg));
      EscapeWithoutQuotes(if c == '\\' then n + 1 else 0, rest);
      assert arg == [c] + rest && c in arg;
      SlashesAdd(n, rest);
      NoSlashes();
      assert Slashes(0) + rest == rest;
      Associative(Slashes(n), [c], rest);
      Associative(Slashes(n) + [c], rest, end);
    }
  }

  lemma {:induction false} SlashesSum(a: nat, b: nat)
    ensures Slashes(a) + Slashes(b) == Slashes(a + b)
  {
    if a == 0 {
      assert Slashes(0) + Slashes(b) == Slashes(b);
    } else {
      SlashesSum(a - 1, b);
      Associative("\\", Slashes(a - 1), Slashes(b));
    }
  }

  lemma {:induction false} NoQuoteInSlashes(n: nat)
    ensures '"' !in Slashes(n)
  {
    if n > 0 {
      NoQuoteInSlashes(n - 1);
    }
  }

  lemma {:induction false} ProgramParses(name: string, quoted: bool, end: string, after: string)
    requires '"' !in name && AtEnd(after) && end == if quoted then "\"" + after else after
    requires !quoted ==> forall c :: c in name ==> !IsBlank(c)
    ensures ParseProgram(name + end, quoted) == (name, after)
  {
    if name == "" {
      assert name + end == end;
      assert quoted ==> end[1..] == after;
    } else {
      assert name[0] in name;
      ProgramParses(name[1..], quoted, end, after);
      assert (name + end)[1..] == name[1..] + end;
      assert name == [name[0]] + name[1..];
    }
  }

  /** A program name that comes back: no quote in it, and no backslash at the end if it needs quotes at all. */
  predicate PlainProgram(name: string) {
    '"' !in name && (NeedsQuotes(name) && name != "" ==> name[|name| - 1] != '\\')
  }

  /** What the started program takes for its name. */
  lemma ProgramSeen(name: string, after: string)
    requires AtEnd(after) && '"' !in name
    ensures ParseProgram(Quote(name) + after, false)
         == (if NeedsQuotes(name) then name + Slashes(TrailingSlashes(0, name)) else name, after)
  {
    hide Escape, TrailingSlashes, Slashes;
    if NeedsQuotes(name) {
      EscapeWithoutQuotes(0, name);
      NoSlashes();
      assert "" + name == name;
      NoQuoteInSlashes(TrailingSlashes(0, name));
      QuotedProgramParses(name + Slashes(TrailingSlashes(0, name)), after);
    } else {
      ProgramParses(name, false, after, after);
    }
  }

  lemma QuotedProgramParses(body: string, after: string)
    requires '"' !in body && AtEnd(after)
    ensures ParseProgram("\"" + body + "\"" + after, false) == (body, after)
  {
    ProgramParses(body, true, "\"" + after, after);
    var line := "\"" + body + "\"" + after;
    assert line[0] == '"' && line[1..] == body + ("\"" + after);
  }

  /** The started program sees exactly the given arguments if and only if there is a program name and it is
      plain. */
  lemma SplitOfCommandLine(args: seq<string>)
    ensures Split(CommandLine(args)) == args <==> args != [] && PlainProgram(args[0])
  {
    hide Rest, Quote, ParseArgs, ParseProgram, Slashes;
    if args == [] {
      assert |Split("")| > 0;
    } else {
      var name, after := args[0], Rest(args[1..]);
      assert AtEnd(after) by { RestAtEnd(args[1..]); }
      RestParses(args[1..]);
      assert args == [name] + args[1..];
      if '"' !in name {
        ProgramSeen(name, after);
        var k := if NeedsQuotes(name) then TrailingSlashes(0, name) else 0;
        assert k > 0 ==> |name + Slashes(k)| != |name|;
        NoSlashes();
        assert name + "" == name;
      }
    }
  }

  /** A program in a directory with a space, named with a backslash at its end, sees that backslash twice. */
  lemma ProgramNameChanged()
    ensures Split(CommandLine(["a b\\"])) == ["a b\\\\"] != ["a b\\"]
  {
    var name := "a b\\";
    assert [name][1..] == [] && Rest([]) == "" && Quote(name) + "" == Quote(name);
    assert NeedsQuotes(name) by {
      assert name[1] in name && name[1] == " \t\n\U{000B}\""[0];
    }
    assert TrailingSlashes(0, name) == 1 && Slashes(1) == "\\";
    assert name + "\\" == "a b\\\\";
    ProgramSeen(name, "");
    RestParses([]);
  }
}
