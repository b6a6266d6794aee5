/** Command lines on Windows: the two writers of src/base/process.c and src/base/run.c,
    and the parsing rules of the Microsoft C runtime they write for. */
module WinQuote {

  // ------------------------------------------------------------------------ the writer

  function Slashes(n: nat): string {
    seq(n, _ => '\\')
  }

  /** The text written for `a` after `n` backslashes have been held back: backslashes are
      doubled before a quote and at the end, a quote is escaped. */
  function Escaped(a: string, n: nat): string
    decreases |a|
  {
    if a == "" then Slashes(2 * n)
    else if a[0] == '\\' then Escaped(a[1..], n + 1)
    else if a[0] == '\"' then Slashes(2 * n + 1) + "\"" + Escaped(a[1..], 0)
    else Slashes(n) + [a[0]] + Escaped(a[1..], 0)
  }

  function Quoted(a: string): string {
    "\"" + Escaped(a, 0) + "\""
  }

  function Joined(line: string, a: string): string {
    line + (if line == "" then "" else " ") + Quoted(a)
  }

  lemma JoinedParts(line: string, a: string)
    ensures Joined(line, a) == line + (if line == "" then "" else " ") + "\"" + Escaped(a, 0) + "\""
    ensures Joined("", a) == "\"" + Escaped(a, 0) + "\"" && line + "" == line
  {
  }

  /** The command line of a list of arguments, one after the other. */
  function JoinFrom(line: string, args: seq<string>): string
    decreases |args|
  {
    if args == [] then line else JoinFrom(Joined(line, args[0]), args[1..])
  }

  function Join(args: seq<string>): string {
    JoinFrom("", args)
  }

  // ---------------------------------------------- the runtime's rules, for an argument

  predicate IsBlank(c: char) {
    c == ' ' || c == '\t'
  }

  /** Reads one argument: `n` backslashes just passed, `quoted` between quotes.  With
      `doubled`, a pair of quotes between quotes is one quote, as newer runtimes have it. */
  function Scan(s: string, n: nat, quoted: bool, doubled: bool, acc: string): (r: (string, string))
    ensures |r.1| <= |s|
    decreases |s|
  {
    if s == "" then (acc + Slashes(n), "")
    else if s[0] == '\\' then Scan(s[1..], n + 1, quoted, doubled, acc)
    else if s[0] == '\"' then
      if n % 2 == 1 then Scan(s[1..], 0, quoted, doubled, acc + Slashes(n / 2) + "\"")
      else if quoted && doubled && |s| > 1 && s[1] == '\"' then
        Scan(s[2..], 0, quoted, doubled, acc + Slashes(n / 2) + "\"")
      else Scan(s[1..], 0, !quoted, doubled, acc + Slashes(n / 2))
    else if IsBlank(s[0]) && !quoted then (acc + Slashes(n), s)
    else Scan(s[1..], 0, quoted, doubled, acc + Slashes(n) + [s[0]])
  }

  lemma {:induction false} ScanConsumes(s: string, n: nat, quoted: bool, doubled: bool, acc: string)
    requires s != "" && !IsBlank(s[0])
    ensures |Scan(s, n, quoted, doubled, acc).1| < |s|
  {
  }

  function ParseArgs(s: string, doubled: bool): seq<string>
    decreases |s|
  {
    if s == "" then []
    else if IsBlank(s[0]) then ParseArgs(s[1..], doubled)
    else
      var r := Scan(s, 0, false, doubled, "");
      ScanConsumes(s, 0, false, doubled, "");
      [r.0] + ParseArgs(r.1, doubled)
  }

  /** The program name: quotes group and are dropped, backslashes are ordinary. */
  function ScanProgram(s: string, quoted: bool, acc: string): (r: (string, string))
    decreases |s|
  {
    if s == "" then (acc, "")
    else if s[0] == '\"' then ScanProgram(s[1..], !quoted, acc)
    else if IsBlank(s[0]) && !quoted then (acc, s)
    else ScanProgram(s[1..], quoted, acc + [s[0]])
  }

  function ParseCommand(s: string, doubled: bool): seq<string> {
    var r := ScanProgram(s, false, "");
    [r.0] + ParseArgs(r.1, doubled)
  }

  // ----------------------------------------------------------------------- round trips

  lemma {:induction false} ScanSlashes(m: nat, t: string, n: nat, quoted: bool, doubled: bool, acc: string)
    ensures Scan(Slashes(m) + t, n, quoted, doubled, acc) == Scan(t, n + m, quoted, doubled, acc)
    decreases m
  {
    var s := Slashes(m) + t;
    if m == 0 {
      assert s == t;
    } else {
      assert s[0] == '\\' && s[1..] == Slashes(m - 1) + t;
      ScanSlashes(m - 1, t, n + 1, quoted, doubled, acc);
    }
  }

  ghost predicate EndsArg(rest: string) {
    rest == "" || rest[0] == ' '
  }

  /** A character other than a backslash, between quotes: a quote must be escaped. */
  lemma ScanChar(c: char, t: string, n: nat, doubled: bool, acc: string)
    requires c != '\\'
    ensures var k := if c == '\"' then 2 * n + 1 else n;
            Scan(Slashes(k) + ([c] + t), 0, true, doubled, acc) == Scan(t, 0, true, doubled, acc + Slashes(n) + [c])
  {
    var k := if c == '\"' then 2 * n + 1 else n;
    ScanSlashes(k, [c] + t, 0, true, doubled, acc);
    assert ([c] + t)[1..] == t;
  }

  /** The closing quote. */
  lemma ScanClose(rest: string, n: nat, doubled: bool, acc: string)
    requires EndsArg(rest)
    ensures Scan(Slashes(2 * n) + ("\"" + rest), 0, true, doubled, acc)
            == Scan(rest, 0, false, doubled, acc + Slashes(n))
  {
    var t := "\"" + rest;
    ScanSlashes(2 * n, t, 0, true, doubled, acc);
    assert t[1..] == rest;
  }

  lemma EscapedSplits(a: string, n: nat, rest: string)
    requires a == "" || a[0] != '\\'
    ensures Escaped(a, n) + "\"" + rest ==
            if a == "" then Slashes(2 * n) + ("\"" + rest)
            else Slashes(if a[0] == '\"' then 2 * n + 1 else n) + ([a[0]] + (Escaped(a[1..], 0) + "\"" + rest))
  {
  }

  lemma AccSplits(a: string, n: nat, acc: string)
    requires a != ""
    ensures acc + Slashes(n) + [a[0]] + Slashes(0) + a[1..] == acc + Slashes(n) + a
    ensures a[0] == '\\' ==> acc + Slashes(n + 1) + a[1..] == acc + Slashes(n) + a
  {
  }

  /** What was escaped is read back, and the closing quote ends the quoting. */
  lemma {:induction false} ScanEscaped(a: string, n: nat, rest: string, doubled: bool, acc: string)
    requires EndsArg(rest)
    ensures Scan(Escaped(a, n) + "\"" + rest, 0, true, doubled, acc)
         == Scan(rest, 0, false, doubled, acc + Slashes(n) + a)
    decreases |a|
  {
    if a == "" {
      EscapedSplits(a, n, rest);
      ScanClose(rest, n, doubled, acc);
      assert acc + Slashes(n) + a == acc + Slashes(n);
    } else {
      AccSplits(a, n, acc);
      if a[0] == '\\' {
        ScanEscaped(a[1..], n + 1, rest, doubled, acc);
      } else {
        EscapedSplits(a, n, rest);
        ScanChar(a[0], Escaped(a[1..], 0) + "\"" + rest, n, doubled, acc);
        ScanEscaped(a[1..], 0, rest, doubled, acc + Slashes(n) + [a[0]]);
      }
    }
  }

  lemma ScanQuoted(a: string, rest: string, doubled: bool)
    requires EndsArg(rest)
    ensures Scan(Quoted(a) + rest, 0, false, doubled, "") == (a, rest)
  {
    var s := Quoted(a) + rest;
    assert s[0] == '\"' && s[1..] == Escaped(a, 0) + "\"" + rest;
    assert "" + Slashes(0 / 2) == "";
    ScanEscaped(a, 0, rest, doubled, "");
    assert Scan(rest, 0, false, doubled, a) == (a, rest) by {
      assert a + Slashes(0) == a;
    }
    assert "" + Slashes(0) + a == a;
  }

  /** The text of the arguments after the first. */
  function Tail(args: seq<string>): string {
    if args == [] then "" else " " + Quoted(args[0]) + Tail(args[1..])
  }

  lemma {:induction false} JoinIsTail(line: string, args: seq<string>)
    requires line != ""
    ensures JoinFrom(line, args) == line + Tail(args)
    decreases |args|
  {
    if args != [] {
      JoinIsTail(Joined(line, args[0]), args[1..]);
    }
  }

  lemma {:induction false} ParseTail(args: seq<string>, doubled: bool)
    ensures ParseArgs(Tail(args), doubled) == args
    decreases |args|
  {
    if args != [] {
      var s := Quoted(args[0]) + Tail(args[1..]);
      assert Tail(args) == " " + s;
      assert Tail(args)[1..] == s;
      ScanQuoted(args[0], Tail(args[1..]), doubled);
      ParseTail(args[1..], doubled);
    }
  }

  /** Every list of arguments comes back, by the older and by the newer rules. */
  lemma RoundTrip(args: seq<string>, doubled: bool)
    ensures ParseArgs(Join(args), doubled) == args
  {
    if args != [] {
      JoinIsTail(Quoted(args[0]), args[1..]);
      assert Joined("", args[0]) == Quoted(args[0]);
      ScanQuoted(args[0], Tail(args[1..]), doubled);
      ParseTail(args[1..], doubled);
    }
  }

  // ------------------------------------------------------------------ the program name

  lemma {:induction false} ProgramDropsQuotes(s: string, quoted: bool, acc: string)
    requires '\"' !in acc
    ensures '\"' !in ScanProgram(s, quoted, acc).0
    decreases |s|
  {
    if s == "" {
    } else if s[0] == '\"' {
      ProgramDropsQuotes(s[1..], !quoted, acc);
    } else if !(IsBlank(s[0]) && !quoted) {
      ProgramDropsQuotes(s[1..], quoted, acc + [s[0]]);
    }
  }

  lemma {:induction false} ProgramQuoted(t: string, rest: string, acc: string)
    requires '\"' !in t && EndsArg(rest)
    ensures ScanProgram(t + "\"" + rest, true, acc) == (acc + t, rest)
    decreases |t|
  {
    var s := t + "\"" + rest;
    if t == "" {
      assert s[1..] == rest && acc + t == acc;
    } else {
      assert s[1..] == t[1..] + "\"" + rest;
      ProgramQuoted(t[1..], rest, acc + [t[0]]);
      assert acc + [t[0]] + t[1..] == acc + t;
    }
  }

  /** The backslashes held back at the end of `a`. */
  function Trailing(a: string, n: nat): (r: nat)
    ensures r == 0 <==> if a == "" then n == 0 else a[|a| - 1] != '\\'
  {
    if a == "" then n else Trailing(a[1..], if a[0] == '\\' then n + 1 else 0)
  }

  lemma {:induction false} EscapedPlain(a: string, n: nat)
    requires '\"' !in a
    ensures Escaped(a, n) == Slashes(n) + a + Slashes(Trailing(a, n))
    decreases |a|
  {
    if a == "" {
      assert Slashes(2 * n) == Slashes(n) + a + Slashes(n);
    } else if a[0] == '\\' {
      EscapedPlain(a[1..], n + 1);
      assert Slashes(n + 1) + a[1..] == Slashes(n) + a;
    } else {
      EscapedPlain(a[1..], 0);
      assert Slashes(n) + [a[0]] + (Slashes(0) + a[1..]) == Slashes(n) + a;
    }
  }

  predicate PlainName(name: string) {
    '\"' !in name && (name == "" || name[|name| - 1] != '\\')
  }

  lemma NameReadBack(name: string, rest: string)
    requires EndsArg(rest)
    ensures ScanProgram(Quoted(name) + rest, false, "").0 == name <==> PlainName(name)
    ensures PlainName(name) ==> ScanProgram(Quoted(name) + rest, false, "").1 == rest
  {
    var s := Quoted(name) + rest;
    ProgramDropsQuotes(s, false, "");
    if '\"' !in name {
      EscapedPlain(name, 0);
      var t := name + Slashes(Trailing(name, 0));
      assert Slashes(0) + name + Slashes(Trailing(name, 0)) == t;
      assert s[0] == '\"' && s[1..] == t + "\"" + rest;
      ProgramQuoted(t, rest, "");
      assert "" + t == t;
      assert |t| == |name| + Trailing(name, 0);
    }
  }

  /** As a whole command line, whose first word the runtime reads by other rules, the list
      comes back exactly when the program name has no quote and no final backslash. */
  lemma CommandRoundTripExactlyWhen(name: string, args: seq<string>, doubled: bool)
    ensures ParseCommand(Join([name] + args), doubled) == [name] + args <==> PlainName(name)
  {
    var argv := [name] + args;
    assert argv[0] == name && argv[1..] == args;
    JoinIsTail(Quoted(name), args);
    assert Joined("", name) == Quoted(name);
    NameReadBack(name, Tail(args));
    ParseTail(args, doubled);
  }

  // ------------------------------------------------------------------- the two writers

  const CAPTURE_FIRST_CAP: nat := 4096
  const RUN_FIRST_CAP: nat := 256
  const COMMAND_LIMIT: nat := 32767

  /** The growing text buffer both writers append to. */
  class Buffer {
    var data: array<char>
    var len: nat

    ghost predicate Valid()
      reads this, data
    {
      if data.Length == 0 then len == 0 else len < data.Length
    }

    ghost function Text(): string
      reads this, data
      requires Valid()
    {
      data[..len]
    }

    constructor ()
      ensures Valid() && fresh(data) && Text() == ""
    {
      data := new char[0];
      len := 0;
    }

    /** realloc, by doubling. */
    method Grow(need: nat, firstCap: nat)
      requires len <= data.Length && firstCap > 0
      modifies this`data
      ensures data.Length >= need && len <= data.Length && data[..len] == old(data[..len])
      ensures data == old(data) || fresh(data)
    {
      if need > data.Length {
        var next := if data.Length == 0 then firstCap else data.Length;
        while next < need
          invariant next > 0
        {
          next := next * 2;
        }
        var grown := new char[next];
        for i := 0 to len
          invariant data == old(data) && len <= data.Length
          invariant data[..len] == old(data[..len]) && grown[..i] == data[..i]
          modifies grown
        {
          grown[i] := data[i];
        }
        data := grown;
      }
    }

    /** memcpy of `s` behind the text. */
    method CopyIn(s: string)
      requires len + |s| < data.Length
      modifies data
      ensures data[..len + |s|] == old(data[..len]) + s
    {
      for i := 0 to |s|
        invariant data[..len + i] == old(data[..len]) + s[..i]
      {
        data[len + i] := s[i];
      }
    }

    /** ny_capture_append and ny_win_cmd_append; they differ in the first capacity. */
    method Append(s: string, firstCap: nat)
      requires Valid() && firstCap > 0
      modifies this, data
      ensures Valid() && (data == old(data) || fresh(data))
      ensures Text() == old(Text()) + s && data.Length > len && data[len] == '\0'
    {
      Grow(len + |s| + 1, firstCap);
      CopyIn(s);
      len := len + |s|;
      data[len] := '\0';
    }

    method AppendSlashes(n: nat, firstCap: nat)
      requires Valid() && firstCap > 0
      modifies this, data
      ensures Valid() && (data == old(data) || fresh(data))
      ensures Text() == old(Text()) + Slashes(n)
    {
      for i := 0 to n
        invariant Valid() && (data == old(data) || fresh(data))
        invariant Text() == old(Text()) + Slashes(i)
      {
        Append("\\", firstCap);
      }
    }

    /** What both writers keep: the text written so far, with what the rest of the
        argument will add, is the whole. */
    ghost predicate Writing(before: string, arg: string, i: nat, slashes: nat)
      reads this, data
      requires Valid() && i <= |arg|
    {
      Text() + Escaped(arg[i..], slashes) == before + Escaped(arg, 0)
    }

    lemma WroteChar(before: string, arg: string, i: nat, slashes: nat, text: string)
      requires Valid() && i < |arg| && arg[i] != '\\'
      requires text + Escaped(arg[i..], slashes) == before + Escaped(arg, 0)
      requires Text() == text + Slashes(if arg[i] == '\"' then 2 * slashes + 1 else slashes) + [arg[i]]
      ensures Writing(before, arg, i + 1, 0)
    {
      var k := if arg[i] == '\"' then 2 * slashes + 1 else slashes;
      assert arg[i..][1..] == arg[i + 1..];
      assert Escaped(arg[i..], slashes) == Slashes(k) + [arg[i]] + Escaped(arg[i + 1..], 0);
      assert Text() + Escaped(arg[i + 1..], 0) == text + (Slashes(k) + [arg[i]] + Escaped(arg[i + 1..], 0));
    }

    /** while (slashes--) of src/base/process.c:62-66: the counter ends one below zero and
        is set back. */
    method FlushCapture(slashes: nat)
      requires Valid()
      modifies this, data
      ensures Valid() && (data == old(data) || fresh(data))
      ensures Text() == old(Text()) + Slashes(slashes)
    {
      var left: int := slashes;
      while left != 0
        invariant Valid() && (data == old(data) || fresh(data))
        invariant 0 <= left <= slashes && Text() == old(Text()) + Slashes(slashes - left)
      {
        left := left - 1;
        Append("\\", CAPTURE_FIRST_CAP);
      }
    }

    /** The same in src/base/run.c:92-96. */
    method FlushRun(slashes: nat)
      requires Valid()
      modifies this, data
      ensures Valid() && (data == old(data) || fresh(data))
      ensures Text() == old(Text()) + Slashes(slashes)
    {
      var left := slashes;
      while left > 0
        invariant Valid() && (data == old(data) || fresh(data))
        invariant 0 <= left <= slashes && Text() == old(Text()) + Slashes(slashes - left)
      {
        Append("\\", RUN_FIRST_CAP);
        left := left - 1;
      }
    }

    /** ny_win_quote_arg of src/base/process.c. */
    method QuoteArg(arg: string)
      requires Valid() && '\0' !in arg
      modifies this, data
      ensures Valid() && (data == old(data) || fresh(data))
      ensures Text() == Joined(old(Text()), arg)
    {
      ghost var line := Text();
      JoinedParts(line, arg);
      if len > 0 {
        Append(" ", CAPTURE_FIRST_CAP);
      }
      Append("\"", CAPTURE_FIRST_CAP);
      QuoteArgBody(arg, Text());
      Append("\"", CAPTURE_FIRST_CAP);
    }

    method QuoteArgBody(arg: string, ghost before: string)
      requires Valid() && '\0' !in arg && Text() == before
      modifies this, data
      ensures Valid() && (data == old(data) || fresh(data))
      ensures Text() == before + Escaped(arg, 0)
    {
      var slashes := 0;
      var i := 0;
      assert arg[0..] == arg;
      while true
        invariant Valid() && (data == old(data) || fresh(data))
        invariant i <= |arg| && Writing(before, arg, i, slashes)
        decreases |arg| - i
      {
        var c := if i < |arg| then arg[i] else '\0';
        ghost var text := Text();
        if c == '\\' {
          assert arg[i..][1..] == arg[i + 1..];
          slashes := slashes + 1;
        } else if c == '\0' {
          assert arg[i..] == "";
          AppendSlashes(slashes * 2, CAPTURE_FIRST_CAP);
          return;
        } else {
          if c == '\"' {
            AppendSlashes(slashes * 2 + 1, CAPTURE_FIRST_CAP);
          } else {
            FlushCapture(slashes);
          }
          Append([c], CAPTURE_FIRST_CAP);
          WroteChar(before, arg, i, slashes, text);
          slashes := 0;
        }
        i := i + 1;
      }
    }

    /** ny_win_cmd_arg of src/base/run.c: the same text. */
    method CmdArg(arg: string)
      requires Valid() && '\0' !in arg
      modifies this, data
      ensures Valid() && (data == old(data) || fresh(data))
      ensures Text() == Joined(old(Text()), arg)
    {
      ghost var line := Text();
      JoinedParts(line, arg);
      if len > 0 {
        Append(" ", RUN_FIRST_CAP);
      }
      Append("\"", RUN_FIRST_CAP);
      CmdArgBody(arg, Text());
      Append("\"", RUN_FIRST_CAP);
    }

    method CmdArgBody(arg: string, ghost before: string)
      requires Valid() && '\0' !in arg && Text() == before
      modifies this, data
      ensures Valid() && (data == old(data) || fresh(data))
      ensures Text() == before + Escaped(arg, 0)
    {
      var slashes := 0;
      var i := 0;
      assert arg[0..] == arg;
      while true
        invariant Valid() && (data == old(data) || fresh(data))
        invariant i <= |arg| && Writing(before, arg, i, slashes)
        decreases |arg| - i
      {
        var c := if i < |arg| then arg[i] else '\0';
        ghost var text := Text();
        if c == '\\' {
          assert arg[i..][1..] == arg[i + 1..];
          slashes := slashes + 1;
        } else if c == '\0' {
          assert arg[i..] == "";
          AppendSlashes(slashes * 2, RUN_FIRST_CAP);
          return;
        } else {
          if c == '\"' {
            AppendSlashes(slashes * 2 + 1, RUN_FIRST_CAP);
          } else {
            FlushRun(slashes);
          }
          Append([c], RUN_FIRST_CAP);
          WroteChar(before, arg, i, slashes, text);
          slashes := 0;
        }
        i := i + 1;
      }
    }
  }

  lemma {:induction false} JoinGrows(line: string, args: seq<string>)
    ensures |line| <= |JoinFrom(line, args)|
    decreases |args|
  {
    if args != [] {
      JoinGrows(Joined(line, args[0]), args[1..]);
    }
  }

  /** The command line of ny_process_capture: refused when there is no command or the text
      reaches the limit of Windows. */
  method CaptureCommand(argv: seq<string>) returns (ok: bool, cmd: Buffer)
    requires forall a :: a in argv ==> '\0' !in a
    ensures fresh(cmd) && fresh(cmd.data) && cmd.Valid()
    ensures ok <==> argv != [] && argv[0] != "" && |Join(argv)| < COMMAND_LIMIT
    ensures ok ==> cmd.Text() == Join(argv)
  {
    cmd := new Buffer();
    if argv == [] || argv[0] == "" {
      return false, cmd;
    }
    var i := 0;
    assert argv[0..] == argv;
    while i < |argv|
      invariant i <= |argv| && fresh(cmd.data) && cmd.Valid()
      invariant |cmd.Text()| < COMMAND_LIMIT && JoinFrom(cmd.Text(), argv[i..]) == Join(argv)
    {
      assert argv[i..][1..] == argv[i + 1..];
      cmd.QuoteArg(argv[i]);
      if cmd.len >= COMMAND_LIMIT {
        JoinGrows(cmd.Text(), argv[i + 1..]);
        return false, cmd;
      }
      i := i + 1;
    }
    ok := true;
  }

  /** The command line of ny_safe_run_spawn. */
  method RunCommand(argv: seq<string>) returns (cmd: Buffer)
    requires forall a :: a in argv ==> '\0' !in a
    ensures fresh(cmd) && fresh(cmd.data) && cmd.Valid() && cmd.Text() == Join(argv)
  {
    cmd := new Buffer();
    var i := 0;
    assert argv[0..] == argv;
    while i < |argv|
      invariant i <= |argv| && fresh(cmd.data) && cmd.Valid()
      invariant JoinFrom(cmd.Text(), argv[i..]) == Join(argv)
    {
      assert argv[i..][1..] == argv[i + 1..];
      cmd.CmdArg(argv[i]);
      i := i + 1;
    }
  }
}
