/**
 The guest command line: quoting a list of arguments into one string, and splitting such a
 string back into arguments.
 */
module CommandLine {

  const NUL: char := '\0'

  /** `std::string(p)` for a C string: what precedes the first NUL. */
  function CString(s: string): (r: string)
    ensures NUL !in r && |r| <= |s|
    ensures r == s <==> NUL !in s
  {
    if s == [] || s[0] == NUL then [] else [s[0]] + CString(s[1..])
  }

  function Backslashes(n: nat): (r: string)
    ensures |r| == n && forall i :: 0 <= i < n ==> r[i] == '\\'
  {
    if n == 0 then [] else ['\\'] + Backslashes(n - 1)
  }

  predicate IsSeparator(c: char) {
    c == ' ' || c == '\t'
  }

  // ----- quoting

  predicate ForcesQuotes(c: char) {
    c == '"' || c == ' ' || c == '\t' || c == '\n'
  }

  predicate NeedsQuotes(arg: string) {
    exists i :: 0 <= i < |arg| && ForcesQuotes(arg[i])
  }

  /** `s` with its quotes escaped, after `pending` backslashes that are still to be written. */
  function Escape(s: string, pending: nat): string
    decreases |s|
  {
    if s == [] then Backslashes(2 * pending)
    else if s[0] == '\\' then Escape(s[1..], pending + 1)
    else if s[0] == '"' then Backslashes(2 * pending) + ['\\', '"'] + Escape(s[1..], 0)
    else Backslashes(pending) + [s[0]] + Escape(s[1..], 0)
  }

  function QuoteMark(arg: string): string {
    if NeedsQuotes(arg) then ['"'] else []
  }

  function QuoteArgument(arg: string): string {
    QuoteMark(arg) + Escape(CString(arg), 0) + QuoteMark(arg)
  }

  /** Every argument preceded by a space. */
  function Continuation(args: seq<string>): string {
    if args == [] then [] else [' '] + QuoteArgument(args[0]) + Continuation(args[1..])
  }

  function Join(args: seq<string>): string {
    if args == [] then [] else QuoteArgument(args[0]) + Continuation(args[1..])
  }

  lemma {:induction false} EscapeHasNoNul(s: string, pending: nat)
    requires NUL !in s
    ensures NUL !in Escape(s, pending)
    decreases |s|
  {
    if s != [] {
      EscapeHasNoNul(s[1..], if s[0] == '\\' then pending + 1 else 0);
    }
  }

  lemma {:induction false} ContinuationHasNoNul(args: seq<string>)
    ensures NUL !in Continuation(args)
  {
    if args != [] {
      EscapeHasNoNul(CString(args[0]), 0);
      ContinuationHasNoNul(args[1..]);
    }
  }

  lemma JoinHasNoNul(args: seq<string>)
    ensures NUL !in Join(args)
  {
    if args != [] {
      EscapeHasNoNul(CString(args[0]), 0);
      ContinuationHasNoNul(args[1..]);
    }
  }

  lemma {:induction false} BackslashesJoin(m: nat, n: nat)
    ensures Backslashes(m) + Backslashes(n) == Backslashes(m + n)
  {
  }

  method AppendBackslashes(line: string, n: nat, doubled: bool) returns (r: string)
    ensures r == line + Backslashes(if doubled then 2 * n else n)
  {
    r := line;
    for j := 0 to n
      invariant r == line + Backslashes(if doubled then 2 * j else j)
    {
      BackslashesJoin(if doubled then 2 * j else j, if doubled then 2 else 1);
      assert Backslashes(2) == ['\\', '\\'] && Backslashes(1) == ['\\'];
      r := r + ['\\'];
      if doubled {
        r := r + ['\\'];
      }
    }
  }

  lemma EscapeEnds(arg: string, p: nat, pending: nat)
    requires p <= |arg| && (p < |arg| ==> arg[p] == NUL)
    ensures Escape(CString(arg[p..]), pending) == Backslashes(2 * pending)
  {
  }

  /** How `Escape` unfolds on the next character of the argument. */
  lemma EscapeStep(line: string, arg: string, p: nat, pending: nat)
    requires p < |arg| && arg[p] != NUL
    ensures
      var c, rest := arg[p], CString(arg[p + 1..]);
      line + Escape(CString(arg[p..]), pending) ==
      if c == '\\' then line + Escape(rest, pending + 1)
      else if c == '"' then (line + Backslashes(2 * pending) + ['\\'] + [c]) + Escape(rest, 0)
      else (line + Backslashes(pending) + [c]) + Escape(rest, 0)
  {
    assert arg[p..][1..] == arg[p + 1..];
    assert CString(arg[p..])[1..] == CString(arg[p + 1..]);
  }

  /** The loop over one argument, character by character up to and including the final NUL. */
  method AppendEscaped(before: string, arg: string) returns (line: string)
    ensures line == before + Escape(CString(arg), 0)
  {
    line := before;
    var backslashes := 0;
    var p := 0;
    assert arg[0..] == arg;
    while true
      invariant 0 <= p <= |arg| && backslashes >= 0
      invariant line + Escape(CString(arg[p..]), backslashes) == before + Escape(CString(arg), 0)
      decreases |arg| - p
    {
      var c := if p < |arg| then arg[p] else NUL;
      if c == NUL {
        EscapeEnds(arg, p, backslashes);
        line := AppendBackslashes(line, backslashes, true);
        break;
      }
      EscapeStep(line, arg, p, backslashes);
      if c == '\\' {
        backslashes := backslashes + 1;
      } else {
        line := AppendBackslashes(line, backslashes, c == '"');
        backslashes := 0;
        if c == '"' {
          line := line + ['\\'];
        }
        line := line + [c];
      }
      p := p + 1;
    }
  }

  method AppendArgument(cmdLine: string, arg: string) returns (line: string)
    ensures line == cmdLine + QuoteArgument(arg)
  {
    line := cmdLine;
    var needQuotes := NeedsQuotes(arg);
    if needQuotes {
      line := line + ['"'];
    }
    line := AppendEscaped(line, arg);
    if needQuotes {
      line := line + ['"'];
    }
    Associate(cmdLine, ['"'], Escape(CString(arg), 0), ['"']);
    assert Escape(CString(arg), 0) == [] + Escape(CString(arg), 0) + [];
  }

  lemma Associate(a: string, b: string, c: string, d: string)
    ensures a + b + c + d == a + (b + c + d)
  {
  }

  /** The command line handed to the guest, with its terminating NUL. */
  method BuildCommandLine(args: seq<string>) returns (cmdLine: string)
    ensures cmdLine == Join(args) + [NUL]
  {
    cmdLine := [];
    assert [] + Join(args) == Join(args);
    for i := 0 to |args|
      invariant cmdLine + Remaining(args, i) == Join(args)
    {
      ghost var before := cmdLine;
      if i != 0 {
        cmdLine := cmdLine + [' '];
      }
      cmdLine := AppendArgument(cmdLine, args[i]);
      LineStep(before, cmdLine, args, i);
    }
    LineDone(cmdLine, args);
    if cmdLine == [] || cmdLine[|cmdLine| - 1] != NUL {
      cmdLine := cmdLine + [NUL];
    }
  }

  lemma LineStep(before: string, line: string, args: seq<string>, i: nat)
    requires i < |args|
    requires line == (if i == 0 then before else before + [' ']) + QuoteArgument(args[i])
    ensures line + Remaining(args, i + 1) == before + Remaining(args, i)
  {
    RemainingStep(args, i);
    Associate(before, if i == 0 then [] else [' '], QuoteArgument(args[i]), Remaining(args, i + 1));
    assert before + [] == before;
  }

  lemma LineDone(line: string, args: seq<string>)
    requires line + Remaining(args, |args|) == Join(args)
    ensures line == Join(args) && NUL !in line
  {
    JoinHasNoNul(args);
    assert Remaining(args, |args|) == [];
  }

  /** What is left to write when `i` arguments have been. */
  ghost function Remaining(args: seq<string>, i: nat): string
    requires i <= |args|
  {
    if i == 0 then Join(args) else Continuation(args[i..])
  }

  lemma RemainingStep(args: seq<string>, i: nat)
    requires i < |args|
    ensures Remaining(args, i) ==
            (if i == 0 then [] else [' ']) + QuoteArgument(args[i]) + Remaining(args, i + 1)
  {
    var rest := args[i..];
    assert rest[0] == args[i] && rest[1..] == args[i + 1..];
    if i == 0 {
      assert rest == args;
      assert [] + QuoteArgument(args[0]) == QuoteArgument(args[0]);
    } else {
      assert Continuation(rest) == [' '] + QuoteArgument(rest[0]) + Continuation(rest[1..]);
    }
  }

  // ----- splitting

  /** One argument: its text, and the input from the separator that ends it. */
  function ScanArgument(s: string, inQuotes: bool, backslashes: nat, arg: string): (r: (string, string))
    ensures |r.1| <= |s|
    ensures s != [] && !IsSeparator(s[0]) ==> |r.1| < |s|
    decreases |s|
  {
    if s == [] then (arg + Backslashes(backslashes), [])
    else if s[0] == '\\' then ScanArgument(s[1..], inQuotes, backslashes + 1, arg)
    else if s[0] == '"' then
      if backslashes % 2 == 0 then
        ScanArgument(s[1..], !inQuotes, 0, arg + Backslashes(backslashes / 2))
      else
        ScanArgument(s[1..], inQuotes, 0, arg + Backslashes(backslashes / 2) + ['"'])
    else if !inQuotes && IsSeparator(s[0]) then (arg + Backslashes(backslashes), s)
    else ScanArgument(s[1..], inQuotes, 0, arg + Backslashes(backslashes) + [s[0]])
  }

  function Split(s: string): seq<string>
    decreases |s|
  {
    if s == [] then []
    else if IsSeparator(s[0]) then Split(s[1..])
    else
      var (arg, rest) := ScanArgument(s, false, 0, []);
      [arg] + Split(rest)
  }

  /** The loop that reads one argument and stops at its separator. */
  method ReadArgument(input: string, start: nat) returns (arg: string, i: nat)
    requires start <= |input|
    ensures start <= i <= |input|
    ensures ScanArgument(input[start..], false, 0, []) == (arg, input[i..])
  {
    arg, i := "", start;
    var inQuotes, backslashes := false, 0;
    ghost var target := ScanArgument(input[start..], false, 0, []);
    while i < |input|
      invariant start <= i <= |input| && backslashes >= 0
      invariant target == ScanArgument(input[i..], inQuotes, backslashes, arg)
    {
      assert input[i..][1..] == input[i + 1..];
      var c := input[i];
      if c == '\\' {
        backslashes, i := backslashes + 1, i + 1;
        continue;
      }
      if c == '"' {
        if backslashes % 2 == 0 {
          arg := arg + Backslashes(backslashes / 2);
          inQuotes := !inQuotes;
        } else {
          arg := arg + Backslashes(backslashes / 2) + ['"'];
        }
        backslashes, i := 0, i + 1;
        continue;
      }
      arg := arg + Backslashes(backslashes);
      backslashes := 0;
      if !inQuotes && IsSeparator(c) {
        assert arg + Backslashes(0) == arg;
        break;
      }
      arg := arg + [c];
      i := i + 1;
    }
    arg := arg + Backslashes(backslashes);
    assert input[|input|..] == [];
  }

  method SplitCommandLine(commandLine: string) returns (result: seq<string>)
    ensures result == Split(CString(commandLine))
  {
    var input := CString(commandLine);
    result := [];
    var i := 0;
    assert input[0..] == input;
    while i < |input|
      invariant 0 <= i <= |input|
      invariant Split(input) == result + Split(input[i..])
    {
      i := SkipSeparators(input, i);
      if i >= |input| {
        break;
      }
      ghost var start := i;
      var arg;
      arg, i := ReadArgument(input, i);
      assert Split(input[start..]) == [arg] + Split(input[i..]);
      assert i > start;
      result := result + [arg];
      i := SkipSeparators(input, i);
    }
    assert input[|input|..] == [];
  }

  method SkipSeparators(input: string, start: nat) returns (i: nat)
    requires start <= |input|
    ensures start <= i <= |input| && (i < |input| ==> !IsSeparator(input[i]))
    ensures Split(input[i..]) == Split(input[start..])
  {
    i := start;
    while i < |input| && IsSeparator(input[i])
      invariant start <= i <= |input|
      invariant Split(input[i..]) == Split(input[start..])
    {
      assert input[i..][1..] == input[i + 1..];
      i := i + 1;
    }
  }

  // ----- what splitting makes of a quoted argument

  lemma {:induction false} ScanBackslashes(n: nat, s: string, inQuotes: bool, backslashes: nat, arg: string)
    ensures ScanArgument(Backslashes(n) + s, inQuotes, backslashes, arg) ==
            ScanArgument(s, inQuotes, backslashes + n, arg)
    decreases n
  {
    if n == 0 {
      assert Backslashes(n) + s == s;
    } else {
      assert (Backslashes(n) + s)[1..] == Backslashes(n - 1) + s;
      ScanBackslashes(n - 1, s, inQuotes, backslashes + 1, arg);
    }
  }

  /** Scanning a run of backslashes and the character that ends it. */
  lemma {:induction false} ScanRun(n: nat, c: char, more: string, inQuotes: bool, arg: string)
    requires c != '\\' && (inQuotes || !IsSeparator(c))
    ensures ScanArgument(Backslashes(n) + ([c] + more), inQuotes, 0, arg) ==
            if c != '"' then ScanArgument(more, inQuotes, 0, arg + Backslashes(n) + [c])
            else if n % 2 == 0 then ScanArgument(more, !inQuotes, 0, arg + Backslashes(n / 2))
            else ScanArgument(more, inQuotes, 0, arg + Backslashes(n / 2) + ['"'])
  {
    ScanBackslashes(n, [c] + more, inQuotes, 0, arg);
    assert ([c] + more)[1..] == more;
  }

  /** How an escaped argument inside quotes continues after its first character. */
  lemma QuotedInput(s: string, pending: nat, rest: string)
    ensures
      var input := Escape(s, pending) + ['"'] + rest;
      if s == [] then input == Backslashes(2 * pending) + (['"'] + rest)
      else
        var more := Escape(s[1..], if s[0] == '\\' then pending + 1 else 0) + ['"'] + rest;
        if s[0] == '\\' then input == more
        else if s[0] == '"' then input == Backslashes(2 * pending + 1) + (['"'] + more)
        else input == Backslashes(pending) + ([s[0]] + more)
  {
    BackslashesJoin(2 * pending, 1);
    assert Backslashes(1) == ['\\'];
  }

  lemma BackslashFirst(arg: string, n: nat, s: string)
    requires s != [] && s[0] == '\\'
    ensures arg + Backslashes(n + 1) + s[1..] == arg + Backslashes(n) + s
  {
    BackslashesJoin(n, 1);
    assert Backslashes(1) == ['\\'];
  }

  /** Inside quotes, scanning undoes escaping up to the closing quote. */
  lemma {:induction false} ScanUndoesEscape(s: string, pending: nat, rest: string, arg: string)
    ensures ScanArgument(Escape(s, pending) + ['"'] + rest, true, 0, arg) ==
            ScanArgument(rest, false, 0, arg + Backslashes(pending) + s)
    decreases |s|
  {
    QuotedInput(s, pending, rest);
    if s == [] {
      ScanRun(2 * pending, '"', rest, true, arg);
      assert arg + Backslashes(pending) + s == arg + Backslashes(pending);
    } else if s[0] == '\\' {
      ScanUndoesEscape(s[1..], pending + 1, rest, arg);
      BackslashFirst(arg, pending, s);
    } else {
      var more := Escape(s[1..], 0) + ['"'] + rest;
      ScanRun(if s[0] == '"' then 2 * pending + 1 else pending, s[0], more, true, arg);
      var arg' := arg + Backslashes(pending) + [s[0]];
      ScanUndoesEscape(s[1..], 0, rest, arg');
      assert arg' + Backslashes(0) + s[1..] == arg + Backslashes(pending) + s;
    }
  }

  /** Where an argument ends: at the end of the line or at a separator. */
  predicate AtBoundary(rest: string) {
    rest == [] || IsSeparator(rest[0])
  }

  /** Outside quotes, text without quotes and separators is taken literally. */
  lemma {:induction false} ScanLiteral(s: string, rest: string, backslashes: nat, arg: string)
    requires forall i :: 0 <= i < |s| ==> s[i] != '"' && !IsSeparator(s[i])
    requires AtBoundary(rest)
    ensures ScanArgument(s + rest, false, backslashes, arg) == (arg + Backslashes(backslashes) + s, rest)
    decreases |s|
  {
    if s == [] {
      assert s + rest == rest && arg + Backslashes(backslashes) + s == arg + Backslashes(backslashes);
    } else {
      assert (s + rest)[1..] == s[1..] + rest;
      if s[0] == '\\' {
        ScanLiteral(s[1..], rest, backslashes + 1, arg);
        BackslashesJoin(backslashes, 1);
        assert Backslashes(1) == ['\\'];
        assert arg + Backslashes(backslashes + 1) + s[1..] == arg + Backslashes(backslashes) + s;
      } else {
        var arg' := arg + Backslashes(backslashes) + [s[0]];
        ScanLiteral(s[1..], rest, 0, arg');
        assert arg' + Backslashes(0) + s[1..] == arg + Backslashes(backslashes) + s;
      }
    }
  }

  /** How many backslashes end `s` when `pending` of them precede it. */
  function Trailing(s: string, pending: nat): nat {
    if s == [] then pending else Trailing(s[1..], if s[0] == '\\' then pending + 1 else 0)
  }

  lemma {:induction false} TrailingIsZero(s: string, pending: nat)
    ensures Trailing(s, pending) == 0 <==> if s == [] then pending == 0 else s[|s| - 1] != '\\'
    decreases |s|
  {
    if s != [] {
      TrailingIsZero(s[1..], if s[0] == '\\' then pending + 1 else 0);
    }
  }

  /** Escaping text that holds no quote only doubles the backslashes at its end. */
  lemma {:induction false} EscapeLiteral(s: string, pending: nat)
    requires forall i :: 0 <= i < |s| ==> s[i] != '"'
    ensures Escape(s, pending) == Backslashes(pending) + s + Backslashes(Trailing(s, pending))
    decreases |s|
  {
    if s == [] {
      BackslashesJoin(pending, pending);
      assert Backslashes(pending) + s == Backslashes(pending);
    } else if s[0] == '\\' {
      EscapeLiteral(s[1..], pending + 1);
      BackslashFirst([], pending, s);
      assert [] + Backslashes(pending + 1) == Backslashes(pending + 1);
      assert [] + Backslashes(pending) == Backslashes(pending);
    } else {
      EscapeLiteral(s[1..], 0);
      var end := Backslashes(Trailing(s[1..], 0));
      assert Backslashes(0) + s[1..] + end == s[1..] + end;
      assert Backslashes(pending) + [s[0]] + (s[1..] + end) == Backslashes(pending) + s + end;
    }
  }

  // ----- the round trip

  /** The arguments (none or one) that splitting recovers from one quoted argument. */
  function Recovered(arg: string): seq<string> {
    if NeedsQuotes(arg) then [CString(arg)]
    else if CString(arg) == [] then []
    else [Escape(CString(arg), 0)]
  }

  function RecoveredAll(args: seq<string>): seq<string> {
    if args == [] then [] else Recovered(args[0]) + RecoveredAll(args[1..])
  }

  /** An argument that needs no quotes, escaped: itself plus a copy of its trailing backslashes. */
  lemma LiteralEscape(arg: string) returns (quoted: string)
    requires !NeedsQuotes(arg)
    ensures quoted == Escape(CString(arg), 0) == CString(arg) + Backslashes(Trailing(CString(arg), 0))
    ensures forall i :: 0 <= i < |quoted| ==> !ForcesQuotes(quoted[i])
  {
    var text := CString(arg);
    CStringIsPrefix(arg);
    assert forall i :: 0 <= i < |text| ==> text[i] == arg[i];
    EscapeLiteral(text, 0);
    assert Backslashes(0) + text == text;
    quoted := Escape(text, 0);
  }

  lemma {:induction false} CStringIsPrefix(s: string)
    ensures CString(s) <= s
  {
    if s != [] && s[0] != NUL {
      CStringIsPrefix(s[1..]);
      assert s == [s[0]] + s[1..];
    }
  }

  /** One quoted argument up to a boundary is scanned as what `Recovered` says. */
  lemma ScanQuoted(arg: string, rest: string)
    requires AtBoundary(rest) && NeedsQuotes(arg)
    ensures ScanArgument(QuoteArgument(arg) + rest, false, 0, []) == (CString(arg), rest)
  {
    var text := CString(arg);
    var tail := Escape(text, 0) + ['"'] + rest;
    assert QuoteArgument(arg) + rest == Backslashes(0) + (['"'] + tail);
    ScanRun(0, '"', tail, false, []);
    assert [] + Backslashes(0) == [];
    ScanUndoesEscape(text, 0, rest, []);
    assert [] + Backslashes(0) + text == text;
    assert [] + rest == rest;
    ScanLiteral([], rest, 0, text);
    assert text + Backslashes(0) + [] == text;
  }

  lemma ScanUnquoted(arg: string, rest: string)
    requires AtBoundary(rest) && !NeedsQuotes(arg) && CString(arg) != []
    ensures
      var quoted := QuoteArgument(arg);
      && quoted == Escape(CString(arg), 0) && quoted != [] && !IsSeparator(quoted[0])
      && ScanArgument(quoted + rest, false, 0, []) == (quoted, rest)
  {
    var text := CString(arg);
    var quoted := LiteralEscape(arg);
    assert QuoteArgument(arg) == quoted;
    ScanLiteral(quoted, rest, 0, []);
    assert [] + Backslashes(0) + quoted == quoted;
  }

  lemma SplitStep(quoted: string, rest: string, arg: string)
    requires quoted != [] && !IsSeparator(quoted[0])
    requires ScanArgument(quoted + rest, false, 0, []) == (arg, rest)
    ensures Split(quoted + rest) == [arg] + Split(rest)
  {
    assert quoted + rest != [] && (quoted + rest)[0] == quoted[0];
  }

  lemma SplitQuoted(arg: string, rest: string)
    requires AtBoundary(rest)
    ensures Split(QuoteArgument(arg) + rest) == Recovered(arg) + Split(rest)
  {
    if NeedsQuotes(arg) {
      ScanQuoted(arg, rest);
      SplitStep(QuoteArgument(arg), rest, CString(arg));
    } else if CString(arg) != [] {
      ScanUnquoted(arg, rest);
      SplitStep(QuoteArgument(arg), rest, QuoteArgument(arg));
    } else {
      assert QuoteArgument(arg) + rest == rest;
      assert [] + Split(rest) == Split(rest);
    }
  }

  lemma {:induction false} SplitContinuation(args: seq<string>)
    ensures Split(Continuation(args)) == RecoveredAll(args)
  {
    if args != [] {
      var rest := Continuation(args[1..]);
      SplitContinuation(args[1..]);
      SplitQuoted(args[0], rest);
      ContinuationFirst(args);
      SplitSkipsSpace(QuoteArgument(args[0]) + rest);
    }
  }

  lemma ContinuationFirst(args: seq<string>)
    requires args != []
    ensures Continuation(args) == [' '] + (QuoteArgument(args[0]) + Continuation(args[1..]))
  {
  }

  lemma SplitSkipsSpace(s: string)
    ensures Split([' '] + s) == Split(s)
  {
    assert ([' '] + s)[1..] == s;
  }

  lemma SplitJoin(args: seq<string>)
    ensures Split(Join(args)) == RecoveredAll(args)
  {
    if args != [] {
      SplitContinuation(args[1..]);
      SplitQuoted(args[0], Continuation(args[1..]));
    }
  }

  /** The arguments the pair of conversions carries faithfully. */
  predicate Faithful(arg: string) {
    && arg != []
    && NUL !in arg
    && (arg[|arg| - 1] == '\\' ==> '"' in arg || ' ' in arg || '\t' in arg || '\n' in arg)
  }

  /** Quotes are put around exactly the arguments with a quote, a space, a tab or a newline in them. */
  lemma WhoIsQuoted(arg: string)
    ensures NeedsQuotes(arg) <==> '"' in arg || ' ' in arg || '\t' in arg || '\n' in arg
  {
    if '"' in arg || ' ' in arg || '\t' in arg || '\n' in arg {
      var i :| 0 <= i < |arg| && (arg[i] == '"' || arg[i] == ' ' || arg[i] == '\t' || arg[i] == '\n');
      assert ForcesQuotes(arg[i]);
    }
  }

  /** Words without quotes are separated by spaces and tabs alike, and by nothing else. */
  lemma PlainWords(word: string, gap: char, rest: string)
    requires word != [] && '"' !in word && ' ' !in word && '\t' !in word
    requires gap == ' ' || gap == '\t'
    ensures Split(word) == [word]
    ensures Split(word + [gap] + rest) == [word] + Split(rest)
    ensures Split([gap] + rest) == Split(rest)
  {
    assert forall i :: 0 <= i < |word| ==> word[i] in word;
    assert ([gap] + rest)[1..] == rest;
    ScanLiteral(word, [gap] + rest, 0, []);
    assert word + [gap] + rest == word + ([gap] + rest);
    assert [] + Backslashes(0) + word == word;
    SplitStep(word, [gap] + rest, word);
    ScanLiteral(word, [], 0, []);
    assert word + [] == word;
    SplitStep(word, [], word);
  }

  lemma RecoveredIffFaithful(arg: string)
    ensures Recovered(arg) == [arg] <==> Faithful(arg)
  {
    WhoIsQuoted(arg);
    var text := CString(arg);
    if !NeedsQuotes(arg) && text != [] {
      var quoted := LiteralEscape(arg);
      TrailingIsZero(text, 0);
      EscapeHasNoNul(text, 0);
      assert |quoted| == |text| + Trailing(text, 0);
      assert Trailing(text, 0) == 0 ==> quoted == text;
    }
  }

  lemma {:induction false} RecoversAtMostOneEach(args: seq<string>)
    ensures |RecoveredAll(args)| <= |args|
  {
    if args != [] {
      RecoversAtMostOneEach(args[1..]);
    }
  }

  lemma {:induction false} AllRecoveredIffAllFaithful(args: seq<string>)
    ensures RecoveredAll(args) == args <==> forall i :: 0 <= i < |args| ==> Faithful(args[i])
  {
    if args != [] {
      var first, rest := args[0], args[1..];
      RecoveredIffFaithful(first);
      AllRecoveredIffAllFaithful(rest);
      RecoversAtMostOneEach(rest);
      assert args == [first] + rest;
      assert forall i :: 0 <= i < |rest| ==> rest[i] == args[i + 1];
      if RecoveredAll(args) == args {
        assert |Recovered(first)| == 1;
        assert RecoveredAll(args)[0] == Recovered(first)[0];
        assert RecoveredAll(args)[1..] == RecoveredAll(rest);
      }
    }
  }

  /**
   Splitting the built command line returns the very list of arguments exactly when none of
   them is empty, holds a NUL, or ends in a backslash without needing quotes.
   */
  lemma RoundTrip(args: seq<string>)
    ensures Split(CString(Join(args) + [NUL])) == args <==>
            forall i :: 0 <= i < |args| ==> Faithful(args[i])
  {
    JoinHasNoNul(args);
    CStringStopsAtNul(Join(args));
    SplitJoin(args);
    AllRecoveredIffAllFaithful(args);
  }

  lemma {:induction false} CStringStopsAtNul(s: string)
    requires NUL !in s
    ensures CString(s + [NUL]) == s
  {
    if s != [] {
      CStringStopsAtNul(s[1..]);
      assert (s + [NUL])[1..] == s[1..] + [NUL];
    }
  }

  /** An empty argument disappears, and an unquoted trailing backslash comes back doubled. */
  lemma RoundTripFailures()
    ensures Split(Join([""])) == []
    ensures Split(Join(["\\"])) == ["\\\\"]
  {
    SplitJoin([""]);
    SplitJoin(["\\"]);
    assert !NeedsQuotes("") && !NeedsQuotes("\\");
    assert [""][1..] == [] && ["\\"][1..] == [];
    assert CString("\\") == "\\";
    assert "\\"[1..] == [] && Escape("\\", 0) == Escape([], 1) == Backslashes(2) == "\\\\";
  }
}
