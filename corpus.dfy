/**
 * The golden-transcript corpus of the command tests: a script of lines,
 * where a line starting with `$` is a client command and the lines after
 * it are the output that command must print, is folded into two parallel
 * lists, and each command's actual output must equal its expected output
 * exactly.
 *
 * `SplitLines` and `Strip` are the string methods the script relies on
 * (`str.splitlines` and `str.strip`), `Fold` is the fold as a function,
 * `ParseCases` is the loop proved to compute it, and `CheckCases` is the
 * comparison loop.
 */
module Corpus {
  import opened Wire

  /** The characters `str.splitlines` breaks at. */
  predicate IsLineBreak(c: char)
  {
    var n := c as int;
    10 <= n <= 13 || 28 <= n <= 30 || n == 0x85 || n == 0x2028 || n == 0x2029
  }

  /** The characters `str.strip` removes: those for which `str.isspace` holds. */
  predicate IsSpace(c: char)
  {
    var n := c as int;
    9 <= n <= 13 || 28 <= n <= 32 || n == 0x85 || n == 0xA0 || n == 0x1680
    || 0x2000 <= n <= 0x200A || n == 0x2028 || n == 0x2029 || n == 0x202F || n == 0x205F || n == 0x3000
  }

  predicate NoBreak(line: string)
  {
    forall i :: 0 <= i < |line| ==> !IsLineBreak(line[i])
  }

  /** The length of the first line of s: the index of the first line break, or |s|. */
  function LineLength(s: string): (k: nat)
    ensures k <= |s| && NoBreak(s[..k])
    ensures k < |s| ==> IsLineBreak(s[k])
  {
    if s == [] || IsLineBreak(s[0]) then 0
    else
      var k := 1 + LineLength(s[1..]);
      assert s[..k] == [s[0]] + s[1..][..k - 1];
      k
  }

  /**
   * `str.splitlines()`: the lines of s without their line breaks; `\r\n`
   * is one break, and a break at the very end opens no further line.
   */
  function SplitLines(s: string): (r: seq<string>)
    ensures forall i :: 0 <= i < |r| ==> NoBreak(r[i])
    decreases |s|
  {
    if s == [] then []
    else
      var k := LineLength(s);
      if k == |s| then [s]
      else
        var next := if s[k] == '\r' && k + 1 < |s| && s[k + 1] == '\n' then k + 2 else k + 1;
        [s[..k]] + SplitLines(s[next..])
  }

  /** Each line followed by a newline. */
  function JoinLines(lines: seq<string>): string
  {
    if lines == [] then [] else lines[0] + "\n" + JoinLines(lines[1..])
  }

  /** Splitting text written one line per newline gives back its lines. */
  lemma {:induction false} SplitJoin(lines: seq<string>)
    requires forall i :: 0 <= i < |lines| ==> NoBreak(lines[i])
    ensures SplitLines(JoinLines(lines)) == lines
  {
    if lines != [] {
      var line, rest := lines[0], JoinLines(lines[1..]);
      var s := JoinLines(lines);
      assert s == line + (['\n'] + rest);
      FirstLine(line, ['\n'] + rest);
      assert s[|line| + 1..] == rest;
      SplitJoin(lines[1..]);
    }
  }

  /** A line without breaks, then a break: the first line is that line. */
  lemma FirstLine(line: string, rest: string)
    requires NoBreak(line) && rest != [] && IsLineBreak(rest[0])
    ensures LineLength(line + rest) == |line| && (line + rest)[..|line|] == line
  {
    if line != [] {
      assert (line + rest)[1..] == line[1..] + rest;
      FirstLine(line[1..], rest);
    }
  }

  function TrimStart(s: string): string
  {
    if s != [] && IsSpace(s[0]) then TrimStart(s[1..]) else s
  }

  function TrimEnd(s: string): string
  {
    if s != [] && IsSpace(s[|s| - 1]) then TrimEnd(s[..|s| - 1]) else s
  }

  /** `str.strip()`: s without its leading and trailing white space. */
  function Strip(s: string): string
  {
    TrimEnd(TrimStart(s))
  }

  /** TrimStart cuts a run of white space off the front of s, up to a character that is not white space. */
  lemma {:induction false} TrimStartNoSpace(s: string)
    ensures |TrimStart(s)| <= |s| && TrimStart(s) == s[|s| - |TrimStart(s)|..]
    ensures TrimStart(s) == [] || !IsSpace(TrimStart(s)[0])
    ensures forall i :: 0 <= i < |s| - |TrimStart(s)| ==> IsSpace(s[i])
  {
    if s != [] && IsSpace(s[0]) {
      TrimStartNoSpace(s[1..]);
      assert forall i :: 1 <= i < |s| ==> s[i] == s[1..][i - 1];
    }
  }

  /** TrimEnd cuts a run of white space off the back of s, down to a character that is not white space. */
  lemma {:induction false} TrimEndNoSpace(s: string)
    ensures |TrimEnd(s)| <= |s| && TrimEnd(s) == s[..|TrimEnd(s)|]
    ensures TrimEnd(s) == [] || !IsSpace(TrimEnd(s)[|TrimEnd(s)| - 1])
    ensures forall i :: |TrimEnd(s)| <= i < |s| ==> IsSpace(s[i])
  {
    if s != [] && IsSpace(s[|s| - 1]) {
      TrimEndNoSpace(s[..|s| - 1]);
      assert forall i :: 0 <= i < |s| - 1 ==> s[i] == s[..|s| - 1][i];
    }
  }

  /**
   * The strip of s neither starts nor ends with white space.
   */
  lemma StripTrims(s: string)
    ensures var r := Strip(s);
      |r| <= |s| && (r == [] || (!IsSpace(r[0]) && !IsSpace(r[|r| - 1])))
  {
    TrimStartNoSpace(s);
    TrimEndNoSpace(TrimStart(s));
  }

  /** A line that neither starts nor ends with white space is its own strip. */
  lemma StripClean(s: string)
    requires s == [] || (!IsSpace(s[0]) && !IsSpace(s[|s| - 1]))
    ensures Strip(s) == s
  {
  }

  /** The commands of the cases and their expected outputs, as two parallel lists. */
  datatype Corpus = Corpus(commands: seq<string>, outputs: seq<string>)

  /** `x[2:]`: the command of a `$` line, which drops the `$` and the space after it. */
  function CommandOf(x: string): string
  {
    if |x| >= 2 then x[2..] else []
  }

  predicate IsCommand(line: string)
  {
    var x := Strip(line);
    x != [] && x[0] == '$'
  }

  predicate IsText(line: string)
  {
    var x := Strip(line);
    x != [] && x[0] != '$'
  }

  /**
   * One iteration of the loop: a blank line is skipped, a `$` line opens a
   * case with an empty expected output, and any other line is added, with
   * a newline, to the output of the latest case; before any case that is
   * `outputs[-1]` of an empty list, an error.
   */
  function AddLine(c: Corpus, line: string): Option<Corpus>
  {
    var x := Strip(line);
    if x == [] then Some(c)
    else if x[0] == '$' then Some(Corpus(c.commands + [CommandOf(x)], c.outputs + [""]))
    else if c.outputs == [] then None
    else Some(Corpus(c.commands, c.outputs[..|c.outputs| - 1] + [c.outputs[|c.outputs| - 1] + x + "\n"]))
  }

  /** A line fails exactly when it is text and no case is open yet. */
  lemma AddLineFails(c: Corpus, line: string)
    ensures AddLine(c, line).None? <==> IsText(line) && c.outputs == []
  {
  }

  /** Every case has an output, and every output is a run of whole lines. */
  predicate WellFormed(c: Corpus)
  {
    |c.commands| == |c.outputs|
    && forall i :: 0 <= i < |c.outputs| ==> c.outputs[i] == [] || c.outputs[i][|c.outputs[i]| - 1] == '\n'
  }

  /** Every line keeps a corpus well formed. */
  lemma AddLineWellFormed(c: Corpus, line: string)
    requires WellFormed(c)
    ensures AddLine(c, line).Some? ==> WellFormed(AddLine(c, line).value)
  {
    var x := Strip(line);
    var n := |c.outputs|;
    if x != [] && x[0] == '$' {
      var outputs := c.outputs + [""];
      assert forall i :: 0 <= i < n ==> outputs[i] == c.outputs[i];
    } else if x != [] && n > 0 {
      var last := c.outputs[n - 1] + x + "\n";
      var outputs := c.outputs[..n - 1] + [last];
      assert last[|last| - 1] == '\n';
      assert forall i :: 0 <= i < n - 1 ==> outputs[i] == c.outputs[i];
      assert outputs[n - 1] == last;
    }
  }

  /** The loop over lines, from an empty corpus; None once a line fails. */
  function Fold(lines: seq<string>): (r: Option<Corpus>)
    ensures r.Some? ==> WellFormed(r.value)
  {
    if lines == [] then Some(Corpus([], []))
    else
      match Fold(lines[..|lines| - 1])
      case None => None
      case Some(c) =>
        AddLineWellFormed(c, lines[|lines| - 1]);
        AddLine(c, lines[|lines| - 1])
  }

  /**
   * The corpus the script builds from its text: split into lines, a blank
   * first line dropped, then folded. Text with no line at all fails at
   * `lines[0]`.
   */
  function ParseCorpus(text: string): Option<Corpus>
  {
    var lines := SplitLines(text);
    if lines == [] then None
    else Fold(if Strip(lines[0]) == [] then lines[1..] else lines)
  }

  /** Once a line has failed, the fold stays failed. */
  lemma {:induction false} FoldFailed(lines: seq<string>, i: nat)
    requires i <= |lines| && Fold(lines[..i]).None?
    ensures Fold(lines).None?
    decreases |lines| - i
  {
    if i < |lines| {
      assert lines[..i + 1][..i] == lines[..i];
      FoldFailed(lines, i + 1);
    } else {
      assert lines[..i] == lines;
    }
  }

  /** The command of every `$` line, in order: the reference for the commands of the fold. */
  function CommandsOf(lines: seq<string>): seq<string>
  {
    if lines == [] then []
    else
      var x := Strip(lines[|lines| - 1]);
      CommandsOf(lines[..|lines| - 1]) + (if IsCommand(lines[|lines| - 1]) then [CommandOf(x)] else [])
  }

  /** The commands of a successful fold are the commands of the `$` lines, in order. */
  lemma {:induction false} FoldCommands(lines: seq<string>)
    requires Fold(lines).Some?
    ensures Fold(lines).value.commands == CommandsOf(lines)
  {
    if lines != [] {
      FoldCommands(lines[..|lines| - 1]);
    }
  }

  /** No `$` line among lines gives no command. */
  lemma {:induction false} NoCommands(lines: seq<string>)
    ensures CommandsOf(lines) == [] <==> forall j :: 0 <= j < |lines| ==> !IsCommand(lines[j])
  {
    if lines != [] {
      var init, last := lines[..|lines| - 1], lines[|lines| - 1];
      NoCommands(init);
      var tail := if IsCommand(last) then [CommandOf(Strip(last))] else [];
      assert CommandsOf(lines) == CommandsOf(init) + tail;
      if CommandsOf(lines) == [] {
        assert CommandsOf(init) == [] && !IsCommand(last);
        forall j | 0 <= j < |lines| ensures !IsCommand(lines[j]) {
          if j < |init| {
            assert lines[j] == init[j];
          }
        }
      } else if CommandsOf(init) == [] {
        assert IsCommand(lines[|lines| - 1]);
      } else {
        var j :| 0 <= j < |init| && IsCommand(init[j]);
        assert lines[j] == init[j];
      }
    }
  }

  /** A successful fold has no case exactly when no line is a `$` line. */
  lemma NoCaseYet(lines: seq<string>)
    requires Fold(lines).Some?
    ensures Fold(lines).value.outputs == [] <==> forall j :: 0 <= j < |lines| ==> !IsCommand(lines[j])
  {
    FoldCommands(lines);
    NoCommands(lines);
  }

  /** Some line i is text while no line before it is a command. */
  predicate Orphan(lines: seq<string>, i: nat)
  {
    i < |lines| && IsText(lines[i]) && forall j :: 0 <= j < i ==> !IsCommand(lines[j])
  }

  /** Below the last line, an orphan of lines is an orphan of the lines before the last. */
  lemma OrphanInit(lines: seq<string>, i: nat)
    requires i < |lines| - 1
    ensures Orphan(lines, i) == Orphan(lines[..|lines| - 1], i)
  {
    assert forall j :: 0 <= j <= i ==> lines[..|lines| - 1][j] == lines[j];
  }

  /** The fold fails exactly when a line of text comes before the first `$` line. */
  lemma {:induction false} FoldFailsIff(lines: seq<string>)
    ensures Fold(lines).None? <==> exists i :: Orphan(lines, i)
  {
    if lines != [] {
      var init, last := lines[..|lines| - 1], lines[|lines| - 1];
      FoldFailsIff(init);
      if Fold(init).None? {
        var i :| Orphan(init, i);
        OrphanInit(lines, i);
      } else {
        var c := Fold(init).value;
        NoCaseYet(init);
        AddLineFails(c, last);
        assert forall j :: 0 <= j < |init| ==> init[j] == lines[j];
        if AddLine(c, last).None? {
          assert Orphan(lines, |init|);
        } else {
          assert !Orphan(lines, |init|);
          forall i: nat ensures !Orphan(lines, i) {
            if i < |init| {
              OrphanInit(lines, i);
              assert !Orphan(init, i);
            } else if i > |init| {
              assert i >= |lines|;
            }
          }
        }
      }
    }
  }

  /**
   * The loop of the script: splits the text, drops a blank first line,
   * then goes through the lines appending commands and output lines.
   */
  method ParseCases(text: string) returns (r: Option<Corpus>)
    ensures r == ParseCorpus(text)
  {
    var lines := SplitLines(text);
    if lines == [] {
      return None;
    }
    if Strip(lines[0]) == [] {
      lines := lines[1..];
    }
    var commands: seq<string> := [];
    var outputs: seq<string> := [];
    for i := 0 to |lines|
      invariant Fold(lines[..i]) == Some(Corpus(commands, outputs))
    {
      assert lines[..i + 1][..i] == lines[..i];
      ghost var step := AddLine(Corpus(commands, outputs), lines[i]);
      assert Fold(lines[..i + 1]) == step;
      var x := Strip(lines[i]);
      if x == [] {
        assert step == Some(Corpus(commands, outputs));
        continue;
      }
      if x[0] == '$' {
        commands := commands + [CommandOf(x)];
        outputs := outputs + [""];
      } else {
        if outputs == [] {
          FoldFailed(lines, i + 1);
          return None;
        }
        outputs := outputs[..|outputs| - 1] + [outputs[|outputs| - 1] + x + "\n"];
      }
    }
    assert lines[..|lines|] == lines;
    return Some(Corpus(commands, outputs));
  }

  /** How a run of the cases ends. */
  datatype Verdict = Passed | LengthMismatch | Failed(index: nat)

  /**
   * The checks of the script: the lists must have equal length, then each
   * command is run in order and its output must equal the expected output
   * exactly; the first case that does not stops the run. run(command) is
   * the decoded output of the command, or None when it exits with an error
   * or its output is not UTF-8.
   */
  method CheckCases(c: Corpus, run: string -> Option<string>) returns (v: Verdict)
    ensures v == LengthMismatch <==> |c.commands| != |c.outputs|
    ensures v == Passed <==>
      |c.commands| == |c.outputs| && forall i :: 0 <= i < |c.commands| ==> run(c.commands[i]) == Some(c.outputs[i])
    ensures v.Failed? ==>
      v.index < |c.commands| == |c.outputs| && run(c.commands[v.index]) != Some(c.outputs[v.index])
      && forall i :: 0 <= i < v.index ==> run(c.commands[i]) == Some(c.outputs[i])
  {
    if |c.commands| != |c.outputs| {
      return LengthMismatch;
    }
    for i := 0 to |c.commands|
      invariant forall j :: 0 <= j < i ==> run(c.commands[j]) == Some(c.outputs[j])
    {
      var actual := run(c.commands[i]);
      if actual != Some(c.outputs[i]) {
        return Failed(i);
      }
    }
    return Passed;
  }

  /** A case as the transcript writes it: a command, then the lines it prints. */
  datatype Case = Case(command: string, output: seq<string>)

  function CaseLines(k: Case): seq<string>
  {
    ["$ " + k.command] + k.output
  }

  /** The lines of a transcript of cases, in order. */
  function Transcript(cases: seq<Case>): seq<string>
  {
    if cases == [] then [] else Transcript(cases[..|cases| - 1]) + CaseLines(cases[|cases| - 1])
  }

  predicate Clean(line: string)
  {
    line != [] && !IsSpace(line[0]) && !IsSpace(line[|line| - 1])
  }

  /**
   * A case whose lines survive the fold: the command and the output lines
   * have no surrounding white space, and no output line starts with `$`.
   */
  predicate Foldable(k: Case)
  {
    Clean(k.command) && forall j :: 0 <= j < |k.output| ==> Clean(k.output[j]) && k.output[j][0] != '$'
  }

  /** A foldable case whose lines also hold no line break, so that they survive the split too. */
  predicate Printable(k: Case)
  {
    Foldable(k) && NoBreak(k.command) && forall j :: 0 <= j < |k.output| ==> NoBreak(k.output[j])
  }

  /**
   * The commands of the cases, in order (the first list the test script
   * builds). The ensures gives callers the elements without unfolding the
   * comprehension.
   */
  function Commands(cases: seq<Case>): (r: seq<string>)
    ensures |r| == |cases| && forall i :: 0 <= i < |cases| ==> r[i] == cases[i].command
  {
    seq(|cases|, i requires 0 <= i < |cases| => cases[i].command)
  }

  /**
   * The expected outputs of the cases, each its lines joined with line
   * breaks; the ensures, as for `Commands`, spares callers the unfolding.
   */
  function Outputs(cases: seq<Case>): (r: seq<string>)
    ensures |r| == |cases| && forall i :: 0 <= i < |cases| ==> r[i] == JoinLines(cases[i].output)
  {
    seq(|cases|, i requires 0 <= i < |cases| => JoinLines(cases[i].output))
  }

  lemma {:induction false} JoinLinesSnoc(lines: seq<string>, line: string)
    ensures JoinLines(lines + [line]) == JoinLines(lines) + line + "\n"
  {
    if lines != [] {
      assert (lines + [line])[1..] == lines[1..] + [line];
      JoinLinesSnoc(lines[1..], line);
    }
  }

  lemma SnocLast<T>(s: seq<T>)
    requires s != []
    ensures s[..|s| - 1] + [s[|s| - 1]] == s
  {
  }

  lemma InitOfAppend<T>(a: seq<T>, b: seq<T>)
    requires b != []
    ensures (a + b)[..|a + b| - 1] == a + b[..|b| - 1] && (a + b)[|a + b| - 1] == b[|b| - 1]
  {
  }

  lemma SetLast<T>(prefix: seq<T>, x: T)
    ensures (prefix + [x])[..|prefix|] == prefix && (prefix + [x])[|prefix|] == x
  {
  }

  lemma Assoc<T>(a: seq<T>, b: seq<T>, c: seq<T>)
    ensures a + b + c == a + (b + c)
  {
  }

  /** A line of text, with a case open, is added to the output of the latest case. */
  lemma AddText(c: Corpus, line: string)
    requires c.outputs != [] && Clean(line) && line[0] != '$'
    ensures AddLine(c, line)
      == Some(Corpus(c.commands, c.outputs[..|c.outputs| - 1] + [c.outputs[|c.outputs| - 1] + line + "\n"]))
  {
    StripClean(line);
  }

  /** Output lines after an open case are added, each with a newline, to its output. */
  lemma {:induction false} FoldOutput(lines: seq<string>, c: Corpus, output: seq<string>)
    requires Fold(lines) == Some(c) && c.outputs != []
    requires forall j :: 0 <= j < |output| ==> Clean(output[j]) && output[j][0] != '$'
    ensures Fold(lines + output)
      == Some(Corpus(c.commands, c.outputs[..|c.outputs| - 1] + [c.outputs[|c.outputs| - 1] + JoinLines(output)]))
  {
    var n := |c.outputs|;
    SnocLast(c.outputs);
    if output == [] {
      assert lines + output == lines;
      assert c.outputs[n - 1] + JoinLines(output) == c.outputs[n - 1];
    } else {
      var init, last := output[..|output| - 1], output[|output| - 1];
      FoldOutput(lines, c, init);
      var prefix, tail := c.outputs[..n - 1], c.outputs[n - 1] + JoinLines(init);
      var mid := Corpus(c.commands, prefix + [tail]);
      InitOfAppend(lines, output);
      assert Clean(last) && last[0] != '$';
      AddText(mid, last);
      SetLast(prefix, tail);
      JoinLinesSnoc(init, last);
      SnocLast(output);
      Assoc(c.outputs[n - 1], JoinLines(init), last);
      Assoc(c.outputs[n - 1], JoinLines(init) + last, "\n");
    }
  }

  /** A `$` line opens a case whose command is the rest of the line after `$ `. */
  lemma AddCommand(c: Corpus, command: string)
    requires Clean(command)
    ensures AddLine(c, "$ " + command) == Some(Corpus(c.commands + [command], c.outputs + [""]))
  {
    var head := "$ " + command;
    CommandLine(command);
    StripClean(head);
  }

  lemma CommandLine(command: string)
    requires Clean(command)
    ensures var head := "$ " + command;
      head[0] == '$' && head[|head| - 1] == command[|command| - 1] && CommandOf(head) == command
  {
    var head := "$ " + command;
    assert head[2..] == command;
  }

  /** One case of a transcript adds its command and its output to the corpus. */
  lemma FoldCase(lines: seq<string>, c: Corpus, k: Case)
    requires Fold(lines) == Some(c) && Foldable(k)
    ensures Fold(lines + CaseLines(k)) == Some(Corpus(c.commands + [k.command], c.outputs + [JoinLines(k.output)]))
  {
    var head := "$ " + k.command;
    var open := Corpus(c.commands + [k.command], c.outputs + [""]);
    AddCommand(c, k.command);
    InitOfAppend(lines, [head]);
    assert Fold(lines + [head]) == Some(open);
    FoldOutput(lines + [head], open, k.output);
    Assoc(lines, [head], k.output);
    SetLast(c.outputs, "");
    assert "" + JoinLines(k.output) == JoinLines(k.output);
  }

  lemma CasesSnoc(cases: seq<Case>)
    requires cases != []
    ensures var init, last := cases[..|cases| - 1], cases[|cases| - 1];
      Commands(cases) == Commands(init) + [last.command] && Outputs(cases) == Outputs(init) + [JoinLines(last.output)]
  {
  }

  /** Folding the lines of a transcript gives back its commands and their outputs. */
  lemma {:induction false} FoldTranscript(cases: seq<Case>)
    requires forall i :: 0 <= i < |cases| ==> Foldable(cases[i])
    ensures Fold(Transcript(cases)) == Some(Corpus(Commands(cases), Outputs(cases)))
  {
    if cases != [] {
      var init := cases[..|cases| - 1];
      FoldTranscript(init);
      FoldCase(Transcript(init), Corpus(Commands(init), Outputs(init)), cases[|cases| - 1]);
      CasesSnoc(cases);
    }
  }

  /**
   * Round trip: the text of a transcript, opened by a blank line as the
   * script writes it, parses back into the commands and outputs it was
   * written from.
   */
  lemma ParseTranscript(cases: seq<Case>)
    requires forall i :: 0 <= i < |cases| ==> Printable(cases[i])
    ensures ParseCorpus(JoinLines([""] + Transcript(cases))) == Some(Corpus(Commands(cases), Outputs(cases)))
  {
    var lines := [""] + Transcript(cases);
    TranscriptNoBreak(cases);
    SplitJoin(lines);
    assert lines[1..] == Transcript(cases);
    FoldTranscript(cases);
  }

  lemma {:induction false} TranscriptNoBreak(cases: seq<Case>)
    requires forall i :: 0 <= i < |cases| ==> Printable(cases[i])
    ensures forall j :: 0 <= j < |Transcript(cases)| ==> NoBreak(Transcript(cases)[j])
  {
    if cases != [] {
      var k := cases[|cases| - 1];
      TranscriptNoBreak(cases[..|cases| - 1]);
      assert forall j :: 0 <= j < |k.command| ==> ("$ " + k.command)[j + 2] == k.command[j];
    }
  }

  /** The client invocation every command of the script starts with. */
  function Client(): string
  {
    "bazel run //client:client -- "
  }

  /** A case that runs the client with the given arguments. */
  function Run(args: string, output: seq<string>): Case
  {
    Case(Client() + args, output)
  }

  lemma RunFoldable(args: string, output: seq<string>)
    requires args != [] && !IsSpace(args[|args| - 1])
    requires forall j :: 0 <= j < |output| ==> Clean(output[j]) && output[j][0] != '$'
    ensures Foldable(Run(args, output))
  {
    var command := Client() + args;
    assert Client()[0] == 'b';
    assert command[0] == 'b' && command[|command| - 1] == args[|args| - 1];
  }

  /** The cases of the command tests, as the script lists them. */
  function Cases(): seq<Case>
  {
    [
      Run("zscore asdf n1", ["(nil)"]),
      Run("zquery xxx 1 asdf 1 10", ["(arr) len=0", "(arr) end"]),
      Run("zadd zset 1 n1", ["(int) 1"]),
      Run("zadd zset 2 n2", ["(int) 1"]),
      Run("zadd zset 1.1 n1", ["(int) 0"]),
      Run("zscore zset n1", ["(double) 1.1"]),
      Run("zquery zset 1 \"\" 0 10", ["(arr) len=4", "(str) n1", "(double) 1.1", "(str) n2", "(double) 2", "(arr) end"]),
      Run("zquery zset 1.1 \"\" 1 10", ["(arr) len=2", "(str) n2", "(double) 2", "(arr) end"]),
      Run("zquery zset 1.1 \"\" 2 10", ["(arr) len=0", "(arr) end"]),
      Run("zrem zset adsf", ["(int) 0"]),
      Run("zrem zset n1", ["(int) 1"]),
      Run("zquery zset 1 \"\" 0 10", ["(arr) len=2", "(str) n2", "(double) 2", "(arr) end"])
    ]
  }

  lemma CasesFoldable()
    ensures forall i :: 0 <= i < |Cases()| ==> Foldable(Cases()[i])
  {
    RunFoldable("zscore asdf n1", ["(nil)"]);
    RunFoldable("zquery xxx 1 asdf 1 10", ["(arr) len=0", "(arr) end"]);
    RunFoldable("zadd zset 1 n1", ["(int) 1"]);
    RunFoldable("zadd zset 2 n2", ["(int) 1"]);
    RunFoldable("zadd zset 1.1 n1", ["(int) 0"]);
    RunFoldable("zscore zset n1", ["(double) 1.1"]);
    RunFoldable("zquery zset 1 \"\" 0 10", ["(arr) len=4", "(str) n1", "(double) 1.1", "(str) n2", "(double) 2", "(arr) end"]);
    RunFoldable("zquery zset 1.1 \"\" 1 10", ["(arr) len=2", "(str) n2", "(double) 2", "(arr) end"]);
    RunFoldable("zquery zset 1.1 \"\" 2 10", ["(arr) len=0", "(arr) end"]);
    RunFoldable("zrem zset adsf", ["(int) 0"]);
    RunFoldable("zrem zset n1", ["(int) 1"]);
    RunFoldable("zquery zset 1 \"\" 0 10", ["(arr) len=2", "(str) n2", "(double) 2", "(arr) end"]);
  }

  /**
   * The lines of the script's cases fold into its twelve cases, each
   * command with its expected output.
   */
  lemma CasesFold()
    ensures var c := Fold(Transcript(Cases()));
      c == Some(Corpus(Commands(Cases()), Outputs(Cases()))) && |c.value.commands| == 12
      && c.value.commands[6] == Client() + "zquery zset 1 \"\" 0 10"
      && c.value.outputs[6] == JoinLines(["(arr) len=4", "(str) n1", "(double) 1.1", "(str) n2", "(double) 2", "(arr) end"])
  {
    CasesFoldable();
    FoldTranscript(Cases());
  }
}
