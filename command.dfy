/** Command lines (gsm.go): formatting an AT command with its arguments, and reading
    back from a sent line the command name that its replies will start with. */
module Command {
  import opened Wrappers
  import opened Text
  import opened Args

  /** formatCommand: "AT", the command, "=" and the quoted arguments when there are
      any, and CR LF. An argument that cannot be quoted makes the whole line fail. */
  function FormatCommand(cmd: string, args: seq<Arg>): Result<string, FormatError> {
    if |args| > 0 then
      var q :- QuoteAll(args);
      Success("AT" + cmd + "=" + q + "\r\n")
    else
      Success("AT" + cmd + "\r\n")
  }

  /** The line starts with "AT" and the command and ends with CR LF; in between there
      is nothing when there are no arguments, and "=" with the comma-joined quoted
      arguments otherwise. Formatting fails exactly when an argument is of a type
      `quote` refuses. */
  lemma FormatCommandShape(cmd: string, args: seq<Arg>)
    ensures FormatCommand(cmd, args).Failure? <==> exists i :: 0 <= i < |args| && args[i].Other?
    ensures FormatCommand(cmd, args).Success? ==>
      var line := FormatCommand(cmd, args).value;
      var n := |line|;
      n >= |cmd| + 4 && line[..2] == "AT" && line[2..2 + |cmd|] == cmd && line[n - 2..] == "\r\n"
      && (|args| == 0 <==> n == |cmd| + 4)
      && (|args| > 0 ==> line[2 + |cmd|] == '=' && line[3 + |cmd|..n - 2] == QuoteAll(args).value)
  {
    if FormatCommand(cmd, args).Success? {
      var line := FormatCommand(cmd, args).value;
      if |args| > 0 {
        var q := QuoteAll(args).value;
        assert line == "AT" + cmd + "=" + q + "\r\n";
        assert |q| >= 0;
      }
    }
  }

  /** What a modem reads from a command line: the command name up to the first "=",
      and the arguments after it. This is the reference the formatter is checked
      against; the package itself never parses its own commands. */
  function ReadCommandLine(line: string): Option<(string, seq<Arg>)> {
    if |line| < 4 || line[..2] != "AT" || line[|line| - 2..] != "\r\n" then None
    else
      var mid := line[2..|line| - 2];
      var i := FirstIndex(mid, '=');
      if i == |mid| then Some((mid, [])) else Some((mid[..i], UnquoteAll(mid[i + 1..])))
  }

  /** A framed line whose middle is a name, "=" and quoted text is read as that name
      and the unquoted text. */
  lemma ReadFramedAssignment(cmd: string, q: string)
    requires '=' !in cmd
    ensures ReadCommandLine("AT" + cmd + "=" + q + "\r\n") == Some((cmd, UnquoteAll(q)))
  {
    var mid := cmd + "=" + q;
    var line := "AT" + cmd + "=" + q + "\r\n";
    assert line == "AT" + mid + "\r\n";
    assert line[..2] == "AT" && line[|line| - 2..] == "\r\n";
    assert line[2..|line| - 2] == mid;
    assert forall k :: 0 <= k < |cmd| ==> mid[k] == cmd[k];
    FirstIndexIs(mid, '=', |cmd|);
    assert mid[..|cmd|] == cmd && mid[|cmd| + 1..] == q;
  }

  /** A framed line without "=" is read as a command without arguments. */
  lemma ReadFramedBare(cmd: string)
    requires '=' !in cmd
    ensures ReadCommandLine("AT" + cmd + "\r\n") == Some((cmd, []))
  {
    var line := "AT" + cmd + "\r\n";
    assert line[..2] == "AT" && line[|line| - 2..] == "\r\n";
    assert line[2..|line| - 2] == cmd;
    FirstIndexAbsent(cmd, '=');
  }

  /** A command without "=" in its name and with arguments that survive quoting is
      read back as the same command with the same arguments. */
  lemma FormatCommandRoundTrip(cmd: string, args: seq<Arg>)
    requires '=' !in cmd
    requires forall i :: 0 <= i < |args| ==> Transparent(args[i])
    ensures FormatCommand(cmd, args).Success?
    ensures ReadCommandLine(FormatCommand(cmd, args).value) == Some((cmd, args))
  {
    if |args| > 0 {
      ArgsRoundTrip(args);
      var q := QuoteAll(args).value;
      assert FormatCommand(cmd, args).value == "AT" + cmd + "=" + q + "\r\n";
      ReadFramedAssignment(cmd, q);
    } else {
      ReadFramedBare(cmd);
    }
  }

  // ---------------------------------------------------------------------------
  // reQuestion: the first match of `AT(\+[A-Z]+)` in a sent line

  predicate IsUpper(c: char) {
    'A' <= c <= 'Z'
  }

  /** The regex matches at offset `i`: "AT+" followed by at least one capital letter. */
  predicate QuestionAt(line: string, i: int) {
    0 <= i && i + 4 <= |line| && line[i] == 'A' && line[i + 1] == 'T' && line[i + 2] == '+'
    && IsUpper(line[i + 3])
  }

  /** The leading run of capital letters, as long as it goes: the greedy `[A-Z]+`. */
  function UpperRun(s: string): (r: string)
    ensures |r| <= |s| && r == s[..|r|]
    ensures forall k :: 0 <= k < |r| ==> IsUpper(r[k])
    ensures |r| == |s| || !IsUpper(s[|r|])
    decreases |s|
  {
    if s != [] && IsUpper(s[0]) then [s[0]] + UpperRun(s[1..]) else []
  }

  /** The leftmost offset where the regex matches, if any. */
  function FirstQuestion(line: string): (r: Option<nat>)
    ensures r.Some? ==> QuestionAt(line, r.value)
    decreases |line|
  {
    if QuestionAt(line, 0) then Some(0)
    else if line == [] then None
    else
      match FirstQuestion(line[1..])
      case Some(i) => Some(i + 1)
      case None => None
  }

  /** FindStringSubmatch(line)[1], when there is a match: "+" and the capital letters
      after it. */
  function Question(line: string): (r: Option<string>)
    ensures r.Some? ==> |r.value| >= 2 && r.value[0] == '+'
  {
    match FirstQuestion(line)
    case Some(i) => Some("+" + UpperRun(line[i + 3..]))
    case None => None
  }

  lemma QuestionAtShift(line: string, j: int)
    requires line != [] && 0 <= j
    ensures QuestionAt(line, j + 1) <==> QuestionAt(line[1..], j)
  {
    if 0 <= j && j + 5 <= |line| {
      assert line[1..][j] == line[j + 1] && line[1..][j + 1] == line[j + 2];
      assert line[1..][j + 2] == line[j + 3] && line[1..][j + 3] == line[j + 4];
    }
  }

  /** FirstQuestion finds the leftmost match, and finds nothing only when there is no
      match anywhere. */
  lemma {:induction false} FirstQuestionIsLeftmost(line: string)
    ensures FirstQuestion(line).Some? ==> forall j :: 0 <= j < FirstQuestion(line).value ==> !QuestionAt(line, j)
    ensures FirstQuestion(line).None? ==> forall j :: !QuestionAt(line, j)
    decreases |line|
  {
    if line == [] {
      forall j ensures !QuestionAt(line, j) { }
    } else if !QuestionAt(line, 0) {
      var tail := line[1..];
      FirstQuestionIsLeftmost(tail);
      match FirstQuestion(tail)
      case Some(i) =>
        assert FirstQuestion(line) == Some(i + 1);
        forall j | 1 <= j < i + 1 ensures !QuestionAt(line, j) {
          assert !QuestionAt(tail, j - 1);
          QuestionAtShift(line, j - 1);
        }
      case None =>
        assert FirstQuestion(line) == None;
        forall j | 1 <= j ensures !QuestionAt(line, j) {
          assert !QuestionAt(tail, j - 1);
          QuestionAtShift(line, j - 1);
        }
    }
  }

  /** The line of a command named "+" and capital letters gives that name back, so the
      engine expects replies headed by the command just sent. */
  lemma QuestionOfFormattedCommand(name: string, args: seq<Arg>)
    requires |name| >= 1 && forall k :: 0 <= k < |name| ==> IsUpper(name[k])
    requires FormatCommand("+" + name, args).Success?
    ensures Question(FormatCommand("+" + name, args).value) == Some("+" + name)
  {
    var cmd := "+" + name;
    FormatCommandShape(cmd, args);
    var line := FormatCommand(cmd, args).value;
    var n := |line|;
    assert line[2..2 + |cmd|] == cmd;
    assert line[0] == 'A' && line[1] == 'T' by {
      assert line[..2][0] == line[0] && line[..2][1] == line[1];
    }
    assert line[2] == '+' by {
      assert line[2..2 + |cmd|][0] == line[2];
    }
    var tail := line[3..];
    forall k | 0 <= k < |name| ensures tail[k] == name[k] {
      assert line[2..2 + |cmd|][1 + k] == cmd[1 + k];
    }
    if |args| == 0 {
      assert line[n - 2..][0] == line[2 + |cmd|];
    }
    assert !IsUpper(tail[|name|]);
    UpperRunOf(tail, |name|);
    assert tail[..|name|] == name;
    assert FirstQuestion(line) == Some(0);
  }

  lemma UpperRunOf(s: string, n: nat)
    requires n < |s| && !IsUpper(s[n]) && forall k :: 0 <= k < n ==> IsUpper(s[k])
    ensures UpperRun(s) == s[..n]
    decreases n
  {
    if n > 0 {
      UpperRunOf(s[1..], n - 1);
      assert s[..n] == [s[0]] + s[1..][..n - 1];
    }
  }

  /** A line with no "+" never matches, so sending it leaves the expected reply name
      as it was. */
  lemma QuestionWithoutPlus(line: string)
    requires '+' !in line
    ensures Question(line) == None
  {
    forall j | 0 <= j && j + 4 <= |line| ensures !QuestionAt(line, j) {
      assert line[j + 2] in line;
    }
  }
}
