/** The reply engine of gsm.go: the per-line rule of lineChannel, and the listen loop
    that ignores the echo of the command just sent, groups the received lines into
    reply packets and remembers which reply name to expect. */
module Engine {
  import opened Wrappers
  import opened Text
  import opened Packets
  import opened Command

  // ---------------------------------------------------------------------------
  // lineChannel: one line read from the port, up to and including its LF

  /** The line without its trailing CR and LF characters; a line made of nothing else
      is skipped. */
  function LineOf(raw: string): Option<string> {
    var t := TrimRight(raw, LineEnds);
    if t == "" then None else Some(t)
  }

  /** A line is kept exactly when it has a character other than CR and LF; what is kept
      is a non-empty prefix that does not end in CR or LF, and only CR and LF are cut. */
  lemma LineOfShape(raw: string)
    ensures var r := LineOf(raw);
      (r.Some? <==> exists k :: 0 <= k < |raw| && raw[k] !in LineEnds)
      && (r.Some? ==> 0 < |r.value| <= |raw| && r.value == raw[..|r.value|])
      && (r.Some? ==> r.value[|r.value| - 1] !in LineEnds)
      && (r.Some? ==> forall k :: |r.value| <= k < |raw| ==> raw[k] in LineEnds)
  {
    var t := TrimRight(raw, LineEnds);
    if t == "" {
      assert forall k :: 0 <= k < |raw| ==> raw[k] in LineEnds;
    } else {
      assert t[|t| - 1] == raw[|t| - 1];
    }
  }

  /** A line the modem terminates with any mix of CR and LF is handed on as sent. */
  lemma {:induction false} LineOfTerminated(text: string, ends: string)
    requires |text| > 0 && text[|text| - 1] !in LineEnds
    requires forall k :: 0 <= k < |ends| ==> ends[k] in LineEnds
    ensures LineOf(text + ends) == Some(text)
    decreases |ends|
  {
    if ends == [] {
      assert text + ends == text;
    } else {
      var shorter := ends[..|ends| - 1];
      LineOfTerminated(text, shorter);
      assert (text + ends)[..|text + ends| - 1] == text + shorter;
    }
  }

  /** What one raw line contributes to the listen loop: the line, or nothing. */
  function Kept(raw: string): seq<string> {
    match LineOf(raw)
    case Some(line) => [line]
    case None => []
  }

  /** The lines that reach the listen loop, in the order they were read. */
  function Lines(raws: seq<string>): seq<string>
    decreases |raws|
  {
    if raws == [] then [] else Lines(raws[..|raws| - 1]) + Kept(raws[|raws| - 1])
  }

  /** lineChannel's loop: every raw line read, trimmed, and handed on unless empty. */
  method LineChannel(raws: seq<string>) returns (lines: seq<string>)
    ensures lines == Lines(raws)
  {
    lines := [];
    for i := 0 to |raws|
      invariant lines == Lines(raws[..i])
    {
      assert raws[..i + 1][..i] == raws[..i];
      var line := LineOf(raws[i]);
      if line.Some? {
        lines := lines + [line.value];
      }
    }
    assert raws[..|raws|] == raws;
  }

  lemma LinesSnoc(raws: seq<string>, raw: string)
    ensures Lines(raws + [raw]) == Lines(raws) + Kept(raw)
  {
    assert (raws + [raw])[..|raws|] == raws;
  }

  /** lineChannel treats each raw line on its own: reading two stretches one after the
      other hands on the lines of the first, then those of the second. */
  lemma {:induction false} LinesAppend(a: seq<string>, b: seq<string>)
    ensures Lines(a + b) == Lines(a) + Lines(b)
    decreases |b|
  {
    if b == [] {
      assert a + b == a;
    } else {
      var init, last := b[..|b| - 1], b[|b| - 1];
      SplitLast(a, b);
      LinesAppend(a, init);
      LinesSnoc(a + init, last);
      LinesSnoc(init, last);
      Associative(Lines(a), Lines(init), Kept(last));
    }
  }

  lemma SplitLast<T>(a: seq<T>, b: seq<T>)
    requires b != []
    ensures b == b[..|b| - 1] + [b[|b| - 1]]
    ensures a + b == (a + b[..|b| - 1]) + [b[|b| - 1]]
  {
  }

  /** Nothing that reaches the listen loop is empty or ends in CR or LF. */
  lemma {:induction false} LinesAreTrimmed(raws: seq<string>)
    ensures forall i :: 0 <= i < |Lines(raws)| ==>
      |Lines(raws)[i]| > 0 && Lines(raws)[i][|Lines(raws)[i]| - 1] !in LineEnds
    decreases |raws|
  {
    if raws != [] {
      LinesAreTrimmed(raws[..|raws| - 1]);
      LineOfShape(raws[|raws| - 1]);
    }
  }

  // ---------------------------------------------------------------------------
  // listen: the four strings it keeps between events

  /** `echo` is the last line sent without its line end, `last` the reply name that
      line asked for, and `header` and `body` the reply being collected. */
  datatype State = State(echo: string, last: string, header: string, body: string)

  const Initial: State := State("", "", "", "")

  /** How a reply is turned into a packet: from its final status (empty when another
      reply cut it short), its header line and its body. The listener uses
      ParsePacket; the laws below hold whatever the parser does. */
  type Parser = (string, string, string) -> Result<Option<Packet>, Fault>

  /** What always holds between events: no body without a header, an expected reply
      name is "+" and capital letters, and the remembered echo has no line end. */
  predicate Valid(s: State) {
    (s.header == "" ==> s.body == "")
    && (s.last == "" || (|s.last| >= 2 && s.last[0] == '+'))
    && (s.echo == "" || s.echo[|s.echo| - 1] !in LineEnds)
  }

  /** A received line that neither repeats the echo, nor starts a reply of the expected
      name, nor ends the reply. */
  predicate Plain(s: State, line: string) {
    line != s.echo && !(s.last != "" && StartsWith(line, s.last)) && !IsFinalStatus(line)
  }

  /** One received line: the new state and the packets delivered to the caller waiting
      on rx (none or one). A Failure is a panic of parsePacket, after which the loop
      goes no further. */
  function Receive(parse: Parser, s: State, line: string): Result<(State, seq<Option<Packet>>), Fault> {
    if line == s.echo then Success((s, []))
    else if s.last != "" && StartsWith(line, s.last) then
      if s.header != "" then
        match parse("", s.header, s.body)
        case Failure(f) => Failure(f)
        case Success(p) => Success((s.(header := line, body := ""), [p]))
      else
        Success((s.(header := line, body := ""), []))
    else if IsFinalStatus(line) then
      match parse(line, s.header, s.body)
      case Failure(f) => Failure(f)
      case Success(p) => Success((s.(header := "", body := ""), [p]))
    else if s.header != "" then
      Success((s.(body := s.body + line), []))
    else if line == "> " then
      Success((s, []))
    else
      match parse("OK", line, "")
      case Failure(f) => Failure(f)
      case Success(_) => Success((s, []))
  }

  /** One sent line: the echo to ignore, and the reply name when the line names a
      command. */
  function Transmit(s: State, line: string): State {
    var q := Question(line);
    s.(last := if q.Some? then q.value else s.last, echo := TrimRight(line, LineEnds))
  }

  /** The received lines in order, stopping at the first panic. */
  function Run(parse: Parser, s: State, lines: seq<string>): Result<(State, seq<Option<Packet>>), Fault>
    decreases |lines|
  {
    if lines == [] then Success((s, []))
    else
      match Receive(parse, s, lines[0])
      case Failure(f) => Failure(f)
      case Success(first) =>
        match Run(parse, first.0, lines[1..])
        case Failure(f) => Failure(f)
        case Success(rest) => Success((rest.0, first.1 + rest.1))
  }

  // ---------------------------------------------------------------------------
  // What one event does

  /** The echo of the command just sent changes nothing and delivers nothing. */
  lemma ReceiveEcho(parse: Parser, s: State, line: string)
    requires line == s.echo
    ensures Receive(parse, s, line) == Success((s, []))
  {
  }

  /** A line starting with the expected reply name opens a new reply. The reply being
      collected, if there is one, is delivered first, parsed without a final status. */
  lemma ReceiveContinuation(parse: Parser, s: State, line: string)
    requires line != s.echo && s.last != "" && StartsWith(line, s.last)
    ensures s.header == "" ==> Receive(parse, s, line) == Success((s.(header := line, body := ""), []))
    ensures s.header != "" ==>
      (Receive(parse, s, line).Success? <==> parse("", s.header, s.body).Success?)
    ensures s.header != "" && Receive(parse, s, line).Success? ==>
      Receive(parse, s, line).value == (s.(header := line, body := ""), [parse("", s.header, s.body).value])
  {
  }

  /** A final status delivers exactly one packet, the reply collected so far with that
      status, and leaves nothing pending. */
  lemma ReceiveFinalStatus(parse: Parser, s: State, line: string)
    requires line != s.echo && !(s.last != "" && StartsWith(line, s.last)) && IsFinalStatus(line)
    ensures Receive(parse, s, line).Success? <==> parse(line, s.header, s.body).Success?
    ensures Receive(parse, s, line).Success? ==>
      Receive(parse, s, line).value == (s.(header := "", body := ""), [parse(line, s.header, s.body).value])
  {
  }

  /** Inside a reply, any other line is appended to the body as it is. */
  lemma ReceiveBodyLine(parse: Parser, s: State, line: string)
    requires Plain(s, line) && s.header != ""
    ensures Receive(parse, s, line) == Success((s.(body := s.body + line), []))
  {
  }

  /** Outside a reply, any other line is out of band: it delivers nothing and the
      state stays as it was, unless parsing it panics. */
  lemma ReceiveOutOfBand(parse: Parser, s: State, line: string)
    requires Plain(s, line) && s.header == ""
    ensures Receive(parse, s, line).Success? ==> Receive(parse, s, line).value == (s, [])
    ensures line == "> " ==> Receive(parse, s, line).Success?
    ensures line != "> " ==> (Receive(parse, s, line).Failure? <==> parse("OK", line, "").Failure?)
  {
  }

  /** A received line never changes the echo or the expected reply name, and delivers
      at most one packet. */
  lemma ReceiveFrame(parse: Parser, s: State, line: string)
    ensures Receive(parse, s, line).Success? ==>
      var (t, out) := Receive(parse, s, line).value;
      t.echo == s.echo && t.last == s.last && |out| <= 1
  {
  }

  lemma ReceiveKeepsValid(parse: Parser, s: State, line: string)
    requires Valid(s)
    ensures Receive(parse, s, line).Success? ==> Valid(Receive(parse, s, line).value.0)
  {
    if line != s.echo && s.last != "" && StartsWith(line, s.last) {
      assert |line| >= |s.last| > 0;
    }
  }

  /** Sending a command of the package's own form makes its name the expected reply
      name, and makes the line without its line end the echo to ignore. */
  lemma TransmitCommand(s: State, name: string, args: seq<Args.Arg>)
    requires |name| >= 1 && forall k :: 0 <= k < |name| ==> IsUpper(name[k])
    requires FormatCommand("+" + name, args).Success?
    ensures var line := FormatCommand("+" + name, args).value;
      Transmit(s, line) == s.(last := "+" + name, echo := TrimRight(line, LineEnds))
  {
    QuestionOfFormattedCommand(name, args);
  }

  /** A sent line that names no command leaves the expected reply name as it was. */
  lemma TransmitPlain(s: State, line: string)
    requires '+' !in line
    ensures Transmit(s, line) == s.(echo := TrimRight(line, LineEnds))
  {
    QuestionWithoutPlus(line);
  }

  lemma TransmitKeepsValid(s: State, line: string)
    requires Valid(s)
    ensures Valid(Transmit(s, line))
  {
  }

  /** The modem's echo of a sent line, read back through lineChannel, is ignored. */
  lemma EchoIgnored(parse: Parser, s: State, sent: string)
    requires LineOf(sent).Some?
    ensures Receive(parse, Transmit(s, sent), LineOf(sent).value) == Success((Transmit(s, sent), []))
  {
  }

  // ---------------------------------------------------------------------------
  // What a run of lines does

  /** Running two stretches of lines one after the other. */
  lemma {:induction false} RunAppend(parse: Parser, s: State, a: seq<string>, b: seq<string>)
    ensures Run(parse, s, a + b) ==
      match Run(parse, s, a)
      case Failure(f) => Failure(f)
      case Success(mid) =>
        match Run(parse, mid.0, b)
        case Failure(f) => Failure(f)
        case Success(fin) => Success((fin.0, mid.1 + fin.1))
    decreases |a|
  {
    if a == [] {
      assert a + b == b;
      match Run(parse, s, b)
      case Failure(f) =>
      case Success(fin) => assert [] + fin.1 == fin.1;
    } else {
      assert (a + b)[0] == a[0] && (a + b)[1..] == a[1..] + b;
      match Receive(parse, s, a[0])
      case Failure(f) =>
      case Success(first) =>
        RunAppend(parse, first.0, a[1..], b);
        match Run(parse, first.0, a[1..])
        case Failure(f) =>
        case Success(mid) =>
          match Run(parse, mid.0, b)
          case Failure(f) =>
          case Success(fin) =>
            assert first.1 + (mid.1 + fin.1) == (first.1 + mid.1) + fin.1;
    }
  }

  lemma RunOne(parse: Parser, s: State, line: string)
    ensures Run(parse, s, [line]) == Receive(parse, s, line)
  {
    match Receive(parse, s, line)
    case Failure(f) =>
    case Success(next) =>
      assert [line][1..] == [];
      assert next.1 + [] == next.1;
  }

  /** One more line after a stretch that ran without a panic. */
  lemma RunSnoc(parse: Parser, s: State, a: seq<string>, line: string, mid: State, out: seq<Option<Packet>>)
    requires Run(parse, s, a) == Success((mid, out))
    ensures Run(parse, s, a + [line]) ==
      match Receive(parse, mid, line)
      case Failure(f) => Failure(f)
      case Success(next) => Success((next.0, out + next.1))
  {
    RunAppend(parse, s, a, [line]);
    RunOne(parse, mid, line);
  }

  /** After a panic, no further line is looked at. */
  lemma RunAfterPanic(parse: Parser, s: State, a: seq<string>, b: seq<string>)
    requires Run(parse, s, a).Failure?
    ensures Run(parse, s, a + b) == Run(parse, s, a)
  {
    RunAppend(parse, s, a, b);
  }

  /** The listen loop after the lines before `i`: the next line either ends the run
      with a panic, or extends it. */
  lemma ReadOneMore(parse: Parser, s: State, lines: seq<string>, i: nat, mid: State,
                    out: seq<Option<Packet>>)
    requires i < |lines| && Run(parse, s, lines[..i]) == Success((mid, out))
    ensures var step := Receive(parse, mid, lines[i]);
      if step.Success? then Run(parse, s, lines[..i + 1]) == Success((step.value.0, out + step.value.1))
      else Run(parse, s, lines) == Failure(step.error)
  {
    assert lines[..i + 1] == lines[..i] + [lines[i]];
    RunSnoc(parse, s, lines[..i], lines[i], mid, out);
    if Receive(parse, mid, lines[i]).Failure? {
      assert lines[..i + 1] + lines[i + 1..] == lines;
      RunAfterPanic(parse, s, lines[..i + 1], lines[i + 1..]);
    }
  }

  /** The concatenation of the body lines of a reply, in order and without separator. */
  function Flatten(lines: seq<string>): string
    decreases |lines|
  {
    if lines == [] then "" else lines[0] + Flatten(lines[1..])
  }

  /** Inside a reply, a stretch of plain lines is collected into the body and delivers
      nothing. */
  lemma {:induction false} BodyLines(parse: Parser, s: State, lines: seq<string>)
    requires s.header != ""
    requires forall i :: 0 <= i < |lines| ==> Plain(s, lines[i])
    ensures Run(parse, s, lines) == Success((s.(body := s.body + Flatten(lines)), []))
    decreases |lines|
  {
    if lines == [] {
      assert Flatten(lines) == "";
      assert s.body + Flatten(lines) == s.body;
      assert s.(body := s.body + Flatten(lines)) == s;
    } else {
      var t := s.(body := s.body + lines[0]);
      PlainTail(s, t, lines);
      BodyLines(parse, t, lines[1..]);
      FlattenCons(s.body, lines);
      BodyLineThen(parse, s, lines, t.(body := t.body + Flatten(lines[1..])));
    }
  }

  /** The lines after the first stay plain for a state with the same echo and name. */
  lemma PlainTail(s: State, t: State, lines: seq<string>)
    requires lines != [] && t.echo == s.echo && t.last == s.last
    requires forall i :: 0 <= i < |lines| ==> Plain(s, lines[i])
    ensures forall i :: 0 <= i < |lines[1..]| ==> Plain(t, lines[1..][i])
  {
    forall i | 0 <= i < |lines[1..]| ensures Plain(t, lines[1..][i]) {
      assert lines[1..][i] == lines[i + 1];
    }
  }

  /** Appending the first line, then the rest, appends the whole body. */
  lemma FlattenCons(body: string, lines: seq<string>)
    requires lines != []
    ensures (body + lines[0]) + Flatten(lines[1..]) == body + Flatten(lines)
  {
    var more := Flatten(lines[1..]);
    assert Flatten(lines) == lines[0] + more;
    Associative(body, lines[0], more);
  }

  /** A plain line inside a reply, followed by lines that deliver nothing. */
  lemma BodyLineThen(parse: Parser, s: State, lines: seq<string>, u: State)
    requires lines != [] && Plain(s, lines[0]) && s.header != ""
    requires Run(parse, s.(body := s.body + lines[0]), lines[1..]) == Success((u, []))
    ensures Run(parse, s, lines) == Success((u, []))
  {
    ReceiveBodyLine(parse, s, lines[0]);
    var empty: seq<Option<Packet>> := [];
    assert empty + empty == empty;
  }

  /** A whole single reply: a header line of the expected name, plain body lines and a
      final status deliver exactly one packet, the header and joined body parsed with
      that status, and leave nothing pending. */
  lemma SingleReply(parse: Parser, s: State, header: string, lines: seq<string>, status: string)
    requires header != s.echo && s.last != "" && StartsWith(header, s.last) && s.header == ""
    requires forall i :: 0 <= i < |lines| ==> Plain(s, lines[i])
    requires status != s.echo && !(s.last != "" && StartsWith(status, s.last)) && IsFinalStatus(status)
    ensures var reply := parse(status, header, Flatten(lines));
      Run(parse, s, [header] + lines + [status])
        == if reply.Success? then Success((s.(header := "", body := ""), [reply.value])) else Failure(reply.error)
  {
    var started := s.(header := header, body := "");
    RunOne(parse, s, header);
    assert Run(parse, s, [header]) == Success((started, []));
    assert forall i :: 0 <= i < |lines| ==> Plain(started, lines[i]);
    BodyLines(parse, started, lines);
    var full := s.(header := header, body := Flatten(lines));
    assert started.(body := started.body + Flatten(lines)) == full;
    RunAppend(parse, s, [header], lines);
    assert Run(parse, s, [header] + lines) == Success((full, []));
    RunSnoc(parse, s, [header] + lines, status, full, []);
    ReceiveFinalStatus(parse, full, status);
    assert full.(header := "", body := "") == s.(header := "", body := "");
    var reply := parse(status, header, Flatten(lines));
    if reply.Success? {
      assert [] + [reply.value] == [reply.value];
    }
  }

  /** One reply of a multi-reply answer such as a +CMGL listing: its header line and
      the body lines after it. */
  datatype Block = Block(header: string, lines: seq<string>)

  function BlockLines(blocks: seq<Block>): seq<string>
    decreases |blocks|
  {
    if blocks == [] then [] else [blocks[0].header] + blocks[0].lines + BlockLines(blocks[1..])
  }

  /** Each header line opens a reply of the expected name, and no body line is taken
      for the echo, a new header or a final status. */
  predicate Answer(s: State, blocks: seq<Block>, status: string) {
    s.last != ""
    && (forall i :: 0 <= i < |blocks| ==>
          blocks[i].header != s.echo && StartsWith(blocks[i].header, s.last))
    && (forall i, j :: 0 <= i < |blocks| && 0 <= j < |blocks[i].lines| ==> Plain(s, blocks[i].lines[j]))
    && status != s.echo && !StartsWith(status, s.last) && IsFinalStatus(status)
  }

  /** The packets of an answer, in order: the pending reply and every block but the
      last parsed without a status, the last one parsed with the final status; the
      first panic ends the answer. */
  function Answered(parse: Parser, header: string, body: string, blocks: seq<Block>, status: string)
    : Result<seq<Option<Packet>>, Fault>
    decreases |blocks|
  {
    if blocks == [] then
      var p := parse(status, header, body);
      if p.Success? then Success([p.value]) else Failure(p.error)
    else
      var p := parse("", header, body);
      if p.Failure? then Failure(p.error)
      else
        var rest := Answered(parse, blocks[0].header, Flatten(blocks[0].lines), blocks[1..], status);
        if rest.Success? then Success([p.value] + rest.value) else Failure(rest.error)
  }

  /** Packets delivered before a run, put in front of what the run delivers. */
  function Prepend(out: seq<Option<Packet>>, r: Result<(State, seq<Option<Packet>>), Fault>)
    : Result<(State, seq<Option<Packet>>), Fault>
  {
    if r.Success? then Success((r.value.0, out + r.value.1)) else r
  }

  /** What is left of an answer after its first block, from a state that keeps the
      same echo and expected name. */
  lemma AnswerTail(s: State, blocks: seq<Block>, status: string, t: State)
    requires |blocks| > 0 && Answer(s, blocks, status) && t.echo == s.echo && t.last == s.last
    ensures Answer(t, blocks[1..], status)
  {
    var rest := blocks[1..];
    forall i | 0 <= i < |rest| ensures rest[i].header != t.echo && StartsWith(rest[i].header, t.last) {
      assert rest[i] == blocks[i + 1];
    }
    forall i, j | 0 <= i < |rest| && 0 <= j < |rest[i].lines| ensures Plain(t, rest[i].lines[j]) {
      assert rest[i] == blocks[i + 1];
      assert Plain(s, blocks[i + 1].lines[j]);
    }
  }

  /** The first block of an answer opens a reply, and its body lines are plain. */
  lemma FirstBlock(s: State, blocks: seq<Block>, status: string)
    requires |blocks| > 0 && Answer(s, blocks, status)
    ensures var b := blocks[0];
      b.header != "" && b.header != s.echo && StartsWith(b.header, s.last)
      && forall j :: 0 <= j < |b.lines| ==> Plain(s, b.lines[j])
  {
    assert |blocks[0].header| >= |s.last| > 0;
  }

  /** Where the lines of the first block sit in an answer. */
  lemma BlockLinesCons(blocks: seq<Block>, status: string)
    requires |blocks| > 0
    ensures var b := blocks[0];
      BlockLines(blocks) + [status] == [b.header] + (b.lines + (BlockLines(blocks[1..]) + [status]))
  {
    var b, more := blocks[0], BlockLines(blocks[1..]);
    assert BlockLines(blocks) == [b.header] + b.lines + more;
    Associative([b.header] + b.lines, more, [status]);
    Associative([b.header], b.lines, more + [status]);
  }

  /** One block of an answer: its header line delivers the pending reply, if there is
      one, and its body lines are collected under it. */
  lemma OneBlock(parse: Parser, s: State, b: Block, tail: seq<string>)
    requires s.last != "" && b.header != s.echo && StartsWith(b.header, s.last)
    requires forall j :: 0 <= j < |b.lines| ==> Plain(s, b.lines[j])
    ensures var full := s.(header := b.header, body := Flatten(b.lines));
      var p := parse("", s.header, s.body);
      Run(parse, s, [b.header] + (b.lines + tail))
        == if s.header == "" then Run(parse, full, tail)
           else if p.Success? then Prepend([p.value], Run(parse, full, tail))
           else Failure(p.error)
  {
    var started := s.(header := b.header, body := "");
    RunOne(parse, s, b.header);
    ReceiveContinuation(parse, s, b.header);
    RunAppend(parse, s, [b.header], b.lines + tail);
    var p := parse("", s.header, s.body);
    if s.header == "" || p.Success? {
      assert forall j :: 0 <= j < |b.lines| ==> Plain(started, b.lines[j]);
      BodyLines(parse, started, b.lines);
      var full := s.(header := b.header, body := Flatten(b.lines));
      assert started.(body := started.body + Flatten(b.lines)) == full;
      RunAppend(parse, started, b.lines, tail);
      match Run(parse, full, tail)
      case Failure(f) =>
      case Success(fin) => assert [] + fin.1 == fin.1;
    }
  }

  /** With a reply pending, the rest of an answer delivers the pending reply and each
      block as a packet of its own, and leaves nothing pending. */
  lemma {:induction false} PendingAnswer(parse: Parser, s: State, blocks: seq<Block>, status: string)
    requires s.header != "" && Answer(s, blocks, status)
    ensures var out := Answered(parse, s.header, s.body, blocks, status);
      Run(parse, s, BlockLines(blocks) + [status])
        == if out.Success? then Success((s.(header := "", body := ""), out.value)) else Failure(out.error)
    decreases |blocks|
  {
    if blocks == [] {
      assert BlockLines(blocks) + [status] == [status];
      RunOne(parse, s, status);
      ReceiveFinalStatus(parse, s, status);
    } else {
      var b, rest := blocks[0], blocks[1..];
      var full := s.(header := b.header, body := Flatten(b.lines));
      FirstBlock(s, blocks, status);
      BlockLinesCons(blocks, status);
    BlockLinesCons(blocks, status);
      OneBlock(parse, s, b, BlockLines(rest) + [status]);
      AnswerTail(s, blocks, status, full);
      PendingAnswer(parse, full, rest, status);
      assert full.(header := "", body := "") == s.(header := "", body := "");
    }
  }

  /** A whole multi-reply answer after the command that asked for it: one packet per
      reply, in order, the last one carrying the final status. */
  lemma MultiReply(parse: Parser, s: State, blocks: seq<Block>, status: string)
    requires s.header == "" && |blocks| > 0 && Answer(s, blocks, status)
    ensures var out := Answered(parse, blocks[0].header, Flatten(blocks[0].lines), blocks[1..], status);
      Run(parse, s, BlockLines(blocks) + [status])
        == if out.Success? then Success((s.(header := "", body := ""), out.value)) else Failure(out.error)
  {
    var b, rest := blocks[0], blocks[1..];
    var full := s.(header := b.header, body := Flatten(b.lines));
    FirstBlock(s, blocks, status);
    BlockLinesCons(blocks, status);
    OneBlock(parse, s, b, BlockLines(rest) + [status]);
    AnswerTail(s, blocks, status, full);
    PendingAnswer(parse, full, rest, status);
    assert full.(header := "", body := "") == s.(header := "", body := "");
  }

  // ---------------------------------------------------------------------------
  // The listen loop as an object

  /** The listen goroutine's state. `rx` is what it has delivered to callers and
      `written` what it has written to the port; `parse` is the packet parser, always
      ParsePacket. */
  class Listener {
    const parse: Parser
    var echo: string
    var last: string
    var header: string
    var body: string
    ghost var rx: seq<Option<Packet>>
    ghost var written: seq<string>

    function Snapshot(): State
      reads this
    {
      State(echo, last, header, body)
    }

    constructor ()
      ensures parse == ParsePacket
      ensures Snapshot() == Initial && rx == [] && written == []
      ensures Valid(Snapshot())
    {
      parse := ParsePacket;
      echo, last, header, body := "", "", "", "";
      rx, written := [], [];
    }

    /** One line from lineChannel. A parse panic is returned as the fault, with nothing
        changed. */
    method OnLine(line: string) returns (fault: Option<Fault>)
      requires Valid(Snapshot())
      modifies this
      ensures Valid(Snapshot())
      ensures written == old(written)
      ensures var step := Receive(parse, old(Snapshot()), line);
        if step.Success? then fault == None && Snapshot() == step.value.0 && rx == old(rx) + step.value.1
        else fault == Some(step.error) && Snapshot() == old(Snapshot()) && rx == old(rx)
    {
      ReceiveKeepsValid(parse, Snapshot(), line);
      fault := None;
      if line == echo {
        // the echo of the command just sent
      } else if last != "" && StartsWith(line, last) {
        if header != "" {
          var p := parse("", header, body);
          if p.Failure? {
            return Some(p.error);
          }
          rx := rx + [p.value];
        }
        header := line;
        body := "";
      } else if IsFinalStatus(line) {
        var p := parse(line, header, body);
        if p.Failure? {
          return Some(p.error);
        }
        rx := rx + [p.value];
        header := "";
        body := "";
      } else if header != "" {
        body := body + line;
      } else if line == "> " {
        // the prompt for a message body
      } else {
        var p := parse("OK", line, "");
        if p.Failure? {
          return Some(p.error);
        }
      }
    }

    /** One line sent by a caller: remember the reply name and the echo, then write the
        line to the port unchanged. */
    method OnTx(line: string)
      requires Valid(Snapshot())
      modifies this
      ensures Valid(Snapshot())
      ensures Snapshot() == Transmit(old(Snapshot()), line)
      ensures rx == old(rx) && written == old(written) + [line]
    {
      TransmitKeepsValid(Snapshot(), line);
      var q := Question(line);
      if q.Some? {
        last := q.value;
      }
      echo := TrimRight(line, LineEnds);
      written := written + [line];
    }

    /** The loop over the lines lineChannel hands on, until a parse panic ends it. */
    method Listen(lines: seq<string>) returns (fault: Option<Fault>, ghost delivered: seq<Option<Packet>>)
      requires Valid(Snapshot())
      modifies this
      ensures Valid(Snapshot())
      ensures written == old(written) && rx == old(rx) + delivered
      ensures fault.None? ==> Run(parse, old(Snapshot()), lines) == Success((Snapshot(), delivered))
      ensures fault.Some? ==> Run(parse, old(Snapshot()), lines) == Failure(fault.value)
    {
      ghost var start := Snapshot();
      delivered := [];
      fault := None;
      var i := 0;
      while i < |lines| && fault.None?
        invariant 0 <= i <= |lines|
        invariant Valid(Snapshot())
        invariant written == old(written) && rx == old(rx) + delivered
        invariant fault.None? ==> Run(parse, start, lines[..i]) == Success((Snapshot(), delivered))
        invariant fault.Some? ==> Run(parse, start, lines) == Failure(fault.value)
      {
        ghost var step := Receive(parse, Snapshot(), lines[i]);
        ReadOneMore(parse, start, lines, i, Snapshot(), delivered);
        fault := OnLine(lines[i]);
        if fault.None? {
          delivered := delivered + step.value.1;
        }
        i := i + 1;
      }
      if fault.None? {
        assert lines[..i] == lines;
      }
    }
  }
}
