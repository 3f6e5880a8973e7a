/** The Modem's request methods (gsm.go): the lines each one writes to the port, and
    how each one reads the reply packets that the listen loop hands it on rx. The
    replies are a parameter: `replies[0]` is the first packet received after the
    request was written. */
module Modem {
  import opened Wrappers
  import opened Text
  import opened Args
  import opened Packets
  import opened Command
  import opened Ucs2

  /** How a request fails. BadArgument is the panic of quote on an argument of another
      type, before anything is written; AwaitingReply is a request still blocked on rx
      because it reads more replies than have arrived. */
  datatype RequestError =
    | BadArgument(err: FormatError)
    | ResponseWasError
    | MessageNotFound
    | UnexpectedError
    | UnexpectedResponseType
    | AwaitingReply

  /** The package-wide choice of how message text is sent. */
  datatype EncodeMode = GSM | UCS2

  /** The control character (Ctrl-Z) that ends a message body. */
  const CtrlZ: char := '\U{1A}'

  // ---------------------------------------------------------------------------
  // send and sendBody

  /** What send writes: the formatted command line. */
  function SendLines(cmd: string, args: seq<Arg>): Result<seq<string>, RequestError> {
    match FormatCommand(cmd, args)
    case Failure(e) => Failure(BadArgument(e))
    case Success(line) => Success([line])
  }

  /** What sendBody writes: the formatted command line, then the body ended by Ctrl-Z. */
  function SendBodyLines(cmd: string, body: string, args: seq<Arg>): Result<seq<string>, RequestError> {
    match FormatCommand(cmd, args)
    case Failure(e) => Failure(BadArgument(e))
    case Success(line) => Success([line, body + [CtrlZ]])
  }

  /** The check send and sendBody make of the reply: ERROR is an error, anything else
      is handed to the caller as it is. */
  function Response(reply: Option<Packet>): (r: Result<Option<Packet>, RequestError>)
    ensures r.Failure? <==> reply == Some(ERROR)
    ensures r.Failure? ==> r.error == ResponseWasError
    ensures r.Success? ==> r.value == reply
  {
    if reply == Some(ERROR) then Failure(ResponseWasError) else Success(reply)
  }

  /** A request whose only argument is an integer always formats, as the command, "="
      and the number in decimal. */
  lemma IntegerRequest(cmd: string, n: int)
    ensures SendLines(cmd, [Int(n)]) == Success(["AT" + cmd + "=" + DecimalText(n) + "\r\n"])
  {
    var d := DecimalText(n);
    assert QuoteEach([Int(n)]) == Success([d]) by {
      assert [Int(n)][..0] == [];
      assert [] + [d] == [d];
    }
    assert QuoteAll([Int(n)]) == Success(d);
  }

  /** A request whose only argument is a string formats with the string in double
      quotes, unless it is the query marker "?". */
  lemma StringRequest(cmd: string, s: string)
    ensures var q := if s == "?" then s else "\"" + s + "\"";
      SendLines(cmd, [Str(s)]) == Success(["AT" + cmd + "=" + q + "\r\n"])
  {
    var q := if s == "?" then s else "\"" + s + "\"";
    assert QuoteEach([Str(s)]) == Success([q]) by {
      assert [Str(s)][..0] == [];
      assert [] + [q] == [q];
    }
    assert QuoteAll([Str(s)]) == Success(q);
  }

  // ---------------------------------------------------------------------------
  // GetMessage, SupportedStorageAreas, DeleteMessage

  /** GetMessage: the reply to +CMGR must be a message. */
  function GetMessage(reply: Option<Packet>): (r: Result<Message, RequestError>)
    ensures r.Success? <==> reply.Some? && reply.value.Msg?
    ensures r.Success? ==> reply == Some(Msg(r.value))
    ensures r.Failure? ==> r.error == if reply == Some(ERROR) then ResponseWasError else MessageNotFound
  {
    match Response(reply)
    case Failure(e) => Failure(e)
    case Success(p) =>
      if p.Some? && p.value.Msg? then Success(p.value.m) else Failure(MessageNotFound)
  }

  /** SupportedStorageAreas: the reply to the +CPMS query must list the storage areas. */
  function SupportedStorageAreas(reply: Option<Packet>): (r: Result<Packet, RequestError>)
    ensures r.Success? <==> reply.Some? && reply.value.StorageAreas?
    ensures r.Success? ==> reply == Some(r.value)
    ensures r.Failure? ==> r.error == if reply == Some(ERROR) then ResponseWasError else UnexpectedResponseType
  {
    match Response(reply)
    case Failure(e) => Failure(e)
    case Success(p) =>
      if p.Some? && p.value.StorageAreas? then Success(p.value) else Failure(UnexpectedResponseType)
  }

  /** DeleteMessage and SendMessage: only an ERROR reply is a failure. */
  function Acknowledged(reply: Option<Packet>): (r: Result<(), RequestError>)
    ensures r.Failure? <==> reply == Some(ERROR)
  {
    match Response(reply)
    case Failure(e) => Failure(e)
    case Success(_) => Success(())
  }

  // ---------------------------------------------------------------------------
  // SendMessage

  /** What SendMessage writes. In UCS2 mode both the number and the text are sent as
      UTF-16 hex; in GSM mode both go as they are. */
  function SendMessageLines(mode: EncodeMode, telephone: string, body: string): Result<seq<string>, RequestError> {
    if mode == UCS2 then SendBodyLines("+CMGS", UnicodeEncode(body), [Str(UnicodeEncode(telephone))])
    else SendBodyLines("+CMGS", body, [Str(telephone)])
  }

  lemma SendBodyOneString(cmd: string, s: string, body: string)
    ensures var q := if s == "?" then s else "\"" + s + "\"";
      SendBodyLines(cmd, body, [Str(s)]) == Success(["AT" + cmd + "=" + q + "\r\n", body + [CtrlZ]])
  {
    StringRequest(cmd, s);
  }

  /** The +CMGS command line with a quoted argument. */
  lemma CmgsLine(h: string)
    ensures "AT" + "+CMGS" + "=" + ("\"" + h + "\"") + "\r\n" == "AT+CMGS=\"" + h + "\"\r\n"
  {
  }

  /** In UCS2 mode the number goes quoted (its hex is never the query marker) and the
      body is ended by Ctrl-Z; decoding the hex gives back the number and the text. */
  lemma SendMessageUcs2(telephone: string, body: string)
    ensures var hexNumber, hexBody := UnicodeEncode(telephone), UnicodeEncode(body);
      SendMessageLines(UCS2, telephone, body)
        == Success(["AT+CMGS=\"" + hexNumber + "\"\r\n", hexBody + [CtrlZ]])
      && UnicodeDecode(hexNumber) == Some(telephone)
      && UnicodeDecode(hexBody) == Some(body)
  {
    var hexNumber := UnicodeEncode(telephone);
    var hexBody := UnicodeEncode(body);
    assert hexNumber != "?" by {
      UnicodeEncodeShape(telephone);
    }
    SendBodyOneString("+CMGS", hexNumber, hexBody);
    CmgsLine(hexNumber);
    UnicodeRoundTrip(body);
    UnicodeRoundTrip(telephone);
  }

  /** In GSM mode the text is written unchanged (it is not converted to the GSM 03.38
      alphabet), followed by Ctrl-Z. */
  lemma SendMessageGsm(telephone: string, body: string)
    ensures var q := if telephone == "?" then telephone else "\"" + telephone + "\"";
      SendMessageLines(GSM, telephone, body) == Success(["AT+CMGS=" + q + "\r\n", body + [CtrlZ]])
  {
    SendBodyOneString("+CMGS", telephone, body);
    assert "AT" + "+CMGS" + "=" == "AT+CMGS=";
  }

  // ---------------------------------------------------------------------------
  // ListMessages

  /** The messages of a listing, read until the one marked last; any other packet is
      an error, and running out of replies leaves the request waiting. */
  function Collected(replies: seq<Option<Packet>>): Result<seq<Message>, RequestError>
    decreases |replies|
  {
    if replies == [] then Failure(AwaitingReply)
    else
      var p := replies[0];
      if p.Some? && p.value.Msg? then
        if p.value.m.last then Success([p.value.m])
        else
          var rest := Collected(replies[1..]);
          if rest.Success? then Success([p.value.m] + rest.value) else rest
      else Failure(UnexpectedError)
  }

  /** ListMessages as a function of the replies: a bare OK is the empty listing, and
      otherwise the messages are collected from the first reply on. */
  function Listed(replies: seq<Option<Packet>>): Result<seq<Message>, RequestError> {
    if replies == [] then Failure(AwaitingReply)
    else if replies[0] == Some(ERROR) then Failure(ResponseWasError)
    else if replies[0] == Some(OK) then Success([])
    else Collected(replies)
  }

  /** ListMessages as the source writes it: append each message and stop after the one
      marked last. */
  method ListMessages(replies: seq<Option<Packet>>) returns (res: Result<seq<Message>, RequestError>)
    ensures res == Listed(replies)
  {
    if |replies| == 0 {
      return Failure(AwaitingReply);
    }
    var packet := replies[0];
    if packet == Some(ERROR) {
      return Failure(ResponseWasError);
    }
    if packet == Some(OK) {
      return Success([]);
    }
    var list: seq<Message> := [];
    var i := 0;
    assert replies[i..] == replies;
    assert Collected(replies).Success? ==> list + Collected(replies).value == Collected(replies).value;
    while i < |replies|
      invariant 0 <= i <= |replies|
      invariant Collected(replies) ==
        var r := Collected(replies[i..]);
        if r.Success? then Success(list + r.value) else r
    {
      packet := replies[i];
      assert replies[i..][0] == packet;
      if packet.Some? && packet.value.Msg? {
        ghost var rest := Collected(replies[i + 1..]);
        assert replies[i..][1..] == replies[i + 1..];
        assert rest.Success? ==> list + ([packet.value.m] + rest.value) == (list + [packet.value.m]) + rest.value;
        list := list + [packet.value.m];
        if packet.value.m.last {
          return Success(list);
        }
      } else {
        return Failure(UnexpectedError);
      }
      i := i + 1;
    }
    assert replies[i..] == [];
    return Failure(AwaitingReply);
  }

  /** A successful listing is the replies themselves, read as messages, up to and
      including the first one marked last. */
  lemma {:induction false} CollectedShape(replies: seq<Option<Packet>>)
    ensures var r := Collected(replies);
      r.Success? ==>
        0 < |r.value| <= |replies|
        && (forall i :: 0 <= i < |r.value| ==> replies[i] == Some(Msg(r.value[i])))
        && r.value[|r.value| - 1].last
        && (forall i :: 0 <= i < |r.value| - 1 ==> !r.value[i].last)
    decreases |replies|
  {
    if replies != [] && replies[0].Some? && replies[0].value.Msg? && !replies[0].value.m.last {
      CollectedShape(replies[1..]);
      var r := Collected(replies);
      if r.Success? {
        var rest := Collected(replies[1..]).value;
        assert r.value == [replies[0].value.m] + rest;
        forall i | 0 <= i < |r.value| ensures replies[i] == Some(Msg(r.value[i])) {
          if i > 0 {
            assert replies[1..][i - 1] == replies[i];
          }
        }
      }
    }
  }

  /** Conversely, replies that start with messages of which only the last is marked
      last are listed as exactly those messages, whatever follows. */
  lemma {:induction false} CollectedOfListing(ms: seq<Message>, later: seq<Option<Packet>>)
    requires |ms| > 0 && ms[|ms| - 1].last && forall i :: 0 <= i < |ms| - 1 ==> !ms[i].last
    ensures Collected(Messages(ms) + later) == Success(ms)
    decreases |ms|
  {
    var replies := Messages(ms) + later;
    assert replies[0] == Some(Msg(ms[0]));
    if |ms| > 1 {
      assert replies[1..] == Messages(ms[1..]) + later;
      CollectedOfListing(ms[1..], later);
      assert [ms[0]] + ms[1..] == ms;
    } else {
      assert ms == [ms[0]];
    }
  }

  /** Messages as the packets that carry them. */
  function Messages(ms: seq<Message>): (r: seq<Option<Packet>>)
    ensures |r| == |ms| && forall i :: 0 <= i < |ms| ==> r[i] == Some(Msg(ms[i]))
  {
    seq(|ms|, i requires 0 <= i < |ms| => Some(Msg(ms[i])))
  }

  /** A listing that has not reached its last message leaves the request waiting;
      a stray packet before then is an error. */
  lemma {:induction false} CollectedFailure(replies: seq<Option<Packet>>)
    ensures Collected(replies) == Failure(AwaitingReply) <==>
      forall i :: 0 <= i < |replies| ==> replies[i].Some? && replies[i].value.Msg? && !replies[i].value.m.last
    ensures Collected(replies).Failure? ==> Collected(replies).error in {AwaitingReply, UnexpectedError}
    decreases |replies|
  {
    if replies != [] {
      CollectedFailure(replies[1..]);
      assert forall i :: 1 <= i < |replies| ==> replies[1..][i - 1] == replies[i];
    }
  }

  /** A bare OK is an empty listing, and an ERROR reply fails the request. */
  lemma ListedFirstReply(replies: seq<Option<Packet>>)
    requires |replies| > 0
    ensures replies[0] == Some(OK) ==> Listed(replies) == Success([])
    ensures replies[0] == Some(ERROR) ==> Listed(replies) == Failure(ResponseWasError)
    ensures replies[0] == None ==> Listed(replies) == Failure(UnexpectedError)
  {
  }
}
