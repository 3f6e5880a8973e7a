/** Reply packets (gsm.go): recognising the line that ends a reply, and turning a
    bounded reply (its final status, its header line and its body) into a typed
    packet. */
module Packets {
  import opened Wrappers
  import opened Text
  import opened Args

  /** A device time field. Go drops the three-character zone suffix and hands the rest
      to time.Parse, ignoring its error; the model keeps the text that is parsed.
      NoTime is the zero time of a message that carries no timestamp. */
  datatype Timestamp = NoTime | Stamp(text: string)

  datatype Message = Message(
    index: int, status: string, telephone: string, timestamp: Timestamp, body: string, last: bool)

  /** The packet kinds the parser produces. */
  datatype Packet =
    | OK
    | ERROR
    | Msg(m: Message)
    | MessageNotification(storage: string, index: int)
    | ServiceStatus(status: string)
    | NetworkStatus(status: string)
    | SMSCAddress(args: seq<Arg>)
    | StorageAreas(read: seq<string>, write: seq<string>, receive: seq<string>)
    | StorageInfo(usedRead: int, totalRead: int, usedWrite: int, totalWrite: int,
                  usedReceive: int, totalReceive: int)
    | UnknownPacket(name: string, args: seq<Arg>)

  /** The places where the Go parser panics: an argument index past the end, a type
      assertion on an argument of another type, a storage group that is not there,
      and a timestamp shorter than its zone suffix. */
  datatype Fault =
    | IndexOutOfRange(index: nat)
    | NotAString(index: nat)
    | NotAnInt(index: nat)
    | MissingGroup(index: nat)
    | ShortTimestamp(text: string)

  // ---------------------------------------------------------------------------
  // isFinalStatus

  /** The lines that end a reply: OK, ERROR, or any line reporting a +CMS or +CME
      error code. */
  predicate IsFinalStatus(status: string) {
    status == "OK" || status == "ERROR" || Contains(status, "+CMS ERROR") || Contains(status, "+CME ERROR")
  }

  /** A +CMS or +CME error report ends the reply wherever it sits in the line. */
  lemma ErrorReportIsFinal(before: string, code: string, after: string)
    requires code == "+CMS ERROR" || code == "+CME ERROR"
    ensures IsFinalStatus(before + code + after)
  {
    var s := before + code + after;
    assert OccursAt(s, code, |before|) by {
      assert s[|before|..|before| + |code|] == code;
    }
  }

  /** A line other than OK and ERROR that holds no '+' never ends a reply. */
  lemma PlainLineIsNotFinal(line: string)
    requires line != "OK" && line != "ERROR" && '+' !in line
    ensures !IsFinalStatus(line)
  {
    forall j | OccursAt(line, "+CMS ERROR", j) || OccursAt(line, "+CME ERROR", j)
      ensures line[j] == '+'
    {
      assert line[j..j + 10][0] == line[j];
    }
  }

  // ---------------------------------------------------------------------------
  // Typed access to the reply arguments

  /** args[k].(string) */
  function StrArg(args: seq<Arg>, k: nat): (r: Result<string, Fault>)
    ensures r.Success? <==> k < |args| && args[k].Str?
    ensures r.Success? ==> r.value == args[k].s
  {
    if k >= |args| then Failure(IndexOutOfRange(k))
    else match args[k]
      case Str(s) => Success(s)
      case _ => Failure(NotAString(k))
  }

  /** args[k].(int) */
  function IntArg(args: seq<Arg>, k: nat): (r: Result<int, Fault>)
    ensures r.Success? <==> k < |args| && args[k].Int?
    ensures r.Success? ==> r.value == args[k].i
  {
    if k >= |args| then Failure(IndexOutOfRange(k))
    else match args[k]
      case Int(i) => Success(i)
      case _ => Failure(NotAnInt(k))
  }

  /** parseTime up to time.Parse: the field without its last three characters. */
  function ParseTime(t: string): (r: Result<Timestamp, Fault>)
    ensures r.Success? <==> |t| >= 3
    ensures r.Success? ==> r.value.Stamp? && t == r.value.text + t[|t| - 3..]
  {
    if |t| < 3 then Failure(ShortTimestamp(t)) else Success(Stamp(t[..|t| - 3]))
  }

  /** The integer arguments, in order; the others are skipped. */
  function IntsOf(args: seq<Arg>): (r: seq<int>)
    ensures |r| <= |args|
    decreases |args|
  {
    if args == [] then []
    else IntsOf(args[..|args| - 1]) + (if args[|args| - 1].Int? then [args[|args| - 1].i] else [])
  }

  /** The +CPMS branch's loop collecting the integer arguments. */
  method IntArguments(args: seq<Arg>) returns (iargs: seq<int>)
    ensures iargs == IntsOf(args)
  {
    iargs := [];
    for k := 0 to |args|
      invariant iargs == IntsOf(args[..k])
    {
      assert args[..k + 1][..k] == args[..k];
      if args[k].Int? {
        iargs := iargs + [args[k].i];
      }
    }
    assert args[..|args|] == args;
  }

  /** When every argument is an integer, all of them are kept, in order. */
  lemma {:induction false} IntsOfAllInts(args: seq<Arg>)
    requires forall k :: 0 <= k < |args| ==> args[k].Int?
    ensures |IntsOf(args)| == |args|
    ensures forall k :: 0 <= k < |args| ==> IntsOf(args)[k] == args[k].i
    decreases |args|
  {
    if args != [] {
      var init := args[..|args| - 1];
      IntsOfAllInts(init);
      assert forall k :: 0 <= k < |init| ==> init[k] == args[k];
    }
  }

  /** Arguments that are not integers do not count. */
  lemma {:induction false} IntsOfNoInts(args: seq<Arg>)
    requires forall k :: 0 <= k < |args| ==> !args[k].Int?
    ensures IntsOf(args) == []
    decreases |args|
  {
    if args != [] {
      var init := args[..|args| - 1];
      assert forall k :: 0 <= k < |init| ==> init[k] == args[k];
      IntsOfNoInts(init);
    }
  }

  // ---------------------------------------------------------------------------
  // parsePacket

  /** The header names the parser recognises. */
  const KnownNames: set<string> :=
    {"+ZUSIMR", "+ZPASR", "+ZDONR", "+CMTI", "+CSCA", "+CMGR", "+CMGL", "+CPMS", ""}

  /** parsePacket: a bare final status is OK or ERROR; a header without a colon is an
      unknown packet without arguments; otherwise the name before the first colon
      selects the packet, built from the trimmed, tokenized argument text. None is
      the nil packet of +ZUSIMR; a Failure is a panic of the Go code. */
  function ParsePacket(status: string, header: string, body: string): Result<Option<Packet>, Fault> {
    if header == "" && IsFinalStatus(status) then
      Success(Some(if status == "OK" then OK else ERROR))
    else
      var ls := SplitN(header, ":", 2);
      if |ls| != 2 then Success(Some(UnknownPacket(header, [])))
      else
        var uargs := TrimSpace(ls[1]);
        ParseNamed(status, ls[0], uargs, UnquoteAll(uargs), body)
  }

  /** The switch over the header name. */
  function ParseNamed(status: string, name: string, uargs: string, args: seq<Arg>, body: string)
    : Result<Option<Packet>, Fault>
  {
    if name == "+ZUSIMR" then Success(None)
    else if name == "+ZPASR" then
      var s :- StrArg(args, 0);
      Success(Some(ServiceStatus(s)))
    else if name == "+ZDONR" then
      var s :- StrArg(args, 0);
      Success(Some(NetworkStatus(s)))
    else if name == "+CMTI" then
      var storage :- StrArg(args, 0);
      var index :- IntArg(args, 1);
      Success(Some(MessageNotification(storage, index)))
    else if name == "+CSCA" then Success(Some(SMSCAddress(args)))
    else if name == "+CMGR" then ParseCmgr(args, body)
    else if name == "+CMGL" then ParseCmgl(status, args, body)
    else if name == "+CPMS" then ParseCpms(uargs, args)
    else if name == "" then Success(Some(if status == "OK" then OK else ERROR))
    else Success(Some(UnknownPacket(name, args)))
  }

  /** +CMGR: an empty second argument means a PDU-mode reply, of which only the body
      is kept. */
  function ParseCmgr(args: seq<Arg>, body: string): Result<Option<Packet>, Fault> {
    if |args| < 2 then Failure(IndexOutOfRange(1))
    else if args[1] == Str("") then Success(Some(Msg(Message(0, "", "", NoTime, body, false))))
    else
      var status :- StrArg(args, 0);
      var telephone :- StrArg(args, 1);
      var time :- StrArg(args, 3);
      var timestamp :- ParseTime(time);
      Success(Some(Msg(Message(0, status, telephone, timestamp, body, false))))
  }

  /** +CMGL: one entry of a listing. Some devices send the telephone number as an
      integer, which is written back in decimal; only the other form has a timestamp.
      The entry is the last one exactly when it was ended by a final status. */
  function ParseCmgl(status: string, args: seq<Arg>, body: string): Result<Option<Packet>, Fault> {
    if |args| < 3 then Failure(IndexOutOfRange(2))
    else if args[2].Int? then
      var index :- IntArg(args, 0);
      var st :- StrArg(args, 1);
      Success(Some(Msg(Message(index, st, DecimalText(args[2].i), NoTime, body, status != ""))))
    else
      var index :- IntArg(args, 0);
      var st :- StrArg(args, 1);
      var telephone :- StrArg(args, 2);
      var time :- StrArg(args, 4);
      var timestamp :- ParseTime(time);
      Success(Some(Msg(Message(index, st, telephone, timestamp, body, status != ""))))
  }

  /** +CPMS: a query reply lists three parenthesised groups of storage names; a set
      reply holds six (or, on older devices, four) integers. Any other number of
      integers leaves the reply unrecognised. */
  function ParseCpms(uargs: string, args: seq<Arg>): Result<Option<Packet>, Fault> {
    if HasPrefix(uargs, "(") then
      var s := TrimSuffix(TrimPrefix(uargs, "("), ")");
      var areas := SplitN(s, "),(", 3);
      if |areas| < 3 then Failure(MissingGroup(|areas|))
      else Success(Some(StorageAreas(ArgTexts(areas[0]), ArgTexts(areas[1]), ArgTexts(areas[2]))))
    else
      var iargs := IntsOf(args);
      if |iargs| == 6 then
        Success(Some(StorageInfo(iargs[0], iargs[1], iargs[2], iargs[3], iargs[4], iargs[5])))
      else if |iargs| == 4 then
        Success(Some(StorageInfo(iargs[0], iargs[1], iargs[2], iargs[3], 0, 0)))
      else Success(Some(UnknownPacket("+CPMS", args)))
  }

  // ---------------------------------------------------------------------------
  // What parsePacket promises

  /** A header is dispatched on the text before its first colon, with the rest,
      trimmed and tokenized, as the arguments. */
  lemma ParseHeader(status: string, name: string, rest: string, body: string)
    requires ':' !in name
    ensures ParsePacket(status, name + ":" + rest, body)
         == ParseNamed(status, name, TrimSpace(rest), UnquoteAll(TrimSpace(rest)), body)
  {
    SplitNAtFirst(name, ':', rest);
  }

  /** A bare final status, or a header with an empty name, is OK when the status is
      OK and ERROR otherwise. */
  lemma ParseStatusOnly(status: string, rest: string, body: string)
    ensures IsFinalStatus(status) ==>
      ParsePacket(status, "", body) == Success(Some(if status == "OK" then OK else ERROR))
    ensures ParsePacket(status, ":" + rest, body) == Success(Some(if status == "OK" then OK else ERROR))
  {
    assert "" + ":" + rest == ":" + rest;
    ParseHeader(status, "", rest, body);
    NamedEmpty(status, TrimSpace(rest), UnquoteAll(TrimSpace(rest)), body);
  }

  lemma NamedEmpty(status: string, uargs: string, args: seq<Arg>, body: string)
    ensures ParseNamed(status, "", uargs, args, body) == Success(Some(if status == "OK" then OK else ERROR))
  {
  }

  /** A header without a colon is an unknown packet named by the whole header, with
      no arguments. */
  lemma ParseNoColon(status: string, header: string, body: string)
    requires ':' !in header
    requires header != "" || !IsFinalStatus(status)
    ensures ParsePacket(status, header, body) == Success(Some(UnknownPacket(header, [])))
  {
    SplitNAbsent(header, ':');
  }

  lemma NamedUnknown(status: string, name: string, uargs: string, args: seq<Arg>, body: string)
    requires name !in KnownNames
    ensures ParseNamed(status, name, uargs, args, body) == Success(Some(UnknownPacket(name, args)))
  {
  }

  /** A name the parser does not know gives an unknown packet carrying the name and
      the tokenized arguments. */
  lemma ParseUnknownName(status: string, name: string, rest: string, body: string)
    requires ':' !in name && name !in KnownNames
    ensures ParsePacket(status, name + ":" + rest, body)
         == Success(Some(UnknownPacket(name, UnquoteAll(TrimSpace(rest)))))
  {
    ParseHeader(status, name, rest, body);
    NamedUnknown(status, name, TrimSpace(rest), UnquoteAll(TrimSpace(rest)), body);
  }

  lemma NamedNone(status: string, name: string, uargs: string, args: seq<Arg>, body: string)
    requires ParseNamed(status, name, uargs, args, body) == Success(None)
    ensures name == "+ZUSIMR"
  {
  }

  /** Without a colon the header always gives a packet. */
  lemma ParseWithoutColon(status: string, header: string, body: string)
    ensures ':' !in header ==> ParsePacket(status, header, body).Success? && ParsePacket(status, header, body).value.Some?
  {
    if ':' !in header {
      SplitNAbsent(header, ':');
    }
  }

  /** Only +ZUSIMR is dropped without a packet. */
  lemma ParseNoneOnlyZusimr(status: string, header: string, body: string)
    requires ParsePacket(status, header, body) == Success(None)
    ensures exists rest :: header == "+ZUSIMR:" + rest
  {
    assert ':' in header by {
      ParseWithoutColon(status, header, body);
    }
    var name, rest := CutAtFirst(header, ':');
    ParseHeader(status, name, rest, body);
    NamedNone(status, name, TrimSpace(rest), UnquoteAll(TrimSpace(rest)), body);
    assert header == name + ":" + rest;
    assert name + ":" == "+ZUSIMR:";
    assert header == "+ZUSIMR:" + rest;
  }

  /** A listing entry is the last one exactly when a final status ended it, and it
      always carries the body. */
  lemma CmglLast(status: string, args: seq<Arg>, body: string, m: Message)
    requires ParseCmgl(status, args, body) == Success(Some(Msg(m)))
    ensures m.last <==> status != ""
    ensures m.body == body
  {
  }

  /** A listing entry whose telephone number came as an integer gets the number's
      decimal text as its telephone and no timestamp. */
  lemma CmglIntegerTelephone(status: string, args: seq<Arg>, body: string)
    requires |args| >= 3 && args[0].Int? && args[1].Str? && args[2].Int?
    ensures ParseCmgl(status, args, body)
         == Success(Some(Msg(Message(args[0].i, args[1].s, DecimalText(args[2].i), NoTime, body, status != ""))))
  {
  }

  /** A listing entry with a quoted telephone number takes its timestamp from the
      fifth argument, and fails when that argument is missing. */
  lemma CmglStringTelephone(status: string, args: seq<Arg>, body: string)
    requires |args| >= 3 && args[0].Int? && args[1].Str? && args[2].Str?
    ensures |args| >= 5 && args[4].Str? && |args[4].s| >= 3 ==>
      (ParseCmgl(status, args, body)
        == Success(Some(Msg(Message(args[0].i, args[1].s, args[2].s,
                                    Stamp(args[4].s[..|args[4].s| - 3]), body, status != "")))))
    ensures |args| < 5 ==> ParseCmgl(status, args, body) == Failure(IndexOutOfRange(4))
  {
  }

  /** A +CPMS set reply: six integers in order, four padded with two zeros, any other
      count unrecognised. */
  lemma CpmsSetReply(uargs: string, args: seq<Arg>)
    requires !HasPrefix(uargs, "(")
    ensures var ints := IntsOf(args);
      ParseCpms(uargs, args) ==
        if |ints| == 6 then Success(Some(StorageInfo(ints[0], ints[1], ints[2], ints[3], ints[4], ints[5])))
        else if |ints| == 4 then Success(Some(StorageInfo(ints[0], ints[1], ints[2], ints[3], 0, 0)))
        else Success(Some(UnknownPacket("+CPMS", args)))
  {
  }

  /** A storage name a device can list: no double quote and no closing parenthesis. */
  predicate StorageName(n: string) {
    '"' !in n && ')' !in n
  }

  /** The parenthesised text of a +CPMS query reply is split into its groups. */
  lemma CpmsUnwrap(inner: string, args: seq<Arg>)
    ensures var areas := SplitN(inner, "),(", 3);
      ParseCpms("(" + (inner + ")"), args)
        == if |areas| < 3 then Failure(MissingGroup(|areas|))
           else Success(Some(StorageAreas(ArgTexts(areas[0]), ArgTexts(areas[1]), ArgTexts(areas[2]))))
  {
    assert HasPrefix("(" + (inner + ")"), "(");
    TrimPrefixOf("(", inner + ")");
    TrimSuffixOf(inner, ")");
  }

  lemma Regroup(o: string, a: string, s: string, b: string, c: string, e: string)
    ensures o + a + s + b + s + c + e == o + ((a + s + (b + s + c)) + e)
  {
  }

  lemma Regroup3(o: string, a: string, s: string, b: string, e: string)
    ensures o + a + s + b + e == o + ((a + s + b) + e)
  {
  }

  /** Three groups whose first two hold no ')' are cut where the source expects. */
  lemma CpmsThreeTexts(a: string, b: string, c: string, args: seq<Arg>)
    requires ')' !in a && ')' !in b
    ensures ParseCpms("(" + a + "),(" + b + "),(" + c + ")", args)
         == Success(Some(StorageAreas(ArgTexts(a), ArgTexts(b), ArgTexts(c))))
  {
    var sep := "),(";
    var inner := a + sep + (b + sep + c);
    assert SplitN(inner, sep, 3) == [a, b, c] by {
      IndexAfter(a, sep);
      IndexAfter(b, sep);
      SplitNCons(a, sep, b + sep + c, 3);
      SplitNCons(b, sep, c, 2);
    }
    CpmsUnwrap(inner, args);
    Regroup("(", a, sep, b, c, ")");
  }

  /** Two groups, the first without ')', leave the third group missing. */
  lemma CpmsTwoTexts(a: string, b: string, args: seq<Arg>)
    requires ')' !in a && ')' !in b
    ensures ParseCpms("(" + a + "),(" + b + ")", args) == Failure(MissingGroup(2))
  {
    var sep := "),(";
    var inner := a + sep + b;
    assert SplitN(inner, sep, 3) == [a, b] by {
      IndexAfter(a, sep);
      SplitNCons(a, sep, b, 3);
      IndexNone(b, sep);
    }
    CpmsUnwrap(inner, args);
    Regroup3("(", a, sep, b, ")");
  }

  /** A +CPMS query reply, three parenthesised groups of quoted storage names, gives
      those names back as the three storage areas. */
  lemma CpmsQueryGroups(g1: seq<string>, g2: seq<string>, g3: seq<string>, args: seq<Arg>)
    requires |g1| >= 1 && forall i :: 0 <= i < |g1| ==> StorageName(g1[i])
    requires |g2| >= 1 && forall i :: 0 <= i < |g2| ==> StorageName(g2[i])
    requires |g3| >= 1 && forall i :: 0 <= i < |g3| ==> StorageName(g3[i])
    ensures ParseCpms("(" + Names(g1) + "),(" + Names(g2) + "),(" + Names(g3) + ")", args)
         == Success(Some(StorageAreas(g1, g2, g3)))
  {
    NamesAvoid(g1, ')');
    NamesAvoid(g2, ')');
    CpmsThreeTexts(Names(g1), Names(g2), Names(g3), args);
    ArgTextsOfNames(g1);
    ArgTextsOfNames(g2);
    ArgTextsOfNames(g3);
  }

  /** A +CPMS query reply with a single group makes the parser index a missing group. */
  lemma CpmsQueryOneGroup(g1: seq<string>, args: seq<Arg>)
    requires forall i :: 0 <= i < |g1| ==> StorageName(g1[i])
    ensures ParseCpms("(" + Names(g1) + ")", args) == Failure(MissingGroup(1))
  {
    var a := Names(g1);
    NamesAvoid(g1, ')');
    IndexNone(a, "),(");
    assert SplitN(a, "),(", 3) == [a];
    CpmsUnwrap(a, args);
    assert "(" + a + ")" == "(" + (a + ")");
  }

  /** A +CPMS query reply with two groups makes the parser index a missing third one. */
  lemma CpmsQueryTwoGroups(g1: seq<string>, g2: seq<string>, args: seq<Arg>)
    requires forall i :: 0 <= i < |g1| ==> StorageName(g1[i])
    requires forall i :: 0 <= i < |g2| ==> StorageName(g2[i])
    ensures ParseCpms("(" + Names(g1) + "),(" + Names(g2) + ")", args) == Failure(MissingGroup(2))
  {
    NamesAvoid(g1, ')');
    NamesAvoid(g2, ')');
    CpmsTwoTexts(Names(g1), Names(g2), args);
  }
}
