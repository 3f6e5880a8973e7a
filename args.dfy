/** Command arguments and reply arguments (util.go): quoting values into a command
    line, and splitting a reply's argument text back into typed values. */
module Args {
  import opened Wrappers
  import opened Text

  /** A Go `interface{}` argument as the package meets it: a string, an integer (`int`
      or `int64`), or a value of some other dynamic type, known only by its type name. */
  datatype Arg = Str(s: string) | Int(i: int) | Other(typeName: string)

  /** The panic `quote` raises for an argument of an unsupported type. */
  datatype FormatError = UnsupportedArgument(typeName: string)

  // ---------------------------------------------------------------------------
  // quote / quotes

  /** quote: a string is wrapped in double quotes, except the query marker "?";
      an integer is written in decimal; any other type is refused. */
  function Quote(a: Arg): (r: Result<string, FormatError>)
    ensures r.Failure? <==> a.Other?
  {
    match a
    case Str(s) => Success(if s == "?" then s else "\"" + s + "\"")
    case Int(i) => Success(DecimalText(i))
    case Other(t) => Failure(UnsupportedArgument(t))
  }

  /** `quote` applied to each argument in order, stopping at the first refusal. */
  function QuoteEach(args: seq<Arg>): (r: Result<seq<string>, FormatError>)
    ensures r.Success? <==> forall i :: 0 <= i < |args| ==> !args[i].Other?
    ensures r.Success? ==> |r.value| == |args|
    ensures r.Success? ==> forall i :: 0 <= i < |args| ==> Quote(args[i]) == Success(r.value[i])
    ensures r.Failure? ==>
      exists i :: (0 <= i < |args| && args[i].Other? && r.error == UnsupportedArgument(args[i].typeName)
                   && forall j :: 0 <= j < i ==> !args[j].Other?)
    decreases |args|
  {
    if |args| == 0 then Success([])
    else
      var init := args[..|args| - 1];
      assert forall i :: 0 <= i < |init| ==> init[i] == args[i];
      var qs :- QuoteEach(init);
      var q :- Quote(args[|args| - 1]);
      Success(qs + [q])
  }

  /** The refusal reported is that of the first argument that cannot be quoted. */
  lemma FirstRefusal(args: seq<Arg>, i: nat)
    requires i < |args| && args[i].Other? && QuoteEach(args[..i]).Success?
    ensures QuoteEach(args) == Failure(UnsupportedArgument(args[i].typeName))
  {
    forall j | 0 <= j < i ensures !args[j].Other? {
      assert args[..i][j] == args[j];
    }
    var r := QuoteEach(args);
    assert r.Failure?;
    var k :| 0 <= k < |args| && args[k].Other? && r.error == UnsupportedArgument(args[k].typeName)
             && forall j :: 0 <= j < k ==> !args[j].Other?;
    assert !(k < i) && !(i < k);
  }

  /** quotes: the comma-join of the quoted arguments. */
  function QuoteAll(args: seq<Arg>): Result<string, FormatError> {
    var qs :- QuoteEach(args);
    Success(Join(qs, ","))
  }

  /** quotes, as the source writes it: fill a slice by index, then join it. */
  method Quotes(args: seq<Arg>) returns (r: Result<string, FormatError>)
    ensures r == QuoteAll(args)
  {
    var ret := new string[|args|];
    var i := 0;
    while i < |args|
      invariant 0 <= i <= |args|
      invariant QuoteEach(args[..i]) == Success(ret[..i])
    {
      var q := Quote(args[i]);
      if q.Failure? {
        // the source panics here, on the first argument it cannot quote
        FirstRefusal(args, i);
        return Failure(q.error);
      }
      ghost var before := ret[..i];
      ret[i] := q.value;
      assert ret[..i + 1] == before + [q.value];
      assert args[..i + 1][..i] == args[..i];
      assert QuoteEach(args[..i + 1]) == Success(before + [q.value]);
      i := i + 1;
    }
    assert args[..i] == args && ret[..] == ret[..i];
    r := Success(Join(ret[..], ","));
  }

  // ---------------------------------------------------------------------------
  // The argument tokenizer: Go's RegexQuote.FindAllString(s, -1) for the pattern
  // `"[^"]*"|[^,]*`, written out as a scanner.

  /** The length of the regex match that starts at the front of `rest`. The first
      alternative wins when it matches: a double quote, no quotes, a closing quote.
      Otherwise the second alternative takes everything up to the next comma. */
  function MatchLen(rest: string): (n: nat)
    ensures n <= |rest|
    ensures n == 0 ==> rest == [] || rest[0] == ','
  {
    if |rest| > 0 && rest[0] == '"' && FirstIndex(rest[1..], '"') < |rest| - 1 then
      FirstIndex(rest[1..], '"') + 2
    else
      FirstIndex(rest, ',')
  }

  /** The matches found from the front of `rest` on. `afterMatch` says that a match
      ended exactly here, in which case an empty match here is skipped; after an
      empty match the search resumes one character further on (an empty match is
      only possible at a comma or at the end, so that character is the comma). */
  function Scan(rest: string, afterMatch: bool): seq<string>
    decreases |rest|
  {
    var n := MatchLen(rest);
    if n == 0 then
      (if afterMatch then [] else [""]) + (if rest == [] then [] else Scan(rest[1..], false))
    else
      [rest[..n]] + Scan(rest[n..], true)
  }

  /** FindAllString(s, -1): every match, scanning from the start. */
  function Tokens(s: string): seq<string> {
    Scan(s, false)
  }

  /** A scan that does not start right after a match yields at least one token, so
      the reply argument list is never empty. */
  lemma TokensNonEmpty(s: string)
    ensures |Tokens(s)| >= 1
  {
  }

  /** A plain token: not starting with a quote, free of commas. */
  predicate PlainAtom(t: string) {
    |t| > 0 && t[0] != '"' && ',' !in t
  }

  /** A quoted token: quote, anything but a quote (commas included), quote. */
  predicate QuotedAtom(t: string) {
    |t| >= 2 && t[0] == '"' && t[|t| - 1] == '"' && '"' !in t[1..|t| - 1]
  }

  lemma AtomMatch(t: string, tail: string)
    requires PlainAtom(t) || QuotedAtom(t)
    requires tail == [] || tail[0] == ','
    ensures MatchLen(t + tail) == |t|
  {
    var rest := t + tail;
    if QuotedAtom(t) {
      var k := FirstIndex(rest[1..], '"');
      assert rest[1..][|t| - 2] == '"';
      assert forall i :: 0 <= i < |t| - 2 ==> rest[1..][i] == t[1..|t| - 1][i];
      FirstIndexIs(rest[1..], '"', |t| - 2);
    } else {
      var k := FirstIndex(rest, ',');
      assert forall i :: 0 <= i < |t| ==> rest[i] != ',' by {
        forall i | 0 <= i < |t| ensures rest[i] != ',' { assert rest[i] == t[i]; assert t[i] in t; }
      }
      assert |tail| > 0 ==> rest[|t|] == ',';
      FirstIndexIs(rest, ',', |t|);
    }
  }

  lemma ScanAtom(t: string, tail: string, afterMatch: bool)
    requires PlainAtom(t) || QuotedAtom(t)
    requires tail == [] || tail[0] == ','
    ensures Scan(t + tail, afterMatch) == [t] + Scan(tail, true)
  {
    AtomMatch(t, tail);
    var j := t + tail;
    assert j[..|t|] == t && j[|t|..] == tail;
  }

  lemma ScanComma(rest: string, afterMatch: bool)
    ensures Scan("," + rest, afterMatch) == (if afterMatch then [] else [""]) + Scan(rest, false)
  {
    var j := "," + rest;
    assert MatchLen(j) == 0;
    assert j[1..] == rest;
  }

  /** Joining tokens that are empty or atoms with commas, then scanning, gives the
      tokens back: a comma inside a quoted token never splits it, and an empty field
      between two commas is an empty token. */
  lemma {:induction false} ScanJoin(ts: seq<string>)
    requires |ts| >= 1
    requires forall i :: 0 <= i < |ts| ==> ts[i] == "" || PlainAtom(ts[i]) || QuotedAtom(ts[i])
    ensures Tokens(Join(ts, ",")) == ts
    decreases |ts|
  {
    var t := ts[0];
    if |ts| == 1 {
      assert Join(ts, ",") == t;
      ScanOne(t);
      assert [t] == ts;
    } else {
      var rest := Join(ts[1..], ",");
      ScanJoin(ts[1..]);
      JoinCons(ts, ",");
      ScanCons(t, rest);
      assert [t] + ts[1..] == ts;
    }
  }

  /** A single empty or atomic token scans as itself. */
  lemma ScanOne(t: string)
    requires t == "" || PlainAtom(t) || QuotedAtom(t)
    ensures Tokens(t) == [t]
  {
    assert Scan("", true) == [];
    if t != "" {
      ScanAtom(t, "", false);
      assert t + "" == t;
    }
  }

  /** An empty or atomic token, a comma, then the rest. */
  lemma ScanCons(t: string, rest: string)
    requires t == "" || PlainAtom(t) || QuotedAtom(t)
    ensures Tokens(t + ("," + rest)) == [t] + Tokens(rest)
  {
    if t == "" {
      assert t + ("," + rest) == "," + rest;
      ScanComma(rest, false);
    } else {
      ScanAtomComma(t, rest, false);
    }
  }

  /** The reference definition of a plain comma split. */
  function SplitCommas(s: string): seq<string>
    decreases |s|
  {
    var i := FirstIndex(s, ',');
    if i == |s| then [s] else [s[..i]] + SplitCommas(s[i + 1..])
  }

  lemma CommaCount(a: string, b: string)
    requires ',' !in a
    ensures multiset(a + "," + b)[','] == multiset(b)[','] + 1
  {
    assert multiset(a + "," + b) == multiset(a) + multiset(",") + multiset(b);
    assert multiset(a)[','] == 0;
  }

  lemma SplitCommasStep(s: string, i: nat)
    requires i == FirstIndex(s, ',') && i < |s|
    ensures SplitCommas(s) == [s[..i]] + SplitCommas(s[i + 1..])
    ensures s == s[..i] + "," + s[i + 1..]
    ensures ',' !in s[..i]
  {
    SplitAround(s, i);
    FirstIndexBefore(s, ',');
  }

  lemma {:induction false} SplitCommasShape(s: string)
    ensures Join(SplitCommas(s), ",") == s
    ensures |SplitCommas(s)| == multiset(s)[','] + 1
    ensures forall k :: 0 <= k < |SplitCommas(s)| ==> ',' !in SplitCommas(s)[k]
    decreases |s|
  {
    var i := FirstIndex(s, ',');
    if i < |s| {
      var tail := s[i + 1..];
      SplitCommasShape(tail);
      SplitCommasStep(s, i);
      CommaCount(s[..i], tail);
      var r := SplitCommas(s);
      assert r[1..] == SplitCommas(tail);
      assert Join(r, ",") == s[..i] + "," + Join(SplitCommas(tail), ",");
    } else {
      FirstIndexAbsent(s, ',');
      assert multiset(s)[','] == 0;
    }
  }

  lemma ScanNoComma(s: string)
    requires '"' !in s && ',' !in s
    ensures Scan(s, false) == [s]
  {
    assert Scan("", true) == [];
    if s != "" {
      assert s[0] in s;
      ScanAtom(s, "", false);
      assert s + "" == s;
    }
  }

  lemma ScanAtomComma(t: string, b: string, afterMatch: bool)
    requires PlainAtom(t) || QuotedAtom(t)
    ensures Scan(t + ("," + b), afterMatch) == [t] + Scan(b, false)
  {
    ScanAtom(t, "," + b, afterMatch);
    ScanComma(b, true);
  }

  lemma ScanBeforeComma(a: string, b: string)
    requires '"' !in a && ',' !in a
    ensures Scan(a + ("," + b), false) == [a] + Scan(b, false)
  {
    if a == "" {
      assert a + ("," + b) == "," + b;
      ScanComma(b, false);
    } else {
      assert a[0] in a;
      assert PlainAtom(a);
      ScanAtomComma(a, b, false);
    }
  }

  lemma NotInParts(a: string, b: string, c: char)
    requires c !in a + b
    ensures c !in a && c !in b
  {
  }

  lemma ScanFirstComma(s: string) returns (a: string, b: string)
    requires '"' !in s && FirstIndex(s, ',') < |s|
    ensures SplitCommas(s) == [a] + SplitCommas(b)
    ensures Scan(s, false) == [a] + Scan(b, false)
    ensures '"' !in b && |b| < |s|
  {
    var i := FirstIndex(s, ',');
    SplitCommasStep(s, i);
    a, b := s[..i], s[i + 1..];
    assert s == a + ("," + b);
    NotInParts(a, "," + b, '"');
    NotInParts(",", b, '"');
    ScanBeforeComma(a, b);
  }

  lemma {:induction false} ScanWithoutQuotes(s: string)
    requires '"' !in s
    ensures Scan(s, false) == SplitCommas(s)
    decreases |s|
  {
    FirstIndexAbsent(s, ',');
    if FirstIndex(s, ',') == |s| {
      ScanNoComma(s);
    } else {
      var a, b := ScanFirstComma(s);
      ScanWithoutQuotes(b);
    }
  }

  /** Without double quotes the tokenizer is a plain comma split: one token more
      than there are commas, and the tokens joined by commas give the input back. */
  lemma TokensWithoutQuotes(s: string)
    requires '"' !in s
    ensures |Tokens(s)| == multiset(s)[','] + 1
    ensures Join(Tokens(s), ",") == s
    ensures forall k :: 0 <= k < |Tokens(s)| ==> ',' !in Tokens(s)[k]
  {
    ScanWithoutQuotes(s);
    SplitCommasShape(s);
  }

  // ---------------------------------------------------------------------------
  // unquote / unquotes / stringsUnquotes

  /** unquote: a token starting with a double quote loses all its leading and trailing
      quotes and stays a string; otherwise a decimal integer becomes an Int; anything
      else stays the string it was. */
  function Unquote(s: string): (r: Arg)
    ensures !r.Other?
  {
    if StartsWith(s, "\"") then Str(TrimQuotes(s))
    else match Atoi(s)
      case Some(i) => Int(i)
      case None => Str(s)
  }

  function UnquoteEach(ts: seq<string>): (r: seq<Arg>)
    ensures |r| == |ts| && forall i :: 0 <= i < |ts| ==> r[i] == Unquote(ts[i])
  {
    seq(|ts|, i requires 0 <= i < |ts| => Unquote(ts[i]))
  }

  /** unquotes: every token of the argument text, unquoted. */
  function UnquoteAll(s: string): seq<Arg> {
    UnquoteEach(Tokens(s))
  }

  lemma UnquoteEachAppend(a: seq<string>, b: seq<string>)
    ensures UnquoteEach(a + b) == UnquoteEach(a) + UnquoteEach(b)
  {
  }

  lemma UnquoteEachSnoc(ts: seq<string>, t: string)
    ensures UnquoteEach(ts + [t]) == UnquoteEach(ts) + [Unquote(t)]
  {
  }

  /** The tokens after an empty match: one more empty token unless it sits right
      after a match. */
  function AfterEmpty(tokens: seq<string>, afterMatch: bool): seq<string> {
    if afterMatch then tokens else tokens + [""]
  }

  /** The last empty match, at the end of the text. */
  lemma EmptyAtEnd(tokens: seq<string>, afterMatch: bool, total: seq<string>)
    requires tokens + Scan([], afterMatch) == total
    ensures AfterEmpty(tokens, afterMatch) == total
  {
  }

  /** An empty match at a comma: the search resumes after the comma. */
  lemma EmptyAdvance(tokens: seq<string>, rest: string, afterMatch: bool, total: seq<string>)
    requires rest != [] && MatchLen(rest) == 0
    requires tokens + Scan(rest, afterMatch) == total
    ensures AfterEmpty(tokens, afterMatch) + Scan(rest[1..], false) == total
  {
    var gap: seq<string> := if afterMatch then [] else [""];
    assert Scan(rest, afterMatch) == gap + Scan(rest[1..], false);
    Associative(tokens, gap, Scan(rest[1..], false));
  }

  /** A non-empty match: a token, after which an empty match is skipped. */
  lemma TokenAdvance(tokens: seq<string>, rest: string, afterMatch: bool, total: seq<string>)
    requires MatchLen(rest) > 0
    requires tokens + Scan(rest, afterMatch) == total
    ensures (tokens + [rest[..MatchLen(rest)]]) + Scan(rest[MatchLen(rest)..], true) == total
  {
    var n := MatchLen(rest);
    assert Scan(rest, afterMatch) == [rest[..n]] + Scan(rest[n..], true);
    Associative(tokens, [rest[..n]], Scan(rest[n..], true));
  }

  /** unquotes, with the regex search written out as the scanning loop it performs:
      `rest` is the text not yet searched. */
  method Unquotes(s: string) returns (args: seq<Arg>)
    ensures args == UnquoteAll(s)
  {
    args := [];
    ghost var tokens: seq<string> := [];
    var rest := s;
    var afterMatch := false;
    while true
      invariant tokens + Scan(rest, afterMatch) == Tokens(s)
      invariant args == UnquoteEach(tokens)
      decreases |rest|
    {
      var n := MatchLen(rest);
      if n == 0 && rest == [] {
        EmptyAtEnd(tokens, afterMatch, Tokens(s));
        if !afterMatch {
          UnquoteEachSnoc(tokens, "");
          args := args + [Unquote("")];
        }
        return;
      } else if n == 0 {
        EmptyAdvance(tokens, rest, afterMatch, Tokens(s));
        if !afterMatch {
          UnquoteEachSnoc(tokens, "");
          args := args + [Unquote("")];
        }
        tokens := AfterEmpty(tokens, afterMatch);
        rest, afterMatch := rest[1..], false;
      } else {
        var token := rest[..n];
        TokenAdvance(tokens, rest, afterMatch, Tokens(s));
        UnquoteEachSnoc(tokens, token);
        args, tokens := args + [Unquote(token)], tokens + [token];
        rest, afterMatch := rest[n..], true;
      }
    }
  }

  /** fmt.Sprint of an unquoted value: the string itself, or the integer in decimal. */
  function ArgText(a: Arg): string
    requires !a.Other?
  {
    match a
    case Str(s) => s
    case Int(i) => DecimalText(i)
  }

  /** Each unquoted value printed back as a string. */
  function Texts(args: seq<Arg>): (r: seq<string>)
    requires forall i :: 0 <= i < |args| ==> !args[i].Other?
    ensures |r| == |args| && forall i :: 0 <= i < |args| ==> r[i] == ArgText(args[i])
  {
    seq(|args|, i requires 0 <= i < |args| => ArgText(args[i]))
  }

  /** stringsUnquotes: the tokens of `s`, unquoted and printed back as strings. */
  function ArgTexts(s: string): (r: seq<string>)
    ensures |r| == |UnquoteAll(s)|
  {
    Texts(UnquoteAll(s))
  }

  lemma TextsSnoc(args: seq<Arg>, i: nat)
    requires i < |args| && forall k :: 0 <= k < |args| ==> !args[k].Other?
    ensures Texts(args)[..i + 1] == Texts(args)[..i] + [ArgText(args[i])]
  {
    var texts := Texts(args);
    assert texts[i] == ArgText(args[i]);
    assert texts[..i + 1] == texts[..i] + [texts[i]];
  }

  /** stringsUnquotes, as the source writes it: append one printed value per token. */
  method StringsUnquotes(s: string) returns (res: seq<string>)
    ensures res == ArgTexts(s)
  {
    var args := Unquotes(s);
    ghost var texts := Texts(args);
    res := [];
    var i := 0;
    while i < |args|
      invariant 0 <= i <= |args|
      invariant res == texts[..i]
    {
      TextsSnoc(args, i);
      res := res + [ArgText(args[i])];
      i := i + 1;
    }
    assert texts[..i] == texts;
  }

  // ---------------------------------------------------------------------------
  // Quoting and unquoting are inverse on the values a device can send back.

  /** A value that survives quoting and unquoting: a string without double quotes,
      or an integer within Go's `int`. */
  predicate Transparent(a: Arg) {
    match a
    case Str(s) => '"' !in s
    case Int(i) => MinInt64 <= i <= MaxInt64
    case Other(_) => false
  }

  lemma TrimQuotesOfQuoted(s: string)
    requires '"' !in s
    ensures TrimQuotes("\"" + s + "\"") == s
  {
    var q := "\"" + s + "\"";
    assert q[1..] == s + "\"";
    if s == [] {
      assert TrimLeft(q[1..], {'"'}) == TrimLeft("", {'"'});
    } else {
      assert TrimLeft(q, {'"'}) == TrimLeft(q[1..], {'"'});
      assert (s + "\"")[0] == s[0] && s[0] in s;
      assert TrimLeft(s + "\"", {'"'}) == s + "\"";
      assert (s + "\"")[..|s|] == s;
      assert TrimRight(s + "\"", {'"'}) == TrimRight(s, {'"'});
      assert s[|s| - 1] in s;
    }
  }

  lemma QuoteUnquoteStr(s: string)
    requires '"' !in s
    ensures Quote(Str(s)).Success?
    ensures PlainAtom(Quote(Str(s)).value) || QuotedAtom(Quote(Str(s)).value)
    ensures Unquote(Quote(Str(s)).value) == Str(s)
  {
    var q := Quote(Str(s)).value;
    StartsWithIsPrefix(q, "\"");
    if s == "?" {
      assert Atoi(q) == None;
    } else {
      assert q[1..|q| - 1] == s;
      TrimQuotesOfQuoted(s);
    }
  }

  lemma QuoteUnquoteInt(i: int)
    requires MinInt64 <= i <= MaxInt64
    ensures Quote(Int(i)).Success?
    ensures PlainAtom(Quote(Int(i)).value)
    ensures Unquote(Quote(Int(i)).value) == Int(i)
  {
    var q := DecimalText(i);
    assert Quote(Int(i)) == Success(q);
    DecimalTextShape(i);
    assert !StartsWith(q, "\"") by {
      StartsWithIsPrefix(q, "\"");
    }
    AtoiOfDecimalText(i);
    assert Unquote(q) == Int(i);
  }

  lemma QuoteUnquote(a: Arg)
    requires Transparent(a)
    ensures Quote(a).Success?
    ensures PlainAtom(Quote(a).value) || QuotedAtom(Quote(a).value)
    ensures Unquote(Quote(a).value) == a
  {
    match a
    case Str(s) => QuoteUnquoteStr(s);
    case Int(i) => QuoteUnquoteInt(i);
  }

  /** The arguments of a command line read back as the same values: a reply that
      repeats a command's argument text unquotes to the command's arguments. */
  lemma ArgsRoundTrip(args: seq<Arg>)
    requires |args| >= 1
    requires forall i :: 0 <= i < |args| ==> Transparent(args[i])
    ensures QuoteAll(args).Success?
    ensures UnquoteAll(QuoteAll(args).value) == args
  {
    var qs := QuoteEach(args).value;
    forall i | 0 <= i < |args|
      ensures PlainAtom(qs[i]) || QuotedAtom(qs[i])
      ensures Unquote(qs[i]) == args[i]
    {
      QuoteUnquote(args[i]);
    }
    ScanJoin(qs);
  }

  // ---------------------------------------------------------------------------
  // A list of quoted names, as a device writes one storage group of +CPMS.

  /** Each name in double quotes. */
  function Quoted(names: seq<string>): (r: seq<string>)
    ensures |r| == |names| && forall i :: 0 <= i < |names| ==> r[i] == "\"" + names[i] + "\""
  {
    seq(|names|, i requires 0 <= i < |names| => "\"" + names[i] + "\"")
  }

  /** The quoted names, comma-separated. */
  function Names(names: seq<string>): string {
    Join(Quoted(names), ",")
  }

  /** stringsUnquotes reads a list of quoted names back as the names, commas inside the
      quotes included. */
  lemma ArgTextsOfNames(names: seq<string>)
    requires |names| >= 1 && forall i :: 0 <= i < |names| ==> '"' !in names[i]
    ensures ArgTexts(Names(names)) == names
  {
    var qs := Quoted(names);
    forall i | 0 <= i < |qs| ensures QuotedAtom(qs[i]) {
      assert qs[i][1..|qs[i]| - 1] == names[i];
    }
    ScanJoin(qs);
    var args := UnquoteAll(Names(names));
    assert args == UnquoteEach(qs);
    forall i | 0 <= i < |names| ensures args[i] == Str(names[i]) {
      assert qs[i][..1] == "\"";
      StartsWithIsPrefix(qs[i], "\"");
      TrimQuotesOfQuoted(names[i]);
    }
    assert forall i :: 0 <= i < |names| ==> ArgTexts(Names(names))[i] == names[i];
  }

  /** A character that is neither a quote nor a comma, and in none of the names, is not
      in their list. */
  lemma NamesAvoid(names: seq<string>, c: char)
    requires c != '"' && c != ','
    requires forall i :: 0 <= i < |names| ==> c !in names[i]
    ensures c !in Names(names)
  {
    var qs := Quoted(names);
    forall i | 0 <= i < |qs| ensures c !in qs[i] {
      assert c !in names[i];
    }
    JoinAvoids(qs, ",", c);
  }
}
