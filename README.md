# gogsmmodem: the AT reply engine, in Dafny

gogsmmodem drives a GSM modem over a serial line with AT commands. Everything it
does passes through one small engine:

- It formats a command line such as `AT+CMGR=3\r\n`, quoting its arguments.
- It reads the modem's answer line by line.
- It sorts each line into one of these:
  - the echo of the command just sent;
  - the header of a reply of the expected name;
  - a body line;
  - a final status (`OK`, `ERROR`, `+CMS ERROR …`);
  - an unsolicited line.
- It parses each completed reply into a packet: a message, a message notification, storage areas and counts, and so on.
- Around this sit the argument codec (`quote`, `quotes`, `unquote`, `unquotes`,
  `stringsUnquotes`) and the two text codecs for message bodies:
  - GSM 03.38 default-alphabet conversion;
  - UCS2 hexadecimal.

The model follows the package's two source files:

- `wrappers.dfy`: Option and Result.
- `text.dfy`: the standard-library string functions the driver relies on.
  These are `strings.Index`, `Contains`, `SplitN`, `Join`, `TrimRight`, `TrimSpace`, `Trim`, `TrimPrefix` and `TrimSuffix`, plus `strconv.Atoi` with Go's 64-bit range.
- `args.dfy`: the argument codec of util.go.
  - The `"[^"]*"|[^,]*` regular expression with Go's find-all semantics is an explicit scanner. It skips an empty match right after a match.
  - `quotes`, `unquotes` and `stringsUnquotes` keep their accumulation loops as methods. Each is proved equal to a function.
- `gsm0338.dfy`: the two GSM 03.38 tables, and `gsmEncode`/`gsmDecode` as loops proved against functions.
- `ucs2.dfy`: `unicodeEncode`, and a reading of its output as the modem decodes it.
- `packets.dfy`: `isFinalStatus` and `parsePacket`. Every unchecked type assertion, index and slice of the Go code is an explicit `Fault`.
- `command.dfy`:
  - `formatCommand`;
  - the modem's reading of a command line;
  - `reQuestion` (`AT(\+[A-Z]+)`), written as a leftmost scanner with a greedy run of capitals.
- `engine.dfy`: the per-line rule of `lineChannel` (trim CR/LF, skip empty lines) and the `listen` loop.
  - `Receive` and `Transmit` are pure step functions over the four strings `listen` keeps (`echo`, `last`, `header`, `body`).
  - The `Listener` class holds those strings as fields, with `OnLine`, `OnTx` and `Listen` proved against the step functions.
  - `rx`, the packets delivered to the waiting caller, and the lines written to the port are ghost sequences.
- `api.dfy`: what each request of `Modem` writes to the port, and how it interprets the packets it takes from `rx`.
  - `send`, `sendBody`, `GetMessage`, `SupportedStorageAreas`, `DeleteMessage` and `SendMessage`.
  - `ListMessages`, as its loop and as a function.

The model follows gsm.go as written wherever a reading of the driver's intent
might suggest otherwise:

- A line starting with the expected reply name opens a reply even when no reply
  is pending. This is how the first line of a `+CMGL` listing becomes a header.
- Body lines are joined with no separator.
- An unsolicited line outside a reply is parsed, but nothing is delivered. The delivery is commented out in the source. A panic of that parse still ends the loop.
- `last` changes only when a sent line matches `AT(\+[A-Z]+)`. Otherwise the old name stays.
- `quote` leaves the string `"?"` unquoted. So a telephone number `"?"` is sent bare.
- In GSM mode `SendMessage` sends the text unchanged. `gsmEncode` is not applied.
- The escape-prefixed entries of the GSM 03.38 decode table are commented out. So the extension characters do not survive a round trip.

## Model

| member | source | states |
|---|---|---|
| Text.Index | util.go:51-53 | `strings.Index`: the result is the first offset where the pattern occurs, and -1 exactly when it occurs nowhere |
| Text.StartsWith | util.go:51-53 | `startsWith`, defined as Index being 0; its meaning, "p is a prefix of s", is Text.StartsWithIsPrefix |
| Text.StartsWithIsPrefix | util.go:51-53 | `startsWith(s, p)` (Index is 0) holds exactly when p is a prefix of s, so the empty prefix always matches |
| Text.ContainsIsOccurrence | gsm.go:190-195 | `strings.Contains` holds exactly when the pattern occurs at some offset |
| Text.FirstIndexAbsent | gsm.go:206-209 | the first-occurrence cut reaches the end exactly when the separator is absent |
| Text.SplitN | gsm.go:206-209 | `strings.SplitN(s, sep, n)` returns between one and n parts; how the parts rebuild the input is Text.SplitNShape |
| Text.SplitNShape | gsm.go:259 | the parts joined by the separator give back the input; each part but the last ends right before the separator's first occurrence in what is left; fewer than n parts means the last part holds no separator |
| Text.SplitNCons | gsm.go:259 | a part free of the separator, the separator and the rest split as that part followed by the split of the rest, with one part fewer allowed |
| Text.SplitNAtFirst | gsm.go:206-209 | splitting at most twice on a character cuts at its first occurrence: name before, rest after |
| Text.SplitNAbsent | gsm.go:206-209 | without the separator, SplitN returns the whole string as its one part |
| Text.TrimRight | gsm.go:177 | `strings.TrimRight`: the result is a prefix, only cut characters were removed, and its last character is not one of them |
| Text.TrimLeft | util.go:58 | the left half of `strings.Trim`: a suffix, only cut characters removed, and its first character is not one of them |
| Text.TrimPrefix | gsm.go:257 | when the prefix is present the input is prefix plus result; otherwise the input is returned unchanged |
| Text.TrimSuffix | gsm.go:258 | when the suffix is present the input is result plus suffix; otherwise the input is returned unchanged |
| Text.Atoi | util.go:60-63 | `strconv.Atoi` succeeds only inside Go's 64-bit `int` range |
| Text.AtoiOfDecimalText | util.go:33-34 | `strconv.Atoi` reads back the decimal text `fmt.Sprint` writes, for every 64-bit integer |
| Text.DigitsRoundTrip | util.go:33-34 | the value of the decimal digits of n is n |
| Text.DecimalTextShape | util.go:33-34 | decimal text is non-empty, starts with '-' or a digit, and holds no comma, quote or space, so the tokenizer keeps it whole |
| Args.Quote | util.go:26-39 | `quote` fails exactly on an argument that is neither a string nor an integer; Go panics there |
| Args.QuoteEach | util.go:42-48 | all arguments quote exactly when none is of another type; on success each element is that argument's quote; on failure the error names the first refused argument |
| Args.QuoteAll | util.go:42-48 | `quotes`: the comma-join of the quoted arguments; the loop that computes it is Args.Quotes, its inverse Args.ArgsRoundTrip |
| Args.FirstRefusal | util.go:42-48 | the panic `quotes` raises is that of the first argument of another type |
| Args.Quotes | util.go:42-48 | the loop filling `ret` by index and joining with commas computes the comma-join of the quotes, or the first panic |
| Args.MatchLen | util.go:67 | a zero-length match happens only at the end of the input or before a comma |
| Args.Scan | util.go:67-71 | `RegexQuote.FindAllString(s, -1)` as a left-to-right scanner; its laws are Args.ScanComma, Args.ScanAtom, Args.ScanJoin and Args.ScanWithoutQuotes |
| Args.Tokens | util.go:67-71 | the tokens of a parameter list; never empty (Args.TokensNonEmpty), and without quotes the comma split (Args.TokensWithoutQuotes) |
| Args.TokensNonEmpty | util.go:70-77 | the find-all always yields at least one token |
| Args.ScanComma | util.go:67 | an empty match directly after a match is skipped; one after a comma or at the start is kept |
| Args.ScanAtom | util.go:67 | a quoted segment is matched whole, so commas inside double quotes never split a token |
| Args.ScanJoin | util.go:67-77 | tokens that are plain or quoted atoms, joined by commas, are found again one by one |
| Args.SplitCommasShape | util.go:67 | the comma split, joined back by commas, is the input; it has one more part than commas; no part holds a comma |
| Args.ScanWithoutQuotes | util.go:67-77 | on input without a double quote the regex find-all is exactly the comma split, empty fields included |
| Args.TokensWithoutQuotes | util.go:67-77 | without a double quote: token count is comma count plus one, and the tokens joined by "," give back the input |
| Args.Unquote | util.go:56-65 | `unquote` always gives a string or an int, never another type |
| Args.UnquoteEach | util.go:70-77 | each token is unquoted in place, in order |
| Args.UnquoteAll | util.go:70-77 | `unquotes`: each token unquoted in order; the loop is Args.Unquotes and the round trip with `quotes` is Args.ArgsRoundTrip |
| Args.Unquotes | util.go:70-77 | the loop filling `args` computes the unquoted tokens of the input |
| Args.Texts | util.go:80-87 | `fmt.Sprint` of each unquoted argument, in order |
| Args.ArgTexts | util.go:80-87 | one text per token of the input |
| Args.StringsUnquotes | util.go:80-87 | the loop appending to `res` computes the texts of the unquoted arguments |
| Args.TrimQuotesOfQuoted | util.go:56-59 | trimming the quotes from a quoted string without quotes gives the string back |
| Args.ArgTextsOfNames | util.go:80-87 | `stringsUnquotes` of a comma list of quoted names without double quotes gives back the names |
| Args.QuoteUnquoteStr | util.go:26-65 | a string without double quotes is quoted into one token ("?" bare, anything else in quotes) that `unquote` reads back as that string |
| Args.QuoteUnquoteInt | util.go:26-34 | an int is quoted as its decimal text, which is a plain token that `unquote` reads back as the same int |
| Args.QuoteUnquote | util.go:26-65 | every argument that survives quoting is written as one token and read back as itself |
| Args.ArgsRoundTrip | util.go:42-77 | `unquotes(quotes(args)) == args` for every list of transparent arguments |
| Gsm0338.EncodeTableShape | util.go:89-143 | every escape-set character has an entry; escape-set entries are two characters led by 0x1B, all others one character |
| Gsm0338.EncodeTable | util.go:89-143 | the `gsm0338Encode` map, entry by entry; its shape is Gsm0338.EncodeTableShape |
| Gsm0338.DecodeTable | util.go:145-199 | the `gsm0338Decode` map without its commented-out escape entries; Gsm0338.DecodeInvertsEncode and Gsm0338.EncodeInvertsDecode relate it to the encode map |
| Gsm0338.DecodeInvertsEncode | util.go:89-199 | the decode table maps every single-character encode entry back to its key |
| Gsm0338.EncodeInvertsDecode | util.go:89-199 | every decode entry is a single-character encode entry read backwards |
| Gsm0338.EncodeCharShape | util.go:202-212 | a character encodes to two characters led by 0x1B if it is in the escape set, otherwise to one; an unmapped character passes through |
| Gsm0338.Encoded | util.go:202-212 | `gsmEncode` as the concatenation of per-character images; the loop is Gsm0338.GsmEncode, the inverse Gsm0338.RoundTripIff |
| Gsm0338.Decoded | util.go:215-229 | `gsmDecode` (and the exported `Decode`) preserves length and maps each character on its own |
| Gsm0338.GsmEncode | util.go:202-212 | the loop building `res` computes the concatenation of the per-character images |
| Gsm0338.GsmDecode | util.go:215-225 | the loop building `res` computes the per-character decoding |
| Gsm0338.ConcatAppend | util.go:202-212 | concatenating per-character images distributes over string concatenation |
| Gsm0338.EncodedAppend | util.go:202-212 | `gsmEncode(a + b) == gsmEncode(a) + gsmEncode(b)` |
| Gsm0338.EncodedLength | util.go:202-212 | the encoding is one character longer per extension character |
| Gsm0338.EncodedPointwise | util.go:202-212 | without extension characters the encoding maps each character to one character in place |
| Gsm0338.CharRoundTrip | util.go:145-225 | a one-character image decodes back exactly when the character round-trips |
| Gsm0338.RoundTripIff | util.go:145-229 | `gsmDecode(gsmEncode(s)) == s` exactly when every character of s round-trips: no extension characters, no collisions |
| Gsm0338.SingleByteRoundTrip | util.go:89-225 | for every single-byte key c, `gsmDecode(gsmEncode([c])) == [c]` |
| Gsm0338.ExtensionDoesNotRoundTrip | util.go:195-225 | '[' is sent as 0x1B '<' and decodes to 0x1B '<', because the escape decode entries are commented out |
| Ucs2.CharUnits | util.go:232-235 | a character of the Basic Multilingual Plane is one UTF-16 code unit, any other is two |
| Ucs2.Hex4 | util.go:232-235 | `%04x` on a code unit gives four lower-case hex digits |
| Ucs2.RemoveSpacesOfJoin | util.go:232-235 | removing the spaces from the space-separated groups runs the groups together |
| Ucs2.UnicodeEncodeIsHexText | util.go:232-235 | `unicodeEncode` is the four-digit groups of the UTF-16 code units, with no separators |
| Ucs2.UnicodeEncode | util.go:232-235 | `unicodeEncode` as `%04x` of the UTF-16 units with brackets and spaces removed; it is the grouped hex text (Ucs2.UnicodeEncodeIsHexText), decodable (Ucs2.UnicodeRoundTrip) and injective (Ucs2.UnicodeEncodeInjective) |
| Ucs2.UnicodeEncodeShape | util.go:232-235 | the output is four lower-case hex digits per code unit; it is empty exactly when the input is |
| Ucs2.UnicodeEncodeBmp | util.go:232-235 | within the BMP the output length is 4·\|s\|, and group i is the `%04x` of character i |
| Ucs2.Hex4RoundTrip | util.go:232-235 | four hex digits read back give the code unit |
| Ucs2.Utf16RoundTrip | util.go:232-235 | the UTF-16 code units decode back to the string |
| Ucs2.UnicodeRoundTrip | util.go:232-235 | the modem's reading of the hex text gives back the original string |
| Ucs2.UnicodeEncodeInjective | util.go:232-235 | distinct strings have distinct encodings |
| Packets.IsFinalStatus | gsm.go:190-195 | `isFinalStatus`: OK, ERROR or a line holding a +CMS/+CME error report; Packets.ErrorReportIsFinal and Packets.PlainLineIsNotFinal state which lines end a reply |
| Packets.ParsePacket | gsm.go:197-211 | `parsePacket`: a bare status, a header without colon, or a named reply; Packets.ParseStatusOnly, Packets.ParseNoColon, Packets.ParseHeader and Packets.ParseNoneOnlyZusimr state its cases |
| Packets.ParseNamed | gsm.go:212-294 | the switch on the reply name; Packets.ParseUnknownName and the per-name lemmas below state its cases |
| Packets.ParseCmgr | gsm.go:224-231 | a `+CMGR` reply: an empty second argument gives a bare body, otherwise status, telephone and the fourth argument's timestamp, each an unchecked assertion that can panic |
| Packets.ParseCmgl | gsm.go:232-250 | a `+CMGL` entry; Packets.CmglLast, Packets.CmglIntegerTelephone and Packets.CmglStringTelephone state its cases |
| Packets.ParseCpms | gsm.go:252-286 | a `+CPMS` reply; the query form is Packets.CpmsQueryGroups, the set form Packets.CpmsSetReply |
| Packets.ErrorReportIsFinal | gsm.go:190-195 | a line containing "+CMS ERROR" or "+CME ERROR" anywhere is a final status |
| Packets.PlainLineIsNotFinal | gsm.go:190-195 | a line that is neither OK nor ERROR and has no '+' never ends a reply |
| Packets.StrArg | gsm.go:216-249 | `args[k].(string)` succeeds exactly when the index exists and holds a string |
| Packets.IntArg | gsm.go:216-249 | `args[k].(int)` succeeds exactly when the index exists and holds an int |
| Packets.ParseTime | util.go:19-23 | the slice succeeds exactly when the field has three characters or more; the kept text is the field minus its last three |
| Packets.IntsOf | gsm.go:269-274 | at most one integer per argument |
| Packets.IntArguments | gsm.go:269-274 | the `iargs` loop collects the integer arguments in order |
| Packets.IntsOfAllInts | gsm.go:269-274 | when every argument is an int, all are kept in order |
| Packets.IntsOfNoInts | gsm.go:269-274 | non-integer arguments are skipped |
| Packets.ParseHeader | gsm.go:206-211 | a header with a colon is dispatched on the text before the first colon, with the trimmed rest unquoted as arguments |
| Packets.ParseStatusOnly | gsm.go:198-204 | an empty header with a final status gives OK when the status is "OK" and ERROR otherwise; so does an empty name (gsm.go:287-292) |
| Packets.ParseNoColon | gsm.go:206-209 | a header without a colon gives `UnknownPacket(header, [])` |
| Packets.ParseWithoutColon | gsm.go:206-209 | without a colon the parse always succeeds with a packet |
| Packets.ParseUnknownName | gsm.go:294 | a name the switch does not know gives `UnknownPacket(name, args)` |
| Packets.ParseNoneOnlyZusimr | gsm.go:213-215 | the parse delivers no packet only for a `+ZUSIMR` header |
| Packets.CmglLast | gsm.go:232-250 | a listing entry is marked last exactly when a final status ended it, and carries the body unchanged |
| Packets.CmglIntegerTelephone | gsm.go:233-240 | an integer third argument becomes its decimal text as the telephone, with no timestamp |
| Packets.CmglStringTelephone | gsm.go:241-249 | a string telephone takes its timestamp from the fifth argument; a missing fifth argument is a panic |
| Packets.CpmsSetReply | gsm.go:265-294 | six ints give StorageInfo in order; four are padded with two zeros; any other count gives UnknownPacket |
| Packets.CpmsUnwrap | gsm.go:253-264 | a parenthesised query reply loses its outer brackets and is cut at the first two "),("; fewer than three groups is an index panic |
| Packets.CpmsThreeTexts | gsm.go:252-264 | three groups without ')' in the first two give the storage areas read from each group in order |
| Packets.CpmsTwoTexts | gsm.go:259-263 | two groups leave `areas[2]` out of range, an index panic |
| Packets.CpmsQueryGroups | gsm.go:252-264 | the modem's query reply `("A",..),("B",..),("C",..)` for any three non-empty lists of storage names gives StorageAreas of exactly those lists |
| Packets.CpmsQueryOneGroup | gsm.go:259-263 | a query reply with one group of names panics on `areas[1]` |
| Packets.CpmsQueryTwoGroups | gsm.go:259-263 | a query reply with two groups of names panics on `areas[2]` |
| Command.FormatCommand | gsm.go:357-364 | `formatCommand`: "AT", the command, "=" and `quotes(args)` when there are arguments, then CR LF; the shape is Command.FormatCommandShape and the modem's reading Command.FormatCommandRoundTrip |
| Command.FormatCommandShape | gsm.go:357-364 | the line starts with "AT" and the command and ends with CR LF; "=" and `quotes(args)` follow exactly when there are arguments; it fails exactly when an argument cannot be quoted |
| Command.ReadFramedAssignment | gsm.go:357-364 | a framed line with "=" is read as the command name and the unquoted arguments |
| Command.ReadFramedBare | gsm.go:357-364 | a framed line without "=" is read as a command without arguments |
| Command.FormatCommandRoundTrip | gsm.go:357-364 | the modem reads a formatted command back as the same name and arguments |
| Command.UpperRun | gsm.go:337-340 | the greedy `[A-Z]+`: a prefix of capitals that stops at the end or at a non-capital |
| Command.FirstQuestion | gsm.go:337-340 | a found offset is a match of `AT\+[A-Z]` |
| Command.Question | gsm.go:337-340 | the submatch is "+" followed by at least one character |
| Command.FirstQuestionIsLeftmost | gsm.go:188 | the found match is the leftmost one, and nothing found means no offset matches |
| Command.QuestionOfFormattedCommand | gsm.go:357-364 | matched by `reQuestion` (gsm.go:188), the line of a command named "+" and capitals gives exactly that name back |
| Command.QuestionWithoutPlus | gsm.go:188 | a line without '+' never matches |
| Engine.LineOf | gsm.go:176-180 | the per-line rule of `lineChannel`: trim CR and LF, drop what is left empty; its laws are Engine.LineOfShape and Engine.LineOfTerminated |
| Engine.LineOfShape | gsm.go:176-180 | a raw line is handed on exactly when it has a character other than CR and LF; what is handed on is a non-empty prefix that does not end in CR or LF, and only CR and LF were cut |
| Engine.LineOfTerminated | gsm.go:176-180 | a line ended by any mix of CR and LF is handed on as it was sent |
| Engine.LineChannel | gsm.go:171-186 | the reading loop hands on the trimmed non-empty lines in order |
| Engine.LinesSnoc | gsm.go:171-186 | one more raw line adds at most its own trimmed line at the end |
| Engine.LinesAppend | gsm.go:171-186 | two stretches of raw lines are handled independently |
| Engine.LinesAreTrimmed | gsm.go:176-180 | nothing reaching `listen` is empty or ends in CR or LF |
| Engine.Receive | gsm.go:300-333 | one pass of the `listen` loop for a received line; its cases are Engine.ReceiveEcho, Engine.ReceiveContinuation, Engine.ReceiveFinalStatus, Engine.ReceiveBodyLine and Engine.ReceiveOutOfBand |
| Engine.ReceiveEcho | gsm.go:304-305 | the echo of the last sent line changes nothing and delivers nothing |
| Engine.ReceiveContinuation | gsm.go:306-313 | a line starting with the expected name flushes the pending reply (status "") only if a header is pending, then becomes the header with an empty body |
| Engine.ReceiveFinalStatus | gsm.go:314-318 | a final status delivers exactly one packet, the pending reply parsed with that status, and clears header and body; it panics exactly when that parse does |
| Engine.ReceiveBodyLine | gsm.go:319-321 | inside a reply any other line is appended to the body verbatim |
| Engine.ReceiveOutOfBand | gsm.go:322-333 | outside a reply any other line leaves the state as it was and delivers nothing; "> " is never parsed; any other line panics exactly when its parse does |
| Engine.ReceiveFrame | gsm.go:304-333 | a received line never changes `echo` or `last`, and delivers at most one packet |
| Engine.ReceiveKeepsValid | gsm.go:304-333 | receiving keeps the invariant: no body without a header, `last` empty or "+" and more, `echo` without a line end |
| Engine.Transmit | gsm.go:335-342 | one pass of the `listen` loop for a sent line; Engine.TransmitCommand, Engine.TransmitPlain and Engine.TransmitKeepsValid state what it changes |
| Engine.TransmitCommand | gsm.go:335-342 | sending a formatted `+NAME` command makes `+NAME` the expected reply and the line without CR LF the echo (the line as `formatCommand` writes it, gsm.go:357-364) |
| Engine.TransmitPlain | gsm.go:335-342 | a sent line without a command name changes only the echo |
| Engine.TransmitKeepsValid | gsm.go:335-342 | sending keeps the invariant |
| Engine.EchoIgnored | gsm.go:304-341 | the modem's echo of a sent line, after the line rule, is ignored |
| Engine.Run | gsm.go:297-355 | the `listen` loop over received lines, stopping at the first panic; Engine.RunAppend, Engine.RunAfterPanic and Engine.MultiReply state its behaviour |
| Engine.RunAppend | gsm.go:297-355 | running two stretches of lines in a row is the run of their concatenation; a panic stops it |
| Engine.RunAfterPanic | gsm.go:297-355 | after a panic no further line is looked at |
| Engine.BodyLines | gsm.go:319-321 | inside a reply, plain lines are collected into the body in order and deliver nothing |
| Engine.SingleReply | gsm.go:306-321 | header, plain body lines and a final status deliver exactly one packet, parsed from the header and the joined body, and leave nothing pending |
| Engine.PendingAnswer | gsm.go:306-321 | with a reply pending, each further header delivers the reply before it, and the final status delivers the last one |
| Engine.MultiReply | gsm.go:306-321 | a listing of several replies delivers one packet per reply, in order, the last one with the final status |
| Engine.Listener.constructor | gsm.go:297-299 | the loop starts with all four strings empty, nothing delivered and nothing written, so the invariant Engine.Valid holds |
| Engine.Listener.OnLine | gsm.go:304-333 | one received line moves the fields to the step function's state and appends its delivery to `rx`; on a panic the fault is returned and nothing changes; Engine.Valid is kept |
| Engine.Listener.OnTx | gsm.go:335-342 | one sent line updates the echo and the expected name and is written to the port unchanged; Engine.Valid is kept |
| Engine.Listener.Listen | gsm.go:297-355 | the loop over received lines is the run of the step function, stopping at the first panic; Engine.Valid is kept |
| Modem.Response | gsm.go:366-385 | the reply is an error exactly when it is ERROR; otherwise it is returned unchanged |
| Modem.IntegerRequest | gsm.go:378-385 | a request with one int writes the command, "=" and its decimal text |
| Modem.StringRequest | gsm.go:378-385 | a request with one string writes it in double quotes, except "?" which is written bare |
| Modem.GetMessage | gsm.go:78-88 | succeeds exactly when the reply is a message and returns it; ERROR and other packets fail differently |
| Modem.SupportedStorageAreas | gsm.go:133-142 | succeeds exactly when the reply lists storage areas and returns them |
| Modem.Acknowledged | gsm.go:144-159 | DeleteMessage and SendMessage fail exactly when the reply is ERROR |
| Modem.SendMessageLines | gsm.go:149-159 | the lines `SendMessage` writes; Modem.SendMessageUcs2 and Modem.SendMessageGsm state them per mode |
| Modem.SendMessageUcs2 | gsm.go:149-159 | in UCS2 mode the quoted hex number and the hex body ended by Ctrl-Z are written, and the modem can decode both back to the originals |
| Modem.SendMessageGsm | gsm.go:149-159 | in GSM mode the number, quoted unless "?", and the unconverted body ended by Ctrl-Z are written |
| Modem.ListMessages | gsm.go:107-131 | the loop appending messages computes the listing function of the packets taken from `rx` |
| Modem.CollectedShape | gsm.go:117-130 | a successful listing is the leading replies read as messages, in arrival order, ending at the first marked last |
| Modem.CollectedOfListing | gsm.go:117-130 | messages of which only the last is marked are collected exactly, whatever follows |
| Modem.Messages | gsm.go:117-130 | the packets carrying the messages, in order |
| Modem.CollectedFailure | gsm.go:117-130 | without a last message the request waits; any other failure comes from a non-message packet |
| Modem.Listed | gsm.go:107-131 | `ListMessages` as a function of the packets taken from `rx`; Modem.ListedFirstReply and Modem.CollectedShape state its cases |
| Modem.ListedFirstReply | gsm.go:108-116 | a bare OK is the empty listing, ERROR fails the request, no packet is an unexpected error |

## Left out

- Concurrency and blocking are not part of this model. This covers the `rx`, `tx` and `OOB` channels, the goroutines of `lineChannel` and `listen`, and the blocking receive of `send`/`sendBody`. `listen` is a single-threaded step class. A request that would block on `rx` fails with `AwaitingReply`.
- `Open`, `Close`, the serial port and bufio byte-level reading are not modelled. Only the per-line rule is kept; `LineChannel` takes the raw lines as a parameter.
- `init`, `setSMSC`, `ChangeToUCS2`, `ChangeToGSM`, `GetMessagePDU` and `SendMessagePDU` are not modelled. They are sequences of `time.Sleep` and round trips that set process-wide globals. `EncodeMode` is a parameter.
- `time.Sleep`, `log.Println`, the `Debug` flag and `LogReadWriteCloser` are not modelled. They are timing and diagnostic I/O.
- `time.Parse` is not modelled. A timestamp keeps the field's text without its last three characters.
- `regexp`, `fmt.Sprintf` and `utf16.Encode` are written out as scanners and functions rather than used as libraries.
- Packets.ParsePacket: the parser of `Receive` is a function parameter. So the step laws in `Engine` hold for any parser, and the `Listener` uses `ParsePacket`.
- Engine.Listener.OnLine: a parse panic, which ends the Go process, returns the fault and leaves the fields unchanged.
- Ucs2.UnicodeDecode: the modem's reading of UCS2 text is the inverse used to state the round trip. It is not code of the package.
- Command.ReadCommandLine: the modem's reading of a command line is the inverse used to state the round trip. It is not code of the package.
- Packets.ParseTime: Go strings are bytes and `t[:len(t)-3]` cuts three bytes; the model's strings are characters and it cuts three characters. The two differ only when the last three bytes are not three ASCII characters.
- Text.Index: offsets are counted in characters, not in bytes as Go's `strings.Index` counts them. Every separator the driver searches for is ASCII, so which offsets are found and where the input is cut agree.
