# xmt: connection hints, the C2 server registry and template matchers

This project models two pieces of the xmt C2 framework in Dafny and proves
properties about them.

The first piece is the `Server` of `c2/server.go`:

- `convertHintConnect` and `convertHintListen`, which turn the compact
  connection hint of a `Profile` into a transport;
- the registry of active listeners that `Listen`, the event loop, `Close` and
  `shutdown` maintain;
- the decisions `ConnectWith` and `Oneshot` take around the transport calls.
  These are choosing the connector, the hello packet and its flags, the
  session's sleep, jitter and queue sizes, the error returned at each step,
  and closing the connection exactly once.

The second piece is the template `Matcher` of `util/text/matcher.go`. A template
is text with placeholders `%[N[f]]verb`:

- `String` replaces each placeholder with generated text.
- `Match` builds a regular expression meant to accept every string `String` can
  produce.
- `UnMatch` builds one meant to accept none of them.

The placeholder search (`FindAllStringSubmatchIndex` of
`(\%(\d+f?)?[dhcsuln])`) is written out as a deterministic scanner. It is proved
to find exactly the placeholders, leftmost first and without overlap. The
pattern text `MatchEx` builds is modelled character for character. Its meaning
is a list of atoms that the anchored pattern matches in sequence: a quoted
literal, a character class with a repetition, or a placeholder copied as
written. `regexp.Compile` is modelled as failing when a counted repetition
exceeds 1000 or when the pattern is not well-formed UTF-8 (`ErrInvalidUTF8`),
and the source then returns the false matcher. Quoting only adds ASCII in front
of ASCII, so the pattern is well formed exactly when the template is.

Modules:

- `Numerals`: `strconv.Itoa`, `strconv.FormatInt(_, 16)` and `strconv.Atoi`.
- `Utf8`: `utf8.ValidString`, and how it behaves when text is put together.
- `TextScan`: the placeholder scanner, the fields of a match, and how a
  template falls apart into gaps and placeholders.
- `TextRender`: `String`.
- `TextRegexp`: `MatchEx`, `Match`, `UnMatch`, quoting, and the meaning of a
  pattern.
- `TextProofs`: how the patterns relate to the renderings.
- `C2Hint`: the two hint decoders and the WC2 hint layout.
- `C2Server`: the `Server` class, `ConnectWith` and `Oneshot`.

## Model

| member | source | states |
|---|---|---|
| Numerals.Decimal | util/text/matcher.go:100 | `strconv.Itoa` of a count is a non-empty run of decimal digits, with a leading zero only for 0 |
| Numerals.Hex | util/text/matcher.go:102 | `strconv.FormatInt(v, 16)` is a non-empty run of lower-case hexadecimal digits |
| Numerals.DecimalRoundTrip | util/text/matcher.go:187 | parsing the count text `strconv.Itoa(v)` gives v back |
| Numerals.HexRoundTrip | util/text/matcher.go:102 | parsing the hexadecimal a fixed `%Nfh` writes gives N back |
| Numerals.AtoiOfDecimal | util/text/matcher.go:76-87 | `strconv.Atoi` reads back the count `strconv.Itoa` wrote whenever it fits a 64-bit `int`, and reports the range error for every larger count |
| TextScan.DigitsEnd | util/text/matcher.go:21 | the greedy `\d+` run from j ends at the first non-digit |
| TextScan.PlaceholderAt | util/text/matcher.go:21 | a match reported at position i starts at i and is a well-formed match of the expression |
| TextScan.WellFormedIsPlaceholder | util/text/matcher.go:21 | the text of every reported match is a placeholder `%(\d+f?)?[dhcsuln]` |
| TextScan.PlaceholderAtSound | util/text/matcher.go:21 | what the scanner reports at i is a placeholder |
| TextScan.PlaceholderAtComplete | util/text/matcher.go:21 | every placeholder that starts at i is the one the scanner reports, with the same end |
| TextScan.PlaceholderUnique | util/text/matcher.go:21 | two placeholders starting at one position have the same end, so leftmost-first matching has no choice to make |
| TextScan.ScanFrom | util/text/matcher.go:63 | the match list is well formed, ordered and non-overlapping, and no placeholder starts in the text it skips |
| TextScan.Scan | util/text/matcher.go:63 | the list `FindAllStringSubmatchIndex(s, -1)` returns is the leftmost non-overlapping list of placeholders of s |
| TextScan.ScanEmptyIff | util/text/matcher.go:64-66 | the match list is empty exactly when no substring of the template is a placeholder |
| TextScan.FixedNeedsDigits | util/text/matcher.go:21 | `%fd` holds no placeholder, because the `f` flag needs a digit before it |
| TextScan.UnknownVerb | util/text/matcher.go:21 | `%5fx` holds no placeholder, because `x` is not a verb |
| TextScan.CountDigits | util/text/matcher.go:77-81 | the text handed to `strconv.Atoi` is the count's digits, without the `f` |
| TextScan.CountValue | util/text/matcher.go:76-87 | v is the count's value, or -1 when there is no count or `strconv.Atoi` reports a range error |
| TextScan.InterleaveAt | util/text/matcher.go:124-126 | piece 2x is the literal gap before match x and piece 2x+1 the string written for it |
| TextScan.InterleaveStep | util/text/matcher.go:124-126 | one more round appends exactly one gap and one replacement to the output |
| TextScan.TemplatePiecesPrefix | util/text/matcher.go:124-126 | the gaps and placeholders up to match k put together are the template up to the cursor after match k |
| TextScan.TemplateDecomposes | util/text/matcher.go:124-130 | the gaps, the placeholders and the tail put together are exactly the template |
| TextRender.Replace | util/text/matcher.go:88-123 | the sixteen cases of the `switch` of `String`, tried in order, give the content of the fill that the table `FillOf` assigns to the verb, the `f` flag and the count: fixed text of v characters, text of 1 to v characters, the fixed number v, a random number, or the placeholder as written |
| TextRender.Substitute | util/text/matcher.go:72-130 | the loop writes gap, replacement, ..., gap, replacement, then the tail |
| TextRender.String | util/text/matcher.go:59-135 | `String` returns the rendering, and returns an empty template unchanged |
| TextRender.RenderShape | util/text/matcher.go:124-130 | the output pieces are the gaps copied verbatim and in order, each placeholder's own replacement, and the tail last |
| TextRender.NoPlaceholderUnchanged | util/text/matcher.go:63-66 | a template without placeholders is returned unchanged |
| TextRender.EmptyUnchanged | util/text/matcher.go:60-62 | the empty template is returned unchanged |
| TextRender.AsWrittenIff | util/text/matcher.go:89-122 | a placeholder falls through to `default` exactly when its verb is a letter verb and its count is absent or at most 0 |
| TextRender.FixedNumberRendering | util/text/matcher.go:99-102 | `%Nfd` writes the decimal of N and `%Nfh` its hexadecimal, whatever the generators return, and both parse back to N |
| TextRender.AllAsWrittenRendersTemplate | util/text/matcher.go:121-130 | when every placeholder falls through to `default`, `String` returns the template itself |
| TextRegexp.QuoteMetaRoundTrip | util/text/matcher.go:160 | unquoting `regexp.QuoteMeta(t)` gives t back |
| TextRegexp.QuoteLiteralRoundTrip | util/text/matcher.go:230 | quoting a gap and then escaping its slashes loses nothing: unquoting gives the gap back |
| TextRegexp.EscapedChar | util/text/matcher.go:230 | one quoted, slash-escaped character is one plain character or one escape, and reads back as itself |
| TextRegexp.PlaceholderPattern | util/text/matcher.go:192-229 | the cases of the `switch` of `MatchEx`, tried in order, write exactly the text of the atom that the table `AtomOf` assigns (an unbounded class, a class repeated exactly or at most v times, or the placeholder as written), negated by `^` for `UnMatch` |
| TextRegexp.ClassRanges | util/text/matcher.go:194-216 | the class each verb writes: `0-9` for `d` and `n`, `a-fA-F0-9` for `h`, `a-zA-Z` for `c`, `A-Z` for `u`, `a-z` for `l`, `a-zA-Z0-9` for `s` |
| TextRegexp.CountOf | util/text/matcher.go:178-191 | v is the count value, q is `strconv.Itoa(v)` whenever v > 0, and q is carried over from the previous match when there is no count |
| TextRegexp.PatternOf | util/text/matcher.go:178-231 | one round of the loop computes the gap, the match's atom and the text written for it |
| TextRegexp.PatternLoop | util/text/matcher.go:171-233 | after the loop, the builder holds `^(` and the text of the gap and placeholder atoms, and the cursor is after the last match |
| TextRegexp.BuildPattern | util/text/matcher.go:171-237 | the builder holds `^(`, the text of all atoms with the quoted tail last, then `)$` |
| TextRegexp.MatchEx | util/text/matcher.go:151-244 | `MatchEx(o)` returns the false matcher for an empty template; without placeholders it returns the inverse matcher for `o == false` and, for `o == true`, a pattern that compiles exactly when the template is well-formed UTF-8 and then accepts exactly the template; a template that is not well-formed UTF-8 gets the false matcher whenever a pattern is compiled for it; otherwise the result is the compiled pattern of the template's atoms |
| TextRegexp.MatchSource | util/text/matcher.go:142-147 | `String()` of the result of `MatchEx` is "false" for the false matcher, the template for the inverse matcher, and otherwise the pattern text that was compiled: the quoted template `^(...)$` without placeholders, the text `BuildPattern` writes with them |
| TextRegexp.Match | util/text/matcher.go:54-56 | `Match` is `MatchEx(true)` |
| TextRegexp.UnMatch | util/text/matcher.go:139-141 | `UnMatch` is `MatchEx(false)` |
| TextRegexp.PatternPiecesAt | util/text/matcher.go:230-231 | atom 2x of the pattern is the quoted gap before match x and atom 2x+1 the match's own atom |
| TextRegexp.LiteralAcceptsExactly | util/text/matcher.go:160 | the quoted template without placeholders matches itself and nothing else |
| TextRegexp.AcceptsPieces | util/text/matcher.go:237-238 | atoms that each accept their own piece accept the pieces put together, in order |
| TextRegexp.RejectsAtNegatedClass | util/text/matcher.go:171-173 | exact atoms followed by a negated class reject any string whose next piece starts inside that class |
| TextRegexp.AtomOfShape | util/text/matcher.go:192-229 | `d` and `h` give unbounded classes; a letter class is always bounded and never empty; a placeholder is copied as written exactly when `String` leaves it as written |
| TextProofs.ReplacementMatched | util/text/matcher.go:88-123 | each replacement `String` writes is accepted by the atom `Match` writes for it; a filled one is non-empty, starts inside its class, and `UnMatch` negates that class |
| TextProofs.PatternAtomsAt | util/text/matcher.go:230-235 | the pattern is a quoted gap and an atom per match, then the quoted tail |
| TextProofs.PiecesOfAt | util/text/matcher.go:124-130 | the output is a gap and a replacement per match, then the tail |
| TextProofs.PiecesMatchedOf | util/text/matcher.go:52-56 | atom i of `Match`'s pattern accepts piece i of any output, and so does `UnMatch`'s when every placeholder is left as written |
| TextProofs.PairMatched | util/text/matcher.go:124-125 | the atoms for gap x and placeholder x accept the gap and the replacement |
| TextProofs.AsWrittenAtomsExact | util/text/matcher.go:227-228 | when every placeholder is left as written, every atom of `UnMatch`'s pattern is exact text |
| TextProofs.WithinLimitIff | util/text/matcher.go:238-242 | the pattern keeps the repetition limit exactly when no letter placeholder's count exceeds 1000 |
| TextProofs.LetterAtomCount | util/text/matcher.go:197-216 | a letter placeholder with a positive count repeats its class exactly, or at most, that many times |
| TextProofs.LimitsKept | util/text/matcher.go:238-242 | counts of at most 1000 keep every atom within the limit |
| TextProofs.PairKept | util/text/matcher.go:197-216 | the atoms of gap x and placeholder x keep the limit |
| TextProofs.AtomKept | util/text/matcher.go:197-216 | a case with count at most 1000 gives an atom within the limit |
| TextProofs.PairExact | util/text/matcher.go:227-228 | a placeholder left as written gives two exact atoms whose texts are the gap and the placeholder `String` writes |
| TextProofs.AsWrittenReplacement | util/text/matcher.go:121-122 | a placeholder left as written is replaced by its own text |
| TextProofs.AsWrittenAtom | util/text/matcher.go:227-228 | a placeholder left as written is copied as it is into `UnMatch`'s pattern |
| TextProofs.FilledRejected | util/text/matcher.go:193-226 | a filled placeholder gives a negated non-empty class, and its replacement starts with a character of that class |
| TextProofs.RejectsFirstFilled | util/text/matcher.go:137-141 | `UnMatch`'s pattern rejects the output when some placeholder is filled |
| TextProofs.ScanFacts | util/text/matcher.go:63 | the output pieces of `String` are those of the template's own match list |
| TextProofs.MatchAcceptsEveryRendering | util/text/matcher.go:52-56 | `Match()` accepts every string `String()` can produce, whenever its pattern compiles |
| TextProofs.MatchCompiles | util/text/matcher.go:238-242 | the pattern of a template with placeholders compiles exactly when no letter count exceeds 1000 and the template is well-formed UTF-8 |
| TextProofs.UnMatchAcceptsAsWrittenRendering | util/text/matcher.go:137-141 | as written, `UnMatch()` of a well-formed UTF-8 template whose placeholders are all left as written accepts the string `String()` returns for it |
| TextProofs.AsWrittenAccepted | util/text/matcher.go:227-243 | the atoms of `UnMatch` for placeholders left as written compile and accept the output |
| TextProofs.AsWrittenFits | util/text/matcher.go:121-122 | a placeholder left as written draws no random text |
| TextProofs.PercentN | util/text/matcher.go:21 | `%n` is one placeholder, it is left as written, and the template is well-formed UTF-8 |
| TextProofs.UnMatchCorrectedRejectsEveryRendering | util/text/matcher.go:137-141 | the corrected `UnMatch()` accepts no string `String()` can produce |
| Utf8.RuneLength | util/text/matcher.go:238 | a rune of well-formed UTF-8 has length 1 exactly when it is an ASCII byte, and never runs past the text |
| Utf8.AsciiPrefix | util/text/matcher.go:230 | ASCII text in front of any text neither makes it well formed nor breaks it |
| Utf8.ValidAppend | util/text/matcher.go:230-237 | text followed by text that starts with ASCII is well formed exactly when both parts are |
| Utf8.MapCharsValid | util/text/matcher.go:160 | rewriting that keeps non-ASCII characters and turns ASCII into non-empty ASCII keeps text well formed, and keeps it ill formed |
| Utf8.ValidWeave | util/text/matcher.go:174-237 | pieces alternating with non-empty ASCII pieces are well formed together exactly when every other piece and the last are |
| TextRegexp.QuoteMetaChars | util/text/matcher.go:160 | `regexp.QuoteMeta` rewrites the text one character at a time |
| TextRegexp.EscapeSlashChars | util/text/matcher.go:230 | escaping slashes rewrites the text one character at a time |
| TextRegexp.QuotedValid | util/text/matcher.go:230 | quoting a gap, and escaping its slashes, keeps it well-formed UTF-8 exactly when it was |
| TextRegexp.RawAscii | util/text/matcher.go:227-228 | a placeholder's text is non-empty ASCII |
| TextRegexp.AtomAscii | util/text/matcher.go:192-228 | the text written for every placeholder is non-empty ASCII |
| TextRegexp.AnchoredValid | util/text/matcher.go:160 | wrapping a pattern in `^(` and `)$` keeps it well formed exactly when it was |
| TextRegexp.LiteralSourceValid | util/text/matcher.go:160 | the pattern of a template without placeholders is well-formed UTF-8 exactly when the template is |
| TextRegexp.PatternSourceValid | util/text/matcher.go:171-238 | the pattern of a template with placeholders is well-formed UTF-8 exactly when the template is |
| TextRegexp.EmitAllJoined | util/text/matcher.go:230-237 | the pattern text is the atoms' texts one after the other |
| TextProofs.MatchRejectsEmptyRendering | util/text/matcher.go:152-154 | as written, `Match()` of the empty template rejects the empty string `String()` returns for it |
| TextProofs.MatchCorrectedAcceptsEveryRendering | util/text/matcher.go:52-56 | without the empty-template guard, `Match()` compiles for "" and accepts every rendering of every template whose pattern compiles |
| TextProofs.FirstFilled | util/text/matcher.go:174-233 | when some placeholder is filled, there is a first one |
| C2Hint.TextRoundTrip | c2/server.go:149-158 | the bytes of `string(b)` are b: the conversion loses nothing |
| C2Hint.TextInjective | c2/server.go:149-158 | different byte runs give different matchers |
| C2Hint.RunText | c2/server.go:148-159 | each of the three runs the decoder reads, empty or not, is the text of its bytes |
| C2Hint.Word | c2/server.go:143-144 | a length read from two bytes fits 16 bits |
| C2Hint.ConvertWC2 | c2/server.go:139-160 | a WC2 hint that decodes names a WC2 client; `s[6]` is bounded by the length, the three slices by the capacity |
| C2Hint.ConvertHintConnect | c2/server.go:120-163 | an empty hint names no connector, and a decoded connector is always one of the hint transports |
| C2Hint.ConvertHintListen | c2/server.go:172-188 | an empty hint names no listener, and a decoded one is ICMP, IP, UDP or TCP |
| C2Hint.WC2Setting | c2/server.go:139-158 | a written WC2 hint is the header and the three texts |
| C2Hint.WC2RoundTrip | c2/server.go:139-160 | decoding a written WC2 hint gives back its agent, URL and host, whatever follows them and whatever spare capacity the slice has |
| C2Hint.ConvertWC2Reads | c2/server.go:139-160 | a WC2 hint whose lengths fit its capacity decodes to the three runs after the header, read from the backing array, in the order agent, URL, host |
| C2Hint.WC2ReadsPastLength | c2/server.go:148-150 | a seven-byte hint whose agent length runs past `len(s)` but not past `cap(s)` decodes, taking the agent from the spare bytes of the backing array |
| C2Hint.WC2PanicIff | c2/server.go:140-158 | a WC2 hint panics exactly when it is shorter than seven bytes or its lengths overrun its capacity (its length plus the spare bytes of its backing array) |
| C2Hint.WC2Decomposes | c2/server.go:139-160 | a WC2 hint whose lengths fit its length is the written form of the texts it decodes to, then ignored bytes, whatever its spare capacity |
| C2Hint.WC2Split | c2/server.go:140-158 | a hint whose lengths fit it is its header, its three texts and the rest |
| C2Hint.WC2EmptyPanics | c2/server.go:140 | a WC2 hint with three empty texts panics on `s[6]`, whatever its capacity |
| C2Hint.NoHintIff | c2/server.go:120-188 | both decoders name no connector exactly for an empty hint or a tag they do not know |
| C2Hint.IPHint | c2/server.go:125-129 | protocol byte 1 is ICMP, any other byte is IP over it with the default sleep, a one-byte hint panics, and both decoders agree |
| C2Hint.TLSHint | c2/server.go:134-138 | a one-byte TLS hint is TLS and a longer one TLS without certificate checks; listeners do not know the tag |
| C2Hint.ListenAgrees | c2/server.go:172-188 | the listener decoder equals the client decoder on the IP, UDP and TCP tags and names nothing otherwise |
| C2Server.ToLower | c2/server.go:326 | `strings.ToLower` keeps the length, leaves no upper-case letter and changes only upper-case letters |
| C2Server.ToLowerIdempotent | c2/server.go:326-328 | lower-casing a lower-cased name changes nothing |
| C2Server.ResolveListen | c2/server.go:320-325 | no listener exactly when none is given and the profile's hint names none; a given one is used as is |
| C2Server.ResolveConnect | c2/server.go:373-378 | no connector exactly when none is given and the profile's hint names none; a given one is used as is |
| C2Server.Server.constructor | c2/server.go:228-245 | a new server has no listeners and is active |
| C2Server.Server.IsActive | c2/server.go:102-104 | a server that is no longer active holds no listener |
| C2Server.Server.Listen | c2/server.go:319-360 | each error arises exactly in its case; on success the registry gains the listener under its lower-cased name, with the default size when none is set |
| C2Server.Server.ListenerClosed | c2/server.go:67-68 | a listener that closes is removed from the registry |
| C2Server.Server.Shutdown | c2/server.go:74-99 | every active listener is closed, the registry is drained to empty, and the server stops being active |
| C2Server.HangupsAppend | c2/server.go:383 | counting closes is additive |
| C2Server.ConnectWith | c2/server.go:372-428 | each error arises exactly in its case; once connected, the calls are exactly dial, the write of the hello packet, the read when the write succeeds, and one close at the end, each write and read with the profile's wrapper and transform; the hello packet is `MvHello` with the device id, the job taken from the random number, the machine description and, with `FlagData`, the data exactly when data is given; a session takes the profile's wrapper, transform, sleep, jitter and size or the defaults |
| C2Server.Oneshot | c2/server.go:287-315 | once connected, the calls are exactly dial, one write with the profile's wrapper and transform, and one close, whether or not the write succeeds; the packet written is the given one, with its id, device, job and payload kept, or an empty `MvNop`, with `FlagOneshot` added to its flags; the result is the write's error |

## Left out

- Goroutines and channels are not modelled as concurrency. The event loop's
  handling of `new` and `close` happens in the same step as the call that sends
  the message (`Listen`, `ListenerClosed`). `Close` and `shutdown` are one step
  (`Shutdown`).
- The transports are not modelled: `Connect`, `Listen`, `writePacket`,
  `readPacket` and closing a connection. What they return is a parameter, and
  the calls made are returned as a list. The listener and session goroutines
  (`l.listen()`), the session's context, socket function, fragment map and
  `DefaultClientMux` are not modelled.
- Where a profile's hint slice comes from is not part of this model. The bytes
  of its backing array between its length and its capacity are a parameter
  (`Profile.hintSpare`), because the WC2 decoder's slices can reach them.
- `device.UUID` and `util.FastRand` are parameters. The machine description
  `device.Local.Machine` is a marker record. `Wrapper` and `Transform` values
  are opaque handles.
- Oneshot: the source sets `FlagOneshot` on the caller's packet in place. The
  model writes a marked copy and does not model the caller seeing the change.
- Shutdown requires that the names the closing listeners send back include every
  active name. The source relies on this without checking it; if a listener never
  sends its name, `shutdown` blocks.
- The logger, `EnableRPC`, `MarshalJSON`, `Connected`, `Wait`, the
  package-level default server and the `*Quick` and package-level wrappers are
  not modelled. They only log or delegate to the modelled methods.
- Channel capacities are not modelled: the queues of a session are one number,
  the capacity, equal for both.
- The package constants are not part of this model: `ipID`, `udpID`, `tcpID`,
  `tlsID`, `wc2ID`, the packet ids, `DefaultSleep`, `DefaultJitter` and
  `limits.MediumLimit()`. They are fields of a `Constants` value. Where the
  decoders' `switch` is relied on, the tags are assumed pairwise different, as
  Go requires of constant cases.
- `util.Rand`, `util.FastRand` and `util.FastRandN` are not part of this
  model. They are oracles indexed by placeholder number. What is relied on of
  the text generators is `Fits`: a fixed generator returns exactly v characters
  of its class, and a range generator between 1 and v.
- Go strings are byte strings; here one `char` stands for one byte. `ToLower`
  handles ASCII letters only.
- RE2 is replaced by the meaning of the atoms the pattern text is built from.
  The compile errors modelled are the repetition limit of 1000 and a pattern
  that is not well-formed UTF-8. The other limits (program size, nesting) are
  not modelled.
- A negated class such as `[^0-9]` is modelled as rejecting one byte. RE2
  matches it against one rune, which for non-ASCII input is two to four bytes.
- Matching compares bytes. Go reads an ill-formed byte of the input as U+FFFD,
  so a template holding U+FFFD also matches inputs with an ill-formed byte in
  its place; the model does not capture this.
- The `sync.Pool` of builders is not modelled: each call uses a fresh builder.
- The check `m[x][0] < 0 || m[x][1] < m[x][0]` in both loops is not modelled.
  The scanner never reports such a match.
- MatchAcceptsEveryRendering: requires that the pattern compiles. A letter count
  above 1000 makes `Match()` the false matcher, which accepts nothing
  (`MatchCompiles`).
- MatchAcceptsEveryRendering: does not cover the empty template. `Match()` of ""
  is the false matcher, which rejects the "" that `String()` returns (see
  "## Findings").
- The loop of `MatchEx` is split into `PatternOf` (one round), `PatternLoop`
  (the rounds) and `BuildPattern` (the tail). `CountOf` and `PlaceholderPattern`
  are the two halves of a round.

## Findings

| source | as written | input that shows it | evidently intended | confidence | as-written member | corrected member |
|---|---|---|---|---|---|---|
| util/text/matcher.go:137-141 | for a well-formed UTF-8 template, `UnMatch` builds a pattern in which placeholders that `String` leaves as written are copied verbatim; when every placeholder is like that, the pattern accepts the template, which is exactly what `String` returns | the template `%n` (`PercentN`): `String()` returns `%n`, and `UnMatch()` accepts `%n` | `UnMatch()` accepts no string `String()` can produce; here, return the inverse matcher of the template, as for a template without placeholders | not executed | TextProofs.UnMatchAcceptsAsWrittenRendering | TextProofs.UnMatchCorrectedRejectsEveryRendering |
| util/text/matcher.go:152-154 | `MatchEx` returns the false matcher for the empty template before anything else, so `Match()` of "" accepts nothing | the template "" (`MatchRejectsEmptyRendering`): `String()` returns "", and `Match()` rejects "" | `Match()` accepts every string `String()` can produce, "" included; dropping the guard for `o == true` gives the pattern `^()$` | not executed | TextProofs.MatchRejectsEmptyRendering | TextProofs.MatchCorrectedAcceptsEveryRendering |
