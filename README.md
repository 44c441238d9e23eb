# whisper — a verified model of the input loop and address selection

whisper is a small chat program written in Go. Its library reads lines
typed by the user and passes each trimmed line, as a message body, to
`Client.Send`; separately, `ExternalIP` looks up the host's first external
IPv4 address. This project models, in Dafny, the three pieces of sequential
logic at the library's core, and proves what they promise.

- **Reading input and the input loop** (handler.go; the input handler is
  repeated verbatim in whisper.go).
  - `InputHandler.ReadLine` takes the next line from a scanner and trims
    its white space.
  - A line that spells `exit` or `quit` in any letter case becomes the
    user-exit error (code 0). A scanner that has stopped gives the
    read-failure error (code 1). Any other line comes back as a message
    body.
  - `Client.Handle` loops: it reads a body and sends it, until the first
    error from either reading or sending. It then puts that error on a
    channel, closes the channel and returns.
  - The scanner is a class over a finite sequence of lines. Go's scanner
    stops for good at end of input or on a read error. `ReadLine` never
    calls the scanner's `Err()`, so both cases give the code-1 error, and a
    failing source is modelled as the lines it delivered before failing.
  - `Send` is an oracle: `send(k, body)` is the outcome of the `k`-th send.
  - The error channel is a class holding the errors put on it and a closed
    flag.
  - `Session` is a function giving the whole run of the loop: the bodies
    sent, the error reported and the lines consumed. `Handle` is proved to
    do exactly that. The lemmas in `HandlerProperties` describe `Session`
    over the raw lines.
- **External address selection** (addr.go).
  - `ExternalIP` takes the outcome of interface enumeration: an address
    list, or the cause of a failure.
  - It returns the dotted-decimal text of the first entry whose address is
    present, is not loopback and has an IPv4 form.
  - If no entry qualifies, it returns the code-95 error. If enumeration
    failed, it returns the code-96 error.
  - It relies on the parts of Go's `net.IP` it uses: `To4`, `IsLoopback`
    and `String` on 4-byte addresses. These are modelled on byte
    sequences, following RFC 1122 section 3.2.1.3 and RFC 4291 sections
    2.5.3 and 2.5.5.2.
  - A reference dotted-decimal reader, `ParseIPv4`, is the partner of the
    formatter.
- **The error value and messages** (error.go, whisper.go).
  - An `Error` is a text and a code, and the code is the process exit
    status.
  - `NewMessage` builds a message. The timestamp it reads from the clock
    is a parameter here.

`strings.TrimSpace` is modelled with the complete white-space set of Go's
`unicode.IsSpace`. `strings.ToLower` is modelled for ASCII letters only.

A user exit travels as an `Error` with code 0 on the same channel as real
failures (handler.go:41-44, handler.go:66-69). The error for a host with no
usable address has the text "Are you connected to the network?!" and code
95 (addr.go:44-47).

Files:
- `wrappers.dfy` (Option)
- `errors.dfy` (Errors)
- `whisper.dfy` (Whisper)
- `strings.dfy` (Strings)
- `handler.dfy` (Handler)
- `handler_props.dfy` (HandlerProperties)
- `addr.dfy` (Addr)
- `codes.dfy` (FailureCodes)

## Model

| member | source | states |
|---|---|---|
| Errors.AccessorsReturnConstruction | error.go:9-15 | `Text()` and `Code()` return exactly the text and code the error was built with |
| Errors.AccessorsDetermineError | whisper.go:86-93 | a fact about the model's value type, not about Go's `==` on `*Error` pointers: the text and the code together determine the error, so the accessors lose nothing |
| Whisper.NewMessage | whisper.go:31-37 | the first argument becomes `Body` and the second `Sender`, both unmodified, and the supplied instant becomes `Timestamp` |
| Whisper.NewMessageInjective | whisper.go:31-37 | a fact about the model's value type, not about Go's `==` on `*Message` pointers: equal messages come from equal arguments, so building a message loses nothing |
| Strings.TrimLeftSpec | handler.go:64 | trimming on the left keeps the longest suffix that does not start with white space; everything dropped is white space |
| Strings.TrimRightSpec | handler.go:64 | trimming on the right keeps the longest prefix that does not end with white space; everything dropped is white space |
| Strings.TrimSpaceSpec | handler.go:64 | `TrimSpace(s)` is a contiguous piece of `s` with no white space at either end, and everything cut away on both sides is white space |
| Strings.TrimSpaceEmptyIff | handler.go:64 | trimming leaves the empty string exactly when the line is all white space |
| Strings.TrimSurrounded | handler.go:64 | a word with no white space at its ends, framed by any white space, trims to that word |
| Strings.TrimSpaceIdempotent | handler.go:64 | trimming twice is trimming once |
| Strings.LowerMatchesIff | handler.go:66 | for a word with no upper-case letter, lower-casing a string yields that word exactly when the string spells it in some mix of letter cases |
| Strings.ToLowerIdempotent | handler.go:66 | lower-casing twice is lower-casing once |
| Handler.OutcomeAtIsReadOutcome | handler.go:58-75 | the precomputed outcome at each position is what ReadLine gives on the line there, and past the end it is the read failure |
| Handler.Scanner.Scan | handler.go:61-63 | the scanner delivers the next line and advances by one while lines are left; after that it reports false, delivers nothing and stays put |
| Handler.InputHandler.constructor | handler.go:25-35 | a new handler has a fresh scanner at the start of the line source, and an exit table with exactly the keys "exit" and "quit" (values 1 and 2) |
| Handler.InputHandler.ReadLine | handler.go:58-75 | reads exactly one line if one is left; returns "" with code 0 for an exit word in any case, "" with code 1 when no line is left, and otherwise the trimmed line with no error |
| Handler.Channel.Put | handler.go:42 | the error is appended to what the channel holds, in order |
| Handler.Channel.Close | handler.go:43 | closing keeps the contents and marks the channel closed |
| Handler.Client.Send | handler.go:48 | each send is recorded in order, and its outcome is the oracle's for that send's number |
| Handler.SessionSkipsSentPrefix | handler.go:39-54 | a run of successful iterations can be cut off: the loop is that run followed by the loop after it |
| Handler.SessionEndsOnRead | handler.go:41-45 | after a run of successful iterations, a read error gives exactly that run as the bodies sent, that error, and the lines consumed |
| Handler.SessionEndsOnSend | handler.go:49-53 | after a run of successful iterations, a failed send gives the run plus the failing body, that send's error, and the lines consumed |
| Handler.Client.Handle | handler.go:38-55 | the bodies sent, the one error put on the channel before it is closed, and the lines consumed are exactly those of the loop's run; nothing more is read or sent |
| HandlerProperties.ReadOutcomeShapes | whisper.go:64-77 | whenever ReadLine reports an error the line is ""; the error is the read failure exactly when no line is left, and otherwise the user exit |
| HandlerProperties.NonExitLineTrimmed | handler.go:63-71 | a line that is not an exit word comes back with no error, as the raw line with its leading and trailing white space cut away |
| HandlerProperties.BlankLineIsEmptyBody | handler.go:63-71 | a line of white space only, the empty line included, comes back as "" with no error |
| HandlerProperties.ExitWordIff | handler.go:66-69 | with the standard exit table, a line is a user exit exactly when its trimmed form spells "exit" or "quit" in some mix of letter cases |
| HandlerProperties.PaddedExitWord | handler.go:64-69 | an exit word in any letter case, with any white space around it, gives "" and the code-0 error |
| HandlerProperties.QuitWithSpacesExits | whisper.go:66-72 | "  Quit " gives "" and an error with code 0 |
| HandlerProperties.ExitValuesUnread | whisper.go:49-51 | tables with the same keys classify every line alike: the stored values 1 and 2 are never read |
| HandlerProperties.SessionEnds | handler.go:39-54 | every run of the loop ends in one of two ways: on a read error after all its sends succeeded, or on its first failed send |
| HandlerProperties.SessionCharacterized | handler.go:39-54 | a result is the loop's exactly when it ends in one of those two ways, so the two describe the loop completely |
| HandlerProperties.SentWereRead | handler.go:40-48 | every body sent was read without error, in order, one per consumed line |
| HandlerProperties.BodyIsTrimmedLine | handler.go:61-71 | a body read at a position is the trimmed line there, and it is not an exit word |
| HandlerProperties.InputLoopSendsTrimmedLines | handler.go:39-48 | the loop calls Send once per line read, in the order read, with the trimmed line; an exit word never reaches Send; no more lines are consumed than are left |
| HandlerProperties.ReadAndSentPrefix | handler.go:39-54 | lines that are not exit words and whose sends succeed form a run of successful iterations |
| HandlerProperties.InputLoopStopsAtExitWord | handler.go:40-45 | an exit word after successfully sent lines ends the loop with the code-0 error; those lines were sent and the exit line is consumed but not sent |
| HandlerProperties.InputLoopStopsAtFailedSend | handler.go:48-53 | the first failed send ends the loop with that send's error; nothing after it is read or sent |
| HandlerProperties.InputLoopReadsToEnd | handler.go:40-45 | with no exit word and no failed send, every line is sent and the loop ends with the code-1 error at the end of input |
| Addr.EnumerationError | addr.go:13-17 | the enumeration error has code 96, and its text is "Could not get interface addresses: " followed by the cause |
| Addr.To4 | addr.go:36-39 | an address has an IPv4 form exactly when it is 4 bytes or a 16-byte IPv4-mapped address, and that form is its last 4 bytes |
| Addr.LoopbackIff | addr.go:32-34 | an address is loopback exactly when it is in 127.0.0.0/8, as 4 bytes or IPv4-mapped, or is ::1 |
| Addr.To4MappedRoundTrip | addr.go:36-39 | an IPv4 address and its IPv4-mapped form both reduce to that address |
| Addr.To4Idempotent | addr.go:36-39 | the IPv4 form of an IPv4 form is itself |
| Addr.Decimal | addr.go:41 | a byte's text is non-empty decimal digits with no leading zero, denoting that byte |
| Addr.ByteDigits | addr.go:41 | a byte's decimal text has at most three digits |
| Addr.FormatParseRoundTrip | addr.go:41 | the dotted-decimal text of a 4-byte address reads back as that address |
| Addr.FormatIPv4Injective | addr.go:41 | different addresses get different dotted-decimal texts |
| Addr.FirstQualifying | addr.go:21-42 | the position found qualifies, and every entry before it fails one of the tests; when there is none, no entry qualifies |
| Addr.EntryIPv4 | addr.go:23-39 | one loop iteration yields the entry's IPv4 form exactly when the entry qualifies |
| Addr.ExternalIP | addr.go:9-48 | a failed enumeration gives "" and the code-96 error; otherwise the first qualifying address in dotted decimal and no error; when none qualifies, "" and the code-95 error |
| Addr.FirstFromPrefix | addr.go:21-42 | when no entry before a position qualifies, the search from the start and the search from there agree |
| Addr.CandidateNotLoopback | addr.go:32-34 | the selected address is 4 bytes, not loopback and not starting with 127, and the entry's own address was not ::1 |
| Addr.ExternalIPText | addr.go:36-41 | on success the result is the dotted-decimal text of exactly 4 non-loopback bytes, and it reads back as them |
| Addr.CandidateCases | addr.go:23-39 | entries of another type, entries with no address and 16-byte non-mapped addresses are skipped; a mapped address outside 127/8 reduces to its 4 IPv4 bytes |
| FailureCodes.CodeIdentifiesFailure | handler.go:68-74 | among the library's errors, code 0 means user exit, 1 read failure, 95 no usable address and 96 failed enumeration |
| FailureCodes.EnumerationErrorsAreLibraryErrors | addr.go:14-17 | every enumeration error, whatever its cause, is a code-96 library error |

## Left out

- Printing the prompt (handler.go:59) is output only and is not modelled.
- Reading standard input is not modelled. The scanner is a sequence of lines.
- The scanner's end of input and its read errors both appear as the end of the sequence, because `ReadLine` never calls `Err()` and treats them alike.
- Go strings are byte sequences, while the model's strings are sequences of Unicode scalar values, so a line holding invalid UTF-8 cannot be represented. No behaviour depends on it: Go treats an invalid byte as neither white space nor part of an exit word, so such a line would be an ordinary body.
- Lines longer than the scanner's buffer limit stop it; this is the same end of the sequence.
- Strings.ToLower: lower-cases ASCII letters only, while Go lower-cases every Unicode letter. So a line such as "EXİT" (with U+0130), which Go reads as an exit word, is a body here.
- `Client`, its `Send` and whatever consumes the error channel are not part of this model. `Send` is an oracle from the send's number and body to its outcome.
- Go's channel blocking is not modelled, nor is the concurrency around it.
- Handler.Channel.Put, Handler.Channel.Close: require an open channel; in Go a send on or close of a closed channel panics.
- `net.InterfaceAddrs` is an operating-system call. Its outcome, an address list or a failure cause, is the input of `ExternalIP`.
- The network mask of `IPNet` and the zone of `IPAddr` are carried but unused, as in the code.
- `IP.String` is modelled only for 4-byte addresses, the only ones `ExternalIP` formats.
- Whisper.NewMessage: takes the timestamp as a parameter instead of reading the wall clock.
- Time formatting is not modelled.
- JSON encoding of messages is not modelled.
- cmd/whisper/main.go and cmd/listen/main.go are not part of this model. They hold the command-line front end, the TCP listener and the echo server. The front end exits with the error's code, or 3 when encoding fails (cmd/whisper/main.go:55-63).
- HandlerProperties.InputLoopSendsTrimmedLines: requires the starting position to lie within the line source, which the scanner always guarantees.
