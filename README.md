# OpenSkiff SMTP connection handler, modelled in Dafny

OpenSkiff is a small SMTP server. For each client connection it writes a
banner and creates a `socketData` record. It then reacts to every `data`
event of the socket: it trims the received chunk, checks the greeting gate
(nothing but HELO/EHLO before a greeting), and switches on the first
space-separated word. It can also be in data mode, where it appends every
chunk other than exactly "." to the connection's mailbox file, until a chunk
whose trimmed text ends in "\n." arrives.

The project models that handler (`index.ts:40-116`) and the record it
updates (`index.ts:5-12`, `index.ts:32-39`). It has four modules:

- `JsString` (`js_string.dfy`) defines the ECMAScript string operations the
  handler uses, each with a lemma stating what it computes:
  - `trim`, with ECMAScript's WhiteSpace and LineTerminator characters;
  - `split` on one character, with `Join` as its inverse;
  - `split(...)[i]`, which is `undefined` past the end (`Option`);
  - `toUpperCase`;
  - `endsWith`.
- `Smtp` (`smtp.dfy`) holds the handler as a pure function
  `Step(record, chunk)`. It returns an `Outcome`: the new record, the
  replies written, the text appended to the mailbox, whether the socket is
  ended, and whether the TLS upgrade starts. `Run` folds `Step` over a
  sequence of chunks.
- `SmtpProperties` (`smtp_properties.dfy`) proves what the handler promises:
  - the greeting gate and the case-sensitive `switch`;
  - the effect of each command;
  - data mode and how it ends;
  - invariants over whole connections;
  - complete sessions.
- `SmtpSession` (`smtp_session.dfy`) is the handler in its own imperative
  form:
  - a `Session` class whose fields are the record's fields, plus the socket
    output and the mailbox text;
  - an `OnData` method with early returns and a `match` in place of the
    `switch`, proved to update the state exactly as `Step` says;
  - a `Valid` invariant that `OnData` preserves.

The model follows the code as written, not an idealised SMTP server (for
RFC 5321, section 4.1.1 lists the commands and section 4.5.2 describes
transparency):

- There is no line framing. Each chunk is one command, or one piece of the
  message in data mode.
- There is no dot-unstuffing. The stored message includes the terminating
  ".\r\n".
- Data mode ends only when the trimmed chunk ends with "\n.". A terminator
  that arrives in a chunk of its own (".\r\n") is stored and does not end
  data mode.
- MAIL, like RCPT, appends to `to`. There is no separate sender field.
- DATA is accepted with no MAIL or RCPT before it.
- `from` (set by HELO) and the entries of `to` can be `undefined` when the
  line has no second word or no colon. They are `Option` values.
- NOOP's reply has no CRLF.

## Model

| member | source | states |
|---|---|---|
| `JsString.TrimStartSpec` | index.ts:66 | removing leading white space leaves the longest suffix that does not start with white space; all that was removed is white space |
| `JsString.TrimEndSpec` | index.ts:66 | removing trailing white space leaves the longest prefix that does not end with white space; all that was removed is white space |
| `JsString.TrimSpec` | index.ts:66 | `trim()` is no longer than its input, and its result neither starts nor ends with white space |
| `JsString.TrimEmpty` | index.ts:49 | `trim()` gives the empty string exactly when the text is all white space |
| `JsString.TrimPadded` | index.ts:49 | `trim()` removes exactly the white space around a text whose ends are not white space |
| `JsString.TrimIdempotent` | index.ts:66 | trimming a trimmed text changes nothing |
| `JsString.TrimStartAppend` | index.ts:49 | removing leading white space from a text that is not all white space keeps everything after that text unchanged |
| `JsString.TrimStartWhitePrefix` | index.ts:49 | leading white space vanishes entirely when the start is trimmed |
| `JsString.SplitSpec` | index.ts:66 | `split(sep)` gives one more piece than there are separators, and no piece contains the separator |
| `JsString.JoinSplit` | index.ts:66 | joining the pieces of `split(sep)` with `sep` gives the text back |
| `JsString.SplitJoin` | index.ts:88 | splitting a join of separator-free pieces gives the pieces back |
| `JsString.FieldOfJoin` | index.ts:68 | `split(sep)[i]` of a join is its i-th piece, or `undefined` past the last; `[0]` is always the first piece |
| `JsString.ToUpperAscii` | index.ts:59 | upper-casing keeps the length |
| `JsString.ToUpperAsciiSpec` | index.ts:59 | upper-casing maps each character on its own |
| `JsString.ToUpperAsciiIdempotent` | index.ts:59 | upper-casing leaves no lower-case ASCII letter, so upper-casing again changes nothing |
| `JsString.FirstFieldOfUpper` | index.ts:58-66 | the gate's first word (taken after upper-casing) is the `switch`'s first word upper-cased |
| `JsString.EndsWithSpec` | index.ts:49 | `endsWith(suffix)` holds exactly when the last characters of the text are `suffix` |
| `SmtpProperties.GreetingVariants` | index.ts:56-67 | a verb that upper-cases to HELO or EHLO is taken by the `switch` as HELO, as EHLO, or as unknown |
| `SmtpProperties.GateVerbIsUpperVerb` | index.ts:58-66 | the word the gate tests is the word the `switch` tests, upper-cased |
| `SmtpProperties.GreetingPassesGate` | index.ts:56-61 | a chunk whose verb is HELO or EHLO passes the gate, whether or not the client has greeted |
| `SmtpProperties.GreetingGate` | index.ts:56-65 | before the greeting, outside data mode, the outcome is exactly `503 HELO First` with nothing changed if and only if the upper-cased verb is neither HELO nor EHLO; this includes QUIT, and the socket is not ended |
| `SmtpProperties.CaseSensitiveDispatch` | index.ts:56-114 | a case variant of HELO or EHLO other than the upper-case word passes the gate but is answered `500 Unknown command`, and changes nothing, greeted or not |
| `SmtpProperties.HeloRecordsDomain` | index.ts:67-72 | HELO sets `from` to the second space-separated word of the trimmed chunk (`undefined` if there is none), marks the client as greeted, changes nothing else, and replies `250 OK` |
| `SmtpProperties.EhloAdvertisesStartTls` | index.ts:73-79 | EHLO marks the client as greeted, leaves `from` alone, and replies `250-Hello` and then `250 STARTTLS` |
| `SmtpProperties.EnvelopeStep` | index.ts:87-96 | after the greeting, MAIL and RCPT append the chunk's `split(":")[1]` to `to`, change nothing else, and reply `250 OK` |
| `SmtpProperties.EnvelopeAppend` | index.ts:87-96 | the entry appended by MAIL or RCPT is the text between the first and second colon of the trimmed chunk, or `undefined` if there is no colon; the existing entries of `to` are kept |
| `SmtpProperties.EnvelopeCommandStep` | index.ts:87-96 | after the greeting, `MAIL FROM:<address>` and `RCPT TO:<address>` sent with CRLF each append exactly that address to `to` and reply `250 OK` |
| `SmtpProperties.DataEntersDataMode` | index.ts:97-105 | DATA turns data mode on and replies 354, whatever `from` and `to` hold |
| `SmtpProperties.NoopChangesNothing` | index.ts:80-82 | NOOP changes nothing, and its reply `250 OK` has no CRLF |
| `SmtpProperties.StartTlsStartsUpgrade` | index.ts:83-86 | STARTTLS replies `220 Ready to start TLS`, starts the upgrade and changes no field |
| `SmtpProperties.QuitEndsSocket` | index.ts:106-110 | QUIT replies `221 Bye`, ends the socket and changes no field |
| `SmtpProperties.UnknownVerbChangesNothing` | index.ts:111-114 | after the greeting, a verb the `switch` does not know is answered `500 Unknown command` and changes nothing |
| `SmtpProperties.DataModeAppends` | index.ts:42-55 | in data mode, any chunk other than "." is appended verbatim and interpreted as no command; data mode ends, with `250 OK`, exactly when the trimmed chunk ends with a line feed and a dot; otherwise nothing is written |
| `SmtpProperties.DotLineStaysInDataMode` | index.ts:42-55 | a chunk of just ".\r\n" is stored and does not end data mode |
| `SmtpProperties.LoneDotIsUnknownCommand` | index.ts:42-114 | a chunk of exactly "." is not stored; it goes to the `switch`, is answered 500, and data mode stays on |
| `SmtpProperties.StepInvariants` | index.ts:40-116 | one chunk keeps the record reachable (nothing but the initial record before a greeting), never takes the greeting back, and ends the socket or starts TLS only after a greeting |
| `SmtpProperties.StepExtendsTo` | index.ts:87-96 | one chunk keeps every entry of `to` and adds at most one |
| `SmtpProperties.RunInvariants` | index.ts:32-116 | over any sequence of chunks the record stays reachable, the greeting is never taken back, `to` only grows at its end, and the socket is ended or upgraded only after a greeting |
| `SmtpProperties.RunConcat` | index.ts:40-116 | chunks are handled one after another: the replies, the stored text and the final record of `a + b` are those of `a` followed by those of `b` |
| `SmtpProperties.ParseCrLfLine` | index.ts:66-68 | for a line sent with CRLF, the `switch`'s verb and HELO's domain are the line's first and second words |
| `SmtpProperties.QuitBeforeGreeting` | index.ts:56-65 | QUIT as the first command is answered `503 HELO First` and the connection stays open |
| `SmtpProperties.LowerCaseHeloIsUnknown` | index.ts:56-114 | `helo <domain>` as the first command is answered `500 Unknown command` and leaves the client not greeted |
| `SmtpProperties.MessageRun` | index.ts:42-105 | DATA followed by a body chunk ending in "\r\n.\r\n", whose body is not all white space, stores that chunk, replies 354 then 250, and leaves the record as it was before DATA |
| `SmtpProperties.BodyChunkTrim` | index.ts:49 | a body chunk ending in "\r\n.\r\n" trims to the body without its leading white space followed by "\r\n.", or to a lone "." when the body is all white space |
| `SmtpProperties.BodyStep` | index.ts:42-55 | in data mode a chunk ending in "\r\n.\r\n" is stored and ends data mode with `250 OK` exactly when the body before the terminator is not all white space; an empty or blank body leaves data mode on with no reply |
| `SmtpProperties.OneMessage` | index.ts:40-116 | EHLO, MAIL, RCPT, DATA and a one-chunk body that is not all white space: the replies come in order, MAIL's address is put in `to` before RCPT's, `from` keeps its initial value, and the whole body chunk with its terminator is stored |
| `SmtpProperties.LineByLineBodyNeverEnds` | index.ts:42-55 | a body line and then a terminator line sent as separate chunks are both stored, nothing is replied, and data mode does not end |
| `SmtpSession.Session.constructor` | index.ts:30-39 | a new connection has written the banner, and its record is the initial one: `from` empty, `to` empty, not greeted, not in data mode |
| `SmtpSession.Session.OnData` | index.ts:40-116 | handling a chunk updates the record, the socket output, the mailbox text, the ended flag and the TLS flag exactly as `Step` says, and keeps `Valid` |
| `SmtpSession.Session.Dispatch` | index.ts:66-115 | the `switch` updates the fields, the output and the flags exactly as the command's branch of `Step` says |

## Left out

- The TLS upgrade `initiateTLS` (`index.ts:14-26`) reads certificate files and pipes Node streams through a `TLSSocket`. STARTTLS is modelled only as its reply and a "TLS started" flag. Later chunks are still handled as plaintext.
- The listener and the socket (`index.ts:1-3`, `index.ts:28-29`, `index.ts:117`) are left out. `socket.write` is modelled as appending to the written replies, and `socket.end()` as setting a flag. Chunks that arrive after `end()` are still handled; what the real socket does with writes after `end()` is not modelled.
- `appendFile` (`index.ts:43-47`) is asynchronous file I/O with an error callback. It is modelled as appending to one mailbox string, in call order. Write failures, their logging, and interleaving of the asynchronous appends are not modelled.
- `Date.now()` (`index.ts:36`) is a clock read. It becomes the constructor's `now` parameter. The file name `mailbox/<timestamp>.eml` built from it is not modelled.
- The `data` field of the record (`index.ts:8`, `index.ts:35`) is never read or written after initialisation, so the model has no such field.
- All `console.log` and `console.error` calls are logging and are left out.
- `data.toString()` (`index.ts:41-66`) decodes the received bytes as UTF-8. A chunk is modelled as the already-decoded string.
- JsString.ToUpperAscii: `toUpperCase` is modelled for ASCII letters only. Non-ASCII letters are left unchanged, whereas JavaScript maps them too and can change the length (for example `ß` becomes `SS`). The gate's decision is the same either way, because no non-ASCII character upper-cases to a letter of HELO or EHLO.
- The behaviour the handler does not contain is not modelled as if present: line framing across chunks, dot-unstuffing, a separate sender field, RCPT-before-DATA enforcement, and discarding plaintext buffered before the TLS upgrade.
