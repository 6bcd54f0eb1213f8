/**
 * What one `data` event does to an OpenSkiff SMTP connection, as a function
 * of the connection's `SocketData` and the received chunk. Each chunk is one
 * step: the handler does no line framing, so a chunk is taken as one command,
 * or, in data mode, as one piece of the message.
 */
module Smtp {
  import opened JsString

  // Replies, byte for byte as the handler writes them.
  const Banner := "220 oskiff.com OpenSkiff SMTP Server\r\n"
  const ReplyOk := "250 OK\r\n"
  const ReplyNoop := "250 OK"
  const ReplyHeloFirst := "503 HELO First\r\n"
  const ReplyHello := "250-Hello\r\n"
  const ReplyStartTlsCapability := "250 STARTTLS\r\n"
  const ReplyReadyForTls := "220 Ready to start TLS\r\n"
  const ReplyEnterMessage := "354 Enter message, ending with \".\" on a line by itself\r\n"
  const ReplyBye := "221 Bye\r\n"
  const ReplyUnknown := "500 Unknown command\r\n"

  /** The text whose arrival at the end of a trimmed chunk ends data mode. */
  const EndOfData := "\n."

  /** The verbs that pass the greeting gate, compared after upper-casing. */
  const GreetingVerbs: set<string> := {"HELO", "EHLO"}

  /**
   * The per-connection record. `from` is `Some("")` at first and `None` once
   * a HELO without an argument has stored `undefined` in it; each entry of
   * `to` is likewise `None` when the MAIL or RCPT line had no `:`.
   */
  datatype SocketData = SocketData(
    from: Option<string>,
    to: seq<Option<string>>,
    saidhello: bool,
    dataToggle: bool)

  const Initial := SocketData(Some(""), [], false, false)

  /**
   * The effect of one chunk: the new record, the replies written in order,
   * the text appended to the mailbox file (empty when nothing is appended),
   * whether the socket is ended and whether a TLS upgrade is started.
   */
  datatype Outcome = Outcome(
    next: SocketData,
    writes: seq<string>,
    appended: string,
    ends: bool,
    startsTls: bool)

  /** An outcome that only writes replies. */
  function Reply(s: SocketData, writes: seq<string>): Outcome {
    Outcome(s, writes, "", false, false)
  }

  /**
   * What the handler reads off one chunk, each computed from the chunk as
   * the handler does:
   *   raw       `data.toString()`
   *   gateVerb  `trim().toUpperCase().split(" ")[0]`
   *   verb      `trim().split(" ")[0]`
   *   domain    `trim().split(" ")[1]`
   *   address   `trim().split(":")[1]`
   *   endsData  `trim().endsWith("\n.")`
   */
  datatype Chunk = Chunk(
    raw: string,
    gateVerb: string,
    verb: string,
    domain: Option<string>,
    address: Option<string>,
    endsData: bool)

  function Parse(raw: string): Chunk {
    var line := Trim(raw);
    Chunk(raw, FirstField(ToUpperAscii(line), ' '), FirstField(line, ' '),
          Field(line, ' ', 1), Field(line, ':', 1), EndsWith(line, EndOfData))
  }

  /** The verbs the handler's `switch` knows, and its default branch. */
  datatype Command = Helo | Ehlo | Noop | StartTls | Mail | Rcpt | Data | Quit | Unknown

  /** The `switch` statement's case labels, compared case-sensitively. */
  function CommandOf(verb: string): Command {
    if verb == "HELO" then Helo
    else if verb == "EHLO" then Ehlo
    else if verb == "NOOP" then Noop
    else if verb == "STARTTLS" then StartTls
    else if verb == "MAIL" then Mail
    else if verb == "RCPT" then Rcpt
    else if verb == "DATA" then Data
    else if verb == "QUIT" then Quit
    else Unknown
  }

  /** Whether the handler takes the chunk as message text. */
  predicate InDataMode(s: SocketData, raw: string) {
    s.dataToggle && raw != "."
  }

  /** Whether the greeting gate lets the chunk through. */
  predicate PassesGate(s: SocketData, c: Chunk) {
    s.saidhello || c.gateVerb in GreetingVerbs
  }

  /** The handler's reaction to one received chunk. */
  function Step(s: SocketData, raw: string): Outcome {
    Transition(s, Parse(raw))
  }

  /** The handler's branches, given what it reads off the chunk. */
  function Transition(s: SocketData, c: Chunk): Outcome {
    if InDataMode(s, c.raw) then
      if c.endsData then Outcome(s.(dataToggle := false), [ReplyOk], c.raw, false, false)
      else Outcome(s, [], c.raw, false, false)
    else if !PassesGate(s, c) then
      Reply(s, [ReplyHeloFirst])
    else
      Execute(s, c)
  }

  /** The `switch` on the verb, for a chunk the greeting gate let through. */
  function Execute(s: SocketData, c: Chunk): Outcome {
    match CommandOf(c.verb)
      case Helo => Reply(s.(from := c.domain, saidhello := true), [ReplyOk])
      case Ehlo => Reply(s.(saidhello := true), [ReplyHello, ReplyStartTlsCapability])
      case Noop => Reply(s, [ReplyNoop])
      case StartTls => Outcome(s, [ReplyReadyForTls], "", false, true)
      case Mail => Reply(s.(to := s.to + [c.address]), [ReplyOk])
      case Rcpt => Reply(s.(to := s.to + [c.address]), [ReplyOk])
      case Data => Reply(s.(dataToggle := true), [ReplyEnterMessage])
      case Quit => Outcome(s, [ReplyBye], "", true, false)
      case Unknown => Reply(s, [ReplyUnknown])
  }

  /** The accumulated effect of a sequence of chunks, in arrival order. */
  datatype Trace = Trace(
    last: SocketData,
    writes: seq<string>,
    stored: string,
    ended: bool,
    startedTls: bool)

  /** Hands the chunks to `handler` one after the other, collecting what it does. */
  function Feed(handler: (SocketData, string) -> Outcome, s: SocketData, chunks: seq<string>): Trace
    decreases |chunks|
  {
    if chunks == [] then Trace(s, [], "", false, false)
    else
      var o := handler(s, chunks[0]);
      var t := Feed(handler, o.next, chunks[1..]);
      Trace(t.last, o.writes + t.writes, o.appended + t.stored,
            o.ends || t.ended, o.startsTls || t.startedTls)
  }

  /** A connection's `data` events, handled in arrival order. */
  function Run(s: SocketData, chunks: seq<string>): Trace {
    Feed(Step, s, chunks)
  }

  /**
   * The invariant of every record the handler can reach: until the greeting
   * has been accepted the record is the initial one.
   */
  predicate Reachable(s: SocketData) {
    !s.saidhello ==> s == Initial
  }
}
