/**
 * One client connection as the server keeps it: the mutable `socketData`
 * record, created when the client connects, and the `data` handler that
 * updates it in place. Besides the record, the session keeps what the
 * handler has done to the outside world: everything written to the socket,
 * everything appended to the connection's mailbox file, whether the socket
 * was ended and whether a TLS upgrade was started.
 */
module SmtpSession {
  import opened JsString
  import opened Smtp
  import opened SmtpProperties

  class Session {
    /** `Date.now()` at connection time; it names the mailbox file. */
    const timestamp: int

    var from: Option<string>
    var to: seq<Option<string>>
    var saidhello: bool
    var dataToggle: bool

    /** The replies written to the socket, in order, the banner first. */
    var written: seq<string>
    /** The text appended to `mailbox/<timestamp>.eml`, in order. */
    var mailbox: string
    /** Whether `socket.end()` has been called. */
    var ended: bool
    /** Whether the TLS upgrade has been started. */
    var tlsStarted: bool

    /** The `socketData` record as a value. */
    function Record(): SocketData
      reads this
    {
      SocketData(from, to, saidhello, dataToggle)
    }

    /**
     * What holds of every session: the record is reachable, the socket is
     * ended or upgraded only after a greeting, and the banner came first.
     */
    ghost predicate Valid()
      reads this
    {
      && Reachable(Record())
      && (ended || tlsStarted ==> saidhello)
      && |written| >= 1 && written[0] == Banner
    }

    /** A client connects: the banner is written and the record is initialised. */
    constructor (now: int)
      ensures Valid()
      ensures timestamp == now
      ensures Record() == Initial
      ensures written == [Banner] && mailbox == [] && !ended && !tlsStarted
    {
      timestamp := now;
      written := [Banner];
      from := Some([]);
      to := [];
      saidhello := false;
      dataToggle := false;
      mailbox := [];
      ended := false;
      tlsStarted := false;
    }

    /** The `data` event handler: reacts to one received chunk. */
    method OnData(chunk: string)
      requires Valid()
      modifies this
      ensures Valid()
      ensures var o := Step(old(Record()), chunk);
        && Record() == o.next
        && written == old(written) + o.writes
        && mailbox == old(mailbox) + o.appended
        && ended == (old(ended) || o.ends)
        && tlsStarted == (old(tlsStarted) || o.startsTls)
    {
      StepInvariants(Record(), chunk);
      if dataToggle && chunk != "." {
        mailbox := mailbox + chunk;
        if EndsWith(Trim(chunk), EndOfData) {
          written := written + [ReplyOk];
          dataToggle := false;
        }
        return;
      }
      var line := Trim(chunk);
      if !saidhello && FirstField(ToUpperAscii(line), ' ') !in GreetingVerbs {
        written := written + [ReplyHeloFirst];
        return;
      }
      Dispatch(chunk, line);
    }

    /** The handler's `switch` on the first space-separated field of the trimmed chunk. */
    method Dispatch(chunk: string, line: string)
      requires line == Trim(chunk)
      modifies this
      ensures var o := Execute(old(Record()), Parse(chunk));
        && Record() == o.next
        && written == old(written) + o.writes
        && mailbox == old(mailbox) + o.appended
        && ended == (old(ended) || o.ends)
        && tlsStarted == (old(tlsStarted) || o.startsTls)
    {
      match CommandOf(FirstField(line, ' ')) {
        case Helo =>
          from := Field(line, ' ', 1);
          written := written + [ReplyOk];
          saidhello := true;
        case Ehlo =>
          saidhello := true;
          written := written + [ReplyHello, ReplyStartTlsCapability];
        case Noop =>
          written := written + [ReplyNoop];
        case StartTls =>
          written := written + [ReplyReadyForTls];
          tlsStarted := true;
        case Mail =>
          to := to + [Field(line, ':', 1)];
          written := written + [ReplyOk];
        case Rcpt =>
          to := to + [Field(line, ':', 1)];
          written := written + [ReplyOk];
        case Data =>
          dataToggle := true;
          written := written + [ReplyEnterMessage];
        case Quit =>
          written := written + [ReplyBye];
          ended := true;
        case Unknown =>
          written := written + [ReplyUnknown];
      }
    }
  }
}
