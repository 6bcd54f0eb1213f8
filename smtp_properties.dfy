/**
 * What the handler promises, proved about `Smtp.Step` and `Smtp.Run`: the
 * greeting gate, the case-sensitive dispatch, the effect of each command, data
 * mode and its end, and what stays true over a whole connection.
 */
module SmtpProperties {
  import opened JsString
  import opened Smtp

  /**
   * A verb that upper-cases to HELO or EHLO is a case variant of one of
   * them, so the `switch` takes it as HELO, as EHLO, or as unknown.
   */
  lemma GreetingVariants(v: string)
    requires ToUpperAscii(v) in GreetingVerbs
    ensures CommandOf(v) in {Helo, Ehlo, Unknown}
  {
    var u := ToUpperAscii(v);
    ToUpperAsciiSpec(v);
    assert |v| == 4;
    assert u[0] == 'H' || u[0] == 'E';
    assert v[0] in {'H', 'h', 'E', 'e'};
  }

  /** Upper-casing leaves the greeting verbs unchanged. */
  lemma UpperGreetingVerbs()
    ensures ToUpperAscii("HELO") == "HELO" && ToUpperAscii("EHLO") == "EHLO"
  {
    var h, e := ToUpperAscii("HELO"), ToUpperAscii("EHLO");
    assert h[0] == 'H' && h[1] == 'E' && h[2] == 'L' && h[3] == 'O';
    assert e[0] == 'E' && e[1] == 'H' && e[2] == 'L' && e[3] == 'O';
  }

  /** The gate's verb is the `switch`'s verb upper-cased. */
  lemma GateVerbIsUpperVerb(raw: string)
    ensures Parse(raw).gateVerb == ToUpperAscii(Parse(raw).verb)
  {
    FirstFieldOfUpper(Trim(raw));
  }

  /** HELO and EHLO pass the gate whether or not the client has greeted. */
  lemma GreetingPassesGate(s: SocketData, raw: string)
    requires Parse(raw).verb in GreetingVerbs
    ensures PassesGate(s, Parse(raw))
  {
    GateVerbIsUpperVerb(raw);
    UpperGreetingVerbs();
  }

  // ---------------------------------------------------------------------------
  // The greeting gate and the case-sensitive dispatch
  // ---------------------------------------------------------------------------

  /**
   * Before the greeting, a chunk is answered with exactly `503 HELO First`
   * and changes nothing if and only if its upper-cased first field is
   * neither HELO nor EHLO. QUIT is no exception: the socket stays open.
   */
  lemma GreetingGate(s: SocketData, chunk: string)
    requires !s.saidhello && !InDataMode(s, chunk)
    ensures (Step(s, chunk) == Reply(s, [ReplyHeloFirst]))
              <==> ToUpperAscii(Parse(chunk).verb) !in GreetingVerbs
  {
    var c := Parse(chunk);
    GateVerbIsUpperVerb(chunk);
    if c.gateVerb in GreetingVerbs {
      GreetingVariants(c.verb);
      assert Transition(s, c).writes != [ReplyHeloFirst];
    }
  }

  /**
   * The gate compares the upper-cased verb but the `switch` does not: a
   * case variant of HELO or EHLO such as `helo` passes the gate and is
   * answered `500 Unknown command`, greeted or not, and changes nothing.
   */
  lemma CaseSensitiveDispatch(s: SocketData, chunk: string)
    requires !InDataMode(s, chunk)
    requires ToUpperAscii(Parse(chunk).verb) in GreetingVerbs && Parse(chunk).verb !in GreetingVerbs
    ensures Step(s, chunk) == Reply(s, [ReplyUnknown])
  {
    GateVerbIsUpperVerb(chunk);
    GreetingVariants(Parse(chunk).verb);
  }

  // ---------------------------------------------------------------------------
  // The commands
  // ---------------------------------------------------------------------------

  /**
   * HELO: the client has greeted, `from` holds the second space-separated
   * field of the trimmed line (`undefined` when there is none), reply `250 OK`.
   */
  lemma HeloRecordsDomain(s: SocketData, chunk: string, fields: seq<string>)
    requires !InDataMode(s, chunk)
    requires |fields| >= 1 && fields[0] == "HELO"
    requires forall i :: 0 <= i < |fields| ==> ' ' !in fields[i]
    requires Trim(chunk) == Join(fields, ' ')
    ensures Step(s, chunk) == Reply(
              s.(from := if |fields| > 1 then Some(fields[1]) else None, saidhello := true),
              [ReplyOk])
  {
    FieldOfJoin(fields, ' ', 1);
    GreetingPassesGate(s, chunk);
  }

  /** EHLO: the client has greeted, `from` is left alone, and STARTTLS is advertised. */
  lemma EhloAdvertisesStartTls(s: SocketData, chunk: string)
    requires !InDataMode(s, chunk) && Parse(chunk).verb == "EHLO"
    ensures Step(s, chunk) == Reply(s.(saidhello := true), [ReplyHello, ReplyStartTlsCapability])
  {
    GreetingPassesGate(s, chunk);
  }

  /**
   * MAIL and RCPT alike append one entry to `to`: the text between the first
   * and the second `:` of the trimmed line (`undefined` when it has no `:`).
   * Everything else is kept; the reply is `250 OK`.
   */
  lemma EnvelopeStep(s: SocketData, chunk: string)
    requires s.saidhello && !InDataMode(s, chunk)
    requires Parse(chunk).verb == "MAIL" || Parse(chunk).verb == "RCPT"
    ensures Step(s, chunk) == Reply(s.(to := s.to + [Parse(chunk).address]), [ReplyOk])
  {
  }

  lemma EnvelopeAppend(s: SocketData, chunk: string, segments: seq<string>)
    requires s.saidhello && !InDataMode(s, chunk)
    requires Parse(chunk).verb == "MAIL" || Parse(chunk).verb == "RCPT"
    requires |segments| >= 1 && forall i :: 0 <= i < |segments| ==> ':' !in segments[i]
    requires Trim(chunk) == Join(segments, ':')
    ensures Step(s, chunk) == Reply(
              s.(to := s.to + [if |segments| > 1 then Some(segments[1]) else None]),
              [ReplyOk])
  {
    EnvelopeStep(s, chunk);
    FieldOfJoin(segments, ':', 1);
  }

  /** DATA enters data mode whatever `from` and `to` hold, and prompts with 354. */
  lemma DataEntersDataMode(s: SocketData, chunk: string)
    requires s.saidhello && !InDataMode(s, chunk) && Parse(chunk).verb == "DATA"
    ensures Step(s, chunk) == Reply(s.(dataToggle := true), [ReplyEnterMessage])
  {
  }

  /** NOOP changes nothing and is answered `250 OK` without a line terminator. */
  lemma NoopChangesNothing(s: SocketData, chunk: string)
    requires s.saidhello && !InDataMode(s, chunk) && Parse(chunk).verb == "NOOP"
    ensures Step(s, chunk) == Reply(s, [ReplyNoop])
    ensures !EndsWith(ReplyNoop, "\r\n")
  {
  }

  /** STARTTLS is answered 220, starts the upgrade and changes no field. */
  lemma StartTlsStartsUpgrade(s: SocketData, chunk: string)
    requires s.saidhello && !InDataMode(s, chunk) && Parse(chunk).verb == "STARTTLS"
    ensures Step(s, chunk) == Outcome(s, [ReplyReadyForTls], "", false, true)
  {
  }

  /** QUIT says goodbye and ends the socket; no field changes. */
  lemma QuitEndsSocket(s: SocketData, chunk: string)
    requires s.saidhello && !InDataMode(s, chunk) && Parse(chunk).verb == "QUIT"
    ensures Step(s, chunk) == Outcome(s, [ReplyBye], "", true, false)
  {
  }

  /** After the greeting, a verb the `switch` does not know is answered 500 and changes nothing. */
  lemma UnknownVerbChangesNothing(s: SocketData, chunk: string)
    requires s.saidhello && !InDataMode(s, chunk)
    requires CommandOf(Parse(chunk).verb) == Unknown
    ensures Step(s, chunk) == Reply(s, [ReplyUnknown])
  {
  }

  // ---------------------------------------------------------------------------
  // Data mode
  // ---------------------------------------------------------------------------

  /**
   * In data mode every chunk other than exactly "." is appended verbatim and
   * no command is interpreted; data mode ends, with `250 OK`, exactly when
   * the trimmed chunk's last two characters are a line feed and a dot.
   */
  lemma DataModeAppends(s: SocketData, chunk: string)
    requires InDataMode(s, chunk)
    ensures var o := Step(s, chunk);
      var t := Trim(chunk);
      var finished := |t| >= 2 && t[|t| - 2] == '\n' && t[|t| - 1] == '.';
      && o.appended == chunk
      && o.next == s.(dataToggle := !finished)
      && o.writes == (if finished then [ReplyOk] else [])
      && !o.ends && !o.startsTls
  {
    var t := Trim(chunk);
    EndsWithSpec(t, EndOfData);
    if |t| >= 2 {
      assert t[|t| - 2..] == [t[|t| - 2], t[|t| - 1]];
    }
  }

  /** A chunk that is just ".\r\n" is stored and does not end data mode. */
  lemma DotLineStaysInDataMode(s: SocketData)
    requires s.dataToggle
    ensures Step(s, ".\r\n") == Outcome(s, [], ".\r\n", false, false)
  {
    assert ".\r\n" == [] + "." + "\r\n";
    TrimPadded([], ".", "\r\n");
  }

  /**
   * A chunk of exactly "." is not taken as message text: it falls through to
   * the `switch`, is answered 500 and leaves data mode on.
   */
  lemma LoneDotIsUnknownCommand(s: SocketData)
    requires s.dataToggle && s.saidhello
    ensures Step(s, ".") == Reply(s, [ReplyUnknown])
  {
    assert "." == [] + "." + [];
    TrimPadded([], ".", []);
    FieldOfJoin(["."], ' ', 0);
  }

  // ---------------------------------------------------------------------------
  // Invariants of a connection
  // ---------------------------------------------------------------------------

  /**
   * One step keeps the record reachable, never takes back `saidhello`, and
   * can end the socket or start TLS only once the client has greeted.
   */
  lemma StepInvariants(s: SocketData, chunk: string)
    requires Reachable(s)
    ensures var o := Step(s, chunk);
      && Reachable(o.next)
      && (s.saidhello ==> o.next.saidhello)
      && (o.ends || o.startsTls ==> o.next.saidhello)
  {
    var c := Parse(chunk);
    if !InDataMode(s, chunk) && PassesGate(s, c) && !s.saidhello {
      GateVerbIsUpperVerb(chunk);
      GreetingVariants(c.verb);
      assert CommandOf(c.verb) in {Helo, Ehlo, Unknown};
    }
  }

  /** One step keeps every entry of `to` and adds at most one. */
  lemma StepExtendsTo(s: SocketData, chunk: string)
    ensures var t := Step(s, chunk).next.to;
      |s.to| <= |t| <= |s.to| + 1 && t[..|s.to|] == s.to
  {
  }

  /** Over any sequence of chunks the same holds, and the greeting is never taken back. */
  lemma {:induction false} RunInvariants(s: SocketData, chunks: seq<string>)
    requires Reachable(s)
    ensures var t := Run(s, chunks);
      && Reachable(t.last)
      && (s.saidhello ==> t.last.saidhello)
      && |s.to| <= |t.last.to| && t.last.to[..|s.to|] == s.to
      && (t.ended || t.startedTls ==> t.last.saidhello)
    decreases |chunks|
  {
    if chunks != [] {
      var next := Step(s, chunks[0]).next;
      StepInvariants(s, chunks[0]);
      StepExtendsTo(s, chunks[0]);
      RunInvariants(next, chunks[1..]);
      var last := Run(next, chunks[1..]).last;
      assert last.to[..|s.to|] == last.to[..|next.to|][..|s.to|];
    }
  }

  /**
   * Chunks are handled one after the other: feeding `a + b` writes, stores
   * and ends up as feeding `a` and then `b` from where `a` left off.
   */
  lemma {:induction false} FeedConcat(handler: (SocketData, string) -> Outcome, s: SocketData,
                                      a: seq<string>, b: seq<string>)
    ensures var ta := Feed(handler, s, a);
      var tb := Feed(handler, ta.last, b);
      Feed(handler, s, a + b) == Trace(tb.last, ta.writes + tb.writes, ta.stored + tb.stored,
                                       ta.ended || tb.ended, ta.startedTls || tb.startedTls)
    decreases |a|
  {
    if a == [] {
      assert a + b == b;
    } else {
      var o := handler(s, a[0]);
      assert (a + b)[0] == a[0] && (a + b)[1..] == a[1..] + b;
      FeedConcat(handler, o.next, a[1..], b);
      var ta := Feed(handler, o.next, a[1..]);
      assert Feed(handler, s, a).last == ta.last;
    }
  }

  /** Replies to a connection's chunks come in the order of the chunks, none held back or merged. */
  lemma RunConcat(s: SocketData, a: seq<string>, b: seq<string>)
    ensures var ta := Run(s, a);
      var tb := Run(ta.last, b);
      Run(s, a + b) == Trace(tb.last, ta.writes + tb.writes, ta.stored + tb.stored,
                             ta.ended || tb.ended, ta.startedTls || tb.startedTls)
  {
    FeedConcat(Step, s, a, b);
  }

  // ---------------------------------------------------------------------------
  // Whole connections
  // ---------------------------------------------------------------------------

  /** `x` followed by CRLF trims to `x` when `x` has no white space at its ends. */
  lemma TrimCrLf(x: string)
    requires x != [] && !IsWhiteSpace(x[0]) && !IsWhiteSpace(x[|x| - 1])
    ensures Trim(x + "\r\n") == x
  {
    assert x + "\r\n" == [] + x + "\r\n";
    TrimPadded([], x, "\r\n");
  }

  /**
   * A command line sent with CRLF: the `switch`'s verb and HELO's domain are
   * the line's first and second space-separated words.
   */
  lemma ParseCrLfLine(x: string, words: seq<string>)
    requires x != [] && !IsWhiteSpace(x[0]) && !IsWhiteSpace(x[|x| - 1])
    requires |words| >= 1 && forall i :: 0 <= i < |words| ==> ' ' !in words[i]
    requires x == Join(words, ' ')
    ensures Trim(x + "\r\n") == x
    ensures Parse(x + "\r\n").verb == words[0]
    ensures Parse(x + "\r\n").domain == if |words| > 1 then Some(words[1]) else None
  {
    TrimCrLf(x);
    FieldOfJoin(words, ' ', 1);
  }

  /** The first chunk of a run is handled from the run's starting record, the rest from where it leaves off. */
  lemma RunCons(s: SocketData, chunk: string, rest: seq<string>)
    ensures var o := Step(s, chunk);
      var t := Run(o.next, rest);
      Run(s, [chunk] + rest) == Trace(t.last, o.writes + t.writes, o.appended + t.stored,
                                      o.ends || t.ended, o.startsTls || t.startedTls)
  {
    assert ([chunk] + rest)[1..] == rest;
  }

  /** A run of one chunk has that chunk's outcome. */
  lemma RunOne(s: SocketData, chunk: string)
    ensures var o := Step(s, chunk);
      Run(s, [chunk]) == Trace(o.next, o.writes, o.appended, o.ends, o.startsTls)
  {
    RunCons(s, chunk, []);
    assert [chunk] + [] == [chunk];
    assert Run(Step(s, chunk).next, []) == Trace(Step(s, chunk).next, [], "", false, false);
  }

  /** A non-empty command argument with no white space and no colon. */
  predicate Word(w: string) {
    w != [] && forall i :: 0 <= i < |w| ==> !IsWhiteSpace(w[i]) && w[i] != ':'
  }

  /** A lone verb sent with CRLF is read as that verb. */
  lemma VerbLine(verb: string)
    requires Word(verb)
    ensures Parse(verb + "\r\n").verb == verb
  {
    assert Join([verb], ' ') == verb;
    assert ' ' !in verb;
    ParseCrLfLine(verb, [verb]);
  }

  /** `verb arg` sent with CRLF is read as the verb with `arg` as its second field. */
  lemma CommandLine(verb: string, arg: string)
    requires Word(verb) && Word(arg)
    ensures Parse(verb + " " + arg + "\r\n").verb == verb
    ensures Parse(verb + " " + arg + "\r\n").domain == Some(arg)
  {
    var x := verb + " " + arg;
    assert x == Join([verb, arg], ' ');
    assert ' ' !in verb && ' ' !in arg;
    ParseCrLfLine(x, [verb, arg]);
  }

  /** `verb param:arg` sent with CRLF is read as the verb, with `arg` after the colon. */
  lemma EnvelopeLine(verb: string, param: string, arg: string)
    requires Word(verb) && Word(param) && Word(arg)
    ensures Parse(verb + " " + param + ":" + arg + "\r\n").verb == verb
    ensures Trim(verb + " " + param + ":" + arg + "\r\n") == Join([verb + " " + param, arg], ':')
    ensures ':' !in verb + " " + param && ':' !in arg
  {
    var x := verb + " " + param + ":" + arg;
    assert x == Join([verb, param + ":" + arg], ' ');
    assert x == Join([verb + " " + param, arg], ':');
    assert ' ' !in verb;
    assert ' ' !in param + ":" + arg by {
      assert forall i :: 0 <= i < |param + ":" + arg| ==> (param + ":" + arg)[i] != ' ';
    }
    assert ':' !in verb + " " + param by {
      assert forall i :: 0 <= i < |verb + " " + param| ==> (verb + " " + param)[i] != ':';
    }
    ParseCrLfLine(x, [verb, param + ":" + arg]);
  }

  /** QUIT as the first command is refused with 503 and the connection stays open. */
  lemma QuitBeforeGreeting()
    ensures Run(Initial, ["QUIT" + "\r\n"]) == Trace(Initial, [ReplyHeloFirst], "", false, false)
  {
    var c := "QUIT" + "\r\n";
    VerbLine("QUIT");
    ToUpperAsciiSpec("QUIT");
    assert ToUpperAscii("QUIT")[0] == 'Q';
    GreetingGate(Initial, c);
    RunOne(Initial, c);
  }

  /** A lower-case `helo` before the greeting passes the gate, is unknown, and greets nobody. */
  lemma LowerCaseHeloIsUnknown(domain: string)
    requires Word(domain)
    ensures Run(Initial, ["helo " + domain + "\r\n"]) == Trace(Initial, [ReplyUnknown], "", false, false)
  {
    var c := "helo " + domain + "\r\n";
    assert c == "helo" + " " + domain + "\r\n";
    CommandLine("helo", domain);
    assert "helo"[0] == 'h';
    ToUpperAsciiSpec("helo");
    var u := ToUpperAscii("helo");
    assert u[0] == 'H' && u[1] == 'E' && u[2] == 'L' && u[3] == 'O';
    assert u == "HELO" && "helo" != "HELO" && "helo" != "EHLO";
    CaseSensitiveDispatch(Initial, c);
    RunOne(Initial, c);
  }

  /**
   * A whole transaction whose body arrives in one chunk ending in "\r\n.\r\n":
   * MAIL's address lands in `to` before RCPT's, `from` keeps its initial
   * value, and the body is stored with its terminator.
   */
  lemma OneMessage(domain: string, sender: string, recipient: string, body: string)
    requires Word(domain) && Word(sender) && Word(recipient)
    requires !AllWhiteSpace(body)
    ensures Run(Initial, ["EHLO " + domain + "\r\n", "MAIL FROM:" + sender + "\r\n",
                          "RCPT TO:" + recipient + "\r\n", "DATA\r\n", body + "\r\n.\r\n"])
         == Trace(SocketData(Some(""), [Some(sender), Some(recipient)], true, false),
                  [ReplyHello, ReplyStartTlsCapability, ReplyOk, ReplyOk, ReplyEnterMessage, ReplyOk],
                  body + "\r\n.\r\n", false, false)
  {
    var rest := ["MAIL FROM:" + sender + "\r\n", "RCPT TO:" + recipient + "\r\n",
                 "DATA\r\n", body + "\r\n.\r\n"];
    EhloStep(domain);
    MailRun(Initial.(saidhello := true), sender, recipient, body);
    RunCons(Initial, "EHLO " + domain + "\r\n", rest);
  }

  /** MAIL, RCPT, DATA and a one-chunk body: both addresses are recorded and data mode is left again. */
  lemma MailRun(s: SocketData, sender: string, recipient: string, body: string)
    requires s.saidhello && !s.dataToggle && Word(sender) && Word(recipient)
    requires !AllWhiteSpace(body)
    ensures Run(s, ["MAIL FROM:" + sender + "\r\n", "RCPT TO:" + recipient + "\r\n",
                    "DATA\r\n", body + "\r\n.\r\n"])
         == Trace(s.(to := s.to + [Some(sender), Some(recipient)]),
                  [ReplyOk, ReplyOk, ReplyEnterMessage, ReplyOk], body + "\r\n.\r\n", false, false)
  {
    var rest := ["RCPT TO:" + recipient + "\r\n", "DATA\r\n", body + "\r\n.\r\n"];
    var s' := s.(to := s.to + [Some(sender)]);
    assert "MAIL FROM:" + sender + "\r\n" == "MAIL" + " " + "FROM" + ":" + sender + "\r\n";
    EnvelopeCommandStep(s, "MAIL", "FROM", sender);
    RcptRun(s', recipient, body);
    RunCons(s, "MAIL FROM:" + sender + "\r\n", rest);
    assert s'.to + [Some(recipient)] == s.to + [Some(sender), Some(recipient)];
  }

  /** RCPT, DATA and a one-chunk body. */
  lemma RcptRun(s: SocketData, recipient: string, body: string)
    requires s.saidhello && !s.dataToggle && Word(recipient)
    requires !AllWhiteSpace(body)
    ensures Run(s, ["RCPT TO:" + recipient + "\r\n", "DATA\r\n", body + "\r\n.\r\n"])
         == Trace(s.(to := s.to + [Some(recipient)]),
                  [ReplyOk, ReplyEnterMessage, ReplyOk], body + "\r\n.\r\n", false, false)
  {
    assert "RCPT TO:" + recipient + "\r\n" == "RCPT" + " " + "TO" + ":" + recipient + "\r\n";
    EnvelopeCommandStep(s, "RCPT", "TO", recipient);
    MessageRun(s.(to := s.to + [Some(recipient)]), body);
    RunCons(s, "RCPT TO:" + recipient + "\r\n", ["DATA\r\n", body + "\r\n.\r\n"]);
  }

  /**
   * DATA followed by a body chunk ending in "\r\n.\r\n", whose body is not all
   * white space, stores the chunk and leaves the record as it was before DATA.
   */
  lemma MessageRun(s: SocketData, body: string)
    requires s.saidhello && !s.dataToggle
    requires !AllWhiteSpace(body)
    ensures Run(s, ["DATA\r\n", body + "\r\n.\r\n"])
         == Trace(s, [ReplyEnterMessage, ReplyOk], body + "\r\n.\r\n", false, false)
  {
    DataStep(s);
    BodyStep(s.(dataToggle := true), body);
    RunOne(s.(dataToggle := true), body + "\r\n.\r\n");
    RunCons(s, "DATA\r\n", [body + "\r\n.\r\n"]);
  }

  lemma EhloStep(domain: string)
    requires Word(domain)
    ensures Step(Initial, "EHLO " + domain + "\r\n")
         == Reply(Initial.(saidhello := true), [ReplyHello, ReplyStartTlsCapability])
  {
    var c := "EHLO " + domain + "\r\n";
    assert c == "EHLO" + " " + domain + "\r\n";
    CommandLine("EHLO", domain);
    EhloAdvertisesStartTls(Initial, c);
  }

  /** MAIL FROM:<address> or RCPT TO:<address>, sent with CRLF, appends the address to `to`. */
  lemma EnvelopeCommandStep(s: SocketData, verb: string, param: string, address: string)
    requires s.saidhello && !s.dataToggle && Word(address)
    requires (verb == "MAIL" && param == "FROM") || (verb == "RCPT" && param == "TO")
    ensures Step(s, verb + " " + param + ":" + address + "\r\n")
         == Reply(s.(to := s.to + [Some(address)]), [ReplyOk])
  {
    var c := verb + " " + param + ":" + address + "\r\n";
    EnvelopeLine(verb, param, address);
    EnvelopeAppend(s, c, [verb + " " + param, address]);
  }

  lemma DataStep(s: SocketData)
    requires s.saidhello && !s.dataToggle
    ensures Step(s, "DATA\r\n") == Reply(s.(dataToggle := true), [ReplyEnterMessage])
  {
    assert "DATA\r\n" == "DATA" + "\r\n";
    VerbLine("DATA");
    DataEntersDataMode(s, "DATA\r\n");
  }

  /**
   * A body chunk ending in "\r\n.\r\n" trims to the body without its leading
   * white space followed by "\r\n.", or, when the body is all white space,
   * to a lone ".".
   */
  lemma BodyChunkTrim(body: string)
    ensures Trim(body + "\r\n.\r\n") == if AllWhiteSpace(body) then "." else TrimStart(body) + "\r\n."
  {
    var x := body + "\r\n.";
    assert body + "\r\n.\r\n" == x + "\r\n";
    TrimEndPadded(x, "\r\n");
    assert x[|x| - 1] == '.';
    assert TrimEnd(x) == x;
    if AllWhiteSpace(body) {
      TrimStartWhitePrefix(body, "\r\n.");
      assert TrimStart("\r\n.") == TrimStart("\n.") == TrimStart(".") == ".";
    } else {
      TrimStartAppend(body, "\r\n.");
    }
  }

  /**
   * In data mode a chunk ending in "\r\n.\r\n" is stored, and it ends data mode
   * with `250 OK` exactly when the body before the terminator is not all
   * white space; an empty or blank body leaves data mode on, with no reply.
   */
  lemma BodyStep(s: SocketData, body: string)
    requires s.dataToggle
    ensures Step(s, body + "\r\n.\r\n")
         == if AllWhiteSpace(body) then Outcome(s, [], body + "\r\n.\r\n", false, false)
            else Outcome(s.(dataToggle := false), [ReplyOk], body + "\r\n.\r\n", false, false)
  {
    var c := body + "\r\n.\r\n";
    assert |c| >= 5;
    BodyChunkTrim(body);
    DataModeAppends(s, c);
    var t := Trim(c);
    if !AllWhiteSpace(body) {
      assert t[|t| - 2] == '\n' && t[|t| - 1] == '.';
    }
  }

  /**
   * The same body sent one line per chunk never leaves data mode: the
   * terminator chunk ".\r\n" is stored like any other and no reply follows.
   */
  lemma LineByLineBodyNeverEnds(s: SocketData, line: string)
    requires s.dataToggle && '\n' !in line
    requires line != [] && !IsWhiteSpace(line[0]) && !IsWhiteSpace(line[|line| - 1])
    ensures Run(s, [line + "\r\n", ".\r\n"]) == Trace(s, [], line + "\r\n" + ".\r\n", false, false)
  {
    var c := line + "\r\n";
    TrimCrLf(line);
    DataModeAppends(s, c);
    DotLineStaysInDataMode(s);
    RunOne(s, ".\r\n");
    RunCons(s, c, [".\r\n"]);
  }
}
