/**
 * The SMTP probe (`smtp_probe`): one session driven through EHLO, a HELO
 * fallback, MAIL FROM and RCPT TO. The live transport is replaced by a
 * scripted `Session` saying how the server answers each command, so the
 * probe is a function from the script to its result and to the commands it
 * issued.
 */
module SmtpProbe {
  import opened Wrappers
  import opened PyText
  import opened Utf8
  import opened SmtpClassify

  /** A reply text as the transport hands it over: `str` or `bytes`. */
  datatype Message = Text(text: string) | Bytes(bytes: seq<byte>)

  /** The text a reply carries: bytes decoded as UTF-8 with replacement, or the text itself. */
  function RawText(m: Message): string {
    match m
    case Bytes(b) => Decode(b)
    case Text(t) => t
  }

  /** `_decode_smtp_message`: the reply's text with the whitespace at both ends
      removed, and with nothing else changed. */
  function DecodeMessage(m: Message): (r: string)
    ensures r == [] || (!IsSpace(r[0]) && !IsSpace(r[|r| - 1]))
    ensures StripsTo(RawText(m), r)
  {
    match m
    case Bytes(b) => Strip(Decode(b))
    case Text(t) => Strip(t)
  }

  /** A text and its UTF-8 encoding decode to the same message. */
  lemma DecodeMessageAgrees(t: string)
    ensures DecodeMessage(Bytes(Encode(t))) == DecodeMessage(Text(t))
  {
    DecodeEncode(t);
  }

  datatype Reply = Reply(code: int, message: Message)

  /** The exceptions a session can raise. Every smtplib exception derives from
      `smtplib.SMTPException`, which derives from `OSError`. */
  datatype SmtpError =
    | RecipientsRefused(recipients: map<string, Reply>)               // SMTPRecipientsRefused
    | ConnectError(code: int, message: Message)                       // SMTPConnectError
    | ServerDisconnected                                              // SMTPServerDisconnected
    | ResponseError(className: string, code: int, message: Message)   // SMTPResponseException and its other subclasses
    | OtherSmtpError(className: string)                               // SMTPException subclasses that carry no reply
    | OsError(className: string)                                      // TimeoutError, ConnectionRefusedError, other OSError
    | UnicodeEncodeError
    | OtherError(className: string)                                   // any exception outside OSError
  {
    /** `type(exc).__name__` */
    function ClassName(): string {
      match this
      case RecipientsRefused(_) => "SMTPRecipientsRefused"
      case ConnectError(_, _) => "SMTPConnectError"
      case ServerDisconnected => "SMTPServerDisconnected"
      case ResponseError(name, _, _) => name
      case OtherSmtpError(name) => name
      case OsError(name) => name
      case UnicodeEncodeError => "UnicodeEncodeError"
      case OtherError(name) => name
    }

    predicate IsOSError() {
      !(UnicodeEncodeError? || OtherError?)
    }
  }

  /** The verdict, the status code as text (`-` when no reply was observed) and a detail. */
  datatype SmtpCheckResult = SmtpCheckResult(verdict: Verdict, code: string, detail: string)

  const NoCode: string := "-"

  /** The `except` clauses of the probe, in source order. */
  datatype Handler =
    | OnRecipientsRefused
    | OnConnectOrDisconnect
    | OnOSError
    | OnResponseException
    | OnUnicodeEncode
    | OnAnyException

  const Handlers: seq<Handler> :=
    [OnRecipientsRefused, OnConnectOrDisconnect, OnOSError, OnResponseException, OnUnicodeEncode, OnAnyException]

  /** `isinstance(e, <classes of clause h>)`. */
  predicate Catches(h: Handler, e: SmtpError) {
    match h
    case OnRecipientsRefused => e.RecipientsRefused?
    case OnConnectOrDisconnect => e.ConnectError? || e.ServerDisconnected?
    case OnOSError => e.IsOSError()
    case OnResponseException => e.ConnectError? || e.ResponseError?
    case OnUnicodeEncode => e.UnicodeEncodeError?
    case OnAnyException => true
  }

  /** The first clause, from index `i` on, that catches `e`. */
  function FirstCatchingFrom(e: SmtpError, i: nat): (k: nat)
    requires i < |Handlers|
    ensures i <= k < |Handlers| && Catches(Handlers[k], e)
    ensures forall j :: i <= j < k ==> !Catches(Handlers[j], e)
    decreases |Handlers| - i
  {
    if Catches(Handlers[i], e) then i else FirstCatchingFrom(e, i + 1)
  }

  /** What the clause that catches `e` returns. */
  function Handle(h: Handler, email: string, e: SmtpError): SmtpCheckResult
    requires Catches(h, e)
  {
    match h
    case OnRecipientsRefused =>
      if email in e.recipients then
        var reply := e.recipients[email];
        var decoded := DecodeMessage(reply.message);
        SmtpCheckResult(Classify(reply.code, decoded), IntToString(reply.code), decoded)
      else SmtpCheckResult(ServerBlocked, NoCode, "recipients_refused")
    case OnConnectOrDisconnect => SmtpCheckResult(ConnectionError, NoCode, e.ClassName())
    case OnOSError => SmtpCheckResult(ConnectionError, NoCode, e.ClassName())
    case OnResponseException =>
      var decoded := DecodeMessage(e.message);
      SmtpCheckResult(Classify(e.code, decoded), IntToString(e.code), decoded)
    case OnUnicodeEncode => SmtpCheckResult(ServerBlocked, NoCode, "email_encoding_error")
    case OnAnyException => SmtpCheckResult(ServerBlocked, NoCode, "smtp_error:" + e.ClassName())
  }

  /** The result of an exception escaping the session. */
  function HandleFailure(email: string, e: SmtpError): SmtpCheckResult {
    var k := FirstCatchingFrom(e, 0);
    Handle(Handlers[k], email, e)
  }

  /** The clause for `SMTPResponseException` never runs: every such exception
      is an `OSError` and is caught by the clause before it. */
  lemma ResponseHandlerUnreachable(e: SmtpError)
    ensures Handlers[FirstCatchingFrom(e, 0)] != OnResponseException
  {
  }

  /** Consequently a reply-carrying smtplib exception is reported as a
      connection error named after its class, and its code is not classified. */
  lemma ResponseErrorIsConnectionError(email: string, name: string, code: int, m: Message)
    ensures HandleFailure(email, ResponseError(name, code, m)) == SmtpCheckResult(ConnectionError, NoCode, name)
  {
    var e := ResponseError(name, code, m);
    assert !Catches(Handlers[0], e) && !Catches(Handlers[1], e) && Catches(Handlers[2], e);
    assert FirstCatchingFrom(e, 0) == 2;
  }

  /** Connection, disconnection, timeout and other OS-level failures give
      `connection_error` with no code and the exception's class name. */
  lemma TransportFailureIsConnectionError(email: string, e: SmtpError)
    requires e.IsOSError() && !e.RecipientsRefused?
    ensures HandleFailure(email, e) == SmtpCheckResult(ConnectionError, NoCode, e.ClassName())
  {
  }

  /** How the scripted server answers one command: a reply, or an exception. */
  datatype Step = Replied(reply: Reply) | Raised(error: SmtpError)

  /** The scripted session: whether connecting raises, and the outcome of each command. */
  datatype Session = Session(connect: Option<SmtpError>, ehlo: Step, helo: Step, mail: Step, rcpt: Step)

  datatype Command = Ehlo | Helo | MailFrom(sender: string) | RcptTo(recipient: string)

  /** The fixed placeholder sender of the MAIL FROM command. */
  const ProbeSender: string := "check@local.test"

  /** The probe's result and the commands it issued, in order. */
  datatype ProbeRun = ProbeRun(result: SmtpCheckResult, sent: seq<Command>)

  /** EHLO was answered with a rejection, so the probe falls back to HELO. */
  predicate EhloRejected(s: Session) {
    s.connect.None? && s.ehlo.Replied? && s.ehlo.reply.code >= 400
  }

  /** The greeting phase ended with an accepted EHLO or HELO. */
  predicate Greeted(s: Session) {
    && s.connect.None? && s.ehlo.Replied?
    && (s.ehlo.reply.code >= 400 ==> s.helo.Replied? && s.helo.reply.code < 400)
  }

  /** The command sequences the state machine can issue: EHLO, optionally HELO, MAIL FROM, RCPT TO, cut short anywhere. */
  ghost predicate IsProtocolPrefix(sent: seq<Command>, email: string) {
    || sent <= [Ehlo, MailFrom(ProbeSender), RcptTo(email)]
    || sent <= [Ehlo, Helo, MailFrom(ProbeSender), RcptTo(email)]
  }

  /** A result whose code field is either the sentinel or a rendered status code. */
  predicate WellFormedCode(r: SmtpCheckResult) {
    r.code == NoCode || IsIntegerLiteral(r.code)
  }

  /** `smtp_probe(email, mx_host, timeout)` against the scripted session. */
  function Probe(email: string, s: Session): (run: ProbeRun)
    ensures IsProtocolPrefix(run.sent, email)
    ensures Helo in run.sent <==> EhloRejected(s)
    ensures MailFrom(ProbeSender) in run.sent <==> Greeted(s)
    ensures RcptTo(email) in run.sent <==> Greeted(s) && s.mail.Replied? && s.mail.reply.code < 400
    ensures run.result.verdict == ConnectionError ==> run.result.code == NoCode
    ensures WellFormedCode(run.result)
  {
    if s.connect.Some? then ProbeRun(Failure(email, s.connect.value), [])
    else match s.ehlo
      case Raised(e) => ProbeRun(Failure(email, e), [Ehlo])
      case Replied(greeting) =>
        if greeting.code < 400 then AfterGreeting(email, s, [Ehlo])
        else match s.helo
          case Raised(e) => ProbeRun(Failure(email, e), [Ehlo, Helo])
          case Replied(fallback) =>
            if fallback.code >= 400 then
              var decoded := DecodeMessage(fallback.message);
              ProbeRun(Coded(ServerBlocked, fallback.code, "helo_rejected:" + decoded), [Ehlo, Helo])
            else AfterGreeting(email, s, [Ehlo, Helo])
  }

  /** MAIL FROM and RCPT TO, once a greeting was accepted. */
  function AfterGreeting(email: string, s: Session, greeted: seq<Command>): (run: ProbeRun)
    requires greeted == [Ehlo] || greeted == [Ehlo, Helo]
    ensures |run.sent| > |greeted| && run.sent[..|greeted|] == greeted
    ensures run.sent[|greeted|] == MailFrom(ProbeSender)
    ensures |run.sent| == |greeted| + 2 <==> s.mail.Replied? && s.mail.reply.code < 400
    ensures |run.sent| <= |greeted| + 2
    ensures |run.sent| == |greeted| + 2 ==> run.sent[|greeted| + 1] == RcptTo(email)
    ensures run.result.verdict == ConnectionError ==> run.result.code == NoCode
    ensures WellFormedCode(run.result)
  {
    var withMail := greeted + [MailFrom(ProbeSender)];
    match s.mail
    case Raised(e) => ProbeRun(Failure(email, e), withMail)
    case Replied(m) =>
      if m.code >= 400 then
        var decoded := DecodeMessage(m.message);
        ProbeRun(Coded(Classify(m.code, decoded), m.code, "mail_from_rejected:" + decoded), withMail)
      else
        var withRcpt := withMail + [RcptTo(email)];
        match s.rcpt
        case Raised(e) => ProbeRun(Failure(email, e), withRcpt)
        case Replied(r) =>
          var decoded := DecodeMessage(r.message);
          ProbeRun(Coded(Classify(r.code, decoded), r.code, if decoded == [] then "rcpt_response_empty" else decoded), withRcpt)
  }

  /** A result carrying an observed status code, rendered as `str(code)`. */
  function Coded(v: Verdict, code: int, detail: string): (r: SmtpCheckResult)
    requires v != ConnectionError
    ensures r.verdict == v && r.detail == detail && IsIntegerLiteral(r.code) && ParseInt(r.code) == code
  {
    IntToStringRoundTrip(code);
    SmtpCheckResult(v, IntToString(code), detail)
  }

  function Failure(email: string, e: SmtpError): (r: SmtpCheckResult)
    ensures r.verdict == ConnectionError ==> r.code == NoCode
    ensures WellFormedCode(r)
  {
    if e.RecipientsRefused? && email in e.recipients then
      IntToStringRoundTrip(e.recipients[email].code);
      HandleFailure(email, e)
    else HandleFailure(email, e)
  }

  /** An exception from connecting or from any command the probe reaches
      leaves the `with` block: the probe stops there and the first matching
      handler decides the result. */
  lemma RaisedExceptionIsHandled(email: string, s: Session, e: SmtpError)
    ensures s.connect == Some(e) ==> Probe(email, s) == ProbeRun(HandleFailure(email, e), [])
    ensures s.connect.None? && s.ehlo == Raised(e) ==>
      Probe(email, s) == ProbeRun(HandleFailure(email, e), [Ehlo])
    ensures EhloRejected(s) && s.helo == Raised(e) ==>
      Probe(email, s) == ProbeRun(HandleFailure(email, e), [Ehlo, Helo])
    ensures Greeted(s) && s.mail == Raised(e) ==>
      && Probe(email, s).result == HandleFailure(email, e)
      && Probe(email, s).sent[|Probe(email, s).sent| - 1] == MailFrom(ProbeSender)
    ensures Greeted(s) && s.mail.Replied? && s.mail.reply.code < 400 && s.rcpt == Raised(e) ==>
      && Probe(email, s).result == HandleFailure(email, e)
      && Probe(email, s).sent[|Probe(email, s).sent| - 1] == RcptTo(email)
  {
  }

  /** A rejected HELO ends the probe as `server_blocked` with the HELO code, before MAIL FROM. */
  lemma HeloRejectedIsBlocked(email: string, s: Session)
    requires EhloRejected(s) && s.helo.Replied? && s.helo.reply.code >= 400
    ensures var run := Probe(email, s);
      && run.result == SmtpCheckResult(ServerBlocked, IntToString(s.helo.reply.code),
                                       "helo_rejected:" + DecodeMessage(s.helo.reply.message))
      && run.sent == [Ehlo, Helo]
  {
  }

  /** A rejected MAIL FROM is classified, marked as a sender-stage failure, and RCPT TO is never sent. */
  lemma MailRejectedStopsProbe(email: string, s: Session)
    requires Greeted(s) && s.mail.Replied? && s.mail.reply.code >= 400
    ensures var run := Probe(email, s);
      var decoded := DecodeMessage(s.mail.reply.message);
      && run.result == SmtpCheckResult(Classify(s.mail.reply.code, decoded), IntToString(s.mail.reply.code),
                                       "mail_from_rejected:" + decoded)
      && RcptTo(email) !in run.sent
  {
  }

  /** The RCPT TO reply is classified whether it accepts or rejects; an empty message gets a placeholder detail. */
  lemma RecipientReplyIsClassified(email: string, s: Session)
    requires Greeted(s) && s.mail.Replied? && s.mail.reply.code < 400 && s.rcpt.Replied?
    ensures var run := Probe(email, s);
      var decoded := DecodeMessage(s.rcpt.reply.message);
      && run.result.verdict == Classify(s.rcpt.reply.code, decoded)
      && run.result.code == IntToString(s.rcpt.reply.code)
      && run.result.detail == (if decoded == [] then "rcpt_response_empty" else decoded)
  {
  }

  /** A server that refuses the connection yields `connection_error` and no command is sent. */
  lemma RefusedConnection(email: string, s: Session)
    requires s.connect == Some(OsError("ConnectionRefusedError"))
    ensures Probe(email, s) == ProbeRun(SmtpCheckResult(ConnectionError, NoCode, "ConnectionRefusedError"), [])
  {
  }
}
