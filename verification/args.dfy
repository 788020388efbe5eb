/**
 * The Telegram sender's input checks: `validate_args` and `_parse_retry_after`.
 */
module TelegramArgs {
  import opened Wrappers
  import opened PyText

  /** The validated command-line options; the HTTP timeout is a real number of seconds. */
  datatype Args = Args(chatId: string, timeout: real, maxRetries: int)

  /** The `InputValidationError`s `validate_args` raises, in the order it checks for them. */
  datatype ArgError = BadChatId | NonPositiveTimeout | NegativeRetries {
    function Message(): string {
      match this
      case BadChatId => "Invalid --chat-id. Expected numeric value, e.g. 123456789 or -1001234567890."
      case NonPositiveTimeout => "--timeout must be > 0."
      case NegativeRetries => "--max-retries must be >= 0."
    }
  }

  /** `validate_args`: `None` when the options pass, otherwise the first check that fails. */
  function ValidateArgs(a: Args): (r: Option<ArgError>)
    ensures r.None? <==> IsIntegerLiteral(a.chatId) && a.timeout > 0.0 && a.maxRetries >= 0
    ensures r == Some(BadChatId) <==> !IsIntegerLiteral(a.chatId)
    ensures r == Some(NonPositiveTimeout) <==> IsIntegerLiteral(a.chatId) && a.timeout <= 0.0
    ensures r == Some(NegativeRetries) <==> IsIntegerLiteral(a.chatId) && a.timeout > 0.0 && a.maxRetries < 0
  {
    if !IsIntegerLiteral(a.chatId) then Some(BadChatId)
    else if a.timeout <= 0.0 then Some(NonPositiveTimeout)
    else if a.maxRetries < 0 then Some(NegativeRetries)
    else None
  }

  /** Every integer, written in decimal, is an acceptable chat id, and an accepted chat id reads back as that integer. */
  lemma ChatIdsAreIntegers(n: int, timeout: real, maxRetries: int)
    requires timeout > 0.0 && maxRetries >= 0
    ensures ValidateArgs(Args(IntToString(n), timeout, maxRetries)) == None
    ensures ParseInt(IntToString(n)) == n
  {
    IntToStringRoundTrip(n);
  }

  /** A chat id with anything besides one leading minus sign and digits is refused, whatever the other options. */
  lemma NamedChatRejected(timeout: real, maxRetries: int)
    ensures ValidateArgs(Args("@channel", timeout, maxRetries)) == Some(BadChatId)
    ensures ValidateArgs(Args("", timeout, maxRetries)) == Some(BadChatId)
    ensures ValidateArgs(Args("-", timeout, maxRetries)) == Some(BadChatId)
  {
    assert !IsDigit("@channel"[0]);
    assert Unsigned("-") == [];
  }

  /** A decoded JSON value. Python's `bool` is a subclass of `int`, so the two are kept apart here and treated alike below. */
  datatype Json =
    | JNull
    | JBool(b: bool)
    | JInt(i: int)
    | JFloat(f: real)
    | JString(s: string)
    | JArray(items: seq<Json>)
    | JObject(fields: map<string, Json>)

  /** `payload["parameters"]["retry_after"]` exists and, read as a Python `int`, is `n`. */
  ghost predicate DeclaresRetryAfter(payload: map<string, Json>, n: nat) {
    && "parameters" in payload
    && payload["parameters"].JObject?
    && "retry_after" in payload["parameters"].fields
    && var v := payload["parameters"].fields["retry_after"];
       v == JInt(n) || (n <= 1 && v == JBool(n == 1))
  }

  /** `_parse_retry_after`: the non-negative integer at `parameters.retry_after`, if there is one. */
  function ParseRetryAfter(payload: map<string, Json>): (r: Option<nat>)
    ensures r.Some? ==> DeclaresRetryAfter(payload, r.value)
    ensures r.None? <==> forall n: nat :: !DeclaresRetryAfter(payload, n)
  {
    if "parameters" in payload && payload["parameters"].JObject? then
      var parameters := payload["parameters"].fields;
      if "retry_after" in parameters then
        match parameters["retry_after"]
        case JInt(i) =>
          if i >= 0 then assert DeclaresRetryAfter(payload, i); Some(i) else None
        case JBool(b) =>
          var n: nat := if b then 1 else 0;
          assert DeclaresRetryAfter(payload, n);
          Some(n)
        case _ => None
      else None
    else None
  }

  /** What Telegram sends with a 429 reply. */
  function FloodWaitReply(n: nat): map<string, Json> {
    map[
      "ok" := JBool(false),
      "error_code" := JInt(429),
      "description" := JString("Too Many Requests: retry after " + NatToString(n)),
      "parameters" := JObject(map["retry_after" := JInt(n)])
    ]
  }

  lemma FloodWaitParsed(n: nat)
    ensures ParseRetryAfter(FloodWaitReply(n)) == Some(n)
  {
    assert DeclaresRetryAfter(FloodWaitReply(n), n);
  }

  /** A negative, fractional or textual `retry_after`, or a `parameters` that is not an object, gives nothing. */
  lemma MalformedRetryAfterIgnored(other: map<string, Json>)
    ensures ParseRetryAfter(other["parameters" := JObject(map["retry_after" := JInt(-5)])]) == None
    ensures ParseRetryAfter(other["parameters" := JObject(map["retry_after" := JFloat(2.5)])]) == None
    ensures ParseRetryAfter(other["parameters" := JObject(map["retry_after" := JString("3")])]) == None
    ensures ParseRetryAfter(other["parameters" := JArray([JInt(3)])]) == None
  {
  }
}
