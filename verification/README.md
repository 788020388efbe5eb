# Email domain checker and Telegram text sender, modelled in Dafny

The repository holds two command-line tools. This project models the pure, sequential core of each one.
Their I/O is turned into data that the model takes as input.

**Email checker** (`email_check.py`):
- The address pattern `EMAIL_RE`, written out as a grammar of labels (`Address`).
- `extract_domain`, with the IDNA codec passed in as a partial function (`Address.ExtractDomain`).
- The post-processing of an MX lookup in `check_domain_mx` (`MxResolve`):
  - resolver exceptions become statuses and detail tokens;
  - trailing dots are stripped and null MX records dropped;
  - the remaining records are stably sorted by preference.
- The SMTP response classifier `classify_smtp` (`SmtpClassify`).
- The SMTP probe `smtp_probe`, run against a scripted session (`SmtpProbe`). The session gives one reply or one exception per command.
  - Its `except` clauses are kept as data, in source order (`Handlers`, `FirstCatchingFrom`).
- `_decode_smtp_message`, including UTF-8 decoding with replacement (`Utf8`).
- `format_table` (`Table`).
- The per-address loop of `main`, with its per-run domain cache (`EmailBatch`).

**Telegram sender** (`send_text.py`):
- `split_into_chunks` (`Chunking`).
- `_is_retryable_api_error`, `_retry_delay_seconds`, `send_chunk_with_retry` and `send_text` (`TelegramRetry`).
  - Each HTTP call is one entry of a script, `call(chunk, attempt)`.
  - Each sleep is recorded as a delay.
- `validate_args` and `_parse_retry_after` (`TelegramArgs`).

The Python string operations the code relies on live in `PyText`:
- `strip`, ASCII `lower`, `in`, `rfind`, `split`, `join`, `ljust`, `str(int)`, and the `-?\d+` pattern.

Two behaviours of the code that its structure does not suggest:
- **Timeouts.** dnspython's `LifetimeTimeout` is a subclass of `dns.exception.Timeout`. The clause for `Timeout` therefore also catches it, and `MxResolve.ErrorDetail` gives both timeouts the token `dns_timeout`.
- **Reply-carrying smtplib errors.** `smtplib.SMTPException` derives from `OSError`. `SMTPRecipientsRefused` is caught first (line 205) and `SMTPConnectError` next (line 212); every other `SMTPResponseException` falls to the `OSError` clause (line 214). The `SMTPResponseException` clause (line 216) never runs, and such a reply is reported as `connection_error` instead of being classified. `SmtpProbe.ResponseHandlerUnreachable` and `SmtpProbe.ResponseErrorIsConnectionError` state this.

## Model

In the source column, `email_mx_smtp_test/email_check.py` is the email checker and `telegram_text_sender/send_text.py` is the Telegram sender.

| member | source | states |
|---|---|---|
| SmtpClassify.Classify | email_mx_smtp_test/email_check.py:158-172 | Every verdict is one of the four classifier labels, never `connection_error`. `exists_likely` iff the code is 250/251. `temp_fail` iff 421/450/451/452. `not_exists` iff the code is 550/551/553 and the lower-cased message holds no policy keyword. `server_blocked` in every other case. |
| SmtpClassify.MessageMattersOnlyForUnavailable | email_mx_smtp_test/email_check.py:166-172 | Outside 550/551/553 the message text never changes the verdict. |
| SmtpClassify.ClassifyIgnoresCase | email_mx_smtp_test/email_check.py:158-172 | Two messages that lower-case to the same text get the same verdict for every code. |
| SmtpClassify.ClassifyLowered | email_mx_smtp_test/email_check.py:158-172 | Lower-casing a message before classifying it does not change the verdict. |
| SmtpClassify.UnknownUserIsNotExists | email_mx_smtp_test/email_check.py:42-52 | A 550 saying "user unknown" contains no policy keyword and is `not_exists`. |
| SmtpClassify.BlacklistIsServerBlocked | email_mx_smtp_test/email_check.py:162-164 | A 550 mentioning "BLACKLISTED" in upper case is a policy block. |
| Address.HostMatchesGrammar | email_mx_smtp_test/email_check.py:41 | The recursive host check accepts a string iff it is one or more `[A-Za-z0-9-]+` labels, each followed by a dot, and then 2 to 63 ASCII letters. |
| Address.GeneratedHostIsHost | email_mx_smtp_test/email_check.py:41 | Every host the pattern's host part generates passes the host check. |
| Address.HostIsGenerated | email_mx_smtp_test/email_check.py:41 | Every host that passes the check is generated by the pattern, and the lemma returns the labels and the final label. |
| Address.MatchesWholeGrammar | email_mx_smtp_test/email_check.py:41 | A string matches the whole pattern iff it is a non-empty local part free of `@` and whitespace, one `@`, and a generated host. |
| Address.IsValidEmail | email_mx_smtp_test/email_check.py:89-90 | The pattern test. `MatchesWholeGrammar` gives the grammar it accepts, and `StrippedEmailMatchesWhole` shows the `$` newline allowance never matters on stripped input. |
| Address.StrippedEmailMatchesWhole | email_mx_smtp_test/email_check.py:89-90 | On stripped input, the `$` anchor's allowance for a final newline never changes the verdict. |
| Address.HostHasNoAtOrSpace | email_mx_smtp_test/email_check.py:41 | A generated host contains no `@` and no whitespace. |
| Address.ExtractDomain | email_mx_smtp_test/email_check.py:93-103 | Without `@` the result is `None`. With one, the text after the LAST `@` is stripped and lower-cased; if that is empty the result is `None`, otherwise it is the IDNA codec's answer for that text. |
| Address.RFindIsLastAt | email_mx_smtp_test/email_check.py:96 | `rsplit("@", 1)` cuts at an `@` with no `@` after it. |
| Address.OnlyAt | email_mx_smtp_test/email_check.py:96 | In a well-formed address, `rsplit("@", 1)` splits at the first and only `@`. |
| Address.ValidEmailDomain | email_mx_smtp_test/email_check.py:93-103 | For a well-formed address, the domain is the IDNA codec applied to the lower-cased host after the `@`. Stripping changes nothing, and the empty case cannot arise. |
| MxResolve.Survivors | email_mx_smtp_test/email_check.py:137-148 | No more exchangers than records. Every surviving host is non-empty and does not end in a dot. Order and multiplicity are fixed by `SurvivorsOne` and `SurvivorsAppend`. |
| MxResolve.SurvivorsMembers | email_mx_smtp_test/email_check.py:137-148 | An exchanger survives iff some parseable record, with its trailing dots stripped, gives it with a non-empty host. |
| MxResolve.SurvivorsOne | email_mx_smtp_test/email_check.py:139-148 | A single record gives at most one exchanger: none when it does not parse or its host is empty, otherwise exactly its parse. |
| MxResolve.SurvivorsAppend | email_mx_smtp_test/email_check.py:137-148 | The survivors of two runs of records, one after the other, are the survivors of each run in that order, so the loop keeps answer order and duplicates. |
| MxResolve.SortByPreferenceIsStable | email_mx_smtp_test/email_check.py:153 | The sort is ordered by preference and is a permutation. Entries of equal preference keep their answer order. |
| MxResolve.StableSortIsUnique | email_mx_smtp_test/email_check.py:153 | Two lists that are both ordered and keep each preference class in the same order are equal, so a stable sort is unique. |
| MxResolve.SortByPreferenceHosts | email_mx_smtp_test/email_check.py:153-154 | The sorted host list is a permutation of the surviving hosts. |
| MxResolve.CheckDomainMx | email_mx_smtp_test/email_check.py:117-155 | DOMAIN_ABSENT iff NXDOMAIN. DOMAIN_VALID iff an answer left a surviving record, and then there is at least one host. Otherwise there are no hosts. A resolver error gives its clause's token. An answer with no survivors gives `mx_records_invalid_or_empty`. |
| MxResolve.ValidHostsAreStablySorted | email_mx_smtp_test/email_check.py:150-155 | A valid result lists exactly the hosts of any stable sort of the survivors by preference. The list is a permutation of the surviving hosts. |
| MxResolve.ErrorDetailsDistinct | email_mx_smtp_test/email_check.py:118-135 | Different resolver errors give different detail tokens, except the two timeout kinds. |
| MxResolve.ErrorDetail | email_mx_smtp_test/email_check.py:118-135 | The detail token of each resolver exception. `ErrorDetailsDistinct` shows the tokens tell the errors apart except the two timeouts, and `CheckDomainMx` shows each one reaches the result. |
| MxResolve.NullMxIsInvalid | email_mx_smtp_test/email_check.py:145-151 | An answer whose only record is the null MX "." is MX-invalid with no hosts. |
| MxResolve.PreferenceOrderExample | email_mx_smtp_test/email_check.py:137-155 | Records with preferences 20, 10, 30 give their hosts in the order 10, 20, 30, without trailing dots. |
| SmtpProbe.DecodeMessage | email_mx_smtp_test/email_check.py:227-230 | The result is the reply's raw text (the UTF-8 decoding of bytes, or the text itself) with the whitespace at both ends removed and nothing else changed. It neither starts nor ends with whitespace. |
| PyText.Strip | email_mx_smtp_test/email_check.py:227-230 | `strip()` removes exactly the leading and trailing whitespace: the input is whitespace, then the result, then whitespace, and the result has none at its ends. |
| PyText.StripsToUnique | email_mx_smtp_test/email_check.py:227-230 | Only one text can be the input with its end whitespace removed. |
| PyText.StripCharacterized | email_mx_smtp_test/email_check.py:227-230 | A text is the input with its end whitespace removed iff it is `Strip` of the input. |
| SmtpProbe.DecodeMessageAgrees | email_mx_smtp_test/email_check.py:227-230 | Bytes that are the UTF-8 encoding of a text decode to the same message as the text itself. |
| Utf8.Decode | email_mx_smtp_test/email_check.py:229 | Decoding with replacement never yields more characters than there are bytes. What it yields is fixed by `DecodeEncode` for well-formed input and by `InvalidByteInText` and `TruncatedInText` for ill-formed input. |
| Utf8.DecodeEncode | email_mx_smtp_test/email_check.py:229 | Decoding inverts UTF-8 encoding for every text. |
| Utf8.DecodeAscii | email_mx_smtp_test/email_check.py:229 | ASCII bytes decode one-for-one to the characters with the same code. |
| Utf8.DecodeEncodePrefix | email_mx_smtp_test/email_check.py:229 | Encoded text followed by any bytes decodes to that text, then the bytes decoded. |
| Utf8.InvalidLeadReplaced | email_mx_smtp_test/email_check.py:229 | A byte that cannot start a sequence (80 to C1, F5 to FF) becomes one U+FFFD, and decoding resumes at the next byte. |
| Utf8.TruncatedReplaced | email_mx_smtp_test/email_check.py:229 | A lead byte with fewer acceptable continuation bytes than it announces, followed by the end of input or a byte that does not fit, becomes a single U+FFFD, and decoding resumes right after it. |
| Utf8.InvalidByteInText | email_mx_smtp_test/email_check.py:229 | Inside well-formed text, a byte that cannot start a sequence is replaced by exactly one U+FFFD and the text around it is kept. |
| Utf8.TruncatedInText | email_mx_smtp_test/email_check.py:229 | Inside well-formed text, a sequence cut short before the end of input or an ASCII character is replaced by exactly one U+FFFD and the text around it is kept. |
| Utf8.ReplacementExamples | email_mx_smtp_test/email_check.py:229 | A cut-short euro sign gives one U+FFFD, the overlong E0 80 gives two, and FF 41 gives U+FFFD then `A`. |
| SmtpProbe.FirstCatchingFrom | email_mx_smtp_test/email_check.py:205-224 | The chosen clause catches the exception, and no earlier clause does. |
| SmtpProbe.HandleFailure | email_mx_smtp_test/email_check.py:205-224 | The result of the first `except` clause that catches the exception. `FirstCatchingFrom` picks that clause, `ResponseErrorIsConnectionError` and `TransportFailureIsConnectionError` give the connection-error results, and `RaisedExceptionIsHandled` shows every raise in the probe ends here. |
| SmtpProbe.ResponseHandlerUnreachable | email_mx_smtp_test/email_check.py:214-220 | The `SMTPResponseException` clause is never the first to catch an exception. |
| SmtpProbe.ResponseErrorIsConnectionError | email_mx_smtp_test/email_check.py:214-220 | A reply-carrying smtplib error gives `connection_error`, code `-` and its class name. Its code is not classified. |
| SmtpProbe.TransportFailureIsConnectionError | email_mx_smtp_test/email_check.py:212-215 | Connect, disconnect, timeout and other OS-level failures give `connection_error`, code `-` and the exception's class name. |
| SmtpProbe.Probe | email_mx_smtp_test/email_check.py:175-204 | The commands sent follow EHLO, optional HELO, MAIL FROM, RCPT TO, possibly cut short. HELO is sent iff EHLO was answered with a code of 400 or more. MAIL FROM is sent iff a greeting was accepted. RCPT TO is sent iff MAIL FROM was also accepted. `connection_error` always carries code `-`. Every code is `-` or a decimal integer. |
| SmtpProbe.AfterGreeting | email_mx_smtp_test/email_check.py:189-204 | After the greeting MAIL FROM is sent. RCPT TO follows iff the server accepted MAIL FROM. Nothing else is sent. |
| SmtpProbe.Coded | email_mx_smtp_test/email_check.py:183-203 | The reported code is the decimal text of the reply code and reads back as that code. |
| SmtpProbe.Failure | email_mx_smtp_test/email_check.py:205-224 | A handled exception's result has code `-` when it is a connection error, and a well-formed code otherwise. |
| SmtpProbe.HeloRejectedIsBlocked | email_mx_smtp_test/email_check.py:179-187 | If EHLO and HELO are both rejected, the result is `server_blocked` with the HELO code and `helo_rejected:` followed by the decoded message. Only EHLO and HELO are sent. |
| SmtpProbe.MailRejectedStopsProbe | email_mx_smtp_test/email_check.py:189-196 | A rejected MAIL FROM is classified, reported with its code and `mail_from_rejected:` plus the message, and RCPT TO is never sent. |
| SmtpProbe.RecipientReplyIsClassified | email_mx_smtp_test/email_check.py:198-204 | The RCPT TO reply is classified whatever its code. An empty decoded message becomes `rcpt_response_empty`. |
| SmtpProbe.RefusedConnection | email_mx_smtp_test/email_check.py:214-215 | A refused connection gives `connection_error`, code `-`, `ConnectionRefusedError`, and no command sent. |
| SmtpProbe.RaisedExceptionIsHandled | email_mx_smtp_test/email_check.py:175-224 | An exception from connecting, EHLO, HELO, MAIL FROM or RCPT TO, whenever the probe reaches that step, ends the probe there with the result of the first matching handler. |
| PyText.IntToStringRoundTrip | email_mx_smtp_test/email_check.py:185 | `str(code)` is a `-?\d+` literal that reads back as the code. |
| Table.MaxCellLength | email_mx_smtp_test/email_check.py:235 | The longest cell bounds every cell of the column and is attained by one of them, or is 0. |
| Table.Width | email_mx_smtp_test/email_check.py:234-237 | A column's width is at least its header and every cell, and equals the header length or some cell length. |
| Table.TableLines | email_mx_smtp_test/email_check.py:239-243 | There are exactly two more lines than rows. |
| Table.TableLayout | email_mx_smtp_test/email_check.py:238-243 | Every line is `sum(widths) + 3*(ncols-1)` long. Column `j` sits at the same offset on every line and holds the left-justified header, the dash run or the cell. Columns are separated by the three-character separator, which is "-+-" on the divider. |
| Table.TableLineCount | email_mx_smtp_test/email_check.py:244 | When no header or cell holds a newline, the output splits on newlines back into exactly its `len(rows)+2` lines. |
| Table.FormatTable | email_mx_smtp_test/email_check.py:233-244 | `format_table`. `TableLines`, `TableLayout` and `TableLineCount` state its line count, line layout and newline splitting. |
| EmailBatch.SkippedRow | email_mx_smtp_test/email_check.py:257-279 | A row skipped before any lookup carries the stripped address, MX_INVALID, `skipped`, code `-` and the reason as its detail. |
| EmailBatch.CheckedRow | email_mx_smtp_test/email_check.py:285-298 | The row carries the domain status. A non-valid domain gives `skipped`, `-` and the domain detail. A valid one gives the probe of the first MX host, with detail `mx:<host>; <probe detail>`. |
| EmailBatch.ParseArgCases | email_mx_smtp_test/email_check.py:254-269 | An argument is stripped, and is well-formed iff it matches the pattern. It gets a domain iff it is well-formed and extraction gives a non-empty domain, and that domain is extraction's result. |
| EmailBatch.ParseArg | email_mx_smtp_test/email_check.py:254-269 | The stripped argument, whether it matches the pattern, and its domain. `ParseArgCases` states each field. |
| EmailBatch.CheckOne | email_mx_smtp_test/email_check.py:254-300 | One iteration records a lookup only for a domain not looked up before. The cache then maps exactly the looked-up domains to the result of their first query. The row is the one its parsed argument gets. |
| EmailBatch.CheckBatch | email_mx_smtp_test/email_check.py:253-300 | Exactly one row per argument, in order. The lookups are the first appearances of the domains. Each row is what `main` reports for its argument, with a domain's result coming from its first query. Every argument is probed afresh: the session for argument `i` is `sessionFor(i, address, host)`, so a repeated address may meet different replies. |
| EmailBatch.RowFor | email_mx_smtp_test/email_check.py:253-300 | The row `main` reports for the argument at a given position. `CheckBatch` shows the loop produces it, and `ProbedIffValid`, `MalformedRow`, `UnencodableDomainRow` and `SharedDomainSharedStatus` state its cases. |
| EmailBatch.LookupsDistinct | email_mx_smtp_test/email_check.py:281-282 | The resolver is queried at most once per domain. |
| EmailBatch.LookupsAreDomains | email_mx_smtp_test/email_check.py:281-282 | A domain is queried iff some argument reaches the lookup with it. |
| EmailBatch.SharedDomainSharedStatus | email_mx_smtp_test/email_check.py:281-287 | Two addresses with the same domain get the same domain status. |
| EmailBatch.ProbedIffValid | email_mx_smtp_test/email_check.py:285-298 | `smtp_result` is `skipped` iff the domain status is not DOMAIN_VALID. |
| EmailBatch.MalformedRow | email_mx_smtp_test/email_check.py:256-266 | An argument that fails the pattern gets no lookup and the `invalid_email_format` row. |
| EmailBatch.UnencodableDomainRow | email_mx_smtp_test/email_check.py:268-279 | A well-formed argument with no usable domain gets no lookup and the `invalid_domain` row. |
| TelegramArgs.ValidateArgs | telegram_text_sender/send_text.py:77-85 | The options pass iff the chat id matches `-?\d+`, the timeout is positive and `max_retries` is at least 0. Each error is reported exactly when its check is the first to fail. |
| TelegramArgs.ChatIdsAreIntegers | telegram_text_sender/send_text.py:78-81 | Every integer written in decimal is an acceptable chat id, and it reads back as that integer. |
| TelegramArgs.NamedChatRejected | telegram_text_sender/send_text.py:78-81 | `@channel`, the empty string and a lone `-` are refused as chat ids. |
| TelegramArgs.ParseRetryAfter | telegram_text_sender/send_text.py:154-160 | A result is returned only when `parameters.retry_after` exists and is that non-negative integer (or a JSON boolean, which Python counts as an integer). The result is `None` iff no such value exists. |
| TelegramArgs.FloodWaitParsed | telegram_text_sender/send_text.py:154-160 | A 429 reply carrying `retry_after: n` yields `n`. |
| TelegramArgs.MalformedRetryAfterIgnored | telegram_text_sender/send_text.py:154-160 | A negative, fractional or textual `retry_after`, or a non-object `parameters`, yields nothing. |
| Chunking.SeparatorCut | telegram_text_sender/send_text.py:136-141 | The separator search gives -1 or a cut inside the window. |
| Chunking.SplitIndex | telegram_text_sender/send_text.py:135-144 | A cut always lies in `1..len(window)`, so every iteration makes progress. |
| Chunking.SplitIndexPrefers | telegram_text_sender/send_text.py:135-144 | The cut lands just after the last "\n\n" found at a position above 0. Failing that, after the last such "\n". Failing that, after the last such " ". Failing all three, at exactly `limit`. |
| Chunking.ChunksConcat | telegram_text_sender/send_text.py:130-151 | The chunks, concatenated, give back the text exactly. |
| Chunking.ChunksBounded | telegram_text_sender/send_text.py:131-149 | Every chunk is non-empty and at most `limit` long. |
| Chunking.ChunkCount | telegram_text_sender/send_text.py:130-151 | There are at least `len(text)/limit` chunks, and at least two when the text is longer than `limit`. |
| Chunking.FirstChunk | telegram_text_sender/send_text.py:135-149 | A long text's first chunk ends at the preferred cut in its first `limit` characters. The rest are the chunks of the remainder. |
| Chunking.Chunks | telegram_text_sender/send_text.py:122-151 | The reference chunking. `ChunksConcat` shows the chunks give back the text, `ChunksBounded` bounds every chunk, `FirstChunk` and `SplitIndexPrefers` fix where each cut lands. |
| Chunking.SplitIntoChunks | telegram_text_sender/send_text.py:122-151 | It raises iff `limit <= 0`. Otherwise it returns the reference chunking. Empty text gives `[]`, and a text of at most `limit` characters gives `[text]`. |
| TelegramRetry.RetryDelay | telegram_text_sender/send_text.py:240-244 | The delay is `retry_after` when given, otherwise at least one second. |
| TelegramRetry.BackoffDoubles | telegram_text_sender/send_text.py:240-244 | Without `retry_after`, the first retry waits 1 second and each later retry waits twice as long as the one before. |
| TelegramRetry.IsRetryable | telegram_text_sender/send_text.py:236-237 | A 429 or a 5xx status is retryable. `NonRetryableFailsFast` and `PersistentServerError` show both sides in the retry loop. |
| TelegramRetry.RetryFromSpec | telegram_text_sender/send_text.py:256-290 | From a given attempt on, every call before the last failed transiently and was followed by its pause. The last call either delivered (and its attempt number is returned) or raised an error that is non-retryable or came after `max_retries` retries. No more than `max_retries + 1` calls are made. |
| TelegramRetry.RetrySpec | telegram_text_sender/send_text.py:256-290 | The same description holds for the whole retry loop from attempt 1. |
| TelegramRetry.RetryFrom | telegram_text_sender/send_text.py:247-290 | The retry loop from a given attempt on. `RetryFromSpec` states which calls are made, which pauses follow them, and how the loop ends. |
| TelegramRetry.Retry | telegram_text_sender/send_text.py:247-290 | The retry loop from attempt 1. `RetrySpec` states its calls, pauses and outcome, and `SendChunkWithRetry` computes it. |
| TelegramRetry.SendChunkWithRetry | telegram_text_sender/send_text.py:247-290 | The loop returns the attempt that delivered, in `1..max_retries+1`, or the error that propagates. The pauses it records are the reference run's. |
| TelegramRetry.NonRetryableFailsFast | telegram_text_sender/send_text.py:270-274 | A non-retryable API error on the first attempt propagates at once, with one call and no pause. |
| TelegramRetry.PersistentServerError | telegram_text_sender/send_text.py:240-290 | With three retries and a server that keeps answering 500, the chunk is tried four times, pausing 1, 2 and 4 seconds. |
| TelegramRetry.TotalAttemptsAtLeast | telegram_text_sender/send_text.py:301-315 | The calls made for a sequence of chunks are at least one per chunk. |
| TelegramRetry.SendText | telegram_text_sender/send_text.py:293-315 | Chunks of at most 4096 characters are sent in order, and chunk `i` gets the retry run for index `i`. The first failure propagates and no later chunk is sent. On success every chunk was delivered, and the result is the total number of calls, at least the number of chunks. |

## Left out

- Argument parsing, printing, exit codes and both `main` wrappers: CLI plumbing. `EmailBatch.Report` only composes the printed table from the rows.
- `build_resolver` and live DNS:
  - dnspython is not visible.
  - The resolver is a parameter `resolve(k, domain)` giving what the run's `k`-th query returns.
- The live SMTP socket and the `with`-block QUIT/close:
  - The session is a script.
  - In real smtplib a QUIT reply other than 221 would raise on exit and override the probe's result. The model does not include this.
- `telegram_api_post`, `_build_api_error`, `read_text_file`, `load_token_from_env`:
  - HTTP, JSON decoding, file and environment I/O.
  - Each call's result is a scripted `CallOutcome`, and `_parse_retry_after` takes a decoded JSON value.
- `time.sleep`: the delays are recorded in the run instead.
- The chunk text is not passed to the call script. The call is identified by its chunk index and attempt number.
- The IDNA codec in `extract_domain` is a parameter, a partial function from text to ASCII text.
- `str.lower()` and `\d`:
  - They are modelled for ASCII only.
  - Python's full Unicode case mapping and Unicode digits are not modelled.
  - Whitespace follows Python's `str.isspace()` list.
- Timeouts are real numbers:
  - A NaN timeout passes Python's `timeout <= 0` check.
  - The model has no NaN.
  - The email checker's float timeouts are only passed to I/O and are left out.
- TelegramRetry.RetryDelay: requires a retry number of at least 1. The source only ever calls it with `retries_used + 1`.
- Chunking.SplitIntoChunks: its contract ties the result to the reference `Chunks`. The round trip, the length bound and the separator preference are proved about `Chunks` (`ChunksConcat`, `ChunksBounded`, `SplitIndexPrefers`) rather than repeated in the method's `ensures`.
- The `dns_lifetime_timeout` clause (line 130) is modelled as the unreachable clause it is: `ErrorDetail(LifetimeTimeout)` is `dns_timeout`.
