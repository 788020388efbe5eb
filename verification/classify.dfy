/**
 * The SMTP response classifier: a status code and the server's message
 * become one of four verdicts. Code 550 is overloaded between "no such
 * mailbox" and "we refuse to tell you", so policy keywords in the message
 * decide between the two for the mailbox-unavailable codes.
 */
module SmtpClassify {
  import opened PyText

  /** The outcome labels a probe can report. `ConnectionError` is never produced
      by the classifier; the prober uses it for transport failures. */
  datatype Verdict = ExistsLikely | NotExists | TempFail | ServerBlocked | ConnectionError {
    function Label(): string {
      match this
      case ExistsLikely => "exists_likely"
      case NotExists => "not_exists"
      case TempFail => "temp_fail"
      case ServerBlocked => "server_blocked"
      case ConnectionError => "connection_error"
    }
  }

  /** Substrings that mark a rejection as a policy or anti-abuse decision. */
  const PolicyKeywords: seq<string> := [
    "policy", "spam", "relay", "blocked", "denied", "blacklist",
    "authentication", "not permitted", "access denied"
  ]

  /** `any(keyword in lowered for keyword in POLICY_KEYWORDS)`. */
  predicate MentionsPolicy(lowered: string) {
    exists k | 0 <= k < |PolicyKeywords| :: Contains(lowered, PolicyKeywords[k])
  }

  predicate IsAccepted(code: int) { code == 250 || code == 251 }
  predicate IsMailboxUnavailable(code: int) { code == 550 || code == 551 || code == 553 }
  predicate IsTransient(code: int) { code == 421 || code == 450 || code == 451 || code == 452 }

  /** `classify_smtp`: the rules in the order the source checks them. */
  function Classify(code: int, message: string): (v: Verdict)
    ensures v != ConnectionError
    ensures v == ExistsLikely <==> IsAccepted(code)
    ensures v == TempFail <==> IsTransient(code)
    ensures v == NotExists <==> IsMailboxUnavailable(code) && !MentionsPolicy(Lower(message))
    ensures v == ServerBlocked <==>
      && !IsAccepted(code) && !IsTransient(code)
      && (IsMailboxUnavailable(code) ==> MentionsPolicy(Lower(message)))
  {
    var lowered := Lower(message);
    if IsAccepted(code) then ExistsLikely
    else if IsMailboxUnavailable(code) then
      if MentionsPolicy(lowered) then ServerBlocked else NotExists
    else if IsTransient(code) then TempFail
    else if code == 530 || code == 535 || code == 554 then ServerBlocked
    else if MentionsPolicy(lowered) then ServerBlocked
    else ServerBlocked
  }

  /** Outside the mailbox-unavailable codes the message text never changes the verdict:
      the keyword rule for other codes and the default both give `server_blocked`. */
  lemma MessageMattersOnlyForUnavailable(code: int, m1: string, m2: string)
    requires !IsMailboxUnavailable(code)
    ensures Classify(code, m1) == Classify(code, m2)
  {
  }

  /** The verdict ignores the case of ASCII letters: messages that lower-case
      alike are classified alike. */
  lemma ClassifyIgnoresCase(code: int, m1: string, m2: string)
    requires Lower(m1) == Lower(m2)
    ensures Classify(code, m1) == Classify(code, m2)
  {
  }

  /** In particular, lower-casing a message first does not change its verdict. */
  lemma {:induction false} ClassifyLowered(code: int, message: string)
    ensures Classify(code, Lower(message)) == Classify(code, message)
  {
    assert Lower(Lower(message)) == Lower(message) by {
      forall i | 0 <= i < |message|
        ensures Lower(Lower(message))[i] == Lower(message)[i]
      {
      }
    }
    ClassifyIgnoresCase(code, Lower(message), message);
  }

  /** A 550 whose text names the recipient as unknown means the mailbox does not exist. */
  lemma UnknownUserIsNotExists()
    ensures Classify(550, "user unknown") == NotExists
  {
    var lowered := Lower("user unknown");
    assert lowered == "user unknown";
    forall k | 0 <= k < |PolicyKeywords|
      ensures !Contains(lowered, PolicyKeywords[k])
    {
      var kw := PolicyKeywords[k];
      forall i | 0 <= i <= |lowered| - |kw|
        ensures !OccursAt(lowered, kw, i)
      {
        assert lowered[i..i + |kw|][0] != kw[0] || lowered[i..i + |kw|][1] != kw[1];
      }
    }
  }

  /** A 550 that mentions a blacklist, in any case, is a policy block. */
  lemma BlacklistIsServerBlocked()
    ensures Classify(550, "Sender BLACKLISTED") == ServerBlocked
  {
    var lowered := Lower("Sender BLACKLISTED");
    assert lowered == "sender blacklisted";
    assert OccursAt(lowered, PolicyKeywords[5], 7);
  }
}
