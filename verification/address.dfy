/**
 * Address syntax and domain extraction: `is_valid_email` (the EMAIL_RE
 * pattern `^[^@\s]+@([A-Za-z0-9-]+\.)+[A-Za-z]{2,63}$` written out as a
 * grammar) and `extract_domain`.
 */
module Address {
  import opened Wrappers
  import opened PyText

  predicate IsAsciiLetter(c: char) { 'A' <= c <= 'Z' || 'a' <= c <= 'z' }

  /** `[A-Za-z0-9-]` */
  predicate IsLabelChar(c: char) { IsAsciiLetter(c) || IsDigit(c) || c == '-' }

  /** `[^@\s]` */
  predicate IsLocalChar(c: char) { c != '@' && !IsSpace(c) }

  /** `[^@\s]+` */
  predicate IsLocalPart(s: string) { |s| > 0 && forall i :: 0 <= i < |s| ==> IsLocalChar(s[i]) }

  /** `[A-Za-z0-9-]+` */
  predicate IsLabel(s: string) { |s| > 0 && forall i :: 0 <= i < |s| ==> IsLabelChar(s[i]) }

  /** `[A-Za-z]{2,63}` */
  predicate IsTopLabel(s: string) { 2 <= |s| <= 63 && forall i :: 0 <= i < |s| ==> IsAsciiLetter(s[i]) }

  /** `([A-Za-z0-9-]+\.)+[A-Za-z]{2,63}`, read from the left: a label and a
      dot, followed either by the final letters-only label or by more of the same. */
  predicate IsHost(h: string)
    decreases |h|
  {
    var i := IndexOf(h, '.');
    0 < i && IsLabel(h[..i]) && (IsTopLabel(h[i + 1..]) || IsHost(h[i + 1..]))
  }

  /** The pattern matched against the whole of `s`. */
  predicate MatchesWhole(s: string) {
    var at := IndexOf(s, '@');
    0 < at && IsLocalPart(s[..at]) && IsHost(s[at + 1..])
  }

  /** `is_valid_email`: `re.match` with the pattern anchored by `^` and `$`;
      `$` also matches just before a final newline. */
  predicate IsValidEmail(s: string) {
    || MatchesWhole(s)
    || (|s| > 0 && s[|s| - 1] == '\n' && MatchesWhole(s[..|s| - 1]))
  }

  /** Each label followed by a dot: the text `([A-Za-z0-9-]+\.)+` consumes. */
  function Dotted(labels: seq<string>): string {
    if labels == [] then "" else labels[0] + "." + Dotted(labels[1..])
  }

  /** The pattern's host part, stated as what it generates. */
  ghost predicate HostFrom(labels: seq<string>, top: string, h: string) {
    && |labels| >= 1
    && (forall i :: 0 <= i < |labels| ==> IsLabel(labels[i]))
    && IsTopLabel(top)
    && h == Dotted(labels) + top
  }

  /** Every host the pattern generates passes the recursive check. */
  lemma {:induction false} GeneratedHostIsHost(labels: seq<string>, top: string, h: string)
    requires HostFrom(labels, top, h)
    ensures IsHost(h)
    decreases |labels|
  {
    var first := labels[0];
    var rest := Dotted(labels[1..]) + top;
    assert h == first + "." + rest;
    assert '.' !in first by {
      assert forall k :: 0 <= k < |first| ==> IsLabelChar(first[k]);
    }
    IndexAfterPrefix(first, '.', rest);
    assert h[..|first|] == first && h[|first| + 1..] == rest;
    if |labels| > 1 {
      assert HostFrom(labels[1..], top, rest);
      GeneratedHostIsHost(labels[1..], top, rest);
    } else {
      assert rest == top;
    }
  }

  /** Every host the recursive check accepts is generated by the pattern. */
  lemma {:induction false} HostIsGenerated(h: string) returns (labels: seq<string>, top: string)
    requires IsHost(h)
    ensures HostFrom(labels, top, h)
    decreases |h|
  {
    var i := IndexOf(h, '.');
    var first, rest := h[..i], h[i + 1..];
    assert h == first + "." + rest;
    if IsTopLabel(rest) {
      labels, top := [first], rest;
      assert Dotted([first]) == first + "." + Dotted([]);
    } else {
      var more;
      more, top := HostIsGenerated(rest);
      labels := [first] + more;
      HostFromCons(first, more, top, rest);
    }
  }

  /** One more label in front of a generated host gives a generated host. */
  lemma HostFromCons(first: string, more: seq<string>, top: string, rest: string)
    requires IsLabel(first) && HostFrom(more, top, rest)
    ensures HostFrom([first] + more, top, first + "." + rest)
  {
    var labels := [first] + more;
    assert labels[1..] == more;
    forall k | 0 <= k < |labels|
      ensures IsLabel(labels[k])
    {
      if k > 0 {
        assert labels[k] == more[k - 1];
      }
    }
  }

  /** The recursive check accepts exactly the hosts the pattern generates. */
  lemma HostMatchesGrammar(h: string)
    ensures IsHost(h) <==> exists labels, top :: HostFrom(labels, top, h)
  {
    if IsHost(h) {
      var labels, top := HostIsGenerated(h);
    }
    if exists labels, top :: HostFrom(labels, top, h) {
      var labels, top :| HostFrom(labels, top, h);
      GeneratedHostIsHost(labels, top, h);
    }
  }

  /** The whole pattern, stated as what it generates. */
  ghost predicate AddressFrom(local: string, host: string, s: string) {
    IsLocalPart(local) && IsHost(host) && s == local + "@" + host
  }

  lemma GeneratedAddressMatches(local: string, host: string, s: string)
    requires AddressFrom(local, host, s)
    ensures MatchesWhole(s)
  {
    assert '@' !in local by {
      assert forall k :: 0 <= k < |local| ==> IsLocalChar(local[k]);
    }
    IndexAfterPrefix(local, '@', host);
    assert s[..|local|] == local && s[|local| + 1..] == host;
  }

  /** An address matches exactly when it is a local part, one `@`, and a host. */
  lemma MatchesWholeGrammar(s: string)
    ensures MatchesWhole(s) <==> exists local, host :: AddressFrom(local, host, s)
  {
    if MatchesWhole(s) {
      var at := IndexOf(s, '@');
      assert s == s[..at] + "@" + s[at + 1..];
      assert AddressFrom(s[..at], s[at + 1..], s);
    }
    if exists local, host :: AddressFrom(local, host, s) {
      var local, host :| AddressFrom(local, host, s);
      GeneratedAddressMatches(local, host, s);
    }
  }

  /** `at` is the position of the last `@` in `email`. */
  predicate LastAt(email: string, at: int) {
    0 <= at < |email| && email[at] == '@' && '@' !in email[at + 1..]
  }

  /** What `extract_domain` returns for the cleaned-up text after the last `@`:
      nothing for empty text, otherwise the codec's answer. */
  function CodecResult(domain: string, idna: string -> Option<string>): (r: Option<string>)
    ensures domain == [] ==> r == None
    ensures domain != [] ==> r == idna(domain)
  {
    if domain == [] then None else idna(domain)
  }

  /** `extract_domain`: the text after the last `@`, stripped and lower-cased,
      then passed through the IDNA codec `idna`, which fails with `None`. */
  function ExtractDomain(email: string, idna: string -> Option<string>): (r: Option<string>)
    ensures '@' !in email ==> r == None
    ensures '@' in email ==> exists at :: LastAt(email, at) && r == CodecResult(Lower(Strip(email[at + 1..])), idna)
    ensures r.Some? ==> exists d :: d != [] && idna(d) == r
  {
    if '@' !in email then None
    else
      var at := RFind(email, "@");
      RFindIsLastAt(email);
      CodecResult(Lower(Strip(email[at + 1..])), idna)
  }

  /** `rsplit("@", 1)` cuts at the last `@`. */
  lemma RFindIsLastAt(email: string)
    requires '@' in email
    ensures LastAt(email, RFind(email, "@"))
  {
    assert OccursAt(email, "@", IndexOf(email, '@'));
    var at := RFind(email, "@");
    assert email[at] == email[at..at + 1][0];
    var tail := email[at + 1..];
    forall k | 0 <= k < |tail|
      ensures tail[k] != '@'
    {
      if tail[k] == '@' {
        assert email[at + 1 + k..at + 2 + k] == "@";
        assert OccursAt(email, "@", at + 1 + k);
      }
    }
  }

  /** For a well-formed address the domain is the lower-cased host after its only `@`. */
  lemma ValidEmailDomain(email: string, idna: string -> Option<string>)
    requires MatchesWhole(email)
    ensures var at := IndexOf(email, '@');
      ExtractDomain(email, idna) == idna(Lower(email[at + 1..]))
  {
    var at := IndexOf(email, '@');
    var host := email[at + 1..];
    OnlyAt(email);
    HostHasNoAtOrSpace(host);
    StripWithoutSpace(host);
    assert Lower(host) != [];
  }

  /** A well-formed address has one `@`, so `rsplit("@", 1)` splits at the first one. */
  lemma OnlyAt(email: string)
    requires MatchesWhole(email)
    ensures RFind(email, "@") == IndexOf(email, '@')
  {
    var at := IndexOf(email, '@');
    HostHasNoAtOrSpace(email[at + 1..]);
    NoneAfter(email, '@', at, email[at + 1..]);
    LastOfSingle(email, '@', at);
  }

  lemma NoneAfter(s: string, c: char, at: int, tail: string)
    requires 0 <= at < |s| && tail == s[at + 1..]
    requires forall k :: 0 <= k < |tail| ==> tail[k] != c
    ensures forall q :: at < q < |s| ==> s[q] != c
  {
    forall q | at < q < |s|
      ensures s[q] != c
    {
      assert s[q] == tail[q - at - 1];
    }
  }

  /** When `c` occurs at `at` and nowhere after it, `rfind` reports `at`. */
  lemma LastOfSingle(s: string, c: char, at: int)
    requires 0 <= at < |s| && s[at] == c
    requires forall q :: at < q < |s| ==> s[q] != c
    ensures RFind(s, [c]) == at
  {
    assert s[at..at + 1] == [c];
    assert OccursAt(s, [c], at);
    var last := RFind(s, [c]);
    assert s[last..last + 1][0] == s[last];
  }

  lemma {:induction false} HostHasNoAtOrSpace(h: string)
    requires IsHost(h)
    ensures forall k :: 0 <= k < |h| ==> h[k] != '@' && !IsSpace(h[k])
    decreases |h|
  {
    var i := IndexOf(h, '.');
    var rest := h[i + 1..];
    if !IsTopLabel(rest) {
      HostHasNoAtOrSpace(rest);
    }
    forall k | 0 <= k < |h|
      ensures h[k] != '@' && !IsSpace(h[k])
    {
      if k < i {
        assert IsLabelChar(h[..i][k]);
      } else if k > i {
        assert h[k] == rest[k - i - 1];
      }
    }
  }

  /** On stripped input the final-newline allowance of `$` never applies. */
  lemma StrippedEmailMatchesWhole(raw: string)
    ensures IsValidEmail(Strip(raw)) <==> MatchesWhole(Strip(raw))
  {
  }
}
