/**
 * `main`: one report row per command-line address. Each address is
 * stripped, checked against the address pattern, reduced to its domain,
 * and the domain's MX check is made at most once per run (a cache keyed by
 * domain); the SMTP probe runs against the primary exchanger of every
 * address whose domain is valid.
 */
module EmailBatch {
  import opened Wrappers
  import opened PyText
  import opened Address
  import opened MxResolve
  import opened SmtpProbe
  import SmtpClassify
  import Table

  /** The report columns, in order. */
  const Columns: seq<string> := ["email", "domain_status", "smtp_result", "smtp_code", "details"]

  const Skipped: string := "skipped"

  datatype Row = Row(email: string, domainStatus: string, smtpResult: string, smtpCode: string, details: string)

  function RowMap(r: Row): map<string, string> {
    map[
      "email" := r.email,
      "domain_status" := r.domainStatus,
      "smtp_result" := r.smtpResult,
      "smtp_code" := r.smtpCode,
      "details" := r.details
    ]
  }

  /** The text `main` prints. */
  function Report(rows: seq<Row>): string {
    Table.FormatTable(seq(|rows|, i requires 0 <= i < |rows| => RowMap(rows[i])), Columns)
  }

  /** What `main` learns about one argument before any lookup: the stripped
      text, whether it matches the address pattern, and the domain to look up
      (`None` when the row is skipped first). */
  datatype Parsed = Parsed(normalized: string, wellFormed: bool, domain: Option<string>)

  function ParseArg(email: string, idna: string -> Option<string>): Parsed {
    var normalized := Strip(email);
    if !IsValidEmail(normalized) then Parsed(normalized, false, None)
    else match ExtractDomain(normalized, idna)
      case Some(d) => Parsed(normalized, true, if d == [] then None else Some(d))
      case None => Parsed(normalized, true, None)
  }

  function DomainOf(email: string, idna: string -> Option<string>): Option<string> {
    ParseArg(email, idna).domain
  }

  function ParseAll(emails: seq<string>, idna: string -> Option<string>): (ps: seq<Parsed>)
    ensures |ps| == |emails| && forall i :: 0 <= i < |emails| ==> ps[i] == ParseArg(emails[i], idna)
  {
    seq(|emails|, i requires 0 <= i < |emails| => ParseArg(emails[i], idna))
  }

  function Domains(ps: seq<Parsed>): (ds: seq<Option<string>>)
    ensures |ds| == |ps| && forall i :: 0 <= i < |ps| ==> ds[i] == ps[i].domain
  {
    seq(|ps|, i requires 0 <= i < |ps| => ps[i].domain)
  }

  /** The domains looked up, in order, when the arguments reach the lookup with domains `ds` (`None`: skipped first). */
  function Lookups(ds: seq<Option<string>>): seq<string> {
    if ds == [] then []
    else NextLookups(Lookups(ds[..|ds| - 1]), ds[|ds| - 1])
  }

  /** The lookups after one more argument whose lookup domain (if any) is `x`. */
  function NextLookups(lookups: seq<string>, x: Option<string>): seq<string> {
    match x
    case Some(d) => if d in lookups then lookups else lookups + [d]
    case None => lookups
  }

  /** The index of the first `d` in `ds`. */
  function Position(ds: seq<string>, d: string): (k: nat)
    requires d in ds
    ensures k < |ds| && ds[k] == d && d !in ds[..k]
  {
    if ds[0] == d then 0
    else
      var k := Position(ds[1..], d);
      assert ds[..k + 1] == [ds[0]] + ds[1..][..k];
      k + 1
  }

  /** A row for an argument rejected before any lookup. */
  function SkippedRow(normalized: string, reason: string): (r: Row)
    ensures r.email == normalized && r.details == reason
    ensures r.domainStatus == MxInvalid.Label() && r.smtpResult == Skipped && r.smtpCode == NoCode
  {
    Row(normalized, MxInvalid.Label(), Skipped, NoCode, reason)
  }

  /** The row for the address at argument position `index` whose domain check gave `result`; the probe runs against the first MX host only when the domain is valid, and every argument is probed afresh. */
  function CheckedRow(index: nat, normalized: string, result: DomainCheckResult, sessionFor: (nat, string, string) -> Session): (r: Row)
    requires result.status == DomainValid ==> |result.mxHosts| > 0
    ensures r.email == normalized && r.domainStatus == result.status.Label()
    ensures result.status != DomainValid ==> r.smtpResult == Skipped && r.smtpCode == NoCode && r.details == result.detail
    ensures result.status == DomainValid ==>
      var probe := Probe(normalized, sessionFor(index, normalized, result.mxHosts[0])).result;
      && r.smtpResult == probe.verdict.Label()
      && r.smtpCode == probe.code
      && r.details == "mx:" + result.mxHosts[0] + "; " + probe.detail
  {
    var skipped := Row(normalized, result.status.Label(), Skipped, NoCode, result.detail);
    if result.status == DomainValid then
      var primary := result.mxHosts[0];
      var probe := Probe(normalized, sessionFor(index, normalized, primary)).result;
      skipped.(smtpResult := probe.verdict.Label(), smtpCode := probe.code, details := "mx:" + primary + "; " + probe.detail)
    else skipped
  }

  /** The row of a parsed argument, given the run's lookup order: a domain's
      result is the answer to the query made for it the first time it appeared. */
  function RowAt(index: nat, p: Parsed, lookups: seq<string>,
                 resolve: (nat, string) -> ResolverOutcome, sessionFor: (nat, string, string) -> Session): Row
    requires p.domain.Some? ==> p.domain.value in lookups
  {
    match p.domain
    case None =>
      SkippedRow(p.normalized, if p.wellFormed then "invalid_domain" else "invalid_email_format")
    case Some(d) =>
      CheckedRow(index, p.normalized, CheckDomainMx(resolve(Position(lookups, d), d)), sessionFor)
  }

  /** What `main` reports for one argument. */
  function RowFor(index: nat, email: string, idna: string -> Option<string>, lookups: seq<string>,
                  resolve: (nat, string) -> ResolverOutcome, sessionFor: (nat, string, string) -> Session): Row
    requires DomainOf(email, idna).Some? ==> DomainOf(email, idna).value in lookups
  {
    RowAt(index, ParseArg(email, idna), lookups, resolve, sessionFor)
  }

  lemma PositionAppend(ds: seq<string>, e: string, d: string)
    requires d in ds
    ensures Position(ds + [e], d) == Position(ds, d)
  {
    var k := Position(ds, d);
    assert (ds + [e])[..k] == ds[..k];
    assert (ds + [e])[k] == d;
  }

  /** Recording a new lookup does not change the row of an argument whose domain was looked up before. */
  lemma RowAtStable(index: nat, p: Parsed, lookups: seq<string>, e: string,
                    resolve: (nat, string) -> ResolverOutcome, sessionFor: (nat, string, string) -> Session)
    requires p.domain.Some? ==> p.domain.value in lookups
    ensures RowAt(index, p, lookups + [e], resolve, sessionFor) == RowAt(index, p, lookups, resolve, sessionFor)
  {
    if p.domain.Some? {
      PositionAppend(lookups, e, p.domain.value);
    }
  }

  /** The cache maps exactly the looked-up domains to the result of their own query. */
  ghost predicate CacheAgrees(cache: map<string, DomainCheckResult>, lookups: seq<string>, resolve: (nat, string) -> ResolverOutcome) {
    && (forall d :: d in cache <==> d in lookups)
    && (forall d :: d in cache ==> cache[d] == CheckDomainMx(resolve(Position(lookups, d), d)))
  }

  lemma CacheExtend(cache: map<string, DomainCheckResult>, lookups: seq<string>, d: string, resolve: (nat, string) -> ResolverOutcome)
    requires CacheAgrees(cache, lookups, resolve) && d !in cache
    ensures CacheAgrees(cache[d := CheckDomainMx(resolve(|lookups|, d))], lookups + [d], resolve)
  {
    forall d' | d' in lookups
      ensures Position(lookups + [d], d') == Position(lookups, d')
    {
      PositionAppend(lookups, d, d');
    }
    assert Position(lookups + [d], d) == |lookups|;
  }

  /** The three outcomes of parsing an argument, in the order `main` tests them. */
  lemma ParseArgCases(email: string, idna: string -> Option<string>)
    ensures var p, normalized := ParseArg(email, idna), Strip(email);
      && p.normalized == normalized
      && p.wellFormed == IsValidEmail(normalized)
      && (p.domain.Some? <==> p.wellFormed && ExtractDomain(normalized, idna).Some? && ExtractDomain(normalized, idna).value != [])
      && (p.domain.Some? ==> p.domain == ExtractDomain(normalized, idna))
  {
    var normalized := Strip(email);
    if IsValidEmail(normalized) {
      var extracted := ExtractDomain(normalized, idna);
      assert ParseArg(email, idna).domain == if extracted.Some? && extracted.value != [] then extracted else None;
    }
  }

  /** One iteration of `main`'s loop: the argument's row, with the cache consulted and filled. */
  method CheckOne(index: nat, email: string, idna: string -> Option<string>,
                  resolve: (nat, string) -> ResolverOutcome, sessionFor: (nat, string, string) -> Session,
                  cache: map<string, DomainCheckResult>, lookups: seq<string>, ghost p: Parsed)
    returns (row: Row, cache': map<string, DomainCheckResult>, lookups': seq<string>)
    requires p == ParseArg(email, idna)
    requires CacheAgrees(cache, lookups, resolve)
    ensures CacheAgrees(cache', lookups', resolve)
    ensures lookups' == NextLookups(lookups, p.domain)
    ensures p.domain.Some? ==> p.domain.value in lookups'
    ensures row == RowAt(index, p, lookups', resolve, sessionFor)
  {
    cache', lookups' := cache, lookups;
    var normalized := Strip(email);
    ParseArgCases(email, idna);
    if !IsValidEmail(normalized) {
      row := SkippedRow(normalized, "invalid_email_format");
    } else {
      var domain := ExtractDomain(normalized, idna);
      if domain.None? || domain.value == [] {
        row := SkippedRow(normalized, "invalid_domain");
      } else {
        var d := domain.value;
        if d !in cache {
          CacheExtend(cache, lookups, d, resolve);
          cache' := cache[d := CheckDomainMx(resolve(|lookups|, d))];
          lookups' := lookups + [d];
        }
        row := CheckedRow(index, normalized, cache'[d], sessionFor);
      }
    }
  }

  /** The first `|rows|` arguments have their domains looked up and their rows as `RowAt` gives them. */
  ghost predicate RowsAgree(rows: seq<Row>, ps: seq<Parsed>, lookups: seq<string>,
                            resolve: (nat, string) -> ResolverOutcome, sessionFor: (nat, string, string) -> Session)
  {
    && |rows| <= |ps|
    && (forall i :: 0 <= i < |rows| && ps[i].domain.Some? ==> ps[i].domain.value in lookups)
    && (forall i :: 0 <= i < |rows| ==> rows[i] == RowAt(i, ps[i], lookups, resolve, sessionFor))
  }

  lemma RowsAgreeExtend(rows: seq<Row>, row: Row, ps: seq<Parsed>, lookups: seq<string>, lookups': seq<string>,
                        resolve: (nat, string) -> ResolverOutcome, sessionFor: (nat, string, string) -> Session)
    requires RowsAgree(rows, ps, lookups, resolve, sessionFor) && |rows| < |ps|
    requires lookups' == NextLookups(lookups, ps[|rows|].domain)
    requires ps[|rows|].domain.Some? ==> ps[|rows|].domain.value in lookups'
    requires row == RowAt(|rows|, ps[|rows|], lookups', resolve, sessionFor)
    ensures RowsAgree(rows + [row], ps, lookups', resolve, sessionFor)
  {
    if lookups' != lookups {
      var e := lookups'[|lookups|];
      assert lookups' == lookups + [e];
      forall i | 0 <= i < |rows|
        ensures RowAt(i, ps[i], lookups', resolve, sessionFor) == RowAt(i, ps[i], lookups, resolve, sessionFor)
      {
        RowAtStable(i, ps[i], lookups, e, resolve, sessionFor);
      }
    }
  }

  /** The state of `main`'s loop after the first `|rows|` arguments. */
  ghost predicate LoopState(rows: seq<Row>, lookups: seq<string>, cache: map<string, DomainCheckResult>, ps: seq<Parsed>,
                            resolve: (nat, string) -> ResolverOutcome, sessionFor: (nat, string, string) -> Session)
  {
    && |rows| <= |ps|
    && lookups == Lookups(Domains(ps)[..|rows|])
    && CacheAgrees(cache, lookups, resolve)
    && RowsAgree(rows, ps, lookups, resolve, sessionFor)
  }

  lemma LoopStep(rows: seq<Row>, row: Row, lookups: seq<string>, lookups': seq<string>,
                 cache: map<string, DomainCheckResult>, cache': map<string, DomainCheckResult>, ps: seq<Parsed>,
                 resolve: (nat, string) -> ResolverOutcome, sessionFor: (nat, string, string) -> Session)
    requires |rows| < |ps|
    requires LoopState(rows, lookups, cache, ps, resolve, sessionFor)
    requires CacheAgrees(cache', lookups', resolve)
    requires lookups' == NextLookups(lookups, ps[|rows|].domain)
    requires ps[|rows|].domain.Some? ==> ps[|rows|].domain.value in lookups'
    requires row == RowAt(|rows|, ps[|rows|], lookups', resolve, sessionFor)
    ensures LoopState(rows + [row], lookups', cache', ps, resolve, sessionFor)
  {
    LookupsPrefixStep(Domains(ps), |rows|);
    RowsAgreeExtend(rows, row, ps, lookups, lookups', resolve, sessionFor);
  }

  lemma LookupsPrefixStep(ds: seq<Option<string>>, n: nat)
    requires n < |ds|
    ensures Lookups(ds[..n + 1]) == NextLookups(Lookups(ds[..n]), ds[n])
  {
    assert ds[..n + 1][..n] == ds[..n];
  }

  lemma LoopDone(rows: seq<Row>, lookups: seq<string>, cache: map<string, DomainCheckResult>, emails: seq<string>,
                 idna: string -> Option<string>, resolve: (nat, string) -> ResolverOutcome, sessionFor: (nat, string, string) -> Session)
    requires |rows| == |emails|
    requires LoopState(rows, lookups, cache, ParseAll(emails, idna), resolve, sessionFor)
    ensures lookups == Lookups(Domains(ParseAll(emails, idna)))
    ensures forall i :: 0 <= i < |emails| && DomainOf(emails[i], idna).Some? ==> DomainOf(emails[i], idna).value in lookups
    ensures forall i :: 0 <= i < |emails| ==> rows[i] == RowFor(i, emails[i], idna, lookups, resolve, sessionFor)
  {
    var ds := Domains(ParseAll(emails, idna));
    assert ds[..|emails|] == ds;
  }

  /** `main`'s loop over the arguments. `resolve(k, d)` is what the resolver
      answers to the run's `k`-th MX query (counting from 0), for domain `d`;
      `sessionFor(k, email, host)` scripts the SMTP server `host` for the probe
      of argument `k`, so a repeated address can meet different replies.
      `lookups` records the queries in the order they are made. */
  method CheckBatch(emails: seq<string>, idna: string -> Option<string>,
                    resolve: (nat, string) -> ResolverOutcome, sessionFor: (nat, string, string) -> Session)
    returns (rows: seq<Row>, lookups: seq<string>)
    ensures |rows| == |emails|
    ensures lookups == Lookups(Domains(ParseAll(emails, idna)))
    ensures forall i :: 0 <= i < |emails| && DomainOf(emails[i], idna).Some? ==> DomainOf(emails[i], idna).value in lookups
    ensures forall i :: 0 <= i < |emails| ==> rows[i] == RowFor(i, emails[i], idna, lookups, resolve, sessionFor)
  {
    rows := [];
    lookups := [];
    var cache: map<string, DomainCheckResult> := map[];
    ghost var ps := ParseAll(emails, idna);
    for n := 0 to |emails|
      invariant |rows| == n
      invariant LoopState(rows, lookups, cache, ps, resolve, sessionFor)
    {
      ghost var before, cached := lookups, cache;
      var row;
      row, cache, lookups := CheckOne(n, emails[n], idna, resolve, sessionFor, cache, lookups, ps[n]);
      LoopStep(rows, row, before, lookups, cached, cache, ps, resolve, sessionFor);
      rows := rows + [row];
    }
    LoopDone(rows, lookups, cache, emails, idna, resolve, sessionFor);
  }

  /** Each domain is queried at most once per run. */
  lemma {:induction false} LookupsDistinct(ds: seq<Option<string>>)
    ensures forall i, j :: 0 <= i < j < |Lookups(ds)| ==> Lookups(ds)[i] != Lookups(ds)[j]
  {
    if ds != [] {
      LookupsDistinct(ds[..|ds| - 1]);
    }
  }

  /** A domain is queried exactly when some argument reaches the lookup with it. */
  lemma {:induction false} LookupsAreDomains(ds: seq<Option<string>>, d: string)
    ensures d in Lookups(ds) <==> Some(d) in ds
  {
    if ds != [] {
      var prefix := ds[..|ds| - 1];
      LookupsAreDomains(prefix, d);
      assert ds == prefix + [ds[|ds| - 1]];
    }
  }

  /** The cache at work: two addresses with the same domain get the same domain status, even if the resolver would answer a later query differently. */
  lemma SharedDomainSharedStatus(i1: nat, e1: string, i2: nat, e2: string, idna: string -> Option<string>, lookups: seq<string>,
                                 resolve: (nat, string) -> ResolverOutcome, sessionFor: (nat, string, string) -> Session)
    requires DomainOf(e1, idna).Some? && DomainOf(e1, idna) == DomainOf(e2, idna)
    requires DomainOf(e1, idna).value in lookups
    ensures RowFor(i1, e1, idna, lookups, resolve, sessionFor).domainStatus == RowFor(i2, e2, idna, lookups, resolve, sessionFor).domainStatus
  {
  }

  /** A row is probed exactly when its domain is valid. */
  lemma ProbedIffValid(index: nat, email: string, idna: string -> Option<string>, lookups: seq<string>,
                       resolve: (nat, string) -> ResolverOutcome, sessionFor: (nat, string, string) -> Session)
    requires DomainOf(email, idna).Some? ==> DomainOf(email, idna).value in lookups
    ensures var r := RowFor(index, email, idna, lookups, resolve, sessionFor);
      r.smtpResult != Skipped <==> r.domainStatus == DomainValid.Label()
  {
    LabelsDiffer();
    var p := ParseArg(email, idna);
    match p.domain
    case None =>
    case Some(d) =>
      CheckedRowProbedIffValid(index, p.normalized, CheckDomainMx(resolve(Position(lookups, d), d)), sessionFor);
  }

  lemma CheckedRowProbedIffValid(index: nat, normalized: string, result: DomainCheckResult, sessionFor: (nat, string, string) -> Session)
    requires result.status == DomainValid ==> |result.mxHosts| > 0
    ensures var r := CheckedRow(index, normalized, result, sessionFor);
      r.smtpResult != Skipped <==> r.domainStatus == DomainValid.Label()
  {
    LabelsDiffer();
  }

  lemma LabelsDiffer()
    ensures forall v: SmtpClassify.Verdict :: v.Label() != Skipped
    ensures DomainValid.Label() != MxInvalid.Label() && DomainValid.Label() != DomainAbsent.Label()
  {
    assert DomainValid.Label()[0] != MxInvalid.Label()[0];
    assert DomainValid.Label()[6] != DomainAbsent.Label()[6];
  }

  /** An argument that does not match the pattern is reported as malformed, without a lookup. */
  lemma MalformedRow(index: nat, email: string, idna: string -> Option<string>, lookups: seq<string>,
                     resolve: (nat, string) -> ResolverOutcome, sessionFor: (nat, string, string) -> Session)
    requires !IsValidEmail(Strip(email))
    ensures DomainOf(email, idna) == None
    ensures RowFor(index, email, idna, lookups, resolve, sessionFor) ==
      Row(Strip(email), MxInvalid.Label(), Skipped, NoCode, "invalid_email_format")
  {
  }

  /** A well-formed argument whose domain the IDNA codec rejects (or maps to nothing) is reported without a lookup. */
  lemma UnencodableDomainRow(index: nat, email: string, idna: string -> Option<string>, lookups: seq<string>,
                             resolve: (nat, string) -> ResolverOutcome, sessionFor: (nat, string, string) -> Session)
    requires IsValidEmail(Strip(email))
    requires ExtractDomain(Strip(email), idna) == None || ExtractDomain(Strip(email), idna) == Some([])
    ensures DomainOf(email, idna) == None
    ensures RowFor(index, email, idna, lookups, resolve, sessionFor) ==
      Row(Strip(email), MxInvalid.Label(), Skipped, NoCode, "invalid_domain")
  {
  }
}
