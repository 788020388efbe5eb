/**
 * Post-processing of an MX lookup (`check_domain_mx`): resolver failures
 * become a domain status with a diagnostic token, and a successful answer
 * becomes the list of exchanger hosts, null MX records dropped, stably
 * ordered by preference.
 */
module MxResolve {
  import opened PyText

  /** One answer record. `Unparseable` stands for a record whose exchange or
      preference conversion raises; the source skips such records. */
  datatype MxRecord = MxRecord(preference: int, exchange: string) | Unparseable

  /** The exception kinds the resolver can raise. dnspython defines
      `LifetimeTimeout` as a subclass of `dns.exception.Timeout`. */
  datatype ResolverError =
    | NxDomain
    | NoAnswer
    | NoNameservers
    | YxDomain
    | Timeout
    | LifetimeTimeout
    | NoResolverConfiguration
    | OtherError(className: string)

  /** What one `resolver.resolve(domain, "MX")` call does. */
  datatype ResolverOutcome = Answers(records: seq<MxRecord>) | Raised(error: ResolverError)

  datatype DomainStatus = DomainValid | DomainAbsent | MxInvalid {
    /** The user-facing phrases of DOMAIN_VALID, DOMAIN_ABSENT and MX_INVALID. */
    function Label(): string {
      match this
      case DomainValid => "домен валиден"
      case DomainAbsent => "домен отсутствует"
      case MxInvalid => "МХ-записи отсутствуют или некорректны"
    }
  }

  datatype DomainCheckResult = DomainCheckResult(status: DomainStatus, mxHosts: seq<string>, detail: string)

  /** A parsed `(preference, host)` pair. */
  datatype Exchanger = Exchanger(preference: int, host: string)

  /** The detail token of the first `except` clause that catches `e`. The
      clause for `dns.exception.Timeout` comes before the one for
      `LifetimeTimeout`, so it catches both. */
  function ErrorDetail(e: ResolverError): string {
    match e
    case NxDomain => "NXDOMAIN"
    case NoAnswer => "no_mx_answer"
    case NoNameservers => "no_nameservers"
    case YxDomain => "yx_domain"
    case Timeout => "dns_timeout"
    case LifetimeTimeout => "dns_timeout"
    case NoResolverConfiguration => "resolver_not_configured"
    case OtherError(name) => "dns_error:" + name
  }

  predicate IsDot(c: char) { c == '.' }

  /** The records that survive parsing, with trailing dots stripped from the
      exchange and null MX (an empty exchange after stripping) dropped. */
  function Survivors(records: seq<MxRecord>): (r: seq<Exchanger>)
    ensures |r| <= |records|
    ensures forall i :: 0 <= i < |r| ==> r[i].host != [] && !IsDot(r[i].host[|r[i].host| - 1])
  {
    if records == [] then []
    else
      var tail := Survivors(records[1..]);
      match records[0]
      case Unparseable => tail
      case MxRecord(p, exchange) =>
        var host := TrimRight(exchange, IsDot);
        if host == [] then tail else [Exchanger(p, host)] + tail
  }

  /** Record `r` parses to the exchanger `x` with a non-empty host. */
  predicate ParsesTo(r: MxRecord, x: Exchanger) {
    r.MxRecord? && x == Exchanger(r.preference, TrimRight(r.exchange, IsDot)) && x.host != []
  }

  /** The survivors are exactly the parsed records with a non-empty host. */
  lemma {:induction false} SurvivorsMembers(records: seq<MxRecord>, x: Exchanger)
    ensures x in Survivors(records) <==> exists i :: 0 <= i < |records| && ParsesTo(records[i], x)
  {
    if records != [] {
      var rest := records[1..];
      SurvivorsMembers(rest, x);
      assert [records[0]] + rest == records;
      SurvivorsAppend([records[0]], rest);
      SurvivorsOne(records[0]);
      if x in Survivors(rest) {
        var i :| 0 <= i < |rest| && ParsesTo(rest[i], x);
        assert ParsesTo(records[i + 1], x);
      }
      if exists i :: 0 <= i < |records| && ParsesTo(records[i], x) {
        var i :| 0 <= i < |records| && ParsesTo(records[i], x);
        if i > 0 {
          assert ParsesTo(rest[i - 1], x);
        }
      }
    }
  }

  /** A lone record survives iff it parses, and then as its own parse. */
  lemma SurvivorsOne(rec: MxRecord)
    ensures |Survivors([rec])| <= 1
    ensures Survivors([rec]) != [] ==> ParsesTo(rec, Survivors([rec])[0])
    ensures forall x :: ParsesTo(rec, x) ==> Survivors([rec]) == [x]
  {
    assert [rec][1..] == [];
  }

  /** Filtering keeps order and multiplicity: the survivors of a
      concatenation are the survivors of each part, one after the other. */
  lemma {:induction false} SurvivorsAppend(a: seq<MxRecord>, b: seq<MxRecord>)
    ensures Survivors(a + b) == Survivors(a) + Survivors(b)
    decreases |a|
  {
    if a == [] {
      assert a + b == b;
    } else {
      assert (a + b)[0] == a[0];
      assert (a + b)[1..] == a[1..] + b;
      SurvivorsAppend(a[1..], b);
    }
  }

  ghost predicate SortedByPreference(s: seq<Exchanger>) {
    forall i, j :: 0 <= i < j < |s| ==> s[i].preference <= s[j].preference
  }

  /** The entries of `s` with preference `p`, in their order in `s`. */
  function WithPreference(s: seq<Exchanger>, p: int): (r: seq<Exchanger>)
    ensures |r| <= |s|
    ensures forall x :: x in r ==> x in s && x.preference == p
  {
    if s == [] then []
    else (if s[0].preference == p then [s[0]] else []) + WithPreference(s[1..], p)
  }

  /** `t` is a stable sort of `s` by preference: ordered, and equal
      preferences keep their relative order (which also makes `t` a
      permutation of `s`). */
  ghost predicate IsStableSortOf(t: seq<Exchanger>, s: seq<Exchanger>) {
    && SortedByPreference(t)
    && multiset(t) == multiset(s)
    && forall p :: WithPreference(t, p) == WithPreference(s, p)
  }

  /** `[x]` when `x` has preference `p`, otherwise nothing. */
  function Tagged(x: Exchanger, p: int): seq<Exchanger> {
    if x.preference == p then [x] else []
  }

  /** Places `x` before the first entry whose preference is not smaller. */
  function InsertByPreference(x: Exchanger, s: seq<Exchanger>): seq<Exchanger> {
    if s == [] || x.preference <= s[0].preference then [x] + s
    else [s[0]] + InsertByPreference(x, s[1..])
  }

  /** `list.sort(key=preference)`, which is stable. */
  function SortByPreference(s: seq<Exchanger>): seq<Exchanger> {
    if s == [] then [] else InsertByPreference(s[0], SortByPreference(s[1..]))
  }

  lemma WithPreferenceCons(x: Exchanger, s: seq<Exchanger>, p: int)
    ensures WithPreference([x] + s, p) == Tagged(x, p) + WithPreference(s, p)
  {
    assert ([x] + s)[1..] == s;
  }

  lemma {:induction false} InsertByPreferenceMultiset(x: Exchanger, s: seq<Exchanger>)
    ensures multiset(InsertByPreference(x, s)) == multiset(s) + multiset{x}
  {
    if !(s == [] || x.preference <= s[0].preference) {
      InsertByPreferenceMultiset(x, s[1..]);
      assert s == [s[0]] + s[1..];
    }
  }

  /** Inserting into a sorted list keeps it sorted. */
  lemma {:induction false} InsertByPreferenceSorted(x: Exchanger, s: seq<Exchanger>)
    requires SortedByPreference(s)
    ensures SortedByPreference(InsertByPreference(x, s))
  {
    if !(s == [] || x.preference <= s[0].preference) {
      var rest := InsertByPreference(x, s[1..]);
      InsertByPreferenceSorted(x, s[1..]);
      InsertByPreferenceMultiset(x, s[1..]);
      forall j | 0 <= j < |rest|
        ensures s[0].preference <= rest[j].preference
      {
        assert rest[j] in multiset(rest);
        if rest[j] != x {
          assert rest[j] in multiset(s[1..]);
          var k :| 0 <= k < |s[1..]| && s[1..][k] == rest[j];
          assert s[k + 1] == rest[j];
        }
      }
    }
  }

  /** Inserting puts `x` first among the entries of its preference, and leaves the other classes unchanged. */
  lemma {:induction false} InsertByPreferenceClasses(x: Exchanger, s: seq<Exchanger>, p: int)
    ensures WithPreference(InsertByPreference(x, s), p) == Tagged(x, p) + WithPreference(s, p)
  {
    if s == [] || x.preference <= s[0].preference {
      WithPreferenceCons(x, s, p);
    } else {
      var rest := InsertByPreference(x, s[1..]);
      InsertByPreferenceClasses(x, s[1..], p);
      assert s == [s[0]] + s[1..];
      WithPreferenceCons(s[0], rest, p);
      WithPreferenceCons(s[0], s[1..], p);
      assert Tagged(s[0], p) == [] || Tagged(x, p) == [];
    }
  }

  /** The sort is a stable sort in the sense of `IsStableSortOf`. */
  lemma {:induction false} SortByPreferenceIsStable(s: seq<Exchanger>)
    ensures IsStableSortOf(SortByPreference(s), s)
  {
    if s != [] {
      var t := SortByPreference(s[1..]);
      SortByPreferenceIsStable(s[1..]);
      InsertByPreferenceMultiset(s[0], t);
      InsertByPreferenceSorted(s[0], t);
      assert s == [s[0]] + s[1..];
      forall p
        ensures WithPreference(SortByPreference(s), p) == WithPreference(s, p)
      {
        InsertByPreferenceClasses(s[0], t, p);
        WithPreferenceCons(s[0], s[1..], p);
      }
    }
  }

  /** A sorted list whose first entry is not the smallest of some preference
      class cannot hold that class before it. */
  lemma SortedHeadIsLeast(s: seq<Exchanger>, p: int)
    requires SortedByPreference(s) && s != []
    requires WithPreference(s, p) != []
    ensures s[0].preference <= p
  {
    var x := WithPreference(s, p)[0];
    assert x in s;
    var i :| 0 <= i < |s| && s[i] == x;
  }

  lemma HeadInOwnClass(s: seq<Exchanger>)
    requires s != []
    ensures WithPreference(s, s[0].preference) != []
  {
  }

  /** The stable-sort specification determines its result: two stable sorts of the same list agree. */
  lemma {:induction false} StableSortIsUnique(a: seq<Exchanger>, b: seq<Exchanger>)
    requires SortedByPreference(a) && SortedByPreference(b)
    requires forall p :: WithPreference(a, p) == WithPreference(b, p)
    ensures a == b
    decreases |a|
  {
    if a == [] || b == [] {
      var c := if a == [] then b else a;
      if c != [] {
        HeadInOwnClass(c);
      }
    } else {
      assert WithPreference(a, a[0].preference)[0] == a[0];
      SortedHeadIsLeast(b, a[0].preference);
      assert WithPreference(b, b[0].preference)[0] == b[0];
      SortedHeadIsLeast(a, b[0].preference);
      assert a[0] == b[0];
      assert a == [a[0]] + a[1..];
      assert b == [b[0]] + b[1..];
      forall p
        ensures WithPreference(a[1..], p) == WithPreference(b[1..], p)
      {
        WithPreferenceCons(a[0], a[1..], p);
        WithPreferenceCons(b[0], b[1..], p);
        var tag := Tagged(a[0], p);
        assert (tag + WithPreference(a[1..], p))[|tag|..] == WithPreference(a[1..], p);
        assert (tag + WithPreference(b[1..], p))[|tag|..] == WithPreference(b[1..], p);
      }
      StableSortIsUnique(a[1..], b[1..]);
      assert a == [a[0]] + a[1..];
      assert b == [b[0]] + b[1..];
    }
  }

  function Hosts(s: seq<Exchanger>): (r: seq<string>)
    ensures |r| == |s| && forall i :: 0 <= i < |s| ==> r[i] == s[i].host
  {
    seq(|s|, i requires 0 <= i < |s| => s[i].host)
  }

  /** `check_domain_mx` applied to what the resolver did. */
  function CheckDomainMx(outcome: ResolverOutcome): (r: DomainCheckResult)
    ensures r.status == DomainAbsent <==> outcome == Raised(NxDomain)
    ensures r.status == DomainValid <==> outcome.Answers? && Survivors(outcome.records) != []
    ensures r.status == DomainValid ==> |r.mxHosts| > 0
    ensures r.status != DomainValid ==> r.mxHosts == []
    ensures outcome.Raised? ==> r.detail == ErrorDetail(outcome.error)
    ensures outcome.Answers? && r.status != DomainValid ==> r.detail == "mx_records_invalid_or_empty"
  {
    match outcome
    case Raised(e) =>
      DomainCheckResult(if e == NxDomain then DomainAbsent else MxInvalid, [], ErrorDetail(e))
    case Answers(records) =>
      var parsed := Survivors(records);
      if parsed == [] then DomainCheckResult(MxInvalid, [], "mx_records_invalid_or_empty")
      else DomainCheckResult(DomainValid, Hosts(SortByPreference(parsed)), "mx_ok")
  }

  /** A valid result lists the surviving hosts, stably sorted by preference:
      the unique stable sort of the survivors, and so a permutation of their hosts. */
  lemma ValidHostsAreStablySorted(records: seq<MxRecord>, order: seq<Exchanger>)
    requires IsStableSortOf(order, Survivors(records))
    ensures CheckDomainMx(Answers(records)).status == DomainValid ==>
      CheckDomainMx(Answers(records)).mxHosts == Hosts(order)
    ensures multiset(Hosts(order)) == multiset(Hosts(Survivors(records)))
  {
    var parsed := Survivors(records);
    SortByPreferenceIsStable(parsed);
    StableSortIsUnique(order, SortByPreference(parsed));
    SortByPreferenceHosts(parsed);
  }

  lemma HostsCons(x: Exchanger, s: seq<Exchanger>)
    ensures Hosts([x] + s) == [x.host] + Hosts(s)
  {
  }

  lemma {:induction false} InsertByPreferenceHosts(x: Exchanger, s: seq<Exchanger>)
    ensures multiset(Hosts(InsertByPreference(x, s))) == multiset(Hosts(s)) + multiset{x.host}
  {
    if s == [] || x.preference <= s[0].preference {
      HostsCons(x, s);
    } else {
      InsertByPreferenceHosts(x, s[1..]);
      HostsCons(s[0], InsertByPreference(x, s[1..]));
      HostsCons(s[0], s[1..]);
      assert s == [s[0]] + s[1..];
    }
  }

  lemma {:induction false} SortByPreferenceHosts(s: seq<Exchanger>)
    ensures multiset(Hosts(SortByPreference(s))) == multiset(Hosts(s))
  {
    if s != [] {
      SortByPreferenceHosts(s[1..]);
      InsertByPreferenceHosts(s[0], SortByPreference(s[1..]));
      HostsCons(s[0], s[1..]);
      assert s == [s[0]] + s[1..];
    }
  }

  /** Every resolver failure gives an empty host list; distinct failures keep
      distinct tokens, except that both timeout kinds report `dns_timeout`. */
  lemma ErrorDetailsDistinct(e1: ResolverError, e2: ResolverError)
    requires e1 != e2
    requires !(e1 in {Timeout, LifetimeTimeout} && e2 in {Timeout, LifetimeTimeout})
    ensures ErrorDetail(e1) != ErrorDetail(e2)
  {
    var d1, d2 := ErrorDetail(e1), ErrorDetail(e2);
    if e1.OtherError? && e2.OtherError? {
      assert d1[10..] == e1.className && d2[10..] == e2.className;
    } else if e1.OtherError? || e2.OtherError? {
      var other := if e1.OtherError? then e2 else e1;
      var named := if e1.OtherError? then d1 else d2;
      assert named[4] == 'e';
      var fixed := ErrorDetail(other);
      assert |fixed| > 4 && fixed[4] != 'e';
    }
  }

  /** A domain whose only record is the null MX (".") accepts no mail: it is MX-invalid, not valid with no hosts. */
  lemma NullMxIsInvalid(p: int)
    ensures CheckDomainMx(Answers([MxRecord(p, ".")])) ==
      DomainCheckResult(MxInvalid, [], "mx_records_invalid_or_empty")
  {
    assert TrimRight(".", IsDot) == [];
  }

  /** The three example records: preferences 20, 10, 30, each exchange with a trailing dot. */
  const ExampleRecords: seq<MxRecord> := [MxRecord(20, "b.test."), MxRecord(10, "a.test."), MxRecord(30, "c.test.")]

  /** Parsing the example keeps all three records, in answer order, without their dots. */
  lemma ExampleSurvivors()
    ensures Survivors(ExampleRecords)
      == [Exchanger(20, "b.test"), Exchanger(10, "a.test"), Exchanger(30, "c.test")]
  {
    var records := ExampleRecords;
    assert TrimRight("a.test.", IsDot) == "a.test" by { assert TrimRight("a.test", IsDot) == "a.test"; }
    assert TrimRight("b.test.", IsDot) == "b.test" by { assert TrimRight("b.test", IsDot) == "b.test"; }
    assert TrimRight("c.test.", IsDot) == "c.test" by { assert TrimRight("c.test", IsDot) == "c.test"; }
    assert Survivors(records[2..]) == [Exchanger(30, "c.test")] by { assert records[2..][1..] == []; }
    assert Survivors(records[1..]) == [Exchanger(10, "a.test"), Exchanger(30, "c.test")] by {
      assert records[1..][1..] == records[2..];
    }
  }

  /** Sorting the parsed example puts preference 10 first. */
  lemma ExampleSorted()
    ensures SortByPreference([Exchanger(20, "b.test"), Exchanger(10, "a.test"), Exchanger(30, "c.test")])
      == [Exchanger(10, "a.test"), Exchanger(20, "b.test"), Exchanger(30, "c.test")]
  {
    var b, a, c := Exchanger(20, "b.test"), Exchanger(10, "a.test"), Exchanger(30, "c.test");
    assert SortByPreference([c]) == [c] by { assert [c][1..] == []; }
    assert SortByPreference([a, c]) == [a, c] by { assert [a, c][1..] == [c]; }
    assert InsertByPreference(b, [c]) == [b, c];
    assert InsertByPreference(b, [a, c]) == [a, b, c] by { assert [a, c][1..] == [c]; }
    assert [b, a, c][1..] == [a, c];
  }

  /** Hosts come out ordered by preference, not in answer order. */
  lemma PreferenceOrderExample()
    ensures CheckDomainMx(Answers(ExampleRecords)).mxHosts == ["a.test", "b.test", "c.test"]
  {
    ExampleSurvivors();
    ExampleSorted();
    var sorted := [Exchanger(10, "a.test"), Exchanger(20, "b.test"), Exchanger(30, "c.test")];
    assert Hosts(sorted) == ["a.test", "b.test", "c.test"];
  }
}
