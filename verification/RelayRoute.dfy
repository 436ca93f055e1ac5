/**
 Choosing where to relay: mail exchanges in preference order, the TLS policy each
 must meet, and the nested loops over exchanges and addresses as one plan.
 */
module RelayRoute {
  import opened Text
  import opened RelayClient

  datatype Mx = Mx(preference: nat, exchange: string)

  type Address = string

  /** An MTA-STS policy: whether its mode is `enforce`, and its `mx` patterns. */
  datatype StsPolicy = StsPolicy(enforce: bool, patterns: seq<string>)

  /** What is configured: opportunistic TLS, MTA-STS, DANE. */
  datatype Config = Config(tls: bool, mtaSts: bool, dane: bool)

  /** What the network says: DNSSEC-validated MX records, plain MX records (`None`
      for a failed lookup), addresses, usable TLSA records, the MTA-STS policy, and
      the servers in the order they are contacted. */
  datatype World = World(
    secureMx: Option<seq<Mx>>, mx: Option<seq<Mx>>, addresses: string -> Option<seq<Address>>,
    tlsa: string -> bool, sts: Option<StsPolicy>, servers: nat -> Server)

  // ------------------------------------------------------------------- sorting

  predicate Sorted(xs: seq<Mx>) {
    forall i, j :: 0 <= i < j < |xs| ==> xs[i].preference <= xs[j].preference
  }

  function WithPreference(xs: seq<Mx>, p: nat): seq<Mx> {
    if xs == [] then []
    else (if xs[0].preference == p then [xs[0]] else []) + WithPreference(xs[1..], p)
  }

  /** In front of the first greater or equal preference. */
  function Place(x: Mx, xs: seq<Mx>): (r: seq<Mx>)
    ensures forall y :: y in r <==> y in xs || y == x
    ensures Sorted(xs) ==> Sorted(r)
  {
    if xs == [] then [x]
    else if x.preference <= xs[0].preference then [x] + xs
    else
      var rest := Place(x, xs[1..]);
      assert Sorted(xs) ==> forall y :: y in rest ==> xs[0].preference <= y.preference;
      assert forall i :: 0 <= i < |rest| ==> rest[i] in rest;
      [xs[0]] + rest
  }

  /** `sort_by_key(preference)`. */
  function Sort(xs: seq<Mx>): (r: seq<Mx>)
    ensures Sorted(r) && forall y :: y in r <==> y in xs
  {
    if xs == [] then [] else Place(xs[0], Sort(xs[1..]))
  }

  lemma WithFirst(x: Mx, xs: seq<Mx>, p: nat)
    ensures WithPreference([x] + xs, p) == (if x.preference == p then [x] else []) + WithPreference(xs, p)
  {
    assert ([x] + xs)[1..] == xs;
  }

  lemma {:induction false} PlaceIsStable(x: Mx, xs: seq<Mx>, p: nat)
    requires Sorted(xs)
    ensures WithPreference(Place(x, xs), p) == (if x.preference == p then [x] else []) + WithPreference(xs, p)
    decreases |xs|
  {
    hide WithPreference, Sorted;
    if xs == [] {
      WithFirst(x, [], p);
      assert [x] + [] == [x];
    } else if x.preference <= xs[0].preference {
      WithFirst(x, xs, p);
    } else {
      SortedTail(xs);
      PlaceIsStable(x, xs[1..], p);
      WithFirst(xs[0], Place(x, xs[1..]), p);
      WithFirst(xs[0], xs[1..], p);
      assert [xs[0]] + xs[1..] == xs;
    }
  }

  lemma SortedTail(xs: seq<Mx>)
    requires xs != [] && Sorted(xs)
    ensures Sorted(xs[1..])
  {
  }

  /** The same records of each preference, in the order they came in. */
  lemma {:induction false} SortIsStable(xs: seq<Mx>, p: nat)
    ensures WithPreference(Sort(xs), p) == WithPreference(xs, p)
  {
    if xs != [] {
      SortIsStable(xs[1..], p);
      PlaceIsStable(xs[0], Sort(xs[1..]), p);
    }
  }

  // ------------------------------------------------------------------ policies

  function TrimDots(s: string): string {
    if s != [] && s[|s| - 1] == '.' then TrimDots(s[..|s| - 1]) else s
  }

  /** `mx_pattern_matches`: `*.` stands for exactly one label. */
  predicate PatternMatches(pattern: string, host: string) {
    var p := TrimDots(pattern);
    if "*." <= p then
      match SplitOnce(host, '.')
      case None => false
      case Some((first, rest)) => first != [] && rest == p[2..]
    else p == host
  }

  lemma {:induction false} TrimDotsOf(front: string, s: string)
    ensures TrimDots(front + s) == if TrimDots(s) == [] then TrimDots(front) else front + TrimDots(s)
    decreases |s|
  {
    if s == [] {
      assert front + s == front;
    } else {
      assert (front + s)[..|front + s| - 1] == front + s[..|s| - 1];
      TrimDotsOf(front, s[..|s| - 1]);
    }
  }

  /** A host one label below the suffix. */
  ghost predicate OneLabelBelow(host: string, suffix: string) {
    exists first: string :: first != [] && '.' !in first && host == first + ['.'] + suffix
  }

  /** A wildcard covers exactly the hosts one label below its suffix, final dots
      aside. With nothing but dots for a suffix it is the literal name `*`. */
  lemma WildcardIsOneLabel(suffix: string, host: string)
    ensures PatternMatches("*." + suffix, host)
       <==> if TrimDots(suffix) == [] then host == "*" else OneLabelBelow(host, TrimDots(suffix))
  {
    var below := TrimDots(suffix);
    TrimDotsOf("*.", suffix);
    if below == [] {
      assert "*."[..1] == "*";
      assert TrimDots("*.") == TrimDots("*") == "*";
    } else {
      hide TrimDots;
      var pattern := "*." + below;
      assert pattern[..2] == "*." && pattern[2..] == below;
      if OneLabelBelow(host, below) {
        var first: string :| first != [] && '.' !in first && host == first + ['.'] + below;
        SplitOnceAt(first, '.', below);
      }
    }
  }

  lemma {:induction false} TrimDotsIs(s: string) returns (dots: string)
    ensures s == TrimDots(s) + dots && (forall i :: 0 <= i < |dots| ==> dots[i] == '.')
    ensures TrimDots(s) != [] ==> TrimDots(s)[|TrimDots(s)| - 1] != '.'
  {
    dots := [];
    if s != [] && s[|s| - 1] == '.' {
      var rest := TrimDotsIs(s[..|s| - 1]);
      dots := rest + ['.'];
    }
  }

  /** What a pattern stands for: with a leading `*.` and more than dots behind it,
      the hosts one label below, and otherwise the name itself. */
  ghost predicate Covers(pattern: string, host: string) {
    if Wild(pattern) then OneLabelBelow(host, TrimDots(pattern[2..])) else host == TrimDots(pattern)
  }

  ghost predicate Wild(pattern: string) {
    |pattern| > 2 && pattern[0] == '*' && pattern[1] == '.' && TrimDots(pattern[2..]) != []
  }

  lemma PatternExactly(pattern: string, host: string)
    ensures PatternMatches(pattern, host) <==> Covers(pattern, host)
  {
    if |pattern| >= 2 && pattern[0] == '*' && pattern[1] == '.' {
      assert pattern == "*." + pattern[2..];
      WildcardIsOneLabel(pattern[2..], host);
      TrimDotsOf("*.", pattern[2..]);
      if TrimDots(pattern[2..]) == [] {
        assert "*."[..1] == "*";
        assert TrimDots("*.") == TrimDots("*") == "*";
      }
    } else {
      var dots := TrimDotsIs(pattern);
      var p := TrimDots(pattern);
      hide TrimDots;
      assert |p| >= 2 ==> pattern[..2] == p[..2] && pattern[0] == p[0] && pattern[1] == p[1];
    }
  }

  /** `allows_mx`. */
  predicate AllowsMx(patterns: seq<string>, exchange: string) {
    var host := Lower(TrimDots(exchange));
    host != [] && exists i :: 0 <= i < |patterns| && PatternMatches(patterns[i], host)
  }

  /** The host, lower-cased and without final dots, is not empty and covered. */
  ghost predicate AllowedHost(patterns: seq<string>, exchange: string) {
    var host := Lower(TrimDots(exchange));
    host != "" && exists p :: p in patterns && Covers(p, host)
  }

  lemma AllowsExactly(patterns: seq<string>, exchange: string)
    ensures AllowsMx(patterns, exchange) <==> AllowedHost(patterns, exchange)
  {
    var host := Lower(TrimDots(exchange));
    forall p ensures PatternMatches(p, host) <==> Covers(p, host) {
      PatternExactly(p, host);
    }
    hide PatternMatches, Covers, TrimDots, Lower;
    if AllowsMx(patterns, exchange) {
      var i :| 0 <= i < |patterns| && PatternMatches(patterns[i], host);
      assert patterns[i] in patterns && Covers(patterns[i], host);
    }
    if AllowedHost(patterns, exchange) {
      var p :| p in patterns && Covers(p, host);
      var i :| 0 <= i < |patterns| && patterns[i] == p;
      assert PatternMatches(patterns[i], host);
    }
  }

  function WithoutPolicy(tls: bool): TlsPolicy {
    if tls then Opportunistic else NoTls
  }

  /** `exchange_tls_policy`; `None` is an exchange to skip. */
  function ExchangeTlsPolicy(sts: Option<StsPolicy>, pkix: bool, exchange: string, tls: bool): Option<TlsPolicy> {
    if sts.Some? && sts.value.enforce then
      if AllowsMx(sts.value.patterns, exchange) && pkix then Some(Strict) else None
    else Some(WithoutPolicy(tls))
  }

  predicate DaneActive(cfg: Config, w: World) {
    cfg.dane && w.secureMx.Some?
  }

  /** The MTA-STS policy consulted: none under DANE or without a resolver for it. */
  function StsFor(cfg: Config, w: World): Option<StsPolicy> {
    if DaneActive(cfg, w) || !cfg.mtaSts then None else w.sts
  }

  predicate Enforced(cfg: Config, w: World) {
    StsFor(cfg, w).Some? && StsFor(cfg, w).value.enforce
  }

  function PolicyFor(cfg: Config, w: World, exchange: string): Option<TlsPolicy> {
    if DaneActive(cfg, w) then Some(if w.tlsa(exchange) then Strict else WithoutPolicy(cfg.tls))
    else ExchangeTlsPolicy(StsFor(cfg, w), cfg.mtaSts, exchange, cfg.tls)
  }

  /** An MTA-STS policy in force: DANE comes first. */
  ghost predicate InForce(cfg: Config, w: World) {
    cfg.mtaSts && w.sts.Some? && w.sts.value.enforce && !(cfg.dane && w.secureMx.Some?)
  }

  /** How an exchange may be spoken to. Under DANE strictly with usable TLSA records;
      under an enforced MTA-STS policy strictly and only if the policy lists it;
      otherwise as configured. */
  ghost predicate MayContact(cfg: Config, w: World, exchange: string, policy: TlsPolicy) {
    if cfg.dane && w.secureMx.Some? && w.tlsa(exchange) then policy == Strict
    else if InForce(cfg, w) then policy == Strict && AllowedHost(w.sts.value.patterns, exchange)
    else policy == if cfg.tls then Opportunistic else NoTls
  }

  lemma PolicyExactly(cfg: Config, w: World, exchange: string, policy: TlsPolicy)
    ensures PolicyFor(cfg, w, exchange) == Some(policy) <==> MayContact(cfg, w, exchange, policy)
    ensures Enforced(cfg, w) <==> InForce(cfg, w)
  {
    if w.sts.Some? { AllowsExactly(w.sts.value.patterns, exchange); }
    hide AllowsMx, AllowedHost;
  }

  /** The exchanges to try; `None` if the lookup failed. A domain without MX
      records is its own exchange. */
  function Exchanges(cfg: Config, w: World, domain: string): Option<seq<Mx>> {
    if DaneActive(cfg, w) then Some(Sort(w.secureMx.value))
    else if w.mx.None? then None
    else if w.mx.value == [] then Some([Mx(0, domain)])
    else Some(Sort(w.mx.value))
  }

  /** The mail exchanges of a domain, in no order: those of a validated answer if
      DANE is on and there is one, else of the plain answer, else the domain itself. */
  ghost function Published(cfg: Config, w: World, domain: string): Option<seq<Mx>> {
    if cfg.dane && w.secureMx.Some? then w.secureMx
    else if w.mx == Some([]) then Some([Mx(preference := 0, exchange := domain)])
    else w.mx
  }

  /** The exchanges tried are the published ones, by preference, and those of one
      preference in the order they came in. */
  lemma ExchangesExactly(cfg: Config, w: World, domain: string)
    ensures var published, exchanges := Published(cfg, w, domain), Exchanges(cfg, w, domain);
            && (exchanges.None? <==> published.None?)
            && (exchanges.Some? ==>
                  && Sorted(exchanges.value)
                  && (forall mx :: mx in exchanges.value <==> mx in published.value)
                  && forall p :: WithPreference(exchanges.value, p) == WithPreference(published.value, p))
  {
    hide Sort, WithPreference;
    var published := Published(cfg, w, domain);
    if published.Some? {
      forall p ensures WithPreference(Sort(published.value), p) == WithPreference(published.value, p) {
        SortIsStable(published.value, p);
      }
    }
  }

  predicate AllNull(exchanges: seq<Mx>) {
    forall i :: 0 <= i < |exchanges| ==> exchanges[i].exchange == []
  }

  // ---------------------------------------------------------------------- plan

  datatype Target = Target(mx: Mx, address: Address, policy: TlsPolicy)

  function TargetsAt(mx: Mx, addresses: seq<Address>, policy: TlsPolicy): (r: seq<Target>)
    ensures |r| == |addresses| && forall i :: 0 <= i < |r| ==> r[i] == Target(mx, addresses[i], policy)
  {
    seq(|addresses|, i requires 0 <= i < |addresses| => Target(mx, addresses[i], policy))
  }

  /** Where one exchange would be contacted, and under which policy. */
  function TargetsOf(cfg: Config, w: World, mx: Mx): seq<Target> {
    if mx.exchange == [] || PolicyFor(cfg, w, mx.exchange).None? || w.addresses(mx.exchange).None? then []
    else TargetsAt(mx, w.addresses(mx.exchange).value, PolicyFor(cfg, w, mx.exchange).value)
  }

  function Plan(cfg: Config, w: World, exchanges: seq<Mx>): seq<Target> {
    if exchanges == [] then []
    else Plan(cfg, w, exchanges[..|exchanges| - 1]) + TargetsOf(cfg, w, exchanges[|exchanges| - 1])
  }

  /** A target that may be contacted at all. */
  ghost predicate Eligible(cfg: Config, w: World, exchanges: seq<Mx>, x: Target) {
    && x.mx in exchanges && x.mx.exchange != []
    && w.addresses(x.mx.exchange).Some? && x.address in w.addresses(x.mx.exchange).value
    && MayContact(cfg, w, x.mx.exchange, x.policy)
  }

  lemma TargetsAreEligible(cfg: Config, w: World, exchanges: seq<Mx>, mx: Mx, x: Target)
    requires mx in exchanges
    ensures x in TargetsOf(cfg, w, mx) <==> Eligible(cfg, w, exchanges, x) && x.mx == mx
  {
    PolicyExactly(cfg, w, x.mx.exchange, x.policy);
    hide PolicyFor, MayContact;
    if Eligible(cfg, w, exchanges, x) && x.mx == mx {
      var all := w.addresses(mx.exchange).value;
      var i :| 0 <= i < |all| && all[i] == x.address;
      assert TargetsOf(cfg, w, mx)[i] == x;
    }
  }

  /** The plan holds exactly the eligible targets. */
  lemma {:induction false} PlanIsComplete(cfg: Config, w: World, exchanges: seq<Mx>, x: Target)
    ensures x in Plan(cfg, w, exchanges) <==> Eligible(cfg, w, exchanges, x)
  {
    hide PolicyFor, MayContact, TargetsOf;
    if exchanges != [] {
      var n := |exchanges| - 1;
      PlanIsComplete(cfg, w, exchanges[..n], x);
      TargetsAreEligible(cfg, w, exchanges, exchanges[n], x);
      assert exchanges == exchanges[..n] + [exchanges[n]];
    }
  }

  ghost predicate Ordered(xs: seq<Target>) {
    forall i, j :: 0 <= i < j < |xs| ==> xs[i].mx.preference <= xs[j].mx.preference
  }

  lemma NothingOrdered()
    ensures Ordered([])
  {
  }

  lemma OrderedConcat(a: seq<Target>, b: seq<Target>, p: nat)
    requires Ordered(a) && forall x :: x in a ==> x.mx.preference <= p
    requires forall x :: x in b ==> x.mx.preference == p
    ensures Ordered(a + b)
  {
    forall i, j | 0 <= i < j < |a + b| ensures (a + b)[i].mx.preference <= (a + b)[j].mx.preference {
      assert i < |a| ==> a[i] in a;
      assert i >= |a| ==> b[i - |a|] in b;
      assert j >= |a| ==> b[j - |a|] in b;
    }
  }

  /** The plan goes through the exchanges in preference order. */
  lemma {:induction false} PlanIsOrdered(cfg: Config, w: World, exchanges: seq<Mx>)
    requires Sorted(exchanges)
    ensures Ordered(Plan(cfg, w, exchanges))
  {
    hide PolicyFor, MayContact, Ordered;
    if exchanges == [] {
      NothingOrdered();
    } else {
      var n := |exchanges| - 1;
      PlanIsOrdered(cfg, w, exchanges[..n]);
      var before := Plan(cfg, w, exchanges[..n]);
      forall x | x in before ensures x.mx.preference <= exchanges[n].preference {
        PlanIsComplete(cfg, w, exchanges[..n], x);
      }
      OrderedConcat(before, TargetsOf(cfg, w, exchanges[n]), exchanges[n].preference);
    }
  }

  // ------------------------------------------------------------------ contacts

  datatype Contact = Contact(target: Target, result: Result, talk: seq<Exchange>)

  /** A contact is one run of `RelayTo` against this server. */
  ghost predicate Honest(c: Contact, server: Server, m: Mail) {
    var policy := c.target.policy;
    var script := Script(m, Upgrades(policy, c.talk));
    && Follows(c.talk, script, server) && Explains(c.result, c.talk, script, policy, server)
    && (policy == Strict || (policy == Opportunistic && Advertised(c.talk)) ==> Protected(c.talk))
  }

  predicate Final(r: Result) {
    r.Delivered? || r.Failed?
  }

  /** The contacts made are the plan from its start, going on after transient
      failures only. */
  ghost predicate Carried(contacts: seq<Contact>, plan: seq<Target>, w: World, m: Mail) {
    && |contacts| <= |plan|
    && (forall i :: 0 <= i < |contacts| ==> contacts[i].target == plan[i] && Honest(contacts[i], w.servers(i), m))
    && (forall i :: 0 <= i < |contacts| - 1 ==> !Final(contacts[i].result))
  }

  ghost predicate Stopped(contacts: seq<Contact>) {
    contacts != [] && Final(contacts[|contacts| - 1].result)
  }

  /** Every contact so far failed transiently. */
  ghost predicate Open(contacts: seq<Contact>, plan: seq<Target>, w: World, m: Mail) {
    Carried(contacts, plan, w, m) && |contacts| == |plan| && !Stopped(contacts)
  }

  lemma OneMoreContact(contacts: seq<Contact>, plan: seq<Target>, w: World, m: Mail, c: Contact, more: seq<Target>)
    requires Open(contacts, plan, w, m) && Honest(c, w.servers(|contacts|), m)
    requires more != [] && c.target == more[0]
    ensures Carried(contacts + [c], plan + more, w, m)
    ensures !Final(c.result) ==> Open(contacts + [c], plan + [c.target], w, m)
  {
    hide Honest, Final;
    var all, targets := contacts + [c], plan + more;
    forall i | 0 <= i < |all| ensures all[i].target == targets[i] && Honest(all[i], w.servers(i), m) {
      if i < |contacts| { assert all[i] == contacts[i]; }
    }
    var exact := plan + [c.target];
    assert forall i :: 0 <= i < |all| ==> exact[i] == targets[i];
  }

  lemma LongerPlan(contacts: seq<Contact>, plan: seq<Target>, w: World, m: Mail, more: seq<Target>)
    requires Carried(contacts, plan, w, m)
    ensures Carried(contacts, plan + more, w, m)
  {
    hide Honest, Final;
  }

  /** A broken conversation is reported as a transient failure. */
  ghost function Softened(r: Result): Result {
    if r == IoError then Deferred(0) else r
  }

  /** The report if nothing was final: of the last exchange that may be contacted, the
      last contact's, or code 0 if its addresses could not be found; code 0 if there
      is no such exchange. */
  ghost function LastReport(cfg: Config, w: World, exchanges: seq<Mx>, contacts: seq<Contact>): Result {
    if exchanges == [] then Deferred(0)
    else
      var n := |exchanges| - 1;
      var name := exchanges[n].exchange;
      if name == "" || PolicyFor(cfg, w, name).None? then LastReport(cfg, w, exchanges[..n], contacts)
      else if w.addresses(name).None? then Deferred(0)
      else if w.addresses(name).value == [] || contacts == [] then LastReport(cfg, w, exchanges[..n], contacts)
      else Softened(contacts[|contacts| - 1].result)
  }

  lemma ReportStep(cfg: Config, w: World, exchanges: seq<Mx>, k: nat, contacts: seq<Contact>)
    requires k < |exchanges|
    ensures var name, before := exchanges[k].exchange, LastReport(cfg, w, exchanges[..k], contacts);
            LastReport(cfg, w, exchanges[..k + 1], contacts)
            == if name == "" || PolicyFor(cfg, w, name).None? then before
               else if w.addresses(name).None? then Deferred(0)
               else if w.addresses(name).value == [] || contacts == [] then before
               else Softened(contacts[|contacts| - 1].result)
  {
    hide PolicyFor;
    assert exchanges[..k + 1][..k] == exchanges[..k];
  }

  /** The inner loop: the addresses of one exchange. */
  method TryAddresses(w: World, m: Mail, mx: Mx, addresses: seq<Address>, policy: TlsPolicy,
                      before: seq<Contact>, last: Result, ghost plan: seq<Target>)
    returns (r: Result, contacts: seq<Contact>)
    requires Open(before, plan, w, m) && last.Deferred?
    ensures Carried(contacts, plan + TargetsAt(mx, addresses, policy), w, m)
    ensures if Final(r) then Stopped(contacts) && r == contacts[|contacts| - 1].result
            else r.Deferred? && Open(contacts, plan + TargetsAt(mx, addresses, policy), w, m)
    ensures !Final(r) ==> if addresses == [] then r == last && contacts == before
                          else contacts != [] && r == Softened(contacts[|contacts| - 1].result)
  {
    hide Open, Carried, Honest, Follows, Explains, Script, Upgrades, Protected, Advertised, Fine;
    ghost var targets := TargetsAt(mx, addresses, policy);
    r, contacts := last, before;
    assert plan + targets[..0] == plan;
    var i := 0;
    while i < |addresses|
      invariant 0 <= i <= |addresses| && r.Deferred?
      invariant Open(contacts, plan + targets[..i], w, m)
      invariant if i == 0 then r == last && contacts == before
                else contacts != [] && r == Softened(contacts[|contacts| - 1].result)
    {
      var result, talk := RelayTo(w.servers(|contacts|), m, policy);
      var c := Contact(Target(mx, addresses[i], policy), result, talk);
      MakesContact(c, w.servers(|contacts|), m);
      OneMoreContact(contacts, plan + targets[..i], w, m, c, targets[i..]);
      PlanSplits(plan, targets, i);
      contacts := contacts + [c];
      if Final(result) { return result, contacts; }
      r := if result == IoError then Deferred(0) else result;
      i := i + 1;
    }
    assert targets[..i] == targets;
    OpenIsCarried(contacts, plan + targets, w, m);
  }

  lemma PlanSplits(plan: seq<Target>, targets: seq<Target>, i: nat)
    requires i < |targets|
    ensures plan + targets[..i] + targets[i..] == plan + targets
    ensures plan + targets[..i] + [targets[i]] == plan + targets[..i + 1]
  {
  }

  lemma OpenIsCarried(contacts: seq<Contact>, plan: seq<Target>, w: World, m: Mail)
    requires Open(contacts, plan, w, m)
    ensures Carried(contacts, plan, w, m) && |contacts| == |plan| && !Stopped(contacts)
  {
  }

  lemma MakesContact(c: Contact, server: Server, m: Mail)
    requires Follows(c.talk, Script(m, Upgrades(c.target.policy, c.talk)), server)
    requires Explains(c.result, c.talk, Script(m, Upgrades(c.target.policy, c.talk)), c.target.policy, server)
    requires c.target.policy == Strict || (c.target.policy == Opportunistic && Advertised(c.talk)) ==> Protected(c.talk)
    ensures Honest(c, server, m)
  {
  }

  /** Under an enforced policy a contact is authorised, strict and encrypted. */
  ghost predicate Authorised(c: Contact, sts: StsPolicy) {
    AllowedHost(sts.patterns, c.target.mx.exchange) && c.target.policy == Strict && Protected(c.talk)
  }

  lemma EnforcedContacts(cfg: Config, w: World, exchanges: seq<Mx>, m: Mail, contacts: seq<Contact>)
    requires Carried(contacts, Plan(cfg, w, exchanges), w, m) && InForce(cfg, w)
    ensures forall i :: 0 <= i < |contacts| ==> Authorised(contacts[i], w.sts.value)
  {
    hide AllowedHost, Protected, Follows, Explains, Script, Plan;
    forall i | 0 <= i < |contacts| ensures Authorised(contacts[i], w.sts.value) {
      assert contacts[i].target in Plan(cfg, w, exchanges) && Honest(contacts[i], w.servers(i), m);
      PlanIsComplete(cfg, w, exchanges, contacts[i].target);
    }
  }

  /** A host with usable TLSA records under DANE is only spoken to over TLS. */
  lemma DaneContacts(cfg: Config, w: World, exchanges: seq<Mx>, m: Mail, contacts: seq<Contact>)
    requires Carried(contacts, Plan(cfg, w, exchanges), w, m) && cfg.dane && w.secureMx.Some?
    ensures forall i :: 0 <= i < |contacts| && w.tlsa(contacts[i].target.mx.exchange) ==> Protected(contacts[i].talk)
  {
    hide Protected, Follows, Explains, Script, Plan;
    forall i | 0 <= i < |contacts| && w.tlsa(contacts[i].target.mx.exchange) ensures Protected(contacts[i].talk) {
      assert contacts[i].target in Plan(cfg, w, exchanges) && Honest(contacts[i], w.servers(i), m);
      PlanIsComplete(cfg, w, exchanges, contacts[i].target);
    }
  }

  lemma PlanStep(cfg: Config, w: World, exchanges: seq<Mx>, k: nat)
    requires k < |exchanges|
    ensures Plan(cfg, w, exchanges[..k + 1]) == Plan(cfg, w, exchanges[..k]) + TargetsOf(cfg, w, exchanges[k])
  {
    hide TargetsOf;
    assert exchanges[..k + 1][..k] == exchanges[..k];
  }

  /** The plan for some exchanges starts the plan for all of them. */
  lemma {:induction false} PlanStarts(cfg: Config, w: World, exchanges: seq<Mx>, k: nat, contacts: seq<Contact>, m: Mail)
    requires k <= |exchanges| && Carried(contacts, Plan(cfg, w, exchanges[..k]), w, m)
    ensures Carried(contacts, Plan(cfg, w, exchanges), w, m)
    decreases |exchanges| - k
  {
    hide Plan, TargetsOf, Carried;
    if k == |exchanges| {
      assert exchanges[..k] == exchanges;
    } else {
      PlanStep(cfg, w, exchanges, k);
      LongerPlan(contacts, Plan(cfg, w, exchanges[..k]), w, m, TargetsOf(cfg, w, exchanges[k]));
      PlanStarts(cfg, w, exchanges, k + 1, contacts, m);
    }
  }

  /** The outer loop of `relay`: the exchanges in order. It stops with the first
      delivery or permanent refusal, or after the whole plan. */
  method TryExchanges(cfg: Config, w: World, m: Mail, exchanges: seq<Mx>) returns (r: Result, contacts: seq<Contact>)
    ensures Carried(contacts, Plan(cfg, w, exchanges), w, m)
    ensures if Final(r) then Stopped(contacts) && r == contacts[|contacts| - 1].result
            else r.Deferred? && Open(contacts, Plan(cfg, w, exchanges), w, m) && r == LastReport(cfg, w, exchanges, contacts)
  {
    hide Plan, Open, Carried, PolicyFor, Enforced, LastReport, Softened;
    r, contacts := Deferred(0), [];
    var attempted := false;
    NothingYet(cfg, w, exchanges, m);
    var k := 0;
    while k < |exchanges|
      invariant 0 <= k <= |exchanges| && r.Deferred? && (!attempted ==> r == Deferred(0))
      invariant r == LastReport(cfg, w, exchanges[..k], contacts)
      invariant Open(contacts, Plan(cfg, w, exchanges[..k]), w, m)
    {
      var mx := exchanges[k];
      ghost var plan := Plan(cfg, w, exchanges[..k]);
      PlanStep(cfg, w, exchanges, k);
      assert plan + [] == plan;
      var policy := PolicyFor(cfg, w, mx.exchange);
      if mx.exchange != [] && policy.Some? {
        attempted := true;
        var addresses := w.addresses(mx.exchange);
        if addresses.None? {
          r := Deferred(0);
        } else {
          r, contacts := TryAddresses(w, m, mx, addresses.value, policy.value, contacts, r, plan);
          if Final(r) {
            PlanStarts(cfg, w, exchanges, k + 1, contacts, m);
            return;
          }
        }
      }
      ReportStep(cfg, w, exchanges, k, contacts);
      k := k + 1;
    }
    assert exchanges[..k] == exchanges;
    OpenIsCarried(contacts, Plan(cfg, w, exchanges), w, m);
    if Enforced(cfg, w) && !attempted { r := Deferred(0); }
  }

  lemma NothingYet(cfg: Config, w: World, exchanges: seq<Mx>, m: Mail)
    ensures Open([], Plan(cfg, w, exchanges[..0]), w, m) && LastReport(cfg, w, exchanges[..0], []) == Deferred(0)
  {
  }

  /** `relay`. Whatever the network does: hosts are tried in preference order, only
      authorised ones and only over TLS under an enforced MTA-STS policy without
      DANE, and the first delivery or permanent refusal ends it. Without one, every
      eligible address was tried. */
  method Relay(cfg: Config, w: World, m: Mail) returns (r: Result, contacts: seq<Contact>)
    ensures r != IoError
    ensures m.env.recipients == [] ==> r == Failed(0) && contacts == []
    ensures m.env.recipients != [] ==>
              var domain := m.env.recipients[0].domain;
              var published, exchanges := Published(cfg, w, domain), Exchanges(cfg, w, domain);
              if published.None? then r == Deferred(0) && contacts == []
              else if forall mx :: mx in published.value ==> mx.exchange == "" then r == Failed(0) && contacts == []
              else
                && exchanges.Some?
                && Carried(contacts, Plan(cfg, w, exchanges.value), w, m)
                && Ordered(Plan(cfg, w, exchanges.value))
                && (if Final(r) then Stopped(contacts) && r == contacts[|contacts| - 1].result
                    else Open(contacts, Plan(cfg, w, exchanges.value), w, m) && r == LastReport(cfg, w, exchanges.value, contacts))
                && (InForce(cfg, w) ==> forall i :: 0 <= i < |contacts| ==> Authorised(contacts[i], w.sts.value))
  {
    hide Plan, Open, Carried, LastReport, Exchanges, Published, Ordered, Authorised, WithPreference;
    contacts := [];
    if m.env.recipients == [] { return Failed(0), []; }
    var exchanges := Exchanges(cfg, w, m.env.recipients[0].domain);
    ExchangesExactly(cfg, w, m.env.recipients[0].domain);
    if exchanges.None? { return Deferred(0), []; }
    if AllNull(exchanges.value) { return Failed(0), []; }
    r, contacts := TryExchanges(cfg, w, m, exchanges.value);
    PlanIsOrdered(cfg, w, exchanges.value);
    if InForce(cfg, w) { EnforcedContacts(cfg, w, exchanges.value, m, contacts); }
  }
}
