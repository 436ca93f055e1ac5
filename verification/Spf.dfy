/**
 SPF evaluation: the policy language the evaluator walks, a state-passing
 specification of `check_host` with the limits as a parameter, and the facts
 that hold for every DNS graph (cyclic ones included) and every client.
 */
module Spf {
  import opened Networks
  import opened Text

  datatype SpfResult = Pass | Fail | SoftFail | Neutral | NoneResult | TempError | PermError

  datatype Qualifier = QPass | QFail | QSoftFail | QNeutral

  datatype Mechanism =
    | All
    | Ip4(net4: nat, prefix4: nat)
    | Ip6(net6: nat, prefix6: nat)
    | A(aDomain: Option<string>, aV4: nat, aV6: nat)
    | Mx(mxDomain: Option<string>, mxV4: nat, mxV6: nat)
    | Include(includeSpec: string)
    | Exists(existsSpec: string)
    | Ptr(ptrDomain: Option<string>)

  datatype Directive = Directive(qualifier: Qualifier, mechanism: Mechanism)

  datatype SpfRecord = SpfRecord(directives: seq<Directive>, redirect: Option<string>)

  datatype MacroContext =
    MacroContext(ip: IpAddr, senderLocal: string, senderDomain: string, helo: string, domain: string)

  /** The resolver's answers (`None` is a failed lookup) and the two text
      procedures the evaluator calls: record parsing and macro expansion. */
  datatype Dns = Dns(
    lookupTxt: string -> Option<seq<string>>,
    lookupIp: string -> Option<seq<IpAddr>>,
    lookupMx: string -> Option<seq<string>>,
    reverseLookup: IpAddr -> Option<seq<string>>,
    hasVersionToken: string -> bool,
    parseRecord: string -> Option<SpfRecord>,
    expandMacros: (string, MacroContext) -> Option<string>)

  /** What an evaluation never changes: the network and the message's identity. */
  datatype World = World(dns: Dns, ip: IpAddr, senderLocal: string, senderDomain: string, helo: string) {

    function Expand(spec: string, current: string): Option<string> {
      dns.expandMacros(spec, MacroContext(ip, senderLocal, senderDomain, helo, current))
    }

    function ResolveTarget(domain: Option<string>, current: string): Option<string> {
      if domain.Some? then Expand(domain.value, current) else Some(current)
    }

    function Addresses(host: string): seq<IpAddr> {
      var r := dns.lookupIp(host);
      if r.Some? then r.value else []
    }

    function Exchanges(domain: string): seq<string> {
      var r := dns.lookupMx(domain);
      if r.Some? then r.value else []
    }

    function ClientNames(): seq<string> {
      var r := dns.reverseLookup(ip);
      if r.Some? then r.value else []
    }

    predicate AnyInNet(addrs: seq<IpAddr>, v4: nat, v6: nat) {
      exists i | 0 <= i < |addrs| :: IpInNet(ip, addrs[i], v4, v6)
    }
  }

  datatype Limits = Limits(lookups: nat, voids: nat)

  const LIMITS := Limits(10, 2)
  const MAX_HOSTS := 10

  /** The two budget counters, and how many resolver calls were made so far. */
  datatype Meter = Meter(lookups: nat, voids: nat, queries: nat) {
    function Queried(): Meter { this.(queries := queries + 1) }
    function LookedUp(): Meter { this.(lookups := lookups + 1) }
    function Voided(): Meter { this.(voids := voids + 1) }
  }

  datatype Outcome = Match | NoMatch | Error(result: SpfResult)

  datatype Verdict = Verdict(result: SpfResult, meter: Meter)
  datatype Tested = Tested(outcome: Outcome, meter: Meter)
  datatype Scan = Scan(decided: Option<SpfResult>, meter: Meter)

  // ---------------------------------------------------------------- addresses

  function QualifierResult(q: Qualifier): SpfResult {
    match q
    case QPass => Pass
    case QFail => Fail
    case QSoftFail => SoftFail
    case QNeutral => Neutral
  }

  function FromBool(matched: bool): Outcome {
    if matched then Match else NoMatch
  }

  // ------------------------------------------------------------ specification

  datatype Policy = NoPolicy | BadPolicy | Published(record: SpfRecord)

  function VersionedTexts(dns: Dns, txts: seq<string>): seq<string> {
    if txts == [] then []
    else (if dns.hasVersionToken(txts[0]) then [txts[0]] else []) + VersionedTexts(dns, txts[1..])
  }

  /** What a domain publishes: nothing usable, something invalid, or one record. */
  function PolicyOf(dns: Dns, domain: string): Policy {
    match dns.lookupTxt(domain)
    case None => NoPolicy
    case Some(txts) =>
      var spf := VersionedTexts(dns, txts);
      if spf == [] then NoPolicy
      else if |spf| > 1 then BadPolicy
      else
        match dns.parseRecord(spf[0])
        case None => BadPolicy
        case Some(record) => Published(record)
  }

  predicate Within(lim: Limits, m: Meter) {
    m.lookups <= lim.lookups && m.voids <= lim.voids
  }

  /** The counters only grow, pass their limit by at most one, and pay for the
      resolver calls: `1 + MAX_HOSTS` per granted term, plus `free` more. */
  ghost predicate Advances(lim: Limits, m: Meter, m': Meter, free: nat) {
    && m.lookups <= m'.lookups <= lim.lookups + 1
    && m.voids <= m'.voids <= lim.voids + 1
    && m.queries <= m'.queries <= m.queries + free + (1 + MAX_HOSTS) * (Min(m'.lookups, lim.lookups) - m.lookups)
  }

  function CheckHost(w: World, lim: Limits, domain: string, m: Meter): (v: Verdict)
    requires Within(lim, m)
    ensures Advances(lim, m, v.meter, 1)
    ensures v.result != PermError ==> Within(lim, v.meter)
    ensures v.result != TempError
    ensures v.result == NoneResult <==> PolicyOf(w.dns, domain) == NoPolicy
    decreases lim.lookups - m.lookups, 3
  {
    var m1 := m.Queried();
    match PolicyOf(w.dns, domain)
    case NoPolicy => Verdict(NoneResult, m1)
    case BadPolicy => Verdict(PermError, m1)
    case Published(record) =>
      var s := Directives(w, lim, record.directives, domain, m1);
      if s.decided.Some? then Verdict(s.decided.value, s.meter)
      else if record.redirect.None? then Verdict(Neutral, s.meter)
      else Redirect(w, lim, record.redirect.value, domain, s.meter)
  }

  function Redirect(w: World, lim: Limits, spec: string, domain: string, m: Meter): (v: Verdict)
    requires Within(lim, m)
    ensures Advances(lim, m, v.meter, 0)
    ensures v.result != PermError ==> Within(lim, v.meter)
    ensures v.result !in {TempError, NoneResult}
    decreases lim.lookups - m.lookups, 1
  {
    var m1 := m.LookedUp();
    if m1.lookups > lim.lookups then Verdict(PermError, m1)
    else
      match w.Expand(spec, domain)
      case None => Verdict(PermError, m1)
      case Some(target) =>
        var v := CheckHost(w, lim, target, m1);
        if v.result == NoneResult then v.(result := PermError) else v
  }

  function Directives(w: World, lim: Limits, ds: seq<Directive>, domain: string, m: Meter): (s: Scan)
    requires Within(lim, m)
    ensures Advances(lim, m, s.meter, 0)
    ensures s.decided != Some(PermError) ==> Within(lim, s.meter)
    ensures s.decided !in {Some(TempError), Some(NoneResult)}
    decreases lim.lookups - m.lookups, 2, |ds|
  {
    if ds == [] then Scan(None, m)
    else
      var t := Matches(w, lim, ds[0].mechanism, domain, m);
      match t.outcome
      case Match => Scan(Some(QualifierResult(ds[0].qualifier)), t.meter)
      case NoMatch => Directives(w, lim, ds[1..], domain, t.meter)
      case Error(r) => Scan(Some(r), t.meter)
  }

  function Matches(w: World, lim: Limits, mech: Mechanism, current: string, m: Meter): (t: Tested)
    requires Within(lim, m)
    ensures Advances(lim, m, t.meter, 0)
    ensures !t.outcome.Error? ==> Within(lim, t.meter)
    ensures t.outcome.Error? ==> t.outcome.result == PermError
    decreases lim.lookups - m.lookups, 1
  {
    match mech
    case All => Tested(Match, m)
    case Ip4(net, prefix) => Tested(FromBool(w.ip.V4? && Cidr(32, net, prefix, w.ip.a4)), m)
    case Ip6(net, prefix) => Tested(FromBool(w.ip.V6? && Cidr(128, net, prefix, w.ip.a6)), m)
    case _ =>
      var m1 := m.LookedUp();
      if m1.lookups > lim.lookups then Tested(Error(PermError), m1)
      else
        match mech
        case A(domain, v4, v6) => AMatch(w, lim, domain, current, v4, v6, m1)
        case Mx(domain, v4, v6) => MxMatch(w, lim, domain, current, v4, v6, m1)
        case Include(spec) => IncludeMatch(w, lim, spec, current, m1)
        case Exists(spec) => ExistsMatch(w, lim, spec, current, m1)
        case Ptr(domain) => PtrMatch(w, lim, domain, current, m1)
  }

  /** Charge one void lookup when an answer was empty. */
  function ChargeIfEmpty<T>(answer: seq<T>, m: Meter): (r: Meter)
    ensures r.lookups == m.lookups && r.queries == m.queries && m.voids <= r.voids <= m.voids + 1
  {
    if answer == [] then m.Voided() else m
  }

  function AMatch(w: World, lim: Limits, domain: Option<string>, current: string, v4: nat, v6: nat, m: Meter): Tested
    requires Within(lim, m)
  {
    match w.ResolveTarget(domain, current)
    case None => Tested(Error(PermError), m)
    case Some(target) =>
      var addrs := w.Addresses(target);
      var m1 := ChargeIfEmpty(addrs, m.Queried());
      if m1.voids > lim.voids then Tested(Error(PermError), m1)
      else Tested(FromBool(w.AnyInNet(addrs, v4, v6)), m1)
  }

  function MxMatch(w: World, lim: Limits, domain: Option<string>, current: string, v4: nat, v6: nat, m: Meter): Tested
    requires Within(lim, m)
  {
    match w.ResolveTarget(domain, current)
    case None => Tested(Error(PermError), m)
    case Some(target) =>
      var mxs := w.Exchanges(target);
      var m1 := ChargeIfEmpty(mxs, m.Queried());
      if m1.voids > lim.voids then Tested(Error(PermError), m1)
      else MxHosts(w, mxs[..Min(|mxs|, MAX_HOSTS)], v4, v6, m1)
  }

  function MxHosts(w: World, hosts: seq<string>, v4: nat, v6: nat, m: Meter): (t: Tested)
    ensures !t.outcome.Error?
    ensures t.meter == m.(queries := t.meter.queries)
    ensures m.queries <= t.meter.queries <= m.queries + |hosts|
  {
    if hosts == [] then Tested(NoMatch, m)
    else if w.AnyInNet(w.Addresses(hosts[0]), v4, v6) then Tested(Match, m.Queried())
    else MxHosts(w, hosts[1..], v4, v6, m.Queried())
  }

  function IncludeMatch(w: World, lim: Limits, spec: string, current: string, m: Meter): (t: Tested)
    requires Within(lim, m)
    ensures Advances(lim, m, t.meter, 1)
    ensures !t.outcome.Error? ==> Within(lim, t.meter)
    ensures t.outcome.Error? ==> t.outcome.result == PermError
    decreases lim.lookups - m.lookups, 4
  {
    match w.Expand(spec, current)
    case None => Tested(Error(PermError), m)
    case Some(target) =>
      var v := CheckHost(w, lim, target, m);
      var outcome := match v.result
        case Pass => Match
        case Fail => NoMatch
        case SoftFail => NoMatch
        case Neutral => NoMatch
        case NoneResult => Error(PermError)
        case TempError => Error(TempError)
        case PermError => Error(PermError);
      Tested(outcome, v.meter)
  }

  function ExistsMatch(w: World, lim: Limits, spec: string, current: string, m: Meter): Tested
    requires Within(lim, m)
  {
    match w.Expand(spec, current)
    case None => Tested(Error(PermError), m)
    case Some(target) =>
      var addrs := w.Addresses(target);
      var m1 := ChargeIfEmpty(addrs, m.Queried());
      if m1.voids > lim.voids then Tested(Error(PermError), m1)
      else Tested(FromBool(addrs != []), m1)
  }

  function PtrMatch(w: World, lim: Limits, domain: Option<string>, current: string, m: Meter): Tested
    requires Within(lim, m)
  {
    match w.ResolveTarget(domain, current)
    case None => Tested(Error(PermError), m)
    case Some(target) =>
      var names := w.ClientNames();
      var m1 := ChargeIfEmpty(names, m.Queried());
      if m1.voids > lim.voids then Tested(Error(PermError), m1)
      else PtrNames(w, Lower(target), names[..Min(|names|, MAX_HOSTS)], m1)
  }

  predicate NameWithin(name: string, targetLower: string) {
    Lower(name) == targetLower || EndsWith(Lower(name), "." + targetLower)
  }

  function PtrNames(w: World, targetLower: string, names: seq<string>, m: Meter): (t: Tested)
    ensures !t.outcome.Error?
    ensures t.meter == m.(queries := t.meter.queries)
    ensures m.queries <= t.meter.queries <= m.queries + |names|
  {
    if names == [] then Tested(NoMatch, m)
    else if !NameWithin(names[0], targetLower) then PtrNames(w, targetLower, names[1..], m)
    else if w.ip in w.Addresses(names[0]) then Tested(Match, m.Queried())
    else PtrNames(w, targetLower, names[1..], m.Queried())
  }

  /** `evaluate`: choose the identity, then check its domain from a zero meter. */
  function Identity(helo: string, mailFrom: string): (string, string) {
    match RSplitOnce(mailFrom, '@')
    case Some((l, d)) => if l != [] && d != [] then (l, d) else ("postmaster", helo)
    case None => ("postmaster", helo)
  }

  const START := Meter(0, 0, 0)

  function Evaluate(dns: Dns, lim: Limits, ip: IpAddr, helo: string, mailFrom: string): Verdict {
    var (local, domain) := Identity(helo, mailFrom);
    if domain == [] then Verdict(NoneResult, START)
    else CheckHost(World(dns, ip, local, domain, helo), lim, domain, START)
  }
}
