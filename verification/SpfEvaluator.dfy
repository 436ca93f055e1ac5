/**
 The evaluator object: two mutable counters, loops over directives and hosts,
 and recursion through include and redirect. Every method is proved against the
 state-passing specification in module Spf.
 */
module SpfEvaluator {
  import opened Networks
  import opened Text
  import opened Spf

  class Evaluator {
    const w: World
    var lookups: nat
    var voids: nat
    ghost var queries: nat

    constructor (w: World)
      ensures this.w == w && Now() == START
    {
      this.w := w;
      lookups, voids, queries := 0, 0, 0;
    }

    ghost function Now(): Meter
      reads this
    {
      Meter(lookups, voids, queries)
    }

    ghost predicate Ready()
      reads this
    {
      Within(LIMITS, Now())
    }

    method CheckHost(domain: string) returns (result: SpfResult)
      requires Ready()
      modifies this
      ensures Verdict(result, Now()) == Spf.CheckHost(w, LIMITS, domain, old(Now()))
      decreases LIMITS.lookups - lookups, 3
    {
      queries := queries + 1;
      var policy := PolicyOf(w.dns, domain);
      if policy.NoPolicy? { return NoneResult; }
      if policy.BadPolicy? { return PermError; }
      var record := policy.record;
      ghost var scan := Directives(w, LIMITS, record.directives, domain, Now());
      var i := 0;
      while i < |record.directives|
        invariant 0 <= i <= |record.directives|
        invariant Ready() && old(lookups) <= lookups
        invariant scan == Directives(w, LIMITS, record.directives[i..], domain, Now())
      {
        var outcome := Matches(record.directives[i].mechanism, domain);
        match outcome {
          case Match => return QualifierResult(record.directives[i].qualifier);
          case Error(r) => return r;
          case NoMatch =>
        }
        assert record.directives[i..][1..] == record.directives[i + 1..];
        i := i + 1;
      }
      if record.redirect.None? { return Neutral; }
      var ok := ChargeLookup();
      if !ok { return PermError; }
      var target := w.Expand(record.redirect.value, domain);
      if target.None? { return PermError; }
      result := CheckHost(target.value);
      if result.NoneResult? { result := PermError; }
    }

    method Matches(mech: Mechanism, current: string) returns (outcome: Outcome)
      requires Ready()
      modifies this
      ensures Tested(outcome, Now()) == Spf.Matches(w, LIMITS, mech, current, old(Now()))
      decreases LIMITS.lookups - lookups, 1
    {
      match mech {
        case All => return Match;
        case Ip4(net, prefix) => return FromBool(w.ip.V4? && Cidr(32, net, prefix, w.ip.a4));
        case Ip6(net, prefix) => return FromBool(w.ip.V6? && Cidr(128, net, prefix, w.ip.a6));
        case _ =>
      }
      var ok := ChargeLookup();
      if !ok { return Error(PermError); }
      match mech {
        case A(domain, v4, v6) => outcome := AMatch(domain, current, v4, v6);
        case Mx(domain, v4, v6) => outcome := MxMatch(domain, current, v4, v6);
        case Include(spec) => outcome := IncludeMatch(spec, current);
        case Exists(spec) => outcome := ExistsMatch(spec, current);
        case Ptr(domain) => outcome := PtrMatch(domain, current);
      }
    }

    method AMatch(domain: Option<string>, current: string, v4: nat, v6: nat) returns (outcome: Outcome)
      requires Ready()
      modifies this
      ensures Tested(outcome, Now()) == Spf.AMatch(w, LIMITS, domain, current, v4, v6, old(Now()))
    {
      var target := w.ResolveTarget(domain, current);
      if target.None? { return Error(PermError); }
      var addrs := LookupIp(target.value);
      if addrs == [] {
        var ok := ChargeVoid();
        if !ok { return Error(PermError); }
      }
      outcome := FromBool(w.AnyInNet(addrs, v4, v6));
    }

    method MxMatch(domain: Option<string>, current: string, v4: nat, v6: nat) returns (outcome: Outcome)
      requires Ready()
      modifies this
      ensures Tested(outcome, Now()) == Spf.MxMatch(w, LIMITS, domain, current, v4, v6, old(Now()))
    {
      var target := w.ResolveTarget(domain, current);
      if target.None? { return Error(PermError); }
      queries := queries + 1;
      var mxs := w.Exchanges(target.value);
      if mxs == [] {
        var ok := ChargeVoid();
        if !ok { return Error(PermError); }
      }
      var hosts := mxs[..Min(|mxs|, MAX_HOSTS)];
      ghost var all := MxHosts(w, hosts, v4, v6, Now());
      var i := 0;
      while i < |hosts|
        invariant 0 <= i <= |hosts|
        invariant all == MxHosts(w, hosts[i..], v4, v6, Now())
      {
        var addrs := LookupIp(hosts[i]);
        if w.AnyInNet(addrs, v4, v6) { return Match; }
        assert hosts[i..][1..] == hosts[i + 1..];
        i := i + 1;
      }
      outcome := NoMatch;
    }

    method IncludeMatch(spec: string, current: string) returns (outcome: Outcome)
      requires Ready()
      modifies this
      ensures Tested(outcome, Now()) == Spf.IncludeMatch(w, LIMITS, spec, current, old(Now()))
      decreases LIMITS.lookups - lookups, 4
    {
      var target := w.Expand(spec, current);
      if target.None? { return Error(PermError); }
      var result := CheckHost(target.value);
      match result {
        case Pass => outcome := Match;
        case Fail => outcome := NoMatch;
        case SoftFail => outcome := NoMatch;
        case Neutral => outcome := NoMatch;
        case NoneResult => outcome := Error(PermError);
        case TempError => outcome := Error(TempError);
        case PermError => outcome := Error(PermError);
      }
    }

    method ExistsMatch(spec: string, current: string) returns (outcome: Outcome)
      requires Ready()
      modifies this
      ensures Tested(outcome, Now()) == Spf.ExistsMatch(w, LIMITS, spec, current, old(Now()))
    {
      var target := w.Expand(spec, current);
      if target.None? { return Error(PermError); }
      var addrs := LookupIp(target.value);
      if addrs == [] {
        var ok := ChargeVoid();
        if !ok { return Error(PermError); }
      }
      outcome := FromBool(addrs != []);
    }

    method PtrMatch(domain: Option<string>, current: string) returns (outcome: Outcome)
      requires Ready()
      modifies this
      ensures Tested(outcome, Now()) == Spf.PtrMatch(w, LIMITS, domain, current, old(Now()))
    {
      var target := w.ResolveTarget(domain, current);
      if target.None? { return Error(PermError); }
      queries := queries + 1;
      var found := w.ClientNames();
      if found == [] {
        var ok := ChargeVoid();
        if !ok { return Error(PermError); }
      }
      var targetLower := Lower(target.value);
      var names := found[..Min(|found|, MAX_HOSTS)];
      ghost var all := PtrNames(w, targetLower, names, Now());
      var i := 0;
      while i < |names|
        invariant 0 <= i <= |names|
        invariant all == PtrNames(w, targetLower, names[i..], Now())
      {
        if NameWithin(names[i], targetLower) {
          var addrs := LookupIp(names[i]);
          if w.ip in addrs { return Match; }
        }
        assert names[i..][1..] == names[i + 1..];
        i := i + 1;
      }
      outcome := NoMatch;
    }

    method LookupIp(host: string) returns (addrs: seq<IpAddr>)
      modifies this`queries
      ensures addrs == w.Addresses(host) && Now() == old(Now()).Queried()
    {
      queries := queries + 1;
      addrs := w.Addresses(host);
    }

    method ChargeLookup() returns (ok: bool)
      modifies this`lookups
      ensures Now() == old(Now()).LookedUp()
      ensures ok <==> lookups <= LIMITS.lookups
    {
      lookups := lookups + 1;
      ok := lookups <= LIMITS.lookups;
    }

    method ChargeVoid() returns (ok: bool)
      modifies this`voids
      ensures Now() == old(Now()).Voided()
      ensures ok <==> voids <= LIMITS.voids
    {
      voids := voids + 1;
      ok := voids <= LIMITS.voids;
    }
  }

  /** `evaluate` answers as specified, and makes at most 111 resolver calls. */
  method Evaluate(dns: Dns, ip: IpAddr, helo: string, mailFrom: string) returns (result: SpfResult, ghost calls: nat)
    ensures result == Spf.Evaluate(dns, LIMITS, ip, helo, mailFrom).result
    ensures calls == Spf.Evaluate(dns, LIMITS, ip, helo, mailFrom).meter.queries <= 111
  {
    var (local, domain) := Identity(helo, mailFrom);
    if domain == [] { return NoneResult, 0; }
    var ev := new Evaluator(World(dns, ip, local, domain, helo));
    result := ev.CheckHost(domain);
    calls := ev.queries;
  }
}
