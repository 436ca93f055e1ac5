/**
 What holds of SPF evaluation for every resolver, client and domain: larger
 budgets never change an answer other than PermError, every such answer is the
 one a meterless reading of the published policies gives, and a policy loop can
 only end in PermError.
 */
module SpfTheorems {
  import opened Networks
  import opened Text
  import opened Spf

  ghost predicate Looser(lim: Limits, lim': Limits) {
    lim.lookups <= lim'.lookups && lim.voids <= lim'.voids
  }

  // ------------------------------------------------------- budget refinement

  lemma {:induction false} CheckHostRefines(w: World, lim: Limits, lim': Limits, domain: string, m: Meter)
    requires Looser(lim, lim') && Within(lim, m)
    requires CheckHost(w, lim, domain, m).result != PermError
    ensures CheckHost(w, lim', domain, m) == CheckHost(w, lim, domain, m)
    decreases lim.lookups - m.lookups, 3
  {
    var m1 := m.Queried();
    match PolicyOf(w.dns, domain)
    case NoPolicy =>
    case BadPolicy =>
    case Published(record) =>
      DirectivesRefine(w, lim, lim', record.directives, domain, m1);
      var s := Directives(w, lim, record.directives, domain, m1);
      if s.decided.None? && record.redirect.Some? {
        RedirectRefines(w, lim, lim', record.redirect.value, domain, s.meter);
      }
  }

  lemma {:induction false} RedirectRefines(w: World, lim: Limits, lim': Limits, spec: string, domain: string, m: Meter)
    requires Looser(lim, lim') && Within(lim, m)
    requires Redirect(w, lim, spec, domain, m).result != PermError
    ensures Redirect(w, lim', spec, domain, m) == Redirect(w, lim, spec, domain, m)
    decreases lim.lookups - m.lookups, 1
  {
    var target := w.Expand(spec, domain).value;
    CheckHostRefines(w, lim, lim', target, m.LookedUp());
  }

  lemma {:induction false} DirectivesRefine(w: World, lim: Limits, lim': Limits, ds: seq<Directive>, domain: string, m: Meter)
    requires Looser(lim, lim') && Within(lim, m)
    requires Directives(w, lim, ds, domain, m).decided != Some(PermError)
    ensures Directives(w, lim', ds, domain, m) == Directives(w, lim, ds, domain, m)
    decreases lim.lookups - m.lookups, 2, |ds|
  {
    if ds != [] {
      MatchesRefines(w, lim, lim', ds[0].mechanism, domain, m);
      var t := Matches(w, lim, ds[0].mechanism, domain, m);
      if t.outcome.NoMatch? {
        DirectivesRefine(w, lim, lim', ds[1..], domain, t.meter);
      }
    }
  }

  lemma {:induction false} MatchesRefines(w: World, lim: Limits, lim': Limits, mech: Mechanism, current: string, m: Meter)
    requires Looser(lim, lim') && Within(lim, m)
    requires !Matches(w, lim, mech, current, m).outcome.Error?
    ensures Matches(w, lim', mech, current, m) == Matches(w, lim, mech, current, m)
    decreases lim.lookups - m.lookups, 1
  {
    if mech.Include? {
      CheckHostRefines(w, lim, lim', w.Expand(mech.includeSpec, current).value, m.LookedUp());
    }
  }

  /** An answer other than PermError survives any increase of the two limits,
      down to the counters and the number of resolver calls. */
  lemma BudgetRefinement(dns: Dns, ip: IpAddr, helo: string, mailFrom: string, lim': Limits)
    requires Looser(LIMITS, lim')
    requires Evaluate(dns, LIMITS, ip, helo, mailFrom).result != PermError
    ensures Evaluate(dns, lim', ip, helo, mailFrom) == Evaluate(dns, LIMITS, ip, helo, mailFrom)
  {
    var (local, domain) := Identity(helo, mailFrom);
    if domain != [] {
      CheckHostRefines(World(dns, ip, local, domain, helo), LIMITS, lim', domain, START);
    }
  }

  /** The cost of one evaluation, and exactly when it answers `none`. */
  lemma EvaluationCost(dns: Dns, ip: IpAddr, helo: string, mailFrom: string)
    ensures var v := Evaluate(dns, LIMITS, ip, helo, mailFrom);
            && v.meter.lookups <= 11
            && v.meter.voids <= 3
            && v.meter.queries <= 111
            && (v.meter.lookups == 11 || v.meter.voids == 3 ==> v.result == PermError)
            && v.result != TempError
    ensures var domain := Identity(helo, mailFrom).1;
            Evaluate(dns, LIMITS, ip, helo, mailFrom).result == NoneResult
            <==> domain == [] || PolicyOf(dns, domain) == NoPolicy
  {
  }

  // ------------------------------------------------------ meterless semantics

  ghost predicate HasAddress(w: World, host: string, a: IpAddr) {
    w.dns.lookupIp(host).Some? && a in w.dns.lookupIp(host).value
  }

  /** One network, of one address family. */
  ghost predicate SameNet(client: IpAddr, net: IpAddr, v4: nat, v6: nat) {
    || (client.V4? && net.V4? && Cidr(32, net.a4, v4, client.a4))
    || (client.V6? && net.V6? && Cidr(128, net.a6, v6, client.a6))
  }

  /** The client shares a network with some address of the host. */
  ghost predicate Reaches(w: World, host: string, v4: nat, v6: nat) {
    exists a :: HasAddress(w, host, a) && SameNet(w.ip, a, v4, v6)
  }

  ghost predicate Empty<T>(answer: Option<seq<T>>) {
    answer.None? || answer.value == []
  }

  /** Among the first ten names of an answer. */
  ghost predicate Listed(answer: Option<seq<string>>, i: nat, name: string) {
    answer.Some? && i < |answer.value| && i < 10 && answer.value[i] == name
  }

  ghost predicate SomeExchange(w: World, target: string, v4: nat, v6: nat) {
    exists i, host :: Listed(w.dns.lookupMx(target), i, host) && Reaches(w, host, v4, v6)
  }

  /** The domain itself or a name below it, in any case. */
  ghost predicate Under(name: string, domain: string) {
    Lower(name) == Lower(domain) || exists below :: Lower(name) == below + "." + Lower(domain)
  }

  ghost predicate SomeNameVouches(w: World, target: string) {
    exists i, name :: Listed(w.dns.reverseLookup(w.ip), i, name) && Under(name, target) && HasAddress(w, name, w.ip)
  }

  ghost function Named(w: World, spec: string, current: string): Option<string> {
    w.dns.expandMacros(spec, MacroContext(
      ip := w.ip, helo := w.helo, senderLocal := w.senderLocal, senderDomain := w.senderDomain, domain := current))
  }

  ghost function TargetOf(w: World, spec: Option<string>, current: string): Option<string> {
    match spec
    case None => Some(current)
    case Some(s) => Named(w, s, current)
  }

  ghost function Tells(matched: bool): Outcome {
    if matched then Match else NoMatch
  }

  /** The first non-NoMatch directive decides. */
  ghost function FirstDecision(w: World, depth: nat, ds: seq<Directive>, domain: string): Option<SpfResult>
    decreases depth, 1, |ds|
  {
    if ds == [] then None
    else
      match Holds(w, depth, ds[0].mechanism, domain)
      case Match =>
        Some(match ds[0].qualifier
             case QPass => Pass
             case QFail => Fail
             case QSoftFail => SoftFail
             case QNeutral => Neutral)
      case Error(r) => Some(r)
      case NoMatch => FirstDecision(w, depth, ds[1..], domain)
  }

  /** The policy's meaning with no counters at all: only nesting is bounded. */
  ghost function Meaning(w: World, depth: nat, domain: string): SpfResult
    decreases depth, 2
  {
    match PolicyOf(w.dns, domain)
    case NoPolicy => NoneResult
    case BadPolicy => PermError
    case Published(record) =>
      match FirstDecision(w, depth, record.directives, domain)
      case Some(r) => r
      case None =>
        if record.redirect.None? then Neutral else Followed(w, depth, record.redirect.value, domain)
  }

  /** A redirect means what its target means, and must have a target. */
  ghost function Followed(w: World, depth: nat, spec: string, domain: string): SpfResult
    decreases depth, 1
  {
    match Named(w, spec, domain)
    case None => PermError
    case Some(target) =>
      if depth == 0 then PermError
      else
        var r := Meaning(w, depth - 1, target);
        if r == NoneResult then PermError else r
  }

  /** A term matches by what the network says about its target, nothing else. */
  ghost function Holds(w: World, depth: nat, mech: Mechanism, current: string): Outcome
    decreases depth, 0
  {
    match mech
    case All => Match
    case Ip4(net, prefix) => Tells(w.ip.V4? && Cidr(32, net, prefix, w.ip.a4))
    case Ip6(net, prefix) => Tells(w.ip.V6? && Cidr(128, net, prefix, w.ip.a6))
    case A(domain, v4, v6) =>
      (match TargetOf(w, domain, current)
       case None => Error(PermError)
       case Some(target) => Tells(Reaches(w, target, v4, v6)))
    case Mx(domain, v4, v6) =>
      (match TargetOf(w, domain, current)
       case None => Error(PermError)
       case Some(target) => Tells(SomeExchange(w, target, v4, v6)))
    case Exists(spec) =>
      (match Named(w, spec, current)
       case None => Error(PermError)
       case Some(target) => Tells(!Empty(w.dns.lookupIp(target))))
    case Ptr(domain) =>
      (match TargetOf(w, domain, current)
       case None => Error(PermError)
       case Some(target) => Tells(SomeNameVouches(w, target)))
    case Include(spec) =>
      (match Named(w, spec, current)
       case None => Error(PermError)
       case Some(target) =>
         if depth == 0 then Error(PermError)
         else
           match Meaning(w, depth - 1, target)
           case Pass => Match
           case Fail => NoMatch
           case SoftFail => NoMatch
           case Neutral => NoMatch
           case _ => Error(PermError))
  }

  // --------------------------------------------------------- from lists to facts

  lemma AddressesAre(w: World, host: string)
    ensures forall a :: a in w.Addresses(host) <==> HasAddress(w, host, a)
    ensures w.Addresses(host) == [] <==> Empty(w.dns.lookupIp(host))
  {
  }

  lemma InNetIs(client: IpAddr, net: IpAddr, v4: nat, v6: nat)
    ensures IpInNet(client, net, v4, v6) <==> SameNet(client, net, v4, v6)
  {
    hide Cidr;
  }

  lemma AnyIs(w: World, host: string, v4: nat, v6: nat)
    ensures w.AnyInNet(w.Addresses(host), v4, v6) <==> Reaches(w, host, v4, v6)
  {
    AddressesAre(w, host);
    hide World.Addresses, HasAddress, IpInNet, SameNet;
    var addrs := w.Addresses(host);
    forall a ensures IpInNet(w.ip, a, v4, v6) <==> SameNet(w.ip, a, v4, v6) {
      InNetIs(w.ip, a, v4, v6);
    }
    if w.AnyInNet(addrs, v4, v6) {
      var i :| 0 <= i < |addrs| && IpInNet(w.ip, addrs[i], v4, v6);
      assert addrs[i] in addrs && HasAddress(w, host, addrs[i]);
    }
    if Reaches(w, host, v4, v6) {
      var a :| HasAddress(w, host, a) && SameNet(w.ip, a, v4, v6);
      var i :| 0 <= i < |addrs| && addrs[i] == a;
      assert IpInNet(w.ip, addrs[i], v4, v6);
    }
  }

  lemma UnderIs(name: string, domain: string)
    ensures NameWithin(name, Lower(domain)) <==> Under(name, domain)
  {
    SuffixIs(Lower(name), Lower(domain));
    hide EndsWith;
  }

  lemma SuffixIs(n: string, d: string)
    ensures EndsWith(n, "." + d) <==> exists below :: n == below + "." + d
  {
    if EndsWith(n, "." + d) {
      assert n == n[..|n| - |d| - 1] + ("." + d);
      assert n == n[..|n| - |d| - 1] + "." + d;
    }
    if below :| n == below + "." + d {
      assert n[|n| - |d| - 1..] == "." + d;
    }
  }

  ghost predicate Vouches(w: World, name: string, targetLower: string) {
    NameWithin(name, targetLower) && w.ip in w.Addresses(name)
  }

  ghost predicate SomeHost(w: World, hosts: seq<string>, v4: nat, v6: nat) {
    exists i :: 0 <= i < |hosts| && w.AnyInNet(w.Addresses(hosts[i]), v4, v6)
  }

  ghost predicate SomeVouches(w: World, names: seq<string>, targetLower: string) {
    exists i :: 0 <= i < |names| && Vouches(w, names[i], targetLower)
  }

  lemma SomeHostFirst(w: World, hosts: seq<string>, v4: nat, v6: nat)
    requires hosts != []
    ensures SomeHost(w, hosts, v4, v6) <==> w.AnyInNet(w.Addresses(hosts[0]), v4, v6) || SomeHost(w, hosts[1..], v4, v6)
  {
    hide World.AnyInNet, World.Addresses;
    forall i | 0 < i < |hosts| ensures hosts[1..][i - 1] == hosts[i] {
    }
  }

  lemma SomeVouchesFirst(w: World, names: seq<string>, targetLower: string)
    requires names != []
    ensures SomeVouches(w, names, targetLower) <==> Vouches(w, names[0], targetLower) || SomeVouches(w, names[1..], targetLower)
  {
    hide Vouches;
    forall i | 0 < i < |names| ensures names[1..][i - 1] == names[i] {
    }
  }

  lemma {:induction false} MxHostsMeaning(w: World, hosts: seq<string>, v4: nat, v6: nat, m: Meter)
    ensures MxHosts(w, hosts, v4, v6, m).outcome == Tells(SomeHost(w, hosts, v4, v6))
    decreases |hosts|
  {
    if hosts != [] {
      hide SomeHost, World.AnyInNet, World.Addresses;
      SomeHostFirst(w, hosts, v4, v6);
      MxHostsMeaning(w, hosts[1..], v4, v6, m.Queried());
    }
  }

  lemma {:induction false} PtrNamesMeaning(w: World, targetLower: string, names: seq<string>, m: Meter)
    ensures PtrNames(w, targetLower, names, m).outcome == Tells(SomeVouches(w, names, targetLower))
    decreases |names|
  {
    if names != [] {
      hide SomeVouches, NameWithin, World.Addresses;
      SomeVouchesFirst(w, names, targetLower);
      PtrNamesMeaning(w, targetLower, names[1..], m);
      PtrNamesMeaning(w, targetLower, names[1..], m.Queried());
    }
  }

  lemma ExchangesAre(w: World, target: string, v4: nat, v6: nat)
    ensures var mxs := w.Exchanges(target);
            && (mxs == [] <==> Empty(w.dns.lookupMx(target)))
            && (SomeHost(w, mxs[..Min(|mxs|, MAX_HOSTS)], v4, v6) <==> SomeExchange(w, target, v4, v6))
  {
    var mxs, answer := w.Exchanges(target), w.dns.lookupMx(target);
    var tried := mxs[..Min(|mxs|, MAX_HOSTS)];
    forall i: nat, host | Listed(answer, i, host) ensures i < |tried| && tried[i] == host {
    }
    forall i | 0 <= i < |tried| ensures Listed(answer, i, tried[i]) {
    }
    forall host ensures w.AnyInNet(w.Addresses(host), v4, v6) <==> Reaches(w, host, v4, v6) {
      AnyIs(w, host, v4, v6);
    }
    hide World.AnyInNet, World.Addresses, Reaches, Listed;
    if SomeHost(w, tried, v4, v6) {
      var i :| 0 <= i < |tried| && w.AnyInNet(w.Addresses(tried[i]), v4, v6);
      assert Listed(answer, i, tried[i]) && Reaches(w, tried[i], v4, v6);
    }
    if i: nat, host :| Listed(answer, i, host) && Reaches(w, host, v4, v6) {
      assert w.AnyInNet(w.Addresses(tried[i]), v4, v6);
    }
  }

  lemma NamesAre(w: World, target: string)
    ensures var names := w.ClientNames();
            && (names == [] <==> Empty(w.dns.reverseLookup(w.ip)))
            && (SomeVouches(w, names[..Min(|names|, MAX_HOSTS)], Lower(target)) <==> SomeNameVouches(w, target))
  {
    var names, answer := w.ClientNames(), w.dns.reverseLookup(w.ip);
    var tried := names[..Min(|names|, MAX_HOSTS)];
    forall i: nat, name | Listed(answer, i, name) ensures i < |tried| && tried[i] == name {
    }
    forall i | 0 <= i < |tried| ensures Listed(answer, i, tried[i]) {
    }
    forall name ensures Vouches(w, name, Lower(target)) <==> Under(name, target) && HasAddress(w, name, w.ip) {
      UnderIs(name, target);
      AddressesAre(w, name);
    }
    hide Vouches, Under, HasAddress, Listed, Lower;
    if SomeVouches(w, tried, Lower(target)) {
      var i :| 0 <= i < |tried| && Vouches(w, tried[i], Lower(target));
      assert Listed(answer, i, tried[i]) && Under(tried[i], target) && HasAddress(w, tried[i], w.ip);
    }
    if i: nat, name :| Listed(answer, i, name) && Under(name, target) && HasAddress(w, name, w.ip) {
      assert Vouches(w, tried[i], Lower(target));
    }
  }

  lemma TargetsAre(w: World, spec: Option<string>, current: string)
    ensures w.ResolveTarget(spec, current) == TargetOf(w, spec, current)
  {
  }

  // ---------------------------------------------------------- metered and meterless

  lemma {:induction false} CheckHostMeaning(w: World, lim: Limits, domain: string, m: Meter, depth: nat)
    requires Within(lim, m) && lim.lookups - m.lookups <= depth
    requires Within(lim, CheckHost(w, lim, domain, m).meter)
    ensures Meaning(w, depth, domain) == CheckHost(w, lim, domain, m).result
    decreases lim.lookups - m.lookups, 3
  {
    hide Redirect, Followed, World.Expand;
    match PolicyOf(w.dns, domain)
    case NoPolicy =>
    case BadPolicy =>
    case Published(record) =>
      var m1 := m.Queried();
      var s := Directives(w, lim, record.directives, domain, m1);
      if s.decided.None? && record.redirect.Some? {
        RedirectMeaning(w, lim, record.redirect.value, domain, s.meter, depth);
      }
      DirectivesMeaning(w, lim, record.directives, domain, m1, depth);
  }

  lemma {:induction false} RedirectMeaning(w: World, lim: Limits, spec: string, domain: string, m: Meter, depth: nat)
    requires Within(lim, m) && lim.lookups - m.lookups <= depth
    requires Within(lim, Redirect(w, lim, spec, domain, m).meter)
    ensures Followed(w, depth, spec, domain) == Redirect(w, lim, spec, domain, m).result
    decreases lim.lookups - m.lookups, 1
  {
    hide PolicyOf;
    if w.Expand(spec, domain).Some? {
      CheckHostMeaning(w, lim, w.Expand(spec, domain).value, m.LookedUp(), depth - 1);
    }
  }

  lemma {:induction false} DirectivesMeaning(w: World, lim: Limits, ds: seq<Directive>, domain: string, m: Meter, depth: nat)
    requires Within(lim, m) && lim.lookups - m.lookups <= depth
    requires Within(lim, Directives(w, lim, ds, domain, m).meter)
    ensures FirstDecision(w, depth, ds, domain) == Directives(w, lim, ds, domain, m).decided
    decreases lim.lookups - m.lookups, 2, |ds|
  {
    if ds != [] {
      MatchesMeaning(w, lim, ds[0].mechanism, domain, m, depth);
      hide Holds, Matches;
      var t := Matches(w, lim, ds[0].mechanism, domain, m);
      if t.outcome.NoMatch? {
        DirectivesMeaning(w, lim, ds[1..], domain, t.meter, depth);
      }
    }
  }

  /** What a list answered to a term comes to. */
  lemma TermMeaning(w: World, lim: Limits, mech: Mechanism, current: string, m: Meter, depth: nat)
    requires Within(lim, m) && !mech.Include?
    requires Within(lim, Matches(w, lim, mech, current, m).meter)
    ensures Holds(w, depth, mech, current) == Matches(w, lim, mech, current, m).outcome
  {
    hide SomeHost, SomeVouches, World.AnyInNet, Cidr, SomeExchange, SomeNameVouches, Reaches, Lower, World.Exchanges, World.ClientNames,
         World.ResolveTarget, TargetOf, World.Addresses, MxHosts, PtrNames, Empty;
    match mech
    case A(domain, v4, v6) =>
      TargetsAre(w, domain, current);
      if target :| TargetOf(w, domain, current) == Some(target) { AnyIs(w, target, v4, v6); }
    case Exists(spec) =>
      TargetsAre(w, Some(spec), current);
      if target :| Named(w, spec, current) == Some(target) { AddressesAre(w, target); }
    case Mx(domain, v4, v6) =>
      TargetsAre(w, domain, current);
      if target :| TargetOf(w, domain, current) == Some(target) {
        var mxs := w.Exchanges(target);
        ExchangesAre(w, target, v4, v6);
        MxHostsMeaning(w, mxs[..Min(|mxs|, MAX_HOSTS)], v4, v6, ChargeIfEmpty(mxs, m.LookedUp().Queried()));
      }
    case Ptr(domain) =>
      TargetsAre(w, domain, current);
      if target :| TargetOf(w, domain, current) == Some(target) {
        var names := w.ClientNames();
        NamesAre(w, target);
        PtrNamesMeaning(w, Lower(target), names[..Min(|names|, MAX_HOSTS)], ChargeIfEmpty(names, m.LookedUp().Queried()));
      }
    case _ =>
  }

  lemma {:induction false} MatchesMeaning(w: World, lim: Limits, mech: Mechanism, current: string, m: Meter, depth: nat)
    requires Within(lim, m) && lim.lookups - m.lookups <= depth
    requires Within(lim, Matches(w, lim, mech, current, m).meter)
    ensures Holds(w, depth, mech, current) == Matches(w, lim, mech, current, m).outcome
    decreases lim.lookups - m.lookups, 1
  {
    match mech
    case Include(spec) =>
      hide CheckHost, Meaning;
      if w.Expand(spec, current).Some? {
        assert Matches(w, lim, mech, current, m) == IncludeMatch(w, lim, spec, current, m.LookedUp());
        CheckHostMeaning(w, lim, w.Expand(spec, current).value, m.LookedUp(), depth - 1);
      }
    case _ => TermMeaning(w, lim, mech, current, m, depth);
  }

  // ------------------------------------------------------------------ exact costs

  /** Lookups and void lookups to be charged. */
  datatype Bill = Bill(lookups: nat, voids: nat) {
    function Plus(b: Bill): Bill { Bill(lookups + b.lookups, voids + b.voids) }
  }

  ghost function OneLookup(void: bool): Bill {
    Bill(1, if void then 1 else 0)
  }

  /** What a term costs, read off the network: one lookup for every kind that asks
      for one, and a void lookup if the answer it asks for is empty. */
  ghost function TermBill(w: World, depth: nat, mech: Mechanism, current: string): Bill
    decreases depth, 1
  {
    match mech
    case All => Bill(0, 0)
    case Ip4(_, _) => Bill(0, 0)
    case Ip6(_, _) => Bill(0, 0)
    case A(domain, _, _) =>
      var target := TargetOf(w, domain, current);
      OneLookup(target.Some? && Empty(w.dns.lookupIp(target.value)))
    case Mx(domain, _, _) =>
      var target := TargetOf(w, domain, current);
      OneLookup(target.Some? && Empty(w.dns.lookupMx(target.value)))
    case Exists(spec) =>
      var target := Named(w, spec, current);
      OneLookup(target.Some? && Empty(w.dns.lookupIp(target.value)))
    case Ptr(domain) =>
      OneLookup(TargetOf(w, domain, current).Some? && Empty(w.dns.reverseLookup(w.ip)))
    case Include(spec) => NestedBill(w, depth, spec, current)
  }

  /** An include or a redirect: one lookup, and whatever its target costs. */
  ghost function NestedBill(w: World, depth: nat, spec: string, current: string): Bill
    decreases depth, 0
  {
    var target := Named(w, spec, current);
    if target.None? || depth == 0 then Bill(1, 0)
    else Bill(1, 0).Plus(DomainBill(w, depth - 1, target.value))
  }

  /** Directives are paid for up to the first that does not say NoMatch. */
  ghost function ScanBill(w: World, depth: nat, ds: seq<Directive>, domain: string): Bill
    decreases depth, 2, |ds|
  {
    if ds == [] then Bill(0, 0)
    else
      var first := TermBill(w, depth, ds[0].mechanism, domain);
      if Holds(w, depth, ds[0].mechanism, domain) == NoMatch then first.Plus(ScanBill(w, depth, ds[1..], domain)) else first
  }

  ghost function DomainBill(w: World, depth: nat, domain: string): Bill
    decreases depth, 3
  {
    match PolicyOf(w.dns, domain)
    case Published(record) =>
      var scan := ScanBill(w, depth, record.directives, domain);
      if record.redirect.Some? && FirstDecision(w, depth, record.directives, domain).None?
      then scan.Plus(NestedBill(w, depth, record.redirect.value, domain))
      else scan
    case _ => Bill(0, 0)
  }

  /** The bill is charged in full if it fits the limits, and otherwise a limit is
      exceeded. */
  ghost predicate Charged(lim: Limits, m: Meter, bill: Bill, m': Meter) {
    var fits := m.lookups + bill.lookups <= lim.lookups && m.voids + bill.voids <= lim.voids;
    && (Within(lim, m') <==> fits)
    && (fits ==> m'.lookups == m.lookups + bill.lookups && m'.voids == m.voids + bill.voids)
  }

  lemma SimpleTermCharged(w: World, lim: Limits, mech: Mechanism, current: string, m: Meter, depth: nat)
    requires Within(lim, m) && !mech.Include?
    ensures Charged(lim, m, TermBill(w, depth, mech, current), Matches(w, lim, mech, current, m).meter)
  {
    hide World.AnyInNet, Cidr, World.ResolveTarget, World.Addresses, World.Exchanges, World.ClientNames, TargetOf, Empty, MxHosts, PtrNames,
         SomeHost, SomeVouches, SomeExchange, SomeNameVouches;
    match mech
    case A(domain, v4, v6) =>
      TargetsAre(w, domain, current);
      if target :| TargetOf(w, domain, current) == Some(target) { AddressesAre(w, target); }
    case Exists(spec) =>
      TargetsAre(w, Some(spec), current);
      if target :| Named(w, spec, current) == Some(target) { AddressesAre(w, target); }
    case Mx(domain, v4, v6) =>
      TargetsAre(w, domain, current);
      if target :| TargetOf(w, domain, current) == Some(target) { ExchangesAre(w, target, v4, v6); }
    case Ptr(domain) =>
      TargetsAre(w, domain, current);
      if target :| TargetOf(w, domain, current) == Some(target) { NamesAre(w, target); }
    case _ =>
  }

  /** A nested evaluation: one lookup first, then its own bill. */
  lemma NestedCharged(lim: Limits, m: Meter, nested: Bill, m': Meter)
    requires m.lookups < lim.lookups && Charged(lim, m.LookedUp(), nested, m')
    ensures Charged(lim, m, Bill(1, 0).Plus(nested), m')
  {
  }

  lemma Overdrawn(lim: Limits, m: Meter, bill: Bill, m': Meter)
    requires m.lookups == lim.lookups && bill.lookups > 0 && m' == m.LookedUp()
    ensures Charged(lim, m, bill, m')
  {
  }

  lemma NoTarget(lim: Limits, m: Meter, m': Meter)
    requires m.lookups < lim.lookups && m.voids <= lim.voids && m' == m.LookedUp()
    ensures Charged(lim, m, Bill(1, 0), m')
  {
  }

  lemma NestedCosts(w: World, depth: nat, spec: string, current: string)
    ensures var target, bill := Named(w, spec, current), NestedBill(w, depth, spec, current);
            && bill.lookups > 0
            && (target.None? ==> bill == Bill(1, 0))
            && (target.Some? && depth > 0 ==> bill == Bill(1, 0).Plus(DomainBill(w, depth - 1, target.value)))
  {
  }

  lemma NestedMeter(w: World, lim: Limits, spec: string, current: string, m: Meter)
    requires Within(lim, m)
    ensures var target, m1 := Named(w, spec, current), m.LookedUp();
            var m' := if m.lookups == lim.lookups || target.None? then m1 else CheckHost(w, lim, target.value, m1).meter;
            Matches(w, lim, Include(spec), current, m).meter == m' && Redirect(w, lim, spec, current, m).meter == m'
  {
    hide CheckHost;
  }

  lemma {:induction false} NestedIsCharged(w: World, lim: Limits, spec: string, current: string, m: Meter, depth: nat, m': Meter)
    requires Within(lim, m) && lim.lookups - m.lookups <= depth
    requires var target, m1 := Named(w, spec, current), m.LookedUp();
             m' == if m.lookups == lim.lookups || target.None? then m1 else CheckHost(w, lim, target.value, m1).meter
    ensures Charged(lim, m, NestedBill(w, depth, spec, current), m')
    decreases lim.lookups - m.lookups, 0
  {
    NestedCosts(w, depth, spec, current);
    hide Charged, CheckHost, NestedBill, DomainBill;
    var target := Named(w, spec, current);
    if m.lookups == lim.lookups {
      Overdrawn(lim, m, NestedBill(w, depth, spec, current), m');
    } else if target.None? {
      NoTarget(lim, m, m');
    } else {
      DomainCharged(w, lim, target.value, m.LookedUp(), depth - 1);
      NestedCharged(lim, m, DomainBill(w, depth - 1, target.value), m');
    }
  }

  lemma {:induction false} TermCharged(w: World, lim: Limits, mech: Mechanism, current: string, m: Meter, depth: nat)
    requires Within(lim, m) && lim.lookups - m.lookups <= depth
    ensures Charged(lim, m, TermBill(w, depth, mech, current), Matches(w, lim, mech, current, m).meter)
    decreases lim.lookups - m.lookups, 1
  {
    hide Charged, CheckHost, NestedBill, Matches;
    match mech
    case Include(spec) =>
      NestedMeter(w, lim, spec, current, m);
      NestedIsCharged(w, lim, spec, current, m, depth, Matches(w, lim, mech, current, m).meter);
    case _ => SimpleTermCharged(w, lim, mech, current, m, depth);
  }

  lemma {:induction false} ScanCharged(w: World, lim: Limits, ds: seq<Directive>, domain: string, m: Meter, depth: nat)
    requires Within(lim, m) && lim.lookups - m.lookups <= depth
    ensures Charged(lim, m, ScanBill(w, depth, ds, domain), Directives(w, lim, ds, domain, m).meter)
    decreases lim.lookups - m.lookups, 2, |ds|
  {
    if ds != [] {
      TermCharged(w, lim, ds[0].mechanism, domain, m, depth);
      var t := Matches(w, lim, ds[0].mechanism, domain, m);
      if Within(lim, t.meter) {
        MatchesMeaning(w, lim, ds[0].mechanism, domain, m, depth);
        if t.outcome.NoMatch? { ScanCharged(w, lim, ds[1..], domain, t.meter, depth); }
      }
      hide Holds, Matches, TermBill;
    }
  }

  lemma {:induction false} DomainCharged(w: World, lim: Limits, domain: string, m: Meter, depth: nat)
    requires Within(lim, m) && lim.lookups - m.lookups <= depth
    ensures Charged(lim, m, DomainBill(w, depth, domain), CheckHost(w, lim, domain, m).meter)
    decreases lim.lookups - m.lookups, 3
  {
    if record :| PolicyOf(w.dns, domain) == Published(record) {
      var m1 := m.Queried();
      var s := Directives(w, lim, record.directives, domain, m1);
      ScanCharged(w, lim, record.directives, domain, m1, depth);
      if Within(lim, s.meter) {
        DirectivesMeaning(w, lim, record.directives, domain, m1, depth);
        if s.decided.None? && record.redirect.Some? {
          NestedMeter(w, lim, record.redirect.value, domain, s.meter);
          NestedIsCharged(w, lim, record.redirect.value, domain, s.meter, depth,
                          Redirect(w, lim, record.redirect.value, domain, s.meter).meter);
        }
      }
      hide Directives, ScanBill, FirstDecision, Redirect, NestedBill;
    }
  }

  /** Evaluation, without any evaluator: the answer is what the published policies
      mean, to any nesting depth, if reading them costs at most ten lookups and two
      void lookups, and PermError otherwise. The counters end at that cost. */
  lemma AnswerIsMeaning(dns: Dns, ip: IpAddr, helo: string, mailFrom: string, depth: nat)
    requires depth >= 10
    ensures var (local, domain) := Identity(helo, mailFrom);
            var w := World(dns, ip, local, domain, helo);
            var v, bill := Evaluate(dns, LIMITS, ip, helo, mailFrom), DomainBill(w, depth, domain);
            var fits := bill.lookups <= 10 && bill.voids <= 2;
            domain != [] ==>
              && v.result == (if fits then Meaning(w, depth, domain) else PermError)
              && (fits ==> v.meter.lookups == bill.lookups && v.meter.voids == bill.voids)
  {
    var (local, domain) := Identity(helo, mailFrom);
    if domain != [] {
      var w := World(dns, ip, local, domain, helo);
      DomainCharged(w, LIMITS, domain, START, depth);
      if Within(LIMITS, CheckHost(w, LIMITS, domain, START).meter) {
        CheckHostMeaning(w, LIMITS, domain, START, depth);
      }
    }
  }

  lemma {:induction false} FirstMatchDecides(w: World, depth: nat, ds: seq<Directive>, i: nat, domain: string)
    requires FirstMatch(w, depth, ds, i, domain)
    ensures FirstDecision(w, depth, ds, domain) == FirstDecision(w, depth, [ds[i]], domain)
    decreases i
  {
    hide Holds;
    if i > 0 {
      assert forall j :: 0 <= j < |ds| - 1 ==> ds[1..][j] == ds[j + 1];
      FirstMatchDecides(w, depth, ds[1..], i - 1, domain);
    }
  }

  /** The directive at `i` matches, and none before it does. */
  ghost predicate FirstMatch(w: World, depth: nat, ds: seq<Directive>, i: nat, domain: string) {
    && i < |ds| && Holds(w, depth, ds[i].mechanism, domain) == Match
    && forall j :: 0 <= j < i ==> Holds(w, depth, ds[j].mechanism, domain) == NoMatch
  }

  /** Which answer a directive gives. */
  ghost predicate AnswersTo(r: SpfResult, q: Qualifier) {
    && (r == Pass <==> q == QPass) && (r == Fail <==> q == QFail)
    && (r == SoftFail <==> q == QSoftFail) && (r == Neutral <==> q == QNeutral)
  }

  /** Within the limits the first matching directive's qualifier is the answer. */
  lemma QualifierDecides(dns: Dns, ip: IpAddr, helo: string, mailFrom: string, depth: nat, record: SpfRecord, i: nat)
    requires depth >= 10
    requires var (local, domain) := Identity(helo, mailFrom);
             && domain != [] && PolicyOf(dns, domain) == Published(record)
             && FirstMatch(World(dns, ip, local, domain, helo), depth, record.directives, i, domain)
    ensures var v := Evaluate(dns, LIMITS, ip, helo, mailFrom);
            v.meter.lookups <= 10 && v.meter.voids <= 2 ==> AnswersTo(v.result, record.directives[i].qualifier)
  {
    var (local, domain) := Identity(helo, mailFrom);
    var w := World(dns, ip, local, domain, helo);
    FirstMatchDecides(w, depth, record.directives, i, domain);
    hide Holds, PolicyOf, Identity;
    if Within(LIMITS, CheckHost(w, LIMITS, domain, START).meter) {
      CheckHostMeaning(w, LIMITS, domain, START, depth);
    }
  }

  /** A lone `all` answers by its qualifier, whatever the limits. */
  lemma AllDecides(dns: Dns, lim: Limits, ip: IpAddr, helo: string, mailFrom: string, q: Qualifier)
    requires var domain := Identity(helo, mailFrom).1;
             domain != [] && PolicyOf(dns, domain) == Published(SpfRecord([Directive(q, All)], None))
    ensures AnswersTo(Evaluate(dns, lim, ip, helo, mailFrom).result, q)
  {
    var (local, domain) := Identity(helo, mailFrom);
    var w := World(dns, ip, local, domain, helo);
    hide PolicyOf, Identity;
    var ds := [Directive(q, All)];
    assert Matches(w, lim, ds[0].mechanism, domain, START.Queried()).outcome == Match;
    assert Directives(w, lim, ds, domain, START.Queried()).decided.Some?;
  }

  // --------------------------------------------------- what is published, by whom

  /** The i-th text of an answer begins with the version token. */
  ghost predicate Versioned(dns: Dns, txts: seq<string>, i: nat) {
    i < |txts| && dns.hasVersionToken(txts[i])
  }

  ghost predicate OnlyVersioned(dns: Dns, txts: seq<string>, i: nat) {
    Versioned(dns, txts, i) && forall j :: Versioned(dns, txts, j) ==> j == i
  }

  ghost predicate NoneVersioned(dns: Dns, txts: seq<string>) {
    forall i: nat :: !Versioned(dns, txts, i)
  }

  lemma {:induction false} VersionedTextsAre(dns: Dns, txts: seq<string>)
    ensures var spf := VersionedTexts(dns, txts);
            && (spf == [] <==> NoneVersioned(dns, txts))
            && (|spf| == 1 <==> exists i: nat :: OnlyVersioned(dns, txts, i))
            && forall i: nat :: OnlyVersioned(dns, txts, i) ==> spf == [txts[i]]
  {
    if txts != [] {
      var rest := txts[1..];
      VersionedTextsAre(dns, rest);
      FirstVersioned(dns, txts);
      hide NoneVersioned, OnlyVersioned;
      if i: nat :| OnlyVersioned(dns, rest, i) { assert OnlyVersioned(dns, txts, i + 1) <==> !dns.hasVersionToken(txts[0]); }
      forall i: nat | OnlyVersioned(dns, txts, i)
        ensures i == 0 || (OnlyVersioned(dns, rest, i - 1) && txts[i] == rest[i - 1])
      {
        if i > 0 { assert OnlyVersioned(dns, txts, (i - 1) + 1); }
      }
    }
  }

  lemma FirstVersioned(dns: Dns, txts: seq<string>)
    requires txts != []
    ensures var first, rest := dns.hasVersionToken(txts[0]), txts[1..];
            && (NoneVersioned(dns, txts) <==> !first && NoneVersioned(dns, rest))
            && (OnlyVersioned(dns, txts, 0) <==> first && NoneVersioned(dns, rest))
            && (forall i: nat :: OnlyVersioned(dns, txts, i + 1) <==> !first && OnlyVersioned(dns, rest, i))
            && (forall i: nat :: OnlyVersioned(dns, txts, i) ==> i < |txts|)
  {
    var rest := txts[1..];
    forall i: nat ensures Versioned(dns, txts, i + 1) <==> Versioned(dns, rest, i) {
    }
    assert Versioned(dns, txts, 0) <==> dns.hasVersionToken(txts[0]);
    assert forall i: nat :: OnlyVersioned(dns, txts, i) ==> i < |txts|;
    hide Versioned;
    forall i: nat | i > 0 ensures Versioned(dns, txts, i) == Versioned(dns, rest, i - 1) {
      assert Versioned(dns, txts, (i - 1) + 1) == Versioned(dns, rest, i - 1);
    }
    forall i: nat ensures OnlyVersioned(dns, txts, i + 1) <==> !Versioned(dns, txts, 0) && OnlyVersioned(dns, rest, i) {
      if OnlyVersioned(dns, txts, i + 1) {
        forall j: nat | Versioned(dns, rest, j) ensures j == i { assert Versioned(dns, txts, j + 1); }
      }
    }
    if NoneVersioned(dns, txts) {
      forall j: nat ensures !Versioned(dns, rest, j) { assert !Versioned(dns, txts, j + 1); }
    }
    if OnlyVersioned(dns, txts, 0) {
      forall j: nat ensures !Versioned(dns, rest, j) { assert Versioned(dns, txts, j + 1) ==> j + 1 == 0; }
    }
  }

  /** No policy: no answer, or no text with the version token. A published record:
      exactly one such text, and it parses to that record. */
  lemma PolicyExactly(dns: Dns, domain: string)
    ensures var txts := dns.lookupTxt(domain);
            && (PolicyOf(dns, domain) == NoPolicy <==> txts.None? || NoneVersioned(dns, txts.value))
            && forall record :: PolicyOf(dns, domain) == Published(record)
                 <==> txts.Some? && exists i: nat :: OnlyVersioned(dns, txts.value, i) && dns.parseRecord(txts.value[i]) == Some(record)
  {
    var txts := dns.lookupTxt(domain);
    if txts.Some? {
      VersionedTextsAre(dns, txts.value);
      hide Versioned, VersionedTexts;
      if i: nat :| OnlyVersioned(dns, txts.value, i) {
        assert forall j: nat :: OnlyVersioned(dns, txts.value, j) ==> j == i;
      }
    }
  }

  /** The identity checked: the parts of `local@domain`, cut at the last `@`, if
      neither is empty, and otherwise the postmaster of the HELO name. */
  lemma IdentityExactly(helo: string, mailFrom: string, local: string, domain: string)
    requires mailFrom == local + "@" + domain && '@' !in domain
    ensures Identity(helo, mailFrom) == if local != [] && domain != [] then (local, domain) else ("postmaster", helo)
  {
    RSplitOnceAt(local, '@', domain);
  }

  lemma NoAddress(helo: string, mailFrom: string)
    requires '@' !in mailFrom
    ensures Identity(helo, mailFrom) == ("postmaster", helo)
  {
  }

  // -------------------------------------------------------------------- loops

  /** Every domain of `loop` defers at once, by a leading include or by a bare
      redirect, to a domain of `loop`. */
  ghost predicate DefersForever(w: World, loop: set<string>) {
    forall d :: d in loop ==> DefersInto(w, d, loop)
  }

  ghost predicate DefersInto(w: World, d: string, loop: set<string>) {
    match PolicyOf(w.dns, d)
    case Published(SpfRecord(ds, redirect)) =>
      if ds != [] then
        ds[0].mechanism.Include? && StaysIn(w.Expand(ds[0].mechanism.includeSpec, d), loop)
      else redirect.Some? && StaysIn(w.Expand(redirect.value, d), loop)
    case _ => false
  }

  ghost predicate StaysIn(target: Option<string>, loop: set<string>) {
    target.Some? && target.value in loop
  }

  lemma IncludeErrs(w: World, lim: Limits, spec: string, target: string, current: string, m: Meter)
    requires Within(lim, m) && w.Expand(spec, current) == Some(target)
    requires m.lookups < lim.lookups ==> CheckHost(w, lim, target, m.LookedUp()).result == PermError
    ensures Matches(w, lim, Include(spec), current, m).outcome == Error(PermError)
  {
    hide CheckHost, World.Expand;
  }

  lemma RedirectErrs(w: World, lim: Limits, spec: string, target: string, current: string, m: Meter)
    requires Within(lim, m) && w.Expand(spec, current) == Some(target)
    requires m.lookups < lim.lookups ==> CheckHost(w, lim, target, m.LookedUp()).result == PermError
    ensures Redirect(w, lim, spec, current, m).result == PermError
  {
    hide CheckHost, World.Expand;
  }

  /** However large the limits, a loop of policies ends in PermError. */
  lemma {:induction false} LoopIsPermError(w: World, lim: Limits, loop: set<string>, domain: string, m: Meter)
    requires Within(lim, m) && DefersForever(w, loop) && domain in loop
    ensures CheckHost(w, lim, domain, m).result == PermError
    decreases lim.lookups - m.lookups
  {
    assert DefersInto(w, domain, loop);
    hide DefersForever, Matches, Redirect, World.Expand, PolicyOf;
    var record := PolicyOf(w.dns, domain).record;
    var m1 := m.Queried();
    var spec := if record.directives != [] then record.directives[0].mechanism.includeSpec else record.redirect.value;
    var target := w.Expand(spec, domain).value;
    if m.lookups < lim.lookups {
      LoopIsPermError(w, lim, loop, target, m1.LookedUp());
    }
    if record.directives != [] {
      IncludeErrs(w, lim, spec, target, domain, m1);
      assert Directives(w, lim, record.directives, domain, m1).decided == Some(PermError);
    } else {
      RedirectErrs(w, lim, spec, target, domain, m1);
      assert Directives(w, lim, record.directives, domain, m1).decided == None;
    }
  }
}
