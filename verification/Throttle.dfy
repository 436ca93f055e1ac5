/**
 The authentication throttle: one shared map of per-address records, pruned on
 every failure. Its answers for one address are those of an automaton that sees
 only that address, whatever the other addresses do.
 */
module Throttle {
  import opened Text

  /** A source address; only compared. */
  type Ip = nat

  /** `horizon` is the last representable time: additions beyond it fail. */
  datatype Config = Config(maxFailures: nat, lockout: nat, horizon: nat)

  datatype Attempt = Attempt(failures: nat, lockedUntil: Option<nat>, lastSeen: nat)

  function CheckedAdd(cfg: Config, t: nat, d: nat): Option<nat> {
    if t + d <= cfg.horizon then Some(t + d) else None
  }

  predicate Locked(a: Attempt, now: nat) {
    a.lockedUntil.Some? && a.lockedUntil.value > now
  }

  /** The records `prune` retains. */
  predicate Kept(cfg: Config, a: Attempt, now: nat) {
    Locked(a, now) || (CheckedAdd(cfg, a.lastSeen, cfg.lockout).Some? && a.lastSeen + cfg.lockout > now)
  }

  function Prune(cfg: Config, records: map<Ip, Attempt>, now: nat): map<Ip, Attempt> {
    map ip | ip in records && Kept(cfg, records[ip], now) :: records[ip]
  }

  /** A record after one more failure. */
  function Failed(cfg: Config, prior: Option<Attempt>, now: nat): Attempt {
    var a := if prior.Some? then prior.value.(lastSeen := now) else Attempt(0, None, now);
    if Locked(a, now) then a
    else
      var failures := 1 + if a.lockedUntil.Some? then 0 else a.failures;
      Attempt(failures, if failures >= cfg.maxFailures then CheckedAdd(cfg, now, cfg.lockout) else None, now)
  }

  function Lookup(records: map<Ip, Attempt>, ip: Ip): Option<Attempt> {
    if ip in records then Some(records[ip]) else None
  }

  predicate Allows(a: Option<Attempt>, now: nat) {
    a.Some? ==> !Locked(a.value, now)
  }

  class AuthThrottle {
    const cfg: Config
    var records: map<Ip, Attempt>

    constructor (cfg: Config)
      ensures this.cfg == cfg && records == map[]
    {
      this.cfg := cfg;
      records := map[];
    }

    method CheckAt(ip: Ip, now: nat) returns (allowed: bool)
      ensures allowed == Allows(Lookup(records, ip), now)
    {
      if ip in records {
        var until := records[ip].lockedUntil;
        allowed := until.None? || until.value <= now;
      } else {
        allowed := true;
      }
    }

    method RecordFailureAt(ip: Ip, now: nat)
      modifies this
      ensures records == Apply(cfg, old(records), Failure(ip, now))
    {
      records := Prune(cfg, records, now);
      var a := if ip in records then records[ip] else Attempt(0, None, now);
      a := a.(lastSeen := now);
      if !(a.lockedUntil.Some? && a.lockedUntil.value > now) {
        if a.lockedUntil.Some? {
          a := a.(failures := 0, lockedUntil := None);
        }
        a := a.(failures := a.failures + 1);
        if a.failures >= cfg.maxFailures {
          a := a.(lockedUntil := CheckedAdd(cfg, now, cfg.lockout));
        }
      }
      records := records[ip := a];
    }

    method RecordSuccess(ip: Ip)
      modifies this
      ensures forall now: nat :: records == Apply(cfg, old(records), Success(ip, now))
    {
      records := records - {ip};
    }
  }

  // --------------------------------------------------------------------- runs

  datatype Event = Check(ip: Ip, at: nat) | Failure(ip: Ip, at: nat) | Success(ip: Ip, at: nat)

  function Apply(cfg: Config, records: map<Ip, Attempt>, e: Event): map<Ip, Attempt> {
    match e
    case Check(_, _) => records
    case Failure(ip, now) =>
      var pruned := Prune(cfg, records, now);
      pruned[ip := Failed(cfg, Lookup(pruned, ip), now)]
    case Success(ip, _) => records - {ip}
  }

  /** The clock never goes back, starting from `now`. */
  predicate Ordered(events: seq<Event>, now: nat) {
    events == [] || (events[0].at >= now && Ordered(events[1..], events[0].at))
  }

  /** The answers `check` gives about `ip` along a run of the shared map. */
  function Answers(cfg: Config, records: map<Ip, Attempt>, ip: Ip, events: seq<Event>): seq<bool>
    decreases |events|
  {
    if events == [] then []
    else
      var e := events[0];
      (if e.Check? && e.ip == ip then [Allows(Lookup(records, ip), e.at)] else [])
      + Answers(cfg, Apply(cfg, records, e), ip, events[1..])
  }

  function Project(ip: Ip, events: seq<Event>): seq<Event> {
    if events == [] then []
    else (if events[0].ip == ip then [events[0]] else []) + Project(ip, events[1..])
  }

  // -------------------------------------------------- the one-address automaton

  /** What an idle record amounts to: nothing, once its window has passed. */
  function Live(cfg: Config, s: Option<Attempt>, now: nat): Option<Attempt> {
    if s.Some? && Kept(cfg, s.value, now) then s else None
  }

  function Step(cfg: Config, s: Option<Attempt>, e: Event): Option<Attempt> {
    match e
    case Check(_, _) => s
    case Failure(_, now) => Some(Failed(cfg, Live(cfg, s, now), now))
    case Success(_, _) => None
  }

  function Replay(cfg: Config, s: Option<Attempt>, events: seq<Event>): Option<Attempt>
    decreases |events|
  {
    if events == [] then s else Replay(cfg, Step(cfg, s, events[0]), events[1..])
  }

  function OwnAnswers(cfg: Config, s: Option<Attempt>, events: seq<Event>): seq<bool>
    decreases |events|
  {
    if events == [] then []
    else (if events[0].Check? then [Allows(s, events[0].at)] else [])
         + OwnAnswers(cfg, Step(cfg, s, events[0]), events[1..])
  }

  // ---------------------------------------------------------- non-interference

  /** The map's record is the automaton's, or was pruned when already dead. */
  ghost predicate Agree(cfg: Config, records: map<Ip, Attempt>, ip: Ip, s: Option<Attempt>, now: nat) {
    if ip in records then s == Some(records[ip]) else Live(cfg, s, now) == None
  }

  lemma DeadStaysDead(cfg: Config, s: Option<Attempt>, now: nat, later: nat)
    requires now <= later && Live(cfg, s, now) == None
    ensures Live(cfg, s, later) == None && Allows(s, later)
  {
  }

  lemma AgreeStep(cfg: Config, records: map<Ip, Attempt>, ip: Ip, s: Option<Attempt>, now: nat, e: Event)
    requires Agree(cfg, records, ip, s, now) && now <= e.at
    ensures Agree(cfg, Apply(cfg, records, e), ip, if e.ip == ip then Step(cfg, s, e) else s, e.at)
    ensures Allows(Lookup(records, ip), e.at) == Allows(s, e.at)
  {
    if ip !in records { DeadStaysDead(cfg, s, now, e.at); }
    if e.Failure? {
      assert Lookup(Prune(cfg, records, e.at), ip) == Live(cfg, s, e.at);
    }
  }

  /** Every answer about `ip` is the automaton's, for every interleaving. */
  lemma {:induction false} NonInterference(cfg: Config, records: map<Ip, Attempt>, ip: Ip, s: Option<Attempt>, now: nat, events: seq<Event>)
    requires Ordered(events, now) && Agree(cfg, records, ip, s, now)
    ensures Answers(cfg, records, ip, events) == OwnAnswers(cfg, s, Project(ip, events))
    decreases |events|
  {
    if events != [] {
      var e := events[0];
      AgreeStep(cfg, records, ip, s, now, e);
      NonInterference(cfg, Apply(cfg, records, e), ip, if e.ip == ip then Step(cfg, s, e) else s, e.at, events[1..]);
      if e.ip == ip {
        var own := Project(ip, events);
        assert own[0] == e && own[1..] == Project(ip, events[1..]);
      } else {
        assert Project(ip, events) == Project(ip, events[1..]);
      }
    }
  }

  /** From an empty throttle: others' traffic is invisible. */
  lemma ThrottleIsPerAddress(cfg: Config, ip: Ip, events: seq<Event>)
    requires Ordered(events, 0)
    ensures Answers(cfg, map[], ip, events) == OwnAnswers(cfg, None, Project(ip, events))
  {
    NonInterference(cfg, map[], ip, None, 0, events);
  }

  // ------------------------------------------------------------------ lockouts

  ghost predicate During(events: seq<Event>, until: nat) {
    forall i :: 0 <= i < |events| ==> events[i].at < until && !events[i].Success?
  }

  /** A lock refuses every check and ignores every failure until it lifts. */
  lemma {:induction false} LockHolds(cfg: Config, a: Attempt, until: nat, events: seq<Event>)
    requires a.lockedUntil == Some(until) && During(events, until)
    ensures forall i :: 0 <= i < |OwnAnswers(cfg, Some(a), events)| ==> !OwnAnswers(cfg, Some(a), events)[i]
    ensures var s := Replay(cfg, Some(a), events);
            s.Some? && s.value.lockedUntil == Some(until) && forall now: nat :: Allows(s, now) <==> now >= until
    decreases |events|
  {
    if events != [] {
      var s := Step(cfg, Some(a), events[0]);
      LockHolds(cfg, s.value, until, events[1..]);
    }
  }

  /** The failures at `times`, in order. */
  function Failures(ip: Ip, times: seq<nat>): (r: seq<Event>)
    ensures |r| == |times|
  {
    seq(|times|, i requires 0 <= i < |times| => Failure(ip, times[i]))
  }

  /** Every gap is shorter than the lockout window, and the clock has room. */
  ghost predicate Burst(cfg: Config, times: seq<nat>) {
    && (forall i :: 0 <= i < |times| ==> times[i] + cfg.lockout <= cfg.horizon)
    && (forall i :: 0 <= i < |times| - 1 ==> times[i] <= times[i + 1] < times[i] + cfg.lockout)
  }

  function Threshold(cfg: Config): nat {
    if cfg.maxFailures == 0 then 1 else cfg.maxFailures
  }

  lemma {:induction false} ReplayAppend(cfg: Config, s: Option<Attempt>, events: seq<Event>, e: Event)
    ensures Replay(cfg, s, events + [e]) == Step(cfg, Replay(cfg, s, events), e)
    decreases |events|
  {
    if events == [] {
      assert events + [e] == [e];
    } else {
      ReplayAppend(cfg, Step(cfg, s, events[0]), events[1..], e);
      assert (events + [e])[1..] == events[1..] + [e];
    }
  }

  /** A burst of failures locks exactly at the threshold, for one lockout from
      that failure; below it nothing is locked. */
  lemma {:induction false} BurstLocksAtThreshold(cfg: Config, ip: Ip, times: seq<nat>)
    requires times != [] && Burst(cfg, times) && |times| <= Threshold(cfg)
    ensures var last := times[|times| - 1];
            Replay(cfg, None, Failures(ip, times))
            == Some(Attempt(|times|, if |times| == Threshold(cfg) then Some(last + cfg.lockout) else None, last))
  {
    var n := |times| - 1;
    var before := Failures(ip, times[..n]);
    assert Failures(ip, times) == before + [Failure(ip, times[n])];
    ReplayAppend(cfg, None, before, Failure(ip, times[n]));
    if n > 0 {
      BurstLocksAtThreshold(cfg, ip, times[..n]);
      assert times[n - 1] <= times[n] < times[n - 1] + cfg.lockout;
    } else {
      assert Replay(cfg, None, before) == None;
    }
  }

  /** An idle lockout window, or a lapsed lock, restarts the count. */
  lemma IdleRestartsCount(cfg: Config, a: Attempt, now: nat)
    requires !Locked(a, now)
    requires a.lockedUntil.Some? || a.lastSeen + cfg.lockout <= now
    ensures Step(cfg, Some(a), Failure(0, now)).value.failures == 1
  {
  }

  // --------------------------------------------------------- on the shared map

  function MapAfter(cfg: Config, records: map<Ip, Attempt>, events: seq<Event>): map<Ip, Attempt>
    decreases |events|
  {
    if events == [] then records else MapAfter(cfg, Apply(cfg, records, events[0]), events[1..])
  }

  function LastTime(events: seq<Event>, now: nat): nat {
    if events == [] then now else events[|events| - 1].at
  }

  lemma {:induction false} OrderedSplit(a: seq<Event>, b: seq<Event>, now: nat)
    requires Ordered(a + b, now)
    ensures Ordered(a, now) && Ordered(b, LastTime(a, now))
    decreases |a|
  {
    if a == [] {
      assert a + b == b;
    } else {
      assert (a + b)[0] == a[0] && (a + b)[1..] == a[1..] + b;
      OrderedSplit(a[1..], b, a[0].at);
    }
  }

  lemma {:induction false} MapConcat(cfg: Config, records: map<Ip, Attempt>, a: seq<Event>, b: seq<Event>)
    ensures MapAfter(cfg, records, a + b) == MapAfter(cfg, MapAfter(cfg, records, a), b)
    decreases |a|
  {
    hide Apply;
    if a == [] {
      assert a + b == b;
    } else {
      assert (a + b)[0] == a[0] && (a + b)[1..] == a[1..] + b;
      MapConcat(cfg, Apply(cfg, records, a[0]), a[1..], b);
    }
  }

  /** Along every run the map agrees with the address's own automaton. */
  lemma {:induction false} AgreeRun(cfg: Config, records: map<Ip, Attempt>, ip: Ip, s: Option<Attempt>, now: nat, events: seq<Event>)
    requires Ordered(events, now) && Agree(cfg, records, ip, s, now)
    ensures Agree(cfg, MapAfter(cfg, records, events), ip, Replay(cfg, s, Project(ip, events)), LastTime(events, now))
    decreases |events|
  {
    hide Agree, Apply, Step;
    if events != [] {
      var e := events[0];
      AgreeStep(cfg, records, ip, s, now, e);
      AgreeRun(cfg, Apply(cfg, records, e), ip, if e.ip == ip then Step(cfg, s, e) else s, e.at, events[1..]);
      if e.ip == ip {
        var own := Project(ip, events);
        assert own[0] == e && own[1..] == Project(ip, events[1..]);
      } else {
        assert Project(ip, events) == Project(ip, events[1..]);
      }
    }
  }

  lemma AgreeAnswers(cfg: Config, records: map<Ip, Attempt>, ip: Ip, s: Option<Attempt>, now: nat, later: nat)
    requires Agree(cfg, records, ip, s, now) && now <= later
    ensures Allows(Lookup(records, ip), later) == Allows(s, later)
  {
    AgreeStep(cfg, records, ip, s, now, Check(ip, later));
  }

  /** The failures and successes of an address, without the checks. */
  function Deeds(ip: Ip, events: seq<Event>): seq<Event> {
    if events == [] then []
    else (if events[0].ip == ip && !events[0].Check? then [events[0]] else []) + Deeds(ip, events[1..])
  }

  lemma ReplayFirst(cfg: Config, s: Option<Attempt>, e: Event, rest: seq<Event>)
    ensures Replay(cfg, s, [e] + rest) == Replay(cfg, Step(cfg, s, e), rest)
  {
    hide Step;
    assert ([e] + rest)[1..] == rest;
  }

  lemma {:induction false} ChecksChangeNothing(cfg: Config, s: Option<Attempt>, ip: Ip, events: seq<Event>)
    ensures Replay(cfg, s, Project(ip, events)) == Replay(cfg, s, Deeds(ip, events))
    decreases |events|
  {
    hide Replay;
    if events == [] {
      assert Project(ip, events) == Deeds(ip, events);
    } else {
      var e, rest := events[0], events[1..];
      ChecksChangeNothing(cfg, s, ip, rest);
      ChecksChangeNothing(cfg, Step(cfg, s, e), ip, rest);
      if e.ip == ip {
        ReplayFirst(cfg, s, e, Project(ip, rest));
        ReplayFirst(cfg, s, e, Deeds(ip, rest));
      }
      assert [] + Project(ip, rest) == Project(ip, rest) && [] + Deeds(ip, rest) == Deeds(ip, rest);
    }
  }

  lemma {:induction false} ReplayConcat(cfg: Config, s: Option<Attempt>, a: seq<Event>, b: seq<Event>)
    ensures Replay(cfg, s, a + b) == Replay(cfg, Replay(cfg, s, a), b)
    decreases |a|
  {
    hide Step;
    if a == [] {
      assert a + b == b;
    } else {
      assert (a + b)[0] == a[0] && (a + b)[1..] == a[1..] + b;
      ReplayConcat(cfg, Step(cfg, s, a[0]), a[1..], b);
    }
  }

  /** Failures and successes in the order of time. */
  ghost predicate Chronicle(deeds: seq<Event>) {
    && (forall i :: 0 <= i < |deeds| ==> !deeds[i].Check?)
    && (forall i, j :: 0 <= i < j < |deeds| ==> deeds[i].at <= deeds[j].at)
  }

  lemma {:induction false} DeedsAreChronicle(ip: Ip, events: seq<Event>, now: nat)
    requires Ordered(events, now)
    ensures Chronicle(Deeds(ip, events)) && forall i :: 0 <= i < |Deeds(ip, events)| ==> Deeds(ip, events)[i].at >= now
    decreases |events|
  {
    if events != [] { DeedsAreChronicle(ip, events[1..], events[0].at); }
  }

  /** A record shows the last deed, and its lock ends within one lockout of it. */
  lemma {:induction false} LockIsNear(cfg: Config, deeds: seq<Event>)
    requires Chronicle(deeds)
    ensures var s := Replay(cfg, None, deeds);
            s.Some? ==>
              && deeds != [] && s.value.lastSeen == deeds[|deeds| - 1].at
              && (s.value.lockedUntil.Some? ==> s.value.lockedUntil.value <= s.value.lastSeen + cfg.lockout)
    decreases |deeds|
  {
    if deeds != [] {
      var n := |deeds| - 1;
      LockIsNear(cfg, deeds[..n]);
      assert deeds == deeds[..n] + [deeds[n]];
      ReplayAppend(cfg, None, deeds[..n], deeds[n]);
      hide Replay;
      assert n > 0 ==> deeds[..n][n - 1].at <= deeds[n].at;
    }
  }

  /** `deeds` ends in a threshold streak `times` after `pre`, and failures `more`
      during its lock, which has lapsed by `at`. */
  ghost predicate LockLapsed(cfg: Config, ip: Ip, deeds: seq<Event>, pre: seq<Event>, times: seq<nat>, more: seq<Event>, at: nat) {
    && deeds == pre + Failures(ip, times) + more && |times| == Threshold(cfg) && Burst(cfg, times)
    && During(more, times[|times| - 1] + cfg.lockout) && times[|times| - 1] + cfg.lockout <= at
  }

  /** A past that no longer counts at `at`: none, a success last, an idle lockout
      window, or a lock that has lapsed. */
  ghost predicate CleanSlate(cfg: Config, ip: Ip, deeds: seq<Event>, at: nat)
    decreases |deeds|
  {
    || deeds == [] || deeds[|deeds| - 1].Success? || deeds[|deeds| - 1].at + cfg.lockout <= at
    || exists pre, times, more ::
         |pre| < |deeds| && LockLapsed(cfg, ip, deeds, pre, times, more, at) && CleanSlate(cfg, ip, pre, times[0])
  }

  /** The next failure counts as the first. */
  ghost predicate StartsOver(cfg: Config, s: Option<Attempt>, ip: Ip, at: nat) {
    Step(cfg, s, Failure(ip, at)) == Step(cfg, None, Failure(ip, at))
  }

  lemma QuietStartsOver(cfg: Config, ip: Ip, deeds: seq<Event>, at: nat)
    requires Chronicle(deeds) && deeds != []
    requires deeds[|deeds| - 1].Success? || deeds[|deeds| - 1].at + cfg.lockout <= at
    ensures StartsOver(cfg, Replay(cfg, None, deeds), ip, at)
  {
    var n := |deeds| - 1;
    LockIsNear(cfg, deeds);
    assert deeds == deeds[..n] + [deeds[n]];
    ReplayAppend(cfg, None, deeds[..n], deeds[n]);
    hide Replay;
  }

  lemma LapsedStartsOver(cfg: Config, s: Option<Attempt>, ip: Ip, at: nat)
    requires s.Some? && s.value.lockedUntil.Some? && s.value.lockedUntil.value <= at
    ensures StartsOver(cfg, s, ip, at)
  {
  }

  lemma StreakFrom(cfg: Config, s: Option<Attempt>, ip: Ip, times: seq<nat>)
    requires times != [] && StartsOver(cfg, s, ip, times[0])
    ensures Replay(cfg, s, Failures(ip, times)) == Replay(cfg, None, Failures(ip, times))
  {
    var first, rest := Failure(ip, times[0]), Failures(ip, times)[1..];
    assert Failures(ip, times) == [first] + rest;
    hide Replay;
    ReplayFirst(cfg, s, first, rest);
    ReplayFirst(cfg, None, first, rest);
  }

  lemma {:induction false} CleanStart(cfg: Config, ip: Ip, deeds: seq<Event>, at: nat)
    requires Chronicle(deeds) && CleanSlate(cfg, ip, deeds, at)
    ensures StartsOver(cfg, Replay(cfg, None, deeds), ip, at)
    decreases |deeds|
  {
    hide StartsOver, Replay, Chronicle;
    if deeds == [] {
      EmptyStartsOver(cfg, ip, at);
    } else if deeds[|deeds| - 1].Success? || deeds[|deeds| - 1].at + cfg.lockout <= at {
      QuietStartsOver(cfg, ip, deeds, at);
    } else {
      var pre, times, more :|
        |pre| < |deeds| && LockLapsed(cfg, ip, deeds, pre, times, more, at) && CleanSlate(cfg, ip, pre, times[0]);
      var streak, until := Failures(ip, times), times[|times| - 1] + cfg.lockout;
      PrefixOf(pre, streak, more);
      ChroniclePrefix(deeds, |pre|);
      CleanStart(cfg, ip, pre, times[0]);
      ReplayConcat(cfg, None, pre + streak, more);
      ReplayConcat(cfg, None, pre, streak);
      StreakFrom(cfg, Replay(cfg, None, pre), ip, times);
      BurstLocksAtThreshold(cfg, ip, times);
      LockHolds(cfg, Attempt(|times|, Some(until), times[|times| - 1]), until, more);
      LapsedStartsOver(cfg, Replay(cfg, None, deeds), ip, at);
    }
  }

  lemma EmptyStartsOver(cfg: Config, ip: Ip, at: nat)
    ensures StartsOver(cfg, Replay(cfg, None, []), ip, at)
  {
  }

  lemma PrefixOf(a: seq<Event>, b: seq<Event>, c: seq<Event>)
    ensures (a + b + c)[..|a|] == a
  {
  }

  lemma ChroniclePrefix(deeds: seq<Event>, n: nat)
    requires Chronicle(deeds) && n <= |deeds|
    ensures Chronicle(deeds[..n])
  {
  }

  lemma {:induction false} ProjectStays(ip: Ip, events: seq<Event>, until: nat)
    requires forall i :: 0 <= i < |events| && events[i].ip == ip ==> events[i].at < until && !events[i].Success?
    ensures During(Project(ip, events), until)
    decreases |events|
  {
    if events != [] {
      assert forall i :: 0 <= i < |events[1..]| ==> events[1..][i] == events[i + 1];
      ProjectStays(ip, events[1..], until);
    }
  }

  /** An address's recent past: `times` are its failures since a clean slate. */
  ghost predicate Streak(cfg: Config, ip: Ip, events: seq<Event>, earlier: seq<Event>, times: seq<nat>) {
    && times != [] && Burst(cfg, times) && |times| <= Threshold(cfg)
    && Deeds(ip, events) == earlier + Failures(ip, times) && CleanSlate(cfg, ip, earlier, times[0])
  }

  lemma StreakState(cfg: Config, ip: Ip, events: seq<Event>, earlier: seq<Event>, times: seq<nat>)
    requires Ordered(events, 0) && Streak(cfg, ip, events, earlier, times)
    ensures var last := times[|times| - 1];
            Replay(cfg, None, Project(ip, events))
            == Some(Attempt(|times|, if |times| == Threshold(cfg) then Some(last + cfg.lockout) else None, last))
  {
    hide Replay, CleanSlate, StartsOver, Burst, Ordered;
    ChecksChangeNothing(cfg, None, ip, events);
    DeedsAreChronicle(ip, events, 0);
    ChroniclePrefix(Deeds(ip, events), |earlier|);
    assert Deeds(ip, events)[..|earlier|] == earlier;
    CleanStart(cfg, ip, earlier, times[0]);
    ReplayConcat(cfg, None, earlier, Failures(ip, times));
    StreakFrom(cfg, Replay(cfg, None, earlier), ip, times);
    BurstLocksAtThreshold(cfg, ip, times);
  }

  /** On the shared map, among any traffic of other addresses and any checks: below
      the threshold an address is allowed; with the threshold failure it is refused
      at every check until one lockout later, more failures or not, unless a success
      clears it, and allowed from then on. */
  lemma LockoutOnTheMap(cfg: Config, ip: Ip, before: seq<Event>, during: seq<Event>, earlier: seq<Event>, times: seq<nat>, now: nat)
    requires Ordered(before + during, 0) && Streak(cfg, ip, before, earlier, times)
    requires forall i :: 0 <= i < |during| && during[i].ip == ip ==>
               during[i].at < times[|times| - 1] + cfg.lockout && !during[i].Success?
    requires now >= LastTime(before + during, 0)
    ensures var until := times[|times| - 1] + cfg.lockout;
            var answers := Answers(cfg, MapAfter(cfg, map[], before), ip, during);
            && (|times| < Threshold(cfg) ==> forall later: nat :: later >= LastTime(before, 0) ==>
                  Allows(Lookup(MapAfter(cfg, map[], before), ip), later))
            && (|times| == Threshold(cfg) ==> forall i :: 0 <= i < |answers| ==> !answers[i])
            && (|times| == Threshold(cfg) ==>
                  (Allows(Lookup(MapAfter(cfg, map[], before + during), ip), now) <==> now >= until))
  {
    assert times != [] && |times| <= Threshold(cfg);
    assert Agree(cfg, map[], ip, None, 0);
    assert during == [] ==> before + during == before;
    hide Answers, MapAfter, Replay, Project, OwnAnswers, Ordered, Streak, Agree, Lookup, Deeds;
    var last := times[|times| - 1];
    var records, own := MapAfter(cfg, map[], before), Project(ip, during);
    var a := Attempt(|times|, if |times| == Threshold(cfg) then Some(last + cfg.lockout) else None, last);
    OrderedSplit(before, during, 0);
    StreakState(cfg, ip, before, earlier, times);
    AgreeRun(cfg, map[], ip, None, 0, before);
    if |times| < Threshold(cfg) {
      forall later: nat | later >= LastTime(before, 0) ensures Allows(Lookup(records, ip), later) {
        AgreeAnswers(cfg, records, ip, Some(a), LastTime(before, 0), later);
      }
    } else {
      NonInterference(cfg, records, ip, Some(a), LastTime(before, 0), during);
      AgreeRun(cfg, records, ip, Some(a), LastTime(before, 0), during);
      MapConcat(cfg, map[], before, during);
      ProjectStays(ip, during, last + cfg.lockout);
      LockHolds(cfg, a, last + cfg.lockout, own);
      AgreeAnswers(cfg, MapAfter(cfg, records, during), ip, Replay(cfg, Some(a), own), LastTime(during, LastTime(before, 0)), now);
    }
  }
}
