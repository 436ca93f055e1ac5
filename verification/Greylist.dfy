/**
 Greylisting over a shared, pruned and bounded table of triplets.
 */
module Greylist {
  import opened Networks
  import opened Text

  datatype Config = Config(delay: nat, pendingTtl: nat, passTtl: nat, maxEntries: nat, horizon: nat)

  datatype Decision = Allow | Defer

  datatype Entry = Entry(firstSeen: nat, lastSeen: nat, passed: bool)

  datatype Triplet = Triplet(network: IpAddr, sender: string, recipient: string)

  type Table = map<Triplet, Entry>

  const BLOCK4: nat := 0x100
  const BLOCK6: nat := 0x1_0000_0000_0000_0000

  /** `mask_ip`: IPv4 to its /24, IPv6 to its /64. */
  function MaskIp(ip: IpAddr): IpAddr {
    match ip
    case V4(a) => V4(a / BLOCK4 * BLOCK4)
    case V6(a) => V6(a / BLOCK6 * BLOCK6)
  }

  lemma Blocks()
    ensures Pow2(8) == BLOCK4 && Pow2(64) == BLOCK6
  {
    assert Pow2(4) == 16;
    hide Pow2;
    Pow2Adds(4, 4);
    Pow2Adds(8, 8);
    Pow2Adds(16, 16);
    Pow2Adds(32, 32);
  }

  lemma {:induction false} Pow2Adds(j: nat, k: nat)
    ensures Pow2(j + k) == Pow2(j) * Pow2(k)
  {
    if k > 0 {
      Pow2Adds(j, k - 1);
      assert Pow2(j + k) == 2 * Pow2(j + k - 1);
    }
  }

  /** Masked addresses are equal exactly for hosts of one network. */
  lemma MaskIpIsNetwork(a: IpAddr, b: IpAddr)
    ensures MaskIp(a) == MaskIp(b) <==> IpInNet(a, b, 24, 64)
    ensures MaskIp(MaskIp(a)) == MaskIp(a)
  {
    hide Pow2;
    Blocks();
  }

  datatype Delivery = Delivery(ip: IpAddr, sender: string, recipient: string, at: nat) {
    function Key(): Triplet {
      Triplet(MaskIp(ip), Lower(sender), Lower(recipient))
    }
  }

  /** Deliveries share a triplet exactly if they come from one network and agree in
      sender and recipient up to the case of letters. */
  lemma KeyIsTriplet(a: Delivery, b: Delivery)
    ensures a.Key() == b.Key() <==>
      IpInNet(a.ip, b.ip, 24, 64) && SameLetters(a.sender, b.sender) && SameLetters(a.recipient, b.recipient)
  {
    MaskIpIsNetwork(a.ip, b.ip);
    LowerIsCaseless(a.sender, b.sender);
    LowerIsCaseless(a.recipient, b.recipient);
    hide MaskIp, Lower, IpInNet, SameLetters;
  }

  // ---------------------------------------------------------------- the source

  predicate Kept(cfg: Config, e: Entry, now: nat) {
    var ttl := if e.passed then cfg.passTtl else cfg.pendingTtl;
    e.lastSeen + ttl <= cfg.horizon && e.lastSeen + ttl > now
  }

  function Prune(cfg: Config, table: Table, now: nat): Table {
    map k | k in table && Kept(cfg, table[k], now) :: table[k]
  }

  /** A known triplet's entry and answer at its next attempt. */
  function Revisit(cfg: Config, e: Entry, now: nat): (Entry, Decision) {
    var seen := e.(lastSeen := now);
    if e.passed then (seen, Allow)
    else if now >= e.firstSeen && now - e.firstSeen >= cfg.delay then (seen.(passed := true), Allow)
    else (seen, Defer)
  }

  predicate Full(cfg: Config, table: Table, key: Triplet, now: nat) {
    var pruned := Prune(cfg, table, now);
    key !in pruned && |pruned| >= cfg.maxEntries
  }

  /** One `check_at` on table values. */
  function Checked(cfg: Config, table: Table, key: Triplet, now: nat): (Table, Decision) {
    var pruned := Prune(cfg, table, now);
    if key in pruned then
      var (e, d) := Revisit(cfg, pruned[key], now);
      (pruned[key := e], d)
    else if |pruned| >= cfg.maxEntries then (pruned, Allow)
    else (pruned[key := Entry(now, now, false)], Defer)
  }

  class Greylist {
    const cfg: Config
    var entries: Table

    constructor (cfg: Config)
      ensures this.cfg == cfg && entries == map[]
    {
      this.cfg := cfg;
      entries := map[];
    }

    method CheckAt(d: Delivery) returns (decision: Decision)
      modifies this
      ensures (entries, decision) == Checked(cfg, old(entries), d.Key(), d.at)
    {
      var key := Triplet(MaskIp(d.ip), Lower(d.sender), Lower(d.recipient));
      var now := d.at;
      entries := Prune(cfg, entries, now);
      if key in entries {
        var e := entries[key].(lastSeen := now);
        ghost var pruned := entries;
        entries := entries[key := e];
        if e.passed { return Allow; }
        if now >= e.firstSeen && now - e.firstSeen >= cfg.delay {
          entries := entries[key := e.(passed := true)];
          assert entries == pruned[key := e.(passed := true)];
          return Allow;
        }
        return Defer;
      }
      if |entries| >= cfg.maxEntries { return Allow; }
      entries := entries[key := Entry(now, now, false)];
      decision := Defer;
    }
  }

  // --------------------------------------------------------------------- runs

  datatype Attempt = Attempt(key: Triplet, at: nat)

  /** The table before attempt `n` of a run from an empty table. */
  function TableAt(cfg: Config, run: seq<Attempt>, n: nat): Table
    requires n <= |run|
  {
    if n == 0 then map[] else Checked(cfg, TableAt(cfg, run, n - 1), run[n - 1].key, run[n - 1].at).0
  }

  function DecisionAt(cfg: Config, run: seq<Attempt>, n: nat): Decision
    requires n < |run|
  {
    Checked(cfg, TableAt(cfg, run, n), run[n].key, run[n].at).1
  }

  predicate FullAt(cfg: Config, run: seq<Attempt>, n: nat)
    requires n < |run|
  {
    Full(cfg, TableAt(cfg, run, n), run[n].key, run[n].at)
  }

  predicate Ordered(run: seq<Attempt>) {
    forall i, j :: 0 <= i <= j < |run| ==> run[i].at <= run[j].at
  }

  // -------------------------------------------------------------------- bound

  lemma {:induction false} SubsetSize<T>(a: set<T>, b: set<T>)
    requires a <= b
    ensures |a| <= |b|
  {
    if a != {} {
      var x :| x in a;
      SubsetSize(a - {x}, b - {x});
    }
  }

  lemma CheckedBound(cfg: Config, table: Table, key: Triplet, now: nat)
    requires |table| <= cfg.maxEntries
    ensures |Checked(cfg, table, key, now).0| <= cfg.maxEntries
  {
    var pruned := Prune(cfg, table, now);
    assert |pruned| <= |table| by {
      SubsetSize(pruned.Keys, table.Keys);
      assert |pruned.Keys| == |pruned| && |table.Keys| == |table|;
    }
    var after := Checked(cfg, table, key, now).0;
    if key in pruned {
      assert after.Keys == pruned.Keys;
      assert |after.Keys| == |after| && |pruned.Keys| == |pruned|;
    } else if after != pruned {
      assert after.Keys == pruned.Keys + {key};
      assert |after.Keys| == |after| && |pruned.Keys| == |pruned|;
    }
  }

  /** The table never holds more than `maxEntries` triplets. */
  lemma {:induction false} TableIsBounded(cfg: Config, run: seq<Attempt>, n: nat)
    requires n <= |run|
    ensures |TableAt(cfg, run, n)| <= cfg.maxEntries
  {
    if n > 0 {
      TableIsBounded(cfg, run, n - 1);
      CheckedBound(cfg, TableAt(cfg, run, n - 1), run[n - 1].key, run[n - 1].at);
    }
  }

  // ---------------------------------------------------------------- soundness

  /** Attempt `i` deferred `key` at time `at`. */
  ghost predicate DeferredAt(cfg: Config, run: seq<Attempt>, i: nat, key: Triplet, at: nat)
    requires i < |run|
  {
    run[i].key == key && run[i].at == at && DecisionAt(cfg, run, i) == Defer
  }

  /** Every entry goes back to a deferred attempt; a passed one waited `delay`. */
  ghost predicate Grounded(cfg: Config, run: seq<Attempt>, n: nat, key: Triplet, e: Entry)
    requires n <= |run|
  {
    && (exists i :: 0 <= i < n && DeferredAt(cfg, run, i, key, e.firstSeen))
    && e.firstSeen <= e.lastSeen
    && (e.passed ==> e.lastSeen - e.firstSeen >= cfg.delay)
  }

  ghost predicate AllGrounded(cfg: Config, run: seq<Attempt>, n: nat)
    requires n <= |run|
  {
    forall k :: k in TableAt(cfg, run, n) ==> GroundedNow(cfg, run, n, k, TableAt(cfg, run, n)[k])
  }

  ghost predicate GroundedNow(cfg: Config, run: seq<Attempt>, n: nat, key: Triplet, e: Entry)
    requires n <= |run|
  {
    Grounded(cfg, run, n, key, e) && (n > 0 ==> e.lastSeen <= run[n - 1].at)
  }

  lemma StaysGrounded(cfg: Config, run: seq<Attempt>, n: nat, key: Triplet, e: Entry)
    requires n < |run| && Ordered(run) && GroundedNow(cfg, run, n, key, e)
    ensures GroundedNow(cfg, run, n + 1, key, e)
    ensures GroundedNow(cfg, run, n + 1, key, Revisit(cfg, e, run[n].at).0)
  {
    var i :| 0 <= i < n && DeferredAt(cfg, run, i, key, e.firstSeen);
    assert DeferredAt(cfg, run, i, key, Revisit(cfg, e, run[n].at).0.firstSeen);
  }

  /** Where an entry of the table after one check comes from. */
  lemma EntryOrigin(cfg: Config, table: Table, key: Triplet, now: nat, k: Triplet)
    requires k in Checked(cfg, table, key, now).0
    ensures var (after, d) := Checked(cfg, table, key, now);
            || (k in table && (after[k] == table[k] || after[k] == Revisit(cfg, table[k], now).0))
            || (k == key && after[k] == Entry(now, now, false) && d == Defer)
  {
  }

  lemma EntryIsGrounded(cfg: Config, run: seq<Attempt>, n: nat, k: Triplet)
    requires n < |run| && Ordered(run) && AllGrounded(cfg, run, n)
    requires k in TableAt(cfg, run, n + 1)
    ensures GroundedNow(cfg, run, n + 1, k, TableAt(cfg, run, n + 1)[k])
  {
    hide Checked, Revisit;
    var before, after := TableAt(cfg, run, n), TableAt(cfg, run, n + 1);
    EntryOrigin(cfg, before, run[n].key, run[n].at, k);
    if k in before && (after[k] == before[k] || after[k] == Revisit(cfg, before[k], run[n].at).0) {
      StaysGrounded(cfg, run, n, k, before[k]);
    } else {
      assert DeferredAt(cfg, run, n, k, after[k].firstSeen);
    }
  }

  lemma GroundedStep(cfg: Config, run: seq<Attempt>, n: nat)
    requires n < |run| && Ordered(run) && AllGrounded(cfg, run, n)
    ensures AllGrounded(cfg, run, n + 1)
  {
    hide TableAt, GroundedNow;
    var after := TableAt(cfg, run, n + 1);
    forall k | k in after ensures GroundedNow(cfg, run, n + 1, k, after[k]) {
      EntryIsGrounded(cfg, run, n, k);
    }
  }

  lemma {:induction false} EntriesAreGrounded(cfg: Config, run: seq<Attempt>, n: nat)
    requires n <= |run| && Ordered(run)
    ensures AllGrounded(cfg, run, n)
  {
    hide GroundedNow, Checked;
    if n > 0 {
      EntriesAreGrounded(cfg, run, n - 1);
      GroundedStep(cfg, run, n - 1);
    }
  }

  /** Every Allow is earned: the table was full, or the same triplet was deferred
      at least `delay` earlier in the run. */
  lemma AllowIsEarned(cfg: Config, run: seq<Attempt>, n: nat)
    requires n < |run| && Ordered(run)
    requires DecisionAt(cfg, run, n) == Allow
    ensures FullAt(cfg, run, n)
         || exists i :: 0 <= i < n && run[i].key == run[n].key && DecisionAt(cfg, run, i) == Defer
                        && run[n].at - run[i].at >= cfg.delay
  {
    var table := TableAt(cfg, run, n);
    var key, now := run[n].key, run[n].at;
    EntriesAreGrounded(cfg, run, n);
    if key in Prune(cfg, table, now) {
      var e := table[key];
      assert GroundedNow(cfg, run, n, key, e);
      var i :| 0 <= i < n && DeferredAt(cfg, run, i, key, e.firstSeen);
      assert run[i].key == key && now - run[i].at >= cfg.delay;
    }
  }

  // -------------------------------------------------------------------- retries

  /** At `now` no lifetime counted from `since` or later has run out. */
  ghost predicate Recent(cfg: Config, since: nat, now: nat) {
    && since <= now < since + cfg.pendingTtl && now < since + cfg.passTtl
    && now + cfg.pendingTtl <= cfg.horizon && now + cfg.passTtl <= cfg.horizon
  }

  /** The table holds `key`, first seen no later than `since` and last seen since. */
  ghost predicate Remembers(table: Table, key: Triplet, since: nat, now: nat) {
    key in table && table[key].firstSeen <= since <= table[key].lastSeen <= now
  }

  lemma StillRemembers(cfg: Config, table: Table, a: Attempt, key: Triplet, since: nat, now: nat)
    requires Remembers(table, key, since, now) && now <= a.at && Recent(cfg, since, a.at)
    ensures Remembers(Checked(cfg, table, a.key, a.at).0, key, since, a.at)
    ensures a.key == key && a.at - since >= cfg.delay ==> Checked(cfg, table, key, a.at).1 == Allow
  {
    assert Kept(cfg, table[key], a.at);
  }

  lemma DeferIsRemembered(cfg: Config, run: seq<Attempt>, i: nat)
    requires i < |run| && Ordered(run) && DecisionAt(cfg, run, i) == Defer
    ensures Remembers(TableAt(cfg, run, i + 1), run[i].key, run[i].at, run[i].at)
  {
    var table, key := TableAt(cfg, run, i), run[i].key;
    EntriesAreGrounded(cfg, run, i);
    if key in Prune(cfg, table, run[i].at) {
      assert GroundedNow(cfg, run, i, key, table[key]);
    }
  }

  lemma {:induction false} RememberedUntil(cfg: Config, run: seq<Attempt>, i: nat, n: nat)
    requires i < n < |run| && Ordered(run) && DecisionAt(cfg, run, i) == Defer && Recent(cfg, run[i].at, run[n].at)
    ensures Remembers(TableAt(cfg, run, n), run[i].key, run[i].at, run[n - 1].at)
    decreases n
  {
    hide Remembers, Checked, DecisionAt;
    if n == i + 1 {
      DeferIsRemembered(cfg, run, i);
    } else {
      RememberedUntil(cfg, run, i, n - 1);
      StillRemembers(cfg, TableAt(cfg, run, n - 1), run[n - 1], run[i].key, run[i].at, run[n - 2].at);
    }
  }

  /** A sender that comes back after the delay, and before any lifetime has run
      out, is let through, whatever else happened and however full the table is. */
  lemma RetryPasses(cfg: Config, run: seq<Attempt>, i: nat, n: nat)
    requires i < n < |run| && Ordered(run) && run[n].key == run[i].key
    requires DecisionAt(cfg, run, i) == Defer && Recent(cfg, run[i].at, run[n].at)
    requires run[n].at - run[i].at >= cfg.delay
    ensures DecisionAt(cfg, run, n) == Allow
  {
    hide TableAt, Remembers, Checked;
    RememberedUntil(cfg, run, i, n);
    StillRemembers(cfg, TableAt(cfg, run, n), run[n], run[i].key, run[i].at, run[n - 1].at);
  }

  /** Other triplets' attempts leave a waiting entry, or prune it once dead. */
  lemma {:induction false} EntryWaits(cfg: Config, run: seq<Attempt>, i: nat, n: nat)
    requires i < n <= |run| && Ordered(run) && DecisionAt(cfg, run, i) == Defer
    requires forall j :: 0 <= j < n && j != i ==> run[j].key != run[i].key
    ensures var key, e, table := run[i].key, Entry(run[i].at, run[i].at, false), TableAt(cfg, run, n);
            && (key in table ==> table[key] == e)
            && (n == i + 1 || Kept(cfg, e, run[n - 1].at) ==> key in table)
    decreases n
  {
    hide Checked, Ordered;
    var key := run[i].key;
    if n == i + 1 {
      if key in TableAt(cfg, run, i) { KnownWasSeen(cfg, run, i, key); }
      NewEntry(cfg, TableAt(cfg, run, i), run[i]);
    } else {
      assert run[n - 2].at <= run[n - 1].at by { LaterAttempt(run, n - 1); }
      EntryWaits(cfg, run, i, n - 1);
      OtherAttempt(cfg, TableAt(cfg, run, n - 1), run[n - 1], key);
    }
  }

  lemma LaterAttempt(run: seq<Attempt>, n: nat)
    requires 0 < n < |run| && Ordered(run)
    ensures run[n - 1].at <= run[n].at
  {
  }

  lemma NewEntry(cfg: Config, table: Table, a: Attempt)
    requires a.key !in table && Checked(cfg, table, a.key, a.at).1 == Defer
    ensures var after := Checked(cfg, table, a.key, a.at).0;
            a.key in after && after[a.key] == Entry(a.at, a.at, false)
  {
  }

  lemma OtherAttempt(cfg: Config, table: Table, a: Attempt, key: Triplet)
    requires a.key != key
    ensures var after := Checked(cfg, table, a.key, a.at).0;
            && (key in after <==> key in table && Kept(cfg, table[key], a.at))
            && (key in after ==> after[key] == table[key])
  {
  }

  /** The second attempt of a triplet, exactly: it is let through if it comes after
      the delay and before the pending lifetime has run out, or if it has run out
      and the table is full; otherwise it is deferred. */
  lemma SecondAttempt(cfg: Config, run: seq<Attempt>, i: nat, n: nat)
    requires i < n < |run| && Ordered(run) && run[n].key == run[i].key && DecisionAt(cfg, run, i) == Defer
    requires forall j :: 0 <= j < n && j != i ==> run[j].key != run[i].key
    ensures var waited := run[n].at - run[i].at;
            var alive := waited < cfg.pendingTtl && run[i].at + cfg.pendingTtl <= cfg.horizon;
            DecisionAt(cfg, run, n) == Allow <==> if alive then waited >= cfg.delay else FullAt(cfg, run, n)
  {
    EntryWaits(cfg, run, i, n);
    hide TableAt;
  }

  /** Attempts of other triplets leave an entry alone, or prune it once dead. */
  lemma {:induction false} EntryStays(cfg: Config, run: seq<Attempt>, i: nat, n: nat)
    requires i < n <= |run| && Ordered(run) && run[i].key in TableAt(cfg, run, i + 1)
    requires forall j :: i < j < n ==> run[j].key != run[i].key
    ensures var key, e, table := run[i].key, TableAt(cfg, run, i + 1)[run[i].key], TableAt(cfg, run, n);
            && (key in table ==> table[key] == e)
            && (n == i + 1 || Kept(cfg, e, run[n - 1].at) ==> key in table)
    decreases n
  {
    hide Checked, Ordered;
    if n > i + 1 {
      assert run[n - 2].at <= run[n - 1].at by { LaterAttempt(run, n - 1); }
      EntryStays(cfg, run, i, n - 1);
      OtherAttempt(cfg, TableAt(cfg, run, n - 1), run[n - 1], run[i].key);
    }
  }

  lemma AllowedIsPassed(cfg: Config, table: Table, a: Attempt)
    requires Checked(cfg, table, a.key, a.at).1 == Allow && !Full(cfg, table, a.key, a.at)
    ensures var after := Checked(cfg, table, a.key, a.at).0;
            a.key in after && after[a.key].passed && after[a.key].lastSeen == a.at
  {
  }

  /** Once let through, a triplet is let through again exactly as long as no more
      than the pass lifetime goes by between attempts, or if the table is full. */
  lemma AfterPassing(cfg: Config, run: seq<Attempt>, i: nat, n: nat)
    requires i < n < |run| && Ordered(run) && run[n].key == run[i].key
    requires DecisionAt(cfg, run, i) == Allow && !FullAt(cfg, run, i)
    requires forall j :: i < j < n ==> run[j].key != run[i].key
    ensures var alive := run[n].at - run[i].at < cfg.passTtl && run[i].at + cfg.passTtl <= cfg.horizon;
            DecisionAt(cfg, run, n) == Allow <==> alive || FullAt(cfg, run, n)
  {
    AllowedIsPassed(cfg, TableAt(cfg, run, i), run[i]);
    EntryStays(cfg, run, i, n);
    LaterAttempt(run, n);
    var table, key, now := TableAt(cfg, run, n), run[n].key, run[n].at;
    var e := TableAt(cfg, run, i + 1)[key];
    hide TableAt;
    assert key in Prune(cfg, table, now) <==> Kept(cfg, e, now);
  }

  /** A new triplet is deferred unless the table is full; then it is let through
      and not remembered. */
  lemma NewTriplet(cfg: Config, run: seq<Attempt>, n: nat)
    requires n < |run| && Ordered(run) && forall i :: 0 <= i < n ==> run[i].key != run[n].key
    ensures DecisionAt(cfg, run, n) == Allow <==> FullAt(cfg, run, n)
    ensures FullAt(cfg, run, n) ==> run[n].key !in TableAt(cfg, run, n + 1)
  {
    if run[n].key in TableAt(cfg, run, n) {
      KnownWasSeen(cfg, run, n, run[n].key);
    }
  }

  lemma KnownWasSeen(cfg: Config, run: seq<Attempt>, n: nat, key: Triplet)
    requires n <= |run| && Ordered(run) && key in TableAt(cfg, run, n)
    ensures exists i :: 0 <= i < n && run[i].key == key
  {
    EntriesAreGrounded(cfg, run, n);
    assert GroundedNow(cfg, run, n, key, TableAt(cfg, run, n)[key]);
  }

  // ---------------------------------------------------------- non-interference

  function Live(cfg: Config, s: Option<Entry>, now: nat): Option<Entry> {
    if s.Some? && Kept(cfg, s.value, now) then s else None
  }

  /** The same decisions from one triplet's own history, with unlimited room. */
  function OwnStep(cfg: Config, s: Option<Entry>, now: nat): (Option<Entry>, Decision) {
    match Live(cfg, s, now)
    case None => (Some(Entry(now, now, false)), Defer)
    case Some(e) => var (e', d) := Revisit(cfg, e, now); (Some(e'), d)
  }

  function OwnState(cfg: Config, run: seq<Attempt>, key: Triplet, n: nat): Option<Entry>
    requires n <= |run|
  {
    if n == 0 then None
    else if run[n - 1].key == key then OwnStep(cfg, OwnState(cfg, run, key, n - 1), run[n - 1].at).0
    else OwnState(cfg, run, key, n - 1)
  }

  ghost predicate NeverFull(cfg: Config, run: seq<Attempt>, n: nat)
    requires n <= |run|
  {
    forall i :: 0 <= i < n ==> !FullAt(cfg, run, i)
  }

  ghost predicate Agree(cfg: Config, table: Table, key: Triplet, s: Option<Entry>, now: nat) {
    if key in table then s == Some(table[key]) else Live(cfg, s, now) == None
  }

  lemma AgreeStep(cfg: Config, table: Table, key: Triplet, s: Option<Entry>, now: nat, a: Attempt)
    requires Agree(cfg, table, key, s, now) && now <= a.at
    requires !Full(cfg, table, a.key, a.at)
    ensures Agree(cfg, Checked(cfg, table, a.key, a.at).0, key,
                  if a.key == key then OwnStep(cfg, s, a.at).0 else s, a.at)
    ensures a.key == key ==> Checked(cfg, table, key, a.at).1 == OwnStep(cfg, s, a.at).1
  {
    var pruned := Prune(cfg, table, a.at);
    assert key in pruned <==> Live(cfg, s, a.at).Some?;
  }

  lemma {:induction false} OwnHistory(cfg: Config, run: seq<Attempt>, key: Triplet, n: nat)
    requires n <= |run| && Ordered(run) && NeverFull(cfg, run, n)
    ensures Agree(cfg, TableAt(cfg, run, n), key, OwnState(cfg, run, key, n), if n == 0 then 0 else run[n - 1].at)
  {
    if n > 0 {
      OwnHistory(cfg, run, key, n - 1);
      var now := if n == 1 then 0 else run[n - 2].at;
      assert !FullAt(cfg, run, n - 1);
      AgreeStep(cfg, TableAt(cfg, run, n - 1), key, OwnState(cfg, run, key, n - 1), now, run[n - 1]);
    }
  }

  /** While the table never fills, a triplet's decisions depend on its own
      attempts alone. */
  lemma DecisionsArePerTriplet(cfg: Config, run: seq<Attempt>, n: nat)
    requires n < |run| && Ordered(run) && NeverFull(cfg, run, n + 1)
    ensures DecisionAt(cfg, run, n) == OwnStep(cfg, OwnState(cfg, run, run[n].key, n), run[n].at).1
  {
    var now := if n == 0 then 0 else run[n - 1].at;
    OwnHistory(cfg, run, run[n].key, n);
    assert !FullAt(cfg, run, n);
    AgreeStep(cfg, TableAt(cfg, run, n), run[n].key, OwnState(cfg, run, run[n].key, n), now, run[n]);
  }
}
