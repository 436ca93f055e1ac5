/**
 The relay worker on queue values: what it may do with a due entry, and why the
 queue drains. Every act spends from a potential of five attempts per entry,
 plus five for the one notification an entry with a sender may cause.
 */
module BounceStorm {
  import opened Text
  import opened ControlRecord
  import opened Spool

  const MAX_ATTEMPTS: nat := 5

  datatype Report = Delivered | Postponed | Failed

  /** What the worker did with one due entry: the record it kept for it, if any,
      and the notification it queued, if any, under its own id. */
  datatype Act =
    | Quarantine(id: Id)
    | Relay(id: Id, report: Report, kept: Option<Entry>, dsn: Option<Due>)

  /** A further postponement exhausts the entry. */
  predicate Exhausted(e: Entry) {
    e.attempts + 1 >= MAX_ATTEMPTS
  }

  predicate Bounces(e: Entry, report: Report) {
    report == Failed || (report == Postponed && Exhausted(e))
  }

  /** An act the worker may take on queue `q`, with ids from `bound` on unused. A
      postponed entry is kept with one more attempt on record (or lost, if its
      rewritten record is unreadable); a bounce of an entry with a sender may
      queue one null-sender notification. */
  ghost predicate Allowed(q: map<Id, Entry>, bound: Id, a: Act) {
    && a.id in q
    && (a.Relay? ==>
          && (a.kept.Some? ==>
                && a.report == Postponed && !Exhausted(q[a.id])
                && a.kept.value.attempts == q[a.id].attempts + 1
                && (a.kept.value.sender.Some? <==> q[a.id].sender.Some?))
          && (a.dsn.Some? ==>
                && Bounces(q[a.id], a.report) && q[a.id].sender.Some?
                && a.dsn.value.id >= bound
                && a.dsn.value.entry.sender == None && a.dsn.value.entry.attempts == 0))
  }

  /** The queue after an act. */
  function ActOn(q: map<Id, Entry>, a: Act): map<Id, Entry> {
    match a
    case Quarantine(id) => q - {id}
    case Relay(id, _, kept, dsn) =>
      var rest := q - {id};
      if kept.Some? then rest[id := kept.value]
      else if dsn.Some? then rest[dsn.value.id := dsn.value.entry]
      else rest
  }

  function BoundAfter(bound: Id, a: Act): Id {
    if a.Relay? && a.dsn.Some? then a.dsn.value.id + 1 else bound
  }

  ghost predicate Below(q: map<Id, Entry>, bound: Id) {
    forall id :: id in q ==> id < bound
  }

  ghost predicate AllowedRun(q: map<Id, Entry>, bound: Id, acts: seq<Act>)
    decreases |acts|
  {
    acts != [] ==> Allowed(q, bound, acts[0]) && AllowedRun(ActOn(q, acts[0]), BoundAfter(bound, acts[0]), acts[1..])
  }

  function AfterRun(q: map<Id, Entry>, acts: seq<Act>): map<Id, Entry>
    decreases |acts|
  {
    if acts == [] then q else AfterRun(ActOn(q, acts[0]), acts[1..])
  }

  function BoundAfterRun(bound: Id, acts: seq<Act>): Id
    decreases |acts|
  {
    if acts == [] then bound else BoundAfterRun(BoundAfter(bound, acts[0]), acts[1..])
  }

  /** Runs compose. */
  lemma {:induction false} RunsCompose(q: map<Id, Entry>, bound: Id, acts: seq<Act>, more: seq<Act>)
    requires AllowedRun(q, bound, acts) && AllowedRun(AfterRun(q, acts), BoundAfterRun(bound, acts), more)
    ensures AllowedRun(q, bound, acts + more)
    ensures AfterRun(q, acts + more) == AfterRun(AfterRun(q, acts), more)
    ensures BoundAfterRun(bound, acts + more) == BoundAfterRun(BoundAfterRun(bound, acts), more)
    decreases |acts|
  {
    hide Allowed, ActOn, BoundAfter;
    if acts == [] {
      assert acts + more == more;
    } else {
      RunsCompose(ActOn(q, acts[0]), BoundAfter(bound, acts[0]), acts[1..], more);
      assert (acts + more)[0] == acts[0] && (acts + more)[1..] == acts[1..] + more;
    }
  }

  // ----------------------------------------------------------------- potential

  /** Attempts left to an entry. */
  function Tries(e: Entry): nat {
    if e.attempts >= MAX_ATTEMPTS then 1 else MAX_ATTEMPTS - e.attempts
  }

  function Weight(e: Entry): (w: nat)
    ensures w >= 1
  {
    Tries(e) + if e.sender.Some? then MAX_ATTEMPTS else 0
  }

  ghost function Potential(q: map<Id, Entry>): nat
    decreases |q|
  {
    if q == map[] then 0
    else
      var id :| id in q;
      SmallerMap(q, id);
      Weight(q[id]) + Potential(q - {id})
  }

  lemma SmallerMap(q: map<Id, Entry>, id: Id)
    requires id in q
    ensures |q - {id}| < |q|
  {
    assert (q - {id}).Keys == q.Keys - {id};
    assert |(q - {id}).Keys| == |q - {id}| && |q.Keys| == |q|;
  }

  lemma {:induction false} PotentialWithout(q: map<Id, Entry>, id: Id)
    requires id in q
    ensures Potential(q) == Weight(q[id]) + Potential(q - {id})
    decreases |q|
  {
    hide Weight;
    var pick :| pick in q && Potential(q) == Weight(q[pick]) + Potential(q - {pick});
    if pick != id {
      SmallerMap(q, pick);
      PotentialWithout(q - {pick}, id);
      assert q - {pick} - {id} == q - {id} - {pick};
      SmallerMap(q, id);
      PotentialWithout(q - {id}, pick);
    }
  }

  lemma PotentialWith(q: map<Id, Entry>, id: Id, e: Entry)
    requires id !in q
    ensures Potential(q[id := e]) == Potential(q) + Weight(e)
  {
    PotentialWithout(q[id := e], id);
    assert q[id := e] - {id} == q;
  }

  /** Every act spends. */
  lemma ActSpends(q: map<Id, Entry>, bound: Id, a: Act)
    requires Allowed(q, bound, a) && Below(q, bound)
    ensures Potential(ActOn(q, a)) < Potential(q)
    ensures Below(ActOn(q, a), BoundAfter(bound, a))
  {
    PotentialWithout(q, a.id);
    var rest := q - {a.id};
    hide Potential;
    if a.Relay? && a.kept.Some? {
      PotentialWith(rest, a.id, a.kept.value);
    } else if a.Relay? && a.dsn.Some? {
      PotentialWith(rest, a.dsn.value.id, a.dsn.value.entry);
    }
  }

  /** For all relay outcomes: the number of acts is bounded by the potential spent. */
  lemma {:induction false} RunSpends(q: map<Id, Entry>, bound: Id, acts: seq<Act>)
    requires AllowedRun(q, bound, acts) && Below(q, bound)
    ensures |acts| + Potential(AfterRun(q, acts)) <= Potential(q)
    ensures Below(AfterRun(q, acts), BoundAfterRun(bound, acts))
    decreases |acts|
  {
    hide Potential, Allowed, Below;
    if acts != [] {
      ActSpends(q, bound, acts[0]);
      RunSpends(ActOn(q, acts[0]), BoundAfter(bound, acts[0]), acts[1..]);
    }
  }

  /** How many entries have a sender, and how many do not. */
  function WithSender(q: map<Id, Entry>): set<Id> {
    set id | id in q && q[id].sender.Some?
  }

  lemma {:induction false} FreshPotential(q: map<Id, Entry>)
    requires forall id :: id in q ==> q[id].attempts == 0
    ensures Potential(q) == 10 * |WithSender(q)| + 5 * (|q| - |WithSender(q)|)
    decreases |q|
  {
    if q != map[] {
      var id :| id in q;
      var rest := q - {id};
      PotentialWithout(q, id);
      SmallerMap(q, id);
      FreshPotential(rest);
      assert |rest| == |q| - 1 by {
        assert rest.Keys == q.Keys - {id};
        assert |rest.Keys| == |rest| && |q.Keys| == |q|;
      }
      if q[id].sender.Some? {
        assert WithSender(rest) == WithSender(q) - {id};
      } else {
        assert WithSender(rest) == WithSender(q);
      }
    } else {
      assert WithSender(q) == {};
    }
  }

  /** No bounce storm: a queue of fresh entries, n with a sender and m without,
      costs at most 10n + 5m relay attempts, whatever the servers answer. */
  lemma NoBounceStorm(q: map<Id, Entry>, bound: Id, acts: seq<Act>)
    requires AllowedRun(q, bound, acts) && Below(q, bound)
    requires forall id :: id in q ==> q[id].attempts == 0
    ensures |acts| <= 10 * |WithSender(q)| + 5 * (|q| - |WithSender(q)|)
  {
    RunSpends(q, bound, acts);
    FreshPotential(q);
  }

  // ------------------------------------------------------------ entry by entry

  function Relays(acts: seq<Act>, id: Id): nat
    decreases |acts|
  {
    if acts == [] then 0 else (if acts[0].Relay? && acts[0].id == id then 1 else 0) + Relays(acts[1..], id)
  }

  function Notifications(acts: seq<Act>, id: Id): nat
    decreases |acts|
  {
    if acts == [] then 0
    else (if acts[0].Relay? && acts[0].id == id && acts[0].dsn.Some? then 1 else 0) + Notifications(acts[1..], id)
  }

  /** What an id can still cost: its own tries if queued, five if it is yet to be
      given to a notification, nothing once it has left. */
  function RelaysLeft(q: map<Id, Entry>, bound: Id, id: Id): nat {
    if id in q then Tries(q[id]) else if id >= bound then MAX_ATTEMPTS else 0
  }

  function NotificationsLeft(q: map<Id, Entry>, id: Id): nat {
    if id in q && q[id].sender.Some? then 1 else 0
  }

  /** Each entry is relayed at most as often as it has tries (at most five), and
      causes at most one notification, none if its sender is null. */
  lemma {:induction false} PerEntryBounds(q: map<Id, Entry>, bound: Id, acts: seq<Act>, id: Id)
    requires AllowedRun(q, bound, acts) && Below(q, bound)
    ensures Relays(acts, id) <= RelaysLeft(q, bound, id) <= MAX_ATTEMPTS
    ensures Notifications(acts, id) <= NotificationsLeft(q, id) <= 1
    decreases |acts|
  {
    if acts != [] {
      var a := acts[0];
      ActSpends(q, bound, a);
      hide Potential;
      PerEntryBounds(ActOn(q, a), BoundAfter(bound, a), acts[1..], id);
    }
  }
}
