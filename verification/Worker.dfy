/**
 The relay worker over the spool on disk. One pass takes a snapshot of the due
 entries and handles each; what it does to the queue is a run of the acts whose
 cost is bounded in `BounceStorm`.
 */
module Worker {
  import opened Networks
  import opened Text
  import opened Mailboxes
  import opened ControlRecord
  import opened Spool
  import opened FanOut
  import opened BounceStorm

  /** What the outside world contributes to handling one entry: whether its files
      could be read, the relay's report, the clock, and the text of a notification. */
  datatype Outcome = Outcome(readable: bool, report: Report, at: Time, notice: string)

  /** Clock readings whose retry times still fit the record. */
  ghost predicate ClockFits(t: Time) {
    SecondsFit(t) && SecondsFit(t + 3600 * SECOND)
  }

  // ------------------------------------------------------------ what a pass does

  /** The record left by a postponement, if readable. */
  function Rescheduled(e: Entry, at: Time): Option<Entry> {
    ParseRecord(Render(Envelope(e.sender, e.recipients), e.attempts + 1, at + Backoff(e.attempts + 1) * SECOND, e.createdAt))
  }

  /** The record of a notification queued for relay, if readable. */
  function NoticeRecord(sender: Mailbox, at: Time): Option<Entry> {
    ParseRecord(Render(Envelope(None, [sender]), 0, at, at))
  }

  /** A bounce queues a notification if there is a sender and it is not hosted here. */
  function Notice(hosted: set<string>, e: Entry, at: Time, id: Id): Option<Due> {
    if e.sender.None? || IsLocal(hosted, e.sender.value) then None
    else
      match NoticeRecord(e.sender.value, at)
      case None => None
      case Some(n) => Some(Due(id, n))
  }

  /** The act for one due entry, if a notification were to take the id `next`. */
  function ActFor(hosted: set<string>, x: Due, o: Outcome, next: Id): Act {
    if !o.readable then Quarantine(x.id)
    else if Bounces(x.entry, o.report) then Relay(x.id, o.report, None, Notice(hosted, x.entry, o.at, next))
    else if o.report == Postponed then Relay(x.id, o.report, Rescheduled(x.entry, o.at), None)
    else Relay(x.id, o.report, None, None)
  }

  lemma RetryFits(at: Time, attempts: nat)
    requires ClockFits(at)
    ensures SecondsFit(at + Backoff(attempts) * SECOND)
  {
    BackoffDoubles(attempts);
    hide Backoff;
  }

  lemma RescheduledIsAllowed(text: string, e: Entry, at: Time)
    requires ParseRecord(text) == Some(e) && !Exhausted(e) && ClockFits(at)
    ensures var r := Rescheduled(e, at);
            r.Some? ==> r.value.attempts == e.attempts + 1 && (r.value.sender.Some? <==> e.sender.Some?)
  {
    hide ParseRecord, Render, PlainEnvelope, Backoff, SecondsFit, ClockFits, Truncated;
    RecordIsPlain(text);
    RetryFits(at, e.attempts + 1);
    RewrittenRecord(Envelope(e.sender, e.recipients), e.attempts + 1, at + Backoff(e.attempts + 1) * SECOND, e.createdAt);
  }

  /** The record of a postponement says when to retry: the backoff from then on, in
      whole seconds. */
  lemma RescheduledTime(text: string, e: Entry, at: Time)
    requires ParseRecord(text) == Some(e) && !Exhausted(e) && ClockFits(at)
    ensures var r := Rescheduled(e, at);
            r.Some? ==> r.value.nextAt == Truncated(at + Backoff(e.attempts + 1) * SECOND)
  {
    hide ParseRecord, Render, PlainEnvelope, Backoff, SecondsFit, ClockFits, Truncated;
    RecordIsPlain(text);
    RetryFits(at, e.attempts + 1);
    RewrittenRecord(Envelope(e.sender, e.recipients), e.attempts + 1, at + Backoff(e.attempts + 1) * SECOND, e.createdAt);
  }

  lemma NoticeIsAllowed(text: string, e: Entry, at: Time)
    requires ParseRecord(text) == Some(e) && e.sender.Some? && ClockFits(at)
    ensures var r := NoticeRecord(e.sender.value, at);
            r.Some? ==> r.value.attempts == 0 && r.value.sender == None
  {
    hide ParseRecord, Render, SecondsFit, Plain;
    RecordIsPlain(text);
    RewrittenRecord(Envelope(None, [e.sender.value]), 0, at, at);
  }

  /** Whatever the outcome, the act is an allowed one. */
  lemma ActIsAllowed(q: map<Id, Entry>, bound: Id, hosted: set<string>, x: Due, o: Outcome, next: Id, text: string)
    requires x.id in q && q[x.id] == x.entry && ParseRecord(text) == Some(x.entry)
    requires ClockFits(o.at) && next >= bound
    ensures Allowed(q, bound, ActFor(hosted, x, o, next))
  {
    hide ParseRecord, Rescheduled, NoticeRecord, ClockFits, IsLocal;
    if !Exhausted(x.entry) { RescheduledIsAllowed(text, x.entry, o.at); }
    if x.entry.sender.Some? { NoticeIsAllowed(text, x.entry, o.at); }
  }

  /** For mailboxes that read back, the act is exact: a postponed entry is kept
      with its envelope and creation time, one more attempt and a doubled delay;
      a bounced entry's sender gets a null-sender notification unless hosted here. */
  lemma ActIsExact(hosted: set<string>, x: Due, o: Outcome, next: Id)
    requires StorableEnvelope(Envelope(x.entry.sender, x.entry.recipients))
    requires ClockFits(o.at) && SecondsFit(x.entry.createdAt) && o.readable
    ensures var e := x.entry;
            && (o.report == Postponed && e.attempts + 1 < 5 ==>
                  ActFor(hosted, x, o, next)
                  == Relay(x.id, Postponed,
                           Some(Entry(e.sender, e.recipients, e.attempts + 1,
                                      Truncated(o.at + 60 * Pow2(e.attempts + 1) * SECOND), Truncated(e.createdAt))), None))
            && ((o.report == Failed || (o.report == Postponed && e.attempts + 1 >= 5)) && e.sender.Some? && !IsLocal(hosted, e.sender.value) ==>
                  ActFor(hosted, x, o, next)
                  == Relay(x.id, o.report, None,
                           Some(Due(next, Entry(None, [e.sender.value], 0, Truncated(o.at), Truncated(o.at))))))
  {
    hide ParseRecord, Render, Storable, Truncated, Pow2;
    var e := x.entry;
    if !Exhausted(e) {
      BackoffDoubles(e.attempts + 1);
      RetryFits(o.at, e.attempts + 1);
      hide Backoff, SecondsFit;
      var retry := o.at + Backoff(e.attempts + 1) * SECOND;
      RecordRoundTrip(Envelope(e.sender, e.recipients), e.attempts + 1, retry, e.createdAt);
    }
    if e.sender.Some? {
      RecordRoundTrip(Envelope(None, [e.sender.value]), 0, o.at, o.at);
    }
  }

  // ------------------------------------------------------------------ fresh ids

  /** Ids from `bound` on name no file. */
  ghost predicate FreshFrom(d: Disk, bound: Id) {
    forall f: File :: f.id >= bound ==> f !in d.main && f !in d.bounced
  }

  lemma FreshKept(d: Disk, id: Id, t: Task, bound: Id)
    requires FreshFrom(d, bound) && id < bound
    ensures FreshFrom(Finish(d, id, t), bound)
  {
    FinishElsewhere(d, id, t);
    hide Finish;
    forall f: File | f.id >= bound ensures f !in Finish(d, id, t).main && f !in Finish(d, id, t).bounced {
      assert SameFile(d, Finish(d, id, t), f);
    }
  }

  lemma FreshIsUnused(d: Disk, bound: Id)
    requires FreshFrom(d, bound)
    ensures Unused(d, bound) && Below(Queue(d), bound) && FreshFrom(d, bound + 1)
  {
    forall id | id in Queue(d) ensures id < bound {
      assert Ctrl(id) in d.main;
    }
  }

  // ----------------------------------------------------------------- the worker

  class RelayWorker {
    const spool: OutboundSpool
    const hosted: set<string>

    /** Ids are drawn from here. */
    var nextId: Id

    ghost predicate Valid()
      reads this, spool
    {
      FreshFrom(spool.disk, nextId)
    }

    constructor (spool: OutboundSpool, hosted: set<string>, nextId: Id)
      requires FreshFrom(spool.disk, nextId)
      ensures Valid() && this.spool == spool && this.hosted == hosted && this.nextId == nextId
    {
      this.spool := spool;
      this.hosted := hosted;
      this.nextId := nextId;
    }

    /** `enqueue` under the next id. */
    method EnqueueNext(message: Message, now: Time)
      requires Valid()
      modifies this, spool
      ensures Valid() && nextId == old(nextId) + 1
      ensures spool.Entries() == match ParseRecord(Render(message.env, 0, now, now))
                                 case None => old(spool.Entries())
                                 case Some(e) => old(spool.Entries())[old(nextId) := e]
      ensures Bodies(spool.disk) == old(Bodies(spool.disk))[old(nextId) := message.raw]
    {
      hide ParseRecord, Render, Finish, Unused, FreshFrom, Queue, Bodies;
      var id := nextId;
      FreshIsUnused(spool.disk, id);
      FreshKept(spool.disk, id, Enqueue(0, message.raw, Render(message.env, 0, now, now)), id + 1);
      EnqueueAdds(spool.disk, id, message.raw, Render(message.env, 0, now, now));
      FinishedBodies(spool.disk, id, message.raw, Render(message.env, 0, now, now));
      assert id !in spool.Entries();
      spool.EnqueueMessage(id, message.raw, message.env, now);
      nextId := id + 1;
    }

    /** The writing loop of `enqueue_relay`: one entry per message, under its own id. */
    method EnqueueAll(messages: seq<Message>, now: Time)
      requires Valid()
      modifies this, spool
      ensures Valid() && nextId == old(nextId) + |messages|
      ensures spool.Entries() == Added(old(spool.Entries()), old(nextId), messages, now)
      ensures Written(old(Bodies(spool.disk)), old(nextId), messages, Bodies(spool.disk))
    {
      hide ParseRecord, Render, FreshFrom, Queue, Added, Bodies, Written;
      ghost var q0, next0, b0 := spool.Entries(), nextId, Bodies(spool.disk);
      NothingAdded(q0, next0, now);
      NothingWritten(b0, next0);
      FreshBodies(spool.disk, nextId);
      var i := 0;
      assert messages[..0] == [];
      while i < |messages|
        invariant 0 <= i <= |messages| && Valid() && nextId == next0 + i
        invariant spool.Entries() == Added(q0, next0, messages[..i], now)
        invariant Written(b0, next0, messages[..i], Bodies(spool.disk))
      {
        AddedNext(q0, next0, messages, i, now);
        WrittenNext(b0, next0, messages, i, Bodies(spool.disk));
        EnqueueNext(messages[i], now);
        i := i + 1;
      }
      assert messages[..i] == messages;
    }

    /** `Server::accept_inbound` with relay configured. If relaying is forbidden the
        spool is untouched; if permitted it gains exactly the entries of the fan-out.
        Local delivery and the entries carry every recipient occurrence once, and the
        entries stand on disk as they are exactly if all of them can be read back,
        which those of a storable envelope can. The message file of each holds the
        message's own bytes, and no older one changes. */
    method Accept(authorization: Authorization, message: Message, now: Time) returns (r: Accepted, keys: seq<string>)
      requires Valid()
      modifies this, spool
      ensures Valid()
      ensures r.local == Within(message.env.recipients, hosted) && r.relay == Outside(message.env.recipients, hosted)
      ensures authorization == Forbidden ==> spool.disk == old(spool.disk) && nextId == old(nextId)
      ensures authorization == Permitted ==>
                && PerDomain(r.entries, message, r.relay, keys) && |r.entries| <= |r.relay|
                && multiset(r.local) + multiset(Recipients(r.entries)) == multiset(message.env.recipients)
                && nextId == old(nextId) + |r.entries|
                && spool.Entries() == Added(old(spool.Entries()), old(nextId), r.entries, now)
      ensures authorization == Permitted && SecondsFit(now) ==>
                (Spooled(old(spool.Entries()), old(nextId), r.entries, now, spool.Entries())
                 <==> forall i :: 0 <= i < |r.entries| ==> StorableEnvelope(r.entries[i].env))
      ensures authorization == Permitted && StorableEnvelope(message.env) && SecondsFit(now) ==>
                Spooled(old(spool.Entries()), old(nextId), r.entries, now, spool.Entries())
      ensures authorization == Permitted ==>
                && OldBodies(old(Bodies(spool.disk)), old(nextId), Bodies(spool.disk), nextId)
                && (forall id :: old(nextId) <= id < nextId ==> Bodies(spool.disk)[id] == message.raw)
    {
      hide ParseRecord, Render, FreshFrom, Queue, Added, Bodies, Within, Outside, PerDomain, Recipients, StorableEnvelope, Spooled, SecondsFit;
      FreshIsUnused(spool.disk, nextId);
      ghost var q0, next0 := spool.Entries(), nextId;
      r, keys := AcceptInbound(hosted, true, authorization, message);
      if authorization == Forbidden { return; }
      ghost var b0 := Bodies(spool.disk);
      EnqueueAll(r.entries, now);
      WrittenVerbatim(message, r.relay, r.entries, keys, b0, next0, Bodies(spool.disk));
      if SecondsFit(now) { SpooledExactly(q0, next0, r.entries, now); }
      if StorableEnvelope(message.env) { EntriesAreStorable(message, hosted, r.entries, keys); }
    }

    /** The notification, routed by `accept_inbound`. */
    method NotifySender(sender: Mailbox, at: Time, notice: string)
      requires Valid()
      modifies this, spool
      ensures Valid() && nextId >= old(nextId)
      ensures IsLocal(hosted, sender) || NoticeRecord(sender, at).None? ==> spool.Entries() == old(spool.Entries())
      ensures !IsLocal(hosted, sender) ==> nextId == old(nextId) + 1
      ensures !IsLocal(hosted, sender) && NoticeRecord(sender, at).Some? ==>
                spool.Entries() == old(spool.Entries())[old(nextId) := NoticeRecord(sender, at).value]
      ensures Bodies(spool.disk) == NoticeBody(old(Bodies(spool.disk)), hosted, Some(sender), notice, old(nextId))
    {
      hide ParseRecord, Render, Finish, FreshFrom, Queue, Bodies, NoticeBody, Within, Outside, PerDomain, Recipients, Added, Spooled, StorableEnvelope, SecondsFit;
      ghost var q0, next0, b0 := spool.Entries(), nextId, Bodies(spool.disk);
      FreshBodies(spool.disk, nextId);
      var dsn := FailureDsn(sender, notice);
      var r, keys := Accept(Permitted, dsn, at);
      NoticeRouting(hosted, sender, notice, r, keys);
      AddedUpToOne(q0, next0, r.entries, at);
      NoticeIsWritten(b0, hosted, sender, notice, next0, Bodies(spool.disk));
    }

    /** `bounce`: both files of a queued entry move out of the queue. */
    method BounceOut(id: Id)
      requires Valid() && id < nextId && id in spool.Entries()
      modifies spool
      ensures Valid() && spool.Entries() == old(spool.Entries()) - {id}
      ensures Bodies(spool.disk) == old(Bodies(spool.disk)) - {id}
      ensures id in old(Bodies(spool.disk)) && Kept(spool.disk, id, old(Bodies(spool.disk))[id])
    {
      hide ParseRecord, Finish, FreshFrom, Queue, Bodies;
      FreshKept(spool.disk, id, Bounce(0), nextId);
      QueuedHasBody(spool.disk, id);
      FinishedBodies(spool.disk, id, [], []);
      BounceFiles(spool.disk, id, Bounce(0));
      spool.BounceEntry(id);
    }

    /** `bounce_and_notify`: the notification is queued before the entry moves. */
    method BounceAndNotify(x: Due, at: Time, notice: string)
      requires Valid() && x.id < nextId && x.id in spool.Entries() && spool.Entries()[x.id] == x.entry
      modifies this, spool
      ensures Valid() && nextId >= old(nextId)
      ensures var dsn := Notice(hosted, x.entry, at, old(nextId));
              && spool.Entries() == ActOn(old(spool.Entries()), Relay(x.id, Failed, None, dsn))
              && (dsn.Some? ==> nextId == old(nextId) + 1)
      ensures Bodies(spool.disk) == NoticeBody(old(Bodies(spool.disk)), hosted, x.entry.sender, notice, old(nextId)) - {x.id}
      ensures x.id in old(Bodies(spool.disk)) && Kept(spool.disk, x.id, old(Bodies(spool.disk))[x.id])
    {
      hide ParseRecord, Render, Finish, FreshFrom, Queue, Bodies, Kept;
      QueuedHasBody(spool.disk, x.id);
      if x.entry.sender.Some? {
        NotifySender(x.entry.sender.value, at, notice);
      }
      BounceOut(x.id);
      assert spool.Entries() == ActOn(old(spool.Entries()), Relay(x.id, Failed, None, Notice(hosted, x.entry, at, old(nextId))));
    }

    /** The body of the loop in `relay_due`. */
    method Handle(x: Due, o: Outcome) returns (ghost act: Act)
      requires Valid() && x.id in spool.Entries() && spool.Entries()[x.id] == x.entry && ClockFits(o.at)
      modifies this, spool
      ensures Valid() && BoundAfter(old(nextId), act) <= nextId && old(nextId) <= nextId
      ensures act == ActFor(hosted, x, o, old(nextId))
      ensures spool.Entries() == ActOn(old(spool.Entries()), act)
      ensures Bodies(spool.disk) == BodiesAfter(old(Bodies(spool.disk)), hosted, x, o, old(nextId))
      ensures x.id !in Bodies(spool.disk) && !(o.readable && o.report == Delivered) ==>
                x.id in old(Bodies(spool.disk)) && Kept(spool.disk, x.id, old(Bodies(spool.disk))[x.id])
    {
      hide ParseRecord, Render, Finish, FreshFrom, Queue, Bodies, NoticeBody, Kept, NoticeRecord, Backoff, SecondsFit, ClockFits, IsLocal, Unused, Below;
      act := ActFor(hosted, x, o, nextId);
      FreshIsUnused(spool.disk, nextId);
      QueuedHasBody(spool.disk, x.id);
      FinishedBodies(spool.disk, x.id, [], []);
      if !o.readable {
        BounceOut(x.id);
      } else {
        match o.report
        case Delivered =>
          FreshKept(spool.disk, x.id, Discard(0), nextId);
          spool.RemoveEntry(x.id);
        case Postponed =>
          var attempts := x.entry.attempts + 1;
          if attempts >= MAX_ATTEMPTS {
            BounceAndNotify(x, o.at, o.notice);
          } else {
            Postpone(x, attempts, o.at + Backoff(attempts) * SECOND);
          }
        case Failed =>
          BounceAndNotify(x, o.at, o.notice);
      }
    }

    method Postpone(x: Due, attempts: nat, next: Time)
      requires Valid() && x.id in spool.Entries() && spool.Entries()[x.id] == x.entry
      modifies spool
      ensures Valid()
      ensures var kept := ParseRecord(Render(Envelope(x.entry.sender, x.entry.recipients), attempts, next, x.entry.createdAt));
              spool.Entries() == if kept.Some? then old(spool.Entries())[x.id := kept.value] else old(spool.Entries()) - {x.id}
      ensures Bodies(spool.disk) == old(Bodies(spool.disk))
    {
      hide ParseRecord, Render, Finish, FreshFrom, Bodies;
      ghost var text := Deferred(spool.disk.main[Ctrl(x.id)], Retry(attempts, next)).value;
      FreshIsUnused(spool.disk, nextId);
      FreshKept(spool.disk, x.id, Defer(0, text), nextId);
      DeferRewrites(spool.disk, x.id, text);
      FinishedBodies(spool.disk, x.id, [], text);
      var ok := spool.DeferEntry(x.id, attempts, next);
    }

    /** A postponed entry in the next scan: not due before its backoff has passed,
        less the truncated fraction of a second, and due once it has. */
    method ScanAfterPostponement(x: Due, o: Outcome, now: Time) returns (due: seq<Due>)
      requires Valid() && x.id in spool.Entries() && spool.Entries()[x.id] == x.entry && ClockFits(o.at) && o.at >= 0
      requires o.readable && o.report == Postponed && x.entry.attempts + 1 < 5
      modifies this, spool
      ensures Valid()
      ensures var wait := Backoff(x.entry.attempts + 1) * SECOND;
              forall y :: y in due && y.id == x.id ==> y.entry.attempts == x.entry.attempts + 1 && now > o.at + wait - SECOND
      ensures now >= o.at + Backoff(x.entry.attempts + 1) * SECOND && Rescheduled(x.entry, o.at).Some? ==>
                exists y :: y in due && y.id == x.id
    {
      hide ParseRecord, Render, FreshFrom, Queue, Bodies, BodiesAfter, Kept, Backoff, Truncated, SecondsFit, ClockFits, Notice, Rescheduled;
      ghost var text := ControlText(spool.disk, x.id);
      RescheduledIsAllowed(text, x.entry, o.at);
      RescheduledTime(text, x.entry, o.at);
      BackoffDoubles(x.entry.attempts + 1);
      TruncatedTwice(o.at + Backoff(x.entry.attempts + 1) * SECOND);
      ghost var act := Handle(x, o);
      due := spool.DueNow(now);
      if Rescheduled(x.entry, o.at).Some? && now >= o.at + Backoff(x.entry.attempts + 1) * SECOND {
        assert Due(x.id, Rescheduled(x.entry, o.at).value) in due;
      }
    }

    /** `relay_due`: one pass. Exactly the due entries are handled, each as its
        outcome demands, and the pass is an allowed run on the queue. */
    method RelayDue(now: Time, outcomes: Id -> Outcome) returns (due: seq<Due>, ghost acts: seq<Act>)
      requires Valid() && forall id :: ClockFits(outcomes(id).at)
      modifies this, spool
      ensures Valid()
      ensures forall x :: x in due <==> x.id in old(spool.Entries()) && old(spool.Entries())[x.id] == x.entry && x.entry.nextAt <= now
      ensures |acts| == |due| && forall i :: 0 <= i < |due| ==> ActMatches(acts[i], hosted, due[i], outcomes(due[i].id))
      ensures AllowedRun(old(spool.Entries()), old(nextId), acts)
      ensures spool.Entries() == AfterRun(old(spool.Entries()), acts)
      ensures nextId >= BoundAfterRun(old(nextId), acts) && nextId >= old(nextId)
      ensures Untouched(old(Bodies(spool.disk)), old(nextId), Bodies(spool.disk))
    {
      hide Ran, Pending, FreshFrom, Queue, Bodies, BodiesAfter, Untouched, Kept, ActFor, ActOn, Below, BoundAfter;
      due := spool.DueNow(now);
      acts := [];
      ghost var q0, next0, b0 := spool.Entries(), nextId, Bodies(spool.disk);
      PassBegins(q0, next0, hosted, due, outcomes);
      NoneTouched(b0, next0);
      var i := 0;
      while i < |due|
        invariant 0 <= i <= |due| && Valid()
        invariant Ran(q0, next0, acts, spool.Entries(), nextId, hosted, due[..i], outcomes)
        invariant Pending(spool.Entries(), due[i..])
        invariant next0 <= nextId && Untouched(b0, next0, Bodies(spool.disk))
      {
        HandlingWritesNothing(b0, next0, Bodies(spool.disk), hosted, due[i], outcomes(due[i].id), nextId);
        ghost var q, next, text := spool.Entries(), nextId, ControlText(spool.disk, due[i].id);
        FreshIsUnused(spool.disk, next);
        PassSteps(q0, next0, acts, q, next, hosted, due, outcomes, i, text);
        ghost var act := Handle(due[i], outcomes(due[i].id));
        RanLater(q0, next0, acts + [act], spool.Entries(), BoundAfter(next, act), nextId, hosted, due[..i + 1], outcomes);
        acts := acts + [act];
        i := i + 1;
      }
      PassEnds(q0, next0, acts, spool.Entries(), nextId, hosted, due, outcomes);
    }

    /** The worker's loop: any number of passes, at any times, against any remote
        behaviour. All of them together make no more relay attempts than the
        starting queue's potential, so at most that many passes find work. */
    method Run(passes: seq<Pass>) returns (busy: nat, ghost acts: seq<Act>, ghost dues: seq<seq<Due>>)
      requires Valid() && forall k, id :: 0 <= k < |passes| ==> ClockFits(passes[k].outcomes(id).at)
      modifies this, spool
      ensures Valid()
      ensures AllowedRun(old(spool.Entries()), old(nextId), acts)
      ensures spool.Entries() == AfterRun(old(spool.Entries()), acts)
      ensures |dues| == |passes| && Together(dues) == |acts| && busy == Working(dues)
      ensures busy <= |acts| <= Potential(old(spool.Entries())) - Potential(spool.Entries())
      ensures Untouched(old(Bodies(spool.disk)), old(nextId), Bodies(spool.disk))
    {
      hide FreshFrom, Queue, Bodies, Untouched, Potential, AllowedRun, AfterRun, BoundAfterRun, SoFar;
      ghost var q0, next0, b0 := spool.Entries(), nextId, Bodies(spool.disk);
      NoneTouched(b0, next0);
      busy, acts, dues := 0, [], [];
      NothingSoFar(q0, next0);
      FreshIsUnused(spool.disk, nextId);
      var k := 0;
      while k < |passes|
        invariant 0 <= k <= |passes| && Valid() && |dues| == k && Together(dues) == |acts| && busy == Working(dues) <= |acts|
        invariant SoFar(q0, next0, acts, spool.Entries(), nextId)
        invariant next0 <= nextId && Untouched(b0, next0, Bodies(spool.disk))
      {
        ghost var q, next, b := spool.Entries(), nextId, Bodies(spool.disk);
        var due;
        ghost var more;
        due, more := RelayDue(passes[k].now, passes[k].outcomes);
        StillUntouched(b0, next0, b, next, Bodies(spool.disk));
        SoFarGrows(q0, next0, acts, q, next, more, nextId);
        acts := acts + more;
        dues := dues + [due];
        assert dues[..k] + [due] == dues;
        if due != [] { busy := busy + 1; }
        k := k + 1;
      }
      SoFarIsRun(q0, next0, acts, spool.Entries(), nextId);
      RunSpends(q0, next0, acts);
    }

    /** A pass at a time when everything queued is due: it spends. */
    method LatePass(outcomes: Id -> Outcome) returns (ghost acts: seq<Act>)
      requires Valid() && forall id :: ClockFits(outcomes(id).at)
      requires spool.Entries() != map[]
      modifies this, spool
      ensures Valid()
      ensures AllowedRun(old(spool.Entries()), old(nextId), acts)
      ensures spool.Entries() == AfterRun(old(spool.Entries()), acts)
      ensures nextId >= BoundAfterRun(old(nextId), acts)
      ensures Potential(spool.Entries()) < Potential(old(spool.Entries()))
    {
      hide FreshFrom, Queue, Potential, AllowedRun, AfterRun, BoundAfterRun;
      FreshIsUnused(spool.disk, nextId);
      ghost var q, next := spool.Entries(), nextId;
      var now := LatestRetry(Queue(spool.disk));
      var due;
      due, acts := RelayDue(now, outcomes);
      ghost var id :| id in q;
      assert Due(id, q[id]) in due;
      RunSpends(q, next, acts);
    }

    /** If the clock keeps moving past the retry times the queue drains, whatever
        the servers answer, and within its potential. */
    method Drain(outcomes: nat -> Id -> Outcome) returns (ghost acts: seq<Act>)
      requires Valid() && forall k, id :: ClockFits(outcomes(k)(id).at)
      modifies this, spool
      ensures Valid() && spool.Entries() == map[]
      ensures AllowedRun(old(spool.Entries()), old(nextId), acts)
      ensures |acts| <= Potential(old(spool.Entries()))
    {
      hide FreshFrom, Queue, Potential, AllowedRun, AfterRun, BoundAfterRun, SoFar, ClockFits;
      ghost var q0, next0 := spool.Entries(), nextId;
      acts := [];
      NothingSoFar(q0, next0);
      FreshIsUnused(spool.disk, nextId);
      var k := 0;
      while Queue(spool.disk) != map[]
        invariant Valid() && SoFar(q0, next0, acts, spool.Entries(), nextId)
        decreases Potential(spool.Entries())
      {
        ghost var q, next := spool.Entries(), nextId;
        ghost var more := LatePass(outcomes(k));
        SoFarGrows(q0, next0, acts, q, next, more, nextId);
        acts := acts + more;
        k := k + 1;
      }
      SoFarIsRun(q0, next0, acts, spool.Entries(), nextId);
      RunSpends(q0, next0, acts);
    }
  }

  /** How many entries were due in these passes together. */
  ghost function Together(dues: seq<seq<Due>>): nat {
    if dues == [] then 0 else Together(dues[..|dues| - 1]) + |dues[|dues| - 1]|
  }

  /** How many of the passes found work. */
  ghost function Working(dues: seq<seq<Due>>): nat {
    if dues == [] then 0 else Working(dues[..|dues| - 1]) + if dues[|dues| - 1] == [] then 0 else 1
  }

  /** The acts so far are an allowed run from `q0` to `q`. */
  ghost predicate SoFar(q0: map<Id, Entry>, next0: Id, acts: seq<Act>, q: map<Id, Entry>, next: Id) {
    AllowedRun(q0, next0, acts) && q == AfterRun(q0, acts) && next >= BoundAfterRun(next0, acts)
  }

  lemma NothingSoFar(q: map<Id, Entry>, next: Id)
    ensures SoFar(q, next, [], q, next)
  {
  }

  lemma SoFarIsRun(q0: map<Id, Entry>, next0: Id, acts: seq<Act>, q: map<Id, Entry>, next: Id)
    requires SoFar(q0, next0, acts, q, next)
    ensures AllowedRun(q0, next0, acts) && q == AfterRun(q0, acts)
  {
  }

  lemma SoFarGrows(q0: map<Id, Entry>, next0: Id, acts: seq<Act>, q: map<Id, Entry>, next: Id, more: seq<Act>, next': Id)
    requires SoFar(q0, next0, acts, q, next) && AllowedRun(q, next, more) && next' >= BoundAfterRun(next, more)
    ensures SoFar(q0, next0, acts + more, AfterRun(q, more), next')
  {
    hide AllowedRun, AfterRun, BoundAfterRun;
    LowerBound(q, next, BoundAfterRun(next0, acts), more);
    RunsCompose(q0, next0, acts, more);
  }

  /** A time by which every queued entry is due. */
  method LatestRetry(q: map<Id, Entry>) returns (t: Time)
    ensures forall id :: id in q ==> q[id].nextAt <= t
  {
    t := 0;
    var ids := q.Keys;
    while ids != {}
      invariant ids <= q.Keys && forall id :: id in q && id !in ids ==> q[id].nextAt <= t
      decreases |ids|
    {
      var id :| id in ids;
      if q[id].nextAt > t { t := q[id].nextAt; }
      ids := ids - {id};
    }
  }

  /** One wake-up of the worker: the clock and the outcome for each entry. */
  datatype Pass = Pass(now: Time, outcomes: Id -> Outcome)

  /** A run allowed from a later id on is allowed from an earlier one. */
  lemma {:induction false} LowerBound(q: map<Id, Entry>, bound: Id, lower: Id, acts: seq<Act>)
    requires AllowedRun(q, bound, acts) && lower <= bound
    ensures AllowedRun(q, lower, acts) && BoundAfterRun(lower, acts) <= BoundAfterRun(bound, acts)
    decreases |acts|
  {
    hide ActOn;
    if acts != [] {
      LowerBound(ActOn(q, acts[0]), BoundAfter(bound, acts[0]), BoundAfter(lower, acts[0]), acts[1..]);
    }
  }

  // ----------------------------------------------------------- entries added at once

  /** The queue with these messages enqueued under the ids from `next` on; a record
      that cannot be read back stays invisible. */
  function Added(q: map<Id, Entry>, next: Id, messages: seq<Message>, now: Time): map<Id, Entry> {
    if messages == [] then q
    else
      var n := |messages| - 1;
      var before := Added(q, next, messages[..n], now);
      match ParseRecord(Render(messages[n].env, 0, now, now))
      case None => before
      case Some(e) => before[next + n := e]
  }

  lemma NothingAdded(q: map<Id, Entry>, next: Id, now: Time)
    ensures Added(q, next, [], now) == q
  {
  }

  lemma AddedNext(q: map<Id, Entry>, next: Id, messages: seq<Message>, i: nat, now: Time)
    requires i < |messages|
    ensures var before := Added(q, next, messages[..i], now);
            Added(q, next, messages[..i + 1], now)
            == match ParseRecord(Render(messages[i].env, 0, now, now))
               case None => before
               case Some(e) => before[next + i := e]
  {
    hide ParseRecord, Render;
    assert messages[..i + 1][..i] == messages[..i];
  }

  lemma AddedUpToOne(q: map<Id, Entry>, next: Id, messages: seq<Message>, now: Time)
    requires |messages| <= 1
    ensures Added(q, next, messages, now)
         == if messages == [] then q
            else match ParseRecord(Render(messages[0].env, 0, now, now))
                 case None => q
                 case Some(e) => q[next := e]
  {
    hide ParseRecord, Render;
    if messages != [] { assert messages[..0] == []; }
  }

  // ------------------------------------------------------------------ message files

  /** The files from `next` up to `next'` are new, and none of the older changed. */
  ghost predicate OldBodies(b: map<Id, Data>, next: Id, b': map<Id, Data>, next': Id) {
    && (forall id :: id in b' <==> id in b || next <= id < next')
    && (forall id :: id in b ==> b'[id] == b[id])
  }

  /** The messages stand in their files, from `next` on. */
  ghost predicate Written(b: map<Id, Data>, next: Id, messages: seq<Message>, b': map<Id, Data>) {
    && OldBodies(b, next, b', next + |messages|)
    && forall i :: 0 <= i < |messages| ==> b'[next + i] == messages[i].raw
  }

  lemma NothingWritten(b: map<Id, Data>, next: Id)
    ensures Written(b, next, [], b)
  {
  }

  lemma WrittenNext(b: map<Id, Data>, next: Id, messages: seq<Message>, i: nat, b': map<Id, Data>)
    requires i < |messages| && (forall id :: id in b ==> id < next) && Written(b, next, messages[..i], b')
    ensures Written(b, next, messages[..i + 1], b'[next + i := messages[i].raw])
  {
    assert forall k :: 0 <= k < i ==> messages[..i + 1][k] == messages[..i][k];
  }

  lemma FreshBodies(d: Disk, bound: Id)
    requires FreshFrom(d, bound)
    ensures forall id :: id in Bodies(d) ==> id < bound
  {
    assert forall id :: id in Bodies(d) ==> Eml(id) in d.main;
  }

  lemma WrittenVerbatim(message: Message, relay: seq<Mailbox>, entries: seq<Message>, keys: seq<string>,
                        b: map<Id, Data>, next: Id, b': map<Id, Data>)
    requires PerDomain(entries, message, relay, keys) && Written(b, next, entries, b')
    ensures OldBodies(b, next, b', next + |entries|) && forall id :: next <= id < next + |entries| ==> b'[id] == message.raw
  {
    hide Within;
    forall id | next <= id < next + |entries| ensures b'[id] == message.raw {
      var i := id - next;
      assert OneDomain(entries[i], message, relay, keys[i]) && b'[next + i] == entries[i].raw;
    }
  }

  /** A notification goes to a sender not hosted here. */
  ghost function NoticeBody(b: map<Id, Data>, hosted: set<string>, sender: Option<Mailbox>, notice: string, next: Id): map<Id, Data> {
    if sender.Some? && !IsLocal(hosted, sender.value) then b[next := notice] else b
  }

  /** The message files after one entry was handled: kept for another attempt if
      fewer than five were made, gone otherwise, with a notification if it bounced. */
  ghost function BodiesAfter(b: map<Id, Data>, hosted: set<string>, x: Due, o: Outcome, next: Id): map<Id, Data> {
    if !o.readable || o.report == Delivered then b - {x.id}
    else if o.report == Postponed && x.entry.attempts + 1 < 5 then b
    else NoticeBody(b, hosted, x.entry.sender, o.notice, next) - {x.id}
  }

  /** The message file of `id` is in `bounced/`, with these bytes. */
  ghost predicate Kept(d: Disk, id: Id, body: Data) {
    Eml(id) in d.bounced && d.bounced[Eml(id)] == body
  }

  /** No message file older than `next` was written to. */
  ghost predicate Untouched(b: map<Id, Data>, next: Id, b': map<Id, Data>) {
    forall id :: id in b' && id < next ==> id in b && b'[id] == b[id]
  }

  lemma HandlingWritesNothing(b: map<Id, Data>, next: Id, b1: map<Id, Data>, hosted: set<string>, x: Due, o: Outcome, next1: Id)
    requires Untouched(b, next, b1) && next <= next1
    ensures Untouched(b, next, BodiesAfter(b1, hosted, x, o, next1))
  {
    hide IsLocal;
  }

  lemma NoneTouched(b: map<Id, Data>, next: Id)
    ensures Untouched(b, next, b)
  {
  }

  lemma StillUntouched(b: map<Id, Data>, next: Id, b1: map<Id, Data>, next1: Id, b2: map<Id, Data>)
    requires Untouched(b, next, b1) && next <= next1 && Untouched(b1, next1, b2)
    ensures Untouched(b, next, b2)
  {
  }

  lemma NoticeIsWritten(b: map<Id, Data>, hosted: set<string>, sender: Mailbox, notice: string, next: Id, b': map<Id, Data>)
    requires OldBodies(b, next, b', if IsLocal(hosted, sender) then next else next + 1)
    requires (forall id :: id in b ==> id < next) && (!IsLocal(hosted, sender) ==> b'[next] == notice)
    ensures b' == NoticeBody(b, hosted, Some(sender), notice, next)
  {
    hide IsLocal;
  }

  lemma QueuedHasBody(d: Disk, id: Id)
    requires id in Queue(d)
    ensures Present(d, id) && id in Bodies(d) && Bodies(d)[id] == d.main[Eml(id)]
  {
    hide ParseRecord;
  }

  /** The entry made of a message whose mailboxes read back. */
  function FreshEntry(m: Message, now: Time): Entry {
    Entry(m.env.sender, m.env.recipients, 0, Truncated(now), Truncated(now))
  }

  /** Exactly these messages were added, each as it is, and nothing else changed. */
  ghost predicate Spooled(q: map<Id, Entry>, next: Id, messages: seq<Message>, now: Time, q': map<Id, Entry>) {
    && (forall id :: id in q' <==> id in q || next <= id < next + |messages|)
    && (forall id :: id in q ==> q'[id] == q[id])
    && (forall i :: 0 <= i < |messages| ==> q'[next + i] == FreshEntry(messages[i], now))
  }

  lemma SpooledNext(q: map<Id, Entry>, next: Id, messages: seq<Message>, now: Time, q': map<Id, Entry>)
    requires messages != [] && Below(q, next) && Spooled(q, next, messages[..|messages| - 1], now, q')
    ensures var n := |messages| - 1;
            Spooled(q, next, messages, now, q'[next + n := FreshEntry(messages[n], now)])
  {
    hide FreshEntry;
    var n := |messages| - 1;
    assert forall i :: 0 <= i < n ==> messages[..n][i] == messages[i];
  }

  lemma {:induction false} AddedIsSpooled(q: map<Id, Entry>, next: Id, messages: seq<Message>, now: Time)
    requires Below(q, next) && SecondsFit(now) && forall i :: 0 <= i < |messages| ==> StorableEnvelope(messages[i].env)
    ensures Spooled(q, next, messages, now, Added(q, next, messages, now))
    decreases |messages|
  {
    hide ParseRecord, Render, StorableEnvelope, SecondsFit, Below;
    if messages != [] {
      hide Spooled;
      var n := |messages| - 1;
      AddedIsSpooled(q, next, messages[..n], now);
      RecordRoundTrip(messages[n].env, 0, now, now);
      SpooledNext(q, next, messages, now, Added(q, next, messages[..n], now));
    }
  }

  /** What stands under the id of the i-th message: its record, if it can be read. */
  lemma {:induction false} AddedAt(q: map<Id, Entry>, next: Id, messages: seq<Message>, i: nat, now: Time)
    requires Below(q, next) && i < |messages|
    ensures var q' := Added(q, next, messages, now);
            ParseRecord(Render(messages[i].env, 0, now, now)) == if next + i in q' then Some(q'[next + i]) else None
    decreases |messages|
  {
    hide ParseRecord, Render;
    var n := |messages| - 1;
    if i < n {
      AddedAt(q, next, messages[..n], i, now);
    } else {
      NotYetAdded(q, next, messages[..n], next + n, now);
    }
  }

  lemma {:induction false} NotYetAdded(q: map<Id, Entry>, next: Id, messages: seq<Message>, id: Id, now: Time)
    requires Below(q, next) && id >= next + |messages|
    ensures id !in Added(q, next, messages, now)
    decreases |messages|
  {
    hide ParseRecord, Render;
    if messages != [] { NotYetAdded(q, next, messages[..|messages| - 1], id, now); }
  }

  /** Every message stands in the queue as it is, exactly if all can be read back. */
  lemma SpooledExactly(q: map<Id, Entry>, next: Id, messages: seq<Message>, now: Time)
    requires Below(q, next) && SecondsFit(now)
    ensures Spooled(q, next, messages, now, Added(q, next, messages, now))
       <==> forall i :: 0 <= i < |messages| ==> StorableEnvelope(messages[i].env)
  {
    hide ParseRecord, Render, StorableEnvelope, SecondsFit, Below, Added;
    if forall i :: 0 <= i < |messages| ==> StorableEnvelope(messages[i].env) {
      AddedIsSpooled(q, next, messages, now);
    }
    if Spooled(q, next, messages, now, Added(q, next, messages, now)) {
      forall i | 0 <= i < |messages| ensures StorableEnvelope(messages[i].env) {
        AddedAt(q, next, messages, i, now);
        RecordRoundTrip(messages[i].env, 0, now, now);
      }
    }
  }

  lemma {:induction false} WithinIsSome(recipients: seq<Mailbox>, keys: set<string>, m: Mailbox)
    ensures m in Within(recipients, keys) || m in Outside(recipients, keys) ==> m in recipients
  {
    if recipients != [] { WithinIsSome(recipients[..|recipients| - 1], keys, m); }
  }

  /** The entries of a storable message are storable. */
  lemma EntriesAreStorable(message: Message, hosted: set<string>, entries: seq<Message>, keys: seq<string>)
    requires StorableEnvelope(message.env) && PerDomain(entries, message, Outside(message.env.recipients, hosted), keys)
    ensures forall i :: 0 <= i < |entries| ==> StorableEnvelope(entries[i].env)
  {
    var relay := Outside(message.env.recipients, hosted);
    hide Storable, Within, Outside;
    forall i | 0 <= i < |entries| ensures StorableEnvelope(entries[i].env) {
      assert OneDomain(entries[i], message, relay, keys[i]);
      forall k | 0 <= k < |entries[i].env.recipients| ensures Storable(entries[i].env.recipients[k]) {
        WithinIsSome(relay, {keys[i]}, entries[i].env.recipients[k]);
        WithinIsSome(message.env.recipients, hosted, entries[i].env.recipients[k]);
      }
    }
  }

  // ------------------------------------------------------------- one pass, on values

  /** The acts taken so far: those the entries in `done` call for, and the run
      they make from `q0` to `q`. */
  ghost predicate Ran(q0: map<Id, Entry>, next0: Id, acts: seq<Act>, q: map<Id, Entry>, next: Id,
                      hosted: set<string>, done: seq<Due>, outcomes: Id -> Outcome)
  {
    && |acts| == |done| && (forall i :: 0 <= i < |done| ==> ActMatches(acts[i], hosted, done[i], outcomes(done[i].id)))
    && AllowedRun(q0, next0, acts) && q == AfterRun(q0, acts) && next >= BoundAfterRun(next0, acts)
  }

  /** Entries of the snapshot still to be handled: queued as they were. */
  ghost predicate Pending(q: map<Id, Entry>, due: seq<Due>) {
    Ascending(due) && forall i :: 0 <= i < |due| ==> due[i].id in q && q[due[i].id] == due[i].entry
  }

  /** The text an entry was read from. */
  ghost function ControlText(d: Disk, id: Id): (text: string)
    ensures id in Queue(d) ==> ParseRecord(text) == Some(Queue(d)[id])
  {
    if id in Queue(d) then d.main[Ctrl(id)] else []
  }

  lemma PassBegins(q0: map<Id, Entry>, next0: Id, hosted: set<string>, due: seq<Due>, outcomes: Id -> Outcome)
    requires Ascending(due) && forall x :: x in due ==> x.id in q0 && q0[x.id] == x.entry
    ensures Ran(q0, next0, [], q0, next0, hosted, due[..0], outcomes) && Pending(q0, due[0..])
  {
    assert due[0..] == due;
  }

  lemma PassSteps(q0: map<Id, Entry>, next0: Id, acts: seq<Act>, q: map<Id, Entry>, next: Id,
                  hosted: set<string>, due: seq<Due>, outcomes: Id -> Outcome, i: nat, text: string)
    requires i < |due| && Ran(q0, next0, acts, q, next, hosted, due[..i], outcomes) && Pending(q, due[i..])
    requires Below(q, next) && ClockFits(outcomes(due[i].id).at)
    requires due[i].id in q ==> ParseRecord(text) == Some(q[due[i].id])
    ensures due[i].id in q && q[due[i].id] == due[i].entry
    ensures var act := ActFor(hosted, due[i], outcomes(due[i].id), next);
            && Ran(q0, next0, acts + [act], ActOn(q, act), BoundAfter(next, act), hosted, due[..i + 1], outcomes)
            && Pending(ActOn(q, act), due[i + 1..])
  {
    var x, o := due[i], outcomes(due[i].id);
    var act := ActFor(hosted, x, o, next);
    assert due[i..][0] == x;
    PendingSteps(q, next, due[i..], hosted, o);
    assert due[i..][1..] == due[i + 1..];
    hide Pending, ActFor, ActOn, Allowed, Below, ParseRecord, ClockFits, ActMatches;
    RunGrows(q0, next0, acts, hosted, x, o, next, text);
    RanGrows(acts, act, hosted, due, outcomes, i);
  }

  lemma PendingSteps(q: map<Id, Entry>, next: Id, due: seq<Due>, hosted: set<string>, o: Outcome)
    requires due != [] && Pending(q, due) && Below(q, next)
    ensures Pending(ActOn(q, ActFor(hosted, due[0], o, next)), due[1..])
  {
    hide Rescheduled, NoticeRecord, IsLocal;
    ActLeavesOthers(q, next, ActFor(hosted, due[0], o, next));
    hide ActOn;
  }

  lemma RanGrows(acts: seq<Act>, act: Act, hosted: set<string>, due: seq<Due>, outcomes: Id -> Outcome, i: nat)
    requires |acts| == i < |due| && ActMatches(act, hosted, due[i], outcomes(due[i].id))
    requires forall j :: 0 <= j < i ==> ActMatches(acts[j], hosted, due[..i][j], outcomes(due[..i][j].id))
    ensures forall j :: 0 <= j < i + 1 ==> ActMatches((acts + [act])[j], hosted, due[..i + 1][j], outcomes(due[..i + 1][j].id))
  {
    hide ActMatches;
    forall j | 0 <= j < i + 1 ensures ActMatches((acts + [act])[j], hosted, due[..i + 1][j], outcomes(due[..i + 1][j].id)) {
      if j < i {
        assert due[..i][j] == due[j];
        assert ActMatches(acts[j], hosted, due[..i][j], outcomes(due[..i][j].id));
      }
    }
  }

  lemma RanLater(q0: map<Id, Entry>, next0: Id, acts: seq<Act>, q: map<Id, Entry>, next: Id, later: Id,
                 hosted: set<string>, done: seq<Due>, outcomes: Id -> Outcome)
    requires Ran(q0, next0, acts, q, next, hosted, done, outcomes) && next <= later
    ensures Ran(q0, next0, acts, q, later, hosted, done, outcomes)
  {
  }

  lemma PassEnds(q0: map<Id, Entry>, next0: Id, acts: seq<Act>, q: map<Id, Entry>, next: Id,
                 hosted: set<string>, due: seq<Due>, outcomes: Id -> Outcome)
    requires Ran(q0, next0, acts, q, next, hosted, due[..|due|], outcomes)
    ensures |acts| == |due| && forall i :: 0 <= i < |due| ==> ActMatches(acts[i], hosted, due[i], outcomes(due[i].id))
    ensures AllowedRun(q0, next0, acts) && q == AfterRun(q0, acts) && next >= BoundAfterRun(next0, acts)
  {
    assert due[..|due|] == due;
  }

  /** A notification makes one entry to its sender, or none if hosted here. */
  lemma NoticeRouting(hosted: set<string>, sender: Mailbox, raw: string, r: Accepted, keys: seq<string>)
    requires r.local == Within([sender], hosted) && r.relay == Outside([sender], hosted)
    requires PerDomain(r.entries, FailureDsn(sender, raw), r.relay, keys) && |r.entries| <= |r.relay|
    requires multiset(r.local) + multiset(Recipients(r.entries)) == multiset([sender])
    ensures |r.entries| == if IsLocal(hosted, sender) then 0 else 1
    ensures r.entries != [] ==> r.entries[0].env == Envelope(None, [sender])
  {
    DsnHasOneEntry(hosted, sender, raw, r.entries, keys);
    assert [sender][..0] == [];
    assert r.local == if IsLocal(hosted, sender) then [sender] else [];
    assert r.entries == [] ==> multiset(r.local) == multiset([sender]);
  }

  /** The act of an entry, whatever id its notification took. */
  ghost predicate ActMatches(a: Act, hosted: set<string>, x: Due, o: Outcome) {
    exists next: Id :: a == ActFor(hosted, x, o, next)
  }

  /** A defer rewrites the record; if it cannot be read back, the entry is hidden. */
  lemma DeferRewrites(d: Disk, id: Id, ctrl: Data)
    requires id in Queue(d)
    ensures Queue(Finish(d, id, Defer(0, ctrl)))
         == if ParseRecord(ctrl).Some? then Queue(d)[id := ParseRecord(ctrl).value] else Queue(d) - {id}
  {
    hide ParseRecord, Finish;
    DeferFiles(d, id, ctrl);
    FinishElsewhere(d, id, Defer(0, ctrl));
    QueueUpdate(d, Finish(d, id, Defer(0, ctrl)), id);
  }

  /** One more act on a run. */
  lemma RunGrows(q: map<Id, Entry>, bound: Id, acts: seq<Act>, hosted: set<string>, x: Due, o: Outcome, next: Id, text: string)
    requires AllowedRun(q, bound, acts) && next >= BoundAfterRun(bound, acts)
    requires x.id in AfterRun(q, acts) && AfterRun(q, acts)[x.id] == x.entry
    requires ParseRecord(text) == Some(x.entry) && ClockFits(o.at)
    ensures var act := ActFor(hosted, x, o, next);
            && AllowedRun(q, bound, acts + [act])
            && AfterRun(q, acts + [act]) == ActOn(AfterRun(q, acts), act)
            && BoundAfterRun(bound, acts + [act]) == BoundAfter(BoundAfterRun(bound, acts), act)
            && ActMatches(act, hosted, x, o)
  {
    hide ParseRecord, ActFor, Allowed, ActOn, BoundAfter, ClockFits;
    var act := ActFor(hosted, x, o, next);
    ActIsAllowed(AfterRun(q, acts), BoundAfterRun(bound, acts), hosted, x, o, next, text);
    assert AllowedRun(AfterRun(q, acts), BoundAfterRun(bound, acts), [act]) by {
      assert [act][1..] == [];
    }
    assert AfterRun(AfterRun(q, acts), [act]) == ActOn(AfterRun(q, acts), act) by {
      assert [act][1..] == [];
    }
    assert BoundAfterRun(BoundAfterRun(bound, acts), [act]) == BoundAfter(BoundAfterRun(bound, acts), act) by {
      assert [act][1..] == [];
    }
    RunsCompose(q, bound, acts, [act]);
  }

  /** An act leaves every other queued entry as it was. */
  lemma ActLeavesOthers(q: map<Id, Entry>, bound: Id, a: Act)
    requires Below(q, bound) && (a.Relay? && a.dsn.Some? ==> a.dsn.value.id >= bound)
    ensures forall id :: id in q && id != a.id ==> id in ActOn(q, a) && ActOn(q, a)[id] == q[id]
  {
  }
}
