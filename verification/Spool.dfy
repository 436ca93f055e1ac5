/**
 The outbound spool on disk. Every operation is a sequence of single file
 operations; the queue it stands for is a map from ids to entries.
 */
module Spool {
  import opened Text
  import opened Mailboxes
  import opened ControlRecord

  /** Queue ids, ordered as their zero-padded file names are. */
  type Id = nat

  /** File contents, one character per octet. */
  type Data = string

  datatype File = Eml(id: Id) | Ctrl(id: Id) | Bouncing(id: Id) | EmlTmp(id: Id) | CtrlTmp(id: Id)

  /** The spool directory and its `bounced/` subdirectory. */
  datatype Disk = Disk(main: map<File, Data>, bounced: map<File, Data>)

  datatype FileOp =
    | Write(file: File, data: Data)
    | Rename(from: File, to: File)
    | MoveToBounced(moved: File)
    | Remove(gone: File)

  /** One atomic file operation; moving or removing a missing file does nothing. */
  function Do(d: Disk, op: FileOp): Disk {
    match op
    case Write(f, data) => d.(main := d.main[f := data])
    case Rename(src, dst) => if src in d.main then d.(main := (d.main - {src})[dst := d.main[src]]) else d
    case MoveToBounced(f) => if f in d.main then Disk(d.main - {f}, d.bounced[f := d.main[f]]) else d
    case Remove(f) => d.(main := d.main - {f})
  }

  // --------------------------------------------------------------------- tasks

  /** An operation in progress: which one, and how far it has come. */
  datatype Task =
    | Enqueue(pc: nat, eml: Data, ctrl: Data)
    | Defer(pc: nat, ctrl: Data)
    | Discard(pc: nat)
    | Bounce(pc: nat)

  /** The next file operation of a task on entry `id`; `None` when it is done. */
  function NextOp(t: Task, id: Id): Option<FileOp> {
    match t
    case Enqueue(pc, eml, ctrl) =>
      if pc == 0 then Some(Write(EmlTmp(id), eml))
      else if pc == 1 then Some(Rename(EmlTmp(id), Eml(id)))
      else if pc == 2 then Some(Write(CtrlTmp(id), ctrl))
      else if pc == 3 then Some(Rename(CtrlTmp(id), Ctrl(id)))
      else None
    case Defer(pc, ctrl) =>
      if pc == 0 then Some(Write(CtrlTmp(id), ctrl))
      else if pc == 1 then Some(Rename(CtrlTmp(id), Ctrl(id)))
      else None
    case Discard(pc) =>
      if pc == 0 then Some(Remove(Eml(id)))
      else if pc == 1 then Some(Remove(Ctrl(id)))
      else None
    case Bounce(pc) =>
      if pc == 0 then Some(Write(Bouncing(id), []))
      else if pc == 1 then Some(MoveToBounced(Eml(id)))
      else if pc == 2 then Some(MoveToBounced(Ctrl(id)))
      else if pc == 3 then Some(Remove(Bouncing(id)))
      else None
  }

  /** Recovery resumes a bounce behind its marker. */
  const RESUMED: Task := Bounce(1)

  function Advance(t: Task): Task {
    t.(pc := t.pc + 1)
  }

  /** A task run to its end. */
  function Finish(d: Disk, id: Id, t: Task): Disk
    decreases 4 - t.pc
  {
    match NextOp(t, id)
    case None => d
    case Some(op) => Finish(Do(d, op), id, Advance(t))
  }

  // -------------------------------------------------------------------- queue

  /** `due_now`'s test apart from the clock: both files, no marker. */
  predicate Present(d: Disk, id: Id) {
    Ctrl(id) in d.main && Eml(id) in d.main && Bouncing(id) !in d.main
  }

  predicate Queued(d: Disk, id: Id) {
    Present(d, id) && ParseRecord(d.main[Ctrl(id)]).Some?
  }

  function CtrlIds(d: Disk): set<Id> {
    set f | f in d.main && f.Ctrl? :: f.id
  }

  /** The entries the relay worker can see. */
  function Queue(d: Disk): (q: map<Id, Entry>)
    ensures forall id :: id in q <==> Queued(d, id)
    ensures forall id :: id in q ==> Queued(d, id) && q[id] == ParseRecord(d.main[Ctrl(id)]).value
  {
    assert forall id :: Queued(d, id) ==> Ctrl(id) in d.main && Ctrl(id).Ctrl? && Ctrl(id).id == id;
    map id | id in CtrlIds(d) && Queued(d, id) :: ParseRecord(d.main[Ctrl(id)]).value
  }

  /** The message files: what is relayed for each id. */
  function Bodies(d: Disk): (r: map<Id, Data>)
    ensures forall id :: id in r <==> Eml(id) in d.main
    ensures forall id :: id in r ==> r[id] == d.main[Eml(id)]
  {
    assert forall id :: Eml(id) in d.main ==> Eml(id).Eml? && Eml(id).id == id;
    map id | id in (set f | f in d.main && f.Eml? :: f.id) :: d.main[Eml(id)]
  }

  function Markers(d: Disk): (r: set<Id>)
    ensures forall id :: id in r <==> Bouncing(id) in d.main
  {
    assert forall id :: Bouncing(id) in d.main ==> Bouncing(id).Bouncing? && Bouncing(id).id == id;
    set f | f in d.main && f.Bouncing? :: f.id
  }

  /** No file of `id` anywhere: a fresh id. */
  ghost predicate Unused(d: Disk, id: Id) {
    forall f: File :: f.id == id ==> f !in d.main && f !in d.bounced
  }

  // ------------------------------------------------------- one entry at a time

  ghost predicate SameFile(d: Disk, d': Disk, f: File) {
    && (f in d'.main <==> f in d.main) && (f in d.main ==> d'.main[f] == d.main[f])
    && (f in d'.bounced <==> f in d.bounced) && (f in d.bounced ==> d'.bounced[f] == d.bounced[f])
  }

  /** Nothing but the files of `id` differs. */
  ghost predicate SameElsewhere(d: Disk, d': Disk, id: Id) {
    forall f: File :: f.id != id ==> SameFile(d, d', f)
  }

  predicate Concerns(op: FileOp, id: Id) {
    match op
    case Write(f, _) => f.id == id
    case Rename(src, dst) => src.id == id && dst.id == id
    case MoveToBounced(f) => f.id == id
    case Remove(f) => f.id == id
  }

  lemma TasksStayHome(t: Task, id: Id)
    ensures NextOp(t, id).Some? ==> Concerns(NextOp(t, id).value, id)
  {
  }

  lemma DoElsewhere(d: Disk, op: FileOp, id: Id)
    requires Concerns(op, id)
    ensures SameElsewhere(d, Do(d, op), id)
  {
  }

  lemma {:induction false} FinishElsewhere(d: Disk, id: Id, t: Task)
    ensures SameElsewhere(d, Finish(d, id, t), id)
    decreases 4 - t.pc
  {
    hide Do, Concerns, SameFile;
    var op := NextOp(t, id);
    if op.Some? {
      TasksStayHome(t, id);
      DoElsewhere(d, op.value, id);
      FinishElsewhere(Do(d, op.value), id, Advance(t));
      Transitive(d, Do(d, op.value), Finish(d, id, t), id);
    } else {
      Reflexive(d, id);
    }
  }

  lemma Reflexive(d: Disk, id: Id)
    ensures SameElsewhere(d, d, id)
  {
  }

  lemma Transitive(d: Disk, d1: Disk, d2: Disk, id: Id)
    requires SameElsewhere(d, d1, id) && SameElsewhere(d1, d2, id)
    ensures SameElsewhere(d, d2, id)
  {
    forall f: File | f.id != id ensures SameFile(d, d2, f) {
      assert SameFile(d, d1, f) && SameFile(d1, d2, f);
    }
  }

  lemma QueuedElsewhere(d: Disk, d': Disk, id: Id, k: Id)
    requires SameElsewhere(d, d', id) && k != id
    ensures Queued(d', k) <==> Queued(d, k)
    ensures Queued(d, k) ==> d'.main[Ctrl(k)] == d.main[Ctrl(k)]
  {
    assert SameFile(d, d', Ctrl(k)) && SameFile(d, d', Eml(k)) && SameFile(d, d', Bouncing(k));
  }

  /** The queue after a change to one entry's files. */
  lemma QueueUpdate(d: Disk, d': Disk, id: Id)
    requires SameElsewhere(d, d', id)
    ensures Queue(d') == if Queued(d', id) then Queue(d)[id := ParseRecord(d'.main[Ctrl(id)]).value] else Queue(d) - {id}
  {
    hide ParseRecord, Queued;
    forall k: Id | k != id
      ensures Queued(d', k) <==> Queued(d, k)
      ensures Queued(d, k) ==> Queue(d')[k] == Queue(d)[k]
    {
      QueuedElsewhere(d, d', id, k);
    }
  }

  // ---------------------------------------------------- what finished tasks do

  /** The steps of a task, spelled out. */
  lemma EnqueueSteps(d: Disk, id: Id, eml: Data, ctrl: Data)
    ensures Finish(d, id, Enqueue(0, eml, ctrl))
         == Do(Do(Do(Do(d, Write(EmlTmp(id), eml)), Rename(EmlTmp(id), Eml(id))), Write(CtrlTmp(id), ctrl)), Rename(CtrlTmp(id), Ctrl(id)))
  {
    hide Do;
    var d1 := Do(d, Write(EmlTmp(id), eml));
    var d2 := Do(d1, Rename(EmlTmp(id), Eml(id)));
    var d3 := Do(d2, Write(CtrlTmp(id), ctrl));
    var d4 := Do(d3, Rename(CtrlTmp(id), Ctrl(id)));
    assert Finish(d4, id, Enqueue(4, eml, ctrl)) == d4;
    assert Finish(d3, id, Enqueue(3, eml, ctrl)) == d4;
    assert Finish(d2, id, Enqueue(2, eml, ctrl)) == d4;
    assert Finish(d1, id, Enqueue(1, eml, ctrl)) == d4;
  }

  lemma DeferSteps(d: Disk, id: Id, ctrl: Data)
    ensures Finish(d, id, Defer(0, ctrl)) == Do(Do(d, Write(CtrlTmp(id), ctrl)), Rename(CtrlTmp(id), Ctrl(id)))
  {
    hide Do;
    var d1 := Do(d, Write(CtrlTmp(id), ctrl));
    var d2 := Do(d1, Rename(CtrlTmp(id), Ctrl(id)));
    assert Finish(d2, id, Defer(2, ctrl)) == d2;
    assert Finish(d1, id, Defer(1, ctrl)) == d2;
  }

  lemma DiscardSteps(d: Disk, id: Id)
    ensures Finish(d, id, Discard(0)) == Do(Do(d, Remove(Eml(id))), Remove(Ctrl(id)))
  {
    hide Do;
    var d1 := Do(d, Remove(Eml(id)));
    var d2 := Do(d1, Remove(Ctrl(id)));
    assert Finish(d2, id, Discard(2)) == d2;
    assert Finish(d1, id, Discard(1)) == d2;
  }

  lemma BounceSteps(d: Disk, id: Id)
    ensures Finish(d, id, RESUMED)
         == Do(Do(Do(d, MoveToBounced(Eml(id))), MoveToBounced(Ctrl(id))), Remove(Bouncing(id)))
    ensures Finish(d, id, Bounce(0)) == Finish(Do(d, Write(Bouncing(id), [])), id, RESUMED)
  {
    hide Do;
    var d1 := Do(d, MoveToBounced(Eml(id)));
    var d2 := Do(d1, MoveToBounced(Ctrl(id)));
    var d3 := Do(d2, Remove(Bouncing(id)));
    assert Finish(d3, id, Bounce(4)) == d3;
    assert Finish(d2, id, Bounce(3)) == d3;
    assert Finish(d1, id, Bounce(2)) == d3;
  }

  lemma EnqueueFiles(d: Disk, id: Id, eml: Data, ctrl: Data)
    requires Unused(d, id)
    ensures var d' := Finish(d, id, Enqueue(0, eml, ctrl));
            Present(d', id) && d'.main[Eml(id)] == eml && d'.main[Ctrl(id)] == ctrl
  {
    hide Finish;
    EnqueueSteps(d, id, eml, ctrl);
    assert Bouncing(id) !in d.main;
  }

  lemma DeferFiles(d: Disk, id: Id, ctrl: Data)
    requires Present(d, id)
    ensures var d' := Finish(d, id, Defer(0, ctrl));
            Present(d', id) && d'.main[Eml(id)] == d.main[Eml(id)] && d'.main[Ctrl(id)] == ctrl
  {
    hide Finish;
    DeferSteps(d, id, ctrl);
  }

  lemma DiscardFiles(d: Disk, id: Id)
    ensures var d' := Finish(d, id, Discard(0)); Eml(id) !in d'.main && Ctrl(id) !in d'.main
  {
    hide Finish;
    DiscardSteps(d, id);
  }

  /** Both files of `id` are in `bounced/` if they were anywhere in the main
      directory, and the marker is gone. */
  ghost predicate Relocated(d: Disk, d': Disk, id: Id) {
    && Bouncing(id) !in d'.main && Eml(id) !in d'.main && Ctrl(id) !in d'.main
    && (Eml(id) in d.main ==> Eml(id) in d'.bounced && d'.bounced[Eml(id)] == d.main[Eml(id)])
    && (Ctrl(id) in d.main ==> Ctrl(id) in d'.bounced && d'.bounced[Ctrl(id)] == d.main[Ctrl(id)])
  }

  lemma ResumedFiles(d: Disk, id: Id)
    ensures Relocated(d, Finish(d, id, RESUMED), id)
  {
    hide Finish;
    BounceSteps(d, id);
  }

  lemma BounceFiles(d: Disk, id: Id, t: Task)
    requires t == Bounce(0) || t == RESUMED
    ensures Relocated(d, Finish(d, id, t), id)
  {
    hide Finish;
    BounceSteps(d, id);
    ResumedFiles(d, id);
    ResumedFiles(Do(d, Write(Bouncing(id), [])), id);
  }

  /** A finished enqueue makes the entry visible, with these contents. */
  lemma EnqueueAdds(d: Disk, id: Id, eml: Data, ctrl: Data)
    requires Unused(d, id)
    ensures var d' := Finish(d, id, Enqueue(0, eml, ctrl));
            && Present(d', id) && d'.main[Eml(id)] == eml && d'.main[Ctrl(id)] == ctrl
            && Queue(d') == if ParseRecord(ctrl).Some? then Queue(d)[id := ParseRecord(ctrl).value] else Queue(d) - {id}
  {
    hide ParseRecord, Finish, Unused;
    EnqueueFiles(d, id, eml, ctrl);
    FinishElsewhere(d, id, Enqueue(0, eml, ctrl));
    QueueUpdate(d, Finish(d, id, Enqueue(0, eml, ctrl)), id);
  }

  /** A finished defer replaces the record and nothing else. */
  lemma DeferReplaces(d: Disk, id: Id, ctrl: Data)
    requires id in Queue(d) && ParseRecord(ctrl).Some?
    ensures var d' := Finish(d, id, Defer(0, ctrl));
            && Present(d', id) && d'.main[Eml(id)] == d.main[Eml(id)]
            && Queue(d') == Queue(d)[id := ParseRecord(ctrl).value]
  {
    hide ParseRecord, Finish;
    DeferFiles(d, id, ctrl);
    FinishElsewhere(d, id, Defer(0, ctrl));
    QueueUpdate(d, Finish(d, id, Defer(0, ctrl)), id);
  }

  /** A finished removal takes the entry out of the queue. */
  lemma DiscardRemoves(d: Disk, id: Id)
    ensures Queue(Finish(d, id, Discard(0))) == Queue(d) - {id}
  {
    hide ParseRecord, Finish;
    DiscardFiles(d, id);
    FinishElsewhere(d, id, Discard(0));
    QueueUpdate(d, Finish(d, id, Discard(0)), id);
  }

  /** A bounce, whole or resumed, relocates both files and empties the place. */
  lemma BounceRemoves(d: Disk, id: Id, t: Task)
    requires t == Bounce(0) || t == RESUMED
    ensures Relocated(d, Finish(d, id, t), id) && Queue(Finish(d, id, t)) == Queue(d) - {id}
  {
    hide ParseRecord, Finish;
    BounceFiles(d, id, t);
    FinishElsewhere(d, id, t);
    QueueUpdate(d, Finish(d, id, t), id);
  }

  /** The message files after a change to one entry's files. */
  lemma BodiesUpdate(d: Disk, d': Disk, id: Id)
    requires SameElsewhere(d, d', id)
    ensures Bodies(d') == if Eml(id) in d'.main then Bodies(d)[id := d'.main[Eml(id)]] else Bodies(d) - {id}
  {
    forall k: Id | k != id ensures SameFile(d, d', Eml(k)) {
    }
  }

  /** Enqueueing adds a message file, deferring touches none, removing and bouncing
      take the entry's own away. */
  lemma FinishedBodies(d: Disk, id: Id, eml: Data, ctrl: Data)
    ensures Unused(d, id) ==> Bodies(Finish(d, id, Enqueue(0, eml, ctrl))) == Bodies(d)[id := eml]
    ensures Present(d, id) ==> Bodies(Finish(d, id, Defer(0, ctrl))) == Bodies(d)
    ensures Bodies(Finish(d, id, Discard(0))) == Bodies(d) - {id}
    ensures Bodies(Finish(d, id, Bounce(0))) == Bodies(d) - {id}
  {
    hide Finish, SameElsewhere, Unused;
    FinishElsewhere(d, id, Enqueue(0, eml, ctrl));
    BodiesUpdate(d, Finish(d, id, Enqueue(0, eml, ctrl)), id);
    if Unused(d, id) { EnqueueFiles(d, id, eml, ctrl); }
    FinishElsewhere(d, id, Defer(0, ctrl));
    BodiesUpdate(d, Finish(d, id, Defer(0, ctrl)), id);
    if Present(d, id) {
      DeferFiles(d, id, ctrl);
      assert Bodies(d)[id := Bodies(d)[id]] == Bodies(d);
    }
    FinishElsewhere(d, id, Discard(0));
    BodiesUpdate(d, Finish(d, id, Discard(0)), id);
    DiscardFiles(d, id);
    FinishElsewhere(d, id, Bounce(0));
    BodiesUpdate(d, Finish(d, id, Bounce(0)), id);
    BounceFiles(d, id, Bounce(0));
  }

  // ----------------------------------------------------------------- the spool

  datatype Due = Due(id: Id, entry: Entry)

  predicate Ascending(s: seq<Due>) {
    forall i, j :: 0 <= i < j < |s| ==> s[i].id < s[j].id
  }

  /** Insert in id order. */
  function Insert(s: seq<Due>, x: Due): (r: seq<Due>)
    requires Ascending(s) && forall i :: 0 <= i < |s| ==> s[i].id != x.id
    ensures Ascending(r)
    ensures forall y :: y in r <==> y in s || y == x
  {
    if s == [] then [x]
    else if x.id < s[0].id then [x] + s
    else
      var rest := Insert(s[1..], x);
      assert forall k :: 0 <= k < |rest| ==> rest[k] in rest;
      assert forall y :: y in s[1..] ==> s[0].id < y.id;
      [s[0]] + rest
  }

  class OutboundSpool {
    var disk: Disk

    ghost function Entries(): map<Id, Entry>
      reads this
    {
      Queue(disk)
    }

    constructor (disk: Disk)
      ensures this.disk == disk
    {
      this.disk := disk;
    }

    method Perform(op: FileOp)
      modifies this
      ensures disk == Do(old(disk), op)
    {
      disk := Do(disk, op);
    }

    /** `write_atomic`: a sibling temporary file, then a rename. */
    method WriteAtomic(tmp: File, file: File, data: Data)
      modifies this
      ensures disk == Do(Do(old(disk), Write(tmp, data)), Rename(tmp, file))
    {
      Perform(Write(tmp, data));
      Perform(Rename(tmp, file));
    }

    /** `enqueue`, with the fresh id and the clock as arguments. */
    method EnqueueMessage(id: Id, eml: Data, env: Envelope, now: Time)
      requires Unused(disk, id)
      modifies this
      ensures disk == Finish(old(disk), id, Enqueue(0, eml, Render(env, 0, now, now)))
      ensures StorableEnvelope(env) && SecondsFit(now) ==>
                Entries() == old(Entries())[id := Entry(env.sender, env.recipients, 0, Truncated(now), Truncated(now))]
    {
      hide Do, Render, ParseRecord, Queue, StorableEnvelope, SecondsFit, Truncated;
      var ctrl := RenderCtrl(env, 0, now, now);
      EnqueueSteps(disk, id, eml, ctrl);
      EnqueueAdds(disk, id, eml, ctrl);
      WriteAtomic(EmlTmp(id), Eml(id), eml);
      WriteAtomic(CtrlTmp(id), Ctrl(id), ctrl);
      if StorableEnvelope(env) && SecondsFit(now) {
        RecordRoundTrip(env, 0, now, now);
      }
    }

    /** `due_now`: exactly the queued entries whose time has come, in id order. */
    method DueNow(now: Time) returns (due: seq<Due>)
      ensures Ascending(due)
      ensures forall x :: x in due <==> x.id in Queue(disk) && Queue(disk)[x.id] == x.entry && x.entry.nextAt <= now
    {
      var queue := Queue(disk);
      var ids := queue.Keys;
      due := [];
      while ids != {}
        invariant ids <= queue.Keys && Ascending(due)
        invariant forall x :: x in due <==> x.id in queue && x.id !in ids && queue[x.id] == x.entry && x.entry.nextAt <= now
        decreases |ids|
      {
        var id :| id in ids;
        var entry := queue[id];
        if entry.nextAt <= now {
          assert forall i :: 0 <= i < |due| ==> due[i] in due;
          due := Insert(due, Due(id, entry));
        }
        ids := ids - {id};
      }
    }

    /** `defer`: fails on a missing or malformed record, else replaces it. */
    method DeferEntry(id: Id, attempts: nat, next: Time) returns (ok: bool)
      modifies this
      ensures ok <==> Ctrl(id) in old(disk).main && ParseRecord(old(disk).main[Ctrl(id)]).Some?
      ensures !ok ==> disk == old(disk)
      ensures ok ==> disk == Finish(old(disk), id, Defer(0, Deferred(old(disk).main[Ctrl(id)], Retry(attempts, next)).value))
    {
      hide Do, Render, ParseRecord, Queue;
      if Ctrl(id) !in disk.main { return false; }
      var entry := ParseCtrl(disk.main[Ctrl(id)]);
      if entry.None? { return false; }
      var e := entry.value;
      var ctrl := RenderCtrl(Envelope(e.sender, e.recipients), attempts, next, e.createdAt);
      DeferSteps(disk, id, ctrl);
      WriteAtomic(CtrlTmp(id), Ctrl(id), ctrl);
      ok := true;
    }

    /** `remove`. */
    method RemoveEntry(id: Id)
      modifies this
      ensures disk == Finish(old(disk), id, Discard(0))
      ensures Entries() == old(Entries()) - {id}
    {
      hide Do, Queue;
      DiscardSteps(disk, id);
      DiscardRemoves(disk, id);
      Perform(Remove(Eml(id)));
      Perform(Remove(Ctrl(id)));
    }

    /** `relocate_to_bounced` and the removal of the marker. */
    method Relocate(id: Id)
      modifies this
      ensures disk == Finish(old(disk), id, RESUMED)
    {
      hide Do;
      BounceSteps(disk, id);
      Perform(MoveToBounced(Eml(id)));
      Perform(MoveToBounced(Ctrl(id)));
      Perform(Remove(Bouncing(id)));
    }

    /** `bounce`. */
    method BounceEntry(id: Id)
      modifies this
      ensures disk == Finish(old(disk), id, Bounce(0))
      ensures Entries() == old(Entries()) - {id}
    {
      hide Do, Queue;
      BounceSteps(disk, id);
      BounceRemoves(disk, id, Bounce(0));
      Perform(Write(Bouncing(id), []));
      Relocate(id);
    }

    /** `open`: finish every interrupted bounce, in some order. No marker is left,
        the files of each marked entry are in `bounced/`, and what is queued is what
        was queued. */
    method Open() returns (ghost order: seq<Id>)
      modifies this
      ensures Lists(order, Markers(old(disk))) && disk == Recovered(old(disk), order)
      ensures Markers(disk) == {}
      ensures forall id :: id in Markers(old(disk)) ==> Relocated(old(disk), disk, id)
      ensures Entries() == old(Entries())
    {
      hide Queue, Markers, Finish, Do, Relocated, Recovered, Lists;
      var ids := Markers(disk);
      order := [];
      NothingRecovered(disk);
      while ids != {}
        invariant ids == Markers(disk) && ids <= old(Markers(disk))
        invariant disk == Recovered(old(disk), order) && Lists(order, old(Markers(disk)) - ids)
        invariant Queue(disk) == old(Queue(disk))
        decreases |ids|
      {
        var id :| id in ids;
        RecoverStep(disk, id);
        RecoveredSnoc(old(disk), order, id);
        ListsMore(order, old(Markers(disk)) - ids, id);
        assert old(Markers(disk)) - ids + {id} == old(Markers(disk)) - (ids - {id});
        Relocate(id);
        order := order + [id];
        ids := ids - {id};
      }
      assert old(Markers(disk)) - {} == old(Markers(disk));
      AllRelocated(old(disk), order, old(Markers(disk)));
    }
  }

  // ------------------------------------------------------------------- recovery

  /** Marked entries recovered one after the other. */
  function Recovered(d: Disk, order: seq<Id>): Disk {
    if order == [] then d else Finish(Recovered(d, order[..|order| - 1]), order[|order| - 1], RESUMED)
  }

  /** Each of `ids` once. */
  ghost predicate Lists(order: seq<Id>, ids: set<Id>) {
    && (forall i, j :: 0 <= i < j < |order| ==> order[i] != order[j])
    && (forall id :: id in order <==> id in ids)
  }

  lemma NothingRecovered(d: Disk)
    ensures Recovered(d, []) == d && Lists([], Markers(d) - Markers(d))
  {
  }

  lemma RecoveredSnoc(d: Disk, order: seq<Id>, id: Id)
    ensures Recovered(d, order + [id]) == Finish(Recovered(d, order), id, RESUMED)
  {
    assert (order + [id])[..|order|] == order;
  }

  lemma ListsMore(order: seq<Id>, ids: set<Id>, id: Id)
    requires Lists(order, ids) && id !in ids
    ensures Lists(order + [id], ids + {id})
  {
    var more := order + [id];
    forall i, j | 0 <= i < j < |more| ensures more[i] != more[j] {
      assert more[i] in order;
    }
  }

  lemma ListsFewer(order: seq<Id>, ids: set<Id>)
    requires Lists(order, ids) && order != []
    ensures Lists(order[..|order| - 1], ids - {order[|order| - 1]}) && order[|order| - 1] in ids
  {
    var n := |order| - 1;
    forall id ensures id in order[..n] <==> id in ids - {order[n]} {
      if id in ids - {order[n]} {
        var i :| 0 <= i < |order| && order[i] == id;
        assert order[..n][i] == id;
      }
    }
  }

  /** Recovery of other entries leaves an entry's files. */
  lemma {:induction false} RecoveredElsewhere(d: Disk, order: seq<Id>, f: File)
    requires f.id !in order
    ensures SameFile(d, Recovered(d, order), f)
  {
    hide Finish;
    if order != [] {
      var n := |order| - 1;
      RecoveredElsewhere(d, order[..n], f);
      FinishElsewhere(Recovered(d, order[..n]), order[n], RESUMED);
      assert SameFile(Recovered(d, order[..n]), Recovered(d, order), f);
    }
  }

  lemma RelocatedBetween(d: Disk, d1: Disk, d2: Disk, d3: Disk, id: Id)
    requires SameFile(d, d1, Eml(id)) && SameFile(d, d1, Ctrl(id)) && Relocated(d1, d2, id)
    requires SameFile(d2, d3, Eml(id)) && SameFile(d2, d3, Ctrl(id)) && SameFile(d2, d3, Bouncing(id))
    ensures Relocated(d, d3, id)
  {
  }

  lemma {:induction false} RecoveredRelocates(d: Disk, order: seq<Id>, ids: set<Id>, id: Id)
    requires Lists(order, ids) && id in ids
    ensures Relocated(d, Recovered(d, order), id)
    decreases |order|
  {
    hide Finish, SameFile, Relocated, Lists;
    assert order != [] by { ListsSome(order, ids, id); }
    var n := |order| - 1;
    var before, last := Recovered(d, order[..n]), order[n];
    var after := Finish(before, last, RESUMED);
    ListsFewer(order, ids);
    if id == last {
      assert id !in order[..n] by { ListsNot(order[..n], ids - {last}, id); }
      RecoveredElsewhere(d, order[..n], Eml(id));
      RecoveredElsewhere(d, order[..n], Ctrl(id));
      ResumedFiles(before, id);
      SameFiles(after, id);
      RelocatedBetween(d, before, after, after, id);
    } else {
      RecoveredRelocates(d, order[..n], ids - {last}, id);
      FinishElsewhere(before, last, RESUMED);
      SameFiles(d, id);
      RelocatedBetween(d, d, before, after, id);
    }
  }

  lemma SameFiles(d: Disk, id: Id)
    ensures SameFile(d, d, Eml(id)) && SameFile(d, d, Ctrl(id)) && SameFile(d, d, Bouncing(id))
  {
  }

  lemma ListsSome(order: seq<Id>, ids: set<Id>, id: Id)
    requires Lists(order, ids) && id in ids
    ensures order != []
  {
  }

  lemma ListsNothing(ids: set<Id>)
    requires Lists([], ids)
    ensures ids == {}
  {
  }

  lemma ListsNot(order: seq<Id>, ids: set<Id>, id: Id)
    requires Lists(order, ids) && id !in ids
    ensures id !in order
  {
  }

  lemma AllRelocated(d: Disk, order: seq<Id>, ids: set<Id>)
    requires Lists(order, ids)
    ensures forall id :: id in ids ==> Relocated(d, Recovered(d, order), id)
  {
    hide Relocated, Recovered, Lists;
    forall id | id in ids ensures Relocated(d, Recovered(d, order), id) {
      RecoveredRelocates(d, order, ids, id);
    }
  }

  /** Recovering some of the marked entries takes exactly their markers. */
  lemma {:induction false} RecoveredMarkers(d: Disk, order: seq<Id>, ids: set<Id>)
    requires Lists(order, ids) && ids <= Markers(d)
    ensures Markers(Recovered(d, order)) == Markers(d) - ids
    decreases |order|
  {
    hide Finish, Markers;
    if order == [] {
      ListsNothing(ids);
    } else {
      var n := |order| - 1;
      ListsFewer(order, ids);
      RecoveredMarkers(d, order[..n], ids - {order[n]});
      RecoverStep(Recovered(d, order[..n]), order[n]);
      assert Markers(d) - (ids - {order[n]}) - {order[n]} == Markers(d) - ids;
    }
  }

  /** Recovering one marked entry: the marker goes, the queue stays. */
  lemma RecoverStep(d: Disk, id: Id)
    requires id in Markers(d)
    ensures Queue(Finish(d, id, RESUMED)) == Queue(d)
    ensures Markers(Finish(d, id, RESUMED)) == Markers(d) - {id}
  {
    BounceRemoves(d, id, RESUMED);
    MarkedIsNotQueued(d, id);
    hide Queue, Markers, Finish, SameElsewhere;
    FinishElsewhere(d, id, RESUMED);
    MarkerGone(d, Finish(d, id, RESUMED), id);
  }

  lemma MarkedIsNotQueued(d: Disk, id: Id)
    requires id in Markers(d)
    ensures Queue(d) - {id} == Queue(d)
  {
    hide ParseRecord;
    assert id !in Queue(d);
  }

  lemma MarkerGone(d: Disk, d': Disk, id: Id)
    requires SameElsewhere(d, d', id) && Bouncing(id) !in d'.main
    ensures Markers(d') == Markers(d) - {id}
  {
    forall k: Id | k != id ensures Bouncing(k) in d'.main <==> Bouncing(k) in d.main {
      assert SameFile(d, d', Bouncing(k));
    }
  }
}
