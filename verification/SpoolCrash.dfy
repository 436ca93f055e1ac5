/**
 Crash safety of the spool. Any number of operations may be in flight, at most
 one per entry; the process can die, or an operation fail, between any two file
 operations, recovery included.
 */
module SpoolCrash {
  import opened Text
  import opened Decimal
  import opened Mailboxes
  import opened ControlRecord
  import opened Spool

  // --------------------------------------------------------------- the system

  /** What was handed to `enqueue`, and when. */
  datatype Origin = Origin(eml: Data, env: Envelope, now: Time)

  datatype Mode = Recovering | Running

  /** The disk, the operations in flight, and three facts of history: which
      enqueues completed, which removals and which bounces began. */
  datatype System = System(
    disk: Disk, mode: Mode, tasks: map<Id, Task>, origins: map<Id, Origin>,
    committed: set<Id>, removed: set<Id>, bounced: set<Id>)

  datatype Action =
    | BeginEnqueue(id: Id, origin: Origin)
    | BeginDefer(id: Id, retry: Retry)
    | BeginDiscard(id: Id)
    | BeginBounce(id: Id)
    | Step(id: Id)
    | Fail(id: Id)
    | Crash
    | Resume(id: Id)
    | Opened

  const INITIAL := System(Disk(map[], map[]), Running, map[], map[], {}, {}, {})

  ghost predicate Enabled(s: System, a: Action) {
    match a
    case BeginEnqueue(id, _) => s.mode == Running && id !in s.origins
    case BeginDefer(id, r) =>
      && s.mode == Running && id in s.committed && id !in s.tasks
      && Ctrl(id) in s.disk.main && ParseRecord(s.disk.main[Ctrl(id)]).Some?
      && r.attempts <= U32_MAX && SecondsFit(r.next)
    case BeginDiscard(id) => s.mode == Running && id in s.committed && id !in s.tasks
    case BeginBounce(id) => s.mode == Running && id in s.committed && id !in s.tasks
    case Step(id) => id in s.tasks && NextOp(s.tasks[id], id).Some?
    case Fail(id) => s.mode == Running && id in s.tasks
    case Crash => true
    case Resume(id) => s.mode == Recovering && id !in s.tasks && Bouncing(id) in s.disk.main
    case Opened => s.mode == Recovering && s.tasks == map[] && Markers(s.disk) == {}
  }

  ghost function Apply(s: System, a: Action): System
    requires Enabled(s, a)
  {
    match a
    case BeginEnqueue(id, o) =>
      s.(origins := s.origins[id := o], tasks := s.tasks[id := Enqueue(0, o.eml, FirstRecord(o))])
    case BeginDefer(id, r) =>
      s.(tasks := s.tasks[id := Defer(0, Deferred(s.disk.main[Ctrl(id)], r).value)])
    case BeginDiscard(id) => s.(tasks := s.tasks[id := Discard(0)])
    case BeginBounce(id) => s.(tasks := s.tasks[id := Bounce(0)])
    case Step(id) => Stepped(s, id)
    case Fail(id) => s.(tasks := s.tasks - {id})
    case Crash => s.(tasks := map[], mode := Recovering)
    case Resume(id) => s.(tasks := s.tasks[id := RESUMED])
    case Opened => s.(mode := Running)
  }

  /** One file operation, with its entry in the history. */
  ghost function Stepped(s: System, id: Id): System
    requires id in s.tasks && NextOp(s.tasks[id], id).Some?
  {
    var t := s.tasks[id];
    var op := NextOp(t, id).value;
    s.(disk := Do(s.disk, op),
       tasks := if NextOp(Advance(t), id).None? then s.tasks - {id} else s.tasks[id := Advance(t)],
       committed := if op == Rename(CtrlTmp(id), Ctrl(id)) then s.committed + {id} else s.committed,
       removed := if op == Remove(Eml(id)) then s.removed + {id} else s.removed,
       bounced := if op.Write? && op.file == Bouncing(id) then s.bounced + {id} else s.bounced)
  }

  function FirstRecord(o: Origin): Data {
    Render(o.env, 0, o.now, o.now)
  }

  /** Every action of the run is enabled when it is taken. */
  ghost predicate Legal(s: System, run: seq<Action>)
    decreases |run|
  {
    run != [] ==> Enabled(s, run[0]) && Legal(Apply(s, run[0]), run[1..])
  }

  ghost function After(s: System, run: seq<Action>): System
    requires Legal(s, run)
    decreases |run|
  {
    if run == [] then s else After(Apply(s, run[0]), run[1..])
  }

  // ------------------------------------------------------- one entry's view

  datatype Slot = Slot(
    eml: Option<Data>, ctrl: Option<Data>, marker: Option<Data>, emlTmp: Option<Data>, ctrlTmp: Option<Data>,
    bouncedEml: Option<Data>, bouncedCtrl: Option<Data>)

  const EMPTY := Slot(None, None, None, None, None, None, None)

  function Read(m: map<File, Data>, f: File): Option<Data> {
    if f in m then Some(m[f]) else None
  }

  function SlotOf(d: Disk, id: Id): Slot {
    Slot(Read(d.main, Eml(id)), Read(d.main, Ctrl(id)), Read(d.main, Bouncing(id)),
         Read(d.main, EmlTmp(id)), Read(d.main, CtrlTmp(id)),
         Read(d.bounced, Eml(id)), Read(d.bounced, Ctrl(id)))
  }

  /** A task's next operation, as it acts on the entry's own files. */
  function SlotStep(slot: Slot, t: Task): Slot {
    match t
    case Enqueue(pc, eml, ctrl) =>
      if pc == 0 then slot.(emlTmp := Some(eml))
      else if pc == 1 then (if slot.emlTmp.Some? then slot.(emlTmp := None, eml := slot.emlTmp) else slot)
      else if pc == 2 then slot.(ctrlTmp := Some(ctrl))
      else (if slot.ctrlTmp.Some? then slot.(ctrlTmp := None, ctrl := slot.ctrlTmp) else slot)
    case Defer(pc, ctrl) =>
      if pc == 0 then slot.(ctrlTmp := Some(ctrl))
      else (if slot.ctrlTmp.Some? then slot.(ctrlTmp := None, ctrl := slot.ctrlTmp) else slot)
    case Discard(pc) =>
      if pc == 0 then slot.(eml := None) else slot.(ctrl := None)
    case Bounce(pc) =>
      if pc == 0 then slot.(marker := Some([]))
      else if pc == 1 then (if slot.eml.Some? then slot.(eml := None, bouncedEml := slot.eml) else slot)
      else if pc == 2 then (if slot.ctrl.Some? then slot.(ctrl := None, bouncedCtrl := slot.ctrl) else slot)
      else slot.(marker := None)
  }

  lemma SlotOfWrite(d: Disk, id: Id, f: File, data: Data)
    requires f.id == id
    ensures SlotOf(Do(d, Write(f, data)), id)
         == match f
            case Eml(_) => SlotOf(d, id).(eml := Some(data))
            case Ctrl(_) => SlotOf(d, id).(ctrl := Some(data))
            case Bouncing(_) => SlotOf(d, id).(marker := Some(data))
            case EmlTmp(_) => SlotOf(d, id).(emlTmp := Some(data))
            case CtrlTmp(_) => SlotOf(d, id).(ctrlTmp := Some(data))
  {
  }

  lemma SlotOfPublish(d: Disk, id: Id)
    ensures var slot := SlotOf(d, id);
            && SlotOf(Do(d, Rename(EmlTmp(id), Eml(id))), id)
               == (if slot.emlTmp.Some? then slot.(emlTmp := None, eml := slot.emlTmp) else slot)
            && SlotOf(Do(d, Rename(CtrlTmp(id), Ctrl(id))), id)
               == (if slot.ctrlTmp.Some? then slot.(ctrlTmp := None, ctrl := slot.ctrlTmp) else slot)
  {
  }

  lemma SlotOfRemove(d: Disk, id: Id)
    ensures SlotOf(Do(d, Remove(Eml(id))), id) == SlotOf(d, id).(eml := None)
    ensures SlotOf(Do(d, Remove(Ctrl(id))), id) == SlotOf(d, id).(ctrl := None)
    ensures SlotOf(Do(d, Remove(Bouncing(id))), id) == SlotOf(d, id).(marker := None)
  {
  }

  lemma SlotOfMove(d: Disk, id: Id)
    ensures var slot := SlotOf(d, id);
            && SlotOf(Do(d, MoveToBounced(Eml(id))), id)
               == (if slot.eml.Some? then slot.(eml := None, bouncedEml := slot.eml) else slot)
            && SlotOf(Do(d, MoveToBounced(Ctrl(id))), id)
               == (if slot.ctrl.Some? then slot.(ctrl := None, bouncedCtrl := slot.ctrl) else slot)
  {
  }

  lemma SlotOfStep(d: Disk, id: Id, t: Task)
    requires NextOp(t, id).Some?
    ensures SlotOf(Do(d, NextOp(t, id).value), id) == SlotStep(SlotOf(d, id), t)
  {
    hide Do, SlotOf;
    SlotOfPublish(d, id);
    SlotOfRemove(d, id);
    SlotOfMove(d, id);
    match t
    case Enqueue(pc, eml, ctrl) =>
      SlotOfWrite(d, id, EmlTmp(id), eml);
      SlotOfWrite(d, id, CtrlTmp(id), ctrl);
    case Defer(pc, ctrl) =>
      SlotOfWrite(d, id, CtrlTmp(id), ctrl);
    case Discard(pc) =>
    case Bounce(pc) =>
      SlotOfWrite(d, id, Bouncing(id), []);
  }

  lemma SlotElsewhere(d: Disk, id: Id, t: Task, k: Id)
    requires NextOp(t, id).Some? && k != id
    ensures SlotOf(Do(d, NextOp(t, id).value), k) == SlotOf(d, k)
  {
    hide NextOp, Do;
    TasksStayHome(t, id);
    var d' := Do(d, NextOp(t, id).value);
    DoElsewhere(d, NextOp(t, id).value, id);
    assert SameFile(d, d', Eml(k)) && SameFile(d, d', Ctrl(k)) && SameFile(d, d', Bouncing(k));
    assert SameFile(d, d', EmlTmp(k)) && SameFile(d, d', CtrlTmp(k));
  }

  // ---------------------------------------------------------------- invariant

  /** The record still tells what was enqueued. */
  ghost predicate Faithful(o: Origin, text: Data) {
    Readable(o) ==>
      && ParseRecord(text).Some?
      && ParseRecord(text).value.sender == o.env.sender
      && ParseRecord(text).value.recipients == o.env.recipients
      && ParseRecord(text).value.createdAt == Truncated(o.now)
  }

  ghost predicate AtMain(slot: Slot, o: Origin) {
    && slot.eml == Some(o.eml) && slot.bouncedEml == None && slot.bouncedCtrl == None
    && slot.ctrl.Some? && Faithful(o, slot.ctrl.value)
  }

  ghost predicate Split(slot: Slot, o: Origin) {
    && slot.marker.Some? && slot.eml == None && slot.bouncedEml == Some(o.eml) && slot.bouncedCtrl == None
    && slot.ctrl.Some? && Faithful(o, slot.ctrl.value)
  }

  ghost predicate AtBounced(slot: Slot, o: Origin) {
    && slot.eml == None && slot.ctrl == None && slot.bouncedEml == Some(o.eml)
    && slot.bouncedCtrl.Some? && Faithful(o, slot.bouncedCtrl.value)
  }

  /** One entry's files, its operation in flight and its history. */
  datatype Local =
    Local(slot: Slot, task: Option<Task>, origin: Option<Origin>, committed: bool, removed: bool, bounced: bool)

  ghost function LocalOf(s: System, id: Id): Local {
    Local(SlotOf(s.disk, id),
          if id in s.tasks then Some(s.tasks[id]) else None,
          if id in s.origins then Some(s.origins[id]) else None,
          id in s.committed, id in s.removed, id in s.bounced)
  }

  /** What an unfinished enqueue has achieved. */
  ghost predicate EnqueueAt(slot: Slot, o: Origin, t: Task) {
    && t.Enqueue? && t.pc <= 3 && t.eml == o.eml && t.ctrl == FirstRecord(o)
    && (t.pc == 1 ==> slot.emlTmp == Some(o.eml))
    && (t.pc >= 2 ==> slot.eml == Some(o.eml))
    && (t.pc == 3 ==> slot.ctrlTmp == Some(t.ctrl))
  }

  /** What an operation on a committed entry has achieved. */
  ghost predicate TaskAt(slot: Slot, o: Origin, t: Task, removed: bool, bounced: bool) {
    match t
    case Enqueue(_, _, _) => false
    case Defer(pc, text) => pc <= 1 && Faithful(o, text) && slot.ctrl.Some? && (pc == 1 ==> slot.ctrlTmp == Some(text))
    case Discard(pc) => pc <= 1 && (pc == 1 ==> removed)
    case Bounce(pc) =>
      && pc <= 3
      && (pc >= 1 ==> slot.marker.Some? && bounced)
      && (pc >= 2 ==> slot.eml == None)
      && (pc >= 3 ==> slot.ctrl == None)
  }

  ghost predicate Good(l: Local) {
    && (l.slot.marker.Some? ==> l.bounced)
    && (l.removed || l.bounced ==> l.committed)
    && (l.committed ==> l.origin.Some?)
    && (l.origin.None? ==> l.slot == EMPTY && l.task == None)
    && (l.origin.Some? && !l.committed ==>
          && l.slot.ctrl == None && l.slot.bouncedEml == None && l.slot.bouncedCtrl == None
          && (l.task.Some? ==> EnqueueAt(l.slot, l.origin.value, l.task.value)))
    && (l.committed && l.task.Some? ==> TaskAt(l.slot, l.origin.value, l.task.value, l.removed, l.bounced))
    && (l.committed && l.slot.ctrl.Some? ==> Faithful(l.origin.value, l.slot.ctrl.value))
    && (l.bounced ==> l.slot.marker.Some? || l.slot.ctrl == None)
    && (l.removed ==> l.slot.eml == None)
    && (l.committed && !l.removed ==>
          || AtMain(l.slot, l.origin.value)
          || (l.bounced && (Split(l.slot, l.origin.value) || AtBounced(l.slot, l.origin.value))))
  }

  ghost predicate Inv(s: System) {
    forall id :: Good(LocalOf(s, id))
  }

  // ---------------------------------------------------------- records stay true

  lemma FirstRecordIsFaithful(o: Origin)
    ensures Faithful(o, FirstRecord(o))
  {
    hide Render, ParseRecord, StorableEnvelope;
    if StorableEnvelope(o.env) && SecondsFit(o.now) {
      RecordRoundTrip(o.env, 0, o.now, o.now);
    }
  }

  lemma DeferredIsFaithful(o: Origin, text: Data, r: Retry)
    requires Faithful(o, text) && ParseRecord(text).Some?
    requires r.attempts <= U32_MAX && SecondsFit(r.next)
    ensures Faithful(o, Deferred(text, r).value)
  {
    hide Render, ParseRecord, StorableEnvelope, Truncated;
    if StorableEnvelope(o.env) && SecondsFit(o.now) {
      TruncatedTwice(o.now);
      assert Envelope(o.env.sender, o.env.recipients) == o.env;
      RecordRoundTrip(o.env, r.attempts, r.next, Truncated(o.now));
    }
  }

  // ------------------------------------------------------------- preservation

  ghost function LocalStep(l: Local): Local
    requires l.task.Some? && NextOp(l.task.value, 0).Some?
  {
    var t := l.task.value;
    l.(slot := SlotStep(l.slot, t),
       task := if NextOp(Advance(t), 0).None? then None else Some(Advance(t)),
       committed := l.committed || (t.Enqueue? && t.pc == 3) || (t.Defer? && t.pc == 1),
       removed := l.removed || (t.Discard? && t.pc == 0),
       bounced := l.bounced || (t.Bounce? && t.pc == 0))
  }

  lemma StepIsLocal(s: System, id: Id)
    requires id in s.tasks && NextOp(s.tasks[id], id).Some?
    ensures NextOp(s.tasks[id], 0).Some?
    ensures LocalOf(Stepped(s, id), id) == LocalStep(LocalOf(s, id))
    ensures forall k :: k != id ==> LocalOf(Stepped(s, id), k) == LocalOf(s, k)
  {
    hide Do, SlotStep, SlotOf;
    SlotOfStep(s.disk, id, s.tasks[id]);
    forall k: Id | k != id ensures LocalOf(Stepped(s, id), k) == LocalOf(s, k) {
      SlotElsewhere(s.disk, id, s.tasks[id], k);
    }
  }

  lemma EnqueueStepGood(l: Local)
    requires Good(l) && l.task.Some? && l.task.value.Enqueue? && NextOp(l.task.value, 0).Some?
    ensures Good(LocalStep(l))
  {
    FirstRecordIsFaithful(l.origin.value);
    hide Faithful;
  }

  lemma TaskStepGood(l: Local)
    requires Good(l) && l.task.Some? && !l.task.value.Enqueue? && NextOp(l.task.value, 0).Some?
    ensures Good(LocalStep(l))
  {
    hide Faithful;
  }

  /** A file operation keeps the invariant. */
  lemma StepKeepsInv(s: System, id: Id)
    requires Inv(s) && id in s.tasks && NextOp(s.tasks[id], id).Some?
    ensures Inv(Stepped(s, id))
  {
    StepIsLocal(s, id);
    var l := LocalOf(s, id);
    hide Stepped, LocalStep, Good;
    if l.task.value.Enqueue? { EnqueueStepGood(l); } else { TaskStepGood(l); }
    forall k: Id ensures Good(LocalOf(Stepped(s, id), k)) {
    }
  }

  /** Starting an operation keeps the invariant. */
  lemma BeginKeepsInv(s: System, a: Action)
    requires Inv(s) && Enabled(s, a) && (a.BeginEnqueue? || a.BeginDefer? || a.BeginDiscard? || a.BeginBounce? || a.Resume?)
    ensures Inv(Apply(s, a))
  {
    hide ParseRecord, Render;
    assert Good(LocalOf(s, a.id));
    if a.BeginDefer? {
      DeferredIsFaithful(s.origins[a.id], s.disk.main[Ctrl(a.id)], a.retry);
    }
    hide Faithful, Deferred;
    forall k: Id ensures Good(LocalOf(Apply(s, a), k)) {
      assert Good(LocalOf(s, k));
    }
  }

  /** An abandoned operation keeps the invariant. */
  lemma DropKeepsInv(s: System, a: Action)
    requires Inv(s) && Enabled(s, a) && (a.Fail? || a.Crash? || a.Opened?)
    ensures Inv(Apply(s, a))
  {
    hide Faithful, ParseRecord;
    forall k: Id ensures Good(LocalOf(Apply(s, a), k)) {
      assert Good(LocalOf(s, k));
    }
  }

  lemma ApplyKeepsInv(s: System, a: Action)
    requires Inv(s) && Enabled(s, a)
    ensures Inv(Apply(s, a))
  {
    hide Inv, Stepped;
    if a.Step? { StepKeepsInv(s, a.id); }
    else if a.Fail? || a.Crash? || a.Opened? { DropKeepsInv(s, a); }
    else { BeginKeepsInv(s, a); }
  }

  /** Every reachable state satisfies the invariant. */
  lemma {:induction false} RunKeepsInv(s: System, run: seq<Action>)
    requires Inv(s) && Legal(s, run)
    ensures Inv(After(s, run))
    decreases |run|
  {
    hide Inv, Enabled, Apply;
    if run != [] {
      ApplyKeepsInv(s, run[0]);
      RunKeepsInv(Apply(s, run[0]), run[1..]);
    }
  }

  lemma InitialInv()
    ensures Inv(INITIAL)
  {
  }

  // ------------------------------------------------------------ the guarantees

  /** Both files in exactly one of the two directories, with the bytes and the
      envelope that were enqueued. */
  ghost predicate Together(d: Disk, id: Id, o: Origin) {
    var home := if Eml(id) in d.main then d.main else d.bounced;
    var other := if Eml(id) in d.main then d.bounced else d.main;
    && Eml(id) in home && Ctrl(id) in home && Eml(id) !in other && Ctrl(id) !in other
    && home[Eml(id)] == o.eml && Faithful(o, home[Ctrl(id)])
  }

  lemma GoodIsTogether(l: Local)
    requires Good(l) && l.committed && !l.removed && l.slot.marker == None
    ensures AtMain(l.slot, l.origin.value) || AtBounced(l.slot, l.origin.value)
  {
  }

  /** In every reachable state, an entry whose removal had not begun and whose
      bounce is not marked as under way is whole. */
  lemma CrashSafety(run: seq<Action>, id: Id)
    requires Legal(INITIAL, run)
    ensures var s := After(INITIAL, run);
            id in s.committed && id !in s.removed && Bouncing(id) !in s.disk.main ==>
              id in s.origins && Together(s.disk, id, s.origins[id])
  {
    InitialInv();
    RunKeepsInv(INITIAL, run);
    var s := After(INITIAL, run);
    hide Legal, After, Faithful;
    assert Good(LocalOf(s, id));
    if id in s.committed && id !in s.removed && Bouncing(id) !in s.disk.main {
      GoodIsTogether(LocalOf(s, id));
    }
  }

  // ----------------------------------------------------------- recovery as a run

  lemma {:induction false} RunsCompose(s: System, a: seq<Action>, b: seq<Action>)
    requires Legal(s, a) && Legal(After(s, a), b)
    ensures Legal(s, a + b) && After(s, a + b) == After(After(s, a), b)
    decreases |a|
  {
    hide Enabled, Apply;
    if a == [] {
      assert a + b == b;
    } else {
      RunsCompose(Apply(s, a[0]), a[1..], b);
      assert (a + b)[0] == a[0] && (a + b)[1..] == a[1..] + b;
    }
  }

  lemma {:induction false} RunsSplit(s: System, a: seq<Action>, b: seq<Action>)
    requires Legal(s, a + b)
    ensures Legal(s, a) && Legal(After(s, a), b) && After(s, a + b) == After(After(s, a), b)
    decreases |a|
  {
    hide Enabled, Apply;
    if a == [] {
      assert a + b == b;
    } else {
      assert (a + b)[0] == a[0] && (a + b)[1..] == a[1..] + b;
      RunsSplit(Apply(s, a[0]), a[1..], b);
    }
  }

  lemma OneAction(s: System, a: Action)
    requires Enabled(s, a)
    ensures Legal(s, [a]) && After(s, [a]) == Apply(s, a)
  {
    hide Enabled, Apply;
    assert [a][1..] == [];
  }

  lemma TwoActions(s: System, a: Action, b: Action)
    requires Enabled(s, a) && Enabled(Apply(s, a), b)
    ensures Legal(s, [a, b]) && After(s, [a, b]) == Apply(Apply(s, a), b)
  {
    hide Enabled, Apply;
    OneAction(s, a);
    OneAction(Apply(s, a), b);
    hide Legal, After;
    RunsCompose(s, [a], [b]);
    assert [a] + [b] == [a, b];
  }

  /** Nothing in flight before the process is up. */
  ghost predicate Idle(s: System) {
    s.mode == Recovering && s.tasks == map[]
  }

  function RecoverOne(id: Id): seq<Action> {
    [Resume(id), Step(id)] + [Step(id), Step(id)]
  }

  /** The system during a resumed bounce. */
  ghost function Resuming(s: System, id: Id, d: Disk, pc: nat): System {
    s.(disk := d, tasks := map[id := Bounce(pc)])
  }

  lemma ResumeStep(s: System, id: Id, d: Disk, pc: nat)
    requires Idle(s) && (pc == 1 || pc == 2)
    ensures var r := Resuming(s, id, d, pc);
            Enabled(r, Step(id)) && Apply(r, Step(id)) == Resuming(s, id, Do(d, NextOp(Bounce(pc), id).value), pc + 1)
  {
    hide Do;
    assert map[id := Bounce(pc)][id := Bounce(pc + 1)] == map[id := Bounce(pc + 1)];
  }

  lemma ResumeEnds(s: System, id: Id, d: Disk)
    requires Idle(s)
    ensures var r := Resuming(s, id, d, 3);
            Enabled(r, Step(id)) && Apply(r, Step(id)) == s.(disk := Do(d, Remove(Bouncing(id))))
  {
    hide Do;
    assert map[id := Bounce(3)] - {id} == map[];
  }

  /** Recovering one marked entry is four actions. */
  lemma RecoverOneIsRun(s: System, id: Id)
    requires Idle(s) && Bouncing(id) in s.disk.main
    ensures Legal(s, RecoverOne(id)) && After(s, RecoverOne(id)) == s.(disk := Finish(s.disk, id, RESUMED))
  {
    var d1 := Do(s.disk, MoveToBounced(Eml(id)));
    var d2 := Do(d1, MoveToBounced(Ctrl(id)));
    BounceSteps(s.disk, id);
    hide Do, Finish, Legal, After;
    assert Enabled(s, Resume(id)) && Apply(s, Resume(id)) == Resuming(s, id, s.disk, 1);
    ResumeStep(s, id, s.disk, 1);
    ResumeStep(s, id, d1, 2);
    ResumeEnds(s, id, d2);
    hide Enabled, Apply, Resuming;
    TwoActions(s, Resume(id), Step(id));
    TwoActions(Resuming(s, id, d1, 2), Step(id), Step(id));
    RunsCompose(s, [Resume(id), Step(id)], [Step(id), Step(id)]);
  }

  function RecoveryRun(order: seq<Id>): seq<Action> {
    if order == [] then [] else RecoveryRun(order[..|order| - 1]) + RecoverOne(order[|order| - 1])
  }

  /** What `open` does to the disk is a legal run of the system. */
  lemma {:induction false} RecoveryIsRun(s: System, order: seq<Id>, ids: set<Id>)
    requires Idle(s) && Lists(order, ids) && ids <= Markers(s.disk)
    ensures Legal(s, RecoveryRun(order)) && After(s, RecoveryRun(order)) == s.(disk := Recovered(s.disk, order))
    decreases |order|
  {
    hide Lists, Finish, Legal, After, Markers;
    if order == [] {
      NoActions(s);
    } else {
      var n := |order| - 1;
      var mid := s.(disk := Recovered(s.disk, order[..n]));
      ListsFewer(order, ids);
      RecoveryIsRun(s, order[..n], ids - {order[n]});
      RecoveredMarkers(s.disk, order[..n], ids - {order[n]});
      assert order[n] in Markers(mid.disk);
      RecoverOneIsRun(mid, order[n]);
      RunsCompose(s, RecoveryRun(order[..n]), RecoverOne(order[n]));
    }
  }

  lemma NoActions(s: System)
    ensures Legal(s, []) && After(s, []) == s
  {
  }

  ghost predicate EndsInCrash(run: seq<Action>) {
    run != [] && run[|run| - 1] == Crash
  }

  lemma CrashIsIdle(run: seq<Action>)
    requires Legal(INITIAL, run) && EndsInCrash(run)
    ensures Idle(After(INITIAL, run))
  {
    var n := |run| - 1;
    assert run == run[..n] + [Crash];
    RunsSplit(INITIAL, run[..n], [Crash]);
    hide Legal, After;
    OneAction(After(INITIAL, run[..n]), Crash);
  }

  /** From crash to service: recovery, then `open` returns. */
  function Reopening(order: seq<Id>): seq<Action> {
    RecoveryRun(order) + [Opened]
  }

  lemma ReopeningIsRun(s: System, order: seq<Id>)
    requires Idle(s) && Lists(order, Markers(s.disk))
    ensures Legal(s, Reopening(order))
    ensures After(s, Reopening(order)) == s.(disk := Recovered(s.disk, order), mode := Running)
    ensures Markers(Recovered(s.disk, order)) == {}
  {
    hide Lists, Legal, After, Markers, Recovered;
    var ready := s.(disk := Recovered(s.disk, order));
    RecoveryIsRun(s, order, Markers(s.disk));
    RecoveredMarkers(s.disk, order, Markers(s.disk));
    assert Markers(ready.disk) == {};
    assert Enabled(ready, Opened) && Apply(ready, Opened) == s.(disk := Recovered(s.disk, order), mode := Running);
    hide Enabled, Apply, Idle;
    OneAction(ready, Opened);
    RunsCompose(s, RecoveryRun(order), [Opened]);
  }

  /** After any history that ends in a crash, recovery of the markers found leads
      to service again: no marker is left, every entry whose removal had not begun
      is whole, and the history is the same. */
  lemma OpenedIsWhole(run: seq<Action>, order: seq<Id>, id: Id)
    requires Legal(INITIAL, run) && EndsInCrash(run)
    requires Lists(order, Markers(After(INITIAL, run).disk))
    ensures var s := After(INITIAL, run);
            var d := Recovered(s.disk, order);
            && Legal(INITIAL, run + Reopening(order))
            && After(INITIAL, run + Reopening(order)) == s.(disk := d, mode := Running)
            && Markers(d) == {}
            && (id in s.committed && id !in s.removed ==> id in s.origins && Together(d, id, s.origins[id]))
  {
    hide Lists, Legal, After, Recovered, Together, Reopening, RecoveryRun;
    var s := After(INITIAL, run);
    CrashIsIdle(run);
    ReopeningIsRun(s, order);
    RunsCompose(INITIAL, run, Reopening(order));
    CrashSafety(run + Reopening(order), id);
    assert id !in Markers(Recovered(s.disk, order));
  }

  /** The same for the recovery `open` runs. */
  method Restart(spool: OutboundSpool, ghost run: seq<Action>)
    requires Legal(INITIAL, run) && EndsInCrash(run) && spool.disk == After(INITIAL, run).disk
    modifies spool
    ensures Markers(spool.disk) == {} && spool.Entries() == old(spool.Entries())
    ensures var s := After(INITIAL, run);
            forall id :: id in s.committed && id !in s.removed ==> id in s.origins && Together(spool.disk, id, s.origins[id])
  {
    hide Lists, Legal, After, Recovered, Together, Reopening, Queue, Markers, Relocated;
    ghost var s := After(INITIAL, run);
    ghost var order := spool.Open();
    forall id | id in s.committed && id !in s.removed ensures id in s.origins && Together(spool.disk, id, s.origins[id]) {
      OpenedIsWhole(run, order, id);
    }
  }

  // ------------------------------------------------------------------ visibility

  /** In every reachable state an entry is visible to the worker if and only if
      its enqueue completed and neither its bounce nor its removal began; it then
      carries the bytes and the envelope that were enqueued. */
  lemma DueExactly(run: seq<Action>, id: Id)
    requires Legal(INITIAL, run)
    ensures var s := After(INITIAL, run);
            && (Present(s.disk, id) <==> id in s.committed && id !in s.bounced && id !in s.removed)
            && (Present(s.disk, id) ==>
                  && id in s.origins
                  && s.disk.main[Eml(id)] == s.origins[id].eml
                  && Faithful(s.origins[id], s.disk.main[Ctrl(id)]))
  {
    InitialInv();
    RunKeepsInv(INITIAL, run);
    var s := After(INITIAL, run);
    hide Legal, After, Faithful;
    assert Good(LocalOf(s, id));
  }

  /** What `due_now` returns in any reachable state: entries only whose enqueue
      completed and whose bounce and removal have not begun, and of those with
      storable mailboxes exactly the ones whose time has come, as enqueued. */
  method DueInRun(spool: OutboundSpool, now: Time, ghost run: seq<Action>) returns (due: seq<Due>)
    requires Legal(INITIAL, run) && spool.disk == After(INITIAL, run).disk
    ensures var s := After(INITIAL, run);
            && (forall x :: x in due ==> x.id in s.committed && x.id !in s.bounced && x.id !in s.removed)
            && (forall id :: id in s.committed && id !in s.bounced && id !in s.removed ==> id in s.origins)
            && (forall id :: id in s.committed && id !in s.bounced && id !in s.removed && Readable(s.origins[id]) ==>
                  && id in Queue(s.disk)
                  && Queue(s.disk)[id].sender == s.origins[id].env.sender
                  && Queue(s.disk)[id].recipients == s.origins[id].env.recipients
                  && (Due(id, Queue(s.disk)[id]) in due <==> Queue(s.disk)[id].nextAt <= now))
  {
    hide Legal, After, StorableEnvelope, SecondsFit, ParseRecord;
    due := spool.DueNow(now);
    ghost var s := After(INITIAL, run);
    forall id: Id
      ensures id in Queue(s.disk) ==> id in s.committed && id !in s.bounced && id !in s.removed
      ensures id in s.committed && id !in s.bounced && id !in s.removed ==> id in s.origins
      ensures id in s.committed && id !in s.bounced && id !in s.removed && Readable(s.origins[id]) ==>
                && id in Queue(s.disk)
                && Queue(s.disk)[id].sender == s.origins[id].env.sender
                && Queue(s.disk)[id].recipients == s.origins[id].env.recipients
    {
      DueExactly(run, id);
    }
  }

  /** An enqueued message whose record reads back. */
  ghost predicate Readable(o: Origin) {
    StorableEnvelope(o.env) && SecondsFit(o.now)
  }
}
