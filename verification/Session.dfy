/**
 The SMTP session and the authenticated submission session around it, refined to
 a ledger that is read off the history of commands and replies alone.
 */
module Session {
  import opened Text
  import opened Mailboxes

  datatype Phase = Greeting | Identified | Sender | Recipients | Data | Closed

  datatype Command =
    | Helo(domain: string) | Ehlo(domain: string)
    | MailFrom(reversePath: Option<Mailbox>) | RcptTo(rcpt: Mailbox) | DataCommand
    | StartTls | Rset | Noop | Quit

  const DEFAULT_MAX_RECIPIENTS: nat := 1000

  // ------------------------------------------------------------- the SMTP session

  datatype Smtp = Smtp(phase: Phase, helo: Option<string>, sender: Option<Mailbox>, recipients: seq<Mailbox>, max: nat)

  function NewSmtp(max: nat): Smtp {
    Smtp(Greeting, None, None, [], max)
  }

  /** `SmtpSession::handle` on values: the state after, and the reply code. */
  function Handled(s: Smtp, c: Command): (Smtp, nat) {
    match c
    case Quit => (s.(phase := Closed), 221)
    case Noop => (s, 250)
    case Rset => (s.(sender := None, recipients := [], phase := if s.helo.Some? then Identified else s.phase), 250)
    case Helo(domain) => (s.(helo := Some(domain), sender := None, recipients := [], phase := Identified), 250)
    case Ehlo(domain) => (s.(helo := Some(domain), sender := None, recipients := [], phase := Identified), 250)
    case MailFrom(path) => if s.phase == Identified then (s.(sender := path, phase := Sender), 250) else (s, 503)
    case RcptTo(rcpt) =>
      if s.phase != Sender && s.phase != Recipients then (s, 503)
      else if |s.recipients| >= s.max then (s, 452)
      else (s.(recipients := s.recipients + [rcpt], phase := Recipients), 250)
    case DataCommand => if s.phase == Recipients then (s.(phase := Data), 354) else (s, 503)
    case StartTls => (s, if s.phase == Greeting || s.phase == Identified then 220 else 503)
  }

  /** `take_envelope` on values. */
  function TakenFrom(s: Smtp): (Smtp, Option<Envelope>) {
    if s.recipients == [] then (s, None)
    else (s.(sender := None, recipients := [], phase := Identified), Some(Envelope(s.sender, s.recipients)))
  }

  class SmtpSession {
    var phase: Phase
    var helo: Option<string>
    var sender: Option<Mailbox>
    var recipients: seq<Mailbox>
    var maxRecipients: nat

    ghost function State(): Smtp
      reads this
    {
      Smtp(phase, helo, sender, recipients, maxRecipients)
    }

    constructor (max: nat)
      ensures State() == NewSmtp(max)
    {
      phase, helo, sender, recipients, maxRecipients := Greeting, None, None, [], max;
    }

    method Handle(command: Command) returns (code: nat)
      modifies this
      ensures (State(), code) == Handled(old(State()), command)
    {
      match command
      case Quit =>
        phase := Closed;
        code := 221;
      case Noop =>
        code := 250;
      case Rset =>
        sender, recipients := None, [];
        if helo.Some? { phase := Identified; }
        code := 250;
      case Helo(domain) =>
        helo, sender, recipients, phase := Some(domain), None, [], Identified;
        code := 250;
      case Ehlo(domain) =>
        helo, sender, recipients, phase := Some(domain), None, [], Identified;
        code := 250;
      case MailFrom(path) =>
        if phase != Identified { return 503; }
        sender, phase := path, Sender;
        code := 250;
      case RcptTo(rcpt) =>
        if phase != Sender && phase != Recipients { return 503; }
        if |recipients| >= maxRecipients { return 452; }
        recipients, phase := recipients + [rcpt], Recipients;
        code := 250;
      case DataCommand =>
        if phase != Recipients { return 503; }
        phase := Data;
        code := 354;
      case StartTls =>
        code := if phase == Greeting || phase == Identified then 220 else 503;
    }

    method TakeEnvelope() returns (envelope: Option<Envelope>)
      modifies this
      ensures (State(), envelope) == TakenFrom(old(State()))
    {
      if recipients == [] { return None; }
      envelope := Some(Envelope(sender, recipients));
      sender, recipients, phase := None, [], Identified;
    }
  }

  // ------------------------------------------------------- the submission session

  /** What decoding and checking an AUTH response came to. */
  datatype Attempt = Verified(user: string) | Wrong | Malformed

  datatype Msa = Msa(user: Option<string>, smtp: Smtp)

  datatype Event = Login(attempt: Attempt) | Issue(command: Command) | Take

  datatype Answer = Code(code: nat) | Envelopes(envelope: Option<Envelope>)

  predicate NeedsAuth(c: Command) {
    c.MailFrom? || c.RcptTo? || c.DataCommand?
  }

  /** The sender belongs to the user; the null sender belongs to no one. */
  predicate Owns(user: string, path: Option<Mailbox>) {
    path.Some? && EqIgnoreCase(Display(path.value), user)
  }

  /** The mailbox is the user's name, up to the case of letters. */
  ghost predicate Speaks(user: string, sender: Mailbox) {
    SameLetters(sender.local + "@" + sender.domain, user)
  }

  lemma OwnsExactly(user: string, path: Option<Mailbox>)
    ensures Owns(user, path) <==> path.Some? && Speaks(user, path.value)
  {
    if path.Some? { LowerIsCaseless(Display(path.value), user); }
  }

  /** One call on the session: `authenticate_plain`, `handle`, `take_envelope`. */
  function Step(m: Msa, e: Event): (Msa, Answer) {
    match e
    case Login(Verified(user)) => (m.(user := Some(user)), Code(235))
    case Login(Wrong) => (m, Code(535))
    case Login(Malformed) => (m, Code(501))
    case Take =>
      var (smtp, envelope) := TakenFrom(m.smtp);
      (m.(smtp := smtp), Envelopes(envelope))
    case Issue(c) =>
      if NeedsAuth(c) && m.user.None? then (m, Code(530))
      else if c.MailFrom? && !Owns(m.user.value, c.reversePath) then (m, Code(553))
      else
        var (smtp, code) := Handled(m.smtp, c);
        (m.(smtp := smtp), Code(code))
  }

  // -------------------------------------------------------------------- history

  /** What went over the wire: an event and its answer. */
  datatype Turn = Turn(event: Event, answer: Answer)

  /** The user at the end of a history: the last successful login. */
  function UserAfter(history: seq<Turn>): Option<string> {
    if history == [] then None
    else
      var n := |history| - 1;
      match history[n]
      case Turn(Login(Verified(user)), Code(235)) => Some(user)
      case _ => UserAfter(history[..n])
  }

  /** A MAIL FROM that was accepted. */
  predicate Opens(t: Turn) {
    t.event.Issue? && t.event.command.MailFrom? && t.answer == Code(250)
  }

  /** A turn that ends any transaction: RSET, HELO, EHLO, or an envelope taken. */
  predicate Resets(t: Turn) {
    || (t.event.Issue? && (t.event.command.Rset? || t.event.command.Helo? || t.event.command.Ehlo?))
    || (t.answer.Envelopes? && t.answer.envelope.Some?)
  }

  predicate AddsRecipient(t: Turn) {
    t.event.Issue? && t.event.command.RcptTo? && t.answer == Code(250)
  }

  /** The recipients answered 250 in a history, in order. */
  function AcceptedRcpts(history: seq<Turn>): seq<Mailbox> {
    if history == [] then []
    else
      var n := |history| - 1;
      AcceptedRcpts(history[..n]) + if AddsRecipient(history[n]) then [history[n].event.command.rcpt] else []
  }

  /** `k` is the MAIL FROM of the transaction still open at the end. */
  ghost predicate OpenAt(history: seq<Turn>, k: nat) {
    && k < |history| && Opens(history[k])
    && forall i :: k < i < |history| ==> !Resets(history[i]) && !Opens(history[i])
  }

  ghost predicate SomeOpen(history: seq<Turn>) {
    exists k :: OpenAt(history, k)
  }

  /** The state after a history, for a session with this recipient limit. */
  function After(max: nat, history: seq<Turn>): Msa {
    if history == [] then Msa(None, NewSmtp(max))
    else Step(After(max, history[..|history| - 1]), history[|history| - 1].event).0
  }

  /** Every answer is the one the session gives. */
  ghost predicate Genuine(max: nat, history: seq<Turn>) {
    history == [] ||
      var n := |history| - 1;
      Genuine(max, history[..n]) && history[n].answer == Step(After(max, history[..n]), history[n].event).1
  }

  // ----------------------------------------------------------------- refinement

  /** The open transaction, as history alone tells it. */
  datatype Ledger = Nothing | Transaction(user: string, sender: Mailbox, recipients: seq<Mailbox>)

  /** The ledger as it is kept turn by turn. */
  function Kept(l: Ledger, user: Option<string>, t: Turn): Ledger {
    if Resets(t) then Nothing
    else if Opens(t) && user.Some? && t.event.command.reversePath.Some? then
      Transaction(user.value, t.event.command.reversePath.value, [])
    else if AddsRecipient(t) && l.Transaction? then l.(recipients := l.recipients + [t.event.command.rcpt])
    else l
  }

  function LedgerOf(history: seq<Turn>): Ledger {
    if history == [] then Nothing
    else
      var n := |history| - 1;
      Kept(LedgerOf(history[..n]), UserAfter(history[..n]), history[n])
  }

  /** Session state and ledger agree. */
  ghost predicate InSync(m: Msa, l: Ledger, max: nat) {
    var s := m.smtp;
    && s.max == max
    && (s.helo.None? ==> s.phase == Greeting || s.phase == Closed)
    && match l
       case Nothing => s.sender == None && s.recipients == [] && s.phase in {Greeting, Identified, Closed}
       case Transaction(user, sender, recipients) =>
         && s.sender == Some(sender) && s.recipients == recipients && |recipients| <= max
         && Owns(user, Some(sender)) && s.helo.Some?
         && (s.phase == Sender || s.phase == Closed || recipients != [])
         && s.phase in {Sender, Recipients, Data, Closed}
  }

  lemma StepStaysInSync(m: Msa, l: Ledger, max: nat, e: Event)
    requires InSync(m, l, max)
    ensures var (m', a) := Step(m, e);
            InSync(m', Kept(l, m.user, Turn(e, a)), max)
  {
    hide EqIgnoreCase, Display;
  }

  lemma {:induction false} HistoryStaysInSync(max: nat, history: seq<Turn>)
    requires Genuine(max, history)
    ensures InSync(After(max, history), LedgerOf(history), max)
    ensures After(max, history).user == UserAfter(history)
  {
    hide InSync, Kept;
    if history == [] {
      StartsInSync(max);
    } else {
      var n := |history| - 1;
      HistoryStaysInSync(max, history[..n]);
      StepStaysInSync(After(max, history[..n]), LedgerOf(history[..n]), max, history[n].event);
    }
  }

  lemma StartsInSync(max: nat)
    ensures InSync(Msa(None, NewSmtp(max)), Nothing, max)
  {
  }

  // ---------------------------------------------------- the ledger is the history

  /** The ledger tells the open transaction: who was logged in at its MAIL FROM,
      its sender, and the recipients answered 250 since. */
  ghost predicate Tells(l: Ledger, history: seq<Turn>) {
    if l.Nothing? then !SomeOpen(history)
    else exists k :: OpenAt(history, k) && TellsFrom(l, history, k)
  }

  ghost predicate TellsFrom(l: Ledger, history: seq<Turn>, k: nat)
    requires OpenAt(history, k)
  {
    && l.Transaction?
    && history[k].event.command.reversePath == Some(l.sender)
    && UserAfter(history[..k]) == Some(l.user)
    && l.recipients == AcceptedRcpts(history[k + 1..])
  }

  lemma OpenBefore(history: seq<Turn>, k: nat)
    requires OpenAt(history, k) && k < |history| - 1
    ensures OpenAt(history[..|history| - 1], k)
  {
  }

  /** A turn that neither resets nor opens keeps the open transaction open. */
  lemma StaysOpen(history: seq<Turn>, k: nat)
    requires history != [] && !Resets(history[|history| - 1]) && !Opens(history[|history| - 1])
    requires OpenAt(history[..|history| - 1], k)
    ensures OpenAt(history, k)
    ensures history[..|history| - 1][k] == history[k] && history[..|history| - 1][..k] == history[..k]
    ensures AcceptedRcpts(history[k + 1..])
         == AcceptedRcpts(history[..|history| - 1][k + 1..])
            + if AddsRecipient(history[|history| - 1]) then [history[|history| - 1].event.command.rcpt] else []
  {
    var n := |history| - 1;
    hide Opens, Resets, AddsRecipient;
    var since := history[k + 1..];
    assert since[..|since| - 1] == history[..n][k + 1..];
    forall i | k < i < |history| ensures !Resets(history[i]) && !Opens(history[i]) {
      if i < n { assert history[..n][i] == history[i]; }
    }
    assert history[..n][k] == history[k];
  }

  lemma ResetTells(history: seq<Turn>)
    requires history != [] && Resets(history[|history| - 1]) && !Opens(history[|history| - 1])
    ensures !SomeOpen(history)
  {
  }

  lemma OpeningTells(history: seq<Turn>, l: Ledger)
    requires history != [] && Opens(history[|history| - 1]) && l.Transaction? && l.recipients == []
    requires history[|history| - 1].event.command.reversePath == Some(l.sender)
    requires UserAfter(history[..|history| - 1]) == Some(l.user)
    ensures Tells(l, history)
  {
    var k := |history| - 1;
    assert history[k + 1..] == [];
    assert OpenAt(history, k) && TellsFrom(l, history, k);
  }

  lemma QuietTells(history: seq<Turn>, l: Ledger, l': Ledger)
    requires history != [] && Tells(l, history[..|history| - 1])
    requires !Resets(history[|history| - 1]) && !Opens(history[|history| - 1])
    requires l' == Kept(l, UserAfter(history[..|history| - 1]), history[|history| - 1])
    ensures Tells(l', history)
  {
    var n := |history| - 1;
    if l.Nothing? {
      forall k | OpenAt(history, k) ensures false {
        OpenBefore(history, k);
      }
    } else {
      var k :| OpenAt(history[..n], k) && TellsFrom(l, history[..n], k);
      StaysOpen(history, k);
      hide Opens, Resets, AddsRecipient, AcceptedRcpts, UserAfter;
      assert TellsFrom(l', history, k);
    }
  }

  lemma OpeningIsOwned(m: Msa, e: Event)
    requires Opens(Turn(e, Step(m, e).1))
    ensures m.user.Some? && Owns(m.user.value, e.command.reversePath)
  {
    hide EqIgnoreCase, Display;
  }

  /** The ledger of a genuine history is what the history says. */
  lemma {:induction false} LedgerTells(max: nat, history: seq<Turn>)
    requires Genuine(max, history)
    ensures Tells(LedgerOf(history), history)
  {
    if history != [] {
      var n := |history| - 1;
      var last := history[n];
      LedgerTells(max, history[..n]);
      HistoryStaysInSync(max, history[..n]);
      hide InSync, Tells, After, Genuine, UserAfter;
      if Resets(last) {
        ResetTells(history);
        NothingTells(history);
      } else if Opens(last) {
        assert last == Turn(last.event, Step(After(max, history[..n]), last.event).1) by { GenuineLast(max, history); }
        OpeningIsOwned(After(max, history[..n]), last.event);
        OpeningTells(history, LedgerOf(history));
      } else {
        QuietTells(history, LedgerOf(history[..n]), LedgerOf(history));
      }
    }
  }

  lemma GenuineLast(max: nat, history: seq<Turn>)
    requires Genuine(max, history) && history != []
    ensures history[|history| - 1].answer == Step(After(max, history[..|history| - 1]), history[|history| - 1].event).1
  {
  }

  lemma NothingTells(history: seq<Turn>)
    requires !SomeOpen(history)
    ensures Tells(Nothing, history)
  {
  }

  /** An envelope as submission promises it: sent since the MAIL FROM at `k` of the
      history, by the user logged in then. */
  ghost predicate Submitted(env: Envelope, history: seq<Turn>, k: nat, max: nat) {
    && OpenAt(history, k)
    && env.recipients == AcceptedRcpts(history[k + 1..]) && 0 < |env.recipients| <= max
    && env.sender == history[k].event.command.reversePath
    && UserAfter(history[..k]).Some? && env.sender.Some? && Speaks(UserAfter(history[..k]).value, env.sender.value)
  }

  /** For every history of logins, commands and takes: an envelope that can be taken
      holds exactly the recipients answered 250 since the open MAIL FROM, at least
      one and at most the limit, and its sender is the user of that moment. */
  lemma SubmissionHistory(max: nat, history: seq<Turn>)
    requires Genuine(max, history)
    ensures var taken := TakenFrom(After(max, history).smtp).1;
            taken.Some? ==> exists k :: Submitted(taken.value, history, k, max)
  {
    LedgerTells(max, history);
    HistoryStaysInSync(max, history);
    hide After, Genuine, LedgerOf, UserAfter, AcceptedRcpts, Owns, Speaks, OpenAt;
    var l, s := LedgerOf(history), After(max, history).smtp;
    if s.recipients != [] {
      OwnsExactly(l.user, s.sender);
      var k :| OpenAt(history, k) && TellsFrom(l, history, k);
      assert Submitted(Envelope(s.sender, s.recipients), history, k, max);
    }
  }

  /** Once DATA was answered 354 there is an envelope to take. */
  lemma DataMeansEnvelope(max: nat, history: seq<Turn>)
    requires Genuine(max, history) && history != [] && history[|history| - 1].answer == Code(354)
    ensures TakenFrom(After(max, history).smtp).1.Some?
  {
    var n := |history| - 1;
    HistoryStaysInSync(max, history[..n]);
    hide LedgerOf, UserAfter, Owns;
    var m := After(max, history[..n]);
    assert Step(m, history[n].event).1 == Code(354);
  }

  /** Without a login nothing can be taken. */
  lemma NoLoginNoEnvelope(max: nat, history: seq<Turn>)
    requires Genuine(max, history)
    requires forall i :: 0 <= i < |history| ==> history[i].answer != Code(235)
    ensures TakenFrom(After(max, history).smtp).1 == None
  {
    SubmissionHistory(max, history);
    hide After, Genuine;
    if TakenFrom(After(max, history).smtp).1.Some? {
      var k: nat :| Submitted(TakenFrom(After(max, history).smtp).1.value, history, k, max);
      NobodyYet(history[..k]);
    }
  }

  lemma {:induction false} NobodyYet(history: seq<Turn>)
    requires forall i :: 0 <= i < |history| ==> history[i].answer != Code(235)
    ensures UserAfter(history) == None
  {
    if history != [] { NobodyYet(history[..|history| - 1]); }
  }

  // ------------------------------------------------------------- exact replies

  datatype Mode = Ungreeted | Awake | Ended

  /** What history says besides the ledger: whether HELO or EHLO was ever said,
      whether QUIT was the last word, and whether DATA was given. */
  datatype Told = Told(greeted: bool, mode: Mode, data: bool)

  predicate Greets(t: Turn) {
    t.event.Issue? && (t.event.command.Helo? || t.event.command.Ehlo?)
  }

  predicate Quits(t: Turn) {
    t.event.Issue? && t.event.command.Quit?
  }

  function Hears(told: Told, t: Turn): Told {
    var revives := Greets(t) || (Resets(t) && (t.event.Take? || told.greeted));
    Told(
      told.greeted || Greets(t),
      if Quits(t) then Ended else if revives then Awake else told.mode,
      if t.answer == Code(354) then true else told.data && !Resets(t) && !Opens(t))
  }

  function ToldBy(history: seq<Turn>): Told {
    if history == [] then Told(false, Ungreeted, false)
    else Hears(ToldBy(history[..|history| - 1]), history[|history| - 1])
  }

  ghost predicate SomeGreets(history: seq<Turn>) {
    exists i :: 0 <= i < |history| && Greets(history[i])
  }

  /** The turn at `i` opens the session, again if need be: HELO or EHLO, an envelope
      taken, or RSET once greeted. */
  ghost predicate Revives(history: seq<Turn>, i: nat)
    requires i < |history|
  {
    Greets(history[i]) || (Resets(history[i]) && (history[i].event.Take? || SomeGreets(history[..i])))
  }

  /** A QUIT at `k`, and nothing reviving since. */
  ghost predicate EndedAt(history: seq<Turn>, k: nat) {
    k < |history| && Quits(history[k]) && forall i :: k < i < |history| ==> !Revives(history, i)
  }

  /** A reviving turn at `k`, and no QUIT since. */
  ghost predicate AwakeAt(history: seq<Turn>, k: nat) {
    k < |history| && Revives(history, k) && forall i :: k <= i < |history| ==> !Quits(history[i])
  }

  /** A 354 at `j`, and neither a reset nor a new MAIL FROM since. */
  ghost predicate DataAt(history: seq<Turn>, j: nat) {
    && j < |history| && history[j].answer == Code(354)
    && forall i :: j < i < |history| ==> !Resets(history[i]) && !Opens(history[i])
  }

  /** A 354 at `j` since the MAIL FROM at `k`, whose transaction is still open. */
  ghost predicate DataSince(history: seq<Turn>, k: nat, j: nat) {
    OpenAt(history, k) && k < j < |history| && history[j].answer == Code(354)
  }

  lemma {:induction false} GreetedIsHistory(history: seq<Turn>)
    ensures ToldBy(history).greeted <==> SomeGreets(history)
  {
    if history != [] {
      var n := |history| - 1;
      GreetedIsHistory(history[..n]);
      hide Greets;
      assert SomeGreets(history) <==> SomeGreets(history[..n]) || Greets(history[n]) by {
        if SomeGreets(history[..n]) {
          var i :| 0 <= i < n && Greets(history[..n][i]);
          assert Greets(history[i]);
        }
        if SomeGreets(history) && !Greets(history[n]) {
          var i :| 0 <= i < |history| && Greets(history[i]);
          assert Greets(history[..n][i]);
        }
      }
    }
  }

  lemma RevivesStays(history: seq<Turn>, n: nat, i: nat)
    requires i < n <= |history|
    ensures Revives(history[..n], i) <==> Revives(history, i)
  {
    assert history[..n][..i] == history[..i];
  }

  lemma EndedNext(history: seq<Turn>, k: nat)
    requires history != [] && k < |history| - 1
    ensures var n := |history| - 1; EndedAt(history, k) <==> EndedAt(history[..n], k) && !Revives(history, n)
  {
    hide Quits, Revives;
    var n := |history| - 1;
    forall i | 0 <= i < n ensures Revives(history[..n], i) <==> Revives(history, i) {
      RevivesStays(history, n, i);
    }
  }

  lemma AwakeNext(history: seq<Turn>, k: nat)
    requires history != [] && k < |history| - 1
    ensures var n := |history| - 1; AwakeAt(history, k) <==> AwakeAt(history[..n], k) && !Quits(history[n])
  {
    var n := |history| - 1;
    RevivesStays(history, n, k);
    hide Quits, Revives;
    assert forall i :: 0 <= i < n ==> history[..n][i] == history[i];
  }

  lemma DataNext(history: seq<Turn>, j: nat)
    requires history != [] && j < |history| - 1
    ensures var n := |history| - 1;
            DataAt(history, j) <==> DataAt(history[..n], j) && !Resets(history[n]) && !Opens(history[n])
  {
    hide Resets, Opens;
    var n := |history| - 1;
    assert forall i :: 0 <= i < n ==> history[..n][i] == history[i];
  }

  lemma {:induction false} EndedIsHistory(history: seq<Turn>)
    ensures ToldBy(history).mode == Ended <==> exists k :: EndedAt(history, k)
  {
    if history != [] {
      var n := |history| - 1;
      EndedIsHistory(history[..n]);
      GreetedIsHistory(history[..n]);
      assert EndedAt(history, n) <==> Quits(history[n]);
      forall k: nat | k < n ensures EndedAt(history, k) <==> EndedAt(history[..n], k) && !Revives(history, n) {
        EndedNext(history, k);
      }
      assert Revives(history, n) <==>
        Greets(history[n]) || (Resets(history[n]) && (history[n].event.Take? || ToldBy(history[..n]).greeted));
      assert (exists k :: EndedAt(history, k)) <==>
        Quits(history[n]) || ((exists k :: EndedAt(history[..n], k)) && !Revives(history, n)) by {
        hide Quits, Revives, Greets, Resets;
        if k: nat :| EndedAt(history[..n], k) && !Revives(history, n) { assert EndedAt(history, k); }
        if k: nat :| EndedAt(history, k) && k < n { assert EndedAt(history[..n], k); }
      }
    }
  }

  lemma {:induction false} AwakeIsHistory(history: seq<Turn>)
    ensures ToldBy(history).mode == Awake <==> exists k :: AwakeAt(history, k)
  {
    if history != [] {
      var n := |history| - 1;
      AwakeIsHistory(history[..n]);
      GreetedIsHistory(history[..n]);
      assert AwakeAt(history, n) <==> Revives(history, n) && !Quits(history[n]);
      forall k: nat | k < n ensures AwakeAt(history, k) <==> AwakeAt(history[..n], k) && !Quits(history[n]) {
        AwakeNext(history, k);
      }
      assert Revives(history, n) <==>
        Greets(history[n]) || (Resets(history[n]) && (history[n].event.Take? || ToldBy(history[..n]).greeted));
      assert (exists k :: AwakeAt(history, k)) <==>
        !Quits(history[n]) && (Revives(history, n) || exists k :: AwakeAt(history[..n], k)) by {
        hide Quits, Revives, Greets, Resets;
        if k: nat :| AwakeAt(history[..n], k) && !Quits(history[n]) { assert AwakeAt(history, k); }
        if k: nat :| AwakeAt(history, k) && k < n { assert AwakeAt(history[..n], k); }
      }
    }
  }

  lemma {:induction false} DataIsHistory(history: seq<Turn>)
    ensures ToldBy(history).data <==> exists j :: DataAt(history, j)
  {
    if history != [] {
      var n := |history| - 1;
      DataIsHistory(history[..n]);
      hide Resets, Opens;
      assert DataAt(history, n) <==> history[n].answer == Code(354);
      forall j: nat | j < n
        ensures DataAt(history, j) <==> DataAt(history[..n], j) && !Resets(history[n]) && !Opens(history[n])
      {
        DataNext(history, j);
      }
      assert (exists j :: DataAt(history, j)) <==>
        || history[n].answer == Code(354)
        || ((exists j :: DataAt(history[..n], j)) && !Resets(history[n]) && !Opens(history[n])) by {
        if j: nat :| DataAt(history[..n], j) && !Resets(history[n]) && !Opens(history[n]) { assert DataAt(history, j); }
        if j: nat :| DataAt(history, j) && j < n { assert DataAt(history[..n], j); }
      }
    }
  }

  /** The phase that follows from what was told. */
  function PhaseTold(told: Told, l: Ledger): Phase {
    match told.mode
    case Ungreeted => Greeting
    case Ended => Closed
    case Awake =>
      if l.Nothing? then Identified
      else if told.data then Data
      else if l.recipients == [] then Sender
      else Recipients
  }

  ghost predicate InPhase(m: Msa, l: Ledger, told: Told) {
    && m.smtp.phase == PhaseTold(told, l)
    && (m.smtp.helo.Some? <==> told.greeted)
    && (told.mode == Ungreeted ==> !told.greeted)
    && (told.data ==> l.Transaction?)
  }

  lemma StepStaysInPhase(m: Msa, l: Ledger, told: Told, max: nat, e: Event)
    requires InSync(m, l, max) && InPhase(m, l, told)
    ensures var (m', a) := Step(m, e);
            InPhase(m', Kept(l, m.user, Turn(e, a)), Hears(told, Turn(e, a)))
  {
    hide EqIgnoreCase, Display;
  }

  lemma {:induction false} HistoryStaysInPhase(max: nat, history: seq<Turn>)
    requires Genuine(max, history)
    ensures InPhase(After(max, history), LedgerOf(history), ToldBy(history))
  {
    hide InPhase, InSync, Kept, Hears, UserAfter;
    if history == [] {
      StartsInPhase(max);
    } else {
      var n := |history| - 1;
      HistoryStaysInSync(max, history[..n]);
      HistoryStaysInPhase(max, history[..n]);
      StepStaysInPhase(After(max, history[..n]), LedgerOf(history[..n]), ToldBy(history[..n]), max, history[n].event);
    }
  }

  lemma StartsInPhase(max: nat)
    ensures InPhase(Msa(None, NewSmtp(max)), Nothing, Told(false, Ungreeted, false))
  {
  }

  lemma DataNeedsOpen(max: nat, history: seq<Turn>)
    requires Genuine(max, history)
    ensures (exists j :: DataAt(history, j)) <==> exists k, j :: DataSince(history, k, j)
  {
    DataIsHistory(history);
    HistoryStaysInPhase(max, history);
    LedgerTells(max, history);
    hide After, Genuine, LedgerOf, ToldBy, TellsFrom, PhaseTold;
    if j: nat :| DataAt(history, j) {
      var k: nat :| OpenAt(history, k);
      assert DataSince(history, k, j);
    }
    if k: nat, j: nat :| DataSince(history, k, j) { assert DataAt(history, j); }
  }

  /** What was told is what the history holds: greeted means that HELO or EHLO was
      said, ended a QUIT with nothing reviving after it, awake a reviving turn with
      no QUIT after it, and data a 354 since the open MAIL FROM. */
  lemma ToldIsHistory(max: nat, history: seq<Turn>)
    requires Genuine(max, history)
    ensures var told := ToldBy(history);
            && (told.greeted <==> SomeGreets(history))
            && (told.mode == Ended <==> exists k :: EndedAt(history, k))
            && (told.mode == Awake <==> exists k :: AwakeAt(history, k))
            && (told.data <==> exists k, j :: DataSince(history, k, j))
  {
    hide *;
    GreetedIsHistory(history);
    EndedIsHistory(history);
    AwakeIsHistory(history);
    DataIsHistory(history);
    DataNeedsOpen(max, history);
  }

  /** The reply a history calls for. */
  ghost function Reply(user: Option<string>, l: Ledger, told: Told, max: nat, c: Command): nat {
    var open := told.mode == Awake && l.Transaction? && !told.data;
    match c
    case Quit => 221
    case Noop => 250
    case Rset => 250
    case Helo(_) => 250
    case Ehlo(_) => 250
    case StartTls => if told.mode == Ungreeted || (told.mode == Awake && l.Nothing?) then 220 else 503
    case MailFrom(path) =>
      if user.None? then 530
      else if path.None? || !Speaks(user.value, path.value) then 553
      else if told.mode == Awake && l.Nothing? then 250
      else 503
    case RcptTo(_) =>
      if user.None? then 530
      else if !open then 503
      else if |l.recipients| >= max then 452
      else 250
    case DataCommand =>
      if user.None? then 530 else if open && l.recipients != [] then 354 else 503
  }

  /** Every reply follows from what was said before, in every history: a second
      MAIL FROM, recipients or DATA out of turn, and the limit included. */
  lemma RepliesExactly(max: nat, history: seq<Turn>, c: Command)
    requires Genuine(max, history)
    ensures Step(After(max, history), Issue(c)).1
         == Code(Reply(UserAfter(history), LedgerOf(history), ToldBy(history), max, c))
  {
    HistoryStaysInSync(max, history);
    HistoryStaysInPhase(max, history);
    if c.MailFrom? && UserAfter(history).Some? { OwnsExactly(UserAfter(history).value, c.reversePath); }
    hide After, Genuine, LedgerOf, UserAfter, ToldBy, Owns, Speaks;
  }

  /** MAIL FROM is answered 250 only for the mailbox of the user logged in; any other
      and the null path get 553. */
  lemma OnlyOwnSender(max: nat, history: seq<Turn>, path: Option<Mailbox>)
    requires Genuine(max, history)
    ensures var user, answer := UserAfter(history), Step(After(max, history), Issue(MailFrom(path))).1;
            && (answer == Code(250) ==> user.Some? && path.Some? && SameLetters(path.value.local + "@" + path.value.domain, user.value))
            && (user.Some? && (path.None? || !SameLetters(path.value.local + "@" + path.value.domain, user.value)) ==> answer == Code(553))
  {
    RepliesExactly(max, history, MailFrom(path));
    hide Genuine, After, Step, UserAfter, LedgerOf, ToldBy, SameLetters;
  }

  /** Asking once more. */
  lemma HistoryGrows(max: nat, history: seq<Turn>, e: Event)
    requires Genuine(max, history)
    ensures var (m, a) := Step(After(max, history), e);
            Genuine(max, history + [Turn(e, a)]) && After(max, history + [Turn(e, a)]) == m
  {
    hide Step;
    var longer := history + [Turn(e, Step(After(max, history), e).1)];
    assert longer[..|longer| - 1] == history;
  }

  class MsaSession {
    const smtp: SmtpSession
    var user: Option<string>

    /** Everything said so far. */
    ghost var history: seq<Turn>

    ghost function State(): Msa
      reads this, smtp
    {
      Msa(user, smtp.State())
    }

    ghost predicate Valid()
      reads this, smtp
    {
      Genuine(DEFAULT_MAX_RECIPIENTS, history) && State() == After(DEFAULT_MAX_RECIPIENTS, history)
    }

    constructor ()
      ensures Valid() && history == [] && fresh(smtp)
    {
      smtp := new SmtpSession(DEFAULT_MAX_RECIPIENTS);
      user, history := None, [];
    }

    method AuthenticatePlain(attempt: Attempt) returns (code: nat)
      requires Valid()
      modifies this, smtp
      ensures Valid() && history == old(history) + [Turn(Login(attempt), Code(code))]
    {
      hide Genuine, After;
      HistoryGrows(DEFAULT_MAX_RECIPIENTS, history, Login(attempt));
      match attempt {
        case Verified(name) =>
          user := Some(name);
          code := 235;
        case Wrong =>
          code := 535;
        case Malformed =>
          code := 501;
      }
      history := history + [Turn(Login(attempt), Code(code))];
    }

    method Handle(command: Command) returns (code: nat)
      requires Valid()
      modifies this, smtp
      ensures Valid() && history == old(history) + [Turn(Issue(command), Code(code))]
      ensures code == Reply(UserAfter(old(history)), LedgerOf(old(history)), ToldBy(old(history)), 1000, command)
    {
      hide Genuine, After, UserAfter, LedgerOf, ToldBy, Reply, Kept;
      HistoryGrows(DEFAULT_MAX_RECIPIENTS, history, Issue(command));
      RepliesExactly(DEFAULT_MAX_RECIPIENTS, history, command);
      if NeedsAuth(command) && user.None? {
        code := 530;
      } else if command.MailFrom? && !Owns(user.value, command.reversePath) {
        code := 553;
      } else {
        code := smtp.Handle(command);
      }
      history := history + [Turn(Issue(command), Code(code))];
    }

    /** `smtp_mut().take_envelope()`. */
    method TakeEnvelope() returns (envelope: Option<Envelope>)
      requires Valid()
      modifies this, smtp
      ensures Valid() && history == old(history) + [Turn(Take, Envelopes(envelope))]
      ensures envelope.Some? ==> exists k :: Submitted(envelope.value, old(history), k, 1000)
      ensures old(history) != [] && old(history)[|old(history)| - 1].answer == Code(354) ==> envelope.Some?
    {
      hide Genuine, After;
      SubmissionHistory(DEFAULT_MAX_RECIPIENTS, history);
      if history != [] && history[|history| - 1].answer == Code(354) {
        DataMeansEnvelope(DEFAULT_MAX_RECIPIENTS, history);
      }
      HistoryGrows(DEFAULT_MAX_RECIPIENTS, history, Take);
      envelope := smtp.TakeEnvelope();
      history := history + [Turn(Take, Envelopes(envelope))];
    }
  }
}
