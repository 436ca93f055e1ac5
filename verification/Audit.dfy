/**
 The durable audit sink: an append-only file of lines, each hash-chained to the
 one before. The hash is a parameter; what is assumed of it stands in each lemma.
 */
module Audit {
  import opened Text
  import opened Decimal

  // -------------------------------------------------------------------- events

  /** Text without record or field separators. */
  predicate Clean(s: string) {
    forall i :: 0 <= i < |s| ==> !Separator(s[i])
  }

  predicate Separator(c: char) {
    c == '\t' || c == '\n' || c == '\r'
  }

  /** A printed IP address: neither separators nor spaces. */
  type IpText = s: string | Clean(s) && ' ' !in s witness []

  datatype AuditEvent =
    | AuthSuccess(user: string)
    | AuthFailure(user: string, ip: IpText)
    | Blocked(ip: IpText, reason: string)
    | RateLimited(ip: IpText)
    | FirewallPaused
    | FirewallResumed

  /** `sanitize`: separators become spaces, everything else stays. */
  function Sanitize(s: string): (r: string)
    ensures Clean(r) && |r| == |s|
    ensures Clean(s) ==> r == s
    ensures forall i :: 0 <= i < |s| ==> r[i] == s[i] || (r[i] == ' ' && s[i] in ['\t', '\n', '\r'])
  {
    seq(|s|, i requires 0 <= i < |s| => if Separator(s[i]) then ' ' else s[i])
  }

  /** `AuditEvent::encode`. */
  function Encode(e: AuditEvent): string {
    match e
    case AuthSuccess(user) => "auth_success user=" + Sanitize(user)
    case AuthFailure(user, ip) => "auth_failure user=" + Sanitize(user) + " ip=" + ip
    case Blocked(ip, reason) => "blocked ip=" + ip + " reason=" + Sanitize(reason)
    case RateLimited(ip) => "rate_limited ip=" + ip
    case FirewallPaused => "firewall_paused"
    case FirewallResumed => "firewall_resumed"
  }

  lemma JoinClean(a: string, b: string)
    requires Clean(a) && Clean(b)
    ensures Clean(a + b)
  {
  }

  lemma LabelsAreClean()
    ensures Clean("auth_success user=") && Clean("auth_failure user=") && Clean(" ip=")
    ensures Clean("blocked ip=") && Clean(" reason=") && Clean("rate_limited ip=")
    ensures Clean("firewall_paused") && Clean("firewall_resumed")
  {
  }

  /** An encoded event is always a single clean field, whatever the user sent. */
  lemma EncodeIsClean(e: AuditEvent)
    ensures Clean(Encode(e)) && '\t' !in Encode(e) && '\n' !in Encode(e) && '\r' !in Encode(e)
  {
    assert Clean(Encode(e)) ==> '\t' !in Encode(e) && '\n' !in Encode(e) && '\r' !in Encode(e);
    hide Clean, Sanitize;
    LabelsAreClean();
    match e
    case AuthSuccess(user) =>
      JoinClean("auth_success user=", Sanitize(user));
    case AuthFailure(user, ip) =>
      JoinClean("auth_failure user=", Sanitize(user));
      JoinClean("auth_failure user=" + Sanitize(user), " ip=");
      JoinClean("auth_failure user=" + Sanitize(user) + " ip=", ip);
    case Blocked(ip, reason) =>
      JoinClean("blocked ip=", ip);
      JoinClean("blocked ip=" + ip, " reason=");
      JoinClean("blocked ip=" + ip + " reason=", Sanitize(reason));
    case RateLimited(ip) =>
      JoinClean("rate_limited ip=", ip);
    case FirewallPaused =>
    case FirewallResumed =>
  }

  /** The event as recorded: what a user sent, on one line. */
  function Recorded(e: AuditEvent): AuditEvent {
    match e
    case AuthSuccess(user) => AuthSuccess(Sanitize(user))
    case AuthFailure(user, ip) => AuthFailure(Sanitize(user), ip)
    case Blocked(ip, reason) => Blocked(ip, Sanitize(reason))
    case _ => e
  }

  /** The rest of a text behind a label. */
  function Behind(text: string, mark: string): Option<string> {
    if mark <= text then Some(text[|mark|..]) else None
  }

  predicate IsIp(s: string) {
    Clean(s) && ' ' !in s
  }

  /** Reading a record's event back. */
  function Decode(text: string): Option<AuditEvent> {
    var success, failure, blocked, limited :=
      Behind(text, "auth_success user="), Behind(text, "auth_failure user="), Behind(text, "blocked ip="), Behind(text, "rate_limited ip=");
    if success.Some? then Some(AuthSuccess(success.value))
    else if failure.Some? then DecodeFailure(failure.value)
    else if blocked.Some? then DecodeBlocked(blocked.value)
    else if limited.Some? then (if IsIp(limited.value) then Some(RateLimited(limited.value)) else None)
    else if text == "firewall_paused" then Some(FirewallPaused)
    else if text == "firewall_resumed" then Some(FirewallResumed)
    else None
  }

  /** The address stands behind the last space. */
  function DecodeFailure(rest: string): Option<AuditEvent> {
    match RSplitOnce(rest, ' ')
    case None => None
    case Some((user, tail)) =>
      var ip := Behind(tail, "ip=");
      if ip.Some? && IsIp(ip.value) then Some(AuthFailure(user, ip.value)) else None
  }

  /** The address ends at the first space. */
  function DecodeBlocked(rest: string): Option<AuditEvent> {
    match SplitOnce(rest, ' ')
    case None => None
    case Some((ip, tail)) =>
      var reason := Behind(tail, "reason=");
      if reason.Some? && IsIp(ip) then Some(Blocked(ip, reason.value)) else None
  }

  lemma BehindIs(mark: string, rest: string)
    ensures Behind(mark + rest, mark) == Some(rest)
  {
  }

  /** No label begins another, by its first letters. */
  lemma BehindOther(text: string, mark: string, i: nat)
    requires i < |mark| && i < |text| && text[i] != mark[i]
    ensures Behind(text, mark) == None
  {
  }

  lemma FailureReads(user: string, ip: IpText)
    ensures DecodeFailure(user + " ip=" + ip) == Some(AuthFailure(user, ip))
  {
    var tail := "ip=" + ip;
    assert user + " ip=" + ip == user + [' '] + tail;
    assert ' ' !in tail;
    RSplitOnceAt(user, ' ', tail);
    BehindIs("ip=", ip);
  }

  lemma BlockedReads(ip: IpText, reason: string)
    ensures DecodeBlocked(ip + " reason=" + reason) == Some(Blocked(ip, reason))
  {
    var tail := "reason=" + reason;
    assert ip + " reason=" + reason == ip + [' '] + tail;
    SplitOnceAt(ip, ' ', tail);
    BehindIs("reason=", reason);
  }

  /** A record tells which event it was, and all of it. */
  lemma EncodeReads(e: AuditEvent)
    ensures Decode(Encode(e)) == Some(Recorded(e))
  {
    var text := Encode(e);
    hide DecodeFailure, DecodeBlocked, Clean, Sanitize;
    match e
    case AuthSuccess(user) =>
      BehindIs("auth_success user=", Sanitize(user));
    case AuthFailure(user, ip) =>
      assert text == "auth_failure user=" + (Sanitize(user) + " ip=" + ip);
      BehindIs("auth_failure user=", Sanitize(user) + " ip=" + ip);
      BehindOther(text, "auth_success user=", 5);
      FailureReads(Sanitize(user), ip);
    case Blocked(ip, reason) =>
      assert text == "blocked ip=" + (ip + " reason=" + Sanitize(reason));
      BehindIs("blocked ip=", ip + " reason=" + Sanitize(reason));
      BehindOther(text, "auth_success user=", 0);
      BehindOther(text, "auth_failure user=", 0);
      BlockedReads(ip, Sanitize(reason));
    case RateLimited(ip) =>
      BehindIs("rate_limited ip=", ip);
      BehindOther(text, "auth_success user=", 0);
      BehindOther(text, "auth_failure user=", 0);
      BehindOther(text, "blocked ip=", 0);
    case FirewallPaused =>
      NotLabelled(text);
    case FirewallResumed =>
      NotLabelled(text);
  }

  lemma NotLabelled(text: string)
    requires text != [] && text[0] == 'f'
    ensures Behind(text, "auth_success user=") == None && Behind(text, "auth_failure user=") == None
    ensures Behind(text, "blocked ip=") == None && Behind(text, "rate_limited ip=") == None
  {
    BehindOther(text, "auth_success user=", 0);
    BehindOther(text, "auth_failure user=", 0);
    BehindOther(text, "blocked ip=", 0);
    BehindOther(text, "rate_limited ip=", 0);
  }

  // --------------------------------------------------------------------- chain

  /** A hash with a hexadecimal result. */
  type Hash = string -> string

  ghost predicate Hex(h: Hash) {
    forall s: string :: Clean(h(s))
  }

  ghost predicate Injective(h: Hash) {
    forall a: string, b: string :: h(a) == h(b) ==> a == b
  }

  function ChainHash(h: Hash, prev: string, payload: string): string {
    h(prev + ['\n'] + payload)
  }

  /** The hash field of a line; empty if the line has no tab. */
  function HashOf(line: string): string {
    match RSplitOnce(line, '\t')
    case None => []
    case Some((_, hash)) => hash
  }

  function LastHash(lines: seq<string>): string {
    if lines == [] then [] else HashOf(lines[|lines| - 1])
  }

  /** A line whose hash covers the hash before it and its own payload. */
  predicate Links(h: Hash, prev: string, line: string) {
    match RSplitOnce(line, '\t')
    case None => false
    case Some((payload, hash)) => hash == ChainHash(h, prev, payload)
  }

  predicate Linked(h: Hash, lines: seq<string>) {
    lines == [] ||
      var n := |lines| - 1;
      Linked(h, lines[..n]) && Links(h, LastHash(lines[..n]), lines[n])
  }

  lemma {:induction false} LinkedPrefix(h: Hash, lines: seq<string>, k: nat)
    requires k <= |lines| && Linked(h, lines)
    ensures Linked(h, lines[..k])
  {
    hide Links, LastHash;
    if k < |lines| {
      LinkedPrefix(h, lines[..|lines| - 1], k);
      assert lines[..|lines| - 1][..k] == lines[..k];
    } else {
      assert lines[..k] == lines;
    }
  }

  lemma NothingLinked(h: Hash, lines: seq<string>)
    ensures Linked(h, lines[..0]) && LastHash(lines[..0]) == []
  {
  }

  lemma LinkedStep(h: Hash, lines: seq<string>, i: nat)
    requires i < |lines|
    ensures Linked(h, lines[..i + 1]) <==> Linked(h, lines[..i]) && Links(h, LastHash(lines[..i]), lines[i])
    ensures LastHash(lines[..i + 1]) == HashOf(lines[i])
  {
    hide Links;
    assert lines[..i + 1][..i] == lines[..i];
  }

  datatype ChainStatus = ValidChain(records: nat) | BrokenAt(line: nat)

  /** `verify`: valid exactly if every line is linked, else the first that is not. */
  method Verify(h: Hash, text: string) returns (status: ChainStatus)
    ensures status.ValidChain? <==> Linked(h, Lines(text))
    ensures status.ValidChain? ==> status.records == |Lines(text)|
    ensures status.BrokenAt? ==>
              status.line < |Lines(text)| && Linked(h, Lines(text)[..status.line]) && !Linked(h, Lines(text)[..status.line + 1])
  {
    hide Lines, ChainHash, RSplitOnce, Linked, LastHash;
    var lines := Lines(text);
    var prev := [];
    var i := 0;
    NothingLinked(h, lines);
    while i < |lines|
      invariant 0 <= i <= |lines|
      invariant Linked(h, lines[..i]) && prev == LastHash(lines[..i])
    {
      LinkedStep(h, lines, i);
      var fields := RSplitOnce(lines[i], '\t');
      if fields.None? || ChainHash(h, prev, fields.value.0) != fields.value.1 {
        if Linked(h, lines) { LinkedPrefix(h, lines, i + 1); }
        return BrokenAt(i);
      }
      prev := fields.value.1;
      i := i + 1;
    }
    assert lines[..i] == lines;
    status := ValidChain(i);
  }

  // ----------------------------------------------------------------------- tip

  /** The first tab-separated field. */
  function FirstField(payload: string): string {
    match SplitOnce(payload, '\t')
    case None => payload
    case Some((first, _)) => first
  }

  datatype TipState = TipState(hash: string, next: nat)

  function TipOf(lines: seq<string>): TipState {
    if lines == [] then TipState([], 0)
    else
      var n := |lines| - 1;
      var t := TipOf(lines[..n]);
      match RSplitOnce(lines[n], '\t')
      case None => t
      case Some((payload, hash)) =>
        var number := ParseUnsigned(FirstField(payload), U64_MAX);
        TipState(hash, if number.Some? then number.value + 1 else t.next)
  }

  /** `tip`. */
  method Tip(text: string) returns (t: TipState)
    ensures t == TipOf(Lines(text))
  {
    hide Lines, FirstField, ParseUnsigned;
    var lines := Lines(text);
    t := TipState([], 0);
    var i := 0;
    while i < |lines|
      invariant 0 <= i <= |lines| && t == TipOf(lines[..i])
    {
      assert lines[..i + 1][..i] == lines[..i];
      var fields := RSplitOnce(lines[i], '\t');
      if fields.Some? {
        var number := ParseUnsigned(FirstField(fields.value.0), U64_MAX);
        if number.Some? { t := t.(next := number.value + 1); }
        t := t.(hash := fields.value.1);
      }
      i := i + 1;
    }
    assert lines[..i] == lines;
  }

  // ---------------------------------------------------------------- file as text

  /** Lines, each ended by a LF. */
  function Unlines(lines: seq<string>): string {
    if lines == [] then [] else lines[0] + ['\n'] + Unlines(lines[1..])
  }

  ghost predicate OneLine(line: string) {
    '\n' !in line && '\r' !in line
  }

  lemma {:induction false} UnlinesSnoc(lines: seq<string>, line: string)
    ensures Unlines(lines + [line]) == Unlines(lines) + (line + ['\n'])
  {
    if lines != [] {
      UnlinesSnoc(lines[1..], line);
      assert (lines + [line])[1..] == lines[1..] + [line];
    }
  }

  lemma LinesFirstOf(line: string, rest: string)
    requires OneLine(line)
    ensures Lines(line + ['\n'] + rest) == [line] + Lines(rest)
  {
    SplitOnceAt(line, '\n', rest);
  }

  lemma UnlinesFirst(lines: seq<string>, torn: string)
    requires lines != []
    ensures Unlines(lines) + torn == lines[0] + ['\n'] + (Unlines(lines[1..]) + torn)
  {
  }

  /** Text made of clean lines, with or without an unfinished one, reads back. */
  lemma {:induction false} LinesOfUnlines(lines: seq<string>, torn: string)
    requires (forall i :: 0 <= i < |lines| ==> OneLine(lines[i])) && OneLine(torn)
    ensures Lines(Unlines(lines) + torn) == lines + if torn == [] then [] else [torn]
    decreases |lines|
  {
    if lines == [] {
      LinesOfTorn(torn);
      assert Unlines([]) + torn == torn;
    } else {
      hide *;
      LinesOfUnlines(lines[1..], torn);
      LinesFirstOf(lines[0], Unlines(lines[1..]) + torn);
      UnlinesFirst(lines, torn);
    }
  }

  lemma LinesOfTorn(torn: string)
    requires OneLine(torn)
    ensures Lines(torn) == if torn == [] then [] else [torn]
  {
  }

  // -------------------------------------------------------------------- records

  /** What one append writes about: its time and its event. */
  datatype Occurrence = Occurrence(secs: nat, event: AuditEvent)

  function Payload(number: nat, o: Occurrence): string {
    Print(number) + (['\t'] + (Print(o.secs) + (['\t'] + Encode(o.event))))
  }

  function RecordLine(h: Hash, prev: string, number: nat, o: Occurrence): string {
    Payload(number, o) + ['\t'] + ChainHash(h, prev, Payload(number, o))
  }

  /** The lines of a chain. */
  function Records(h: Hash, log: seq<Occurrence>): seq<string> {
    if log == [] then []
    else
      var n := |log| - 1;
      var before := Records(h, log[..n]);
      before + [RecordLine(h, LastHash(before), n, log[n])]
  }

  lemma NumberIsClean(n: nat)
    ensures Clean(Print(n))
  {
    assert forall i :: 0 <= i < |Print(n)| ==> Digit(Print(n)[i]);
  }

  lemma CleanHasNone(s: string)
    requires Clean(s)
    ensures OneLine(s) && '\t' !in s
  {
  }

  lemma JoinFields(a: string, b: string)
    requires OneLine(a) && OneLine(b)
    ensures OneLine(a + (['\t'] + b))
  {
  }

  lemma FirstFieldOf(first: string, rest: string)
    requires '\t' !in first
    ensures FirstField(first + (['\t'] + rest)) == first
  {
    hide SplitOnce;
    SplitOnceAt(first, '\t', rest);
    assert first + (['\t'] + rest) == first + ['\t'] + rest;
  }

  lemma PayloadIsOneLine(number: nat, o: Occurrence)
    ensures OneLine(Payload(number, o)) && FirstField(Payload(number, o)) == Print(number)
  {
    hide Print, Encode, Clean, OneLine, FirstField;
    NumberIsClean(number);
    NumberIsClean(o.secs);
    EncodeIsClean(o.event);
    CleanHasNone(Print(number));
    CleanHasNone(Print(o.secs));
    CleanHasNone(Encode(o.event));
    var rest := Print(o.secs) + (['\t'] + Encode(o.event));
    JoinFields(Print(o.secs), Encode(o.event));
    JoinFields(Print(number), rest);
    FirstFieldOf(Print(number), rest);
  }

  lemma RecordFields(h: Hash, prev: string, number: nat, o: Occurrence)
    requires Hex(h)
    ensures var line := RecordLine(h, prev, number, o);
            && OneLine(line)
            && RSplitOnce(line, '\t') == Some((Payload(number, o), ChainHash(h, prev, Payload(number, o))))
            && Links(h, prev, line)
  {
    PayloadIsOneLine(number, o);
    hide Payload;
    RSplitOnceAt(Payload(number, o), '\t', ChainHash(h, prev, Payload(number, o)));
  }

  /** The fields of a payload: number, seconds and event, parted by tabs. */
  lemma PayloadReads(number: nat, o: Occurrence)
    ensures var rest := Print(o.secs) + (['\t'] + Encode(o.event));
            && SplitOnce(Payload(number, o), '\t') == Some((Print(number), rest))
            && SplitOnce(rest, '\t') == Some((Print(o.secs), Encode(o.event)))
  {
    hide Print, Encode, Clean, SplitOnce;
    NumberIsClean(number);
    NumberIsClean(o.secs);
    CleanHasNone(Print(number));
    CleanHasNone(Print(o.secs));
    var rest := Print(o.secs) + (['\t'] + Encode(o.event));
    SplitOnceAt(Print(number), '\t', rest);
    SplitOnceAt(Print(o.secs), '\t', Encode(o.event));
    assert Payload(number, o) == Print(number) + ['\t'] + rest;
    assert rest == Print(o.secs) + ['\t'] + Encode(o.event);
  }

  lemma PrintIsInjective(a: nat, b: nat)
    requires Print(a) == Print(b)
    ensures a == b
  {
    ValueOfPrint(a);
    ValueOfPrint(b);
  }

  /** Equal lines record equal numbers, times and events. */
  lemma RecordTells(h: Hash, prev: string, number: nat, o: Occurrence, prev': string, number': nat, o': Occurrence)
    requires Hex(h) && RecordLine(h, prev, number, o) == RecordLine(h, prev', number', o')
    ensures number == number' && o.secs == o'.secs && Recorded(o.event) == Recorded(o'.event)
  {
    RecordFields(h, prev, number, o);
    RecordFields(h, prev', number', o');
    hide Payload, Print, Encode, RecordLine, SplitOnce, Recorded;
    assert Payload(number, o) == Payload(number', o');
    PayloadReads(number, o);
    PayloadReads(number', o');
    PrintIsInjective(number, number');
    PrintIsInjective(o.secs, o'.secs);
    EncodeReads(o.event);
    EncodeReads(o'.event);
  }

  /** The tip after one more record. */
  lemma TipAfterRecord(h: Hash, lines: seq<string>, o: Occurrence)
    requires Hex(h) && |lines| < U64_MAX
    ensures var line := RecordLine(h, LastHash(lines), |lines|, o);
            TipOf(lines + [line]) == TipState(HashOf(line), |lines| + 1)
  {
    hide RecordLine, Payload, FirstField, ParseUnsigned, Print, Hex, RSplitOnce, LastHash;
    var line := RecordLine(h, LastHash(lines), |lines|, o);
    RecordFields(h, LastHash(lines), |lines|, o);
    PayloadIsOneLine(|lines|, o);
    PrintRoundTrip(|lines|, U64_MAX);
    assert (lines + [line])[..|lines|] == lines;
  }

  /** Appended records are linked, one line each, and their tip is the last hash
      and the next number. */
  lemma {:induction false} RecordsAreChained(h: Hash, log: seq<Occurrence>)
    requires Hex(h) && |log| <= U64_MAX
    ensures var lines := Records(h, log);
            && |lines| == |log| && Linked(h, lines)
            && (forall i :: 0 <= i < |lines| ==> OneLine(lines[i]))
            && TipOf(lines) == TipState(LastHash(lines), |log|)
  {
    hide *;
    if log == [] {
      NoRecords(h);
    } else {
      var n := |log| - 1;
      var before := Records(h, log[..n]);
      var line := RecordLine(h, LastHash(before), n, log[n]);
      RecordsAreChained(h, log[..n]);
      RecordFields(h, LastHash(before), n, log[n]);
      TipAfterRecord(h, before, log[n]);
      RecordsStep(h, log);
      SnocLinked(h, before, line);
      LastOfSnoc(before, line);
    }
  }

  lemma NoRecords(h: Hash)
    ensures Records(h, []) == [] && Linked(h, []) && TipOf([]) == TipState(LastHash([]), 0)
  {
  }

  lemma RecordsStep(h: Hash, log: seq<Occurrence>)
    requires log != []
    ensures var before := Records(h, log[..|log| - 1]);
            Records(h, log) == before + [RecordLine(h, LastHash(before), |log| - 1, log[|log| - 1])]
  {
  }

  // ------------------------------------------------------------------- the sink

  class DurableAuditSink {
    var file: string
    var prevHash: string
    var seqNo: nat

    /** The file is the chain of this log, and the tip is known. */
    ghost predicate Holds(h: Hash, log: seq<Occurrence>)
      reads this
    {
      && file == Unlines(Records(h, log))
      && prevHash == LastHash(Records(h, log)) && seqNo == |log|
    }

    /** `open` on what is there. */
    constructor (h: Hash, existing: string, ghost log: seq<Occurrence>)
      requires Hex(h) && |log| <= U64_MAX
      ensures existing == Unlines(Records(h, log)) ==> Holds(h, log)
      ensures file == existing && TipState(prevHash, seqNo) == TipOf(Lines(existing))
    {
      var t := Tip(existing);
      file, prevHash, seqNo := existing, t.hash, t.next;
      new;
      hide *;
      FileOfRecords(h, log);
      HoldsIf(h, log);
    }

    lemma HoldsIf(h: Hash, log: seq<Occurrence>)
      requires file == Unlines(Records(h, log)) ==> TipState(prevHash, seqNo) == TipState(LastHash(Records(h, log)), |log|)
      ensures file == Unlines(Records(h, log)) ==> Holds(h, log)
    {
    }

    /** `append`. */
    method Append(h: Hash, o: Occurrence, ghost log: seq<Occurrence>)
      requires Hex(h)
      modifies this
      ensures file == old(file) + (RecordLine(h, old(prevHash), old(seqNo), o) + ['\n'])
      ensures old(Holds(h, log)) ==> Holds(h, log + [o])
    {
      hide ChainHash, Payload, Records, Unlines, LastHash;
      RecordsGrow(h, log, o);
      var payload := Payload(seqNo, o);
      var hash := ChainHash(h, prevHash, payload);
      file := file + (payload + ['\t'] + hash + ['\n']);
      seqNo := seqNo + 1;
      prevHash := hash;
    }
  }

  /** The file of a chain reads back as its lines, and its tip is the chain's. */
  lemma FileOfRecords(h: Hash, log: seq<Occurrence>)
    requires Hex(h) && |log| <= U64_MAX
    ensures Lines(Unlines(Records(h, log))) == Records(h, log)
    ensures TipOf(Lines(Unlines(Records(h, log)))) == TipState(LastHash(Records(h, log)), |log|)
  {
    hide *;
    RecordsAreChained(h, log);
    NothingTorn();
    LinesOfUnlines(Records(h, log), []);
    assert Unlines(Records(h, log)) + [] == Unlines(Records(h, log));
  }

  lemma NothingTorn()
    ensures OneLine([])
  {
  }

  lemma RecordsGrow(h: Hash, log: seq<Occurrence>, o: Occurrence)
    ensures var payload := Payload(|log|, o);
            var hash := ChainHash(h, LastHash(Records(h, log)), payload);
            && Unlines(Records(h, log + [o])) == Unlines(Records(h, log)) + (payload + ['\t'] + hash + ['\n'])
            && (Hex(h) ==> LastHash(Records(h, log + [o])) == hash)
  {
    hide ChainHash, Payload, Unlines, Hex, LastHash;
    var longer := log + [o];
    assert longer[..|log|] == log;
    RecordsStep(h, longer);
    UnlinesSnoc(Records(h, log), RecordLine(h, LastHash(Records(h, log)), |log|, o));
    if Hex(h) {
      RecordFields(h, LastHash(Records(h, log)), |log|, o);
      LastOfSnoc(Records(h, log), RecordLine(h, LastHash(Records(h, log)), |log|, o));
    }
  }

  lemma LastOfSnoc(lines: seq<string>, line: string)
    ensures LastHash(lines + [line]) == HashOf(line)
  {
  }

  // ----------------------------------------------------------------------- runs

  datatype Op = Write(occurrence: Occurrence) | Reopen

  function Written(ops: seq<Op>): seq<Occurrence> {
    if ops == [] then []
    else
      var n := |ops| - 1;
      Written(ops[..n]) + if ops[n].Write? then [ops[n].occurrence] else []
  }

  lemma WrittenStep(ops: seq<Op>, i: nat)
    requires i < |ops|
    ensures Written(ops[..i + 1]) == Written(ops[..i]) + if ops[i].Write? then [ops[i].occurrence] else []
  {
    assert ops[..i + 1][..i] == ops[..i];
  }

  lemma {:induction false} WrittenIsShorter(ops: seq<Op>)
    ensures |Written(ops)| <= |ops|
  {
    if ops != [] { WrittenIsShorter(ops[..|ops| - 1]); }
  }

  /** Any appends with reopenings anywhere between: the file verifies with the exact
      number of records, and its tip is the last hash and the next number. */
  method Operate(h: Hash, ops: seq<Op>) returns (file: string, status: ChainStatus, t: TipState)
    requires Hex(h) && |ops| <= U64_MAX
    ensures file == Unlines(Records(h, Written(ops)))
    ensures status == ValidChain(|Written(ops)|)
    ensures t == TipState(LastHash(Records(h, Written(ops))), |Written(ops)|)
  {
    hide Records, Unlines, LastHash, Lines, Linked, Hex, Written, TipOf;
    FreshFile(h, ops);
    var sink := new DurableAuditSink(h, [], []);
    var i := 0;
    while i < |ops|
      invariant 0 <= i <= |ops| && fresh(sink) && sink.Holds(h, Written(ops[..i]))
    {
      WrittenStep(ops, i);
      WrittenIsShorter(ops[..i]);
      match ops[i] {
        case Write(o) =>
          sink.Append(h, o, Written(ops[..i]));
        case Reopen =>
          sink := new DurableAuditSink(h, sink.file, Written(ops[..i]));
      }
      assert ops[i].Reopen? ==> Written(ops[..i]) + [] == Written(ops[..i]);
      i := i + 1;
    }
    assert ops[..i] == ops;
    WrittenIsShorter(ops);
    RecordsAreChained(h, Written(ops));
    FileOfRecords(h, Written(ops));
    file := sink.file;
    status := Verify(h, file);
    t := Tip(file);
  }

  lemma FreshFile(h: Hash, ops: seq<Op>)
    ensures Unlines(Records(h, [])) == [] && Written(ops[..0]) == []
  {
  }

  // ------------------------------------------------------------------ tampering

  lemma LastHashIsClean(h: Hash, lines: seq<string>)
    requires Hex(h) && Linked(h, lines)
    ensures '\n' !in LastHash(lines)
  {
    if lines != [] {
      var last := lines[|lines| - 1];
      assert Links(h, LastHash(lines[..|lines| - 1]), last);
      hide Linked;
    }
  }

  /** Equal chain hashes come from equal predecessors and equal payloads. */
  lemma SamePreimage(h: Hash, prev: string, payload: string, prev': string, payload': string)
    requires Injective(h) && '\n' !in prev && '\n' !in prev'
    requires ChainHash(h, prev, payload) == ChainHash(h, prev', payload')
    ensures prev == prev' && payload == payload'
  {
    SplitOnceAt(prev, '\n', payload);
    SplitOnceAt(prev', '\n', payload');
    hide SplitOnce;
    assert prev + ['\n'] + payload == prev' + ['\n'] + payload';
  }

  lemma SameLastLine(h: Hash, a: seq<string>, b: seq<string>)
    requires Hex(h) && Injective(h) && a != [] && b != []
    requires Linked(h, a) && Linked(h, b) && LastHash(a) == LastHash(b)
    ensures a[|a| - 1] == b[|b| - 1]
    ensures LastHash(a[..|a| - 1]) == LastHash(b[..|b| - 1])
  {
    var m, n := |a| - 1, |b| - 1;
    LastHashIsClean(h, a[..m]);
    LastHashIsClean(h, b[..n]);
    assert Links(h, LastHash(a[..m]), a[m]) && Links(h, LastHash(b[..n]), b[n]);
    var p, q := RSplitOnce(a[m], '\t').value.0, RSplitOnce(b[n], '\t').value.0;
    hide Linked, Hex, ChainHash;
    SamePreimage(h, LastHash(a[..m]), p, LastHash(b[..n]), q);
  }

  /** Two linked chains of the same length with the same last hash are the same. */
  lemma {:induction false} TamperEvident(h: Hash, a: seq<string>, b: seq<string>)
    requires Hex(h) && Injective(h) && Linked(h, a) && Linked(h, b)
    requires |a| == |b| && LastHash(a) == LastHash(b)
    ensures a == b
    decreases |a|
  {
    hide *;
    if a == [] {
      assert b == [];
    } else {
      var n := |a| - 1;
      SameLastLine(h, a, b);
      LinkedPrefix(h, a, n);
      LinkedPrefix(h, b, n);
      TamperEvident(h, a[..n], b[..n]);
      SameEnds(a, b);
    }
  }

  lemma SameEnds<T>(a: seq<T>, b: seq<T>)
    requires |a| == |b| > 0 && a[..|a| - 1] == b[..|b| - 1] && a[|a| - 1] == b[|b| - 1]
    ensures a == b
  {
    assert a == a[..|a| - 1] + [a[|a| - 1]];
  }

  lemma TipOfLinked(h: Hash, lines: seq<string>)
    requires Linked(h, lines)
    ensures TipOf(lines).hash == LastHash(lines)
  {
    if lines != [] {
      assert Links(h, LastHash(lines[..|lines| - 1]), lines[|lines| - 1]);
    }
  }

  /** On any two files that verify: same count and same recovered tip hash mean the
      same records. */
  lemma FilesAgree(h: Hash, a: string, b: string)
    requires Hex(h) && Injective(h) && Linked(h, Lines(a)) && Linked(h, Lines(b))
    requires |Lines(a)| == |Lines(b)| && TipOf(Lines(a)).hash == TipOf(Lines(b)).hash
    ensures Lines(a) == Lines(b)
  {
    hide *;
    TipOfLinked(h, Lines(a));
    TipOfLinked(h, Lines(b));
    TamperEvident(h, Lines(a), Lines(b));
  }

  lemma {:induction false} SameOccurrences(h: Hash, a: seq<Occurrence>, b: seq<Occurrence>, i: nat)
    requires Hex(h) && |a| == |b| && Records(h, a) == Records(h, b) && i < |a|
    ensures a[i].secs == b[i].secs && Recorded(a[i].event) == Recorded(b[i].event)
    decreases |a|
  {
    hide *;
    var n := |a| - 1;
    RecordsStep(h, a);
    RecordsStep(h, b);
    var before, before' := Records(h, a[..n]), Records(h, b[..n]);
    SameSnoc(before, RecordLine(h, LastHash(before), n, a[n]), before', RecordLine(h, LastHash(before'), n, b[n]));
    if i == n {
      RecordTells(h, LastHash(before), n, a[n], LastHash(before'), n, b[n]);
    } else {
      SameOccurrences(h, a[..n], b[..n], i);
    }
  }

  /** Chains of the same length with the same last hash record the same events at the
      same times. */
  lemma ChainsTell(h: Hash, a: seq<Occurrence>, b: seq<Occurrence>)
    requires Hex(h) && Injective(h) && |a| == |b| <= U64_MAX && LastHash(Records(h, a)) == LastHash(Records(h, b))
    ensures forall i :: 0 <= i < |a| ==> a[i].secs == b[i].secs && Recorded(a[i].event) == Recorded(b[i].event)
  {
    hide *;
    RecordsAreChained(h, a);
    RecordsAreChained(h, b);
    TamperEvident(h, Records(h, a), Records(h, b));
    forall i | 0 <= i < |a| ensures a[i].secs == b[i].secs && Recorded(a[i].event) == Recorded(b[i].event) {
      SameOccurrences(h, a, b, i);
    }
  }

  lemma SameSnoc(a: seq<string>, x: string, b: seq<string>, y: string)
    requires a + [x] == b + [y]
    ensures a == b && x == y
  {
    assert |a| == |b| && (a + [x])[|a|] == x && (b + [y])[|a|] == y;
    assert (a + [x])[..|a|] == a && (b + [y])[..|a|] == b;
  }

  // ------------------------------------------------------------------ torn tails

  /** The first field of what precedes the last tab. */
  lemma FirstFieldKept(first: string, rest: string, payload: string, hash: string)
    requires '\t' !in first && '\t' !in hash && first + (['\t'] + rest) == payload + ['\t'] + hash
    ensures FirstField(payload) == first
  {
    var text := payload + ['\t'] + hash;
    assert text[|first|] == '\t' && text[..|first|] == first;
    assert forall i :: |payload| < i < |text| ==> text[i] == hash[i - |payload| - 1];
    assert |first| <= |payload|;
    if |first| == |payload| {
      assert payload == text[..|payload|] == first;
    } else {
      assert payload == first + (['\t'] + payload[|first| + 1..]);
      FirstFieldOf(first, payload[|first| + 1..]);
    }
  }

  lemma TornLines(lines: seq<string>, torn: string)
    requires (forall i :: 0 <= i < |lines| ==> OneLine(lines[i])) && OneLine(torn)
    ensures TipOf(Lines(Unlines(lines) + torn)) == if torn == [] then TipOf(lines) else TipOf(lines + [torn])
  {
    hide OneLine, Lines, Unlines, TipOf;
    LinesOfUnlines(lines, torn);
    assert lines + [] == lines;
  }

  lemma TipWithoutTab(lines: seq<string>, torn: string)
    requires '\t' !in torn
    ensures TipOf(lines + [torn]) == TipOf(lines)
  {
    assert (lines + [torn])[..|lines|] == lines;
    assert RSplitOnce(torn, '\t').None?;
  }

  /** A line that starts with a number and a tab is taken for that record. */
  lemma TipWithTab(lines: seq<string>, number: nat, rest: string)
    requires number <= U64_MAX
    ensures var torn := Print(number) + (['\t'] + rest);
            TipOf(lines + [torn]) == TipState(HashOf(torn), number + 1)
  {
    hide Print, FirstField, ParseUnsigned;
    var torn := Print(number) + (['\t'] + rest);
    NumberIsClean(number);
    CleanHasNone(Print(number));
    assert torn[|Print(number)|] == '\t';
    var fields := RSplitOnce(torn, '\t').value;
    FirstFieldKept(Print(number), rest, fields.0, fields.1);
    PrintRoundTrip(number, U64_MAX);
    assert (lines + [torn])[..|lines|] == lines;
  }

  /** A torn start of a record with a tab holds its whole number. */
  lemma TornNumber(line: string, first: string, rest: string, torn: string)
    requires line == first + (['\t'] + rest) && '\t' !in first && torn <= line && '\t' in torn
    ensures torn == first + (['\t'] + torn[|first| + 1..])
  {
    var i :| 0 <= i < |torn| && torn[i] == '\t';
    assert line[i] == '\t';
    assert i >= |first| by {
      assert forall k :: 0 <= k < |first| ==> line[k] == first[k];
    }
    assert torn == line[..|torn|];
  }

  lemma RecordStart(h: Hash, prev: string, number: nat, o: Occurrence) returns (rest: string)
    ensures RecordLine(h, prev, number, o) == Print(number) + (['\t'] + rest) && '\t' !in Print(number)
  {
    hide Print, Encode, ChainHash;
    NumberIsClean(number);
    CleanHasNone(Print(number));
    rest := Print(o.secs) + (['\t'] + Encode(o.event)) + ['\t'] + ChainHash(h, prev, Payload(number, o));
  }

  /** After a crash that leaves the start of a record, however much of it, the
      recovered tip is still that of the chain if and only if the part left has no
      tab; otherwise the torn record is taken for a whole one. */
  lemma TornTip(h: Hash, log: seq<Occurrence>, torn: string, o: Occurrence)
    requires Hex(h) && |log| < U64_MAX
    requires torn <= RecordLine(h, LastHash(Records(h, log)), |log|, o)
    ensures var t := TipOf(Lines(Unlines(Records(h, log)) + torn));
            && (t == TipState(LastHash(Records(h, log)), |log|) <==> '\t' !in torn)
            && ('\t' in torn ==> t == TipState(HashOf(torn), |log| + 1))
  {
    hide *;
    var before := Records(h, log);
    var line := RecordLine(h, LastHash(before), |log|, o);
    RecordsAreChained(h, log);
    RecordFields(h, LastHash(before), |log|, o);
    TornIsOneLine(line, torn);
    TornLines(before, torn);
    if '\t' in torn {
      TornWithTab(h, before, o, torn);
    } else {
      TipWithoutTab(before, torn);
    }
  }

  lemma TornWithTab(h: Hash, lines: seq<string>, o: Occurrence, torn: string)
    requires torn <= RecordLine(h, LastHash(lines), |lines|, o) && '\t' in torn && |lines| <= U64_MAX
    ensures TipOf(lines + [torn]) == TipState(HashOf(torn), |lines| + 1)
  {
    hide *;
    var rest := RecordStart(h, LastHash(lines), |lines|, o);
    TornNumber(RecordLine(h, LastHash(lines), |lines|, o), Print(|lines|), rest, torn);
    TipWithTab(lines, |lines|, torn[|Print(|lines|)| + 1..]);
  }

  lemma TornIsOneLine(line: string, torn: string)
    requires OneLine(line) && torn <= line
    ensures OneLine(torn)
  {
  }

  /** A concrete torn record: the first one, cut inside its time. */
  lemma TornTipExample(h: Hash) returns (o: Occurrence)
    ensures "0\t17" <= RecordLine(h, [], 0, o) && TipOf(Lines("0\t17")) == TipState("17", 1)
  {
    o := Occurrence(17, FirewallPaused);
    ExampleStart(h, o);
    var torn := "0" + (['\t'] + "17");
    assert torn == "0\t17" && Print(0) == "0";
    hide *;
    TipWithTab([], 0, "17");
    assert [] + [torn] == [torn];
    ExampleFields(torn);
    LinesOfTorn(torn);
  }

  lemma ExampleStart(h: Hash, o: Occurrence)
    requires o == Occurrence(17, FirewallPaused)
    ensures "0\t17" <= RecordLine(h, [], 0, o)
  {
    assert Print(0) == "0" && Print(1) == "1" && Print(17) == "17";
    var rest := ['\t'] + Encode(o.event);
    assert Payload(0, o) == "0" + (['\t'] + ("17" + rest));
    hide Encode, ChainHash;
    assert Payload(0, o) == "0\t17" + rest;
  }

  lemma ExampleFields(torn: string)
    requires torn == "0" + (['\t'] + "17")
    ensures OneLine(torn) && HashOf(torn) == "17" && torn != []
  {
    assert torn == "0" + ['\t'] + "17";
    RSplitOnceAt("0", '\t', "17");
  }

  /** The next append continues the torn line; the result links exactly if there
      was nothing torn and the predecessor was the right one. */
  lemma GluedLinks(h: Hash, prev: string, used: string, number: nat, torn: string, o: Occurrence)
    requires Hex(h) && Injective(h) && '\n' !in prev && '\n' !in used && (torn == [] ==> used == prev)
    ensures Links(h, prev, torn + RecordLine(h, used, number, o)) <==> torn == []
  {
    var payload := Payload(number, o);
    var hash := ChainHash(h, used, payload);
    assert torn + RecordLine(h, used, number, o) == (torn + payload) + ['\t'] + hash;
    hide Payload;
    RSplitOnceAt(torn + payload, '\t', hash);
    if ChainHash(h, prev, torn + payload) == hash {
      SamePreimage(h, prev, torn + payload, used, payload);
      assert |torn + payload| == |payload|;
    } else {
      assert torn == [] ==> torn + payload == payload;
    }
  }

  lemma TipHashIsOneLine(lines: seq<string>, torn: string)
    requires OneLine(torn) && '\n' !in TipOf(lines).hash
    ensures '\n' !in TipOf(lines + [torn]).hash
  {
    assert (lines + [torn])[..|lines|] == lines;
  }

  /** Whatever unfinished line a crash leaves, an append after reopening makes the
      file verify if and only if nothing was left. */
  lemma TornTail(h: Hash, log: seq<Occurrence>, torn: string, o: Occurrence)
    requires Hex(h) && Injective(h) && |log| <= U64_MAX && OneLine(torn)
    ensures var file := Unlines(Records(h, log)) + torn;
            var t := TipOf(Lines(file));
            Linked(h, Lines(file + (RecordLine(h, t.hash, t.next, o) + ['\n']))) <==> torn == []
  {
    hide *;
    var before := Records(h, log);
    var t := TipOf(Lines(Unlines(before) + torn));
    RecordsAreChained(h, log);
    LastHashIsClean(h, before);
    TornLines(before, torn);
    TipHashIsOneLine(before, torn);
    var line := RecordLine(h, t.hash, t.next, o);
    RecordFields(h, t.hash, t.next, o);
    JoinOneLine(torn, line);
    GluedLinks(h, LastHash(before), t.hash, t.next, torn, o);
    TornAppend(before, torn, line);
    SnocLinked(h, before, torn + line);
  }

  lemma JoinOneLine(a: string, b: string)
    requires OneLine(a) && OneLine(b)
    ensures OneLine(a + b)
  {
  }

  /** The same, as the sink does it: open, append, verify. */
  method ReopenTorn(h: Hash, ghost log: seq<Occurrence>, file: string, ghost torn: string, o: Occurrence)
    returns (status: ChainStatus)
    requires Hex(h) && Injective(h) && |log| <= U64_MAX && OneLine(torn)
    requires file == Unlines(Records(h, log)) + torn
    ensures status.ValidChain? <==> torn == []
  {
    hide *;
    TornTail(h, log, torn, o);
    var sink := new DurableAuditSink(h, file, log);
    sink.Append(h, o, log);
    status := Verify(h, sink.file);
  }

  lemma TornAppend(lines: seq<string>, torn: string, line: string)
    requires (forall i :: 0 <= i < |lines| ==> OneLine(lines[i])) && OneLine(torn + line)
    ensures Lines(Unlines(lines) + torn + (line + ['\n'])) == lines + [torn + line]
  {
    hide OneLine, Lines, Unlines;
    var longer := lines + [torn + line];
    UnlinesSnoc(lines, torn + line);
    NothingTorn();
    LinesOfUnlines(longer, []);
    assert Unlines(lines) + torn + (line + ['\n']) == Unlines(longer) + [];
    assert longer + [] == longer;
  }

  lemma SnocLinked(h: Hash, lines: seq<string>, line: string)
    requires Linked(h, lines)
    ensures Linked(h, lines + [line]) <==> Links(h, LastHash(lines), line)
  {
    assert (lines + [line])[..|lines|] == lines;
  }
}