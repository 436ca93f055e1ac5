/**
 The relaying SMTP client: one conversation with one server, against any replies,
 broken connections and handshake outcomes.
 */
module RelayClient {
  import opened Text
  import opened Octets
  import Framing
  import opened Mailboxes

  datatype Channel = Plain | Tls

  datatype TlsPolicy = NoTls | Opportunistic | Strict

  /** What the client sends; at `Greeting` it only listens. */
  datatype What =
    | Greeting | Ehlo | StartTls
    | MailFrom(from: string) | RcptTo(to: string) | Data | Payload(bytes: Bytes)

  /** A reply, or a socket error, an end of stream or a malformed reply. */
  datatype Answer = Reply(code: nat, lines: seq<string>) | Broken

  datatype Exchange = Exchange(channel: Channel, what: What, answer: Answer)

  /** Everything the other side decides: `answers(i)` follows the i-th thing sent. */
  datatype Server = Server(connects: bool, answers: nat -> Answer, pipelines: bool, handshakes: bool)

  datatype Mail = Mail(env: Envelope, raw: Bytes)

  datatype Result = Delivered | Deferred(code: nat) | Failed(code: nat) | IoError

  // ------------------------------------------------------------------- replies

  predicate Positive(code: nat) {
    200 <= code < 300
  }

  predicate Accepts(what: What, code: nat) {
    if what == Greeting then 200 <= code < 400
    else if what == Data then code == 354
    else Positive(code)
  }

  predicate Transient(code: nat) {
    code == 0 || 400 <= code < 500
  }

  /** `classify`. */
  function Classify(code: nat): Result {
    if Transient(code) then Deferred(code) else Failed(code)
  }

  /** The first word of a capability line. */
  function FirstWord(line: string): string {
    UpToSpace(TrimStart(line))
  }

  function UpToSpace(s: string): string {
    if s == [] || Whitespace(s[0]) then [] else [s[0]] + UpToSpace(s[1..])
  }

  /** `advertises_starttls`. */
  predicate AdvertisesStartTls(lines: seq<string>) {
    exists i :: 0 <= i < |lines| && EqIgnoreCase(FirstWord(lines[i]), "STARTTLS")
  }

  /** The line's first word is `word`. */
  ghost predicate Leads(line: string, before: string, word: string, behind: string) {
    line == before + word + behind && Blank(before) && (behind == [] || Whitespace(behind[0]))
  }

  /** Some line has STARTTLS, in any case, as its first word. */
  ghost predicate OffersStartTls(lines: seq<string>) {
    exists i, before, word, behind :: 0 <= i < |lines| && Leads(lines[i], before, word, behind) && Lower(word) == "starttls"
  }

  lemma {:induction false} UpToSpaceIs(word: string, behind: string)
    requires (forall i :: 0 <= i < |word| ==> !Whitespace(word[i])) && (behind == [] || Whitespace(behind[0]))
    ensures UpToSpace(word + behind) == word
    decreases |word|
  {
    hide Whitespace;
    if word == [] {
      assert word + behind == behind;
    } else {
      assert (word + behind)[1..] == word[1..] + behind;
      UpToSpaceIs(word[1..], behind);
    }
  }

  lemma {:induction false} UpToSpaceSplits(s: string) returns (behind: string)
    ensures s == UpToSpace(s) + behind && (behind == [] || Whitespace(behind[0]))
  {
    hide Whitespace;
    behind := s;
    if s != [] && !Whitespace(s[0]) { behind := UpToSpaceSplits(s[1..]); }
  }

  lemma {:induction false} TrimStartSkips(before: string, s: string)
    requires Blank(before) && (s == [] || !Whitespace(s[0]))
    ensures TrimStart(before + s) == s
    decreases |before|
  {
    hide Whitespace;
    if before == [] {
      assert before + s == s;
    } else {
      assert (before + s)[1..] == before[1..] + s;
      TrimStartSkips(before[1..], s);
    }
  }

  lemma StartTlsIsAWord(word: string)
    requires Lower(word) == "starttls"
    ensures word != [] && forall i :: 0 <= i < |word| ==> !Whitespace(word[i])
  {
    LowerIsLower(word);
    assert |word| == 8;
    forall i | 0 <= i < |word| ensures !Whitespace(word[i]) {
      assert Lower(word)[i] in "starttls" && SameLetter(word[i], Lower(word)[i]);
    }
  }

  lemma FirstWordIs(line: string, before: string, word: string, behind: string)
    requires Leads(line, before, word, behind) && Lower(word) == "starttls"
    ensures FirstWord(line) == word
  {
    StartTlsIsAWord(word);
    hide Whitespace, Lower;
    assert line == before + (word + behind);
    TrimStartSkips(before, word + behind);
    UpToSpaceIs(word, behind);
  }

  /** The keyword search finds exactly the lines whose first word it is. */
  lemma OfferIsFound(lines: seq<string>)
    ensures AdvertisesStartTls(lines) <==> OffersStartTls(lines)
  {
    var keyword := "STARTTLS";
    assert Lower(keyword) == "starttls";
    if AdvertisesStartTls(lines) {
      var i :| 0 <= i < |lines| && EqIgnoreCase(FirstWord(lines[i]), keyword);
      hide Lower, Whitespace, FirstWord, UpToSpace;
      var before := TrimStartIs(lines[i]);
      var behind := UpToSpaceSplits(TrimStart(lines[i]));
      var word := UpToSpace(TrimStart(lines[i]));
      assert FirstWord(lines[i]) == word by { FirstWordUnfolds(lines[i]); }
      assert before + (word + behind) == before + word + behind;
      assert Leads(lines[i], before, word, behind) && Lower(word) == "starttls";
    }
    if OffersStartTls(lines) {
      var i, before, word, behind :| 0 <= i < |lines| && Leads(lines[i], before, word, behind) && Lower(word) == "starttls";
      FirstWordIs(lines[i], before, word, behind);
      assert EqIgnoreCase(FirstWord(lines[i]), keyword);
    }
  }

  lemma FirstWordUnfolds(line: string)
    ensures FirstWord(line) == UpToSpace(TrimStart(line))
  {
  }

  // ------------------------------------------------------------------- scripts

  /** One thing to send, and on which channel. */
  datatype Cue = Cue(channel: Channel, what: What)

  function RcptCues(recipients: seq<Mailbox>, channel: Channel): (r: seq<Cue>)
    ensures |r| == |recipients|
    ensures forall i :: 0 <= i < |r| ==> r[i] == Cue(channel, RcptTo(Display(recipients[i])))
  {
    seq(|recipients|, i requires 0 <= i < |recipients| => Cue(channel, RcptTo(Display(recipients[i]))))
  }

  /** Empty for the null sender. */
  function SenderText(env: Envelope): string {
    if env.sender.None? then [] else Display(env.sender.value)
  }

  function Handshake(upgrade: bool): seq<Cue> {
    [Cue(Plain, Greeting), Cue(Plain, Ehlo)] + if upgrade then [Cue(Plain, StartTls), Cue(Tls, Ehlo)] else []
  }

  function EnvelopeCues(m: Mail, channel: Channel): seq<Cue> {
    [Cue(channel, MailFrom(SenderText(m.env)))] + RcptCues(m.env.recipients, channel) + [Cue(channel, Data)]
  }

  /** A whole conversation in which nothing goes wrong. */
  function Script(m: Mail, upgrade: bool): seq<Cue> {
    var channel := if upgrade then Tls else Plain;
    Handshake(upgrade) + EnvelopeCues(m, channel) + [Cue(channel, Payload(Framing.DotStuff(m.raw)))]
  }

  // --------------------------------------------------------------- transcripts

  ghost predicate Answered(x: Exchange, low: nat, high: nat) {
    x.answer.Reply? && low <= x.answer.code <= high
  }

  /** The reply that lets the conversation go on: 2xx, and for the greeting also
      3xx, but for DATA 354. */
  ghost predicate Fine(x: Exchange) {
    match x.what
    case Greeting => Answered(x, 200, 399)
    case Data => Answered(x, 354, 354)
    case _ => Answered(x, 200, 299)
  }

  /** The plaintext EHLO was answered with STARTTLS among the capabilities. */
  ghost predicate Advertised(t: seq<Exchange>) {
    |t| > 1 && t[1].answer.Reply? && OffersStartTls(t[1].answer.lines)
  }

  ghost predicate Upgrades(policy: TlsPolicy, t: seq<Exchange>) {
    policy != NoTls && Advertised(t)
  }

  ghost predicate Plays(x: Exchange, cue: Cue, answer: Answer) {
    x == Exchange(cue.channel, cue.what, answer)
  }

  /** A conversation that follows the script, going on only after positive replies. */
  ghost predicate Follows(t: seq<Exchange>, script: seq<Cue>, server: Server) {
    && |t| <= |script|
    && (forall i :: 0 <= i < |t| ==> Plays(t[i], script[i], server.answers(i)))
    && (forall i :: 0 <= i < |t| - 1 ==> Fine(t[i]))
  }

  /** So far, so good. */
  ghost predicate Smooth(t: seq<Exchange>, script: seq<Cue>, server: Server) {
    Follows(t, script, server) && (t != [] ==> Fine(t[|t| - 1]))
  }

  /** Commands of the mail transaction, and the message itself. */
  ghost predicate CarriesMail(what: What) {
    what.MailFrom? || what.RcptTo? || what.Data? || what.Payload?
  }

  /** No part of the transaction in the clear. */
  ghost predicate Protected(t: seq<Exchange>) {
    forall i :: 0 <= i < |t| && CarriesMail(t[i].what) ==> t[i].channel == Tls
  }

  lemma NextExchange(t: seq<Exchange>, script: seq<Cue>, server: Server, x: Exchange)
    requires Smooth(t, script, server) && |t| < |script| && Plays(x, script[|t|], server.answers(|t|))
    ensures Follows(t + [x], script, server)
    ensures Fine(x) ==> Smooth(t + [x], script, server)
  {
    hide Plays, Fine;
    var t' := t + [x];
    forall i | 0 <= i < |t'| ensures Plays(t'[i], script[i], server.answers(i)) {
      if i < |t| { assert t'[i] == t[i]; }
    }
  }

  /** Scripts with and without upgrade open alike. */
  lemma SameOpening(t: seq<Exchange>, m: Mail, server: Server, policy: TlsPolicy)
    requires |t| <= 2
    ensures Follows(t, Script(m, true), server) <==> Follows(t, Script(m, false), server)
    ensures Smooth(t, Script(m, true), server) <==> Smooth(t, Script(m, false), server)
    ensures forall r :: Explains(r, t, Script(m, true), policy, server) <==> Explains(r, t, Script(m, false), policy, server)
  {
    hide Plays, Fine, Advertised;
    assert forall i :: 0 <= i < 2 ==> Script(m, true)[i] == Script(m, false)[i];
    assert |Script(m, true)| > 3 && |Script(m, false)| > 3;
  }

  // ------------------------------------------------------------- the transaction

  /** The report of a conversation that ended with `x`, a reply not accepted: try
      again after 4xx, the code 0 or a refused STARTTLS, and otherwise give up. */
  ghost function Refused(x: Exchange): Result
    requires x.answer.Reply?
  {
    var code := x.answer.code;
    if x.what == StartTls || code == 0 || 400 <= code <= 499 then Deferred(code) else Failed(code)
  }

  /** What a result says about where the conversation stopped. */
  ghost predicate Explains(r: Result, t: seq<Exchange>, script: seq<Cue>, policy: TlsPolicy, server: Server) {
    if t == [] then !server.connects && r == Deferred(0)
    else
      var last := t[|t| - 1];
      && server.connects
      && (last.answer.Broken? ==> r == IoError)
      && (last.answer.Reply? && !Fine(last) ==> r == Refused(last))
      && (Fine(last) && |t| == |script| ==> r == Delivered)
      && (Fine(last) && |t| < |script| ==>
            && r == Deferred(0)
            && (if |t| == 2 then policy == Strict && !Advertised(t)
                else |t| == 3 && last.what == StartTls && (server.pipelines || !server.handshakes)))
  }

  /** Send the next thing of the script, then wait for the reply. */
  method Say(server: Server, channel: Channel, what: What, before: seq<Exchange>, ghost script: seq<Cue>, ghost policy: TlsPolicy)
    returns (answer: Answer, t: seq<Exchange>)
    requires server.connects && Smooth(before, script, server) && |before| < |script| && script[|before|] == Cue(channel, what)
    ensures t == before + [Exchange(channel, what, answer)] && before <= t
    ensures Follows(t, script, server)
    ensures answer.Reply? && Accepts(what, answer.code) ==> Smooth(t, script, server)
    ensures answer.Reply? && Accepts(what, answer.code) && |t| == |script| ==> Explains(Delivered, t, script, policy, server)
    ensures answer.Broken? ==> Explains(IoError, t, script, policy, server)
    ensures answer.Reply? && !Accepts(what, answer.code) ==> Explains(Refused(t[|before|]), t, script, policy, server)
  {
    answer := server.answers(|before|);
    var x := Exchange(channel, what, answer);
    NextExchange(before, script, server, x);
    StopsAt(before, x, script, policy, server);
    t := before + [x];
  }

  /** What it means to stop with `x`. */
  lemma StopsAt(t: seq<Exchange>, x: Exchange, script: seq<Cue>, policy: TlsPolicy, server: Server)
    requires server.connects
    ensures x.answer.Broken? ==> Explains(IoError, t + [x], script, policy, server)
    ensures x.answer.Reply? && !Fine(x) ==> Explains(Refused(x), t + [x], script, policy, server)
    ensures Fine(x) && |t| + 1 == |script| ==> Explains(Delivered, t + [x], script, policy, server)
  {
    hide Advertised, Accepts, Classify;
  }

  /** The envelope commands, then the message, over whichever channel there is. */
  method Transact(server: Server, m: Mail, upgraded: bool, handshake: seq<Exchange>, ghost policy: TlsPolicy)
    returns (r: Result, t: seq<Exchange>)
    requires server.connects && |handshake| == |Handshake(upgraded)|
    requires Smooth(handshake, Script(m, upgraded), server)
    ensures handshake <= t && Follows(t, Script(m, upgraded), server)
    ensures Explains(r, t, Script(m, upgraded), policy, server)
    ensures |t| > |handshake|
  {
    hide Handshake, EnvelopeCues, Smooth, Follows, Script, Explains, Accepts, Framing.DotStuff;
    ghost var script := Script(m, upgraded);
    var channel := if upgraded then Tls else Plain;
    var cues := EnvelopeCues(m, channel);
    EnvelopeIsScripted(m, upgraded);
    t := handshake;
    var answer;
    var i := 0;
    while i < |cues|
      invariant 0 <= i <= |cues| && |t| == |handshake| + i && handshake <= t
      invariant Smooth(t, script, server)
    {
      assert script[|handshake| + i] == cues[i];
      answer, t := Say(server, channel, cues[i].what, t, script, policy);
      if answer.Broken? { return IoError, t; }
      if !Accepts(cues[i].what, answer.code) { return Classify(answer.code), t; }
      i := i + 1;
    }
    var payload := Framing.DotStuffBytes(m.raw);
    answer, t := Say(server, channel, Payload(payload), t, script, policy);
    if answer.Broken? { return IoError, t; }
    r := if Accepts(Payload(payload), answer.code) then Delivered else Classify(answer.code);
  }

  /** The envelope cues stand in the script behind the handshake. */
  lemma EnvelopeIsScripted(m: Mail, upgraded: bool)
    ensures var h, channel := |Handshake(upgraded)|, if upgraded then Tls else Plain;
            var cues, script := EnvelopeCues(m, channel), Script(m, upgraded);
            && |cues| == |m.env.recipients| + 2
            && |script| == h + |cues| + 1
            && (forall i :: 0 <= i < |cues| ==> script[h + i] == cues[i] && cues[i].channel == channel && cues[i].what != StartTls)
            && script[h + |cues|] == Cue(channel, Payload(Framing.DotStuff(m.raw)))
            && h >= 2
  {
  }

  // ----------------------------------------------------------------- the client

  /** `relay_to`. Against every server: the conversation follows the script and the
      result says where it stopped; under `Strict`, and under `Opportunistic` once
      STARTTLS was advertised, no envelope command and no message byte is sent in
      the clear. */
  method RelayTo(server: Server, m: Mail, policy: TlsPolicy) returns (r: Result, t: seq<Exchange>)
    ensures Follows(t, Script(m, Upgrades(policy, t)), server)
    ensures Explains(r, t, Script(m, Upgrades(policy, t)), policy, server)
    ensures Upgrades(policy, t) && Fine(t[1]) ==> |t| > 2 && t[2].channel == Plain && t[2].what == StartTls
    ensures policy == Strict || (policy == Opportunistic && Advertised(t)) ==> Protected(t)
  {
    hide Follows, Smooth, Script, Protected, Accepts, Advertised, Explains;
    t := [];
    ScriptOpens(m, server);
    if !server.connects {
      NothingSent(m, server, policy);
      return Deferred(0), t;
    }
    var answer;
    answer, t := Say(server, Plain, Greeting, t, Script(m, false), policy);
    SameOpening(t, m, server, policy);
    OpeningIsProtected(t, m, server);
    if answer.Broken? { return IoError, t; }
    if !Accepts(Greeting, answer.code) { return Classify(answer.code), t; }

    answer, t := Say(server, Plain, Ehlo, t, Script(m, false), policy);
    SameOpening(t, m, server, policy);
    OpeningIsProtected(t, m, server);
    if answer.Broken? { return IoError, t; }
    if !Accepts(Ehlo, answer.code) { return Classify(answer.code), t; }

    var advertised := AdvertisesStartTls(answer.lines);
    OpeningAdvertises(t);
    if policy == Strict && !advertised {
      NoUpgrade(t, m, policy, server);
      return Deferred(0), t;
    }
    ghost var opening := t;
    if policy != NoTls && advertised {
      r, t := Upgrade(server, m, t, policy);
      UpgradeIsProtected(t, m, server);
    } else {
      r, t := Transact(server, m, false, t, policy);
    }
    SameAdvertisement(opening, t);
  }

  /** STARTTLS, the TLS handshake, a second EHLO, and the transaction over TLS. */
  method Upgrade(server: Server, m: Mail, opening: seq<Exchange>, ghost policy: TlsPolicy) returns (r: Result, t: seq<Exchange>)
    requires server.connects && |opening| == 2 && Smooth(opening, Script(m, true), server)
    ensures opening <= t && |t| > 2 && Follows(t, Script(m, true), server)
    ensures Explains(r, t, Script(m, true), policy, server)
  {
    hide Follows, Smooth, Script, Explains;
    UpgradeIsScripted(m);
    var answer;
    answer, t := Say(server, Plain, StartTls, opening, Script(m, true), policy);
    if answer.Broken? { return IoError, t; }
    if !Positive(answer.code) { return Deferred(answer.code), t; }
    if server.pipelines || !server.handshakes { UpgradeFails(t, m, policy, server); }
    if server.pipelines { return Deferred(0), t; }
    if !server.handshakes { return Deferred(0), t; }

    answer, t := Say(server, Tls, Ehlo, t, Script(m, true), policy);
    if answer.Broken? { return IoError, t; }
    if !Positive(answer.code) { return Classify(answer.code), t; }
    r, t := Transact(server, m, true, t, policy);
  }

  lemma UpgradeFails(t: seq<Exchange>, m: Mail, policy: TlsPolicy, server: Server)
    requires server.connects && |t| == 3 && t[2].what == StartTls && Fine(t[2]) && (server.pipelines || !server.handshakes)
    ensures Explains(Deferred(0), t, Script(m, true), policy, server)
  {
    UpgradeIsScripted(m);
  }

  lemma NoUpgrade(t: seq<Exchange>, m: Mail, policy: TlsPolicy, server: Server)
    requires server.connects && |t| == 2 && Fine(t[1]) && policy == Strict && !Advertised(t)
    ensures Explains(Deferred(0), t, Script(m, false), policy, server)
  {
    ScriptOpens(m, server);
  }

  lemma OpeningAdvertises(t: seq<Exchange>)
    requires |t| == 2 && t[1].answer.Reply?
    ensures Advertised(t) <==> AdvertisesStartTls(t[1].answer.lines)
  {
    OfferIsFound(t[1].answer.lines);
  }

  lemma SameAdvertisement(t: seq<Exchange>, t': seq<Exchange>)
    requires |t| == 2 && t <= t'
    ensures Advertised(t') <==> Advertised(t)
  {
    assert t'[1] == t[1];
  }

  lemma ScriptOpens(m: Mail, server: Server)
    ensures forall upgrade :: var script := Script(m, upgrade);
              && |script| > 3 && script[0] == Cue(Plain, Greeting) && script[1] == Cue(Plain, Ehlo)
              && Smooth([], script, server)
  {
  }

  lemma NothingSent(m: Mail, server: Server, policy: TlsPolicy)
    ensures Protected([]) && !Advertised([])
    ensures forall upgrade :: Follows([], Script(m, upgrade), server)
    ensures !server.connects ==> forall upgrade :: Explains(Deferred(0), [], Script(m, upgrade), policy, server)
  {
  }

  lemma UpgradeIsScripted(m: Mail)
    ensures var script := Script(m, true);
            |script| > 4 && script[2] == Cue(Plain, StartTls) && script[3] == Cue(Tls, Ehlo) && |Handshake(true)| == 4
  {
  }

  lemma OpeningIsProtected(t: seq<Exchange>, m: Mail, server: Server)
    requires |t| <= 2 && Follows(t, Script(m, false), server)
    ensures Protected(t) && (|t| < 2 ==> !Advertised(t))
  {
    assert forall i :: 0 <= i < |t| ==> Plays(t[i], Script(m, false)[i], server.answers(i));
  }

  /** In an upgraded script everything from the second EHLO on is encrypted. */
  lemma UpgradeIsProtected(t: seq<Exchange>, m: Mail, server: Server)
    requires Follows(t, Script(m, true), server)
    ensures Protected(t) && (|t| > 2 ==> t[2].channel == Plain && t[2].what == StartTls)
  {
    var script := Script(m, true);
    EnvelopeIsScripted(m, true);
    UpgradeIsScripted(m);
    assert |t| > 2 ==> Plays(t[2], script[2], server.answers(2));
    forall i | 0 <= i < |t| && CarriesMail(t[i].what) ensures t[i].channel == Tls {
      assert Plays(t[i], script[i], server.answers(i));
      UpgradedCue(m, i);
    }
  }

  lemma UpgradedCue(m: Mail, i: nat)
    requires i < |Script(m, true)| && CarriesMail(Script(m, true)[i].what)
    ensures Script(m, true)[i].channel == Tls
  {
    EnvelopeIsScripted(m, true);
    if i >= 4 && i < |Script(m, true)| - 1 {
      assert Script(m, true)[4 + (i - 4)] == EnvelopeCues(m, Tls)[i - 4];
    }
  }

  /** The server took the transaction: MAIL, every RCPT in order and the message
      with 2xx, DATA with 354. */
  ghost predicate Taken(t: seq<Exchange>, m: Mail) {
    |t| >= |m.env.recipients| + 5 && TakenFrom(t, m, |t| - |m.env.recipients| - 3)
  }

  ghost function Written(box: Mailbox): string {
    box.local + "@" + box.domain
  }

  ghost predicate TakenFrom(t: seq<Exchange>, m: Mail, n: nat)
    requires |t| == n + |m.env.recipients| + 3
  {
    var rcpts := m.env.recipients;
    && t[n].what == MailFrom(if m.env.sender.None? then "" else Written(m.env.sender.value)) && Answered(t[n], 200, 299)
    && (forall i :: 0 <= i < |rcpts| ==> RcptTaken(t, m, n, i))
    && t[|t| - 2].what == Data && Answered(t[|t| - 2], 354, 354)
    && t[|t| - 1].what == Payload(Framing.DotStuff(m.raw)) && Answered(t[|t| - 1], 200, 299)
  }

  ghost predicate RcptTaken(t: seq<Exchange>, m: Mail, n: nat, i: nat)
    requires |t| == n + |m.env.recipients| + 3 && i < |m.env.recipients|
  {
    t[n + 1 + i].what == RcptTo(Written(m.env.recipients[i])) && Answered(t[n + 1 + i], 200, 299)
  }

  /** `Delivered` exactly if the server took the whole transaction. */
  lemma DeliveredExactly(r: Result, t: seq<Exchange>, m: Mail, upgrade: bool, policy: TlsPolicy, server: Server)
    requires Follows(t, Script(m, upgrade), server) && Explains(r, t, Script(m, upgrade), policy, server)
    ensures r == Delivered <==> Taken(t, m)
  {
    EnvelopeIsScripted(m, upgrade);
    if r == Delivered {
      WholeIsTaken(t, m, upgrade, server);
    } else if Taken(t, m) {
      LastIsPayload(t, m, upgrade, server);
    }
  }

  /** The script from MAIL on, position by position. */
  lemma TransactionCues(m: Mail, upgrade: bool)
    ensures var script, h, rcpts := Script(m, upgrade), |Handshake(upgrade)|, m.env.recipients;
            && |script| == h + |rcpts| + 3
            && (forall i :: h <= i < |script| ==> script[i].channel == if upgrade then Tls else Plain)
            && script[h].what == MailFrom(if m.env.sender.None? then "" else Written(m.env.sender.value))
            && (forall i :: 0 <= i < |rcpts| ==> script[h + 1 + i].what == RcptTo(Written(rcpts[i])))
            && script[|script| - 2].what == Data
            && script[|script| - 1].what == Payload(Framing.DotStuff(m.raw))
            && (forall i :: 0 <= i < |script| - 1 ==> !script[i].what.Payload?)
  {
    hide Framing.DotStuff;
  }

  lemma WholeIsTaken(t: seq<Exchange>, m: Mail, upgrade: bool, server: Server)
    requires Smooth(t, Script(m, upgrade), server) && |t| == |Script(m, upgrade)|
    ensures Taken(t, m)
  {
    hide Script, Display, Smooth, SenderText, Written, Framing.DotStuff;
    var script, h, rcpts := Script(m, upgrade), |Handshake(upgrade)|, m.env.recipients;
    assert h >= 2;
    hide Handshake;
    TransactionCues(m, upgrade);
    SmoothIsFine(t, script, server);
    FineAt(t, script, server, h);
    FineAt(t, script, server, |t| - 2);
    FineAt(t, script, server, |t| - 1);
    forall i | 0 <= i < |rcpts| ensures RcptTaken(t, m, h, i) {
      FineAt(t, script, server, h + 1 + i);
    }
    assert TakenFrom(t, m, h);
    assert h == |t| - |rcpts| - 3;
  }

  /** One exchange of a smooth conversation. */
  lemma FineAt(t: seq<Exchange>, script: seq<Cue>, server: Server, i: nat)
    requires i < |t| <= |script| && Plays(t[i], script[i], server.answers(i)) && Fine(t[i])
    ensures t[i].what == script[i].what
    ensures t[i].what == Data ==> Answered(t[i], 354, 354)
    ensures t[i].what != Data && t[i].what != Greeting ==> Answered(t[i], 200, 299)
  {
  }

  lemma SmoothIsFine(t: seq<Exchange>, script: seq<Cue>, server: Server)
    requires Smooth(t, script, server)
    ensures |t| <= |script| && forall i :: 0 <= i < |t| ==> Plays(t[i], script[i], server.answers(i)) && Fine(t[i])
  {
    hide Plays, Fine;
  }

  /** The message is only ever sent last. */
  lemma LastIsPayload(t: seq<Exchange>, m: Mail, upgrade: bool, server: Server)
    requires Follows(t, Script(m, upgrade), server) && t != [] && t[|t| - 1].what.Payload?
    ensures |t| == |Script(m, upgrade)|
  {
    hide Script, Handshake;
    TransactionCues(m, upgrade);
    assert Plays(t[|t| - 1], Script(m, upgrade)[|t| - 1], server.answers(|t| - 1));
  }
}
