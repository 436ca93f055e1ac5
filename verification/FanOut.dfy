/**
 Recipient fan-out: routing each recipient to local delivery or to relay, and
 splitting the relayed ones into one spool entry per domain.
 */
module FanOut {
  import opened Text
  import opened Mailboxes

  /** A message: its envelope and its verbatim bytes. */
  datatype Message = Message(env: Envelope, raw: string)

  datatype Authorization = Permitted | Forbidden

  /** Domains compare in lower case. */
  function DomainKey(m: Mailbox): string {
    Lower(m.domain)
  }

  /** `Mta::route`: hosted here or not. */
  predicate IsLocal(hosted: set<string>, m: Mailbox) {
    DomainKey(m) in hosted
  }

  /** Domains are one exactly up to the case of letters. */
  lemma DomainsAreCaseless(a: Mailbox, b: Mailbox)
    ensures DomainKey(a) == DomainKey(b) <==> SameLetters(a.domain, b.domain)
  {
    LowerIsCaseless(a.domain, b.domain);
  }

  /** Local means that some hosted name, written without capitals, is the domain. */
  lemma LocalExactly(hosted: set<string>, m: Mailbox)
    ensures IsLocal(hosted, m) <==> exists h :: h in hosted && Lowered(h) && SameLetters(h, m.domain)
  {
    if IsLocal(hosted, m) {
      LowerIsLower(m.domain);
      assert Lower(m.domain) in hosted && Lowered(Lower(m.domain)) && SameLetters(Lower(m.domain), m.domain);
    }
    if h :| h in hosted && Lowered(h) && SameLetters(h, m.domain) {
      LowerIsCaseless(h, m.domain);
      assert Lower(h) == h;
    }
  }

  ghost predicate Lowered(s: string) {
    forall i :: 0 <= i < |s| ==> !('A' <= s[i] <= 'Z')
  }

  /** The recipients whose domain is in `keys`, in order. */
  function Within(recipients: seq<Mailbox>, keys: set<string>): seq<Mailbox> {
    if recipients == [] then []
    else
      var n := |recipients| - 1;
      Within(recipients[..n], keys) + if DomainKey(recipients[n]) in keys then [recipients[n]] else []
  }

  function Outside(recipients: seq<Mailbox>, keys: set<string>): seq<Mailbox> {
    if recipients == [] then []
    else
      var n := |recipients| - 1;
      Outside(recipients[..n], keys) + if DomainKey(recipients[n]) in keys then [] else [recipients[n]]
  }

  function KeysOf(recipients: seq<Mailbox>): set<string> {
    set i | 0 <= i < |recipients| :: DomainKey(recipients[i])
  }

  // -------------------------------------------------------------- conservation

  lemma {:induction false} PartitionConserves(recipients: seq<Mailbox>, keys: set<string>)
    ensures multiset(Within(recipients, keys)) + multiset(Outside(recipients, keys)) == multiset(recipients)
  {
    if recipients != [] {
      var n := |recipients| - 1;
      PartitionConserves(recipients[..n], keys);
      var x, within, outside := recipients[n], Within(recipients[..n], keys), Outside(recipients[..n], keys);
      assert recipients == recipients[..n] + [x];
      if DomainKey(x) in keys {
        assert Within(recipients, keys) == within + [x] && Outside(recipients, keys) == outside + [];
      } else {
        assert Within(recipients, keys) == within + [] && Outside(recipients, keys) == outside + [x];
      }
      SplitsOff(recipients[..n], x, within, outside);
    }
  }

  lemma SplitsOff(all: seq<Mailbox>, x: Mailbox, within: seq<Mailbox>, outside: seq<Mailbox>)
    requires multiset(within) + multiset(outside) == multiset(all)
    ensures multiset(within + [x]) + multiset(outside + []) == multiset(all + [x])
    ensures multiset(within + []) + multiset(outside + [x]) == multiset(all + [x])
  {
    assert within + [] == within && outside + [] == outside;
    OneMore(within, x);
    OneMore(outside, x);
    OneMore(all, x);
  }

  lemma OneMore(s: seq<Mailbox>, x: Mailbox)
    ensures multiset(s + [x]) == multiset(s) + multiset{x}
  {
  }

  /** Splitting off one more domain. */
  lemma {:induction false} OneMoreDomain(recipients: seq<Mailbox>, keys: set<string>, key: string)
    requires key !in keys
    ensures multiset(Within(recipients, keys + {key})) == multiset(Within(recipients, keys)) + multiset(Within(recipients, {key}))
  {
    if recipients != [] {
      OneMoreDomain(recipients[..|recipients| - 1], keys, key);
    }
  }

  lemma {:induction false} AllDomains(recipients: seq<Mailbox>, keys: set<string>)
    requires forall i :: 0 <= i < |recipients| ==> DomainKey(recipients[i]) in keys
    ensures Within(recipients, keys) == recipients
  {
    hide DomainKey;
    if recipients != [] {
      var n := |recipients| - 1;
      AllDomains(recipients[..n], keys);
      assert recipients == recipients[..n] + [recipients[n]];
    }
  }

  lemma {:induction false} DomainIsPresent(recipients: seq<Mailbox>, key: string)
    requires key in KeysOf(recipients)
    ensures Within(recipients, {key}) != []
  {
    var n := |recipients| - 1;
    if DomainKey(recipients[n]) != key {
      var i :| 0 <= i < |recipients| && DomainKey(recipients[i]) == key;
      assert DomainKey(recipients[..n][i]) == key;
      DomainIsPresent(recipients[..n], key);
    }
  }

  // ---------------------------------------------------------------- the source

  /** The grouping loop of `enqueue_relay`. */
  method GroupByDomain(recipients: seq<Mailbox>) returns (groups: map<string, seq<Mailbox>>)
    ensures groups.Keys == KeysOf(recipients)
    ensures forall key :: key in groups ==> groups[key] == Within(recipients, {key})
  {
    groups := map[];
    var i := 0;
    while i < |recipients|
      invariant 0 <= i <= |recipients|
      invariant groups.Keys == KeysOf(recipients[..i])
      invariant forall key :: key in groups ==> groups[key] == Within(recipients[..i], {key})
    {
      var key := DomainKey(recipients[i]);
      ghost var before := groups;
      GroupStep(recipients, i);
      if key !in groups { NoneYet(recipients[..i], key); }
      var group := if key in groups then groups[key] else [];
      groups := groups[key := group + [recipients[i]]];
      assert groups.Keys == before.Keys + {key};
      i := i + 1;
    }
    assert recipients[..i] == recipients;
  }

  lemma GroupStep(recipients: seq<Mailbox>, i: nat)
    requires i < |recipients|
    ensures KeysOf(recipients[..i + 1]) == KeysOf(recipients[..i]) + {DomainKey(recipients[i])}
    ensures forall key :: Within(recipients[..i + 1], {key})
                       == Within(recipients[..i], {key}) + if DomainKey(recipients[i]) == key then [recipients[i]] else []
  {
    var more := recipients[..i + 1];
    assert more[..i] == recipients[..i];
    assert forall j :: 0 <= j < i ==> more[j] == recipients[..i][j];
    assert DomainKey(more[i]) in KeysOf(more);
    forall k | k in KeysOf(recipients[..i]) ensures k in KeysOf(more) {
      var j :| 0 <= j < i && DomainKey(recipients[..i][j]) == k;
      assert DomainKey(more[j]) == k;
    }
  }

  lemma {:induction false} NoneYet(recipients: seq<Mailbox>, key: string)
    requires key !in KeysOf(recipients)
    ensures Within(recipients, {key}) == []
  {
    if recipients != [] {
      var n := |recipients| - 1;
      assert DomainKey(recipients[n]) in KeysOf(recipients);
      assert forall i :: 0 <= i < n ==> DomainKey(recipients[..n][i]) == DomainKey(recipients[i]);
      NoneYet(recipients[..n], key);
    }
  }

  /** All recipients of a list of messages. */
  function Recipients(messages: seq<Message>): seq<Mailbox> {
    if messages == [] then []
    else Recipients(messages[..|messages| - 1]) + messages[|messages| - 1].env.recipients
  }

  /** A message narrowed to the recipients of one domain. */
  ghost predicate OneDomain(m: Message, source: Message, recipients: seq<Mailbox>, key: string) {
    m == Message(Envelope(source.env.sender, Within(recipients, {key})), source.raw) && m.env.recipients != []
  }

  /** The entries of a fan-out: one per domain in `keys`, each its own. */
  ghost predicate PerDomain(out: seq<Message>, source: Message, recipients: seq<Mailbox>, keys: seq<string>) {
    && |out| == |keys|
    && (forall i :: 0 <= i < |out| ==> OneDomain(out[i], source, recipients, keys[i]))
    && (forall i, j :: 0 <= i < j < |keys| ==> keys[i] != keys[j])
  }

  /** The entries made so far, for the domains `done`. */
  ghost predicate Progress(out: seq<Message>, keys: seq<string>, source: Message, recipients: seq<Mailbox>, done: set<string>) {
    && PerDomain(out, source, recipients, keys)
    && (forall k :: k in keys ==> k in done)
    && multiset(Recipients(out)) == multiset(Within(recipients, done))
    && |out| <= |Recipients(out)|
  }

  lemma ProgressStep(out: seq<Message>, keys: seq<string>, source: Message, recipients: seq<Mailbox>, done: set<string>,
                     key: string, m: Message)
    requires Progress(out, keys, source, recipients, done) && key !in done && key in KeysOf(recipients)
    requires m == Message(Envelope(source.env.sender, Within(recipients, {key})), source.raw)
    ensures Progress(out + [m], keys + [key], source, recipients, done + {key})
  {
    DomainIsPresent(recipients, key);
    OneMoreDomain(recipients, done, key);
    RecipientsSnoc(out, m);
    PerDomainSnoc(out, keys, source, recipients, key, m);
    hide Within, Recipients, PerDomain;
    assert multiset(Recipients(out) + m.env.recipients) == multiset(Recipients(out)) + multiset(m.env.recipients);
  }

  lemma PerDomainSnoc(out: seq<Message>, keys: seq<string>, source: Message, recipients: seq<Mailbox>, key: string, m: Message)
    requires PerDomain(out, source, recipients, keys) && OneDomain(m, source, recipients, key) && key !in keys
    ensures PerDomain(out + [m], source, recipients, keys + [key])
  {
    hide OneDomain;
    forall i | 0 <= i < |out + [m]| ensures OneDomain((out + [m])[i], source, recipients, (keys + [key])[i]) {
    }
    forall i, j | 0 <= i < j < |keys + [key]| ensures (keys + [key])[i] != (keys + [key])[j] {
      assert (keys + [key])[i] in keys;
    }
  }

  /** `enqueue_relay`, up to writing the entries: every recipient occurrence goes
      to exactly one entry, entries are single-domain with distinct domains. */
  method RelayEntries(source: Message, recipients: seq<Mailbox>) returns (out: seq<Message>, keys: seq<string>)
    ensures PerDomain(out, source, recipients, keys)
    ensures multiset(Recipients(out)) == multiset(recipients)
    ensures |out| <= |recipients|
  {
    var groups := GroupByDomain(recipients);
    out, keys := [], [];
    var left := groups.Keys;
    ghost var done: set<string> := {};
    NothingDone(source, recipients);
    hide Progress, Within, KeysOf, PerDomain, Recipients;
    while left != {}
      invariant left <= groups.Keys && done == groups.Keys - left
      invariant Progress(out, keys, source, recipients, done)
      decreases |left|
    {
      var key :| key in left;
      var m := Message(Envelope(source.env.sender, groups[key]), source.raw);
      ProgressStep(out, keys, source, recipients, done, key, m);
      out := out + [m];
      keys := keys + [key];
      done := done + {key};
      left := left - {key};
    }
    ProgressEnds(out, keys, source, recipients, done);
  }

  lemma NothingDone(source: Message, recipients: seq<Mailbox>)
    ensures Progress([], [], source, recipients, {})
  {
    NothingWithin(recipients);
  }

  lemma ProgressEnds(out: seq<Message>, keys: seq<string>, source: Message, recipients: seq<Mailbox>, done: set<string>)
    requires Progress(out, keys, source, recipients, done) && KeysOf(recipients) <= done
    ensures PerDomain(out, source, recipients, keys) && multiset(Recipients(out)) == multiset(recipients) && |out| <= |recipients|
  {
    assert forall i :: 0 <= i < |recipients| ==> DomainKey(recipients[i]) in KeysOf(recipients);
    AllDomains(recipients, done);
    SameSize(Recipients(out), recipients);
  }

  lemma {:induction false} NothingWithin(recipients: seq<Mailbox>)
    ensures Within(recipients, {}) == []
  {
    if recipients != [] { NothingWithin(recipients[..|recipients| - 1]); }
  }

  lemma RecipientsSnoc(out: seq<Message>, m: Message)
    ensures Recipients(out + [m]) == Recipients(out) + m.env.recipients
  {
    assert (out + [m])[..|out|] == out;
  }

  lemma SameSize<T>(a: seq<T>, b: seq<T>)
    requires multiset(a) == multiset(b)
    ensures |a| == |b|
  {
    assert |multiset(a)| == |a| && |multiset(b)| == |b|;
  }

  /** What `accept_inbound` decides for a message. */
  datatype Accepted = Accepted(local: seq<Mailbox>, relay: seq<Mailbox>, entries: seq<Message>)

  /** `Server::accept_inbound`. Local delivery and spooled entries together carry
      every recipient occurrence exactly once; without relay, or without
      authorisation, nothing is spooled. */
  method AcceptInbound(hosted: set<string>, relayEnabled: bool, authorization: Authorization, message: Message)
    returns (r: Accepted, keys: seq<string>)
    ensures r.local == Within(message.env.recipients, hosted)
    ensures r.relay == Outside(message.env.recipients, hosted)
    ensures relayEnabled && authorization == Permitted ==>
              && PerDomain(r.entries, message, r.relay, keys)
              && multiset(r.local) + multiset(Recipients(r.entries)) == multiset(message.env.recipients)
              && |r.entries| <= |r.relay|
    ensures !relayEnabled || authorization == Forbidden ==> r.entries == []
  {
    var local := Within(message.env.recipients, hosted);
    var relay := Outside(message.env.recipients, hosted);
    PartitionConserves(message.env.recipients, hosted);
    if !relayEnabled || authorization == Forbidden {
      return Accepted(local, relay, []), [];
    }
    var entries;
    entries, keys := RelayEntries(message, relay);
    r := Accepted(local, relay, entries);
  }

  // ------------------------------------------------------------- notifications

  /** The envelope of `build_failure_dsn`: null sender, back to the original one. */
  function FailureDsn(originalSender: Mailbox, raw: string): Message {
    Message(Envelope(None, [originalSender]), raw)
  }

  /** A notification fans out to at most one entry, and that has the null sender. */
  lemma DsnHasOneEntry(hosted: set<string>, sender: Mailbox, raw: string, out: seq<Message>, keys: seq<string>)
    requires PerDomain(out, FailureDsn(sender, raw), Outside([sender], hosted), keys)
    requires |out| <= |Outside([sender], hosted)|
    ensures |out| <= 1
    ensures forall i :: 0 <= i < |out| ==> out[i].env == Envelope(None, [sender])
  {
    assert [sender][..0] == [];
    assert Outside([sender], hosted) == if DomainKey(sender) in hosted then [] else [sender];
    if out != [] {
      var key := keys[0];
      assert OneDomain(out[0], FailureDsn(sender, raw), [sender], key);
      assert Within([sender], {key}) == if DomainKey(sender) == key then [sender] else [];
    }
  }
}
