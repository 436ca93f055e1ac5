/** Mail addresses and envelopes, with the exact range of their text round trip. */
module Mailboxes {
  import opened Text

  datatype Mailbox = Mailbox(local: string, domain: string)

  datatype Envelope = Envelope(sender: Option<Mailbox>, recipients: seq<Mailbox>)

  /** `char::is_whitespace`. */
  predicate Whitespace(c: char) {
    || c == ' ' || '\t' <= c <= '\r'
    || c == 0x85 as char || c == 0xA0 as char || c == 0x1680 as char
    || 0x2000 as char <= c <= 0x200A as char
    || c == 0x2028 as char || c == 0x2029 as char || c == 0x202F as char
    || c == 0x205F as char || c == 0x3000 as char
  }

  /** The code points with the Unicode property White_Space. */
  lemma WhitespaceIs(c: char)
    ensures Whitespace(c) <==>
      c as int in {9, 10, 11, 12, 13, 32, 133, 160, 5760, 8192, 8193, 8194, 8195, 8196, 8197, 8198, 8199, 8200, 8201, 8202,
                   8232, 8233, 8239, 8287, 12288}
  {
  }

  ghost predicate Blank(s: string) {
    forall i :: 0 <= i < |s| ==> Whitespace(s[i])
  }

  function TrimStart(s: string): (r: string)
    ensures |r| <= |s| && (|r| == |s| ==> r == s)
    ensures r != [] ==> !Whitespace(r[0])
  {
    if s != [] && Whitespace(s[0]) then TrimStart(s[1..]) else s
  }

  function TrimEnd(s: string): (r: string)
    ensures r <= s
    ensures r != [] ==> !Whitespace(r[|r| - 1])
  {
    if s != [] && Whitespace(s[|s| - 1]) then TrimEnd(s[..|s| - 1]) else s
  }

  function Trim(s: string): (r: string)
    ensures |r| <= |s| && (|r| == |s| ==> r == s)
    ensures r != [] ==> !Whitespace(r[0]) && !Whitespace(r[|r| - 1])
  {
    TrimEnd(TrimStart(s))
  }

  lemma TrimIsIdentity(s: string)
    ensures Trim(s) == s <==> s == [] || (!Whitespace(s[0]) && !Whitespace(s[|s| - 1]))
  {
  }

  lemma {:induction false} TrimStartIs(s: string) returns (before: string)
    ensures s == before + TrimStart(s) && Blank(before)
  {
    hide Whitespace;
    before := [];
    if s != [] && Whitespace(s[0]) {
      var rest := TrimStartIs(s[1..]);
      before := [s[0]] + rest;
    }
  }

  lemma {:induction false} TrimEndIs(s: string) returns (behind: string)
    ensures s == TrimEnd(s) + behind && Blank(behind)
  {
    hide Whitespace;
    behind := [];
    if s != [] && Whitespace(s[|s| - 1]) {
      var rest := TrimEndIs(s[..|s| - 1]);
      behind := rest + [s[|s| - 1]];
    }
  }

  /** Trimming takes the white space at both ends, and only that. */
  lemma TrimIs(s: string) returns (before: string, behind: string)
    ensures s == before + Trim(s) + behind && Blank(before) && Blank(behind)
    ensures Trim(s) != [] ==> !Whitespace(Trim(s)[0]) && !Whitespace(Trim(s)[|Trim(s)| - 1])
  {
    before := TrimStartIs(s);
    behind := TrimEndIs(TrimStart(s));
    hide TrimStart, TrimEnd, Blank, Whitespace;
    assert before + (Trim(s) + behind) == before + Trim(s) + behind;
  }

  /** The address behind a leading source route, or the text itself. */
  function WithoutRoute(trimmed: string): Option<string> {
    if trimmed == [] || trimmed[0] != '@' then Some(trimmed)
    else
      match SplitOnce(trimmed[1..], ':')
      case None => None
      case Some((_, rest)) => Some(rest)
  }

  /** `Mailbox::parse`. */
  function Parse(addr: string): (r: Option<Mailbox>)
    ensures r.Some? ==> r.value.local != [] && r.value.domain != [] && '@' !in r.value.domain
    ensures r.Some? ==> |Display(r.value)| <= |addr|
  {
    match WithoutRoute(Trim(addr))
    case None => None
    case Some(spec) =>
      match RSplitOnce(spec, '@')
      case None => None
      case Some((local, domain)) =>
        if local == [] || domain == [] || '@' in domain then None else Some(Mailbox(local, domain))
  }

  function Display(m: Mailbox): string {
    m.local + "@" + m.domain
  }

  /** `trimmed` names `spec`: as it is, or behind a source route up to the first colon. */
  ghost predicate Addresses(trimmed: string, spec: string) {
    if trimmed != [] && trimmed[0] == '@' then exists hops :: ':' !in hops && trimmed == "@" + hops + ":" + spec
    else trimmed == spec
  }

  lemma WithoutRouteIs(trimmed: string, spec: string)
    ensures WithoutRoute(trimmed) == Some(spec) <==> Addresses(trimmed, spec)
  {
    if trimmed != [] && trimmed[0] == '@' {
      var tail := trimmed[1..];
      if SplitOnce(tail, ':').Some? {
        var (hops, rest) := SplitOnce(tail, ':').value;
        assert trimmed == "@" + hops + ":" + rest;
      }
      if hops :| ':' !in hops && trimmed == "@" + hops + ":" + spec {
        assert tail == hops + [':'] + spec;
        SplitOnceAt(hops, ':', spec);
      }
    }
  }

  /** What parsing accepts, and as what: the trimmed text is `local@domain`, both not
      empty and cut at the last `@`, possibly behind a source route. */
  lemma ParseExactly(addr: string, m: Mailbox)
    ensures Parse(addr) == Some(m) <==>
      && Addresses(Trim(addr), m.local + "@" + m.domain)
      && m.local != [] && m.domain != [] && '@' !in m.domain
  {
    hide Trim, Whitespace, WithoutRoute, Addresses;
    var text := m.local + "@" + m.domain;
    WithoutRouteIs(Trim(addr), text);
    if '@' !in m.domain { RSplitOnceAt(m.local, '@', m.domain); }
    if WithoutRoute(Trim(addr)).Some? {
      WithoutRouteIs(Trim(addr), WithoutRoute(Trim(addr)).value);
    }
  }

  lemma {:induction false} TrimStartInvents(s: string, c: char)
    requires c in TrimStart(s)
    ensures c in s
  {
    if s != [] && Whitespace(s[0]) {
      hide Whitespace;
      TrimStartInvents(s[1..], c);
    }
  }

  lemma SpecIsSuffix(trimmed: string)
    requires WithoutRoute(trimmed).Some? && WithoutRoute(trimmed).value != []
    ensures var spec := WithoutRoute(trimmed).value;
            && |spec| <= |trimmed| && spec == trimmed[|trimmed| - |spec|..]
            && spec[|spec| - 1] == trimmed[|trimmed| - 1]
  {
  }

  /** Parsing invents no characters and leaves no white space at the end. */
  lemma ParsedText(addr: string)
    requires Parse(addr).Some?
    ensures var text := Display(Parse(addr).value);
            && !Whitespace(text[|text| - 1])
            && (forall c :: c in text ==> c in addr)
  {
    hide Whitespace, TrimStart, TrimEnd, WithoutRoute;
    var trimmed := Trim(addr);
    var spec := WithoutRoute(trimmed).value;
    assert Display(Parse(addr).value) == spec;
    SpecIsSuffix(trimmed);
    forall c | c in spec ensures c in addr {
      assert c in TrimStart(addr);
      TrimStartInvents(addr, c);
    }
  }

  /** Displayed text reads back as the same mailbox. */
  predicate WellFormed(m: Mailbox) {
    && m.local != [] && m.domain != [] && '@' !in m.domain
    && m.local[0] != '@' && !Whitespace(m.local[0]) && !Whitespace(m.domain[|m.domain| - 1])
  }

  /** Display and parse are inverse exactly on the well-formed mailboxes: a local
      part that starts with `@` reads as a source route, outer white space is lost. */
  lemma DisplayRoundTrip(m: Mailbox)
    ensures Parse(Display(m)) == Some(m) <==> WellFormed(m)
  {
    var text := Display(m);
    if WellFormed(m) {
      TrimIsIdentity(text);
      assert text[0] == m.local[0] && text[|text| - 1] == m.domain[|m.domain| - 1];
      RSplitOnceAt(m.local, '@', m.domain);
    }
    if Parse(text) == Some(m) {
      ParsedLength(text);
    }
  }

  /** A parse that keeps every character had no route and nothing to trim. */
  lemma ParsedLength(addr: string)
    requires Parse(addr).Some? && |Display(Parse(addr).value)| == |addr|
    ensures Trim(addr) == addr && addr != [] && addr[0] != '@' && Display(Parse(addr).value) == addr
  {
  }

  /** What is parsed from an address reads back if and only if the text behind its
      source route, or the whole text without one, starts neither with `@` nor with
      white space. */
  lemma ParsedReadsBack(addr: string)
    requires Parse(addr).Some?
    ensures var m, spec := Parse(addr).value, WithoutRoute(Trim(addr)).value;
            && spec != []
            && (Parse(Display(m)) == Some(m) <==> spec[0] != '@' && !Whitespace(spec[0]))
  {
    var m, spec := Parse(addr).value, WithoutRoute(Trim(addr)).value;
    assert spec == m.local + ['@'] + m.domain;
    hide Whitespace, Trim;
    SpecIsSuffix(Trim(addr));
    assert m.domain[|m.domain| - 1] == spec[|spec| - 1];
    DisplayRoundTrip(m);
  }

  /** An address without a source route always reads back. */
  lemma ParsedIsWellFormed(addr: string)
    requires Parse(addr).Some? && (Trim(addr) == [] || Trim(addr)[0] != '@')
    ensures WellFormed(Parse(addr).value)
  {
    ParsedReadsBack(addr);
    hide Whitespace, Trim;
    DisplayRoundTrip(Parse(addr).value);
  }

  /** Every mailbox with a local part that starts with `@` or white space is parsed
      from some routed address, and does not read back. */
  lemma RoutedMailboxIsLost(hops: string, m: Mailbox)
    requires ':' !in hops && m.local != [] && (m.local[0] == '@' || Whitespace(m.local[0]))
    requires m.domain != [] && '@' !in m.domain && !Whitespace(m.domain[|m.domain| - 1])
    ensures Parse(['@'] + (hops + [':'] + Display(m))) == Some(m)
    ensures Parse(Display(m)) != Some(m)
  {
    var tail := hops + [':'] + Display(m);
    var addr := ['@'] + tail;
    TrimIsIdentity(addr);
    assert addr[|addr| - 1] == m.domain[|m.domain| - 1];
    assert addr[1..] == tail;
    SplitOnceAt(hops, ':', Display(m));
    RSplitOnceAt(m.local, '@', m.domain);
    DisplayRoundTrip(m);
  }
}
