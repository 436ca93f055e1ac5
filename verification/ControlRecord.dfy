/**
 The spool's control record: one `key value` line per field, `rcpt` repeated, and
 the retry schedule it carries.
 */
module ControlRecord {
  import opened Networks
  import opened Text
  import opened Decimal
  import opened Mailboxes
  import Octets

  /** Nanoseconds since the Unix epoch. */
  type Time = int

  const SECOND: int := 1_000_000_000

  datatype Entry =
    Entry(sender: Option<Mailbox>, recipients: seq<Mailbox>, attempts: nat, nextAt: Time, createdAt: Time)

  // ----------------------------------------------------------------- schedule

  /** `to_secs`: whole seconds, zero before the epoch. */
  function ToSecs(t: Time): nat {
    if t < 0 then 0 else t / SECOND
  }

  function FromSecs(s: nat): Time {
    s * SECOND
  }

  /** `backoff`, in seconds. */
  function Backoff(attempts: nat): nat {
    Min(Min(60 * Pow2(Min(attempts, 20)), U64_MAX), 3600)
  }

  lemma {:induction false} Pow2Doubles(a: nat, b: nat)
    requires a <= b
    ensures Pow2(a) <= Pow2(b)
    decreases b
  {
    if a < b { Pow2Doubles(a, b - 1); }
  }

  /** Sixty seconds doubling with every attempt, up to one hour. */
  lemma BackoffDoubles(attempts: nat)
    ensures 60 <= Backoff(attempts) <= 3600
    ensures Backoff(attempts) <= Backoff(attempts + 1)
    ensures attempts <= 5 ==> Backoff(attempts) == 60 * Pow2(attempts)
    ensures attempts >= 6 ==> Backoff(attempts) == 3600
  {
    assert Pow2(6) == 64;
    Pow2Doubles(0, Min(attempts, 20));
    Pow2Doubles(Min(attempts, 20), Min(attempts + 1, 20));
    if attempts >= 6 { Pow2Doubles(6, Min(attempts, 20)); } else { Pow2Doubles(attempts, 5); assert Pow2(5) == 32; }
  }

  // ------------------------------------------------------------------ printing

  function Line(key: string, val: string): string {
    key + [' '] + val + ['\n']
  }

  function SenderText(sender: Option<Mailbox>): string {
    if sender.None? then [] else Display(sender.value)
  }

  function RcptLines(recipients: seq<Mailbox>): string {
    if recipients == [] then []
    else RcptLines(recipients[..|recipients| - 1]) + Line("rcpt", Display(recipients[|recipients| - 1]))
  }

  function Render(env: Envelope, attempts: nat, next: Time, created: Time): string {
    Line("created", Print(ToSecs(created))) + Line("next", Print(ToSecs(next))) + Line("attempts", Print(attempts))
    + Line("from", SenderText(env.sender)) + RcptLines(env.recipients)
  }

  /** `render_ctrl`. */
  method RenderCtrl(env: Envelope, attempts: nat, next: Time, created: Time) returns (out: string)
    ensures out == Render(env, attempts, next, created)
  {
    out := Line("created", Print(ToSecs(created)));
    out := out + Line("next", Print(ToSecs(next)));
    out := out + Line("attempts", Print(attempts));
    out := out + Line("from", SenderText(env.sender));
    ghost var head := out;
    var i := 0;
    while i < |env.recipients|
      invariant 0 <= i <= |env.recipients|
      invariant out == head + RcptLines(env.recipients[..i])
    {
      assert env.recipients[..i + 1][..i] == env.recipients[..i];
      out := out + Line("rcpt", Display(env.recipients[i]));
      i := i + 1;
    }
    assert env.recipients[..i] == env.recipients;
  }

  // ------------------------------------------------------------------- parsing

  /** The running variables of the parse loop. */
  datatype Fields =
    Fields(created: Option<nat>, next: Option<nat>, attempts: Option<nat>, sender: Option<Mailbox>, recipients: seq<Mailbox>)

  const NO_FIELDS := Fields(None, None, None, None, [])

  function KeyVal(line: string): (string, string) {
    match SplitOnce(line, ' ')
    case None => (line, [])
    case Some(kv) => kv
  }

  /** One line; `None` is a malformed record. */
  function AddLine(f: Fields, line: string): Option<Fields> {
    var (key, val) := KeyVal(line);
    if key == "created" then
      (match ParseUnsigned(val, U64_MAX) case None => None case Some(n) => Some(f.(created := Some(n))))
    else if key == "next" then
      (match ParseUnsigned(val, U64_MAX) case None => None case Some(n) => Some(f.(next := Some(n))))
    else if key == "attempts" then
      (match ParseUnsigned(val, U32_MAX) case None => None case Some(n) => Some(f.(attempts := Some(n))))
    else if key == "from" && val != [] then
      (match Mailboxes.Parse(val) case None => None case Some(m) => Some(f.(sender := Some(m))))
    else if key == "rcpt" then
      (match Mailboxes.Parse(val) case None => None case Some(m) => Some(f.(recipients := f.recipients + [m])))
    else Some(f)
  }

  function AddLines(f: Fields, lines: seq<string>): Option<Fields>
    decreases |lines|
  {
    if lines == [] then Some(f)
    else
      match AddLine(f, lines[0])
      case None => None
      case Some(f1) => AddLines(f1, lines[1..])
  }

  function Assemble(f: Fields): Option<Entry> {
    if f.recipients == [] || f.attempts.None? || f.next.None? || f.created.None? then None
    else Some(Entry(f.sender, f.recipients, f.attempts.value, FromSecs(f.next.value), FromSecs(f.created.value)))
  }

  function ParseRecord(text: string): Option<Entry> {
    match AddLines(NO_FIELDS, Lines(text))
    case None => None
    case Some(f) => Assemble(f)
  }

  /** `parse_ctrl`. */
  method ParseCtrl(text: string) returns (entry: Option<Entry>)
    ensures entry == ParseRecord(text)
  {
    var lines := Lines(text);
    var f := NO_FIELDS;
    var i := 0;
    assert lines[0..] == lines;
    while i < |lines|
      invariant 0 <= i <= |lines|
      invariant AddLines(NO_FIELDS, lines) == AddLines(f, lines[i..])
    {
      var r := AddLine(f, lines[i]);
      if r.None? { return None; }
      assert lines[i..][1..] == lines[i + 1..];
      f := r.value;
      i := i + 1;
    }
    entry := Assemble(f);
  }

  // ------------------------------------------------- what a record says, as a whole

  /** A line with this key: the key, a space and the value, or the key alone. */
  ghost predicate HasKey(line: string, key: string) {
    line == key || key + " " <= line
  }

  ghost function ValueOf(line: string, key: string): string
    requires HasKey(line, key)
  {
    if line == key then "" else line[|key| + 1..]
  }

  lemma KeyValIs(line: string, key: string)
    requires ' ' !in key
    ensures KeyVal(line).0 == key <==> HasKey(line, key)
    ensures HasKey(line, key) ==> KeyVal(line).1 == ValueOf(line, key)
  {
    if HasKey(line, key) && line != key {
      var val := line[|key| + 1..];
      assert line == key + [' '] + val;
      SplitOnceAt(key, ' ', val);
    }
    if SplitOnce(line, ' ').Some? {
      var kv := SplitOnce(line, ' ').value;
      assert line == kv.0 + [' '] + kv.1;
    }
  }

  /** The values of a key, in the order of their lines. */
  ghost function ValuesOf(lines: seq<string>, key: string): seq<string> {
    if lines == [] then []
    else (if HasKey(lines[0], key) then [ValueOf(lines[0], key)] else []) + ValuesOf(lines[1..], key)
  }

  ghost predicate Numbers(vals: seq<string>, max: nat) {
    forall i :: 0 <= i < |vals| ==> ParseUnsigned(vals[i], max).Some?
  }

  /** Every value is a mailbox, or empty where that is allowed. */
  ghost predicate Boxes(vals: seq<string>, blank: bool) {
    forall i :: 0 <= i < |vals| ==> (blank && vals[i] == "") || Mailboxes.Parse(vals[i]).Some?
  }

  /** No line is malformed. */
  ghost predicate Sound(lines: seq<string>) {
    && Numbers(ValuesOf(lines, "created"), 0xFFFF_FFFF_FFFF_FFFF) && Numbers(ValuesOf(lines, "next"), 0xFFFF_FFFF_FFFF_FFFF)
    && Numbers(ValuesOf(lines, "attempts"), 0xFFFF_FFFF)
    && Boxes(ValuesOf(lines, "from"), true) && Boxes(ValuesOf(lines, "rcpt"), false)
  }

  /** The last number given, else the one before. */
  ghost function LastNumber(prior: Option<nat>, vals: seq<string>, max: nat): Option<nat> {
    if vals == [] then prior else ParseUnsigned(vals[|vals| - 1], max)
  }

  ghost function LastBox(prior: Option<Mailbox>, vals: seq<string>): Option<Mailbox> {
    if vals == [] then prior
    else if vals[|vals| - 1] == "" then LastBox(prior, vals[..|vals| - 1])
    else Mailboxes.Parse(vals[|vals| - 1])
  }

  ghost function AllBoxes(vals: seq<string>): seq<Mailbox>
    requires Boxes(vals, false)
  {
    if vals == [] then [] else [Mailboxes.Parse(vals[0]).value] + AllBoxes(vals[1..])
  }

  /** The fields a sound record ends up with. */
  ghost function Reading(f: Fields, lines: seq<string>): Fields
    requires Sound(lines)
  {
    Fields(
      created := LastNumber(f.created, ValuesOf(lines, "created"), 0xFFFF_FFFF_FFFF_FFFF),
      next := LastNumber(f.next, ValuesOf(lines, "next"), 0xFFFF_FFFF_FFFF_FFFF),
      attempts := LastNumber(f.attempts, ValuesOf(lines, "attempts"), 0xFFFF_FFFF),
      sender := LastBox(f.sender, ValuesOf(lines, "from")),
      recipients := f.recipients + AllBoxes(ValuesOf(lines, "rcpt")))
  }

  lemma NumbersFirst(val: string, vals: seq<string>, max: nat, prior: Option<nat>)
    ensures Numbers([val] + vals, max) <==> ParseUnsigned(val, max).Some? && Numbers(vals, max)
    ensures LastNumber(prior, [val] + vals, max) == LastNumber(ParseUnsigned(val, max), vals, max)
  {
    hide ParseUnsigned;
    var all := [val] + vals;
    assert forall i :: 0 <= i < |vals| ==> vals[i] == all[i + 1];
    assert all[0] == val;
  }

  lemma BoxesFirst(val: string, vals: seq<string>, blank: bool)
    ensures Boxes([val] + vals, blank) <==> ((blank && val == "") || Mailboxes.Parse(val).Some?) && Boxes(vals, blank)
    ensures Mailboxes.Parse(val).Some? && Boxes(vals, false) ==>
              Boxes([val] + vals, false) && AllBoxes([val] + vals) == [Mailboxes.Parse(val).value] + AllBoxes(vals)
  {
    hide Mailboxes.Parse;
    var all := [val] + vals;
    assert forall i :: 0 <= i < |vals| ==> vals[i] == all[i + 1];
    assert all[0] == val && all[1..] == vals;
  }

  lemma {:induction false} LastBoxFirst(prior: Option<Mailbox>, val: string, vals: seq<string>)
    ensures LastBox(prior, [val] + vals) == LastBox(if val == "" then prior else Mailboxes.Parse(val), vals)
    decreases |vals|
  {
    hide Mailboxes.Parse;
    var all := [val] + vals;
    if vals == [] {
      assert all == [val] && all[..0] == [];
    } else {
      assert all[..|all| - 1] == [val] + vals[..|vals| - 1];
      LastBoxFirst(prior, val, vals[..|vals| - 1]);
    }
  }

  /** A line has at most one of the five keys. */
  lemma OneKey(line: string)
    ensures var key := KeyVal(line).0;
            && (key == "created" <==> HasKey(line, "created")) && (key == "next" <==> HasKey(line, "next"))
            && (key == "attempts" <==> HasKey(line, "attempts")) && (key == "from" <==> HasKey(line, "from"))
            && (key == "rcpt" <==> HasKey(line, "rcpt"))
            && ((HasKey(line, "created") || HasKey(line, "next") || HasKey(line, "attempts") || HasKey(line, "from") || HasKey(line, "rcpt"))
                ==> HasKey(line, key) && KeyVal(line).1 == ValueOf(line, key))
  {
    KeyValIs(line, "created");
    KeyValIs(line, "next");
    KeyValIs(line, "attempts");
    KeyValIs(line, "from");
    KeyValIs(line, "rcpt");
    hide HasKey, KeyVal, ValueOf;
  }

  lemma ValuesOfFirst(line: string, lines: seq<string>, key: string)
    ensures ValuesOf([line] + lines, key) == (if HasKey(line, key) then [ValueOf(line, key)] else []) + ValuesOf(lines, key)
    ensures ValuesOf([line], key) == if HasKey(line, key) then [ValueOf(line, key)] else []
  {
    hide HasKey, ValueOf;
    assert ([line] + lines)[1..] == lines && [line][1..] == [];
  }

  /** One key: what a first line adds to numbers. */
  lemma NumberStep(line: string, lines: seq<string>, key: string, max: nat, prior: Option<nat>)
    ensures var one, all := ValuesOf([line], key), ValuesOf([line] + lines, key);
            && (Numbers(all, max) <==> Numbers(one, max) && Numbers(ValuesOf(lines, key), max))
            && LastNumber(prior, all, max) == LastNumber(LastNumber(prior, one, max), ValuesOf(lines, key), max)
  {
    hide ParseUnsigned, HasKey, ValuesOf, ValueOf, Numbers;
    ValuesOfFirst(line, lines, key);
    var vals := ValuesOf(lines, key);
    assert [] + vals == vals;
    if HasKey(line, key) {
      NumbersFirst(ValueOf(line, key), vals, max, prior);
      NumbersFirst(ValueOf(line, key), [], max, prior);
      assert [ValueOf(line, key)] + [] == [ValueOf(line, key)];
    }
    NoNumbers(max);
  }

  lemma NoNumbers(max: nat)
    ensures Numbers([], max)
  {
  }

  lemma SenderStep(line: string, lines: seq<string>, prior: Option<Mailbox>)
    ensures var one, all := ValuesOf([line], "from"), ValuesOf([line] + lines, "from");
            && (Boxes(all, true) <==> Boxes(one, true) && Boxes(ValuesOf(lines, "from"), true))
            && LastBox(prior, all) == LastBox(LastBox(prior, one), ValuesOf(lines, "from"))
  {
    hide Mailboxes.Parse, HasKey, ValuesOf, ValueOf, Boxes;
    ValuesOfFirst(line, lines, "from");
    var vals := ValuesOf(lines, "from");
    assert [] + vals == vals;
    NoBoxes();
    if HasKey(line, "from") {
      var val := ValueOf(line, "from");
      BoxesFirst(val, vals, true);
      BoxesFirst(val, [], true);
      LastBoxFirst(prior, val, vals);
      assert [val] + [] == [val] && [val][..0] == [];
    }
  }

  lemma NoBoxes()
    ensures Boxes([], true) && Boxes([], false)
  {
  }

  lemma RcptStep(line: string, lines: seq<string>)
    ensures var one, all, vals := ValuesOf([line], "rcpt"), ValuesOf([line] + lines, "rcpt"), ValuesOf(lines, "rcpt");
            && (Boxes(all, false) <==> Boxes(one, false) && Boxes(vals, false))
            && (Boxes(all, false) ==> AllBoxes(all) == AllBoxes(one) + AllBoxes(vals))
  {
    hide Mailboxes.Parse, HasKey, ValuesOf, ValueOf, Boxes;
    ValuesOfFirst(line, lines, "rcpt");
    var vals := ValuesOf(lines, "rcpt");
    assert [] + vals == vals;
    NoBoxes();
    if HasKey(line, "rcpt") {
      var val := ValueOf(line, "rcpt");
      BoxesFirst(val, vals, false);
      BoxesFirst(val, [], false);
      assert [val] + [] == [val];
    }
  }

  lemma ReadingStep(f: Fields, line: string, lines: seq<string>)
    ensures Sound([line] + lines) <==> Sound([line]) && Sound(lines)
    ensures Sound([line] + lines) ==> Reading(f, [line] + lines) == Reading(Reading(f, [line]), lines)
  {
    hide Numbers, Boxes, ValuesOf, LastNumber, LastBox, AllBoxes;
    NumberStep(line, lines, "created", 0xFFFF_FFFF_FFFF_FFFF, f.created);
    NumberStep(line, lines, "next", 0xFFFF_FFFF_FFFF_FFFF, f.next);
    NumberStep(line, lines, "attempts", 0xFFFF_FFFF, f.attempts);
    SenderStep(line, lines, f.sender);
    RcptStep(line, lines);
    if Sound([line] + lines) {
      Octets.Associate(f.recipients, AllBoxes(ValuesOf([line], "rcpt")), AllBoxes(ValuesOf(lines, "rcpt")));
    }
  }

  lemma OneNumber(line: string, key: string, max: nat, prior: Option<nat>)
    ensures Numbers(ValuesOf([line], key), max) <==> HasKey(line, key) ==> ParseUnsigned(ValueOf(line, key), max).Some?
    ensures LastNumber(prior, ValuesOf([line], key), max) == if HasKey(line, key) then ParseUnsigned(ValueOf(line, key), max) else prior
  {
    hide ParseUnsigned, HasKey, ValueOf;
    ValuesOfFirst(line, [], key);
    if HasKey(line, key) {
      var val := ValueOf(line, key);
      assert [val][0] == val;
    }
  }

  lemma OneBox(line: string, prior: Option<Mailbox>)
    ensures Boxes(ValuesOf([line], "from"), true) <==>
      (HasKey(line, "from") ==> ValueOf(line, "from") == "" || Mailboxes.Parse(ValueOf(line, "from")).Some?)
    ensures LastBox(prior, ValuesOf([line], "from"))
         == if HasKey(line, "from") && ValueOf(line, "from") != "" then Mailboxes.Parse(ValueOf(line, "from")) else prior
    ensures Boxes(ValuesOf([line], "rcpt"), false) <==> (HasKey(line, "rcpt") ==> Mailboxes.Parse(ValueOf(line, "rcpt")).Some?)
    ensures Boxes(ValuesOf([line], "rcpt"), false) ==>
      AllBoxes(ValuesOf([line], "rcpt")) == if HasKey(line, "rcpt") then [Mailboxes.Parse(ValueOf(line, "rcpt")).value] else []
  {
    hide Mailboxes.Parse, HasKey, ValueOf;
    ValuesOfFirst(line, [], "from");
    ValuesOfFirst(line, [], "rcpt");
    hide ValuesOf;
    if HasKey(line, "from") {
      var val := ValueOf(line, "from");
      assert [val][..0] == [] && [val][0] == val;
    }
    if HasKey(line, "rcpt") {
      var val := ValueOf(line, "rcpt");
      assert [val][1..] == [] && [val][0] == val;
    }
  }

  lemma AddLineIs(f: Fields, line: string)
    ensures AddLine(f, line) == if Sound([line]) then Some(Reading(f, [line])) else None
  {
    hide Mailboxes.Parse, ParseUnsigned, HasKey, ValueOf, KeyVal, ValuesOf, Numbers, Boxes, LastNumber, LastBox, AllBoxes;
    OneKey(line);
    OneNumber(line, "created", 0xFFFF_FFFF_FFFF_FFFF, f.created);
    OneNumber(line, "next", 0xFFFF_FFFF_FFFF_FFFF, f.next);
    OneNumber(line, "attempts", 0xFFFF_FFFF, f.attempts);
    OneBox(line, f.sender);
    assert f.recipients + [] == f.recipients;
  }

  lemma {:induction false} AddLinesAre(f: Fields, lines: seq<string>)
    ensures AddLines(f, lines) == if Sound(lines) then Some(Reading(f, lines)) else None
    decreases |lines|
  {
    if lines == [] {
      assert f.recipients + [] == f.recipients;
    } else {
      hide Sound, Reading, AddLine;
      assert [lines[0]] + lines[1..] == lines;
      AddLineIs(f, lines[0]);
      ReadingStep(f, lines[0], lines[1..]);
      if Sound([lines[0]]) { AddLinesAre(Reading(f, [lines[0]]), lines[1..]); }
    }
  }

  /** Reading a record, as a whole: it fails exactly if a known key has a malformed
      value or a field is missing, and otherwise gives the last numbers, the last
      sender and all recipients in order. */
  lemma ParseRecordExactly(text: string)
    ensures var lines := Lines(text);
            ParseRecord(text) ==
              if Sound(lines) && ValuesOf(lines, "created") != [] && ValuesOf(lines, "next") != []
                 && ValuesOf(lines, "attempts") != [] && ValuesOf(lines, "rcpt") != []
              then Some(Entry(
                sender := LastBox(None, ValuesOf(lines, "from")),
                recipients := AllBoxes(ValuesOf(lines, "rcpt")),
                attempts := LastNumber(None, ValuesOf(lines, "attempts"), 0xFFFF_FFFF).value,
                nextAt := LastNumber(None, ValuesOf(lines, "next"), 0xFFFF_FFFF_FFFF_FFFF).value * 1_000_000_000,
                createdAt := LastNumber(None, ValuesOf(lines, "created"), 0xFFFF_FFFF_FFFF_FFFF).value * 1_000_000_000))
              else None
  {
    hide ValuesOf, LastBox, ParseUnsigned, Mailboxes.Parse;
    var lines := Lines(text);
    AddLinesAre(NO_FIELDS, lines);
    if Sound(lines) {
      var vals := ValuesOf(lines, "rcpt");
      assert [] + AllBoxes(vals) == AllBoxes(vals);
    }
  }

  // ------------------------------------------------------------- line by line

  /** One line of text that survives being a line of the record. */
  ghost predicate Plain(val: string) {
    '\n' !in val && (val != [] ==> val[|val| - 1] != '\r')
  }

  ghost predicate Storable(m: Mailbox) {
    WellFormed(m) && '\n' !in m.local && '\n' !in m.domain
  }

  ghost predicate StorableEnvelope(env: Envelope) {
    && env.recipients != []
    && (env.sender.Some? ==> Storable(env.sender.value))
    && (forall i :: 0 <= i < |env.recipients| ==> Storable(env.recipients[i]))
  }

  lemma NumberLine(n: nat)
    ensures Plain(Print(n))
  {
    assert forall i :: 0 <= i < |Print(n)| ==> Digit(Print(n)[i]);
  }

  /** A plain line in front is read first. */
  lemma {:induction false} LinesFirst(key: string, val: string, rest: string)
    requires '\n' !in key && ' ' !in key && Plain(val)
    ensures Lines(Line(key, val) + rest) == [key + [' '] + val] + Lines(rest)
    ensures KeyVal(key + [' '] + val) == (key, val)
  {
    var line := key + [' '] + val;
    SplitOnceAt(line, '\n', rest);
    assert Line(key, val) + rest == line + ['\n'] + rest;
    assert WithoutCr(line) == line;
    hide SplitOnce;
    SplitOnceAt(key, ' ', val);
  }

  /** Feeding one printed line to the parser. */
  lemma ReadLine(f: Fields, key: string, val: string, rest: string)
    requires '\n' !in key && ' ' !in key && Plain(val)
    ensures AddLines(f, Lines(Line(key, val) + rest))
         == match AddLine(f, key + [' '] + val)
            case None => None
            case Some(f1) => AddLines(f1, Lines(rest))
  {
    LinesFirst(key, val, rest);
  }

  lemma {:induction false} RcptLinesFirst(recipients: seq<Mailbox>)
    requires recipients != []
    ensures RcptLines(recipients) == Line("rcpt", Display(recipients[0])) + RcptLines(recipients[1..])
  {
    hide Line, Display;
    var n := |recipients| - 1;
    var first, last := Line("rcpt", Display(recipients[0])), Line("rcpt", Display(recipients[n]));
    var init, tail := recipients[..n], recipients[1..];
    assert RcptLines(recipients) == RcptLines(init) + last;
    if n == 0 {
      assert RcptLines(init) == [] && RcptLines(tail) == [];
    } else {
      RcptLinesFirst(init);
      assert init[0] == recipients[0];
      assert init[1..] == tail[..n - 1];
      assert tail[n - 1] == recipients[n];
      assert RcptLines(tail) == RcptLines(tail[..n - 1]) + last;
      Octets.Associate(first, RcptLines(init[1..]), last);
    }
  }

  lemma ReadNothing(f: Fields)
    ensures AddLines(f, Lines(RcptLines([]))) == Some(f)
  {
  }

  lemma ReadNumber(f: Fields, key: string, n: nat, rest: string)
    requires key in {"created", "next", "attempts"} && n <= U64_MAX && (key == "attempts" ==> n <= U32_MAX)
    ensures AddLines(f, Lines(Line(key, Print(n)) + rest))
         == AddLines(if key == "created" then f.(created := Some(n))
                     else if key == "next" then f.(next := Some(n))
                     else f.(attempts := Some(n)), Lines(rest))
  {
    NumberLine(n);
    LinesFirst(key, Print(n), rest);
    ReadLine(f, key, Print(n), rest);
    PrintRoundTrip(n, U64_MAX);
    PrintRoundTrip(n, U32_MAX);
  }

  /** The times a record can hold: their seconds fit 64 bits. */
  ghost predicate SecondsFit(t: Time) {
    ToSecs(t) <= U64_MAX
  }

  /** The times of a record are its whole seconds. */
  function Truncated(t: Time): Time {
    FromSecs(ToSecs(t))
  }

  lemma RenderShape(env: Envelope, attempts: nat, next: Time, created: Time)
    ensures Render(env, attempts, next, created)
         == Line("created", Print(ToSecs(created))) + (Line("next", Print(ToSecs(next)))
            + (Line("attempts", Print(attempts)) + (Line("from", SenderText(env.sender)) + RcptLines(env.recipients))))
  {
    hide Line, Print, ToSecs, SenderText, RcptLines;
  }

  // ------------------------------------------------------- records of any text

  /** Mailboxes that fit a line, even if they may not read back the same. */
  ghost predicate PlainEnvelope(env: Envelope) {
    && (env.sender.Some? ==> Plain(Display(env.sender.value)))
    && (forall i :: 0 <= i < |env.recipients| ==> Plain(Display(env.recipients[i])))
  }

  ghost predicate PlainFields(f: Fields) {
    PlainEnvelope(Envelope(f.sender, f.recipients)) && (f.created.Some? ==> f.created.value <= U64_MAX)
  }

  lemma ParsedIsPlain(val: string)
    requires '\n' !in val && Mailboxes.Parse(val).Some?
    ensures Plain(Display(Mailboxes.Parse(val).value))
  {
    ParsedText(val);
  }

  lemma ValueHasNoLf(line: string)
    requires '\n' !in line
    ensures '\n' !in KeyVal(line).1
  {
  }

  /** The mailboxes read so far stay plain when a plain one is added. */
  lemma AddMailbox(f: Fields, m: Mailbox)
    requires PlainFields(f) && Plain(Display(m))
    ensures PlainFields(f.(sender := Some(m))) && PlainFields(f.(recipients := f.recipients + [m]))
  {
    hide Plain, Display;
  }

  lemma AddLineKeepsPlain(f: Fields, line: string)
    requires PlainFields(f) && '\n' !in line && AddLine(f, line).Some?
    ensures PlainFields(AddLine(f, line).value)
  {
    hide KeyVal, Mailboxes.Parse, ParseUnsigned, Plain, Display;
    ValueHasNoLf(line);
    var val := KeyVal(line).1;
    if Mailboxes.Parse(val).Some? {
      ParsedIsPlain(val);
      AddMailbox(f, Mailboxes.Parse(val).value);
    }
  }

  lemma {:induction false} AddLinesKeepPlain(f: Fields, lines: seq<string>)
    requires PlainFields(f) && (forall i :: 0 <= i < |lines| ==> '\n' !in lines[i]) && AddLines(f, lines).Some?
    ensures PlainFields(AddLines(f, lines).value)
    decreases |lines|
  {
    hide PlainFields, AddLine;
    if lines != [] {
      AddLineKeepsPlain(f, lines[0]);
      AddLinesKeepPlain(AddLine(f, lines[0]).value, lines[1..]);
    }
  }

  /** Whatever text a record was read from, it can be written again: its mailboxes
      fit a line and its creation time fits 64 bits. */
  lemma RecordIsPlain(text: string)
    requires ParseRecord(text).Some?
    ensures SecondsFit(ParseRecord(text).value.createdAt)
    ensures PlainEnvelope(Envelope(ParseRecord(text).value.sender, ParseRecord(text).value.recipients))
  {
    hide AddLines, Lines;
    forall i | 0 <= i < |Lines(text)| ensures '\n' !in Lines(text)[i] {
      LinesHaveNoLf(text, i);
    }
    AddLinesKeepPlain(NO_FIELDS, Lines(text));
  }

  /** Mailboxes printed and parsed again, all or nothing. */
  function ParseAll(recipients: seq<Mailbox>): Option<seq<Mailbox>> {
    if recipients == [] then Some([])
    else
      match Mailboxes.Parse(Display(recipients[0]))
      case None => None
      case Some(m) =>
        match ParseAll(recipients[1..])
        case None => None
        case Some(rest) => Some([m] + rest)
  }

  lemma ReadRcpt(f: Fields, m: Mailbox, rest: string)
    requires Plain(Display(m))
    ensures AddLines(f, Lines(Line("rcpt", Display(m)) + rest))
         == match Mailboxes.Parse(Display(m))
            case None => None
            case Some(x) => AddLines(f.(recipients := f.recipients + [x]), Lines(rest))
  {
    LinesFirst("rcpt", Display(m), rest);
    ReadLine(f, "rcpt", Display(m), rest);
    hide Lines, AddLines, Mailboxes.Parse, ParseUnsigned;
  }

  lemma {:induction false} ReadRecipients(f: Fields, recipients: seq<Mailbox>)
    requires forall i :: 0 <= i < |recipients| ==> Plain(Display(recipients[i]))
    ensures AddLines(f, Lines(RcptLines(recipients)))
         == match ParseAll(recipients)
            case None => None
            case Some(ms) => Some(f.(recipients := f.recipients + ms))
    decreases |recipients|
  {
    hide Plain, AddLine, AddLines, Lines, RcptLines, Line, Mailboxes.Parse, Display;
    if recipients == [] {
      ReadNothing(f);
      assert f.recipients + [] == f.recipients;
    } else {
      RcptLinesFirst(recipients);
      ReadRcpt(f, recipients[0], RcptLines(recipients[1..]));
      var r := Mailboxes.Parse(Display(recipients[0]));
      if r.Some? {
        ReadRecipients(f.(recipients := f.recipients + [r.value]), recipients[1..]);
        var rest := ParseAll(recipients[1..]);
        assert rest.Some? ==> f.recipients + [r.value] + rest.value == f.recipients + ([r.value] + rest.value);
      }
    }
  }

  lemma ReadSender(f: Fields, sender: Option<Mailbox>, rest: string)
    requires f.sender == None && (sender.Some? ==> Plain(Display(sender.value)))
    ensures var parsed := if sender.None? then None else Mailboxes.Parse(Display(sender.value));
            AddLines(f, Lines(Line("from", SenderText(sender)) + rest))
            == if sender.Some? && parsed.None? then None else AddLines(f.(sender := parsed), Lines(rest))
  {
    LinesFirst("from", SenderText(sender), rest);
    ReadLine(f, "from", SenderText(sender), rest);
    hide Lines, AddLines, Mailboxes.Parse, ParseUnsigned;
  }

  /** What a written record reads back as: each mailbox is what its text parses to. */
  function Reread(env: Envelope, attempts: nat, next: Time, created: Time): Option<Entry> {
    var sender := if env.sender.None? then None else Mailboxes.Parse(Display(env.sender.value));
    var recipients := ParseAll(env.recipients);
    if (env.sender.Some? && sender.None?) || recipients.None? || recipients.value == [] then None
    else Some(Entry(sender, recipients.value, attempts, Truncated(next), Truncated(created)))
  }

  lemma RecordReads(env: Envelope, attempts: nat, next: Time, created: Time)
    requires PlainEnvelope(env) && attempts <= U32_MAX && SecondsFit(next) && SecondsFit(created)
    ensures ParseRecord(Render(env, attempts, next, created)) == Reread(env, attempts, next, created)
  {
    hide Line, Print, ToSecs, SenderText, RcptLines, Render, Lines, AddLines, Plain, ParseAll, Mailboxes.Parse, Display;
    var rcpts := RcptLines(env.recipients);
    var from := Line("from", SenderText(env.sender));
    var l2, l3 := Line("next", Print(ToSecs(next))), Line("attempts", Print(attempts));
    RenderShape(env, attempts, next, created);
    var f1 := NO_FIELDS.(created := Some(ToSecs(created)));
    var f2 := f1.(next := Some(ToSecs(next)));
    var f3 := f2.(attempts := Some(attempts));
    ReadNumber(NO_FIELDS, "created", ToSecs(created), l2 + (l3 + (from + rcpts)));
    ReadNumber(f1, "next", ToSecs(next), l3 + (from + rcpts));
    ReadNumber(f2, "attempts", attempts, from + rcpts);
    ReadSender(f3, env.sender, rcpts);
    var parsed := if env.sender.None? then None else Mailboxes.Parse(Display(env.sender.value));
    ReadRecipients(f3.(sender := parsed), env.recipients);
    var ms := ParseAll(env.recipients);
    assert ms.Some? ==> [] + ms.value == ms.value;
  }

  /** A record rewritten from mailboxes that fit a line is unreadable, or has the
      attempts and time written and a sender exactly if one was written. */
  lemma RewrittenRecord(env: Envelope, attempts: nat, next: Time, created: Time)
    requires PlainEnvelope(env) && attempts <= U32_MAX && SecondsFit(next) && SecondsFit(created)
    ensures var r := ParseRecord(Render(env, attempts, next, created));
            r.Some? ==>
              && r.value.attempts == attempts && r.value.nextAt == Truncated(next)
              && (r.value.sender.Some? <==> env.sender.Some?)
  {
    hide ParseRecord, Render, ParseAll, Mailboxes.Parse, Truncated, PlainEnvelope;
    RecordReads(env, attempts, next, created);
  }

  // --------------------------------------------------------------- round trip

  lemma {:induction false} ParseAllSame(recipients: seq<Mailbox>)
    ensures ParseAll(recipients) == Some(recipients) <==> forall i :: 0 <= i < |recipients| ==> WellFormed(recipients[i])
    decreases |recipients|
  {
    hide Mailboxes.Parse, Display, WellFormed;
    if recipients != [] {
      DisplayRoundTrip(recipients[0]);
      ParseAllSame(recipients[1..]);
      assert recipients == [recipients[0]] + recipients[1..];
      var p, rest := Mailboxes.Parse(Display(recipients[0])), ParseAll(recipients[1..]);
      if p.Some? && rest.Some? && [p.value] + rest.value == recipients {
        assert ([p.value] + rest.value)[0] == p.value && ([p.value] + rest.value)[1..] == rest.value;
      }
      assert forall i :: 0 < i < |recipients| ==> recipients[i] == recipients[1..][i - 1];
    }
  }

  /** Storable: well-formed, and fitting a line. */
  lemma StorableIsPlain(m: Mailbox)
    ensures Storable(m) <==> WellFormed(m) && Plain(Display(m))
  {
    if WellFormed(m) { assert Display(m)[|Display(m)| - 1] == m.domain[|m.domain| - 1]; }
  }

  /** Reading a printed record gives back envelope, attempts and whole seconds if and
      only if there is a recipient and every mailbox is well-formed and without LF. */
  lemma RecordRoundTrip(env: Envelope, attempts: nat, next: Time, created: Time)
    requires attempts <= U32_MAX && SecondsFit(next) && SecondsFit(created)
    ensures var same := Entry(env.sender, env.recipients, attempts, Truncated(next), Truncated(created));
            ParseRecord(Render(env, attempts, next, created)) == Some(same) <==> StorableEnvelope(env)
  {
    var text := Render(env, attempts, next, created);
    var same := Entry(env.sender, env.recipients, attempts, Truncated(next), Truncated(created));
    hide ParseRecord, Render, ParseAll, Mailboxes.Parse, Display, Truncated, Plain, Storable, WellFormed;
    if ParseRecord(text) == Some(same) { RecordIsPlain(text); }
    EnvelopeIsStorable(env);
    if PlainEnvelope(env) {
      RecordReads(env, attempts, next, created);
      ParseAllSame(env.recipients);
      if env.sender.Some? { DisplayRoundTrip(env.sender.value); }
    }
  }

  lemma EnvelopeIsStorable(env: Envelope)
    ensures StorableEnvelope(env) <==>
            && PlainEnvelope(env) && env.recipients != []
            && (env.sender.Some? ==> WellFormed(env.sender.value))
            && (forall i :: 0 <= i < |env.recipients| ==> WellFormed(env.recipients[i]))
  {
    hide Storable, WellFormed, Plain, Display;
    if env.sender.Some? { StorableIsPlain(env.sender.value); }
    forall i | 0 <= i < |env.recipients|
      ensures Storable(env.recipients[i]) <==> WellFormed(env.recipients[i]) && Plain(Display(env.recipients[i]))
    {
      StorableIsPlain(env.recipients[i]);
    }
  }

  // ------------------------------------------------------------------ deferring

  datatype Retry = Retry(attempts: nat, next: Time)

  /** `defer` on the record's text: parse, re-render with the new schedule. */
  function Deferred(text: string, r: Retry): Option<string> {
    match ParseRecord(text)
    case None => None
    case Some(e) => Some(Render(Envelope(e.sender, e.recipients), r.attempts, r.next, e.createdAt))
  }

  function DeferredAll(text: string, retries: seq<Retry>): Option<string>
    decreases |retries|
  {
    if retries == [] then Some(text)
    else
      match Deferred(text, retries[0])
      case None => None
      case Some(t) => DeferredAll(t, retries[1..])
  }

  lemma TruncatedTwice(t: Time)
    ensures Truncated(Truncated(t)) == Truncated(t) && ToSecs(Truncated(t)) == ToSecs(t)
    ensures t >= 0 ==> t - SECOND < Truncated(t) <= t
  {
  }

  /** Any number of defers keeps the envelope and the creation time, and the
      record shows the last schedule. */
  lemma {:induction false} DefersPreserve(env: Envelope, attempts: nat, next: Time, created: Time, retries: seq<Retry>)
    requires StorableEnvelope(env) && attempts <= U32_MAX && SecondsFit(next) && SecondsFit(created)
    requires forall i :: 0 <= i < |retries| ==> retries[i].attempts <= U32_MAX && SecondsFit(retries[i].next)
    ensures var last := if retries == [] then Retry(attempts, next) else retries[|retries| - 1];
            var text := DeferredAll(Render(env, attempts, next, created), retries);
            && text.Some?
            && ParseRecord(text.value) == Some(Entry(env.sender, env.recipients, last.attempts, Truncated(last.next), Truncated(created)))
    decreases |retries|
  {
    hide Render, ParseRecord, StorableEnvelope, Truncated;
    RecordRoundTrip(env, attempts, next, created);
    TruncatedTwice(created);
    if retries != [] {
      var r := retries[0];
      DefersPreserve(env, r.attempts, r.next, Truncated(created), retries[1..]);
      assert retries != [r] ==> retries[1..][|retries[1..]| - 1] == retries[|retries| - 1];
    }
  }
}
