/**
 What a relay hop does to a DKIM-signed message. A hop sends the message through
 DATA framing, which adds one CRLF, and prepends trace fields.
 */
module DkimHop {
  import opened Octets
  import opened Framing
  import opened FramingTheorems
  import opened DkimBody
  import opened DkimHeaders

  // ---------------------------------------------------------- header and body

  predicate BlankAt(s: Bytes, i: int) {
    CrlfAt(s, i) && CrlfAt(s, i + 2)
  }

  /** The first blank line: CRLF CRLF. */
  function FindBlank(s: Bytes, from: nat): (p: nat)
    requires from <= |s|
    ensures from <= p <= |s|
    ensures p < |s| ==> BlankAt(s, p)
    ensures forall i :: from <= i < p ==> !BlankAt(s, i)
    decreases |s| - from
  {
    if from == |s| || BlankAt(s, from) then from else FindBlank(s, from + 1)
  }

  datatype Parts = Parts(headers: Bytes, body: Bytes)

  /** `split_message`. */
  function SplitMessage(raw: Bytes): Parts {
    var p := FindBlank(raw, 0);
    if p == |raw| then Parts(raw, []) else Parts(raw[..p], raw[p + 4..])
  }

  /** What signature verification reads from a message: the parsed fields and
      the canonical body. */
  datatype View = View(fields: seq<HeaderField>, body: Bytes)

  function ViewOf(raw: Bytes, canon: BodyCanon): View {
    var parts := SplitMessage(raw);
    View(ParseFields(parts.headers), Canonical(parts.body, canon))
  }

  // ------------------------------------------------------------- trailing CRLF

  lemma {:induction false} FieldsOfSnoc(blocks: seq<Bytes>)
    ensures FieldsOf(blocks + [[]]) == FieldsOf(blocks)
  {
    var more := blocks + [[]];
    if blocks == [] {
      assert FindColon(more[0]) == 0;
      assert more[1..] == [];
    } else {
      FieldsOfSnoc(blocks[1..]);
      assert more[1..] == blocks[1..] + [[]];
    }
  }

  /** An empty last header line parses to nothing. */
  lemma TrailingHeaderLine(headers: Bytes)
    ensures ParseFields(headers + CRLF) == ParseFields(headers)
  {
    var lines := Split(headers);
    SplitTrailing(headers);
    assert (lines + [[]])[..|lines|] == lines;
    assert Blocks(lines + [[]]) == Blocks(lines) + [[]];
    FieldsOfSnoc(Blocks(lines));
  }

  lemma SplitAtBlank(raw: Bytes, p: nat)
    requires BlankAt(raw, p) && forall i :: 0 <= i < p ==> !BlankAt(raw, i)
    ensures SplitMessage(raw) == Parts(raw[..p], raw[p + 4..])
  {
    assert FindBlank(raw, 0) == p;
  }

  lemma SplitWithoutBlank(raw: Bytes)
    requires forall i :: 0 <= i < |raw| ==> !BlankAt(raw, i)
    ensures SplitMessage(raw) == Parts(raw, [])
  {
    var p := FindBlank(raw, 0);
    assert !BlankAt(raw, p);
  }

  /** A blank line is not made by appending CRLF, except at the very end. */
  lemma BlankKept(m: Bytes, i: nat)
    ensures i + 4 <= |m| ==> (BlankAt(m + CRLF, i) <==> BlankAt(m, i))
    ensures i + 4 > |m| && BlankAt(m + CRLF, i) ==> i == |m| - 2
  {
  }

  /** One more CRLF at the end of a message: the verifier sees no difference. */
  lemma TrailingCrlfUnseen(m: Bytes, canon: BodyCanon)
    ensures ViewOf(m + CRLF, canon) == ViewOf(m, canon)
  {
    var p := FindBlank(m, 0);
    var longer := m + CRLF;
    forall i | 0 <= i < p ensures i + 4 <= |m| ==> !BlankAt(longer, i) {
      BlankKept(m, i);
    }
    if p < |m| {
      BlankKept(m, p);
      SplitAtBlank(longer, p);
      assert longer[..p] == m[..p] && longer[p + 4..] == m[p + 4..] + CRLF;
      TrailingCrlfIgnored(m[p + 4..], canon);
    } else {
      forall i | 0 <= i < |longer| && i != |m| - 2 ensures !BlankAt(longer, i) {
        BlankKept(m, i);
      }
      if BlankAt(longer, |m| - 2) {
        SplitAtBlank(longer, |m| - 2);
        assert longer[..|m| - 2] == m[..|m| - 2] && longer[|m| + 2..] == [];
        assert m == m[..|m| - 2] + CRLF;
        TrailingHeaderLine(m[..|m| - 2]);
      } else {
        SplitWithoutBlank(longer);
        TrailingHeaderLine(m);
      }
    }
  }

  /** What is received after framing has the same fields and canonical body, for
      every message without bare LF that fits the caps. */
  lemma SignatureSurvivesFraming(m: Bytes, tail: Bytes, lineMax: nat, maxSize: nat, canon: BodyCanon)
    requires NoBareLf(m) && LinesFit(Split(m), lineMax) && 3 <= lineMax && |m| + 2 <= maxSize
    ensures var got := Receive(DotStuff(m) + tail, lineMax, Fresh(maxSize));
            got.ending == Finished && ViewOf(got.collector.body, canon) == ViewOf(m, canon)
  {
    RoundTrip(m, tail, lineMax, maxSize);
    TrailingCrlfUnseen(m, canon);
  }

  // --------------------------------------------------------------- trace field

  lemma BlankShift(line: Bytes, raw: Bytes, i: nat)
    requires NoCrlf(line) && !CrlfAt(raw, 0)
    ensures var s := line + CRLF + raw;
            BlankAt(s, i) <==> i >= |line| + 2 && BlankAt(raw, i - |line| - 2)
  {
    var s := line + CRLF + raw;
    var n := |line| + 2;
    assert forall k :: 0 <= k < |raw| ==> s[n + k] == raw[k];
    if i < |line| {
      SplitWholeNoCrlf(line, raw, i);
    }
  }

  lemma SplitWholeNoCrlf(line: Bytes, raw: Bytes, i: nat)
    requires NoCrlf(line) && i < |line|
    ensures !CrlfAt(line + CRLF + raw, i)
  {
    FirstCrlfOfConcat(line, raw);
    assert FindCrlf(line) == |line| || CrlfAt(line, FindCrlf(line));
  }

  /** A line put on top of a message becomes its first header line. */
  lemma PrependSplits(line: Bytes, raw: Bytes)
    requires NoCrlf(line) && !CrlfAt(raw, 0)
    ensures var s := line + CRLF + raw;
            SplitMessage(s) == Parts(line + CRLF + SplitMessage(raw).headers, SplitMessage(raw).body)
  {
    var s := line + CRLF + raw;
    var n := |line| + 2;
    var p := FindBlank(raw, 0);
    forall i: nat ensures BlankAt(s, i) <==> i >= n && BlankAt(raw, i - n) {
      BlankShift(line, raw, i);
    }
    if p < |raw| {
      SplitAtBlank(s, n + p);
      assert s[..n + p] == line + CRLF + raw[..p];
      assert s[n + p + 4..] == raw[p + 4..];
    } else {
      SplitWithoutBlank(s);
    }
  }

  /** A line of a trace field, as `prepend_header` is given it. */
  predicate TraceLine(line: Bytes) {
    NoCrlf(line) && COLON in line && !Wsp(line[0])
  }

  function TraceField(line: Bytes): HeaderField
    requires TraceLine(line)
  {
    LineField(line)
  }

  function TraceFields(traces: seq<Bytes>): (r: seq<HeaderField>)
    requires forall i :: 0 <= i < |traces| ==> TraceLine(traces[i])
    ensures |r| == |traces| && forall i :: 0 <= i < |traces| ==> r[i] == TraceField(traces[i])
  {
    seq(|traces|, i requires 0 <= i < |traces| => TraceField(traces[i]))
  }

  /** `prepend_header` for each line, the last one first. */
  function Stamped(traces: seq<Bytes>, raw: Bytes): Bytes {
    if traces == [] then raw else traces[0] + CRLF + Stamped(traces[1..], raw)
  }

  /** Not folded into what is put on top; the server takes no other message. */
  predicate Unfolded(raw: Bytes) {
    raw == [] || !Wsp(raw[0])
  }

  lemma StampBegins(line: Bytes, raw: Bytes)
    requires TraceLine(line)
    ensures Unfolded(line + CRLF + raw) && !CrlfAt(line + CRLF + raw, 0)
  {
    SplitWholeNoCrlf(line, raw, 0);
  }

  lemma StampOne(line: Bytes, raw: Bytes, canon: BodyCanon)
    requires TraceLine(line) && Unfolded(raw) && !CrlfAt(raw, 0)
    ensures ViewOf(line + CRLF + raw, canon) == View([TraceField(line)] + ViewOf(raw, canon).fields, ViewOf(raw, canon).body)
  {
    var headers := SplitMessage(raw).headers;
    assert headers == [] || headers[0] == raw[0];
    hide SplitMessage, ParseFields, Canonical, FieldsOf, NoCrlf;
    PrependSplits(line, raw);
    PrependParses(line, headers);
    OneField(line);
  }

  /** A line on top of a leading CRLF is followed by a blank line. */
  lemma BlankBehind(line: Bytes, raw: Bytes)
    requires NoCrlf(line) && CrlfAt(raw, 0)
    ensures SplitMessage(line + CRLF + raw) == Parts(line, raw[2..])
  {
    var s, n := line + CRLF + raw, |line|;
    assert forall k :: 0 <= k < |raw| ==> s[n + 2 + k] == raw[k];
    assert BlankAt(s, n);
    forall i | 0 <= i < n ensures !BlankAt(s, i) {
      SplitWholeNoCrlf(line, raw, i);
    }
    SplitAtBlank(s, n);
    assert s[..n] == line && s[n + 4..] == raw[2..];
  }

  lemma OneLineParses(line: Bytes)
    requires TraceLine(line)
    ensures ParseFields(line) == [TraceField(line)]
  {
    SplitWhole(line);
    hide Split, FieldsOf;
    assert [line][..0] == [];
    assert Blocks([line]) == [line];
    OneField(line);
  }

  lemma StampCuts(line: Bytes, raw: Bytes, canon: BodyCanon)
    requires TraceLine(line) && CrlfAt(raw, 0)
    ensures ViewOf(line + CRLF + raw, canon) == View([TraceField(line)], Canonical(raw[2..], canon))
  {
    hide SplitMessage, ParseFields, Canonical, TraceField;
    BlankBehind(line, raw);
    OneLineParses(line);
  }

  /** A trace line ends up in front of a message that begins with CRLF. */
  predicate Displaces(traces: seq<Bytes>, raw: Bytes) {
    traces != [] && CrlfAt(raw, 0)
  }

  /** What the verifier sees of a stamped message: trace fields on top of what it
      saw before, unless the message began with CRLF; then the trace fields alone,
      and everything behind that CRLF is body. */
  function StampedAs(traces: seq<Bytes>, raw: Bytes, canon: BodyCanon): View
    requires forall i :: 0 <= i < |traces| ==> TraceLine(traces[i])
  {
    var was := ViewOf(raw, canon);
    if Displaces(traces, raw) then View(TraceFields(traces), Canonical(raw[2..], canon))
    else View(TraceFields(traces) + was.fields, was.body)
  }

  lemma {:induction false} StampedView(traces: seq<Bytes>, raw: Bytes, canon: BodyCanon)
    requires (forall i :: 0 <= i < |traces| ==> TraceLine(traces[i])) && Unfolded(raw)
    ensures ViewOf(Stamped(traces, raw), canon) == StampedAs(traces, raw, canon)
    ensures traces != [] ==> Unfolded(Stamped(traces, raw)) && !CrlfAt(Stamped(traces, raw), 0)
    decreases |traces|
  {
    hide ViewOf, Unfolded, TraceField, TraceLine, Canonical, CrlfAt;
    if traces == [] {
      assert [] + ViewOf(raw, canon).fields == ViewOf(raw, canon).fields;
    } else {
      assert forall i :: 0 <= i < |traces| - 1 ==> traces[1..][i] == traces[i + 1];
      var inner := Stamped(traces[1..], raw);
      StampedView(traces[1..], raw, canon);
      StampBegins(traces[0], inner);
      assert TraceFields(traces) == [TraceField(traces[0])] + TraceFields(traces[1..]);
      if traces[1..] == [] && CrlfAt(raw, 0) {
        StampCuts(traces[0], raw, canon);
      } else {
        StampOne(traces[0], inner, canon);
      }
    }
  }

  /** Stamping keeps the fields below and the canonical body of a message with
      fields if and only if no trace line is put in front of a leading CRLF. */
  lemma StampKeepsExactly(traces: seq<Bytes>, raw: Bytes, canon: BodyCanon)
    requires (forall i :: 0 <= i < |traces| ==> TraceLine(traces[i])) && Unfolded(raw) && ViewOf(raw, canon).fields != []
    ensures var was := ViewOf(raw, canon);
            ViewOf(Stamped(traces, raw), canon) == View(TraceFields(traces) + was.fields, was.body)
            <==> !Displaces(traces, raw)
  {
    hide ViewOf, Unfolded, TraceLine, Canonical, Displaces;
    StampedView(traces, raw, canon);
    var was := ViewOf(raw, canon);
    assert |TraceFields(traces) + was.fields| > |TraceFields(traces)|;
  }

  const LEADING_CRLF: Bytes := [CR, LF, 65, COLON, 49, CR, LF, CR, LF, 66]

  /** An accepted message, an empty line and then `A:1` and a body, that loses its
      field to the body once a trace line is put on top. */
  lemma StampLosesExample(line: Bytes, canon: BodyCanon)
    requires TraceLine(line)
    ensures ViewOf(LEADING_CRLF, canon).fields == [HeaderField([65], [49])]
    ensures ViewOf(line + CRLF + LEADING_CRLF, canon).fields == [TraceField(line)]
  {
    var head: Bytes := [65, COLON, 49];
    var raw := LEADING_CRLF;
    assert BlankAt(raw, 5) && forall i :: 0 <= i < 5 ==> !BlankAt(raw, i);
    SplitAtBlank(raw, 5);
    assert raw[..5] == [] + CRLF + head;
    ExampleParses(head);
    assert CrlfAt(raw, 0);
    hide ViewOf, ParseFields, TraceField;
    StampCuts(line, raw, canon);
    assert ViewOf(raw, canon).fields == ParseFields([] + CRLF + head) by { ViewFields(raw, canon); }
  }

  lemma ViewFields(raw: Bytes, canon: BodyCanon)
    ensures ViewOf(raw, canon).fields == ParseFields(SplitMessage(raw).headers)
  {
  }

  lemma ExampleParses(head: Bytes)
    requires head == [65, COLON, 49]
    ensures ParseFields([] + CRLF + head) == [HeaderField([65], [49])]
  {
    var none: seq<Bytes> := [[]];
    assert none[1..] == [] && FindColon([]) == 0;
    assert FieldsOf(none) == [];
    assert [head][..0] == [] && Blocks([head]) == [head];
    ExampleField(head);
    hide FieldsOf, Blocks;
    PrependParses([], head);
    SplitWhole(head);
  }

  lemma ExampleField(head: Bytes)
    requires head == [65, COLON, 49]
    ensures FieldsOf([head]) == [HeaderField([65], [49])]
  {
    var name: Bytes, value: Bytes := [65], [49];
    assert TrimStart(name) == name && TrimEnd(name) == name;
    assert head == name + [58] + value;
    hide FieldsOf;
    FieldExactly(name, value);
  }

  /** A whole hop: the message is sent, received, and stamped with any trace lines.
      The canonical body and every field below the new ones stay if and only if no
      trace line is put in front of a leading CRLF; otherwise the trace fields are alone and the
      old header section is body. Where they stay, the signed header bytes stay
      exactly if `h=` names none of the new fields more often than the message
      already had it. */
  lemma SignatureSurvivesHop(m: Bytes, tail: Bytes, lineMax: nat, maxSize: nat, traces: seq<Bytes>, canon: BodyCanon, sig: Signature)
    requires NoBareLf(m) && LinesFit(Split(m), lineMax) && 3 <= lineMax && |m| + 2 <= maxSize
    requires Unfolded(m) && sig.index < |ViewOf(m, canon).fields|
    requires forall i :: 0 <= i < |traces| ==> TraceLine(traces[i])
    ensures var got := Receive(DotStuff(m) + tail, lineMax, Fresh(maxSize));
            var before, after := ViewOf(m, canon), ViewOf(Stamped(traces, got.collector.body), canon);
            var fields := TraceFields(traces);
            && got.ending == Finished
            && (after == View(fields + before.fields, before.body) <==> !Displaces(traces, m))
            && (Displaces(traces, m) ==> after == View(fields, Canonical(m[2..], canon)))
            && (!Displaces(traces, m) ==>
                  (HashInput(after.fields, Below(sig, |traces|)) == HashInput(before.fields, sig)
                   <==> forall i :: 0 <= i < |traces| ==> Covered(before.fields, sig, LowerName(fields[i].name))))
  {
    hide *;
    RoundTrip(m, tail, lineMax, maxSize);
    HopView(m, traces, canon);
    PrependedFields(TraceFields(traces), ViewOf(m, canon).fields, sig);
  }

  /** The view of a message received, which has one more CRLF, and stamped. */
  lemma HopView(m: Bytes, traces: seq<Bytes>, canon: BodyCanon)
    requires (forall i :: 0 <= i < |traces| ==> TraceLine(traces[i])) && Unfolded(m) && ViewOf(m, canon).fields != []
    ensures var was, now := ViewOf(m, canon), ViewOf(Stamped(traces, m + CRLF), canon);
            && (now == View(TraceFields(traces) + was.fields, was.body) <==> !Displaces(traces, m))
            && (Displaces(traces, m) ==> now == View(TraceFields(traces), Canonical(m[2..], canon)))
  {
    hide *;
    ReceivedBegins(traces, m, canon);
    TrailingCrlfUnseen(m, canon);
    StampKeepsExactly(traces, m + CRLF, canon);
    if Displaces(traces, m) { HopDisplaces(m, traces, canon); }
  }

  lemma HopDisplaces(m: Bytes, traces: seq<Bytes>, canon: BodyCanon)
    requires (forall i :: 0 <= i < |traces| ==> TraceLine(traces[i])) && Displaces(traces, m) && Unfolded(m + CRLF)
    ensures ViewOf(Stamped(traces, m + CRLF), canon) == View(TraceFields(traces), Canonical(m[2..], canon))
  {
    assert CrlfAt(m + CRLF, 0) && (m + CRLF)[2..] == m[2..] + CRLF;
    hide ViewOf, Canonical, Stamped, TraceFields, TraceLine, Unfolded, CrlfAt;
    StampedView(traces, m + CRLF, canon);
    TrailingCrlfIgnored(m[2..], canon);
  }

  lemma ReceivedBegins(traces: seq<Bytes>, m: Bytes, canon: BodyCanon)
    requires Unfolded(m) && ViewOf(m, canon).fields != []
    ensures Unfolded(m + CRLF) && (Displaces(traces, m + CRLF) <==> Displaces(traces, m))
  {
    if m == [] {
      EmptyHasNoFields(canon);
    } else {
      assert (m + CRLF)[0] == m[0] && (|m| > 1 ==> (m + CRLF)[1] == m[1]);
    }
  }

  lemma EmptyHasNoFields(canon: BodyCanon)
    ensures ViewOf([], canon).fields == []
  {
    SplitWithoutBlank([]);
    SplitWhole([]);
    var none: seq<Bytes> := [[]];
    assert none[..0] == [] && Blocks(none) == none;
    assert none[1..] == [] && FindColon([]) == 0;
  }
}
