/**
 End-to-end facts about DATA framing: one payload is one message for every byte
 string, and the exact round trip holds precisely for messages without bare LF.
 */
module FramingTheorems {
  import opened Text
  import opened Octets
  import opened Framing

  ghost predicate Open(c: Collector) {
    !c.sizeExceeded && !c.finished
  }

  /** The text to come cannot be mistaken for the terminator line. */
  ghost predicate SafeStart(c: Collector, t: Bytes) {
    c.prevCrlf && t != [] && t[0] == DOT ==> |t| >= 2 && t[1] == DOT
  }

  /** The collector after a stuffed segment and its CRLF; None if a cap is hit. */
  ghost function AfterSegment(t: Bytes, lineMax: nat, c: Collector): Option<Collector>
    decreases |t|
  {
    var p := FindLf(t);
    if p == |t| then AfterLine(t + CRLF, lineMax, c)
    else
      match AfterLine(t[..p + 1], lineMax, c)
      case None => None
      case Some(c1) => AfterSegment(t[p + 1..], lineMax, c1)
  }

  ghost function AfterLine(line: Bytes, lineMax: nat, c: Collector): Option<Collector> {
    var c1 := Push(c, line);
    if |line| > lineMax || c1.sizeExceeded then None else Some(c1)
  }

  ghost function AfterSegments(segs: seq<Bytes>, lineMax: nat, c: Collector): Option<Collector> {
    if segs == [] then Some(c)
    else
      match AfterSegment(Stuff(segs[0]), lineMax, c)
      case None => None
      case Some(c1) => AfterSegments(segs[1..], lineMax, c1)
  }

  ghost predicate CapHit(r: Reception) {
    r.ending == LineTooLong || r.ending == TooBig
  }

  // --------------------------------------------------- one payload, one message

  lemma FirstLine(line: Bytes, after: Bytes, lineMax: nat)
    requires line != [] && line[|line| - 1] == LF && NoLfBefore(line, |line| - 1)
    ensures NextLine(line + after, lineMax).kind != Eof
    ensures |line| <= lineMax ==> NextLine(line + after, lineMax) == Line(Read, line, after)
    ensures |line| > lineMax ==> NextLine(line + after, lineMax).kind == TooLong
  {
    var s := line + after;
    assert FindLf(s) == |line| - 1 by {
      assert s[|line| - 1] == LF;
      assert forall i :: 0 <= i < |line| - 1 ==> s[i] == line[i];
    }
    assert s[..|line|] == line && s[|line|..] == after;
  }

  /** One turn of the receiving loop on a line that is not the terminator. */
  lemma ReceiveLine(line: Bytes, after: Bytes, lineMax: nat, c: Collector)
    requires line != [] && line[|line| - 1] == LF && NoLfBefore(line, |line| - 1)
    requires !Terminates(c, line)
    ensures var r := Receive(line + after, lineMax, c);
            if |line| > lineMax || Push(c, line).sizeExceeded then CapHit(r)
            else r == Receive(after, lineMax, Push(c, line))
  {
    FirstLine(line, after, lineMax);
  }

  /** Cutting a segment at its first (bare) LF. */
  lemma InnerLine(t: Bytes, p: nat)
    requires NoCrlf(t) && p < |t| && t[p] == LF
    ensures !EndsCrlf(t[..p + 1]) && NoCrlf(t[p + 1..])
  {
    if p > 0 { assert !CrlfAt(t, p - 1); }
    var t' := t[p + 1..];
    forall i | 0 <= i < |t'| - 1 ensures !CrlfAt(t', i) {
      assert !CrlfAt(t, p + 1 + i);
    }
  }

  /** What receiving a segment and its CRLF must amount to. */
  ghost predicate SegmentOk(r: Reception, after: Option<Collector>, tail: Bytes, lineMax: nat) {
    match after
    case None => CapHit(r)
    case Some(c') => Open(c') && c'.prevCrlf && r == Receive(tail, lineMax, c')
  }

  lemma {:induction false} SegmentReceived(t: Bytes, tail: Bytes, lineMax: nat, c: Collector)
    requires NoCrlf(t) && Open(c) && SafeStart(c, t)
    ensures SegmentOk(Receive(t + CRLF + tail, lineMax, c), AfterSegment(t, lineMax, c), tail, lineMax)
    decreases |t|
  {
    var p := FindLf(t);
    if p < |t| {
      var line, t' := t[..p + 1], t[p + 1..];
      InnerLine(t, p);
      ReceiveLine(line, t' + CRLF + tail, lineMax, c);
      Cut(t, p + 1, CRLF, tail);
      var c1 := Push(c, line);
      if !c1.sizeExceeded && |line| <= lineMax {
        SegmentReceived(t', tail, lineMax, c1);
      }
    } else {
      LastLineReceived(t, tail, lineMax, c);
    }
  }

  lemma LastLineReceived(t: Bytes, tail: Bytes, lineMax: nat, c: Collector)
    requires FindLf(t) == |t| && Open(c) && SafeStart(c, t)
    ensures SegmentOk(Receive(t + CRLF + tail, lineMax, c), AfterSegment(t, lineMax, c), tail, lineMax)
  {
    LastLine(t, c);
    hide Receive, EndsCrlf, Content, Terminates, SafeStart;
    ReceiveLine(t + CRLF, tail, lineMax, c);
  }

  lemma LastLine(t: Bytes, c: Collector)
    requires SafeStart(c, t)
    ensures EndsCrlf(t + CRLF) && Content(t + CRLF) == t && !Terminates(c, t + CRLF)
  {
  }

  lemma StuffIsSafe(seg: Bytes)
    requires NoCrlf(seg)
    ensures NoCrlf(Stuff(seg))
    ensures Stuff(seg) != [] && Stuff(seg)[0] == DOT ==> |Stuff(seg)| >= 2 && Stuff(seg)[1] == DOT
  {
    if Stuff(seg) != seg {
      var s := Stuff(seg);
      assert forall i :: 1 <= i < |s| - 1 ==> (CrlfAt(s, i) <==> CrlfAt(seg, i - 1));
    }
  }

  lemma {:induction false} PayloadReceived(segs: seq<Bytes>, tail: Bytes, lineMax: nat, c: Collector)
    requires AllNoCrlf(segs) && Open(c) && c.prevCrlf && 3 <= lineMax
    ensures var r := Receive(Stuffed(segs) + END_OF_DATA + tail, lineMax, c);
            match AfterSegments(segs, lineMax, c)
            case None => CapHit(r)
            case Some(c') => r == Reception(Finished, c'.(finished := true), tail)
  {
    if segs == [] {
      FirstLine(END_OF_DATA, tail, lineMax);
      assert Stuffed(segs) + END_OF_DATA + tail == END_OF_DATA + tail;
      assert EndsCrlf(END_OF_DATA) && Content(END_OF_DATA) == [DOT];
    } else {
      var s, after := Stuff(segs[0]), Stuffed(segs[1..]) + END_OF_DATA + tail;
      StuffIsSafe(segs[0]);
      assert Stuffed(segs) + END_OF_DATA + tail == s + CRLF + after;
      SegmentReceived(s, after, lineMax, c);
      var next := AfterSegment(s, lineMax, c);
      if next.Some? {
        PayloadReceived(segs[1..], tail, lineMax, next.value);
      }
    }
  }

  /** For every byte string: the reader stops exactly behind the payload, or a
      cap stopped it first. Bytes behind the payload are never part of it. */
  lemma OnePayload(m: Bytes, tail: Bytes, lineMax: nat, maxSize: nat)
    requires 3 <= lineMax
    ensures var r := Receive(DotStuff(m) + tail, lineMax, Fresh(maxSize));
            CapHit(r) || (r.ending == Finished && r.rest == tail && r.collector.finished)
  {
    SplitIsClean(m);
    PayloadReceived(Split(m), tail, lineMax, Fresh(maxSize));
  }

  // ------------------------------------------------------- exactly what arrives

  /** The lines a stuffed segment makes on the wire: cut behind each bare LF. */
  function WireLines(t: Bytes): seq<Bytes>
    decreases |t|
  {
    var p := FindLf(t);
    if p == |t| then [t + CRLF] else [t[..p + 1]] + WireLines(t[p + 1..])
  }

  function PayloadLines(segs: seq<Bytes>): seq<Bytes> {
    if segs == [] then [] else WireLines(Stuff(segs[0])) + PayloadLines(segs[1..])
  }

  /** What the collector makes of lines: unstuffed, and ended by CRLF. */
  function Arrival(lines: seq<Bytes>): Bytes {
    if lines == [] then [] else Unstuff(Content(lines[0])) + CRLF + Arrival(lines[1..])
  }

  ghost predicate AllShort(lines: seq<Bytes>, lineMax: nat) {
    forall k :: 0 <= k < |lines| ==> |lines[k]| <= lineMax
  }

  ghost predicate Fit(lines: seq<Bytes>, lineMax: nat, c: Collector) {
    AllShort(lines, lineMax) && |c.body| + |Arrival(lines)| <= c.maxSize
  }

  /** The collector with these lines taken in, if they fit. */
  ghost function Took(lines: seq<Bytes>, lineMax: nat, c: Collector): Option<Collector> {
    if Fit(lines, lineMax, c) then Some(c.(body := c.body + Arrival(lines), prevCrlf := true)) else None
  }

  lemma ArrivalFirst(line: Bytes, lines: seq<Bytes>, lineMax: nat)
    ensures Arrival([line] + lines) == Unstuff(Content(line)) + CRLF + Arrival(lines)
    ensures AllShort([line] + lines, lineMax) <==> |line| <= lineMax && AllShort(lines, lineMax)
  {
    var all := [line] + lines;
    assert all[1..] == lines;
    assert forall k :: 0 <= k < |lines| ==> all[k + 1] == lines[k];
  }

  lemma {:induction false} ArrivalConcat(a: seq<Bytes>, b: seq<Bytes>, lineMax: nat)
    ensures Arrival(a + b) == Arrival(a) + Arrival(b)
    ensures AllShort(a + b, lineMax) <==> AllShort(a, lineMax) && AllShort(b, lineMax)
    decreases |a|
  {
    hide AllShort;
    if a == [] {
      assert a + b == b && Arrival(a) == [];
      NoneShort(lineMax);
    } else {
      hide Arrival;
      assert a + b == [a[0]] + (a[1..] + b) && a == [a[0]] + a[1..];
      ArrivalConcat(a[1..], b, lineMax);
      ArrivalFirst(a[0], a[1..] + b, lineMax);
      ArrivalFirst(a[0], a[1..], lineMax);
      Associate(Unstuff(Content(a[0])) + CRLF, Arrival(a[1..]), Arrival(b));
    }
  }

  lemma NoneShort(lineMax: nat)
    ensures AllShort([], lineMax)
  {
  }

  lemma LineExactly(line: Bytes, lineMax: nat, c: Collector)
    requires Open(c) && !Terminates(c, line)
    ensures var u := Unstuff(Content(line)) + CRLF;
            AfterLine(line, lineMax, c)
            == if |line| <= lineMax && |c.body| + |u| <= c.maxSize
               then Some(c.(body := c.body + u, prevCrlf := EndsCrlf(line))) else None
  {
    Associate(c.body, Unstuff(Content(line)), CRLF);
  }

  lemma {:induction false} SegmentExactly(t: Bytes, lineMax: nat, c: Collector)
    requires NoCrlf(t) && Open(c) && SafeStart(c, t)
    ensures AfterSegment(t, lineMax, c) == Took(WireLines(t), lineMax, c)
    decreases |t|
  {
    hide Arrival, AllShort, Content, Unstuff, WireLines, EndsCrlf, Terminates, AfterLine, NoCrlf;
    var p := FindLf(t);
    if p == |t| {
      LastExactly(t, lineMax, c);
    } else {
      var line, t' := t[..p + 1], t[p + 1..];
      InnerLine(t, p);
      NotTerminator(c, line);
      LineExactly(line, lineMax, c);
      var u := Unstuff(Content(line)) + CRLF;
      var c1 := c.(body := c.body + u, prevCrlf := false);
      SegmentExactly(t', lineMax, c1);
      ArrivalFirst(line, WireLines(t'), lineMax);
      Associate(c.body, u, Arrival(WireLines(t')));
      WireFirst(t, p);
    }
  }

  lemma NotTerminator(c: Collector, line: Bytes)
    requires !EndsCrlf(line)
    ensures !Terminates(c, line)
  {
  }

  lemma LastExactly(t: Bytes, lineMax: nat, c: Collector)
    requires FindLf(t) == |t| && Open(c) && SafeStart(c, t)
    ensures AfterSegment(t, lineMax, c) == Took(WireLines(t), lineMax, c)
  {
    LastLine(t, c);
    LineExactly(t + CRLF, lineMax, c);
    ArrivalFirst(t + CRLF, [], lineMax);
    assert WireLines(t) == [t + CRLF] + [];
    hide AllShort, Content, Unstuff, Terminates, AfterLine;
    NoneShort(lineMax);
    var u := Unstuff(Content(t + CRLF)) + CRLF;
    assert u + Arrival([]) == u;
  }

  lemma WireFirst(t: Bytes, p: nat)
    requires p == FindLf(t) < |t|
    ensures WireLines(t) == [t[..p + 1]] + WireLines(t[p + 1..])
  {
  }

  lemma {:induction false} SegmentsExactly(segs: seq<Bytes>, lineMax: nat, c: Collector)
    requires AllNoCrlf(segs) && Open(c) && c.prevCrlf && |c.body| <= c.maxSize
    ensures AfterSegments(segs, lineMax, c) == Took(PayloadLines(segs), lineMax, c)
    decreases |segs|
  {
    if segs == [] {
      NoneShort(lineMax);
      assert c.body + [] == c.body;
    } else {
      var s := Stuff(segs[0]);
      StuffIsSafe(segs[0]);
      SegmentExactly(s, lineMax, c);
      ArrivalConcat(WireLines(s), PayloadLines(segs[1..]), lineMax);
      hide Arrival, AllShort, WireLines;
      var c1 := c.(body := c.body + Arrival(WireLines(s)));
      if |c1.body| <= c1.maxSize { SegmentsExactly(segs[1..], lineMax, c1); }
      Associate(c.body, Arrival(WireLines(s)), Arrival(PayloadLines(segs[1..])));
    }
  }

  /** For every byte string, exactly what happens to its payload: it is received if
      and only if its wire lines fit the line cap and what they amount to fits the
      size cap; then that is the body, and nothing behind the payload was read. */
  lemma ArrivesExactly(m: Bytes, tail: Bytes, lineMax: nat, maxSize: nat)
    requires 3 <= lineMax
    ensures var r := Receive(DotStuff(m) + tail, lineMax, Fresh(maxSize));
            var lines := PayloadLines(Split(m));
            if AllShort(lines, lineMax) && |Arrival(lines)| <= maxSize
            then r == Reception(Finished, Collector(Arrival(lines), true, true, maxSize, false), tail)
            else CapHit(r)
  {
    SplitIsClean(m);
    SegmentsExactly(Split(m), lineMax, Fresh(maxSize));
    PayloadReceived(Split(m), tail, lineMax, Fresh(maxSize));
    var lines := PayloadLines(Split(m));
    assert [] + Arrival(lines) == Arrival(lines);
  }

  // --------------------------------------------------------------- round trip

  ghost predicate NoLf(s: Bytes) {
    NoLfBefore(s, |s|)
  }

  ghost predicate AllNoLf(lines: seq<Bytes>) {
    forall k :: 0 <= k < |lines| ==> NoLf(lines[k])
  }

  lemma {:induction false} SegmentsHaveNoLf(m: Bytes)
    requires NoBareLf(m)
    ensures AllNoLf(Split(m))
    decreases |m|
  {
    var p := FindCrlf(m);
    assert forall i :: 0 < i < p && m[i] == LF ==> CrlfAt(m, i - 1);
    assert NoLf(m[..p]);
    if p < |m| {
      var rest := m[p + 2..];
      assert forall i :: 0 <= i < |rest| ==> rest[i] == m[p + 2 + i];
      SegmentsHaveNoLf(rest);
    } else {
      assert m[..p] == m;
    }
  }

  /** Every stuffed line, with its CRLF, fits the reader's cap. */
  ghost predicate LinesFit(segs: seq<Bytes>, lineMax: nat) {
    forall k :: 0 <= k < |segs| ==> |Framed(segs[k])| <= lineMax
  }

  lemma PlainLine(seg: Bytes)
    requires NoLf(seg)
    ensures WireLines(Stuff(seg)) == [Framed(seg)] && Unstuff(Content(Framed(seg))) == seg
  {
    assert FindLf(Stuff(seg)) == |Stuff(seg)|;
    assert Content(Framed(seg)) == Stuff(seg);
  }

  /** Without bare LF the wire lines are the framed segments, and arrive as sent. */
  lemma {:induction false} PlainPayload(segs: seq<Bytes>, lineMax: nat)
    requires AllNoLf(segs)
    ensures Arrival(PayloadLines(segs)) == JoinLines(segs)
    ensures AllShort(PayloadLines(segs), lineMax) <==> LinesFit(segs, lineMax)
    decreases |segs|
  {
    if segs != [] {
      PlainLine(segs[0]);
      PlainPayload(segs[1..], lineMax);
      ArrivalFirst(Framed(segs[0]), PayloadLines(segs[1..]), lineMax);
      hide Arrival, AllShort, Framed, Content, Unstuff, WireLines;
      assert forall k :: 0 <= k < |segs[1..]| ==> segs[1..][k] == segs[k + 1];
    }
  }

  /** The exact round trip: the message and one CRLF arrive, and nothing else is read. */
  lemma RoundTrip(m: Bytes, tail: Bytes, lineMax: nat, maxSize: nat)
    requires NoBareLf(m) && LinesFit(Split(m), lineMax) && 3 <= lineMax && |m| + 2 <= maxSize
    ensures Receive(DotStuff(m) + tail, lineMax, Fresh(maxSize))
         == Reception(Finished, Collector(m + CRLF, true, true, maxSize, false), tail)
  {
    SegmentsHaveNoLf(m);
    JoinSplit(m);
    PlainPayload(Split(m), lineMax);
    ArrivesExactly(m, tail, lineMax, maxSize);
  }

  /** The round trip as the connection sees it, for every chunking of the bytes. */
  method ReceiveMessage(chunks: seq<Bytes>, lineMax: nat, maxSize: nat, ghost m: Bytes, ghost tail: Bytes)
    returns (ending: Ending, body: Bytes, unread: seq<Bytes>)
    requires forall i :: 0 <= i < |chunks| ==> chunks[i] != []
    requires Flatten(chunks) == DotStuff(m) + tail
    requires NoBareLf(m) && LinesFit(Split(m), lineMax) && 3 <= lineMax && |m| + 2 <= maxSize
    ensures ending == Finished && body == m + CRLF && Flatten(unread) == tail
  {
    var reader := new Reader(chunks);
    var collector := new InboundCollector(maxSize);
    RoundTrip(m, tail, lineMax, maxSize);
    ending := ReceiveData(reader, collector, lineMax);
    body := collector.body;
    unread := reader.chunks;
  }

  // ------------------------------------------------------ what is ever collected

  ghost predicate SoundBody(c: Collector) {
    |c.body| <= c.maxSize && NoBareLf(c.body)
  }

  lemma PushKeepsSoundBody(c: Collector, line: Bytes)
    requires SoundBody(c) && NoLfBefore(line, if line == [] then 0 else |line| - 1)
    ensures SoundBody(Push(c, line))
  {
    var u := Unstuff(Content(line));
    assert NoLf(u);
    var b := c.body + u + CRLF;
    forall i | 0 <= i < |b| && b[i] == LF ensures i > 0 && b[i - 1] == CR {
      if i < |c.body| {
        assert c.body[i] == LF;
      } else {
        assert i == |b| - 1;
      }
    }
  }

  /** Whatever arrives, the collected body respects the cap and has no bare LF. */
  lemma {:induction false} ReceiveKeepsSoundBody(stream: Bytes, lineMax: nat, c: Collector)
    requires SoundBody(c)
    ensures SoundBody(Receive(stream, lineMax, c).collector)
    decreases |stream|
  {
    var l := NextLine(stream, lineMax);
    if l.kind == Read {
      PushKeepsSoundBody(c, l.bytes);
      ReceiveKeepsSoundBody(l.rest, lineMax, Push(c, l.bytes));
    }
  }

  /** The reception ended well, with this body. */
  ghost predicate Yields(r: Reception, body: Bytes) {
    r.ending == Finished && r.collector.body == body
  }

  /** No bare LF, and room for every stuffed line and for the whole. */
  ghost predicate Sendable(m: Bytes, lineMax: nat, maxSize: nat) {
    NoBareLf(m) && LinesFit(Split(m), lineMax) && |m| + 2 <= maxSize
  }

  /** For all messages and caps: the message and one CRLF arrive if and only if it
      has no bare LF, its stuffed lines fit the line cap, and it fits the size cap. */
  lemma RoundTripExactly(m: Bytes, tail: Bytes, lineMax: nat, maxSize: nat)
    requires 3 <= lineMax
    ensures Yields(Receive(DotStuff(m) + tail, lineMax, Fresh(maxSize)), m + CRLF) <==> Sendable(m, lineMax, maxSize)
  {
    ReceiveKeepsSoundBody(DotStuff(m) + tail, lineMax, Fresh(maxSize));
    hide NoBareLf, LinesFit, Receive, DotStuff, JoinLines, Arrival, AllShort, PayloadLines;
    var r := Receive(DotStuff(m) + tail, lineMax, Fresh(maxSize));
    if NoBareLf(m) && LinesFit(Split(m), lineMax) && |m| + 2 <= maxSize {
      RoundTrip(m, tail, lineMax, maxSize);
    }
    if r.ending == Finished && r.collector.body == m + CRLF {
      PrefixHasNoBareLf(m);
      SegmentsHaveNoLf(m);
      ArrivesExactly(m, tail, lineMax, maxSize);
      PlainPayload(Split(m), lineMax);
    }
  }

  lemma PrefixHasNoBareLf(m: Bytes)
    requires NoBareLf(m + CRLF)
    ensures NoBareLf(m)
  {
    assert forall i :: 0 <= i < |m| ==> m[i] == (m + CRLF)[i];
  }

  /** What arrives of a message is the message and a CRLF only without bare LF. */
  lemma ArrivalIsMessage(m: Bytes)
    ensures Arrival(PayloadLines(Split(m))) == m + CRLF <==> NoBareLf(m)
  {
    hide NoBareLf, Receive, DotStuff, Arrival, PayloadLines, AllShort;
    var lines := PayloadLines(Split(m));
    var lineMax, maxSize := LongEnough(lines) + 3, |Arrival(lines)|;
    ArrivesExactly(m, [], lineMax, maxSize);
    AllShortLater(lines, LongEnough(lines), lineMax);
    if Arrival(lines) == m + CRLF {
      NothingCollected(maxSize);
      ReceiveKeepsSoundBody(DotStuff(m) + [], lineMax, Fresh(maxSize));
      PrefixHasNoBareLf(m);
    }
    if NoBareLf(m) {
      SegmentsHaveNoLf(m);
      PlainPayload(Split(m), lineMax);
      JoinSplit(m);
    }
  }

  lemma NothingCollected(maxSize: nat)
    ensures SoundBody(Fresh(maxSize))
  {
  }

  ghost function LongEnough(lines: seq<Bytes>): (max: nat)
    ensures AllShort(lines, max)
  {
    if lines == [] then 0
    else
      var rest := LongEnough(lines[1..]);
      assert forall k :: 1 <= k < |lines| ==> lines[k] == lines[1..][k - 1];
      if |lines[0]| < rest then rest else |lines[0]|
  }

  lemma AllShortLater(lines: seq<Bytes>, max: nat, more: nat)
    requires AllShort(lines, max) && max <= more
    ensures AllShort(lines, more)
  {
  }
}
