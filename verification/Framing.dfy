/**
 SMTP DATA framing: the sender's dot-stuffing, the length-capped line reader
 over an arbitrarily chunked stream, and the receiving collector.
 */
module Framing {
  import opened Octets

  // ------------------------------------------------------------------ sending

  function Stuff(line: Bytes): Bytes {
    if line != [] && line[0] == DOT then [DOT] + line else line
  }

  /** A line as sent: stuffed and terminated. */
  function Framed(line: Bytes): Bytes {
    Stuff(line) + CRLF
  }

  function Stuffed(lines: seq<Bytes>): Bytes {
    if lines == [] then [] else Framed(lines[0]) + Stuffed(lines[1..])
  }

  const END_OF_DATA: Bytes := [DOT] + CRLF

  function DotStuff(body: Bytes): Bytes {
    Stuffed(Split(body)) + END_OF_DATA
  }

  lemma SegmentFound(body: Bytes, start: nat, i: nat)
    requires start <= i && CrlfAt(body, i)
    requires forall k :: start <= k < i ==> !CrlfAt(body, k)
    ensures Split(body[start..]) == [body[start..i]] + Split(body[i + 2..])
  {
    var rest := body[start..];
    var p := i - start;
    assert CrlfAt(rest, p);
    forall k | 0 <= k < p ensures !CrlfAt(rest, k) {
      assert !CrlfAt(body, start + k);
    }
    SplitAt(rest, p);
    assert rest[..p] == body[start..i];
    assert rest[p + 2..] == body[i + 2..];
  }

  lemma LastSegment(body: Bytes, start: nat)
    requires start <= |body|
    requires forall k :: start <= k < |body| - 1 ==> !CrlfAt(body, k)
    ensures Split(body[start..]) == [body[start..]]
  {
    var rest := body[start..];
    forall k | 0 <= k < |rest| - 1 ensures !CrlfAt(rest, k) {
      assert !CrlfAt(body, start + k);
    }
    SplitWhole(rest);
  }

  lemma SegmentMoved(body: Bytes, segments: seq<Bytes>, start: nat, i: nat)
    requires start <= i && CrlfAt(body, i)
    requires forall k :: start <= k < i ==> !CrlfAt(body, k)
    requires Split(body) == segments + Split(body[start..])
    ensures Split(body) == segments + [body[start..i]] + Split(body[i + 2..])
  {
    SegmentFound(body, start, i);
    Associate(segments, [body[start..i]], Split(body[i + 2..]));
  }

  /** `split_on_crlf`: one pass with two indices. */
  method SplitOnCrlf(body: Bytes) returns (segments: seq<Bytes>)
    ensures segments == Split(body)
  {
    hide Split;
    segments := [];
    var start, i := 0, 0;
    assert body[0..] == body;
    while i + 1 < |body|
      invariant 0 <= start <= i <= |body|
      invariant forall k :: start <= k < i ==> !CrlfAt(body, k)
      invariant Split(body) == segments + Split(body[start..])
    {
      if body[i] == CR && body[i + 1] == LF {
        SegmentMoved(body, segments, start, i);
        segments := segments + [body[start..i]];
        i := i + 2;
        start := i;
      } else {
        i := i + 1;
      }
    }
    LastSegment(body, start);
    segments := segments + [body[start..]];
  }

  lemma {:induction false} StuffedAppend(lines: seq<Bytes>, line: Bytes)
    ensures Stuffed(lines + [line]) == Stuffed(lines) + Framed(line)
  {
    if lines == [] {
      assert lines + [line] == [line];
    } else {
      StuffedAppend(lines[1..], line);
      assert (lines + [line])[1..] == lines[1..] + [line];
      Associate(Framed(lines[0]), Stuffed(lines[1..]), Framed(line));
    }
  }

  lemma StuffedPrefix(lines: seq<Bytes>, i: nat)
    requires i < |lines|
    ensures Stuffed(lines[..i + 1]) == Stuffed(lines[..i]) + Framed(lines[i])
  {
    StuffedAppend(lines[..i], lines[i]);
    assert lines[..i] + [lines[i]] == lines[..i + 1];
  }

  method AppendFramed(out: Bytes, line: Bytes) returns (out': Bytes)
    ensures out' == out + Framed(line)
  {
    out' := out;
    if line != [] && line[0] == DOT {
      out' := out' + [DOT];
    }
    out' := out' + line;
    out' := out' + CRLF;
  }

  /** `dot_stuff`. */
  method DotStuffBytes(body: Bytes) returns (out: Bytes)
    ensures out == DotStuff(body)
  {
    var segments := SplitOnCrlf(body);
    out := [];
    var i := 0;
    while i < |segments|
      invariant 0 <= i <= |segments|
      invariant out == Stuffed(segments[..i])
    {
      StuffedPrefix(segments, i);
      out := AppendFramed(out, segments[i]);
      i := i + 1;
    }
    assert segments[..i] == segments;
    out := out + END_OF_DATA;
  }

  // ------------------------------------------------------------------ reading

  datatype LineRead = Read | Eof | TooLong

  datatype Line = Line(kind: LineRead, bytes: Bytes, rest: Bytes)

  function FindLf(s: Bytes): (p: nat)
    ensures p <= |s|
    ensures forall i :: 0 <= i < p ==> s[i] != LF
    ensures p < |s| ==> s[p] == LF
  {
    if s == [] || s[0] == LF then 0 else 1 + FindLf(s[1..])
  }

  /** The next line of a stream, a function of the bytes alone. */
  function NextLine(stream: Bytes, max: nat): (r: Line)
    ensures stream == r.bytes + r.rest
    ensures r.kind == Read ==> r.bytes != []
  {
    var p := FindLf(stream);
    if stream == [] then Line(Eof, [], [])
    else if p < |stream| && p + 1 <= max then Line(Read, stream[..p + 1], stream[p + 1..])
    else if p == |stream| && |stream| <= max then Line(Read, stream, [])
    else Line(TooLong, stream[..max], stream[max..])
  }

  function Flatten(chunks: seq<Bytes>): Bytes {
    if chunks == [] then [] else chunks[0] + Flatten(chunks[1..])
  }

  /** A buffered reader: bytes arrive in non-empty chunks; none left is end of file. */
  class Reader {
    var chunks: seq<Bytes>

    constructor (chunks: seq<Bytes>)
      requires forall i :: 0 <= i < |chunks| ==> chunks[i] != []
      ensures Valid() && this.chunks == chunks
    {
      this.chunks := chunks;
    }

    ghost predicate Valid()
      reads this
    {
      forall i :: 0 <= i < |chunks| ==> chunks[i] != []
    }

    ghost function Remaining(): Bytes
      reads this
    {
      Flatten(chunks)
    }

    method FillBuf() returns (chunk: Bytes)
      requires Valid()
      ensures chunk <= Remaining()
      ensures chunk == [] <==> chunks == []
      ensures chunks != [] ==> chunk == chunks[0]
    {
      chunk := if chunks == [] then [] else chunks[0];
    }

    method Consume(n: nat)
      requires Valid() && chunks != [] && n <= |chunks[0]|
      modifies this
      ensures Valid() && Remaining() == old(Remaining())[n..]
      ensures n == |old(chunks[0])| ==> |chunks| < |old(chunks)|
    {
      var left := chunks[0][n..];
      chunks := if left == [] then chunks[1..] else [left] + chunks[1..];
      assert left != [] ==> chunks[1..] == old(chunks)[1..];
    }
  }

  predicate NoLfBefore(s: Bytes, n: nat)
    requires n <= |s|
  {
    forall i :: 0 <= i < n ==> s[i] != LF
  }

  lemma LineEndsAt(stream: Bytes, p: nat, max: nat)
    requires p < |stream| && p < max && stream[p] == LF && NoLfBefore(stream, p)
    ensures NextLine(stream, max) == Line(Read, stream[..p + 1], stream[p + 1..])
  {
  }

  lemma LineCutShort(stream: Bytes, max: nat)
    requires max < |stream| && NoLfBefore(stream, max)
    ensures NextLine(stream, max) == Line(TooLong, stream[..max], stream[max..])
  {
  }

  lemma LineAtEof(stream: Bytes, max: nat)
    requires 0 < |stream| <= max && NoLfBefore(stream, |stream|)
    ensures NextLine(stream, max) == Line(Read, stream, [])
  {
  }

  lemma TakeFrom(stream: Bytes, had: nat, chunk: Bytes, n: nat)
    requires had <= |stream| && chunk <= stream[had..] && n <= |chunk|
    ensures had + n <= |stream|
    ensures stream[..had] + chunk[..n] == stream[..had + n]
    ensures stream[had..][n..] == stream[had + n..]
    ensures forall i :: had <= i < had + n ==> stream[i] == chunk[i - had]
  {
    assert forall i :: 0 <= i < |chunk| ==> chunk[i] == stream[had..][i];
  }

  /** `read_line_capped`: whatever the chunking, the line, the verdict and the
      unread rest are those of the flat stream. */
  method ReadLineCapped(reader: Reader, max: nat) returns (kind: LineRead, buf: Bytes)
    requires reader.Valid()
    modifies reader
    ensures reader.Valid()
    ensures Line(kind, buf, reader.Remaining()) == NextLine(old(reader.Remaining()), max)
  {
    ghost var stream := reader.Remaining();
    buf := [];
    while true
      invariant reader.Valid()
      invariant |buf| <= max && |buf| <= |stream|
      invariant buf == stream[..|buf|] && reader.Remaining() == stream[|buf|..]
      invariant NoLfBefore(stream, |buf|)
      decreases |reader.chunks|
    {
      var chunk := reader.FillBuf();
      if chunk == [] {
        if buf == [] { return Eof, buf; }
        LineAtEof(stream, max);
        return Read, buf;
      }
      ghost var had := |buf|;
      var p := FindLf(chunk);
      var newline := p < |chunk|;
      var take := if newline then p + 1 else |chunk|;
      TakeFrom(stream, had, chunk, take);
      if |buf| + take > max {
        LineCutShort(stream, max);
        var room := max - |buf|;
        TakeFrom(stream, had, chunk, room);
        buf := buf + chunk[..room];
        reader.Consume(room);
        return TooLong, buf;
      }
      buf := buf + chunk[..take];
      reader.Consume(take);
      if newline {
        LineEndsAt(stream, had + p, max);
        return Read, buf;
      }
    }
  }

  // --------------------------------------------------------------- collecting

  datatype Collector =
    Collector(body: Bytes, finished: bool, prevCrlf: bool, maxSize: nat, sizeExceeded: bool)

  function Fresh(maxSize: nat): Collector {
    Collector([], false, true, maxSize, false)
  }

  predicate EndsCrlf(line: Bytes) {
    |line| >= 2 && line[|line| - 2..] == CRLF
  }

  /** The line without its terminator: CRLF, else LF, else CR. */
  function Content(line: Bytes): Bytes {
    if EndsCrlf(line) then line[..|line| - 2]
    else if line != [] && (line[|line| - 1] == LF || line[|line| - 1] == CR) then line[..|line| - 1]
    else line
  }

  lemma EndsCrlfIs(line: Bytes)
    ensures EndsCrlf(line) <==> |line| >= 2 && line[|line| - 2] == 13 && line[|line| - 1] == 10
  {
    assert |line| >= 2 ==> line[|line| - 2..] == [line[|line| - 2], line[|line| - 1]];
  }

  lemma CrlfLine(t: Bytes)
    ensures Content(t + [13, 10]) == t && EndsCrlf(t + [13, 10])
  {
    EndsCrlfIs(t + [13, 10]);
    hide EndsCrlf;
    assert (t + [13, 10])[..|t|] == t;
  }

  lemma ShortLine(t: Bytes, end: octet)
    requires end == 13 || (end == 10 && (t == [] || t[|t| - 1] != 13))
    ensures Content(t + [end]) == t && !EndsCrlf(t + [end])
  {
    EndsCrlfIs(t + [end]);
    hide EndsCrlf;
    assert (t + [end])[..|t|] == t;
  }

  /** The four ways a line can end. */
  lemma ContentExactly(t: Bytes)
    ensures Content(t + [13, 10]) == t && EndsCrlf(t + [13, 10])
    ensures t == [] || t[|t| - 1] != 13 ==> Content(t + [10]) == t && !EndsCrlf(t + [10])
    ensures Content(t + [13]) == t && !EndsCrlf(t + [13])
    ensures t == [] || t[|t| - 1] !in {10, 13} ==> Content(t) == t && !EndsCrlf(t)
  {
    EndsCrlfIs(t);
    hide EndsCrlf;
    CrlfLine(t);
    ShortLine(t, 13);
    assert t == [] || t[|t| - 1] !in {10, 13} ==> Content(t) == t;
    hide Content;
    if t == [] || t[|t| - 1] != 13 { ShortLine(t, 10); }
  }

  function Unstuff(content: Bytes): Bytes {
    if content != [] && content[0] == DOT then content[1..] else content
  }

  predicate Terminates(c: Collector, line: Bytes) {
    c.prevCrlf && EndsCrlf(line) && Content(line) == [DOT]
  }

  /** `push_line` on collector values. */
  function Push(c: Collector, line: Bytes): Collector {
    var unstuffed := Unstuff(Content(line));
    if Terminates(c, line) then c.(finished := true)
    else if c.sizeExceeded || |c.body| + |unstuffed| + 2 > c.maxSize then c.(sizeExceeded := true)
    else c.(body := c.body + unstuffed + CRLF, prevCrlf := EndsCrlf(line))
  }

  class InboundCollector {
    var body: Bytes
    var finished: bool
    var prevCrlf: bool
    const maxSize: nat
    var sizeExceeded: bool

    constructor (maxSize: nat)
      ensures Value() == Fresh(maxSize)
    {
      this.maxSize := maxSize;
      body, finished, prevCrlf, sizeExceeded := [], false, true, false;
    }

    ghost function Value(): Collector
      reads this
    {
      Collector(body, finished, prevCrlf, maxSize, sizeExceeded)
    }

    method PushLine(line: Bytes) returns (done: bool)
      modifies this
      ensures Value() == Push(old(Value()), line)
      ensures done == old(Terminates(Value(), line))
    {
      var thisCrlf := EndsCrlf(line);
      var content := Content(line);
      if prevCrlf && thisCrlf && content == [DOT] {
        finished := true;
        return true;
      }
      var unstuffed := Unstuff(content);
      if sizeExceeded || |body| + |unstuffed| + 2 > maxSize {
        sizeExceeded := true;
        return false;
      }
      body := body + unstuffed;
      body := body + CRLF;
      prevCrlf := thisCrlf;
      done := false;
    }
  }

  /** How one DATA phase ends, with the collector and the unread bytes. */
  datatype Ending = Finished | Closed | LineTooLong | TooBig
  datatype Reception = Reception(ending: Ending, collector: Collector, rest: Bytes)

  /** The receiving loop: read a line, push it, stop at the terminator or a cap. */
  function Receive(stream: Bytes, lineMax: nat, c: Collector): Reception
    decreases |stream|
  {
    var l := NextLine(stream, lineMax);
    match l.kind
    case Eof => Reception(Closed, c, l.rest)
    case TooLong => Reception(LineTooLong, c, l.rest)
    case Read =>
      var c1 := Push(c, l.bytes);
      if c1.sizeExceeded then Reception(TooBig, c1, l.rest)
      else if Terminates(c, l.bytes) then Reception(Finished, c1, l.rest)
      else Receive(l.rest, lineMax, c1)
  }

  /** The loop as it runs over a chunked connection. */
  method ReceiveData(reader: Reader, collector: InboundCollector, lineMax: nat) returns (ending: Ending)
    requires reader.Valid()
    modifies reader, collector
    ensures reader.Valid()
    ensures Reception(ending, collector.Value(), reader.Remaining())
         == Receive(old(reader.Remaining()), lineMax, old(collector.Value()))
  {
    ghost var all := Receive(reader.Remaining(), lineMax, collector.Value());
    while true
      invariant reader.Valid()
      invariant all == Receive(reader.Remaining(), lineMax, collector.Value())
      decreases |reader.Remaining()|
    {
      ghost var before := reader.Remaining();
      var kind, buf := ReadLineCapped(reader, lineMax);
      if kind == Eof { return Closed; }
      if kind == TooLong { return LineTooLong; }
      var done := collector.PushLine(buf);
      if collector.sizeExceeded { return TooBig; }
      if done { return Finished; }
      assert before == buf + reader.Remaining();
    }
  }
}
