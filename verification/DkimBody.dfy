/**
 DKIM body canonicalisation (sections 3.4.3 and 3.4.4 of RFC 6376): the byte
 loops, proved against a specification that works line by line.
 */
module DkimBody {
  import opened Octets

  datatype BodyCanon = Simple | Relaxed

  predicate Wsp(b: octet) {
    b == SP || b == TAB
  }

  // ------------------------------------------------------- line specification

  function SkipWsp(s: Bytes): (r: Bytes)
    ensures |r| <= |s|
    ensures r != [] ==> !Wsp(r[0])
  {
    if s != [] && Wsp(s[0]) then SkipWsp(s[1..]) else s
  }

  /** WSP runs become one space; a run at the end of the line disappears. */
  function RelaxLine(line: Bytes): Bytes
    decreases |line|
  {
    if line == [] then []
    else if Wsp(line[0]) then SpaceBefore(RelaxLine(SkipWsp(line[1..])))
    else [line[0]] + RelaxLine(line[1..])
  }

  function SpaceBefore(r: Bytes): Bytes {
    if r == [] then [] else [SP] + r
  }

  function RelaxAll(lines: seq<Bytes>): (r: seq<Bytes>)
    ensures |r| == |lines|
    ensures forall k :: 0 <= k < |lines| ==> r[k] == RelaxLine(lines[k])
  {
    seq(|lines|, k requires 0 <= k < |lines| => RelaxLine(lines[k]))
  }

  function DropTrailingEmpty(lines: seq<Bytes>): (r: seq<Bytes>)
    ensures r <= lines
    ensures r != [] ==> r[|r| - 1] != []
  {
    if lines != [] && lines[|lines| - 1] == [] then DropTrailingEmpty(lines[..|lines| - 1]) else lines
  }

  /** Trailing empty lines reduced; an empty body is one CRLF. */
  function SimpleSpec(body: Bytes): Bytes {
    var lines := DropTrailingEmpty(Split(body));
    if lines == [] then CRLF else JoinLines(lines)
  }

  /** Every line relaxed, then trailing empty lines removed; may be empty. */
  function RelaxedSpec(body: Bytes): Bytes {
    JoinLines(DropTrailingEmpty(RelaxAll(Split(body))))
  }

  function Canonical(body: Bytes, canon: BodyCanon): Bytes {
    match canon
    case Simple => SimpleSpec(body)
    case Relaxed => RelaxedSpec(body)
  }

  // --------------------------------------------------- what relaxing a line does

  /** The octets other than space (32) and tab (9), in order, each with whether white
      space stands before it. */
  function Marks(s: Bytes, gap: bool): seq<(bool, octet)> {
    if s == [] then []
    else if s[0] == 32 || s[0] == 9 then Marks(s[1..], true)
    else [(gap, s[0])] + Marks(s[1..], false)
  }

  /** In relaxed form: only single spaces, each followed by text. */
  predicate IsRelaxed(s: Bytes) {
    forall i :: 0 <= i < |s| && Wsp(s[i]) ==> s[i] == SP && i + 1 < |s| && !Wsp(s[i + 1])
  }

  lemma {:induction false} SkipWspMarks(s: Bytes)
    ensures Marks(SkipWsp(s), true) == Marks(s, true)
  {
    if s != [] && Wsp(s[0]) { SkipWspMarks(s[1..]); }
  }

  /** Relaxed form, and the same text with the same gaps: that is one result only. */
  lemma {:induction false} RelaxLineShape(line: Bytes)
    ensures IsRelaxed(RelaxLine(line)) && forall gap :: Marks(RelaxLine(line), gap) == Marks(line, gap)
    ensures line != [] && !Wsp(line[0]) ==> RelaxLine(line) != [] && RelaxLine(line)[0] == line[0]
    decreases |line|
  {
    if line != [] {
      if Wsp(line[0]) {
        var rest := SkipWsp(line[1..]);
        RelaxLineShape(rest);
        SkipWspMarks(line[1..]);
        ShiftRelaxed(SP, RelaxLine(rest));
        assert RelaxLine(rest) == [] ==> Marks(rest, true) == [];
      } else {
        RelaxLineShape(line[1..]);
        ShiftRelaxed(line[0], RelaxLine(line[1..]));
      }
    }
  }

  lemma ShiftRelaxed(b: octet, r: Bytes)
    requires IsRelaxed(r)
    requires Wsp(b) ==> b == SP && (r == [] || !Wsp(r[0]))
    ensures r != [] || !Wsp(b) ==> IsRelaxed([b] + r)
    ensures forall gap :: Marks([b] + r, gap) == (if Wsp(b) then Marks(r, true) else [(gap, b)] + Marks(r, false))
  {
    var s := [b] + r;
    assert s[1..] == r;
    if r != [] || !Wsp(b) {
      forall i | 0 <= i < |s| && Wsp(s[i]) ensures s[i] == SP && i + 1 < |s| && !Wsp(s[i + 1]) {
        if i > 0 { assert Wsp(r[i - 1]); }
      }
    }
  }

  /** Relaxed form and marks determine an octet string. */
  lemma {:induction false} RelaxedByMarks(a: Bytes, b: Bytes, gap: bool)
    requires IsRelaxed(a) && IsRelaxed(b) && Marks(a, gap) == Marks(b, gap)
    requires gap ==> (a == [] || !Wsp(a[0])) && (b == [] || !Wsp(b[0]))
    ensures a == b
    decreases |a| + |b|
  {
    if a != [] { FirstMark(a, gap); }
    if b != [] { FirstMark(b, gap); }
    if a != [] && b != [] {
      TailIsRelaxed(a);
      TailIsRelaxed(b);
      if !Wsp(a[0]) {
        assert Marks(a, gap)[0] == (gap, a[0]) && Marks(b, gap)[0] == (gap, b[0]);
        assert Marks(a, gap)[1..] == Marks(a[1..], false) && Marks(b, gap)[1..] == Marks(b[1..], false);
      }
      RelaxedByMarks(a[1..], b[1..], Wsp(a[0]));
      assert a == [a[0]] + a[1..] && b == [b[0]] + b[1..];
    }
  }

  lemma FirstMark(s: Bytes, gap: bool)
    requires IsRelaxed(s) && s != [] && (gap ==> !Wsp(s[0]))
    ensures Marks(s, gap) != [] && Marks(s, gap)[0].0 == (gap || Wsp(s[0]))
  {
    TailIsRelaxed(s);
  }

  lemma TailIsRelaxed(s: Bytes)
    requires IsRelaxed(s) && s != []
    ensures IsRelaxed(s[1..]) && (Wsp(s[0]) ==> |s| > 1 && !Wsp(s[1]))
  {
    var t := s[1..];
    forall i | 0 <= i < |t| && Wsp(t[i]) ensures t[i] == SP && i + 1 < |t| && !Wsp(t[i + 1]) {
      assert Wsp(s[i + 1]);
    }
  }

  lemma {:induction false} RelaxedIsFixed(s: Bytes)
    requires IsRelaxed(s)
    ensures RelaxLine(s) == s
    decreases |s|
  {
    if s != [] {
      var t := s[1..];
      TailIsRelaxed(s);
      RelaxedIsFixed(t);
      if Wsp(s[0]) {
        assert SkipWsp(t) == t;
      }
    }
  }

  lemma {:induction false} RelaxLineNoCrlf(line: Bytes)
    requires NoCrlf(line)
    ensures NoCrlf(RelaxLine(line))
    ensures RelaxLine(line) != [] && RelaxLine(line)[0] == LF ==> line[0] == LF
    decreases |line|
  {
    if line != [] {
      if Wsp(line[0]) {
        var rest := SkipWsp(line[1..]);
        SkipWspNoCrlf(line[1..], line);
        RelaxLineNoCrlf(rest);
        ConsNoCrlf(SP, RelaxLine(rest));
      } else {
        TailNoCrlf(line);
        RelaxLineNoCrlf(line[1..]);
        assert !CrlfAt(line, 0);
        ConsNoCrlf(line[0], RelaxLine(line[1..]));
      }
    }
  }

  lemma TailNoCrlf(s: Bytes)
    requires NoCrlf(s) && s != []
    ensures NoCrlf(s[1..])
  {
    forall i | 0 <= i < |s[1..]| - 1 ensures !CrlfAt(s[1..], i) {
      assert !CrlfAt(s, i + 1);
    }
  }

  lemma ConsNoCrlf(b: octet, r: Bytes)
    requires NoCrlf(r)
    requires b == CR && r != [] ==> r[0] != LF
    ensures NoCrlf([b] + r)
  {
    var s := [b] + r;
    forall i | 0 <= i < |s| - 1 ensures !CrlfAt(s, i) {
      if i > 0 { assert !CrlfAt(r, i - 1); }
    }
  }

  lemma {:induction false} SkipWspNoCrlf(s: Bytes, whole: Bytes)
    requires NoCrlf(whole) && whole != [] && s == whole[1..]
    ensures NoCrlf(SkipWsp(s))
    decreases |s|
  {
    TailNoCrlf(whole);
    if s != [] && Wsp(s[0]) { SkipWspNoCrlf(s[1..], s); }
  }

  // ------------------------------------------------------------- relaxing loop

  /** What is still to be emitted once a WSP run is pending. */
  ghost function Pending(inWsp: bool, rest: Bytes): Bytes {
    if inWsp then SpaceBefore(RelaxLine(SkipWsp(rest))) else RelaxLine(rest)
  }

  lemma PendingStep(inWsp: bool, rest: Bytes)
    requires rest != []
    ensures Wsp(rest[0]) ==> Pending(inWsp, rest) == Pending(true, rest[1..])
    ensures !Wsp(rest[0]) ==>
              Pending(inWsp, rest) == (if inWsp then [SP] else []) + [rest[0]] + Pending(false, rest[1..])
  {
    if !Wsp(rest[0]) {
      assert SkipWsp(rest) == rest;
      assert RelaxLine(rest) == [rest[0]] + RelaxLine(rest[1..]);
    }
  }

  lemma Regroup(out: Bytes, x: Bytes, y: Bytes, rest: Bytes)
    ensures out + (x + y + rest) == out + x + y + rest
  {
    Associate(out, x + y, rest);
    Associate(out, x, y);
  }

  /** `relax_line`. */
  method RelaxLineBytes(line: Bytes) returns (out: Bytes)
    ensures out == RelaxLine(line)
  {
    out := [];
    var inWsp := false;
    var i := 0;
    assert line[0..] == line;
    while i < |line|
      invariant 0 <= i <= |line|
      invariant RelaxLine(line) == out + Pending(inWsp, line[i..])
    {
      var b := line[i];
      PendingStep(inWsp, line[i..]);
      assert line[i..][1..] == line[i + 1..];
      ghost var rest := Pending(false, line[i + 1..]);
      if Wsp(b) {
        inWsp := true;
      } else {
        if inWsp {
          Regroup(out, [SP], [b], rest);
          out := out + [SP];
          inWsp := false;
        } else {
          Regroup(out, [], [b], rest);
          assert out + [] == out;
        }
        out := out + [b];
      }
      i := i + 1;
    }
    assert line[i..] == [];
  }

  // ------------------------------------------------------------------- simple

  predicate EndsInCrlf(s: Bytes) {
    |s| >= 2 && s[|s| - 2] == CR && s[|s| - 1] == LF
  }

  lemma DropOneEmpty(lines: seq<Bytes>)
    ensures DropTrailingEmpty(lines + [[]]) == DropTrailingEmpty(lines)
  {
    assert (lines + [[]])[..|lines|] == lines;
  }

  lemma {:induction false} LastSegmentKept(s: Bytes)
    requires s != [] && !EndsInCrlf(s)
    ensures Split(s)[|Split(s)| - 1] != []
    decreases |s|
  {
    var p := FindCrlf(s);
    if p < |s| {
      var rest := s[p + 2..];
      assert !EndsInCrlf(rest);
      assert |s| == p + 2 ==> EndsInCrlf(s);
      LastSegmentKept(rest);
      assert Split(s)[1..] == Split(rest);
    }
  }

  lemma SimpleOfTrimmed(b: Bytes)
    requires !EndsInCrlf(b)
    ensures SimpleSpec(b) == b + CRLF
  {
    if b == [] {
      SplitWhole(b);
      assert DropTrailingEmpty([[]]) == DropTrailingEmpty([]);
    } else {
      LastSegmentKept(b);
      JoinSplit(b);
    }
  }

  /** A CRLF at the end of the body changes neither canonical form. */
  lemma TrailingCrlfIgnored(b: Bytes, canon: BodyCanon)
    ensures Canonical(b + CRLF, canon) == Canonical(b, canon)
  {
    SplitTrailing(b);
    DropOneEmpty(Split(b));
    assert RelaxAll(Split(b) + [[]]) == RelaxAll(Split(b)) + [[]];
    DropOneEmpty(RelaxAll(Split(b)));
  }

  lemma StripOneCrlf(body: Bytes, end: nat)
    requires 2 <= end <= |body| && body[end - 2..end] == CRLF
    ensures SimpleSpec(body[..end]) == SimpleSpec(body[..end - 2])
  {
    assert body[..end] == body[..end - 2] + body[end - 2..end];
    TrailingCrlfIgnored(body[..end - 2], Simple);
  }

  lemma NotEndingInCrlf(body: Bytes, end: nat)
    requires end <= |body| && (end < 2 || body[end - 2..end] != CRLF)
    ensures !EndsInCrlf(body[..end])
  {
    if end >= 2 {
      assert body[end - 2..end] == [body[end - 2], body[end - 1]];
    }
  }

  /** `simple_body`. */
  method SimpleBody(body: Bytes) returns (out: Bytes)
    ensures out == SimpleSpec(body)
  {
    var end := |body|;
    assert body[..end] == body;
    while end >= 2 && body[end - 2..end] == CRLF
      invariant 0 <= end <= |body|
      invariant SimpleSpec(body) == SimpleSpec(body[..end])
    {
      StripOneCrlf(body, end);
      end := end - 2;
    }
    NotEndingInCrlf(body, end);
    SimpleOfTrimmed(body[..end]);
    out := body[..end];
    out := out + CRLF;
  }

  // ------------------------------------------------------------------ relaxed

  /** The lines the relaxed loop visits: a trailing empty segment is not one. */
  function BodyLines(s: Bytes): seq<Bytes>
    decreases |s|
  {
    var p := FindCrlf(s);
    if s == [] then []
    else if p == |s| then [s]
    else [s[..p]] + BodyLines(s[p + 2..])
  }

  lemma {:induction false} BodyLinesAreSplit(s: Bytes)
    ensures Split(s) == BodyLines(s) || Split(s) == BodyLines(s) + [[]]
    decreases |s|
  {
    var p := FindCrlf(s);
    if s == [] {
      SplitWhole(s);
      assert BodyLines(s) + [[]] == [[]];
    } else if p < |s| {
      var rest := s[p + 2..];
      BodyLinesAreSplit(rest);
      if Split(rest) == BodyLines(rest) + [[]] {
        Associate([s[..p]], BodyLines(rest), [[]]);
      }
    }
  }

  lemma RelaxedSpecByLines(body: Bytes)
    ensures RelaxedSpec(body) == JoinLines(DropTrailingEmpty(RelaxAll(BodyLines(body))))
    ensures AllNoCrlf(RelaxAll(BodyLines(body)))
  {
    var lines := BodyLines(body);
    BodyLinesAreSplit(body);
    SplitIsClean(body);
    if Split(body) == lines + [[]] {
      assert RelaxAll(lines + [[]]) == RelaxAll(lines) + [[]];
      DropOneEmpty(RelaxAll(lines));
    }
    forall k | 0 <= k < |lines| ensures NoCrlf(RelaxLine(lines[k])) {
      assert lines[k] == Split(body)[k];
      RelaxLineNoCrlf(lines[k]);
    }
  }

  lemma JoinSnoc(lines: seq<Bytes>)
    requires lines != []
    ensures var n := |lines| - 1; JoinLines(lines) == JoinLines(lines[..n]) + lines[n] + CRLF
  {
    var n := |lines| - 1;
    JoinConcat(lines[..n], [lines[n]]);
    assert lines[..n] + [lines[n]] == lines;
    assert JoinLines([lines[n]]) == lines[n] + CRLF;
    Associate(JoinLines(lines[..n]), lines[n], CRLF);
  }

  /** The loop's byte-level test for "the last line is empty". */
  predicate EndsInEmptyLine(out: Bytes) {
    EndsInCrlf(out) && (|out| == 2 || (|out| >= 4 && EndsInCrlf(out[..|out| - 2])))
  }

  lemma EmptyLineBytes(before: Bytes, last: Bytes)
    requires before == [] || EndsInCrlf(before)
    requires NoCrlf(last)
    ensures EndsInEmptyLine(before + last + CRLF) <==> last == []
  {
    var out := before + last + CRLF;
    assert out[..|out| - 2] == before + last;
    if last == [] {
      assert before + last == before;
    } else if |last| >= 2 {
      assert !CrlfAt(last, |last| - 2);
    }
  }

  lemma EmptyLineTest(lines: seq<Bytes>)
    requires AllNoCrlf(lines)
    ensures EndsInEmptyLine(JoinLines(lines)) <==> lines != [] && lines[|lines| - 1] == []
    ensures lines != [] && lines[|lines| - 1] == [] ==>
              JoinLines(lines) == JoinLines(lines[..|lines| - 1]) + CRLF
  {
    if lines != [] {
      var n := |lines| - 1;
      var before := JoinLines(lines[..n]);
      JoinSnoc(lines);
      if n > 0 {
        JoinSnoc(lines[..n]);
        assert EndsInCrlf(before);
      }
      EmptyLineBytes(before, lines[n]);
      assert before + [] == before;
    }
  }

  lemma PeelOne(lines: seq<Bytes>)
    requires AllNoCrlf(lines) && EndsInEmptyLine(JoinLines(lines))
    ensures lines != []
    ensures var shorter := lines[..|lines| - 1];
            && JoinLines(lines)[..|JoinLines(lines)| - 2] == JoinLines(shorter)
            && AllNoCrlf(shorter)
            && DropTrailingEmpty(shorter) == DropTrailingEmpty(lines)
  {
    EmptyLineTest(lines);
  }

  lemma NothingToPeel(lines: seq<Bytes>)
    requires AllNoCrlf(lines) && !EndsInEmptyLine(JoinLines(lines))
    ensures DropTrailingEmpty(lines) == lines && JoinLines(lines) != CRLF
  {
    EmptyLineTest(lines);
    assert EndsInEmptyLine(CRLF);
  }

  /** `relaxed_body`: relax, then peel the CRLF of each trailing empty line. */
  method RelaxedBody(body: Bytes) returns (out: Bytes)
    ensures out == RelaxedSpec(body)
  {
    out := RelaxEveryLine(body);
    RelaxedSpecByLines(body);
    ghost var lines := RelaxAll(BodyLines(body));
    while EndsInEmptyLine(out)
      invariant AllNoCrlf(lines) && out == JoinLines(lines)
      invariant RelaxedSpec(body) == JoinLines(DropTrailingEmpty(lines))
      decreases |out|
    {
      PeelOne(lines);
      lines := lines[..|lines| - 1];
      out := out[..|out| - 2];
    }
    NothingToPeel(lines);
  }

  lemma RelaxAllCons(lines: seq<Bytes>)
    requires lines != []
    ensures JoinLines(RelaxAll(lines)) == RelaxLine(lines[0]) + CRLF + JoinLines(RelaxAll(lines[1..]))
  {
    assert RelaxAll(lines)[1..] == RelaxAll(lines[1..]);
  }

  lemma NextBodyLine(body: Bytes, i: nat)
    requires i < |body|
    ensures var p := FindCrlf(body[i..]);
            var next := if i + p < |body| then i + p + 2 else |body|;
            next <= |body| && BodyLines(body[i..]) == [body[i..i + p]] + BodyLines(body[next..])
  {
    var rest := body[i..];
    var p := FindCrlf(rest);
    assert rest[..p] == body[i..i + p];
    if p < |rest| {
      assert rest[p + 2..] == body[i + p + 2..];
    } else {
      assert rest[..p] == rest;
      assert body[|body|..] == [];
    }
  }

  /** What the first loop of `relaxed_body` makes of the rest of a body. */
  function RelaxedTail(rest: Bytes): Bytes {
    JoinLines(RelaxAll(BodyLines(rest)))
  }

  lemma RelaxNextLine(body: Bytes, i: nat, out: Bytes)
    requires i < |body|
    ensures var p := FindCrlf(body[i..]);
            var next := if i + p < |body| then i + p + 2 else |body|;
            && next <= |body|
            && out + RelaxedTail(body[i..]) == out + RelaxLine(body[i..i + p]) + CRLF + RelaxedTail(body[next..])
  {
    hide RelaxLine, BodyLines, JoinLines, RelaxAll, FindCrlf;
    var p := FindCrlf(body[i..]);
    var next := if i + p < |body| then i + p + 2 else |body|;
    NextBodyLine(body, i);
    RelaxAllCons(BodyLines(body[i..]));
    Regroup(out, RelaxLine(body[i..i + p]), CRLF, RelaxedTail(body[next..]));
  }

  lemma RelaxNothing()
    ensures RelaxedTail([]) == []
  {
  }

  /** That loop: relax each line and terminate it. */
  method RelaxEveryLine(body: Bytes) returns (out: Bytes)
    ensures out == RelaxedTail(body)
  {
    hide RelaxedTail, RelaxLine;
    out := [];
    var i := 0;
    assert body[0..] == body;
    while i < |body|
      invariant 0 <= i <= |body|
      invariant RelaxedTail(body) == out + RelaxedTail(body[i..])
    {
      var p := FindCrlf(body[i..]);
      var line := body[i..i + p];
      RelaxNextLine(body, i, out);
      var relaxed := RelaxLineBytes(line);
      out := out + relaxed;
      out := out + CRLF;
      i := if i + p < |body| then i + p + 2 else |body|;
    }
    assert body[i..] == [];
    RelaxNothing();
  }

  // --------------------------------------------------------------- idempotence

  lemma SimpleIdempotent(body: Bytes)
    ensures SimpleSpec(SimpleSpec(body)) == SimpleSpec(body)
  {
    var kept := DropTrailingEmpty(Split(body));
    SplitIsClean(body);
    if kept == [] {
      SimpleOfTrimmed([]);
      TrailingCrlfIgnored([], Simple);
      assert [] + CRLF == CRLF;
    } else {
      SplitJoin(kept);
      DropOneEmpty(kept);
    }
  }

  lemma RelaxedIdempotent(body: Bytes)
    ensures RelaxedSpec(RelaxedSpec(body)) == RelaxedSpec(body)
  {
    SplitIsClean(body);
    var kept := DropTrailingEmpty(RelaxAll(Split(body)));
    forall k | 0 <= k < |kept| ensures NoCrlf(kept[k]) && RelaxLine(kept[k]) == kept[k] {
      assert kept[k] == RelaxLine(Split(body)[k]);
      RelaxLineNoCrlf(Split(body)[k]);
      RelaxLineShape(Split(body)[k]);
      RelaxedIsFixed(kept[k]);
    }
    SplitJoin(kept);
    assert RelaxAll(kept + [[]]) == kept + [[]];
    DropOneEmpty(kept);
  }

  /** Canonicalising a canonical body changes nothing. */
  lemma CanonicalIdempotent(body: Bytes, canon: BodyCanon)
    ensures Canonical(Canonical(body, canon), canon) == Canonical(body, canon)
  {
    if canon == Simple { SimpleIdempotent(body); } else { RelaxedIdempotent(body); }
  }
}
