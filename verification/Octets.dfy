/** Octet strings and their CRLF structure (lines), shared by SMTP framing and DKIM. */
module Octets {

  newtype octet = x: int | 0 <= x < 256

  type Bytes = seq<octet>

  const TAB: octet := 9
  const LF: octet := 10
  const CR: octet := 13
  const SP: octet := 32
  const DOT: octet := 46
  const COLON: octet := 58
  const CRLF: Bytes := [CR, LF]

  /** The octets by number. */
  lemma Ascii()
    ensures CRLF == [13, 10] && TAB == 9 && SP == 32 && DOT == 46 && COLON == 58
  {
  }

  predicate CrlfAt(s: Bytes, i: int) {
    0 <= i < |s| - 1 && s[i] == CR && s[i + 1] == LF
  }

  predicate NoCrlf(s: Bytes) {
    forall i :: 0 <= i < |s| - 1 ==> !CrlfAt(s, i)
  }

  /** Every LF follows a CR: no bare LF. */
  predicate NoBareLf(s: Bytes) {
    forall i :: 0 <= i < |s| && s[i] == LF ==> i > 0 && s[i - 1] == CR
  }

  /** The first CRLF, if any. */
  function FindCrlf(s: Bytes): (p: nat)
    ensures p <= |s|
    ensures p < |s| ==> CrlfAt(s, p)
    ensures forall i :: 0 <= i < p ==> !CrlfAt(s, i)
    ensures p == |s| ==> NoCrlf(s)
  {
    if |s| < 2 then |s|
    else if s[0] == CR && s[1] == LF then 0
    else
      var q := FindCrlf(s[1..]);
      assert forall i :: 1 <= i < |s| - 1 ==> (CrlfAt(s, i) <==> CrlfAt(s[1..], i - 1));
      q + 1
  }

  /** The CRLF-separated segments of `s`; a trailing CRLF yields a last empty one. */
  function Split(s: Bytes): (r: seq<Bytes>)
    ensures r != []
    decreases |s|
  {
    var p := FindCrlf(s);
    if p == |s| then [s] else [s[..p]] + Split(s[p + 2..])
  }

  /** Every line followed by CRLF. */
  function JoinLines(lines: seq<Bytes>): Bytes {
    if lines == [] then [] else lines[0] + CRLF + JoinLines(lines[1..])
  }

  // ------------------------------------------------------------------- lemmas

  lemma Associate<T>(a: seq<T>, b: seq<T>, c: seq<T>)
    ensures a + b + c == a + (b + c)
  {
  }

  lemma Cut<T>(s: seq<T>, k: nat, x: seq<T>, y: seq<T>)
    requires k <= |s|
    ensures s + x + y == s[..k] + (s[k..] + x + y)
  {
    assert s == s[..k] + s[k..];
    Associate(s[..k], s[k..], x);
    Associate(s[..k], s[k..] + x, y);
  }

  lemma SplitAt(s: Bytes, p: nat)
    requires CrlfAt(s, p) && forall i :: 0 <= i < p ==> !CrlfAt(s, i)
    ensures Split(s) == [s[..p]] + Split(s[p + 2..])
  {
    assert FindCrlf(s) == p;
  }

  lemma SplitWhole(s: Bytes)
    requires NoCrlf(s)
    ensures Split(s) == [s]
  {
    var p := FindCrlf(s);
    assert !CrlfAt(s, p);
  }

  ghost predicate AllNoCrlf(lines: seq<Bytes>) {
    forall k :: 0 <= k < |lines| ==> NoCrlf(lines[k])
  }

  lemma {:induction false} SplitIsClean(s: Bytes)
    ensures AllNoCrlf(Split(s))
    decreases |s|
  {
    var p := FindCrlf(s);
    if p < |s| {
      SplitIsClean(s[p + 2..]);
      assert forall i :: 0 <= i < p - 1 ==> (CrlfAt(s[..p], i) <==> CrlfAt(s, i));
      assert NoCrlf(s[..p]);
    }
  }

  lemma FirstCrlfOfConcat(a: Bytes, b: Bytes)
    ensures var p := FindCrlf(a); var s := a + CRLF + b;
            && CrlfAt(s, p)
            && (forall i :: 0 <= i < p ==> !CrlfAt(s, i))
  {
    var p := FindCrlf(a);
    var s := a + CRLF + b;
    forall i | 0 <= i < p ensures !CrlfAt(s, i) {
      assert !CrlfAt(a, i);
    }
  }

  /** Splitting respects every CRLF, wherever the pieces are cut. */
  lemma {:induction false} SplitConcat(a: Bytes, b: Bytes)
    ensures Split(a + CRLF + b) == Split(a) + Split(b)
    decreases |a|
  {
    var s := a + CRLF + b;
    var p := FindCrlf(a);
    FirstCrlfOfConcat(a, b);
    SplitAt(s, p);
    if p == |a| {
      assert s[..p] == a && s[p + 2..] == b;
    } else {
      var rest := a[p + 2..];
      assert s[..p] == a[..p] && s[p + 2..] == rest + CRLF + b;
      SplitConcat(rest, b);
      Associate([a[..p]], Split(rest), Split(b));
    }
  }

  /** A trailing CRLF adds one empty segment. */
  lemma SplitTrailing(s: Bytes)
    ensures Split(s + CRLF) == Split(s) + [[]]
  {
    SplitConcat(s, []);
    assert s + CRLF + [] == s + CRLF;
    SplitWhole([]);
  }

  lemma JoinFirst(line: Bytes, lines: seq<Bytes>)
    ensures JoinLines([line] + lines) == line + CRLF + JoinLines(lines)
  {
    assert ([line] + lines)[1..] == lines;
  }

  lemma CutAtCrlf(s: Bytes, p: nat)
    requires CrlfAt(s, p)
    ensures s == s[..p] + CRLF + s[p + 2..]
  {
  }

  lemma {:induction false} JoinSplit(s: Bytes)
    ensures JoinLines(Split(s)) == s + CRLF
    decreases |s|
  {
    hide JoinLines, FindCrlf, NoCrlf;
    var p := FindCrlf(s);
    if p == |s| {
      JoinFirst(s, []);
      JoinNothing();
      assert Split(s) == [s] + [];
    } else {
      var rest := s[p + 2..];
      JoinSplit(rest);
      JoinFirst(s[..p], Split(rest));
      CutAtCrlf(s, p);
      Associate(s[..p] + CRLF, rest, CRLF);
    }
  }

  lemma JoinNothing()
    ensures JoinLines([]) == []
  {
  }

  lemma {:induction false} SplitJoin(lines: seq<Bytes>)
    requires AllNoCrlf(lines)
    ensures Split(JoinLines(lines)) == lines + [[]]
  {
    if lines == [] {
      SplitWhole([]);
    } else {
      SplitJoin(lines[1..]);
      SplitConcat(lines[0], JoinLines(lines[1..]));
      SplitWhole(lines[0]);
      Associate([lines[0]], lines[1..], [[]]);
      assert [lines[0]] + lines[1..] == lines;
    }
  }

  lemma {:induction false} JoinConcat(a: seq<Bytes>, b: seq<Bytes>)
    ensures JoinLines(a + b) == JoinLines(a) + JoinLines(b)
  {
    if a == [] {
      assert a + b == b;
    } else {
      JoinConcat(a[1..], b);
      assert (a + b)[1..] == a[1..] + b;
      Associate(a[0] + CRLF, JoinLines(a[1..]), JoinLines(b));
    }
  }
}
