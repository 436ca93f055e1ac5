/** ASCII text helpers shared by the components that work on Rust strings. */
module Text {

  datatype Option<+T> = None | Some(value: T)

  function LowerChar(c: char): char {
    if 'A' <= c <= 'Z' then (c as int + 32) as char else c
  }

  /** `str::to_ascii_lowercase`. */
  function Lower(s: string): (r: string)
    ensures |r| == |s|
    ensures forall i :: 0 <= i < |s| ==> r[i] == LowerChar(s[i])
  {
    seq(|s|, i requires 0 <= i < |s| => LowerChar(s[i]))
  }

  /** `str::eq_ignore_ascii_case`. */
  predicate EqIgnoreCase(a: string, b: string) {
    Lower(a) == Lower(b)
  }

  /** One character, or one ASCII letter in its two cases. */
  ghost predicate SameLetter(a: char, b: char) {
    a == b || ('A' <= a <= 'Z' && b as int == a as int + 32) || ('A' <= b <= 'Z' && a as int == b as int + 32)
  }

  /** Equal up to the case of ASCII letters. */
  ghost predicate SameLetters(a: string, b: string) {
    |a| == |b| && forall i :: 0 <= i < |a| ==> SameLetter(a[i], b[i])
  }

  /** Lower-casing leaves no capital, and changes nothing but the case of letters. */
  lemma LowerIsLower(s: string)
    ensures SameLetters(s, Lower(s)) && forall i :: 0 <= i < |s| ==> !('A' <= Lower(s)[i] <= 'Z')
  {
  }

  lemma LowerIsCaseless(a: string, b: string)
    ensures Lower(a) == Lower(b) <==> SameLetters(a, b)
  {
    if SameLetters(a, b) {
      forall i | 0 <= i < |a| ensures Lower(a)[i] == Lower(b)[i] {
        assert SameLetter(a[i], b[i]);
      }
    }
    if Lower(a) == Lower(b) {
      forall i | 0 <= i < |a| ensures SameLetter(a[i], b[i]) {
        assert Lower(a)[i] == Lower(b)[i];
      }
    }
  }

  /** `str::ends_with`. */
  predicate EndsWith<T(==)>(s: seq<T>, suffix: seq<T>) {
    |suffix| <= |s| && s[|s| - |suffix|..] == suffix
  }

  /** `str::split_once(c)`: the text before and after the first `c`. */
  function SplitOnce(s: string, c: char): (r: Option<(string, string)>)
    ensures r.None? <==> c !in s
    ensures r.Some? ==> s == r.value.0 + [c] + r.value.1 && c !in r.value.0
  {
    if s == [] then None
    else if s[0] == c then Some(([], s[1..]))
    else
      match SplitOnce(s[1..], c)
      case None => None
      case Some(p) => Some(([s[0]] + p.0, p.1))
  }

  /** `str::rsplit_once(c)`: the text before and after the last `c`. */
  function RSplitOnce(s: string, c: char): (r: Option<(string, string)>)
    ensures r.None? <==> c !in s
    ensures r.Some? ==> s == r.value.0 + [c] + r.value.1 && c !in r.value.1
  {
    if s == [] then None
    else if s[|s| - 1] == c then Some((s[..|s| - 1], []))
    else
      match RSplitOnce(s[..|s| - 1], c)
      case None => None
      case Some(p) => Some((p.0, p.1 + [s[|s| - 1]]))
  }

  lemma SplitOnceAt(a: string, c: char, b: string)
    requires c !in a
    ensures SplitOnce(a + [c] + b, c) == Some((a, b))
  {
    var s := a + [c] + b;
    var p := SplitOnce(s, c).value;
    assert s[|a|] == c;
    assert s[|p.0|] == c;
    assert |p.0| == |a|;
    assert p.0 == s[..|p.0|] && p.1 == s[|p.0| + 1..];
    assert a == s[..|a|] && b == s[|a| + 1..];
  }

  lemma RSplitOnceAt(a: string, c: char, b: string)
    requires c !in b
    ensures RSplitOnce(a + [c] + b, c) == Some((a, b))
  {
    var s := a + [c] + b;
    var p := RSplitOnce(s, c).value;
    assert s[|a|] == c;
    assert s[|p.0|] == c;
    assert |p.0| == |a|;
    assert p.0 == s[..|p.0|] && p.1 == s[|p.0| + 1..];
    assert a == s[..|a|] && b == s[|a| + 1..];
  }

  /** `str::lines`: cut at LF, drop a CR before it. */
  function Lines(text: string): seq<string>
    decreases |text|
  {
    if text == [] then []
    else
      match SplitOnce(text, '\n')
      case None => [text]
      case Some((line, rest)) => [WithoutCr(line)] + Lines(rest)
  }

  function WithoutCr(line: string): string {
    if line != [] && line[|line| - 1] == '\r' then line[..|line| - 1] else line
  }

  /** Lines end at LF or CRLF; what is left without one is a line as it stands. */
  lemma LinesExactly(line: string, rest: string)
    requires '\n' !in line
    ensures Lines(line + "\r\n" + rest) == [line] + Lines(rest)
    ensures line == [] || line[|line| - 1] != '\r' ==> Lines(line + "\n" + rest) == [line] + Lines(rest)
    ensures Lines(line) == if line == [] then [] else [line]
  {
    var ended := line + "\r";
    assert line + "\r\n" + rest == ended + ['\n'] + rest;
    SplitOnceAt(ended, '\n', rest);
    assert WithoutCr(ended) == line by { assert ended[..|line|] == line; }
    assert line + "\n" + rest == line + ['\n'] + rest;
    SplitOnceAt(line, '\n', rest);
  }

  lemma {:induction false} LinesHaveNoLf(text: string, i: nat)
    requires i < |Lines(text)|
    ensures '\n' !in Lines(text)[i]
    decreases |text|
  {
    var p := SplitOnce(text, '\n');
    if p.Some? && i > 0 { LinesHaveNoLf(p.value.1, i - 1); }
  }
}
