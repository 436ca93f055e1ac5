/**
 DKIM signed-header selection (section 5.4.2 of RFC 6376), header field parsing
 and header canonicalisation: the bytes that are hashed, and when a trace field
 prepended by a relay leaves them alone.
 */
module DkimHeaders {
  import opened Text
  import opened Octets
  import opened DkimBody
  import opened Selection

  datatype HeaderField = HeaderField(name: Bytes, value: Bytes)

  datatype HeaderCanon = SimpleHeader | RelaxedHeader

  // ---------------------------------------------------------- canonical fields

  function LowerOctet(b: octet): octet {
    if 65 <= b <= 90 then b + 32 else b
  }

  function LowerName(name: Bytes): Bytes {
    if name == [] then [] else [LowerOctet(name[0])] + LowerName(name[1..])
  }

  /** One octet, or one ASCII letter in its two cases. */
  ghost predicate SameLetter(a: octet, b: octet) {
    a == b || (65 <= a <= 90 && b as int == a as int + 32) || (65 <= b <= 90 && a as int == b as int + 32)
  }

  /** Names that differ at most in the case of ASCII letters. */
  ghost predicate SameName(a: Bytes, b: Bytes) {
    |a| == |b| && forall i :: 0 <= i < |a| ==> SameLetter(a[i], b[i])
  }

  lemma {:induction false} LowerNameAt(name: Bytes)
    ensures |LowerName(name)| == |name|
    ensures forall i :: 0 <= i < |name| ==> LowerName(name)[i] == LowerOctet(name[i])
  {
    if name != [] { LowerNameAt(name[1..]); }
  }

  /** A key has no capitals and is its name but for the case of letters; names have
      the same key exactly if they differ at most in case. */
  lemma KeysAreCaseless(a: Bytes, b: Bytes)
    ensures SameName(a, LowerName(a)) && forall i :: 0 <= i < |LowerName(a)| ==> !(65 <= LowerName(a)[i] <= 90)
    ensures LowerName(a) == LowerName(b) <==> SameName(a, b)
  {
    LowerNameAt(a);
    LowerNameAt(b);
    hide LowerName;
    if SameName(a, b) {
      forall i | 0 <= i < |a| ensures LowerName(a)[i] == LowerName(b)[i] {
        assert SameLetter(a[i], b[i]);
      }
    }
    if LowerName(a) == LowerName(b) {
      forall i | 0 <= i < |a| ensures SameLetter(a[i], b[i]) {
        assert LowerName(a)[i] == LowerName(b)[i];
      }
    }
  }

  predicate AsciiSpace(b: octet) {
    b == SP || 9 <= b <= 13
  }

  function TrimStart(s: Bytes): Bytes {
    if s != [] && AsciiSpace(s[0]) then TrimStart(s[1..]) else s
  }

  function TrimEnd(s: Bytes): Bytes {
    if s != [] && AsciiSpace(s[|s| - 1]) then TrimEnd(s[..|s| - 1]) else s
  }

  function Trim(s: Bytes): Bytes {
    TrimEnd(TrimStart(s))
  }

  ghost predicate Blank(s: Bytes) {
    forall i :: 0 <= i < |s| ==> s[i] in {9, 10, 11, 12, 13, 32}
  }

  lemma {:induction false} TrimStartIs(s: Bytes) returns (before: Bytes)
    ensures s == before + TrimStart(s) && Blank(before)
    ensures TrimStart(s) != [] ==> !Blank([TrimStart(s)[0]])
  {
    before := [];
    if s != [] && AsciiSpace(s[0]) {
      var rest := TrimStartIs(s[1..]);
      before := [s[0]] + rest;
    } else if s != [] {
      assert [s[0]][0] == s[0];
    }
  }

  lemma {:induction false} TrimEndIs(s: Bytes) returns (behind: Bytes)
    ensures s == TrimEnd(s) + behind && Blank(behind)
    ensures TrimEnd(s) != [] ==> !Blank([TrimEnd(s)[|TrimEnd(s)| - 1]])
  {
    behind := [];
    if s != [] && AsciiSpace(s[|s| - 1]) {
      var rest := TrimEndIs(s[..|s| - 1]);
      behind := rest + [s[|s| - 1]];
    } else if s != [] {
      assert [s[|s| - 1]][0] == s[|s| - 1];
    }
  }

  /** Trimming takes the white space at both ends, and only that. */
  lemma TrimIs(s: Bytes) returns (before: Bytes, behind: Bytes)
    ensures s == before + Trim(s) + behind && Blank(before) && Blank(behind)
    ensures Trim(s) != [] ==> !Blank([Trim(s)[0]]) && !Blank([Trim(s)[|Trim(s)| - 1]])
  {
    before := TrimStartIs(s);
    behind := TrimEndIs(TrimStart(s));
    hide TrimStart, TrimEnd, Blank;
    assert Trim(s) != [] ==> Trim(s)[0] == TrimStart(s)[0];
    assert before + (Trim(s) + behind) == before + Trim(s) + behind;
  }

  predicate LineBreak(b: octet) {
    b == CR || b == LF
  }

  /** Unfolding: the CR and LF octets are dropped. */
  function Unfold(s: Bytes): Bytes {
    if s == [] then [] else (if LineBreak(s[0]) then [] else [s[0]]) + Unfold(s[1..])
  }

  /** The unfolded value, relaxed as a line, without leading WSP. */
  function RelaxValue(raw: Bytes): Bytes {
    RelaxLine(SkipWsp(Unfold(raw)))
  }

  /** What is left without CR (13) and LF (10). */
  function WithoutBreaks(s: Bytes): Bytes {
    if s == [] then [] else (if s[0] == 13 || s[0] == 10 then [] else [s[0]]) + WithoutBreaks(s[1..])
  }

  lemma {:induction false} UnfoldExactly(s: Bytes)
    ensures Unfold(s) == WithoutBreaks(s)
  {
    if s != [] { UnfoldExactly(s[1..]); }
  }

  /** A relaxed value keeps the text of the value without its line breaks, in order
      and with the same gaps but none before it, has only single inner spaces and
      none at either end; relaxing it again changes nothing. */
  lemma RelaxValueShape(raw: Bytes)
    ensures var v := RelaxValue(raw);
            && IsRelaxed(v) && (v != [] ==> !Wsp(v[0]))
            && Marks(v, true) == Marks(WithoutBreaks(raw), true)
            && RelaxLine(v) == v
  {
    UnfoldExactly(raw);
    var rest := SkipWsp(Unfold(raw));
    SkipWspMarks(Unfold(raw));
    RelaxLineShape(rest);
    RelaxedIsFixed(RelaxLine(rest));
    hide Marks;
  }

  function CanonicalField(name: Bytes, value: Bytes, canon: HeaderCanon): (r: Bytes)
    ensures r != []
  {
    match canon
    case SimpleHeader => name + [COLON] + value
    case RelaxedHeader => LowerName(Trim(name)) + [COLON] + RelaxValue(value)
  }

  /** A relaxed field: the trimmed name without capitals, a colon and the value. */
  lemma RelaxedField(name: Bytes, value: Bytes) returns (key: Bytes)
    ensures CanonicalField(name, value, RelaxedHeader) == key + [COLON] + RelaxValue(value)
    ensures SameName(Trim(name), key) && forall i :: 0 <= i < |key| ==> !(65 <= key[i] <= 90)
  {
    key := LowerName(Trim(name));
    KeysAreCaseless(Trim(name), Trim(name));
  }

  ghost function ValuePending(started: bool, inWsp: bool, rest: Bytes): Bytes {
    if started then Pending(inWsp, Unfold(rest)) else RelaxLine(SkipWsp(Unfold(rest)))
  }

  lemma ValuePendingStep(started: bool, inWsp: bool, rest: Bytes)
    requires rest != []
    ensures LineBreak(rest[0]) ==> ValuePending(started, inWsp, rest) == ValuePending(started, inWsp, rest[1..])
    ensures Wsp(rest[0]) ==> ValuePending(started, inWsp, rest) == ValuePending(started, true, rest[1..])
    ensures !LineBreak(rest[0]) && !Wsp(rest[0]) ==>
              ValuePending(started, inWsp, rest)
              == (if inWsp && started then [SP] else []) + [rest[0]] + ValuePending(true, false, rest[1..])
  {
    if LineBreak(rest[0]) {
      assert Unfold(rest) == Unfold(rest[1..]);
    } else {
      var u := Unfold(rest);
      assert u == [rest[0]] + Unfold(rest[1..]);
      assert u[1..] == Unfold(rest[1..]);
      PendingStep(started && inWsp, u);
      if !Wsp(rest[0]) { assert SkipWsp(u) == u; }
    }
  }

  /** `relax_value`. */
  method RelaxValueBytes(raw: Bytes) returns (out: Bytes)
    ensures out == RelaxValue(raw)
  {
    hide RelaxValue, ValuePending;
    out := [];
    var inWsp := false;
    var i := 0;
    assert raw[0..] == raw;
    ValuePendingStarts(raw);
    while i < |raw|
      invariant 0 <= i <= |raw|
      invariant RelaxValue(raw) == out + ValuePending(out != [], inWsp, raw[i..])
    {
      var b := raw[i];
      ValuePendingStep(out != [], inWsp, raw[i..]);
      assert raw[i..][1..] == raw[i + 1..];
      if LineBreak(b) {
      } else if Wsp(b) {
        inWsp := true;
      } else {
        Regroup(out, if inWsp && out != [] then [SP] else [], [b], ValuePending(true, false, raw[i + 1..]));
        assert out + [] == out;
        if inWsp && out != [] {
          out := out + [SP];
        }
        inWsp := false;
        out := out + [b];
      }
      i := i + 1;
    }
    assert raw[i..] == [];
    ValuePendingEnds(out != [], inWsp);
  }

  lemma ValuePendingStarts(raw: Bytes)
    ensures RelaxValue(raw) == ValuePending(false, false, raw)
  {
  }

  lemma ValuePendingEnds(started: bool, inWsp: bool)
    ensures ValuePending(started, inWsp, []) == []
  {
  }

  /** `canonicalize_header`. */
  method CanonicalizeHeader(name: Bytes, value: Bytes, canon: HeaderCanon, withCrlf: bool) returns (out: Bytes)
    ensures out == CanonicalField(name, value, canon) + (if withCrlf then CRLF else [])
  {
    if canon == SimpleHeader {
      out := name + [COLON] + value;
    } else {
      var relaxed := RelaxValueBytes(value);
      out := LowerName(Trim(name)) + [COLON] + relaxed;
    }
    if withCrlf { out := out + CRLF; } else { assert out + [] == out; }
  }

  // ---------------------------------------------------------- field selection

  /** A signature as the header hash uses it: where it stands, its value with
      `b=` emptied, the `h=` list and the header algorithm. */
  datatype Signature =
    Signature(index: nat, strippedValue: Bytes, signedHeaders: seq<Bytes>, canon: HeaderCanon)

  /** Field names compare without regard to ASCII case. */
  function Keys(fields: seq<HeaderField>): (r: seq<Bytes>)
    ensures |r| == |fields|
    ensures forall i :: 0 <= i < |fields| ==> r[i] == LowerName(fields[i].name)
  {
    seq(|fields|, i requires 0 <= i < |fields| => LowerName(fields[i].name))
  }

  function Wanted(names: seq<Bytes>): (r: seq<Bytes>)
    ensures |r| == |names|
    ensures forall i :: 0 <= i < |names| ==> r[i] == LowerName(names[i])
  {
    seq(|names|, i requires 0 <= i < |names| => LowerName(names[i]))
  }

  function FieldBytes(fields: seq<HeaderField>, pick: Option<nat>, canon: HeaderCanon): Bytes
    requires pick.Some? ==> pick.value < |fields|
  {
    if pick.None? then []
    else CanonicalField(fields[pick.value].name, fields[pick.value].value, canon) + CRLF
  }

  /** The bytes of the `n`-th entry of `h=`. */
  function Piece(fields: seq<HeaderField>, sig: Signature, n: nat): Bytes
    requires n < |sig.signedHeaders|
  {
    FieldBytes(fields, Pick(Keys(fields), sig.index, Wanted(sig.signedHeaders), n), sig.canon)
  }

  function Concat(parts: seq<Bytes>): Bytes {
    if parts == [] then [] else Concat(parts[..|parts| - 1]) + parts[|parts| - 1]
  }

  function PieceList(fields: seq<HeaderField>, sig: Signature): (r: seq<Bytes>)
    ensures |r| == |sig.signedHeaders|
    ensures forall n :: 0 <= n < |r| ==> r[n] == Piece(fields, sig, n)
  {
    seq(|sig.signedHeaders|, n requires 0 <= n < |sig.signedHeaders| => Piece(fields, sig, n))
  }

  /** The bytes `compute_header_hash` feeds to SHA-256. */
  function HashInput(fields: seq<HeaderField>, sig: Signature): Bytes
    requires sig.index < |fields|
  {
    Concat(PieceList(fields, sig)) + CanonicalField(fields[sig.index].name, sig.strippedValue, sig.canon)
  }

  method PickedBytes(fields: seq<HeaderField>, pick: Option<nat>, canon: HeaderCanon) returns (piece: Bytes)
    requires pick.Some? ==> pick.value < |fields|
    ensures piece == FieldBytes(fields, pick, canon)
  {
    piece := [];
    if pick.Some? {
      piece := CanonicalizeHeader(fields[pick.value].name, fields[pick.value].value, canon, true);
    }
  }

  /** One entry of `h=`: search from the bottom, consume, canonicalise. */
  method TakeNext(fields: seq<HeaderField>, sig: Signature, j: nat, consumed: set<nat>) returns (consumed': set<nat>, piece: Bytes)
    requires j < |sig.signedHeaders|
    requires ConsumedBy(Keys(fields), sig.index, Wanted(sig.signedHeaders), j, consumed)
    ensures ConsumedBy(Keys(fields), sig.index, Wanted(sig.signedHeaders), j + 1, consumed')
    ensures piece == Piece(fields, sig, j)
  {
    var keys, wanted := Keys(fields), Wanted(sig.signedHeaders);
    var pick := FindLast(keys, sig.index, consumed, wanted[j]);
    SearchFindsPick(keys, sig.index, wanted, j, consumed, pick);
    ConsumeNext(keys, sig.index, wanted, j, consumed);
    consumed' := if pick.Some? then consumed + {pick.value} else consumed;
    piece := PickedBytes(fields, pick, sig.canon);
  }

  lemma {:induction false} ConcatLonger(parts: seq<Bytes>, parts': seq<Bytes>)
    requires |parts| == |parts'|
    requires forall k :: 0 <= k < |parts| ==> |parts[k]| <= |parts'[k]|
    ensures |Concat(parts)| <= |Concat(parts')|
    ensures (exists k :: 0 <= k < |parts| && |parts[k]| < |parts'[k]|) ==> |Concat(parts)| < |Concat(parts')|
  {
    if parts != [] {
      var n := |parts| - 1;
      ConcatLonger(parts[..n], parts'[..n]);
      forall k | 0 <= k < n && |parts[k]| < |parts'[k]| ensures |Concat(parts[..n])| < |Concat(parts'[..n])| {
        assert |parts[..n][k]| < |parts'[..n][k]|;
      }
    }
  }

  lemma ConcatNext(parts: seq<Bytes>, j: nat)
    requires j < |parts|
    ensures Concat(parts[..j + 1]) == Concat(parts[..j]) + parts[j]
  {
    assert parts[..j + 1][..j] == parts[..j];
  }

  /** Field `i` can be taken by the n-th entry of `h=`: it has that name in any case,
      is not the signature's own, and no earlier entry took it. */
  ghost predicate Free(fields: seq<HeaderField>, sig: Signature, picks: seq<Option<nat>>, n: nat, i: nat)
    requires n < |sig.signedHeaders| == |picks|
  {
    && i < |fields| && i != sig.index && SameName(fields[i].name, sig.signedHeaders[n])
    && forall k :: 0 <= k < n ==> picks[k] != Some(i)
  }

  ghost predicate TakesLowest(fields: seq<HeaderField>, sig: Signature, picks: seq<Option<nat>>, n: nat)
    requires n < |sig.signedHeaders| == |picks|
  {
    match picks[n]
    case None => forall i: nat :: !Free(fields, sig, picks, n, i)
    case Some(p) => Free(fields, sig, picks, n, p) && forall i: nat :: p < i ==> !Free(fields, sig, picks, n, i)
  }

  /** Each entry of `h=` in turn takes the lowest field in the message it can. */
  ghost predicate BottomUp(fields: seq<HeaderField>, sig: Signature, picks: seq<Option<nat>>) {
    |picks| == |sig.signedHeaders| && forall n :: 0 <= n < |picks| ==> TakesLowest(fields, sig, picks, n)
  }

  function Picks(fields: seq<HeaderField>, sig: Signature): (r: seq<Option<nat>>)
    ensures |r| == |sig.signedHeaders|
    ensures forall n :: 0 <= n < |r| ==> r[n] == Pick(Keys(fields), sig.index, Wanted(sig.signedHeaders), n)
  {
    seq(|sig.signedHeaders|, n requires 0 <= n < |sig.signedHeaders| => Pick(Keys(fields), sig.index, Wanted(sig.signedHeaders), n))
  }

  lemma FreeIs(fields: seq<HeaderField>, sig: Signature, n: nat, i: nat)
    requires n < |sig.signedHeaders|
    ensures var keys, wanted := Keys(fields), Wanted(sig.signedHeaders);
            Free(fields, sig, Picks(fields, sig), n, i)
            <==> i < |fields| && IsCandidate(keys, sig.index, wanted[n], i) && !TakenBefore(keys, sig.index, wanted, n, i)
  {
    var keys, wanted, picks := Keys(fields), Wanted(sig.signedHeaders), Picks(fields, sig);
    if i < |fields| {
      KeysAreCaseless(fields[i].name, sig.signedHeaders[n]);
      hide SameName, LowerName, Pick;
      assert TakenBefore(keys, sig.index, wanted, n, i) <==> exists k :: 0 <= k < n && picks[k] == Some(i);
    }
  }

  /** The selection by name and count is the bottom-up one. */
  lemma PicksAreBottomUp(fields: seq<HeaderField>, sig: Signature)
    ensures BottomUp(fields, sig, Picks(fields, sig))
  {
    var keys, wanted, picks := Keys(fields), Wanted(sig.signedHeaders), Picks(fields, sig);
    forall n | 0 <= n < |picks| ensures TakesLowest(fields, sig, picks, n) {
      PickIsLowest(keys, sig.index, wanted, n);
      forall i: nat
        ensures Free(fields, sig, picks, n, i)
           <==> i < |fields| && IsCandidate(keys, sig.index, wanted[n], i) && !TakenBefore(keys, sig.index, wanted, n, i)
      {
        FreeIs(fields, sig, n, i);
      }
      hide Free, Pick, TakenBefore, Keys, Wanted;
    }
  }

  /** There is only one such selection. */
  lemma {:induction false} BottomUpIsUnique(fields: seq<HeaderField>, sig: Signature, p: seq<Option<nat>>, q: seq<Option<nat>>, n: nat)
    requires BottomUp(fields, sig, p) && BottomUp(fields, sig, q) && n <= |p|
    ensures p[..n] == q[..n]
    decreases n
  {
    if n > 0 {
      var last := n - 1;
      BottomUpIsUnique(fields, sig, p, q, last);
      assert TakesLowest(fields, sig, p, last) && TakesLowest(fields, sig, q, last);
      forall i: nat ensures Free(fields, sig, p, last, i) <==> Free(fields, sig, q, last, i) {
        assert forall k :: 0 <= k < last ==> p[k] == p[..last][k] && q[k] == q[..last][k];
      }
      hide Free;
      assert p[last] == q[last];
      assert p[..n] == p[..last] + [p[last]] && q[..n] == q[..last] + [q[last]];
    }
  }

  /** The bytes of the fields picked, then the signature's own field. */
  ghost predicate Hashes(fields: seq<HeaderField>, sig: Signature, picks: seq<Option<nat>>, parts: seq<Bytes>, input: Bytes)
    requires sig.index < |fields|
  {
    && |parts| == |picks| && input == Concat(parts) + CanonicalField(fields[sig.index].name, sig.strippedValue, sig.canon)
    && forall n :: 0 <= n < |picks| ==>
         match picks[n]
         case None => parts[n] == []
         case Some(p) => p < |fields| && parts[n] == CanonicalField(fields[p].name, fields[p].value, sig.canon) + CRLF
  }

  /** `compute_header_hash` up to the digest: the bytes of the fields that `h=` takes
      bottom-up, by name in any case, and of the signature's own field. */
  method ComputeHashInput(fields: seq<HeaderField>, sig: Signature) returns (input: Bytes, ghost picks: seq<Option<nat>>, ghost parts: seq<Bytes>)
    requires sig.index < |fields|
    ensures input == HashInput(fields, sig)
    ensures BottomUp(fields, sig, picks) && Hashes(fields, sig, picks, parts, input)
  {
    picks, parts := Picks(fields, sig), PieceList(fields, sig);
    PicksAreBottomUp(fields, sig);
    hide BottomUp, CanonicalField, Concat, Pick, Keys, Wanted;
    input := SignedFields(fields, sig);
    var current := CanonicalizeHeader(fields[sig.index].name, sig.strippedValue, sig.canon, false);
    assert current == CanonicalField(fields[sig.index].name, sig.strippedValue, sig.canon) + [];
    input := input + current;
  }

  lemma NothingConsumed(fields: seq<HeaderField>, sig: Signature)
    ensures ConsumedBy(Keys(fields), sig.index, Wanted(sig.signedHeaders), 0, {})
    ensures Concat(PieceList(fields, sig)[..0]) == []
  {
  }

  /** Its loop over `h=`, with the set of consumed fields. */
  method SignedFields(fields: seq<HeaderField>, sig: Signature) returns (input: Bytes)
    ensures input == Concat(PieceList(fields, sig))
  {
    input := [];
    var consumed: set<nat> := {};
    ghost var parts := PieceList(fields, sig);
    NothingConsumed(fields, sig);
    hide *;
    var j := 0;
    while j < |sig.signedHeaders|
      invariant 0 <= j <= |sig.signedHeaders|
      invariant ConsumedBy(Keys(fields), sig.index, Wanted(sig.signedHeaders), j, consumed)
      invariant input == Concat(parts[..j])
    {
      var piece;
      consumed, piece := TakeNext(fields, sig, j, consumed);
      ConcatNext(parts, j);
      input := input + piece;
      j := j + 1;
    }
    assert parts[..j] == parts;
  }

  // ---------------------------------------------------------- prepended fields

  lemma FieldBytesShift(t: HeaderField, fields: seq<HeaderField>, pick: Option<nat>, canon: HeaderCanon)
    requires pick.Some? && pick.value < |fields|
    ensures FieldBytes([t] + fields, Some(pick.value + 1), canon) == FieldBytes(fields, pick, canon)
  {
    hide CanonicalField;
    assert ([t] + fields)[pick.value + 1] == fields[pick.value];
  }

  lemma KeysShift(t: HeaderField, fields: seq<HeaderField>)
    ensures Keys([t] + fields) == [LowerName(t.name)] + Keys(fields)
  {
  }

  lemma PieceShift(t: HeaderField, fields: seq<HeaderField>, sig: Signature, n: nat)
    requires n < |sig.signedHeaders|
    ensures var was, now := Piece(fields, sig, n), Piece([t] + fields, sig.(index := sig.index + 1), n);
            if FirstWithout(Keys(fields), sig.index, Wanted(sig.signedHeaders), LowerName(t.name), n)
            then was == [] && now != [] else now == was
  {
    hide Pick, Keys, Wanted, LowerName, FirstWithout, CanonicalField;
    KeysShift(t, fields);
    var keys, wanted := Keys(fields), Wanted(sig.signedHeaders);
    PickShift(LowerName(t.name), keys, sig.index, wanted, n, Keys([t] + fields));
    var pick := Pick(keys, sig.index, wanted, n);
    if pick.Some? {
      FieldBytesShift(t, fields, pick, sig.canon);
    }
  }

  lemma ConcatGrows(was: seq<Bytes>, now: seq<Bytes>, n: nat, last: Bytes)
    requires n < |was| == |now| && |was[n]| < |now[n]| && forall k :: 0 <= k < |was| ==> |was[k]| <= |now[k]|
    ensures |Concat(now) + last| > |Concat(was) + last|
  {
    ConcatLonger(was, now);
    hide Concat;
  }

  /** Two lists of pieces that differ only where the first has an empty piece. */
  lemma ComparePieces(was: seq<Bytes>, now: seq<Bytes>, grown: set<nat>, last: Bytes)
    requires |was| == |now| && forall n :: n in grown ==> n < |was|
    requires forall n :: 0 <= n < |was| ==> if n in grown then was[n] == [] && now[n] != [] else now[n] == was[n]
    ensures Concat(now) + last == Concat(was) + last <==> grown == {}
    ensures grown != {} ==> |Concat(now) + last| > |Concat(was) + last|
  {
    if grown == {} {
      assert now == was;
    } else {
      var n :| n in grown;
      assert |was[n]| < |now[n]|;
      ConcatGrows(was, now, n, last);
    }
  }

  /** `h=` does not name a field more often than it occurs. */
  ghost predicate Covered(fields: seq<HeaderField>, sig: Signature, key: Bytes) {
    Mentions(Wanted(sig.signedHeaders), key, |sig.signedHeaders|) <= Occurrences(fields, sig.index, key)
  }

  /** How many fields have this name, not counting the signature's own. */
  function Occurrences(fields: seq<HeaderField>, skip: nat, key: Bytes): nat {
    |Candidates(Keys(fields), skip, key)|
  }

  /** A prepended field leaves the hash input unchanged if and only if `h=` does
      not name it more often than it already occurs; else the input grows. */
  lemma PrependedField(t: HeaderField, fields: seq<HeaderField>, sig: Signature)
    requires sig.index < |fields|
    ensures var was, now := HashInput(fields, sig), HashInput([t] + fields, sig.(index := sig.index + 1));
            && (now == was <==> Covered(fields, sig, LowerName(t.name)))
            && (now != was ==> |now| > |was|)
  {
    var fields', sig' := [t] + fields, sig.(index := sig.index + 1);
    var keys, wanted, key := Keys(fields), Wanted(sig.signedHeaders), LowerName(t.name);
    var grown := Unmet(keys, sig.index, wanted, key);
    var was, now := PieceList(fields, sig), PieceList(fields', sig');
    forall n | 0 <= n < |was|
      ensures if n in grown then was[n] == [] && now[n] != [] else now[n] == was[n]
    {
      PieceShift(t, fields, sig, n);
    }
    ComparePieces(was, now, grown, CanonicalField(fields[sig.index].name, sig.strippedValue, sig.canon));
    assert fields'[sig'.index] == fields[sig.index];
    ReachesWitness(keys, sig.index, wanted, key);
  }

  function Below(sig: Signature, n: nat): Signature {
    sig.(index := sig.index + n)
  }

  lemma OccurrencesStep(t: HeaderField, fields: seq<HeaderField>, skip: nat, key: Bytes)
    ensures Occurrences([t] + fields, skip + 1, key) == Occurrences(fields, skip, key) + if LowerName(t.name) == key then 1 else 0
  {
    KeysShift(t, fields);
    CandidatesPrepend(LowerName(t.name), Keys(fields), skip, key, Keys([t] + fields));
  }

  lemma KeysRest(ts: seq<HeaderField>, key: Bytes)
    requires ts != []
    ensures key in Keys(ts) <==> key == LowerName(ts[0].name) || key in Keys(ts[1..])
  {
    assert ts == [ts[0]] + ts[1..];
    KeysShift(ts[0], ts[1..]);
  }

  /** Fields on top add to what covers their names, and to nothing else. */
  lemma {:induction false} OccurrencesBelow(ts: seq<HeaderField>, fields: seq<HeaderField>, skip: nat, key: Bytes)
    ensures Occurrences(ts + fields, skip + |ts|, key) >= Occurrences(fields, skip, key)
    ensures key !in Keys(ts) ==> Occurrences(ts + fields, skip + |ts|, key) == Occurrences(fields, skip, key)
    decreases |ts|
  {
    hide *;
    if ts == [] {
      assert ts + fields == fields;
    } else {
      var rest := ts[1..] + fields;
      assert ts + fields == [ts[0]] + rest;
      KeysRest(ts, key);
      OccurrencesBelow(ts[1..], fields, skip, key);
      OccurrencesStep(ts[0], rest, skip + |ts| - 1, key);
    }
  }

  lemma CoveredBelow(ts: seq<HeaderField>, fields: seq<HeaderField>, sig: Signature, key: Bytes)
    ensures Covered(fields, sig, key) ==> Covered(ts + fields, Below(sig, |ts|), key)
    ensures key !in Keys(ts) ==> (Covered(ts + fields, Below(sig, |ts|), key) <==> Covered(fields, sig, key))
  {
    hide Occurrences, Keys, Mentions;
    OccurrencesBelow(ts, fields, sig.index, key);
  }

  lemma KeyOf(ts: seq<HeaderField>, key: Bytes)
    requires key in Keys(ts)
    ensures exists i :: 0 <= i < |ts| && LowerName(ts[i].name) == key
  {
    var i :| 0 <= i < |ts| && Keys(ts)[i] == key;
    assert LowerName(ts[i].name) == key;
  }

  /** Any number of fields on top: the hash input is unchanged if and only if `h=`
      names none of them more often than it occurs below. */
  lemma {:induction false} PrependedFields(ts: seq<HeaderField>, fields: seq<HeaderField>, sig: Signature)
    requires sig.index < |fields|
    ensures var was, now := HashInput(fields, sig), HashInput(ts + fields, Below(sig, |ts|));
            && (now == was <==> forall i :: 0 <= i < |ts| ==> Covered(fields, sig, LowerName(ts[i].name)))
            && (now != was ==> |now| > |was|)
    decreases |ts|
  {
    hide HashInput, Covered;
    if ts == [] {
      assert ts + fields == fields;
    } else {
      var rest, key := ts[1..] + fields, LowerName(ts[0].name);
      assert ts + fields == [ts[0]] + rest;
      PrependedFields(ts[1..], fields, sig);
      PrependedField(ts[0], rest, Below(sig, |ts| - 1));
      CoveredBelow(ts[1..], fields, sig, key);
      assert forall i :: 0 <= i < |ts| - 1 ==> ts[1..][i] == ts[i + 1];
      if key in Keys(ts[1..]) { KeyOf(ts[1..], key); }
      hide LowerName, Keys;
    }
  }

  // -------------------------------------------------------------- field parsing

  predicate Continues(line: Bytes) {
    line != [] && Wsp(line[0])
  }

  /** A continuation line extends the last block, any other starts one. */
  function AddLine(blocks: seq<Bytes>, line: Bytes): (r: seq<Bytes>)
    ensures r != []
  {
    var n := |blocks| - 1;
    if blocks != [] && Continues(line) then blocks[..n] + [blocks[n] + CRLF + line] else blocks + [line]
  }

  function Blocks(lines: seq<Bytes>): seq<Bytes> {
    if lines == [] then [] else AddLine(Blocks(lines[..|lines| - 1]), lines[|lines| - 1])
  }

  function FindColon(s: Bytes): (p: nat)
    ensures p <= |s|
    ensures p < |s| ==> s[p] == COLON
    ensures COLON !in s[..p]
  {
    if s == [] || s[0] == COLON then 0 else 1 + FindColon(s[1..])
  }

  function FieldsOf(blocks: seq<Bytes>): seq<HeaderField> {
    if blocks == [] then []
    else
      var block := blocks[0];
      var p := FindColon(block);
      (if p == |block| then [] else [HeaderField(Trim(block[..p]), block[p + 1..])]) + FieldsOf(blocks[1..])
  }

  function ParseFields(headers: Bytes): seq<HeaderField> {
    FieldsOf(Blocks(Split(headers)))
  }

  /** The blocks so far, the last one still open. */
  function OpenBlocks(started: bool, blocks: seq<Bytes>, current: Bytes): seq<Bytes> {
    if started then blocks + [current] else []
  }

  lemma BlocksNext(lines: seq<Bytes>, i: nat)
    requires i < |lines|
    ensures Blocks(lines[..i + 1]) == AddLine(Blocks(lines[..i]), lines[i])
  {
    hide AddLine;
    assert lines[..i + 1][..i] == lines[..i];
  }

  lemma ContinueBlock(blocks: seq<Bytes>, current: Bytes, line: Bytes)
    requires Continues(line)
    ensures AddLine(blocks + [current], line) == blocks + [current + CRLF + line]
  {
    assert (blocks + [current])[..|blocks|] == blocks;
  }

  /** A line that starts with a space (32) or a tab (9) continues the block before it,
      behind CRLF; any other starts a block. */
  lemma FoldingExactly(blocks: seq<Bytes>, last: Bytes, line: Bytes)
    ensures AddLine(blocks + [last], line)
         == if line != [] && line[0] in {9, 32} then blocks + [last + [13, 10] + line] else blocks + [last] + [line]
    ensures AddLine([], line) == [line]
  {
    assert (blocks + [last])[..|blocks|] == blocks;
  }

  /** The accumulator loop of `parse_fields`. */
  method CollectBlocks(lines: seq<Bytes>) returns (blocks: seq<Bytes>)
    ensures blocks == Blocks(lines)
  {
    hide Blocks;
    blocks := [];
    var current: Bytes := [];
    var started := false;
    var i := 0;
    NoBlocks(lines);
    while i < |lines|
      invariant 0 <= i <= |lines|
      invariant Blocks(lines[..i]) == OpenBlocks(started, blocks, current)
      invariant !started ==> blocks == []
    {
      var line := lines[i];
      BlocksNext(lines, i);
      if Continues(line) && started {
        ContinueBlock(blocks, current, line);
        current := current + CRLF;
        current := current + line;
      } else {
        if started {
          blocks := blocks + [current];
        }
        current := line;
        started := true;
      }
      i := i + 1;
    }
    assert lines[..i] == lines;
    if started {
      blocks := blocks + [current];
    }
  }

  lemma NoBlocks(lines: seq<Bytes>)
    ensures Blocks(lines[..0]) == []
  {
  }

  lemma {:induction false} BlocksCons(line: Bytes, lines: seq<Bytes>)
    requires lines == [] || !Continues(lines[0])
    ensures Blocks([line] + lines) == [line] + Blocks(lines)
  {
    var all := [line] + lines;
    if lines == [] {
      assert all[..0] == [];
      assert Blocks(all) == AddLine([], line);
    } else {
      var n := |lines| - 1;
      assert all[..n + 1] == [line] + lines[..n];
      BlocksCons(line, lines[..n]);
      var blocks := Blocks(lines[..n]);
      assert n > 0 ==> blocks != [];
      AddLineCons(line, blocks, lines[n]);
    }
  }

  lemma AddLineCons(first: Bytes, blocks: seq<Bytes>, line: Bytes)
    requires blocks != [] || !Continues(line)
    ensures AddLine([first] + blocks, line) == [first] + AddLine(blocks, line)
  {
    if blocks != [] && Continues(line) {
      var n := |blocks| - 1;
      assert ([first] + blocks)[..n + 1] == [first] + blocks[..n];
    }
  }

  /** Prepending a line to a header section prepends its field to the parse. */
  lemma PrependParses(line: Bytes, headers: Bytes)
    requires NoCrlf(line)
    requires headers == [] || !Wsp(headers[0])
    ensures ParseFields(line + CRLF + headers) == FieldsOf([line]) + ParseFields(headers)
  {
    hide Split, Blocks, FieldsOf, Continues, NoCrlf;
    SplitConcat(line, headers);
    SplitWhole(line);
    FirstSegmentStart(headers);
    BlocksCons(line, Split(headers));
    FieldsOfCons(line, Blocks(Split(headers)));
  }

  lemma FieldsOfCons(block: Bytes, blocks: seq<Bytes>)
    ensures FieldsOf([block] + blocks) == FieldsOf([block]) + FieldsOf(blocks)
  {
    hide FindColon, Trim;
    assert ([block] + blocks)[1..] == blocks;
    assert [block][1..] == [];
  }

  lemma FirstSegmentStart(s: Bytes)
    requires s == [] || !Wsp(s[0])
    ensures !Continues(Split(s)[0])
  {
  }

  /** The field of a line with a colon. */
  function LineField(line: Bytes): HeaderField
    requires COLON in line
  {
    ColonFound(line);
    var p := FindColon(line);
    HeaderField(Trim(line[..p]), line[p + 1..])
  }

  lemma OneField(line: Bytes)
    requires COLON in line
    ensures FieldsOf([line]) == [LineField(line)]
  {
    ColonFound(line);
    assert [line][1..] == [];
  }

  /** A block is a field exactly if it has a colon: trimmed name before the first
      one, value as it stands behind it. */
  lemma FieldExactly(name: Bytes, value: Bytes)
    requires 58 !in name
    ensures FieldsOf([name + [58] + value]) == [HeaderField(Trim(name), value)] && FieldsOf([name]) == []
  {
    var block := name + [58] + value;
    assert block[|name|] == COLON;
    ColonFound(block);
    var p := FindColon(block);
    assert block[..p] == name && block[p + 1..] == value;
    assert [block][1..] == [] && [name][1..] == [];
    assert FindColon(name) == |name|;
  }

  /** `prepend_header` then verify: a trace line leaves the hash input unchanged
      if and only if `h=` names its field no more often than it already occurs. */
  lemma PrependedLine(line: Bytes, headers: Bytes, sig: Signature)
    requires NoCrlf(line) && COLON in line
    requires headers == [] || !Wsp(headers[0])
    requires sig.index < |ParseFields(headers)|
    ensures var fields := ParseFields(headers);
            var fields' := ParseFields(line + CRLF + headers);
            && fields' == [LineField(line)] + fields
            && (HashInput(fields', Below(sig, 1)) == HashInput(fields, sig) <==> Covered(fields, sig, LowerName(LineField(line).name)))
  {
    hide NoCrlf, ParseFields, FieldsOf, HashInput, Covered, LineField;
    PrependParses(line, headers);
    OneField(line);
    PrependedField(LineField(line), ParseFields(headers), sig);
  }

  lemma {:induction false} ColonFound(s: Bytes)
    requires COLON in s
    ensures FindColon(s) < |s|
  {
    if s[0] != COLON { ColonFound(s[1..]); }
  }
}
