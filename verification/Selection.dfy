/**
 The selection rule of section 5.4.2 of RFC 6376 over abstract keys: each mention
 of a key takes the bottom-most field of that key not taken yet.
 */
module Selection {
  import opened Text

  predicate IsCandidate<K(==)>(keys: seq<K>, skip: nat, key: K, i: nat)
    requires i < |keys|
  {
    i != skip && keys[i] == key
  }

  /** The indices below `n` holding `key`, bottom-up, without `skip`. */
  function CandidatesBelow<K(==)>(keys: seq<K>, skip: nat, key: K, n: nat): (r: seq<nat>)
    requires n <= |keys|
    ensures forall k :: 0 <= k < |r| ==> r[k] < n
  {
    if n == 0 then []
    else (if IsCandidate(keys, skip, key, n - 1) then [n - 1] else []) + CandidatesBelow(keys, skip, key, n - 1)
  }

  function Candidates<K(==)>(keys: seq<K>, skip: nat, key: K): (r: seq<nat>)
    ensures forall k :: 0 <= k < |r| ==> r[k] < |keys|
  {
    CandidatesBelow(keys, skip, key, |keys|)
  }

  /** How often the first `j` entries of `wanted` mention `key`. */
  function Mentions<K(==)>(wanted: seq<K>, key: K, j: nat): (r: nat)
    requires j <= |wanted|
  {
    if j == 0 then 0 else Mentions(wanted, key, j - 1) + if wanted[j - 1] == key then 1 else 0
  }

  /** The k-th mention of a key takes its k-th field counted from the bottom. */
  function Pick<K(==)>(keys: seq<K>, skip: nat, wanted: seq<K>, j: nat): (r: Option<nat>)
    requires j < |wanted|
    ensures r.Some? ==> r.value < |keys|
  {
    Nth(Candidates(keys, skip, wanted[j]), Mentions(wanted, wanted[j], j))
  }

  function Nth<T>(s: seq<T>, k: nat): Option<T> {
    if k < |s| then Some(s[k]) else None
  }

  /** Exactly the matching indices below `n`, strictly descending. */
  ghost predicate Lists<K>(keys: seq<K>, skip: nat, key: K, n: nat, r: seq<nat>)
    requires n <= |keys|
  {
    && (forall k :: 0 <= k < |r| ==> r[k] < n && IsCandidate(keys, skip, key, r[k]))
    && (forall k, l :: 0 <= k < l < |r| ==> r[k] > r[l])
    && (forall i :: 0 <= i < n && IsCandidate(keys, skip, key, i) ==> i in r)
  }

  lemma ListsMore<K>(keys: seq<K>, skip: nat, key: K, n: nat, r: seq<nat>)
    requires n < |keys| && Lists(keys, skip, key, n, r) && IsCandidate(keys, skip, key, n)
    ensures Lists(keys, skip, key, n + 1, [n] + r)
  {
    hide IsCandidate;
    var s := [n] + r;
    assert s[0] == n && forall k :: 0 < k < |s| ==> s[k] == r[k - 1];
  }

  lemma ListsSame<K>(keys: seq<K>, skip: nat, key: K, n: nat, r: seq<nat>)
    requires n < |keys| && Lists(keys, skip, key, n, r) && !IsCandidate(keys, skip, key, n)
    ensures Lists(keys, skip, key, n + 1, [] + r)
  {
    hide IsCandidate;
    assert [] + r == r;
  }

  /** Candidates are exactly the matching indices, strictly descending. */
  lemma {:induction false} CandidatesExact<K>(keys: seq<K>, skip: nat, key: K, n: nat)
    requires n <= |keys|
    ensures Lists(keys, skip, key, n, CandidatesBelow(keys, skip, key, n))
  {
    hide Lists, IsCandidate;
    if n == 0 {
      NoneListed(keys, skip, key);
    } else {
      var rest := CandidatesBelow(keys, skip, key, n - 1);
      CandidatesExact(keys, skip, key, n - 1);
      if IsCandidate(keys, skip, key, n - 1) { ListsMore(keys, skip, key, n - 1, rest); } else { ListsSame(keys, skip, key, n - 1, rest); }
    }
  }

  lemma NoneListed<K>(keys: seq<K>, skip: nat, key: K)
    ensures Lists(keys, skip, key, 0, [])
  {
  }

  lemma CandidateAt<K>(keys: seq<K>, skip: nat, key: K, k: nat)
    requires k < |Candidates(keys, skip, key)|
    ensures IsCandidate(keys, skip, key, Candidates(keys, skip, key)[k])
  {
    CandidatesExact(keys, skip, key, |keys|);
    assert Candidates(keys, skip, key) == CandidatesBelow(keys, skip, key, |keys|);
  }

  lemma CandidateUnique<K>(keys: seq<K>, skip: nat, key: K, k: nat, l: nat)
    requires k < |Candidates(keys, skip, key)| && l < |Candidates(keys, skip, key)|
    requires Candidates(keys, skip, key)[k] == Candidates(keys, skip, key)[l]
    ensures k == l
  {
    CandidatesExact(keys, skip, key, |keys|);
    assert Candidates(keys, skip, key) == CandidatesBelow(keys, skip, key, |keys|);
  }

  lemma {:induction false} MentionsMonotone<K>(wanted: seq<K>, key: K, i: nat, j: nat)
    requires i <= j <= |wanted|
    ensures Mentions(wanted, key, i) <= Mentions(wanted, key, j)
    ensures i < j && wanted[i] == key ==> Mentions(wanted, key, i) < Mentions(wanted, key, j)
    decreases j - i
  {
    if i < j { MentionsMonotone(wanted, key, i, j - 1); }
  }

  /** No field is taken twice, and never the one to skip. */
  lemma PicksAreDistinct<K>(keys: seq<K>, skip: nat, wanted: seq<K>, i: nat, j: nat)
    requires i < j < |wanted|
    requires Pick(keys, skip, wanted, i).Some? && Pick(keys, skip, wanted, j).Some?
    ensures Pick(keys, skip, wanted, i) != Pick(keys, skip, wanted, j)
    ensures Pick(keys, skip, wanted, i) != Some(skip)
  {
    var ki, kj := Mentions(wanted, wanted[i], i), Mentions(wanted, wanted[j], j);
    CandidateAt(keys, skip, wanted[i], ki);
    CandidateAt(keys, skip, wanted[j], kj);
    if Pick(keys, skip, wanted, i) == Pick(keys, skip, wanted, j) {
      MentionsMonotone(wanted, wanted[i], i, j);
      CandidateUnique(keys, skip, wanted[i], ki, kj);
    }
  }

  // ------------------------------------------------------------ consumed sets

  /** `consumed` holds exactly what the first `j` mentions took. */
  ghost predicate ConsumedBy<K>(keys: seq<K>, skip: nat, wanted: seq<K>, j: nat, consumed: set<nat>)
    requires j <= |wanted|
  {
    forall c :: c in consumed <==> TakenBefore(keys, skip, wanted, j, c)
  }

  ghost predicate TakenBefore<K>(keys: seq<K>, skip: nat, wanted: seq<K>, j: nat, c: nat)
    requires j <= |wanted|
  {
    exists i :: 0 <= i < j && Pick(keys, skip, wanted, i) == Some(c)
  }

  lemma ConsumeNext<K>(keys: seq<K>, skip: nat, wanted: seq<K>, j: nat, consumed: set<nat>)
    requires j < |wanted| && ConsumedBy(keys, skip, wanted, j, consumed)
    ensures var pick := Pick(keys, skip, wanted, j);
            ConsumedBy(keys, skip, wanted, j + 1, if pick.Some? then consumed + {pick.value} else consumed)
  {
    var pick := Pick(keys, skip, wanted, j);
    forall c: nat
      ensures TakenBefore(keys, skip, wanted, j + 1, c) <==> TakenBefore(keys, skip, wanted, j, c) || pick == Some(c)
    {
    }
  }

  lemma {:induction false} MentionNumber<K>(wanted: seq<K>, key: K, j: nat, k: nat) returns (i: nat)
    requires j <= |wanted| && k < Mentions(wanted, key, j)
    ensures i < j && wanted[i] == key && Mentions(wanted, key, i) == k
  {
    if k < Mentions(wanted, key, j - 1) {
      i := MentionNumber(wanted, key, j - 1, k);
    } else {
      i := j - 1;
    }
  }

  /** Of one key's candidates, exactly the first (bottom-most) ones are consumed. */
  lemma ConsumedPrefix<K>(keys: seq<K>, skip: nat, wanted: seq<K>, j: nat, key: K, k: nat)
    requires j <= |wanted| && k < |Candidates(keys, skip, key)|
    ensures TakenBefore(keys, skip, wanted, j, Candidates(keys, skip, key)[k]) <==> k < Mentions(wanted, key, j)
  {
    var cs := Candidates(keys, skip, key);
    if k < Mentions(wanted, key, j) {
      var i := MentionNumber(wanted, key, j, k);
      assert Pick(keys, skip, wanted, i) == Some(cs[k]);
    }
    if TakenBefore(keys, skip, wanted, j, cs[k]) {
      var i :| 0 <= i < j && Pick(keys, skip, wanted, i) == Some(cs[k]);
      TakenAs(keys, skip, wanted, i, key, k);
      MentionsMonotone(wanted, key, i, j);
    }
  }

  lemma TakenAs<K>(keys: seq<K>, skip: nat, wanted: seq<K>, i: nat, key: K, k: nat)
    requires i < |wanted| && k < |Candidates(keys, skip, key)|
    requires Pick(keys, skip, wanted, i) == Some(Candidates(keys, skip, key)[k])
    ensures wanted[i] == key && Mentions(wanted, key, i) == k
  {
    var l := Mentions(wanted, wanted[i], i);
    CandidateAt(keys, skip, key, k);
    CandidateAt(keys, skip, wanted[i], l);
    CandidateUnique(keys, skip, key, k, l);
  }

  /** `pick` is the highest unconsumed candidate, or there is none. */
  ghost predicate LastFree<K>(keys: seq<K>, skip: nat, consumed: set<nat>, key: K, pick: Option<nat>) {
    match pick
    case None => forall i :: 0 <= i < |keys| && IsCandidate(keys, skip, key, i) ==> i in consumed
    case Some(p) =>
      && p < |keys| && p !in consumed && IsCandidate(keys, skip, key, p)
      && forall i :: p < i < |keys| && IsCandidate(keys, skip, key, i) ==> i in consumed
  }

  /** The reverse search. */
  method FindLast<K(==)>(keys: seq<K>, skip: nat, consumed: set<nat>, key: K) returns (pick: Option<nat>)
    ensures LastFree(keys, skip, consumed, key, pick)
  {
    var i := |keys|;
    while i > 0
      invariant 0 <= i <= |keys|
      invariant forall l :: i <= l < |keys| && IsCandidate(keys, skip, key, l) ==> l in consumed
    {
      i := i - 1;
      if i != skip && i !in consumed && keys[i] == key {
        return Some(i);
      }
    }
    pick := None;
  }

  /** The pick is the highest candidate not taken before, if there is one. */
  lemma PickIsLowest<K>(keys: seq<K>, skip: nat, wanted: seq<K>, j: nat)
    requires j < |wanted|
    ensures match Pick(keys, skip, wanted, j)
            case None =>
              forall i :: 0 <= i < |keys| && IsCandidate(keys, skip, wanted[j], i) ==> TakenBefore(keys, skip, wanted, j, i)
            case Some(p) =>
              && IsCandidate(keys, skip, wanted[j], p) && !TakenBefore(keys, skip, wanted, j, p)
              && forall i :: p < i < |keys| && IsCandidate(keys, skip, wanted[j], i) ==> TakenBefore(keys, skip, wanted, j, i)
  {
    var key := wanted[j];
    var cs, k := Candidates(keys, skip, key), Mentions(wanted, key, j);
    CandidatesExact(keys, skip, key, |keys|);
    forall l | 0 <= l < |cs| ensures TakenBefore(keys, skip, wanted, j, cs[l]) <==> l < k {
      ConsumedPrefix(keys, skip, wanted, j, key, l);
    }
    hide TakenBefore, Mentions;
    forall i | 0 <= i < |keys| && IsCandidate(keys, skip, key, i) && !TakenBefore(keys, skip, wanted, j, i)
      ensures k < |cs| && i <= cs[k]
    {
      var l :| 0 <= l < |cs| && cs[l] == i;
    }
  }

  lemma SearchFindsPick<K>(keys: seq<K>, skip: nat, wanted: seq<K>, j: nat, consumed: set<nat>, pick: Option<nat>)
    requires j < |wanted| && ConsumedBy(keys, skip, wanted, j, consumed)
    requires LastFree(keys, skip, consumed, wanted[j], pick)
    ensures pick == Pick(keys, skip, wanted, j)
  {
    var cs := Candidates(keys, skip, wanted[j]);
    var k := Mentions(wanted, wanted[j], j);
    CandidatesExact(keys, skip, wanted[j], |keys|);
    assert cs == CandidatesBelow(keys, skip, wanted[j], |keys|);
    forall l | 0 <= l < |cs| ensures cs[l] in consumed <==> l < k {
      ConsumedPrefix(keys, skip, wanted, j, wanted[j], l);
    }
    assert Pick(keys, skip, wanted, j) == Nth(cs, k);
    if pick.None? {
      assert forall l :: 0 <= l < |cs| ==> cs[l] in consumed;
      assert |cs| > 0 ==> cs[|cs| - 1] in consumed;
    } else {
      assert pick.value in cs;
      var l :| 0 <= l < |cs| && cs[l] == pick.value;
      assert k <= l && cs[k] !in consumed;
      assert IsCandidate(keys, skip, wanted[j], cs[k]);
      assert cs[k] <= pick.value;
    }
  }

  // ---------------------------------------------------------- prepended fields

  lemma {:induction false} CandidatesShift<K>(t: K, keys: seq<K>, skip: nat, key: K, n: nat)
    requires n <= |keys|
    ensures var below := CandidatesBelow(keys, skip, key, n);
            var shifted := CandidatesBelow([t] + keys, skip + 1, key, n + 1);
            && |shifted| == |below| + (if t == key then 1 else 0)
            && (forall k :: 0 <= k < |below| ==> shifted[k] == below[k] + 1)
            && (t == key ==> shifted[|below|] == 0)
  {
    if n == 0 {
      ShiftNone(t, keys, skip, key);
    } else {
      CandidatesShift(t, keys, skip, key, n - 1);
      ShiftOne(t, keys, skip, key, n);
      hide CandidatesBelow, IsCandidate;
    }
  }

  lemma ShiftNone<K>(t: K, keys: seq<K>, skip: nat, key: K)
    ensures CandidatesBelow(keys, skip, key, 0) == []
    ensures CandidatesBelow([t] + keys, skip + 1, key, 1) == if t == key then [0] else []
  {
    assert CandidatesBelow([t] + keys, skip + 1, key, 0) == [];
    assert IsCandidate([t] + keys, skip + 1, key, 0) <==> t == key;
  }

  /** One more key on either side. */
  lemma ShiftOne<K>(t: K, keys: seq<K>, skip: nat, key: K, n: nat)
    requires 0 < n <= |keys|
    ensures var found := IsCandidate(keys, skip, key, n - 1);
            && CandidatesBelow(keys, skip, key, n) == (if found then [n - 1] else []) + CandidatesBelow(keys, skip, key, n - 1)
            && CandidatesBelow([t] + keys, skip + 1, key, n + 1)
               == (if found then [n] else []) + CandidatesBelow([t] + keys, skip + 1, key, n)
  {
    assert ([t] + keys)[n] == keys[n - 1];
    assert IsCandidate(keys, skip, key, n - 1) == IsCandidate([t] + keys, skip + 1, key, n);
    hide IsCandidate;
  }

  lemma CandidatesPrepend<K>(t: K, keys: seq<K>, skip: nat, key: K, keys': seq<K>)
    requires keys' == [t] + keys
    ensures var cs, cs' := Candidates(keys, skip, key), Candidates(keys', skip + 1, key);
            && |cs'| == |cs| + (if t == key then 1 else 0)
            && (forall k :: 0 <= k < |cs| ==> cs'[k] == cs[k] + 1)
            && (t == key ==> cs'[|cs|] == 0)
  {
    CandidatesShift(t, keys, skip, key, |keys|);
    assert Candidates(keys, skip, key) == CandidatesBelow(keys, skip, key, |keys|);
    assert Candidates(keys', skip + 1, key) == CandidatesBelow(keys', skip + 1, key, |keys| + 1);
  }

  /** A key is mentioned too often exactly if some mention finds no field left. */
  lemma ReachesWitness<K>(keys: seq<K>, skip: nat, wanted: seq<K>, t: K)
    ensures Mentions(wanted, t, |wanted|) <= |Candidates(keys, skip, t)| <==> Unmet(keys, skip, wanted, t) == {}
  {
    var room := |Candidates(keys, skip, t)|;
    if Mentions(wanted, t, |wanted|) > room {
      var n := MentionNumber(wanted, t, |wanted|, room);
      assert n in Unmet(keys, skip, wanted, t);
    } else {
      forall n | n in Unmet(keys, skip, wanted, t) ensures false {
        MentionsMonotone(wanted, t, n, |wanted|);
      }
    }
  }

  ghost function Unmet<K>(keys: seq<K>, skip: nat, wanted: seq<K>, t: K): set<nat> {
    set n: nat | n < |wanted| && FirstWithout(keys, skip, wanted, t, n)
  }

  /** Entry `n` is the first mention of `t` that finds no field left. */
  ghost predicate FirstWithout<K>(keys: seq<K>, skip: nat, wanted: seq<K>, t: K, n: nat)
    requires n < |wanted|
  {
    wanted[n] == t && Mentions(wanted, t, n) == |Candidates(keys, skip, t)|
  }

  lemma NthShift(cs: seq<nat>, cs': seq<nat>, k: nat, grown: bool)
    requires |cs'| == |cs| + (if grown then 1 else 0)
    requires forall l :: 0 <= l < |cs| ==> cs'[l] == cs[l] + 1
    requires grown ==> cs'[|cs|] == 0
    ensures Nth(cs', k) == if k < |cs| then Some(cs[k] + 1) else if grown && k == |cs| then Some(0) else None
  {
  }

  /** Prepending a key moves every pick up by one, and is itself picked exactly
      by the first mention that finds its name exhausted. */
  lemma PickShift<K>(t: K, keys: seq<K>, skip: nat, wanted: seq<K>, j: nat, keys': seq<K>)
    requires j < |wanted| && keys' == [t] + keys
    ensures var was, now := Pick(keys, skip, wanted, j), Pick(keys', skip + 1, wanted, j);
            && (was.Some? ==> now == Some(was.value + 1))
            && (FirstWithout(keys, skip, wanted, t, j) ==> was == None && now == Some(0))
            && (was.None? && !FirstWithout(keys, skip, wanted, t, j) ==> now == None)
  {
    var cs, cs' := Candidates(keys, skip, wanted[j]), Candidates(keys', skip + 1, wanted[j]);
    CandidatesPrepend(t, keys, skip, wanted[j], keys');
    NthShift(cs, cs', Mentions(wanted, wanted[j], j), t == wanted[j]);
  }
}
