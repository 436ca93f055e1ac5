/** Small arithmetic, and IP addresses with their networks. */
module Networks {

  function Min(a: int, b: int): int { if a < b then a else b }

  function Pow2(k: nat): (r: nat)
    ensures r > 0
  {
    if k == 0 then 1 else 2 * Pow2(k - 1)
  }

  /** An address as the integer its octets spell. */
  datatype IpAddr = V4(a4: nat) | V6(a6: nat)

  /** `cidr4`/`cidr6`: masking both addresses keeps their leading `prefix` of
      `width` bits, so equality under the mask is equality of the quotients. */
  predicate Cidr(width: nat, net: nat, prefix: nat, ip: nat) {
    prefix == 0 || (prefix <= width && net / Pow2(width - prefix) == ip / Pow2(width - prefix))
  }

  /** The bit of weight `2^i`. */
  function Bit(n: nat, i: nat): nat
    decreases i
  {
    if i == 0 then n % 2 else Bit(n / 2, i - 1)
  }

  /** All bits above the lowest `k` are equal. */
  ghost predicate SameFrom(a: nat, b: nat, k: nat) {
    forall i: nat :: k <= i ==> Bit(a, i) == Bit(b, i)
  }

  lemma SameFromHalf(a: nat, b: nat, k: nat)
    requires k > 0
    ensures SameFrom(a, b, k) <==> SameFrom(a / 2, b / 2, k - 1)
  {
    forall i: nat ensures Bit(a, i + 1) == Bit(a / 2, i) && Bit(b, i + 1) == Bit(b / 2, i) {
    }
    hide Bit;
    if SameFrom(a, b, k) {
      forall i: nat | k - 1 <= i ensures Bit(a / 2, i) == Bit(b / 2, i) {
        assert Bit(a, i + 1) == Bit(b, i + 1);
      }
    }
    if SameFrom(a / 2, b / 2, k - 1) {
      forall i: nat | k <= i ensures Bit(a, i) == Bit(b, i) {
        assert Bit(a, (i - 1) + 1) == Bit(b, (i - 1) + 1);
      }
    }
  }

  lemma {:induction false} SameBitsSameNumber(a: nat, b: nat)
    requires SameFrom(a, b, 0)
    ensures a == b
    decreases a + b
  {
    if a + b > 0 {
      forall i: nat ensures Bit(a / 2, i) == Bit(b / 2, i) {
        assert Bit(a, i + 1) == Bit(b, i + 1);
      }
      SameBitsSameNumber(a / 2, b / 2);
      assert Bit(a, 0) == Bit(b, 0);
    }
  }

  lemma HalfOfQuotient(a: nat, p: nat)
    requires p > 0
    ensures a / (2 * p) == (a / 2) / p
  {
    var q, r := (a / 2) / p, (a / 2) % p;
    assert a / 2 == p * q + r;
    assert p * (2 * q) == (2 * p) * q;
    QuotientIs(a, 2 * p, q, 2 * r + a % 2);
  }

  lemma QuotientIs(a: int, p: int, q: int, r: int)
    requires 0 <= r < p && a == p * q + r
    ensures a / p == q
  {
    var d := a / p - q;
    assert p * d == p * (a / p) - p * q;
    assert a == p * (a / p) + a % p;
    assert -p < p * d < p;
    if d != 0 { MultipleIsFar(p, d); }
  }

  lemma MultipleIsFar(p: int, d: int)
    requires p > 0 && d != 0
    ensures p * d >= p || p * d <= -p
  {
  }

  lemma {:induction false} QuotientIsBits(a: nat, b: nat, k: nat)
    ensures a / Pow2(k) == b / Pow2(k) <==> SameFrom(a, b, k)
    decreases k
  {
    if k == 0 {
      if SameFrom(a, b, 0) { SameBitsSameNumber(a, b); }
    } else {
      SameFromHalf(a, b, k);
      HalfOfQuotient(a, Pow2(k - 1));
      HalfOfQuotient(b, Pow2(k - 1));
      QuotientIsBits(a / 2, b / 2, k - 1);
    }
  }

  /** In a network: equal in all bits but the lowest `width - prefix`. Prefix 0 is
      the whole address space and a prefix beyond the width holds nothing. */
  lemma CidrIsBits(width: nat, net: nat, prefix: nat, ip: nat)
    ensures Cidr(width, net, prefix, ip)
       <==> prefix == 0 || (prefix <= width && SameFrom(net, ip, width - prefix))
  {
    if prefix <= width { QuotientIsBits(net, ip, width - prefix); }
  }

  predicate IpInNet(client: IpAddr, net: IpAddr, v4: nat, v6: nat) {
    match (client, net)
    case (V4(c), V4(n)) => Cidr(32, n, v4, c)
    case (V6(c), V6(n)) => Cidr(128, n, v6, c)
    case _ => false
  }
}
