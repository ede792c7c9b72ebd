/** Python's bit operators on non-negative integers, and numbers as lists of bits. */
module Bits {

  function Pow2(k: nat): (p: nat)
    ensures p > 0
  {
    if k == 0 then 1 else 2 * Pow2(k - 1)
  }

  function Or(a: nat, b: nat): nat {
    if a == 0 && b == 0 then 0 else 2 * Or(a / 2, b / 2) + (if a % 2 == 1 || b % 2 == 1 then 1 else 0)
  }

  function And(a: nat, b: nat): nat {
    if a == 0 || b == 0 then 0 else 2 * And(a / 2, b / 2) + (if a % 2 == 1 && b % 2 == 1 then 1 else 0)
  }

  lemma QuotientNonNegative(n: nat, p: nat)
    requires p > 0
    ensures n / p >= 0
  {
    var q := n / p;
    assert n == q * p + n % p;
    assert (q + 1) * p == q * p + p;
    assert q < 0 ==> (q + 1) * p <= 0;
  }

  lemma ProductNonNegative(n: nat, p: nat)
    ensures n * p >= 0
  {
  }

  function ShiftRight(n: nat, k: nat): nat {
    var p := Pow2(k);
    QuotientNonNegative(n, p);
    n / p
  }

  function ShiftLeft(n: nat, k: nat): nat {
    var p := Pow2(k);
    ProductNonNegative(n, p);
    n * p
  }

  type Bit = b: int | b == 0 || b == 1

  lemma AndOne(n: nat)
    ensures And(n, 1) == n % 2
  {
    if n != 0 { assert And(n / 2, 0) == 0; }
  }

  lemma {:induction false} OrZero(n: nat)
    ensures Or(n, 0) == n
  {
    if n != 0 { OrZero(n / 2); }
  }

  /** Masking with all ones keeps a number that fits. */
  lemma {:induction false} AndAllOnes(n: nat, k: nat)
    requires n < Pow2(k)
    ensures And(n, Pow2(k) - 1) == n
  {
    if n > 0 {
      var p := Pow2(k - 1);
      AndAllOnes(n / 2, k - 1);
      assert (2 * p - 1) / 2 == p - 1 && (2 * p - 1) % 2 == 1;
      assert And(n, 2 * p - 1) == 2 * And(n / 2, p - 1) + n % 2;
    }
  }

  /** Setting a bit below a multiple of a higher power is adding it. */
  lemma {:induction false} OrBit(m: nat, b: Bit, k: nat)
    ensures Or(m * Pow2(k + 1), ShiftLeft(b, k)) == m * Pow2(k + 1) + ShiftLeft(b, k)
  {
    var a, c := m * Pow2(k + 1), ShiftLeft(b, k);
    assert a == 2 * (m * Pow2(k)) by { Regroup(m, Pow2(k)); }
    if k == 0 {
      assert a / 2 == m * Pow2(0) && a % 2 == 0;
      OrZero(a / 2);
      if a == 0 && c == 0 {} else { assert c / 2 == 0 && c % 2 == c; }
    } else {
      OrBit(m, b, k - 1);
      assert c == 2 * ShiftLeft(b, k - 1) by { Regroup(b, Pow2(k - 1)); }
      assert a / 2 == m * Pow2(k) && c / 2 == ShiftLeft(b, k - 1) && a % 2 == 0 && c % 2 == 0;
    }
  }

  lemma {:induction false} PowersMultiply(a: nat, b: nat)
    ensures Pow2(a) * Pow2(b) == Pow2(a + b)
  {
    if a > 0 {
      PowersMultiply(a - 1, b);
      Regroup(Pow2(b), Pow2(a - 1));
    }
  }

  lemma Regroup(m: int, p: int)
    ensures m * (2 * p) == 2 * (m * p)
  {
  }

  /** The bit of weight 2^k. */
  function BitAt(n: nat, k: nat): Bit { ShiftRight(n, k) % 2 }

  /** `width` bits, most significant first. */
  function BitsOf(n: nat, width: nat): (bs: seq<Bit>)
    ensures |bs| == width
  {
    if width == 0 then [] else [BitAt(n, width - 1)] + BitsOf(n, width - 1)
  }

  function NumberOf(bs: seq<Bit>): nat {
    if bs == [] then 0 else bs[0] * Pow2(|bs| - 1) + NumberOf(bs[1..])
  }

  /** n mod 2^w splits into its top bit and the rest. */
  lemma TopBit(n: nat, w: nat)
    ensures n % Pow2(w + 1) == BitAt(n, w) * Pow2(w) + n % Pow2(w)
  {
    var p := Pow2(w);
    var q, r := n / p, n % p;
    assert n == q * p + r;
    var h, b := q / 2, q % 2;
    assert q == 2 * h + b;
    assert n == h * (2 * p) + (b * p + r) by {
      assert (2 * h + b) * p == h * (2 * p) + b * p;
    }
    assert 0 <= b * p + r < 2 * p;
    UniqueRemainder(n, 2 * p, h, b * p + r);
  }

  lemma {:induction false} Gap(q: int, k: int, d: int)
    requires q < k && d > 0
    ensures k * d >= q * d + d
    decreases k - q
  {
    assert k * d == (k - 1) * d + d;
    if q < k - 1 { Gap(q, k - 1, d); }
  }

  lemma SameDivision(d: int, q: int, r: int, k: int, s: int)
    requires d > 0 && q * d + r == k * d + s && 0 <= r < d && 0 <= s < d
    ensures k == q && s == r
  {
    if k > q {
      Gap(q, k, d);
    } else if k < q {
      Gap(k, q, d);
    }
  }

  lemma UniqueRemainder(n: int, d: int, q: int, r: int)
    requires d > 0 && n == q * d + r && 0 <= r < d
    ensures n / d == q && n % d == r
  {
    var k, s := n / d, n % d;
    assert n == k * d + s;
    SameDivision(d, q, r, k, s);
  }

  /** Reading the bits back gives the number modulo 2^width. */
  lemma {:induction false} BitsRoundTrip(n: nat, width: nat)
    ensures NumberOf(BitsOf(n, width)) == n % Pow2(width)
  {
    if width > 0 {
      BitsRoundTrip(n, width - 1);
      TopBit(n, width - 1);
    }
  }

  lemma {:induction false} NumberBound(bs: seq<Bit>)
    ensures NumberOf(bs) < Pow2(|bs|)
  {
    if bs != [] {
      NumberBound(bs[1..]);
      if bs[0] == 1 { assert bs[0] * Pow2(|bs| - 1) == Pow2(|bs| - 1); }
    }
  }
}
