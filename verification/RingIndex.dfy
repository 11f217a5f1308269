/** Free-running 32-bit ring indices and the positions they stand for. */
module RingIndex {
  import opened Bytes

  /** Ring sizes are powers of two below 2^32; `x & (n - 1)` is then `x % n`. */
  ghost predicate RingSize(n: nat) {
    exists k: nat :: k < 32 && n == Pow2(k)
  }

  function Wrap(p: nat): u32 {
    p % TWO32
  }

  /** The wrapped difference of two indices. */
  function Minus(a: u32, b: u32): u32 {
    (a - b) % TWO32
  }

  function Successor(a: u32): u32 {
    (a + 1) % TWO32
  }

  lemma Doubled(x: nat, y: nat)
    ensures (2 * x) * y == 2 * (x * y)
  {
  }

  lemma {:induction false} PowerAdds(a: nat, b: nat)
    ensures Pow2(a + b) == Pow2(a) * Pow2(b)
    decreases a
  {
    if a > 0 {
      PowerAdds(a - 1, b);
      Doubled(Pow2(a - 1), Pow2(b));
    }
  }

  lemma {:induction false} PowerAtLeast(k: nat)
    ensures Pow2(k) >= 1 && (k > 0 ==> Pow2(k) >= 2)
    decreases k
  {
    if k > 0 {
      PowerAtLeast(k - 1);
    }
  }

  lemma Pow2Of32()
    ensures Pow2(32) == TWO32
  {
    assert Pow2(8) == 256;
    PowerAdds(8, 8);
    PowerAdds(16, 16);
  }

  lemma Product(n: nat, q: nat)
    requires n >= 1 && q >= 2
    ensures n < n * q
  {
  }

  lemma SizeDivides(n: nat) returns (q: nat)
    requires RingSize(n)
    ensures 0 < n < TWO32 && TWO32 == n * q
  {
    hide Pow2;
    var k: nat :| k < 32 && n == Pow2(k);
    q := Pow2(32 - k);
    PowerAdds(k, 32 - k);
    Pow2Of32();
    PowerAtLeast(k);
    PowerAtLeast(32 - k);
    Product(n, q);
  }

  lemma Multiples(n: nat, d: int)
    ensures d >= 1 ==> n * d >= n
    ensures d <= 0 ==> n * d <= 0
  {
  }

  lemma ModFromDivision(x: nat, n: nat, q: nat, r: nat)
    requires n > 0 && r < n && x == n * q + r
    ensures x % n == r
  {
    assert n * (x / n - q) == r - x % n;
    Multiples(n, x / n - q);
    Multiples(n, q - x / n);
  }

  lemma Regroup(n: nat, q: nat, high: nat, low: nat)
    ensures n * (q * high + low) == (n * q) * high + n * low
  {
  }

  /** A wrapped index selects the slot of its position. */
  lemma SlotOfWrapped(p: nat, n: nat)
    requires RingSize(n)
    ensures n > 0 && Wrap(p) as int % n == p % n
  {
    var q := SizeDivides(n);
    var high, low: nat := p / TWO32, p % TWO32;
    Regroup(n, q, high, low / n);
    ModFromDivision(p, n, q * high + low / n, low % n);
  }

  lemma WrapStep(p: nat)
    ensures Successor(Wrap(p)) == Wrap(p + 1)
  {
  }

  /** As long as positions are less than 2^32 apart, wrapped indices tell their distance. */
  lemma WrappedDistance(a: nat, b: nat)
    requires b <= a < b + TWO32
    ensures Minus(Wrap(a), Wrap(b)) == a - b
    ensures Wrap(a) == Wrap(b) <==> a == b
  {
  }

  /** Positions less than a ring apart have different slots. */
  lemma SlotsDiffer(a: nat, b: nat, n: nat)
    requires n > 0 && b < a < b + n
    ensures a % n != b % n
  {
    if a % n == b % n {
      assert a - b == n * (a / n - b / n);
      Multiples(n, a / n - b / n);
    }
  }
}
