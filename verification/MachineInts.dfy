/** Fixed-width unsigned integers of the source.  Arithmetic on them is done on
  * mathematical integers; every value that is stored in a variable, a field or a
  * result of one of these types is checked by the verifier to be representable,
  * so a method that verifies never wraps around unless it says Wrap. */
module MachineInts {
  const U64_MAX: int := 0xFFFF_FFFF_FFFF_FFFF

  type U32 = x: int | 0 <= x <= 0xFFFF_FFFF
  type U64 = x: int | 0 <= x <= 0xFFFF_FFFF_FFFF_FFFF

  /** What an unsigned 64-bit variable holds after x is stored without a check. */
  function Wrap(x: int): U64 {
    x % 0x1_0000_0000_0000_0000
  }

  lemma WrapOnce(x: int)
    requires U64_MAX < x <= 2 * U64_MAX + 1
    ensures Wrap(x) == x - U64_MAX - 1
  {}

  function Min(a: int, b: int): int {
    if a <= b then a else b
  }

  function Max(a: int, b: int): int {
    if a <= b then b else a
  }

  /** n / d rounded up. */
  function CeilDiv(n: nat, d: nat): nat
    requires d > 0
  {
    (n + d - 1) / d
  }

  /** CeilDiv is the least q with q * d >= n. */
  lemma CeilDivLeast(n: nat, d: nat)
    requires d > 0
    ensures CeilDiv(n, d) * d >= n
    ensures forall q: nat {:trigger q * d} :: q * d >= n ==> CeilDiv(n, d) <= q
  {
    var c := CeilDiv(n, d);
    assert c * d + (n + d - 1) % d == n + d - 1;
    forall q: nat {:trigger q * d} | q * d >= n
      ensures c <= q
    {
      if q < c {
        MulMonotone(q + 1, c, d);
      }
    }
  }

  lemma MulMonotone(a: int, b: int, k: nat)
    requires a <= b
    ensures a * k <= b * k
  {
    assert b * k == a * k + (b - a) * k;
  }

  /** Quotient and remainder are determined by their defining equation. */
  lemma DivModUnique(x: int, d: nat, q: int, r: int)
    requires d > 0
    requires x == q * d + r && 0 <= r < d
    ensures q == x / d && r == x % d
  {
    var p := x / d;
    assert x == p * d + x % d;
    if p < q {
      MulMonotone(p + 1, q, d);
    } else if q < p {
      MulMonotone(q + 1, p, d);
    }
  }

  lemma MultipleModZero(q: nat, d: nat)
    requires d > 0
    ensures q * d % d == 0
  {
    DivModUnique(q * d, d, q, 0);
  }
}
