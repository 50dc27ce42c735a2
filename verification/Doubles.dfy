/** Whole numbers as a JavaScript number holds them: 53 significant bits, ties to even. */
module Doubles {
  const EXACT_BOUND: nat := 0x20_0000_0000_0000 // 2^53

  /**
   * The double nearest to n, or to slightly more than n where `sticky`: bits are shifted out
   * until one too many is left, and that one is rounded. `sticky` remembers a lost 1.
   */
  function RoundBits(n: nat, sticky: bool): (r: nat)
    requires n >= EXACT_BOUND
    ensures r >= EXACT_BOUND
  {
    if n >= 2 * EXACT_BOUND then 2 * RoundBits(n / 2, sticky || n % 2 == 1)
    else if n % 2 == 0 then n
    else if sticky || n / 2 % 2 == 1 then n + 1
    else n - 1
  }

  /** `Number(n)` for a whole number n. */
  function Round(n: nat): (r: nat)
    ensures n < EXACT_BOUND ==> r == n
    ensures n >= EXACT_BOUND ==> r >= EXACT_BOUND
  {
    if n < EXACT_BOUND then n else RoundBits(n, false)
  }

  /** The distance between neighbouring doubles at n: the power of 2 that leaves n 53 bits. */
  ghost function Unit(n: nat): (u: nat)
    ensures u >= 1
  {
    if n < EXACT_BOUND then 1 else 2 * Unit(n / 2)
  }

  /** The unit leaves n its 53 leading bits. */
  lemma {:induction false} UnitLeavesBits(n: nat)
    ensures n < EXACT_BOUND * Unit(n)
    ensures n >= EXACT_BOUND ==> EXACT_BOUND / 2 * Unit(n) <= n
  {
    if n >= EXACT_BOUND {
      UnitLeavesBits(n / 2);
    }
  }

  /** r is within half a unit of n, or, where `sticky`, of every number strictly between n and n + 1. */
  ghost predicate Near(n: nat, sticky: bool, r: int, unit: nat) {
    2 * (if sticky then n + 1 else n) - unit <= 2 * r <= 2 * n + unit
  }

  /** n lies halfway between two multiples of the unit. */
  ghost predicate Tie(n: nat, r: int, unit: nat) { 2 * r == 2 * n - unit || 2 * r == 2 * n + unit }

  lemma {:induction false} RoundBitsIsNear(n: nat, sticky: bool)
    requires n >= EXACT_BOUND
    ensures Near(n, sticky, RoundBits(n, sticky), Unit(n))
  {
    if n >= 2 * EXACT_BOUND {
      RoundBitsIsNear(n / 2, sticky || n % 2 == 1);
    }
  }

  lemma DoubledMultiple(q: nat, unit: nat)
    ensures 2 * (q * unit) == q * (2 * unit)
  {
  }

  lemma {:induction false} RoundBitsIsMultiple(n: nat, sticky: bool) returns (q: nat)
    requires n >= EXACT_BOUND
    ensures RoundBits(n, sticky) == q * Unit(n)
    ensures !sticky && Tie(n, RoundBits(n, sticky), Unit(n)) ==> q % 2 == 0
  {
    if n >= 2 * EXACT_BOUND {
      q := RoundBitsIsMultiple(n / 2, sticky || n % 2 == 1);
      RoundBitsIsNear(n / 2, sticky || n % 2 == 1);
      DoubledMultiple(q, Unit(n / 2));
    } else {
      assert Unit(n / 2) == 1;
      q := RoundBits(n, sticky) / 2;
    }
  }

  /** A number becomes the multiple of its unit that is nearest, and of two that are the even one. */
  lemma RoundIsNearest(n: nat) returns (q: nat)
    ensures Round(n) == q * Unit(n) && Near(n, false, Round(n), Unit(n))
    ensures Tie(n, Round(n), Unit(n)) ==> q % 2 == 0
    ensures n < EXACT_BOUND * Unit(n) && (Unit(n) > 1 ==> EXACT_BOUND / 2 * Unit(n) <= n)
  {
    UnitLeavesBits(n);
    if n < EXACT_BOUND {
      q := n;
    } else {
      q := RoundBitsIsMultiple(n, false);
      RoundBitsIsNear(n, false);
    }
  }
}
