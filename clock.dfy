/** The clock negotiator: `clock_to_divider` and the constants it uses.
    All arithmetic of the driver is on `uint32_t`; the wrap-around of the
    multiplication and of the final subtraction is written out. */
module SdioClock {

  /** `uint32_t`. */
  type u32 = x: int | 0 <= x < 0x1_0000_0000

  const Modulus32: int := 0x1_0000_0000

  /** SDIOCLK: the peripheral's maximum master clock, 48 MHz. */
  const SdioClk: u32 := 48_000_000

  /** SDIO_CLOCK when the configuration does not set it: 18 MHz. */
  const DefaultTransferClock: u32 := 18_000_000

  /** Reduction of an integer result to `uint32_t`. */
  function Wrap32(x: int): (r: u32)
    ensures 0 <= x < Modulus32 ==> r == x
    ensures -Modulus32 <= x < 0 ==> r == x + Modulus32
  {
    x % Modulus32
  }

  function Min(a: u32, b: u32): (m: u32)
    ensures m <= a && m <= b
    ensures m == a || m == b
  {
    if a < b then a else b
  }

  /** `(uint32_t)(pclk2 * 8 / 3)`: the product wraps before it is divided. */
  function PclkLimit(pclk2: u32): (r: u32)
    ensures 3 * r <= Wrap32(pclk2 * 8) < 3 * r + 3
    ensures pclk2 < 0x2000_0000 ==> 3 * r <= 8 * pclk2 < 3 * r + 3
  {
    Wrap32(pclk2 * 8) / 3
  }

  /** The clock that `clock_to_divider` actually aims for: the requested clock
      capped at 8/3 of PCLK2 and at SDIOCLK. */
  function EffectiveClock(clk: u32, pclk2: u32): (r: u32)
    ensures r <= clk && r <= PclkLimit(pclk2) && r <= SdioClk
    ensures r == clk || r == PclkLimit(pclk2) || r == SdioClk
  {
    Min(Min(clk, PclkLimit(pclk2)), SdioClk)
  }

  /** Whether `clock_to_divider(clk)` is defined for this PCLK2: the divisions
      by the effective clock are undefined behaviour when it is zero. */
  predicate DividerDefined(clk: u32, pclk2: u32) {
    EffectiveClock(clk, pclk2) > 0
  }

  /** Ceiling division, defined independently of the driver's formula:
      the least quotient that, times the divisor, reaches the dividend. */
  function CeilDiv(p: nat, c: nat): (q: nat)
    requires c > 0
    ensures q * c >= p
    ensures q == 0 || (q - 1) * c < p
  {
    var q := (p + c - 1) / c;
    var r := (p + c - 1) % c;
    assert p + c - 1 == q * c + r;
    assert (q - 1) * c == q * c - c;
    q
  }

  /** `clock_to_divider(clk)` with `HAL_RCC_GetPCLK2Freq()` passed in as `pclk2`:
      `pclk2 / clk' + (pclk2 % clk' != 0) - 2`, computed in `uint32_t`. */
  function ClockToDivider(clk: u32, pclk2: u32): (d: u32)
    requires DividerDefined(clk, pclk2)
    ensures Wrap32(d + 2) == CeilDiv(pclk2, EffectiveClock(clk, pclk2))
  {
    var c := EffectiveClock(clk, pclk2);
    var roundUp := if pclk2 % c != 0 then 1 else 0;
    QuotientPlusCarry(pclk2, c);
    Wrap32(pclk2 / c + roundUp - 2)
  }

  /** Multiplication by a natural number is monotonic. */
  lemma MulMonotone(x: nat, y: nat, c: nat)
    requires x <= y
    ensures x * c <= y * c
  {
    var k := y - x;
    assert y * c == x * c + k * c;
  }

  /** A natural number is at most its product with a positive one. */
  lemma MulAtLeast(q: nat, c: nat)
    requires c >= 1
    ensures q <= q * c
  {
    MulMonotone(1, c, q);
  }

  /** a / c == q when a == q * c + r and 0 <= r < c. */
  lemma DivisionUnique(a: nat, c: nat, q: nat, r: nat)
    requires c > 0 && r < c && a == q * c + r
    ensures a / c == q && a % c == r
  {
    var q', r' := a / c, a % c;
    assert q' * c + r' == q * c + r;
    if q' < q {
      assert (q' + 1) * c == q' * c + c;
      MulMonotone(q' + 1, q, c);
    } else if q' > q {
      assert (q + 1) * c == q * c + c;
      MulMonotone(q + 1, q', c);
    }
  }

  /** The driver's rounding formula equals the ceiling, and it never exceeds
      the dividend (so the `uint32_t` sum before the `- 2` cannot wrap). */
  lemma QuotientPlusCarry(p: nat, c: nat)
    requires c > 0
    ensures p / c + (if p % c != 0 then 1 else 0) == CeilDiv(p, c)
    ensures CeilDiv(p, c) <= p || p == 0
  {
    var q, r := p / c, p % c;
    MulAtLeast(q, c);
    if r == 0 {
      ExactCeiling(p, c, q);
    } else {
      CarriedCeiling(p, c, q, r);
    }
  }

  /** A dividend that is a multiple of the divisor: the ceiling is the quotient. */
  lemma ExactCeiling(p: nat, c: nat, q: nat)
    requires c > 0 && p == q * c
    ensures CeilDiv(p, c) == q
  {
    DivisionUnique(p + c - 1, c, q, c - 1);
  }

  /** A remainder `r > 0`: the ceiling is one above the quotient. */
  lemma CarriedCeiling(p: nat, c: nat, q: nat, r: nat)
    requires 0 < r < c && p == q * c + r
    ensures CeilDiv(p, c) == q + 1
  {
    assert (q + 1) * c == q * c + c;
    DivisionUnique(p + c - 1, c, q + 1, r - 1);
  }

  /** Ceiling division by a divisor below the dividend: the quotient is at
      least 2 and dividing by it lands at or below the divisor. */
  lemma CeilDivBelowDividend(p: nat, c: nat)
    requires 0 < c < p
    ensures var q := CeilDiv(p, c); q >= 2 && p / q <= c
  {
    var q := CeilDiv(p, c);
    if q <= 1 {
      MulMonotone(q, 1, c);
    }
    var out := p / q;
    assert out * q <= p;
    if out > c {
      assert (c + 1) * q == c * q + q;
      MulMonotone(c + 1, out, q);
    }
  }

  /** Below PCLK2 the divider is exact: the output clock pclk2 / (d + 2) never
      exceeds the effective clock, and the next smaller divider would. */
  lemma DividerNeverOverclocks(clk: u32, pclk2: u32)
    requires DividerDefined(clk, pclk2)
    requires EffectiveClock(clk, pclk2) < pclk2
    ensures var c, d := EffectiveClock(clk, pclk2), ClockToDivider(clk, pclk2);
      && d + 2 == CeilDiv(pclk2, c)
      && (d + 2) * c >= pclk2
      && pclk2 / (d + 2) <= c
      && (d + 1) * c < pclk2
  {
    var c, d := EffectiveClock(clk, pclk2), ClockToDivider(clk, pclk2);
    CeilDivBelowDividend(pclk2, c);
    QuotientPlusCarry(pclk2, c);
    assert d + 2 == CeilDiv(pclk2, c);
  }

  /** At or above PCLK2 the unsigned `- 2` wraps: the divider is 0xFFFFFFFF. */
  lemma DividerWrapsAtInputClock(clk: u32, pclk2: u32)
    requires DividerDefined(clk, pclk2)
    requires EffectiveClock(clk, pclk2) >= pclk2
    ensures ClockToDivider(clk, pclk2) == 0xFFFF_FFFF
  {
    var c := EffectiveClock(clk, pclk2);
    var q := CeilDiv(pclk2, c);
    assert q >= 1;
    MulBelowOne(q - 1, c);
    assert q == 1;
  }

  /** Only zero times a positive number stays below it. */
  lemma MulBelowOne(x: nat, c: nat)
    requires c > 0
    ensures x * c < c ==> x == 0
  {
    if x >= 1 {
      MulMonotone(1, x, c);
    }
  }

  /** No divider is computed for a PCLK2 whose wrapped 8/3 limit rounds to
      zero, nor for a zero target. */
  lemma DividerDefinedIff(clk: u32, pclk2: u32)
    ensures DividerDefined(clk, pclk2) <==> clk > 0 && Wrap32(pclk2 * 8) >= 3
  {
  }
}
