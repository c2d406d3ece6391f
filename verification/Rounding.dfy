/** The rounding helpers of include/dmraid/misc.h. They mask bits, so they round
    to multiples of their second argument exactly when it is a power of two.
 */
module Rounding {

  // a & ~m, bit by bit
  function AndNot(a: nat, m: nat): (r: nat)
    ensures r <= a
  {
    if a == 0 then 0 else (if m % 2 == 0 then a % 2 else 0) + 2 * AndNot(a / 2, m / 2)
  }

  const ALL_ONES := 0xFFFF_FFFF_FFFF_FFFF

  // round_down; unit - 1 is computed in 64 bits.
  function RoundDown(what: nat, unit: nat): (r: nat)
    ensures r <= what
  {
    AndNot(what, if unit == 0 then ALL_ONES else unit - 1)
  }

  // round_up
  function RoundUp(what: nat, unit: nat): nat {
    var t := RoundDown(what, unit);
    if t == what then t else t + unit
  }

  // div_up
  function DivUp(what: nat, unit: nat): nat
    requires unit > 0
  {
    RoundUp(what, unit) / unit
  }

  predicate PowerOfTwo(n: nat) {
    n == 1 || (n > 1 && n % 2 == 0 && PowerOfTwo(n / 2))
  }

  function Remainder(a: nat, b: nat): (r: nat)
    requires b > 0
    ensures r < b && r <= a
  {
    a % b
  }

  // The largest multiple that is not above a number.
  function Floor(what: nat, unit: nat): (r: nat)
    requires unit > 0
    ensures r <= what < r + unit
  {
    what - Remainder(what, unit)
  }

  lemma {:induction false} MaskRoundsDown(what: nat, unit: nat)
    requires PowerOfTwo(unit)
    ensures RoundDown(what, unit) == Floor(what, unit)
    decreases what, unit
  {
    hide Remainder;
    if unit == 1 {
      MaskOfNothing(what);
    } else if what > 0 {
      var half := unit / 2;
      MaskRoundsDown(what / 2, half);
      HalfRemainder(what, half);
      assert (unit - 1) / 2 == half - 1 && (unit - 1) % 2 == 1;
      assert what == 2 * (what / 2) + what % 2;
    }
  }

  lemma {:induction false} MaskOfNothing(what: nat)
    ensures AndNot(what, 0) == what
  {
    if what > 0 {
      MaskOfNothing(what / 2);
    }
  }

  lemma HalfRemainder(what: nat, half: nat)
    requires half > 0
    ensures Remainder(what, 2 * half) == what % 2 + 2 * Remainder(what / 2, half)
  {
    var q := what / 2 / half;
    var r := what / 2 % half;
    assert what / 2 == half * q + r;
    assert what == 2 * half * q + (what % 2 + 2 * r) by {
      assert 2 * (half * q) == 2 * half * q;
    }
    UniqueRemainder(what, 2 * half, q, what % 2 + 2 * r);
  }

  lemma UniqueRemainder(a: nat, b: nat, q: nat, r: nat)
    requires b > 0 && a == b * q + r && r < b
    ensures a % b == r && a / b == q
  {
    var p, s := a / b, a % b;
    assert a == b * p + s;
    if p < q {
      Multiple(b, p + 1, q);
    } else if p > q {
      Multiple(b, q + 1, p);
    }
  }

  lemma Multiple(b: nat, p: nat, q: nat)
    requires p <= q
    ensures b * p <= b * q
  {
  }

  // n & ~(n - 1) is the lowest bit of n.
  lemma {:induction false} LowestBit(n: nat)
    requires n > 0
    ensures AndNot(n, n - 1) == n <==> PowerOfTwo(n)
  {
    if n % 2 == 1 {
      assert (n - 1) / 2 == n / 2;
      MaskOfItself(n / 2);
    } else {
      assert (n - 1) / 2 == n / 2 - 1;
      LowestBit(n / 2);
    }
  }

  lemma {:induction false} MaskOfItself(n: nat)
    ensures AndNot(n, n) == 0
  {
    if n > 0 {
      MaskOfItself(n / 2);
    }
  }

  // Rounding a unit to itself decides it.
  lemma PowerIfItself(unit: nat)
    requires unit > 0
    ensures RoundDown(unit, unit) == Floor(unit, unit) <==> PowerOfTwo(unit)
  {
    LowestBit(unit);
    UniqueRemainder(unit, unit, 1, 0);
  }

  /** round_down gives the largest multiple below every number exactly for powers
      of two; a single number decides it.
   */
  lemma RoundsDownIff(unit: nat)
    requires unit > 0
    ensures PowerOfTwo(unit) <==> forall what: nat :: RoundDown(what, unit) == Floor(what, unit)
  {
    if PowerOfTwo(unit) {
      forall what: nat ensures RoundDown(what, unit) == Floor(what, unit) {
        MaskRoundsDown(what, unit);
      }
    }
    PowerIfItself(unit);
  }

  lemma FloorIs(what: nat, unit: nat)
    requires unit > 0
    ensures Floor(what, unit) == unit * (what / unit)
  {
  }

  /** round_up gives the smallest multiple that is not below, and div_up counts it. */
  lemma RoundsUp(what: nat, unit: nat)
    requires PowerOfTwo(unit)
    ensures what <= RoundUp(what, unit) < what + unit
    ensures RoundUp(what, unit) == unit * DivUp(what, unit)
  {
    hide Remainder, PowerOfTwo, RoundDown;
    MaskRoundsDown(what, unit);
    FloorIs(what, unit);
    var q := what / unit;
    UniqueRemainder(unit * q, unit, q, 0);
    UniqueRemainder(unit * (q + 1), unit, q + 1, 0);
    assert unit * (q + 1) == unit * q + unit;
  }

  function Times(a: nat, b: nat): nat {
    a * b
  }

  function Quotient(a: nat, b: nat): (q: nat)
    requires b > 0
  {
    a / b
  }

  lemma QuotientBounds(a: nat, b: nat)
    requires b > 0
    ensures b * Quotient(a, b) + Remainder(a, b) == a
    ensures Quotient(a, b) <= b * Quotient(a, b) <= a
  {
    Multiple(Quotient(a, b), 1, b);
  }
}
