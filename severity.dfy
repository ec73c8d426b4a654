/**
  Mismatch percentages as JavaScript numbers, and the severity badge
  `getColorClass` (vrt/misw-4103-pixelmatch/index.js:35-41).
*/
module Severity {
  type Positive = n: nat | n > 0 witness 1

  /**
    A value in the `mismatchPercentage` field: a finite number, kept exact as
    num/den, NaN, +Infinity, or a value whose `typeof` is not 'number'.
  */
  datatype Percentage = Ratio(num: int, den: Positive) | NaN | PosInfinity | NonNumber

  /** `p < t` in JavaScript: false whenever NaN is involved. */
  predicate LessThan(p: Percentage, t: int)
  {
    match p
    case Ratio(n, d) => n < t * d
    case _ => false
  }

  /** The three badge classes: badge-green, badge-orange, badge-red. */
  datatype Badge = Green | Orange | Red

  /** Severity order of the badges. */
  function Rank(b: Badge): nat
  {
    match b
    case Green => 0
    case Orange => 1
    case Red => 2
  }

  /** getColorClass: red for non-numbers, green below 20, orange below 50, red otherwise. */
  function ColorClass(p: Percentage): (b: Badge)
    ensures !p.Ratio? ==> b == Red
    ensures p.Ratio? && p.num < 0 ==> b == Green
  {
    if p.NonNumber? then Red
    else if LessThan(p, 20) then Green
    else if LessThan(p, 50) then Orange
    else Red
  }

  /** `p <= q` on finite values, by cross-multiplication. */
  predicate AtMost(p: Percentage, q: Percentage)
    requires p.Ratio? && q.Ratio?
  {
    p.num * q.den <= q.num * p.den
  }

  /** A larger percentage never gets a milder badge. */
  lemma ColorClassMonotone(p: Percentage, q: Percentage)
    requires p.Ratio? && q.Ratio? && AtMost(p, q)
    ensures Rank(ColorClass(p)) <= Rank(ColorClass(q))
  {
    ThresholdRespectsOrder(p, q, 20);
    ThresholdRespectsOrder(p, q, 50);
  }

  /** If the larger value is below a threshold, so is the smaller. */
  lemma ThresholdRespectsOrder(p: Percentage, q: Percentage, t: nat)
    requires p.Ratio? && q.Ratio? && AtMost(p, q)
    ensures LessThan(q, t) ==> LessThan(p, t)
  {
    if q.num < t * q.den {
      calc {
        p.num * q.den;
      <= q.num * p.den;
      < { assert p.den > 0; MulStrict(q.num, t * q.den, p.den); }
        t * q.den * p.den;
      == t * p.den * q.den;
      }
      MulCancel(p.num, t * p.den, q.den);
    }
  }

  lemma MulStrict(a: int, b: int, c: int)
    requires a < b && c > 0
    ensures a * c < b * c
  {
  }

  lemma MulCancel(a: int, b: int, c: int)
    requires c > 0 && a * c < b * c
    ensures a < b
  {
    MulMonotone(b, a, c);
  }

  lemma MulMonotone(x: int, y: int, c: int)
    requires c > 0
    ensures x <= y ==> x * c <= y * c
  {
  }

  /** The badge depends on the value only, not on how the fraction is written. */
  lemma ColorClassScaleInvariant(n: int, d: Positive, k: Positive)
    ensures ColorClass(Ratio(n * k, d * k)) == ColorClass(Ratio(n, d))
  {
    var p, q := Ratio(n, d), Ratio(n * k, d * k);
    assert AtMost(p, q) && AtMost(q, p) by {
      assert n * (d * k) == (n * k) * d;
    }
    ColorClassMonotone(p, q);
    ColorClassMonotone(q, p);
  }
}
