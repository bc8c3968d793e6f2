/** The rounding applied where the program calls Math.round on a quotient. */
module Rounding {

  /** num / den rounded to the nearest integer, halves upward (Math.round). */
  function RoundDiv(num: nat, den: nat): (r: nat)
    requires den > 0
    ensures (2 * r - 1) * den <= 2 * num < (2 * r + 1) * den
  {
    var q := (2 * num + den) / (2 * den);
    var m := (2 * num + den) % (2 * den);
    assert 2 * num + den == 2 * den * q + m && 0 <= m < 2 * den;
    assert (2 * q - 1) * den == 2 * den * q - den;
    assert (2 * q + 1) * den == 2 * den * q + den;
    q
  }

  /** A share of a whole as a rounded percentage; 0 when the whole is 0. */
  function Percent(part: nat, whole: nat): (p: nat)
    ensures whole == 0 ==> p == 0
    ensures whole > 0 ==> (2 * p - 1) * whole <= 200 * part < (2 * p + 1) * whole
    ensures part <= whole ==> p <= 100
    ensures whole > 0 && part == whole ==> p == 100
    ensures part == 0 ==> p == 0
  {
    if whole == 0 then 0
    else
      var p := RoundDiv(100 * part, whole);
      BelowBound(p, part, whole);
      p
  }

  /** A rounded share of at most the whole is at most 100, and exactly 100 for the whole. */
  lemma BelowBound(p: nat, part: nat, whole: nat)
    requires whole > 0
    requires (2 * p - 1) * whole <= 200 * part < (2 * p + 1) * whole
    ensures part <= whole ==> p <= 100
    ensures part == whole ==> p == 100
    ensures part == 0 ==> p == 0
  {
    if part <= whole {
      if p > 100 {
        assert (2 * p - 1) * whole >= 201 * whole by {
          assert 2 * p - 1 >= 201;
          MulMono(201, 2 * p - 1, whole);
        }
      }
    }
    if part == whole {
      if p < 100 {
        assert (2 * p + 1) * whole <= 199 * whole by {
          MulMono(2 * p + 1, 199, whole);
        }
      }
    }
    if part == 0 {
      if p > 0 {
        MulMono(1, 2 * p - 1, whole);
      }
    }
  }

  lemma MulMono(a: int, b: int, c: nat)
    requires a <= b
    ensures a * c <= b * c
  {
    assert b * c - a * c == (b - a) * c;
  }
}
