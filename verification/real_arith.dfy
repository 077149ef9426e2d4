/**
 The few facts of real arithmetic with products and quotients that the
 accounting needs, each stated on its own so that the solver meets
 non-linear terms only here.
 */
module RealArith {

  lemma MulNonNegative(a: real, b: real)
    requires a >= 0.0 && b >= 0.0
    ensures a * b >= 0.0
  {
  }

  /** Taking a fraction in [0, 1] of a non-negative amount leaves between 0 and the amount. */
  lemma FractionOfNonNegative(perc: real, x: real)
    requires 0.0 <= perc <= 1.0 && x >= 0.0
    ensures 0.0 <= perc * x <= x
  {
  }

  /** Multiplication distributes over a sum `total == a + b`. */
  lemma MulDistributes(f: real, total: real, a: real, b: real)
    requires total == a + b
    ensures f * total == f * a + f * b
  {
  }

  /** Removing the fraction `p` of `x` leaves the fraction `1 - p` of it. */
  lemma Complement(p: real, x: real)
    ensures x - p * x == (1.0 - p) * x
  {
  }

  /** A demand smaller than the layer removes a fraction in [0, 1] of it. */
  lemma DemandFraction(remero: real, thickness: real)
    requires 0.0 < remero < thickness
    ensures 0.0 <= Quotient(remero, thickness) <= 1.0
    ensures Quotient(remero, thickness) * thickness == remero
  {
  }

  /**
   When clastics leave room `room - sh >= 0` that production `total`
   overfills, `total` is positive and the fraction `frac` of production that
   fills the room exactly lies in [0, 1).
   */
  lemma FillFraction(room: real, sh: real, total: real, frac: real)
    requires room - sh >= 0.0 && room - (total + sh) < 0.0
    requires frac * total == room - sh
    ensures total > 0.0
    ensures 0.0 <= frac < 1.0
  {
    QuotientBounds(room - sh, total);
    DivisionUnique(room - sh, total, frac);
  }

  /** A quotient of a non-negative amount by a larger one lies in [0, 1). */
  lemma QuotientBounds(a: real, b: real)
    requires 0.0 <= a < b
    ensures 0.0 <= a / b < 1.0
  {
  }

  /** A fraction is determined by its product with a non-zero divisor. */
  lemma DivisionUnique(a: real, b: real, f: real)
    requires b != 0.0 && f * b == a
    ensures f == a / b
  {
  }

  /**
   Real division. Quotients passed on to other functions go through this
   name, so that the solver matches them as terms.
   */
  function Quotient(a: real, b: real): (q: real)
    requires b != 0.0
  {
    a / b
  }

  /** A quotient times its divisor gives back the dividend. */
  lemma QuotientTimes(a: real, b: real)
    requires b != 0.0
    ensures Quotient(a, b) * b == a
  {
  }

  /** Raw production `prod*coral*dt/prodscale` and the cap `prod*dt` are non-negative for non-negative inputs. */
  lemma ProductionNonNegative(prod: real, coral: real, dt: real, prodscale: real)
    requires prod >= 0.0 && coral >= 0.0 && dt >= 0.0 && prodscale > 0.0
    ensures prod * coral * dt / prodscale >= 0.0 && prod * dt >= 0.0
  {
  }
}
