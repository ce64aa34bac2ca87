/** Exact-real stand-ins for the renderer's f32 arithmetic and the few
    library functions it calls. */
module Numerics {

  /** The largest finite f32 (std::f32::MAX), used as an "infinite" window end. */
  const F32Max: real := 340282346638528859811704183484516925440.0

  /** std::f32::consts::PI, as the f32 value the program actually uses. */
  const Pi: real := 3.1415927410125732421875

  /** usize::MAX on a 64-bit target. */
  const UsizeMax: nat := 0xFFFF_FFFF_FFFF_FFFF

  /** The transcendental functions the renderer calls, left uninterpreted. */
  datatype Math = Math(sqrt: real -> real, sin: real -> real, cos: real -> real,
                       tan: real -> real, ln: real -> real)

  /** The only law assumed of any of them: sqrt is the non-negative square root. */
  ghost predicate SqrtLaw(m: Math) {
    forall x :: 0.0 <= x ==> 0.0 <= m.sqrt(x) && m.sqrt(x) * m.sqrt(x) == x
  }

  /** Division where the source divides by a value that may be zero; the model
      takes 0 where IEEE arithmetic would give an infinity or NaN. */
  function Quot(a: real, b: real): (q: real)
    ensures b != 0.0 ==> q * b == a
    ensures a == 0.0 ==> q == 0.0
  {
    if b == 0.0 then 0.0 else a / b
  }

  /** Rust's `x as usize` for an f32: truncation toward zero, saturating at 0
      (negatives and NaN) and at usize::MAX. */
  function AsUsize(x: real): (n: nat)
    ensures n <= UsizeMax
    ensures x < 0.0 ==> n == 0
    ensures 0.0 <= x < UsizeMax as real + 1.0 ==> n as real <= x < n as real + 1.0
  {
    if x < 1.0 then 0
    else if x >= UsizeMax as real then UsizeMax
    else x.Floor
  }
}

/** The optional value the source's `Option` results become. */
module Options {
  datatype Option<+T> = None | Some(value: T)
}

/** Facts about real products and quotients that the solver does not find
    on its own. */
module RealFacts {
  import opened Numerics

  lemma MulPositive(a: real, b: real)
    requires a > 0.0 && b > 0.0
    ensures a * b > 0.0
  {
  }

  lemma MulNonNegative(a: real, b: real)
    requires a >= 0.0 && b >= 0.0
    ensures a * b >= 0.0
  {
  }

  lemma SquareNonNegative(x: real)
    ensures x * x >= 0.0
  {
    if x < 0.0 {
      assert x * x == (-x) * (-x);
    }
  }

  lemma SquarePositive(x: real)
    requires x != 0.0
    ensures x * x > 0.0
  {
    if x < 0.0 {
      assert x * x == (-x) * (-x);
    }
  }

  lemma SquareZero(x: real)
    ensures x * x == 0.0 ==> x == 0.0
  {
    if x != 0.0 {
      assert (x * x) * (1.0 / x) == x;
    }
  }

  lemma ProductZero(x: real, y: real)
    ensures x * y == 0.0 <==> x == 0.0 || y == 0.0
  {
    if y != 0.0 {
      assert (x * y) * (1.0 / y) == x;
    }
  }

  lemma Cancel(x: real, y: real, a: real)
    requires a != 0.0 && x * a == y * a
    ensures x == y
  {
    assert x == (x * a) * (1.0 / a);
    assert y == (y * a) * (1.0 / a);
  }

  lemma OrderByPositive(x: real, y: real, a: real)
    requires a > 0.0 && x * a <= y * a
    ensures x <= y
  {
    if x > y {
      MulPositive(x - y, a);
    }
  }

  lemma StrictOrderByPositive(x: real, y: real, a: real)
    requires a > 0.0 && x * a < y * a
    ensures x < y
  {
    if x >= y {
      MulNonNegative(x - y, a);
    }
  }

  /** Quot(a, b) lies in [0, 1] for 0 <= a <= b and b > 0. */
  lemma QuotInUnit(a: real, b: real)
    requires 0.0 <= a <= b && 0.0 < b
    ensures 0.0 <= Quot(a, b) <= 1.0
  {
    assert Quot(a, b) == a / b;
  }
}
