/** Vec3 over exact reals: points, directions and colours alike. */
module Vectors {
  import opened Numerics
  import opened RealFacts

  datatype Vec3 = Vec3(x: real, y: real, z: real) {

    function Plus(w: Vec3): Vec3 { Vec3(x + w.x, y + w.y, z + w.z) }

    function Minus(w: Vec3): Vec3 { Vec3(x - w.x, y - w.y, z - w.z) }

    function Neg(): Vec3 { Vec3(-x, -y, -z) }

    /** Scalar multiplication, `s * v` in the source. */
    function Scale(s: real): Vec3 { Vec3(s * x, s * y, s * z) }

    /** Componentwise product, `a * b` of two colours in the source. */
    function Mul(w: Vec3): Vec3 { Vec3(x * w.x, y * w.y, z * w.z) }

    /** Scalar division `v / s`, through Quot. */
    function Div(s: real): Vec3 { Vec3(Quot(x, s), Quot(y, s), Quot(z, s)) }

    function Dot(w: Vec3): real { x * w.x + y * w.y + z * w.z }

    function Cross(w: Vec3): Vec3 {
      Vec3(y * w.z - z * w.y, z * w.x - x * w.z, x * w.y - y * w.x)
    }

    function SquaredLength(): real { x * x + y * y + z * z }

    /** Indexing `v[i]`. */
    function At(i: nat): real
      requires i < 3
    {
      if i == 0 then x else if i == 1 then y else z
    }

    /** The vector with component `i` replaced, `v[i] = c` in the source. */
    function With(i: nat, c: real): (w: Vec3)
      requires i < 3
      ensures w.At(i) == c
      ensures forall j :: 0 <= j < 3 && j != i ==> w.At(j) == At(j)
    {
      if i == 0 then Vec3(c, y, z) else if i == 1 then Vec3(x, c, z) else Vec3(x, y, c)
    }
  }

  const Zero: Vec3 := Vec3(0.0, 0.0, 0.0)
  const One: Vec3 := Vec3(1.0, 1.0, 1.0)

  function Length(v: Vec3, m: Math): real {
    m.sqrt(v.SquaredLength())
  }

  function UnitVector(v: Vec3, m: Math): Vec3 {
    v.Div(Length(v, m))
  }

  /** The unit vector of coordinate axis `i`. */
  function UnitAxis(i: nat): (e: Vec3)
    requires i < 3
    ensures e.At(i) == 1.0 && e.SquaredLength() == 1.0
  {
    if i == 0 then Vec3(1.0, 0.0, 0.0) else if i == 1 then Vec3(0.0, 1.0, 0.0) else Vec3(0.0, 0.0, 1.0)
  }

  lemma DotSelfNonNegative(v: Vec3)
    ensures v.Dot(v) >= 0.0 && v.Dot(v) == v.SquaredLength()
    ensures v.x * v.x <= v.Dot(v) && v.y * v.y <= v.Dot(v) && v.z * v.z <= v.Dot(v)
  {
    SquareNonNegative(v.x);
    SquareNonNegative(v.y);
    SquareNonNegative(v.z);
  }

  /** Only the zero vector has squared length 0. */
  lemma ZeroSquares(v: Vec3)
    ensures v.Dot(v) == 0.0 ==> v == Zero
  {
    DotSelfNonNegative(v);
    if v.Dot(v) == 0.0 {
      SquareZero(v.x);
      SquareZero(v.y);
      SquareZero(v.z);
    }
  }

  /** A non-zero vector has positive length. */
  lemma LengthPositive(v: Vec3, m: Math)
    requires SqrtLaw(m) && v != Zero
    ensures Length(v, m) > 0.0
  {
    ZeroSquares(v);
    DotSelfNonNegative(v);
    var l := Length(v, m);
    assert l >= 0.0 && l * l == v.SquaredLength();
    SquareZero(l);
  }

  /** Dividing by k scales the squared length by 1/k². */
  lemma DivSquaredLength(q: Vec3, k: real)
    requires k != 0.0
    ensures q.Div(k).SquaredLength() * (k * k) == q.SquaredLength()
  {
    var n := q.Div(k);
    SquareScaled(n.x, k, q.x);
    SquareScaled(n.y, k, q.y);
    SquareScaled(n.z, k, q.z);
    assert n.SquaredLength() * (k * k) == (n.x * n.x) * (k * k) + (n.y * n.y) * (k * k) + (n.z * n.z) * (k * k);
  }

  lemma SquareScaled(n: real, k: real, q: real)
    requires n * k == q
    ensures (n * n) * (k * k) == q * q
  {
    assert (n * n) * (k * k) == (n * k) * (n * k);
  }

  /** With a true square root, the unit vector of a non-zero vector has length 1. */
  lemma UnitVectorIsUnit(v: Vec3, m: Math)
    requires SqrtLaw(m) && v != Zero
    ensures UnitVector(v, m).SquaredLength() == 1.0
  {
    LengthPositive(v, m);
    DotSelfNonNegative(v);
    ZeroSquares(v);
    var l := Length(v, m);
    DivSquaredLength(v, l);
    UnitFromLength(v.Div(l).SquaredLength(), l, v.SquaredLength());
  }

  /** n·l² = l² with l² = sq > 0 forces n = 1. */
  lemma UnitFromLength(n: real, l: real, sq: real)
    requires sq > 0.0 && l * l == sq && n * (l * l) == sq
    ensures n == 1.0
  {
    calc {
      n * sq;
      n * (l * l);
      sq;
      1.0 * sq;
    }
    Cancel(n, 1.0, sq);
  }

  /** Lagrange's identity: |a × b|² = |a|² |b|² − (a·b)². */
  lemma CrossSquaredLength(a: Vec3, b: Vec3)
    ensures a.Cross(b).SquaredLength() == a.SquaredLength() * b.SquaredLength() - a.Dot(b) * a.Dot(b)
  {
  }
}
