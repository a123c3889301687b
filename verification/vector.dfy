/**
 * Three-component vectors (src/vec3.rs), used as points, directions and colours.
 * Scalars are reals; the square root is an explicit parameter `sqrt`, and the lemmas that
 * need it assume only what a square root guarantees (see IsSqrt and SqrtOracle).
 */
module Vector {

  datatype Vec3 = Vec3(x: real, y: real, z: real)

  type Point3 = Vec3
  type Color = Vec3

  const Zero: Vec3 := Vec3(0.0, 0.0, 0.0)

  /** The bound under which every component must stay for `near_zero`. */
  const NearZeroThreshold: real := 0.00000001

  function Abs(r: real): real { if r < 0.0 then -r else r }

  /** `s` is the non-negative square root of `x`. */
  ghost predicate IsSqrt(s: real, x: real) { 0.0 <= s && s * Same(s) == x }

  /** `sqrt` behaves as the square root on every non-negative argument. */
  ghost predicate SqrtOracle(sqrt: real -> real) {
    forall x :: 0.0 <= x ==> IsSqrt(sqrt(x), x)
  }

  // ---------------------------------------------------------------- indexing

  /** `v[i]`; an index of 3 or more panics, so it is excluded. */
  function Index(v: Vec3, i: nat): real
    requires i < 3
  {
    if i == 0 then v.x else if i == 1 then v.y else v.z
  }

  /** `v[i] = value` through `IndexMut`: only the addressed component changes. */
  function WithComponent(v: Vec3, i: nat, value: real): (r: Vec3)
    requires i < 3
    ensures Index(r, i) == value
    ensures forall j :: 0 <= j < 3 && j != i ==> Index(r, j) == Index(v, j)
  {
    if i == 0 then v.(x := value) else if i == 1 then v.(y := value) else v.(z := value)
  }

  // ---------------------------------------------------------------- operators

  function Neg(v: Vec3): Vec3 { Vec3(-v.x, -v.y, -v.z) }

  function Add(a: Vec3, b: Vec3): Vec3 { Vec3(a.x + b.x, a.y + b.y, a.z + b.z) }

  function Sub(a: Vec3, b: Vec3): Vec3 { Vec3(a.x - b.x, a.y - b.y, a.z - b.z) }

  /** Componentwise (Hadamard) product, `Mul<Vec3> for Vec3`; used to filter colours. */
  function Mul(a: Vec3, b: Vec3): Vec3 { Vec3(a.x * b.x, a.y * b.y, a.z * b.z) }

  /** `s * v` and `v * s` (`Mul<Vec3> for f32` and `Mul<f32> for Vec3` agree). */
  function Scale(s: real, v: Vec3): Vec3 { Vec3(s * v.x, s * v.y, s * v.z) }

  /** Componentwise quotient, `Div<Vec3> for Vec3`; multiplying back by the divisor recovers `a`. */
  function Div(a: Vec3, b: Vec3): (r: Vec3)
    requires b.x != 0.0 && b.y != 0.0 && b.z != 0.0
    ensures Mul(b, r) == a
  {
    Vec3(a.x / b.x, a.y / b.y, a.z / b.z)
  }

  /** `v / s`, computed per component as `v[i] * 1.0 / s`; scaling back by `s` recovers `v`. */
  function DivScalar(v: Vec3, s: real): (r: Vec3)
    requires s != 0.0
    ensures Scale(s, r) == v
  {
    MulDivCancel(v.x, s);
    MulDivCancel(v.y, s);
    MulDivCancel(v.z, s);
    Vec3(v.x * 1.0 / s, v.y * 1.0 / s, v.z * 1.0 / s)
  }

  lemma MulDivCancel(a: real, s: real)
    requires s != 0.0
    ensures s * (a * 1.0 / s) == a
  {
  }

  // ---------------------------------------------------------------- compound assignment

  /** `v += rhs`: the three components are updated one after another through `IndexMut`. */
  method AddAssign(v: Vec3, rhs: Vec3) returns (r: Vec3)
    ensures r == Add(v, rhs)
  {
    r := v;
    r := WithComponent(r, 0, Index(r, 0) + Index(rhs, 0));
    r := WithComponent(r, 1, Index(r, 1) + Index(rhs, 1));
    r := WithComponent(r, 2, Index(r, 2) + Index(rhs, 2));
  }

  /** `v *= s`. */
  method MulAssign(v: Vec3, s: real) returns (r: Vec3)
    ensures r == Scale(s, v)
  {
    r := v;
    r := WithComponent(r, 0, Index(r, 0) * s);
    r := WithComponent(r, 1, Index(r, 1) * s);
    r := WithComponent(r, 2, Index(r, 2) * s);
  }

  /** `v /= s`. */
  method DivAssign(v: Vec3, s: real) returns (r: Vec3)
    requires s != 0.0
    ensures r == DivScalar(v, s)
    ensures Scale(s, r) == v
  {
    r := v;
    r := WithComponent(r, 0, Index(r, 0) / s);
    r := WithComponent(r, 1, Index(r, 1) / s);
    r := WithComponent(r, 2, Index(r, 2) / s);
  }

  // ---------------------------------------------------------------- products and lengths

  function Dot(a: Vec3, b: Vec3): real {
    a.x * b.x + a.y * b.y + a.z * b.z
  }

  function Cross(a: Vec3, b: Vec3): Vec3 {
    Vec3(a.y * b.z - a.z * b.y,
         a.z * b.x - a.x * b.z,
         a.x * b.y - a.y * b.x)
  }

  function LengthSquared(v: Vec3): (r: real)
    ensures r == Dot(v, v)
    ensures 0.0 <= r
  {
    v.x * v.x + v.y * v.y + v.z * v.z
  }

  function Length(v: Vec3, sqrt: real -> real): real {
    sqrt(LengthSquared(v))
  }

  /** True iff every component has absolute value below 1e-8. */
  predicate NearZero(v: Vec3) {
    Abs(v.x) < NearZeroThreshold && Abs(v.y) < NearZeroThreshold && Abs(v.z) < NearZeroThreshold
  }

  /** `v / |v|`, except that a vector whose length is not positive gives the zero vector. */
  function UnitVector(v: Vec3, sqrt: real -> real): Vec3 {
    var len := Length(v, sqrt);
    if len <= 0.0 then Zero else DivScalar(v, len)
  }

  /** `v - 2 (v . n) n`. */
  function Reflect(v: Vec3, n: Vec3): Vec3 {
    Sub(v, Scale(2.0 * Dot(v, n), n))
  }

  /** `random_on_hemisphere` with the random unit vector passed in as `sample`. */
  function OnHemisphere(sample: Vec3, normal: Vec3): (r: Vec3)
    ensures r == sample || r == Neg(sample)
    ensures Dot(r, normal) >= 0.0
    ensures Dot(sample, normal) > 0.0 <==> r == sample && Dot(r, normal) != 0.0
    ensures Dot(sample, normal) <= 0.0 ==> r == Neg(sample)
  {
    if Dot(sample, normal) > 0.0 then sample else Neg(sample)
  }

  function Min(a: real, b: real): real { if a <= b then a else b }

  /** Snell refraction of `uv` through a surface with normal `n` and ratio `etaiOverEtat`. */
  function Refract(uv: Vec3, n: Vec3, etaiOverEtat: real, sqrt: real -> real): Vec3 {
    var cosTheta := Min(Dot(Neg(uv), n), 1.0);
    var perp := Scale(etaiOverEtat, Add(uv, Scale(cosTheta, n)));
    var parallel := Scale(-sqrt(Abs(1.0 - LengthSquared(perp))), n);
    Add(perp, parallel)
  }


  // ---------------------------------------------------------------- real-arithmetic helpers

  /**
   * `r` itself. The helper lemmas write a square as `r * Same(r)`: it has the value `r * r`,
   * but the solver treats it as a product of two factors with equal values, whose sign it
   * derives reliably.
   */
  function Same(r: real): real { r }

  lemma ProductPositive(a: real, b: real)
    requires 0.0 < a && 0.0 < b
    ensures 0.0 < a * b
  {
  }

  lemma SquareNonNegative(r: real)
    ensures 0.0 <= r * Same(r)
  {
    if r < 0.0 {
      assert 0.0 < r * Same(r);
    }
  }

  lemma SquarePositive(r: real)
    requires r != 0.0
    ensures 0.0 < r * Same(r)
  {
    if r < 0.0 {
      assert 0.0 < r * Same(r);
    }
  }

  /** Squaring is strictly increasing on the non-negative reals. */
  lemma SquareLess(a: real, b: real)
    requires 0.0 <= a < b
    ensures a * Same(a) < b * Same(b)
  {
    ProductPositive(b - a, b + a);
    assert (b - a) * (b + a) == b * b - a * a;
  }

  lemma SquareBelow(r: real, bound: real)
    requires Abs(r) < bound
    ensures r * Same(r) < bound * Same(bound)
  {
    SquareLess(Abs(r), bound);
    assert Abs(r) * Abs(r) == r * r;
  }

  lemma SquareAtMostOne(r: real)
    requires r * Same(r) <= 1.0
    ensures -1.0 <= r <= 1.0
  {
    if r > 1.0 {
      SquareLess(1.0, r);
    } else if r < -1.0 {
      SquareLess(1.0, -r);
    }
  }

  /** A square root is zero, positive or ordered exactly when its argument is. */
  lemma SqrtSign(s: real, x: real)
    requires IsSqrt(s, x)
    ensures x == 0.0 <==> s == 0.0
    ensures 0.0 < x <==> 0.0 < s
  {
    if s != 0.0 {
      SquarePositive(s);
    }
  }

  lemma SqrtMonotone(s: real, x: real, t: real, y: real)
    requires IsSqrt(s, x) && IsSqrt(t, y)
    ensures x <= y <==> s <= t
  {
    if s < t {
      SquareLess(s, t);
    } else if t < s {
      SquareLess(t, s);
    }
  }

  // ---------------------------------------------------------------- vector identities

  lemma DotSymmetric(a: Vec3, b: Vec3)
    ensures Dot(a, b) == Dot(b, a)
  {
  }

  lemma DotNeg(a: Vec3, c: Vec3)
    ensures Dot(Neg(a), c) == -Dot(a, c)
  {
  }

  lemma DotAdd(a: Vec3, b: Vec3, c: Vec3)
    ensures Dot(Add(a, b), c) == Dot(a, c) + Dot(b, c)
  {
  }

  lemma DotSub(a: Vec3, b: Vec3, c: Vec3)
    ensures Dot(Sub(a, b), c) == Dot(a, c) - Dot(b, c)
  {
  }

  lemma DotScaleLeft(s: real, a: Vec3, c: Vec3)
    ensures Dot(Scale(s, a), c) == s * Dot(a, c)
  {
    assert (s * a.x) * c.x + (s * a.y) * c.y + (s * a.z) * c.z == s * (a.x * c.x + a.y * c.y + a.z * c.z);
  }

  lemma DotScaleRight(a: Vec3, s: real, c: Vec3)
    ensures Dot(a, Scale(s, c)) == s * Dot(a, c)
  {
    assert a.x * (s * c.x) + a.y * (s * c.y) + a.z * (s * c.z) == s * (a.x * c.x + a.y * c.y + a.z * c.z);
  }

  lemma LengthSquaredAdd(a: Vec3, b: Vec3)
    ensures LengthSquared(Add(a, b)) == LengthSquared(a) + 2.0 * Dot(a, b) + LengthSquared(b)
  {
  }

  lemma LengthSquaredSub(a: Vec3, b: Vec3)
    ensures LengthSquared(Sub(a, b)) == LengthSquared(a) - 2.0 * Dot(a, b) + LengthSquared(b)
  {
  }

  lemma LengthSquaredScale(s: real, a: Vec3)
    ensures LengthSquared(Scale(s, a)) == s * s * LengthSquared(a)
  {
    assert (s * a.x) * (s * a.x) + (s * a.y) * (s * a.y) + (s * a.z) * (s * a.z)
        == s * s * (a.x * a.x + a.y * a.y + a.z * a.z);
  }

  lemma TimesOne(a: real, b: real)
    requires b == 1.0
    ensures a * b == a
  {
  }

  lemma TimesZero(a: real, b: real)
    requires b == 0.0
    ensures a * b == 0.0
  {
  }

  // ---------------------------------------------------------------- properties

  /** The sums, differences and products of the unit tests, computed exactly. */
  lemma ArithmeticExamples()
    ensures Add(Vec3(1.0, 2.0, 3.0), Vec3(4.0, 5.0, 6.0)) == Vec3(5.0, 7.0, 9.0)
    ensures Sub(Vec3(1.0, 2.0, 3.0), Vec3(4.0, 5.0, 6.0)) == Vec3(-3.0, -3.0, -3.0)
    ensures Mul(Vec3(1.0, 2.0, 3.0), Vec3(4.0, 5.0, 6.0)) == Vec3(4.0, 10.0, 18.0)
    ensures Scale(2.0, Vec3(1.0, 2.0, 3.0)) == Vec3(2.0, 4.0, 6.0)
    ensures Div(Vec3(1.0, 2.0, 3.0), Vec3(4.0, 5.0, 6.0)) == Vec3(0.25, 0.4, 0.5)
    ensures DivScalar(Vec3(1.0, 2.0, 3.0), 2.0) == Vec3(0.5, 1.0, 1.5)
    ensures LengthSquared(Vec3(1.0, 2.0, 3.0)) == 14.0
  {
  }

  lemma DotExamples()
    ensures Dot(Vec3(1.0, 2.0, 3.0), Vec3(4.0, 5.0, 6.0)) == 32.0
    ensures Dot(Vec3(-1.0, 0.0, -1.0), Vec3(1.0, -2.0, 1.0)) == -2.0
  {
  }

  lemma CrossExamples()
    ensures Cross(Vec3(1.0, 2.0, 3.0), Vec3(4.0, 5.0, 6.0)) == Vec3(-3.0, 6.0, -3.0)
    ensures Cross(Vec3(-1.0, 0.0, -1.0), Vec3(1.0, -2.0, 1.0)) == Vec3(-2.0, 0.0, 2.0)
  {
  }

  /** The cross product is perpendicular to both factors and changes sign when they swap. */
  lemma CrossOrthogonal(a: Vec3, b: Vec3)
    ensures Dot(Cross(a, b), a) == 0.0 && Dot(Cross(a, b), b) == 0.0
    ensures Cross(b, a) == Neg(Cross(a, b))
  {
  }

  /** Lagrange's identity |a x b|^2 = |a|^2 |b|^2 - (a . b)^2, hence Cauchy-Schwarz. */
  lemma {:induction false} Lagrange(a: Vec3, b: Vec3)
    ensures LengthSquared(Cross(a, b)) == LengthSquared(a) * LengthSquared(b) - Dot(a, b) * Dot(a, b)
    ensures Dot(a, b) * Dot(a, b) <= LengthSquared(a) * LengthSquared(b)
  {
    var c := Cross(a, b);
    assert LengthSquared(c)
        == (a.y * b.z - a.z * b.y) * (a.y * b.z - a.z * b.y)
         + (a.z * b.x - a.x * b.z) * (a.z * b.x - a.x * b.z)
         + (a.x * b.y - a.y * b.x) * (a.x * b.y - a.y * b.x);
    assert LengthSquared(c) >= 0.0;
  }

  /** Each squared component is at most the squared length. */
  lemma LengthSquaredBounds(v: Vec3)
    ensures v.x * Same(v.x) <= LengthSquared(v)
    ensures v.y * Same(v.y) <= LengthSquared(v)
    ensures v.z * Same(v.z) <= LengthSquared(v)
  {
    SquareNonNegative(v.x);
    SquareNonNegative(v.y);
    SquareNonNegative(v.z);
  }

  /** A vector with a non-zero component has positive squared length. */
  lemma LengthSquaredPositive(v: Vec3, r: real)
    requires r == v.x || r == v.y || r == v.z
    requires r != 0.0
    ensures 0.0 < LengthSquared(v)
  {
    LengthSquaredBounds(v);
    SquarePositive(r);
  }

  /** Only the zero vector has squared length zero. */
  lemma {:induction false} LengthSquaredZero(v: Vec3)
    ensures v != Zero ==> 0.0 < LengthSquared(v)
    ensures LengthSquared(v) == 0.0 <==> v == Zero
  {
    if v.x != 0.0 {
      LengthSquaredPositive(v, v.x);
    } else if v.y != 0.0 {
      LengthSquaredPositive(v, v.y);
    } else if v.z != 0.0 {
      LengthSquaredPositive(v, v.z);
    }
  }

  lemma NearZeroExamples()
    ensures NearZero(Zero)
    ensures NearZero(Vec3(0.000000001, 0.000000001, 0.000000001))
    ensures !NearZero(Vec3(1.0, 2.0, 3.0))
  {
  }

  /** A near-zero vector has squared length below 3e-16, and `near_zero` is blind to sign. */
  lemma NearZeroSmall(v: Vec3)
    requires NearZero(v)
    ensures LengthSquared(v) < 3.0 * NearZeroThreshold * NearZeroThreshold
    ensures NearZero(Neg(v))
  {
    assert NearZeroThreshold * Same(NearZeroThreshold) == NearZeroThreshold * NearZeroThreshold;
    SquareBelow(v.x, NearZeroThreshold);
    SquareBelow(v.y, NearZeroThreshold);
    SquareBelow(v.z, NearZeroThreshold);
  }

  /**
   * `unit_vector` returns the zero vector for the zero vector, and for any other vector a
   * positive multiple of it whose length is 1.
   */
  lemma {:induction false} UnitVectorSpec(v: Vec3, sqrt: real -> real)
    requires IsSqrt(sqrt(LengthSquared(v)), LengthSquared(v))
    ensures v == Zero ==> UnitVector(v, sqrt) == Zero
    ensures v != Zero ==> 0.0 < Length(v, sqrt)
    ensures v != Zero ==> Scale(Length(v, sqrt), UnitVector(v, sqrt)) == v
    ensures v != Zero ==> LengthSquared(UnitVector(v, sqrt)) == 1.0 && UnitVector(v, sqrt) != Zero
  {
    var len := Length(v, sqrt);
    LengthSquaredZero(v);
    SqrtSign(len, LengthSquared(v));
    if v != Zero {
      var u := DivScalar(v, len);
      LengthSquaredScale(len, u);
      UnitScale(len, LengthSquared(v), LengthSquared(u));
    }
  }

  /** If `len` is the root of `ls > 0` and `ls == len^2 * k`, then `k == 1`. */
  lemma UnitScale(len: real, ls: real, k: real)
    requires IsSqrt(len, ls) && 0.0 < ls
    requires ls == len * len * k
    ensures k == 1.0
  {
    var p := len * len;
    assert p == ls;
    if k < 1.0 {
      ProductPositive(p, 1.0 - k);
    } else if k > 1.0 {
      ProductPositive(p, k - 1.0);
    }
  }

  /** Every component of a unit-length vector lies in [-1, 1]. */
  lemma UnitComponents(v: Vec3)
    requires LengthSquared(v) == 1.0
    ensures -1.0 <= v.x <= 1.0 && -1.0 <= v.y <= 1.0 && -1.0 <= v.z <= 1.0
  {
    LengthSquaredBounds(v);
    SquareAtMostOne(v.x);
    SquareAtMostOne(v.y);
    SquareAtMostOne(v.z);
  }

  /** Whatever the vector, every component of `unit_vector` lies in [-1, 1]. */
  lemma UnitVectorComponents(v: Vec3, sqrt: real -> real)
    requires IsSqrt(sqrt(LengthSquared(v)), LengthSquared(v))
    ensures var u := UnitVector(v, sqrt); -1.0 <= u.x <= 1.0 && -1.0 <= u.y <= 1.0 && -1.0 <= u.z <= 1.0
  {
    UnitVectorSpec(v, sqrt);
    if v != Zero {
      UnitComponents(UnitVector(v, sqrt));
    }
  }

  /**
   * The reflections of the unit tests, stated for every vector they instantiate: the zero
   * vector stays put, a unit normal reflects onto its negation, and a vector `(k, k, 0)` (the
   * unit vector along (1, 1, 0) when `k` is 1/sqrt(2)) reflects about (1, 0, 1) onto `(-k, k, -2k)`.
   */
  lemma ReflectExamples(n: Vec3, k: real)
    ensures Reflect(Zero, n) == Zero
    ensures LengthSquared(n) == 1.0 ==> Reflect(n, n) == Neg(n)
    ensures Reflect(Vec3(k, k, 0.0), Vec3(1.0, 0.0, 1.0)) == Vec3(-k, k, -2.0 * k)
  {
    assert Dot(Zero, n) == 0.0;
    assert Scale(2.0, n) == Vec3(2.0 * n.x, 2.0 * n.y, 2.0 * n.z);
    assert Dot(Vec3(k, k, 0.0), Vec3(1.0, 0.0, 1.0)) == k;
  }

  /** `|reflect(v, n)|^2 = |v|^2 + 4 (v . n)^2 (|n|^2 - 1)`, whatever the normal. */
  lemma ReflectLength(v: Vec3, n: Vec3)
    ensures LengthSquared(Reflect(v, n)) == LengthSquared(v) + 4.0 * Dot(v, n) * Dot(v, n) * (LengthSquared(n) - 1.0)
  {
    var k := 2.0 * Dot(v, n);
    LengthSquaredSub(v, Scale(k, n));
    DotScaleRight(v, k, n);
    LengthSquaredScale(k, n);
    ReflectAlgebra(LengthSquared(v), Dot(v, n), LengthSquared(n), k);
  }

  lemma ReflectAlgebra(lv: real, d: real, ln: real, k: real)
    requires k == 2.0 * d
    ensures lv - 2.0 * (k * d) + k * k * ln == lv + 4.0 * d * d * (ln - 1.0)
  {
  }

  /**
   * About a unit normal, reflection negates the normal component, keeps the length, and is
   * undone by reflecting again.
   */
  lemma {:induction false} ReflectSpec(v: Vec3, n: Vec3)
    requires LengthSquared(n) == 1.0
    ensures Dot(Reflect(v, n), n) == -Dot(v, n)
    ensures LengthSquared(Reflect(v, n)) == LengthSquared(v)
    ensures Reflect(Reflect(v, n), n) == v
  {
    var d := Dot(v, n);
    var m := Scale(2.0 * d, n);
    DotSub(v, m, n);
    DotScaleLeft(2.0 * d, n, n);
    TimesOne(2.0 * d, Dot(n, n));
    ReflectLength(v, n);
    TimesZero(4.0 * d * d, LengthSquared(n) - 1.0);
    assert Scale(2.0 * -d, n) == Neg(m);
  }

  /** Removing the normal component `d n` of `uv` leaves a vector at right angles to a unit `n`. */
  lemma {:induction false} TangentOrthogonal(uv: Vec3, n: Vec3, d: real)
    requires LengthSquared(n) == 1.0 && d == Dot(uv, n)
    ensures Dot(Add(uv, Scale(-d, n)), n) == 0.0
  {
    DotAdd(uv, Scale(-d, n), n);
    DotScaleLeft(-d, n, n);
    TimesOne(-d, Dot(n, n));
  }

  /** The tangential part of a vector has squared length `|uv|^2 - d^2` for a unit normal. */
  lemma {:induction false} TangentLength(uv: Vec3, n: Vec3, d: real)
    requires LengthSquared(n) == 1.0 && d == Dot(uv, n)
    ensures LengthSquared(Add(uv, Scale(-d, n))) == LengthSquared(uv) - d * d
  {
    LengthSquaredAdd(uv, Scale(-d, n));
    DotScaleRight(uv, -d, n);
    LengthSquaredScale(-d, n);
    TimesOne(-d * -d, LengthSquared(n));
  }

  /** Refraction leaves the tangential part `eta (uv + cos n)` at right angles to a unit normal, with squared length `eta^2 (1 - cos^2)`. */
  lemma {:induction false} RefractPerp(uv: Vec3, n: Vec3, eta: real)
    requires LengthSquared(uv) == 1.0 && LengthSquared(n) == 1.0
    ensures var cosTheta := -Dot(uv, n);
      -1.0 <= cosTheta <= 1.0 &&
      Dot(Scale(eta, Add(uv, Scale(cosTheta, n))), n) == 0.0 &&
      LengthSquared(Scale(eta, Add(uv, Scale(cosTheta, n)))) == eta * eta * (1.0 - cosTheta * cosTheta)
  {
    var d := Dot(uv, n);
    Lagrange(uv, n);
    TimesOne(LengthSquared(uv), LengthSquared(n));
    SquareAtMostOne(d);
    var w := Add(uv, Scale(-d, n));
    TangentOrthogonal(uv, n, d);
    DotScaleLeft(eta, w, n);
    TimesZero(eta, Dot(w, n));
    TangentLength(uv, n, d);
    LengthSquaredScale(eta, w);
  }

  /** Refracting a unit vector through a unit normal gives a unit vector when there is no total internal reflection. */
  lemma {:induction false} RefractUnit(uv: Vec3, n: Vec3, eta: real, cosTheta: real, sqrt: real -> real)
    requires LengthSquared(uv) == 1.0 && LengthSquared(n) == 1.0
    requires cosTheta == -Dot(uv, n) && eta * eta * (1.0 - cosTheta * cosTheta) <= 1.0
    requires SqrtOracle(sqrt)
    ensures LengthSquared(Refract(uv, n, eta, sqrt)) == 1.0
  {
    RefractPerp(uv, n, eta);
    var c := cosTheta;
    DotNeg(uv, n);
    var perp := Scale(eta, Add(uv, Scale(c, n)));
    var q := LengthSquared(perp);
    var s := sqrt(Abs(1.0 - q));
    assert IsSqrt(s, 1.0 - q);
    var par := Scale(-s, n);
    assert Refract(uv, n, eta, sqrt) == Add(perp, par);
    LengthSquaredAdd(perp, par);
    DotScaleRight(perp, -s, n);
    TimesZero(-s, Dot(perp, n));
    LengthSquaredScale(-s, n);
    TimesOne(-s * -s, LengthSquared(n));
  }
}
