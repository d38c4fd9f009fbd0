/**
  * Index arithmetic of the per-frame scroll step of the terrain floor
  * (src/App.js:62-71): the JavaScript remainder, the write index
  * `Math.floor((idx + offset) % n)`, and the rotation it amounts to while
  * the offset is a multiple of one half.
  */
module Scroll {

  lemma MulNonneg(a: int, b: int)
    requires a >= 0 && b >= 0
    ensures a * b >= 0
  {
  }

  lemma RealFraction(m: real, f: real)
    requires m > 0.0 && 0.0 <= f < 1.0
    ensures 0.0 <= m * f < m
  {
  }

  lemma RealFractionBack(m: real, f: real)
    requires m > 0.0 && 0.0 <= m * f < m
    ensures 0.0 <= f < 1.0
  {
  }

  /** a - m*t lies in [0, m) when t is within one below a/m. */
  lemma RemBounds(a: real, m: real, t: real)
    requires m > 0.0 && 0.0 <= a / m - t < 1.0
    ensures 0.0 <= a - m * t < m
  {
    var q := a / m;
    var f := q - t;
    RealFraction(m, f);
    assert m * q == a;
    assert m * f == m * q - m * t;
    assert m * f == a - m * t;
  }

  lemma IntMulAsReal(a: int, b: int)
    ensures (a * b) as real == a as real * b as real
  {
  }

  /** Euclidean division fixed by its quotient and remainder. */
  lemma DivModUnique(a: int, m: int, q: int, r: int)
    requires m > 0 && 0 <= r < m && a == q * m + r
    ensures a / m == q && a % m == r
  {
    var q0, r0 := a / m, a % m;
    assert a == q0 * m + r0;
    if q > q0 {
      MulNonneg(q - q0 - 1, m);
      assert false;
    } else if q < q0 {
      MulNonneg(q0 - q - 1, m);
      assert false;
    }
  }

  /** Adding a multiple of m does not change a remainder modulo m. */
  lemma ModAddMultiple(a: int, c: int, m: int)
    requires m > 0
    ensures (a + c * m) % m == a % m
  {
    DivModUnique(a + c * m, m, a / m + c, a % m);
  }

  /**
    * JavaScript's `%` on numbers: the remainder of the division truncated
    * toward zero, so its sign follows the dividend and, for a non-negative
    * dividend, it lies in [0, m).
    */
  function JsRem(a: real, m: real): (r: real)
    requires m > 0.0
    ensures a >= 0.0 ==> 0.0 <= r < m
    ensures a < 0.0 ==> -m < r <= 0.0
  {
    var q := a / m;
    if q >= 0.0 then
      var t := q.Floor as real;
      RemBounds(a, m, t);
      a - m * t
    else
      var t := -((-q).Floor as real);
      assert (-a) / m == -q;
      RemBounds(-a, m, -t);
      assert -a - m * (-t) == -(a - m * t);
      a - m * t
  }

  /** The remainder of a non-negative a = d*m + rem, with 0 <= rem < m, is rem. */
  lemma JsRemExact(a: real, m: real, d: int, rem: real)
    requires m > 0.0 && d >= 0 && 0.0 <= rem < m && a == d as real * m + rem
    ensures JsRem(a, m) == rem
  {
    var q := a / m;
    var f := q - d as real;
    assert m * q == a;
    assert m * f == m * q - m * d as real;
    assert m * f == rem;
    RealFractionBack(m, f);
    assert q.Floor == d;
  }

  /**
    * The write index of one scroll step: the height at position `idx` of the
    * height list goes to plane vertex `Math.floor((idx + offset) % n)`.
    */
  function PlaneIndex(idx: nat, offset: real, n: nat): (p: int)
    requires n > 0 && offset >= 0.0
    ensures 0 <= p < n
  {
    JsRem(idx as real + offset, n as real).Floor
  }

  /** Display position of source position i under a rotation by k. */
  function Dest(i: int, k: int, n: nat): (j: nat)
    requires n > 0
    ensures j < n
  {
    (i + k) % n
  }

  /** Source position whose height lands on display position j under a rotation by k. */
  function Source(j: int, k: int, n: nat): (i: nat)
    requires n > 0
    ensures i < n
    ensures Dest(i, k, n) == j % n
  {
    var i, c := (j - k) % n, (j - k) / n;
    assert i + k == j + (-c) * n;
    ModAddMultiple(j, -c, n);
    i
  }

  /** Source inverts Dest on [0, n). */
  lemma SourceOfDest(i: int, k: int, n: nat)
    requires n > 0 && 0 <= i < n
    ensures Source(Dest(i, k, n), k, n) == i
  {
    var j := Dest(i, k, n);
    DivModUnique(i + k, n, (i + k) / n, j);
    assert j - k == i + (-((i + k) / n)) * n;
    DivModUnique(j - k, n, -((i + k) / n), i);
  }

  /** Dest inverts Source on [0, n). */
  lemma DestOfSource(j: int, k: int, n: nat)
    requires n > 0 && 0 <= j < n
    ensures Dest(Source(j, k, n), k, n) == j
  {
    DivModUnique(j, n, 0, j);
  }

  /**
    * A rotation is a bijection of [0, n): no two source positions share a
    * display position, and every display position receives one.
    */
  lemma RotationBijective(k: int, n: nat)
    requires n > 0
    ensures forall i1, i2 :: 0 <= i1 < n && 0 <= i2 < n && Dest(i1, k, n) == Dest(i2, k, n) ==> i1 == i2
    ensures forall j :: 0 <= j < n ==> 0 <= Source(j, k, n) < n && Dest(Source(j, k, n), k, n) == j
  {
    forall i1, i2 | 0 <= i1 < n && 0 <= i2 < n && Dest(i1, k, n) == Dest(i2, k, n)
      ensures i1 == i2
    {
      SourceOfDest(i1, k, n);
      SourceOfDest(i2, k, n);
    }
    forall j | 0 <= j < n
      ensures Dest(Source(j, k, n), k, n) == j
    {
      DestOfSource(j, k, n);
    }
  }

  /**
    * The rotation applied by the t-th tick (counting from 1): the offset at
    * that tick is t/2, and only its whole part, modulo n, moves a height.
    */
  function Rotation(t: nat, n: nat): (k: nat)
    ensures n > 0 ==> k < n
    ensures n == 0 ==> k == 0
  {
    if n == 0 then 0 else (t / 2) % n
  }

  /** The write index of a dividend whose whole part is d*n + e, for e in [0, n), is e. */
  lemma PlaneIndexOf(idx: nat, offset: real, n: nat, d: nat, e: nat, frac: real)
    requires n > 0 && offset >= 0.0 && e < n && 0.0 <= frac < 1.0
    requires idx as real + offset == d as real * n as real + (e as real + frac)
    ensures PlaneIndex(idx, offset, n) == e
  {
    JsRemExact(idx as real + offset, n as real, d, e as real + frac);
  }

  /** With the offset at h half-steps, the write index is the whole part of idx + h/2, modulo n. */
  lemma HalfStepFloor(idx: nat, h: nat, n: nat)
    requires n > 0
    ensures PlaneIndex(idx, h as real / 2.0, n) == (idx + h / 2) % n
  {
    var I := idx + h / 2;
    var d, e := I / n, I % n;
    assert I == d * n + e;
    IntMulAsReal(d, n);
    assert I as real == d as real * n as real + e as real;
    var frac := (h % 2) as real / 2.0;
    assert idx as real + h as real / 2.0 == I as real + frac;
    PlaneIndexOf(idx, h as real / 2.0, n, d, e, frac);
  }

  /** Reducing the rotation modulo n first does not move the display position. */
  lemma RotationReduced(idx: nat, q: nat, n: nat)
    requires n > 0
    ensures (idx + q) % n == Dest(idx, q % n, n)
  {
    DivModUnique(q, n, q / n, q % n);
    assert idx + q == (idx + q % n) + (q / n) * n;
    ModAddMultiple(idx + q % n, q / n, n);
  }

  /** Doubling both sides: the all-integer form of the write index. */
  lemma DoubledIndex(idx: nat, h: nat, n: nat)
    requires n > 0
    ensures (2 * idx + h) % (2 * n) / 2 == (idx + h / 2) % n
  {
    var I := idx + h / 2;
    var d, e := I / n, I % n;
    assert I == d * n + e;
    DivModUnique(2 * idx + h, 2 * n, d, 2 * e + h % 2);
  }

  /**
    * While the offset is h half-steps, the floating-point write index is an
    * exact rotation by floor(h/2) mod n, and equals the all-integer form
    * (2*idx + h) % (2*n) / 2.
    */
  lemma HalfStepIndex(idx: nat, h: nat, n: nat)
    requires n > 0
    ensures PlaneIndex(idx, h as real / 2.0, n) == Dest(idx, Rotation(h, n), n)
    ensures PlaneIndex(idx, h as real / 2.0, n) == (2 * idx + h) % (2 * n) / 2
  {
    HalfStepFloor(idx, h, n);
    RotationReduced(idx, h / 2, n);
    DoubledIndex(idx, h, n);
  }
}
