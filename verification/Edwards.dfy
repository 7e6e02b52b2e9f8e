/** The twisted Edwards curve -x^2 + y^2 = 1 + D x^2 y^2 over the integers modulo P, in the
    extended coordinates of RFC 8032: the addition used by the conformance suite, the invariants
    it keeps, its completeness and the group laws that follow from the field alone. */
module Edwards {

  type Modulus = n: int | n > 1 witness 2

  datatype Point = Point(x: int, y: int, z: int, t: int)

  const O := Point(0, 1, 1, 0)

  /** A prime modulus, the curve coefficient and a square root of -1. */
  datatype Curve = Curve(P: Modulus, D: int, I: int) {

    // ------------------------------------------------------------ congruences

    ghost predicate Times(a: int, b: int, k: int) {
      a - b == P * k
    }

    /** Congruence modulo P. */
    ghost predicate Cong(a: int, b: int) {
      exists k :: Times(a, b, k)
    }

    lemma CongByMultiple(a: int, b: int, k: int)
      requires a - b == P * k
      ensures Cong(a, b)
    {
      assert Times(a, b, k);
    }

    lemma CongWitness(a: int, b: int) returns (k: int)
      requires Cong(a, b)
      ensures a - b == P * k
    {
      k :| Times(a, b, k);
    }

    lemma CongRefl(a: int)
      ensures Cong(a, a)
    {
      CongByMultiple(a, a, 0);
    }

    lemma CongSym(a: int, b: int)
      requires Cong(a, b)
      ensures Cong(b, a)
    {
      var k := CongWitness(a, b);
      CongByMultiple(b, a, -k);
    }

    lemma CongTrans(a: int, b: int, c: int)
      requires Cong(a, b) && Cong(b, c)
      ensures Cong(a, c)
    {
      var k := CongWitness(a, b);
      var j := CongWitness(b, c);
      CongByMultiple(a, c, k + j);
    }

    lemma CongAdd(a: int, a': int, b: int, b': int)
      requires Cong(a, a') && Cong(b, b')
      ensures Cong(a + b, a' + b') && Cong(a - b, a' - b')
    {
      var k := CongWitness(a, a');
      var j := CongWitness(b, b');
      CongByMultiple(a + b, a' + b', k + j);
      CongByMultiple(a - b, a' - b', k - j);
    }

    lemma CongMul(a: int, a': int, b: int, b': int)
      requires Cong(a, a') && Cong(b, b')
      ensures Cong(a * b, a' * b')
    {
      var k := CongWitness(a, a');
      var j := CongWitness(b, b');
      assert a * b - a' * b' == (a - a') * b + a' * (b - b');
      Distribute(k, b, a', j);
      CongByMultiple(a * b, a' * b', k * b + a' * j);
    }

    lemma Distribute(k: int, b: int, c: int, j: int)
      ensures (P * k) * b + c * (P * j) == P * (k * b + c * j)
    {
    }

    lemma ModMultiple(k: int)
      ensures (P * k) % P == 0
    {
      var q, r := (P * k) / P, (P * k) % P;
      assert P * k == P * q + r;
      SmallMultiple(k - q, r);
    }

    lemma SmallMultiple(k: int, r: int)
      requires r == P * k && 0 - P < r < P
      ensures r == 0
    {
      if k >= 1 {
        MulMonotone(P, 1, k);
      } else if k <= -1 {
        MulMonotone(P, k, -1);
      }
    }

    static lemma MulMonotone(p: int, a: int, b: int)
      requires a <= b && p > 0
      ensures p * a <= p * b
    {
    }

    lemma CongIsMod(a: int, b: int)
      ensures Cong(a, b) <==> (a - b) % P == 0
    {
      if Cong(a, b) {
        var k := CongWitness(a, b);
        ModMultiple(k);
      }
      if (a - b) % P == 0 {
        CongByMultiple(a, b, (a - b) / P);
      }
    }

    lemma CongScale(a: int, a': int, c: int)
      requires Cong(a, a')
      ensures Cong(a * c, a' * c) && Cong(c * a, c * a')
    {
      CongRefl(c);
      CongMul(a, a', c, c);
    }

    lemma CongReduce(a: int)
      ensures Cong(a % P, a) && Cong(a, a % P)
    {
      CongByMultiple(a, a % P, a / P);
      CongSym(a, a % P);
    }

    /** Equal residues are equal numbers. */
    lemma CongSmall(a: int, b: int)
      requires Cong(a, b) && 0 <= a < P && 0 <= b < P
      ensures a == b
    {
      var k := CongWitness(a, b);
      SmallMultiple(k, a - b);
    }

    // -------------------------------------------------------------------- powers

    function Pow(b: int, e: nat): int
    {
      if e == 0 then 1 else b * Pow(b, e - 1)
    }

    lemma {:induction false} PowAdd(b: int, m: nat, n: nat)
      ensures Pow(b, m + n) == Pow(b, m) * Pow(b, n)
    {
      if m > 0 {
        PowAdd(b, m - 1, n);
        assert b * (Pow(b, m - 1) * Pow(b, n)) == (b * Pow(b, m - 1)) * Pow(b, n);
      }
    }

    lemma {:induction false} PowMul(b: int, m: nat, n: nat)
      ensures Pow(Pow(b, m), n) == Pow(b, m * n)
    {
      if n > 0 {
        PowMul(b, m, n - 1);
        PowAdd(b, m, m * (n - 1));
        assert m + m * (n - 1) == m * n;
      } else {
        assert m * n == 0;
      }
    }

    lemma {:induction false} PowCong(a: int, b: int, n: nat)
      requires Cong(a, b)
      ensures Cong(Pow(a, n), Pow(b, n))
    {
      if n == 0 {
        CongRefl(1);
      } else {
        PowCong(a, b, n - 1);
        CongMul(a, b, Pow(a, n - 1), Pow(b, n - 1));
      }
    }

    // ------------------------------------------------- hypotheses about the prime

    ghost predicate ZeroProduct(a: int, b: int) {
      Cong(a * b, 0)
    }

    ghost predicate NoZeroDivisors() {
      forall a, b :: ZeroProduct(a, b) ==> Cong(a, 0) || Cong(b, 0)
    }

    ghost predicate FermatAt(a: int, e: nat) {
      Cong(Pow(a, e), 1)
    }

    ghost predicate Fermat() {
      forall a, e: nat :: e == P - 1 && !Cong(a, 0) ==> FermatAt(a, e)
    }

    lemma Cancel(c: int, a: int, b: int)
      requires NoZeroDivisors() && !Cong(c, 0) && Cong(c * a, c * b)
      ensures Cong(a, b)
    {
      assert c * a - c * b == c * (a - b);
      var k := CongWitness(c * a, c * b);
      CongByMultiple(c * (a - b), 0, k);
      assert ZeroProduct(c, a - b);
      var j := CongWitness(a - b, 0);
      CongByMultiple(a, b, j);
    }

    lemma ZeroSplit(a: int, b: int)
      requires NoZeroDivisors() && Cong(a * b, 0)
      ensures Cong(a, 0) || Cong(b, 0)
    {
      assert ZeroProduct(a, b);
    }

    lemma NonzeroProduct(a: int, b: int)
      requires NoZeroDivisors() && !Cong(a, 0) && !Cong(b, 0)
      ensures !Cong(a * b, 0)
    {
      assert ZeroProduct(a, b) <==> Cong(a * b, 0);
    }

    lemma ZeroFactor(a: int, b: int)
      requires Cong(a, 0)
      ensures Cong(a * b, 0) && Cong(b * a, 0)
    {
      CongScale(a, 0, b);
    }

    lemma CongNonzero(a: int, b: int)
      requires Cong(a, b) && !Cong(b, 0)
      ensures !Cong(a, 0)
    {
      CongSym(a, b);
      if Cong(a, 0) {
        CongTrans(b, a, 0);
      }
    }

    // ------------------------------------------------------------- the curve

    function Add(p: Point, q: Point): Point {
      var a := (p.y - p.x) * (q.y - q.x) % P;
      var b := (p.y + p.x) * (q.y + q.x) % P;
      var c := 2 * p.t * q.t * D % P;
      var d := 2 * p.z * q.z % P;
      var e, f, g, h := b - a, d - c, d + c, b + a;
      Point(e * f % P, g * h % P, f * g % P, e * h % P)
    }

    /** Equality of projective points. */
    predicate Same(p: Point, q: Point) {
      (p.x * q.z - q.x * p.z) % P == 0 && (p.y * q.z - q.y * p.z) % P == 0
    }

    /** XY = ZT, on the curve, and not at infinity. */
    ghost predicate Valid(p: Point) {
      && !Cong(p.z, 0)
      && Cong(p.x * p.y, p.z * p.t)
      && Cong(p.y * p.y - p.x * p.x, p.z * p.z + D * (p.t * p.t))
    }

    /** What is asked of the three constants; checked by computation for the real ones. */
    ghost predicate Sound() {
      && Cong(I * I, -1)
      && !Cong(D, 0) && !Cong(D + 1, 0) && !Cong(I, 0) && !Cong(2, 0)
    }

    ghost predicate Regular() {
      NoZeroDivisors() && Sound()
    }

    /** `D` is not a square, stated without division. */
    ghost predicate ScaledSquare(u: int, v: int) {
      Cong(u * u, D * (v * v))
    }

    ghost predicate NonSquare() {
      forall u, v :: ScaledSquare(u, v) ==> Cong(v, 0)
    }

    // ------------------------------------------------ the formulas without reduction

    function E(p: Point, q: Point): int { 2 * (p.x * q.y + p.y * q.x) }
    function F(p: Point, q: Point): int { 2 * (p.z * q.z - D * (p.t * q.t)) }
    function G(p: Point, q: Point): int { 2 * (p.z * q.z + D * (p.t * q.t)) }
    function H(p: Point, q: Point): int { 2 * (p.y * q.y + p.x * q.x) }

    lemma Halves(x1: int, y1: int, x2: int, y2: int)
      ensures (y1 + x1) * (y2 + x2) - (y1 - x1) * (y2 - x2) == 2 * (x1 * y2 + y1 * x2)
      ensures (y1 + x1) * (y2 + x2) + (y1 - x1) * (y2 - x2) == 2 * (y1 * y2 + x1 * x2)
    {
    }

    lemma AddUnreduced(p: Point, q: Point)
      ensures var r := Add(p, q);
        && Cong(r.x, E(p, q) * F(p, q)) && Cong(r.y, G(p, q) * H(p, q))
        && Cong(r.z, F(p, q) * G(p, q)) && Cong(r.t, E(p, q) * H(p, q))
    {
      var a0, b0 := (p.y - p.x) * (q.y - q.x), (p.y + p.x) * (q.y + q.x);
      var c0, d0 := 2 * p.t * q.t * D, 2 * p.z * q.z;
      assert b0 - a0 == E(p, q) && b0 + a0 == H(p, q) by {
        Halves(p.x, p.y, q.x, q.y);
      }
      assert d0 - c0 == F(p, q) && d0 + c0 == G(p, q) by {
        assert c0 == 2 * (D * (p.t * q.t));
      }
      ReducedAddition(a0, b0, c0, d0, E(p, q), F(p, q), G(p, q), H(p, q));
    }

    lemma ReducedAddition(a0: int, b0: int, c0: int, d0: int, e: int, f: int, g: int, h: int)
      requires e == b0 - a0 && f == d0 - c0 && g == d0 + c0 && h == b0 + a0
      ensures var a, b, c, d := a0 % P, b0 % P, c0 % P, d0 % P;
        && Cong((b - a) * (d - c) % P, e * f) && Cong((d + c) * (b + a) % P, g * h)
        && Cong((d - c) * (d + c) % P, f * g) && Cong((b - a) * (b + a) % P, e * h)
    {
      var a, b, c, d := a0 % P, b0 % P, c0 % P, d0 % P;
      CongReduce(a0);
      CongReduce(b0);
      CongReduce(c0);
      CongReduce(d0);
      CongAdd(b, b0, a, a0);
      CongAdd(d, d0, c, c0);
      ReducedProduct(b - a, e, d - c, f);
      ReducedProduct(d + c, g, b + a, h);
      ReducedProduct(d - c, f, d + c, g);
      ReducedProduct(b - a, e, b + a, h);
    }

    lemma ReducedProduct(a: int, a': int, b: int, b': int)
      requires Cong(a, a') && Cong(b, b')
      ensures Cong(a * b % P, a' * b')
    {
      CongMul(a, a', b, b');
      CongReduce(a * b);
      CongTrans(a * b % P, a * b, a' * b');
    }

    // ------------------------------------------------------- the addition law

    lemma RatioOf(a: int, z: int, e: int, f: int, g: int, e': int, g': int)
      requires Regular() && Cong(a, e * f) && Cong(z, f * g) && e == 2 * e' && g == 2 * g'
      ensures Cong(a * g', e' * z)
    {
      CongScale(a, e * f, g);
      CongScale(z, f * g, e);
      ThreeFactors(e, f, g);
      CongSym(z * e, (f * g) * e);
      CongTrans(a * g, (e * f) * g, z * e);
      Twofold(a, g', z, e');
      Cancel(2, a * g', e' * z);
    }

    lemma ThreeFactors(e: int, f: int, g: int)
      ensures (e * f) * g == (f * g) * e
    {
    }

    lemma Twofold(a: int, g: int, z: int, e: int)
      ensures a * (2 * g) == 2 * (a * g) && z * (2 * e) == 2 * (e * z)
    {
    }

    /** The addition law of the curve: with quotients by Z, the sum of (x, y) and (x', y') has
        x = (x y' + y x') / (1 + D x x' y y') and y = (y y' + x x') / (1 - D x x' y y'). */
    lemma AddIsEdwards(p: Point, q: Point)
      requires Regular()
      ensures var r := Add(p, q);
        && Cong(r.x * (p.z * q.z + D * (p.t * q.t)), (p.x * q.y + p.y * q.x) * r.z)
        && Cong(r.y * (p.z * q.z - D * (p.t * q.t)), (p.y * q.y + p.x * q.x) * r.z)
    {
      var r := Add(p, q);
      AddUnreduced(p, q);
      RatioOf(r.x, r.z, E(p, q), F(p, q), G(p, q), p.x * q.y + p.y * q.x, p.z * q.z + D * (p.t * q.t));
      assert G(p, q) * H(p, q) == H(p, q) * G(p, q) && F(p, q) * G(p, q) == G(p, q) * F(p, q);
      RatioOf(r.y, r.z, H(p, q), G(p, q), F(p, q), p.y * q.y + p.x * q.x, p.z * q.z - D * (p.t * q.t));
    }

    // ------------------------------------------------------- closure: T and the curve

    lemma Regroup(e: int, f: int, g: int, h: int)
      ensures (e * f) * (g * h) == (f * g) * (e * h)
    {
    }

    /** The fourth coordinate stays the product of the first two over the third. */
    lemma AddKeepsT(p: Point, q: Point)
      ensures var r := Add(p, q); Cong(r.x * r.y, r.z * r.t)
    {
      var r := Add(p, q);
      var e, f, g, h := E(p, q), F(p, q), G(p, q), H(p, q);
      AddUnreduced(p, q);
      CongMul(r.x, e * f, r.y, g * h);
      CongMul(r.z, f * g, r.t, e * h);
      Regroup(e, f, g, h);
      CongSym(r.z * r.t, (f * g) * (e * h));
      CongTrans(r.x * r.y, (f * g) * (e * h), r.z * r.t);
    }

    /** The sum's curve equation as a polynomial in the quantities the two summands share. */
    function Defect(n: int, m: int, d: int, q: int, a1: int, a2: int, c1: int, c2: int): int {
      n * (c1 * c2) + 2 * (m * (q + 4 * (a1 * a2))) - n * n + 4 * (m * m)
      - d * ((a1 * a1) * (c2 * c2) + (a2 * a2) * (c1 * c1) + 8 * ((a1 * a2) * (a1 * a2)) + 2 * ((a1 * a2) * q))
    }

    lemma DefectCong(n: int, m: int, d: int, q: int, a1: int, a2: int, c1: int, c2: int,
                     b1: int, b2: int, s1: int, s2: int)
      requires Cong(a1, b1) && Cong(a2, b2) && Cong(c1, s1) && Cong(c2, s2)
      ensures Cong(Defect(n, m, d, q, a1, a2, c1, c2), Defect(n, m, d, q, b1, b2, s1, s2))
    {
      CongMul(c1, s1, c2, s2);
      CongMul(a1, b1, a2, b2);
      CongMul(a1, b1, a1, b1);
      CongMul(a2, b2, a2, b2);
      CongMul(c1, s1, c1, s1);
      CongMul(c2, s2, c2, s2);
      CongMul(a1 * a1, b1 * b1, c2 * c2, s2 * s2);
      CongMul(a2 * a2, b2 * b2, c1 * c1, s1 * s1);
      CongMul(a1 * a2, b1 * b2, a1 * a2, b1 * b2);
      var k1 := CongWitness(c1 * c2, s1 * s2);
      var k2 := CongWitness(a1 * a2, b1 * b2);
      var k3 := CongWitness((a1 * a1) * (c2 * c2), (b1 * b1) * (s2 * s2));
      var k4 := CongWitness((a2 * a2) * (c1 * c1), (b2 * b2) * (s1 * s1));
      var k5 := CongWitness((a1 * a2) * (a1 * a2), (b1 * b2) * (b1 * b2));
      DefectDifference(n, m, d, q, c1 * c2, a1 * a2, (a1 * a1) * (c2 * c2), (a2 * a2) * (c1 * c1),
                       (a1 * a2) * (a1 * a2), s1 * s2, b1 * b2, (b1 * b1) * (s2 * s2), (b2 * b2) * (s1 * s1),
                       (b1 * b2) * (b1 * b2), k1, k2, k3, k4, k5, P);
      CongByMultiple(Defect(n, m, d, q, a1, a2, c1, c2), Defect(n, m, d, q, b1, b2, s1, s2),
                     n * k1 + 8 * (m * k2) - d * (k3 + k4 + 8 * k5 + 2 * (k2 * q)));
    }

    /** How the defect moves when its five products move by multiples of `p`. */
    lemma DefectDifference(n: int, m: int, d: int, q: int, u1: int, u2: int, u3: int, u4: int, u5: int,
                           v1: int, v2: int, v3: int, v4: int, v5: int,
                           k1: int, k2: int, k3: int, k4: int, k5: int, p: int)
      requires u1 - v1 == p * k1 && u2 - v2 == p * k2 && u3 - v3 == p * k3 && u4 - v4 == p * k4 && u5 - v5 == p * k5
      ensures n * u1 + 2 * (m * (q + 4 * u2)) - n * n + 4 * (m * m) - d * (u3 + u4 + 8 * u5 + 2 * (u2 * q))
        - (n * v1 + 2 * (m * (q + 4 * v2)) - n * n + 4 * (m * m) - d * (v3 + v4 + 8 * v5 + 2 * (v2 * q)))
        == p * (n * k1 + 8 * (m * k2) - d * (k3 + k4 + 8 * k5 + 2 * (k2 * q)))
    {
      DistScale(n, u1, v1, p, k1);
      DistScale(m, q + 4 * u2, q + 4 * v2, p, 4 * k2);
      DistScale(q, u2, v2, p, k2);
      DistScale(d, u3 + u4 + 8 * u5 + 2 * (u2 * q), v3 + v4 + 8 * v5 + 2 * (v2 * q), p,
                k3 + k4 + 8 * k5 + 2 * (k2 * q));
    }

    lemma DistScale(c: int, u: int, v: int, p: int, k: int)
      requires u - v == p * k
      ensures c * u - c * v == p * (c * k)
    {
      assert c * u - c * v == c * (u - v);
    }

    /** With the exact values of the products the defect vanishes. */
    lemma DefectVanishes(d: int, q: int, z1: int, t1: int, z2: int, t2: int)
      ensures Defect((z1 * z1) * (z2 * z2) + (d * d) * ((t1 * t1) * (t2 * t2)), d * ((z1 * t1) * (z2 * t2)), d, q,
                     z1 * t1, z2 * t2, z1 * z1 + d * (t1 * t1), z2 * z2 + d * (t2 * t2)) == 0
    {
      var u1, v1, u2, v2 := z1 * z1, t1 * t1, z2 * z2, t2 * t2;
      var w := (z1 * t1) * (z2 * t2);
      SquareOfProduct(z1, t1);
      SquareOfProduct(z2, t2);
      SquareOfProduct(z1 * t1, z2 * t2);
      VanishCore(d, u1, v1, u2, v2);
      VanishAssemble(d, q, w, u1 * v1, u2 * v2, u1 * u2 + (d * d) * (v1 * v2), u1 + d * v1, u2 + d * v2);
    }

    lemma SquareOfProduct(a: int, b: int)
      ensures (a * b) * (a * b) == (a * a) * (b * b)
    {
    }

    lemma Swap(a: int, b: int, c: int, e: int)
      ensures (a * b) * (c * e) == (a * c) * (b * e)
      ensures (a * b) * (c * e) == (b * c) * (a * e)
    {
    }

    lemma Foil(a: int, b: int, c: int, e: int)
      ensures (a + b) * (c + e) == a * c + a * e + b * c + b * e
    {
    }

    lemma Square2(d: int, u: int, v: int)
      ensures (u + d * v) * (u + d * v) == u * u + 2 * (d * (u * v)) + (d * d) * (v * v)
    {
    }

    lemma ProductOfSums(d: int, u1: int, v1: int, u2: int, v2: int)
      ensures (u1 + d * v1) * (u2 + d * v2) == (u1 * u2 + (d * d) * (v1 * v2)) + d * (u1 * v2 + u2 * v1)
    {
      Foil(u1, d * v1, u2, d * v2);
      Swap(d, v1, d, v2);
    }

    lemma VanishCore(d: int, u1: int, v1: int, u2: int, v2: int)
      ensures var n, s1, s2 := u1 * u2 + (d * d) * (v1 * v2), u1 + d * v1, u2 + d * v2;
        n * (s1 * s2) - n * n + 4 * ((d * d) * ((u1 * v1) * (u2 * v2)))
        - d * ((u1 * v1) * (s2 * s2) + (u2 * v2) * (s1 * s1)) == 0
    {
      var n, s1, s2 := u1 * u2 + (d * d) * (v1 * v2), u1 + d * v1, u2 + d * v2;
      var k := u1 * v2 + u2 * v1;
      var g1, g2 := u1 * v1, u2 * v2;
      ProductOfSums(d, u1, v1, u2, v2);
      Square2(d, u1, v1);
      Square2(d, u2, v2);
      VanishProduct(d, u1, v1, u2, v2);
      VanishCombine(d, n, k, s1 * s2, g1 * g2, g1 * (s2 * s2) + g2 * (s1 * s1));
    }

    lemma VanishCombine(d: int, n: int, k: int, ss: int, g: int, r: int)
      requires ss == n + d * k && n * k + 4 * (d * g) == r
      ensures n * ss - n * n + 4 * ((d * d) * g) - d * r == 0
    {
      assert n * (n + d * k) == n * n + d * (n * k) by {
        Swap(n, d, 1, k);
        Scale(n, n, d * k);
      }
      assert d * (n * k + 4 * (d * g)) == d * (n * k) + 4 * ((d * d) * g) by {
        Scale(d, n * k, 4 * (d * g));
      }
    }

    lemma VanishProduct(d: int, u1: int, v1: int, u2: int, v2: int)
      ensures (u1 * u2 + (d * d) * (v1 * v2)) * (u1 * v2 + u2 * v1) + 4 * (d * ((u1 * v1) * (u2 * v2))) ==
        (u1 * v1) * (u2 * u2 + 2 * (d * (u2 * v2)) + (d * d) * (v2 * v2))
        + (u2 * v2) * (u1 * u1 + 2 * (d * (u1 * v1)) + (d * d) * (v1 * v1))
    {
      Swap(u1, u2, u1, v2);
      Swap(u1, u2, u2, v1);
      Swap(v1, v2, u1, v2);
      Swap(v1, v2, u2, v1);
      Foil(u1 * u2, (d * d) * (v1 * v2), u1 * v2, u2 * v1);
      Scale(d * d, v1 * v2, u1 * v2);
      Scale(d * d, v1 * v2, u2 * v1);
      VanishExpand(d, u1 * v1, u2 * v2, u1 * u1, u2 * u2, v1 * v1, v2 * v2);
    }

    lemma Scale(c: int, a: int, b: int)
      ensures (c * a) * b == c * (a * b)
    {
    }

    lemma VanishExpand(d: int, g1: int, g2: int, u1: int, u2: int, v1: int, v2: int)
      ensures g1 * (u2 + 2 * (d * g2) + (d * d) * v2) + g2 * (u1 + 2 * (d * g1) + (d * d) * v1) ==
        g1 * u2 + g2 * u1 + (d * d) * (g1 * v2) + (d * d) * (g2 * v1) + 4 * (d * (g1 * g2))
    {
      assert g1 * (u2 + 2 * (d * g2) + (d * d) * v2) == g1 * u2 + 2 * (d * (g1 * g2)) + (d * d) * (g1 * v2);
      assert g2 * (u1 + 2 * (d * g1) + (d * d) * v1) == g2 * u1 + 2 * (d * (g1 * g2)) + (d * d) * (g2 * v1);
    }

    lemma VanishAssemble(d: int, q: int, w: int, g1: int, g2: int, n: int, s1: int, s2: int)
      requires w * w == g1 * g2
      requires n * (s1 * s2) - n * n + 4 * ((d * d) * (g1 * g2)) - d * (g1 * (s2 * s2) + g2 * (s1 * s1)) == 0
      ensures n * (s1 * s2) + 2 * ((d * w) * (q + 4 * w)) - n * n + 4 * ((d * w) * (d * w))
        - d * (g1 * (s2 * s2) + g2 * (s1 * s1) + 8 * (w * w) + 2 * (w * q)) == 0
    {
      assert (d * w) * (d * w) == (d * d) * (w * w);
      assert (d * w) * (q + 4 * w) == d * (w * q) + 4 * (d * (w * w));
      assert d * (g1 * (s2 * s2) + g2 * (s1 * s1) + 8 * (w * w) + 2 * (w * q)) ==
        d * (g1 * (s2 * s2) + g2 * (s1 * s1)) + 8 * (d * (w * w)) + 2 * (d * (w * q));
    }

    lemma DefectIsSum(d: int, x1: int, y1: int, z1: int, t1: int, x2: int, y2: int, z2: int, t2: int)
      ensures var e, h := x1 * y2 + y1 * x2, y1 * y2 + x1 * x2;
        var f, g := z1 * z2 - d * (t1 * t2), z1 * z2 + d * (t1 * t2);
        (g * h) * (g * h) - (e * f) * (e * f) - (f * g) * (f * g) - d * ((e * h) * (e * h)) ==
        Defect((z1 * z1) * (z2 * z2) + (d * d) * ((t1 * t1) * (t2 * t2)), d * ((z1 * t1) * (z2 * t2)), d,
               (x1 * x1 + y1 * y1) * (x2 * x2 + y2 * y2),
               x1 * y1, x2 * y2, y1 * y1 - x1 * x1, y2 * y2 - x2 * x2)
    {
      var e, h := x1 * y2 + y1 * x2, y1 * y2 + x1 * x2;
      var f, g := z1 * z2 - d * (t1 * t2), z1 * z2 + d * (t1 * t2);
      var n, m := (z1 * z1) * (z2 * z2) + (d * d) * ((t1 * t1) * (t2 * t2)), d * ((z1 * t1) * (z2 * t2));
      var q := (x1 * x1 + y1 * y1) * (x2 * x2 + y2 * y2);
      FGSquares(d, z1, t1, z2, t2);
      EHSquares(x1, y1, x2, y2);
      EHProduct(x1, y1, x2, y2);
      SquareOfProduct(g, h);
      SquareOfProduct(e, f);
      SquareOfProduct(f, g);
      SumAssemble(n, m, d, e * e, h * h, (y1 * y1 - x1 * x1) * (y2 * y2 - x2 * x2), q + 4 * ((x1 * y1) * (x2 * y2)));
    }

    lemma FGSquares(d: int, z1: int, t1: int, z2: int, t2: int)
      ensures var f, g := z1 * z2 - d * (t1 * t2), z1 * z2 + d * (t1 * t2);
        var n, m := (z1 * z1) * (z2 * z2) + (d * d) * ((t1 * t1) * (t2 * t2)), d * ((z1 * t1) * (z2 * t2));
        f * f == n - 2 * m && g * g == n + 2 * m
    {
    }

    lemma EHSquares(x1: int, y1: int, x2: int, y2: int)
      ensures var e, h := x1 * y2 + y1 * x2, y1 * y2 + x1 * x2;
        && h * h - e * e == (y1 * y1 - x1 * x1) * (y2 * y2 - x2 * x2)
        && h * h + e * e == (x1 * x1 + y1 * y1) * (x2 * x2 + y2 * y2) + 4 * ((x1 * y1) * (x2 * y2))
    {
      Foil(y1 * y2, x1 * x2, y1 * y2, x1 * x2);
      Foil(x1 * y2, y1 * x2, x1 * y2, y1 * x2);
      SquareOfProduct(y1, y2);
      SquareOfProduct(x1, x2);
      SquareOfProduct(x1, y2);
      SquareOfProduct(y1, x2);
      Swap(x1, x2, y1, y2);
      FourFactors(x1, y2, y1, x2);
      Foil(y1 * y1, -(x1 * x1), y2 * y2, -(x2 * x2));
      Foil(x1 * x1, y1 * y1, x2 * x2, y2 * y2);
      NegatedProducts(x1 * x1, y1 * y1, x2 * x2, y2 * y2);
    }

    lemma NegatedProducts(a: int, b: int, c: int, e: int)
      ensures b * -c == -(b * c) && -a * e == -(a * e) && -a * -c == a * c
    {
    }

    lemma EHProduct(x1: int, y1: int, x2: int, y2: int)
      ensures var e, h := x1 * y2 + y1 * x2, y1 * y2 + x1 * x2;
        var a1, a2, c1, c2 := x1 * y1, x2 * y2, y1 * y1 - x1 * x1, y2 * y2 - x2 * x2;
        (e * h) * (e * h) == (a1 * a1) * (c2 * c2) + (a2 * a2) * (c1 * c1) + 8 * ((a1 * a2) * (a1 * a2))
          + 2 * ((a1 * a2) * ((x1 * x1 + y1 * y1) * (x2 * x2 + y2 * y2)))
    {
      var e, h := x1 * y2 + y1 * x2, y1 * y2 + x1 * x2;
      var a1, a2, c1, c2 := x1 * y1, x2 * y2, y1 * y1 - x1 * x1, y2 * y2 - x2 * x2;
      var q1, q2 := x1 * x1 + y1 * y1, x2 * x2 + y2 * y2;
      EHCross(x1, y1, x2, y2);
      SumSquare(x1, y1);
      SumSquare(x2, y2);
      EHAssemble(a1, a2, q1, q2, c1, c2);
    }

    lemma EHCross(x1: int, y1: int, x2: int, y2: int)
      ensures (x1 * y2 + y1 * x2) * (y1 * y2 + x1 * x2) ==
        (x1 * y1) * (x2 * x2 + y2 * y2) + (x2 * y2) * (x1 * x1 + y1 * y1)
    {
      Foil(x1 * y2, y1 * x2, y1 * y2, x1 * x2);
      Swap(x1, y2, y1, y2);
      Swap(x1, y2, x1, x2);
      Swap(y1, x2, y1, y2);
      Swap(y1, x2, x1, x2);
    }

    lemma SumSquare(x: int, y: int)
      ensures var a, c, q := x * y, y * y - x * x, x * x + y * y; q * q == c * c + 4 * (a * a)
    {
    }

    lemma EHAssemble(a1: int, a2: int, q1: int, q2: int, c1: int, c2: int)
      requires q1 * q1 == c1 * c1 + 4 * (a1 * a1) && q2 * q2 == c2 * c2 + 4 * (a2 * a2)
      ensures (a1 * q2 + a2 * q1) * (a1 * q2 + a2 * q1) ==
        (a1 * a1) * (c2 * c2) + (a2 * a2) * (c1 * c1) + 8 * ((a1 * a2) * (a1 * a2)) + 2 * ((a1 * a2) * (q1 * q2))
    {
      assert (a1 * q2 + a2 * q1) * (a1 * q2 + a2 * q1) ==
        (a1 * a1) * (q2 * q2) + (a2 * a2) * (q1 * q1) + 2 * ((a1 * a2) * (q1 * q2));
      assert (a1 * a1) * (c2 * c2 + 4 * (a2 * a2)) == (a1 * a1) * (c2 * c2) + 4 * ((a1 * a1) * (a2 * a2));
      assert (a2 * a2) * (c1 * c1 + 4 * (a1 * a1)) == (a2 * a2) * (c1 * c1) + 4 * ((a1 * a1) * (a2 * a2));
      SquareOfProduct(a1, a2);
    }

    lemma SumAssemble(n: int, m: int, d: int, ee: int, hh: int, diff: int, sum: int)
      requires hh - ee == diff && hh + ee == sum
      ensures (n + 2 * m) * hh - ee * (n - 2 * m) - (n - 2 * m) * (n + 2 * m) ==
        n * diff + 2 * (m * sum) - n * n + 4 * (m * m)
    {
      assert (n + 2 * m) * hh == n * hh + 2 * (m * hh);
      assert ee * (n - 2 * m) == n * ee - 2 * (m * ee);
      assert (n - 2 * m) * (n + 2 * m) == n * n - 4 * (m * m);
      assert n * diff == n * hh - n * ee;
      assert m * sum == m * hh + m * ee;
    }

    lemma AddOnCurve(p: Point, q: Point)
      requires Valid(p) && Valid(q)
      ensures var r := Add(p, q); Cong(r.y * r.y - r.x * r.x, r.z * r.z + D * (r.t * r.t))
    {
      var r := Add(p, q);
      var e, h := p.x * q.y + p.y * q.x, p.y * q.y + p.x * q.x;
      var f, g := p.z * q.z - D * (p.t * q.t), p.z * q.z + D * (p.t * q.t);
      AddUnreduced(p, q);
      CongSquare(r.x, E(p, q) * F(p, q));
      CongSquare(r.y, G(p, q) * H(p, q));
      CongSquare(r.z, F(p, q) * G(p, q));
      CongSquare(r.t, E(p, q) * H(p, q));
      var k1 := CongWitness(r.x * r.x, (E(p, q) * F(p, q)) * (E(p, q) * F(p, q)));
      var k2 := CongWitness(r.y * r.y, (G(p, q) * H(p, q)) * (G(p, q) * H(p, q)));
      var k3 := CongWitness(r.z * r.z, (F(p, q) * G(p, q)) * (F(p, q) * G(p, q)));
      var k4 := CongWitness(r.t * r.t, (E(p, q) * H(p, q)) * (E(p, q) * H(p, q)));
      Doubled(e, f);
      Doubled(g, h);
      Doubled(f, g);
      Doubled(e, h);
      SumDefect(p, q);
      var k := CongWitness((g * h) * (g * h) - (e * f) * (e * f) - (f * g) * (f * g) - D * ((e * h) * (e * h)), 0);
      CurveAssemble(D, r.x * r.x, r.y * r.y, r.z * r.z, r.t * r.t, (e * f) * (e * f), (g * h) * (g * h),
                    (f * g) * (f * g), (e * h) * (e * h), k1, k2, k3, k4, k, P);
      CongByMultiple(r.y * r.y - r.x * r.x, r.z * r.z + D * (r.t * r.t), k2 - k1 - k3 - D * k4 + 16 * k);
    }

    lemma CongSquare(a: int, b: int)
      requires Cong(a, b)
      ensures Cong(a * a, b * b)
    {
      CongMul(a, b, a, b);
    }

    lemma Doubled(a: int, b: int)
      ensures ((2 * a) * (2 * b)) * ((2 * a) * (2 * b)) == 16 * ((a * b) * (a * b))
    {
      assert (2 * a) * (2 * b) == 4 * (a * b);
    }

    lemma CurveAssemble(d: int, xx: int, yy: int, zz: int, tt: int, ef: int, gh: int, fg: int, eh: int,
                        k1: int, k2: int, k3: int, k4: int, k: int, p: int)
      requires xx - 16 * ef == p * k1 && yy - 16 * gh == p * k2 && zz - 16 * fg == p * k3 && tt - 16 * eh == p * k4
      requires gh - ef - fg - d * eh == p * k
      ensures (yy - xx) - (zz + d * tt) == p * (k2 - k1 - k3 - d * k4 + 16 * k)
    {
      assert d * tt == 16 * (d * eh) + p * (d * k4);
    }

    lemma SumDefect(p: Point, q: Point)
      requires Valid(p) && Valid(q)
      ensures var e, h := p.x * q.y + p.y * q.x, p.y * q.y + p.x * q.x;
        var f, g := p.z * q.z - D * (p.t * q.t), p.z * q.z + D * (p.t * q.t);
        Cong((g * h) * (g * h) - (e * f) * (e * f) - (f * g) * (f * g) - D * ((e * h) * (e * h)), 0)
    {
      var n, m := (p.z * p.z) * (q.z * q.z) + (D * D) * ((p.t * p.t) * (q.t * q.t)), D * ((p.z * p.t) * (q.z * q.t));
      var s := (p.x * p.x + p.y * p.y) * (q.x * q.x + q.y * q.y);
      DefectIsSum(D, p.x, p.y, p.z, p.t, q.x, q.y, q.z, q.t);
      DefectCong(n, m, D, s, p.x * p.y, q.x * q.y, p.y * p.y - p.x * p.x, q.y * q.y - q.x * q.x,
                 p.z * p.t, q.z * q.t, p.z * p.z + D * (p.t * p.t), q.z * q.z + D * (q.t * q.t));
      DefectVanishes(D, s, p.z, p.t, q.z, q.t);
    }

    // ----------------------------------------------------- completeness: z is not zero

    lemma RootSquare(p: Point, s: int)
      requires Sound() && Valid(p) && (s == 1 || s == -1)
      ensures Cong((I * p.x + s * p.y) * (I * p.x + s * p.y), p.z * p.z + D * (p.t * p.t) + 2 * (s * (I * (p.z * p.t))))
    {
      CongScale(I * I, -1, p.x * p.x);
      CongScale(p.x * p.y, p.z * p.t, 2 * (s * I));
      var k1 := CongWitness((I * I) * (p.x * p.x), (-1) * (p.x * p.x));
      var k2 := CongWitness((2 * (s * I)) * (p.x * p.y), (2 * (s * I)) * (p.z * p.t));
      var k3 := CongWitness(p.y * p.y - p.x * p.x, p.z * p.z + D * (p.t * p.t));
      RootExpand(I, p.x, p.y, s);
      Scale(2 * s, I, p.z * p.t);
      assert (2 * (s * I)) * (p.z * p.t) == 2 * (s * (I * (p.z * p.t)));
      CongByMultiple((I * p.x + s * p.y) * (I * p.x + s * p.y),
                     p.z * p.z + D * (p.t * p.t) + 2 * (s * (I * (p.z * p.t))), k1 + k2 + k3);
    }

    lemma RootExpand(i: int, x: int, y: int, s: int)
      requires s == 1 || s == -1
      ensures (i * x + s * y) * (i * x + s * y) == (i * i) * (x * x) + (2 * (s * i)) * (x * y) + y * y
    {
      Foil(i * x, s * y, i * x, s * y);
      Swap(i, x, i, x);
      Swap(i, x, s, y);
      Swap(s, y, s, y);
      Swap(s, y, i, x);
    }

    /** If a denominator of the sum vanished, D would be a square (up to these factors). */
    lemma DegenerateSquare(p: Point, q: Point, eps: int, s: int)
      requires Sound() && Valid(p) && Valid(q) && (s == 1 || s == -1) && (eps == 1 || eps == -1)
      requires Cong(D * (p.t * q.t), eps * (p.z * q.z))
      ensures ScaledSquare(q.z * (I * p.x + (s * eps) * p.y), p.t * (I * q.x + s * q.y))
    {
      var u, v := I * p.x + (s * eps) * p.y, I * q.x + s * q.y;
      RootSquare(p, s * eps);
      RootSquare(q, s);
      var a := p.z * p.z + D * (p.t * p.t) + 2 * ((s * eps) * (I * (p.z * p.t)));
      var b := q.z * q.z + D * (q.t * q.t) + 2 * (s * (I * (q.z * q.t)));
      CongScale(u * u, a, q.z * q.z);
      CongScale(v * v, b, D * (p.t * p.t));
      DegenerateSides(eps, s, p.z, p.t, q.z, q.t);
      CongSym((D * (p.t * p.t)) * (v * v), (D * (p.t * p.t)) * b);
      CongTrans((q.z * q.z) * (u * u), (q.z * q.z) * a, (D * (p.t * p.t)) * b);
      CongTrans((q.z * q.z) * (u * u), (D * (p.t * p.t)) * b, (D * (p.t * p.t)) * (v * v));
      SquareOfProduct(q.z, u);
      SquareOfProduct(p.t, v);
      Scale(D, p.t * p.t, v * v);
    }

    lemma DegenerateSides(eps: int, s: int, z1: int, t1: int, z2: int, t2: int)
      requires eps == 1 || eps == -1
      requires Cong(D * (t1 * t2), eps * (z1 * z2))
      ensures Cong((z2 * z2) * (z1 * z1 + D * (t1 * t1) + 2 * ((s * eps) * (I * (z1 * t1)))),
                   (D * (t1 * t1)) * (z2 * z2 + D * (t2 * t2) + 2 * (s * (I * (z2 * t2)))))
    {
      var w, x, c := z1 * z2, D * (t1 * t2), 2 * (s * (I * (z2 * t1)));
      var k := CongWitness(x, eps * w);
      DegenerateIdentity(D, I, eps, s, z1, t1, z2, t2);
      DegenerateFactor(w, x, eps, c, k, P);
      CongByMultiple((z2 * z2) * (z1 * z1 + D * (t1 * t1) + 2 * ((s * eps) * (I * (z1 * t1)))),
                     (D * (t1 * t1)) * (z2 * z2 + D * (t2 * t2) + 2 * (s * (I * (z2 * t2)))),
                     -k * (eps * w + x) - k * c);
    }

    lemma DegenerateFactor(w: int, x: int, eps: int, c: int, k: int, p: int)
      requires x - eps * w == p * k && (eps == 1 || eps == -1)
      ensures w * w - x * x + c * (eps * w - x) == p * (-k * (eps * w + x) - k * c)
    {
      assert w * w - x * x == (eps * w - x) * (eps * w + x);
      assert (eps * w - x) * (eps * w + x) == (p * -k) * (eps * w + x);
      assert c * (eps * w - x) == c * (p * -k);
      assert (p * -k) * (eps * w + x) == p * (-k * (eps * w + x));
      assert c * (p * -k) == p * (-k * c);
    }

    lemma DegenerateIdentity(d: int, i: int, eps: int, s: int, z1: int, t1: int, z2: int, t2: int)
      requires eps == 1 || eps == -1
      ensures var w, x := z1 * z2, d * (t1 * t2);
        (z2 * z2) * (z1 * z1 + d * (t1 * t1) + 2 * ((s * eps) * (i * (z1 * t1))))
        - (d * (t1 * t1)) * (z2 * z2 + d * (t2 * t2) + 2 * (s * (i * (z2 * t2))))
        == w * w - x * x + (2 * (s * (i * (z2 * t1)))) * (eps * w - x)
    {
      var w, x, c := z1 * z2, d * (t1 * t2), 2 * (s * (i * (z2 * t1)));
      SquareOfProduct(z1, z2);
      SquareOfProduct(d, t1 * t2);
      SquareOfProduct(t1, t2);
      assert (z2 * t1) * w == (z2 * z2) * (z1 * t1) by {
        Swap(z2, t1, z2, z1);
      }
      assert (z2 * t1) * (t1 * t2) == (t1 * t1) * (z2 * t2) by {
        Swap(z2, t1, t2, t1);
      }
      DegenerateTerms(s, eps, i, d, z2 * t1, w, t1 * t2);
      assert c * (eps * w - x) == c * (eps * w) - c * x;
      DegenerateAssemble(d, i, s * eps, s, z1 * z1, z2 * z2, t1 * t1, t2 * t2, z1 * t1, z2 * t2);
    }

    lemma DegenerateTerms(s: int, eps: int, i: int, d: int, a: int, w: int, tt: int)
      ensures (2 * (s * (i * a))) * (eps * w) == 2 * ((s * eps) * (i * (a * w)))
      ensures (2 * (s * (i * a))) * (d * tt) == 2 * (s * (i * (d * (a * tt))))
    {
      Swap(s, i * a, eps, w);
      Scale(i, a, w);
      Scale(s, i * a, d * tt);
      Scale(i, a, d * tt);
      Swap(1, a, d, tt);
    }

    lemma DegenerateAssemble(d: int, i: int, se: int, s: int, u1: int, u2: int, v1: int, v2: int, b1: int, b2: int)
      ensures u2 * (u1 + d * v1 + 2 * (se * (i * b1))) - (d * v1) * (u2 + d * v2 + 2 * (s * (i * b2))) ==
        u1 * u2 - (d * d) * (v1 * v2) + 2 * (se * (i * (u2 * b1))) - 2 * (s * (i * (d * (v1 * b2))))
    {
      assert u2 * (u1 + d * v1 + 2 * (se * (i * b1))) == u1 * u2 + d * (u2 * v1) + 2 * (se * (i * (u2 * b1)));
      assert (d * v1) * (u2 + d * v2 + 2 * (s * (i * b2))) ==
        d * (u2 * v1) + (d * d) * (v1 * v2) + 2 * (s * (i * (d * (v1 * b2))));
    }

    /** No denominator of a sum vanishes: the addition formulas are complete. */
    lemma Completeness(p: Point, q: Point, eps: int)
      requires Regular() && NonSquare() && Valid(p) && Valid(q) && (eps == 1 || eps == -1)
      ensures !Cong(D * (p.t * q.t), eps * (p.z * q.z))
    {
      OnlyOrigin(q);
      if Cong(D * (p.t * q.t), eps * (p.z * q.z)) {
        DegenerateRoot(p, q, eps, 1);
        DegenerateRoot(p, q, eps, -1);
      }
    }

    lemma DegenerateRoot(p: Point, q: Point, eps: int, s: int)
      requires Regular() && NonSquare() && Valid(p) && Valid(q)
      requires (s == 1 || s == -1) && (eps == 1 || eps == -1)
      requires Cong(D * (p.t * q.t), eps * (p.z * q.z))
      ensures Cong(I * q.x + s * q.y, 0)
    {
      DegenerateSquare(p, q, eps, s);
      NonzeroProduct(p.z, q.z);
      DegenerateNonzero(p.z * q.z, p.t, q.t, eps);
      SquareZero(q.z * (I * p.x + (s * eps) * p.y), p.t, I * q.x + s * q.y);
    }

    lemma SquareZero(u: int, t: int, v: int)
      requires NoZeroDivisors() && NonSquare() && ScaledSquare(u, t * v) && !Cong(t, 0)
      ensures Cong(v, 0)
    {
      ZeroSplit(t, v);
    }

    lemma UnitNonzero(eps: int)
      requires eps == 1 || eps == -1
      ensures !Cong(eps, 0)
    {
      if Cong(eps, 0) {
        var k := CongWitness(eps, 0);
        SmallMultiple(k, eps);
      }
    }

    lemma DegenerateNonzero(w: int, t: int, u: int, eps: int)
      requires NoZeroDivisors() && !Cong(w, 0) && (eps == 1 || eps == -1)
      requires Cong(D * (t * u), eps * w)
      ensures !Cong(t, 0)
    {
      UnitNonzero(eps);
      NonzeroProduct(eps, w);
      CongNonzero(D * (t * u), eps * w);
      if Cong(t, 0) {
        ZeroFactor(t, u);
        ZeroFactor(t * u, D);
      }
    }

    /** No valid point has both Ix + y and Ix - y zero. */
    lemma OnlyOrigin(q: Point)
      requires Regular() && Valid(q)
      ensures !(Cong(I * q.x + 1 * q.y, 0) && Cong(I * q.x + (-1) * q.y, 0))
    {
      NotBothZero(q);
      if Cong(I * q.x + 1 * q.y, 0) && Cong(I * q.x + (-1) * q.y, 0) {
        OriginFromRoots(I, q.x, q.y);
      }
    }

    lemma OriginFromRoots(i: int, x: int, y: int)
      requires Regular() && !Cong(i, 0) && Cong(i * x + 1 * y, 0) && Cong(i * x + (-1) * y, 0)
      ensures Cong(x, 0) && Cong(y, 0)
    {
      SumAndDifference(i * x, y);
      ZeroSplit(i, x);
    }

    lemma SumAndDifference(a: int, b: int)
      requires Regular() && Cong(a + 1 * b, 0) && Cong(a + (-1) * b, 0)
      ensures Cong(a, 0) && Cong(b, 0)
    {
      HalfOfSum(a + 1 * b, a + (-1) * b, a, b);
    }

    lemma HalfOfSum(u: int, v: int, a: int, b: int)
      requires Regular() && Cong(u, 0) && Cong(v, 0) && u + v == 2 * a && u - v == 2 * b
      ensures Cong(a, 0) && Cong(b, 0)
    {
      CongAdd(u, 0, v, 0);
      TwiceZero(u + v, a);
      TwiceZero(u - v, b);
    }

    lemma TwiceZero(u: int, a: int)
      requires Regular() && Cong(u, 0) && u == 2 * a
      ensures Cong(a, 0)
    {
      ZeroSplit(2, a);
    }

    lemma NotBothZero(q: Point)
      requires Regular() && Valid(q)
      ensures !(Cong(q.x, 0) && Cong(q.y, 0))
    {
      NonzeroProduct(q.z, q.z);
      if Cong(q.x, 0) && Cong(q.y, 0) {
        ZeroFactor(q.x, q.y);
        CongSym(q.x * q.y, q.z * q.t);
        CongTrans(q.z * q.t, q.x * q.y, 0);
        ZeroSplit(q.z, q.t);
        ZeroFactor(q.t, q.t);
        ZeroFactor(q.t * q.t, D);
        ZeroFactor(q.x, q.x);
        ZeroFactor(q.y, q.y);
        CurveAtOrigin(q.x * q.x, q.y * q.y, q.z * q.z, D * (q.t * q.t));
      }
    }

    lemma CurveAtOrigin(xx: int, yy: int, zz: int, dtt: int)
      requires Cong(xx, 0) && Cong(yy, 0) && Cong(dtt, 0) && Cong(yy - xx, zz + dtt)
      ensures Cong(zz, 0)
    {
      var k1 := CongWitness(xx, 0);
      var k2 := CongWitness(yy, 0);
      var k3 := CongWitness(dtt, 0);
      var k4 := CongWitness(yy - xx, zz + dtt);
      CongByMultiple(zz, 0, k2 - k1 - k3 - k4);
    }

    lemma DenominatorsNonzero(p: Point, q: Point)
      requires Regular() && NonSquare() && Valid(p) && Valid(q)
      ensures !Cong(F(p, q), 0) && !Cong(G(p, q), 0)
    {
      Completeness(p, q, 1);
      Completeness(p, q, -1);
      TwiceNonzero(p.z * q.z, D * (p.t * q.t));
    }

    lemma NonzeroDifference(w: int, x: int)
      requires !Cong(x, 1 * w)
      ensures !Cong(w - x, 0)
    {
      if Cong(w - x, 0) {
        var k := CongWitness(w - x, 0);
        CongByMultiple(x, 1 * w, -k);
      }
    }

    lemma NonzeroSum(w: int, x: int)
      requires !Cong(x, (-1) * w)
      ensures !Cong(w + x, 0)
    {
      if Cong(w + x, 0) {
        var k := CongWitness(w + x, 0);
        CongByMultiple(x, (-1) * w, k);
      }
    }

    lemma TwiceNonzero(w: int, x: int)
      requires Regular() && !Cong(x, 1 * w) && !Cong(x, (-1) * w)
      ensures !Cong(2 * (w - x), 0) && !Cong(2 * (w + x), 0)
    {
      NonzeroDifference(w, x);
      NonzeroSum(w, x);
      NonzeroProduct(2, w - x);
      NonzeroProduct(2, w + x);
    }

    /** The sum of two curve points is a curve point. */
    lemma AddValid(p: Point, q: Point)
      requires Regular() && NonSquare() && Valid(p) && Valid(q)
      ensures Valid(Add(p, q))
    {
      AddKeepsT(p, q);
      AddOnCurve(p, q);
      AddUnreduced(p, q);
      DenominatorsNonzero(p, q);
      NonzeroProduct(F(p, q), G(p, q));
      CongNonzero(Add(p, q).z, F(p, q) * G(p, q));
    }

    // ------------------------------------------------------------------- group laws

    lemma OriginValid()
      ensures Valid(O)
    {
      CongRefl(0);
      CongRefl(1);
      assert O.y * O.y - O.x * O.x == 1 && O.z * O.z + D * (O.t * O.t) == 1;
      if Cong(O.z, 0) {
        var k := CongWitness(1, 0);
        SmallMultiple(k, 1);
      }
    }

    lemma AddCommutes(p: Point, q: Point)
      ensures Add(p, q) == Add(q, p)
    {
      assert (p.y - p.x) * (q.y - q.x) == (q.y - q.x) * (p.y - p.x);
      assert (p.y + p.x) * (q.y + q.x) == (q.y + q.x) * (p.y + p.x);
      assert 2 * p.t * q.t * D == 2 * q.t * p.t * D;
      assert 2 * p.z * q.z == 2 * q.z * p.z;
    }

    lemma SameByCong(p: Point, q: Point)
      ensures Same(p, q) <==> Cong(p.x * q.z, q.x * p.z) && Cong(p.y * q.z, q.y * p.z)
    {
      CongIsMod(p.x * q.z, q.x * p.z);
      CongIsMod(p.y * q.z, q.y * p.z);
    }

    lemma SameSym(p: Point, q: Point)
      requires Same(p, q)
      ensures Same(q, p)
    {
      SameByCong(p, q);
      SameByCong(q, p);
      CongSym(p.x * q.z, q.x * p.z);
      CongSym(p.y * q.z, q.y * p.z);
    }

    lemma CrossTrans(a: int, z: int, b: int, w: int, c: int, v: int)
      requires NoZeroDivisors() && !Cong(w, 0)
      requires Cong(a * w, b * z) && Cong(b * v, c * w)
      ensures Cong(a * v, c * z)
    {
      CongScale(a * w, b * z, v);
      CongScale(b * v, c * w, z);
      Rotate(b, z, v);
      CongTrans((a * w) * v, (b * v) * z, (c * w) * z);
      Rotate(a, w, v);
      Rotate(c, w, z);
      Cancel(w, a * v, c * z);
    }

    lemma Rotate(a: int, b: int, c: int)
      ensures (a * b) * c == (a * c) * b == b * (a * c)
    {
    }

    lemma SameTrans(p: Point, q: Point, r: Point)
      requires Regular() && Valid(q) && Same(p, q) && Same(q, r)
      ensures Same(p, r)
    {
      SameByCong(p, q);
      SameByCong(q, r);
      SameByCong(p, r);
      CrossTrans(p.x, p.z, q.x, q.z, r.x, r.z);
      CrossTrans(p.y, p.z, q.y, q.z, r.y, r.z);
    }

    lemma AddOrigin(p: Point)
      ensures Same(Add(O, p), p)
    {
      var r := Add(O, p);
      SameByCong(r, p);
      AddUnreduced(O, p);
      DoubledTerms(p);
      OriginCoordinate(r.x, r.z, p.x, p.z);
      OriginCoordinate(r.y, r.z, p.y, p.z);
    }

    lemma DoubledTerms(p: Point)
      ensures E(O, p) * F(O, p) == (2 * p.x) * (2 * p.z) && F(O, p) * G(O, p) == (2 * p.z) * (2 * p.z)
      ensures G(O, p) * H(O, p) == (2 * p.y) * (2 * p.z)
    {
      assert E(O, p) == 2 * p.x && H(O, p) == 2 * p.y && F(O, p) == 2 * p.z && G(O, p) == 2 * p.z;
      assert (2 * p.z) * (2 * p.y) == (2 * p.y) * (2 * p.z);
    }

    lemma OriginCoordinate(a: int, c: int, x: int, z: int)
      requires Cong(a, (2 * x) * (2 * z)) && Cong(c, (2 * z) * (2 * z))
      ensures Cong(a * z, x * c)
    {
      CongScale(a, (2 * x) * (2 * z), z);
      CongScale(c, (2 * z) * (2 * z), x);
      OriginTerms(x, z);
      CongSym(c * x, ((2 * z) * (2 * z)) * x);
      CongTrans(a * z, ((2 * z) * (2 * z)) * x, c * x);
      assert c * x == x * c;
    }

    lemma OriginTerms(x: int, z: int)
      ensures ((2 * x) * (2 * z)) * z == ((2 * z) * (2 * z)) * x == ((2 * z) * (2 * x)) * z
    {
    }

    /** Representatives of the same point also agree in t, up to the scale. */
    lemma SameT(p: Point, q: Point)
      requires Regular() && Valid(p) && Valid(q) && Same(p, q)
      ensures Cong(p.t * q.z, q.t * p.z)
    {
      SameByCong(p, q);
      // z_p z_q (t_p z_q) = x_p y_p z_q^2 = x_q y_q z_p^2 = z_p z_q (t_q z_p)
      CongMul(p.x * q.z, q.x * p.z, p.y * q.z, q.y * p.z);
      Swap(p.x, q.z, p.y, q.z);
      Swap(q.x, p.z, q.y, p.z);
      CongScale(p.x * p.y, p.z * p.t, q.z * q.z);
      CongScale(q.x * q.y, q.z * q.t, p.z * p.z);
      CongSym((p.x * p.y) * (q.z * q.z), (p.z * p.t) * (q.z * q.z));
      CongTrans((p.z * p.t) * (q.z * q.z), (p.x * p.y) * (q.z * q.z), (q.x * q.y) * (p.z * p.z));
      CongTrans((p.z * p.t) * (q.z * q.z), (q.x * q.y) * (p.z * p.z), (q.z * q.t) * (p.z * p.z));
      Swap(p.z, p.t, q.z, q.z);
      Swap(q.z, q.t, p.z, p.z);
      assert (p.z * p.t) * (q.z * q.z) == (p.z * q.z) * (p.t * q.z);
      assert (q.z * q.t) * (p.z * p.z) == (p.z * q.z) * (q.t * p.z);
      NonzeroProduct(p.z, q.z);
      Cancel(p.z * q.z, p.t * q.z, q.t * p.z);
    }

    /** Each intermediate value is linear in the first point. */
    lemma LinearTerms(p: Point, p': Point, q: Point)
      requires Cong(p.x * p'.z, p'.x * p.z) && Cong(p.y * p'.z, p'.y * p.z) && Cong(p.t * p'.z, p'.t * p.z)
      ensures Cong(E(p, q) * p'.z, E(p', q) * p.z) && Cong(F(p, q) * p'.z, F(p', q) * p.z)
      ensures Cong(G(p, q) * p'.z, G(p', q) * p.z) && Cong(H(p, q) * p'.z, H(p', q) * p.z)
    {
      LinearPair(p.x, p.y, p.z, p'.x, p'.y, p'.z, q.y, q.x);
      LinearPair(p.y, p.x, p.z, p'.y, p'.x, p'.z, q.y, q.x);
      LinearFG(p.z, p.t, p'.z, p'.t, q.z, q.t);
    }

    lemma LinearFG(z: int, t: int, z': int, t': int, w: int, u: int)
      requires Cong(t * z', t' * z)
      ensures Cong((2 * (z * w - D * (t * u))) * z', (2 * (z' * w - D * (t' * u))) * z)
      ensures Cong((2 * (z * w + D * (t * u))) * z', (2 * (z' * w + D * (t' * u))) * z)
    {
      CongScale(t * z', t' * z, 2 * (D * u));
      CongRefl((2 * w) * (z * z'));
      CongAdd((2 * w) * (z * z'), (2 * w) * (z * z'), (t * z') * (2 * (D * u)), (t' * z) * (2 * (D * u)));
      LinearFGExpand(D, z, t, z', w, u);
      LinearFGExpand(D, z', t', z, w, u);
      assert (2 * w) * (z * z') == (2 * w) * (z' * z);
    }

    lemma LinearFGExpand(d: int, z: int, t: int, z': int, w: int, u: int)
      ensures (2 * (z * w - d * (t * u))) * z' == (2 * w) * (z * z') - (t * z') * (2 * (d * u))
      ensures (2 * (z * w + d * (t * u))) * z' == (2 * w) * (z * z') + (t * z') * (2 * (d * u))
    {
    }

    lemma LinearPair(a: int, b: int, z: int, a': int, b': int, z': int, u: int, v: int)
      requires Cong(a * z', a' * z) && Cong(b * z', b' * z)
      ensures Cong((2 * (a * u + b * v)) * z', (2 * (a' * u + b' * v)) * z)
    {
      CongScale(a * z', a' * z, 2 * u);
      CongScale(b * z', b' * z, 2 * v);
      CongAdd((a * z') * (2 * u), (a' * z) * (2 * u), (b * z') * (2 * v), (b' * z) * (2 * v));
      LinearExpand(a, b, z', u, v);
      LinearExpand(a', b', z, u, v);
    }

    lemma LinearExpand(a: int, b: int, z: int, u: int, v: int)
      ensures (2 * (a * u + b * v)) * z == (a * z) * (2 * u) + (b * z) * (2 * v)
    {
    }

    lemma ScaledProducts(e: int, f: int, g: int, e': int, f': int, g': int, z: int, z': int)
      requires NoZeroDivisors() && !Cong(z, 0) && !Cong(z', 0)
      requires Cong(e * z', e' * z) && Cong(g * z', g' * z)
      ensures Cong((e * f) * (f' * g'), (e' * f') * (f * g))
    {
      SameRatio(e, g, e', g', z, z');
      CongScale(e * g', e' * g, f * f');
      FourFactors(e, g', f, f');
      FourFactors(e', g, f', f);
    }

    lemma SameRatio(e: int, g: int, e': int, g': int, z: int, z': int)
      requires NoZeroDivisors() && !Cong(z, 0) && !Cong(z', 0)
      requires Cong(e * z', e' * z) && Cong(g * z', g' * z)
      ensures Cong(e * g', e' * g)
    {
      CongScale(e * z', e' * z, g' * z);
      CongSym(g * z', g' * z);
      CongScale(g' * z, g * z', e' * z);
      CongTrans((e * z') * (g' * z), (e' * z) * (g' * z), (e' * z) * (g * z'));
      Commuted(e, z', g', z);
      Commuted(e', z, g, z');
      NonzeroProduct(z', z);
      Cancel(z' * z, e * g', e' * g);
    }

    lemma Commuted(a: int, b: int, c: int, e: int)
      ensures (a * b) * (c * e) == (b * e) * (a * c) == (e * b) * (a * c)
    {
      Swap(a, b, c, e);
    }

    lemma FourFactors(a: int, b: int, c: int, e: int)
      ensures (a * b) * (c * e) == (a * c) * (e * b)
      ensures (a * b) * (e * c) == (a * c) * (e * b)
    {
    }

    /** One coordinate of two sums, given that their intermediate values are proportional. */
    lemma SumsProportional(x: int, c: int, x': int, c': int, e: int, f: int, g: int, e': int, f': int, g': int,
        z: int, z': int)
      requires NoZeroDivisors() && !Cong(z, 0) && !Cong(z', 0)
      requires Cong(e * z', e' * z) && Cong(g * z', g' * z)
      requires Cong(x, e * f) && Cong(c, f * g) && Cong(x', e' * f') && Cong(c', f' * g')
      ensures Cong(x * c', x' * c)
    {
      ScaledProducts(e, f, g, e', f', g', z, z');
      CrossReplace(x, c, x', c', e * f, f * g, e' * f', f' * g');
    }

    lemma ProductOrder(a: int, b: int)
      ensures a * b == b * a
    {
    }

    /** Addition does not depend on which representative of the first point is used. */
    lemma AddSame(p: Point, p': Point, q: Point)
      requires Regular() && Valid(p) && Valid(p') && Same(p, p')
      ensures Same(Add(p, q), Add(p', q))
    {
      SameByCong(p, p');
      SameByCong(Add(p, q), Add(p', q));
      SameT(p, p');
      LinearTerms(p, p', q);
      AddUnreduced(p, q);
      AddUnreduced(p', q);
      AddSameInts(Add(p, q), Add(p', q), E(p, q), F(p, q), G(p, q), H(p, q), E(p', q), F(p', q), G(p', q), H(p', q), p.z, p'.z);
    }

    /** The same over the two results and their intermediate values, however they were computed. */
    lemma AddSameInts(r: Point, r': Point, e: int, f: int, g: int, h: int, e': int, f': int, g': int, h': int,
        z: int, z': int)
      requires NoZeroDivisors() && !Cong(z, 0) && !Cong(z', 0)
      requires Cong(e * z', e' * z) && Cong(f * z', f' * z) && Cong(g * z', g' * z) && Cong(h * z', h' * z)
      requires Cong(r.x, e * f) && Cong(r.y, g * h) && Cong(r.z, f * g)
      requires Cong(r'.x, e' * f') && Cong(r'.y, g' * h') && Cong(r'.z, f' * g')
      ensures Cong(r.x * r'.z, r'.x * r.z) && Cong(r.y * r'.z, r'.y * r.z)
    {
      SumsProportional(r.x, r.z, r'.x, r'.z, e, f, g, e', f', g', z, z');
      ProductOrder(g, h);
      ProductOrder(g', h');
      ProductOrder(f, g);
      ProductOrder(f', g');
      SumsProportional(r.y, r.z, r'.y, r'.z, h, g, f, h', g', f', z, z');
    }

    lemma CrossReplace(x: int, z: int, x': int, z': int, a: int, c: int, a': int, c': int)
      requires Cong(x, a) && Cong(z, c) && Cong(x', a') && Cong(z', c') && Cong(a * c', a' * c)
      ensures Cong(x * z', x' * z)
    {
      CongMul(x, a, z', c');
      CongMul(x', a', z, c);
      CongSym(x' * z, a' * c);
      CongTrans(x * z', a * c', a' * c);
      CongTrans(x * z', a' * c, x' * z);
    }
  }
}
