/** The Ed25519 verifier of the conformance suite: double-and-add is repeated addition, point
    decompression undoes compression, and every honestly made signature is accepted. */
module Ed25519 {
  import opened Wrappers
  import opened Bytes
  import opened Edwards
  import opened Groups

  // ------------------------------------------------------------- scalar multiples

  function AddOp(c: Curve): (Point, Point) -> Point {
    (p, q) => c.Add(p, q)
  }

  function Mul(c: Curve, s: nat, p: Point): Point {
    MulFrom(AddOp(c), s, p, O)
  }

  method MulLoop(c: Curve, s: nat, p: Point) returns (q: Point)
    ensures q == Mul(c, s, p)
  {
    q := O;
    var n, r := s, p;
    while n > 0
      invariant MulFrom(AddOp(c), n, r, q) == Mul(c, s, p)
    {
      if n % 2 == 1 {
        q := c.Add(q, r);
      }
      r := c.Add(r, r);
      n := n / 2;
    }
  }

  ghost function GroupOf(c: Curve): Group<Point> {
    Group(AddOp(c), O, (p, q) => c.Same(p, q), p => c.Valid(p))
  }

  ghost predicate AssociativeAt(c: Curve, p: Point, q: Point, r: Point) {
    c.Same(c.Add(c.Add(p, q), r), c.Add(p, c.Add(q, r)))
  }

  /** The one group law that is not derived here. */
  ghost predicate Associative(c: Curve) {
    forall p, q, r :: c.Valid(p) && c.Valid(q) && c.Valid(r) ==> AssociativeAt(c, p, q, r)
  }

  /** Everything but associativity follows from the field. */
  lemma CurveLaws(c: Curve)
    requires c.Regular() && c.NonSquare() && Associative(c)
    ensures Laws(GroupOf(c))
  {
    var g := GroupOf(c);
    forall p, q ensures SymAt(g, p, q) {
      if c.Same(p, q) { c.SameSym(p, q); }
    }
    forall p, q, r ensures TransAt(g, p, q, r) {
      if c.Valid(q) && c.Same(p, q) && c.Same(q, r) { c.SameTrans(p, q, r); }
    }
    c.OriginValid();
    forall p, q ensures ClosedAt(g, p, q) {
      if c.Valid(p) && c.Valid(q) { c.AddValid(p, q); }
    }
    forall p, p', q ensures CongAt(g, p, p', q) {
      if c.Valid(p) && c.Valid(p') && c.Same(p, p') { c.AddSame(p, p', q); }
    }
    forall p, q ensures CommutesAt(g, p, q) {
      c.AddCommutes(p, q);
    }
    forall p, q, r ensures AssocAt(g, p, q, r) {
      if c.Valid(p) && c.Valid(q) && c.Valid(r) { assert AssociativeAt(c, p, q, r); }
    }
    forall p ensures UnitAt(g, p) {
      c.AddOrigin(p);
    }
  }

  /** `_mul(s, P)` is `P` added `s` times, for every scalar and every curve point. */
  lemma MulIsFold(c: Curve, s: nat, p: Point)
    requires c.Regular() && c.NonSquare() && Associative(c) && c.Valid(p)
    ensures c.Valid(Mul(c, s, p)) && c.Same(Mul(c, s, p), Fold(AddOp(c), O, s, p))
  {
    CurveLaws(c);
    MulIsTimes(GroupOf(c), s, p);
  }

  // -------------------------------------------------------------- square roots

  /** The root of x2 with the given parity, if x2 has one: a candidate power, adjusted by a root of -1. */
  function RootOf(c: Curve, x2: nat, sign: nat): Option<int> {
    if x2 == 0 then if sign != 0 then None else Some(0)
    else
      var x0 := c.Pow(x2, (c.P + 3) / 8) % c.P;
      var x1 := if (x0 * x0 - x2) % c.P != 0 then x0 * c.I % c.P else x0;
      if (x1 * x1 - x2) % c.P != 0 then None
      else Some(if x1 % 2 != sign then c.P - x1 else x1)
  }

  /** The square of the x at height y: (y^2 - 1) / (D y^2 + 1). */
  function SquareAt(c: Curve, y: int): nat
    requires c.P > 3
  {
    (y * y - 1) * (c.Pow(c.D * (y * y) + 1, c.P - 2) % c.P) % c.P
  }

  /** The x with the given parity on the curve at height y, if there is one. */
  function RecoverX(c: Curve, y: nat, sign: nat): Option<int>
    requires c.P > 3
  {
    if y >= c.P then None else RootOf(c, SquareAt(c, y), sign)
  }

  /** What is assumed of the prime: it is one, it is 5 modulo 8. */
  ghost predicate PrimeField(c: Curve) {
    c.Regular() && c.Fermat() && c.P > 3 && c.P % 8 == 5
  }

  ghost predicate OnCurve(c: Curve, x: int, y: int) {
    c.Cong(y * y - x * x, 1 + c.D * ((x * y) * (x * y)))
  }

  /** (y^2 - 1) = x^2 (D y^2 + 1), and the second factor is not zero. */
  lemma SolveForX(c: Curve, x: int, y: int)
    requires c.Regular() && OnCurve(c, x, y)
    ensures c.Cong(y * y - 1, (x * x) * (c.D * (y * y) + 1))
    ensures !c.Cong(c.D * (y * y) + 1, 0)
  {
    c.SquareOfProduct(x, y);
    Solve(c, x * x, y * y);
  }

  lemma Solve(c: Curve, xx: int, yy: int)
    requires c.Regular() && c.Cong(yy - xx, 1 + c.D * (xx * yy))
    ensures c.Cong(yy - 1, xx * (c.D * yy + 1)) && !c.Cong(c.D * yy + 1, 0)
  {
    var k := c.CongWitness(yy - xx, 1 + c.D * (xx * yy));
    Expand(c.D, xx, yy);
    c.CongByMultiple(yy - 1, xx * (c.D * yy + 1), k);
    FactorNonzero(c, xx, yy, c.D * yy + 1);
  }

  lemma FactorNonzero(c: Curve, xx: int, yy: int, v: int)
    requires c.Regular() && c.Cong(yy - 1, xx * v) && v == c.D * yy + 1
    ensures !c.Cong(v, 0)
  {
    if c.Cong(v, 0) {
      c.ZeroFactor(v, xx);
      c.CongTrans(yy - 1, xx * v, 0);
      c.ZeroFactor(yy - 1, c.D);
      c.CongAdd(v, 0, c.D * (yy - 1), 0);
      ExpandOne(c.D, yy);
    }
  }

  lemma ExpandOne(d: int, yy: int)
    ensures (d * yy + 1) - d * (yy - 1) == d + 1
  {
  }

  lemma Expand(d: int, xx: int, yy: int)
    ensures xx * (d * yy + 1) == d * (xx * yy) + xx
  {
  }

  /** The quotient computed with an inverse power is x^2. */
  lemma QuotientIsSquare(c: Curve, x: int, y: int)
    requires PrimeField(c) && OnCurve(c, x, y)
    ensures c.Cong(SquareAt(c, y), x * x)
  {
    var v := c.D * (y * y) + 1;
    SolveForX(c, x, y);
    InversePower(c, v);
    Divide(c, y * y - 1, x * x, v, c.Pow(v, c.P - 2) % c.P);
  }

  lemma Divide(c: Curve, u: int, xx: int, v: int, w: int)
    requires c.Cong(u, xx * v) && c.Cong(v * w, 1)
    ensures c.Cong(u * w % c.P, xx)
  {
    c.CongScale(u, xx * v, w);
    c.CongScale(v * w, 1, xx);
    c.Scale(xx, v, w);
    c.CongTrans(u * w, xx * (v * w), xx * 1);
    c.CongReduce(u * w);
    c.CongTrans(u * w % c.P, u * w, xx);
  }

  lemma InversePower(c: Curve, v: int)
    requires c.Fermat() && c.P > 3 && !c.Cong(v, 0)
    ensures c.Cong(v * (c.Pow(v, c.P - 2) % c.P), 1)
  {
    var e := c.P - 1;
    assert c.FermatAt(v, e);
    assert c.Pow(v, e) == v * c.Pow(v, c.P - 2);
    c.CongReduce(c.Pow(v, c.P - 2));
    c.CongScale(c.Pow(v, c.P - 2) % c.P, c.Pow(v, c.P - 2), v);
    c.CongTrans(v * (c.Pow(v, c.P - 2) % c.P), c.Pow(v, e), 1);
  }

  /** x^((P-1)/2) is 1 or -1. */
  lemma EulerSign(c: Curve, x: int) returns (t: int)
    requires PrimeField(c) && !c.Cong(x, 0)
    ensures t == c.Pow(x, (c.P - 1) / 2)
    ensures c.Cong(t, 1) || c.Cong(t, -1)
  {
    var h := (c.P - 1) / 2;
    t := c.Pow(x, h);
    var e := c.P - 1;
    assert h + h == e;
    c.PowAdd(x, h, h);
    assert c.FermatAt(x, e);
    UnitRoots(c, t);
  }

  lemma UnitRoots(c: Curve, t: int)
    requires c.NoZeroDivisors() && c.Cong(t * t, 1)
    ensures c.Cong(t, 1) || c.Cong(t, -1)
  {
    DifferenceOfSquares(t, 1);
    var k := c.CongWitness(t * t, 1);
    c.CongByMultiple((t - 1) * (t + 1), 0, k);
    c.ZeroSplit(t - 1, t + 1);
    if c.Cong(t - 1, 0) {
      var j := c.CongWitness(t - 1, 0);
      c.CongByMultiple(t, 1, j);
    } else {
      var j := c.CongWitness(t + 1, 0);
      c.CongByMultiple(t, -1, j);
    }
  }

  /** The candidate root squares to x^2 or to -x^2. */
  lemma CandidateSquare(c: Curve, x: int, x2: int, x0: int)
    requires PrimeField(c) && !c.Cong(x, 0) && c.Cong(x2, x * x)
    requires x0 == c.Pow(x2, (c.P + 3) / 8) % c.P
    ensures c.Cong(x0 * x0, x * x) || c.Cong(x0 * x0, (-1) * (x * x))
  {
    var e, h := (c.P + 3) / 8, (c.P - 1) / 2;
    var r := c.Pow(x2, e);
    c.CongReduce(r);
    c.CongMul(x0, r, x0, r);
    c.PowAdd(x2, e, e);
    c.PowCong(x2, x * x, e + e);
    assert c.Pow(x, 2) == x * x by {
      assert c.Pow(x, 1) == x * c.Pow(x, 0);
    }
    c.PowMul(x, 2, e + e);
    assert 2 * (e + e) == h + 2;
    c.PowAdd(x, h, 2);
    var t := EulerSign(c, x);
    c.CongTrans(x0 * x0, r * r, t * (x * x));
    if c.Cong(t, 1) {
      c.CongScale(t, 1, x * x);
      c.CongTrans(x0 * x0, t * (x * x), 1 * (x * x));
    } else {
      c.CongScale(t, -1, x * x);
      c.CongTrans(x0 * x0, t * (x * x), (-1) * (x * x));
    }
  }

  /** The second candidate, times the root of -1 when needed, squares to x^2. */
  lemma RootFound(c: Curve, x: int, x2: int, x0: int, x1: int)
    requires PrimeField(c) && !c.Cong(x, 0) && c.Cong(x2, x * x)
    requires x0 == c.Pow(x2, (c.P + 3) / 8) % c.P
    requires x1 == if (x0 * x0 - x2) % c.P != 0 then x0 * c.I % c.P else x0
    ensures c.Cong(x1 * x1, x * x) && (x1 * x1 - x2) % c.P == 0
  {
    c.CongIsMod(x0 * x0, x2);
    c.CongSym(x2, x * x);
    if c.Cong(x0 * x0, x2) {
      c.CongTrans(x0 * x0, x2, x * x);
    } else {
      CandidateSquare(c, x, x2, x0);
      if c.Cong(x0 * x0, x * x) {
        c.CongTrans(x0 * x0, x * x, x2);
      }
      c.CongReduce(x0 * c.I);
      c.CongMul(x1, x0 * c.I, x1, x0 * c.I);
      c.SquareOfProduct(x0, c.I);
      c.CongMul(x0 * x0, (-1) * (x * x), c.I * c.I, -1);
      assert ((-1) * (x * x)) * (-1) == x * x;
      c.CongTrans(x1 * x1, (x0 * x0) * (c.I * c.I), x * x);
    }
    c.CongTrans(x1 * x1, x * x, x2);
    c.CongIsMod(x1 * x1, x2);
  }

  lemma DifferenceOfSquares(a: int, b: int)
    ensures (a - b) * (a + b) == a * a - b * b
  {
  }

  /** Roots of the same square in [0, P) are equal or opposite. */
  lemma OppositeRoots(c: Curve, x: int, x1: int)
    requires c.NoZeroDivisors() && 0 < x < c.P && 0 <= x1 < c.P && c.Cong(x1 * x1, x * x)
    ensures x1 == x || x1 == c.P - x
  {
    DifferenceOfSquares(x1, x);
    c.CongRefl(x * x);
    c.CongAdd(x1 * x1, x * x, x * x, x * x);
    c.ZeroSplit(x1 - x, x1 + x);
    if c.Cong(x1 - x, 0) {
      var j := c.CongWitness(x1 - x, 0);
      c.SmallMultiple(j, x1 - x);
    } else {
      var j := c.CongWitness(x1 + x, 0);
      assert x1 - (c.P - x) == c.P * (j - 1);
      c.SmallMultiple(j - 1, x1 - (c.P - x));
    }
  }

  /** Parity tells the two roots apart. */
  lemma ParityChooses(c: Curve, x: int, x1: int)
    requires c.NoZeroDivisors() && c.P % 2 == 1 && 0 < x < c.P && 0 <= x1 < c.P && c.Cong(x1 * x1, x * x)
    ensures (if x1 % 2 != x % 2 then c.P - x1 else x1) == x
  {
    OppositeRoots(c, x, x1);
  }

  lemma SquareNonzero(c: Curve, x: nat, x2: nat)
    requires c.NoZeroDivisors() && 0 < x < c.P && c.Cong(x2, x * x)
    ensures x2 != 0 && !c.Cong(x, 0)
  {
    if c.Cong(x, 0) {
      c.CongSmall(x, 0);
    }
    c.NonzeroProduct(x, x);
    c.CongNonzero(x2, x * x);
    c.CongRefl(0);
  }

  lemma RootOfZero(c: Curve, x2: nat)
    requires c.P > 3 && x2 < c.P && c.Cong(x2, 0)
    ensures RootOf(c, x2, 0) == Some(0)
  {
    c.CongSmall(x2, 0);
  }

  lemma CandidateRange(c: Curve, y: int, x0: int, x1: int, twist: bool)
    requires c.P > 3 && x0 == y % c.P && x1 == if twist then x0 * c.I % c.P else x0
    ensures 0 <= x1 < c.P
  {
  }

  lemma RootOfNonzero(c: Curve, x: nat, x2: nat, x0: int, x1: int)
    requires PrimeField(c) && 0 < x < c.P && x2 < c.P && c.Cong(x2, x * x)
    requires x0 == c.Pow(x2, (c.P + 3) / 8) % c.P
    requires x1 == if (x0 * x0 - x2) % c.P != 0 then x0 * c.I % c.P else x0
    ensures x2 != 0 && (x1 * x1 - x2) % c.P == 0 && c.Cong(x1 * x1, x * x)
  {
    SquareNonzero(c, x, x2);
    RootFound(c, x, x2, x0, x1);
  }

  lemma RootOfFinds(c: Curve, x: nat, x2: nat)
    requires PrimeField(c) && x < c.P && x2 < c.P && c.Cong(x2, x * x)
    ensures RootOf(c, x2, x % 2) == Some(x)
  {
    if x == 0 {
      RootOfZero(c, x2);
    } else {
      var x0 := c.Pow(x2, (c.P + 3) / 8) % c.P;
      var x1 := if (x0 * x0 - x2) % c.P != 0 then x0 * c.I % c.P else x0;
      RootOfNonzero(c, x, x2, x0, x1);
      CandidateRange(c, c.Pow(x2, (c.P + 3) / 8), x0, x1, (x0 * x0 - x2) % c.P != 0);
      ParityChooses(c, x, x1);
    }
  }

  /** Recovery finds the x of every curve point from its y and the parity of its x. */
  lemma RecoverXFinds(c: Curve, x: nat, y: nat)
    requires PrimeField(c) && x < c.P && y < c.P && OnCurve(c, x, y)
    ensures RecoverX(c, y, x % 2) == Some(x)
  {
    QuotientIsSquare(c, x, y);
    RootOfFinds(c, x, SquareAt(c, y));
  }

  // -------------------------------------------------- compression and decompression

  const TWO_255 := 0x8000_0000_0000_0000_0000_0000_0000_0000_0000_0000_0000_0000_0000_0000_0000_0000

  function AffineX(c: Curve, p: Point): nat
    requires c.P > 3
  {
    p.x * (c.Pow(p.z, c.P - 2) % c.P) % c.P
  }

  function AffineY(c: Curve, p: Point): nat
    requires c.P > 3
  {
    p.y * (c.Pow(p.z, c.P - 2) % c.P) % c.P
  }

  /** Section 5.1.2 of RFC 8032: the y coordinate with the parity of x in the top bit. */
  function Compress(c: Curve, p: Point): seq<byte>
    requires c.P > 3
  {
    LittleEndian(AffineY(c, p) + (AffineX(c, p) % 2) * TWO_255, 32)
  }

  function Decompress(c: Curve, b: seq<byte>): Option<Point>
    requires c.P > 3
  {
    if |b| != 32 then None
    else
      var n := FromLittleEndian(b);
      var y := n % TWO_255;
      match RecoverX(c, y, n / TWO_255)
      case None => None
      case Some(x) => Some(Point(x, y, 1, x * y % c.P))
  }

  lemma ScaleCurve(c: Curve, xx: int, yy: int, zz: int, tt: int, w: int)
    requires c.Cong(yy - xx, zz + c.D * tt)
    ensures c.Cong(yy * w - xx * w, zz * w + c.D * (tt * w))
  {
    c.CongScale(yy - xx, zz + c.D * tt, w);
    Spread(c.D, xx, yy, zz, tt, w);
  }

  lemma Spread(d: int, xx: int, yy: int, zz: int, tt: int, w: int)
    ensures (yy - xx) * w == yy * w - xx * w && (zz + d * tt) * w == zz * w + d * (tt * w)
  {
  }

  /** Dividing by z puts a curve point into affine form. */
  lemma AffineOnCurve(c: Curve, p: Point)
    requires PrimeField(c) && c.Valid(p)
    ensures OnCurve(c, AffineX(c, p), AffineY(c, p))
  {
    var zi := c.Pow(p.z, c.P - 2) % c.P;
    InversePower(c, p.z);
    c.CongReduce(p.x * zi);
    c.CongReduce(p.y * zi);
    ScaleCurve(c, p.x * p.x, p.y * p.y, p.z * p.z, p.t * p.t, zi * zi);
    c.SquareOfProduct(p.x, zi);
    c.SquareOfProduct(p.y, zi);
    c.SquareOfProduct(p.z, zi);
    c.SquareOfProduct(p.t, zi);
    AffineProduct(c, p, zi);
    AffineCurve(c, AffineX(c, p), AffineY(c, p), p.x * zi, p.y * zi, p.z * zi, p.t * zi);
  }

  lemma AffineProduct(c: Curve, p: Point, zi: int)
    requires c.Valid(p) && c.Cong(p.z * zi, 1)
    ensures c.Cong((p.x * zi) * (p.y * zi), p.t * zi)
  {
    c.CongScale(p.x * p.y, p.z * p.t, zi * zi);
    c.Swap(p.x, zi, p.y, zi);
    c.Swap(p.z, zi, p.t, zi);
    c.CongScale(p.z * zi, 1, p.t * zi);
    c.CongTrans((p.x * zi) * (p.y * zi), (p.z * zi) * (p.t * zi), 1 * (p.t * zi));
  }

  lemma AffineCurve(c: Curve, x: int, y: int, x': int, y': int, z': int, t': int)
    requires c.Cong(x, x') && c.Cong(y, y') && c.Cong(z', 1) && c.Cong(x' * y', t')
    requires c.Cong(y' * y' - x' * x', z' * z' + c.D * (t' * t'))
    ensures OnCurve(c, x, y)
  {
    c.CongMul(x, x', x, x');
    c.CongMul(y, y', y, y');
    c.CongAdd(y * y, y' * y', x * x, x' * x');
    c.CongTrans(y * y - x * x, y' * y' - x' * x', z' * z' + c.D * (t' * t'));
    c.CongMul(z', 1, z', 1);
    c.CongMul(x, x', y, y');
    c.CongTrans(x * y, x' * y', t');
    c.CongMul(x * y, t', x * y, t');
    c.CongSym((x * y) * (x * y), t' * t');
    c.CongScale(t' * t', (x * y) * (x * y), c.D);
    c.CongAdd(z' * z', 1 * 1, c.D * (t' * t'), c.D * ((x * y) * (x * y)));
    c.CongTrans(y * y - x * x, z' * z' + c.D * (t' * t'), 1 + c.D * ((x * y) * (x * y)));
  }

  lemma AffineSame(c: Curve, p: Point, t: int)
    requires PrimeField(c) && c.Valid(p)
    ensures c.Same(Point(AffineX(c, p), AffineY(c, p), 1, t), p)
  {
    var zi := c.Pow(p.z, c.P - 2) % c.P;
    InversePower(c, p.z);
    AffineCoordinate(c, p.x, p.z, zi);
    AffineCoordinate(c, p.y, p.z, zi);
    c.SameByCong(Point(AffineX(c, p), AffineY(c, p), 1, t), p);
  }

  lemma AffineCoordinate(c: Curve, x: int, z: int, zi: int)
    requires c.Cong(z * zi, 1)
    ensures c.Cong((x * zi % c.P) * z, x * 1)
  {
    c.CongReduce(x * zi);
    c.CongScale(x * zi % c.P, x * zi, z);
    c.Rotate(x, zi, z);
    c.CongScale(z * zi, 1, x);
    c.Rotate(x, z, zi);
    c.Scale(x, z, zi);
    c.CongTrans((x * zi % c.P) * z, (x * zi) * z, x * 1);
  }

  lemma AffineValid(c: Curve, x: int, y: int)
    requires OnCurve(c, x, y) && c.P > 3
    ensures c.Valid(Point(x, y, 1, x * y % c.P))
  {
    var t := x * y % c.P;
    c.UnitNonzero(1);
    c.CongReduce(x * y);
    c.CongMul(x * y, t, x * y, t);
    c.CongScale((x * y) * (x * y), t * t, c.D);
    c.CongRefl(1);
    c.CongAdd(1, 1, c.D * ((x * y) * (x * y)), c.D * (t * t));
    c.CongTrans(y * y - x * x, 1 + c.D * ((x * y) * (x * y)), 1 + c.D * (t * t));
  }

  lemma SplitTopBit(y: nat, b: nat)
    requires y < TWO_255 && b < 2
    ensures (y + b * TWO_255) % TWO_255 == y && (y + b * TWO_255) / TWO_255 == b
    ensures y + b * TWO_255 < Pow256(32)
  {
    ThirtyTwoBytes();
  }

  lemma ThirtyTwoBytes()
    ensures Pow256(32) == 2 * TWO_255
  {
    Pow256Add(16, 16);
    Pow256Add(8, 8);
    Pow256Values();
  }

  lemma DecompressParts(c: Curve, x: int, y: nat, sign: nat)
    requires c.P > 3 && y < TWO_255 && sign < 2 && RecoverX(c, y, sign) == Some(x)
    ensures Decompress(c, LittleEndian(y + sign * TWO_255, 32)) == Some(Point(x, y, 1, x * y % c.P))
  {
    SplitTopBit(y, sign);
    LittleEndianRoundTrip(y + sign * TWO_255, 32);
  }

  lemma DecompressPoint(c: Curve, x: nat, y: nat)
    requires PrimeField(c) && c.P <= TWO_255 && x < c.P && y < c.P && OnCurve(c, x, y)
    ensures Decompress(c, LittleEndian(y + (x % 2) * TWO_255, 32)) == Some(Point(x, y, 1, x * y % c.P))
  {
    RecoverXFinds(c, x, y);
    DecompressParts(c, x, y, x % 2);
  }

  /** Decompressing a compressed point gives the point back. */
  lemma DecompressCompress(c: Curve, p: Point)
    requires PrimeField(c) && c.P <= TWO_255 && c.Valid(p)
    ensures var q := Decompress(c, Compress(c, p));
      q.Some? && c.Valid(q.value) && c.Same(q.value, p)
  {
    var x, y := AffineX(c, p), AffineY(c, p);
    AffineOnCurve(c, p);
    DecompressPoint(c, x, y);
    AffineValid(c, x, y);
    AffineSame(c, p, x * y % c.P);
  }

  // ------------------------------------------------------------------ signatures

  /** The hash read as a little-endian number, as both sides use it. */
  type Hash = seq<byte> -> nat

  /** Section 5.1.5 of RFC 8032: the public key of secret scalar `a`. */
  function PublicKey(c: Curve, b: Point, a: nat): seq<byte>
    requires c.P > 3
  {
    Compress(c, Mul(c, a, b))
  }

  /** Section 5.1.6 of RFC 8032, with nonce `r`. */
  function Sign(c: Curve, l: nat, b: Point, hash: Hash, a: nat, r: nat, msg: seq<byte>): seq<byte>
    requires c.P > 3 && l > 0
  {
    var bigR := Compress(c, Mul(c, r, b));
    var h := hash(bigR + PublicKey(c, b, a) + msg) % l;
    bigR + LittleEndian((r + h * a) % l, 32)
  }

  function Verify(c: Curve, l: nat, b: Point, hash: Hash, pub: seq<byte>, msg: seq<byte>, sig: seq<byte>): bool
    requires c.P > 3 && l > 0
  {
    if |pub| != 32 || |sig| != 64 then false
    else
      match Decompress(c, pub)
      case None => false
      case Some(a) =>
        match Decompress(c, sig[..32])
        case None => false
        case Some(r) =>
          var s := FromLittleEndian(sig[32..]);
          if s >= l then false
          else
            var h := hash(sig[..32] + pub + msg) % l;
            c.Same(Mul(c, s, b), c.Add(r, Mul(c, h, a)))
  }

  /** A curve group with base point `b` of order dividing `l`, encodable in 32 bytes. */
  ghost predicate Setting(c: Curve, l: nat, b: Point) {
    && PrimeField(c) && c.NonSquare() && Associative(c) && c.P <= TWO_255
    && c.Valid(b) && 0 < l <= 2 * TWO_255 && c.Same(Fold(AddOp(c), O, l, b), O)
  }

  /** (r + h a) b is r b plus h times a b, in whatever representatives. */
  lemma HonestEquation(g: Group<Point>, l: nat, b: Point, a: nat, r: nat, h: nat, pa: Point, pr: Point, ma: Point)
    requires Laws(g) && g.ok(b) && g.ok(pa) && g.ok(pr) && g.ok(ma) && l > 0 && g.same(Times(g, l, b), g.unit)
    requires g.same(pa, Times(g, a, b)) && g.same(pr, Times(g, r, b)) && g.same(ma, Times(g, h, pa))
    ensures g.same(Times(g, (r + h * a) % l, b), g.op(pr, ma))
  {
    var s, x, y := r + h * a, Times(g, r, b), Times(g, h * a, b);
    TimesOk(g, s % l, b);
    TimesOk(g, s, b);
    TimesOk(g, r, b);
    TimesOk(g, h * a, b);
    TimesOk(g, a, b);
    TimesOk(g, h, pa);
    TimesOk(g, h, Times(g, a, b));
    TimesMod(g, s, l, b);
    TimesAdd(g, r, h * a, b);
    TimesTimes(g, a, h, b);
    TimesCong(g, h, pa, Times(g, a, b));
    Groups.Trans(g, ma, Times(g, h, pa), Times(g, h, Times(g, a, b)));
    assert SymAt(g, y, Times(g, h, Times(g, a, b)));
    Groups.Trans(g, ma, Times(g, h, Times(g, a, b)), y);
    Groups.Cong(g, pr, x, ma);
    Groups.Cong(g, ma, y, x);
    Groups.Closed(g, x, ma);
    Groups.Closed(g, x, y);
    Groups.Closed(g, pr, ma);
    Groups.Trans(g, g.op(pr, ma), g.op(x, ma), g.op(x, y));
    assert SymAt(g, Times(g, s, b), g.op(x, y)) && SymAt(g, Times(g, s, b), Times(g, s % l, b));
    Groups.Trans(g, g.op(pr, ma), g.op(x, y), Times(g, s, b));
    Groups.Trans(g, g.op(pr, ma), Times(g, s, b), Times(g, s % l, b));
    assert SymAt(g, g.op(pr, ma), Times(g, s % l, b));
  }

  /** The public key and the nonce point decode to the multiples they were made from. */
  lemma EncodedMultiple(c: Curve, l: nat, b: Point, s: nat)
    requires Setting(c, l, b)
    ensures var q := Decompress(c, Compress(c, Mul(c, s, b)));
      q.Some? && c.Valid(q.value) && c.Same(q.value, Fold(AddOp(c), O, s, b))
  {
    MulIsFold(c, s, b);
    DecompressCompress(c, Mul(c, s, b));
    c.SameTrans(Decompress(c, Compress(c, Mul(c, s, b))).value, Mul(c, s, b), Fold(AddOp(c), O, s, b));
  }

  lemma VerificationEquation(c: Curve, l: nat, b: Point, a: nat, r: nat, h: nat, pa: Point, pr: Point)
    requires Setting(c, l, b) && c.Valid(pa) && c.Valid(pr)
    requires c.Same(pa, Fold(AddOp(c), O, a, b)) && c.Same(pr, Fold(AddOp(c), O, r, b))
    ensures c.Same(Mul(c, (r + h * a) % l, b), c.Add(pr, Mul(c, h, pa)))
  {
    var g, s := GroupOf(c), (r + h * a) % l;
    CurveLaws(c);
    MulIsFold(c, h, pa);
    MulIsFold(c, s, b);
    HonestEquation(g, l, b, a, r, h, pa, pr, Mul(c, h, pa));
    TimesOk(g, s, b);
    c.SameTrans(Mul(c, s, b), Fold(AddOp(c), O, s, b), c.Add(pr, Mul(c, h, pa)));
  }

  /** Every honestly made signature is accepted: for every secret, nonce, message and hash. */
  lemma HonestSignatureAccepted(c: Curve, l: nat, b: Point, hash: Hash, a: nat, r: nat, msg: seq<byte>)
    requires Setting(c, l, b)
    ensures Verify(c, l, b, hash, PublicKey(c, b, a), msg, Sign(c, l, b, hash, a, r, msg))
  {
    var pub, sig := PublicKey(c, b, a), Sign(c, l, b, hash, a, r, msg);
    var bigR := Compress(c, Mul(c, r, b));
    var h := hash(bigR + pub + msg) % l;
    var s := (r + h * a) % l;
    ScalarReads(s, l);
    assert sig[..32] == bigR && sig[32..] == LittleEndian(s, 32);
    EncodedMultiple(c, l, b, a);
    EncodedMultiple(c, l, b, r);
    var pa, pr := Decompress(c, pub).value, Decompress(c, bigR).value;
    VerificationEquation(c, l, b, a, r, h, pa, pr);
    Accepts(c, l, b, hash, pub, msg, sig, pa, pr, s);
  }

  lemma ScalarReads(s: nat, l: nat)
    requires s < l <= 2 * TWO_255
    ensures FromLittleEndian(LittleEndian(s, 32)) == s
  {
    assert s < Pow256(32) by {
      SplitTopBit(TWO_255 - 1, 1);
    }
    LittleEndianRoundTrip(s, 32);
  }

  /** The verifier's checks, one by one. */
  lemma Accepts(c: Curve, l: nat, b: Point, hash: Hash, pub: seq<byte>, msg: seq<byte>, sig: seq<byte>,
      pa: Point, pr: Point, s: nat)
    requires c.P > 3 && l > 0 && |pub| == 32 && |sig| == 64
    requires Decompress(c, pub) == Some(pa) && Decompress(c, sig[..32]) == Some(pr)
    requires FromLittleEndian(sig[32..]) == s < l
    requires c.Same(Mul(c, s, b), c.Add(pr, Mul(c, hash(sig[..32] + pub + msg) % l, pa)))
    ensures Verify(c, l, b, hash, pub, msg, sig)
  {
  }

  // ------------------------------------------------------------ the actual curve

  const CURVE := Curve(
    0x7fff_ffff_ffff_ffff_ffff_ffff_ffff_ffff_ffff_ffff_ffff_ffff_ffff_ffff_ffff_ffed,
    0x5203_6cee_2b6f_fe73_8cc7_4079_7779_e898_0070_0a4d_4141_d8ab_75eb_4dca_1359_78a3,
    0x2b83_2480_4fc1_df0b_2b4d_0099_3dfb_d7a7_2f43_1806_ad2f_e478_c4ee_1b27_4a0e_a0b0)

  const L: nat := 0x1000_0000_0000_0000_0000_0000_0000_0000_14de_f9de_a2f7_9cd6_5812_631a_5cf5_d3ed

  const BASE := Point(
    0x2169_36d3_cd6e_53fe_c0a4_e231_fdd6_dc5c_692c_c760_9525_a7b2_c956_2d60_8f25_d51a,
    0x6666_6666_6666_6666_6666_6666_6666_6666_6666_6666_6666_6666_6666_6666_6666_6658,
    1,
    0x6787_5f0f_d78b_7665_66ea_4e8e_64ab_e37d_20f0_9f80_7751_52f5_6dde_8ab3_a5b7_dda3)

  /** The constants meet their definitions: p = 2^255 - 19, D = -121665/121666, I^2 = -1,
      and the base point is the even-x point at y = 4/5. */
  lemma ConstantsChecked()
    ensures CURVE.P == TWO_255 - 19 && CURVE.P % 8 == 5
    ensures CURVE.Cong(CURVE.D * 121666, -121665)
    ensures CURVE.Sound()
    ensures CURVE.Cong(5 * BASE.y, 4) && BASE.x % 2 == 0
    ensures CURVE.Valid(BASE)
  {
    CURVE.CongIsMod(CURVE.D * 121666, -121665);
    CURVE.CongIsMod(CURVE.I * CURVE.I, -1);
    CURVE.CongIsMod(CURVE.D, 0);
    CURVE.CongIsMod(CURVE.D + 1, 0);
    CURVE.CongIsMod(CURVE.I, 0);
    CURVE.CongIsMod(2, 0);
    CURVE.CongIsMod(5 * BASE.y, 4);
    CURVE.UnitNonzero(1);
    CURVE.CongIsMod(BASE.x * BASE.y, BASE.z * BASE.t);
    CURVE.CongIsMod(BASE.y * BASE.y - BASE.x * BASE.x, BASE.z * BASE.z + CURVE.D * (BASE.t * BASE.t));
  }

  /** The verifier of the suite accepts every honest signature, given that p is prime (no zero
      divisors, Fermat), that D is not a square, that the addition associates and that L kills
      the base point. */
  lemma SuiteAcceptsHonestSignatures(hash: Hash, a: nat, r: nat, msg: seq<byte>)
    requires CURVE.NoZeroDivisors() && CURVE.Fermat() && CURVE.NonSquare()
    requires Associative(CURVE) && CURVE.Same(Fold(AddOp(CURVE), O, L, BASE), O)
    ensures Verify(CURVE, L, BASE, hash, PublicKey(CURVE, BASE, a), msg, Sign(CURVE, L, BASE, hash, a, r, msg))
  {
    ConstantsChecked();
    HonestSignatureAccepted(CURVE, L, BASE, hash, a, r, msg);
  }
}
