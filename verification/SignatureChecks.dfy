/** Which signatures the verifier of the conformance suite accepts: the exact condition in terms of
    curve points and repeated addition, the one scalar that goes with an honest key and nonce, and
    when a signature made for one message passes for another. */
module SignatureChecks {
  import opened Wrappers
  import opened Bytes
  import opened Edwards
  import opened Groups
  import opened Ed25519

  // ------------------------------------------------------------ encoded points

  /** Section 5.1.3 of RFC 8032: `b` is the encoding of the curve point (x, y). */
  ghost predicate Encodes(c: Curve, b: seq<byte>, x: int, y: int) {
    && 0 <= x < c.P && 0 <= y < c.P && OnCurve(c, x, y)
    && |b| == 32 && FromLittleEndian(b) == y + (x % 2) * TWO_255
  }

  function Affine(c: Curve, x: int, y: int): Point {
    Point(x, y, 1, x * y % c.P)
  }

  /** D y^2 + 1 never vanishes, as -1 is a square and D is not. */
  lemma HeightNonzero(c: Curve, y: int)
    requires c.Regular() && c.NonSquare()
    ensures !c.Cong(c.D * (y * y) + 1, 0)
  {
    if c.Cong(c.D * (y * y) + 1, 0) {
      MinusOne(c, c.D * (y * y));
      c.CongTrans(c.I * c.I, -1, c.D * (y * y));
      assert c.ScaledSquare(c.I, y);
      c.ZeroFactor(y, y);
      c.ZeroFactor(y * y, c.D);
    }
  }

  /** What is congruent to -1 is not congruent to zero. */
  lemma MinusOne(c: Curve, n: int)
    requires c.Cong(n + 1, 0)
    ensures c.Cong(-1, n) && !c.Cong(n, 0)
  {
    var j := c.CongWitness(n + 1, 0);
    c.CongByMultiple(-1, n, -j);
    c.UnitNonzero(-1);
    if c.Cong(n, 0) {
      c.CongTrans(-1, n, 0);
    }
  }

  /** The quotient times its denominator is the numerator. */
  lemma QuotientTimes(c: Curve, u: int, v: int, w: int)
    requires c.Cong(v * w, 1)
    ensures c.Cong((u * w % c.P) * v, u)
  {
    c.CongReduce(u * w);
    c.CongScale(u * w % c.P, u * w, v);
    c.CongScale(v * w, 1, u);
    c.Scale(u, v, w);
    c.Rotate(u, w, v);
    c.CongTrans((u * w % c.P) * v, (u * w) * v, u * 1);
  }

  /** y^2 - 1 = x^2 (D y^2 + 1) puts (x, y) on the curve. */
  lemma CurveFromSquare(c: Curve, x: int, y: int)
    requires c.Cong((x * x) * (c.D * (y * y) + 1), y * y - 1)
    ensures OnCurve(c, x, y)
  {
    var k := c.CongWitness((x * x) * (c.D * (y * y) + 1), y * y - 1);
    Expand(c.D, x * x, y * y);
    c.SquareOfProduct(x, y);
    c.CongByMultiple(y * y - x * x, 1 + c.D * ((x * y) * (x * y)), -k);
  }

  /** A root of the computed square is the x of a curve point at height y. */
  lemma RootOnCurve(c: Curve, x: int, y: int)
    requires PrimeField(c) && c.NonSquare() && c.Cong(x * x, SquareAt(c, y))
    ensures OnCurve(c, x, y)
  {
    var v := c.D * (y * y) + 1;
    HeightNonzero(c, y);
    InversePower(c, v);
    QuotientTimes(c, y * y - 1, v, c.Pow(v, c.P - 2) % c.P);
    c.CongScale(x * x, SquareAt(c, y), v);
    c.CongTrans((x * x) * v, SquareAt(c, y) * v, y * y - 1);
    CurveFromSquare(c, x, y);
  }

  lemma OppositeSquare(c: Curve, x: int, x2: int)
    requires c.Cong(x * x, x2)
    ensures c.Cong((c.P - x) * (c.P - x), x2)
  {
    var k := c.CongWitness(x * x, x2);
    OppositeExpand(c.P, x);
    c.CongByMultiple((c.P - x) * (c.P - x), x2, k + c.P - 2 * x);
  }

  lemma OppositeExpand(p: int, x: int)
    ensures (p - x) * (p - x) == x * x + p * (p - 2 * x)
  {
  }

  /** What the square root returns is a root in range with the asked parity. */
  lemma RootOfSound(c: Curve, x2: nat, sign: nat, x: int)
    requires PrimeField(c) && x2 < c.P && sign < 2 && RootOf(c, x2, sign) == Some(x)
    ensures 0 <= x < c.P && x % 2 == sign && c.Cong(x * x, x2)
  {
    if x2 == 0 {
      c.CongRefl(0);
    } else {
      var x1 := CandidateOf(c, x2, sign, x);
      CandidateSound(c, x2, sign, x1);
    }
  }

  lemma CandidateOf(c: Curve, x2: nat, sign: nat, x: int) returns (x1: int)
    requires c.P > 3 && x2 != 0 && RootOf(c, x2, sign) == Some(x)
    ensures 0 <= x1 < c.P && (x1 * x1 - x2) % c.P == 0
    ensures x == if x1 % 2 != sign then c.P - x1 else x1
  {
    var y := c.Pow(x2, (c.P + 3) / 8);
    var x0 := y % c.P;
    x1 := if (x0 * x0 - x2) % c.P != 0 then x0 * c.I % c.P else x0;
    CandidateRange(c, y, x0, x1, (x0 * x0 - x2) % c.P != 0);
  }

  lemma CandidateSound(c: Curve, x2: nat, sign: nat, x1: int)
    requires PrimeField(c) && 0 < x2 < c.P && sign < 2 && 0 <= x1 < c.P && (x1 * x1 - x2) % c.P == 0
    ensures var x := if x1 % 2 != sign then c.P - x1 else x1;
      0 <= x < c.P && x % 2 == sign && c.Cong(x * x, x2)
  {
    c.CongIsMod(x1 * x1, x2);
    OppositeSquare(c, x1, x2);
    if x1 == 0 {
      c.CongSym(0, x2);
      c.CongSmall(x2, 0);
    }
    ParityOfOpposite(c.P, x1);
  }

  lemma ParityOfOpposite(p: nat, x: nat)
    requires p % 8 == 5 && x < p
    ensures (p - x) % 2 == 1 - x % 2
  {
  }

  /** Decompression returns nothing but the curve points that the bytes encode. */
  lemma DecompressSound(c: Curve, b: seq<byte>, p: Point)
    requires PrimeField(c) && c.NonSquare() && Decompress(c, b) == Some(p)
    ensures Encodes(c, b, p.x, p.y) && p == Affine(c, p.x, p.y)
  {
    var n := FromLittleEndian(b);
    var y, sign := n % TWO_255, n / TWO_255;
    TopBit(b);
    RootOfSound(c, SquareAt(c, y), sign, p.x);
    RootOnCurve(c, p.x, y);
  }

  lemma TopBit(b: seq<byte>)
    requires |b| == 32
    ensures FromLittleEndian(b) / TWO_255 < 2
  {
    FromLittleEndianBound(b);
    ThirtyTwoBytes();
  }

  /** A point that some bytes encode is what they decompress to. */
  lemma DecompressFinds(c: Curve, b: seq<byte>, x: int, y: int)
    requires PrimeField(c) && c.P <= TWO_255 && Encodes(c, b, x, y)
    ensures Decompress(c, b) == Some(Affine(c, x, y))
  {
    SplitTopBit(y, x % 2);
    RecoverXFinds(c, x, y);
  }

  // --------------------------------------------------------- accepted signatures

  /** The equation that section 5.1.7 of RFC 8032 asks of the points A and R, the number s and the
      hash h, with multiples as repeated additions. */
  ghost predicate Balances(c: Curve, b: Point, s: nat, h: nat, pa: Point, pr: Point) {
    c.Same(Fold(AddOp(c), O, s, b), c.Add(pr, Fold(AddOp(c), O, h, pa)))
  }

  /** Bytes that encode two curve points, a number below l, and an equation that holds. */
  ghost predicate Genuine(c: Curve, l: nat, b: Point, hash: Hash, pub: seq<byte>, msg: seq<byte>, sig: seq<byte>)
    requires l > 0
  {
    && |pub| == 32 && |sig| == 64 && FromLittleEndian(sig[32..]) < l
    && exists xa, ya, xr, yr ::
      && Encodes(c, pub, xa, ya) && Encodes(c, sig[..32], xr, yr)
      && Balances(c, b, FromLittleEndian(sig[32..]), hash(sig[..32] + pub + msg) % l,
                  Affine(c, xa, ya), Affine(c, xr, yr))
  }

  ghost predicate CurveGroup(c: Curve, b: Point) {
    PrimeField(c) && c.NonSquare() && Associative(c) && c.P <= TWO_255 && c.Valid(b)
  }

  /** Computed with double-and-add or with repeated addition, the equation is the same. */
  lemma EquationFolds(c: Curve, b: Point, s: nat, h: nat, pa: Point, pr: Point)
    requires CurveGroup(c, b) && c.Valid(pa) && c.Valid(pr)
    ensures c.Same(Mul(c, s, b), c.Add(pr, Mul(c, h, pa))) <==> Balances(c, b, s, h, pa, pr)
  {
    var g := GroupOf(c);
    CurveLaws(c);
    MulIsFold(c, s, b);
    MulIsFold(c, h, pa);
    TimesOk(g, s, b);
    TimesOk(g, h, pa);
    SidesAgree(g, Mul(c, s, b), Times(g, s, b), pr, Mul(c, h, pa), Times(g, h, pa));
  }

  lemma SidesAgree(g: Group<Point>, m: Point, f: Point, r: Point, n: Point, k: Point)
    requires Laws(g) && g.ok(m) && g.ok(f) && g.ok(r) && g.ok(n) && g.ok(k) && g.same(m, f) && g.same(n, k)
    ensures g.same(m, g.op(r, n)) <==> g.same(f, g.op(r, k))
  {
    Groups.Closed(g, r, n);
    Groups.Closed(g, r, k);
    Groups.Cong(g, n, k, r);
    assert SymAt(g, m, f) && SymAt(g, g.op(r, n), g.op(r, k));
    if g.same(m, g.op(r, n)) {
      Groups.Trans(g, f, m, g.op(r, n));
      Groups.Trans(g, f, g.op(r, n), g.op(r, k));
    }
    if g.same(f, g.op(r, k)) {
      Groups.Trans(g, m, f, g.op(r, k));
      Groups.Trans(g, m, g.op(r, k), g.op(r, n));
    }
  }

  /** The verifier accepts exactly the bytes that encode two curve points and a number below l for
      which the equation holds. */
  lemma AcceptedExactly(c: Curve, l: nat, b: Point, hash: Hash, pub: seq<byte>, msg: seq<byte>, sig: seq<byte>)
    requires CurveGroup(c, b) && l > 0
    ensures Verify(c, l, b, hash, pub, msg, sig) <==> Genuine(c, l, b, hash, pub, msg, sig)
  {
    if Genuine(c, l, b, hash, pub, msg, sig) {
      GenuineAccepted(c, l, b, hash, pub, msg, sig);
    }
    if Verify(c, l, b, hash, pub, msg, sig) {
      AcceptedGenuine(c, l, b, hash, pub, msg, sig);
    }
  }

  lemma GenuineAccepted(c: Curve, l: nat, b: Point, hash: Hash, pub: seq<byte>, msg: seq<byte>, sig: seq<byte>)
    requires CurveGroup(c, b) && l > 0 && Genuine(c, l, b, hash, pub, msg, sig)
    ensures Verify(c, l, b, hash, pub, msg, sig)
  {
    var s, h := FromLittleEndian(sig[32..]), hash(sig[..32] + pub + msg) % l;
    var xa, ya, xr, yr :| Encodes(c, pub, xa, ya) && Encodes(c, sig[..32], xr, yr)
      && Balances(c, b, s, h, Affine(c, xa, ya), Affine(c, xr, yr));
    DecompressFinds(c, pub, xa, ya);
    DecompressFinds(c, sig[..32], xr, yr);
    AffineValid(c, xa, ya);
    AffineValid(c, xr, yr);
    EquationFolds(c, b, s, h, Affine(c, xa, ya), Affine(c, xr, yr));
    Accepts(c, l, b, hash, pub, msg, sig, Affine(c, xa, ya), Affine(c, xr, yr), s);
  }

  lemma AcceptedGenuine(c: Curve, l: nat, b: Point, hash: Hash, pub: seq<byte>, msg: seq<byte>, sig: seq<byte>)
    requires CurveGroup(c, b) && l > 0 && Verify(c, l, b, hash, pub, msg, sig)
    ensures Genuine(c, l, b, hash, pub, msg, sig)
  {
    var s, h := FromLittleEndian(sig[32..]), hash(sig[..32] + pub + msg) % l;
    var pa, pr := Decompress(c, pub).value, Decompress(c, sig[..32]).value;
    DecompressSound(c, pub, pa);
    DecompressSound(c, sig[..32], pr);
    AffineValid(c, pa.x, pa.y);
    AffineValid(c, pr.x, pr.y);
    EquationFolds(c, b, s, h, pa, pr);
    assert Balances(c, b, s, h, Affine(c, pa.x, pa.y), Affine(c, pr.x, pr.y));
  }

  // ------------------------------------------------- honest keys, honest nonces

  /** With the public key of `a` and the nonce point of `r`, one number in 32 bytes is accepted. */
  lemma OnlyHonestScalar(c: Curve, l: nat, b: Point, hash: Hash, a: nat, r: nat, msg: seq<byte>,
      pub: seq<byte>, bigR: seq<byte>, tail: seq<byte>, h: nat, t: nat)
    requires Setting(c, l, b) && ExactOrder(GroupOf(c), l, b)
    requires pub == PublicKey(c, b, a) && bigR == Compress(c, Mul(c, r, b)) && |tail| == 32
    requires h == hash(bigR + pub + msg) % l && t == (r + h * a) % l
    ensures Verify(c, l, b, hash, pub, msg, bigR + tail) <==> FromLittleEndian(tail) == t
  {
    var pa, pr := HonestPoints(c, l, b, a, r, h, t);
    ScalarAccepted(c, l, b, hash, pub, msg, bigR, tail, pa, pr, h, t);
  }

  /** The points that an honest key and nonce decode to, and the number that balances them. */
  lemma HonestPoints(c: Curve, l: nat, b: Point, a: nat, r: nat, h: nat, t: nat) returns (pa: Point, pr: Point)
    requires Setting(c, l, b) && t == (r + h * a) % l
    ensures Decompress(c, PublicKey(c, b, a)) == Some(pa) && Decompress(c, Compress(c, Mul(c, r, b))) == Some(pr)
    ensures c.Valid(pa) && c.Valid(pr) && c.Same(Mul(c, t, b), c.Add(pr, Mul(c, h, pa)))
  {
    EncodedMultiple(c, l, b, a);
    EncodedMultiple(c, l, b, r);
    pa, pr := Decompress(c, PublicKey(c, b, a)).value, Decompress(c, Compress(c, Mul(c, r, b))).value;
    VerificationEquation(c, l, b, a, r, h, pa, pr);
  }

  lemma ScalarAccepted(c: Curve, l: nat, b: Point, hash: Hash, pub: seq<byte>, msg: seq<byte>, bigR: seq<byte>,
      tail: seq<byte>, pa: Point, pr: Point, h: nat, t: nat)
    requires Setting(c, l, b) && ExactOrder(GroupOf(c), l, b) && |pub| == 32 && |bigR| == 32 && |tail| == 32
    requires Decompress(c, pub) == Some(pa) && Decompress(c, bigR) == Some(pr) && c.Valid(pa) && c.Valid(pr)
    requires h == hash(bigR + pub + msg) % l && t < l && c.Same(Mul(c, t, b), c.Add(pr, Mul(c, h, pa)))
    ensures Verify(c, l, b, hash, pub, msg, bigR + tail) <==> FromLittleEndian(tail) == t
  {
    var s, sig := FromLittleEndian(tail), bigR + tail;
    assert sig[..32] == bigR && sig[32..] == tail;
    if s < l && c.Same(Mul(c, s, b), c.Add(pr, Mul(c, h, pa))) {
      ScalarForced(c, l, b, s, t, h, pa, pr);
    }
  }

  lemma ScalarForced(c: Curve, l: nat, b: Point, s: nat, t: nat, h: nat, pa: Point, pr: Point)
    requires Setting(c, l, b) && ExactOrder(GroupOf(c), l, b) && c.Valid(pa) && c.Valid(pr) && s < l && t < l
    requires c.Same(Mul(c, s, b), c.Add(pr, Mul(c, h, pa))) && c.Same(Mul(c, t, b), c.Add(pr, Mul(c, h, pa)))
    ensures s == t
  {
    var g, x := GroupOf(c), c.Add(pr, Mul(c, h, pa));
    CurveLaws(c);
    MulIsFold(c, h, pa);
    MulIsFold(c, s, b);
    MulIsFold(c, t, b);
    TimesOk(g, s, b);
    TimesOk(g, t, b);
    Groups.Closed(g, pr, Mul(c, h, pa));
    c.SameSym(Mul(c, t, b), x);
    c.SameSym(Mul(c, s, b), Times(g, s, b));
    c.SameTrans(Mul(c, s, b), x, Mul(c, t, b));
    c.SameTrans(Times(g, s, b), Mul(c, s, b), Mul(c, t, b));
    c.SameTrans(Times(g, s, b), Mul(c, t, b), Times(g, t, b));
    ScalarsBelowOrder(g, s, t, l, b);
  }

  /** Below a prime `l`, a number that `a` multiplies to zero is zero, or `a` is. */
  lemma {:induction false} PrimeFactor(l: nat, n: nat, a: nat, k: nat)
    requires Prime(l) && 0 < n < l && n * a == k * l
    ensures a % l == 0
    decreases n
  {
    if n == 1 {
      MultipleOf(k, l, a);
    } else {
      assert !Divides(n, l);
      var q, m := l / n, l % n;
      Remainder(l, n, q, m, a, k);
      RemainderSign(m, a, a - q * k, l);
      PrimeFactor(l, m, a, a - q * k);
    }
  }

  lemma MultipleOf(k: nat, l: nat, n: nat)
    requires l > 0 && n == k * l
    ensures n % l == 0
  {
    var q, m := n / l, n % l;
    assert (k - q) * l == m by {
      Quotient(k, q, l, m, n);
    }
    if k > q {
      OneMore(k - q, l);
    }
  }

  lemma Quotient(k: int, q: int, l: int, m: int, n: int)
    requires n == k * l && n == l * q + m
    ensures (k - q) * l == m
  {
  }

  lemma OneMore(d: nat, l: nat)
    requires d > 0
    ensures d * l >= l
  {
  }

  lemma Remainder(l: int, n: int, q: int, m: int, a: int, k: int)
    requires l == n * q + m && n * a == k * l
    ensures m * a == (a - q * k) * l
  {
    assert (n * q) * a == q * (n * a);
    assert q * (k * l) == (q * k) * l;
  }

  lemma RemainderSign(m: nat, a: nat, k: int, l: nat)
    requires m * a == k * l && l > 0
    ensures k >= 0
  {
  }

  /** Two hashes give the same scalar if and only if they agree modulo a prime `l`. */
  lemma SameScalar(l: nat, r: nat, a: nat, h: nat, h': nat, t: nat, t': nat)
    requires Prime(l) && a % l != 0 && h < l && h' < l && t == (r + h * a) % l && t' == (r + h' * a) % l
    ensures t == t' <==> h == h'
  {
    if t == t' && h != h' {
      if h < h' {
        ScalarGap(l, r, a, h, h');
      } else {
        ScalarGap(l, r, a, h', h);
      }
    }
  }

  lemma ScalarGap(l: nat, r: nat, a: nat, h: nat, h': nat)
    requires Prime(l) && h < h' < l && (r + h * a) % l == (r + h' * a) % l
    ensures a % l == 0
  {
    var x, y := r + h * a, r + h' * a;
    GapIsMultiple(x, y, l, (h' - h) * a);
    RemainderSign(h' - h, a, y / l - x / l, l);
    PrimeFactor(l, h' - h, a, y / l - x / l);
  }

  lemma GapIsMultiple(x: int, y: int, l: int, d: int)
    requires l > 0 && x % l == y % l && y - x == d
    ensures d == (y / l - x / l) * l
  {
  }

  /** A signature made for one message passes for another if and only if the two hashes agree
      modulo l: a signature is bound to what it was made for. */
  lemma TamperedMessage(c: Curve, l: nat, b: Point, hash: Hash, a: nat, r: nat, msg: seq<byte>, other: seq<byte>,
      pub: seq<byte>, bigR: seq<byte>, h: nat, h': nat)
    requires Setting(c, l, b) && ExactOrder(GroupOf(c), l, b) && Prime(l) && a % l != 0
    requires pub == PublicKey(c, b, a) && bigR == Compress(c, Mul(c, r, b))
    requires h == hash(bigR + pub + msg) % l && h' == hash(bigR + pub + other) % l
    ensures Verify(c, l, b, hash, pub, other, Sign(c, l, b, hash, a, r, msg)) <==> h == h'
  {
    var t, t' := (r + h * a) % l, (r + h' * a) % l;
    var tail := SignatureTail(c, l, b, hash, a, r, msg, pub, bigR, h, t);
    OnlyHonestScalar(c, l, b, hash, a, r, other, pub, bigR, tail, h', t');
    SameScalar(l, r, a, h, h', t, t');
  }

  /** The second half of a signature reads as the honest number. */
  lemma SignatureTail(c: Curve, l: nat, b: Point, hash: Hash, a: nat, r: nat, msg: seq<byte>,
      pub: seq<byte>, bigR: seq<byte>, h: nat, t: nat) returns (tail: seq<byte>)
    requires c.P > 3 && 0 < l <= 2 * TWO_255 && pub == PublicKey(c, b, a) && bigR == Compress(c, Mul(c, r, b))
    requires h == hash(bigR + pub + msg) % l && t == (r + h * a) % l
    ensures Sign(c, l, b, hash, a, r, msg) == bigR + tail && |tail| == 32 && FromLittleEndian(tail) == t
  {
    tail := LittleEndian(t, 32);
    ScalarReads(t, l);
  }

  /** The verifier of the suite, given that p and L are prime, that D is not a square, that the
      addition associates and that L kills the base point: an honest signature passes for the
      messages whose hash agrees with that of its own, and for no others. */
  lemma SuiteRefusesTampering(hash: Hash, a: nat, r: nat, msg: seq<byte>, other: seq<byte>,
      pub: seq<byte>, bigR: seq<byte>, h: nat, h': nat)
    requires CURVE.NoZeroDivisors() && CURVE.Fermat() && CURVE.NonSquare() && Prime(L)
    requires Associative(CURVE) && CURVE.Same(Fold(AddOp(CURVE), O, L, BASE), O) && a % L != 0
    requires pub == PublicKey(CURVE, BASE, a) && bigR == Compress(CURVE, Mul(CURVE, r, BASE))
    requires h == hash(bigR + pub + msg) % L && h' == hash(bigR + pub + other) % L
    ensures Verify(CURVE, L, BASE, hash, pub, other, Sign(CURVE, L, BASE, hash, a, r, msg)) <==> h == h'
  {
    ConstantsChecked();
    BaseIsNotOrigin();
    CurveLaws(CURVE);
    PrimeOrder(GroupOf(CURVE), L, BASE);
    TamperedMessage(CURVE, L, BASE, hash, a, r, msg, other, pub, bigR, h, h');
  }

  lemma BaseIsNotOrigin()
    ensures !CURVE.Same(BASE, O)
  {
  }
}
