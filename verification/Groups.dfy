/** Repeated addition and double-and-add over any group whose elements have several
    representatives: `same` is equality of elements, `ok` picks the well-formed representatives. */
module Groups {

  datatype Group<!T> = Group(op: (T, T) -> T, unit: T, same: (T, T) -> bool, ok: T -> bool)

  // Each law is stated through a predicate on its instances, so that a proof names the instances it uses.

  ghost predicate SymAt<T>(g: Group<T>, p: T, q: T) {
    g.same(p, q) ==> g.same(q, p)
  }

  ghost predicate TransAt<T>(g: Group<T>, p: T, q: T, r: T) {
    g.ok(q) && g.same(p, q) && g.same(q, r) ==> g.same(p, r)
  }

  ghost predicate ClosedAt<T>(g: Group<T>, p: T, q: T) {
    g.ok(p) && g.ok(q) ==> g.ok(g.op(p, q))
  }

  ghost predicate CongAt<T>(g: Group<T>, p: T, p': T, q: T) {
    g.ok(p) && g.ok(p') && g.same(p, p') ==> g.same(g.op(p, q), g.op(p', q))
  }

  ghost predicate CommutesAt<T(!new)>(g: Group<T>, p: T, q: T) {
    g.op(p, q) == g.op(q, p)
  }

  ghost predicate AssocAt<T>(g: Group<T>, p: T, q: T, r: T) {
    g.ok(p) && g.ok(q) && g.ok(r) ==> g.same(g.op(g.op(p, q), r), g.op(p, g.op(q, r)))
  }

  ghost predicate UnitAt<T>(g: Group<T>, p: T) {
    g.same(g.op(g.unit, p), p)
  }

  ghost predicate Laws<T(!new)>(g: Group<T>) {
    && (forall p, q :: SymAt(g, p, q))
    && (forall p, q, r :: TransAt(g, p, q, r))
    && g.ok(g.unit)
    && (forall p, q :: ClosedAt(g, p, q))
    && (forall p, p', q :: CongAt(g, p, p', q))
    && (forall p, q :: CommutesAt(g, p, q))
    && (forall p, q, r :: AssocAt(g, p, q, r))
    && (forall p :: UnitAt(g, p))
  }

  /** `p + unit` is `p`, and every element is the same as itself. */
  lemma UnitRight<T(!new)>(g: Group<T>, p: T)
    requires Laws(g) && g.ok(p)
    ensures g.same(g.op(p, g.unit), p) && g.same(p, g.op(p, g.unit)) && g.same(p, p)
  {
    assert UnitAt(g, p) && CommutesAt(g, g.unit, p) && ClosedAt(g, p, g.unit);
    var q := g.op(p, g.unit);
    assert SymAt(g, q, p) && TransAt(g, p, q, p);
  }

  lemma Trans<T(!new)>(g: Group<T>, p: T, q: T, r: T)
    requires Laws(g) && g.ok(q) && g.same(p, q) && g.same(q, r)
    ensures g.same(p, r)
  {
    assert TransAt(g, p, q, r);
  }

  lemma Closed<T(!new)>(g: Group<T>, p: T, q: T)
    requires Laws(g) && g.ok(p) && g.ok(q)
    ensures g.ok(g.op(p, q))
  {
    assert ClosedAt(g, p, q);
  }

  lemma Cong<T(!new)>(g: Group<T>, p: T, p': T, q: T)
    requires Laws(g) && g.ok(p) && g.ok(p') && g.same(p, p')
    ensures g.same(g.op(p, q), g.op(p', q)) && g.same(g.op(q, p), g.op(q, p'))
  {
    assert CongAt(g, p, p', q) && CommutesAt(g, p, q) && CommutesAt(g, p', q);
  }

  /** Double-and-add: `q` plus `s` times `p`. */
  function MulFrom<T>(op: (T, T) -> T, s: nat, p: T, q: T): T
    decreases s
  {
    if s == 0 then q
    else MulFrom(op, s / 2, op(p, p), if s % 2 == 1 then op(q, p) else q)
  }

  /** `p` added `n` times. */
  function Fold<T>(op: (T, T) -> T, unit: T, n: nat, p: T): T {
    if n == 0 then unit else op(Fold(op, unit, n - 1, p), p)
  }

  ghost function Times<T>(g: Group<T>, n: nat, p: T): T {
    Fold(g.op, g.unit, n, p)
  }

  lemma {:induction false} TimesOk<T(!new)>(g: Group<T>, n: nat, p: T)
    requires Laws(g) && g.ok(p)
    ensures g.ok(Times(g, n, p))
  {
    if n > 0 {
      TimesOk(g, n - 1, p);
      Closed(g, Times(g, n - 1, p), p);
    }
  }

  lemma {:induction false} TimesAdd<T(!new)>(g: Group<T>, m: nat, n: nat, p: T)
    requires Laws(g) && g.ok(p)
    ensures g.same(Times(g, m + n, p), g.op(Times(g, m, p), Times(g, n, p)))
  {
    var a := Times(g, m, p);
    TimesOk(g, m, p);
    if n == 0 {
      UnitRight(g, a);
    } else {
      var b, s := Times(g, n - 1, p), Times(g, m + (n - 1), p);
      TimesOk(g, n - 1, p);
      TimesOk(g, m + (n - 1), p);
      TimesAdd(g, m, n - 1, p);
      Closed(g, a, b);
      Closed(g, g.op(a, b), p);
      Cong(g, s, g.op(a, b), p);
      assert AssocAt(g, a, b, p);
      Trans(g, g.op(s, p), g.op(g.op(a, b), p), g.op(a, g.op(b, p)));
    }
  }

  lemma {:induction false} TimesCong<T(!new)>(g: Group<T>, n: nat, p: T, p': T)
    requires Laws(g) && g.ok(p) && g.ok(p') && g.same(p, p')
    ensures g.same(Times(g, n, p), Times(g, n, p'))
  {
    if n == 0 {
      UnitRight(g, g.unit);
    } else {
      var a, a' := Times(g, n - 1, p), Times(g, n - 1, p');
      TimesCong(g, n - 1, p, p');
      TimesOk(g, n - 1, p);
      TimesOk(g, n - 1, p');
      Cong(g, a, a', p);
      Cong(g, p, p', a');
      Closed(g, a', p);
      Trans(g, g.op(a, p), g.op(a', p), g.op(a', p'));
    }
  }

  /** n times (m times p) is (n * m) times p. */
  lemma {:induction false} TimesTimes<T(!new)>(g: Group<T>, m: nat, n: nat, p: T)
    requires Laws(g) && g.ok(p)
    ensures g.same(Times(g, n * m, p), Times(g, n, Times(g, m, p)))
  {
    var q := Times(g, m, p);
    TimesOk(g, m, p);
    if n == 0 {
      assert n * m == 0;
      UnitRight(g, g.unit);
    } else {
      var k := (n - 1) * m;
      assert n * m == k + m;
      TimesAdd(g, k, m, p);
      TimesTimes(g, m, n - 1, p);
      TimesOk(g, k, p);
      TimesOk(g, n - 1, q);
      Cong(g, Times(g, k, p), Times(g, n - 1, q), q);
      Closed(g, Times(g, k, p), q);
      Trans(g, Times(g, n * m, p), g.op(Times(g, k, p), q), Times(g, n, q));
    }
  }

  lemma TimesTwice<T(!new)>(g: Group<T>, h: nat, p: T)
    requires Laws(g) && g.ok(p)
    ensures g.same(Times(g, h, g.op(p, p)), Times(g, 2 * h, p))
  {
    var pp, two := g.op(p, p), Times(g, 2, p);
    Closed(g, p, p);
    TimesOk(g, 2, p);
    TimesOk(g, h, two);
    TimesOk(g, 2 * h, p);
    assert two == g.op(g.op(g.unit, p), p) by {
      assert Times(g, 1, p) == g.op(g.unit, p);
    }
    Closed(g, g.unit, p);
    assert UnitAt(g, p);
    Cong(g, g.op(g.unit, p), p, p);
    assert SymAt(g, two, pp);
    TimesCong(g, h, pp, two);
    TimesTimes(g, 2, h, p);
    assert h * 2 == 2 * h;
    assert SymAt(g, Times(g, 2 * h, p), Times(g, h, two));
    Trans(g, Times(g, h, pp), Times(g, h, two), Times(g, 2 * h, p));
  }

  /** The loop keeps: accumulator plus remaining multiple. */
  lemma {:induction false} MulFromIsTimes<T(!new)>(g: Group<T>, s: nat, p: T, q: T)
    requires Laws(g) && g.ok(p) && g.ok(q)
    ensures g.ok(MulFrom(g.op, s, p, q))
    ensures g.same(MulFrom(g.op, s, p, q), g.op(q, Times(g, s, p)))
    decreases s
  {
    if s == 0 {
      UnitRight(g, q);
    } else {
      var h := s / 2;
      var q' := if s % 2 == 1 then g.op(q, p) else q;
      var pp, f := g.op(p, p), Times(g, 2 * h, p);
      var m, mid := MulFrom(g.op, s, p, q), g.op(q', Times(g, h, pp));
      Closed(g, p, p);
      Closed(g, q, p);
      MulFromIsTimes(g, h, pp, q');
      TimesTwice(g, h, p);
      TimesOk(g, h, pp);
      TimesOk(g, 2 * h, p);
      Cong(g, Times(g, h, pp), f, q');
      Closed(g, q', Times(g, h, pp));
      Trans(g, m, mid, g.op(q', f));
      if s % 2 == 1 {
        assert Times(g, s, p) == g.op(f, p);
        assert CommutesAt(g, f, p) && AssocAt(g, q, p, f);
        Closed(g, q', f);
        Trans(g, m, g.op(q', f), g.op(q, g.op(p, f)));
      }
    }
  }

  /** Double-and-add from the unit is repeated addition, for every scalar. */
  lemma MulIsTimes<T(!new)>(g: Group<T>, s: nat, p: T)
    requires Laws(g) && g.ok(p)
    ensures g.ok(MulFrom(g.op, s, p, g.unit))
    ensures g.same(MulFrom(g.op, s, p, g.unit), Times(g, s, p))
  {
    MulFromIsTimes(g, s, p, g.unit);
    TimesOk(g, s, p);
    Closed(g, g.unit, Times(g, s, p));
    assert UnitAt(g, Times(g, s, p));
    Trans(g, MulFrom(g.op, s, p, g.unit), g.op(g.unit, Times(g, s, p)), Times(g, s, p));
  }

  lemma {:induction false} TimesUnit<T(!new)>(g: Group<T>, n: nat)
    requires Laws(g)
    ensures g.same(Times(g, n, g.unit), g.unit)
  {
    if n == 0 {
      UnitRight(g, g.unit);
    } else {
      var a := Times(g, n - 1, g.unit);
      TimesUnit(g, n - 1);
      TimesOk(g, n - 1, g.unit);
      UnitRight(g, a);
      Trans(g, g.op(a, g.unit), a, g.unit);
    }
  }

  /** Multiples of a point whose order divides `l` depend on the scalar modulo `l` only. */
  lemma TimesMod<T(!new)>(g: Group<T>, s: nat, l: nat, b: T)
    requires Laws(g) && g.ok(b) && l > 0 && g.same(Times(g, l, b), g.unit)
    ensures g.same(Times(g, s, b), Times(g, s % l, b))
  {
    var k, r := s / l, s % l;
    var a, rest, lb := Times(g, k * l, b), Times(g, r, b), Times(g, l, b);
    TimesOk(g, k * l, b);
    TimesOk(g, l, b);
    TimesOk(g, r, b);
    TimesOk(g, k, lb);
    TimesOk(g, k, g.unit);
    TimesTimes(g, l, k, b);
    TimesCong(g, k, lb, g.unit);
    TimesUnit(g, k);
    Trans(g, a, Times(g, k, lb), Times(g, k, g.unit));
    Trans(g, a, Times(g, k, g.unit), g.unit);
    TimesAdd(g, k * l, r, b);
    assert k * l + r == s;
    Cong(g, a, g.unit, rest);
    Closed(g, a, rest);
    Closed(g, g.unit, rest);
    assert UnitAt(g, rest);
    Trans(g, Times(g, s, b), g.op(a, rest), g.op(g.unit, rest));
    Trans(g, Times(g, s, b), g.op(g.unit, rest), rest);
  }

  /** Two equal multiples below `l` leave a smaller multiple that vanishes. */
  lemma EqualMultiples<T(!new)>(g: Group<T>, s: nat, t: nat, l: nat, b: T)
    requires Laws(g) && g.ok(b) && g.same(Times(g, l, b), g.unit)
    requires s < t < l && g.same(Times(g, s, b), Times(g, t, b))
    ensures g.same(Times(g, s + (l - t), b), g.unit)
  {
    var d := l - t;
    var x, y, z := Times(g, s, b), Times(g, t, b), Times(g, d, b);
    TimesOk(g, s, b);
    TimesOk(g, t, b);
    TimesOk(g, d, b);
    TimesOk(g, l, b);
    TimesAdd(g, s, d, b);
    TimesAdd(g, t, d, b);
    Closed(g, x, z);
    Closed(g, y, z);
    Cong(g, x, y, z);
    assert SymAt(g, Times(g, l, b), g.op(y, z));
    Trans(g, Times(g, s + d, b), g.op(x, z), g.op(y, z));
    Trans(g, Times(g, s + d, b), g.op(y, z), Times(g, l, b));
    Trans(g, Times(g, s + d, b), Times(g, l, b), g.unit);
  }

  /** `l` multiples of `b` vanish and fewer do not. */
  ghost predicate ExactOrder<T>(g: Group<T>, l: nat, b: T) {
    g.same(Times(g, l, b), g.unit) && forall n :: 0 < n < l ==> !g.same(Times(g, n, b), g.unit)
  }

  /** Below the order of a point, equal multiples have equal scalars. */
  lemma ScalarsBelowOrder<T(!new)>(g: Group<T>, s: nat, t: nat, l: nat, b: T)
    requires Laws(g) && g.ok(b) && ExactOrder(g, l, b) && s < l && t < l
    requires g.same(Times(g, s, b), Times(g, t, b))
    ensures s == t
  {
    assert SymAt(g, Times(g, s, b), Times(g, t, b));
    if s < t {
      EqualMultiples(g, s, t, l, b);
    } else if t < s {
      EqualMultiples(g, t, s, l, b);
    }
  }

  predicate Divides(n: nat, l: nat)
    requires n > 0
  {
    l % n == 0
  }

  ghost predicate Prime(l: nat) {
    l > 1 && forall n :: 1 < n < l ==> !Divides(n, l)
  }

  /** If some multiple below a prime order vanishes, the point itself does. */
  lemma {:induction false} VanishingMultiple<T(!new)>(g: Group<T>, n: nat, l: nat, b: T)
    requires Laws(g) && g.ok(b) && Prime(l) && g.same(Times(g, l, b), g.unit)
    requires 0 < n < l && g.same(Times(g, n, b), g.unit)
    ensures g.same(Times(g, 1, b), g.unit)
    decreases n
  {
    if n > 1 {
      assert !Divides(n, l);
      TimesMod(g, l, n, b);
      TimesOk(g, l, b);
      assert SymAt(g, Times(g, l, b), Times(g, l % n, b));
      Trans(g, Times(g, l % n, b), Times(g, l, b), g.unit);
      VanishingMultiple(g, l % n, l, b);
    }
  }

  /** A point that a prime kills has exactly that order, unless it is the unit. */
  lemma PrimeOrder<T(!new)>(g: Group<T>, l: nat, b: T)
    requires Laws(g) && g.ok(b) && Prime(l) && g.same(Times(g, l, b), g.unit)
    ensures ExactOrder(g, l, b) <==> !g.same(b, g.unit)
  {
    var one := Times(g, 1, b);
    assert one == g.op(Times(g, 0, b), b);
    Closed(g, g.unit, b);
    assert UnitAt(g, b) && SymAt(g, one, b);
    if g.same(b, g.unit) {
      Trans(g, one, b, g.unit);
    }
    forall n | 0 < n < l && g.same(Times(g, n, b), g.unit)
      ensures g.same(b, g.unit)
    {
      VanishingMultiple(g, n, l, b);
      Trans(g, b, one, g.unit);
    }
  }
}
