/** Prepaid compute leases: integer accrual with two roundings and two integer casts, when a lease
    ends, how good the reported remaining time is, and exactly when the casts spoil either. */
module Leases {
  import opened Wrappers
  import opened Bytes

  const NANOS := 1_000_000_000

  /** Times are nanoseconds; the rate is micro-USDC an hour. */
  datatype Lease = Lease(created: int, rate: u64, budget: u64)

  predicate Metered(l: Lease) {
    l.budget > 0 && l.rate > 0
  }

  /** Whole seconds of uptime; a clock behind the start counts as none. */
  function Uptime(l: Lease, now: int): nat {
    if now < l.created then 0 else (now - l.created) / NANOS
  }

  /** `as u64` */
  function Wrap64(n: nat): u64 {
    n % TWO_64
  }

  /** `as i64` */
  function WrapI64(n: int): i64 {
    (n + TWO_63) % TWO_64 - TWO_63
  }

  function AccruedAt(l: Lease, secs: nat): u64 {
    Wrap64(secs * l.rate / 3600)
  }

  function RemainingAt(l: Lease, secs: nat): Option<i64> {
    if l.budget == 0 || l.rate == 0 then None
    else
      var left := if AccruedAt(l, secs) >= l.budget then 0 else l.budget - AccruedAt(l, secs);
      Some(WrapI64(left * 3600 / l.rate))
  }

  predicate ExhaustedAt(l: Lease, secs: nat) {
    l.budget > 0 && l.rate > 0 && AccruedAt(l, secs) >= l.budget
  }

  function Remaining(l: Lease, now: int): Option<i64> {
    RemainingAt(l, Uptime(l, now))
  }

  predicate Exhausted(l: Lease, now: int) {
    ExhaustedAt(l, Uptime(l, now))
  }

  /** The number of seconds the budget pays for, rounded up. */
  function LastSecond(l: Lease): nat
    requires Metered(l)
  {
    (3600 * l.budget + l.rate - 1) / l.rate
  }

  lemma DivBounds(n: int, d: int)
    requires d > 0
    ensures d * (n / d) <= n < d * (n / d) + d
  {
  }

  lemma DivGe(n: int, d: int, q: int)
    requires d > 0
    ensures n / d >= q <==> n >= d * q
  {
    DivBounds(n, d);
    if n / d >= q {
      MulLe(d, q, n / d);
    } else {
      MulLe(d, n / d + 1, q);
    }
  }

  lemma MulLe(d: int, a: int, b: int)
    requires d >= 0 && a <= b
    ensures d * a <= d * b
  {
  }

  /** N seconds cover the budget and N - 1 do not. */
  lemma LastSecondTight(l: Lease, t: nat)
    requires Metered(l)
    ensures t >= LastSecond(l) <==> t * l.rate >= 3600 * l.budget
    ensures LastSecond(l) > 0
  {
    var n := 3600 * l.budget + l.rate - 1;
    DivBounds(n, l.rate);
    if t >= LastSecond(l) {
      MulLe(l.rate, LastSecond(l), t);
    } else {
      MulLe(l.rate, t + 1, LastSecond(l));
    }
    DivGe(n, l.rate, 1);
  }

  /** While the accrual fits 64 bits, the lease is spent from second N on and not before. */
  lemma SpentFromLastSecond(l: Lease, t: nat)
    requires Metered(l) && t * l.rate / 3600 < TWO_64
    ensures ExhaustedAt(l, t) <==> t >= LastSecond(l)
  {
    LastSecondTight(l, t);
    DivGe(t * l.rate, 3600, l.budget);
  }

  /** "Spent for good" up to a time T holds whenever the accrual at T still fits 64 bits, and, for a
      lease that buys at least a second, only then. The node meters with its price and the payment
      gate admits no budget below its price, so every lease it makes buys an hour. */
  lemma SpentForGood(l: Lease, last: nat)
    requires Metered(l) && last >= LastSecond(l)
    ensures last * l.rate / 3600 < TWO_64 ==> forall t :: LastSecond(l) <= t <= last ==> ExhaustedAt(l, t)
    ensures l.rate <= 3600 * l.budget ==>
      ((forall t :: LastSecond(l) <= t <= last ==> ExhaustedAt(l, t)) <==> last * l.rate / 3600 < TWO_64)
  {
    if last * l.rate / 3600 < TWO_64 {
      forall t | LastSecond(l) <= t <= last ensures ExhaustedAt(l, t) {
        MulLe(l.rate, t, last);
        DivGe(last * l.rate, 3600, t * l.rate / 3600);
        DivBounds(t * l.rate, 3600);
        SpentFromLastSecond(l, t);
      }
    } else if l.rate <= 3600 * l.budget {
      var t := Revived(l);
      DivGe(last * l.rate, 3600, TWO_64);
      if last < t {
        MulLe(l.rate, last, t - 1);
      }
      assert !ExhaustedAt(l, t);
      LastSecondTight(l, t);
    }
  }

  /** The first second at which the accrual no longer fits: the lease is alive again. */
  lemma Revived(l: Lease) returns (t: nat)
    requires Metered(l) && l.rate <= 3600 * l.budget
    ensures (t - 1) * l.rate < 3600 * TWO_64 <= t * l.rate
    ensures !ExhaustedAt(l, t)
  {
    var n := 3600 * TWO_64 + l.rate - 1;
    t := n / l.rate;
    DivBounds(n, l.rate);
    assert (t - 1) * l.rate == l.rate * t - l.rate;
    var x := t * l.rate;
    assert 3600 * TWO_64 <= x < 3600 * TWO_64 + l.rate;
    DivGe(x, 3600, TWO_64);
    DivGe(x, 3600, TWO_64 + l.budget);
  }

  function TrueRemaining(l: Lease, t: nat): int
    requires l.rate > 0
  {
    (l.budget - t * l.rate / 3600) * 3600 / l.rate
  }

  /** Before rounding back to an i64 the reported time is within a second below and
      3599/rate seconds above the true one. */
  lemma TrueRemainingBounds(l: Lease, t: nat)
    requires Metered(l) && t < LastSecond(l)
    ensures LastSecond(l) - t - 1 <= TrueRemaining(l, t) <= LastSecond(l) - t + 3599 / l.rate
  {
    var n, r, b := LastSecond(l), l.rate, l.budget;
    var q := t * r / 3600;
    DivBounds(t * r, 3600);
    LastSecondTight(l, n);
    LastSecondTight(l, n - 1);
    var x := (b - q) * 3600;
    // 3600 b - t r <= x <= 3600 b - t r + 3599
    assert (n - 1) * r == n * r - r;
    DivGe(x, r, n - t - 1);
    assert r * (n - t - 1) == n * r - t * r - r;
    var e := 3599 / r;
    DivBounds(3599, r);
    DivGe(x, r, n - t + e + 1);
    assert r * (n - t + e + 1) == n * r - t * r + r * e + r;
  }

  lemma TrueRemainingShrinks(l: Lease, t: nat)
    requires Metered(l)
    ensures TrueRemaining(l, t) <= 3600 * l.budget / l.rate
  {
    DivBounds(t * l.rate, 3600);
    DivGe(t * l.rate, 3600, 0);
    DivGe(3600 * l.budget, l.rate, TrueRemaining(l, t));
    DivBounds((l.budget - t * l.rate / 3600) * 3600, l.rate);
  }

  lemma AccrualBelowBudget(l: Lease, t: nat)
    requires Metered(l) && t < LastSecond(l)
    ensures t * l.rate / 3600 < l.budget && AccruedAt(l, t) == t * l.rate / 3600
  {
    LastSecondTight(l, t);
    DivGe(t * l.rate, 3600, l.budget);
  }

  /** `as i64` keeps what fits and lowers everything else by a multiple of 2^64. */
  lemma WrapI64Cases(n: nat)
    ensures n < TWO_63 ==> WrapI64(n) == n
    ensures n >= TWO_63 ==> WrapI64(n) <= n - TWO_64
  {
  }

  lemma RemainingBeforeEnd(l: Lease, t: nat)
    requires Metered(l) && t < LastSecond(l)
    ensures RemainingAt(l, t) == Some(WrapI64(TrueRemaining(l, t)))
  {
    AccrualBelowBudget(l, t);
  }

  lemma WholeLease(l: Lease)
    requires Metered(l)
    ensures LastSecond(l) > 0 && TrueRemaining(l, 0) == 3600 * l.budget / l.rate
    ensures LastSecond(l) - 1 <= 3600 * l.budget / l.rate <= LastSecond(l) + 3599 / l.rate
  {
    LastSecondTight(l, 0);
    TrueRemainingBounds(l, 0);
    assert 0 * l.rate / 3600 == 0;
    assert (l.budget - 0) * 3600 == 3600 * l.budget;
  }

  predicate Tight(l: Lease, t: nat, left: int)
    requires Metered(l)
  {
    LastSecond(l) - t - 1 <= left <= LastSecond(l) - t + 3599 / l.rate
  }

  /** The report is right throughout the lease if and only if the whole lease, in seconds, fits
      an i64. */
  lemma RemainingIsTight(l: Lease)
    requires Metered(l)
    ensures (forall t :: 0 <= t < LastSecond(l) ==> Tight(l, t, RemainingAt(l, t).value))
      <==> 3600 * l.budget / l.rate < TWO_63
  {
    WholeLease(l);
    RemainingBeforeEnd(l, 0);
    WrapI64Cases(3600 * l.budget / l.rate);
    if 3600 * l.budget / l.rate < TWO_63 {
      forall t | 0 <= t < LastSecond(l) ensures Tight(l, t, RemainingAt(l, t).value) {
        RemainingBeforeEnd(l, t);
        TrueRemainingBounds(l, t);
        TrueRemainingShrinks(l, t);
        WrapI64Cases(TrueRemaining(l, t));
      }
    } else {
      DivGe(3599, l.rate, 3600);
      assert !Tight(l, 0, RemainingAt(l, 0).value);
    }
  }

  /** From second N on nothing remains, while the accrual fits. */
  lemma NothingLeft(l: Lease, t: nat)
    requires Metered(l) && t >= LastSecond(l) && t * l.rate / 3600 < TWO_64
    ensures RemainingAt(l, t) == Some(0)
  {
    SpentFromLastSecond(l, t);
    DivGe(0, l.rate, 0);
    DivGe(0, l.rate, 1);
  }

  /** An unmetered lease is never spent and reports no remaining time. */
  lemma UnmeteredNeverSpent(l: Lease, now: int)
    requires !Metered(l)
    ensures !Exhausted(l, now) && Remaining(l, now) == None
  {
  }

  /** Spending never reverses as the clock advances, while the accrual fits. */
  lemma SpentStaysSpent(l: Lease, now: int, later: int)
    requires Exhausted(l, now) && now <= later && Uptime(l, later) * l.rate / 3600 < TWO_64
    ensures Exhausted(l, later)
  {
    var s, t := Uptime(l, now), Uptime(l, later);
    assert s <= t;
    MulLe(l.rate, s, t);
    DivBounds(s * l.rate, 3600);
    DivGe(t * l.rate, 3600, s * l.rate / 3600);
    SpentFromLastSecond(l, s);
    SpentFromLastSecond(l, t);
  }

  /** Uptime is the whole seconds since the start. */
  lemma UptimeTicks(l: Lease, now: int, secs: nat)
    ensures Uptime(l, now) >= secs <==> secs == 0 || now >= l.created + secs * NANOS
  {
    if now >= l.created {
      DivGe(now - l.created, NANOS, secs);
    }
  }

  /** While the accrual fits, a metered lease is spent from the instant at which the seconds it buys
      have passed, and not before. */
  lemma ExpiresExactly(l: Lease, now: int)
    requires Metered(l) && Uptime(l, now) * l.rate / 3600 < TWO_64
    ensures Exhausted(l, now) <==> now >= l.created + LastSecond(l) * NANOS
  {
    SpentFromLastSecond(l, Uptime(l, now));
    LastSecondTight(l, 0);
    UptimeTicks(l, now, LastSecond(l));
  }

  /** Concrete failures of the two casts, on leases whose budget is at least one hour's price. */
  lemma CastFailures()
    ensures var l := Lease(0, 0x8000_0000_0000_0000, 0x8000_0000_0000_0000);
      l.budget >= l.rate && ExhaustedAt(l, 3600) && !ExhaustedAt(l, 7200)
    ensures var l := Lease(0, 1, 0x4000_0000_0000_0000);
      l.budget >= l.rate && RemainingAt(l, 0) == Some(0) && !ExhaustedAt(l, 0)
  {
  }

  /** What the payment gate implies: a budget of at least the price buys at least a second. */
  lemma GateBuysASecond(l: Lease)
    requires Metered(l) && l.budget >= l.rate
    ensures l.rate <= 3600 * l.budget && LastSecond(l) >= 3600
  {
    LastSecondTight(l, 3599);
    assert 3599 * l.rate < 3600 * l.budget;
  }
}
