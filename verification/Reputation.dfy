/** The reputation ramp, over real numbers: how fast trust can rise, how it falls, and what job
    value a history of canary verdicts unlocks. */
module Reputation {

  const CLIMB := 0.05
  const CRATER := 0.25

  datatype Reputation = Reputation(score: real, canaryPass: nat, canaryFail: nat, jobsOk: nat)

  const FRESH := Reputation(0.0, 0, 0, 0)

  datatype Tier = New | Building | Trusted | Veteran

  function RecordVerdict(r: Reputation, passed: bool): Reputation {
    if passed then r.(canaryPass := r.canaryPass + 1, score := r.score + (1.0 - r.score) * CLIMB)
    else r.(canaryFail := r.canaryFail + 1, score := r.score * CRATER)
  }

  function After(r: Reputation, verdicts: seq<bool>): Reputation {
    if verdicts == [] then r
    else RecordVerdict(After(r, verdicts[..|verdicts| - 1]), verdicts[|verdicts| - 1])
  }

  function TierOf(r: Reputation): Tier {
    if r.score >= 0.95 && r.canaryPass >= 100 then Veteran
    else if r.score >= 0.80 && r.canaryPass >= 25 then Trusted
    else if r.score >= 0.50 && r.canaryPass >= 5 then Building
    else New
  }

  function MaxJob(t: Tier): nat {
    match t
    case New => 10_000
    case Building => 100_000
    case Trusted => 1_000_000
    case Veteran => 10_000_000
  }

  function MaxJobForScore(score: real): nat {
    if score >= 0.95 then 10_000_000
    else if score >= 0.80 then 1_000_000
    else if score >= 0.50 then 100_000
    else 10_000
  }

  predicate MayTake(t: Tier, job: nat) {
    job <= MaxJob(t)
  }

  predicate MayTakeValue(score: real, job: nat) {
    job == 0 || job <= MaxJobForScore(score)
  }

  function Passes(verdicts: seq<bool>): nat {
    if verdicts == [] then 0
    else Passes(verdicts[..|verdicts| - 1]) + if verdicts[|verdicts| - 1] then 1 else 0
  }

  function Fails(verdicts: seq<bool>): nat {
    if verdicts == [] then 0
    else Fails(verdicts[..|verdicts| - 1]) + if verdicts[|verdicts| - 1] then 0 else 1
  }

  function Pow(x: real, n: nat): real {
    if n == 0 then 1.0 else x * Pow(x, n - 1)
  }

  lemma {:induction false} PowAdd(x: real, m: nat, n: nat)
    ensures Pow(x, m + n) == Pow(x, m) * Pow(x, n)
  {
    if m > 0 {
      PowAdd(x, m - 1, n);
    }
  }

  lemma ScaleUnit(x: real, y: real)
    requires 0.0 < x <= 1.0 && 0.0 < y <= 1.0
    ensures 0.0 < x * y <= y
  {
  }

  lemma {:induction false} PowUnit(x: real, n: nat)
    requires 0.0 < x <= 1.0
    ensures 0.0 < Pow(x, n) <= 1.0
  {
    if n > 0 {
      PowUnit(x, n - 1);
      ScaleUnit(x, Pow(x, n - 1));
    }
  }

  lemma {:induction false} PowDecreases(x: real, m: nat, n: nat)
    requires 0.0 < x <= 1.0 && m <= n
    ensures Pow(x, n) <= Pow(x, m)
    decreases n
  {
    if m < n {
      PowDecreases(x, m, n - 1);
      PowUnit(x, n - 1);
      ScaleUnit(x, Pow(x, n - 1));
    }
  }

  /** From any score, only passes raise it, and only this far. */
  lemma {:induction false} Ceiling(r: Reputation, verdicts: seq<bool>)
    requires 0.0 <= r.score < 1.0
    ensures 0.0 <= After(r, verdicts).score <= 1.0 - (1.0 - r.score) * Pow(0.95, Passes(verdicts))
    ensures After(r, verdicts).score < 1.0
  {
    PowUnit(0.95, Passes(verdicts));
    if verdicts == [] {
      assert Pow(0.95, 0) == 1.0;
    } else {
      var before := verdicts[..|verdicts| - 1];
      Ceiling(r, before);
      CeilingStep(1.0 - r.score, Pow(0.95, Passes(before)), After(r, before).score);
    }
  }

  lemma CeilingStep(u: real, q: real, s: real)
    requires 0.0 <= s <= 1.0 - u * q
    ensures s + (1.0 - s) * CLIMB <= 1.0 - u * (0.95 * q)
  {
    assert u * (0.95 * q) == 0.95 * (u * q);
  }

  lemma FloorStep(c: real, q: real, s: real)
    requires 0.0 < c <= 1.0 && 0.0 < q <= 1.0 && s >= c * (1.0 - q)
    ensures s + (1.0 - s) * CLIMB >= c * (1.0 - 0.95 * q)
    ensures s * CRATER >= (0.25 * c) * (1.0 - q)
  {
    assert c * (1.0 - 0.95 * q) == 0.95 * (c * (1.0 - q)) + 0.05 * c;
    assert (0.25 * c) * (1.0 - q) == 0.25 * (c * (1.0 - q));
  }

  ghost predicate Floored(r: Reputation, p: nat, f: nat) {
    Pow(0.25, f) * (1.0 - Pow(0.95, p)) <= r.score
  }

  lemma FlooredStep(r: Reputation, p: nat, f: nat)
    requires Floored(r, p, f)
    ensures Floored(RecordVerdict(r, true), p + 1, f) && Floored(RecordVerdict(r, false), p, f + 1)
  {
    PowUnit(0.95, p);
    PowUnit(0.25, f);
    FloorStep(Pow(0.25, f), Pow(0.95, p), r.score);
  }

  /** In whatever order p passes and f failures come, the score of a new identity stays in
      [0, 1) and between 0.25^f (1 - 0.95^p) and 1 - 0.95^p. */
  lemma {:induction false} ScoreBounds(verdicts: seq<bool>)
    ensures var r, p, f := After(FRESH, verdicts), Passes(verdicts), Fails(verdicts);
      && r.canaryPass == p && r.canaryFail == f
      && 0.0 <= r.score < 1.0
      && Floored(r, p, f) && r.score <= 1.0 - Pow(0.95, p)
  {
    Ceiling(FRESH, verdicts);
    if verdicts == [] {
      assert Pow(0.95, 0) == 1.0;
    } else {
      var before := verdicts[..|verdicts| - 1];
      ScoreBounds(before);
      FlooredStep(After(FRESH, before), Passes(before), Fails(before));
    }
  }

  // ------------------------------------------------------------------ falling and climbing back

  lemma Mono(a: real, b: real, c: real)
    requires a <= b && c >= 0.0
    ensures a * c <= b * c
  {
  }

  lemma Product(x: real, y: real, a: real, b: real, c: real, d: real)
    requires 0.0 < a <= x <= b && 0.0 < c <= y <= d
    ensures a * c <= x * y <= b * d
  {
    Mono(a, x, y);
    Mono(c, y, a);
    Mono(x, b, y);
    Mono(y, d, b);
  }

  ghost predicate Between(n: nat, lo: real, hi: real) {
    lo <= Pow(0.95, n) <= hi
  }

  lemma BetweenAdd(m: nat, a: real, b: real, n: nat, c: real, d: real)
    requires Between(m, a, b) && Between(n, c, d) && a > 0.0 && c > 0.0
    ensures Between(m + n, a * c, b * d)
  {
    var x, y, z := Pow(0.95, m), Pow(0.95, n), Pow(0.95, m + n);
    assert z == x * y by {
      PowAdd(0.95, m, n);
    }
    Product(x, y, a, b, c, d);
    Bounded(z, x * y, a * c, b * d);
  }

  lemma Bounded(z: real, p: real, lo: real, hi: real)
    requires z == p && lo <= p <= hi
    ensures lo <= z <= hi
  {
  }

  lemma SmallPowers(n: nat)
    ensures n == 1 ==> Between(n, 0.95, 0.95)
    ensures n == 4 ==> Between(n, 0.8145, 0.81451)
    ensures n == 8 ==> Between(n, 0.66341, 0.66344)
    ensures n == 7 ==> Between(n, 0.6983, 0.7)
  {
    var one: nat :| one == 1;
    assert Pow(0.95, one) == 0.95 * Pow(0.95, one - 1);
    BetweenAdd(one, 0.95, 0.95, one, 0.95, 0.95);
    var two := one + one;
    BetweenAdd(two, 0.9025, 0.9025, two, 0.9025, 0.9025);
    var four := two + two;
    BetweenAdd(four, 0.8145, 0.81451, four, 0.8145, 0.81451);
    BetweenAdd(two, 0.9025, 0.9025, one, 0.95, 0.95);
    BetweenAdd(four, 0.8145, 0.81451, two + one, 0.857375, 0.857375);
  }

  lemma MiddlePowers(n: nat)
    ensures n == 24 ==> Between(n, 0.2919, 0.29204)
    ensures n == 25 ==> Between(n, 0.2773, 0.278)
    ensures n == 26 ==> Between(n, 0.2634, 0.26359)
  {
    var one: nat :| one == 1;
    var eight: nat :| eight == 8;
    SmallPowers(one);
    SmallPowers(eight);
    BetweenAdd(eight, 0.66341, 0.66344, eight, 0.66341, 0.66344);
    BetweenAdd(eight + eight, 0.4401, 0.44016, eight, 0.66341, 0.66344);
    BetweenAdd(eight + eight + eight, 0.29196, 0.29203, one, 0.95, 0.95);
    BetweenAdd(eight + eight + eight + one, 0.27736, 0.27744, one, 0.95, 0.95);
  }

  lemma FiftyTwo(n: nat)
    requires n == 52
    ensures Between(n, 0.0693, 0.0695)
  {
    var k: nat :| k == 26;
    MiddlePowers(k);
    BetweenAdd(k, 0.2634, 0.26359, k, 0.2634, 0.26359);
  }

  lemma FiftyThree(n: nat)
    requires n == 53
    ensures Between(n, 0.065, 0.06612)
  {
    var one: nat :| one == 1;
    SmallPowers(one);
    FiftyTwo(n - 1);
    BetweenAdd(n - 1, 0.0693, 0.0695, one, 0.95, 0.95);
  }

  lemma Hundred(n: nat)
    requires n == 100
    ensures Between(n, 0.001, 0.006)
  {
    var j: nat :| j == 24;
    MiddlePowers(j);
    BetweenAdd(j, 0.2919, 0.29204, j, 0.2919, 0.29204);
    FiftyTwo(n - (j + j));
    BetweenAdd(j + j, 0.085, 0.0853, n - (j + j), 0.0693, 0.0695);
  }

  lemma LargePowers(n: nat)
    ensures n == 52 ==> Between(n, 0.069, 0.0696)
    ensures n == 53 ==> Between(n, 0.065, 0.06612)
    ensures n == 100 ==> Between(n, 0.001, 0.006)
  {
    if n == 52 {
      FiftyTwo(n);
    } else if n == 53 {
      FiftyThree(n);
    } else if n == 100 {
      Hundred(n);
    }
  }

  /** Enough about the powers of 0.95 to place every threshold. */
  lemma Powers(n: nat)
    ensures n <= 4 ==> Pow(0.95, n) > 0.5
    ensures n <= 24 ==> Pow(0.95, n) > 0.2
    ensures if n <= 7 then Pow(0.95, n) > 2.0 / 3.0 else Pow(0.95, n) < 0.664
    ensures if n <= 25 then Pow(0.95, n) > 4.0 / 15.0 else Pow(0.95, n) < 0.264
    ensures if n <= 52 then Pow(0.95, n) > 1.0 / 15.0 else Pow(0.95, n) < 0.0662
    ensures n >= 100 ==> Pow(0.95, n) < 0.0061
  {
    Placed(n, 4);
    Placed(n, 24);
    Placed(n, 7);
    Placed(n, 8);
    Placed(n, 25);
    Placed(n, 26);
    Placed(n, 52);
    Placed(n, 53);
    Placed(n, 100);
  }

  /** Where `n` is at or below, or at or above, a tabulated exponent. */
  lemma Placed(n: nat, k: nat)
    ensures n <= k ==>
      Pow(0.95, n) >= if k == 4 then 0.8145 else if k == 24 then 0.2919 else if k == 7 then 0.6983
        else if k == 25 then 0.2773 else if k == 52 then 0.069 else 0.0
    ensures n >= k ==>
      Pow(0.95, n) <= if k == 8 then 0.66344 else if k == 26 then 0.26359 else if k == 53 then 0.06612
        else if k == 100 then 0.006 else 1.0
  {
    SmallPowers(k);
    MiddlePowers(k);
    LargePowers(k);
    PowUnit(0.95, n);
    if n <= k {
      PowDecreases(0.95, n, k);
    } else {
      PowDecreases(0.95, k, n);
    }
  }

  lemma {:induction false} AfterAppend(r: Reputation, a: seq<bool>, b: seq<bool>)
    ensures After(r, a + b) == After(After(r, a), b)
    decreases |b|
  {
    if b == [] {
      assert a + b == a;
    } else {
      var c := b[..|b| - 1];
      AfterAppend(r, a, c);
      assert (a + b)[..|a + b| - 1] == a + c;
    }
  }

  lemma OneFailure(before: seq<bool>)
    ensures 0.0 <= After(FRESH, before + [false]).score < 0.25
  {
    ScoreBounds(before);
    assert (before + [false])[..|before|] == before;
  }

  lemma AboveThreeQuarters(u: real, q: real)
    requires u > 0.75 && q > 0.0
    ensures u * q > 0.75 * q
  {
  }

  lemma StillLow(u: real, q: real)
    requires u > 0.75 && q > 0.0
    ensures q > 2.0 / 3.0 ==> u * q > 0.5
    ensures q > 4.0 / 15.0 ==> u * q > 0.2
    ensures q > 1.0 / 15.0 ==> u * q > 0.05
  {
    AboveThreeQuarters(u, q);
  }

  /** What `n` passes leave of a gap of more than three quarters. */
  lemma GapLeft(u: real, n: nat) returns (gap: real)
    requires 0.75 < u <= 1.0
    ensures gap == u * Pow(0.95, n)
    ensures n < 8 ==> gap > 0.5
    ensures n < 26 ==> gap > 0.2
    ensures n < 53 ==> gap > 0.05
  {
    var q := Pow(0.95, n);
    gap := u * q;
    PowUnit(0.95, n);
    Powers(n);
    StillLow(u, q);
  }

  /** The tiers a score short of one by at least `gap` rules out. */
  lemma BelowThresholds(r: Reputation, gap: real)
    requires r.score <= 1.0 - gap
    ensures gap > 0.5 ==> TierOf(r) == New
    ensures gap > 0.2 ==> TierOf(r) == New || TierOf(r) == Building
    ensures gap > 0.05 ==> TierOf(r) != Veteran
  {
  }

  lemma GapSince(low: Reputation, further: seq<bool>) returns (gap: real)
    requires 0.0 <= low.score < 0.25
    ensures After(low, further).score <= 1.0 - gap
    ensures Passes(further) < 8 ==> gap > 0.5
    ensures Passes(further) < 26 ==> gap > 0.2
    ensures Passes(further) < 53 ==> gap > 0.05
  {
    Ceiling(low, further);
    gap := GapLeft(1.0 - low.score, Passes(further));
  }

  /** What a tier says about the passes since the score was `low`. */
  lemma PassesSince(low: Reputation, further: seq<bool>)
    requires 0.0 <= low.score < 0.25
    ensures var t, n := TierOf(After(low, further)), Passes(further);
      && (t != New ==> n >= 8)
      && (t == Trusted || t == Veteran ==> n >= 26)
      && (t == Veteran ==> n >= 53)
  {
    var gap := GapSince(low, further);
    BelowThresholds(After(low, further), gap);
  }

  /** One failure puts any provider in the lowest tier, whatever it had earned, and the higher
      tiers then need at least 8, 26 and 53 further passes. */
  lemma FailureCostsPasses(before: seq<bool>, further: seq<bool>)
    ensures TierOf(After(FRESH, before + [false])) == New
    ensures var t, n := TierOf(After(FRESH, before + [false] + further)), Passes(further);
      && (t != New ==> n >= 8)
      && (t == Trusted || t == Veteran ==> n >= 26)
      && (t == Veteran ==> n >= 53)
  {
    OneFailure(before);
    AfterAppend(FRESH, before + [false], further);
    PassesSince(After(FRESH, before + [false]), further);
  }

  /** The verdicts "pass" n times over. */
  function Clean(n: nat): seq<bool> {
    seq(n, i => true)
  }

  lemma {:induction false} CleanClimb(r: Reputation, n: nat)
    ensures After(r, Clean(n)).score == 1.0 - (1.0 - r.score) * Pow(0.95, n)
    ensures After(r, Clean(n)).canaryPass == r.canaryPass + n
  {
    if n == 0 {
      assert Pow(0.95, 0) == 1.0;
    } else {
      CleanClimb(r, n - 1);
      assert Clean(n)[..n - 1] == Clean(n - 1);
      ClimbStep(1.0 - r.score, Pow(0.95, n - 1));
    }
  }

  lemma ClimbStep(u: real, q: real)
    ensures (1.0 - u * q) + (1.0 - (1.0 - u * q)) * CLIMB == 1.0 - u * (0.95 * q)
  {
    assert u * (0.95 * q) == 0.95 * (u * q);
  }

  lemma HighAgain(u: real, q: real)
    requires 0.0 < u <= 0.751525 && 0.0 < q <= 1.0
    ensures q < 0.664 ==> u * q <= 0.5
    ensures q < 0.264 ==> u * q <= 0.2
    ensures q < 0.0662 ==> u * q <= 0.05
  {
    Mono(u, 0.751525, q);
  }

  lemma GapClosed(u: real, n: nat) returns (gap: real)
    requires 0.0 < u <= 0.751525
    ensures gap == u * Pow(0.95, n)
    ensures n >= 8 ==> gap <= 0.5
    ensures n >= 26 ==> gap <= 0.2
    ensures n >= 53 ==> gap <= 0.05
  {
    var q := Pow(0.95, n);
    gap := u * q;
    PowUnit(0.95, n);
    Powers(n);
    HighAgain(u, q);
  }

  lemma EarnedThenFailed(earned: nat)
    requires earned >= 100
    ensures var r := RecordVerdict(After(FRESH, Clean(earned)), false);
      0.75 < 1.0 - r.score <= 0.751525 && r.canaryPass == earned
  {
    CleanClimb(FRESH, earned);
    PowUnit(0.95, earned);
    Powers(earned);
  }

  lemma TierByGap(r: Reputation, gap: real, n: nat)
    requires r.score == 1.0 - gap && r.canaryPass >= 100
    requires n < 8 <==> gap > 0.5
    requires n < 26 <==> gap > 0.2
    requires n < 53 <==> gap > 0.05
    ensures TierOf(r) == if n < 8 then New else if n < 26 then Building else if n < 53 then Trusted else Veteran
  {
  }

  /** Those numbers cannot be raised: a provider with a hundred clean verdicts or more that fails
      once climbs back through the tiers at exactly 8, 26 and 53 passes. */
  lemma ClimbBackExactly(earned: nat, n: nat)
    requires earned >= 100
    ensures TierOf(After(RecordVerdict(After(FRESH, Clean(earned)), false), Clean(n))) ==
      if n < 8 then New else if n < 26 then Building else if n < 53 then Trusted else Veteran
  {
    EarnedThenFailed(earned);
    var r := RecordVerdict(After(FRESH, Clean(earned)), false);
    CleanClimb(r, n);
    var gap := GapLeft(1.0 - r.score, n);
    var closed := GapClosed(1.0 - r.score, n);
    assert gap == closed;
    TierByGap(After(r, Clean(n)), gap, n);
  }

  // ------------------------------------------------------------------ caps

  /** The tier's cap never exceeds the cap of the score, and falls short of it exactly where the
      history is too shallow for the score's band. */
  lemma TierCapWithinScoreCap(r: Reputation, job: nat)
    ensures MaxJob(TierOf(r)) <= MaxJobForScore(r.score)
    ensures MaxJob(TierOf(r)) == MaxJobForScore(r.score) <==>
      r.canaryPass >= if r.score >= 0.95 then 100 else if r.score >= 0.80 then 25 else if r.score >= 0.50 then 5 else 0
    ensures MayTake(TierOf(r), job) ==> MayTakeValue(r.score, job)
  {
  }

  /** For a history that starts fresh only the depth a veteran needs is ever the obstacle: the
      other two bands cannot be reached with fewer passes than they ask for. */
  lemma DepthBindsOnlyVeterans(verdicts: seq<bool>)
    ensures var r := After(FRESH, verdicts);
      MaxJob(TierOf(r)) < MaxJobForScore(r.score) <==> r.score >= 0.95 && r.canaryPass < 100
  {
    var r := After(FRESH, verdicts);
    ScoreBounds(verdicts);
    Powers(Passes(verdicts));
    TierCapWithinScoreCap(r, 0);
  }

  // ------------------------------------------------------------------ the registry

  datatype ProbeItem = ProbeItem(prompt: string, passed: bool)

  function Verdicts(items: seq<ProbeItem>): seq<bool> {
    seq(|items|, i requires 0 <= i < |items| => items[i].passed)
  }

  class Registry {
    var providers: map<string, Reputation>

    constructor ()
      ensures providers == map[]
    {
      providers := map[];
    }

    function Get(node: string): Reputation
      reads this
    {
      if node in providers then providers[node] else FRESH
    }

    method RecordCanary(node: string, passed: bool) returns (r: Reputation)
      modifies this
      ensures r == RecordVerdict(old(Get(node)), passed)
      ensures providers == old(providers)[node := r]
    {
      r := RecordVerdict(Get(node), passed);
      providers := providers[node := r];
    }

    /** A whole probe counts like its verdicts one after the other. */
    method RecordProbe(node: string, items: seq<ProbeItem>) returns (r: Reputation)
      modifies this
      ensures r == After(old(Get(node)), Verdicts(items))
      ensures providers == old(providers)[node := r]
    {
      r := Get(node);
      var i := 0;
      while i < |items|
        invariant 0 <= i <= |items|
        invariant r == After(old(Get(node)), Verdicts(items)[..i])
      {
        assert Verdicts(items)[..i + 1][..i] == Verdicts(items)[..i];
        r := RecordVerdict(r, items[i].passed);
        i := i + 1;
      }
      assert Verdicts(items)[..|items|] == Verdicts(items);
      providers := providers[node := r];
    }
  }
}
