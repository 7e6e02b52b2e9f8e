/** The per-owner sliding-window limit on endpoint runs. */
module RateLimiter {
  import Seqs
  import opened Timeline

  /** Times in nanoseconds on a monotonic clock. */
  const WINDOW := 60_000_000_000
  const MAX_PER_WINDOW := 30

  /** The hits still inside the window at `now`. */
  function Recent(hits: seq<int>, now: int): seq<int> {
    if hits == [] then []
    else (if now - hits[0] < WINDOW then [hits[0]] else []) + Recent(hits[1..], now)
  }

  predicate Admits(hits: seq<int>, now: int) {
    |Recent(hits, now)| < MAX_PER_WINDOW
  }

  function AfterCall(hits: seq<int>, now: int): seq<int> {
    Recent(hits, now) + if Admits(hits, now) then [now] else []
  }

  /** The stored hits after one owner's calls. */
  function Hits(times: seq<int>): seq<int> {
    if times == [] then [] else AfterCall(Hits(times[..|times| - 1]), times[|times| - 1])
  }

  /** The times at which one owner was admitted: the full record, nothing forgotten. */
  function Admissions(times: seq<int>): seq<int> {
    if times == [] then []
    else
      var before, now := times[..|times| - 1], times[|times| - 1];
      Admissions(before) + if Admits(Hits(before), now) then [now] else []
  }

  function CountIn(s: seq<int>, from: int, to: int): nat {
    if s == [] then 0 else (if from <= s[0] < to then 1 else 0) + CountIn(s[1..], from, to)
  }

  lemma {:induction false} RecentAppend(a: seq<int>, b: seq<int>, now: int)
    ensures Recent(a + b, now) == Recent(a, now) + Recent(b, now)
  {
    if a == [] {
      assert a + b == b;
    } else {
      Seqs.TailAppend(a, b);
      RecentAppend(a[1..], b, now);
      Seqs.Assoc(if now - a[0] < WINDOW then [a[0]] else [], Recent(a[1..], now), Recent(b, now));
    }
  }

  /** Forgetting at an earlier time does not change what is recent later. */
  lemma {:induction false} RecentTwice(s: seq<int>, early: int, late: int)
    requires early <= late
    ensures Recent(Recent(s, early), late) == Recent(s, late)
  {
    if s != [] {
      RecentTwice(s[1..], early, late);
      RecentAppend(if early - s[0] < WINDOW then [s[0]] else [], Recent(s[1..], early), late);
    }
  }

  lemma {:induction false} CountAppend(a: seq<int>, b: seq<int>, from: int, to: int)
    ensures CountIn(a + b, from, to) == CountIn(a, from, to) + CountIn(b, from, to)
  {
    if a == [] {
      assert a + b == b;
    } else {
      Seqs.TailAppend(a, b);
      CountAppend(a[1..], b, from, to);
    }
  }

  lemma {:induction false} CountRecent(s: seq<int>, from: int, to: int, now: int)
    requires from > now - WINDOW
    ensures CountIn(s, from, to) <= |Recent(s, now)|
  {
    if s != [] {
      CountRecent(s[1..], from, to, now);
    }
  }

  /** What is stored is exactly the part of the full record recent at the last call. */
  lemma {:induction false} StoredIsRecent(times: seq<int>)
    requires Nondecreasing(times) && times != []
    ensures Hits(times) == Recent(Admissions(times), times[|times| - 1])
  {
    var before, now := times[..|times| - 1], times[|times| - 1];
    if before != [] {
      StoredIsRecent(before);
      RecentTwice(Admissions(before), before[|before| - 1], now);
    }
    RecentAppend(Admissions(before), if Admits(Hits(before), now) then [now] else [], now);
  }

  /** A call is refused if and only if thirty admissions fall in the sixty seconds before it. */
  lemma RefusedExactly(before: seq<int>, now: int)
    requires Nondecreasing(before + [now])
    ensures !Admits(Hits(before), now) <==> |Recent(Admissions(before), now)| >= MAX_PER_WINDOW
  {
    if before != [] {
      assert forall i :: 0 <= i < |before| ==> (before + [now])[i] == before[i];
      StoredIsRecent(before);
      assert (before + [now])[|before|] == now;
      RecentTwice(Admissions(before), before[|before| - 1], now);
    }
  }

  lemma {:induction false} RecentCounts(s: seq<int>, now: int)
    requires forall i :: 0 <= i < |s| ==> s[i] <= now
    ensures |Recent(s, now)| == CountIn(s, now - WINDOW + 1, now + 1)
  {
    if s != [] {
      RecentCounts(s[1..], now);
    }
  }

  lemma {:induction false} AdmissionsUpTo(times: seq<int>, now: int)
    requires forall i :: 0 <= i < |times| ==> times[i] <= now
    ensures forall i :: 0 <= i < |Admissions(times)| ==> Admissions(times)[i] <= now
  {
    if times != [] {
      AdmissionsUpTo(times[..|times| - 1], now);
    }
  }

  /** A call is refused if and only if thirty admissions are less than sixty seconds old, to the
      nanosecond. */
  lemma RefusedByCount(before: seq<int>, now: int)
    requires Nondecreasing(before + [now])
    ensures !Admits(Hits(before), now) <==> CountIn(Admissions(before), now - 60_000_000_000 + 1, now + 1) >= 30
  {
    RefusedExactly(before, now);
    forall i | 0 <= i < |before| ensures before[i] <= now {
      assert (before + [now])[i] == before[i] && (before + [now])[|before|] == now;
    }
    AdmissionsUpTo(before, now);
    RecentCounts(Admissions(before), now);
  }

  /** No half-open window of sixty seconds, anywhere, holds more than thirty admissions. */
  lemma {:induction false} AtMostThirty(times: seq<int>, from: int)
    requires Nondecreasing(times)
    ensures CountIn(Admissions(times), from, from + WINDOW) <= MAX_PER_WINDOW
  {
    if times != [] {
      var before, now := times[..|times| - 1], times[|times| - 1];
      AtMostThirty(before, from);
      if Admits(Hits(before), now) {
        CountAppend(Admissions(before), [now], from, from + WINDOW);
        assert before + [now] == times;
        RefusedExactly(before, now);
        if now < from + WINDOW {
          CountRecent(Admissions(before), from, from + WINDOW, now);
        }
        assert [now][1..] == [];
      } else {
        assert Admissions(times) == Admissions(before) + [] == Admissions(before);
      }
    }
  }

  // ------------------------------------------------------------------ many owners

  function HitsOf(hits: map<string, seq<int>>, owner: string): seq<int> {
    if owner in hits then hits[owner] else []
  }

  function After(hits: map<string, seq<int>>, c: Event): map<string, seq<int>> {
    hits[c.key := AfterCall(HitsOf(hits, c.key), c.at)]
  }

  function AfterAll(calls: seq<Event>): map<string, seq<int>> {
    if calls == [] then map[] else After(AfterAll(calls[..|calls| - 1]), calls[|calls| - 1])
  }

  /** An owner's state, and so every verdict, depends on that owner's calls alone. */
  lemma {:induction false} OwnersIndependent(calls: seq<Event>, owner: string)
    ensures HitsOf(AfterAll(calls), owner) == Hits(Times(calls, owner))
  {
    if calls != [] {
      var before, last := calls[..|calls| - 1], calls[|calls| - 1];
      OwnersIndependent(before, owner);
      var t := Times(before, owner);
      if last.key == owner {
        assert (t + [last.at])[..|t|] == t;
        assert Hits(t + [last.at]) == AfterCall(Hits(t), last.at);
      } else {
        assert t + [] == t;
      }
    }
  }

  /** The admissions of one owner in a run where all owners call. */
  function Admitted(calls: seq<Event>, owner: string): seq<int> {
    if calls == [] then []
    else
      var before, c := calls[..|calls| - 1], calls[|calls| - 1];
      Admitted(before, owner)
      + if c.key == owner && Admits(HitsOf(AfterAll(before), owner), c.at) then [c.at] else []
  }

  lemma {:induction false} AdmittedAlone(calls: seq<Event>, owner: string)
    ensures Admitted(calls, owner) == Admissions(Times(calls, owner))
  {
    if calls != [] {
      var before, c := calls[..|calls| - 1], calls[|calls| - 1];
      AdmittedAlone(before, owner);
      OwnersIndependent(before, owner);
      var t := Times(before, owner);
      if c.key == owner {
        assert (t + [c.at])[..|t|] == t;
        assert Admissions(t + [c.at]) == Admissions(t) + if Admits(Hits(t), c.at) then [c.at] else [];
      } else {
        assert t + [] == t && Admitted(before, owner) + [] == Admitted(before, owner);
      }
    }
  }

  /** Over every interleaving of owners, none gets more than thirty admissions in any window. */
  lemma LimitHolds(calls: seq<Event>, owner: string, from: int)
    requires InOrder(calls)
    ensures CountIn(Admitted(calls, owner), from, from + WINDOW) <= MAX_PER_WINDOW
  {
    AdmittedAlone(calls, owner);
    TimesOrdered(calls, owner);
    AtMostThirty(Times(calls, owner), from);
  }

  class Limiter {
    var hits: map<string, seq<int>>

    constructor ()
      ensures hits == map[]
    {
      hits := map[];
    }

    method EndpointRateOk(owner: string, now: int) returns (ok: bool)
      modifies this
      ensures hits == After(old(hits), Event(owner, now))
      ensures ok <==> Admits(HitsOf(old(hits), owner), now)
    {
      var kept := Retain(HitsOf(hits, owner), now);
      ok := |kept| < MAX_PER_WINDOW;
      assert kept + [] == kept;
      if ok {
        kept := kept + [now];
      }
      assert kept == AfterCall(HitsOf(hits, owner), now);
      hits := hits[owner := kept];
      ghost var c := Event(owner, now);
      assert c.key == owner && c.at == now;
    }
  }

  lemma RecentStep(kept: seq<int>, mine: seq<int>, i: nat, now: int)
    requires i < |mine|
    ensures kept + Recent(mine[i..], now) ==
      (if now - mine[i] < WINDOW then kept + [mine[i]] else kept) + Recent(mine[i + 1..], now)
  {
    var later := Recent(mine[i + 1..], now);
    assert mine[i..][0] == mine[i] && mine[i..][1..] == mine[i + 1..];
    if now - mine[i] < WINDOW {
      Seqs.Assoc(kept, [mine[i]], later);
    } else {
      assert [] + later == later;
    }
  }

  method Retain(mine: seq<int>, now: int) returns (kept: seq<int>)
    ensures kept == Recent(mine, now)
  {
    kept := [];
    var i := 0;
    while i < |mine|
      invariant 0 <= i <= |mine|
      invariant kept + Recent(mine[i..], now) == Recent(mine, now)
    {
      RecentStep(kept, mine, i, now);
      if now - mine[i] < WINDOW {
        kept := kept + [mine[i]];
      }
      i := i + 1;
    }
    assert mine[i..] == [] && kept + [] == kept;
  }
}
