/** The directory's demand table: capped windows of interest pings that count like the full
    history, and a tally of announced supply. */
module DemandOracle {
  import opened Wrappers
  import Seqs
  import opened Timeline

  const WINDOW := 3600
  const CAP := 100_000
  const MAX_ANNOUNCEMENTS := 10_000

  function DropStale(q: seq<int>, cutoff: int): seq<int> {
    if q != [] && q[0] < cutoff then DropStale(q[1..], cutoff) else q
  }

  function DropExcess(q: seq<int>): seq<int> {
    if |q| > CAP then q[|q| - CAP..] else q
  }

  /** The queue of one key after a ping. */
  function Record(q: seq<int>, now: int): seq<int> {
    DropExcess(DropStale(q + [now], now - WINDOW))
  }

  /** The queue after a whole history of pings. */
  function Queue(history: seq<int>): seq<int> {
    if history == [] then [] else Record(Queue(history[..|history| - 1]), history[|history| - 1])
  }

  function CountSince(q: seq<int>, cutoff: int): nat {
    if q == [] then 0 else (if q[0] >= cutoff then 1 else 0) + CountSince(q[1..], cutoff)
  }

  lemma {:induction false} CountSplit(a: seq<int>, b: seq<int>, cutoff: int)
    ensures CountSince(a + b, cutoff) == CountSince(a, cutoff) + CountSince(b, cutoff)
  {
    if a == [] {
      assert a + b == b;
    } else {
      Seqs.TailAppend(a, b);
      CountSplit(a[1..], b, cutoff);
    }
  }

  lemma {:induction false} CountNone(s: seq<int>, cutoff: int)
    requires forall i :: 0 <= i < |s| ==> s[i] < cutoff
    ensures CountSince(s, cutoff) == 0
  {
    if s != [] {
      CountNone(s[1..], cutoff);
    }
  }

  lemma {:induction false} CountAll(s: seq<int>, cutoff: int)
    requires forall i :: 0 <= i < |s| ==> s[i] >= cutoff
    ensures CountSince(s, cutoff) == |s|
  {
    if s != [] {
      CountAll(s[1..], cutoff);
    }
  }

  lemma {:induction false} CountBound(s: seq<int>, cutoff: int)
    ensures CountSince(s, cutoff) <= |s|
  {
    if s != [] {
      CountBound(s[1..], cutoff);
    }
  }

  /** What is dropped is a stale prefix, and the first kept element is not stale. */
  lemma {:induction false} DropStaleSuffix(q: seq<int>, cutoff: int) returns (d: nat)
    ensures d <= |q| && DropStale(q, cutoff) == q[d..]
    ensures forall i :: 0 <= i < d ==> q[i] < cutoff
    ensures d < |q| ==> q[d] >= cutoff
  {
    d := 0;
    if q != [] && q[0] < cutoff {
      var e := DropStaleSuffix(q[1..], cutoff);
      d := e + 1;
      forall i | 0 <= i < d ensures q[i] < cutoff {
        if i > 0 {
          assert q[1..][i - 1] == q[i];
        }
      }
    }
  }

  lemma RecordDrops(q: seq<int>, now: int) returns (e: nat)
    ensures e <= |q| + 1 && |q| + 1 - e <= CAP && Record(q, now) == (q + [now])[e..]
    ensures e == 0 || |q| + 1 - e == CAP || (q + [now])[e - 1] < now - WINDOW
  {
    var s := q + [now];
    e := DropStaleSuffix(s, now - WINDOW);
    if |s| - e > CAP {
      Seqs.DropDrop(s, e, |s| - e - CAP);
      e := |s| - CAP;
    }
  }

  lemma RecordSuffix(h: seq<int>, c: nat) returns (d: nat)
    requires c < |h|
    ensures c <= d <= |h| && |h| - d <= CAP
    ensures Record(h[c..|h| - 1], h[|h| - 1]) == h[d..]
    ensures d == c || |h| - d == CAP || h[d - 1] < h[|h| - 1] - WINDOW
  {
    Seqs.DropToLast(h, c);
    var e := RecordDrops(h[c..|h| - 1], h[|h| - 1]);
    d := c + e;
    Seqs.DropDrop(h, c, e);
  }

  ghost predicate MissingStale(history: seq<int>, d: nat) {
    0 < d <= |history| ==> |history| - d == CAP || history[d - 1] < history[|history| - 1] - WINDOW
  }

  /** The queue is always the newest part of the history; with a clock that never steps back,
      what is missing is either stale or beyond the cap. */
  lemma {:induction false} QueueSuffix(history: seq<int>) returns (d: nat)
    ensures d <= |history| && Queue(history) == history[d..] && |history| - d <= CAP
    ensures Nondecreasing(history) ==> MissingStale(history, d)
  {
    var n := |history|;
    d := 0;
    if n > 0 {
      var c := QueueSuffix(history[..n - 1]);
      assert history[..n - 1][c..] == history[c..n - 1];
      d := RecordSuffix(history, c);
      if Nondecreasing(history) && d > 0 && n - d != CAP && d == c {
        assert MissingStale(history[..n - 1], c);
        assert history[..n - 1][d - 1] < history[..n - 1][n - 2] - WINDOW;
      }
    }
  }

  function Min(a: int, b: int): int {
    if a < b then a else b
  }

  lemma SplitCount(history: seq<int>, d: nat, cutoff: int)
    requires d <= |history|
    ensures CountSince(history, cutoff) == CountSince(history[..d], cutoff) + CountSince(history[d..], cutoff)
    ensures CountSince(history[d..], cutoff) <= |history| - d
  {
    assert history == history[..d] + history[d..];
    CountSplit(history[..d], history[d..], cutoff);
    CountBound(history[d..], cutoff);
  }

  /** Of a nondecreasing history either nothing dropped is recent or everything kept is. */
  lemma DroppedOrKept(history: seq<int>, d: nat, cutoff: int)
    requires Nondecreasing(history) && 0 < d <= |history|
    ensures history[d - 1] < cutoff ==> CountSince(history[..d], cutoff) == 0
    ensures history[d - 1] >= cutoff ==> CountSince(history[d..], cutoff) == |history| - d
  {
    if history[d - 1] < cutoff {
      CountNone(history[..d], cutoff);
    } else {
      CountAll(history[d..], cutoff);
    }
  }

  /** The windowed queue counts exactly like the full history, up to the cap. */
  lemma InterestExact(history: seq<int>, now: int)
    requires Nondecreasing(history) && (history != [] ==> history[|history| - 1] <= now)
    ensures CountSince(Queue(history), now - WINDOW) == Min(CAP, CountSince(history, now - WINDOW))
  {
    var d := QueueSuffix(history);
    SplitCount(history, d, now - WINDOW);
    if d > 0 {
      DroppedOrKept(history, d, now - WINDOW);
    }
  }

  /** Whatever the clock does, demand is never overstated. */
  lemma NeverOverstated(history: seq<int>, now: int)
    ensures CountSince(Queue(history), now - WINDOW) <= Min(CAP, CountSince(history, now - WINDOW))
  {
    var d := QueueSuffix(history);
    SplitCount(history, d, now - WINDOW);
  }

  /** What is dropped below the cap was stale at some ping. */
  lemma {:induction false} DroppedStale(history: seq<int>, now: int)
    requires |history| <= CAP && forall i :: 0 <= i < |history| ==> history[i] <= now
    ensures |Queue(history)| <= |history| && Queue(history) == history[|history| - |Queue(history)|..]
    ensures forall i :: 0 <= i < |history| - |Queue(history)| ==> history[i] < now - WINDOW
  {
    var n := |history|;
    if n > 0 {
      var before := history[..n - 1];
      DroppedStale(before, now);
      var c := |before| - |Queue(before)|;
      assert before[c..] == history[c..n - 1];
      var e := DropStaleSuffix(history[c..], history[n - 1] - WINDOW);
      Seqs.DropToLast(history, c);
      Seqs.DropDrop(history, c, e);
      forall i | 0 <= i < c + e ensures history[i] < now - WINDOW {
        if i < c {
          assert before[i] == history[i];
        } else {
          assert history[c..][i - c] == history[i];
        }
      }
    }
  }

  /** Below the cap the count is exact for pings in any order, once the clock has passed them all. */
  lemma AnyOrderExact(history: seq<int>, now: int)
    requires |history| <= CAP && forall i :: 0 <= i < |history| ==> history[i] <= now
    ensures CountSince(Queue(history), now - WINDOW) == CountSince(history, now - WINDOW)
  {
    DroppedStale(history, now);
    var d := |history| - |Queue(history)|;
    SplitCount(history, d, now - WINDOW);
    CountNone(history[..d], now - WINDOW);
  }

  lemma {:induction false} CountZero(s: seq<int>, cutoff: int)
    ensures CountSince(s, cutoff) == 0 <==> forall i :: 0 <= i < |s| ==> s[i] < cutoff
  {
    if s != [] {
      CountZero(s[1..], cutoff);
      if forall i :: 0 <= i < |s| ==> s[i] < cutoff {
        assert forall i :: 0 <= i < |s[1..]| ==> s[1..][i] == s[i + 1];
      }
      if CountSince(s, cutoff) == 0 {
        forall i | 0 <= i < |s| ensures s[i] < cutoff {
          if i > 0 {
            assert s[1..][i - 1] == s[i];
          }
        }
      }
    }
  }

  /** For any history, any order and any reading time, the reading is exact if and only if every
      ping that was dropped is stale at that time. */
  lemma ReadingExactly(history: seq<int>, now: int)
    ensures |Queue(history)| <= |history|
    ensures CountSince(Queue(history), now - WINDOW) == CountSince(history, now - WINDOW) <==>
      forall i :: 0 <= i < |history| - |Queue(history)| ==> history[i] < now - WINDOW
  {
    var d := QueueSuffix(history);
    SplitCount(history, d, now - WINDOW);
    CountZero(history[..d], now - WINDOW);
    assert forall i :: 0 <= i < d ==> history[..d][i] == history[i];
  }

  /** The queue of an ordered history below the cap holds exactly the pings not stale at the last. */
  lemma {:induction false} OrderedQueue(history: seq<int>)
    requires Nondecreasing(history) && history != [] && |history| <= CAP
    ensures |Queue(history)| <= |history|
    ensures forall i :: 0 <= i < |history| ==>
      (i < |history| - |Queue(history)| <==> history[i] < history[|history| - 1] - WINDOW)
  {
    var n, last := |history|, history[|history| - 1];
    DroppedStale(history, last);
    var d := n - |Queue(history)|;
    QueueHead(history);
    forall i | d <= i < n ensures history[i] >= last - WINDOW {
      assert Queue(history)[0] == history[d];
      assert history[d] <= history[i];
    }
  }

  lemma RecordHead(q: seq<int>, now: int)
    requires |q| < CAP
    ensures Record(q, now) != [] ==> Record(q, now)[0] >= now - WINDOW
  {
    var d := DropStaleSuffix(q + [now], now - WINDOW);
  }

  lemma QueueHead(history: seq<int>)
    requires history != [] && |history| <= CAP
    ensures Queue(history) != [] ==> Queue(history)[0] >= history[|history| - 1] - WINDOW
  {
    var before := history[..|history| - 1];
    var c := QueueSuffix(before);
    RecordHead(Queue(before), history[|history| - 1]);
  }

  /** A reading behind the newest ping is exact if and only if no ping lies in the stretch that the
      newest ping made stale but the reading does not: from `now - 3600` up to `last - 3600`. */
  lemma ReadingBehind(history: seq<int>, now: int)
    requires Nondecreasing(history) && history != [] && |history| <= CAP
    ensures CountSince(Queue(history), now - WINDOW) == CountSince(history, now - WINDOW) <==>
      forall i :: 0 <= i < |history| ==> !(now - WINDOW <= history[i] < history[|history| - 1] - WINDOW)
  {
    ReadingExactly(history, now);
    OrderedQueue(history);
  }

  lemma OnePing(t: int)
    ensures Queue([t]) == [t]
  {
    assert [t][..0] == [] && [] + [t] == [t];
    assert Queue([t]) == Record(Queue([t][..0]), t);
  }

  lemma SecondPingDropsFirst(a: int, b: int)
    requires a < b - WINDOW
    ensures Queue([a, b]) == [b]
  {
    OnePing(a);
    assert [a, b][..1] == [a] && [a] + [b] == [a, b] && [a, b][1..] == [b];
    assert Queue([a, b]) == Record([a], b);
    assert DropStale([a, b], b - WINDOW) == DropStale([b], b - WINDOW) == [b];
  }

  /** An instance: a clock that steps back by more than an hour loses a live ping. */
  lemma SteppingBackLosesPings()
    ensures CountSince(Queue([0, 4000]), 0 - WINDOW) == 1 && CountSince([0, 4000], 0 - WINDOW) == 2
  {
    SecondPingDropsFirst(0, 4000);
    assert [0, 4000][1..] == [4000] && [4000][1..] == [];
  }

  // ------------------------------------------------------------------ many keys

  function QueueOf(demand: map<string, seq<int>>, key: string): seq<int> {
    if key in demand then demand[key] else []
  }

  function AfterPing(demand: map<string, seq<int>>, p: Event): map<string, seq<int>> {
    demand[p.key := Record(QueueOf(demand, p.key), p.at)]
  }

  function AfterPings(pings: seq<Event>): map<string, seq<int>> {
    if pings == [] then map[] else AfterPing(AfterPings(pings[..|pings| - 1]), pings[|pings| - 1])
  }

  lemma {:induction false} KeysIndependent(pings: seq<Event>, key: string)
    ensures QueueOf(AfterPings(pings), key) == Queue(Times(pings, key))
    ensures key in AfterPings(pings) <==> Times(pings, key) != []
  {
    if pings != [] {
      var before, last := pings[..|pings| - 1], pings[|pings| - 1];
      KeysIndependent(before, key);
      assert Times(before, key) + [] == Times(before, key);
      if last.key == key {
        var t := Times(before, key);
        assert (t + [last.at])[..|t|] == t;
        assert Queue(t + [last.at]) == Record(Queue(t), last.at);
      }
    }
  }

  /** Over every run of pings to any keys, the count shown for a key is the naive one. */
  lemma DemandExact(pings: seq<Event>, key: string, now: int)
    requires InOrder(pings)
    requires pings != [] ==> pings[|pings| - 1].at <= now
    ensures CountSince(QueueOf(AfterPings(pings), key), now - WINDOW)
      == Min(CAP, CountSince(Times(pings, key), now - WINDOW))
  {
    KeysIndependent(pings, key);
    TimesOrdered(pings, key);
    InterestExact(Times(pings, key), now);
  }

  // ------------------------------------------------------------------ the store

  datatype Announcement = Announcement(signedBy: string, body: string)

  datatype Entry = Entry(key: string, recentInterest: nat, providers: nat)

  /** How often `key` is listed. */
  function Listed(models: seq<string>, key: string): nat {
    if models == [] then 0 else (if models[0] == key then 1 else 0) + Listed(models[1..], key)
  }

  lemma {:induction false} ListedOneMore(models: seq<string>, n: nat, key: string)
    requires n < |models|
    ensures Listed(models[..n + 1], key) == Listed(models[..n], key) + if models[n] == key then 1 else 0
    decreases n
  {
    if n > 0 {
      assert models[..n + 1][1..] == models[1..][..n];
      assert models[..n][1..] == models[1..][..n - 1];
      ListedOneMore(models[1..], n - 1, key);
    } else {
      assert models[..1][1..] == [];
    }
  }

  lemma {:induction false} ListedBounds(models: seq<string>, key: string)
    ensures Listed(models, key) > 0 <==> key in models
    ensures Seqs.Distinct(models) ==> Listed(models, key) <= 1
  {
    if models != [] {
      ListedBounds(models[1..], key);
    }
  }

  type Lists = map<string, seq<string>>

  /** The listings of `key` over all providers' model lists. */
  ghost function Supply(lists: Lists, key: string): nat
    decreases |lists|
  {
    if lists == map[] then 0
    else
      var id :| id in lists;
      Listed(lists[id], key) + Supply(lists - {id}, key)
  }

  lemma {:induction false} SupplyWithout(lists: Lists, id: string, key: string)
    requires id in lists
    ensures Supply(lists, key) == Listed(lists[id], key) + Supply(lists - {id}, key)
    decreases |lists|
  {
    var j :| j in lists && Supply(lists, key) == Listed(lists[j], key) + Supply(lists - {j}, key);
    if j != id {
      SupplyWithout(lists - {j}, id, key);
      SupplyWithout(lists - {id}, j, key);
      assert lists - {id} - {j} == lists - {j} - {id};
    }
  }

  lemma SupplyWith(lists: Lists, id: string, models: seq<string>)
    requires id !in lists
    ensures forall key :: Supply(lists[id := models], key) == Supply(lists, key) + Listed(models, key)
  {
    var more := lists[id := models];
    assert more - {id} == lists;
    forall key ensures Supply(more, key) == Supply(lists, key) + Listed(models, key) {
      SupplyWithout(more, id, key);
    }
  }

  ghost function Providers(lists: Lists, key: string): set<string> {
    set id | id in lists && key in lists[id]
  }

  ghost predicate ListedOnce(lists: Lists, key: string) {
    forall id :: id in lists ==> Listed(lists[id], key) <= 1
  }

  lemma ProvidersSplit(lists: Lists, id: string, key: string)
    requires id in lists
    ensures id !in Providers(lists - {id}, key)
    ensures Providers(lists, key) ==
      if key in lists[id] then Providers(lists - {id}, key) + {id} else Providers(lists - {id}, key)
  {
    forall j ensures j in Providers(lists, key) <==> j in Providers(lists - {id}, key) || (j == id && key in lists[id]) {
      assert j in lists <==> j == id || j in lists - {id};
    }
  }

  lemma ProvidersWithout(lists: Lists, id: string, key: string)
    requires id in lists
    ensures |Providers(lists, key)| == |Providers(lists - {id}, key)| + if key in lists[id] then 1 else 0
  {
    ProvidersSplit(lists, id, key);
  }

  lemma OnceWithout(lists: Lists, id: string, key: string)
    requires id in lists
    ensures ListedOnce(lists, key) <==> ListedOnce(lists - {id}, key) && Listed(lists[id], key) <= 1
  {
    if ListedOnce(lists - {id}, key) && Listed(lists[id], key) <= 1 {
      forall j | j in lists ensures Listed(lists[j], key) <= 1 {
        assert j == id || j in lists - {id};
      }
    }
  }

  /** The supply shown is at least the number of providers announcing the key, and equals it if
      and only if none of them lists the key twice. */
  lemma {:induction false} SupplyCountsProviders(lists: Lists, key: string)
    ensures Supply(lists, key) >= |Providers(lists, key)|
    ensures Supply(lists, key) == |Providers(lists, key)| <==> ListedOnce(lists, key)
    decreases |lists|
  {
    if lists == map[] {
      assert Providers(lists, key) == {};
    } else {
      var id :| id in lists;
      SupplyWithout(lists, id, key);
      SupplyCountsProviders(lists - {id}, key);
      ListedBounds(lists[id], key);
      ProvidersWithout(lists, id, key);
      OnceWithout(lists, id, key);
    }
  }

  class Store {
    /** The models an announcement serves, when it verifies at a time. */
    const verify: (Announcement, int) -> Option<seq<string>>
    var byNode: map<string, Announcement>
    var demand: map<string, seq<int>>

    constructor (verify: (Announcement, int) -> Option<seq<string>>)
      ensures this.verify == verify && byNode == map[] && demand == map[]
    {
      this.verify, byNode, demand := verify, map[], map[];
    }

    predicate Valid()
      reads this
    {
      |byNode| <= MAX_ANNOUNCEMENTS && forall id :: id in byNode ==> byNode[id].signedBy == id
    }

    function Fresh(now: int): map<string, Announcement>
      reads this
    {
      map id | id in byNode && verify(byNode[id], now).Some? :: byNode[id]
    }

    method Prune(now: int)
      requires Valid()
      modifies this`byNode
      ensures Valid() && byNode == old(Fresh(now))
    {
      byNode := map id | id in byNode && verify(byNode[id], now).Some? :: byNode[id];
      var kept, all := byNode.Keys, old(byNode).Keys;
      Subset(kept, all);
    }

    /** Only a verifying announcement gets in, everything kept verifies now, and the bound on
        their number holds whatever is sent. */
    method InsertAnnouncement(a: Announcement, now: int) returns (ok: bool)
      requires Valid()
      modifies this`byNode
      ensures Valid()
      ensures forall id :: verify(a, now).Some? && id in byNode ==> verify(byNode[id], now).Some?
      ensures ok <==> verify(a, now).Some? && (a.signedBy in old(Fresh(now)) || |old(Fresh(now))| < MAX_ANNOUNCEMENTS)
      ensures verify(a, now).None? ==> byNode == old(byNode)
      ensures verify(a, now).Some? ==> byNode == if ok then old(Fresh(now))[a.signedBy := a] else old(Fresh(now))
    {
      if verify(a, now).None? {
        return false;
      }
      Prune(now);
      if a.signedBy !in byNode && |byNode| >= MAX_ANNOUNCEMENTS {
        return false;
      }
      byNode := byNode[a.signedBy := a];
      return true;
    }

    method RecordInterest(key: string, now: int)
      modifies this`demand
      ensures demand == AfterPing(old(demand), Event(key, now))
    {
      var cutoff := now - WINDOW;
      var q := (if key in demand then demand[key] else []) + [now];
      ghost var pushed := q;
      while q != [] && q[0] < cutoff
        invariant DropStale(q, cutoff) == DropStale(pushed, cutoff)
        decreases |q|
      {
        q := q[1..];
      }
      ghost var live := q;
      while |q| > CAP
        invariant DropExcess(q) == DropExcess(live)
        decreases |q|
      {
        assert |q| - 1 > CAP ==> q[1..][|q| - 1 - CAP..] == q[|q| - CAP..];
        q := q[1..];
      }
      demand := demand[key := q];
    }

    ghost function Announced(now: int): Lists
      reads this
    {
      map id | id in byNode && verify(byNode[id], now).Some? :: verify(byNode[id], now).value
    }

    /** The double loop over verified announcements and their model lists. */
    method TallySupply(now: int) returns (supply: map<string, nat>)
      ensures forall key :: (if key in supply then supply[key] else 0) == Supply(Announced(now), key)
      ensures forall key :: key in supply ==> supply[key] > 0
    {
      supply := map[];
      var left := byNode.Keys;
      ghost var done: Lists := map[];
      while left != {}
        invariant left <= byNode.Keys
        invariant done == Announced(now) - left
        invariant forall key :: (if key in supply then supply[key] else 0) == Supply(done, key)
        invariant forall key :: key in supply ==> supply[key] > 0
      {
        var id :| id in left;
        left := left - {id};
        var served := verify(byNode[id], now);
        if served.Some? {
          supply := AddModels(supply, served.value);
          ghost var more := done[id := served.value];
          SupplyWith(done, id, served.value);
          done := more;
        }
        assert done == Announced(now) - left;
      }
      assert done == Announced(now);
    }

    /** One row per key with demand or supply, each with the two counts. */
    method DemandTable(now: int) returns (rows: map<string, Entry>)
      ensures forall key :: key in rows <==> key in demand || Supply(Announced(now), key) > 0
      ensures forall key :: key in rows ==>
        rows[key] == Entry(key, CountSince(QueueOf(demand, key), now - WINDOW), Supply(Announced(now), key))
    {
      var supply := TallySupply(now);
      rows := map[];
      var left := supply.Keys + demand.Keys;
      while left != {}
        invariant left <= supply.Keys + demand.Keys
        invariant rows.Keys == supply.Keys + demand.Keys - left
        invariant forall key :: key in rows ==>
          rows[key] == Entry(key, CountSince(QueueOf(demand, key), now - WINDOW), Supply(Announced(now), key))
      {
        var key :| key in left;
        left := left - {key};
        rows := rows[key := Entry(key, CountSince(QueueOf(demand, key), now - WINDOW), if key in supply then supply[key] else 0)];
      }
    }
  }

  lemma Subset<T>(a: set<T>, b: set<T>)
    requires a <= b
    ensures |a| <= |b|
  {
    assert b == a + (b - a);
  }

  method AddModels(supply: map<string, nat>, models: seq<string>) returns (out: map<string, nat>)
    ensures forall key :: (if key in out then out[key] else 0) == (if key in supply then supply[key] else 0) + Listed(models, key)
    ensures (forall key :: key in supply ==> supply[key] > 0) ==> forall key :: key in out ==> out[key] > 0
  {
    out := supply;
    var i := 0;
    while i < |models|
      invariant 0 <= i <= |models|
      invariant forall key :: (if key in out then out[key] else 0) == (if key in supply then supply[key] else 0) + Listed(models[..i], key)
      invariant (forall key :: key in supply ==> supply[key] > 0) ==> forall key :: key in out ==> out[key] > 0
    {
      var m := models[i];
      out := out[m := (if m in out then out[m] else 0) + 1];
      forall key ensures Listed(models[..i + 1], key) == Listed(models[..i], key) + if m == key then 1 else 0 {
        ListedOneMore(models, i, key);
      }
      i := i + 1;
    }
    assert models[..|models|] == models;
  }
}
