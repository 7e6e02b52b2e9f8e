/** The planning half of one auto-hosting cycle: rank catalog entries by revenue per byte, keep
    the manual pins, fill the disk budget greedily. Scores are reals; the size of an image is a
    function of the image. */
module DiskPlanner {
  import opened Seqs

  type Key = string
  type Image = string

  datatype Entry = Entry(key: Key, image: Image, needsGpu: bool)

  datatype Cand = Cand(key: Key, image: Image, size: nat, score: real)

  datatype Plan = Plan(target: set<Key>, used: nat, counted: set<Image>)

  /** What a cycle reads before it plans. */
  datatype Inputs = Inputs(catalog: seq<Entry>, gpu: bool, demand: map<Key, real>, price: Key -> real,
                           size: Image -> nat, hosted: set<Key>, autoKeys: set<Key>, budget: nat)

  /** The built-in catalog has one entry a key, and every price is positive. */
  ghost predicate WellFormed(i: Inputs) {
    && (forall j, k :: 0 <= j < k < |i.catalog| ==> i.catalog[j].key != i.catalog[k].key)
    && (forall k :: i.price(k) > 0.0)
  }

  // ------------------------------------------------------------------ candidates

  function Demand(i: Inputs, k: Key): real {
    if k in i.demand then i.demand[k] else 0.0
  }

  predicate Runnable(i: Inputs, e: Entry) {
    !(e.needsGpu && !i.gpu) && Demand(i, e.key) > 0.0
  }

  function CandOf(i: Inputs, e: Entry): Cand {
    Cand(e.key, e.image, i.size(e.image), Demand(i, e.key) * i.price(e.key))
  }

  function Candidates(i: Inputs, catalog: seq<Entry>): seq<Cand> {
    if catalog == [] then []
    else (if Runnable(i, catalog[0]) then [CandOf(i, catalog[0])] else []) + Candidates(i, catalog[1..])
  }

  // --------------------------------------------------------------------- ranking

  /** Score per byte, cross-multiplied: an empty image counts as infinitely dense. */
  predicate Denser(a: Cand, b: Cand) {
    a.score * b.size as real >= b.score * a.size as real
  }

  /** Densest first; equally dense candidates keep catalog order. */
  function Rank(s: seq<Cand>): seq<Cand> {
    Sort(s, (a, b) => Denser(a, b))
  }

  ghost predicate Ranked(s: seq<Cand>) {
    forall j, k {:trigger Denser(s[j], s[k])} :: 0 <= j < k < |s| ==> Denser(s[j], s[k])
  }

  ghost predicate Positive(s: seq<Cand>) {
    forall c :: c in s ==> c.score > 0.0
  }

  lemma DenserTotal(a: Cand, b: Cand)
    ensures Denser(a, b) || Denser(b, a)
  {
  }

  lemma DenserTrans(a: Cand, b: Cand, c: Cand)
    requires a.score > 0.0 && b.score > 0.0 && c.score > 0.0
    requires Denser(a, b) && Denser(b, c)
    ensures Denser(a, c)
  {
    var x, y, z := a.size as real, b.size as real, c.size as real;
    if b.size == 0 {
      assert b.score * x <= 0.0;
      assert x == 0.0;
    } else {
      MulLe(a.score * y, b.score * x, z);
      MulLe(b.score * z, c.score * y, x);
      assert (a.score * z) * y >= (c.score * x) * y by {
        assert (a.score * y) * z == (a.score * z) * y;
        assert (b.score * x) * z == (b.score * z) * x;
        assert (c.score * y) * x == (c.score * x) * y;
      }
      DivLe(a.score * z, c.score * x, y);
    }
  }

  lemma MulLe(a: real, b: real, c: real)
    requires a >= b && c >= 0.0
    ensures a * c >= b * c
  {
  }

  lemma DivLe(a: real, b: real, c: real)
    requires a * c >= b * c && c > 0.0
    ensures a >= b
  {
  }

  /** Ranking sorts by density and only reorders. */
  lemma RankProperties(s: seq<Cand>)
    requires Positive(s)
    ensures Ranked(Rank(s)) && multiset(Rank(s)) == multiset(s) && (forall c :: c in Rank(s) <==> c in s)
  {
    var dom, le := set c | c in s, (a, b) => Denser(a, b);
    forall a, b | a in dom && b in dom ensures le(a, b) || le(b, a) {
      DenserTotal(a, b);
    }
    forall a, b, c | a in dom && b in dom && c in dom && le(a, b) && le(b, c) ensures le(a, c) {
      DenserTrans(a, b, c);
    }
    SortSorts(dom, s, le);
    SortPermutes(s, le);
  }

  // --------------------------------------------------------------------- filling

  /** One candidate: already a target, free because its image is there, or paid for. */
  function Offer(p: Plan, c: Cand, budget: nat): Plan {
    if c.key in p.target then p
    else
      var incr := if c.image in p.counted then 0 else c.size;
      if p.used + incr <= budget then Plan(p.target + {c.key}, p.used + incr, p.counted + {c.image})
      else p
  }

  function Fill(p: Plan, cs: seq<Cand>, budget: nat): Plan
    decreases |cs|
  {
    if cs == [] then p else Fill(Offer(p, cs[0], budget), cs[1..], budget)
  }

  /** One catalog entry: a pin's image is counted once. */
  function CountPin(p: Plan, e: Entry, size: Image -> nat): Plan {
    if e.key in p.target && e.image !in p.counted
    then Plan(p.target, p.used + size(e.image), p.counted + {e.image}) else p
  }

  /** Disk already committed by the pins. */
  function CountPins(p: Plan, catalog: seq<Entry>, size: Image -> nat): Plan
    decreases |catalog|
  {
    if catalog == [] then p else CountPins(CountPin(p, catalog[0], size), catalog[1..], size)
  }

  function Pins(i: Inputs): Plan {
    CountPins(Plan(i.hosted - i.autoKeys, 0, {}), i.catalog, i.size)
  }

  function Planned(i: Inputs): Plan {
    Fill(Pins(i), Rank(Candidates(i, i.catalog)), i.budget)
  }

  method GatherCandidates(i: Inputs) returns (cands: seq<Cand>)
    ensures cands == Candidates(i, i.catalog)
  {
    cands := [];
    assert i.catalog[0..] == i.catalog;
    for j := 0 to |i.catalog|
      invariant cands + Candidates(i, i.catalog[j..]) == Candidates(i, i.catalog)
    {
      var e := i.catalog[j];
      assert i.catalog[j..][1..] == i.catalog[j + 1..];
      ghost var rest := Candidates(i, i.catalog[j + 1..]);
      assert Candidates(i, i.catalog[j..]) == (if Runnable(i, e) then [CandOf(i, e)] else []) + rest;
      assert cands + ([CandOf(i, e)] + rest) == (cands + [CandOf(i, e)]) + rest;
      assert [] + rest == rest;
      if e.needsGpu && !i.gpu {
        continue;
      }
      var d := Demand(i, e.key);
      if d <= 0.0 {
        continue;
      }
      assert Runnable(i, e);
      assert CandOf(i, e) == Cand(e.key, e.image, i.size(e.image), d * i.price(e.key));
      cands := cands + [Cand(e.key, e.image, i.size(e.image), d * i.price(e.key))];
    }
  }

  method CommitPins(i: Inputs) returns (p: Plan)
    ensures p == Pins(i)
  {
    var manual := i.hosted - i.autoKeys;
    var used: nat, counted := 0, {};
    for j := 0 to |i.catalog|
      invariant CountPins(Plan(manual, used, counted), i.catalog[j..], i.size) == Pins(i)
    {
      var e := i.catalog[j];
      assert i.catalog[j..][1..] == i.catalog[j + 1..];
      if e.key in manual && e.image !in counted {
        counted := counted + {e.image};
        used := used + i.size(e.image);
      }
    }
    p := Plan(manual, used, counted);
  }

  method FillBudget(start: Plan, cands: seq<Cand>, budget: nat) returns (p: Plan)
    ensures p == Fill(start, cands, budget)
  {
    var target, counted := start.target, start.counted;
    var used: nat := start.used;
    for j := 0 to |cands|
      invariant Fill(Plan(target, used, counted), cands[j..], budget) == Fill(start, cands, budget)
    {
      var c := cands[j];
      assert cands[j..][1..] == cands[j + 1..];
      if c.key in target {
        continue;
      }
      var incr := if c.image in counted then 0 else c.size;
      if used + incr <= budget {
        target := target + {c.key};
        used := used + incr;
        counted := counted + {c.image};
      }
    }
    p := Plan(target, used, counted);
  }

  method PlanCycle(i: Inputs) returns (p: Plan)
    ensures p == Planned(i)
  {
    var cands := GatherCandidates(i);
    p := CommitPins(i);
    p := FillBudget(p, Rank(cands), i.budget);
  }

  // ----------------------------------------------------------------- what is planned

  ghost function ImagesOf(catalog: seq<Entry>, keys: set<Key>): set<Image> {
    set e | e in catalog && e.key in keys :: e.image
  }

  ghost function TotalSize(images: set<Image>, size: Image -> nat): nat {
    if images == {} then 0
    else
      var x :| x in images;
      size(x) + TotalSize(images - {x}, size)
  }

  lemma {:induction false} TotalSizeAdd(images: set<Image>, x: Image, size: Image -> nat)
    requires x !in images
    ensures TotalSize(images + {x}, size) == TotalSize(images, size) + size(x)
    decreases images
  {
    var all := images + {x};
    var y :| y in all && TotalSize(all, size) == size(y) + TotalSize(all - {y}, size);
    if y == x {
      assert all - {x} == images;
    } else {
      assert all - {y} == (images - {y}) + {x};
      TotalSizeAdd(images - {y}, x, size);
      assert (images - {y}) + {y} == images;
      TotalSizeAdd(images - {y}, y, size);
    }
  }

  ghost predicate Accounted(p: Plan, catalog: seq<Entry>, size: Image -> nat) {
    && p.counted == ImagesOf(catalog, p.target)
    && p.used == TotalSize(p.counted, size)
  }

  lemma CountPinAccounts(p: Plan, done: seq<Entry>, e: Entry, size: Image -> nat)
    requires Accounted(p, done, size)
    ensures Accounted(CountPin(p, e, size), done + [e], size)
  {
    ImagesOneMore(done, e, p.target);
    if e.key in p.target && e.image !in p.counted {
      TotalSizeAdd(p.counted, e.image, size);
    }
  }

  lemma ImagesOneMore(done: seq<Entry>, e: Entry, keys: set<Key>)
    ensures ImagesOf(done + [e], keys) == ImagesOf(done, keys) + (if e.key in keys then {e.image} else {})
  {
    assert forall x :: x in done + [e] <==> x in done || x == e;
  }

  lemma {:induction false} CountPinsAccounts(p: Plan, done: seq<Entry>, todo: seq<Entry>, size: Image -> nat)
    requires Accounted(p, done, size)
    ensures Accounted(CountPins(p, todo, size), done + todo, size)
    ensures CountPins(p, todo, size).target == p.target
    decreases |todo|
  {
    if todo == [] {
      assert done + todo == done;
    } else {
      CountPinAccounts(p, done, todo[0], size);
      CountPinsAccounts(CountPin(p, todo[0], size), done + [todo[0]], todo[1..], size);
      assert (done + [todo[0]]) + todo[1..] == done + todo;
    }
  }

  ghost predicate FromCatalog(i: Inputs, c: Cand) {
    exists e :: e in i.catalog && Runnable(i, e) && c == CandOf(i, e)
  }

  lemma {:induction false} CandidatesFromCatalog(i: Inputs, catalog: seq<Entry>)
    requires forall e :: e in catalog ==> e in i.catalog
    ensures forall c :: c in Candidates(i, catalog) ==> FromCatalog(i, c)
    ensures forall e :: e in catalog && Runnable(i, e) ==> CandOf(i, e) in Candidates(i, catalog)
  {
    if catalog != [] {
      CandidatesFromCatalog(i, catalog[1..]);
    }
  }

  lemma CandidatesPositive(i: Inputs, c: Cand)
    requires WellFormed(i) && FromCatalog(i, c)
    ensures c.score > 0.0 && c.size == i.size(c.image)
  {
  }

  /** Admitting one catalog key adds exactly its image. */
  lemma OfferAccounts(i: Inputs, p: Plan, c: Cand)
    requires WellFormed(i) && FromCatalog(i, c) && Accounted(p, i.catalog, i.size)
    ensures Accounted(Offer(p, c, i.budget), i.catalog, i.size)
  {
    var p' := Offer(p, c, i.budget);
    if p' != p {
      var e :| e in i.catalog && c == CandOf(i, e);
      assert ImagesOf(i.catalog, p.target + {c.key}) == ImagesOf(i.catalog, p.target) + {c.image} by {
        forall f | f in i.catalog && f.key == c.key ensures f.image == c.image {
          var j :| 0 <= j < |i.catalog| && i.catalog[j] == f;
          var k :| 0 <= k < |i.catalog| && i.catalog[k] == e;
        }
        assert CandOf(i, e).key == e.key && CandOf(i, e).image == e.image;
      }
      if c.image !in p.counted {
        TotalSizeAdd(p.counted, c.image, i.size);
      } else {
        assert p.counted + {c.image} == p.counted;
      }
    }
  }

  /** What filling keeps and where it stops. */
  lemma {:induction false} FillProperties(i: Inputs, p: Plan, cs: seq<Cand>, cap: nat)
    requires WellFormed(i) && Accounted(p, i.catalog, i.size) && forall c :: c in cs ==> FromCatalog(i, c)
    requires p.used <= cap && i.budget <= cap
    ensures var q := Fill(p, cs, i.budget);
      && Accounted(q, i.catalog, i.size)
      && q.used <= cap && p.target <= q.target
      && (forall k :: k in q.target ==> k in p.target || exists c :: c in cs && c.key == k)
    decreases |cs|
  {
    if cs != [] {
      OfferAccounts(i, p, cs[0]);
      FillProperties(i, Offer(p, cs[0], i.budget), cs[1..], cap);
    }
  }

  ghost predicate Refused(p: Plan, c: Cand, budget: nat) {
    p.used + (if c.image in p.counted then 0 else c.size) > budget
  }

  /** What did not fit once never fits later, whatever is admitted in between. */
  lemma {:induction false} StaysRefused(p: Plan, cs: seq<Cand>, budget: nat, c: Cand)
    requires Refused(p, c, budget)
    requires forall d :: d in cs && d.image == c.image ==> d.size == c.size
    ensures Refused(Fill(p, cs, budget), c, budget)
    decreases |cs|
  {
    if cs != [] {
      StaysRefused(Offer(p, cs[0], budget), cs[1..], budget, c);
    }
  }

  lemma {:induction false} FillMaximal(p: Plan, cs: seq<Cand>, budget: nat)
    requires forall c, d :: c in cs && d in cs && c.image == d.image ==> c.size == d.size
    ensures forall c :: c in cs && c.key !in Fill(p, cs, budget).target ==> Refused(Fill(p, cs, budget), c, budget)
    ensures p.target <= Fill(p, cs, budget).target
    decreases |cs|
  {
    if cs != [] {
      var p' := Offer(p, cs[0], budget);
      FillMaximal(p', cs[1..], budget);
      if cs[0].key !in p'.target {
        StaysRefused(p', cs[1..], budget, cs[0]);
      }
    }
  }

  lemma RankedCandidates(i: Inputs)
    requires WellFormed(i)
    ensures var cs := Rank(Candidates(i, i.catalog));
      && Ranked(cs) && Positive(cs)
      && (forall c :: c in cs ==> FromCatalog(i, c) && c.size == i.size(c.image))
      && (forall e :: e in i.catalog && Runnable(i, e) ==> CandOf(i, e) in cs)
  {
    var raw := Candidates(i, i.catalog);
    CandidatesFromCatalog(i, i.catalog);
    forall c | c in raw ensures c.score > 0.0 && c.size == i.size(c.image) {
      CandidatesPositive(i, c);
    }
    RankProperties(raw);
  }

  /** The plan keeps every pin, adds only runnable demanded keys, counts each image once, stays
      within the larger of budget and pins, and leaves out nothing that would still fit. */
  lemma PlanSound(i: Inputs)
    requires WellFormed(i)
    ensures var p, manual := Planned(i), i.hosted - i.autoKeys;
      && manual <= p.target
      && (forall k :: k in p.target ==> k in manual || exists e :: e in i.catalog && e.key == k && Runnable(i, e))
      && p.counted == ImagesOf(i.catalog, p.target)
      && p.used == TotalSize(ImagesOf(i.catalog, p.target), i.size)
      && (p.used <= i.budget || p.used <= TotalSize(ImagesOf(i.catalog, manual), i.size))
      && (forall e :: e in i.catalog && Runnable(i, e) && e.key !in p.target ==>
            p.used + (if e.image in p.counted then 0 else i.size(e.image)) > i.budget)
  {
    var manual := i.hosted - i.autoKeys;
    var pins, cs := Pins(i), Rank(Candidates(i, i.catalog));
    assert Accounted(Plan(manual, 0, {}), [], i.size);
    CountPinsAccounts(Plan(manual, 0, {}), [], i.catalog, i.size);
    assert [] + i.catalog == i.catalog;
    RankedCandidates(i);
    FillProperties(i, pins, cs, if pins.used <= i.budget then i.budget else pins.used);
    FillMaximal(pins, cs, i.budget);
    var p := Planned(i);
    forall e | e in i.catalog && Runnable(i, e) && e.key !in p.target ensures Refused(p, CandOf(i, e), i.budget) {
      assert CandOf(i, e) in cs;
    }
  }

  ghost function AllImages(i: Inputs): set<Image> {
    set e | e in i.catalog :: e.image
  }

  lemma {:induction false} TotalSizeMonotone(a: set<Image>, b: set<Image>, size: Image -> nat)
    requires a <= b
    ensures TotalSize(a, size) <= TotalSize(b, size)
    decreases b - a
  {
    if x :| x in b && x !in a {
      TotalSizeAdd(a, x, size);
      TotalSizeMonotone(a + {x}, b, size);
    } else {
      assert forall x :: x in b ==> x in a;
      assert a == b;
    }
  }

  lemma SumWithin(i: Inputs, p: Plan, c: Cand)
    requires Accounted(p, i.catalog, i.size) && FromCatalog(i, c)
    ensures p.used + (if c.image in p.counted then 0 else c.size) <= TotalSize(AllImages(i), i.size)
  {
    var e :| e in i.catalog && Runnable(i, e) && c == CandOf(i, e);
    if c.image !in p.counted {
      TotalSizeAdd(p.counted, c.image, i.size);
    }
    TotalSizeMonotone(p.counted + {c.image}, AllImages(i), i.size);
    TotalSizeMonotone(p.counted, AllImages(i), i.size);
  }

  /** No sum the planner forms exceeds the size of all catalog images, so the 64-bit sums of the
      code are exact whenever that size fits. */
  lemma SumsBounded(i: Inputs, k: nat)
    requires WellFormed(i) && k < |Candidates(i, i.catalog)|
    ensures k < |Rank(Candidates(i, i.catalog))|
    ensures var cs := Rank(Candidates(i, i.catalog));
      var p := Fill(Pins(i), cs[..k], i.budget);
      p.used + (if cs[k].image in p.counted then 0 else cs[k].size) <= TotalSize(AllImages(i), i.size)
  {
    RankLength(i);
    RankedCandidates(i);
    var cs := Rank(Candidates(i, i.catalog));
    assert forall c :: c in cs[..k] ==> c in cs;
    assert cs[k] in cs;
    SumsBoundedAt(i, cs[..k], cs[k]);
  }

  lemma RankLength(i: Inputs)
    ensures |Rank(Candidates(i, i.catalog))| == |Candidates(i, i.catalog)|
  {
    var cs := Candidates(i, i.catalog);
    SortPermutes(cs, (a, b) => Denser(a, b));
    assert |multiset(Rank(cs))| == |Rank(cs)| && |multiset(cs)| == |cs|;
  }

  lemma SumsBoundedAt(i: Inputs, cs: seq<Cand>, c: Cand)
    requires WellFormed(i) && FromCatalog(i, c) && forall d :: d in cs ==> FromCatalog(i, d)
    ensures var p := Fill(Pins(i), cs, i.budget);
      p.used + (if c.image in p.counted then 0 else c.size) <= TotalSize(AllImages(i), i.size)
  {
    assert [] + i.catalog == i.catalog;
    CountPinsAccounts(Plan(i.hosted - i.autoKeys, 0, {}), [], i.catalog, i.size);
    var pins := Pins(i);
    FillProperties(i, pins, cs, if pins.used <= i.budget then i.budget else pins.used);
    SumWithin(i, Fill(pins, cs, i.budget), c);
  }

  // ------------------------------------------------------------- nearly optimal choice

  function Score(cs: seq<Cand>, keys: set<Key>): real {
    if cs == [] then 0.0 else (if cs[0].key in keys then cs[0].score else 0.0) + Score(cs[1..], keys)
  }

  function DiskUse(cs: seq<Cand>, keys: set<Key>): nat {
    if cs == [] then 0 else (if cs[0].key in keys then cs[0].size else 0) + DiskUse(cs[1..], keys)
  }

  ghost predicate NoSharing(cs: seq<Cand>) {
    forall j, k :: 0 <= j < k < |cs| ==> cs[j].key != cs[k].key && cs[j].image != cs[k].image
  }

  /** The first candidate the greedy pass leaves out, if any, is at this position. */
  function FirstSkipped(p: Plan, cs: seq<Cand>, budget: nat): (k: nat)
    ensures k <= |cs|
    decreases |cs|
  {
    if cs == [] then 0
    else if cs[0].key !in Offer(p, cs[0], budget).target then 0
    else 1 + FirstSkipped(Offer(p, cs[0], budget), cs[1..], budget)
  }

  lemma {:induction false} SplitSums(a: seq<Cand>, b: seq<Cand>, keys: set<Key>)
    ensures Score(a + b, keys) == Score(a, keys) + Score(b, keys)
    ensures DiskUse(a + b, keys) == DiskUse(a, keys) + DiskUse(b, keys)
  {
    if a == [] {
      assert a + b == b;
    } else {
      assert (a + b)[1..] == a[1..] + b;
      SplitSums(a[1..], b, keys);
    }
  }

  lemma TakenOne(p: Plan, c: Cand, budget: nat, done: seq<Cand>)
    requires p.used == DiskUse(done, p.target) && c.key !in p.target && c.image !in p.counted
    requires c.key in Offer(p, c, budget).target && forall d :: d in done ==> d.key in p.target
    ensures Offer(p, c, budget).used == DiskUse(done + [c], Offer(p, c, budget).target)
  {
    var t := Offer(p, c, budget).target;
    SplitSums(done, [c], t);
    SameSums(done, p.target, t);
    assert [c][1..] == [];
  }

  lemma HeadUnshared(done: seq<Cand>, cs: seq<Cand>)
    requires NoSharing(done + cs) && cs != []
    ensures forall d :: d in cs[1..] ==> d.key != cs[0].key && d.image != cs[0].image
  {
    assert (done + cs)[|done|] == cs[0];
    forall d | d in cs[1..] ensures d.key != cs[0].key && d.image != cs[0].image {
      var j :| 0 <= j < |cs| - 1 && cs[1..][j] == d;
      assert (done + cs)[|done| + 1 + j] == d;
    }
  }

  lemma SkippedAtOnce(p: Plan, cs: seq<Cand>, budget: nat, done: seq<Cand>)
    requires cs != [] && cs[0].key !in Offer(p, cs[0], budget).target && p.used == DiskUse(done, p.target)
    requires cs[0].image !in p.counted && forall c :: c in done ==> c.key in p.target
    ensures FirstSkipped(p, cs, budget) == 0 && cs[..0] == []
    ensures DiskUse(done + cs[..0], Fill(p, cs, budget).target) + cs[0].size > budget
  {
    FillGrows(p, cs, budget);
    assert done + cs[..0] == done;
    SameSums(done, p.target, Fill(p, cs, budget).target);
  }

  /** Taking the head: it moves from what is offered to what is done. */
  lemma MoveOver(done: seq<Cand>, cs: seq<Cand>, k: nat)
    requires 0 < k <= |cs|
    ensures (done + [cs[0]]) + cs[1..] == done + cs
    ensures (done + [cs[0]]) + cs[1..][..k - 1] == done + cs[..k]
  {
  }

  lemma HeadThenTail(cs: seq<Cand>, k: nat)
    requires 0 < k <= |cs|
    ensures forall c :: c in cs[..k] <==> c == cs[0] || c in cs[1..][..k - 1]
  {
    assert cs[..k] == [cs[0]] + cs[1..][..k - 1];
  }

  /** Before the first skip every candidate is taken and its bytes are used. */
  lemma {:induction false} TakenBeforeSkip(p: Plan, cs: seq<Cand>, budget: nat, done: seq<Cand>)
    requires p.used == DiskUse(done, p.target)
    requires NoSharing(done + cs) && forall c :: c in cs ==> c.key !in p.target && c.image !in p.counted
    requires forall c :: c in done ==> c.key in p.target
    ensures var k, q := FirstSkipped(p, cs, budget), Fill(p, cs, budget);
      && (forall c :: c in cs[..k] ==> c.key in q.target)
      && (k < |cs| ==> DiskUse(done + cs[..k], q.target) + cs[k].size > budget)
    decreases |cs|
  {
    var k, q := FirstSkipped(p, cs, budget), Fill(p, cs, budget);
    if cs != [] {
      var c := cs[0];
      var p' := Offer(p, c, budget);
      FillGrows(p', cs[1..], budget);
      if c.key !in p'.target {
        SkippedAtOnce(p, cs, budget, done);
      } else {
        TakenOne(p, c, budget, done);
        MoveOver(done, cs, k);
        HeadUnshared(done, cs);
        TakenBeforeSkip(p', cs[1..], budget, done + [c]);
        HeadThenTail(cs, k);
      }
    }
  }

  lemma {:induction false} FillGrows(p: Plan, cs: seq<Cand>, budget: nat)
    ensures p.target <= Fill(p, cs, budget).target
    decreases |cs|
  {
    if cs != [] {
      FillGrows(Offer(p, cs[0], budget), cs[1..], budget);
    }
  }

  lemma {:induction false} SameSums(cs: seq<Cand>, a: set<Key>, b: set<Key>)
    requires forall c :: c in cs ==> (c.key in a <==> c.key in b)
    ensures Score(cs, a) == Score(cs, b) && DiskUse(cs, a) == DiskUse(cs, b)
  {
    if cs != [] {
      SameSums(cs[1..], a, b);
    }
  }

  lemma Distribute(a: real, b: real, c: real)
    ensures (a + b) * c == a * c + b * c
  {
  }

  /** The same bytes, as a real. */
  function Room(cs: seq<Cand>, keys: set<Key>): real {
    if cs == [] then 0.0 else (if cs[0].key in keys then cs[0].size as real else 0.0) + Room(cs[1..], keys)
  }

  lemma {:induction false} RoomIsBytes(cs: seq<Cand>, keys: set<Key>)
    ensures Room(cs, keys) == DiskUse(cs, keys) as real
  {
    if cs != [] {
      RoomIsBytes(cs[1..], keys);
    }
  }

  // The exchange argument only needs two additive weighings: f of a score (times the skipped
  // candidate's size) and g of a size (times its score).

  ghost predicate AddsAt(f: real -> real, a: real, b: real) {
    f(a + b) == f(a) + f(b)
  }

  ghost predicate Additive(f: real -> real) {
    forall a, b :: AddsAt(f, a, b)
  }

  lemma AdditiveNegate(f: real -> real, a: real)
    requires Additive(f)
    ensures f(0.0) == 0.0 && f(-a) == -f(a)
  {
    assert AddsAt(f, 0.0, 0.0) && AddsAt(f, a, -a);
  }

  /** Candidates too sparse to win weigh no more in score than in size. */
  lemma {:induction false} SparseGain(cs: seq<Cand>, other: set<Key>, f: real -> real, g: real -> real)
    requires Additive(f) && Additive(g)
    requires forall j :: 0 <= j < |cs| ==> f(cs[j].score) <= g(cs[j].size as real)
    ensures f(Score(cs, other)) <= g(Room(cs, other))
  {
    AdditiveNegate(f, 0.0);
    AdditiveNegate(g, 0.0);
    if cs != [] {
      var d := cs[0];
      SparseGain(cs[1..], other, f, g);
      assert AddsAt(f, if d.key in other then d.score else 0.0, Score(cs[1..], other));
      assert AddsAt(g, if d.key in other then d.size as real else 0.0, Room(cs[1..], other));
    }
  }

  function ScoreGain(pre: seq<Cand>, rest: seq<Cand>, taken: set<Key>, other: set<Key>): real {
    Score(pre, other) + Score(rest, other) - Score(pre, taken)
  }

  function RoomGain(pre: seq<Cand>, rest: seq<Cand>, taken: set<Key>, other: set<Key>): real {
    Room(pre, other) + Room(rest, other) - Room(pre, taken)
  }

  /** What trading the first candidate changes. */
  lemma TradeHead(pre: seq<Cand>, rest: seq<Cand>, taken: set<Key>, other: set<Key>)
    requires pre != [] && pre[0].key in taken
    ensures var d, tail := pre[0], pre[1..];
      && ScoreGain(pre, rest, taken, other) ==
        (if d.key in other then 0.0 else -d.score) + ScoreGain(tail, rest, taken, other)
      && RoomGain(pre, rest, taken, other) ==
        (if d.key in other then 0.0 else -(d.size as real)) + RoomGain(tail, rest, taken, other)
  {
  }

  /** Trading taken dense candidates for others gains at most what the bytes weigh. */
  lemma {:induction false} TradeGain(pre: seq<Cand>, rest: seq<Cand>, taken: set<Key>, other: set<Key>,
                                     f: real -> real, g: real -> real)
    requires Additive(f) && Additive(g)
    requires forall j :: 0 <= j < |pre| ==> pre[j].key in taken && f(pre[j].score) >= g(pre[j].size as real)
    requires forall j :: 0 <= j < |rest| ==> f(rest[j].score) <= g(rest[j].size as real)
    ensures f(ScoreGain(pre, rest, taken, other)) <= g(RoomGain(pre, rest, taken, other))
  {
    if pre == [] {
      SparseGain(rest, other, f, g);
    } else {
      var d, tail := pre[0], pre[1..];
      var h := if d.key in other then 0.0 else -d.score;
      var w := if d.key in other then 0.0 else -(d.size as real);
      TradeGain(tail, rest, taken, other, f, g);
      HeadTrade(d, f, g, other);
      TradeHead(pre, rest, taken, other);
      WeighSum(f, g, h, w, ScoreGain(tail, rest, taken, other), RoomGain(tail, rest, taken, other));
    }
  }

  lemma HeadTrade(d: Cand, f: real -> real, g: real -> real, other: set<Key>)
    requires Additive(f) && Additive(g) && f(d.score) >= g(d.size as real)
    ensures f(if d.key in other then 0.0 else -d.score) <= g(if d.key in other then 0.0 else -(d.size as real))
  {
    AdditiveNegate(f, d.score);
    AdditiveNegate(g, d.size as real);
  }

  lemma WeighSum(f: real -> real, g: real -> real, h: real, w: real, x: real, y: real)
    requires Additive(f) && Additive(g) && f(h) <= g(w) && f(x) <= g(y)
    ensures f(h + x) <= g(w + y)
  {
    assert AddsAt(f, h, x) && AddsAt(g, w, y);
  }

  function ScaleBy(z: real): real -> real {
    (x: real) => x * z
  }

  lemma ScaleAdditive(z: real)
    ensures Additive(ScaleBy(z))
  {
    forall a, b ensures AddsAt(ScaleBy(z), a, b) {
      Distribute(a, b, z);
    }
  }

  lemma DenserWeight(d: Cand, c: Cand)
    ensures Denser(d, c) <==> ScaleBy(c.size as real)(d.score) >= ScaleBy(c.score)(d.size as real)
    ensures Denser(c, d) <==> ScaleBy(c.size as real)(d.score) <= ScaleBy(c.score)(d.size as real)
  {
  }

  lemma {:induction false} ScoreMonotone(cs: seq<Cand>, a: set<Key>, b: set<Key>)
    requires Positive(cs) && forall c :: c in cs && c.key in a ==> c.key in b
    ensures 0.0 <= Score(cs, a) <= Score(cs, b)
  {
    if cs != [] {
      ScoreMonotone(cs[1..], a, b);
    }
  }

  /** A gain of at most s/z a byte over at most z bytes is at most s. */
  lemma BoundedTrade(s: real, z: real, gain: real, bytes: real)
    requires s > 0.0 && z > 0.0 && bytes <= z && ScaleBy(z)(gain) <= ScaleBy(s)(bytes)
    ensures gain <= s
  {
    MulLe(z, bytes, s);
    DivLe(s, gain, z);
  }

  lemma AllTaken(cs: seq<Cand>, taken: set<Key>, other: set<Key>)
    requires Positive(cs) && forall c :: c in cs ==> c.key in taken
    ensures Score(cs, other) <= Score(cs, taken)
  {
    ScoreMonotone(cs, other, taken);
  }

  lemma SomeSkipped(cs: seq<Cand>, k: nat, budget: nat, taken: set<Key>, other: set<Key>)
    requires Ranked(cs) && Positive(cs) && DiskUse(cs, other) <= budget && k < |cs| && cs[k].size > 0
    requires forall c :: c in cs[..k] ==> c.key in taken
    requires DiskUse(cs[..k], taken) + cs[k].size > budget
    ensures Score(cs, other) <= Score(cs, taken) + cs[k].score
  {
    forall j | 0 <= j < k ensures cs[j].key in taken {
      assert cs[..k][j] in cs[..k];
    }
    SplitBound(cs, k, budget, taken, other);
  }

  lemma NothingBefore(cs: seq<Cand>)
    ensures [] + cs == cs
  {
  }

  /** What the greedy pass takes before its first skip, from an empty plan. */
  lemma TakenFromStart(start: Plan, cs: seq<Cand>, budget: nat)
    requires NoSharing(cs) && start.target == {} && start.used == 0 && start.counted == {}
    ensures var k, q := FirstSkipped(start, cs, budget), Fill(start, cs, budget);
      && (forall c :: c in cs[..k] ==> c.key in q.target)
      && (k < |cs| ==> DiskUse(cs[..k], q.target) + cs[k].size > budget && cs[k].size > 0)
  {
    var k := FirstSkipped(start, cs, budget);
    NothingBefore(cs);
    NothingBefore(cs[..k]);
    TakenBeforeSkip(start, cs, budget, []);
    if k < |cs| {
      SizeOfSkipped(start, cs, budget);
    }
  }

  /** With no pins and no shared images the greedy score plus the score of the first candidate
      left out is at least the score of any set of candidates that fits. */
  lemma GreedyNearOptimal(cs: seq<Cand>, budget: nat, other: set<Key>)
    requires Ranked(cs) && Positive(cs) && NoSharing(cs) && DiskUse(cs, other) <= budget
    ensures var q, k := Fill(Plan({}, 0, {}), cs, budget), FirstSkipped(Plan({}, 0, {}), cs, budget);
      Score(cs, other) <= Score(cs, q.target) + (if k < |cs| then cs[k].score else 0.0)
  {
    var q, k := Fill(Plan({}, 0, {}), cs, budget), FirstSkipped(Plan({}, 0, {}), cs, budget);
    TakenFromStart(Plan({}, 0, {}), cs, budget);
    if k == |cs| {
      assert cs[..k] == cs;
      AllTaken(cs, q.target, other);
    } else {
      SomeSkipped(cs, k, budget, q.target, other);
    }
  }

  lemma SplitBound(cs: seq<Cand>, k: nat, budget: nat, taken: set<Key>, other: set<Key>)
    requires Ranked(cs) && Positive(cs) && k < |cs| && cs[k].size > 0
    requires forall j :: 0 <= j < k ==> cs[j].key in taken
    requires DiskUse(cs[..k], taken) + cs[k].size > budget && DiskUse(cs, other) <= budget
    ensures Score(cs, other) <= Score(cs, taken) + cs[k].score
  {
    assert cs == cs[..k] + cs[k..];
    SplitSums(cs[..k], cs[k..], other);
    SplitSums(cs[..k], cs[k..], taken);
    ScoreMonotone(cs[k..], {}, taken);
    SkippedBound(cs, k, budget, taken, other);
  }

  /** The bound, given that everything before position k is taken and position k does not fit. */
  lemma SkippedBound(cs: seq<Cand>, k: nat, budget: nat, taken: set<Key>, other: set<Key>)
    requires Ranked(cs) && Positive(cs) && k < |cs| && cs[k].size > 0
    requires forall j :: 0 <= j < k ==> cs[j].key in taken
    requires DiskUse(cs[..k], taken) + cs[k].size > budget
    requires DiskUse(cs[..k], other) + DiskUse(cs[k..], other) <= budget
    ensures Score(cs[..k], other) + Score(cs[k..], other) <= Score(cs[..k], taken) + cs[k].score
  {
    var pre, rest, s := cs[..k], cs[k..], cs[k].score;
    var z := SkipGap(pre, cs[k], rest, budget, taken, other);
    ScaleAdditive(z);
    ScaleAdditive(s);
    DensityAround(cs, k, z);
    assert cs[k] in cs;
    TradeGain(pre, rest, taken, other, ScaleBy(z), ScaleBy(s));
    BoundedTrade(s, z, ScoreGain(pre, rest, taken, other), RoomGain(pre, rest, taken, other));
  }

  lemma DensityAround(cs: seq<Cand>, k: nat, z: real)
    requires Ranked(cs) && k < |cs| && z == cs[k].size as real
    ensures forall j :: 0 <= j < k ==> ScaleBy(z)(cs[j].score) >= ScaleBy(cs[k].score)(cs[j].size as real)
    ensures forall j :: 0 <= j < |cs[k..]| ==>
      ScaleBy(z)(cs[k..][j].score) <= ScaleBy(cs[k].score)(cs[k..][j].size as real)
  {
    forall j | 0 <= j < k ensures ScaleBy(z)(cs[j].score) >= ScaleBy(cs[k].score)(cs[j].size as real) {
      assert Denser(cs[j], cs[k]);
      DenserWeight(cs[j], cs[k]);
    }
    forall j | 0 <= j < |cs[k..]|
      ensures ScaleBy(z)(cs[k..][j].score) <= ScaleBy(cs[k].score)(cs[k..][j].size as real)
    {
      if j > 0 {
        assert Denser(cs[k], cs[k + j]);
      }
      DenserWeight(cs[k + j], cs[k]);
    }
  }

  lemma SkipGap(pre: seq<Cand>, c: Cand, rest: seq<Cand>, budget: nat, taken: set<Key>, other: set<Key>) returns (z: real)
    requires DiskUse(pre, taken) + c.size > budget && c.size > 0
    requires DiskUse(pre, other) + DiskUse(rest, other) <= budget
    ensures z == c.size as real && z > 0.0
    ensures Room(pre, other) + Room(rest, other) - Room(pre, taken) <= z
  {
    z := c.size as real;
    RoomIsBytes(pre, taken);
    RoomIsBytes(pre, other);
    RoomIsBytes(rest, other);
  }

  /** Only a candidate with bytes can be refused. */
  lemma {:induction false} SizeOfSkipped(p: Plan, cs: seq<Cand>, budget: nat)
    requires p.used <= budget
    ensures var k := FirstSkipped(p, cs, budget); k < |cs| ==> cs[k].size > 0
    decreases |cs|
  {
    if cs != [] {
      SizeOfSkipped(Offer(p, cs[0], budget), cs[1..], budget);
    }
  }

  /** Candidates of entries with distinct keys and images share neither. */
  lemma {:induction false} CandidatesUnshared(i: Inputs, catalog: seq<Entry>)
    requires forall j, k :: 0 <= j < k < |catalog| ==>
      catalog[j].key != catalog[k].key && catalog[j].image != catalog[k].image
    ensures NoSharing(Candidates(i, catalog))
    ensures forall c :: c in Candidates(i, catalog) ==>
      exists j :: 0 <= j < |catalog| && catalog[j].key == c.key && catalog[j].image == c.image
  {
    if catalog != [] {
      CandidatesUnshared(i, catalog[1..]);
      var rest := Candidates(i, catalog[1..]);
      forall c | c in rest
        ensures exists j :: 1 <= j < |catalog| && catalog[j].key == c.key && catalog[j].image == c.image
      {
        var j :| 0 <= j < |catalog[1..]| && catalog[1..][j].key == c.key && catalog[1..][j].image == c.image;
        assert catalog[j + 1].key == c.key && catalog[j + 1].image == c.image;
      }
    }
  }

  lemma RankUnshared(s: seq<Cand>)
    requires NoSharing(s)
    ensures NoSharing(Rank(s))
  {
    SortPairwise(s, (a, b) => Denser(a, b), (a: Cand, b: Cand) => a.key != b.key && a.image != b.image);
  }

  lemma {:induction false} CountNoPins(p: Plan, catalog: seq<Entry>, size: Image -> nat)
    requires p.target == {}
    ensures CountPins(p, catalog, size) == p
    decreases |catalog|
  {
    if catalog != [] {
      CountNoPins(p, catalog[1..], size);
    }
  }

  /** The whole planner: with nothing pinned and no image shared, its score plus that of the first
      candidate it leaves out is at least the score of any set of candidates that fits. */
  lemma PlanNearOptimal(i: Inputs, other: set<Key>)
    requires WellFormed(i) && i.hosted <= i.autoKeys
    requires forall j, k :: 0 <= j < k < |i.catalog| ==> i.catalog[j].image != i.catalog[k].image
    requires DiskUse(Rank(Candidates(i, i.catalog)), other) <= i.budget
    ensures var cs := Rank(Candidates(i, i.catalog));
      var k := FirstSkipped(Plan({}, 0, {}), cs, i.budget);
      Score(cs, other) <= Score(cs, Planned(i).target) + (if k < |cs| then cs[k].score else 0.0)
  {
    assert i.hosted - i.autoKeys == {};
    CountNoPins(Plan({}, 0, {}), i.catalog, i.size);
    CandidatesUnshared(i, i.catalog);
    RankUnshared(Candidates(i, i.catalog));
    RankedCandidates(i);
    GreedyNearOptimal(Rank(Candidates(i, i.catalog)), i.budget, other);
  }

  // ----------------------------------------------------------------- in terms of the inputs

  /** The entry can run here and somebody asks for it. */
  predicate Wanted(i: Inputs, e: Entry) {
    (e.needsGpu ==> i.gpu) && e.key in i.demand && i.demand[e.key] > 0.0
  }

  /** Requests times price, over the wanted entries among `keys`. */
  function Revenue(i: Inputs, catalog: seq<Entry>, keys: set<Key>): real {
    if catalog == [] then 0.0
    else
      var e := catalog[0];
      (if Wanted(i, e) && e.key in keys then i.demand[e.key] * i.price(e.key) else 0.0) + Revenue(i, catalog[1..], keys)
  }

  /** The image sizes of the wanted entries among `keys`. */
  function ImageBytes(i: Inputs, catalog: seq<Entry>, keys: set<Key>): nat {
    if catalog == [] then 0
    else
      var e := catalog[0];
      (if Wanted(i, e) && e.key in keys then i.size(e.image) else 0) + ImageBytes(i, catalog[1..], keys)
  }

  lemma {:induction false} CandidateSums(i: Inputs, catalog: seq<Entry>, keys: set<Key>)
    ensures Score(Candidates(i, catalog), keys) == Revenue(i, catalog, keys)
    ensures DiskUse(Candidates(i, catalog), keys) == ImageBytes(i, catalog, keys)
  {
    if catalog != [] {
      CandidateSums(i, catalog[1..], keys);
      var rest := Candidates(i, catalog[1..]);
      if Runnable(i, catalog[0]) {
        assert ([CandOf(i, catalog[0])] + rest)[1..] == rest;
      } else {
        assert [] + rest == rest;
      }
    }
  }

  lemma {:induction false} InsertSums(x: Cand, s: seq<Cand>, le: (Cand, Cand) -> bool, keys: set<Key>)
    ensures Score(Insert(x, s, le), keys) == (if x.key in keys then x.score else 0.0) + Score(s, keys)
    ensures DiskUse(Insert(x, s, le), keys) == (if x.key in keys then x.size else 0) + DiskUse(s, keys)
  {
    if s == [] || le(x, s[0]) {
      assert ([x] + s)[1..] == s && [x] + [] == [x];
    } else {
      var r := Insert(x, s[1..], le);
      InsertSums(x, s[1..], le, keys);
      assert ([s[0]] + r)[1..] == r;
    }
  }

  lemma {:induction false} SortSums(s: seq<Cand>, le: (Cand, Cand) -> bool, keys: set<Key>)
    ensures Score(Sort(s, le), keys) == Score(s, keys) && DiskUse(Sort(s, le), keys) == DiskUse(s, keys)
  {
    if s != [] {
      SortSums(s[1..], le, keys);
      InsertSums(s[0], Sort(s[1..], le), le, keys);
    }
  }

  /** Ranked or not, a set of keys scores its revenue and takes its images' sizes. */
  lemma RankSums(i: Inputs, keys: set<Key>)
    ensures Score(Rank(Candidates(i, i.catalog)), keys) == Revenue(i, i.catalog, keys)
    ensures DiskUse(Rank(Candidates(i, i.catalog)), keys) == ImageBytes(i, i.catalog, keys)
  {
    CandidateSums(i, i.catalog, keys);
    SortSums(Candidates(i, i.catalog), (a, b) => Denser(a, b), keys);
  }

  /** Every candidate is a wanted entry, scored by its revenue and as large as its image. */
  lemma CandidateEarns(i: Inputs, c: Cand) returns (e: Entry)
    requires FromCatalog(i, c)
    ensures e in i.catalog && Wanted(i, e)
    ensures c == Cand(e.key, e.image, i.size(e.image), i.demand[e.key] * i.price(e.key))
  {
    e :| e in i.catalog && Runnable(i, e) && c == CandOf(i, e);
  }

  predicate Covered(i: Inputs, e: Entry, best: real, plan: real) {
    Wanted(i, e) && best <= plan + i.demand[e.key] * i.price(e.key)
  }

  /** With nothing pinned and no image shared, no set of keys whose images fit the budget earns more
      than the plan and one more wanted entry of the catalog. */
  lemma PlanEarns(i: Inputs, other: set<Key>)
    requires WellFormed(i) && i.hosted <= i.autoKeys
    requires forall j, k :: 0 <= j < k < |i.catalog| ==> i.catalog[j].image != i.catalog[k].image
    requires ImageBytes(i, i.catalog, other) <= i.budget
    ensures var plan, best := Revenue(i, i.catalog, Planned(i).target), Revenue(i, i.catalog, other);
      best <= plan || exists e :: e in i.catalog && Covered(i, e, best, plan)
  {
    RankSums(i, other);
    RankSums(i, Planned(i).target);
    PlanNearOptimal(i, other);
    RankedCandidates(i);
    var cs := Rank(Candidates(i, i.catalog));
    var k := FirstSkipped(Plan({}, 0, {}), cs, i.budget);
    if k < |cs| {
      var e := CandidateEarns(i, cs[k]);
      assert Covered(i, e, Revenue(i, i.catalog, other), Revenue(i, i.catalog, Planned(i).target));
    }
  }

  // ------------------------------------------------------------- nearly optimal beside pins

  /** The candidates that are not pinned; the greedy pass skips the others. */
  function Unpinned(cs: seq<Cand>, pins: set<Key>): seq<Cand> {
    if cs == [] then []
    else (if cs[0].key in pins then [] else [cs[0]]) + Unpinned(cs[1..], pins)
  }

  lemma {:induction false} UnpinnedMembers(cs: seq<Cand>, pins: set<Key>)
    ensures forall c :: c in Unpinned(cs, pins) <==> c in cs && c.key !in pins
    ensures Positive(cs) ==> Positive(Unpinned(cs, pins))
  {
    if cs != [] {
      UnpinnedMembers(cs[1..], pins);
    }
  }

  lemma {:induction false} UnpinnedRanked(cs: seq<Cand>, pins: set<Key>)
    requires Ranked(cs)
    ensures Ranked(Unpinned(cs, pins))
  {
    if cs != [] {
      var rest := Unpinned(cs[1..], pins);
      RankedTail(cs);
      UnpinnedRanked(cs[1..], pins);
      UnpinnedMembers(cs[1..], pins);
      forall j | 0 <= j < |rest| ensures Denser(cs[0], rest[j]) {
        assert rest[j] in cs[1..];
        var i :| 0 <= i < |cs[1..]| && cs[1..][i] == rest[j];
        assert Denser(cs[0], cs[i + 1]);
      }
      if cs[0].key !in pins {
        RankedCons(cs[0], rest);
      } else {
        assert [] + rest == rest;
      }
    }
  }

  lemma RankedTail(cs: seq<Cand>)
    requires Ranked(cs) && cs != []
    ensures Ranked(cs[1..])
  {
    forall j, k | 0 <= j < k < |cs[1..]| ensures Denser(cs[1..][j], cs[1..][k]) {
      assert Denser(cs[j + 1], cs[k + 1]);
    }
  }

  lemma RankedCons(c: Cand, rest: seq<Cand>)
    requires Ranked(rest) && forall j :: 0 <= j < |rest| ==> Denser(c, rest[j])
    ensures Ranked([c] + rest)
  {
    var s := [c] + rest;
    forall j, k | 0 <= j < k < |s| ensures Denser(s[j], s[k]) {
      if j > 0 {
        assert Denser(rest[j - 1], rest[k - 1]);
      }
    }
  }

  lemma {:induction false} FillSkipsPinned(p: Plan, cs: seq<Cand>, pins: set<Key>, budget: nat)
    requires pins <= p.target
    ensures Fill(p, cs, budget) == Fill(p, Unpinned(cs, pins), budget)
    decreases |cs|
  {
    if cs != [] {
      FillSkipsPinned(Offer(p, cs[0], budget), cs[1..], pins, budget);
      if cs[0].key !in pins {
        assert ([cs[0]] + Unpinned(cs[1..], pins))[1..] == Unpinned(cs[1..], pins);
      } else {
        assert [] + Unpinned(cs[1..], pins) == Unpinned(cs[1..], pins);
      }
    }
  }

  /** A plan whose pins and their images are set apart. */
  function Beside(base: Plan, p: Plan): Plan {
    Plan(base.target + p.target, base.used + p.used, base.counted + p.counted)
  }

  predicate Apart(base: Plan, c: Cand) {
    c.key !in base.target && c.image !in base.counted
  }

  lemma OfferBeside(base: Plan, p: Plan, c: Cand, budget: nat)
    requires Apart(base, c) && base.used <= budget
    ensures Offer(Beside(base, p), c, budget) == Beside(base, Offer(p, c, budget - base.used))
  {
    var q := Offer(p, c, budget - base.used);
    assert (base.target + p.target) + {c.key} == base.target + (p.target + {c.key});
    assert (base.counted + p.counted) + {c.image} == base.counted + (p.counted + {c.image});
  }

  /** Filling beside pins is filling from nothing with what the pins leave of the budget. */
  lemma {:induction false} FillBeside(base: Plan, p: Plan, cs: seq<Cand>, budget: nat)
    requires (forall c :: c in cs ==> Apart(base, c)) && base.used <= budget
    ensures Fill(Beside(base, p), cs, budget) == Beside(base, Fill(p, cs, budget - base.used))
    ensures FirstSkipped(Beside(base, p), cs, budget) == FirstSkipped(p, cs, budget - base.used)
    decreases |cs|
  {
    if cs != [] {
      OfferBeside(base, p, cs[0], budget);
      assert Apart(base, cs[0]);
      FillBeside(base, Offer(p, cs[0], budget - base.used), cs[1..], budget);
    }
  }

  lemma {:induction false} ScoreBeside(cs: seq<Cand>, base: set<Key>, keys: set<Key>)
    requires forall c :: c in cs ==> c.key !in base
    ensures Score(cs, base + keys) == Score(cs, keys)
  {
    if cs != [] {
      ScoreBeside(cs[1..], base, keys);
    }
  }

  /** The greedy bound beside pins: against the budget the pins leave. */
  lemma GreedyBesidePins(base: Plan, cs: seq<Cand>, budget: nat, other: set<Key>)
    requires Ranked(cs) && Positive(cs) && NoSharing(cs) && (forall c :: c in cs ==> Apart(base, c))
    requires base.used <= budget && DiskUse(cs, other) <= budget - base.used
    ensures var q, k := Fill(base, cs, budget), FirstSkipped(base, cs, budget);
      Score(cs, other) <= Score(cs, q.target) + (if k < |cs| then cs[k].score else 0.0)
  {
    var start := Plan({}, 0, {});
    assert Beside(base, start) == base;
    FillBeside(base, start, cs, budget);
    GreedyNearOptimal(cs, budget - base.used, other);
    ScoreBeside(cs, base.target, Fill(start, cs, budget - base.used).target);
  }

  lemma {:induction false} PinsKeepTarget(p: Plan, catalog: seq<Entry>, size: Image -> nat)
    ensures CountPins(p, catalog, size).target == p.target
    decreases |catalog|
  {
    if catalog != [] {
      PinsKeepTarget(CountPin(p, catalog[0], size), catalog[1..], size);
    }
  }

  /** The whole planner beside pins: if no unpinned candidate shares an image with a pin or with
      another, the score it adds plus that of the first candidate it leaves out is at least the
      score of any set of unpinned candidates that fits what the pins leave of the budget. */
  lemma PlanNearOptimalBesidePins(i: Inputs, other: set<Key>)
    requires WellFormed(i) && Pins(i).used <= i.budget
    requires var rest := Unpinned(Rank(Candidates(i, i.catalog)), i.hosted - i.autoKeys);
      NoSharing(rest) && (forall c :: c in rest ==> c.image !in Pins(i).counted)
      && DiskUse(rest, other) <= i.budget - Pins(i).used
    ensures var rest := Unpinned(Rank(Candidates(i, i.catalog)), i.hosted - i.autoKeys);
      var k := FirstSkipped(Pins(i), rest, i.budget);
      Score(rest, other) <= Score(rest, Planned(i).target) + (if k < |rest| then rest[k].score else 0.0)
  {
    var pins, cs := i.hosted - i.autoKeys, Rank(Candidates(i, i.catalog));
    PinsKeepTarget(Plan(pins, 0, {}), i.catalog, i.size);
    RankedCandidates(i);
    UnpinnedRanked(cs, pins);
    UnpinnedMembers(cs, pins);
    FillSkipsPinned(Pins(i), cs, pins, i.budget);
    GreedyBesidePins(Pins(i), Unpinned(cs, pins), i.budget, other);
  }
}
