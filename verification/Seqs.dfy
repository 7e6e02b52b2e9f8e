/** The few facts about filtering, counting and flattening sequences that several modules need. */
module Seqs {

  function Filter<T>(s: seq<T>, p: T -> bool): seq<T>
  {
    if s == [] then []
    else (if p(s[0]) then [s[0]] else []) + Filter(s[1..], p)
  }

  lemma TakeOneMore<T>(s: seq<T>, n: nat)
    requires 0 < n <= |s|
    ensures s[..n] == s[..n - 1] + [s[n - 1]]
  {
  }

  lemma TailAppend<T>(a: seq<T>, b: seq<T>)
    requires a != []
    ensures (a + b)[0] == a[0] && (a + b)[1..] == a[1..] + b
  {
  }

  lemma Assoc<T>(a: seq<T>, b: seq<T>, c: seq<T>)
    ensures (a + b) + c == a + (b + c)
  {
  }

  lemma ConsTake<T>(x: T, s: seq<T>, n: nat)
    requires 0 < n <= |s| + 1
    ensures ([x] + s)[..n] == [x] + s[..n - 1] && ([x] + s)[1..] == s
  {
  }

  lemma DropDrop<T>(s: seq<T>, m: nat, n: nat)
    requires m + n <= |s|
    ensures s[m..][n..] == s[m + n..]
  {
  }

  lemma DropToLast<T>(s: seq<T>, m: nat)
    requires m < |s|
    ensures s[m..] == s[m..|s| - 1] + [s[|s| - 1]]
  {
  }

  /** The last `n` elements, or all of them. */
  function Last<T>(s: seq<T>, n: nat): seq<T> {
    if |s| > n then s[|s| - n..] else s
  }

  lemma LastOfAppend<T>(a: seq<T>, b: seq<T>, n: nat)
    ensures Last(Last(a, n) + b, n) == Last(a + b, n)
  {
  }

  ghost predicate Distinct<T>(s: seq<T>) {
    forall i, j :: 0 <= i < j < |s| ==> s[i] != s[j]
  }

  lemma DistinctAppend<T>(a: seq<T>, b: seq<T>)
    requires Distinct(a) && Distinct(b)
    requires forall x :: x in a ==> x !in b
    ensures Distinct(a + b)
  {
    forall i, j | 0 <= i < j < |a + b| ensures (a + b)[i] != (a + b)[j] {
      if i < |a| <= j {
        assert a[i] in a && b[j - |a|] in b;
      }
    }
  }

  lemma {:induction false} FilterAppend<T>(a: seq<T>, b: seq<T>, p: T -> bool)
    ensures Filter(a + b, p) == Filter(a, p) + Filter(b, p)
  {
    if a == [] {
      assert a + b == b;
    } else {
      FilterAppend(a[1..], b, p);
      TailAppend(a, b);
      Assoc(if p(a[0]) then [a[0]] else [], Filter(a[1..], p), Filter(b, p));
    }
  }

  lemma {:induction false} FilterMembers<T>(s: seq<T>, p: T -> bool)
    ensures forall x :: x in Filter(s, p) <==> x in s && p(x)
    ensures Distinct(s) ==> Distinct(Filter(s, p))
    ensures |Filter(s, p)| <= |s|
  {
    if s != [] {
      FilterMembers(s[1..], p);
    }
  }

  lemma {:induction false} FilterAll<T>(s: seq<T>, p: T -> bool)
    requires forall x :: x in s ==> p(x)
    ensures Filter(s, p) == s
  {
    if s != [] {
      FilterAll(s[1..], p);
    }
  }

  lemma {:induction false} FilterNone<T>(s: seq<T>, p: T -> bool)
    requires forall x :: x in s ==> !p(x)
    ensures Filter(s, p) == []
  {
    if s != [] {
      FilterNone(s[1..], p);
    }
  }

  /** Two predicates that agree on the elements select the same subsequence. */
  lemma {:induction false} FilterAgree<T>(s: seq<T>, p: T -> bool, q: T -> bool)
    requires forall x :: x in s ==> p(x) == q(x)
    ensures Filter(s, p) == Filter(s, q)
  {
    if s != [] {
      FilterAgree(s[1..], p, q);
    }
  }

  function Flatten<T>(parts: seq<seq<T>>): seq<T>
  {
    if parts == [] then [] else parts[0] + Flatten(parts[1..])
  }

  lemma {:induction false} FlattenAppend<T>(a: seq<seq<T>>, b: seq<seq<T>>)
    ensures Flatten(a + b) == Flatten(a) + Flatten(b)
  {
    if a == [] {
      assert a + b == b;
    } else {
      TailAppend(a, b);
      FlattenAppend(a[1..], b);
      Assoc(a[0], Flatten(a[1..]), Flatten(b));
    }
  }

  /** How many of the parts lie wholly within the first `n` elements of their concatenation. */
  function WholeParts<T>(parts: seq<seq<T>>, n: nat): (k: nat)
    ensures k <= |parts|
  {
    if parts == [] || n < |parts[0]| then 0 else 1 + WholeParts(parts[1..], n - |parts[0]|)
  }

  lemma CutJoin<T>(a: seq<T>, b: seq<T>, n: nat)
    requires n <= |a| + |b|
    ensures (a + b)[..n] == if n < |a| then a[..n] else a + b[..n - |a|]
  {
  }

  /** A cut concatenation is its whole parts and a proper part of the next one. */
  lemma {:induction false} CutFlatten<T>(parts: seq<seq<T>>, n: nat) returns (r: nat)
    requires n <= |Flatten(parts)|
    ensures var k := WholeParts(parts, n);
      && n == |Flatten(parts[..k])| + r
      && (if k < |parts| then r < |parts[k]| && Flatten(parts)[..n] == Flatten(parts[..k]) + parts[k][..r]
          else r == 0 && Flatten(parts)[..n] == Flatten(parts[..k]))
    decreases |parts|
  {
    if parts == [] {
      r := 0;
    } else {
      var a, b := parts[0], Flatten(parts[1..]);
      CutJoin(a, b, n);
      if n < |a| {
        r := n;
        assert parts[..0] == [] && [] + a[..n] == a[..n];
      } else {
        r := CutFlatten(parts[1..], n - |a|);
        var k := WholeParts(parts[1..], n - |a|);
        assert parts[..k + 1][1..] == parts[1..][..k];
        if k < |parts[1..]| {
          Assoc(a, Flatten(parts[1..][..k]), parts[1..][k][..r]);
        }
      }
    }
  }

  /** Pigeonhole: a duplicate-free sequence is as long as the set of its elements. */
  lemma {:induction false} DistinctLength<T>(s: seq<T>)
    requires Distinct(s)
    ensures |set x | x in s| == |s|
  {
    if s != [] {
      DistinctLength(s[1..]);
      assert (set x | x in s) == {s[0]} + (set x | x in s[1..]);
    }
  }

  // ------------------------------------------------------------------ stable sort

  function Insert<T>(x: T, s: seq<T>, le: (T, T) -> bool): seq<T> {
    if s == [] then [x]
    else if le(x, s[0]) then [x] + s
    else [s[0]] + Insert(x, s[1..], le)
  }

  /** The library's stable sort: equal elements keep their order. */
  function Sort<T>(s: seq<T>, le: (T, T) -> bool): seq<T> {
    if s == [] then [] else Insert(s[0], Sort(s[1..], le), le)
  }

  ghost predicate SortedBy<T>(s: seq<T>, le: (T, T) -> bool) {
    forall i, j :: 0 <= i < j < |s| ==> le(s[i], s[j])
  }

  /** `le` is a total preorder on the elements of `dom`. */
  ghost predicate Preorder<T(!new)>(dom: set<T>, le: (T, T) -> bool) {
    && (forall x, y :: x in dom && y in dom ==> le(x, y) || le(y, x))
    && (forall x, y, z :: x in dom && y in dom && z in dom && le(x, y) && le(y, z) ==> le(x, z))
  }

  lemma {:induction false} InsertSorts<T(!new)>(dom: set<T>, x: T, s: seq<T>, le: (T, T) -> bool)
    requires Preorder(dom, le) && x in dom && (forall y :: y in s ==> y in dom) && SortedBy(s, le)
    ensures SortedBy(Insert(x, s, le), le)
    ensures forall y :: y in Insert(x, s, le) <==> y == x || y in s
  {
    if s != [] && !le(x, s[0]) {
      var r := Insert(x, s[1..], le);
      InsertSorts(dom, x, s[1..], le);
      forall k | 0 <= k < |r| ensures le(s[0], r[k]) {
        assert r[k] == x || r[k] in s[1..];
      }
    }
  }

  lemma {:induction false} InsertPermutes<T>(x: T, s: seq<T>, le: (T, T) -> bool)
    ensures multiset(Insert(x, s, le)) == multiset{x} + multiset(s)
  {
    if s != [] && !le(x, s[0]) {
      InsertPermutes(x, s[1..], le);
      assert s == [s[0]] + s[1..];
    }
  }

  lemma {:induction false} SortSorts<T(!new)>(dom: set<T>, s: seq<T>, le: (T, T) -> bool)
    requires Preorder(dom, le) && forall y :: y in s ==> y in dom
    ensures SortedBy(Sort(s, le), le)
    ensures forall y :: y in Sort(s, le) <==> y in s
  {
    if s != [] {
      SortSorts(dom, s[1..], le);
      InsertSorts(dom, s[0], Sort(s[1..], le), le);
    }
  }

  lemma {:induction false} SortPermutes<T>(s: seq<T>, le: (T, T) -> bool)
    ensures multiset(Sort(s, le)) == multiset(s)
  {
    if s != [] {
      SortPermutes(s[1..], le);
      InsertPermutes(s[0], Sort(s[1..], le), le);
      assert s == [s[0]] + s[1..];
    }
  }

  ghost predicate Pairwise<T>(s: seq<T>, r: (T, T) -> bool) {
    forall i, j :: 0 <= i < j < |s| ==> r(s[i], s[j])
  }

  /** A filter keeps what holds between all pairs. */
  lemma {:induction false} FilterPairwise<T(!new)>(s: seq<T>, p: T -> bool, r: (T, T) -> bool)
    requires Pairwise(s, r)
    ensures Pairwise(Filter(s, p), r)
  {
    if s != [] {
      var t := Filter(s[1..], p);
      FilterPairwise(s[1..], p, r);
      FilterMembers(s[1..], p);
      forall k | 0 <= k < |t| ensures r(s[0], t[k]) {
        assert t[k] in s[1..];
        var j :| 0 <= j < |s[1..]| && s[1..][j] == t[k];
        assert r(s[0], s[j + 1]);
      }
    }
  }

  lemma {:induction false} InsertPairwise<T(!new)>(x: T, s: seq<T>, le: (T, T) -> bool, r: (T, T) -> bool)
    requires forall a, b :: r(a, b) == r(b, a)
    requires Pairwise(s, r) && forall y :: y in s ==> r(x, y)
    ensures Pairwise(Insert(x, s, le), r)
    ensures forall y :: y in Insert(x, s, le) <==> y == x || y in s
  {
    if s != [] && !le(x, s[0]) {
      var t := Insert(x, s[1..], le);
      InsertPairwise(x, s[1..], le, r);
      forall k | 0 <= k < |t| ensures r(s[0], t[k]) {
        assert t[k] in t && r(x, s[0]);
        if t[k] != x {
          var j :| 0 <= j < |s[1..]| && s[1..][j] == t[k];
          assert r(s[0], s[j + 1]);
        }
      }
    }
  }

  /** A symmetric relation between all pairs survives sorting. */
  lemma {:induction false} SortPairwise<T(!new)>(s: seq<T>, le: (T, T) -> bool, r: (T, T) -> bool)
    requires forall a, b :: r(a, b) == r(b, a)
    requires Pairwise(s, r)
    ensures Pairwise(Sort(s, le), r)
    ensures forall y :: y in Sort(s, le) <==> y in s
  {
    if s != [] {
      SortPairwise(s[1..], le, r);
      forall y | y in s[1..] ensures r(s[0], y) {
        var j :| 0 <= j < |s[1..]| && s[1..][j] == y;
        assert s[j + 1] == y;
      }
      InsertPairwise(s[0], Sort(s[1..], le), le, r);
    }
  }
}
