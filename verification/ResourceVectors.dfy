/** Quantities per resource kind, and one node's accounting of them. */
module ResourceVectors {
  import opened Wrappers
  import opened Bytes

  datatype ResourceKind = Cpu | Memory | Gpu | Vram | Storage | Bandwidth | Custom(name: string)

  /** A missing kind counts as zero. */
  type ResourceVector = map<ResourceKind, u64>

  datatype ResourceError =
    | Insufficient(kind: ResourceKind, requested: u64, available: u64)
    | ShareExceedsTotal(kind: ResourceKind)

  // ------------------------------------------------------------------ key order

  /** Lexicographic order of texts. */
  predicate TextLe(a: string, b: string) {
    a == [] || (b != [] && (a[0] < b[0] || (a[0] == b[0] && TextLe(a[1..], b[1..]))))
  }

  function Rank(k: ResourceKind): nat {
    match k
    case Cpu => 0
    case Memory => 1
    case Gpu => 2
    case Vram => 3
    case Storage => 4
    case Bandwidth => 5
    case Custom(_) => 6
  }

  /** The order in which the entries of a vector are visited. */
  predicate KindLe(a: ResourceKind, b: ResourceKind) {
    Rank(a) < Rank(b) || (Rank(a) == Rank(b) && (a.Custom? ==> TextLe(a.name, b.name)))
  }

  lemma {:induction false} TextOrder(a: string, b: string, c: string)
    ensures TextLe(a, a) && (TextLe(a, b) || TextLe(b, a))
    ensures TextLe(a, b) && TextLe(b, c) ==> TextLe(a, c)
    ensures TextLe(a, b) && TextLe(b, a) ==> a == b
    decreases |a| + |b| + |c|
  {
    if a != [] {
      TextOrder(a[1..], if b == [] then [] else b[1..], if c == [] then [] else c[1..]);
      if b != [] && a[1..] == b[1..] && a[0] == b[0] {
        assert a == [a[0]] + a[1..] == b;
      }
    }
  }

  /** The first position at which two texts differ, if there is one. */
  predicate DifferAt(a: string, b: string, i: nat) {
    i < |a| && i < |b| && a[..i] == b[..i] && a[i] != b[i]
  }

  /** One text is before another if it is a prefix of it, or has the smaller character where they
      first differ. */
  lemma {:induction false} TextLeExactly(a: string, b: string, i: nat)
    ensures a <= b ==> TextLe(a, b)
    ensures b < a ==> !TextLe(a, b)
    ensures DifferAt(a, b, i) ==> (TextLe(a, b) <==> a[i] < b[i])
  {
    assert DifferAt(a, b, i) && i > 0 ==> a[0] == a[..i][0] == b[..i][0] == b[0];
    if a != [] && b != [] && a[0] == b[0] {
      TextLeExactly(a[1..], b[1..], if i > 0 then i - 1 else 0);
      if a <= b { assert a[1..] == b[..|a|][1..] == b[1..][..|a| - 1]; }
      if b < a { assert b[1..] == a[..|b|][1..] == a[1..][..|b| - 1]; }
      if i > 0 && DifferAt(a, b, i) {
        assert a[1..][..i - 1] == a[..i][1..] == b[..i][1..] == b[1..][..i - 1];
      }
    }
  }

  /** The kinds are visited as they are declared, custom ones last and by name. */
  lemma KindsInOrder(a: string, b: string)
    ensures Pairs([Cpu, Memory, Gpu, Vram, Storage, Bandwidth, Custom(a)])
    ensures KindLe(Custom(a), Custom(b)) <==> TextLe(a, b)
  {
  }

  predicate Pairs(kinds: seq<ResourceKind>) {
    forall i, j :: 0 <= i < j < |kinds| ==> KindLe(kinds[i], kinds[j]) && !KindLe(kinds[j], kinds[i])
  }

  /** Visiting order is total, and no two kinds share a place in it. */
  lemma KindOrder(a: ResourceKind, b: ResourceKind, c: ResourceKind)
    ensures KindLe(a, a) && (KindLe(a, b) || KindLe(b, a))
    ensures KindLe(a, b) && KindLe(b, c) ==> KindLe(a, c)
    ensures KindLe(a, b) && KindLe(b, a) ==> a == b
  {
    if a.Custom? {
      TextOrder(a.name, if b.Custom? then b.name else [], if c.Custom? then c.name else []);
    }
  }

  lemma {:induction false} FirstKind(kinds: set<ResourceKind>) returns (first: ResourceKind)
    requires kinds != {}
    ensures first in kinds && forall k :: k in kinds ==> KindLe(first, k)
    decreases kinds
  {
    first :| first in kinds;
    if kinds - {first} != {} {
      var other := FirstKind(kinds - {first});
      KindOrder(first, other, other);
      forall k | k in kinds ensures KindLe(if KindLe(first, other) then first else other, k) {
        KindOrder(first, other, k);
        assert k == first || k in kinds - {first};
      }
      first := if KindLe(first, other) then first else other;
    } else {
      assert kinds == {first};
      KindOrder(first, first, first);
    }
  }

  /** `k` is the first kind, in visiting order, that is asked for beyond what is there. */
  ghost predicate FirstShort(v: ResourceVector, request: ResourceVector, k: ResourceKind) {
    && k in request && Get(v, k) < request[k]
    && forall j :: j in request && Get(v, j) < request[j] ==> KindLe(k, j)
  }

  function SatAdd(a: u64, b: u64): u64 {
    if a + b < TWO_64 then a + b else TWO_64 - 1
  }

  function SatSub(a: u64, b: u64): u64 {
    if a >= b then a - b else 0
  }

  function Get(v: ResourceVector, k: ResourceKind): u64 {
    if k in v then v[k] else 0
  }

  predicate Covers(v: ResourceVector, request: ResourceVector) {
    forall k :: k in request ==> Get(v, k) >= request[k]
  }

  function Plus(v: ResourceVector, w: ResourceVector): ResourceVector {
    map k | k in v.Keys + w.Keys :: SatAdd(Get(v, k), Get(w, k))
  }

  function Minus(v: ResourceVector, w: ResourceVector): ResourceVector {
    map k | k in v.Keys + w.Keys :: SatSub(Get(v, k), Get(w, k))
  }

  method CheckedAdd(v: ResourceVector, w: ResourceVector) returns (out: ResourceVector)
    ensures out == Plus(v, w)
  {
    out := v;
    var left := w.Keys;
    while left != {}
      invariant left <= w.Keys && out.Keys == v.Keys + (w.Keys - left)
      invariant forall k :: k in out ==> out[k] == if k in w && k !in left then SatAdd(Get(v, k), w[k]) else Get(v, k)
    {
      var k :| k in left;
      out := out[k := SatAdd(Get(out, k), w[k])];
      left := left - {k};
    }
  }

  method SaturatingSub(v: ResourceVector, w: ResourceVector) returns (out: ResourceVector)
    ensures out == Minus(v, w)
  {
    out := v;
    var left := w.Keys;
    while left != {}
      invariant left <= w.Keys && out.Keys == v.Keys + (w.Keys - left)
      invariant forall k :: k in out ==> out[k] == if k in w && k !in left then SatSub(Get(v, k), w[k]) else Get(v, k)
    {
      var k :| k in left;
      out := out[k := SatSub(Get(out, k), w[k])];
      left := left - {k};
    }
  }

  class Resources {
    const total: ResourceVector
    const shared: ResourceVector
    var inUse: ResourceVector

    constructor (total: ResourceVector, shared: ResourceVector)
      ensures this.total == total && this.shared == shared && inUse == map[]
    {
      this.total, this.shared, inUse := total, shared, map[];
    }

    /** Refused, naming the first offending kind, exactly when some kind shares more than it has. */
    static method Declare(total: ResourceVector, shared: ResourceVector)
      returns (r: Result<Resources, ResourceError>)
      ensures r.Ok? <==> forall k :: Get(shared, k) <= Get(total, k)
      ensures r.Ok? ==> fresh(r.value) && r.value.total == total && r.value.shared == shared && r.value.inUse == map[]
      ensures r.Err? ==> exists k :: r.error == ShareExceedsTotal(k) && FirstShort(total, shared, k)
    {
      var left := shared.Keys;
      while left != {}
        invariant left <= shared.Keys
        invariant forall k :: k in shared && k !in left ==> shared[k] <= Get(total, k)
      {
        ghost var least := FirstKind(left);
        var k :| k in left && forall j :: j in left ==> KindLe(k, j);
        if shared[k] > Get(total, k) {
          assert Get(shared, k) > Get(total, k);
          assert FirstShort(total, shared, k);
          return Err(ShareExceedsTotal(k));
        }
        left := left - {k};
      }
      var resources := new Resources(total, shared);
      return Ok(resources);
    }

    method Available() returns (v: ResourceVector)
      ensures v == Minus(shared, inUse)
    {
      v := SaturatingSub(shared, inUse);
    }

    /** All or nothing: reserved when every kind is available, otherwise unchanged and the
        error reports the first kind that is short together with what was there. */
    method Allocate(request: ResourceVector) returns (r: Result<(), ResourceError>)
      modifies this
      ensures r.Ok? <==> Covers(Minus(shared, old(inUse)), request)
      ensures inUse == if r.Ok? then Plus(old(inUse), request) else old(inUse)
      ensures r.Err? ==>
        exists k :: FirstShort(Minus(shared, inUse), request, k)
          && r.error == Insufficient(k, request[k], Get(Minus(shared, inUse), k))
    {
      var available := Available();
      var left := request.Keys;
      while left != {}
        invariant left <= request.Keys && inUse == old(inUse)
        invariant forall k :: k in request && k !in left ==> Get(available, k) >= request[k]
      {
        ghost var least := FirstKind(left);
        var k :| k in left && forall j :: j in left ==> KindLe(k, j);
        if Get(available, k) < request[k] {
          assert FirstShort(available, request, k);
          return Err(Insufficient(k, request[k], Get(available, k)));
        }
        left := left - {k};
      }
      inUse := CheckedAdd(inUse, request);
      return Ok(());
    }

    method Release(request: ResourceVector)
      modifies this
      ensures inUse == Minus(old(inUse), request)
    {
      inUse := SaturatingSub(inUse, request);
    }
  }

  /** What a successful reservation takes, its release returns, kind by kind and without
      saturating either time. */
  lemma ReserveReleaseRoundTrip(shared: ResourceVector, inUse: ResourceVector, request: ResourceVector, k: ResourceKind)
    requires Get(inUse, k) <= Get(shared, k)
    requires Covers(Minus(shared, inUse), request)
    ensures Get(Plus(inUse, request), k) == Get(inUse, k) + Get(request, k) <= Get(shared, k)
    ensures Get(Minus(Plus(inUse, request), request), k) == Get(inUse, k)
  {
    assert Get(Minus(shared, inUse), k) == Get(shared, k) - Get(inUse, k);
  }

  // ------------------------------------------------------------------ totals

  /** The amount of one kind held by all entries of a table. */
  ghost function Total<K(!new)>(held: map<K, ResourceVector>, k: ResourceKind): nat
    decreases |held|
  {
    if held == map[] then 0
    else
      var x :| x in held;
      Get(held[x], k) + Total(held - {x}, k)
  }

  /** The total does not depend on the order in which entries are taken. */
  lemma {:induction false} TotalWithout<K(!new)>(held: map<K, ResourceVector>, x: K, k: ResourceKind)
    requires x in held
    ensures Total(held, k) == Get(held[x], k) + Total(held - {x}, k)
    decreases |held|
  {
    var y :| y in held && Total(held, k) == Get(held[y], k) + Total(held - {y}, k);
    if x != y {
      TotalWithout(held - {y}, x, k);
      TotalWithout(held - {x}, y, k);
      assert held - {x} - {y} == held - {y} - {x};
    }
  }

  lemma TotalWith<K(!new)>(held: map<K, ResourceVector>, x: K, v: ResourceVector, k: ResourceKind)
    requires x !in held
    ensures Total(held[x := v], k) == Get(v, k) + Total(held, k)
  {
    TotalWithout(held[x := v], x, k);
    assert held[x := v] - {x} == held;
  }
}
