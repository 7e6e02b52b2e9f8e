/** One provider node over whole runs: virtual machines and workloads reserve and return
    resources, spent leases are reaped, and a restart adopts the containers still there. */
module NodeResources {
  import opened Wrappers
  import opened Bytes
  import opened ResourceVectors
  import opened Leases
  import Seqs

  datatype Vm = Vm(share: ResourceVector, lease: Lease)

  datatype Node = Node(
    total: ResourceVector,
    shared: ResourceVector,
    inUse: ResourceVector,
    vms: map<string, Vm>,
    running: map<nat, ResourceVector>,
    calls: nat)

  /** `Start` is a request by an authenticated owner, with what the payment gate, the container
      check and the container start answered; `Reap` lists the owners found spent at `now`;
      `Begin` and `End` bracket one workload call. */
  datatype Step =
    | Start(owner: string, vm: Vm, paid: bool, docker: bool, up: bool)
    | Stop(stopped: string)
    | Reap(now: int, expired: seq<string>)
    | Begin(request: ResourceVector)
    | End(call: nat)

  predicate Free(n: Node, request: ResourceVector) {
    Covers(Minus(n.shared, n.inUse), request)
  }

  function Reserved(n: Node, request: ResourceVector): Node {
    n.(inUse := Plus(n.inUse, request))
  }

  function Released(n: Node, request: ResourceVector): Node {
    n.(inUse := Minus(n.inUse, request))
  }

  function AfterStart(n: Node, owner: string, vm: Vm, paid: bool, docker: bool, up: bool): Node {
    if owner in n.vms || !paid || !docker || !Free(n, vm.share) then n
    else if !up then Released(Reserved(n, vm.share), vm.share)
    else Reserved(n, vm.share).(vms := n.vms[owner := vm])
  }

  function AfterStop(n: Node, owner: string): Node {
    if owner !in n.vms then Released(n, map[])
    else Released(n, n.vms[owner].share).(vms := n.vms - {owner})
  }

  function AfterStopAll(n: Node, owners: seq<string>): Node
    decreases |owners|
  {
    if owners == [] then n else AfterStopAll(AfterStop(n, owners[0]), owners[1..])
  }

  function AfterBegin(n: Node, request: ResourceVector): Node {
    if !Free(n, request) then n
    else Reserved(n, request).(running := n.running[n.calls := request], calls := n.calls + 1)
  }

  function AfterEnd(n: Node, call: nat): Node {
    if call !in n.running then n
    else Released(n, n.running[call]).(running := n.running - {call})
  }

  function Apply(n: Node, step: Step): Node {
    match step
    case Start(owner, vm, paid, docker, up) => AfterStart(n, owner, vm, paid, docker, up)
    case Stop(owner) => AfterStop(n, owner)
    case Reap(_, expired) => AfterStopAll(n, expired)
    case Begin(request) => AfterBegin(n, request)
    case End(call) => AfterEnd(n, call)
  }

  function Run(n: Node, steps: seq<Step>): Node
    decreases |steps|
  {
    if steps == [] then n else Run(Apply(n, steps[0]), steps[1..])
  }

  // ------------------------------------------------------------------ what is held

  ghost function VmHoldings(vms: map<string, Vm>): map<string, ResourceVector> {
    map o | o in vms :: vms[o].share
  }

  ghost function Live(n: Node, k: ResourceKind): nat {
    Total(VmHoldings(n.vms), k) + Total(n.running, k)
  }

  ghost predicate Callable(n: Node) {
    forall c :: c in n.running ==> c < n.calls
  }

  predicate Within(n: Node, k: ResourceKind) {
    Get(n.inUse, k) <= Get(n.shared, k) <= Get(n.total, k)
  }

  ghost predicate ExactAt(n: Node, k: ResourceKind) {
    Get(n.inUse, k) == Live(n, k) && Within(n, k)
  }

  ghost predicate AtMostAt(n: Node, k: ResourceKind) {
    Get(n.inUse, k) <= Live(n, k) && Within(n, k)
  }

  /** For every kind, what is in use is exactly the sum of live reservations, within shared,
      within total. */
  ghost predicate Conserved(n: Node) {
    Callable(n) && forall k :: ExactAt(n, k)
  }

  /** The same with "at most": what a restart leaves when some machine could not be counted. */
  ghost predicate Undercounted(n: Node) {
    Callable(n) && forall k :: AtMostAt(n, k)
  }

  lemma VmAdded(vms: map<string, Vm>, owner: string, vm: Vm, k: ResourceKind)
    requires owner !in vms
    ensures Total(VmHoldings(vms[owner := vm]), k) == Get(vm.share, k) + Total(VmHoldings(vms), k)
  {
    assert VmHoldings(vms[owner := vm]) == VmHoldings(vms)[owner := vm.share];
    TotalWith(VmHoldings(vms), owner, vm.share, k);
  }

  lemma VmRemoved(vms: map<string, Vm>, owner: string, k: ResourceKind)
    requires owner in vms
    ensures Total(VmHoldings(vms), k) == Get(vms[owner].share, k) + Total(VmHoldings(vms - {owner}), k)
  {
    assert VmHoldings(vms - {owner}) == VmHoldings(vms) - {owner};
    TotalWithout(VmHoldings(vms), owner, k);
  }

  /** `m` keeps, for one kind, whatever of the two accounts `n` had. */
  ghost predicate KeepsAt(n: Node, m: Node, k: ResourceKind) {
    (ExactAt(n, k) ==> ExactAt(m, k)) && (AtMostAt(n, k) ==> AtMostAt(m, k))
  }

  lemma ReserveAt(n: Node, request: ResourceVector, k: ResourceKind)
    requires Within(n, k) && Free(n, request)
    ensures Get(Reserved(n, request).inUse, k) == Get(n.inUse, k) + Get(request, k) <= Get(n.shared, k)
    ensures Get(Released(Reserved(n, request), request).inUse, k) == Get(n.inUse, k)
  {
    ReserveReleaseRoundTrip(n.shared, n.inUse, request, k);
  }

  lemma ReleaseAt(n: Node, request: ResourceVector, k: ResourceKind)
    ensures Get(Released(n, request).inUse, k) == SatSub(Get(n.inUse, k), Get(request, k))
  {
  }

  lemma GrowKeeps(n: Node, m: Node, d: nat, k: ResourceKind)
    requires m.shared == n.shared && m.total == n.total
    requires Live(m, k) == Live(n, k) + d
    requires Within(n, k) ==> Get(m.inUse, k) == Get(n.inUse, k) + d <= Get(n.shared, k)
    ensures KeepsAt(n, m, k)
  {
  }

  lemma ShrinkKeeps(n: Node, m: Node, d: u64, k: ResourceKind)
    requires m.shared == n.shared && m.total == n.total
    requires Live(n, k) == Live(m, k) + d && Get(m.inUse, k) == SatSub(Get(n.inUse, k), d)
    ensures KeepsAt(n, m, k)
  {
  }

  lemma StartedAt(n: Node, owner: string, vm: Vm, k: ResourceKind)
    requires owner !in n.vms && Free(n, vm.share)
    ensures KeepsAt(n, Reserved(n, vm.share).(vms := n.vms[owner := vm]), k)
  {
    if Within(n, k) {
      ReserveAt(n, vm.share, k);
    }
    VmAdded(n.vms, owner, vm, k);
    GrowKeeps(n, Reserved(n, vm.share).(vms := n.vms[owner := vm]), Get(vm.share, k), k);
  }

  lemma RolledBackAt(n: Node, request: ResourceVector, k: ResourceKind)
    requires Free(n, request)
    ensures KeepsAt(n, Released(Reserved(n, request), request), k)
  {
    if Within(n, k) {
      ReserveAt(n, request, k);
    }
    GrowKeeps(n, Released(Reserved(n, request), request), 0, k);
  }

  lemma StartAt(n: Node, owner: string, vm: Vm, paid: bool, docker: bool, up: bool, k: ResourceKind)
    ensures KeepsAt(n, AfterStart(n, owner, vm, paid, docker, up), k)
  {
    if owner !in n.vms && Free(n, vm.share) {
      StartedAt(n, owner, vm, k);
      RolledBackAt(n, vm.share, k);
    }
  }

  lemma StopAt(n: Node, owner: string, k: ResourceKind)
    ensures KeepsAt(n, AfterStop(n, owner), k)
  {
    if owner in n.vms {
      VmRemoved(n.vms, owner, k);
      ReleaseAt(n, n.vms[owner].share, k);
      ShrinkKeeps(n, AfterStop(n, owner), Get(n.vms[owner].share, k), k);
    } else {
      ReleaseAt(n, map[], k);
      ShrinkKeeps(n, AfterStop(n, owner), 0, k);
    }
  }

  lemma BeginAt(n: Node, request: ResourceVector, k: ResourceKind)
    requires Callable(n)
    ensures KeepsAt(n, AfterBegin(n, request), k)
  {
    if Within(n, k) && Free(n, request) {
      ReserveAt(n, request, k);
      TotalWith(n.running, n.calls, request, k);
    }
  }

  lemma EndAt(n: Node, call: nat, k: ResourceKind)
    ensures KeepsAt(n, AfterEnd(n, call), k)
  {
    if call in n.running {
      TotalWithout(n.running, call, k);
      ReleaseAt(n, n.running[call], k);
      ShrinkKeeps(n, AfterEnd(n, call), Get(n.running[call], k), k);
    }
  }

  // ------------------------------------------------------------------ safety over runs

  ghost predicate Keeps(n: Node, m: Node) {
    (Conserved(n) ==> Conserved(m)) && (Undercounted(n) ==> Undercounted(m))
  }

  lemma KeepsAll(n: Node, m: Node)
    requires Callable(n) ==> Callable(m)
    requires Callable(n) ==> forall k :: KeepsAt(n, m, k)
    ensures Keeps(n, m)
  {
    if Conserved(n) {
      forall k ensures ExactAt(m, k) {
        assert KeepsAt(n, m, k);
      }
    }
    if Undercounted(n) {
      forall k ensures AtMostAt(m, k) {
        assert KeepsAt(n, m, k);
      }
    }
  }

  lemma StopKeeps(n: Node, owner: string)
    ensures Keeps(n, AfterStop(n, owner))
  {
    forall k ensures KeepsAt(n, AfterStop(n, owner), k) {
      StopAt(n, owner, k);
    }
    KeepsAll(n, AfterStop(n, owner));
  }

  lemma {:induction false} StopAllKeeps(n: Node, owners: seq<string>)
    ensures Keeps(n, AfterStopAll(n, owners))
    decreases |owners|
  {
    if owners != [] {
      StopKeeps(n, owners[0]);
      StopAllKeeps(AfterStop(n, owners[0]), owners[1..]);
    }
  }

  lemma StartKeeps(n: Node, owner: string, vm: Vm, paid: bool, docker: bool, up: bool)
    ensures Keeps(n, AfterStart(n, owner, vm, paid, docker, up))
  {
    var m := AfterStart(n, owner, vm, paid, docker, up);
    forall k ensures KeepsAt(n, m, k) {
      StartAt(n, owner, vm, paid, docker, up, k);
    }
    KeepsAll(n, m);
  }

  /** Free means: with what is in use, the request fits what is shared, for every kind. */
  lemma FreeExactly(n: Node, request: ResourceVector)
    requires forall k :: Within(n, k)
    ensures Free(n, request) <==> forall k :: Get(n.inUse, k) + Get(request, k) <= Get(n.shared, k)
  {
    var left := Minus(n.shared, n.inUse);
    forall k ensures Get(left, k) == Get(n.shared, k) - Get(n.inUse, k) {
      assert Within(n, k);
    }
    if Free(n, request) {
      forall k ensures Get(n.inUse, k) + Get(request, k) <= Get(n.shared, k) {
        assert Get(left, k) >= Get(request, k);
      }
    }
    if forall k :: Get(n.inUse, k) + Get(request, k) <= Get(n.shared, k) {
      forall k | k in request ensures Get(left, k) >= request[k] {
        assert Get(n.inUse, k) + Get(request, k) <= Get(n.shared, k);
      }
    }
  }

  /** A machine is added exactly when its owner had none, the request was paid for, there is a
      container runtime, the share was free and the container came up; then the share is in use,
      and otherwise the account is what it was. No other machine is touched. */
  lemma StartExactly(n: Node, owner: string, vm: Vm, paid: bool, docker: bool, up: bool, k: ResourceKind)
    requires Within(n, k)
    ensures var m, added := AfterStart(n, owner, vm, paid, docker, up),
        owner !in n.vms && paid && docker && Free(n, vm.share) && up;
      && m.vms == (if added then n.vms[owner := vm] else n.vms)
      && Get(m.inUse, k) == Get(n.inUse, k) + (if added then Get(vm.share, k) else 0)
      && m.running == n.running && m.calls == n.calls && m.shared == n.shared && m.total == n.total
  {
    if Free(n, vm.share) {
      ReserveAt(n, vm.share, k);
    }
  }

  /** A workload call starts exactly when its request is free; then the request is in use and held
      under a new call number, and otherwise nothing changes. */
  lemma BeginExactly(n: Node, request: ResourceVector, k: ResourceKind)
    requires Within(n, k) && Callable(n)
    ensures var m := AfterBegin(n, request);
      && (Free(n, request) <==> n.calls in m.running)
      && (Free(n, request) ==> m.running == n.running[n.calls := request])
      && (!Free(n, request) ==> m == n)
      && Get(m.inUse, k) == Get(n.inUse, k) + (if Free(n, request) then Get(request, k) else 0)
      && m.vms == n.vms
  {
    if Free(n, request) {
      ReserveAt(n, request, k);
    }
  }

  lemma BeginKeeps(n: Node, request: ResourceVector)
    ensures Keeps(n, AfterBegin(n, request))
  {
    var m := AfterBegin(n, request);
    if Callable(n) {
      forall k ensures KeepsAt(n, m, k) {
        BeginAt(n, request, k);
      }
    }
    KeepsAll(n, m);
  }

  lemma EndKeeps(n: Node, call: nat)
    ensures Keeps(n, AfterEnd(n, call))
  {
    forall k ensures KeepsAt(n, AfterEnd(n, call), k) {
      EndAt(n, call, k);
    }
    KeepsAll(n, AfterEnd(n, call));
  }

  lemma StepKeeps(n: Node, step: Step)
    ensures Keeps(n, Apply(n, step))
  {
    match step
    case Start(owner, vm, paid, docker, up) => StartKeeps(n, owner, vm, paid, docker, up);
    case Stop(owner) => StopKeeps(n, owner);
    case Reap(_, expired) => StopAllKeeps(n, expired);
    case Begin(request) => BeginKeeps(n, request);
    case End(call) => EndKeeps(n, call);
  }

  /** Over every run, the amount in use stays equal to (or, after an incomplete restart, at
      most) the live reservations and within what the provider shares. */
  lemma {:induction false} RunKeeps(n: Node, steps: seq<Step>)
    ensures Keeps(n, Run(n, steps))
    decreases |steps|
  {
    if steps != [] {
      StepKeeps(n, steps[0]);
      RunKeeps(Apply(n, steps[0]), steps[1..]);
    }
  }

  /** A freshly declared node starts with an exact account, so every run from it keeps one. */
  lemma DeclaredRunsConserve(total: ResourceVector, shared: ResourceVector, steps: seq<Step>)
    requires forall k :: Get(shared, k) <= Get(total, k)
    ensures Conserved(Run(Node(total, shared, map[], map[], map[], 0), steps))
  {
    var n := Node(total, shared, map[], map[], map[], 0);
    forall k ensures ExactAt(n, k) {
      assert VmHoldings(n.vms) == map[];
      assert Get(shared, k) <= Get(total, k);
    }
    RunKeeps(n, steps);
  }

  /** A run that leaves nothing live has returned everything. */
  lemma DrainReturnsAll(n: Node, steps: seq<Step>, k: ResourceKind)
    requires Undercounted(n)
    requires Run(n, steps).vms == map[] && Run(n, steps).running == map[]
    ensures Get(Run(n, steps).inUse, k) == 0
  {
    RunKeeps(n, steps);
    var m := Run(n, steps);
    assert VmHoldings(m.vms) == map[];
    assert AtMostAt(m, k);
  }

  /** No subtraction saturates on the exact account: stopping gives back the whole reservation. */
  lemma StopReturnsReservation(n: Node, owner: string, k: ResourceKind)
    requires Conserved(n) && owner in n.vms
    ensures Get(AfterStop(n, owner).inUse, k) == Get(n.inUse, k) - Get(n.vms[owner].share, k)
  {
    assert ExactAt(n, k);
    VmRemoved(n.vms, owner, k);
    ReleaseAt(n, n.vms[owner].share, k);
  }

  lemma EndReturnsReservation(n: Node, call: nat, k: ResourceKind)
    requires Conserved(n) && call in n.running
    ensures Get(AfterEnd(n, call).inUse, k) == Get(n.inUse, k) - Get(n.running[call], k)
  {
    assert ExactAt(n, k);
    TotalWithout(n.running, call, k);
    ReleaseAt(n, n.running[call], k);
  }

  // ------------------------------------------------------------------ restart

  /** A managed container found after a restart, with the reservation its labels record. */
  datatype Container = Container(owner: string, vm: Vm)

  /** The reservation is best effort; the machine is adopted either way. */
  function Adopt(n: Node, c: Container): Node {
    (if Free(n, c.vm.share) then Reserved(n, c.vm.share) else n).(vms := n.vms[c.owner := c.vm])
  }

  /** One line of the container listing: how many fields it has, the parsed label values, whether
      the container runs, and whether it would come up when started. */
  datatype Listed = Listed(fields: nat, owner: string, running: bool, revives: bool,
    cpu: Option<u64>, memory: Option<u64>, gpu: bool,
    rate: Option<u64>, budget: Option<u64>, created: Option<int>)

  predicate Adoptable(l: Listed) {
    l.fields >= 9 && l.owner != "" && (l.running || l.revives)
  }

  function LabelledShare(l: Listed): ResourceVector {
    var a: ResourceVector := if l.cpu.Some? && l.cpu.value > 0 then map[Cpu := l.cpu.value] else map[];
    var b := if l.memory.Some? && l.memory.value > 0 then a[Memory := l.memory.value] else a;
    if l.gpu then b[Gpu := 1] else b
  }

  /** Missing lease labels leave the machine unmetered and its start unknown. */
  function LabelledLease(l: Listed, now: int): Lease {
    Lease(if l.created.Some? then l.created.value else now,
          if l.rate.Some? then l.rate.value else 0,
          if l.budget.Some? then l.budget.value else 0)
  }

  function ContainerOf(l: Listed, now: int): Container {
    Container(l.owner, Vm(LabelledShare(l), LabelledLease(l, now)))
  }

  /** What a listed line is adopted as: a missing quantity is none of it, a missing rate or budget
      leaves the machine unmetered, and a missing start counts from now. */
  lemma LabelsRead(l: Listed, now: int, k: ResourceKind)
    ensures var c := ContainerOf(l, now);
      && c.owner == l.owner
      && (l.created.Some? ==> c.vm.lease.created == l.created.value) && (l.created.None? ==> c.vm.lease.created == now)
      && (l.rate.Some? ==> c.vm.lease.rate == l.rate.value) && (l.budget.Some? ==> c.vm.lease.budget == l.budget.value)
      && (l.rate.None? || l.budget.None? ==> !Metered(c.vm.lease))
      && (l.cpu.Some? ==> Get(c.vm.share, Cpu) == l.cpu.value)
      && (l.cpu.None? ==> Get(c.vm.share, Cpu) == 0)
      && (l.memory.Some? ==> Get(c.vm.share, Memory) == l.memory.value)
      && (l.memory.None? ==> Get(c.vm.share, Memory) == 0)
      && Get(c.vm.share, Gpu) == (if l.gpu then 1 else 0)
      && (k != Cpu && k != Memory && k != Gpu ==> Get(c.vm.share, k) == 0)
  {
  }

  /** The container line that a start leaves behind: the labels it writes, with the time on them. */
  function LabelsOf(owner: string, vm: Vm, written: int, running: bool, revives: bool): Listed {
    Listed(12, owner, running, revives, Some(Get(vm.share, Cpu)), Some(Get(vm.share, Memory)), Get(vm.share, Gpu) > 0,
           Some(vm.lease.rate), Some(vm.lease.budget), Some(written))
  }

  /** What the labels hold of a share. */
  function Kept(share: ResourceVector, k: ResourceKind): u64 {
    if k == Cpu || k == Memory then Get(share, k) else if k == Gpu && Get(share, Gpu) > 0 then 1 else 0
  }

  /** What a restart reads back from the labels of a start: the lease with the time of the labels,
      processors and memory as they were, one GPU if there were any, and nothing of other kinds. */
  lemma RestartReads(owner: string, vm: Vm, written: int, running: bool, revives: bool, now: int)
    ensures var c := ContainerOf(LabelsOf(owner, vm, written, running, revives), now);
      && c.owner == owner && c.vm.lease == Lease(written, vm.lease.rate, vm.lease.budget)
      && (forall k :: Get(c.vm.share, k) == Kept(vm.share, k))
  {
  }

  /** A restart reserves for a machine what it held if and only if it held at most one GPU and
      nothing but processors, memory and the GPU. */
  lemma RestartReservesExactly(owner: string, vm: Vm, written: int, running: bool, revives: bool, now: int)
    ensures var share := ContainerOf(LabelsOf(owner, vm, written, running, revives), now).vm.share;
      (forall k :: Get(share, k) == Get(vm.share, k)) <==>
        Get(vm.share, Gpu) <= 1 && forall k :: Get(vm.share, k) > 0 ==> k == Cpu || k == Memory || k == Gpu
  {
    var share := ContainerOf(LabelsOf(owner, vm, written, running, revives), now).vm.share;
    RestartReads(owner, vm, written, running, revives, now);
    if forall k :: Get(share, k) == Get(vm.share, k) {
      assert Get(share, Gpu) == Get(vm.share, Gpu);
      forall k | Get(vm.share, k) > 0 ensures k == Cpu || k == Memory || k == Gpu {
        assert Get(share, k) == Get(vm.share, k);
      }
    }
  }

  /** The containers adopted from a listing, in its order. */
  function Containers(listing: seq<Listed>, now: int): seq<Container> {
    if listing == [] then []
    else (if Adoptable(listing[0]) then [ContainerOf(listing[0], now)] else []) + Containers(listing[1..], now)
  }

  /** The adopted containers are, in the order of the listing, those of the lines with at least nine
      fields and an owner whose container runs or comes up. */
  lemma {:induction false} ContainersAppend(a: seq<Listed>, l: Listed, now: int)
    ensures Containers([], now) == []
    ensures Containers(a + [l], now) == Containers(a, now)
      + if l.fields >= 9 && |l.owner| > 0 && (l.running || l.revives) then [ContainerOf(l, now)] else []
  {
    if a == [] {
      assert a + [l] == [l] && [l][1..] == [];
    } else {
      Seqs.TailAppend(a, [l]);
      ContainersAppend(a[1..], l, now);
      Seqs.Assoc(if Adoptable(a[0]) then [ContainerOf(a[0], now)] else [], Containers(a[1..], now),
                 if Adoptable(l) then [ContainerOf(l, now)] else []);
    }
  }

  function AfterReconcile(n: Node, cs: seq<Container>): Node
    decreases |cs|
  {
    if cs == [] then n else AfterReconcile(Adopt(n, cs[0]), cs[1..])
  }

  ghost function Demand(cs: seq<Container>, k: ResourceKind): nat {
    if cs == [] then 0 else Get(cs[0].vm.share, k) + Demand(cs[1..], k)
  }

  /** Container names are a function of the owner and unique, so owners do not repeat. */
  ghost predicate NewOwners(n: Node, cs: seq<Container>) {
    && (forall i :: 0 <= i < |cs| ==> cs[i].owner !in n.vms)
    && (forall i, j :: 0 <= i < j < |cs| ==> cs[i].owner != cs[j].owner)
  }

  lemma NewOwnersTail(n: Node, cs: seq<Container>)
    requires NewOwners(n, cs) && cs != []
    ensures NewOwners(Adopt(n, cs[0]), cs[1..])
  {
    var m := Adopt(n, cs[0]);
    forall i | 0 <= i < |cs[1..]| ensures cs[1..][i].owner !in m.vms {
      assert cs[1..][i] == cs[i + 1];
    }
  }

  lemma AdoptLive(n: Node, c: Container, k: ResourceKind)
    requires c.owner !in n.vms
    ensures Live(Adopt(n, c), k) == Live(n, k) + Get(c.vm.share, k)
  {
    VmAdded(n.vms, c.owner, c.vm, k);
  }

  lemma AdoptAt(n: Node, c: Container, k: ResourceKind)
    requires c.owner !in n.vms
    ensures var m := Adopt(n, c);
      && Live(m, k) == Live(n, k) + Get(c.vm.share, k)
      && (AtMostAt(n, k) ==> AtMostAt(m, k))
      && (ExactAt(n, k) && Free(n, c.vm.share) ==> ExactAt(m, k) && Get(m.inUse, k) == Get(n.inUse, k) + Get(c.vm.share, k))
  {
    AdoptLive(n, c, k);
    if Within(n, k) {
      AdoptCounts(n, c, k);
    }
  }

  /** Whatever could not be re-reserved, the amount in use stays at most what is live. */
  lemma {:induction false} ReconcileUndercounts(n: Node, cs: seq<Container>)
    requires Undercounted(n) && NewOwners(n, cs)
    ensures Undercounted(AfterReconcile(n, cs))
    ensures forall k :: Live(AfterReconcile(n, cs), k) == Live(n, k) + Demand(cs, k)
    decreases |cs|
  {
    if cs != [] {
      var m := Adopt(n, cs[0]);
      forall k ensures AtMostAt(m, k) && Live(m, k) == Live(n, k) + Get(cs[0].vm.share, k) {
        AdoptAt(n, cs[0], k);
        assert AtMostAt(n, k);
      }
      NewOwnersTail(n, cs);
      ReconcileUndercounts(m, cs[1..]);
    }
  }

  ghost predicate DemandFits(n: Node, cs: seq<Container>, k: ResourceKind) {
    Get(n.inUse, k) + Demand(cs, k) <= Get(n.shared, k)
  }

  lemma {:induction false} ReconcileFits(n: Node, cs: seq<Container>)
    requires Conserved(n) && NewOwners(n, cs)
    requires forall k :: DemandFits(n, cs, k)
    ensures Conserved(AfterReconcile(n, cs))
    decreases |cs|
  {
    if cs != [] {
      var m := Adopt(n, cs[0]);
      forall k | k in cs[0].vm.share ensures Get(Minus(n.shared, n.inUse), k) >= cs[0].vm.share[k] {
        assert DemandFits(n, cs, k) && ExactAt(n, k);
      }
      forall k ensures ExactAt(m, k) && DemandFits(m, cs[1..], k) {
        assert DemandFits(n, cs, k) && ExactAt(n, k);
        AdoptAt(n, cs[0], k);
      }
      NewOwnersTail(n, cs);
      ReconcileFits(m, cs[1..]);
    }
  }

  lemma {:induction false} ReconcileKeepsShared(n: Node, cs: seq<Container>)
    ensures AfterReconcile(n, cs).shared == n.shared
    decreases |cs|
  {
    if cs != [] {
      ReconcileKeepsShared(Adopt(n, cs[0]), cs[1..]);
    }
  }

  /** A restart leaves an exact account if and only if all adopted machines together fit what
      is shared. */
  lemma ReconcileExact(n: Node, cs: seq<Container>)
    requires Conserved(n) && NewOwners(n, cs)
    ensures Conserved(AfterReconcile(n, cs)) <==> forall k :: DemandFits(n, cs, k)
  {
    if forall k :: DemandFits(n, cs, k) {
      ReconcileFits(n, cs);
    }
    if Conserved(AfterReconcile(n, cs)) {
      forall k ensures AtMostAt(n, k) {
        assert ExactAt(n, k);
      }
      ReconcileUndercounts(n, cs);
      ReconcileKeepsShared(n, cs);
      forall k ensures DemandFits(n, cs, k) {
        assert ExactAt(n, k) && ExactAt(AfterReconcile(n, cs), k);
      }
    }
  }

  const UNPAID := Lease(0, 0, 0)

  lemma OneVm(owner: string, vm: Vm, k: ResourceKind)
    ensures Total(VmHoldings(map[owner := vm]), k) == Get(vm.share, k)
  {
    VmAdded(map[], owner, vm, k);
    assert VmHoldings(map[]) == map[];
    assert map[][owner := vm] == map[owner := vm];
  }

  lemma ReconcileTwo(n: Node, a: Container, b: Container)
    ensures AfterReconcile(n, [a, b]) == Adopt(Adopt(n, a), b)
  {
    assert [a, b][1..] == [b] && [b][1..] == [];
    assert AfterReconcile(Adopt(n, a), [b]) == AfterReconcile(Adopt(Adopt(n, a), b), []);
  }

  /** What the account of one kind has beyond the live holdings. */
  ghost function Surplus(n: Node, k: ResourceKind): int {
    Get(n.inUse, k) - Live(n, k)
  }

  lemma VmReplaced(vms: map<string, Vm>, owner: string, vm: Vm, k: ResourceKind)
    requires owner in vms
    ensures Total(VmHoldings(vms[owner := vm]), k) ==
      Total(VmHoldings(vms), k) - Get(vms[owner].share, k) + Get(vm.share, k)
  {
    var bare := vms - {owner};
    VmRemoved(vms, owner, k);
    VmAdded(bare, owner, vm, k);
    assert bare[owner := vm] == vms[owner := vm];
  }

  lemma StopKeepsSurplus(n: Node, owner: string, k: ResourceKind)
    requires owner in n.vms && Get(n.inUse, k) >= Get(n.vms[owner].share, k)
    ensures Surplus(AfterStop(n, owner), k) == Surplus(n, k)
  {
    VmRemoved(n.vms, owner, k);
    ReleaseAt(n, n.vms[owner].share, k);
  }

  lemma ReplaceSurplus(n: Node, c: Container, k: ResourceKind)
    requires c.owner in n.vms && Free(n, c.vm.share) && Within(n, k)
    ensures Surplus(Adopt(n, c), k) == Surplus(n, k) + Get(n.vms[c.owner].share, k)
    ensures Get(c.vm.share, k) <= Get(Adopt(n, c).inUse, k) && Within(Adopt(n, c), k)
  {
    VmReplaced(n.vms, c.owner, c.vm, k);
    ReserveAt(n, c.vm.share, k);
  }

  /** Adopting an owner a second time overwrites the record of the first machine, and that
      machine's share is never returned: the account stays exact if and only if the share was
      empty, and after the owner is stopped the lost share is still in use. */
  lemma RepeatedOwnerLeaks(n: Node, c: Container, k: ResourceKind)
    requires Conserved(n) && c.owner in n.vms && Free(n, c.vm.share)
    ensures Surplus(Adopt(n, c), k) == Get(n.vms[c.owner].share, k)
    ensures ExactAt(Adopt(n, c), k) <==> Get(n.vms[c.owner].share, k) == 0
    ensures Surplus(AfterStop(Adopt(n, c), c.owner), k) == Get(n.vms[c.owner].share, k)
  {
    assert ExactAt(n, k);
    ReplaceSurplus(n, c, k);
    StopKeepsSurplus(Adopt(n, c), c.owner, k);
  }

  /** Two containers of one owner on a fresh node: two of four processors are lost. */
  lemma RepeatedOwnerInstance()
    ensures var n := Node(map[Cpu := 4], map[Cpu := 4], map[], map[], map[], 0);
      var c := Container("a", Vm(map[Cpu := 2], UNPAID));
      Conserved(n) && Get(AfterStop(AfterReconcile(n, [c, c]), "a").inUse, Cpu) == 2
        && AfterStop(AfterReconcile(n, [c, c]), "a").vms == map[]
  {
    var n := Node(map[Cpu := 4], map[Cpu := 4], map[], map[], map[], 0);
    var c := Container("a", Vm(map[Cpu := 2], UNPAID));
    forall k ensures ExactAt(n, k) {
      assert VmHoldings(n.vms) == map[];
    }
    var m := Adopt(n, c);
    assert Get(m.inUse, Cpu) == 2 && Get(Adopt(m, c).inUse, Cpu) == 4;
    ReconcileTwo(n, c, c);
  }

  // ------------------------------------------------------------------ who was counted

  /** Whether the share of container `i` was free at its turn, so that it was reserved. */
  predicate Counted(n: Node, cs: seq<Container>, i: nat)
    requires i < |cs|
    decreases |cs|
  {
    if i == 0 then Free(n, cs[0].vm.share) else Counted(Adopt(n, cs[0]), cs[1..], i - 1)
  }

  function CountedShare(n: Node, c: Container, k: ResourceKind): nat {
    if Free(n, c.vm.share) then Get(c.vm.share, k) else 0
  }

  function CountedSum(n: Node, cs: seq<Container>, k: ResourceKind): nat
    decreases |cs|
  {
    if cs == [] then 0 else CountedShare(n, cs[0], k) + CountedSum(Adopt(n, cs[0]), cs[1..], k)
  }

  /** The counted shares of all containers but `i`. */
  function CountedBut(n: Node, cs: seq<Container>, i: nat, k: ResourceKind): nat
    requires i < |cs|
    decreases |cs|
  {
    if i == 0 then CountedSum(Adopt(n, cs[0]), cs[1..], k)
    else CountedShare(n, cs[0], k) + CountedBut(Adopt(n, cs[0]), cs[1..], i - 1, k)
  }

  lemma AdoptCounts(n: Node, c: Container, k: ResourceKind)
    requires Within(n, k)
    ensures Within(Adopt(n, c), k) && Get(Adopt(n, c).inUse, k) == Get(n.inUse, k) + CountedShare(n, c, k)
  {
    if Free(n, c.vm.share) {
      ReserveAt(n, c.vm.share, k);
    }
  }

  /** After a restart exactly the counted shares have been added to the account. */
  lemma {:induction false} ReconcileCounts(n: Node, cs: seq<Container>, k: ResourceKind)
    requires Within(n, k)
    ensures Within(AfterReconcile(n, cs), k)
    ensures Get(AfterReconcile(n, cs).inUse, k) == Get(n.inUse, k) + CountedSum(n, cs, k)
    decreases |cs|
  {
    if cs != [] {
      AdoptCounts(n, cs[0], k);
      ReconcileCounts(Adopt(n, cs[0]), cs[1..], k);
    }
  }

  lemma {:induction false} CountedSplits(n: Node, cs: seq<Container>, i: nat, k: ResourceKind)
    requires i < |cs|
    ensures CountedSum(n, cs, k) == CountedBut(n, cs, i, k) + if Counted(n, cs, i) then Get(cs[i].vm.share, k) else 0
    decreases |cs|
  {
    if i > 0 {
      CountedSplits(Adopt(n, cs[0]), cs[1..], i - 1, k);
    }
  }

  lemma {:induction false} OwnerKept(n: Node, cs: seq<Container>, o: string)
    requires o in n.vms && forall i :: 0 <= i < |cs| ==> cs[i].owner != o
    ensures o in AfterReconcile(n, cs).vms && AfterReconcile(n, cs).vms[o] == n.vms[o]
    decreases |cs|
  {
    if cs != [] {
      OwnerKept(Adopt(n, cs[0]), cs[1..], o);
    }
  }

  lemma {:induction false} OwnerAdopted(n: Node, cs: seq<Container>, i: nat)
    requires i < |cs| && NewOwners(n, cs)
    ensures cs[i].owner in AfterReconcile(n, cs).vms && AfterReconcile(n, cs).vms[cs[i].owner] == cs[i].vm
    decreases |cs|
  {
    if i == 0 {
      OwnerKept(Adopt(n, cs[0]), cs[1..], cs[0].owner);
    } else {
      NewOwnersTail(n, cs);
      OwnerAdopted(Adopt(n, cs[0]), cs[1..], i - 1);
    }
  }

  /** What was in use before the restart and what the other counted containers hold. */
  function OthersHold(n: Node, cs: seq<Container>, i: nat, k: ResourceKind): nat
    requires i < |cs|
  {
    Get(n.inUse, k) + CountedBut(n, cs, i, k)
  }

  /** Stopping an adopted machine leaves exactly what the others hold when it was counted, and
      that less its share when it was not. */
  lemma StopLeaves(n: Node, cs: seq<Container>, i: nat, k: ResourceKind)
    requires Within(n, k) && i < |cs| && NewOwners(n, cs)
    ensures var m := AfterStop(AfterReconcile(n, cs), cs[i].owner);
      && Get(m.inUse, k) ==
        (if Counted(n, cs, i) then OthersHold(n, cs, i, k)
         else if OthersHold(n, cs, i, k) >= Get(cs[i].vm.share, k) then OthersHold(n, cs, i, k) - Get(cs[i].vm.share, k)
         else 0)
      && Within(m, k)
  {
    ReconcileCounts(n, cs, k);
    CountedSplits(n, cs, i, k);
    OwnerAdopted(n, cs, i);
    ReleaseAt(AfterReconcile(n, cs), cs[i].vm.share, k);
  }

  /** What is free and what others hold fit together in what is shared. */
  predicate NoOvercommit(m: Node, k: ResourceKind, held: nat) {
    Get(Minus(m.shared, m.inUse), k) + held <= Get(m.shared, k)
  }

  lemma StopSafeAt(n: Node, cs: seq<Container>, i: nat, k: ResourceKind)
    requires Within(n, k) && i < |cs| && NewOwners(n, cs)
    ensures NoOvercommit(AfterStop(AfterReconcile(n, cs), cs[i].owner), k, OthersHold(n, cs, i, k)) <==>
      Counted(n, cs, i) || Get(cs[i].vm.share, k) == 0 || OthersHold(n, cs, i, k) == 0
  {
    StopLeaves(n, cs, i, k);
  }

  /** Stopping an adopted machine never frees what another one holds if and only if its own share
      was reserved at the restart, or it takes nothing of any kind the others still hold. */
  lemma StopSafeExactly(n: Node, cs: seq<Container>, i: nat)
    requires (forall k :: Within(n, k)) && i < |cs| && NewOwners(n, cs)
    ensures (forall k :: NoOvercommit(AfterStop(AfterReconcile(n, cs), cs[i].owner), k, OthersHold(n, cs, i, k)))
      <==> Counted(n, cs, i) || forall k :: Get(cs[i].vm.share, k) == 0 || OthersHold(n, cs, i, k) == 0
  {
    var m := AfterStop(AfterReconcile(n, cs), cs[i].owner);
    forall k
      ensures NoOvercommit(m, k, OthersHold(n, cs, i, k)) <==>
        Counted(n, cs, i) || Get(cs[i].vm.share, k) == 0 || OthersHold(n, cs, i, k) == 0
    {
      StopSafeAt(n, cs, i, k);
    }
  }

  /** An instance: an uncounted machine returns, when stopped, what was never reserved, and the
      shared amount is free although the other machine still holds it. */
  lemma UncountedStopOvercommits()
    ensures var n := Node(map[Cpu := 2], map[Cpu := 2], map[], map[], map[], 0);
      var vm := Vm(map[Cpu := 2], UNPAID);
      var m := AfterStop(AfterReconcile(n, [Container("a", vm), Container("b", vm)]), "b");
      Live(m, Cpu) == 2 && Get(Minus(m.shared, m.inUse), Cpu) == 2
  {
    var n := Node(map[Cpu := 2], map[Cpu := 2], map[], map[], map[], 0);
    var vm := Vm(map[Cpu := 2], UNPAID);
    ReconcileTwo(n, Container("a", vm), Container("b", vm));
    var m := Adopt(n, Container("a", vm));
    assert Get(m.inUse, Cpu) == 2 && !Free(m, vm.share);
    var p := Adopt(m, Container("b", vm));
    assert p.inUse == m.inUse && p.vms == map["a" := vm, "b" := vm];
    var q := AfterStop(p, "b");
    assert Get(q.inUse, Cpu) == 0;
    assert q.vms == map["a" := vm] by {
      assert "a" != "b";
    }
    OneVm("a", vm, Cpu);
  }

  // ------------------------------------------------------------------ the service

  datatype StartOutcome =
    | Ready(vm: Vm)
    | PaymentRequired
    | NoRuntime
    | Short(error: ResourceError)
    | ContainerFailed

  lemma {:induction false} StopAllVms(n: Node, owners: seq<string>)
    ensures AfterStopAll(n, owners).vms == n.vms - set o | o in owners
    ensures AfterStopAll(n, owners).running == n.running
    decreases |owners|
  {
    if owners != [] {
      StopAllVms(AfterStop(n, owners[0]), owners[1..]);
      assert (set o | o in owners) == {owners[0]} + (set o | o in owners[1..]);
    }
  }

  class NodeService {
    const resources: Resources
    var vms: map<string, Vm>
    var running: map<nat, ResourceVector>
    var calls: nat

    function State(): Node
      reads this, resources
    {
      Node(resources.total, resources.shared, resources.inUse, vms, running, calls)
    }

    constructor (resources: Resources)
      ensures this.resources == resources
      ensures State() == Node(resources.total, resources.shared, resources.inUse, map[], map[], 0)
    {
      this.resources, vms, running, calls := resources, map[], map[], 0;
    }

    /** `share` is what the request needs; the other arguments are the answers of the payment
        gate, of the container check and of the container start. */
    method StartVm(owner: string, share: ResourceVector, lease: Lease, paid: bool, docker: bool, up: bool)
      returns (r: StartOutcome)
      modifies this, resources
      ensures State() == AfterStart(old(State()), owner, Vm(share, lease), paid, docker, up)
      ensures owner in old(vms) ==> r == Ready(old(vms)[owner]) && State() == old(State())
      ensures owner !in old(vms) ==>
        && (r.PaymentRequired? <==> !paid)
        && (r.NoRuntime? <==> paid && !docker)
        && (r.Short? <==> paid && docker && !Free(old(State()), share))
        && (r.ContainerFailed? <==> paid && docker && Free(old(State()), share) && !up)
        && (r.Ready? <==> paid && docker && Free(old(State()), share) && up)
        && (r.Ready? ==> r == Ready(Vm(share, lease)))
        && (r.Short? ==> exists k ::
          && FirstShort(Minus(resources.shared, old(resources.inUse)), share, k)
          && r.error == Insufficient(k, share[k], Get(Minus(resources.shared, old(resources.inUse)), k)))
    {
      if owner in vms {
        return Ready(vms[owner]);
      }
      if !paid {
        return PaymentRequired;
      }
      if !docker {
        return NoRuntime;
      }
      var reserved := resources.Allocate(share);
      if reserved.Err? {
        return Short(reserved.error);
      }
      if !up {
        resources.Release(share);
        return ContainerFailed;
      }
      vms := vms[owner := Vm(share, lease)];
      return Ready(vms[owner]);
    }

    method StopVm(owner: string)
      modifies this, resources
      ensures State() == AfterStop(old(State()), owner)
    {
      var released: ResourceVector := map[];
      if owner in vms {
        released := vms[owner].share;
        vms := vms - {owner};
      }
      resources.Release(released);
    }

    method Spent(now: int) returns (expired: seq<string>)
      ensures Seqs.Distinct(expired)
      ensures forall o :: o in expired <==> o in vms && Exhausted(vms[o].lease, now)
    {
      expired := [];
      var left := vms.Keys;
      while left != {}
        invariant left <= vms.Keys && Seqs.Distinct(expired)
        invariant forall o :: o in expired <==> o in vms && o !in left && Exhausted(vms[o].lease, now)
      {
        var o :| o in left;
        left := left - {o};
        if Exhausted(vms[o].lease, now) {
          expired := expired + [o];
        }
      }
    }

    /** Stops the spent machines and no others; an unmetered one is never spent. */
    method ReapExpired(now: int) returns (expired: seq<string>)
      modifies this, resources
      ensures State() == Apply(old(State()), Reap(now, expired))
      ensures forall o :: o in expired <==> o in old(vms) && Exhausted(old(vms)[o].lease, now)
      ensures vms == map o | o in old(vms) && !Exhausted(old(vms)[o].lease, now) :: old(vms)[o]
    {
      expired := Spent(now);
      var i := 0;
      while i < |expired|
        invariant 0 <= i <= |expired|
        invariant AfterStopAll(State(), expired[i..]) == AfterStopAll(old(State()), expired)
      {
        StopVm(expired[i]);
        i := i + 1;
      }
      StopAllVms(old(State()), expired);
    }

    method BeginWorkload(request: ResourceVector) returns (r: Result<nat, ResourceError>)
      modifies this, resources
      ensures State() == AfterBegin(old(State()), request)
      ensures r.Ok? <==> Free(old(State()), request)
      ensures r.Ok? ==> r.value == old(calls)
    {
      var reserved := resources.Allocate(request);
      if reserved.Err? {
        return Err(reserved.error);
      }
      running, calls := running[calls := request], calls + 1;
      return Ok(calls - 1);
    }

    /** The release at the end of a workload call, whatever its execution returned. */
    method EndWorkload(call: nat)
      requires call in running
      modifies this, resources
      ensures State() == AfterEnd(old(State()), call)
    {
      var request := running[call];
      running := running - {call};
      resources.Release(request);
    }

    method Reconcile(listing: seq<Listed>, now: int) returns (adopted: nat)
      modifies this, resources
      ensures State() == AfterReconcile(old(State()), Containers(listing, now))
      ensures adopted == |Containers(listing, now)|
    {
      adopted := 0;
      var i := 0;
      while i < |listing|
        invariant 0 <= i <= |listing|
        invariant adopted + |Containers(listing[i..], now)| == |Containers(listing, now)|
        invariant AfterReconcile(State(), Containers(listing[i..], now)) == AfterReconcile(old(State()), Containers(listing, now))
      {
        var l := listing[i];
        NextContainer(State(), listing, i, now);
        i := i + 1;
        if l.fields < 9 || l.owner == "" {
          continue;
        }
        if !l.running && !l.revives {
          continue;
        }
        AdoptListed(l, now);
        adopted := adopted + 1;
      }
    }

    method AdoptListed(l: Listed, now: int)
      modifies this, resources
      ensures State() == Adopt(old(State()), ContainerOf(l, now))
    {
      var share := ReadShare(l);
      var created := if l.created.Some? then l.created.value else now;
      var rate: u64 := if l.rate.Some? then l.rate.value else 0;
      var budget: u64 := if l.budget.Some? then l.budget.value else 0;
      var _ := resources.Allocate(share);
      vms := vms[l.owner := Vm(share, Lease(created, rate, budget))];
    }
  }

  method ReadShare(l: Listed) returns (share: ResourceVector)
    ensures share == LabelledShare(l)
  {
    share := map[];
    if l.cpu.Some? && l.cpu.value > 0 {
      share := share[Cpu := l.cpu.value];
    }
    if l.memory.Some? && l.memory.value > 0 {
      share := share[Memory := l.memory.value];
    }
    if l.gpu {
      share := share[Gpu := 1];
    }
  }

  lemma NextContainer(n: Node, listing: seq<Listed>, i: nat, now: int)
    requires i < |listing|
    ensures var l, later := listing[i], Containers(listing[i + 1..], now);
      && |Containers(listing[i..], now)| == |later| + (if Adoptable(l) then 1 else 0)
      && AfterReconcile(n, Containers(listing[i..], now)) ==
        AfterReconcile(if Adoptable(l) then Adopt(n, ContainerOf(l, now)) else n, later)
  {
    var l, later := listing[i], Containers(listing[i + 1..], now);
    assert listing[i..][1..] == listing[i + 1..];
    if Adoptable(l) {
      assert ([ContainerOf(l, now)] + later)[1..] == later;
    } else {
      assert [] + later == later;
    }
  }
}
