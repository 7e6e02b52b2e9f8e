/** Installing, uninstalling and auto-hosting models on one node: which images stay present and
    what a cycle may evict. */
module Hosting {
  import Seqs

  type Key = string
  type Image = string

  /** Nanoseconds; a model auto-installed less than this ago is not evicted. */
  const MIN_RESIDENCY := 1_800_000_000_000

  datatype Node = Node(
    catalog: map<Key, Image>,
    hosted: set<Key>,
    installedAt: map<Key, int>,
    images: set<Image>)

  /** What one cycle finds outside the node: the keys the planner chose beside the pins, the warm
      models, the time, which pulls and image removals succeed, and the orders in which the two
      key sets are walked. */
  datatype CycleInput = CycleInput(
    chosen: set<Key>,
    warm: set<Key>,
    now: int,
    pulls: Key -> bool,
    removes: Key -> bool,
    ins: seq<Key>,
    outs: seq<Key>)

  datatype Step =
    | Install(key: Key, pulled: bool)
    | Uninstall(dropped: Key, removed: bool)
    | Cycle(input: CycleInput)

  /** Some hosted catalog key runs on this image. */
  predicate Used(n: Node, image: Image) {
    exists k :: k in n.hosted && k in n.catalog && n.catalog[k] == image
  }

  function AfterInstall(n: Node, key: Key, pulled: bool): Node {
    if key !in n.catalog || (n.catalog[key] !in n.images && !pulled) then n
    else n.(hosted := n.hosted + {key}, images := n.images + {n.catalog[key]})
  }

  /** The image goes only when no other hosted key shares it and its removal succeeds. */
  function Reclaim(n: Node, image: Image, removed: bool): Node {
    if Used(n, image) || !removed then n else n.(images := n.images - {image})
  }

  /** The install time is kept. */
  function AfterUninstall(n: Node, key: Key, removed: bool): Node {
    if key !in n.catalog then n
    else Reclaim(n.(hosted := n.hosted - {key}), n.catalog[key], removed)
  }

  /** Hosted keys the controller did not install. */
  function Pins(n: Node): set<Key> {
    n.hosted - n.installedAt.Keys
  }

  function Target(n: Node, c: CycleInput): set<Key> {
    Pins(n) + c.chosen
  }

  function AutoInstall(n: Node, key: Key, pulled: bool, now: int): Node {
    var m := AfterInstall(n, key, pulled);
    if key in m.hosted && key in n.catalog && (n.catalog[key] in n.images || pulled)
    then m.(installedAt := n.installedAt[key := now]) else n
  }

  function InstallAll(n: Node, keys: seq<Key>, c: CycleInput): Node
    decreases |keys|
  {
    if keys == [] then n else InstallAll(AutoInstall(n, keys[0], c.pulls(keys[0]), c.now), keys[1..], c)
  }

  predicate Young(n: Node, key: Key, now: int) {
    key in n.installedAt && now - n.installedAt[key] < MIN_RESIDENCY
  }

  function Evict(n: Node, key: Key, c: CycleInput): Node {
    if key in c.warm || Young(n, key, c.now) || key !in n.catalog then n
    else
      var m := n.(hosted := n.hosted - {key}, installedAt := n.installedAt - {key});
      Reclaim(m, n.catalog[key], c.removes(key))
  }

  function EvictAll(n: Node, keys: seq<Key>, c: CycleInput): Node
    decreases |keys|
  {
    if keys == [] then n else EvictAll(Evict(n, keys[0], c), keys[1..], c)
  }

  function AfterCycle(n: Node, c: CycleInput): Node {
    EvictAll(InstallAll(n, c.ins, c), c.outs, c)
  }

  /** The two walks cover what is to be installed and what is to be dropped. */
  ghost predicate Walks(n: Node, c: CycleInput) {
    && (forall k :: k in c.ins <==> k in Target(n, c) && k !in n.hosted)
    && (forall k :: k in c.outs <==> k in n.hosted && k !in Target(n, c))
  }

  function Apply(n: Node, s: Step): Node {
    match s
    case Install(key, pulled) => AfterInstall(n, key, pulled)
    case Uninstall(key, removed) => AfterUninstall(n, key, removed)
    case Cycle(c) => AfterCycle(n, c)
  }

  function Run(n: Node, steps: seq<Step>): Node
    decreases |steps|
  {
    if steps == [] then n else Run(Apply(n, steps[0]), steps[1..])
  }

  // ------------------------------------------------------------------ one install, one uninstall

  /** An install of a catalog key whose image is present or can be pulled hosts that key and leaves
      its image present; any other changes nothing. Install times stay. */
  lemma InstallExactly(n: Node, key: Key, pulled: bool, k: Key, image: Image)
    ensures var m, works := AfterInstall(n, key, pulled), key in n.catalog && (n.catalog[key] in n.images || pulled);
      && (k in m.hosted <==> k in n.hosted || (works && k == key))
      && (image in m.images <==> image in n.images || (works && image == n.catalog[key]))
      && m.installedAt == n.installedAt && m.catalog == n.catalog
  {
  }

  /** No other hosted catalog key runs on the image of `key`. */
  predicate OnlyUser(n: Node, key: Key)
    requires key in n.catalog
  {
    forall j :: j in n.hosted && j in n.catalog && n.catalog[j] == n.catalog[key] ==> j == key
  }

  /** An uninstall of a catalog key drops that key and no other; an image goes if and only if it is
      that key's, its removal succeeds and no other hosted catalog key runs on it. Install times stay. */
  lemma UninstallExactly(n: Node, key: Key, removed: bool, k: Key, image: Image)
    requires key in n.catalog
    ensures var m := AfterUninstall(n, key, removed);
      && (k in m.hosted <==> k in n.hosted && k != key)
      && (image in m.images <==> image in n.images && !(image == n.catalog[key] && removed && OnlyUser(n, key)))
      && m.installedAt == n.installedAt && m.catalog == n.catalog
  {
    var m := n.(hosted := n.hosted - {key});
    forall j | j in n.hosted && j in n.catalog && n.catalog[j] == n.catalog[key] && j != key
      ensures Used(m, n.catalog[key])
    {
      assert j in m.hosted;
    }
  }

  // ------------------------------------------------------------------ no stranded model

  /** Every hosted catalog key's image is present, and install times are of catalog keys. */
  ghost predicate Served(n: Node) {
    && (forall k :: k in n.hosted && k in n.catalog ==> n.catalog[k] in n.images)
    && (forall k :: k in n.installedAt ==> k in n.catalog)
  }

  lemma EvictKeeps(n: Node, key: Key, c: CycleInput)
    requires Served(n)
    ensures Served(Evict(n, key, c)) && Evict(n, key, c).catalog == n.catalog
  {
  }

  lemma {:induction false} InstallAllKeeps(n: Node, keys: seq<Key>, c: CycleInput)
    requires Served(n)
    ensures Served(InstallAll(n, keys, c)) && InstallAll(n, keys, c).catalog == n.catalog
    decreases |keys|
  {
    if keys != [] {
      InstallAllKeeps(AutoInstall(n, keys[0], c.pulls(keys[0]), c.now), keys[1..], c);
    }
  }

  lemma {:induction false} EvictAllKeeps(n: Node, keys: seq<Key>, c: CycleInput)
    requires Served(n)
    ensures Served(EvictAll(n, keys, c)) && EvictAll(n, keys, c).catalog == n.catalog
    decreases |keys|
  {
    if keys != [] {
      EvictKeeps(n, keys[0], c);
      EvictAllKeeps(Evict(n, keys[0], c), keys[1..], c);
    }
  }

  lemma StepKeeps(n: Node, s: Step)
    requires Served(n)
    ensures Served(Apply(n, s)) && Apply(n, s).catalog == n.catalog
  {
    if s.Cycle? {
      InstallAllKeeps(n, s.input.ins, s.input);
      EvictAllKeeps(InstallAll(n, s.input.ins, s.input), s.input.outs, s.input);
    }
  }

  /** Over every run, each hosted catalog key's image is present: hosting strands no model. */
  lemma {:induction false} RunKeepsServed(n: Node, steps: seq<Step>)
    requires Served(n)
    ensures Served(Run(n, steps))
    decreases |steps|
  {
    if steps != [] {
      StepKeeps(n, steps[0]);
      RunKeepsServed(Apply(n, steps[0]), steps[1..]);
    }
  }

  lemma {:induction false} InstallAllImages(n: Node, keys: seq<Key>, c: CycleInput)
    ensures n.images <= InstallAll(n, keys, c).images && n.hosted <= InstallAll(n, keys, c).hosted
    decreases |keys|
  {
    if keys != [] {
      InstallAllImages(AutoInstall(n, keys[0], c.pulls(keys[0]), c.now), keys[1..], c);
    }
  }

  lemma {:induction false} EvictAllImages(n: Node, keys: seq<Key>, c: CycleInput, image: Image)
    requires image in n.images && image !in EvictAll(n, keys, c).images
    ensures exists k :: k in keys && k in n.catalog && n.catalog[k] == image
    decreases |keys|
  {
    var m := Evict(n, keys[0], c);
    if image in m.images {
      EvictAllImages(m, keys[1..], c, image);
      var k :| k in keys[1..] && k in m.catalog && m.catalog[k] == image;
      assert k in keys;
    } else {
      assert keys[0] in keys;
    }
  }

  /** An image leaves only because a key running on it was dropped, and only when no hosted key
      is left on it. */
  lemma ImageLeavesUnused(n: Node, s: Step, image: Image)
    requires Served(n) && image in n.images && image !in Apply(n, s).images
    requires s.Cycle? ==> Walks(n, s.input)
    ensures !Used(Apply(n, s), image)
    ensures s.Cycle? ==> exists k :: k in s.input.outs && k in n.catalog && n.catalog[k] == image
    ensures !s.Cycle? ==> exists k :: s == Uninstall(k, true) && k in n.catalog && n.catalog[k] == image
  {
    StepKeeps(n, s);
    if s.Cycle? {
      var c := s.input;
      InstallAllImages(n, c.ins, c);
      InstallAllKeeps(n, c.ins, c);
      EvictAllImages(InstallAll(n, c.ins, c), c.outs, c, image);
    }
  }

  // ------------------------------------------------------------------ what a cycle evicts

  lemma {:induction false} InstallAllOthers(n: Node, keys: seq<Key>, c: CycleInput, k: Key)
    requires k !in keys
    ensures var m := InstallAll(n, keys, c);
      (k in m.hosted <==> k in n.hosted) && (k in m.installedAt <==> k in n.installedAt)
      && (k in n.installedAt ==> m.installedAt[k] == n.installedAt[k]) && m.catalog == n.catalog
    decreases |keys|
  {
    if keys != [] {
      InstallAllOthers(AutoInstall(n, keys[0], c.pulls(keys[0]), c.now), keys[1..], c, k);
    }
  }

  predicate Evictable(n: Node, k: Key, c: CycleInput) {
    k !in c.warm && !Young(n, k, c.now) && k in n.catalog
  }

  lemma {:induction false} EvictAllExactly(n: Node, keys: seq<Key>, c: CycleInput, k: Key)
    requires k in n.hosted
    ensures k !in EvictAll(n, keys, c).hosted <==> k in keys && Evictable(n, k, c)
    decreases |keys|
  {
    if keys != [] {
      var m := Evict(n, keys[0], c);
      if k == keys[0] && Evictable(n, k, c) {
        EvictAllGone(m, keys[1..], c, k);
      } else {
        assert k in m.hosted && (Evictable(m, k, c) <==> Evictable(n, k, c));
        EvictAllExactly(m, keys[1..], c, k);
      }
    }
  }

  lemma {:induction false} EvictAllGone(n: Node, keys: seq<Key>, c: CycleInput, k: Key)
    requires k !in n.hosted
    ensures k !in EvictAll(n, keys, c).hosted
    decreases |keys|
  {
    if keys != [] {
      EvictAllGone(Evict(n, keys[0], c), keys[1..], c, k);
    }
  }

  /** A cycle drops a hosted key if and only if the controller installed it, the plan leaves it
      out, it is not warm and its residency is over. In particular no pin is dropped. */
  lemma CycleEvictsExactly(n: Node, c: CycleInput, k: Key)
    requires Served(n) && Walks(n, c) && k in n.hosted
    ensures k !in AfterCycle(n, c).hosted <==>
      k in n.installedAt && k !in c.chosen && k !in c.warm && c.now - n.installedAt[k] >= MIN_RESIDENCY
  {
    InstallAllOthers(n, c.ins, c, k);
    EvictAllExactly(InstallAll(n, c.ins, c), c.outs, c, k);
  }

  // ------------------------------------------------------------------ what a cycle installs

  predicate Pulls(n: Node, key: Key, c: CycleInput, image: Image) {
    key in n.catalog && n.catalog[key] == image && c.pulls(key)
  }

  /** `k` is walked at a time when its image is present: from before, or pulled for it or for an
      earlier key of the walk. */
  ghost predicate ArrivesAt(n: Node, keys: seq<Key>, c: CycleInput, k: Key, j: nat) {
    && j < |keys| && keys[j] == k && k in n.catalog
    && (n.catalog[k] in n.images || exists i :: 0 <= i <= j && Pulls(n, keys[i], c, n.catalog[k]))
  }

  ghost predicate Arrives(n: Node, keys: seq<Key>, c: CycleInput, k: Key) {
    exists j: nat :: ArrivesAt(n, keys, c, k, j)
  }

  /** The first key of a walk arrives or not; then the walk goes on from what it left. */
  lemma ArrivesNext(n: Node, keys: seq<Key>, c: CycleInput, k: Key)
    requires keys != []
    ensures Arrives(n, keys, c, k) <==>
      ArrivesAt(n, keys, c, k, 0) || Arrives(AutoInstall(n, keys[0], c.pulls(keys[0]), c.now), keys[1..], c, k)
  {
    var m := AutoInstall(n, keys[0], c.pulls(keys[0]), c.now);
    if Arrives(n, keys, c, k) {
      var j: nat :| ArrivesAt(n, keys, c, k, j);
      if j > 0 {
        assert keys[1..][j - 1] == k;
        if k !in m.catalog || m.catalog[k] !in m.images {
          var i :| 0 <= i <= j && Pulls(n, keys[i], c, n.catalog[k]);
          assert keys[1..][i - 1] == keys[i];
        }
        assert ArrivesAt(m, keys[1..], c, k, j - 1);
      }
    }
    if Arrives(m, keys[1..], c, k) {
      var j: nat :| ArrivesAt(m, keys[1..], c, k, j);
      assert keys[j + 1] == k;
      if n.catalog[k] !in n.images {
        if m.catalog[k] in m.images {
          assert Pulls(n, keys[0], c, n.catalog[k]);
        } else {
          var i :| 0 <= i <= j && Pulls(m, keys[1..][i], c, m.catalog[k]);
          assert Pulls(n, keys[i + 1], c, n.catalog[k]);
        }
      }
      assert ArrivesAt(n, keys, c, k, j + 1);
    }
  }

  /** The first walk hosts exactly the keys that arrive, and gives exactly those the time of the
      cycle as their install time. */
  lemma {:induction false} InstallAllExactly(n: Node, keys: seq<Key>, c: CycleInput, k: Key)
    ensures var m := InstallAll(n, keys, c);
      && (k in m.hosted <==> k in n.hosted || Arrives(n, keys, c, k))
      && (k in m.installedAt <==> k in n.installedAt || Arrives(n, keys, c, k))
      && (k in m.installedAt ==> m.installedAt[k] == if Arrives(n, keys, c, k) then c.now else n.installedAt[k])
    decreases |keys|
  {
    if keys != [] {
      ArrivesNext(n, keys, c, k);
      InstallAllExactly(AutoInstall(n, keys[0], c.pulls(keys[0]), c.now), keys[1..], c, k);
    }
  }

  lemma {:induction false} EvictAllTimes(n: Node, keys: seq<Key>, c: CycleInput, k: Key)
    ensures var m := EvictAll(n, keys, c);
      && m.hosted <= n.hosted && m.installedAt.Keys <= n.installedAt.Keys
      && (k !in keys ==> (k in m.hosted <==> k in n.hosted) && (k in m.installedAt <==> k in n.installedAt))
      && (k in n.hosted && k !in m.hosted ==> k !in m.installedAt)
      && (k in n.hosted && k in m.hosted ==> (k in m.installedAt <==> k in n.installedAt))
      && (k in m.installedAt ==> m.installedAt[k] == n.installedAt[k])
    decreases |keys|
  {
    if keys != [] {
      var m := Evict(n, keys[0], c);
      EvictAllTimes(m, keys[1..], c, k);
      if k in n.hosted && k !in m.hosted {
        EvictAllAddsNoMark(m, keys[1..], c, k);
      }
    }
  }

  predicate Dropped(n: Node, c: CycleInput, k: Key) {
    && k in n.hosted && k in n.installedAt && k !in c.chosen && k !in c.warm
    && c.now - n.installedAt[k] >= MIN_RESIDENCY
  }

  /** Which keys a cycle leaves hosted and with which install times: the hosted ones it does not
      drop, as they were, and the chosen ones that arrive, with the time of the cycle. */
  lemma CycleExactly(n: Node, c: CycleInput, k: Key)
    requires Served(n) && Walks(n, c)
    ensures var m, comes := AfterCycle(n, c), k in c.chosen && k !in n.hosted && Arrives(n, c.ins, c, k);
      && (k in m.hosted <==> (k in n.hosted && !Dropped(n, c, k)) || comes)
      && (k in m.installedAt <==> (k in n.installedAt && !Dropped(n, c, k)) || comes)
      && (k in m.installedAt ==> m.installedAt[k] == if comes then c.now else n.installedAt[k])
  {
    var m := InstallAll(n, c.ins, c);
    InstallAllExactly(n, c.ins, c, k);
    EvictAllTimes(m, c.outs, c, k);
    if k in n.hosted {
      CycleEvictsExactly(n, c, k);
      assert k !in c.ins;
    }
  }

  lemma {:induction false} EvictAllImagesShrink(n: Node, keys: seq<Key>, c: CycleInput)
    ensures EvictAll(n, keys, c).images <= n.images && EvictAll(n, keys, c).catalog == n.catalog
    decreases |keys|
  {
    if keys != [] {
      EvictAllImagesShrink(Evict(n, keys[0], c), keys[1..], c);
    }
  }

  /** The last of the keys on an image to be dropped takes the image with it. */
  lemma {:induction false} EvictAllReclaims(n: Node, keys: seq<Key>, c: CycleInput, k: Key)
    requires k in keys && k in n.hosted && Evictable(n, k, c)
    requires forall j :: j in keys && j in n.catalog && n.catalog[j] == n.catalog[k] ==> c.removes(j)
    ensures Used(EvictAll(n, keys, c), n.catalog[k]) || n.catalog[k] !in EvictAll(n, keys, c).images
    decreases |keys|
  {
    var m, rest, image := Evict(n, keys[0], c), keys[1..], n.catalog[k];
    EvictAllImagesShrink(m, rest, c);
    if image in m.images && !Used(EvictAll(n, keys, c), image) {
      if k == keys[0] {
        assert keys[0] in keys;
        var j :| j in m.hosted && j in m.catalog && m.catalog[j] == image;
        assert j !in EvictAll(m, rest, c).hosted;
        EvictAllExactly(m, rest, c, j);
        EvictAllReclaims(m, rest, c, j);
      } else {
        EvictAllReclaims(m, rest, c, k);
      }
    }
  }

  /** When its removal succeeds, the image of a dropped key is gone after the cycle if and only if
      no hosted catalog key is left on it. */
  lemma CycleReclaims(n: Node, c: CycleInput, k: Key)
    requires Served(n) && Walks(n, c) && Dropped(n, c, k)
    requires forall j :: j in c.outs && j in n.catalog && n.catalog[j] == n.catalog[k] ==> c.removes(j)
    ensures n.catalog[k] !in AfterCycle(n, c).images <==> !Used(AfterCycle(n, c), n.catalog[k])
  {
    var m := InstallAll(n, c.ins, c);
    InstallAllKeeps(n, c.ins, c);
    InstallAllOthers(n, c.ins, c, k);
    EvictAllReclaims(m, c.outs, c, k);
    StepKeeps(n, Cycle(c));
  }

  /** Installing by hand makes a pin if and only if no install time of an earlier automatic
      install is left: otherwise some cycle evicts the hand-installed model. */
  lemma HandInstallPins(n: Node, key: Key, pulled: bool)
    requires Served(n) && key in AfterInstall(n, key, pulled).hosted
    ensures (forall c :: Walks(AfterInstall(n, key, pulled), c) ==> key in AfterCycle(AfterInstall(n, key, pulled), c).hosted)
      <==> key !in n.installedAt
  {
    var m := AfterInstall(n, key, pulled);
    if key in n.installedAt {
      var c := IdleCycle(m, n.installedAt[key] + MIN_RESIDENCY);
      CycleEvictsExactly(m, c, key);
    } else {
      forall c | Walks(m, c) ensures key in AfterCycle(m, c).hosted {
        CycleEvictsExactly(m, c, key);
      }
    }
  }

  lemma {:induction false} Enumerated(s: set<Key>) returns (q: seq<Key>)
    ensures forall k :: k in q <==> k in s
    decreases s
  {
    q := [];
    if s != {} {
      var k :| k in s;
      var r := Enumerated(s - {k});
      q := [k] + r;
    }
  }

  /** A cycle in which nothing is in demand and nothing is warm. */
  lemma IdleCycle(n: Node, now: int) returns (c: CycleInput)
    ensures Walks(n, c) && c.now == now && c.chosen == {} && c.warm == {}
  {
    var outs := Enumerated(n.hosted - Pins(n));
    c := CycleInput({}, {}, now, _ => true, _ => true, [], outs);
  }

  /** Every cycle of the run walks the keys it should, in the state it finds. */
  ghost predicate Legal(n: Node, steps: seq<Step>)
    decreases |steps|
  {
    steps == [] || ((steps[0].Cycle? ==> Walks(n, steps[0].input)) && Legal(Apply(n, steps[0]), steps[1..]))
  }

  predicate Drops(s: Step, k: Key) {
    s.Uninstall? && s.dropped == k
  }

  lemma {:induction false} EvictAllAddsNoMark(n: Node, keys: seq<Key>, c: CycleInput, k: Key)
    requires k !in n.installedAt
    ensures k !in EvictAll(n, keys, c).installedAt
    decreases |keys|
  {
    if keys != [] {
      EvictAllAddsNoMark(Evict(n, keys[0], c), keys[1..], c, k);
    }
  }

  lemma PinSurvivesStep(n: Node, s: Step, k: Key)
    requires Served(n) && k in n.hosted && k !in n.installedAt
    requires (s.Cycle? ==> Walks(n, s.input)) && !Drops(s, k)
    ensures k in Apply(n, s).hosted && k !in Apply(n, s).installedAt
  {
    if s.Cycle? {
      CycleEvictsExactly(n, s.input, k);
      InstallAllOthers(n, s.input.ins, s.input, k);
      EvictAllAddsNoMark(InstallAll(n, s.input.ins, s.input), s.input.outs, s.input, k);
    }
  }

  /** A pin stays hosted over every run of installs, cycles and uninstalls of other models. */
  lemma {:induction false} PinSurvivesRun(n: Node, steps: seq<Step>, k: Key)
    requires Served(n) && Legal(n, steps) && k in n.hosted && k !in n.installedAt
    requires forall s :: s in steps ==> !Drops(s, k)
    ensures k in Run(n, steps).hosted && k !in Run(n, steps).installedAt
    decreases |steps|
  {
    if steps != [] {
      PinSurvivesStep(n, steps[0], k);
      StepKeeps(n, steps[0]);
      PinSurvivesRun(Apply(n, steps[0]), steps[1..], k);
    }
  }

  /** The first cycle on an empty node, with one model in demand. */
  lemma FirstCycle(catalog: map<Key, Image>, key: Key) returns (c: CycleInput)
    ensures Walks(Node(catalog, {}, map[], {}), c)
    ensures c.chosen == {key} && c.ins == [key] && c.outs == [] && c.warm == {} && c.now == 0 && c.pulls(key)
  {
    c := CycleInput({key}, {}, 0, _ => true, _ => true, [key], []);
  }

  /** How such a mark arises: the controller installs a model, the operator uninstalls it and
      later installs it by hand. The next idle cycle takes the operator's model away. */
  lemma UninstallLeavesMark(catalog: map<Key, Image>, key: Key) returns (c: CycleInput, d: CycleInput)
    requires key in catalog
    ensures var steps := [Cycle(c), Uninstall(key, true), Install(key, true), Cycle(d)];
      var start := Node(catalog, {}, map[], {});
      Served(start) && Legal(start, steps) && key in Run(start, steps[..3]).hosted && key !in Run(start, steps).hosted
  {
    var start := Node(catalog, {}, map[], {});
    c := FirstCycle(catalog, key);
    var s0, s1, s2 := Cycle(c), Uninstall(key, true), Install(key, true);
    var a := Apply(start, s0);
    assert a == AutoInstall(start, key, c.pulls(key), 0) by {
      assert [key][1..] == [];
      assert InstallAll(start, [key], c) == AutoInstall(start, key, c.pulls(key), 0);
    }
    var b := Apply(a, s1);
    var e := Apply(b, s2);
    StepKeeps(start, s0);
    StepKeeps(a, s1);
    StepKeeps(b, s2);
    assert key in e.hosted && key in e.installedAt && e.installedAt[key] == 0;
    d := IdleCycle(e, MIN_RESIDENCY);
    CycleEvictsExactly(e, d, key);
    RunFour(start, s0, s1, s2, Cycle(d));
  }

  lemma RunFour(n: Node, s0: Step, s1: Step, s2: Step, s3: Step)
    ensures var a := Apply(n, s0); var b := Apply(a, s1); var e := Apply(b, s2);
      && Run(n, [s0, s1, s2, s3][..3]) == e && Run(n, [s0, s1, s2, s3]) == Apply(e, s3)
      && (Legal(n, [s0, s1, s2, s3]) <==>
            (s0.Cycle? ==> Walks(n, s0.input)) && (s1.Cycle? ==> Walks(a, s1.input))
            && (s2.Cycle? ==> Walks(b, s2.input)) && (s3.Cycle? ==> Walks(e, s3.input)))
  {
    var a := Apply(n, s0); var b := Apply(a, s1); var e := Apply(b, s2);
    assert [s0, s1, s2, s3][..3] == [s0, s1, s2];
    assert [s0, s1, s2][1..] == [s1, s2] && [s1, s2][1..] == [s2] && [s2][1..] == [];
    assert [s0, s1, s2, s3][1..] == [s1, s2, s3] && [s1, s2, s3][1..] == [s2, s3] && [s2, s3][1..] == [s3];
    assert [s3][1..] == [];
    assert Run(n, [s0, s1, s2]) == Run(a, [s1, s2]) == Run(b, [s2]) == Run(e, []);
    assert Run(n, [s0, s1, s2, s3]) == Run(a, [s1, s2, s3]) == Run(b, [s2, s3]) == Run(e, [s3]) == Run(Apply(e, s3), []);
    assert Legal(Apply(e, s3), []);
    assert Legal(e, [s3]) <==> (s3.Cycle? ==> Walks(e, s3.input));
    assert Legal(b, [s2, s3]) <==> (s2.Cycle? ==> Walks(b, s2.input)) && Legal(e, [s3]);
    assert Legal(a, [s1, s2, s3]) <==> (s1.Cycle? ==> Walks(a, s1.input)) && Legal(b, [s2, s3]);
  }

  // ------------------------------------------------------------------ the service

  class ModelHost {
    const catalog: map<Key, Image>
    var hosted: set<Key>
    var installedAt: map<Key, int>
    var images: set<Image>

    function State(): Node
      reads this
    {
      Node(catalog, hosted, installedAt, images)
    }

    constructor (n: Node)
      ensures State() == n
    {
      catalog, hosted, installedAt, images := n.catalog, n.hosted, n.installedAt, n.images;
    }

    method ModelsInstall(key: Key, pulled: bool) returns (ok: bool)
      modifies this
      ensures State() == AfterInstall(old(State()), key, pulled)
      ensures ok <==> key in catalog && (catalog[key] in old(images) || pulled)
      ensures !ok ==> State() == old(State())
      ensures ok ==> hosted == old(hosted) + {key} && installedAt == old(installedAt)
      ensures ok ==> images == old(images) + {catalog[key]}
    {
      if key !in catalog {
        return false;
      }
      if catalog[key] !in images {
        if !pulled {
          return false;
        }
        images := images + {catalog[key]};
      }
      hosted := hosted + {key};
      return true;
    }

    /** Whether some hosted key needs the image: the scan over the hosted keys. */
    method Shared(image: Image) returns (shared: bool)
      ensures shared <==> Used(State(), image)
    {
      var left := hosted;
      while left != {}
        invariant left <= hosted
        invariant forall k :: k in hosted && k !in left && k in catalog ==> catalog[k] != image
      {
        var k :| k in left;
        if k in catalog && catalog[k] == image {
          return true;
        }
        left := left - {k};
      }
      return false;
    }

    method ReclaimImage(image: Image, removed: bool)
      modifies this
      ensures State() == Reclaim(old(State()), image, removed)
    {
      var shared := Shared(image);
      if !shared && removed {
        images := images - {image};
      }
    }

    method ModelsUninstall(key: Key, removed: bool) returns (ok: bool)
      modifies this
      ensures State() == AfterUninstall(old(State()), key, removed)
      ensures ok <==> key in catalog
      ensures !ok ==> State() == old(State())
      ensures ok ==> hosted == old(hosted) - {key} && installedAt == old(installedAt)
      ensures ok ==>
        images == if removed && !Used(State(), catalog[key]) then old(images) - {catalog[key]} else old(images)
    {
      if key !in catalog {
        return false;
      }
      hosted := hosted - {key};
      ReclaimImage(catalog[key], removed);
      return true;
    }

    method AutohostCycle(c: CycleInput)
      requires Walks(State(), c)
      modifies this
      ensures State() == Apply(old(State()), Cycle(c))
    {
      var i := 0;
      while i < |c.ins|
        invariant 0 <= i <= |c.ins|
        invariant InstallAll(State(), c.ins[i..], c) == InstallAll(old(State()), c.ins, c)
      {
        var key := c.ins[i];
        ghost var before := State();
        var ok := ModelsInstall(key, c.pulls(key));
        if ok {
          installedAt := installedAt[key := c.now];
        }
        assert State() == AutoInstall(before, key, c.pulls(key), c.now);
        i := i + 1;
      }
      ghost var filled := State();
      assert filled == InstallAll(old(State()), c.ins, c);
      i := 0;
      while i < |c.outs|
        invariant 0 <= i <= |c.outs|
        invariant EvictAll(State(), c.outs[i..], c) == EvictAll(filled, c.outs, c)
      {
        var key := c.outs[i];
        ghost var before := State();
        if key !in c.warm {
          var young := key in installedAt && c.now - installedAt[key] < MIN_RESIDENCY;
          if !young && key in catalog {
            hosted := hosted - {key};
            installedAt := installedAt - {key};
            ReclaimImage(catalog[key], c.removes(key));
          }
        }
        assert State() == Evict(before, key, c);
        i := i + 1;
      }
    }
  }
}
