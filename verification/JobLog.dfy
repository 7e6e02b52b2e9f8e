/** The durable job store: a FIFO cache of finished jobs over an append-only receipts log with
    periodic compaction, and what a crash at any point of an insert leaves behind. */
module JobLog {
  import opened Seqs
  import opened Bytes

  const MAX_STORED_JOBS: nat := 1024

  datatype JobId = JobId(text: string)

  datatype Job = Job(id: JobId, output: seq<byte>, meta: string)

  /** Receipts never carry the payload. */
  function Erase(j: Job): Job {
    j.(output := [])
  }

  // ------------------------------------------------------------- the cache in memory

  datatype Mem = Mem(jobs: map<JobId, Job>, order: seq<JobId>)

  const EMPTY := Mem(map[], [])

  function Evict(m: Mem): Mem
    decreases |m.order|
  {
    if |m.jobs| > MAX_STORED_JOBS && m.order != []
    then Evict(Mem(m.jobs - {m.order[0]}, m.order[1..]))
    else m
  }

  function Admit(m: Mem, j: Job): Mem {
    Mem(m.jobs[j.id := j], if j.id in m.jobs then m.order else m.order + [j.id])
  }

  function Remember(m: Mem, j: Job): Mem {
    Evict(Admit(m, j))
  }

  function RememberAll(m: Mem, js: seq<Job>): Mem
    decreases |js|
  {
    if js == [] then m else RememberAll(Remember(m, js[0]), js[1..])
  }

  function EraseMem(m: Mem): Mem {
    Mem(map k | k in m.jobs :: Erase(m.jobs[k]), m.order)
  }

  ghost predicate Linked(m: Mem) {
    && Distinct(m.order)
    && (forall k :: k in m.order <==> k in m.jobs)
    && (forall k :: k in m.jobs ==> m.jobs[k].id == k)
  }

  /** `order` is duplicate-free and lists exactly the retained ids, at most MAX of them. */
  ghost predicate Coherent(m: Mem) {
    Linked(m) && |m.order| <= MAX_STORED_JOBS
  }

  function DropOldest(m: Mem): Mem
    requires m.order != []
  {
    Mem(m.jobs - {m.order[0]}, m.order[1..])
  }

  lemma OrderCountsJobs(m: Mem)
    requires Linked(m)
    ensures |m.jobs| == |m.order|
  {
    DistinctLength(m.order);
    assert m.jobs.Keys == set k | k in m.order;
  }

  lemma AdmitLinked(m: Mem, j: Job)
    requires Linked(m)
    ensures var a := Admit(m, j);
      Linked(a) && a.jobs[j.id] == j && a.order != [] && (a.order[0] == j.id ==> |a.order| == 1 || a.order == m.order)
  {
    if j.id !in m.jobs {
      DistinctAppend(m.order, [j.id]);
      assert forall k :: k in m.order + [j.id] <==> k in m.order || k == j.id;
    }
  }

  lemma DropOldestLinked(m: Mem)
    requires Linked(m) && m.order != []
    ensures Linked(DropOldest(m))
    ensures forall k :: k in DropOldest(m).jobs <==> k in m.jobs && k != m.order[0]
  {
    assert m.order == [m.order[0]] + m.order[1..];
  }

  /** One insert evicts at most the oldest id, and never the one it inserts. */
  lemma RememberCases(m: Mem, j: Job)
    requires Coherent(m)
    ensures var a := Admit(m, j);
      && a.order != []
      && Remember(m, j) == (if |a.order| > MAX_STORED_JOBS then DropOldest(a) else a)
    ensures Coherent(Remember(m, j))
    ensures j.id in Remember(m, j).jobs && Remember(m, j).jobs[j.id] == j
  {
    var a := Admit(m, j);
    AdmitLinked(m, j);
    OrderCountsJobs(a);
    if |a.order| > MAX_STORED_JOBS {
      DropOldestLinked(a);
      OrderCountsJobs(DropOldest(a));
      assert Evict(DropOldest(a)) == DropOldest(a);
    }
  }

  lemma EraseAdmit(m: Mem, j: Job)
    ensures EraseMem(Admit(m, j)) == Admit(EraseMem(m), Erase(j))
  {
    assert EraseMem(Admit(m, j)).jobs == Admit(EraseMem(m), Erase(j)).jobs;
  }

  lemma EraseDrop(m: Mem)
    requires m.order != []
    ensures EraseMem(DropOldest(m)) == DropOldest(EraseMem(m))
  {
    assert EraseMem(DropOldest(m)).jobs == DropOldest(EraseMem(m)).jobs;
  }

  /** Erasing payloads commutes with inserting. */
  lemma EraseRemember(m: Mem, j: Job)
    requires Coherent(m)
    ensures Coherent(EraseMem(m))
    ensures EraseMem(Remember(m, j)) == Remember(EraseMem(m), Erase(j))
  {
    RememberCases(m, j);
    RememberCases(EraseMem(m), Erase(j));
    EraseAdmit(m, j);
    EraseDrop(Admit(m, j));
  }

  // ----------------------------------------------------------------- the log on disk

  /** A complete line: a receipt, or text that does not parse (with its UTF-8 validity). */
  datatype Line = Receipt(job: Job) | Garbage(utf8: bool)

  /** What follows the last newline: nothing, text that does not parse, or a whole receipt whose
      newline is missing, which is read like any line. */
  datatype Tail = NoTail | Fragment(utf8: bool) | Unended(job: Job)

  datatype File = File(lines: seq<Line>, tail: Tail)

  function Receipts(lines: seq<Line>): seq<Job> {
    if lines == [] then []
    else (if lines[0].Receipt? then [lines[0].job] else []) + Receipts(lines[1..])
  }

  /** The whole file is read as one UTF-8 string, or not at all. */
  predicate Readable(f: File) {
    && (forall l :: l in f.lines ==> l.Receipt? || l.utf8)
    && (f.tail.Fragment? ==> f.tail.utf8)
  }

  function TailReceipts(t: Tail): seq<Job> {
    if t.Unended? then [t.job] else []
  }

  /** What opening the store on this file loads. */
  function Replay(f: File): Mem {
    if Readable(f) then RememberAll(EMPTY, Receipts(f.lines) + TailReceipts(f.tail)) else EMPTY
  }

  /** How an append can end: whole line, nothing, a part of the receipt, or the receipt without
      its newline. */
  datatype Outcome = Written | Refused | Partial(utf8: bool) | NoNewline

  predicate TailUtf8(t: Tail) {
    t.Fragment? ==> t.utf8
  }

  function Appended(f: File, j: Job, o: Outcome): File {
    match o
    case Refused => f
    case Written =>
      // what is left of an earlier append swallows the line that is glued to it
      File(f.lines + [if f.tail.NoTail? then Receipt(Erase(j)) else Garbage(TailUtf8(f.tail))], NoTail)
    case Partial(u) => File(f.lines, Fragment(u && TailUtf8(f.tail)))
    case NoNewline => File(f.lines, if f.tail.NoTail? then Unended(Erase(j)) else Fragment(TailUtf8(f.tail)))
  }

  function SnapshotOf(jobs: map<JobId, Job>, order: seq<JobId>): seq<Line> {
    if order == [] then []
    else (if order[0] in jobs then [Receipt(Erase(jobs[order[0]]))] else []) + SnapshotOf(jobs, order[1..])
  }

  /** What compaction writes: the retained receipts, oldest first. */
  function Snapshot(m: Mem): seq<Line> {
    SnapshotOf(m.jobs, m.order)
  }

  lemma {:induction false} SnapshotAt(jobs: map<JobId, Job>, order: seq<JobId>)
    requires forall k :: k in order ==> k in jobs
    ensures |SnapshotOf(jobs, order)| == |order|
    ensures forall i :: 0 <= i < |order| ==> SnapshotOf(jobs, order)[i] == Receipt(Erase(jobs[order[i]]))
  {
    if order != [] {
      SnapshotAt(jobs, order[1..]);
    }
  }

  lemma {:induction false} ReceiptsAppend(a: seq<Line>, b: seq<Line>)
    ensures Receipts(a + b) == Receipts(a) + Receipts(b)
  {
    if a == [] {
      assert a + b == b;
    } else {
      TailAppend(a, b);
      ReceiptsAppend(a[1..], b);
      Assoc(if a[0].Receipt? then [a[0].job] else [], Receipts(a[1..]), Receipts(b));
    }
  }

  lemma {:induction false} RememberAllAppend(m: Mem, a: seq<Job>, b: seq<Job>)
    ensures RememberAll(m, a + b) == RememberAll(RememberAll(m, a), b)
    decreases |a|
  {
    if a == [] {
      assert a + b == b;
    } else {
      TailAppend(a, b);
      RememberAllAppend(Remember(m, a[0]), a[1..], b);
    }
  }

  lemma {:induction false} RememberAllCoherent(m: Mem, js: seq<Job>)
    requires Coherent(m)
    ensures Coherent(RememberAll(m, js))
    decreases |js|
  {
    if js != [] {
      RememberCases(m, js[0]);
      RememberAllCoherent(Remember(m, js[0]), js[1..]);
    }
  }

  lemma ReplayNoTail(f: File)
    requires Readable(f) && !f.tail.Unended?
    ensures Replay(f) == RememberAll(EMPTY, Receipts(f.lines))
  {
    assert Receipts(f.lines) + [] == Receipts(f.lines);
  }

  lemma OneMoreLine(lines: seq<Line>, l: Line)
    ensures var m := RememberAll(EMPTY, Receipts(lines));
      RememberAll(EMPTY, Receipts(lines + [l])) == if l.Receipt? then Remember(m, l.job) else m
  {
    var js := if l.Receipt? then [l.job] else [];
    ReceiptsAppend(lines, [l]);
    assert Receipts([l]) == js by {
      assert [l][1..] == [];
    }
    RememberAllAppend(EMPTY, Receipts(lines), js);
    var m := RememberAll(EMPTY, Receipts(lines));
    if l.Receipt? {
      assert RememberAll(m, js) == RememberAll(Remember(m, l.job), js[1..]);
    }
  }

  /** The n oldest entries, payloads erased. */
  function Oldest(m: Mem, n: nat): Mem
    requires n <= |m.order|
  {
    Mem(map k | k in m.jobs && k in m.order[..n] :: Erase(m.jobs[k]), m.order[..n])
  }

  lemma OldestCoherent(m: Mem, n: nat)
    requires Coherent(m) && n <= |m.order|
    ensures Coherent(Oldest(m, n))
  {
    forall k | k in m.order[..n] ensures k in m.jobs {
      assert k in m.order;
    }
  }

  lemma OldestJobs(m: Mem, n: nat)
    requires 0 < n <= |m.order| && m.order[n - 1] in m.jobs
    ensures Oldest(m, n - 1).jobs[m.order[n - 1] := Erase(m.jobs[m.order[n - 1]])] == Oldest(m, n).jobs
  {
    TakeOneMore(m.order, n);
    var k := m.order[n - 1];
    forall x ensures x in m.order[..n] <==> x in m.order[..n - 1] || x == k {
    }
  }

  lemma OldestStep(m: Mem, n: nat)
    requires Coherent(m) && 0 < n <= |m.order|
    ensures m.order[n - 1] in m.jobs
    ensures Remember(Oldest(m, n - 1), Erase(m.jobs[m.order[n - 1]])) == Oldest(m, n)
  {
    var k := m.order[n - 1];
    var j := Erase(m.jobs[k]);
    OldestCoherent(m, n - 1);
    RememberCases(Oldest(m, n - 1), j);
    TakeOneMore(m.order, n);
    assert k !in m.order[..n - 1];
    OldestJobs(m, n);
  }

  lemma OldestNone(m: Mem)
    ensures Oldest(m, 0) == EMPTY
  {
    assert Oldest(m, 0).jobs == map[];
  }

  lemma ChainStep(lines: seq<Line>, l: Line, before: Mem, after: Mem)
    requires RememberAll(EMPTY, Receipts(lines)) == before && l.Receipt? && Remember(before, l.job) == after
    ensures RememberAll(EMPTY, Receipts(lines + [l])) == after
  {
    OneMoreLine(lines, l);
  }

  /** Replaying the first n lines of a snapshot rebuilds the n oldest entries. */
  lemma {:induction false} SnapshotPrefix(m: Mem, s: seq<Line>, n: nat)
    requires Coherent(m) && n <= |m.order| == |s|
    requires forall i :: 0 <= i < |s| ==> s[i] == Receipt(Erase(m.jobs[m.order[i]]))
    ensures RememberAll(EMPTY, Receipts(s[..n])) == Oldest(m, n)
  {
    if n == 0 {
      assert s[..0] == [];
      OldestNone(m);
    } else {
      var before, l := s[..n - 1], s[n - 1];
      assert RememberAll(EMPTY, Receipts(before)) == Oldest(m, n - 1) by {
        SnapshotPrefix(m, s, n - 1);
      }
      assert l.Receipt? && Remember(Oldest(m, n - 1), l.job) == Oldest(m, n) by {
        OldestStep(m, n);
      }
      ChainStep(before, l, Oldest(m, n - 1), Oldest(m, n));
      TakeOneMore(s, n);
    }
  }

  /** A compacted log replays to the store it was written from, payloads erased. */
  lemma SnapshotReplays(m: Mem)
    requires Coherent(m)
    ensures Readable(File(Snapshot(m), NoTail)) && |Snapshot(m)| == |m.order|
    ensures Replay(File(Snapshot(m), NoTail)) == EraseMem(m)
  {
    SnapshotAt(m.jobs, m.order);
    ReplayNoTail(File(Snapshot(m), NoTail));
    SnapshotPrefix(m, Snapshot(m), |m.order|);
    OldestAll(m);
    assert Snapshot(m)[..|m.order|] == Snapshot(m);
  }

  lemma OldestAll(m: Mem)
    requires Coherent(m)
    ensures Oldest(m, |m.order|) == EraseMem(m)
  {
    assert m.order[..|m.order|] == m.order;
    assert Oldest(m, |m.order|).jobs == EraseMem(m).jobs;
  }

  /** A written receipt is replayed as one more insert, unless it was glued to what an earlier
      append left behind: then both are lost. */
  lemma AppendReplays(f: File, j: Job)
    requires Readable(f)
    ensures Replay(Appended(f, j, Written)) ==
      if f.tail.NoTail? then Remember(Replay(f), Erase(j)) else RememberAll(EMPTY, Receipts(f.lines))
  {
    var l := if f.tail.NoTail? then Receipt(Erase(j)) else Garbage(TailUtf8(f.tail));
    OneMoreLine(f.lines, l);
    ReplayNoTail(Appended(f, j, Written));
    if f.tail.NoTail? {
      ReplayNoTail(f);
    }
  }

  /** A receipt that lacks only its newline counts like a written one. */
  lemma NoNewlineReplays(f: File, j: Job)
    requires Readable(f) && f.tail.NoTail?
    ensures Replay(Appended(f, j, NoNewline)) == Remember(Replay(f), Erase(j))
  {
    ReplayNoTail(f);
    RememberAllAppend(EMPTY, Receipts(f.lines), [Erase(j)]);
    var m := RememberAll(EMPTY, Receipts(f.lines));
    assert [Erase(j)][1..] == [];
    assert RememberAll(m, [Erase(j)]) == RememberAll(Remember(m, Erase(j)), []);
  }

  // ------------------------------------------------------------------ store and crashes

  datatype Store = Store(mem: Mem, file: File, appends: nat)

  function AfterInsert(s: Store, j: Job, o: Outcome, compactOk: bool): Store {
    var m, f := Remember(s.mem, j), Appended(s.file, j, o);
    if s.appends + 1 >= MAX_STORED_JOBS && compactOk
    then Store(m, File(Snapshot(m), NoTail), 0)
    else Store(m, f, s.appends + 1)
  }

  /** Opening: replay, then trim the log; an unreadable log is left alone. */
  function Opened(f: File, compactOk: bool): Store {
    var m := Replay(f);
    Store(m, if Readable(f) && compactOk then File(Snapshot(m), NoTail) else f, 0)
  }

  /** Where an insert can be cut: the rename of a compaction is atomic, the append is not. */
  datatype CrashPoint = BeforeAppend | DuringAppend(utf8: bool) | BeforeNewline | AfterAppend | AfterRename

  function CrashImage(s: Store, j: Job, p: CrashPoint): File {
    match p
    case BeforeAppend => s.file
    case DuringAppend(u) => Appended(s.file, j, Partial(u))
    case BeforeNewline => Appended(s.file, j, NoNewline)
    case AfterAppend => Appended(s.file, j, Written)
    case AfterRename => AfterInsert(s, j, Written, true).file
  }

  /** The log on disk says exactly what the store holds, and is bounded. */
  ghost predicate Synced(s: Store) {
    && Coherent(s.mem)
    && Readable(s.file) && s.file.tail == NoTail
    && Replay(s.file) == EraseMem(s.mem)
    && s.appends < MAX_STORED_JOBS && |s.file.lines| <= MAX_STORED_JOBS + s.appends
  }

  lemma EmptyCoherent()
    ensures Coherent(EMPTY) && EraseMem(EMPTY) == EMPTY
  {
    assert EraseMem(EMPTY).jobs == map[];
  }

  lemma ReplayCoherent(f: File)
    ensures Coherent(Replay(f))
  {
    EmptyCoherent();
    RememberAllCoherent(EMPTY, Receipts(f.lines) + TailReceipts(f.tail));
  }

  lemma {:induction false} ReplayErased(m: Mem, js: seq<Job>)
    requires EraseMem(m) == m && Coherent(m)
    requires forall j :: j in js ==> Erase(j) == j
    ensures EraseMem(RememberAll(m, js)) == RememberAll(m, js)
    decreases |js|
  {
    if js != [] {
      EraseRemember(m, js[0]);
      RememberCases(m, js[0]);
      ReplayErased(Remember(m, js[0]), js[1..]);
    }
  }

  lemma {:induction false} ReceiptsErased(lines: seq<Line>)
    requires forall l :: l in lines && l.Receipt? ==> Erase(l.job) == l.job
    ensures forall j :: j in Receipts(lines) ==> Erase(j) == j
  {
    if lines != [] {
      ReceiptsErased(lines[1..]);
    }
  }

  /** A written insert, compacting or not, leaves disk and memory in step. */
  lemma InsertSynced(s: Store, j: Job)
    requires Synced(s)
    ensures Synced(AfterInsert(s, j, Written, true))
    ensures |Appended(s.file, j, Written).lines| <= 2 * MAX_STORED_JOBS
  {
    RememberCases(s.mem, j);
    EraseRemember(s.mem, j);
    AppendReplays(s.file, j);
    SnapshotReplays(Remember(s.mem, j));
  }

  function AllInserted(s: Store, js: seq<Job>): Store
    decreases |js|
  {
    if js == [] then s else AllInserted(AfterInsert(s, js[0], Written, true), js[1..])
  }

  function ReceiptsOf(js: seq<Job>): seq<Line> {
    if js == [] then [] else [Receipt(Job(js[0].id, [], js[0].meta))] + ReceiptsOf(js[1..])
  }

  /** Until a window of 1024 appends is full the log only grows, by one receipt an insert. */
  lemma {:induction false} WindowAppends(s: Store, js: seq<Job>)
    requires s.file.tail == NoTail && s.appends + |js| < MAX_STORED_JOBS
    ensures AllInserted(s, js).file == File(s.file.lines + ReceiptsOf(js), NoTail)
    ensures AllInserted(s, js).appends == s.appends + |js|
    decreases |js|
  {
    if js == [] {
      assert s.file.lines + [] == s.file.lines;
    } else {
      WindowAppends(AfterInsert(s, js[0], Written, true), js[1..]);
      Assoc(s.file.lines, [Receipt(Job(js[0].id, [], js[0].meta))], ReceiptsOf(js[1..]));
    }
  }

  /** The insert that fills the window rewrites the log as one receipt for each job held, in order. */
  lemma WindowCompacts(s: Store, j: Job, i: nat)
    requires Coherent(s.mem) && s.appends + 1 == MAX_STORED_JOBS
    ensures var t := AfterInsert(s, j, Written, true);
      && t.appends == 0 && t.file.tail == NoTail && |t.file.lines| == |t.mem.order|
      && (forall k :: k in t.mem.order <==> k in t.mem.jobs)
      && (i < |t.mem.order| ==> t.file.lines[i] == Receipt(Job(t.mem.order[i], [], t.mem.jobs[t.mem.order[i]].meta)))
  {
    RememberCases(s.mem, j);
    var m := Remember(s.mem, j);
    SnapshotAt(m.jobs, m.order);
    assert i < |m.order| ==> m.order[i] in m.order;
  }

  /** Whatever was lost before, a compaction that succeeds puts disk and memory in step again. */
  lemma CompactionHeals(s: Store, j: Job, o: Outcome)
    requires Coherent(s.mem) && s.appends + 1 >= MAX_STORED_JOBS
    ensures Synced(AfterInsert(s, j, o, true))
  {
    RememberCases(s.mem, j);
    SnapshotReplays(Remember(s.mem, j));
  }

  predicate Erased(f: File) {
    && (forall l :: l in f.lines && l.Receipt? ==> Erase(l.job) == l.job)
    && (f.tail.Unended? ==> Erase(f.tail.job) == f.tail.job)
  }

  /** Opening any readable log gives a store in step with it. */
  lemma OpenSynced(f: File)
    requires Readable(f) && Erased(f)
    ensures Synced(Opened(f, true)) && Opened(f, true).mem == Replay(f) == EraseMem(Replay(f))
  {
    EmptyCoherent();
    ReplayCoherent(f);
    SnapshotReplays(Replay(f));
    ReceiptsErased(f.lines);
    ReplayErased(EMPTY, Receipts(f.lines) + TailReceipts(f.tail));
  }

  /** A restart of a store in step finds the same ids in the same order, each with the identity and
      the other fields of what was held, and without its payload. */
  lemma RestartHolds(s: Store, k: JobId)
    requires StoreOk(s)
    ensures var m := Opened(s.file, true).mem;
      && m.order == s.mem.order && (k in m.jobs <==> k in s.mem.jobs)
      && (k in m.jobs ==> m.jobs[k] == Job(k, [], s.mem.jobs[k].meta))
  {
    OpenSynced(s.file);
    ReplayCoherent(s.file);
  }

  lemma CrashReplay(s: Store, j: Job, p: CrashPoint)
    requires Synced(s)
    ensures var image := CrashImage(s, j, p);
      Replay(image) == match p
        case BeforeAppend => EraseMem(s.mem)
        case DuringAppend(u) => if u then EraseMem(s.mem) else EMPTY
        case BeforeNewline => EraseMem(Remember(s.mem, j))
        case AfterAppend => EraseMem(Remember(s.mem, j))
        case AfterRename => EraseMem(Remember(s.mem, j))
  {
    match p
    case BeforeAppend =>
    case DuringAppend(u) =>
      assert CrashImage(s, j, p) == File(s.file.lines, Fragment(u));
      ReplayNoTail(s.file);
      if u {
        ReplayNoTail(CrashImage(s, j, p));
      }
    case BeforeNewline =>
      NoNewlineReplays(s.file, j);
      EraseRemember(s.mem, j);
    case AfterAppend =>
      AppendReplays(s.file, j);
      EraseRemember(s.mem, j);
    case AfterRename =>
      InsertSynced(s, j);
  }

  lemma AfterIsNotEmpty(m: Mem, j: Job)
    requires Coherent(m)
    ensures EraseMem(Remember(m, j)) != EMPTY
    ensures EraseMem(m) == EMPTY <==> m.order == []
  {
    RememberCases(m, j);
    assert j.id in EraseMem(Remember(m, j)).jobs;
    if m.order == [] {
      NoOrderNoJobs(m);
    }
  }

  lemma CrashLines(s: Store, j: Job, p: CrashPoint)
    requires Synced(s)
    ensures |CrashImage(s, j, p).lines| <= 2 * MAX_STORED_JOBS
  {
    if p.AfterRename? {
      InsertSynced(s, j);
    }
  }

  /** At every crash point the log replays to the store from just before or just after the insert,
      except when the torn line is not UTF-8: then everything there was is lost. */
  lemma CrashConsistent(s: Store, j: Job, p: CrashPoint)
    requires Synced(s)
    ensures var image, before, after := CrashImage(s, j, p), EraseMem(s.mem), EraseMem(Remember(s.mem, j));
      && |image.lines| <= 2 * MAX_STORED_JOBS
      && (p.BeforeAppend? || p == DuringAppend(true) ==> Replay(image) == before)
      && (p.BeforeNewline? || p.AfterAppend? || p.AfterRename? ==> Replay(image) == after)
      && (p == DuringAppend(false) ==> Replay(image) == EMPTY)
      && ((Replay(image) == before || Replay(image) == after) <==> p != DuringAppend(false) || s.mem.order == [])
  {
    CrashLines(s, j, p);
    CrashReplay(s, j, p);
    if p == DuringAppend(false) {
      AfterIsNotEmpty(s.mem, j);
    }
  }

  lemma NoOrderNoJobs(m: Mem)
    requires Coherent(m) && m.order == []
    ensures EraseMem(m) == EMPTY
  {
    assert forall k :: k !in m.jobs;
    assert EraseMem(m).jobs == map[];
  }

  // ---------------------------------------------------------------------------- runs

  datatype Event = Insert(job: Job) | Restart | Crash(job: Job, point: CrashPoint)

  function Step(s: Store, e: Event): Store {
    match e
    case Insert(j) => AfterInsert(s, j, Written, true)
    case Restart => Opened(s.file, true)
    case Crash(j, p) => Opened(CrashImage(s, j, p), true)
  }

  /** The job an event makes durable, if any. */
  function Durable(e: Event): seq<Job> {
    match e
    case Insert(j) => [j]
    case Restart => []
    case Crash(j, p) => if p.BeforeNewline? || p.AfterAppend? || p.AfterRename? then [j] else []
  }

  function Run(s: Store, es: seq<Event>): Store
    decreases |es|
  {
    if es == [] then s else Run(Step(s, es[0]), es[1..])
  }

  function DurableJobs(es: seq<Event>): seq<Job> {
    if es == [] then [] else Durable(es[0]) + DurableJobs(es[1..])
  }

  function EraseAll(js: seq<Job>): seq<Job> {
    if js == [] then [] else [Erase(js[0])] + EraseAll(js[1..])
  }

  ghost predicate StoreOk(s: Store) {
    Synced(s) && Erased(s.file)
  }

  lemma {:induction false} SnapshotErased(jobs: map<JobId, Job>, order: seq<JobId>)
    ensures forall l :: l in SnapshotOf(jobs, order) ==> l.Receipt? && Erase(l.job) == l.job
  {
    if order != [] {
      SnapshotErased(jobs, order[1..]);
    }
  }

  lemma AppendErased(s: Store, j: Job)
    requires StoreOk(s)
    ensures Erased(Appended(s.file, j, Written))
  {
    var l := Receipt(Erase(j));
    assert forall x :: x in s.file.lines + [l] ==> x in s.file.lines || x == l;
  }

  lemma StepInsert(s: Store, j: Job)
    requires StoreOk(s)
    ensures StoreOk(AfterInsert(s, j, Written, true))
  {
    InsertSynced(s, j);
    SnapshotErased(Remember(s.mem, j).jobs, Remember(s.mem, j).order);
    AppendErased(s, j);
  }

  lemma InsertDurable(m: Mem, j: Job)
    requires Coherent(m)
    ensures EraseMem(Remember(m, j)) == RememberAll(EraseMem(m), EraseAll([j]))
  {
    EraseRemember(m, j);
    DurableOne(EraseMem(m), j);
  }

  lemma OpenOk(f: File)
    requires Readable(f) && Erased(f)
    ensures StoreOk(Opened(f, true)) && EraseMem(Opened(f, true).mem) == Replay(f)
  {
    OpenSynced(f);
    SnapshotErased(Replay(f).jobs, Replay(f).order);
  }

  lemma StepOk(s: Store, e: Event)
    requires StoreOk(s) && !(e.Crash? && e.point == DuringAppend(false))
    ensures StoreOk(Step(s, e))
    ensures EraseMem(Step(s, e).mem) == RememberAll(EraseMem(s.mem), EraseAll(Durable(e)))
  {
    match e
    case Insert(j) =>
      StepInsert(s, j);
      InsertDurable(s.mem, j);
    case Restart =>
      OpenOk(s.file);
    case Crash(j, p) =>
      StepCrash(s, j, p);
  }

  lemma CrashDurable(s: Store, j: Job, p: CrashPoint)
    requires Synced(s) && p != DuringAppend(false)
    ensures Replay(CrashImage(s, j, p)) == RememberAll(EraseMem(s.mem), EraseAll(Durable(Crash(j, p))))
  {
    CrashReplay(s, j, p);
    if p.BeforeAppend? || p.DuringAppend? {
      assert Durable(Crash(j, p)) == [];
    } else {
      assert Durable(Crash(j, p)) == [j];
      InsertDurable(s.mem, j);
    }
  }

  lemma StepCrash(s: Store, j: Job, p: CrashPoint)
    requires StoreOk(s) && p != DuringAppend(false)
    ensures var r := Opened(CrashImage(s, j, p), true);
      StoreOk(r) && EraseMem(r.mem) == RememberAll(EraseMem(s.mem), EraseAll(Durable(Crash(j, p))))
  {
    CrashReadable(s, j, p);
    OpenOk(CrashImage(s, j, p));
    CrashDurable(s, j, p);
  }

  lemma AppendReadable(f: File, j: Job)
    requires Readable(f) && f.tail.NoTail?
    ensures Readable(Appended(f, j, Written))
  {
  }

  lemma CrashReadable(s: Store, j: Job, p: CrashPoint)
    requires StoreOk(s) && p != DuringAppend(false)
    ensures Readable(CrashImage(s, j, p)) && Erased(CrashImage(s, j, p))
  {
    match p
    case BeforeAppend =>
    case DuringAppend(u) =>
      assert CrashImage(s, j, p) == File(s.file.lines, Fragment(true));
    case BeforeNewline =>
      assert CrashImage(s, j, p) == File(s.file.lines, Unended(Erase(j)));
    case AfterAppend =>
      InsertSynced(s, j);
      AppendErased(s, j);
      AppendReadable(s.file, j);
    case AfterRename =>
      StepInsert(s, j);
  }

  lemma DurableOne(m: Mem, j: Job)
    ensures RememberAll(m, EraseAll([j])) == Remember(m, Erase(j))
  {
    assert [j][1..] == [];
    assert EraseAll([j]) == [Erase(j)];
    assert RememberAll(m, [Erase(j)]) == RememberAll(Remember(m, Erase(j)), []);
  }

  lemma {:induction false} EraseAllAppend(a: seq<Job>, b: seq<Job>)
    ensures EraseAll(a + b) == EraseAll(a) + EraseAll(b)
  {
    if a == [] {
      assert a + b == b;
    } else {
      TailAppend(a, b);
      EraseAllAppend(a[1..], b);
      Assoc([Erase(a[0])], EraseAll(a[1..]), EraseAll(b));
    }
  }

  /** Over every run of inserts, restarts and crashes (torn lines being UTF-8), the store holds
      what a store that never stopped would hold after the durable inserts, payloads erased. */
  lemma {:induction false} RunDurable(s: Store, es: seq<Event>)
    requires StoreOk(s)
    requires forall e :: e in es ==> !(e.Crash? && e.point == DuringAppend(false))
    ensures StoreOk(Run(s, es))
    ensures EraseMem(Run(s, es).mem) == RememberAll(EraseMem(s.mem), EraseAll(DurableJobs(es)))
    decreases |es|
  {
    if es != [] {
      StepOk(s, es[0]);
      RunDurable(Step(s, es[0]), es[1..]);
      EraseAllAppend(Durable(es[0]), DurableJobs(es[1..]));
      RememberAllAppend(EraseMem(s.mem), EraseAll(Durable(es[0])), EraseAll(DurableJobs(es[1..])));
    }
  }

  // ------------------------------------------------------- what the cache retains

  /** The ids pushed onto `order` while inserting `js`. */
  function Admitted(m: Mem, js: seq<Job>): seq<JobId>
    decreases |js|
  {
    if js == [] then []
    else AdmittedNow(m, js[0]) + Admitted(Remember(m, js[0]), js[1..])
  }

  function AdmittedNow(m: Mem, j: Job): seq<JobId> {
    if j.id in m.jobs then [] else [j.id]
  }

  lemma OrderStep(m: Mem, j: Job)
    requires Coherent(m)
    ensures Remember(m, j).order == Last(m.order + AdmittedNow(m, j), MAX_STORED_JOBS)
  {
    var grown := m.order + AdmittedNow(m, j);
    RememberCases(m, j);
    AppendNone(m.order);
    RememberedOrder(m, j, grown);
  }

  lemma RememberedOrder(m: Mem, j: Job, grown: seq<JobId>)
    requires |m.order| <= MAX_STORED_JOBS && Admit(m, j).order == grown && grown != []
    requires Remember(m, j) == if |grown| > MAX_STORED_JOBS then DropOldest(Admit(m, j)) else Admit(m, j)
    ensures Remember(m, j).order == Last(grown, MAX_STORED_JOBS)
  {
    assert |grown| <= MAX_STORED_JOBS + 1;
  }

  lemma AppendNone(s: seq<JobId>)
    ensures s + [] == s
  {
  }

  /** FIFO: the retained ids are the last MAX admissions, in order. */
  lemma {:induction false} RetainsLastAdmitted(m: Mem, js: seq<Job>)
    requires Coherent(m)
    ensures RememberAll(m, js).order == Last(m.order + Admitted(m, js), MAX_STORED_JOBS)
    decreases |js|
  {
    if js == [] {
      assert m.order + [] == m.order;
    } else {
      var now, next := AdmittedNow(m, js[0]), Remember(m, js[0]);
      var rest := Admitted(next, js[1..]);
      RememberCases(m, js[0]);
      RetainsLastAdmitted(next, js[1..]);
      assert next.order == Last(m.order + now, MAX_STORED_JOBS) by {
        OrderStep(m, js[0]);
      }
      LastOfAppend(m.order + now, rest, MAX_STORED_JOBS);
      Assoc(m.order, now, rest);
    }
  }

  /** The latest job with this id, or what was there before. */
  function Latest(before: Mem, js: seq<Job>, k: JobId): Job
    requires k in before.jobs || exists j :: j in js && j.id == k
    decreases |js|
  {
    if js == [] then before.jobs[k]
    else if js[|js| - 1].id == k then js[|js| - 1]
    else assert js == js[..|js| - 1] + [js[|js| - 1]]; Latest(before, js[..|js| - 1], k)
  }

  /** Every retained id holds its latest inserted value. */
  lemma {:induction false} RetainsLatest(m: Mem, js: seq<Job>, k: JobId)
    requires Coherent(m) && k in RememberAll(m, js).jobs
    ensures k in m.jobs || exists j :: j in js && j.id == k
    ensures RememberAll(m, js).jobs[k] == Latest(m, js, k)
    decreases |js|
  {
    if js != [] {
      var before, j := js[..|js| - 1], js[|js| - 1];
      assert js == before + [j];
      RememberAllAppend(m, before, [j]);
      RememberAllCoherent(m, before);
      var n := RememberAll(m, before);
      assert RememberAll(n, [j]) == Remember(n, j) by {
        assert [j][1..] == [];
      }
      RememberCases(n, j);
      if j.id != k {
        RetainsLatest(m, before, k);
      } else {
        assert j in js;
      }
    }
  }

  // ------------------------------------------------------------ the objects themselves

  lemma NextLine(m: Mem, lines: seq<Line>, i: nat)
    requires i < |lines|
    ensures var later := Receipts(lines[i + 1..]);
      RememberAll(m, Receipts(lines[i..])) == RememberAll(if lines[i].Receipt? then Remember(m, lines[i].job) else m, later)
  {
    var later := Receipts(lines[i + 1..]);
    assert lines[i..][0] == lines[i] && lines[i..][1..] == lines[i + 1..];
    if lines[i].Receipt? {
      TailAppend([lines[i].job], later);
    } else {
      assert [] + later == later;
    }
  }

  lemma ReplayTail(f: File)
    requires Readable(f)
    ensures var m := RememberAll(EMPTY, Receipts(f.lines));
      Replay(f) == if f.tail.Unended? then Remember(m, f.tail.job) else m
  {
    var m := RememberAll(EMPTY, Receipts(f.lines));
    RememberAllAppend(EMPTY, Receipts(f.lines), TailReceipts(f.tail));
    if f.tail.Unended? {
      assert [f.tail.job][1..] == [];
      assert RememberAll(m, [f.tail.job]) == RememberAll(Remember(m, f.tail.job), []);
    }
  }

  class LogFile {
    var content: File

    constructor (f: File)
      ensures content == f
    {
      content := f;
    }

    method Append(j: Job, o: Outcome)
      modifies this
      ensures content == Appended(old(content), j, o)
    {
      match o {
        case Refused =>
        case Written =>
          var l := if content.tail.NoTail? then Receipt(Erase(j)) else Garbage(TailUtf8(content.tail));
          content := File(content.lines + [l], NoTail);
        case Partial(u) =>
          content := File(content.lines, Fragment(u && TailUtf8(content.tail)));
        case NoNewline =>
          var t := if content.tail.NoTail? then Unended(Erase(j)) else Fragment(TailUtf8(content.tail));
          content := File(content.lines, t);
      }
    }

    /** Write to a temporary file, then rename: all or nothing. */
    method Replace(lines: seq<Line>, ok: bool)
      modifies this
      ensures content == if ok then File(lines, NoTail) else old(content)
    {
      if ok {
        content := File(lines, NoTail);
      }
    }
  }

  class JobStore {
    var jobs: map<JobId, Job>
    var order: seq<JobId>
    const log: LogFile?
    var appends: nat

    function Contents(): Mem
      reads this
    {
      Mem(jobs, order)
    }

    function State(): Store
      requires log != null
      reads this, log
    {
      Store(Contents(), log.content, appends)
    }

    constructor InMemory()
      ensures Contents() == EMPTY && log == null && appends == 0
    {
      jobs, order, log, appends := map[], [], null, 0;
    }

    constructor WithPersistence(file: LogFile, compactOk: bool)
      modifies file
      ensures log == file && State() == Opened(old(file.content), compactOk)
    {
      jobs, order, log, appends := map[], [], file, 0;
      new;
      if Readable(file.content) {
        Load(file.content);
        Compact(compactOk);
      }
    }

    /** Replay without appending again. */
    method Load(f: File)
      requires Readable(f) && Contents() == EMPTY
      modifies this`jobs, this`order
      ensures Contents() == Replay(f)
    {
      var i := 0;
      while i < |f.lines|
        invariant i <= |f.lines|
        invariant RememberAll(Contents(), Receipts(f.lines[i..])) == RememberAll(EMPTY, Receipts(f.lines))
      {
        NextLine(Contents(), f.lines, i);
        if f.lines[i].Receipt? {
          Retain(f.lines[i].job);
        }
        i := i + 1;
      }
      ReplayTail(f);
      if f.tail.Unended? {
        Retain(f.tail.job);
      }
    }

    method Compact(ok: bool)
      modifies this`appends, log
      ensures log != null ==>
        log.content == (if ok then File(Snapshot(Contents()), NoTail) else old(log.content))
        && appends == (if ok then 0 else old(appends))
      ensures log == null ==> appends == old(appends)
    {
      if log == null {
        return;
      }
      var out: seq<Line> := [];
      for i := 0 to |order|
        invariant out + SnapshotOf(jobs, order[i..]) == Snapshot(Contents())
        invariant appends == old(appends) && log.content == old(log.content)
      {
        assert order[i..][0] == order[i] && order[i..][1..] == order[i + 1..];
        if order[i] in jobs {
          Assoc(out, [Receipt(Erase(jobs[order[i]]))], SnapshotOf(jobs, order[i + 1..]));
          out := out + [Receipt(Erase(jobs[order[i]]))];
        } else {
          Assoc(out, [], SnapshotOf(jobs, order[i + 1..]));
          assert out + [] == out;
        }
      }
      assert order[|order|..] == [] && out + [] == out;
      log.Replace(out, ok);
      if ok {
        appends := 0;
      }
    }

    /** In-memory bookkeeping with FIFO eviction. */
    method Retain(j: Job)
      modifies this`jobs, this`order
      ensures Contents() == Remember(old(Contents()), j)
    {
      if j.id !in jobs {
        order := order + [j.id];
      }
      jobs := jobs[j.id := j];
      while |jobs| > MAX_STORED_JOBS
        invariant Evict(Contents()) == Remember(old(Contents()), j)
        decreases |order|
      {
        if order == [] {
          break;
        }
        jobs := jobs - {order[0]};
        order := order[1..];
      }
    }

    /** Receipt first, then the cache, then compaction once a window of appends is full. */
    method Insert(j: Job, o: Outcome, compactOk: bool)
      modifies this, log
      ensures Contents() == Remember(old(Contents()), j)
      ensures log != null ==> State() == AfterInsert(old(State()), j, o, compactOk)
    {
      if log != null {
        log.Append(j, o);
      }
      Retain(j);
      if log != null {
        appends := appends + 1;
        if appends >= MAX_STORED_JOBS {
          Compact(compactOk);
        }
      }
    }

    method Get(k: JobId) returns (found: bool, j: Job)
      ensures found == (k in jobs)
      ensures found ==> j == jobs[k]
    {
      found := k in jobs;
      j := if found then jobs[k] else Job(k, [], "");
    }
  }
}
