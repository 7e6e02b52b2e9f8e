/** The job log over runs in which appends, compactions and reopenings fail: memory is never at
    risk while the node stays up, and what a restart loses is what these failures cost. */
module JobFaults {
  import opened JobLog
  import opened Seqs

  datatype Append = Append(job: Job, outcome: Outcome)

  function AppendAll(f: File, xs: seq<Append>): File {
    if xs == [] then f
    else Appended(AppendAll(f, xs[..|xs| - 1]), xs[|xs| - 1].job, xs[|xs| - 1].outcome)
  }

  function JobsOf(xs: seq<Append>): seq<Job> {
    if xs == [] then [] else JobsOf(xs[..|xs| - 1]) + [xs[|xs| - 1].job]
  }

  /** The last append that wrote anything wrote its newline. */
  predicate Clean(xs: seq<Append>) {
    if xs == [] then true
    else
      match xs[|xs| - 1].outcome
      case Written => true
      case Refused => Clean(xs[..|xs| - 1])
      case Partial(_) => false
      case NoNewline => false
  }

  /** The appends that stand on a line of their own: written whole, behind a clean end. */
  function Kept(xs: seq<Append>): seq<Job> {
    if xs == [] then []
    else
      var before, x := xs[..|xs| - 1], xs[|xs| - 1];
      Kept(before) + if x.outcome.Written? && Clean(before) then [x.job] else []
  }

  /** The receipt that waits for its newline at the end, if any. */
  function Hanging(xs: seq<Append>): seq<Job> {
    if xs == [] then []
    else
      var before, x := xs[..|xs| - 1], xs[|xs| - 1];
      if x.outcome.NoNewline? && Clean(before) then [x.job]
      else if x.outcome.Refused? then Hanging(before)
      else []
  }

  function Survivors(xs: seq<Append>): seq<Job> {
    Kept(xs) + Hanging(xs)
  }

  /** No torn part is cut inside a character. */
  predicate TextParts(xs: seq<Append>) {
    forall i :: 0 <= i < |xs| && xs[i].outcome.Partial? ==> xs[i].outcome.utf8
  }

  // ------------------------------------------------------------------ what the file says

  lemma EraseAllEnd(js: seq<Job>, j: Job)
    ensures EraseAll(js + [j]) == EraseAll(js) + [Erase(j)]
  {
    EraseAllAppend(js, [j]);
    assert [j][1..] == [];
    assert EraseAll([j]) == [Erase(j)];
  }

  lemma ReceiptsEnd(lines: seq<Line>, l: Line)
    ensures Receipts(lines + [l]) == Receipts(lines) + if l.Receipt? then [l.job] else []
  {
    ReceiptsAppend(lines, [l]);
    assert [l][1..] == [];
    assert Receipts([l]) == if l.Receipt? then [l.job] else [];
  }

  ghost predicate Tells(g: File, f: File, xs: seq<Append>) {
    && Receipts(g.lines) == Receipts(f.lines) + EraseAll(Kept(xs))
    && TailReceipts(g.tail) == EraseAll(Hanging(xs))
    && (g.tail.NoTail? <==> Clean(xs))
    && (g.tail.Unended? <==> Hanging(xs) != [])
    && (Readable(g) <==> TextParts(xs))
  }

  lemma OneMoreAppend(f: File, before: seq<Append>, x: Append)
    requires Tells(AppendAll(f, before), f, before)
    ensures Tells(Appended(AppendAll(f, before), x.job, x.outcome), f, before + [x])
  {
    var g, xs := AppendAll(f, before), before + [x];
    assert xs[..|xs| - 1] == before && xs[|xs| - 1] == x;
    OneMoreText(before, x);
    assert Kept(before) + [] == Kept(before);
    match x.outcome
    case Refused =>
    case Written => OneMoreWritten(f, g, before, x.job);
    case Partial(u) =>
    case NoNewline =>
      assert [x.job][1..] == [];
      assert EraseAll([x.job]) == [Erase(x.job)];
  }

  lemma OneMoreText(before: seq<Append>, x: Append)
    ensures TextParts(before + [x]) <==> TextParts(before) && (x.outcome.Partial? ==> x.outcome.utf8)
  {
    var xs := before + [x];
    assert xs[|before|] == x && forall i :: 0 <= i < |before| ==> xs[i] == before[i];
  }

  lemma OneMoreWritten(f: File, g: File, before: seq<Append>, j: Job)
    requires Tells(g, f, before)
    ensures Tells(Appended(g, j, Written), f, before + [Append(j, Written)])
  {
    var xs := before + [Append(j, Written)];
    assert xs[..|xs| - 1] == before && xs[|xs| - 1] == Append(j, Written);
    OneMoreText(before, Append(j, Written));
    var l := if g.tail.NoTail? then Receipt(Erase(j)) else Garbage(TailUtf8(g.tail));
    ReceiptsEnd(g.lines, l);
    ReadableEnd(g, l);
    assert Kept(before) + [] == Kept(before) && Receipts(g.lines) + [] == Receipts(g.lines);
    if Clean(before) {
      EraseAllEnd(Kept(before), j);
      Assoc(Receipts(f.lines), EraseAll(Kept(before)), [Erase(j)]);
    }
  }

  lemma ReadableEnd(g: File, l: Line)
    requires l.Receipt? ==> g.tail.NoTail?
    requires l.Garbage? ==> (l.utf8 <==> TailUtf8(g.tail))
    ensures Readable(File(g.lines + [l], NoTail)) <==> Readable(g)
  {
    assert forall x :: x in g.lines + [l] <==> x in g.lines || x == l;
  }

  lemma {:induction false} AppendsTell(f: File, xs: seq<Append>)
    requires f.tail.NoTail? && Readable(f)
    ensures Tells(AppendAll(f, xs), f, xs)
  {
    if xs == [] {
      assert Receipts(f.lines) + [] == Receipts(f.lines);
    } else {
      AppendsTell(f, xs[..|xs| - 1]);
      OneMoreAppend(f, xs[..|xs| - 1], xs[|xs| - 1]);
      assert xs == xs[..|xs| - 1] + [xs[|xs| - 1]];
    }
  }

  /** After any appends a restart rebuilds what was there plus the surviving ones, unless a part was
      torn inside a character. */
  lemma ReplayAfterAppends(f: File, xs: seq<Append>)
    requires f.tail.NoTail? && Readable(f)
    ensures Replay(AppendAll(f, xs)) ==
      if TextParts(xs) then RememberAll(Replay(f), EraseAll(Survivors(xs))) else EMPTY
  {
    AppendsTell(f, xs);
    if TextParts(xs) {
      var g := AppendAll(f, xs);
      EraseAllAppend(Kept(xs), Hanging(xs));
      Assoc(Receipts(f.lines), EraseAll(Kept(xs)), EraseAll(Hanging(xs)));
      RememberAllAppend(EMPTY, Receipts(f.lines), EraseAll(Survivors(xs)));
      ReplayNoTail(f);
    }
  }

  // ------------------------------------------------------------------ what is lost

  predicate AllWritten(xs: seq<Append>) {
    forall i :: 0 <= i < |xs| ==> xs[i].outcome.Written?
  }

  lemma {:induction false} KeptAll(xs: seq<Append>)
    ensures |Kept(xs)| <= |xs|
    ensures |Kept(xs)| == |xs| <==> AllWritten(xs)
    ensures AllWritten(xs) ==> Clean(xs) && Kept(xs) == JobsOf(xs) && Hanging(xs) == []
  {
    if xs != [] {
      var before := xs[..|xs| - 1];
      KeptAll(before);
      assert AllWritten(xs) <==> AllWritten(before) && xs[|xs| - 1].outcome.Written?;
    }
  }

  /** Nothing is lost if and only if every append was written whole, except that the last may lack
      its newline. */
  lemma {:induction false} NothingLostExactly(xs: seq<Append>)
    ensures |Survivors(xs)| <= |xs| && |Hanging(xs)| <= 1
    ensures |Survivors(xs)| == |xs| <==>
      xs == [] || (AllWritten(xs[..|xs| - 1]) && (xs[|xs| - 1].outcome.Written? || xs[|xs| - 1].outcome.NoNewline?))
    ensures |Survivors(xs)| == |xs| ==> Survivors(xs) == JobsOf(xs)
  {
    if xs != [] {
      var before, x := xs[..|xs| - 1], xs[|xs| - 1];
      NothingLostExactly(before);
      KeptAll(before);
      assert Kept(before) + [] == Kept(before);
      if x.outcome.Written? {
        assert Survivors(xs) == Kept(xs);
      }
    }
  }

  // ------------------------------------------------------------------ runs with faults

  datatype Event = Insert(job: Job, outcome: Outcome, compacts: bool) | Reopen(compacts: bool)

  function Next(s: Store, e: Event): Store {
    match e
    case Insert(j, o, ok) => AfterInsert(s, j, o, ok)
    case Reopen(ok) => Opened(s.file, ok)
  }

  /** The file of the last compaction that succeeded and the memory it was written from, what was
      appended since, what memory was when it was last loaded or compacted, what was inserted
      since, and whether the store was reopened since that compaction. */
  datatype Trace = Trace(base: File, at: Mem, since: seq<Append>, from: Mem, seen: seq<Job>, reopened: bool)

  function Traced(s: Store, t: Trace, e: Event): Trace {
    var n := Next(s, e);
    match e
    case Insert(j, o, ok) =>
      if s.appends + 1 >= MAX_STORED_JOBS && ok then Trace(n.file, EraseMem(n.mem), [], EraseMem(n.mem), [], false)
      else t.(since := t.since + [Append(j, o)], seen := t.seen + [j])
    case Reopen(ok) =>
      if Readable(s.file) && ok then Trace(n.file, n.mem, [], n.mem, [], false)
      else t.(from := n.mem, seen := [], reopened := true)
  }

  function FaultyRun(s: Store, t: Trace, es: seq<Event>): (Store, Trace)
    decreases |es|
  {
    if es == [] then (s, t) else FaultyRun(Next(s, es[0]), Traced(s, t, es[0]), es[1..])
  }

  ghost predicate CleanBase(f: File) {
    Readable(f) && f.tail.NoTail? && Erased(f)
  }

  ghost predicate Tracks(s: Store, t: Trace) {
    && Coherent(s.mem) && Coherent(t.from) && CleanBase(t.base)
    && s.file == AppendAll(t.base, t.since)
    && EraseMem(s.mem) == RememberAll(t.from, EraseAll(t.seen))
    && Replay(t.base) == t.at
    && (!t.reopened ==> t.from == t.at && t.seen == JobsOf(t.since))
  }

  lemma {:induction false} AppendAllErased(f: File, xs: seq<Append>)
    requires Erased(f)
    ensures Erased(AppendAll(f, xs))
  {
    if xs != [] {
      var g, x := AppendAll(f, xs[..|xs| - 1]), xs[|xs| - 1];
      AppendAllErased(f, xs[..|xs| - 1]);
      ErasedEnd(g, if g.tail.NoTail? then Receipt(Erase(x.job)) else Garbage(TailUtf8(g.tail)));
    }
  }

  lemma ErasedEnd(g: File, l: Line)
    requires Erased(g) && (l.Receipt? ==> Erase(l.job) == l.job)
    ensures Erased(File(g.lines + [l], NoTail))
  {
    assert forall x :: x in g.lines + [l] <==> x in g.lines || x == l;
  }

  lemma SnapshotClean(m: Mem)
    requires Coherent(m)
    ensures CleanBase(File(Snapshot(m), NoTail)) && Replay(File(Snapshot(m), NoTail)) == EraseMem(m)
  {
    SnapshotReplays(m);
    SnapshotErased(m.jobs, m.order);
  }

  lemma ReplayIsErased(f: File)
    requires Erased(f)
    ensures EraseMem(Replay(f)) == Replay(f) && Coherent(Replay(f))
  {
    EmptyCoherent();
    ReplayCoherent(f);
    if Readable(f) {
      ReceiptsErased(f.lines);
      ReplayErased(EMPTY, Receipts(f.lines) + TailReceipts(f.tail));
    }
  }

  lemma InsertTracks(s: Store, t: Trace, j: Job, o: Outcome, ok: bool)
    requires Tracks(s, t)
    ensures Tracks(Next(s, Event.Insert(j, o, ok)), Traced(s, t, Event.Insert(j, o, ok)))
  {
    var m := Remember(s.mem, j);
    RememberCases(s.mem, j);
    EraseRemember(s.mem, j);
    if s.appends + 1 >= MAX_STORED_JOBS && ok {
      SnapshotClean(m);
      EraseRememberCoherent(m);
    } else {
      SeenOneMore(t.from, t.seen, j);
      SinceOneMore(t.base, t.since, j, o);
    }
  }

  lemma EraseRememberCoherent(m: Mem)
    requires Coherent(m)
    ensures Coherent(EraseMem(m))
  {
    assert EraseMem(m).order == m.order;
  }

  lemma SeenOneMore(from: Mem, seen: seq<Job>, j: Job)
    ensures RememberAll(from, EraseAll(seen + [j])) == Remember(RememberAll(from, EraseAll(seen)), Erase(j))
  {
    EraseAllEnd(seen, j);
    RememberAllAppend(from, EraseAll(seen), [Erase(j)]);
    var m := RememberAll(from, EraseAll(seen));
    assert [Erase(j)][1..] == [];
    assert RememberAll(m, [Erase(j)]) == RememberAll(Remember(m, Erase(j)), []);
  }

  lemma SinceOneMore(base: File, since: seq<Append>, j: Job, o: Outcome)
    ensures AppendAll(base, since + [Append(j, o)]) == Appended(AppendAll(base, since), j, o)
    ensures JobsOf(since + [Append(j, o)]) == JobsOf(since) + [j]
  {
    var xs := since + [Append(j, o)];
    assert xs[..|xs| - 1] == since && xs[|xs| - 1] == Append(j, o);
  }

  lemma ReopenTracks(s: Store, t: Trace, ok: bool)
    requires Tracks(s, t)
    ensures Tracks(Next(s, Reopen(ok)), Traced(s, t, Reopen(ok)))
  {
    AppendAllErased(t.base, t.since);
    ReplayIsErased(s.file);
    if Readable(s.file) && ok {
      SnapshotClean(Replay(s.file));
    }
  }

  /** Over every run, whatever fails, memory is coherent and holds every insert since it was last
      loaded, and the file is the last good compaction plus the appends since, each as it ended. */
  lemma {:induction false} FaultyRunTracks(s: Store, t: Trace, es: seq<Event>)
    requires Tracks(s, t)
    ensures Tracks(FaultyRun(s, t, es).0, FaultyRun(s, t, es).1)
    decreases |es|
  {
    if es != [] {
      match es[0] {
        case Insert(j, o, ok) => InsertTracks(s, t, j, o, ok);
        case Reopen(ok) => ReopenTracks(s, t, ok);
      }
      FaultyRunTracks(Next(s, es[0]), Traced(s, t, es[0]), es[1..]);
    }
  }

  /** What the next restart finds after such a run: the last good compaction and the survivors of
      the appends since, or nothing if a part was torn inside a character. */
  lemma RestartFinds(s: Store, t: Trace, es: seq<Event>)
    requires Tracks(s, t)
    ensures var (n, u) := FaultyRun(s, t, es);
      Replay(n.file) == if TextParts(u.since) then RememberAll(u.at, EraseAll(Survivors(u.since))) else EMPTY
  {
    FaultyRunTracks(s, t, es);
    var (n, u) := FaultyRun(s, t, es);
    ReplayAfterAppends(u.base, u.since);
  }

  /** Without a reopening in between, memory holds all appends since the last good compaction and
      the restart only the survivors: what a restart loses is exactly what was appended badly. */
  lemma RestartLoses(s: Store, t: Trace, es: seq<Event>)
    requires Tracks(s, t)
    ensures var (n, u) := FaultyRun(s, t, es);
      !u.reopened && TextParts(u.since) ==>
        && EraseMem(n.mem) == RememberAll(u.at, EraseAll(JobsOf(u.since)))
        && Replay(n.file) == RememberAll(u.at, EraseAll(Survivors(u.since)))
        && (|Survivors(u.since)| == |u.since| ==> Replay(n.file) == EraseMem(n.mem))
  {
    FaultyRunTracks(s, t, es);
    RestartFinds(s, t, es);
    NothingLostExactly(FaultyRun(s, t, es).1.since);
  }

  /** A store in step with its log starts such a run with nothing pending. */
  lemma SyncedTracks(s: Store)
    requires StoreOk(s)
    ensures Tracks(s, Trace(s.file, EraseMem(s.mem), [], EraseMem(s.mem), [], false))
  {
    EraseRememberCoherent(s.mem);
  }
}
