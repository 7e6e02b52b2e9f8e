/** The job log as bytes: receipts are printed texts, a crash cuts the append at a byte offset, and
    the start after it reads the file as one UTF-8 string, line by line. */
module LogBytes {
  import opened Wrappers
  import opened Bytes
  import opened JobLog
  import opened Newlines
  import Seqs
  import Utf8

  /** Printing a receipt and parsing a line. */
  datatype Codec = Codec(text: Job -> seq<byte>, parse: seq<byte> -> Option<Job>)

  /** What is asked of them: a receipt is one line of text that parses back, and no part of it
      short of the whole parses. */
  ghost predicate FaithfulAt(c: Codec, j: Job) {
    var r := c.text(j);
    && r != [] && NEWLINE !in r && Utf8.WellFormed(r) && c.parse(r) == Some(j)
    && forall k :: 0 < k < |r| ==> c.parse(r[..k]).None?
  }

  ghost predicate Faithful(c: Codec) {
    forall j :: FaithfulAt(c, j)
  }

  // ------------------------------------------------------------------ reading

  /** The lines a reader sees: every terminated one, and what follows the last newline. */
  function TextLines(s: seq<byte>): seq<seq<byte>> {
    Lines(s) + if Rest(s) == [] then [] else [Rest(s)]
  }

  function ParsedJobs(c: Codec, lines: seq<seq<byte>>): seq<Job> {
    if lines == [] then []
    else (if c.parse(lines[0]).Some? then [c.parse(lines[0]).value] else []) + ParsedJobs(c, lines[1..])
  }

  /** What opening the store on these bytes loads. */
  function ReplayBytes(c: Codec, s: seq<byte>): Mem {
    if Utf8.WellFormed(s) then RememberAll(EMPTY, ParsedJobs(c, TextLines(s))) else EMPTY
  }

  // ------------------------------------------------------------------ bytes and lines

  function LineOf(c: Codec, l: seq<byte>): Line {
    if !Utf8.WellFormed(l) then Garbage(false)
    else if c.parse(l).Some? then Receipt(c.parse(l).value)
    else Garbage(true)
  }

  function TailOf(c: Codec, r: seq<byte>): Tail {
    if r == [] then NoTail
    else if !Utf8.WellFormed(r) then Fragment(false)
    else if c.parse(r).Some? then Unended(c.parse(r).value)
    else Fragment(true)
  }

  function LinesOf(c: Codec, lines: seq<seq<byte>>): seq<Line> {
    if lines == [] then [] else [LineOf(c, lines[0])] + LinesOf(c, lines[1..])
  }

  /** The log of the line model that these bytes are. */
  function FileOf(c: Codec, s: seq<byte>): File {
    File(LinesOf(c, Lines(s)), TailOf(c, Rest(s)))
  }

  lemma {:induction false} LinesOfAppend(c: Codec, a: seq<seq<byte>>, b: seq<seq<byte>>)
    ensures LinesOf(c, a + b) == LinesOf(c, a) + LinesOf(c, b)
  {
    if a == [] {
      assert a + b == b;
    } else {
      Seqs.TailAppend(a, b);
      LinesOfAppend(c, a[1..], b);
      Seqs.Assoc([LineOf(c, a[0])], LinesOf(c, a[1..]), LinesOf(c, b));
    }
  }

  predicate TextLine(l: Line) {
    l.Receipt? || l.utf8
  }

  predicate AllText(lines: seq<Line>) {
    forall l :: l in lines ==> TextLine(l)
  }

  lemma AllTextCons(l: Line, lines: seq<Line>)
    ensures AllText([l] + lines) <==> TextLine(l) && AllText(lines)
  {
    assert forall x :: x in [l] + lines <==> x == l || x in lines;
  }

  /** The whole file is text if and only if every line and the end of it are. */
  lemma {:induction false} WholeIsText(c: Codec, s: seq<byte>)
    ensures Utf8.WellFormed(s) <==> AllText(LinesOf(c, Lines(s))) && Utf8.WellFormed(Rest(s))
    decreases |s|
  {
    match FindNewline(s) {
      case None =>
      case Some(n) =>
        assert s == s[..n] + ([NEWLINE] + s[n + 1..]);
        Utf8.Separates(s[..n], NEWLINE, s[n + 1..]);
        WholeIsText(c, s[n + 1..]);
        assert ([s[..n]] + Lines(s[n + 1..]))[1..] == Lines(s[n + 1..]);
        AllTextCons(LineOf(c, s[..n]), LinesOf(c, Lines(s[n + 1..])));
    }
  }

  lemma {:induction false} JobsAreReceipts(c: Codec, lines: seq<seq<byte>>)
    requires AllText(LinesOf(c, lines))
    ensures ParsedJobs(c, lines) == Receipts(LinesOf(c, lines))
  {
    if lines != [] {
      var l, later := LineOf(c, lines[0]), LinesOf(c, lines[1..]);
      AllTextCons(l, later);
      JobsAreReceipts(c, lines[1..]);
      assert ([l] + later)[1..] == later;
    }
  }

  lemma {:induction false} ParsedAppend(c: Codec, a: seq<seq<byte>>, b: seq<seq<byte>>)
    ensures ParsedJobs(c, a + b) == ParsedJobs(c, a) + ParsedJobs(c, b)
  {
    if a == [] {
      assert a + b == b;
    } else {
      Seqs.TailAppend(a, b);
      ParsedAppend(c, a[1..], b);
      Seqs.Assoc(if c.parse(a[0]).Some? then [c.parse(a[0]).value] else [], ParsedJobs(c, a[1..]), ParsedJobs(c, b));
    }
  }

  /** Reading the bytes is replaying the log they are. */
  lemma ReplayAgrees(c: Codec, s: seq<byte>)
    ensures Utf8.WellFormed(s) <==> Readable(FileOf(c, s))
    ensures ReplayBytes(c, s) == Replay(FileOf(c, s))
  {
    var f, r := FileOf(c, s), Rest(s);
    WholeIsText(c, s);
    assert Readable(f) <==> AllText(f.lines) && Utf8.WellFormed(r) by {
      assert Utf8.Decode([]) == Some([]);
    }
    if Readable(f) {
      JobsAreReceipts(c, Lines(s));
      var last: seq<seq<byte>> := if r == [] then [] else [r];
      ParsedAppend(c, Lines(s), last);
      assert ParsedJobs(c, last) == TailReceipts(f.tail) by {
        assert r != [] ==> last[1..] == [];
      }
    }
  }

  // ------------------------------------------------------------------ writing

  function Printed(c: Codec, j: Job): seq<byte> {
    c.text(Erase(j)) + [NEWLINE]
  }

  /** The file after a crash that let `k` bytes of the append through. */
  function CutImage(c: Codec, s: seq<byte>, j: Job, k: nat): seq<byte>
    requires k <= |Printed(c, j)|
  {
    s + Printed(c, j)[..k]
  }

  /** The crash point of the line model that such a cut is. */
  function PointOf(c: Codec, j: Job, k: nat): CrashPoint
    requires k <= |Printed(c, j)|
  {
    var r := c.text(Erase(j));
    if k == 0 then BeforeAppend
    else if k < |r| then DuringAppend(Utf8.WellFormed(r[..k]))
    else if k == |r| then BeforeNewline
    else AfterAppend
  }

  lemma AppendBytes(c: Codec, s: seq<byte>, t: seq<byte>)
    requires Rest(s) == []
    ensures FileOf(c, s + t) == File(FileOf(c, s).lines + LinesOf(c, Lines(t)), TailOf(c, Rest(t)))
  {
    LinesAppend(s, t);
    LinesOfAppend(c, Lines(s), Lines(t));
  }

  lemma AppendPart(c: Codec, s: seq<byte>, part: seq<byte>)
    requires Rest(s) == [] && NEWLINE !in part
    ensures FileOf(c, s + part) == File(FileOf(c, s).lines, TailOf(c, part))
  {
    AppendBytes(c, s, part);
    OneLine(part);
    assert FileOf(c, s).lines + [] == FileOf(c, s).lines;
  }

  lemma AppendLine(c: Codec, s: seq<byte>, line: seq<byte>)
    requires Rest(s) == [] && NEWLINE !in line
    ensures FileOf(c, s + (line + [NEWLINE])) == File(FileOf(c, s).lines + [LineOf(c, line)], NoTail)
  {
    AppendBytes(c, s, line + [NEWLINE]);
    OneLine(line);
    assert [line][1..] == [];
    assert LinesOf(c, [line]) == [LineOf(c, line)];
  }

  lemma TailEmpty(c: Codec, s: seq<byte>)
    ensures FileOf(c, s).tail == NoTail <==> Rest(s) == []
  {
  }

  /** The bytes left by a cut are the crash image of the point it is. */
  lemma CutIsCrash(c: Codec, s: Store, bytes: seq<byte>, j: Job, k: nat)
    requires Faithful(c) && s.file == FileOf(c, bytes) && s.file.tail == NoTail && k <= |Printed(c, j)|
    ensures FileOf(c, CutImage(c, bytes, j, k)) == CrashImage(s, j, PointOf(c, j, k))
  {
    var r := c.text(Erase(j));
    assert FaithfulAt(c, Erase(j));
    TailEmpty(c, bytes);
    if k == 0 {
      assert bytes + Printed(c, j)[..0] == bytes;
    } else if k <= |r| {
      assert Printed(c, j)[..k] == r[..k];
      assert NEWLINE !in r[..k];
      AppendPart(c, bytes, r[..k]);
      assert r[..|r|] == r;
    } else {
      assert Printed(c, j)[..k] == Printed(c, j);
      AppendLine(c, bytes, r);
    }
  }

  /** Between two characters of the receipt, or behind it. */
  predicate AtBoundary(c: Codec, j: Job, k: nat) {
    var r := c.text(Erase(j));
    k >= |r| || !Utf8.Continues(r[k])
  }

  /** A crash may cut the append at any byte. The next start finds the store from just before or
      just after the insert if and only if the cut is between two characters of the receipt, or
      there was nothing to lose; cut inside a character it finds nothing. */
  lemma CrashAtOffset(c: Codec, s: Store, bytes: seq<byte>, j: Job, k: nat)
    requires Faithful(c) && Synced(s) && s.file == FileOf(c, bytes) && k <= |Printed(c, j)|
    ensures var found, before, after := ReplayBytes(c, CutImage(c, bytes, j, k)), EraseMem(s.mem), EraseMem(Remember(s.mem, j));
      && (AtBoundary(c, j, k) ==> found == if k < |c.text(Erase(j))| then before else after)
      && (!AtBoundary(c, j, k) ==> found == EMPTY)
      && ((found == before || found == after) <==> AtBoundary(c, j, k) || s.mem.order == [])
  {
    var r := c.text(Erase(j));
    assert FaithfulAt(c, Erase(j));
    CutIsCrash(c, s, bytes, j, k);
    ReplayAgrees(c, CutImage(c, bytes, j, k));
    if k <= |r| {
      Utf8.CutExactly(r, k);
    }
    if k == 0 {
      assert Utf8.WellFormed(r[..0]) by {
        assert r[..0] == [] && Utf8.Decode([]) == Some([]);
      }
    }
    CrashConsistent(s, j, PointOf(c, j, k));
    CrashReplay(s, j, PointOf(c, j, k));
  }

  /** A receipt in ASCII never loses the log, wherever the append is cut. */
  lemma AsciiNeverLoses(c: Codec, s: Store, bytes: seq<byte>, j: Job, k: nat)
    requires Faithful(c) && Synced(s) && s.file == FileOf(c, bytes) && k <= |Printed(c, j)|
    requires Utf8.Ascii(c.text(Erase(j)))
    ensures var found := ReplayBytes(c, CutImage(c, bytes, j, k));
      found == EraseMem(s.mem) || found == EraseMem(Remember(s.mem, j))
  {
    CrashAtOffset(c, s, bytes, j, k);
  }

  /** A receipt that somewhere holds an e with acute accent, C3 A9, loses a nonempty log when the
      append is cut between these two bytes. */
  lemma TornReceiptLoses(c: Codec, s: Store, bytes: seq<byte>, j: Job, pre: seq<byte>, post: seq<byte>)
    requires Faithful(c) && Synced(s) && s.file == FileOf(c, bytes) && s.mem.order != []
    requires c.text(Erase(j)) == pre + ([0xC3, 0xA9] + post)
    ensures ReplayBytes(c, CutImage(c, bytes, j, |pre| + 1)) == EMPTY != EraseMem(s.mem)
  {
    var r := c.text(Erase(j));
    assert r[|pre| + 1] == 0xA9;
    CrashAtOffset(c, s, bytes, j, |pre| + 1);
    AfterIsNotEmpty(s.mem, j);
  }

  // ------------------------------------------------------------------ compaction and runs

  /** What compaction writes, as bytes. */
  function PrintedLines(c: Codec, lines: seq<Line>): seq<byte> {
    if lines == [] then []
    else
      var last := lines[|lines| - 1];
      PrintedLines(c, lines[..|lines| - 1]) + (if last.Receipt? then c.text(last.job) + [NEWLINE] else [])
  }

  lemma {:induction false} PrintedReads(c: Codec, lines: seq<Line>)
    requires Faithful(c) && forall l :: l in lines ==> l.Receipt?
    ensures FileOf(c, PrintedLines(c, lines)) == File(lines, NoTail)
  {
    if lines != [] {
      var before, l := lines[..|lines| - 1], lines[|lines| - 1];
      PrintedReads(c, before);
      assert FaithfulAt(c, l.job) && l in lines;
      TailEmpty(c, PrintedLines(c, before));
      AppendLine(c, PrintedLines(c, before), c.text(l.job));
      assert before + [l] == lines;
    }
  }

  /** A compacted log reads back, from its bytes, as the store it was written from. */
  lemma CompactedReads(c: Codec, m: Mem)
    requires Faithful(c) && Coherent(m)
    ensures ReplayBytes(c, PrintedLines(c, Snapshot(m))) == EraseMem(m)
  {
    SnapshotErased(m.jobs, m.order);
    PrintedReads(c, Snapshot(m));
    ReplayAgrees(c, PrintedLines(c, Snapshot(m)));
    SnapshotReplays(m);
  }

  datatype ByteEvent = Done(job: Job) | Restarted | Cut(job: Job, at: nat) | Renamed(job: Job)

  /** Every cut is within its append and between two characters. */
  ghost predicate Boundaries(c: Codec, es: seq<ByteEvent>) {
    forall e :: e in es && e.Cut? ==> e.at <= |Printed(c, e.job)| && AtBoundary(c, e.job, e.at)
  }

  function EventOf(c: Codec, e: ByteEvent): Event {
    match e
    case Done(j) => Insert(j)
    case Restarted => Restart
    case Cut(j, k) => if k <= |Printed(c, j)| then Crash(j, PointOf(c, j, k)) else Insert(j)
    case Renamed(j) => Crash(j, AfterRename)
  }

  function EventsOf(c: Codec, es: seq<ByteEvent>): seq<Event> {
    if es == [] then [] else [EventOf(c, es[0])] + EventsOf(c, es[1..])
  }

  lemma {:induction false} BoundaryEvents(c: Codec, es: seq<ByteEvent>)
    requires Faithful(c) && Boundaries(c, es)
    ensures forall e :: e in EventsOf(c, es) ==> !(e.Crash? && e.point == DuringAppend(false))
  {
    if es != [] {
      var e := es[0];
      assert e in es;
      if e.Cut? && e.at < |c.text(Erase(e.job))| {
        assert FaithfulAt(c, Erase(e.job));
        Utf8.CutExactly(c.text(Erase(e.job)), e.at);
      }
      assert Boundaries(c, es[1..]);
      BoundaryEvents(c, es[1..]);
    }
  }

  /** Over every run whose crashes cut appends between characters, anywhere, the store holds what a
      store that never stopped would hold after the durable inserts. */
  lemma RunAtOffsets(c: Codec, s: Store, es: seq<ByteEvent>)
    requires Faithful(c) && StoreOk(s) && Boundaries(c, es)
    ensures StoreOk(Run(s, EventsOf(c, es)))
    ensures EraseMem(Run(s, EventsOf(c, es)).mem)
      == RememberAll(EraseMem(s.mem), EraseAll(DurableJobs(EventsOf(c, es))))
  {
    BoundaryEvents(c, es);
    RunDurable(s, EventsOf(c, es));
  }
}
