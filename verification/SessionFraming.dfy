/** Length-prefixed frames and the session frames inside them: round trips, and what a reader sees
    of a stream that is cut anywhere. */
module SessionFraming {
  import opened Wrappers
  import opened Bytes
  import Seqs
  import Utf8

  const MAX_FRAME := 8 * 1024 * 1024

  /** The text of an error is kept as its UTF-8 bytes. */
  datatype SessionFrame =
    | Data(data: seq<byte>)
    | Resize(cols: u16, rows: u16)
    | Eof
    | Exit(code: Option<i32>)
    | Error(message: seq<byte>)

  datatype ReadError = Truncated | TooLong | Malformed

  const TAG_DATA: byte := 1
  const TAG_RESIZE: byte := 2
  const TAG_EOF: byte := 3
  const TAG_EXIT: byte := 4
  const TAG_ERROR: byte := 5

  const I32_MIN: i32 := -TWO_31

  function Frame(payload: seq<byte>): seq<byte> {
    BigEndian(|payload|, 4) + payload
  }

  datatype Read = Clean | Whole(payload: seq<byte>, rest: seq<byte>) | Failed(error: ReadError)

  function ReadFrom(s: seq<byte>): (r: Read)
    ensures r.Whole? ==> |r.rest| < |s|
  {
    if s == [] then Clean
    else if |s| < 4 then Failed(Truncated)
    else
      var len := FromBigEndian(s[..4]);
      if len > MAX_FRAME then Failed(TooLong)
      else if |s| - 4 < len then Failed(Truncated)
      else Whole(s[4..][..len], s[4..][len..])
  }

  function Encode(f: SessionFrame): seq<byte> {
    match f
    case Data(d) => [TAG_DATA] + d
    case Resize(cols, rows) => [TAG_RESIZE] + (BigEndian(cols, 2) + BigEndian(rows, 2))
    case Eof => [TAG_EOF]
    case Exit(code) => [TAG_EXIT] + BigEndian(Bits32(if code.Some? then code.value else I32_MIN), 4)
    case Error(message) => [TAG_ERROR] + message
  }

  function Decode(buf: seq<byte>): Result<SessionFrame, ReadError> {
    if buf == [] then Err(Malformed)
    else
      var tag, payload := buf[0], buf[1..];
      if tag == TAG_DATA then Ok(Data(payload))
      else if tag == TAG_RESIZE then
        if |payload| != 4 then Err(Malformed)
        else Ok(Resize(From16(payload[..2]), From16(payload[2..])))
      else if tag == TAG_EOF then Ok(Eof)
      else if tag == TAG_EXIT then
        if |payload| != 4 then Err(Malformed)
        else
          var code := From32(payload);
          Ok(Exit(if code != I32_MIN then Some(code) else None))
      else if tag == TAG_ERROR then Ok(Error(Utf8.Lossy(payload)))
      else Err(Malformed)
  }

  function From16(s: seq<byte>): u16
    requires |s| == 2
  {
    FromBigEndianBound(s);
    Pow256Values();
    FromBigEndian(s)
  }

  function From32(s: seq<byte>): i32
    requires |s| == 4
  {
    FromBigEndianBound(s);
    Pow256Values();
    Signed32(FromBigEndian(s))
  }

  /** The bytes of a frame: its length in four big-endian bytes, then the payload. */
  lemma FrameLayout(payload: seq<byte>)
    requires |payload| < TWO_32
    ensures var n, p := |payload|, Frame(payload);
      p == [n / 0x100_0000, n / 0x1_0000 % 256, n / 256 % 256, n % 256] + payload
  {
    FourBytes(|payload|);
  }

  lemma TwoBytes(n: u16)
    ensures BigEndian(n, 2) == [n / 256, n % 256]
  {
    assert BigEndian(n / 256, 1) == BigEndian(n / 256 / 256, 0) + [n / 256 % 256];
  }

  lemma FourBytes(n: u32)
    ensures BigEndian(n, 4) == [n / 0x100_0000, n / 0x1_0000 % 256, n / 256 % 256, n % 256]
  {
    var w: nat :| w == 4;
    var a, b, c := n / 256, n / 0x1_0000, n / 0x100_0000;
    assert BigEndian(c, w - 3) == BigEndian(c / 256, w - 4) + [c % 256];
    assert BigEndian(b, w - 2) == BigEndian(c, w - 3) + [b % 256];
    assert BigEndian(a, w - 1) == BigEndian(b, w - 2) + [a % 256];
    assert BigEndian(n, w) == BigEndian(a, w - 1) + [n % 256];
  }

  /** The bytes of a session frame: a tag, then its fields, numbers high byte first, the exit code in
      two's complement with i32::MIN for none. */
  lemma EncodeLayout(f: SessionFrame)
    ensures match f
      case Data(d) => Encode(f) == [1] + d
      case Resize(cols, rows) => Encode(f) == [2, cols / 256, cols % 256, rows / 256, rows % 256]
      case Eof => Encode(f) == [3]
      case Exit(None) => Encode(f) == [4, 128, 0, 0, 0]
      case Exit(Some(code)) =>
        var n := if code < 0 then code + TWO_32 else code;
        Encode(f) == [4, n / 0x100_0000, n / 0x1_0000 % 256, n / 256 % 256, n % 256]
      case Error(message) => Encode(f) == [5] + message
  {
    match f
    case Resize(cols, rows) =>
      TwoBytes(cols);
      TwoBytes(rows);
    case Exit(code) => FourBytes(Bits32(if code.Some? then code.value else I32_MIN));
    case _ =>
  }

  /** What a frame reads back as. */
  function Canonical(f: SessionFrame): SessionFrame {
    if f == Exit(Some(I32_MIN)) then Exit(None)
    else if f.Error? then Error(Utf8.Lossy(f.message))
    else f
  }

  lemma ResizeReads(cols: u16, rows: u16)
    ensures Decode(Encode(Resize(cols, rows))) == Ok(Resize(cols, rows))
  {
    var c, r := BigEndian(cols, 2), BigEndian(rows, 2);
    assert ([TAG_RESIZE] + (c + r))[1..] == c + r;
    assert (c + r)[..2] == c && (c + r)[2..] == r;
    Pow256Values();
    BigEndianRoundTrip(cols, 2);
    BigEndianRoundTrip(rows, 2);
  }

  lemma ExitReads(code: Option<i32>)
    ensures Decode(Encode(Exit(code))) == Ok(Canonical(Exit(code)))
  {
    var n := Bits32(if code.Some? then code.value else I32_MIN);
    assert ([TAG_EXIT] + BigEndian(n, 4))[1..] == BigEndian(n, 4);
    Pow256Values();
    BigEndianRoundTrip(n, 4);
  }

  lemma FrameReads(f: SessionFrame)
    ensures Decode(Encode(f)) == Ok(Canonical(f))
  {
    match f
    case Data(d) => assert ([TAG_DATA] + d)[1..] == d;
    case Resize(cols, rows) => ResizeReads(cols, rows);
    case Eof =>
    case Exit(code) => ExitReads(code);
    case Error(message) => assert ([TAG_ERROR] + message)[1..] == message;
  }

  /** A session frame reads back as itself if and only if it is not the exit code i32::MIN and its
      error text, as for every string, is UTF-8. */
  lemma FrameRoundTrip(f: SessionFrame)
    ensures Decode(Encode(f)) == Ok(Canonical(f))
    ensures Decode(Encode(f)) == Ok(f) <==>
      f != Exit(Some(I32_MIN)) && (f.Error? ==> Utf8.WellFormed(f.message))
  {
    FrameReads(f);
    if f.Error? {
      Utf8.LossyRepairs(f.message);
    }
  }

  /** Which frame could have been written as `buf`. */
  lemma WrittenAs(buf: seq<byte>) returns (g: SessionFrame)
    requires Decode(buf).Ok? && buf[0] != TAG_EOF
    ensures buf == Encode(g)
  {
    var tag, payload := buf[0], buf[1..];
    assert buf == [tag] + payload;
    if tag == TAG_DATA {
      g := Data(payload);
    } else if tag == TAG_RESIZE {
      g := Resize(From16(payload[..2]), From16(payload[2..]));
      ResizeWritten(payload);
    } else if tag == TAG_EXIT {
      g := Exit(Some(From32(payload)));
      ExitWritten(payload);
    } else {
      g := Error(payload);
    }
  }

  lemma ResizeWritten(payload: seq<byte>)
    requires |payload| == 4
    ensures BigEndian(From16(payload[..2]), 2) + BigEndian(From16(payload[2..]), 2) == payload
  {
    BigEndianReads(payload[..2]);
    BigEndianReads(payload[2..]);
  }

  lemma ExitWritten(payload: seq<byte>)
    requires |payload| == 4
    ensures BigEndian(Bits32(From32(payload)), 4) == payload
  {
    FromBigEndianBound(payload);
    Pow256Values();
    BigEndianReads(payload);
  }

  ghost predicate Writes(g: SessionFrame, buf: seq<byte>, f: SessionFrame) {
    buf == Encode(g) && Canonical(g) == f
  }

  /** Bytes are read as a frame if and only if they are what is written for one that reads back as it,
      or begin with the end-of-file tag: any other tag, a wrong length or nothing at all is refused. */
  lemma DecodeExactly(buf: seq<byte>, f: SessionFrame)
    ensures Decode(buf) == Ok(f) <==> (exists g :: Writes(g, buf, f)) || (f == Eof && [TAG_EOF] <= buf)
  {
    if Decode(buf) == Ok(f) && buf[0] != TAG_EOF {
      var g := WrittenAs(buf);
      FrameReads(g);
      assert Writes(g, buf, f);
    }
    if exists g :: Writes(g, buf, f) {
      var g :| Writes(g, buf, f);
      FrameReads(g);
    }
  }

  // ------------------------------------------------------------------ whole streams

  predicate Fits(f: SessionFrame) {
    |Encode(f)| <= MAX_FRAME
  }

  /** The bytes of each frame. */
  function Chunks(frames: seq<SessionFrame>): (chunks: seq<seq<byte>>)
    ensures |chunks| == |frames|
  {
    if frames == [] then [] else [Frame(Encode(frames[0]))] + Chunks(frames[1..])
  }

  function Wire(frames: seq<SessionFrame>): seq<byte> {
    Seqs.Flatten(Chunks(frames))
  }

  /** How a stream ends: cleanly between frames, or with an error. */
  datatype Session = Session(frames: seq<SessionFrame>, ending: Result<(), ReadError>)

  function ReadAll(s: seq<byte>): Session
    decreases |s|
  {
    match ReadFrom(s)
    case Clean => Session([], Ok(()))
    case Failed(e) => Session([], Err(e))
    case Whole(payload, rest) =>
      match Decode(payload)
      case Err(e) => Session([], Err(e))
      case Ok(f) => Session([f] + ReadAll(rest).frames, ReadAll(rest).ending)
  }

  function Canonicals(frames: seq<SessionFrame>): seq<SessionFrame> {
    if frames == [] then [] else [Canonical(frames[0])] + Canonicals(frames[1..])
  }

  lemma ReadWhole(payload: seq<byte>, rest: seq<byte>)
    requires |payload| <= MAX_FRAME
    ensures ReadFrom(Frame(payload) + rest) == Whole(payload, rest)
  {
    var head := BigEndian(|payload|, 4);
    Pow256Values();
    BigEndianRoundTrip(|payload|, 4);
    Seqs.Assoc(head, payload, rest);
    var s := head + (payload + rest);
    assert s[..4] == head && s[4..] == payload + rest;
    assert (payload + rest)[..|payload|] == payload && (payload + rest)[|payload|..] == rest;
  }

  /** A frame is read if and only if the stream begins with one that is not too long; the end is clean
      if and only if there is nothing, and a length beyond the limit is refused before its payload. */
  lemma ReadExactly(s: seq<byte>, payload: seq<byte>, rest: seq<byte>)
    ensures ReadFrom(s) == Whole(payload, rest) <==> |payload| <= MAX_FRAME && s == Frame(payload) + rest
    ensures ReadFrom(s) == Clean <==> s == []
    ensures ReadFrom(s) == Failed(TooLong) <==> |s| >= 4 && FromBigEndian(s[..4]) > MAX_FRAME
  {
    if |payload| <= MAX_FRAME {
      ReadWhole(payload, rest);
    }
    if ReadFrom(s) == Whole(payload, rest) {
      BigEndianReads(s[..4]);
      Seqs.Assoc(s[..4], payload, rest);
      assert s == s[..4] + s[4..];
      assert s[4..] == payload + rest;
    }
  }

  /** A frame cut short is an error, except that nothing at all is a clean end. */
  lemma ReadCut(payload: seq<byte>, n: nat)
    requires |payload| <= MAX_FRAME && n < 4 + |payload|
    ensures ReadFrom(Frame(payload)[..n]) == if n == 0 then Clean else Failed(Truncated)
  {
    if n >= 4 {
      var head := BigEndian(|payload|, 4);
      Pow256Values();
      BigEndianRoundTrip(|payload|, 4);
      assert Frame(payload)[..n][..4] == head;
    }
  }

  /** The number of frames that lie wholly within the first `n` bytes. */
  function WholeFrames(frames: seq<SessionFrame>, n: nat): (k: nat)
    ensures k <= |frames|
  {
    Seqs.WholeParts(Chunks(frames), n)
  }

  function Then(f: SessionFrame, s: Session): Session {
    Session([f] + s.frames, s.ending)
  }

  lemma ReadOn(f: SessionFrame, rest: seq<byte>)
    requires Fits(f)
    ensures ReadAll(Frame(Encode(f)) + rest) == Then(Canonical(f), ReadAll(rest))
  {
    ReadWhole(Encode(f), rest);
    FrameRoundTrip(f);
  }

  lemma ChunksCons(f: SessionFrame, later: seq<SessionFrame>, rest: seq<byte>)
    ensures Wire([f] + later) + rest == Frame(Encode(f)) + (Wire(later) + rest)
  {
    assert ([f] + later)[1..] == later;
    assert ([Frame(Encode(f))] + Chunks(later))[1..] == Chunks(later);
    Seqs.Assoc(Frame(Encode(f)), Wire(later), rest);
  }

  /** Whole frames read back in order, and reading goes on with what follows them. */
  lemma {:induction false} ReadMany(frames: seq<SessionFrame>, rest: seq<byte>)
    requires forall i :: 0 <= i < |frames| ==> Fits(frames[i])
    ensures ReadAll(Wire(frames) + rest) == Session(Canonicals(frames) + ReadAll(rest).frames, ReadAll(rest).ending)
    decreases |frames|
  {
    if frames == [] {
      assert Wire(frames) + rest == rest;
      assert Canonicals(frames) + ReadAll(rest).frames == ReadAll(rest).frames;
    } else {
      var f, later := frames[0], frames[1..];
      assert frames == [f] + later;
      ChunksCons(f, later, rest);
      ReadOn(f, Wire(later) + rest);
      ReadMany(later, rest);
      Seqs.Assoc([Canonical(f)], Canonicals(later), ReadAll(rest).frames);
    }
  }

  lemma ChunksOfCons(f: SessionFrame, later: seq<SessionFrame>)
    ensures Chunks([f] + later) == [Frame(Encode(f))] + Chunks(later)
  {
    assert ([f] + later)[1..] == later;
  }

  lemma {:induction false} ChunkAt(frames: seq<SessionFrame>, k: nat)
    requires k < |frames|
    ensures Chunks(frames)[k] == Frame(Encode(frames[k]))
  {
    if k > 0 {
      ChunkAt(frames[1..], k - 1);
    }
  }

  lemma {:induction false} ChunksTake(frames: seq<SessionFrame>, k: nat)
    requires k <= |frames|
    ensures Chunks(frames)[..k] == Chunks(frames[..k])
    decreases |frames|
  {
    if frames != [] && k > 0 {
      var f, later := frames[0], frames[1..];
      ChunksTake(later, k - 1);
      Seqs.ConsTake(Frame(Encode(f)), Chunks(later), k);
      assert frames[..k] == [f] + later[..k - 1];
      ChunksOfCons(f, later[..k - 1]);
    }
  }

  /** A stream cut after any number of bytes yields exactly the whole frames before the cut, and ends
      cleanly if and only if the cut is on a frame boundary. */
  lemma CutStream(frames: seq<SessionFrame>, n: nat)
    requires (forall i :: 0 <= i < |frames| ==> Fits(frames[i])) && n <= |Wire(frames)|
    ensures var whole := frames[..WholeFrames(frames, n)];
      ReadAll(Wire(frames)[..n]) == Session(Canonicals(whole), if n == |Wire(whole)| then Ok(()) else Err(Truncated))
  {
    var k := WholeFrames(frames, n);
    var whole := frames[..k];
    var r := Seqs.CutFlatten(Chunks(frames), n);
    ChunksTake(frames, k);
    if k < |frames| {
      ChunkAt(frames, k);
      var part := Frame(Encode(frames[k]))[..r];
      CutFrameReads(frames[k], r);
      ReadMany(whole, part);
    } else {
      ReadMany(whole, []);
      assert Wire(whole) + [] == Wire(whole);
    }
    assert Canonicals(whole) + [] == Canonicals(whole);
  }

  lemma CutFrameReads(f: SessionFrame, r: nat)
    requires Fits(f) && r < |Frame(Encode(f))|
    ensures ReadAll(Frame(Encode(f))[..r]) == Session([], if r == 0 then Ok(()) else Err(Truncated))
  {
    ReadCut(Encode(f), r);
  }

  /** Any list of frames reads back, in order, and the stream ends cleanly. */
  lemma StreamRoundTrip(frames: seq<SessionFrame>)
    requires forall i :: 0 <= i < |frames| ==> Fits(frames[i])
    ensures ReadAll(Wire(frames)) == Session(Canonicals(frames), Ok(()))
  {
    ReadMany(frames, []);
    assert Wire(frames) + [] == Wire(frames) && Canonicals(frames) + [] == Canonicals(frames);
  }

  // ------------------------------------------------------------------ streams in memory

  class SendStream {
    var sent: seq<byte>

    constructor ()
      ensures sent == []
    {
      sent := [];
    }

    method WriteAll(bytes: seq<byte>)
      modifies this
      ensures sent == old(sent) + bytes
    {
      sent := sent + bytes;
    }
  }

  class RecvStream {
    var unread: seq<byte>

    constructor (bytes: seq<byte>)
      ensures unread == bytes
    {
      unread := bytes;
    }

    /** Fills the buffer, or reports how many bytes were left. */
    method ReadExact(buf: array<byte>) returns (r: Result<(), nat>)
      modifies this, buf
      ensures r.Ok? <==> |old(unread)| >= buf.Length
      ensures r.Ok? ==> buf[..] == old(unread)[..buf.Length] && unread == old(unread)[buf.Length..]
      ensures r.Err? ==> r.error == |old(unread)| && unread == []
    {
      if |unread| < buf.Length {
        r := Err(|unread|);
        unread := [];
        return;
      }
      var i := 0;
      while i < buf.Length
        invariant 0 <= i <= buf.Length && unread == old(unread)
        invariant buf[..i] == unread[..i]
        modifies buf
      {
        buf[i] := unread[i];
        i := i + 1;
      }
      unread := unread[buf.Length..];
      return Ok(());
    }
  }

  method WriteFrame(send: SendStream, bytes: seq<byte>) returns (ok: bool)
    modifies send
    ensures ok <==> |bytes| <= MAX_FRAME
    ensures send.sent == old(send.sent) + if ok then Frame(bytes) else []
  {
    if |bytes| > MAX_FRAME {
      assert send.sent + [] == send.sent;
      return false;
    }
    Seqs.Assoc(send.sent, BigEndian(|bytes|, 4), bytes);
    send.WriteAll(BigEndian(|bytes|, 4));
    send.WriteAll(bytes);
    return true;
  }

  /** None is a clean end of stream. */
  method ReadFrame(recv: RecvStream) returns (r: Result<Option<seq<byte>>, ReadError>)
    modifies recv
    ensures match ReadFrom(old(recv.unread))
      case Clean => r == Ok(None)
      case Whole(payload, rest) => r == Ok(Some(payload)) && recv.unread == rest
      case Failed(e) => r == Err(e)
  {
    var head := new byte[4];
    var first := recv.ReadExact(head);
    if first.Err? {
      return if first.error == 0 then Ok(None) else Err(Truncated);
    }
    var len := FromBigEndian(head[..]);
    if len > MAX_FRAME {
      return Err(TooLong);
    }
    var buf := new byte[len];
    var second := recv.ReadExact(buf);
    if second.Err? {
      return Err(Truncated);
    }
    return Ok(Some(buf[..]));
  }

  method EncodeFrame(f: SessionFrame) returns (buf: seq<byte>)
    ensures buf == Encode(f)
  {
    match f {
      case Data(d) =>
        buf := [TAG_DATA];
        buf := buf + d;
      case Resize(cols, rows) =>
        buf := [TAG_RESIZE];
        Seqs.Assoc(buf, BigEndian(cols, 2), BigEndian(rows, 2));
        buf := buf + BigEndian(cols, 2);
        buf := buf + BigEndian(rows, 2);
      case Eof =>
        buf := [TAG_EOF];
      case Exit(code) =>
        buf := [TAG_EXIT];
        buf := buf + BigEndian(Bits32(if code.Some? then code.value else I32_MIN), 4);
      case Error(message) =>
        buf := [TAG_ERROR];
        buf := buf + message;
    }
  }

  method WriteSessionFrame(send: SendStream, f: SessionFrame) returns (ok: bool)
    modifies send
    ensures ok <==> Fits(f)
    ensures send.sent == old(send.sent) + if ok then Frame(Encode(f)) else []
  {
    var buf := EncodeFrame(f);
    ok := WriteFrame(send, buf);
  }

  method ReadSessionFrame(recv: RecvStream) returns (r: Result<Option<SessionFrame>, ReadError>)
    modifies recv
    ensures match ReadFrom(old(recv.unread))
      case Clean => r == Ok(None)
      case Failed(e) => r == Err(e)
      case Whole(payload, rest) =>
        recv.unread == rest && r == match Decode(payload) case Ok(f) => Ok(Some(f)) case Err(e) => Err(e)
  {
    var frame := ReadFrame(recv);
    if frame.Err? {
      return Err(frame.error);
    }
    if frame.value.None? {
      return Ok(None);
    }
    var decoded := Decode(frame.value.value);
    if decoded.Err? {
      return Err(decoded.error);
    }
    return Ok(Some(decoded.value));
  }
}
