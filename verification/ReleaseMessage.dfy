/** Releasing an escrow by proof: the message rebuilt from the account, the signature-check
    instruction that carries it, and the account layout. */
module ReleaseMessage {
  import opened Bytes
  import opened Wrappers
  import opened SignedMessages
  import Seqs
  import Uuid

  type Key = s: seq<byte> | |s| == 32 witness seq(32, i => 0)
  type Signature = s: seq<byte> | |s| == 64 witness seq(64, i => 0)

  /** The message is rebuilt from the sixteen bytes the account stores. */
  method Rebuild(id: JobId, input: seq<byte>, output: seq<byte>, sha: Sha) returns (msg: seq<byte>)
    ensures msg == Payload(Outcome(Uuid.Text(id), input, output), sha)
    ensures |msg| == 120
  {
    msg := ThreePart(RESULT_DOMAIN, Uuid.Text(id), sha(input), sha(output));
  }

  /** The provider signed with the job id as the consumer wrote it. The rebuilt message is the
      signed one if and only if that text was hyphenated, unwrapped and lowercase. */
  lemma RebuiltIsSigned(job: seq<byte>, id: JobId, input: seq<byte>, output: seq<byte>, sha: Sha)
    requires Uuid.Parse(job) == Some(id)
    ensures Payload(Outcome(Uuid.Text(id), input, output), sha) == Payload(Outcome(job, input, output), sha)
      <==> |job| == 36 && Uuid.LowerCase(job)
  {
    Unambiguous(Outcome(Uuid.Text(id), input, output), Outcome(job, input, output), sha);
    Uuid.CanonicalExactly(job, id);
  }

  // ------------------------------------------------------------------ the signature-check instruction

  const KEY_AT := 16
  const SIGNATURE_AT := 48
  const MESSAGE_AT := 112

  function U16(n: nat): (s: seq<byte>)
    ensures |s| == 2
  {
    LittleEndian(n % TWO_16, 2)
  }

  /** One signature; seven 16-bit fields; key, signature and message inline. */
  function Header(length: nat, index: u16): (s: seq<byte>)
    ensures |s| == 16
  {
    [1, 0] + U16(SIGNATURE_AT) + U16(index) + U16(KEY_AT) + U16(index) + U16(MESSAGE_AT) + U16(length) + U16(index)
  }

  function InstructionData(key: Key, msg: seq<byte>, sig: Signature, index: u16): seq<byte> {
    Header(|msg|, index) + (key + (sig + msg))
  }

  method Ed25519VerifyIx(key: Key, msg: seq<byte>, sig: Signature, index: u16) returns (data: seq<byte>)
    ensures data == InstructionData(key, msg, sig, index)
  {
    var keyAt := 2 + 14;
    var sigAt := keyAt + 32;
    var msgAt := sigAt + 64;
    data := [1];
    data := data + [0];
    assert data == [1, 0];
    data := data + U16(sigAt);
    data := data + U16(index);
    data := data + U16(keyAt);
    data := data + U16(index);
    data := data + U16(msgAt);
    data := data + U16(|msg|);
    data := data + U16(index);
    ghost var header := data;
    data := data + key;
    data := data + sig;
    data := data + msg;
    Seqs.Assoc(header + key, sig, msg);
    Seqs.Assoc(header, key, sig + msg);
  }

  /** What the signature check reads at the offsets it is given. */
  datatype Checked = Checked(key: seq<byte>, sig: seq<byte>, msg: seq<byte>, indices: seq<nat>)

  function Read16(data: seq<byte>, at: nat): nat
    requires at + 2 <= |data|
  {
    var low: int, high: int := data[at], data[at + 1];
    low + 256 * high
  }

  function ReadCheck(data: seq<byte>): Option<Checked> {
    if |data| < 16 || data[0] != 1 then None
    else
      var sig, key, msg, size := Read16(data, 2), Read16(data, 6), Read16(data, 10), Read16(data, 12);
      if sig + 64 > |data| || key + 32 > |data| || msg + size > |data| then None
      else Some(Checked(data[key..key + 32], data[sig..sig + 64], data[msg..msg + size],
        [Read16(data, 4), Read16(data, 8), Read16(data, 14)]))
  }

  lemma U16Value(n: nat)
    requires n < TWO_16
    ensures U16(n) == [n % 256, n / 256]
  {
    assert LittleEndian(n, 2) == [n % 256] + LittleEndian(n / 256, 1);
    assert LittleEndian(n / 256, 1) == [n / 256] + LittleEndian(n / 256 / 256, 0);
  }

  lemma HeaderFields(length: nat, index: u16, rest: seq<byte>)
    ensures var d := Header(length, index) + rest;
      && d[0] == 1 && d[1] == 0
      && Read16(d, 2) == SIGNATURE_AT && Read16(d, 6) == KEY_AT && Read16(d, 10) == MESSAGE_AT
      && Read16(d, 12) == length % TWO_16
      && Read16(d, 4) == index && Read16(d, 8) == index && Read16(d, 14) == index
  {
    U16Value(SIGNATURE_AT);
    U16Value(KEY_AT);
    U16Value(MESSAGE_AT);
    U16Value(index);
    U16Value(length % TWO_16);
  }

  lemma Inline(header: seq<byte>, key: Key, sig: Signature, msg: seq<byte>, size: nat)
    requires |header| == 16 && size <= |msg|
    ensures var d := header + (key + (sig + msg));
      d[16..48] == key && d[48..112] == sig && d[112..112 + size] == msg[..size]
  {
  }

  /** The check reads back the key and the signature, and the message if and only if its length
      fits sixteen bits; a longer one is silently cut to the length modulo 65536. */
  lemma CheckReadsBack(key: Key, msg: seq<byte>, sig: Signature, index: u16)
    ensures ReadCheck(InstructionData(key, msg, sig, index)) ==
      Some(Checked(key, sig, msg[..|msg| % TWO_16], [index, index, index]))
    ensures msg[..|msg| % TWO_16] == msg <==> |msg| < TWO_16
  {
    HeaderFields(|msg|, index, key + (sig + msg));
    Inline(Header(|msg|, index), key, sig, msg, |msg| % TWO_16);
  }

  /** So for a canonical job id the release instruction makes the chain check exactly the message
      the provider signed, with the key and signature given. */
  lemma ReleaseChecksSignedMessage(job: seq<byte>, id: JobId, input: seq<byte>, output: seq<byte>, sha: Sha,
      key: Key, sig: Signature)
    requires Uuid.Parse(job) == Some(id) && |job| == 36 && Uuid.LowerCase(job)
    ensures var rebuilt := Payload(Outcome(Uuid.Text(id), input, output), sha);
      var here: u16 := 0xFFFF;
      ReadCheck(InstructionData(key, rebuilt, sig, here)) ==
        Some(Checked(key, sig, Payload(Outcome(job, input, output), sha), [here, here, here]))
  {
    RebuiltIsSigned(job, id, input, output, sha);
    CheckReadsBack(key, Payload(Outcome(job, input, output), sha), sig, 0xFFFF);
    assert |Payload(Outcome(job, input, output), sha)| == 120;
  }

  // ------------------------------------------------------------------ the escrow account

  datatype Job = Job(id: JobId, consumer: Key, provider: Key, mint: Key, amount: u64, deadline: i64, state: byte)

  const JOB_LEN := 138

  /** The documented account layout: discriminator, fields, bump, and whatever follows. */
  function Layout(discriminator: seq<byte>, job: Job, bump: byte, more: seq<byte>): seq<byte> {
    discriminator + (job.id + (job.consumer + (job.provider + (job.mint
      + (LittleEndian(job.amount, 8) + (LittleEndian(Bits64(job.deadline), 8) + ([job.state] + ([bump] + more))))))))
  }

  function U64At(data: seq<byte>, at: nat): u64
    requires at + 8 <= |data|
  {
    FromLittleEndianBound(data[at..at + 8]);
    Pow256Values();
    FromLittleEndian(data[at..at + 8])
  }

  function Parsed(data: seq<byte>): Result<Job, ()> {
    if |data| < JOB_LEN then Err(())
    else Ok(Job(data[8..24], data[24..56], data[56..88], data[88..120],
      U64At(data, 120), Signed64(U64At(data, 128)), data[136]))
  }

  /** The walk over the account data. */
  method ParseJob(data: seq<byte>) returns (r: Result<Job, ()>)
    ensures r == Parsed(data)
  {
    if |data| < JOB_LEN {
      return Err(());
    }
    var o := 8;
    var id: JobId := data[o..o + 16];
    o := o + 16;
    var consumer: Key := data[o..o + 32];
    o := o + 32;
    var provider: Key := data[o..o + 32];
    o := o + 32;
    var mint: Key := data[o..o + 32];
    o := o + 32;
    var amount := U64At(data, o);
    o := o + 8;
    var deadline := Signed64(U64At(data, o));
    o := o + 8;
    return Ok(Job(id, consumer, provider, mint, amount, deadline, data[o]));
  }

  lemma Cut(a: seq<byte>, b: seq<byte>, c: seq<byte>)
    ensures (a + (b + c))[|a|..|a| + |b|] == b
    ensures (a + b) + c == a + (b + c)
  {
  }

  lemma ReadU64(a: seq<byte>, n: u64, c: seq<byte>)
    ensures U64At(a + (LittleEndian(n, 8) + c), |a|) == n
  {
    Cut(a, LittleEndian(n, 8), c);
    Pow256Values();
    LittleEndianRoundTrip(n, 8);
  }

  /** Every job laid out as documented is read back field by field, whatever the discriminator,
      the bump and the bytes after it. */
  lemma LayoutRoundTrip(discriminator: seq<byte>, job: Job, bump: byte, more: seq<byte>)
    requires |discriminator| == 8
    ensures Parsed(Layout(discriminator, job, bump, more)) == Ok(job)
  {
    var tail := [job.state] + ([bump] + more);
    var timed := LittleEndian(Bits64(job.deadline), 8) + tail;
    var paid := LittleEndian(job.amount, 8) + timed;
    var data := Layout(discriminator, job, bump, more);
    Cut(discriminator, job.id, job.consumer + (job.provider + (job.mint + paid)));
    var a1 := discriminator + job.id;
    Cut(a1, job.consumer, job.provider + (job.mint + paid));
    var a2 := a1 + job.consumer;
    Cut(a2, job.provider, job.mint + paid);
    var a3 := a2 + job.provider;
    Cut(a3, job.mint, paid);
    var a4 := a3 + job.mint;
    ReadU64(a4, job.amount, timed);
    Cut(a4, LittleEndian(job.amount, 8), timed);
    var a5 := a4 + LittleEndian(job.amount, 8);
    ReadU64(a5, Bits64(job.deadline), tail);
    Cut(a5, LittleEndian(Bits64(job.deadline), 8), tail);
    assert data == (a5 + LittleEndian(Bits64(job.deadline), 8)) + tail;
  }

  lemma Placed(a: seq<byte>, b: seq<byte>, c: seq<byte>, n: nat, m: nat)
    requires |a| == n && |b| == m - n
    ensures |a + (b + c)| >= m && (a + (b + c))[n..m] == b && |a + b| == m && (a + b) + c == a + (b + c)
  {
  }

  /** Where the fields of an account lie: id, consumer, provider, mint, amount, deadline, state, bump. */
  lemma FieldPlaces(discriminator: seq<byte>, job: Job, bump: byte, more: seq<byte>)
    requires |discriminator| == 8
    ensures var d := Layout(discriminator, job, bump, more);
      && |d| == JOB_LEN + |more|
      && d[8..24] == job.id && d[24..56] == job.consumer && d[56..88] == job.provider && d[88..120] == job.mint
      && d[120..128] == LittleEndian(job.amount, 8) && d[128..136] == LittleEndian(Bits64(job.deadline), 8)
      && d[136] == job.state && d[137] == bump
  {
    var due, paid := LittleEndian(Bits64(job.deadline), 8), LittleEndian(job.amount, 8);
    var tail := [job.state] + ([bump] + more);
    Placed(discriminator, job.id, job.consumer + (job.provider + (job.mint + (paid + (due + tail)))), 8, 24);
    var a := discriminator + job.id;
    Placed(a, job.consumer, job.provider + (job.mint + (paid + (due + tail))), 24, 56);
    a := a + job.consumer;
    Placed(a, job.provider, job.mint + (paid + (due + tail)), 56, 88);
    a := a + job.provider;
    Placed(a, job.mint, paid + (due + tail), 88, 120);
    a := a + job.mint;
    Placed(a, paid, due + tail, 120, 128);
    a := a + paid;
    Placed(a, due, tail, 128, 136);
    assert Layout(discriminator, job, bump, more) == (a + due) + tail;
  }
}
