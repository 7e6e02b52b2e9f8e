/** The byte strings that provider, directory and consumer keys sign: injective and separated by
    domain. */
module SignedMessages {
  import opened Bytes
  import Seqs

  /** SHA-256 is some function to 32 bytes. */
  type Digest = s: seq<byte> | |s| == 32 witness seq(32, i => 0)

  type Sha = seq<byte> -> Digest

  /** The 16 raw bytes of a job id. */
  type JobId = s: seq<byte> | |s| == 16 witness seq(16, i => 0)

  /** Texts are their UTF-8 bytes; times are Unix seconds. */
  datatype Message =
    | Outcome(job: seq<byte>, input: seq<byte>, output: seq<byte>)
    | Announcement(issuedAt: i64, payload: seq<byte>)
    | Scores(issuedAt: i64, payload: seq<byte>)
    | EscrowRun(id: JobId, input: seq<byte>, expiry: i64)

  function Ascii(s: string): seq<byte>
    requires forall i :: 0 <= i < |s| ==> s[i] as int < 128
  {
    seq(|s|, i requires 0 <= i < |s| => s[i] as int)
  }

  const RESULT_DOMAIN := Ascii("cloudiy/result/v2")
  const ANNOUNCE_DOMAIN := Ascii("cloudiy/announce/v1")
  const REPUTATION_DOMAIN := Ascii("cloudiy/reputation/v1")
  const ESCROW_RUN_DOMAIN := Ascii("cloudiy/escrow-run/v3")

  const ZERO: seq<byte> := [0]

  function Domain(m: Message): seq<byte> {
    match m
    case Outcome(_, _, _) => RESULT_DOMAIN
    case Announcement(_, _) => ANNOUNCE_DOMAIN
    case Scores(_, _) => REPUTATION_DOMAIN
    case EscrowRun(_, _, _) => ESCROW_RUN_DOMAIN
  }

  /** Eight bytes, big-endian, two's complement. */
  function Seconds(t: i64): (s: seq<byte>)
    ensures |s| == 8
  {
    BigEndian(Bits64(t), 8)
  }

  function Fields(m: Message, sha: Sha): seq<byte> {
    match m
    case Outcome(job, input, output) => job + (ZERO + (sha(input) + (ZERO + sha(output))))
    case Announcement(issuedAt, payload) => Seconds(issuedAt) + (ZERO + payload)
    case Scores(issuedAt, payload) => Seconds(issuedAt) + (ZERO + payload)
    case EscrowRun(id, input, expiry) => id + (ZERO + (sha(input) + (ZERO + Seconds(expiry))))
  }

  function Payload(m: Message, sha: Sha): seq<byte> {
    Domain(m) + (ZERO + Fields(m, sha))
  }

  /** Same kind and same content, where inputs and outputs count as their digests. */
  predicate Same(a: Message, b: Message, sha: Sha) {
    match (a, b)
    case (Outcome(j, i, o), Outcome(k, p, q)) => j == k && sha(i) == sha(p) && sha(o) == sha(q)
    case (Announcement(t, p), Announcement(u, q)) => t == u && p == q
    case (Scores(t, p), Scores(u, q)) => t == u && p == q
    case (EscrowRun(j, i, t), EscrowRun(k, p, u)) => j == k && sha(i) == sha(p) && t == u
    case _ => false
  }

  lemma Split(a: seq<byte>, b: seq<byte>, c: seq<byte>, d: seq<byte>)
    requires a + b == c + d && |a| == |c|
    ensures a == c && b == d
  {
    assert a == (a + b)[..|a|] && c == (c + d)[..|a|];
    assert b == (a + b)[|a|..] && d == (c + d)[|a|..];
  }

  /** A zero byte ends a zero-free prefix unambiguously. */
  lemma ZeroDelimits(a: seq<byte>, b: seq<byte>, c: seq<byte>, d: seq<byte>)
    requires a + (ZERO + b) == c + (ZERO + d) && 0 !in a && 0 !in c
    ensures a == c && b == d
  {
    var s := a + (ZERO + b);
    assert s[|a|] == 0 && s[|c|] == 0;
    assert forall i :: 0 <= i < |a| ==> s[i] == a[i];
    assert forall i :: 0 <= i < |c| ==> s[i] == c[i];
    assert |a| == |c|;
    Split(a, ZERO + b, c, ZERO + d);
    Split(ZERO, b, ZERO, d);
  }

  lemma DomainsZeroFree(m: Message)
    ensures 0 !in Domain(m)
  {
  }

  lemma DomainsDiffer(a: Message, b: Message)
    requires Domain(a) == Domain(b)
    ensures a.Outcome? == b.Outcome? && a.Announcement? == b.Announcement?
    ensures a.Scores? == b.Scores? && a.EscrowRun? == b.EscrowRun?
  {
    assert REPUTATION_DOMAIN[8] != ESCROW_RUN_DOMAIN[8];
  }

  lemma SecondsInjective(t: i64, u: i64)
    requires Seconds(t) == Seconds(u)
    ensures t == u
  {
    Pow256Values();
    BigEndianRoundTrip(Bits64(t), 8);
    BigEndianRoundTrip(Bits64(u), 8);
  }

  lemma ThreeFields(a: seq<byte>, b: seq<byte>, c: seq<byte>, d: seq<byte>, e: seq<byte>, f: seq<byte>)
    requires a + (ZERO + (b + (ZERO + c))) == d + (ZERO + (e + (ZERO + f)))
    requires |b| == |e| && |c| == |f|
    ensures a == d && b == e && c == f
  {
    assert |a| == |d|;
    Split(a, ZERO + (b + (ZERO + c)), d, ZERO + (e + (ZERO + f)));
    Split(ZERO, b + (ZERO + c), ZERO, e + (ZERO + f));
    Split(b, ZERO + c, e, ZERO + f);
    Split(ZERO, c, ZERO, f);
  }

  lemma TimedFields(t: i64, p: seq<byte>, u: i64, q: seq<byte>)
    requires Seconds(t) + (ZERO + p) == Seconds(u) + (ZERO + q)
    ensures t == u && p == q
  {
    Split(Seconds(t), ZERO + p, Seconds(u), ZERO + q);
    Split(ZERO, p, ZERO, q);
    SecondsInjective(t, u);
  }

  /** Two signed byte strings are equal if and only if they are of the same kind and agree on every
      field: no message of one domain is a message of another. Job ids may hold any bytes. */
  lemma Unambiguous(a: Message, b: Message, sha: Sha)
    ensures Payload(a, sha) == Payload(b, sha) <==> Same(a, b, sha)
  {
    if Payload(a, sha) == Payload(b, sha) {
      DomainsZeroFree(a);
      DomainsZeroFree(b);
      ZeroDelimits(Domain(a), Fields(a, sha), Domain(b), Fields(b, sha));
      DomainsDiffer(a, b);
      match a {
        case Outcome(j, i, o) => ThreeFields(j, sha(i), sha(o), b.job, sha(b.input), sha(b.output));
        case Announcement(t, p) => TimedFields(t, p, b.issuedAt, b.payload);
        case Scores(t, p) => TimedFields(t, p, b.issuedAt, b.payload);
        case EscrowRun(j, i, t) =>
          ThreeFields(j, sha(i), Seconds(t), b.id, sha(b.input), Seconds(b.expiry));
          SecondsInjective(t, b.expiry);
      }
    }
  }

  // ------------------------------------------------------------------ the layout, by position

  /** The `n` bytes of `p` from position `at`. */
  predicate Holds(p: seq<byte>, at: nat, part: seq<byte>) {
    at + |part| <= |p| && p[at..at + |part|] == part
  }

  lemma ThreePlaces(d: seq<byte>, a: seq<byte>, b: seq<byte>, c: seq<byte>)
    ensures var p := d + (ZERO + (a + (ZERO + (b + (ZERO + c)))));
      && |p| == |d| + |a| + |b| + |c| + 3
      && Holds(p, 0, d) && Holds(p, |d|, ZERO) && Holds(p, |d| + 1, a) && Holds(p, |d| + |a| + 1, ZERO)
      && Holds(p, |d| + |a| + 2, b) && Holds(p, |d| + |a| + |b| + 2, ZERO) && Holds(p, |d| + |a| + |b| + 3, c)
  {
  }

  lemma TwoPlaces(d: seq<byte>, a: seq<byte>, b: seq<byte>)
    ensures var p := d + (ZERO + (a + (ZERO + b)));
      && |p| == |d| + |a| + |b| + 2
      && Holds(p, 0, d) && Holds(p, |d|, ZERO) && Holds(p, |d| + 1, a) && Holds(p, |d| + |a| + 1, ZERO)
      && Holds(p, |d| + |a| + 2, b)
  {
  }

  /** Where each field of a signed byte string lies: its domain first, then its fields with a zero
      before each, the input digest before the output digest, times in eight big-endian bytes. */
  lemma Layout(m: Message, sha: Sha)
    ensures var p := Payload(m, sha);
      match m
      case Outcome(job, input, output) =>
        && |p| == 84 + |job| && Holds(p, 0, RESULT_DOMAIN) && Holds(p, 17, ZERO) && Holds(p, 18, job)
        && Holds(p, 18 + |job|, ZERO) && Holds(p, 19 + |job|, sha(input))
        && Holds(p, 51 + |job|, ZERO) && Holds(p, 52 + |job|, sha(output))
      case Announcement(issuedAt, payload) =>
        && |p| == 29 + |payload| && Holds(p, 0, ANNOUNCE_DOMAIN) && Holds(p, 19, ZERO)
        && Holds(p, 20, Seconds(issuedAt)) && Holds(p, 28, ZERO) && Holds(p, 29, payload)
      case Scores(issuedAt, payload) =>
        && |p| == 31 + |payload| && Holds(p, 0, REPUTATION_DOMAIN) && Holds(p, 21, ZERO)
        && Holds(p, 22, Seconds(issuedAt)) && Holds(p, 30, ZERO) && Holds(p, 31, payload)
      case EscrowRun(id, input, expiry) =>
        && |p| == 80 && Holds(p, 0, ESCROW_RUN_DOMAIN) && Holds(p, 21, ZERO) && Holds(p, 22, id)
        && Holds(p, 38, ZERO) && Holds(p, 39, sha(input)) && Holds(p, 71, ZERO) && Holds(p, 72, Seconds(expiry))
  {
    match m
    case Outcome(job, input, output) => ThreePlaces(RESULT_DOMAIN, job, sha(input), sha(output));
    case Announcement(issuedAt, payload) => TwoPlaces(ANNOUNCE_DOMAIN, Seconds(issuedAt), payload);
    case Scores(issuedAt, payload) => TwoPlaces(REPUTATION_DOMAIN, Seconds(issuedAt), payload);
    case EscrowRun(id, input, expiry) => ThreePlaces(ESCROW_RUN_DOMAIN, id, sha(input), Seconds(expiry));
  }

  /** The eight bytes of a time are a big-endian number, negative times in two's complement. */
  lemma SecondsRead(t: i64)
    ensures FromBigEndian(Seconds(t)) == if t < 0 then t + TWO_64 else t
  {
    Pow256Values();
    BigEndianRoundTrip(Bits64(t), 8);
  }

  // ------------------------------------------------------------------ the builders

  lemma Regroup(d: seq<byte>, a: seq<byte>, rest: seq<byte>)
    ensures (d + ZERO) + (a + rest) == d + (ZERO + (a + rest))
    ensures ((d + ZERO) + a) + rest == d + (ZERO + (a + rest))
  {
    Seqs.Assoc(d, ZERO, a + rest);
    Seqs.Assoc(d + ZERO, a, rest);
  }

  method ThreePart(domain: seq<byte>, a: seq<byte>, b: seq<byte>, c: seq<byte>) returns (msg: seq<byte>)
    ensures msg == domain + (ZERO + (a + (ZERO + (b + (ZERO + c)))))
  {
    msg := domain;
    msg := msg + ZERO;
    msg := msg + a;
    Regroup(domain, a, ZERO + (b + (ZERO + c)));
    ghost var head := msg;
    msg := msg + ZERO;
    msg := msg + b;
    Regroup(head, b, ZERO + c);
    ghost var more := msg;
    msg := msg + ZERO;
    msg := msg + c;
    Seqs.Assoc(more, ZERO, c);
  }

  method SigningPayload(job: seq<byte>, input: seq<byte>, output: seq<byte>, sha: Sha) returns (msg: seq<byte>)
    ensures msg == Payload(Outcome(job, input, output), sha)
  {
    msg := ThreePart(RESULT_DOMAIN, job, sha(input), sha(output));
  }

  method RunAuthMessage(id: JobId, input: seq<byte>, expiry: i64, sha: Sha) returns (msg: seq<byte>)
    ensures msg == Payload(EscrowRun(id, input, expiry), sha)
  {
    msg := ThreePart(ESCROW_RUN_DOMAIN, id, sha(input), Seconds(expiry));
  }

  method AnnounceSigningPayload(issuedAt: i64, payload: seq<byte>, sha: Sha) returns (msg: seq<byte>)
    ensures msg == Payload(Announcement(issuedAt, payload), sha)
  {
    msg := ANNOUNCE_DOMAIN;
    msg := msg + ZERO;
    msg := msg + Seconds(issuedAt);
    Regroup(ANNOUNCE_DOMAIN, Seconds(issuedAt), ZERO + payload);
    ghost var head := msg;
    msg := msg + ZERO;
    msg := msg + payload;
    Seqs.Assoc(head, ZERO, payload);
  }

  method ReputationSigningPayload(issuedAt: i64, payload: seq<byte>, sha: Sha) returns (msg: seq<byte>)
    ensures msg == Payload(Scores(issuedAt, payload), sha)
  {
    msg := REPUTATION_DOMAIN;
    msg := msg + ZERO;
    msg := msg + Seconds(issuedAt);
    Regroup(REPUTATION_DOMAIN, Seconds(issuedAt), ZERO + payload);
    ghost var head := msg;
    msg := msg + ZERO;
    msg := msg + payload;
    Seqs.Assoc(head, ZERO, payload);
  }
}
